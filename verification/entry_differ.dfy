/**
 * `entryDiff`: two entries with the same uid are compared key by key over
 * the union of their keys.  The `fields` key, when it is an array on both
 * sides, is compared field by field, and a field holding blocks is handed
 * to the block differ at depth 10; every other key is one opaque pair.  The
 * result is null when nothing was reported.
 */
module EntryDiffer {
  import opened OrderedMap
  import opened PhpValue
  import opened ValueEquality
  import opened BlockDiffer
  import opened BlockDifferFacts

  /** The depth `entryDiff` hands to `expandMatrixFieldDiffs`. */
  const ExpandDepth: int := 10

  /** `['current' => $current, 'remote' => $remote, 'fieldDiffs' => $fieldDiffs]` */
  datatype EntryChange = EntryChange(current: seq<(string, Value)>, remote: seq<(string, Value)>, fieldDiffs: Diffs)

  /** `$fieldDiffs` once every key of either entry has been visited. */
  function FieldDiffs(current: seq<(string, Value)>, remote: seq<(string, Value)>): Diffs
  {
    var keys := UnionKeys(current, remote);
    KeySteps([], current, remote, keys, |keys|)
  }

  /** What `entryDiff($current, $remote)` returns: null when no difference was reported. */
  function EntryChangeOf(current: seq<(string, Value)>, remote: seq<(string, Value)>): Option<EntryChange>
  {
    var fd := FieldDiffs(current, remote);
    if fd == [] then None else Some(EntryChange(current, remote, fd))
  }

  /** The loop over the entry's keys, after `n` of them. */
  function KeySteps(out: Diffs, current: seq<(string, Value)>, remote: seq<(string, Value)>, keys: seq<string>, n: nat): Diffs
    requires n <= |keys|
  {
    if n == 0 then out else KeyStep(KeySteps(out, current, remote, keys, n - 1), current, remote, keys[n - 1])
  }

  /** One key: `fields` (an array on both sides) field by field, any other key as one opaque pair. */
  function KeyStep(out: Diffs, current: seq<(string, Value)>, remote: seq<(string, Value)>, key: string): Diffs
  {
    var c, r := Lookup(current, key), Lookup(remote, key);
    if key == "fields" && c.Arr? && r.Arr? then
      var handles := UnionKeys(c.entries, r.entries);
      FieldSteps(out, c.entries, r.entries, handles, |handles|)
    else if ValueChanged(c, r) then Put(out, key, Pair(c, r))
    else out
  }

  /** The loop over the union of both sides' field handles, after `n` of them. */
  function FieldSteps(out: Diffs, cf: seq<(string, Value)>, rf: seq<(string, Value)>, handles: seq<string>, n: nat): Diffs
    requires n <= |handles|
  {
    if n == 0 then out else FieldStep(FieldSteps(out, cf, rf, handles, n - 1), cf, rf, handles[n - 1])
  }

  /** One field: skipped when unchanged, expanded when a side holds blocks, otherwise the opaque pair. */
  function FieldStep(out: Diffs, cf: seq<(string, Value)>, rf: seq<(string, Value)>, h: string): Diffs
  {
    var fc, fr := Lookup(cf, h), Lookup(rf, h);
    if !ValueChanged(fc, fr) then out
    else if IsMatrixLike(fc) || IsMatrixLike(fr) then MergedExpansion(out, h, fc, fr, ExpandDepth)
    else Put(out, h, Pair(fc, fr))
  }

  /** `entryDiff`: the loops of the source, proved to compute `EntryChangeOf`. */
  method EntryDiff(current: seq<(string, Value)>, remote: seq<(string, Value)>) returns (diff: Option<EntryChange>)
    ensures diff == EntryChangeOf(current, remote)
  {
    var fieldDiffs: Diffs := [];
    var keys := UnionKeys(current, remote);
    var n := 0;
    while n < |keys|
      invariant 0 <= n <= |keys|
      invariant fieldDiffs == KeySteps([], current, remote, keys, n)
    {
      fieldDiffs := DiffKey(fieldDiffs, current, remote, keys[n]);
      n := n + 1;
    }
    assert fieldDiffs == FieldDiffs(current, remote);
    if fieldDiffs == [] {
      return None;
    }
    return Some(EntryChange(current, remote, fieldDiffs));
  }

  /** The body of the loop over the entry's keys. */
  method DiffKey(out0: Diffs, current: seq<(string, Value)>, remote: seq<(string, Value)>, key: string) returns (out: Diffs)
    ensures out == KeyStep(out0, current, remote, key)
  {
    out := out0;
    var c := Lookup(current, key);
    var r := Lookup(remote, key);
    if key == "fields" && c.Arr? && r.Arr? {
      out := DiffFields(out, c.entries, r.entries);
      return;
    }
    if ValueChanged(c, r) {
      out := Put(out, key, Pair(c, r));
    }
  }

  /** The loop over the field handles of `fields`. */
  method DiffFields(out0: Diffs, cf: seq<(string, Value)>, rf: seq<(string, Value)>) returns (out: Diffs)
    ensures out == FieldSteps(out0, cf, rf, UnionKeys(cf, rf), |UnionKeys(cf, rf)|)
  {
    out := out0;
    var handles := UnionKeys(cf, rf);
    var j := 0;
    while j < |handles|
      invariant 0 <= j <= |handles|
      invariant out == FieldSteps(out0, cf, rf, handles, j)
    {
      out := DiffField(out, cf, rf, handles[j]);
      j := j + 1;
    }
  }

  /** The body of the loop over field handles. */
  method DiffField(out0: Diffs, cf: seq<(string, Value)>, rf: seq<(string, Value)>, fieldHandle: string) returns (out: Diffs)
    ensures out == FieldStep(out0, cf, rf, fieldHandle)
  {
    out := out0;
    var fc := Lookup(cf, fieldHandle);
    var fr := Lookup(rf, fieldHandle);
    if !ValueChanged(fc, fr) {
      return;
    }
    if IsMatrixLike(fc) || IsMatrixLike(fr) {
      out := MergeExpansion(out, fieldHandle, fc, fr, ExpandDepth);
    } else {
      out := Put(out, fieldHandle, Pair(fc, fr));
    }
  }

  // ---------------------------------------------------------------------
  // Properties
  // ---------------------------------------------------------------------

  /** Key `key` shows no difference: field by field for `fields`, as one value otherwise. */
  ghost predicate KeyUnchanged(current: seq<(string, Value)>, remote: seq<(string, Value)>, key: string)
  {
    var c, r := Lookup(current, key), Lookup(remote, key);
    if key == "fields" && c.Arr? && r.Arr? then
      forall h :: !ValueChanged(Lookup(c.entries, h), Lookup(r.entries, h))
    else !ValueChanged(c, r)
  }

  /** Every difference of key `key` shows up in `d`. */
  ghost predicate KeyReported(d: Diffs, current: seq<(string, Value)>, remote: seq<(string, Value)>, key: string)
  {
    var c, r := Lookup(current, key), Lookup(remote, key);
    if key == "fields" && c.Arr? && r.Arr? then
      forall h :: ValueChanged(Lookup(c.entries, h), Lookup(r.entries, h)) ==> FieldReported(d, h)
    else ValueChanged(c, r) ==> key in KeySet(d)
  }

  lemma {:induction false} FieldStepsGrow(out: Diffs, cf: seq<(string, Value)>, rf: seq<(string, Value)>, handles: seq<string>, n: nat)
    requires n <= |handles|
    ensures Grows(out, FieldSteps(out, cf, rf, handles, n), "")
  {
    if n > 0 {
      var before := FieldSteps(out, cf, rf, handles, n - 1);
      FieldStepsGrow(out, cf, rf, handles, n - 1);
      FieldStepGrows(before, cf, rf, handles[n - 1]);
      GrowsTrans(out, before, FieldSteps(out, cf, rf, handles, n), "");
    }
  }

  lemma FieldStepGrows(out: Diffs, cf: seq<(string, Value)>, rf: seq<(string, Value)>, h: string)
    ensures Grows(out, FieldStep(out, cf, rf, h), "")
  {
    var fc, fr := Lookup(cf, h), Lookup(rf, h);
    if ValueChanged(fc, fr) {
      if IsMatrixLike(fc) || IsMatrixLike(fr) {
        MergedExpansionGrows(out, h, fc, fr, ExpandDepth);
        GrowsWeaken(out, MergedExpansion(out, h, fc, fr, ExpandDepth), "", h);
      } else {
        PutGrows(out, h, Pair(fc, fr), "");
      }
    }
  }

  lemma KeyStepGrows(out: Diffs, current: seq<(string, Value)>, remote: seq<(string, Value)>, key: string)
    ensures Grows(out, KeyStep(out, current, remote, key), "")
  {
    var c, r := Lookup(current, key), Lookup(remote, key);
    if key == "fields" && c.Arr? && r.Arr? {
      var handles := UnionKeys(c.entries, r.entries);
      FieldStepsGrow(out, c.entries, r.entries, handles, |handles|);
    } else if ValueChanged(c, r) {
      PutGrows(out, key, Pair(c, r), "");
    }
  }

  lemma {:induction false} KeyStepsGrow(out: Diffs, current: seq<(string, Value)>, remote: seq<(string, Value)>,
                                        keys: seq<string>, m: nat, n: nat)
    requires m <= n <= |keys|
    ensures Grows(KeySteps(out, current, remote, keys, m), KeySteps(out, current, remote, keys, n), "")
    decreases n
  {
    if m < n {
      KeyStepsGrow(out, current, remote, keys, m, n - 1);
      KeyStepsLastGrows(out, current, remote, keys, n);
      GrowsTrans(KeySteps(out, current, remote, keys, m), KeySteps(out, current, remote, keys, n - 1),
                 KeySteps(out, current, remote, keys, n), "");
    }
  }

  /** The `n`-th iteration over the entry's keys only adds changed pairs. */
  lemma KeyStepsLastGrows(out: Diffs, current: seq<(string, Value)>, remote: seq<(string, Value)>, keys: seq<string>, n: nat)
    requires 0 < n <= |keys|
    ensures Grows(KeySteps(out, current, remote, keys, n - 1), KeySteps(out, current, remote, keys, n), "")
  {
    KeyStepGrows(KeySteps(out, current, remote, keys, n - 1), current, remote, keys[n - 1]);
  }

  /**
   * Soundness of `entryDiff`: `fieldDiffs` is a PHP array (distinct labels)
   * and every pair in it is one that `valueChanged` reports as different.
   */
  lemma FieldDiffsSound(current: seq<(string, Value)>, remote: seq<(string, Value)>)
    ensures DistinctKeys(FieldDiffs(current, remote))
    ensures forall p | p in FieldDiffs(current, remote) :: ValueChanged(p.1.current, p.1.remote)
  {
    var keys := UnionKeys(current, remote);
    KeyStepsGrow([], current, remote, keys, 0, |keys|);
  }

  /** A changed field is reported by its own iteration. */
  lemma FieldStepReports(out: Diffs, cf: seq<(string, Value)>, rf: seq<(string, Value)>, h: string)
    requires ValueChanged(Lookup(cf, h), Lookup(rf, h))
    ensures FieldReported(FieldStep(out, cf, rf, h), h)
  {
    var fc, fr := Lookup(cf, h), Lookup(rf, h);
    if IsMatrixLike(fc) || IsMatrixLike(fr) {
      var d := MergedExpansion(out, h, fc, fr, ExpandDepth);
      var nested := Expand(h, fc, fr, ExpandDepth);
      MergedExpansionSpec(out, h, fc, fr, ExpandDepth);
      if nested != [] {
        var l := nested[0].0;
        ExpansionLabelHead(h, fc, fr, ExpandDepth, nested[0]);
        assert Get(d, l).Some?;
      }
    } else {
      PutSpec(out, h, Pair(fc, fr));
    }
  }

  /** Every changed field among the first `n` handles is reported. */
  lemma {:induction false} FieldStepsReport(out: Diffs, cf: seq<(string, Value)>, rf: seq<(string, Value)>, handles: seq<string>, n: nat)
    requires n <= |handles|
    ensures forall h | h in handles[..n] && ValueChanged(Lookup(cf, h), Lookup(rf, h)) :: FieldReported(FieldSteps(out, cf, rf, handles, n), h)
  {
    if n > 0 {
      var before := FieldSteps(out, cf, rf, handles, n - 1);
      var after := FieldSteps(out, cf, rf, handles, n);
      FieldStepsReport(out, cf, rf, handles, n - 1);
      FieldStepsLastReports(out, cf, rf, handles, n);
      forall h | h in handles[..n] && ValueChanged(Lookup(cf, h), Lookup(rf, h)) ensures FieldReported(after, h) {
        if h != handles[n - 1] {
          assert h in handles[..n - 1] by {
            var j :| 0 <= j < n && handles[..n][j] == h;
            assert handles[..n - 1][j] == h;
          }
          FieldReportedKept(before, after, h);
        }
      }
    }
  }

  /** The `n`-th iteration over field handles keeps every key and reports its own field when changed. */
  lemma FieldStepsLastReports(out: Diffs, cf: seq<(string, Value)>, rf: seq<(string, Value)>, handles: seq<string>, n: nat)
    requires 0 < n <= |handles|
    ensures KeySet(FieldSteps(out, cf, rf, handles, n - 1)) <= KeySet(FieldSteps(out, cf, rf, handles, n))
    ensures ValueChanged(Lookup(cf, handles[n - 1]), Lookup(rf, handles[n - 1])) ==>
      FieldReported(FieldSteps(out, cf, rf, handles, n), handles[n - 1])
  {
    var before := FieldSteps(out, cf, rf, handles, n - 1);
    FieldStepGrows(before, cf, rf, handles[n - 1]);
    if ValueChanged(Lookup(cf, handles[n - 1]), Lookup(rf, handles[n - 1])) {
      FieldStepReports(before, cf, rf, handles[n - 1]);
    }
  }

  /** The iteration for `key` reports every difference of `key`. */
  lemma KeyStepReports(out: Diffs, current: seq<(string, Value)>, remote: seq<(string, Value)>, key: string)
    ensures KeyReported(KeyStep(out, current, remote, key), current, remote, key)
  {
    var c, r := Lookup(current, key), Lookup(remote, key);
    if key == "fields" && c.Arr? && r.Arr? {
      var handles := UnionKeys(c.entries, r.entries);
      FieldStepsReport(out, c.entries, r.entries, handles, |handles|);
      forall h | ValueChanged(Lookup(c.entries, h), Lookup(r.entries, h))
        ensures FieldReported(KeyStep(out, current, remote, key), h)
      {
        ChangedKeyPresent(c.entries, r.entries, h);
        assert handles[..|handles|] == handles;
      }
    } else if ValueChanged(c, r) {
      PutSpec(out, key, Pair(c, r));
    }
  }

  lemma KeyReportedKept(d: Diffs, e: Diffs, current: seq<(string, Value)>, remote: seq<(string, Value)>, key: string)
    requires KeyReported(d, current, remote, key) && KeySet(d) <= KeySet(e)
    ensures KeyReported(e, current, remote, key)
  {
    var c, r := Lookup(current, key), Lookup(remote, key);
    if key == "fields" && c.Arr? && r.Arr? {
      forall h | ValueChanged(Lookup(c.entries, h), Lookup(r.entries, h)) ensures FieldReported(e, h) {
        FieldReportedKept(d, e, h);
      }
    }
  }

  /**
   * Completeness of `entryDiff`: every key whose values differ is reported
   * under that key, and every changed field of `fields` is reported under
   * its handle or through its expansion.
   */
  lemma FieldDiffsComplete(current: seq<(string, Value)>, remote: seq<(string, Value)>, key: string)
    ensures KeyReported(FieldDiffs(current, remote), current, remote, key)
  {
    var keys := UnionKeys(current, remote);
    var fd := FieldDiffs(current, remote);
    UnionKeysSpec(current, remote);
    if key in keys {
      var j :| 0 <= j < |keys| && keys[j] == key;
      var before := KeySteps([], current, remote, keys, j);
      var after := KeySteps([], current, remote, keys, j + 1);
      KeyStepReports(before, current, remote, key);
      assert after == KeyStep(before, current, remote, key);
      KeyStepsGrow([], current, remote, keys, j + 1, |keys|);
      assert fd == KeySteps([], current, remote, keys, |keys|);
      KeyReportedKept(after, fd, current, remote, key);
    } else {
      assert Lookup(current, key) == Null && Lookup(remote, key) == Null;
    }
  }

  lemma {:induction false} KeyStepsIdle(out: Diffs, current: seq<(string, Value)>, remote: seq<(string, Value)>, keys: seq<string>, n: nat)
    requires n <= |keys|
    requires forall k :: KeyUnchanged(current, remote, k)
    ensures KeySteps(out, current, remote, keys, n) == out
  {
    if n > 0 {
      KeyStepsIdle(out, current, remote, keys, n - 1);
      KeyStepIdle(out, current, remote, keys[n - 1]);
    }
  }

  lemma KeyStepIdle(out: Diffs, current: seq<(string, Value)>, remote: seq<(string, Value)>, key: string)
    requires KeyUnchanged(current, remote, key)
    ensures KeyStep(out, current, remote, key) == out
  {
    var c, r := Lookup(current, key), Lookup(remote, key);
    if key == "fields" && c.Arr? && r.Arr? {
      var handles := UnionKeys(c.entries, r.entries);
      FieldStepsIdle(out, c.entries, r.entries, handles, |handles|);
    }
  }

  lemma {:induction false} FieldStepsIdle(out: Diffs, cf: seq<(string, Value)>, rf: seq<(string, Value)>, handles: seq<string>, n: nat)
    requires n <= |handles|
    requires forall h :: !ValueChanged(Lookup(cf, h), Lookup(rf, h))
    ensures FieldSteps(out, cf, rf, handles, n) == out
  {
    if n > 0 {
      FieldStepsIdle(out, cf, rf, handles, n - 1);
    }
  }

  /**
   * `entryDiff` returns null exactly when no key differs, comparing
   * `fields` field by field when it is an array on both sides.
   */
  lemma EntryNullIff(current: seq<(string, Value)>, remote: seq<(string, Value)>)
    ensures EntryChangeOf(current, remote) == None <==> forall k :: KeyUnchanged(current, remote, k)
  {
    var keys := UnionKeys(current, remote);
    var fd := FieldDiffs(current, remote);
    if forall k :: KeyUnchanged(current, remote, k) {
      KeyStepsIdle([], current, remote, keys, |keys|);
    } else {
      var k :| !KeyUnchanged(current, remote, k);
      FieldDiffsComplete(current, remote, k);
      var c, r := Lookup(current, k), Lookup(remote, k);
      if k == "fields" && c.Arr? && r.Arr? {
        var h :| ValueChanged(Lookup(c.entries, h), Lookup(r.entries, h));
        assert FieldReported(fd, h);
      }
      assert KeySet(fd) != {};
    }
  }

  /** An entry compared with itself yields null. */
  lemma EntrySelf(x: seq<(string, Value)>)
    ensures EntryChangeOf(x, x) == None
  {
    EntryNullIff(x, x);
  }

  /** Whether `entryDiff` finds a difference does not depend on the order of its arguments. */
  lemma EntryNullSymmetric(a: seq<(string, Value)>, b: seq<(string, Value)>)
    requires WellFormed(Arr(a)) && WellFormed(Arr(b))
    ensures EntryChangeOf(a, b).None? <==> EntryChangeOf(b, a).None?
  {
    EntryNullIff(a, b);
    EntryNullIff(b, a);
    forall k ensures KeyUnchanged(a, b, k) <==> KeyUnchanged(b, a, k) {
      var c, r := Lookup(a, k), Lookup(b, k);
      LookupWellFormed(a, k);
      LookupWellFormed(b, k);
      ValueChangedSymmetric(c, r);
      if k == "fields" && c.Arr? && r.Arr? {
        forall h ensures ValueChanged(Lookup(c.entries, h), Lookup(r.entries, h)) == ValueChanged(Lookup(r.entries, h), Lookup(c.entries, h)) {
          LookupWellFormed(c.entries, h);
          LookupWellFormed(r.entries, h);
          ValueChangedSymmetric(Lookup(c.entries, h), Lookup(r.entries, h));
        }
      }
    }
  }

  /**
   * One field of `fields`: a changed field holding blocks on either side is
   * expanded at depth 10, every pair of the expansion recorded under its
   * label and the opaque pair under the handle only when the expansion is
   * empty, and no label outside the expansion and the handle changes; any
   * other changed field is the opaque pair under its handle.
   */
  lemma FieldStepSpec(out: Diffs, cf: seq<(string, Value)>, rf: seq<(string, Value)>, h: string)
    ensures var fc, fr, d := Lookup(cf, h), Lookup(rf, h), FieldStep(out, cf, rf, h);
      && (!ValueChanged(fc, fr) ==> d == out)
      && (ValueChanged(fc, fr) && (IsMatrixLike(fc) || IsMatrixLike(fr)) ==>
            && (forall p | p in Expand(h, fc, fr, 10) :: Get(d, p.0) == Some(p.1))
            && (Expand(h, fc, fr, 10) == [] ==> Get(d, h) == Some(Pair(fc, fr)))
            && (Expand(h, fc, fr, 10) != [] ==> Get(d, h) == Get(out, h))
            && (forall k | k != h && k !in KeySet(Expand(h, fc, fr, 10)) :: Get(d, k) == Get(out, k)))
      && (ValueChanged(fc, fr) && !IsMatrixLike(fc) && !IsMatrixLike(fr) ==>
            Get(d, h) == Some(Pair(fc, fr)) && forall k | k != h :: Get(d, k) == Get(out, k))
  {
    var fc, fr := Lookup(cf, h), Lookup(rf, h);
    if ValueChanged(fc, fr) {
      if IsMatrixLike(fc) || IsMatrixLike(fr) {
        MergedExpansionSpec(out, h, fc, fr, ExpandDepth);
      } else {
        PutSpec(out, h, Pair(fc, fr));
      }
    }
  }

  /**
   * One top-level key other than an array-on-both-sides `fields`: a changed
   * value is the opaque pair under the key itself and no other label
   * changes; an unchanged value leaves the diffs as they were.
   */
  lemma KeyStepSpec(out: Diffs, current: seq<(string, Value)>, remote: seq<(string, Value)>, key: string)
    ensures var c, r, d := Lookup(current, key), Lookup(remote, key), KeyStep(out, current, remote, key);
      !(key == "fields" && c.Arr? && r.Arr?) ==>
        && (!ValueChanged(c, r) ==> d == out)
        && (ValueChanged(c, r) ==> Get(d, key) == Some(Pair(c, r)) && forall k | k != key :: Get(d, k) == Get(out, k))
  {
    var c, r := Lookup(current, key), Lookup(remote, key);
    if !(key == "fields" && c.Arr? && r.Arr?) && ValueChanged(c, r) {
      PutSpec(out, key, Pair(c, r));
    }
  }

  /**
   * Fields compare loosely at the top: `5` against `"5"` in a field is no
   * difference, although the two `fields` arrays differ under the strict
   * comparison of nested leaves.
   */
  lemma LooseFieldExample()
    ensures ValueChanged(Arr([("a", Int(5))]), Arr([("a", Str("5"))]))
    ensures EntryChangeOf([("fields", Arr([("a", Int(5))]))], [("fields", Arr([("a", Str("5"))]))]) == None
  {
    NestedLeavesAreStrict();
    var current, remote := [("fields", Arr([("a", Int(5))]))], [("fields", Arr([("a", Str("5"))]))];
    forall k ensures KeyUnchanged(current, remote, k) {
      if k == "fields" {
        assert Lookup(current, k) == Arr([("a", Int(5))]) by { assert Get(current, k) == Some(Arr([("a", Int(5))])); }
        assert Lookup(remote, k) == Arr([("a", Str("5"))]) by { assert Get(remote, k) == Some(Arr([("a", Str("5"))])); }
        forall h ensures !ValueChanged(Lookup([("a", Int(5))], h), Lookup([("a", Str("5"))], h)) {
          if h == "a" {
            assert Get([("a", Int(5))], h) == Some(Int(5));
            assert Get([("a", Str("5"))], h) == Some(Str("5"));
            IntegerEqualsItsString(5);
            assert IntToString(5) == "5";
          }
        }
      }
    }
    EntryNullIff(current, remote);
  }
}
