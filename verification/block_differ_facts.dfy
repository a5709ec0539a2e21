/**
 * What `expandMatrixFieldDiffs` promises, proved about the specification
 * functions of `BlockDiffer`: every reported pair is a real difference filed
 * under its position's label, unchanged positions add nothing, a `(type)`
 * entry appears exactly when the two types differ, and a changed sub-field
 * is either one opaque pair or its recursive expansion, with the opaque pair
 * as the fallback when that expansion is empty.
 */
module BlockDifferFacts {
  import opened OrderedMap
  import opened PhpValue
  import opened ValueEquality
  import opened BlockDiffer

  /**
   * `d` grows out of `out`: no key of `out` is lost, distinct keys stay
   * distinct, and every pair that is not already in `out` is a real
   * difference whose label starts with `s`.
   */
  ghost predicate Grows(out: Diffs, d: Diffs, s: string)
  {
    && KeySet(out) <= KeySet(d)
    && (DistinctKeys(out) ==> DistinctKeys(d))
    && forall p | p in d :: p in out || (s <= p.0 && ValueChanged(p.1.current, p.1.remote))
  }

  lemma PrefixAppend(s: string, t: string, u: string)
    requires s <= t
    ensures s <= t + u
  {
    assert (t + u)[..|t|] == t;
  }

  lemma PrefixTrans(a: string, b: string, c: string)
    requires a <= b && b <= c
    ensures a <= c
  {
    assert c[..|b|][..|a|] == c[..|a|];
  }

  lemma GrowsTrans(a: Diffs, b: Diffs, c: Diffs, s: string)
    requires Grows(a, b, s) && Grows(b, c, s)
    ensures Grows(a, c, s)
  {
  }

  lemma GrowsWeaken(out: Diffs, d: Diffs, s: string, t: string)
    requires Grows(out, d, t) && s <= t
    ensures Grows(out, d, s)
  {
    forall p | p in d && p !in out ensures s <= p.0 {
      PrefixTrans(s, t, p.0);
    }
  }

  lemma PutGrows(out: Diffs, k: string, pr: Pair, s: string)
    requires s <= k && ValueChanged(pr.current, pr.remote)
    ensures Grows(out, Put(out, k, pr), s)
  {
    PutSpec(out, k, pr);
  }

  /** A label for position `i` starts with the field's own label. */
  lemma HandlePrefixesHead(handle: string, i: nat)
    ensures handle <= BlockHead(handle, i)
  {
    assert BlockHead(handle, i) == handle + (BlockWord + NatToString(i + 1) + " (");
  }

  /** Attribute and sub-field labels of position `i` start with `BlockHead(handle, i)`. */
  lemma HeadPrefixesSubLabels(handle: string, i: nat, typeLabel: string)
    ensures BlockHead(handle, i) <= BlockPrefix(handle, i, typeLabel) + ": "
  {
    var h := BlockHead(handle, i);
    assert BlockPrefix(handle, i, typeLabel) + ": " == h + (typeLabel + ")" + ": ");
  }

  /** Two types whose names differ are two values `valueChanged` tells apart. */
  lemma TypeEntryChanged(cb: Value, rb: Value)
    requires TypeName(RawType(cb)) != TypeName(RawType(rb))
    ensures ValueChanged(RawType(cb), RawType(rb))
  {
    var a, b := RawType(cb), RawType(rb);
    if !a.Arr? && !b.Arr? {
      assert TypeName(a) == CastToString(a) && TypeName(b) == CastToString(b);
    }
  }

  /** The attribute loop only adds real differences labelled `"{prefix}: {attribute}"`. */
  lemma {:induction false} AttributeStepsGrow(out: Diffs, prefix: string, cb: Value, rb: Value, n: nat)
    requires n <= |Attributes|
    ensures Grows(out, AttributeSteps(out, prefix, cb, rb, n), prefix + ": ")
  {
    if n > 0 {
      var before := AttributeSteps(out, prefix, cb, rb, n - 1);
      AttributeStepsGrow(out, prefix, cb, rb, n - 1);
      var k := Attributes[n - 1];
      var cv, rv := Attribute(cb, k), Attribute(rb, k);
      if ValueChanged(cv, rv) {
        PrefixAppend(prefix + ": ", prefix + ": ", k);
        PutGrows(before, SubLabel(prefix, k), Pair(cv, rv), prefix + ": ");
        GrowsTrans(out, before, AttributeSteps(out, prefix, cb, rb, n), prefix + ": ");
      }
    }
  }

  /**
   * Soundness of the expansion: it is a PHP array (distinct labels), every
   * pair in it is one that `valueChanged` reports as different, and every
   * label starts with `"{handle} — Block {i+1} ("` for a position `i` that
   * exists on one side or the other.
   */
  lemma {:induction false} ExpandSound(handle: string, c: Value, r: Value, depth: int)
    ensures DistinctKeys(Expand(handle, c, r, depth))
    ensures forall p | p in Expand(handle, c, r, depth) ::
      && ValueChanged(p.1.current, p.1.remote)
      && exists i :: 0 <= i < Max(|Blocks(c)|, |Blocks(r)|) && BlockHead(handle, i) <= p.0
    decreases depth, 3, 0
  {
    var cs, rs := Blocks(c), Blocks(r);
    PositionsSound(handle, cs, rs, depth, Max(|cs|, |rs|));
  }

  lemma {:induction false} PositionsSound(handle: string, cs: seq<Value>, rs: seq<Value>, depth: int, n: nat)
    ensures DistinctKeys(Positions(handle, cs, rs, depth, n))
    ensures forall p | p in Positions(handle, cs, rs, depth, n) ::
      && ValueChanged(p.1.current, p.1.remote)
      && exists i :: 0 <= i < n && BlockHead(handle, i) <= p.0
    decreases depth, 2, n
  {
    if n > 0 {
      var before := Positions(handle, cs, rs, depth, n - 1);
      var after := Positions(handle, cs, rs, depth, n);
      PositionsSound(handle, cs, rs, depth, n - 1);
      PositionStepGrows(before, handle, cs, rs, n - 1, depth);
      assert after == PositionStep(before, handle, cs, rs, n - 1, depth);
      forall p | p in after
        ensures ValueChanged(p.1.current, p.1.remote)
        ensures exists i :: 0 <= i < n && BlockHead(handle, i) <= p.0
      {
        if p in before {
          var i :| 0 <= i < n - 1 && BlockHead(handle, i) <= p.0;
        } else {
          assert BlockHead(handle, n - 1) <= p.0;
        }
      }
    }
  }

  /** The iteration for position `k` adds only real differences filed under `BlockHead(handle, k)`. */
  lemma {:induction false} PositionStepGrows(out: Diffs, handle: string, cs: seq<Value>, rs: seq<Value>, k: nat, depth: int)
    ensures Grows(out, PositionStep(out, handle, cs, rs, k, depth), BlockHead(handle, k))
    decreases depth, 1, 2
  {
    BlockStepGrows(out, handle, k, BlockAt(cs, k), BlockAt(rs, k), depth);
  }

  /** One position adds only real differences filed under `BlockHead(handle, i)`. */
  lemma {:induction false} BlockStepGrows(out: Diffs, handle: string, i: nat, cb: Value, rb: Value, depth: int)
    ensures Grows(out, BlockStep(out, handle, i, cb, rb, depth), BlockHead(handle, i))
    decreases depth, 1, 1
  {
    var head := BlockHead(handle, i);
    var typed := TypeStep(out, handle, i, cb, rb);
    TypeStepGrows(out, handle, i, cb, rb);
    var prefix := BlockPrefix(handle, i, DisplayType(cb, rb));
    BlockRestGrows(typed, prefix, cb, rb, depth);
    HeadPrefixesSubLabels(handle, i, DisplayType(cb, rb));
    GrowsWeaken(typed, BlockRest(typed, prefix, cb, rb, depth), head, prefix + ": ");
    GrowsTrans(out, typed, BlockRest(typed, prefix, cb, rb, depth), head);
  }

  /** The `(type)` entry is a real difference filed under `BlockHead(handle, i)`. */
  lemma TypeStepGrows(out: Diffs, handle: string, i: nat, cb: Value, rb: Value)
    ensures Grows(out, TypeStep(out, handle, i, cb, rb), BlockHead(handle, i))
  {
    var head := BlockHead(handle, i);
    if TypeName(RawType(cb)) != TypeName(RawType(rb)) {
      TypeEntryChanged(cb, rb);
      PrefixAppend(head, head, "type)");
      PutGrows(out, TypeLabel(handle, i), Pair(RawType(cb), RawType(rb)), head);
    }
  }

  /** The attribute and sub-field loops add only real differences labelled `"{prefix}: …"`. */
  lemma {:induction false} BlockRestGrows(typed: Diffs, prefix: string, cb: Value, rb: Value, depth: int)
    ensures Grows(typed, BlockRest(typed, prefix, cb, rb, depth), prefix + ": ")
    decreases depth, 1, 0
  {
    var attributed := AttributeSteps(typed, prefix, cb, rb, |Attributes|);
    AttributeStepsGrow(typed, prefix, cb, rb, |Attributes|);
    var cf, rf := BlockFields(cb), BlockFields(rb);
    var handles := UnionKeys(cf, rf);
    SubFieldStepsGrow(attributed, prefix, cf, rf, handles, depth, |handles|);
    GrowsTrans(typed, attributed, BlockRest(typed, prefix, cb, rb, depth), prefix + ": ");
  }

  lemma {:induction false} SubFieldStepsGrow(out: Diffs, prefix: string, cf: seq<(string, Value)>, rf: seq<(string, Value)>,
                                             handles: seq<string>, depth: int, n: nat)
    requires n <= |handles|
    ensures Grows(out, SubFieldSteps(out, prefix, cf, rf, handles, depth, n), prefix + ": ")
    decreases depth, 0, n + 2
  {
    if n > 0 {
      var before := SubFieldSteps(out, prefix, cf, rf, handles, depth, n - 1);
      SubFieldStepsGrow(out, prefix, cf, rf, handles, depth, n - 1);
      SubFieldStepGrows(before, prefix, cf, rf, handles[n - 1], depth);
      GrowsTrans(out, before, SubFieldSteps(out, prefix, cf, rf, handles, depth, n), prefix + ": ");
    }
  }

  lemma {:induction false} SubFieldStepGrows(out: Diffs, prefix: string, cf: seq<(string, Value)>, rf: seq<(string, Value)>,
                                             h: string, depth: int)
    ensures Grows(out, SubFieldStep(out, prefix, cf, rf, h, depth), prefix + ": ")
    decreases depth, 0, 1
  {
    var cv, rv := Lookup(cf, h), Lookup(rf, h);
    var key := SubLabel(prefix, h);
    PrefixAppend(prefix + ": ", prefix + ": ", h);
    if ValueChanged(cv, rv) {
      if depth > 0 && (IsMatrixLike(cv) || IsMatrixLike(rv)) {
        MergedExpansionGrows(out, key, cv, rv, depth - 1);
        GrowsWeaken(out, MergedExpansion(out, key, cv, rv, depth - 1), prefix + ": ", key);
      } else {
        PutGrows(out, key, Pair(cv, rv), prefix + ": ");
      }
    }
  }

  /** A merged expansion, or its fallback, adds only real differences labelled under `key`. */
  lemma {:induction false} MergedExpansionGrows(out: Diffs, key: string, cv: Value, rv: Value, depth: int)
    requires ValueChanged(cv, rv)
    ensures Grows(out, MergedExpansion(out, key, cv, rv, depth), key)
    decreases depth, 4
  {
    var nested := Expand(key, cv, rv, depth);
    var merged := MergeAll(out, nested);
    ExpandSound(key, cv, rv, depth);
    MergeAllSpec(out, nested);
    forall p | p in merged && p !in out ensures key <= p.0 && ValueChanged(p.1.current, p.1.remote) {
      assert p in nested;
      var i :| 0 <= i < Max(|Blocks(cv)|, |Blocks(rv)|) && BlockHead(key, i) <= p.0;
      HandlePrefixesHead(key, i);
      PrefixTrans(key, BlockHead(key, i), p.0);
    }
    assert Grows(out, merged, key);
    if nested == [] {
      PutGrows(merged, key, Pair(cv, rv), key);
      GrowsTrans(out, merged, MergedExpansion(out, key, cv, rv, depth), key);
    }
  }

  /** A lookup in a well-formed array is well-formed. */
  lemma LookupWellFormed(m: seq<(string, Value)>, k: string)
    requires WellFormed(Arr(m))
    ensures WellFormed(Lookup(m, k))
  {
    if k in KeySet(m) {
      var i :| 0 <= i < |m| && m[i] == (k, Lookup(m, k));
    }
  }

  /** Arrays that `arraysEqualDeep` accepts agree, deeply, at every key. */
  lemma LookupsAgree(a: seq<(string, Value)>, b: seq<(string, Value)>, k: string)
    requires DistinctKeys(a) && DistinctKeys(b) && ArraysEqualDeep(a, b)
    ensures ElementsEqual(Lookup(a, k), Lookup(b, k))
  {
    EntriesMatchIff(a, b);
    if k in KeySet(a) {
      var i :| 0 <= i < |a| && a[i].0 == k;
      GetAt(a, i);
    } else {
      SameKeys(a, b);
    }
  }

  /** Two blocks `valueChanged` finds equal have the same type name, attributes and sub-fields. */
  lemma UnchangedBlocksAgree(cb: Value, rb: Value)
    requires WellFormed(cb) && WellFormed(rb) && !ValueChanged(cb, rb)
    ensures TypeName(RawType(cb)) == TypeName(RawType(rb))
    ensures forall k :: !ValueChanged(Attribute(cb, k), Attribute(rb, k))
    ensures forall k :: !ValueChanged(Lookup(BlockFields(cb), k), Lookup(BlockFields(rb), k))
  {
    if cb != rb && cb.Arr? && rb.Arr? {
      var a, b := cb.entries, rb.entries;
      forall k ensures ElementsEqual(Lookup(a, k), Lookup(b, k)) {
        LookupsAgree(a, b, k);
      }
      var fa, fb := Lookup(a, "fields"), Lookup(b, "fields");
      if fa.Arr? && fb.Arr? {
        LookupWellFormed(a, "fields");
        LookupWellFormed(b, "fields");
        forall k ensures ElementsEqual(Lookup(fa.entries, k), Lookup(fb.entries, k)) {
          LookupsAgree(fa.entries, fb.entries, k);
        }
      }
    }
  }

  lemma {:induction false} AttributeStepsIdle(out: Diffs, prefix: string, cb: Value, rb: Value, n: nat)
    requires n <= |Attributes|
    requires forall k :: !ValueChanged(Attribute(cb, k), Attribute(rb, k))
    ensures AttributeSteps(out, prefix, cb, rb, n) == out
  {
    if n > 0 {
      AttributeStepsIdle(out, prefix, cb, rb, n - 1);
    }
  }

  lemma {:induction false} SubFieldStepsIdle(out: Diffs, prefix: string, cf: seq<(string, Value)>, rf: seq<(string, Value)>,
                                             handles: seq<string>, depth: int, n: nat)
    requires n <= |handles|
    requires forall k :: !ValueChanged(Lookup(cf, k), Lookup(rf, k))
    ensures SubFieldSteps(out, prefix, cf, rf, handles, depth, n) == out
  {
    if n > 0 {
      SubFieldStepsIdle(out, prefix, cf, rf, handles, depth, n - 1);
    }
  }

  /** A position whose two blocks `valueChanged` finds equal contributes no entries. */
  lemma UnchangedBlockAddsNothing(out: Diffs, handle: string, i: nat, cb: Value, rb: Value, depth: int)
    requires WellFormed(cb) && WellFormed(rb) && !ValueChanged(cb, rb)
    ensures BlockStep(out, handle, i, cb, rb, depth) == out
  {
    UnchangedBlocksAgree(cb, rb);
    var prefix := BlockPrefix(handle, i, DisplayType(cb, rb));
    AttributeStepsIdle(out, prefix, cb, rb, |Attributes|);
    var cf, rf := BlockFields(cb), BlockFields(rb);
    var handles := UnionKeys(cf, rf);
    SubFieldStepsIdle(out, prefix, cf, rf, handles, depth, |handles|);
  }

  /** The blocks of a well-formed value are well-formed. */
  lemma BlocksWellFormed(v: Value)
    requires WellFormed(v)
    ensures forall i :: 0 <= i < |Blocks(v)| ==> WellFormed(Blocks(v)[i])
  {
    if v.Arr? {
      ValuesAt(v.entries);
    }
  }

  /**
   * When the blocks at every position are equal in the sense of
   * `valueChanged`, the expansion is empty; in particular a collection
   * compared with itself yields nothing.
   */
  lemma ExpandUnchanged(handle: string, c: Value, r: Value, depth: int)
    requires WellFormed(c) && WellFormed(r)
    requires forall i :: 0 <= i < Max(|Blocks(c)|, |Blocks(r)|) ==> !ValueChanged(BlockAt(Blocks(c), i), BlockAt(Blocks(r), i))
    ensures Expand(handle, c, r, depth) == []
  {
    BlocksWellFormed(c);
    BlocksWellFormed(r);
    PositionsUnchanged(handle, Blocks(c), Blocks(r), depth, Max(|Blocks(c)|, |Blocks(r)|));
  }

  lemma {:induction false} PositionsUnchanged(handle: string, cs: seq<Value>, rs: seq<Value>, depth: int, n: nat)
    requires forall i :: 0 <= i < |cs| ==> WellFormed(cs[i])
    requires forall i :: 0 <= i < |rs| ==> WellFormed(rs[i])
    requires forall i :: 0 <= i < n ==> !ValueChanged(BlockAt(cs, i), BlockAt(rs, i))
    ensures Positions(handle, cs, rs, depth, n) == []
  {
    if n > 0 {
      PositionsUnchanged(handle, cs, rs, depth, n - 1);
      PositionStepUnchanged([], handle, cs, rs, n - 1, depth);
      assert Positions(handle, cs, rs, depth, n) == PositionStep([], handle, cs, rs, n - 1, depth);
    }
  }

  lemma PositionStepUnchanged(out: Diffs, handle: string, cs: seq<Value>, rs: seq<Value>, k: nat, depth: int)
    requires forall i :: 0 <= i < |cs| ==> WellFormed(cs[i])
    requires forall i :: 0 <= i < |rs| ==> WellFormed(rs[i])
    requires !ValueChanged(BlockAt(cs, k), BlockAt(rs, k))
    ensures PositionStep(out, handle, cs, rs, k, depth) == out
  {
    UnchangedBlockAddsNothing(out, handle, k, BlockAt(cs, k), BlockAt(rs, k), depth);
  }

  lemma ExpandSelf(handle: string, v: Value, depth: int)
    requires WellFormed(v)
    ensures Expand(handle, v, v, depth) == []
  {
    ExpandUnchanged(handle, v, v, depth);
  }

  /** A digit string followed by " (" determines the digits: "1 (" and "12 (" cannot both start `t`. */
  lemma DigitsThenParen(a: string, b: string, t: string)
    requires forall k :: 0 <= k < |a| ==> '0' <= a[k] <= '9'
    requires forall k :: 0 <= k < |b| ==> '0' <= b[k] <= '9'
    requires a + " (" <= t && b + " (" <= t
    ensures a == b
  {
    var m := if |a| < |b| then |a| else |b|;
    assert (a + " (")[m] == t[m] == (b + " (")[m];
    assert |a| == |b|;
    assert a == (a + " (")[..|a|] == t[..|a|] == (b + " (")[..|b|] == b;
  }

  lemma HeadShape(handle: string, i: nat)
    ensures BlockHead(handle, i) == (handle + BlockWord) + (NatToString(i + 1) + " (")
  {
  }

  lemma PrefixDrop(x: string, y: string, l: string)
    requires x + y <= l
    ensures y <= l[|x|..]
  {
    assert (x + y)[|x|..] == y;
  }

  /** Different positions have disjoint labels: no label starts with the heads of two positions. */
  lemma HeadsDistinct(handle: string, i: nat, j: nat, l: string)
    requires BlockHead(handle, i) <= l && BlockHead(handle, j) <= l
    ensures i == j
  {
    var base := handle + BlockWord;
    var a, b := NatToString(i + 1), NatToString(j + 1);
    assert a == b by {
      HeadShape(handle, i);
      HeadShape(handle, j);
      PrefixDrop(base, a + " (", l);
      PrefixDrop(base, b + " (", l);
      DigitsThenParen(a, b, l[|base|..]);
    }
    NatToStringInjective(i + 1, j + 1);
  }

  /** Different numbers print differently. */
  lemma NatToStringInjective(m: nat, n: nat)
    requires NatToString(m) == NatToString(n)
    ensures m == n
  {
    NatToStringRoundTrip(m);
    NatToStringRoundTrip(n);
  }

  /** No attribute, sub-field or nested label of position `i` is its `(type)` label. */
  lemma NotTypeLabel(handle: string, i: nat, typeLabel: string, l: string)
    requires BlockPrefix(handle, i, typeLabel) + ": " <= l
    ensures l != TypeLabel(handle, i)
  {
    var h := BlockHead(handle, i);
    var s := BlockPrefix(handle, i, typeLabel) + ": ";
    assert s == h + typeLabel + "): ";
    assert l[|h| + |typeLabel|] == ')';
    assert TypeLabel(handle, i) == h + "type)";
    assert |TypeLabel(handle, i)| == |h| + 5;
    assert |typeLabel| <= 2 ==> TypeLabel(handle, i)[|h| + |typeLabel|] != ')';
  }

  /** Pairs a step adds carry labels that start with `s`, so any other label keeps its value. */
  lemma GrowsKeepsValue(a: Diffs, b: Diffs, s: string, k: string)
    requires Grows(a, b, s) && DistinctKeys(a) && !(s <= k)
    ensures Get(b, k) == Get(a, k)
  {
    var g := Get(b, k);
    if g.Some? {
      assert (k, g.value) in a;
      var j :| 0 <= j < |a| && a[j] == (k, g.value);
      GetAt(a, j);
    }
  }

  /**
   * Within one position, the `(type)` label holds the two raw type values
   * when the type names differ; otherwise the position leaves it as it was.
   */
  lemma BlockStepTypeEntry(out: Diffs, handle: string, i: nat, cb: Value, rb: Value, depth: int)
    requires DistinctKeys(out)
    ensures Get(BlockStep(out, handle, i, cb, rb, depth), TypeLabel(handle, i))
      == if TypeName(RawType(cb)) != TypeName(RawType(rb)) then Some(Pair(RawType(cb), RawType(rb))) else Get(out, TypeLabel(handle, i))
  {
    var tl := TypeLabel(handle, i);
    var typed := TypeStep(out, handle, i, cb, rb);
    var prefix := BlockPrefix(handle, i, DisplayType(cb, rb));
    var final := BlockStep(out, handle, i, cb, rb, depth);
    assert final == BlockRest(typed, prefix, cb, rb, depth);
    TypeStepGrows(out, handle, i, cb, rb);
    BlockRestGrows(typed, prefix, cb, rb, depth);
    if TypeName(RawType(cb)) != TypeName(RawType(rb)) {
      PutSpec(out, tl, Pair(RawType(cb), RawType(rb)));
    }
    if prefix + ": " <= tl {
      NotTypeLabel(handle, i, DisplayType(cb, rb), tl);
    }
    GrowsKeepsValue(typed, final, prefix + ": ", tl);
  }

  /**
   * The `"{handle} — Block {i+1} (type)"` entry is present exactly when
   * position `i` exists on one side and the type names of its two blocks
   * differ, and it then holds the two raw type values.
   */
  lemma ExpandTypeEntry(handle: string, c: Value, r: Value, depth: int, i: nat)
    ensures TypeLabel(handle, i) in KeySet(Expand(handle, c, r, depth))
      <==> i < Max(|Blocks(c)|, |Blocks(r)|)
           && TypeName(RawType(BlockAt(Blocks(c), i))) != TypeName(RawType(BlockAt(Blocks(r), i)))
    ensures TypeLabel(handle, i) in KeySet(Expand(handle, c, r, depth)) ==>
      Get(Expand(handle, c, r, depth), TypeLabel(handle, i)) == Some(Pair(RawType(BlockAt(Blocks(c), i)), RawType(BlockAt(Blocks(r), i))))
  {
    PositionsTypeEntry(handle, Blocks(c), Blocks(r), depth, Max(|Blocks(c)|, |Blocks(r)|), i);
  }

  lemma {:induction false} PositionsTypeEntry(handle: string, cs: seq<Value>, rs: seq<Value>, depth: int, n: nat, i: nat)
    ensures Get(Positions(handle, cs, rs, depth, n), TypeLabel(handle, i))
      == if i < n && TypeName(RawType(BlockAt(cs, i))) != TypeName(RawType(BlockAt(rs, i)))
         then Some(Pair(RawType(BlockAt(cs, i)), RawType(BlockAt(rs, i)))) else None
  {
    if n > 0 {
      PositionsTypeEntry(handle, cs, rs, depth, n - 1, i);
      PositionsSound(handle, cs, rs, depth, n - 1);
      PositionStepTypeEntry(Positions(handle, cs, rs, depth, n - 1), handle, cs, rs, n - 1, depth, i);
    }
  }

  /** The iteration for position `k` writes the `(type)` label of position `i` only when `i == k` and the type names differ. */
  lemma PositionStepTypeEntry(out: Diffs, handle: string, cs: seq<Value>, rs: seq<Value>, k: nat, depth: int, i: nat)
    requires DistinctKeys(out)
    ensures Get(PositionStep(out, handle, cs, rs, k, depth), TypeLabel(handle, i))
      == if i == k && TypeName(RawType(BlockAt(cs, k))) != TypeName(RawType(BlockAt(rs, k)))
         then Some(Pair(RawType(BlockAt(cs, k)), RawType(BlockAt(rs, k)))) else Get(out, TypeLabel(handle, i))
  {
    assert PositionStep(out, handle, cs, rs, k, depth) == BlockStep(out, handle, k, BlockAt(cs, k), BlockAt(rs, k), depth);
    if i == k {
      BlockStepTypeEntry(out, handle, k, BlockAt(cs, k), BlockAt(rs, k), depth);
    } else {
      OtherPositionKeepsTypeEntry(out, handle, k, BlockAt(cs, k), BlockAt(rs, k), depth, i);
    }
  }

  /** Position `k` leaves the `(type)` label of another position `i` as it was. */
  lemma OtherPositionKeepsTypeEntry(out: Diffs, handle: string, k: nat, cb: Value, rb: Value, depth: int, i: nat)
    requires i != k && DistinctKeys(out)
    ensures Get(BlockStep(out, handle, k, cb, rb, depth), TypeLabel(handle, i)) == Get(out, TypeLabel(handle, i))
  {
    var tl := TypeLabel(handle, i);
    BlockStepGrows(out, handle, k, cb, rb, depth);
    if BlockHead(handle, k) <= tl {
      PrefixAppend(BlockHead(handle, i), BlockHead(handle, i), "type)");
      HeadsDistinct(handle, i, k, tl);
    }
    GrowsKeepsValue(out, BlockStep(out, handle, k, cb, rb, depth), BlockHead(handle, k), tl);
  }

  /**
   * A changed sub-field at depth 0, or one where neither side holds blocks,
   * is recorded as the one opaque pair under `"{prefix}: {h}"`, and no other
   * label changes; an unchanged one changes nothing.
   */
  lemma SubFieldStepOpaque(out: Diffs, prefix: string, cf: seq<(string, Value)>, rf: seq<(string, Value)>, h: string, depth: int)
    ensures var cv, rv, r := Lookup(cf, h), Lookup(rf, h), SubFieldStep(out, prefix, cf, rf, h, depth);
      && (!ValueChanged(cv, rv) ==> r == out)
      && (ValueChanged(cv, rv) && (depth <= 0 || (!IsMatrixLike(cv) && !IsMatrixLike(rv))) ==>
            && Get(r, SubLabel(prefix, h)) == Some(Pair(cv, rv))
            && forall k | k != SubLabel(prefix, h) :: Get(r, k) == Get(out, k))
  {
    PutSpec(out, SubLabel(prefix, h), Pair(Lookup(cf, h), Lookup(rf, h)));
  }

  /**
   * A value holding blocks, expanded to `depth` under `key`: every pair of
   * the expansion is recorded under its own label; the opaque pair is
   * recorded under `key` only as the fallback for an empty expansion; no
   * label outside the expansion and `key` changes.
   */
  lemma MergedExpansionSpec(out: Diffs, key: string, cv: Value, rv: Value, depth: int)
    ensures var nested, r := Expand(key, cv, rv, depth), MergedExpansion(out, key, cv, rv, depth);
      && (forall p | p in nested :: Get(r, p.0) == Some(p.1))
      && (nested == [] ==> Get(r, key) == Some(Pair(cv, rv)))
      && (nested != [] ==> Get(r, key) == Get(out, key))
      && (forall k | k != key && k !in KeySet(nested) :: Get(r, k) == Get(out, k))
  {
    var nested := Expand(key, cv, rv, depth);
    var merged := MergeAll(out, nested);
    ExpandSound(key, cv, rv, depth);
    MergeAllSpec(out, nested);
    MergeAllGet(out, nested);
    if nested == [] {
      PutSpec(merged, key, Pair(cv, rv));
    } else {
      assert key !in KeySet(nested) by {
        forall j | 0 <= j < |nested| ensures nested[j].0 != key {
          var i :| 0 <= i < Max(|Blocks(cv)|, |Blocks(rv)|) && BlockHead(key, i) <= nested[j].0;
          assert |BlockHead(key, i)| > |key|;
        }
      }
    }
  }

  // Completeness: every difference of a position is reported
  // ---------------------------------------------------------------------

  /**
   * A changed field or sub-field labelled `h` is reported: under `h` itself
   * (the opaque pair or the fallback), or through a label of its
   * expansion, which starts with `"{h} — Block "`.
   */
  ghost predicate FieldReported(d: Diffs, h: string)
  {
    h in KeySet(d) || exists l :: l in KeySet(d) && h + BlockWord <= l
  }

  /** Every label of a field's expansion starts with `"{handle} — Block "`. */
  lemma ExpansionLabelHead(h: string, fc: Value, fr: Value, depth: int, p: (string, Pair))
    requires p in Expand(h, fc, fr, depth)
    ensures h + BlockWord <= p.0
  {
    ExpandSound(h, fc, fr, depth);
    var i :| 0 <= i < Max(|Blocks(fc)|, |Blocks(fr)|) && BlockHead(h, i) <= p.0;
    assert BlockHead(h, i) == (h + BlockWord) + (NatToString(i + 1) + " (");
    PrefixAppend(h + BlockWord, h + BlockWord, NatToString(i + 1) + " (");
    PrefixTrans(h + BlockWord, BlockHead(h, i), p.0);
  }

  /** Once reported, a field stays reported: later iterations only add keys. */
  lemma FieldReportedKept(d: Diffs, e: Diffs, h: string)
    requires FieldReported(d, h) && KeySet(d) <= KeySet(e)
    ensures FieldReported(e, h)
  {
  }

  /** A changed value is stored under a key of one side or the other. */
  lemma ChangedKeyPresent(cf: seq<(string, Value)>, rf: seq<(string, Value)>, h: string)
    requires ValueChanged(Lookup(cf, h), Lookup(rf, h))
    ensures h in UnionKeys(cf, rf)
  {
    UnionKeysSpec(cf, rf);
  }

  /** A value holding blocks, merged under `key`, reports `key` as one pair or through its expansion. */
  lemma MergedExpansionReports(out: Diffs, key: string, cv: Value, rv: Value, depth: int)
    ensures FieldReported(MergedExpansion(out, key, cv, rv, depth), key)
  {
    var d := MergedExpansion(out, key, cv, rv, depth);
    var nested := Expand(key, cv, rv, depth);
    MergedExpansionSpec(out, key, cv, rv, depth);
    if nested != [] {
      ExpansionLabelHead(key, cv, rv, depth, nested[0]);
      assert Get(d, nested[0].0).Some?;
    }
  }

  /** A changed sub-field is reported by its own iteration, as one pair or through its expansion. */
  lemma SubFieldStepReports(out: Diffs, prefix: string, cf: seq<(string, Value)>, rf: seq<(string, Value)>, h: string, depth: int)
    requires ValueChanged(Lookup(cf, h), Lookup(rf, h))
    ensures FieldReported(SubFieldStep(out, prefix, cf, rf, h, depth), SubLabel(prefix, h))
  {
    var cv, rv := Lookup(cf, h), Lookup(rf, h);
    var key := SubLabel(prefix, h);
    if depth > 0 && (IsMatrixLike(cv) || IsMatrixLike(rv)) {
      MergedExpansionReports(out, key, cv, rv, depth - 1);
    } else {
      PutSpec(out, key, Pair(cv, rv));
    }
  }

  /** The `n`-th sub-field iteration keeps every label and reports its own sub-field when changed. */
  lemma SubFieldStepsLastReports(out: Diffs, prefix: string, cf: seq<(string, Value)>, rf: seq<(string, Value)>,
                                 handles: seq<string>, depth: int, n: nat)
    requires 0 < n <= |handles|
    ensures KeySet(SubFieldSteps(out, prefix, cf, rf, handles, depth, n - 1)) <= KeySet(SubFieldSteps(out, prefix, cf, rf, handles, depth, n))
    ensures ValueChanged(Lookup(cf, handles[n - 1]), Lookup(rf, handles[n - 1])) ==>
      FieldReported(SubFieldSteps(out, prefix, cf, rf, handles, depth, n), SubLabel(prefix, handles[n - 1]))
  {
    var before := SubFieldSteps(out, prefix, cf, rf, handles, depth, n - 1);
    SubFieldStepGrows(before, prefix, cf, rf, handles[n - 1], depth);
    if ValueChanged(Lookup(cf, handles[n - 1]), Lookup(rf, handles[n - 1])) {
      SubFieldStepReports(before, prefix, cf, rf, handles[n - 1], depth);
    }
  }

  /** Every changed sub-field among the first `n` handles is reported. */
  lemma {:induction false} SubFieldStepsReport(out: Diffs, prefix: string, cf: seq<(string, Value)>, rf: seq<(string, Value)>,
                                               handles: seq<string>, depth: int, n: nat)
    requires n <= |handles|
    ensures forall h | h in handles[..n] && ValueChanged(Lookup(cf, h), Lookup(rf, h)) ::
      FieldReported(SubFieldSteps(out, prefix, cf, rf, handles, depth, n), SubLabel(prefix, h))
  {
    if n > 0 {
      var before := SubFieldSteps(out, prefix, cf, rf, handles, depth, n - 1);
      var after := SubFieldSteps(out, prefix, cf, rf, handles, depth, n);
      SubFieldStepsReport(out, prefix, cf, rf, handles, depth, n - 1);
      SubFieldStepsLastReports(out, prefix, cf, rf, handles, depth, n);
      forall h | h in handles[..n] && ValueChanged(Lookup(cf, h), Lookup(rf, h)) ensures FieldReported(after, SubLabel(prefix, h)) {
        if h != handles[n - 1] {
          assert h in handles[..n - 1] by {
            var j :| 0 <= j < n && handles[..n][j] == h;
            assert handles[..n - 1][j] == h;
          }
          FieldReportedKept(before, after, SubLabel(prefix, h));
        }
      }
    }
  }

  /**
   * One attribute: a changed one is the pair of its two values under
   * `"{prefix}: {attribute}"` and no other label changes; an unchanged one
   * changes nothing.
   */
  lemma AttributeStepSpec(out: Diffs, prefix: string, cb: Value, rb: Value, k: string)
    ensures var cv, rv, d := Attribute(cb, k), Attribute(rb, k), AttributeStep(out, prefix, cb, rb, k);
      && (!ValueChanged(cv, rv) ==> d == out)
      && (ValueChanged(cv, rv) ==>
            Get(d, SubLabel(prefix, k)) == Some(Pair(cv, rv)) && forall l | l != SubLabel(prefix, k) :: Get(d, l) == Get(out, l))
  {
    var cv, rv := Attribute(cb, k), Attribute(rb, k);
    if ValueChanged(cv, rv) {
      PutSpec(out, SubLabel(prefix, k), Pair(cv, rv));
    }
  }

  /** One attribute iteration keeps every label and gives a changed attribute its own label. */
  lemma AttributeStepReports(out: Diffs, prefix: string, cb: Value, rb: Value, k: string)
    ensures KeySet(out) <= KeySet(AttributeStep(out, prefix, cb, rb, k))
    ensures ValueChanged(Attribute(cb, k), Attribute(rb, k)) ==> SubLabel(prefix, k) in KeySet(AttributeStep(out, prefix, cb, rb, k))
  {
    var cv, rv := Attribute(cb, k), Attribute(rb, k);
    if ValueChanged(cv, rv) {
      PutSpec(out, SubLabel(prefix, k), Pair(cv, rv));
    }
  }

  /** The four attribute names have different lengths, so their labels under one prefix differ. */
  lemma AttributeLabelsDistinct(prefix: string, i: nat, j: nat)
    requires i < j < |Attributes|
    ensures SubLabel(prefix, Attributes[i]) != SubLabel(prefix, Attributes[j])
  {
    assert |Attributes[0]| == 5 && |Attributes[1]| == 4 && |Attributes[2]| == 7 && |Attributes[3]| == 9;
    assert |SubLabel(prefix, Attributes[i])| == |prefix| + 2 + |Attributes[i]|;
    assert |SubLabel(prefix, Attributes[j])| == |prefix| + 2 + |Attributes[j]|;
  }

  /**
   * After the first `n` attributes, every changed one among them has its
   * `"{prefix}: {attribute}"` label, holding the pair of its two values.
   */
  lemma {:induction false} AttributeStepsReport(out: Diffs, prefix: string, cb: Value, rb: Value, n: nat)
    requires n <= |Attributes|
    ensures forall j | 0 <= j < n && ValueChanged(Attribute(cb, Attributes[j]), Attribute(rb, Attributes[j])) ::
      SubLabel(prefix, Attributes[j]) in KeySet(AttributeSteps(out, prefix, cb, rb, n))
    ensures forall j | 0 <= j < n && ValueChanged(Attribute(cb, Attributes[j]), Attribute(rb, Attributes[j])) ::
      Get(AttributeSteps(out, prefix, cb, rb, n), SubLabel(prefix, Attributes[j])) == Some(Pair(Attribute(cb, Attributes[j]), Attribute(rb, Attributes[j])))
  {
    if n > 0 {
      var before := AttributeSteps(out, prefix, cb, rb, n - 1);
      var after := AttributeSteps(out, prefix, cb, rb, n);
      AttributeStepsReport(out, prefix, cb, rb, n - 1);
      AttributeStepReports(before, prefix, cb, rb, Attributes[n - 1]);
      AttributeStepSpec(before, prefix, cb, rb, Attributes[n - 1]);
      assert after == AttributeStep(before, prefix, cb, rb, Attributes[n - 1]);
      forall j | 0 <= j < n && ValueChanged(Attribute(cb, Attributes[j]), Attribute(rb, Attributes[j]))
        ensures SubLabel(prefix, Attributes[j]) in KeySet(after)
        ensures Get(after, SubLabel(prefix, Attributes[j])) == Some(Pair(Attribute(cb, Attributes[j]), Attribute(rb, Attributes[j])))
      {
        if j < n - 1 {
          assert SubLabel(prefix, Attributes[j]) in KeySet(before);
          AttributeLabelsDistinct(prefix, j, n - 1);
        }
      }
    }
  }

  /** The attribute and sub-field loops of one block report every attribute and sub-field that changed. */
  lemma BlockRestReports(typed: Diffs, prefix: string, cb: Value, rb: Value, depth: int)
    ensures forall k | k in Attributes && ValueChanged(Attribute(cb, k), Attribute(rb, k)) ::
      SubLabel(prefix, k) in KeySet(BlockRest(typed, prefix, cb, rb, depth))
    ensures forall h | ValueChanged(Lookup(BlockFields(cb), h), Lookup(BlockFields(rb), h)) ::
      FieldReported(BlockRest(typed, prefix, cb, rb, depth), SubLabel(prefix, h))
  {
    var attributed := AttributeSteps(typed, prefix, cb, rb, |Attributes|);
    AttributeStepsReport(typed, prefix, cb, rb, |Attributes|);
    var cf, rf := BlockFields(cb), BlockFields(rb);
    var handles := UnionKeys(cf, rf);
    var result := SubFieldSteps(attributed, prefix, cf, rf, handles, depth, |handles|);
    assert BlockRest(typed, prefix, cb, rb, depth) == result;
    SubFieldStepsGrow(attributed, prefix, cf, rf, handles, depth, |handles|);
    SubFieldStepsReport(attributed, prefix, cf, rf, handles, depth, |handles|);
    assert handles[..|handles|] == handles;
    forall h | ValueChanged(Lookup(cf, h), Lookup(rf, h)) ensures FieldReported(result, SubLabel(prefix, h)) {
      ChangedKeyPresent(cf, rf, h);
    }
  }

  /** Later positions keep every label earlier positions wrote. */
  lemma {:induction false} PositionsKeep(handle: string, cs: seq<Value>, rs: seq<Value>, depth: int, m: nat, n: nat)
    requires m <= n
    ensures KeySet(Positions(handle, cs, rs, depth, m)) <= KeySet(Positions(handle, cs, rs, depth, n))
    decreases n
  {
    if m < n {
      PositionsKeep(handle, cs, rs, depth, m, n - 1);
      PositionStepGrows(Positions(handle, cs, rs, depth, n - 1), handle, cs, rs, n - 1, depth);
    }
  }

  /** The iteration for position `i` ends with the attribute and sub-field loops of its two blocks. */
  lemma PositionIsBlockRest(handle: string, cs: seq<Value>, rs: seq<Value>, depth: int, i: nat)
    requires i < Max(|cs|, |rs|)
    ensures var cb, rb := BlockAt(cs, i), BlockAt(rs, i);
      Positions(handle, cs, rs, depth, i + 1) ==
        BlockRest(TypeStep(Positions(handle, cs, rs, depth, i), handle, i, cb, rb), BlockPrefix(handle, i, DisplayType(cb, rb)), cb, rb, depth)
  {
    var cb, rb := BlockAt(cs, i), BlockAt(rs, i);
    var before := Positions(handle, cs, rs, depth, i);
    assert Positions(handle, cs, rs, depth, i + 1) == PositionStep(before, handle, cs, rs, i, depth);
    assert PositionStep(before, handle, cs, rs, i, depth) == BlockStep(before, handle, i, cb, rb, depth);
  }

  /** After the loop over positions, position `i` still shows every difference its two blocks have. */
  lemma PositionsComplete(handle: string, cs: seq<Value>, rs: seq<Value>, depth: int, i: nat)
    requires i < Max(|cs|, |rs|)
    ensures var cb, rb, d := BlockAt(cs, i), BlockAt(rs, i), Positions(handle, cs, rs, depth, Max(|cs|, |rs|));
      forall k | k in Attributes && ValueChanged(Attribute(cb, k), Attribute(rb, k)) ::
        SubLabel(BlockPrefix(handle, i, DisplayType(cb, rb)), k) in KeySet(d)
    ensures var cb, rb, d := BlockAt(cs, i), BlockAt(rs, i), Positions(handle, cs, rs, depth, Max(|cs|, |rs|));
      forall h | ValueChanged(Lookup(BlockFields(cb), h), Lookup(BlockFields(rb), h)) ::
        FieldReported(d, SubLabel(BlockPrefix(handle, i, DisplayType(cb, rb)), h))
  {
    var cb, rb := BlockAt(cs, i), BlockAt(rs, i);
    var prefix := BlockPrefix(handle, i, DisplayType(cb, rb));
    var d := Positions(handle, cs, rs, depth, Max(|cs|, |rs|));
    var at := Positions(handle, cs, rs, depth, i + 1);
    PositionIsBlockRest(handle, cs, rs, depth, i);
    BlockRestReports(TypeStep(Positions(handle, cs, rs, depth, i), handle, i, cb, rb), prefix, cb, rb, depth);
    PositionsKeep(handle, cs, rs, depth, i + 1, Max(|cs|, |rs|));
    forall h | ValueChanged(Lookup(BlockFields(cb), h), Lookup(BlockFields(rb), h))
      ensures FieldReported(d, SubLabel(prefix, h))
    {
      FieldReportedKept(at, d, SubLabel(prefix, h));
    }
  }

  /**
   * Completeness of the expansion: at every position of either side, each
   * of `title`, `slug`, `enabled`, `collapsed` whose values differ is
   * reported under `"{prefix}: {attribute}"`, and each sub-field whose
   * values differ is reported under `"{prefix}: {sub-field}"` or through
   * its nested expansion, `prefix` being `"{handle} — Block {i+1} ({type})"`.
   */
  lemma ExpandComplete(handle: string, c: Value, r: Value, depth: int, i: nat)
    requires i < Max(|Blocks(c)|, |Blocks(r)|)
    ensures var cb, rb := BlockAt(Blocks(c), i), BlockAt(Blocks(r), i);
      forall k | k in Attributes && ValueChanged(Attribute(cb, k), Attribute(rb, k)) ::
        SubLabel(BlockPrefix(handle, i, DisplayType(cb, rb)), k) in KeySet(Expand(handle, c, r, depth))
    ensures var cb, rb := BlockAt(Blocks(c), i), BlockAt(Blocks(r), i);
      forall h | ValueChanged(Lookup(BlockFields(cb), h), Lookup(BlockFields(rb), h)) ::
        FieldReported(Expand(handle, c, r, depth), SubLabel(BlockPrefix(handle, i, DisplayType(cb, rb)), h))
  {
    PositionsComplete(handle, Blocks(c), Blocks(r), depth, i);
    assert Expand(handle, c, r, depth) == Positions(handle, Blocks(c), Blocks(r), depth, Max(|Blocks(c)|, |Blocks(r)|));
  }
}
