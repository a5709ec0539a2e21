/**
 * Value equality of the comparison engine: `valueChanged`, the deep array
 * comparison `arraysEqualDeep` it delegates to, and the shape test
 * `isMatrixLike` that decides whether a field holds Matrix-style blocks.
 */
module ValueEquality {
  import opened OrderedMap
  import opened PhpValue

  /**
   * `valueChanged($a, $b)`: identical values are unchanged; two arrays are
   * compared deeply without regard to key order; an array never equals a
   * non-array; two non-arrays are compared after PHP's `(string)` cast.
   */
  function ValueChanged(a: Value, b: Value): bool
  {
    if a == b then false
    else if a.Arr? && b.Arr? then !ArraysEqualDeep(a.entries, b.entries)
    else if a.Arr? || b.Arr? then true
    else CastToString(a) != CastToString(b)
  }

  /** `arraysEqualDeep($a, $b)`: same number of pairs, and every pair of `$a` matched in `$b`. */
  function ArraysEqualDeep(a: seq<(string, Value)>, b: seq<(string, Value)>): bool
    decreases a, 1
  {
    |a| == |b| && EntriesMatch(a, b)
  }

  /** The `foreach ($a as $k => $v)` loop of `arraysEqualDeep`, stopping at the first mismatch. */
  function EntriesMatch(a: seq<(string, Value)>, b: seq<(string, Value)>): bool
    decreases a, 0
  {
    if a == [] then true
    else
      var e := a[0];
      assert a decreases to e;
      assert e decreases to e.1;
      match Get(b, e.0)
      case None => false
      case Some(bv) => ElementsEqual(e.1, bv) && EntriesMatch(a[1..], b)
  }

  /** Nested arrays recurse; any other pair of elements is compared strictly (`!==`). */
  function ElementsEqual(v: Value, w: Value): bool
    decreases v, 2
  {
    if v.Arr? && w.Arr? then ArraysEqualDeep(v.entries, w.entries) else v == w
  }

  /** What the loop of `arraysEqualDeep` checks, stated for every pair at once. */
  lemma {:induction false} EntriesMatchIff(a: seq<(string, Value)>, b: seq<(string, Value)>)
    ensures EntriesMatch(a, b) <==>
      forall i :: 0 <= i < |a| ==> a[i].0 in KeySet(b) && ElementsEqual(a[i].1, Lookup(b, a[i].0))
  {
    if a != [] {
      EntriesMatchIff(a[1..], b);
      assert forall i :: 1 <= i < |a| ==> a[i] == a[1..][i - 1];
    }
  }

  /** Two sets of keys, one inside the other and of equal size, are equal. */
  lemma SameSizeSubset(x: set<string>, y: set<string>)
    requires x <= y && |x| == |y|
    ensures x == y
  {
    assert |y - x| == |y| - |x|;
  }

  /** Every well-formed value is deeply equal to itself. */
  lemma {:induction false} ElementsEqualReflexive(v: Value)
    requires WellFormed(v)
    ensures ElementsEqual(v, v)
    decreases v
  {
    if v.Arr? {
      var es := v.entries;
      forall i | 0 <= i < |es|
        ensures es[i].0 in KeySet(es) && ElementsEqual(es[i].1, Lookup(es, es[i].0))
      {
        GetAt(es, i);
        ElementsEqualReflexive(es[i].1);
      }
      EntriesMatchIff(es, es);
    }
  }

  /**
   * Deep equality of arrays is symmetric: from `|a| == |b|` and "every key
   * of `a` is in `b`", distinct keys give "every key of `b` is in `a`".
   */
  lemma {:induction false} ElementsEqualSymmetric(v: Value, w: Value)
    requires WellFormed(v) && WellFormed(w)
    requires ElementsEqual(v, w)
    ensures ElementsEqual(w, v)
    decreases v
  {
    if v.Arr? && w.Arr? {
      var a, b := v.entries, w.entries;
      EntriesMatchIff(a, b);
      SameKeys(a, b);
      forall j | 0 <= j < |b|
        ensures b[j].0 in KeySet(a) && ElementsEqual(b[j].1, Lookup(a, b[j].0))
      {
        var k := b[j].0;
        assert k in KeySet(b);
        var i :| 0 <= i < |a| && a[i].0 == k;
        GetAt(a, i);
        GetAt(b, j);
        ElementsEqualSymmetric(a[i].1, b[j].1);
      }
      EntriesMatchIff(b, a);
    }
  }

  /** Arrays that `arraysEqualDeep` accepts have the same keys. */
  lemma SameKeys(a: seq<(string, Value)>, b: seq<(string, Value)>)
    requires DistinctKeys(a) && DistinctKeys(b)
    requires |a| == |b|
    requires forall i :: 0 <= i < |a| ==> a[i].0 in KeySet(b)
    ensures KeySet(a) == KeySet(b)
  {
    DistinctKeySetSize(a);
    DistinctKeySetSize(b);
    SameSizeSubset(KeySet(a), KeySet(b));
  }

  /** Deep equality is transitive on well-formed values. */
  lemma {:induction false} ElementsEqualTransitive(u: Value, v: Value, w: Value)
    requires WellFormed(u) && WellFormed(v) && WellFormed(w)
    requires ElementsEqual(u, v) && ElementsEqual(v, w)
    ensures ElementsEqual(u, w)
    decreases u
  {
    if u.Arr? && v.Arr? && w.Arr? {
      var a, b, c := u.entries, v.entries, w.entries;
      EntriesMatchIff(a, b);
      EntriesMatchIff(b, c);
      SameKeys(b, c);
      forall i | 0 <= i < |a|
        ensures a[i].0 in KeySet(c) && ElementsEqual(a[i].1, Lookup(c, a[i].0))
      {
        var k := a[i].0;
        var j :| 0 <= j < |b| && b[j].0 == k;
        GetAt(b, j);
        var l :| 0 <= l < |c| && c[l].0 == k;
        GetAt(c, l);
        ElementsEqualTransitive(a[i].1, b[j].1, c[l].1);
      }
      EntriesMatchIff(a, c);
    }
  }

  /** `valueChanged($x, $x)` is false, and for arrays the deep comparison agrees. */
  lemma ValueUnchangedReflexive(x: Value)
    requires WellFormed(x)
    ensures !ValueChanged(x, x)
    ensures x.Arr? ==> ArraysEqualDeep(x.entries, x.entries)
  {
    ElementsEqualReflexive(x);
  }

  /** `valueChanged` does not depend on the order of its arguments. */
  lemma ValueChangedSymmetric(a: Value, b: Value)
    requires WellFormed(a) && WellFormed(b)
    ensures ValueChanged(a, b) == ValueChanged(b, a)
  {
    if a.Arr? && b.Arr? {
      if ElementsEqual(a, b) { ElementsEqualSymmetric(a, b); }
      if ElementsEqual(b, a) { ElementsEqualSymmetric(b, a); }
    }
  }

  /** "Unchanged" is transitive, so together with the two lemmas above it is an equivalence. */
  lemma ValueUnchangedTransitive(a: Value, b: Value, c: Value)
    requires WellFormed(a) && WellFormed(b) && WellFormed(c)
    requires !ValueChanged(a, b) && !ValueChanged(b, c)
    ensures !ValueChanged(a, c)
  {
    if a.Arr? && b.Arr? && c.Arr? {
      ElementsEqualReflexive(a);
      ElementsEqualReflexive(b);
      ElementsEqualTransitive(a, b, c);
    }
  }

  /** Two arrays holding the same pairs in a different order are unchanged. */
  lemma KeyOrderIgnored(a: seq<(string, Value)>, b: seq<(string, Value)>)
    requires WellFormed(Arr(a)) && WellFormed(Arr(b))
    requires multiset(a) == multiset(b)
    ensures !ValueChanged(Arr(a), Arr(b))
  {
    assert |a| == |multiset(a)| == |multiset(b)| == |b|;
    forall i | 0 <= i < |a|
      ensures a[i].0 in KeySet(b) && ElementsEqual(a[i].1, Lookup(b, a[i].0))
    {
      assert a[i] in multiset(b);
      var j :| 0 <= j < |b| && b[j] == a[i];
      GetAt(b, j);
      ElementsEqualReflexive(a[i].1);
    }
    EntriesMatchIff(a, b);
  }

  /** Two non-arrays are unchanged exactly when their `(string)` casts agree. */
  lemma ScalarsCompareAsStrings(a: Value, b: Value)
    requires !a.Arr? && !b.Arr?
    ensures ValueChanged(a, b) <==> CastToString(a) != CastToString(b)
  {
  }

  /** An array and a non-array are always changed, whatever their contents. */
  lemma ArrayVersusScalarChanged(a: Value, b: Value)
    requires a.Arr? != b.Arr?
    ensures ValueChanged(a, b)
  {
  }

  /** An integer equals its decimal string at the top level: `5` vs `"5"` is unchanged. */
  lemma IntegerEqualsItsString(n: int)
    ensures !ValueChanged(Int(n), Str(IntToString(n)))
    ensures !ValueChanged(Str(IntToString(n)), Int(n))
  {
  }

  /** Two integers are changed exactly when they differ. */
  lemma IntegersCompareByValue(m: int, n: int)
    ensures ValueChanged(Int(m), Int(n)) <==> m != n
  {
    IntToStringInjective(m, n);
  }

  /** The cast makes null, false and "" all equal, and true equal to "1" and 1. */
  lemma CastQuirks()
    ensures !ValueChanged(Null, Str(""))
    ensures !ValueChanged(Null, Bool(false))
    ensures !ValueChanged(Bool(false), Str(""))
    ensures !ValueChanged(Bool(true), Str("1"))
    ensures !ValueChanged(Bool(true), Int(1))
    ensures ValueChanged(Int(5), Str("6"))
    ensures ValueChanged(Int(5), Str("05"))
  {
    assert IntToString(1) == "1";
    assert IntToString(5) == "5";
  }

  /** Inside arrays the leaves are compared strictly: `[5]` vs `["5"]` is changed. */
  lemma NestedLeavesAreStrict()
    ensures ValueChanged(Arr([("0", Int(5))]), Arr([("0", Str("5"))]))
    ensures ValueChanged(Arr([("x", Null)]), Arr([("x", Str(""))]))
  {
    assert Get([("0", Str("5"))], "0") == Some(Str("5"));
    assert Get([("x", Str(""))], "x") == Some(Str(""));
  }

  /**
   * An illustration only, an instance of `KeyOrderIgnored` and
   * `ValueUnchangedReflexive`: `{a: 1, b: 2}` vs `{b: 2, a: 1}` is
   * unchanged, and so is `[]` vs `[]`.
   */
  lemma KeyOrderExample()
    ensures !ValueChanged(Arr([("a", Int(1)), ("b", Int(2))]), Arr([("b", Int(2)), ("a", Int(1))]))
    ensures !ValueChanged(Arr([]), Arr([]))
  {
    var a := [("a", Int(1)), ("b", Int(2))];
    var b := [("b", Int(2)), ("a", Int(1))];
    assert multiset(a) == multiset(b) by {
      assert a == [a[0]] + [a[1]] && b == [a[1]] + [a[0]];
    }
    KeyOrderIgnored(a, b);
  }

  /** `is_array($b) && isset($b['type'])`: a block is an array with a non-null `type`. */
  predicate IsBlock(v: Value)
  {
    v.Arr? && Lookup(v.entries, "type") != Null
  }

  /** `isMatrixLike($val)`: an array whose every element is a block. */
  function IsMatrixLike(v: Value): bool
  {
    v.Arr? && AllBlocks(v.entries)
  }

  /** The `foreach` loop of `isMatrixLike`, returning false at the first element that is not a block. */
  function AllBlocks(es: seq<(string, Value)>): bool
  {
    if es == [] then true else IsBlock(es[0].1) && AllBlocks(es[1..])
  }

  /**
   * `isMatrixLike` holds exactly for arrays all of whose elements are
   * blocks; so it holds for the empty array and never for a scalar or null.
   */
  lemma IsMatrixLikeIff(v: Value)
    ensures IsMatrixLike(v) <==> v.Arr? && forall i :: 0 <= i < |v.entries| ==> IsBlock(v.entries[i].1)
  {
    if v.Arr? {
      AllBlocksIff(v.entries);
    }
  }

  lemma {:induction false} AllBlocksIff(es: seq<(string, Value)>)
    ensures AllBlocks(es) <==> forall i :: 0 <= i < |es| ==> IsBlock(es[i].1)
  {
    if es != [] {
      AllBlocksIff(es[1..]);
      assert forall i :: 1 <= i < |es| ==> es[i] == es[1..][i - 1];
    }
  }
}
