/**
 * PHP's ordered arrays with string keys, as association lists.
 *
 * A PHP array remembers the order in which keys were first inserted.
 * Assigning `$a[$k] = $v` replaces the value in place when `$k` is already
 * a key and appends a new pair otherwise.  `Put` is that assignment,
 * `MergeAll` is a `foreach` loop of such assignments, and `UnionKeys` is
 * `array_unique(array_merge(array_keys($a), array_keys($b)))`.
 */
module OrderedMap {

  datatype Option<+T> = None | Some(value: T)

  /** `array_keys($m)` */
  function Keys<T>(m: seq<(string, T)>): (ks: seq<string>)
    ensures |ks| == |m|
  {
    if m == [] then [] else [m[0].0] + Keys(m[1..])
  }

  /** `array_values($m)` */
  function Values<T>(m: seq<(string, T)>): (vs: seq<T>)
    ensures |vs| == |m|
  {
    if m == [] then [] else [m[0].1] + Values(m[1..])
  }

  /** `array_keys` lists the keys in array order. */
  lemma {:induction false} KeysAt<T>(m: seq<(string, T)>)
    ensures forall i :: 0 <= i < |m| ==> Keys(m)[i] == m[i].0
  {
    if m != [] {
      KeysAt(m[1..]);
      assert forall i :: 1 <= i < |m| ==> Keys(m)[i] == Keys(m[1..])[i - 1];
    }
  }

  /** `array_values` lists the values in array order, dropping the keys. */
  lemma {:induction false} ValuesAt<T>(m: seq<(string, T)>)
    ensures forall i :: 0 <= i < |m| ==> Values(m)[i] == m[i].1
  {
    if m != [] {
      ValuesAt(m[1..]);
      assert forall i :: 1 <= i < |m| ==> Values(m)[i] == Values(m[1..])[i - 1];
    }
  }

  ghost function KeySet<T>(m: seq<(string, T)>): set<string>
  {
    set i | 0 <= i < |m| :: m[i].0
  }

  /** The invariant every PHP array satisfies: no key occurs twice. */
  ghost predicate DistinctKeys<T>(m: seq<(string, T)>)
  {
    forall i, j :: 0 <= i < j < |m| ==> m[i].0 != m[j].0
  }

  ghost predicate Distinct(s: seq<string>)
  {
    forall i, j :: 0 <= i < j < |s| ==> s[i] != s[j]
  }

  /** Position of the first pair with key `k`, or `|m|` when there is none. */
  function FindIndex<T>(m: seq<(string, T)>, k: string): (i: nat)
    ensures i <= |m|
    ensures i < |m| ==> m[i].0 == k
  {
    if m == [] then 0
    else if m[0].0 == k then 0
    else 1 + FindIndex(m[1..], k)
  }

  /** No pair before `FindIndex(m, k)` holds `k`. */
  lemma {:induction false} FindIndexFirst<T>(m: seq<(string, T)>, k: string)
    ensures forall j :: 0 <= j < FindIndex(m, k) ==> m[j].0 != k
  {
    if m != [] && m[0].0 != k {
      FindIndexFirst(m[1..], k);
      assert forall j :: 1 <= j < |m| ==> m[j] == m[1..][j - 1];
    }
  }

  /** `array_key_exists($k, $m) ? $m[$k] : <absent>` */
  function Get<T>(m: seq<(string, T)>, k: string): (r: Option<T>)
    ensures r.Some? <==> k in KeySet(m)
    ensures r.Some? ==> (k, r.value) in m
  {
    var i := FindIndex(m, k);
    assert k in KeySet(m) ==> i < |m| by {
      FindIndexFirst(m, k);
      if k in KeySet(m) { var j :| 0 <= j < |m| && m[j].0 == k; }
    }
    if i < |m| then Some(m[i].1) else None
  }

  /** In an array without repeated keys, a key finds the value stored with it. */
  lemma GetAt<T>(m: seq<(string, T)>, i: nat)
    requires DistinctKeys(m) && i < |m|
    ensures Get(m, m[i].0) == Some(m[i].1)
  {
    var j := FindIndex(m, m[i].0);
    FindIndexFirst(m, m[i].0);
    assert j == i;
  }

  /** `$m[$k] = $v`: overwrite in place, or append a new pair. */
  function Put<T>(m: seq<(string, T)>, k: string, v: T): (r: seq<(string, T)>)
    ensures |m| <= |r| <= |m| + 1
  {
    if m == [] then [(k, v)]
    else if m[0].0 == k then [(k, v)] + m[1..]
    else [m[0]] + Put(m[1..], k, v)
  }

  /** The assignment replaces the pair at the first position holding `k`, or appends when there is none. */
  lemma {:induction false} PutShape<T>(m: seq<(string, T)>, k: string, v: T)
    ensures FindIndex(m, k) < |m| ==> Put(m, k, v) == m[FindIndex(m, k) := (k, v)]
    ensures FindIndex(m, k) == |m| ==> Put(m, k, v) == m + [(k, v)]
  {
    if m != [] && m[0].0 != k {
      var t := m[1..];
      PutShape(t, k, v);
      assert m == [m[0]] + t;
      var j := FindIndex(t, k);
      if j < |t| {
        assert [m[0]] + t[j := (k, v)] == m[j + 1 := (k, v)];
      } else {
        assert [m[0]] + (t + [(k, v)]) == m + [(k, v)];
      }
    }
  }

  /**
   * The assignment adds `k` to the keys and leaves every other key's value
   * alone; it overwrites in place when `k` was a key and appends otherwise,
   * and it keeps keys distinct.
   */
  lemma PutSpec<T>(m: seq<(string, T)>, k: string, v: T)
    ensures KeySet(Put(m, k, v)) == KeySet(m) + {k}
    ensures Get(Put(m, k, v), k) == Some(v)
    ensures forall k' :: k' != k ==> Get(Put(m, k, v), k') == Get(m, k')
    ensures DistinctKeys(m) ==> DistinctKeys(Put(m, k, v))
    ensures k in KeySet(m) ==> |Put(m, k, v)| == |m|
    ensures k !in KeySet(m) ==> Put(m, k, v) == m + [(k, v)]
    ensures forall p :: p in Put(m, k, v) ==> p == (k, v) || p in m
  {
    PutShape(m, k, v);
    if FindIndex(m, k) < |m| {
      PutInPlace(m, k, v, FindIndex(m, k));
    } else {
      assert Get(m, k) == None;
      PutAppend(m, k, v);
    }
  }

  /** Overwriting the pair at position `i` keeps the keys and changes only the value of `k`. */
  lemma PutInPlace<T>(m: seq<(string, T)>, k: string, v: T, i: nat)
    requires i < |m| && i == FindIndex(m, k)
    ensures var r := m[i := (k, v)];
      && KeySet(r) == KeySet(m)
      && Get(r, k) == Some(v)
      && (forall k' :: k' != k ==> Get(r, k') == Get(m, k'))
      && (DistinctKeys(m) ==> DistinctKeys(r))
  {
    var r := m[i := (k, v)];
    forall x | x in KeySet(m) ensures x in KeySet(r) { var j :| 0 <= j < |m| && m[j].0 == x; assert r[j].0 == x; }
    forall x | x in KeySet(r) ensures x in KeySet(m) { var j :| 0 <= j < |r| && r[j].0 == x; assert m[j].0 == x; }
    FindIndexFirst(m, k);
    FindIndexUnique(r, k, i);
    forall k' | k' != k ensures Get(r, k') == Get(m, k') {
      GetUnchanged(m, r, k');
    }
  }

  /** Appending a pair with a new key adds that key and changes no other key's value. */
  lemma PutAppend<T>(m: seq<(string, T)>, k: string, v: T)
    requires k !in KeySet(m)
    ensures var r := m + [(k, v)];
      && KeySet(r) == KeySet(m) + {k}
      && Get(r, k) == Some(v)
      && (forall k' :: k' != k ==> Get(r, k') == Get(m, k'))
      && (DistinctKeys(m) ==> DistinctKeys(r))
  {
    var r := m + [(k, v)];
    KeySetAppend(m, (k, v));
    FindIndexUnique(r, k, |m|);
    forall k' | k' != k ensures Get(r, k') == Get(m, k') {
      GetUnchanged(m, r, k');
    }
  }

  /** `FindIndex` is the only position meeting its own postconditions. */
  lemma FindIndexUnique<T>(m: seq<(string, T)>, k: string, i: nat)
    requires i <= |m|
    requires i < |m| ==> m[i].0 == k
    requires forall j :: 0 <= j < i ==> m[j].0 != k
    ensures FindIndex(m, k) == i
  {
    var f := FindIndex(m, k);
    FindIndexFirst(m, k);
    assert f < |m| ==> m[f].0 == k;
  }

  /** Looking `k` up finds the same thing in `r` as in `m` when `r` differs from `m` only away from `k`. */
  lemma GetUnchanged<T>(m: seq<(string, T)>, r: seq<(string, T)>, k: string)
    requires |m| <= |r|
    requires forall j :: 0 <= j < |m| && m[j].0 == k ==> r[j] == m[j]
    requires forall j :: 0 <= j < |m| && r[j].0 == k ==> m[j].0 == k
    requires forall j :: |m| <= j < |r| ==> r[j].0 != k
    ensures Get(m, k) == Get(r, k)
  {
    var i := FindIndex(m, k);
    FindIndexFirst(m, k);
    if i < |m| {
      FindIndexUnique(r, k, i);
    } else {
      FindIndexUnique(r, k, |r|);
    }
  }

  /** `foreach ($n as $k => $v) { $m[$k] = $v; }` */
  function MergeAll<T>(m: seq<(string, T)>, n: seq<(string, T)>): (r: seq<(string, T)>)
    ensures |r| <= |m| + |n|
  {
    if n == [] then m
    else
      var last := n[|n| - 1];
      Put(MergeAll(m, n[..|n| - 1]), last.0, last.1)
  }

  /**
   * Merging adds the keys of `n`, keeps keys distinct, invents no pair, and
   * leaves the value of every key `n` does not mention as it was in `m`.
   */
  lemma {:induction false} MergeAllSpec<T>(m: seq<(string, T)>, n: seq<(string, T)>)
    ensures KeySet(MergeAll(m, n)) == KeySet(m) + KeySet(n)
    ensures DistinctKeys(m) ==> DistinctKeys(MergeAll(m, n))
    ensures forall p :: p in MergeAll(m, n) ==> p in m || p in n
    ensures forall k :: k !in KeySet(n) ==> Get(MergeAll(m, n), k) == Get(m, k)
  {
    if n != [] {
      var front := n[..|n| - 1];
      var last := n[|n| - 1];
      var before := MergeAll(m, front);
      var r := MergeAll(m, n);
      MergeAllSpec(m, front);
      PutSpec(before, last.0, last.1);
      assert r == Put(before, last.0, last.1);
      assert n == front + [last];
      KeySetAppend(front, last);
      assert KeySet(n) == KeySet(front) + {last.0};
      forall p | p in r ensures p in m || p in n {
        if p != last {
          assert p in before;
          if p in front { assert p in n; }
        }
      }
      forall k | k !in KeySet(n) ensures Get(r, k) == Get(m, k) {
        assert k != last.0 && k !in KeySet(front);
      }
    }
  }

  /** When the keys of `n` are distinct, the merge holds every pair of `n` under its key. */
  lemma {:induction false} MergeAllGet<T>(m: seq<(string, T)>, n: seq<(string, T)>)
    requires DistinctKeys(n)
    ensures forall p :: p in n ==> Get(MergeAll(m, n), p.0) == Some(p.1)
  {
    if n != [] {
      var front := n[..|n| - 1];
      var last := n[|n| - 1];
      var before := MergeAll(m, front);
      MergeAllGet(m, front);
      PutSpec(before, last.0, last.1);
      forall p | p in n ensures Get(MergeAll(m, n), p.0) == Some(p.1) {
        if p != last {
          var i :| 0 <= i < |n| && n[i] == p;
          assert front[i] == p;
          assert p.0 != last.0;
        }
      }
    }
  }

  lemma KeySetAppend<T>(m: seq<(string, T)>, p: (string, T))
    ensures KeySet(m + [p]) == KeySet(m) + {p.0}
  {
    var r := m + [p];
    forall x | x in KeySet(r) ensures x in KeySet(m) + {p.0} {
      var i :| 0 <= i < |r| && r[i].0 == x;
      if i < |m| { assert m[i].0 == x; }
    }
    forall x | x in KeySet(m) ensures x in KeySet(r) {
      var i :| 0 <= i < |m| && m[i].0 == x;
      assert r[i].0 == x;
    }
    assert r[|m|].0 == p.0;
  }

  /** `array_unique($s)`: keeps the first occurrence of each string. */
  function Dedup(s: seq<string>): (r: seq<string>)
    ensures |r| <= |s|
  {
    if s == [] then []
    else
      var d := Dedup(s[..|s| - 1]);
      var x := s[|s| - 1];
      if x in d then d else d + [x]
  }

  /** `array_unique` leaves no repeats and keeps exactly the strings it was given. */
  lemma {:induction false} DedupSpec(s: seq<string>)
    ensures Distinct(Dedup(s))
    ensures forall x :: x in Dedup(s) <==> x in s
  {
    if s != [] {
      var front := s[..|s| - 1];
      DedupSpec(front);
      assert s == front + [s[|s| - 1]];
    }
  }

  /** `array_unique(array_merge(array_keys($a), array_keys($b)))` */
  function UnionKeys<T, U>(a: seq<(string, T)>, b: seq<(string, U)>): (r: seq<string>)
    ensures |r| <= |a| + |b|
  {
    Dedup(Keys(a) + Keys(b))
  }

  /** The merged key list has no repeats and holds exactly the keys of either array. */
  lemma UnionKeysSpec<T, U>(a: seq<(string, T)>, b: seq<(string, U)>)
    ensures Distinct(UnionKeys(a, b))
    ensures forall k :: k in UnionKeys(a, b) <==> k in KeySet(a) || k in KeySet(b)
  {
    var ks := Keys(a) + Keys(b);
    DedupSpec(ks);
    KeysAt(a);
    KeysAt(b);
    forall k ensures k in ks <==> k in KeySet(a) || k in KeySet(b) {
      if k in ks {
        var i :| 0 <= i < |ks| && ks[i] == k;
        if i < |a| { assert a[i].0 == k; } else { assert b[i - |a|].0 == k; }
      }
      if k in KeySet(a) {
        var i :| 0 <= i < |a| && a[i].0 == k;
        assert ks[i] == k;
      }
      if k in KeySet(b) {
        var i :| 0 <= i < |b| && b[i].0 == k;
        assert ks[|a| + i] == k;
      }
    }
  }

  /** On a list without repeats `array_unique` changes nothing. */
  lemma {:induction false} DedupDistinct(s: seq<string>)
    requires Distinct(s)
    ensures Dedup(s) == s
  {
    if s != [] {
      DedupDistinct(s[..|s| - 1]);
      assert s[|s| - 1] !in s[..|s| - 1];
      assert s[..|s| - 1] + [s[|s| - 1]] == s;
    }
  }

  /**
   * `array_unique(array_merge($x, $y))` begins with `$x` itself when `$x`
   * has no repeats: the keys of the first array come first, in their order.
   */
  lemma {:induction false} DedupKeepsPrefix(x: seq<string>, y: seq<string>)
    requires Distinct(x)
    ensures |x| <= |Dedup(x + y)| && Dedup(x + y)[..|x|] == x
  {
    if y == [] {
      assert x + y == x;
      DedupDistinct(x);
    } else {
      var y' := y[..|y| - 1];
      DedupKeepsPrefix(x, y');
      assert (x + y)[..|x + y| - 1] == x + y';
    }
  }

  lemma KeysDistinct<T>(m: seq<(string, T)>)
    requires DistinctKeys(m)
    ensures Distinct(Keys(m))
  {
    KeysAt(m);
  }

  lemma {:induction false} DistinctKeySetSize<T>(m: seq<(string, T)>)
    requires DistinctKeys(m)
    ensures |KeySet(m)| == |m|
  {
    if m != [] {
      var front := m[..|m| - 1];
      DistinctKeySetSize(front);
      assert KeySet(m) == KeySet(front) + {m[|m| - 1].0} by {
        forall x | x in KeySet(m) ensures x in KeySet(front) + {m[|m| - 1].0} {
          var i :| 0 <= i < |m| && m[i].0 == x;
          if i < |m| - 1 { assert front[i].0 == x; }
        }
      }
      assert m[|m| - 1].0 !in KeySet(front);
    }
  }

  /** The loop `foreach ($n as $k => $v) { $m[$k] = $v; }`. */
  method MergeInto<T>(m: seq<(string, T)>, n: seq<(string, T)>) returns (r: seq<(string, T)>)
    ensures r == MergeAll(m, n)
  {
    r := m;
    var j := 0;
    while j < |n|
      invariant 0 <= j <= |n|
      invariant r == MergeAll(m, n[..j])
    {
      assert n[..j + 1][..j] == n[..j];
      r := Put(r, n[j].0, n[j].1);
      j := j + 1;
    }
    assert n[..|n|] == n;
  }

  /** `foreach ($ks as $k) { $m[$k] = f($k); }`, after the first `n` keys. */
  function PutEach<T>(m: seq<(string, T)>, ks: seq<string>, f: string -> T, n: nat): seq<(string, T)>
    requires n <= |ks|
  {
    if n == 0 then m else Put(PutEach(m, ks, f, n - 1), ks[n - 1], f(ks[n - 1]))
  }

  /** `foreach ($ks as $k) { $v = f($k); if ($v !== null) { $m[$k] = $v; } }`, after the first `n` keys. */
  function PutPresent<T>(m: seq<(string, T)>, ks: seq<string>, f: string -> Option<T>, n: nat): seq<(string, T)>
    requires n <= |ks|
  {
    if n == 0 then m
    else
      var acc := PutPresent(m, ks, f, n - 1);
      match f(ks[n - 1])
      case Some(v) => Put(acc, ks[n - 1], v)
      case None => acc
  }

  /** `array_keys` and the key set hold the same strings. */
  lemma KeysMembership<T>(m: seq<(string, T)>)
    ensures forall x :: x in Keys(m) <==> x in KeySet(m)
  {
    KeysAt(m);
    forall x | x in KeySet(m) ensures x in Keys(m) {
      var i :| 0 <= i < |m| && m[i].0 == x;
      assert Keys(m)[i] == x;
    }
  }

  lemma KeysAppend<T>(m: seq<(string, T)>, p: (string, T))
    ensures Keys(m + [p]) == Keys(m) + [p.0]
  {
    KeysAt(m);
    KeysAt(m + [p]);
  }

  /** Assigning once to each of a list of distinct keys, starting from an empty array, lists the keys in that order. */
  lemma {:induction false} PutEachKeys<T>(ks: seq<string>, f: string -> T, n: nat)
    requires n <= |ks| && Distinct(ks)
    ensures Keys(PutEach([], ks, f, n)) == ks[..n]
    ensures DistinctKeys(PutEach([], ks, f, n))
  {
    if n > 0 {
      PutEachKeys(ks, f, n - 1);
      var acc := PutEach([], ks, f, n - 1);
      var k := ks[n - 1];
      assert ks[..n] == ks[..n - 1] + [k];
      assert k !in KeySet(acc) by {
        KeysMembership(acc);
      }
      PutSpec(acc, k, f(k));
      KeysAppend(acc, (k, f(k)));
    }
  }

  /** ... and stores `f(k)` under each key `k` it visited, and nothing under any other. */
  lemma {:induction false} PutEachGet<T>(ks: seq<string>, f: string -> T, n: nat, k: string)
    requires n <= |ks|
    ensures Get(PutEach([], ks, f, n), k) == (if k in ks[..n] then Some(f(k)) else None)
  {
    if n > 0 {
      PutEachGet(ks, f, n - 1, k);
      assert ks[..n] == ks[..n - 1] + [ks[n - 1]];
      PutSpec(PutEach([], ks, f, n - 1), ks[n - 1], f(ks[n - 1]));
    }
  }

  /**
   * Assigning to each of a list of distinct keys only when `f` gives a
   * value stores exactly those values: every other key stays absent.
   */
  lemma {:induction false} PutPresentSpec<T>(ks: seq<string>, f: string -> Option<T>, n: nat)
    requires n <= |ks| && Distinct(ks)
    ensures DistinctKeys(PutPresent([], ks, f, n))
    ensures forall k :: Get(PutPresent([], ks, f, n), k) == (if k in ks[..n] then f(k) else None)
  {
    if n > 0 {
      PutPresentSpec(ks, f, n - 1);
      var acc := PutPresent([], ks, f, n - 1);
      var k := ks[n - 1];
      assert ks[..n] == ks[..n - 1] + [k];
      assert k !in ks[..n - 1];
      match f(k)
      case Some(v) => PutSpec(acc, k, v);
      case None =>
    }
  }
}
