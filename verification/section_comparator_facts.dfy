/**
 * What `compare` promises: one result per section handle of either side,
 * a missing section read as an empty list, `added` / `removed` holding the
 * entries whose uid only one side has, `changed` holding the non-null entry
 * diffs of the uids both sides have, and the three parts never sharing a uid.
 */
module SectionComparatorFacts {
  import opened OrderedMap
  import opened PhpValue
  import opened RecordIndex
  import opened EntryDiffer
  import opened SectionComparator

  lemma {:induction false} WithoutSpec(xs: seq<string>, ys: seq<string>)
    ensures forall x :: x in Without(xs, ys) <==> x in xs && x !in ys
    ensures Distinct(xs) ==> Distinct(Without(xs, ys))
  {
    if xs != [] {
      WithoutSpec(xs[1..], ys);
      assert forall x :: x in xs <==> x == xs[0] || x in xs[1..];
      if Distinct(xs) {
        assert Distinct(xs[1..]) by {
          forall i, j | 0 <= i < j < |xs| - 1 ensures xs[1..][i] != xs[1..][j] {
            assert xs[1..][i] == xs[i + 1] && xs[1..][j] == xs[j + 1];
          }
        }
        assert xs[0] !in xs[1..];
      }
    }
  }

  lemma {:induction false} BothSpec(xs: seq<string>, ys: seq<string>)
    ensures forall x :: x in Both(xs, ys) <==> x in xs && x in ys
    ensures Distinct(xs) ==> Distinct(Both(xs, ys))
  {
    if xs != [] {
      BothSpec(xs[1..], ys);
      assert forall x :: x in xs <==> x == xs[0] || x in xs[1..];
      if Distinct(xs) {
        assert Distinct(xs[1..]) by {
          forall i, j | 0 <= i < j < |xs| - 1 ensures xs[1..][i] != xs[1..][j] {
            assert xs[1..][i] == xs[i + 1] && xs[1..][j] == xs[j + 1];
          }
        }
        assert xs[0] !in xs[1..];
      }
    }
  }

  /** A sequence with no member is empty. */
  lemma NoMemberEmpty(xs: seq<string>)
    ensures (forall x :: x !in xs) ==> xs == []
  {
    if xs != [] {
      assert xs[0] in xs;
    }
  }

  /** An array in which every lookup misses is empty. */
  lemma NoKeyEmpty<T>(m: seq<(string, T)>)
    ensures (forall k :: Get(m, k) == None) ==> m == []
  {
    if m != [] {
      assert Get(m, m[0].0).Some?;
    }
  }

  /** The index of a list, read in key order, lists its records. */
  lemma RecordsOfKeys(byUid: seq<(string, Entry)>)
    requires DistinctKeys(byUid)
    ensures RecordsOf(byUid, Keys(byUid)) == Values(byUid)
  {
    KeysAt(byUid);
    ValuesAt(byUid);
    forall i | 0 <= i < |byUid| ensures RecordsOf(byUid, Keys(byUid))[i] == Values(byUid)[i] {
      GetAt(byUid, i);
    }
  }

  /**
   * The result has one pair per section handle of either side, in
   * `array_unique(array_merge(...))` order, and each section's diff is
   * that of its two entry lists, a side without the section counting as
   * an empty list.
   */
  lemma CompareSections(diff: Differ, cs: Sections, rs: Sections)
    ensures Keys(CompareWith(diff, cs, rs)) == UnionKeys(cs, rs)
    ensures DistinctKeys(CompareWith(diff, cs, rs))
    ensures forall h ::
      Get(CompareWith(diff, cs, rs), h) == (if h in KeySet(cs) || h in KeySet(rs) then Some(SectionOf(diff, SectionEntries(cs, h), SectionEntries(rs, h))) else None)
  {
    var hs := UnionKeys(cs, rs);
    UnionKeysSpec(cs, rs);
    PutEachKeys(hs, SectionFor(diff, cs, rs), |hs|);
    assert hs[..|hs|] == hs;
    forall h ensures Get(CompareWith(diff, cs, rs), h) == (if h in hs then Some(SectionFor(diff, cs, rs)(h)) else None) {
      PutEachGet(hs, SectionFor(diff, cs, rs), |hs|, h);
    }
  }

  /** A section only the remote side has: every remote entry with a string uid is added (the last one per uid). */
  lemma OnlyRemoteSection(diff: Differ, remote: seq<Entry>)
    ensures SectionOf(diff, [], remote) == SectionDiff(Values(IndexOf(remote)), [], [])
  {
    var ri := IndexOf(remote);
    IndexShape(remote);
    WithoutSpec(Keys(ri), []);
    KeysDistinct(ri);
    assert Without(Keys(ri), []) == Keys(ri) by {
      WithoutAll(Keys(ri));
    }
    RecordsOfKeys(ri);
  }

  /** A section only the current side has: every current entry with a string uid is removed. */
  lemma OnlyCurrentSection(diff: Differ, current: seq<Entry>)
    ensures SectionOf(diff, current, []) == SectionDiff([], Values(IndexOf(current)), [])
  {
    var ci := IndexOf(current);
    IndexShape(current);
    assert Without(Keys(ci), []) == Keys(ci) by {
      WithoutAll(Keys(ci));
    }
    BothSpec(Keys(ci), []);
    NoMemberEmpty(Both(Keys(ci), []));
    RecordsOfKeys(ci);
  }

  lemma {:induction false} WithoutAll(xs: seq<string>)
    ensures Without(xs, []) == xs
  {
    if xs != [] {
      WithoutAll(xs[1..]);
    }
  }

  /**
   * `added`: every entry in it carries a string uid that the remote side
   * has and the current side lacks, and is the remote index's record for
   * it (the last remote entry with that uid); every such uid contributes
   * its record; no uid is listed twice; the records follow the order of
   * their uids in the remote index.
   */
  lemma SectionAdded(diff: Differ, current: seq<Entry>, remote: seq<Entry>)
    ensures var s := SectionOf(diff, current, remote);
      && (forall e | e in s.added :: Uid(e).Some? && HasUid(remote, Uid(e).value) && !HasUid(current, Uid(e).value)
            && Get(IndexOf(remote), Uid(e).value) == Some(e))
      && (forall u | HasUid(remote, u) && !HasUid(current, u) :: Record(IndexOf(remote), u) in s.added)
      && (forall i, j | 0 <= i < j < |s.added| :: Uid(s.added[i]) != Uid(s.added[j]))
      && s.added == RecordsNotIn(IndexOf(remote), Keys(IndexOf(current)))
  {
    AddedSound(current, remote);
    AddedComplete(current, remote);
    AddedDistinct(current, remote);
    IndexShape(remote);
    RecordsOfWithout(IndexOf(remote), Keys(IndexOf(current)));
  }

  /** Each entry `added` lists is the remote record of a uid only the remote side has. */
  lemma AddedSound(current: seq<Entry>, remote: seq<Entry>)
    ensures forall e | e in AddedOf(current, remote) ::
      Uid(e).Some? && HasUid(remote, Uid(e).value) && !HasUid(current, Uid(e).value) && Get(IndexOf(remote), Uid(e).value) == Some(e)
  {
    var w := Without(Keys(IndexOf(remote)), Keys(IndexOf(current)));
    var added := AddedOf(current, remote);
    forall e | e in added
      ensures Uid(e).Some? && HasUid(remote, Uid(e).value) && !HasUid(current, Uid(e).value)
      ensures Get(IndexOf(remote), Uid(e).value) == Some(e)
    {
      var i :| 0 <= i < |added| && added[i] == e;
      AddedAt(current, remote, w, i);
    }
  }

  /** Each uid only the remote side has contributes its record to `added`. */
  lemma AddedComplete(current: seq<Entry>, remote: seq<Entry>)
    ensures forall u | HasUid(remote, u) && !HasUid(current, u) :: Record(IndexOf(remote), u) in AddedOf(current, remote)
  {
    var ci, ri := IndexOf(current), IndexOf(remote);
    var w := Without(Keys(ri), Keys(ci));
    KeysMembership(ci);
    KeysMembership(ri);
    WithoutSpec(Keys(ri), Keys(ci));
    forall u | HasUid(remote, u) && !HasUid(current, u) ensures Record(ri, u) in AddedOf(current, remote) {
      IndexKeys(remote, u);
      IndexKeys(current, u);
      assert u in w;
      var i :| 0 <= i < |w| && w[i] == u;
      assert AddedOf(current, remote)[i] == Record(ri, u);
    }
  }

  /** `added` lists no uid twice. */
  lemma AddedDistinct(current: seq<Entry>, remote: seq<Entry>)
    ensures forall i, j | 0 <= i < j < |AddedOf(current, remote)| :: Uid(AddedOf(current, remote)[i]) != Uid(AddedOf(current, remote)[j])
  {
    var ri := IndexOf(remote);
    var w := Without(Keys(ri), Keys(IndexOf(current)));
    var added := AddedOf(current, remote);
    IndexShape(remote);
    KeysDistinct(ri);
    WithoutSpec(Keys(ri), Keys(IndexOf(current)));
    forall i, j | 0 <= i < j < |added| ensures Uid(added[i]) != Uid(added[j]) {
      AddedAt(current, remote, w, i);
      AddedAt(current, remote, w, j);
    }
  }

  /** `array_diff` over the keys of a map, one key at a time. */
  lemma WithoutKeysTail<T>(m: seq<(string, T)>, ys: seq<string>)
    requires DistinctKeys(m) && m != []
    ensures DistinctKeys(m[1..])
    ensures Without(Keys(m), ys) == (if m[0].0 in ys then [] else [m[0].0]) + Without(Keys(m[1..]), ys)
  {
    var t := m[1..];
    forall i, j | 0 <= i < j < |t| ensures t[i].0 != t[j].0 {
      assert t[i] == m[i + 1] && t[j] == m[j + 1];
    }
    assert Keys(m)[1..] == Keys(t);
  }

  /**
   * The records of an index, in index order, whose uids `ks` does not
   * hold: the order `array_values(array_diff(...))` leaves them in.
   */
  function RecordsNotIn(byUid: seq<(string, Entry)>, ks: seq<string>): seq<Entry>
  {
    if byUid == [] then []
    else (if byUid[0].0 in ks then [] else [byUid[0].1]) + RecordsNotIn(byUid[1..], ks)
  }

  /** Mapping the kept uids to their records lists the index's records in its own order. */
  lemma {:induction false} RecordsOfWithout(m: seq<(string, Entry)>, ks: seq<string>)
    requires DistinctKeys(m)
    ensures RecordsOf(m, Without(Keys(m), ks)) == RecordsNotIn(m, ks)
  {
    if m != [] {
      var rest := Without(Keys(m[1..]), ks);
      WithoutKeysTail(m, ks);
      RecordsOfWithout(m[1..], ks);
      WithoutSpec(Keys(m[1..]), ks);
      RecordsOfTail(m, rest);
      if m[0].0 !in ks {
        RecordsOfCons(m, m[0].0, rest);
        GetAt(m, 0);
      }
    }
  }

  lemma RecordsOfCons(m: seq<(string, Entry)>, u: string, us: seq<string>)
    ensures RecordsOf(m, [u] + us) == [Record(m, u)] + RecordsOf(m, us)
  {
    var l, r := RecordsOf(m, [u] + us), [Record(m, u)] + RecordsOf(m, us);
    forall k | 0 <= k < |l| ensures l[k] == r[k] {
      if k > 0 {
        assert ([u] + us)[k] == us[k - 1];
      }
    }
  }

  /** Uids of the tail of an index without repeats find the same records in the whole index. */
  lemma RecordsOfTail(m: seq<(string, Entry)>, us: seq<string>)
    requires DistinctKeys(m) && m != [] && forall u | u in us :: u in Keys(m[1..])
    ensures RecordsOf(m, us) == RecordsOf(m[1..], us)
  {
    var t := m[1..];
    KeysMembership(t);
    forall k | 0 <= k < |us| ensures Record(m, us[k]) == Record(t, us[k]) {
      assert us[k] in us;
      var q :| 0 <= q < |t| && t[q].0 == us[k];
      assert m[q + 1] == t[q];
      GetAt(m, q + 1);
      GetAt(t, q);
    }
  }

  /** One uid of the remote index that the current index lacks, and the record listed for it. */
  lemma AddedAt(current: seq<Entry>, remote: seq<Entry>, w: seq<string>, i: int)
    requires w == Without(Keys(IndexOf(remote)), Keys(IndexOf(current))) && 0 <= i < |w|
    ensures var e := Record(IndexOf(remote), w[i]);
      Uid(e) == Some(w[i]) && Get(IndexOf(remote), w[i]) == Some(e)
    ensures HasUid(remote, w[i]) && !HasUid(current, w[i])
  {
    var ri := IndexOf(remote);
    KeysMembership(IndexOf(current));
    KeysMembership(ri);
    IndexShape(remote);
    WithoutSpec(Keys(ri), Keys(IndexOf(current)));
    assert w[i] in w;
    IndexKeys(remote, w[i]);
    IndexKeys(current, w[i]);
  }

  /** `removed` is `added` with the sides swapped. */
  lemma SectionRemoved(diff: Differ, current: seq<Entry>, remote: seq<Entry>)
    ensures var s := SectionOf(diff, current, remote);
      && (forall e | e in s.removed :: Uid(e).Some? && HasUid(current, Uid(e).value) && !HasUid(remote, Uid(e).value)
            && Get(IndexOf(current), Uid(e).value) == Some(e))
      && (forall u | HasUid(current, u) && !HasUid(remote, u) :: Record(IndexOf(current), u) in s.removed)
      && (forall i, j | 0 <= i < j < |s.removed| :: Uid(s.removed[i]) != Uid(s.removed[j]))
      && s.removed == RecordsNotIn(IndexOf(current), Keys(IndexOf(remote)))
  {
    SectionAdded(diff, remote, current);
  }

  /**
   * `changed`: keyed by uid without repeats; every pair is a uid both
   * sides hold with the non-null `entryDiff` of their records; every uid
   * both sides hold whose `entryDiff` is not null is present.
   */
  lemma SectionChanged(diff: Differ, current: seq<Entry>, remote: seq<Entry>)
    ensures var s := SectionOf(diff, current, remote);
      && DistinctKeys(s.changed)
      && (forall p | p in s.changed :: HasUid(current, p.0) && HasUid(remote, p.0)
            && diff(Record(IndexOf(current), p.0), Record(IndexOf(remote), p.0)) == Some(p.1))
      && (forall u | HasUid(current, u) && HasUid(remote, u) ::
            Get(s.changed, u) == diff(Record(IndexOf(current), u), Record(IndexOf(remote), u)))
  {
    var ci, ri := IndexOf(current), IndexOf(remote);
    var cu, ru := Keys(ci), Keys(ri);
    var common := Both(cu, ru);
    var s := SectionOf(diff, current, remote);
    IndexShape(current);
    KeysDistinct(ci);
    KeysMembership(ci);
    KeysMembership(ri);
    BothSpec(cu, ru);
    PutPresentSpec(common, DiffOf(diff, ci, ri), |common|);
    assert common[..|common|] == common;
    forall u ensures u in common <==> HasUid(current, u) && HasUid(remote, u) {
      IndexKeys(current, u);
      IndexKeys(remote, u);
    }
    forall u ensures DiffOf(diff, ci, ri)(u) == diff(Record(ci, u), Record(ri, u)) {
    }
    forall p | p in s.changed
      ensures HasUid(current, p.0) && HasUid(remote, p.0)
      ensures diff(Record(ci, p.0), Record(ri, p.0)) == Some(p.1)
    {
      var i :| 0 <= i < |s.changed| && s.changed[i] == p;
      GetAt(s.changed, i);
    }
  }

  /** `added`, `removed` and `changed` never share a uid. */
  lemma SectionPartsDisjoint(diff: Differ, current: seq<Entry>, remote: seq<Entry>)
    ensures var s := SectionOf(diff, current, remote);
      && (forall a, r | a in s.added && r in s.removed :: Uid(a) != Uid(r))
      && (forall a | a in s.added :: Uid(a).Some? && Uid(a).value !in KeySet(s.changed))
      && (forall r | r in s.removed :: Uid(r).Some? && Uid(r).value !in KeySet(s.changed))
  {
    var s := SectionOf(diff, current, remote);
    SectionAdded(diff, current, remote);
    SectionRemoved(diff, current, remote);
    SectionChanged(diff, current, remote);
    forall k | k in KeySet(s.changed) ensures HasUid(current, k) && HasUid(remote, k) {
      var i :| 0 <= i < |s.changed| && s.changed[i].0 == k;
      assert s.changed[i] in s.changed;
    }
  }

  /** A section compared with itself adds, removes and changes nothing. */
  lemma SectionSelf(x: seq<Entry>)
    ensures SectionOf(EntryChangeOf, x, x) == SectionDiff([], [], [])
  {
    var xi := IndexOf(x);
    var xu := Keys(xi);
    var common := Both(xu, xu);
    var changed := PutPresent([], common, DiffOf(EntryChangeOf, xi, xi), |common|);
    WithoutSpec(xu, xu);
    NoMemberEmpty(Without(xu, xu));
    IndexShape(x);
    KeysDistinct(xi);
    BothSpec(xu, xu);
    PutPresentSpec(common, DiffOf(EntryChangeOf, xi, xi), |common|);
    forall u ensures Get(changed, u) == None {
      EntrySelf(Record(xi, u));
      assert DiffOf(EntryChangeOf, xi, xi)(u) == None;
    }
    NoKeyEmpty(changed);
  }

  /** Comparing a snapshot with itself reports every section, each with nothing in it. */
  lemma CompareSelf(cs: Sections)
    ensures Keys(CompareOf(cs, cs)) == UnionKeys(cs, cs)
    ensures forall h | h in KeySet(cs) :: Get(CompareOf(cs, cs), h) == Some(SectionDiff([], [], []))
  {
    CompareSections(EntryChangeOf, cs, cs);
    forall h | h in KeySet(cs) ensures Get(CompareOf(cs, cs), h) == Some(SectionDiff([], [], [])) {
      SectionSelf(SectionEntries(cs, h));
    }
  }
}
