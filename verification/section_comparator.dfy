/**
 * `compare`: for every section handle of either side, the entries are
 * indexed by uid and split into those only the remote has (`added`), those
 * only the current side has (`removed`), and those both have whose
 * `entryDiff` is not null (`changed`, keyed by uid).
 */
module SectionComparator {
  import opened OrderedMap
  import opened PhpValue
  import opened RecordIndex
  import opened EntryDiffer

  /** `['added' => …, 'removed' => …, 'changed' => …]` for one section. */
  datatype SectionDiff = SectionDiff(added: seq<Entry>, removed: seq<Entry>, changed: seq<(string, EntryChange)>)

  /** Section handle => list of entries. */
  type Sections = seq<(string, seq<Entry>)>

  /** `$bySection[$handle] ?? []` */
  function SectionEntries(s: Sections, h: string): seq<Entry>
  {
    match Get(s, h)
    case Some(entries) => entries
    case None => []
  }

  /** `$byUid[$uid]`; every uid the comparison looks up is a key of the index it reads. */
  function Record(byUid: seq<(string, Entry)>, u: string): Entry
  {
    match Get(byUid, u)
    case Some(e) => e
    case None => []
  }

  /** `array_values(array_diff($xs, $ys))`: the strings of `xs` that `ys` lacks, in order. */
  function Without(xs: seq<string>, ys: seq<string>): seq<string>
  {
    if xs == [] then []
    else (if xs[0] in ys then [] else [xs[0]]) + Without(xs[1..], ys)
  }

  /** `array_intersect($xs, $ys)`: the strings of `xs` that `ys` also holds, in order. */
  function Both(xs: seq<string>, ys: seq<string>): seq<string>
  {
    if xs == [] then []
    else (if xs[0] in ys then [xs[0]] else []) + Both(xs[1..], ys)
  }

  /** `array_map(fn($uid) => $byUid[$uid], $uids)` */
  function RecordsOf(byUid: seq<(string, Entry)>, uids: seq<string>): (r: seq<Entry>)
    ensures |r| == |uids|
  {
    seq(|uids|, i requires 0 <= i < |uids| => Record(byUid, uids[i]))
  }

  /**
   * How two records of one uid are compared.  `compare` uses `entryDiff`
   * (`EntryChangeOf`); the facts about sections hold for any such function,
   * so they are stated for a parameter `diff` and instantiated with it.
   */
  type Differ = (Entry, Entry) -> Option<EntryChange>

  /** The diff of the records the two indexes hold under a uid. */
  function DiffOf(diff: Differ, ci: seq<(string, Entry)>, ri: seq<(string, Entry)>): string -> Option<EntryChange>
  {
    u => diff(Record(ci, u), Record(ri, u))
  }

  /** The records of `remote`'s index under the uids `current`'s index lacks, in remote order. */
  function AddedOf(current: seq<Entry>, remote: seq<Entry>): seq<Entry>
  {
    RecordsOf(IndexOf(remote), Without(Keys(IndexOf(remote)), Keys(IndexOf(current))))
  }

  /** What `compare` stores for one section, given its two entry lists. */
  function SectionOf(diff: Differ, current: seq<Entry>, remote: seq<Entry>): SectionDiff
  {
    var ci, ri := IndexOf(current), IndexOf(remote);
    var common := Both(Keys(ci), Keys(ri));
    SectionDiff(AddedOf(current, remote), AddedOf(remote, current), PutPresent([], common, DiffOf(diff, ci, ri), |common|))
  }

  /** The diff stored under a section handle. */
  function SectionFor(diff: Differ, cs: Sections, rs: Sections): string -> SectionDiff
  {
    h => SectionOf(diff, SectionEntries(cs, h), SectionEntries(rs, h))
  }

  /** The comparison of two snapshots, records of one uid compared by `diff`. */
  function CompareWith(diff: Differ, cs: Sections, rs: Sections): seq<(string, SectionDiff)>
  {
    var hs := UnionKeys(cs, rs);
    PutEach([], hs, SectionFor(diff, cs, rs), |hs|)
  }

  /** What `compare($currentBySection, $remoteBySection)` returns. */
  function CompareOf(cs: Sections, rs: Sections): seq<(string, SectionDiff)>
  {
    CompareWith(EntryChangeOf, cs, rs)
  }

  /** `compare`: the loop over section handles, proved to compute `CompareOf`. */
  method Compare(cs: Sections, rs: Sections) returns (result: seq<(string, SectionDiff)>)
    ensures result == CompareOf(cs, rs)
  {
    var allSections := UnionKeys(cs, rs);
    result := [];
    var n := 0;
    while n < |allSections|
      invariant 0 <= n <= |allSections|
      invariant result == PutEach([], allSections, SectionFor(EntryChangeOf, cs, rs), n)
    {
      result := CompareNext(result, cs, rs, allSections, n);
      n := n + 1;
    }
  }

  /** The body of `compare`'s loop for the `n`-th section handle. */
  method CompareNext(result0: seq<(string, SectionDiff)>, cs: Sections, rs: Sections, allSections: seq<string>, n: nat)
    returns (result: seq<(string, SectionDiff)>)
    requires n < |allSections| && result0 == PutEach([], allSections, SectionFor(EntryChangeOf, cs, rs), n)
    ensures result == PutEach([], allSections, SectionFor(EntryChangeOf, cs, rs), n + 1)
  {
    var sectionHandle := allSections[n];
    var current := SectionEntries(cs, sectionHandle);
    var remote := SectionEntries(rs, sectionHandle);
    var d := CompareSection(current, remote);
    result := Put(result0, sectionHandle, d);
  }

  /** The body of `compare`'s loop for one section. */
  method CompareSection(current: seq<Entry>, remote: seq<Entry>) returns (d: SectionDiff)
    ensures d == SectionOf(EntryChangeOf, current, remote)
  {
    var currentByUid := IndexByUid(current);
    var remoteByUid := IndexByUid(remote);
    var currentUids := Keys(currentByUid);
    var remoteUids := Keys(remoteByUid);
    var added := Without(remoteUids, currentUids);
    var removed := Without(currentUids, remoteUids);
    var common := Both(currentUids, remoteUids);
    var changed := ChangedEntries(currentByUid, remoteByUid, common);
    d := SectionDiff(RecordsOf(remoteByUid, added), RecordsOf(currentByUid, removed), changed);
  }

  /** `compare`'s inner loop: the entry diffs of the uids both sides hold, keyed by uid. */
  method ChangedEntries(ci: seq<(string, Entry)>, ri: seq<(string, Entry)>, common: seq<string>)
    returns (changed: seq<(string, EntryChange)>)
    ensures changed == PutPresent([], common, DiffOf(EntryChangeOf, ci, ri), |common|)
  {
    changed := [];
    var n := 0;
    while n < |common|
      invariant 0 <= n <= |common|
      invariant changed == PutPresent([], common, DiffOf(EntryChangeOf, ci, ri), n)
    {
      changed := DiffCommon(changed, ci, ri, common[n]);
      n := n + 1;
    }
  }

  /** The body of the loop over common uids: the uid's entry diff stored when it is not null. */
  method DiffCommon(changed0: seq<(string, EntryChange)>, ci: seq<(string, Entry)>, ri: seq<(string, Entry)>, uid: string)
    returns (changed: seq<(string, EntryChange)>)
    ensures DiffOf(EntryChangeOf, ci, ri)(uid).Some? ==> changed == Put(changed0, uid, DiffOf(EntryChangeOf, ci, ri)(uid).value)
    ensures DiffOf(EntryChangeOf, ci, ri)(uid).None? ==> changed == changed0
  {
    changed := changed0;
    var diff := EntryDiff(Record(ci, uid), Record(ri, uid));
    if diff.Some? {
      changed := Put(changed, uid, diff.value);
    }
  }
}
