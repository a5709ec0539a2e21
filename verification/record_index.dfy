/**
 * `indexByUid`: a section's list of entries turned into an array keyed by
 * uid.  Entries without a string `uid` are skipped; when several entries
 * share a uid the last one is kept, at the position where the uid first
 * appeared (PHP's assignment to an existing key).
 */
module RecordIndex {
  import opened OrderedMap
  import opened PhpValue

  /** One exported entry: an array of named values, `uid` among them. */
  type Entry = seq<(string, Value)>

  /** `$entry['uid'] ?? null`, kept only when `is_string` holds of it. */
  function Uid(entry: Entry): Option<string>
  {
    match Lookup(entry, "uid")
    case Str(s) => Some(s)
    case _ => None
  }

  /** The index `indexByUid` builds from `entries`. */
  function IndexOf(entries: seq<Entry>): seq<(string, Entry)>
  {
    if entries == [] then []
    else
      var front := IndexOf(entries[..|entries| - 1]);
      var entry := entries[|entries| - 1];
      match Uid(entry)
      case Some(u) => Put(front, u, entry)
      case None => front
  }

  /** `indexByUid`: the loop of the source, proved to compute `IndexOf`. */
  method IndexByUid(entries: seq<Entry>) returns (byUid: seq<(string, Entry)>)
    ensures byUid == IndexOf(entries)
  {
    byUid := [];
    var n := 0;
    while n < |entries|
      invariant 0 <= n <= |entries|
      invariant byUid == IndexOf(entries[..n])
    {
      var entry := entries[n];
      var uid := Lookup(entry, "uid");
      if uid.Str? {
        byUid := Put(byUid, uid.s, entry);
      }
      assert entries[..n + 1][..n] == entries[..n];
      n := n + 1;
    }
    assert entries[..n] == entries;
  }

  /** Some entry of the list carries the string uid `u`. */
  ghost predicate HasUid(entries: seq<Entry>, u: string)
  {
    exists i :: 0 <= i < |entries| && Uid(entries[i]) == Some(u)
  }

  /**
   * The index is a PHP array (no uid twice), holds no more records than the
   * list it was built from, and files every record under its own uid.
   */
  lemma {:induction false} IndexShape(entries: seq<Entry>)
    ensures DistinctKeys(IndexOf(entries))
    ensures |IndexOf(entries)| <= |entries|
    ensures forall p | p in IndexOf(entries) :: Uid(p.1) == Some(p.0) && p.1 in entries
  {
    if entries != [] {
      var front := entries[..|entries| - 1];
      var entry := entries[|entries| - 1];
      IndexShape(front);
      assert forall e | e in front :: e in entries;
      match Uid(entry)
      case Some(u) => PutSpec(IndexOf(front), u, entry);
      case None =>
    }
  }

  /**
   * Under each uid the index holds the LAST entry carrying it, and a uid is
   * absent exactly when no entry carries it as a string.
   */
  lemma {:induction false} IndexLastWins(entries: seq<Entry>, u: string)
    ensures Get(IndexOf(entries), u).None? <==> !HasUid(entries, u)
    ensures Get(IndexOf(entries), u).Some? ==>
      exists i :: 0 <= i < |entries| && Uid(entries[i]) == Some(u) && Get(IndexOf(entries), u) == Some(entries[i])
        && forall j :: i < j < |entries| ==> Uid(entries[j]) != Some(u)
  {
    if entries == [] {
      assert !HasUid(entries, u);
    } else {
      var n := |entries|;
      var front := entries[..n - 1];
      var entry := entries[n - 1];
      var idx := IndexOf(entries);
      IndexLastWins(front, u);
      assert forall i :: 0 <= i < n - 1 ==> entries[i] == front[i];
      if Uid(entry) == Some(u) {
        PutSpec(IndexOf(front), u, entry);
        assert Get(idx, u) == Some(entries[n - 1]);
        assert HasUid(entries, u);
      } else {
        assert Get(idx, u) == Get(IndexOf(front), u) by {
          if Uid(entry).Some? {
            PutSpec(IndexOf(front), Uid(entry).value, entry);
          }
        }
        assert HasUid(entries, u) ==> HasUid(front, u) by {
          if HasUid(entries, u) {
            var i :| 0 <= i < n && Uid(entries[i]) == Some(u);
            assert i < n - 1 && Uid(front[i]) == Some(u);
          }
        }
        assert HasUid(front, u) ==> HasUid(entries, u) by {
          if HasUid(front, u) {
            var i :| 0 <= i < n - 1 && Uid(front[i]) == Some(u);
            assert Uid(entries[i]) == Some(u);
          }
        }
      }
    }
  }

  /** The index holds exactly the string uids of the list. */
  lemma IndexKeys(entries: seq<Entry>, u: string)
    ensures u in KeySet(IndexOf(entries)) <==> HasUid(entries, u)
  {
    IndexLastWins(entries, u);
  }
}
