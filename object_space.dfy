/** An abstract model of the per-connection `SharedObjectSpace`: the table
    of replicated objects, kept as a sequence in iteration order, with one
    object per network id. */
module ObjectSpace {
  import opened Wrappers
  import opened SharedObjects
  import IdIndexes

  /** No two objects of the table share a network id. */
  predicate UniqueIds(space: seq<SharedObject>)
  {
    forall i, j :: 0 <= i < j < |space| ==> space[i].networkId != space[j].networkId
  }

  /** The table and the id index agree: the index is valid, ids are
      unique in the table, and every object's entity maps to its id. */
  predicate Consistent(ids: IdIndexes.IdIndex, space: seq<SharedObject>)
  {
    IdIndexes.Valid(ids) && UniqueIds(space) &&
    forall k :: 0 <= k < |space| ==>
      space[k].entityId in ids.ids && ids.ids[space[k].entityId] == space[k].networkId
  }

  /** The position of the object with the given network id, or -1. */
  function FindIndex(space: seq<SharedObject>, networkId: int): (r: int)
    ensures -1 <= r < |space|
    ensures r >= 0 ==> space[r].networkId == networkId
    ensures r == -1 <==> forall k :: 0 <= k < |space| ==> space[k].networkId != networkId
  {
    if space == [] then -1
    else if space[0].networkId == networkId then 0
    else
      var r := FindIndex(space[1..], networkId);
      if r < 0 then -1 else r + 1
  }

  /** `getObject(networkId)`: the object with that id, or none. */
  function GetObject(space: seq<SharedObject>, networkId: int): (r: Option<SharedObject>)
    ensures r.Some? <==> exists k :: 0 <= k < |space| && space[k].networkId == networkId
    ensures r.Some? ==> r.value in space && r.value.networkId == networkId
  {
    var k := FindIndex(space, networkId);
    if k < 0 then None else Some(space[k])
  }

  /** Commits one confirmed pair: the object with that network id, if the
      table still holds it, takes the pair as its baseline. */
  function CommitEntry(space: seq<SharedObject>, e: SentEntry): (r: seq<SharedObject>)
    ensures |r| == |space|
    ensures forall k :: 0 <= k < |r| ==> SameButBaseline(space[k], r[k])
  {
    var k := FindIndex(space, e.networkId);
    if k < 0 then space else space[k := CommitBaseline(space[k], e)]
  }

  /** `updateBaseline(frames)`: commits every pair of a transmitted frame, in
      order. Only baselines change. */
  function UpdateBaseline(space: seq<SharedObject>, entries: seq<SentEntry>): (r: seq<SharedObject>)
    ensures |r| == |space|
    ensures forall k :: 0 <= k < |r| ==> SameButBaseline(space[k], r[k])
    decreases |entries|
  {
    if entries == [] then space
    else UpdateBaseline(CommitEntry(space, entries[0]), entries[1..])
  }

  /** The object a committed pair names, and only that object, commits the
      pair. */
  lemma CommitEntrySetsBaseline(space: seq<SharedObject>, e: SentEntry, k: int)
    requires UniqueIds(space) && 0 <= k < |space|
    ensures space[k].networkId == e.networkId ==> CommitEntry(space, e)[k] == CommitBaseline(space[k], e)
    ensures space[k].networkId != e.networkId ==> CommitEntry(space, e)[k] == space[k]
  {
  }

  /** Tables that differ only in baselines place every network id alike. */
  lemma {:induction false} FindIndexIgnoresBaselines(a: seq<SharedObject>, b: seq<SharedObject>, networkId: int)
    requires |a| == |b| && forall k :: 0 <= k < |a| ==> SameButBaseline(a[k], b[k])
    ensures FindIndex(a, networkId) == FindIndex(b, networkId)
    decreases |a|
  {
    if a != [] {
      assert SameButBaseline(a[0], b[0]);
      assert forall k :: 0 <= k < |a[1..]| ==> a[1..][k] == a[k + 1] && b[1..][k] == b[k + 1];
      FindIndexIgnoresBaselines(a[1..], b[1..], networkId);
    }
  }

  /** Two confirmed pairs commit to the same table in either order. */
  lemma CommitEntryCommutes(space: seq<SharedObject>, e1: SentEntry, e2: SentEntry)
    ensures CommitEntry(CommitEntry(space, e1), e2) == CommitEntry(CommitEntry(space, e2), e1)
  {
    var s1 := CommitEntry(space, e1);
    var s2 := CommitEntry(space, e2);
    FindIndexIgnoresBaselines(space, s1, e2.networkId);
    FindIndexIgnoresBaselines(space, s2, e1.networkId);
    var k1 := FindIndex(space, e1.networkId);
    var k2 := FindIndex(space, e2.networkId);
    if k1 >= 0 && k2 >= 0 && k1 == k2 {
      CommitOrderIrrelevant(space[k1], e1, e2);
    }
  }

  /** One confirmed pair commits to a table before or after a whole frame
      with the same result. */
  lemma {:induction false} CommitEntryCommutesWithFrame(space: seq<SharedObject>, e: SentEntry,
                                                       entries: seq<SentEntry>)
    ensures CommitEntry(UpdateBaseline(space, entries), e) == UpdateBaseline(CommitEntry(space, e), entries)
    decreases |entries|
  {
    if entries != [] {
      CommitEntryCommutesWithFrame(CommitEntry(space, entries[0]), e, entries[1..]);
      CommitEntryCommutes(space, entries[0], e);
    }
  }

  /** Two frames' baselines commit to the same table in either order. */
  lemma {:induction false} UpdateBaselineCommutes(space: seq<SharedObject>, first: seq<SentEntry>,
                                                 second: seq<SentEntry>)
    ensures UpdateBaseline(UpdateBaseline(space, first), second) ==
            UpdateBaseline(UpdateBaseline(space, second), first)
    decreases |first|
  {
    if first != [] {
      UpdateBaselineCommutes(CommitEntry(space, first[0]), first[1..], second);
      CommitEntryCommutesWithFrame(space, first[0], second);
    }
  }

  /** Changing baselines only keeps the table consistent with the index. */
  lemma SameButBaselineKeepsConsistent(ids: IdIndexes.IdIndex, a: seq<SharedObject>, b: seq<SharedObject>)
    requires Consistent(ids, a)
    requires |a| == |b| && forall k :: 0 <= k < |a| ==> SameButBaseline(a[k], b[k])
    ensures Consistent(ids, b)
  {
  }

  /** Changing baselines only keeps the ids of the table unique. */
  lemma SameButBaselineKeepsUniqueIds(a: seq<SharedObject>, b: seq<SharedObject>)
    requires UniqueIds(a)
    requires |a| == |b| && forall k :: 0 <= k < |a| ==> SameButBaseline(a[k], b[k])
    ensures UniqueIds(b)
  {
    forall i, j | 0 <= i < j < |b| ensures b[i].networkId != b[j].networkId {
      assert SameButBaseline(a[i], b[i]) && SameButBaseline(a[j], b[j]);
    }
  }

  /** The object's baseline is absent or confirms a version no later than v. */
  predicate BaselineAtMost(o: SharedObject, v: int)
  {
    o.baseline.None? || o.baseline.value.version <= v
  }

  /** The client has confirmed the object's removal at version v. */
  predicate RemovalConfirmed(o: SharedObject, v: int)
  {
    o.baseline == Some(Baseline(v, true))
  }

  /** Every pair of `entries` naming `networkId` has a version no later than v. */
  predicate EntriesAtMost(entries: seq<SentEntry>, networkId: int, v: int)
  {
    forall i :: 0 <= i < |entries| && entries[i].networkId == networkId ==> entries[i].version <= v
  }

  /** Committing a frame whose pairs for an object are no later than v keeps
      its baseline no later than v and keeps a confirmed removal at v; a
      frame carrying the removal at v confirms it. */
  lemma {:induction false} UpdateBaselineConfirmsRemoval(space: seq<SharedObject>, entries: seq<SentEntry>,
                                                        k: int, v: int)
    requires UniqueIds(space) && 0 <= k < |space|
    requires EntriesAtMost(entries, space[k].networkId, v)
    ensures var r := UpdateBaseline(space, entries)[k];
      (BaselineAtMost(space[k], v) ==> BaselineAtMost(r, v)) &&
      (RemovalConfirmed(space[k], v) ==> RemovalConfirmed(r, v)) &&
      (BaselineAtMost(space[k], v) && SentEntry(space[k].networkId, v, true) in entries ==> RemovalConfirmed(r, v))
    decreases |entries|
  {
    if entries != [] {
      var n := space[k].networkId;
      var s1 := CommitEntry(space, entries[0]);
      CommitEntrySetsBaseline(space, entries[0], k);
      SameButBaselineKeepsUniqueIds(space, s1);
      assert SameButBaseline(space[k], s1[k]);
      assert EntriesAtMost(entries[1..], n, v) by {
        forall i | 0 <= i < |entries[1..]| && entries[1..][i].networkId == n ensures entries[1..][i].version <= v {
          assert entries[1..][i] == entries[i + 1];
        }
      }
      UpdateBaselineConfirmsRemoval(s1, entries[1..], k, v);
      if SentEntry(n, v, true) in entries && SentEntry(n, v, true) != entries[0] {
        assert SentEntry(n, v, true) in entries[1..];
      }
    }
  }
}
