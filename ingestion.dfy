/** Ingestion of one zone's state block (`stateChanged`): updates obtain a
    network id, allocating one if needed, and refresh their object, creating
    it if needed; removals look their id up without allocating and mark the
    object removed, skipping entities that are not tracked. */
module Ingestion {
  import opened Wrappers
  import opened SharedObjects
  import opened ObjectSpace
  import IdIndexes

  /** One entity's state in a block. */
  datatype StateEntry = StateEntry(entity: int, position: Vec3d, rotation: Quatd)

  /** One zone's updates and removals for one time step. A null list of the
      source is an empty sequence here. */
  datatype StateBlock = StateBlock(time: int, zone: ZoneKey, updates: seq<StateEntry>, removals: seq<int>)

  /** What ingestion changes: the id index, the object table, and the cached
      position of the connection's own entity. */
  datatype Tables = Tables(ids: IdIndexes.IdIndex, space: seq<SharedObject>, selfPosition: Vec3d)

  /** `space.getObject(networkId, entityId)` followed by `updateState`: the
      object with that id, or a new one appended to the table, takes the
      state; the boolean is what `updateState` answered. */
  function RefreshObject(space: seq<SharedObject>, networkId: int, entityId: int, time: int,
                         zone: ZoneKey, zoneId: int, e: StateEntry): (r: (seq<SharedObject>, bool))
  {
    var k := FindIndex(space, networkId);
    var so := if k >= 0 then space[k] else NewObject(networkId, entityId);
    var (so1, changed) := UpdateState(so, time, zone, zoneId, e.position, e.rotation);
    (if k >= 0 then space[k := so1] else space + [so1], changed)
  }

  /** One update entry. */
  function ApplyUpdate(t: Tables, self: Option<int>, time: int, zone: ZoneKey, zoneId: int,
                       e: StateEntry): Tables
  {
    var (ids1, networkId) := IdIndexes.GetId(t.ids, e.entity, true);
    var (space1, changed) := RefreshObject(t.space, networkId, e.entity, time, zone, zoneId, e);
    var pos1 := if changed && self == Some(e.entity) then e.position else t.selfPosition;
    Tables(ids1, space1, pos1)
  }

  /** The update entries of a block, in order. */
  function ApplyUpdates(t: Tables, self: Option<int>, time: int, zone: ZoneKey, zoneId: int,
                        updates: seq<StateEntry>): Tables
    decreases |updates|
  {
    if updates == [] then t
    else ApplyUpdates(ApplyUpdate(t, self, time, zone, zoneId, updates[0]), self, time, zone, zoneId, updates[1..])
  }

  /** One removal entry. */
  function ApplyRemoval(t: Tables, time: int, entity: int): Tables
  {
    var networkId := IdIndexes.GetId(t.ids, entity, false).1;
    if networkId == IdIndexes.NotFound then t
    else
      var k := FindIndex(t.space, networkId);
      if k < 0 then t
      else t.(space := t.space[k := MarkRemoved(t.space[k], time)])
  }

  /** The removal entries of a block, in order. */
  function ApplyRemovals(t: Tables, time: int, removals: seq<int>): Tables
    decreases |removals|
  {
    if removals == [] then t
    else ApplyRemovals(ApplyRemoval(t, time, removals[0]), time, removals[1..])
  }

  /** A block: its updates, then its removals. */
  function ApplyBlock(t: Tables, self: Option<int>, b: StateBlock, zoneId: int): Tables
  {
    ApplyRemovals(ApplyUpdates(t, self, b.time, b.zone, zoneId, b.updates), b.time, b.removals)
  }

  /** Objects already in the table keep their place, identity, removal flag
      and baseline, and their version never decreases; the table only grows. */
  predicate Grows(before: seq<SharedObject>, after: seq<SharedObject>)
  {
    |before| <= |after| &&
    forall k :: 0 <= k < |before| ==>
      after[k].networkId == before[k].networkId && after[k].entityId == before[k].entityId &&
      after[k].version >= before[k].version && after[k].baseline == before[k].baseline &&
      (before[k].markedRemoved ==> after[k].markedRemoved)
  }

  lemma GrowsTransitive(a: seq<SharedObject>, b: seq<SharedObject>, c: seq<SharedObject>)
    requires Grows(a, b) && Grows(b, c)
    ensures Grows(a, c)
  {
  }

  /** One update keeps the table consistent with the id index, tracks the
      updated entity, keeps every earlier id, and only grows the table. */
  lemma UpdateKeepsConsistent(t: Tables, self: Option<int>, time: int, zone: ZoneKey, zoneId: int,
                              e: StateEntry)
    requires Consistent(t.ids, t.space)
    ensures var r := ApplyUpdate(t, self, time, zone, zoneId, e);
      Consistent(r.ids, r.space) && Grows(t.space, r.space) &&
      e.entity in r.ids.ids &&
      (exists k :: 0 <= k < |r.space| && r.space[k].entityId == e.entity) &&
      (forall x :: x in t.ids.ids ==> x in r.ids.ids && r.ids.ids[x] == t.ids.ids[x])
  {
    var (ids1, nid) := IdIndexes.GetId(t.ids, e.entity, true);
    IdIndexes.GetIdKeepsValid(t.ids, e.entity, true);
    var k := FindIndex(t.space, nid);
    var r := ApplyUpdate(t, self, time, zone, zoneId, e);
    if e.entity !in t.ids.ids {
      // A new id is not used by any object of the table.
      forall j | 0 <= j < |t.space| ensures t.space[j].networkId != nid {
        assert t.ids.ids[t.space[j].entityId] in IdIndexes.Used(t.ids);
      }
      assert k == -1;
    }
    if k >= 0 {
      // The object found by id belongs to the updated entity.
      assert t.ids.ids[t.space[k].entityId] == nid == t.ids.ids[e.entity];
      assert t.space[k].entityId == e.entity;
      assert r.space[k].entityId == e.entity;
    } else {
      assert r.space == t.space + [r.space[|t.space|]];
      assert r.space[|t.space|].entityId == e.entity;
      forall i, j | 0 <= i < j < |r.space| ensures r.space[i].networkId != r.space[j].networkId {
        if j == |t.space| {
          assert r.space[i] == t.space[i];
        }
      }
    }
  }

  /** The object holds the state the update carried, at the block's time. */
  predicate HasState(o: SharedObject, time: int, zone: ZoneKey, zoneId: int, e: StateEntry)
  {
    o.version == time && o.zone == zone && o.zoneId == zoneId &&
    o.position == e.position && o.rotation == e.rotation
  }

  /** What one update does to the table: the updated entity's object is the
      one its network id names, either the existing one or a new one
      appended; it takes the update's state unless the state is older than
      the object's version; every other object is left exactly as it was. */
  lemma UpdateTakesState(t: Tables, self: Option<int>, time: int, zone: ZoneKey, zoneId: int, e: StateEntry)
    requires Consistent(t.ids, t.space)
    ensures var r := ApplyUpdate(t, self, time, zone, zoneId, e);
      e.entity in r.ids.ids &&
      (var k := FindIndex(r.space, r.ids.ids[e.entity]);
       0 <= k && r.space[k].entityId == e.entity &&
       (forall j :: 0 <= j < |t.space| && j != k ==> r.space[j] == t.space[j]) &&
       (k < |t.space| ==>
          |r.space| == |t.space| && r.space[k].markedRemoved == t.space[k].markedRemoved &&
          (t.space[k].version <= time ==> HasState(r.space[k], time, zone, zoneId, e)) &&
          (t.space[k].version > time ==> r.space[k] == t.space[k])) &&
       (k >= |t.space| ==>
          k == |t.space| && |r.space| == |t.space| + 1 &&
          !r.space[k].markedRemoved && r.space[k].baseline == None &&
          (IsLong(time) ==> HasState(r.space[k], time, zone, zoneId, e))))
  {
    var r := ApplyUpdate(t, self, time, zone, zoneId, e);
    UpdateKeepsConsistent(t, self, time, zone, zoneId, e);
    var nid := IdIndexes.GetId(t.ids, e.entity, true).1;
    assert r.ids.ids[e.entity] == nid;
    var k0 := FindIndex(t.space, nid);
    var k := FindIndex(r.space, nid);
    if k0 >= 0 {
      assert r.space[k0].networkId == nid;
      assert k == k0;
    } else {
      assert r.space[|t.space|].networkId == nid;
      assert k == |t.space|;
    }
  }

  /** All updates keep the table consistent, track every updated entity,
      never change an id already handed out, and only grow the table. */
  lemma {:induction false} UpdatesKeepConsistent(t: Tables, self: Option<int>, time: int, zone: ZoneKey,
                                                zoneId: int, updates: seq<StateEntry>)
    requires Consistent(t.ids, t.space)
    ensures var r := ApplyUpdates(t, self, time, zone, zoneId, updates);
      Consistent(r.ids, r.space) && Grows(t.space, r.space) &&
      (forall i :: 0 <= i < |updates| ==> updates[i].entity in r.ids.ids) &&
      (forall x :: x in t.ids.ids ==> x in r.ids.ids && r.ids.ids[x] == t.ids.ids[x])
    decreases |updates|
  {
    if updates != [] {
      var t1 := ApplyUpdate(t, self, time, zone, zoneId, updates[0]);
      UpdateKeepsConsistent(t, self, time, zone, zoneId, updates[0]);
      UpdatesKeepConsistent(t1, self, time, zone, zoneId, updates[1..]);
      var r := ApplyUpdates(t, self, time, zone, zoneId, updates);
      GrowsTransitive(t.space, t1.space, r.space);
      forall i | 0 <= i < |updates| ensures updates[i].entity in r.ids.ids {
        if i > 0 {
          assert updates[i] == updates[1..][i - 1];
        }
      }
    }
  }

  /** The cached own position changes only through an accepted update of
      the connection's own entity. */
  lemma {:induction false} SelfPositionOnlyFromSelf(t: Tables, self: Option<int>, time: int, zone: ZoneKey,
                                                   zoneId: int, updates: seq<StateEntry>)
    requires self.None? || forall i :: 0 <= i < |updates| ==> updates[i].entity != self.value
    ensures ApplyUpdates(t, self, time, zone, zoneId, updates).selfPosition == t.selfPosition
    decreases |updates|
  {
    if updates != [] {
      var t1 := ApplyUpdate(t, self, time, zone, zoneId, updates[0]);
      assert self.Some? ==> forall i :: 0 <= i < |updates[1..]| ==> updates[1..][i].entity != self.value by {
        if self.Some? {
          forall i | 0 <= i < |updates[1..]| ensures updates[1..][i].entity != self.value {
            assert updates[1..][i] == updates[i + 1];
          }
        }
      }
      SelfPositionOnlyFromSelf(t1, self, time, zone, zoneId, updates[1..]);
    }
  }

  /** An update of the connection's own entity caches its position exactly
      when its object takes the state: an existing object whose version is
      no later than the block's time, or a new object, whose version is
      `Long.MIN_VALUE`. Otherwise the cache is left alone. */
  lemma SelfUpdateCachesPosition(t: Tables, self: Option<int>, time: int, zone: ZoneKey, zoneId: int,
                                 e: StateEntry)
    requires Consistent(t.ids, t.space) && self == Some(e.entity)
    ensures var r := ApplyUpdate(t, self, time, zone, zoneId, e);
      e.entity in r.ids.ids &&
      (var k := FindIndex(r.space, r.ids.ids[e.entity]);
       0 <= k &&
       (k < |t.space| ==> r.selfPosition == (if t.space[k].version <= time then e.position else t.selfPosition)) &&
       (k >= |t.space| ==> r.selfPosition == (if LongMin <= time then e.position else t.selfPosition)))
  {
    UpdateTakesState(t, self, time, zone, zoneId, e);
    var nid := IdIndexes.GetId(t.ids, e.entity, true).1;
    var k0 := FindIndex(t.space, nid);
    var r := ApplyUpdate(t, self, time, zone, zoneId, e);
    if k0 >= 0 {
      assert r.space[k0].networkId == nid;
    } else {
      assert r.space[|t.space|].networkId == nid;
    }
  }

  /** A removal of an entity that has no id, or whose id names no object,
      changes nothing; in particular it allocates no id. */
  lemma UntrackedRemovalIsNoop(t: Tables, time: int, entity: int)
    requires entity !in t.ids.ids || GetObject(t.space, t.ids.ids[entity]).None?
    ensures ApplyRemoval(t, time, entity) == t
  {
  }

  /** A removal of a tracked entity marks its object removed at the block's
      time and changes nothing else. */
  lemma TrackedRemovalMarks(t: Tables, time: int, k: int)
    requires Consistent(t.ids, t.space) && 0 <= k < |t.space|
    ensures ApplyRemoval(t, time, t.space[k].entityId) ==
      t.(space := t.space[k := MarkRemoved(t.space[k], time)])
  {
    var nid := t.ids.ids[t.space[k].entityId];
    assert nid == t.space[k].networkId;
    assert FindIndex(t.space, nid) == k;
  }

  /** Removals never allocate an id nor move the own position; they keep
      the table consistent, and each object is either left as it was or
      marked removed at the block's time. */
  lemma {:induction false} RemovalsOnlyMark(t: Tables, time: int, removals: seq<int>)
    requires Consistent(t.ids, t.space)
    ensures var r := ApplyRemovals(t, time, removals);
      r.ids == t.ids && r.selfPosition == t.selfPosition &&
      |r.space| == |t.space| && Grows(t.space, r.space) && Consistent(r.ids, r.space) &&
      forall k :: 0 <= k < |t.space| ==> r.space[k] == t.space[k] || r.space[k] == MarkRemoved(t.space[k], time)
    decreases |removals|
  {
    if removals != [] {
      var t1 := ApplyRemoval(t, time, removals[0]);
      assert t1.ids == t.ids && Grows(t.space, t1.space) && |t1.space| == |t.space|;
      assert Consistent(t1.ids, t1.space);
      assert forall k :: 0 <= k < |t.space| ==> t1.space[k] == t.space[k] || t1.space[k] == MarkRemoved(t.space[k], time);
      RemovalsOnlyMark(t1, time, removals[1..]);
      var r := ApplyRemovals(t, time, removals);
      GrowsTransitive(t.space, t1.space, r.space);
      forall k | 0 <= k < |t.space|
        ensures r.space[k] == t.space[k] || r.space[k] == MarkRemoved(t.space[k], time)
      {
        MarkRemovedTwice(t.space[k], time);
      }
    }
  }

  /** Marking an object removed twice at the same time is marking it once. */
  lemma MarkRemovedTwice(o: SharedObject, time: int)
    ensures MarkRemoved(MarkRemoved(o, time), time) == MarkRemoved(o, time)
  {
  }

  /** A whole block keeps the table consistent and tracks every updated
      entity; removals have not allocated anything. */
  lemma BlockKeepsConsistent(t: Tables, self: Option<int>, b: StateBlock, zoneId: int)
    requires Consistent(t.ids, t.space)
    ensures var r := ApplyBlock(t, self, b, zoneId);
      Consistent(r.ids, r.space) && Grows(t.space, r.space) &&
      r.ids == ApplyUpdates(t, self, b.time, b.zone, zoneId, b.updates).ids &&
      (forall i :: 0 <= i < |b.updates| ==> b.updates[i].entity in r.ids.ids)
  {
    var t1 := ApplyUpdates(t, self, b.time, b.zone, zoneId, b.updates);
    UpdatesKeepConsistent(t, self, b.time, b.zone, zoneId, b.updates);
    RemovalsOnlyMark(t1, b.time, b.removals);
    GrowsTransitive(t.space, t1.space, ApplyBlock(t, self, b, zoneId).space);
  }
}
