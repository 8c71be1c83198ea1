/** The per-frame walk of `endFrame` over the object table: each object is
    marked removed when no zone refreshed it this frame, contributes exactly
    one delta to the frame, and is reaped, with its network id retired, when
    it is fully removed. The functions below describe the walk over a prefix
    of the table; the listener's loop is proved against them. */
module FrameWalk {
  import opened Wrappers
  import opened SharedObjects
  import opened ObjectSpace
  import opened StateWriters
  import opened AckDrain
  import IdIndexes

  /** The implicit-removal step for one object at frame `time`. */
  function Mark(o: SharedObject, time: int): SharedObject
  {
    if !o.markedRemoved && o.version < time then MarkRemoved(o, time) else o
  }

  /** The objects of `objs` still in the table after the walk, in order. */
  function Kept(objs: seq<SharedObject>, time: int): seq<SharedObject>
    decreases |objs|
  {
    if objs == [] then []
    else
      var n := |objs| - 1;
      var o := Mark(objs[n], time);
      Kept(objs[..n], time) + (if IsFullyMarkedRemoved(o) then [] else [o])
  }

  /** The `addState` requests the walk over `objs` makes, in order. */
  function FrameDeltas(objs: seq<SharedObject>, time: int): seq<WriterEvent>
    decreases |objs|
  {
    if objs == [] then []
    else
      var n := |objs| - 1;
      FrameDeltas(objs[..n], time) + [AddState(GetDelta(Mark(objs[n], time)))]
  }

  /** The network ids the walk over `objs` retires, in order. */
  function Retired(objs: seq<SharedObject>, time: int): seq<int>
    decreases |objs|
  {
    if objs == [] then []
    else
      var n := |objs| - 1;
      var o := Mark(objs[n], time);
      Retired(objs[..n], time) + (if IsFullyMarkedRemoved(o) then [objs[n].networkId] else [])
  }

  /** Implicit removal: an object not yet marked removed whose version is
      older than the frame becomes marked removed at the frame's time; an
      object already marked, or refreshed at or after the frame's time, is
      left exactly as it is. The transition happens at most once. */
  lemma ImplicitRemoval(o: SharedObject, time: int)
    ensures !o.markedRemoved && o.version < time ==>
      Mark(o, time) == o.(markedRemoved := true, version := time)
    ensures o.markedRemoved || o.version >= time ==> Mark(o, time) == o
    ensures Mark(o, time).markedRemoved <==> o.markedRemoved || o.version < time
    ensures forall later :: Mark(o, time).markedRemoved ==> Mark(Mark(o, time), later) == Mark(o, time)
  {
  }

  /** The walk keeps identity and baseline, and never moves a version back. */
  lemma MarkKeepsIdentity(o: SharedObject, time: int)
    ensures Mark(o, time).networkId == o.networkId && Mark(o, time).entityId == o.entityId
    ensures Mark(o, time).baseline == o.baseline && Mark(o, time).version >= o.version
  {
  }

  /** Every object of the table gets exactly one delta, in table order: the
      delta of the object after its implicit-removal step. */
  lemma {:induction false} OneDeltaPerObject(objs: seq<SharedObject>, time: int)
    ensures |FrameDeltas(objs, time)| == |objs|
    ensures forall k :: 0 <= k < |objs| ==>
      FrameDeltas(objs, time)[k] == AddState(GetDelta(Mark(objs[k], time)))
    decreases |objs|
  {
    if objs != [] {
      var n := |objs| - 1;
      OneDeltaPerObject(objs[..n], time);
    }
  }

  /** What stays in the table is exactly the objects that are not fully
      removed after their step. */
  lemma {:induction false} KeptAreSurvivors(objs: seq<SharedObject>, time: int)
    ensures forall x :: x in Kept(objs, time) ==>
      !IsFullyMarkedRemoved(x) && exists k :: 0 <= k < |objs| && x == Mark(objs[k], time)
    ensures forall k :: 0 <= k < |objs| && !IsFullyMarkedRemoved(Mark(objs[k], time)) ==>
      Mark(objs[k], time) in Kept(objs, time)
    decreases |objs|
  {
    if objs != [] {
      var n := |objs| - 1;
      var p := objs[..n];
      KeptAreSurvivors(p, time);
      forall x | x in Kept(objs, time)
        ensures !IsFullyMarkedRemoved(x) && exists k :: 0 <= k < |objs| && x == Mark(objs[k], time)
      {
        if x in Kept(p, time) {
          var k :| 0 <= k < |p| && x == Mark(p[k], time);
          assert objs[k] == p[k];
        } else {
          assert x == Mark(objs[n], time);
        }
      }
      forall k | 0 <= k < |objs| && !IsFullyMarkedRemoved(Mark(objs[k], time))
        ensures Mark(objs[k], time) in Kept(objs, time)
      {
        if k < n {
          assert objs[k] == p[k];
        }
      }
    }
  }

  /** The retired ids are exactly the ids of the objects that are fully
      removed after their step. */
  lemma {:induction false} RetiredAreReaped(objs: seq<SharedObject>, time: int)
    ensures forall id :: id in Retired(objs, time) <==>
      exists k :: 0 <= k < |objs| && objs[k].networkId == id && IsFullyMarkedRemoved(Mark(objs[k], time))
    decreases |objs|
  {
    if objs != [] {
      var n := |objs| - 1;
      var p := objs[..n];
      RetiredAreReaped(p, time);
      forall id | id in Retired(objs, time)
        ensures exists k :: 0 <= k < |objs| && objs[k].networkId == id && IsFullyMarkedRemoved(Mark(objs[k], time))
      {
        if id in Retired(p, time) {
          var k :| 0 <= k < |p| && p[k].networkId == id && IsFullyMarkedRemoved(Mark(p[k], time));
          assert objs[k] == p[k];
        } else {
          assert objs[n].networkId == id;
        }
      }
      forall id | exists k :: 0 <= k < |objs| && objs[k].networkId == id && IsFullyMarkedRemoved(Mark(objs[k], time))
        ensures id in Retired(objs, time)
      {
        var k :| 0 <= k < |objs| && objs[k].networkId == id && IsFullyMarkedRemoved(Mark(objs[k], time));
        if k < n {
          assert objs[k] == p[k];
        }
      }
    }
  }

  /** Reaping: an object leaves the table, and its network id is retired, if
      and only if it is fully removed after its delta; every other object
      stays. */
  lemma ReapedIffFullyRemoved(objs: seq<SharedObject>, time: int, k: int)
    requires UniqueIds(objs) && 0 <= k < |objs|
    ensures Mark(objs[k], time) in Kept(objs, time) <==> !IsFullyMarkedRemoved(Mark(objs[k], time))
    ensures objs[k].networkId in Retired(objs, time) <==> IsFullyMarkedRemoved(Mark(objs[k], time))
  {
    KeptAreSurvivors(objs, time);
    RetiredAreReaped(objs, time);
  }

  /** The surviving objects keep their table order's uniqueness of ids. */
  lemma {:induction false} KeptKeepsUniqueIds(objs: seq<SharedObject>, time: int)
    requires UniqueIds(objs)
    ensures UniqueIds(Kept(objs, time))
    decreases |objs|
  {
    if objs != [] {
      var n := |objs| - 1;
      var p := objs[..n];
      KeptKeepsUniqueIds(p, time);
      KeptAreSurvivors(p, time);
      var o := Mark(objs[n], time);
      if !IsFullyMarkedRemoved(o) {
        forall x | x in Kept(p, time) ensures x.networkId != o.networkId {
          var k :| 0 <= k < |p| && x == Mark(p[k], time);
          assert p[k] == objs[k];
        }
        var kp := Kept(p, time);
        assert Kept(objs, time) == kp + [o];
        forall i, j | 0 <= i < j < |kp| + 1
          ensures (kp + [o])[i].networkId != (kp + [o])[j].networkId
        {
          if j == |kp| {
            assert (kp + [o])[i] in kp;
          }
        }
      }
    }
  }

  /** The walk leaves the table and the id index consistent: surviving
      objects keep their ids, and only reaped ids are retired. */
  lemma WalkKeepsConsistent(ids: IdIndexes.IdIndex, objs: seq<SharedObject>, time: int)
    requires Consistent(ids, objs)
    ensures Consistent(IdIndexes.RetireAll(ids, Retired(objs, time)), Kept(objs, time))
  {
    var ids1 := IdIndexes.RetireAll(ids, Retired(objs, time));
    var kept := Kept(objs, time);
    IdIndexes.RetireAllKeepsValid(ids, Retired(objs, time));
    KeptKeepsUniqueIds(objs, time);
    KeptAreSurvivors(objs, time);
    RetiredAreReaped(objs, time);
    forall i | 0 <= i < |kept|
      ensures kept[i].entityId in ids1.ids && ids1.ids[kept[i].entityId] == kept[i].networkId
    {
      var x := kept[i];
      assert x in kept;
      var k :| 0 <= k < |objs| && x == Mark(objs[k], time);
    }
  }

  /** One step of the walk extends each prefix description by one object. */
  lemma WalkStep(objs: seq<SharedObject>, time: int, j: int)
    requires 0 <= j < |objs|
    ensures var o := Mark(objs[j], time);
      Kept(objs[..j + 1], time) == Kept(objs[..j], time) + (if IsFullyMarkedRemoved(o) then [] else [o]) &&
      FrameDeltas(objs[..j + 1], time) == FrameDeltas(objs[..j], time) + [AddState(GetDelta(o))] &&
      Retired(objs[..j + 1], time) ==
        Retired(objs[..j], time) + (if IsFullyMarkedRemoved(o) then [objs[j].networkId] else [])
  {
    assert objs[..j + 1][..j] == objs[..j];
  }

  /** One step of the walk done in place on the table: with the first j
      objects walked, the object at the walk's position is objs[j]; after
      it is marked, and removed when fully removed, the table is the walk of
      j + 1 objects followed by the rest. */
  lemma InPlaceStep(objs: seq<SharedObject>, time: int, j: int, space: seq<SharedObject>)
    requires 0 <= j < |objs|
    requires space == Kept(objs[..j], time) + objs[j..]
    ensures var i := |Kept(objs[..j], time)|;
      var o := Mark(objs[j], time);
      var marked := space[i := o];
      i < |space| && space[i] == objs[j] &&
      (IsFullyMarkedRemoved(o) ==>
        marked[..i] + marked[i + 1..] == Kept(objs[..j + 1], time) + objs[j + 1..] &&
        |Kept(objs[..j + 1], time)| == i) &&
      (!IsFullyMarkedRemoved(o) ==>
        marked == Kept(objs[..j + 1], time) + objs[j + 1..] &&
        |Kept(objs[..j + 1], time)| == i + 1)
  {
    WalkStep(objs, time, j);
    var i := |Kept(objs[..j], time)|;
    var o := Mark(objs[j], time);
    var marked := space[i := o];
    assert objs[j..] == [objs[j]] + objs[j + 1..];
    assert marked == Kept(objs[..j], time) + [o] + objs[j + 1..];
    if IsFullyMarkedRemoved(o) {
      assert marked[..i] == Kept(objs[..j], time);
      assert marked[i + 1..] == objs[j + 1..];
    }
  }

  /** The state of the in-place walk after j objects of `objs`: the table is
      the walked prefix's survivors followed by the unwalked rest, `i` is the
      position of the next object, the id index has the prefix's reaped ids
      retired, and the log has the prefix's deltas appended. */
  ghost predicate Walked(objs: seq<SharedObject>, time: int, ids0: IdIndexes.IdIndex, log0: seq<WriterEvent>,
                         j: int, table: seq<SharedObject>, i: int, index: IdIndexes.IdIndex, log: seq<WriterEvent>)
  {
    0 <= j <= |objs| && i == |Kept(objs[..j], time)| && |table| - i == |objs| - j &&
    table == Kept(objs[..j], time) + objs[j..] &&
    index == IdIndexes.RetireAll(ids0, Retired(objs[..j], time)) &&
    log == log0 + FrameDeltas(objs[..j], time)
  }

  /** One in-place step of the walk: the object at position i is marked,
      its delta logged, and it is either cut out of the table, retiring its
      id, or kept, moving the position on. */
  lemma WalkAdvance(objs: seq<SharedObject>, time: int, ids0: IdIndexes.IdIndex, log0: seq<WriterEvent>,
                    j: int, table: seq<SharedObject>, i: int, index: IdIndexes.IdIndex, log: seq<WriterEvent>)
    requires Walked(objs, time, ids0, log0, j, table, i, index, log) && j < |objs|
    ensures i < |table| && table[i] == objs[j]
    ensures var o := Mark(table[i], time);
      var marked := table[i := o];
      var log1 := log + [AddState(GetDelta(o))];
      if IsFullyMarkedRemoved(o) then
        Walked(objs, time, ids0, log0, j + 1, marked[..i] + marked[i + 1..], i,
               IdIndexes.Retire(index, o.networkId), log1)
      else
        Walked(objs, time, ids0, log0, j + 1, marked, i + 1, index, log1)
  {
    InPlaceStep(objs, time, j, table);
    WalkStep(objs, time, j);
    var o := Mark(objs[j], time);
    if IsFullyMarkedRemoved(o) {
      IdIndexes.RetireExtendsRetireAll(ids0, Retired(objs[..j], time), objs[j].networkId);
    }
  }

  /** The table, id index and log the walk ends with. */
  datatype WalkResult = WalkResult(table: seq<SharedObject>, index: IdIndexes.IdIndex, log: seq<WriterEvent>)

  /** The rest of the in-place walk from position i of `table`, step by
      step as the iterator does it: mark the object, log its delta, then cut
      it out and retire its id, or step past it. */
  function WalkFrom(table: seq<SharedObject>, i: nat, time: int, index: IdIndexes.IdIndex,
                    log: seq<WriterEvent>): WalkResult
    decreases |table| - i
  {
    if i >= |table| then WalkResult(table, index, log)
    else
      var o := Mark(table[i], time);
      var marked := table[i := o];
      var log1 := log + [AddState(GetDelta(o))];
      if IsFullyMarkedRemoved(o) then
        WalkFrom(marked[..i] + marked[i + 1..], i, time, IdIndexes.Retire(index, o.networkId), log1)
      else
        WalkFrom(marked, i + 1, time, index, log1)
  }

  /** From any intermediate state of the walk, the rest of the walk ends
      with the survivors, the reaped ids retired and every delta logged. */
  lemma {:induction false} WalkFromWalked(objs: seq<SharedObject>, time: int, ids0: IdIndexes.IdIndex,
                                         log0: seq<WriterEvent>, j: int, table: seq<SharedObject>, i: nat,
                                         index: IdIndexes.IdIndex, log: seq<WriterEvent>)
    requires Walked(objs, time, ids0, log0, j, table, i, index, log)
    ensures WalkFrom(table, i, time, index, log) ==
      WalkResult(Kept(objs, time), IdIndexes.RetireAll(ids0, Retired(objs, time)), log0 + FrameDeltas(objs, time))
    decreases |objs| - j
  {
    if j == |objs| {
      assert objs[..j] == objs;
    } else {
      WalkAdvance(objs, time, ids0, log0, j, table, i, index, log);
      var o := Mark(table[i], time);
      var marked := table[i := o];
      var log1 := log + [AddState(GetDelta(o))];
      if IsFullyMarkedRemoved(o) {
        WalkFromWalked(objs, time, ids0, log0, j + 1, marked[..i] + marked[i + 1..], i,
                       IdIndexes.Retire(index, o.networkId), log1);
      } else {
        WalkFromWalked(objs, time, ids0, log0, j + 1, marked, i + 1, index, log1);
      }
    }
  }

  /** The whole in-place walk of a table computes the prefix descriptions:
      the survivors, the reaped ids retired, and one delta per object. */
  lemma WalkComputesFrame(objs: seq<SharedObject>, time: int, ids0: IdIndexes.IdIndex, log0: seq<WriterEvent>)
    ensures WalkFrom(objs, 0, time, ids0, log0) ==
      WalkResult(Kept(objs, time), IdIndexes.RetireAll(ids0, Retired(objs, time)), log0 + FrameDeltas(objs, time))
  {
    assert objs[..0] == [];
    assert Walked(objs, time, ids0, log0, 0, objs, 0, ids0, log0);
    WalkFromWalked(objs, time, ids0, log0, 0, objs, 0, ids0, log0);
  }

  /** Reaping happens: a marked object whose removal at version v is
      carried by some acknowledged frame the writer still knows, where no
      record carries a later version of it, is fully removed after the
      drain; the next walk cuts it out of the table and retires its id. */
  lemma AcknowledgedRemovalIsReaped(space: seq<SharedObject>, writer: StateWriter, acks: seq<ClientStateMessage>,
                                    k: int, v: int, time: int)
    requires UniqueIds(space) && 0 <= k < |space| && space[k].markedRemoved
    requires BaselineAtMost(space[k], v) && RecordsAtMost(writer.sent, space[k].networkId, v)
    requires exists i :: 0 <= i < |acks| && acks[i].id in writer.sent &&
                         SentEntry(space[k].networkId, v, true) in writer.sent[acks[i].id].entries
    ensures var d := Drain(space, writer, acks).space;
      |d| == |space| && d[k].networkId == space[k].networkId &&
      IsFullyMarkedRemoved(Mark(d[k], time)) &&
      Mark(d[k], time) !in Kept(d, time) && space[k].networkId in Retired(d, time)
  {
    var d := Drain(space, writer, acks).space;
    DrainConfirmsRemoval(space, writer, acks, k, v);
    SameButBaselineKeepsUniqueIds(space, d);
    assert SameButBaseline(space[k], d[k]);
    ReapedIffFullyRemoved(d, time, k);
  }

  /** A commit matches a pair to an object by network id alone, and a reaped
      id is handed out again while frame records naming it may still await
      acknowledgment. Here entity 8 holds id 0, up to date at time 20, and a
      late acknowledgment of a frame that carried the previous holder's
      removal of id 0 arrives: the drain confirms a removal the client never
      saw for entity 8, and the walk at time 21 reaps entity 8 in the very
      frame that first marks it removed. */
  lemma ReusedIdTakesStaleRemoval()
    ensures var o := NewObject(0, 8).(version := 20);
      var w := StateWriter([], map[1 := SentState([SentEntry(0, 5, true)])]);
      var d := Drain([o], w, [ClientStateMessage(1, 0, 0)]).space;
      !o.markedRemoved && |d| == 1 && d[0].entityId == 8 && d[0].baseline == Some(Baseline(5, true)) &&
      IsFullyMarkedRemoved(Mark(d[0], 21)) && Kept(d, 21) == [] && Retired(d, 21) == [0]
  {
    var o := NewObject(0, 8).(version := 20);
    var w := StateWriter([], map[1 := SentState([SentEntry(0, 5, true)])]);
    var acks := [ClientStateMessage(1, 0, 0)];
    assert acks[1..] == [];
    var d := Drain([o], w, acks).space;
    assert d == UpdateBaseline([o], [SentEntry(0, 5, true)]);
    assert d == [o.(baseline := Some(Baseline(5, true)))];
  }
}
