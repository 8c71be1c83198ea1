/** The server-side, per-connection `NetworkStateListener`: it receives the
    client's acknowledgments, ingests the zones' state blocks, and once per
    frame commits acknowledged baselines, writes one delta per tracked
    object, reaps fully removed objects and re-centres the connection's
    zones on its own entity. Collaborators are abstract values held in
    fields: the object table, the id index, the writer, and the zone index's
    current centre. */
module NetworkState {
  import opened Wrappers
  import opened SharedObjects
  import opened ObjectSpace
  import opened StateWriters
  import opened AckDrain
  import opened FrameWalk
  import opened Ingestion
  import opened PingEstimate
  import IdIndexes

  /** What `LocalZoneIndex.setCenter` reports for a position: either the
      centre zone is unchanged, or it moved, with the zones that came into
      and went out of range. The zone geometry itself is not modelled; the
      caller of `EndFrame` supplies it as a function. */
  datatype CenterUpdate =
    | Unchanged
    | Moved(center: ZoneKey, entered: seq<ZoneKey>, exited: seq<ZoneKey>)

  class NetworkStateListener {
    /** The connection's own entity, if known, and its last known position. */
    var self: Option<int>
    var selfPosition: Vec3d

    /** Whether the last frame moved the centre zone, and the zones it
        entered and exited. */
    var zonesChanged: bool
    var entered: seq<ZoneKey>
    var exited: seq<ZoneKey>

    /** Acknowledgments received but not yet processed, oldest first. */
    var acked: seq<ClientStateMessage>

    /** The running round-trip estimate, in nanoseconds, and its window. */
    var pingTime: int
    var windowSize: int

    /** The zone index's current centre, the id index, the object table and
        the writer. */
    var center: ZoneKey
    var ids: IdIndexes.IdIndex
    var space: seq<SharedObject>
    var writer: StateWriter

    ghost predicate Valid()
      reads this
    {
      0 <= windowSize <= WindowMax && Consistent(ids, space)
    }

    constructor (center: ZoneKey, ids: IdIndexes.IdIndex)
      requires IdIndexes.Valid(ids)
      ensures Valid()
      ensures self == None && selfPosition == Vec3d(0.0, 0.0, 0.0)
      ensures !zonesChanged && entered == [] && exited == []
      ensures acked == [] && pingTime == 0 && windowSize == 0
      ensures this.center == center && this.ids == ids && space == []
      ensures writer == StateWriter([], map[])
    {
      self := None;
      selfPosition := Vec3d(0.0, 0.0, 0.0);
      zonesChanged := false;
      entered, exited := [], [];
      acked := [];
      pingTime, windowSize := 0, 0;
      this.center := center;
      this.ids := ids;
      space := [];
      writer := StateWriter([], map[]);
    }

    /** `getSelf()`. */
    function GetSelf(): Option<int>
      reads this
    {
      self
    }

    /** `hasChangedZones()`, `getEnteredZones()`, `getExitedZones()`. */
    function HasChangedZones(): bool
      reads this
    {
      zonesChanged
    }

    function EnteredZones(): seq<ZoneKey>
      reads this
    {
      entered
    }

    function ExitedZones(): seq<ZoneKey>
      reads this
    {
      exited
    }

    /** `setSelf(self, startingPosition)`. */
    method SetSelf(self: Option<int>, startingPosition: Vec3d)
      modifies this`self, this`selfPosition
      ensures GetSelf() == self && selfPosition == startingPosition
    {
      this.self := self;
      selfPosition := startingPosition;
    }

    /** The writer's flush transmitting frame `frameId`, whose record `s`
        lists the (network id, version) pairs the frame carried. The flush
        itself is the writer's; this step only records what it leaves for
        `ackSentState`. */
    method FrameFlushed(frameId: int, s: SentState)
      modifies this`writer
      ensures writer.log == old(writer.log)
      ensures writer.sent == old(writer.sent)[frameId := s]
    {
      writer := writer.(sent := writer.sent[frameId := s]);
    }

    /** `postResponse(m)`: stamps the acknowledgment with its arrival time
        `now`, folds its round trip into the estimate, and queues it. */
    method PostResponse(m: ClientStateMessage, now: int)
      requires Valid()
      modifies this`pingTime, this`windowSize, this`acked
      ensures Valid()
      ensures pingTime == NextPing(now - m.time, old(pingTime), old(windowSize))
      ensures windowSize == NextWindow(old(windowSize))
      ensures acked == old(acked) + [m.(receivedTime := now)]
    {
      var received := m.(receivedTime := now);
      var ping := received.receivedTime - received.time;
      var newPing := JavaDiv(ping + pingTime * windowSize, windowSize + 1);
      if windowSize < WindowMax {
        windowSize := windowSize + 1;
      }
      pingTime := newPing;
      acked := acked + [received];
    }

    /** `beginFrame(time)`: if the last frame changed zones, the zone buffers
        are cleared and the flag reset; otherwise nothing changes. */
    method BeginFrame(time: int)
      modifies this`entered, this`exited, this`zonesChanged
      ensures !HasChangedZones()
      ensures old(zonesChanged) ==> EnteredZones() == [] && ExitedZones() == []
      ensures !old(zonesChanged) ==> EnteredZones() == old(entered) && ExitedZones() == old(exited)
    {
      if zonesChanged {
        entered := [];
        exited := [];
        zonesChanged := false;
      }
    }

    /** `endFrame(time)`: drains the acknowledgments, writes the frame, and
        re-centres the zones on the connection's own entity. */
    method EndFrame(time: int, setCenter: (ZoneKey, Vec3d) -> CenterUpdate)
      requires Valid()
      modifies this`acked, this`space, this`writer, this`ids
      modifies this`entered, this`exited, this`center, this`zonesChanged
      ensures Valid()
      ensures acked == []
      ensures var d := Drain(old(space), old(writer), old(acked));
        space == Kept(d.space, time) &&
        ids == IdIndexes.RetireAll(old(ids), Retired(d.space, time)) &&
        writer.sent == d.writer.sent &&
        writer.log == old(writer.log) + [StartFrame(time, old(center))] + FrameDeltas(d.space, time)
      ensures var c := setCenter(old(center), selfPosition);
        if self.Some? && c.Moved? then
          zonesChanged && center == c.center &&
          entered == old(entered) + c.entered && exited == old(exited) + c.exited
        else
          zonesChanged == old(zonesChanged) && center == old(center) &&
          entered == old(entered) && exited == old(exited)
    {
      DrainAcks();
      WriteFrame(time);
      UpdateCenter(setCenter);
    }

    /** The `while (acked.poll() != null)` loop of `endFrame`. */
    method DrainAcks()
      requires Valid()
      modifies this`acked, this`space, this`writer
      ensures Valid()
      ensures acked == []
      ensures var d := Drain(old(space), old(writer), old(acked));
        space == d.space && writer == d.writer
    {
      ghost var target := Drain(space, writer, acked);
      ghost var space0 := space;
      while acked != []
        invariant Drain(space, writer, acked).space == target.space
        invariant Drain(space, writer, acked).writer == target.writer
        decreases |acked|
      {
        var m := acked[0];
        acked := acked[1..];
        var (w1, sentState) := AckSentState(writer, m.id);
        writer := w1;
        if sentState.None? {
          continue;
        }
        space := UpdateBaseline(space, sentState.value.entries);
      }
      SameButBaselineKeepsConsistent(ids, space0, space);
    }

    /** The frame written by `endFrame`: `startFrame`, then the iterator walk
        that marks, emits and reaps each object of the table. */
    method WriteFrame(time: int)
      requires Valid()
      modifies this`space, this`writer, this`ids
      ensures Valid()
      ensures space == Kept(old(space), time)
      ensures ids == IdIndexes.RetireAll(old(ids), Retired(old(space), time))
      ensures writer.sent == old(writer.sent)
      ensures writer.log == old(writer.log) + [StartFrame(time, center)] + FrameDeltas(old(space), time)
    {
      var w := StartFrameOf(writer, time, center);
      var table, index := space, ids;
      WalkComputesFrame(space, time, ids, w.log);
      WalkKeepsConsistent(ids, space, time);
      ghost var target := WalkFrom(table, 0, time, index, w.log);
      ghost var sent0 := w.sent;
      var i := 0;
      while i < |table|
        invariant WalkFrom(table, i, time, index, w.log) == target
        invariant w.sent == sent0
        decreases |table| - i
      {
        var so := table[i];
        if !so.markedRemoved && so.version < time {
          so := MarkRemoved(so, time);
        }
        assert so == Mark(table[i], time);
        table := table[i := so];
        w := AddStateOf(w, GetDelta(so));
        if IsFullyMarkedRemoved(so) {
          table := table[..i] + table[i + 1..];
          index := IdIndexes.Retire(index, so.networkId);
        } else {
          i := i + 1;
        }
      }
      space, ids, writer := table, index, w;
    }

    /** The re-centring at the end of `endFrame`: only when the connection's
        own entity is known, and only a moved centre sets the flag. */
    method UpdateCenter(setCenter: (ZoneKey, Vec3d) -> CenterUpdate)
      modifies this`entered, this`exited, this`center, this`zonesChanged
      ensures var c := setCenter(old(center), selfPosition);
        if self.Some? && c.Moved? then
          zonesChanged && center == c.center &&
          entered == old(entered) + c.entered && exited == old(exited) + c.exited
        else
          zonesChanged == old(zonesChanged) && center == old(center) &&
          entered == old(entered) && exited == old(exited)
    {
      if self.Some? {
        var c := setCenter(center, selfPosition);
        if c.Moved? {
          entered := entered + c.entered;
          exited := exited + c.exited;
          center := c.center;
          zonesChanged := true;
        }
      }
    }

    /** `stateChanged(block)`, with `zoneId` the zone index's id for the
        block's zone. A zone without an id (`zoneId <= 0`) is only reported,
        through `noZoneId`; the block is processed all the same. */
    method StateChanged(b: StateBlock, zoneId: int) returns (noZoneId: bool)
      requires Valid()
      modifies this`ids, this`space, this`selfPosition
      ensures Valid()
      ensures noZoneId <==> zoneId <= 0
      ensures var r := ApplyBlock(Tables(old(ids), old(space), old(selfPosition)), self, b, zoneId);
        ids == r.ids && space == r.space && selfPosition == r.selfPosition
    {
      noZoneId := zoneId <= 0;
      IngestUpdates(b, zoneId);
      IngestRemovals(b);
    }

    /** The update loop of `stateChanged`. */
    method IngestUpdates(b: StateBlock, zoneId: int)
      requires Valid()
      modifies this`ids, this`space, this`selfPosition
      ensures Valid()
      ensures var r := ApplyUpdates(Tables(old(ids), old(space), old(selfPosition)), self, b.time, b.zone, zoneId, b.updates);
        ids == r.ids && space == r.space && selfPosition == r.selfPosition
    {
      ghost var afterUpdates := ApplyUpdates(Tables(ids, space, selfPosition), self, b.time, b.zone, zoneId, b.updates);
      UpdatesKeepConsistent(Tables(ids, space, selfPosition), self, b.time, b.zone, zoneId, b.updates);
      for i := 0 to |b.updates|
        invariant ApplyUpdates(Tables(ids, space, selfPosition), self, b.time, b.zone, zoneId, b.updates[i..]) == afterUpdates
      {
        var e := b.updates[i];
        ghost var before := Tables(ids, space, selfPosition);
        assert b.updates[i..][1..] == b.updates[i + 1..];
        var (ids1, networkId) := IdIndexes.GetId(ids, e.entity, true);
        ids := ids1;
        var k := FindIndex(space, networkId);
        var so := if k >= 0 then space[k] else NewObject(networkId, e.entity);
        var (so1, changed) := UpdateState(so, b.time, b.zone, zoneId, e.position, e.rotation);
        space := if k >= 0 then space[k := so1] else space + [so1];
        if changed && self == Some(e.entity) {
          selfPosition := e.position;
        }
        assert Tables(ids, space, selfPosition) == ApplyUpdate(before, self, b.time, b.zone, zoneId, e);
      }
      assert b.updates[|b.updates|..] == [];
    }

    /** The removal loop of `stateChanged`. */
    method IngestRemovals(b: StateBlock)
      requires Valid()
      modifies this`space
      ensures Valid()
      ensures Tables(ids, space, selfPosition) == ApplyRemovals(Tables(ids, old(space), selfPosition), b.time, b.removals)
    {
      ghost var afterBlock := ApplyRemovals(Tables(ids, space, selfPosition), b.time, b.removals);
      RemovalsOnlyMark(Tables(ids, space, selfPosition), b.time, b.removals);
      for i := 0 to |b.removals|
        invariant ApplyRemovals(Tables(ids, space, selfPosition), b.time, b.removals[i..]) == afterBlock
      {
        var e := b.removals[i];
        ghost var before := Tables(ids, space, selfPosition);
        assert b.removals[i..][1..] == b.removals[i + 1..];
        var networkId := IdIndexes.GetId(ids, e, false).1;
        if networkId == IdIndexes.NotFound {
          continue;
        }
        var k := FindIndex(space, networkId);
        if k < 0 {
          continue;
        }
        space := space[k := MarkRemoved(space[k], b.time)];
        assert Tables(ids, space, selfPosition) == ApplyRemoval(before, b.time, e);
      }
      assert b.removals[|b.removals|..] == [];
    }
  }
}
