/** An abstract model of one replicated object (the `SharedObject` the
    listener walks each frame). Its encoding is not modelled: an object is
    its identity, its version, its removal flag, the last state it was given,
    and the baseline the client has confirmed. */
module SharedObjects {
  import opened Wrappers

  /** Java's `Long.MIN_VALUE`: the version of an object that was never given
      a state, older than every point in simulation time. */
  const LongMin: int := -0x8000_0000_0000_0000
  const LongMax: int := 0x7FFF_FFFF_FFFF_FFFF

  predicate IsLong(x: int) { LongMin <= x <= LongMax }

  /** Positions and rotations are doubles in the system; the model only
      stores and compares them. */
  datatype Vec3d = Vec3d(x: real, y: real, z: real)
  datatype Quatd = Quatd(x: real, y: real, z: real, w: real)

  /** A cell of the zone grid. */
  datatype ZoneKey = ZoneKey(x: int, y: int, z: int)

  /** What the client has confirmed for an object: the version it saw, and
      whether that version already announced the removal. */
  datatype Baseline = Baseline(version: int, removed: bool)

  datatype SharedObject = SharedObject(
    networkId: int,
    entityId: int,
    version: int,
    markedRemoved: bool,
    zone: ZoneKey,
    zoneId: int,
    position: Vec3d,
    rotation: Quatd,
    baseline: Option<Baseline>)

  /** The delta emitted for an object in one frame: its current state, to be
      encoded against the confirmed baseline. */
  datatype Delta = Delta(
    networkId: int,
    entityId: int,
    version: int,
    removed: bool,
    position: Vec3d,
    rotation: Quatd,
    against: Option<Baseline>)

  /** One (networkId, version) pair carried by a transmitted frame. */
  datatype SentEntry = SentEntry(networkId: int, version: int, removed: bool)

  /** What the writer remembers of one transmitted frame. */
  datatype SentState = SentState(entries: seq<SentEntry>)

  /** Two objects that differ at most in their baseline. */
  predicate SameButBaseline(a: SharedObject, b: SharedObject)
  {
    a == b.(baseline := a.baseline)
  }

  /** The object the space creates for a network id it does not hold yet. */
  function NewObject(networkId: int, entityId: int): (o: SharedObject)
    ensures o.networkId == networkId && o.entityId == entityId
    ensures !o.markedRemoved && o.baseline == None
    ensures forall time :: IsLong(time) ==> o.version <= time
  {
    SharedObject(networkId, entityId, LongMin, false, ZoneKey(0, 0, 0), 0,
                 Vec3d(0.0, 0.0, 0.0), Quatd(0.0, 0.0, 0.0, 1.0), None)
  }

  /** Records one zone's state for the object at `time`. A state older than
      the object's version is stale and refused; the boolean says whether
      the state was taken. Identity, removal flag and baseline never change,
      and the version never decreases. */
  function UpdateState(o: SharedObject, time: int, zone: ZoneKey, zoneId: int,
                       position: Vec3d, rotation: Quatd): (r: (SharedObject, bool))
    ensures r.0.networkId == o.networkId && r.0.entityId == o.entityId
    ensures r.0.markedRemoved == o.markedRemoved && r.0.baseline == o.baseline
    ensures r.0.version >= o.version
    ensures r.1 <==> o.version <= time
    ensures r.1 ==> r.0.version == time && r.0.position == position && r.0.rotation == rotation
    ensures !r.1 ==> r.0 == o
  {
    if time < o.version then (o, false)
    else (o.(version := time, zone := zone, zoneId := zoneId,
             position := position, rotation := rotation), true)
  }

  /** Marks the object removed at `time`; the version moves forward to
      `time` when `time` is later. */
  function MarkRemoved(o: SharedObject, time: int): (r: SharedObject)
    ensures r.markedRemoved
    ensures r.networkId == o.networkId && r.entityId == o.entityId && r.baseline == o.baseline
    ensures r.version >= o.version && r.version >= time
    ensures r.version == o.version || r.version == time
  {
    o.(markedRemoved := true, version := if time > o.version then time else o.version)
  }

  /** The delta the object contributes to the frame being written. */
  function GetDelta(o: SharedObject): (d: Delta)
    ensures d.networkId == o.networkId && d.entityId == o.entityId
  {
    Delta(o.networkId, o.entityId, o.version, o.markedRemoved, o.position, o.rotation, o.baseline)
  }

  /** An object is fully removed once it is marked removed and the client has
      confirmed a version that already carried the removal. */
  predicate IsFullyMarkedRemoved(o: SharedObject)
  {
    o.markedRemoved && o.baseline.Some? && o.baseline.value.removed
  }

  /** A confirmed baseline is newer than a confirmed pair: a later version,
      or the removal of the same version. */
  predicate Supersedes(b: Baseline, e: SentEntry)
  {
    b.version > e.version || (b.version == e.version && b.removed && !e.removed)
  }

  /** Commits a confirmed (networkId, version) pair: the baseline becomes
      the most recent state the client has confirmed, so a pair older than
      the current baseline changes nothing. */
  function CommitBaseline(o: SharedObject, e: SentEntry): (r: SharedObject)
    ensures SameButBaseline(o, r) && r.baseline.Some?
    ensures r.baseline == o.baseline || r.baseline == Some(Baseline(e.version, e.removed))
    ensures r.baseline.value.version >= e.version
    ensures o.baseline.Some? ==> r.baseline.value.version >= o.baseline.value.version
  {
    if o.baseline.Some? && Supersedes(o.baseline.value, e) then o
    else o.(baseline := Some(Baseline(e.version, e.removed)))
  }

  /** Committing a pair at least as new as the baseline makes the object's
      next delta be expressed against exactly that pair; an older pair is
      a no-op. */
  lemma DeltaAgainstCommittedBaseline(o: SharedObject, e: SentEntry)
    ensures o.baseline.None? || !Supersedes(o.baseline.value, e) ==>
      GetDelta(CommitBaseline(o, e)).against == Some(Baseline(e.version, e.removed))
    ensures o.baseline.Some? && Supersedes(o.baseline.value, e) ==> CommitBaseline(o, e) == o
    ensures GetDelta(CommitBaseline(o, e)).version == o.version
  {
  }

  /** Acknowledgments need not arrive in order: committing two pairs gives
      the same object in either order, and committing a pair twice is
      committing it once. */
  lemma {:induction false} CommitOrderIrrelevant(o: SharedObject, e1: SentEntry, e2: SentEntry)
    ensures CommitBaseline(CommitBaseline(o, e1), e2) == CommitBaseline(CommitBaseline(o, e2), e1)
    ensures CommitBaseline(CommitBaseline(o, e1), e1) == CommitBaseline(o, e1)
  {
  }

  /** A fresh object accepts the first state it is given at any point of
      simulation time. */
  lemma FreshObjectAcceptsFirstState(networkId: int, entityId: int, time: int,
                                     zone: ZoneKey, zoneId: int, position: Vec3d, rotation: Quatd)
    requires IsLong(time)
    ensures UpdateState(NewObject(networkId, entityId), time, zone, zoneId, position, rotation).1
  {
  }
}
