/** An abstract model of the connection's `StateWriter`: the log of what the
    listener asked it to write, and the table of transmitted frames that an
    acknowledgment can still consume. Message splitting and flushing are not
    modelled. */
module StateWriters {
  import opened Wrappers
  import opened SharedObjects

  /** One request the listener makes of the writer. */
  datatype WriterEvent =
    | StartFrame(time: int, center: ZoneKey)
    | AddState(delta: Delta)

  datatype StateWriter = StateWriter(log: seq<WriterEvent>, sent: map<int, SentState>)

  /** `startFrame(time, center)`. */
  function StartFrameOf(w: StateWriter, time: int, center: ZoneKey): StateWriter
  {
    w.(log := w.log + [StartFrame(time, center)])
  }

  /** `addState(delta)`. */
  function AddStateOf(w: StateWriter, d: Delta): StateWriter
  {
    w.(log := w.log + [AddState(d)])
  }

  /** `ackSentState(frameId)`: hands back the record of the acknowledged
      frame, at most once; an unknown or already consumed id yields none and
      changes nothing. */
  function AckSentState(w: StateWriter, frameId: int): (StateWriter, Option<SentState>)
  {
    if frameId in w.sent then (w.(sent := w.sent - {frameId}), Some(w.sent[frameId]))
    else (w, None)
  }

  /** A frame record is consumed by its first acknowledgment: acknowledging
      the same frame again yields nothing and changes nothing. */
  lemma SecondAckFindsNothing(w: StateWriter, frameId: int)
    ensures var w1 := AckSentState(w, frameId).0;
      AckSentState(w1, frameId) == (w1, None)
  {
  }
}
