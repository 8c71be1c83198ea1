/** The acknowledgment drain at the start of `endFrame`: every queued client
    acknowledgment is looked up in the writer's table of transmitted frames;
    an unknown one is skipped, a known one has its frame committed as the
    new baseline of the objects it carried. */
module AckDrain {
  import opened Wrappers
  import opened SharedObjects
  import opened ObjectSpace
  import opened StateWriters

  /** A client acknowledgment: the acknowledged frame, the time the frame was
      sent, and the time the acknowledgment arrived. */
  datatype ClientStateMessage = ClientStateMessage(id: int, time: int, receivedTime: int)

  /** The table, the writer, and the ids of the frames committed, in the
      order they were committed. */
  datatype DrainResult = DrainResult(space: seq<SharedObject>, writer: StateWriter, committed: seq<int>)

  /** Processes the queue front to back. Only baselines change, and the
      writer's log is untouched. */
  function Drain(space: seq<SharedObject>, writer: StateWriter, acks: seq<ClientStateMessage>): (r: DrainResult)
    ensures |r.space| == |space|
    ensures forall k :: 0 <= k < |space| ==> SameButBaseline(space[k], r.space[k])
    ensures r.writer.log == writer.log
    decreases |acks|
  {
    if acks == [] then DrainResult(space, writer, [])
    else
      var (w1, sent) := AckSentState(writer, acks[0].id);
      if sent.None? then Drain(space, w1, acks[1..])
      else
        var rest := Drain(UpdateBaseline(space, sent.value.entries), w1, acks[1..]);
        rest.(committed := [acks[0].id] + rest.committed)
  }

  /** The frame ids of the queue, in queue order. */
  function AckIds(acks: seq<ClientStateMessage>): (r: seq<int>)
    ensures |r| == |acks| && forall k :: 0 <= k < |acks| ==> r[k] == acks[k].id
  {
    seq(|acks|, k requires 0 <= k < |acks| => acks[k].id)
  }

  predicate NoDuplicates(s: seq<int>)
  {
    forall i, j :: 0 <= i < j < |s| ==> s[i] != s[j]
  }

  /** The position of the first occurrence of x in s. */
  function FirstIndex(s: seq<int>, x: int): (r: nat)
    requires x in s
    ensures r < |s| && s[r] == x
    ensures forall k :: 0 <= k < r ==> s[k] != x
  {
    if s[0] == x then 0 else 1 + FirstIndex(s[1..], x)
  }

  /** `a` is `b` with some elements left out. */
  predicate IsSubsequence(a: seq<int>, b: seq<int>)
    decreases |b|
  {
    if a == [] then true
    else if b == [] then false
    else if a[0] == b[0] then IsSubsequence(a[1..], b[1..])
    else IsSubsequence(a, b[1..])
  }

  /** Commits the frames `ids` of `sent`, one after another. */
  function CommitAll(space: seq<SharedObject>, sent: map<int, SentState>, ids: seq<int>): seq<SharedObject>
    requires forall k :: 0 <= k < |ids| ==> ids[k] in sent
    decreases |ids|
  {
    if ids == [] then space
    else
      CommitAll(UpdateBaseline(space, sent[ids[0]].entries), sent, ids[1..])
  }

  /** Draining consumes the record of every acknowledged frame and of no
      other frame. */
  lemma {:induction false} DrainConsumesAcknowledged(space: seq<SharedObject>, writer: StateWriter,
                                                    acks: seq<ClientStateMessage>)
    ensures Drain(space, writer, acks).writer.sent == writer.sent - set i | i in AckIds(acks)
    decreases |acks|
  {
    if acks != [] {
      var (w1, sent) := AckSentState(writer, acks[0].id);
      var space1 := if sent.None? then space else UpdateBaseline(space, sent.value.entries);
      DrainConsumesAcknowledged(space1, w1, acks[1..]);
      assert AckIds(acks) == [acks[0].id] + AckIds(acks[1..]);
    }
  }

  /** Exactly the acknowledged frames the writer still knew are committed,
      each once, and in the order of their first acknowledgment in the
      queue. */
  lemma DrainCommitsKnownOnce(space: seq<SharedObject>, writer: StateWriter, acks: seq<ClientStateMessage>)
    ensures var c := Drain(space, writer, acks).committed;
      NoDuplicates(c) &&
      (forall i :: i in c <==> i in writer.sent && i in AckIds(acks)) &&
      IsSubsequence(c, AckIds(acks)) &&
      (forall i, j :: 0 <= i < j < |c| ==> FirstIndex(AckIds(acks), c[i]) < FirstIndex(AckIds(acks), c[j]))
  {
    DrainCommitsKnown(space, writer, acks);
    DrainCommitsInQueueOrder(space, writer, acks);
    var c := Drain(space, writer, acks).committed;
    assert InFirstOrder(c, AckIds(acks));
  }

  /** The committed frames are the known acknowledged ones, each once, as a
      subsequence of the queue. */
  lemma {:induction false} DrainCommitsKnown(space: seq<SharedObject>, writer: StateWriter,
                                            acks: seq<ClientStateMessage>)
    ensures var c := Drain(space, writer, acks).committed;
      NoDuplicates(c) &&
      (forall i :: i in c <==> i in writer.sent && i in AckIds(acks)) &&
      IsSubsequence(c, AckIds(acks))
    decreases |acks|
  {
    if acks != [] {
      var (w1, sent) := AckSentState(writer, acks[0].id);
      var space1 := if sent.None? then space else UpdateBaseline(space, sent.value.entries);
      DrainCommitsKnown(space1, w1, acks[1..]);
      var ids := AckIds(acks);
      assert ids == [acks[0].id] + AckIds(acks[1..]);
      assert ids[1..] == AckIds(acks[1..]);
      var c := Drain(space, writer, acks).committed;
      var rest := Drain(space1, w1, acks[1..]).committed;
      if sent.None? {
        assert c == rest;
        SubsequenceOfTail(rest, ids);
      } else {
        assert c == [acks[0].id] + rest;
        assert acks[0].id !in rest;
        assert c[1..] == rest;
      }
    }
  }

  /** Every element of c occurs in ids, and c lists them in the order of
      their first occurrence in ids. */
  predicate InFirstOrder(c: seq<int>, ids: seq<int>)
  {
    (forall x :: x in c ==> x in ids) &&
    forall i, j :: 0 <= i < j < |c| ==> FirstIndex(ids, c[i]) < FirstIndex(ids, c[j])
  }

  /** Frames are committed in the order of their first acknowledgment. */
  lemma {:induction false} DrainCommitsInQueueOrder(space: seq<SharedObject>, writer: StateWriter,
                                                   acks: seq<ClientStateMessage>)
    ensures InFirstOrder(Drain(space, writer, acks).committed, AckIds(acks))
    decreases |acks|
  {
    if acks != [] {
      var (w1, sent) := AckSentState(writer, acks[0].id);
      var space1 := if sent.None? then space else UpdateBaseline(space, sent.value.entries);
      DrainCommitsInQueueOrder(space1, w1, acks[1..]);
      DrainCommitsKnown(space1, w1, acks[1..]);
      var ids := AckIds(acks);
      assert ids == [acks[0].id] + AckIds(acks[1..]);
      var rest := Drain(space1, w1, acks[1..]).committed;
      assert forall x :: x in rest ==> x != acks[0].id;
      if sent.Some? {
        InFirstOrderPrepend(acks[0].id, rest, AckIds(acks[1..]));
      } else {
        InFirstOrderSkipHead(acks[0].id, rest, AckIds(acks[1..]));
      }
    }
  }

  /** Putting a new head in front of both sequences keeps the order. */
  lemma InFirstOrderPrepend(h: int, rest: seq<int>, tail: seq<int>)
    requires InFirstOrder(rest, tail) && forall x :: x in rest ==> x != h
    ensures InFirstOrder([h] + rest, [h] + tail)
  {
    var c := [h] + rest;
    forall i, j | 0 <= i < j < |c| ensures FirstIndex([h] + tail, c[i]) < FirstIndex([h] + tail, c[j]) {
      assert c[j] == rest[j - 1] && rest[j - 1] in rest;
      if i == 0 {
        HeadComesFirst(h, tail, rest[j - 1]);
      } else {
        assert c[i] == rest[i - 1] && rest[i - 1] in rest;
        OrderAfterHead(h, tail, rest[i - 1], rest[j - 1]);
      }
    }
  }

  /** Putting a new head in front of the sequence searched keeps the order
      of elements that differ from it. */
  lemma InFirstOrderSkipHead(h: int, rest: seq<int>, tail: seq<int>)
    requires InFirstOrder(rest, tail) && forall x :: x in rest ==> x != h
    ensures InFirstOrder(rest, [h] + tail)
  {
    forall i, j | 0 <= i < j < |rest| ensures FirstIndex([h] + tail, rest[i]) < FirstIndex([h] + tail, rest[j]) {
      assert rest[i] in rest && rest[j] in rest;
      OrderAfterHead(h, tail, rest[i], rest[j]);
    }
  }

  /** The head of a sequence is found before any other element. */
  lemma HeadComesFirst(h: int, tail: seq<int>, y: int)
    requires y in tail && y != h
    ensures FirstIndex([h] + tail, h) < FirstIndex([h] + tail, y)
  {
    FirstIndexAfterHead(h, tail, y);
  }

  /** A new head that differs from both keeps the order of two elements. */
  lemma OrderAfterHead(h: int, tail: seq<int>, x: int, y: int)
    requires x in tail && y in tail && x != h && y != h && FirstIndex(tail, x) < FirstIndex(tail, y)
    ensures FirstIndex([h] + tail, x) < FirstIndex([h] + tail, y)
  {
    FirstIndexAfterHead(h, tail, x);
    FirstIndexAfterHead(h, tail, y);
  }

  lemma FirstIndexAfterHead(h: int, tail: seq<int>, x: int)
    requires x in tail && x != h
    ensures FirstIndex([h] + tail, x) == 1 + FirstIndex(tail, x)
  {
    assert ([h] + tail)[1..] == tail;
  }

  /** A subsequence of the tail is a subsequence of the whole. */
  lemma {:induction false} SubsequenceOfTail(a: seq<int>, b: seq<int>)
    requires b != [] && IsSubsequence(a, b[1..])
    ensures IsSubsequence(a, b)
    decreases |b|, |a|
  {
    if a != [] && a[0] == b[0] {
      DropHeadOfSubsequence(a, b[1..]);
    }
  }

  /** Leaving out the first element keeps a subsequence. */
  lemma {:induction false} DropHeadOfSubsequence(a: seq<int>, b: seq<int>)
    requires a != [] && IsSubsequence(a, b)
    ensures IsSubsequence(a[1..], b)
    decreases |b|, |a|
  {
    if a[0] != b[0] {
      DropHeadOfSubsequence(a, b[1..]);
      SubsequenceOfTail(a[1..], b);
    } else if a[1..] != [] {
      SubsequenceOfTail(a[1..], b);
    }
  }

  /** The table after draining is the table with the committed frames'
      baselines applied one after another, in commit order: updateBaseline
      runs once per known acknowledgment and for no other. */
  lemma {:induction false} DrainAppliesCommits(space: seq<SharedObject>, writer: StateWriter,
                                              acks: seq<ClientStateMessage>)
    ensures var r := Drain(space, writer, acks);
      (forall k :: 0 <= k < |r.committed| ==> r.committed[k] in writer.sent) &&
      r.space == CommitAll(space, writer.sent, r.committed)
    decreases |acks|
  {
    if acks != [] {
      var (w1, sent) := AckSentState(writer, acks[0].id);
      var space1 := if sent.None? then space else UpdateBaseline(space, sent.value.entries);
      DrainAppliesCommits(space1, w1, acks[1..]);
      var rest := Drain(space1, w1, acks[1..]);
      CommitAllOnSubmap(space1, w1.sent, writer.sent, rest.committed);
    }
  }

  /** Committing only reads the records of the committed frames. */
  lemma {:induction false} CommitAllOnSubmap(space: seq<SharedObject>, small: map<int, SentState>,
                                            big: map<int, SentState>, ids: seq<int>)
    requires forall k :: 0 <= k < |ids| ==> ids[k] in small
    requires small.Keys <= big.Keys && forall i :: i in small ==> big[i] == small[i]
    ensures CommitAll(space, small, ids) == CommitAll(space, big, ids)
    decreases |ids|
  {
    if ids != [] {
      CommitAllOnSubmap(UpdateBaseline(space, small[ids[0]].entries), small, big, ids[1..]);
    }
  }

  /** An acknowledgment of an unknown or already consumed frame is a no-op. */
  lemma UnknownAckIsNoop(space: seq<SharedObject>, writer: StateWriter, m: ClientStateMessage,
                         acks: seq<ClientStateMessage>)
    requires m.id !in writer.sent
    ensures Drain(space, writer, [m] + acks) == Drain(space, writer, acks)
  {
    assert ([m] + acks)[1..] == acks;
  }

  /** An acknowledgment of a frame the writer no longer knows is a no-op
      wherever it stands in the queue. */
  lemma {:induction false} UnknownAckIsNoopLater(space: seq<SharedObject>, writer: StateWriter,
                                                mid: seq<ClientStateMessage>, m: ClientStateMessage,
                                                rest: seq<ClientStateMessage>)
    requires m.id !in writer.sent
    ensures Drain(space, writer, mid + [m] + rest) == Drain(space, writer, mid + rest)
    decreases |mid|
  {
    if mid == [] {
      assert mid + [m] + rest == [m] + rest && mid + rest == rest;
      UnknownAckIsNoop(space, writer, m, rest);
    } else {
      var (w1, sent) := AckSentState(writer, mid[0].id);
      var space1 := if sent.None? then space else UpdateBaseline(space, sent.value.entries);
      assert (mid + [m] + rest)[0] == mid[0] && (mid + rest)[0] == mid[0];
      assert (mid + [m] + rest)[1..] == mid[1..] + [m] + rest;
      assert (mid + rest)[1..] == mid[1..] + rest;
      UnknownAckIsNoopLater(space1, w1, mid[1..], m, rest);
    }
  }

  /** A repeated acknowledgment commits its frame once: a later copy of an
      acknowledgment, anywhere in the queue, has no effect. */
  lemma DuplicateAckCommitsOnce(space: seq<SharedObject>, writer: StateWriter, m: ClientStateMessage,
                                mid: seq<ClientStateMessage>, rest: seq<ClientStateMessage>)
    ensures Drain(space, writer, [m] + mid + [m] + rest) == Drain(space, writer, [m] + mid + rest)
  {
    var (w1, sent) := AckSentState(writer, m.id);
    var space1 := if sent.None? then space else UpdateBaseline(space, sent.value.entries);
    assert ([m] + mid + [m] + rest)[1..] == mid + [m] + rest;
    assert ([m] + mid + rest)[1..] == mid + rest;
    UnknownAckIsNoopLater(space1, w1, mid, m, rest);
  }

  /** Two drains that leave the same table and the same writer; only the
      order of their commits may differ. */
  predicate SameOutcome(r1: DrainResult, r2: DrainResult)
  {
    r1.space == r2.space && r1.writer == r2.writer
  }

  /** Two neighbouring acknowledgments at the head of the queue drain to the
      same outcome in either order. */
  lemma SwapHeadAcks(space: seq<SharedObject>, writer: StateWriter, a: ClientStateMessage,
                     b: ClientStateMessage, rest: seq<ClientStateMessage>)
    ensures SameOutcome(Drain(space, writer, [a, b] + rest), Drain(space, writer, [b, a] + rest))
  {
    assert ([a, b] + rest)[1..] == [b] + rest && ([b] + rest)[1..] == rest;
    assert ([b, a] + rest)[1..] == [a] + rest && ([a] + rest)[1..] == rest;
    if a.id != b.id && a.id in writer.sent && b.id in writer.sent {
      UpdateBaselineCommutes(space, writer.sent[a.id].entries, writer.sent[b.id].entries);
      assert writer.sent - {a.id} - {b.id} == writer.sent - {b.id} - {a.id};
    }
  }

  /** Two neighbouring acknowledgments anywhere in the queue drain to the
      same outcome in either order. */
  lemma {:induction false} SwapAdjacentAcks(space: seq<SharedObject>, writer: StateWriter,
                                           pre: seq<ClientStateMessage>, a: ClientStateMessage,
                                           b: ClientStateMessage, rest: seq<ClientStateMessage>)
    ensures SameOutcome(Drain(space, writer, pre + [a, b] + rest), Drain(space, writer, pre + [b, a] + rest))
    decreases |pre|
  {
    if pre == [] {
      assert pre + [a, b] + rest == [a, b] + rest && pre + [b, a] + rest == [b, a] + rest;
      SwapHeadAcks(space, writer, a, b, rest);
    } else {
      var (w1, sent) := AckSentState(writer, pre[0].id);
      var space1 := if sent.None? then space else UpdateBaseline(space, sent.value.entries);
      assert (pre + [a, b] + rest)[0] == pre[0] && (pre + [b, a] + rest)[0] == pre[0];
      assert (pre + [a, b] + rest)[1..] == pre[1..] + [a, b] + rest;
      assert (pre + [b, a] + rest)[1..] == pre[1..] + [b, a] + rest;
      SwapAdjacentAcks(space1, w1, pre[1..], a, b, rest);
    }
  }

  /** Moving an acknowledgment to the front of the queue keeps the outcome. */
  lemma {:induction false} MoveAckToFront(space: seq<SharedObject>, writer: StateWriter,
                                         pre: seq<ClientStateMessage>, m: ClientStateMessage,
                                         rest: seq<ClientStateMessage>)
    ensures SameOutcome(Drain(space, writer, pre + [m] + rest), Drain(space, writer, [m] + pre + rest))
    decreases |pre|
  {
    if pre != [] {
      var p := pre[|pre| - 1];
      var front := pre[..|pre| - 1];
      assert pre == front + [p];
      assert pre + [m] + rest == front + [p, m] + rest;
      SwapAdjacentAcks(space, writer, front, p, m, rest);
      assert front + [m, p] + rest == front + [m] + ([p] + rest);
      MoveAckToFront(space, writer, front, m, [p] + rest);
      assert [m] + front + ([p] + rest) == [m] + pre + rest;
    }
  }

  /** Taking the same element out of two sequences with equal multisets
      leaves equal multisets. */
  lemma RemoveMatchingElement<T>(a: seq<T>, b: seq<T>, i: int)
    requires a != [] && multiset(a) == multiset(b) && 0 <= i < |b| && b[i] == a[0]
    ensures multiset(a[1..]) == multiset(b[..i] + b[i + 1..])
  {
    assert a == [a[0]] + a[1..];
    assert b == b[..i] + [b[i]] + b[i + 1..];
    assert multiset(b) == multiset(b[..i]) + multiset([b[i]]) + multiset(b[i + 1..]);
    assert multiset(a) == multiset([a[0]]) + multiset(a[1..]);
    assert multiset(b[..i] + b[i + 1..]) == multiset(b[..i]) + multiset(b[i + 1..]);
    forall x ensures multiset(a[1..])[x] == multiset(b[..i] + b[i + 1..])[x] {
      assert multiset(a)[x] == multiset([a[0]])[x] + multiset(a[1..])[x];
      assert multiset(b)[x] == multiset(b[..i])[x] + multiset([b[i]])[x] + multiset(b[i + 1..])[x];
    }
  }

  /** The outcome of draining `[m] + q` is that of draining q after m's step. */
  lemma DrainStep(space: seq<SharedObject>, writer: StateWriter, m: ClientStateMessage,
                  q: seq<ClientStateMessage>)
    ensures var (w1, sent) := AckSentState(writer, m.id);
      var space1 := if sent.None? then space else UpdateBaseline(space, sent.value.entries);
      SameOutcome(Drain(space, writer, [m] + q), Drain(space1, w1, q))
  {
    assert ([m] + q)[1..] == q;
  }

  /** The drain does not depend on the order in which acknowledgments were
      queued: any reordering of the queue leaves the same table and the same
      writer; only the order of the commits differs. */
  lemma {:induction false} DrainOrderIrrelevant(space: seq<SharedObject>, writer: StateWriter,
                                               acks: seq<ClientStateMessage>, reordered: seq<ClientStateMessage>)
    requires multiset(acks) == multiset(reordered)
    ensures Drain(space, writer, acks).space == Drain(space, writer, reordered).space
    ensures Drain(space, writer, acks).writer == Drain(space, writer, reordered).writer
    decreases |acks|
  {
    if acks == [] {
      assert |reordered| == |multiset(reordered)| == 0;
    } else {
      var m := acks[0];
      assert m in multiset(reordered);
      var i :| 0 <= i < |reordered| && reordered[i] == m;
      var pre, rest := reordered[..i], reordered[i + 1..];
      RemoveMatchingElement(acks, reordered, i);
      assert reordered == pre + [m] + rest;
      MoveAckToFront(space, writer, pre, m, rest);
      assert [m] + pre + rest == [m] + (pre + rest);
      assert acks == [m] + acks[1..];
      DrainStep(space, writer, m, acks[1..]);
      DrainStep(space, writer, m, pre + rest);
      var (w1, sent) := AckSentState(writer, m.id);
      var space1 := if sent.None? then space else UpdateBaseline(space, sent.value.entries);
      DrainOrderIrrelevant(space1, w1, acks[1..], pre + rest);
    }
  }

  /** Every frame record's pairs for `networkId` are no later than v. */
  predicate RecordsAtMost(sent: map<int, SentState>, networkId: int, v: int)
  {
    forall id :: id in sent ==> EntriesAtMost(sent[id].entries, networkId, v)
  }

  /** One acknowledgment's step keeps the premises of `DrainConfirmsRemoval`
      and, when its frame carries the removal at v, confirms it. */
  lemma AckStepConfirmsRemoval(space: seq<SharedObject>, writer: StateWriter, m: ClientStateMessage,
                               k: int, v: int)
    requires UniqueIds(space) && 0 <= k < |space|
    requires RecordsAtMost(writer.sent, space[k].networkId, v)
    ensures var (w1, sent) := AckSentState(writer, m.id);
      var space1 := if sent.None? then space else UpdateBaseline(space, sent.value.entries);
      UniqueIds(space1) && |space1| == |space| && space1[k].networkId == space[k].networkId &&
      RecordsAtMost(w1.sent, space[k].networkId, v) &&
      (BaselineAtMost(space[k], v) ==> BaselineAtMost(space1[k], v)) &&
      (RemovalConfirmed(space[k], v) ==> RemovalConfirmed(space1[k], v)) &&
      ((BaselineAtMost(space[k], v) && m.id in writer.sent &&
        SentEntry(space[k].networkId, v, true) in writer.sent[m.id].entries) ==>
         RemovalConfirmed(space1[k], v))
  {
    var (w1, sent) := AckSentState(writer, m.id);
    if sent.Some? {
      var space1 := UpdateBaseline(space, sent.value.entries);
      UpdateBaselineConfirmsRemoval(space, sent.value.entries, k, v);
      SameButBaselineKeepsUniqueIds(space, space1);
      assert SameButBaseline(space[k], space1[k]);
    }
  }

  /** The client's confirmation of a removal survives the drain whatever the
      order of the acknowledgments: once some acknowledged frame that the
      writer still knows carries the removal at v, and no record carries a
      later version of the object, the drained object has its removal
      confirmed. An older acknowledgment drained later does not undo it. */
  lemma {:induction false} DrainConfirmsRemoval(space: seq<SharedObject>, writer: StateWriter,
                                               acks: seq<ClientStateMessage>, k: int, v: int)
    requires UniqueIds(space) && 0 <= k < |space|
    requires RecordsAtMost(writer.sent, space[k].networkId, v)
    ensures var r := Drain(space, writer, acks).space[k];
      (BaselineAtMost(space[k], v) ==> BaselineAtMost(r, v)) &&
      (RemovalConfirmed(space[k], v) ==> RemovalConfirmed(r, v)) &&
      (BaselineAtMost(space[k], v) &&
       (exists i :: 0 <= i < |acks| && acks[i].id in writer.sent &&
                    SentEntry(space[k].networkId, v, true) in writer.sent[acks[i].id].entries) ==>
         RemovalConfirmed(r, v))
    decreases |acks|
  {
    if acks != [] {
      var n := space[k].networkId;
      var (w1, sent) := AckSentState(writer, acks[0].id);
      var space1 := if sent.None? then space else UpdateBaseline(space, sent.value.entries);
      AckStepConfirmsRemoval(space, writer, acks[0], k, v);
      DrainConfirmsRemoval(space1, w1, acks[1..], k, v);
      if BaselineAtMost(space[k], v) &&
         exists i :: 0 <= i < |acks| && acks[i].id in writer.sent &&
                     SentEntry(n, v, true) in writer.sent[acks[i].id].entries
      {
        var i :| 0 <= i < |acks| && acks[i].id in writer.sent &&
                 SentEntry(n, v, true) in writer.sent[acks[i].id].entries;
        if acks[i].id != acks[0].id {
          assert acks[1..][i - 1] == acks[i];
        }
      }
    }
  }
}
