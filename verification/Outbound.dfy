/** The sending half of a server connection: a queue shared between the threads that send and the service
    thread that writes. `Enqueue`, `OnReceive`, `PopFront`, `Settle` and `Finish` are one lock region each, `Write`
    runs outside the lock; any interleaving is a sequence of their calls. */
module Outbound {
  import opened Bytes
  import opened Sequences
  import opened Wrappers
  import opened Framing
  import opened SendQueue

  /** A change of the `backpressured` flag, with the queue at that moment. */
  datatype Transition = Set(queuedBytes: nat, queueLength: nat) | Clear(queuedBytes: nat, queueLength: nat)

  /** Set and clear strictly alternate, beginning with a set; each set is at or above the threshold and with
      something queued, each clear with nothing queued. */
  predicate Alternates(history: seq<Transition>, threshold: nat) {
    forall i :: 0 <= i < |history| ==>
      if i % 2 == 0 then history[i].Set? && history[i].queuedBytes >= threshold && history[i].queueLength > 0
      else history[i].Clear? && history[i].queuedBytes == 0 && history[i].queueLength == 0
  }

  lemma AlternatesSnoc(history: seq<Transition>, threshold: nat, t: Transition)
    requires Alternates(history, threshold)
    requires if |history| % 2 == 0 then t.Set? && t.queuedBytes >= threshold && t.queueLength > 0
             else t.Clear? && t.queuedBytes == 0 && t.queueLength == 0
    ensures Alternates(history + [t], threshold) && |history + [t]| % 2 != |history| % 2
  {
  }

  class ServerConnection {
    const maxBackpressureBytes: nat
    var sendQueue: seq<QueuedWrite>
    var queuedBytes: nat
    var backpressured: bool
    var writableScheduled: bool

    // The service thread's own variable `next`, while it holds an item.
    var next: Option<QueuedWrite>

    // The environment's side.
    ghost var callbackPending: bool         // a writeable callback has been asked for and not begun
    ghost var wire: Data                    // bytes handed to the socket
    ghost var writtenOfNext: nat            // how many bytes of `next` are on the wire already
    ghost var accepted: Data                // payloads accepted for this connection
    ghost var history: seq<Transition>
    var failed: bool                        // a write has failed; the connection is being closed

    constructor (maxBackpressureBytes: nat)
      ensures this.maxBackpressureBytes == maxBackpressureBytes
      ensures Idle() && accepted == [] && wire == [] && sendQueue == [] && history == []
      ensures !failed && !callbackPending && !writableScheduled
    {
      this.maxBackpressureBytes := maxBackpressureBytes;
      sendQueue, queuedBytes, backpressured, writableScheduled, next := [], 0, false, false, None;
      callbackPending, wire, writtenOfNext, accepted, history, failed := false, [], 0, [], [], false;
    }

    ghost function Held(): Data
      reads this
    {
      if next.None? then [] else next.value.Unwritten()
    }

    /** Holds at every point where another thread can run. */
    ghost predicate Valid()
      reads this
    {
      && writtenOfNext <= |Held()|
      && Alternates(history, maxBackpressureBytes)
      && backpressured == (|history| % 2 == 1)
      && wire <= accepted
      && (!failed ==>
            && Ledger(wire, Held()[writtenOfNext..], sendQueue) == accepted
            && queuedBytes == |Held()| + |Unsent(sendQueue)|)
    }

    /** Holds outside the writeable callback. */
    ghost predicate Idle()
      reads this
    {
      && Valid() && next.None? && (backpressured && !failed ==> sendQueue != [])
    }

    /** What decides whether a callback comes. */
    ghost function WakeState(): Wake
      reads `sendQueue, `writableScheduled, `callbackPending
    {
      Wake(sendQueue != [], writableScheduled, callbackPending)
    }

    lemma AtIdle()
      requires Idle()
      ensures wire <= accepted
      ensures !failed ==> wire + Unsent(sendQueue) == accepted && queuedBytes == |Unsent(sendQueue)|
      ensures !failed && backpressured ==> sendQueue != []
      ensures Alternates(history, maxBackpressureBytes) && backpressured == (|history| % 2 == 1)
    {
      assert [] + Unsent(sendQueue) == Unsent(sendQueue);
    }

    /** The lock region of `SendTo`, and of `Broadcast` for one connection. */
    method Enqueue(payload: Data) returns (shouldWake: bool)
      requires Valid()
      modifies this
      ensures Valid() && accepted == old(accepted) + payload
      ensures sendQueue == old(sendQueue) + [BuildQueuedWrite(payload)]
      ensures queuedBytes == old(queuedBytes) + |payload|
      ensures backpressured == (old(backpressured) || queuedBytes >= maxBackpressureBytes)
      ensures history == if backpressured && !old(backpressured) then old(history) + [Set(queuedBytes, |sendQueue|)]
                         else old(history)
      ensures wire == old(wire) && next == old(next) && writtenOfNext == old(writtenOfNext) && failed == old(failed)
      ensures writableScheduled && shouldWake == !old(writableScheduled)
      ensures callbackPending == (old(callbackPending) || shouldWake)
    {
      Append(BuildQueuedWrite(payload), payload);
      if !backpressured && queuedBytes >= maxBackpressureBytes {
        backpressured := true;
        AlternatesSnoc(history, maxBackpressureBytes, Set(queuedBytes, |sendQueue|));
        history := history + [Set(queuedBytes, |sendQueue|)];
      }
      shouldWake := ScheduleWritableLocked();
    }

    method Append(item: QueuedWrite, payload: Data)
      requires Valid() && item.Unwritten() == payload
      modifies `sendQueue, `queuedBytes, `accepted
      ensures Valid() && accepted == old(accepted) + payload
      ensures sendQueue == old(sendQueue) + [item] && queuedBytes == old(queuedBytes) + |payload|
    {
      LedgerPush(wire, Held()[writtenOfNext..], sendQueue, item);
      sendQueue := sendQueue + [item];
      queuedBytes := queuedBytes + |payload|;
      accepted := accepted + payload;
    }

    method ScheduleWritableLocked() returns (shouldWake: bool)
      modifies `writableScheduled, `callbackPending
      ensures writableScheduled && shouldWake == !old(writableScheduled)
      ensures callbackPending == (old(callbackPending) || shouldWake)
    {
      if writableScheduled {
        return false;
      }
      writableScheduled := true;
      callbackPending := true;
      return true;
    }

    /** RAW_RX clears the flag; the writeable callback does not. */
    method OnReceive()
      modifies `writableScheduled
      ensures !writableScheduled
      ensures old(Valid()) ==> Valid()
      ensures old(Idle()) ==> Idle()
    {
      writableScheduled := false;
    }

    /** First lock region of the loop: takes the front item. */
    method PopFront() returns (found: bool)
      requires Valid() && next.None? && !failed
      modifies this
      ensures Valid() && found == (old(sendQueue) != [])
      ensures found ==> next == Some(old(sendQueue)[0]) && sendQueue == old(sendQueue)[1..]
      ensures !found ==> next.None? && sendQueue == []
      ensures queuedBytes == old(queuedBytes) && backpressured == old(backpressured) && history == old(history)
      ensures wire == old(wire) && accepted == old(accepted) && writtenOfNext == 0 && !failed
      ensures writableScheduled == old(writableScheduled) && callbackPending == old(callbackPending)
    {
      writtenOfNext := 0;
      found := sendQueue != [];
      if found {
        var front := sendQueue[0];
        LedgerPop(wire, sendQueue);
        assert |Unsent(sendQueue)| == front.Remaining() + |Unsent(sendQueue[1..])|;
        next := Some(front);
        sendQueue := sendQueue[1..];
        assert Held()[0..] == Held();
      }
    }

    /** An item with nothing left to write is dropped. */
    method DropNext()
      requires Valid() && !failed && next.Some? && next.value.Remaining() == 0
      modifies this
      ensures Valid() && next.None? && writtenOfNext == 0
      ensures unchanged(`sendQueue, `queuedBytes, `backpressured, `writableScheduled)
      ensures unchanged(`callbackPending, `wire, `accepted, `history, `failed)
    {
      next := None;
    }

    /** `lws_write`, outside the lock: the socket takes some bytes or fails. */
    method Write(answer: int) returns (ok: bool, sent: nat)
      requires Valid() && !failed && next.Some? && writtenOfNext == 0
      modifies this
      ensures Valid() && ok == (answer >= 0) && failed == !ok
      ensures !failed ==> sent == Taken(answer, old(next).value) && writtenOfNext == sent
      ensures !failed ==> next == old(next) && wire == old(wire) + Held()[..sent]
      ensures failed ==> wire == old(wire) && next.None?
      ensures Went(old(wire), wire, answer, old(Held()))
      ensures unchanged(`sendQueue, `queuedBytes, `backpressured, `writableScheduled)
      ensures unchanged(`callbackPending, `accepted, `history)
    {
      ok, sent := answer >= 0, 0;
      if !ok {
        failed, next := true, None;
        return;
      }
      sent := Taken(answer, next.value);
      assert Held()[0..] == Held() == Held()[..|Held()|];
      LedgerWrite(wire, Held(), sent, sendQueue);
      wire := wire + Held()[..sent];
      LedgerDone(wire, Held()[sent..], sendQueue);
      writtenOfNext := sent;
    }

    /** Second lock region: accounts for what was written and puts an unfinished item back in front. */
    method Settle(sent: nat) returns (finished: bool)
      requires Valid() && !failed && next.Some? && sent == writtenOfNext
      modifies this
      ensures Valid() && next.None? && writtenOfNext == 0 && finished == (sent == |old(Held())|)
      ensures queuedBytes == old(queuedBytes) - sent
      ensures finished ==> sendQueue == old(sendQueue) && writableScheduled == old(writableScheduled)
      ensures !finished ==> sendQueue == [old(next).value.(offset := old(next).value.offset + sent)] + old(sendQueue)
      ensures !finished ==> writableScheduled
      ensures callbackPending == (old(callbackPending) || !finished)
      ensures unchanged(`backpressured, `wire, `accepted, `history, `failed)
    {
      var item := next.value;
      finished := sent >= item.Remaining();
      queuedBytes := Subtract(queuedBytes, sent);
      AdvanceDrops(item, sent);
      if !finished {
        var rest := item.(offset := item.offset + sent);
        LedgerReturn(wire, rest, sendQueue);
        assert ([rest] + sendQueue)[1..] == sendQueue;
        sendQueue := [rest] + sendQueue;
        writableScheduled := true;
        callbackPending := true;
      }
      next, writtenOfNext := None, 0;
    }

    /** Last lock region: asks for another callback, or reports that the queue has drained. */
    method Finish() returns (shouldEmitDrain: bool)
      requires Valid() && !failed && next.None?
      modifies this
      ensures Idle()
      ensures shouldEmitDrain == (old(backpressured) && sendQueue == [])
      ensures backpressured == (old(backpressured) && !shouldEmitDrain)
      ensures history == if shouldEmitDrain then old(history) + [Clear(0, 0)] else old(history)
      ensures writableScheduled == (old(writableScheduled) || sendQueue != [])
      ensures callbackPending == (old(callbackPending) || sendQueue != [])
      ensures unchanged(`sendQueue, `queuedBytes, `wire, `accepted, `failed, `next)
    {
      shouldEmitDrain := false;
      if sendQueue != [] {
        writableScheduled := true;
        callbackPending := true;
      } else if backpressured {
        backpressured := false;
        AlternatesSnoc(history, maxBackpressureBytes, Clear(queuedBytes, |sendQueue|));
        history := history + [Clear(queuedBytes, |sendQueue|)];
        shouldEmitDrain := true;
      }
    }

    /** Other threads send while the service thread is outside the lock. */
    method Interference(payloads: seq<Data>)
      requires Valid()
      modifies this
      ensures Valid() && accepted == old(accepted) + Concat(payloads)
      ensures next == old(next) && writtenOfNext == old(writtenOfNext) && wire == old(wire) && failed == old(failed)
      ensures old(sendQueue) <= sendQueue && (old(backpressured) ==> backpressured)
      ensures payloads == [] ==> unchanged(`sendQueue, `writableScheduled, `callbackPending, `accepted)
    {
      hide ServerConnection.Valid;
      var i := 0;
      assert old(accepted) + [] == accepted;
      while i < |payloads|
        invariant i <= |payloads|
        invariant Valid() && accepted == old(accepted) + Concat(payloads[..i])
        invariant next == old(next) && writtenOfNext == old(writtenOfNext) && wire == old(wire) && failed == old(failed)
        invariant old(sendQueue) <= sendQueue && (old(backpressured) ==> backpressured)
        invariant i == 0 ==> unchanged(`sendQueue, `writableScheduled, `callbackPending, `accepted)
      {
        assert payloads[..i + 1] == payloads[..i] + [payloads[i]];
        ConcatSnoc(payloads[..i], payloads[i]);
        Regroup(old(accepted), Concat(payloads[..i]), payloads[i]);
        var _ := Enqueue(payloads[i]);
        i := i + 1;
      }
      assert payloads[..i] == payloads;
    }

    /** The event loop delivers the callback that was asked for. */
    ghost method BeginCallback()
      modifies `callbackPending
      ensures !callbackPending
      ensures old(Valid()) ==> Valid()
    {
      callbackPending := false;
    }

    /** The loop body once an item is held: write, then settle, with other threads running around the write. */
    method WriteNext(answer: int, before: seq<Data>, after: seq<Data>) returns (ok: bool, finished: bool)
      requires Valid() && !failed && next.Some? && next.value.Remaining() > 0 && writtenOfNext == 0
      modifies this
      ensures Valid() && next.None? && ok == !failed && ok == (answer >= 0)
      ensures old(wire) <= wire && old(accepted) <= accepted && Went(old(wire), wire, answer, old(Held()))
      ensures finished == (answer >= old(next).value.Remaining())
      ensures before == after == [] ==>
        RoundDone([old(next).value] + old(sendQueue), old(wire), sendQueue, wire, !ok, answer, finished)
      ensures before == after == [] && finished ==>
        unchanged(`sendQueue, `writableScheduled, `callbackPending, `accepted)
    {
      hide ServerConnection.Valid;
      Interference(before);
      var sent;
      ok, sent := Write(answer);
      finished := false;
      if ok {
        Interference(after);
        finished := Settle(sent);
      }
    }

    /** An item without remaining bytes only counts as a write; any other one is written. */
    method Dispatch(answer: int, before: seq<Data>, after: seq<Data>) returns (ok: bool, go: bool)
      requires Valid() && !failed && next.Some? && writtenOfNext == 0
      modifies this
      ensures Valid() && next.None? && ok == !failed && go == Completes(answer, old(next).value)
      ensures ok == (answer >= 0 || old(next).value.Remaining() == 0)
      ensures old(wire) <= wire && old(accepted) <= accepted
      ensures old(next).value.Remaining() > 0 ==> Went(old(wire), wire, answer, old(Held()))
      ensures before == after == [] ==>
        RoundDone([old(next).value] + old(sendQueue), old(wire), sendQueue, wire, !ok, answer, go)
      ensures before == after == [] && go ==>
        unchanged(`sendQueue, `writableScheduled, `callbackPending, `accepted)
    {
      hide ServerConnection.Valid;
      if next.value.Remaining() == 0 {
        assert wire + [] == wire;
        DropNext();
        return true, true;
      }
      ok, go := WriteNext(answer, before, after);
    }

    /** One round of the loop; `go` is false when the loop ends here. */
    method Round(answer: int, first: seq<Data>, before: seq<Data>, after: seq<Data>) returns (ok: bool, go: bool)
      requires Valid() && !failed && next.None?
      modifies this
      ensures Valid() && next.None? && ok == !failed && (go ==> ok) && (answer >= 0 ==> ok)
      ensures old(wire) <= wire && old(accepted) <= accepted
      ensures old(sendQueue) != [] ==>
        go == Completes(answer, old(sendQueue)[0]) && ok == (go || answer >= 0) &&
        (old(sendQueue)[0].Remaining() > 0 ==> Went(old(wire), wire, answer, old(sendQueue)[0].Unwritten()))
      ensures first == before == after == [] ==>
        RoundDone(old(sendQueue), old(wire), sendQueue, wire, !ok, answer, go)
      ensures first == before == after == [] && (go || old(sendQueue) == []) ==>
        unchanged(`writableScheduled, `callbackPending, `accepted)
    {
      hide ServerConnection.Valid;
      Interference(first);
      ok, go := true, false;
      var found := PopFront();
      if found {
        ok, go := Dispatch(answer, before, after);
      }
    }

    /** RAW_WRITEABLE. The socket answers the k-th write with `answers(k)`; between the lock regions of round k
        the payloads `arrivals(k, ..)` are enqueued by other threads. `done` items have been completed. */
    method OnWriteable(maxWrites: MaxWrites, answers: nat -> int, arrivals: (nat, nat) -> seq<Data>)
      returns (ok: bool, done: nat)
      requires Idle() && !failed
      modifies this
      ensures Idle() && ok == !failed && (Taking(answers) ==> ok)
      ensures old(wire) <= wire && old(accepted) <= accepted
      ensures ok ==> (sendQueue != [] ==> callbackPending && writableScheduled)
      ensures old(sendQueue) != [] && old(sendQueue)[0].Remaining() > 0 ==>
        var first := old(sendQueue)[0].Unwritten();
        if answers(0) < |first| then Went(old(wire), wire, answers(0), first) && ok == (answers(0) >= 0)
        else old(wire) + first <= wire
      ensures Still(arrivals) ==>
        Drained(old(sendQueue), old(wire), sendQueue, wire, !ok, answers, maxWrites, done)
      ensures Calm(old(sendQueue), answers, arrivals) ==>
        ok && sendQueue == old(sendQueue)[Min(maxWrites, |old(sendQueue)|)..] &&
        accepted == old(accepted) &&
        (sendQueue == [] ==> !callbackPending && writableScheduled == old(writableScheduled))
    {
      hide ServerConnection.Valid, Calm, Still, Drained, Taking;
      BeginCallback();
      ok, done := DrainQueue(maxWrites, answers, arrivals);
      if !ok {
        return;
      }
      CalmAt(old(sendQueue), answers, arrivals, done, 3);
      StillAt(arrivals, done);
      Interference(arrivals(done, 3));
      var _ := Finish();
    }

    /** The loop of RAW_WRITEABLE. */
    method DrainQueue(maxWrites: MaxWrites, answers: nat -> int, arrivals: (nat, nat) -> seq<Data>)
      returns (ok: bool, writes: nat)
      requires Valid() && next.None? && !failed
      modifies this
      ensures Valid() && next.None? && ok == !failed && (Taking(answers) ==> ok)
      ensures old(wire) <= wire && old(accepted) <= accepted
      ensures old(sendQueue) != [] && old(sendQueue)[0].Remaining() > 0 ==>
        var first := old(sendQueue)[0].Unwritten();
        if answers(0) < |first| then Went(old(wire), wire, answers(0), first) && ok == (answers(0) >= 0)
        else old(wire) + first <= wire
      ensures Still(arrivals) ==>
        Drained(old(sendQueue), old(wire), sendQueue, wire, !ok, answers, maxWrites, writes)
      ensures Calm(old(sendQueue), answers, arrivals) ==>
        ok && sendQueue == old(sendQueue)[Min(maxWrites, |old(sendQueue)|)..] &&
        unchanged(`writableScheduled, `callbackPending, `accepted)
    {
      hide ServerConnection.Valid, Calm, Still, Drained, Draining, RoundDone, Taking;
      ghost var queue := sendQueue;
      NothingDrained(queue, wire, answers);
      ok, writes := true, 0;
      while writes < maxWrites
        invariant ok && Valid() && next.None? && !failed
        invariant old(wire) <= wire && old(accepted) <= accepted
        invariant if writes == 0 then queue <= sendQueue && wire == old(wire)
                  else queue != [] && queue[0].Remaining() > 0 ==>
                    answers(0) >= queue[0].Remaining() && old(wire) + queue[0].Unwritten() <= wire
        invariant Still(arrivals) ==> Draining(queue, old(wire), sendQueue, wire, answers, writes)
        invariant writes <= maxWrites
        invariant Calm(queue, answers, arrivals) ==>
          writes <= |queue| && sendQueue == queue[writes..] &&
          unchanged(`writableScheduled, `callbackPending, `accepted)
      {
        CalmRound(queue, answers, arrivals, writes);
        StillAt(arrivals, writes);
        TakingAt(answers, writes);
        ghost var queue0, wire0 := sendQueue, wire;
        var go;
        ok, go := Round(answers(writes), arrivals(writes, 0), arrivals(writes, 1), arrivals(writes, 2));
        if Still(arrivals) {
          RoundDrains(queue, old(wire), queue0, wire0, sendQueue, wire, !ok, answers, maxWrites, writes, go);
        }
        CalmRoundDone(queue0, wire0, sendQueue, wire, !ok, answers(writes), go);
        if !go {
          return;
        }
        writes := writes + 1;
      }
      if Still(arrivals) {
        DrainedToTheEnd(queue, old(wire), sendQueue, wire, answers, writes);
      }
    }
  }

  /** The server's table of connections, as `SendTo` and `Broadcast` use it. */
  class Server {
    const lengthPrefixed: bool
    var connections: map<string, ServerConnection>

    constructor (lengthPrefixed: bool)
      ensures this.lengthPrefixed == lengthPrefixed && connections == map[] && Valid()
    {
      this.lengthPrefixed, connections := lengthPrefixed, map[];
    }

    /** Connections are distinct objects. */
    ghost predicate Valid()
      reads this, connections.Values
    {
      (forall id :: id in connections ==> connections[id].Valid()) &&
      (forall a, b :: a in connections && b in connections && a != b ==> connections[a] != connections[b])
    }

    method SendTo(id: string, data: Data)
      requires Valid()
      modifies connections.Values
      ensures Valid()
      ensures id in connections ==>
        connections[id].accepted == old(connections[id].accepted) + BuildFramedPayload(lengthPrefixed, data)
      ensures id in connections ==> Queued(connections[id], BuildFramedPayload(lengthPrefixed, data))
      ensures forall other :: other in connections && other != id ==> unchanged(connections[other])
    {
      if id in connections {
        var _ := connections[id].Enqueue(BuildFramedPayload(lengthPrefixed, data));
      }
    }

    method Broadcast(data: Data)
      requires Valid()
      modifies connections.Values
      ensures Valid()
      ensures forall id :: id in connections ==>
        connections[id].accepted == old(connections[id].accepted) + BuildFramedPayload(lengthPrefixed, data)
      ensures forall id :: id in connections ==> Queued(connections[id], BuildFramedPayload(lengthPrefixed, data))
    {
      hide ServerConnection.Valid;
      var payload := BuildFramedPayload(lengthPrefixed, data);
      var todo := connections.Keys;
      while todo != {}
        invariant todo <= connections.Keys && Valid()
        invariant forall id :: id in todo ==> unchanged(connections[id])
        invariant forall id :: id in connections.Keys - todo ==>
          connections[id].accepted == old(connections[id].accepted) + payload && Queued(connections[id], payload)
        decreases |todo|
      {
        var id :| id in todo;
        var _ := connections[id].Enqueue(payload);
        todo := todo - {id};
      }
    }
  }

  /** The payload is at the end of the queue and counted, and a callback is asked for if the flag was clear; nothing
      else about the connection has changed. */
  twostate predicate Queued(c: ServerConnection, payload: Data)
    reads c
  {
    c.sendQueue == old(c.sendQueue) + [BuildQueuedWrite(payload)] &&
    c.queuedBytes == old(c.queuedBytes) + |payload| &&
    c.backpressured == (old(c.backpressured) || c.queuedBytes >= c.maxBackpressureBytes) &&
    c.writableScheduled && c.callbackPending == (old(c.callbackPending) || !old(c.writableScheduled)) &&
    c.wire == old(c.wire) && c.next == old(c.next) && c.failed == old(c.failed)
  }

  /** What can happen to a connection between callbacks of its own. */
  datatype Step =
    | SendStep(payload: Data)
    | ReceiveStep
    | WriteableStep(maxWrites: MaxWrites, answers: nat -> int, arrivals: (nat, nat) -> seq<Data>)

  // ---------- between two callbacks ----------

  /** Whether something is queued, whether the wake-up flag is set, and whether a callback is on its way. */
  datatype Wake = Wake(queued: bool, scheduled: bool, pending: bool)

  /** Sending asks for a callback when the flag is clear, and sets it; receiving clears it and asks for nothing. */
  function After(w: Wake, step: Step): Wake {
    match step
    case SendStep(_) => Wake(true, true, w.pending || !w.scheduled)
    case ReceiveStep => w.(scheduled := false)
    case WriteableStep(_, _, _) => w
  }

  function AfterAll(w: Wake, steps: seq<Step>): Wake
    decreases |steps|
  {
    if steps == [] then w else AfterAll(After(w, steps[0]), steps[1..])
  }

  lemma {:induction false} AfterSnoc(w: Wake, steps: seq<Step>, step: Step)
    ensures AfterAll(w, []) == w && AfterAll(w, steps + [step]) == After(AfterAll(w, steps), step)
    decreases |steps|
  {
    if steps == [] {
      assert ([] + [step])[1..] == [] && (steps + [step])[0] == step;
    } else {
      assert (steps + [step])[1..] == steps[1..] + [step];
      AfterSnoc(After(w, steps[0]), steps[1..], step);
    }
  }

  predicate Quiet(steps: seq<Step>) { forall i :: 0 <= i < |steps| ==> !steps[i].WriteableStep? }

  predicate Sends(steps: seq<Step>) { exists i :: 0 <= i < |steps| && steps[i].SendStep? }

  predicate SendsAfterReceive(steps: seq<Step>) {
    exists i, j :: 0 <= i < j < |steps| && steps[i].ReceiveStep? && steps[j].SendStep?
  }

  lemma FirstStep(steps: seq<Step>)
    requires steps != []
    ensures Sends(steps) <==> steps[0].SendStep? || Sends(steps[1..])
    ensures SendsAfterReceive(steps) <==> SendsAfterReceive(steps[1..]) || (steps[0].ReceiveStep? && Sends(steps[1..]))
  {
    assert forall i :: 1 <= i < |steps| ==> steps[i] == steps[1..][i - 1];
    assert forall i :: 0 <= i < |steps[1..]| ==> steps[1..][i] == steps[i + 1];
  }

  /** Between callbacks, one is asked for exactly by a send while the flag is clear: any send if it was clear to begin
      with, otherwise a send after something was received. */
  lemma {:induction false} PendingExactly(w: Wake, steps: seq<Step>)
    requires Quiet(steps)
    ensures AfterAll(w, steps).queued <==> w.queued || Sends(steps)
    ensures AfterAll(w, steps).pending
       <==> w.pending || (if w.scheduled then SendsAfterReceive(steps) else Sends(steps))
    decreases |steps|
  {
    if steps != [] {
      FirstStep(steps);
      PendingExactly(After(w, steps[0]), steps[1..]);
      if SendsAfterReceive(steps[1..]) {
        assert Sends(steps[1..]);
      }
    }
  }

  /** Something is queued, nothing asks for a callback. */
  predicate Lost(w: Wake) { w.queued && !w.pending }

  /** A wake-up is lost exactly if the callback before had left the queue empty, the flag set and no callback asked
      for, and then something was sent, but nothing after something was received. */
  lemma LostExactly(w: Wake, steps: seq<Step>)
    requires Quiet(steps) && !Lost(w)
    ensures Lost(AfterAll(w, steps))
       <==> w == Wake(false, true, false) && Sends(steps) && !SendsAfterReceive(steps)
  {
    PendingExactly(w, steps);
    if SendsAfterReceive(steps) {
      assert Sends(steps);
    }
  }

  /** One step, and what it does to the wake-up. After a failed write there are no more callbacks. */
  method Take(c: ServerConnection, step: Step)
    requires c.Idle()
    modifies c
    ensures c.Idle() && old(c.wire) <= c.wire && (old(c.failed) ==> c.failed)
    ensures !step.WriteableStep? ==> c.failed == old(c.failed) && c.WakeState() == After(old(c.WakeState()), step)
    ensures step.WriteableStep? && !c.failed ==> !Lost(c.WakeState())
  {
    hide ServerConnection.Valid;
    match step {
      case SendStep(payload) => var _ := c.Enqueue(payload);
      case ReceiveStep => c.OnReceive();
      case WriteableStep(maxWrites, answers, arrivals) =>
        if !c.failed {
          var _, _ := c.OnWriteable(maxWrites, answers, arrivals);
        }
    }
  }

  /** Every run: whatever is sent and however the socket takes it, the wire and the queue together hold the accepted
      payloads in order, the byte count is exact, and the flag alternates. A queued payload waits without any callback
      on its way exactly if the last callback left the queue empty, the wake-up flag set and no callback asked for,
      and since then something was sent, but nothing after something was received.
      `last` is where the run stood after its last callback, `left` what that callback left behind. */
  method Run(c: ServerConnection, steps: seq<Step>) returns (ghost last: nat, ghost left: Wake)
    requires c.Idle() && !c.failed
    modifies c
    ensures old(c.wire) <= c.wire <= c.accepted
    ensures !c.failed ==> c.wire + Unsent(c.sendQueue) == c.accepted && c.queuedBytes == |Unsent(c.sendQueue)|
    ensures !c.failed && c.backpressured ==> c.sendQueue != []
    ensures Alternates(c.history, c.maxBackpressureBytes) && c.backpressured == (|c.history| % 2 == 1)
    ensures last <= |steps| && if last == 0 then left == old(c.WakeState()) else steps[last - 1].WriteableStep?
    ensures !c.failed ==> Quiet(steps[last..]) && c.WakeState() == AfterAll(left, steps[last..])
    ensures !c.failed && !old(Lost(c.WakeState())) ==>
      (Lost(c.WakeState()) <==>
       left == Wake(false, true, false) && Sends(steps[last..]) && !SendsAfterReceive(steps[last..]))
  {
    hide ServerConnection.Valid, ServerConnection.Idle, Lost, AfterAll, After;
    var i := 0;
    last, left := 0, c.WakeState();
    assert steps[0..0] == [] && AfterAll(left, []) == left by { AfterSnoc(left, [], ReceiveStep); }
    while i < |steps|
      invariant last <= i <= |steps| && c.Idle() && old(c.wire) <= c.wire
      invariant if last == 0 then left == old(c.WakeState()) else steps[last - 1].WriteableStep?
      invariant !c.failed ==> Quiet(steps[last..i]) && c.WakeState() == AfterAll(left, steps[last..i])
      invariant !c.failed && last > 0 ==> !Lost(left)
    {
      assert steps[last..i + 1] == steps[last..i] + [steps[i]];
      AfterSnoc(left, steps[last..i], steps[i]);
      Take(c, steps[i]);
      if steps[i].WriteableStep? {
        last, left := i + 1, c.WakeState();
        assert steps[last..last] == [] && AfterAll(left, []) == left by { AfterSnoc(left, [], steps[i]); }
      }
      i := i + 1;
    }
    c.AtIdle();
    if !c.failed {
      assert steps[last..i] == steps[last..];
      if !Lost(left) {
        LostExactly(left, steps[last..]);
      }
    }
  }

  /** The server's wake-up can be lost: once a callback has drained the queue the flag stays set, and the next
      payload is queued without any callback being asked for. */
  method LostWakeUp(payload: Data) returns (c: ServerConnection)
    requires payload != []
    ensures c.Idle() && !c.failed && c.sendQueue != [] && c.wire == payload && c.accepted == payload + payload
    ensures !c.callbackPending && c.writableScheduled
  {
    hide ServerConnection.Valid;
    c := new ServerConnection(|payload| + 1);
    var _ := c.Enqueue(payload);
    var answers, arrivals := (k: nat) => |payload|, (k: nat, point: nat) => [];
    assert c.sendQueue == [BuildQueuedWrite(payload)] && |payload| == c.sendQueue[0].Remaining();
    assert Calm(c.sendQueue, answers, arrivals);
    var _, _ := c.OnWriteable(1, answers, arrivals);
    c.AtIdle();
    assert c.wire + [] == c.wire;
    var _ := c.Enqueue(payload);
  }

  /** Subtraction clamped at zero; `Settle` shows that the clamp never acts. */
  function Subtract(total: nat, sent: nat): nat { if total >= sent then total - sent else 0 }
}
