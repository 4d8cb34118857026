/** The client: sends from the JS thread, drains from the service thread, and the flag that says a writeable
    callback has already been asked for. The methods under "lock regions" are one lock region, or one unlocked
    write, each. A send is two or more of them, so runs interleave `Region`s, not sends. */
module Client {
  import opened Bytes
  import opened Sequences
  import opened Wrappers
  import opened SendQueue

  /** An entry passed to `sendMany`: a buffer or string, or something else. */
  datatype Entry = Sendable(data: Data) | NotSendable

  /** A lock region of the JS thread: `EnqueueSend` or the scheduling at the end of a send. */
  datatype Region = Enqueue(data: Data) | Schedule

  /** What the lock protects, as far as the JS thread changes it, and what was accepted and asked for. */
  datatype Shared = Shared(queue: seq<QueuedWrite>, accepted: Data, scheduled: bool, pending: bool)

  function Do(r: Region, live: bool, s: Shared): Shared {
    match r
    case Enqueue(data) =>
      if data == [] then s else s.(queue := s.queue + [BuildQueuedWrite(data)], accepted := s.accepted + data)
    case Schedule =>
      if live && !s.scheduled then s.(scheduled := true, pending := true) else s
  }

  function DoAll(rs: seq<Region>, live: bool, s: Shared): Shared {
    if rs == [] then s else DoAll(rs[1..], live, Do(rs[0], live, s))
  }

  lemma TwoRegions(r: Region, q: Region, live: bool, s: Shared)
    ensures DoAll([r, q], live, s) == Do(q, live, Do(r, live, s))
  {
    assert [r, q][1..] == [q] && [q][1..] == [];
    assert DoAll([q], live, Do(r, live, s)) == DoAll([], live, Do(q, live, Do(r, live, s)));
  }

  /** The bytes a sequence of regions enqueues. */
  function DataOf(rs: seq<Region>): Data {
    if rs == [] then [] else (if rs[0].Enqueue? then rs[0].data else []) + DataOf(rs[1..])
  }

  /** Threads may schedule, but nothing is enqueued any more. */
  ghost predicate NothingMore(arrivals: (nat, nat) -> seq<Region>) { forall k, at :: DataOf(arrivals(k, at)) == [] }

  lemma NothingMoreAt(arrivals: (nat, nat) -> seq<Region>, k: nat)
    ensures NothingMore(arrivals) ==>
      DataOf(arrivals(k, 0)) == DataOf(arrivals(k, 1)) == DataOf(arrivals(k, 2)) == DataOf(arrivals(k, 3)) == [] &&
      DataOf(arrivals(k, 4)) == []
  {
  }

  /** The regions of a `send`. */
  function RegionsOfSend(data: Data): seq<Region> { [Enqueue(data), Schedule] }

  /** The regions of a `sendMany`: it stops at the first entry that is not sendable, and then does not schedule. */
  function RegionsOfSendMany(entries: seq<Entry>): seq<Region> {
    if entries == [] then [Schedule]
    else if entries[0].NotSendable? then []
    else [Enqueue(entries[0].data)] + RegionsOfSendMany(entries[1..])
  }

  /** Whatever other regions come between them: regions only append, a callback is asked for exactly if one of them
      schedules while the flag is clear, and a flag that is truthful stays so. */
  lemma {:induction false} RegionsOnlyAdd(rs: seq<Region>, live: bool, s: Shared)
    ensures var t := DoAll(rs, live, s);
      s.queue <= t.queue && t.accepted == s.accepted + DataOf(rs) &&
      t.scheduled == (s.scheduled || (live && Schedule in rs)) &&
      t.pending == (s.pending || (live && !s.scheduled && Schedule in rs))
  {
    if rs != [] {
      var u := Do(rs[0], live, s);
      RegionsOnlyAdd(rs[1..], live, u);
      var head := if rs[0].Enqueue? then rs[0].data else [];
      assert u.accepted == s.accepted + head;
      Regroup(s.accepted, head, DataOf(rs[1..]));
      assert Schedule in rs <==> rs[0] == Schedule || Schedule in rs[1..];
    } else {
      assert s.accepted + [] == s.accepted;
    }
  }

  /** What a `sendMany` does at one entry, and behind the last. */
  lemma NextEntry(entries: seq<Entry>, n: nat, live: bool, s: Shared)
    requires n < |entries|
    ensures DoAll(RegionsOfSendMany(entries[n..]), live, s) ==
      if entries[n].NotSendable? then s
      else DoAll(RegionsOfSendMany(entries[n + 1..]), live, Do(Enqueue(entries[n].data), live, s))
  {
    var later := entries[n..];
    assert later[0] == entries[n] && later[1..] == entries[n + 1..];
    if !entries[n].NotSendable? {
      assert RegionsOfSendMany(later)[1..] == RegionsOfSendMany(later[1..]);
    }
  }

  lemma LastEntry(entries: seq<Entry>, live: bool, s: Shared)
    ensures DoAll(RegionsOfSendMany(entries[|entries|..]), live, s) == Do(Schedule, live, s)
  {
    assert entries[|entries|..] == [] && [Schedule][1..] == [];
  }

  /** Exactly one enqueue for each entry in front of the first that is not sendable, in order, and a scheduling behind
      them if there is none. */
  lemma {:induction false} SendManyExactly(entries: seq<Entry>, n: nat)
    requires n <= |entries| && forall i :: 0 <= i < n ==> entries[i].Sendable?
    requires n < |entries| ==> entries[n].NotSendable?
    ensures var rs := RegionsOfSendMany(entries);
      |rs| == (if n == |entries| then n + 1 else n) &&
      (forall i :: 0 <= i < n ==> rs[i] == Enqueue(entries[i].data)) && (n == |entries| ==> rs[n] == Schedule)
  {
    if n > 0 {
      SendManyExactly(entries[1..], n - 1);
      var rs := RegionsOfSendMany(entries);
      assert rs[1..] == RegionsOfSendMany(entries[1..]);
      assert forall i :: 1 <= i < |rs| ==> rs[i] == rs[1..][i - 1];
    }
  }

  /** A `sendMany` that stops part-way enqueues but does not schedule. */
  lemma {:induction false} SendManySchedules(entries: seq<Entry>)
    ensures Schedule in RegionsOfSendMany(entries) <==> NotSendable !in entries
  {
    if entries != [] {
      SendManySchedules(entries[1..]);
      assert NotSendable in entries <==> entries[0] == NotSendable || NotSendable in entries[1..];
    }
  }

  class LwsClient {
    var contextLive: bool
    var wsiLive: bool
    var connected: bool
    var closing: bool
    var writableScheduled: bool
    var sendQueue: seq<QueuedWrite>

    // The service thread's own variable `next`, while it holds an item.
    var next: Option<QueuedWrite>

    // The environment's side.
    ghost var callbackPending: bool  // a writeable callback has been asked for and not begun
    ghost var accepted: Data         // bytes accepted for sending in this lifetime
    ghost var wire: Data             // bytes handed to the socket in this lifetime
    var failed: bool                 // a write has failed

    constructor ()
      ensures Valid() && Prompt()
      ensures !contextLive && !writableScheduled && sendQueue == [] && next.None?
    {
      contextLive, wsiLive, connected, closing, writableScheduled := false, false, false, false, false;
      sendQueue, next := [], None;
      callbackPending, accepted, wire, failed := false, [], [], false;
    }

    ghost function Held(): Data
      reads `next
    {
      if next.None? then [] else next.value.Unwritten()
    }

    /** Holds at every point where another thread can run. */
    ghost predicate Valid()
      reads `wire, `accepted, `failed, `closing, `next, `sendQueue
    {
      && wire <= accepted
      && (!failed ==> Ledger(wire, Held(), sendQueue) == accepted)
      && (failed ==> closing)
      && (next.Some? ==> next.value.Remaining() > 0)
      && (forall i :: 0 <= i < |sendQueue| ==> sendQueue[i].Remaining() > 0)
    }

    /** The flag is truthful: when it is set a callback is on its way. */
    ghost predicate Prompt()
      reads `writableScheduled, `callbackPending
    {
      writableScheduled ==> callbackPending
    }

    /** A socket that is there, outside the writeable callback. */
    ghost predicate Ready()
      reads this
    {
      Valid() && contextLive && wsiLive && next.None?
    }

    /** What an open connection keeps outside the writeable callback. */
    ghost predicate Awake()
      reads this
    {
      Ready() && writableScheduled && callbackPending
    }

    ghost predicate Live()
      reads `contextLive, `wsiLive
    {
      contextLive && wsiLive
    }

    ghost function SharedState(): Shared
      reads `sendQueue, `accepted, `writableScheduled, `callbackPending
    {
      Shared(sendQueue, accepted, writableScheduled, callbackPending)
    }

    lemma AtRest()
      requires Valid() && next.None?
      ensures wire <= accepted && (!failed ==> wire + Unsent(sendQueue) == accepted)
    {
      assert [] + Unsent(sendQueue) == Unsent(sendQueue);
    }

    // ---------- lock regions ----------

    method ScheduleWritableLocked() returns (shouldWake: bool)
      modifies `writableScheduled, `callbackPending
      ensures shouldWake == (contextLive && wsiLive && !old(writableScheduled))
      ensures writableScheduled == (old(writableScheduled) || shouldWake)
      ensures callbackPending == (old(callbackPending) || shouldWake)
      ensures SharedState() == old(Do(Schedule, Live(), SharedState()))
    {
      if !contextLive || !wsiLive || writableScheduled {
        return false;
      }
      writableScheduled := true;
      callbackPending := true;
      return true;
    }

    method EnqueueSend(data: Data)
      requires Valid()
      modifies `sendQueue, `accepted
      ensures Valid() && accepted == old(accepted) + data
      ensures sendQueue == if data == [] then old(sendQueue) else old(sendQueue) + [BuildQueuedWrite(data)]
      ensures SharedState() == old(Do(Enqueue(data), Live(), SharedState()))
    {
      if |data| == 0 {
        assert accepted + data == accepted;
        return;
      }
      var item := BuildQueuedWrite(data);
      assert item.Unwritten() == data;
      Append(item);
    }

    method Append(item: QueuedWrite)
      requires Valid() && item.Remaining() > 0
      modifies `sendQueue, `accepted
      ensures Valid() && accepted == old(accepted) + item.Unwritten() && sendQueue == old(sendQueue) + [item]
    {
      LedgerPush(wire, Held(), sendQueue, item);
      sendQueue := sendQueue + [item];
      accepted := accepted + item.Unwritten();
    }

    method PopFront() returns (found: bool)
      requires Valid() && !failed && next.None?
      modifies `sendQueue, `next
      ensures Valid() && found == (old(sendQueue) != [])
      ensures found ==>
        next == Some(old(sendQueue)[0]) && sendQueue == old(sendQueue)[1..] && next.value.Remaining() > 0
      ensures !found ==> next.None? && sendQueue == []
    {
      found := sendQueue != [];
      if found {
        LedgerPop(wire, sendQueue);
        next := Some(sendQueue[0]);
        sendQueue := sendQueue[1..];
      }
    }

    /** `lws_write` and the bookkeeping on the service thread's own item. */
    method Write(answer: int) returns (ok: bool, finished: bool)
      requires Valid() && !failed && next.Some?
      modifies `next, `wire, `failed, `closing
      ensures Valid() && ok == (answer >= 0) && failed == !ok && closing == (old(closing) || !ok)
      ensures !ok ==> wire == old(wire) && next.None? && !finished
      ensures ok ==>
        var sent := Taken(answer, old(next).value);
        wire == old(wire) + old(Held())[..sent] &&
        finished == (sent == |old(Held())|) &&
        next == if finished then None else Some(old(next).value.(offset := old(next).value.offset + sent))
      ensures Went(old(wire), wire, answer, old(Held()))
    {
      ok, finished := answer >= 0, false;
      var item := next.value;
      if !ok {
        closing, failed, next := true, true, None;
        return;
      }
      var sent := Taken(answer, item);
      assert Held()[..|Held()|] == Held();
      LedgerWrite(wire, Held(), sent, sendQueue);
      AdvanceDrops(item, sent);
      wire := wire + Held()[..sent];
      finished := sent >= item.Remaining();
      next := if finished then None else Some(item.(offset := item.offset + sent));
      assert finished ==> item.Unwritten()[sent..] == [];
      LedgerDone(wire, Held(), sendQueue);
    }

    method PushFront()
      requires Valid() && !failed && next.Some?
      modifies `sendQueue, `next
      ensures Valid() && next.None? && sendQueue == [old(next).value] + old(sendQueue)
    {
      LedgerReturn(wire, next.value, sendQueue);
      sendQueue := [next.value] + sendQueue;
      next := None;
    }

    // ---------- the JS surface ----------

    /** A new context and socket; nothing is written before RAW_CONNECTED. A connect that has to wait asks the event
        loop for the socket to become writeable, which is what a writeable callback is asked for with, too; the request
        stands until such a callback begins. */
    method Connect(hasToWait: bool) returns (ok: bool)
      requires Valid() && next.None?
      requires !contextLive ==> sendQueue == []
      modifies this
      ensures ok == !old(contextLive)
      ensures !ok ==> unchanged(this)
      ensures ok ==> Valid() && contextLive && wsiLive && !connected && !closing && next.None?
      ensures ok ==> accepted == [] && wire == [] && sendQueue == [] && !failed && callbackPending == hasToWait
      ensures writableScheduled == old(writableScheduled)
    {
      if contextLive {
        return false;
      }
      closing, connected, contextLive, wsiLive := false, false, true, true;
      accepted, wire, failed, callbackPending := [], [], false, hasToWait;
      return true;
    }

    /** `send` when nothing else runs between its regions. */
    method Send(data: Data) returns (ok: bool)
      requires Valid()
      modifies `sendQueue, `accepted, `writableScheduled, `callbackPending
      ensures Valid() && ok == (contextLive && !closing)
      ensures SharedState() == old(if ok then DoAll(RegionsOfSend(data), Live(), SharedState()) else SharedState())
      ensures accepted == if ok then old(accepted) + data else old(accepted)
      ensures old(sendQueue) <= sendQueue
      ensures var woken := ok && wsiLive && !old(writableScheduled);
        writableScheduled == (old(writableScheduled) || woken) && callbackPending == (old(callbackPending) || woken)
      ensures old(Awake()) ==> Awake()
    {
      hide LwsClient.Valid;
      if !contextLive || closing {
        return false;
      }
      TwoRegions(Enqueue(data), Schedule, Live(), SharedState());
      EnqueueSend(data);
      var _ := ScheduleWritableLocked();
      return true;
    }

    /** Stops at the first entry that is not sendable: what came before stays queued, without a wake-up. */
    method SendMany(entries: seq<Entry>) returns (enqueued: Option<nat>)
      requires Valid()
      modifies `sendQueue, `accepted, `writableScheduled, `callbackPending
      ensures Valid() && (enqueued.Some? <==> contextLive && !closing && NotSendable !in entries)
      ensures enqueued.Some? ==> enqueued.value == |entries|
      ensures SharedState() == old(
        if contextLive && !closing then DoAll(RegionsOfSendMany(entries), Live(), SharedState()) else SharedState())
      ensures accepted == old(accepted) + (if contextLive && !closing then DataOf(RegionsOfSendMany(entries)) else [])
      ensures var woken := enqueued.Some? && wsiLive && !old(writableScheduled);
        writableScheduled == (old(writableScheduled) || woken) && callbackPending == (old(callbackPending) || woken)
      ensures old(Awake()) ==> Awake()
    {
      hide LwsClient.Valid, DoAll, RegionsOfSendMany, DataOf;
      assert accepted + [] == accepted;
      if !contextLive || closing {
        return None;
      }
      RegionsOnlyAdd(RegionsOfSendMany(entries), Live(), SharedState());
      SendManySchedules(entries);
      ghost var goal := DoAll(RegionsOfSendMany(entries), Live(), SharedState());
      var count := 0;
      assert entries[0..] == entries;
      while count < |entries|
        invariant count <= |entries| && NotSendable !in entries[..count]
        invariant Valid() && unchanged(`writableScheduled) && unchanged(`callbackPending)
        invariant DoAll(RegionsOfSendMany(entries[count..]), Live(), SharedState()) == goal
      {
        NextEntry(entries, count, Live(), SharedState());
        if entries[count].NotSendable? {
          return None;
        }
        EnqueueSend(entries[count].data);
        count := count + 1;
      }
      LastEntry(entries, Live(), SharedState());
      var _ := ScheduleWritableLocked();
      return Some(count);
    }

    /** Everything is torn down except the flag. */
    method Stop()
      requires Valid() && next.None?
      modifies this
      ensures !contextLive && !wsiLive && closing && sendQueue == [] && next.None? && !callbackPending
      ensures Valid() && writableScheduled == old(writableScheduled)
    {
      closing, contextLive, wsiLive := true, false, false;
      callbackPending := false;
      sendQueue := [];
      accepted := wire;
      LedgerDone(wire, [], []);
      assert Ledger(wire, [], []) == wire;
    }

    // ---------- the callbacks ----------

    /** RAW_CONNECTED: whether a callback is on its way then depends on whether the flag was truthful. */
    method OnConnected()
      requires Ready()
      modifies `connected, `writableScheduled, `callbackPending
      ensures Ready() && connected && writableScheduled
      ensures callbackPending == (old(callbackPending) || !old(writableScheduled))
      ensures Awake() <==> old(Prompt())
    {
      connected := true;
      var _ := ScheduleWritableLocked();
    }

    /** How the event loop completes a connect. When the event that brings RAW_CONNECTED also says that the socket is
        writeable, RAW_WRITEABLE follows at once. Without TLS that is so for every connect that had to wait, since it
        completes by the socket becoming writeable; at the end of a TLS handshake it may or may not be so. */
    method CompleteConnect(writeable: bool, maxWrites: MaxWrites, answers: nat -> int,
                           arrivals: (nat, nat) -> seq<Region>)
      requires Ready() && !failed
      modifies this
      ensures connected && Ready() && writableScheduled && old(wire) <= wire && old(accepted) <= accepted
      ensures Awake() <==> writeable || old(Prompt())
    {
      hide LwsClient.Valid, Do, DoAll;
      OnConnected();
      if writeable {
        var _ := OnWriteable(maxWrites, answers, arrivals);
      }
    }

    /** Lock regions of the JS thread, while the service thread is outside the lock. */
    method Interference(regions: seq<Region>)
      requires Valid()
      modifies `sendQueue, `accepted, `writableScheduled, `callbackPending
      ensures Valid() && SharedState() == old(DoAll(regions, Live(), SharedState()))
      ensures old(accepted) <= accepted && old(sendQueue) <= sendQueue
      ensures old(Prompt()) ==> Prompt()
      ensures regions == [] ==> SharedState() == old(SharedState())
      ensures DataOf(regions) == [] ==> accepted == old(accepted)
    {
      hide LwsClient.Valid;
      RegionsOnlyAdd(regions, Live(), SharedState());
      var i := 0;
      assert regions[0..] == regions;
      while i < |regions|
        invariant i <= |regions| && Valid()
        invariant DoAll(regions[i..], Live(), SharedState()) == DoAll(regions, Live(), old(SharedState()))
      {
        assert regions[i..][0] == regions[i] && regions[i..][1..] == regions[i + 1..];
        Perform(regions[i]);
        i := i + 1;
      }
    }

    method Perform(region: Region)
      requires Valid()
      modifies `sendQueue, `accepted, `writableScheduled, `callbackPending
      ensures Valid() && SharedState() == old(Do(region, Live(), SharedState()))
    {
      hide LwsClient.Valid;
      match region {
        case Enqueue(data) => EnqueueSend(data);
        case Schedule => var _ := ScheduleWritableLocked();
      }
    }

    /** The loop body once an item is held. */
    method WriteNext(answer: int, before: seq<Region>, after: seq<Region>) returns (ok: bool, finished: bool)
      requires Valid() && !failed && contextLive && wsiLive && Prompt()
      requires next.Some? && next.value.Remaining() > 0
      modifies this
      ensures Ready() && Prompt() && ok == (answer >= 0) && failed == !ok && connected == old(connected)
      ensures old(wire) <= wire && old(accepted) <= accepted
      ensures Went(old(wire), wire, answer, old(next).value.Unwritten())
      ensures finished <==> answer >= old(next).value.Remaining()
      ensures before == [] && answer >= old(next).value.Remaining() ==> finished && sendQueue == old(sendQueue)
      ensures before == after == [] ==>
        RoundDone([old(next).value] + old(sendQueue), old(wire), sendQueue, wire, failed, answer, finished)
      ensures DataOf(before) == DataOf(after) == [] ==> accepted == old(accepted)
    {
      hide LwsClient.Valid, Do, DoAll;
      Interference(before);
      ok, finished := Write(answer);
      if ok && !finished {
        Interference(after);
        PushFront();
        var _ := ScheduleWritableLocked();
      }
    }

    /** One round of the loop; `go` is false when the loop ends here. */
    method Round(answer: int, first: seq<Region>, before: seq<Region>, after: seq<Region>) returns (go: bool)
      requires Ready() && !failed && Prompt()
      modifies this
      ensures Ready() && Prompt() && (go || answer >= 0 ==> !failed) && connected == old(connected)
      ensures DataOf(first) == DataOf(before) == DataOf(after) == [] ==> accepted == old(accepted)
      ensures old(wire) <= wire && old(accepted) <= accepted
      ensures go ==> answer > 0 && |wire| > |old(wire)|
      ensures old(sendQueue) != [] ==>
        Went(old(wire), wire, answer, old(sendQueue)[0].Unwritten()) && failed == (answer < 0) &&
        (go <==> answer >= old(sendQueue)[0].Remaining())
      ensures first == before == [] && old(sendQueue) == [] ==> !go && !failed && sendQueue == []
      ensures first == before == [] && old(sendQueue) != [] && answer >= old(sendQueue)[0].Remaining() ==>
        go && sendQueue == old(sendQueue)[1..]
      ensures first == before == after == [] ==>
        RoundDone(old(sendQueue), old(wire), sendQueue, wire, failed, answer, go)
    {
      hide LwsClient.Valid, Do, DoAll;
      Interference(first);
      go := false;
      var found := PopFront();
      if found {
        var ok, finished := WriteNext(answer, before, after);
        go := ok && finished;
      }
    }

    /** RAW_WRITEABLE, asked for or not, whatever the flag says. Regions of the JS thread run at every point outside
        the lock: `arrivals(0, 4)` before the flag is cleared, `arrivals(k, 0..2)` in round k, `arrivals(k, 3)` after
        the loop. At the end the flag is set and a callback is on its way; when something was queued at the start,
        bytes leave exactly if the first write takes any. */
    method OnWriteable(maxWrites: MaxWrites, answers: nat -> int, arrivals: (nat, nat) -> seq<Region>)
      returns (done: nat)
      requires Ready() && !failed
      modifies this
      ensures Awake() && old(wire) <= wire && old(accepted) <= accepted && connected == old(connected)
      ensures old(sendQueue) != [] ==>
        var first := old(sendQueue)[0].Unwritten();
        if answers(0) < |first| then Went(old(wire), wire, answers(0), first) && failed == (answers(0) < 0)
        else old(wire) + first <= wire
      ensures old(sendQueue) != [] ==> (|wire| > |old(wire)| <==> answers(0) > 0)
      ensures old(sendQueue) != [] && answers(0) > 0 ==>
        Backlog() - (|accepted| - |old(accepted)|) < old(Backlog())
      ensures Calm(old(sendQueue), answers, arrivals) ==>
        !failed && sendQueue == old(sendQueue)[Min(maxWrites, |old(sendQueue)|)..]
      ensures Still(arrivals) ==>
        Drained(old(sendQueue), old(wire), sendQueue, wire, failed, answers, maxWrites, done)
      ensures NothingMore(arrivals) ==> accepted == old(accepted)
      ensures Taking(answers) ==> !failed
    {
      hide LwsClient.Valid, Do, DoAll, DataOf, Calm, NothingMore, Taking, Still, Drained;
      CalmAt(sendQueue, answers, arrivals, 0, 4);
      NothingMoreAt(arrivals, 0);
      StillAt(arrivals, 0);
      BeginCallback(arrivals(0, 4));
      done := DrainQueue(maxWrites, answers, arrivals);
      CalmAt(old(sendQueue), answers, arrivals, done, 3);
      NothingMoreAt(arrivals, done);
      StillAt(arrivals, done);
      Interference(arrivals(done, 3));
      var _ := ScheduleWritableLocked();
    }

    /** The loop of RAW_WRITEABLE. */
    method DrainQueue(maxWrites: MaxWrites, answers: nat -> int, arrivals: (nat, nat) -> seq<Region>)
      returns (writes: nat)
      requires Ready() && !failed && Prompt()
      modifies this
      ensures Ready() && Prompt() && connected == old(connected) && old(wire) <= wire && old(accepted) <= accepted
      ensures old(sendQueue) != [] ==>
        var first := old(sendQueue)[0].Unwritten();
        if answers(0) < |first| then Went(old(wire), wire, answers(0), first) && failed == (answers(0) < 0)
        else |first| > 0 && old(wire) + first <= wire
      ensures Calm(old(sendQueue), answers, arrivals) ==>
        !failed && sendQueue == old(sendQueue)[Min(maxWrites, |old(sendQueue)|)..]
      ensures Still(arrivals) ==>
        Drained(old(sendQueue), old(wire), sendQueue, wire, failed, answers, maxWrites, writes)
      ensures NothingMore(arrivals) ==> accepted == old(accepted)
      ensures Taking(answers) ==> !failed
    {
      hide LwsClient.Valid, Do, DoAll, DataOf, Calm, NothingMore, Taking, Still, Draining, Drained, RoundDone;
      ghost var queue := sendQueue;
      NothingDrained(queue, wire, answers);
      writes := 0;
      while writes < maxWrites
        invariant Ready() && Prompt() && !failed && connected == old(connected)
        invariant old(wire) <= wire && old(accepted) <= accepted
        invariant if writes == 0 then queue <= sendQueue && wire == old(wire)
                  else queue != [] ==>
                    answers(0) >= queue[0].Remaining() > 0 && old(wire) + queue[0].Unwritten() <= wire
        invariant Still(arrivals) ==> Draining(queue, old(wire), sendQueue, wire, answers, writes)
        invariant writes <= maxWrites && (NothingMore(arrivals) ==> accepted == old(accepted))
        invariant Calm(queue, answers, arrivals) ==> writes <= |queue| && sendQueue == queue[writes..]
      {
        CalmRound(queue, answers, arrivals, writes);
        NothingMoreAt(arrivals, writes);
        TakingAt(answers, writes);
        StillAt(arrivals, writes);
        ghost var queue0, wire0 := sendQueue, wire;
        var go := Round(answers(writes), arrivals(writes, 0), arrivals(writes, 1), arrivals(writes, 2));
        if Still(arrivals) {
          RoundDrains(queue, old(wire), queue0, wire0, sendQueue, wire, failed, answers, maxWrites, writes, go);
        }
        if !go {
          return;
        }
        writes := writes + 1;
      }
      if Still(arrivals) {
        DrainedToTheEnd(queue, old(wire), sendQueue, wire, answers, writes);
      }
    }

    /** The event loop begins the callback; the callback first clears the flag. */
    method BeginCallback(meanwhile: seq<Region>)
      requires Valid()
      modifies `sendQueue, `accepted, `writableScheduled, `callbackPending
      ensures Valid() && Prompt() && old(accepted) <= accepted && old(sendQueue) <= sendQueue
      ensures meanwhile == [] ==> sendQueue == old(sendQueue)
      ensures DataOf(meanwhile) == [] ==> accepted == old(accepted)
    {
      hide LwsClient.Valid, Do, DoAll;
      TakeRequest();
      Interference(meanwhile);
      ClearFlag();
    }

    /** Going into the callback uses up what was asked for. */
    method TakeRequest()
      modifies `callbackPending
      ensures !callbackPending
    {
      callbackPending := false;
    }

    method ClearFlag()
      modifies `writableScheduled
      ensures !writableScheduled
    {
      writableScheduled := false;
    }

    /** Bytes accepted and not yet on the wire. */
    ghost function Backlog(): int
      reads this
    {
      |accepted| - |wire|
    }

    // ---------- a second connection ----------

    /** A client that was connected once, closed and connected again by a connect that completes at once: the flag is
        left set, so nobody asks for a callback, however much is sent. */
    method ReconnectIsStuck(regions: seq<Region>)
      requires Valid() && next.None? && writableScheduled
      modifies this
      ensures Ready() && connected && !closing && !failed && accepted == DataOf(regions)
      ensures writableScheduled && !callbackPending && wire == []
    {
      hide LwsClient.Valid, Do, DoAll;
      Stop();
      var ok := Connect(false);
      OnConnected();
      RegionsOnlyAdd(regions, Live(), SharedState());
      Interference(regions);
      assert [] + DataOf(regions) == DataOf(regions);
    }
  }

  /** What can happen to a socket between callbacks of its own, and a callback, asked for or not. */
  datatype Step =
    | RegionStep(region: Region)
    | WriteableStep(maxWrites: MaxWrites, answers: nat -> int, arrivals: (nat, nat) -> seq<Region>)

  /** The steps that bring a callback about: any writeable callback, since it ends by asking for the next one, and
      scheduling, if the flag was clear to begin with. */
  predicate Wakes(step: Step, scheduled: bool) { step.WriteableStep? || (step == RegionStep(Schedule) && !scheduled) }

  /** Every run over a socket: the wire and the queue together hold the accepted bytes in order, and a callback is on
      its way exactly if one was at the start or a step has brought one about. After a failed write there are no more
      callbacks, but threads inside a send still do their regions. */
  method Run(c: LwsClient, steps: seq<Step>)
    requires c.Ready() && !c.failed
    modifies c
    ensures c.Ready() && old(c.wire) <= c.wire <= c.accepted && old(c.accepted) <= c.accepted
    ensures !c.failed ==> c.wire + Unsent(c.sendQueue) == c.accepted
    ensures c.callbackPending <==>
      old(c.callbackPending) || exists k :: 0 <= k < |steps| && Wakes(steps[k], old(c.writableScheduled))
    ensures c.writableScheduled <==>
      old(c.writableScheduled) || exists k :: 0 <= k < |steps| && Wakes(steps[k], old(c.writableScheduled))
  {
    hide LwsClient.Valid;
    var i := 0;
    while i < |steps|
      invariant i <= |steps| && c.Ready() && old(c.wire) <= c.wire && old(c.accepted) <= c.accepted
      invariant c.callbackPending <==>
        old(c.callbackPending) || exists k :: 0 <= k < i && Wakes(steps[k], old(c.writableScheduled))
      invariant c.writableScheduled <==>
        old(c.writableScheduled) || exists k :: 0 <= k < i && Wakes(steps[k], old(c.writableScheduled))
      invariant c.failed ==> exists k :: 0 <= k < i && steps[k].WriteableStep?
    {
      match steps[i] {
        case RegionStep(region) => c.Perform(region);
        case WriteableStep(maxWrites, answers, arrivals) =>
          if !c.failed {
            var _ := c.OnWriteable(maxWrites, answers, arrivals);
          }
      }
      i := i + 1;
    }
    c.AtRest();
  }

  /** The queue drains: once nothing more is enqueued, and if every callback's first write takes a byte, at most as
      many callbacks as there are bytes left empty the queue, unless a later write fails. Each of them is a callback
      that has been asked for. */
  method Drain(c: LwsClient, maxWrites: MaxWrites, answers: (nat, nat) -> int,
               arrivals: (nat, nat, nat) -> seq<Region>) returns (callbacks: nat)
    requires c.Awake() && !c.failed
    requires forall k :: answers(k, 0) > 0
    requires forall k, round, at :: DataOf(arrivals(k, round, at)) == []
    modifies c
    ensures c.Awake() && c.accepted == old(c.accepted) && callbacks <= old(c.Backlog())
    ensures c.failed || (c.sendQueue == [] && c.wire == c.accepted)
    ensures (forall k, write :: answers(k, write) >= 0) ==> !c.failed
  {
    hide LwsClient.Valid, DataOf;
    callbacks := 0;
    c.AtRest();
    while c.sendQueue != [] && !c.failed
      invariant c.Awake() && c.accepted == old(c.accepted) && c.Backlog() >= 0
      invariant callbacks + c.Backlog() <= old(c.Backlog())
      invariant (forall k, write :: answers(k, write) >= 0) ==> !c.failed
      decreases c.Backlog()
    {
      var k := callbacks;
      var _ := c.OnWriteable(
        maxWrites, (write: nat) => answers(k, write), (round: nat, at: nat) => arrivals(k, round, at));
      c.AtRest();
      callbacks := callbacks + 1;
    }
    c.AtRest();
    assert c.wire + [] == c.wire;
  }

  /** Every run of one connection, from the moment RAW_CONNECTED found the flag truthful: after every step the flag is
      set and a callback on its way, also while a send stands between its regions and after a `sendMany` that has
      stopped part-way. */
  method RunOfConnection(c: LwsClient, steps: seq<Step>)
    requires c.Ready() && c.Prompt() && !c.failed
    modifies c
    ensures c.Awake() && old(c.wire) <= c.wire <= c.accepted
    ensures !c.failed ==> c.wire + Unsent(c.sendQueue) == c.accepted
  {
    hide LwsClient.Valid, Do, DoAll;
    c.OnConnected();
    Run(c, steps);
  }

  /** A client that was connected before and connects again: in every run a callback is on its way exactly if the
      connect had to wait, or a callback has come that nobody asked for. */
  method RunOfReconnected(c: LwsClient, hadToWait: bool, steps: seq<Step>)
    requires c.Valid() && c.next.None? && c.writableScheduled
    modifies c
    ensures c.Ready() && c.writableScheduled
    ensures c.Awake() <==> hadToWait || exists k :: 0 <= k < |steps| && steps[k].WriteableStep?
  {
    hide LwsClient.Valid, Do, DoAll;
    c.Stop();
    var _ := c.Connect(hadToWait);
    c.OnConnected();
    Run(c, steps);
    assert forall k :: 0 <= k < |steps| ==> (Wakes(steps[k], true) <==> steps[k].WriteableStep?);
  }
}
