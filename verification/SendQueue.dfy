/** Buffers queued for writing, shared by the server and the client. */
module SendQueue {
  import opened Bytes
  import opened Sequences

  /** The room libwebsockets needs in front of the data of a write. */
  const LWS_PRE := 16

  /** How many writes a writeable callback may do; a configured zero is replaced by a default. */
  type MaxWrites = n: nat | n > 0 witness 1

  datatype QueuedWrite = QueuedWrite(buffer: Data, offset: nat) {
    function Length(): nat { if |buffer| > LWS_PRE then |buffer| - LWS_PRE else 0 }

    function Remaining(): nat { if offset < Length() then Length() - offset else 0 }

    /** The bytes still to be written: what `write_ptr()` points at. */
    function Unwritten(): (d: Data)
      ensures |d| == Remaining()
    {
      if offset < Length() then buffer[LWS_PRE + offset..] else []
    }
  }

  function BuildQueuedWrite(data: Data): (w: QueuedWrite)
    ensures w.Unwritten() == data
  {
    if data == [] then QueuedWrite([], 0) else QueuedWrite(seq(LWS_PRE, _ => 0) + data, 0)
  }

  /** Moving the offset drops the bytes that were written. */
  lemma AdvanceDrops(w: QueuedWrite, sent: nat)
    requires sent <= w.Remaining()
    ensures w.(offset := w.offset + sent).Unwritten() == w.Unwritten()[sent..]
  {
  }

  /** The bytes of an item that the socket takes when `lws_write` answers `answer`. */
  function Taken(answer: int, item: QueuedWrite): nat { if answer < 0 then 0 else Min(answer, item.Remaining()) }

  /** Exactly as many as the answer says, but no more than there are. */
  lemma TakenExactly(answer: int, item: QueuedWrite)
    ensures 0 <= answer <= |item.Unwritten()| ==> Taken(answer, item) == answer
    ensures answer > |item.Unwritten()| ==> Taken(answer, item) == |item.Unwritten()|
    ensures answer < 0 ==> Taken(answer, item) == 0
  {
  }

  /** The bytes of `data` went from the front to the wire, as many as the answer says but no more than there are. */
  ghost predicate Went(before: Data, after: Data, answer: int, data: Data) {
    (answer < 0 ==> after == before) &&
    (0 <= answer <= |data| ==> after == before + data[..answer]) &&
    (answer > |data| ==> after == before + data)
  }

  /** No write fails. */
  ghost predicate Taking(answers: nat -> int) { forall k :: answers(k) >= 0 }

  lemma TakingAt(answers: nat -> int, k: nat)
    ensures Taking(answers) ==> answers(k) >= 0
  {
  }

  /** All bytes a queue still has to write, in order. */
  function Unsent(queue: seq<QueuedWrite>): Data {
    if queue == [] then [] else queue[0].Unwritten() + Unsent(queue[1..])
  }

  lemma {:induction false} UnsentSnoc(queue: seq<QueuedWrite>, w: QueuedWrite)
    ensures Unsent(queue + [w]) == Unsent(queue) + w.Unwritten()
  {
    if queue == [] {
      assert queue + [w] == [w];
    } else {
      UnsentSnoc(queue[1..], w);
      assert (queue + [w])[1..] == queue[1..] + [w];
      Regroup(queue[0].Unwritten(), Unsent(queue[1..]), w.Unwritten());
    }
  }

  /** What was sent, then what is held, then what is queued. */
  function Ledger(wire: Data, held: Data, queue: seq<QueuedWrite>): Data { wire + (held + Unsent(queue)) }

  lemma LedgerPush(wire: Data, held: Data, queue: seq<QueuedWrite>, w: QueuedWrite)
    ensures Ledger(wire, held, queue + [w]) == Ledger(wire, held, queue) + w.Unwritten()
    ensures |Unsent(queue + [w])| == |Unsent(queue)| + w.Remaining()
  {
    UnsentSnoc(queue, w);
    Regroup(held, Unsent(queue), w.Unwritten());
    Regroup(wire, held + Unsent(queue), w.Unwritten());
  }

  lemma LedgerPop(wire: Data, queue: seq<QueuedWrite>)
    requires queue != []
    ensures Ledger(wire, [], queue) == Ledger(wire, queue[0].Unwritten(), queue[1..])
  {
    assert [] + Unsent(queue) == Unsent(queue);
  }

  lemma LedgerWrite(wire: Data, held: Data, sent: nat, queue: seq<QueuedWrite>)
    requires sent <= |held|
    ensures Ledger(wire + held[..sent], held[sent..], queue) == Ledger(wire, held, queue)
  {
    assert held == held[..sent] + held[sent..];
    Regroup(held[..sent], held[sent..], Unsent(queue));
    Regroup(wire, held[..sent], held[sent..] + Unsent(queue));
  }

  lemma LedgerReturn(wire: Data, w: QueuedWrite, queue: seq<QueuedWrite>)
    ensures Ledger(wire, w.Unwritten(), queue) == Ledger(wire, [], [w] + queue)
  {
    assert ([w] + queue)[1..] == queue;
    assert [] + Unsent([w] + queue) == Unsent([w] + queue);
  }

  lemma LedgerDone(wire: Data, held: Data, queue: seq<QueuedWrite>)
    ensures wire <= Ledger(wire, held, queue)
    ensures |Ledger(wire, held, queue)| == |wire| + |held| + |Unsent(queue)|
  {
  }

  // ---------- a callback nobody disturbs ----------

  /** Nobody else does anything during the callback. */
  ghost predicate Still<A(!new)>(arrivals: (nat, nat) -> seq<A>) { forall k, at :: arrivals(k, at) == [] }

  lemma StillAt<A(!new)>(arrivals: (nat, nat) -> seq<A>, k: nat)
    ensures Still(arrivals) ==>
      arrivals(k, 0) == arrivals(k, 1) == arrivals(k, 2) == arrivals(k, 3) == arrivals(k, 4) == []
  {
  }

  /** With this answer nothing of the item is left; nothing is asked about an item without bytes. */
  predicate Completes(answer: int, item: QueuedWrite) { item.Remaining() == 0 || answer >= item.Remaining() }

  /** One round of the loop, by the queue and the wire before and after it. */
  ghost predicate RoundDone(
    queue: seq<QueuedWrite>, wire: Data, queue': seq<QueuedWrite>, wire': Data, failed: bool, answer: int, go: bool)
  {
    if queue == [] then !go && !failed && queue' == [] && wire' == wire
    else
      go == Completes(answer, queue[0]) && failed == (!go && answer < 0) &&
      if go then queue' == queue[1..] && wire' == wire + queue[0].Unwritten()
      else if failed then wire' == wire
      else
        answer <= |queue[0].Unwritten()| && wire' == wire + queue[0].Unwritten()[..answer] &&
        queue' != [] && queue'[0].Unwritten() == queue[0].Unwritten()[answer..] && queue'[1..] == queue[1..]
  }

  /** When the answer completes the item at the front, the rest of the queue is left. */
  lemma CalmRoundDone(
      queue: seq<QueuedWrite>, wire: Data, queue': seq<QueuedWrite>, wire': Data, failed: bool, answer: int, go: bool)
    ensures RoundDone(queue, wire, queue', wire', failed, answer, go) ==>
      if queue == [] then queue' == [] && !go && !failed
      else answer >= queue[0].Remaining() ==> go && !failed && queue' == queue[1..]
  {
  }

  /** The first `n` items are on the wire. */
  ghost predicate Draining(
    queue: seq<QueuedWrite>, wire: Data, queue': seq<QueuedWrite>, wire': Data, answers: nat -> int, n: nat)
  {
    n <= |queue| && queue' == queue[n..] && wire' == wire + Unsent(queue[..n]) &&
    forall k :: 0 <= k < n ==> Completes(answers(k), queue[k])
  }

  /** A whole callback: `n` items were completed, and it ended because that was the most, because the queue was empty,
      or because the next answer did not complete its item; what such an answer covered is on the wire, too. */
  ghost predicate Drained(
    queue: seq<QueuedWrite>, wire: Data, queue': seq<QueuedWrite>, wire': Data, failed: bool,
    answers: nat -> int, maxWrites: nat, n: nat)
  {
    n <= |queue| && n <= maxWrites && (forall k :: 0 <= k < n ==> Completes(answers(k), queue[k])) &&
    if n == maxWrites || n == |queue| then !failed && queue' == queue[n..] && wire' == wire + Unsent(queue[..n])
    else
      !Completes(answers(n), queue[n]) &&
      RoundDone(queue[n..], wire + Unsent(queue[..n]), queue', wire', failed, answers(n), false)
  }

  lemma NothingDrained(queue: seq<QueuedWrite>, wire: Data, answers: nat -> int)
    ensures Draining(queue, wire, queue, wire, answers, 0)
  {
    assert queue[..0] == [] && wire + [] == wire;
  }

  lemma RoundDrains(
      queue: seq<QueuedWrite>, wire: Data, queue0: seq<QueuedWrite>, wire0: Data, queue': seq<QueuedWrite>, wire': Data,
      failed: bool, answers: nat -> int, maxWrites: nat, n: nat, go: bool)
    requires Draining(queue, wire, queue0, wire0, answers, n) && n < maxWrites
    requires RoundDone(queue0, wire0, queue', wire', failed, answers(n), go)
    ensures go ==> Draining(queue, wire, queue', wire', answers, n + 1) && !failed
    ensures !go ==> Drained(queue, wire, queue', wire', failed, answers, maxWrites, n)
  {
    if n < |queue| && go {
      assert queue[..n + 1] == queue[..n] + [queue[n]] && queue[n..][1..] == queue[n + 1..];
      UnsentSnoc(queue[..n], queue[n]);
      Regroup(wire, Unsent(queue[..n]), queue[n].Unwritten());
    }
  }

  lemma DrainedToTheEnd(
      queue: seq<QueuedWrite>, wire: Data, queue': seq<QueuedWrite>, wire': Data, answers: nat -> int, n: nat)
    requires Draining(queue, wire, queue', wire', answers, n)
    ensures Drained(queue, wire, queue', wire', false, answers, n, n)
  {
  }

  /** Nobody else sends during a callback and every write takes all it is offered. */
  ghost predicate Calm<A(!new)>(queue: seq<QueuedWrite>, answers: nat -> int, arrivals: (nat, nat) -> seq<A>) {
    (forall a, b :: arrivals(a, b) == []) &&
    (forall k, i :: 0 <= i < |queue| ==> answers(k) >= queue[i].Remaining())
  }

  lemma CalmAt<A(!new)>(queue: seq<QueuedWrite>, answers: nat -> int, arrivals: (nat, nat) -> seq<A>, n: nat, m: nat)
    ensures Calm(queue, answers, arrivals) ==> arrivals(n, m) == []
  {
  }

  /** One round of a calm callback. */
  lemma CalmRound<A(!new)>(queue: seq<QueuedWrite>, answers: nat -> int, arrivals: (nat, nat) -> seq<A>, n: nat)
    ensures Calm(queue, answers, arrivals) ==> arrivals(n, 0) == arrivals(n, 1) == arrivals(n, 2) == []
    ensures n < |queue| ==>
      (Calm(queue, answers, arrivals) ==> answers(n) >= queue[n].Remaining()) &&
      queue[n..] != [] && queue[n..][0] == queue[n] && queue[n..][1..] == queue[n + 1..]
  {
  }
}
