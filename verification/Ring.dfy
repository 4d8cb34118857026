/** The lws ring buffer with many readers, counted in elements instead of bytes.

    The buffer holds one element less than its size. Ghost fields give it an absolute time: the log of all
    insertions, and how many of them have been reclaimed. */
module Ring {
  import opened Bytes
  import opened Wrappers

  // ---------- where an absolute position lies ----------

  /** The remainder of `k` by `n`, counted up one step at a time. */
  function Slot(k: nat, n: nat): (r: nat)
    requires n > 0
    ensures r < n
  {
    if k == 0 then 0 else Bump(Slot(k - 1, n), n)
  }

  /** `(r + 1) % n` */
  function Bump(r: nat, n: nat): (b: nat)
    requires r < n
    ensures b < n && b == if r + 1 == n then 0 else r + 1
  {
    (r + 1) % n
  }

  /** Positions less than the size apart are told apart by their slots, and how far apart they are follows. */
  lemma {:induction false} SlotDistance(a: nat, b: nat, n: nat)
    requires n > 0 && a <= b < a + n
    ensures b - a == if Slot(b, n) >= Slot(a, n) then Slot(b, n) - Slot(a, n) else n - Slot(a, n) + Slot(b, n)
    ensures Slot(a, n) == Slot(b, n) <==> a == b
    decreases b - a
  {
    if a < b {
      SlotDistance(a, b - 1, n);
    }
  }

  class LwsRing {
    const buf: array<Option<Data>>
    var head: nat
    var oldestTail: nat

    ghost var log: seq<Data>
    ghost var oldest: nat

    constructor (count: nat)
      requires count >= 2
      ensures Valid() && fresh(buf) && buf.Length == count && log == [] && oldest == 0
    {
      buf := new Option<Data>[count](_ => None);
      head, oldestTail, log, oldest := 0, 0, [], 0;
    }

    /** What is between the oldest tail and the head is intact. */
    ghost predicate Valid()
      reads this, buf
    {
      && buf.Length >= 2
      && oldest <= |log| <= oldest + buf.Length - 1
      && head == Slot(|log|, buf.Length)
      && oldestTail == Slot(oldest, buf.Length)
      && forall k :: oldest <= k < |log| ==> buf[Slot(k, buf.Length)] == Some(log[k])
    }

    /** `tail` is the reader position `pos`, not yet reclaimed. */
    ghost predicate At(tail: nat, pos: nat)
      requires buf.Length > 0
      reads this
    {
      oldest <= pos <= |log| && tail == Slot(pos, buf.Length)
    }

    method CountFree() returns (free: nat)
      requires Valid()
      ensures free == buf.Length - 1 - (|log| - oldest)
    {
      SlotDistance(oldest, |log|, buf.Length);
      if head == oldestTail {
        free := buf.Length - 1;
      } else if head < oldestTail {
        free := oldestTail - head - 1;
      } else {
        free := buf.Length - head + oldestTail - 1;
      }
    }

    method CountWaiting(tail: nat, ghost pos: nat) returns (waiting: nat)
      requires Valid() && At(tail, pos)
      ensures waiting == |log| - pos
    {
      SlotDistance(pos, |log|, buf.Length);
      if head == tail {
        waiting := 0;
      } else if head > tail {
        waiting := head - tail;
      } else {
        waiting := buf.Length - tail + head;
      }
    }

    method Insert(message: Data) returns (inserted: bool)
      requires Valid()
      modifies this, buf
      ensures Valid() && oldest == old(oldest)
      ensures inserted == (old(|log| - oldest) < buf.Length - 1)
      ensures log == if inserted then old(log) + [message] else old(log)
      ensures !inserted ==> unchanged(this) && unchanged(buf)
    {
      var free := CountFree();
      inserted := free > 0;
      if inserted {
        forall k | oldest <= k < |log|
          ensures Slot(k, buf.Length) != head
        {
          SlotDistance(k, |log|, buf.Length);
        }
        buf[head] := Some(message);
        head := Bump(head, buf.Length);
        log := log + [message];
      }
    }

    /** The element a reader is at; an element that is there has its payload. */
    method GetElement(tail: nat, ghost pos: nat) returns (element: Option<Option<Data>>)
      requires Valid() && At(tail, pos)
      ensures element == if pos == |log| then None else Some(Some(log[pos]))
    {
      SlotDistance(pos, |log|, buf.Length);
      element := if tail == head then None else Some(buf[tail]);
    }

    /** Moves a reader past one element. */
    method Consume(tail: nat, ghost pos: nat) returns (tail': nat)
      requires Valid() && At(tail, pos)
      ensures At(tail', if pos < |log| then pos + 1 else pos)
    {
      var waiting := CountWaiting(tail, pos);
      tail' := if waiting > 0 then Bump(tail, buf.Length) else tail;
    }

    /** Destroys the oldest element. */
    method DestroyOldest()
      requires Valid() && oldest < |log|
      modifies this, buf
      ensures Valid() && log == old(log) && head == old(head) && oldest == old(oldest) + 1
    {
      forall k | oldest < k < |log|
        ensures Slot(k, buf.Length) != oldestTail
      {
        SlotDistance(oldest, k, buf.Length);
      }
      buf[oldestTail] := None;
      oldestTail := Bump(oldestTail, buf.Length);
      oldest := oldest + 1;
    }

    /** Destroys elements until the oldest tail has come to `tail`. */
    method UpdateOldestTail(tail: nat, ghost pos: nat)
      requires Valid() && At(tail, pos)
      modifies this, buf
      ensures Valid() && log == old(log) && head == old(head) && oldest == pos
    {
      SlotDistance(oldest, pos, buf.Length);
      while oldestTail != tail
        invariant Valid() && log == old(log) && head == old(head)
        invariant oldest <= pos && (oldestTail == tail <==> oldest == pos)
        decreases pos - oldest
      {
        DestroyOldest();
        SlotDistance(oldest, pos, buf.Length);
      }
    }
  }
}
