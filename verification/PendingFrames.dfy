/** The bench's bookkeeping for streams that accept only part of what is offered: what was not accepted is kept
    and offered again in front of the next frames. */
module PendingFrames {
  import opened Bytes
  import opened Sequences
  import opened Wrappers

  function TotalLength(frames: seq<Data>): nat {
    if frames == [] then 0 else |frames[0]| + TotalLength(frames[1..])
  }

  lemma {:induction false} TotalIsLength(frames: seq<Data>)
    ensures TotalLength(frames) == |Concat(frames)|
  {
    if frames != [] {
      TotalIsLength(frames[1..]);
    }
  }

  /** The frames with their first `n` bytes gone: whole frames are dropped, empty ones included, and the frame
      in which the cut falls keeps its end. */
  function DropBytes(frames: seq<Data>, n: nat): seq<Data> {
    if frames == [] then []
    else if n >= |frames[0]| then DropBytes(frames[1..], n - |frames[0]|)
    else [frames[0][n..]] + frames[1..]
  }

  /** What is dropped is exactly the prefix of that length. */
  lemma {:induction false} DropBytesDrops(frames: seq<Data>, n: nat)
    requires n <= |Concat(frames)|
    ensures Concat(DropBytes(frames, n)) == Concat(frames)[n..]
  {
    if frames != [] {
      if n >= |frames[0]| {
        DropBytesDrops(frames[1..], n - |frames[0]|);
        assert Concat(frames)[n..] == Concat(frames[1..])[n - |frames[0]|..];
      } else {
        var kept := [frames[0][n..]] + frames[1..];
        assert kept[1..] == frames[1..];
        assert Concat(frames)[n..] == frames[0][n..] + Concat(frames[1..]);
      }
    }
  }

  /** Nothing is kept exactly when everything was written; then no empty frame is left waiting either. */
  lemma {:induction false} DropBytesEmpty(frames: seq<Data>, n: nat)
    ensures DropBytes(frames, n) == [] <==> n >= |Concat(frames)|
    ensures DropBytes(frames, n) != [] ==> DropBytes(frames, n)[0] != []
  {
    if frames != [] && n >= |frames[0]| {
      DropBytesEmpty(frames[1..], n - |frames[0]|);
    }
  }

  /** The cut falls into the frame that holds byte `n`: it keeps its end, and the frames behind it stay as they are. */
  lemma {:induction false} DropBytesExactly(frames: seq<Data>, n: nat, k: nat)
    requires k < |frames| && |Concat(frames[..k])| <= n < |Concat(frames[..k + 1])|
    ensures var offset := n - |Concat(frames[..k])|;
      offset < |frames[k]| && DropBytes(frames, n) == [frames[k][offset..]] + frames[k + 1..]
  {
    if k == 0 {
      assert frames[..0] == [] && frames[..1] == [frames[0]] && frames[..1][1..] == [];
      assert Concat(frames[..1]) == frames[0] + [];
    } else {
      var tail := frames[1..];
      assert frames[..k][1..] == tail[..k - 1] && frames[..k + 1][1..] == tail[..k] && tail[k..] == frames[k + 1..];
      DropBytesExactly(tail, n - |frames[0]|, k - 1);
    }
  }

  /** `consumeWritten`. When nothing was written the frames are returned as they are. */
  method ConsumeWritten(frames: seq<Data>, bytesWritten: int) returns (remainder: seq<Data>)
    ensures remainder == if bytesWritten <= 0 then frames else DropBytes(frames, bytesWritten)
  {
    if bytesWritten <= 0 {
      return frames;
    }
    var remainingBytes := bytesWritten;
    var idx := 0;
    assert frames[0..] == frames;
    while idx < |frames| && remainingBytes >= |frames[idx]|
      invariant idx <= |frames| && remainingBytes >= 0
      invariant DropBytes(frames, bytesWritten) == DropBytes(frames[idx..], remainingBytes)
    {
      assert frames[idx..][1..] == frames[idx + 1..];
      remainingBytes := remainingBytes - |frames[idx]|;
      idx := idx + 1;
    }
    if idx >= |frames| {
      return [];
    }
    ghost var expected := [frames[idx][remainingBytes..]] + frames[idx + 1..];
    assert frames[idx..][1..] == frames[idx + 1..];
    assert DropBytes(frames, bytesWritten) == expected;
    remainder := [];
    if remainingBytes > 0 {
      remainder := [frames[idx][remainingBytes..]];
      idx := idx + 1;
    } else {
      assert frames[idx][0..] == frames[idx];
    }
    while idx < |frames|
      invariant idx <= |frames|
      invariant remainder + frames[idx..] == expected
    {
      assert frames[idx..] == [frames[idx]] + frames[idx + 1..];
      assert remainder + [frames[idx]] + frames[idx + 1..] == remainder + frames[idx..];
      remainder := remainder + [frames[idx]];
      idx := idx + 1;
    }
    assert remainder + [] == remainder;
  }

  // ---------- one sender and its streams ----------

  type StreamId = nat

  /** How a stream takes what is offered. `SendMany` is answered with a byte count or nothing, which means all;
      a stream without it is sent frame by frame, each call answered likewise. */
  datatype Stream = Batching(answer: Option<nat>) | OneByOne(answers: nat -> Option<nat>)

  /** The bytes of `toSend` the stream accepts from the first frame on; it is not offered more after a short answer. */
  function AcceptedOneByOne(toSend: seq<Data>, answers: nat -> Option<nat>, k: nat): nat
    requires k <= |toSend|
    decreases |toSend| - k
  {
    if k == |toSend| then 0
    else
      match answers(k)
      case None => |toSend[k]| + AcceptedOneByOne(toSend, answers, k + 1)
      case Some(sent) => if sent < |toSend[k]| then sent else |toSend[k]| + AcceptedOneByOne(toSend, answers, k + 1)
  }

  function Accepted(stream: Stream, toSend: seq<Data>): nat {
    match stream
    case Batching(None) => TotalLength(toSend)
    case Batching(Some(n)) => if n < TotalLength(toSend) then n else TotalLength(toSend)
    case OneByOne(answers) => AcceptedOneByOne(toSend, answers, 0)
  }

  /** A stream never accepts more than it is offered. */
  predicate Honest(stream: Stream, toSend: seq<Data>) {
    match stream
    case Batching(answer) => answer.Some? ==> answer.value <= TotalLength(toSend)
    case OneByOne(answers) => forall k :: 0 <= k < |toSend| && answers(k).Some? ==> answers(k).value <= |toSend[k]|
  }

  lemma {:induction false} AcceptedInRange(toSend: seq<Data>, answers: nat -> Option<nat>, k: nat)
    requires k <= |toSend|
    ensures AcceptedOneByOne(toSend, answers, k) <= TotalLength(toSend[k..])
    decreases |toSend| - k
  {
    if k < |toSend| {
      assert toSend[k..][1..] == toSend[k + 1..];
      AcceptedInRange(toSend, answers, k + 1);
    }
  }

  /** All bytes are accepted when no answer falls short of its frames; otherwise those of the frames before the first
      short answer, and as many more as it says. */
  lemma AcceptedExactly(stream: Stream, toSend: seq<Data>, k: nat)
    requires Honest(stream, toSend)
    ensures stream == Batching(None) ==> Accepted(stream, toSend) == |Concat(toSend)|
    ensures stream.Batching? && stream.answer.Some? ==> Accepted(stream, toSend) == stream.answer.value
    ensures stream.OneByOne? && k <= |toSend| && (forall i :: 0 <= i < k ==> !Short(stream.answers(i), toSend[i])) ==>
      (k == |toSend| ==> Accepted(stream, toSend) == |Concat(toSend)|) &&
      (k < |toSend| && Short(stream.answers(k), toSend[k]) ==>
         Accepted(stream, toSend) == |Concat(toSend[..k])| + stream.answers(k).value)
  {
    TotalIsLength(toSend);
    if stream.OneByOne? && k <= |toSend| && forall i :: 0 <= i < k ==> !Short(stream.answers(i), toSend[i]) {
      FramesPassed(toSend, stream.answers, k);
      assert k == |toSend| ==> toSend[..k] == toSend;
    }
  }

  /** An answer that is a number and less than the frame. */
  predicate Short(answer: Option<nat>, frame: Data) { answer.Some? && answer.value < |frame| }

  lemma {:induction false} FramesPassed(toSend: seq<Data>, answers: nat -> Option<nat>, k: nat)
    requires k <= |toSend| && forall i :: 0 <= i < k ==> !Short(answers(i), toSend[i])
    ensures AcceptedOneByOne(toSend, answers, 0) == |Concat(toSend[..k])| + AcceptedOneByOne(toSend, answers, k)
  {
    if k > 0 {
      FramesPassed(toSend, answers, k - 1);
      assert toSend[..k] == toSend[..k - 1] + [toSend[k - 1]];
      ConcatSnoc(toSend[..k - 1], toSend[k - 1]);
    }
  }

  class Sender {
    var pendingByStream: map<StreamId, seq<Data>>
    var jsToNativeCalls: nat
    var jsToNativeBytes: nat
    var pendingMaxBytes: nat

    ghost var given: map<StreamId, Data>   // all bytes ever handed over for a stream
    ghost var taken: map<StreamId, Data>   // all bytes the stream has accepted

    constructor ()
      ensures Valid() && pendingByStream == map[] && forall id :: Given(id) == []
    {
      pendingByStream, jsToNativeCalls, jsToNativeBytes, pendingMaxBytes := map[], 0, 0, 0;
      given, taken := map[], map[];
    }

    ghost function Given(id: StreamId): Data
      reads `given
    {
      if id in given then given[id] else []
    }

    ghost function Taken(id: StreamId): Data
      reads `taken
    {
      if id in taken then taken[id] else []
    }

    function Pending(id: StreamId): seq<Data>
      reads `pendingByStream
    {
      if id in pendingByStream then pendingByStream[id] else []
    }

    ghost predicate Conserved(id: StreamId)
      reads `given, `taken, `pendingByStream
    {
      Given(id) == Taken(id) + Concat(Pending(id))
    }

    /** Accepted bytes followed by pending ones are the bytes given, stream by stream. */
    ghost predicate Valid()
      reads this
    {
      (forall id :: Conserved(id)) &&
      Recorded()
    }

    /** Only streams with something left have an entry, and the maximum covers them all. */
    ghost predicate Recorded()
      reads `pendingByStream, `pendingMaxBytes
    {
      forall id :: id in pendingByStream ==>
        pendingByStream[id] != [] && |Concat(pendingByStream[id])| <= pendingMaxBytes
    }

    /** Afterwards nothing is pending exactly if everything was accepted and that was more than no bytes: frames
        without any bytes stay pending until some byte is accepted. */
    method SendFramesOnStream(id: StreamId, stream: Stream, frames: seq<Data>)
      requires Valid() && Honest(stream, Pending(id) + frames)
      modifies this
      ensures Valid() && Given(id) == old(Given(id)) + Concat(frames)
      ensures var toSend := old(Pending(id)) + frames;
        var n := Accepted(stream, toSend);
        n <= |Concat(toSend)| && Taken(id) == old(Taken(id)) + Concat(toSend)[..n] &&
        (Pending(id) == [] <==> toSend == [] || 0 < n == |Concat(toSend)|)
      ensures forall other :: other != id ==> Undisturbed(old(given), old(taken), old(pendingByStream), other)
      ensures jsToNativeBytes == old(jsToNativeBytes) + |Concat(old(Pending(id)) + frames)|
      ensures jsToNativeCalls == old(jsToNativeCalls) + Calls(stream, old(Pending(id)) + frames)
      ensures pendingMaxBytes == Max(old(pendingMaxBytes), |Concat(Pending(id))|)
    {
      hide Concat, DropBytes, Accepted, TotalLength, Honest, Sender.Recorded;
      assert Conserved(id);
      var pending := Pending(id);
      MaximumCovers(id);
      var toSend := if |pending| > 0 then pending + frames else frames;
      assert toSend == pending + frames by { assert [] + frames == frames; }
      if |toSend| == 0 {
        NothingOffered(stream);
        assert Given(id) + Concat(frames) == Given(id) && Taken(id) + [] == Taken(id);
        return;
      }
      var written, calls := Offer(stream, toSend);
      jsToNativeCalls := jsToNativeCalls + calls;
      jsToNativeBytes := jsToNativeBytes + TotalLength(toSend);
      TotalIsLength(toSend);
      var remaining := ConsumeWritten(toSend, written);
      Conservation(Given(id), Taken(id), pending, frames, written);
      DropBytesEmpty(toSend, written);
      hide Sender.Undisturbed;
      Record(id, Given(id) + Concat(frames), Taken(id) + Concat(toSend)[..written], remaining);
    }

    lemma MaximumCovers(id: StreamId)
      requires Recorded()
      ensures |Concat(Pending(id))| <= pendingMaxBytes
    {
    }

    /** Another stream's record is as it was. */
    ghost predicate Undisturbed(given0: map<StreamId, Data>, taken0: map<StreamId, Data>,
                                pending0: map<StreamId, seq<Data>>, id: StreamId)
      reads `given, `taken, `pendingByStream
    {
      (id in given0 <==> id in given) && (id in given ==> given[id] == given0[id]) &&
      (id in taken0 <==> id in taken) && (id in taken ==> taken[id] == taken0[id]) &&
      (id in pending0 <==> id in pendingByStream) && (id in pendingByStream ==> pendingByStream[id] == pending0[id])
    }

    /** Stores what is left of an offer. */
    method Record(id: StreamId, ghost givenNow: Data, ghost takenNow: Data, remaining: seq<Data>)
      requires forall other :: other != id ==> Conserved(other)
      requires givenNow == takenNow + Concat(remaining)
      requires Recorded()
      modifies `pendingByStream, `pendingMaxBytes, `given, `taken
      ensures pendingMaxBytes == Max(old(pendingMaxBytes), |Concat(remaining)|)
      ensures Valid() && Given(id) == givenNow && Taken(id) == takenNow && Pending(id) == remaining
      ensures forall other :: other != id ==> Undisturbed(old(given), old(taken), old(pendingByStream), other)
    {
      hide Concat, Sender.Recorded;
      given := given[id := givenNow];
      taken := taken[id := takenNow];
      Keep(id, remaining);
      forall other
        ensures Conserved(other)
      {
        assert other != id ==> old(Conserved(other));
      }
    }

    method Keep(id: StreamId, remaining: seq<Data>)
      requires Recorded()
      modifies `pendingByStream, `pendingMaxBytes
      ensures Recorded() && pendingMaxBytes == Max(old(pendingMaxBytes), |Concat(remaining)|)
      ensures pendingByStream ==
        if remaining == [] then old(pendingByStream) - {id} else old(pendingByStream)[id := remaining]
    {
      hide Concat, TotalLength;
      if |remaining| > 0 {
        pendingByStream := pendingByStream[id := remaining];
        TotalIsLength(remaining);
        var pendingBytes := TotalLength(remaining);
        pendingMaxBytes := if pendingBytes > pendingMaxBytes then pendingBytes else pendingMaxBytes;
      } else {
        assert Concat(remaining) == [] by { NothingOffered(Batching(None)); }
        pendingByStream := pendingByStream - {id};
      }
    }

    /** Offers the frames to the stream and counts the calls and the bytes accepted. */
    method Offer(stream: Stream, toSend: seq<Data>) returns (written: nat, calls: nat)
      requires Honest(stream, toSend)
      ensures written == Accepted(stream, toSend) && written <= |Concat(toSend)|
      ensures toSend != [] ==> calls == Calls(stream, toSend)
    {
      TotalIsLength(toSend);
      match stream
      case Batching(answer) =>
        written := if answer.Some? then answer.value else TotalLength(toSend);
        calls := 1;
      case OneByOne(answers) =>
        AcceptedInRange(toSend, answers, 0);
        assert toSend[0..] == toSend;
        written := 0;
        var k := 0;
        while k < |toSend|
          invariant k <= |toSend|
          invariant written + AcceptedOneByOne(toSend, answers, k) == AcceptedOneByOne(toSend, answers, 0)
        {
          var answer := answers(k);
          var sent := if answer.Some? then answer.value else |toSend[k]|;
          written := written + sent;
          if answer.Some? && sent < |toSend[k]| {
            break;
          }
          k := k + 1;
        }
        calls := |toSend|;
    }
  }

  function Max(a: nat, b: nat): (m: nat)
    ensures m >= a && m >= b && (m == a || m == b)
  {
    if a < b then b else a
  }

  /** The calls counted for an offer: one for a batch, and otherwise one for each frame, even if the stream stops
      early. */
  function Calls(stream: Stream, toSend: seq<Data>): nat {
    if toSend == [] then 0 else if stream.Batching? then 1 else |toSend|
  }

  /** The bytes accepted and the frames kept still make up the bytes given. */
  lemma Conservation(given: Data, taken: Data, pending: seq<Data>, frames: seq<Data>, written: nat)
    requires given == taken + Concat(pending) && written <= |Concat(pending + frames)|
    ensures var toSend := pending + frames;
      var remaining := if written <= 0 then toSend else DropBytes(toSend, written);
      given + Concat(frames) == taken + Concat(toSend)[..written] + Concat(remaining)
  {
    var toSend := pending + frames;
    ConcatAppend(pending, frames);
    Regroup(taken, Concat(pending), Concat(frames));
    var all := Concat(toSend);
    assert all == all[..written] + all[written..];
    Regroup(taken, all[..written], all[written..]);
    if written > 0 {
      DropBytesDrops(toSend, written);
    }
  }

  lemma NothingOffered(stream: Stream)
    ensures Accepted(stream, []) == 0 && Concat([]) == []
  {
  }
}
