/** The receiving half of a server connection in length-prefixed mode: an offset into a growing buffer,
    compacted from time to time, and the handshake gate. */
module Inbound {
  import opened Bytes
  import opened Sequences
  import opened Wrappers
  import opened Framing
  import opened JsonValue
  import JsonParser
  import Handshake

  class Connection {
    const floats: Floats
    const crypto: Handshake.Crypto
    const protocolVersion: string
    const maxFrameLength: nat

    var rxBuffer: Data
    var rxOffset: nat
    const handshakeRequired: bool
    var handshakeComplete: bool
    var connectionAnnounced: bool
    var handshakeMetadata: Option<Handshake.Metadata>
    var events: seq<Event>

    ghost var received: Data
    ghost var frames: seq<Data>  // taken out of the buffer so far
    ghost var consumed: nat      // bytes taken out of the buffer
    ghost var moved: nat         // bytes copied by compaction
    ghost var rejected: bool

    constructor (floats: Floats, crypto: Handshake.Crypto, protocolVersion: string, maxFrameLength: nat)
      ensures this.floats == floats && this.crypto == crypto
      ensures this.protocolVersion == protocolVersion && this.maxFrameLength == maxFrameLength
      ensures Valid() && received == [] && !rejected
    {
      this.floats, this.crypto := floats, crypto;
      this.protocolVersion, this.maxFrameLength := protocolVersion, maxFrameLength;
      rxBuffer, rxOffset := [], 0;
      handshakeRequired := protocolVersion != "";
      handshakeComplete := protocolVersion == "";
      connectionAnnounced := protocolVersion == "";
      handshakeMetadata := None;
      // RAW_ADOPT announces a connection that needs no handshake.
      events := if protocolVersion == "" then [Announced] else [];
      received, frames, consumed, moved, rejected := [], [], 0, 0, false;
    }

    ghost function TheGate(): Gate {
      Gate(handshakeRequired, frame => Handshake.Judge(floats, crypto, protocolVersion, frame))
    }

    /** The abstract content of the buffer. */
    ghost function Pending(): Data
      requires rxOffset <= |rxBuffer|
      reads `rxBuffer, `rxOffset
    {
      rxBuffer[rxOffset..]
    }

    /** The buffer holds what the frames taken so far leave of the stream. */
    ghost predicate Buffered()
      reads `rxBuffer, `rxOffset, `received, `frames, `consumed, `moved
    {
      && rxOffset <= |rxBuffer|
      && 2 * rxOffset <= |rxBuffer|
      && Split(maxFrameLength, received) == Then(Cut(frames, [], false), Split(maxFrameLength, Pending()))
      && consumed + |Pending()| == |received|
      && moved + rxOffset <= consumed
    }

    /** The frames taken so far have been admitted. */
    ghost predicate Gated()
      reads this
    {
      && !rejected
      && handshakeRequired == (protocolVersion != "")
      && Admit(TheGate(), frames) == Outcome(events, false)
      && handshakeComplete == connectionAnnounced == (!handshakeRequired || frames != [])
      && handshakeMetadata == Known(frames)
    }

    /** What is known of the other side once these frames have come. */
    ghost function Known(frames: seq<Data>): Option<Handshake.Metadata> {
      if handshakeRequired && frames != [] then Handshake.Remembered(floats, crypto, frames[0]) else None
    }

    /** Holds between deliveries. */
    ghost predicate Valid()
      reads this
    {
      && Decode(TheGate(), maxFrameLength, received) == Outcome(events, rejected)
      && moved <= consumed <= |received|
      && (!rejected ==>
            && Buffered() && Gated()
            && Split(maxFrameLength, Pending()) == Cut([], Pending(), false)
            && |rxBuffer| <= 2 * (maxFrameLength + 3))
    }

    method TrimRxBuffer()
      requires rxOffset <= |rxBuffer|
      modifies `rxBuffer, `rxOffset, `moved
      ensures rxOffset <= |rxBuffer| && Pending() == old(Pending())
      ensures 2 * rxOffset <= |rxBuffer| && rxOffset <= old(rxOffset)
      ensures moved + rxOffset <= old(moved) + old(rxOffset)
      ensures rxOffset == if 2 * old(rxOffset) > |old(rxBuffer)| then 0 else old(rxOffset)
      ensures moved == old(moved) + if rxOffset != old(rxOffset) then |Pending()| else 0
    {
      if rxOffset == 0 {
        return;
      }
      if rxOffset >= |rxBuffer| {
        rxBuffer, rxOffset := [], 0;
        return;
      }
      if rxOffset > |rxBuffer| / 2 {
        var remaining := rxBuffer[rxOffset..];
        moved := moved + |remaining|;
        rxBuffer, rxOffset := remaining, 0;
      }
    }

    method HandleHandshakeFrame(frame: Data) returns (accepted: bool)
      modifies `events, `handshakeMetadata
      ensures accepted ==> handshakeMetadata == Handshake.Remembered(floats, crypto, frame)
      ensures !accepted ==> handshakeMetadata == old(handshakeMetadata)
      ensures accepted == Handshake.Judge(floats, crypto, protocolVersion, frame).None?
      ensures accepted ==> events == old(events)
      ensures !accepted ==>
        events == old(events) + [Error(Handshake.Judge(floats, crypto, protocolVersion, frame).value)]
    {
      var parser := new JsonParser.SimpleJsonParser(floats, Handshake.TextOf(frame));
      var ok, root, error := parser.Parse();
      if !ok {
        events := events + [Error("Failed to parse handshake: " + error)];
        return false;
      }
      if Handshake.GetStringMember(root, "type") != Some("handshake") {
        events := events + [Error("Invalid handshake payload: missing type")];
        return false;
      }
      if protocolVersion != "" {
        var version := Handshake.GetStringMember(root, "version");
        if version.Some? && version.value != "" && version.value != protocolVersion {
          events := events + [Error("Protocol version mismatch")];
          return false;
        }
      }
      var metadata := Handshake.BuildMetadata(floats, root);
      if Handshake.LooksNegantropic(root) {
        var failure := Handshake.VerifyNegantropic(floats, crypto, root);
        if failure.Some? {
          events := events + [Error("Invalid handshake signature: " + failure.value)];
          return false;
        }
        metadata := Handshake.Proved(crypto, root, metadata);
      }
      handshakeMetadata := Some(metadata);
      return true;
    }

    /** Takes a whole frame out of the buffer. */
    method CutFrame(length: nat) returns (frame: Data)
      requires Buffered() && |Pending()| >= PREFIX_LENGTH + length
      requires length == DecodeUint32(Pending()[..4]) && length <= maxFrameLength
      modifies `rxBuffer, `rxOffset, `consumed, `moved, `frames
      ensures rxOffset <= |rxBuffer| && Buffered() && frames == old(frames) + [frame]
      ensures |rxBuffer| - rxOffset < old(|rxBuffer| - rxOffset)
    {
      ghost var pending, taken := Pending(), frames;
      var begin := rxOffset + PREFIX_LENGTH;
      frame := rxBuffer[begin..begin + length];
      SliceOfSuffix(rxBuffer, rxOffset, PREFIX_LENGTH, PREFIX_LENGTH + length);
      rxOffset := begin + length;
      consumed := consumed + PREFIX_LENGTH + length;
      frames := frames + [frame];
      assert Pending() == pending[PREFIX_LENGTH + length..];
      TrimRxBuffer();
      ThenPush(taken, frame, Split(maxFrameLength, Pending()));
    }

    /** What happens to a frame taken out of the buffer. */
    method AdmitFrame(frame: Data, ghost taken: seq<Data>) returns (ok: bool)
      requires Buffered() && frames == taken + [frame] && !rejected
      requires handshakeRequired == (protocolVersion != "") && Admit(TheGate(), taken) == Outcome(events, false)
      requires handshakeComplete == connectionAnnounced == (!handshakeRequired || taken != [])
      requires handshakeMetadata == Known(taken)
      modifies `handshakeComplete, `connectionAnnounced, `handshakeMetadata, `events, `rejected
      ensures ok ==> Buffered() && Gated()
      ensures !ok ==> rejected && Rejected()
    {
      hide Connection.Buffered, Decode;
      AdmitSnoc(TheGate(), taken, frame);
      ok := true;
      if handshakeRequired && !handshakeComplete {
        events := events + [Attempt(frame)];
        ok := HandleHandshakeFrame(frame);
        if !ok {
          rejected := true;
          Refused();
          return;
        }
        handshakeComplete := true;
        if !connectionAnnounced {
          connectionAnnounced := true;
          events := events + [Announced];
        }
        return;
      }
      events := events + [Message(frame)];
    }

    /** The decoder of the whole stream refuses what the gate refuses. */
    lemma Refused()
      requires Buffered() && Admit(TheGate(), frames).rejected
      ensures Decode(TheGate(), maxFrameLength, received) == Admit(TheGate(), frames)
      ensures moved <= consumed <= |received|
    {
      AdmitPrefix(TheGate(), frames, Split(maxFrameLength, Pending()).frames);
    }

    /** What a rejection leaves behind. */
    ghost predicate Rejected()
      reads this
    {
      rejected && moved <= consumed <= |received| &&
      Decode(TheGate(), maxFrameLength, received) == Outcome(events, true)
    }

    /** One round of the frame loop. */
    method TakeFrame(length: nat) returns (ok: bool)
      requires Buffered() && Gated() && |Pending()| >= PREFIX_LENGTH + length
      requires length == DecodeUint32(Pending()[..4]) && length <= maxFrameLength
      modifies this
      ensures received == old(received) && ok == !rejected
      ensures ok ==> Buffered() && Gated() && |rxBuffer| - rxOffset < old(|rxBuffer| - rxOffset)
      ensures !ok ==> Rejected()
    {
      hide Connection.Buffered, Decode;
      ghost var taken := frames;
      var frame := CutFrame(length);
      ok := AdmitFrame(frame, taken);
    }

    method ProcessBufferedFrames() returns (ok: bool)
      requires Buffered() && Gated()
      modifies this
      ensures Valid() && received == old(received) && ok == !rejected
    {
      while |rxBuffer| >= rxOffset + PREFIX_LENGTH
        invariant Buffered() && Gated() && received == old(received)
        decreases |rxBuffer| - rxOffset
      {
        var length := DecodeUint32(rxBuffer[rxOffset..rxOffset + 4]);
        assert rxBuffer[rxOffset..rxOffset + 4] == Pending()[..4];
        if length > maxFrameLength {
          Stuck();
          events := events + [TOO_LONG];
          rejected := true;
          return false;
        }
        if |rxBuffer| < rxOffset + PREFIX_LENGTH + length {
          break;
        }
        ok := TakeFrame(length);
        if !ok {
          return;
        }
      }
      Stuck();
      ok := true;
    }

    /** No further frame can be taken: the decoder of the whole stream stops here too. */
    lemma Stuck()
      requires Buffered() && Split(maxFrameLength, Pending()).frames == []
      ensures Split(maxFrameLength, received).frames == frames
      ensures Split(maxFrameLength, received).rest == Split(maxFrameLength, Pending()).rest
      ensures Split(maxFrameLength, received).tooLong == Split(maxFrameLength, Pending()).tooLong
    {
      assert frames + [] == frames;
    }

    /** One RAW_RX delivery. */
    method ProcessIncomingData(data: Data) returns (ok: bool)
      requires Valid() && !rejected
      modifies this
      ensures Valid() && received == old(received) + data && ok == !rejected
      ensures Decode(TheGate(), maxFrameLength, received) == Outcome(events, !ok)
      ensures ok ==> Pending() == Split(maxFrameLength, received).rest
      ensures ok ==> 2 * rxOffset <= |rxBuffer| <= 2 * (maxFrameLength + 3)
      ensures moved <= consumed <= |received|
    {
      if |data| == 0 {
        assert received + data == received;
        Stuck();
        return true;
      }
      Append(data);
      ok := ProcessBufferedFrames();
      if ok {
        Stuck();
      }
    }

    method Append(data: Data)
      requires Buffered() && Gated() && Split(maxFrameLength, Pending()) == Cut([], Pending(), false)
      modifies `rxBuffer, `received
      ensures Buffered() && Gated() && received == old(received) + data
    {
      ghost var pending, before := Pending(), received;
      rxBuffer := rxBuffer + data;
      received := received + data;
      assert Pending() == pending + data;
      BufferExtends(maxFrameLength, frames, before, pending, data);
    }

    /** Deliveries in order until one is refused, from the beginning of a connection or in mid-life. */
    method ReceiveAll(chunks: seq<Data>) returns (ok: bool)
      requires Valid() && !rejected
      modifies this
      ensures Decode(TheGate(), maxFrameLength, old(received) + Concat(chunks)) == Outcome(events, !ok)
      ensures Valid() && rejected == !ok && WellGated(events) && ErrorsOnlyAtTheEnd(events, !ok)
      ensures ok ==> Pending() == Split(maxFrameLength, old(received) + Concat(chunks)).rest
      ensures ok ==> handshakeMetadata == Known(Split(maxFrameLength, old(received) + Concat(chunks)).frames)
      ensures moved <= consumed <= |old(received)| + |Concat(chunks)|
    {
      hide Connection.Valid, Decode;
      ok := true;
      var i := 0;
      assert received + [] == received;
      while i < |chunks|
        invariant i <= |chunks|
        invariant Valid() && !rejected && received == old(received) + Concat(chunks[..i])
      {
        assert chunks[..i + 1] == chunks[..i] + [chunks[i]];
        ConcatSnoc(chunks[..i], chunks[i]);
        Regroup(old(received), Concat(chunks[..i]), chunks[i]);
        ok := ProcessIncomingData(chunks[i]);
        i := i + 1;
        if !ok {
          RefusedEarly(chunks, i, old(received));
          return;
        }
      }
      assert chunks[..i] == chunks;
      Standing();
      ErrorEndsTheRun(TheGate(), maxFrameLength, received);
    }

    /** Between deliveries of a connection that has not been refused. */
    lemma Standing()
      requires Valid() && !rejected
      ensures Decode(TheGate(), maxFrameLength, received) == Outcome(events, false) && WellGated(events)
      ensures moved <= consumed <= |received|
      ensures rxOffset <= |rxBuffer| && Pending() == Split(maxFrameLength, received).rest
      ensures handshakeMetadata == Known(Split(maxFrameLength, received).frames)
      ensures handshakeComplete && handshakeRequired ==> Split(maxFrameLength, received).frames != []
    {
      Stuck();
      DecodeIsWellGated(TheGate(), maxFrameLength, received);
    }

    /** Once refused, what would have come changes nothing. */
    lemma RefusedEarly(chunks: seq<Data>, i: nat, before: Data)
      requires i <= |chunks| && received == before + Concat(chunks[..i])
      requires Valid() && rejected
      ensures Decode(TheGate(), maxFrameLength, before + Concat(chunks)) == Outcome(events, true) && WellGated(events)
      ensures ErrorsOnlyAtTheEnd(events, true)
      ensures moved <= consumed <= |before| + |Concat(chunks)|
    {
      assert chunks == chunks[..i] + chunks[i..];
      ConcatAppend(chunks[..i], chunks[i..]);
      Regroup(before, Concat(chunks[..i]), Concat(chunks[i..]));
      RejectionIsFinal(TheGate(), maxFrameLength, received, Concat(chunks[i..]));
      DecodeIsWellGated(TheGate(), maxFrameLength, received);
      ErrorEndsTheRun(TheGate(), maxFrameLength, received);
    }

    /** An open connection between frames: framed payloads, however they are cut into deliveries, come out as exactly
        these messages, and the buffer is empty again. */
    method ReceivePayloads(payloads: seq<Data>, chunks: seq<Data>)
      requires Valid() && !rejected && handshakeComplete && Pending() == []
      requires forall i :: 0 <= i < |payloads| ==> |payloads[i]| <= maxFrameLength && |payloads[i]| < UINT32_SIZE
      requires Concat(chunks) == Concat(Frames(payloads))
      modifies this
      ensures Valid() && !rejected && events == old(events) + Messages(payloads) && Pending() == []
    {
      hide Connection.Valid, Decode;
      Standing();
      ghost var gate, before, known := TheGate(), received, events;
      DeliversPayloads(gate, maxFrameLength, before, payloads);
      var ok := ReceiveAll(chunks);
      assert Decode(gate, maxFrameLength, before + Concat(chunks)) == Outcome(known + Messages(payloads), false);
    }
  }

  /** Bytes added to the stream and to an incomplete rest keep the two in step. */
  lemma BufferExtends(limit: nat, taken: seq<Data>, received: Data, pending: Data, data: Data)
    requires Split(limit, pending) == Cut([], pending, false)
    requires Split(limit, received) == Then(Cut(taken, [], false), Split(limit, pending))
    ensures Split(limit, received + data) == Then(Cut(taken, [], false), Split(limit, pending + data))
  {
    assert taken + [] == taken;
    SplitExtends(limit, received, data);
  }

  lemma SliceOfSuffix(s: Data, i: nat, j: nat, k: nat)
    requires j <= k && i + k <= |s|
    ensures s[i..][j..k] == s[i + j..i + k] && s[i..][k..] == s[i + k..]
  {
  }

  lemma ThenPush(taken: seq<Data>, frame: Data, c: Cut)
    ensures Then(Cut(taken, [], false), Push(frame, c)) == Then(Cut(taken + [frame], [], false), c)
  {
    assert taken + ([frame] + c.frames) == taken + [frame] + c.frames;
  }
}
