/** Length-prefixed framing of a byte stream and the one-shot decoder that incremental reception refines. */
module Framing {
  import opened Bytes
  import opened Sequences
  import opened Wrappers

  /** `BuildFramedPayload`: the payload itself, or behind its length as a 32-bit prefix. */
  function BuildFramedPayload(lengthPrefixed: bool, payload: Data): Data {
    if lengthPrefixed then EncodeUint32(ToUint32(|payload|)) + payload else payload
  }

  /** A framed payload is the payload behind four bytes that tell its length, or its remainder by 2^32. */
  lemma FramedExactly(lengthPrefixed: bool, payload: Data)
    ensures !lengthPrefixed ==> BuildFramedPayload(lengthPrefixed, payload) == payload
    ensures lengthPrefixed ==>
      var framed := BuildFramedPayload(lengthPrefixed, payload);
      |framed| == PREFIX_LENGTH + |payload| && framed[PREFIX_LENGTH..] == payload &&
      exists q: nat :: |payload| == q * UINT32_SIZE + DecodeUint32(framed[..PREFIX_LENGTH])
  {
    if lengthPrefixed {
      var framed := BuildFramedPayload(lengthPrefixed, payload);
      assert framed[..PREFIX_LENGTH] == EncodeUint32(ToUint32(|payload|));
      DecodeEncode(ToUint32(|payload|));
      ToUint32Exactly(|payload|, 0, 0);
    }
  }

  function Frames(payloads: seq<Data>): seq<Data> {
    if payloads == [] then [] else [BuildFramedPayload(true, payloads[0])] + Frames(payloads[1..])
  }

  /** The complete frames at the front of a stream, what is left, and whether the next length is refused. */
  datatype Cut = Cut(frames: seq<Data>, rest: Data, tooLong: bool)

  function Split(limit: nat, stream: Data): Cut
    decreases |stream|
  {
    if |stream| < PREFIX_LENGTH then Cut([], stream, false)
    else
      var n := DecodeUint32(stream[..4]);
      if n > limit || |stream| < PREFIX_LENGTH + n then Cut([], stream, n > limit)
      else Push(stream[4..PREFIX_LENGTH + n], Split(limit, stream[PREFIX_LENGTH + n..]))
  }

  function Push(frame: Data, c: Cut): Cut { c.(frames := [frame] + c.frames) }

  /** The cut `d` of what was left over, after the frames of `c`. */
  function Then(c: Cut, d: Cut): Cut { d.(frames := c.frames + d.frames) }

  /** A whole frame within the limit is at the front. */
  predicate StartsWithFrame(limit: nat, stream: Data) {
    |stream| >= PREFIX_LENGTH && DecodeUint32(stream[..4]) <= limit &&
    |stream| >= PREFIX_LENGTH + DecodeUint32(stream[..4])
  }

  lemma SliceOfLonger(a: Data, b: Data, m: nat)
    requires 4 <= m <= |a|
    ensures (a + b)[..4] == a[..4] && (a + b)[4..m] == a[4..m] && (a + b)[m..] == a[m..] + b
  {
  }

  lemma PushThen(frame: Data, c: Cut, d: Cut)
    ensures Push(frame, Then(c, d)) == Then(Push(frame, c), d)
  {
    assert [frame] + (c.frames + d.frames) == [frame] + c.frames + d.frames;
  }

  /** Splitting a longer stream continues where the shorter one stopped. */
  lemma {:induction false} SplitExtends(limit: nat, a: Data, b: Data)
    requires !Split(limit, a).tooLong
    ensures Split(limit, a + b) == Then(Split(limit, a), Split(limit, Split(limit, a).rest + b))
    decreases |a|
  {
    if StartsWithFrame(limit, a) {
      var m := PREFIX_LENGTH + DecodeUint32(a[..4]);
      SliceOfLonger(a, b, m);
      SplitExtends(limit, a[m..], b);
      var c := Split(limit, a[m..]);
      PushThen(a[4..m], c, Split(limit, c.rest + b));
    } else {
      var d := Split(limit, a + b);
      assert [] + d.frames == d.frames;
    }
  }

  /** After a refused length nothing more is split off. */
  lemma {:induction false} TooLongIsFinal(limit: nat, a: Data, b: Data)
    requires Split(limit, a).tooLong
    ensures Split(limit, a + b).tooLong && Split(limit, a + b).frames == Split(limit, a).frames
    decreases |a|
  {
    if StartsWithFrame(limit, a) {
      var m := PREFIX_LENGTH + DecodeUint32(a[..4]);
      SliceOfLonger(a, b, m);
      TooLongIsFinal(limit, a[m..], b);
    } else {
      SliceOfLonger(a, b, 4);
    }
  }

  lemma FrameRejoins(limit: nat, stream: Data)
    requires StartsWithFrame(limit, stream)
    ensures var m := PREFIX_LENGTH + DecodeUint32(stream[..4]);
      BuildFramedPayload(true, stream[4..m]) + stream[m..] == stream
  {
    var m := PREFIX_LENGTH + DecodeUint32(stream[..4]);
    EncodeDecode(stream[..4]);
    assert |stream[4..m]| == DecodeUint32(stream[..4]);
    assert BuildFramedPayload(true, stream[4..m]) == stream[..4] + stream[4..m];
    Reassemble(stream, m);
  }

  lemma Reassemble(s: Data, m: nat)
    requires 4 <= m <= |s|
    ensures (s[..4] + s[4..m]) + s[m..] == s
  {
  }

  lemma FramesPush(frame: Data, more: seq<Data>, rest: Data)
    ensures Concat(Frames([frame] + more)) + rest == BuildFramedPayload(true, frame) + (Concat(Frames(more)) + rest)
  {
    assert ([frame] + more)[1..] == more;
    var all := Frames([frame] + more);
    assert all[1..] == Frames(more);
    Regroup(all[0], Concat(all[1..]), rest);
  }

  /** Every frame is within the limit, and framing the frames again restores the stream. */
  lemma {:induction false} SplitRejoins(limit: nat, stream: Data)
    ensures var c := Split(limit, stream);
      (forall i :: 0 <= i < |c.frames| ==> |c.frames[i]| <= limit) && Concat(Frames(c.frames)) + c.rest == stream
    decreases |stream|
  {
    if StartsWithFrame(limit, stream) {
      var m := PREFIX_LENGTH + DecodeUint32(stream[..4]);
      var more := Split(limit, stream[m..]);
      SplitRejoins(limit, stream[m..]);
      FrameRejoins(limit, stream);
      FramesPush(stream[4..m], more.frames, more.rest);
    }
  }

  /** Less than one frame is left over, unless the next length is refused, which is so exactly if it is over the
      limit. */
  lemma {:induction false} RestIsIncomplete(limit: nat, stream: Data)
    ensures var c := Split(limit, stream);
      (!c.tooLong ==> |c.rest| <= limit + 3 && Split(limit, c.rest) == Cut([], c.rest, false)) &&
      (c.tooLong <==> |c.rest| >= PREFIX_LENGTH && DecodeUint32(c.rest[..4]) > limit)
    decreases |stream|
  {
    if |stream| >= PREFIX_LENGTH {
      var n := DecodeUint32(stream[..4]);
      if n <= limit && |stream| >= PREFIX_LENGTH + n {
        RestIsIncomplete(limit, stream[PREFIX_LENGTH + n..]);
      }
    }
  }

  lemma SplitOne(limit: nat, payload: Data, rest: Data)
    requires |payload| <= limit && |payload| < UINT32_SIZE
    ensures var more := Split(limit, rest);
      Split(limit, BuildFramedPayload(true, payload) + rest) == Cut([payload] + more.frames, more.rest, more.tooLong)
  {
    var s := BuildFramedPayload(true, payload) + rest;
    assert s[..4] == EncodeUint32(|payload|);
    DecodeEncode(|payload|);
    assert s[4..4 + |payload|] == payload && s[4 + |payload|..] == rest;
  }

  /** Framing a list of payloads within the limit and splitting the result gives the list back, with nothing left. */
  lemma {:induction false} FramingRoundTrip(limit: nat, payloads: seq<Data>)
    requires forall i :: 0 <= i < |payloads| ==> |payloads[i]| <= limit && |payloads[i]| < UINT32_SIZE
    ensures Split(limit, Concat(Frames(payloads))) == Cut(payloads, [], false)
  {
    if payloads != [] {
      FramingRoundTrip(limit, payloads[1..]);
      var frames := Frames(payloads);
      assert frames[0] == BuildFramedPayload(true, payloads[0]) && frames[1..] == Frames(payloads[1..]);
      SplitOne(limit, payloads[0], Concat(frames[1..]));
      assert payloads == [payloads[0]] + payloads[1..];
    }
  }

  /** A payload survives exactly when it is within the limit and its length fits the prefix:
      a longer one is announced with its length modulo 2^32. */
  lemma FramingRoundTripExactly(limit: nat, payload: Data)
    ensures Split(limit, BuildFramedPayload(true, payload)) == Cut([payload], [], false)
       <==> |payload| <= limit && |payload| < UINT32_SIZE
  {
    var s := BuildFramedPayload(true, payload);
    if |payload| <= limit && |payload| < UINT32_SIZE {
      assert s + [] == s;
      SplitOne(limit, payload, []);
    } else {
      assert s[..4] == EncodeUint32(ToUint32(|payload|));
      DecodeEncode(ToUint32(|payload|));
      var n := ToUint32(|payload|);
      if n <= limit {
        assert n < |payload|;
        assert |s[PREFIX_LENGTH..PREFIX_LENGTH + n]| == n;
      }
    }
  }

  // ---------- the one-shot decoder ----------

  /** What happens on one connection while it receives: a frame judged as a handshake, an error reported,
      the connection announced, a message delivered. */
  datatype Event = Attempt(frame: Data) | Error(message: string) | Announced | Message(frame: Data)

  /** `verdict` is the error a handshake frame is refused with, None when it is accepted. */
  datatype Gate = Gate(required: bool, verdict: Data -> Option<string>)

  datatype Outcome = Outcome(events: seq<Event>, rejected: bool)

  const TOO_LONG := Error("Frame length exceeded native limit")

  function Messages(frames: seq<Data>): seq<Event> {
    seq(|frames|, i requires 0 <= i < |frames| => Message(frames[i]))
  }

  /** The frames of a connection: the first is the handshake when one is required, all others are messages. */
  function Admit(gate: Gate, frames: seq<Data>): Outcome {
    if !gate.required then Outcome([Announced] + Messages(frames), false)
    else if frames == [] then Outcome([], false)
    else
      match gate.verdict(frames[0])
      case Some(e) => Outcome([Attempt(frames[0]), Error(e)], true)
      case None => Outcome([Attempt(frames[0]), Announced] + Messages(frames[1..]), false)
  }

  /** The whole stream at once. */
  function Decode(gate: Gate, limit: nat, stream: Data): Outcome {
    var cut := Split(limit, stream);
    var admitted := Admit(gate, cut.frames);
    if cut.tooLong && !admitted.rejected then Outcome(admitted.events + [TOO_LONG], true) else admitted
  }

  /** Whatever is refused is reported: a run is rejected if and only if there is an error, which is then the only one
      and the last thing that happens. It is the verdict on the first frame, when a handshake is required, or else the
      length beyond the limit behind the frames. */
  lemma ErrorEndsTheRun(gate: Gate, limit: nat, stream: Data)
    ensures var cut, outcome := Split(limit, stream), Decode(gate, limit, stream);
      var refused := gate.required && cut.frames != [] && gate.verdict(cut.frames[0]).Some?;
      (outcome.rejected <==> refused || cut.tooLong) && ErrorsOnlyAtTheEnd(outcome.events, outcome.rejected) &&
      (outcome.rejected ==>
         outcome.events[|outcome.events| - 1] ==
           if refused then Error(gate.verdict(cut.frames[0]).value) else Error("Frame length exceeded native limit"))
  {
  }

  predicate ErrorsOnlyAtTheEnd(events: seq<Event>, rejected: bool) {
    (rejected <==> events != [] && events[|events| - 1].Error?) &&
    forall i :: 0 <= i < |events| - 1 ==> !events[i].Error?
  }

  /** A frame is taken for a handshake exactly if it is the first and one is required, and before anything else; the
      connection is announced exactly if none is required or the first frame is accepted. */
  lemma OpeningExactly(gate: Gate, limit: nat, stream: Data)
    ensures var frames, events := Split(limit, stream).frames, Decode(gate, limit, stream).events;
      (forall i :: 0 <= i < |events| && events[i].Attempt? ==> i == 0 && gate.required) &&
      (gate.required ==> (frames != [] <==> events != [] && events[0].Attempt?)) &&
      (gate.required && frames != [] ==> events[0] == Attempt(frames[0])) &&
      (Announced in events <==> !gate.required || (frames != [] && gate.verdict(frames[0]).None?))
  {
    var frames, events := Split(limit, stream).frames, Decode(gate, limit, stream).events;
    if !gate.required {
      assert events[0] == Announced;
    } else if frames != [] && gate.verdict(frames[0]).None? {
      assert events[1] == Announced;
    }
  }

  /** One more frame. */
  lemma AdmitSnoc(gate: Gate, frames: seq<Data>, frame: Data)
    requires !Admit(gate, frames).rejected
    ensures var before := Admit(gate, frames).events;
      Admit(gate, frames + [frame]) ==
      if gate.required && frames == [] then
        match gate.verdict(frame)
        case Some(e) => Outcome(before + [Attempt(frame), Error(e)], true)
        case None => Outcome(before + [Attempt(frame), Announced], false)
      else Outcome(before + [Message(frame)], false)
  {
    var after := frames + [frame];
    assert Messages(after) == Messages(frames) + [Message(frame)];
    if frames != [] {
      assert after[1..] == frames[1..] + [frame];
      assert Messages(after[1..]) == Messages(frames[1..]) + [Message(frame)];
    } else {
      assert after[1..] == [];
    }
  }

  lemma AdmitPrefix(gate: Gate, frames: seq<Data>, more: seq<Data>)
    requires Admit(gate, frames).rejected
    ensures Admit(gate, frames + more) == Admit(gate, frames)
  {
  }

  /** Nothing after a rejection changes what the connection has made visible. */
  lemma RejectionIsFinal(gate: Gate, limit: nat, a: Data, b: Data)
    requires Decode(gate, limit, a).rejected
    ensures Decode(gate, limit, a + b) == Decode(gate, limit, a)
  {
    var c := Split(limit, a);
    if c.tooLong {
      TooLongIsFinal(limit, a, b);
    } else {
      SplitExtends(limit, a, b);
      AdmitPrefix(gate, c.frames, Split(limit, c.rest + b).frames);
    }
  }

  /** Payloads framed behind an opened connection's stream come out as exactly these messages, nothing left over. */
  lemma DeliversPayloads(gate: Gate, limit: nat, before: Data, payloads: seq<Data>)
    requires !Decode(gate, limit, before).rejected && Split(limit, before).rest == []
    requires gate.required ==> Split(limit, before).frames != []
    requires forall i :: 0 <= i < |payloads| ==> |payloads[i]| <= limit && |payloads[i]| < UINT32_SIZE
    ensures var stream := before + Concat(Frames(payloads));
      Decode(gate, limit, stream) == Outcome(Decode(gate, limit, before).events + Messages(payloads), false) &&
      Split(limit, stream).rest == []
  {
    var added := Concat(Frames(payloads));
    SplitExtends(limit, before, added);
    assert [] + added == added;
    FramingRoundTrip(limit, payloads);
    AdmitMore(gate, Split(limit, before).frames, payloads);
  }

  lemma AdmitMore(gate: Gate, frames: seq<Data>, more: seq<Data>)
    requires !Admit(gate, frames).rejected && (gate.required ==> frames != [])
    ensures Admit(gate, frames + more) == Outcome(Admit(gate, frames).events + Messages(more), false)
  {
    if gate.required {
      assert (frames + more)[1..] == frames[1..] + more;
      assert Messages(frames[1..] + more) == Messages(frames[1..]) + Messages(more);
    } else {
      assert Messages(frames + more) == Messages(frames) + Messages(more);
    }
  }

  // ---------- the handshake gate ----------

  function MessagesOf(events: seq<Event>): seq<Data> {
    if events == [] then []
    else if events[0].Message? then [events[0].frame] + MessagesOf(events[1..])
    else MessagesOf(events[1..])
  }

  /** At most one announcement, and no message before it. */
  predicate WellGated(events: seq<Event>) {
    (forall i, j :: 0 <= i < j < |events| && events[i] == Announced ==> events[j] != Announced) &&
    (forall j :: 0 <= j < |events| && events[j].Message? ==> exists i :: 0 <= i < j && events[i] == Announced)
  }

  lemma DecodeIsWellGated(gate: Gate, limit: nat, stream: Data)
    ensures WellGated(Decode(gate, limit, stream).events)
  {
    var events := Decode(gate, limit, stream).events;
    var at := if gate.required then 1 else 0;
    assert forall i :: 0 <= i < |events| && events[i] == Announced ==> i == at;
    forall j | 0 <= j < |events| && events[j].Message?
      ensures exists i :: 0 <= i < j && events[i] == Announced
    {
      assert events[at] == Announced && at < j;
    }
  }

  lemma {:induction false} MessagesOfMessages(before: seq<Event>, frames: seq<Data>, after: seq<Event>)
    requires MessagesOf(before) == [] && MessagesOf(after) == []
    ensures MessagesOf(before + (Messages(frames) + after)) == frames
    decreases |before| + |frames|
  {
    var events := before + (Messages(frames) + after);
    if before != [] {
      assert events[1..] == before[1..] + (Messages(frames) + after);
      MessagesOfMessages(before[1..], frames, after);
    } else if frames != [] {
      assert before + (Messages(frames) + after) == Messages(frames) + after;
      assert events[1..] == [] + (Messages(frames[1..]) + after);
      MessagesOfMessages([], frames[1..], after);
      assert frames == [frames[0]] + frames[1..];
    } else {
      assert events == after;
    }
  }

  /** The messages are the frames of the stream; when a handshake is required the first frame is not among them,
      and a refused connection has none. */
  lemma MessagesAreFrames(gate: Gate, limit: nat, stream: Data)
    ensures var frames := Split(limit, stream).frames;
      MessagesOf(Decode(gate, limit, stream).events) ==
      if !gate.required then frames
      else if frames == [] || gate.verdict(frames[0]).Some? then []
      else frames[1..]
  {
    var cut := Split(limit, stream);
    var frames := cut.frames;
    var last := if cut.tooLong && !Admit(gate, frames).rejected then [TOO_LONG] else [];
    var events := Decode(gate, limit, stream).events;
    if !gate.required {
      assert events == [Announced] + (Messages(frames) + last);
      MessagesOfMessages([Announced], frames, last);
    } else if frames != [] && gate.verdict(frames[0]).None? {
      var opening := [Attempt(frames[0]), Announced];
      assert events == opening + (Messages(frames[1..]) + last);
      assert opening[1..] == [Announced];
      MessagesOfMessages(opening, frames[1..], last);
    } else if frames != [] {
      var refusal := [Error(gate.verdict(frames[0]).value)];
      assert MessagesOf(refusal) == [];
      assert events[1..] == refusal;
    }
  }
}
