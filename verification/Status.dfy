/** The lws status protocol: every session is told the list of live sessions, one fragment at a time, and told
    again whenever the list has changed. */
module Status {
  import opened Wrappers
  import opened SessionList

  datatype Walk = WalkNone | WalkInitial | WalkList | WalkFinal

  /** What a frame carries: the opening of the text, one entry, what is left when the next entry has vanished,
      or the closing. */
  datatype Piece = Opening | Entry(peer: SessionId, comma: bool) | Vanished(comma: bool) | Closing

  datatype Opcode = TextFrame | Continuation

  datatype Frame = Frame(opcode: Opcode, fin: bool, piece: Piece)

  datatype Session = Session(
    walk: Walk, walkNext: Option<SessionId>, subsequent: bool, changedPartway: bool, frames: seq<Frame>)

  // ---------- fragmentation ----------

  /** Where a sequence of frames stands by the rules of section 5.4 of RFC 6455: between messages, with the pieces
      of the last complete one, or inside a message, with its pieces so far. */
  datatype Reading = Illegal | Between(last: seq<Piece>) | Inside(pieces: seq<Piece>)

  function Read(frames: seq<Frame>): Reading {
    if frames == [] then Between([]) else Advance(Read(frames[..|frames| - 1]), frames[|frames| - 1])
  }

  function Advance(r: Reading, f: Frame): Reading {
    match r
    case Illegal => Illegal
    case Between(_) =>
      if f.opcode != TextFrame then Illegal else if f.fin then Between([f.piece]) else Inside([f.piece])
    case Inside(pieces) =>
      if f.opcode != Continuation then Illegal
      else if f.fin then Between(pieces + [f.piece])
      else Inside(pieces + [f.piece])
  }

  lemma ReadSnoc(frames: seq<Frame>, f: Frame)
    ensures Read(frames + [f]) == Advance(Read(frames), f)
  {
    assert (frames + [f])[..|frames|] == frames;
  }

  /** The sessions a message lists, in order. */
  function Listing(pieces: seq<Piece>): seq<SessionId> {
    if pieces == [] then []
    else
      var before := Listing(pieces[..|pieces| - 1]);
      var p := pieces[|pieces| - 1];
      if p.Entry? then before + [p.peer] else before
  }

  /** Every entry after the first, and no other, is preceded by a comma, also if its session has vanished. */
  predicate Punctuated(pieces: seq<Piece>) {
    pieces == [] ||
    (Punctuated(pieces[..|pieces| - 1]) &&
     var p := pieces[|pieces| - 1];
     (p.Entry? || p.Vanished? ==> p.comma == (Listing(pieces[..|pieces| - 1]) != [])))
  }

  /** The opening, and then entries or what is left of them. */
  predicate Shaped(pieces: seq<Piece>) {
    pieces != [] && pieces[0] == Opening && forall i :: 1 <= i < |pieces| ==> pieces[i].Entry? || pieces[i].Vanished?
  }

  /** A whole message. */
  predicate Complete(pieces: seq<Piece>) {
    pieces != [] && pieces[|pieces| - 1] == Closing && Shaped(pieces[..|pieces| - 1])
  }

  /** The message that lists exactly these sessions. */
  function Report(live: seq<SessionId>): seq<Piece> { Opened(live) + [Closing] }

  function Opened(live: seq<SessionId>): seq<Piece> {
    [Opening] + seq(|live|, i requires 0 <= i < |live| => Entry(live[i], i > 0))
  }

  /** A message in which nobody has vanished is determined by the sessions it lists. */
  lemma {:induction false} OpenedExactly(pieces: seq<Piece>)
    requires Shaped(pieces) && Punctuated(pieces) && !HasVanished(pieces)
    ensures pieces == Opened(Listing(pieces))
    decreases |pieces|
  {
    var p := pieces[|pieces| - 1];
    var before := pieces[..|pieces| - 1];
    assert pieces == before + [p];
    if before == [] {
      assert Listing(before) == [];
      assert pieces == [Opening];
    } else {
      assert p.Entry?;
      assert forall i :: 0 <= i < |before| ==> before[i] == pieces[i];
      OpenedExactly(before);
      var list := Listing(before);
      assert Opened(list + [p.peer]) == Opened(list) + [Entry(p.peer, |list| > 0)];
    }
  }

  lemma ReportExactly(pieces: seq<Piece>, live: seq<SessionId>)
    requires Complete(pieces) && Punctuated(pieces) && !HasVanished(pieces) && Listing(pieces) == live
    ensures pieces == Report(live)
  {
    var before := pieces[..|pieces| - 1];
    PieceSnoc(before, Closing);
    assert pieces == before + [Closing];
    OpenedExactly(before);
  }

  lemma PieceSnoc(pieces: seq<Piece>, p: Piece)
    ensures Listing(pieces + [p]) == if p.Entry? then Listing(pieces) + [p.peer] else Listing(pieces)
    ensures Punctuated(pieces + [p]) ==
      (Punctuated(pieces) && (p.Entry? || p.Vanished? ==> p.comma == (Listing(pieces) != [])))
    ensures HasVanished(pieces + [p]) == (HasVanished(pieces) || p.Vanished?)
    ensures Shaped(pieces) && (p.Entry? || p.Vanished?) ==> Shaped(pieces + [p])
    ensures pieces == [] && p == Opening ==> Shaped(pieces + [p])
    ensures Shaped(pieces) && p == Closing ==> Complete(pieces + [p])
  {
    var longer := pieces + [p];
    assert longer[..|pieces|] == pieces;
    assert longer[|pieces|] == p && forall i :: 0 <= i < |pieces| ==> longer[i] == pieces[i];
  }

  // ---------- a session against the live list ----------

  /** A walk that has not been disturbed has listed a prefix of the live list and is about to list the rest. */
  predicate InStep(s: Session, pieces: seq<Piece>, live: seq<SessionId>) {
    match s.walk
    case WalkList =>
      var k := |Listing(pieces)|;
      k < |live| && Listing(pieces) == live[..k] && s.walkNext == Some(live[k])
    case _ => Listing(pieces) == live
  }

  predicate Sound(s: Session, live: seq<SessionId>) {
    match s.walk
    case WalkNone =>
      Read(s.frames).Between? && !s.changedPartway && Complete(Read(s.frames).last) &&
      Punctuated(Read(s.frames).last) && !HasVanished(Read(s.frames).last) && InStep(s, Read(s.frames).last, live)
    case WalkInitial =>
      Read(s.frames).Between? && !s.subsequent && (s.frames == [] || Complete(Read(s.frames).last))
    case _ =>
      Read(s.frames).Inside? && Shaped(Read(s.frames).pieces) && Punctuated(Read(s.frames).pieces) &&
      s.subsequent == (Listing(Read(s.frames).pieces) != [] || HasVanished(Read(s.frames).pieces)) &&
      (HasVanished(Read(s.frames).pieces) ==> s.walk == WalkFinal && s.changedPartway) &&
      (s.walk == WalkList ==> s.walkNext.Some?) &&
      (!s.changedPartway ==> InStep(s, Read(s.frames).pieces, live))
  }

  /** A session at rest was last sent exactly the report of the live list. */
  predicate Informed(s: Session, live: seq<SessionId>) {
    s.walk == WalkNone && Read(s.frames) == Between(Report(live))
  }

  lemma AtRest(s: Session, live: seq<SessionId>)
    requires Sound(s, live) && s.walk == WalkNone
    ensures Informed(s, live) && Listing(Read(s.frames).last) == live
  {
    ReportExactly(Read(s.frames).last, live);
  }

  predicate HasVanished(pieces: seq<Piece>) { exists i :: 0 <= i < |pieces| && pieces[i].Vanished? }

  /** Callbacks left until the session is at rest, if the list stays as it is. */
  function Measure(s: Session, live: seq<SessionId>): nat {
    (if s.changedPartway then |live| + 4 else 0) +
    match s.walk
    case WalkNone => 0
    case WalkInitial => |live| + 3
    case WalkList => 2 + Ahead(s.walkNext, live)
    case WalkFinal => 1
  }

  /** Entries from `next` on; none when it is not in the list. */
  function Ahead(next: Option<SessionId>, live: seq<SessionId>): (n: nat)
    ensures n <= |live|
  {
    if live == [] then 0 else if next == Some(live[0]) then |live| else Ahead(next, live[1..])
  }

  lemma {:induction false} AheadAt(live: seq<SessionId>, k: nat)
    requires Distinct(live) && k < |live|
    ensures Ahead(Some(live[k]), live) == |live| - k
  {
    if k > 0 {
      assert Distinct(live[1..]);
      AheadAt(live[1..], k - 1);
    }
  }

  function Head(live: seq<SessionId>): Option<SessionId> { if live == [] then None else Some(live[0]) }

  /** What `trigger_resend` does to one session. */
  function Resend(s: Session, live: seq<SessionId>): Session {
    if s.walk == WalkNone then s.(subsequent := false, walkNext := Head(live), walk := WalkInitial)
    else s.(changedPartway := true)
  }

  const FRESH := Session(WalkNone, None, false, false, [])

  /** Once told of a change, a session is sound against whatever the list has become. */
  lemma ResendIsSound(s: Session, before: seq<SessionId>, live: seq<SessionId>)
    requires s == FRESH || Sound(s, before)
    ensures Sound(Resend(s, live), live) && Resend(s, live).walk != WalkNone
  {
  }

  class StatusVhost {
    var live: seq<SessionId>  // newest first
    var sessions: map<SessionId, Session>

    var pending: set<SessionId>  // the environment's side: sessions a writeable callback has been asked for
    var broken: set<SessionId>   // sessions with a failed write that are not closed yet

    constructor ()
      ensures Valid() && live == []
    {
      live, sessions, pending, broken := [], map[], {}, {};
    }

    /** Every session is sound, and one that is not at rest has a callback coming. */
    ghost predicate Valid()
      reads this
    {
      && Enumerates(live, sessions.Keys)
      && forall s :: s in sessions && s !in broken ==>
           Sound(sessions[s], live) && (sessions[s].walk != WalkNone ==> s in pending)
    }

    /** Tells every session that the list has changed. */
    method TriggerResend()
      requires Enumerates(live, sessions.Keys)
      modifies `sessions, `pending
      ensures sessions.Keys == old(sessions).Keys && pending == old(pending) + sessions.Keys
      ensures forall s :: s in sessions ==> sessions[s] == Resend(old(sessions)[s], live)
    {
      var i := 0;
      while i < |live|
        invariant i <= |live| && sessions.Keys == old(sessions).Keys && pending == old(pending)
        invariant forall s :: s in live[..i] ==> sessions[s] == Resend(old(sessions)[s], live)
        invariant forall s :: s in sessions && s !in live[..i] ==> sessions[s] == old(sessions)[s]
      {
        var s := live[i];
        NotBefore(live, i);
        var session := sessions[s];
        if session.walk == WalkNone {
          session := session.(subsequent := false, walkNext := Head(live), walk := WalkInitial);
        } else {
          session := session.(changedPartway := true);
        }
        assert session == Resend(sessions[s], live);
        sessions := sessions[s := session];
        i := i + 1;
      }
      assert live[..i] == live;
      pending := pending + sessions.Keys;
    }

    method Establish(s: SessionId)
      requires Valid() && s !in sessions
      modifies this
      ensures Valid() && live == [s] + old(live) && broken == old(broken) - {s}
      ensures sessions.Keys == old(sessions).Keys + {s} && sessions[s] == Resend(FRESH, live)
      ensures forall r :: r in old(sessions) ==> sessions[r] == Resend(old(sessions)[r], live)
    {
      ghost var before := live;
      EnumeratesPush(live, sessions.Keys, s);
      live := [s] + live;
      sessions := sessions[s := FRESH];
      assert sessions.Keys == old(sessions).Keys + {s};
      broken := broken - {s};
      ghost var told := sessions;
      TriggerResend();
      forall r | r in sessions && r !in broken
        ensures Sound(sessions[r], live)
      {
        ResendIsSound(told[r], before, live);
      }
    }

    method Close(s: SessionId)
      requires Valid() && s in sessions
      modifies this
      ensures Valid() && Without(old(live), s, live) && broken == old(broken) - {s}
      ensures sessions.Keys == old(sessions).Keys - {s}
      ensures forall r :: r in sessions ==> sessions[r] == Resend(old(sessions)[r], live)
    {
      hide Without, Unlink;
      ghost var before := live;
      UnlinkEnumerates(live, sessions.Keys, s);
      UnlinkKeepsOrder(live, s);
      live := Unlink(live, s);
      sessions := sessions - {s};
      assert sessions.Keys == old(sessions).Keys - {s};
      broken := broken - {s};
      ghost var told := sessions;
      TriggerResend();
      forall r | r in sessions && r !in broken
        ensures Sound(sessions[r], live)
      {
        ResendIsSound(told[r], before, live);
      }
    }

    /** SERVER_WRITEABLE; `answer` says whether the write is taken. A session that is not at rest comes closer to it. */
    method Writeable(s: SessionId, answer: bool) returns (ok: bool)
      requires Valid() && s in sessions && s !in broken
      modifies `sessions, `pending, `broken
      ensures Valid() && sessions == old(sessions)[s := sessions[s]]
      ensures ok == (answer || old(sessions)[s].walk == WalkNone)
      ensures broken == if ok then old(broken) else old(broken) + {s}
      ensures ok && old(sessions)[s].walk != WalkNone ==>
        Measure(sessions[s], live) < Measure(old(sessions)[s], live) &&
        exists f :: sessions[s].frames == old(sessions)[s].frames + [f]
      ensures old(sessions)[s].walk == WalkNone ==> sessions == old(sessions) && pending == old(pending) - {s}
    {
      pending := pending - {s};
      var session := sessions[s];
      if session.walk == WalkNone {
        return true;
      }
      var frame;
      session, frame := Step(session);
      ok := answer;
      if ok {
        session := session.(frames := session.frames + [frame]);
      } else {
        broken := broken + {s};
      }
      sessions := sessions[s := session];
      assert sessions.Keys == old(sessions).Keys;
      if session.walk != WalkNone {
        pending := pending + {s};
      }
    }

    /** The switch of SERVER_WRITEABLE: what is written next and the state it leaves. */
    method Step(session: Session) returns (after: Session, frame: Frame)
      requires session.walk != WalkNone && Sound(session, live) && live != [] && Distinct(live)
      ensures after.frames == session.frames
      ensures Sound(after.(frames := session.frames + [frame]), live)
      ensures Measure(after, live) < Measure(session, live)
    {
      match session.walk
      case WalkInitial =>
        after, frame := StepInitial(session);
      case WalkList =>
        after, frame := StepList(session);
      case WalkFinal =>
        after, frame := StepFinal(session);
    }

    method StepInitial(session: Session) returns (after: Session, frame: Frame)
      requires session.walk == WalkInitial && Sound(session, live) && live != [] && Distinct(live)
      ensures after.frames == session.frames
      ensures Sound(after.(frames := session.frames + [frame]), live)
      ensures Measure(after, live) < Measure(session, live)
    {
      frame := Frame(TextFrame, false, Opening);
      after := session.(walk := WalkList, walkNext := Head(live));
      ReadSnoc(session.frames, frame);
      PieceSnoc([], Opening);
      assert [] + [Opening] == [Opening];
      AheadAt(live, 0);
    }

    method StepList(session: Session) returns (after: Session, frame: Frame)
      requires session.walk == WalkList && Sound(session, live) && live != [] && Distinct(live)
      ensures after.frames == session.frames
      ensures Sound(after.(frames := session.frames + [frame]), live)
      ensures Measure(after, live) < Measure(session, live)
    {
      // The next entry is never null here, so the jump to the closing is dead.
      var target := session.walkNext.value;
      var comma := session.subsequent;
      after := session.(subsequent := true);
      var found, next, _ := FindAfter(target);
      ghost var pieces := Read(session.frames).pieces;
      if !found {
        frame := Frame(Continuation, false, Vanished(comma));
        after := after.(walk := WalkFinal, changedPartway := true);
      } else {
        frame := Frame(Continuation, false, Entry(target, comma));
        after := after.(walkNext := next, walk := if next.None? then WalkFinal else WalkList);
      }
      ReadSnoc(session.frames, frame);
      PieceSnoc(pieces, frame.piece);
    }

    /** Looks for a session in the live list and returns the one behind it. */
    method FindAfter(target: SessionId) returns (found: bool, next: Option<SessionId>, ghost at: nat)
      requires Distinct(live)
      ensures found == (target in live)
      ensures !found ==> Ahead(Some(target), live) == 0
      ensures found ==> at < |live| && live[at] == target && Ahead(Some(target), live) == |live| - at
      ensures found ==> next == if at + 1 < |live| then Some(live[at + 1]) else None
      ensures found && next.Some? ==> Ahead(next, live) == |live| - at - 1
    {
      var i := 0;
      while i < |live|
        invariant i <= |live| && target !in live[..i]
      {
        if live[i] == target {
          AheadAt(live, i);
          if i + 1 < |live| {
            AheadAt(live, i + 1);
          }
          return true, if i + 1 < |live| then Some(live[i + 1]) else None, i;
        }
        i := i + 1;
      }
      assert live[..i] == live;
      AheadMissing(target, live);
      return false, None, 0;
    }

    method StepFinal(session: Session) returns (after: Session, frame: Frame)
      requires session.walk == WalkFinal && Sound(session, live) && live != [] && Distinct(live)
      ensures after.frames == session.frames
      ensures Sound(after.(frames := session.frames + [frame]), live)
      ensures Measure(after, live) < Measure(session, live)
    {
      frame := Frame(Continuation, true, Closing);
      ReadSnoc(session.frames, frame);
      PieceSnoc(Read(session.frames).pieces, Closing);
      if session.changedPartway {
        after := session.(changedPartway := false, subsequent := false, walkNext := Head(live), walk := WalkInitial);
      } else {
        after := session.(walk := WalkNone);
      }
    }

    /** Left alone, with its writes taken, a session comes to rest, and the last message it was sent lists the
        live sessions, each once and in order. */
    method Settle(s: SessionId)
      requires Valid() && s in sessions && s !in broken
      modifies `sessions, `pending, `broken
      ensures Valid() && s in sessions && sessions[s].walk == WalkNone
      ensures Read(sessions[s].frames).Between? && Listing(Read(sessions[s].frames).last) == live
      ensures Informed(sessions[s], live)
    {
      while sessions[s].walk != WalkNone
        invariant Valid() && s in sessions && s !in broken
        decreases Measure(sessions[s], live)
      {
        var _ := Writeable(s, true);
      }
      AtRest(sessions[s], live);
    }

    /** While the list stays as it is, whichever session with a callback on its way is served next, the whole vhost
        comes to rest: then every session whose writes were taken was last sent exactly the live sessions, in order. */
    method SettleAll(answers: nat -> bool)
      requires Valid()
      modifies `sessions, `pending, `broken
      ensures Valid() && sessions.Keys == old(sessions).Keys
      ensures old(broken) <= broken && ((forall k :: answers(k)) ==> broken == old(broken))
      ensures forall s :: s in sessions && s !in broken ==>
        Informed(sessions[s], live) && Listing(Read(sessions[s].frames).last) == live
    {
      hide StatusVhost.Valid, Total;
      var k := 0;
      while exists s :: s in pending && s in sessions && s !in broken
        invariant Valid() && sessions.Keys == old(sessions).Keys
        invariant old(broken) <= broken && ((forall k :: answers(k)) ==> broken == old(broken))
        decreases Total(live, sessions, broken, live), |pending|
      {
        var s :| s in pending && s in sessions && s !in broken;
        ServeOne(s, answers(k));
        k := k + 1;
      }
      NobodyPending();
    }

    /** One callback on the way to rest. */
    method ServeOne(s: SessionId, answer: bool)
      requires Valid() && s in sessions && s !in broken && s in pending
      modifies `sessions, `pending, `broken
      ensures Valid() && sessions.Keys == old(sessions).Keys
      ensures old(broken) <= broken && (answer ==> broken == old(broken))
      ensures Total(live, sessions, broken, live) < old(Total(live, sessions, broken, live)) ||
        (Total(live, sessions, broken, live) == old(Total(live, sessions, broken, live)) && |pending| < old(|pending|))
    {
      hide Sound;
      ghost var before, gone := sessions, broken;
      var _ := Writeable(s, answer);
      assert sessions.Keys == before.Keys;
      if before[s].walk != WalkNone {
        TotalDrops(live, before, gone, sessions, broken, live, s);
      }
    }

    /** A session that is not broken and not at rest has a callback on its way. */
    lemma NobodyPending()
      requires Valid() && forall s :: s in sessions && s !in broken ==> s !in pending
      ensures forall s :: s in sessions && s !in broken ==>
        Informed(sessions[s], live) && Listing(Read(sessions[s].frames).last) == live
    {
      forall s | s in sessions && s !in broken
        ensures Informed(sessions[s], live) && Listing(Read(sessions[s].frames).last) == live
      {
        AtRest(sessions[s], live);
      }
    }
  }

  /** Callbacks left to all the sessions in `list` that are not broken. */
  function Total(list: seq<SessionId>, sessions: map<SessionId, Session>, broken: set<SessionId>,
                 live: seq<SessionId>): nat
  {
    if list == [] then 0
    else Total(list[1..], sessions, broken, live) + Share(list[0], sessions, broken, live)
  }

  function Share(s: SessionId, sessions: map<SessionId, Session>, broken: set<SessionId>, live: seq<SessionId>): nat {
    if s in sessions && s !in broken then Measure(sessions[s], live) else 0
  }

  /** The total goes down with the share of any one session, if no other share goes up. */
  lemma {:induction false} TotalDrops(
      list: seq<SessionId>, before: map<SessionId, Session>, gone: set<SessionId>,
      after: map<SessionId, Session>, gone': set<SessionId>, live: seq<SessionId>, s: SessionId)
    requires forall r :: r in list ==> Share(r, after, gone', live) <= Share(r, before, gone, live)
    ensures Total(list, after, gone', live) <= Total(list, before, gone, live)
    ensures s in list && Share(s, after, gone', live) < Share(s, before, gone, live) ==>
      Total(list, after, gone', live) < Total(list, before, gone, live)
  {
    if list != [] {
      TotalDrops(list[1..], before, gone, after, gone', live, s);
    }
  }

  /** A callback, or the arrival or departure of a session. */
  datatype Event = Join(s: SessionId) | Leave(s: SessionId) | Serve(s: SessionId, answer: bool)

  /** Every run: the frames of every session form fragmented messages, and a session at rest was last sent the whole
      live list, each session once and in order. A session whose write has failed gets no further callback. */
  method Run(v: StatusVhost, events: seq<Event>)
    requires v.Valid()
    modifies v
    ensures v.Valid()
    ensures forall s :: s in v.sessions && s !in v.broken ==> Read(v.sessions[s].frames) != Illegal
    ensures forall s :: s in v.sessions && s !in v.broken && Read(v.sessions[s].frames).Between? ==>
      v.sessions[s].frames == [] || Complete(Read(v.sessions[s].frames).last)
    ensures forall s :: s in v.sessions && s !in v.broken && v.sessions[s].walk == WalkNone ==>
      Informed(v.sessions[s], v.live) && Listing(Read(v.sessions[s].frames).last) == v.live
  {
    var i := 0;
    while i < |events|
      invariant v.Valid()
    {
      match events[i] {
        case Join(s) =>
          if s !in v.sessions {
            v.Establish(s);
          }
        case Leave(s) =>
          if s in v.sessions {
            v.Close(s);
          }
        case Serve(s, answer) =>
          if s in v.sessions && s !in v.broken {
            var _ := v.Writeable(s, answer);
          }
      }
      i := i + 1;
    }
    forall s | s in v.sessions && s !in v.broken && v.sessions[s].walk == WalkNone
      ensures Informed(v.sessions[s], v.live) && Listing(Read(v.sessions[s].frames).last) == v.live
    {
      AtRest(v.sessions[s], v.live);
    }
  }

  lemma {:induction false} AheadMissing(target: SessionId, live: seq<SessionId>)
    requires target !in live
    ensures Ahead(Some(target), live) == 0
  {
    if live != [] {
      AheadMissing(target, live[1..]);
    }
  }
}
