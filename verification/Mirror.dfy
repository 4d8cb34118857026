/** The lws mirror protocol: what one session receives is inserted into a ring that every session reads
    at its own pace. A mirror instance lives from its first session to the departure of its last. */
module Mirror {
  import opened Bytes
  import opened Wrappers
  import opened Ring
  import opened SessionList

  const QUEUELEN := 32
  const RXFLOW_MIN := 4
  const RXFLOW_MAX := 2 * QUEUELEN / 3

  /** Per-session data: the reader's position in the ring, whether the session's rx flow is on, and what has been
      written to its socket. */
  datatype Session = Session(tail: nat, rxOn: bool, written: seq<Data>)

  /** What the socket does with one write: fail, or take it and then be choked or not. */
  datatype Answer = Failure | Written(choked: bool)

  /** How a callback that found `waiting` messages went, when it sent `n` of them: it goes on after every write but one
      that fails or leaves the pipe choked, and reports a failure exactly if it met one. */
  ghost predicate SentOff(answers: nat -> Answer, waiting: int, n: int, ok: bool) {
    0 <= n <= waiting &&
    (forall k :: 0 <= k < n - 1 ==> answers(k) == Written(false)) &&
    (n > 0 ==> answers(n - 1).Written?) &&
    (!ok <==> n < waiting && answers(n) == Failure && (n > 0 ==> answers(n - 1) == Written(false))) &&
    (ok ==> n == waiting || (n > 0 && answers(n - 1) == Written(true)))
  }

  // ---------- what the sessions have been sent ----------

  type Table = map<SessionId, Session>

  function PositionIn(sessions: Table, joined: map<SessionId, nat>, s: SessionId): nat
    requires s in sessions && s in joined
  {
    joined[s] + |sessions[s].written|
  }

  /** The reader `session` began at message `start`, has been sent exactly the messages up to its tail,
      and nothing from its tail on has been reclaimed. */
  predicate Reads(log: seq<Data>, oldest: nat, session: Session, start: nat) {
    var position := start + |session.written|;
    oldest <= position <= |log| && session.tail == Slot(position, QUEUELEN) && session.written == log[start..position]
  }

  ghost predicate DeliveredIn(log: seq<Data>, oldest: nat, sessions: Table, joined: map<SessionId, nat>) {
    sessions.Keys == joined.Keys && forall s :: s in sessions ==> Reads(log, oldest, sessions[s], joined[s])
  }

  /** Some session is still at the oldest tail. */
  ghost predicate TightIn(oldest: nat, sessions: Table, joined: map<SessionId, nat>) {
    sessions == map[] || exists s :: s in sessions && s in joined && PositionIn(sessions, joined, s) == oldest
  }

  /** Same sessions, same readers; rx flow may differ. */
  ghost predicate SameReaders(before: Table, after: Table) {
    before.Keys == after.Keys && forall s :: s in after ==> after[s].(rxOn := true) == before[s].(rxOn := true)
  }

  lemma SameReadersRead(log: seq<Data>, oldest: nat, before: Table, after: Table, joined: map<SessionId, nat>)
    requires SameReaders(before, after)
    ensures DeliveredIn(log, oldest, before, joined) ==> DeliveredIn(log, oldest, after, joined)
    ensures TightIn(oldest, before, joined) ==> TightIn(oldest, after, joined)
  {
    forall s | s in after
      ensures after[s].tail == before[s].tail && after[s].written == before[s].written
    {
      SameReaderSame(before, after, s);
    }
    if TightIn(oldest, before, joined) && before != map[] {
      var s :| s in before && s in joined && PositionIn(before, joined, s) == oldest;
      assert PositionIn(after, joined, s) == oldest;
    }
  }

  lemma SameReadersSelf(sessions: Table)
    ensures SameReaders(sessions, sessions)
  {
  }

  lemma SameReaderSame(before: Table, after: Table, s: SessionId)
    requires SameReaders(before, after) && s in after
    ensures after[s].written == before[s].written && after[s].tail == before[s].tail
  {
    assert after[s].(rxOn := true).tail == before[s].(rxOn := true).tail;
  }

  lemma InsertedRead(log: seq<Data>, message: Data, oldest: nat, sessions: Table, joined: map<SessionId, nat>)
    requires DeliveredIn(log, oldest, sessions, joined)
    ensures DeliveredIn(log + [message], oldest, sessions, joined)
  {
    forall s | s in sessions
      ensures Reads(log + [message], oldest, sessions[s], joined[s])
    {
      var position := joined[s] + |sessions[s].written|;
      assert (log + [message])[joined[s]..position] == log[joined[s]..position];
    }
  }

  lemma ReclaimedRead(log: seq<Data>, oldest: nat, oldest': nat, sessions: Table, joined: map<SessionId, nat>)
    requires DeliveredIn(log, oldest, sessions, joined)
    requires forall s :: s in sessions ==> oldest' <= PositionIn(sessions, joined, s)
    ensures DeliveredIn(log, oldest', sessions, joined)
  {
    forall s | s in sessions
      ensures Reads(log, oldest', sessions[s], joined[s])
    {
      assert Reads(log, oldest, sessions[s], joined[s]) && oldest' <= PositionIn(sessions, joined, s);
    }
  }

  lemma JoinedRead(log: seq<Data>, oldest: nat, sessions: Table, joined: map<SessionId, nat>, s: SessionId)
    requires DeliveredIn(log, oldest, sessions, joined) && oldest <= |log|
    ensures var sessions' := sessions[s := Session(Slot(oldest, QUEUELEN), true, [])];
      var joined' := joined[s := oldest];
      DeliveredIn(log, oldest, sessions', joined') && TightIn(oldest, sessions', joined')
  {
    hide Slot;
    var sessions', joined' := sessions[s := Session(Slot(oldest, QUEUELEN), true, [])], joined[s := oldest];
    assert log[oldest..oldest] == [];
    assert Reads(log, oldest, sessions'[s], joined'[s]);
    forall r | r in sessions'
      ensures r in joined' && Reads(log, oldest, sessions'[r], joined'[r])
    {
      if r != s {
        assert Reads(log, oldest, sessions[r], joined[r]);
      }
    }
    assert sessions'.Keys == sessions.Keys + {s} == joined'.Keys;
    assert PositionIn(sessions', joined', s) == oldest;
  }

  lemma SteppedRead(log: seq<Data>, oldest: nat, sessions: Table, joined: map<SessionId, nat>, s: SessionId, tail: nat)
    requires DeliveredIn(log, oldest, sessions, joined) && s in sessions
    requires var position := PositionIn(sessions, joined, s);
      position < |log| && tail == Slot(position + 1, QUEUELEN)
    ensures var position := PositionIn(sessions, joined, s);
      var moved := sessions[s].(tail := tail, written := sessions[s].written + [log[position]]);
      DeliveredIn(log, oldest, sessions[s := moved], joined)
  {
    var position := PositionIn(sessions, joined, s);
    assert Reads(log, oldest, sessions[s], joined[s]);
    assert log[joined[s]..position + 1] == log[joined[s]..position] + [log[position]];
  }

  /** A session that was not at the oldest tail moves on; whoever was there still is. */
  lemma OthersStay(oldest: nat, before: Table, joined: map<SessionId, nat>, s: SessionId, moved: Session)
    requires s in before && s in joined && PositionIn(before, joined, s) != oldest && TightIn(oldest, before, joined)
    ensures TightIn(oldest, before[s := moved], joined)
  {
    var h :| h in before && h in joined && PositionIn(before, joined, h) == oldest;
    assert PositionIn(before[s := moved], joined, h) == oldest;
  }

  // ---------- callbacks asked for, and timeouts ----------

  /** Who has something to read has a callback on its way, except a newcomer: nobody asks for one when a session
      joins, only when the next message arrives. */
  ghost predicate AskedIn(length: nat, sessions: Table, joined: map<SessionId, nat>, exempt: set<SessionId>,
                          pending: set<SessionId>)
  {
    forall s :: s in sessions && s in joined && s !in exempt && PositionIn(sessions, joined, s) < length ==>
      s in pending
  }

  /** Who has a timeout is at the oldest tail with something to read: it keeps an element from being recycled. */
  ghost predicate TimedIn(oldest: nat, length: nat, sessions: Table, joined: map<SessionId, nat>,
                          broken: set<SessionId>, timed: set<SessionId>)
  {
    forall s :: s in timed && s !in broken ==>
      s in sessions && s in joined && PositionIn(sessions, joined, s) == oldest < length
  }

  lemma SameReadersAsked(oldest: nat, length: nat, before: Table, after: Table, joined: map<SessionId, nat>)
    requires SameReaders(before, after)
    ensures forall a, b :: AskedIn(length, before, joined, a, b) ==> AskedIn(length, after, joined, a, b)
    ensures forall a, b ::
      TimedIn(oldest, length, before, joined, a, b) ==> TimedIn(oldest, length, after, joined, a, b)
  {
    forall s | s in after
      ensures |after[s].written| == |before[s].written|
    {
      SameReaderSame(before, after, s);
    }
  }

  /** One session has been sent something: the others are as they were, and it is asked for again if there is more. */
  lemma MovedAsked(length: nat, before: Table, joined: map<SessionId, nat>, exempt: set<SessionId>,
                   pending: set<SessionId>, s: SessionId, moved: Session)
    requires AskedIn(length, before, joined, exempt, pending) && s in before && s in joined
    ensures AskedIn(length, before[s := moved], joined, exempt + {s}, pending - {s})
    ensures AskedIn(length, before[s := moved], joined, exempt - {s}, pending + {s})
    ensures PositionIn(before[s := moved], joined, s) >= length ==>
      AskedIn(length, before[s := moved], joined, exempt - {s}, pending - {s})
  {
    forall r | r in before && r != s && r in joined
      ensures PositionIn(before[s := moved], joined, r) == PositionIn(before, joined, r)
    {
    }
  }

  lemma MovedTimed(oldest: nat, length: nat, before: Table, joined: map<SessionId, nat>, broken: set<SessionId>,
                   timed: set<SessionId>, s: SessionId, moved: Session)
    requires TimedIn(oldest, length, before, joined, broken, timed) && s in before && s in joined && s !in broken
    ensures TimedIn(oldest, length, before[s := moved], joined, broken, timed - {s})
    ensures TimedIn(oldest, length, before[s := moved], joined, broken + {s}, timed)
    ensures PositionIn(before, joined, s) != oldest ==> timed - {s} == timed
  {
    forall r | r in before && r != s && r in joined
      ensures PositionIn(before[s := moved], joined, r) == PositionIn(before, joined, r)
    {
    }
  }

  /** While somebody with a timeout is at the oldest tail, the oldest tail cannot move. */
  lemma AdvancedTimed(oldest: nat, oldest': nat, length: nat, sessions: Table, joined: map<SessionId, nat>,
                      broken: set<SessionId>, timed: set<SessionId>)
    requires TimedIn(oldest, length, sessions, joined, broken, timed) && oldest <= oldest'
    requires sessions.Keys == joined.Keys && forall s :: s in sessions ==> oldest' <= PositionIn(sessions, joined, s)
    ensures TimedIn(oldest', length, sessions, joined, broken, timed)
  {
  }

  lemma JoinedNoted(oldest: nat, length: nat, sessions: Table, joined: map<SessionId, nat>, broken: set<SessionId>,
                    exempt: set<SessionId>, pending: set<SessionId>, timed: set<SessionId>, s: SessionId, new': Session)
    requires AskedIn(length, sessions, joined, exempt, pending)
    requires TimedIn(oldest, length, sessions, joined, broken, timed)
    requires s !in sessions && s !in joined
    ensures AskedIn(length, sessions[s := new'], joined[s := oldest], exempt + {s}, pending)
    ensures TimedIn(oldest, length, sessions[s := new'], joined[s := oldest], broken, timed)
  {
    forall r | r in sessions && r in joined
      ensures PositionIn(sessions[s := new'], joined[s := oldest], r) == PositionIn(sessions, joined, r)
    {
    }
  }

  lemma LeftRead(log: seq<Data>, oldest: nat, sessions: Table, joined: map<SessionId, nat>, s: SessionId)
    requires DeliveredIn(log, oldest, sessions, joined)
    ensures DeliveredIn(log, oldest, sessions - {s}, joined - {s})
  {
  }

  lemma LeftNoted(oldest: nat, length: nat, sessions: Table, joined: map<SessionId, nat>, broken: set<SessionId>,
                  exempt: set<SessionId>, pending: set<SessionId>, timed: set<SessionId>, s: SessionId)
    requires AskedIn(length, sessions, joined, exempt, pending)
    requires TimedIn(oldest, length, sessions, joined, broken, timed)
    ensures AskedIn(length, sessions - {s}, joined - {s}, exempt - {s}, pending - {s})
    ensures TimedIn(oldest, length, sessions - {s}, joined - {s}, broken - {s}, timed - {s})
  {
    forall r | r in sessions && r in joined && r != s
      ensures PositionIn(sessions - {s}, joined - {s}, r) == PositionIn(sessions, joined, r)
    {
    }
  }

  class MirrorInstance {
    const ring: LwsRing
    var list: seq<SessionId>  // newest first
    var sessions: Table
    var rxEnabled: bool

    ghost var joined: map<SessionId, nat>  // how many messages had been inserted where each session began
    var broken: set<SessionId>             // sessions with a failed write that are not closed yet

    // The environment's side.
    ghost var pending: set<SessionId>      // sessions a writeable callback has been asked for
    ghost var newcomers: set<SessionId>    // sessions that joined since everybody was last asked for, not served yet
    ghost var timed: set<SessionId>        // sessions that will be hung up on unless they send something

    constructor ()
      ensures Valid() && fresh(ring) && fresh(ring.buf)
      ensures list == [] && sessions == map[] && ring.log == [] && broken == {} && pending == newcomers == {}
    {
      ring := new LwsRing(QUEUELEN);
      list, sessions, rxEnabled, joined, broken := [], map[], true, map[], {};
      pending, newcomers, timed := {}, {}, {};
    }

    ghost predicate Delivered()
      reads `sessions, `joined, ring
    {
      ring.buf.Length == QUEUELEN && DeliveredIn(ring.log, ring.oldest, sessions, joined)
    }

    ghost predicate Tight()
      reads `sessions, `joined, ring
    {
      TightIn(ring.oldest, sessions, joined)
    }

    /** The list holds every session once. */
    ghost predicate Listed()
      reads `list, `sessions
    {
      Enumerates(list, sessions.Keys)
    }

    ghost function Position(s: SessionId): nat
      requires s in sessions && s in joined
      reads `sessions, `joined
    {
      PositionIn(sessions, joined, s)
    }

    ghost function Free(): int
      reads ring
    {
      QUEUELEN - 1 - (|ring.log| - ring.oldest)
    }

    /** The hysteresis of flow control. */
    ghost predicate Flow()
      reads `rxEnabled, `sessions, ring
    {
      && (rxEnabled ==> Free() >= RXFLOW_MIN && forall s :: s in sessions ==> sessions[s].rxOn)
      && (!rxEnabled ==> Free() < RXFLOW_MAX)
    }

    /** Who is asked for, and who is timed, is so for a reason. */
    ghost predicate Noted()
      reads `sessions, `joined, `broken, `pending, `newcomers, `timed, ring
    {
      AskedIn(|ring.log|, sessions, joined, broken + newcomers, pending) &&
      TimedIn(ring.oldest, |ring.log|, sessions, joined, broken, timed) &&
      newcomers !! pending && pending <= sessions.Keys
    }

    /** Everything but flow control and the place of the oldest tail. */
    ghost predicate Base()
      reads this, ring, ring.buf
    {
      ring.Valid() && Delivered() && Listed() && Noted() && broken <= sessions.Keys
    }

    ghost predicate Valid()
      reads this, ring, ring.buf
    {
      Base() && Flow() && (broken == {} ==> Tight())
    }

    /** What holds of every session, between any two callbacks. */
    lemma AtAnyTime()
      requires Valid()
      ensures sessions.Keys == joined.Keys && |ring.log| - ring.oldest <= QUEUELEN - 1
      ensures forall s :: s in sessions ==>
        joined[s] <= Position(s) <= |ring.log| && ring.oldest <= Position(s) &&
        sessions[s].written == ring.log[joined[s]..Position(s)]
      ensures forall s :: s in sessions && s !in broken && Position(s) < |ring.log| ==>
        (s in pending <==> s !in newcomers)
      ensures forall s :: s in timed && s !in broken ==> Slowest(s) && Position(s) < |ring.log|
      ensures rxEnabled ==> 31 - (|ring.log| - ring.oldest) >= 4 && forall s :: s in sessions ==> sessions[s].rxOn
      ensures !rxEnabled ==> 31 - (|ring.log| - ring.oldest) < 21
    {
      forall s | s in sessions
        ensures Reads(ring.log, ring.oldest, sessions[s], joined[s])
      {
      }
    }

    /** Whoever is asked for is there, and so is everybody who began somewhere. */
    lemma Noticed()
      requires Valid()
      ensures pending + broken <= sessions.Keys == joined.Keys
      ensures forall s :: s in sessions ==> s in list
    {
    }

    /** Nothing a session has yet to read has been reclaimed. */
    lemma NotBehind(s: SessionId)
      requires Valid() && s in sessions
      ensures s in joined && ring.oldest <= Position(s)
    {
      AtAnyTime();
    }

    /** Turns receiving on or off for every session. */
    method RxFlowInstance(enable: bool)
      requires Listed()
      modifies `sessions, `rxEnabled
      ensures rxEnabled == enable && Listed() && SameReaders(old(sessions), sessions)
      ensures sessions.Keys == old(sessions).Keys
      ensures forall s :: s in sessions ==> sessions[s].rxOn == enable
    {
      var i := 0;
      while i < |list|
        invariant i <= |list| && SameReaders(old(sessions), sessions)
        invariant forall s :: s in list[..i] ==> s in sessions && sessions[s].rxOn == enable
      {
        var s := list[i];
        NotBefore(list, i);
        sessions := sessions[s := sessions[s].(rxOn := enable)];
        i := i + 1;
      }
      assert list[..i] == list;
      rxEnabled := enable;
    }

    /** The least position among the sessions; a tie goes to the session later in the list. */
    method FindWorst() returns (found: bool, longest: nat, worstTail: nat, ghost worst: nat)
      requires Base()
      ensures found == (sessions != map[])
      ensures found ==> ring.At(worstTail, worst) && longest == |ring.log| - worst
      ensures found ==> exists s :: s in sessions && Position(s) == worst
      ensures found ==> forall s :: s in sessions ==> worst <= Position(s)
    {
      found, longest, worstTail, worst := false, 0, 0, 0;
      var i := 0;
      while i < |list|
        invariant i <= |list| && found == (i > 0)
        invariant found ==> ring.At(worstTail, worst) && longest == |ring.log| - worst
        invariant found ==> exists s :: s in sessions && Position(s) == worst
        invariant !found ==> longest == 0
        invariant forall k :: 0 <= k < i ==> list[k] in sessions && worst <= Position(list[k])
      {
        var s := list[i];
        assert s in list && s in sessions;
        var waiting := Waiting(s);
        if waiting >= longest {
          longest, worstTail, worst, found := waiting, sessions[s].tail, Position(s), true;
        }
        i := i + 1;
      }
      assert forall s :: s in sessions ==> s in list;
    }

    method Waiting(s: SessionId) returns (waiting: nat)
      requires ring.Valid() && Delivered() && s in sessions
      ensures ring.At(sessions[s].tail, Position(s)) && waiting == |ring.log| - Position(s)
    {
      assert Reads(ring.log, ring.oldest, sessions[s], joined[s]);
      waiting := ring.CountWaiting(sessions[s].tail, Position(s));
    }

    /** Session `s` is at the oldest tail. */
    ghost predicate Slowest(s: SessionId)
      reads `sessions, `joined, ring
    {
      s in sessions && s in joined && Position(s) == ring.oldest
    }

    /** Moves the oldest tail up to the slowest sessions and, if that made enough room, turns receiving on again.
        When the oldest tail has moved and the slowest have something to read, they get a timeout. */
    method UpdateWorstTail() returns (changed: bool)
      requires Base() && Flow()
      modifies ring, ring.buf, `sessions, `rxEnabled, `timed
      ensures Base() && Flow() && Tight()
      ensures ring.log == old(ring.log) && SameReaders(old(sessions), sessions)
      ensures changed == (ring.oldest > old(ring.oldest)) && ring.oldest >= old(ring.oldest) && old(timed) <= timed
      ensures changed && ring.oldest < |ring.log| ==> forall s :: Slowest(s) ==> s in timed
      ensures Switched(old(rxEnabled), old(sessions), old(rxEnabled) || Free() >= RXFLOW_MAX)
    {
      hide MirrorInstance.Base, MirrorInstance.Flow, MirrorInstance.Tight, SameReaders;
      SameReadersSelf(sessions);
      var longest, worstTail;
      changed, longest, worstTail := MoveOldestTail();
      if changed {
        MaybeEnable();
        if longest > 0 {
          Hurry(worstTail);
        }
      } else if !rxEnabled {
        NotYetFree();
      }
    }

    method MoveOldestTail() returns (changed: bool, longest: nat, worstTail: nat)
      requires Base() && Flow()
      modifies ring, ring.buf
      ensures Base() && Tight() && ring.log == old(ring.log) && (rxEnabled || !changed ==> Flow())
      ensures changed == (ring.oldest > old(ring.oldest)) && ring.oldest >= old(ring.oldest)
      ensures changed ==> longest == |ring.log| - ring.oldest && worstTail == ring.oldestTail
    {
      hide MirrorInstance.Base, MirrorInstance.Flow;
      var found;
      ghost var worst;
      found, longest, worstTail, worst := FindWorst();
      changed := false;
      if found {
        changed := AdvanceOldest(worstTail, worst);
      }
    }

    method AdvanceOldest(tail: nat, ghost position: nat) returns (changed: bool)
      requires Base() && Flow() && ring.At(tail, position)
      requires forall s :: s in sessions ==> position <= Position(s)
      requires exists s :: s in sessions && Position(s) == position
      modifies ring, ring.buf
      ensures Base() && Tight() && ring.log == old(ring.log)
      ensures ring.oldest == position >= old(ring.oldest) && ring.oldestTail == tail
      ensures changed == (ring.oldest != old(ring.oldest)) && (rxEnabled || !changed ==> Flow())
    {
      hide AskedIn, TimedIn;
      var oldest := ring.oldestTail;
      SlotDistance(ring.oldest, position, QUEUELEN);
      ReclaimedRead(ring.log, ring.oldest, position, sessions, joined);
      AdvancedTimed(ring.oldest, position, |ring.log|, sessions, joined, broken, timed);
      ring.UpdateOldestTail(tail, position);
      changed := oldest != ring.oldestTail;
    }

    /** Receiving is `enable` now; the flow of the sessions has been switched if that is a change, and only then. */
    ghost predicate Switched(before: bool, sessions0: Table, enable: bool)
      reads `rxEnabled, `sessions
    {
      rxEnabled == enable &&
      if before == enable then sessions == sessions0 else forall s :: s in sessions ==> sessions[s].rxOn == enable
    }

    lemma NotYetFree()
      requires Flow() && !rxEnabled
      ensures Free() < RXFLOW_MAX
    {
    }

    /** Turns receiving on again once there is enough room. */
    method MaybeEnable()
      requires Base() && Tight() && (rxEnabled ==> Flow())
      modifies `sessions, `rxEnabled
      ensures Base() && Tight() && Flow() && SameReaders(old(sessions), sessions)
      ensures Switched(old(rxEnabled), old(sessions), old(rxEnabled) || Free() >= RXFLOW_MAX)
    {
      if !rxEnabled {
        var free := ring.CountFree();
        if free >= RXFLOW_MAX {
          SwitchFlow(true);
        }
      }
    }

    /** Switching the flow touches nobody's position. */
    method SwitchFlow(enable: bool)
      requires Base()
      modifies `sessions, `rxEnabled
      ensures Base() && (old(Tight()) ==> Tight()) && sessions.Keys == old(sessions).Keys
      ensures rxEnabled == enable && SameReaders(old(sessions), sessions)
      ensures forall s :: s in sessions ==> sessions[s].rxOn == enable
    {
      hide AskedIn, TimedIn, DeliveredIn, TightIn, SameReaders, Enumerates, LwsRing.Valid;
      ghost var before := sessions;
      RxFlowInstance(enable);
      SameReadersRead(ring.log, ring.oldest, before, sessions, joined);
      SameReadersAsked(ring.oldest, |ring.log|, before, sessions, joined);
    }

    /** The slowest sessions get a timeout. */
    method Hurry(worstTail: nat)
      requires Base() && worstTail == ring.oldestTail && ring.oldest < |ring.log|
      modifies `timed
      ensures Base() && old(timed) <= timed && forall s :: Slowest(s) ==> s in timed
    {
      hide MirrorInstance.Base, MirrorInstance.Slowest;
      var i := 0;
      while i < |list|
        invariant i <= |list| && Base() && old(timed) <= timed
        invariant forall k :: 0 <= k < i && Slowest(list[k]) ==> list[k] in timed
      {
        AtSlowest(list[i]);
        if sessions[list[i]].tail == worstTail {
          HurryOne(list[i]);
        }
        i := i + 1;
      }
      AllListed();
    }

    method HurryOne(s: SessionId)
      requires Base() && Slowest(s) && ring.oldest < |ring.log|
      modifies `timed
      ensures Base() && timed == old(timed) + {s}
    {
      timed := timed + {s};
    }

    lemma AtSlowest(s: SessionId)
      requires Base() && s in list
      ensures s in sessions && (sessions[s].tail == ring.oldestTail <==> Slowest(s))
    {
      assert Reads(ring.log, ring.oldest, sessions[s], joined[s]);
      SlotDistance(ring.oldest, Position(s), QUEUELEN);
    }

    lemma AllListed()
      requires Base()
      ensures forall s :: Slowest(s) ==> s in list
    {
    }

    // ---------- the callbacks ----------

    /** ESTABLISHED: a new session begins at the oldest message still there; nobody asks for a callback. */
    method Establish(s: SessionId)
      requires Valid() && s !in sessions
      modifies `list, `sessions, `joined, `newcomers
      ensures Valid() && list == [s] + old(list)
      ensures sessions == old(sessions)[s := Session(ring.oldestTail, true, [])]
      ensures joined == old(joined)[s := ring.oldest] && newcomers == old(newcomers) + {s}
    {
      hide LwsRing.Valid, DeliveredIn, TightIn, Enumerates, AskedIn, TimedIn;
      JoinedReady(s);
      list := [s] + list;
      sessions := sessions[s := Session(ring.oldestTail, true, [])];
      joined := joined[s := ring.oldest];
      newcomers := newcomers + {s};
      assert sessions.Keys == old(sessions).Keys + {s};
      assert broken + newcomers == old(broken + newcomers) + {s};
    }

    lemma JoinedReady(s: SessionId)
      requires Valid() && s !in sessions
      ensures var sessions', joined' := sessions[s := Session(ring.oldestTail, true, [])], joined[s := ring.oldest];
        DeliveredIn(ring.log, ring.oldest, sessions', joined') && TightIn(ring.oldest, sessions', joined') &&
        AskedIn(|ring.log|, sessions', joined', broken + newcomers + {s}, pending) &&
        TimedIn(ring.oldest, |ring.log|, sessions', joined', broken, timed)
      ensures Enumerates([s] + list, sessions.Keys + {s})
    {
      EnumeratesPush(list, sessions.Keys, s);
      JoinedRead(ring.log, ring.oldest, sessions, joined, s);
      assert ring.oldestTail == Slot(ring.oldest, QUEUELEN);
      JoinedNoted(ring.oldest, |ring.log|, sessions, joined, broken, broken + newcomers, pending, timed, s,
                  Session(ring.oldestTail, true, []));
    }

    /** CLOSED. When the last session has left, the instance is destroyed. */
    method Close(s: SessionId)
      requires Valid() && s in sessions
      modifies this, ring, ring.buf
      ensures Valid() && Tight() && broken == old(broken) - {s} && Without(old(list), s, list)
      ensures ring.log == old(ring.log) && ring.oldest >= old(ring.oldest)
      ensures SameReaders(old(sessions) - {s}, sessions) && joined == old(joined) - {s}
      ensures pending == old(pending) - {s} && newcomers == old(newcomers) - {s}
      ensures Switched(old(rxEnabled), old(sessions) - {s}, old(rxEnabled) || Free() >= RXFLOW_MAX)
    {
      hide MirrorInstance.Base, MirrorInstance.Flow, MirrorInstance.Tight, Without, SameReaders;
      Detach(s);
      SameReadersSelf(sessions);
      if list != [] {
        var _ := UpdateWorstTail();
      } else {
        NobodyLeft();
        if !rxEnabled {
          NotYetFree();
        }
      }
    }

    lemma NobodyLeft()
      requires Base() && list == []
      ensures Tight()
    {
      assert sessions == map[] by {
        assert forall r :: r in sessions ==> r in list;
      }
    }

    method Detach(s: SessionId)
      requires Base() && Flow() && s in sessions
      modifies `list, `sessions, `joined, `broken, `pending, `newcomers, `timed
      ensures Base() && Flow() && broken == old(broken) - {s}
      ensures sessions == old(sessions) - {s} && joined == old(joined) - {s} && Without(old(list), s, list)
      ensures pending == old(pending) - {s} && newcomers == old(newcomers) - {s}
    {
      hide Without, Unlink, AskedIn, TimedIn, DeliveredIn, LwsRing.Valid;
      LeftRead(ring.log, ring.oldest, sessions, joined, s);
      UnlinkEnumerates(list, sessions.Keys, s);
      UnlinkKeepsOrder(list, s);
      LeftNoted(ring.oldest, |ring.log|, sessions, joined, broken, broken + newcomers, pending, timed, s);
      list := Unlink(list, s);
      sessions, joined, broken := sessions - {s}, joined - {s}, broken - {s};
      pending, newcomers, timed := pending - {s}, newcomers - {s}, timed - {s};
      assert sessions.Keys == old(sessions).Keys - {s};
      assert broken + newcomers == old(broken + newcomers) - {s};
    }

    /** SERVER_WRITEABLE. The k-th write of the callback is answered by `answers(k)`. A session that is not done asks
        for another callback; one that was at the oldest tail and has sent something loses its timeout. */
    method Writeable(s: SessionId, answers: nat -> Answer) returns (ok: bool)
      requires Valid() && s in sessions && s !in broken
      modifies ring, ring.buf, `sessions, `rxEnabled, `broken, `pending, `newcomers, `timed
      ensures Valid() && broken == if ok then old(broken) else old(broken) + {s}
      ensures ring.log == old(ring.log) && ring.oldest >= old(ring.oldest) && s in sessions
      ensures SameReaders(old(sessions)[s := sessions[s]], sessions)
      ensures old(sessions)[s].written <= sessions[s].written
      ensures SentOff(answers, |ring.log| - old(Position(s)), Position(s) - old(Position(s)), ok)
      ensures answers(0) != Failure && old(Position(s)) < |ring.log| ==> old(Position(s)) < Position(s)
      ensures (forall k :: answers(k) == Written(false)) ==> ok && Position(s) == |ring.log|
      ensures newcomers == if ok then old(newcomers) - {s} else old(newcomers)
      ensures rxEnabled == (old(rxEnabled) || (ok && Free() >= RXFLOW_MAX))
      ensures pending == old(pending) - {s} + if ok && Position(s) < |ring.log| then {s} else {}
    {
      hide MirrorInstance.Base, MirrorInstance.Flow, MirrorInstance.Tight, MirrorInstance.Served, SentOff;
      var clear;
      ok, clear := Serve(s, answers);
      ghost var sent := sessions;
      SameReadersSelf(sent);
      if ok {
        Conclude(s, clear);
      } else {
        GiveUp(s, clear);
      }
      SameReaderSame(sent, sessions, s);
    }

    /** Session `s` has been sent something, perhaps, and it is yet to be noted whether it has more to read;
        `clear` says that it was at the oldest tail and has moved on. */
    ghost predicate Served(s: SessionId, clear: bool)
      reads this, ring, ring.buf
    {
      ring.Valid() && Delivered() && Listed() && broken <= sessions.Keys && s in sessions && s !in broken &&
      newcomers !! pending && pending <= sessions.Keys &&
      AskedIn(|ring.log|, sessions, joined, broken + newcomers + {s}, pending - {s}) &&
      AskedIn(|ring.log|, sessions, joined, broken + newcomers - {s}, pending + {s}) &&
      (s in joined && Position(s) >= |ring.log| ==>
         AskedIn(|ring.log|, sessions, joined, broken + newcomers - {s}, pending - {s})) &&
      TimedIn(ring.oldest, |ring.log|, sessions, joined, broken + {s}, timed) &&
      TimedIn(ring.oldest, |ring.log|, sessions, joined, broken, if clear then timed - {s} else timed)
    }

    method Serve(s: SessionId, answers: nat -> Answer) returns (ok: bool, clear: bool)
      requires Valid() && s in sessions && s !in broken
      modifies `sessions
      ensures Served(s, clear) && Flow() && (!clear && broken == {} ==> Tight())
      ensures sessions == old(sessions)[s := sessions[s]] && old(sessions)[s].written <= sessions[s].written
      ensures s in joined
      ensures SentOff(answers, |ring.log| - old(Position(s)), Position(s) - old(Position(s)), ok)
      ensures answers(0) != Failure && old(Position(s)) < |ring.log| ==> old(Position(s)) < Position(s)
      ensures (forall k :: answers(k) == Written(false)) ==> ok && Position(s) == |ring.log|
    {
      hide MirrorInstance.Listed, MirrorInstance.Flow, LwsRing.Valid, DeliveredIn, AskedIn, TimedIn, TightIn;
      var updateWorst := AtOldest(s);
      var sentSomething;
      ok, sentSomething := SendAll(s, answers);
      clear := sentSomething && updateWorst;
      MovedAsked(|ring.log|, old(sessions), joined, broken + newcomers, pending, s, sessions[s]);
      MovedTimed(ring.oldest, |ring.log|, old(sessions), joined, broken, timed, s, sessions[s]);
      if sentSomething && !updateWorst && broken == {} {
        OthersStay(ring.oldest, old(sessions), joined, s, sessions[s]);
      }
      assert sessions.Keys == old(sessions).Keys;
    }

    /** After a failed write nothing is noted any more; the session will be closed. */
    method GiveUp(s: SessionId, ghost clear: bool)
      requires Served(s, clear) && Flow()
      modifies `broken, `pending
      ensures Valid() && broken == old(broken) + {s} && pending == old(pending) - {s}
    {
      hide AskedIn, TimedIn, DeliveredIn, Enumerates, LwsRing.Valid;
      broken, pending := broken + {s}, pending - {s};
      assert broken + newcomers == old(broken + newcomers) + {s};
    }

    /** The end of SERVER_WRITEABLE: whoever has more to read asks for another callback, and the oldest tail is updated
        when this session was holding it back. */
    method Conclude(s: SessionId, clear: bool)
      requires Served(s, clear) && Flow() && (!clear && broken == {} ==> Tight())
      modifies ring, ring.buf, `sessions, `rxEnabled, `pending, `newcomers, `timed
      ensures Valid() && ring.log == old(ring.log) && SameReaders(old(sessions), sessions)
      ensures ring.oldest >= old(ring.oldest)
      ensures rxEnabled == (old(rxEnabled) || Free() >= RXFLOW_MAX)
      ensures s in joined && s in old(sessions) && newcomers == old(newcomers) - {s}
      ensures pending == old(pending) - {s} + if old(Position(s)) < |ring.log| then {s} else {}
    {
      hide MirrorInstance.Base, MirrorInstance.Flow, MirrorInstance.Tight, SameReaders;
      SameReadersSelf(sessions);
      AskAgain(s, clear);
      if clear {
        var _ := UpdateWorstTail();
      } else if !rxEnabled {
        NotYetFree();
      }
    }

    method AskAgain(s: SessionId, clear: bool)
      requires Served(s, clear)
      modifies `pending, `newcomers, `timed
      ensures Base() && s in joined && s in sessions && newcomers == old(newcomers) - {s}
      ensures pending == old(pending) - {s} + if Position(s) < |ring.log| then {s} else {}
    {
      hide AskedIn, TimedIn, Enumerates, DeliveredIn, LwsRing.Valid;
      Present(s);
      var waiting := Waiting(s);
      newcomers := newcomers - {s};
      assert broken + newcomers == old(broken + newcomers) - {s};
      assert old(pending) - {s} + {s} == old(pending) + {s};
      pending := if waiting > 0 then pending + {s} else pending - {s};
      if clear {
        timed := timed - {s};
      }
    }

    method AtOldest(s: SessionId) returns (yes: bool)
      requires ring.Valid() && Delivered() && s in sessions
      ensures s in joined && yes == (Position(s) == ring.oldest)
    {
      assert Reads(ring.log, ring.oldest, sessions[s], joined[s]);
      SlotDistance(ring.oldest, Position(s), QUEUELEN);
      yes := ring.oldestTail == sessions[s].tail;
    }

    /** The loop of SERVER_WRITEABLE. */
    method SendAll(s: SessionId, answers: nat -> Answer) returns (ok: bool, sentSomething: bool)
      requires ring.Valid() && Delivered() && Listed() && Flow() && s in sessions
      modifies `sessions
      ensures Delivered() && Listed() && Flow() && OnlyMoved(old(sessions), s)
      ensures sentSomething == (Position(s) > old(Position(s))) && (!sentSomething ==> sessions == old(sessions))
      ensures SentOff(answers, |ring.log| - old(Position(s)), Position(s) - old(Position(s)), ok)
      ensures answers(0) != Failure && old(Position(s)) < |ring.log| ==> old(Position(s)) < Position(s)
      ensures (forall k :: answers(k) == Written(false)) ==> ok && Position(s) == |ring.log|
    {
      hide MirrorInstance.Listed, MirrorInstance.Flow, LwsRing.Valid, DeliveredIn;
      ok, sentSomething := true, false;
      var n := 0;
      assert s in joined by { Present(s); }
      while true
        invariant Delivered() && Listed() && Flow() && OnlyMoved(old(sessions), s)
        invariant Position(s) == old(Position(s)) + n && sentSomething == (n > 0)
        invariant n == 0 ==> sessions == old(sessions)
        invariant forall k :: 0 <= k < n ==> answers(k) == Written(false)
        decreases |ring.log| - Position(s)
      {
        var payload := Peek(s);
        if payload.None? {
          break;
        }
        var answer := answers(n);
        if answer == Failure {
          return false, sentSomething;
        }
        StepReader(s, payload.value);
        n, sentSomething := n + 1, true;
        if answer.choked {
          break;
        }
      }
    }

    lemma Present(s: SessionId)
      requires Delivered() && s in sessions
      ensures s in joined
    {
    }

    /** Session `s` has been sent more; nothing else has changed. */
    ghost predicate OnlyMoved(before: Table, s: SessionId)
      requires s in before
      reads `sessions
    {
      s in sessions && sessions == before[s := sessions[s]] && sessions[s].rxOn == before[s].rxOn &&
      before[s].written <= sessions[s].written
    }

    /** The next message of a session. An element that is there has its payload: the branch of the callback that
        skips a missing payload is dead. */
    method Peek(s: SessionId) returns (payload: Option<Data>)
      requires ring.Valid() && Delivered() && s in sessions && s in joined
      ensures Position(s) <= |ring.log|
      ensures payload == if Position(s) < |ring.log| then Some(ring.log[Position(s)]) else None
    {
      assert Reads(ring.log, ring.oldest, sessions[s], joined[s]);
      var element := ring.GetElement(sessions[s].tail, Position(s));
      payload := if element.None? then None else element.value;
    }

    method StepReader(s: SessionId, payload: Data)
      requires ring.Valid() && Delivered() && Listed() && Flow() && s in sessions && s in joined
      requires Position(s) < |ring.log| && payload == ring.log[Position(s)]
      modifies `sessions
      ensures Delivered() && Listed() && Flow() && OnlyMoved(old(sessions), s) && Position(s) == old(Position(s)) + 1
      ensures sessions[s].written == old(sessions)[s].written + [payload]
    {
      var session := sessions[s];
      var tail := NextTail(s);
      SteppedRead(ring.log, ring.oldest, sessions, joined, s, tail);
      hide LwsRing.Valid, DeliveredIn;
      sessions := sessions[s := session.(tail := tail, written := session.written + [payload])];
      assert sessions.Keys == old(sessions).Keys;
    }

    method NextTail(s: SessionId) returns (tail: nat)
      requires ring.Valid() && Delivered() && s in sessions && s in joined && Position(s) < |ring.log|
      ensures tail == Slot(Position(s) + 1, QUEUELEN)
    {
      assert Reads(ring.log, ring.oldest, sessions[s], joined[s]);
      tail := ring.Consume(sessions[s].tail, Position(s));
    }

    /** RECEIVE: what arrives is inserted for everybody, or dropped when the ring is full, and everybody is asked for.
        Without memory for the message it is dropped and nobody is asked for. */
    method Receive(message: Data, memory: bool) returns (inserted: bool)
      requires Valid()
      modifies ring, ring.buf, `sessions, `rxEnabled, `pending, `newcomers
      ensures Valid() && inserted == (old(Free()) > 0 && memory)
      ensures ring.log == (if inserted then old(ring.log) + [message] else old(ring.log))
      ensures ring.oldest == old(ring.oldest) && SameReaders(old(sessions), sessions)
      ensures pending == if memory || old(Free()) == 0 then sessions.Keys else old(pending)
      ensures newcomers == if memory || old(Free()) == 0 then {} else old(newcomers)
      ensures Switched(old(rxEnabled), old(sessions), old(rxEnabled) && Free() >= RXFLOW_MIN)
    {
      hide MirrorInstance.Base, MirrorInstance.Tight, SameReaders;
      SameReadersSelf(sessions);
      var free := CountFree();
      inserted := free != 0 && memory;
      if free != 0 && !memory {
        return;
      }
      AskEverybody();
      if inserted {
        Insert(message);
        Throttle();
      } else {
        // Receiving is off already, so there is nothing to turn off here.
        assert !rxEnabled;
      }
    }

    method CountFree() returns (free: nat)
      requires Base()
      ensures free == Free()
    {
      free := ring.CountFree();
    }

    /** The instance is locked throughout, so it makes no difference that asking comes first here. */
    method AskEverybody()
      requires Base()
      modifies `pending, `newcomers
      ensures Base() && pending == sessions.Keys && newcomers == {}
    {
      pending, newcomers := sessions.Keys, {};
    }

    /** Turns receiving off when little room is left. */
    method Throttle()
      requires Base()
      requires rxEnabled ==> forall s :: s in sessions ==> sessions[s].rxOn
      requires !rxEnabled ==> Free() < RXFLOW_MAX
      modifies `sessions, `rxEnabled
      ensures Base() && Flow() && SameReaders(old(sessions), sessions) && (old(Tight()) ==> Tight())
      ensures sessions.Keys == old(sessions).Keys
      ensures Switched(old(rxEnabled), old(sessions), old(rxEnabled) && Free() >= RXFLOW_MIN)
    {
      hide MirrorInstance.Base, MirrorInstance.Tight, SameReaders;
      SameReadersSelf(sessions);
      if rxEnabled {
        var free := CountFree();
        if free < RXFLOW_MIN {
          SwitchFlow(false);
        }
      }
    }

    method Insert(message: Data)
      requires Base() && Free() > 0 && pending == sessions.Keys
      modifies ring, ring.buf
      ensures Base() && ring.oldest == old(ring.oldest) && (old(Tight()) ==> Tight())
      ensures ring.log == old(ring.log) + [message]
    {
      var inserted := ring.Insert(message);
      assert inserted;
      InsertedRead(old(ring.log), message, ring.oldest, sessions, joined);
    }

    /** One step, when it is possible. A session that the step is not about stays where it is, and is asked for
        exactly if it was before or the step asks for everybody. */
    method Perform(step: Step)
      requires Valid()
      modifies this, ring, ring.buf
      ensures Valid() && old(ring.log) <= ring.log && ring.oldest >= old(ring.oldest)
      ensures !Asks(step, old(Free())) ==> ring.log == old(ring.log)
      ensures forall s :: s in old(sessions) && Elsewhere(step, s) ==>
        s in sessions && s in joined && Position(s) == old(Position(s)) && (s in broken <==> s in old(broken)) &&
        (s in pending <==> s in old(pending) || Asks(step, old(Free())))
      ensures step.Join? ==> list != []
    {
      hide MirrorInstance.Valid;
      Noticed();
      match step
      case Join(s) =>
        if s !in sessions {
          Establish(s);
        }
      case Leave(s) =>
        if s in sessions {
          Close(s);
        }
      case Serve(s, answers) =>
        if s in sessions && s !in broken {
          var _ := Writeable(s, answers);
        }
      case Deliver(message, memory) =>
        var _ := Receive(message, memory);
    }
  }

  /** A callback, or the arrival or departure of a session. A message that arrives may find no memory. */
  datatype Step =
    | Join(s: SessionId)
    | Leave(s: SessionId)
    | Serve(s: SessionId, answers: nat -> Answer)
    | Deliver(message: Data, memory: bool)

  /** A step that asks for everybody, when so many slots are free. */
  predicate Asks(step: Step, free: int) { step.Deliver? && (step.memory || free == 0) }

  /** A step that neither serves session `s` nor lets it go. */
  predicate Elsewhere(step: Step, s: SessionId) { !(step.Serve? && step.s == s) && step != Leave(s) }

  /** An instance exists while it has a session. */
  ghost predicate Alive(m: MirrorInstance?)
    reads m, if m == null then {} else {m.ring, m.ring.buf}
  {
    m != null ==> m.Valid() && m.list != []
  }

  /** Every run over one mirror name, whose instance is created for the first session and destroyed with the last:
      a session that does not leave has been sent exactly the slice of the insertion log from where it began up to its
      tail, whatever the others do; nothing a session has yet to read has been reclaimed; who has something to read has
      a callback asked for exactly if it is not a newcomer; who is timed blocks the ring. A session whose write has
      failed gets no further callback. */
  method Run(start: MirrorInstance?, steps: seq<Step>) returns (m: MirrorInstance?)
    requires Alive(start)
    modifies if start == null then {} else {start, start.ring, start.ring.buf}
    ensures Alive(m) && (m == start || (m != null ==> fresh(m)))
    ensures m == start != null ==> old(start.ring.log) <= m.ring.log
    ensures m != null ==> forall s :: s in m.sessions ==>
      m.joined[s] <= m.Position(s) <= |m.ring.log| && m.ring.oldest <= m.Position(s) &&
      m.sessions[s].written == m.ring.log[m.joined[s]..m.Position(s)]
    ensures m != null ==> |m.ring.log| - m.ring.oldest <= QUEUELEN - 1
    ensures m != null ==> forall s :: s in m.sessions && s !in m.broken && m.Position(s) < |m.ring.log| ==>
      (s in m.pending <==> s !in m.newcomers)
    ensures m != null ==> forall s :: s in m.timed && s !in m.broken ==> m.Slowest(s) && m.Position(s) < |m.ring.log|
    ensures m != null ==>
      if m.rxEnabled then
        31 - (|m.ring.log| - m.ring.oldest) >= 4 && forall s :: s in m.sessions ==> m.sessions[s].rxOn
      else 31 - (|m.ring.log| - m.ring.oldest) < 21
  {
    hide MirrorInstance.Valid, MirrorInstance.Slowest;
    m := start;
    var i := 0;
    while i < |steps|
      invariant Alive(m) && (m == start || (m != null ==> fresh(m) && fresh(m.ring) && fresh(m.ring.buf)))
      invariant m == start != null ==> old(start.ring.log) <= m.ring.log
    {
      m := Take(m, steps[i]);
      i := i + 1;
    }
    if m != null {
      m.AtAnyTime();
    }
  }

  /** One step, when it is possible. */
  method Take(m: MirrorInstance?, step: Step) returns (m': MirrorInstance?)
    requires Alive(m)
    modifies if m == null then {} else {m, m.ring, m.ring.buf}
    ensures Alive(m') && (m' == m || (m' != null ==> fresh(m') && fresh(m'.ring) && fresh(m'.ring.buf)))
    ensures m' == m != null ==> old(m.ring.log) <= m.ring.log
    ensures if step.Join? then m' != null else m' == null || m' == m
    ensures m != null && m' != null ==> m' == m
  {
    m' := m;
    if m == null {
      if step.Join? {
        m' := new MirrorInstance();
        m'.Establish(step.s);
      }
      return;
    }
    m.Perform(step);
    if m.list == [] {
      m' := null;
    }
  }

  /** When a session joins while something waits in the ring, nobody asks for a callback for it until a message arrives,
      whatever the others do: until its own callback comes unasked, it has something to read, and a callback is on its
      way exactly if a message has arrived since (and not been dropped for lack of memory). */
  method NewcomerWaits(m: MirrorInstance, s: SessionId, steps: seq<Step>)
    requires m.Valid() && s !in m.sessions && m.ring.oldest < |m.ring.log|
    requires forall k :: 0 <= k < |steps| ==> Elsewhere(steps[k], s)
    modifies m, m.ring, m.ring.buf
    ensures m.Valid() && s in m.sessions && s in m.joined && s !in m.broken && m.Position(s) < |m.ring.log|
    ensures s in m.pending <==> exists k :: 0 <= k < |steps| && Asks(steps[k], old(m.Free()))
  {
    hide MirrorInstance.Valid;
    m.Noticed();
    m.Establish(s);
    var i := 0;
    while i < |steps|
      invariant i <= |steps| && m.Valid() && s in m.sessions && s in m.joined && s !in m.broken
      invariant m.Position(s) == old(m.ring.oldest) <= m.ring.oldest && old(m.ring.log) <= m.ring.log
      invariant s in m.pending <==> exists k :: 0 <= k < i && Asks(steps[k], old(m.Free()))
      invariant s !in m.pending ==> m.ring.log == old(m.ring.log)
    {
      m.NotBehind(s);
      m.Perform(steps[i]);
      i := i + 1;
    }
  }

  /** It does happen: one session, one message, another session. */
  method NewcomerSleeps(a: SessionId, b: SessionId, message: Data) returns (m: MirrorInstance)
    requires a != b
    ensures m.Valid() && b in m.sessions && b in m.joined && b !in m.broken
    ensures m.Position(b) < |m.ring.log| && b !in m.pending
  {
    m := new MirrorInstance();
    m.Establish(a);
    var _ := m.Receive(message, true);
    NewcomerWaits(m, b, []);
  }
}
