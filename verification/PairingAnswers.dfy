/**
  Every answer of the pairing manager, read off the log before it: which sessions there are, when a
  request shows a PIN, what a confirmation is told, and what unpairing and status changes report.
  */
module PairingAnswers {
  import opened Bytes
  import opened Crypto
  import opened DeviceIds
  import opened DeviceRegistry
  import opened SasPins
  import opened UnlockSystem
  import AccountCap
  import PairingThrottle

  // ---------------------------------------------------------------------------
  // Sessions
  // ---------------------------------------------------------------------------

  /** More than sixty seconds after `issuedAt`, or before it. */
  predicate Outside(issuedAt: FileTime, now: FileTime) {
    now < issuedAt || now > issuedAt + 600_000_000
  }

  /** The entry ends a session of the client whose PIN was issued then. */
  predicate Ends(e: Entry, issuedAt: FileTime, client: Pairing.ClientId) {
    match e.event
    case Pair(c, _, _, _, _, _, _) => c == client
    case Cancel(c) => c == client
    case Expire(readings) => Outside(issuedAt, readings(client))
    case Confirm(c, _, _, _, _, _) =>
      c == client && e.outcome.ConfirmReply? &&
      var o := e.outcome.confirm; o.Completed? || o.WriteFailed? || o.PinExpired? || o.AttemptsExhausted?
    case _ => false
  }

  /** Entry `i` opened a session of the client that nothing has ended since. */
  ghost predicate LiveAt(log: seq<Entry>, client: Pairing.ClientId, i: int) {
    && 0 <= i < |log| && Opens(log[i], client)
    && forall j :: i < j < |log| ==> !Ends(log[j], log[i].event.issuedAt, client)
  }

  /** What the request at entry `i` and the failures since make of the session. */
  function SessionAt(log: seq<Entry>, client: Pairing.ClientId, i: nat): Pairing.Session
    requires i < |log| && Opens(log[i], client)
  {
    var o, failed := log[i].event, FailedSince(log, client, i);
    Pairing.Session(o.request.value.deviceId, o.request.value.name, o.ip, PinFor(o.draws), o.issuedAt, failed,
                    if failed < 3 then Pairing.WaitingForSas else Pairing.Failed, o.request.value.key)
  }

  ghost predicate SessionsMirror(s: Pairing.State, log: seq<Entry>, client: Pairing.ClientId) {
    && (client in s.sessions <==> exists i :: LiveAt(log, client, i))
    && forall i :: LiveAt(log, client, i) ==> client in s.sessions && s.sessions[client] == SessionAt(log, client, i)
  }

  /** One failure more. */
  function Bumped(session: Pairing.Session, fails: bool): Pairing.Session {
    if !fails then session
    else session.(attempts := session.attempts + 1,
                  phase := if session.attempts + 1 < 3 then Pairing.WaitingForSas else Pairing.Failed)
  }

  /** What one step leaves of the session of a client. */
  ghost predicate StepLeaves(s: Pairing.State, s': Pairing.State, e: Entry, client: Pairing.ClientId) {
    if Opens(e, client) then
      && client in s'.sessions
      && s'.sessions[client] == Pairing.NewSession(e.event.request.value, e.event.ip, e.event.draws, e.event.issuedAt)
    else if client in s.sessions && !Ends(e, s.sessions[client].generatedAt, client) then
      client in s'.sessions && s'.sessions[client] == Bumped(s.sessions[client], Fails(e, client))
    else client !in s'.sessions
  }

  lemma {:induction false} RequestLeaves(ecdsa: Ecdsa, s: State, e: Entry, client: Pairing.ClientId)
    requires e.outcome == Step(ecdsa, s, e.event).1 && e.event.Pair?
    ensures StepLeaves(s.pairing, Step(ecdsa, s, e.event).0.pairing, e, client)
  {
    hide DeviceIdToString, Pairing.Throttled, Pairing.AccountFull, IsActive, PinFor;
  }

  lemma {:induction false} ConfirmLeaves(ecdsa: Ecdsa, s: State, e: Entry, client: Pairing.ClientId)
    requires e.outcome == Step(ecdsa, s, e.event).1 && e.event.Confirm? && Pairing.AllSettled(s.pairing)
    ensures StepLeaves(s.pairing, Step(ecdsa, s, e.event).0.pairing, e, client)
  {
    hide DeviceIdToString, PinAccepted, SasPinExpired, Written, WellFormedPin, Pairing.Recorded;
    assert e.event.client in s.pairing.sessions ==> Pairing.Settled(s.pairing.sessions[e.event.client]);
  }

  lemma {:induction false} StepSession(ecdsa: Ecdsa, s: State, e: Entry, client: Pairing.ClientId)
    requires e.outcome == Step(ecdsa, s, e.event).1 && Pairing.AllSettled(s.pairing)
    ensures StepLeaves(s.pairing, Step(ecdsa, s, e.event).0.pairing, e, client)
  {
    hide Pairing.OnRequest, Pairing.OnConfirm, Pairing.OnUnpair, AuthLog.Step, DeviceIdToString, Pairing.AllSettled;
    if e.event.Pair? {
      RequestLeaves(ecdsa, s, e, client);
    } else if e.event.Confirm? {
      ConfirmLeaves(ecdsa, s, e, client);
    }
  }

  lemma {:induction false} LiveStep(log: seq<Entry>, client: Pairing.ClientId, i: int)
    requires log != []
    ensures var front, e := log[..|log| - 1], log[|log| - 1];
            LiveAt(log, client, i) <==>
            if i == |log| - 1 then Opens(e, client)
            else LiveAt(front, client, i) && !Ends(e, log[i].event.issuedAt, client)
  {
    hide Ends;
    var front := log[..|log| - 1];
    if LiveAt(log, client, i) && i < |front| {
      forall j | i < j < |front|
        ensures !Ends(front[j], front[i].event.issuedAt, client)
      {
        assert front[j] == log[j];
      }
    }
  }

  lemma {:induction false} NoSessions(client: Pairing.ClientId)
    ensures SessionsMirror(Pairing.INITIAL, [], client)
  {
  }

  lemma {:induction false} PairEnds(e: Entry, client: Pairing.ClientId)
    requires Opens(e, client)
    ensures forall t :: Ends(e, t, client)
  {
  }

  lemma {:induction false} MirrorStep(s: Pairing.State, s': Pairing.State, log: seq<Entry>, client: Pairing.ClientId)
    requires log != [] && SessionsMirror(s, log[..|log| - 1], client)
    requires StepLeaves(s, s', log[|log| - 1], client)
    ensures SessionsMirror(s', log, client)
  {
    hide Ends, Fails, PinFor;
    var front, e := log[..|log| - 1], log[|log| - 1];
    forall i
      ensures LiveAt(log, client, i) <==>
              if i == |log| - 1 then Opens(e, client)
              else LiveAt(front, client, i) && !Ends(e, log[i].event.issuedAt, client)
    {
      LiveStep(log, client, i);
    }
    if Opens(e, client) {
      assert LiveAt(log, client, |log| - 1);
      PairEnds(e, client);
    } else if client in s.sessions {
      var i :| LiveAt(front, client, i);
      assert front[i] == log[i];
      assert s.sessions[client] == SessionAt(front, client, i);
      assert client in s'.sessions ==> LiveAt(log, client, i);
    }
    forall i | LiveAt(log, client, i)
      ensures client in s'.sessions && s'.sessions[client] == SessionAt(log, client, i)
    {
      if i < |front| {
        assert LiveAt(front, client, i) && front[i] == log[i];
        assert SessionAt(log, client, i) == Bumped(SessionAt(front, client, i), Fails(e, client));
      }
    }
  }

  /**
    In every reachable state a client has a session exactly if some request opened one and nothing
    has ended it since; it is the session of that request, with the failures counted.
    */
  lemma {:induction false} SessionsExactly(ecdsa: Ecdsa, start: State, log: seq<Entry>, client: Pairing.ClientId)
    requires Legal(ecdsa, start, log) && start.pairing == Pairing.INITIAL
    ensures SessionsMirror(StateAfter(ecdsa, start, log).pairing, log, client)
  {
    hide Step, SessionsMirror, StepLeaves, Pairing.Settled;
    if log == [] {
      NoSessions(client);
    } else {
      var front, e := log[..|log| - 1], log[|log| - 1];
      var s := StateAfter(ecdsa, start, front);
      SessionsExactly(ecdsa, start, front, client);
      AllStaySettled(ecdsa, start, front);
      StepSession(ecdsa, s, e, client);
      MirrorStep(s.pairing, StateAfter(ecdsa, start, log).pairing, log, client);
    }
  }

  // ---------------------------------------------------------------------------
  // Confirmations
  // ---------------------------------------------------------------------------

  /** The session opened at entry `i` can still be confirmed. */
  ghost predicate WaitingAt(log: seq<Entry>, client: Pairing.ClientId, i: int) {
    LiveAt(log, client, i) && FailedSince(log, client, i) < 3
  }

  /** The PIN that entry `i` showed, submitted within sixty seconds. */
  predicate RightPin(o: Event, c: Event)
    requires o.Pair? && c.Confirm?
  {
    c.pin == PinFor(o.draws) && !Outside(o.issuedAt, c.times.checked)
  }

  /** The answer to a confirmation of a session that waits, by what was asked and what is submitted. */
  ghost predicate AnsweredFor(v: Pairing.ConfirmOutcome, o: Event, c: Event, failed: nat)
    requires o.Pair? && o.request.Some? && c.Confirm?
  {
    var formed, late := |c.idText| == 36 && |c.pin| == 6, Outside(o.issuedAt, c.times.rechecked);
    var r := o.request.value;
    && (v == Pairing.MalformedConfirm <==> !formed)
    && (v.Completed? <==> formed && RightPin(o, c) && c.writable)
    && (v.Completed? ==>
          v == Pairing.Completed(r.deviceId, DeviceRecord(r.name, c.sid, r.key, 1, c.times.paired, c.times.paired)))
    && (v == Pairing.WriteFailed <==> formed && RightPin(o, c) && !c.writable)
    && (v == Pairing.PinExpired <==> formed && !RightPin(o, c) && late)
    && (v == Pairing.AttemptsExhausted <==> formed && !RightPin(o, c) && !late && failed == 2)
    && (v == Pairing.WrongPin <==> formed && !RightPin(o, c) && !late && failed < 2)
  }

  lemma {:induction false} SessionAnswers(s: Pairing.State, o: Event, c: Event, failed: nat)
    requires o.Pair? && o.request.Some? && c.Confirm? && failed < 3 && WellFormedPin(PinFor(o.draws))
    requires c.client in s.sessions
    requires s.sessions[c.client] ==
             Pairing.NewSession(o.request.value, o.ip, o.draws, o.issuedAt).(attempts := failed)
    ensures AnsweredFor(Pairing.OnConfirm(s, c.client, c.idText, c.pin, c.sid, c.times, c.writable).1, o, c, failed)
  {
    hide DeviceIdToString, PinFor, WellFormedPin, Pairing.Recorded;
  }

  lemma {:induction false} ConfirmNeedsSession(s: Pairing.State, c: Event)
    requires c.Confirm?
    ensures Pairing.OnConfirm(s, c.client, c.idText, c.pin, c.sid, c.times, c.writable).1 == Pairing.NoSession <==>
            !(c.client in s.sessions && s.sessions[c.client].phase == Pairing.WaitingForSas)
  {
    hide DeviceIdToString, PinAccepted, SasPinExpired, Pairing.Recorded;
  }

  lemma {:induction false} OpenedPin(ecdsa: Ecdsa, start: State, log: seq<Entry>, i: nat)
    requires Legal(ecdsa, start, log) && i < |log| && log[i].event.Pair? && Opens(log[i], log[i].event.client)
    ensures WellFormedPin(PinFor(log[i].event.draws))
  {
    hide DeviceIdToString, Pairing.Throttled, Pairing.AccountFull, IsActive, StateAfter, Legal;
    LegalAt(ecdsa, start, log, i);
    PinDecodes(log[i].event.draws.value);
  }

  /**
    After any run a confirmation is turned away exactly if no session of its client waits; and the
    session that waits decides, with the PIN shown when it opened and the failures since, which of
    the other answers it is.
    */
  lemma {:induction false} ConfirmAnsweredExactly(ecdsa: Ecdsa, start: State, log: seq<Entry>, c: Event)
    requires Legal(ecdsa, start, log) && start.pairing == Pairing.INITIAL && c.Confirm?
    ensures var o := Step(ecdsa, StateAfter(ecdsa, start, log), c).1;
            && o.ConfirmReply?
            && (o.confirm == Pairing.NoSession <==> !exists i :: WaitingAt(log, c.client, i))
            && forall i :: WaitingAt(log, c.client, i) ==>
                 AnsweredFor(o.confirm, log[i].event, c, FailedSince(log, c.client, i))
  {
    hide Pairing.OnConfirm, PinFor, Legal, StateAfter, AnsweredFor, WellFormedPin;
    var s := StateAfter(ecdsa, start, log).pairing;
    SessionsExactly(ecdsa, start, log, c.client);
    ConfirmNeedsSession(s, c);
    if c.client in s.sessions {
      var i :| LiveAt(log, c.client, i);
      assert s.sessions[c.client] == SessionAt(log, c.client, i);
      assert WaitingAt(log, c.client, i) <==> s.sessions[c.client].phase == Pairing.WaitingForSas;
    }
    forall i | WaitingAt(log, c.client, i)
      ensures AnsweredFor(Pairing.OnConfirm(s, c.client, c.idText, c.pin, c.sid, c.times, c.writable).1, log[i].event,
                          c,
                          FailedSince(log, c.client, i))
    {
      OpenedPin(ecdsa, start, log, i);
      SessionAnswers(s, log[i].event, c, FailedSince(log, c.client, i));
    }
  }

  // ---------------------------------------------------------------------------
  // Requests
  // ---------------------------------------------------------------------------

  /** Five failures since the last right PIN, and the first of them at most sixty seconds before `now`. */
  ghost predicate ThrottledIn(ecdsa: Ecdsa, log: seq<Entry>, id: string, now: FileTime) {
    var times := PairingThrottle.Missed(ecdsa, EMPTY, log, id);
    |times| >= 5 && (now - times[0]) % 0x1_0000_0000_0000_0000 <= 600_000_000
  }

  /** The device was last paired for this account, and its status last set to active. */
  ghost predicate CountsFor(log: seq<Entry>, id: string, sid: string) {
    && (exists m :: ActiveAt(log, id, m))
    && exists w :: SetAt(Presence, log, id, w) && TextBack(log[w].outcome.confirm.record.sid) == sid
  }

  ghost predicate AllCountFor(log: seq<Entry>, ids: set<string>, sid: string) {
    forall id :: id in ids ==> CountsFor(log, id, sid)
  }

  /** Five devices count for the account. */
  ghost predicate FullIn(log: seq<Entry>, sid: string) {
    sid != "" && exists ids :: |ids| == 5 && AllCountFor(log, ids, sid)
  }

  lemma {:induction false} ActiveExactly(ecdsa: Ecdsa, log: seq<Entry>, id: string)
    requires Legal(ecdsa, EMPTY, log)
    ensures IsActive(StateAfter(ecdsa, EMPTY, log).store, id) <==> exists m :: ActiveAt(log, id, m)
  {
    hide Step, StateAfter, Legal, TextBack, KeyBack, StatusSet, Erases, DeviceIdToString;
    var store := StateAfter(ecdsa, EMPTY, log).store;
    StoreFollowsLog(ecdsa, EMPTY, log, Status, id);
    if id in store {
      var m :| SetAt(Status, log, id, m);
      assert ActiveAt(log, id, m) <==> store[id].status == STATUS_ACTIVE;
    }
  }

  lemma {:induction false} CountsExactly(ecdsa: Ecdsa, log: seq<Entry>, id: string, sid: string)
    requires Legal(ecdsa, EMPTY, log)
    ensures id in ActiveFor(StateAfter(ecdsa, EMPTY, log).store, sid) <==> CountsFor(log, id, sid)
  {
    hide Step, StateAfter, Legal, TextBack, KeyBack, ActiveAt, Erases, DeviceIdToString;
    var store := StateAfter(ecdsa, EMPTY, log).store;
    ActiveExactly(ecdsa, log, id);
    StoreFollowsLog(ecdsa, EMPTY, log, Presence, id);
    if id in store {
      var w :| SetAt(Presence, log, id, w);
      assert TextBack(log[w].outcome.confirm.record.sid) == TextBack(store[id].sid);
    }
  }

  lemma {:induction false} SubsetOfSize<T>(s: set<T>, n: nat) returns (t: set<T>)
    requires n <= |s|
    ensures t <= s && |t| == n
  {
    if n == |s| {
      t := s;
    } else {
      var x :| x in s;
      t := SubsetOfSize(s - {x}, n);
    }
  }

  lemma {:induction false} WithinActive(ecdsa: Ecdsa, log: seq<Entry>, sid: string, ids: set<string>)
    requires Legal(ecdsa, EMPTY, log)
    ensures ids <= ActiveFor(StateAfter(ecdsa, EMPTY, log).store, sid) <==> AllCountFor(log, ids, sid)
  {
    hide Step, StateAfter, Legal, CountsFor, ActiveFor;
    forall id | id in ids
      ensures id in ActiveFor(StateAfter(ecdsa, EMPTY, log).store, sid) <==> CountsFor(log, id, sid)
    {
      CountsExactly(ecdsa, log, id, sid);
    }
  }

  lemma {:induction false} FullExactly(ecdsa: Ecdsa, log: seq<Entry>, sid: string)
    requires Legal(ecdsa, EMPTY, log)
    ensures Pairing.AccountFull(StateAfter(ecdsa, EMPTY, log).store, sid) <==> FullIn(log, sid)
  {
    hide Step, StateAfter, Legal, AllCountFor, ActiveFor;
    var active := ActiveFor(StateAfter(ecdsa, EMPTY, log).store, sid);
    if |active| >= 5 {
      var ids := SubsetOfSize(active, 5);
      WithinActive(ecdsa, log, sid, ids);
    }
    if FullIn(log, sid) {
      var ids :| |ids| == 5 && AllCountFor(log, ids, sid);
      WithinActive(ecdsa, log, sid, ids);
      AccountCap.SubsetSize(ids, active);
    }
  }

  /** A request with a device name, for this device. */
  predicate Asks(e: Event, id: string) {
    e.Pair? && e.request.Some? && e.request.value.name != "" && DeviceIdToString(e.request.value.deviceId) == id
  }

  /** The answer to a request, by the first of the checks to fail. */
  ghost predicate RequestAnswer(ecdsa: Ecdsa, log: seq<Entry>, e: Event, id: string, v: Pairing.RequestOutcome)
    requires e.Pair?
  {
    var throttled := ThrottledIn(ecdsa, log, id, e.checkedAt);
    var active, full := (exists m :: ActiveAt(log, id, m)), FullIn(log, e.sid);
    && (v == Pairing.MalformedRequest <==> !Asks(e, id))
    && (v == Pairing.RateLimited <==> Asks(e, id) && throttled)
    && (v == Pairing.AlreadyPaired <==> Asks(e, id) && !throttled && active)
    && (v == Pairing.TooManyDevices <==> Asks(e, id) && !throttled && !active && full)
    && (v == Pairing.NoPin <==> Asks(e, id) && !throttled && !active && !full && e.draws.None?)
    && (v == Pairing.AwaitingPin <==> Asks(e, id) && !throttled && !active && !full && e.draws.Some?)
  }

  lemma {:induction false} NoDrawsNoPin(draws: Pairing.Draws)
    ensures PinFor(draws) == "" <==> draws.None?
  {
    if draws.Some? {
      PinDecodes(draws.value);
    }
  }

  /**
    After any run from an empty registry a PIN is shown exactly if the request is well-formed and
    not throttled, its device is not active, its account is unnamed or has fewer than five active
    devices, and the random source answered; every refusal has its own condition on the log.
    */
  lemma {:induction false} RequestAnsweredExactly(ecdsa: Ecdsa, log: seq<Entry>, e: Event, id: string)
    requires Legal(ecdsa, EMPTY, log) && e.Pair?
    requires e.request.Some? ==> DeviceIdToString(e.request.value.deviceId) == id
    ensures var o := Step(ecdsa, StateAfter(ecdsa, EMPTY, log), e).1;
            o.PairReply? && RequestAnswer(ecdsa, log, e, id, o.request)
  {
    hide StateAfter, Legal, DeviceIdToString, PinFor, Pairing.AccountFull, IsActive, PairingThrottle.Missed, ActiveAt,
         FullIn;
    PairingThrottle.AttemptsMirrorLog(ecdsa, EMPTY, log, id);
    ActiveExactly(ecdsa, log, id);
    FullExactly(ecdsa, log, e.sid);
    NoDrawsNoPin(e.draws);
  }

  // ---------------------------------------------------------------------------
  // Unpairing and status changes
  // ---------------------------------------------------------------------------

  /** Both report whether there is a record, which the log tells; unpairing also what it was denied. */
  lemma {:induction false} OthersAnsweredExactly(ecdsa: Ecdsa, log: seq<Entry>, idText: string, permitted: bool,
                                                 device: DeviceId, status: U32)
    requires Legal(ecdsa, EMPTY, log)
    ensures var s := StateAfter(ecdsa, EMPTY, log);
            && Step(ecdsa, s, Unpair(idText, permitted)).1 ==
               UnpairReply(if |idText| != 36 then Pairing.MalformedUnpair
                           else Pairing.UnpairDone(permitted || !exists w :: SetAt(Presence, log, idText, w)))
            && Step(ecdsa, s, SetStatus(device, status)).1 ==
               StatusReply(exists w :: SetAt(Presence, log, DeviceIdToString(device), w))
  {
    hide StateAfter, Legal, DeviceIdToString, SetAt;
    StoreFollowsLog(ecdsa, EMPTY, log, Presence, idText);
    StoreFollowsLog(ecdsa, EMPTY, log, Presence, DeviceIdToString(device));
  }
}
