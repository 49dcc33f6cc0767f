/**
  Both managers over one registry. A log interleaves pairing, unpairing, status changes and
  authentication in any order; what it grants is traced back to what was paired.
  */
module UnlockSystem {
  import opened Bytes
  import opened Protocol
  import opened Crypto
  import opened DeviceIds
  import opened DeviceRegistry
  import opened SasPins
  import Pairing
  import Auth = Authentication
  import AuthLog = AuthenticationLog

  datatype Event =
    | Pair(client: Pairing.ClientId, ip: string, request: Option<Pairing.PairRequest>, sid: string,
           draws: Pairing.Draws, checkedAt: FileTime, issuedAt: FileTime)
    | Confirm(client: Pairing.ClientId, idText: string, pin: string, sid: string, times: Pairing.ConfirmTimes,
              writable: bool)
    | Unpair(idText: string, permitted: bool)
    | SetStatus(device: DeviceId, status: U32)
    | Cancel(client: Pairing.ClientId)
    | Expire(readings: Pairing.ClientId -> FileTime)
    | Authenticate(now: Auth.Millis, call: AuthLog.Event, seenAt: U64)

  datatype Outcome =
    | PairReply(request: Pairing.RequestOutcome)
    | ConfirmReply(confirm: Pairing.ConfirmOutcome)
    | UnpairReply(unpair: Pairing.UnpairOutcome)
    | StatusReply(found: bool)
    | AuthReply(verdict: Auth.Verdict)
    | Quiet

  datatype State = State(store: Store, pairing: Pairing.State, auth: Auth.State)

  const EMPTY := State(map[], Pairing.INITIAL, Auth.INITIAL)

  datatype Entry = Entry(event: Event, outcome: Outcome)

  ghost function AuthStore(store: Store, call: AuthLog.Event, v: Auth.Verdict, seenAt: U64): Store {
    match call
    case AuthRequest(_, _) => store
    case AuthResponse(payload) => Auth.StoreAfterResponse(store, payload, v, seenAt)
  }

  ghost function Step(ecdsa: Ecdsa, s: State, e: Event): (State, Outcome) {
    match e
    case Pair(client, ip, request, sid, draws, checkedAt, issuedAt) =>
      var (p, o) := Pairing.OnRequest(s.pairing, s.store, client, ip, request, sid, draws, checkedAt, issuedAt);
      (s.(pairing := p), PairReply(o))
    case Confirm(client, idText, pin, sid, times, writable) =>
      var (p, o) := Pairing.OnConfirm(s.pairing, client, idText, pin, sid, times, writable);
      (s.(pairing := p, store := Pairing.StoreAfterConfirm(s.store, o)), ConfirmReply(o))
    case Unpair(idText, permitted) =>
      var (store, o) := Pairing.OnUnpair(s.store, idText, permitted);
      (s.(store := store), UnpairReply(o))
    case SetStatus(device, status) =>
      var id := DeviceIdToString(device);
      (s.(store := WithStatus(s.store, id, status)), StatusReply(id in s.store))
    case Cancel(client) => (s.(pairing := Pairing.OnCancel(s.pairing, client)), Quiet)
    case Expire(readings) => (s.(pairing := Pairing.OnExpire(s.pairing, readings)), Quiet)
    case Authenticate(now, call, seenAt) =>
      var (a, v) := AuthLog.Step(ecdsa, s.auth, now, call, s.store);
      (s.(auth := a, store := AuthStore(s.store, call, v, seenAt)), AuthReply(v))
  }

  ghost function StateAfter(ecdsa: Ecdsa, start: State, log: seq<Entry>): State {
    if log == [] then start else Step(ecdsa, StateAfter(ecdsa, start, log[..|log| - 1]), log[|log| - 1].event).0
  }

  ghost predicate Legal(ecdsa: Ecdsa, start: State, log: seq<Entry>) {
    log == [] ||
    var front, e := log[..|log| - 1], log[|log| - 1];
    Legal(ecdsa, start, front) && e.outcome == Step(ecdsa, StateAfter(ecdsa, start, front), e.event).1
  }

  lemma {:induction false} LegalPrefix(ecdsa: Ecdsa, start: State, log: seq<Entry>, n: nat)
    requires Legal(ecdsa, start, log) && n <= |log|
    ensures Legal(ecdsa, start, log[..n])
    decreases |log|
  {
    hide Step, StateAfter;
    if n == |log| {
      assert log[..n] == log;
    } else {
      LegalPrefix(ecdsa, start, log[..|log| - 1], n);
      assert log[..|log| - 1][..n] == log[..n];
    }
  }

  lemma {:induction false} LegalAt(ecdsa: Ecdsa, start: State, log: seq<Entry>, n: nat)
    requires Legal(ecdsa, start, log) && n < |log|
    ensures Legal(ecdsa, start, log[..n])
    ensures log[n].outcome == Step(ecdsa, StateAfter(ecdsa, start, log[..n]), log[n].event).1
  {
    hide Step, StateAfter;
    LegalPrefix(ecdsa, start, log, n);
    LegalPrefix(ecdsa, start, log, n + 1);
    assert log[..n + 1][..n] == log[..n];
  }

  // ---------------------------------------------------------------------------
  // The authentication part of a system log
  // ---------------------------------------------------------------------------

  /** The calls to the authentication manager, each with the registry it met. */
  ghost function AuthView(ecdsa: Ecdsa, start: State, log: seq<Entry>): seq<AuthLog.Entry> {
    if log == [] then []
    else
      var front, e := log[..|log| - 1], log[|log| - 1];
      var before := AuthView(ecdsa, start, front);
      if e.event.Authenticate? && e.outcome.AuthReply?
      then before + [AuthLog.Entry(e.event.now, e.event.call, StateAfter(ecdsa, start, front).store, e.outcome.verdict)]
      else before
  }

  /**
    Whatever pairing does in between, the authentication calls of a system run are a legal
    authentication log, so everything proved about those holds inside the composed system.
    */
  lemma {:induction false} AuthViewLegal(ecdsa: Ecdsa, start: State, log: seq<Entry>)
    requires Legal(ecdsa, start, log) && start.auth == Auth.INITIAL
    ensures AuthLog.Legal(ecdsa, AuthView(ecdsa, start, log))
    ensures AuthLog.StateAfter(ecdsa, AuthView(ecdsa, start, log)) == StateAfter(ecdsa, start, log).auth
  {
    hide AuthLog.Step, Pairing.OnRequest, Pairing.OnConfirm, Pairing.OnCancel, Pairing.OnExpire;
    if log != [] {
      var front, e := log[..|log| - 1], log[|log| - 1];
      AuthViewLegal(ecdsa, start, front);
      if e.event.Authenticate? {
        var view := AuthView(ecdsa, start, log);
        assert view[..|view| - 1] == AuthView(ecdsa, start, front);
      }
    }
  }

  // ---------------------------------------------------------------------------
  // Sessions
  // ---------------------------------------------------------------------------

  /** The entry displayed a PIN to this client and opened a session. */
  predicate Opens(e: Entry, client: Pairing.ClientId) {
    e.event.Pair? && e.event.client == client && e.event.request.Some? && e.outcome == PairReply(Pairing.AwaitingPin)
  }

  /** The entry replaces the session of this client or spends it on a registry write. */
  predicate Supersedes(e: Entry, client: Pairing.ClientId) {
    || (e.event.Pair? && e.event.client == client)
    || (e.event.Confirm? && e.event.client == client && e.outcome.ConfirmReply?
        && (e.outcome.confirm.Completed? || e.outcome.confirm.WriteFailed?))
  }

  /** A confirmation of this client that was answered by a failure. */
  predicate Fails(e: Entry, client: Pairing.ClientId) {
    && e.event.Confirm? && e.event.client == client && e.outcome.ConfirmReply?
    && var o := e.outcome.confirm; o.MalformedConfirm? || o.WrongPin? || o.PinExpired? || o.AttemptsExhausted?
  }

  /** Failed confirmations of the client after entry `i`. */
  function FailedSince(log: seq<Entry>, client: Pairing.ClientId, i: int): nat {
    if |log| <= i + 1 || log == [] then 0
    else FailedSince(log[..|log| - 1], client, i) + if Fails(log[|log| - 1], client) then 1 else 0
  }

  /** `session` is the one entry `i` opened, its PIN and fields untouched and its failures counted. */
  ghost predicate OpenedAt(log: seq<Entry>, client: Pairing.ClientId, session: Pairing.Session, i: int) {
    && 0 <= i < |log|
    && Opens(log[i], client)
    && (var o := log[i].event;
        && session.deviceId == o.request.value.deviceId
        && session.name == o.request.value.name
        && session.key == o.request.value.key
        && session.pin == PinFor(o.draws)
        && session.generatedAt == o.issuedAt)
    && session.attempts == FailedSince(log, client, i)
    && forall j :: i < j < |log| ==> !Supersedes(log[j], client)
  }

  /** A step either opens the session it leaves for a client, or leaves one that was there. */
  lemma {:induction false} StepSessions(ecdsa: Ecdsa, s: State, e: Entry, client: Pairing.ClientId)
    requires e.outcome == Step(ecdsa, s, e.event).1
    requires client in Step(ecdsa, s, e.event).0.pairing.sessions
    ensures var after := Step(ecdsa, s, e.event).0.pairing.sessions[client];
            if Opens(e, client) then
              var o := e.event;
              && after.deviceId == o.request.value.deviceId && after.name == o.request.value.name
              && after.key == o.request.value.key && after.pin == PinFor(o.draws) && after.generatedAt == o.issuedAt
              && after.attempts == 0
            else
              && !Supersedes(e, client) && client in s.pairing.sessions
              && var before := s.pairing.sessions[client];
                 && after.(attempts := before.attempts, phase := before.phase) == before
                 && after.attempts == before.attempts + if Fails(e, client) then 1 else 0
  {
    hide Pairing.Throttled, IsActive, Pairing.AccountFull, DeviceIdToString, PinFor, AuthLog.Step, PinAccepted,
         SasPinExpired, Pairing.Recorded, Written;
  }

  lemma {:induction false} OpenedStays(log: seq<Entry>, client: Pairing.ClientId, session: Pairing.Session, i: int,
                                       after: Pairing.Session)
    requires log != [] && OpenedAt(log[..|log| - 1], client, session, i) && !Supersedes(log[|log| - 1], client)
    requires after.(attempts := session.attempts, phase := session.phase) == session
    requires after.attempts == session.attempts + if Fails(log[|log| - 1], client) then 1 else 0
    ensures OpenedAt(log, client, after, i)
  {
    hide Supersedes, Opens, Fails;
    var front := log[..|log| - 1];
    assert front[i] == log[i];
    forall j | i < j < |log|
      ensures !Supersedes(log[j], client)
    {
      if j < |front| {
        assert front[j] == log[j];
      }
    }
  }

  lemma {:induction false} SessionsComeFromRequests(ecdsa: Ecdsa, start: State, log: seq<Entry>,
                                                    client: Pairing.ClientId)
    requires Legal(ecdsa, start, log) && client !in start.pairing.sessions
    requires client in StateAfter(ecdsa, start, log).pairing.sessions
    ensures exists i :: OpenedAt(log, client, StateAfter(ecdsa, start, log).pairing.sessions[client], i)
  {
    hide Step, Opens, Supersedes, PinFor, Fails;
    var front, e := log[..|log| - 1], log[|log| - 1];
    var s := StateAfter(ecdsa, start, front);
    var after := StateAfter(ecdsa, start, log).pairing.sessions[client];
    StepSessions(ecdsa, s, e, client);
    if Opens(e, client) {
      assert OpenedAt(log, client, after, |log| - 1);
    } else {
      SessionsComeFromRequests(ecdsa, start, front, client);
      var i :| OpenedAt(front, client, s.pairing.sessions[client], i);
      OpenedStays(log, client, s.pairing.sessions[client], i, after);
    }
  }

  lemma {:induction false} AllStaySettled(ecdsa: Ecdsa, start: State, log: seq<Entry>)
    requires Pairing.AllSettled(start.pairing)
    ensures Pairing.AllSettled(StateAfter(ecdsa, start, log).pairing)
  {
    hide Pairing.OnRequest, Pairing.OnConfirm, Pairing.Settled, AuthLog.Step;
    if log != [] {
      var front, e := log[..|log| - 1], log[|log| - 1];
      AllStaySettled(ecdsa, start, front);
      var s := StateAfter(ecdsa, start, front);
      match e.event {
        case Pair(client, ip, request, sid, draws, checkedAt, issuedAt) =>
          Pairing.RequestSettles(s.pairing, s.store, client, ip, request, sid, draws, checkedAt, issuedAt);
        case Confirm(client, idText, pin, sid, times, writable) =>
          Pairing.ConfirmSettles(s.pairing, client, idText, pin, sid, times, writable);
        case _ =>
      }
    }
  }

  /**
    In every reachable state each session was opened by some request and either waits with fewer
    than three confirmations failed since, or has failed with exactly three.
    */
  lemma {:induction false} SessionsStaySettled(ecdsa: Ecdsa, start: State, log: seq<Entry>, client: Pairing.ClientId)
    requires Legal(ecdsa, start, log) && start.pairing == Pairing.INITIAL
    requires client in StateAfter(ecdsa, start, log).pairing.sessions
    ensures var session := StateAfter(ecdsa, start, log).pairing.sessions[client];
            exists i :: OpenedAt(log, client, session, i) &&
              if session.phase == Pairing.WaitingForSas then FailedSince(log, client, i) < SAS_MAX_ATTEMPTS
              else session.phase == Pairing.Failed && FailedSince(log, client, i) == SAS_MAX_ATTEMPTS
  {
    hide Step, StateAfter, Legal, Opens, Supersedes, WellFormedPin;
    AllStaySettled(ecdsa, start, log);
    SessionsComeFromRequests(ecdsa, start, log, client);
    assert Pairing.Settled(StateAfter(ecdsa, start, log).pairing.sessions[client]);
  }

  lemma {:induction false} FailsMidSession(ecdsa: Ecdsa, s: State, e: Entry, client: Pairing.ClientId)
    requires e.outcome == Step(ecdsa, s, e.event).1 && Fails(e, client) && Pairing.AllSettled(s.pairing)
    ensures client in s.pairing.sessions && s.pairing.sessions[client].attempts < SAS_MAX_ATTEMPTS
  {
    hide WellFormedPin, DeviceIdToString, PinAccepted, SasPinExpired, Pairing.Recorded;
  }

  /** One displayed PIN can be missed three times at most, whatever ends its session. */
  lemma {:induction false} ThreeFailuresPerPin(ecdsa: Ecdsa, start: State, log: seq<Entry>, client: Pairing.ClientId,
                                               i: nat)
    requires Legal(ecdsa, start, log) && start.pairing == Pairing.INITIAL
    requires i < |log| && Opens(log[i], client)
    requires forall j :: i < j < |log| ==> !(log[j].event.Pair? && log[j].event.client == client)
    ensures FailedSince(log, client, i) <= SAS_MAX_ATTEMPTS
    ensures var sessions := StateAfter(ecdsa, start, log).pairing.sessions;
            client in sessions ==> sessions[client].attempts == FailedSince(log, client, i)
  {
    hide Step, Pairing.Settled, Fails, PinFor, Supersedes;
    var front, e := log[..|log| - 1], log[|log| - 1];
    var s := StateAfter(ecdsa, start, front);
    if client in StateAfter(ecdsa, start, log).pairing.sessions {
      StepSessions(ecdsa, s, e, client);
    }
    if i < |front| {
      ThreeFailuresPerPin(ecdsa, start, front, client, i);
      if Fails(e, client) {
        AllStaySettled(ecdsa, start, front);
        FailsMidSession(ecdsa, s, e, client);
      }
    }
  }

  /** Entry `j` wrote `record` for `device` because the PIN of the session opened at `i` was submitted in time. */
  ghost predicate ConfirmedBy(log: seq<Entry>, i: int, j: int, device: DeviceId, record: DeviceRecord) {
    && 0 <= i < j < |log|
    && log[j].event.Confirm? && Opens(log[i], log[j].event.client)
    && log[j].outcome == ConfirmReply(Pairing.Completed(device, record))
    && (var o, c := log[i].event, log[j].event;
        && o.request.value.deviceId == device
        && record == DeviceRecord(o.request.value.name, c.sid, o.request.value.key, STATUS_ACTIVE, c.times.paired,
                                  c.times.paired)
        && c.pin == PinFor(o.draws) && WellFormedPin(c.pin)
        && o.issuedAt <= c.times.checked <= o.issuedAt + SAS_EXPIRY_SECONDS * UNITS_PER_SECOND)
    && forall k :: i < k < j ==> !Supersedes(log[k], log[j].event.client)
  }

  lemma {:induction false} ConfirmNeedsPin(s: Pairing.State, client: Pairing.ClientId, idText: string, pin: string,
                                           sid: string, times: Pairing.ConfirmTimes, writable: bool)
    requires Pairing.OnConfirm(s, client, idText, pin, sid, times, writable).1.Completed?
    ensures client in s.sessions
    ensures var session, o := s.sessions[client], Pairing.OnConfirm(s, client, idText, pin, sid, times, writable).1;
            && o == Pairing.Completed(session.deviceId,
                                      DeviceRecord(session.name, sid, session.key, STATUS_ACTIVE, times.paired,
                                                   times.paired))
            && pin == session.pin && WellFormedPin(pin)
            && session.generatedAt <= times.checked <= session.generatedAt + SAS_EXPIRY_SECONDS * UNITS_PER_SECOND
            && session.phase == Pairing.WaitingForSas && session.attempts < SAS_MAX_ATTEMPTS
  {
    hide DeviceIdToString, WellFormedPin, SasPinExpired, Pairing.Recorded;
  }

  /**
    A record is written only for the PIN generated for that session at most sixty seconds earlier,
    with the fields of the request that opened it.
    */
  lemma {:induction false} WritesNeedPin(ecdsa: Ecdsa, start: State, log: seq<Entry>, j: nat)
    requires Legal(ecdsa, start, log) && start.pairing == Pairing.INITIAL && j < |log|
    requires log[j].event.Confirm? && log[j].outcome.ConfirmReply? && log[j].outcome.confirm.Completed?
    ensures exists i :: ConfirmedBy(log, i, j, log[j].outcome.confirm.deviceId, log[j].outcome.confirm.record)
  {
    hide Pairing.OnRequest, Pairing.OnConfirm, AuthLog.Step, Opens, Supersedes, PinFor, WellFormedPin, Legal;
    var before, c := log[..j], log[j].event;
    LegalAt(ecdsa, start, log, j);
    var s := StateAfter(ecdsa, start, before);
    ConfirmNeedsPin(s.pairing, c.client, c.idText, c.pin, c.sid, c.times, c.writable);
    SessionsComeFromRequests(ecdsa, start, before, c.client);
    var i :| OpenedAt(before, c.client, s.pairing.sessions[c.client], i);
    assert before[i] == log[i];
    forall k | i < k < j
      ensures !Supersedes(log[k], c.client)
    {
      assert before[k] == log[k];
    }
    assert ConfirmedBy(log, i, j, log[j].outcome.confirm.deviceId, log[j].outcome.confirm.record);
  }

  /** A session yields at most one write. */
  lemma {:induction false} OneWritePerSession(log: seq<Entry>, i: int, j: int, k: int,
                                              d1: DeviceId, r1: DeviceRecord, d2: DeviceId, r2: DeviceRecord)
    requires ConfirmedBy(log, i, j, d1, r1) && ConfirmedBy(log, i, k, d2, r2)
    ensures j == k
  {
    hide PinFor, WellFormedPin;
  }

  // ---------------------------------------------------------------------------
  // The registry, from the log
  // ---------------------------------------------------------------------------

  predicate Writes(e: Entry, id: string) {
    e.event.Confirm? && e.outcome.ConfirmReply? && e.outcome.confirm.Completed? &&
      DeviceIdToString(e.outcome.confirm.deviceId) == id
  }

  predicate Erases(e: Entry, id: string) {
    e.event.Unpair? && e.event.permitted && |e.event.idText| == Pairing.DEVICE_ID_TEXT && e.event.idText == id
  }

  predicate ChangesStatus(e: Entry, id: string) {
    e.event.SetStatus? && e.outcome == StatusReply(true) && DeviceIdToString(e.event.device) == id
  }

  function StatusSet(e: Entry): U32
    requires e.event.SetStatus? || e.event.Confirm?
  {
    if e.event.SetStatus? then e.event.status else STATUS_ACTIVE
  }

  predicate Grants(e: Entry, id: string) {
    && e.event.Authenticate? && e.event.call.AuthResponse? && e.outcome.AuthReply? && e.outcome.verdict.Granted?
    && Auth.Parsed(e.event.call.payload).Some?
    && DeviceIdToString(Auth.Parsed(e.event.call.payload).value.device) == id
  }

  /** The parts of a record that different entries of a log can have set. */
  datatype Aspect = Presence | Status | Key | LastSeen

  predicate Sets(a: Aspect, e: Entry, id: string) {
    match a
    case Presence => Writes(e, id)
    case Status => Writes(e, id) || ChangesStatus(e, id)
    case Key => Writes(e, id) && e.outcome.confirm.record.key != []
    case LastSeen => Writes(e, id) || Grants(e, id)
  }

  /** Entry `i` is the last to set this aspect of the device, which has not been unpaired since. */
  ghost predicate SetAt(a: Aspect, log: seq<Entry>, id: string, i: int) {
    0 <= i < |log| && Sets(a, log[i], id) && forall j :: i < j < |log| ==> !Erases(log[j], id) && !Sets(a, log[j], id)
  }

  lemma {:induction false} SetAtStep(a: Aspect, log: seq<Entry>, id: string, i: int)
    requires log != []
    ensures SetAt(a, log, id, i) ==> 0 <= i < |log| && Sets(a, log[i], id)
    ensures SetAt(a, log[..|log| - 1], id, i) ==> 0 <= i < |log| - 1
    ensures var front, e := log[..|log| - 1], log[|log| - 1];
            SetAt(a, log, id, i) <==>
              if i == |log| - 1 then Sets(a, e, id) else SetAt(a, front, id, i) && !Erases(e, id) && !Sets(a, e, id)
  {
    hide Sets, Erases;
    var front := log[..|log| - 1];
    if SetAt(a, log, id, i) && i < |front| {
      forall j | i < j < |front|
        ensures !Erases(front[j], id) && !Sets(a, front[j], id)
      {
        assert front[j] == log[j];
      }
    }
  }

  predicate Has(a: Aspect, store: Store, id: string) {
    id in store && (a == Key ==> store[id].key != [])
  }

  /** The stored values are the ones this entry set. */
  predicate CameFrom(a: Aspect, v: Stored, e: Entry, id: string)
    requires Sets(a, e, id)
  {
    match a
    case Presence =>
      var r := e.outcome.confirm.record;
      v.name == r.name && v.sid == r.sid && v.pairedTime == r.pairedTime
    case Status => v.status == StatusSet(e)
    case Key => v.key == e.outcome.confirm.record.key
    case LastSeen => v.lastSeen == if e.event.Authenticate? then e.event.seenAt else e.outcome.confirm.record.lastSeen
  }

  predicate SameAspect(a: Aspect, v: Stored, w: Stored) {
    match a
    case Presence => v.name == w.name && v.sid == w.sid && v.pairedTime == w.pairedTime
    case Status => v.status == w.status
    case Key => v.key == w.key
    case LastSeen => v.lastSeen == w.lastSeen
  }

  /** An aspect is in the registry exactly if some entry of the log was the last to set it, as it set it. */
  ghost predicate StoreMirrors(a: Aspect, store: Store, log: seq<Entry>, id: string) {
    && (Has(a, store, id) <==> exists i :: SetAt(a, log, id, i))
    && forall i :: SetAt(a, log, id, i) ==> id in store && CameFrom(a, store[id], log[i], id)
  }

  lemma {:induction false} GrantNeedsRecord(ecdsa: Ecdsa, s: Auth.State, now: Auth.Millis, call: AuthLog.Event,
                                            store: Store)
    ensures AuthLog.Step(ecdsa, s, now, call, store).1.Granted? ==>
            && call.AuthResponse? && Auth.Parsed(call.payload).Some?
            && DeviceIdToString(Auth.Parsed(call.payload).value.device) in store
  {
    hide DeviceIdToString, DecodeMessage, Verifies;
  }

  /** What one step does to an aspect of a device. */
  lemma {:induction false} StepStore(ecdsa: Ecdsa, s: State, e: Entry, a: Aspect, id: string)
    requires e.outcome == Step(ecdsa, s, e.event).1
    ensures var after := Step(ecdsa, s, e.event).0.store;
            if Erases(e, id) then !Has(a, after, id) && !Sets(a, e, id)
            else if Sets(a, e, id) then Has(a, after, id) && CameFrom(a, after[id], e, id)
            else
              && (Has(a, after, id) <==> Has(a, s.store, id))
              && (Has(a, after, id) ==> SameAspect(a, after[id], s.store[id]))
  {
    hide Pairing.OnRequest, DeviceIdToString, AuthLog.Step, PinAccepted, SasPinExpired, Pairing.Recorded, Auth.Parsed;
    if e.event.Authenticate? {
      GrantNeedsRecord(ecdsa, s.auth, e.event.now, e.event.call, s.store);
    }
  }

  lemma {:induction false} NothingSet(a: Aspect, id: string)
    ensures StoreMirrors(a, map[], [], id)
  {
  }

  lemma {:induction false} StepMirrored(a: Aspect, before: Store, after: Store, log: seq<Entry>, id: string)
    requires log != [] && StoreMirrors(a, before, log[..|log| - 1], id)
    requires var e := log[|log| - 1];
             if Erases(e, id) then !Has(a, after, id) && !Sets(a, e, id)
             else if Sets(a, e, id) then Has(a, after, id) && CameFrom(a, after[id], e, id)
             else
               && (Has(a, after, id) <==> Has(a, before, id))
               && (Has(a, after, id) ==> SameAspect(a, after[id], before[id]))
    ensures StoreMirrors(a, after, log, id)
  {
    hide Erases, SetAt, Writes, ChangesStatus, StatusSet;
    var front, e := log[..|log| - 1], log[|log| - 1];
    forall i
      ensures SetAt(a, log, id, i) ==> 0 <= i < |log| && Sets(a, log[i], id)
      ensures SetAt(a, front, id, i) ==> 0 <= i < |front|
      ensures SetAt(a, log, id, i) <==>
              if i == |log| - 1 then Sets(a, e, id) else SetAt(a, front, id, i) && !Erases(e, id) && !Sets(a, e, id)
    {
      SetAtStep(a, log, id, i);
    }
    if Sets(a, e, id) {
      assert SetAt(a, log, id, |log| - 1);
    } else if Has(a, after, id) {
      var i :| SetAt(a, front, id, i);
      assert SetAt(a, log, id, i);
    }
    forall i | SetAt(a, log, id, i)
      ensures id in after && CameFrom(a, after[id], log[i], id)
    {
      if i < |front| {
        assert SetAt(a, front, id, i);
        assert front[i] == log[i];
      }
    }
  }

  lemma {:induction false} StoreFollowsLog(ecdsa: Ecdsa, start: State, log: seq<Entry>, a: Aspect, id: string)
    requires Legal(ecdsa, start, log) && start.store == map[]
    ensures StoreMirrors(a, StateAfter(ecdsa, start, log).store, log, id)
  {
    hide Step, Erases, SetAt, Sets, CameFrom, Has, SameAspect;
    if log == [] {
      NothingSet(a, id);
    } else {
      var front, e := log[..|log| - 1], log[|log| - 1];
      var s := StateAfter(ecdsa, start, front);
      StoreFollowsLog(ecdsa, start, front, a, id);
      StepStore(ecdsa, s, e, a, id);
      StepMirrored(a, s.store, StateAfter(ecdsa, start, log).store, log, id);
    }
  }

  // ---------------------------------------------------------------------------
  // Grants, from the log
  // ---------------------------------------------------------------------------

  /** The last pairing since any unpairing was for this account, by the PIN shown when entry `i` opened it. */
  ghost predicate PairedFor(log: seq<Entry>, id: string, sid: string, w: int) {
    && SetAt(Presence, log, id, w)
    && TextBack(log[w].outcome.confirm.record.sid) == sid
    && exists i :: ConfirmedBy(log, i, w, log[w].outcome.confirm.deviceId, log[w].outcome.confirm.record)
  }

  ghost predicate ActiveAt(log: seq<Entry>, id: string, m: int) {
    SetAt(Status, log, id, m) && StatusSet(log[m]) == STATUS_ACTIVE
  }

  /** The octets are signed under the last non-empty key, which fits the buffer it is read into. */
  ghost predicate SignedUnder(ecdsa: Ecdsa, log: seq<Entry>, id: string, octets: Octets, sig: Octets, k: int) {
    && SetAt(Key, log, id, k)
    && |log[k].outcome.confirm.record.key| <= KEY_BUFFER
    && SignedOctets(ecdsa, log[k].outcome.confirm.record.key, octets, sig)
  }

  /** The challenge issued at call `i` of the authentication log is live and this message answers it. */
  ghost predicate AnswersLive(log: seq<AuthLog.Entry>, id: string, msg: SignedMessage, now: Auth.Millis, i: int) {
    AuthLog.LiveIssue(log, id, i, now) && msg.sessionId == log[i].verdict.sessionId && msg.nonce == log[i].verdict.nonce
  }

  /** When the log of the whole system says that a response is granted, and for which account. */
  ghost predicate SystemGrants(ecdsa: Ecdsa, log: seq<Entry>, payload: Octets, now: Auth.Millis, sid: string) {
    Auth.Parsed(payload).Some? &&
    var msg := Auth.Parsed(payload).value;
    var id := DeviceIdToString(msg.device);
    var calls := AuthView(ecdsa, EMPTY, log);
    && (exists w :: PairedFor(log, id, sid, w))
    && (exists m :: ActiveAt(log, id, m))
    && (exists k :: SignedUnder(ecdsa, log, id, payload[..88], payload[88..], k))
    && !AuthLog.LockedOut(calls, id, now)
    && (exists i :: AnswersLive(calls, id, msg, now, i))
  }

  lemma {:induction false} RegistryAspects(ecdsa: Ecdsa, log: seq<Entry>, store: Store, id: string, octets: Octets,
                                           sig: Octets, sid: string)
    requires StoreMirrors(Presence, store, log, id) && StoreMirrors(Status, store, log, id) &&
             StoreMirrors(Key, store, log, id)
    requires forall w :: SetAt(Presence, log, id, w) ==>
               exists i :: ConfirmedBy(log, i, w, log[w].outcome.confirm.deviceId, log[w].outcome.confirm.record)
    ensures var record := Lookup(store, id);
            (&& record.Some? && record.value.status == STATUS_ACTIVE && record.value.key != []
             && record.value.sid == sid
             && SignedOctets(ecdsa, record.value.key, octets, sig)) <==>
            (&& (exists w :: PairedFor(log, id, sid, w))
             && (exists m :: ActiveAt(log, id, m))
             && (exists k :: SignedUnder(ecdsa, log, id, octets, sig, k)))
  {
    hide TextBack, SignedOctets, DeviceIdToString, ConfirmedBy, StatusSet, Erases;
    if id in store {
      var w :| SetAt(Presence, log, id, w);
      var m :| SetAt(Status, log, id, m);
      assert PairedFor(log, id, sid, w) <==> TextBack(store[id].sid) == sid;
      assert ActiveAt(log, id, m) <==> store[id].status == STATUS_ACTIVE;
      if store[id].key != [] {
        var k :| SetAt(Key, log, id, k);
        assert SignedUnder(ecdsa, log, id, octets, sig, k) <==>
          |store[id].key| <= KEY_BUFFER && SignedOctets(ecdsa, store[id].key, octets, sig);
      }
    }
  }

  /** What the authentication manager sees in the registry, in terms of the log. */
  lemma {:induction false} RegistryFromLog(ecdsa: Ecdsa, log: seq<Entry>, id: string, octets: Octets, sig: Octets,
                                           sid: string)
    requires Legal(ecdsa, EMPTY, log)
    ensures var record := Lookup(StateAfter(ecdsa, EMPTY, log).store, id);
            (&& record.Some? && record.value.status == STATUS_ACTIVE && record.value.key != []
             && record.value.sid == sid
             && SignedOctets(ecdsa, record.value.key, octets, sig)) <==>
            (&& (exists w :: PairedFor(log, id, sid, w))
             && (exists m :: ActiveAt(log, id, m))
             && (exists k :: SignedUnder(ecdsa, log, id, octets, sig, k)))
  {
    hide Step, StateAfter, Legal, TextBack, SignedOctets, DeviceIdToString, ConfirmedBy;
    StoreFollowsLog(ecdsa, EMPTY, log, Presence, id);
    StoreFollowsLog(ecdsa, EMPTY, log, Status, id);
    StoreFollowsLog(ecdsa, EMPTY, log, Key, id);
    forall w | SetAt(Presence, log, id, w)
      ensures exists i :: ConfirmedBy(log, i, w, log[w].outcome.confirm.deviceId, log[w].outcome.confirm.record)
    {
      WritesNeedPin(ecdsa, EMPTY, log, w);
    }
    var store := StateAfter(ecdsa, EMPTY, log).store;
    RegistryAspects(ecdsa, log, store, id, octets, sig, sid);
  }

  lemma {:induction false} AnswersSplit(ecdsa: Ecdsa, log: seq<AuthLog.Entry>, record: DeviceRecord, msg: SignedMessage,
                                        sig: Octets, now: Auth.Millis)
    ensures (exists i :: AuthLog.Answers(ecdsa, log, record, i, msg, sig, now)) <==>
            && Verifies(ecdsa, record.key, msg, sig)
            && exists i :: AnswersLive(log, DeviceIdToString(msg.device), msg, now, i)
  {
    hide Verifies, DeviceIdToString, AuthLog.ReachedSince;
    forall i
      ensures AuthLog.Answers(ecdsa, log, record, i, msg, sig, now) <==>
              Verifies(ecdsa, record.key, msg, sig) && AnswersLive(log, DeviceIdToString(msg.device), msg, now, i)
    {
    }
  }

  /**
    In any interleaving from an empty registry, a response is granted if and only if the log before
    it says so: the last pairing of the device since any unpairing was confirmed by its PIN and for
    that account, its status was last set to active, the signature verifies under the last
    non-empty key written since any unpairing, the device is not locked out, and the message
    answers its live challenge.
    */
  lemma {:induction false} GrantsComeFromPairings(ecdsa: Ecdsa, log: seq<Entry>, j: nat, sid: string)
    requires Legal(ecdsa, EMPTY, log) && j < |log|
    requires log[j].event.Authenticate? && log[j].event.call.AuthResponse?
    ensures log[j].outcome == AuthReply(Auth.Granted(sid)) <==>
            SystemGrants(ecdsa, log[..j], log[j].event.call.payload, log[j].event.now, sid)
  {
    hide Auth.Respond, Auth.Request, DecodeMessage, AuthLog.Answers, AnswersLive, Pairing.OnRequest, Pairing.OnConfirm,
         DeviceIdToString, Verifies, SignedOctets, StateAfter, Legal, Lookup, PairedFor, ActiveAt, SignedUnder,
           AuthLog.LockedOut,
         AuthView, AuthLog.LatestIssue, AuthLog.ReachedSince, AuthLog.Legal;
    var before, e := log[..j], log[j].event;
    var payload, calls := e.call.payload, AuthView(ecdsa, EMPTY, before);
    LegalAt(ecdsa, EMPTY, log, j);
    AuthViewLegal(ecdsa, EMPTY, before);
    AuthLog.GrantedExactly(ecdsa, calls, StateAfter(ecdsa, EMPTY, before).store, payload, e.now, sid);
    if Auth.Parsed(payload).Some? {
      var msg := Auth.Parsed(payload).value;
      var id := DeviceIdToString(msg.device);
      var record := Lookup(StateAfter(ecdsa, EMPTY, before).store, id);
      RegistryFromLog(ecdsa, before, id, payload[..88], payload[88..], sid);
      if record.Some? {
        VerifiesReceivedOctets(ecdsa, record.value.key, payload[..88], msg, payload[88..]);
        AnswersSplit(ecdsa, calls, record.value, msg, Auth.SignatureOf(payload), e.now);
      }
    }
  }
}
