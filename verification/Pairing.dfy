/**
  The pairing state machine: one session per client with a displayed PIN, three attempts and
  sixty seconds, ending in a write to the device registry.
  */
module Pairing {
  import opened Bytes
  import opened DeviceIds
  import opened DeviceRegistry
  import opened SasPins

  const RATE_WINDOW := 600_000_000  // sixty seconds of FILETIME
  const RATE_ATTEMPTS := 5
  const FILETIME_WRAP := 0x1_0000_0000_0000_0000
  const DEVICE_ID_TEXT := 36

  type ClientId = U64

  datatype Phase =
    | Unpaired | PairingRequested | WaitingForSas | SasVerified | PairingConfirmed
    | Paired | Expired | Cancelled | Failed | Revoked

  datatype Session = Session(deviceId: DeviceId, name: string, clientIp: string, pin: string, generatedAt: FileTime,
                             attempts: nat, phase: Phase, key: Octets)

  datatype Attempts = Attempts(count: nat, windowStart: FileTime)

  datatype State = State(sessions: map<ClientId, Session>, attempts: map<string, Attempts>)

  const INITIAL := State(map[], map[])

  /** The fields of a PAIR_REQUEST whose device id is in the printed form. */
  datatype PairRequest = PairRequest(deviceId: DeviceId, name: string, key: Octets)

  datatype RequestOutcome = MalformedRequest | RateLimited | AlreadyPaired | TooManyDevices | NoPin | AwaitingPin

  /** `Completed` carries the record that was written. */
  datatype ConfirmOutcome =
    | NoSession | MalformedConfirm | WrongPin | PinExpired | AttemptsExhausted
    | Completed(deviceId: DeviceId, record: DeviceRecord) | WriteFailed

  /** The clock readings one confirmation makes, in order. */
  datatype ConfirmTimes = ConfirmTimes(checked: FileTime, recorded: FileTime, rechecked: FileTime, paired: FileTime)

  predicate ValidDraws(draws: Option<seq<U32>>) { draws.Some? ==> |draws.value| == MAX_REDRAWS + 1 }

  type Draws = d: Option<seq<U32>> | ValidDraws(d) witness None

  // ---------------------------------------------------------------------------
  // Transition functions
  // ---------------------------------------------------------------------------

  /** The age of the window is computed in unsigned 64-bit arithmetic. */
  predicate Throttled(attempts: map<string, Attempts>, id: string, now: FileTime) {
    id in attempts && (now - attempts[id].windowStart) % FILETIME_WRAP <= RATE_WINDOW &&
      attempts[id].count >= RATE_ATTEMPTS
  }

  function Recorded(attempts: map<string, Attempts>, id: string, now: FileTime): map<string, Attempts> {
    if id in attempts then attempts[id := attempts[id].(count := attempts[id].count + 1)]
    else attempts[id := Attempts(1, now)]
  }

  predicate AccountFull(store: Store, sid: string) {
    sid != "" && |ActiveFor(store, sid)| >= MAX_DEVICES_PER_ACCOUNT
  }

  function NewSession(r: PairRequest, ip: string, draws: Draws, issuedAt: FileTime): Session {
    Session(r.deviceId, r.name, ip, PinFor(draws), issuedAt, 0, WaitingForSas, r.key)
  }

  function OnRequest(s: State, store: Store, client: ClientId, ip: string, request: Option<PairRequest>, sid: string,
                     draws: Draws, checkedAt: FileTime, issuedAt: FileTime): (State, RequestOutcome) {
    var s1 := s.(sessions := s.sessions - {client});
    if request.None? || request.value.name == "" then (s1, MalformedRequest)
    else
      var id := DeviceIdToString(request.value.deviceId);
      if Throttled(s.attempts, id, checkedAt) then (s1, RateLimited)
      else if IsActive(store, id) then (s1, AlreadyPaired)
      else if AccountFull(store, sid) then (s1, TooManyDevices)
      else if PinFor(draws) == "" then (s1, NoPin)
      else (s1.(sessions := s1.sessions[client := NewSession(request.value, ip, draws, issuedAt)]), AwaitingPin)
  }

  function RecordOf(session: Session, sid: string, pairedAt: FileTime): DeviceRecord {
    DeviceRecord(session.name, sid, session.key, STATUS_ACTIVE, pairedAt, pairedAt)
  }

  function ConfirmVerdict(session: Session, idText: string, pin: string, sid: string, times: ConfirmTimes,
                          writable: bool): ConfirmOutcome {
    if |idText| != DEVICE_ID_TEXT || |pin| != SAS_PIN_LENGTH then MalformedConfirm
    else if PinAccepted(pin, session.pin, session.generatedAt, times.checked, session.attempts) then
      if writable then Completed(session.deviceId, RecordOf(session, sid, times.paired)) else WriteFailed
    else if SasPinExpired(session.generatedAt, times.rechecked) then PinExpired
    else if session.attempts + 1 >= SAS_MAX_ATTEMPTS then AttemptsExhausted
    else WrongPin
  }

  function OnConfirm(s: State, client: ClientId, idText: string, pin: string, sid: string, times: ConfirmTimes,
                     writable: bool): (State, ConfirmOutcome) {
    if client !in s.sessions || s.sessions[client].phase != WaitingForSas then (s, NoSession)
    else
      var session := s.sessions[client];
      var id := DeviceIdToString(session.deviceId);
      var outcome := ConfirmVerdict(session, idText, pin, sid, times, writable);
      match outcome
      case MalformedConfirm =>
        var phase := if session.attempts + 1 >= SAS_MAX_ATTEMPTS then Failed else session.phase;
        (State(s.sessions[client := session.(attempts := session.attempts + 1, phase := phase)],
               Recorded(s.attempts, id, times.recorded)), outcome)
      case WrongPin =>
        (State(s.sessions[client := session.(attempts := session.attempts + 1)],
               Recorded(s.attempts, id, times.recorded)), outcome)
      case PinExpired => (State(s.sessions - {client}, Recorded(s.attempts, id, times.recorded)), outcome)
      case AttemptsExhausted => (State(s.sessions - {client}, Recorded(s.attempts, id, times.recorded)), outcome)
      case _ => (State(s.sessions - {client}, s.attempts - {id}), outcome)
  }

  /** The registry after a confirmation. */
  function StoreAfterConfirm(store: Store, outcome: ConfirmOutcome): Store {
    if outcome.Completed? then Written(store, DeviceIdToString(outcome.deviceId), outcome.record) else store
  }

  datatype UnpairOutcome = MalformedUnpair | UnpairDone(success: bool)

  /** Unpairing deletes the record; a record that is already gone counts as success. */
  function OnUnpair(store: Store, idText: string, permitted: bool): (Store, UnpairOutcome) {
    if |idText| != DEVICE_ID_TEXT then (store, MalformedUnpair)
    else (if permitted then store - {idText} else store, UnpairDone(permitted || idText !in store))
  }

  function OnCancel(s: State, client: ClientId): State {
    s.(sessions := s.sessions - {client})
  }

  /** The clock is read once for every session. */
  function OnExpire(s: State, readings: ClientId -> FileTime): State {
    s.(sessions := map c | c in s.sessions && !SasPinExpired(s.sessions[c].generatedAt, readings(c)) :: s.sessions[c])
  }

  // ---------------------------------------------------------------------------
  // What holds between calls
  // ---------------------------------------------------------------------------

  /** Waiting with attempts left, or failed with all three used; the PIN is six digits. */
  predicate Settled(session: Session) {
    && WellFormedPin(session.pin)
    && ((session.phase == WaitingForSas && session.attempts < SAS_MAX_ATTEMPTS)
        || (session.phase == Failed && session.attempts == SAS_MAX_ATTEMPTS))
  }

  predicate AllSettled(s: State) {
    forall c :: c in s.sessions ==> Settled(s.sessions[c])
  }

  lemma {:induction false} NewSessionSettled(r: PairRequest, ip: string, draws: Draws, issuedAt: FileTime)
    requires PinFor(draws) != ""
    ensures Settled(NewSession(r, ip, draws, issuedAt))
  {
    PinDecodes(draws.value);
  }

  lemma {:induction false} RequestSettles(s: State, store: Store, client: ClientId, ip: string,
                                          request: Option<PairRequest>, sid: string,
                                          draws: Draws, checkedAt: FileTime, issuedAt: FileTime)
    requires AllSettled(s)
    ensures AllSettled(OnRequest(s, store, client, ip, request, sid, draws, checkedAt, issuedAt).0)
  {
    hide Throttled, IsActive, AccountFull, DeviceIdToString, PinFor;
    if request.Some? && PinFor(draws) != "" {
      NewSessionSettled(request.value, ip, draws, issuedAt);
    }
  }

  lemma {:induction false} ConfirmSettles(s: State, client: ClientId, idText: string, pin: string, sid: string,
                                          times: ConfirmTimes, writable: bool)
    requires AllSettled(s)
    ensures AllSettled(OnConfirm(s, client, idText, pin, sid, times, writable).0)
  {
    hide DeviceIdToString, PinAccepted, SasPinExpired, Recorded;
  }

  // ---------------------------------------------------------------------------
  // The code
  // ---------------------------------------------------------------------------

  class PairingManager {
    var sessions: map<ClientId, Session>
    var rateLimitMap: map<string, Attempts>

    ghost function View(): State
      reads this
    {
      State(sessions, rateLimitMap)
    }

    ghost predicate Valid()
      reads this
    {
      AllSettled(View())
    }

    constructor ()
      ensures Valid() && View() == INITIAL
    {
      sessions, rateLimitMap := map[], map[];
    }

    method ClearSession(clientId: ClientId)
      modifies this`sessions
      ensures sessions == old(sessions) - {clientId}
    {
      if clientId in sessions {
        sessions := sessions - {clientId};
      } else {
        assert sessions - {clientId} == sessions;
      }
    }

    method RecordFailedAttempt(id: string, now: FileTime)
      modifies this`rateLimitMap
      ensures rateLimitMap == Recorded(old(rateLimitMap), id, now)
    {
      if id !in rateLimitMap {
        rateLimitMap := rateLimitMap[id := Attempts(1, now)];
      } else {
        rateLimitMap := rateLimitMap[id := rateLimitMap[id].(count := rateLimitMap[id].count + 1)];
      }
    }

    method IsRateLimited(id: string, now: FileTime) returns (limited: bool)
      ensures limited == Throttled(rateLimitMap, id, now)
    {
      if id !in rateLimitMap {
        return false;
      }
      var count := rateLimitMap[id].count;
      if (now - rateLimitMap[id].windowStart) % FILETIME_WRAP > RATE_WINDOW {
        return false;
      }
      return count >= RATE_ATTEMPTS;
    }

    method HandlePairRequest(registry: Registry, ids: seq<string>, clientId: ClientId, clientIp: string,
                             request: Option<PairRequest>,
                             accountSid: string, draws: Draws, checkedAt: FileTime, issuedAt: FileTime)
      returns (outcome: RequestOutcome)
      requires Valid()
      requires forall id :: id in ids <==> id in registry.store
      requires forall i, j :: 0 <= i < j < |ids| ==> ids[i] != ids[j]
      modifies this
      ensures Valid()
      ensures (View(), outcome) ==
              OnRequest(old(View()), registry.store, clientId, clientIp, request, accountSid, draws, checkedAt,
                        issuedAt)
    {
      RequestSettles(View(), registry.store, clientId, clientIp, request, accountSid, draws, checkedAt, issuedAt);
      hide Throttled, DeviceIdToString, PinFor, Settled, ActiveFor;
      ClearSession(clientId);
      if request.None? || request.value.name == "" {
        return MalformedRequest;
      }
      var id := DeviceIdToString(request.value.deviceId);
      var limited := IsRateLimited(id, checkedAt);
      if limited {
        return RateLimited;
      }
      var record := registry.ReadDeviceRecord(id);
      if record.Some? && record.value.status == STATUS_ACTIVE {
        return AlreadyPaired;
      }
      if accountSid != "" {
        var activeCount := registry.CountActiveDevicesForAccount(accountSid, ids);
        if activeCount >= MAX_DEVICES_PER_ACCOUNT {
          return TooManyDevices;
        }
      }
      var sasPin := GenerateSasPin(draws);
      if sasPin == "" {
        return NoPin;
      }
      var session := Session(request.value.deviceId, request.value.name, clientIp, sasPin, issuedAt, 0, WaitingForSas,
                             request.value.key);
      sessions := sessions[clientId := session];
      return AwaitingPin;
    }

    method HandlePairConfirm(registry: Registry, clientId: ClientId, idText: string, sasPin: string, accountSid: string,
                             times: ConfirmTimes, writable: bool)
      returns (outcome: ConfirmOutcome)
      requires Valid()
      modifies this, registry
      ensures Valid()
      ensures (View(), outcome) == OnConfirm(old(View()), clientId, idText, sasPin, accountSid, times, writable)
      ensures registry.store == StoreAfterConfirm(old(registry.store), outcome)
    {
      ConfirmSettles(View(), clientId, idText, sasPin, accountSid, times, writable);
      hide DeviceIdToString, Recorded, PinAccepted, SasPinExpired, Written;
      if clientId !in sessions || sessions[clientId].phase != WaitingForSas {
        return NoSession;
      }
      var session := sessions[clientId];
      var id := DeviceIdToString(session.deviceId);
      if |idText| != DEVICE_ID_TEXT || |sasPin| != SAS_PIN_LENGTH {
        session := session.(attempts := session.attempts + 1);
        RecordFailedAttempt(id, times.recorded);
        if session.attempts >= SAS_MAX_ATTEMPTS {
          session := session.(phase := Failed);
        }
        sessions := sessions[clientId := session];
        return MalformedConfirm;
      }
      assert Settled(session);
      var pinOk := ValidateSasPin(sasPin, session.pin, session.generatedAt, times.checked, session.attempts);
      if !pinOk {
        session := session.(attempts := session.attempts + 1);
        RecordFailedAttempt(id, times.recorded);
        var expired := SasPinExpired(session.generatedAt, times.rechecked);
        var maxAttempts := session.attempts >= SAS_MAX_ATTEMPTS;
        if expired || maxAttempts {
          session := session.(phase := if expired then Expired else Failed);
          ClearSession(clientId);
          return if expired then PinExpired else AttemptsExhausted;
        }
        sessions := sessions[clientId := session];
        return WrongPin;
      }
      session := session.(phase := SasVerified);
      var record := DeviceRecord(session.name, accountSid, session.key, STATUS_ACTIVE, times.paired, times.paired);
      var written := registry.WriteDeviceRecord(session.deviceId, record, writable);
      rateLimitMap := rateLimitMap - {id};
      if written {
        session := session.(phase := Paired);
        ClearSession(clientId);
        return Completed(session.deviceId, record);
      }
      ClearSession(clientId);
      return WriteFailed;
    }

    method HandleUnpairRequest(registry: Registry, idText: string, permitted: bool) returns (outcome: UnpairOutcome)
      modifies registry
      ensures (registry.store, outcome) == OnUnpair(old(registry.store), idText, permitted)
    {
      if |idText| != DEVICE_ID_TEXT {
        return MalformedUnpair;
      }
      var success := registry.DeleteDeviceRecord(idText, permitted);
      return UnpairDone(success);
    }

    method CancelPairingSession(clientId: ClientId)
      requires Valid()
      modifies this`sessions
      ensures Valid() && View() == OnCancel(old(View()), clientId)
    {
      if clientId in sessions {
        sessions := sessions[clientId := sessions[clientId].(phase := Cancelled)];
      }
      ClearSession(clientId);
      assert sessions == old(sessions) - {clientId};
    }

    method ExpireStaleSessions(readings: ClientId -> FileTime)
      requires Valid()
      modifies this`sessions
      ensures Valid() && View() == OnExpire(old(View()), readings)
    {
      var toExpire: set<ClientId> := {};
      var pending := sessions.Keys;
      while pending != {}
        invariant pending <= sessions.Keys == old(sessions).Keys
        invariant toExpire == set c | c in sessions.Keys - pending &&
                  SasPinExpired(old(sessions)[c].generatedAt, readings(c))
        invariant forall c :: c in sessions && c !in toExpire ==> sessions[c] == old(sessions)[c]
        decreases pending
      {
        var c :| c in pending;
        if SasPinExpired(sessions[c].generatedAt, readings(c)) {
          sessions := sessions[c := sessions[c].(phase := Expired)];
          toExpire := toExpire + {c};
        }
        pending := pending - {c};
      }
      sessions := sessions - toExpire;
      assert sessions == OnExpire(old(View()), readings).sessions;
    }
  }

  // ---------------------------------------------------------------------------
  // Isolation
  // ---------------------------------------------------------------------------

  /** A confirmation changes no other client's session and no other device's record. */
  lemma {:induction false} ConfirmIsolated(s: State, store: Store, client: ClientId, idText: string, pin: string,
                                           sid: string, times: ConfirmTimes, writable: bool,
                                           otherClient: ClientId, other: DeviceId)
    requires otherClient != client && (client in s.sessions ==> s.sessions[client].deviceId != other)
    ensures var (s', outcome) := OnConfirm(s, client, idText, pin, sid, times, writable);
            && (otherClient in s.sessions <==> otherClient in s'.sessions)
            && (otherClient in s.sessions ==> s'.sessions[otherClient] == s.sessions[otherClient])
            && Lookup(StoreAfterConfirm(store, outcome), DeviceIdToString(other)) ==
              Lookup(store, DeviceIdToString(other))
  {
    hide PinAccepted, SasPinExpired, Recorded, DeviceIdToString;
    if client in s.sessions {
      TextInjective(s.sessions[client].deviceId, other);
    }
  }
}
