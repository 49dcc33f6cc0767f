/**
  The challenge/response state machine: per-device challenges drawn from one session counter,
  single use, thirty seconds of life, and a fifteen-minute lockout after three failures.
  */
module Authentication {
  import opened Bytes
  import opened Protocol
  import opened Crypto
  import opened DeviceIds
  import opened DeviceRegistry

  const CHALLENGE_TTL_MS := 30_000
  const MAX_FAILED_ATTEMPTS := 3
  const LOCKOUT_MS := 900_000
  const COUNTER_WRAP := 0x1_0000_0000_0000_0000
  const RESPONSE_SIZE := CANONICAL_SIGNED_MESSAGE_SIZE + P1363_SIGNATURE_SIZE

  /** Clock readings from which the end of a lockout can still be represented in 64 bits. */
  type Millis = t: int | 0 <= t < COUNTER_WRAP - LOCKOUT_MS

  datatype Challenge = Challenge(deviceId: DeviceId, sessionId: U64, nonce: Nonce, createdAt: Millis, consumed: bool)

  datatype RateLimit = RateLimit(failedCount: nat, lockoutUntil: nat)

  datatype State = State(challenges: map<string, Challenge>, limits: map<string, RateLimit>, counter: U64)

  const INITIAL := State(map[], map[], 1)

  datatype Reason =
    | RateLimited | UnknownDevice | DeviceRevoked | MissingPublicKey | RandomSourceFailed
    | InvalidPayloadSize | InvalidSignatureLength | InvalidSignedMessage
    | NoActiveChallenge | AlreadyConsumed | NonceExpired | SessionMismatch | NonceMismatch | SignatureInvalid

  /** The reply: a fresh challenge, a grant naming the mapped account, or a refusal. */
  datatype Verdict =
    | Issued(sessionId: U64, nonce: Nonce, createdAt: Millis)
    | Granted(accountSid: string)
    | Refused(reason: Reason)

  // ---------------------------------------------------------------------------
  // Transition functions
  // ---------------------------------------------------------------------------

  function LimitOf(limits: map<string, RateLimit>, id: string): RateLimit {
    if id in limits then limits[id] else RateLimit(0, 0)
  }

  predicate Limited(limits: map<string, RateLimit>, id: string, now: Millis) {
    now < LimitOf(limits, id).lockoutUntil
  }

  /** Looking at an expired lockout clears it. */
  function Observed(limits: map<string, RateLimit>, id: string, now: Millis): map<string, RateLimit> {
    if LimitOf(limits, id).lockoutUntil != 0 && !Limited(limits, id, now) then limits[id := RateLimit(0, 0)] else limits
  }

  function Failed(limits: map<string, RateLimit>, id: string, now: Millis): map<string, RateLimit> {
    var l := LimitOf(limits, id);
    var until := if l.failedCount + 1 >= MAX_FAILED_ATTEMPTS then now + LOCKOUT_MS else l.lockoutUntil;
    limits[id := RateLimit(l.failedCount + 1, until)]
  }

  function Request(s: State, store: Store, device: DeviceId, now: Millis, draw: Option<Nonce>): (State, Verdict) {
    var id := DeviceIdToString(device);
    if Limited(s.limits, id, now) then (s, Refused(RateLimited))
    else
      var s1 := s.(limits := Observed(s.limits, id, now));
      var record := Lookup(store, id);
      if record.None? then (s1, Refused(UnknownDevice))
      else if record.value.status != STATUS_ACTIVE then (s1, Refused(DeviceRevoked))
      else if record.value.key == [] then (s1, Refused(MissingPublicKey))
      else
        var s2 := s1.(counter := (s.counter + 1) % COUNTER_WRAP);
        if draw.None? then (s2, Refused(RandomSourceFailed))
        else
          (s2.(challenges := s.challenges[id := Challenge(device, s.counter, draw.value, now, false)]),
           Issued(s.counter, draw.value, now))
  }

  /** The message in a response payload of exactly the right size. */
  function Parsed(payload: Octets): Option<SignedMessage> {
    if |payload| == RESPONSE_SIZE then DecodeMessage(payload[..CANONICAL_SIGNED_MESSAGE_SIZE]) else None
  }

  function SignatureOf(payload: Octets): Octets
    requires |payload| == RESPONSE_SIZE
  {
    payload[CANONICAL_SIGNED_MESSAGE_SIZE..]
  }

  /** The decision behind the rate limiter, in the order of the checks. */
  function Judge(ecdsa: Ecdsa, record: Option<DeviceRecord>, challenge: Option<Challenge>, msg: SignedMessage,
                 sig: Octets, now: Millis): Verdict {
    if record.None? then Refused(UnknownDevice)
    else if record.value.status != STATUS_ACTIVE then Refused(DeviceRevoked)
    else if record.value.key == [] then Refused(MissingPublicKey)
    else if challenge.None? then Refused(NoActiveChallenge)
    else if challenge.value.consumed then Refused(AlreadyConsumed)
    else if now < challenge.value.createdAt || now - challenge.value.createdAt > CHALLENGE_TTL_MS then
      Refused(NonceExpired)
    else if msg.sessionId != challenge.value.sessionId then Refused(SessionMismatch)
    else if msg.nonce != challenge.value.nonce then Refused(NonceMismatch)
    else if !Verifies(ecdsa, record.value.key, msg, sig) then Refused(SignatureInvalid)
    else Granted(record.value.sid)
  }

  /** Verdicts whose response used up the challenge it met. */
  predicate UsesChallenge(v: Verdict) {
    v.Granted? || (v.Refused? && v.reason in {NonceExpired, SessionMismatch, NonceMismatch, SignatureInvalid})
  }

  function ChallengeOf(challenges: map<string, Challenge>, id: string): Option<Challenge> {
    if id in challenges then Some(challenges[id]) else None
  }

  function Respond(ecdsa: Ecdsa, s: State, store: Store, payload: Octets, now: Millis): (State, Verdict) {
    if |payload| < RESPONSE_SIZE then (s, Refused(InvalidPayloadSize))
    else if |payload| > RESPONSE_SIZE then (s, Refused(InvalidSignatureLength))
    else if Parsed(payload).None? then (s, Refused(InvalidSignedMessage))
    else
      var msg := Parsed(payload).value;
      var id := DeviceIdToString(msg.device);
      if Limited(s.limits, id, now) then (s, Refused(RateLimited))
      else
        var limits := Observed(s.limits, id, now);
        var v := Judge(ecdsa, Lookup(store, id), ChallengeOf(s.challenges, id), msg, SignatureOf(payload), now);
        var challenges :=
          if UsesChallenge(v) && id in s.challenges then s.challenges[id := s.challenges[id].(consumed := true)]
          else s.challenges;
        (State(challenges, if v.Granted? then limits - {id} else Failed(limits, id, now), s.counter), v)
  }

  /** The registry afterwards: a grant refreshes the last-seen time of its device. */
  function StoreAfterResponse(store: Store, payload: Octets, v: Verdict, seenAt: U64): Store {
    if v.Granted? && Parsed(payload).Some? then Seen(store, DeviceIdToString(Parsed(payload).value.device), seenAt)
    else store
  }

  // ---------------------------------------------------------------------------
  // The code
  // ---------------------------------------------------------------------------

  class AuthenticationManager {
    var activeChallenges: map<string, Challenge>
    var rateLimits: map<string, RateLimit>
    var sessionCounter: U64

    ghost function View(): State
      reads this
    {
      State(activeChallenges, rateLimits, sessionCounter)
    }

    constructor ()
      ensures View() == INITIAL
    {
      activeChallenges, rateLimits, sessionCounter := map[], map[], 1;
    }

    method IsRateLimited(id: string, nowMs: Millis) returns (limited: bool)
      modifies this`rateLimits
      ensures limited == Limited(old(rateLimits), id, nowMs)
      ensures rateLimits == if limited then old(rateLimits) else Observed(old(rateLimits), id, nowMs)
    {
      if id in rateLimits {
        if nowMs < rateLimits[id].lockoutUntil {
          return true;
        }
        if rateLimits[id].lockoutUntil != 0 && nowMs >= rateLimits[id].lockoutUntil {
          rateLimits := rateLimits[id := RateLimit(0, 0)];
        }
      }
      return false;
    }

    method RecordFailure(id: string, nowMs: Millis)
      modifies this`rateLimits
      ensures rateLimits == Failed(old(rateLimits), id, nowMs)
    {
      var limit := if id in rateLimits then rateLimits[id] else RateLimit(0, 0);
      limit := limit.(failedCount := limit.failedCount + 1);
      if limit.failedCount >= MAX_FAILED_ATTEMPTS {
        limit := limit.(lockoutUntil := nowMs + LOCKOUT_MS);
      }
      rateLimits := rateLimits[id := limit];
    }

    method RecordSuccess(id: string)
      modifies this`rateLimits
      ensures rateLimits == old(rateLimits) - {id}
    {
      rateLimits := rateLimits - {id};
    }

    method HandleAuthRequest(registry: Registry, deviceId: DeviceId, nowMs: Millis, draw: Option<Nonce>)
      returns (verdict: Verdict)
      modifies this
      ensures (View(), verdict) == Request(old(View()), registry.store, deviceId, nowMs, draw)
    {
      var id := DeviceIdToString(deviceId);
      var limited := IsRateLimited(id, nowMs);
      if limited {
        return Refused(RateLimited);
      }
      var record := registry.ReadDeviceRecord(id);
      if record.None? {
        return Refused(UnknownDevice);
      }
      if record.value.status != STATUS_ACTIVE {
        return Refused(DeviceRevoked);
      }
      if record.value.key == [] {
        return Refused(MissingPublicKey);
      }
      var sessionId := sessionCounter;
      sessionCounter := (sessionCounter + 1) % COUNTER_WRAP;
      if draw.None? {
        return Refused(RandomSourceFailed);
      }
      activeChallenges := activeChallenges[id := Challenge(deviceId, sessionId, draw.value, nowMs, false)];
      return Issued(sessionId, draw.value, nowMs);
    }

    /** Marks the challenge of a device as used. */
    method Consume(id: string)
      requires id in activeChallenges
      modifies this`activeChallenges
      ensures activeChallenges == old(activeChallenges)[id := old(activeChallenges)[id].(consumed := true)]
    {
      activeChallenges := activeChallenges[id := activeChallenges[id].(consumed := true)];
    }

    /** Checks 5 to 8 of the response handler, which all run behind the rate limiter. */
    method CheckResponse(ecdsa: Ecdsa, registry: Registry, id: string, msg: SignedMessage, sig: Octets, nowMs: Millis,
                         seenAt: U64)
      returns (verdict: Verdict)
      modifies this`activeChallenges, this`rateLimits, registry
      ensures verdict ==
              Judge(ecdsa, Lookup(old(registry.store), id), ChallengeOf(old(activeChallenges), id), msg, sig, nowMs)
      ensures activeChallenges == if UsesChallenge(verdict) && id in old(activeChallenges)
                                  then old(activeChallenges)[id := old(activeChallenges)[id].(consumed := true)]
                                  else old(activeChallenges)
      ensures rateLimits == if verdict.Granted? then old(rateLimits) - {id} else Failed(old(rateLimits), id, nowMs)
      ensures registry.store == if verdict.Granted? then Seen(old(registry.store), id, seenAt) else old(registry.store)
    {
      var record := registry.ReadDeviceRecord(id);
      if record.None? {
        RecordFailure(id, nowMs);
        return Refused(UnknownDevice);
      }
      if record.value.status != STATUS_ACTIVE {
        RecordFailure(id, nowMs);
        return Refused(DeviceRevoked);
      }
      if record.value.key == [] {
        RecordFailure(id, nowMs);
        return Refused(MissingPublicKey);
      }
      if id !in activeChallenges {
        RecordFailure(id, nowMs);
        return Refused(NoActiveChallenge);
      }
      var challenge := activeChallenges[id];
      if challenge.consumed {
        RecordFailure(id, nowMs);
        return Refused(AlreadyConsumed);
      }
      if nowMs < challenge.createdAt || nowMs - challenge.createdAt > CHALLENGE_TTL_MS {
        Consume(id);
        RecordFailure(id, nowMs);
        return Refused(NonceExpired);
      }
      if msg.sessionId != challenge.sessionId {
        Consume(id);
        RecordFailure(id, nowMs);
        return Refused(SessionMismatch);
      }
      if msg.nonce != challenge.nonce {
        Consume(id);
        RecordFailure(id, nowMs);
        return Refused(NonceMismatch);
      }
      Consume(id);
      var sigValid := VerifyCanonicalSignedMessage(ecdsa, record.value.key, msg, sig);
      if !sigValid {
        RecordFailure(id, nowMs);
        return Refused(SignatureInvalid);
      }
      RecordSuccess(id);
      var _ := registry.UpdateLastSeen(id, seenAt);
      return Granted(record.value.sid);
    }

    method HandleAuthResponse(ecdsa: Ecdsa, registry: Registry, payload: Octets, nowMs: Millis, seenAt: U64)
      returns (verdict: Verdict)
      modifies this, registry
      ensures (View(), verdict) == Respond(ecdsa, old(View()), old(registry.store), payload, nowMs)
      ensures registry.store == StoreAfterResponse(old(registry.store), payload, verdict, seenAt)
    {
      if |payload| < CANONICAL_SIGNED_MESSAGE_SIZE + P1363_SIGNATURE_SIZE {
        return Refused(InvalidPayloadSize);
      }
      if |payload| - CANONICAL_SIGNED_MESSAGE_SIZE != P1363_SIGNATURE_SIZE {
        return Refused(InvalidSignatureLength);
      }
      var parseRes := DeserializeSignedMessage(payload[..CANONICAL_SIGNED_MESSAGE_SIZE]);
      if parseRes.None? {
        return Refused(InvalidSignedMessage);
      }
      var msg := parseRes.value;
      var currentDevId := DeviceIdToString(msg.device);
      var limited := IsRateLimited(currentDevId, nowMs);
      if limited {
        return Refused(RateLimited);
      }
      verdict := CheckResponse(ecdsa, registry, currentDevId, msg, payload[CANONICAL_SIGNED_MESSAGE_SIZE..], nowMs,
                               seenAt);
    }
  }

  // ---------------------------------------------------------------------------
  // Isolation
  // ---------------------------------------------------------------------------

  /** A request touches nothing but the entries of its own device. */
  lemma {:induction false} RequestIsolated(s: State, store: Store, device: DeviceId, now: Millis, draw: Option<Nonce>,
                                           other: DeviceId)
    requires other != device
    ensures var s' := Request(s, store, device, now, draw).0; var o := DeviceIdToString(other);
            ChallengeOf(s'.challenges, o) == ChallengeOf(s.challenges, o) &&
              LimitOf(s'.limits, o) == LimitOf(s.limits, o)
  {
    TextInjective(device, other);
  }

  /** Neither does a response, whatever it says and however it is answered. */
  lemma {:induction false} ResponseIsolated(ecdsa: Ecdsa, s: State, store: Store, payload: Octets, now: Millis,
                                            seenAt: U64, other: DeviceId)
    requires Parsed(payload).Some? ==> Parsed(payload).value.device != other
    ensures var (s', v) := Respond(ecdsa, s, store, payload, now); var o := DeviceIdToString(other);
            && ChallengeOf(s'.challenges, o) == ChallengeOf(s.challenges, o)
            && LimitOf(s'.limits, o) == LimitOf(s.limits, o)
            && Lookup(StoreAfterResponse(store, payload, v, seenAt), o) == Lookup(store, o)
  {
    if Parsed(payload).Some? {
      TextInjective(Parsed(payload).value.device, other);
    }
  }
}
