/**
  Whole runs of the authentication service, seen from outside. A log lists every call with its
  clock reading, the registry it met and the answer. What follows is stated on logs alone: who is
  locked out, which challenge is live, and when a response is granted.
  */
module AuthenticationLog {
  import opened Bytes
  import opened Protocol
  import opened Crypto
  import opened DeviceIds
  import opened DeviceRegistry
  import opened Authentication

  datatype Event = AuthRequest(device: DeviceId, draw: Option<Nonce>) | AuthResponse(payload: Octets)

  datatype Entry = Entry(now: Millis, event: Event, store: Store, verdict: Verdict)

  function Step(ecdsa: Ecdsa, s: State, now: Millis, event: Event, store: Store): (State, Verdict) {
    match event
    case AuthRequest(device, draw) => Request(s, store, device, now, draw)
    case AuthResponse(payload) => Respond(ecdsa, s, store, payload, now)
  }

  function StateAfter(ecdsa: Ecdsa, log: seq<Entry>): State {
    if log == [] then INITIAL
    else
      var e := log[|log| - 1];
      Step(ecdsa, StateAfter(ecdsa, log[..|log| - 1]), e.now, e.event, e.store).0
  }

  /** The answers in the log are the ones the service gives, whatever the registry did meanwhile. */
  predicate Legal(ecdsa: Ecdsa, log: seq<Entry>) {
    log == [] ||
    var front, e := log[..|log| - 1], log[|log| - 1];
    Legal(ecdsa, front) && e.verdict == Step(ecdsa, StateAfter(ecdsa, front), e.now, e.event, e.store).1
  }

  // ---------------------------------------------------------------------------
  // Reading a log
  // ---------------------------------------------------------------------------

  /** The entry is a call for the device filed under `id`. */
  predicate Visits(e: Entry, id: string) {
    match e.event
    case AuthRequest(device, _) => DeviceIdToString(device) == id
    case AuthResponse(payload) => Parsed(payload).Some? && DeviceIdToString(Parsed(payload).value.device) == id
  }

  predicate CountedFailure(e: Entry, id: string) {
    e.event.AuthResponse? && Visits(e, id) && e.verdict.Refused? && e.verdict.reason != RateLimited
  }

  predicate Success(e: Entry, id: string) {
    e.event.AuthResponse? && Visits(e, id) && e.verdict.Granted?
  }

  predicate Issues(e: Entry, id: string) {
    e.event.AuthRequest? && Visits(e, id) && e.verdict.Issued?
  }

  /** Refusals of a well-formed response by a check that comes before its challenge is looked into. */
  predicate TurnedAway(v: Verdict) {
    v.Refused? && v.reason in {RateLimited, UnknownDevice, DeviceRevoked, MissingPublicKey, NoActiveChallenge,
                               AlreadyConsumed}
  }

  /** A response that met an unused challenge of the device: no earlier check turned it away. */
  predicate Reaches(e: Entry, id: string) {
    e.event.AuthResponse? && Visits(e, id) && !TurnedAway(e.verdict)
  }

  function FailuresSinceSuccess(log: seq<Entry>, id: string): nat {
    if log == [] then 0
    else if Success(log[|log| - 1], id) then 0
    else FailuresSinceSuccess(log[..|log| - 1], id) + if CountedFailure(log[|log| - 1], id) then 1 else 0
  }

  /** Entry `i` is every third counted failure since the last success: it starts a lockout. */
  predicate Trip(log: seq<Entry>, id: string, i: int) {
    && 0 <= i < |log|
    && CountedFailure(log[i], id)
    && FailuresSinceSuccess(log[..i + 1], id) % 3 == 0
  }

  function LockoutEnd(e: Entry): nat { e.now + 900_000 }

  /** No later call of the device saw the clock at or past the end of the lockout. */
  ghost predicate ActiveTrip(log: seq<Entry>, id: string, i: int) {
    && Trip(log, id, i)
    && forall j :: i < j < |log| && Visits(log[j], id) ==> log[j].now < LockoutEnd(log[i])
  }

  ghost predicate LockedOut(log: seq<Entry>, id: string, now: Millis) {
    exists i :: ActiveTrip(log, id, i) && now < LockoutEnd(log[i])
  }

  ghost predicate LatestIssue(log: seq<Entry>, id: string, i: int) {
    && 0 <= i < |log|
    && Issues(log[i], id)
    && forall j :: i < j < |log| ==> !Issues(log[j], id)
  }

  ghost predicate ReachedSince(log: seq<Entry>, id: string, i: int) {
    exists j :: 0 <= i < j < |log| && Reaches(log[j], id)
  }

  /** The live, fresh challenge at entry `i` answered by this message, under the registered key. */
  ghost predicate Answers(ecdsa: Ecdsa, log: seq<Entry>, record: DeviceRecord, i: int, msg: SignedMessage, sig: Octets,
                          now: Millis) {
    var id := DeviceIdToString(msg.device);
    && LatestIssue(log, id, i)
    && !ReachedSince(log, id, i)
    && log[i].now <= now <= log[i].now + 30_000
    && msg.sessionId == log[i].verdict.sessionId
    && msg.nonce == log[i].verdict.nonce
    && Verifies(ecdsa, record.key, msg, sig)
  }

  /** When the log says that a response is to be granted, and with which account. */
  ghost predicate LogGrants(ecdsa: Ecdsa, log: seq<Entry>, store: Store, payload: Octets, now: Millis, sid: string) {
    Parsed(payload).Some? &&
    var msg := Parsed(payload).value;
    var id := DeviceIdToString(msg.device);
    var record := Lookup(store, id);
    && !LockedOut(log, id, now)
    && record.Some? && record.value.status == STATUS_ACTIVE && record.value.key != [] && record.value.sid == sid
    && exists i :: Answers(ecdsa, log, record.value, i, msg, SignatureOf(payload), now)
  }

  // ---------------------------------------------------------------------------
  // Lockouts
  // ---------------------------------------------------------------------------

  lemma {:induction false} TripStable(log: seq<Entry>, id: string, i: int)
    requires log != [] && i < |log| - 1
    ensures Trip(log, id, i) <==> Trip(log[..|log| - 1], id, i)
  {
    hide CountedFailure, Success;
    if 0 <= i {
      assert log[..|log| - 1][..i + 1] == log[..i + 1];
    }
  }

  lemma {:induction false} ActiveTripStable(log: seq<Entry>, id: string, i: int)
    requires log != [] && i < |log| - 1
    ensures var front, e := log[..|log| - 1], log[|log| - 1];
            ActiveTrip(log, id, i) <==>
              0 <= i && ActiveTrip(front, id, i) && (Visits(e, id) ==> e.now < LockoutEnd(front[i]))
  {
    hide Visits, CountedFailure, Success;
    TripStable(log, id, i);
    var front := log[..|log| - 1];
    if 0 <= i {
      assert front[i] == log[i];
      if ActiveTrip(log, id, i) {
        forall j | i < j < |front| && Visits(front[j], id)
          ensures front[j].now < LockoutEnd(front[i])
        {
          assert front[j] == log[j];
        }
      }
    }
  }

  /** How one device's failure record mirrors the log. */
  ghost predicate LimitMirrors(l: RateLimit, log: seq<Entry>, id: string) {
    && l.failedCount <= MAX_FAILED_ATTEMPTS
    && (l.failedCount == MAX_FAILED_ATTEMPTS <==> l.lockoutUntil != 0)
    && FailuresSinceSuccess(log, id) % MAX_FAILED_ATTEMPTS == l.failedCount % MAX_FAILED_ATTEMPTS
    && (forall i :: ActiveTrip(log, id, i) ==> LockoutEnd(log[i]) == l.lockoutUntil)
    && (l.lockoutUntil != 0 ==> exists i :: ActiveTrip(log, id, i))
  }

  /** A call of the device that is let through finds any lockout over. */
  lemma {:induction false} LetThroughEndsTrips(log: seq<Entry>, id: string, l: RateLimit)
    requires log != [] && LimitMirrors(l, log[..|log| - 1], id)
    requires Visits(log[|log| - 1], id) && l.lockoutUntil <= log[|log| - 1].now
    ensures forall i :: i < |log| - 1 ==> !ActiveTrip(log, id, i)
  {
    hide Visits, CountedFailure, Success;
    forall i | i < |log| - 1
      ensures !ActiveTrip(log, id, i)
    {
      ActiveTripStable(log, id, i);
    }
  }

  /** A call that is not let through, or is not of the device, leaves the trips as they were. */
  lemma {:induction false} OthersKeepTrips(log: seq<Entry>, id: string, l: RateLimit)
    requires log != [] && LimitMirrors(l, log[..|log| - 1], id)
    requires Visits(log[|log| - 1], id) ==> log[|log| - 1].now < l.lockoutUntil
    requires !CountedFailure(log[|log| - 1], id) && !Success(log[|log| - 1], id)
    ensures LimitMirrors(l, log, id)
  {
    hide Visits, CountedFailure, Success;
    var front, n := log[..|log| - 1], |log| - 1;
    forall i | ActiveTrip(log, id, i)
      ensures LockoutEnd(log[i]) == l.lockoutUntil
    {
      if i < n {
        ActiveTripStable(log, id, i);
        assert front[i] == log[i];
      }
    }
    if l.lockoutUntil != 0 {
      var i :| ActiveTrip(front, id, i);
      ActiveTripStable(log, id, i);
      assert ActiveTrip(log, id, i);
    }
  }

  /** What a counted failure does to the record of a device that was let through. */
  function AfterFailure(l: RateLimit, now: Millis): RateLimit {
    var count := if l.lockoutUntil != 0 then 1 else l.failedCount + 1;
    RateLimit(count, if count >= MAX_FAILED_ATTEMPTS then now + LOCKOUT_MS else 0)
  }

  lemma {:induction false} FailureMirrored(log: seq<Entry>, id: string, l: RateLimit)
    requires log != [] && LimitMirrors(l, log[..|log| - 1], id)
    requires CountedFailure(log[|log| - 1], id) && !Success(log[|log| - 1], id)
    requires Visits(log[|log| - 1], id) && l.lockoutUntil <= log[|log| - 1].now
    ensures LimitMirrors(AfterFailure(l, log[|log| - 1].now), log, id)
  {
    hide Visits, CountedFailure, Success;
    var n := |log| - 1;
    LetThroughEndsTrips(log, id, l);
    assert log[..n + 1] == log;
    if AfterFailure(l, log[n].now).failedCount >= MAX_FAILED_ATTEMPTS {
      assert ActiveTrip(log, id, n);
    }
  }

  lemma {:induction false} SuccessMirrored(log: seq<Entry>, id: string, l: RateLimit)
    requires log != [] && LimitMirrors(l, log[..|log| - 1], id)
    requires Success(log[|log| - 1], id) && !CountedFailure(log[|log| - 1], id)
    requires Visits(log[|log| - 1], id) && l.lockoutUntil <= log[|log| - 1].now
    ensures LimitMirrors(RateLimit(0, 0), log, id)
  {
    hide Visits, CountedFailure, Success;
    LetThroughEndsTrips(log, id, l);
  }

  lemma {:induction false} ExpiryMirrored(log: seq<Entry>, id: string, l: RateLimit)
    requires log != [] && LimitMirrors(l, log[..|log| - 1], id)
    requires Visits(log[|log| - 1], id) && l.lockoutUntil <= log[|log| - 1].now
    requires !CountedFailure(log[|log| - 1], id) && !Success(log[|log| - 1], id)
    ensures LimitMirrors(if l.lockoutUntil != 0 then RateLimit(0, 0) else l, log, id)
  {
    hide Visits, CountedFailure, Success;
    LetThroughEndsTrips(log, id, l);
  }

  lemma {:induction false} RequestLimits(s: State, store: Store, device: DeviceId, now: Millis, draw: Option<Nonce>,
                                         id: string)
    ensures var l, l' := LimitOf(s.limits, id), LimitOf(Request(s, store, device, now, draw).0.limits, id);
            l' == if DeviceIdToString(device) == id && l.lockoutUntil <= now && l.lockoutUntil != 0
                  then RateLimit(0, 0) else l
  {
    hide DeviceIdToString, Lookup;
  }

  lemma {:induction false} RespondLimits(ecdsa: Ecdsa, s: State, store: Store, payload: Octets, now: Millis, id: string)
    ensures var l := LimitOf(s.limits, id);
            var (s', v) := Respond(ecdsa, s, store, payload, now);
            var l' := LimitOf(s'.limits, id);
            if Parsed(payload).None? || DeviceIdToString(Parsed(payload).value.device) != id then l' == l
            else if now < l.lockoutUntil then l' == l && v == Refused(RateLimited)
            else if v.Granted? then l' == RateLimit(0, 0)
            else v.Refused? && v.reason != RateLimited && l' == AfterFailure(l, now)
  {
    hide DeviceIdToString, Lookup, DecodeMessage, Verifies;
  }

  /** The effect of one logged call on the failure record of a device. */
  lemma {:induction false} EntryLimits(ecdsa: Ecdsa, s: State, e: Entry, id: string)
    requires e.verdict == Step(ecdsa, s, e.now, e.event, e.store).1
    ensures var l, l' := LimitOf(s.limits, id), LimitOf(Step(ecdsa, s, e.now, e.event, e.store).0.limits, id);
            if CountedFailure(e, id) then
              !Success(e, id) && Visits(e, id) && l.lockoutUntil <= e.now && l' == AfterFailure(l, e.now)
            else if Success(e, id) then Visits(e, id) && l.lockoutUntil <= e.now && l' == RateLimit(0, 0)
            else l' == if Visits(e, id) && l.lockoutUntil <= e.now && l.lockoutUntil != 0 then RateLimit(0, 0) else l
  {
    hide Request, Respond, Parsed, DeviceIdToString;
    match e.event {
      case AuthRequest(device, draw) => RequestLimits(s, e.store, device, e.now, draw, id);
      case AuthResponse(payload) => RespondLimits(ecdsa, s, e.store, payload, e.now, id);
    }
  }

  /** failedCount <= 3, and it is 3 exactly while a lockout is set, in every reachable state. */
  lemma {:induction false} LimitsMirrorLog(ecdsa: Ecdsa, log: seq<Entry>, id: string)
    requires Legal(ecdsa, log)
    ensures LimitMirrors(LimitOf(StateAfter(ecdsa, log).limits, id), log, id)
  {
    hide Visits, CountedFailure, Success, Step;
    if log != [] {
      var front, e := log[..|log| - 1], log[|log| - 1];
      LimitsMirrorLog(ecdsa, front, id);
      var s := StateAfter(ecdsa, front);
      var l := LimitOf(s.limits, id);
      EntryLimits(ecdsa, s, e, id);
      if CountedFailure(e, id) {
        FailureMirrored(log, id, l);
      } else if Success(e, id) {
        SuccessMirrored(log, id, l);
      } else if Visits(e, id) && l.lockoutUntil <= e.now {
        ExpiryMirrored(log, id, l);
      } else {
        OthersKeepTrips(log, id, l);
      }
    }
  }

  /** The service is locked for a device exactly when the log says so, for arbitrary clocks. */
  lemma {:induction false} LockedOutExactly(ecdsa: Ecdsa, log: seq<Entry>, id: string, now: Millis)
    requires Legal(ecdsa, log)
    ensures Limited(StateAfter(ecdsa, log).limits, id, now) <==> LockedOut(log, id, now)
  {
    LimitsMirrorLog(ecdsa, log, id);
  }

  function UnknownAt(payload: Octets, now: Millis): Entry {
    Entry(now, AuthResponse(payload), map[], Refused(UnknownDevice))
  }

  lemma {:induction false} NothingYet(ecdsa: Ecdsa)
    ensures Legal(ecdsa, []) && StateAfter(ecdsa, []) == INITIAL
  {
  }

  /** A response of an unpaired device is one more failure. */
  lemma {:induction false} UnknownCounts(ecdsa: Ecdsa, log: seq<Entry>, payload: Octets, now: Millis)
    requires Legal(ecdsa, log) && Parsed(payload).Some?
    requires LimitOf(StateAfter(ecdsa, log).limits, DeviceIdToString(Parsed(payload).value.device)).lockoutUntil == 0
    ensures var longer := log + [UnknownAt(payload, now)];
            && Legal(ecdsa, longer)
            && StateAfter(ecdsa, longer).limits ==
              Failed(StateAfter(ecdsa, log).limits, DeviceIdToString(Parsed(payload).value.device), now)
  {
    hide DecodeMessage, DeviceIdToString;
    assert (log + [UnknownAt(payload, now)])[..|log|] == log;
  }

  /** Three failures lock the device out however far apart they are: no time window is involved. */
  lemma {:induction false} FailuresNeverAge(ecdsa: Ecdsa, payload: Octets, t1: Millis, t2: Millis, t3: Millis)
    requires Parsed(payload).Some?
    ensures var log := [UnknownAt(payload, t1)] + [UnknownAt(payload, t2)] + [UnknownAt(payload, t3)];
            Legal(ecdsa, log) && LockedOut(log, DeviceIdToString(Parsed(payload).value.device), t3)
  {
    hide DecodeMessage, DeviceIdToString, LockedOut, Legal, StateAfter, Step, Parsed;
    assert Legal(ecdsa, []) && StateAfter(ecdsa, []) == INITIAL by { NothingYet(ecdsa); }
    assert [] + [UnknownAt(payload, t1)] == [UnknownAt(payload, t1)];
    var log := [UnknownAt(payload, t1)] + [UnknownAt(payload, t2)];
    UnknownCounts(ecdsa, [], payload, t1);
    UnknownCounts(ecdsa, [UnknownAt(payload, t1)], payload, t2);
    UnknownCounts(ecdsa, log, payload, t3);
    LockedOutExactly(ecdsa, log + [UnknownAt(payload, t3)], DeviceIdToString(Parsed(payload).value.device), t3);
  }

  // ---------------------------------------------------------------------------
  // Challenges
  // ---------------------------------------------------------------------------

  /** The stored challenge of a device is its latest issue, consumed exactly if reached since. */
  ghost predicate ChallengeMirrors(c: Option<Challenge>, log: seq<Entry>, id: string) {
    && (forall i :: LatestIssue(log, id, i) ==>
          && c.Some?
          && c.value.sessionId == log[i].verdict.sessionId
          && c.value.nonce == log[i].verdict.nonce
          && c.value.createdAt == log[i].now
          && (c.value.consumed <==> ReachedSince(log, id, i)))
    && (c.Some? ==> exists i :: LatestIssue(log, id, i))
  }

  lemma {:induction false} LatestStays(log: seq<Entry>, id: string, i: int)
    requires log != [] && !Issues(log[|log| - 1], id) && LatestIssue(log[..|log| - 1], id, i)
    ensures LatestIssue(log, id, i)
  {
    hide Issues;
    var front := log[..|log| - 1];
    assert log[i] == front[i];
    forall j | i < j < |log|
      ensures !Issues(log[j], id)
    {
      if j < |front| {
        assert log[j] == front[j];
      }
    }
  }

  lemma {:induction false} LatestWas(log: seq<Entry>, id: string, i: int)
    requires log != [] && !Issues(log[|log| - 1], id) && LatestIssue(log, id, i)
    ensures LatestIssue(log[..|log| - 1], id, i)
  {
    hide Issues;
    var front := log[..|log| - 1];
    assert i != |log| - 1;
    assert front[i] == log[i];
    forall j | i < j < |front|
      ensures !Issues(front[j], id)
    {
      assert log[j] == front[j];
    }
  }

  lemma {:induction false} ReachedStays(log: seq<Entry>, id: string, i: int)
    requires log != [] && ReachedSince(log[..|log| - 1], id, i)
    ensures ReachedSince(log, id, i)
  {
    hide Reaches;
    var front := log[..|log| - 1];
    var j :| 0 <= i < j < |front| && Reaches(front[j], id);
    assert log[j] == front[j];
  }

  lemma {:induction false} ReachedWas(log: seq<Entry>, id: string, i: int)
    requires log != [] && ReachedSince(log, id, i) && !Reaches(log[|log| - 1], id)
    ensures ReachedSince(log[..|log| - 1], id, i)
  {
    hide Reaches;
    var front := log[..|log| - 1];
    var j :| 0 <= i < j < |log| && Reaches(log[j], id);
    assert log[j] == front[j];
  }

  lemma {:induction false} NoIssueMirrored(log: seq<Entry>, id: string, c: Option<Challenge>)
    requires log != [] && ChallengeMirrors(c, log[..|log| - 1], id) && !Issues(log[|log| - 1], id)
    ensures var after := if c.Some? && Reaches(log[|log| - 1], id) then Some(c.value.(consumed := true)) else c;
            ChallengeMirrors(after, log, id)
  {
    hide Issues, Reaches;
    var front := log[..|log| - 1];
    forall i
      ensures LatestIssue(log, id, i) <==> LatestIssue(front, id, i)
      ensures LatestIssue(log, id, i) ==>
              (ReachedSince(log, id, i) <==> ReachedSince(front, id, i) || Reaches(log[|log| - 1], id))
    {
      if LatestIssue(front, id, i) {
        LatestStays(log, id, i);
      }
      if LatestIssue(log, id, i) {
        LatestWas(log, id, i);
        if ReachedSince(front, id, i) {
          ReachedStays(log, id, i);
        }
        if ReachedSince(log, id, i) && !Reaches(log[|log| - 1], id) {
          ReachedWas(log, id, i);
        }
      }
    }
    if c.Some? {
      var i :| LatestIssue(front, id, i);
      assert LatestIssue(log, id, i);
    }
  }

  lemma {:induction false} IssueMirrored(log: seq<Entry>, id: string, c: Challenge)
    requires log != [] && Issues(log[|log| - 1], id)
    requires c.sessionId == log[|log| - 1].verdict.sessionId && c.nonce == log[|log| - 1].verdict.nonce
    requires c.createdAt == log[|log| - 1].now && !c.consumed
    ensures ChallengeMirrors(Some(c), log, id)
  {
    hide Visits;
    var n := |log| - 1;
    assert LatestIssue(log, id, n);
    forall i | LatestIssue(log, id, i)
      ensures i == n
    {
    }
  }

  lemma {:induction false} RequestChallenges(s: State, store: Store, device: DeviceId, now: Millis, draw: Option<Nonce>,
                                             id: string)
    ensures var (s', v) := Request(s, store, device, now, draw);
            if v.Issued? && DeviceIdToString(device) == id
            then ChallengeOf(s'.challenges, id) == Some(Challenge(device, v.sessionId, v.nonce, now, false))
            else ChallengeOf(s'.challenges, id) == ChallengeOf(s.challenges, id)
  {
    hide Lookup, DeviceIdToString;
  }

  lemma {:induction false} RespondChallenges(ecdsa: Ecdsa, s: State, store: Store, payload: Octets, now: Millis,
                                             id: string)
    ensures var (s', v) := Respond(ecdsa, s, store, payload, now);
            var c := ChallengeOf(s.challenges, id);
            ChallengeOf(s'.challenges, id) ==
            if && Parsed(payload).Some? && DeviceIdToString(Parsed(payload).value.device) == id
               && !TurnedAway(v) && c.Some?
            then Some(c.value.(consumed := true)) else c
  {
    hide Lookup, DeviceIdToString, DecodeMessage, Verifies;
  }

  lemma {:induction false} NothingIssued(id: string)
    ensures ChallengeMirrors(None, [], id)
  {
  }

  lemma {:induction false} ChallengesMirrorLog(ecdsa: Ecdsa, log: seq<Entry>, id: string)
    requires Legal(ecdsa, log)
    ensures ChallengeMirrors(ChallengeOf(StateAfter(ecdsa, log).challenges, id), log, id)
  {
    hide Request, Respond, DeviceIdToString, Parsed, ChallengeMirrors;
    if log != [] {
      var front, e := log[..|log| - 1], log[|log| - 1];
      ChallengesMirrorLog(ecdsa, front, id);
      var s := StateAfter(ecdsa, front);
      match e.event {
        case AuthRequest(device, draw) =>
          RequestChallenges(s, e.store, device, e.now, draw, id);
          if Issues(e, id) {
            IssueMirrored(log, id, Challenge(device, e.verdict.sessionId, e.verdict.nonce, e.now, false));
          } else {
            NoIssueMirrored(log, id, ChallengeOf(s.challenges, id));
          }
        case AuthResponse(payload) =>
          RespondChallenges(ecdsa, s, e.store, payload, e.now, id);
          NoIssueMirrored(log, id, ChallengeOf(s.challenges, id));
      }
    } else {
      NothingIssued(id);
    }
  }

  // ---------------------------------------------------------------------------
  // Refinement of the log-only specification
  // ---------------------------------------------------------------------------

  lemma {:induction false} JudgeGrants(ecdsa: Ecdsa, record: Option<DeviceRecord>, c: Option<Challenge>,
                                       msg: SignedMessage, sig: Octets, now: Millis, sid: string)
    ensures Judge(ecdsa, record, c, msg, sig, now) == Granted(sid) <==>
            && record.Some? && record.value.status == STATUS_ACTIVE && record.value.key != [] && record.value.sid == sid
            && c.Some? && !c.value.consumed
            && c.value.createdAt <= now <= c.value.createdAt + CHALLENGE_TTL_MS
            && msg.sessionId == c.value.sessionId && msg.nonce == c.value.nonce
            && Verifies(ecdsa, record.value.key, msg, sig)
  {
    hide Verifies;
  }

  lemma {:induction false} AnswersMatchStored(ecdsa: Ecdsa, log: seq<Entry>, record: DeviceRecord, c: Option<Challenge>,
                                              msg: SignedMessage, sig: Octets, now: Millis)
    requires ChallengeMirrors(c, log, DeviceIdToString(msg.device))
    ensures (exists i :: Answers(ecdsa, log, record, i, msg, sig, now)) <==>
            && c.Some? && !c.value.consumed
            && c.value.createdAt <= now <= c.value.createdAt + CHALLENGE_TTL_MS
            && msg.sessionId == c.value.sessionId && msg.nonce == c.value.nonce
            && Verifies(ecdsa, record.key, msg, sig)
  {
    hide Verifies, Issues, Reaches, DeviceIdToString;
    var id := DeviceIdToString(msg.device);
    if exists i :: Answers(ecdsa, log, record, i, msg, sig, now) {
      var i :| Answers(ecdsa, log, record, i, msg, sig, now);
    }
    if && c.Some? && !c.value.consumed
       && c.value.createdAt <= now <= c.value.createdAt + CHALLENGE_TTL_MS
       && msg.sessionId == c.value.sessionId && msg.nonce == c.value.nonce
       && Verifies(ecdsa, record.key, msg, sig) {
      var i :| LatestIssue(log, id, i);
      assert Answers(ecdsa, log, record, i, msg, sig, now);
    }
  }

  /**
    After any run, a response is granted with account `sid` exactly when the log says so: the
    payload is 152 well-formed octets, the device is not locked out, it is active with a key, its
    latest challenge has been reached by no response and is at most 30 s old, session and nonce
    match and the signature verifies. No assumption on the clock readings.
    */
  lemma {:induction false} GrantedExactly(ecdsa: Ecdsa, log: seq<Entry>, store: Store, payload: Octets, now: Millis,
                                          sid: string)
    requires Legal(ecdsa, log)
    ensures Respond(ecdsa, StateAfter(ecdsa, log), store, payload, now).1 == Granted(sid)
            <==> LogGrants(ecdsa, log, store, payload, now, sid)
  {
    hide LockedOut, Judge, DecodeMessage, DeviceIdToString, Lookup, Answers, StateAfter, Legal, ChallengeMirrors,
         Verifies;
    if Parsed(payload).Some? {
      var msg := Parsed(payload).value;
      var id := DeviceIdToString(msg.device);
      var s := StateAfter(ecdsa, log);
      LockedOutExactly(ecdsa, log, id, now);
      ChallengesMirrorLog(ecdsa, log, id);
      var c, record, sig := ChallengeOf(s.challenges, id), Lookup(store, id), SignatureOf(payload);
      JudgeGrants(ecdsa, record, c, msg, sig, now, sid);
      if record.Some? {
        AnswersMatchStored(ecdsa, log, record.value, c, msg, sig, now);
      }
    }
  }

  /** Past the size, format, lockout and registry checks. */
  ghost predicate Cleared(log: seq<Entry>, store: Store, payload: Octets, now: Millis) {
    Parsed(payload).Some? &&
    var id := DeviceIdToString(Parsed(payload).value.device);
    var record := Lookup(store, id);
    !LockedOut(log, id, now) && record.Some? && record.value.status == STATUS_ACTIVE && record.value.key != []
  }

  /** The latest challenge of the device, unreached and no more than thirty seconds old. */
  ghost predicate LiveIssue(log: seq<Entry>, id: string, i: int, now: Millis) {
    LatestIssue(log, id, i) && !ReachedSince(log, id, i) && log[i].now <= now <= log[i].now + 30_000
  }

  lemma {:induction false} EveryIssueHasLatest(log: seq<Entry>, id: string, i: nat)
    requires i < |log| && Issues(log[i], id)
    ensures exists k :: LatestIssue(log, id, k)
    decreases |log| - i
  {
    hide Issues;
    if !LatestIssue(log, id, i) {
      var j :| i < j < |log| && Issues(log[j], id);
      EveryIssueHasLatest(log, id, j);
    }
  }

  lemma {:induction false} JudgeRefuses(ecdsa: Ecdsa, record: DeviceRecord, c: Option<Challenge>, msg: SignedMessage,
                                        sig: Octets, now: Millis)
    requires record.status == STATUS_ACTIVE && record.key != []
    ensures var v := Judge(ecdsa, Some(record), c, msg, sig, now);
            var usable := c.Some? && !c.value.consumed &&
              c.value.createdAt <= now <= c.value.createdAt + CHALLENGE_TTL_MS;
            && (v == Refused(NoActiveChallenge) <==> c.None?)
            && (v == Refused(AlreadyConsumed) <==> c.Some? && c.value.consumed)
            && (v == Refused(NonceExpired) <==> c.Some? && !c.value.consumed && !usable)
            && (v == Refused(SessionMismatch) <==> usable && msg.sessionId != c.value.sessionId)
            && (v == Refused(NonceMismatch) <==>
                usable && msg.sessionId == c.value.sessionId && msg.nonce != c.value.nonce)
            && (v == Refused(SignatureInvalid) <==>
                  usable && msg.sessionId == c.value.sessionId && msg.nonce == c.value.nonce &&
                    !Verifies(ecdsa, record.key, msg, sig))
  {
    hide Verifies;
  }

  lemma {:induction false} RespondIsJudged(ecdsa: Ecdsa, log: seq<Entry>, store: Store, payload: Octets, now: Millis)
    requires Legal(ecdsa, log) && Cleared(log, store, payload, now)
    ensures var msg := Parsed(payload).value;
            var id := DeviceIdToString(msg.device);
            && |payload| == RESPONSE_SIZE
            && Respond(ecdsa, StateAfter(ecdsa, log), store, payload, now).1 ==
               Judge(ecdsa, Lookup(store, id), ChallengeOf(StateAfter(ecdsa, log).challenges, id), msg,
                     SignatureOf(payload), now)
  {
    hide LockedOut, Judge, DecodeMessage, DeviceIdToString, Lookup, StateAfter, Legal;
    LockedOutExactly(ecdsa, log, DeviceIdToString(Parsed(payload).value.device), now);
  }

  lemma {:induction false} OnlyOneLatest(log: seq<Entry>, id: string, i: int)
    requires LatestIssue(log, id, i)
    ensures forall j :: LatestIssue(log, id, j) ==> j == i
  {
    hide Issues;
  }

  /**
    The refusals, too, are what the log says: a cleared response is refused as unanswered when its
    device was never issued a challenge, as a replay exactly when the latest one was reached
    before, as expired by age, and otherwise by the first of session, nonce and signature to fail.
    */
  lemma {:induction false} RefusedExactly(ecdsa: Ecdsa, log: seq<Entry>, store: Store, payload: Octets, now: Millis)
    requires Legal(ecdsa, log) && Cleared(log, store, payload, now)
    ensures var v := Respond(ecdsa, StateAfter(ecdsa, log), store, payload, now).1;
            var msg := Parsed(payload).value;
            var id := DeviceIdToString(msg.device);
            && (v == Refused(NoActiveChallenge) <==> forall i :: 0 <= i < |log| ==> !Issues(log[i], id))
            && (v == Refused(AlreadyConsumed) <==> exists i :: LatestIssue(log, id, i) && ReachedSince(log, id, i))
            && (v == Refused(NonceExpired) <==>
                exists i :: LatestIssue(log, id, i) && !ReachedSince(log, id, i) && !LiveIssue(log, id, i, now))
            && (v == Refused(SessionMismatch) <==>
                exists i :: LiveIssue(log, id, i, now) && msg.sessionId != log[i].verdict.sessionId)
            && (v == Refused(NonceMismatch) <==>
                  exists i :: LiveIssue(log, id, i, now) && msg.sessionId == log[i].verdict.sessionId &&
                    msg.nonce != log[i].verdict.nonce)
            && (v == Refused(SignatureInvalid) <==>
                  exists i :: LiveIssue(log, id, i, now) && msg.sessionId == log[i].verdict.sessionId &&
                    msg.nonce == log[i].verdict.nonce
                              && !Verifies(ecdsa, Lookup(store, id).value.key, msg, SignatureOf(payload)))
  {
    hide LockedOut, Judge, DecodeMessage, DeviceIdToString, Lookup, StateAfter, Legal, Verifies, Respond, ReachedSince;
    var msg := Parsed(payload).value;
    var id := DeviceIdToString(msg.device);
    var c := ChallengeOf(StateAfter(ecdsa, log).challenges, id);
    RespondIsJudged(ecdsa, log, store, payload, now);
    JudgeRefuses(ecdsa, Lookup(store, id).value, c, msg, SignatureOf(payload), now);
    ChallengesMirrorLog(ecdsa, log, id);
    if c.Some? {
      var i :| LatestIssue(log, id, i);
      OnlyOneLatest(log, id, i);
    } else if exists i :: 0 <= i < |log| && Issues(log[i], id) {
      var i :| 0 <= i < |log| && Issues(log[i], id);
      EveryIssueHasLatest(log, id, i);
    }
  }

  /** Before that stage: size, format and lockout, in this order. */
  lemma {:induction false} TurnedAwayExactly(ecdsa: Ecdsa, log: seq<Entry>, store: Store, payload: Octets, now: Millis)
    requires Legal(ecdsa, log)
    ensures var v := Respond(ecdsa, StateAfter(ecdsa, log), store, payload, now).1;
            && (v == Refused(InvalidPayloadSize) <==> |payload| < RESPONSE_SIZE)
            && (v == Refused(InvalidSignatureLength) <==> |payload| > RESPONSE_SIZE)
            && (v == Refused(InvalidSignedMessage) <==> |payload| == RESPONSE_SIZE && Parsed(payload).None?)
            && (v == Refused(RateLimited) <==>
                Parsed(payload).Some? && LockedOut(log, DeviceIdToString(Parsed(payload).value.device), now))
  {
    hide LockedOut, DecodeMessage, DeviceIdToString, Lookup, StateAfter, Legal, Verifies;
    if Parsed(payload).Some? {
      LockedOutExactly(ecdsa, log, DeviceIdToString(Parsed(payload).value.device), now);
    }
  }

  /** Between the two stages: a response that is not locked out and whose device is not fit to log on. */
  lemma {:induction false} UnfitExactly(ecdsa: Ecdsa, log: seq<Entry>, store: Store, payload: Octets, now: Millis)
    requires Legal(ecdsa, log) && Parsed(payload).Some?
    requires !LockedOut(log, DeviceIdToString(Parsed(payload).value.device), now)
    ensures var v := Respond(ecdsa, StateAfter(ecdsa, log), store, payload, now).1;
            var record := Lookup(store, DeviceIdToString(Parsed(payload).value.device));
            && (v == Refused(UnknownDevice) <==> record.None?)
            && (v == Refused(DeviceRevoked) <==> record.Some? && record.value.status != STATUS_ACTIVE)
            && (v == Refused(MissingPublicKey) <==>
                record.Some? && record.value.status == STATUS_ACTIVE && record.value.key == [])
  {
    hide LockedOut, DecodeMessage, DeviceIdToString, Lookup, StateAfter, Legal, Verifies;
    LockedOutExactly(ecdsa, log, DeviceIdToString(Parsed(payload).value.device), now);
  }

  // ---------------------------------------------------------------------------
  // Requests
  // ---------------------------------------------------------------------------

  /** A device that is not locked out, and what the registry says about it. */
  ghost predicate Admissible(log: seq<Entry>, store: Store, id: string, now: Millis) {
    && !LockedOut(log, id, now)
    && Lookup(store, id).Some? && Lookup(store, id).value.status == STATUS_ACTIVE && Lookup(store, id).value.key != []
  }

  /**
    After any run a request is answered with a challenge exactly when its device is not locked out
    and is active with a key, and the random source delivers: the nonce is the one drawn, the time
    that of the request. Each refusal is given exactly when its check is the first to fail.
    */
  lemma {:induction false} ChallengedExactly(ecdsa: Ecdsa, log: seq<Entry>, store: Store, device: DeviceId, now: Millis,
                                             draw: Option<Nonce>)
    requires Legal(ecdsa, log)
    ensures var v := Request(StateAfter(ecdsa, log), store, device, now, draw).1;
            var id := DeviceIdToString(device);
            var record := Lookup(store, id);
            && (v.Issued? <==> Admissible(log, store, id, now) && draw.Some?)
            && (v.Issued? ==> draw == Some(v.nonce) && v.createdAt == now)
            && (v == Refused(RateLimited) <==> LockedOut(log, id, now))
            && (v == Refused(UnknownDevice) <==> !LockedOut(log, id, now) && record.None?)
            && (v == Refused(DeviceRevoked) <==>
                !LockedOut(log, id, now) && record.Some? && record.value.status != STATUS_ACTIVE)
            && (v == Refused(MissingPublicKey) <==>
                && !LockedOut(log, id, now) && record.Some? && record.value.status == STATUS_ACTIVE
                && record.value.key == [])
            && (v == Refused(RandomSourceFailed) <==> Admissible(log, store, id, now) && draw.None?)
  {
    hide LockedOut, DeviceIdToString, Lookup, StateAfter, Legal;
    LockedOutExactly(ecdsa, log, DeviceIdToString(device), now);
  }
}
