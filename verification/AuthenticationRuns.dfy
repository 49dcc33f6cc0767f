/** Safety of whole authentication runs: no replay, one grant per challenge, bounded guessing. */
module AuthenticationRuns {
  import opened Bytes
  import opened Protocol
  import opened Crypto
  import opened DeviceIds
  import opened DeviceRegistry
  import opened Authentication
  import opened AuthenticationLog

  lemma {:induction false} LegalPrefix(ecdsa: Ecdsa, log: seq<Entry>, n: nat)
    requires Legal(ecdsa, log) && n <= |log|
    ensures Legal(ecdsa, log[..n])
    decreases |log|
  {
    if n == |log| {
      assert log[..n] == log;
    } else {
      LegalPrefix(ecdsa, log[..|log| - 1], n);
      assert log[..|log| - 1][..n] == log[..n];
    }
  }

  lemma {:induction false} LegalAt(ecdsa: Ecdsa, log: seq<Entry>, n: nat)
    requires Legal(ecdsa, log) && n < |log|
    ensures Legal(ecdsa, log[..n])
    ensures log[n].verdict == Step(ecdsa, StateAfter(ecdsa, log[..n]), log[n].now, log[n].event, log[n].store).1
  {
    hide Step;
    LegalPrefix(ecdsa, log, n);
    LegalPrefix(ecdsa, log, n + 1);
    assert log[..n + 1][..n] == log[..n];
  }

  // ---------------------------------------------------------------------------
  // Session ids
  // ---------------------------------------------------------------------------

  /** A request that took a number from the session counter. */
  predicate TakesSession(e: Entry) {
    e.verdict.Issued? || e.verdict == Refused(RandomSourceFailed)
  }

  function Draws(log: seq<Entry>): nat {
    if log == [] then 0 else Draws(log[..|log| - 1]) + if TakesSession(log[|log| - 1]) then 1 else 0
  }

  function Requests(log: seq<Entry>): nat {
    if log == [] then 0 else Requests(log[..|log| - 1]) + if log[|log| - 1].event.AuthRequest? then 1 else 0
  }

  lemma {:induction false} StepCounter(ecdsa: Ecdsa, s: State, now: Millis, event: Event, store: Store)
    ensures var (s', v) := Step(ecdsa, s, now, event, store);
            && (v.Issued? || v == Refused(RandomSourceFailed) ==>
                event.AuthRequest? && s'.counter == (s.counter + 1) % COUNTER_WRAP)
            && (v.Issued? ==> v.sessionId == s.counter && v.createdAt == now)
            && (!v.Issued? && v != Refused(RandomSourceFailed) ==> s'.counter == s.counter)
            && (v.Granted? ==> event.AuthResponse?)
  {
    hide Lookup, DeviceIdToString, DecodeMessage, Verifies;
  }

  lemma {:induction false} CounterFollowsDraws(ecdsa: Ecdsa, log: seq<Entry>)
    requires Legal(ecdsa, log)
    ensures StateAfter(ecdsa, log).counter == (1 + Draws(log)) % COUNTER_WRAP
    ensures Draws(log) <= Requests(log)
  {
    hide Step;
    if log != [] {
      var front, e := log[..|log| - 1], log[|log| - 1];
      CounterFollowsDraws(ecdsa, front);
      StepCounter(ecdsa, StateAfter(ecdsa, front), e.now, e.event, e.store);
    }
  }

  lemma {:induction false} CountsGrow(log: seq<Entry>, i: nat)
    requires i < |log|
    ensures Draws(log[..i]) + (if TakesSession(log[i]) then 1 else 0) <= Draws(log)
    ensures Requests(log[..i]) <= Requests(log)
    decreases |log|
  {
    hide TakesSession;
    var front := log[..|log| - 1];
    if i == |log| - 1 {
      assert log[..i] == front;
    } else {
      CountsGrow(front, i);
      assert front[..i] == log[..i] && front[i] == log[i];
    }
  }

  /** The n-th number taken from the counter is n, as long as the counter has not come round. */
  lemma {:induction false} IssuedNumber(ecdsa: Ecdsa, log: seq<Entry>, i: nat)
    requires Legal(ecdsa, log) && Requests(log) < COUNTER_WRAP && i < |log| && log[i].verdict.Issued?
    ensures log[i].verdict.sessionId == 1 + Draws(log[..i]) <= Draws(log)
    ensures log[i].event.AuthRequest? && log[i].verdict.createdAt == log[i].now
  {
    hide Step, Legal, StateAfter;
    LegalAt(ecdsa, log, i);
    CounterFollowsDraws(ecdsa, log[..i]);
    CounterFollowsDraws(ecdsa, log);
    CountsGrow(log, i);
    StepCounter(ecdsa, StateAfter(ecdsa, log[..i]), log[i].now, log[i].event, log[i].store);
  }

  /** The whole challenge: the next number of the counter, the nonce drawn and the time of the request. */
  lemma {:induction false} IssuedExactly(ecdsa: Ecdsa, log: seq<Entry>, store: Store, device: DeviceId, now: Millis,
                                         draw: Option<Nonce>, n: U64, x: Nonce, t: Millis)
    requires Legal(ecdsa, log)
    ensures Request(StateAfter(ecdsa, log), store, device, now, draw).1 == Verdict.Issued(n, x, t) <==>
            && Admissible(log, store, DeviceIdToString(device), now) && draw == Some(x)
            && n == (1 + Draws(log)) % COUNTER_WRAP && t == now
  {
    hide Legal, StateAfter, Request, Admissible, DeviceIdToString;
    ChallengedExactly(ecdsa, log, store, device, now, draw);
    CounterFollowsDraws(ecdsa, log);
    StepCounter(ecdsa, StateAfter(ecdsa, log), now, AuthRequest(device, draw), store);
  }

  lemma {:induction false} SessionsDistinct(ecdsa: Ecdsa, log: seq<Entry>, i: nat, j: nat)
    requires Legal(ecdsa, log) && Requests(log) < COUNTER_WRAP
    requires i < j < |log| && log[i].verdict.Issued? && log[j].verdict.Issued?
    ensures log[i].verdict.sessionId < log[j].verdict.sessionId
  {
    hide Legal;
    IssuedNumber(ecdsa, log, i);
    IssuedNumber(ecdsa, log, j);
    CountsGrow(log[..j], i);
    assert log[..j][..i] == log[..i] && log[..j][i] == log[i];
  }

  // ---------------------------------------------------------------------------
  // No replay
  // ---------------------------------------------------------------------------

  /** Entry `k` issued the challenge that entry `j` was granted for, and nothing reached it between. */
  ghost predicate GrantedFor(log: seq<Entry>, k: int, j: int) {
    && 0 <= k < j < |log|
    && log[j].event.AuthResponse? && Parsed(log[j].event.payload).Some?
    && var msg := Parsed(log[j].event.payload).value;
       var id := DeviceIdToString(msg.device);
       && Issues(log[k], id)
       && log[k].verdict.sessionId == msg.sessionId
       && log[k].verdict.nonce == msg.nonce
       && log[k].now <= log[j].now <= log[k].now + CHALLENGE_TTL_MS
       && forall i :: k < i < j ==> !Reaches(log[i], id)
  }

  lemma {:induction false} IssueBehindGrant(ecdsa: Ecdsa, log: seq<Entry>, store: Store, payload: Octets, now: Millis,
                                            sid: string) returns (k: nat)
    requires LogGrants(ecdsa, log, store, payload, now, sid)
    ensures Parsed(payload).Some?
    ensures var msg := Parsed(payload).value;
            var id := DeviceIdToString(msg.device);
            && k < |log| && Issues(log[k], id)
            && log[k].verdict.sessionId == msg.sessionId && log[k].verdict.nonce == msg.nonce
            && log[k].now <= now <= log[k].now + CHALLENGE_TTL_MS
            && forall i :: k < i < |log| ==> !Reaches(log[i], id)
  {
    hide Issues, Reaches, Verifies, DecodeMessage, DeviceIdToString;
    var msg := Parsed(payload).value;
    var record := Lookup(store, DeviceIdToString(msg.device)).value;
    var i :| Answers(ecdsa, log, record, i, msg, SignatureOf(payload), now);
    k := i;
  }

  lemma {:induction false} GrantHasIssue(ecdsa: Ecdsa, log: seq<Entry>, j: nat) returns (k: nat)
    requires Legal(ecdsa, log) && j < |log| && log[j].verdict.Granted?
    ensures GrantedFor(log, k, j)
  {
    hide Legal, StateAfter, Request, Respond, LogGrants, Issues, Reaches, DeviceIdToString, DecodeMessage;
    var before := log[..j];
    LegalAt(ecdsa, log, j);
    StepCounter(ecdsa, StateAfter(ecdsa, before), log[j].now, log[j].event, log[j].store);
    var payload := log[j].event.payload;
    GrantedExactly(ecdsa, before, log[j].store, payload, log[j].now, log[j].verdict.accountSid);
    k := IssueBehindGrant(ecdsa, before, log[j].store, payload, log[j].now, log[j].verdict.accountSid);
    assert before[k] == log[k];
    var id := DeviceIdToString(Parsed(payload).value.device);
    forall i | k < i < j
      ensures !Reaches(log[i], id)
    {
      assert before[i] == log[i];
    }
  }

  lemma {:induction false} OneDevice(e: Entry, a: string, b: string)
    requires Issues(e, a) && Issues(e, b)
    ensures a == b && e.verdict.Issued?
  {
  }

  lemma {:induction false} GrantReaches(e: Entry)
    requires e.event.AuthResponse? && Parsed(e.event.payload).Some? && e.verdict.Granted?
    ensures Reaches(e, DeviceIdToString(Parsed(e.event.payload).value.device))
  {
    hide Parsed, DeviceIdToString;
  }

  /** One issued challenge cannot stand behind two grants. */
  lemma {:induction false} OneGrantPerIssue(log: seq<Entry>, k: int, i: int, j: int)
    requires GrantedFor(log, k, i) && GrantedFor(log, k, j) && log[i].verdict.Granted?
    ensures j <= i
  {
    hide Issues, Reaches, Parsed, DeviceIdToString;
    var a := DeviceIdToString(Parsed(log[i].event.payload).value.device);
    var b := DeviceIdToString(Parsed(log[j].event.payload).value.device);
    OneDevice(log[k], a, b);
    GrantReaches(log[i]);
  }

  /** No two grants of a run carry the same session id, so no payload is accepted twice. */
  lemma {:induction false} NoReplay(ecdsa: Ecdsa, log: seq<Entry>, i: nat, j: nat)
    requires Legal(ecdsa, log) && Requests(log) < COUNTER_WRAP
    requires i < j < |log| && log[i].verdict.Granted? && log[j].verdict.Granted?
    ensures log[i].event.AuthResponse? && log[j].event.AuthResponse?
    ensures Parsed(log[i].event.payload).Some? && Parsed(log[j].event.payload).Some?
    ensures Parsed(log[i].event.payload).value.sessionId != Parsed(log[j].event.payload).value.sessionId
    ensures log[i].event.payload != log[j].event.payload
  {
    hide Parsed, Issues, Reaches, Legal, Requests, DeviceIdToString;
    var k := GrantHasIssue(ecdsa, log, i);
    var m := GrantHasIssue(ecdsa, log, j);
    OneDevice(log[k], DeviceIdToString(Parsed(log[i].event.payload).value.device),
              DeviceIdToString(Parsed(log[i].event.payload).value.device));
    OneDevice(log[m], DeviceIdToString(Parsed(log[j].event.payload).value.device),
              DeviceIdToString(Parsed(log[j].event.payload).value.device));
    if k < m {
      SessionsDistinct(ecdsa, log, k, m);
    } else if m < k {
      SessionsDistinct(ecdsa, log, m, k);
    } else {
      OneGrantPerIssue(log, k, i, j);
    }
  }

  function Grants(log: seq<Entry>): nat {
    if log == [] then 0 else Grants(log[..|log| - 1]) + if log[|log| - 1].verdict.Granted? then 1 else 0
  }

  function Issued(log: seq<Entry>): nat {
    if log == [] then 0 else Issued(log[..|log| - 1]) + if log[|log| - 1].verdict.Issued? then 1 else 0
  }

  ghost function Live(s: State): set<string> {
    set id | id in s.challenges && !s.challenges[id].consumed
  }

  lemma {:induction false} RequestLive(s: State, store: Store, device: DeviceId, now: Millis, draw: Option<Nonce>)
    ensures var (s', v) := Request(s, store, device, now, draw);
            |Live(s')| <= |Live(s)| + if v.Issued? then 1 else 0
  {
    hide DeviceIdToString, Lookup;
    var (s', v) := Request(s, store, device, now, draw);
    if v.Issued? {
      assert Live(s') == Live(s) + {DeviceIdToString(device)};
    } else {
      assert Live(s') == Live(s);
    }
  }

  lemma {:induction false} RespondLive(ecdsa: Ecdsa, s: State, store: Store, payload: Octets, now: Millis)
    ensures var (s', v) := Respond(ecdsa, s, store, payload, now);
            |Live(s')| + (if v.Granted? then 1 else 0) <= |Live(s)|
  {
    hide DeviceIdToString, Lookup, DecodeMessage, Verifies;
    var (s', v) := Respond(ecdsa, s, store, payload, now);
    if Parsed(payload).Some? && UsesChallenge(v) {
      var id := DeviceIdToString(Parsed(payload).value.device);
      assert id in Live(s);
      assert Live(s') == Live(s) - {id};
    } else {
      assert Live(s') == Live(s);
    }
  }

  /** Grants never outnumber issued challenges; the difference covers the live ones. */
  lemma {:induction false} GrantsAreCovered(ecdsa: Ecdsa, log: seq<Entry>)
    requires Legal(ecdsa, log)
    ensures Grants(log) + |Live(StateAfter(ecdsa, log))| <= Issued(log)
  {
    if log != [] {
      var front, e := log[..|log| - 1], log[|log| - 1];
      GrantsAreCovered(ecdsa, front);
      var s := StateAfter(ecdsa, front);
      StepCounter(ecdsa, s, e.now, e.event, e.store);
      match e.event {
        case AuthRequest(device, draw) => RequestLive(s, e.store, device, e.now, draw);
        case AuthResponse(payload) => RespondLive(ecdsa, s, e.store, payload, e.now);
      }
    } else {
      assert Live(INITIAL) == {};
    }
  }

  /** Stored session ids are pairwise distinct and below the counter. */
  lemma {:induction false} StoredSessionsDistinct(ecdsa: Ecdsa, log: seq<Entry>, a: string, b: string)
    requires Legal(ecdsa, log) && Requests(log) < COUNTER_WRAP - 1
    requires a in StateAfter(ecdsa, log).challenges && b in StateAfter(ecdsa, log).challenges
    ensures var s := StateAfter(ecdsa, log);
            && s.challenges[a].sessionId < s.counter
            && (a != b ==> s.challenges[a].sessionId != s.challenges[b].sessionId)
  {
    hide Legal, Step, StateAfter, Issues, Draws, Requests, ReachedSince;
    ChallengesMirrorLog(ecdsa, log, a);
    ChallengesMirrorLog(ecdsa, log, b);
    var i :| LatestIssue(log, a, i);
    var j :| LatestIssue(log, b, j);
    OneDevice(log[i], a, a);
    OneDevice(log[j], b, b);
    IssuedNumber(ecdsa, log, i);
    CounterFollowsDraws(ecdsa, log);
    if i == j {
      assert a != b ==> false by { OneDevice(log[i], a, b); }
    } else if i < j {
      SessionsDistinct(ecdsa, log, i, j);
    } else {
      SessionsDistinct(ecdsa, log, j, i);
    }
  }

  // ---------------------------------------------------------------------------
  // Bounded guessing
  // ---------------------------------------------------------------------------

  predicate Monotone(log: seq<Entry>) {
    forall i, j :: 0 <= i < j < |log| ==> log[i].now <= log[j].now
  }

  /** Counted failures of the device with lo <= time < hi. */
  function Failures(log: seq<Entry>, id: string, lo: int, hi: int): nat {
    if log == [] then 0
    else
      var e := log[|log| - 1];
      Failures(log[..|log| - 1], id, lo, hi) + if CountedFailure(e, id) && lo <= e.now < hi then 1 else 0
  }

  function Successes(log: seq<Entry>, id: string, lo: int, hi: int): nat {
    if log == [] then 0
    else
      var e := log[|log| - 1];
      Successes(log[..|log| - 1], id, lo, hi) + if Success(e, id) && lo <= e.now < hi then 1 else 0
  }

  lemma {:induction false} NothingBefore(log: seq<Entry>, id: string, lo: int, hi: int)
    requires forall i :: 0 <= i < |log| ==> log[i].now < lo
    ensures Failures(log, id, lo, hi) == 0 && Successes(log, id, lo, hi) == 0
  {
    hide CountedFailure, Success;
    if log != [] {
      NothingBefore(log[..|log| - 1], id, lo, hi);
    }
  }

  /** Inside an interval as long as a lockout: f failures and s successes so far. */
  predicate WithinWindow(l: RateLimit, f: nat, s: nat, lo: int) {
    if l.lockoutUntil != 0 && l.lockoutUntil < lo + LOCKOUT_MS then f == 0 && s == 0
    else f <= 2 * s + l.failedCount
  }

  lemma {:induction false} WindowInvariant(ecdsa: Ecdsa, log: seq<Entry>, id: string, lo: int)
    requires Legal(ecdsa, log) && Monotone(log)
    requires log != [] ==> log[|log| - 1].now < lo + LOCKOUT_MS
    ensures WithinWindow(LimitOf(StateAfter(ecdsa, log).limits, id),
                         Failures(log, id, lo, lo + LOCKOUT_MS), Successes(log, id, lo, lo + LOCKOUT_MS), lo)
  {
    hide Step, Visits, CountedFailure, Success;
    if log != [] {
      var front, e := log[..|log| - 1], log[|log| - 1];
      var s := StateAfter(ecdsa, front);
      if e.now < lo {
        NothingBefore(log, id, lo, lo + LOCKOUT_MS);
      } else {
        WindowInvariant(ecdsa, front, id, lo);
        LimitsMirrorLog(ecdsa, front, id);
        EntryLimits(ecdsa, s, e, id);
      }
    }
  }

  /**
    On a non-decreasing clock, in any half-open interval of 900000 ms with s successes a device
    accumulates at most 3 + 2s counted failures.
    */
  lemma {:induction false} FailureBound(ecdsa: Ecdsa, log: seq<Entry>, id: string, lo: int)
    requires Legal(ecdsa, log) && Monotone(log)
    ensures Failures(log, id, lo, lo + LOCKOUT_MS) <= MAX_FAILED_ATTEMPTS + 2 * Successes(log, id, lo, lo + LOCKOUT_MS)
  {
    hide Step, CountedFailure, Success;
    if log != [] {
      if log[|log| - 1].now < lo + LOCKOUT_MS {
        WindowInvariant(ecdsa, log, id, lo);
        LimitsMirrorLog(ecdsa, log, id);
      } else {
        FailureBound(ecdsa, log[..|log| - 1], id, lo);
      }
    }
  }

  // ---------------------------------------------------------------------------
  // The bound on failures is reached
  // ---------------------------------------------------------------------------

  /** A signature primitive that accepts everything. */
  predicate Lenient(key: Octets, message: Octets, signature: Octets) { true }

  function Repeat(b: Byte, n: nat): (s: Octets)
    ensures |s| == n
  {
    seq(n, _ => b)
  }

  function Signature(): Octets { Repeat(1, P1363_SIGNATURE_SIZE) }

  /** A record with a key of 64 octets. */
  function PairedRecord(): Stored { Stored(STATUS_ACTIVE, "", "", Repeat(1, 64), 0, 0) }

  function Answer(device: DeviceId, session: U64): SignedMessage {
    SignedMessage(SIGNED_MESSAGE_VERSION, device, device, 0x0022, 0, session, Repeat(0, 32), 0)
  }

  function Reply(device: DeviceId, session: U64): Octets { Canonical(Answer(device, session)) + Signature() }

  lemma {:induction false} ReplyParses(device: DeviceId, session: U64)
    ensures |Reply(device, session)| == RESPONSE_SIZE
    ensures Parsed(Reply(device, session)) == Some(Answer(device, session)) &&
            SignatureOf(Reply(device, session)) == Signature()
  {
    assert Reply(device, session)[..CANONICAL_SIGNED_MESSAGE_SIZE] == Canonical(Answer(device, session));
    MessageReadsBack(Answer(device, session));
  }

  lemma {:induction false} SignatureVerifies(device: DeviceId, session: U64)
    ensures Verifies(Lenient, PairedRecord().key, Answer(device, session), Signature())
  {
    ZeroValue(Signature()[..32]);
    ZeroValue(Signature()[32..]);
    assert Signature()[..32][0] == 1 && Signature()[32..][0] == 1;
  }

  function IssueEntry(device: DeviceId, session: U64): Entry {
    Entry(0, AuthRequest(device, Some(Repeat(0, 32))), map[DeviceIdToString(device) := PairedRecord()],
          Verdict.Issued(session, Repeat(0, 32), 0))
  }

  function GrantEntry(device: DeviceId, session: U64): Entry {
    Entry(0, AuthResponse(Reply(device, session)), map[DeviceIdToString(device) := PairedRecord()], Granted(""))
  }

  /** The failure record after `count` failures at time zero. */
  function LimitAt(count: nat): RateLimit {
    RateLimit(count, if count < MAX_FAILED_ATTEMPTS then 0 else LOCKOUT_MS)
  }

  /** A run at time zero with so many failures and successes, and this failure count now. */
  ghost predicate Tally(device: DeviceId, log: seq<Entry>, failures: nat, successes: nat, count: nat) {
    && Legal(Lenient, log) && (forall i :: 0 <= i < |log| ==> log[i].now == 0)
    && Failures(log, DeviceIdToString(device), 0, LOCKOUT_MS) == failures &&
      Successes(log, DeviceIdToString(device), 0, LOCKOUT_MS) == successes
    && LimitOf(StateAfter(Lenient, log).limits, DeviceIdToString(device)) == LimitAt(count)
  }

  lemma {:induction false} NothingTallied(device: DeviceId)
    ensures Tally(device, [], 0, 0, 0)
  {
  }

  lemma {:induction false} TallyAppend(device: DeviceId, log: seq<Entry>, e: Entry, f: nat, s: nat, count: nat,
                                       next: nat)
    requires Tally(device, log, f, s, count) && e.now == 0
    requires var (after, v) := Step(Lenient, StateAfter(Lenient, log), 0, e.event, e.store);
             v == e.verdict && LimitOf(after.limits, DeviceIdToString(device)) == LimitAt(next)
    ensures var id := DeviceIdToString(device);
            var f', s' := f + (if CountedFailure(e, id) then 1 else 0), s + (if Success(e, id) then 1 else 0);
            Tally(device, log + [e], f', s', next)
  {
    hide Step, DeviceIdToString, Success, CountedFailure;
    assert (log + [e])[..|log|] == log;
  }

  lemma {:induction false} FailureStep(device: DeviceId, s: State, count: nat)
    requires LimitOf(s.limits, DeviceIdToString(device)) == LimitAt(count) && count < MAX_FAILED_ATTEMPTS
    ensures var e := UnknownAt(Reply(device, 0), 0); var (after, v) := Step(Lenient, s, 0, e.event, e.store);
            v == e.verdict && LimitOf(after.limits, DeviceIdToString(device)) == LimitAt(count + 1)
  {
    hide DecodeMessage, DeviceIdToString, Reply, Parsed;
    ReplyParses(device, 0);
  }

  lemma {:induction false} TallyFailure(device: DeviceId, log: seq<Entry>, f: nat, s: nat, count: nat)
    returns (longer: seq<Entry>)
    requires Tally(device, log, f, s, count) && count < MAX_FAILED_ATTEMPTS
    ensures Tally(device, longer, f + 1, s, count + 1)
  {
    hide Step, StateAfter, DecodeMessage, DeviceIdToString, Reply, Canonical, Failures, Successes, Legal;
    var e := UnknownAt(Reply(device, 0), 0);
    ReplyParses(device, 0);
    FailureStep(device, StateAfter(Lenient, log), count);
    TallyAppend(device, log, e, f, s, count, count + 1);
    longer := log + [e];
  }

  lemma {:induction false} IssueStep(device: DeviceId, s: State)
    requires LimitOf(s.limits, DeviceIdToString(device)).lockoutUntil == 0
    ensures var e := IssueEntry(device, s.counter); var (s', v) := Step(Lenient, s, 0, e.event, e.store);
            && v == e.verdict && s'.limits == s.limits
            && ChallengeOf(s'.challenges, DeviceIdToString(device)) ==
              Some(Challenge(device, s.counter, Repeat(0, 32), 0, false))
  {
    hide DeviceIdToString;
  }

  lemma {:induction false} GrantStep(device: DeviceId, s: State, session: U64)
    requires LimitOf(s.limits, DeviceIdToString(device)).lockoutUntil == 0
    requires ChallengeOf(s.challenges, DeviceIdToString(device)) ==
             Some(Challenge(device, session, Repeat(0, 32), 0, false))
    ensures var e := GrantEntry(device, session); var (s', v) := Step(Lenient, s, 0, e.event, e.store);
            v == e.verdict && LimitOf(s'.limits, DeviceIdToString(device)) == RateLimit(0, 0)
  {
    hide DecodeMessage, DeviceIdToString, Verifies, Reply, Parsed, SignatureOf;
    ReplyParses(device, session);
    SignatureVerifies(device, session);
    assert TextBack("") == "";
  }

  lemma {:induction false} GrantCounts(device: DeviceId, session: U64)
    ensures var id := DeviceIdToString(device);
            && Success(GrantEntry(device, session), id) && !CountedFailure(GrantEntry(device, session), id)
            && !Success(IssueEntry(device, session), id) && !CountedFailure(IssueEntry(device, session), id)
  {
    hide DeviceIdToString, Parsed, Reply;
    ReplyParses(device, session);
  }

  /** Asking for a challenge and answering it clears the failures. */
  lemma {:induction false} TallySuccess(device: DeviceId, log: seq<Entry>, f: nat, s: nat, count: nat)
    returns (longer: seq<Entry>)
    requires Tally(device, log, f, s, count) && count < MAX_FAILED_ATTEMPTS
    ensures Tally(device, longer, f, s + 1, 0)
  {
    hide Step, DeviceIdToString, Success, CountedFailure, Failures, Successes, Legal, Reply;
    var session := StateAfter(Lenient, log).counter;
    var issue, grant := IssueEntry(device, session), GrantEntry(device, session);
    assert (log + [issue])[..|log|] == log;
    GrantCounts(device, session);
    IssueStep(device, StateAfter(Lenient, log));
    TallyAppend(device, log, issue, f, s, count, count);
    GrantStep(device, StateAfter(Lenient, log + [issue]), session);
    TallyAppend(device, log + [issue], grant, f, s, count, 0);
    longer := log + [issue] + [grant];
  }

  /** Two failures and a success, `s` times over, then three failures: 3 + 2s failures at one instant. */
  lemma {:induction false} FailureBoundReached(device: DeviceId, s: nat) returns (log: seq<Entry>)
    ensures Legal(Lenient, log) && Monotone(log)
    ensures Successes(log, DeviceIdToString(device), 0, LOCKOUT_MS) == s
    ensures Failures(log, DeviceIdToString(device), 0, LOCKOUT_MS) == MAX_FAILED_ATTEMPTS + 2 * s
  {
    hide Legal, StateAfter, Failures, Successes, DeviceIdToString;
    log := [];
    assert Tally(device, log, 0, 0, 0) by { NothingTallied(device); }
    for i := 0 to s
      invariant Tally(device, log, 2 * i, i, 0)
    {
      log := TallyFailure(device, log, 2 * i, i, 0);
      log := TallyFailure(device, log, 2 * i + 1, i, 1);
      log := TallySuccess(device, log, 2 * i + 2, i, 2);
    }
    log := TallyFailure(device, log, 2 * s, s, 0);
    log := TallyFailure(device, log, 2 * s + 1, s, 1);
    log := TallyFailure(device, log, 2 * s + 2, s, 2);
  }
}
