/**
  The throttle on failed pairing confirmations of a device. It is tested when a session opens, not
  when a confirmation fails, and the minute it looks at starts with the first failure and is not
  moved on. So it bounds the failures of a device only together with the sessions that wait.
  */
module PairingThrottle {
  import opened Bytes
  import opened Crypto
  import opened DeviceIds
  import opened DeviceRegistry
  import opened SasPins
  import opened UnlockSystem
  import opened AccountCap

  /** The entry confirms a session of this device. */
  ghost predicate Confirms(s: State, e: Entry, id: string) {
    e.event.Confirm? && e.event.client in s.pairing.sessions &&
      DeviceIdToString(s.pairing.sessions[e.event.client].deviceId) == id
  }

  ghost predicate Misses(s: State, e: Entry, id: string) {
    Confirms(s, e, id) && Fails(e, e.event.client)
  }

  /** The PIN was right, whether or not the registry could be written. */
  ghost predicate Clears(s: State, e: Entry, id: string) {
    Confirms(s, e, id) && e.outcome.ConfirmReply? && (e.outcome.confirm.Completed? || e.outcome.confirm.WriteFailed?)
  }

  /** When the failures of a device since its last right PIN were recorded. */
  ghost function Missed(ecdsa: Ecdsa, start: State, log: seq<Entry>, id: string): seq<FileTime> {
    if log == [] then []
    else
      var front, e := log[..|log| - 1], log[|log| - 1];
      var s := StateAfter(ecdsa, start, front);
      if Clears(s, e, id) then []
      else if Misses(s, e, id) then Missed(ecdsa, start, front, id) + [e.event.times.recorded]
      else Missed(ecdsa, start, front, id)
  }

  predicate Mirrors(attempts: map<string, Pairing.Attempts>, id: string, times: seq<FileTime>) {
    if id in attempts then times != [] && attempts[id] == Pairing.Attempts(|times|, times[0]) else times == []
  }

  lemma {:induction false} StepAttempts(ecdsa: Ecdsa, s: State, e: Entry, id: string)
    requires e.outcome == Step(ecdsa, s, e.event).1
    ensures var before, after := s.pairing.attempts, Step(ecdsa, s, e.event).0.pairing.attempts;
            if Clears(s, e, id) then id !in after
            else if Misses(s, e, id) then
              && id in after
              && after[id] == (if id in before then before[id].(count := before[id].count + 1)
                               else Pairing.Attempts(1, e.event.times.recorded))
            else (id in after <==> id in before) && (id in after ==> after[id] == before[id])
  {
    hide DeviceIdToString, AuthLog.Step, PinAccepted, SasPinExpired, Pairing.Throttled, Pairing.AccountFull, IsActive,
         PinFor, Written;
  }

  lemma {:induction false} AttemptsMirrorLog(ecdsa: Ecdsa, start: State, log: seq<Entry>, id: string)
    requires Legal(ecdsa, start, log) && start.pairing == Pairing.INITIAL
    ensures Mirrors(StateAfter(ecdsa, start, log).pairing.attempts, id, Missed(ecdsa, start, log, id))
  {
    hide Step, Clears, Misses;
    if log != [] {
      var front, e := log[..|log| - 1], log[|log| - 1];
      AttemptsMirrorLog(ecdsa, start, front, id);
      StepAttempts(ecdsa, StateAfter(ecdsa, start, front), e, id);
    }
  }

  /** Failures recorded in the last minute. */
  function Recent(times: seq<FileTime>, now: FileTime): nat {
    if times == [] then 0
    else Recent(times[..|times| - 1], now) + if now - Pairing.RATE_WINDOW <= times[|times| - 1] <= now then 1 else 0
  }

  lemma {:induction false} RecentBound(times: seq<FileTime>, now: FileTime)
    ensures Recent(times, now) <= |times|
    ensures (forall i :: 0 <= i < |times| ==> now - Pairing.RATE_WINDOW <= times[i] <= now) ==>
            Recent(times, now) == |times|
  {
    if times != [] {
      RecentBound(times[..|times| - 1], now);
    }
  }

  /** Recorded on a clock that never goes back, up to now. */
  ghost predicate Orderly(times: seq<FileTime>, now: FileTime) {
    forall i, j :: 0 <= i <= j < |times| ==> times[i] <= times[j] <= now
  }

  /**
    A request is throttled exactly if five failures were recorded in the last minute and the first
    failure since the last right PIN is one of them.
    */
  lemma {:induction false} ThrottledExactly(ecdsa: Ecdsa, start: State, log: seq<Entry>, id: string, now: FileTime)
    requires Legal(ecdsa, start, log) && start.pairing == Pairing.INITIAL
    requires Orderly(Missed(ecdsa, start, log, id), now)
    ensures var times := Missed(ecdsa, start, log, id);
            Pairing.Throttled(StateAfter(ecdsa, start, log).pairing.attempts, id, now) <==>
            Recent(times, now) >= Pairing.RATE_ATTEMPTS && now - times[0] <= Pairing.RATE_WINDOW
  {
    hide Missed, StateAfter, Legal;
    AttemptsMirrorLog(ecdsa, start, log, id);
    var times := Missed(ecdsa, start, log, id);
    RecentBound(times, now);
    if times != [] {
      assert (now - times[0]) % Pairing.FILETIME_WRAP == now - times[0];
    }
  }

  // ---------------------------------------------------------------------------
  // How many failures a device can have
  // ---------------------------------------------------------------------------

  ghost predicate WaitsFor(s: Pairing.State, c: Pairing.ClientId, id: string) {
    && c in s.sessions && s.sessions[c].phase == Pairing.WaitingForSas
    && DeviceIdToString(s.sessions[c].deviceId) == id
  }

  /** Clients with a session of this device that can still be confirmed. */
  ghost function WaitingFor(s: Pairing.State, id: string): set<Pairing.ClientId> {
    set c | c in s.sessions && WaitsFor(s, c, id)
  }

  /** Those whose attempt number `j`, counted from zero, is still to come. */
  ghost function Spare(s: Pairing.State, id: string, j: nat): set<Pairing.ClientId> {
    set c | c in s.sessions && WaitsFor(s, c, id) && s.sessions[c].attempts <= j
  }

  /** Attempts left in the waiting sessions of the device. */
  ghost function Left(s: Pairing.State, id: string): nat {
    |Spare(s, id, 0)| + |Spare(s, id, 1)| + |Spare(s, id, 2)|
  }

  lemma {:induction false} LeftAtMost(s: Pairing.State, id: string)
    ensures Left(s, id) <= 3 * |WaitingFor(s, id)|
  {
    hide WaitsFor;
    SubsetSize(Spare(s, id, 0), WaitingFor(s, id));
    SubsetSize(Spare(s, id, 1), WaitingFor(s, id));
    SubsetSize(Spare(s, id, 2), WaitingFor(s, id));
  }

  /** No session of the device has gained attempts. */
  ghost predicate NoneGains(s: Pairing.State, s': Pairing.State, id: string) {
    forall c :: WaitsFor(s', c, id) ==> WaitsFor(s, c, id) && s.sessions[c].attempts <= s'.sessions[c].attempts
  }

  lemma {:induction false} LeftShrinks(s: Pairing.State, s': Pairing.State, id: string)
    requires NoneGains(s, s', id)
    ensures Left(s', id) <= Left(s, id)
  {
    hide DeviceIdToString;
    SubsetSize(Spare(s', id, 0), Spare(s, id, 0));
    SubsetSize(Spare(s', id, 1), Spare(s, id, 1));
    SubsetSize(Spare(s', id, 2), Spare(s, id, 2));
  }

  lemma {:induction false} LeftDrops(s: Pairing.State, s': Pairing.State, id: string, c: Pairing.ClientId)
    requires NoneGains(s, s', id) && WaitsFor(s, c, id) && s.sessions[c].attempts < SAS_MAX_ATTEMPTS
    requires WaitsFor(s', c, id) ==> s'.sessions[c].attempts > s.sessions[c].attempts
    ensures Left(s', id) + 1 <= Left(s, id)
  {
    hide DeviceIdToString;
    var a := s.sessions[c].attempts;
    SubsetSize(Spare(s', id, 0), if a == 0 then Spare(s, id, 0) - {c} else Spare(s, id, 0));
    SubsetSize(Spare(s', id, 1), if a == 1 then Spare(s, id, 1) - {c} else Spare(s, id, 1));
    SubsetSize(Spare(s', id, 2), if a == 2 then Spare(s, id, 2) - {c} else Spare(s, id, 2));
  }

  /** The entry opens a session of this device. */
  predicate OpensFor(e: Entry, id: string) {
    e.event.Pair? && Opens(e, e.event.client) && DeviceIdToString(e.event.request.value.deviceId) == id
  }

  lemma {:induction false} RequestFor(ecdsa: Ecdsa, s: State, e: Entry, id: string)
    requires e.event.Pair? && e.outcome == Step(ecdsa, s, e.event).1
    ensures var s' := Step(ecdsa, s, e.event).0.pairing;
            if OpensFor(e, id) then
              !Pairing.Throttled(s.pairing.attempts, id, e.event.checkedAt) && e.event.client in WaitingFor(s', id)
            else NoneGains(s.pairing, s', id)
  {
    hide DeviceIdToString, Pairing.Throttled, Pairing.AccountFull, IsActive, PinFor;
  }

  /** What a confirmation does to the session it is for. */
  ghost predicate ConfirmShrinks(s: State, s': Pairing.State, e: Entry, id: string) {
    && NoneGains(s.pairing, s', id)
    && (Misses(s, e, id) ==>
          var c := e.event.client;
          && WaitsFor(s.pairing, c, id) && s.pairing.sessions[c].attempts < SAS_MAX_ATTEMPTS
          && (WaitsFor(s', c, id) ==> s'.sessions[c].attempts > s.pairing.sessions[c].attempts))
  }

  lemma {:induction false} ConfirmFor(ecdsa: Ecdsa, s: State, e: Entry, id: string)
    requires e.event.Confirm? && e.outcome == Step(ecdsa, s, e.event).1 && Pairing.AllSettled(s.pairing)
    ensures ConfirmShrinks(s, Step(ecdsa, s, e.event).0.pairing, e, id)
  {
    hide DeviceIdToString, PinAccepted, SasPinExpired, Written, WellFormedPin, Pairing.Recorded;
  }

  /** What one step does to the sessions of a device. */
  lemma {:induction false} StepSessionsFor(ecdsa: Ecdsa, s: State, e: Entry, id: string)
    requires e.outcome == Step(ecdsa, s, e.event).1 && Pairing.AllSettled(s.pairing)
    ensures var s' := Step(ecdsa, s, e.event).0.pairing;
            if OpensFor(e, id) then
              !Pairing.Throttled(s.pairing.attempts, id, e.event.checkedAt) && e.event.client in WaitingFor(s', id)
            else ConfirmShrinks(s, s', e, id)
  {
    hide Pairing.OnRequest, Pairing.OnConfirm, Pairing.OnUnpair, AuthLog.Step, DeviceIdToString, Pairing.Throttled,
         Pairing.AllSettled, SasPinExpired, WaitingFor;
    if e.event.Pair? {
      RequestFor(ecdsa, s, e, id);
    } else if e.event.Confirm? {
      ConfirmFor(ecdsa, s, e, id);
    }
  }

  /** A request for the device comes within a minute of its first failure, if it comes at all. */
  predicate Prompt(times: seq<FileTime>, e: Entry, id: string) {
    e.event.Pair? && e.event.request.Some? && DeviceIdToString(e.event.request.value.deviceId) == id && times != [] ==>
      (e.event.checkedAt - times[0]) % Pairing.FILETIME_WRAP <= Pairing.RATE_WINDOW
  }

  /** At most `k` sessions of the device ever wait at once; `prompt` tells that all its requests are. */
  ghost predicate ThrottleRun(ecdsa: Ecdsa, start: State, log: seq<Entry>, id: string, k: nat, prompt: bool) {
    && Legal(ecdsa, start, log) && start.pairing == Pairing.INITIAL
    && (forall n :: 0 <= n <= |log| ==> |WaitingFor(StateAfter(ecdsa, start, log[..n]).pairing, id)| <= k)
    && (prompt ==> forall i :: 0 <= i < |log| ==> Prompt(Missed(ecdsa, start, log[..i], id), log[i], id))
  }

  lemma {:induction false} ThrottleRunPrefix(ecdsa: Ecdsa, start: State, log: seq<Entry>, id: string, k: nat,
                                             prompt: bool)
    requires ThrottleRun(ecdsa, start, log, id, k, prompt) && log != []
    ensures ThrottleRun(ecdsa, start, log[..|log| - 1], id, k, prompt)
    ensures |WaitingFor(StateAfter(ecdsa, start, log).pairing, id)| <= k
    ensures prompt ==> Prompt(Missed(ecdsa, start, log[..|log| - 1], id), log[|log| - 1], id)
  {
    hide Step, StateAfter, WaitingFor, Missed, Prompt;
    var front := log[..|log| - 1];
    assert log[..|log|] == log;
    forall n | 0 <= n <= |front|
      ensures |WaitingFor(StateAfter(ecdsa, start, front[..n]).pairing, id)| <= k
    {
      assert front[..n] == log[..n];
    }
    forall i | 0 <= i < |front| && prompt
      ensures Prompt(Missed(ecdsa, start, front[..i], id), front[i], id)
    {
      assert front[..i] == log[..i];
    }
  }

  /** Four failures let a session open, and each waiting session has three attempts. */
  function FailureCeiling(k: nat): nat { Pairing.RATE_ATTEMPTS - 1 + SAS_MAX_ATTEMPTS * k }

  lemma {:induction false} NobodyWaits(id: string)
    ensures Left(Pairing.INITIAL, id) == 0
  {
    assert Spare(Pairing.INITIAL, id, 0) == Spare(Pairing.INITIAL, id, 1) == Spare(Pairing.INITIAL, id, 2) == {};
  }

  lemma {:induction false} StepBound(ecdsa: Ecdsa, s: State, e: Entry, id: string, k: nat, prompt: bool,
                                     times: seq<FileTime>)
    requires e.outcome == Step(ecdsa, s, e.event).1 && Pairing.AllSettled(s.pairing)
    requires Mirrors(s.pairing.attempts, id, times) && (if prompt then Prompt(times, e, id) else k == 0)
    requires |WaitingFor(Step(ecdsa, s, e.event).0.pairing, id)| <= k
    requires |times| + Left(s.pairing, id) <= FailureCeiling(k)
    ensures |times| + (if Misses(s, e, id) then 1 else 0) + Left(Step(ecdsa, s, e.event).0.pairing, id) <=
            FailureCeiling(k)
  {
    hide Step, Pairing.AllSettled, Left, WaitsFor, NoneGains, DeviceIdToString;
    var s' := Step(ecdsa, s, e.event).0.pairing;
    StepSessionsFor(ecdsa, s, e, id);
    if OpensFor(e, id) {
      LeftAtMost(s', id);
      SubsetSize({e.event.client}, WaitingFor(s', id));
    } else if Misses(s, e, id) {
      LeftDrops(s.pairing, s', id, e.event.client);
    } else {
      LeftShrinks(s.pairing, s', id);
    }
  }

  /**
    With at most `k` sessions of the device waiting at once and all its requests prompt, its
    failures since the last right PIN and the attempts left in its sessions are at most 4 + 3k.
    Without any waiting session they are so in any case.
    */
  lemma {:induction false} FailuresBounded(ecdsa: Ecdsa, start: State, log: seq<Entry>, id: string, k: nat,
                                           prompt: bool)
    requires ThrottleRun(ecdsa, start, log, id, k, prompt) && (prompt || k == 0)
    ensures |Missed(ecdsa, start, log, id)| + Left(StateAfter(ecdsa, start, log).pairing, id) <= FailureCeiling(k)
  {
    hide Step, Left, WaitingFor, Prompt, Clears, Misses, Mirrors, Pairing.Settled;
    if log == [] {
      NobodyWaits(id);
    } else {
      var front, e := log[..|log| - 1], log[|log| - 1];
      var s := StateAfter(ecdsa, start, front);
      ThrottleRunPrefix(ecdsa, start, log, id, k, prompt);
      FailuresBounded(ecdsa, start, front, id, k, prompt);
      AttemptsMirrorLog(ecdsa, start, front, id);
      AllStaySettled(ecdsa, start, front);
      StepBound(ecdsa, s, e, id, k, prompt, Missed(ecdsa, start, front, id));
    }
  }

  // ---------------------------------------------------------------------------
  // Runs that reach the bound
  // ---------------------------------------------------------------------------

  function AskBy(client: Pairing.ClientId, t: FileTime): Event {
    Pair(client, "", Some(Pairing.PairRequest(Phone(0), "phone", [])), "", ZeroDraws(), t, t)
  }

  /** A malformed confirmation. */
  function MissBy(client: Pairing.ClientId, t: FileTime): Event {
    Confirm(client, "", "", "", Pairing.ConfirmTimes(t, t, t, t), true)
  }

  /** The session opened at `t` after `a` malformed confirmations. */
  function Shown(t: FileTime, a: nat): Pairing.Session {
    Pairing.NewSession(Pairing.PairRequest(Phone(0), "phone", []), "", ZeroDraws(), t)
    .(attempts := a, phase := if a < SAS_MAX_ATTEMPTS then Pairing.WaitingForSas else Pairing.Failed)
  }

  lemma {:induction false} AskOpensAt(ecdsa: Ecdsa, s: State, client: Pairing.ClientId, t: FileTime)
    requires s.store == map[] && !Pairing.Throttled(s.pairing.attempts, PhoneText(0), t)
    ensures var (s', o) := Step(ecdsa, s, AskBy(client, t));
            && s' == s.(pairing := Pairing.State(s.pairing.sessions[client := Shown(t, 0)], s.pairing.attempts))
            && o == PairReply(Pairing.AwaitingPin)
  {
    hide DeviceIdToString, PinFor, Pairing.Throttled;
    PinIsShown();
    assert (s.pairing.sessions - {client})[client := Shown(t, 0)] == s.pairing.sessions[client := Shown(t, 0)];
  }

  lemma {:induction false} MissCounts(ecdsa: Ecdsa, s: State, client: Pairing.ClientId, t0: FileTime, a: nat,
                                      t: FileTime)
    requires client in s.pairing.sessions && s.pairing.sessions[client] == Shown(t0, a) && a < SAS_MAX_ATTEMPTS
    ensures var (s', o) := Step(ecdsa, s, MissBy(client, t));
            && s'.store == s.store && s'.pairing.sessions == s.pairing.sessions[client := Shown(t0, a + 1)]
            && o == ConfirmReply(Pairing.MalformedConfirm)
            && Misses(s, Entry(MissBy(client, t), o), PhoneText(0)) &&
              !Clears(s, Entry(MissBy(client, t), o), PhoneText(0))
  {
    hide DeviceIdToString, PinFor, Pairing.Recorded;
  }

  /** A run from the empty system that has led to `s`, with failures at these times. */
  ghost predicate Reached(ecdsa: Ecdsa, log: seq<Entry>, s: State, times: seq<FileTime>) {
    && Legal(ecdsa, EMPTY, log) && StateAfter(ecdsa, EMPTY, log) == s && s.store == map[]
    && Missed(ecdsa, EMPTY, log, PhoneText(0)) == times
  }

  /** The log with one more entry for this event. */
  ghost predicate Extends(log: seq<Entry>, longer: seq<Entry>, e: Event) {
    |longer| == |log| + 1 && longer[..|log|] == log && longer[|log|].event == e
  }

  lemma {:induction false} AskMore(ecdsa: Ecdsa, log: seq<Entry>, s: State, times: seq<FileTime>,
                                   client: Pairing.ClientId, t: FileTime) returns (longer: seq<Entry>, after: State)
    requires Reached(ecdsa, log, s, times)
    requires |times| < Pairing.RATE_ATTEMPTS || (t - times[0]) % Pairing.FILETIME_WRAP > Pairing.RATE_WINDOW
    ensures Reached(ecdsa, longer, after, times) && Extends(log, longer, AskBy(client, t))
    ensures after.pairing.sessions == s.pairing.sessions[client := Shown(t, 0)]
  {
    hide Step, PhoneText, Shown;
    AttemptsMirrorLog(ecdsa, EMPTY, log, PhoneText(0));
    AskOpensAt(ecdsa, s, client, t);
    longer := log + [Entry(AskBy(client, t), PairReply(Pairing.AwaitingPin))];
    after := Step(ecdsa, s, AskBy(client, t)).0;
    assert longer[..|log|] == log;
  }

  lemma {:induction false} MissMore(ecdsa: Ecdsa, log: seq<Entry>, s: State, times: seq<FileTime>,
                                    client: Pairing.ClientId, t0: FileTime, a: nat, t: FileTime)
    returns (longer: seq<Entry>, after: State)
    requires Reached(ecdsa, log, s, times)
    requires client in s.pairing.sessions && s.pairing.sessions[client] == Shown(t0, a) && a < SAS_MAX_ATTEMPTS
    ensures Reached(ecdsa, longer, after, times + [t]) && Extends(log, longer, MissBy(client, t))
    ensures after.pairing.sessions == s.pairing.sessions[client := Shown(t0, a + 1)]
  {
    hide Step, PhoneText, Shown, Misses, Clears;
    MissCounts(ecdsa, s, client, t0, a, t);
    longer := log + [Entry(MissBy(client, t), ConfirmReply(Pairing.MalformedConfirm))];
    after := Step(ecdsa, s, MissBy(client, t)).0;
    assert longer[..|log|] == log;
  }

  ghost function Clients(k: nat): (clients: set<Pairing.ClientId>)
    requires k < CLIENTS
    ensures |clients| == k && forall c: Pairing.ClientId :: c in clients <==> 1 <= c <= k
  {
    if k == 0 then {} else Clients(k - 1) + {k}
  }

  /** A run of clients 1 to `k` in the regime. */
  ghost predicate Within(ecdsa: Ecdsa, log: seq<Entry>, s: State, times: seq<FileTime>, k: nat, prompt: bool)
    requires k < CLIENTS
  {
    && Reached(ecdsa, log, s, times) && s.pairing.sessions.Keys <= Clients(k)
    && ThrottleRun(ecdsa, EMPTY, log, PhoneText(0), k, prompt)
  }

  lemma {:induction false} WithinExtends(ecdsa: Ecdsa, log: seq<Entry>, s: State, times: seq<FileTime>, k: nat,
                                         prompt: bool, e: Event, longer: seq<Entry>, after: State,
                                         times': seq<FileTime>)
    requires k < CLIENTS && Within(ecdsa, log, s, times, k, prompt) && Extends(log, longer, e)
    requires Reached(ecdsa, longer, after, times') && after.pairing.sessions.Keys <= Clients(k)
    requires prompt ==> Prompt(times, longer[|log|], PhoneText(0))
    ensures Within(ecdsa, longer, after, times', k, prompt)
  {
    hide Step, StateAfter, Missed, PhoneText, Prompt, Legal, WaitsFor, Clients;
    var id := PhoneText(0);
    SubsetSize(WaitingFor(after.pairing, id), Clients(k));
    forall n | 0 <= n <= |longer|
      ensures |WaitingFor(StateAfter(ecdsa, EMPTY, longer[..n]).pairing, id)| <= k
    {
      assert n <= |log| ==> longer[..n] == log[..n];
      assert n == |longer| ==> longer[..n] == longer;
    }
    forall i | 0 <= i < |longer| && prompt
      ensures Prompt(Missed(ecdsa, EMPTY, longer[..i], id), longer[i], id)
    {
      assert longer[..i] == log[..i];
      assert i < |log| ==> longer[i] == log[i];
      assert i == |log| ==> log[..i] == log;
    }
  }

  lemma {:induction false} AskIsPrompt(times: seq<FileTime>, e: Entry, client: Pairing.ClientId, t: FileTime)
    requires e.event == AskBy(client, t)
    requires times != [] ==> (t - times[0]) % Pairing.FILETIME_WRAP <= Pairing.RATE_WINDOW
    ensures Prompt(times, e, PhoneText(0))
  {
    hide DeviceIdToString;
  }

  lemma {:induction false} AskWithin(ecdsa: Ecdsa, log: seq<Entry>, s: State, times: seq<FileTime>, k: nat,
                                     prompt: bool, client: Pairing.ClientId, t: FileTime)
    returns (longer: seq<Entry>, after: State)
    requires k < CLIENTS && Within(ecdsa, log, s, times, k, prompt) && 1 <= client <= k
    requires |times| < Pairing.RATE_ATTEMPTS || (t - times[0]) % Pairing.FILETIME_WRAP > Pairing.RATE_WINDOW
    requires prompt && times != [] ==> (t - times[0]) % Pairing.FILETIME_WRAP <= Pairing.RATE_WINDOW
    ensures Within(ecdsa, longer, after, times, k, prompt)
    ensures after.pairing.sessions == s.pairing.sessions[client := Shown(t, 0)]
  {
    hide Reached, ThrottleRun, PhoneText, Shown, Prompt, AskBy, Clients;
    longer, after := AskMore(ecdsa, log, s, times, client, t);
    if prompt {
      AskIsPrompt(times, longer[|log|], client, t);
    }
    WithinExtends(ecdsa, log, s, times, k, prompt, AskBy(client, t), longer, after, times);
  }

  lemma {:induction false} MissWithin(ecdsa: Ecdsa, log: seq<Entry>, s: State, times: seq<FileTime>, k: nat,
                                      prompt: bool, client: Pairing.ClientId, t0: FileTime, a: nat, t: FileTime)
    returns (longer: seq<Entry>, after: State)
    requires k < CLIENTS && Within(ecdsa, log, s, times, k, prompt)
    requires client in s.pairing.sessions && s.pairing.sessions[client] == Shown(t0, a) && a < SAS_MAX_ATTEMPTS
    ensures Within(ecdsa, longer, after, times + [t], k, prompt)
    ensures after.pairing.sessions == s.pairing.sessions[client := Shown(t0, a + 1)]
  {
    hide Reached, ThrottleRun, PhoneText, Shown, Clients;
    longer, after := MissMore(ecdsa, log, s, times, client, t0, a, t);
    WithinExtends(ecdsa, log, s, times, k, prompt, MissBy(client, t), longer, after, times + [t]);
  }

  lemma {:induction false} NothingMissed(ecdsa: Ecdsa, k: nat, prompt: bool)
    requires k < CLIENTS
    ensures Within(ecdsa, [], EMPTY, [], k, prompt)
  {
    hide Step;
    assert WaitingFor(Pairing.INITIAL, PhoneText(0)) == {};
    var none: seq<Entry> := [];
    assert none[..0] == none;
  }

  /** `n` failures, all at time zero. */
  function Zeros(n: nat): seq<FileTime> { seq(n, _ => 0) }

  lemma {:induction false} OneMoreZero(n: nat)
    ensures Zeros(n) + [0] == Zeros(n + 1)
  {
  }

  /** One client alone asks and misses four times. */
  lemma {:induction false} FourMisses(ecdsa: Ecdsa, k: nat) returns (log: seq<Entry>, s: State)
    requires 1 <= k < CLIENTS
    ensures Within(ecdsa, log, s, Zeros(4), k, true)
  {
    hide Within, Shown;
    log, s := [], EMPTY;
    NothingMissed(ecdsa, k, true);
    assert Zeros(0) == [];
    for m := 0 to 4
      invariant Within(ecdsa, log, s, Zeros(m), k, true)
    {
      log, s := AskWithin(ecdsa, log, s, Zeros(m), k, true, 1, 0);
      log, s := MissWithin(ecdsa, log, s, Zeros(m), k, true, 1, 0, 0, 0);
      OneMoreZero(m);
    }
  }

  /** Every client opens a session. */
  lemma {:induction false} AllOpen(ecdsa: Ecdsa, k: nat, log: seq<Entry>, s: State)
    returns (longer: seq<Entry>, after: State)
    requires 1 <= k < CLIENTS && Within(ecdsa, log, s, Zeros(4), k, true)
    ensures Within(ecdsa, longer, after, Zeros(4), k, true)
    ensures forall c: Pairing.ClientId :: 1 <= c <= k ==>
            c in after.pairing.sessions && after.pairing.sessions[c] == Shown(0, 0)
  {
    hide Within, Shown;
    longer, after := log, s;
    for j := 0 to k
      invariant Within(ecdsa, longer, after, Zeros(4), k, true)
      invariant forall c: Pairing.ClientId :: 1 <= c <= j ==>
                c in after.pairing.sessions && after.pairing.sessions[c] == Shown(0, 0)
    {
      longer, after := AskWithin(ecdsa, longer, after, Zeros(4), k, true, j + 1, 0);
    }
  }

  lemma {:induction false} MissThrice(ecdsa: Ecdsa, k: nat, log: seq<Entry>, s: State, m: nat, client: Pairing.ClientId)
    returns (longer: seq<Entry>, after: State)
    requires k < CLIENTS && Within(ecdsa, log, s, Zeros(m), k, true)
    requires client in s.pairing.sessions && s.pairing.sessions[client] == Shown(0, 0)
    ensures Within(ecdsa, longer, after, Zeros(m + 3), k, true)
    ensures after.pairing.sessions == s.pairing.sessions[client := Shown(0, 3)]
  {
    hide Within, Shown;
    longer, after := log, s;
    for a := 0 to 3
      invariant Within(ecdsa, longer, after, Zeros(m + a), k, true)
      invariant client in after.pairing.sessions && after.pairing.sessions[client] == Shown(0, a)
      invariant after.pairing.sessions == s.pairing.sessions[client := Shown(0, a)]
    {
      longer, after := MissWithin(ecdsa, longer, after, Zeros(m + a), k, true, client, 0, a, 0);
      OneMoreZero(m + a);
    }
  }

  lemma {:induction false} WithinMeans(ecdsa: Ecdsa, log: seq<Entry>, s: State, times: seq<FileTime>, k: nat,
                                       prompt: bool)
    requires k < CLIENTS && Within(ecdsa, log, s, times, k, prompt)
    ensures ThrottleRun(ecdsa, EMPTY, log, PhoneText(0), k, prompt) && Missed(ecdsa, EMPTY, log, PhoneText(0)) == times
  {
    hide ThrottleRun, Missed, PhoneText;
  }

  /** The bound is reached: four failures, then three in each of `k` sessions, all at one instant. */
  lemma {:induction false} FailuresReached(ecdsa: Ecdsa, k: nat) returns (log: seq<Entry>)
    requires 1 <= k < CLIENTS
    ensures ThrottleRun(ecdsa, EMPTY, log, PhoneText(0), k, true)
    ensures Missed(ecdsa, EMPTY, log, PhoneText(0)) == Zeros(FailureCeiling(k))
  {
    hide Within, Shown, ThrottleRun, Missed, PhoneText;
    var s: State;
    log, s := FourMisses(ecdsa, k);
    log, s := AllOpen(ecdsa, k, log, s);
    for j := 0 to k
      invariant Within(ecdsa, log, s, Zeros(4 + 3 * j), k, true)
      invariant forall c: Pairing.ClientId :: j < c <= k ==>
                c in s.pairing.sessions && s.pairing.sessions[c] == Shown(0, 0)
    {
      log, s := MissThrice(ecdsa, k, log, s, 4 + 3 * j, j + 1);
    }
    WithinMeans(ecdsa, log, s, Zeros(4 + 3 * k), k, true);
  }

  const LATER: FileTime := Pairing.RATE_WINDOW + 1

  function RoundTimes(n: nat): seq<FileTime> {
    seq(n, i => if i == 0 then 0 else LATER)
  }

  lemma {:induction false} RecentLater(n: nat)
    ensures Recent(RoundTimes(n), LATER) == if n == 0 then 0 else n - 1
    ensures Orderly(RoundTimes(n), LATER)
  {
    if n > 0 {
      RecentLater(n - 1);
      assert RoundTimes(n)[..n - 1] == RoundTimes(n - 1);
    }
  }

  /**
    Requests that come later are not bounded at all: one client that asks and misses in turn has
    any number of failures in the minute after the first is over a minute old.
    */
  lemma {:induction false} MinuteIsUnbounded(ecdsa: Ecdsa, n: nat) returns (log: seq<Entry>)
    ensures ThrottleRun(ecdsa, EMPTY, log, PhoneText(0), 1, false)
    ensures Orderly(Missed(ecdsa, EMPTY, log, PhoneText(0)), LATER)
    ensures Recent(Missed(ecdsa, EMPTY, log, PhoneText(0)), LATER) == n
  {
    hide Within, Shown, ThrottleRun, Missed, PhoneText, Recent;
    var s := EMPTY;
    log := [];
    NothingMissed(ecdsa, 1, false);
    assert RoundTimes(0) == [];
    for i := 0 to n + 1
      invariant Within(ecdsa, log, s, RoundTimes(i), 1, false)
    {
      var t := if i == 0 then 0 else LATER;
      log, s := AskWithin(ecdsa, log, s, RoundTimes(i), 1, false, 1, t);
      log, s := MissWithin(ecdsa, log, s, RoundTimes(i), 1, false, 1, t, 0, t);
      assert RoundTimes(i) + [t] == RoundTimes(i + 1);
    }
    WithinMeans(ecdsa, log, s, RoundTimes(n + 1), 1, false);
    RecentLater(n + 1);
  }

  // ---------------------------------------------------------------------------
  // The documented five a minute
  // ---------------------------------------------------------------------------

  /** No run has more than five failures of a device in a minute. */
  ghost predicate FiveKept(ecdsa: Ecdsa, k: nat, prompt: bool) {
    forall start, log, id, now ::
      ThrottleRun(ecdsa, start, log, id, k, prompt) && Orderly(Missed(ecdsa, start, log, id), now) ==>
      Recent(Missed(ecdsa, start, log, id), now) <= Pairing.RATE_ATTEMPTS
  }

  lemma {:induction false} MoreMayWait(ecdsa: Ecdsa, start: State, log: seq<Entry>, id: string, k: nat, more: nat,
                                       prompt: bool)
    requires ThrottleRun(ecdsa, start, log, id, k, true) && k <= more
    ensures ThrottleRun(ecdsa, start, log, id, more, prompt)
  {
    hide Legal, StateAfter, WaitingFor, Missed, Prompt;
  }

  /** As soon as one session may wait it is not kept, prompt or not; what is kept is `FailuresBounded`. */
  lemma {:induction false} FiveKeptExactly(ecdsa: Ecdsa, k: nat, prompt: bool)
    ensures FiveKept(ecdsa, k, prompt) <==> k == 0
  {
    hide ThrottleRun, Missed, PhoneText, StateAfter, Left;
    if k == 0 {
      forall start, log, id, now | ThrottleRun(ecdsa, start, log, id, k, prompt) &&
        Orderly(Missed(ecdsa, start, log, id), now)
        ensures Recent(Missed(ecdsa, start, log, id), now) <= Pairing.RATE_ATTEMPTS
      {
        FailuresBounded(ecdsa, start, log, id, k, prompt);
        RecentBound(Missed(ecdsa, start, log, id), now);
      }
    } else {
      var log := FailuresReached(ecdsa, 1);
      MoreMayWait(ecdsa, EMPTY, log, PhoneText(0), 1, k, prompt);
      RecentBound(Zeros(FailureCeiling(1)), 0);
      assert Orderly(Missed(ecdsa, EMPTY, log, PhoneText(0)), 0);
    }
  }
}
