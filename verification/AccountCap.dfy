/**
  The limit of five devices per account. It is tested when a session opens and not again when
  the PIN is confirmed, and not at all for an empty account name or a status change, so what it
  guarantees depends on what runs may do in between.
  */
module AccountCap {
  import opened Bytes
  import opened Crypto
  import opened DeviceIds
  import opened DeviceRegistry
  import opened SasPins
  import opened UnlockSystem

  /** A name that the registry returns as it was written. SID strings have at most 184 characters. */
  predicate Fits(sid: string) {
    TextBack(sid) == sid
  }

  /** The account resolved by the last pairing request of a client. */
  function OpenedFor(log: seq<Entry>, client: Pairing.ClientId): string {
    if log == [] then ""
    else
      var e := log[|log| - 1].event;
      if e.Pair? && e.client == client then e.sid else OpenedFor(log[..|log| - 1], client)
  }

  /** Clients whose session was opened for this account and can still be confirmed. */
  ghost function Waiting(log: seq<Entry>, s: Pairing.State, sid: string): set<Pairing.ClientId> {
    set c | c in s.sessions && s.sessions[c].phase == Pairing.WaitingForSas && OpenedFor(log, c) == sid
  }

  /**
    What runs may do: how many sessions of the account wait at once, whether a confirmation may
    resolve another account than its request did, and whether a status change may activate a device.
    */
  datatype Regime = Regime(waiting: nat, switching: bool, reactivating: bool)

  /** Entries after `log` that the regime allows. Other accounts may do the same in between. */
  predicate Permits(r: Regime, log: seq<Entry>, e: Entry) {
    match e.event
    case Pair(_, _, _, account, _, _, _) => Fits(account)
    case Confirm(client, _, _, account, _, _) =>
      Fits(account) &&
        (r.switching || account == OpenedFor(log, client) || !(e.outcome.ConfirmReply? && e.outcome.confirm.Completed?))
    case SetStatus(_, status) => r.reactivating || status != STATUS_ACTIVE
    case _ => true
  }

  /** A run in this regime that starts within the limit and without sessions. */
  ghost predicate CapRun(ecdsa: Ecdsa, start: State, log: seq<Entry>, sid: string, r: Regime) {
    && Legal(ecdsa, start, log)
    && |ActiveFor(start.store, sid)| <= MAX_DEVICES_PER_ACCOUNT
    && start.pairing.sessions == map[]
    && (forall i :: 0 <= i < |log| ==> Permits(r, log[..i], log[i]))
    && (forall n :: 0 <= n <= |log| ==>
        |Waiting(log[..n], StateAfter(ecdsa, start, log[..n]).pairing, sid)| <= r.waiting)
  }

  lemma {:induction false} SubsetSize<T>(a: set<T>, b: set<T>)
    requires a <= b
    ensures |a| <= |b|
  {
    assert b == a + (b - a);
  }

  /** Account of the last request, one entry later. */
  lemma {:induction false} OpenedForStep(log: seq<Entry>, e: Entry, client: Pairing.ClientId)
    ensures OpenedFor(log + [e], client) ==
            if e.event.Pair? && e.event.client == client then e.event.sid else OpenedFor(log, client)
  {
    assert (log + [e])[..|log|] == log;
  }

  /** Other clients' sessions stay, and a new one was opened below the limit if its account has a name. */
  lemma {:induction false} RequestSessions(s: State, e: Event)
    requires e.Pair?
    ensures var p :=
              Pairing.OnRequest(s.pairing, s.store, e.client, e.ip, e.request, e.sid, e.draws, e.checkedAt,
                                e.issuedAt).0;
            && p.sessions - {e.client} == s.pairing.sessions - {e.client}
            && (e.client in p.sessions ==> e.sid == "" || |ActiveFor(s.store, e.sid)| < MAX_DEVICES_PER_ACCOUNT)
  {
    hide Pairing.Throttled, IsActive, DeviceIdToString, PinFor, ActiveFor;
  }

  lemma {:induction false} RequestCap(s: State, e: Event, sid: string, log: seq<Entry>, o: Outcome)
    requires e.Pair?
    ensures var p :=
              Pairing.OnRequest(s.pairing, s.store, e.client, e.ip, e.request, e.sid, e.draws, e.checkedAt,
                                e.issuedAt).0;
            var before, after := Waiting(log, s.pairing, sid), Waiting(log + [Entry(e, o)], p, sid);
            |after| <= |before| ||
              (|after| <= |before| + 1 && (sid == "" || |ActiveFor(s.store, sid)| < MAX_DEVICES_PER_ACCOUNT))
  {
    hide Pairing.OnRequest, ActiveFor, OpenedFor;
    RequestSessions(s, e);
    var p := Pairing.OnRequest(s.pairing, s.store, e.client, e.ip, e.request, e.sid, e.draws, e.checkedAt,
                               e.issuedAt).0;
    forall c
      ensures OpenedFor(log + [Entry(e, o)], c) == if e.client == c then e.sid else OpenedFor(log, c)
      ensures c != e.client ==>
              (c in p.sessions <==> c in s.pairing.sessions) &&
                (c in p.sessions ==> p.sessions[c] == s.pairing.sessions[c])
    {
      OpenedForStep(log, Entry(e, o), c);
      assert c in p.sessions - {e.client} <==> c in s.pairing.sessions - {e.client};
    }
    var before, after := Waiting(log, s.pairing, sid), Waiting(log + [Entry(e, o)], p, sid);
    if e.client in after {
      SubsetSize(after, before + {e.client});
    } else {
      SubsetSize(after, before);
    }
  }

  lemma {:induction false} WriteAddsOne(store: Store, id: string, r: DeviceRecord, sid: string)
    ensures |ActiveFor(Written(store, id, r), sid)| <= |ActiveFor(store, sid)| + if TextBack(r.sid) == sid then 1 else 0
    ensures id !in store && IsActiveFor(Written(store, id, r), id, sid) ==>
            |ActiveFor(Written(store, id, r), sid)| == |ActiveFor(store, sid)| + 1
  {
    hide TextBack;
    var before, after := ActiveFor(store, sid), ActiveFor(Written(store, id, r), sid);
    if TextBack(r.sid) == sid {
      SubsetSize(after, before + {id});
    } else {
      SubsetSize(after, before);
    }
    if id !in store && IsActiveFor(Written(store, id, r), id, sid) {
      assert after == before + {id};
    }
  }

  /** A completed confirmation ends the session it came from; no other session starts to wait. */
  lemma {:induction false} ConfirmSessions(s: State, e: Event)
    requires e.Confirm?
    ensures var (p, c) := Pairing.OnConfirm(s.pairing, e.client, e.idText, e.pin, e.sid, e.times, e.writable);
            && p.sessions - {e.client} == s.pairing.sessions - {e.client}
            && (e.client in p.sessions && p.sessions[e.client].phase == Pairing.WaitingForSas ==>
                  e.client in s.pairing.sessions && s.pairing.sessions[e.client].phase == Pairing.WaitingForSas)
            && (c.Completed? ==> c.record.sid == e.sid && e.client in s.pairing.sessions && e.client !in p.sessions
                                 && s.pairing.sessions[e.client].phase == Pairing.WaitingForSas)
  {
    hide DeviceIdToString, PinAccepted, SasPinExpired, Pairing.Recorded;
  }

  /** A confirmation under the account of its request trades a waiting session for a device. */
  lemma {:induction false} ConfirmCap(s: State, e: Event, sid: string, log: seq<Entry>, o: Outcome, r: Regime)
    requires e.Confirm? && !r.switching && Permits(r, log, Entry(e, o))
    requires o == ConfirmReply(Pairing.OnConfirm(s.pairing, e.client, e.idText, e.pin, e.sid, e.times, e.writable).1)
    ensures var (p, c) := Pairing.OnConfirm(s.pairing, e.client, e.idText, e.pin, e.sid, e.times, e.writable);
            |ActiveFor(Pairing.StoreAfterConfirm(s.store, c), sid)| + |Waiting(log + [Entry(e, o)], p, sid)| <=
              |ActiveFor(s.store, sid)| + |Waiting(log, s.pairing, sid)|
  {
    hide Pairing.OnConfirm, DeviceIdToString, ActiveFor, Written, OpenedFor, TextBack;
    ConfirmSessions(s, e);
    var (p, c) := Pairing.OnConfirm(s.pairing, e.client, e.idText, e.pin, e.sid, e.times, e.writable);
    forall d
      ensures OpenedFor(log + [Entry(e, o)], d) == OpenedFor(log, d)
      ensures d != e.client ==>
              (d in p.sessions <==> d in s.pairing.sessions) &&
                (d in p.sessions ==> p.sessions[d] == s.pairing.sessions[d])
    {
      OpenedForStep(log, Entry(e, o), d);
      assert d in p.sessions - {e.client} <==> d in s.pairing.sessions - {e.client};
    }
    var before, after := Waiting(log, s.pairing, sid), Waiting(log + [Entry(e, o)], p, sid);
    if c.Completed? {
      WriteAddsOne(s.store, DeviceIdToString(c.deviceId), c.record, sid);
    }
    if c.Completed? && e.sid == sid {
      SubsetSize(after, before - {e.client});
    } else {
      SubsetSize(after, before);
    }
  }

  lemma {:induction false} OtherStepsCap(ecdsa: Ecdsa, s: State, e: Event, sid: string, log: seq<Entry>, o: Outcome,
                                         r: Regime)
    requires !r.reactivating && Permits(r, log, Entry(e, o)) && !e.Pair? && !e.Confirm?
    ensures var s' := Step(ecdsa, s, e).0;
            |ActiveFor(s'.store, sid)| <= |ActiveFor(s.store, sid)| &&
              |Waiting(log + [Entry(e, o)], s'.pairing, sid)| <= |Waiting(log, s.pairing, sid)|
  {
    hide DeviceIdToString, AuthLog.Step, Auth.Parsed, SasPinExpired, TextBack, KeyBack, OpenedFor;
    var s' := Step(ecdsa, s, e).0;
    forall c
      ensures OpenedFor(log + [Entry(e, o)], c) == OpenedFor(log, c)
    {
      OpenedForStep(log, Entry(e, o), c);
    }
    SubsetSize(ActiveFor(s'.store, sid), ActiveFor(s.store, sid));
    SubsetSize(Waiting(log + [Entry(e, o)], s'.pairing, sid), Waiting(log, s.pairing, sid));
  }

  /** Devices plus waiting sessions: four and the bound on sessions, but at least the limit itself. */
  function Ceiling(k: nat): nat { MAX_DEVICES_PER_ACCOUNT - 1 + if k == 0 then 1 else k }

  lemma {:induction false} StepCap(ecdsa: Ecdsa, s: State, e: Entry, sid: string, log: seq<Entry>, r: Regime)
    requires e.outcome == Step(ecdsa, s, e.event).1 && Permits(r, log, e)
    requires !r.switching && !r.reactivating && (sid != "" || r.waiting == 0)
    requires |ActiveFor(s.store, sid)| + |Waiting(log, s.pairing, sid)| <= Ceiling(r.waiting)
    requires |Waiting(log + [e], Step(ecdsa, s, e.event).0.pairing, sid)| <= r.waiting
    ensures var s' := Step(ecdsa, s, e.event).0;
            |ActiveFor(s'.store, sid)| + |Waiting(log + [e], s'.pairing, sid)| <= Ceiling(r.waiting)
  {
    hide Pairing.OnRequest, Pairing.OnConfirm, AuthLog.Step, ActiveFor, Waiting, DeviceIdToString, OpenedFor, Permits;
    if e.event.Pair? {
      RequestCap(s, e.event, sid, log, e.outcome);
    } else if e.event.Confirm? {
      ConfirmCap(s, e.event, sid, log, e.outcome, r);
    } else {
      OtherStepsCap(ecdsa, s, e.event, sid, log, e.outcome, r);
    }
  }

  lemma {:induction false} CapRunPrefix(ecdsa: Ecdsa, start: State, log: seq<Entry>, sid: string, r: Regime)
    requires CapRun(ecdsa, start, log, sid, r) && log != []
    ensures CapRun(ecdsa, start, log[..|log| - 1], sid, r)
    ensures Permits(r, log[..|log| - 1], log[|log| - 1])
  {
    hide Step, StateAfter, Permits, Waiting, ActiveFor;
    var front := log[..|log| - 1];
    forall n | 0 <= n <= |front|
      ensures |Waiting(front[..n], StateAfter(ecdsa, start, front[..n]).pairing, sid)| <= r.waiting
    {
      assert front[..n] == log[..n];
    }
    forall i | 0 <= i < |front|
      ensures Permits(r, front[..i], front[i])
    {
      assert front[..i] == log[..i];
    }
  }

  lemma {:induction false} NoneWaiting(log: seq<Entry>, s: Pairing.State, sid: string)
    requires s.sessions == map[]
    ensures Waiting(log, s, sid) == {}
  {
  }

  /**
    While sessions are confirmed under the account they were opened for and no status change
    activates a device, the active devices of a named account and its waiting sessions together
    never exceed four plus the bound on sessions, whatever other accounts do.
    */
  lemma {:induction false} CapBound(ecdsa: Ecdsa, start: State, log: seq<Entry>, sid: string, r: Regime)
    requires CapRun(ecdsa, start, log, sid, r)
    requires !r.switching && !r.reactivating && (sid != "" || r.waiting == 0)
    ensures var s := StateAfter(ecdsa, start, log);
            |ActiveFor(s.store, sid)| + |Waiting(log, s.pairing, sid)| <= Ceiling(r.waiting)
  {
    hide Step, Permits, Waiting, ActiveFor;
    if log == [] {
      NoneWaiting(log, start.pairing, sid);
    } else {
      var front, e := log[..|log| - 1], log[|log| - 1];
      CapRunPrefix(ecdsa, start, log, sid, r);
      CapBound(ecdsa, start, front, sid, r);
      assert log[..|log|] == log == front + [e];
      StepCap(ecdsa, StateAfter(ecdsa, start, front), e, sid, front, r);
    }
  }

  // ---------------------------------------------------------------------------
  // Runs that exceed the limit
  // ---------------------------------------------------------------------------

  /** Client ids are 64 bits wide. */
  const CLIENTS := 0x1_0000_0000_0000_0000

  function Phone(n: U64): DeviceId { BigEndian(n, 16) }

  function PhoneText(n: U64): string { DeviceIdToString(Phone(n)) }

  lemma {:induction false} PhonesDiffer(m: U64, n: U64)
    requires m != n
    ensures PhoneText(m) != PhoneText(n)
  {
    hide DeviceIdToString, BigEndian;
    TextInjective(Phone(m), Phone(n));
    WordSizes();
    Pow256Monotone(8, 16);
    ValueOfBigEndian(m, 16);
    ValueOfBigEndian(n, 16);
  }

  function ZeroDraws(): Pairing.Draws { Some(seq(MAX_REDRAWS + 1, _ => 0)) }

  function PhoneRecord(sid: string): DeviceRecord { DeviceRecord("phone", sid, [], STATUS_ACTIVE, 0, 0) }

  /** A registry that holds phones 0 to n - 1 of one account, all active. */
  function Phones(n: U64, sid: string): Store {
    if n == 0 then map[] else Written(Phones(n - 1, sid), PhoneText(n - 1), PhoneRecord(sid))
  }

  lemma {:induction false} NewPhoneCounts(store: Store, n: U64, sid: string)
    requires PhoneText(n) !in store && Fits(sid)
    ensures |ActiveFor(Written(store, PhoneText(n), PhoneRecord(sid)), sid)| == |ActiveFor(store, sid)| + 1
  {
    hide PhoneText, TextBack, ActiveFor;
    WriteAddsOne(store, PhoneText(n), PhoneRecord(sid), sid);
  }

  lemma {:induction false} NoPhones(sid: string)
    ensures ActiveFor(map[], sid) == {}
  {
  }

  lemma {:induction false} PhonesCount(n: U64, sid: string)
    requires Fits(sid)
    ensures |ActiveFor(Phones(n, sid), sid)| == n
    ensures forall m: U64 :: m >= n ==> PhoneText(m) !in Phones(n, sid)
  {
    hide PhoneText, PhoneRecord, ActiveFor, Fits;
    if n == 0 {
      NoPhones(sid);
    } else {
      PhonesCount(n - 1, sid);
      NewPhoneCounts(Phones(n - 1, sid), n - 1, sid);
      forall m: U64 | m >= n
        ensures PhoneText(m) != PhoneText(n - 1)
      {
        PhonesDiffer(m, n - 1);
      }
    }
  }

  function Ask(client: Pairing.ClientId, n: U64, sid: string): Event {
    Pair(client, "", Some(Pairing.PairRequest(Phone(n), "phone", [])), sid, ZeroDraws(), 0, 0)
  }

  function Enter(client: Pairing.ClientId, sid: string): Event {
    Confirm(client, PhoneText(0), PinFor(ZeroDraws()), sid, Pairing.ConfirmTimes(0, 0, 0, 0), true)
  }

  function Pending(n: U64): Pairing.Session {
    Pairing.NewSession(Pairing.PairRequest(Phone(n), "phone", []), "", ZeroDraws(), 0)
  }

  lemma {:induction false} PinIsShown()
    ensures WellFormedPin(PinFor(ZeroDraws())) && PinFor(ZeroDraws()) != "" && |PinFor(ZeroDraws())| == SAS_PIN_LENGTH
  {
    PinDecodes(ZeroDraws().value);
  }

  lemma {:induction false} AskOpens(ecdsa: Ecdsa, s: State, client: Pairing.ClientId, n: U64, sid: string)
    requires s.pairing.attempts == map[] && PhoneText(n) !in s.store && (sid == "" || |ActiveFor(s.store, sid)| <= 4)
    ensures Step(ecdsa, s, Ask(client, n, sid)).0 ==
            s.(pairing := Pairing.State(s.pairing.sessions[client := Pending(n)], map[]))
  {
    hide DeviceIdToString, ActiveFor, PinFor;
    PinIsShown();
    assert (s.pairing.sessions - {client})[client := Pending(n)] == s.pairing.sessions[client := Pending(n)];
  }

  lemma {:induction false} EnterWrites(ecdsa: Ecdsa, s: State, client: Pairing.ClientId, n: U64, sid: string)
    requires s.pairing.attempts == map[] && client in s.pairing.sessions && s.pairing.sessions[client] == Pending(n)
    ensures Step(ecdsa, s, Enter(client, sid)).0 ==
            State(Written(s.store, PhoneText(n), PhoneRecord(sid)), Pairing.State(s.pairing.sessions - {client}, map[]),
                  s.auth)
  {
    hide DeviceIdToString, PinFor, Written, WellFormedPin;
    PinIsShown();
    assert s.pairing.attempts - {PhoneText(n)} == s.pairing.attempts;
  }

  /** A log extended by one event and the answer to it. */
  ghost function Extend(ecdsa: Ecdsa, start: State, log: seq<Entry>, e: Event): seq<Entry> {
    log + [Entry(e, Step(ecdsa, StateAfter(ecdsa, start, log), e).1)]
  }

  /** A run that has reached state `s`. */
  ghost predicate Reaches(ecdsa: Ecdsa, start: State, log: seq<Entry>, sid: string, r: Regime, s: State) {
    CapRun(ecdsa, start, log, sid, r) && StateAfter(ecdsa, start, log) == s
  }

  lemma {:induction false} ExtendRun(ecdsa: Ecdsa, start: State, log: seq<Entry>, sid: string, r: Regime, before: State,
                                     e: Event, after: State)
    requires Reaches(ecdsa, start, log, sid, r, before) && Step(ecdsa, before, e).0 == after
    requires Permits(r, log, Entry(e, Step(ecdsa, before, e).1))
    requires |Waiting(Extend(ecdsa, start, log, e), after.pairing, sid)| <= r.waiting
    ensures Reaches(ecdsa, start, Extend(ecdsa, start, log, e), sid, r, after)
  {
    hide Step, Permits, Waiting, ActiveFor;
    var longer := Extend(ecdsa, start, log, e);
    assert longer[..|log|] == log;
    forall n | 0 <= n <= |longer|
      ensures |Waiting(longer[..n], StateAfter(ecdsa, start, longer[..n]).pairing, sid)| <= r.waiting
    {
      if n <= |log| {
        assert longer[..n] == log[..n];
      } else {
        assert longer[..n] == longer;
      }
    }
    forall i | 0 <= i < |longer|
      ensures Permits(r, longer[..i], longer[i])
    {
      assert longer[..i] == log[..i];
    }
  }

  lemma {:induction false} WithinRegime(ecdsa: Ecdsa, start: State, log: seq<Entry>, sid: string, r: Regime, s: State)
    requires Reaches(ecdsa, start, log, sid, r, s)
    ensures |Waiting(log, s.pairing, sid)| <= r.waiting
  {
    hide Step, Permits, Waiting, ActiveFor, Legal;
    assert log[..|log|] == log;
  }

  lemma {:induction false} ReachedState(ecdsa: Ecdsa, start: State, log: seq<Entry>, sid: string, r: Regime, s: State)
    requires Reaches(ecdsa, start, log, sid, r, s)
    ensures StateAfter(ecdsa, start, log) == s
  {
    hide CapRun, StateAfter;
  }

  /** One more request in a run: it opens a session for `account`. */
  lemma {:induction false} AskRun(ecdsa: Ecdsa, start: State, log: seq<Entry>, sid: string, r: Regime, s: State,
                                  client: Pairing.ClientId, n: U64, account: string)
    returns (longer: seq<Entry>, after: State)
    requires Reaches(ecdsa, start, log, sid, r, s) && s.pairing.attempts == map[]
    requires PhoneText(n) !in s.store && Fits(account) && (account == "" || |ActiveFor(s.store, account)| <= 4)
    requires |Waiting(log, s.pairing, sid)| + (if account == sid then 1 else 0) <= r.waiting
    ensures Reaches(ecdsa, start, longer, sid, r, after)
    ensures after == s.(pairing := Pairing.State(s.pairing.sessions[client := Pending(n)], map[]))
    ensures OpenedFor(longer, client) == account
    ensures forall c :: c != client ==> OpenedFor(longer, c) == OpenedFor(log, c)
    ensures |Waiting(longer, after.pairing, sid)| <= |Waiting(log, s.pairing, sid)| + if account == sid then 1 else 0
  {
    hide Step, ActiveFor, PhoneText, Pending, Reaches, OpenedFor, StateAfter, Fits;
    AskOpens(ecdsa, s, client, n, account);
    var e := Ask(client, n, account);
    after := Step(ecdsa, s, e).0;
    assert StateAfter(ecdsa, start, log) == s by { ReachedState(ecdsa, start, log, sid, r, s); }
    longer := Extend(ecdsa, start, log, e);
    forall c
      ensures OpenedFor(longer, c) == if c == client then account else OpenedFor(log, c)
    {
      OpenedForStep(log, longer[|log|], c);
    }
    var before := Waiting(log, s.pairing, sid);
    SubsetSize(Waiting(longer, after.pairing, sid), if account == sid then before + {client} else before);
    ExtendRun(ecdsa, start, log, sid, r, s, e, after);
  }

  /** One more confirmation in a run: it turns the session of the client into a device of `sid`. */
  lemma {:induction false} EnterRun(ecdsa: Ecdsa, start: State, log: seq<Entry>, sid: string, r: Regime, s: State,
                                    client: Pairing.ClientId, n: U64) returns (longer: seq<Entry>, after: State)
    requires Reaches(ecdsa, start, log, sid, r, s) && s.pairing.attempts == map[]
    requires client in s.pairing.sessions && s.pairing.sessions[client] == Pending(n) && PhoneText(n) !in s.store
    requires Fits(sid) && (r.switching || OpenedFor(log, client) == sid)
    ensures Reaches(ecdsa, start, longer, sid, r, after)
    ensures after ==
            State(Written(s.store, PhoneText(n), PhoneRecord(sid)), Pairing.State(s.pairing.sessions - {client}, map[]),
                  s.auth)
    ensures |ActiveFor(after.store, sid)| == |ActiveFor(s.store, sid)| + 1
    ensures forall c :: OpenedFor(longer, c) == OpenedFor(log, c)
  {
    hide Step, ActiveFor, PhoneText, Pending, Reaches, OpenedFor, StateAfter, Fits, Written, PhoneRecord, PinFor;
    EnterWrites(ecdsa, s, client, n, sid);
    var e := Enter(client, sid);
    after := Step(ecdsa, s, e).0;
    ReachedState(ecdsa, start, log, sid, r, s);
    longer := Extend(ecdsa, start, log, e);
    forall c
      ensures OpenedFor(longer, c) == OpenedFor(log, c)
    {
      OpenedForStep(log, longer[|log|], c);
    }
    SubsetSize(Waiting(longer, after.pairing, sid), Waiting(log, s.pairing, sid));
    WithinRegime(ecdsa, start, log, sid, r, s);
    ExtendRun(ecdsa, start, log, sid, r, s, e, after);
    NewPhoneCounts(s.store, n, sid);
  }

  /** A registry within the limit and no sessions yet. */
  lemma {:induction false} Start(ecdsa: Ecdsa, store: Store, sid: string, r: Regime) returns (start: State)
    requires |ActiveFor(store, sid)| <= MAX_DEVICES_PER_ACCOUNT
    ensures start == State(store, Pairing.INITIAL, Auth.INITIAL)
    ensures Reaches(ecdsa, start, [], sid, r, start) && Waiting([], start.pairing, sid) == {}
  {
    hide Step, ActiveFor;
    start := State(store, Pairing.INITIAL, Auth.INITIAL);
    NoneWaiting([], start.pairing, sid);
    var none: seq<Entry> := [];
    assert none[..0] == none;
    assert StateAfter(ecdsa, start, none) == start;
  }

  lemma {:induction false} NotWritten(store: Store, n: U64, sid: string, m: U64)
    requires PhoneText(m) !in store && m != n
    ensures PhoneText(m) !in Written(store, PhoneText(n), PhoneRecord(sid))
  {
    hide PhoneText;
    PhonesDiffer(m, n);
  }

  /** A run of this regime after which the account has `n` active devices. */
  ghost predicate DevicesReached(ecdsa: Ecdsa, sid: string, r: Regime, n: nat) {
    exists start, log :: CapRun(ecdsa, start, log, sid, r) && |ActiveFor(StateAfter(ecdsa, start, log).store, sid)| == n
  }

  /** `k` clients with a session each, and none of their phones registered yet. */
  ghost predicate AllWait(log: seq<Entry>, s: State, sid: string, first: nat, k: nat)
    requires k + 4 < CLIENTS
  {
    && s.pairing.attempts == map[]
    && (forall c: Pairing.ClientId :: first < c <= k ==>
          c in s.pairing.sessions && s.pairing.sessions[c] == Pending(c + 3) && OpenedFor(log, c) == sid)
    && (forall n: U64 :: n >= first + 4 ==> PhoneText(n) !in s.store)
  }

  /** Requests of clients 1 to `k`, with four active devices and before any confirmation. */
  lemma {:induction false} AllAsk(ecdsa: Ecdsa, start: State, sid: string, r: Regime, k: nat)
    returns (log: seq<Entry>, s: State)
    requires Fits(sid) && k <= r.waiting && k + 4 < CLIENTS
    requires Reaches(ecdsa, start, [], sid, r, start) && Waiting([], start.pairing, sid) == {}
    requires start.pairing.attempts == map[] && |ActiveFor(start.store, sid)| == 4
    requires forall n: U64 :: n >= 4 ==> PhoneText(n) !in start.store
    ensures Reaches(ecdsa, start, log, sid, r, s) && AllWait(log, s, sid, 0, k) && s.store == start.store
  {
    hide Step, ActiveFor, PhoneText, Pending, Reaches, OpenedFor, Waiting, Fits;
    log, s := [], start;
    var c := 0;
    while c < k
      invariant c <= k && Reaches(ecdsa, start, log, sid, r, s) && s.store == start.store
      invariant |Waiting(log, s.pairing, sid)| <= c
      invariant AllWait(log, s, sid, 0, c)
    {
      c := c + 1;
      log, s := AskRun(ecdsa, start, log, sid, r, s, c, c + 3, sid);
    }
  }

  /** Then all of them confirm. */
  lemma {:induction false} AllEnter(ecdsa: Ecdsa, start: State, log: seq<Entry>, sid: string, r: Regime, s: State,
                                    k: nat)
    returns (longer: seq<Entry>, after: State)
    requires Fits(sid) && k + 4 < CLIENTS
    requires Reaches(ecdsa, start, log, sid, r, s) && AllWait(log, s, sid, 0, k)
    ensures Reaches(ecdsa, start, longer, sid, r, after)
    ensures |ActiveFor(after.store, sid)| == |ActiveFor(s.store, sid)| + k
  {
    hide Step, ActiveFor, PhoneText, Pending, Reaches, OpenedFor, Fits, Written, PhoneRecord;
    longer, after := log, s;
    var c := 0;
    while c < k
      invariant c <= k && Reaches(ecdsa, start, longer, sid, r, after)
      invariant |ActiveFor(after.store, sid)| == |ActiveFor(s.store, sid)| + c
      invariant AllWait(longer, after, sid, c, k)
    {
      ghost var store := after.store;
      c := c + 1;
      longer, after := EnterRun(ecdsa, start, longer, sid, r, after, c, c + 3);
      forall n: U64 | n >= c + 4
        ensures PhoneText(n) !in after.store
      {
        NotWritten(store, c + 3, sid, n);
      }
    }
  }

  /** The bound is reached: `k` sessions opened with four active devices, then all confirmed. */
  lemma {:induction false} CapReached(ecdsa: Ecdsa, sid: string, r: Regime, k: nat)
    requires Fits(sid) && k <= r.waiting && k + 4 < CLIENTS
    ensures DevicesReached(ecdsa, sid, r, MAX_DEVICES_PER_ACCOUNT - 1 + k)
  {
    hide ActiveFor, PhoneText, Phones, Fits, CapRun, StateAfter, Waiting, AllWait;
    PhonesCount(4, sid);
    var start := Start(ecdsa, Phones(4, sid), sid, r);
    var log, s := AllAsk(ecdsa, start, sid, r, k);
    var longer, after := AllEnter(ecdsa, start, log, sid, r, s, k);
  }

  lemma {:induction false} ShortNamesFit()
    ensures Fits("") && Fits("A")
  {
    assert UpToNul("A") == ['A'] + UpToNul("A"[1..]);
    assert "A"[1..] == "";
  }

  lemma {:induction false} NoneOfOther(n: U64, sid: string, other: string)
    requires Fits(sid) && other != sid
    ensures |ActiveFor(Phones(n, sid), other)| == 0
  {
    hide PhoneText, ActiveFor, TextBack;
    if n == 0 {
      NoPhones(other);
    } else {
      NoneOfOther(n - 1, sid, other);
      WriteAddsOne(Phones(n - 1, sid), PhoneText(n - 1), PhoneRecord(sid), other);
    }
  }

  /** Five active devices of `sid`, and a session opened for another account but confirmed under `sid`. */
  lemma {:induction false} SwitchExceeds(ecdsa: Ecdsa, sid: string, r: Regime)
    requires Fits(sid) && r.switching
    ensures DevicesReached(ecdsa, sid, r, 6)
  {
    hide Step, ActiveFor, PhoneText, Pending, PhoneRecord, Phones, CapRun, StateAfter, OpenedFor, Waiting, Written,
         Fits;
    var other := if sid == "" then "A" else "";
    ShortNamesFit();
    PhonesCount(5, sid);
    NoneOfOther(5, sid, other);
    var start := Start(ecdsa, Phones(5, sid), sid, r);
    var log1, s1 := AskRun(ecdsa, start, [], sid, r, start, 1, 5, other);
    var log2, s2 := EnterRun(ecdsa, start, log1, sid, r, s1, 1, 5);
  }

  /** With an empty account name the request does not test the limit at all. */
  lemma {:induction false} UnnamedExceeds(ecdsa: Ecdsa, r: Regime)
    requires r.waiting >= 1
    ensures DevicesReached(ecdsa, "", r, 6)
  {
    hide Step, ActiveFor, PhoneText, Pending, PhoneRecord, Phones, CapRun, StateAfter, OpenedFor, Waiting, Written,
         Fits;
    ShortNamesFit();
    PhonesCount(5, "");
    var start := Start(ecdsa, Phones(5, ""), "", r);
    var log1, s1 := AskRun(ecdsa, start, [], "", r, start, 1, 5, "");
    var log2, s2 := EnterRun(ecdsa, start, log1, "", r, s1, 1, 5);
  }

  function Revoked(sid: string): DeviceRecord { PhoneRecord(sid).(status := STATUS_REVOKED) }

  /** Only one record differs: the account gains that device or it does not. */
  lemma {:induction false} SameActive(store: Store, other: Store, id: string, sid: string)
    requires id !in store && id in other && forall x :: x != id ==> Lookup(other, x) == Lookup(store, x)
    ensures |ActiveFor(other, sid)| == |ActiveFor(store, sid)| + if IsActiveFor(other, id, sid) then 1 else 0
  {
    hide TextBack, KeyBack;
    forall x | x != id
      ensures x in ActiveFor(other, sid) <==> x in ActiveFor(store, sid)
    {
      assert Lookup(other, x) == Lookup(store, x);
    }
    assert ActiveFor(other, sid) == ActiveFor(store, sid) + if IsActiveFor(other, id, sid) then {id} else {};
  }

  lemma {:induction false} RevokedCounts(store: Store, n: U64, sid: string)
    requires PhoneText(n) !in store && Fits(sid)
    ensures var with := Written(store, PhoneText(n), Revoked(sid));
            && |ActiveFor(with, sid)| == |ActiveFor(store, sid)|
            && |ActiveFor(WithStatus(with, PhoneText(n), STATUS_ACTIVE), sid)| == |ActiveFor(store, sid)| + 1
  {
    hide PhoneText, TextBack;
    var id, with := PhoneText(n), Written(store, PhoneText(n), Revoked(sid));
    var again := WithStatus(with, id, STATUS_ACTIVE);
    SameActive(store, with, id, sid);
    SameActive(store, again, id, sid);
    assert id in again && IsActiveFor(again, id, sid);
  }

  lemma {:induction false} StatusStep(ecdsa: Ecdsa, s: State, n: U64)
    ensures Step(ecdsa, s, SetStatus(Phone(n), STATUS_ACTIVE)).0 ==
            s.(store := WithStatus(s.store, PhoneText(n), STATUS_ACTIVE))
  {
    hide DeviceIdToString;
  }

  /** Five active devices and a revoked one that a status change activates again. */
  lemma {:induction false} ReactivationExceeds(ecdsa: Ecdsa, sid: string, r: Regime)
    requires Fits(sid) && r.reactivating
    ensures DevicesReached(ecdsa, sid, r, 6)
  {
    hide ActiveFor, PhoneText, Revoked, Phones, CapRun, StateAfter, OpenedFor, Waiting, Written, Fits, WithStatus;
    PhonesCount(5, sid);
    RevokedCounts(Phones(5, sid), 5, sid);
    var store := Written(Phones(5, sid), PhoneText(5), Revoked(sid));
    var start := Start(ecdsa, store, sid, r);
    var e := SetStatus(Phone(5), STATUS_ACTIVE);
    var after := start.(store := WithStatus(store, PhoneText(5), STATUS_ACTIVE));
    StatusStep(ecdsa, start, 5);
    NoneWaiting(Extend(ecdsa, start, [], e), after.pairing, sid);
    ExtendRun(ecdsa, start, [], sid, r, start, e, after);
  }

  /** Every run of the regime keeps the documented limit of five for this account. */
  ghost predicate LimitHolds(ecdsa: Ecdsa, sid: string, r: Regime) {
    forall start, log :: CapRun(ecdsa, start, log, sid, r) ==>
      |ActiveFor(StateAfter(ecdsa, start, log).store, sid)| <= MAX_DEVICES_PER_ACCOUNT
  }

  /**
    The documented limit is kept exactly when no confirmation switches accounts, no status change
    activates a device, and sessions of the account wait one at a time and its name is resolved,
    or none waits at all.
    */
  lemma {:induction false} LimitHoldsExactly(ecdsa: Ecdsa, sid: string, r: Regime)
    requires Fits(sid)
    ensures LimitHolds(ecdsa, sid, r) <==>
            !r.switching && !r.reactivating && (r.waiting == 0 || (r.waiting == 1 && sid != ""))
  {
    hide CapRun, StateAfter, ActiveFor, Waiting, Fits;
    if !r.switching && !r.reactivating && (r.waiting == 0 || (r.waiting == 1 && sid != "")) {
      forall start, log | CapRun(ecdsa, start, log, sid, r)
        ensures |ActiveFor(StateAfter(ecdsa, start, log).store, sid)| <= MAX_DEVICES_PER_ACCOUNT
      {
        CapBound(ecdsa, start, log, sid, r);
      }
    } else if r.switching {
      SwitchExceeds(ecdsa, sid, r);
    } else if r.reactivating {
      ReactivationExceeds(ecdsa, sid, r);
    } else if r.waiting >= 2 {
      CapReached(ecdsa, sid, r, 2);
    } else {
      UnnamedExceeds(ecdsa, r);
    }
  }
}
