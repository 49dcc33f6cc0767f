/**
  The per-address connection limiter: fixed windows of a minute with five attempts each, and a
  block of fifteen minutes for the sixth. Ticks are 32-bit and subtraction wraps.
  */
module ConnectionLimiter {
  import opened Bytes

  const WINDOW_MS := 60_000
  const BLOCK_MS := 900_000
  const MAX_ATTEMPTS := 5
  const TICKS := 0x1_0000_0000

  type Tick = U32

  datatype Entry = Entry(first: Tick, count: nat, blockedUntil: Tick)

  type Table = map<string, Entry>

  function Decide(t: Table, ip: string, now: Tick): (Table, bool) {
    if ip !in t then (t[ip := Entry(now, 1, 0)], true)
    else
      var e := t[ip];
      if e.blockedUntil > now then (t, false)
      else if (now - e.first) % TICKS > WINDOW_MS then (t[ip := Entry(now, 1, 0)], true)
      else if e.count + 1 > MAX_ATTEMPTS then
        (t[ip := e.(count := e.count + 1, blockedUntil := (now + BLOCK_MS) % TICKS)], false)
      else (t[ip := e.(count := e.count + 1)], true)
  }

  class Limiter {
    var rateLimits: Table

    constructor ()
      ensures rateLimits == map[]
    {
      rateLimits := map[];
    }

    method CheckRateLimit(ip: string, now: Tick) returns (allowed: bool)
      modifies this
      ensures (rateLimits, allowed) == Decide(old(rateLimits), ip, now)
    {
      if ip !in rateLimits {
        var entry := Entry(now, 1, 0);
        rateLimits := rateLimits[ip := entry];
        return true;
      }
      var entry := rateLimits[ip];
      if entry.blockedUntil > now {
        return false;
      }
      if (now - entry.first) % TICKS > WINDOW_MS {
        entry := entry.(first := now);
        entry := entry.(count := 1);
        entry := entry.(blockedUntil := 0);
        rateLimits := rateLimits[ip := entry];
        return true;
      }
      entry := entry.(count := entry.count + 1);
      rateLimits := rateLimits[ip := entry];
      if entry.count > MAX_ATTEMPTS {
        entry := entry.(blockedUntil := (now + BLOCK_MS) % TICKS);
        rateLimits := rateLimits[ip := entry];
        assert rateLimits == old(rateLimits)[ip := entry];
        return false;
      }
      return true;
    }
  }

  // ---------------------------------------------------------------------------
  // Runs
  // ---------------------------------------------------------------------------

  datatype Attempt = Attempt(ip: string, now: Tick, admitted: bool)

  function TableAfter(log: seq<Attempt>): Table {
    if log == [] then map[]
    else Decide(TableAfter(log[..|log| - 1]), log[|log| - 1].ip, log[|log| - 1].now).0
  }

  /** The answers in the log are the ones the limiter gives. */
  predicate Legal(log: seq<Attempt>) {
    log == [] ||
    var a := log[|log| - 1];
    Legal(log[..|log| - 1]) && a.admitted == Decide(TableAfter(log[..|log| - 1]), a.ip, a.now).1
  }

  /** A non-decreasing tick counter, far enough from its wrap for a block to fit. */
  predicate Timely(log: seq<Attempt>) {
    && (forall i :: 0 <= i < |log| ==> log[i].now < TICKS - BLOCK_MS)
    && (forall i, j :: 0 <= i < j < |log| ==> log[i].now <= log[j].now)
  }

  /** Connections from `ip` admitted in the closed interval. */
  function Admitted(log: seq<Attempt>, ip: string, lo: int, hi: int): nat {
    if log == [] then 0
    else
      var a := log[|log| - 1];
      Admitted(log[..|log| - 1], ip, lo, hi) + if a.ip == ip && a.admitted && lo <= a.now <= hi then 1 else 0
  }

  predicate EntryInvariant(e: Entry, last: int) {
    && e.first <= last
    && 1 <= e.count <= MAX_ATTEMPTS + 1
    && (e.count <= MAX_ATTEMPTS ==> e.blockedUntil == 0)
    && (e.count == MAX_ATTEMPTS + 1 ==>
          e.first + BLOCK_MS <= e.blockedUntil <= e.first + WINDOW_MS + BLOCK_MS && e.blockedUntil <= last + BLOCK_MS)
  }

  lemma {:induction false} DecideKeepsInvariant(t: Table, ip: string, now: Tick, last: int)
    requires last <= now < TICKS - BLOCK_MS
    requires ip in t ==> EntryInvariant(t[ip], last)
    ensures var t' := Decide(t, ip, now).0; ip in t' && EntryInvariant(t'[ip], now)
    ensures forall other :: other != ip ==> (other in t <==> other in Decide(t, ip, now).0)
    ensures forall other :: other != ip && other in t ==> Decide(t, ip, now).0[other] == t[other]
  {
  }

  /** The attempt count never exceeds six, and six means blocked. */
  lemma {:induction false} CountsStayBounded(log: seq<Attempt>, ip: string)
    requires Timely(log)
    ensures ip in TableAfter(log) ==> log != [] && EntryInvariant(TableAfter(log)[ip], log[|log| - 1].now)
  {
    if log != [] {
      var front, a := log[..|log| - 1], log[|log| - 1];
      CountsStayBounded(front, ip);
      CountsStayBounded(front, a.ip);
      var last := if front == [] then a.now else front[|front| - 1].now;
      DecideKeepsInvariant(TableAfter(front), a.ip, a.now, last);
    }
  }

  lemma {:induction false} EntrySeenLater(log: seq<Attempt>, ip: string, now: Tick)
    requires Timely(log) && (log != [] ==> log[|log| - 1].now <= now < TICKS - BLOCK_MS)
    ensures ip in TableAfter(log) ==> EntryInvariant(TableAfter(log)[ip], now)
  {
    hide TableAfter;
    CountsStayBounded(log, ip);
  }

  function Used(e: Entry): nat { if e.count < MAX_ATTEMPTS then e.count else MAX_ATTEMPTS }

  lemma {:induction false} AdmittedNoneBeyond(log: seq<Attempt>, ip: string, lo: int, hi: int)
    requires forall i :: 0 <= i < |log| ==> log[i].now < lo
    ensures Admitted(log, ip, lo, hi) == 0
  {
    if log != [] {
      AdmittedNoneBeyond(log[..|log| - 1], ip, lo, hi);
    }
  }

  /** A window only starts later than everything admitted in the one before. */
  lemma {:induction false} NewWindowIsEmpty(log: seq<Attempt>, ip: string, now: int, hi: int)
    requires Timely(log) && Legal(log)
    requires ip in TableAfter(log) ==> TableAfter(log)[ip].first + WINDOW_MS < now
    ensures Admitted(log, ip, now, hi) == 0
  {
    if log != [] {
      var front, a := log[..|log| - 1], log[|log| - 1];
      CountsStayBounded(front, ip);
      NewWindowIsEmpty(front, ip, now, hi);
    }
  }

  /** Exactly the first five attempts of the current fixed window were admitted. */
  lemma {:induction false} WindowAdmitsFive(log: seq<Attempt>, ip: string, hi: int)
    requires Timely(log) && Legal(log) && ip in TableAfter(log)
    requires log[|log| - 1].now <= hi
    ensures Admitted(log, ip, TableAfter(log)[ip].first, hi) == Used(TableAfter(log)[ip]) <= MAX_ATTEMPTS
  {
    var front, a := log[..|log| - 1], log[|log| - 1];
    CountsStayBounded(front, ip);
    if ip in TableAfter(front) && TableAfter(front)[ip].first == TableAfter(log)[ip].first {
      WindowAdmitsFive(front, ip, hi);
    } else {
      NewWindowIsEmpty(front, ip, a.now, hi);
    }
  }

  lemma {:induction false} LegalPrefix(log: seq<Attempt>, n: nat)
    requires Legal(log) && n <= |log|
    ensures Legal(log[..n])
    decreases |log|
  {
    if n == |log| {
      assert log[..n] == log;
    } else {
      LegalPrefix(log[..|log| - 1], n);
      assert log[..|log| - 1][..n] == log[..n];
    }
  }

  lemma {:induction false} TimelyPrefix(log: seq<Attempt>, n: nat)
    requires Timely(log) && n <= |log|
    ensures Timely(log[..n])
  {
  }

  // ---------------------------------------------------------------------------
  // Any closed minute
  // ---------------------------------------------------------------------------

  /** At `lo` the fixed window of this address still runs and has places left. */
  predicate WindowOpen(t: Table, ip: string, lo: int) {
    ip in t && lo - t[ip].first <= WINDOW_MS && t[ip].count < MAX_ATTEMPTS
  }

  function Spare(t: Table, ip: string, lo: int): nat {
    if WindowOpen(t, ip, lo) then MAX_ATTEMPTS - t[ip].count else 0
  }

  /** `log[..n]` came before `lo`, the rest at `lo` or later. */
  predicate CutAt(log: seq<Attempt>, n: nat, lo: int) {
    && n <= |log|
    && (forall i :: 0 <= i < n ==> log[i].now < lo)
    && (forall i :: n <= i < |log| ==> lo <= log[i].now)
  }

  /** `n` admissions from `lo` on leave the table `t0` at `t`, while no minute has passed. */
  predicate Accounted(t0: Table, t: Table, ip: string, lo: int, n: nat) {
    if ip !in t then ip !in t0 && n == 0
    else if t[ip].first >= lo then n <= Spare(t0, ip, lo) + Used(t[ip])
    else ip in t0 && t0[ip].first == t[ip].first && n <= Used(t[ip]) - Used(t0[ip]) <= Spare(t0, ip, lo)
  }

  lemma {:induction false} DecideAccounted(t0: Table, t: Table, ip: string, other: string, now: Tick, lo: int, n: nat)
    requires lo <= now <= lo + WINDOW_MS && now < TICKS - BLOCK_MS
    requires ip in t0 ==> t0[ip].count >= 1 && t0[ip].first < lo
    requires ip in t ==> EntryInvariant(t[ip], now)
    requires Accounted(t0, t, ip, lo, n)
    ensures var (t', admitted) := Decide(t, other, now);
            Accounted(t0, t', ip, lo, n + if other == ip && admitted then 1 else 0)
  {
  }

  lemma {:induction false} CutAccounted(t: Table, ip: string, lo: int)
    requires ip in t ==> t[ip].first < lo
    ensures Accounted(t, t, ip, lo, 0)
  {
  }

  lemma {:induction false} EntryAtCut(log: seq<Attempt>, n: nat, ip: string, lo: int)
    requires Timely(log) && CutAt(log, n, lo)
    ensures var t := TableAfter(log[..n]); ip in t ==> t[ip].count >= 1 && t[ip].first < lo
  {
    hide TableAfter;
    CountsStayBounded(log[..n], ip);
  }

  /** What was open at `lo` is filled up, then a new window admits five: no other window fits in. */
  lemma {:induction false} MinuteAccounted(log: seq<Attempt>, n: nat, ip: string, lo: int)
    requires Timely(log) && Legal(log) && CutAt(log, n, lo)
    requires log != [] ==> log[|log| - 1].now <= lo + WINDOW_MS
    ensures Accounted(TableAfter(log[..n]), TableAfter(log), ip, lo, Admitted(log, ip, lo, lo + WINDOW_MS))
  {
    hide Decide, Accounted, EntryInvariant;
    EntryAtCut(log, n, ip, lo);
    if n == |log| {
      assert log[..n] == log;
      AdmittedNoneBeyond(log, ip, lo, lo + WINDOW_MS);
      CutAccounted(TableAfter(log), ip, lo);
    } else {
      var front, a := log[..|log| - 1], log[|log| - 1];
      assert front[..n] == log[..n];
      MinuteAccounted(front, n, ip, lo);
      EntrySeenLater(front, ip, a.now);
      DecideAccounted(TableAfter(log[..n]), TableAfter(front), ip, a.ip, a.now, lo,
                      Admitted(front, ip, lo, lo + WINDOW_MS));
    }
  }

  /** A closed minute admits five connections and as many more as the open window has places. */
  lemma {:induction false} MinuteBound(log: seq<Attempt>, n: nat, ip: string, lo: int)
    requires Timely(log) && Legal(log) && CutAt(log, n, lo)
    ensures Admitted(log, ip, lo, lo + WINDOW_MS) <= MAX_ATTEMPTS + Spare(TableAfter(log[..n]), ip, lo)
  {
    hide TableAfter, Decide;
    if n < |log| && log[|log| - 1].now > lo + WINDOW_MS {
      var front := log[..|log| - 1];
      assert front[..n] == log[..n];
      MinuteBound(front, n, ip, lo);
    } else {
      MinuteAccounted(log, n, ip, lo);
    }
  }

  lemma {:induction false} CutExists(log: seq<Attempt>, lo: int) returns (n: nat)
    requires Timely(log)
    ensures CutAt(log, n, lo)
  {
    n := 0;
    while n < |log| && log[n].now < lo
      invariant n <= |log| && forall i :: 0 <= i < n ==> log[i].now < lo
    {
      n := n + 1;
    }
  }

  /** Any closed interval of one minute admits at most nine connections from one address. */
  lemma {:induction false} SlidingWindow(log: seq<Attempt>, ip: string, lo: int)
    requires Timely(log) && Legal(log)
    ensures Admitted(log, ip, lo, lo + WINDOW_MS) <= 2 * MAX_ATTEMPTS - 1
  {
    hide Legal;
    var n := CutExists(log, lo);
    MinuteBound(log, n, ip, lo);
    LegalPrefix(log, n);
    CountsStayBounded(log[..n], ip);
  }

  // ---------------------------------------------------------------------------
  // When five a minute does hold
  // ---------------------------------------------------------------------------

  /** The open window filled up at `lo`, then five attempts as soon as the next one can start. */
  function BurstTime(e: Entry, lo: Tick, i: nat): int {
    if i < MAX_ATTEMPTS - e.count then lo else e.first + WINDOW_MS + 1
  }

  function Burst(ip: string, e: Entry, lo: Tick, n: nat): seq<Attempt>
    requires lo < TICKS - BLOCK_MS - WINDOW_MS && e.first <= lo
  {
    seq(n, i requires 0 <= i => Attempt(ip, BurstTime(e, lo, i), true))
  }

  /** The entry after `n` attempts of the burst. */
  function BurstEntry(e: Entry, n: nat): Entry
    requires e.first + WINDOW_MS + 1 < TICKS
  {
    if n <= MAX_ATTEMPTS - e.count then Entry(e.first, e.count + n, 0)
    else Entry(e.first + WINDOW_MS + 1, n - (MAX_ATTEMPTS - e.count), 0)
  }

  lemma {:induction false} BurstStep(t: Table, ip: string, e: Entry, lo: Tick, n: nat)
    requires 1 <= e.count < MAX_ATTEMPTS && e.first < lo <= e.first + WINDOW_MS && lo < TICKS - BLOCK_MS - WINDOW_MS
    requires n < 2 * MAX_ATTEMPTS - e.count && ip in t && t[ip] == BurstEntry(e, n)
    ensures Decide(t, ip, BurstTime(e, lo, n)) == (t[ip := BurstEntry(e, n + 1)], true)
  {
  }

  /** A log extended by one attempt and the answer to it. */
  lemma {:induction false} Extended(log: seq<Attempt>, a: Attempt, ip: string, lo: int, hi: int)
    requires Legal(log) && Timely(log) && a.now < TICKS - BLOCK_MS
    requires log != [] ==> log[|log| - 1].now <= a.now
    requires a.admitted == Decide(TableAfter(log), a.ip, a.now).1
    ensures Legal(log + [a]) && Timely(log + [a])
    ensures TableAfter(log + [a]) == Decide(TableAfter(log), a.ip, a.now).0
    ensures Admitted(log + [a], ip, lo, hi) ==
            Admitted(log, ip, lo, hi) + if a.ip == ip && a.admitted && lo <= a.now <= hi then 1 else 0
  {
    hide Decide;
    assert (log + [a])[..|log|] == log;
  }

  /** What `n` attempts of the burst lead to. */
  ghost predicate BurstReaches(log: seq<Attempt>, ip: string, e: Entry, lo: Tick, n: nat)
    requires lo < TICKS - BLOCK_MS - WINDOW_MS && e.first <= lo
  {
    var all := log + Burst(ip, e, lo, n);
    && Legal(all) && Timely(all)
    && ip in TableAfter(all) && TableAfter(all)[ip] == BurstEntry(e, n)
    && Admitted(all, ip, lo, lo + WINDOW_MS) == n
  }

  lemma {:induction false} BurstRuns(log: seq<Attempt>, ip: string, e: Entry, lo: Tick, n: nat)
    requires Legal(log) && Timely(log) && (forall i :: 0 <= i < |log| ==> log[i].now < lo)
    requires ip in TableAfter(log) && TableAfter(log)[ip] == e && e.blockedUntil == 0
    requires 1 <= e.count < MAX_ATTEMPTS && e.first < lo <= e.first + WINDOW_MS && lo < TICKS - BLOCK_MS - WINDOW_MS
    requires n <= 2 * MAX_ATTEMPTS - e.count
    ensures BurstReaches(log, ip, e, lo, n)
  {
    hide Decide, Legal, TableAfter, Admitted, Timely;
    if n == 0 {
      assert log + Burst(ip, e, lo, n) == log;
      AdmittedNoneBeyond(log, ip, lo, lo + WINDOW_MS);
    } else {
      BurstRuns(log, ip, e, lo, n - 1);
      var before, a := log + Burst(ip, e, lo, n - 1), Attempt(ip, BurstTime(e, lo, n - 1), true);
      assert log + Burst(ip, e, lo, n) == before + [a];
      BurstStep(TableAfter(before), ip, e, lo, n - 1);
      Extended(before, a, ip, lo, lo + WINDOW_MS);
    }
  }

  /** After `log`, whatever comes at `lo` or later, a minute from `lo` admits at most five. */
  ghost predicate FiveHolds(log: seq<Attempt>, ip: string, lo: int) {
    forall more: seq<Attempt> :: Legal(log + more) && Timely(log + more) && CutAt(log + more, |log|, lo) ==>
      Admitted(log + more, ip, lo, lo + WINDOW_MS) <= MAX_ATTEMPTS
  }

  /**
    The documented five a minute holds from `lo` on exactly when no window with places left is
    open at `lo`: the address is unknown, its window is over, or its five attempts are used up.
    */
  lemma {:induction false} FiveHoldsExactly(log: seq<Attempt>, ip: string, lo: Tick)
    requires Legal(log) && Timely(log) && (forall i :: 0 <= i < |log| ==> log[i].now < lo)
    requires lo < TICKS - BLOCK_MS - WINDOW_MS
    ensures FiveHolds(log, ip, lo) <==> !WindowOpen(TableAfter(log), ip, lo)
  {
    hide Legal, TableAfter, Admitted, Timely;
    if WindowOpen(TableAfter(log), ip, lo) {
      CountsStayBounded(log, ip);
      var e := TableAfter(log)[ip];
      var n := 2 * MAX_ATTEMPTS - e.count;
      assert log != [] && EntryInvariant(e, log[|log| - 1].now);
      BurstRuns(log, ip, e, lo, n);
      assert CutAt(log + Burst(ip, e, lo, n), |log|, lo);
      assert !FiveHolds(log, ip, lo);
    } else {
      forall more: seq<Attempt> | Legal(log + more) && Timely(log + more) && CutAt(log + more, |log|, lo)
        ensures Admitted(log + more, ip, lo, lo + WINDOW_MS) <= MAX_ATTEMPTS
      {
        MinuteBound(log + more, |log|, ip, lo);
        assert (log + more)[..|log|] == log;
      }
    }
  }

  /** Nine is reached, one attempt after another, so the sliding bound cannot be lowered. */
  lemma {:induction false} NineIsReached(ip: string)
    ensures exists log :: Timely(log) && Legal(log) && Admitted(log, ip, 1, 1 + WINDOW_MS) == 2 * MAX_ATTEMPTS - 1
  {
    var first := [Attempt(ip, 0, true)];
    assert first[..0] == [];
    BurstRuns(first, ip, Entry(0, 1, 0), 1, 2 * MAX_ATTEMPTS - 1);
  }

  // ---------------------------------------------------------------------------
  // Blocks
  // ---------------------------------------------------------------------------

  /** Attempt `i` was refused by an entry that was not blocked before it: it sets the block. */
  predicate SetsBlock(log: seq<Attempt>, i: nat)
    requires i < |log|
  {
    var t := TableAfter(log[..i]);
    !log[i].admitted && log[i].ip in t && t[log[i].ip].blockedUntil <= log[i].now
  }

  lemma {:induction false} BlockKeeps(t: Table, ip: string, other: string, now: Tick, until: Tick)
    requires ip in t && t[ip].blockedUntil == until && now < until
    ensures var (t', admitted) := Decide(t, other, now);
            ip in t' && t'[ip].blockedUntil == until && (other == ip ==> !admitted)
  {
  }

  lemma {:induction false} BlockPersists(log: seq<Attempt>, i: nat)
    requires Timely(log) && Legal(log) && i < |log| && SetsBlock(log, i)
    requires log[|log| - 1].now < log[i].now + BLOCK_MS
    ensures log[i].ip in TableAfter(log) && TableAfter(log)[log[i].ip].blockedUntil == log[i].now + BLOCK_MS
    ensures log[|log| - 1].ip == log[i].ip ==> !log[|log| - 1].admitted
  {
    var front, a := log[..|log| - 1], log[|log| - 1];
    if i == |log| - 1 {
      assert log[..i] == front;
    } else {
      assert front[..i] == log[..i] && front[i] == log[i];
      BlockPersists(front, i);
      BlockKeeps(TableAfter(front), log[i].ip, a.ip, a.now, log[i].now + BLOCK_MS);
    }
  }

  lemma {:induction false} SetsBlockStable(log: seq<Attempt>, n: nat, i: nat)
    requires i < n <= |log|
    ensures SetsBlock(log, i) <==> SetsBlock(log[..n], i)
  {
    hide TableAfter;
    assert log[..n][..i] == log[..i];
  }

  /** After a block set at time b, nothing from that address is admitted before b + 900000. */
  lemma {:induction false} BlockedMeansRefused(log: seq<Attempt>, i: nat, j: nat)
    requires Timely(log) && Legal(log) && i < j < |log|
    requires SetsBlock(log, i) && log[j].ip == log[i].ip && log[j].now < log[i].now + BLOCK_MS
    ensures !log[j].admitted
  {
    hide Legal, TableAfter, Timely, SetsBlock;
    LegalPrefix(log, j + 1);
    TimelyPrefix(log, j + 1);
    SetsBlockStable(log, j + 1, i);
    BlockPersists(log[..j + 1], i);
  }

  lemma {:induction false} BlockAppears(t: Table, ip: string, other: string, now: Tick)
    requires now < TICKS - BLOCK_MS
    ensures var (t', admitted) := Decide(t, other, now);
            ip in t' && t'[ip].blockedUntil > 0 && !(ip in t && t[ip].blockedUntil == t'[ip].blockedUntil) ==>
              !admitted && other == ip && ip in t && t[ip].blockedUntil <= now && t'[ip].blockedUntil == now + BLOCK_MS
  {
  }

  /** Every block in force was set by some attempt of the same address, fifteen minutes before its end. */
  lemma {:induction false} BlocksHaveCauses(log: seq<Attempt>, ip: string)
    requires Timely(log) && Legal(log)
    requires ip in TableAfter(log) && TableAfter(log)[ip].blockedUntil > 0
    ensures exists i ::
            0 <= i < |log| && log[i].ip == ip && SetsBlock(log, i) &&
              log[i].now + BLOCK_MS == TableAfter(log)[ip].blockedUntil
  {
    hide Decide;
    var n := |log| - 1;
    var front, a := log[..n], log[n];
    BlockAppears(TableAfter(front), ip, a.ip, a.now);
    if ip in TableAfter(front) && TableAfter(front)[ip].blockedUntil == TableAfter(log)[ip].blockedUntil {
      BlocksHaveCauses(front, ip);
      var i :| 0 <= i < |front| && front[i].ip == ip && SetsBlock(front, i) &&
        front[i].now + BLOCK_MS == TableAfter(front)[ip].blockedUntil;
      SetsBlockStable(log, n, i);
    } else {
      assert SetsBlock(log, n);
    }
  }

  // ---------------------------------------------------------------------------
  // Every answer, from the log
  // ---------------------------------------------------------------------------

  /** What the answers to an address tell: its last window, admissions in it, and its last block. */
  datatype History = History(start: Option<int>, since: nat, block: Option<int>)

  function AfterAnswer(h: History, now: int, admitted: bool): History {
    if admitted then
      if h.start.None? || now - h.start.value > 60_000 then h.(start := Some(now), since := 1)
      else h.(since := h.since + 1)
    else if h.block.Some? && now < h.block.value + 900_000 then h
    else h.(block := Some(now))
  }

  function HistoryOf(log: seq<Attempt>, ip: string): History {
    if log == [] then History(None, 0, None)
    else
      var a, h := log[|log| - 1], HistoryOf(log[..|log| - 1], ip);
      if a.ip == ip then AfterAnswer(h, a.now, a.admitted) else h
  }

  /** A block of the last fifteen minutes, or five admissions in a window of the last minute. */
  predicate RefusedBy(h: History, now: int) {
    || (h.block.Some? && now < h.block.value + 900_000)
    || (h.start.Some? && now - h.start.value <= 60_000 && h.since >= 5)
  }

  predicate TableTells(t: Table, ip: string, h: History) {
    if ip !in t then h == History(None, 0, None)
    else
      var e := t[ip];
      && h.start == Some(e.first) && h.since == Used(e)
      && (if e.count <= MAX_ATTEMPTS then h.block.None? || h.block.value + BLOCK_MS <= e.first
          else h.block.Some? && e.blockedUntil == h.block.value + BLOCK_MS)
  }

  lemma {:induction false} DecideTells(t: Table, ip: string, other: string, now: Tick, h: History)
    requires now < TICKS - BLOCK_MS && (ip in t ==> EntryInvariant(t[ip], now)) && TableTells(t, ip, h)
    ensures var (t', admitted) := Decide(t, other, now);
            TableTells(t', ip, if other == ip then AfterAnswer(h, now, admitted) else h)
    ensures Decide(t, ip, now).1 <==> !RefusedBy(h, now)
  {
  }

  lemma {:induction false} UnknownTells(ip: string)
    ensures TableTells(map[], ip, History(None, 0, None))
  {
  }

  lemma {:induction false} HistoryTells(log: seq<Attempt>, ip: string)
    requires Timely(log) && Legal(log)
    ensures TableTells(TableAfter(log), ip, HistoryOf(log, ip))
  {
    hide Decide, TableTells, EntryInvariant;
    if log == [] {
      UnknownTells(ip);
    } else {
      var front, a := log[..|log| - 1], log[|log| - 1];
      HistoryTells(front, ip);
      EntrySeenLater(front, ip, a.now);
      DecideTells(TableAfter(front), ip, a.ip, a.now, HistoryOf(front, ip));
    }
  }

  /**
    After any timely run an attempt is refused exactly if a block was set less than fifteen minutes
    ago, or the window of its address is at most a minute old and has admitted five.
    */
  lemma {:induction false} AdmittedExactly(log: seq<Attempt>, ip: string, now: Tick)
    requires Timely(log) && Legal(log) && now < TICKS - BLOCK_MS && (log != [] ==> log[|log| - 1].now <= now)
    ensures Decide(TableAfter(log), ip, now).1 <==> !RefusedBy(HistoryOf(log, ip), now)
  {
    hide Decide, TableTells, EntryInvariant;
    HistoryTells(log, ip);
    EntrySeenLater(log, ip, now);
    DecideTells(TableAfter(log), ip, ip, now, HistoryOf(log, ip));
  }
}
