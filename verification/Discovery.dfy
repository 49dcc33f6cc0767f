/**
  The discovery announcement: printed as JSON, read back by searching for the first occurrence of
  each quoted key. The proof views the text as a brace followed by runs that each start with a
  quote and contain no other: {"host":"H","port":P, ... splits into host  :  H  ,  port  :P, ...
  */
module Discovery {
  import opened Bytes
  import opened SasPins
  import opened Text
  import Protocol

  datatype Announcement = Announcement(host: string, port: U16, state: nat, service: string)

  const PC_STATES := 10

  /** Unsigned decimal, as operator<< prints it. */
  function Decimal(n: nat): (t: string)
    ensures |t| >= 1
    ensures forall i :: 0 <= i < |t| ==> IsDigit(t[i])
  {
    var last := ['0' + (n % 10) as char];
    if n < 10 then last else Decimal(n / 10) + last
  }

  function BuildPayload(a: Announcement): string {
    "{" + ("\"host\":\"" + a.host + "\"," +
           ("\"port\":" + Decimal(a.port) + "," + "\"state\":" + Decimal(a.state) + "," +
            ("\"service\":\"" + a.service + "\"}")))
  }

  // ---------------------------------------------------------------------------
  // The extractor
  // ---------------------------------------------------------------------------

  /** The text behind the first occurrence of `pattern`. */
  function After(s: string, pattern: string): Option<string> {
    if pattern <= s then Some(s[|pattern|..])
    else if s == "" then None
    else After(s[1..], pattern)
  }

  /** The text before the first character of `stops`, if there is one. */
  function Until(s: string, stops: set<char>): Option<string> {
    if s == "" then None
    else if s[0] in stops then Some("")
    else
      var t := Until(s[1..], stops);
      if t.None? then None else Some([s[0]] + t.value)
  }

  function ExtractString(s: string, key: string): string {
    var rest := After(s, "\"" + key + "\":\"");
    if rest.None? then ""
    else
      var v := Until(rest.value, {'\"'});
      if v.None? then "" else v.value
  }

  function DigitRun(t: string): (d: string)
    ensures forall i :: 0 <= i < |d| ==> IsDigit(d[i])
  {
    if t != "" && IsDigit(t[0]) then [t[0]] + DigitRun(t[1..]) else ""
  }

  /** std::stoi, with -1 where it throws. */
  function Stoi(t: string): int {
    var u := SkipSpace(t);
    var negative := u != "" && u[0] == '-';
    var digits := DigitRun(if u != "" && u[0] in {'-', '+'} then u[1..] else u);
    if digits == "" then -1
    else
      var v := if negative then 0 - DecimalValue(digits) else DecimalValue(digits) as int;
      if -0x8000_0000 <= v <= 0x7FFF_FFFF then v else -1
  }

  function ExtractInt(s: string, key: string): int {
    var rest := After(s, "\"" + key + "\":");
    if rest.None? then -1
    else
      var v := Until(rest.value, {',', '}'});
      if v.None? then -1 else Stoi(v.value)
  }

  function ParsePayload(data: string): Option<Announcement> {
    if data == "" || |data| > Protocol.MAX_PAYLOAD_SIZE then None
    else
      var host, service := ExtractString(data, "host"), ExtractString(data, "service");
      var port, state := ExtractInt(data, "port"), ExtractInt(data, "state");
      if host == "" || port <= 0 || port > 65535 || service == "" || state < 0 then None
      else Some(Announcement(host, port, state, service))
  }

  // ---------------------------------------------------------------------------
  // Runs between quotes
  // ---------------------------------------------------------------------------

  predicate QuoteFree(t: string) { '\"' !in t }

  predicate AllQuoteFree(runs: seq<string>) { forall i :: 0 <= i < |runs| ==> QuoteFree(runs[i]) }

  function Quoted(runs: seq<string>): string {
    if runs == [] then "" else "\"" + (runs[0] + Quoted(runs[1..]))
  }

  function KeyPattern(key: string): string { "\"" + key + "\":" }

  /** Run 0 is the key and run 1 starts with a colon. */
  predicate KeyHere(runs: seq<string>, key: string) {
    |runs| >= 2 && runs[0] == key && runs[1] != "" && runs[1][0] == ':'
  }

  lemma {:induction false} SkipPlain(t: string, rest: string, pattern: string)
    requires QuoteFree(t) && pattern != "" && pattern[0] == '\"'
    ensures After(t + rest, pattern) == After(rest, pattern)
  {
    if t == "" {
      assert t + rest == rest;
    } else {
      assert (t + rest)[0] == t[0];
      assert (t + rest)[1..] == t[1..] + rest;
      SkipPlain(t[1..], rest, pattern);
    }
  }

  lemma {:induction false} KeyMatches(runs: seq<string>, key: string)
    requires KeyHere(runs, key)
    ensures KeyPattern(key) <= Quoted(runs)
    ensures Quoted(runs)[|KeyPattern(key)|..] == runs[1][1..] + Quoted(runs[2..])
  {
    assert runs[1..][1..] == runs[2..];
    assert runs[1..][0] == runs[1];
    assert runs[1] == ":" + runs[1][1..];
    assert Quoted(runs) == "\"" + (key + ("\"" + (runs[1] + Quoted(runs[2..]))));
    assert Quoted(runs) == KeyPattern(key) + (runs[1][1..] + Quoted(runs[2..]));
  }

  lemma {:induction false} PrefixChar(p: string, s: string, i: nat)
    requires p <= s && i < |p|
    ensures i < |s| && p[i] == s[i]
  {
  }

  lemma {:induction false} QuoteBeyond(t: string, rest: string, n: nat)
    requires QuoteFree(t) && n < |t + rest| && (t + rest)[n] == '\"'
    ensures n >= |t|
  {
  }

  /** The first run, and the quote of the next one. */
  lemma {:induction false} RunInText(runs: seq<string>)
    requires runs != []
    ensures var s, m := Quoted(runs), |runs[0]|;
            && |s| == 1 + m + |Quoted(runs[1..])|
            && (forall i :: 0 <= i < m ==> s[1 + i] == runs[0][i])
            && (forall i :: 0 <= i < |Quoted(runs[1..])| ==> s[1 + m + i] == Quoted(runs[1..])[i])
            && (|s| > 1 + m ==> |runs| > 1 && s[1 + m] == '\"')
  {
    var rest := Quoted(runs[1..]);
    assert Quoted(runs) == "\"" + (runs[0] + rest);
    if |runs| > 1 {
      assert rest[0] == '\"';
    } else {
      assert rest == "";
    }
  }

  lemma {:induction false} NextRunOpens(runs: seq<string>)
    requires runs != [] && |Quoted(runs)| > 1 && Quoted(runs)[1] == ':'
    ensures runs[0] != "" && runs[0][0] == ':'
  {
    RunInText(runs);
  }

  lemma {:induction false} RunEndsAtQuote(runs: seq<string>, key: string)
    requires runs != [] && QuoteFree(runs[0]) && QuoteFree(key)
    requires |Quoted(runs)| > 2 + |key|
    requires forall i :: 0 <= i < |key| ==> Quoted(runs)[1 + i] == key[i]
    requires Quoted(runs)[1 + |key|] == '\"' && Quoted(runs)[2 + |key|] == ':'
    ensures KeyHere(runs, key)
  {
    var s, n, m := Quoted(runs), |key|, |runs[0]|;
    RunInText(runs);
    assert s[1..] == runs[0] + Quoted(runs[1..]);
    QuoteBeyond(runs[0], Quoted(runs[1..]), n);
    assert s[1..][..n] == key;
    assert s[1..] == key + s[1 + n..];
    QuoteBeyond(key, s[1 + n..], m);
    assert runs[0] == key;
    NextRunOpens(runs[1..]);
  }

  /** At a quote, only the key itself followed by a colon can match. */
  lemma {:induction false} MatchNeedsKey(runs: seq<string>, key: string, pattern: string)
    requires runs != [] && QuoteFree(runs[0]) && QuoteFree(key)
    requires KeyPattern(key) <= pattern && pattern <= Quoted(runs)
    ensures KeyHere(runs, key)
  {
    var s := Quoted(runs);
    var n := |key|;
    assert KeyPattern(key) <= s;
    forall i | 0 <= i < n
      ensures s[1 + i] == key[i]
    {
      PrefixChar(KeyPattern(key), s, 1 + i);
    }
    PrefixChar(KeyPattern(key), s, 1 + n);
    PrefixChar(KeyPattern(key), s, 2 + n);
    assert s[1 + n] == '\"' && s[2 + n] == ':';
    RunEndsAtQuote(runs, key);
  }

  /** Searching for a key skips every run that is not it. */
  lemma {:induction false} SkipRun(runs: seq<string>, key: string, pattern: string)
    requires runs != [] && QuoteFree(runs[0]) && QuoteFree(key) && KeyPattern(key) <= pattern
    requires !KeyHere(runs, key)
    ensures After(Quoted(runs), pattern) == After(Quoted(runs[1..]), pattern)
  {
    var s := Quoted(runs);
    if pattern <= s {
      MatchNeedsKey(runs, key, pattern);
    }
    assert s[1..] == runs[0] + Quoted(runs[1..]);
    SkipPlain(runs[0], Quoted(runs[1..]), pattern);
  }

  lemma {:induction false} SkipRuns(runs: seq<string>, n: nat, key: string, pattern: string)
    requires n <= |runs| && AllQuoteFree(runs) && QuoteFree(key) && KeyPattern(key) <= pattern
    requires forall i :: 0 <= i < n ==> !KeyHere(runs[i..], key)
    ensures After(Quoted(runs), pattern) == After(Quoted(runs[n..]), pattern)
  {
    if n > 0 {
      SkipRuns(runs, n - 1, key, pattern);
      assert !KeyHere(runs[n - 1..], key);
      SkipRun(runs[n - 1..], key, pattern);
      assert runs[n - 1..][1..] == runs[n..];
    } else {
      assert runs[0..] == runs;
    }
  }

  lemma {:induction false} UntilStop(t: string, c: char, rest: string, stops: set<char>)
    requires c in stops && forall i :: 0 <= i < |t| ==> t[i] !in stops
    ensures Until(t + ([c] + rest), stops) == Some(t)
  {
    var s := t + ([c] + rest);
    if t == "" {
      assert s[0] == c;
    } else {
      assert s[1..] == t[1..] + ([c] + rest);
      UntilStop(t[1..], c, rest, stops);
      assert t == [t[0]] + t[1..];
    }
  }

  lemma {:induction false} KeyMatchesAt(runs: seq<string>, n: nat, key: string)
    requires n + 1 < |runs| && runs[n] == key && runs[n + 1] != "" && runs[n + 1][0] == ':'
    ensures KeyPattern(key) <= Quoted(runs[n..])
    ensures Quoted(runs[n..])[|KeyPattern(key)|..] == runs[n + 1][1..] + Quoted(runs[n + 2..])
  {
    var tail := runs[n..];
    assert tail[0] == key && tail[1] == runs[n + 1] && tail[2..] == runs[n + 2..];
    KeyMatches(tail, key);
  }

  lemma {:induction false} DecimalDecodes(n: nat)
    ensures DecimalValue(Decimal(n)) == n
  {
    var t := Decimal(n);
    if n >= 10 {
      DecimalDecodes(n / 10);
      assert t[..|t| - 1] == Decimal(n / 10);
    } else {
      assert t[..0] == "";
    }
  }

  lemma {:induction false} AllDigits(t: string)
    requires forall i :: 0 <= i < |t| ==> IsDigit(t[i])
    ensures DigitRun(t) == t
  {
    if t != "" {
      AllDigits(t[1..]);
      assert t == [t[0]] + t[1..];
    }
  }

  lemma {:induction false} StoiReadsBack(v: nat)
    requires v <= 0x7FFF_FFFF
    ensures Stoi(Decimal(v)) == v
  {
    hide Decimal, DecimalValue, DigitRun;
    var t := Decimal(v);
    assert IsDigit(t[0]);
    assert SkipSpace(t) == t;
    AllDigits(t);
    DecimalDecodes(v);
  }

  /** The first occurrence of an integer key is found, and its digits are read. */
  lemma {:induction false} IntegerFound(runs: seq<string>, n: nat, key: string, v: nat)
    requires n + 1 < |runs| && AllQuoteFree(runs) && QuoteFree(key)
    requires forall i :: 0 <= i < n ==> !KeyHere(runs[i..], key)
    requires runs[n] == key && runs[n + 1] == ":" + Decimal(v) + "," && v <= 0x7FFF_FFFF
    ensures ExtractInt("{" + Quoted(runs), key) == v
  {
    hide Decimal, Quoted, Stoi, KeyHere, Until;
    var pattern := KeyPattern(key);
    var rest := Quoted(runs[n + 2..]);
    SkipPlain("{", Quoted(runs), pattern);
    SkipRuns(runs, n, key, pattern);
    KeyMatchesAt(runs, n, key);
    assert runs[n + 1][1..] == Decimal(v) + ",";
    assert runs[n + 1][1..] + rest == Decimal(v) + ([','] + rest);
    assert After(Quoted(runs[n..]), pattern) == Some(Decimal(v) + ([','] + rest));
    UntilStop(Decimal(v), ',', rest, {',', '}'});
    StoiReadsBack(v);
  }

  lemma {:induction false} QuotedTail(runs: seq<string>, n: nat)
    requires n < |runs|
    ensures Quoted(runs[n..]) == "\"" + (runs[n] + Quoted(runs[n + 1..]))
  {
    assert runs[n..][0] == runs[n] && runs[n..][1..] == runs[n + 1..];
  }

  lemma {:induction false} StringBehindKey(runs: seq<string>, n: nat, key: string, v: string, rest: string)
    requires n + 3 < |runs| && runs[n] == key && runs[n + 1] == ":" && runs[n + 2] == v
    requires rest == runs[n + 3] + Quoted(runs[n + 4..])
    ensures var pattern := KeyPattern(key) + "\"";
            pattern <= Quoted(runs[n..]) && Quoted(runs[n..])[|pattern|..] == v + (['\"'] + rest)
  {
    hide Quoted, KeyPattern;
    KeyMatchesAt(runs, n, key);
    QuotedTail(runs, n + 2);
    QuotedTail(runs, n + 3);
    assert ":"[1..] == "";
    var s, k := Quoted(runs[n..]), KeyPattern(key);
    assert s[|k|..] == "\"" + (v + (['\"'] + rest));
    assert s == k + s[|k|..];
    assert s == (k + "\"") + (v + (['\"'] + rest));
  }

  /** The first occurrence of a string key is found, and the text up to the next quote is read. */
  lemma {:induction false} StringFound(runs: seq<string>, n: nat, key: string, v: string)
    requires n + 3 < |runs| && AllQuoteFree(runs) && QuoteFree(key)
    requires forall i :: 0 <= i < n ==> !KeyHere(runs[i..], key)
    requires runs[n] == key && runs[n + 1] == ":" && runs[n + 2] == v
    ensures ExtractString("{" + Quoted(runs), key) == v
  {
    hide KeyHere, Until, Quoted;
    var pattern := KeyPattern(key) + "\"";
    assert pattern == "\"" + key + "\":\"";
    SkipPlain("{", Quoted(runs), pattern);
    SkipRuns(runs, n, key, pattern);
    var rest := runs[n + 3] + Quoted(runs[n + 4..]);
    StringBehindKey(runs, n, key, v, rest);
    assert After(Quoted(runs[n..]), pattern) == Some(v + (['\"'] + rest));
    assert QuoteFree(runs[n + 2]);
    UntilStop(v, '\"', rest, {'\"'});
  }

  // ---------------------------------------------------------------------------
  // Numbers
  // ---------------------------------------------------------------------------

  // ---------------------------------------------------------------------------
  // Round trip
  // ---------------------------------------------------------------------------

  function Runs(a: Announcement): seq<string> {
    ["host", ":", a.host, ",", "port", ":" + Decimal(a.port) + ",", "state", ":" + Decimal(a.state) + ",", "service",
     ":", a.service, "}"]
  }

  lemma {:induction false} DigitsAreQuoteFree(n: nat)
    ensures QuoteFree(":" + Decimal(n) + ",")
  {
    hide Decimal;
    var t := Decimal(n);
    forall i | 0 <= i < |t|
      ensures t[i] != '\"'
    {
      assert IsDigit(t[i]);
    }
  }

  lemma {:induction false} RunsAreQuoteFree(a: Announcement)
    requires QuoteFree(a.host) && QuoteFree(a.service)
    ensures AllQuoteFree(Runs(a))
  {
    hide Decimal;
    DigitsAreQuoteFree(a.port);
    DigitsAreQuoteFree(a.state);
  }

  lemma {:induction false} FourRuns(r: seq<string>, n: nat)
    requires n + 4 <= |r|
    ensures Quoted(r[n..]) == "\"" + r[n] + "\"" + r[n + 1] + "\"" + r[n + 2] + "\"" + r[n + 3] + Quoted(r[n + 4..])
  {
    QuotedTail(r, n);
    QuotedTail(r, n + 1);
    QuotedTail(r, n + 2);
    QuotedTail(r, n + 3);
  }

  lemma {:induction false} TwelveRuns(r: seq<string>)
    requires |r| == 12
    ensures Quoted(r) == "\"" + r[0] + "\"" + r[1] + "\"" + r[2] + "\"" + r[3] + Quoted(r[4..])
    ensures Quoted(r[4..]) == "\"" + r[4] + "\"" + r[5] + "\"" + r[6] + "\"" + r[7] + Quoted(r[8..])
    ensures Quoted(r[8..]) == "\"" + r[8] + "\"" + r[9] + "\"" + r[10] + "\"" + r[11]
  {
    FourRuns(r, 0);
    FourRuns(r, 4);
    FourRuns(r, 8);
    assert r[0..] == r && r[12..] == [];
  }

  lemma {:induction false} LastRuns(r: seq<string>, service: string)
    requires |r| == 12 && r[8] == "service" && r[9] == ":" && r[10] == service && r[11] == "}"
    ensures Quoted(r[8..]) == "\"service\":\"" + service + "\"}"
  {
    hide Quoted;
    TwelveRuns(r);
  }

  lemma {:induction false} MiddleRuns(r: seq<string>, p: string, q: string, tail: string)
    requires |r| == 12 && r[4] == "port" && r[5] == ":" + p + "," && r[6] == "state" && r[7] == ":" + q + "," &&
             Quoted(r[8..]) == tail
    ensures Quoted(r[4..]) == "\"port\":" + p + "," + "\"state\":" + q + "," + tail
  {
    hide Quoted;
    TwelveRuns(r);
  }

  lemma {:induction false} FirstRuns(r: seq<string>, host: string, tail: string)
    requires |r| == 12 && r[0] == "host" && r[1] == ":" && r[2] == host && r[3] == "," && Quoted(r[4..]) == tail
    ensures Quoted(r) == "\"host\":\"" + host + "\"," + tail
  {
    hide Quoted;
    TwelveRuns(r);
  }

  lemma {:induction false} PayloadIsRuns(a: Announcement)
    ensures BuildPayload(a) == "{" + Quoted(Runs(a))
  {
    hide Decimal, Quoted;
    var r := Runs(a);
    LastRuns(r, a.service);
    MiddleRuns(r, Decimal(a.port), Decimal(a.state), Quoted(r[8..]));
    FirstRuns(r, a.host, Quoted(r[4..]));
  }

  lemma {:induction false} NoKeyAt(r: seq<string>, i: nat, key: string)
    requires i + 1 < |r| && (r[i] != key || r[i + 1] == "" || r[i + 1][0] != ':')
    ensures !KeyHere(r[i..], key)
  {
  }

  lemma {:induction false} FirstKeys(a: Announcement)
    ensures forall i :: 0 <= i < 4 ==> !KeyHere(Runs(a)[i..], "port")
    ensures forall i :: 0 <= i < 6 ==> !KeyHere(Runs(a)[i..], "state")
    ensures forall i :: 0 <= i < 8 ==> !KeyHere(Runs(a)[i..], "service")
  {
    hide Decimal, KeyHere;
    var r := Runs(a);
    forall i | 0 <= i < 4
      ensures !KeyHere(r[i..], "port")
    {
      NoKeyAt(r, i, "port");
    }
    forall i | 0 <= i < 6
      ensures !KeyHere(r[i..], "state")
    {
      NoKeyAt(r, i, "state");
    }
    forall i | 0 <= i < 8
      ensures !KeyHere(r[i..], "service")
    {
      NoKeyAt(r, i, "service");
    }
  }

  /**
    Reading back a printed announcement returns it, for every non-empty quote-free host and
    service that fits, even a host that is itself the name of a key.
    */
  lemma {:induction false} AnnouncementRoundTrip(a: Announcement)
    requires a.host != "" && a.service != "" && QuoteFree(a.host) && QuoteFree(a.service)
    requires a.port >= 1 && a.state < PC_STATES && |BuildPayload(a)| <= Protocol.MAX_PAYLOAD_SIZE
    ensures ParsePayload(BuildPayload(a)) == Some(a)
  {
    hide Decimal, Quoted, ExtractString, ExtractInt, KeyHere;
    PayloadIsRuns(a);
    RunsAreQuoteFree(a);
    var r := Runs(a);
    FirstKeys(a);
    StringFound(r, 0, "host", a.host);
    IntegerFound(r, 4, "port", a.port);
    IntegerFound(r, 6, "state", a.state);
    StringFound(r, 8, "service", a.service);
  }

  // ---------------------------------------------------------------------------
  // What is accepted
  // ---------------------------------------------------------------------------

  predicate OccursAt(pattern: string, s: string, i: nat) {
    i + |pattern| <= |s| && s[i..i + |pattern|] == pattern
  }

  ghost predicate FirstAt(pattern: string, s: string, i: nat) {
    OccursAt(pattern, s, i) && forall j: nat :: j < i ==> !OccursAt(pattern, s, j)
  }

  /** `v` stands at position `i`, has none of the stops in it and one of them behind it. */
  predicate DelimitedAt(s: string, i: nat, v: string, stops: set<char>) {
    && i + |v| < |s| && s[i..i + |v|] == v && s[i + |v|] in stops
    && forall k :: 0 <= k < |v| ==> v[k] !in stops
  }

  lemma {:induction false} OccursLater(pattern: string, s: string, j: nat)
    requires s != ""
    ensures OccursAt(pattern, s[1..], j) <==> OccursAt(pattern, s, j + 1)
  {
    if j + |pattern| < |s| {
      assert s[1..][j..j + |pattern|] == s[j + 1..j + 1 + |pattern|];
    }
  }

  lemma {:induction false} AfterFirst(s: string, pattern: string, i: nat)
    requires FirstAt(pattern, s, i)
    ensures After(s, pattern) == Some(s[i + |pattern|..])
  {
    if i == 0 {
      assert s[..|pattern|] == pattern;
    } else {
      assert !OccursAt(pattern, s, 0);
      assert !(pattern <= s);
      forall j: nat | j < i
        ensures OccursAt(pattern, s[1..], j) <==> OccursAt(pattern, s, j + 1)
      {
        OccursLater(pattern, s, j);
      }
      OccursLater(pattern, s, i - 1);
      AfterFirst(s[1..], pattern, i - 1);
    }
  }

  lemma {:induction false} AfterFound(s: string, pattern: string) returns (i: nat)
    requires After(s, pattern).Some?
    ensures FirstAt(pattern, s, i)
  {
    if pattern <= s {
      i := 0;
      assert s[0..|pattern|] == pattern;
    } else {
      i := AfterFound(s[1..], pattern);
      OccursLater(pattern, s, i);
      i := i + 1;
      forall j: nat | j < i
        ensures !OccursAt(pattern, s, j)
      {
        if j > 0 {
          OccursLater(pattern, s, j - 1);
        }
      }
    }
  }

  lemma {:induction false} UntilExactly(s: string, stops: set<char>, v: string)
    ensures Until(s, stops) == Some(v) <==> DelimitedAt(s, 0, v, stops)
  {
    if s != "" && s[0] !in stops && v != "" {
      UntilExactly(s[1..], stops, v[1..]);
      assert v == [v[0]] + v[1..];
      if DelimitedAt(s, 0, v, stops) {
        assert s[..|v|][0] == v[0] && s[..|v|][1..] == s[1..][..|v| - 1];
      }
      if DelimitedAt(s[1..], 0, v[1..], stops) && s[0] == v[0] {
        assert s[..|v|] == [s[0]] + s[1..][..|v| - 1];
      }
    }
  }

  lemma {:induction false} DelimitedBehind(s: string, i: nat, v: string, stops: set<char>)
    requires i <= |s|
    ensures DelimitedAt(s[i..], 0, v, stops) <==> DelimitedAt(s, i, v, stops)
  {
    if i + |v| < |s| {
      assert s[i..][0..|v|] == s[i..i + |v|];
    }
  }

  function StringKey(key: string): string { "\"" + key + "\":\"" }

  /** The first occurrence of the key with a quoted value behind it, and that value. */
  ghost predicate StringIn(s: string, key: string, v: string) {
    exists i: nat :: FirstAt(StringKey(key), s, i) && DelimitedAt(s, i + |StringKey(key)|, v, {'\"'})
  }

  /** Text behind the first occurrence of the key, up to a comma or brace. */
  ghost predicate TextIn(s: string, key: string, t: string) {
    exists i: nat :: FirstAt(KeyPattern(key), s, i) && DelimitedAt(s, i + |KeyPattern(key)|, t, {',', '}'})
  }

  ghost predicate NumberIn(s: string, key: string, n: int) {
    exists t :: TextIn(s, key, t) && Stoi(t) == n
  }

  lemma {:induction false} FirstFits(pattern: string, s: string, i: nat)
    requires FirstAt(pattern, s, i)
    ensures i + |pattern| <= |s|
  {
  }

  lemma {:induction false} FirstIsUnique(pattern: string, s: string, i: nat, j: nat)
    requires FirstAt(pattern, s, i) && FirstAt(pattern, s, j)
    ensures i == j
  {
  }

  /** Behind the first occurrence of a key, and nowhere else, its value is looked for. */
  lemma {:induction false} ValueBehind(s: string, pattern: string, stops: set<char>, v: string)
    ensures (After(s, pattern).Some? && Until(After(s, pattern).value, stops) == Some(v)) <==>
            exists i: nat :: FirstAt(pattern, s, i) && DelimitedAt(s, i + |pattern|, v, stops)
  {
    hide FirstAt, DelimitedAt, After, Until;
    if After(s, pattern).Some? {
      var i := AfterFound(s, pattern);
      AfterFirst(s, pattern, i);
      FirstFits(pattern, s, i);
      UntilExactly(s[i + |pattern|..], stops, v);
      DelimitedBehind(s, i + |pattern|, v, stops);
      forall j: nat | FirstAt(pattern, s, j)
        ensures j == i
      {
        FirstIsUnique(pattern, s, i, j);
      }
    }
    forall i: nat | FirstAt(pattern, s, i)
      ensures After(s, pattern).Some?
    {
      AfterFirst(s, pattern, i);
    }
  }

  lemma {:induction false} StringExactly(s: string, key: string, v: string)
    requires v != ""
    ensures ExtractString(s, key) == v <==> StringIn(s, key, v)
  {
    hide FirstAt, DelimitedAt, After, Until;
    ValueBehind(s, StringKey(key), {'\"'}, v);
  }

  lemma {:induction false} NumberExactly(s: string, key: string, n: nat)
    ensures ExtractInt(s, key) == n <==> NumberIn(s, key, n)
  {
    hide FirstAt, DelimitedAt, After, Until, Stoi;
    forall t
      ensures TextIn(s, key, t) <==>
              After(s, KeyPattern(key)).Some? && Until(After(s, KeyPattern(key)).value, {',', '}'}) == Some(t)
    {
      ValueBehind(s, KeyPattern(key), {',', '}'}, t);
    }
  }

  /** An announcement is read exactly from text of at most 4096 characters that holds its four values. */
  lemma {:induction false} PayloadAcceptedExactly(data: string, a: Announcement)
    ensures ParsePayload(data) == Some(a) <==>
            && 1 <= |data| <= 4096 && a.host != "" && a.service != "" && a.port >= 1
            && StringIn(data, "host", a.host) && NumberIn(data, "port", a.port)
            && NumberIn(data, "state", a.state) && StringIn(data, "service", a.service)
  {
    hide ExtractString, ExtractInt, StringIn, NumberIn;
    if a.host != "" {
      StringExactly(data, "host", a.host);
    }
    if a.service != "" {
      StringExactly(data, "service", a.service);
    }
    NumberExactly(data, "port", a.port);
    NumberExactly(data, "state", a.state);
  }
}
