/**
  Device identities: 16 octets, and the hyphenated text form (section 3 of RFC 4122) under which
  every map and registry key of the service is filed.
  */
module DeviceIds {
  import opened Bytes
  import opened Protocol
  import opened Text

  type DeviceId = Identity

  function HexDigit(n: int): char
    requires 0 <= n < 16
  {
    if n < 10 then ('0' as int + n) as char else ('a' as int + n - 10) as char
  }

  predicate IsHexDigit(c: char) {
    '0' <= c <= '9' || 'a' <= c <= 'f' || 'A' <= c <= 'F'
  }

  function DigitValue(c: char): (n: int)
    requires IsHexDigit(c)
    ensures 0 <= n < 16
  {
    if c <= '9' then c as int - '0' as int
    else if c <= 'F' then c as int - 'A' as int + 10
    else c as int - 'a' as int + 10
  }

  /** "%02x" for each octet. */
  function Hex(s: Octets): (t: string)
    ensures |t| == 2 * |s|
  {
    if s == [] then "" else Hex(s[..|s| - 1]) + [HexDigit(s[|s| - 1] / 16), HexDigit(s[|s| - 1] % 16)]
  }

  function DeviceIdToString(id: DeviceId): (t: string)
    ensures |t| == 36
  {
    Hex(id[..4]) + "-" + (Hex(id[4..6]) + "-" + (Hex(id[6..8]) + "-" + (Hex(id[8..10]) + "-" + Hex(id[10..]))))
  }

  function Strip(t: string): string {
    if t == "" then ""
    else Strip(t[..|t| - 1]) + (if t[|t| - 1] != '-' then [t[|t| - 1]] else "")
  }

  /**
    What sscanf makes of "%02x" (section 7.21.6.2 of ISO/IEC 9899:2011): white space is skipped,
    then at most two characters are read: two digits, one digit, or a sign and one digit. The two
    characters "0x" alone are no number. Hyphens have been stripped before.
    */
  function ScanOctet(t: string): Option<Byte> {
    var u := SkipSpace(t);
    if u == "" then None
    else if u[0] == '+' then (if |u| >= 2 && IsHexDigit(u[1]) then Some(DigitValue(u[1])) else None)
    else if !IsHexDigit(u[0]) then None
    else if |u| >= 2 && IsHexDigit(u[1]) then Some(16 * DigitValue(u[0]) + DigitValue(u[1]))
    else if |u| >= 2 && u[0] == '0' && (u[1] == 'x' || u[1] == 'X') then None
    else Some(DigitValue(u[0]))
  }

  /** The first `n` octets, each scanned from its own pair of characters on. */
  function ScanOctets(h: string, n: nat): (r: Option<Octets>)
    requires 2 * n <= |h|
    ensures r.Some? ==> |r.value| == n
  {
    if n == 0 then Some([])
    else
      var front, last := ScanOctets(h, n - 1), ScanOctet(h[2 * (n - 1)..]);
      if front.Some? && last.Some? then Some(front.value + [last.value]) else None
  }

  function FromText(t: string): (r: Option<DeviceId>) {
    if |t| != 36 || t[8] != '-' || t[13] != '-' || t[18] != '-' || t[23] != '-' || |Strip(t)| != 32 then None
    else
      var r := ScanOctets(Strip(t), 16);
      if r.Some? then Some(r.value) else None
  }

  lemma {:induction false} BadOctetRejects(h: string, i: nat, n: nat)
    requires i < n && 2 * n <= |h| && ScanOctet(h[2 * i..]).None?
    ensures ScanOctets(h, n) == None
    decreases n
  {
    hide ScanOctet;
    if i < n - 1 {
      BadOctetRejects(h, i, n - 1);
    }
  }

  method DeviceIdFromString(str: string) returns (result: Option<DeviceId>)
    ensures result == FromText(str)
  {
    hide ScanOctet;
    if |str| != 36 {
      return None;
    }
    if str[8] != '-' || str[13] != '-' || str[18] != '-' || str[23] != '-' {
      return None;
    }
    var hex := "";
    for i := 0 to |str|
      invariant hex == Strip(str[..i])
    {
      assert str[..i + 1][..i] == str[..i];
      if str[i] != '-' {
        hex := hex + [str[i]];
      }
    }
    assert str[..|str|] == str;
    if |hex| != 32 {
      return None;
    }
    var out: Octets := [];
    for i := 0 to 16
      invariant ScanOctets(hex, i) == Some(out)
    {
      var scanned := ScanOctet(hex[2 * i..]);
      if scanned.None? {
        BadOctetRejects(hex, i, 16);
        return None;
      }
      out := out + [scanned.value];
    }
    return Some(out);
  }

  lemma {:induction false} StripConcat(a: string, b: string)
    ensures Strip(a + b) == Strip(a) + Strip(b)
  {
    if b == "" {
      assert a + b == a;
    } else {
      assert (a + b)[..|a + b| - 1] == a + b[..|b| - 1];
      StripConcat(a, b[..|b| - 1]);
    }
  }

  lemma {:induction false} StripPair(c: char, d: char)
    requires c != '-' && d != '-'
    ensures Strip([c, d]) == [c, d]
  {
    assert Strip([c]) == [c] by { assert [c][..0] == ""; }
    assert [c, d][..1] == [c];
  }

  lemma {:induction false} StripKeepsHex(s: Octets)
    ensures Strip(Hex(s)) == Hex(s)
  {
    if s != [] {
      var last := s[|s| - 1];
      StripConcat(Hex(s[..|s| - 1]), [HexDigit(last / 16), HexDigit(last % 16)]);
      StripKeepsHex(s[..|s| - 1]);
      StripPair(HexDigit(last / 16), HexDigit(last % 16));
    }
  }

  lemma {:induction false} HexConcat(a: Octets, b: Octets)
    ensures Hex(a + b) == Hex(a) + Hex(b)
  {
    if b == [] {
      assert a + b == a;
    } else {
      assert (a + b)[..|a + b| - 1] == a + b[..|b| - 1];
      HexConcat(a, b[..|b| - 1]);
    }
  }

  lemma {:induction false} DigitReadsBack(n: int)
    requires 0 <= n < 16
    ensures IsHexDigit(HexDigit(n)) && DigitValue(HexDigit(n)) == n
  {
  }

  lemma {:induction false} PairScans(b: Byte, rest: string)
    ensures ScanOctet([HexDigit(b / 16), HexDigit(b % 16)] + rest) == Some(b)
  {
    DigitReadsBack(b / 16);
    DigitReadsBack(b % 16);
  }

  lemma {:induction false} HexFrom(s: Octets, i: nat)
    requires i < |s|
    ensures Hex(s)[2 * i..] == [HexDigit(s[i] / 16), HexDigit(s[i] % 16)] + Hex(s[i + 1..])
  {
    assert s == (s[..i] + [s[i]]) + s[i + 1..];
    HexConcat(s[..i] + [s[i]], s[i + 1..]);
    assert (s[..i] + [s[i]])[..i] == s[..i];
  }

  lemma {:induction false} HexScansBack(s: Octets, n: nat)
    requires n <= |s|
    ensures ScanOctets(Hex(s), n) == Some(s[..n])
  {
    hide ScanOctet, HexDigit, Hex;
    if n > 0 {
      HexScansBack(s, n - 1);
      HexFrom(s, n - 1);
      PairScans(s[n - 1], Hex(s[n..]));
      assert s[..n] == s[..n - 1] + [s[n - 1]];
    }
  }

  lemma {:induction false} StripDashed(s: Octets, rest: string)
    ensures Strip(Hex(s) + "-" + rest) == Hex(s) + Strip(rest)
  {
    StripConcat(Hex(s) + "-", rest);
    StripConcat(Hex(s), "-");
    StripKeepsHex(s);
    assert "-"[..0] == "";
  }

  lemma {:induction false} HexInFive(a: Octets, b: Octets, c: Octets, d: Octets, e: Octets)
    ensures Hex(a + (b + (c + (d + e)))) == Hex(a) + (Hex(b) + (Hex(c) + (Hex(d) + Hex(e))))
  {
    HexConcat(d, e);
    HexConcat(c, d + e);
    HexConcat(b, c + (d + e));
    HexConcat(a, b + (c + (d + e)));
  }

  lemma {:induction false} TextIsStripped(id: DeviceId)
    ensures Strip(DeviceIdToString(id)) == Hex(id)
  {
    var a, b, c, d, e := id[..4], id[4..6], id[6..8], id[8..10], id[10..];
    var de := Hex(d) + "-" + Hex(e);
    var cde := Hex(c) + "-" + de;
    var bcde := Hex(b) + "-" + cde;
    StripKeepsHex(e);
    StripDashed(d, Hex(e));
    StripDashed(c, de);
    StripDashed(b, cde);
    StripDashed(a, bcde);
    HexInFive(a, b, c, d, e);
    assert id == a + (b + (c + (d + e)));
  }

  /** Parsing undoes printing, for every 16-octet identity. */
  lemma {:induction false} TextRoundTrip(id: DeviceId)
    ensures FromText(DeviceIdToString(id)) == Some(id)
  {
    TextIsStripped(id);
    HexScansBack(id, 16);
    assert id[..16] == id;
  }

  /** Hence no two devices share a key. */
  lemma {:induction false} TextInjective(a: DeviceId, b: DeviceId)
    ensures DeviceIdToString(a) == DeviceIdToString(b) <==> a == b
  {
    TextRoundTrip(a);
    TextRoundTrip(b);
  }

  const LOWER_HEX := "0123456789abcdef"

  /** The two lower-case digits of octet `b` stand at position `i`. */
  predicate PrintedAt(t: string, i: nat, b: Byte) {
    i + 1 < |t| && t[i] == LOWER_HEX[b / 16] && t[i + 1] == LOWER_HEX[b % 16]
  }

  lemma {:induction false} DigitsAt(s: Octets, i: nat)
    requires i < |s|
    ensures PrintedAt(Hex(s), 2 * i, s[i])
  {
    HexFrom(s, i);
    assert Hex(s)[2 * i..][0] == HexDigit(s[i] / 16) && Hex(s)[2 * i..][1] == HexDigit(s[i] % 16);
  }

  /** A group of digits, a hyphen and the rest. */
  lemma {:induction false} GroupForm(s: Octets, rest: string, t: string)
    requires t == Hex(s) + "-" + rest
    ensures t[2 * |s|] == '-' && t[2 * |s| + 1..] == rest
    ensures forall i :: 0 <= i < |s| ==> PrintedAt(t, 2 * i, s[i])
    ensures forall i: nat, b: Byte :: PrintedAt(rest, i, b) ==> PrintedAt(t, 2 * |s| + 1 + i, b)
  {
    forall i | 0 <= i < |s|
      ensures PrintedAt(t, 2 * i, s[i])
    {
      DigitsAt(s, i);
      assert t[2 * i] == Hex(s)[2 * i] && t[2 * i + 1] == Hex(s)[2 * i + 1];
    }
    forall i: nat, b: Byte | PrintedAt(rest, i, b)
      ensures PrintedAt(t, 2 * |s| + 1 + i, b)
    {
      assert t[2 * |s| + 1 + i] == rest[i] && t[2 * |s| + 2 + i] == rest[i + 1];
    }
  }

  /** Where octet `i` is printed: one hyphen each after the fourth, sixth, eighth and tenth. */
  function PositionOf(i: nat): nat {
    2 * i + (if i < 4 then 0 else if i < 6 then 1 else if i < 8 then 2 else if i < 10 then 3 else 4)
  }

  /** The text, character by character: 8-4-4-4-12 lower-case hexadecimal digits. */
  lemma {:induction false} TextForm(id: DeviceId)
    ensures var t := DeviceIdToString(id);
            && t[8] == t[13] == t[18] == t[23] == '-'
            && forall i :: 0 <= i < 16 ==> PrintedAt(t, PositionOf(i), id[i])
  {
    hide Hex, PrintedAt;
    var t4 := Hex(id[10..]);
    var t3 := Hex(id[8..10]) + "-" + t4;
    var t2 := Hex(id[6..8]) + "-" + t3;
    var t1 := Hex(id[4..6]) + "-" + t2;
    GroupForm(id[8..10], t4, t3);
    GroupForm(id[6..8], t3, t2);
    GroupForm(id[4..6], t2, t1);
    GroupForm(id[..4], t1, DeviceIdToString(id));
    forall i | 10 <= i < 16
      ensures PrintedAt(t4, 2 * (i - 10), id[i])
    {
      DigitsAt(id[10..], i - 10);
    }
    var t := DeviceIdToString(id);
    assert t[13] == t[9..][4] && t[18] == t[9..][5..][4] && t[23] == t[9..][5..][5..][4];
    forall i | 0 <= i < 16
      ensures PrintedAt(t, PositionOf(i), id[i])
    {
      if i < 4 {
        assert id[..4][i] == id[i];
      } else if i < 6 {
        assert id[4..6][i - 4] == id[i] && PrintedAt(t1, 2 * (i - 4), id[i]);
      } else if i < 8 {
        assert id[6..8][i - 6] == id[i] && PrintedAt(t2, 2 * (i - 6), id[i]);
      } else if i < 10 {
        assert id[8..10][i - 8] == id[i] && PrintedAt(t3, 2 * (i - 8), id[i]);
      }
      assert i >= 10 ==> PrintedAt(t3, 5 + 2 * (i - 10), id[i]);
      assert i >= 8 ==> PrintedAt(t2, PositionOf(i) - 14, id[i]);
      assert i >= 6 ==> PrintedAt(t1, PositionOf(i) - 9, id[i]);
    }
  }
}
