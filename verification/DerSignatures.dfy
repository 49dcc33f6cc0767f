/**
  Conversion of ECDSA P-256 signatures between ASN.1 DER (section 2.2.3 of RFC 3279) and the
  fixed-width r || s form. Specified by unsigned values: a half of the fixed form is the 32-octet
  big-endian encoding of the value of the INTEGER content.
  */
module DerSignatures {
  import opened Bytes

  const COMPONENT_LEN := 32
  const ASN1_SEQUENCE: Byte := 0x30
  const ASN1_INTEGER: Byte := 0x02

  predicate Fits(s: Octets) { Value(s) < Pow256(COMPONENT_LEN) }

  // ---------------------------------------------------------------------------
  // DER to fixed width
  // ---------------------------------------------------------------------------

  datatype ParsedInteger = ParsedInteger(data: Octets, next: nat)

  function ParseInteger(der: Octets, offset: nat): Option<ParsedInteger> {
    if offset + 1 >= |der| || der[offset] != ASN1_INTEGER then None
    else
      var len := der[offset + 1];
      if len >= 0x80 || len == 0 || offset + 2 + len > |der| then None
      else Some(ParsedInteger(der[offset + 2..offset + 2 + len], offset + 2 + len))
  }

  /** Offset of the SEQUENCE content, when its length octets cover exactly the rest of the input. */
  function ContentStart(der: Octets): Option<nat>
    requires |der| >= 3
  {
    if der[1] < 0x80 then (if 2 + der[1] == |der| then Some(2) else None)
    else if der[1] != 0x81 then None
    else if der[2] == |der| - 3 then Some(3) else None
  }

  function ToP1363(der: Octets): Option<Octets> {
    if |der| < 8 || |der| > 74 || der[0] != ASN1_SEQUENCE then None
    else
      var start := ContentStart(der);
      if start.None? then None
      else
        var r := ParseInteger(der, start.value);
        if r.None? then None
        else
          var s := ParseInteger(der, r.value.next);
          if s.None? || s.value.next != |der| || !Fits(r.value.data) || !Fits(s.value.data) then None
          else Some(BigEndian(Value(r.value.data), 32) + BigEndian(Value(s.value.data), 32))
  }

  method ParseDerInteger(der: Octets, startOffset: nat) returns (result: Option<ParsedInteger>)
    ensures result == ParseInteger(der, startOffset)
  {
    var offset := startOffset;
    if offset >= |der| {
      return None;
    }
    var tag := der[offset];
    offset := offset + 1;
    if tag != ASN1_INTEGER {
      return None;
    }
    if offset >= |der| {
      return None;
    }
    var len := der[offset];
    offset := offset + 1;
    if len >= 0x80 {
      return None;
    }
    if len == 0 {
      return None;
    }
    if offset + len > |der| {
      return None;
    }
    return Some(ParsedInteger(der[offset..offset + len], offset + len));
  }

  lemma {:induction false} PaddingIsBigEndian(src: Octets)
    requires |src| <= COMPONENT_LEN
    ensures Fits(src) && seq(COMPONENT_LEN - |src|, _ => 0) + src == BigEndian(Value(src), COMPONENT_LEN)
  {
    hide Value, BigEndian, Pow256;
    var padded := seq(COMPONENT_LEN - |src|, _ => 0) + src;
    LeadingZeros(COMPONENT_LEN - |src|, src);
    BigEndianOfValue(padded);
    ValueBound(padded);
  }

  lemma {:induction false} Oversized(src: Octets)
    requires |src| > COMPONENT_LEN && src[0] != 0
    ensures !Fits(src)
  {
    hide Value, Pow256;
    NonZeroHead(src);
    Pow256Monotone(COMPONENT_LEN, |src| - 1);
  }

  method NormalizeTo32Bytes(raw: Octets) returns (result: Option<Octets>)
    ensures result == if Fits(raw) then Some(BigEndian(Value(raw), COMPONENT_LEN)) else None
  {
    var src := raw;
    if |src| > COMPONENT_LEN && src[0] == 0x00 {
      assert src == [0] + src[1..];
      LeadingZero(src[1..]);
      src := src[1..];
    }
    while |src| > COMPONENT_LEN && src[0] == 0x00
      invariant Value(src) == Value(raw)
      decreases |src|
    {
      assert src == [0] + src[1..];
      LeadingZero(src[1..]);
      src := src[1..];
    }
    if |src| > COMPONENT_LEN {
      Oversized(src);
      return None;
    }
    PaddingIsBigEndian(src);
    if |src| == COMPONENT_LEN {
      assert seq(COMPONENT_LEN - |src|, _ => 0) + src == src;
      return Some(src);
    }
    var padded := seq(COMPONENT_LEN - |src|, _ => 0) + src;
    return Some(padded);
  }

  method DerToP1363(der: Octets) returns (result: Option<Octets>)
    ensures result == ToP1363(der)
  {
    hide Fits, Value, BigEndian, ParseInteger;
    if |der| < 8 || |der| > 74 {
      return None;
    }
    var offset := 0;
    var seqTag := der[offset];
    offset := offset + 1;
    if seqTag != ASN1_SEQUENCE {
      return None;
    }
    var seqLen := der[offset];
    offset := offset + 1;
    if seqLen >= 0x80 {
      var numLenBytes := seqLen - 0x80;
      if numLenBytes != 1 || offset >= |der| {
        return None;
      }
      seqLen := der[offset];
      offset := offset + 1;
    }
    if offset + seqLen != |der| {
      return None;
    }
    var r := ParseDerInteger(der, offset);
    if r.None? {
      return None;
    }
    offset := r.value.next;
    var s := ParseDerInteger(der, offset);
    if s.None? {
      return None;
    }
    offset := s.value.next;
    if offset != |der| {
      return None;
    }
    var normalizedR := NormalizeTo32Bytes(r.value.data);
    if normalizedR.None? {
      return None;
    }
    var normalizedS := NormalizeTo32Bytes(s.value.data);
    if normalizedS.None? {
      return None;
    }
    return Some(normalizedR.value + normalizedS.value);
  }

  // ---------------------------------------------------------------------------
  // Fixed width to DER
  // ---------------------------------------------------------------------------

  /** Section 8.3 of ITU-T X.690: shortest two's-complement content of a non-negative INTEGER. */
  predicate MinimalPositive(c: Octets) {
    |c| >= 1 && c[0] < 0x80 && (|c| > 1 && c[0] == 0 ==> c[1] >= 0x80)
  }

  function Trim(s: Octets): (t: Octets)
    requires |s| >= 1
    ensures 1 <= |t| <= |s|
  {
    if |s| > 1 && s[0] == 0 then Trim(s[1..]) else s
  }

  function Content(s: Octets): (c: Octets)
    requires |s| >= 1
    ensures 1 <= |c| <= |s| + 1
  {
    if Trim(s)[0] >= 0x80 then [0] + Trim(s) else Trim(s)
  }

  function IntegerDer(c: Octets): Octets
    requires |c| < 0x80
  {
    [ASN1_INTEGER, |c|] + c
  }

  function LengthOctets(n: Byte): Octets {
    if n < 0x80 then [n] else [0x81, n]
  }

  /** A SEQUENCE of two INTEGERs with the given length octets and contents. */
  function Assemble(length: Octets, cr: Octets, cs: Octets): Octets
    requires |cr| < 0x80 && |cs| < 0x80
  {
    [ASN1_SEQUENCE] + (length + (IntegerDer(cr) + IntegerDer(cs)))
  }

  function ToDer(p: Octets): Octets
    requires |p| == 64
  {
    var cr, cs := Content(p[..32]), Content(p[32..]);
    Assemble(LengthOctets(|cr| + |cs| + 4), cr, cs)
  }

  method EncodeIntegerToDer(component: Octets) returns (out: Octets)
    requires 1 <= |component| < 0x7F
    ensures out == IntegerDer(Content(component))
  {
    var start := 0;
    while start < |component| - 1 && component[start] == 0x00
      invariant 0 <= start < |component|
      invariant Trim(component) == Trim(component[start..])
    {
      assert component[start..][1..] == component[start + 1..];
      start := start + 1;
    }
    var trimmed := component[start..];
    out := [ASN1_INTEGER];
    if trimmed[0] >= 0x80 {
      out := out + [|trimmed| + 1];
      out := out + [0x00];
    } else {
      out := out + [|trimmed|];
    }
    out := out + trimmed;
  }

  method P1363ToDer(p1363: Octets) returns (result: Option<Octets>)
    ensures result == if |p1363| == 64 then Some(ToDer(p1363)) else None
  {
    if |p1363| != 64 {
      return None;
    }
    var r := p1363[..COMPONENT_LEN];
    var s := p1363[COMPONENT_LEN..];
    var rDer := EncodeIntegerToDer(r);
    var sDer := EncodeIntegerToDer(s);
    var out := [ASN1_SEQUENCE];
    out := out + LengthOctets(|rDer| + |sDer|);
    out := out + rDer;
    out := out + sDer;
    assert out == [ASN1_SEQUENCE] + (LengthOctets(|rDer| + |sDer|) + (rDer + sDer));
    return Some(out);
  }

  // ---------------------------------------------------------------------------
  // Minimal contents
  // ---------------------------------------------------------------------------

  lemma {:induction false} TrimKeepsValue(s: Octets)
    requires |s| >= 1
    ensures Value(Trim(s)) == Value(s)
    ensures |Trim(s)| > 1 ==> Trim(s)[0] != 0
  {
    if |s| > 1 && s[0] == 0 {
      assert s == [0] + s[1..];
      LeadingZero(s[1..]);
      TrimKeepsValue(s[1..]);
    }
  }

  lemma {:induction false} ContentIsMinimal(s: Octets)
    requires |s| >= 1
    ensures MinimalPositive(Content(s)) && Value(Content(s)) == Value(s)
  {
    TrimKeepsValue(s);
    LeadingZero(Trim(s));
  }

  /** Strips the sign octet, if there is one. */
  function Magnitude(c: Octets): Octets {
    if |c| > 1 && c[0] == 0 then c[1..] else c
  }

  lemma {:induction false} MagnitudeFacts(c: Octets)
    requires MinimalPositive(c)
    ensures |Magnitude(c)| >= 1 && Value(Magnitude(c)) == Value(c)
    ensures |Magnitude(c)| > 1 ==> Magnitude(c)[0] != 0
    ensures c == if Magnitude(c)[0] >= 0x80 then [0] + Magnitude(c) else Magnitude(c)
  {
    if |c| > 1 && c[0] == 0 {
      assert c == [0] + c[1..];
      LeadingZero(c[1..]);
    }
  }

  lemma {:induction false} ShorterIsSmaller(a: Octets, b: Octets)
    requires 1 <= |a| < |b| && b[0] != 0
    ensures Value(a) < Value(b)
  {
    ValueBound(a);
    NonZeroHead(b);
    Pow256Monotone(|a|, |b| - 1);
  }

  /** A value has one minimal content. */
  lemma {:induction false} MinimalUnique(a: Octets, b: Octets)
    requires MinimalPositive(a) && MinimalPositive(b) && Value(a) == Value(b)
    ensures a == b
  {
    MagnitudeFacts(a);
    MagnitudeFacts(b);
    var x, y := Magnitude(a), Magnitude(b);
    if |x| < |y| {
      ShorterIsSmaller(x, y);
    } else if |y| < |x| {
      ShorterIsSmaller(y, x);
    } else {
      SameLengthSameValue(x, y);
    }
  }

  lemma {:induction false} MinimalIsShort(c: Octets)
    requires MinimalPositive(c) && Fits(c)
    ensures |c| <= 33
  {
    if |c| > 33 {
      MagnitudeFacts(c);
      var m := Magnitude(c);
      NonZeroHead(m);
      Pow256Monotone(32, |m| - 1);
    }
  }

  // ---------------------------------------------------------------------------
  // What is accepted
  // ---------------------------------------------------------------------------

  predicate SequenceLength(length: Octets, n: nat) {
    (length == [n] && n < 0x80) || length == [0x81, n]
  }

  /** `der` is a SEQUENCE of two non-empty INTEGERs with these contents. */
  predicate Shaped(der: Octets, length: Octets, cr: Octets, cs: Octets) {
    && 1 <= |cr| < 0x80 && 1 <= |cs| < 0x80
    && SequenceLength(length, |cr| + |cs| + 4)
    && der == Assemble(length, cr, cs)
  }

  lemma {:induction false} IntegerParses(before: Octets, c: Octets, after: Octets)
    requires 1 <= |c| < 0x80
    ensures ParseInteger(before + (IntegerDer(c) + after), |before|) == Some(ParsedInteger(c, |before| + 2 + |c|))
  {
    var der := before + (IntegerDer(c) + after);
    assert der[|before|] == ASN1_INTEGER && der[|before| + 1] == |c|;
    assert der[|before| + 2..|before| + 2 + |c|] == c;
  }

  lemma {:induction false} ShapedStarts(der: Octets, length: Octets, cr: Octets, cs: Octets)
    requires Shaped(der, length, cr, cs)
    ensures |der| >= 8 && der[0] == ASN1_SEQUENCE
    ensures ContentStart(der) == Some(1 + |length|)
  {
    assert der[1] == length[0];
    if |length| == 2 {
      assert der[2] == length[1];
    }
  }

  lemma {:induction false} AssembleGroups(length: Octets, cr: Octets, cs: Octets)
    requires |cr| < 0x80 && |cs| < 0x80
    ensures Assemble(length, cr, cs) == ([ASN1_SEQUENCE] + length) + (IntegerDer(cr) + IntegerDer(cs))
    ensures Assemble(length, cr, cs) == ([ASN1_SEQUENCE] + length + IntegerDer(cr)) + (IntegerDer(cs) + [])
  {
    hide IntegerDer;
  }

  lemma {:induction false} FirstInteger(der: Octets, length: Octets, cr: Octets, cs: Octets)
    requires Shaped(der, length, cr, cs)
    ensures ParseInteger(der, 1 + |length|) == Some(ParsedInteger(cr, 3 + |length| + |cr|))
  {
    hide Assemble, IntegerDer, ParseInteger;
    AssembleGroups(length, cr, cs);
    IntegerParses([ASN1_SEQUENCE] + length, cr, IntegerDer(cs));
  }

  lemma {:induction false} SecondInteger(der: Octets, length: Octets, cr: Octets, cs: Octets)
    requires Shaped(der, length, cr, cs)
    ensures ParseInteger(der, 3 + |length| + |cr|) == Some(ParsedInteger(cs, |der|))
  {
    hide Assemble, ParseInteger;
    AssembleGroups(length, cr, cs);
    var before := [ASN1_SEQUENCE] + length + IntegerDer(cr);
    assert |before| == 3 + |length| + |cr|;
    IntegerParses(before, cs, []);
  }

  lemma {:induction false} ShapedConverts(der: Octets, length: Octets, cr: Octets, cs: Octets)
    requires Shaped(der, length, cr, cs) && |der| <= 74
    ensures ToP1363(der) == if Fits(cr) && Fits(cs)
                            then Some(BigEndian(Value(cr), 32) + BigEndian(Value(cs), 32)) else None
  {
    hide ParseInteger, ContentStart, Fits, Assemble, Value;
    ShapedStarts(der, length, cr, cs);
    FirstInteger(der, length, cr, cs);
    SecondInteger(der, length, cr, cs);
  }

  lemma {:induction false} IntegerSlice(der: Octets, offset: nat)
    requires ParseInteger(der, offset).Some?
    ensures var p := ParseInteger(der, offset).value;
            && 1 <= |p.data| < 0x80 && offset + 2 + |p.data| == p.next <= |der|
            && der[offset..p.next] == IntegerDer(p.data)
  {
  }

  lemma {:induction false} CutInFour(der: Octets, i: nat, j: nat)
    requires 1 <= i <= j <= |der|
    ensures der == [der[0]] + (der[1..i] + (der[i..j] + der[j..|der|]))
  {
  }

  lemma {:induction false} StartIsLength(der: Octets)
    requires |der| >= 3 && ContentStart(der).Some?
    ensures 2 <= ContentStart(der).value <= 3
    ensures SequenceLength(der[1..ContentStart(der).value], |der| - ContentStart(der).value)
  {
  }

  lemma {:induction false} AcceptedIsShaped(der: Octets) returns (length: Octets, cr: Octets, cs: Octets)
    requires ToP1363(der).Some?
    ensures Shaped(der, length, cr, cs)
  {
    hide Fits, Value, BigEndian;
    var start := ContentStart(der).value;
    var r := ParseInteger(der, start).value;
    var s := ParseInteger(der, r.next).value;
    StartIsLength(der);
    IntegerSlice(der, start);
    IntegerSlice(der, r.next);
    CutInFour(der, start, r.next);
    return der[1..start], r.data, s.data;
  }

  ghost predicate ConvertsTo(der: Octets, p: Octets, length: Octets, cr: Octets, cs: Octets) {
    && Shaped(der, length, cr, cs)
    && Fits(cr) && Fits(cs)
    && p == BigEndian(Value(cr), 32) + BigEndian(Value(cs), 32)
  }

  /**
    The converter accepts exactly the inputs of 8 to 74 octets that are a SEQUENCE (short or
    one-octet long length) of two INTEGERs whose contents, read as unsigned numbers, are below
    2^256; each half of the result has the value of its content, minimal or not.
    */
  lemma {:induction false} AcceptedExactly(der: Octets, p: Octets)
    ensures ToP1363(der) == Some(p) <==> |der| <= 74 && exists length, cr, cs :: ConvertsTo(der, p, length, cr, cs)
  {
    if ToP1363(der) == Some(p) {
      var length, cr, cs := AcceptedIsShaped(der);
      ShapedConverts(der, length, cr, cs);
      assert ConvertsTo(der, p, length, cr, cs);
    }
    if |der| <= 74 && exists length, cr, cs :: ConvertsTo(der, p, length, cr, cs) {
      var length, cr, cs :| ConvertsTo(der, p, length, cr, cs);
      ShapedConverts(der, length, cr, cs);
    }
  }

  /** The halves of a converted signature have the values of the INTEGER contents. */
  lemma {:induction false} HalvesKeepValues(der: Octets, length: Octets, cr: Octets, cs: Octets)
    requires Shaped(der, length, cr, cs) && ToP1363(der).Some?
    ensures |ToP1363(der).value| == 64
    ensures Value(ToP1363(der).value[..32]) == Value(cr)
    ensures Value(ToP1363(der).value[32..]) == Value(cs)
  {
    ShapedConverts(der, length, cr, cs);
    ValueOfBigEndian(Value(cr), 32);
    ValueOfBigEndian(Value(cs), 32);
    assert ToP1363(der).value[..32] == BigEndian(Value(cr), 32);
    assert ToP1363(der).value[32..] == BigEndian(Value(cs), 32);
  }

  // ---------------------------------------------------------------------------
  // Bijection
  // ---------------------------------------------------------------------------

  ghost predicate CanonicalWith(der: Octets, cr: Octets, cs: Octets) {
    && MinimalPositive(cr) && MinimalPositive(cs)
    && Fits(cr) && Fits(cs)
    && |cr| + |cs| + 4 < 0x80
    && der == Assemble([|cr| + |cs| + 4], cr, cs)
  }

  /** DER proper: minimal INTEGERs below 2^256 and the short length form. */
  ghost predicate CanonicalDer(der: Octets) {
    exists cr, cs :: CanonicalWith(der, cr, cs)
  }

  lemma {:induction false} ToDerContents(p: Octets)
    requires |p| == 64
    ensures CanonicalWith(ToDer(p), Content(p[..32]), Content(p[32..]))
    ensures Value(Content(p[..32])) == Value(p[..32]) && Value(Content(p[32..])) == Value(p[32..])
  {
    hide MinimalPositive, Value, Content, Assemble, Pow256;
    var r, s := p[..32], p[32..];
    ContentIsMinimal(r);
    ContentIsMinimal(s);
    ValueBound(r);
    ValueBound(s);
  }

  lemma {:induction false} ToDerIsCanonical(p: Octets)
    requires |p| == 64
    ensures CanonicalDer(ToDer(p))
  {
    hide CanonicalWith;
    ToDerContents(p);
  }

  lemma {:induction false} CanonicalConverts(der: Octets, cr: Octets, cs: Octets)
    requires CanonicalWith(der, cr, cs)
    ensures Shaped(der, [|cr| + |cs| + 4], cr, cs)
    ensures ToP1363(der) == Some(BigEndian(Value(cr), 32) + BigEndian(Value(cs), 32))
  {
    hide Value, BigEndian, ToP1363, Pow256;
    MinimalIsShort(cr);
    MinimalIsShort(cs);
    ShapedConverts(der, [|cr| + |cs| + 4], cr, cs);
  }

  lemma {:induction false} RoundTripFromP1363(p: Octets)
    requires |p| == 64
    ensures ToP1363(ToDer(p)) == Some(p)
  {
    hide Value, BigEndian, ToP1363, Content, CanonicalWith, ToDer;
    var r, s := p[..32], p[32..];
    ToDerContents(p);
    CanonicalConverts(ToDer(p), Content(r), Content(s));
    BigEndianOfValue(r);
    BigEndianOfValue(s);
    assert p == r + s;
  }

  lemma {:induction false} RoundTripFromDer(der: Octets)
    requires CanonicalDer(der)
    ensures ToP1363(der).Some? && |ToP1363(der).value| == 64
    ensures ToDer(ToP1363(der).value) == der
  {
    hide Value, ToP1363, Content, MinimalPositive, Assemble;
    var cr, cs :| CanonicalWith(der, cr, cs);
    CanonicalConverts(der, cr, cs);
    var p := ToP1363(der).value;
    HalvesKeepValues(der, [|cr| + |cs| + 4], cr, cs);
    ContentIsMinimal(p[..32]);
    ContentIsMinimal(p[32..]);
    MinimalUnique(Content(p[..32]), cr);
    MinimalUnique(Content(p[32..]), cs);
  }

  /** The two conversions are inverse bijections between 64-octet strings and canonical DER. */
  lemma {:induction false} Bijection(p: Octets, der: Octets)
    ensures |p| == 64 && ToDer(p) == der <==> CanonicalDer(der) && ToP1363(der) == Some(p)
  {
    if |p| == 64 && ToDer(p) == der {
      ToDerIsCanonical(p);
      RoundTripFromP1363(p);
    }
    if CanonicalDer(der) && ToP1363(der) == Some(p) {
      RoundTripFromDer(der);
    }
  }
}
