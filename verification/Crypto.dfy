/**
  Public-key normalization and the shape of signature verification. The elliptic-curve
  arithmetic itself is a parameter: any function of key blob, message octets and signature.
  */
module Crypto {
  import opened Bytes
  import opened Protocol

  const P256_COORDINATE_SIZE := 32
  const P1363_SIGNATURE_SIZE := 64
  const ECC_BLOB_SIZE := 72
  const ECDSA_PUBLIC_P256_MAGIC := 0x3153_4345
  const SIZE_T := 0x1_0000_0000_0000_0000

  type Coordinate = s: Octets | |s| == 32 witness seq(32, _ => 0)

  /** CNG: import of the 72-octet blob, SHA-256 of the message, and the ECDSA check. */
  type Ecdsa = (Octets, Octets, Octets) -> bool

  // ---------------------------------------------------------------------------
  // SubjectPublicKeyInfo
  // ---------------------------------------------------------------------------

  /** `OutOfBounds` marks a run in which the C++ code would read past the end of its input. */
  datatype SpkiResult = Point(x: Coordinate, y: Coordinate) | Rejected | OutOfBounds

  datatype LengthRead = Length(value: nat, next: nat) | BadLength | Overrun

  /** A DER length at `offset`, accumulated in a 64-bit size_t. */
  function ReadLength(der: Octets, offset: nat): LengthRead {
    if offset >= |der| then Overrun
    else if der[offset] < 0x80 then Length(der[offset], offset + 1)
    else
      var n := der[offset] - 0x80;
      if offset + 1 + n > |der| then BadLength
      else Length(Value(der[offset + 1..offset + 1 + n]) % SIZE_T, offset + 1 + n)
  }

  /** The root length is stepped over without being read. */
  function SkipRoot(der: Octets): Option<nat>
    requires |der| >= 30
  {
    if der[1] < 0x80 then Some(2)
    else if 2 + (der[1] - 0x80) > |der| then None
    else Some(2 + (der[1] - 0x80))
  }

  function ReadPoint(der: Octets, offset: nat): SpkiResult {
    if offset + 1 >= |der| then OutOfBounds
    else if der[offset] != 0x00 || der[offset + 1] != 0x04 then Rejected
    else if offset + 2 + 2 * P256_COORDINATE_SIZE > |der| then Rejected
    else Point(der[offset + 2..offset + 34], der[offset + 34..offset + 66])
  }

  function ReadBitString(der: Octets, offset: nat): SpkiResult {
    if offset >= |der| || der[offset] != 0x03 || offset + 1 >= |der| then Rejected
    else match ReadLength(der, offset + 1)
      case Length(bits, next) =>
        if (next + bits) % SIZE_T > |der| || bits < 66 then Rejected
        else if next < |der| && der[next] != 0x00 then Rejected
        else ReadPoint(der, next)
      case _ => Rejected
  }

  function ParseSpki(der: Octets): SpkiResult {
    if |der| < 30 || der[0] != 0x30 then Rejected
    else
      var root := SkipRoot(der);
      if root.None? || root.value >= |der| || der[root.value] != 0x30 then Rejected
      else match ReadLength(der, root.value + 1)
        case Length(algorithm, next) => ReadBitString(der, (next + algorithm) % SIZE_T)
        case BadLength => Rejected
        case Overrun => OutOfBounds
  }

  lemma {:induction false} ModularShift(a: nat, k: nat)
    ensures (a + k * SIZE_T) % SIZE_T == a % SIZE_T
  {
  }

  lemma {:induction false} ShiftIn(acc: nat, b: Byte)
    ensures (acc % SIZE_T * 256 + b) % SIZE_T == (256 * acc + b) % SIZE_T
  {
    var q := acc / SIZE_T;
    assert acc == q * SIZE_T + acc % SIZE_T;
    assert 256 * acc + b == (256 * q) * SIZE_T + (acc % SIZE_T * 256 + b);
    ModularShift(acc % SIZE_T * 256 + b, 256 * q);
  }

  /** The length loop: shift the accumulator left by one octet and or the next octet in. */
  method ReadLengthOctets(der: Octets, start: nat, n: nat) returns (len: nat)
    requires start + n <= |der|
    ensures len == Value(der[start..start + n]) % SIZE_T
  {
    len := 0;
    for i := 0 to n
      invariant len == Value(der[start..start + i]) % SIZE_T
    {
      var taken := der[start..start + i + 1];
      assert taken[..i] == der[start..start + i];
      ShiftIn(Value(der[start..start + i]), der[start + i]);
      len := (len * 256 + der[start + i]) % SIZE_T;
    }
  }

  method ParseBitString(der: Octets, start: nat) returns (result: SpkiResult)
    ensures result == ReadBitString(der, start)
  {
    hide Value;
    var offset := start;
    if offset >= |der| {
      return Rejected;
    }
    if der[offset] != 0x03 {
      return Rejected;
    }
    offset := offset + 1;
    if offset >= |der| {
      return Rejected;
    }
    var bitStrLen := 0;
    if der[offset] >= 0x80 {
      var numLenBytes := der[offset] - 0x80;
      offset := offset + 1;
      if offset + numLenBytes > |der| {
        return Rejected;
      }
      bitStrLen := ReadLengthOctets(der, offset, numLenBytes);
      offset := offset + numLenBytes;
    } else {
      bitStrLen := der[offset];
      offset := offset + 1;
    }
    if (offset + bitStrLen) % SIZE_T > |der| || bitStrLen < 66 {
      return Rejected;
    }
    if offset >= |der| {
      return OutOfBounds;
    }
    var unusedBits := der[offset];
    offset := offset + 1;
    if unusedBits != 0x00 {
      return Rejected;
    }
    if offset >= |der| {
      return OutOfBounds;
    }
    var pointFormat := der[offset];
    offset := offset + 1;
    if pointFormat != 0x04 {
      return Rejected;
    }
    if offset + 2 * P256_COORDINATE_SIZE > |der| {
      return Rejected;
    }
    return Point(der[offset..offset + 32], der[offset + 32..offset + 64]);
  }

  method ParseSpkiDer(der: Octets) returns (result: SpkiResult)
    ensures result == ParseSpki(der)
  {
    hide ReadBitString, Value;
    if |der| < 30 {
      return Rejected;
    }
    var offset := 0;
    if der[offset] != 0x30 {
      return Rejected;
    }
    offset := offset + 1;
    if der[offset] >= 0x80 {
      var numLenBytes := der[offset] - 0x80;
      offset := offset + 1;
      if offset + numLenBytes > |der| {
        return Rejected;
      }
      offset := offset + numLenBytes;
    } else {
      offset := offset + 1;
    }
    if offset >= |der| || der[offset] != 0x30 {
      return Rejected;
    }
    offset := offset + 1;
    if offset >= |der| {
      return OutOfBounds;
    }
    var algSeqLen := 0;
    if der[offset] >= 0x80 {
      var numLenBytes := der[offset] - 0x80;
      offset := offset + 1;
      if offset + numLenBytes > |der| {
        return Rejected;
      }
      algSeqLen := ReadLengthOctets(der, offset, numLenBytes);
      offset := offset + numLenBytes;
    } else {
      algSeqLen := der[offset];
      offset := offset + 1;
    }
    offset := (offset + algSeqLen) % SIZE_T;
    result := ParseBitString(der, offset);
  }

  /** Definite-form lengths of section 8.1.3 of ITU-T X.690, short or long, leading zeros allowed. */
  predicate DefiniteLength(enc: Octets, v: nat) {
    || (|enc| == 1 && enc[0] < 0x80 && enc[0] == v)
    || (|enc| >= 2 && 0x80 < enc[0] < 0xFF && |enc| == 1 + (enc[0] - 0x80) && Value(enc[1..]) == v)
  }

  datatype Spki = Spki(rootLength: Octets, algorithmLength: Octets, algorithm: Octets, bitLength: Octets, x: Coordinate,
                       y: Coordinate)

  function BitStringPart(k: Spki): Octets {
    [0x03] + (k.bitLength + ([0x00, 0x04] + (k.x + k.y)))
  }

  function SpkiContent(k: Spki): Octets {
    [0x30] + (k.algorithmLength + (k.algorithm + BitStringPart(k)))
  }

  /** Section 2 of RFC 5480: an algorithm identifier and an uncompressed P-256 point. */
  function EncodeSpki(k: Spki): Octets {
    [0x30] + (k.rootLength + SpkiContent(k))
  }

  predicate WellFormedSpki(k: Spki) {
    && DefiniteLength(k.rootLength, |SpkiContent(k)|)
    && DefiniteLength(k.algorithmLength, |k.algorithm|)
    && DefiniteLength(k.bitLength, 66)
    && |EncodeSpki(k)| < SIZE_T
  }

  lemma {:induction false} LengthReadsBack(enc: Octets, v: nat, before: Octets, after: Octets)
    requires DefiniteLength(enc, v) && v < SIZE_T
    ensures ReadLength(before + (enc + after), |before|) == Length(v, |before| + |enc|)
  {
    var der := before + (enc + after);
    assert der[|before|] == enc[0];
    if enc[0] >= 0x80 {
      assert der[|before| + 1..|before| + |enc|] == enc[1..];
    }
  }

  lemma {:induction false} PointReadsBack(before: Octets, x: Coordinate, y: Coordinate)
    ensures ReadPoint(before + ([0x00, 0x04] + (x + y)), |before|) == Point(x, y)
  {
    var der := before + ([0x00, 0x04] + (x + y));
    var n := |before|;
    assert der[n] == 0x00 && der[n + 1] == 0x04;
    assert der[n + 2..n + 34] == x;
    assert der[n + 34..n + 66] == y;
  }

  lemma {:induction false} BitStringSteps(der: Octets, offset: nat, next: nat)
    requires offset + 1 < |der| && der[offset] == 0x03
    requires ReadLength(der, offset + 1) == Length(66, next)
    requires next + 66 <= |der| < SIZE_T && der[next] == 0x00
    ensures ReadBitString(der, offset) == ReadPoint(der, next)
  {
    hide ReadLength, ReadPoint;
    assert (next + 66) % SIZE_T == next + 66;
  }

  lemma {:induction false} BitStringReadsBack(k: Spki, before: Octets)
    requires DefiniteLength(k.bitLength, 66)
    requires |before| + |BitStringPart(k)| < SIZE_T
    ensures ReadBitString(before + BitStringPart(k), |before|) == Point(k.x, k.y)
  {
    hide ReadLength, ReadPoint, ReadBitString;
    var der := before + BitStringPart(k);
    var point := [0x00, 0x04] + (k.x + k.y);
    var tagged := before + [0x03];
    assert der == tagged + (k.bitLength + point);
    LengthReadsBack(k.bitLength, 66, tagged, point);
    assert der == (tagged + k.bitLength) + point;
    PointReadsBack(tagged + k.bitLength, k.x, k.y);
    BitStringSteps(der, |before|, |tagged| + |k.bitLength|);
  }

  lemma {:induction false} RootSkips(rootLength: Octets, v: nat, content: Octets)
    requires DefiniteLength(rootLength, v) && |content| >= 30
    ensures SkipRoot([0x30] + (rootLength + content)) == Some(1 + |rootLength|)
  {
    var der := [0x30] + (rootLength + content);
    assert der[1] == rootLength[0];
  }

  lemma {:induction false} Regroup(root: Octets, tag: Octets, len: Octets, alg: Octets, bits: Octets)
    ensures root + (tag + (len + (alg + bits))) == (root + tag) + (len + (alg + bits))
    ensures root + (tag + (len + (alg + bits))) == (root + tag + len + alg) + bits
  {
  }

  lemma {:induction false} ContentParses(der: Octets, root: Octets, k: Spki)
    requires der == root + SpkiContent(k) && |der| < SIZE_T
    requires DefiniteLength(k.algorithmLength, |k.algorithm|)
    requires DefiniteLength(k.bitLength, 66)
    ensures ReadLength(der, |root| + 1) == Length(|k.algorithm|, |root| + 1 + |k.algorithmLength|)
    ensures ReadBitString(der, |root| + 1 + |k.algorithmLength| + |k.algorithm|) == Point(k.x, k.y)
  {
    hide ReadLength, ReadBitString, DefiniteLength, BitStringPart;
    var bits := BitStringPart(k);
    Regroup(root, [0x30], k.algorithmLength, k.algorithm, bits);
    LengthReadsBack(k.algorithmLength, |k.algorithm|, root + [0x30], k.algorithm + bits);
    BitStringReadsBack(k, root + [0x30] + k.algorithmLength + k.algorithm);
  }

  lemma {:induction false} ParseSteps(der: Octets, root: nat, len: nat, next: nat)
    requires |der| >= 30 && der[0] == 0x30 && SkipRoot(der) == Some(root)
    requires root < |der| && der[root] == 0x30
    requires ReadLength(der, root + 1) == Length(len, next) && next + len < SIZE_T
    ensures ParseSpki(der) == ReadBitString(der, next + len)
  {
    hide ReadLength, ReadBitString, SkipRoot;
    assert (next + len) % SIZE_T == next + len;
  }

  lemma {:induction false} OuterHeader(der: Octets, rootLength: Octets, content: Octets)
    requires DefiniteLength(rootLength, |content|) && |content| >= 30 && content[0] == 0x30
    requires der == [0x30] + (rootLength + content)
    ensures |der| >= 30 && der[0] == 0x30 && SkipRoot(der) == Some(1 + |rootLength|)
    ensures der == ([0x30] + rootLength) + content && der[1 + |rootLength|] == 0x30
  {
    RootSkips(rootLength, |content|, content);
  }

  lemma {:induction false} ContentOpens(k: Spki)
    ensures |SpkiContent(k)| == 68 + |k.algorithmLength| + |k.algorithm| + |k.bitLength| && SpkiContent(k)[0] == 0x30
  {
  }

  /** The parser stays in bounds and returns exactly the point, whatever the lengths' forms. */
  lemma {:induction false} SpkiParses(k: Spki)
    requires WellFormedSpki(k)
    ensures ParseSpki(EncodeSpki(k)) == Point(k.x, k.y)
  {
    hide ReadLength, ReadBitString, DefiniteLength, SkipRoot, ParseSpki, SpkiContent;
    var der := EncodeSpki(k);
    ContentOpens(k);
    OuterHeader(der, k.rootLength, SpkiContent(k));
    ContentParses(der, [0x30] + k.rootLength, k);
    ParseSteps(der, 1 + |k.rootLength|, |k.algorithm|, 2 + |k.rootLength| + |k.algorithmLength|);
  }

  // ---------------------------------------------------------------------------
  // What the parser accepts
  // ---------------------------------------------------------------------------

  /** A length as the parser reads it: short, or any number of octets modulo 2^64. */
  predicate ReadableLength(enc: Octets, v: nat) {
    || (|enc| == 1 && enc[0] < 0x80 && v == enc[0])
    || (|enc| >= 1 && enc[0] >= 0x80 && |enc| == 1 + (enc[0] - 0x80) && v == Value(enc[1..]) % SIZE_T)
  }

  /** `part` stands in `der` from position `i` on. */
  predicate StandsAt(part: Octets, der: Octets, i: nat) {
    i + |part| <= |der| && der[i..i + |part|] == part
  }

  /** The parts the parser finds: root length, algorithm length and value, bit string and its length. */
  datatype Layout = Layout(root: Octets, algorithm: Octets, skip: nat, at: nat, bits: Octets, size: nat)

  /**
    SEQUENCE, SEQUENCE and, as many octets on as the inner length says, a BIT STRING of at least 66
    octets with an uncompressed point. Nothing else is looked at.
    */
  predicate FoundIn(f: Layout, der: Octets, x: Coordinate, y: Coordinate) {
    && |f.root| >= 1 && |f.root| == (if f.root[0] < 0x80 then 1 else 1 + (f.root[0] - 0x80))
    && StandsAt([0x30] + f.root + [0x30] + f.algorithm, der, 0) && ReadableLength(f.algorithm, f.skip)
    && f.at == (2 + |f.root| + |f.algorithm| + f.skip) % SIZE_T
    && StandsAt([0x03] + f.bits + [0x00, 0x04] + x + y, der, f.at) && ReadableLength(f.bits, f.size)
    && f.size >= 66 && (f.at + 1 + |f.bits| + f.size) % SIZE_T <= |der|
  }

  lemma {:induction false} LengthInside(der: Octets, offset: nat)
    ensures ReadLength(der, offset).Length? ==>
            offset < ReadLength(der, offset).next <= |der| && ReadLength(der, offset).value < SIZE_T
    ensures ReadLength(der, offset).Overrun? <==> offset >= |der|
  {
    hide Value;
  }

  lemma {:induction false} LengthReads(der: Octets, i: nat, enc: Octets, v: nat)
    ensures ReadLength(der, i) == Length(v, i + |enc|) && i + |enc| <= |der| && enc == der[i..i + |enc|] <==>
            StandsAt(enc, der, i) && ReadableLength(enc, v)
  {
    hide Value;
    if i + |enc| <= |der| && enc == der[i..i + |enc|] && |enc| >= 1 {
      assert enc[0] == der[i];
      assert enc[1..] == der[i + 1..i + |enc|];
    }
  }

  lemma {:induction false} PointFound(der: Octets, i: nat, x: Coordinate, y: Coordinate)
    ensures ReadPoint(der, i) == Point(x, y) <==> StandsAt([0x00, 0x04] + x + y, der, i)
  {
    var part := [0x00, 0x04] + x + y;
    if i + 66 <= |der| {
      var here := der[i..i + 66];
      assert here == [der[i], der[i + 1]] + der[i + 2..i + 34] + der[i + 34..i + 66];
      if here == part {
        assert here[0] == 0x00 && here[1] == 0x04 && here[2..34] == x && here[34..66] == y;
        assert part[2..34] == x && part[34..66] == y;
      }
    }
  }

  lemma {:induction false} SliceOf(der: Octets, i: nat, part: Octets, a: nat, b: nat)
    requires StandsAt(part, der, i) && a <= b <= |part|
    ensures der[i + a..i + b] == part[a..b]
  {
    forall k | a <= k < b
      ensures der[i + k] == part[k]
    {
      assert der[i..i + |part|][k] == part[k];
    }
  }

  lemma {:induction false} BitStringFound(der: Octets, at: nat, bits: Octets, size: nat, x: Coordinate, y: Coordinate)
    requires StandsAt([0x03] + bits + [0x00, 0x04] + x + y, der, at) && ReadableLength(bits, size)
    requires size >= 66 && (at + 1 + |bits| + size) % SIZE_T <= |der|
    ensures ReadBitString(der, at) == Point(x, y)
  {
    hide ReadPoint, ReadLength, ReadableLength;
    var tail := [0x00, 0x04] + x + y;
    var part, next := [0x03] + bits + tail, at + 1 + |bits|;
    assert part == [0x03] + bits + [0x00, 0x04] + x + y;
    SliceOf(der, at, part, 0, 1);
    SliceOf(der, at, part, 1, 1 + |bits|);
    SliceOf(der, at, part, 1 + |bits|, |part|);
    assert part[0..1] == [0x03] && part[1..1 + |bits|] == bits && part[1 + |bits|..] == tail;
    assert der[at] == der[at..at + 1][0] && der[next] == der[next..next + 66][0];
    LengthReads(der, at + 1, bits, size);
    PointFound(der, next, x, y);
  }

  lemma {:induction false} BitStringHas(der: Octets, at: nat) returns (bits: Octets, size: nat)
    requires ReadBitString(der, at).Point?
    ensures var r := ReadBitString(der, at);
            && StandsAt([0x03] + bits + [0x00, 0x04] + r.x + r.y, der, at) && ReadableLength(bits, size)
            && size >= 66 && (at + 1 + |bits| + size) % SIZE_T <= |der|
  {
    hide ReadPoint, ReadLength, Value;
    var r := ReadBitString(der, at);
    var length := ReadLength(der, at + 1);
    LengthInside(der, at + 1);
    var next := length.next;
    bits, size := der[at + 1..next], length.value;
    LengthReads(der, at + 1, bits, size);
    PointFound(der, next, r.x, r.y);
    var tail := [0x00, 0x04] + r.x + r.y;
    assert der[at..next + 66] == [der[at]] + der[at + 1..next] + der[next..next + 66];
    assert [0x03] + bits + tail == [0x03] + bits + [0x00, 0x04] + r.x + r.y;
  }

  lemma {:induction false} HeadFound(der: Octets, f: Layout)
    requires |f.root| >= 1 && |f.root| == (if f.root[0] < 0x80 then 1 else 1 + (f.root[0] - 0x80))
    requires StandsAt([0x30] + f.root + [0x30] + f.algorithm, der, 0) && ReadableLength(f.algorithm, f.skip)
    requires |der| >= 30
    ensures 1 + |f.root| < |der| && der[0] == 0x30 && SkipRoot(der) == Some(1 + |f.root|) && der[1 + |f.root|] == 0x30
    ensures ReadLength(der, 2 + |f.root|) == Length(f.skip, 2 + |f.root| + |f.algorithm|)
  {
    hide ReadLength, ReadableLength;
    var n := |f.root|;
    var head := [0x30] + f.root + [0x30] + f.algorithm;
    SliceOf(der, 0, head, 2 + n, |head|);
    assert head[0] == 0x30 && head[1] == f.root[0] && head[1 + n] == 0x30 && head[2 + n..] == f.algorithm;
    assert der[0] == der[0..|head|][0] && der[1] == der[0..|head|][1] && der[1 + n] == der[0..|head|][1 + n];
    LengthReads(der, 2 + n, f.algorithm, f.skip);
  }

  lemma {:induction false} LongEnough(der: Octets, f: Layout, x: Coordinate, y: Coordinate)
    requires FoundIn(f, der, x, y)
    ensures |der| >= 30
  {
  }

  lemma {:induction false} LayoutOf(der: Octets) returns (f: Layout)
    requires ParseSpki(der).Point?
    ensures FoundIn(f, der, ParseSpki(der).x, ParseSpki(der).y)
  {
    hide ReadLength, ReadBitString, Value;
    var root := SkipRoot(der).value;
    var length := ReadLength(der, root + 1);
    LengthInside(der, root + 1);
    var next := length.next;
    var at := (next + length.value) % SIZE_T;
    var bits, size := BitStringHas(der, at);
    var algorithm := der[root + 1..next];
    LengthReads(der, root + 1, algorithm, length.value);
    f := Layout(der[1..root], algorithm, length.value, at, bits, size);
    assert der[0..next] == [der[0]] + der[1..root] + [der[root]] + der[root + 1..next];
    assert f.root[0] == der[1];
  }

  /** The parser returns a point exactly if its octets are laid out so in the input. */
  lemma {:induction false} SpkiAcceptedExactly(der: Octets, x: Coordinate, y: Coordinate)
    ensures ParseSpki(der) == Point(x, y) <==> exists f :: FoundIn(f, der, x, y)
  {
    hide ReadLength, ReadBitString, SkipRoot, ReadableLength, StandsAt;
    if exists f :: FoundIn(f, der, x, y) {
      var f :| FoundIn(f, der, x, y);
      LongEnough(der, f, x, y);
      HeadFound(der, f);
      BitStringFound(der, f.at, f.bits, f.size, x, y);
    }
    if ParseSpki(der) == Point(x, y) {
      var f := LayoutOf(der);
      assert FoundIn(f, der, x, y);
    }
  }

  // ---------------------------------------------------------------------------
  // When the parser stays in bounds
  // ---------------------------------------------------------------------------

  /** The algorithm identifier starts with the last octet, so its length is read behind the input. */
  predicate AlgorithmTagIsLast(der: Octets) {
    |der| >= 30 && der[0] == 0x30 && SkipRoot(der) == Some(|der| - 1) && der[|der| - 1] == 0x30
  }

  /** Where the parser looks for the bit string. */
  function BitStringOffset(der: Octets): Option<nat> {
    if |der| < 30 || der[0] != 0x30 then None
    else
      var root := SkipRoot(der);
      if root.None? || root.value >= |der| || der[root.value] != 0x30 then None
      else match ReadLength(der, root.value + 1)
        case Length(algorithm, next) => Some((next + algorithm) % SIZE_T)
        case _ => None
  }

  /** The length of a bit string so large that its end wraps, with its first two octets missing. */
  predicate EndWraps(der: Octets, offset: nat) {
    && offset + 1 < |der| && der[offset] == 0x03
    && var length := ReadLength(der, offset + 1);
       && length.Length?
       && length.value >= 66 && length.next + length.value >= SIZE_T
       && |der| < length.next + 2 && (length.next < |der| ==> der[length.next] == 0x00)
  }

  lemma {:induction false} BitStringOverruns(der: Octets, offset: nat)
    requires |der| < SIZE_T
    ensures ReadBitString(der, offset) == OutOfBounds <==> EndWraps(der, offset)
  {
    hide ReadLength;
    LengthInside(der, offset + 1);
    match ReadLength(der, offset + 1)
    case Length(bits, next) =>
      if next + bits >= SIZE_T {
        assert (next + bits) % SIZE_T == next + bits - SIZE_T;
      }
    case _ =>
  }

  /**
    The parser reads behind its input exactly when the algorithm tag is the last octet, or the
    declared end of the bit string wraps around 2^64 and fewer than two octets follow its length.
    */
  lemma {:induction false} OutOfBoundsExactly(der: Octets)
    requires |der| < SIZE_T
    ensures ParseSpki(der) == OutOfBounds <==>
            AlgorithmTagIsLast(der) || (BitStringOffset(der).Some? && EndWraps(der, BitStringOffset(der).value))
  {
    hide ReadLength, ReadBitString, EndWraps, SkipRoot;
    if |der| >= 30 && der[0] == 0x30 && SkipRoot(der).Some? {
      LengthInside(der, SkipRoot(der).value + 1);
    }
    if BitStringOffset(der).Some? {
      BitStringOverruns(der, BitStringOffset(der).value);
    }
  }

  /** So a key is parsed in bounds if its tag is not last and no bit-string length reaches 2^64 - |der|. */
  lemma {:induction false} ModestLengthsStayInBounds(der: Octets)
    requires |der| < SIZE_T && !AlgorithmTagIsLast(der)
    requires forall i: nat :: ReadLength(der, i).Length? ==> ReadLength(der, i).value < SIZE_T - |der|
    ensures ParseSpki(der) != OutOfBounds
  {
    hide ReadLength;
    OutOfBoundsExactly(der);
    if BitStringOffset(der).Some? {
      LengthInside(der, BitStringOffset(der).value + 1);
    }
  }

  const TAG_LAST: Octets := [0x30, 0x9B] + seq(27, _ => 0) + [0x30]

  function Ones(n: nat): Octets { seq(n, _ => 0xFF) }

  const END_WRAPS: Octets := [0x30, 0x00, 0x30, 0x10] + seq(16, _ => 0) + [0x03, 0x88] + (Ones(7) + [0xF0])

  lemma {:induction false} ValueOfOnes(n: nat)
    ensures Value(Ones(n)) == Pow256(n) - 1
  {
    if n > 0 {
      assert Ones(n)[..n - 1] == Ones(n - 1);
      ValueOfOnes(n - 1);
    }
  }

  /** Both cases occur: 30 octets that end in the tag, and 30 octets with a length of 2^64 - 16. */
  lemma {:induction false} BothOverrunsOccur()
    ensures AlgorithmTagIsLast(TAG_LAST) && ParseSpki(TAG_LAST) == OutOfBounds
    ensures BitStringOffset(END_WRAPS) == Some(20) && EndWraps(END_WRAPS, 20) && ParseSpki(END_WRAPS) == OutOfBounds
  {
    hide ParseSpki;
    OutOfBoundsExactly(TAG_LAST);
    assert END_WRAPS[22..30] == Ones(7) + [0xF0];
    assert (Ones(7) + [0xF0])[..7] == Ones(7);
    ValueOfOnes(7);
    WordSizes();
    assert ReadLength(END_WRAPS, 21) == Length(SIZE_T - 16, 30);
    OutOfBoundsExactly(END_WRAPS);
  }

  // ---------------------------------------------------------------------------
  // Normalization
  // ---------------------------------------------------------------------------

  const BLOB_HEADER: Octets := [0x45, 0x43, 0x53, 0x31, 0x20, 0x00, 0x00, 0x00]

  /** The header constant is the memory image of the magic and of the coordinate size. */
  lemma {:induction false} BlobHeaderImage()
    ensures BLOB_HEADER == LittleEndian(ECDSA_PUBLIC_P256_MAGIC, 4) + LittleEndian(P256_COORDINATE_SIZE, 4)
  {
    assert LittleEndian(ECDSA_PUBLIC_P256_MAGIC, 4) == [0x45, 0x43, 0x53, 0x31];
    assert LittleEndian(P256_COORDINATE_SIZE, 4) == [0x20, 0x00, 0x00, 0x00];
  }

  function Blob(x: Coordinate, y: Coordinate): Octets {
    BLOB_HEADER + x + y
  }

  function NormalizeKey(key: Octets): Option<Octets> {
    if key == [] then None
    else if |key| == ECC_BLOB_SIZE && key[..8] == BLOB_HEADER then Some(key)
    else if |key| == 64 then Some(BLOB_HEADER + key)
    else if |key| == 65 && key[0] == 0x04 then Some(BLOB_HEADER + key[1..])
    else if key[0] == 0x30 && ParseSpki(key).Point? then Some(Blob(ParseSpki(key).x, ParseSpki(key).y))
    else None
  }

  method NormalizePublicKeyToEccBlob(inputKey: Octets) returns (outBlob: Option<Octets>)
    ensures outBlob == NormalizeKey(inputKey)
  {
    if inputKey == [] {
      return None;
    }
    BlobHeaderImage();
    if |inputKey| == ECC_BLOB_SIZE {
      if inputKey[..4] == LittleEndian(ECDSA_PUBLIC_P256_MAGIC, 4) &&
        inputKey[4..8] == LittleEndian(P256_COORDINATE_SIZE, 4) {
        assert inputKey[..8] == inputKey[..4] + inputKey[4..8];
        return Some(inputKey);
      }
      assert inputKey[..8][..4] == inputKey[..4] && inputKey[..8][4..] == inputKey[4..8];
    }
    var header := LittleEndian(ECDSA_PUBLIC_P256_MAGIC, 4) + LittleEndian(P256_COORDINATE_SIZE, 4);
    if |inputKey| == 64 {
      return Some(header + inputKey);
    }
    if |inputKey| == 65 && inputKey[0] == 0x04 {
      return Some(header + inputKey[1..]);
    }
    if inputKey[0] == 0x30 {
      var parsed := ParseSpkiDer(inputKey);
      if parsed.Point? {
        return Some(header + parsed.x + parsed.y);
      }
    }
    return None;
  }

  /** The four accepted encodings of one point normalize to the same 72 octets. */
  lemma {:induction false} FourFormsAgree(k: Spki)
    requires WellFormedSpki(k)
    ensures NormalizeKey(Blob(k.x, k.y)) == Some(Blob(k.x, k.y))
    ensures NormalizeKey(k.x + k.y) == Some(Blob(k.x, k.y))
    ensures NormalizeKey([0x04] + (k.x + k.y)) == Some(Blob(k.x, k.y))
    ensures NormalizeKey(EncodeSpki(k)) == Some(Blob(k.x, k.y))
    ensures |Blob(k.x, k.y)| == ECC_BLOB_SIZE
  {
    var blob := Blob(k.x, k.y);
    assert blob[..8] == BLOB_HEADER;
    assert BLOB_HEADER + (k.x + k.y) == blob;
    assert ([0x04] + (k.x + k.y))[1..] == k.x + k.y;
    SpkiParses(k);
    var der := EncodeSpki(k);
    assert |der| >= 72;
    assert der[0] == 0x30;
    assert der[..8] != BLOB_HEADER by { assert der[..8][0] == 0x30; }
  }

  /** Normalizing twice is normalizing once; every result is a 72-octet blob. */
  lemma {:induction false} NormalizationIdempotent(key: Octets)
    requires NormalizeKey(key).Some?
    ensures |NormalizeKey(key).value| == ECC_BLOB_SIZE
    ensures NormalizeKey(NormalizeKey(key).value) == NormalizeKey(key)
  {
    var blob := NormalizeKey(key).value;
    assert blob[..8] == BLOB_HEADER;
  }

  /** One of the four forms of the point with these coordinates. */
  ghost predicate FormOf(key: Octets, x: Coordinate, y: Coordinate) {
    || key == [0x45, 0x43, 0x53, 0x31, 32, 0, 0, 0] + x + y
    || key == x + y
    || key == [0x04] + x + y
    || exists f :: FoundIn(f, key, x, y)
  }

  lemma {:induction false} SpkiIsLong(key: Octets, x: Coordinate, y: Coordinate)
    requires ParseSpki(key) == Point(x, y)
    ensures |key| >= 68 && key[0] == 0x30
  {
    hide ReadableLength, Value;
    var f := LayoutOf(key);
    assert |[0x03] + f.bits + [0x00, 0x04] + x + y| >= 67;
    assert key[..|[0x30] + f.root + [0x30] + f.algorithm|][0] == 0x30;
  }

  lemma {:induction false} FormNormalizes(key: Octets, x: Coordinate, y: Coordinate)
    requires FormOf(key, x, y)
    ensures NormalizeKey(key) == Some(BLOB_HEADER + x + y)
  {
    hide ParseSpki, FoundIn;
    SpkiAcceptedExactly(key, x, y);
    if key == BLOB_HEADER + x + y {
      assert key[..8] == BLOB_HEADER;
    } else if key == x + y {
      assert BLOB_HEADER + key == BLOB_HEADER + x + y;
    } else if key == [0x04] + x + y {
      assert key[1..] == x + y;
      assert BLOB_HEADER + key[1..] == BLOB_HEADER + x + y;
    } else {
      SpkiIsLong(key, x, y);
      assert |key| == 72 ==> key[..8] != BLOB_HEADER by { assert key[..1] == [0x30]; }
    }
  }

  lemma {:induction false} NormalizedForm(key: Octets) returns (x: Coordinate, y: Coordinate)
    requires NormalizeKey(key).Some?
    ensures FormOf(key, x, y) && NormalizeKey(key).value == BLOB_HEADER + x + y
  {
    hide ParseSpki, FoundIn;
    if |key| == ECC_BLOB_SIZE && key[..8] == BLOB_HEADER {
      x, y := key[8..40], key[40..72];
      assert key == key[..8] + x + y;
    } else if |key| == 64 {
      x, y := key[..32], key[32..];
      assert key == x + y && BLOB_HEADER + key == BLOB_HEADER + x + y;
    } else if |key| == 65 && key[0] == 0x04 {
      x, y := key[1..33], key[33..];
      assert key == [0x04] + x + y && BLOB_HEADER + key[1..] == BLOB_HEADER + x + y;
    } else {
      x, y := ParseSpki(key).x, ParseSpki(key).y;
      SpkiAcceptedExactly(key, x, y);
    }
  }

  /** Normalization accepts exactly these four forms, and gives one blob for each point. */
  lemma {:induction false} NormalizedExactly(key: Octets, blob: Octets)
    ensures NormalizeKey(key) == Some(blob) <==>
            exists x: Coordinate, y: Coordinate ::
              FormOf(key, x, y) && blob == [0x45, 0x43, 0x53, 0x31, 32, 0, 0, 0] + x + y
  {
    hide ParseSpki, FoundIn, FormOf;
    if exists x: Coordinate, y: Coordinate :: FormOf(key, x, y) && blob == BLOB_HEADER + x + y {
      var x: Coordinate, y: Coordinate :| FormOf(key, x, y) && blob == BLOB_HEADER + x + y;
      FormNormalizes(key, x, y);
    }
    if NormalizeKey(key) == Some(blob) {
      var x, y := NormalizedForm(key);
    }
  }

  // ---------------------------------------------------------------------------
  // Signatures
  // ---------------------------------------------------------------------------

  /** A 64-octet r || s with neither half zero. */
  predicate AcceptableSignature(sig: Octets) {
    |sig| == P1363_SIGNATURE_SIZE && Value(sig[..32]) != 0 && Value(sig[32..]) != 0
  }

  lemma {:induction false} ZeroValue(s: Octets)
    ensures Value(s) == 0 <==> forall i :: 0 <= i < |s| ==> s[i] == 0
  {
    if s != [] {
      ZeroValue(s[..|s| - 1]);
      assert s == s[..|s| - 1] + [s[|s| - 1]];
    }
  }

  /** Octet by octet: 64 of them, with one that is not zero among the first 32 and one among the rest. */
  lemma {:induction false} SignatureAcceptedExactly(sig: Octets)
    ensures AcceptableSignature(sig) <==>
            |sig| == 64 && (exists i :: 0 <= i < 32 && sig[i] != 0) && (exists i :: 32 <= i < 64 && sig[i] != 0)
  {
    if |sig| == 64 {
      var r, s := sig[..32], sig[32..];
      ZeroValue(r);
      ZeroValue(s);
      assert forall i :: 0 <= i < 32 ==> r[i] == sig[i] && s[i] == sig[32 + i];
      assert forall i :: 32 <= i < 64 ==> sig[i] == s[i - 32];
    }
  }

  method HasNonZeroOctet(s: Octets) returns (found: bool)
    ensures found <==> Value(s) != 0
  {
    ZeroValue(s);
    found := false;
    for i := 0 to |s|
      invariant !found && forall j :: 0 <= j < i ==> s[j] == 0
    {
      if s[i] != 0 {
        return true;
      }
    }
  }

  method ValidateAndAdaptSignature(signature: Octets) returns (adapted: Option<Octets>)
    ensures adapted == if AcceptableSignature(signature) then Some(signature) else None
  {
    if |signature| != P1363_SIGNATURE_SIZE {
      return None;
    }
    var rNonZero := HasNonZeroOctet(signature[..32]);
    if !rNonZero {
      return None;
    }
    var sNonZero := HasNonZeroOctet(signature[32..]);
    if !sNonZero {
      return None;
    }
    return Some(signature);
  }

  /** What it means for a message to verify under a stored key. */
  predicate Verifies(ecdsa: Ecdsa, key: Octets, msg: SignedMessage, sig: Octets) {
    && NormalizeKey(key).Some?
    && AcceptableSignature(sig)
    && ecdsa(NormalizeKey(key).value, Canonical(msg), sig)
  }

  /** A signature over these octets as they are, under a key in any of its forms. */
  predicate SignedOctets(ecdsa: Ecdsa, key: Octets, octets: Octets, sig: Octets) {
    NormalizeKey(key).Some? && AcceptableSignature(sig) && ecdsa(NormalizeKey(key).value, octets, sig)
  }

  /** What is verified is a signature over the octets that were received. */
  lemma {:induction false} VerifiesReceivedOctets(ecdsa: Ecdsa, key: Octets, received: Octets, msg: SignedMessage,
                                                  sig: Octets)
    requires DecodeMessage(received) == Some(msg)
    ensures Verifies(ecdsa, key, msg, sig) <==> SignedOctets(ecdsa, key, received, sig)
  {
    hide NormalizeKey, AcceptableSignature;
    VerifiedBytesAreTransmittedBytes(received);
  }

  method VerifyCanonicalSignedMessage(ecdsa: Ecdsa, publicKey: Octets, msg: SignedMessage, signature: Octets)
    returns (valid: bool)
    ensures valid == Verifies(ecdsa, publicKey, msg, signature)
  {
    var blob := NormalizePublicKeyToEccBlob(publicKey);
    if blob.None? {
      return false;
    }
    var serialized := SerializeSignedMessage(msg);
    if |serialized| != CANONICAL_SIGNED_MESSAGE_SIZE || |signature| != P1363_SIGNATURE_SIZE {
      return false;
    }
    var adapted := ValidateAndAdaptSignature(signature);
    if adapted.None? {
      return false;
    }
    return ecdsa(blob.value, serialized, adapted.value);
  }
}
