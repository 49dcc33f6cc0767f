/**
  Octets, fixed-width unsigned integers and the two byte orders the protocol code mixes:
  the wire is big-endian, the memory image of a host integer is little-endian.
  */
module Bytes {

  datatype Option<+T> = None | Some(value: T)

  type Byte = b: int | 0 <= b < 0x100
  type U16 = v: int | 0 <= v < 0x1_0000
  type U32 = v: int | 0 <= v < 0x1_0000_0000
  type U64 = v: int | 0 <= v < 0x1_0000_0000_0000_0000
  type Octets = seq<Byte>

  function Pow256(n: nat): (p: nat)
    ensures p >= 1
  {
    if n == 0 then 1 else 256 * Pow256(n - 1)
  }

  /** Unsigned value of a big-endian octet string. */
  function Value(s: Octets): nat {
    if s == [] then 0 else 256 * Value(s[..|s| - 1]) + s[|s| - 1]
  }

  /** The `n` low-order octets of `v`, most significant first. */
  function BigEndian(v: nat, n: nat): (s: Octets)
    ensures |s| == n
  {
    if n == 0 then [] else BigEndian(v / 256, n - 1) + [v % 256]
  }

  /** The memory image of `v` as an `n`-octet integer on a little-endian host. */
  function LittleEndian(v: nat, n: nat): (s: Octets)
    ensures |s| == n
  {
    if n == 0 then [] else [v % 256] + LittleEndian(v / 256, n - 1)
  }

  /** The integer a little-endian host reads from a memory image. */
  function LoadLittleEndian(s: Octets): nat {
    if s == [] then 0 else s[0] + 256 * LoadLittleEndian(s[1..])
  }

  /** The byte-swap intrinsic: the memory image of `v`, read with the opposite order. */
  function Swap(v: nat, n: nat): nat {
    Value(LittleEndian(v, n))
  }

  lemma {:induction false} ValueBound(s: Octets)
    ensures Value(s) < Pow256(|s|)
  {
    if s != [] {
      ValueBound(s[..|s| - 1]);
    }
  }

  lemma {:induction false} ValueOfBigEndian(v: nat, n: nat)
    requires v < Pow256(n)
    ensures Value(BigEndian(v, n)) == v
  {
    if n > 0 {
      ValueOfBigEndian(v / 256, n - 1);
      assert BigEndian(v, n)[..n - 1] == BigEndian(v / 256, n - 1);
    }
  }

  lemma {:induction false} BigEndianOfValue(s: Octets)
    ensures BigEndian(Value(s), |s|) == s
  {
    if s != [] {
      BigEndianOfValue(s[..|s| - 1]);
    }
  }

  lemma {:induction false} SameLengthSameValue(a: Octets, b: Octets)
    requires |a| == |b| && Value(a) == Value(b)
    ensures a == b
  {
    BigEndianOfValue(a);
    BigEndianOfValue(b);
  }

  lemma {:induction false} Distribute(b: nat, p: nat)
    ensures 256 * (b * p) == b * (256 * p)
  {
  }

  lemma {:induction false} ValuePrepend(b: Byte, s: Octets)
    ensures Value([b] + s) == b * Pow256(|s|) + Value(s)
  {
    if s == [] {
      assert ([b] + s)[..0] == [];
    } else {
      var t := [b] + s;
      assert t[..|t| - 1] == [b] + s[..|s| - 1];
      ValuePrepend(b, s[..|s| - 1]);
      Distribute(b, Pow256(|s| - 1));
    }
  }

  /** Octets in front whose value is zero do not change the value. */
  lemma {:induction false} LeadingZero(s: Octets)
    ensures Value([0] + s) == Value(s)
  {
    ValuePrepend(0, s);
  }

  lemma {:induction false} LeadingZeros(n: nat, s: Octets)
    ensures Value(seq(n, _ => 0) + s) == Value(s)
  {
    if n == 0 {
      assert seq(n, _ => 0) + s == s;
    } else {
      assert seq(n, _ => 0) + s == [0] + (seq(n - 1, _ => 0) + s);
      LeadingZeros(n - 1, s);
      LeadingZero(seq(n - 1, _ => 0) + s);
    }
  }

  lemma {:induction false} AtLeastOnce(k: nat, m: nat)
    requires k >= 1
    ensures k * m >= m
  {
    assert k * m == m + (k - 1) * m;
  }

  /** A non-zero first octet forces the value up to the length. */
  lemma {:induction false} NonZeroHead(s: Octets)
    requires s != [] && s[0] != 0
    ensures Value(s) >= Pow256(|s| - 1)
  {
    assert s == [s[0]] + s[1..];
    ValuePrepend(s[0], s[1..]);
    AtLeastOnce(s[0], Pow256(|s| - 1));
  }

  lemma {:induction false} Pow256Monotone(m: nat, n: nat)
    requires m <= n
    ensures Pow256(m) <= Pow256(n)
    decreases n - m
  {
    if m < n {
      Pow256Monotone(m, n - 1);
    }
  }

  function Reversed(s: Octets): (r: Octets)
    ensures |r| == |s|
  {
    if s == [] then [] else Reversed(s[1..]) + [s[0]]
  }

  lemma {:induction false} ReversedConcat(a: Octets, b: Octets)
    ensures Reversed(a + b) == Reversed(b) + Reversed(a)
  {
    if a == [] {
      assert a + b == b;
    } else {
      assert (a + b)[1..] == a[1..] + b;
      ReversedConcat(a[1..], b);
    }
  }

  lemma {:induction false} ReversedTwice(s: Octets)
    ensures Reversed(Reversed(s)) == s
  {
    if s != [] {
      ReversedConcat(Reversed(s[1..]), [s[0]]);
      ReversedTwice(s[1..]);
      assert Reversed([s[0]]) == [s[0]];
    }
  }

  lemma {:induction false} ByteOrdersMirror(v: nat, n: nat)
    ensures LittleEndian(v, n) == Reversed(BigEndian(v, n))
  {
    if n > 0 {
      ByteOrdersMirror(v / 256, n - 1);
      ReversedConcat(BigEndian(v / 256, n - 1), [v % 256]);
      assert Reversed([v % 256]) == [v % 256];
    }
  }

  lemma {:induction false} LoadMirrors(s: Octets)
    ensures LoadLittleEndian(s) == Value(Reversed(s))
  {
    if s != [] {
      LoadMirrors(s[1..]);
      var r := Reversed(s);
      assert r[..|r| - 1] == Reversed(s[1..]);
    }
  }

  /** Storing a swapped integer on a little-endian host writes the big-endian form. */
  lemma {:induction false} StoreSwapped(v: nat, n: nat)
    ensures LittleEndian(Swap(v, n), n) == BigEndian(v, n)
  {
    var image := LittleEndian(v, n);
    ByteOrdersMirror(Value(image), n);
    BigEndianOfValue(image);
    ByteOrdersMirror(v, n);
    ReversedTwice(BigEndian(v, n));
  }

  /** Loading wire octets on a little-endian host and swapping yields the big-endian value. */
  lemma {:induction false} LoadSwapped(s: Octets)
    ensures Swap(LoadLittleEndian(s), |s|) == Value(s)
  {
    var r := Reversed(s);
    LoadMirrors(s);
    ByteOrdersMirror(Value(r), |s|);
    BigEndianOfValue(r);
    ReversedTwice(s);
  }

  lemma {:induction false} WordSizes()
    ensures Pow256(2) == 0x1_0000
    ensures Pow256(4) == 0x1_0000_0000
    ensures Pow256(8) == 0x1_0000_0000_0000_0000
  {
    assert Pow256(4) == 256 * (256 * Pow256(2));
    assert Pow256(8) == 256 * (256 * (256 * (256 * Pow256(4))));
  }

  /** A fixed-width field survives being written and read back. */
  lemma {:induction false} FieldRoundTrip(v: nat, n: nat)
    requires (n == 2 && v < 0x1_0000) || (n == 4 && v < 0x1_0000_0000)
          || (n == 8 && v < 0x1_0000_0000_0000_0000)
    ensures Value(BigEndian(v, n)) == v
  {
    WordSizes();
    ValueOfBigEndian(v, n);
  }

  function ReadU16(s: Octets): (v: U16)
    requires |s| == 2
  {
    WordSizes(); ValueBound(s); Value(s)
  }

  function ReadU32(s: Octets): (v: U32)
    requires |s| == 4
  {
    WordSizes(); ValueBound(s); Value(s)
  }

  function ReadU64(s: Octets): (v: U64)
    requires |s| == 8
  {
    WordSizes(); ValueBound(s); Value(s)
  }
}
