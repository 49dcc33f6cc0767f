/** The six-digit short authentication string shown during pairing. */
module SasPins {
  import opened Bytes

  const SAS_PIN_LENGTH := 6
  const SAS_MAX_ATTEMPTS := 3
  const SAS_EXPIRY_SECONDS := 60
  const UNITS_PER_SECOND := 10_000_000  // FILETIME counts 100 ns intervals
  const PIN_RANGE := 1_000_000
  const REJECTION_LIMIT := 0xFFFF_FFFF / PIN_RANGE * PIN_RANGE
  const MAX_REDRAWS := 32

  type FileTime = U64

  predicate IsDigit(c: char) { '0' <= c <= '9' }

  /** Six decimal digits and nothing else. */
  predicate WellFormedPin(pin: string) {
    |pin| == SAS_PIN_LENGTH && forall i :: 0 <= i < |pin| ==> IsDigit(pin[i])
  }

  /** "%0nu": the n low-order decimal digits. */
  function Digits(v: nat, n: nat): (t: string)
    ensures |t| == n
    ensures forall i :: 0 <= i < n ==> IsDigit(t[i])
  {
    if n == 0 then "" else Digits(v / 10, n - 1) + ['0' + (v % 10) as char]
  }

  function DecimalValue(t: string): nat
    requires forall i :: 0 <= i < |t| ==> IsDigit(t[i])
  {
    if t == "" then 0
    else
      assert IsDigit(t[|t| - 1]);
      10 * DecimalValue(t[..|t| - 1]) + (t[|t| - 1] as int - '0' as int)
  }

  function Pow10(n: nat): (p: nat)
    ensures p >= 1
  {
    if n == 0 then 1 else 10 * Pow10(n - 1)
  }

  lemma {:induction false} DigitsDecode(v: nat, n: nat)
    requires v < Pow10(n)
    ensures DecimalValue(Digits(v, n)) == v
  {
    if n > 0 {
      DigitsDecode(v / 10, n - 1);
      assert Digits(v, n)[..n - 1] == Digits(v / 10, n - 1);
    }
  }

  lemma {:induction false} DigitsOfDecimal(t: string)
    requires forall i :: 0 <= i < |t| ==> IsDigit(t[i])
    ensures Digits(DecimalValue(t), |t|) == t
    ensures DecimalValue(t) < Pow10(|t|)
  {
    if t != "" {
      DigitsOfDecimal(t[..|t| - 1]);
    }
  }

  /** The draw that is used: the first one below the limit, or the last of 1 + 32. */
  function Accepted(draws: seq<U32>, i: nat): U32
    requires |draws| == MAX_REDRAWS + 1 && i <= MAX_REDRAWS
    decreases MAX_REDRAWS - i
  {
    if draws[i] >= REJECTION_LIMIT && i < MAX_REDRAWS then Accepted(draws, i + 1) else draws[i]
  }

  /** Printed PIN; no draws means that the random source could not be loaded. */
  function PinFor(draws: Option<seq<U32>>): string
    requires draws.Some? ==> |draws.value| == MAX_REDRAWS + 1
  {
    if draws.None? then "" else Digits(Accepted(draws.value, 0) % PIN_RANGE, SAS_PIN_LENGTH)
  }

  method GenerateSasPin(draws: Option<seq<U32>>) returns (pin: string)
    requires draws.Some? ==> |draws.value| == MAX_REDRAWS + 1
    ensures pin == PinFor(draws)
  {
    if draws.None? {
      return "";
    }
    var randomVal := draws.value[0];
    var iterations := 0;
    while randomVal >= REJECTION_LIMIT && iterations < MAX_REDRAWS
      invariant iterations <= MAX_REDRAWS
      invariant randomVal == draws.value[iterations]
      invariant Accepted(draws.value, 0) == Accepted(draws.value, iterations)
      decreases MAX_REDRAWS - iterations
    {
      iterations := iterations + 1;
      randomVal := draws.value[iterations];
    }
    pin := Digits(randomVal % PIN_RANGE, SAS_PIN_LENGTH);
  }

  /** A printed PIN is well-formed and decodes to the residue of the accepted draw. */
  lemma {:induction false} PinDecodes(draws: seq<U32>)
    requires |draws| == MAX_REDRAWS + 1
    ensures WellFormedPin(PinFor(Some(draws)))
    ensures DecimalValue(PinFor(Some(draws))) == Accepted(draws, 0) % PIN_RANGE
  {
    assert Pow10(6) == 10 * (10 * (10 * (10 * (10 * (10 * Pow10(0))))));
    DigitsDecode(Accepted(draws, 0) % PIN_RANGE, SAS_PIN_LENGTH);
  }

  lemma {:induction false} AcceptedFrom(draws: seq<U32>, i: nat) returns (k: nat)
    requires |draws| == MAX_REDRAWS + 1 && i <= MAX_REDRAWS
    ensures i <= k <= MAX_REDRAWS && Accepted(draws, i) == draws[k]
    ensures (forall j :: i <= j < k ==> draws[j] >= REJECTION_LIMIT) && (draws[k] < REJECTION_LIMIT || k == MAX_REDRAWS)
    decreases MAX_REDRAWS - i
  {
    if draws[i] >= REJECTION_LIMIT && i < MAX_REDRAWS {
      k := AcceptedFrom(draws, i + 1);
    } else {
      k := i;
    }
  }

  /** The PIN is the residue of the first of 33 draws below 4294000000, or of the last if none is. */
  lemma {:induction false} PinOfFirstAcceptable(draws: seq<U32>) returns (k: nat)
    requires |draws| == 33
    ensures k < 33 && (forall j :: 0 <= j < k ==> draws[j] >= 4_294_000_000) && (draws[k] < 4_294_000_000 || k == 32)
    ensures WellFormedPin(PinFor(Some(draws))) && DecimalValue(PinFor(Some(draws))) == draws[k] % 1_000_000
  {
    k := AcceptedFrom(draws, 0);
    PinDecodes(draws);
  }

  /** The draws below the limit that print as `pin`. */
  ghost function DrawsFor(pin: string, limit: nat): set<int> {
    set v: int | 0 <= v < limit && Digits(v % PIN_RANGE, SAS_PIN_LENGTH) == pin
  }

  lemma {:induction false} ResidueCount(r: nat, k: nat)
    requires r < PIN_RANGE
    ensures |set v: int | 0 <= v < k * PIN_RANGE && v % PIN_RANGE == r| == k
  {
    var s := set v: int | 0 <= v < k * PIN_RANGE && v % PIN_RANGE == r;
    if k == 0 {
      assert s == {};
    } else {
      ResidueCount(r, k - 1);
      var t := set v: int | 0 <= v < (k - 1) * PIN_RANGE && v % PIN_RANGE == r;
      var top := (k - 1) * PIN_RANGE + r;
      assert s == t + {top};
      assert top !in t;
    }
  }

  /** No modulo bias: every well-formed PIN is printed by exactly 4294 of the accepted draws. */
  lemma {:induction false} PinsAreUniform(pin: string)
    requires WellFormedPin(pin)
    ensures |DrawsFor(pin, REJECTION_LIMIT)| == 4294
  {
    var r := DecimalValue(pin);
    DigitsOfDecimal(pin);
    assert Pow10(6) == 10 * (10 * (10 * (10 * (10 * (10 * Pow10(0))))));
    ResidueCount(r, 4294);
    forall v: int | 0 <= v < REJECTION_LIMIT
      ensures Digits(v % PIN_RANGE, SAS_PIN_LENGTH) == pin <==> v % PIN_RANGE == r
    {
      DigitsDecode(v % PIN_RANGE, SAS_PIN_LENGTH);
    }
    assert DrawsFor(pin, REJECTION_LIMIT) == set v: int | 0 <= v < 4294 * PIN_RANGE && v % PIN_RANGE == r;
  }

  predicate SasPinExpired(generatedAt: FileTime, now: FileTime) {
    now < generatedAt || now - generatedAt > SAS_EXPIRY_SECONDS * UNITS_PER_SECOND
  }

  /** What validation decides: the exact PIN, in time, with attempts left. */
  predicate PinAccepted(candidate: string, stored: string, generatedAt: FileTime, now: FileTime, attempts: nat) {
    && attempts < SAS_MAX_ATTEMPTS
    && generatedAt <= now <= generatedAt + SAS_EXPIRY_SECONDS * UNITS_PER_SECOND
    && WellFormedPin(candidate)
    && candidate == stored
  }

  method IsValidPinFormat(pin: string) returns (ok: bool)
    ensures ok == WellFormedPin(pin)
  {
    if |pin| != SAS_PIN_LENGTH {
      return false;
    }
    for i := 0 to |pin|
      invariant forall j :: 0 <= j < i ==> IsDigit(pin[j])
    {
      if pin[i] < '0' || pin[i] > '9' {
        return false;
      }
    }
    return true;
  }

  /** Exclusive or of the n low-order bits. */
  function Xor(a: nat, b: nat, n: nat): nat {
    if n == 0 then 0 else (a + b) % 2 + 2 * Xor(a / 2, b / 2, n - 1)
  }

  /** Inclusive or of the n low-order bits. */
  function Or(a: nat, b: nat, n: nat): nat {
    if n == 0 then 0 else (if a % 2 + b % 2 == 0 then 0 else 1) + 2 * Or(a / 2, b / 2, n - 1)
  }

  function Pow2(n: nat): nat {
    if n == 0 then 1 else 2 * Pow2(n - 1)
  }

  lemma {:induction false} LowBitOf(half: nat, bit: nat)
    requires bit < 2
    ensures (2 * half + bit) % 2 == bit
  {
  }

  lemma {:induction false} LowBit(a: nat, b: nat)
    ensures (a + b) % 2 == 0 <==> a % 2 == b % 2
    ensures a == b <==> a / 2 == b / 2 && a % 2 == b % 2
  {
    var i, j := a / 2, b / 2;
    var c, d := a - 2 * i, b - 2 * j;
    assert a == 2 * i + c && b == 2 * j + d && c in {0, 1} && d in {0, 1};
    LowBitOf(i, c);
    LowBitOf(j, d);
    if c != d {
      LowBitOf(i + j, 1);
    } else {
      LowBitOf(i + j + c, 0);
    }
  }

  lemma {:induction false} XorZero(a: nat, b: nat, n: nat)
    requires a < Pow2(n) && b < Pow2(n)
    ensures Xor(a, b, n) == 0 <==> a == b
    ensures Xor(a, b, n) < Pow2(n)
  {
    if n == 0 {
      assert a == b == 0;
    } else {
      XorZero(a / 2, b / 2, n - 1);
      LowBit(a, b);
    }
  }

  lemma {:induction false} OrZero(a: nat, b: nat, n: nat)
    requires a < Pow2(n) && b < Pow2(n)
    ensures Or(a, b, n) == 0 <==> a == 0 && b == 0
    ensures Or(a, b, n) < Pow2(n)
  {
    if n == 0 {
      assert a == b == 0;
    } else {
      OrZero(a / 2, b / 2, n - 1);
    }
  }

  lemma {:induction false} OctetRange()
    ensures Pow2(8) == 256
  {
    assert Pow2(4) == 16;
  }

  /**
    The comparison never leaves its loop early: it ors together the xor of every pair of
    characters. Characters of the stored PIN are octets of a std::string.
    */
  method ValidateSasPin(candidate: string, stored: string, generatedAt: FileTime, now: FileTime, attempts: nat)
    returns (ok: bool)
    requires forall i :: 0 <= i < |stored| ==> stored[i] as int < 256
    ensures ok == PinAccepted(candidate, stored, generatedAt, now, attempts)
  {
    if attempts >= SAS_MAX_ATTEMPTS {
      return false;
    }
    if SasPinExpired(generatedAt, now) {
      return false;
    }
    var format := IsValidPinFormat(candidate);
    if !format {
      return false;
    }
    if |stored| != SAS_PIN_LENGTH {
      return false;
    }
    var diff := 0;
    OctetRange();
    for i := 0 to SAS_PIN_LENGTH
      invariant 0 <= diff < 256
      invariant diff == 0 <==> candidate[..i] == stored[..i]
    {
      var x := Xor(candidate[i] as int, stored[i] as int, 8);
      XorZero(candidate[i] as int, stored[i] as int, 8);
      OrZero(diff, x, 8);
      diff := Or(diff, x, 8);
      assert candidate[..i + 1] == candidate[..i] + [candidate[i]];
      assert stored[..i + 1] == stored[..i] + [stored[i]];
    }
    assert candidate[..SAS_PIN_LENGTH] == candidate && stored[..SAS_PIN_LENGTH] == stored;
    return diff == 0;
  }
}
