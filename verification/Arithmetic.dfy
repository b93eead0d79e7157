/** The arithmetic of the executing backend, and what it computes. */
module Arithmetic {
  import opened Words

  function Signed(a: Word): int {
    if a < 0x8000_0000 then a else a - TWO32
  }

  /** The word whose two's-complement value is x modulo 2^32. */
  function FromInt(x: int): Word {
    x % TWO32
  }

  function Add(a: Word, b: Word): Word {
    (a + b) % TWO32
  }

  function Neg(a: Word): Word {
    FromInt(-Signed(a))
  }

  function Mul(a: Word, b: Word): Word {
    FromInt(a * b)
  }

  function MulHighSigned(a: Word, b: Word): Word {
    FromInt(Signed(a) * Signed(b) / TWO32)
  }

  function MulHighUnsigned(a: Word, b: Word): Word {
    FromInt(a * b / TWO32)
  }

  /** C++ division of signed values rounds toward zero. */
  function TruncDiv(a: int, b: int): int
    requires b != 0
  {
    if a >= 0 then a / b else -((-a) / b)
  }

  predicate CarryAdd(a: Word, b: Word) {
    Add(a, b) < a
  }

  predicate Carry3(a: Word, b: Word, c: Word) {
    Add(a, b) < a || Add(Add(a, b), c) < c
  }

  function Shl(a: Word, sh: Word): Word {
    var s := sh % 64;
    if s > 31 then 0 else ShiftLeft(a, s) % TWO32
  }

  function Shr(a: Word, sh: Word): Word {
    var s := sh % 64;
    if s > 31 then 0 else ShiftRight(a, s)
  }

  /** A shift by 32 (n = 0) contributes nothing, so rotation by 0 is the identity. */
  function Rotl(a: Word, n: Word): Word {
    var k := n % 32;
    Logic(Or, ShiftLeft(a, k) % TWO32, ShiftRight(a, 32 - k))
  }

  function Mask(mb: nat, me: nat): Word
    requires mb < 32 && me < 32
  {
    Pow2Values();
    if mb <= me then
      if me - mb == 31 then TWO32 - 1 else ShiftLeft(Ones(me - mb + 1), 31 - me) % TWO32
    else
      OnesValue(32 - mb + me + 1);
      Pow2AtMost32(32 - mb + me + 1);
      var m: Word := Ones(32 - mb + me + 1);
      var n := 31 - me;
      Logic(Or, ShiftLeft(m, n) % TWO32, ShiftRight(m, 32 - n))
  }

  lemma {:induction false} Pow2AtMost32(n: nat)
    requires n <= 32
    ensures Pow2(n) <= TWO32
    decreases 32 - n
  {
    Pow2Values();
    if n < 32 {
      Pow2AtMost32(n + 1);
    }
  }

  function ExtendSignByte(a: Word): Word {
    if BitAt(a, 7) then Logic(Or, a, 0xffff_ff00) else a % 0x100
  }

  function ExtendSignHalf(a: Word): Word {
    if BitAt(a, 15) then Logic(Or, a, 0xffff_0000) else a % 0x1_0000
  }

  // ------------------------------------------------- arithmetic right shift

  /** Value and carry of sraw: the floor of the signed value over 2^s, and
      whether a negative operand loses a one bit. */
  function SrawValue(a: Word, sh: Word): Word {
    FromInt(Signed(a) / Pow2(sh % 64))
  }

  predicate SrawCarry(a: Word, sh: Word) {
    Signed(a) < 0 && Signed(a) % Pow2(sh % 64) != 0
  }

  lemma {:induction false} HalfOfQuotient(x: int, i: nat)
    ensures x / Pow2(i + 1) == (x / Pow2(i)) / 2
    ensures x % Pow2(i + 1) == 0 <==> x % Pow2(i) == 0 && (x / Pow2(i)) % 2 == 0
  {
    var p := Pow2(i);
    var q := x / p;
    var rest := x % p + (if q % 2 == 0 then 0 else p);
    assert Pow2(i + 1) == 2 * p;
    hide Pow2;
    TwiceTheDivisor(q, p);
    Unique(x, 2 * p, q / 2, rest);
  }

  lemma {:induction false} TwiceTheDivisor(q: int, p: int)
    ensures q * p == q / 2 * (2 * p) + (if q % 2 == 0 then 0 else p)
  {
    var h, b := q / 2, q % 2;
    OddOrEven(h, b, p);
    assert q == 2 * h + b;
  }

  lemma {:induction false} OddOrEven(h: int, b: int, p: int)
    requires b == 0 || b == 1
    ensures (2 * h + b) * p == h * (2 * p) + (if b == 0 then 0 else p)
  {
  }

  lemma {:induction false} NextMultiple(p: int, q: int, d: int)
    requires p < q && d >= 0
    ensures p * d + d <= q * d
  {
    var k := q - p - 1;
    assert q == p + 1 + k;
    Distribute(p + 1, k, d);
    Distribute(p, 1, d);
    assert k * d >= 0;
  }

  lemma {:induction false} Distribute(x: int, y: int, d: int)
    ensures (x + y) * d == x * d + y * d
  {
  }

  lemma {:induction false} Unique(x: int, d: int, q: int, r: int)
    requires d > 0 && 0 <= r < d && x == q * d + r
    ensures x / d == q && x % d == r
  {
    var p := x / d;
    assert x == p * d + x % d;
    if q < p {
      NextMultiple(q, p, d);
    } else if p < q {
      NextMultiple(p, q, d);
    }
  }

  lemma {:induction false} SameRest(x: int, q: int, m: int)
    requires m > 0
    ensures (x + q * m) % m == x % m
  {
    Unique(x + q * m, m, x / m + q, x % m);
  }

  /** Dividing by twice p is dividing the half by p. */
  lemma {:induction false} HalfFirst(x: nat, p: nat)
    requires p > 0
    ensures x / (2 * p) == x / 2 / p && x % (2 * p) == 2 * (x / 2 % p) + x % 2
  {
    var q, r := x / 2 / p, x / 2 % p;
    QuotientAndRest(x / 2, p);
    assert x == 2 * (x / 2) + x % 2;
    TwiceProduct(q, p);
    Unique(x, 2 * p, q, 2 * r + x % 2);
  }

  lemma {:induction false} QuotientAndRest(x: int, p: int)
    requires p > 0
    ensures x == x / p * p + x % p && 0 <= x % p < p
  {
  }

  lemma {:induction false} TwiceProduct(q: int, p: int)
    ensures 2 * (q * p) == q * (2 * p)
  {
  }

  lemma {:induction false} SmallQuotient(x: nat, s: nat)
    ensures x / Pow2(s) == ShiftRight(x, s)
  {
    if s > 0 {
      SmallQuotient(x / 2, s - 1);
      HalfFirst(x, Pow2(s - 1));
    }
  }

  lemma {:induction false} ShiftedOut(x: nat, s: nat)
    requires x < Pow2(s)
    ensures ShiftRight(x, s) == 0
  {
    if s > 0 {
      ShiftedOut(x / 2, s - 1);
    }
  }

  /** After i turns: the quotient by 2^i, and whether a one bit was lost. */
  ghost predicate Shifted(a: Word, i: nat, r: Word, carry: bool) {
    r >= 0x8000_0000 && Signed(r) == Signed(a) / Pow2(i) && (carry <==> Signed(a) % Pow2(i) != 0)
  }

  /** One turn of the loop: the sign bit stays, the quotient halves. */
  lemma {:induction false} SrawStep(a: Word, i: nat, r: Word, carry: bool)
    requires Shifted(a, i, r, carry)
    ensures Shifted(a, i + 1, r / 2 + 0x8000_0000, carry || r % 2 == 1)
  {
    HalfOfQuotient(Signed(a), i);
    assert Signed(r) / 2 == r / 2 + 0x8000_0000 - TWO32;
    assert Signed(r) % 2 == r % 2;
  }

  lemma {:induction false} SrawEnd(a: Word, sh: Word, r: Word, carry: bool)
    requires a >= 0x8000_0000 && Shifted(a, sh % 64, r, carry)
    ensures r == SrawValue(a, sh) && carry == SrawCarry(a, sh)
  {
    hide Pow2;
  }

  lemma {:induction false} SrawPositive(a: Word, s: nat)
    requires a < 0x8000_0000 && s < 64
    ensures SrawValue(a, s) == if s > 31 then 0 else ShiftRight(a, s)
  {
    hide Pow2, ShiftRight;
    SmallQuotient(a, s);
    if s > 31 {
      assert a < Pow2(s) by {
        Pow2Values();
        Pow2Monotone(31, s);
      }
      ShiftedOut(a, s);
    }
    var q := ShiftRight(a, s);
    assert s % 64 == s && q <= a;
  }

  method Sraw(a: Word, sh: Word) returns (r: Word, carry: bool)
    ensures r == SrawValue(a, sh)
    ensures carry == SrawCarry(a, sh)
  {
    hide SrawValue, Shifted;
    var s := sh % 64;
    carry := false;
    if a >= 0x8000_0000 {
      r := a;
      var i := 0;
      SrawStart(a);
      while i < s
        invariant 0 <= i <= s && Shifted(a, i, r, carry)
      {
        SrawStep(a, i, r, carry);
        if r % 2 == 1 {
          carry := true;
        }
        r := r / 2 + 0x8000_0000;
        i := i + 1;
      }
      SrawEnd(a, sh, r, carry);
    } else {
      SrawPositive(a, s);
      SameCount(a, sh);
      r := if s > 31 then 0 else ShiftRight(a, s);
    }
  }

  lemma {:induction false} SrawStart(a: Word)
    requires a >= 0x8000_0000
    ensures Shifted(a, 0, a, false)
  {
  }

  lemma {:induction false} SameCount(a: Word, sh: Word)
    ensures SrawValue(a, sh) == SrawValue(a, sh % 64)
  {
    assert sh % 64 % 64 == sh % 64;
  }

  // ---------------------------------------------------- count leading zeros

  /** The number of zero bits before the first one bit. */
  function LeadingZeros(v: Word, n: nat): (r: nat)
    requires n <= 32
    ensures n <= r <= 32
    ensures r < 32 ==> BitAt(v, 31 - r)
    ensures forall j: nat | 31 - r < j <= 31 - n :: !BitAt(v, j)
    decreases 32 - n
  {
    if n == 32 || BitAt(v, 31 - n) then n else LeadingZeros(v, n + 1)
  }

  method Cntlzw(v: Word) returns (n: nat)
    ensures n == LeadingZeros(v, 0)
  {
    n := 0;
    var x := 31;
    while !BitAt(v, x)
      invariant 0 <= n < 32 && x == 31 - n
      invariant LeadingZeros(v, n) == LeadingZeros(v, 0)
      decreases 32 - n
    {
      n := n + 1;
      if n == 32 {
        break;
      }
      x := x - 1;
    }
  }

  // ----------------------------------------------------------------- carries

  lemma {:induction false} CarriesAreExact(a: Word, b: Word, c: Word)
    ensures CarryAdd(a, b) <==> a + b >= TWO32
    ensures Carry3(a, b, c) <==> a + b + c >= TWO32
  {
  }

  /** addc and adde: result and carry out. */
  function Addc(a: Word, b: Word): (Word, bool) {
    (Add(a, b), CarryAdd(a, b))
  }

  function Adde(a: Word, b: Word, ca: bool): (Word, bool) {
    var c := Bit(ca);
    (Add(Add(a, b), c), Carry3(a, b, c))
  }

  /** subfc and subfe compute b - a through the complement of a. */
  function Subfc(a: Word, b: Word): (Word, bool) {
    (Add(Add(Complement(a), b), 1), Carry3(Complement(a), b, 1))
  }

  function Subfe(a: Word, b: Word, ca: bool): (Word, bool) {
    var c := Bit(ca);
    (Add(Add(Complement(a), b), c), Carry3(Complement(a), b, c))
  }

  /** The value of a multiword number, least significant limb first. */
  function Value(limbs: seq<Word>): nat {
    if limbs == [] then 0 else limbs[0] + TWO32 * Value(limbs[1..])
  }

  function Radix(n: nat): nat {
    if n == 0 then 1 else TWO32 * Radix(n - 1)
  }

  /** The tail of a multiword addition: adde on every limb. */
  function AddTail(a: seq<Word>, b: seq<Word>, ca: bool): (r: (seq<Word>, bool))
    requires |a| == |b|
    ensures |r.0| == |a|
  {
    if a == [] then ([], ca)
    else
      var (v, c) := Adde(a[0], b[0], ca);
      var (vs, out) := AddTail(a[1..], b[1..], c);
      ([v] + vs, out)
  }

  /** A multiword addition: addc on the lowest limb, adde on the others. */
  function AddLimbs(a: seq<Word>, b: seq<Word>): (r: (seq<Word>, bool))
    requires |a| == |b| > 0
    ensures |r.0| == |a|
  {
    var (v, c) := Addc(a[0], b[0]);
    var (vs, out) := AddTail(a[1..], b[1..], c);
    ([v] + vs, out)
  }

  function SubTail(a: seq<Word>, b: seq<Word>, ca: bool): (r: (seq<Word>, bool))
    requires |a| == |b|
    ensures |r.0| == |a|
  {
    if a == [] then ([], ca)
    else
      var (v, c) := Subfe(a[0], b[0], ca);
      var (vs, out) := SubTail(a[1..], b[1..], c);
      ([v] + vs, out)
  }

  /** b - a: subfc on the lowest limb, subfe on the others. */
  function SubLimbs(a: seq<Word>, b: seq<Word>): (r: (seq<Word>, bool))
    requires |a| == |b| > 0
    ensures |r.0| == |a|
  {
    var (v, c) := Subfc(a[0], b[0]);
    var (vs, out) := SubTail(a[1..], b[1..], c);
    ([v] + vs, out)
  }

  function Bit(c: bool): Word {
    if c then 1 else 0
  }

  /** What a carry out of n limbs is worth. */
  function CarryWorth(c: bool, n: nat): nat {
    if c then Radix(n) else 0
  }

  lemma {:induction false} AddTailValue(a: seq<Word>, b: seq<Word>, ca: bool)
    requires |a| == |b|
    ensures Value(AddTail(a, b, ca).0) + CarryWorth(AddTail(a, b, ca).1, |a|)
         == Value(a) + Value(b) + Bit(ca)
  {
    if a != [] {
      var (v, c) := Adde(a[0], b[0], ca);
      CarriesAreExact(a[0], b[0], Bit(ca));
      assert v + CarryWorth(c, 1) == a[0] + b[0] + Bit(ca);
      AddTailValue(a[1..], b[1..], c);
      assert AddTail(a, b, ca).0[1..] == AddTail(a[1..], b[1..], c).0;
    }
  }

  /** Multiword addition is exact: the carry out is the bit above the top limb. */
  lemma {:induction false} MultiwordAdd(a: seq<Word>, b: seq<Word>)
    requires |a| == |b| > 0
    ensures Value(AddLimbs(a, b).0) + CarryWorth(AddLimbs(a, b).1, |a|) == Value(a) + Value(b)
  {
    CarriesAreExact(a[0], b[0], 0);
    assert AddLimbs(a, b) == AddTail(a, b, false);
    AddTailValue(a, b, false);
  }

  lemma {:induction false} ValueBound(a: seq<Word>)
    ensures Value(a) < Radix(|a|)
  {
    if a != [] {
      ValueBound(a[1..]);
    }
  }

  lemma {:induction false} SubTailValue(a: seq<Word>, b: seq<Word>, ca: bool)
    requires |a| == |b|
    ensures Value(SubTail(a, b, ca).0) + CarryWorth(SubTail(a, b, ca).1, |a|)
         == Value(b) - Value(a) + Radix(|a|) - 1 + Bit(ca)
  {
    if a != [] {
      var (v, c) := Subfe(a[0], b[0], ca);
      CarriesAreExact(Complement(a[0]), b[0], Bit(ca));
      assert v + CarryWorth(c, 1) == b[0] - a[0] + TWO32 - 1 + Bit(ca);
      SubTailValue(a[1..], b[1..], c);
      assert SubTail(a, b, ca).0[1..] == SubTail(a[1..], b[1..], c).0;
    }
  }

  /** Multiword subtraction is exact modulo the radix, and CA means no borrow. */
  lemma {:induction false} MultiwordSubtract(a: seq<Word>, b: seq<Word>)
    requires |a| == |b| > 0
    ensures SubLimbs(a, b).1 <==> Value(a) <= Value(b)
    ensures Value(SubLimbs(a, b).0)
         == if Value(a) <= Value(b) then Value(b) - Value(a) else Value(b) - Value(a) + Radix(|a|)
  {
    assert SubLimbs(a, b) == SubTail(a, b, true);
    SubTailValue(a, b, true);
    ValueBound(a);
    ValueBound(b);
    ValueBound(SubLimbs(a, b).0);
  }

  // --------------------------------------------------------- rotate and mask

  lemma {:induction false} DoubledBit(r: nat, b: nat, i: nat)
    requires b < 2
    ensures BitAt(2 * r + b, i) == if i == 0 then b == 1 else BitAt(r, i - 1)
  {
    assert (2 * r + b) / 2 == r && (2 * r + b) % 2 == b;
  }

  lemma {:induction false} LowBits(x: nat, n: nat, i: nat)
    ensures BitAt(x % Pow2(n), i) == (i < n && BitAt(x, i))
  {
    if n == 0 {
      assert x % 1 == 0;
      ZeroBit(i);
    } else {
      HalfFirst(x, Pow2(n - 1));
      var r := x / 2 % Pow2(n - 1);
      DoubledBit(r, x % 2, i);
      DoubledBit(x / 2, x % 2, i);
      if i > 0 {
        LowBits(x / 2, n - 1, i - 1);
      }
    }
  }

  lemma {:induction false} HighBits(x: nat, n: nat, i: nat)
    requires x < Pow2(n) && n <= i
    ensures !BitAt(x, i)
  {
    if n == 0 {
      ZeroBit(i);
    } else {
      HighBits(x / 2, n - 1, i - 1);
    }
  }

  lemma {:induction false} TruncatedBit(x: nat, i: nat)
    requires i < 32
    ensures BitAt(x % TWO32, i) == BitAt(x, i)
  {
    Pow2Values();
    LowBits(x, 32, i);
  }

  lemma {:induction false} HighBits32(a: Word, i: nat)
    requires 32 <= i
    ensures !BitAt(a, i)
  {
    Pow2Values();
    HighBits(a, 32, i);
  }

  /** The bits of a left shift by k joined with a right shift by 32 - k. */
  lemma {:induction false} JoinedShiftsBit(a: Word, k: nat, i: nat)
    requires k < 32 && i < 32
    ensures BitAt(Logic(Or, ShiftLeft(a, k) % TWO32, ShiftRight(a, 32 - k)), i)
         == if k <= i then BitAt(a, i - k) || BitAt(a, i + 32 - k) else BitAt(a, i + 32 - k)
  {
    var hi: Word, lo: Word := ShiftLeft(a, k) % TWO32, ShiftRight(a, 32 - k);
    assert BitAt(hi, i) == (k <= i && BitAt(a, i - k)) by {
      TruncatedBit(ShiftLeft(a, k), i);
      ShiftLeftBit(a, k, i);
    }
    assert BitAt(lo, i) == BitAt(a, i + (32 - k)) by {
      ShiftRightBit(a, 32 - k, i);
    }
    LogicBit(Or, hi, lo, i);
  }

  lemma {:induction false} RotateBit(a: Word, n: Word, i: nat)
    requires i < 32
    ensures BitAt(Rotl(a, n), i) == BitAt(a, (i + 32 - n % 32) % 32)
  {
    hide BitAt, Logic, ShiftLeft, ShiftRight;
    var k := n % 32;
    JoinedShiftsBit(a, k, i);
    if k <= i {
      HighBits32(a, i + 32 - k);
      assert (i + 32 - k) % 32 == i - k;
    } else {
      assert (i + 32 - k) % 32 == i + 32 - k;
    }
  }

  /** Bit numbering of the architecture: bit 0 is the most significant. */
  predicate InCyclicRange(i: nat, mb: nat, me: nat) {
    if mb <= me then mb <= i <= me else mb <= i || i <= me
  }

  lemma {:induction false} StraightMaskBit(mb: nat, me: nat, j: nat)
    requires mb <= me < 32 && j < 32
    ensures BitAt(Mask(mb, me), j) <==> mb <= 31 - j <= me
  {
    if me - mb == 31 {
      Pow2Values();
      OnesValue(32);
      OnesBit(32, j);
    } else {
      TruncatedBit(ShiftLeft(Ones(me - mb + 1), 31 - me), j);
      ShiftLeftBit(Ones(me - mb + 1), 31 - me, j);
      if 31 - me <= j {
        OnesBit(me - mb + 1, j - (31 - me));
      }
    }
  }

  lemma {:induction false} WrappedMaskBit(mb: nat, me: nat, j: nat)
    requires me < mb < 32 && j < 32
    ensures BitAt(Mask(mb, me), j) <==> mb <= 31 - j || 31 - j <= me
  {
    hide Logic, BitAt, ShiftLeft, ShiftRight, Ones, Pow2;
    var k, n := 32 - mb + me + 1, 31 - me;
    OnesValue(k);
    Pow2AtMost32(k);
    var m: Word := Ones(k);
    JoinedShiftsBit(m, n, j);
    OnesBit(k, j + 32 - n);
    if n <= j {
      OnesBit(k, j - n);
    }
  }

  lemma {:induction false} MaskBits(mb: nat, me: nat, i: nat)
    requires mb < 32 && me < 32 && i < 32 && mb != me + 1
    ensures BitAt(Mask(mb, me), 31 - i) <==> InCyclicRange(i, mb, me)
  {
    if mb <= me {
      StraightMaskBit(mb, me, 31 - i);
    } else {
      WrappedMaskBit(mb, me, 31 - i);
    }
  }

  /** rlwimi: the rotated source under the mask, the old target elsewhere. */
  function Insert(source: Word, sh: Word, target: Word, m: Word): Word {
    Logic(Or, Logic(And, Rotl(source, sh), m), Logic(And, target, Complement(m)))
  }

  lemma {:induction false} InsertBits(source: Word, sh: Word, target: Word, mb: nat, me: nat, i: nat)
    requires mb < 32 && me < 32 && i < 32 && mb != me + 1
    ensures BitAt(Insert(source, sh, target, Mask(mb, me)), 31 - i)
         == if InCyclicRange(i, mb, me) then BitAt(source, (31 - i + 32 - sh % 32) % 32) else BitAt(target, 31 - i)
  {
    var m := Mask(mb, me);
    MaskBits(mb, me, i);
    RotateBit(source, sh, 31 - i);
    LogicBit(And, Rotl(source, sh), m, 31 - i);
    LogicBit(And, target, Complement(m), 31 - i);
    LogicBit(Or, Logic(And, Rotl(source, sh), m), Logic(And, target, Complement(m)), 31 - i);
    ComplementBits(m);
  }
}
