/** 32-bit machine words, kept as numbers below 2^32, and their bits. */
module Words {

  const TWO32: nat := 0x1_0000_0000

  type Word = w: nat | w < TWO32

  function Pow2(n: nat): (p: nat)
    ensures p > 0
  {
    if n == 0 then 1 else 2 * Pow2(n - 1)
  }

  lemma {:induction false} Pow2Values()
    ensures Pow2(0) == 1 && Pow2(1) == 2 && Pow2(4) == 16 && Pow2(5) == 32 && Pow2(8) == 256
    ensures Pow2(12) == 4096 && Pow2(16) == 0x1_0000
    ensures Pow2(28) == 0x1000_0000 && Pow2(31) == 0x8000_0000 && Pow2(32) == TWO32
  {
    assert Pow2(8) == 256;
    assert Pow2(16) == 256 * Pow2(8);
    assert Pow2(24) == 256 * Pow2(16);
    assert Pow2(28) == 16 * Pow2(24);
    assert Pow2(31) == 8 * Pow2(28);
  }

  lemma {:induction false} Pow2Add(m: nat, n: nat)
    ensures Pow2(m + n) == Pow2(m) * Pow2(n)
  {
    if m > 0 {
      Pow2Add(m - 1, n);
    }
  }

  lemma {:induction false} Pow2Monotone(m: nat, n: nat)
    requires m <= n
    ensures Pow2(m) <= Pow2(n)
  {
    if m < n {
      Pow2Monotone(m, n - 1);
    }
  }

  /** Bit i of a number, counted from the least significant end. */
  predicate BitAt(w: nat, i: nat) {
    if i == 0 then w % 2 == 1 else BitAt(w / 2, i - 1)
  }

  /** The bitwise operations of the executing backend. */
  datatype BitOp = And | Or | Xor | Nand | Nor | Andc | Orc | Eqv
  {
    predicate On(x: bool, y: bool) {
      match this
      case And => x && y
      case Or => x || y
      case Xor => x != y
      case Nand => !(x && y)
      case Nor => !(x || y)
      case Andc => x && !y
      case Orc => x || !y
      case Eqv => x == y
    }
  }

  /** The n-bit number whose bits are op of the bits of a and b. */
  function Bitwise(op: BitOp, a: nat, b: nat, n: nat): (r: nat)
    ensures r < Pow2(n)
  {
    if n == 0 then 0
    else (if op.On(a % 2 == 1, b % 2 == 1) then 1 else 0) + 2 * Bitwise(op, a / 2, b / 2, n - 1)
  }

  function Logic(op: BitOp, a: Word, b: Word): Word {
    Pow2Values();
    Bitwise(op, a, b, 32)
  }

  function Complement(a: Word): Word {
    TWO32 - 1 - a
  }

  lemma {:induction false} BitwiseBit(op: BitOp, a: nat, b: nat, n: nat, i: nat)
    ensures BitAt(Bitwise(op, a, b, n), i) == (i < n && op.On(BitAt(a, i), BitAt(b, i)))
  {
    if n == 0 {
      ZeroBit(i);
    } else {
      var r := Bitwise(op, a, b, n);
      assert r / 2 == Bitwise(op, a / 2, b / 2, n - 1);
      assert r % 2 == 1 <==> op.On(a % 2 == 1, b % 2 == 1);
      if i > 0 {
        BitwiseBit(op, a / 2, b / 2, n - 1, i - 1);
      }
    }
  }

  lemma {:induction false} ZeroBit(i: nat)
    ensures !BitAt(0, i)
  {
    if i > 0 {
      ZeroBit(i - 1);
    }
  }

  lemma {:induction false} ComplementBit(a: nat, n: nat, i: nat)
    requires a < Pow2(n) && i < n
    ensures BitAt(Pow2(n) - 1 - a, i) == !BitAt(a, i)
  {
    if i > 0 {
      assert (Pow2(n) - 1 - a) / 2 == Pow2(n - 1) - 1 - a / 2;
      ComplementBit(a / 2, n - 1, i - 1);
    }
  }

  lemma {:induction false} LogicBit(op: BitOp, a: Word, b: Word, i: nat)
    requires i < 32
    ensures BitAt(Logic(op, a, b), i) == op.On(BitAt(a, i), BitAt(b, i))
  {
    BitwiseBit(op, a, b, 32, i);
  }

  lemma {:induction false} LogicBits(op: BitOp, a: Word, b: Word)
    ensures forall i: nat | i < 32 :: BitAt(Logic(op, a, b), i) == op.On(BitAt(a, i), BitAt(b, i))
  {
    forall i: nat | i < 32 ensures BitAt(Logic(op, a, b), i) == op.On(BitAt(a, i), BitAt(b, i)) {
      LogicBit(op, a, b, i);
    }
  }

  lemma {:induction false} ComplementBits(a: Word)
    ensures forall i: nat | i < 32 :: BitAt(Complement(a), i) == !BitAt(a, i)
  {
    Pow2Values();
    forall i: nat | i < 32 ensures BitAt(Complement(a), i) == !BitAt(a, i) {
      ComplementBit(a, 32, i);
    }
  }

  lemma {:induction false} SameBits(a: nat, b: nat, n: nat)
    requires a < Pow2(n) && b < Pow2(n)
    requires forall i: nat | i < n :: BitAt(a, i) == BitAt(b, i)
    ensures a == b
  {
    if n > 0 {
      assert BitAt(a, 0) == BitAt(b, 0);
      forall i: nat | i < n - 1 ensures BitAt(a / 2, i) == BitAt(b / 2, i) {
        assert BitAt(a, i + 1) == BitAt(b, i + 1);
      }
      SameBits(a / 2, b / 2, n - 1);
    }
  }

  /** A word is determined by its 32 bits. */
  lemma {:induction false} WordsEqual(a: Word, b: Word)
    requires forall i: nat | i < 32 :: BitAt(a, i) == BitAt(b, i)
    ensures a == b
  {
    Pow2Values();
    SameBits(a, b, 32);
  }

  // ---------------------------------------------------------------- shifts

  /** x << n without truncation, and x >> n. */
  function ShiftLeft(x: nat, n: nat): nat {
    if n == 0 then x else 2 * ShiftLeft(x, n - 1)
  }

  function ShiftRight(x: nat, n: nat): (r: nat)
    ensures r <= x
  {
    if n == 0 then x else ShiftRight(x / 2, n - 1)
  }

  /** (1 << k) - 1 */
  function Ones(k: nat): nat {
    if k == 0 then 0 else 2 * Ones(k - 1) + 1
  }

  lemma {:induction false} OnesValue(k: nat)
    ensures Ones(k) == Pow2(k) - 1
  {
    if k > 0 {
      OnesValue(k - 1);
    }
  }

  lemma {:induction false} OnesBit(k: nat, i: nat)
    ensures BitAt(Ones(k), i) == (i < k)
  {
    if k == 0 {
      ZeroBit(i);
    } else if i > 0 {
      assert Ones(k) / 2 == Ones(k - 1);
      OnesBit(k - 1, i - 1);
    }
  }

  lemma {:induction false} ShiftLeftBit(x: nat, n: nat, i: nat)
    ensures BitAt(ShiftLeft(x, n), i) == (n <= i && BitAt(x, i - n))
  {
    if n > 0 {
      assert ShiftLeft(x, n) / 2 == ShiftLeft(x, n - 1);
      if i > 0 {
        ShiftLeftBit(x, n - 1, i - 1);
      }
    }
  }

  lemma {:induction false} ShiftRightBit(x: nat, n: nat, i: nat)
    ensures BitAt(ShiftRight(x, n), i) == BitAt(x, i + n)
  {
    if n > 0 {
      ShiftRightBit(x / 2, n - 1, i);
    }
  }

  lemma {:induction false} ShiftLeftBound(x: nat, m: nat, n: nat)
    requires x < Pow2(m)
    ensures ShiftLeft(x, n) < Pow2(m + n)
  {
    if n > 0 {
      ShiftLeftBound(x, m, n - 1);
    }
  }
}
