/** What every register instruction computes and is recorded to read and write. */
module Instructions {
  import opened Words
  import opened LiveSets
  import opened Arithmetic
  import opened Templates
  import opened Effects
  import opened Machine
  import opened Results
  import opened Comparing

  // ------------------------------------------------------- arithmetic into rD

  predicate IsArithmetic(opc: Word) {
    MainOpcode(opc) == 31 && ExtOpcode(opc) in {11, 40, 75, 104, 235, 266, 459, 491}
  }

  function ArithmeticExp(opc: Word): Exp
    requires IsArithmetic(opc)
  {
    match ExtOpcode(opc)
    case 11 => Binary(TimesHighU, A(opc), B(opc))
    case 40 => Sum(Sum(Unary(Not, A(opc)), B(opc)), Imm(1))
    case 75 => Binary(TimesHighS, A(opc), B(opc))
    case 104 => Unary(Negate, A(opc))
    case 235 => Binary(Times, A(opc), B(opc))
    case 266 => Sum(A(opc), B(opc))
    case 459 => Binary(DivideU, A(opc), B(opc))
    case _ => Binary(DivideS, A(opc), B(opc))
  }

  lemma {:induction false} ArithmeticTemplate(opc: Word)
    requires IsArithmetic(opc)
    ensures TemplateOf(opc) == ValueCalls(FieldD(opc), ArithmeticExp(opc), RecordBit(opc))
  {
  }

  lemma {:induction false} ArithmeticReads(opc: Word)
    requires IsArithmetic(opc)
    ensures !ExpLoads(ArithmeticExp(opc))
    ensures ExpReads(ArithmeticExp(opc))
         == if ExtOpcode(opc) == 104 then {FieldA(opc) as nat} else {FieldA(opc) as nat, FieldB(opc)}
  {
    hide MainOpcode, ExtOpcode, FieldA, FieldB;
    var a, b := A(opc), B(opc);
    assert ExpReads(Unary(Not, a)) == ExpReads(a) && !ExpLoads(Unary(Not, a));
    assert ExpReads(Sum(Unary(Not, a), b)) == ExpReads(a) + ExpReads(b) && !ExpLoads(Sum(Unary(Not, a), b));
  }

  /** The arithmetic instructions are plain values in rD, of rA and rB. */
  lemma {:induction false} ArithmeticComputes(env: Env, opc: Word, s: State)
    requires IsArithmetic(opc)
    ensures Computes(env, opc, s, FieldD(opc), Eval(env, ArithmeticExp(opc), s),
                     if ExtOpcode(opc) == 104 then {FieldA(opc) as nat} else {FieldA(opc) as nat, FieldB(opc)},
                     RecordBit(opc))
  {
    hide TemplateOf, Computes, ArithmeticExp, Eval, ExpReads, ExpLoads;
    ArithmeticTemplate(opc);
    ArithmeticReads(opc);
    ValueComputes(env, opc, s, FieldD(opc), ArithmeticExp(opc), RecordBit(opc));
  }

  lemma {:induction false} BinaryValue(env: Env, op: BinaryOp, a: Exp, b: Exp, s: State)
    ensures Eval(env, Binary(op, a, b), s) == EvalBinary(env, op, Eval(env, a, s), Eval(env, b, s))
  {
  }

  lemma {:induction false} OperandValues(env: Env, opc: Word, s: State)
    ensures Eval(env, A(opc), s) == s.gpr[FieldA(opc)] && Eval(env, B(opc), s) == s.gpr[FieldB(opc)]
    ensures Eval(env, S(opc), s) == s.gpr[FieldD(opc)]
    ensures forall w :: Eval(env, Imm(w), s) == w
  {
  }

  /** add */
  lemma {:induction false} AddIsSum(env: Env, opc: Word, s: State)
    requires MainOpcode(opc) == 31 && ExtOpcode(opc) == 266
    ensures Computes(env, opc, s, FieldD(opc), (s.gpr[FieldA(opc)] + s.gpr[FieldB(opc)]) % TWO32,
                     {FieldA(opc), FieldB(opc)}, RecordBit(opc))
  {
    hide Computes, Eval;
    ArithmeticComputes(env, opc, s);
    OperandValues(env, opc, s);
    BinaryValue(env, Plus, A(opc), B(opc), s);
  }

  /** subf */
  lemma {:induction false} SubtractIsDifference(env: Env, opc: Word, s: State)
    requires MainOpcode(opc) == 31 && ExtOpcode(opc) == 40
    ensures Computes(env, opc, s, FieldD(opc), (s.gpr[FieldB(opc)] - s.gpr[FieldA(opc)]) % TWO32,
                     {FieldA(opc), FieldB(opc)}, RecordBit(opc))
  {
    hide Computes, Eval, Add;
    ArithmeticComputes(env, opc, s);
    OperandValues(env, opc, s);
    var a, b, na := s.gpr[FieldA(opc)], s.gpr[FieldB(opc)], Unary(Not, A(opc));
    assert Eval(env, na, s) == Complement(a) by { UnaryValue(env, Not, A(opc), s); }
    BinaryValue(env, Plus, na, B(opc), s);
    BinaryValue(env, Plus, Sum(na, B(opc)), Imm(1), s);
    ComplementSum(a, b);
  }

  lemma {:induction false} UnaryValue(env: Env, op: UnaryOp, a: Exp, s: State)
    ensures Eval(env, Unary(op, a), s) == EvalUnary(op, Eval(env, a, s))
  {
  }

  lemma {:induction false} ComplementSum(a: Word, b: Word)
    ensures Add(Add(Complement(a), b), 1) == (b - a) % TWO32
  {
  }

  /** neg */
  lemma {:induction false} NegateIsOpposite(env: Env, opc: Word, s: State)
    requires MainOpcode(opc) == 31 && ExtOpcode(opc) == 104
    ensures Computes(env, opc, s, FieldD(opc), (0 - s.gpr[FieldA(opc)]) % TWO32, {FieldA(opc)}, RecordBit(opc))
  {
    hide Computes, Eval, Neg;
    ArithmeticComputes(env, opc, s);
    OperandValues(env, opc, s);
    UnaryValue(env, Negate, A(opc), s);
    Opposite(s.gpr[FieldA(opc)]);
  }

  lemma {:induction false} Opposite(a: Word)
    ensures Neg(a) == (0 - a) % TWO32
  {
    if a > 0 {
      Unique(0 - a, TWO32, -1, TWO32 - a);
      Unique(-Signed(a), TWO32, if a < 0x8000_0000 then -1 else 0, TWO32 - a);
    }
  }

  // ---------------------------------------------------------------- products

  lemma {:induction false} SignedProduct(a: Word, b: Word)
    ensures a * b % TWO32 == Signed(a) * Signed(b) % TWO32
  {
    var k, l := if a < 0x8000_0000 then 0 else 1, if b < 0x8000_0000 then 0 else 1;
    ShiftedProduct(Signed(a), Signed(b), k, l);
    SameRest(Signed(a) * Signed(b), Signed(a) * l + Signed(b) * k + k * l * TWO32, TWO32);
  }

  lemma {:induction false} ShiftedProduct(x: int, y: int, k: int, l: int)
    requires (k == 0 || k == 1) && (l == 0 || l == 1)
    ensures (x + k * TWO32) * (y + l * TWO32) == x * y + (x * l + y * k + k * l * TWO32) * TWO32
  {
  }

  lemma {:induction false} ProductBounds(x: int, y: int)
    requires -0x8000_0000 <= x < 0x8000_0000 && -0x8000_0000 <= y < 0x8000_0000
    ensures -0x8000_0000 <= x * y / TWO32 < 0x8000_0000
  {
    AbsProduct(x, y);
  }

  lemma {:induction false} AbsProduct(x: int, y: int)
    requires -0x8000_0000 <= x < 0x8000_0000 && -0x8000_0000 <= y < 0x8000_0000
    ensures -0x4000_0000_0000_0000 <= x * y <= 0x4000_0000_0000_0000
  {
    var p, q := if x < 0 then -x else x, if y < 0 then -y else y;
    SmallProduct(p, q, 0x8000_0000);
    SignsOfProduct(x, y);
  }

  lemma {:induction false} SignsOfProduct(x: int, y: int)
    ensures (-x) * y == -(x * y) && x * (-y) == -(x * y) && (-x) * (-y) == x * y
  {
  }

  lemma {:induction false} SmallProduct(p: nat, q: nat, m: nat)
    requires p <= m && q <= m
    ensures 0 <= p * q <= m * m
  {
    Larger(p, m, q);
    Larger(q, m, m);
  }

  lemma {:induction false} Larger(p: nat, m: nat, q: nat)
    requires p <= m
    ensures 0 <= p * q <= m * q
  {
    Distribute(p, m - p, q);
    assert (m - p) * q >= 0;
  }

  /** mullw, and mulli by its immediate: the low word of the product. */
  lemma {:induction false} MultiplyLow(env: Env, opc: Word, s: State)
    ensures MainOpcode(opc) == 31 && ExtOpcode(opc) == 235 ==>
      Computes(env, opc, s, FieldD(opc), Signed(s.gpr[FieldA(opc)]) * Signed(s.gpr[FieldB(opc)]) % TWO32,
               {FieldA(opc), FieldB(opc)}, RecordBit(opc))
    ensures MainOpcode(opc) == 7 ==>
      Computes(env, opc, s, FieldD(opc), Signed(s.gpr[FieldA(opc)]) * Immediate(opc) % TWO32, {FieldA(opc)}, false)
  {
    hide Computes, Eval, Immediate, SImm;
    OperandValues(env, opc, s);
    var a, b := s.gpr[FieldA(opc)], s.gpr[FieldB(opc)];
    if MainOpcode(opc) == 31 && ExtOpcode(opc) == 235 {
      ArithmeticComputes(env, opc, s);
      BinaryValue(env, Times, A(opc), B(opc), s);
      SignedProduct(a, b);
    } else if MainOpcode(opc) == 7 {
      var e := Binary(Times, A(opc), Imm(SImm(opc)));
      assert TemplateOf(opc) == ValueCalls(FieldD(opc), e, false);
      ImmediateReads(Times, opc, SImm(opc));
      ValueComputes(env, opc, s, FieldD(opc), e, false);
      BinaryValue(env, Times, A(opc), Imm(SImm(opc)), s);
      SImmIsImmediate(opc);
      SignedProduct(a, SImm(opc));
    }
  }

  lemma {:induction false} ImmediateReads(op: BinaryOp, opc: Word, w: Word)
    ensures ExpReads(Binary(op, A(opc), Imm(w))) == {FieldA(opc)} && !ExpLoads(Binary(op, A(opc), Imm(w)))
    ensures ExpReads(Binary(op, S(opc), Imm(w))) == {FieldD(opc)} && !ExpLoads(Binary(op, S(opc), Imm(w)))
  {
  }

  /** mulhw and mulhwu: the high word, so that with the low word the product is whole. */
  lemma {:induction false} MultiplyHigh(env: Env, opc: Word, s: State)
    requires MainOpcode(opc) == 31 && (ExtOpcode(opc) == 75 || ExtOpcode(opc) == 11)
    ensures var v, a, b := Step(env, opc, s).gpr[FieldD(opc)], s.gpr[FieldA(opc)], s.gpr[FieldB(opc)];
      && Computes(env, opc, s, FieldD(opc), v, {FieldA(opc), FieldB(opc)}, RecordBit(opc))
      && (ExtOpcode(opc) == 75 ==> 0 <= Signed(a) * Signed(b) - Signed(v) * TWO32 < TWO32)
      && (ExtOpcode(opc) == 11 ==> 0 <= a * b - v * TWO32 < TWO32)
  {
    hide Eval, Records, FieldShows;
    ArithmeticComputes(env, opc, s);
    OperandValues(env, opc, s);
    hide Step;
    var a, b := s.gpr[FieldA(opc)], s.gpr[FieldB(opc)];
    if ExtOpcode(opc) == 75 {
      BinaryValue(env, TimesHighS, A(opc), B(opc), s);
      HighSigned(a, b);
    } else {
      BinaryValue(env, TimesHighU, A(opc), B(opc), s);
      HighUnsigned(a, b);
    }
  }

  lemma {:induction false} HighSigned(a: Word, b: Word)
    ensures 0 <= Signed(a) * Signed(b) - Signed(MulHighSigned(a, b)) * TWO32 < TWO32
  {
    ProductBounds(Signed(a), Signed(b));
    var p := Signed(a) * Signed(b);
    assert Signed(FromInt(p / TWO32)) == p / TWO32;
  }

  lemma {:induction false} HighUnsigned(a: Word, b: Word)
    ensures 0 <= a * b - MulHighUnsigned(a, b) * TWO32 < TWO32
  {
    WordProduct(a, b);
    var p := a * b;
    assert p / TWO32 < TWO32;
  }

  lemma {:induction false} WordProduct(a: Word, b: Word)
    ensures 0 <= a * b < TWO32 * TWO32
  {
    SmallProduct(a, b, TWO32 - 1);
  }

  // ---------------------------------------------------------------- quotients

  /** v is a over b, unless b is zero. */
  predicate IsQuotient(a: Word, b: Word, v: Word) {
    b != 0 ==> 0 <= a - v * b < b
  }

  /** divwu, for a divisor other than zero: the quotient that leaves a smaller remainder. */
  lemma {:induction false} DivideUnsigned(env: Env, opc: Word, s: State)
    requires MainOpcode(opc) == 31 && ExtOpcode(opc) == 459
    ensures var v, a, b := Step(env, opc, s).gpr[FieldD(opc)], s.gpr[FieldA(opc)], s.gpr[FieldB(opc)];
      && Computes(env, opc, s, FieldD(opc), v, {FieldA(opc), FieldB(opc)}, RecordBit(opc))
      && IsQuotient(a, b, v)
  {
    hide Eval, Records, FieldShows;
    ArithmeticComputes(env, opc, s);
    OperandValues(env, opc, s);
    BinaryValue(env, DivideU, A(opc), B(opc), s);
    hide Step;
    if s.gpr[FieldB(opc)] != 0 {
      QuotientAndRest(s.gpr[FieldA(opc)], s.gpr[FieldB(opc)]);
    }
  }

  /** The signed cases C++ leaves undefined. */
  predicate NoQuotient(a: Word, b: Word) {
    b == 0 || (Signed(a) == -0x8000_0000 && Signed(b) == -1)
  }

  /** divw, where it is defined: the remainder is smaller than the divisor and has the sign of
      the dividend. */
  lemma {:induction false} DivideSigned(env: Env, opc: Word, s: State)
    requires MainOpcode(opc) == 31 && ExtOpcode(opc) == 491
    ensures var v, a, b := Step(env, opc, s).gpr[FieldD(opc)], s.gpr[FieldA(opc)], s.gpr[FieldB(opc)];
      && Computes(env, opc, s, FieldD(opc), v, {FieldA(opc), FieldB(opc)}, RecordBit(opc))
      && (!NoQuotient(a, b) ==> IsTruncated(Signed(a), Signed(b), Signed(v)))
  {
    hide Eval, Records, FieldShows, TruncDiv, IsTruncated;
    ArithmeticComputes(env, opc, s);
    OperandValues(env, opc, s);
    BinaryValue(env, DivideS, A(opc), B(opc), s);
    hide Step;
    if !NoQuotient(s.gpr[FieldA(opc)], s.gpr[FieldB(opc)]) {
      QuotientFits(s.gpr[FieldA(opc)], s.gpr[FieldB(opc)]);
      TruncIsTruncated(Signed(s.gpr[FieldA(opc)]), Signed(s.gpr[FieldB(opc)]));
    }
  }

  function Magnitude(x: int): nat { if x < 0 then -x else x }

  /** q is a over b, rounded toward zero. */
  predicate IsTruncated(a: int, b: int, q: int) {
    var r := a - q * b;
    Magnitude(r) < Magnitude(b) && (r == 0 || (r > 0 <==> a > 0))
  }

  lemma {:induction false} TruncIsTruncated(a: int, b: int)
    requires b != 0
    ensures IsTruncated(a, b, TruncDiv(a, b))
  {
    hide TruncDiv, Ratio;
    TruncSigns(a, b);
    RatioParts(a, b);
    SignsOfProduct(Ratio(a, b), Magnitude(b));
  }

  lemma {:induction false} EuclidParts(p: int, b: int)
    requires b != 0
    ensures p == p / b * b + p % b && 0 <= p % b < Magnitude(b)
  {
  }

  lemma {:induction false} QuotientFits(a: Word, b: Word)
    requires !NoQuotient(a, b)
    ensures Signed(FromInt(TruncDiv(Signed(a), Signed(b)))) == TruncDiv(Signed(a), Signed(b))
  {
    var x, y := Signed(a), Signed(b);
    TruncBound(x, y);
    var q := TruncDiv(x, y);
    assert -0x8000_0000 <= q < 0x8000_0000;
  }

  function Ratio(x: int, y: int): nat
    requires y != 0
  {
    QuotientAndRest(Magnitude(x), Magnitude(y));
    PositiveQuotient(Magnitude(x), Magnitude(y));
    Magnitude(x) / Magnitude(y)
  }

  lemma {:induction false} RatioParts(x: int, y: int)
    requires y != 0
    ensures 0 <= Magnitude(x) - Ratio(x, y) * Magnitude(y) < Magnitude(y)
  {
    QuotientAndRest(Magnitude(x), Magnitude(y));
  }

  lemma {:induction false} TruncSigns(x: int, y: int)
    requires y != 0
    ensures TruncDiv(x, y) == if (x < 0) == (y < 0) then Ratio(x, y) else 0 - Ratio(x, y)
  {
    if y < 0 {
      NegativeDivisor(Magnitude(x), y);
    }
  }

  lemma {:induction false} TruncBound(x: int, y: int)
    requires y != 0
    ensures Magnitude(TruncDiv(x, y)) <= Magnitude(x)
    ensures y != 1 && y != -1 && x != 0 ==> Magnitude(TruncDiv(x, y)) < Magnitude(x)
    ensures y == 1 ==> TruncDiv(x, y) == x
    ensures y == -1 ==> TruncDiv(x, y) == -x
  {
    hide TruncDiv, Ratio;
    TruncSigns(x, y);
    RatioBound(x, y);
  }

  lemma {:induction false} RatioBound(x: int, y: int)
    requires y != 0
    ensures Ratio(x, y) <= Magnitude(x) && (Magnitude(y) > 1 && x != 0 ==> Ratio(x, y) < Magnitude(x))
    ensures Magnitude(y) == 1 ==> Ratio(x, y) == Magnitude(x)
  {
    PositiveQuotient(Magnitude(x), Magnitude(y));
  }

  lemma {:induction false} PositiveQuotient(p: nat, m: nat)
    requires m > 0
    ensures 0 <= p / m <= p && (m > 1 && p > 0 ==> p / m < p) && (m == 1 ==> p / m == p)
  {
    QuotientAndRest(p, m);
    if p / m > 0 {
      Larger(1, m, p / m);
      if m > 1 {
        Larger(2, m, p / m);
      }
    }
  }

  lemma {:induction false} NegativeDivisor(p: int, b: int)
    requires b < 0
    ensures p / b == -(p / -b)
  {
    EuclidParts(p, b);
    SignsOfProduct(p / b, b);
    Unique(p, -b, -(p / b), p % b);
  }

  // ------------------------------------------------------------ into rA, from rS

  predicate IsRegisterForm(opc: Word) {
    MainOpcode(opc) == 31 && ExtOpcode(opc) in {24, 26, 28, 60, 124, 284, 316, 412, 444, 476, 536, 922, 954}
  }

  function RegisterExp(opc: Word): Exp
    requires IsRegisterForm(opc)
  {
    var x, y := S(opc), B(opc);
    match ExtOpcode(opc)
    case 24 => Binary(LeftShift, x, y)
    case 26 => Unary(CountZeros, x)
    case 28 => Binary(Bits(And), x, y)
    case 60 => Binary(Bits(Andc), x, y)
    case 124 => Binary(Bits(Nor), x, y)
    case 284 => Binary(Bits(Eqv), x, y)
    case 316 => Binary(Bits(Xor), x, y)
    case 412 => Binary(Bits(Orc), x, y)
    case 444 => Binary(Bits(Or), x, y)
    case 476 => Binary(Bits(Nand), x, y)
    case 536 => Binary(RightShift, x, y)
    case 922 => Unary(ExtHalf, x)
    case _ => Unary(ExtByte, x)
  }

  predicate IsOneOperand(opc: Word) { ExtOpcode(opc) in {26, 922, 954} }

  lemma {:induction false} RegisterTemplate(opc: Word)
    requires IsRegisterForm(opc)
    ensures TemplateOf(opc) == ValueCalls(FieldA(opc), RegisterExp(opc), RecordBit(opc))
  {
  }

  lemma {:induction false} RegisterReads(opc: Word)
    requires IsRegisterForm(opc)
    ensures !ExpLoads(RegisterExp(opc))
    ensures ExpReads(RegisterExp(opc))
         == if IsOneOperand(opc) then {FieldD(opc) as nat} else {FieldD(opc) as nat, FieldB(opc)}
  {
    hide MainOpcode, ExtOpcode, FieldD, FieldB;
  }

  lemma {:induction false} RegisterComputes(env: Env, opc: Word, s: State)
    requires IsRegisterForm(opc)
    ensures Computes(env, opc, s, FieldA(opc), Eval(env, RegisterExp(opc), s),
                     if IsOneOperand(opc) then {FieldD(opc) as nat} else {FieldD(opc) as nat, FieldB(opc)},
                     RecordBit(opc))
  {
    hide TemplateOf, Computes, RegisterExp, Eval, ExpReads, ExpLoads, IsOneOperand;
    RegisterTemplate(opc);
    RegisterReads(opc);
    ValueComputes(env, opc, s, FieldA(opc), RegisterExp(opc), RecordBit(opc));
  }

  /** and, andc, nor, eqv, xor, orc, or and nand, on one bit. */
  predicate LogicOperation(ext: nat, x: bool, y: bool) {
    match ext
    case 28 => x && y
    case 60 => x && !y
    case 124 => !(x || y)
    case 284 => x == y
    case 316 => x != y
    case 412 => x || !y
    case 444 => x || y
    case _ => !(x && y)
  }

  /** The logic instructions work bit by bit. */
  lemma {:induction false} LogicIsBitwise(env: Env, opc: Word, s: State)
    requires MainOpcode(opc) == 31 && ExtOpcode(opc) in {28, 60, 124, 284, 316, 412, 444, 476}
    ensures var v, x, y := Step(env, opc, s).gpr[FieldA(opc)], s.gpr[FieldD(opc)], s.gpr[FieldB(opc)];
      && Computes(env, opc, s, FieldA(opc), v, {FieldD(opc), FieldB(opc)}, RecordBit(opc))
      && forall i: nat | i < 32 :: BitAt(v, i) == LogicOperation(ExtOpcode(opc), BitAt(x, i), BitAt(y, i))
  {
    hide Eval, Records, FieldShows, BitAt, Logic;
    RegisterComputes(env, opc, s);
    OperandValues(env, opc, s);
    var e := RegisterExp(opc);
    BinaryValue(env, e.bop, S(opc), B(opc), s);
    LogicBits(e.bop.op, s.gpr[FieldD(opc)], s.gpr[FieldB(opc)]);
    hide Step;
  }

  lemma {:induction false} ShiftLeftIsProduct(x: nat, n: nat)
    ensures ShiftLeft(x, n) == x * Pow2(n)
  {
    if n > 0 {
      ShiftLeftIsProduct(x, n - 1);
      TwiceProduct(x, Pow2(n - 1));
    }
  }

  lemma {:induction false} FarShifts(x: Word, n: nat)
    requires 32 <= n
    ensures x * Pow2(n) % TWO32 == 0 && x / Pow2(n) == 0
  {
    Pow2Values();
    Pow2Add(n - 32, 32);
    var p := Pow2(n - 32);
    assert x * Pow2(n) == x * p * TWO32 by {
      Associated(x, p, TWO32);
    }
    Unique(x * p * TWO32, TWO32, x * p, 0);
    Pow2Monotone(32, n);
    Unique(x, Pow2(n), 0, x);
  }

  lemma {:induction false} Associated(x: int, p: int, m: int)
    ensures x * (p * m) == x * p * m
  {
  }

  /** x over 2^n, rounded down, and x times 2^n, truncated. */
  function Down(x: Word, n: nat): Word {
    SmallQuotient(x, n);
    x / Pow2(n)
  }

  function Up(x: Word, n: nat): Word {
    x * Pow2(n) % TWO32
  }

  /** slw and srw, for every count of rB modulo 64: 32 and more leave nothing. */
  lemma {:induction false} ShiftsScale(env: Env, opc: Word, s: State)
    requires MainOpcode(opc) == 31 && (ExtOpcode(opc) == 24 || ExtOpcode(opc) == 536)
    ensures var x, n := s.gpr[FieldD(opc)], s.gpr[FieldB(opc)] % 64;
      Computes(env, opc, s, FieldA(opc), if ExtOpcode(opc) == 24 then Up(x, n) else Down(x, n),
               {FieldD(opc), FieldB(opc)}, RecordBit(opc))
  {
    hide Eval, Computes, Pow2, ShiftLeft, ShiftRight;
    RegisterComputes(env, opc, s);
    OperandValues(env, opc, s);
    var x, n := s.gpr[FieldD(opc)], s.gpr[FieldB(opc)] % 64;
    BinaryValue(env, if ExtOpcode(opc) == 24 then LeftShift else RightShift, S(opc), B(opc), s);
    ShiftLeftIsProduct(x, n);
    SmallQuotient(x, n);
    if n > 31 {
      FarShifts(x, n);
    }
  }

  /** v has the signed value of the low part of x, which m counts. */
  predicate ExtendsFrom(v: Word, x: Word, m: nat)
    requires m > 0
  {
    Signed(v) == if x % m < m / 2 then x % m else x % m - m
  }

  /** extsb and extsh keep the signed value of the low part. */
  lemma {:induction false} ExtendsSign(env: Env, opc: Word, s: State)
    requires MainOpcode(opc) == 31 && (ExtOpcode(opc) == 922 || ExtOpcode(opc) == 954)
    ensures var v, x := Step(env, opc, s).gpr[FieldA(opc)], s.gpr[FieldD(opc)];
      && Computes(env, opc, s, FieldA(opc), v, {FieldD(opc)}, RecordBit(opc))
      && ExtendsFrom(v, x, if ExtOpcode(opc) == 954 then 0x100 else 0x1_0000)
  {
    hide Eval, Records, FieldShows, ExtendSignByte, ExtendSignHalf, Signed;
    RegisterComputes(env, opc, s);
    OperandValues(env, opc, s);
    UnaryValue(env, if ExtOpcode(opc) == 922 then ExtHalf else ExtByte, S(opc), s);
    ExtendedValues(s.gpr[FieldD(opc)]);
    hide Step;
  }

  lemma {:induction false} ExtendedValues(x: Word)
    ensures Signed(ExtendSignByte(x)) == if x % 0x100 < 0x80 then x % 0x100 else x % 0x100 - 0x100
    ensures Signed(ExtendSignHalf(x)) == if x % 0x1_0000 < 0x8000 then x % 0x1_0000 else x % 0x1_0000 - 0x1_0000
  {
    FilledTop(x, 8);
    FilledTop(x, 16);
    Pow2Values();
    assert Pow2(7) == 0x80 && Pow2(15) == 0x8000 by {
      assert Pow2(8) == 2 * Pow2(7) && Pow2(16) == 2 * Pow2(15);
    }
  }

  /** Setting all bits from n on, and the bit below them. */
  lemma {:induction false} FilledTop(x: Word, n: nat)
    requires 0 < n <= 32
    ensures 0 <= TWO32 - Pow2(n) < TWO32
    ensures Logic(Or, x, TWO32 - Pow2(n)) == TWO32 - Pow2(n) + x % Pow2(n)
    ensures BitAt(x, n - 1) <==> x % Pow2(n) >= Pow2(n - 1)
  {
    Pow2Values();
    Pow2AtMost32(n);
    OrTop(x, n, 32);
    TopBit(x, n);
  }

  lemma {:induction false} TopBit(x: nat, n: nat)
    requires n > 0
    ensures BitAt(x, n - 1) <==> x % Pow2(n) >= Pow2(n - 1)
  {
    HalfFirst(x, Pow2(n - 1));
    if n > 1 {
      TopBit(x / 2, n - 1);
    } else {
      assert x % Pow2(1) == x % 2;
    }
  }

  lemma {:induction false} OrTop(x: nat, n: nat, m: nat)
    requires n <= m && x < Pow2(m)
    ensures Pow2(n) <= Pow2(m) && Bitwise(Or, x, Pow2(m) - Pow2(n), m) == Pow2(m) - Pow2(n) + x % Pow2(n)
  {
    hide Bitwise;
    Pow2Monotone(n, m);
    if n > 0 {
      var p, q := Pow2(n - 1), Pow2(m - 1);
      assert Pow2(n) == 2 * p && Pow2(m) == 2 * q;
      OrTop(x / 2, n - 1, m - 1);
      OrTopStep(x, p, q, m);
    } else {
      assert x % 1 == 0;
      OrOnes(x, m);
    }
  }

  lemma {:induction false} OrTopStep(x: nat, p: nat, q: nat, m: nat)
    requires 0 < p <= q && m > 0 && Bitwise(Or, x / 2, q - p, m - 1) == q - p + x / 2 % p
    ensures Bitwise(Or, x, 2 * q - 2 * p, m) == 2 * q - 2 * p + x % (2 * p)
  {
    HalfFirst(x, p);
    var b: nat := 2 * q - 2 * p;
    assert b == 2 * (q - p) && b / 2 == q - p && b % 2 == 0;
    OrUnfolds(x, b, m);
  }

  lemma {:induction false} OrUnfolds(x: nat, b: nat, m: nat)
    requires m > 0 && b % 2 == 0
    ensures Bitwise(Or, x, b, m) == x % 2 + 2 * Bitwise(Or, x / 2, b / 2, m - 1)
  {
  }

  lemma {:induction false} OrOnes(x: nat, m: nat)
    ensures Bitwise(Or, x, Pow2(m) - 1, m) == Pow2(m) - 1
  {
    if m > 0 {
      assert (Pow2(m) - 1) / 2 == Pow2(m - 1) - 1 && (Pow2(m) - 1) % 2 == 1;
      OrOnes(x / 2, m - 1);
    }
  }

  lemma {:induction false} CountExp(opc: Word)
    requires MainOpcode(opc) == 31 && ExtOpcode(opc) == 26
    ensures IsRegisterForm(opc) && IsOneOperand(opc) && RegisterExp(opc) == Unary(CountZeros, S(opc))
  {
  }

  /** cntlzw: v is where the first one bit from the top is, or 32. */
  lemma {:induction false} CountsLeadingZeros(env: Env, opc: Word, s: State)
    requires MainOpcode(opc) == 31 && ExtOpcode(opc) == 26
    ensures var v, x := Step(env, opc, s).gpr[FieldA(opc)], s.gpr[FieldD(opc)];
      && Computes(env, opc, s, FieldA(opc), v, {FieldD(opc)}, RecordBit(opc))
      && v <= 32 && (v < 32 ==> BitAt(x, 31 - v)) && forall j: nat | 31 - v < j < 32 :: !BitAt(x, j)
  {
    hide Eval, Records, FieldShows, BitAt, LeadingZeros, RegisterExp;
    assert RegisterExp(opc) == Unary(CountZeros, S(opc)) by { CountExp(opc); }
    RegisterComputes(env, opc, s);
    OperandValues(env, opc, s);
    UnaryValue(env, CountZeros, S(opc), s);
    hide Step;
  }

  // ----------------------------------------------------------- immediate forms

  function BaseOf(opc: Word, s: State): Word { if FieldA(opc) == 0 then 0 else s.gpr[FieldA(opc)] }
  ghost function BaseReads(opc: Word): set<nat> { if FieldA(opc) == 0 then {} else {FieldA(opc) as nat} }

  lemma {:induction false} BaseValue(env: Env, opc: Word, s: State)
    ensures Eval(env, AOrZero(opc), s) == BaseOf(opc, s)
    ensures ExpReads(AOrZero(opc)) == BaseReads(opc) && !ExpLoads(AOrZero(opc))
  {
  }

  /** addi and addis; rA = 0 is the number zero. */
  lemma {:induction false} AddImmediate(env: Env, opc: Word, s: State)
    requires MainOpcode(opc) == 14 || MainOpcode(opc) == 15
    ensures var scale := if MainOpcode(opc) == 14 then 1 else 0x1_0000;
      Computes(env, opc, s, FieldD(opc), (BaseOf(opc, s) + Immediate(opc) * scale) % TWO32, BaseReads(opc), false)
  {
    hide Eval, Computes, ExpReads, ExpLoads, BaseOf, BaseReads, Immediate, SImm, Shift16;
    var x := Immediate(opc) * (if MainOpcode(opc) == 14 then 1 else 0x1_0000);
    var w: Word := if MainOpcode(opc) == 14 then SImm(opc) else Shift16(opc);
    var e := Sum(AOrZero(opc), Imm(w));
    assert TemplateOf(opc) == ValueCalls(FieldD(opc), e, false);
    hide TemplateOf;
    BaseValue(env, opc, s);
    SumReads(AOrZero(opc), Imm(w));
    assert ExpReads(e) == BaseReads(opc) + {} == BaseReads(opc);
    ValueComputes(env, opc, s, FieldD(opc), e, false);
    BinaryValue(env, Plus, AOrZero(opc), Imm(w), s);
    OperandValues(env, opc, s);
    SImmIsImmediate(opc);
    ShiftedImmediate(opc);
    assert w == FromInt(x);
    SumModulo(BaseOf(opc, s), x);
  }

  lemma {:induction false} SumReads(a: Exp, b: Exp)
    ensures ExpReads(Sum(a, b)) == ExpReads(a) + ExpReads(b) && ExpLoads(Sum(a, b)) == (ExpLoads(a) || ExpLoads(b))
    ensures forall w :: ExpReads(Imm(w)) == {} && !ExpLoads(Imm(w))
  {
  }

  lemma {:induction false} ShiftedImmediate(opc: Word)
    ensures Shift16(opc) == FromInt(Immediate(opc) * 0x1_0000)
  {
  }

  lemma {:induction false} SumModulo(a: int, x: int)
    ensures (a + FromInt(x)) % TWO32 == (a + x) % TWO32
  {
  }

  /** Bit i of the immediate of a logic form, in the low or the high half. */
  predicate ImmediateBit(opc: Word, high: bool, i: nat) {
    if high then 16 <= i < 32 && BitAt(opc, i - 16) else i < 16 && BitAt(opc, i)
  }

  lemma {:induction false} ImmediateBits(opc: Word, i: nat)
    requires i < 32
    ensures BitAt(UImm(opc), i) == ImmediateBit(opc, false, i)
    ensures BitAt(Shift16(opc), i) == ImmediateBit(opc, true, i)
  {
    Pow2Values();
    LowBits(opc, 16, i);
    ShiftLeftIsProduct(opc % 0x1_0000, 16);
    ShiftLeftBit(opc % 0x1_0000, 16, i);
    if i >= 16 {
      LowBits(opc, 16, i - 16);
    }
  }

  predicate IsLogicImmediate(opc: Word) { 24 <= MainOpcode(opc) <= 29 }

  function ImmediateOp(main: nat): BitOp {
    if main <= 25 then Or else if main <= 27 then Xor else And
  }

  /** ori, oris, xori, xoris, andi. and andis.; the last two record. */
  lemma {:induction false} LogicImmediate(env: Env, opc: Word, s: State)
    requires IsLogicImmediate(opc)
    ensures var v, x, main := Step(env, opc, s).gpr[FieldA(opc)], s.gpr[FieldD(opc)], MainOpcode(opc);
      && Computes(env, opc, s, FieldA(opc), v, {FieldD(opc)}, main >= 28)
      && forall i: nat | i < 32 :: BitAt(v, i) ==
           (var y := ImmediateBit(opc, main % 2 == 1, i);
            if main <= 25 then BitAt(x, i) || y else if main <= 27 then BitAt(x, i) != y else BitAt(x, i) && y)
  {
    hide Eval, Records, FieldShows, BitAt, Logic, ImmediateBit, UImm, Shift16;
    var main := MainOpcode(opc);
    var w := if main % 2 == 1 then Shift16(opc) else UImm(opc);
    var op := ImmediateOp(main);
    var e := Binary(Bits(op), S(opc), Imm(w));
    assert TemplateOf(opc) == ValueCalls(FieldA(opc), e, main >= 28);
    hide TemplateOf;
    ImmediateReads(Bits(op), opc, w);
    ValueComputes(env, opc, s, FieldA(opc), e, main >= 28);
    BinaryValue(env, Bits(op), S(opc), Imm(w), s);
    OperandValues(env, opc, s);
    hide Step;
    LogicBits(op, s.gpr[FieldD(opc)], w);
    forall i: nat | i < 32 ensures BitAt(w, i) == ImmediateBit(opc, main % 2 == 1, i) {
      ImmediateBits(opc, i);
    }
  }

  // --------------------------------------------------------- rotates and moves

  predicate IsRotate(opc: Word) { MainOpcode(opc) == 20 || MainOpcode(opc) == 21 || MainOpcode(opc) == 23 }

  ghost function RotateReads(opc: Word): set<nat> {
    if MainOpcode(opc) == 20 then {FieldD(opc) as nat, FieldA(opc)}
    else if MainOpcode(opc) == 21 then {FieldD(opc) as nat}
    else {FieldD(opc) as nat, FieldB(opc)}
  }

  function RotateExp(opc: Word): Exp
    requires IsRotate(opc)
  {
    var m := Mask(FieldMB(opc), FieldME(opc));
    var rotated := Binary(Rotate, S(opc), if MainOpcode(opc) == 23 then B(opc) else Imm(FieldB(opc)));
    if MainOpcode(opc) == 20 then
      Binary(Bits(Or), Binary(Bits(And), rotated, Imm(m)), Binary(Bits(And), A(opc), Imm(Complement(m))))
    else Binary(Bits(And), rotated, Imm(m))
  }

  lemma {:induction false} RotateExpReads(opc: Word)
    requires IsRotate(opc)
    ensures ExpReads(RotateExp(opc)) == RotateReads(opc) && !ExpLoads(RotateExp(opc))
  {
    hide Mask, Complement, MainOpcode, FieldA, FieldB, FieldD, FieldMB, FieldME, ExpReads, ExpLoads;
    var m := Mask(FieldMB(opc), FieldME(opc));
    var amount := if MainOpcode(opc) == 23 then B(opc) else Imm(FieldB(opc));
    var rotated := Binary(Rotate, S(opc), amount);
    BinaryReads(Rotate, S(opc), amount);
    BinaryReads(Bits(And), rotated, Imm(m));
    var kept := Binary(Bits(And), A(opc), Imm(Complement(m)));
    BinaryReads(Bits(And), A(opc), Imm(Complement(m)));
    BinaryReads(Bits(Or), Binary(Bits(And), rotated, Imm(m)), kept);
    RegisterOperands(opc);
  }

  lemma {:induction false} BinaryReads(op: BinaryOp, a: Exp, b: Exp)
    ensures ExpReads(Binary(op, a, b)) == ExpReads(a) + ExpReads(b)
    ensures ExpLoads(Binary(op, a, b)) == (ExpLoads(a) || ExpLoads(b))
  {
  }

  lemma {:induction false} RegisterOperands(opc: Word)
    ensures ExpReads(A(opc)) == {FieldA(opc)} && ExpReads(B(opc)) == {FieldB(opc)} && ExpReads(S(opc)) == {FieldD(opc)}
    ensures !ExpLoads(A(opc)) && !ExpLoads(B(opc)) && !ExpLoads(S(opc))
    ensures forall w :: ExpReads(Imm(w)) == {} && !ExpLoads(Imm(w))
  {
  }

  /** The rotate forms write rA alone, and record it; their bits are in module Rotating. */
  lemma {:induction false} RotateComputes(env: Env, opc: Word, s: State)
    requires IsRotate(opc)
    ensures Computes(env, opc, s, FieldA(opc), Step(env, opc, s).gpr[FieldA(opc)], RotateReads(opc), RecordBit(opc))
  {
    hide Records, FieldShows, RotateReads, Eval, Mask;
    assert TemplateOf(opc) == ValueCalls(FieldA(opc), RotateExp(opc), RecordBit(opc));
    hide TemplateOf, RotateExp, ExpReads, ExpLoads;
    RotateExpReads(opc);
    ValueComputes(env, opc, s, FieldA(opc), RotateExp(opc), RecordBit(opc));
    hide Step;
  }

  /** All bits of the CR. */
  ghost function WholeCr(): set<nat> {
    set r: nat {:trigger r in Everything} | 32 <= r < 64
  }

  /** mfcr */
  lemma {:induction false} MoveFromCr(env: Env, opc: Word, s: State)
    requires MainOpcode(opc) == 31 && ExtOpcode(opc) == 19
    ensures Computes(env, opc, s, FieldD(opc), s.cr, WholeCr(), false)
  {
    hide TemplateOf, Computes, CrMembers, WholeCr;
    MfcrTemplate(opc);
    ValueComputes(env, opc, s, FieldD(opc), CrReg, false);
    AllCrBits();
  }

  lemma {:induction false} MfcrTemplate(opc: Word)
    requires MainOpcode(opc) == 31 && ExtOpcode(opc) == 19
    ensures TemplateOf(opc) == ValueCalls(FieldD(opc), CrReg, false)
  {
  }

  lemma {:induction false} AllCrBits()
    ensures CrMembers(TWO32 - 1) == WholeCr()
  {
    hide BitAt;
    forall r: nat | r in Everything ensures r in CrMembers(TWO32 - 1) <==> r in WholeCr() {
      if 32 <= r < 64 {
        AllOnes(r - 32);
      }
    }
    assert CrMembers(TWO32 - 1) <= Everything && WholeCr() <= Everything;
  }

  lemma {:induction false} AllOnes(i: nat)
    requires i < 32
    ensures BitAt(TWO32 - 1, i)
  {
    Pow2Values();
    OnesValue(32);
    OnesBit(32, i);
  }

  /** The user-level special registers: XER, LR and CTR. */
  predicate IsUserSpr(opc: Word) {
    FieldB(opc) == 0 && (FieldA(opc) == 1 || FieldA(opc) == 8 || FieldA(opc) == 9)
  }

  ghost function SprSet(opc: Word): set<nat> {
    if FieldA(opc) == 1 then {XER_CA, XER_OV, XER_SO} else if FieldA(opc) == 8 then {LR} else {CTR}
  }

  /** mfspr from these */
  lemma {:induction false} MoveFromSpr(env: Env, opc: Word, s: State)
    requires MainOpcode(opc) == 31 && ExtOpcode(opc) == 339 && IsUserSpr(opc)
    ensures Computes(env, opc, s, FieldD(opc),
                     if FieldA(opc) == 1 then s.xer else if FieldA(opc) == 8 then s.lr else s.ctr, SprSet(opc), false)
  {
    hide Computes;
    var e := if FieldA(opc) == 1 then XerReg else if FieldA(opc) == 8 then LrReg else CtrReg;
    assert TemplateOf(opc) == ValueCalls(FieldD(opc), e, false);
    ValueComputes(env, opc, s, FieldD(opc), e, false);
  }

  /** mtspr to these */
  lemma {:induction false} MoveToSpr(env: Env, opc: Word, s: State)
    requires MainOpcode(opc) == 31 && ExtOpcode(opc) == 467 && IsUserSpr(opc)
    ensures var v, next := s.gpr[FieldD(opc)], s.(pc := Next(s.pc));
      Step(env, opc, s) == if FieldA(opc) == 1 then next.(xer := v)
                           else if FieldA(opc) == 8 then next.(lr := v) else next.(ctr := v)
    ensures Records(opc, {FieldD(opc)}, SprSet(opc), false, false)
  {
    hide Records, Step;
    var e := S(opc);
    var call := if FieldA(opc) == 1 then WriteXer(e) else if FieldA(opc) == 8 then WriteLr(e) else WriteCtr(e);
    assert TemplateOf(opc) == [call];
    hide TemplateOf;
    OneCallSteps(env, opc, call, s);
    OneCallRecords(opc, call);
    OneOperand(S(opc));
    OneValue(env, S(opc), s);
  }

  // ------------------------------------------------- what has no template

  /** The opcodes the dispatch models. */
  predicate IsModelled(opc: Word) {
    var main, ext := MainOpcode(opc), ExtOpcode(opc);
    if main == 31 then
      ext in {0, 8, 10, 11, 19, 24, 26, 28, 32, 40, 60, 75, 104, 124, 136, 138, 144, 200, 202, 232, 234, 235, 266, 284,
              316, 412, 444, 459, 476, 491, 536, 792, 824, 922, 954}
      || ext in {23, 55, 87, 119, 151, 183, 215, 247, 279, 311, 343, 375, 407, 439}
      || ext in {535, 567, 599, 631, 663, 695, 727, 759}
      || ((ext == 339 || ext == 467) && IsUserSpr(opc))
    else if main == 19 then ext in {0, 16, 33, 129, 193, 225, 257, 289, 417, 449, 528}
    else main == 7 || main == 8 || 10 <= main <= 16 || main == 18 || main == 20 || main == 21
         || 23 <= main <= 29 || 32 <= main <= 55 || main == 59 || main == 63
  }

  /** All others are recorded as reading and writing everything. */
  lemma {:induction false} UnmodelledExactly(opc: Word)
    ensures AnalyzeInsn(opc).isEverything <==> !IsModelled(opc)
    ensures AnalyzeInsn(opc).isEverything ==> AnalyzeInsn(opc) == EVERYTHING_EFFECT
  {
    ModelledHasTemplate(opc);
    hide IsModelled, TemplateOf;
    AnalyzeSets(opc);
  }

  lemma {:induction false} PlainIsModelled(t: Template)
    requires PlainTemplate(t)
    ensures t != EVERYTHING
  {
    assert DoEverything in EVERYTHING;
  }

  /** The main opcodes other than 19 and 31. */
  lemma {:induction false} ModelledMain(opc: Word)
    requires MainOpcode(opc) != 31 && MainOpcode(opc) != 19
    ensures TemplateOf(opc) == EVERYTHING <==> !IsModelled(opc)
  {
    hide Mask, Record, Update, LoadMultiple, StoreMultiple, CtrCalls, CrCalls, LinkCalls;
    forall t: Template | PlainTemplate(t) ensures t != EVERYTHING {
      PlainIsModelled(t);
    }
    TemplateKinds(opc);
    assert DoEverything in EVERYTHING;
    assert |EVERYTHING| == 1 && EVERYTHING[0] == DoEverything;
  }

  lemma {:induction false} ModelledGroup1(opc: Word)
    requires MainOpcode(opc) == 19
    ensures Group1(opc) == EVERYTHING <==> !IsModelled(opc)
  {
    hide CtrCalls, CrCalls, LinkCalls;
    assert |EVERYTHING| == 1 && EVERYTHING[0] == DoEverything;
  }

  lemma {:induction false} ModelledGroup2(opc: Word)
    requires MainOpcode(opc) == 31
    ensures Group2(opc) == EVERYTHING <==> !IsModelled(opc)
  {
    hide ToD, ToA, CarryingToD, LogicX, ArithShiftBy, LoadTo, LoadSignedTo, StoreFrom, FpuLoad, FpuStore, Mtcrf;
    forall t: Template | PlainTemplate(t) ensures t != EVERYTHING {
      PlainIsModelled(t);
    }
    assert |EVERYTHING| == 1 && EVERYTHING[0] == DoEverything;
  }

  lemma {:induction false} ModelledHasTemplate(opc: Word)
    ensures TemplateOf(opc) == EVERYTHING <==> !IsModelled(opc)
  {
    hide IsModelled, Group1, Group2;
    if MainOpcode(opc) == 31 {
      ModelledGroup2(opc);
      assert TemplateOf(opc) == Group2(opc);
    } else if MainOpcode(opc) == 19 {
      ModelledGroup1(opc);
      assert TemplateOf(opc) == Group1(opc);
    } else {
      ModelledMain(opc);
    }
  }
}
