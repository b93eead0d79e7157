/** The instruction templates: what each opcode asks of a semantics backend.

    A template is a list of backend calls.  Both backends, the one that executes
    and the one that records effects, run the same list, as both instantiate the
    same C++ template. */
module Templates {
  import opened Words
  import opened LiveSets
  import opened Arithmetic

  type Reg = r: nat | r < 32
  type Field = f: nat | f < 8
  type CrBitNo = b: nat | b < 32

  // ------------------------------------------------------------- field decode

  function MainOpcode(opc: Word): nat { (opc / 0x400_0000) % 64 }
  function ExtOpcode(opc: Word): nat { (opc / 2) % 1024 }
  function FieldD(opc: Word): Reg { (opc / 0x20_0000) % 32 }
  function FieldA(opc: Word): Reg { (opc / 0x1_0000) % 32 }
  function FieldB(opc: Word): Reg { (opc / 0x800) % 32 }
  function FieldMB(opc: Word): Reg { (opc / 0x40) % 32 }
  function FieldME(opc: Word): Reg { (opc / 2) % 32 }
  function FieldCRM(opc: Word): nat { (opc / 0x1000) % 256 }
  predicate RecordBit(opc: Word) { opc % 2 == 1 }
  predicate AbsoluteBit(opc: Word) { (opc / 2) % 2 == 1 }
  predicate LinkBit(opc: Word) { opc % 2 == 1 }

  function SImm(opc: Word): Word {
    var imm := opc % 0x1_0000;
    if imm >= 0x8000 then imm + 0xffff_0000 else imm
  }

  function UImm(opc: Word): Word { opc % 0x1_0000 }
  function Shift16(opc: Word): Word { (opc % 0x1_0000) * 0x1_0000 }

  // -------------------------------------------------- expressions and calls

  datatype UnaryOp = Not | Negate | ExtByte | ExtHalf | CountZeros | NonZero | AllOnes

  datatype BinaryOp =
    | Plus | Times | TimesHighS | TimesHighU | DivideS | DivideU
    | LeftShift | RightShift | ArithShift | Rotate | Bits(op: BitOp)
    | CarryOut | ShiftLoses | Test(op: BitOp)

  /** A value a template computes from what it read; truth values are 0 and 1. */
  datatype Exp =
    | Imm(w: Word)
    | Gpr(r: Reg)
    | Carry
    | XerReg
    | LrReg
    | CtrReg
    | CrReg
    | CrField(f: Field)
    | CrBit(bit: CrBitNo)
    | Unary(uop: UnaryOp, a: Exp)
    | Binary(bop: BinaryOp, a: Exp, b: Exp)
    | CarryOut3(a: Exp, b: Exp, c: Exp)
    | Load(addr: Exp, size: nat)
    | LoadSigned(addr: Exp, size: nat)

  datatype Call =
    | WriteGpr(r: Reg, e: Exp)
    | WriteXerCa(e: Exp)
    | WriteCr0(e: Exp)
    | WriteCrFieldSigned(f: Field, a: Exp, b: Exp)
    | WriteCrFieldUnsigned(f: Field, a: Exp, b: Exp)
    | WriteCrBit(bit: CrBitNo, e: Exp)
    | WriteCrField(f: Field, e: Exp)
    | WriteCrMasked(e: Exp, mask: Word)
    | WriteXer(e: Exp)
    | WriteLr(e: Exp)
    | WriteCtr(e: Exp)
    | WriteMem(addr: Exp, e: Exp, size: nat)
    | FpuAccess(addr: Exp, loads: bool, stores: bool)
    | FpuCompareTo(f: Field)
    | FpuRecord
    | Touch(e: Exp)      // a read whose value the template drops
    | ClobberLr          // write_lr() and write_ctr() without a value
    | ClobberCtr
    | Branch
    | DoEverything
  {
    /** The values a call is given. */
    function Operands(): seq<Exp> {
      match this
      case WriteCrFieldSigned(_, a, b) => [a, b]
      case WriteCrFieldUnsigned(_, a, b) => [a, b]
      case WriteMem(addr, e, _) => [addr, e]
      case FpuAccess(addr, _, _) => [addr]
      case WriteGpr(_, e) => [e]
      case WriteXerCa(e) => [e]
      case WriteCr0(e) => [e]
      case WriteCrBit(_, e) => [e]
      case WriteCrField(_, e) => [e]
      case WriteCrMasked(e, _) => [e]
      case WriteXer(e) => [e]
      case WriteLr(e) => [e]
      case WriteCtr(e) => [e]
      case Touch(e) => [e]
      case _ => []
    }

    /** Compare results copy XER.SO into the CR field they set. */
    predicate CopiesSo() {
      WriteCr0? || WriteCrFieldSigned? || WriteCrFieldUnsigned? || FpuCompareTo?
    }

    predicate Loads() {
      FpuAccess? && loads
    }

    predicate Stores() {
      WriteMem? || (FpuAccess? && stores)
    }

    /** A call that both backends carry out in full. */
    predicate Plain() {
      !(Touch? || ClobberLr? || ClobberCtr? || Branch? || DoEverything?)
    }
  }

  type Template = seq<Call>

  const EVERYTHING: Template := [DoEverything]

  predicate PlainTemplate(t: Template) {
    forall c | c in t :: c.Plain()
  }

  // -------------------------------------------------------- template shapes

  function A(opc: Word): Exp { Gpr(FieldA(opc)) }
  function B(opc: Word): Exp { Gpr(FieldB(opc)) }
  function S(opc: Word): Exp { Gpr(FieldD(opc)) }
  function Sum(a: Exp, b: Exp): Exp { Binary(Plus, a, b) }

  /** rA = 0 stands for the literal zero. */
  function AOrZero(opc: Word): Exp {
    if FieldA(opc) == 0 then Imm(0) else A(opc)
  }

  function Record(opc: Word, e: Exp): (t: Template)
    ensures PlainTemplate(t)
  {
    if RecordBit(opc) then [WriteCr0(e)] else []
  }

  /** Arithmetic forms write rD, logical forms write rA. */
  function ToD(opc: Word, e: Exp): (t: Template)
    ensures PlainTemplate(t)
  {
    [WriteGpr(FieldD(opc), e)] + Record(opc, e)
  }

  function ToA(opc: Word, e: Exp): (t: Template)
    ensures PlainTemplate(t)
  {
    [WriteGpr(FieldA(opc), e)] + Record(opc, e)
  }

  function CarryingToD(opc: Word, e: Exp, c: Exp): (t: Template)
    ensures PlainTemplate(t)
  {
    [WriteGpr(FieldD(opc), e), WriteXerCa(c)] + Record(opc, e)
  }

  function LogicX(opc: Word, op: BitOp): (t: Template)
    ensures PlainTemplate(t)
  {
    ToA(opc, Binary(Bits(op), S(opc), B(opc)))
  }

  function LogicD(opc: Word, op: BitOp, imm: Word): (t: Template)
    ensures PlainTemplate(t)
  {
    [WriteGpr(FieldA(opc), Binary(Bits(op), S(opc), Imm(imm)))]
  }

  function LogicDRecord(opc: Word, imm: Word): (t: Template)
    ensures PlainTemplate(t)
  {
    var e := Binary(Bits(And), S(opc), Imm(imm));
    [WriteGpr(FieldA(opc), e), WriteCr0(e)]
  }

  function ArithShiftBy(opc: Word, sh: Exp): (t: Template)
    ensures PlainTemplate(t)
  {
    var e := Binary(ArithShift, S(opc), sh);
    [WriteGpr(FieldA(opc), e), WriteXerCa(Binary(ShiftLoses, S(opc), sh))] + Record(opc, e)
  }

  function CrLogical(opc: Word, op: BitOp): (t: Template)
    ensures PlainTemplate(t)
  {
    [WriteCrBit(FieldD(opc), Binary(Test(op), CrBit(FieldA(opc)), CrBit(FieldB(opc))))]
  }

  function LoadTo(opc: Word, addr: Exp, size: nat, update: bool): (t: Template)
    ensures PlainTemplate(t)
  {
    [WriteGpr(FieldD(opc), Load(addr, size))] + Update(opc, addr, update)
  }

  function LoadSignedTo(opc: Word, addr: Exp, update: bool): (t: Template)
    ensures PlainTemplate(t)
  {
    [WriteGpr(FieldD(opc), LoadSigned(addr, 2))] + Update(opc, addr, update)
  }

  function StoreFrom(opc: Word, addr: Exp, size: nat, update: bool): (t: Template)
    ensures PlainTemplate(t)
  {
    [WriteMem(addr, S(opc), size)] + Update(opc, addr, update)
  }

  function FpuLoad(opc: Word, addr: Exp, update: bool): (t: Template)
    ensures PlainTemplate(t)
  {
    [FpuAccess(addr, true, false)] + Update(opc, addr, update)
  }

  function FpuStore(opc: Word, addr: Exp, update: bool): (t: Template)
    ensures PlainTemplate(t)
  {
    [FpuAccess(addr, false, true)] + Update(opc, addr, update)
  }

  function Update(opc: Word, addr: Exp, update: bool): (t: Template)
    ensures PlainTemplate(t)
  {
    if update then [WriteGpr(FieldA(opc), addr)] else []
  }

  function LoadMultiple(r: nat, addr: Exp): (t: Template)
    ensures PlainTemplate(t)
    decreases 32 - r
  {
    if r > 31 then [] else [WriteGpr(r, Load(addr, 4))] + LoadMultiple(r + 1, Sum(addr, Imm(4)))
  }

  function StoreMultiple(r: nat, addr: Exp): (t: Template)
    ensures PlainTemplate(t)
    decreases 32 - r
  {
    if r > 31 then [] else [WriteMem(addr, Gpr(r), 4)] + StoreMultiple(r + 1, Sum(addr, Imm(4)))
  }

  function DAddr(opc: Word): Exp { Sum(AOrZero(opc), Imm(SImm(opc))) }
  function DAddrUpdate(opc: Word): Exp { Sum(A(opc), Imm(SImm(opc))) }
  function XAddr(opc: Word): Exp { Sum(AOrZero(opc), B(opc)) }
  function XAddrUpdate(opc: Word): Exp { Sum(A(opc), B(opc)) }

  function FpuArith(opc: Word): (t: Template)
    ensures PlainTemplate(t)
  {
    [FpuAccess(Imm(0), false, false)] + (if RecordBit(opc) then [FpuRecord] else [])
  }

  function FpuCompare(opc: Word): (t: Template)
    ensures PlainTemplate(t)
  {
    [FpuAccess(Imm(0), false, false), FpuCompareTo(FieldD(opc) / 4)]
  }

  // ----------------------------------------------------------------- branches

  predicate IsBranch(opc: Word) {
    || MainOpcode(opc) == 18
    || MainOpcode(opc) == 16
    || (MainOpcode(opc) == 19 && (ExtOpcode(opc) == 16 || ExtOpcode(opc) == 528))
  }

  predicate SkipsCtrTest(opc: Word) { BitAt(FieldD(opc), 2) }
  predicate SkipsCrTest(opc: Word) { BitAt(FieldD(opc), 4) }

  function LinkCalls(opc: Word): Template {
    if LinkBit(opc) then [ClobberLr] else []
  }

  function CtrCalls(opc: Word): Template {
    if SkipsCtrTest(opc) then [] else [Touch(CtrReg), ClobberCtr]
  }

  function CrCalls(opc: Word): Template {
    if SkipsCrTest(opc) then [] else [Touch(CrBit(FieldA(opc)))]
  }

  function Bx(opc: Word): Template { LinkCalls(opc) + [Branch] }

  function Bcx(opc: Word): Template {
    CtrCalls(opc) + CrCalls(opc) + LinkCalls(opc) + [Branch]
  }

  function Bcctrx(opc: Word): Template {
    [Touch(CtrReg)] + CrCalls(opc) + LinkCalls(opc) + [Branch]
  }

  function Bclrx(opc: Word): Template {
    [Touch(LrReg)] + CtrCalls(opc) + CrCalls(opc) + LinkCalls(opc) + [Branch]
  }

  // -------------------------------------------------------- special registers

  function Mfspr(opc: Word): (t: Template)
    ensures t == EVERYTHING || PlainTemplate(t)
  {
    if FieldB(opc) == 0 && FieldA(opc) == 1 then [WriteGpr(FieldD(opc), XerReg)]
    else if FieldB(opc) == 0 && FieldA(opc) == 8 then [WriteGpr(FieldD(opc), LrReg)]
    else if FieldB(opc) == 0 && FieldA(opc) == 9 then [WriteGpr(FieldD(opc), CtrReg)]
    else EVERYTHING
  }

  function Mtspr(opc: Word): (t: Template)
    ensures t == EVERYTHING || PlainTemplate(t)
  {
    if FieldB(opc) == 0 && FieldA(opc) == 1 then [WriteXer(S(opc))]
    else if FieldB(opc) == 0 && FieldA(opc) == 8 then [WriteLr(S(opc))]
    else if FieldB(opc) == 0 && FieldA(opc) == 9 then [WriteCtr(S(opc))]
    else EVERYTHING
  }

  /** The 8-bit CRM with every bit widened to a CR field. */
  function CrmMask(crm: nat, fields: nat): (m: Word)
    requires fields <= 8
  {
    if fields == 0 then 0
    else
      var m := CrmMask(crm, fields - 1);
      if BitAt(crm, 8 - fields) then Logic(Or, m, FieldMask(fields - 1)) else m
  }

  /** The loop of mtcrf. */
  method ExpandCrm(crm: nat) returns (mask: Word)
    ensures mask == CrmMask(crm, 8)
  {
    mask := 0;
    for i := 0 to 8
      invariant mask == CrmMask(crm, i)
    {
      if BitAt(crm, 7 - i) {
        mask := Logic(Or, mask, FieldMask(i));
      }
    }
  }

  lemma {:induction false} CrmMaskBits(crm: nat, fields: nat, i: nat)
    requires fields <= 8 && i < 32
    ensures BitAt(CrmMask(crm, fields), i) <==> 7 - i / 4 < fields && BitAt(crm, i / 4)
  {
    if fields == 0 {
      ZeroBit(i);
    } else {
      CrmMaskBits(crm, fields - 1, i);
      FieldMaskBits(fields - 1);
      LogicBit(Or, CrmMask(crm, fields - 1), FieldMask(fields - 1), i);
    }
  }

  function Mtcrf(opc: Word): (t: Template)
    ensures PlainTemplate(t)
  {
    [WriteCrMasked(S(opc), CrmMask(FieldCRM(opc), 8))]
  }

  // ----------------------------------------------------------------- dispatch

  function Group1(opc: Word): (t: Template)
    requires MainOpcode(opc) == 19
    ensures t == EVERYTHING || PlainTemplate(t) || IsBranch(opc)
  {
    match ExtOpcode(opc)
    case 33 => CrLogical(opc, Nor)
    case 129 => CrLogical(opc, Andc)
    case 193 => CrLogical(opc, Xor)
    case 225 => CrLogical(opc, Nand)
    case 257 => CrLogical(opc, And)
    case 289 => CrLogical(opc, Eqv)
    case 417 => CrLogical(opc, Orc)
    case 449 => CrLogical(opc, Or)
    case 16 => Bclrx(opc)
    case 528 => Bcctrx(opc)
    case 0 => [WriteCrField(FieldD(opc) / 4, CrField(FieldA(opc) / 4))]
    case _ => EVERYTHING
  }

  function Group2(opc: Word): (t: Template)
    ensures t == EVERYTHING || PlainTemplate(t)
  {
    match ExtOpcode(opc)
    // compare
    case 0 => [WriteCrFieldSigned(FieldD(opc) / 4, A(opc), B(opc))]
    case 32 => [WriteCrFieldUnsigned(FieldD(opc) / 4, A(opc), B(opc))]
    // subtract
    case 8 => CarryingToD(opc, Sum(Sum(Unary(Not, A(opc)), B(opc)), Imm(1)),
                          CarryOut3(Unary(Not, A(opc)), B(opc), Imm(1)))
    case 40 => ToD(opc, Sum(Sum(Unary(Not, A(opc)), B(opc)), Imm(1)))
    case 136 => CarryingToD(opc, Sum(Sum(Unary(Not, A(opc)), B(opc)), Carry),
                            CarryOut3(Unary(Not, A(opc)), B(opc), Carry))
    case 200 => CarryingToD(opc, Sum(Unary(Not, A(opc)), Carry),
                            Binary(Test(Andc), Carry, Unary(NonZero, A(opc))))
    case 232 => CarryingToD(opc, Sum(Sum(Unary(Not, A(opc)), Carry), Imm(0xffff_ffff)),
                            Binary(Test(Orc), Carry, Unary(AllOnes, A(opc))))
    // add
    case 10 => CarryingToD(opc, Sum(A(opc), B(opc)), Binary(CarryOut, A(opc), B(opc)))
    case 138 => CarryingToD(opc, Sum(Sum(A(opc), B(opc)), Carry), CarryOut3(A(opc), B(opc), Carry))
    case 202 => CarryingToD(opc, Sum(A(opc), Carry), Binary(Test(And), Unary(AllOnes, A(opc)), Carry))
    case 234 => CarryingToD(opc, Sum(Sum(A(opc), Carry), Imm(0xffff_ffff)),
                            Binary(Test(Or), Unary(NonZero, A(opc)), Carry))
    case 266 => ToD(opc, Sum(A(opc), B(opc)))
    // multiply, divide
    case 11 => ToD(opc, Binary(TimesHighU, A(opc), B(opc)))
    case 75 => ToD(opc, Binary(TimesHighS, A(opc), B(opc)))
    case 235 => ToD(opc, Binary(Times, A(opc), B(opc)))
    case 459 => ToD(opc, Binary(DivideU, A(opc), B(opc)))
    case 491 => ToD(opc, Binary(DivideS, A(opc), B(opc)))
    // logic
    case 28 => LogicX(opc, And)
    case 60 => LogicX(opc, Andc)
    case 124 => LogicX(opc, Nor)
    case 284 => LogicX(opc, Eqv)
    case 316 => LogicX(opc, Xor)
    case 412 => LogicX(opc, Orc)
    case 444 => LogicX(opc, Or)
    case 476 => LogicX(opc, Nand)
    // negate, shift, count, extend
    case 104 => ToD(opc, Unary(Negate, A(opc)))
    case 24 => ToA(opc, Binary(LeftShift, S(opc), B(opc)))
    case 536 => ToA(opc, Binary(RightShift, S(opc), B(opc)))
    case 792 => ArithShiftBy(opc, B(opc))
    case 824 => ArithShiftBy(opc, Imm(FieldB(opc)))
    case 26 => ToA(opc, Unary(CountZeros, S(opc)))
    case 922 => ToA(opc, Unary(ExtHalf, S(opc)))
    case 954 => ToA(opc, Unary(ExtByte, S(opc)))
    // load and store indexed
    case 23 => LoadTo(opc, XAddr(opc), 4, false)
    case 55 => LoadTo(opc, XAddrUpdate(opc), 4, true)
    case 87 => LoadTo(opc, XAddr(opc), 1, false)
    case 119 => LoadTo(opc, XAddrUpdate(opc), 1, true)
    case 279 => LoadTo(opc, XAddr(opc), 2, false)
    case 311 => LoadTo(opc, XAddrUpdate(opc), 2, true)
    case 343 => LoadSignedTo(opc, XAddr(opc), false)
    case 375 => LoadSignedTo(opc, XAddrUpdate(opc), true)
    case 151 => StoreFrom(opc, XAddr(opc), 4, false)
    case 183 => StoreFrom(opc, XAddrUpdate(opc), 4, true)
    case 215 => StoreFrom(opc, XAddr(opc), 1, false)
    case 247 => StoreFrom(opc, XAddrUpdate(opc), 1, true)
    case 407 => StoreFrom(opc, XAddr(opc), 2, false)
    case 439 => StoreFrom(opc, XAddrUpdate(opc), 2, true)
    // SPR and CR moves
    case 19 => [WriteGpr(FieldD(opc), CrReg)]
    case 144 => Mtcrf(opc)
    case 339 => Mfspr(opc)
    case 467 => Mtspr(opc)
    // FPU indexed
    case 535 => FpuLoad(opc, XAddr(opc), false)
    case 567 => FpuLoad(opc, XAddrUpdate(opc), true)
    case 599 => FpuLoad(opc, XAddr(opc), false)
    case 631 => FpuLoad(opc, XAddrUpdate(opc), true)
    case 663 => FpuStore(opc, XAddr(opc), false)
    case 695 => FpuStore(opc, XAddrUpdate(opc), true)
    case 727 => FpuStore(opc, XAddr(opc), false)
    case 759 => FpuStore(opc, XAddrUpdate(opc), true)
    case _ => EVERYTHING
  }

  function RotateAndMask(opc: Word, amount: Exp): (t: Template)
    ensures PlainTemplate(t)
  {
    ToA(opc, Binary(Bits(And), Binary(Rotate, S(opc), amount), Imm(Mask(FieldMB(opc), FieldME(opc)))))
  }

  function RotateAndInsert(opc: Word): (t: Template)
    ensures PlainTemplate(t)
  {
    var m := Mask(FieldMB(opc), FieldME(opc));
    ToA(opc, Binary(Bits(Or),
                    Binary(Bits(And), Binary(Rotate, S(opc), Imm(FieldB(opc))), Imm(m)),
                    Binary(Bits(And), A(opc), Imm(Complement(m)))))
  }

  function TemplateOf(opc: Word): (t: Template)
    ensures t == EVERYTHING || PlainTemplate(t) || IsBranch(opc)
  {
    match MainOpcode(opc)
    case 7 => [WriteGpr(FieldD(opc), Binary(Times, A(opc), Imm(SImm(opc))))]
    case 8 => [WriteGpr(FieldD(opc), Sum(Sum(Unary(Not, A(opc)), Imm(SImm(opc))), Imm(1))),
               WriteXerCa(CarryOut3(Unary(Not, A(opc)), Imm(SImm(opc)), Imm(1)))]
    case 10 => [WriteCrFieldUnsigned(FieldD(opc) / 4, A(opc), Imm(UImm(opc)))]
    case 11 => [WriteCrFieldSigned(FieldD(opc) / 4, A(opc), Imm(SImm(opc)))]
    case 12 => [WriteGpr(FieldD(opc), Sum(A(opc), Imm(SImm(opc)))),
                WriteXerCa(Binary(CarryOut, A(opc), Imm(SImm(opc))))]
    case 13 => [WriteGpr(FieldD(opc), Sum(A(opc), Imm(SImm(opc)))),
                WriteXerCa(Binary(CarryOut, A(opc), Imm(SImm(opc)))),
                WriteCr0(Sum(A(opc), Imm(SImm(opc))))]
    case 14 => [WriteGpr(FieldD(opc), Sum(AOrZero(opc), Imm(SImm(opc))))]
    case 15 => [WriteGpr(FieldD(opc), Sum(AOrZero(opc), Imm(Shift16(opc))))]
    case 16 => Bcx(opc)
    case 18 => Bx(opc)
    case 19 => Group1(opc)
    case 20 => RotateAndInsert(opc)
    case 21 => RotateAndMask(opc, Imm(FieldB(opc)))
    case 23 => RotateAndMask(opc, B(opc))
    case 24 => LogicD(opc, Or, UImm(opc))
    case 25 => LogicD(opc, Or, Shift16(opc))
    case 26 => LogicD(opc, Xor, UImm(opc))
    case 27 => LogicD(opc, Xor, Shift16(opc))
    case 28 => LogicDRecord(opc, UImm(opc))
    case 29 => LogicDRecord(opc, Shift16(opc))
    case 31 => Group2(opc)
    case 32 => LoadTo(opc, DAddr(opc), 4, false)
    case 33 => LoadTo(opc, DAddrUpdate(opc), 4, true)
    case 34 => LoadTo(opc, DAddr(opc), 1, false)
    case 35 => LoadTo(opc, DAddrUpdate(opc), 1, true)
    case 36 => StoreFrom(opc, DAddr(opc), 4, false)
    case 37 => StoreFrom(opc, DAddrUpdate(opc), 4, true)
    case 38 => StoreFrom(opc, DAddr(opc), 1, false)
    case 39 => StoreFrom(opc, DAddrUpdate(opc), 1, true)
    case 40 => LoadTo(opc, DAddr(opc), 2, false)
    case 41 => LoadTo(opc, DAddrUpdate(opc), 2, true)
    case 42 => LoadSignedTo(opc, DAddr(opc), false)
    case 43 => LoadSignedTo(opc, DAddrUpdate(opc), true)
    case 44 => StoreFrom(opc, DAddr(opc), 2, false)
    case 45 => StoreFrom(opc, DAddrUpdate(opc), 2, true)
    case 46 => LoadMultiple(FieldD(opc), DAddr(opc))
    case 47 => StoreMultiple(FieldD(opc), DAddr(opc))
    case 48 => FpuLoad(opc, DAddr(opc), false)
    case 49 => FpuLoad(opc, DAddrUpdate(opc), true)
    case 50 => FpuLoad(opc, DAddr(opc), false)
    case 51 => FpuLoad(opc, DAddrUpdate(opc), true)
    case 52 => FpuStore(opc, DAddr(opc), false)
    case 53 => FpuStore(opc, DAddrUpdate(opc), true)
    case 54 => FpuStore(opc, DAddr(opc), false)
    case 55 => FpuStore(opc, DAddrUpdate(opc), true)
    case 59 => FpuArith(opc)
    case 63 => if ExtOpcode(opc) == 0 || ExtOpcode(opc) == 32 then FpuCompare(opc) else FpuArith(opc)
    case _ => EVERYTHING
  }
}
