/** The instructions that set condition bits, bit by bit. */
module Comparing {
  import opened Words
  import opened LiveSets
  import opened Arithmetic
  import opened Templates
  import opened Effects
  import opened Machine
  import opened Soundness
  import opened Results

  // ---------------------------------------------------------------- compares

  /** cmpli, cmpi, cmp and cmpl. */
  predicate IsCompare(opc: Word) {
    MainOpcode(opc) == 10 || MainOpcode(opc) == 11
    || (MainOpcode(opc) == 31 && (ExtOpcode(opc) == 0 || ExtOpcode(opc) == 32))
  }

  predicate IsUnsigned(opc: Word) {
    MainOpcode(opc) == 10 || (MainOpcode(opc) == 31 && ExtOpcode(opc) == 32)
  }

  /** The right operand: rB, or the immediate. */
  function RightOf(opc: Word, s: State): Word {
    if MainOpcode(opc) == 31 then s.gpr[FieldB(opc)]
    else if MainOpcode(opc) == 10 then opc % 0x1_0000
    else FromInt(Immediate(opc))
  }

  /** The signed 16-bit immediate. */
  function Immediate(opc: Word): int {
    if opc % 0x1_0000 >= 0x8000 then opc % 0x1_0000 - 0x1_0000 else opc % 0x1_0000
  }

  lemma {:induction false} SImmIsImmediate(opc: Word)
    ensures SImm(opc) == FromInt(Immediate(opc)) && Signed(SImm(opc)) == Immediate(opc)
  {
    var i := Immediate(opc);
    Unique(i, TWO32, if i < 0 then -1 else 0, if i < 0 then i + TWO32 else i);
  }

  /** The template of a compare. */
  function CompareCall(opc: Word): Call
    requires IsCompare(opc)
  {
    var immediate := if MainOpcode(opc) == 10 then UImm(opc) else SImm(opc);
    var right := if MainOpcode(opc) == 31 then B(opc) else Imm(immediate);
    if IsUnsigned(opc) then WriteCrFieldUnsigned(FieldD(opc) / 4, A(opc), right)
    else WriteCrFieldSigned(FieldD(opc) / 4, A(opc), right)
  }

  lemma {:induction false} CompareTemplates(opc: Word)
    requires IsCompare(opc)
    ensures TemplateOf(opc) == [CompareCall(opc)] && !IsBranch(opc)
  {
  }

  lemma {:induction false} CompareRun(env: Env, opc: Word, s: State)
    requires IsCompare(opc)
    ensures var x, y := s.gpr[FieldA(opc)], RightOf(opc, s);
      var lt := if IsUnsigned(opc) then x < y else Signed(x) < Signed(y);
      var gt := if IsUnsigned(opc) then x > y else Signed(x) > Signed(y);
      Step(env, opc, s) == s.(pc := Next(s.pc), cr := PutField(s.cr, FieldD(opc) / 4, Compared(lt, gt, s.xer)))
  {
    hide PutField, Compared, Signed, TemplateOf, RunFrom, Step, SImm;
    var call := CompareCall(opc);
    CompareTemplates(opc);
    OneCallSteps(env, opc, call, s);
    SImmIsImmediate(opc);
    TwoValues(env, call.a, call.b, s);
  }

  /** The four bits a compare leaves in its field; no other bit and no register changes. */
  lemma {:induction false} CompareBits(env: Env, opc: Word, s: State)
    requires IsCompare(opc)
    ensures var t, x, y, f := Step(env, opc, s), s.gpr[FieldA(opc)], RightOf(opc, s), FieldD(opc) / 4;
      && t == s.(pc := Next(s.pc), cr := t.cr)
      && if IsUnsigned(opc) then FieldShows(t.cr, s.cr, f, x < y, x > y, x == y, BitAt(s.xer, 31))
         else FieldShows(t.cr, s.cr, f, Signed(x) < Signed(y), Signed(x) > Signed(y), x == y, BitAt(s.xer, 31))
  {
    hide Step, PutField, Compared, FieldShows, IsCompare, IsUnsigned, RightOf;
    var x, y, f := s.gpr[FieldA(opc)], RightOf(opc, s), FieldD(opc) / 4;
    CompareRun(env, opc, s);
    if IsUnsigned(opc) {
      ComparedShows(s.cr, f, x < y, x > y, s.xer);
    } else {
      ComparedShows(s.cr, f, Signed(x) < Signed(y), Signed(x) > Signed(y), s.xer);
    }
  }

  /** What a compare is recorded to read and write. */
  lemma {:induction false} CompareRecords(opc: Word)
    requires IsCompare(opc)
    ensures Records(opc, {FieldA(opc), XER_SO} + (if MainOpcode(opc) == 31 then {FieldB(opc) as nat} else {}),
                    FieldBits(FieldD(opc) / 4), false, false)
  {
    hide TemplateOf, Records, IsBranch;
    var call := CompareCall(opc);
    CompareTemplates(opc);
    OneCallRecords(opc, call);
    TwoOperands(call.a, call.b);
    assert CallReads(call) == {FieldA(opc), XER_SO} + (if MainOpcode(opc) == 31 then {FieldB(opc) as nat} else {});
  }

  // -------------------------------------------------------- CR bits and fields

  predicate IsCrLogic(opc: Word) {
    MainOpcode(opc) == 19 && ExtOpcode(opc) in {33, 129, 193, 225, 257, 289, 417, 449}
  }

  /** crnor, crandc, crxor, crnand, crand, creqv, crorc and cror. */
  predicate CrOperation(ext: nat, x: bool, y: bool) {
    match ext
    case 33 => !(x || y)
    case 129 => x && !y
    case 193 => x != y
    case 225 => !(x && y)
    case 257 => x && y
    case 289 => x == y
    case 417 => x || !y
    case _ => x || y
  }

  function CrLogicOp(ext: nat): BitOp {
    match ext
    case 33 => Nor
    case 129 => Andc
    case 193 => Xor
    case 225 => Nand
    case 257 => And
    case 289 => Eqv
    case 417 => Orc
    case _ => Or
  }

  lemma {:induction false} CrLogicTemplate(opc: Word)
    requires IsCrLogic(opc)
    ensures TemplateOf(opc) == CrLogical(opc, CrLogicOp(ExtOpcode(opc)))
  {
  }

  lemma {:induction false} CrLogicCall(env: Env, opc: Word, s: State)
    requires IsCrLogic(opc)
    ensures var e := Binary(Test(CrLogicOp(ExtOpcode(opc))), CrBit(FieldA(opc)), CrBit(FieldB(opc)));
      && CrLogical(opc, CrLogicOp(ExtOpcode(opc))) == [WriteCrBit(FieldD(opc), e)]
      && (Eval(env, e, s) != 0 <==>
            CrOperation(ExtOpcode(opc), BitAt(s.cr, 31 - FieldA(opc)), BitAt(s.cr, 31 - FieldB(opc))))
      && ExpReads(e) == {63 - FieldA(opc), 63 - FieldB(opc)} && !ExpLoads(e)
  {
    hide BitAt;
    var x, y := CrBit(FieldA(opc)), CrBit(FieldB(opc));
    assert Eval(env, x, s) == Truth(BitAt(s.cr, 31 - FieldA(opc)));
    assert Eval(env, y, s) == Truth(BitAt(s.cr, 31 - FieldB(opc)));
  }

  /** CR logic sets one bit from two, and nothing else changes. */
  lemma {:induction false} CrLogicBits(env: Env, opc: Word, s: State)
    requires IsCrLogic(opc)
    ensures var t := Step(env, opc, s);
      && t == s.(pc := Next(s.pc), cr := t.cr)
      && BitShows(t.cr, s.cr, 31 - FieldD(opc),
                  CrOperation(ExtOpcode(opc), BitAt(s.cr, 31 - FieldA(opc)), BitAt(s.cr, 31 - FieldB(opc))))
    ensures Records(opc, {63 - FieldA(opc), 63 - FieldB(opc)}, {63 - FieldD(opc)}, false, false)
  {
    hide TemplateOf, Step, Records, BitAt, PutBit, CrOperation, CrLogicOp, Eval, ExpReads, ExpLoads, BitShows,
         IsCrLogic, RunCall, CrLogical, FieldA, FieldB, FieldD, ExtOpcode;
    CrLogicTemplate(opc);
    CrLogicCall(env, opc, s);
    var e := Binary(Test(CrLogicOp(ExtOpcode(opc))), CrBit(FieldA(opc)), CrBit(FieldB(opc)));
    BitCallSteps(env, opc, FieldD(opc), e, s);
  }

  /** A template that writes one CR bit. */
  lemma {:induction false} BitCallSteps(env: Env, opc: Word, bit: CrBitNo, e: Exp, s: State)
    requires TemplateOf(opc) == [WriteCrBit(bit, e)] && !ExpLoads(e)
    ensures var t := Step(env, opc, s);
      t == s.(pc := Next(s.pc), cr := t.cr) && BitShows(t.cr, s.cr, 31 - bit, Eval(env, e, s) != 0)
    ensures Records(opc, ExpReads(e), {63 - bit}, false, false)
  {
    hide TemplateOf, Step, Records, BitAt, PutBit, Eval, ExpReads, ExpLoads, BitShows, NibbleShows, MaskShows, IsBranch;
    var call := WriteCrBit(bit, e);
    OneCallSteps(env, opc, call, s);
    OneCallRecords(opc, call);
    OneOperand(e);
    OneValue(env, e, s);
    PutsShow(s.cr, 0, 0, 31 - bit, Eval(env, e, s) != 0, 0, 0);
  }

  lemma {:induction false} OneValue(env: Env, e: Exp, s: State)
    ensures EvalAll(env, [e], s) == [Eval(env, e, s)]
  {
    assert [e][1..] == [];
  }

  predicate IsMcrf(opc: Word) { MainOpcode(opc) == 19 && ExtOpcode(opc) == 0 }

  lemma {:induction false} McrfTemplate(opc: Word)
    requires IsMcrf(opc)
    ensures TemplateOf(opc) == [WriteCrField(FieldD(opc) / 4, CrField(FieldA(opc) / 4))]
  {
  }

  lemma {:induction false} FieldOfBit(cr: Word, f: Field, i: nat)
    requires i < 4
    ensures BitAt(FieldOf(cr, f), i) == BitAt(cr, 28 - 4 * f + i)
  {
    Pow2Values();
    LowBits(ShiftRight(cr, (7 - f) * 4), 4, i);
    ShiftRightBit(cr, (7 - f) * 4, i);
  }

  /** mcrf copies one field and changes nothing else. */
  lemma {:induction false} McrfBits(env: Env, opc: Word, s: State, i: nat)
    requires IsMcrf(opc) && i < 32
    ensures var t, d, f := Step(env, opc, s), FieldD(opc) / 4, FieldA(opc) / 4;
      && t == s.(pc := Next(s.pc), cr := t.cr)
      && BitAt(t.cr, i)
         == (if 28 - 4 * d <= i < 32 - 4 * d then BitAt(s.cr, i - (28 - 4 * d) + (28 - 4 * f)) else BitAt(s.cr, i))
    ensures Records(opc, FieldBits(FieldA(opc) / 4), FieldBits(FieldD(opc) / 4), false, false)
  {
    hide TemplateOf, Step, Records, BitAt, PutField, IsMcrf;
    var d, f := FieldD(opc) / 4, FieldA(opc) / 4;
    var e := CrField(f);
    var call := WriteCrField(d, e);
    McrfTemplate(opc);
    OneCallSteps(env, opc, call, s);
    OneCallRecords(opc, call);
    OneOperand(e);
    OneValue(env, e, s);
    PutFieldBits(s.cr, d, FieldOf(s.cr, f), i);
    if 28 - 4 * d <= i < 32 - 4 * d {
      FieldOfBit(s.cr, f, i - (28 - 4 * d));
    }
  }

  predicate IsMtcrf(opc: Word) { MainOpcode(opc) == 31 && ExtOpcode(opc) == 144 }

  /** The CR bits of the fields that an 8-bit CRM selects. */
  ghost function SelectedBits(crm: nat): set<nat> {
    set r: nat {:trigger r in Everything} | 32 <= r < 64 && BitAt(crm, (r - 32) / 4)
  }

  /** mtcrf is recorded to write exactly the bits of the selected fields. */
  lemma {:induction false} MtcrfRecords(opc: Word)
    requires IsMtcrf(opc)
    ensures Records(opc, {FieldD(opc)}, SelectedBits(FieldCRM(opc)), false, false)
  {
    hide BitAt, CrmMask, Records;
    var mask := CrmMask(FieldCRM(opc), 8);
    var call := WriteCrMasked(S(opc), mask);
    assert TemplateOf(opc) == [call];
    hide TemplateOf;
    OneCallRecords(opc, call);
    OneOperand(S(opc));
    forall i: nat | i < 32 ensures BitAt(mask, i) == BitAt(FieldCRM(opc), i / 4) {
      CrmMaskBits(FieldCRM(opc), 8, i);
    }
    MaskMembers(mask, FieldCRM(opc));
  }

  lemma {:induction false} MaskMembers(mask: Word, crm: nat)
    requires forall i: nat | i < 32 :: BitAt(mask, i) == BitAt(crm, i / 4)
    ensures CrMembers(mask) == SelectedBits(crm)
  {
    hide BitAt;
    forall r: nat | r in Everything ensures r in CrMembers(mask) <==> r in SelectedBits(crm) {
      if 32 <= r < 64 {
        assert BitAt(mask, r - 32) == BitAt(crm, (r - 32) / 4);
      }
    }
    assert CrMembers(mask) <= Everything && SelectedBits(crm) <= Everything;
  }
}
