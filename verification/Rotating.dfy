/** What the shifting, rotating and CR-moving instructions leave in the registers. */
module Rotating {
  import opened Words
  import opened Arithmetic
  import opened Templates
  import opened Machine
  import opened Soundness
  import opened Effects
  import opened Results
  import opened Comparing
  import opened Carrying

  /** A template that writes one register, and possibly CR0. */
  predicate Writes(t: Template, d: Reg, e: Exp) {
    t == [WriteGpr(d, e)] || t == [WriteGpr(d, e), WriteCr0(e)]
  }

  lemma {:induction false} RunWrites(env: Env, opc: Word, d: Reg, e: Exp, t: Template, s: State)
    requires Writes(t, d, e)
    ensures RunFrom(env, opc, t, s, s).gpr == s.gpr[d := Eval(env, e, s)]
  {
    hide Eval, Logic, PutField, Compared;
    assert EvalAll(env, [e], s) == [Eval(env, e, s)];
    var s1 := RunCall(env, opc, t[0], [Eval(env, e, s)], s);
    assert RunFrom(env, opc, t, s, s) == RunFrom(env, opc, t[1..], s, s1);
    if |t| == 2 {
      assert t[1..] == [WriteCr0(e)];
      assert RunFrom(env, opc, [WriteCr0(e)], s, s1) == RunCall(env, opc, t[1], [Eval(env, e, s)], s1);
    }
  }

  predicate IsRlwimi(opc: Word) { MainOpcode(opc) == 20 }

  lemma {:induction false} RlwimiValue(env: Env, opc: Word, s: State)
    requires IsRlwimi(opc)
    ensures var m := Mask(FieldMB(opc), FieldME(opc));
      Step(env, opc, s).gpr == s.gpr[FieldA(opc) := Insert(s.gpr[FieldD(opc)], FieldB(opc), s.gpr[FieldA(opc)], m)]
  {
    hide Mask, Rotl, Logic, RunFrom, StepBranch;
    var m := Mask(FieldMB(opc), FieldME(opc));
    var rotated := Binary(Rotate, S(opc), Imm(FieldB(opc)));
    var taken, kept := Binary(Bits(And), rotated, Imm(m)), Binary(Bits(And), A(opc), Imm(Complement(m)));
    var e := Binary(Bits(Or), taken, kept);
    assert Writes(TemplateOf(opc), FieldA(opc), e) && TemplateOf(opc) != EVERYTHING;
    RunWrites(env, opc, FieldA(opc), e, TemplateOf(opc), s);
    assert Eval(env, rotated, s) == Rotl(s.gpr[FieldD(opc)], FieldB(opc));
    assert Eval(env, taken, s) == Logic(And, Eval(env, rotated, s), m);
    assert Eval(env, kept, s) == Logic(And, s.gpr[FieldA(opc)], Complement(m));
  }

  /** rlwimi takes the bits MB..ME, cyclically, from the rotated source and keeps the others. */
  lemma {:induction false} RlwimiBits(env: Env, opc: Word, s: State, i: nat)
    requires IsRlwimi(opc) && FieldMB(opc) != FieldME(opc) + 1 && i < 32
    ensures BitAt(Step(env, opc, s).gpr[FieldA(opc)], 31 - i)
         == if InCyclicRange(i, FieldMB(opc), FieldME(opc))
            then BitAt(s.gpr[FieldD(opc)], (31 - i + 32 - FieldB(opc)) % 32)
            else BitAt(s.gpr[FieldA(opc)], 31 - i)
    ensures forall r: Reg | r != FieldA(opc) :: Step(env, opc, s).gpr[r] == s.gpr[r]
  {
    hide Step, Mask, Insert;
    RlwimiValue(env, opc, s);
    InsertBits(s.gpr[FieldD(opc)], FieldB(opc), s.gpr[FieldA(opc)], FieldMB(opc), FieldME(opc), i);
  }

  predicate IsRotateAndMask(opc: Word) { MainOpcode(opc) == 21 || MainOpcode(opc) == 23 }

  /** The rotation: the immediate of rlwinm, or rB of rlwnm. */
  function RotationOf(opc: Word, s: State): Word
    requires IsRotateAndMask(opc)
  {
    if MainOpcode(opc) == 21 then FieldB(opc) else s.gpr[FieldB(opc)]
  }

  lemma {:induction false} RotateAndMaskValue(env: Env, opc: Word, s: State)
    requires IsRotateAndMask(opc)
    ensures var rotated := Rotl(s.gpr[FieldD(opc)], RotationOf(opc, s));
      Step(env, opc, s).gpr == s.gpr[FieldA(opc) := Logic(And, rotated, Mask(FieldMB(opc), FieldME(opc)))]
  {
    hide Mask, Rotl, Logic, RunFrom, StepBranch;
    var m := Mask(FieldMB(opc), FieldME(opc));
    var amount := if MainOpcode(opc) == 21 then Imm(FieldB(opc)) else B(opc);
    var rotated := Binary(Rotate, S(opc), amount);
    var e := Binary(Bits(And), rotated, Imm(m));
    assert Writes(TemplateOf(opc), FieldA(opc), e) && TemplateOf(opc) != EVERYTHING;
    RunWrites(env, opc, FieldA(opc), e, TemplateOf(opc), s);
    assert Eval(env, amount, s) == RotationOf(opc, s);
    assert Eval(env, rotated, s) == Rotl(s.gpr[FieldD(opc)], RotationOf(opc, s));
  }

  /** rlwinm and rlwnm keep the bits MB..ME, cyclically, of the rotated source and clear the others. */
  lemma {:induction false} RotateAndMaskBits(env: Env, opc: Word, s: State, i: nat)
    requires IsRotateAndMask(opc) && FieldMB(opc) != FieldME(opc) + 1 && i < 32
    ensures BitAt(Step(env, opc, s).gpr[FieldA(opc)], 31 - i)
      == (InCyclicRange(i, FieldMB(opc), FieldME(opc))
          && BitAt(s.gpr[FieldD(opc)], (31 - i + 32 - RotationOf(opc, s) % 32) % 32))
    ensures forall r: Reg | r != FieldA(opc) :: Step(env, opc, s).gpr[r] == s.gpr[r]
  {
    hide Step, Mask, Rotl, Logic;
    RotateAndMaskValue(env, opc, s);
    var rotated := Rotl(s.gpr[FieldD(opc)], RotationOf(opc, s));
    LogicBit(And, rotated, Mask(FieldMB(opc), FieldME(opc)), 31 - i);
    MaskBits(FieldMB(opc), FieldME(opc), i);
    RotateBit(s.gpr[FieldD(opc)], RotationOf(opc, s), 31 - i);
  }

  predicate IsSraw(opc: Word) {
    MainOpcode(opc) == 31 && (ExtOpcode(opc) == 792 || ExtOpcode(opc) == 824)
  }

  /** The shift count: six bits of rB, or the immediate. */
  function ShiftOf(opc: Word, s: State): nat
    requires IsSraw(opc)
  {
    if ExtOpcode(opc) == 792 then s.gpr[FieldB(opc)] % 64 else FieldB(opc)
  }

  lemma {:induction false} SrawTemplate(opc: Word, sh: Exp)
    requires IsSraw(opc) && sh == (if ExtOpcode(opc) == 792 then B(opc) else Imm(FieldB(opc)))
    ensures TemplateOf(opc) == ArithShiftBy(opc, sh)
    ensures Carries(TemplateOf(opc), FieldA(opc), Binary(ArithShift, S(opc), sh), Binary(ShiftLoses, S(opc), sh))
    ensures TemplateOf(opc) != EVERYTHING && !IsBranch(opc)
  {
  }

  /** srawx and srawix divide by a power of two, rounding down; CA tells that a negative
      number was rounded. */
  lemma {:induction false} SrawDivides(env: Env, opc: Word, s: State)
    requires IsSraw(opc)
    ensures var a, p, t := Signed(s.gpr[FieldD(opc)]), Pow2(ShiftOf(opc, s)), Step(env, opc, s);
      Signed(t.gpr[FieldA(opc)]) == a / p
      && (CarryOf(t) <==> a < 0 && a % p != 0)
      && forall r: Reg | r != FieldA(opc) :: t.gpr[r] == s.gpr[r]
  {
    hide RunFrom, StepBranch, SrawValue, Pow2, Signed, TemplateOf, Carries;
    var sh := if ExtOpcode(opc) == 792 then B(opc) else Imm(FieldB(opc));
    var e, c := Binary(ArithShift, S(opc), sh), Binary(ShiftLoses, S(opc), sh);
    SrawTemplate(opc, sh);
    RunCarrying(env, opc, FieldA(opc), e, c, TemplateOf(opc), s);
    var count: Word := if ExtOpcode(opc) == 792 then s.gpr[FieldB(opc)] else FieldB(opc);
    assert Eval(env, sh, s) == count;
    assert Eval(env, e, s) == SrawValue(s.gpr[FieldD(opc)], count);
    assert Eval(env, c, s) == Truth(SrawCarry(s.gpr[FieldD(opc)], count));
    SrawMeaning(s.gpr[FieldD(opc)], count);
  }

  lemma {:induction false} SrawMeaning(a: Word, sh: Word)
    ensures Signed(SrawValue(a, sh)) == Signed(a) / Pow2(sh % 64)
  {
    hide Pow2;
    QuotientInRange(Signed(a), sh % 64);
    SignedOfInt(Signed(a) / Pow2(sh % 64));
  }

  lemma {:induction false} SignedOfInt(x: int)
    requires -0x8000_0000 <= x < 0x8000_0000
    ensures Signed(FromInt(x)) == x
  {
  }

  lemma {:induction false} QuotientInRange(x: int, n: nat)
    ensures if x >= 0 then 0 <= x / Pow2(n) <= x else x <= x / Pow2(n) < 0
  {
    if n > 0 {
      HalfOfQuotient(x, n - 1);
      QuotientInRange(x, n - 1);
    }
  }

  lemma {:induction false} SrawCalls(opc: Word, sh: Exp)
    requires IsSraw(opc) && sh == (if ExtOpcode(opc) == 792 then B(opc) else Imm(FieldB(opc)))
    ensures TemplateOf(opc)
         == CarryCalls(FieldA(opc), Binary(ArithShift, S(opc), sh), Binary(ShiftLoses, S(opc), sh), RecordBit(opc))
  {
    SrawTemplate(opc, sh);
    hide TemplateOf;
  }

  lemma {:induction false} ShiftReads(op: BinaryOp, opc: Word, sh: Exp)
    requires sh == B(opc) || sh == Imm(FieldB(opc))
    ensures !ExpLoads(Binary(op, S(opc), sh))
    ensures ExpReads(Binary(op, S(opc), sh)) == {FieldD(opc)} + (if sh == B(opc) then {FieldB(opc) as nat} else {})
  {
    hide FieldB, FieldD;
  }

  /** The whole state after srawx and srawix, and what is recorded for them. */
  lemma {:induction false} SrawComputes(env: Env, opc: Word, s: State)
    requires IsSraw(opc)
    ensures ComputesCarry(env, opc, s, FieldA(opc), Step(env, opc, s).gpr[FieldA(opc)], CarryOf(Step(env, opc, s)),
                          {FieldD(opc)} + (if ExtOpcode(opc) == 792 then {FieldB(opc) as nat} else {}), RecordBit(opc))
  {
    hide TemplateOf, Eval, ExpReads, ExpLoads, Records, FieldShows;
    var sh := if ExtOpcode(opc) == 792 then B(opc) else Imm(FieldB(opc));
    var e, c := Binary(ArithShift, S(opc), sh), Binary(ShiftLoses, S(opc), sh);
    SrawCalls(opc, sh);
    ShiftReads(ArithShift, opc, sh);
    ShiftReads(ShiftLoses, opc, sh);
    CarryComputes(env, opc, s, FieldA(opc), e, c, RecordBit(opc));
    hide Step;
    var r := {FieldD(opc) as nat} + (if ExtOpcode(opc) == 792 then {FieldB(opc) as nat} else {});
    assert ExpReads(e) + ExpReads(c) == r;
  }

  /** mtcrf replaces exactly the CR fields its mask selects. */
  lemma {:induction false} MtcrfNibbles(env: Env, opc: Word, s: State, i: nat)
    requires IsMtcrf(opc) && i < 32
    ensures BitAt(Step(env, opc, s).cr, i)
         == if BitAt(FieldCRM(opc), i / 4) then BitAt(s.gpr[FieldD(opc)], i) else BitAt(s.cr, i)
    ensures Step(env, opc, s).gpr == s.gpr && Step(env, opc, s).xer == s.xer
  {
    hide StepBranch, Logic, CrmMask, PutMasked;
    var mask := CrmMask(FieldCRM(opc), 8);
    var call := WriteCrMasked(S(opc), mask);
    assert TemplateOf(opc) == [call];
    assert EvalAll(env, [S(opc)], s) == [s.gpr[FieldD(opc)]];
    assert RunFrom(env, opc, [call], s, s) == RunCall(env, opc, call, [s.gpr[FieldD(opc)]], s);
    PutMaskedBits(s.cr, s.gpr[FieldD(opc)], mask, i);
    CrmMaskBits(FieldCRM(opc), 8, i);
  }
}
