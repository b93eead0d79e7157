/** The recorded effects are sound for the executing backend. */
module Soundness {
  import opened Words
  import opened LiveSets
  import opened Arithmetic
  import opened Templates
  import opened Effects
  import opened Machine

  /** The value of resource i is the same in both states. */
  ghost predicate SameResource(i: nat, s: State, t: State) {
    if i < 32 then s.gpr[i] == t.gpr[i]
    else if i < 64 then BitAt(s.cr, i - 32) == BitAt(t.cr, i - 32)
    else if i < 67 then BitAt(s.xer, i - 64 + 29) == BitAt(t.xer, i - 64 + 29)
    else if i == LR then s.lr == t.lr
    else i == CTR ==> s.ctr == t.ctr
  }

  ghost predicate SameUntracked(s: State, t: State) {
    && s.pc == t.pc
    && s.rest == t.rest
    && forall i: nat | i < 29 :: BitAt(s.xer, i) == BitAt(t.xer, i)
  }

  /** Two states that differ at most in tracked resources outside a. */
  ghost predicate Agree(a: set<nat>, s: State, t: State) {
    SameUntracked(s, t) && forall i | i in a :: SameResource(i, s, t)
  }

  /** Resources that must agree before an instruction for l to agree after it. */
  ghost function Before(fx: InsnEffect, l: set<nat>): set<nat> {
    if fx.isEverything then Everything else (l - Members(fx.write)) + Members(fx.read)
  }

  lemma {:induction false} AgreeOnEverything(s: State, t: State)
    requires Agree(Everything, s, t)
    ensures s == t
  {
    forall i: nat | i < RESOURCES ensures SameResource(i, s, t) {
      assert i in Everything;
    }
    forall i: nat | i < 32 ensures s.gpr[i] == t.gpr[i] {
      assert SameResource(i, s, t);
    }
    assert s.gpr == t.gpr;
    forall i: nat | i < 32 ensures BitAt(s.cr, i) == BitAt(t.cr, i) {
      assert SameResource(32 + i, s, t);
    }
    WordsEqual(s.cr, t.cr);
    forall i: nat | i < 32 ensures BitAt(s.xer, i) == BitAt(t.xer, i) {
      if i >= 29 {
        assert SameResource(i - 29 + 64, s, t);
      }
    }
    WordsEqual(s.xer, t.xer);
    assert SameResource(LR, s, t) && SameResource(CTR, s, t);
  }

  // ------------------------------------------------- values depend on reads

  lemma {:induction false} SameXer(s: State, t: State)
    requires Agree({XER_CA, XER_OV, XER_SO}, s, t)
    ensures s.xer == t.xer
  {
    assert SameResource(XER_CA, s, t) && SameResource(XER_OV, s, t) && SameResource(XER_SO, s, t);
    forall i: nat | i < 32 ensures BitAt(s.xer, i) == BitAt(t.xer, i) {
    }
    WordsEqual(s.xer, t.xer);
  }

  lemma {:induction false} SameCr(s: State, t: State)
    requires Agree(CrMembers(TWO32 - 1), s, t)
    ensures s.cr == t.cr
  {
    forall i: nat | i < 32 ensures BitAt(s.cr, i) == BitAt(t.cr, i) {
      OnesValue(32);
      Pow2Values();
      OnesBit(32, i);
      assert 32 + i in CrMembers(TWO32 - 1);
      assert SameResource(32 + i, s, t);
    }
    WordsEqual(s.cr, t.cr);
  }

  lemma {:induction false} FieldOfBits(cr: Word, f: Field, i: nat)
    requires i < 4
    ensures BitAt(FieldOf(cr, f), i) == BitAt(cr, i + 28 - 4 * f)
  {
    Pow2Values();
    LowBits(ShiftRight(cr, (7 - f) * 4), 4, i);
    ShiftRightBit(cr, (7 - f) * 4, i);
  }

  lemma {:induction false} SameField(f: Field, s: State, t: State)
    requires Agree(FieldBits(f), s, t)
    ensures FieldOf(s.cr, f) == FieldOf(t.cr, f)
  {
    forall i: nat | i < 4 ensures BitAt(FieldOf(s.cr, f), i) == BitAt(FieldOf(t.cr, f), i) {
      FieldOfBits(s.cr, f, i);
      FieldOfBits(t.cr, f, i);
      assert i + 60 - 4 * f in FieldBits(f);
      assert SameResource(i + 60 - 4 * f, s, t);
    }
    Pow2Values();
    SameBits(FieldOf(s.cr, f), FieldOf(t.cr, f), 4);
  }

  lemma {:induction false} SameValue(env: Env, e: Exp, s: State, t: State)
    requires Agree(ExpReads(e), s, t)
    ensures Eval(env, e, s) == Eval(env, e, t)
  {
    match e
    case Imm(_) =>
    case Gpr(r) => assert SameResource(r, s, t);
    case Carry => assert SameResource(XER_CA, s, t);
    case XerReg => SameXer(s, t);
    case LrReg => assert SameResource(LR, s, t);
    case CtrReg => assert SameResource(CTR, s, t);
    case CrReg => SameCr(s, t);
    case CrField(f) => SameField(f, s, t);
    case CrBit(bit) => assert SameResource(63 - bit, s, t);
    case Unary(_, a) => SameValue(env, a, s, t);
    case Binary(_, a, b) => SameValue(env, a, s, t); SameValue(env, b, s, t);
    case CarryOut3(a, b, c) => SameValue(env, a, s, t); SameValue(env, b, s, t); SameValue(env, c, s, t);
    case Load(a, _) => SameValue(env, a, s, t);
    case LoadSigned(a, _) => SameValue(env, a, s, t);
  }

  lemma {:induction false} SameValues(env: Env, es: seq<Exp>, s: State, t: State)
    requires Agree(AllReads(es), s, t)
    ensures EvalAll(env, es, s) == EvalAll(env, es, t)
  {
    if es != [] {
      SameValue(env, es[0], s, t);
      SameValues(env, es[1..], s, t);
    }
  }

  // --------------------------------------------- writes stay inside the frame

  lemma {:induction false} PutFieldBits(cr: Word, f: Field, c: nat, i: nat)
    requires c < 16 && i < 32
    ensures BitAt(PutField(cr, f, c), i)
         == if 28 - 4 * f <= i < 32 - 4 * f then BitAt(c, i - (28 - 4 * f)) else BitAt(cr, i)
  {
    LogicBit(Or, Logic(Andc, cr, FieldMask(f)), FieldValue(f, c), i);
    LogicBit(Andc, cr, FieldMask(f), i);
    FieldMaskBits(f);
    ShiftLeftBit(c, (7 - f) * 4, i);
    if 32 - 4 * f <= i {
      Pow2Values();
      HighBits(c, 4, i - (28 - 4 * f));
    }
  }

  lemma {:induction false} PutMaskedBits(cr: Word, v: Word, mask: Word, i: nat)
    requires i < 32
    ensures BitAt(PutMasked(cr, v, mask), i) == if BitAt(mask, i) then BitAt(v, i) else BitAt(cr, i)
  {
    LogicBit(Or, Logic(And, v, mask), Logic(Andc, cr, mask), i);
    LogicBit(And, v, mask, i);
    LogicBit(Andc, cr, mask, i);
  }

  lemma {:induction false} PutBitBits(w: Word, k: nat, b: bool, i: nat)
    requires k < 32 && i < 32
    ensures BitAt(PutBit(w, k, b), i) == if i == k then b else BitAt(w, i)
  {
    SingleBitBits(k);
    LogicBit(Or, w, SingleBit(k), i);
    LogicBit(Andc, w, SingleBit(k), i);
  }

  lemma {:induction false} AgreeAfterField(a: set<nat>, f: Field, c: nat, s: State, t: State)
    requires c < 16 && Agree(a, s, t)
    ensures Agree(a + FieldBits(f), s.(cr := PutField(s.cr, f, c)), t.(cr := PutField(t.cr, f, c)))
  {
    var s', t' := s.(cr := PutField(s.cr, f, c)), t.(cr := PutField(t.cr, f, c));
    forall i | i in a + FieldBits(f) ensures SameResource(i, s', t') {
      if 32 <= i < 64 {
        PutFieldBits(s.cr, f, c, i - 32);
        PutFieldBits(t.cr, f, c, i - 32);
        assert i in a ==> SameResource(i, s, t);
      } else {
        assert SameResource(i, s, t);
      }
    }
  }

  lemma {:induction false} AgreeAfterMasked(a: set<nat>, v: Word, mask: Word, s: State, t: State)
    requires Agree(a, s, t)
    ensures Agree(a + CrMembers(mask), s.(cr := PutMasked(s.cr, v, mask)), t.(cr := PutMasked(t.cr, v, mask)))
  {
    var s', t' := s.(cr := PutMasked(s.cr, v, mask)), t.(cr := PutMasked(t.cr, v, mask));
    forall i | i in a + CrMembers(mask) ensures SameResource(i, s', t') {
      if 32 <= i < 64 {
        PutMaskedBits(s.cr, v, mask, i - 32);
        PutMaskedBits(t.cr, v, mask, i - 32);
        assert i in a ==> SameResource(i, s, t);
      } else {
        assert SameResource(i, s, t);
      }
    }
  }

  lemma {:induction false} AgreeAfterCrBit(a: set<nat>, bit: CrBitNo, b: bool, s: State, t: State)
    requires Agree(a, s, t)
    ensures Agree(a + {63 - bit}, s.(cr := PutBit(s.cr, 31 - bit, b)), t.(cr := PutBit(t.cr, 31 - bit, b)))
  {
    var s', t' := s.(cr := PutBit(s.cr, 31 - bit, b)), t.(cr := PutBit(t.cr, 31 - bit, b));
    forall i | i in a + {63 - bit} ensures SameResource(i, s', t') {
      if 32 <= i < 64 {
        PutBitBits(s.cr, 31 - bit, b, i - 32);
        PutBitBits(t.cr, 31 - bit, b, i - 32);
        assert i in a ==> SameResource(i, s, t);
      } else {
        assert SameResource(i, s, t);
      }
    }
  }

  lemma {:induction false} AgreeAfterCarry(a: set<nat>, b: bool, s: State, t: State)
    requires Agree(a, s, t)
    ensures Agree(a + {XER_CA}, s.(xer := PutBit(s.xer, 29, b)), t.(xer := PutBit(t.xer, 29, b)))
  {
    var s', t' := s.(xer := PutBit(s.xer, 29, b)), t.(xer := PutBit(t.xer, 29, b));
    forall i: nat | i < 32 ensures BitAt(s'.xer, i) == (if i == 29 then b else BitAt(s.xer, i))
                        && BitAt(t'.xer, i) == (if i == 29 then b else BitAt(t.xer, i)) {
      PutBitBits(s.xer, 29, b, i);
      PutBitBits(t.xer, 29, b, i);
    }
    forall i | i in a + {XER_CA} ensures SameResource(i, s', t') {
      assert i in a ==> SameResource(i, s, t);
    }
  }

  lemma {:induction false} AgreeAfterRegister(
      a: set<nat>, call: Call, v: seq<Word>, env: Env, opc: Word, s: State, t: State)
    requires call.WriteGpr? || call.WriteXer? || call.WriteLr? || call.WriteCtr? || call.WriteMem? || call.FpuAccess?
    requires |v| == |call.Operands()| && Agree(a, s, t)
    ensures Agree(a + CallWrites(call), RunCall(env, opc, call, v, s), RunCall(env, opc, call, v, t))
  {
    var s', t' := RunCall(env, opc, call, v, s), RunCall(env, opc, call, v, t);
    forall i | i in a + CallWrites(call) ensures SameResource(i, s', t') {
      assert i in a ==> SameResource(i, s, t);
    }
  }

  lemma {:induction false} AgreeAfterCompare(
      a: set<nat>, call: Call, v: seq<Word>, env: Env, opc: Word, s: State, t: State)
    requires call.CopiesSo() && |v| == |call.Operands()|
    requires Agree(a, s, t) && XER_SO in a
    ensures Agree(a + CallWrites(call), RunCall(env, opc, call, v, s), RunCall(env, opc, call, v, t))
  {
    assert SameResource(XER_SO, s, t);
    match call
    case WriteCr0(_) =>
      AgreeAfterField(a, 0, Compared(v[0] >= 0x8000_0000, 0 < v[0] < 0x8000_0000, s.xer), s, t);
    case WriteCrFieldSigned(f, _, _) =>
      AgreeAfterField(a, f, Compared(Signed(v[0]) < Signed(v[1]), Signed(v[0]) > Signed(v[1]), s.xer), s, t);
    case WriteCrFieldUnsigned(f, _, _) => AgreeAfterField(a, f, Compared(v[0] < v[1], v[0] > v[1], s.xer), s, t);
    case FpuCompareTo(f) => AgreeAfterField(a, f, env.fpuCr(opc, s.rest) % 16, s, t);
  }

  /** One backend call given equal operands keeps agreement and adds what it writes. */
  lemma {:induction false} CallKeepsAgreement(
      a: set<nat>, call: Call, v: seq<Word>, env: Env, opc: Word, s: State, t: State)
    requires call.Plain() && |v| == |call.Operands()|
    requires Agree(a, s, t) && (call.CopiesSo() ==> XER_SO in a)
    ensures Agree(a + CallWrites(call), RunCall(env, opc, call, v, s), RunCall(env, opc, call, v, t))
  {
    if call.CopiesSo() {
      AgreeAfterCompare(a, call, v, env, opc, s, t);
    } else {
      match call
      case WriteXerCa(_) => AgreeAfterCarry(a, v[0] != 0, s, t);
      case WriteCrBit(bit, _) => AgreeAfterCrBit(a, bit, v[0] != 0, s, t);
      case WriteCrField(f, _) => AgreeAfterField(a, f, v[0] % 16, s, t);
      case WriteCrMasked(_, mask) => AgreeAfterMasked(a, v[0], mask, s, t);
      case FpuRecord => AgreeAfterField(a, 1, env.fpuCr(opc, s.rest) % 16, s, t);
      case _ => AgreeAfterRegister(a, call, v, env, opc, s, t);
    }
  }

  lemma {:induction false} AgreeSubset(a: set<nat>, b: set<nat>, s: State, t: State)
    requires a <= b && Agree(b, s, t)
    ensures Agree(a, s, t)
  {
  }

  /** Operands come from the entry states; the running states may agree on more. */
  lemma {:induction false} TemplateKeepsAgreement(
      a: set<nat>, b: set<nat>, env: Env, opc: Word, t: Template, e1: State, e2: State, s1: State, s2: State)
    requires PlainTemplate(t)
    requires Agree(a, e1, e2) && Agree(b, s1, s2)
    requires TemplateReads(t) <= a <= b
    ensures Agree(b + TemplateWrites(t), RunFrom(env, opc, t, e1, s1), RunFrom(env, opc, t, e2, s2))
    decreases t
  {
    if t == [] {
    } else {
      var call := t[0];
      AgreeSubset(AllReads(call.Operands()), a, e1, e2);
      SameValues(env, call.Operands(), e1, e2);
      var v := EvalAll(env, call.Operands(), e1);
      CallKeepsAgreement(b, call, v, env, opc, s1, s2);
      var c := b + CallWrites(call);
      TemplateKeepsAgreement(a, c, env, opc, t[1..], e1, e2,
                        RunCall(env, opc, call, v, s1), RunCall(env, opc, call, v, s2));
      assert b + TemplateWrites(t) == c + TemplateWrites(t[1..]);
    }
  }

  // ----------------------------------------------------------- whole opcodes

  /** A branch that sets LR only when taken, and need not be taken.  The recorded
      effect says it always writes LR. */
  predicate MayKeepLr(opc: Word) {
    LinkBit(opc) &&
    (|| (MainOpcode(opc) == 16 && !(SkipsCtrTest(opc) && SkipsCrTest(opc)))
     || (MainOpcode(opc) == 19 && ExtOpcode(opc) == 528 && !SkipsCrTest(opc)))
  }

  ghost function LinkWrites(opc: Word): set<nat> {
    if LinkBit(opc) then {LR} else {}
  }

  ghost function CtrUses(opc: Word): set<nat> {
    if SkipsCtrTest(opc) then {} else {CTR}
  }

  ghost function CrUses(opc: Word): set<nat> {
    if SkipsCrTest(opc) then {} else {63 - FieldA(opc)}
  }

  lemma {:induction false} TemplateAppend(t: Template, u: Template)
    ensures TemplateReads(t + u) == TemplateReads(t) + TemplateReads(u)
    ensures TemplateWrites(t + u) == TemplateWrites(t) + TemplateWrites(u)
  {
    if t == [] {
      assert t + u == u;
    } else {
      assert (t + u)[1..] == t[1..] + u;
      TemplateAppend(t[1..], u);
    }
  }

  lemma {:induction false} OneCall(call: Call, r: set<nat>, w: set<nat>)
    requires CallReads(call) == r && CallWrites(call) == w
    ensures TemplateReads([call]) == r && TemplateWrites([call]) == w
  {
    assert [call][1..] == [];
  }

  lemma {:induction false} TouchCall(e: Exp)
    ensures TemplateReads([Touch(e)]) == ExpReads(e) && TemplateWrites([Touch(e)]) == {}
  {
    assert [e][1..] == [];
    assert AllReads([e]) == ExpReads(e) + AllReads([]);
    OneCall(Touch(e), ExpReads(e), {});
  }

  lemma {:induction false} LinkPart(opc: Word)
    ensures TemplateReads(LinkCalls(opc) + [Branch]) == {}
    ensures TemplateWrites(LinkCalls(opc) + [Branch]) == LinkWrites(opc)
  {
    OneCall(Branch, {}, {});
    OneCall(ClobberLr, {}, {LR});
    TemplateAppend(LinkCalls(opc), [Branch]);
  }

  lemma {:induction false} CrPart(opc: Word)
    ensures TemplateReads(CrCalls(opc)) == CrUses(opc) && TemplateWrites(CrCalls(opc)) == {}
  {
    TouchCall(CrBit(FieldA(opc)));
  }

  lemma {:induction false} CtrPart(opc: Word)
    ensures TemplateReads(CtrCalls(opc)) == CtrUses(opc) && TemplateWrites(CtrCalls(opc)) == CtrUses(opc)
  {
    TouchCall(CtrReg);
    OneCall(ClobberCtr, {}, {CTR});
    TemplateAppend([Touch(CtrReg)], [ClobberCtr]);
    assert [Touch(CtrReg)] + [ClobberCtr] == [Touch(CtrReg), ClobberCtr];
  }

  /** The template of a branch opcode. */
  function BranchTemplate(opc: Word): Template {
    if MainOpcode(opc) == 18 then Bx(opc)
    else if MainOpcode(opc) == 16 then Bcx(opc)
    else if ExtOpcode(opc) == 528 then Bcctrx(opc)
    else Bclrx(opc)
  }

  lemma {:induction false} TemplateOfBranch(opc: Word)
    requires IsBranch(opc)
    ensures TemplateOf(opc) == BranchTemplate(opc)
  {
  }

  ghost function BranchReads(opc: Word): set<nat> {
    if MainOpcode(opc) == 18 then {}
    else if MainOpcode(opc) == 16 then CtrUses(opc) + CrUses(opc)
    else if ExtOpcode(opc) == 528 then {CTR} + CrUses(opc)
    else {LR} + CtrUses(opc) + CrUses(opc)
  }

  ghost function BranchWrites(opc: Word): set<nat> {
    if MainOpcode(opc) == 18 then LinkWrites(opc)
    else if MainOpcode(opc) == 19 && ExtOpcode(opc) == 528 then LinkWrites(opc)
    else CtrUses(opc) + LinkWrites(opc)
  }

  lemma {:induction false} CrLinkPart(opc: Word)
    ensures TemplateReads(CrCalls(opc) + (LinkCalls(opc) + [Branch])) == CrUses(opc)
    ensures TemplateWrites(CrCalls(opc) + (LinkCalls(opc) + [Branch])) == LinkWrites(opc)
  {
    LinkPart(opc);
    CrPart(opc);
    TemplateAppend(CrCalls(opc), LinkCalls(opc) + [Branch]);
  }

  lemma {:induction false} CtrCrLinkPart(opc: Word)
    ensures TemplateReads(CtrCalls(opc) + (CrCalls(opc) + (LinkCalls(opc) + [Branch]))) == CtrUses(opc) + CrUses(opc)
    ensures TemplateWrites(CtrCalls(opc) + (CrCalls(opc) + (LinkCalls(opc) + [Branch])))
         == CtrUses(opc) + LinkWrites(opc)
  {
    CrLinkPart(opc);
    CtrPart(opc);
    TemplateAppend(CtrCalls(opc), CrCalls(opc) + (LinkCalls(opc) + [Branch]));
  }

  lemma {:induction false} BcctrSets(opc: Word)
    ensures TemplateReads(Bcctrx(opc)) == {CTR} + CrUses(opc) && TemplateWrites(Bcctrx(opc)) == LinkWrites(opc)
  {
    var rest := CrCalls(opc) + (LinkCalls(opc) + [Branch]);
    assert Bcctrx(opc) == [Touch(CtrReg)] + rest;
    CrLinkPart(opc);
    TouchCall(CtrReg);
    TemplateAppend([Touch(CtrReg)], rest);
  }

  lemma {:induction false} BclrSets(opc: Word)
    ensures TemplateReads(Bclrx(opc)) == {LR} + CtrUses(opc) + CrUses(opc)
    ensures TemplateWrites(Bclrx(opc)) == CtrUses(opc) + LinkWrites(opc)
  {
    var rest := CtrCalls(opc) + (CrCalls(opc) + (LinkCalls(opc) + [Branch]));
    assert Bclrx(opc) == [Touch(LrReg)] + rest;
    CtrCrLinkPart(opc);
    TouchCall(LrReg);
    TemplateAppend([Touch(LrReg)], rest);
  }

  lemma {:induction false} BcSets(opc: Word)
    ensures TemplateReads(Bcx(opc)) == CtrUses(opc) + CrUses(opc)
    ensures TemplateWrites(Bcx(opc)) == CtrUses(opc) + LinkWrites(opc)
  {
    assert Bcx(opc) == CtrCalls(opc) + (CrCalls(opc) + (LinkCalls(opc) + [Branch]));
    CtrCrLinkPart(opc);
  }

  lemma {:induction false} BranchTemplateSets(opc: Word)
    requires IsBranch(opc)
    ensures TemplateReads(BranchTemplate(opc)) == BranchReads(opc)
    ensures TemplateWrites(BranchTemplate(opc)) == BranchWrites(opc)
  {
    LinkPart(opc);
    BcSets(opc);
    BcctrSets(opc);
    BclrSets(opc);
  }

  /** What the four branch templates record. */
  lemma {:induction false} BranchSets(opc: Word)
    requires IsBranch(opc)
    ensures TemplateReads(TemplateOf(opc)) == BranchReads(opc)
    ensures TemplateWrites(TemplateOf(opc)) == BranchWrites(opc)
  {
    TemplateOfBranch(opc);
    BranchTemplateSets(opc);
  }

  lemma {:induction false} BeforeBranch(opc: Word, l: set<nat>)
    requires IsBranch(opc)
    ensures Before(AnalyzeInsn(opc), l) == (l - BranchWrites(opc)) + BranchReads(opc)
    ensures TemplateOf(opc) != EVERYTHING
  {
    AnalyzeSets(opc);
    TemplateKinds(opc);
    BranchSets(opc);
  }

  lemma {:induction false} BranchKeepsAgreement(l: set<nat>, opc: Word, s: State, t: State)
    requires IsBranch(opc) && l <= Everything
    requires Agree((l - BranchWrites(opc)) + BranchReads(opc), s, t)
    requires LR in l && MayKeepLr(opc) ==> s.lr == t.lr
    ensures Agree(l, StepBranch(opc, s), StepBranch(opc, t))
  {
    var a := (l - BranchWrites(opc)) + BranchReads(opc);
    if !SkipsCtrTest(opc) && MainOpcode(opc) != 18 {
      assert CTR in a;
      assert SameResource(CTR, s, t);
    }
    if !SkipsCrTest(opc) && MainOpcode(opc) != 18 {
      assert 63 - FieldA(opc) in a;
      assert SameResource(63 - FieldA(opc), s, t);
    }
    if MainOpcode(opc) == 19 {
      var target := if ExtOpcode(opc) == 528 then CTR else LR;
      assert target in a;
      assert SameResource(target, s, t);
    }
    var s', t' := StepBranch(opc, s), StepBranch(opc, t);
    assert s'.pc == t'.pc;
    forall i | i in l ensures SameResource(i, s', t') {
      if i in a {
        assert SameResource(i, s, t);
      } else {
        assert i in BranchWrites(opc);
        assert i == CTR || i == LR;
      }
    }
  }

  /** The abstract interpretation is sound: when two states agree on what must be
      live before an instruction, they agree after it on what is live there. */
  lemma {:induction false} StepKeepsAgreement(env: Env, opc: Word, l: set<nat>, s: State, t: State)
    requires l <= Everything
    requires Agree(Before(AnalyzeInsn(opc), l), s, t)
    requires LR in l && MayKeepLr(opc) ==> s.lr == t.lr
    ensures Agree(l, Step(env, opc, s), Step(env, opc, t))
  {
    var tmpl := TemplateOf(opc);
    if IsBranch(opc) {
      BeforeBranch(opc, l);
      BranchKeepsAgreement(l, opc, s, t);
    } else if tmpl == EVERYTHING {
      AnalyzeSets(opc);
      AgreeOnEverything(s, t);
      AgreeSelf(l, Step(env, opc, s));
    } else {
      AnalyzeSets(opc);
      TemplateKinds(opc);
      var a := (l - TemplateWrites(tmpl)) + TemplateReads(tmpl);
      TemplateKeepsAgreement(a, a, env, opc, tmpl, s, t, s, t);
      var s', t' := RunFrom(env, opc, tmpl, s, s), RunFrom(env, opc, tmpl, t, t);
      AgreeSubset(l, a + TemplateWrites(tmpl), s', t');
      AgreeAtPc(l, s', t', Next(s.pc));
    }
  }

  lemma {:induction false} AgreeSelf(l: set<nat>, s: State)
    ensures Agree(l, s, s)
  {
  }

  lemma {:induction false} AgreeAtPc(l: set<nat>, s: State, t: State, pc: Word)
    requires Agree(l, s, t)
    ensures Agree(l, s.(pc := pc), t.(pc := pc))
  {
    forall i | i in l ensures SameResource(i, s.(pc := pc), t.(pc := pc)) {
      assert SameResource(i, s, t);
    }
  }

  // ------------------------------------------- the one unsound recorded effect

  /** The recorded effect of opc is enough for every live set. */
  ghost predicate EffectSound(env: Env, opc: Word) {
    forall l: set<nat>, s: State, t: State ::
      l <= Everything && Agree(Before(AnalyzeInsn(opc), l), s, t) ==>
        Agree(l, Step(env, opc, s), Step(env, opc, t))
  }

  /** A state in which the branch falls through, with the given pc and LR. */
  function NotTaken(opc: Word, pc: Word, lr: Word): State {
    var cr: Word := if BitAt(FieldD(opc), 3) then 0 else TWO32 - 1;
    var ctr: Word := if BitAt(FieldD(opc), 1) then 2 else 1;
    State(pc, seq(32, _ => 0), cr, 0, lr, ctr, Untracked(map[], []))
  }

  lemma {:induction false} NotTakenFallsThrough(opc: Word, pc: Word, lr: Word)
    requires MayKeepLr(opc)
    ensures StepBranch(opc, NotTaken(opc, pc, lr)).lr == lr && StepBranch(opc, NotTaken(opc, pc, lr)).pc == Next(pc)
  {
    var s := NotTaken(opc, pc, lr);
    assert BitAt(s.cr, 31 - FieldA(opc)) == !BitAt(FieldD(opc), 3) by {
      OnesValue(32);
      Pow2Values();
      OnesBit(32, 31 - FieldA(opc));
      ZeroBit(31 - FieldA(opc));
    }
    assert SkipsCrTest(opc) || !CrOk(opc, s.cr);
    assert SkipsCtrTest(opc) || !CtrOk(opc, Decremented(opc, s.ctr));
  }

  lemma {:induction false} LrIsKilled(opc: Word)
    requires MayKeepLr(opc)
    ensures Before(AnalyzeInsn(opc), {LR}) == BranchReads(opc) && LR !in BranchReads(opc)
  {
    BeforeBranch(opc, {LR});
    assert LR in BranchWrites(opc) && LR !in BranchReads(opc);
  }

  lemma {:induction false} UnsoundWhenLrIsKept(env: Env, opc: Word)
    requires MayKeepLr(opc)
    ensures !EffectSound(env, opc)
  {
    var s, t := NotTaken(opc, 0, 0), NotTaken(opc, 0, 4);
    var l := {LR};
    LrIsKilled(opc);
    assert Agree(Before(AnalyzeInsn(opc), l), s, t) by {
      forall i | i in BranchReads(opc) ensures SameResource(i, s, t) {
      }
    }
    assert Step(env, opc, s) == StepBranch(opc, s) && Step(env, opc, t) == StepBranch(opc, t) by {
      BeforeBranch(opc, l);
    }
    NotTakenFallsThrough(opc, 0, 0);
    NotTakenFallsThrough(opc, 0, 4);
    assert !SameResource(LR, Step(env, opc, s), Step(env, opc, t));
    assert !Agree(l, Step(env, opc, s), Step(env, opc, t));
  }

  /** Exactly the linking branches that may fall through have an unsound effect. */
  lemma {:induction false} EffectSoundUnlessMayKeepLr(env: Env, opc: Word)
    ensures EffectSound(env, opc) <==> !MayKeepLr(opc)
  {
    if MayKeepLr(opc) {
      UnsoundWhenLrIsKept(env, opc);
    } else {
      forall l: set<nat>, s: State, t: State | l <= Everything && Agree(Before(AnalyzeInsn(opc), l), s, t)
        ensures Agree(l, Step(env, opc, s), Step(env, opc, t)) {
        StepKeepsAgreement(env, opc, l, s, t);
      }
    }
  }
}
