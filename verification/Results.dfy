/** Vocabulary for what an instruction leaves behind, in terms of registers and bits. */
module Results {
  import opened Words
  import opened LiveSets
  import opened Arithmetic
  import opened Templates
  import opened Effects
  import opened Machine
  import opened Soundness

  /** Bits of the CR, numbered from the most significant, are those of a comparison in field f
      and as before elsewhere. */
  predicate FieldShows(cr: Word, before: Word, f: Field, lt: bool, gt: bool, eq: bool, so: bool) {
    && BitAt(cr, 31 - 4 * f) == lt && BitAt(cr, 30 - 4 * f) == gt
    && BitAt(cr, 29 - 4 * f) == eq && BitAt(cr, 28 - 4 * f) == so
    && forall i: nat | i < 32 && !(28 - 4 * f <= i <= 31 - 4 * f) :: BitAt(cr, i) == BitAt(before, i)
  }

  /** Bit k is as told, and no other bit changes. */
  predicate BitShows(w: Word, before: Word, k: nat, val: bool) {
    forall i: nat | i < 32 :: BitAt(w, i) == (if i == k then val else BitAt(before, i))
  }

  /** The bits of a mask come from src, and the others stay. */
  predicate MaskShows(w: Word, before: Word, src: Word, mask: Word) {
    forall i: nat | i < 32 :: BitAt(w, i) == (if BitAt(mask, i) then BitAt(src, i) else BitAt(before, i))
  }

  /** Field f holds a nibble, and no other bit changes. */
  predicate NibbleShows(w: Word, before: Word, f: Field, nibble: nat) {
    forall i: nat | i < 32 ::
      BitAt(w, i) == (if 28 - 4 * f <= i < 32 - 4 * f then BitAt(nibble, i - (28 - 4 * f)) else BitAt(before, i))
  }

  lemma {:induction false} PutsShow(w: Word, f: Field, nibble: nat, k: nat, val: bool, src: Word, mask: Word)
    requires nibble < 16 && k < 32
    ensures NibbleShows(PutField(w, f, nibble), w, f, nibble)
    ensures BitShows(PutBit(w, k, val), w, k, val)
    ensures MaskShows(PutMasked(w, src, mask), w, src, mask)
  {
    hide BitAt, PutField, PutBit, PutMasked;
    forall i: nat | i < 32
      ensures BitAt(PutField(w, f, nibble), i)
           == (if 28 - 4 * f <= i < 32 - 4 * f then BitAt(nibble, i - (28 - 4 * f)) else BitAt(w, i))
      ensures BitAt(PutBit(w, k, val), i) == (if i == k then val else BitAt(w, i))
      ensures BitAt(PutMasked(w, src, mask), i) == (if BitAt(mask, i) then BitAt(src, i) else BitAt(w, i)) {
      PutFieldBits(w, f, nibble, i);
      PutBitBits(w, k, val, i);
      PutMaskedBits(w, src, mask, i);
    }
  }

  lemma {:induction false} NibbleOfCompared(lt: bool, gt: bool, xer: Word)
    requires !(lt && gt)
    ensures var c := Compared(lt, gt, xer);
      BitAt(c, 3) == lt && BitAt(c, 2) == gt && BitAt(c, 1) == (!lt && !gt) && BitAt(c, 0) == BitAt(xer, 31)
  {
    var so := BitAt(xer, 31);
    var c := Compared(lt, gt, xer);
    assert c % 2 == (if so then 1 else 0) && c / 2 == (if lt then 4 else if gt then 2 else 1);
    assert c / 2 / 2 == (if lt then 2 else if gt then 1 else 0);
    assert c / 2 / 2 / 2 == (if lt then 1 else 0);
    NibbleBits(c);
  }

  lemma {:induction false} NibbleBits(c: nat)
    ensures BitAt(c, 0) == (c % 2 == 1) && BitAt(c, 1) == (c / 2 % 2 == 1)
    ensures BitAt(c, 2) == (c / 2 / 2 % 2 == 1) && BitAt(c, 3) == (c / 2 / 2 / 2 % 2 == 1)
  {
    assert BitAt(c, 3) == BitAt(c / 2, 2) == BitAt(c / 2 / 2, 1) == BitAt(c / 2 / 2 / 2, 0);
    assert BitAt(c, 2) == BitAt(c / 2, 1) == BitAt(c / 2 / 2, 0);
  }

  lemma {:induction false} ComparedShows(cr: Word, f: Field, lt: bool, gt: bool, xer: Word)
    requires !(lt && gt)
    ensures FieldShows(PutField(cr, f, Compared(lt, gt, xer)), cr, f, lt, gt, !lt && !gt, BitAt(xer, 31))
  {
    hide BitAt, PutField, Compared;
    var c := Compared(lt, gt, xer);
    NibbleOfCompared(lt, gt, xer);
    forall i: nat | i < 32
      ensures BitAt(PutField(cr, f, c), i)
           == if 28 - 4 * f <= i < 32 - 4 * f then BitAt(c, i - (28 - 4 * f)) else BitAt(cr, i) {
      PutFieldBits(cr, f, c, i);
    }
  }

  /** t is s after an instruction that leaves v in register d, and in record form compares v with
      zero in CR field 0. */
  ghost predicate Result(s: State, t: State, d: Reg, v: Word, rc: bool) {
    && t == s.(pc := Next(s.pc), gpr := s.gpr[d := v], cr := t.cr)
    && if rc then FieldShows(t.cr, s.cr, 0, Signed(v) < 0, Signed(v) > 0, v == 0, BitAt(s.xer, 31)) else t.cr == s.cr
  }

  /** The recorded effect of an opcode that is modelled and no branch. */
  ghost predicate Records(opc: Word, r: set<nat>, w: set<nat>, loads: bool, stores: bool) {
    var fx := AnalyzeInsn(opc);
    && !fx.isEverything && !fx.isBranch
    && Members(fx.read) == r && Members(fx.write) == w
    && fx.readsMemory == loads && fx.writesMemory == stores
  }

  ghost function RecordReads(rc: bool): set<nat> { if rc then {XER_SO} else {} }
  ghost function RecordWrites(rc: bool): set<nat> { if rc then {60, 61, 62, 63} else {} }

  /** Both at once: the value in d from registers alone, and the sets recorded for it. */
  ghost predicate Computes(env: Env, opc: Word, s: State, d: Reg, v: Word, r: set<nat>, rc: bool) {
    Result(s, Step(env, opc, s), d, v, rc) && Records(opc, r + RecordReads(rc), {d} + RecordWrites(rc), false, false)
  }

  // ------------------------------------------------------------- from templates

  /** What templates record, one or two calls long. */
  lemma {:induction false} PlainRecords(opc: Word)
    requires TemplateOf(opc) != EVERYTHING && !IsBranch(opc)
    ensures Records(opc, TemplateReads(TemplateOf(opc)), TemplateWrites(TemplateOf(opc)),
                    TemplateLoads(TemplateOf(opc)), TemplateStores(TemplateOf(opc)))
  {
    hide TemplateOf, IsBranch, Members, AnalyzeInsn;
    AnalyzeSets(opc);
    AnalyzeFlags(opc);
  }

  /** One register and possibly CR0. */
  function ValueCalls(d: Reg, e: Exp, rc: bool): Template {
    if rc then [WriteGpr(d, e), WriteCr0(e)] else [WriteGpr(d, e)]
  }

  lemma {:induction false} OneOperand(e: Exp)
    ensures AllReads([e]) == ExpReads(e) && AnyLoads([e]) == ExpLoads(e)
  {
    assert [e][1..] == [];
  }

  lemma {:induction false} ValueCallSets(d: Reg, e: Exp, rc: bool)
    requires !ExpLoads(e)
    ensures var t := ValueCalls(d, e, rc);
      TemplateReads(t) == ExpReads(e) + RecordReads(rc) && TemplateWrites(t) == {d} + RecordWrites(rc)
      && !TemplateLoads(t) && !TemplateStores(t)
  {
    hide ExpReads, ExpLoads;
    OneOperand(e);
    var t := ValueCalls(d, e, rc);
    if rc {
      assert t[1..] == [WriteCr0(e)] && t[1..][1..] == [];
      assert !TemplateLoads(t[1..]) && !TemplateStores(t[1..]);
      assert TemplateReads(t[1..]) == CallReads(WriteCr0(e)) && TemplateWrites(t[1..]) == FieldBits(0);
    } else {
      assert t[1..] == [];
    }
  }

  lemma {:induction false} RunValueCalls(env: Env, opc: Word, d: Reg, e: Exp, rc: bool, s: State)
    ensures Result(s, RunFrom(env, opc, ValueCalls(d, e, rc), s, s).(pc := Next(s.pc)), d, Eval(env, e, s), rc)
  {
    hide Eval, PutField, Compared, FieldShows, BitAt;
    var t, v := ValueCalls(d, e, rc), Eval(env, e, s);
    assert EvalAll(env, [e], s) == [v];
    var s1 := s.(gpr := s.gpr[d := v]);
    assert RunCall(env, opc, t[0], [v], s) == s1;
    assert RunFrom(env, opc, t, s, s) == RunFrom(env, opc, t[1..], s, s1);
    if rc {
      assert t[1..] == [WriteCr0(e)];
      assert RunFrom(env, opc, [WriteCr0(e)], s, s1) == RunCall(env, opc, WriteCr0(e), [v], s1);
      ComparedShows(s.cr, 0, v >= 0x8000_0000, 0 < v < 0x8000_0000, s.xer);
    }
  }

  /** The instructions whose template is one value. */
  lemma {:induction false} ValueComputes(env: Env, opc: Word, s: State, d: Reg, e: Exp, rc: bool)
    requires TemplateOf(opc) == ValueCalls(d, e, rc) && !ExpLoads(e)
    ensures Computes(env, opc, s, d, Eval(env, e, s), ExpReads(e), rc)
  {
    ValuesAreNoBranches(opc, d, e, rc);
    hide TemplateOf, Eval, ExpReads, ExpLoads, StepBranch, RunFrom, Result, Records, IsBranch;
    ValueCallSets(d, e, rc);
    PlainRecords(opc);
    RunValueCalls(env, opc, d, e, rc, s);
  }

  lemma {:induction false} ValuesAreNoBranches(opc: Word, d: Reg, e: Exp, rc: bool)
    requires TemplateOf(opc) == ValueCalls(d, e, rc)
    ensures !IsBranch(opc) && TemplateOf(opc) != EVERYTHING
  {
    hide TemplateOf, IsBranch;
    TemplateKinds(opc);
  }

  // ---------------------------------------------------- one call of any kind

  lemma {:induction false} RunOneCall(env: Env, opc: Word, call: Call, s: State)
    ensures RunFrom(env, opc, [call], s, s) == RunCall(env, opc, call, EvalAll(env, call.Operands(), s), s)
  {
    assert [call][1..] == [];
  }

  lemma {:induction false} TwoValues(env: Env, a: Exp, b: Exp, s: State)
    ensures EvalAll(env, [a, b], s) == [Eval(env, a, s), Eval(env, b, s)]
  {
    assert [a, b][1..] == [b];
    assert EvalAll(env, [b], s) == [Eval(env, b, s)];
  }

  lemma {:induction false} OneCallSteps(env: Env, opc: Word, call: Call, s: State)
    requires TemplateOf(opc) == [call] && call.Plain()
    ensures !IsBranch(opc) && TemplateOf(opc) != EVERYTHING
    ensures Step(env, opc, s) == RunCall(env, opc, call, EvalAll(env, call.Operands(), s), s).(pc := Next(s.pc))
  {
    hide TemplateOf, IsBranch, StepBranch, RunCall, EvalAll;
    TemplateKinds(opc);
    RunOneCall(env, opc, call, s);
  }

  lemma {:induction false} TwoOperands(a: Exp, b: Exp)
    ensures AllReads([a, b]) == ExpReads(a) + ExpReads(b) && AnyLoads([a, b]) == (ExpLoads(a) || ExpLoads(b))
  {
    assert [a, b][1..] == [b];
    OneOperand(b);
  }

  lemma {:induction false} OneCallRecords(opc: Word, call: Call)
    requires TemplateOf(opc) == [call] && call.Plain()
    ensures Records(opc, CallReads(call), CallWrites(call), call.Loads() || AnyLoads(call.Operands()), call.Stores())
  {
    hide TemplateOf, IsBranch, Records, CallReads, CallWrites, AnyLoads, TemplateReads, TemplateWrites, TemplateLoads,
         TemplateStores;
    OneCallIsPlain(opc, call);
    OneCallSets(call);
    PlainRecords(opc);
  }

  lemma {:induction false} OneCallSets(call: Call)
    ensures TemplateReads([call]) == CallReads(call) && TemplateWrites([call]) == CallWrites(call)
    ensures TemplateLoads([call]) == (call.Loads() || AnyLoads(call.Operands()))
    ensures TemplateStores([call]) == call.Stores()
  {
    assert [call][1..] == [];
  }

  lemma {:induction false} OneCallIsPlain(opc: Word, call: Call)
    requires TemplateOf(opc) == [call] && call.Plain()
    ensures !IsBranch(opc) && TemplateOf(opc) != EVERYTHING
  {
    hide TemplateOf, IsBranch;
    TemplateKinds(opc);
  }

  // ------------------------------------------------------- a value and a carry

  /** Result, with CA beside it. */
  ghost predicate CarryResult(s: State, t: State, d: Reg, v: Word, ca: bool, rc: bool) {
    && t == s.(pc := Next(s.pc), gpr := s.gpr[d := v], xer := t.xer, cr := t.cr)
    && BitShows(t.xer, s.xer, 29, ca)
    && if rc then FieldShows(t.cr, s.cr, 0, Signed(v) < 0, Signed(v) > 0, v == 0, BitAt(s.xer, 31)) else t.cr == s.cr
  }

  ghost predicate ComputesCarry(env: Env, opc: Word, s: State, d: Reg, v: Word, ca: bool, r: set<nat>, rc: bool) {
    && CarryResult(s, Step(env, opc, s), d, v, ca, rc)
    && Records(opc, r + RecordReads(rc), {d, XER_CA} + RecordWrites(rc), false, false)
  }

  function CarryCalls(d: Reg, e: Exp, c: Exp, rc: bool): Template {
    if rc then [WriteGpr(d, e), WriteXerCa(c), WriteCr0(e)] else [WriteGpr(d, e), WriteXerCa(c)]
  }

  lemma {:induction false} CarryCallSets(d: Reg, e: Exp, c: Exp, rc: bool)
    requires !ExpLoads(e) && !ExpLoads(c)
    ensures var t := CarryCalls(d, e, c, rc);
      && TemplateReads(t) == ExpReads(e) + ExpReads(c) + RecordReads(rc)
      && TemplateWrites(t) == {d, XER_CA} + RecordWrites(rc)
      && !TemplateLoads(t) && !TemplateStores(t)
  {
    hide ExpReads, ExpLoads;
    OneOperand(e);
    OneOperand(c);
    var t := CarryCalls(d, e, c, rc);
    var last := if rc then [WriteCr0(e)] else [];
    assert t[1..] == [WriteXerCa(c)] + last && t[1..][1..] == last;
    if rc {
      assert last[1..] == [];
      assert TemplateReads(last) == CallReads(WriteCr0(e)) && TemplateWrites(last) == FieldBits(0);
      assert !TemplateLoads(last) && !TemplateStores(last);
    }
    assert TemplateReads(t[1..]) == ExpReads(c) + TemplateReads(last);
    assert TemplateWrites(t[1..]) == {XER_CA} + TemplateWrites(last);
    assert !TemplateLoads(t[1..]) && !TemplateStores(t[1..]);
  }

  lemma {:induction false} RunCarryCalls(env: Env, opc: Word, d: Reg, e: Exp, c: Exp, rc: bool, s: State)
    ensures CarryResult(s, RunFrom(env, opc, CarryCalls(d, e, c, rc), s, s).(pc := Next(s.pc)),
                        d, Eval(env, e, s), Eval(env, c, s) != 0, rc)
  {
    hide Eval, PutField, PutBit, Compared, FieldShows, BitAt, NibbleShows, MaskShows, Next;
    var t, v, ca := CarryCalls(d, e, c, rc), Eval(env, e, s), Eval(env, c, s);
    assert EvalAll(env, [e], s) == [v] && EvalAll(env, [c], s) == [ca];
    var s1 := s.(gpr := s.gpr[d := v]);
    var s2 := s1.(xer := PutBit(s.xer, 29, ca != 0));
    PutsShow(s.xer, 0, 0, 29, ca != 0, 0, 0);
    assert BitAt(s2.xer, 31) == BitAt(s.xer, 31);
    assert RunFrom(env, opc, t, s, s) == RunFrom(env, opc, t[1..], s, s1) == RunFrom(env, opc, t[1..][1..], s, s2);
    if rc {
      assert t[1..][1..] == [WriteCr0(e)];
      assert RunFrom(env, opc, [WriteCr0(e)], s, s2) == RunCall(env, opc, WriteCr0(e), [v], s2);
      ComparedShows(s.cr, 0, v >= 0x8000_0000, 0 < v < 0x8000_0000, s2.xer);
    }
  }

  /** The instructions whose template is one value and its carry. */
  lemma {:induction false} CarryComputes(env: Env, opc: Word, s: State, d: Reg, e: Exp, c: Exp, rc: bool)
    requires TemplateOf(opc) == CarryCalls(d, e, c, rc) && !ExpLoads(e) && !ExpLoads(c)
    ensures ComputesCarry(env, opc, s, d, Eval(env, e, s), Eval(env, c, s) != 0, ExpReads(e) + ExpReads(c), rc)
  {
    CarriesAreNoBranches(opc, d, e, c, rc);
    hide TemplateOf, Eval, ExpReads, ExpLoads, StepBranch, RunFrom, CarryResult, Records, IsBranch;
    CarryCallSets(d, e, c, rc);
    PlainRecords(opc);
    RunCarryCalls(env, opc, d, e, c, rc, s);
  }

  lemma {:induction false} CarriesAreNoBranches(opc: Word, d: Reg, e: Exp, c: Exp, rc: bool)
    requires TemplateOf(opc) == CarryCalls(d, e, c, rc)
    ensures !IsBranch(opc) && TemplateOf(opc) != EVERYTHING
  {
    hide TemplateOf, IsBranch;
    TemplateKinds(opc);
  }
}
