/** Where branches go, in terms of their fields, and what page discovery makes of it. */
module Branching {
  import opened Words
  import opened LiveSets
  import opened Arithmetic
  import opened Templates
  import opened Effects
  import opened Machine
  import opened Soundness
  import opened Opcodes
  import opened Results
  import opened Page
  import opened PageCfg
  import opened PageLiveness

  // --------------------------------------------------- branch conditions

  /** CTR after a branch with option field bo, which counts down unless bit 2 of BO is set. */
  function CtrAfter(bo: nat, ctr: Word): Word {
    if bo / 4 % 2 == 1 then ctr else if ctr == 0 then 0xffff_ffff else ctr - 1
  }

  predicate CtrAllows(bo: nat, after: Word) {
    bo / 4 % 2 == 1 || (if bo / 2 % 2 == 1 then after == 0 else after != 0)
  }

  predicate CrAllows(bo: nat, bi: nat, cr: Word)
    requires bi < 32
  {
    bo / 16 % 2 == 1 || (BitAt(cr, 31 - bi) == (bo / 8 % 2 == 1))
  }

  /** The word address at or below w. */
  function WordOf(w: Word): Word {
    w - w % 4
  }

  function After(s: State, taken: bool, target: Word, link: bool, ctr: Word): State {
    var next: Word := (s.pc + 4) % TWO32;
    s.(pc := if taken then target else next, lr := if taken && link then next else s.lr, ctr := ctr)
  }

  lemma {:induction false} OptionBits(bo: nat)
    ensures BitAt(bo, 1) == (bo / 2 % 2 == 1) && BitAt(bo, 2) == (bo / 4 % 2 == 1)
    ensures BitAt(bo, 3) == (bo / 8 % 2 == 1) && BitAt(bo, 4) == (bo / 16 % 2 == 1)
  {
    NibbleBits(bo);
    NibbleBits(bo / 2);
    assert bo / 2 / 2 == bo / 4 && bo / 4 / 2 == bo / 8 && bo / 8 / 2 == bo / 16;
    assert BitAt(bo, 4) == BitAt(bo / 2, 3);
  }

  lemma {:induction false} OptionsMean(opc: Word, s: State)
    ensures Decremented(opc, s.ctr) == CtrAfter(FieldD(opc), s.ctr) || SkipsCtrTest(opc)
    ensures SkipsCtrTest(opc) <==> FieldD(opc) / 4 % 2 == 1
    ensures SkipsCrTest(opc) <==> FieldD(opc) / 16 % 2 == 1
    ensures forall c: Word :: CtrOk(opc, c) == CtrAllows(FieldD(opc), c)
    ensures CrOk(opc, s.cr) == CrAllows(FieldD(opc), FieldA(opc), s.cr)
    ensures Decremented(opc, s.ctr) == CtrAfter(FieldD(opc), s.ctr)
  {
    hide FieldD, FieldA, BitAt;
    OptionBits(FieldD(opc));
    if s.ctr == 0 {
      Unique(s.ctr - 1, TWO32, -1, 0xffff_ffff);
    }
  }

  lemma {:induction false} BranchSteps(env: Env, opc: Word, s: State)
    requires IsBranch(opc)
    ensures Step(env, opc, s) == StepBranch(opc, s)
  {
    TemplateKinds(opc);
  }

  // ------------------------------------------------------------ round trips

  /** The decoder's answer for a target with displacement d. */
  function OffsetOf(target: int): int {
    if 0 <= target < PAGE_SIZE then target else -1
  }

  lemma {:induction false} SignedSum(ofs: nat, d: int)
    requires ofs < PAGE_SIZE && -0x200_0000 <= d < 0x200_0000
    ensures Signed(Add(ofs, d % TWO32)) == ofs + d && Signed(d % TWO32) == d
  {
    Unique(d, TWO32, if d < 0 then -1 else 0, if d < 0 then d + TWO32 else d);
    Unique(ofs + d % TWO32, TWO32, if d < 0 <= ofs + d then 1 else 0,
           if ofs + d < 0 then ofs + d + TWO32 else ofs + d);
  }

  lemma {:induction false} WrappedSum(pc: Word, d: int)
    requires -0x200_0000 <= d < 0x200_0000
    ensures Add(pc, d % TWO32) == (pc + d) % TWO32
  {
    Unique(d, TWO32, if d < 0 then -1 else 0, if d < 0 then d + TWO32 else d);
    if d < 0 {
      assert pc + d % TWO32 == (pc + d) + TWO32;
    }
  }

  /** b, ba, bl and bla: decoding inverts encoding, and the machine goes there. */
  lemma {:induction false} JumpRoundTrip(env: Env, d: int, absolute: bool, link: bool, ofs: nat, s: State)
    requires -0x200_0000 <= d < 0x200_0000 && d % 4 == 0 && IsSlot(ofs)
    ensures var opc := BForm(d, absolute, link);
      && DecodeBranchTarget(opc, ofs) == OffsetOf(if absolute then d else ofs + d)
      && Step(env, opc, s) == After(s, true, (if absolute then d else s.pc + d) % TWO32, link, s.ctr)
  {
    var opc := BForm(d, absolute, link);
    hide BForm, MainOpcode, BranchLI, AbsoluteBit, LinkBit, TemplateOf;
    BFormDecodes(d, absolute, link);
    SignedSum(ofs, d);
    WrappedSum(s.pc, d);
    BranchSteps(env, opc, s);
  }

  /** bc and its forms. */
  lemma {:induction false} ConditionalRoundTrip(
      env: Env, bo: nat, bi: nat, d: int, absolute: bool, link: bool, ofs: nat, s: State)
    requires bo < 32 && bi < 32 && -0x8000 <= d < 0x8000 && d % 4 == 0 && IsSlot(ofs)
    ensures var opc, ctr := BcForm(bo, bi, d, absolute, link), CtrAfter(bo, s.ctr);
      && DecodeBranchTarget(opc, ofs) == OffsetOf(if absolute then d else ofs + d)
      && Step(env, opc, s) == After(s, CtrAllows(bo, ctr) && CrAllows(bo, bi, s.cr),
                                    (if absolute then d else s.pc + d) % TWO32, link, ctr)
  {
    var opc := BcForm(bo, bi, d, absolute, link);
    hide BcForm, MainOpcode, BranchBD, AbsoluteBit, LinkBit, TemplateOf, FieldD, FieldA, CtrOk, CrOk, CtrAllows,
         CrAllows, CtrAfter, Decremented, BranchLI;
    BcFormDecodes(bo, bi, d, absolute, link);
    SignedSum(ofs, d);
    WrappedSum(s.pc, d);
    OptionsMean(opc, s);
    BranchSteps(env, opc, s);
  }

  /** bclr and bclrl: to LR as it was, on the CTR and CR conditions. */
  lemma {:induction false} ReturnStep(env: Env, bo: nat, bi: nat, b: nat, link: bool, s: State)
    requires bo < 32 && bi < 32 && b < 32
    ensures var opc, ctr := XForm(19, bo, bi, b, 16, link), CtrAfter(bo, s.ctr);
      Step(env, opc, s) == After(s, CtrAllows(bo, ctr) && CrAllows(bo, bi, s.cr), WordOf(s.lr), link, ctr)
  {
    var opc := XForm(19, bo, bi, b, 16, link);
    hide XForm, MainOpcode, ExtOpcode, LinkBit, TemplateOf, FieldD, FieldA, CtrOk, CrOk, CtrAllows, CrAllows, CtrAfter,
         Decremented;
    XFormDecodes(19, bo, bi, b, 16, link);
    OptionsMean(opc, s);
    BranchSteps(env, opc, s);
  }

  /** bcctr and bcctrl: to CTR, on the CR condition alone. */
  lemma {:induction false} CountStep(env: Env, bo: nat, bi: nat, b: nat, link: bool, s: State)
    requires bo < 32 && bi < 32 && b < 32
    ensures Step(env, XForm(19, bo, bi, b, 528, link), s)
         == After(s, CrAllows(bo, bi, s.cr), WordOf(s.ctr), link, s.ctr)
  {
    var opc := XForm(19, bo, bi, b, 528, link);
    hide XForm, MainOpcode, ExtOpcode, LinkBit, TemplateOf, FieldD, FieldA, CtrOk, CrOk, CtrAllows, CrAllows, CtrAfter;
    XFormDecodes(19, bo, bi, b, 528, link);
    OptionsMean(opc, s);
    BranchSteps(env, opc, s);
  }

  // -------------------------------------------------------- recorded effects

  ghost predicate RecordsBranch(opc: Word, r: set<nat>, w: set<nat>) {
    var fx := AnalyzeInsn(opc);
    fx.isBranch && !fx.isEverything && Members(fx.read) == r && Members(fx.write) == w
  }

  ghost function TestedCtr(bo: nat): set<nat> { if bo / 4 % 2 == 1 then {} else {CTR} }
  ghost function TestedCr(bo: nat, bi: nat): set<nat>
    requires bi < 32
  {
    if bo / 16 % 2 == 1 then {} else {63 - bi}
  }
  ghost function Linked(link: bool): set<nat> { if link then {LR} else {} }

  lemma {:induction false} BranchRecords(opc: Word)
    requires IsBranch(opc)
    ensures RecordsBranch(opc, BranchReads(opc), BranchWrites(opc))
    ensures CtrUses(opc) == TestedCtr(FieldD(opc)) && CrUses(opc) == TestedCr(FieldD(opc), FieldA(opc))
    ensures LinkWrites(opc) == Linked(LinkBit(opc))
  {
    hide Members, AnalyzeInsn, TemplateOf, BitAt, FieldD, FieldA, LinkBit, IsBranch, BranchReads, BranchWrites;
    AnalyzeSets(opc);
    BranchHasTemplate(opc);
    BranchSets(opc);
    OptionBits(FieldD(opc));
  }

  lemma {:induction false} BranchHasTemplate(opc: Word)
    requires IsBranch(opc)
    ensures TemplateOf(opc) != EVERYTHING
  {
    hide TemplateOf, IsBranch;
    TemplateKinds(opc);
  }

  /** What the four kinds of branch are recorded to read and write. */
  lemma {:induction false} JumpRecords(d: int, absolute: bool, link: bool)
    requires -0x200_0000 <= d < 0x200_0000 && d % 4 == 0
    ensures RecordsBranch(BForm(d, absolute, link), {}, Linked(link))
  {
    hide BForm, MainOpcode, LinkBit, AbsoluteBit, BranchLI, RecordsBranch;
    BFormDecodes(d, absolute, link);
    BranchRecords(BForm(d, absolute, link));
  }

  lemma {:induction false} ConditionalRecords(bo: nat, bi: nat, d: int, absolute: bool, link: bool)
    requires bo < 32 && bi < 32 && -0x8000 <= d < 0x8000 && d % 4 == 0
    ensures RecordsBranch(BcForm(bo, bi, d, absolute, link), TestedCtr(bo) + TestedCr(bo, bi),
                          TestedCtr(bo) + Linked(link))
  {
    hide BcForm, MainOpcode, LinkBit, AbsoluteBit, BranchBD, RecordsBranch, FieldD, FieldA, CtrUses, CrUses, LinkWrites;
    BcFormDecodes(bo, bi, d, absolute, link);
    BranchRecords(BcForm(bo, bi, d, absolute, link));
  }

  lemma {:induction false} ReturnRecords(bo: nat, bi: nat, b: nat, link: bool)
    requires bo < 32 && bi < 32 && b < 32
    ensures RecordsBranch(XForm(19, bo, bi, b, 16, link), {LR} + TestedCtr(bo) + TestedCr(bo, bi),
                          TestedCtr(bo) + Linked(link))
  {
    hide XForm, MainOpcode, ExtOpcode, LinkBit, RecordsBranch, FieldD, FieldA, CtrUses, CrUses, LinkWrites;
    XFormDecodes(19, bo, bi, b, 16, link);
    BranchRecords(XForm(19, bo, bi, b, 16, link));
  }

  lemma {:induction false} CountRecords(bo: nat, bi: nat, b: nat, link: bool)
    requires bo < 32 && bi < 32 && b < 32
    ensures RecordsBranch(XForm(19, bo, bi, b, 528, link), {CTR} + TestedCr(bo, bi), Linked(link))
  {
    hide XForm, MainOpcode, ExtOpcode, LinkBit, RecordsBranch, FieldD, FieldA, CtrUses, CrUses, LinkWrites;
    XFormDecodes(19, bo, bi, b, 528, link);
    BranchRecords(XForm(19, bo, bi, b, 528, link));
  }

  // ------------------------------------------------ discovery and the machine

  /** Some state steps from offset o of the page to offset q. */
  ghost predicate StepsTo(env: Env, page: Page, base: Word, o: nat, q: nat) {
    exists s: State :: s.pc == base + o && PageStep(env, page, base, s).pc == base + q
  }

  /** Some state steps from o to q, though the register a branch there would go to is not q. */
  ghost predicate FallsTo(env: Env, page: Page, base: Word, o: nat, q: nat)
    requires o < PAGE_SIZE
  {
    exists s: State ::
      && s.pc == base + o && PageStep(env, page, base, s).pc == base + q
      && WordOf(if ExtOpcode(InsnAt(page, o)) == 528 then s.ctr else s.lr) != base + q
  }

  /** A state at pc in which the tests of a branch come out as wanted. */
  function Testing(opc: Word, pc: Word, taken: bool, lr: Word): State {
    var zero := (FieldD(opc) / 2 % 2 == 1) == taken;
    var ones := (FieldD(opc) / 8 % 2 == 1) == taken;
    State(pc, seq(32, _ => 0), if ones then 0xffff_ffff else 0, 0, lr, if zero then 1 else 2, Untracked(map[], []))
  }

  lemma {:induction false} AllOnesBit(i: nat)
    requires i < 32
    ensures BitAt(0xffff_ffff, i) && !BitAt(0, i)
  {
    Pow2Values();
    OnesValue(32);
    OnesBit(32, i);
    ZeroBit(i);
  }

  lemma {:induction false} TestingTests(opc: Word, pc: Word, taken: bool, lr: Word)
    ensures var s := Testing(opc, pc, taken, lr);
      && CrOk(opc, s.cr) == (taken || SkipsCrTest(opc))
      && CtrOk(opc, Decremented(opc, s.ctr)) == (taken || SkipsCtrTest(opc))
  {
    var s := Testing(opc, pc, taken, lr);
    hide FieldD, FieldA, BitAt;
    OptionsMean(opc, s);
    AllOnesBit(31 - FieldA(opc));
  }

  /** The two outcomes of bc, and that each happens in some state. */
  lemma {:induction false} ConditionalOutcomes(env: Env, opc: Word, s: State)
    requires MainOpcode(opc) == 16
    ensures Step(env, opc, s).pc == TakenTarget(opc, s.pc)
            || (Step(env, opc, s).pc == Next(s.pc) && !IsUnconditionalBranch(opc))
    ensures Step(env, opc, Testing(opc, s.pc, true, 0)).pc == TakenTarget(opc, s.pc)
    ensures !IsUnconditionalBranch(opc) ==> Step(env, opc, Testing(opc, s.pc, false, 0)).pc == Next(s.pc)
  {
    hide BranchBD, BranchLI, TemplateOf, Testing, CrOk, CtrOk;
    TestingTests(opc, s.pc, true, 0);
    TestingTests(opc, s.pc, false, 0);
    TestingPc(opc, s.pc, true, 0);
    TestingPc(opc, s.pc, false, 0);
    BranchSteps(env, opc, s);
    BranchSteps(env, opc, Testing(opc, s.pc, true, 0));
    BranchSteps(env, opc, Testing(opc, s.pc, false, 0));
    UnconditionalTests(opc, s);
  }

  lemma {:induction false} TestingPc(opc: Word, pc: Word, taken: bool, lr: Word)
    ensures Testing(opc, pc, taken, lr).pc == pc && Testing(opc, pc, taken, lr).lr == lr
    ensures Testing(opc, pc, taken, lr).ctr == 1 || Testing(opc, pc, taken, lr).ctr == 2
  {
  }

  lemma {:induction false} UnconditionalTests(opc: Word, s: State)
    requires MainOpcode(opc) == 16
    ensures IsUnconditionalBranch(opc) ==> CrOk(opc, s.cr) && forall c :: CtrOk(opc, c)
    ensures IsUnconditionalBranch(opc) <==> SkipsCtrTest(opc) && SkipsCrTest(opc)
  {
  }

  /** The decoder is right about the target. */
  predicate DecodesRight(opc: Word, pc: Word, base: Word)
    requires MainOpcode(opc) == 18 || MainOpcode(opc) == 16
  {
    var target := TakenTarget(opc, pc);
    !(AbsoluteBit(opc) && base != 0 && (target < PAGE_SIZE || base <= target < base + PAGE_SIZE))
  }

  /** The pushes of a block that ends in b or bc are exactly the page offsets its last
      instruction, at offset last, can step to. */
  lemma {:induction false} PushesAreSteps(env: Env, page: Page, base: Word, o: nat, last: nat, q: nat)
    requires IsBase(base) && IsSlot(last) && IsSlot(q)
    requires MainOpcode(InsnAt(page, last)) == 18 || MainOpcode(InsnAt(page, last)) == 16
    requires DecodesRight(InsnAt(page, last), base + last, base)
    requires IsSlot(o) && last + 4 == ScanEnd(page, AnalyzeInsn, o)
    ensures q in Pushes(page, AnalyzeInsn, o) <==> StepsTo(env, page, base, last, q)
  {
    hide AnalyzeInsn, Step, StepBranch, MainOpcode, AbsoluteBit, TakenTarget, DecodeBranchTarget, ScanEnd, PageStep;
    var opc := InsnAt(page, last);
    BranchIsRecorded(opc);
    DecodingIsExact(opc, last, base);
    DirectSteps(env, page, base, last, q);
  }

  lemma {:induction false} BranchIsRecorded(opc: Word)
    requires MainOpcode(opc) == 18 || MainOpcode(opc) == 16
    ensures AnalyzeInsn(opc).isBranch && IsBranch(opc)
  {
    AnalyzeSets(opc);
  }

  /** Where b and bc at offset last step to. */
  lemma {:induction false} DirectSteps(env: Env, page: Page, base: Word, last: nat, q: nat)
    requires IsBase(base) && IsSlot(last) && IsSlot(q)
    requires MainOpcode(InsnAt(page, last)) == 18 || MainOpcode(InsnAt(page, last)) == 16
    ensures var opc := InsnAt(page, last);
      StepsTo(env, page, base, last, q) <==>
        (TakenTarget(opc, base + last) == base + q || (!IsUnconditionalBranch(opc) && q == last + 4))
  {
    hide AnalyzeInsn, Step, StepBranch, TakenTarget, PageStep, IsUnconditionalBranch, Testing;
    var opc, pc := InsnAt(page, last), base + last;
    var yes, no := Testing(opc, pc, true, 0), Testing(opc, pc, false, 0);
    TestingPc(opc, pc, true, 0);
    TestingPc(opc, pc, false, 0);
    forall s: State | s.pc == pc
      ensures Step(env, opc, s) == PageStep(env, page, base, s)
      ensures Step(env, opc, s).pc == TakenTarget(opc, pc)
              || (Step(env, opc, s).pc == Next(pc) && !IsUnconditionalBranch(opc)) {
      OnPageStep(env, page, base, s, last);
      DirectOutcome(env, opc, s);
    }
    DirectOutcome(env, opc, yes);
    OnPageStep(env, page, base, yes, last);
    OnPageStep(env, page, base, no, last);
    NextOnPage(base, last, q);
  }

  lemma {:induction false} NextOnPage(base: Word, last: nat, q: nat)
    requires IsBase(base) && IsSlot(last) && IsSlot(q)
    ensures Next(base + last) == base + q <==> q == last + 4
  {
  }

  lemma {:induction false} DirectOutcome(env: Env, opc: Word, s: State)
    requires MainOpcode(opc) == 18 || MainOpcode(opc) == 16
    ensures Step(env, opc, s).pc == TakenTarget(opc, s.pc)
            || (Step(env, opc, s).pc == Next(s.pc) && !IsUnconditionalBranch(opc))
    ensures Step(env, opc, Testing(opc, s.pc, true, 0)).pc == TakenTarget(opc, s.pc)
    ensures !IsUnconditionalBranch(opc) ==> Step(env, opc, Testing(opc, s.pc, false, 0)).pc == Next(s.pc)
  {
    if MainOpcode(opc) == 16 {
      ConditionalOutcomes(env, opc, s);
    } else {
      hide BranchLI, BranchBD, TemplateOf;
      TestingPc(opc, s.pc, true, 0);
      BranchSteps(env, opc, s);
      BranchSteps(env, opc, Testing(opc, s.pc, true, 0));
    }
  }

  // ------------------------------------------------------- register branches

  predicate IsRegisterBranch(opc: Word) {
    MainOpcode(opc) == 19 && (ExtOpcode(opc) == 16 || ExtOpcode(opc) == 528)
  }

  /** bcctr with a CTR test that it does not make: the decoder expects a fall-through. */
  predicate IgnoresCtrTest(opc: Word) {
    ExtOpcode(opc) == 528 && FieldD(opc) / 16 % 2 == 1 && FieldD(opc) / 4 % 2 == 0
  }

  /** A state at pc in which a register branch would go elsewhere than to avoid, and is not taken
      if it need not be. */
  function Falling(opc: Word, pc: Word, avoid: int): State {
    var other: Word := if avoid == 0 then 4 else 0;
    var s := Testing(opc, pc, false, other);
    if ExtOpcode(opc) == 528 then s.(ctr := other) else s
  }

  lemma {:induction false} RegisterOutcome(env: Env, opc: Word, s: State)
    requires IsRegisterBranch(opc)
    ensures Step(env, opc, s).pc == WordOf(if ExtOpcode(opc) == 528 then s.ctr else s.lr)
            || (Step(env, opc, s).pc == Next(s.pc) && !(IsUnconditionalBranch(opc) || IgnoresCtrTest(opc)))
  {
    hide TemplateOf, FieldD, FieldA, CrAllows, CtrAllows, BitAt;
    OptionsMean(opc, s);
    BranchSteps(env, opc, s);
  }

  lemma {:induction false} RegisterFalls(env: Env, opc: Word, pc: Word, avoid: int)
    requires IsRegisterBranch(opc) && !IsUnconditionalBranch(opc) && !IgnoresCtrTest(opc)
    ensures var s := Falling(opc, pc, avoid);
      && s.pc == pc && Step(env, opc, s).pc == Next(pc)
      && WordOf(if ExtOpcode(opc) == 528 then s.ctr else s.lr) != avoid
  {
    var s := Falling(opc, pc, avoid);
    hide TemplateOf, FieldD, FieldA, BitAt, CrOk, CtrOk, Testing;
    TestingTests(opc, pc, false, if avoid == 0 then 4 else 0);
    TestingPc(opc, pc, false, if avoid == 0 then 4 else 0);
    OptionsMean(opc, s);
    BranchSteps(env, opc, s);
  }

  /** The one push of a block that ends in bclr or bcctr is where it falls through to, except
      that the CTR test of bcctr, which the machine does not make, counts as a condition. */
  lemma {:induction false} RegisterPushes(env: Env, page: Page, base: Word, o: nat, last: nat, q: nat)
    requires IsBase(base) && IsSlot(last) && IsSlot(q) && IsRegisterBranch(InsnAt(page, last))
    requires IsSlot(o) && last + 4 == ScanEnd(page, AnalyzeInsn, o)
    ensures q in Pushes(page, AnalyzeInsn, o) <==>
            FallsTo(env, page, base, last, q) || (q == last + 4 && IgnoresCtrTest(InsnAt(page, last)))
  {
    hide AnalyzeInsn, ScanEnd, FallsTo, IsUnconditionalBranch, IgnoresCtrTest, DecodeBranchTarget;
    var opc := InsnAt(page, last);
    RegisterIsRecorded(opc, last);
    RegisterSteps(env, page, base, last, q);
    NotBoth(opc);
  }

  lemma {:induction false} NotBoth(opc: Word)
    requires IsRegisterBranch(opc)
    ensures IgnoresCtrTest(opc) ==> !IsUnconditionalBranch(opc)
  {
    hide FieldD, BitAt;
    OptionBits(FieldD(opc));
  }

  lemma {:induction false} RegisterIsRecorded(opc: Word, ofs: nat)
    requires IsRegisterBranch(opc) && ofs < PAGE_SIZE
    ensures AnalyzeInsn(opc).isBranch && DecodeBranchTarget(opc, ofs) == -1
  {
    AnalyzeSets(opc);
  }

  lemma {:induction false} RegisterSteps(env: Env, page: Page, base: Word, last: nat, q: nat)
    requires IsBase(base) && IsSlot(last) && IsSlot(q) && IsRegisterBranch(InsnAt(page, last))
    ensures var opc := InsnAt(page, last);
      FallsTo(env, page, base, last, q) <==>
        q == last + 4 && !IsUnconditionalBranch(opc) && !IgnoresCtrTest(opc)
  {
    hide Step, PageStep, IsUnconditionalBranch, IgnoresCtrTest, Falling, ExtOpcode, WordOf, IsRegisterBranch;
    var opc, pc := InsnAt(page, last), base + last;
    NextOnPage(base, last, q);
    if FallsTo(env, page, base, last, q) {
      var s: State :| s.pc == pc && PageStep(env, page, base, s).pc == base + q
                      && WordOf(if ExtOpcode(opc) == 528 then s.ctr else s.lr) != base + q;
      OnPageStep(env, page, base, s, last);
      RegisterOutcome(env, opc, s);
    }
    if q == last + 4 && !IsUnconditionalBranch(opc) && !IgnoresCtrTest(opc) {
      RegisterFalls(env, opc, pc, base + q);
      OnPageStep(env, page, base, Falling(opc, pc, base + q), last);
    }
  }

  /** A block that does not end in a branch pushes what follows an unmodelled instruction. */
  lemma {:induction false} OtherPushes(page: Page, o: nat, q: nat)
    requires IsSlot(o) && IsSlot(q) && !AnalyzeInsn(InsnAt(page, ScanEnd(page, AnalyzeInsn, o) - 4)).isBranch
    ensures q in Pushes(page, AnalyzeInsn, o) <==>
            q == ScanEnd(page, AnalyzeInsn, o)
            && AnalyzeInsn(InsnAt(page, ScanEnd(page, AnalyzeInsn, o) - 4)).isEverything
  {
    hide AnalyzeInsn, ScanEnd;
  }

  // ----------------------------------------------------- edges and the machine

  /** A known successor of a block is one whose start the block pushed. */
  lemma {:induction false} EdgesArePushes(page: Page, an: Analyzer, bs: seq<PageBlock>, at: seq<int>, o: nat, k: nat)
    requires IsSlot(o) && Indexed(bs, at) && k < |bs|
    ensures k in EdgesOf(page, an, ScanEnd(page, an, o), at) <==> bs[k].startOfs in Pushes(page, an, o)
  {
    hide ScanEnd, DecodeBranchTarget, IsUnconditionalBranch, Indexed, EdgeTo;
    var end, start := ScanEnd(page, an, o), bs[k].startOfs;
    var opc := InsnAt(page, end - 4);
    TargetAligned(opc, end - 4);
    StartIsSlot(bs, at, k);
    HeadEdge(bs, at, end, k);
    if an(opc).isBranch {
      var t, more := DecodeBranchTarget(opc, end - 4), !IsUnconditionalBranch(opc);
      if t >= 0 {
        HeadEdge(bs, at, t, k);
      }
      InTwo(if t >= 0 then [EdgeTo(at, t)] else [SUCC_OFF_PAGE], if more then [EdgeTo(at, end)] else [], k);
      InTwo(if t >= 0 then [t] else [], if more && end < PAGE_SIZE then [end] else [], start);
    }
  }

  lemma {:induction false} InTwo(x: seq<int>, y: seq<int>, k: int)
    ensures k in x + y <==> k in x || k in y
  {
  }

  lemma {:induction false} StartIsSlot(bs: seq<PageBlock>, at: seq<int>, k: nat)
    requires Indexed(bs, at) && k < |bs|
    ensures IsSlot(bs[k].startOfs) && |at| == SLOTS
  {
  }

  lemma {:induction false} HeadEdge(bs: seq<PageBlock>, at: seq<int>, q: nat, k: nat)
    requires Indexed(bs, at) && k < |bs| && q % 4 == 0
    ensures EdgeTo(at, q) == k <==> bs[k].startOfs == q
  {
    assert q < PAGE_SIZE ==> at[q / 4] == -1 || bs[at[q / 4]].startOfs == 4 * (q / 4);
  }

  /** The known successors of a block that ends in b or bc are exactly the blocks whose heads its
      last instruction can step to. */
  lemma {:induction false} EdgesAreSteps(
      env: Env, page: Page, bs: seq<PageBlock>, at: seq<int>, start: nat, base: Word, i: nat, last: nat, k: nat)
    requires IsBase(base) && IsSlot(last)
    requires MainOpcode(InsnAt(page, last)) == 18 || MainOpcode(InsnAt(page, last)) == 16
    requires DecodesRight(InsnAt(page, last), base + last, base)
    requires i < |bs| && k < |bs| && bs[i].endOfs == last + 4 && Built(page, AnalyzeInsn, start, bs, at)
    ensures k in bs[i].Succs() <==> StepsTo(env, page, base, last, bs[k].startOfs)
  {
    hide AnalyzeInsn, Members, StepsTo, DecodesRight, Pushes, EdgesOf, SolvedFrom, MainOpcode, ScanSummary;
    BlockEdges(page, bs, at, start, i);
    assert IsSlot(bs[k].startOfs) by {
      BuiltIsSolved(page, bs, at, start);
    }
    EdgesArePushes(page, AnalyzeInsn, bs, at, bs[i].startOfs, k);
    PushesAreSteps(env, page, base, bs[i].startOfs, last, bs[k].startOfs);
  }

  lemma {:induction false} BlockEdges(page: Page, bs: seq<PageBlock>, at: seq<int>, start: nat, i: nat)
    requires Built(page, AnalyzeInsn, start, bs, at) && i < |bs|
    ensures IsSlot(bs[i].startOfs) && bs[i].endOfs == ScanEnd(page, AnalyzeInsn, bs[i].startOfs) && Indexed(bs, at)
    ensures bs[i].Succs() == EdgesOf(page, AnalyzeInsn, bs[i].endOfs, at)
  {
    hide AnalyzeInsn, Members;
    assert Scanned(page, AnalyzeInsn, bs[i]);
  }

  /** pc is at the start of a discovered block. */
  ghost predicate AtHead(bs: seq<PageBlock>, base: Word, pc: Word) {
    exists j | 0 <= j < |bs| :: pc == base + bs[j].startOfs
  }

  /** Such a block has an unknown successor if and only if its last instruction can step to
      where no discovered block starts. */
  lemma {:induction false} UnknownEdgeIsStep(
      env: Env, page: Page, bs: seq<PageBlock>, at: seq<int>, start: nat, base: Word, i: nat, last: nat)
    requires IsBase(base) && IsSlot(last)
    requires MainOpcode(InsnAt(page, last)) == 18 || MainOpcode(InsnAt(page, last)) == 16
    requires DecodesRight(InsnAt(page, last), base + last, base)
    requires i < |bs| && bs[i].endOfs == last + 4 && Built(page, AnalyzeInsn, start, bs, at)
    ensures SUCC_OFF_PAGE in bs[i].Succs() <==>
            exists s: State :: s.pc == base + last && !AtHead(bs, base, PageStep(env, page, base, s).pc)
  {
    hide AnalyzeInsn, Members, SolvedFrom, MainOpcode, ScanSummary, PageStep, Step, DecodeBranchTarget, AtHead, Testing,
         IsUnconditionalBranch, TakenTarget, AbsoluteBit, EdgeTo, ScanEnd, Built;
    var opc, pc := InsnAt(page, last), base + last;
    BlockEdges(page, bs, at, start, i);
    BranchIsRecorded(opc);
    DecodingIsExact(opc, last, base);
    TargetAligned(opc, last);
    var t := DecodeBranchTarget(opc, last);
    var yes, no := Testing(opc, pc, true, 0), Testing(opc, pc, false, 0);
    TestingPc(opc, pc, true, 0);
    TestingPc(opc, pc, false, 0);
    UnknownTarget(bs, at, base, t, TakenTarget(opc, pc));
    UnknownNext(bs, at, base, last);
    forall s: State | s.pc == pc
      ensures Step(env, opc, s) == PageStep(env, page, base, s)
      ensures Step(env, opc, s).pc == TakenTarget(opc, pc)
              || (Step(env, opc, s).pc == Next(pc) && !IsUnconditionalBranch(opc)) {
      OnPageStep(env, page, base, s, last);
      DirectOutcome(env, opc, s);
    }
    DirectOutcome(env, opc, yes);
    assert SUCC_OFF_PAGE in bs[i].Succs() <==>
           (t < 0 || EdgeTo(at, t) == SUCC_OFF_PAGE)
           || (!IsUnconditionalBranch(opc) && EdgeTo(at, last + 4) == SUCC_OFF_PAGE);
  }

  lemma {:induction false} UnknownTarget(bs: seq<PageBlock>, at: seq<int>, base: Word, t: int, target: Word)
    requires Indexed(bs, at) && |at| == SLOTS && (t >= 0 ==> IsSlot(t))
    requires t == if base <= target < base + PAGE_SIZE then target - base else -1
    ensures t < 0 || EdgeTo(at, t) == SUCC_OFF_PAGE <==> !AtHead(bs, base, target)
  {
    if t >= 0 && EdgeTo(at, t) != SUCC_OFF_PAGE {
      EdgeLeads(bs, at, t);
      assert target == base + bs[EdgeTo(at, t)].startOfs;
    }
    if AtHead(bs, base, target) {
      var j :| 0 <= j < |bs| && target == base + bs[j].startOfs;
      assert IsSlot(bs[j].startOfs);
      HeadEdge(bs, at, bs[j].startOfs, j);
    }
  }

  lemma {:induction false} UnknownNext(bs: seq<PageBlock>, at: seq<int>, base: Word, last: nat)
    requires Indexed(bs, at) && |at| == SLOTS && IsBase(base) && IsSlot(last)
    ensures EdgeTo(at, last + 4) == SUCC_OFF_PAGE <==> !AtHead(bs, base, Next(base + last))
  {
    hide AtHead, EdgeTo, Indexed;
    NoBlockPastEnd(at);
    UnknownTarget(bs, at, base, if last + 4 < PAGE_SIZE then last + 4 else -1, Next(base + last));
  }

  lemma {:induction false} NoBlockPastEnd(at: seq<int>)
    requires |at| == SLOTS
    ensures EdgeTo(at, PAGE_SIZE) == SUCC_OFF_PAGE
  {
  }

  lemma {:induction false} FirstIsUnknown(page: Page, at: seq<int>, last: nat)
    requires IsSlot(last) && |at| == SLOTS && IsRegisterBranch(InsnAt(page, last))
    ensures SUCC_OFF_PAGE in EdgesOf(page, AnalyzeInsn, last + 4, at)
  {
    hide AnalyzeInsn, DecodeBranchTarget, EdgeTo, IsUnconditionalBranch, IsRegisterBranch;
    RegisterIsRecorded(InsnAt(page, last), last);
    assert EdgesOf(page, AnalyzeInsn, last + 4, at)[0] == SUCC_OFF_PAGE;
  }

  /** A register branch has an unknown successor, and another only where it falls through. */
  lemma {:induction false} RegisterEdges(
      env: Env, page: Page, bs: seq<PageBlock>, at: seq<int>, start: nat, base: Word, i: nat, last: nat, k: nat)
    requires IsBase(base) && IsSlot(last) && IsRegisterBranch(InsnAt(page, last))
    requires i < |bs| && k < |bs| && bs[i].endOfs == last + 4 && Built(page, AnalyzeInsn, start, bs, at)
    ensures SUCC_OFF_PAGE in bs[i].Succs()
    ensures k in bs[i].Succs() <==>
            FallsTo(env, page, base, last, bs[k].startOfs)
            || (bs[k].startOfs == last + 4 && IgnoresCtrTest(InsnAt(page, last)))
  {
    hide AnalyzeInsn, Members, FallsTo, Pushes, SolvedFrom, IsRegisterBranch, ScanSummary, EdgesOf, IgnoresCtrTest,
         Built, Indexed, ScanEnd;
    BlockEdges(page, bs, at, start, i);
    StartIsSlot(bs, at, k);
    FirstIsUnknown(page, at, last);
    EdgesArePushes(page, AnalyzeInsn, bs, at, bs[i].startOfs, k);
    RegisterPushes(env, page, base, bs[i].startOfs, last, bs[k].startOfs);
  }
}
