/** The on-demand scan: is a CR field overwritten before anything reads it? */
module CrScan {
  import opened Words
  import opened LiveSets
  import opened Templates
  import opened Effects
  import opened Machine
  import opened Soundness
  import opened Frame
  import DeadWrites
  import opened Page
  import opened PageCfg
  import opened PageLiveness

  predicate ReadsField(fx: InsnEffect, f: Field) {
    Logic(And, fx.read.cr, FieldMask(f)) != 0
  }

  predicate WritesField(fx: InsnEffect, f: Field) {
    Logic(And, fx.write.cr, FieldMask(f)) == FieldMask(f)
  }

  /** The answer of the scan from offset o on. */
  predicate ScanSaysDead(page: Page, an: Analyzer, f: Field, o: nat)
    requires o == PAGE_SIZE || IsSlot(o)
    decreases PAGE_SIZE - o
  {
    o < PAGE_SIZE &&
    var fx := an(InsnAt(page, o));
    !fx.isEverything && !ReadsField(fx, f) &&
    (WritesField(fx, f) || (!fx.isBranch && ScanSaysDead(page, an, f, o + 4)))
  }

  method IsCrFieldDeadAt(page: Page, startOfs: nat, an: Analyzer, crField: Field) returns (dead: bool)
    requires startOfs % 4 == 0
    ensures dead <==> startOfs < PAGE_SIZE && ScanSaysDead(page, an, crField, startOfs)
  {
    var ofs := startOfs;
    while ofs < PAGE_SIZE
      invariant ofs % 4 == 0 && startOfs <= ofs
      invariant startOfs < PAGE_SIZE ==>
                  ofs <= PAGE_SIZE
                  && (ScanSaysDead(page, an, crField, startOfs) <==> ScanSaysDead(page, an, crField, ofs))
      decreases PAGE_SIZE - ofs
    {
      hide ReadsField, WritesField;
      var fx := an(InsnAt(page, ofs));
      if fx.isEverything {
        return false;
      }
      if ReadsField(fx, crField) {
        return false;
      }
      if WritesField(fx, crField) {
        return true;
      }
      if fx.isBranch {
        return false;
      }
      ofs := ofs + 4;
    }
    return false;
  }

  /** The field is fully written at k before any instruction from o on reads it, gives
      up or branches away. */
  ghost predicate KilledAt(page: Page, an: Analyzer, f: Field, o: nat, k: nat) {
    && IsSlot(k) && o <= k
    && (var fx := an(InsnAt(page, k)); !fx.isEverything && !ReadsField(fx, f) && WritesField(fx, f))
    && forall j | o <= j < k && j % 4 == 0 ::
         var fx := an(InsnAt(page, j)); !fx.isEverything && !fx.isBranch && !ReadsField(fx, f)
  }

  /** The scan answers yes exactly when such an instruction exists on the page. */
  lemma {:induction false} ScanIsExact(page: Page, an: Analyzer, f: Field, o: nat)
    requires IsSlot(o)
    ensures ScanSaysDead(page, an, f, o) <==> exists k: nat :: KilledAt(page, an, f, o, k)
    decreases PAGE_SIZE - o
  {
    hide ReadsField, WritesField;
    var next := o + 4;
    if next < PAGE_SIZE {
      ScanIsExact(page, an, f, next);
    }
    if ScanSaysDead(page, an, f, o) {
      if WritesField(an(InsnAt(page, o)), f) {
        assert KilledAt(page, an, f, o, o);
      } else {
        assert ScanSaysDead(page, an, f, next);
        var k: nat :| KilledAt(page, an, f, next, k);
        assert KilledAt(page, an, f, o, k);
      }
    }
    if k: nat :| KilledAt(page, an, f, o, k) {
      if k != o {
        assert o % 4 == 0 && k % 4 == 0 && next <= k;
        assert KilledAt(page, an, f, next, k);
      }
    }
  }

  // ------------------------------------------------------------- as sets

  lemma {:induction false} FieldMasks(fx: InsnEffect, f: Field)
    ensures ReadsField(fx, f) <==> !(FieldBits(f) !! Members(fx.read))
    ensures WritesField(fx, f) <==> FieldBits(f) <= Members(fx.write)
  {
    DeadFieldMembers(fx.read, f);
    FieldMaskBits(f);
    var both := Logic(And, fx.write.cr, FieldMask(f));
    forall i: nat | i < 32
      ensures BitAt(both, i) <==> 32 + i in Members(fx.write) && 32 + i in FieldBits(f) {
      LogicBit(And, fx.write.cr, FieldMask(f), i);
    }
    if FieldBits(f) <= Members(fx.write) {
      forall i: nat | i < 32 ensures BitAt(both, i) == BitAt(FieldMask(f), i) {
        assert BitAt(FieldMask(f), i) <==> 32 + i in FieldBits(f);
      }
      WordsEqual(both, FieldMask(f));
    } else {
      var i :| i in FieldBits(f) && i !in Members(fx.write);
      assert BitAt(FieldMask(f), i - 32) && !BitAt(both, i - 32);
    }
  }

  /** What one instruction asks for when its result may differ in the field. */
  lemma {:induction false} OutsideField(fx: InsnEffect, f: Field)
    requires !fx.isEverything && !ReadsField(fx, f)
    ensures Before(fx, Everything - FieldBits(f)) <= Everything - FieldBits(f)
    ensures WritesField(fx, f) ==> Before(fx, Everything) <= Everything - FieldBits(f)
    ensures WritesField(fx, f) ==> forall l: set<nat> :: Before(fx, l) !! FieldBits(f)
  {
    hide ReadsField, WritesField, Members;
    FieldMasks(fx, f);
    MembersBounded(fx.read);
  }

  // -------------------------------------------------- what a yes is worth

  /** Both states are at o, where the scan calls f dead, and agree outside f. */
  ghost predicate DeadAt(page: Page, base: Word, f: Field, s: State, t: State, o: nat) {
    IsSlot(o) && s.pc == base + o && ScanSaysDead(page, AnalyzeInsn, f, o) && Agree(Everything - FieldBits(f), s, t)
  }

  /** States that differ at most in a field the scan calls dead from here on. */
  ghost predicate DifferInDeadField(page: Page, base: Word, f: Field, s: State, t: State) {
    s == t || exists o: nat :: DeadAt(page, base, f, s, t, o)
  }

  lemma {:induction false} StepOutsideField(env: Env, opc: Word, f: Field, l: set<nat>, s: State, t: State)
    requires Agree(Everything - FieldBits(f), s, t) && l <= Everything
    requires Before(AnalyzeInsn(opc), l) <= Everything - FieldBits(f)
    ensures Agree(l, Step(env, opc, s), Step(env, opc, t))
  {
    hide AnalyzeInsn, Step, Before, MayKeepLr;
    AgreeSubset(Before(AnalyzeInsn(opc), l), Everything - FieldBits(f), s, t);
    assert LR in Everything - FieldBits(f);
    assert SameResource(LR, s, t);
    StepKeepsAgreement(env, opc, l, s, t);
  }

  /** One scanned instruction: either it makes the states equal or the difference stays
      inside the field. */
  lemma {:induction false} ScannedStep(env: Env, opc: Word, f: Field, s: State, t: State)
    requires !AnalyzeInsn(opc).isEverything && !ReadsField(AnalyzeInsn(opc), f)
    requires Agree(Everything - FieldBits(f), s, t)
    ensures WritesField(AnalyzeInsn(opc), f) ==> Step(env, opc, s) == Step(env, opc, t)
    ensures Agree(Everything - FieldBits(f), Step(env, opc, s), Step(env, opc, t))
    ensures !AnalyzeInsn(opc).isBranch ==> Step(env, opc, s).pc == Next(s.pc)
    ensures s.pc == t.pc
  {
    hide AnalyzeInsn, Step, Before, ReadsField, WritesField, Agree, FieldBits;
    OutsideField(AnalyzeInsn(opc), f);
    SamePc(s, t, Everything - FieldBits(f));
    StepFrame(env, opc, s);
    StepOutsideField(env, opc, f, Everything - FieldBits(f), s, t);
    if WritesField(AnalyzeInsn(opc), f) {
      StepOutsideField(env, opc, f, Everything, s, t);
      AgreeOnEverything(Step(env, opc, s), Step(env, opc, t));
    }
  }

  lemma {:induction false} DeadFieldStepAt(env: Env, page: Page, base: Word, f: Field, s: State, t: State, o: nat)
    requires IsBase(base) && DeadAt(page, base, f, s, t, o)
    ensures DifferInDeadField(page, base, f, PageStep(env, page, base, s), PageStep(env, page, base, t))
  {
    hide AnalyzeInsn, Step, ReadsField, WritesField, PageStep, Agree, FieldBits;
    var opc := InsnAt(page, o);
    ScannedStep(env, opc, f, s, t);
    OnPageStep(env, page, base, s, o);
    OnPageStep(env, page, base, t, o);
    if !WritesField(AnalyzeInsn(opc), f) {
      assert ScanSaysDead(page, AnalyzeInsn, f, o + 4);
      assert DeadAt(page, base, f, PageStep(env, page, base, s), PageStep(env, page, base, t), o + 4);
    }
  }

  lemma {:induction false} DeadFieldStep(env: Env, page: Page, base: Word, f: Field, s: State, t: State)
    requires IsBase(base) && DifferInDeadField(page, base, f, s, t)
    ensures DifferInDeadField(page, base, f, PageStep(env, page, base, s), PageStep(env, page, base, t))
  {
    hide PageStep, DeadAt;
    if s != t {
      var o: nat :| DeadAt(page, base, f, s, t, o);
      DeadFieldStepAt(env, page, base, f, s, t, o);
    }
  }

  lemma {:induction false} DeadFieldRun(env: Env, page: Page, base: Word, f: Field, s: State, t: State, n: nat)
    requires IsBase(base) && DifferInDeadField(page, base, f, s, t)
    ensures DifferInDeadField(page, base, f, Run(env, page, base, s, n), Run(env, page, base, t, n))
  {
    hide PageStep, DifferInDeadField;
    if n > 0 {
      DeadFieldRun(env, page, base, f, s, t, n - 1);
      DeadFieldStep(env, page, base, f, Run(env, page, base, s, n - 1), Run(env, page, base, t, n - 1));
    }
  }

  /** When the scan says dead, the field can hold anything without any observable
      difference in any run from there. */
  lemma {:induction false} ScannedFieldIsUnobservable(
      env: Env, page: Page, base: Word, o: nat, f: Field, c: nat, s: State, n: nat)
    requires IsBase(base) && IsSlot(o) && s.pc == base + o && c < 16
    requires ScanSaysDead(page, AnalyzeInsn, f, o)
    ensures SameObservation(base, Run(env, page, base, s, n),
                            Run(env, page, base, s.(cr := PutField(s.cr, f, c)), n))
  {
    var t := s.(cr := PutField(s.cr, f, c));
    FieldFrame(f, c, s);
    hide ScanSaysDead, PutField, FieldBits, Run, AnalyzeInsn;
    assert Agree(Everything - FieldBits(f), s, t);
    assert DeadAt(page, base, f, s, t, o);
    DeadFieldRun(env, page, base, f, s, t, n);
    DifferenceObserved(page, base, f, Run(env, page, base, s, n), Run(env, page, base, t, n));
  }

  lemma {:induction false} DifferenceObserved(page: Page, base: Word, f: Field, s: State, t: State)
    requires IsBase(base) && DifferInDeadField(page, base, f, s, t)
    ensures SameObservation(base, s, t)
  {
    hide ScanSaysDead, AnalyzeInsn, Agree;
    if s != t {
      var o: nat :| DeadAt(page, base, f, s, t, o);
      SamePc(s, t, Everything - FieldBits(f));
    }
  }

  // ------------------------------------------------ where the states meet

  /** Up to the killing instruction at k, control runs straight on and only the field differs. */
  lemma {:induction false} StraightToKill(
      env: Env, page: Page, base: Word, f: Field, s: State, t: State, o: nat, k: nat, m: nat)
    requires IsBase(base) && s.pc == base + o && Agree(Everything - FieldBits(f), s, t)
    requires IsSlot(o) && KilledAt(page, AnalyzeInsn, f, o, k) && o + 4 * m <= k
    ensures Run(env, page, base, s, m).pc == base + (o + 4 * m)
    ensures Agree(Everything - FieldBits(f), Run(env, page, base, s, m), Run(env, page, base, t, m))
  {
    hide AnalyzeInsn, Step, ReadsField, WritesField, PageStep, Agree, FieldBits;
    if m > 0 {
      var j := o + 4 * (m - 1);
      StraightToKill(env, page, base, f, s, t, o, k, m - 1);
      var s1, t1 := Run(env, page, base, s, m - 1), Run(env, page, base, t, m - 1);
      ScannedStep(env, InsnAt(page, j), f, s1, t1);
      OnPageStep(env, page, base, s1, j);
      OnPageStep(env, page, base, t1, j);
    }
  }

  /** The killing instruction makes states equal that differed in the field alone. */
  lemma {:induction false} KillMakesEqual(
      env: Env, page: Page, base: Word, f: Field, s: State, t: State, o: nat, k: nat)
    requires IsBase(base) && s.pc == base + o && Agree(Everything - FieldBits(f), s, t)
    requires IsSlot(o) && KilledAt(page, AnalyzeInsn, f, o, k)
    ensures var n := (k - o) / 4 + 1; Run(env, page, base, s, n) == Run(env, page, base, t, n)
  {
    hide AnalyzeInsn, Step, ReadsField, WritesField, PageStep, Agree, FieldBits;
    var m := (k - o) / 4;
    StraightToKill(env, page, base, f, s, t, o, k, m);
    var s1, t1 := Run(env, page, base, s, m), Run(env, page, base, t, m);
    ScannedStep(env, InsnAt(page, k), f, s1, t1);
    OnPageStep(env, page, base, s1, k);
    OnPageStep(env, page, base, t1, k);
  }

  /** After a yes of the scan, states that differ in the field alone become equal while
      control still runs straight on, before the page ends. */
  lemma {:induction false} ScannedStatesMeet(
      env: Env, page: Page, base: Word, f: Field, s: State, t: State, o: nat)
    requires IsBase(base) && DeadAt(page, base, f, s, t, o)
    ensures exists n: nat ::
              && n <= (PAGE_SIZE - o) / 4 && Run(env, page, base, s, n) == Run(env, page, base, t, n)
              && forall m: nat | m < n :: Run(env, page, base, s, m).pc == base + (o + 4 * m)
  {
    hide AnalyzeInsn, Run, Agree, FieldBits, ScanSaysDead, KilledAt;
    ScanIsExact(page, AnalyzeInsn, f, o);
    var k: nat :| KilledAt(page, AnalyzeInsn, f, o, k);
    KillIsSlot(page, f, o, k);
    KillMakesEqual(env, page, base, f, s, t, o, k);
    var n: nat := (k - o) / 4 + 1;
    forall m: nat | m < n ensures Run(env, page, base, s, m).pc == base + (o + 4 * m) {
      StraightToKill(env, page, base, f, s, t, o, k, m);
    }
  }

  lemma {:induction false} KillIsSlot(page: Page, f: Field, o: nat, k: nat)
    requires KilledAt(page, AnalyzeInsn, f, o, k)
    ensures IsSlot(k) && o <= k
  {
  }

  // --------------------------------------------- against the backward pass

  /** The backward pass over any run from o that includes the killing instruction has no bit
      of the field live at its start. */
  lemma {:induction false} BackwardPassAgrees(page: Page, f: Field, o: nat, k: nat, e: nat)
    requires IsSlot(o) && KilledAt(page, AnalyzeInsn, f, o, k) && k + 4 <= e <= PAGE_SIZE
    ensures DeadWrites.LiveSetAt(DeadWrites.EffectsOf(page[o / 4..e / 4]), 0) !! FieldBits(f)
  {
    hide AnalyzeInsn, ReadsField, WritesField, Members, DeadWrites.LiveSetAt;
    var insns := DeadWrites.EffectsOf(page[o / 4..e / 4]);
    var j := (k - o) / 4;
    forall m | 0 <= m <= j
      ensures insns[m] == AnalyzeInsn(InsnAt(page, o + 4 * m)) && !insns[m].isEverything
      ensures Members(insns[m].read) !! FieldBits(f) {
      assert page[o / 4..e / 4][m] == page[o / 4 + m];
      FieldMasks(insns[m], f);
    }
    FieldMasks(insns[j], f);
    forall r | r in FieldBits(f) ensures r !in DeadWrites.LiveSetAt(insns, 0) {
      assert r in Members(insns[j].write);
      assert DeadWrites.OverwrittenFrom(insns, 0, r);
      DeadWrites.NotLiveExactly(insns, 0, r);
    }
  }

  // --------------------------------------------------- against the solver

  lemma {:induction false} ScanStopsInBlock(page: Page, an: Analyzer, f: Field, o: nat, out: set<nat>)
    requires IsSlot(o) && ScanSaysDead(page, an, f, o)
    ensures LiveAt(page, an, o, ScanEnd(page, an, o), out) !! FieldBits(f)
    decreases PAGE_SIZE - o
  {
    hide ReadsField, WritesField, Before;
    var fx := an(InsnAt(page, o));
    OutsideField(fx, f);
    if !WritesField(fx, f) {
      assert o + 4 < PAGE_SIZE && !EndsBlock(fx);
      ScanStopsInBlock(page, an, f, o + 4, out);
      var l := LiveAt(page, an, o + 4, ScanEnd(page, an, o), out);
      BeforeOutside(fx, f, l);
    }
  }

  lemma {:induction false} BeforeOutside(fx: InsnEffect, f: Field, l: set<nat>)
    requires !fx.isEverything && !ReadsField(fx, f) && l !! FieldBits(f)
    ensures Before(fx, l) !! FieldBits(f)
  {
    hide ReadsField, Members;
    FieldMasks(fx, f);
  }

  /** A yes of the fast scan at a block head is a yes of the solver there, exactly when
      no instruction of the block gives up: such a block has everything in live_in. */
  lemma {:induction false} ScanAgainstSolver(
      page: Page, bs: seq<PageBlock>, at: seq<int>, start: nat, i: nat, f: Field)
    requires Built(page, AnalyzeInsn, start, bs, at) && i < |bs|
    requires IsSlot(bs[i].startOfs) && bs[i].endOfs <= PAGE_SIZE
    requires ScanSaysDead(page, AnalyzeInsn, f, bs[i].startOfs)
    ensures IsCrFieldDead(bs[i].liveIn, f) <==> Modelled(page, AnalyzeInsn, bs[i].startOfs, bs[i].endOfs)
  {
    hide AnalyzeInsn, Members, LiveAt, IsCrFieldDead, ScanSaysDead, Modelled, Built, ScanEnd, FieldBits;
    LiveInIsTransfer(page, bs, at, start, i);
    ScanStopsInBlock(page, AnalyzeInsn, f, bs[i].startOfs, Members(bs[i].liveOut));
    DeadFieldMembers(bs[i].liveIn, f);
    FieldIsTracked(f);
  }

  // A page on which the answers differ: cmpw cr0,r0,r0, then an opcode without a template.

  const COMPARE: Word := 0x7c00_0000
  const DIFFERING: Page := [COMPARE] + seq(1023, _ => 0)

  lemma {:induction false} CompareEffect()
    ensures var fx := AnalyzeInsn(COMPARE);
      !fx.isEverything && !fx.isBranch && !ReadsField(fx, 0) && WritesField(fx, 0)
  {
    hide ReadsField, WritesField, AnalyzeInsn, Members;
    CompareTemplate();
    AnalyzeSets(COMPARE);
    FieldMasks(AnalyzeInsn(COMPARE), 0);
  }

  lemma {:induction false} CompareDecodes()
    ensures MainOpcode(COMPARE) == 31 && ExtOpcode(COMPARE) == 0 && FieldD(COMPARE) == 0
  {
  }

  lemma {:induction false} CompareOf(opc: Word)
    requires MainOpcode(opc) == 31 && ExtOpcode(opc) == 0
    ensures TemplateOf(opc) == [WriteCrFieldSigned(FieldD(opc) / 4, A(opc), B(opc))] && !IsBranch(opc)
  {
  }

  lemma {:induction false} CompareTemplate()
    ensures TemplateOf(COMPARE) != EVERYTHING && !IsBranch(COMPARE)
    ensures TemplateReads(TemplateOf(COMPARE)) !! FieldBits(0) && FieldBits(0) <= TemplateWrites(TemplateOf(COMPARE))
  {
    hide TemplateOf, MainOpcode, ExtOpcode, IsBranch;
    CompareDecodes();
    CompareOf(COMPARE);
    var call := WriteCrFieldSigned(0, A(COMPARE), B(COMPARE));
    OneCall(call, CallReads(call), CallWrites(call));
  }

  lemma {:induction false} NoTemplate(opc: Word)
    requires MainOpcode(opc) == 0
    ensures TemplateOf(opc) == EVERYTHING && !IsBranch(opc)
  {
  }

  lemma {:induction false} ZeroEffect()
    ensures AnalyzeInsn(0).isEverything
  {
    hide TemplateOf, AnalyzeInsn;
    NoTemplate(0);
    AnalyzeSets(0);
  }

  /** The scan says dead at offset 0 there, and the solver does not, in every finished graph. */
  lemma {:induction false} ScanAndSolverDiffer(bs: seq<PageBlock>, at: seq<int>, start: nat, i: nat)
    requires Built(DIFFERING, AnalyzeInsn, start, bs, at) && i < |bs| && bs[i].startOfs == 0
    ensures ScanSaysDead(DIFFERING, AnalyzeInsn, 0, 0) && !IsCrFieldDead(bs[i].liveIn, 0)
  {
    hide AnalyzeInsn, Built, Members, IsCrFieldDead, ReadsField, WritesField;
    CompareEffect();
    ZeroEffect();
    assert InsnAt(DIFFERING, 0) == COMPARE && InsnAt(DIFFERING, 4) == 0;
    assert ScanEnd(DIFFERING, AnalyzeInsn, 4) == 8 && ScanEnd(DIFFERING, AnalyzeInsn, 0) == 8;
    LiveInIsTransfer(DIFFERING, bs, at, start, i);
    ScanAgainstSolver(DIFFERING, bs, at, start, i, 0);
  }

  lemma {:induction false} FieldIsTracked(f: Field)
    ensures !(FieldBits(f) !! Everything)
  {
    assert 60 - 4 * f in FieldBits(f) && 60 - 4 * f in Everything;
  }
}
