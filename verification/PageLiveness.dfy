/** What the page analysis means for every run of the code on the page. */
module PageLiveness {
  import opened Words
  import opened LiveSets
  import opened Arithmetic
  import opened Templates
  import opened Effects
  import opened Machine
  import opened Soundness
  import opened Frame
  import DeadWrites
  import opened Dataflow
  import opened Page
  import opened PageCfg

  // ------------------------------------- the summary of a block is its transfer

  /** Backward composition of the instruction transfers from o to end. */
  ghost function LiveAt(page: Page, an: Analyzer, o: nat, end: nat, out: set<nat>): set<nat>
    requires o % 4 == 0 && end % 4 == 0 && end <= PAGE_SIZE
    decreases end - o
  {
    if o >= end then out else Before(an(InsnAt(page, o)), LiveAt(page, an, o + 4, end, out))
  }

  lemma {:induction false} ExposedMembers(gen: LiveSet, kill: LiveSet, read: LiveSet)
    ensures Members(AddExposed(gen, kill, read)) == Members(gen) + (Members(read) - Members(kill))
  {
    forall i: nat | i < RESOURCES
      ensures Has(AddExposed(gen, kill, read), i) == (Has(gen, i) || (Has(read, i) && !Has(kill, i))) {
      ExposedBit(gen, kill, read, i);
    }
  }

  lemma {:induction false} ExposedBit(gen: LiveSet, kill: LiveSet, read: LiveSet, i: nat)
    requires i < RESOURCES
    ensures Has(AddExposed(gen, kill, read), i) == (Has(gen, i) || (Has(read, i) && !Has(kill, i)))
  {
    hide Logic, XerLogic, BitAt;
    if i < 32 {
      LogicBit(Andc, read.gpr, kill.gpr, i);
      LogicBit(Or, gen.gpr, Logic(Andc, read.gpr, kill.gpr), i);
    } else if i < 64 {
      LogicBit(Andc, read.cr, kill.cr, i - 32);
      LogicBit(Or, gen.cr, Logic(Andc, read.cr, kill.cr), i - 32);
    } else if i < 67 {
      DeadWrites.XerLogicBit(Andc, read.xer, kill.xer, i - 64);
      DeadWrites.XerLogicBit(Or, gen.xer, XerLogic(Andc, read.xer, kill.xer), i - 64);
    }
  }

  /** No instruction from o to end gives up. */
  ghost predicate Modelled(page: Page, an: Analyzer, o: nat, end: nat)
    requires end <= PAGE_SIZE
  {
    forall k | o <= k < end && k % 4 == 0 :: !an(InsnAt(page, k)).isEverything
  }

  /** gen | (out & ~kill) */
  ghost function Through(summary: (LiveSet, LiveSet), out: set<nat>): set<nat> {
    Members(summary.0) + (out - Members(summary.1))
  }

  /** Invariant of the forward walk, for every live-out set. */
  lemma {:induction false} WalkIsTransfer(
      page: Page, an: Analyzer, o: nat, gen: LiveSet, kill: LiveSet, out: set<nat>)
    requires IsSlot(o) && Modelled(page, an, o, ScanEnd(page, an, o))
    ensures Through(ScanSummary(page, an, o, gen, kill), out)
         == Through((gen, kill), LiveAt(page, an, o, ScanEnd(page, an, o), out))
    decreases PAGE_SIZE - o
  {
    hide Members, AddExposed, LiveSet.Union;
    var fx := an(InsnAt(page, o));
    assert !fx.isEverything;
    var g, k := AddExposed(gen, kill, fx.read), kill.Union(fx.write);
    ExposedMembers(gen, kill, fx.read);
    UnionMembers(kill, fx.write);
    if EndsBlock(fx) || o + 4 == PAGE_SIZE {
      assert ScanSummary(page, an, o, gen, kill) == (g, k);
      assert LiveAt(page, an, o, o + 4, out) == Before(fx, out);
    } else {
      WalkIsTransfer(page, an, o + 4, g, k, out);
    }
  }

  lemma {:induction false} WalkOfEverything(page: Page, an: Analyzer, o: nat, gen: LiveSet, kill: LiveSet)
    requires IsSlot(o) && an(InsnAt(page, ScanEnd(page, an, o) - 4)).isEverything
    ensures ScanSummary(page, an, o, gen, kill) == (ALL_LIVE, ALL_LIVE)
    decreases PAGE_SIZE - o
  {
    hide Members, AddExposed, LiveSet.Union;
    var fx := an(InsnAt(page, o));
    if ScanEnd(page, an, o) == o + 4 {
      assert fx.isEverything;
    } else {
      assert !EndsBlock(fx) && ScanEnd(page, an, o) == ScanEnd(page, an, o + 4);
      WalkOfEverything(page, an, o + 4, AddExposed(gen, kill, fx.read), kill.Union(fx.write));
    }
  }

  lemma {:induction false} OnlyTheLastGivesUp(page: Page, an: Analyzer, o: nat)
    requires IsSlot(o)
    ensures Modelled(page, an, o, ScanEnd(page, an, o)) <==> !an(InsnAt(page, ScanEnd(page, an, o) - 4)).isEverything
  {
    var end := ScanEnd(page, an, o);
    ScanEndIsFirst(page, an, o);
    if !an(InsnAt(page, end - 4)).isEverything {
      forall k | o <= k < end && k % 4 == 0 ensures !an(InsnAt(page, k)).isEverything {
        if k < end - 4 {
          assert !EndsBlock(an(InsnAt(page, k)));
        } else {
          assert k == end - 4;
        }
      }
    }
  }

  lemma {:induction false} LiveAtBound(page: Page, an: Analyzer, o: nat, end: nat, out: set<nat>)
    requires o % 4 == 0 && end % 4 == 0 && end <= PAGE_SIZE && out <= Everything
    ensures LiveAt(page, an, o, end, out) <= Everything
    decreases end - o
  {
    if o < end {
      LiveAtBound(page, an, o + 4, end, out);
    }
  }

  /** gen | (out & ~kill) of a scanned block against its instruction transfers: equal
      when every instruction is modelled, everything when the last one is not. */
  lemma {:induction false} SummaryIsTransfer(page: Page, an: Analyzer, b: PageBlock, out: set<nat>)
    requires Scanned(page, an, b) && out <= Everything
    ensures LiveAt(page, an, b.startOfs, b.endOfs, out) <= Through((b.gen, b.kill), out)
    ensures Modelled(page, an, b.startOfs, b.endOfs) ==>
              Through((b.gen, b.kill), out) == LiveAt(page, an, b.startOfs, b.endOfs, out)
    ensures !Modelled(page, an, b.startOfs, b.endOfs) ==> Through((b.gen, b.kill), out) == Everything
  {
    hide Members, ScanSummary, LiveAt, ScanEnd;
    OnlyTheLastGivesUp(page, an, b.startOfs);
    ConstantMembers();
    if Modelled(page, an, b.startOfs, b.endOfs) {
      WalkIsTransfer(page, an, b.startOfs, NONE, NONE, out);
    } else {
      WalkOfEverything(page, an, b.startOfs, NONE, NONE);
      LiveAtBound(page, an, b.startOfs, b.endOfs, out);
    }
  }

  // ------------------------------------------------------ the machine on a page

  /** A page-aligned address with room for the page. */
  predicate IsBase(base: Word) {
    base % PAGE_SIZE == 0
  }

  predicate OnPage(base: Word, pc: Word) {
    base <= pc < base + PAGE_SIZE && (pc - base) % 4 == 0
  }

  /** The page's bytes do not change while it runs, and nothing faults. */
  function PageStep(env: Env, page: Page, base: Word, s: State): State {
    if OnPage(base, s.pc) then Step(env, InsnAt(page, s.pc - base), s) else env.outside(s)
  }

  function Run(env: Env, page: Page, base: Word, s: State, n: nat): State {
    if n == 0 then s else PageStep(env, page, base, Run(env, page, base, s, n - 1))
  }

  /** Decoding treats an absolute target below 4096 as an offset into the page. */
  predicate MisreadsTarget(opc: Word, base: Word) {
    && (MainOpcode(opc) == 18 || MainOpcode(opc) == 16) && AbsoluteBit(opc) && base != 0
    && 0 <= Signed(if MainOpcode(opc) == 18 then BranchLI(opc) else BranchBD(opc)) < PAGE_SIZE
  }

  /** Where the interpreter goes when bx or bcx is taken. */
  function TakenTarget(opc: Word, pc: Word): Word
    requires MainOpcode(opc) == 18 || MainOpcode(opc) == 16
  {
    var d := if MainOpcode(opc) == 18 then BranchLI(opc) else BranchBD(opc);
    if AbsoluteBit(opc) then d else Add(pc, d)
  }

  /** A decoded on-page target is where a taken branch really goes, exactly when the
      target is not an absolute address mistaken for a page offset. */
  lemma {:induction false} DecodedTargetIsTaken(opc: Word, ofs: nat, base: Word)
    requires MainOpcode(opc) == 18 || MainOpcode(opc) == 16
    requires IsBase(base) && IsSlot(ofs) && DecodeBranchTarget(opc, ofs) >= 0
    ensures TakenTarget(opc, base + ofs) == base + DecodeBranchTarget(opc, ofs) <==> !MisreadsTarget(opc, base)
  {
    hide BranchLI, BranchBD, AbsoluteBit, MainOpcode;
    var d := if MainOpcode(opc) == 18 then BranchLI(opc) else BranchBD(opc);
    if AbsoluteBit(opc) {
      assert DecodeBranchTarget(opc, ofs) == Signed(d) == d;
    } else {
      var t := DecodeBranchTarget(opc, ofs);
      assert t == Signed(Add(ofs, d)) && t == Add(ofs, d);
      assert Add(base + ofs, d) == base + t by {
        AddOnPage(base, ofs, d, t);
      }
    }
  }

  /** The decoder is right about every target, on the page or not, exactly when the branch
      is relative, or the page is at 0, or the absolute target is neither on the page nor
      below 4096. */
  lemma {:induction false} DecodingIsExact(opc: Word, ofs: nat, base: Word)
    requires MainOpcode(opc) == 18 || MainOpcode(opc) == 16
    requires IsBase(base) && IsSlot(ofs)
    ensures var target := TakenTarget(opc, base + ofs);
      DecodeBranchTarget(opc, ofs) == (if base <= target < base + PAGE_SIZE then target - base else -1)
      <==> !(AbsoluteBit(opc) && base != 0 && (target < PAGE_SIZE || base <= target < base + PAGE_SIZE))
  {
    hide BranchLI, BranchBD, AbsoluteBit, MainOpcode;
    var d := if MainOpcode(opc) == 18 then BranchLI(opc) else BranchBD(opc);
    if !AbsoluteBit(opc) {
      RelativeTarget(ofs, d, base);
    }
  }

  lemma {:induction false} RelativeTarget(ofs: nat, d: Word, base: Word)
    requires IsBase(base) && ofs < PAGE_SIZE
    ensures base + ofs < TWO32
    ensures 0 <= Signed(Add(ofs, d)) < PAGE_SIZE <==> base <= Add(base + ofs, d) < base + PAGE_SIZE
    ensures 0 <= Signed(Add(ofs, d)) < PAGE_SIZE ==> Add(base + ofs, d) == base + Signed(Add(ofs, d))
  {
    var t := Add(ofs, d);
    assert t < PAGE_SIZE ==> Add(base + ofs, d) == base + t by {
      if t < PAGE_SIZE {
        AddOnPage(base, ofs, d, t);
      }
    }
  }

  /** ba 0x100 on any other page than the first: decoded as offset 0x100 of the page. */
  lemma {:induction false} SomeTargetIsMisread(base: Word)
    requires IsBase(base) && base != 0
    ensures MisreadsTarget(0x4800_0102, base)
    ensures DecodeBranchTarget(0x4800_0102, 0) == TakenTarget(0x4800_0102, base) == 0x100
  {
  }

  lemma {:induction false} AddOnPage(base: Word, ofs: nat, d: Word, t: nat)
    requires IsBase(base) && ofs < PAGE_SIZE && t < PAGE_SIZE && t == Add(ofs, d)
    ensures base + ofs < TWO32 && Add(base + ofs, d) == base + t
  {
  }

  /** A block whose target the decoder misreads has everything in live_out anyway. */
  predicate TargetsSafe(page: Page, bs: seq<PageBlock>, base: Word) {
    forall i | 0 <= i < |bs| && 4 <= bs[i].endOfs <= PAGE_SIZE ::
      bs[i].liveOut == ALL_LIVE || !MisreadsTarget(InsnAt(page, bs[i].endOfs - 4), base)
  }

  /** LR is live at the fall-through at end, or what comes there is unknown. */
  predicate LrWanted(bs: seq<PageBlock>, at: seq<int>, end: nat)
    requires |at| == SLOTS
  {
    var k := EdgeTo(at, end);
    !(0 <= k < |bs|) || bs[k].liveIn.lr
  }

  /** The fall-through of block i wants LR, and the branch before it may have kept it. */
  predicate KeepsWantedLr(page: Page, bs: seq<PageBlock>, at: seq<int>, i: nat)
    requires i < |bs|
  {
    && 4 <= bs[i].endOfs <= PAGE_SIZE && |at| == SLOTS
    && MayKeepLr(InsnAt(page, bs[i].endOfs - 4)) && LrWanted(bs, at, bs[i].endOfs)
  }

  /** Either LR is compared throughout, or no block that may keep LR falls through to where
      it is wanted. */
  predicate LinksSafe(page: Page, bs: seq<PageBlock>, at: seq<int>, pin: set<nat>) {
    LR in pin || forall i | 0 <= i < |bs| :: !KeepsWantedLr(page, bs, at, i)
  }

  // ------------------------------------------------------------ edge soundness

  /** Every way out of a branch is the decoded target, the next instruction, or a place
      the decoder reports as unknown. */
  lemma {:induction false} BranchOutcomes(opc: Word, ofs: nat, base: Word, s: State)
    requires IsBranch(opc) && IsBase(base) && IsSlot(ofs) && s.pc == base + ofs
    requires !MisreadsTarget(opc, base)
    ensures var pc := StepBranch(opc, s).pc;
            || (DecodeBranchTarget(opc, ofs) >= 0 && pc == base + DecodeBranchTarget(opc, ofs))
            || DecodeBranchTarget(opc, ofs) < 0
            || (!IsUnconditionalBranch(opc) && pc == Next(s.pc))
  {
    hide BranchLI, BranchBD, AbsoluteBit, Add, Aligned, Decremented, MisreadsTarget;
    if DecodeBranchTarget(opc, ofs) >= 0 {
      assert MainOpcode(opc) == 18 || MainOpcode(opc) == 16;
      DecodedTargetIsTaken(opc, ofs, base);
    }
  }

  lemma {:induction false} KnownContains(succs: seq<int>, k: nat)
    requires k < |succs| && succs[k] >= 0
    ensures succs[k] as nat in Known(succs)
  {
    if k > 0 {
      KnownContains(succs[1..], k - 1);
    }
  }

  /** A block with an unknown way out, or none, keeps everything alive. */
  lemma {:induction false} UnknownKeepsEverything(bs: seq<PageBlock>, i: nat)
    requires SolvedFrom(bs, 0) && i < |bs|
    requires bs[i].numSucc == 0 || SUCC_OFF_PAGE in bs[i].Succs()
    ensures Members(bs[i].liveOut) == Everything
  {
    assert BlockSolved(GraphOf(bs), LiveIns(bs), bs[i], i);
  }

  /** A known successor's live_in is part of the block's live_out. */
  lemma {:induction false} SuccessorIsCovered(bs: seq<PageBlock>, i: nat, k: nat)
    requires SolvedFrom(bs, 0) && SuccsInRange(bs) && i < |bs|
    requires k < |bs[i].Succs()| && bs[i].Succs()[k] >= 0
    ensures bs[i].Succs()[k] < |bs|
    ensures Members(bs[bs[i].Succs()[k]].liveIn) <= Members(bs[i].liveOut)
  {
    var g, live, e := GraphOf(bs), LiveIns(bs), bs[i].Succs()[k];
    assert EdgesInRange(bs[i].Succs(), |bs|);
    assert BlockSolved(g, live, bs[i], i);
    KnownContains(bs[i].Succs(), k);
    hide Members;
    if !g[i].exit {
      forall r | r in live[e] ensures r in UnionOver(live, g[i].succ) {
        UnionMembership(live, g[i].succ, r);
      }
    } else {
      MembersBounded(bs[e].liveIn);
    }
  }

  lemma {:induction false} MembersBounded(l: LiveSet)
    ensures Members(l) <= Everything
  {
  }

  // -------------------------------------------------------- states in step

  /** Both states are at offset o inside the modelled block i and agree on what is live there. */
  ghost predicate Within(
      page: Page, bs: seq<PageBlock>, base: Word, pin: set<nat>, s: State, t: State, i: nat, o: nat) {
    && i < |bs| && bs[i].endOfs <= PAGE_SIZE && bs[i].endOfs % 4 == 0
    && bs[i].startOfs <= o < bs[i].endOfs && o % 4 == 0
    && Modelled(page, AnalyzeInsn, bs[i].startOfs, bs[i].endOfs)
    && s.pc == base + o
    && Agree(LiveAt(page, AnalyzeInsn, o, bs[i].endOfs, Members(bs[i].liveOut)) + pin, s, t)
  }

  ghost predicate InStep(page: Page, bs: seq<PageBlock>, base: Word, pin: set<nat>, s: State, t: State) {
    s == t || exists i: nat, o: nat :: Within(page, bs, base, pin, s, t, i, o)
  }

  /** Standing hypotheses of the page theorems. */
  ghost predicate Setting(page: Page, bs: seq<PageBlock>, at: seq<int>, start: nat, base: Word, pin: set<nat>) {
    && Built(page, AnalyzeInsn, start, bs, at)
    && IsBase(base) && TargetsSafe(page, bs, base)
    && pin <= {LR} && LinksSafe(page, bs, at, pin)
  }

  /** live_in of a block of the finished graph: the instruction transfers applied to its
      live_out, or everything when some instruction of the block is not modelled. */
  lemma {:induction false} LiveInIsTransfer(
      page: Page, bs: seq<PageBlock>, at: seq<int>, start: nat, i: nat)
    requires Built(page, AnalyzeInsn, start, bs, at) && i < |bs|
    ensures IsSlot(bs[i].startOfs) && bs[i].endOfs == ScanEnd(page, AnalyzeInsn, bs[i].startOfs)
    ensures var l := LiveAt(page, AnalyzeInsn, bs[i].startOfs, bs[i].endOfs, Members(bs[i].liveOut));
            && l <= Members(bs[i].liveIn)
            && (Modelled(page, AnalyzeInsn, bs[i].startOfs, bs[i].endOfs) ==> Members(bs[i].liveIn) == l)
            && (!Modelled(page, AnalyzeInsn, bs[i].startOfs, bs[i].endOfs) ==> Members(bs[i].liveIn) == Everything)
  {
    var b := bs[i];
    assert Scanned(page, AnalyzeInsn, b);
    assert BlockSolved(GraphOf(bs), LiveIns(bs), b, i);
    hide Members, ScanSummary, ScanEnd, LiveAt, Built, Modelled, AnalyzeInsn;
    MembersBounded(b.liveOut);
    TransferMembers(b.gen, b.liveOut, b.kill);
    SummaryIsTransfer(page, AnalyzeInsn, b, Members(b.liveOut));
  }

  /** Arriving at a block head with agreement on its live_in. */
  lemma {:induction false} EnterBlock(
      page: Page, bs: seq<PageBlock>, at: seq<int>, start: nat, base: Word, pin: set<nat>, s: State, t: State, i: nat)
    requires Setting(page, bs, at, start, base, pin) && i < |bs|
    requires s.pc == base + bs[i].startOfs && Agree(Members(bs[i].liveIn) + pin, s, t)
    ensures InStep(page, bs, base, pin, s, t)
  {
    hide Members, ScanSummary, ScanEnd, LiveAt, Built, Agree, Modelled, AnalyzeInsn, TargetsSafe, LinksSafe;
    LiveInIsTransfer(page, bs, at, start, i);
    if Modelled(page, AnalyzeInsn, bs[i].startOfs, bs[i].endOfs) {
      assert Within(page, bs, base, pin, s, t, i, bs[i].startOfs);
    } else {
      AgreeSubset(Everything, Members(bs[i].liveIn) + pin, s, t);
      AgreeOnEverything(s, t);
    }
  }

  lemma {:induction false} FollowEdge(
      page: Page, bs: seq<PageBlock>, at: seq<int>, start: nat, base: Word, pin: set<nat>, s: State, t: State,
      i: nat, k: nat)
    requires Setting(page, bs, at, start, base, pin) && i < |bs|
    requires k < |bs[i].Succs()| && 0 <= bs[i].Succs()[k] < |bs|
    requires s.pc == base + bs[bs[i].Succs()[k]].startOfs && Agree(Members(bs[i].liveOut) + pin, s, t)
    ensures InStep(page, bs, base, pin, s, t)
  {
    var e := bs[i].Succs()[k];
    SuccessorIsCovered(bs, i, k);
    AgreeSubset(Members(bs[e].liveIn) + pin, Members(bs[i].liveOut) + pin, s, t);
    EnterBlock(page, bs, at, start, base, pin, s, t, e);
  }

  /** Soundness of one instruction with the pinned resources carried along. */
  lemma {:induction false} PinnedStep(env: Env, opc: Word, l: set<nat>, pin: set<nat>, s: State, t: State)
    requires l <= Everything && pin <= {LR} && (LR in pin || !MayKeepLr(opc))
    requires Agree(Before(AnalyzeInsn(opc), l) + pin, s, t)
    ensures Agree(l + pin, Step(env, opc, s), Step(env, opc, t))
  {
    var fx := AnalyzeInsn(opc);
    if LR in pin {
      assert SameResource(LR, s, t);
    }
    hide Members;
    MembersBounded(fx.read);
    assert LR in Everything;
    AgreeSubset(Before(fx, l + pin), Before(fx, l) + pin, s, t);
    StepKeepsAgreement(env, opc, l + pin, s, t);
  }

  /** Instructions before the last one of a block neither branch nor give up. */
  lemma {:induction false} InsideIsPlain(
      page: Page, bs: seq<PageBlock>, at: seq<int>, start: nat, base: Word, pin: set<nat>, i: nat, o: nat)
    requires Setting(page, bs, at, start, base, pin) && i < |bs|
    requires bs[i].startOfs <= o && o + 4 < bs[i].endOfs && o % 4 == 0
    ensures bs[i].endOfs <= PAGE_SIZE && !EndsBlock(AnalyzeInsn(InsnAt(page, o)))
    ensures !MayKeepLr(InsnAt(page, o))
  {
    assert Scanned(page, AnalyzeInsn, bs[i]);
    hide AnalyzeInsn, ScanSummary;
    ScanEndIsFirst(page, AnalyzeInsn, bs[i].startOfs);
    OnlyBranchesKeepLr(InsnAt(page, o));
  }

  lemma {:induction false} OnlyBranchesKeepLr(opc: Word)
    ensures MayKeepLr(opc) ==> EndsBlock(AnalyzeInsn(opc))
  {
    AnalyzeSets(opc);
  }

  /** One instruction that does not end its block moves both states to the next offset. */
  lemma {:induction false} PlainStep(env: Env, opc: Word, l: set<nat>, pin: set<nat>, s: State, t: State)
    requires l <= Everything && pin <= {LR} && (LR in pin || !MayKeepLr(opc))
    requires !EndsBlock(AnalyzeInsn(opc))
    requires Agree(Before(AnalyzeInsn(opc), l) + pin, s, t)
    ensures Agree(l + pin, Step(env, opc, s), Step(env, opc, t))
    ensures Step(env, opc, s).pc == Next(s.pc)
  {
    PinnedStep(env, opc, l, pin, s, t);
    StepFrame(env, opc, s);
  }

  lemma {:induction false} OnPageStep(env: Env, page: Page, base: Word, s: State, o: nat)
    requires IsBase(base) && IsSlot(o) && s.pc == base + o
    ensures PageStep(env, page, base, s) == Step(env, InsnAt(page, o), s)
    ensures o + 4 < PAGE_SIZE ==> Next(s.pc) == base + (o + 4)
  {
    hide Step;
  }

  lemma {:induction false} InsideStep(
      env: Env, page: Page, bs: seq<PageBlock>, at: seq<int>, start: nat, base: Word, pin: set<nat>,
      s: State, t: State, i: nat, o: nat)
    requires Setting(page, bs, at, start, base, pin)
    requires Within(page, bs, base, pin, s, t, i, o) && o + 4 < bs[i].endOfs
    ensures InStep(page, bs, base, pin, PageStep(env, page, base, s), PageStep(env, page, base, t))
  {
    hide PageStep, AnalyzeInsn, Members, Agree, Step, Built, TargetsSafe, LinksSafe, MayKeepLr;
    InsideIsPlain(page, bs, at, start, base, pin, i, o);
    MembersBounded(bs[i].liveOut);
    var l := LiveAt(page, AnalyzeInsn, o + 4, bs[i].endOfs, Members(bs[i].liveOut));
    LiveAtBound(page, AnalyzeInsn, o + 4, bs[i].endOfs, Members(bs[i].liveOut));
    SamePc(s, t, LiveAt(page, AnalyzeInsn, o, bs[i].endOfs, Members(bs[i].liveOut)) + pin);
    OnPageStep(env, page, base, s, o);
    OnPageStep(env, page, base, t, o);
    PlainStep(env, InsnAt(page, o), l, pin, s, t);
    assert Within(page, bs, base, pin, PageStep(env, page, base, s), PageStep(env, page, base, t), i, o + 4);
  }

  lemma {:induction false} SamePc(s: State, t: State, a: set<nat>)
    requires Agree(a, s, t)
    ensures s.pc == t.pc && s.rest == t.rest
  {
  }

  /** The two entries of a branch with the given target and fall-through. */
  ghost predicate BranchEntries(succs: seq<int>, at: seq<int>, target: int, uncond: bool, end: nat)
    requires |at| == SLOTS
  {
    && |succs| == (if uncond then 1 else 2)
    && succs[0] == (if target >= 0 then EdgeTo(at, target) else SUCC_OFF_PAGE)
    && (!uncond ==> succs[1] == EdgeTo(at, end))
  }

  /** Where a branch may have gone. */
  ghost predicate BranchOutcome(pc: Word, base: Word, target: int, uncond: bool, end: nat) {
    target < 0 || pc == base + target || (!uncond && (end < PAGE_SIZE ==> pc == base + end))
  }

  /** The successor entries of a block that ends in a branch. */
  lemma {:induction false} BranchEdges(page: Page, bs: seq<PageBlock>, at: seq<int>, start: nat, i: nat)
    requires Built(page, AnalyzeInsn, start, bs, at) && i < |bs|
    ensures 4 <= bs[i].endOfs <= PAGE_SIZE && bs[i].endOfs % 4 == 0 && Indexed(bs, at)
    ensures var opc := InsnAt(page, bs[i].endOfs - 4);
            IsBranch(opc) ==>
              BranchEntries(bs[i].Succs(), at, DecodeBranchTarget(opc, bs[i].endOfs - 4),
                            IsUnconditionalBranch(opc), bs[i].endOfs)
  {
    assert Scanned(page, AnalyzeInsn, bs[i]);
    assert bs[i].Succs() == EdgesOf(page, AnalyzeInsn, bs[i].endOfs, at);
    var opc := InsnAt(page, bs[i].endOfs - 4);
    AnalyzeSets(opc);
    hide AnalyzeInsn, ScanEnd, ScanSummary, Members, IsBranch, IsUnconditionalBranch, DecodeBranchTarget;
  }

  /** Leaving a block through a branch: the next place is a listed successor, or the
      block has an unknown successor and the states have become equal. */
  lemma {:induction false} BranchOut(
      page: Page, bs: seq<PageBlock>, at: seq<int>, start: nat, base: Word, pin: set<nat>,
      s: State, t: State, i: nat, target: int, uncond: bool)
    requires Setting(page, bs, at, start, base, pin) && i < |bs|
    requires bs[i].endOfs % 4 == 0 && |at| == SLOTS && (target >= 0 ==> IsSlot(target))
    requires BranchEntries(bs[i].Succs(), at, target, uncond, bs[i].endOfs)
    requires BranchOutcome(s.pc, base, target, uncond, bs[i].endOfs)
    requires Agree(Members(bs[i].liveOut) + pin, s, t)
    ensures InStep(page, bs, base, pin, s, t)
  {
    hide Members, Agree, Built, TargetsSafe, LinksSafe, SolvedFrom, Indexed, BranchEntries, BranchOutcome, InStep;
    BuiltIsSolved(page, bs, at, start);
    OutcomeIsListed(bs, at, i, s.pc, base, target, uncond);
    if Members(bs[i].liveOut) == Everything {
      AgreeSubset(Everything, Members(bs[i].liveOut) + pin, s, t);
      AgreeOnEverything(s, t);
      EqualInStep(page, bs, base, pin, s, t);
    } else {
      var k :| 0 <= k < |bs[i].Succs()| && 0 <= bs[i].Succs()[k] < |bs| && s.pc == base + bs[bs[i].Succs()[k]].startOfs;
      FollowEdge(page, bs, at, start, base, pin, s, t, i, k);
    }
  }

  lemma {:induction false} EqualInStep(
      page: Page, bs: seq<PageBlock>, base: Word, pin: set<nat>, s: State, t: State)
    requires s == t
    ensures InStep(page, bs, base, pin, s, t)
  {
  }

  lemma {:induction false} BuiltIsSolved(page: Page, bs: seq<PageBlock>, at: seq<int>, start: nat)
    requires Built(page, AnalyzeInsn, start, bs, at)
    ensures SolvedFrom(bs, 0) && SuccsInRange(bs) && Indexed(bs, at)
  {
  }

  /** A resolved edge names the block that starts at the offset. */
  lemma {:induction false} EdgeLeads(bs: seq<PageBlock>, at: seq<int>, o: nat)
    requires Indexed(bs, at) && o % 4 == 0 && EdgeTo(at, o) != SUCC_OFF_PAGE
    ensures 0 <= EdgeTo(at, o) < |bs| && bs[EdgeTo(at, o)].startOfs == o && o < PAGE_SIZE
  {
    assert at[o / 4] == -1 || bs[at[o / 4]].startOfs == 4 * (o / 4);
  }

  lemma {:induction false} EdgesOfLast(page: Page, bs: seq<PageBlock>, at: seq<int>, start: nat, i: nat)
    requires Built(page, AnalyzeInsn, start, bs, at) && i < |bs|
    ensures 4 <= bs[i].endOfs <= PAGE_SIZE && bs[i].endOfs % 4 == 0 && |at| == SLOTS && SolvedFrom(bs, 0)
    ensures EdgesOf(page, AnalyzeInsn, bs[i].endOfs, at) == bs[i].Succs()
  {
    assert Scanned(page, AnalyzeInsn, bs[i]);
    hide AnalyzeInsn, ScanSummary, Members;
  }

  /** What Setting says about the last instruction of block i. */
  lemma {:induction false} LastOfBlock(
      page: Page, bs: seq<PageBlock>, at: seq<int>, start: nat, base: Word, pin: set<nat>, i: nat)
    requires Setting(page, bs, at, start, base, pin) && i < |bs|
    ensures 4 <= bs[i].endOfs <= PAGE_SIZE && bs[i].endOfs % 4 == 0 && |at| == SLOTS
    ensures IsBase(base) && pin <= {LR} && SolvedFrom(bs, 0)
    ensures bs[i].liveOut == ALL_LIVE || !MisreadsTarget(InsnAt(page, bs[i].endOfs - 4), base)
    ensures LR in pin || !KeepsWantedLr(page, bs, at, i)
    ensures EdgesOf(page, AnalyzeInsn, bs[i].endOfs, at) == bs[i].Succs()
  {
    hide Built, MayKeepLr, MisreadsTarget, LrWanted, KeepsWantedLr;
    EdgesOfLast(page, bs, at, start, i);
  }

  /** The last instruction of a block does not branch and does not give up: page end. */
  lemma {:induction false} PageEndKeepsEverything(page: Page, bs: seq<PageBlock>, at: seq<int>, i: nat)
    requires i < |bs| && SolvedFrom(bs, 0) && 4 <= bs[i].endOfs <= PAGE_SIZE && |at| == SLOTS
    requires EdgesOf(page, AnalyzeInsn, bs[i].endOfs, at) == bs[i].Succs()
    requires !EndsBlock(AnalyzeInsn(InsnAt(page, bs[i].endOfs - 4)))
    ensures Members(bs[i].liveOut) == Everything
  {
    hide AnalyzeInsn, Members;
    UnknownKeepsEverything(bs, i);
  }

  lemma {:induction false} BranchMove(
      env: Env, page: Page, bs: seq<PageBlock>, at: seq<int>, start: nat, base: Word, pin: set<nat>,
      s: State, t: State, i: nat, opc: Word)
    requires Setting(page, bs, at, start, base, pin) && i < |bs|
    requires 4 <= bs[i].endOfs <= PAGE_SIZE && opc == InsnAt(page, bs[i].endOfs - 4)
    requires IsBranch(opc) && s.pc == base + (bs[i].endOfs - 4) && !MisreadsTarget(opc, base)
    requires Agree(Members(bs[i].liveOut) + pin, Step(env, opc, s), t)
    ensures InStep(page, bs, base, pin, Step(env, opc, s), t)
  {
    hide AnalyzeInsn, Members, Agree, Built, TargetsSafe, LinksSafe, InStep, BranchEntries,
         MisreadsTarget, DecodeBranchTarget, IsUnconditionalBranch, StepBranch, TemplateOf, Step, IsBranch,
         SolvedFrom, EdgesOf, BranchOutcome;
    LastOfBlock(page, bs, at, start, base, pin, i);
    BranchEdges(page, bs, at, start, i);
    var o := bs[i].endOfs - 4;
    BranchStepOutcome(env, opc, o, base, s);
    TargetAligned(opc, o);
    BranchOut(page, bs, at, start, base, pin, Step(env, opc, s), t, i,
              DecodeBranchTarget(opc, o), IsUnconditionalBranch(opc));
  }

  lemma {:induction false} BranchStepOutcome(env: Env, opc: Word, o: nat, base: Word, s: State)
    requires IsBranch(opc) && IsBase(base) && IsSlot(o) && s.pc == base + o && !MisreadsTarget(opc, base)
    ensures BranchOutcome(Step(env, opc, s).pc, base, DecodeBranchTarget(opc, o), IsUnconditionalBranch(opc), o + 4)
  {
    hide MisreadsTarget, DecodeBranchTarget, IsUnconditionalBranch, StepBranch, IsBranch;
    TemplateKinds(opc);
    BranchOutcomes(opc, o, base, s);
  }

  /** Edge soundness: wherever control really goes after the last instruction of a block,
      that is the head of a listed successor, or live_out is everything.  Of an unmodelled
      instruction only the fall-through has an edge. */
  lemma {:induction false} EdgeSoundness(
      env: Env, page: Page, bs: seq<PageBlock>, at: seq<int>, start: nat, base: Word, i: nat, s: State)
    requires Built(page, AnalyzeInsn, start, bs, at) && IsBase(base)
    requires i < |bs| && 4 <= bs[i].endOfs <= PAGE_SIZE && s.pc == base + (bs[i].endOfs - 4)
    requires bs[i].liveOut == ALL_LIVE || !MisreadsTarget(InsnAt(page, bs[i].endOfs - 4), base)
    requires AnalyzeInsn(InsnAt(page, bs[i].endOfs - 4)).isEverything ==> PageStep(env, page, base, s).pc == Next(s.pc)
    ensures || Members(bs[i].liveOut) == Everything
            || exists k | 0 <= k < |bs[i].Succs()| ::
                 0 <= bs[i].Succs()[k] < |bs|
                 && PageStep(env, page, base, s).pc == base + bs[bs[i].Succs()[k]].startOfs
  {
    hide PageStep, AnalyzeInsn, Members, Step, Built, MayKeepLr, IsBranch, MisreadsTarget, SolvedFrom,
         EdgesOf, BranchEntries, BranchOutcome, DecodeBranchTarget, IsUnconditionalBranch, Indexed;
    EdgesOfLast(page, bs, at, start, i);
    var o := bs[i].endOfs - 4;
    var opc := InsnAt(page, o);
    OnPageStep(env, page, base, s, o);
    BuiltIsSolved(page, bs, at, start);
    if bs[i].liveOut == ALL_LIVE {
      ConstantMembers();
    } else if AnalyzeInsn(opc).isBranch {
      BranchOpcode(opc);
      BranchEdges(page, bs, at, start, i);
      BranchStepOutcome(env, opc, o, base, s);
      TargetAligned(opc, o);
      OutcomeIsListed(bs, at, i, Step(env, opc, s).pc, base, DecodeBranchTarget(opc, o), IsUnconditionalBranch(opc));
    } else if AnalyzeInsn(opc).isEverything {
      FallThroughIsListed(page, bs, at, i);
      OnPageStep(env, page, base, s, o);
    } else {
      PageEndKeepsEverything(page, bs, at, i);
    }
  }

  /** After an unmodelled instruction comes the block that starts there, or anything. */
  lemma {:induction false} FallThroughIsListed(page: Page, bs: seq<PageBlock>, at: seq<int>, i: nat)
    requires SolvedFrom(bs, 0) && Indexed(bs, at) && |at| == SLOTS && i < |bs|
    requires 4 <= bs[i].endOfs <= PAGE_SIZE && bs[i].endOfs % 4 == 0
    requires EdgesOf(page, AnalyzeInsn, bs[i].endOfs, at) == bs[i].Succs()
    requires var fx := AnalyzeInsn(InsnAt(page, bs[i].endOfs - 4)); fx.isEverything && !fx.isBranch
    ensures || Members(bs[i].liveOut) == Everything
            || (|bs[i].Succs()| == 1 && 0 <= bs[i].Succs()[0] < |bs| && bs[i].endOfs < PAGE_SIZE
                && bs[bs[i].Succs()[0]].startOfs == bs[i].endOfs)
  {
    hide Members, SolvedFrom, Indexed, AnalyzeInsn;
    assert bs[i].Succs() == [EdgeTo(at, bs[i].endOfs)];
    if EdgeTo(at, bs[i].endOfs) == SUCC_OFF_PAGE {
      UnknownKeepsEverything(bs, i);
    } else {
      EdgeLeads(bs, at, bs[i].endOfs);
    }
  }

  /** A branch outcome is the start of a listed successor when all entries are known. */
  lemma {:induction false} OutcomeIsListed(
      bs: seq<PageBlock>, at: seq<int>, i: nat, pc: Word, base: Word, target: int, uncond: bool)
    requires SolvedFrom(bs, 0) && Indexed(bs, at) && i < |bs|
    requires bs[i].endOfs % 4 == 0 && (target >= 0 ==> IsSlot(target))
    requires BranchEntries(bs[i].Succs(), at, target, uncond, bs[i].endOfs)
    requires BranchOutcome(pc, base, target, uncond, bs[i].endOfs)
    ensures || Members(bs[i].liveOut) == Everything
            || exists k | 0 <= k < |bs[i].Succs()| ::
                 0 <= bs[i].Succs()[k] < |bs| && pc == base + bs[bs[i].Succs()[k]].startOfs
  {
    hide Members, SolvedFrom;
    var succs := bs[i].Succs();
    if SUCC_OFF_PAGE in succs {
      UnknownKeepsEverything(bs, i);
    } else {
      assert succs[0] in succs;
      EdgeLeads(bs, at, target);
      if pc == base + target {
        assert pc == base + bs[succs[0]].startOfs;
      } else {
        assert succs[1] in succs;
        EdgeLeads(bs, at, bs[i].endOfs);
        assert pc == base + bs[succs[1]].startOfs;
      }
    }
  }

  /** Leaving block i in agreement on its live_out. */
  lemma {:induction false} LeaveBlock(
      env: Env, page: Page, bs: seq<PageBlock>, at: seq<int>, start: nat, base: Word, pin: set<nat>,
      s: State, t: State, i: nat, opc: Word)
    requires Setting(page, bs, at, start, base, pin) && i < |bs|
    requires 4 <= bs[i].endOfs <= PAGE_SIZE && opc == InsnAt(page, bs[i].endOfs - 4)
    requires !AnalyzeInsn(opc).isEverything && s.pc == base + (bs[i].endOfs - 4)
    requires Agree(Members(bs[i].liveOut) + pin, Step(env, opc, s), t)
    ensures InStep(page, bs, base, pin, Step(env, opc, s), t)
  {
    hide AnalyzeInsn, Members, Agree, Step, Built, TargetsSafe, LinksSafe, MayKeepLr, IsBranch,
         MisreadsTarget, SolvedFrom, EdgesOf, LrWanted, KeepsWantedLr;
    LastOfBlock(page, bs, at, start, base, pin, i);
    if AnalyzeInsn(opc).isBranch && bs[i].liveOut != ALL_LIVE {
      BranchOpcode(opc);
      BranchMove(env, page, bs, at, start, base, pin, s, t, i, opc);
    } else {
      ConstantMembers();
      if bs[i].liveOut != ALL_LIVE {
        PageEndKeepsEverything(page, bs, at, i);
      }
      AgreeSubset(Everything, Members(bs[i].liveOut) + pin, Step(env, opc, s), t);
      AgreeOnEverything(Step(env, opc, s), t);
    }
  }

  /** A branch that may keep LR: it is taken in both states and links, or falls through. */
  lemma {:induction false} LinkOrFallThrough(env: Env, opc: Word, out: set<nat>, s: State, t: State)
    requires MayKeepLr(opc) && Agree(Before(AnalyzeInsn(opc), out), s, t)
    ensures Step(env, opc, s).lr == Step(env, opc, t).lr || Step(env, opc, s).pc == Next(s.pc)
  {
    hide AnalyzeInsn, Members;
    BeforeBranch(opc, out);
    TemplateKinds(opc);
    hide TemplateOf;
    ConditionAgrees(opc, s, t);
  }

  lemma {:induction false} ConditionAgrees(opc: Word, s: State, t: State)
    requires MayKeepLr(opc) && Agree(BranchReads(opc), s, t)
    ensures StepBranch(opc, s).lr == StepBranch(opc, t).lr || StepBranch(opc, s).pc == Next(s.pc)
  {
    hide BranchBD, BranchLI, Add, Aligned;
    if !SkipsCtrTest(opc) || ExtOpcode(opc) == 528 {
      assert CTR in BranchReads(opc) ==> SameResource(CTR, s, t);
    }
    if !SkipsCrTest(opc) {
      assert SameResource(63 - FieldA(opc), s, t);
    }
  }

  /** Falling through to a block that does not want LR. */
  lemma {:induction false} FallThroughKept(
      page: Page, bs: seq<PageBlock>, at: seq<int>, start: nat, base: Word, pin: set<nat>, s: State, t: State, i: nat)
    requires i < |bs| && |at| == SLOTS && 4 <= bs[i].endOfs <= PAGE_SIZE && pin == {}
    requires bs[i].endOfs < PAGE_SIZE ==> s.pc == base + bs[i].endOfs
    requires Agree(Members(bs[i].liveOut) - {LR}, s, t)
    requires MayKeepLr(InsnAt(page, bs[i].endOfs - 4)) && !LrWanted(bs, at, bs[i].endOfs)
    requires Setting(page, bs, at, start, base, pin)
    ensures InStep(page, bs, base, pin, s, t)
  {
    hide AnalyzeInsn, Members, Agree, Built, TargetsSafe, LinksSafe, MayKeepLr, InStep, Indexed, DecodeBranchTarget,
         IsUnconditionalBranch, IsBranch, MisreadsTarget, SolvedFrom, EdgesOf, BranchEntries;
    var end := bs[i].endOfs;
    BuiltIsSolved(page, bs, at, start);
    BranchEdges(page, bs, at, start, i);
    KeepingIsConditional(InsnAt(page, end - 4));
    SecondEntry(bs[i].Succs(), at, DecodeBranchTarget(InsnAt(page, end - 4), end - 4), end);
    var k := EdgeTo(at, end);
    EdgeLeads(bs, at, end);
    SuccessorIsCovered(bs, i, 1);
    LrIsMember(bs[k].liveIn);
    AgreeSubset(Members(bs[k].liveIn) + pin, Members(bs[i].liveOut) - {LR}, s, t);
    EnterBlock(page, bs, at, start, base, pin, s, t, k);
  }

  lemma {:induction false} SecondEntry(succs: seq<int>, at: seq<int>, target: int, end: nat)
    requires |at| == SLOTS && BranchEntries(succs, at, target, false, end)
    ensures |succs| == 2 && succs[1] == EdgeTo(at, end)
  {
  }

  lemma {:induction false} KeepingIsConditional(opc: Word)
    requires MayKeepLr(opc)
    ensures IsBranch(opc) && !IsUnconditionalBranch(opc)
  {
  }

  lemma {:induction false} LrIsMember(l: LiveSet)
    ensures l.lr <==> LR in Members(l)
  {
  }

  /** The last instruction of block i: afterwards the states are in step again. */
  lemma {:induction false} LastStep(
      env: Env, page: Page, bs: seq<PageBlock>, at: seq<int>, start: nat, base: Word, pin: set<nat>,
      s: State, t: State, i: nat)
    requires Setting(page, bs, at, start, base, pin) && i < |bs| && 4 <= bs[i].endOfs
    requires Within(page, bs, base, pin, s, t, i, bs[i].endOfs - 4)
    ensures InStep(page, bs, base, pin, PageStep(env, page, base, s), PageStep(env, page, base, t))
  {
    hide PageStep, AnalyzeInsn, Members, Agree, Step, Built, TargetsSafe, LinksSafe, MayKeepLr, IsBranch,
         MisreadsTarget, SolvedFrom, EdgesOf, LrWanted;
    LastOfBlock(page, bs, at, start, base, pin, i);
    var o, out := bs[i].endOfs - 4, Members(bs[i].liveOut);
    var opc := InsnAt(page, o);
    var fx := AnalyzeInsn(opc);
    assert LiveAt(page, AnalyzeInsn, o, bs[i].endOfs, out) == Before(fx, out);
    SamePc(s, t, Before(fx, out) + pin);
    OnPageStep(env, page, base, s, o);
    OnPageStep(env, page, base, t, o);
    assert !fx.isEverything;
    MembersBounded(bs[i].liveOut);
    if LR in pin || !MayKeepLr(opc) {
      PinnedStep(env, opc, out, pin, s, t);
      LeaveBlock(env, page, bs, at, start, base, pin, s, Step(env, opc, t), i, opc);
    } else {
      assert pin == {} && Before(fx, out) + pin == Before(fx, out) && out + pin == out;
      LastKeepingStep(env, opc, out, s, t);
      var s', t' := Step(env, opc, s), Step(env, opc, t);
      if s'.lr == t'.lr {
        AgreeWithLr(out, s', t');
        LeaveBlock(env, page, bs, at, start, base, pin, s, t', i, opc);
      } else {
        FallThroughKept(page, bs, at, start, base, pin, s', t', i);
      }
    }
  }

  lemma {:induction false} AgreeWithLr(l: set<nat>, s: State, t: State)
    requires Agree(l - {LR}, s, t) && s.lr == t.lr
    ensures Agree(l, s, t)
  {
    forall r | r in l ensures SameResource(r, s, t) {
      assert r != LR ==> r in l - {LR};
    }
  }

  /** Without LR the effect of such a branch is sound; LR is equal, or the branch fell through. */
  lemma {:induction false} LastKeepingStep(env: Env, opc: Word, out: set<nat>, s: State, t: State)
    requires MayKeepLr(opc) && out <= Everything && Agree(Before(AnalyzeInsn(opc), out), s, t)
    ensures Agree(out - {LR}, Step(env, opc, s), Step(env, opc, t))
    ensures Step(env, opc, s).lr == Step(env, opc, t).lr || Step(env, opc, s).pc == Next(s.pc)
  {
    hide AnalyzeInsn, Members, Step, Agree, MayKeepLr;
    LinkOrFallThrough(env, opc, out, s, t);
    AgreeSubset(Before(AnalyzeInsn(opc), out - {LR}), Before(AnalyzeInsn(opc), out), s, t);
    StepKeepsAgreement(env, opc, out - {LR}, s, t);
  }

  lemma {:induction false} BranchOpcode(opc: Word)
    requires AnalyzeInsn(opc).isBranch
    ensures IsBranch(opc)
  {
    AnalyzeSets(opc);
  }

  /** One step of the machine keeps two states in step. */
  lemma {:induction false} StepKeepsInStep(
      env: Env, page: Page, bs: seq<PageBlock>, at: seq<int>, start: nat, base: Word, pin: set<nat>,
      s: State, t: State)
    requires Setting(page, bs, at, start, base, pin) && InStep(page, bs, base, pin, s, t)
    ensures InStep(page, bs, base, pin, PageStep(env, page, base, s), PageStep(env, page, base, t))
  {
    hide PageStep, AnalyzeInsn, Members, Agree, Step, Built, LiveAt, Setting;
    if s != t {
      var i: nat, o: nat :| Within(page, bs, base, pin, s, t, i, o);
      if o + 4 < bs[i].endOfs {
        InsideStep(env, page, bs, at, start, base, pin, s, t, i, o);
      } else {
        assert o == bs[i].endOfs - 4;
        LastStep(env, page, bs, at, start, base, pin, s, t, i);
      }
    }
  }

  lemma {:induction false} RunKeepsInStep(
      env: Env, page: Page, bs: seq<PageBlock>, at: seq<int>, start: nat, base: Word, pin: set<nat>,
      s: State, t: State, n: nat)
    requires Setting(page, bs, at, start, base, pin) && InStep(page, bs, base, pin, s, t)
    ensures InStep(page, bs, base, pin, Run(env, page, base, s, n), Run(env, page, base, t, n))
  {
    hide PageStep, InStep, Setting;
    if n > 0 {
      RunKeepsInStep(env, page, bs, at, start, base, pin, s, t, n - 1);
      StepKeepsInStep(env, page, bs, at, start, base, pin,
                      Run(env, page, base, s, n - 1), Run(env, page, base, t, n - 1));
    }
  }

  /** What an observer sees of two runs: where they are and everything untracked,
      memory and floating point included; off the page, the whole state. */
  ghost predicate SameObservation(base: Word, s: State, t: State) {
    s.pc == t.pc && s.rest == t.rest && (!OnPage(base, s.pc) ==> s == t)
  }

  lemma {:induction false} InStepObserved(
      page: Page, bs: seq<PageBlock>, base: Word, pin: set<nat>, s: State, t: State)
    requires InStep(page, bs, base, pin, s, t) && IsBase(base)
    ensures SameObservation(base, s, t)
  {
    hide AnalyzeInsn, Members, Agree, LiveAt;
    if s != t {
      var i: nat, o: nat :| Within(page, bs, base, pin, s, t, i, o);
      SamePc(s, t, LiveAt(page, AnalyzeInsn, o, bs[i].endOfs, Members(bs[i].liveOut)) + pin);
    }
  }

  // -------------------------------------------- agreement at every block head

  lemma {:induction false} ScanEndInside(page: Page, an: Analyzer, p: nat, o: nat)
    requires IsSlot(p) && p <= o < ScanEnd(page, an, p) && o % 4 == 0
    ensures IsSlot(o) && ScanEnd(page, an, o) == ScanEnd(page, an, p)
    decreases PAGE_SIZE - p
  {
    if p < o {
      ScanEndInside(page, an, p + 4, o);
    }
  }

  /** Blocks that end together have the same successors, so the same live_out. */
  lemma {:induction false} SameEndSameOut(page: Page, bs: seq<PageBlock>, at: seq<int>, start: nat, i: nat, j: nat)
    requires Built(page, AnalyzeInsn, start, bs, at) && i < |bs| && j < |bs| && bs[i].endOfs == bs[j].endOfs
    ensures Members(bs[i].liveOut) == Members(bs[j].liveOut)
  {
    hide AnalyzeInsn, Members, Discovered, EdgesOf, UnionOver, Known;
    assert bs[i].Succs() == bs[j].Succs();
    OutOfBlock(bs, i);
    OutOfBlock(bs, j);
    assert bs[i].numSucc == 0 <==> bs[i].Succs() == [];
    assert BlockSolved(GraphOf(bs), LiveIns(bs), bs[i], i) && BlockSolved(GraphOf(bs), LiveIns(bs), bs[j], j);
  }

  lemma {:induction false} SameBlockRest(
      page: Page, bs: seq<PageBlock>, at: seq<int>, start: nat, base: Word, pin: set<nat>, s: State, t: State,
      i: nat, j: nat)
    requires Built(page, AnalyzeInsn, start, bs, at) && j < |bs|
    requires Within(page, bs, base, pin, s, t, i, bs[j].startOfs)
    ensures Agree(Members(bs[j].liveIn) + pin, s, t)
  {
    hide Members, ScanSummary, ScanEnd, LiveAt, Built, Agree, AnalyzeInsn;
    LiveInIsTransfer(page, bs, at, start, i);
    LiveInIsTransfer(page, bs, at, start, j);
    ScanEndInside(page, AnalyzeInsn, bs[i].startOfs, bs[j].startOfs);
    SameEndSameOut(page, bs, at, start, i, j);
    assert Modelled(page, AnalyzeInsn, bs[j].startOfs, bs[j].endOfs);
  }

  /** States in step agree on live_in of whatever block they are at the head of. */
  lemma {:induction false} HeadAgreement(
      page: Page, bs: seq<PageBlock>, at: seq<int>, start: nat, base: Word, pin: set<nat>, s: State, t: State, j: nat)
    requires Built(page, AnalyzeInsn, start, bs, at) && j < |bs| && InStep(page, bs, base, pin, s, t)
    requires s.pc == base + bs[j].startOfs
    ensures Agree(Members(bs[j].liveIn) + pin, s, t)
  {
    hide Members, LiveAt, Built, Agree, AnalyzeInsn, Modelled;
    if s == t {
      AgreeSelf(Members(bs[j].liveIn) + pin, s);
    } else {
      var i: nat, o: nat :| Within(page, bs, base, pin, s, t, i, o);
      SameBlockRest(page, bs, at, start, base, pin, s, t, i, j);
    }
  }

  /** The page's instruction at a state, if it is one the analysis gives up on. */
  predicate AtUnmodelled(page: Page, base: Word, s: State) {
    OnPage(base, s.pc) && AnalyzeInsn(InsnAt(page, s.pc - base)).isEverything
  }

  lemma {:induction false} EqualAtUnmodelled(
      page: Page, bs: seq<PageBlock>, base: Word, pin: set<nat>, s: State, t: State)
    requires InStep(page, bs, base, pin, s, t) && AtUnmodelled(page, base, s)
    ensures s == t
  {
    hide Within, AtUnmodelled;
    if s != t {
      var i: nat, o: nat :| Within(page, bs, base, pin, s, t, i, o);
      WithinIsModelled(page, bs, base, pin, s, t, i, o);
    }
  }

  lemma {:induction false} WithinIsModelled(
      page: Page, bs: seq<PageBlock>, base: Word, pin: set<nat>, s: State, t: State, i: nat, o: nat)
    requires Within(page, bs, base, pin, s, t, i, o)
    ensures !AtUnmodelled(page, base, s)
  {
    hide Members, LiveAt, Agree, AnalyzeInsn;
    assert !AnalyzeInsn(InsnAt(page, o)).isEverything;
  }

  /** What noninterference promises of two states reached by the same number of steps:
      the same place and the same untracked state, agreement on live_in at a block head,
      and no difference at all off the page or at an unmodelled instruction. */
  ghost predicate Indistinct(page: Page, bs: seq<PageBlock>, base: Word, pin: set<nat>, s: State, t: State) {
    && SameObservation(base, s, t)
    && (forall j | 0 <= j < |bs| && s.pc == base + bs[j].startOfs :: Agree(Members(bs[j].liveIn) + pin, s, t))
    && (AtUnmodelled(page, base, s) ==> s == t)
  }

  lemma {:induction false} InStepIndistinct(
      page: Page, bs: seq<PageBlock>, at: seq<int>, start: nat, base: Word, pin: set<nat>, s: State, t: State)
    requires Setting(page, bs, at, start, base, pin) && InStep(page, bs, base, pin, s, t)
    ensures Indistinct(page, bs, base, pin, s, t)
  {
    hide Built, InStep, Agree, Members, SameObservation, AtUnmodelled, TargetsSafe, LinksSafe;
    InStepObserved(page, bs, base, pin, s, t);
    forall j | 0 <= j < |bs| && s.pc == base + bs[j].startOfs ensures Agree(Members(bs[j].liveIn) + pin, s, t) {
      HeadAgreement(page, bs, at, start, base, pin, s, t, j);
    }
    if AtUnmodelled(page, base, s) {
      EqualAtUnmodelled(page, bs, base, pin, s, t);
    }
  }

  /** Noninterference: two states at the head of a block that agree on its live_in, and
      on LR where a branch may keep it, stay indistinct for ever. */
  lemma {:induction false} PageNoninterference(
      env: Env, page: Page, bs: seq<PageBlock>, at: seq<int>, start: nat, base: Word, pin: set<nat>,
      i: nat, s: State, t: State, n: nat)
    requires Setting(page, bs, at, start, base, pin) && i < |bs|
    requires s.pc == base + bs[i].startOfs && Agree(Members(bs[i].liveIn) + pin, s, t)
    ensures Indistinct(page, bs, base, pin, Run(env, page, base, s, n), Run(env, page, base, t, n))
  {
    EnterBlock(page, bs, at, start, base, pin, s, t, i);
    hide PageStep, InStep, Built, Run, Agree, Members, TargetsSafe, LinksSafe, Indistinct;
    RunKeepsInStep(env, page, bs, at, start, base, pin, s, t, n);
    InStepIndistinct(page, bs, at, start, base, pin, Run(env, page, base, s, n), Run(env, page, base, t, n));
  }

  /** What the code generator relies on: a CR field that live_in reports dead can hold
      anything at the block head without any observable difference, ever. */
  lemma {:induction false} DeadFieldIsUnobservable(
      env: Env, page: Page, bs: seq<PageBlock>, at: seq<int>, start: nat, base: Word,
      i: nat, f: Field, c: nat, s: State, n: nat)
    requires Built(page, AnalyzeInsn, start, bs, at) && IsBase(base) && TargetsSafe(page, bs, base)
    requires i < |bs| && s.pc == base + bs[i].startOfs && c < 16
    requires IsCrFieldDead(bs[i].liveIn, f)
    ensures SameObservation(base, Run(env, page, base, s, n),
                            Run(env, page, base, s.(cr := PutField(s.cr, f, c)), n))
  {
    hide Built, TargetsSafe, Members, Run, PutField;
    var t := s.(cr := PutField(s.cr, f, c));
    DeadFieldMembers(bs[i].liveIn, f);
    MembersBounded(bs[i].liveIn);
    FieldFrame(f, c, s);
    assert Agree(Members(bs[i].liveIn) + {LR}, s, t);
    PageNoninterference(env, page, bs, at, start, base, {LR}, i, s, t, n);
  }
}
