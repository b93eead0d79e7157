/** Exactly where live_in of a page block is not enough to know. */
module LiveInGaps {
  import opened Words
  import opened LiveSets
  import opened Templates
  import opened Effects
  import opened Machine
  import opened Soundness
  import opened Page
  import opened PageCfg
  import opened PageLiveness

  // ---------------------------------------- where live_in is not enough

  /** Agreement on live_in of block i alone, without LR pinned, is enough for every run. */
  ghost predicate LiveInSuffices(env: Env, page: Page, bs: seq<PageBlock>, base: Word, i: nat)
    requires i < |bs|
  {
    forall s: State, t: State, n: nat | s.pc == base + bs[i].startOfs && Agree(Members(bs[i].liveIn), s, t) ::
      Indistinct(page, bs, base, {}, Run(env, page, base, s, n), Run(env, page, base, t, n))
  }

  /** At any block that is just a branch that may keep LR, states that agree on live_in can fall
      through together with different LR. */
  lemma {:induction false} KeptLrDiffers(
      env: Env, page: Page, bs: seq<PageBlock>, at: seq<int>, start: nat, base: Word, i: nat)
    returns (s: State, t: State)
    requires Built(page, AnalyzeInsn, start, bs, at) && IsBase(base) && i < |bs|
    requires bs[i].startOfs < PAGE_SIZE && bs[i].endOfs == bs[i].startOfs + 4 && MayKeepLr(InsnAt(page, bs[i].startOfs))
    ensures s.pc == base + bs[i].startOfs && Agree(Members(bs[i].liveIn), s, t)
    ensures PageStep(env, page, base, s).pc == Next(s.pc)
    ensures PageStep(env, page, base, s).lr != PageStep(env, page, base, t).lr
  {
    hide Members, Built, AnalyzeInsn, Step, StepBranch, PageStep, MayKeepLr;
    var o := bs[i].startOfs;
    var opc := InsnAt(page, o);
    LiveInIsTransfer(page, bs, at, start, i);
    s, t := NotTaken(opc, base + o, 0), NotTaken(opc, base + o, 4);
    KeptLrNotLive(opc, Members(bs[i].liveOut));
    OnlyLrDiffers(Members(bs[i].liveIn), opc, base + o);
    OnPageStep(env, page, base, s, o);
    OnPageStep(env, page, base, t, o);
    NotTakenStep(env, opc, base + o, 0);
    NotTakenStep(env, opc, base + o, 4);
  }

  /** A block that is just a branch that may keep LR, before a place where LR is wanted: states
      that agree on live_in can be told apart after one step. */
  lemma {:induction false} KeptLrIsNoticed(
      env: Env, page: Page, bs: seq<PageBlock>, at: seq<int>, start: nat, base: Word, i: nat)
    requires Built(page, AnalyzeInsn, start, bs, at) && IsBase(base) && i < |bs| && |at| == SLOTS
    requires bs[i].startOfs < PAGE_SIZE && bs[i].endOfs == bs[i].startOfs + 4
    requires bs[i].endOfs == PAGE_SIZE || Found(at, bs[i].endOfs)
    requires KeepsWantedLr(page, bs, at, i)
    ensures exists s: State, t: State ::
              && s.pc == base + bs[i].startOfs && Agree(Members(bs[i].liveIn), s, t)
              && !Indistinct(page, bs, base, {}, PageStep(env, page, base, s), PageStep(env, page, base, t))
  {
    hide Members, Built, AnalyzeInsn, PageStep, MayKeepLr, Indistinct, LrWanted, Indexed, Agree, Found, KeepsWantedLr,
         EdgesOf, SolvedFrom, SuccsInRange, Next, IsBase;
    KeepsAndWants(page, bs, at, i);
    var s, t := KeptLrDiffers(env, page, bs, at, start, base, i);
    EdgesOfLast(page, bs, at, start, i);
    BuiltIsSolved(page, bs, at, start);
    LrIsNoticed(page, bs, at, base, bs[i].endOfs, PageStep(env, page, base, s), PageStep(env, page, base, t));
  }

  lemma {:induction false} KeepsAndWants(page: Page, bs: seq<PageBlock>, at: seq<int>, i: nat)
    requires i < |bs| && |at| == SLOTS && KeepsWantedLr(page, bs, at, i)
    ensures 4 <= bs[i].endOfs <= PAGE_SIZE
    ensures MayKeepLr(InsnAt(page, bs[i].endOfs - 4)) && LrWanted(bs, at, bs[i].endOfs)
  {
  }

  lemma {:induction false} LrIsNoticed(
      page: Page, bs: seq<PageBlock>, at: seq<int>, base: Word, end: nat, s: State, t: State)
    requires Indexed(bs, at) && LrWanted(bs, at, end) && IsBase(base) && s.lr != t.lr
    requires 4 <= end <= PAGE_SIZE && end % 4 == 0 && s.pc == Next(base + (end - 4))
    requires end == PAGE_SIZE || Found(at, end)
    ensures !Indistinct(page, bs, base, {}, s, t)
  {
    hide AnalyzeInsn, Members;
    if end < PAGE_SIZE {
      var k := EdgeTo(at, end);
      EdgeLeads(bs, at, end);
      LrIsMember(bs[k].liveIn);
      assert !SameResource(LR, s, t);
      assert !Agree(Members(bs[k].liveIn) + {}, s, t);
    }
  }

  /** At a block that is a single instruction, live_in suffices if and only if that instruction
      does not keep an LR that is wanted next. */
  lemma {:induction false} LiveInSufficesExactly(
      env: Env, page: Page, bs: seq<PageBlock>, at: seq<int>, start: nat, base: Word, i: nat)
    requires Built(page, AnalyzeInsn, start, bs, at) && IsBase(base) && i < |bs| && |at| == SLOTS
    requires TargetsSafe(page, bs, base)
    requires forall j | 0 <= j < |bs| && j != i :: !KeepsWantedLr(page, bs, at, j)
    requires bs[i].startOfs < PAGE_SIZE && bs[i].endOfs == bs[i].startOfs + 4
    requires bs[i].endOfs == PAGE_SIZE || Found(at, bs[i].endOfs)
    ensures LiveInSuffices(env, page, bs, base, i) <==> !KeepsWantedLr(page, bs, at, i)
  {
    hide Built, KeepsWantedLr, Found, Indistinct, PageStep, Members, Agree, TargetsSafe, AnalyzeInsn;
    if KeepsWantedLr(page, bs, at, i) {
      KeptLrIsNoticed(env, page, bs, at, start, base, i);
      var s: State, t: State :|
        && s.pc == base + bs[i].startOfs && Agree(Members(bs[i].liveIn), s, t)
        && !Indistinct(page, bs, base, {}, PageStep(env, page, base, s), PageStep(env, page, base, t));
      OneStep(env, page, base, s);
      OneStep(env, page, base, t);
    } else {
      forall s: State, t: State, n: nat | s.pc == base + bs[i].startOfs && Agree(Members(bs[i].liveIn), s, t)
        ensures Indistinct(page, bs, base, {}, Run(env, page, base, s, n), Run(env, page, base, t, n)) {
        assert Members(bs[i].liveIn) + {} == Members(bs[i].liveIn);
        PageNoninterference(env, page, bs, at, start, base, {}, i, s, t, n);
      }
    }
  }

  lemma {:induction false} OneStep(env: Env, page: Page, base: Word, s: State)
    ensures Run(env, page, base, s, 1) == PageStep(env, page, base, s)
  {
    assert Run(env, page, base, s, 0) == s;
  }

  /** A state with nothing set, and one that differs from it in one resource. */
  function Blank(pc: Word): State {
    State(pc, seq(32, _ => 0), 0, 0, 0, 0, Untracked(map[], []))
  }

  function Only(pc: Word, r: nat): State
    requires r < RESOURCES
  {
    var s := Blank(pc);
    if r < 32 then s.(gpr := s.gpr[r := 1])
    else if r < 64 then s.(cr := SingleBit(r - 32))
    else if r < 67 then s.(xer := SingleBit(r - 64 + 29))
    else if r == LR then s.(lr := 4)
    else s.(ctr := 4)
  }

  lemma {:induction false} DifferInOne(live: set<nat>, pc: Word, r: nat)
    requires r < RESOURCES && r !in live
    ensures Agree(live, Blank(pc), Only(pc, r)) && !SameResource(r, Blank(pc), Only(pc, r))
  {
    forall i: nat | i < 32 ensures !BitAt(0, i) {
      ZeroBit(i);
    }
    if 32 <= r < 64 {
      SingleBitBits(r - 32);
    } else if 64 <= r < 67 {
      SingleBitBits(r - 64 + 29);
    }
  }

  predicate IsJump(opc: Word) { MainOpcode(opc) == 18 }

  /** ba and bla leave the page where the decoder sees an offset into it. */
  lemma {:induction false} MisreadJump(env: Env, page: Page, base: Word, s: State, o: nat)
    requires IsBase(base) && IsSlot(o) && s.pc == base + o
    requires IsJump(InsnAt(page, o)) && MisreadsTarget(InsnAt(page, o), base)
    ensures var opc, u := InsnAt(page, o), PageStep(env, page, base, s);
      u == s.(pc := u.pc, lr := if LinkBit(opc) then Next(s.pc) else s.lr) && u.pc == BranchLI(opc)
      && !OnPage(base, u.pc)
  {
    hide BranchLI, Step, MisreadsTarget, OnPage;
    OnPageStep(env, page, base, s, o);
    MisreadIsOffPage(InsnAt(page, o), base);
    JumpStep(env, InsnAt(page, o), s);
  }

  lemma {:induction false} JumpStep(env: Env, opc: Word, s: State)
    requires IsJump(opc) && AbsoluteBit(opc)
    ensures Step(env, opc, s) == s.(pc := BranchLI(opc), lr := if LinkBit(opc) then Next(s.pc) else s.lr)
  {
    hide BranchLI;
    TemplateKinds(opc);
    hide TemplateOf;
  }

  lemma {:induction false} MisreadIsOffPage(opc: Word, base: Word)
    requires IsBase(base) && IsJump(opc) && MisreadsTarget(opc, base)
    ensures AbsoluteBit(opc) && !OnPage(base, BranchLI(opc))
  {
    hide BranchLI, AbsoluteBit;
  }

  /** At a block that is just such a jump, states that agree on live_in leave the page equal if
      and only if live_in is everything, up to an LR that the jump itself sets. */
  lemma {:induction false} MisreadJumpExactly(
      env: Env, page: Page, bs: seq<PageBlock>, base: Word, i: nat)
    requires IsBase(base) && i < |bs| && IsSlot(bs[i].startOfs)
    requires IsJump(InsnAt(page, bs[i].startOfs)) && MisreadsTarget(InsnAt(page, bs[i].startOfs), base)
    ensures (forall s: State, t: State | s.pc == base + bs[i].startOfs && Agree(Members(bs[i].liveIn), s, t) ::
               PageStep(env, page, base, s) == PageStep(env, page, base, t))
      <==> Everything <= Members(bs[i].liveIn) + (if LinkBit(InsnAt(page, bs[i].startOfs)) then {LR} else {})
  {
    hide Members, PageStep, MisreadsTarget, LinkBit, IsJump;
    var o := bs[i].startOfs;
    var live, linked := Members(bs[i].liveIn), if LinkBit(InsnAt(page, o)) then {LR} else {};
    if Everything <= live + linked {
      forall s: State, t: State | s.pc == base + o && Agree(live, s, t)
        ensures PageStep(env, page, base, s) == PageStep(env, page, base, t) {
        MisreadJump(env, page, base, s, o);
        MisreadJump(env, page, base, t, o);
        JumpEquals(live, linked, s, t);
      }
    } else {
      var r :| r in Everything && r !in live + linked;
      var s, t := Blank(base + o), Only(base + o, r);
      DifferInOne(live, base + o, r);
      MisreadJump(env, page, base, s, o);
      MisreadJump(env, page, base, t, o);
      assert !SameResource(r, PageStep(env, page, base, s), PageStep(env, page, base, t));
    }
  }

  lemma {:induction false} JumpEquals(live: set<nat>, linked: set<nat>, s: State, t: State)
    requires Agree(live, s, t) && linked <= {LR} && Everything <= live + linked
    ensures s.(lr := 0) == t.(lr := 0)
    ensures linked == {} ==> s == t
  {
    var s', t' := s.(lr := 0), t.(lr := 0);
    forall r: nat | r < RESOURCES ensures SameResource(r, s', t') {
      if r != LR {
        assert r in Everything && r in live + linked;
        assert SameResource(r, s, t);
      }
    }
    AgreeOnEverything(s', t');
    if linked == {} {
      assert LR in Everything && LR in live + linked;
      assert SameResource(LR, s, t);
    }
  }

  lemma {:induction false} KeptLrNotLive(opc: Word, out: set<nat>)
    requires MayKeepLr(opc)
    ensures LR !in Before(AnalyzeInsn(opc), out) && !AnalyzeInsn(opc).isEverything
  {
    hide AnalyzeInsn, Members;
    LrIsKilled(opc);
    BranchIsModelled(opc);
  }

  lemma {:induction false} BranchIsModelled(opc: Word)
    requires MayKeepLr(opc)
    ensures !AnalyzeInsn(opc).isEverything
  {
    AnalyzeSets(opc);
  }

  lemma {:induction false} OnlyLrDiffers(live: set<nat>, opc: Word, pc: Word)
    requires LR !in live
    ensures Agree(live, NotTaken(opc, pc, 0), NotTaken(opc, pc, 4))
  {
  }

  lemma {:induction false} NotTakenStep(env: Env, opc: Word, pc: Word, lr: Word)
    requires MayKeepLr(opc)
    ensures Step(env, opc, NotTaken(opc, pc, lr)).pc == Next(pc) && Step(env, opc, NotTaken(opc, pc, lr)).lr == lr
  {
    NotTakenFallsThrough(opc, pc, lr);
    TemplateKinds(opc);
  }
}
