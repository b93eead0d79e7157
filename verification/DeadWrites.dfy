/** Intra-block liveness: the backward pass that flags dead writes. */
module DeadWrites {
  import opened Words
  import opened LiveSets
  import opened Templates
  import opened Effects
  import opened Machine
  import opened Soundness

  /** What the pass tracks: no LR and no CTR. */
  datatype LivenessState = LivenessState(gpr: Word, cr: Word, xer: XerMask)

  datatype LivenessInfo = LivenessInfo(deadGpr: Word, deadCr: Word, deadXer: XerMask)
  {
    predicate IsDeadGpr(r: Reg) {
      BitAt(deadGpr, r)
    }

    predicate IsDeadCrField(f: Field) {
      Logic(And, deadCr, FieldMask(f)) == FieldMask(f)
    }

    predicate IsDeadXerCa() {
      BitAt(deadXer, 0)
    }
  }

  const ALL := LivenessState(TWO32 - 1, TWO32 - 1, XER_BIT_ALL)
  const NO_DEAD := LivenessInfo(0, 0, 0)

  function Transfer(fx: InsnEffect, live: LivenessState): LivenessState {
    if fx.isEverything then ALL
    else LivenessState(Logic(Or, Logic(Andc, live.gpr, fx.write.gpr), fx.read.gpr),
                       Logic(Or, Logic(Andc, live.cr, fx.write.cr), fx.read.cr),
                       XerLogic(Or, XerLogic(Andc, live.xer, fx.write.xer), fx.read.xer))
  }

  function Dead(fx: InsnEffect, live: LivenessState): LivenessInfo {
    if fx.isEverything then NO_DEAD
    else LivenessInfo(Logic(Andc, fx.write.gpr, live.gpr),
                      Logic(Andc, fx.write.cr, live.cr),
                      XerLogic(Andc, fx.write.xer, live.xer))
  }

  /** What is live before instruction i when everything is live at the end. */
  function LiveAt(insns: seq<InsnEffect>, i: nat): LivenessState
    requires i <= |insns|
    decreases |insns| - i
  {
    if i == |insns| then ALL else Transfer(insns[i], LiveAt(insns, i + 1))
  }

  /** What instruction i writes for nobody. */
  function DeadAt(insns: seq<InsnEffect>, i: nat): LivenessInfo
    requires i < |insns|
  {
    Dead(insns[i], LiveAt(insns, i + 1))
  }

  lemma {:induction false} OneBack(insns: seq<InsnEffect>, i: nat)
    requires i < |insns|
    ensures DeadAt(insns, i) == Dead(insns[i], LiveAt(insns, i + 1))
    ensures LiveAt(insns, i) == Transfer(insns[i], LiveAt(insns, i + 1))
  {
  }

  lemma {:induction false} EndOfBlock(insns: seq<InsnEffect>)
    ensures LiveAt(insns, |insns|) == ALL
  {
  }

  method ComputeLiveness(insns: seq<InsnEffect>, out: array<LivenessInfo>)
    requires |insns| <= out.Length
    modifies out
    ensures forall i | 0 <= i < |insns| :: out[i] == DeadAt(insns, i)
    ensures forall i | |insns| <= i < out.Length :: out[i] == old(out[i])
  {
    hide Logic, XerLogic, DeadAt, LiveAt;
    var live := ALL;
    assert live == LiveAt(insns, |insns|) by { EndOfBlock(insns); }
    for i := |insns| downto 0
      invariant live == LiveAt(insns, i)
      invariant forall k | i <= k < |insns| :: out[k] == DeadAt(insns, k)
      invariant forall k | |insns| <= k < out.Length :: out[k] == old(out[k])
    {
      var fx := insns[i];
      var info: LivenessInfo;
      if fx.isEverything {
        info := NO_DEAD;
        live := ALL;
      } else {
        info := LivenessInfo(Logic(Andc, fx.write.gpr, live.gpr),
                             Logic(Andc, fx.write.cr, live.cr),
                             XerLogic(Andc, fx.write.xer, live.xer));
        live := LivenessState(Logic(Or, Logic(Andc, live.gpr, fx.write.gpr), fx.read.gpr),
                              Logic(Or, Logic(Andc, live.cr, fx.write.cr), fx.read.cr),
                              XerLogic(Or, XerLogic(Andc, live.xer, fx.write.xer), fx.read.xer));
      }
      OneBack(insns, i);
      out[i] := info;
    }
  }

  // --------------------------------------------------------- as resource sets

  /** The resources the pass tracks. */
  const TRACKED: nat := 67

  ghost function LiveMembers(l: LivenessState): set<nat> {
    Members(LiveSet(l.gpr, l.cr, l.xer, true, true))
  }

  ghost function DeadMembers(d: LivenessInfo): set<nat> {
    Members(LiveSet(d.deadGpr, d.deadCr, d.deadXer, false, false))
  }

  lemma {:induction false} XerLogicBit(op: BitOp, a: XerMask, b: XerMask, i: nat)
    requires i < 3
    ensures BitAt(XerLogic(op, a, b), i) == op.On(BitAt(a, i), BitAt(b, i))
  {
    BitwiseBit(op, a, b, 3, i);
  }

  lemma {:induction false} MaskedBits(op: BitOp, a: LiveSet, b: LiveSet, i: nat)
    requires i < TRACKED
    ensures Has(LiveSet(Logic(op, a.gpr, b.gpr), Logic(op, a.cr, b.cr), XerLogic(op, a.xer, b.xer), false, false), i)
         == op.On(Has(a, i), Has(b, i))
  {
    hide Logic, XerLogic, BitAt;
    if i < 32 {
      LogicBit(op, a.gpr, b.gpr, i);
    } else if i < 64 {
      LogicBit(op, a.cr, b.cr, i - 32);
    } else {
      XerLogicBit(op, a.xer, b.xer, i - 64);
    }
  }

  /** The flagged writes, as a set. */
  lemma {:induction false} DeadSets(fx: InsnEffect, live: LivenessState)
    ensures DeadMembers(Dead(fx, live)) == if fx.isEverything then {} else Members(fx.write) - LiveMembers(live)
  {
    if fx.isEverything {
      ConstantMembers();
    } else {
      forall i: nat | i < TRACKED
        ensures i in DeadMembers(Dead(fx, live)) <==> i in Members(fx.write) - LiveMembers(live) {
        MaskedBits(Andc, fx.write, LiveSet(live.gpr, live.cr, live.xer, true, true), i);
      }
    }
  }

  /** The backward transfer, as a set; LR and CTR always count as live. */
  lemma {:induction false} TransferSets(fx: InsnEffect, live: LivenessState)
    ensures LiveMembers(Transfer(fx, live)) == Before(fx, LiveMembers(live)) + {LR, CTR}
  {
    if fx.isEverything {
      AllIsEverything();
    } else {
      var kept := LiveSet(Logic(Andc, live.gpr, fx.write.gpr), Logic(Andc, live.cr, fx.write.cr),
                          XerLogic(Andc, live.xer, fx.write.xer), false, false);
      forall i: nat | i < TRACKED
        ensures i in LiveMembers(Transfer(fx, live)) <==> i in Before(fx, LiveMembers(live)) {
        MaskedBits(Andc, LiveSet(live.gpr, live.cr, live.xer, true, true), fx.write, i);
        MaskedBits(Or, kept, fx.read, i);
      }
    }
  }

  lemma {:induction false} AllIsEverything()
    ensures LiveMembers(ALL) == Everything
  {
    ConstantMembers();
  }

  ghost function LiveSetAt(insns: seq<InsnEffect>, i: nat): (l: set<nat>)
    requires i <= |insns|
    ensures {LR, CTR} <= l
    decreases |insns| - i
  {
    if i == |insns| then Everything else Before(insns[i], LiveSetAt(insns, i + 1)) + {LR, CTR}
  }

  lemma {:induction false} LiveAtSets(insns: seq<InsnEffect>, i: nat)
    requires i <= |insns|
    ensures LiveMembers(LiveAt(insns, i)) == LiveSetAt(insns, i)
    decreases |insns| - i
  {
    hide Transfer, LiveMembers;
    if i == |insns| {
      AllIsEverything();
    } else {
      LiveAtSets(insns, i + 1);
      TransferSets(insns[i], LiveAt(insns, i + 1));
    }
  }

  lemma {:induction false} LiveSetBound(insns: seq<InsnEffect>, i: nat)
    requires i <= |insns|
    ensures LiveSetAt(insns, i) <= Everything
    decreases |insns| - i
  {
    if i < |insns| {
      LiveSetBound(insns, i + 1);
    }
  }

  // ------------------------------------------------- what a dead write means

  /** From instruction i on, resource r is overwritten before anything reads it. */
  ghost predicate OverwrittenFrom(insns: seq<InsnEffect>, i: nat, r: nat) {
    exists j | i <= j < |insns| ::
      && !insns[j].isEverything && r in Members(insns[j].write) && r !in Members(insns[j].read)
      && forall k | i <= k < j :: !insns[k].isEverything && r !in Members(insns[k].read)
  }

  lemma {:induction false} OverwrittenStep(insns: seq<InsnEffect>, i: nat, r: nat)
    requires i < |insns|
    ensures OverwrittenFrom(insns, i, r) <==>
              && !insns[i].isEverything && r !in Members(insns[i].read)
              && (r in Members(insns[i].write) || OverwrittenFrom(insns, i + 1, r))
  {
    if OverwrittenFrom(insns, i + 1, r) && !insns[i].isEverything && r !in Members(insns[i].read) {
      var j :| i + 1 <= j < |insns|
               && !insns[j].isEverything && r in Members(insns[j].write) && r !in Members(insns[j].read)
               && forall k | i + 1 <= k < j :: !insns[k].isEverything && r !in Members(insns[k].read);
      assert forall k | i <= k < j :: !insns[k].isEverything && r !in Members(insns[k].read);
    }
  }

  lemma {:induction false} NotLiveExactly(insns: seq<InsnEffect>, i: nat, r: nat)
    requires i <= |insns| && r < TRACKED
    ensures r !in LiveSetAt(insns, i) <==> OverwrittenFrom(insns, i, r)
    decreases |insns| - i
  {
    if i < |insns| {
      NotLiveExactly(insns, i + 1, r);
      OverwrittenStep(insns, i, r);
    }
  }

  /** A write is flagged dead exactly when it is overwritten before it is read. */
  lemma {:induction false} DeadExactly(insns: seq<InsnEffect>, i: nat, r: nat)
    requires i < |insns| && r < TRACKED
    ensures r in DeadMembers(DeadAt(insns, i)) <==>
              !insns[i].isEverything && r in Members(insns[i].write) && OverwrittenFrom(insns, i + 1, r)
  {
    DeadSets(insns[i], LiveAt(insns, i + 1));
    LiveAtSets(insns, i + 1);
    NotLiveExactly(insns, i + 1, r);
  }

  lemma {:induction false} FieldBitOfDead(d: LivenessInfo, f: Field, i: nat)
    requires i < 32
    ensures BitAt(Logic(And, d.deadCr, FieldMask(f)), i) <==> 32 + i in DeadMembers(d) && 32 + i in FieldBits(f)
    ensures BitAt(FieldMask(f), i) <==> 32 + i in FieldBits(f)
  {
    FieldMaskBits(f);
    LogicBit(And, d.deadCr, FieldMask(f), i);
  }

  lemma {:induction false} DeadGprExactly(d: LivenessInfo, r: Reg)
    ensures d.IsDeadGpr(r) <==> r in DeadMembers(d)
  {
  }

  lemma {:induction false} DeadXerCaExactly(d: LivenessInfo)
    ensures d.IsDeadXerCa() <==> XER_CA in DeadMembers(d)
  {
  }

  lemma {:induction false} DeadFieldExactly(d: LivenessInfo, f: Field)
    ensures d.IsDeadCrField(f) <==> FieldBits(f) <= DeadMembers(d)
  {
    var both := Logic(And, d.deadCr, FieldMask(f));
    forall i: nat | i < 32
      ensures BitAt(both, i) <==> 32 + i in DeadMembers(d) && 32 + i in FieldBits(f)
      ensures BitAt(FieldMask(f), i) <==> 32 + i in FieldBits(f) {
      FieldBitOfDead(d, f, i);
    }
    if FieldBits(f) <= DeadMembers(d) {
      WordsEqual(both, FieldMask(f));
    } else {
      var i :| i in FieldBits(f) && i !in DeadMembers(d);
      assert BitAt(FieldMask(f), i - 32) && !BitAt(both, i - 32);
    }
  }

  // -------------------------------------------------- dead-write elimination

  function EffectsOf(code: seq<Word>): (fx: seq<InsnEffect>)
    ensures |fx| == |code| && forall i | 0 <= i < |code| :: fx[i] == AnalyzeInsn(code[i])
  {
    seq(|code|, i requires 0 <= i < |code| => AnalyzeInsn(code[i]))
  }

  ghost function DeadOf(code: seq<Word>, i: nat): set<nat>
    requires i < |code|
  {
    DeadMembers(DeadAt(EffectsOf(code), i))
  }

  lemma {:induction false} DeadIsNotLive(code: seq<Word>, i: nat)
    requires i < |code|
    ensures DeadOf(code, i) !! LiveSetAt(EffectsOf(code), i + 1)
  {
    DeadSets(AnalyzeInsn(code[i]), LiveAt(EffectsOf(code), i + 1));
    LiveAtSets(EffectsOf(code), i + 1);
  }

  /** A run of the block in which every write flagged dead may leave any value behind. */
  ghost predicate OptimisedRun(env: Env, code: seq<Word>, trace: seq<State>) {
    && |trace| == |code| + 1
    && forall i | 0 <= i < |code| ::
         Agree(Everything - DeadOf(code, i), trace[i + 1], Step(env, code[i], trace[i]))
  }

  lemma {:induction false} AgreeTransitive(a: set<nat>, r: State, s: State, t: State)
    requires Agree(a, r, s) && Agree(a, s, t)
    ensures Agree(a, r, t)
  {
    forall i | i in a ensures SameResource(i, r, t) {
      assert SameResource(i, r, s) && SameResource(i, s, t);
    }
  }

  lemma {:induction false} RunBlockSplit(env: Env, code: seq<Word>, i: nat, s: State)
    requires i < |code|
    ensures RunBlock(env, code[..i + 1], s) == Step(env, code[i], RunBlock(env, code[..i], s))
    decreases i
  {
    if i == 0 {
      assert code[..1][1..] == [];
    } else {
      assert code[..i + 1][1..] == code[1..][..i];
      assert code[..i][1..] == code[1..][..i - 1];
      RunBlockSplit(env, code[1..], i - 1, Step(env, code[0], s));
    }
  }

  lemma {:induction false} OptimisedPrefix(env: Env, code: seq<Word>, trace: seq<State>, i: nat)
    requires OptimisedRun(env, code, trace) && i <= |code|
    ensures Agree(LiveSetAt(EffectsOf(code), i), trace[i], RunBlock(env, code[..i], trace[0]))
  {
    if i == 0 {
      AgreeSelf(LiveSetAt(EffectsOf(code), 0), trace[0]);
    } else {
      OptimisedPrefix(env, code, trace, i - 1);
      var fx := AnalyzeInsn(code[i - 1]);
      var live := LiveSetAt(EffectsOf(code), i);
      var s := RunBlock(env, code[..i - 1], trace[0]);
      AgreeSubset(Before(fx, live), Before(fx, live) + {LR, CTR}, trace[i - 1], s);
      assert SameResource(LR, trace[i - 1], s);
      LiveSetBound(EffectsOf(code), i);
      StepKeepsAgreement(env, code[i - 1], live, trace[i - 1], s);
      DeadIsNotLive(code, i - 1);
      var next := Step(env, code[i - 1], trace[i - 1]);
      AgreeSubset(live, Everything - DeadOf(code, i - 1), trace[i], next);
      AgreeTransitive(live, trace[i], next, Step(env, code[i - 1], s));
      RunBlockSplit(env, code, i - 1, trace[0]);
    }
  }

  /** Dropping or scrambling every write flagged dead, all at once, keeps the final state. */
  lemma {:induction false} DeadWriteElimination(env: Env, code: seq<Word>, trace: seq<State>)
    requires OptimisedRun(env, code, trace)
    ensures trace[|code|] == RunBlock(env, code, trace[0])
  {
    OptimisedPrefix(env, code, trace, |code|);
    assert code[..|code|] == code;
    AgreeOnEverything(trace[|code|], RunBlock(env, code, trace[0]));
  }
}
