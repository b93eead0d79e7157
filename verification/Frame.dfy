/** The executing backend stays inside the recorded write set. */
module Frame {
  import opened Words
  import opened LiveSets
  import opened Arithmetic
  import opened Templates
  import opened Effects
  import opened Machine
  import opened Soundness

  /** Every tracked resource outside w is as it was. */
  ghost predicate Keeps(w: set<nat>, s: State, t: State) {
    forall i: nat | i < RESOURCES && i !in w :: SameResource(i, s, t)
  }

  lemma {:induction false} FieldFrame(f: Field, c: nat, s: State)
    requires c < 16
    ensures Keeps(FieldBits(f), s, s.(cr := PutField(s.cr, f, c)))
  {
    var t := s.(cr := PutField(s.cr, f, c));
    forall i: nat | i < RESOURCES && i !in FieldBits(f) ensures SameResource(i, s, t) {
      if 32 <= i < 64 {
        PutFieldBits(s.cr, f, c, i - 32);
      }
    }
  }

  lemma {:induction false} CompareFrame(env: Env, opc: Word, call: Call, v: seq<Word>, s: State)
    requires |v| == |call.Operands()| && call.CopiesSo()
    ensures Keeps(CallWrites(call), s, RunCall(env, opc, call, v, s))
  {
    match call
    case WriteCr0(_) => FieldFrame(0, Compared(v[0] >= 0x8000_0000, 0 < v[0] < 0x8000_0000, s.xer), s);
    case WriteCrFieldSigned(f, _, _) =>
      FieldFrame(f, Compared(Signed(v[0]) < Signed(v[1]), Signed(v[0]) > Signed(v[1]), s.xer), s);
    case WriteCrFieldUnsigned(f, _, _) => FieldFrame(f, Compared(v[0] < v[1], v[0] > v[1], s.xer), s);
    case FpuCompareTo(f) => FieldFrame(f, env.fpuCr(opc, s.rest) % 16, s);
  }

  lemma {:induction false} CallFrame(env: Env, opc: Word, call: Call, v: seq<Word>, s: State)
    requires |v| == |call.Operands()|
    ensures Keeps(CallWrites(call), s, RunCall(env, opc, call, v, s))
  {
    hide PutField, PutBit, PutMasked, Compared, BitAt;
    if call.CopiesSo() {
      CompareFrame(env, opc, call, v, s);
    } else {
      match call
      case WriteCrField(f, _) => FieldFrame(f, v[0] % 16, s);
      case FpuRecord => FieldFrame(1, env.fpuCr(opc, s.rest) % 16, s);
      case WriteXerCa(_) => CarryFrame(v[0] != 0, s);
      case WriteCrBit(bit, _) => CrBitFrame(bit, v[0] != 0, s);
      case WriteCrMasked(_, mask) => MaskedFrame(v[0], mask, s);
      case _ =>
    }
  }

  lemma {:induction false} CallMemoryFrame(env: Env, opc: Word, call: Call, v: seq<Word>, s: State)
    requires |v| == |call.Operands()|
    ensures !call.Stores() && !call.FpuAccess? ==> RunCall(env, opc, call, v, s).rest == s.rest
  {
  }

  lemma {:induction false} CarryFrame(b: bool, s: State)
    ensures Keeps({XER_CA}, s, s.(xer := PutBit(s.xer, 29, b)))
  {
    var t := s.(xer := PutBit(s.xer, 29, b));
    forall i: nat | i < RESOURCES && i != XER_CA ensures SameResource(i, s, t) {
      if 64 <= i < 67 {
        PutBitBits(s.xer, 29, b, i - 64 + 29);
      }
    }
  }

  lemma {:induction false} CrBitFrame(bit: CrBitNo, b: bool, s: State)
    ensures Keeps({63 - bit}, s, s.(cr := PutBit(s.cr, 31 - bit, b)))
  {
    var t := s.(cr := PutBit(s.cr, 31 - bit, b));
    forall i: nat | i < RESOURCES && i != 63 - bit ensures SameResource(i, s, t) {
      if 32 <= i < 64 {
        PutBitBits(s.cr, 31 - bit, b, i - 32);
      }
    }
  }

  lemma {:induction false} MaskedFrame(v: Word, mask: Word, s: State)
    ensures Keeps(CrMembers(mask), s, s.(cr := PutMasked(s.cr, v, mask)))
  {
    var t := s.(cr := PutMasked(s.cr, v, mask));
    forall i: nat | i < RESOURCES && i !in CrMembers(mask) ensures SameResource(i, s, t) {
      if 32 <= i < 64 {
        PutMaskedBits(s.cr, v, mask, i - 32);
      }
    }
  }

  lemma {:induction false} KeepsTransitive(w: set<nat>, v: set<nat>, r: State, s: State, t: State)
    requires Keeps(w, r, s) && Keeps(v, s, t)
    ensures Keeps(w + v, r, t)
  {
    forall i: nat | i < RESOURCES && i !in w + v ensures SameResource(i, r, t) {
      assert SameResource(i, r, s) && SameResource(i, s, t);
    }
  }

  ghost predicate TouchesMemory(t: Template) {
    exists c | c in t :: c.Stores() || c.FpuAccess?
  }

  lemma {:induction false} TemplateFrame(env: Env, opc: Word, t: Template, entry: State, s: State)
    ensures Keeps(TemplateWrites(t), s, RunFrom(env, opc, t, entry, s))
    ensures !TouchesMemory(t) ==> RunFrom(env, opc, t, entry, s).rest == s.rest
    decreases t
  {
    if t != [] {
      var v := EvalAll(env, t[0].Operands(), entry);
      CallFrame(env, opc, t[0], v, s);
      CallMemoryFrame(env, opc, t[0], v, s);
      var r := RunCall(env, opc, t[0], v, s);
      TemplateFrame(env, opc, t[1..], entry, r);
      KeepsTransitive(CallWrites(t[0]), TemplateWrites(t[1..]), s, r, RunFrom(env, opc, t, entry, s));
      assert TouchesMemory(t[1..]) ==> TouchesMemory(t);
    }
  }

  lemma {:induction false} BranchFrame(opc: Word, s: State)
    requires IsBranch(opc)
    ensures Keeps(BranchWrites(opc), s, StepBranch(opc, s))
    ensures StepBranch(opc, s).rest == s.rest
  {
  }

  /** One instruction changes only tracked resources of its recorded write set, and a
      template without a store or a floating-point access changes nothing untracked
      besides XER bits and the program counter. */
  lemma {:induction false} StepFrame(env: Env, opc: Word, s: State)
    requires !AnalyzeInsn(opc).isEverything
    ensures Keeps(Members(AnalyzeInsn(opc).write), s, Step(env, opc, s))
    ensures !TouchesMemory(TemplateOf(opc)) ==> Step(env, opc, s).rest == s.rest
    ensures !AnalyzeInsn(opc).isBranch ==> Step(env, opc, s).pc == Next(s.pc)
  {
    AnalyzeSets(opc);
    if IsBranch(opc) {
      BranchSets(opc);
      BranchFrame(opc, s);
    } else {
      TemplateFrame(env, opc, TemplateOf(opc), s, s);
      var t := RunFrom(env, opc, TemplateOf(opc), s, s);
      forall i: nat | i < RESOURCES && i !in TemplateWrites(TemplateOf(opc))
        ensures SameResource(i, s, t.(pc := Next(s.pc))) {
        assert SameResource(i, s, t);
      }
    }
  }
}
