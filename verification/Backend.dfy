/** The executing backend as an object: its methods update the CPU in place. */
module Backend {
  import opened Words
  import opened LiveSets
  import opened Arithmetic
  import opened Templates
  import opened Effects
  import opened Machine
  import opened Soundness
  import opened Results

  class ConcreteSemantics {
    const gpr: array<Word>
    var cr: Word
    var xer: Word
    var lr: Word
    var ctr: Word
    var pc: Word
    var rest: Untracked

    ghost predicate Valid()
      reads this
    {
      gpr.Length == 32
    }

    ghost function Cpu(): State
      requires Valid()
      reads this, gpr
    {
      State(pc, gpr[..], cr, xer, lr, ctr, rest)
    }

    constructor (s: State)
      ensures Valid() && fresh(gpr) && Cpu() == s
    {
      gpr := new Word[32](i requires 0 <= i < 32 => s.gpr[i]);
      cr, xer, lr, ctr, pc, rest := s.cr, s.xer, s.lr, s.ctr, s.pc, s.rest;
      new;
      assert gpr[..] == s.gpr;
    }

    method ReadAll(env: Env, es: seq<Exp>) returns (vs: seq<Word>)
      requires Valid()
      ensures vs == EvalAll(env, es, Cpu())
    {
      var s := State(pc, gpr[..], cr, xer, lr, ctr, rest);
      vs := [];
      for i := 0 to |es|
        invariant s == Cpu()
        invariant vs + EvalAll(env, es[i..], s) == EvalAll(env, es, s)
      {
        vs := vs + [Eval(env, es[i], s)];
        assert es[i..][1..] == es[i + 1..];
      }
    }

    method WriteXerCa(carry: bool)
      requires Valid()
      modifies this`xer
      ensures Cpu() == old(Cpu()).(xer := PutBit(old(xer), 29, carry))
      ensures BitShows(xer, old(xer), 29, carry)
    {
      PutsShow(xer, 0, 0, 29, carry, 0, 0);
      if carry {
        xer := Logic(Or, xer, SingleBit(29));
      } else {
        xer := Logic(Andc, xer, SingleBit(29));
      }
    }

    /** Clears CR0, then sets LT, GT or EQ, then copies the summary overflow bit. */
    method WriteCr0(r: Word)
      requires Valid()
      modifies this`cr
      ensures Cpu() == old(Cpu()).(
                         cr := PutField(old(cr), 0, Compared(r >= 0x8000_0000, 0 < r < 0x8000_0000, xer)))
      ensures FieldShows(cr, old(cr), 0, Signed(r) < 0, Signed(r) > 0, r == 0, BitAt(xer, 31))
    {
      ComparedShows(cr, 0, r >= 0x8000_0000, 0 < r < 0x8000_0000, xer);
      cr := Logic(And, cr, 0x0fff_ffff);
      if r == 0 {
        cr := Logic(Or, cr, SingleBit(29));
      } else if r >= 0x8000_0000 {
        cr := Logic(Or, cr, SingleBit(31));
      } else {
        cr := Logic(Or, cr, SingleBit(30));
      }
      if BitAt(xer, 31) {
        cr := Logic(Or, cr, SingleBit(28));
      }
      ghost var k := if r == 0 then 1 else if r >= 0x8000_0000 then 3 else 2;
      FlagsInPlace(old(cr), k, BitAt(xer, 31));
    }

    method WriteCrField(f: Field, nibble: nat)
      requires Valid() && nibble < 16
      modifies this`cr
      ensures Cpu() == old(Cpu()).(cr := PutField(old(cr), f, nibble))
      ensures NibbleShows(cr, old(cr), f, nibble)
    {
      PutsShow(cr, f, nibble, 0, false, 0, 0);
      cr := Logic(Or, Logic(Andc, cr, FieldMask(f)), FieldValue(f, nibble));
    }

    method WriteCrFieldSigned(f: Field, a: Word, b: Word)
      requires Valid()
      modifies this`cr
      ensures Cpu() == old(Cpu()).(
                         cr := PutField(old(cr), f, Compared(Signed(a) < Signed(b), Signed(a) > Signed(b), xer)))
      ensures FieldShows(cr, old(cr), f, Signed(a) < Signed(b), Signed(a) > Signed(b), a == b, BitAt(xer, 31))
    {
      ComparedShows(cr, f, Signed(a) < Signed(b), Signed(a) > Signed(b), xer);
      var c: nat;
      if Signed(a) < Signed(b) {
        c := 8;
      } else if Signed(a) > Signed(b) {
        c := 4;
      } else {
        c := 2;
      }
      if BitAt(xer, 31) {
        c := c + 1;
      }
      WriteCrField(f, c);
    }

    method WriteCrFieldUnsigned(f: Field, a: Word, b: Word)
      requires Valid()
      modifies this`cr
      ensures Cpu() == old(Cpu()).(cr := PutField(old(cr), f, Compared(a < b, a > b, xer)))
      ensures FieldShows(cr, old(cr), f, a < b, a > b, a == b, BitAt(xer, 31))
    {
      ComparedShows(cr, f, a < b, a > b, xer);
      var c: nat;
      if a < b {
        c := 8;
      } else if a > b {
        c := 4;
      } else {
        c := 2;
      }
      if BitAt(xer, 31) {
        c := c + 1;
      }
      WriteCrField(f, c);
    }

    method WriteCrBit(bit: CrBitNo, val: bool)
      requires Valid()
      modifies this`cr
      ensures Cpu() == old(Cpu()).(cr := PutBit(old(cr), 31 - bit, val))
      ensures BitShows(cr, old(cr), 31 - bit, val)
    {
      PutsShow(cr, 0, 0, 31 - bit, val, 0, 0);
      if val {
        cr := Logic(Or, cr, SingleBit(31 - bit));
      } else {
        cr := Logic(Andc, cr, SingleBit(31 - bit));
      }
    }

    method WriteCrMasked(src: Word, mask: Word)
      requires Valid()
      modifies this`cr
      ensures Cpu() == old(Cpu()).(cr := PutMasked(old(cr), src, mask))
      ensures MaskShows(cr, old(cr), src, mask)
    {
      PutsShow(cr, 0, 0, 0, false, src, mask);
      cr := Logic(Or, Logic(And, src, mask), Logic(Andc, cr, mask));
    }

    method WriteGpr(r: Reg, v: Word)
      requires Valid()
      modifies gpr
      ensures Cpu() == old(Cpu()).(gpr := old(gpr[..])[r := v])
    {
      gpr[r] := v;
    }

    method PerformCompare(env: Env, opc: Word, call: Call, v: seq<Word>)
      requires Valid() && |v| == |call.Operands()| && call.CopiesSo()
      modifies this`cr
      ensures Cpu() == RunCall(env, opc, call, v, old(Cpu()))
    {
      hide FieldShows, BitShows, MaskShows, NibbleShows, PutField, PutBit, PutMasked, Compared, BitAt;
      match call
      case WriteCr0(_) => WriteCr0(v[0]);
      case WriteCrFieldSigned(f, _, _) => WriteCrFieldSigned(f, v[0], v[1]);
      case WriteCrFieldUnsigned(f, _, _) => WriteCrFieldUnsigned(f, v[0], v[1]);
      case FpuCompareTo(f) => WriteCrField(f, env.fpuCr(opc, rest) % 16);
    }

    method PerformField(env: Env, opc: Word, call: Call, v: seq<Word>)
      requires Valid() && |v| == |call.Operands()|
      requires call.WriteCrField? || call.FpuRecord?
      modifies this`cr
      ensures Cpu() == RunCall(env, opc, call, v, old(Cpu()))
    {
      hide FieldShows, BitShows, MaskShows, NibbleShows, PutField, PutBit, PutMasked, Compared, BitAt;
      if call.FpuRecord? {
        WriteCrField(1, env.fpuCr(opc, rest) % 16);
      } else {
        WriteCrField(call.f, v[0] % 16);
      }
    }

    method PerformBits(env: Env, opc: Word, call: Call, v: seq<Word>)
      requires Valid() && |v| == |call.Operands()|
      requires call.WriteCrBit? || call.WriteCrMasked?
      modifies this`cr
      ensures Cpu() == RunCall(env, opc, call, v, old(Cpu()))
    {
      hide FieldShows, BitShows, MaskShows, NibbleShows, PutField, PutBit, PutMasked, Compared, BitAt;
      if call.WriteCrBit? {
        WriteCrBit(call.bit, v[0] != 0);
      } else {
        WriteCrMasked(v[0], call.mask);
      }
    }

    method Perform(env: Env, opc: Word, call: Call, v: seq<Word>)
      requires Valid() && |v| == |call.Operands()|
      modifies this, gpr
      ensures Cpu() == RunCall(env, opc, call, v, old(Cpu()))
    {
      if call.CopiesSo() {
        PerformCompare(env, opc, call, v);
      } else if call.WriteCrField? || call.FpuRecord? {
        PerformField(env, opc, call, v);
      } else if call.WriteCrBit? || call.WriteCrMasked? {
        PerformBits(env, opc, call, v);
      } else {
        match call
        case WriteGpr(r, _) => WriteGpr(r, v[0]);
        case WriteXerCa(_) => WriteXerCa(v[0] != 0);
        case WriteXer(_) => xer := v[0];
        case WriteLr(_) => lr := v[0];
        case WriteCtr(_) => ctr := v[0];
        case WriteMem(_, _, size) => rest := rest.(mem := StoreBytes(rest.mem, v[0], v[1], size));
        case FpuAccess(_, _, _) => rest := env.fpu(opc, v[0], rest);
        case _ =>
      }
    }

    /** Runs one instruction that has a full template. */
    method Execute(env: Env, opc: Word)
      requires Valid() && PlainTemplate(TemplateOf(opc))
      modifies this, gpr
      ensures Cpu() == Step(env, opc, old(Cpu()))
    {
      var t := TemplateOf(opc);
      ghost var entry := Cpu();
      var operands: seq<seq<Word>> := [];
      for i := 0 to |t|
        invariant Cpu() == entry && |operands| == i
        invariant forall k | 0 <= k < i :: operands[k] == EvalAll(env, t[k].Operands(), entry)
      {
        var v := ReadAll(env, t[i].Operands());
        operands := operands + [v];
      }
      for i := 0 to |t|
        invariant RunFrom(env, opc, t[i..], entry, Cpu()) == RunFrom(env, opc, t, entry, entry)
      {
        Perform(env, opc, t[i], operands[i]);
        assert t[i..][1..] == t[i + 1..];
      }
      pc := Next(pc);
      PlainIsNotBranch(opc);
      PcIsKept(env, opc, t, entry, entry);
    }
  }

  lemma {:induction false} PlainIsNotBranch(opc: Word)
    requires PlainTemplate(TemplateOf(opc))
    ensures TemplateOf(opc) != EVERYTHING && !IsBranch(opc)
  {
    TemplateKinds(opc);
    assert !DoEverything.Plain() && !Call.Branch.Plain();
    assert DoEverything in EVERYTHING;
  }

  lemma {:induction false} PcIsKept(env: Env, opc: Word, t: Template, entry: State, s: State)
    ensures RunFrom(env, opc, t, entry, s).pc == s.pc
    decreases t
  {
    if t != [] {
      PcIsKept(env, opc, t[1..], entry, RunCall(env, opc, t[0], EvalAll(env, t[0].Operands(), entry), s));
    }
  }

  /** CR0 cleared, then one of LT, GT, EQ set, then SO copied. */
  function Flagged(cr: Word, k: nat, so: bool): Word
    requires 1 <= k <= 3
  {
    var base := Logic(Or, Logic(And, cr, 0x0fff_ffff), SingleBit(28 + k));
    if so then Logic(Or, base, SingleBit(28)) else base
  }

  /** Clearing CR0 and setting flags one after the other is one field write. */
  lemma {:induction false} FlagsInPlace(cr: Word, k: nat, so: bool)
    requires 1 <= k <= 3
    ensures Flagged(cr, k, so) == PutField(cr, 0, Pow2(k) + (if so then 1 else 0))
  {
    assert Pow2(1) == 2 && Pow2(2) == 4 && Pow2(3) == 8;
    var low := Logic(And, cr, 0x0fff_ffff);
    var base := Logic(Or, low, SingleBit(28 + k));
    var full := Flagged(cr, k, so);
    var n := Pow2(k) + (if so then 1 else 0);
    forall i: nat | i < 32 ensures BitAt(full, i) == BitAt(PutField(cr, 0, n), i) {
      PutFieldBits(cr, 0, n, i);
      LogicBit(And, cr, 0x0fff_ffff, i);
      LogicBit(Or, low, SingleBit(28 + k), i);
      LogicBit(Or, base, SingleBit(28), i);
      SingleBitBits(28 + k);
      SingleBitBits(28);
      LowMaskBit(i);
      if 28 <= i {
        NibbleBit(k, so, i - 28);
      }
    }
    WordsEqual(full, PutField(cr, 0, n));
  }

  lemma {:induction false} LowMaskBit(i: nat)
    ensures BitAt(0x0fff_ffff, i) == (i < 28)
  {
    Pow2Values();
    OnesValue(28);
    OnesBit(28, i);
  }

  lemma {:induction false} NibbleBit(k: nat, so: bool, i: nat)
    requires 1 <= k <= 3 && i < 4
    ensures BitAt(Pow2(k) + (if so then 1 else 0), i) == (i == k || (so && i == 0))
  {
    assert Pow2(1) == 2 && Pow2(2) == 4 && Pow2(3) == 8;
    assert i == 0 || i == 1 || i == 2 || i == 3;
  }
}
