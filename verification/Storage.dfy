/** Loads and stores: addresses, bytes, registers, and what is recorded for them. */
module Storage {
  import opened Words
  import opened LiveSets
  import opened Arithmetic
  import opened Templates
  import opened Effects
  import opened Machine
  import opened Results
  import opened Comparing
  import opened Instructions

  // -------------------------------------------------------------- memory

  function At(ea: Word, i: nat): Word { (ea + i) % TWO32 }

  /** The bytes of memory from ea on as a number, most significant first. */
  function BigEndian(mem: map<Word, Byte>, ea: Word, size: nat): nat
    requires size == 1 || size == 2 || size == 4
  {
    if size == 1 then ByteAt(mem, ea)
    else if size == 2 then 0x100 * ByteAt(mem, ea) + ByteAt(mem, At(ea, 1))
    else 0x100_0000 * ByteAt(mem, ea) + 0x1_0000 * ByteAt(mem, At(ea, 1))
         + 0x100 * ByteAt(mem, At(ea, 2)) + ByteAt(mem, At(ea, 3))
  }

  lemma {:induction false} LoadIsBigEndian(mem: map<Word, Byte>, ea: Word, size: nat)
    requires size == 1 || size == 2 || size == 4
    ensures LoadBytes(mem, ea, size) == BigEndian(mem, ea, size) < TWO32
  {
    hide ByteAt;
    assert At(ea, 0) == ea;
    assert LoadBytes(mem, ea, 1) == 0x100 * LoadBytes(mem, ea, 0) + ByteAt(mem, At(ea, 0));
    if size >= 2 {
      assert LoadBytes(mem, ea, 2) == 0x100 * LoadBytes(mem, ea, 1) + ByteAt(mem, At(ea, 1));
    }
    if size == 4 {
      assert LoadBytes(mem, ea, 3) == 0x100 * LoadBytes(mem, ea, 2) + ByteAt(mem, At(ea, 2));
      assert LoadBytes(mem, ea, 4) == 0x100 * LoadBytes(mem, ea, 3) + ByteAt(mem, At(ea, 3));
    }
  }

  /** How far addr is behind ea. */
  function Offset(ea: Word, addr: Word): nat { (addr - ea) % TWO32 }

  /** Digit i, from the least significant, of v in base 256. */
  function ByteOf(v: nat, i: nat): nat {
    if i == 0 then v % 0x100 else ByteOf(v / 0x100, i - 1)
  }

  /** The size bytes from ea on hold v, most significant first, and no other byte changed. */
  ghost predicate Stored(after: map<Word, Byte>, before: map<Word, Byte>, ea: Word, v: nat, size: nat) {
    forall addr: Word :: ByteAt(after, addr)
      == (if Offset(ea, addr) < size then ByteOf(v, size - 1 - Offset(ea, addr)) else ByteAt(before, addr))
  }

  lemma {:induction false} StoreByte(mem: map<Word, Byte>, ea: Word, v: nat, size: nat, addr: Word)
    requires size <= 0x100
    ensures ByteAt(StoreBytes(mem, ea, v, size), addr)
      == (if Offset(ea, addr) < size then ByteOf(v, size - 1 - Offset(ea, addr)) else ByteAt(mem, addr))
    decreases size
  {
    if size > 0 {
      var last: Word := (size - 1) % TWO32;
      assert last == size - 1;
      StoreByte(mem[Add(ea, last) := v % 0x100], ea, v / 0x100, size - 1, addr);
      OffsetOfLast(ea, addr, last);
    }
  }

  lemma {:induction false} OffsetOfLast(ea: Word, addr: Word, last: Word)
    ensures Offset(ea, addr) == last <==> addr == Add(ea, last)
  {
  }

  lemma {:induction false} StoreIsBigEndian(mem: map<Word, Byte>, ea: Word, v: nat, size: nat)
    requires size <= 0x100
    ensures Stored(StoreBytes(mem, ea, v, size), mem, ea, v, size)
  {
    hide ByteAt, StoreBytes, ByteOf, Offset;
    forall addr: Word
      ensures ByteAt(StoreBytes(mem, ea, v, size), addr)
        == (if Offset(ea, addr) < size then ByteOf(v, size - 1 - Offset(ea, addr)) else ByteAt(mem, addr)) {
      StoreByte(mem, ea, v, size, addr);
    }
  }

  lemma {:induction false} OffsetAt(ea: Word, i: nat)
    requires i < 4
    ensures Offset(ea, At(ea, i)) == i
  {
    if ea + i >= TWO32 {
      Unique(ea + i, TWO32, 1, ea + i - TWO32);
      Unique(i - TWO32, TWO32, -1, i);
    }
  }

  lemma {:induction false} Digits(v: nat)
    ensures v % 0x1_0000 == 0x100 * ByteOf(v, 1) + ByteOf(v, 0)
    ensures v % TWO32 == 0x100_0000 * ByteOf(v, 3) + 0x1_0000 * ByteOf(v, 2) + 0x100 * ByteOf(v, 1) + ByteOf(v, 0)
  {
    var v1 := v / 0x100;
    var v2 := v1 / 0x100;
    var v3 := v2 / 0x100;
    var d0, d1, d2, d3 := v % 0x100, v1 % 0x100, v2 % 0x100, v3 % 0x100;
    FourDigits(v, v1, v2, v3);
    Unique(v, 0x1_0000, v2, 0x100 * d1 + d0);
    Unique(v, TWO32, v3 / 0x100, 0x100_0000 * d3 + 0x1_0000 * d2 + 0x100 * d1 + d0);
  }

  lemma {:induction false} FourDigits(v: nat, v1: nat, v2: nat, v3: nat)
    requires v1 == v / 0x100 && v2 == v1 / 0x100 && v3 == v2 / 0x100
    ensures ByteOf(v, 0) == v % 0x100 && ByteOf(v, 1) == v1 % 0x100
    ensures ByteOf(v, 2) == v2 % 0x100 && ByteOf(v, 3) == v3 % 0x100
  {
    assert ByteOf(v, 2) == ByteOf(v1, 1) == ByteOf(v2, 0);
    assert ByteOf(v, 3) == ByteOf(v1, 2) == ByteOf(v2, 1) == ByteOf(v3, 0);
  }

  /** Loading what was stored, at the same address and size, gives it back, truncated. */
  lemma {:induction false} StoreThenLoad(mem: map<Word, Byte>, after: map<Word, Byte>, ea: Word, v: nat, size: nat)
    requires (size == 1 || size == 2 || size == 4) && Stored(after, mem, ea, v, size)
    ensures BigEndian(after, ea, size) == v % (if size == 1 then 0x100 else if size == 2 then 0x1_0000 else TWO32)
  {
    hide ByteAt, Offset, ByteOf, At;
    assert ByteOf(v, 0) == v % 0x100 by { LowDigit(v); }
    Digits(v);
    NothingAdded(ea);
    OffsetAt(ea, 0);
    OffsetAt(ea, 1);
    OffsetAt(ea, 2);
    OffsetAt(ea, 3);
  }

  lemma {:induction false} LowDigit(v: nat)
    ensures ByteOf(v, 0) == v % 0x100
  {
  }

  lemma {:induction false} NothingAdded(ea: Word)
    ensures At(ea, 0) == ea
  {
  }

  // ------------------------------------------------------- single accesses

  /** The number of an access: the architecture gives immediate form k the main opcode 32 + k,
      and the indexed form extension 23 + 32 * k. */
  function NumberOf(opc: Word): int {
    if MainOpcode(opc) == 31 then
      if ExtOpcode(opc) % 32 == 23 then ExtOpcode(opc) / 32 else -1
    else MainOpcode(opc) - 32
  }

  /** 14 and 15 are lmw and stmw, or strings. */
  predicate IsAccess(opc: Word) {
    0 <= NumberOf(opc) < 24 && NumberOf(opc) != 14 && NumberOf(opc) != 15
  }

  /** Odd numbers update rA.  By pairs: lwz lbz stw stb lhz lha sth, then lfs lfd stfs stfd. */
  predicate Updates(k: int) { k % 2 == 1 }
  predicate IsStore(k: int) { k / 2 in {2, 3, 6, 10, 11} }
  predicate IsFloat(k: int) { k / 2 >= 8 }
  predicate IsAlgebraic(k: int) { k / 2 == 5 }
  function SizeOf(k: int): (n: nat)
    ensures n == 1 || n == 2 || n == 4
  {
    if k / 2 in {0, 2} then 4 else if k / 2 in {1, 3} then 1 else 2
  }

  function EffectiveAddress(opc: Word, s: State): Word {
    var base := if Updates(NumberOf(opc)) then s.gpr[FieldA(opc)] else BaseOf(opc, s);
    (base + (if MainOpcode(opc) == 31 then s.gpr[FieldB(opc)] else Immediate(opc))) % TWO32
  }

  ghost function AddressReads(opc: Word): set<nat> {
    (if Updates(NumberOf(opc)) then {FieldA(opc) as nat} else BaseReads(opc))
    + (if MainOpcode(opc) == 31 then {FieldB(opc) as nat} else {})
  }

  function AddressExp(opc: Word): Exp {
    Sum(if Updates(NumberOf(opc)) then A(opc) else AOrZero(opc),
        if MainOpcode(opc) == 31 then B(opc) else Imm(SImm(opc)))
  }

  lemma {:induction false} AddressValue(env: Env, opc: Word, s: State)
    ensures Eval(env, AddressExp(opc), s) == EffectiveAddress(opc, s)
    ensures ExpReads(AddressExp(opc)) == AddressReads(opc) && !ExpLoads(AddressExp(opc))
  {
    hide Eval, ExpReads, ExpLoads, BaseOf, BaseReads, Immediate, SImm, NumberOf, MainOpcode;
    var base := if Updates(NumberOf(opc)) then A(opc) else AOrZero(opc);
    var offset := if MainOpcode(opc) == 31 then B(opc) else Imm(SImm(opc));
    BaseValue(env, opc, s);
    OperandValues(env, opc, s);
    BinaryValue(env, Plus, base, offset, s);
    SumReads(base, offset);
    RegisterOperands(opc);
    SImmIsImmediate(opc);
    SumModulo(Eval(env, base, s), Immediate(opc));
  }

  /** The backend call of an access. */
  function AccessCall(opc: Word): Call
    requires IsAccess(opc)
  {
    var k, e := NumberOf(opc), AddressExp(opc);
    if IsFloat(k) then FpuAccess(e, !IsStore(k), IsStore(k))
    else if IsStore(k) then WriteMem(e, S(opc), SizeOf(k))
    else WriteGpr(FieldD(opc), if IsAlgebraic(k) then LoadSigned(e, 2) else Load(e, SizeOf(k)))
  }

  function AccessCalls(opc: Word): Template
    requires IsAccess(opc)
  {
    if Updates(NumberOf(opc)) then [AccessCall(opc), WriteGpr(FieldA(opc), AddressExp(opc))] else [AccessCall(opc)]
  }

  lemma {:induction false} ImmediateAccess(opc: Word)
    requires IsAccess(opc) && MainOpcode(opc) != 31
    ensures TemplateOf(opc) == AccessCalls(opc)
  {
  }

  lemma {:induction false} IndexedAccess(opc: Word)
    requires IsAccess(opc) && MainOpcode(opc) == 31
    ensures Group2(opc) == AccessCalls(opc)
  {
    var k := NumberOf(opc);
    assert ExtOpcode(opc) == 32 * k + 23;
  }

  lemma {:induction false} AccessTemplate(opc: Word)
    requires IsAccess(opc)
    ensures TemplateOf(opc) == AccessCalls(opc)
  {
    hide AccessCalls, IsAccess, Group2;
    if MainOpcode(opc) == 31 {
      IndexedAccess(opc);
      assert TemplateOf(opc) == Group2(opc);
    } else {
      ImmediateAccess(opc);
    }
  }

  // ----------------------------------------------------- what accesses do

  /** What an integer load brings: lha extends the sign of its half word. */
  function Loaded(k: int, mem: map<Word, Byte>, ea: Word): (v: Word)
  {
    var x := BigEndian(mem, ea, if IsAlgebraic(k) then 2 else SizeOf(k));
    BigEndianFits(mem, ea);
    if IsAlgebraic(k) && x >= 0x8000 then x + 0xffff_0000 else x
  }

  lemma {:induction false} BigEndianFits(mem: map<Word, Byte>, ea: Word)
    ensures BigEndian(mem, ea, 1) < 0x100 && BigEndian(mem, ea, 2) < 0x1_0000 && BigEndian(mem, ea, 4) < TWO32
  {
  }

  lemma {:induction false} LoadedValue(env: Env, opc: Word, s: State)
    requires IsAccess(opc) && !IsStore(NumberOf(opc)) && !IsFloat(NumberOf(opc))
    ensures var k, e := NumberOf(opc), AddressExp(opc);
      Eval(env, if IsAlgebraic(k) then LoadSigned(e, 2) else Load(e, SizeOf(k)), s)
      == Loaded(k, s.rest.mem, EffectiveAddress(opc, s))
  {
    hide AddressExp, EffectiveAddress, NumberOf, BigEndian, LoadBytes, ExtendSignHalf;
    var k, e, mem, ea := NumberOf(opc), AddressExp(opc), s.rest.mem, EffectiveAddress(opc, s);
    AddressValue(env, opc, s);
    BigEndianFits(mem, ea);
    LoadIsBigEndian(mem, ea, if IsAlgebraic(k) then 2 else SizeOf(k));
    HalfExtended(BigEndian(mem, ea, 2));
  }

  lemma {:induction false} HalfExtended(x: nat)
    requires x < 0x1_0000
    ensures ExtendSignHalf(x) == if x >= 0x8000 then x + 0xffff_0000 else x
  {
    FilledTop(x, 16);
    Pow2Values();
    assert Pow2(16) == 2 * Pow2(15);
  }

  /** Registers after an access: the loaded value, then the updated address. */
  function RegistersAfter(opc: Word, s: State): Gprs
    requires IsAccess(opc)
  {
    var k, ea := NumberOf(opc), EffectiveAddress(opc, s);
    var g := if IsStore(k) || IsFloat(k) then s.gpr else s.gpr[FieldD(opc) := Loaded(k, s.rest.mem, ea)];
    if Updates(k) then g[FieldA(opc) := ea] else g
  }

  /** Memory and floating point after an access. */
  ghost predicate RestAfter(env: Env, opc: Word, s: State, rest: Untracked)
    requires IsAccess(opc)
  {
    var k, ea := NumberOf(opc), EffectiveAddress(opc, s);
    if IsFloat(k) then rest == env.fpu(opc, ea, s.rest)
    else if IsStore(k) then
      rest == s.rest.(mem := rest.mem) && Stored(rest.mem, s.rest.mem, ea, s.gpr[FieldD(opc)], SizeOf(k))
    else rest == s.rest
  }

  lemma {:induction false} AccessCallRuns(env: Env, opc: Word, s: State)
    requires IsAccess(opc)
    ensures var call, k, ea := AccessCall(opc), NumberOf(opc), EffectiveAddress(opc, s);
      var t := RunCall(env, opc, call, EvalAll(env, call.Operands(), s), s);
      && t == s.(gpr := if IsStore(k) || IsFloat(k) then s.gpr else s.gpr[FieldD(opc) := Loaded(k, s.rest.mem, ea)],
                 rest := t.rest)
      && RestAfter(env, opc, s, t.rest)
  {
    hide AddressExp, EffectiveAddress, NumberOf, Eval, Stored, StoreBytes, Loaded;
    var k, e := NumberOf(opc), AddressExp(opc);
    AddressValue(env, opc, s);
    if IsFloat(k) {
      OneValue(env, e, s);
    } else if IsStore(k) {
      TwoValues(env, e, S(opc), s);
      OperandValues(env, opc, s);
      StoreIsBigEndian(s.rest.mem, EffectiveAddress(opc, s), s.gpr[FieldD(opc)], SizeOf(k));
    } else {
      LoadedValue(env, opc, s);
      OneValue(env, if IsAlgebraic(k) then LoadSigned(e, 2) else Load(e, SizeOf(k)), s);
    }
  }

  lemma {:induction false} AccessRuns(env: Env, opc: Word, s: State)
    requires IsAccess(opc)
    ensures var t := RunFrom(env, opc, AccessCalls(opc), s, s);
      t == s.(gpr := RegistersAfter(opc, s), rest := t.rest) && RestAfter(env, opc, s, t.rest)
  {
    hide AddressExp, EffectiveAddress, NumberOf, Eval, RestAfter, Loaded, AccessCall, RunCall, IsStore, IsFloat;
    var e, call := AddressExp(opc), AccessCall(opc);
    var s1 := RunCall(env, opc, call, EvalAll(env, call.Operands(), s), s);
    AccessCallRuns(env, opc, s);
    AddressValue(env, opc, s);
    var t := AccessCalls(opc);
    assert RunFrom(env, opc, t, s, s) == RunFrom(env, opc, t[1..], s, s1);
    if Updates(NumberOf(opc)) {
      var update := WriteGpr(FieldA(opc), e);
      assert t[1..] == [update];
      OneValue(env, e, s);
      UpdateRuns(env, opc, FieldA(opc), e, s, s1);
    } else {
      assert t[1..] == [];
    }
  }

  lemma {:induction false} UpdateRuns(env: Env, opc: Word, r: Reg, e: Exp, entry: State, s: State)
    ensures RunFrom(env, opc, [WriteGpr(r, e)], entry, s) == s.(gpr := s.gpr[r := Eval(env, e, entry)])
  {
    OneValue(env, e, entry);
    assert [WriteGpr(r, e)][1..] == [];
  }

  /** What an access does to registers and memory; nothing else changes. */
  lemma {:induction false} AccessSteps(env: Env, opc: Word, s: State)
    requires IsAccess(opc)
    ensures var t := Step(env, opc, s);
      t == s.(pc := Next(s.pc), gpr := RegistersAfter(opc, s), rest := t.rest) && RestAfter(env, opc, s, t.rest)
  {
    hide TemplateOf, AccessCalls, RegistersAfter, RestAfter, RunFrom, StepBranch, IsBranch;
    AccessTemplate(opc);
    AccessIsPlain(opc);
    AccessRuns(env, opc, s);
  }

  lemma {:induction false} AccessIsPlain(opc: Word)
    requires IsAccess(opc)
    ensures TemplateOf(opc) != EVERYTHING && !IsBranch(opc)
  {
    hide TemplateOf, IsBranch, AddressExp;
    AccessTemplate(opc);
    assert TemplateOf(opc)[0] != DoEverything;
    TemplateKinds(opc);
    assert forall c | c in AccessCalls(opc) :: c != Branch;
  }

  /** What an access is recorded to read and write. */
  lemma {:induction false} AccessRecords(opc: Word)
    requires IsAccess(opc)
    ensures var k := NumberOf(opc);
      Records(opc, AddressReads(opc) + (if IsStore(k) && !IsFloat(k) then {FieldD(opc) as nat} else {}),
              (if IsStore(k) || IsFloat(k) then {} else {FieldD(opc) as nat})
              + (if Updates(k) then {FieldA(opc) as nat} else {}),
              !IsStore(k), IsStore(k))
  {
    hide TemplateOf, IsBranch, Records, AddressReads, NumberOf;
    AccessTemplate(opc);
    AccessIsPlain(opc);
    AccessSets(opc);
    PlainRecords(opc);
  }

  lemma {:induction false} AccessSets(opc: Word)
    requires IsAccess(opc)
    ensures var k, t := NumberOf(opc), AccessCalls(opc);
      && TemplateReads(t) == AddressReads(opc) + (if IsStore(k) && !IsFloat(k) then {FieldD(opc) as nat} else {})
      && TemplateWrites(t) == (if IsStore(k) || IsFloat(k) then {} else {FieldD(opc) as nat})
                              + (if Updates(k) then {FieldA(opc) as nat} else {})
      && TemplateLoads(t) == !IsStore(k) && TemplateStores(t) == IsStore(k)
  {
    hide AddressExp, AddressReads, NumberOf;
    var k, e, call, t := NumberOf(opc), AddressExp(opc), AccessCall(opc), AccessCalls(opc);
    AddressSets(opc);
    RegisterOperands(opc);
    OneOperand(e);
    TwoOperands(e, S(opc));
    LoadOperands(e, SizeOf(k));
    OneCallSets(WriteGpr(FieldA(opc), e));
    OneCallSets(call);
    if Updates(k) {
      assert t[1..] == [WriteGpr(FieldA(opc), e)];
    }
  }

  lemma {:induction false} LoadOperands(e: Exp, size: nat)
    ensures AllReads([Load(e, size)]) == AllReads([LoadSigned(e, 2)]) == ExpReads(e)
    ensures AnyLoads([Load(e, size)]) && AnyLoads([LoadSigned(e, 2)])
  {
    OneOperand(Load(e, size));
    OneOperand(LoadSigned(e, 2));
  }

  lemma {:induction false} AddressSets(opc: Word)
    ensures ExpReads(AddressExp(opc)) == AddressReads(opc) && !ExpLoads(AddressExp(opc))
  {
    hide BaseReads;
    var base := if Updates(NumberOf(opc)) then A(opc) else AOrZero(opc);
    var offset := if MainOpcode(opc) == 31 then B(opc) else Imm(SImm(opc));
    RegisterOperands(opc);
    BaseSets(opc);
    SumReads(base, offset);
  }

  lemma {:induction false} BaseSets(opc: Word)
    ensures ExpReads(AOrZero(opc)) == BaseReads(opc) && !ExpLoads(AOrZero(opc))
  {
  }

  // ------------------------------------------------------------ lmw and stmw

  predicate IsMultiple(opc: Word) { MainOpcode(opc) == 46 || MainOpcode(opc) == 47 }

  function MultipleAddress(opc: Word, s: State): Word {
    (BaseOf(opc, s) + Immediate(opc)) % TWO32
  }

  /** Registers from rD on, loaded from consecutive words. */
  ghost predicate WordsLoaded(g: Gprs, before: Gprs, mem: map<Word, Byte>, ea: Word, r: nat) {
    forall i: Reg :: g[i] == (if i < r then before[i] else BigEndian(mem, At(ea, 4 * (i - r)), 4))
  }

  /** Memory from ea on, holding the registers from r on as consecutive words. */
  ghost predicate WordsStored(after: map<Word, Byte>, before: map<Word, Byte>, g: Gprs, ea: Word, r: nat)
    requires r <= 32
  {
    forall a: Word :: ByteAt(after, a)
      == (if Offset(ea, a) < 4 * (32 - r) then ByteOf(g[r + Offset(ea, a) / 4], 3 - Offset(ea, a) % 4)
          else ByteAt(before, a))
  }

  lemma {:induction false} NextWord(ea: Word, i: nat)
    ensures At(At(ea, 4), 4 * i) == At(ea, 4 * (i + 1)) && At(ea, 0) == ea
  {
  }

  lemma {:induction false} NextAddress(env: Env, addr: Exp, s: State)
    ensures Eval(env, Sum(addr, Imm(4)), s) == At(Eval(env, addr, s), 4)
  {
    assert Eval(env, Imm(4), s) == 4;
  }

  lemma {:induction false} LoadMultipleRuns(env: Env, opc: Word, r: nat, addr: Exp, entry: State, s: State)
    requires r <= 32
    ensures var t := RunFrom(env, opc, LoadMultiple(r, addr), entry, s);
      t == s.(gpr := t.gpr) && WordsLoaded(t.gpr, s.gpr, entry.rest.mem, Eval(env, addr, entry), r)
    decreases 32 - r
  {
    hide Eval, BigEndian, LoadBytes, At;
    if r < 32 {
      var ea, mem := Eval(env, addr, entry), entry.rest.mem;
      var t := LoadMultiple(r, addr);
      FirstLoad(env, opc, r, addr, entry, s);
      var s1 := s.(gpr := s.gpr[r := BigEndian(mem, ea, 4)]);
      assert t[1..] == LoadMultiple(r + 1, Sum(addr, Imm(4)));
      LoadMultipleRuns(env, opc, r + 1, Sum(addr, Imm(4)), entry, s1);
      NextAddress(env, addr, entry);
      var u := RunFrom(env, opc, t, entry, s);
      forall i: Reg ensures u.gpr[i] == (if i < r then s.gpr[i] else BigEndian(mem, At(ea, 4 * (i - r)), 4)) {
        if i > r {
          NextWord(ea, i - r - 1);
        }
        NextWord(ea, 0);
      }
    }
  }

  lemma {:induction false} FirstLoad(env: Env, opc: Word, r: Reg, addr: Exp, entry: State, s: State)
    ensures BigEndian(entry.rest.mem, Eval(env, addr, entry), 4) < TWO32
    ensures var call := WriteGpr(r, Load(addr, 4));
      RunCall(env, opc, call, EvalAll(env, call.Operands(), entry), s)
        == s.(gpr := s.gpr[r := BigEndian(entry.rest.mem, Eval(env, addr, entry), 4)])
  {
    LoadOfBytes(env, addr, entry);
    hide Eval, BigEndian, LoadBytes;
    OneValue(env, Load(addr, 4), entry);
    LoadIsBigEndian(entry.rest.mem, Eval(env, addr, entry), 4);
  }

  lemma {:induction false} LoadOfBytes(env: Env, addr: Exp, s: State)
    ensures Eval(env, Load(addr, 4), s) == LoadBytes(s.rest.mem, Eval(env, addr, s), 4) % TWO32
  {
  }

  lemma {:induction false} StoreMultipleRuns(env: Env, opc: Word, r: nat, addr: Exp, entry: State, s: State)
    requires r <= 32
    ensures var t := RunFrom(env, opc, StoreMultiple(r, addr), entry, s);
      && t == s.(rest := s.rest.(mem := t.rest.mem))
      && WordsStored(t.rest.mem, s.rest.mem, entry.gpr, Eval(env, addr, entry), r)
    decreases 32 - r
  {
    hide Eval, StoreBytes, ByteAt, ByteOf, Offset;
    if r < 32 {
      var ea := Eval(env, addr, entry);
      var t := StoreMultiple(r, addr);
      var call := WriteMem(addr, Gpr(r), 4);
      var mem := StoreBytes(s.rest.mem, ea, entry.gpr[r], 4);
      var s1 := s.(rest := s.rest.(mem := mem));
      TwoValues(env, addr, Gpr(r), entry);
      GprValue(env, r, entry);
      assert RunCall(env, opc, call, EvalAll(env, call.Operands(), entry), s) == s1;
      assert t[0] == call && t[1..] == StoreMultiple(r + 1, Sum(addr, Imm(4)));
      StoreIsBigEndian(s.rest.mem, ea, entry.gpr[r], 4);
      StoreMultipleRuns(env, opc, r + 1, Sum(addr, Imm(4)), entry, s1);
      NextAddress(env, addr, entry);
      WordThenWords(RunFrom(env, opc, t, entry, s).rest.mem, mem, s.rest.mem, entry.gpr, ea, r);
    }
  }

  lemma {:induction false} GprValue(env: Env, r: Reg, s: State)
    ensures Eval(env, Gpr(r), s) == s.gpr[r]
  {
  }

  lemma {:induction false} WordThenWords(
      after: map<Word, Byte>, middle: map<Word, Byte>, before: map<Word, Byte>, g: Gprs, ea: Word, r: Reg)
    requires Stored(middle, before, ea, g[r], 4) && WordsStored(after, middle, g, At(ea, 4), r + 1)
    ensures WordsStored(after, before, g, ea, r)
  {
    hide ByteAt, ByteOf, Offset, At;
    forall a: Word ensures ByteAt(after, a)
      == (if Offset(ea, a) < 4 * (32 - r) then ByteOf(g[r + Offset(ea, a) / 4], 3 - Offset(ea, a) % 4)
          else ByteAt(before, a)) {
      OffsetFromNext(ea, a);
      if 4 <= Offset(ea, a) < 4 * (32 - r) {
        assert Offset(At(ea, 4), a) / 4 == Offset(ea, a) / 4 - 1 && Offset(At(ea, 4), a) % 4 == Offset(ea, a) % 4;
      }
    }
  }

  lemma {:induction false} OffsetFromNext(ea: Word, a: Word)
    ensures Offset(At(ea, 4), a) == if Offset(ea, a) >= 4 then Offset(ea, a) - 4 else Offset(ea, a) + TWO32 - 4
  {
    var d := Offset(ea, a);
    assert a - ea == d || a - ea == d - TWO32;
    var n := At(ea, 4);
    assert n == ea + 4 || n == ea + 4 - TWO32;
    var want := if d >= 4 then d - 4 else d + TWO32 - 4;
    assert a - n == want || a - n == want - TWO32 || a - n == want + TWO32;
    Unique(a - n, TWO32, if a - n == want then 0 else if a - n == want - TWO32 then -1 else 1, want);
  }

  lemma {:induction false} MultipleTemplate(opc: Word)
    requires IsMultiple(opc)
    ensures TemplateOf(opc) == if MainOpcode(opc) == 46 then LoadMultiple(FieldD(opc), DAddr(opc))
                               else StoreMultiple(FieldD(opc), DAddr(opc))
    ensures TemplateOf(opc) != EVERYTHING && !IsBranch(opc)
  {
    assert EVERYTHING[0] == DoEverything;
    TemplateKinds(opc);
  }

  lemma {:induction false} MultipleAddressValue(env: Env, opc: Word, s: State)
    requires IsMultiple(opc)
    ensures Eval(env, DAddr(opc), s) == MultipleAddress(opc, s)
    ensures ExpReads(DAddr(opc)) == BaseReads(opc) && !ExpLoads(DAddr(opc))
  {
    hide Eval, ExpReads, ExpLoads, BaseOf, BaseReads, Immediate, SImm, MainOpcode;
    BaseValue(env, opc, s);
    OperandValues(env, opc, s);
    BinaryValue(env, Plus, AOrZero(opc), Imm(SImm(opc)), s);
    SumReads(AOrZero(opc), Imm(SImm(opc)));
    SImmIsImmediate(opc);
    SumModulo(BaseOf(opc, s), Immediate(opc));
  }

  /** lmw and stmw move the registers from rD on, word by word, and nothing else. */
  lemma {:induction false} MultipleSteps(env: Env, opc: Word, s: State)
    requires IsMultiple(opc)
    ensures var t, ea := Step(env, opc, s), MultipleAddress(opc, s);
      if MainOpcode(opc) == 46 then
        t == s.(pc := Next(s.pc), gpr := t.gpr) && WordsLoaded(t.gpr, s.gpr, s.rest.mem, ea, FieldD(opc))
      else
        t == s.(pc := Next(s.pc), rest := s.rest.(mem := t.rest.mem))
        && WordsStored(t.rest.mem, s.rest.mem, s.gpr, ea, FieldD(opc))
  {
    hide TemplateOf, LoadMultiple, StoreMultiple, RunFrom, StepBranch, IsBranch, Eval, DAddr, WordsLoaded, WordsStored,
         MultipleAddress;
    MultipleTemplate(opc);
    MultipleAddressValue(env, opc, s);
    LoadMultipleRuns(env, opc, FieldD(opc), DAddr(opc), s, s);
    StoreMultipleRuns(env, opc, FieldD(opc), DAddr(opc), s, s);
  }

  ghost function From(r: nat): set<nat> {
    set i: nat {:trigger i in Everything} | r <= i < 32
  }

  lemma {:induction false} LoadMultipleSets(r: nat, addr: Exp)
    requires r < 32 && !ExpLoads(addr)
    ensures var t := LoadMultiple(r, addr);
      TemplateReads(t) == ExpReads(addr) && TemplateWrites(t) == From(r) && TemplateLoads(t) && !TemplateStores(t)
    decreases 32 - r
  {
    hide ExpReads, ExpLoads;
    var next, t, call := Sum(addr, Imm(4)), LoadMultiple(r, addr), WriteGpr(r, Load(addr, 4));
    SumReads(addr, Imm(4));
    LoadOperands(addr, 4);
    assert CallReads(call) == ExpReads(addr) && CallWrites(call) == {r};
    assert t[0] == call && t[1..] == LoadMultiple(r + 1, next);
    if r < 31 {
      LoadMultipleSets(r + 1, next);
    } else {
      assert t[1..] == [];
    }
    assert From(r) == {r} + From(r + 1);
  }

  lemma {:induction false} StoreMultipleSets(r: nat, addr: Exp)
    requires r < 32 && !ExpLoads(addr)
    ensures var t := StoreMultiple(r, addr);
      && TemplateReads(t) == ExpReads(addr) + From(r) && TemplateWrites(t) == {}
      && !TemplateLoads(t) && TemplateStores(t)
    decreases 32 - r
  {
    hide ExpReads, ExpLoads;
    var next, t, call := Sum(addr, Imm(4)), StoreMultiple(r, addr), WriteMem(addr, Gpr(r), 4);
    SumReads(addr, Imm(4));
    TwoOperands(addr, Gpr(r));
    GprReads(r);
    assert CallReads(call) == ExpReads(addr) + {r} && CallWrites(call) == {};
    assert t[0] == call && t[1..] == StoreMultiple(r + 1, next);
    if r < 31 {
      StoreMultipleSets(r + 1, next);
    } else {
      assert t[1..] == [];
    }
    assert From(r) == {r} + From(r + 1);
  }

  lemma {:induction false} GprReads(r: Reg)
    ensures ExpReads(Gpr(r)) == {r} && !ExpLoads(Gpr(r))
  {
  }

  /** What they are recorded to read and write. */
  lemma {:induction false} MultipleRecords(opc: Word)
    requires IsMultiple(opc)
    ensures Records(opc, BaseReads(opc) + (if MainOpcode(opc) == 47 then From(FieldD(opc)) else {}),
                    if MainOpcode(opc) == 46 then From(FieldD(opc)) else {},
                    MainOpcode(opc) == 46, MainOpcode(opc) == 47)
  {
    hide TemplateOf, IsBranch, Records, LoadMultiple, StoreMultiple, ExpReads, ExpLoads, DAddr, BaseReads, From;
    MultipleTemplate(opc);
    MultipleReads(opc);
    LoadMultipleSets(FieldD(opc), DAddr(opc));
    StoreMultipleSets(FieldD(opc), DAddr(opc));
    PlainRecords(opc);
    assert BaseReads(opc) + {} == BaseReads(opc);
  }

  lemma {:induction false} MultipleReads(opc: Word)
    ensures ExpReads(DAddr(opc)) == BaseReads(opc) && !ExpLoads(DAddr(opc))
  {
    hide BaseReads;
    BaseSets(opc);
    SumReads(AOrZero(opc), Imm(SImm(opc)));
  }

  // --------------------------------------------------------- floating point

  predicate IsFloatCompare(opc: Word) {
    MainOpcode(opc) == 63 && (ExtOpcode(opc) == 0 || ExtOpcode(opc) == 32)
  }

  function FloatLast(opc: Word): Template {
    if IsFloatCompare(opc) then [FpuCompareTo(FieldD(opc) / 4)] else if RecordBit(opc) then [FpuRecord] else []
  }

  lemma {:induction false} FloatTemplate(opc: Word)
    requires MainOpcode(opc) == 59 || MainOpcode(opc) == 63
    ensures TemplateOf(opc) == [FpuAccess(Imm(0), false, false)] + FloatLast(opc)
  {
  }

  lemma {:induction false} FloatLastSets(opc: Word)
    ensures var t := FloatLast(opc);
      && TemplateReads(t) == (if IsFloatCompare(opc) then {XER_SO} else {})
      && TemplateWrites(t) == (if IsFloatCompare(opc) then FieldBits(FieldD(opc) / 4)
                               else if RecordBit(opc) then {56, 57, 58, 59} else {})
      && !TemplateLoads(t) && !TemplateStores(t)
  {
    hide IsFloatCompare, FieldD;
    if FloatLast(opc) != [] {
      OneCallSets(FloatLast(opc)[0]);
      assert FloatLast(opc) == [FloatLast(opc)[0]];
    }
  }

  /** Main opcode 59 and 63: fcmpu and fcmpo write their CR field, record forms CR field 1. */
  lemma {:induction false} FloatRecords(opc: Word)
    requires MainOpcode(opc) == 59 || MainOpcode(opc) == 63
    ensures Records(opc, if IsFloatCompare(opc) then {XER_SO} else {},
                    if IsFloatCompare(opc) then FieldBits(FieldD(opc) / 4)
                    else if RecordBit(opc) then {56, 57, 58, 59} else {}, false, false)
  {
    hide TemplateOf, IsBranch, Records, FloatLast, IsFloatCompare, FieldD, RecordBit, FieldBits;
    FloatTemplate(opc);
    FloatIsPlain(opc);
    PlainRecords(opc);
    FloatSets(FloatLast(opc));
    FloatLastSets(opc);
  }

  lemma {:induction false} FloatSets(last: Template)
    ensures var t := [FpuAccess(Imm(0), false, false)] + last;
      && TemplateReads(t) == TemplateReads(last) && TemplateWrites(t) == TemplateWrites(last)
      && TemplateLoads(t) == TemplateLoads(last) && TemplateStores(t) == TemplateStores(last)
  {
    var t := [FpuAccess(Imm(0), false, false)] + last;
    assert t[1..] == last;
    OneOperand(Imm(0));
    assert CallReads(t[0]) == {} && CallWrites(t[0]) == {};
  }

  lemma {:induction false} FloatIsPlain(opc: Word)
    requires MainOpcode(opc) == 59 || MainOpcode(opc) == 63
    ensures TemplateOf(opc) != EVERYTHING && !IsBranch(opc)
  {
    assert EVERYTHING[0] == DoEverything && TemplateOf(opc)[0] != DoEverything;
  }
}
