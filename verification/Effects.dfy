/** The recording backend: which resources an instruction reads and writes. */
module Effects {
  import opened Words
  import opened LiveSets
  import opened Templates

  /** The read and write masks of one instruction, grouped by direction. */
  datatype InsnEffect = InsnEffect(
    read: LiveSet, write: LiveSet,
    readsMemory: bool, writesMemory: bool,
    isBranch: bool, isEverything: bool)
  {
    function Reading(l: LiveSet): InsnEffect {
      this.(read := read.Union(l))
    }

    function Writing(l: LiveSet): InsnEffect {
      this.(write := write.Union(l))
    }
  }

  const NOTHING := InsnEffect(NONE, NONE, false, false, false, false)
  const EVERYTHING_EFFECT := InsnEffect(ALL_LIVE, ALL_LIVE, true, true, false, true)

  // ------------------------------------------------------------ single masks

  function GprOnly(r: Reg): LiveSet {
    LiveSet(SingleBit(r), 0, 0, false, false)
  }

  function CrOnly(mask: Word): LiveSet {
    LiveSet(0, mask, 0, false, false)
  }

  function CrBitOnly(bit: CrBitNo): LiveSet {
    CrOnly(SingleBit(31 - bit))
  }

  function XerOnly(mask: XerMask): LiveSet {
    LiveSet(0, 0, mask, false, false)
  }

  const LR_ONLY := LiveSet(0, 0, 0, true, false)
  const CTR_ONLY := LiveSet(0, 0, 0, false, true)

  function SingleBit(i: nat): Word
    requires i < 32
  {
    Pow2Values();
    ShiftLeftBound(1, 1, i);
    Pow2Monotone(1 + i, 32);
    ShiftLeft(1, i)
  }

  lemma {:induction false} SingleBitBits(i: nat)
    requires i < 32
    ensures forall j: nat | j < 32 :: BitAt(SingleBit(i), j) == (i == j)
  {
    forall j: nat | j < 32 ensures BitAt(SingleBit(i), j) == (i == j) {
      ShiftLeftBit(1, i, j);
      if i <= j {
        assert Ones(1) == 1;
        OnesBit(1, j - i);
      }
    }
  }

  lemma {:induction false} GprOnlyMembers(r: Reg)
    ensures Members(GprOnly(r)) == {r}
  {
    SingleBitBits(r);
    ZeroBits();
  }

  lemma {:induction false} CrOnlyMembers(mask: Word)
    ensures Members(CrOnly(mask)) == CrMembers(mask)
  {
    ZeroBits();
  }

  /** The CR bits a mask selects. */
  ghost function CrMembers(mask: Word): set<nat> {
    set i: nat {:trigger i in Everything} | 32 <= i < 64 && BitAt(mask, i - 32)
  }

  lemma {:induction false} CrBitMembers(bit: CrBitNo)
    ensures Members(CrBitOnly(bit)) == {63 - bit}
  {
    SingleBitBits(31 - bit);
    CrOnlyMembers(SingleBit(31 - bit));
  }

  lemma {:induction false} FieldMembers(f: Field)
    ensures Members(CrOnly(FieldMask(f))) == FieldBits(f)
  {
    FieldMaskBits(f);
    CrOnlyMembers(FieldMask(f));
  }

  lemma {:induction false} XerOnlyMembers()
    ensures Members(XerOnly(XER_BIT_CA)) == {XER_CA}
    ensures Members(XerOnly(XER_BIT_SO)) == {XER_SO}
    ensures Members(XerOnly(XER_BIT_ALL)) == {XER_CA, XER_OV, XER_SO}
  {
    ZeroBits();
    assert forall i: nat | i < 3 :: BitAt(1, i) == (i == 0) && BitAt(4, i) == (i == 2) && BitAt(7, i);
  }

  lemma {:induction false} FlagMembers()
    ensures Members(LR_ONLY) == {LR}
    ensures Members(CTR_ONLY) == {CTR}
  {
    ZeroBits();
  }

  lemma {:induction false} ZeroBits()
    ensures forall i: nat {:trigger BitAt(0, i)} :: !BitAt(0, i)
  {
    forall i: nat ensures !BitAt(0, i) {
      ZeroBit(i);
    }
  }

  // -------------------------------------------------------- recording a call

  function ReadExp(fx: InsnEffect, e: Exp): InsnEffect
    decreases e
  {
    match e
    case Imm(_) => fx
    case Gpr(r) => fx.Reading(GprOnly(r))
    case Carry => fx.Reading(XerOnly(XER_BIT_CA))
    case XerReg => fx.Reading(XerOnly(XER_BIT_ALL))
    case LrReg => fx.Reading(LR_ONLY)
    case CtrReg => fx.Reading(CTR_ONLY)
    case CrReg => fx.Reading(CrOnly(TWO32 - 1))
    case CrField(f) => fx.Reading(CrOnly(FieldMask(f)))
    case CrBit(bit) => fx.Reading(CrBitOnly(bit))
    case Unary(_, a) => ReadExp(fx, a)
    case Binary(_, a, b) => ReadExp(ReadExp(fx, a), b)
    case CarryOut3(a, b, c) => ReadExp(ReadExp(ReadExp(fx, a), b), c)
    case Load(a, _) => ReadExp(fx, a).(readsMemory := true)
    case LoadSigned(a, _) => ReadExp(fx, a).(readsMemory := true)
  }

  function ReadAll(fx: InsnEffect, es: seq<Exp>): InsnEffect
    decreases es
  {
    if es == [] then fx else ReadAll(ReadExp(fx, es[0]), es[1..])
  }

  /** The registers a call writes. */
  function WriteMask(call: Call): LiveSet {
    match call
    case WriteGpr(r, _) => GprOnly(r)
    case WriteXerCa(_) => XerOnly(XER_BIT_CA)
    case WriteCr0(_) => CrOnly(FieldMask(0))
    case WriteCrFieldSigned(f, _, _) => CrOnly(FieldMask(f))
    case WriteCrFieldUnsigned(f, _, _) => CrOnly(FieldMask(f))
    case WriteCrBit(bit, _) => CrBitOnly(bit)
    case WriteCrField(f, _) => CrOnly(FieldMask(f))
    case WriteCrMasked(_, mask) => CrOnly(mask)
    case WriteXer(_) => XerOnly(XER_BIT_ALL)
    case WriteLr(_) => LR_ONLY
    case WriteCtr(_) => CTR_ONLY
    case FpuCompareTo(f) => CrOnly(FieldMask(f))
    case FpuRecord => CrOnly(FieldMask(1))
    case ClobberLr => LR_ONLY
    case ClobberCtr => CTR_ONLY
    case _ => NONE
  }

  function NoteFlags(fx: InsnEffect, call: Call): InsnEffect {
    fx.(readsMemory := fx.readsMemory || call.Loads(),
        writesMemory := fx.writesMemory || call.Stores(),
        isBranch := fx.isBranch || call.Branch?)
  }

  function NoteMasks(fx: InsnEffect, call: Call): InsnEffect {
    var g := fx.Writing(WriteMask(call));
    if call.CopiesSo() then g.Reading(XerOnly(XER_BIT_SO)) else g
  }

  function Note(fx: InsnEffect, call: Call): InsnEffect {
    if call == DoEverything then EVERYTHING_EFFECT
    else NoteFlags(NoteMasks(ReadAll(fx, call.Operands()), call), call)
  }

  function EffectFrom(fx: InsnEffect, t: Template): InsnEffect
    decreases t
  {
    if t == [] then fx else EffectFrom(Note(fx, t[0]), t[1..])
  }

  function AnalyzeInsn(opc: Word): InsnEffect {
    EffectFrom(NOTHING, TemplateOf(opc))
  }

  /** The backend object: every method updates fx in place. */
  class LivenessSemantics {
    var fx: InsnEffect

    constructor ()
      ensures fx == NOTHING
    {
      fx := NOTHING;
    }

    method Read(e: Exp)
      modifies this
      ensures fx == ReadExp(old(fx), e)
      decreases e
    {
      match e
      case Imm(_) =>
      case Gpr(r) => fx := fx.Reading(GprOnly(r));
      case Carry => fx := fx.Reading(XerOnly(XER_BIT_CA));
      case XerReg => fx := fx.Reading(XerOnly(XER_BIT_ALL));
      case LrReg => fx := fx.Reading(LR_ONLY);
      case CtrReg => fx := fx.Reading(CTR_ONLY);
      case CrReg => fx := fx.Reading(CrOnly(TWO32 - 1));
      case CrField(f) => fx := fx.Reading(CrOnly(FieldMask(f)));
      case CrBit(bit) => fx := fx.Reading(CrBitOnly(bit));
      case Unary(_, a) => Read(a);
      case Binary(_, a, b) => Read(a); Read(b);
      case CarryOut3(a, b, c) => Read(a); Read(b); Read(c);
      case Load(a, _) => Read(a); fx := fx.(readsMemory := true);
      case LoadSigned(a, _) => Read(a); fx := fx.(readsMemory := true);
    }

    method ReadOperands(es: seq<Exp>)
      modifies this
      ensures fx == ReadAll(old(fx), es)
    {
      for i := 0 to |es|
        invariant ReadAll(fx, es[i..]) == ReadAll(old(fx), es)
      {
        Read(es[i]);
        assert es[i..][1..] == es[i + 1..];
      }
    }

    method WriteRegisters(call: Call)
      modifies this
      ensures fx == NoteMasks(old(fx), call)
    {
      fx := fx.Writing(WriteMask(call));
      if call.CopiesSo() {
        fx := fx.Reading(XerOnly(XER_BIT_SO));
      }
    }

    method Perform(call: Call)
      modifies this
      ensures fx == Note(old(fx), call)
    {
      if call == DoEverything {
        fx := EVERYTHING_EFFECT;
      } else {
        ReadOperands(call.Operands());
        WriteRegisters(call);
        fx := NoteFlags(fx, call);
      }
    }

    method Record(t: Template)
      modifies this
      ensures fx == EffectFrom(old(fx), t)
    {
      for i := 0 to |t|
        invariant EffectFrom(fx, t[i..]) == EffectFrom(old(fx), t)
      {
        Perform(t[i]);
        assert t[i..][1..] == t[i + 1..];
      }
    }
  }

  method Analyze(opc: Word) returns (fx: InsnEffect)
    ensures fx == AnalyzeInsn(opc)
  {
    var s := new LivenessSemantics();
    s.Record(TemplateOf(opc));
    fx := s.fx;
  }

  // --------------------------------------------------- the sets it records

  ghost function ExpReads(e: Exp): set<nat> {
    match e
    case Imm(_) => {}
    case Gpr(r) => {r}
    case Carry => {XER_CA}
    case XerReg => {XER_CA, XER_OV, XER_SO}
    case LrReg => {LR}
    case CtrReg => {CTR}
    case CrReg => CrMembers(TWO32 - 1)
    case CrField(f) => FieldBits(f)
    case CrBit(bit) => {63 - bit}
    case Unary(_, a) => ExpReads(a)
    case Binary(_, a, b) => ExpReads(a) + ExpReads(b)
    case CarryOut3(a, b, c) => ExpReads(a) + ExpReads(b) + ExpReads(c)
    case Load(a, _) => ExpReads(a)
    case LoadSigned(a, _) => ExpReads(a)
  }

  ghost function AllReads(es: seq<Exp>): set<nat> {
    if es == [] then {} else ExpReads(es[0]) + AllReads(es[1..])
  }

  ghost function CallReads(call: Call): set<nat> {
    AllReads(call.Operands()) + (if call.CopiesSo() then {XER_SO} else {})
  }

  ghost function CallWrites(call: Call): set<nat> {
    match call
    case WriteGpr(r, _) => {r}
    case WriteXerCa(_) => {XER_CA}
    case WriteCr0(_) => FieldBits(0)
    case WriteCrFieldSigned(f, _, _) => FieldBits(f)
    case WriteCrFieldUnsigned(f, _, _) => FieldBits(f)
    case WriteCrBit(bit, _) => {63 - bit}
    case WriteCrField(f, _) => FieldBits(f)
    case WriteCrMasked(_, mask) => CrMembers(mask)
    case WriteXer(_) => {XER_CA, XER_OV, XER_SO}
    case WriteLr(_) => {LR}
    case WriteCtr(_) => {CTR}
    case FpuCompareTo(f) => FieldBits(f)
    case FpuRecord => FieldBits(1)
    case ClobberLr => {LR}
    case ClobberCtr => {CTR}
    case _ => {}
  }

  ghost function TemplateReads(t: Template): set<nat> {
    if t == [] then {} else CallReads(t[0]) + TemplateReads(t[1..])
  }

  ghost function TemplateWrites(t: Template): set<nat> {
    if t == [] then {} else CallWrites(t[0]) + TemplateWrites(t[1..])
  }

  /** From fx to g, the read mask grows by r and nothing else changes but the memory flags. */
  ghost predicate ReadsMore(fx: InsnEffect, g: InsnEffect, r: set<nat>) {
    && Members(g.read) == Members(fx.read) + r
    && g.write == fx.write && g.isBranch == fx.isBranch && g.isEverything == fx.isEverything
  }

  lemma {:induction false} ReadingMask(fx: InsnEffect, l: LiveSet, r: set<nat>)
    requires Members(l) == r
    ensures ReadsMore(fx, fx.Reading(l), r)
  {
    UnionMembers(fx.read, l);
  }

  lemma {:induction false} ReadExpSets(fx: InsnEffect, e: Exp)
    ensures ReadsMore(fx, ReadExp(fx, e), ExpReads(e))
    decreases e
  {
    hide Members, LiveSet.Union;
    match e
    case Imm(_) =>
    case Gpr(r) => GprOnlyMembers(r); ReadingMask(fx, GprOnly(r), {r});
    case Carry => XerOnlyMembers(); ReadingMask(fx, XerOnly(XER_BIT_CA), {XER_CA});
    case XerReg => XerOnlyMembers(); ReadingMask(fx, XerOnly(XER_BIT_ALL), {XER_CA, XER_OV, XER_SO});
    case LrReg => FlagMembers(); ReadingMask(fx, LR_ONLY, {LR});
    case CtrReg => FlagMembers(); ReadingMask(fx, CTR_ONLY, {CTR});
    case CrReg => CrOnlyMembers(TWO32 - 1); ReadingMask(fx, CrOnly(TWO32 - 1), CrMembers(TWO32 - 1));
    case CrField(f) => FieldMembers(f); ReadingMask(fx, CrOnly(FieldMask(f)), FieldBits(f));
    case CrBit(bit) => CrBitMembers(bit); ReadingMask(fx, CrBitOnly(bit), {63 - bit});
    case Unary(_, a) => ReadExpSets(fx, a);
    case Binary(_, a, b) => ReadExpSets(fx, a); ReadExpSets(ReadExp(fx, a), b);
    case CarryOut3(a, b, c) =>
      ReadExpSets(fx, a);
      ReadExpSets(ReadExp(fx, a), b);
      ReadExpSets(ReadExp(ReadExp(fx, a), b), c);
    case Load(a, _) => ReadExpSets(fx, a);
    case LoadSigned(a, _) => ReadExpSets(fx, a);
  }

  lemma {:induction false} ReadAllSets(fx: InsnEffect, es: seq<Exp>)
    ensures ReadsMore(fx, ReadAll(fx, es), AllReads(es))
    decreases es
  {
    if es != [] {
      ReadExpSets(fx, es[0]);
      ReadAllSets(ReadExp(fx, es[0]), es[1..]);
    }
  }

  lemma {:induction false} WriteMaskMembers(call: Call)
    ensures Members(WriteMask(call)) == CallWrites(call)
  {
    match call
    case WriteGpr(r, _) => GprOnlyMembers(r);
    case WriteXerCa(_) => XerOnlyMembers();
    case WriteCr0(_) => FieldMembers(0);
    case WriteCrFieldSigned(f, _, _) => FieldMembers(f);
    case WriteCrFieldUnsigned(f, _, _) => FieldMembers(f);
    case WriteCrBit(bit, _) => CrBitMembers(bit);
    case WriteCrField(f, _) => FieldMembers(f);
    case WriteCrMasked(_, mask) => CrOnlyMembers(mask);
    case WriteXer(_) => XerOnlyMembers();
    case WriteLr(_) => FlagMembers();
    case WriteCtr(_) => FlagMembers();
    case FpuCompareTo(f) => FieldMembers(f);
    case FpuRecord => FieldMembers(1);
    case ClobberLr => FlagMembers();
    case ClobberCtr => FlagMembers();
    case _ => ConstantMembers();
  }

  /** From fx to g, the masks grow by r and w. */
  ghost predicate Grows(fx: InsnEffect, g: InsnEffect, r: set<nat>, w: set<nat>, branch: bool) {
    && Members(g.read) == Members(fx.read) + r
    && Members(g.write) == Members(fx.write) + w
    && g.isBranch == (fx.isBranch || branch) && g.isEverything == fx.isEverything
  }

  /** What one backend call adds to the masks. */
  lemma {:induction false} NoteSets(fx: InsnEffect, call: Call)
    requires call != DoEverything
    ensures Grows(fx, Note(fx, call), CallReads(call), CallWrites(call), call == Branch)
  {
    var g := ReadAll(fx, call.Operands());
    ReadAllSets(fx, call.Operands());
    WriteMaskMembers(call);
    UnionMembers(g.write, WriteMask(call));
    if call.CopiesSo() {
      XerOnlyMembers();
      ReadingMask(g.Writing(WriteMask(call)), XerOnly(XER_BIT_SO), {XER_SO});
    }
  }

  /** What a whole template adds, when it does not give up with everything(). */
  lemma {:induction false} EffectSets(fx: InsnEffect, t: Template)
    requires DoEverything !in t
    ensures Grows(fx, EffectFrom(fx, t), TemplateReads(t), TemplateWrites(t), Branch in t)
    decreases t
  {
    if t != [] {
      NoteSets(fx, t[0]);
      EffectSets(Note(fx, t[0]), t[1..]);
    }
  }

  lemma {:induction false} TemplateKinds(opc: Word)
    ensures IsBranch(opc) ==> Branch in TemplateOf(opc) && DoEverything !in TemplateOf(opc)
    ensures !IsBranch(opc) ==> TemplateOf(opc) == EVERYTHING || PlainTemplate(TemplateOf(opc))
  {
  }

  lemma {:induction false} KindsOfEffect(t: Template)
    requires t == EVERYTHING || DoEverything !in t
    ensures t == EVERYTHING ==> EffectFrom(NOTHING, t) == EVERYTHING_EFFECT
    ensures t != EVERYTHING ==> Grows(NOTHING, EffectFrom(NOTHING, t), TemplateReads(t), TemplateWrites(t), Branch in t)
  {
    if t == EVERYTHING {
      assert EffectFrom(NOTHING, t) == EffectFrom(Note(NOTHING, DoEverything), []);
    } else {
      EffectSets(NOTHING, t);
    }
  }

  /** The effect of an opcode is the union of the effects of its backend calls. */
  lemma {:induction false} AnalyzeSets(opc: Word)
    ensures AnalyzeInsn(opc).isBranch <==> IsBranch(opc)
    ensures AnalyzeInsn(opc).isEverything <==> TemplateOf(opc) == EVERYTHING
    ensures AnalyzeInsn(opc).isEverything ==> AnalyzeInsn(opc) == EVERYTHING_EFFECT
    ensures !AnalyzeInsn(opc).isEverything ==>
              && Members(AnalyzeInsn(opc).read) == TemplateReads(TemplateOf(opc))
              && Members(AnalyzeInsn(opc).write) == TemplateWrites(TemplateOf(opc))
  {
    TemplateKinds(opc);
    ConstantMembers();
    KindsOfEffect(TemplateOf(opc));
  }

  // --------------------------------------------------------- the memory flags

  predicate ExpLoads(e: Exp) {
    match e
    case Unary(_, a) => ExpLoads(a)
    case Binary(_, a, b) => ExpLoads(a) || ExpLoads(b)
    case CarryOut3(a, b, c) => ExpLoads(a) || ExpLoads(b) || ExpLoads(c)
    case Load(_, _) => true
    case LoadSigned(_, _) => true
    case _ => false
  }

  predicate AnyLoads(es: seq<Exp>) {
    es != [] && (ExpLoads(es[0]) || AnyLoads(es[1..]))
  }

  predicate TemplateLoads(t: Template) {
    t != [] && (t[0].Loads() || AnyLoads(t[0].Operands()) || TemplateLoads(t[1..]))
  }

  predicate TemplateStores(t: Template) {
    t != [] && (t[0].Stores() || TemplateStores(t[1..]))
  }

  lemma {:induction false} ReadExpFlags(fx: InsnEffect, e: Exp)
    ensures ReadExp(fx, e).readsMemory <==> fx.readsMemory || ExpLoads(e)
    ensures ReadExp(fx, e).writesMemory == fx.writesMemory
    decreases e
  {
    match e
    case Unary(_, a) => ReadExpFlags(fx, a);
    case Binary(_, a, b) => ReadExpFlags(fx, a); ReadExpFlags(ReadExp(fx, a), b);
    case CarryOut3(a, b, c) =>
      ReadExpFlags(fx, a);
      ReadExpFlags(ReadExp(fx, a), b);
      ReadExpFlags(ReadExp(ReadExp(fx, a), b), c);
    case Load(a, _) => ReadExpFlags(fx, a);
    case LoadSigned(a, _) => ReadExpFlags(fx, a);
    case _ =>
  }

  lemma {:induction false} ReadAllFlags(fx: InsnEffect, es: seq<Exp>)
    ensures ReadAll(fx, es).readsMemory <==> fx.readsMemory || AnyLoads(es)
    ensures ReadAll(fx, es).writesMemory == fx.writesMemory
    decreases es
  {
    if es != [] {
      ReadExpFlags(fx, es[0]);
      ReadAllFlags(ReadExp(fx, es[0]), es[1..]);
    }
  }

  lemma {:induction false} EffectFlags(fx: InsnEffect, t: Template)
    requires DoEverything !in t
    ensures EffectFrom(fx, t).readsMemory <==> fx.readsMemory || TemplateLoads(t)
    ensures EffectFrom(fx, t).writesMemory <==> fx.writesMemory || TemplateStores(t)
    decreases t
  {
    if t != [] {
      ReadAllFlags(fx, t[0].Operands());
      EffectFlags(Note(fx, t[0]), t[1..]);
    }
  }

  /** The memory flags are set by the loads and stores of the template. */
  lemma {:induction false} AnalyzeFlags(opc: Word)
    requires TemplateOf(opc) != EVERYTHING
    ensures AnalyzeInsn(opc).readsMemory <==> TemplateLoads(TemplateOf(opc))
    ensures AnalyzeInsn(opc).writesMemory <==> TemplateStores(TemplateOf(opc))
  {
    TemplateKinds(opc);
    EffectFlags(NOTHING, TemplateOf(opc));
  }
}
