/** The executing backend and the processor around it. */
module Machine {
  import opened Words
  import opened LiveSets
  import opened Arithmetic
  import opened Templates
  import opened Effects

  type Byte = b: nat | b < 256

  type Gprs = g: seq<Word> | |g| == 32 witness seq(32, _ => 0)

  /** State the analysis does not track. */
  datatype Untracked = Untracked(mem: map<Word, Byte>, fpu: seq<nat>)

  datatype State = State(pc: Word, gpr: Gprs, cr: Word, xer: Word, lr: Word, ctr: Word, rest: Untracked)

  /** What the modelled code leaves to the outside: quotients C++ leaves undefined,
      the floating-point unit, instructions without a template, and code that is
      not on the page. */
  datatype Env = Env(
    quotient: (bool, Word, Word) -> Word,
    fpu: (Word, Word, Untracked) -> Untracked,
    fpuCr: (Word, Untracked) -> Word,
    other: (Word, State) -> State,
    outside: State -> State)

  // ---------------------------------------------------------------- memory

  function ByteAt(mem: map<Word, Byte>, addr: Word): Byte {
    if addr in mem then mem[addr] else 0
  }

  /** Big-endian load of size bytes. */
  function LoadBytes(mem: map<Word, Byte>, addr: Word, size: nat): nat {
    if size == 0 then 0
    else 0x100 * LoadBytes(mem, addr, size - 1) + ByteAt(mem, Add(addr, (size - 1) % TWO32))
  }

  function StoreBytes(mem: map<Word, Byte>, addr: Word, v: nat, size: nat): map<Word, Byte>
    decreases size
  {
    if size == 0 then mem
    else StoreBytes(mem[Add(addr, (size - 1) % TWO32) := v % 0x100], addr, v / 0x100, size - 1)
  }

  // ------------------------------------------------------------ expressions

  function Truth(b: bool): Word {
    if b then 1 else 0
  }

  function EvalUnary(op: UnaryOp, a: Word): Word {
    match op
    case Not => Complement(a)
    case Negate => Neg(a)
    case ExtByte => ExtendSignByte(a)
    case ExtHalf => ExtendSignHalf(a)
    case CountZeros => LeadingZeros(a, 0)
    case NonZero => Truth(a != 0)
    case AllOnes => Truth(a == 0xffff_ffff)
  }

  function EvalBinary(env: Env, op: BinaryOp, a: Word, b: Word): Word {
    match op
    case Plus => Add(a, b)
    case Times => Mul(a, b)
    case TimesHighS => MulHighSigned(a, b)
    case TimesHighU => MulHighUnsigned(a, b)
    case DivideS =>
      if b == 0 || (a == 0x8000_0000 && b == 0xffff_ffff) then env.quotient(true, a, b)
      else FromInt(TruncDiv(Signed(a), Signed(b)))
    case DivideU => if b == 0 then env.quotient(false, a, b) else a / b
    case LeftShift => Shl(a, b)
    case RightShift => Shr(a, b)
    case ArithShift => SrawValue(a, b)
    case Rotate => Rotl(a, b)
    case Bits(bits) => Logic(bits, a, b)
    case CarryOut => Truth(CarryAdd(a, b))
    case ShiftLoses => Truth(SrawCarry(a, b))
    case Test(bits) => Truth(bits.On(a != 0, b != 0))
  }

  function FieldOf(cr: Word, f: Field): Word {
    ShiftRight(cr, (7 - f) * 4) % 16
  }

  function SignExtend(v: nat, size: nat): Word {
    if size == 2 then ExtendSignHalf(v % TWO32) else v % TWO32
  }

  function Eval(env: Env, e: Exp, s: State): Word {
    match e
    case Imm(w) => w
    case Gpr(r) => s.gpr[r]
    case Carry => Truth(BitAt(s.xer, 29))
    case XerReg => s.xer
    case LrReg => s.lr
    case CtrReg => s.ctr
    case CrReg => s.cr
    case CrField(f) => FieldOf(s.cr, f)
    case CrBit(bit) => Truth(BitAt(s.cr, 31 - bit))
    case Unary(op, a) => EvalUnary(op, Eval(env, a, s))
    case Binary(op, a, b) => EvalBinary(env, op, Eval(env, a, s), Eval(env, b, s))
    case CarryOut3(a, b, c) => Truth(Carry3(Eval(env, a, s), Eval(env, b, s), Eval(env, c, s)))
    case Load(a, size) => LoadBytes(s.rest.mem, Eval(env, a, s), size) % TWO32
    case LoadSigned(a, size) => SignExtend(LoadBytes(s.rest.mem, Eval(env, a, s), size), size)
  }

  function EvalAll(env: Env, es: seq<Exp>, s: State): (vs: seq<Word>)
    ensures |vs| == |es|
  {
    if es == [] then [] else [Eval(env, es[0], s)] + EvalAll(env, es[1..], s)
  }

  // ------------------------------------------------------------------ calls

  /** The nibble c moved to CR field f. */
  function FieldValue(f: Field, c: nat): Word
    requires c < 16
  {
    Pow2Values();
    ShiftLeftBound(c, 4, (7 - f) * 4);
    Pow2Monotone(4 + (7 - f) * 4, 32);
    ShiftLeft(c, (7 - f) * 4)
  }

  function PutField(cr: Word, f: Field, c: nat): Word
    requires c < 16
  {
    Logic(Or, Logic(Andc, cr, FieldMask(f)), FieldValue(f, c))
  }

  function PutMasked(cr: Word, v: Word, mask: Word): Word {
    Logic(Or, Logic(And, v, mask), Logic(Andc, cr, mask))
  }

  function PutBit(w: Word, i: nat, b: bool): Word
    requires i < 32
  {
    if b then Logic(Or, w, SingleBit(i)) else Logic(Andc, w, SingleBit(i))
  }

  /** LT, GT or EQ, with the summary overflow bit below. */
  function Compared(lt: bool, gt: bool, xer: Word): (c: nat)
    ensures c < 16
  {
    (if lt then 8 else if gt then 4 else 2) + (if BitAt(xer, 31) then 1 else 0)
  }

  function RunCall(env: Env, opc: Word, call: Call, v: seq<Word>, s: State): State
    requires |v| == |call.Operands()|
  {
    match call
    case WriteGpr(r, _) => s.(gpr := s.gpr[r := v[0]])
    case WriteXerCa(_) => s.(xer := PutBit(s.xer, 29, v[0] != 0))
    case WriteCr0(_) => s.(cr := PutField(s.cr, 0, Compared(v[0] >= 0x8000_0000, 0 < v[0] < 0x8000_0000, s.xer)))
    case WriteCrFieldSigned(f, _, _) =>
      s.(cr := PutField(s.cr, f, Compared(Signed(v[0]) < Signed(v[1]), Signed(v[0]) > Signed(v[1]), s.xer)))
    case WriteCrFieldUnsigned(f, _, _) => s.(cr := PutField(s.cr, f, Compared(v[0] < v[1], v[0] > v[1], s.xer)))
    case WriteCrBit(bit, _) => s.(cr := PutBit(s.cr, 31 - bit, v[0] != 0))
    case WriteCrField(f, _) => s.(cr := PutField(s.cr, f, v[0] % 16))
    case WriteCrMasked(_, mask) => s.(cr := PutMasked(s.cr, v[0], mask))
    case WriteXer(_) => s.(xer := v[0])
    case WriteLr(_) => s.(lr := v[0])
    case WriteCtr(_) => s.(ctr := v[0])
    case WriteMem(_, _, size) => s.(rest := s.rest.(mem := StoreBytes(s.rest.mem, v[0], v[1], size)))
    case FpuAccess(_, _, _) => s.(rest := env.fpu(opc, v[0], s.rest))
    case FpuCompareTo(f) => s.(cr := PutField(s.cr, f, env.fpuCr(opc, s.rest) % 16))
    case FpuRecord => s.(cr := PutField(s.cr, 1, env.fpuCr(opc, s.rest) % 16))
    case _ => s
  }

  /** A template reads everything it uses before its first write. */
  function RunFrom(env: Env, opc: Word, t: Template, entry: State, s: State): State
    decreases t
  {
    if t == [] then s
    else RunFrom(env, opc, t[1..], entry, RunCall(env, opc, t[0], EvalAll(env, t[0].Operands(), entry), s))
  }

  // --------------------------------------------------------------- branches

  function BranchLI(opc: Word): Word {
    var li := ((opc / 4) % 0x100_0000) * 4;
    if li >= 0x200_0000 then li + 0xfc00_0000 else li
  }

  function BranchBD(opc: Word): Word {
    var bd := ((opc / 4) % 0x4000) * 4;
    if bd >= 0x8000 then bd + 0xffff_0000 else bd
  }

  function Next(pc: Word): Word { Add(pc, 4) }

  function Aligned(w: Word): Word { w - w % 4 }

  function Decremented(opc: Word, ctr: Word): Word {
    if SkipsCtrTest(opc) then ctr else FromInt(ctr - 1)
  }

  /** The CTR part and the CR part of a branch condition. */
  predicate CtrOk(opc: Word, ctr: Word) {
    SkipsCtrTest(opc) || ((ctr != 0) != BitAt(FieldD(opc), 1))
  }

  predicate CrOk(opc: Word, cr: Word) {
    SkipsCrTest(opc) || (BitAt(cr, 31 - FieldA(opc)) == BitAt(FieldD(opc), 3))
  }

  function Jump(opc: Word, s: State, taken: bool, target: Word): State {
    if taken then s.(pc := target, lr := if LinkBit(opc) then Next(s.pc) else s.lr)
    else s.(pc := Next(s.pc))
  }

  function StepBranch(opc: Word, s: State): State {
    if MainOpcode(opc) == 18 then
      Jump(opc, s, true, if AbsoluteBit(opc) then BranchLI(opc) else Add(s.pc, BranchLI(opc)))
    else if MainOpcode(opc) == 16 then
      var c := Decremented(opc, s.ctr);
      Jump(opc, s.(ctr := c), CtrOk(opc, c) && CrOk(opc, s.cr),
           if AbsoluteBit(opc) then BranchBD(opc) else Add(s.pc, BranchBD(opc)))
    else if ExtOpcode(opc) == 528 then
      Jump(opc, s, CrOk(opc, s.cr), Aligned(s.ctr))
    else
      var c := Decremented(opc, s.ctr);
      Jump(opc, s.(ctr := c), CtrOk(opc, c) && CrOk(opc, s.cr), Aligned(s.lr))
  }

  /** One instruction of the interpreter. */
  function Step(env: Env, opc: Word, s: State): State {
    if TemplateOf(opc) == EVERYTHING then env.other(opc, s)
    else if IsBranch(opc) then StepBranch(opc, s)
    else RunFrom(env, opc, TemplateOf(opc), s, s).(pc := Next(s.pc))
  }

  function RunBlock(env: Env, code: seq<Word>, s: State): State {
    if code == [] then s else RunBlock(env, code[1..], Step(env, code[0], s))
  }
}
