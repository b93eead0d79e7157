/** What the carrying instructions compute, from the templates up to programs. */
module Carrying {
  import opened Words
  import opened Arithmetic
  import opened Templates
  import opened Machine
  import opened Soundness
  import opened LiveSets
  import opened Effects
  import opened Results

  predicate CarryOf(s: State) { BitAt(s.xer, 29) }

  /** The two numbers and the carry that an instruction adds up. */
  datatype Addends = Addends(x: Word, y: Word, c: Word)
  {
    function Total(): nat { x + y + c }
  }

  /** The carrying forms of the architecture: each adds rA or its complement,
      rB, an immediate, 0 or -1, and CA, 0 or 1. */
  predicate IsCarrying(opc: Word) {
    MainOpcode(opc) in {8, 12, 13}
    || (MainOpcode(opc) == 31 && ExtOpcode(opc) in {8, 10, 136, 138, 200, 202, 232, 234})
  }

  function AddendsOf(opc: Word, s: State): Addends
    requires IsCarrying(opc)
  {
    var a, b, ca := s.gpr[FieldA(opc)], s.gpr[FieldB(opc)], Bit(CarryOf(s));
    if MainOpcode(opc) == 8 then Addends(Complement(a), SImm(opc), 1)
    else if MainOpcode(opc) != 31 then Addends(a, SImm(opc), 0)
    else match ExtOpcode(opc)
      case 8 => Addends(Complement(a), b, 1)
      case 10 => Addends(a, b, 0)
      case 136 => Addends(Complement(a), b, ca)
      case 138 => Addends(a, b, ca)
      case 200 => Addends(Complement(a), 0, ca)
      case 202 => Addends(a, 0, ca)
      case 232 => Addends(Complement(a), 0xffff_ffff, ca)
      case _ => Addends(a, 0xffff_ffff, ca)
  }

  /** A template that writes rD and CA, and possibly CR0. */
  predicate Carries(t: Template, d: Reg, e: Exp, c: Exp) {
    t == [WriteGpr(d, e), WriteXerCa(c)] || t == [WriteGpr(d, e), WriteXerCa(c), WriteCr0(e)]
  }

  lemma {:induction false} RunCarrying(env: Env, opc: Word, d: Reg, e: Exp, c: Exp, t: Template, s: State)
    requires Carries(t, d, e, c)
    ensures var u := RunFrom(env, opc, t, s, s);
      u.gpr == s.gpr[d := Eval(env, e, s)] && (CarryOf(u) <==> Eval(env, c, s) != 0)
  {
    hide Eval, Logic, PutBit, PutField, Compared;
    var v := Eval(env, c, s);
    PutBitBits(s.xer, 29, v != 0, 29);
    assert EvalAll(env, [e], s) == [Eval(env, e, s)];
    assert EvalAll(env, [c], s) == [v];
    var s1 := RunCall(env, opc, t[0], [Eval(env, e, s)], s);
    var s2 := RunCall(env, opc, t[1], [v], s1);
    assert RunFrom(env, opc, t, s, s) == RunFrom(env, opc, t[1..], s, s1) == RunFrom(env, opc, t[1..][1..], s, s2);
    if |t| == 3 {
      assert t[1..][1..] == [WriteCr0(e)];
      assert RunFrom(env, opc, [WriteCr0(e)], s, s2) == RunCall(env, opc, t[2], [Eval(env, e, s)], s2);
    }
  }

  /** e and c are the low word and the carry of a sum. */
  ghost predicate Adds(env: Env, e: Exp, c: Exp, s: State, sum: Addends) {
    Eval(env, e, s) == sum.Total() % TWO32 && (Eval(env, c, s) != 0 <==> sum.Total() >= TWO32)
  }

  lemma {:induction false} AddTwice(a: Word, b: Word, c: Word)
    ensures Add(Add(a, b), c) == (a + b + c) % TWO32
  {
  }

  lemma {:induction false} TwoTerms(env: Env, x: Exp, y: Exp, s: State)
    ensures Eval(env, Sum(x, y), s) == Add(Eval(env, x, s), Eval(env, y, s))
    ensures Adds(env, Sum(x, y), Binary(CarryOut, x, y), s, Addends(Eval(env, x, s), Eval(env, y, s), 0))
  {
    hide Eval, CarryAdd;
    TwoOperands(env, x, y, s);
    CarriesAreExact(Eval(env, x, s), Eval(env, y, s), 0);
  }

  lemma {:induction false} TwoOperands(env: Env, x: Exp, y: Exp, s: State)
    ensures Eval(env, Sum(x, y), s) == Add(Eval(env, x, s), Eval(env, y, s))
    ensures Eval(env, Binary(CarryOut, x, y), s) == Truth(CarryAdd(Eval(env, x, s), Eval(env, y, s)))
  {
    hide Add, CarryAdd;
  }

  lemma {:induction false} ThreeTerms(env: Env, x: Exp, y: Exp, z: Exp, s: State)
    ensures Eval(env, Sum(Sum(x, y), z), s) == (Eval(env, x, s) + Eval(env, y, s) + Eval(env, z, s)) % TWO32
    ensures Adds(env, Sum(Sum(x, y), z), CarryOut3(x, y, z), s,
                 Addends(Eval(env, x, s), Eval(env, y, s), Eval(env, z, s)))
  {
    hide Eval, Add, Carry3;
    var a, b, c := Eval(env, x, s), Eval(env, y, s), Eval(env, z, s);
    TwoOperands(env, x, y, s);
    TwoOperands(env, Sum(x, y), z, s);
    ThreeCarry(env, x, y, z, s);
    CarriesAreExact(a, b, c);
    AddTwice(a, b, c);
  }

  lemma {:induction false} ThreeCarry(env: Env, x: Exp, y: Exp, z: Exp, s: State)
    ensures Eval(env, CarryOut3(x, y, z), s) == Truth(Carry3(Eval(env, x, s), Eval(env, y, s), Eval(env, z, s)))
  {
  }

  /** The short carry tests of the forms with 0 and -1. */
  lemma {:induction false} ShortCarries(env: Env, a: Exp, s: State)
    ensures var v, ca := Eval(env, a, s), Bit(CarryOf(s));
      (Eval(env, Binary(Test(Andc), Carry, Unary(NonZero, a)), s) != 0 <==> Complement(v) + ca >= TWO32)
      && (Eval(env, Binary(Test(And), Unary(AllOnes, a), Carry), s) != 0 <==> v + ca >= TWO32)
      && (Eval(env, Binary(Test(Orc), Carry, Unary(AllOnes, a)), s) != 0 <==> Complement(v) + 0xffff_ffff + ca >= TWO32)
      && (Eval(env, Binary(Test(Or), Unary(NonZero, a), Carry), s) != 0 <==> v + 0xffff_ffff + ca >= TWO32)
  {
    assert Eval(env, Carry, s) == Bit(CarryOf(s));
    assert Eval(env, Unary(NonZero, a), s) == Truth(Eval(env, a, s) != 0);
    assert Eval(env, Unary(AllOnes, a), s) == Truth(Eval(env, a, s) == 0xffff_ffff);
  }

  /** The result and carry expressions of each carrying template. */
  function ResultOf(opc: Word): Exp
    requires IsCarrying(opc)
  {
    var a, b, na, imm := A(opc), B(opc), Unary(Not, A(opc)), Imm(SImm(opc));
    if MainOpcode(opc) == 8 then Sum(Sum(na, imm), Imm(1))
    else if MainOpcode(opc) != 31 then Sum(a, imm)
    else match ExtOpcode(opc)
      case 8 => Sum(Sum(na, b), Imm(1))
      case 10 => Sum(a, b)
      case 136 => Sum(Sum(na, b), Carry)
      case 138 => Sum(Sum(a, b), Carry)
      case 200 => Sum(na, Carry)
      case 202 => Sum(a, Carry)
      case 232 => Sum(Sum(na, Carry), Imm(0xffff_ffff))
      case _ => Sum(Sum(a, Carry), Imm(0xffff_ffff))
  }

  function CarryExpOf(opc: Word): Exp
    requires IsCarrying(opc)
  {
    var a, b, na, imm := A(opc), B(opc), Unary(Not, A(opc)), Imm(SImm(opc));
    if MainOpcode(opc) == 8 then CarryOut3(na, imm, Imm(1))
    else if MainOpcode(opc) != 31 then Binary(CarryOut, a, imm)
    else match ExtOpcode(opc)
      case 8 => CarryOut3(na, b, Imm(1))
      case 10 => Binary(CarryOut, a, b)
      case 136 => CarryOut3(na, b, Carry)
      case 138 => CarryOut3(a, b, Carry)
      case 200 => Binary(Test(Andc), Carry, Unary(NonZero, a))
      case 202 => Binary(Test(And), Unary(AllOnes, a), Carry)
      case 232 => Binary(Test(Orc), Carry, Unary(AllOnes, a))
      case _ => Binary(Test(Or), Unary(NonZero, a), Carry)
  }

  lemma {:induction false} CarryingTemplate(opc: Word)
    requires IsCarrying(opc)
    ensures Carries(TemplateOf(opc), FieldD(opc), ResultOf(opc), CarryExpOf(opc))
    ensures !IsBranch(opc) && TemplateOf(opc) != EVERYTHING
  {
  }

  lemma {:induction false} Leaves(env: Env, opc: Word, s: State)
    ensures Eval(env, A(opc), s) == s.gpr[FieldA(opc)] && Eval(env, B(opc), s) == s.gpr[FieldB(opc)]
    ensures Eval(env, Unary(Not, A(opc)), s) == Complement(s.gpr[FieldA(opc)])
    ensures Eval(env, Carry, s) == Bit(CarryOf(s))
    ensures forall w :: Eval(env, Imm(w), s) == w
  {
  }

  lemma {:induction false} CarryingAdds(env: Env, opc: Word, s: State)
    requires IsCarrying(opc)
    ensures Adds(env, ResultOf(opc), CarryExpOf(opc), s, AddendsOf(opc, s))
  {
    hide Eval;
    var a, b, na, imm := A(opc), B(opc), Unary(Not, A(opc)), Imm(SImm(opc));
    Leaves(env, opc, s);
    if MainOpcode(opc) == 8 {
      ThreeTerms(env, na, imm, Imm(1), s);
    } else if MainOpcode(opc) != 31 {
      TwoTerms(env, a, imm, s);
    } else {
      ShortCarries(env, a, s);
      match ExtOpcode(opc)
      case 8 => ThreeTerms(env, na, b, Imm(1), s);
      case 10 => TwoTerms(env, a, b, s);
      case 136 => ThreeTerms(env, na, b, Carry, s);
      case 138 => ThreeTerms(env, a, b, Carry, s);
      case 200 => TwoTerms(env, na, Carry, s);
      case 202 => TwoTerms(env, a, Carry, s);
      case 232 => ThreeTerms(env, na, Carry, Imm(0xffff_ffff), s);
      case _ => ThreeTerms(env, a, Carry, Imm(0xffff_ffff), s);
    }
  }

  /** Every carrying instruction adds exactly: rD and CA together are the sum. */
  lemma {:induction false} CarryingIsExact(env: Env, opc: Word, s: State)
    requires IsCarrying(opc)
    ensures var total := AddendsOf(opc, s).Total();
      Step(env, opc, s).gpr == s.gpr[FieldD(opc) := total % TWO32]
      && (CarryOf(Step(env, opc, s)) <==> total >= TWO32)
  {
    hide RunFrom, TemplateOf, Eval, AddendsOf, ResultOf, CarryExpOf, Carries, StepBranch, IsCarrying;
    CarryingTemplate(opc);
    RunCarrying(env, opc, FieldD(opc), ResultOf(opc), CarryExpOf(opc), TemplateOf(opc), s);
    CarryingAdds(env, opc, s);
  }

  predicate Records0(opc: Word) { if MainOpcode(opc) == 31 then RecordBit(opc) else MainOpcode(opc) == 13 }

  lemma {:induction false} CarryingCalls(opc: Word)
    requires IsCarrying(opc)
    ensures TemplateOf(opc) == CarryCalls(FieldD(opc), ResultOf(opc), CarryExpOf(opc), Records0(opc))
  {
  }

  /** Whether the sum has rB, and whether it has CA. */
  predicate UsesB(opc: Word) { MainOpcode(opc) == 31 && ExtOpcode(opc) in {8, 10, 136, 138} }
  predicate UsesCa(opc: Word) { MainOpcode(opc) == 31 && ExtOpcode(opc) !in {8, 10} }

  ghost function CarryingReads(opc: Word): set<nat> {
    {FieldA(opc) as nat} + (if UsesB(opc) then {FieldB(opc) as nat} else {}) + (if UsesCa(opc) then {XER_CA} else {})
  }

  lemma {:induction false} CarryingExpReads(opc: Word)
    requires IsCarrying(opc)
    ensures ExpReads(ResultOf(opc)) + ExpReads(CarryExpOf(opc)) == CarryingReads(opc)
    ensures !ExpLoads(ResultOf(opc)) && !ExpLoads(CarryExpOf(opc))
  {
    hide MainOpcode, ExtOpcode, FieldA, FieldB, SImm;
    var a, b, na := A(opc), B(opc), Unary(Not, A(opc));
    assert ExpReads(a) == {FieldA(opc)} && !ExpLoads(a) && !ExpLoads(b) && !ExpLoads(Carry);
    assert ExpReads(na) == {FieldA(opc)} && !ExpLoads(na);
    assert forall w :: ExpReads(Imm(w)) == {} && !ExpLoads(Imm(w));
    TwoTermReads(na, b);
    TwoTermReads(a, b);
    TwoTermReads(na, Carry);
    TwoTermReads(a, Carry);
    TwoTermReads(na, Imm(SImm(opc)));
    TwoTermReads(a, Imm(SImm(opc)));
    assert ExpReads(Unary(NonZero, a)) == ExpReads(Unary(AllOnes, a)) == {FieldA(opc)};
  }

  lemma {:induction false} TwoTermReads(x: Exp, y: Exp)
    ensures ExpReads(Sum(x, y)) == ExpReads(x) + ExpReads(y) && ExpLoads(Sum(x, y)) == (ExpLoads(x) || ExpLoads(y))
  {
  }

  /** The whole state after a carrying form, and what is recorded for it. */
  lemma {:induction false} CarryingComputes(env: Env, opc: Word, s: State)
    requires IsCarrying(opc)
    ensures var total := AddendsOf(opc, s).Total();
      ComputesCarry(env, opc, s, FieldD(opc), total % TWO32, total >= TWO32, CarryingReads(opc), Records0(opc))
  {
    hide TemplateOf, Eval, AddendsOf, ResultOf, CarryExpOf, IsCarrying, ExpReads, ExpLoads, CarryingReads,
         ComputesCarry, Records0;
    CarryingCalls(opc);
    CarryingExpReads(opc);
    CarryingAdds(env, opc, s);
    CarryComputes(env, opc, s, FieldD(opc), ResultOf(opc), CarryExpOf(opc), Records0(opc));
  }

  // ------------------------------------------------------- multiword programs

  predicate IsAddWithCarry(opc: Word) { MainOpcode(opc) == 31 && ExtOpcode(opc) == 138 }
  predicate IsSubtractWithCarry(opc: Word) { MainOpcode(opc) == 31 && ExtOpcode(opc) == 136 }

  /** No instruction overwrites what a later one reads or writes. */
  predicate Independent(code: seq<Word>) {
    code == [] || (
      (forall opc | opc in code[1..] ::
         FieldD(code[0]) != FieldA(opc) && FieldD(code[0]) != FieldB(opc) && FieldD(code[0]) != FieldD(opc))
      && Independent(code[1..]))
  }

  /** The limbs in the destination, the first and the second source registers. */
  function LimbsD(code: seq<Word>, g: Gprs): (l: seq<Word>)
    ensures |l| == |code|
  {
    if code == [] then [] else [g[FieldD(code[0])]] + LimbsD(code[1..], g)
  }

  function LimbsA(code: seq<Word>, g: Gprs): (l: seq<Word>)
    ensures |l| == |code|
  {
    if code == [] then [] else [g[FieldA(code[0])]] + LimbsA(code[1..], g)
  }

  function LimbsB(code: seq<Word>, g: Gprs): (l: seq<Word>)
    ensures |l| == |code|
  {
    if code == [] then [] else [g[FieldB(code[0])]] + LimbsB(code[1..], g)
  }

  lemma {:induction false} LimbsKeep(code: seq<Word>, g: Gprs, r: Reg, w: Word)
    requires forall opc | opc in code :: r != FieldA(opc) && r != FieldB(opc)
    ensures LimbsA(code, g[r := w]) == LimbsA(code, g) && LimbsB(code, g[r := w]) == LimbsB(code, g)
  {
    if code != [] {
      assert code[0] in code;
      LimbsKeep(code[1..], g, r, w);
    }
  }

  predicate AllAddWithCarry(code: seq<Word>) { forall opc | opc in code :: IsAddWithCarry(opc) }
  predicate AllSubtractWithCarry(code: seq<Word>) { forall opc | opc in code :: IsSubtractWithCarry(opc) }

  lemma {:induction false} UntouchedRegister(env: Env, code: seq<Word>, s: State, r: Reg)
    requires AllAddWithCarry(code) || AllSubtractWithCarry(code)
    requires forall opc | opc in code :: r != FieldD(opc)
    ensures RunBlock(env, code, s).gpr[r] == s.gpr[r]
  {
    hide Step;
    if code != [] {
      assert code[0] in code;
      CarryingIsExact(env, code[0], s);
      UntouchedRegister(env, code[1..], Step(env, code[0], s), r);
    }
  }

  lemma {:induction false} AddendsWithCarry(opc: Word, s: State)
    requires IsAddWithCarry(opc) || IsSubtractWithCarry(opc)
    ensures IsCarrying(opc)
    ensures IsAddWithCarry(opc) ==>
      AddendsOf(opc, s).Total() == s.gpr[FieldA(opc)] + s.gpr[FieldB(opc)] + Bit(CarryOf(s))
    ensures IsSubtractWithCarry(opc) ==>
      AddendsOf(opc, s).Total() == Complement(s.gpr[FieldA(opc)]) + s.gpr[FieldB(opc)] + Bit(CarryOf(s))
  {
    hide Complement;
  }

  lemma {:induction false} AddeIsSum(a: Word, b: Word, ca: bool)
    ensures var total := a + b + Bit(ca); Adde(a, b, ca) == (total % TWO32, total >= TWO32)
  {
    hide Add, Carry3;
    CarriesAreExact(a, b, Bit(ca));
    AddTwice(a, b, Bit(ca));
  }

  lemma {:induction false} AddLimb(env: Env, opc: Word, s: State)
    requires IsAddWithCarry(opc)
    ensures var (v, c) := Adde(s.gpr[FieldA(opc)], s.gpr[FieldB(opc)], CarryOf(s));
      Step(env, opc, s).gpr == s.gpr[FieldD(opc) := v] && CarryOf(Step(env, opc, s)) == c
  {
    hide *;
    AddendsWithCarry(opc, s);
    CarryingIsExact(env, opc, s);
    AddeIsSum(s.gpr[FieldA(opc)], s.gpr[FieldB(opc)], CarryOf(s));
  }

  /** Running adde after adde is the limb-wise addition. */
  lemma {:induction false} RunAddTail(env: Env, code: seq<Word>, s: State)
    requires AllAddWithCarry(code) && Independent(code)
    ensures var u := RunBlock(env, code, s);
      (LimbsD(code, u.gpr), CarryOf(u)) == AddTail(LimbsA(code, s.gpr), LimbsB(code, s.gpr), CarryOf(s))
  {
    hide Step, Adde, CarryOf;
    if code != [] {
      assert code[0] in code;
      var s1 := Step(env, code[0], s);
      AddLimb(env, code[0], s);
      LimbsKeep(code[1..], s.gpr, FieldD(code[0]), s1.gpr[FieldD(code[0])]);
      UntouchedRegister(env, code[1..], s1, FieldD(code[0]));
      RunAddTail(env, code[1..], s1);
    }
  }

  lemma {:induction false} SubfeIsSum(a: Word, b: Word, ca: bool)
    ensures var total := Complement(a) + b + Bit(ca); Subfe(a, b, ca) == (total % TWO32, total >= TWO32)
  {
    hide Add, Carry3;
    CarriesAreExact(Complement(a), b, Bit(ca));
    AddTwice(Complement(a), b, Bit(ca));
  }

  lemma {:induction false} SubtractLimb(env: Env, opc: Word, s: State)
    requires IsSubtractWithCarry(opc)
    ensures var (v, c) := Subfe(s.gpr[FieldA(opc)], s.gpr[FieldB(opc)], CarryOf(s));
      Step(env, opc, s).gpr == s.gpr[FieldD(opc) := v] && CarryOf(Step(env, opc, s)) == c
  {
    hide *;
    AddendsWithCarry(opc, s);
    CarryingIsExact(env, opc, s);
    SubfeIsSum(s.gpr[FieldA(opc)], s.gpr[FieldB(opc)], CarryOf(s));
  }

  lemma {:induction false} RunSubtractTail(env: Env, code: seq<Word>, s: State)
    requires AllSubtractWithCarry(code) && Independent(code)
    ensures var u := RunBlock(env, code, s);
      (LimbsD(code, u.gpr), CarryOf(u)) == SubTail(LimbsA(code, s.gpr), LimbsB(code, s.gpr), CarryOf(s))
  {
    hide Step, Subfe, CarryOf;
    if code != [] {
      assert code[0] in code;
      var s1 := Step(env, code[0], s);
      SubtractLimb(env, code[0], s);
      LimbsKeep(code[1..], s.gpr, FieldD(code[0]), s1.gpr[FieldD(code[0])]);
      UntouchedRegister(env, code[1..], s1, FieldD(code[0]));
      RunSubtractTail(env, code[1..], s1);
    }
  }

  /** addc and then adde on every further limb: the exact sum, with CA on top. */
  lemma {:induction false} MultiwordAddProgram(env: Env, code: seq<Word>, s: State)
    requires code != [] && MainOpcode(code[0]) == 31 && ExtOpcode(code[0]) == 10
    requires AllAddWithCarry(code[1..]) && Independent(code)
    ensures var u := RunBlock(env, code, s);
      Value(LimbsD(code, u.gpr)) + CarryWorth(CarryOf(u), |code|)
        == Value(LimbsA(code, s.gpr)) + Value(LimbsB(code, s.gpr))
  {
    hide Step;
    var s1 := Step(env, code[0], s);
    var a, b := s.gpr[FieldA(code[0])], s.gpr[FieldB(code[0])];
    CarryingIsExact(env, code[0], s);
    CarriesAreExact(a, b, 0);
    LimbsKeep(code[1..], s.gpr, FieldD(code[0]), s1.gpr[FieldD(code[0])]);
    UntouchedRegister(env, code[1..], s1, FieldD(code[0]));
    RunAddTail(env, code[1..], s1);
    var la, lb := LimbsA(code, s.gpr), LimbsB(code, s.gpr);
    assert la[1..] == LimbsA(code[1..], s1.gpr) && lb[1..] == LimbsB(code[1..], s1.gpr);
    var u := RunBlock(env, code, s);
    assert (LimbsD(code, u.gpr), CarryOf(u)) == AddLimbs(la, lb);
    MultiwordAdd(la, lb);
  }

  /** subfc and then subfe: rB - rA modulo the radix, and CA when nothing is borrowed. */
  lemma {:induction false} MultiwordSubtractProgram(env: Env, code: seq<Word>, s: State)
    requires code != [] && MainOpcode(code[0]) == 31 && ExtOpcode(code[0]) == 8
    requires AllSubtractWithCarry(code[1..]) && Independent(code)
    ensures var u := RunBlock(env, code, s);
      var a, b := Value(LimbsA(code, s.gpr)), Value(LimbsB(code, s.gpr));
      (CarryOf(u) <==> a <= b)
      && Value(LimbsD(code, u.gpr)) == if a <= b then b - a else b - a + Radix(|code|)
  {
    hide Step;
    var s1 := Step(env, code[0], s);
    var a, b := s.gpr[FieldA(code[0])], s.gpr[FieldB(code[0])];
    CarryingIsExact(env, code[0], s);
    CarriesAreExact(Complement(a), b, 1);
    AddTwice(Complement(a), b, 1);
    LimbsKeep(code[1..], s.gpr, FieldD(code[0]), s1.gpr[FieldD(code[0])]);
    UntouchedRegister(env, code[1..], s1, FieldD(code[0]));
    RunSubtractTail(env, code[1..], s1);
    var la, lb := LimbsA(code, s.gpr), LimbsB(code, s.gpr);
    assert la[1..] == LimbsA(code[1..], s1.gpr) && lb[1..] == LimbsB(code[1..], s1.gpr);
    var u := RunBlock(env, code, s);
    assert (LimbsD(code, u.gpr), CarryOf(u)) == SubLimbs(la, lb);
    MultiwordSubtract(la, lb);
  }
}
