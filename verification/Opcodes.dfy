/** Instruction words of the architecture's forms, and that decoding finds their fields. */
module Opcodes {
  import opened Words
  import opened Arithmetic
  import opened Templates
  import opened Machine

  /** A word from its main opcode, three register fields and the eleven lowest bits. */
  function Form(main: nat, d: nat, a: nat, b: nat, low: nat): Word
    requires main < 64 && d < 32 && a < 32 && b < 32 && low < 2048
  {
    main * 0x400_0000 + d * 0x20_0000 + a * 0x1_0000 + b * 0x800 + low
  }

  function XForm(main: nat, d: nat, a: nat, b: nat, ext: nat, rc: bool): Word
    requires main < 64 && d < 32 && a < 32 && b < 32 && ext < 1024
  {
    Form(main, d, a, b, 2 * ext + (if rc then 1 else 0))
  }

  function MForm(main: nat, d: nat, a: nat, b: nat, mb: nat, me: nat, rc: bool): Word
    requires main < 64 && d < 32 && a < 32 && b < 32 && mb < 32 && me < 32
  {
    Form(main, d, a, b, 0x40 * mb + 2 * me + (if rc then 1 else 0))
  }

  function DForm(main: nat, d: nat, a: nat, imm: int): Word
    requires main < 64 && d < 32 && a < 32 && -0x8000 <= imm < 0x1_0000
  {
    main * 0x400_0000 + d * 0x20_0000 + a * 0x1_0000 + imm % 0x1_0000
  }

  function XfxForm(main: nat, d: nat, crm: nat, ext: nat): Word
    requires main < 64 && d < 32 && crm < 256 && ext < 1024
  {
    main * 0x400_0000 + d * 0x20_0000 + crm * 0x1000 + 2 * ext
  }

  /** One digit of a mixed-radix number. */
  lemma {:induction false} Digit(hi: nat, mid: nat, q: nat, lo: nat, p: nat)
    requires mid < q && lo < p
    ensures ((hi * q + mid) * p + lo) / p % q == mid
  {
    Unique((hi * q + mid) * p + lo, p, hi * q + mid, lo);
    Unique(hi * q + mid, q, hi, mid);
  }

  lemma {:induction false} FormFields(main: nat, d: nat, a: nat, b: nat, low: nat)
    requires main < 64 && d < 32 && a < 32 && b < 32 && low < 2048
    ensures var opc := Form(main, d, a, b, low);
      MainOpcode(opc) == main && FieldD(opc) == d && FieldA(opc) == a && FieldB(opc) == b && opc % 2048 == low
  {
    Digit(0, main, 64, d * 0x20_0000 + a * 0x1_0000 + b * 0x800 + low, 0x400_0000);
    Digit(main, d, 32, a * 0x1_0000 + b * 0x800 + low, 0x20_0000);
    Digit(main * 32 + d, a, 32, b * 0x800 + low, 0x1_0000);
    Digit((main * 32 + d) * 32 + a, b, 32, low, 0x800);
  }

  lemma {:induction false} LowFields(opc: Word, low: nat)
    requires opc % 2048 == low
    ensures ExtOpcode(opc) == low / 2 && (RecordBit(opc) <==> low % 2 == 1) && (LinkBit(opc) <==> low % 2 == 1)
  {
    var hi, ext, r := opc / 2048, low / 2, low % 2;
    assert opc == (hi * 1024 + ext) * 2 + r;
    Digit(hi, ext, 1024, r, 2);
    Unique(opc, 2, hi * 1024 + ext, r);
  }

  lemma {:induction false} LowMaskFields(opc: Word, mb: nat, me: nat, r: nat)
    requires opc % 2048 == 0x40 * mb + 2 * me + r && mb < 32 && me < 32 && r < 2
    ensures FieldMB(opc) == mb && FieldME(opc) == me
  {
    var hi := opc / 2048;
    assert opc == (hi * 32 + mb) * 0x40 + (2 * me + r) == ((hi * 32 + mb) * 32 + me) * 2 + r;
    Digit(hi, mb, 32, 2 * me + r, 0x40);
    Digit(hi * 32 + mb, me, 32, r, 2);
  }

  /** The fields of a register form. */
  lemma {:induction false} XFormDecodes(main: nat, d: nat, a: nat, b: nat, ext: nat, rc: bool)
    requires main < 64 && d < 32 && a < 32 && b < 32 && ext < 1024
    ensures var opc := XForm(main, d, a, b, ext, rc);
      MainOpcode(opc) == main && FieldD(opc) == d && FieldA(opc) == a && FieldB(opc) == b
      && ExtOpcode(opc) == ext && RecordBit(opc) == rc && LinkBit(opc) == rc
  {
    hide MainOpcode, FieldD, FieldA, FieldB, ExtOpcode, Form;
    var low := 2 * ext + (if rc then 1 else 0);
    FormFields(main, d, a, b, low);
    LowFields(Form(main, d, a, b, low), low);
  }

  /** The fields of a rotate form. */
  lemma {:induction false} MFormDecodes(main: nat, d: nat, a: nat, b: nat, mb: nat, me: nat, rc: bool)
    requires main < 64 && d < 32 && a < 32 && b < 32 && mb < 32 && me < 32
    ensures var opc := MForm(main, d, a, b, mb, me, rc);
      MainOpcode(opc) == main && FieldD(opc) == d && FieldA(opc) == a && FieldB(opc) == b
      && FieldMB(opc) == mb && FieldME(opc) == me && RecordBit(opc) == rc
  {
    hide MainOpcode, FieldD, FieldA, FieldB, FieldMB, FieldME, Form;
    var r := if rc then 1 else 0;
    var low := 0x40 * mb + 2 * me + r;
    FormFields(main, d, a, b, low);
    LowMaskFields(Form(main, d, a, b, low), mb, me, r);
    LowFields(Form(main, d, a, b, low), low);
    Unique(low, 2, 0x20 * mb + me, r);
  }

  /** The fields of an immediate form: signed, unsigned and shifted readings of its 16 bits. */
  lemma {:induction false} DFormDecodes(main: nat, d: nat, a: nat, imm: int)
    requires main < 64 && d < 32 && a < 32 && -0x8000 <= imm < 0x1_0000
    ensures var opc := DForm(main, d, a, imm);
      MainOpcode(opc) == main && FieldD(opc) == d && FieldA(opc) == a
      && (imm < 0x8000 ==> Signed(SImm(opc)) == imm)
      && (imm >= 0 ==> UImm(opc) == imm && Shift16(opc) == imm * 0x1_0000)
  {
    var low := imm % 0x1_0000;
    Digit(0, main, 64, d * 0x20_0000 + a * 0x1_0000 + low, 0x400_0000);
    Digit(main, d, 32, a * 0x1_0000 + low, 0x20_0000);
    Digit(main * 32 + d, a, 32, low, 0x1_0000);
    assert DForm(main, d, a, imm) == ((main * 32 + d) * 32 + a) * 0x1_0000 + low;
    Unique(DForm(main, d, a, imm), 0x1_0000, (main * 32 + d) * 32 + a, low);
  }

  lemma {:induction false} XfxFormDecodes(main: nat, d: nat, crm: nat, ext: nat)
    requires main < 64 && d < 32 && crm < 256 && ext < 1024
    ensures var opc := XfxForm(main, d, crm, ext);
      MainOpcode(opc) == main && FieldD(opc) == d && FieldCRM(opc) == crm && ExtOpcode(opc) == ext
  {
    var low := crm * 0x1000 + 2 * ext;
    Digit(0, main, 64, d * 0x20_0000 + low, 0x400_0000);
    Digit(main, d, 32, low, 0x20_0000);
    Digit((main * 32 + d) * 2, crm, 256, 2 * ext, 0x1000);
    assert XfxForm(main, d, crm, ext) == (((main * 32 + d) * 2) * 256 + crm) * 0x1000 + 2 * ext;
    Digit(((main * 32 + d) * 2 * 256 + crm) * 2, ext, 1024, 0, 2);
  }

  // ----------------------------------------------------- branch displacements

  /** b, ba, bl and bla to d, and bc with its condition. */
  function BForm(d: int, absolute: bool, link: bool): Word
    requires -0x200_0000 <= d < 0x200_0000 && d % 4 == 0
  {
    18 * 0x400_0000 + d % 0x400_0000 + (if absolute then 2 else 0) + (if link then 1 else 0)
  }

  function BcForm(bo: nat, bi: nat, d: int, absolute: bool, link: bool): Word
    requires bo < 32 && bi < 32 && -0x8000 <= d < 0x8000 && d % 4 == 0
  {
    16 * 0x400_0000 + bo * 0x20_0000 + bi * 0x1_0000 + d % 0x1_0000
    + (if absolute then 2 else 0) + (if link then 1 else 0)
  }

  /** The two lowest bits and the digit above them. */
  lemma {:induction false} TargetDigits(opc: Word, hi: nat, digit: nat, q: nat, absolute: bool, link: bool)
    requires digit < q && opc == (hi * q + digit) * 4 + (if absolute then 2 else 0) + (if link then 1 else 0)
    ensures opc / 4 % q == digit && AbsoluteBit(opc) == absolute && LinkBit(opc) == link
  {
    var x, a, r := hi * q + digit, if absolute then 1 else 0, if link then 1 else 0;
    Digit(hi, digit, q, 2 * a + r, 4);
    assert opc == (x * 2 + a) * 2 + r;
    Digit(x, a, 2, r, 2);
    Unique(opc, 2, x * 2 + a, r);
  }

  lemma {:induction false} BFormDecodes(d: int, absolute: bool, link: bool)
    requires -0x200_0000 <= d < 0x200_0000 && d % 4 == 0
    ensures var opc := BForm(d, absolute, link);
      MainOpcode(opc) == 18 && BranchLI(opc) == d % TWO32 && AbsoluteBit(opc) == absolute && LinkBit(opc) == link
  {
    hide AbsoluteBit, LinkBit;
    var m: nat := if d < 0 then d + 0x400_0000 else d;
    Unique(d, 0x400_0000, if d < 0 then -1 else 0, m);
    Unique(d, TWO32, if d < 0 then -1 else 0, if d < 0 then d + TWO32 else d);
    var k := m / 4;
    assert m == 4 * k;
    TargetDigits(BForm(d, absolute, link), 18, k, 0x100_0000, absolute, link);
    Digit(0, 18, 64, m + (if absolute then 2 else 0) + (if link then 1 else 0), 0x400_0000);
  }

  function BcLow(d: int, absolute: bool, link: bool): nat {
    d % 0x1_0000 + (if absolute then 2 else 0) + (if link then 1 else 0)
  }

  lemma {:induction false} BcFields(bo: nat, bi: nat, low: nat)
    requires bo < 32 && bi < 32 && low < 0x1_0000
    ensures var opc: Word := 16 * 0x400_0000 + bo * 0x20_0000 + bi * 0x1_0000 + low;
      MainOpcode(opc) == 16 && FieldD(opc) == bo && FieldA(opc) == bi
  {
    Digit(0, 16, 64, bo * 0x20_0000 + bi * 0x1_0000 + low, 0x400_0000);
    Digit(16, bo, 32, bi * 0x1_0000 + low, 0x20_0000);
    Digit(16 * 32 + bo, bi, 32, low, 0x1_0000);
  }

  lemma {:induction false} BcDisplacement(opc: Word, hi: nat, d: int, absolute: bool, link: bool)
    requires -0x8000 <= d < 0x8000 && d % 4 == 0 && opc == hi * 0x1_0000 + BcLow(d, absolute, link)
    ensures BranchBD(opc) == d % TWO32 && AbsoluteBit(opc) == absolute && LinkBit(opc) == link
  {
    hide AbsoluteBit, LinkBit;
    var m: nat := if d < 0 then d + 0x1_0000 else d;
    Unique(d, 0x1_0000, if d < 0 then -1 else 0, m);
    Unique(d, TWO32, if d < 0 then -1 else 0, if d < 0 then d + TWO32 else d);
    var k := m / 4;
    assert m == 4 * k;
    TargetDigits(opc, hi, k, 0x4000, absolute, link);
  }

  lemma {:induction false} BcFormDecodes(bo: nat, bi: nat, d: int, absolute: bool, link: bool)
    requires bo < 32 && bi < 32 && -0x8000 <= d < 0x8000 && d % 4 == 0
    ensures var opc := BcForm(bo, bi, d, absolute, link);
      MainOpcode(opc) == 16 && FieldD(opc) == bo && FieldA(opc) == bi
      && BranchBD(opc) == d % TWO32 && AbsoluteBit(opc) == absolute && LinkBit(opc) == link
  {
    hide MainOpcode, FieldD, FieldA, BranchBD, AbsoluteBit, LinkBit;
    LowFits(d, absolute, link);
    BcFields(bo, bi, BcLow(d, absolute, link));
    BcDisplacement(BcForm(bo, bi, d, absolute, link), (16 * 32 + bo) * 32 + bi, d, absolute, link);
  }

  lemma {:induction false} LowFits(d: int, absolute: bool, link: bool)
    requires d % 4 == 0
    ensures BcLow(d, absolute, link) < 0x1_0000
  {
  }
}
