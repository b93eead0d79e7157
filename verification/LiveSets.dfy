/** Sets of architectural resources as bit masks, and the finite sets they stand for. */
module LiveSets {
  import opened Words

  type XerMask = w: nat | w < 8

  const XER_BIT_CA: XerMask := 1
  const XER_BIT_SO: XerMask := 4
  const XER_BIT_ALL: XerMask := 7

  /** One bit per GPR, per CR bit and per tracked XER bit, and two flags. */
  datatype LiveSet = LiveSet(gpr: Word, cr: Word, xer: XerMask, lr: bool, ctr: bool)
  {
    function Union(o: LiveSet): LiveSet {
      LiveSet(Logic(Or, gpr, o.gpr), Logic(Or, cr, o.cr), XerLogic(Or, xer, o.xer), lr || o.lr, ctr || o.ctr)
    }

    function Intersect(o: LiveSet): LiveSet {
      LiveSet(Logic(And, gpr, o.gpr), Logic(And, cr, o.cr), XerLogic(And, xer, o.xer), lr && o.lr, ctr && o.ctr)
    }

    function Complemented(): LiveSet {
      LiveSet(Complement(gpr), Complement(cr), XER_BIT_ALL - xer, !lr, !ctr)
    }
  }

  /** (cr & mask) == 0 */
  predicate IsCrFieldDead(l: LiveSet, field: nat)
    requires field < 8
  {
    Logic(And, l.cr, FieldMask(field)) == 0
  }

  const ALL_LIVE := LiveSet(TWO32 - 1, TWO32 - 1, XER_BIT_ALL, true, true)
  const NONE := LiveSet(0, 0, 0, false, false)

  function XerLogic(op: BitOp, a: XerMask, b: XerMask): XerMask {
    assert Pow2(3) == 8;
    Bitwise(op, a, b, 3)
  }

  /** The mask 0xf << ((7 - field) * 4) of one CR field. */
  function FieldMask(field: nat): (m: Word)
    requires field < 8
  {
    Pow2Values();
    ShiftLeftBound(15, 4, (7 - field) * 4);
    Pow2Monotone(4 + (7 - field) * 4, 32);
    ShiftLeft(15, (7 - field) * 4)
  }

  lemma {:induction false} FieldMaskBits(field: nat)
    requires field < 8
    ensures forall i: nat | i < 32 :: BitAt(FieldMask(field), i) == (28 - 4 * field <= i < 32 - 4 * field)
  {
    forall i: nat | i < 32 ensures BitAt(FieldMask(field), i) == (28 - 4 * field <= i < 32 - 4 * field) {
      ShiftLeftBit(15, (7 - field) * 4, i);
      assert Ones(4) == 15;
      if (7 - field) * 4 <= i {
        OnesBit(4, i - (7 - field) * 4);
      }
    }
  }

  // ------------------------------------------------------------ resource sets

  /** Resources are numbered: 0-31 the GPRs, 32-63 the CR bits (by position in
      the mask), 64-66 XER.CA, XER.OV and XER.SO, 67 LR, 68 CTR. */
  const RESOURCES: nat := 69
  const XER_CA: nat := 64
  const XER_OV: nat := 65
  const XER_SO: nat := 66
  const LR: nat := 67
  const CTR: nat := 68

  predicate Has(l: LiveSet, i: nat) {
    if i < 32 then BitAt(l.gpr, i)
    else if i < 64 then BitAt(l.cr, i - 32)
    else if i < 67 then BitAt(l.xer, i - 64)
    else if i == LR then l.lr
    else i == CTR && l.ctr
  }

  ghost const Everything: set<nat> := set i: nat | i < RESOURCES

  ghost function Members(l: LiveSet): set<nat> {
    set i: nat | i < RESOURCES && Has(l, i)
  }

  /** The four CR bits of a field. */
  ghost function FieldBits(field: nat): set<nat>
    requires field < 8
  {
    {63 - 4 * field, 62 - 4 * field, 61 - 4 * field, 60 - 4 * field}
  }

  lemma {:induction false} UnionMembers(a: LiveSet, b: LiveSet)
    ensures Members(a.Union(b)) == Members(a) + Members(b)
  {
    LogicBits(Or, a.gpr, b.gpr);
    LogicBits(Or, a.cr, b.cr);
    forall i: nat | i < 3 ensures BitAt(XerLogic(Or, a.xer, b.xer), i) == (BitAt(a.xer, i) || BitAt(b.xer, i)) {
      BitwiseBit(Or, a.xer, b.xer, 3, i);
    }
  }

  lemma {:induction false} IntersectMembers(a: LiveSet, b: LiveSet)
    ensures Members(a.Intersect(b)) == Members(a) * Members(b)
  {
    LogicBits(And, a.gpr, b.gpr);
    LogicBits(And, a.cr, b.cr);
    forall i: nat | i < 3 ensures BitAt(XerLogic(And, a.xer, b.xer), i) == (BitAt(a.xer, i) && BitAt(b.xer, i)) {
      BitwiseBit(And, a.xer, b.xer, 3, i);
    }
  }

  lemma {:induction false} ComplementMembers(a: LiveSet)
    ensures Members(a.Complemented()) == Everything - Members(a)
  {
    ComplementBits(a.gpr);
    ComplementBits(a.cr);
    forall i: nat | i < 3 ensures BitAt(XER_BIT_ALL - a.xer, i) == !BitAt(a.xer, i) {
      assert Pow2(3) == 8;
      ComplementBit(a.xer, 3, i);
    }
  }

  lemma {:induction false} ConstantMembers()
    ensures Members(ALL_LIVE) == Everything
    ensures Members(NONE) == {}
  {
    ComplementMembers(NONE);
    forall i: nat ensures !BitAt(0, i) {
      ZeroBit(i);
    }
    assert NONE.Complemented() == ALL_LIVE;
  }

  /** The C++ comparison of two masks is equality of the sets they stand for. */
  lemma {:induction false} SameMembers(a: LiveSet, b: LiveSet)
    ensures a == b <==> Members(a) == Members(b)
  {
    if Members(a) == Members(b) {
      forall i: nat | i < RESOURCES ensures Has(a, i) == Has(b, i) {
        assert i in Members(a) <==> i in Members(b);
      }
      forall i: nat | i < 32 ensures BitAt(a.gpr, i) == BitAt(b.gpr, i) {
        assert Has(a, i) == Has(b, i);
      }
      WordsEqual(a.gpr, b.gpr);
      forall i: nat | i < 32 ensures BitAt(a.cr, i) == BitAt(b.cr, i) {
        assert Has(a, 32 + i) == Has(b, 32 + i);
      }
      WordsEqual(a.cr, b.cr);
      forall i: nat | i < 3 ensures BitAt(a.xer, i) == BitAt(b.xer, i) {
        assert Has(a, 64 + i) == Has(b, 64 + i);
      }
      assert Pow2(3) == 8;
      SameBits(a.xer, b.xer, 3);
      assert Has(a, LR) == Has(b, LR) && Has(a, CTR) == Has(b, CTR);
    }
  }

  /** The mask test says that none of the field's bits is in the set. */
  lemma {:induction false} DeadFieldMembers(l: LiveSet, field: nat)
    requires field < 8
    ensures IsCrFieldDead(l, field) <==> FieldBits(field) !! Members(l)
  {
    FieldMaskBits(field);
    var both := Logic(And, l.cr, FieldMask(field));
    forall i: nat | i < 32
      ensures BitAt(both, i) <==> 32 + i in Members(l) && 32 + i in FieldBits(field) {
      LogicBit(And, l.cr, FieldMask(field), i);
    }
    if FieldBits(field) !! Members(l) {
      forall i: nat | i < 32 ensures BitAt(both, i) == BitAt(0, i) {
        ZeroBit(i);
      }
      WordsEqual(both, 0);
    } else {
      var i :| i in FieldBits(field) && i in Members(l);
      assert BitAt(both, i - 32);
      ZeroBit(i - 32);
    }
  }
}
