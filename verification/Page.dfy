/** One 4 KiB page of code: scanning a block and finding where control goes next. */
module Page {
  import opened Words
  import opened LiveSets
  import opened Arithmetic
  import opened Templates
  import opened Effects
  import opened Machine

  const PAGE_SIZE: nat := 4096

  /** The page as 1024 instruction words. */
  type Page = p: seq<Word> | |p| == 1024 witness seq(1024, _ => 0)

  /** The analysis function handed to the scanner. */
  type Analyzer = Word -> InsnEffect

  /** A page offset at which an instruction can start. */
  predicate IsSlot(o: nat) {
    o < PAGE_SIZE && o % 4 == 0
  }

  function InsnAt(page: Page, o: nat): Word
    requires o < PAGE_SIZE
  {
    page[o / 4]
  }

  // --------------------------------------------------------- branch decoding

  /** The signed target of bx and bcx, relative to the page or absolute. */
  function SignedTarget(opc: Word, ofs: nat): int
    requires ofs < PAGE_SIZE && (MainOpcode(opc) == 18 || MainOpcode(opc) == 16)
  {
    var displacement := if MainOpcode(opc) == 18 then BranchLI(opc) else BranchBD(opc);
    if AbsoluteBit(opc) then Signed(displacement) else Signed(Add(ofs, displacement))
  }

  /** The branch target as a page offset, or -1 when it is unknown or off the page. */
  function DecodeBranchTarget(opc: Word, ofs: nat): (t: int)
    requires ofs < PAGE_SIZE
    ensures t == -1 || 0 <= t < PAGE_SIZE
  {
    if MainOpcode(opc) == 18 || MainOpcode(opc) == 16 then
      var target := SignedTarget(opc, ofs);
      if 0 <= target < PAGE_SIZE then target else -1
    else -1
  }

  lemma {:induction false} DisplacementsAligned(opc: Word)
    ensures BranchLI(opc) % 4 == 0 && BranchBD(opc) % 4 == 0
  {
    FourTimes((opc / 4) % 0x100_0000);
    FourTimes((opc / 4) % 0x4000);
  }

  lemma {:induction false} FourTimes(x: nat)
    ensures x * 4 % 4 == 0 && (x * 4 + 0xfc00_0000) % 4 == 0 && (x * 4 + 0xffff_0000) % 4 == 0
  {
  }

  lemma {:induction false} SignedAligned(a: Word)
    requires a % 4 == 0
    ensures Signed(a) % 4 == 0
  {
  }

  lemma {:induction false} TargetAligned(opc: Word, ofs: nat)
    requires IsSlot(ofs)
    ensures DecodeBranchTarget(opc, ofs) >= 0 ==> IsSlot(DecodeBranchTarget(opc, ofs))
  {
    hide BranchLI, BranchBD, Signed, AbsoluteBit, MainOpcode;
    DisplacementsAligned(opc);
    if MainOpcode(opc) == 18 || MainOpcode(opc) == 16 {
      var d := if MainOpcode(opc) == 18 then BranchLI(opc) else BranchBD(opc);
      SignedAligned(d);
      SignedAligned(Add(ofs, d));
    }
  }

  /** Always taken, no fall-through. */
  predicate IsUnconditionalBranch(opc: Word) {
    || MainOpcode(opc) == 18
    || (MainOpcode(opc) == 16 && SkipsCtrTest(opc) && SkipsCrTest(opc))
    || (MainOpcode(opc) == 19 && (ExtOpcode(opc) == 16 || ExtOpcode(opc) == 528)
        && SkipsCtrTest(opc) && SkipsCrTest(opc))
  }

  // ----------------------------------------------------------------- scanning

  predicate EndsBlock(fx: InsnEffect) {
    fx.isEverything || fx.isBranch
  }

  /** Past-the-end offset of the block that starts at o. */
  function ScanEnd(page: Page, an: Analyzer, o: nat): (e: nat)
    requires IsSlot(o)
    ensures o < e <= PAGE_SIZE && e % 4 == 0
    decreases PAGE_SIZE - o
  {
    if EndsBlock(an(InsnAt(page, o))) || o + 4 == PAGE_SIZE then o + 4
    else ScanEnd(page, an, o + 4)
  }

  /** A block ends at its first branch or unmodelled instruction, or with the page. */
  lemma {:induction false} ScanEndIsFirst(page: Page, an: Analyzer, o: nat)
    requires IsSlot(o)
    ensures var e := ScanEnd(page, an, o);
            && (forall k | o <= k < e - 4 && k % 4 == 0 :: !EndsBlock(an(InsnAt(page, k))))
            && (e < PAGE_SIZE ==> EndsBlock(an(InsnAt(page, e - 4))))
    decreases PAGE_SIZE - o
  {
    if !EndsBlock(an(InsnAt(page, o))) && o + 4 < PAGE_SIZE {
      ScanEndIsFirst(page, an, o + 4);
    }
  }

  /** gen |= reads & ~kill, field by field. */
  function AddExposed(gen: LiveSet, kill: LiveSet, read: LiveSet): LiveSet {
    LiveSet(Logic(Or, gen.gpr, Logic(Andc, read.gpr, kill.gpr)),
            Logic(Or, gen.cr, Logic(Andc, read.cr, kill.cr)),
            XerLogic(Or, gen.xer, XerLogic(Andc, read.xer, kill.xer)),
            gen.lr || (read.lr && !kill.lr),
            gen.ctr || (read.ctr && !kill.ctr))
  }

  /** gen and kill of the rest of a block, after gen and kill so far. */
  function ScanSummary(page: Page, an: Analyzer, o: nat, gen: LiveSet, kill: LiveSet): (LiveSet, LiveSet)
    requires o == PAGE_SIZE || IsSlot(o)
    decreases PAGE_SIZE - o
  {
    if o == PAGE_SIZE then (gen, kill)
    else
      var fx := an(InsnAt(page, o));
      if fx.isEverything then (ALL_LIVE, ALL_LIVE)
      else
        var g, k := AddExposed(gen, kill, fx.read), kill.Union(fx.write);
        if fx.isBranch then (g, k) else ScanSummary(page, an, o + 4, g, k)
  }

  // --------------------------------------------------------- where it goes next

  /** The offsets a discovered block puts on the worklist, in order. */
  function Pushes(page: Page, an: Analyzer, o: nat): (q: seq<nat>)
    requires IsSlot(o)
    ensures |q| <= 2 && forall x | x in q :: IsSlot(x)
  {
    var end := ScanEnd(page, an, o);
    var opc := InsnAt(page, end - 4);
    var fx := an(opc);
    if fx.isBranch then
      var t := DecodeBranchTarget(opc, end - 4);
      TargetAligned(opc, end - 4);
      (if t >= 0 then [t] else []) + (if !IsUnconditionalBranch(opc) && end < PAGE_SIZE then [end] else [])
    else if fx.isEverything && end < PAGE_SIZE then [end]
    else []
  }

  /** A route from its first to its last offset, each step a push. */
  ghost predicate IsRoute(page: Page, an: Analyzer, p: seq<nat>) {
    && p != []
    && (forall k | 0 <= k < |p| :: IsSlot(p[k]))
    && forall k | 0 <= k < |p| - 1 :: p[k + 1] in Pushes(page, an, p[k])
  }

  ghost predicate Reachable(page: Page, an: Analyzer, start: nat, o: nat) {
    exists p :: IsRoute(page, an, p) && p[0] == start && p[|p| - 1] == o
  }

  lemma {:induction false} StartReachable(page: Page, an: Analyzer, start: nat)
    requires IsSlot(start)
    ensures Reachable(page, an, start, start)
  {
    assert IsRoute(page, an, [start]);
  }

  lemma {:induction false} PushReachable(page: Page, an: Analyzer, start: nat, o: nat, q: nat)
    requires IsSlot(o) && Reachable(page, an, start, o) && q in Pushes(page, an, o)
    ensures Reachable(page, an, start, q)
  {
    var p :| IsRoute(page, an, p) && p[0] == start && p[|p| - 1] == o;
    assert IsRoute(page, an, p + [q]);
  }

  /** A set of offsets closed under pushes. */
  ghost predicate Closed(page: Page, an: Analyzer, found: set<nat>) {
    forall o, q | o in found && IsSlot(o) && q in Pushes(page, an, o) :: q in found
  }

  lemma {:induction false} ClosedHoldsRoutes(page: Page, an: Analyzer, found: set<nat>, p: seq<nat>, k: nat)
    requires Closed(page, an, found) && IsRoute(page, an, p) && p[0] in found && k < |p|
    ensures p[k] in found
  {
    if k > 0 {
      ClosedHoldsRoutes(page, an, found, p, k - 1);
    }
  }
}
