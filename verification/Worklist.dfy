/** The order in which discovery visits offsets, and how deep its stack gets. */
module Worklist {
  import opened Words
  import opened Templates
  import opened Effects
  import opened Machine
  import opened Page

  const STACK_ENTRIES: nat := 512
  const TABLE_ENTRIES: nat := 512

  /** Offsets found so far, in order, and the stack. */
  datatype Dfs = Dfs(found: seq<nat>, work: seq<nat>)

  function Visit(page: Page, an: Analyzer, d: Dfs): Dfs
    requires d.work != []
  {
    var e, rest := d.work[|d.work| - 1], d.work[..|d.work| - 1];
    if !IsSlot(e) || e in d.found then Dfs(d.found, rest)
    else Dfs(d.found + [e], rest + Pushes(page, an, e))
  }

  /** The state after n turns of the loop, which stops when the stack is empty or the
      block table is full. */
  function DfsAt(page: Page, an: Analyzer, start: nat, n: nat): Dfs {
    if n == 0 then Dfs([], [start])
    else
      var d := DfsAt(page, an, start, n - 1);
      if d.work == [] || |d.found| >= TABLE_ENTRIES then d else Visit(page, an, d)
  }

  /** The stack never holds more than one entry per discovered block, plus one; so the declared
      size is exceeded only by one entry, and only when the table is full. */
  lemma {:induction false} StackBound(page: Page, an: Analyzer, start: nat, n: nat)
    ensures |DfsAt(page, an, start, n).found| <= TABLE_ENTRIES
    ensures |DfsAt(page, an, start, n).work| <= |DfsAt(page, an, start, n).found| + 1
    ensures |DfsAt(page, an, start, n).work| > STACK_ENTRIES ==>
              |DfsAt(page, an, start, n).work| == STACK_ENTRIES + 1
              && |DfsAt(page, an, start, n).found| == TABLE_ENTRIES
  {
    hide Pushes, ScanEnd;
    if n > 0 {
      StackBound(page, an, start, n - 1);
    }
  }

  // ---------------------------------------------- exactly when it overflows

  /** Block starts reached from start by falling through alone. */
  function Spine(page: Page, an: Analyzer, start: nat, k: nat): nat {
    if k == 0 then start
    else
      var o := Spine(page, an, start, k - 1);
      if IsSlot(o) then ScanEnd(page, an, o) else o
  }

  /** The block at o ends in a branch with both successors on the page. */
  predicate Forks(page: Page, an: Analyzer, o: nat) {
    IsSlot(o) && |Pushes(page, an, o)| == 2
  }

  lemma {:induction false} ForkTop(page: Page, an: Analyzer, o: nat)
    requires Forks(page, an, o)
    ensures Pushes(page, an, o)[1] == ScanEnd(page, an, o)
  {
  }

  lemma {:induction false} SpineGrows(page: Page, an: Analyzer, start: nat, i: nat, j: nat)
    requires i < j && forall k: nat | k < j :: Forks(page, an, Spine(page, an, start, k))
    ensures Spine(page, an, start, i) < Spine(page, an, start, j)
  {
    hide Pushes, ScanEnd;
    assert Forks(page, an, Spine(page, an, start, j - 1));
    if i < j - 1 {
      SpineGrows(page, an, start, i, j - 1);
    }
  }

  /** Every block found so far forked into the next one, which is on top of the stack. */
  ghost predicate OnSpine(page: Page, an: Analyzer, start: nat, d: Dfs) {
    && |d.work| == |d.found| + 1 && d.work[|d.found|] == Spine(page, an, start, |d.found|)
    && forall i: nat | i < |d.found| ::
         d.found[i] == Spine(page, an, start, i) && Forks(page, an, Spine(page, an, start, i))
  }

  lemma {:induction false} VisitOnSpine(page: Page, an: Analyzer, start: nat, d: Dfs)
    requires OnSpine(page, an, start, d) && Forks(page, an, Spine(page, an, start, |d.found|))
    ensures OnSpine(page, an, start, Visit(page, an, d)) && |Visit(page, an, d).found| == |d.found| + 1
  {
    hide Pushes, ScanEnd;
    var e := Spine(page, an, start, |d.found|);
    if e in d.found {
      var i: nat :| i < |d.found| && d.found[i] == e;
      SpineGrows(page, an, start, i, |d.found|);
      assert false;
    }
    ForkTop(page, an, e);
  }

  /** Only a fork keeps a stack as high as it can get. */
  lemma {:induction false} HighNeedsFork(page: Page, an: Analyzer, d: Dfs)
    requires d.work != [] && |d.work| <= |d.found| + 1
    requires |Visit(page, an, d).work| == |Visit(page, an, d).found| + 1
    ensures |d.work| == |d.found| + 1 && Forks(page, an, d.work[|d.found|])
  {
    hide Pushes;
  }

  /** A stack as high as it can get has only followed the spine. */
  lemma {:induction false} HighOnlyOnSpine(page: Page, an: Analyzer, start: nat, n: nat)
    requires |DfsAt(page, an, start, n).work| == |DfsAt(page, an, start, n).found| + 1
    ensures OnSpine(page, an, start, DfsAt(page, an, start, n))
  {
    hide Visit, Forks;
    if n > 0 {
      var d := DfsAt(page, an, start, n - 1);
      StackBound(page, an, start, n - 1);
      if d.work != [] && |d.found| < TABLE_ENTRIES {
        HighNeedsFork(page, an, d);
        HighOnlyOnSpine(page, an, start, n - 1);
        VisitOnSpine(page, an, start, d);
      } else {
        HighOnlyOnSpine(page, an, start, n - 1);
      }
    }
  }

  lemma {:induction false} SpineIsFollowed(page: Page, an: Analyzer, start: nat, n: nat)
    requires n <= TABLE_ENTRIES && forall k: nat | k < n :: Forks(page, an, Spine(page, an, start, k))
    ensures OnSpine(page, an, start, DfsAt(page, an, start, n)) && |DfsAt(page, an, start, n).found| == n
  {
    hide Forks, Visit;
    if n > 0 {
      SpineIsFollowed(page, an, start, n - 1);
      VisitOnSpine(page, an, start, DfsAt(page, an, start, n - 1));
    }
  }

  ghost predicate Overflows(page: Page, an: Analyzer, start: nat) {
    exists n: nat :: |DfsAt(page, an, start, n).work| > STACK_ENTRIES
  }

  /** The first 512 blocks that fall through into each other, from the start on, all fork. */
  ghost predicate SpineForks(page: Page, an: Analyzer, start: nat) {
    forall k: nat | k < TABLE_ENTRIES :: Forks(page, an, Spine(page, an, start, k))
  }

  lemma {:induction false} OverflowForks(page: Page, an: Analyzer, start: nat, n: nat)
    requires |DfsAt(page, an, start, n).work| > STACK_ENTRIES
    ensures SpineForks(page, an, start)
  {
    hide Forks, DfsAt, Spine;
    StackBound(page, an, start, n);
    HighOnlyOnSpine(page, an, start, n);
    var found := DfsAt(page, an, start, n).found;
    forall k: nat | k < TABLE_ENTRIES ensures Forks(page, an, Spine(page, an, start, k)) {
      assert found[k] == Spine(page, an, start, k);
    }
  }

  /** The declared stack overflows if and only if the page forks along the whole spine. */
  lemma {:induction false} StackOverflowsExactly(page: Page, an: Analyzer, start: nat)
    ensures Overflows(page, an, start) <==> SpineForks(page, an, start)
  {
    hide Forks, Spine, DfsAt;
    if Overflows(page, an, start) {
      var n: nat :| |DfsAt(page, an, start, n).work| > STACK_ENTRIES;
      OverflowForks(page, an, start, n);
    }
    if SpineForks(page, an, start) {
      SpineIsFollowed(page, an, start, TABLE_ENTRIES);
      assert |DfsAt(page, an, start, TABLE_ENTRIES).work| > STACK_ENTRIES;
    }
  }

  // -------------------------------------------------- a page that needs it

  /** bc 12,0,+8: taken to the next instruction but one when CR bit 0 is set. */
  const BRANCH_OVER: Word := 0x4180_0008

  const CHAIN: Page := seq(1024, _ => BRANCH_OVER)

  lemma {:induction false} BranchOverDecodes()
    ensures IsBranch(BRANCH_OVER) && !IsUnconditionalBranch(BRANCH_OVER)
    ensures MainOpcode(BRANCH_OVER) == 16 && BranchBD(BRANCH_OVER) == 8 && !AbsoluteBit(BRANCH_OVER)
  {
    assert FieldD(BRANCH_OVER) == 12 && !BitAt(12, 4);
  }

  lemma {:induction false} BranchOverTarget(o: nat)
    requires IsSlot(o) && o + 8 < PAGE_SIZE
    ensures DecodeBranchTarget(BRANCH_OVER, o) == o + 8
  {
    BranchOverDecodes();
    hide MainOpcode, BranchBD, AbsoluteBit;
  }

  lemma {:induction false} BranchOverEffect()
    ensures AnalyzeInsn(BRANCH_OVER).isBranch
  {
    hide AnalyzeInsn, IsBranch;
    BranchOverDecodes();
    AnalyzeSets(BRANCH_OVER);
  }

  lemma {:induction false} BranchOverPushes(o: nat)
    requires IsSlot(o) && o + 8 < PAGE_SIZE
    ensures Pushes(CHAIN, AnalyzeInsn, o) == [o + 8, o + 4]
  {
    hide AnalyzeInsn, DecodeBranchTarget, IsUnconditionalBranch;
    BranchOverDecodes();
    BranchOverEffect();
    BranchOverTarget(o);
    assert InsnAt(CHAIN, o) == BRANCH_OVER;
    assert EndsBlock(AnalyzeInsn(BRANCH_OVER));
    assert ScanEnd(CHAIN, AnalyzeInsn, o) == o + 4;
  }

  lemma {:induction false} ChainSpine(k: nat)
    requires k <= TABLE_ENTRIES
    ensures Spine(CHAIN, AnalyzeInsn, 0, k) == 4 * k
  {
    hide AnalyzeInsn, Pushes, ScanEnd;
    if k > 0 {
      ChainSpine(k - 1);
      BranchOverPushes(4 * (k - 1));
      ForkTop(CHAIN, AnalyzeInsn, 4 * (k - 1));
    }
  }

  /** 512 stack entries are one too few: on this page 513 are needed. */
  lemma {:induction false} StackOverflows()
    ensures exists n: nat :: |DfsAt(CHAIN, AnalyzeInsn, 0, n).work| == STACK_ENTRIES + 1
  {
    hide AnalyzeInsn, DfsAt, Pushes, Spine;
    forall k: nat | k < TABLE_ENTRIES ensures Forks(CHAIN, AnalyzeInsn, Spine(CHAIN, AnalyzeInsn, 0, k)) {
      ChainSpine(k);
      BranchOverPushes(4 * k);
    }
    StackOverflowsExactly(CHAIN, AnalyzeInsn, 0);
    var n: nat :| |DfsAt(CHAIN, AnalyzeInsn, 0, n).work| > STACK_ENTRIES;
    StackBound(CHAIN, AnalyzeInsn, 0, n);
  }
}
