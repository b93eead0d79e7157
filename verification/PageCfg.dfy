/** Building the control-flow graph of a page and solving liveness on it. */
module PageCfg {
  import opened LiveSets
  import opened Dataflow
  import opened Page
  import opened Worklist

  const SUCC_NONE := -1
  const SUCC_OFF_PAGE := -2
  const MAX_BLOCKS: nat := 512
  const SLOTS: nat := 1024

  datatype PageBlock = PageBlock(
    startOfs: nat, endOfs: nat, gen: LiveSet, kill: LiveSet, liveIn: LiveSet, liveOut: LiveSet,
    succ0: int, succ1: int, numSucc: nat)
  {
    /** The successor entries in use. */
    function Succs(): seq<int>
    {
      if numSucc == 0 then [] else if numSucc == 1 then [succ0] else [succ0, succ1]
    }
  }

  const UNSET := PageBlock(0, 0, NONE, NONE, NONE, NONE, SUCC_NONE, SUCC_NONE, 0)

  // ------------------------------------------------ what the phases establish

  /** A block holds the scan of the code from its start. */
  ghost predicate Scanned(page: Page, an: Analyzer, b: PageBlock) {
    && IsSlot(b.startOfs)
    && b.endOfs == ScanEnd(page, an, b.startOfs)
    && (b.gen, b.kill) == ScanSummary(page, an, b.startOfs, NONE, NONE)
  }

  /** The block starting at an offset, or -1. */
  function BlockForOfs(at: seq<int>, ofs: nat): int
    requires |at| == SLOTS
  {
    if ofs >= PAGE_SIZE then -1 else at[ofs / 4]
  }

  /** blockAtOfs and the block starts are inverse to each other. */
  ghost predicate Indexed(bs: seq<PageBlock>, at: seq<int>) {
    && |at| == SLOTS
    && (forall k | 0 <= k < SLOTS :: at[k] == -1 || (0 <= at[k] < |bs| && bs[at[k]].startOfs == 4 * k))
    && forall i | 0 <= i < |bs| :: IsSlot(bs[i].startOfs) && at[bs[i].startOfs / 4] == i
  }

  ghost predicate Found(at: seq<int>, o: nat)
    requires |at| == SLOTS
  {
    BlockForOfs(at, o) >= 0
  }

  ghost predicate Discovered(page: Page, an: Analyzer, start: nat, bs: seq<PageBlock>, at: seq<int>) {
    && |bs| <= MAX_BLOCKS
    && Indexed(bs, at)
    && (forall i | 0 <= i < |bs| :: Scanned(page, an, bs[i]))
    && forall i | 0 <= i < |bs| :: Reachable(page, an, start, bs[i].startOfs)
  }

  function EdgeTo(at: seq<int>, ofs: nat): int
    requires |at| == SLOTS
  {
    var b := BlockForOfs(at, ofs);
    if b >= 0 then b else SUCC_OFF_PAGE
  }

  /** The successor entries of a block that ends at end. */
  function EdgesOf(page: Page, an: Analyzer, end: nat, at: seq<int>): (e: seq<int>)
    requires 4 <= end <= PAGE_SIZE && |at| == SLOTS
    ensures |e| <= 2
  {
    var opc := InsnAt(page, end - 4);
    var fx := an(opc);
    if fx.isBranch then
      var t := DecodeBranchTarget(opc, end - 4);
      [if t >= 0 then EdgeTo(at, t) else SUCC_OFF_PAGE]
      + (if IsUnconditionalBranch(opc) then [] else [EdgeTo(at, end)])
    else if fx.isEverything then [EdgeTo(at, end)]
    else []
  }

  ghost predicate Linked(page: Page, an: Analyzer, bs: seq<PageBlock>, at: seq<int>) {
    && |at| == SLOTS
    && forall i | 0 <= i < |bs| ::
         4 <= bs[i].endOfs <= PAGE_SIZE && bs[i].Succs() == EdgesOf(page, an, bs[i].endOfs, at)
  }

  /** A block as a node of the dataflow graph. */
  ghost function NodeOf(b: PageBlock): Node {
    Node(Members(b.gen), Members(b.kill), Known(b.Succs()), b.numSucc == 0 || SUCC_OFF_PAGE in b.Succs())
  }

  ghost function Known(succs: seq<int>): seq<nat> {
    if succs == [] then []
    else (if succs[0] >= 0 then [succs[0] as nat] else []) + Known(succs[1..])
  }

  ghost function GraphOf(bs: seq<PageBlock>): (g: seq<Node>)
    ensures |g| == |bs| && forall i | 0 <= i < |bs| :: g[i] == NodeOf(bs[i])
  {
    if bs == [] then [] else [NodeOf(bs[0])] + GraphOf(bs[1..])
  }

  ghost function LiveIns(bs: seq<PageBlock>): (l: seq<set<nat>>)
    ensures |l| == |bs| && forall i | 0 <= i < |bs| :: l[i] == Members(bs[i].liveIn)
  {
    if bs == [] then [] else [Members(bs[0].liveIn)] + LiveIns(bs[1..])
  }

  ghost predicate EdgesInRange(succs: seq<int>, n: nat) {
    forall k | 0 <= k < |succs| :: succs[k] < n
  }

  ghost predicate SuccsInRange(bs: seq<PageBlock>) {
    forall i | 0 <= i < |bs| :: EdgesInRange(bs[i].Succs(), |bs|)
  }

  // ------------------------------------------------------ steps of discovery

  ghost function Starts(bs: seq<PageBlock>): (q: seq<nat>)
    ensures |q| == |bs| && forall i | 0 <= i < |bs| :: q[i] == bs[i].startOfs
  {
    seq(|bs|, i requires 0 <= i < |bs| => bs[i].startOfs)
  }

  /** One turn of the loop is one Visit. */
  lemma {:induction false} VisitMatches(
      page: Page, an: Analyzer, bs: seq<PageBlock>, at: seq<int>, work: seq<nat>, b: PageBlock)
    requires Indexed(bs, at) && work != [] && work[|work| - 1] % 4 == 0
    ensures var e := work[|work| - 1];
            && (e >= PAGE_SIZE || Found(at, e) ==>
                  Visit(page, an, Dfs(Starts(bs), work)) == Dfs(Starts(bs), work[..|work| - 1]))
            && (e < PAGE_SIZE && !Found(at, e) && b.startOfs == e ==>
                  Visit(page, an, Dfs(Starts(bs), work))
                  == Dfs(Starts(bs + [b]), work[..|work| - 1] + Pushes(page, an, e)))
  {
    hide Pushes;
    var e := work[|work| - 1];
    if e < PAGE_SIZE {
      if Found(at, e) {
        assert Starts(bs)[at[e / 4]] == e;
      }
      assert Starts(bs + [b]) == Starts(bs) + [b.startOfs];
    }
  }

  /** The worklist holds everything known to be reachable and not yet discovered. */
  ghost predicate Frontier(page: Page, an: Analyzer, start: nat, bs: seq<PageBlock>, at: seq<int>, work: seq<nat>) {
    && Indexed(bs, at)
    && |work| <= |bs| + 1
    && (forall w | w in work :: w % 4 == 0 && (w < PAGE_SIZE ==> Reachable(page, an, start, w)))
    && (start >= PAGE_SIZE || Found(at, start) || start in work)
    && forall i, q | 0 <= i < |bs| && q in Pushes(page, an, bs[i].startOfs) :: Found(at, q) || q in work
  }

  lemma {:induction false} InitialFrontier(page: Page, an: Analyzer, start: nat, at: seq<int>)
    requires start % 4 == 0 && |at| == SLOTS && forall k | 0 <= k < SLOTS :: at[k] == -1
    ensures Discovered(page, an, start, [], at) && Frontier(page, an, start, [], at, [start])
  {
    if IsSlot(start) {
      StartReachable(page, an, start);
    }
  }

  lemma {:induction false} FrontierTop(
      page: Page, an: Analyzer, start: nat, bs: seq<PageBlock>, at: seq<int>, work: seq<nat>)
    requires Frontier(page, an, start, bs, at, work) && work != []
    ensures var e := work[|work| - 1]; e % 4 == 0 && (e < PAGE_SIZE ==> Reachable(page, an, start, e))
    ensures |at| == SLOTS && Indexed(bs, at)
  {
    assert work[|work| - 1] in work;
  }

  lemma {:induction false} SkipKeepsFrontier(
      page: Page, an: Analyzer, start: nat, bs: seq<PageBlock>, at: seq<int>, work: seq<nat>)
    requires Frontier(page, an, start, bs, at, work) && work != []
    requires work[|work| - 1] >= PAGE_SIZE || Found(at, work[|work| - 1])
    ensures Frontier(page, an, start, bs, at, work[..|work| - 1])
  {
    var rest, e := work[..|work| - 1], work[|work| - 1];
    assert forall w :: w in work <==> w in rest || w == e;
  }

  lemma {:induction false} ScanKeepsIndex(bs: seq<PageBlock>, at: seq<int>, b: PageBlock)
    requires Indexed(bs, at) && IsSlot(b.startOfs) && !Found(at, b.startOfs)
    ensures Indexed(bs + [b], at[b.startOfs / 4 := |bs|])
  {
    var bs', at' := bs + [b], at[b.startOfs / 4 := |bs|];
    forall i | 0 <= i < |bs'| ensures IsSlot(bs'[i].startOfs) && at'[bs'[i].startOfs / 4] == i {
      if i < |bs| {
        assert at[bs[i].startOfs / 4] == i;
        assert bs[i].startOfs / 4 != b.startOfs / 4;
      }
    }
  }

  lemma {:induction false} ScanKeepsDiscovered(
      page: Page, an: Analyzer, start: nat, bs: seq<PageBlock>, at: seq<int>, b: PageBlock)
    requires Discovered(page, an, start, bs, at) && |bs| < MAX_BLOCKS
    requires Scanned(page, an, b) && !Found(at, b.startOfs) && Reachable(page, an, start, b.startOfs)
    ensures Discovered(page, an, start, bs + [b], at[b.startOfs / 4 := |bs|])
  {
    assert IsSlot(b.startOfs);
    hide Scanned, Reachable;
    ScanKeepsIndex(bs, at, b);
  }

  lemma {:induction false} ScanKeepsFrontier(
      page: Page, an: Analyzer, start: nat, bs: seq<PageBlock>, at: seq<int>, work: seq<nat>, b: PageBlock)
    requires Frontier(page, an, start, bs, at, work) && work != []
    requires IsSlot(b.startOfs) && b.startOfs == work[|work| - 1] && !Found(at, b.startOfs)
    requires Indexed(bs + [b], at[b.startOfs / 4 := |bs|])
    ensures Frontier(page, an, start, bs + [b], at[b.startOfs / 4 := |bs|],
                     work[..|work| - 1] + Pushes(page, an, b.startOfs))
  {
    var rest, e := work[..|work| - 1], b.startOfs;
    var pushed := Pushes(page, an, e);
    var bs', at', work' := bs + [b], at[e / 4 := |bs|], rest + pushed;
    assert forall w :: w in work <==> w in rest || w == e;
    assert e in work && Reachable(page, an, start, e);
    forall w | w in work' ensures w % 4 == 0 && (w < PAGE_SIZE ==> Reachable(page, an, start, w)) {
      if w in rest {
        assert w in work;
      } else {
        PushReachable(page, an, start, e, w);
      }
    }
    assert Found(at', e);
    forall w | w in work && IsSlot(w) ensures Found(at', w) || w in work' {
    }
    forall i, q | 0 <= i < |bs'| && q in Pushes(page, an, bs'[i].startOfs) ensures Found(at', q) || q in work' {
      if i < |bs| {
        assert Found(at, q) || q in work;
        assert IsSlot(q);
      }
    }
  }

  /** Scanning the offset on top of the worklist and pushing its successors. */
  lemma {:induction false} VisitKeepsBoth(
      page: Page, an: Analyzer, start: nat, bs: seq<PageBlock>, at: seq<int>, work: seq<nat>, b: PageBlock)
    requires Discovered(page, an, start, bs, at) && |bs| < MAX_BLOCKS
    requires Frontier(page, an, start, bs, at, work) && work != []
    requires Scanned(page, an, b) && b.startOfs == work[|work| - 1] && !Found(at, b.startOfs)
    ensures Discovered(page, an, start, bs + [b], at[b.startOfs / 4 := |bs|])
    ensures Frontier(page, an, start, bs + [b], at[b.startOfs / 4 := |bs|],
                     work[..|work| - 1] + Pushes(page, an, b.startOfs))
  {
    assert IsSlot(b.startOfs);
    FrontierTop(page, an, start, bs, at, work);
    ScanKeepsIndex(bs, at, b);
    hide Scanned, Pushes, ScanEnd, Reachable, Indexed;
    ScanKeepsDiscovered(page, an, start, bs, at, b);
    ScanKeepsFrontier(page, an, start, bs, at, work, b);
  }

  /** The state of discovery after some turns of its loop. */
  ghost predicate Discovering(
      page: Page, an: Analyzer, start: nat, bs: seq<PageBlock>, at: seq<int>, work: seq<nat>, turns: nat) {
    && Discovered(page, an, start, bs, at)
    && Frontier(page, an, start, bs, at, work)
    && DfsAt(page, an, start, turns) == Dfs(Starts(bs), work)
  }

  lemma {:induction false} StartDiscovering(page: Page, an: Analyzer, start: nat, at: seq<int>)
    requires start % 4 == 0 && |at| == SLOTS && forall k | 0 <= k < SLOTS :: at[k] == -1
    ensures Discovering(page, an, start, [], at, [start], 0)
  {
    hide Discovered, Frontier;
    InitialFrontier(page, an, start, at);
  }

  lemma {:induction false} SkipTurn(
      page: Page, an: Analyzer, start: nat, bs: seq<PageBlock>, at: seq<int>, work: seq<nat>, turns: nat)
    requires Discovering(page, an, start, bs, at, work, turns) && work != [] && |bs| < MAX_BLOCKS
    requires |at| == SLOTS && (work[|work| - 1] >= PAGE_SIZE || Found(at, work[|work| - 1]))
    ensures Discovering(page, an, start, bs, at, work[..|work| - 1], turns + 1)
  {
    hide Discovered, Frontier, Visit, Indexed;
    FrontierTop(page, an, start, bs, at, work);
    SkipKeepsFrontier(page, an, start, bs, at, work);
    VisitMatches(page, an, bs, at, work, UNSET);
  }

  lemma {:induction false} VisitTurn(
      page: Page, an: Analyzer, start: nat, bs: seq<PageBlock>, at: seq<int>, work: seq<nat>, turns: nat, b: PageBlock)
    requires Discovering(page, an, start, bs, at, work, turns) && work != [] && |bs| < MAX_BLOCKS && |at| == SLOTS
    requires Scanned(page, an, b) && b.startOfs == work[|work| - 1] && !Found(at, b.startOfs)
    ensures Discovering(page, an, start, bs + [b], at[b.startOfs / 4 := |bs|],
                        work[..|work| - 1] + Pushes(page, an, b.startOfs), turns + 1)
  {
    assert IsSlot(b.startOfs);
    hide Discovered, Frontier, Visit, Indexed, Scanned, Pushes;
    FrontierTop(page, an, start, bs, at, work);
    VisitKeepsBoth(page, an, start, bs, at, work, b);
    VisitMatches(page, an, bs, at, work, b);
  }

  lemma {:induction false} FoundIsReachable(
      page: Page, an: Analyzer, start: nat, bs: seq<PageBlock>, at: seq<int>, o: nat)
    requires Discovered(page, an, start, bs, at) && IsSlot(o) && Found(at, o)
    ensures start < PAGE_SIZE && Reachable(page, an, start, o)
  {
    var i := at[o / 4];
    assert bs[i].startOfs == o;
    var p :| IsRoute(page, an, p) && p[0] == start && p[|p| - 1] == o;
    assert IsSlot(p[0]);
  }

  ghost function FoundSet(at: seq<int>): set<nat>
    requires |at| == SLOTS
  {
    set x: nat | x < PAGE_SIZE && IsSlot(x) && Found(at, x)
  }

  lemma {:induction false} DrainedIsClosed(page: Page, an: Analyzer, start: nat, bs: seq<PageBlock>, at: seq<int>)
    requires Frontier(page, an, start, bs, at, [])
    ensures Closed(page, an, FoundSet(at))
  {
    hide Pushes, ScanEnd, ScanSummary, Reachable;
    forall x, q | x in FoundSet(at) && IsSlot(x) && q in Pushes(page, an, x) ensures q in FoundSet(at) {
      var i := at[x / 4];
      assert bs[i].startOfs == x;
      assert Found(at, q) || q in [];
      assert IsSlot(q);
    }
  }

  /** With an empty worklist the discovered starts are exactly the reachable offsets. */
  lemma {:induction false} DrainedIsExact(
      page: Page, an: Analyzer, start: nat, bs: seq<PageBlock>, at: seq<int>, o: nat)
    requires Discovered(page, an, start, bs, at) && Frontier(page, an, start, bs, at, [])
    requires start % 4 == 0 && IsSlot(o)
    ensures Found(at, o) <==> start < PAGE_SIZE && Reachable(page, an, start, o)
  {
    if Found(at, o) {
      FoundIsReachable(page, an, start, bs, at, o);
    } else if start < PAGE_SIZE && Reachable(page, an, start, o) {
      DrainedIsClosed(page, an, start, bs, at);
      var p :| IsRoute(page, an, p) && p[0] == start && p[|p| - 1] == o;
      assert Found(at, start);
      ClosedHoldsRoutes(page, an, FoundSet(at), p, |p| - 1);
    }
  }

  /** The finished graph. */
  ghost predicate Built(page: Page, an: Analyzer, start: nat, bs: seq<PageBlock>, at: seq<int>) {
    && Discovered(page, an, start, bs, at)
    && Linked(page, an, bs, at)
    && SuccsInRange(bs)
    && SolvedFrom(bs, 0)
    && BelowPaths(GraphOf(bs), LiveIns(bs))
  }

  lemma {:induction false} SolvedIsSolution(bs: seq<PageBlock>)
    requires SolvedFrom(bs, 0)
    ensures Solution(GraphOf(bs), LiveIns(bs))
  {
    hide InOf, OutOf;
    forall i | 0 <= i < |bs| ensures LiveIns(bs)[i] == InOf(GraphOf(bs), LiveIns(bs), i) {
      assert BlockSolved(GraphOf(bs), LiveIns(bs), bs[i], i);
    }
  }

  /** live_in is the all-paths solution: a resource is live at a block head exactly when
      some path reads it, or leaves for an unknown place, before writing it. */
  lemma {:induction false} LiveInIsAllPaths(
      page: Page, an: Analyzer, start: nat, bs: seq<PageBlock>, at: seq<int>, i: nat, r: nat)
    requires Built(page, an, start, bs, at) && i < |bs|
    ensures r in Members(bs[i].liveIn) <==> PathLive(GraphOf(bs), i, r)
  {
    hide PathLive, Discovered, Linked, Members;
    SolvedIsSolution(bs);
    SolutionIsAllPaths(GraphOf(bs), LiveIns(bs), i, r);
  }

  /** ... and no assignment that satisfies the equations, even as inequalities, is smaller. */
  lemma {:induction false} LiveInIsLeast(
      page: Page, an: Analyzer, start: nat, bs: seq<PageBlock>, at: seq<int>, other: seq<set<nat>>)
    requires Built(page, an, start, bs, at) && PostSolution(GraphOf(bs), other)
    ensures Below(LiveIns(bs), other)
  {
    hide Discovered, Linked, Members;
    SolvedIsSolution(bs);
    SolutionIsLeast(GraphOf(bs), LiveIns(bs), other);
  }

  /** The edge and solver phases leave the scan results alone. */
  ghost predicate SameScan(bs: seq<PageBlock>, after: seq<PageBlock>) {
    && |bs| == |after|
    && forall i | 0 <= i < |bs| ::
         && after[i].startOfs == bs[i].startOfs && after[i].endOfs == bs[i].endOfs
         && after[i].gen == bs[i].gen && after[i].kill == bs[i].kill
  }

  lemma {:induction false} SameScanKeepsDiscovered(
      page: Page, an: Analyzer, start: nat, bs: seq<PageBlock>, after: seq<PageBlock>, at: seq<int>)
    requires Discovered(page, an, start, bs, at) && SameScan(bs, after)
    ensures Discovered(page, an, start, after, at)
  {
    hide Reachable, ScanEnd, ScanSummary;
  }

  ghost predicate EndsInRange(bs: seq<PageBlock>) {
    forall i | 0 <= i < |bs| :: 4 <= bs[i].endOfs <= PAGE_SIZE
  }

  /** after is b with its successor entries resolved. */
  ghost predicate BlockLinked(page: Page, an: Analyzer, b: PageBlock, after: PageBlock, at: seq<int>)
    requires 4 <= b.endOfs <= PAGE_SIZE && |at| == SLOTS
  {
    && after.Succs() == EdgesOf(page, an, b.endOfs, at)
    && after == b.(succ0 := after.succ0, succ1 := after.succ1, numSucc := after.numSucc)
  }

  ghost predicate EdgesBuilt(page: Page, an: Analyzer, bs: seq<PageBlock>, after: seq<PageBlock>, at: seq<int>)
    requires EndsInRange(bs) && |at| == SLOTS
  {
    |after| == |bs| && forall i | 0 <= i < |bs| :: BlockLinked(page, an, bs[i], after[i], at)
  }

  lemma {:induction false} DiscoveredEnds(page: Page, an: Analyzer, start: nat, bs: seq<PageBlock>, at: seq<int>)
    requires Discovered(page, an, start, bs, at)
    ensures EndsInRange(bs) && |at| == SLOTS
  {
    hide Reachable, ScanSummary;
  }

  lemma {:induction false} EdgesLink(
      page: Page, an: Analyzer, start: nat, bs: seq<PageBlock>, after: seq<PageBlock>, at: seq<int>)
    requires Discovered(page, an, start, bs, at) && EndsInRange(bs) && |at| == SLOTS
    requires EdgesBuilt(page, an, bs, after, at)
    ensures Discovered(page, an, start, after, at) && Linked(page, an, after, at) && SuccsInRange(after)
  {
    hide EdgesOf, Reachable, Scanned, Indexed;
    assert SameScan(bs, after);
    SameScanKeepsDiscovered(page, an, start, bs, after, at);
    LinkedInRange(page, an, after, at);
  }

  lemma {:induction false} LinkedInRange(page: Page, an: Analyzer, bs: seq<PageBlock>, at: seq<int>)
    requires Indexed(bs, at) && Linked(page, an, bs, at)
    ensures SuccsInRange(bs)
  {
    forall i | 0 <= i < |bs| ensures EdgesInRange(bs[i].Succs(), |bs|) {
      EdgesOfInRange(page, an, bs, bs[i].endOfs, at);
    }
  }

  lemma {:induction false} EdgesOfInRange(page: Page, an: Analyzer, bs: seq<PageBlock>, end: nat, at: seq<int>)
    requires Indexed(bs, at) && 4 <= end <= PAGE_SIZE
    ensures EdgesInRange(EdgesOf(page, an, end, at), |bs|)
  {
    forall o: nat ensures EdgeTo(at, o) < |bs| {
    }
  }

  // -------------------------------------------------- steps of the solver

  /** bs and after differ at most in the solver's results. */
  ghost predicate SameShape(bs: seq<PageBlock>, after: seq<PageBlock>) {
    && |bs| == |after|
    && forall i | 0 <= i < |bs| :: after[i] == bs[i].(liveIn := after[i].liveIn, liveOut := after[i].liveOut)
  }

  lemma {:induction false} KnownInRange(succs: seq<int>, n: nat)
    requires EdgesInRange(succs, n)
    ensures forall s | s in Known(succs) :: s < n
  {
    if succs != [] {
      KnownInRange(succs[1..], n);
    }
  }

  lemma {:induction false} ShapeKeepsGraph(bs: seq<PageBlock>, after: seq<PageBlock>)
    requires SameShape(bs, after)
    ensures GraphOf(after) == GraphOf(bs)
  {
    forall i | 0 <= i < |bs| ensures NodeOf(after[i]) == NodeOf(bs[i]) {
    }
  }

  lemma {:induction false} GraphWellFormed(bs: seq<PageBlock>)
    requires SuccsInRange(bs)
    ensures Assignment(GraphOf(bs), LiveIns(bs))
  {
    forall i | 0 <= i < |bs| ensures forall s | s in GraphOf(bs)[i].succ :: s < |bs| {
      KnownInRange(bs[i].Succs(), |bs|);
    }
  }

  lemma {:induction false} LiveInsAfterUpdate(bs: seq<PageBlock>, i: nat, b: PageBlock)
    requires i < |bs|
    ensures LiveIns(bs[i := b]) == LiveIns(bs)[i := Members(b.liveIn)]
  {
  }

  /** gen | (out & ~kill), as sets. */
  lemma {:induction false} TransferMembers(gen: LiveSet, out: LiveSet, kill: LiveSet)
    ensures Members(gen.Union(out.Intersect(kill.Complemented()))) == Members(gen) + (Members(out) - Members(kill))
  {
    hide LiveSet.Union, LiveSet.Intersect, LiveSet.Complemented, Has;
    ComplementMembers(kill);
    IntersectMembers(out, kill.Complemented());
    UnionMembers(gen, out.Intersect(kill.Complemented()));
  }

  /** Everything the solver keeps true of the blocks. */
  ghost predicate Solving(bs: seq<PageBlock>) {
    && SuccsInRange(bs)
    && PreSolution(GraphOf(bs), LiveIns(bs))
    && BelowPaths(GraphOf(bs), LiveIns(bs))
  }

  /** Block i satisfies its equations with the current solution. */
  ghost predicate BlockSolved(g: seq<Node>, live: seq<set<nat>>, b: PageBlock, i: nat)
    requires Assignment(g, live) && i < |g|
  {
    && live[i] == InOf(g, live, i)
    && Members(b.liveOut) == OutOf(g, live, i)
    && b.liveIn == b.gen.Union(b.liveOut.Intersect(b.kill.Complemented()))
  }

  ghost predicate SolvedFrom(bs: seq<PageBlock>, i: nat) {
    && Assignment(GraphOf(bs), LiveIns(bs))
    && forall k | i <= k < |bs| :: BlockSolved(GraphOf(bs), LiveIns(bs), bs[k], k)
  }

  function Updated(b: PageBlock, liveIn: LiveSet, liveOut: LiveSet): PageBlock {
    b.(liveIn := liveIn, liveOut := liveOut)
  }

  function TransferOf(b: PageBlock, out: LiveSet): LiveSet {
    b.gen.Union(out.Intersect(b.kill.Complemented()))
  }

  lemma {:induction false} TransferIsInOf(bs: seq<PageBlock>, i: nat, out: LiveSet)
    requires i < |bs| && Assignment(GraphOf(bs), LiveIns(bs))
    requires Members(out) == OutOf(GraphOf(bs), LiveIns(bs), i)
    ensures Members(TransferOf(bs[i], out)) == InOf(GraphOf(bs), LiveIns(bs), i)
  {
    hide LiveSet.Union, LiveSet.Intersect, LiveSet.Complemented, Members;
    TransferMembers(bs[i].gen, out, bs[i].kill);
  }

  /** One recomputation: the set of block i only grows, and grows toward the paths. */
  lemma {:induction false} RecomputeKeepsSolving(bs: seq<PageBlock>, i: nat, out: LiveSet)
    requires i < |bs| && Solving(bs)
    requires Members(out) == OutOf(GraphOf(bs), LiveIns(bs), i)
    ensures var after := bs[i := Updated(bs[i], TransferOf(bs[i], out), out)];
            && SameShape(bs, after) && GraphOf(after) == GraphOf(bs)
            && LiveIns(after) == LiveIns(bs)[i := InOf(GraphOf(bs), LiveIns(bs), i)]
            && Solving(after)
            && LiveIns(bs)[i] <= LiveIns(after)[i]
  {
    hide LiveSet.Union, LiveSet.Intersect, LiveSet.Complemented, Members, InOf, OutOf, UnionOver, PathLive, NodeOf;
    var b := Updated(bs[i], TransferOf(bs[i], out), out);
    var after := bs[i := b];
    var g, live := GraphOf(bs), LiveIns(bs);
    TransferIsInOf(bs, i, out);
    LiveInsAfterUpdate(bs, i, b);
    assert SameShape(bs, after);
    assert live[i] <= InOf(g, live, i);
    assert SuccsInRange(after) by {
      forall k | 0 <= k < |bs| ensures after[k].Succs() == bs[k].Succs() {
      }
    }
    ShapeKeepsGraph(bs, after);
    UpdateKeepsPreSolution(g, live, i);
    forall k, r | 0 <= k < |bs| && r in LiveIns(after)[k] ensures PathLive(g, k, r) {
      if k == i {
        InOfBelowPaths(g, live, i, r);
      }
    }
  }

  /** A recomputation that changes nothing shows the block solved. */
  lemma {:induction false} UnchangedIsSolved(bs: seq<PageBlock>, i: nat, out: LiveSet)
    requires i < |bs| && Solving(bs) && SolvedFrom(bs, i + 1)
    requires Members(out) == OutOf(GraphOf(bs), LiveIns(bs), i)
    requires TransferOf(bs[i], out) == bs[i].liveIn
    ensures SolvedFrom(bs[i := Updated(bs[i], bs[i].liveIn, out)], i)
    ensures LiveIns(bs[i := Updated(bs[i], bs[i].liveIn, out)]) == LiveIns(bs)
  {
    hide LiveSet.Union, LiveSet.Intersect, LiveSet.Complemented, Members, InOf, OutOf, NodeOf, Solving, UnionOver;
    RecomputeKeepsSolving(bs, i, out);
    var b := Updated(bs[i], bs[i].liveIn, out);
    var after := bs[i := b];
    LiveInsAfterUpdate(bs, i, b);
    var g, live := GraphOf(bs), LiveIns(bs);
    assert GraphOf(after) == g && LiveIns(after) == live && live[i] == InOf(g, live, i);
    forall k | i <= k < |bs| ensures BlockSolved(g, live, after[k], k) {
      if k > i {
        assert BlockSolved(g, live, bs[k], k);
      } else {
        assert after[k] == b;
      }
    }
  }

  /** A recomputation that changes something makes progress. */
  lemma {:induction false} ChangedMakesProgress(bs: seq<PageBlock>, i: nat, out: LiveSet)
    requires i < |bs| && Solving(bs)
    requires Members(out) == OutOf(GraphOf(bs), LiveIns(bs), i)
    requires TransferOf(bs[i], out) != bs[i].liveIn
    ensures Missing(LiveIns(bs[i := Updated(bs[i], TransferOf(bs[i], out), out)])) < Missing(LiveIns(bs))
  {
    RecomputeKeepsSolving(bs, i, out);
    var after := bs[i := Updated(bs[i], TransferOf(bs[i], out), out)];
    SameMembers(TransferOf(bs[i], out), bs[i].liveIn);
    assert Members(TransferOf(bs[i], out)) <= Everything;
    MissingShrinks(LiveIns(bs), i, Members(TransferOf(bs[i], out)));
  }

  /** The initial assignment: nothing live anywhere. */
  lemma {:induction false} NothingIsPreSolution(bs: seq<PageBlock>)
    requires SuccsInRange(bs) && forall i | 0 <= i < |bs| :: bs[i].liveIn == NONE
    ensures Solving(bs)
  {
    GraphWellFormed(bs);
    ConstantMembers();
  }

  lemma {:induction false} AllDrained(page: Page, an: Analyzer, start: nat, bs: seq<PageBlock>, at: seq<int>)
    requires Discovered(page, an, start, bs, at) && Frontier(page, an, start, bs, at, []) && start % 4 == 0
    ensures forall o | IsSlot(o) :: Found(at, o) <==> start < PAGE_SIZE && Reachable(page, an, start, o)
  {
    forall o | IsSlot(o) ensures Found(at, o) <==> start < PAGE_SIZE && Reachable(page, an, start, o) {
      DrainedIsExact(page, an, start, bs, at, o);
    }
  }

  lemma {:induction false} DiscoveringTop(
      page: Page, an: Analyzer, start: nat, bs: seq<PageBlock>, at: seq<int>, work: seq<nat>, turns: nat)
    requires Discovering(page, an, start, bs, at, work, turns) && work != []
    ensures work[|work| - 1] % 4 == 0
  {
    hide Discovered, Frontier;
    FrontierTop(page, an, start, bs, at, work);
  }

  lemma {:induction false} DiscoveryDone(
      page: Page, an: Analyzer, start: nat, bs: seq<PageBlock>, at: seq<int>, work: seq<nat>, turns: nat)
    requires Discovering(page, an, start, bs, at, work, turns) && start % 4 == 0 && |at| == SLOTS
    ensures Discovered(page, an, start, bs, at)
    ensures work == [] ==>
              forall o | IsSlot(o) :: Found(at, o) <==> start < PAGE_SIZE && Reachable(page, an, start, o)
    ensures Starts(bs) == DfsAt(page, an, start, turns).found && work == DfsAt(page, an, start, turns).work
  {
    hide Discovered, Frontier, Reachable;
    if work == [] {
      AllDrained(page, an, start, bs, at);
    }
  }

  // ----------------------------------------------------------------- the object

  class Cfg {
    const blocks: array<PageBlock>
    var numBlocks: nat
    const blockAtOfs: array<int>

    ghost predicate Valid()
      reads this
    {
      && blocks.Length == MAX_BLOCKS && blockAtOfs.Length == SLOTS
      && numBlocks <= MAX_BLOCKS
    }

    ghost function Blocks(): seq<PageBlock>
      requires Valid()
      reads this, blocks
    {
      blocks[..numBlocks]
    }

    constructor ()
      ensures Valid() && fresh(blocks) && fresh(blockAtOfs) && numBlocks == 0
    {
      blocks := new PageBlock[MAX_BLOCKS](_ => UNSET);
      blockAtOfs := new int[SLOTS](_ => -1);
      numBlocks := 0;
    }

    /** Scans one block forward and records it at blockIdx. */
    method ScanBlock(page: Page, startOfs: nat, an: Analyzer, blockIdx: nat) returns (endOfs: nat)
      requires Valid() && IsSlot(startOfs) && blockIdx < MAX_BLOCKS
      modifies blocks, blockAtOfs
      ensures endOfs == ScanEnd(page, an, startOfs)
      ensures Scanned(page, an, blocks[blockIdx]) && blocks[blockIdx].startOfs == startOfs
      ensures blocks[..] == old(blocks[..])[blockIdx := blocks[blockIdx]]
      ensures blockAtOfs[..] == old(blockAtOfs[..])[startOfs / 4 := blockIdx]
    {
      hide ScanEnd, ScanSummary;
      blockAtOfs[startOfs / 4] := blockIdx;
      var gen, kill;
      endOfs, gen, kill := WalkBlock(page, startOfs, an);
      blocks[blockIdx] := PageBlock(startOfs, endOfs, gen, kill, NONE, NONE, SUCC_NONE, SUCC_NONE, 0);
    }

    method ClearIndex()
      requires Valid()
      modifies blockAtOfs
      ensures forall k | 0 <= k < SLOTS :: blockAtOfs[k] == -1
    {
      for i := 0 to SLOTS
        invariant forall k | 0 <= k < i :: blockAtOfs[k] == -1
      {
        blockAtOfs[i] := -1;
      }
    }

    /** Depth-first discovery from startOfs; drained tells that the worklist ran empty
        before the block table was full.  A scanned block is never empty, so the
        source's guard against one is not repeated here. */
    method Discover(page: Page, startOfs: nat, an: Analyzer) returns (ghost drained: bool, ghost turns: nat)
      requires Valid() && startOfs % 4 == 0
      modifies this, blocks, blockAtOfs
      ensures Valid()
      ensures Discovered(page, an, startOfs, Blocks(), blockAtOfs[..])
      ensures drained || numBlocks == MAX_BLOCKS
      ensures drained ==> forall o | IsSlot(o) ::
                Found(blockAtOfs[..], o) <==> startOfs < PAGE_SIZE && Reachable(page, an, startOfs, o)
      ensures Starts(Blocks()) == DfsAt(page, an, startOfs, turns).found
      ensures drained <==> DfsAt(page, an, startOfs, turns).work == []
    {
      hide Scanned, Pushes, ScanEnd, Reachable, Frontier, Discovered, Indexed, Discovering, DfsAt, Starts;
      numBlocks := 0;
      ClearIndex();
      var worklist: seq<nat> := [startOfs];
      StartDiscovering(page, an, startOfs, blockAtOfs[..]);
      turns := 0;
      while |worklist| > 0 && numBlocks < MAX_BLOCKS
        invariant Valid()
        invariant Discovering(page, an, startOfs, Blocks(), blockAtOfs[..], worklist, turns)
        decreases MAX_BLOCKS - numBlocks, |worklist|
      {
        ghost var bs, at, work := Blocks(), blockAtOfs[..], worklist;
        var entryOfs := worklist[|worklist| - 1];
        worklist := worklist[..|worklist| - 1];
        DiscoveringTop(page, an, startOfs, bs, at, work, turns);
        if entryOfs >= PAGE_SIZE || blockAtOfs[entryOfs / 4] >= 0 {
          SkipTurn(page, an, startOfs, bs, at, work, turns);
          turns := turns + 1;
          continue;
        }
        var blockIdx := numBlocks;
        numBlocks := numBlocks + 1;
        var endOfs := ScanBlock(page, entryOfs, an, blockIdx);
        assert Blocks() == bs + [blocks[blockIdx]];
        VisitTurn(page, an, startOfs, bs, at, work, turns, blocks[blockIdx]);
        turns := turns + 1;
        worklist := PushSuccessors(page, entryOfs, endOfs, an, worklist);
      }
      drained := worklist == [];
      DiscoveryDone(page, an, startOfs, Blocks(), blockAtOfs[..], worklist, turns);
    }

    /** Resolves the successors of every discovered block. */
    method BuildEdges(page: Page, an: Analyzer)
      requires Valid() && blocks != blockAtOfs as object
      requires EndsInRange(Blocks())
      modifies blocks
      ensures EdgesBuilt(page, an, old(Blocks()), Blocks(), blockAtOfs[..])
    {
      hide EdgesOf, EdgeTo, DecodeBranchTarget, IsUnconditionalBranch, PageBlock.Succs;
      ghost var before := Blocks();
      for i := 0 to numBlocks
        invariant forall k | i <= k < numBlocks :: blocks[k] == before[k]
        invariant forall k | 0 <= k < i :: BlockLinked(page, an, before[k], blocks[k], blockAtOfs[..])
      {
        blocks[i] := WithEdges(page, an, blocks[i], blockAtOfs);
      }
    }

    /** Recomputes live_out and live_in of block i. */
    method Recompute(i: nat) returns (changed: bool)
      requires Valid() && i < numBlocks && Solving(Blocks())
      modifies blocks
      ensures SameShape(old(Blocks()), Blocks()) && Solving(Blocks())
      ensures changed ==> Missing(LiveIns(Blocks())) < Missing(LiveIns(old(Blocks())))
      ensures !changed ==> LiveIns(Blocks()) == LiveIns(old(Blocks()))
      ensures !changed && SolvedFrom(old(Blocks()), i + 1) ==> SolvedFrom(Blocks(), i)
    {
      hide LiveSet.Union, LiveSet.Intersect, LiveSet.Complemented, SolvedFrom, GraphOf, LiveIns, OutOf, Missing;
      ghost var bs := Blocks();
      changed := false;
      var newLiveOut := LiveOutOf(blocks, numBlocks, i);
      var newLiveIn := blocks[i].gen.Union(newLiveOut.Intersect(blocks[i].kill.Complemented()));
      RecomputeKeepsSolving(bs, i, newLiveOut);
      if newLiveIn != blocks[i].liveIn {
        ChangedMakesProgress(bs, i, newLiveOut);
        blocks[i] := blocks[i].(liveIn := newLiveIn);
        changed := true;
      }
      blocks[i] := blocks[i].(liveOut := newLiveOut);
      assert Blocks() == bs[i := Updated(bs[i], newLiveIn, newLiveOut)];
      if !changed {
        LiveInsAfterUpdate(bs, i, Updated(bs[i], bs[i].liveIn, newLiveOut));
        assert bs[i].liveIn == newLiveIn;
        SameLiveIns(bs, Blocks());
        if SolvedFrom(bs, i + 1) {
          UnchangedIsSolved(bs, i, newLiveOut);
        }
      }
    }

    /** The fixed-point iteration, in place, in reverse block order. */
    method Solve() returns (ghost passes: nat)
      requires Valid() && SuccsInRange(Blocks())
      modifies blocks
      ensures SameShape(old(Blocks()), Blocks())
      ensures SolvedFrom(Blocks(), 0) && Solving(Blocks())
      ensures passes <= RESOURCES * numBlocks + 1
    {
      hide Solving, SolvedFrom, GraphOf, LiveIns, Missing;
      ghost var before := Blocks();
      ClearLiveness();
      MissingBound(LiveIns(Blocks()));
      passes := 0;
      var changed := true;
      while changed
        invariant SameShape(before, Blocks()) && Solving(Blocks())
        invariant changed ==> passes + Missing(LiveIns(Blocks())) <= RESOURCES * numBlocks
        invariant !changed ==> passes <= RESOURCES * numBlocks + 1 && SolvedFrom(Blocks(), 0)
        decreases Missing(LiveIns(Blocks())), changed
      {
        changed := false;
        ghost var missing := Missing(LiveIns(Blocks()));
        assert SolvedFrom(Blocks(), numBlocks) by {
          NothingLeft(Blocks());
        }
        for i := numBlocks downto 0
          invariant SameShape(before, Blocks()) && Solving(Blocks())
          invariant !changed ==> SolvedFrom(Blocks(), i) && Missing(LiveIns(Blocks())) == missing
          invariant changed ==> Missing(LiveIns(Blocks())) < missing
        {
          var c := Recompute(i);
          if c {
            changed := true;
          }
        }
        passes := passes + 1;
      }
    }

    /** Discovers the blocks reachable from startOfs, links them and solves liveness. */
    method Build(page: Page, startOfs: nat, an: Analyzer) returns (ghost drained: bool, ghost passes: nat)
      requires Valid() && startOfs % 4 == 0
      modifies this, blocks, blockAtOfs
      ensures Valid()
      ensures Built(page, an, startOfs, Blocks(), blockAtOfs[..])
      ensures drained || numBlocks == MAX_BLOCKS
      ensures drained ==> forall o | IsSlot(o) ::
                Found(blockAtOfs[..], o) <==> startOfs < PAGE_SIZE && Reachable(page, an, startOfs, o)
      ensures passes <= RESOURCES * numBlocks + 1
    {
      hide Reachable, Found, Discovered, Linked, EndsInRange, EdgesBuilt, SuccsInRange, SolvedFrom, SameShape,
           BelowPaths, Starts, DfsAt;
      ghost var turns;
      drained, turns := Discover(page, startOfs, an);
      ghost var at, bs := blockAtOfs[..], Blocks();
      DiscoveredEnds(page, an, startOfs, bs, at);
      BuildEdges(page, an);
      ghost var linked := Blocks();
      EdgesLink(page, an, startOfs, bs, linked, at);
      passes := Solve();
      SolvedIsBuilt(page, an, startOfs, linked, Blocks(), at);
    }

    method ClearLiveness()
      requires Valid() && SuccsInRange(Blocks())
      modifies blocks
      ensures SameShape(old(Blocks()), Blocks()) && Solving(Blocks())
    {
      ghost var before := Blocks();
      for i := 0 to numBlocks
        invariant SameShape(before, Blocks())
        invariant forall k | 0 <= k < i :: blocks[k].liveIn == NONE
      {
        blocks[i] := blocks[i].(liveIn := NONE, liveOut := NONE);
      }
      NothingIsPreSolution(Blocks());
    }
  }

  lemma {:induction false} ShapeKeepsLinks(
      page: Page, an: Analyzer, bs: seq<PageBlock>, after: seq<PageBlock>, at: seq<int>)
    requires SameShape(bs, after) && Linked(page, an, bs, at) && SuccsInRange(bs)
    ensures Linked(page, an, after, at) && SuccsInRange(after)
  {
    hide EdgesOf;
    forall i | 0 <= i < |bs| ensures after[i].Succs() == bs[i].Succs() && after[i].endOfs == bs[i].endOfs {
    }
  }

  lemma {:induction false} SolvedIsBuilt(
      page: Page, an: Analyzer, start: nat, bs: seq<PageBlock>, after: seq<PageBlock>, at: seq<int>)
    requires Discovered(page, an, start, bs, at) && Linked(page, an, bs, at) && SuccsInRange(bs)
    requires SameShape(bs, after) && SolvedFrom(after, 0) && Solving(after)
    ensures Built(page, an, start, after, at)
  {
    hide SolvedFrom, Reachable, Scanned, Indexed, EdgesOf, BelowPaths, PreSolution;
    assert SameScan(bs, after);
    SameScanKeepsDiscovered(page, an, start, bs, after, at);
    ShapeKeepsLinks(page, an, bs, after, at);
  }

  lemma {:induction false} SameLiveIns(bs: seq<PageBlock>, after: seq<PageBlock>)
    requires |bs| == |after| && forall i | 0 <= i < |bs| :: after[i].liveIn == bs[i].liveIn
    ensures LiveIns(bs) == LiveIns(after)
  {
  }

  lemma {:induction false} NothingLeft(bs: seq<PageBlock>)
    requires Solving(bs)
    ensures SolvedFrom(bs, |bs|)
  {
  }

  /** The successor entries of one block, from its last instruction. */
  method WithEdges(page: Page, an: Analyzer, b: PageBlock, blockAtOfs: array<int>) returns (blk: PageBlock)
    requires 4 <= b.endOfs <= PAGE_SIZE && blockAtOfs.Length == SLOTS
    ensures BlockLinked(page, an, b, blk, blockAtOfs[..])
  {
    hide DecodeBranchTarget, IsUnconditionalBranch, EdgeTo;
    blk := b;
    var lastOpc := InsnAt(page, b.endOfs - 4);
    var lastFx := an(lastOpc);
    if lastFx.isBranch {
      var target := DecodeBranchTarget(lastOpc, b.endOfs - 4);
      blk := blk.(succ0 := if target >= 0 then EdgeTo(blockAtOfs[..], target) else SUCC_OFF_PAGE);
      if IsUnconditionalBranch(lastOpc) {
        blk := blk.(numSucc := 1);
      } else {
        blk := blk.(succ1 := EdgeTo(blockAtOfs[..], blk.endOfs), numSucc := 2);
      }
    } else if lastFx.isEverything {
      blk := blk.(succ0 := EdgeTo(blockAtOfs[..], blk.endOfs), numSucc := 1);
    } else {
      blk := blk.(numSucc := 0);
    }
  }

  /** One more successor entry joins the union. */
  lemma {:induction false} KnownHead(succs: seq<int>, live: seq<set<nat>>)
    requires succs != [] && EdgesInRange(succs, |live|)
    ensures EdgesInRange(succs[1..], |live|)
    ensures forall s | s in Known(succs) :: s < |live|
    ensures forall s | s in Known(succs[1..]) :: s < |live|
    ensures succs[0] < 0 ==> Known(succs) == Known(succs[1..])
    ensures succs[0] >= 0 ==>
              UnionOver(live, Known(succs)) == live[succs[0]] + UnionOver(live, Known(succs[1..]))
  {
    KnownInRange(succs, |live|);
    KnownInRange(succs[1..], |live|);
    if succs[0] >= 0 {
      assert Known(succs)[1..] == Known(succs[1..]);
    }
  }

  lemma {:induction false} NoneKnown(live: seq<set<nat>>)
    ensures Known([]) == [] && UnionOver(live, []) == {}
  {
  }

  lemma {:induction false} OutOfBlock(bs: seq<PageBlock>, i: nat)
    requires i < |bs| && SuccsInRange(bs)
    ensures Assignment(GraphOf(bs), LiveIns(bs))
    ensures var live, succs := LiveIns(bs), bs[i].Succs();
      EdgesInRange(succs, |live|) && (forall s | s in Known(succs) :: s < |live|)
      && OutOf(GraphOf(bs), live, i)
         == if bs[i].numSucc == 0 || SUCC_OFF_PAGE in succs then Everything else UnionOver(live, Known(succs))
  {
    hide UnionOver, Known;
    GraphWellFormed(bs);
    KnownInRange(bs[i].Succs(), |bs|);
    assert GraphOf(bs)[i] == NodeOf(bs[i]);
  }

  /** out and the entries still to do together make up the union over all of them. */
  ghost predicate Gathered(live: seq<set<nat>>, succs: seq<int>, out: set<nat>, todo: seq<int>) {
    && EdgesInRange(succs, |live|) && EdgesInRange(todo, |live|)
    && (forall s | s in Known(succs) :: s < |live|) && (forall s | s in Known(todo) :: s < |live|)
    && out + UnionOver(live, Known(todo)) == UnionOver(live, Known(succs))
  }

  lemma {:induction false} GatherNext(live: seq<set<nat>>, succs: seq<int>, out: set<nat>, todo: seq<int>)
    requires Gathered(live, succs, out, todo) && todo != []
    ensures todo[0] < |live|
    ensures Gathered(live, succs, if todo[0] >= 0 then out + live[todo[0]] else out, todo[1..])
  {
    hide UnionOver, Known;
    KnownHead(todo, live);
  }

  /** The union of the successors' live_in, or everything for an unknown place. */
  method LiveOutOf(blocks: array<PageBlock>, numBlocks: nat, i: nat) returns (out: LiveSet)
    requires i < numBlocks <= blocks.Length && SuccsInRange(blocks[..numBlocks])
    ensures Assignment(GraphOf(blocks[..numBlocks]), LiveIns(blocks[..numBlocks]))
    ensures Members(out) == OutOf(GraphOf(blocks[..numBlocks]), LiveIns(blocks[..numBlocks]), i)
  {
    hide LiveSet.Union, Members, UnionOver, Known, GraphOf, Assignment, OutOf, SuccsInRange, Gathered;
    ghost var bs := blocks[..numBlocks];
    ghost var live := LiveIns(bs);
    OutOfBlock(bs, i);
    ConstantMembers();
    var succs := blocks[i].Succs();
    out := NONE;
    GatherNone(live, succs);
    var j := 0;
    while j < |succs|
      invariant 0 <= j <= |succs|
      invariant SUCC_OFF_PAGE !in succs[..j]
      invariant Gathered(live, succs, Members(out), succs[j..])
      decreases |succs| - j
    {
      GatherNext(live, succs, Members(out), succs[j..]);
      if succs[j] == SUCC_OFF_PAGE {
        out := ALL_LIVE;
        return;
      } else if succs[j] >= 0 {
        UnionMembers(out, blocks[succs[j]].liveIn);
        out := out.Union(blocks[succs[j]].liveIn);
      }
      j := j + 1;
    }
    GatherAll(live, succs, Members(out));
    if blocks[i].numSucc == 0 {
      out := ALL_LIVE;
    }
  }

  lemma {:induction false} GatherNone(live: seq<set<nat>>, succs: seq<int>)
    requires EdgesInRange(succs, |live|) && forall s | s in Known(succs) :: s < |live|
    ensures Gathered(live, succs, {}, succs[0..])
  {
    hide UnionOver, Known;
    assert succs[0..] == succs;
  }

  lemma {:induction false} GatherAll(live: seq<set<nat>>, succs: seq<int>, out: set<nat>)
    requires Gathered(live, succs, out, succs[|succs|..])
    ensures (forall s | s in Known(succs) :: s < |live|) && out == UnionOver(live, Known(succs))
  {
    NoneKnown(live);
  }

  /** Puts the on-page successors of a scanned block on the worklist. */
  method PushSuccessors(page: Page, entryOfs: nat, endOfs: nat, an: Analyzer, worklist: seq<nat>)
    returns (w: seq<nat>)
    requires IsSlot(entryOfs) && endOfs == ScanEnd(page, an, entryOfs)
    ensures w == worklist + Pushes(page, an, entryOfs)
  {
    w := worklist;
    var lastOpc := InsnAt(page, endOfs - 4);
    var lastFx := an(lastOpc);
    if lastFx.isBranch {
      var target := DecodeBranchTarget(lastOpc, endOfs - 4);
      var uncond := IsUnconditionalBranch(lastOpc);
      if target >= 0 {
        w := w + [target];
      }
      if !uncond && endOfs < PAGE_SIZE {
        w := w + [endOfs];
      }
    } else if lastFx.isEverything {
      if endOfs < PAGE_SIZE {
        w := w + [endOfs];
      }
    }
  }

  /** The instruction walk of a block scan. */
  method WalkBlock(page: Page, startOfs: nat, an: Analyzer) returns (ofs: nat, gen: LiveSet, kill: LiveSet)
    requires IsSlot(startOfs)
    ensures ofs == ScanEnd(page, an, startOfs)
    ensures (gen, kill) == ScanSummary(page, an, startOfs, NONE, NONE)
  {
    hide AddExposed, LiveSet.Union;
    gen, kill := NONE, NONE;
    ofs := startOfs;
    while ofs < PAGE_SIZE
      invariant ofs == PAGE_SIZE || IsSlot(ofs)
      invariant ScanEnd(page, an, startOfs) == if ofs < PAGE_SIZE then ScanEnd(page, an, ofs) else PAGE_SIZE
      invariant ScanSummary(page, an, startOfs, NONE, NONE) == ScanSummary(page, an, ofs, gen, kill)
    {
      var fx := an(InsnAt(page, ofs));
      if fx.isEverything {
        gen, kill := ALL_LIVE, ALL_LIVE;
        ofs := ofs + 4;
        break;
      }
      gen := AddExposed(gen, kill, fx.read);
      kill := kill.Union(fx.write);
      ofs := ofs + 4;
      if fx.isBranch {
        break;
      }
    }
  }
}
