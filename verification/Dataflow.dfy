/** Backward liveness over a graph of blocks: the equations, their least solution
    and its meaning along paths. */
module Dataflow {
  import opened LiveSets

  /** A block: upward-exposed reads, writes, known successors, and whether control
      may also go somewhere unknown. */
  datatype Node = Node(gen: set<nat>, kill: set<nat>, succ: seq<nat>, exit: bool)

  ghost predicate WellFormed(g: seq<Node>) {
    && (forall i, s | 0 <= i < |g| && s in g[i].succ :: s < |g|)
    && forall i | 0 <= i < |g| :: g[i].gen <= Everything
  }

  ghost predicate Assignment(g: seq<Node>, live: seq<set<nat>>) {
    |live| == |g| && WellFormed(g)
  }

  ghost function UnionOver(live: seq<set<nat>>, succ: seq<nat>): set<nat>
    requires forall s | s in succ :: s < |live|
  {
    if succ == [] then {}
    else
      assert succ[0] in succ && forall s | s in succ[1..] :: s in succ;
      live[succ[0]] + UnionOver(live, succ[1..])
  }

  ghost function OutOf(g: seq<Node>, live: seq<set<nat>>, i: nat): set<nat>
    requires Assignment(g, live) && i < |g|
  {
    if g[i].exit then Everything else UnionOver(live, g[i].succ)
  }

  /** live_in = gen | (live_out & ~kill) */
  ghost function InOf(g: seq<Node>, live: seq<set<nat>>, i: nat): set<nat>
    requires Assignment(g, live) && i < |g|
  {
    g[i].gen + (OutOf(g, live, i) - g[i].kill)
  }

  ghost predicate Solution(g: seq<Node>, live: seq<set<nat>>) {
    Assignment(g, live) && forall i | 0 <= i < |g| :: live[i] == InOf(g, live, i)
  }

  /** Assignments that only need to grow. */
  ghost predicate PreSolution(g: seq<Node>, live: seq<set<nat>>) {
    Assignment(g, live) && forall i | 0 <= i < |g| :: live[i] <= InOf(g, live, i)
  }

  ghost predicate PostSolution(g: seq<Node>, live: seq<set<nat>>) {
    Assignment(g, live) && forall i | 0 <= i < |g| :: InOf(g, live, i) <= live[i]
  }

  ghost predicate Below(a: seq<set<nat>>, b: seq<set<nat>>) {
    |a| == |b| && forall i | 0 <= i < |a| :: a[i] <= b[i]
  }

  lemma {:induction false} UnionMembership(live: seq<set<nat>>, succ: seq<nat>, r: nat)
    requires forall s | s in succ :: s < |live|
    ensures r in UnionOver(live, succ) <==> exists s | s in succ :: r in live[s]
  {
    if succ != [] {
      assert succ[0] in succ && forall s | s in succ[1..] :: s in succ;
      UnionMembership(live, succ[1..], r);
      if r in UnionOver(live, succ[1..]) {
        var s :| s in succ[1..] && r in live[s];
        assert s in succ;
      }
      if exists s | s in succ :: r in live[s] {
        var s :| s in succ && r in live[s];
        assert s == succ[0] || s in succ[1..];
      }
    }
  }

  lemma {:induction false} InOfMonotone(g: seq<Node>, a: seq<set<nat>>, b: seq<set<nat>>, i: nat)
    requires Assignment(g, a) && Below(a, b) && i < |g|
    ensures InOf(g, a, i) <= InOf(g, b, i)
  {
    forall r | r in UnionOver(a, g[i].succ) ensures r in UnionOver(b, g[i].succ) {
      UnionMembership(a, g[i].succ, r);
      UnionMembership(b, g[i].succ, r);
    }
  }

  /** Recomputing one block of a growing assignment keeps it growing. */
  lemma {:induction false} UpdateKeepsPreSolution(g: seq<Node>, live: seq<set<nat>>, i: nat)
    requires PreSolution(g, live) && i < |g|
    ensures PreSolution(g, live[i := InOf(g, live, i)])
    ensures Below(live, live[i := InOf(g, live, i)])
  {
    var next := live[i := InOf(g, live, i)];
    forall k | 0 <= k < |g| ensures next[k] <= InOf(g, next, k) {
      InOfMonotone(g, live, next, k);
    }
  }

  // ---------------------------------------------------------------- all paths

  /** Along the path p, resource r is read, or escapes to an unknown place, before
      any block on the way writes it. */
  ghost predicate Exposes(g: seq<Node>, p: seq<nat>, r: nat) {
    && p != [] && p[0] < |g| && r in Everything
    && if |p| == 1 then r in g[p[0]].gen || (g[p[0]].exit && r !in g[p[0]].kill)
       else p[1] in g[p[0]].succ && r !in g[p[0]].kill && Exposes(g, p[1..], r)
  }

  /** The all-paths definition of liveness at the entry of block i. */
  ghost predicate PathLive(g: seq<Node>, i: nat, r: nat) {
    exists p: seq<nat> :: Exposes(g, p, r) && p[0] == i
  }

  ghost predicate BelowPaths(g: seq<Node>, live: seq<set<nat>>) {
    |live| == |g| && forall i, r | 0 <= i < |g| && r in live[i] :: PathLive(g, i, r)
  }

  /** What a recomputation adds is live along some path. */
  lemma {:induction false} InOfBelowPaths(g: seq<Node>, live: seq<set<nat>>, i: nat, r: nat)
    requires Assignment(g, live) && BelowPaths(g, live) && i < |g|
    requires r in InOf(g, live, i)
    ensures PathLive(g, i, r)
  {
    if r in g[i].gen || g[i].exit {
      assert Exposes(g, [i], r);
    } else {
      UnionMembership(live, g[i].succ, r);
      var s :| s in g[i].succ && r in live[s];
      var p :| Exposes(g, p, r) && p[0] == s;
      assert ([i] + p)[1..] == p;
      assert Exposes(g, [i] + p, r);
    }
  }

  lemma {:induction false} PathsBelowPostSolution(g: seq<Node>, live: seq<set<nat>>, p: seq<nat>, r: nat)
    requires PostSolution(g, live) && Exposes(g, p, r)
    ensures r in live[p[0]]
    decreases |p|
  {
    var i := p[0];
    if |p| > 1 {
      PathsBelowPostSolution(g, live, p[1..], r);
      UnionMembership(live, g[i].succ, r);
    }
    assert r in InOf(g, live, i);
  }

  /** A solution that stays below the paths is exactly the all-paths solution. */
  lemma {:induction false} SolutionIsAllPaths(g: seq<Node>, live: seq<set<nat>>, i: nat, r: nat)
    requires Solution(g, live) && BelowPaths(g, live) && i < |g|
    ensures r in live[i] <==> PathLive(g, i, r)
  {
    if PathLive(g, i, r) {
      var p :| Exposes(g, p, r) && p[0] == i;
      PathsBelowPostSolution(g, live, p, r);
    }
  }

  /** ... and the least one. */
  lemma {:induction false} SolutionIsLeast(g: seq<Node>, live: seq<set<nat>>, other: seq<set<nat>>)
    requires Solution(g, live) && BelowPaths(g, live) && PostSolution(g, other)
    ensures Below(live, other)
  {
    forall i, r | 0 <= i < |g| && r in live[i] ensures r in other[i] {
      var p :| Exposes(g, p, r) && p[0] == i;
      PathsBelowPostSolution(g, other, p, r);
    }
  }

  // -------------------------------------------------------------- progress

  /** How many (block, resource) pairs are not yet live. */
  ghost function Missing(live: seq<set<nat>>): nat {
    if live == [] then 0 else |Everything - live[0]| + Missing(live[1..])
  }

  ghost function FirstNumbers(n: nat): (r: set<nat>)
    ensures |r| == n && forall i: nat :: i in r <==> i < n
  {
    if n == 0 then {} else FirstNumbers(n - 1) + {n - 1}
  }

  lemma {:induction false} EverythingSize()
    ensures |Everything| == RESOURCES
  {
    assert Everything == FirstNumbers(RESOURCES);
  }

  lemma {:induction false} MissingBound(live: seq<set<nat>>)
    ensures Missing(live) <= RESOURCES * |live|
  {
    if live != [] {
      EverythingSize();
      SubsetSize(Everything - live[0], Everything);
      MissingBound(live[1..]);
    }
  }

  lemma {:induction false} SubsetSize(a: set<nat>, b: set<nat>)
    requires a <= b
    ensures |a| <= |b| && (a != b ==> |a| < |b|)
  {
    assert b == a + (b - a);
    assert |b| == |a| + |b - a|;
    if a != b {
      assert b - a != {};
    }
  }

  /** Making a block's set strictly larger uses up at least one missing pair. */
  lemma {:induction false} MissingShrinks(live: seq<set<nat>>, i: nat, bigger: set<nat>)
    requires i < |live| && live[i] < bigger <= Everything
    ensures Missing(live[i := bigger]) < Missing(live)
  {
    if i == 0 {
      assert live[i := bigger][1..] == live[1..];
      var x :| x in bigger && x !in live[0];
      assert x in Everything - live[0] && x !in Everything - bigger;
      SubsetSize(Everything - bigger, Everything - live[0]);
    } else {
      assert live[i := bigger][1..] == live[1..][i - 1 := bigger];
      MissingShrinks(live[1..], i - 1, bigger);
    }
  }
}
