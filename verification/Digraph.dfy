/** Directed graphs given by adjacency lists, and reachability in them. */
module Digraph {

  type Graph = seq<seq<nat>>

  predicate WellFormed(g: Graph) {
    forall u, k :: 0 <= u < |g| && 0 <= k < |g[u]| ==> g[u][k] < |g|
  }

  predicate Edge(g: Graph, u: nat, v: nat) {
    u < |g| && v in g[u]
  }

  ghost predicate Walk(g: Graph, p: seq<nat>) {
    |p| > 0 && forall i :: 0 <= i < |p| - 1 ==> Edge(g, p[i], p[i+1])
  }

  ghost predicate WalkFromTo(g: Graph, p: seq<nat>, u: nat, v: nat) {
    Walk(g, p) && p[0] == u && p[|p|-1] == v
  }

  /** There is a walk, possibly empty, from `u` to `v`. */
  ghost predicate Reach(g: Graph, u: nat, v: nat) {
    exists p :: WalkFromTo(g, p, u, v)
  }

  /** `u` lies on a cycle: some edge out of it leads back to it. */
  ghost predicate OnCycle(g: Graph, u: nat) {
    exists v :: Edge(g, u, v) && Reach(g, v, u)
  }

  ghost predicate Acyclic(g: Graph) {
    forall u :: !OnCycle(g, u)
  }

  ghost predicate MutuallyReachable(g: Graph, u: nat, v: nat) {
    Reach(g, u, v) && Reach(g, v, u)
  }

  lemma ReachRefl(g: Graph, u: nat)
    ensures Reach(g, u, u)
  {
    assert WalkFromTo(g, [u], u, u);
  }

  lemma ReachEdge(g: Graph, u: nat, v: nat)
    requires Edge(g, u, v)
    ensures Reach(g, u, v)
  {
    assert WalkFromTo(g, [u, v], u, v);
  }

  lemma ReachTrans(g: Graph, u: nat, v: nat, w: nat)
    requires Reach(g, u, v) && Reach(g, v, w)
    ensures Reach(g, u, w)
  {
    var p :| WalkFromTo(g, p, u, v);
    var q :| WalkFromTo(g, q, v, w);
    var r := p + q[1..];
    forall i | 0 <= i < |r| - 1
      ensures Edge(g, r[i], r[i+1])
    {
      if i < |p| - 1 {
        assert Edge(g, p[i], p[i+1]);
      } else {
        var j := i - (|p| - 1);
        assert Edge(g, q[j], q[j+1]);
      }
    }
    assert WalkFromTo(g, r, u, w);
  }

  /** A set closed under edges keeps everything reachable from its members. */
  lemma {:induction false} ReachClosed(g: Graph, s: set<nat>, u: nat, v: nat)
    requires forall x, y :: x in s && Edge(g, x, y) ==> y in s
    requires u in s && Reach(g, u, v)
    ensures v in s
  {
    var p :| WalkFromTo(g, p, u, v);
    var i := 0;
    while i < |p| - 1
      invariant 0 <= i < |p| && p[i] in s
    {
      assert Edge(g, p[i], p[i+1]);
      i := i + 1;
    }
  }

  /** A set closed under predecessors holds everything that reaches one of its members. */
  lemma {:induction false} ReachClosedBack(g: Graph, s: set<nat>, u: nat, v: nat)
    requires forall x, y :: y in s && Edge(g, x, y) ==> x in s
    requires v in s && Reach(g, u, v)
    ensures u in s
  {
    var p :| WalkFromTo(g, p, u, v);
    var i := |p| - 1;
    while i > 0
      invariant 0 <= i < |p| && p[i] in s
    {
      assert Edge(g, p[i-1], p[i]);
      i := i - 1;
    }
  }

  /** Reachability is monotone in the edge relation. */
  lemma ReachMono(g: Graph, h: Graph, u: nat, v: nat)
    requires forall x, y :: Edge(g, x, y) ==> Edge(h, x, y)
    requires Reach(g, u, v)
    ensures Reach(h, u, v)
  {
    var p :| WalkFromTo(g, p, u, v);
    forall i | 0 <= i < |p| - 1
      ensures Edge(h, p[i], p[i+1])
    {
      assert Edge(g, p[i], p[i+1]);
    }
    assert WalkFromTo(h, p, u, v);
  }

  /** Nodes of `g` that reach `v`. */
  ghost function Ancestors(g: Graph, v: nat): set<nat> {
    set u | 0 <= u < |g| && Reach(g, u, v)
  }

  /** A predecessor that cannot be reached back has strictly fewer ancestors. */
  lemma AncestorsShrink(g: Graph, u: nat, v: nat)
    requires Edge(g, u, v) && v < |g| && !Reach(g, v, u)
    ensures |Ancestors(g, u)| < |Ancestors(g, v)|
  {
    ReachEdge(g, u, v);
    ReachRefl(g, v);
    forall x | x in Ancestors(g, u)
      ensures x in Ancestors(g, v)
    {
      ReachTrans(g, x, u, v);
    }
    SubsetSmaller(Ancestors(g, u), Ancestors(g, v), v);
  }

  ghost predicate HasPredecessorIn(g: Graph, s: set<nat>, v: nat) {
    exists u :: u in s && Edge(g, u, v)
  }

  /** If every member of `s` has a predecessor in `s`, each member descends from a cycle. */
  lemma {:induction false} FindCycle(g: Graph, s: set<nat>, v: nat) returns (c: nat)
    requires v in s
    requires forall x :: x in s ==> x < |g| && HasPredecessorIn(g, s, x)
    ensures c in s && OnCycle(g, c) && Reach(g, c, v)
    decreases |Ancestors(g, v)|
  {
    assert HasPredecessorIn(g, s, v);
    var u :| u in s && Edge(g, u, v);
    ReachEdge(g, u, v);
    if Reach(g, v, u) {
      c := u;
    } else {
      AncestorsShrink(g, u, v);
      c := FindCycle(g, s, u);
      ReachTrans(g, c, u, v);
    }
  }

  lemma SubsetSmaller<T>(a: set<T>, b: set<T>, x: T)
    requires a <= b && x in b && x !in a
    ensures |a| < |b|
  {
    var rest := b - {x} - a;
    assert b == a + rest + {x};
    assert |a + rest| == |a| + |rest|;
  }
}
