/** Kahn's algorithm on multigraphs: in-degree counters, releasing successors, and what a stall means. */
module Kahn {
  import opened Digraph

  function Elems(xs: seq<nat>): set<nat> {
    set x | x in xs
  }

  /** How many edges lead to `v` from the nodes below `n` that are not in `done`. */
  ghost function Pending(g: Graph, done: set<nat>, v: nat, n: nat): nat
    requires n <= |g|
  {
    if n == 0 then 0
    else Pending(g, done, v, n - 1) + if n - 1 in done then 0 else multiset(g[n-1])[v]
  }

  lemma {:induction false} PendingZero(g: Graph, done: set<nat>, v: nat, n: nat)
    requires n <= |g|
    ensures Pending(g, done, v, n) == 0 <==> forall u: nat :: u < n && u !in done ==> !Edge(g, u, v)
  {
    if n > 0 {
      PendingZero(g, done, v, n - 1);
      assert Edge(g, n - 1, v) <==> multiset(g[n-1])[v] > 0;
    }
  }

  /** Finishing `u` removes exactly its own edges from the count. */
  lemma {:induction false} PendingDone(g: Graph, done: set<nat>, u: nat, v: nat, n: nat)
    requires n <= |g| && u < |g| && u !in done
    ensures Pending(g, done + {u}, v, n) == Pending(g, done, v, n) - if u < n then multiset(g[u])[v] else 0
  {
    if n > 0 {
      PendingDone(g, done, u, v, n - 1);
    }
  }

  /** A new edge adds one to the count of its target. */
  lemma {:induction false} PendingAdd(g: Graph, u: nat, w: nat, v: nat, n: nat)
    requires n <= |g| && u < |g|
    ensures Pending(g[u := g[u] + [w]], {}, v, n) == Pending(g, {}, v, n) + if u < n && v == w then 1 else 0
  {
    if n > 0 {
      PendingAdd(g, u, w, v, n - 1);
    }
  }

  lemma {:induction false} PendingEmpty(g: Graph, v: nat, n: nat)
    requires n <= |g| && forall u :: 0 <= u < |g| ==> g[u] == []
    ensures Pending(g, {}, v, n) == 0
  {
    if n > 0 {
      PendingEmpty(g, v, n - 1);
    }
  }

  /** The counters give each node's number of incoming edges. */
  ghost predicate Counted(g: Graph, indeg: seq<nat>) {
    |indeg| == |g| && forall v: nat :: v < |g| ==> indeg[v] == Pending(g, {}, v, |g|)
  }

  ghost predicate Distinct(xs: seq<nat>) {
    forall i, j :: 0 <= i < j < |xs| ==> xs[i] != xs[j]
  }

  lemma {:induction false} CountsOnce(xs: seq<nat>, x: nat)
    requires Distinct(xs)
    ensures multiset(xs)[x] <= 1
  {
    if xs != [] {
      var ys := xs[..|xs|-1];
      CountsOnce(ys, x);
      assert xs == ys + [xs[|xs|-1]];
      if x == xs[|xs|-1] {
        assert x !in ys;
      }
    }
  }

  /** Every predecessor of an entry of `out` stands earlier in `out`. */
  ghost predicate PredsBefore(g: Graph, out: seq<nat>) {
    forall j: nat, u: nat :: j < |out| && Edge(g, u, out[j]) ==> u in out[..j]
  }

  /** `out` lists each node of `g` once. */
  ghost predicate Permutes(out: seq<nat>, n: nat) {
    Distinct(out) && |out| == n && forall v: nat :: v < n <==> v in out
  }

  ghost predicate LinearExtension(g: Graph, out: seq<nat>) {
    Permutes(out, |g|) && PredsBefore(g, out)
  }

  /** The counters and the ready nodes after `out` has been emitted. */
  ghost predicate Progress(g: Graph, out: seq<nat>, indeg: seq<nat>, ready: set<nat>) {
    && |indeg| == |g| && Distinct(out) && (forall v :: v in out ==> v < |g|) && PredsBefore(g, out)
    && (forall v: nat :: v < |g| ==> indeg[v] == Pending(g, Elems(out), v, |g|))
    && (forall v: nat :: v in ready <==> v < |g| && v !in out && indeg[v] == 0)
  }

  lemma Start(g: Graph, indeg: seq<nat>, ready: set<nat>)
    requires |indeg| == |g|
    requires forall v: nat :: v < |g| ==> indeg[v] == Pending(g, {}, v, |g|)
    requires forall v: nat :: v in ready <==> v < |g| && indeg[v] == 0
    ensures Progress(g, [], indeg, ready)
  {
    assert Elems([]) == {};
  }

  /** The counters after the edges in `succs` have been taken off, and the nodes this leaves without any. */
  ghost predicate Released(indeg: seq<nat>, indeg': seq<nat>, succs: seq<nat>, freed: seq<nat>) {
    && |indeg'| == |indeg| && Distinct(freed)
    && (forall v: nat :: v < |indeg| ==> indeg'[v] + multiset(succs)[v] == indeg[v])
    && (forall v: nat :: v in freed <==> v < |indeg| && v in succs && indeg'[v] == 0)
  }

  /** Take off one edge to each entry of `succs`, collecting the nodes whose count drops to zero. */
  method Release(succs: seq<nat>, indeg: array<nat>) returns (freed: seq<nat>)
    requires forall k :: 0 <= k < |succs| ==> succs[k] < indeg.Length
    requires forall v: nat :: v < indeg.Length ==> multiset(succs)[v] <= indeg[v]
    modifies indeg
    ensures Released(old(indeg[..]), indeg[..], succs, freed)
  {
    freed := [];
    for k := 0 to |succs|
      invariant Distinct(freed)
      invariant forall v: nat :: v < indeg.Length ==> indeg[v] + multiset(succs[..k])[v] == old(indeg[v])
      invariant forall v: nat :: v in freed <==> v < indeg.Length && v in succs[..k] && indeg[v] == 0
    {
      var v := succs[k];
      TakeOne(succs, k);
      indeg[v] := indeg[v] - 1;
      if indeg[v] == 0 {
        freed := freed + [v];
      }
    }
    assert succs[..|succs|] == succs;
  }

  lemma TakeOne(xs: seq<nat>, k: nat)
    requires k < |xs|
    ensures forall v :: multiset(xs[..k+1])[v] == multiset(xs[..k])[v] + if v == xs[k] then 1 else 0
    ensures forall v :: multiset(xs[..k+1])[v] <= multiset(xs)[v]
    ensures forall v :: v in xs[..k+1] <==> v in xs[..k] || v == xs[k]
  {
    assert xs[..k+1] == xs[..k] + [xs[k]];
    assert xs == xs[..k+1] + xs[k+1..];
  }

  lemma PendingCovers(g: Graph, done: set<nat>, u: nat, v: nat)
    requires u < |g| && u !in done
    ensures multiset(g[u])[v] <= Pending(g, done, v, |g|)
  {
    PendingDone(g, done, u, v, |g|);
  }

  lemma PredsPush(g: Graph, out: seq<nat>, u: nat)
    requires PredsBefore(g, out) && forall x :: Edge(g, x, u) ==> x in out
    ensures PredsBefore(g, out + [u])
  {
    var out' := out + [u];
    forall j: nat, x: nat | j < |out'| && Edge(g, x, out'[j])
      ensures x in out'[..j]
    {
      if j < |out| {
        assert out'[..j] == out[..j];
      } else {
        assert out'[..j] == out;
      }
    }
  }

  lemma DistinctPush(xs: seq<nat>, x: nat)
    requires Distinct(xs) && x !in xs
    ensures Distinct(xs + [x]) && Elems(xs + [x]) == Elems(xs) + {x}
  {
  }

  /** Emitting a ready node and releasing its successors. */
  lemma Emit(g: Graph, out: seq<nat>, indeg: seq<nat>, ready: set<nat>, u: nat, indeg': seq<nat>, freed: seq<nat>)
    requires Progress(g, out, indeg, ready) && u in ready && Released(indeg, indeg', g[u], freed)
    ensures Progress(g, out + [u], indeg', (ready - {u}) + Elems(freed))
    ensures forall v :: v in freed ==> v !in ready
  {
    var out' := out + [u];
    DistinctPush(out, u);
    PendingZero(g, Elems(out), u, |g|);
    assert !Edge(g, u, u);
    forall v: nat | v < |g|
      ensures indeg'[v] == Pending(g, Elems(out'), v, |g|)
    {
      PendingDone(g, Elems(out), u, v, |g|);
    }
    PredsPush(g, out, u);
    forall v: nat | v in freed
      ensures v !in ready && v !in out
    {
      assert multiset(g[u])[v] > 0;
      if v in out {
        var j :| 0 <= j < |out| && out[j] == v;
        assert Edge(g, u, out[j]);
        assert false;
      }
    }
  }

  /** What reaches an emitted node was emitted no later. */
  lemma ReachBefore(g: Graph, out: seq<nat>, j: nat, u: nat)
    requires PredsBefore(g, out) && j < |out| && Reach(g, u, out[j])
    ensures u in out[..j+1]
  {
    var s := Elems(out[..j+1]);
    forall x, y | y in s && Edge(g, x, y)
      ensures x in s
    {
      var i :| 0 <= i < j + 1 && out[..j+1][i] == y;
      assert x in out[..i];
    }
    assert out[j] == out[..j+1][j];
    ReachClosedBack(g, s, u, out[j]);
  }

  lemma CycleNotEmitted(g: Graph, out: seq<nat>, c: nat)
    requires Distinct(out) && PredsBefore(g, out) && OnCycle(g, c)
    ensures c !in out
  {
    if c in out {
      var j :| 0 <= j < |out| && out[j] == c;
      var d :| Edge(g, c, d) && Reach(g, d, c);
      ReachBefore(g, out, j, d);
      assert false;
    }
  }

  /** `v` lies on a cycle or below one. */
  ghost predicate Descends(g: Graph, v: nat) {
    exists c :: OnCycle(g, c) && Reach(g, c, v)
  }

  /** When nothing is ready, exactly the nodes that descend from a cycle are left. */
  lemma Stalled(g: Graph, out: seq<nat>, indeg: seq<nat>)
    requires Progress(g, out, indeg, {})
    ensures forall v: nat :: v < |g| ==> (v !in out <==> Descends(g, v))
  {
    var left := set v: nat | v < |g| && v !in out;
    forall v: nat | v < |g|
      ensures v !in out <==> Descends(g, v)
    {
      if v in out {
        forall c | OnCycle(g, c) && Reach(g, c, v)
          ensures false
        {
          var j :| 0 <= j < |out| && out[j] == v;
          ReachBefore(g, out, j, c);
          CycleNotEmitted(g, out, c);
        }
      } else {
        forall x | x in left
          ensures HasPredecessorIn(g, left, x)
        {
          PendingZero(g, Elems(out), x, |g|);
          var u: nat :| u < |g| && u !in Elems(out) && Edge(g, u, x);
          assert u in left && Edge(g, u, x);
        }
        var c := FindCycle(g, left, v);
      }
    }
  }

  lemma {:induction false} DistinctSize(xs: seq<nat>)
    requires Distinct(xs)
    ensures |Elems(xs)| == |xs|
  {
    if xs != [] {
      var ys := xs[..|xs|-1];
      DistinctSize(ys);
      assert Elems(xs) == Elems(ys) + {xs[|xs|-1]};
    }
  }

  function Below(n: nat): (s: set<nat>)
    ensures |s| == n
    ensures forall v: nat :: v in s <==> v < n
    decreases n
  {
    if n == 0 then {} else {n - 1} + Below(n - 1)
  }

  /** A list of distinct nodes below `n` has all of them exactly when it has `n` entries. */
  lemma AllEmitted(out: seq<nat>, n: nat)
    requires Distinct(out) && forall v :: v in out ==> v < n
    ensures |out| <= n && (|out| == n <==> forall v: nat :: v < n ==> v in out)
  {
    DistinctSize(out);
    var all := Below(n);
    assert Elems(out) <= all;
    SubsetEqual(Elems(out), all);
    if Elems(out) == all {
      forall v: nat | v < n
        ensures v in out
      {
        assert v in all;
      }
    }
  }

  lemma SubsetEqual<T>(a: set<T>, b: set<T>)
    requires a <= b
    ensures |a| <= |b| && (|a| == |b| <==> a == b)
  {
    assert b == a + (b - a);
  }

  /** A graph has a linear extension only if it is acyclic. */
  lemma ExtensionAcyclic(g: Graph, out: seq<nat>)
    requires WellFormed(g) && LinearExtension(g, out)
    ensures Acyclic(g)
  {
    forall c: nat | OnCycle(g, c)
      ensures false
    {
      CycleNotEmitted(g, out, c);
    }
  }

  // ---------- the heap-driven loop ----------

  /** `t` may come next after `prefix`. */
  ghost predicate Available(g: Graph, prefix: seq<nat>, t: nat) {
    t < |g| && t !in prefix && forall u :: Edge(g, u, t) ==> u in prefix
  }

  /** No node that could have come at some place of `out` is better than the one that stands there. */
  ghost predicate BestFirst(g: Graph, out: seq<nat>, better: (nat, nat) -> bool) {
    forall j: nat, t: nat :: j < |out| && Available(g, out[..j], t) ==> !better(t, out[j])
  }

  ghost predicate Preference(better: (nat, nat) -> bool) {
    (forall a :: !better(a, a)) && (forall a, b, c :: better(a, b) && better(b, c) ==> better(a, c))
  }

  /** Take a best member off the heap. */
  method PopBest(heap: set<nat>, better: (nat, nat) -> bool) returns (best: nat)
    requires heap != {} && Preference(better)
    ensures best in heap && forall x :: x in heap ==> !better(x, best)
  {
    best :| best in heap;
    var todo := heap - {best};
    while todo != {}
      invariant todo <= heap && best in heap
      invariant forall x :: x in heap - todo ==> !better(x, best)
      decreases |todo|
    {
      var x :| x in todo;
      todo := todo - {x};
      if better(x, best) {
        best := x;
      }
    }
  }

  lemma ReadyIsAvailable(g: Graph, out: seq<nat>, indeg: seq<nat>, ready: set<nat>, t: nat)
    requires Progress(g, out, indeg, ready)
    ensures t in ready <==> Available(g, out, t)
  {
    PendingZero(g, Elems(out), t, |g|);
  }

  lemma BestPush(g: Graph, out: seq<nat>, better: (nat, nat) -> bool, u: nat)
    requires BestFirst(g, out, better) && forall t :: Available(g, out, t) ==> !better(t, u)
    ensures BestFirst(g, out + [u], better)
  {
    var out' := out + [u];
    forall j: nat, t: nat | j < |out'| && Available(g, out'[..j], t)
      ensures !better(t, out'[j])
    {
      if j < |out| {
        assert out'[..j] == out[..j];
      } else {
        assert out'[..j] == out;
      }
    }
  }

  /** Emit available nodes, best first, until none is left. */
  method KahnBest(g: Graph, indeg: array<nat>, better: (nat, nat) -> bool) returns (out: seq<nat>)
    requires WellFormed(g) && indeg.Length == |g| && Preference(better)
    requires forall v: nat :: v < |g| ==> indeg[v] == Pending(g, {}, v, |g|)
    modifies indeg
    ensures Distinct(out) && (forall v :: v in out ==> v < |g|)
    ensures PredsBefore(g, out) && BestFirst(g, out, better)
    ensures forall v: nat :: v < |g| ==> (v !in out <==> Descends(g, v))
  {
    out := [];
    var ready := set v: nat | v < |g| && indeg[v] == 0;
    Start(g, indeg[..], ready);
    while ready != {}
      invariant Progress(g, out, indeg[..], ready) && BestFirst(g, out, better)
      decreases |g| - |out|
    {
      hide BestFirst, PredsBefore, Pending, Available;
      var u := PopBest(ready, better);
      ghost var before := indeg[..];
      forall t: nat
        ensures Available(g, out, t) ==> !better(t, u)
      {
        ReadyIsAvailable(g, out, before, ready, t);
      }
      forall v: nat | v < |g|
        ensures multiset(g[u])[v] <= indeg[v]
      {
        PendingCovers(g, Elems(out), u, v);
      }
      AllEmitted(out + [u], |g|);
      var freed := Release(g[u], indeg);
      Emit(g, out, before, ready, u, indeg[..], freed);
      BestPush(g, out, better, u);
      ready := (ready - {u}) + Elems(freed);
      out := out + [u];
    }
    Stalled(g, out, indeg[..]);
  }
}
