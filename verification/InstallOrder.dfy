/** The whole install order, and what both passes together guarantee. */
module InstallOrder {
  import opened Dependencies
  import opened Digraph
  import opened Kahn
  import opened CycleOrder
  import opened PassOne
  import opened Repair

  // ---------- what a plan of pass 2 guarantees ----------

  ghost predicate InSequence(xs: seq<nat>, u: nat, v: nat) {
    exists i, j :: 0 <= i < j < |xs| && xs[i] == u && xs[j] == v
  }

  /** The tried graph is acyclic and keeps what was locked. */
  lemma PlanGraph(order: seq<nat>, edges: seq<DepEdge>, plan: Plan)
    requires Plans(order, edges, plan)
    ensures var h := TryAll(plan.locked, plan.hardInv);
            WellFormed(plan.locked) && Acyclic(plan.locked) && InRange(plan.hardInv, |order|) && InRange(plan.softInv, |order|)
            && WellFormed(h) && Acyclic(h) && |h| == |order| && Extends(plan.locked, h)
            && WellFormed(plan.final) && Acyclic(plan.final) && Extends(h, plan.final)
  {
    assert forall i :: 0 <= i < |plan.hardInv| ==> plan.hardInv[i] in plan.hardInv;
    assert forall i :: 0 <= i < |plan.softInv| ==> plan.softInv[i] in plan.softInv;
    hide HardDep, SoftDep, BuildTool, LinearExtension, BestFirst;
    ForwardAcyclic(plan.locked);
    TryAllKeeps(plan.locked, plan.hardInv);
    TryAllKeeps(TryAll(plan.locked, plan.hardInv), plan.softInv);
  }

  /** An edge of the final graph puts its ends in sequence. */
  lemma EdgeInSequence(g: Graph, perm: seq<nat>, u: nat, v: nat)
    requires LinearExtension(g, perm) && Edge(g, u, v) && v < |g|
    ensures InSequence(perm, u, v)
  {
    assert v in perm;
    var j: nat :| j < |perm| && perm[j] == v;
    assert Edge(g, u, perm[j]);
    var i :| 0 <= i < j && perm[..j][i] == u;
  }

  lemma {:induction false} ReachInSequence(g: Graph, perm: seq<nat>, u: nat, v: nat)
    requires LinearExtension(g, perm) && Reach(g, u, v) && u != v && v < |g|
    ensures InSequence(perm, u, v)
  {
    assert v in perm;
    var j: nat :| j < |perm| && perm[j] == v;
    ReachBefore(g, perm, j, u);
    var i :| 0 <= i < j + 1 && perm[..j+1][i] == u;
  }

  lemma SequenceAntisymmetric(xs: seq<nat>, u: nat, v: nat)
    requires Distinct(xs) && InSequence(xs, u, v)
    ensures !InSequence(xs, v, u)
  {
  }

  /**
   * An inverted pair ends up in the right order exactly when it does not close a cycle with
   * the constraints that were kept; a refused one stays inverted.
   */
  lemma InversionOutcome(order: seq<nat>, edges: seq<DepEdge>, plan: Plan, p: Pair)
    requires Plans(order, edges, plan) && (p in plan.hardInv || p in plan.softInv)
    ensures InSequence(plan.perm, p.dep, p.consumer) <==> Edge(plan.final, p.dep, p.consumer)
    ensures Edge(plan.final, p.dep, p.consumer) <==> !Reach(plan.final, p.consumer, p.dep)
    ensures InSequence(plan.perm, p.consumer, p.dep) <==> Reach(plan.final, p.consumer, p.dep)
  {
    PlanGraph(order, edges, plan);
    hide HardDep, SoftDep, BuildTool;
    var h := TryAll(plan.locked, plan.hardInv);
    assert p.consumer < p.dep < |order|;
    if p in plan.softInv {
      TryAllMaximal(h, plan.softInv, p);
    } else {
      TryAllMaximal(plan.locked, plan.hardInv, p);
      KeptOrRefused(h, plan.final, p);
    }
    if Edge(plan.final, p.dep, p.consumer) {
      EdgeInSequence(plan.final, plan.perm, p.dep, p.consumer);
      SequenceAntisymmetric(plan.perm, p.dep, p.consumer);
    } else {
      ReachInSequence(plan.final, plan.perm, p.consumer, p.dep);
      SequenceAntisymmetric(plan.perm, p.consumer, p.dep);
    }
  }

  lemma KeptOrRefused(h: Graph, g: Graph, p: Pair)
    requires Extends(h, g) && Acyclic(g)
    requires Edge(h, p.dep, p.consumer) <==> !Reach(h, p.consumer, p.dep)
    ensures Edge(g, p.dep, p.consumer) <==> !Reach(g, p.consumer, p.dep)
    ensures Edge(g, p.dep, p.consumer) <==> Edge(h, p.dep, p.consumer)
  {
    if Edge(h, p.dep, p.consumer) {
      assert !OnCycle(g, p.dep);
    } else {
      ReachMono(h, g, p.consumer, p.dep);
      assert !OnCycle(g, p.dep);
    }
  }

  /** No soft promotion decides the fate of a hard inversion. */
  lemma HardBeforeSoft(order: seq<nat>, edges: seq<DepEdge>, plan: Plan, p: Pair)
    requires Plans(order, edges, plan) && p in plan.hardInv
    ensures Edge(plan.final, p.dep, p.consumer) <==> Edge(TryAll(plan.locked, plan.hardInv), p.dep, p.consumer)
  {
    PlanGraph(order, edges, plan);
    hide HardDep, SoftDep, BuildTool;
    TryAllMaximal(plan.locked, plan.hardInv, p);
    KeptOrRefused(TryAll(plan.locked, plan.hardInv), plan.final, p);
  }

  /** The consumer of the pair is the target of a BDEPEND inside the order. */
  ghost predicate BuiltWith(order: seq<nat>, edges: seq<DepEdge>, p: Pair) {
    p.consumer < |order| && exists e :: e in edges && e.kind == Bdepend && e.to == order[p.consumer] && e.from in order
  }

  /** Hard inversions are tried by consumer, then dependency; soft ones so too, after those of build tools. */
  lemma TriedInTurn(order: seq<nat>, edges: seq<DepEdge>, plan: Plan, i: nat, j: nat)
    requires Plans(order, edges, plan) && i < j
    ensures j < |plan.hardInv| ==>
              var a, b := plan.hardInv[i], plan.hardInv[j];
              a.consumer < b.consumer || (a.consumer == b.consumer && a.dep < b.dep)
    ensures j < |plan.softInv| ==>
              var a, b := plan.softInv[i], plan.softInv[j];
              if BuiltWith(order, edges, a) == BuiltWith(order, edges, b) then
                a.consumer < b.consumer || (a.consumer == b.consumer && a.dep < b.dep)
              else BuiltWith(order, edges, a)
  {
    hide HardDep, SoftDep, LinearExtension, BestFirst, Locked;
    if j < |plan.softInv| {
      var a, b := plan.softInv[i], plan.softInv[j];
      assert a in plan.softInv && b in plan.softInv && a != b;
      assert a.consumer in plan.tools <==> BuiltWith(order, edges, a);
      assert b.consumer in plan.tools <==> BuiltWith(order, edges, b);
    }
  }

  /** How many of the soft inversions come before the first one that is no build tool's. */
  ghost function ToolCount(order: seq<nat>, edges: seq<DepEdge>, inv: seq<Pair>): (k: nat)
    ensures k <= |inv| && forall i :: 0 <= i < k ==> BuiltWith(order, edges, inv[i])
    ensures k < |inv| ==> !BuiltWith(order, edges, inv[k])
  {
    if inv == [] || !BuiltWith(order, edges, inv[0]) then 0 else 1 + ToolCount(order, edges, inv[1..])
  }

  /** No promotion for an ordinary consumer decides the fate of a build tool's inversion. */
  lemma ToolsBeforeOthers(order: seq<nat>, edges: seq<DepEdge>, plan: Plan, p: Pair)
    requires Plans(order, edges, plan) && p in plan.softInv && BuiltWith(order, edges, p)
    ensures var tools := plan.softInv[..ToolCount(order, edges, plan.softInv)];
            && p in tools && (forall q :: q in tools ==> BuiltWith(order, edges, q))
            && (Edge(plan.final, p.dep, p.consumer)
                <==> Edge(TryAll(TryAll(plan.locked, plan.hardInv), tools), p.dep, p.consumer))
  {
    hide HardDep, SoftDep, BuildTool, BuiltWith;
    var k := ToolCount(order, edges, plan.softInv);
    ToolAmong(order, edges, plan, p);
    PlanGraph(order, edges, plan);
    assert plan.softInv[..k] + plan.softInv[k..] == plan.softInv;
    TriedStays(TryAll(plan.locked, plan.hardInv), plan.softInv[..k], plan.softInv[k..], p);
  }

  lemma ToolAmong(order: seq<nat>, edges: seq<DepEdge>, plan: Plan, p: Pair)
    requires Plans(order, edges, plan) && p in plan.softInv && BuiltWith(order, edges, p)
    ensures p in plan.softInv[..ToolCount(order, edges, plan.softInv)]
  {
    hide Plans, BuiltWith;
    var k := ToolCount(order, edges, plan.softInv);
    var i: nat :| i < |plan.softInv| && plan.softInv[i] == p;
    if k < i {
      TriedInTurn(order, edges, plan, k, i);
    }
    assert i < k && plan.softInv[..k][i] == p;
  }

  /** What trying a pair came to is not changed by trying others after it. */
  lemma TriedStays(g: Graph, first: seq<Pair>, later: seq<Pair>, p: Pair)
    requires WellFormed(g) && Acyclic(g) && InRange(first + later, |g|) && p in first
    ensures Edge(TryAll(g, first + later), p.dep, p.consumer) <==> Edge(TryAll(g, first), p.dep, p.consumer)
  {
    assert forall i :: 0 <= i < |first| ==> first[i] == (first + later)[i];
    assert forall i :: 0 <= i < |later| ==> later[i] == (first + later)[|first|+i];
    TryAllKeeps(g, first);
    TryAllMaximal(g, first, p);
    TryAllConcat(g, first, later);
    TryAllKeeps(TryAll(g, first), later);
    KeptOrRefused(TryAll(g, first), TryAll(g, first + later), p);
  }

  lemma {:induction false} TryAllConcat(g: Graph, a: seq<Pair>, b: seq<Pair>)
    ensures TryAll(g, a + b) == TryAll(TryAll(g, a), b)
  {
    if b == [] {
      assert a + b == a;
    } else {
      assert (a + b)[..|a + b|-1] == a + b[..|b|-1];
      TryAllConcat(g, a, b[..|b|-1]);
    }
  }

  // ---------- the least linear extension ----------

  /** `xs` comes no later than `ys` in the lexicographic order. */
  ghost predicate LexAtMost(xs: seq<nat>, ys: seq<nat>) {
    xs == ys || exists i :: 0 <= i < |xs| && i < |ys| && xs[..i] == ys[..i] && xs[i] < ys[i]
  }

  /** Taking the smallest available node every time gives the lexicographically least linear extension. */
  lemma {:induction false} BestFirstLeast(g: Graph, perm: seq<nat>, other: seq<nat>)
    requires LinearExtension(g, perm) && LinearExtension(g, other)
    requires BestFirst(g, perm, (a: nat, b: nat) => a < b)
    ensures LexAtMost(perm, other)
  {
    var i := 0;
    while i < |perm| && perm[i] == other[i]
      invariant 0 <= i <= |perm| == |other| && perm[..i] == other[..i]
    {
      assert perm[..i+1] == perm[..i] + [perm[i]] && other[..i+1] == other[..i] + [other[i]];
      i := i + 1;
    }
    if i < |perm| {
      assert other[i] in other && other[i] !in other[..i];
      assert Available(g, perm[..i], other[i]);
    } else {
      assert perm == perm[..i] && other == other[..i];
    }
  }

  /** Where the identity is allowed, it is the result. */
  lemma {:induction false} IdentityLeast(g: Graph, perm: seq<nat>)
    requires LinearExtension(g, perm) && BestFirst(g, perm, (a: nat, b: nat) => a < b)
    requires forall i: nat, j: nat :: Edge(g, i, j) ==> i < j
    ensures perm == seq(|g|, i => i)
  {
    for i := 0 to |g|
      invariant forall k :: 0 <= k < i ==> perm[k] == k
      invariant forall k: nat :: k < i ==> k in perm[..i]
    {
      assert Available(g, perm[..i], i);
      assert perm[i] in perm && perm[i] !in perm[..i];
      assert perm[..i+1] == perm[..i] + [perm[i]];
    }
  }

  lemma ArrangeIdentity(order: seq<nat>)
    ensures AllBelow(seq(|order|, i => i), |order|) && Arrange(order, seq(|order|, i => i)) == order
  {
  }

  /** Without inversions pass 2 changes nothing. */
  lemma NoInversions(order: seq<nat>, edges: seq<DepEdge>, plan: Plan)
    requires Plans(order, edges, plan) && plan.hardInv == [] && plan.softInv == []
    ensures Arrange(order, plan.perm) == order
  {
    hide HardDep, SoftDep, BuildTool;
    assert plan.final == plan.locked;
    IdentityLeast(plan.final, plan.perm);
    ArrangeIdentity(order);
  }

  // ---------- both passes ----------

  /** The rearranged order still lists every node once. */
  lemma ArrangePermutes(order: seq<nat>, perm: seq<nat>, n: nat)
    requires Permutes(order, n) && Permutes(perm, n) && AllBelow(perm, n)
    ensures Permutes(Arrange(order, perm), n)
  {
    var out := Arrange(order, perm);
    forall i, j | 0 <= i < j < |out|
      ensures out[i] != out[j]
    {
      assert perm[i] != perm[j];
      if perm[i] < perm[j] {
        assert order[perm[i]] != order[perm[j]];
      } else {
        assert order[perm[j]] != order[perm[i]];
      }
    }
    forall v: nat
      ensures v < n <==> v in out
    {
      if v < n {
        assert v in order;
        var k: nat :| k < n && order[k] == v;
        assert k in perm;
        var i :| 0 <= i < n && perm[i] == k;
        assert out[i] == v;
      }
      if v in out {
        var i :| 0 <= i < n && out[i] == v;
        assert order[perm[i]] in order;
      }
    }
  }

  ghost predicate OrderingDep(edges: seq<DepEdge>, u: nat, v: nat) {
    HardDep(edges, u, v) || SoftDep(edges, u, v)
  }

  lemma OrderingIsEither(edges: seq<DepEdge>, u: nat, v: nat)
    ensures OrderDep(edges, u, v) <==> OrderingDep(edges, u, v)
  {
  }

  /** Whatever pass 1 had in the right sequence stays so. */
  lemma ForwardStays(order: seq<nat>, edges: seq<DepEdge>, plan: Plan, j: nat, u: nat)
    requires Plans(order, edges, plan) && Distinct(order) && j < |plan.perm|
    requires var v := order[plan.perm[j]]; OrderingDep(edges, u, v) && u in order[..plan.perm[j]]
    ensures u in Arrange(order, plan.perm)[..j]
  {
    var k := plan.perm[j];
    var i: nat :| i < k && order[..k][i] == u;
    assert ForwardDep(order, edges, i, k);
    assert Edge(plan.locked, i, k);
    PlanGraph(order, edges, plan);
    assert Edge(plan.final, i, plan.perm[j]);
    assert i in plan.perm[..j];
    var q :| 0 <= q < j && plan.perm[..j][q] == i;
    assert Arrange(order, plan.perm)[..j][q] == u;
  }

  lemma RespectsStays(order: seq<nat>, edges: seq<DepEdge>, plan: Plan, g: Graph)
    requires Plans(order, edges, plan) && Distinct(order) && Respects(g, order)
    requires forall u: nat, v: nat :: Edge(g, u, v) ==> OrderingDep(edges, u, v)
    ensures Respects(g, Arrange(order, plan.perm))
  {
    var out := Arrange(order, plan.perm);
    forall j: nat, u: nat | j < |out| && Edge(g, u, out[j]) && !Reach(g, out[j], u)
      ensures u in out[..j]
    {
      assert Edge(g, u, order[plan.perm[j]]);
      ForwardStays(order, edges, plan, j, u);
    }
  }

  /** What one run of the scheduler establishes. */
  ghost predicate Ordered(edges: seq<DepEdge>, n: nat, keys: seq<int>, all: Graph, hard: Graph, s: Schedule,
                          passOne: seq<nat>, plan: Plan, order: seq<nat>) {
    && Represents(all, n, (u: nat, v: nat) => OrderDep(edges, u, v))
    && Represents(hard, n, (u: nat, v: nat) => HardDep(edges, u, v))
    && Scheduled(all, hard, keys, s, passOne)
    && Plans(passOne, edges, plan) && order == Arrange(passOne, plan.perm)
  }

  /**
   * The install order lists every node once. Every ordering edge on no cycle of ordering edges, and
   * every hard edge on no cycle of hard edges, puts the dependency first.
   */
  method Order(edges: seq<DepEdge>, n: nat, keys: seq<int>)
    returns (order: seq<nat>, ghost all: Graph, ghost hard: Graph, ghost passOne: seq<nat>, ghost s: Schedule,
             ghost plan: Plan)
    requires |keys| == n
    ensures Represents(all, n, (u: nat, v: nat) => OrderDep(edges, u, v))
    ensures Represents(hard, n, (u: nat, v: nat) => HardDep(edges, u, v))
    ensures Permutes(order, n) && Respects(all, order) && Respects(hard, order)
    ensures Acyclic(all) ==> LinearExtension(all, order)
    ensures Permutes(passOne, n) && Respects(all, passOne) && Respects(hard, passOne)
    ensures Scheduled(all, hard, keys, s, passOne)
    ensures Plans(passOne, edges, plan) && order == Arrange(passOne, plan.perm)
    ensures Ordered(edges, n, keys, all, hard, s, passOne, plan, order)
  {
    ghost var sch;
    var first, a, h;
    first, a, h, sch := OrderPassOne(edges, n, keys);
    passOne, all, hard, s := first, a, h, sch;
    order, plan := RepairSoftInversions(first, edges);
    forall u: nat, v: nat
      ensures OrderDep(edges, u, v) <==> OrderingDep(edges, u, v)
    {
      OrderingIsEither(edges, u, v);
    }
    RespectsStays(first, edges, plan, all);
    RespectsStays(first, edges, plan, hard);
    ArrangePermutes(first, plan.perm, n);
    if Acyclic(all) {
      RespectsAcyclic(all, order);
    }
  }

  /** A hard edge left inverted lies on a cycle of hard edges. */
  lemma HardInversionIsCyclic(hard: Graph, order: seq<nat>, n: nat, u: nat, v: nat)
    requires |hard| == n && WellFormed(hard) && Permutes(order, n) && Respects(hard, order)
    requires Edge(hard, u, v)
    ensures InSequence(order, u, v) || OnCycle(hard, u)
  {
    assert v in order;
    var j: nat :| j < |order| && order[j] == v;
    if !Reach(hard, order[j], u) {
      assert u in order[..j];
      var i :| 0 <= i < j && order[..j][i] == u;
    }
  }
}
