/** Pass 2 of the install order: put inverted edges right where no cycle results, and linearise again. */
module Repair {
  import opened Dependencies
  import opened Digraph
  import opened Kahn
  import opened Sorting
  import opened PassOne
  import opened CycleOrder

  /** `dep` must come before `consumer`; both are positions in the pass-1 order. */
  datatype Pair = Pair(dep: nat, consumer: nat)

  // ---------- what adding an edge does ----------

  function AddEdge(g: Graph, p: Pair): Graph
    requires p.dep < |g|
  {
    g[p.dep := g[p.dep] + [p.consumer]]
  }

  /** Refused: it would close a cycle. */
  ghost predicate Refused(g: Graph, p: Pair) {
    p.dep == p.consumer || (!Edge(g, p.dep, p.consumer) && Reach(g, p.consumer, p.dep))
  }

  ghost function Try(g: Graph, p: Pair): Graph {
    if Refused(g, p) || p.dep >= |g| || Edge(g, p.dep, p.consumer) then g else AddEdge(g, p)
  }

  /** The pairs tried one after another. */
  ghost function TryAll(g: Graph, pairs: seq<Pair>): Graph {
    if pairs == [] then g else Try(TryAll(g, pairs[..|pairs|-1]), pairs[|pairs|-1])
  }

  ghost predicate Extends(g: Graph, h: Graph) {
    |g| == |h| && forall u, v :: Edge(g, u, v) ==> Edge(h, u, v)
  }

  ghost predicate InRange(pairs: seq<Pair>, n: nat) {
    forall i :: 0 <= i < |pairs| ==> pairs[i].dep < n && pairs[i].consumer < n
  }

  /** After an edge is added, walks either were there before or pass through it. */
  lemma AddedReach(g: Graph, p: Pair, x: nat, y: nat)
    requires p.dep < |g| && p.consumer < |g| && WellFormed(g) && x < |g| && Reach(AddEdge(g, p), x, y)
    ensures Reach(g, x, y) || (Reach(g, x, p.dep) && Reach(g, p.consumer, y))
  {
    var h := AddEdge(g, p);
    var s := set z: nat | z < |g| && (Reach(g, x, z) || (Reach(g, x, p.dep) && Reach(g, p.consumer, z)));
    ReachRefl(g, x);
    ReachRefl(g, p.consumer);
    forall a: nat, b: nat | a in s && Edge(h, a, b)
      ensures b in s
    {
      if Edge(g, a, b) {
        ReachEdge(g, a, b);
        if Reach(g, x, a) {
          ReachTrans(g, x, a, b);
        } else {
          ReachTrans(g, p.consumer, a, b);
        }
      }
    }
    ReachClosed(h, s, x, y);
  }

  lemma AddAcyclic(g: Graph, p: Pair)
    requires WellFormed(g) && Acyclic(g) && p.dep < |g| && p.consumer < |g| && !Refused(g, p)
    ensures WellFormed(AddEdge(g, p)) && Extends(g, AddEdge(g, p))
    ensures !Edge(g, p.dep, p.consumer) ==> Acyclic(AddEdge(g, p))
  {
    var h := AddEdge(g, p);
    forall u: nat, v: nat
      ensures Edge(h, u, v) <==> Edge(g, u, v) || (u == p.dep && v == p.consumer)
    {
    }
    if !Edge(g, p.dep, p.consumer) {
      forall u: nat, v: nat | Edge(h, u, v) && Reach(h, v, u)
        ensures false
      {
        AddedReach(g, p, v, u);
        if Edge(g, u, v) {
          ReachEdge(g, u, v);
          AcyclicEdge(g, u, v);
          ReachTrans(g, p.consumer, u, v);
          ReachTrans(g, p.consumer, v, p.dep);
        }
      }
    }
  }

  lemma AcyclicEdge(g: Graph, u: nat, v: nat)
    requires Acyclic(g) && Edge(g, u, v)
    ensures !Reach(g, v, u)
  {
    assert !OnCycle(g, u);
  }

  lemma TryKeeps(g: Graph, p: Pair)
    requires WellFormed(g) && Acyclic(g) && p.dep < |g| && p.consumer < |g|
    ensures WellFormed(Try(g, p)) && Acyclic(Try(g, p)) && Extends(g, Try(g, p))
    ensures Edge(Try(g, p), p.dep, p.consumer) <==> !Refused(g, p)
  {
    if !Refused(g, p) && !Edge(g, p.dep, p.consumer) {
      AddAcyclic(g, p);
    } else if Edge(g, p.dep, p.consumer) && Refused(g, p) {
      ReachRefl(g, p.dep);
      assert OnCycle(g, p.dep);
    }
  }

  lemma ExtendsReach(g: Graph, h: Graph, u: nat, v: nat)
    requires Extends(g, h) && Reach(g, u, v)
    ensures Reach(h, u, v)
  {
    ReachMono(g, h, u, v);
  }

  /** The tries keep the graph acyclic and keep everything it had. */
  lemma {:induction false} TryAllKeeps(g: Graph, pairs: seq<Pair>)
    requires WellFormed(g) && Acyclic(g) && InRange(pairs, |g|)
    ensures WellFormed(TryAll(g, pairs)) && Acyclic(TryAll(g, pairs)) && Extends(g, TryAll(g, pairs))
  {
    if pairs != [] {
      var init, last := pairs[..|pairs|-1], pairs[|pairs|-1];
      TryAllKeeps(g, init);
      TryKeeps(TryAll(g, init), last);
    }
  }

  /** In the end a tried pair is an edge, or the graph leads the other way round. */
  lemma {:induction false} TryAllMaximal(g: Graph, pairs: seq<Pair>, p: Pair)
    requires WellFormed(g) && Acyclic(g) && InRange(pairs, |g|) && p in pairs
    ensures var h := TryAll(g, pairs);
            Edge(h, p.dep, p.consumer) <==> !Reach(h, p.consumer, p.dep)
  {
    TryAllKeeps(g, pairs);
    if Edge(TryAll(g, pairs), p.dep, p.consumer) {
      assert !OnCycle(TryAll(g, pairs), p.dep);
    } else {
      TryAllRefused(g, pairs, p);
    }
  }

  lemma {:induction false} TryAllRefused(g: Graph, pairs: seq<Pair>, p: Pair)
    requires WellFormed(g) && Acyclic(g) && InRange(pairs, |g|) && p in pairs
    ensures var h := TryAll(g, pairs); Edge(h, p.dep, p.consumer) || Reach(h, p.consumer, p.dep)
  {
    var init, last := pairs[..|pairs|-1], pairs[|pairs|-1];
    var h := TryAll(g, init);
    TryAllKeeps(g, init);
    TryKeeps(h, last);
    if p == last {
      if Refused(h, p) {
        if p.dep == p.consumer {
          ReachRefl(h, p.dep);
        }
        ExtendsReach(h, Try(h, last), p.consumer, p.dep);
      }
    } else {
      TryAllRefused(g, init, p);
      if !Edge(h, p.dep, p.consumer) {
        ExtendsReach(h, Try(h, last), p.consumer, p.dep);
      }
    }
  }

  // ---------- the constraint graph ----------

  function Lock(g: Graph, p: Pair): Graph {
    if p.dep == p.consumer || p.dep >= |g| || p.consumer in g[p.dep] then g else AddEdge(g, p)
  }

  /** Epochs and marks are 32-bit words. */
  const WORD: nat := 0x1_0000_0000

  class Constraints {
    var succ: Graph
    const indeg: array<nat>
    const marks: array<nat>
    var epoch: nat

    ghost predicate Valid()
      reads this, indeg, marks
    {
      && indeg != marks && |succ| == indeg.Length == marks.Length
      && WellFormed(succ) && Counted(succ, indeg[..])
      && epoch < WORD && forall i :: 0 <= i < marks.Length ==> marks[i] <= epoch
    }

    constructor (n: nat)
      ensures Valid() && succ == seq(n, _ => []) && fresh(indeg) && fresh(marks)
    {
      succ := seq(n, _ => []);
      indeg := new nat[n](_ => 0);
      marks := new nat[n](_ => 0);
      epoch := 0;
      new;
      CountedEmpty(n);
      assert indeg[..] == seq(n, _ => 0);
    }

    /** Start a marking generation of which no mark is a member yet. */
    method NextEpoch()
      requires Valid()
      modifies this`epoch, marks
      ensures Valid() && forall i :: 0 <= i < marks.Length ==> marks[i] != epoch
    {
      epoch := (epoch + 1) % WORD;
      if epoch == 0 {
        for i := 0 to marks.Length
          invariant forall k :: 0 <= k < i ==> marks[k] == 0
        {
          marks[i] := 0;
        }
        epoch := 1;
      }
    }

    /** `seen` is what carries the current epoch; only nodes of `open` may have unseen successors. */
    ghost predicate Probing(start: nat, target: nat, open: seq<nat>, seen: set<nat>)
      reads this, marks
    {
      && start in seen && target !in seen && |succ| == marks.Length
      && (forall x: nat :: x in seen <==> x < |succ| && marks[x] == epoch)
      && (forall x :: x in open ==> x in seen)
      && (forall x :: x in seen ==> Reach(succ, start, x))
      && (forall x, y :: x in seen && x !in open && Edge(succ, x, y) ==> y in seen)
    }

    /** Look at the successors of `u`: report the target, else mark and stack the unmarked ones. */
    method Visit(u: nat, start: nat, target: nat, stack: seq<nat>, ghost seen: set<nat>)
      returns (found: bool, stack': seq<nat>, ghost seen': set<nat>)
      requires Valid() && Probing(start, target, stack + [u], seen)
      modifies marks
      ensures Valid()
      ensures found ==> Reach(succ, start, target)
      ensures !found ==> Probing(start, target, stack', seen') && seen <= seen'
      ensures !found ==> seen' == seen ==> stack' == stack
    {
      stack', seen', found := stack, seen, false;
      assert u in stack + [u] && u in seen;
      for k := 0 to |succ[u]|
        invariant Valid() && Probing(start, target, stack' + [u], seen') && seen <= seen' && u in seen'
        invariant seen' == seen ==> stack' == stack
        invariant forall i :: 0 <= i < k ==> succ[u][i] in seen'
      {
        var v := succ[u][k];
        assert Edge(succ, u, v);
        ReachEdge(succ, u, v);
        ReachTrans(succ, start, u, v);
        if v == target {
          found := true;
          return;
        }
        if marks[v] != epoch {
          marks[v] := epoch;
          stack' := stack' + [v];
          seen' := seen' + {v};
        }
      }
      forall y | Edge(succ, u, y)
        ensures y in seen'
      {
        var i: nat :| i < |succ[u]| && succ[u][i] == y;
      }
    }

    /** Whether `start` can reach `target`: a depth-first probe that marks with the current epoch. */
    method Reaches(start: nat, target: nat) returns (found: bool)
      requires Valid() && start < |succ|
      modifies this`epoch, marks
      ensures Valid()
      ensures found <==> Reach(succ, start, target)
    {
      ReachRefl(succ, start);
      if start == target {
        return true;
      }
      NextEpoch();
      var stack := [start];
      marks[start] := epoch;
      ghost var seen: set<nat> := {start};
      while stack != []
        invariant Valid() && Probing(start, target, stack, seen)
        decreases Below(|succ|) - seen, |stack|
      {
        var u := stack[|stack|-1];
        assert stack == stack[..|stack|-1] + [u];
        ghost var before := seen;
        found, stack, seen := Visit(u, start, target, stack[..|stack|-1], seen);
        if found {
          return true;
        }
        assert forall x :: x in seen ==> x in Below(|succ|);
      }
      if Reach(succ, start, target) {
        ReachClosed(succ, seen, start, target);
      }
      return false;
    }

    /** Add an edge that is known not to close a cycle. */
    method ForceAdd(u: nat, v: nat)
      requires Valid() && u < |succ| && v < |succ|
      modifies this`succ, indeg
      ensures Valid()
      ensures succ == Lock(old(succ), Pair(u, v))
    {
      if u == v || v in succ[u] {
        return;
      }
      CountedAdd(succ, indeg[..], u, v);
      succ := succ[u := succ[u] + [v]];
      indeg[v] := indeg[v] + 1;
    }

    /** Add an edge unless it closes a cycle. */
    method TryAdd(u: nat, v: nat) returns (accepted: bool)
      requires Valid() && u < |succ| && v < |succ|
      modifies this`succ, this`epoch, indeg, marks
      ensures Valid()
      ensures succ == Try(old(succ), Pair(u, v))
      ensures accepted <==> !Refused(old(succ), Pair(u, v))
    {
      if u == v {
        return false;
      }
      if v in succ[u] {
        return true;
      }
      var back := Reaches(v, u);
      if back {
        return false;
      }
      CountedAdd(succ, indeg[..], u, v);
      succ := succ[u := succ[u] + [v]];
      indeg[v] := indeg[v] + 1;
      return true;
    }
  }

  // ---------- collecting the pairs ----------

  ghost predicate SoftDep(edges: seq<DepEdge>, u: nat, v: nat) {
    exists e :: e in edges && e.to == u && e.from == v && e.kind.Rdepend?
  }

  /** Something in `order` has a BDEPEND on the node at position `i`. */
  ghost predicate BuildTool(edges: seq<DepEdge>, order: seq<nat>, i: nat) {
    i < |order| && exists e :: e in edges && e.to == order[i] && e.from in order && e.kind.Bdepend?
  }

  ghost predicate Collected(order: seq<nat>, edges: seq<DepEdge>, hard: seq<Pair>, soft: seq<Pair>, tools: set<nat>) {
    && (forall p: Pair :: p in hard <==>
          p.dep < |order| && p.consumer < |order| && HardDep(edges, order[p.dep], order[p.consumer]))
    && (forall p: Pair :: p in soft <==>
          p.dep < |order| && p.consumer < |order| && SoftDep(edges, order[p.dep], order[p.consumer]))
    && (forall i: nat :: i in tools <==> BuildTool(edges, order, i))
  }

  lemma CollectSkip(order: seq<nat>, edges: seq<DepEdge>, e: DepEdge, hard: seq<Pair>, soft: seq<Pair>, tools: set<nat>)
    requires Collected(order, edges, hard, soft, tools)
    requires e.from !in order || e.to !in order
    ensures Collected(order, edges + [e], hard, soft, tools)
  {
  }

  lemma ToolBelow(edges: seq<DepEdge>, order: seq<nat>, i: nat)
    ensures BuildTool(edges, order, i) ==> i < |order|
  {
  }

  lemma PairStep(order: seq<nat>, edges: seq<DepEdge>, e: DepEdge, i: nat, j: nat)
    requires i < |order| && j < |order|
    ensures HardDep(edges + [e], order[i], order[j]) <==>
              HardDep(edges, order[i], order[j]) || (e.to == order[i] && e.from == order[j] && IsHard(e.kind))
    ensures SoftDep(edges + [e], order[i], order[j]) <==>
              SoftDep(edges, order[i], order[j]) || (e.to == order[i] && e.from == order[j] && e.kind.Rdepend?)
    ensures BuildTool(edges + [e], order, i) <==>
              BuildTool(edges, order, i) || (e.to == order[i] && e.from in order && e.kind.Bdepend?)
  {
  }

  lemma CollectKeep(order: seq<nat>, edges: seq<DepEdge>, e: DepEdge, hard: seq<Pair>, soft: seq<Pair>, tools: set<nat>,
                    from: nat, to: nat)
    requires Collected(order, edges, hard, soft, tools) && Distinct(order)
    requires from < |order| && to < |order| && order[from] == e.from && order[to] == e.to
    ensures Collected(order, edges + [e],
                      if IsHard(e.kind) then hard + [Pair(to, from)] else hard,
                      if e.kind.Rdepend? then soft + [Pair(to, from)] else soft,
                      if e.kind.Bdepend? then tools + {to} else tools)
  {
    forall i: nat, j: nat | i < |order| && j < |order|
      ensures HardDep(edges + [e], order[i], order[j]) <==>
                HardDep(edges, order[i], order[j]) || (to == i && from == j && IsHard(e.kind))
      ensures SoftDep(edges + [e], order[i], order[j]) <==>
                SoftDep(edges, order[i], order[j]) || (to == i && from == j && e.kind.Rdepend?)
      ensures BuildTool(edges + [e], order, i) <==> BuildTool(edges, order, i) || (to == i && e.kind.Bdepend?)
    {
      PairStep(order, edges, e, i, j);
    }
    hide HardDep, SoftDep, BuildTool;
    forall i: nat
      ensures i >= |order| ==> !BuildTool(edges + [e], order, i) && !BuildTool(edges, order, i)
    {
      ToolBelow(edges, order, i);
      ToolBelow(edges + [e], order, i);
    }
  }

  method CollectPairs(order: seq<nat>, edges: seq<DepEdge>)
    returns (hard: seq<Pair>, soft: seq<Pair>, tools: set<nat>)
    requires Distinct(order)
    ensures Collected(order, edges, hard, soft, tools)
  {
    var pos: map<nat, nat> := map[];
    for i := 0 to |order|
      invariant forall v :: v in pos <==> v in order[..i]
      invariant forall k :: 0 <= k < i ==> order[k] in pos && pos[order[k]] == k
    {
      pos := pos[order[i] := i];
    }
    hard, soft, tools := [], [], {};
    for k := 0 to |edges|
      invariant Collected(order, edges[..k], hard, soft, tools)
    {
      hide Collected;
      var e := edges[k];
      assert edges[..k+1] == edges[..k] + [e];
      if e.from !in pos || e.to !in pos {
        CollectSkip(order, edges[..k], e, hard, soft, tools);
        continue;
      }
      var from, to := pos[e.from], pos[e.to];
      CollectKeep(order, edges[..k], e, hard, soft, tools, from, to);
      match e.kind {
        case Depend => hard := hard + [Pair(to, from)];
        case Bdepend => hard := hard + [Pair(to, from)];
        case Rdepend => soft := soft + [Pair(to, from)];
        case _ =>
      }
      if e.kind == Bdepend {
        tools := tools + {to};
      }
    }
    assert edges[..|edges|] == edges;
  }

  // ---------- pass 2 ----------

  predicate ByDep(a: Pair, b: Pair) {
    a.dep < b.dep || (a.dep == b.dep && a.consumer <= b.consumer)
  }

  predicate ByConsumer(a: Pair, b: Pair) {
    a.consumer < b.consumer || (a.consumer == b.consumer && a.dep <= b.dep)
  }

  /** Inversions whose consumer is a build tool come first. */
  predicate ToolsFirst(tools: set<nat>, a: Pair, b: Pair) {
    if (a.consumer in tools) != (b.consumer in tools) then a.consumer in tools else ByConsumer(a, b)
  }

  /** Split distinct pairs into those that already point forward and the inverted ones. */
  method Partition(pairs: seq<Pair>) returns (fwd: seq<Pair>, inv: seq<Pair>)
    ensures forall p: Pair :: p in fwd <==> p in pairs && p.dep < p.consumer
    ensures forall p: Pair :: p in inv <==> p in pairs && p.consumer < p.dep
    ensures NoRepeat(pairs) ==> NoRepeat(inv)
  {
    fwd, inv := [], [];
    for k := 0 to |pairs|
      invariant NoRepeat(pairs) ==> NoRepeat(inv)
      invariant forall p: Pair :: p in fwd <==> p in pairs[..k] && p.dep < p.consumer
      invariant forall p: Pair :: p in inv <==> p in pairs[..k] && p.consumer < p.dep
    {
      if pairs[k].dep < pairs[k].consumer {
        fwd := fwd + [pairs[k]];
      } else if pairs[k].consumer < pairs[k].dep {
        inv := inv + [pairs[k]];
      }
    }
  }

  /** Pass 1 got this dependency right. */
  ghost predicate ForwardDep(order: seq<nat>, edges: seq<DepEdge>, i: nat, j: nat) {
    i < j < |order| && (HardDep(edges, order[i], order[j]) || SoftDep(edges, order[i], order[j]))
  }

  /** The graph of everything pass 1 got right. */
  ghost predicate Locked(order: seq<nat>, edges: seq<DepEdge>, g: Graph) {
    && |g| == |order| && WellFormed(g)
    && forall i: nat, j: nat :: Edge(g, i, j) <==> ForwardDep(order, edges, i, j)
  }

  /** The hard inversions of pass 1, earliest consumer first. */
  ghost predicate HardInversions(order: seq<nat>, edges: seq<DepEdge>, inv: seq<Pair>) {
    && SortedBy(inv, ByConsumer) && NoRepeat(inv)
    && forall p: Pair :: p in inv <==> p.consumer < p.dep < |order| && HardDep(edges, order[p.dep], order[p.consumer])
  }

  /** The soft inversions of pass 1, consumers that are build tools first. */
  ghost predicate SoftInversions(order: seq<nat>, edges: seq<DepEdge>, tools: set<nat>, inv: seq<Pair>) {
    && SortedBy(inv, (a: Pair, b: Pair) => ToolsFirst(tools, a, b)) && NoRepeat(inv)
    && (forall i: nat :: i in tools <==> BuildTool(edges, order, i))
    && forall p: Pair :: p in inv <==> p.consumer < p.dep < |order| && SoftDep(edges, order[p.dep], order[p.consumer])
  }

  /** How pass 2 arrives at its result. */
  datatype Plan = Plan(locked: Graph, hardInv: seq<Pair>, tools: set<nat>, softInv: seq<Pair>, final: Graph, perm: seq<nat>)

  ghost predicate Plans(order: seq<nat>, edges: seq<DepEdge>, plan: Plan) {
    && Locked(order, edges, plan.locked)
    && HardInversions(order, edges, plan.hardInv)
    && SoftInversions(order, edges, plan.tools, plan.softInv)
    && plan.final == TryAll(TryAll(plan.locked, plan.hardInv), plan.softInv)
    && |plan.final| == |order| && LinearExtension(plan.final, plan.perm) && AllBelow(plan.perm, |order|)
    && BestFirst(plan.final, plan.perm, (a: nat, b: nat) => a < b)
  }

  /** The nodes of `order` rearranged by `perm`. */
  function Arrange(order: seq<nat>, perm: seq<nat>): seq<nat>
    requires AllBelow(perm, |order|)
  {
    seq(|perm|, i requires 0 <= i < |perm| => order[perm[i]])
  }

  ghost predicate Locking(g: Graph, n: nat, pairs: seq<Pair>) {
    && |g| == n && WellFormed(g)
    && forall i: nat, j: nat :: Edge(g, i, j) <==> Pair(i, j) in pairs
  }

  /** Lock forward pairs into an edgeless graph. */
  method LockAll(c: Constraints, pairs: seq<Pair>, n: nat)
    requires c.Valid() && c.succ == seq(n, _ => [])
    requires forall p: Pair :: p in pairs ==> p.dep < p.consumer < n
    modifies c, c.indeg
    ensures c.Valid() && Locking(c.succ, n, pairs)
  {
    for k := 0 to |pairs|
      invariant c.Valid() && Locking(c.succ, n, pairs[..k])
    {
      hide Counted;
      var p := pairs[k];
      assert pairs[..k+1] == pairs[..k] + [p];
      ghost var before := c.succ;
      c.ForceAdd(p.dep, p.consumer);
      LockEdges(before, p);
    }
    assert pairs[..|pairs|] == pairs;
  }

  lemma LockEdges(g: Graph, p: Pair)
    requires p.dep < |g| && p.dep != p.consumer
    ensures |Lock(g, p)| == |g|
    ensures forall i: nat, j: nat :: Edge(Lock(g, p), i, j) <==> Edge(g, i, j) || p == Pair(i, j)
  {
  }

  /** Try inverted pairs in the given order. */
  method TryPairs(c: Constraints, pairs: seq<Pair>)
    requires c.Valid() && InRange(pairs, |c.succ|)
    modifies c, c.indeg, c.marks
    ensures c.Valid() && c.succ == TryAll(old(c.succ), pairs)
  {
    ghost var g := c.succ;
    for k := 0 to |pairs|
      invariant c.Valid() && |c.succ| == |g| && c.succ == TryAll(g, pairs[..k])
    {
      hide Counted;
      assert pairs[..k+1][..k] == pairs[..k];
      var _ := c.TryAdd(pairs[k].dep, pairs[k].consumer);
    }
    assert pairs[..|pairs|] == pairs;
  }

  lemma ForwardAcyclic(g: Graph)
    requires forall i: nat, j: nat :: Edge(g, i, j) ==> i < j
    ensures Acyclic(g)
  {
    forall u: nat, v: nat | Edge(g, u, v) && Reach(g, v, u)
      ensures false
    {
      var p :| WalkFromTo(g, p, v, u);
      for k := 0 to |p| - 1
        invariant v <= p[k]
      {
        assert Edge(g, p[k], p[k+1]);
      }
    }
  }

  lemma SortHard(order: seq<nat>, edges: seq<DepEdge>, inv: seq<Pair>)
    requires NoRepeat(inv)
    requires forall p: Pair :: p in inv <==> p.consumer < p.dep < |order| && HardDep(edges, order[p.dep], order[p.consumer])
    ensures HardInversions(order, edges, SortBy(inv, ByConsumer))
  {
    SortBySorted(inv, ByConsumer);
    SortNoRepeat(inv, ByConsumer);
  }

  lemma SortSoft(order: seq<nat>, edges: seq<DepEdge>, tools: set<nat>, inv: seq<Pair>)
    requires NoRepeat(inv)
    requires forall p: Pair :: p in inv <==> p.consumer < p.dep < |order| && SoftDep(edges, order[p.dep], order[p.consumer])
    requires forall i: nat :: i in tools <==> BuildTool(edges, order, i)
    ensures SoftInversions(order, edges, tools, SortBy(inv, (a: Pair, b: Pair) => ToolsFirst(tools, a, b)))
  {
    SortBySorted(inv, (a: Pair, b: Pair) => ToolsFirst(tools, a, b));
    SortNoRepeat(inv, (a: Pair, b: Pair) => ToolsFirst(tools, a, b));
  }

  lemma DedupedOnce(pairs: seq<Pair>)
    ensures NoRepeat(Dedup(SortBy(pairs, ByDep)))
  {
    SortBySorted(pairs, ByDep);
    DedupDistinct(SortBy(pairs, ByDep), ByDep);
  }

  /** The pairs to lock and the sorted inversions. */
  method Classify(order: seq<nat>, edges: seq<DepEdge>)
    returns (fwd: seq<Pair>, hardInv: seq<Pair>, softInv: seq<Pair>, tools: set<nat>)
    requires Distinct(order)
    ensures forall p: Pair :: p in fwd <==> ForwardDep(order, edges, p.dep, p.consumer)
    ensures HardInversions(order, edges, hardInv) && SoftInversions(order, edges, tools, softInv)
  {
    hide BuildTool, HardDep, SoftDep, HardInversions, SoftInversions;
    var hard, soft;
    hard, soft, tools := CollectPairs(order, edges);
    DedupedOnce(hard);
    DedupedOnce(soft);
    var hardFwd, softFwd;
    hardFwd, hardInv := Partition(Dedup(SortBy(hard, ByDep)));
    softFwd, softInv := Partition(Dedup(SortBy(soft, ByDep)));
    fwd := hardFwd + softFwd;
    SortHard(order, edges, hardInv);
    hardInv := SortBy(hardInv, ByConsumer);
    SortSoft(order, edges, tools, softInv);
    softInv := SortBy(softInv, (a: Pair, b: Pair) => ToolsFirst(tools, a, b));
  }

  lemma TrivialPlan(order: seq<nat>, edges: seq<DepEdge>) returns (plan: Plan)
    requires |order| <= 1
    ensures Plans(order, edges, plan) && Arrange(order, plan.perm) == order
  {
    var n := |order|;
    var g: Graph := seq(n, _ => []);
    var tools := set i: nat | i < n && BuildTool(edges, order, i);
    plan := Plan(g, [], tools, [], g, seq(n, i => i));
    forall i: nat
      ensures i in tools <==> BuildTool(edges, order, i)
    {
      ToolBelow(edges, order, i);
    }
    hide BuildTool;
    assert Locked(order, edges, g);
    assert TryAll(g, []) == g;
    assert n == 1 ==> plan.perm == [0];
  }

  /** `out` is `order` rearranged by some plan. */
  ghost predicate Repaired(order: seq<nat>, edges: seq<DepEdge>, out: seq<nat>) {
    exists plan :: Plans(order, edges, plan) && out == Arrange(order, plan.perm)
  }

  /** Linearise again with every inversion put right that closes no cycle. */
  method RepairSoftInversions(order: seq<nat>, edges: seq<DepEdge>) returns (out: seq<nat>, ghost plan: Plan)
    requires Distinct(order)
    ensures Plans(order, edges, plan)
    ensures out == Arrange(order, plan.perm) && Repaired(order, edges, out)
  {
    var n := |order|;
    if n <= 1 {
      plan := TrivialPlan(order, edges);
      return order, plan;
    }
    var fwd, hardInv, softInv, tools := Classify(order, edges);
    var perm;
    perm, plan := Rebuild(order, edges, fwd, hardInv, softInv, tools);
    out := if |perm| == n then Arrange(order, perm) else order;
  }

  method Rebuild(order: seq<nat>, edges: seq<DepEdge>, fwd: seq<Pair>, hardInv: seq<Pair>, softInv: seq<Pair>,
                 tools: set<nat>)
    returns (perm: seq<nat>, ghost plan: Plan)
    requires forall p: Pair :: p in fwd <==> ForwardDep(order, edges, p.dep, p.consumer)
    requires HardInversions(order, edges, hardInv) && SoftInversions(order, edges, tools, softInv)
    ensures Plans(order, edges, plan) && perm == plan.perm && |perm| == |order|
  {
    hide ForwardDep, HardDep, SoftDep, BuildTool, Counted, SortedBy;
    var n := |order|;
    assert forall p: Pair :: p in fwd ==> p.dep < p.consumer < n by {
      ForwardBelow(order, edges);
    }
    var c := new Constraints(n);
    LockAll(c, fwd, n);
    ghost var locked := c.succ;
    LockedByPairs(order, edges, fwd, locked);
    TryPairs(c, hardInv);
    TryAllKeeps(locked, hardInv);
    TryPairs(c, softInv);
    TryAllKeeps(TryAll(locked, hardInv), softInv);
    CountedValues(c);
    perm := KahnBest(c.succ, c.indeg, (a: nat, b: nat) => a < b);
    AcyclicAll(c.succ, perm);
    plan := Plan(locked, hardInv, tools, softInv, c.succ, perm);
  }

  lemma CountedValues(c: Constraints)
    requires c.Valid()
    ensures forall v: nat :: v < |c.succ| ==> c.indeg[v] == Pending(c.succ, {}, v, |c.succ|)
  {
  }

  lemma ForwardBelow(order: seq<nat>, edges: seq<DepEdge>)
    ensures forall i: nat, j: nat :: ForwardDep(order, edges, i, j) ==> i < j < |order|
  {
  }

  lemma LockedByPairs(order: seq<nat>, edges: seq<DepEdge>, fwd: seq<Pair>, g: Graph)
    requires forall p: Pair :: p in fwd <==> ForwardDep(order, edges, p.dep, p.consumer)
    requires Locking(g, |order|, fwd)
    ensures Locked(order, edges, g) && Acyclic(g)
  {
    hide HardDep, SoftDep;
    forall i: nat, j: nat
      ensures Edge(g, i, j) <==> ForwardDep(order, edges, i, j)
    {
      assert Pair(i, j) in fwd <==> ForwardDep(order, edges, Pair(i, j).dep, Pair(i, j).consumer);
    }
    ForwardAcyclic(g);
  }

  /** Kahn's loop leaves nothing out of an acyclic graph. */
  lemma AcyclicAll(g: Graph, perm: seq<nat>)
    requires Acyclic(g) && Distinct(perm) && (forall v :: v in perm ==> v < |g|) && PredsBefore(g, perm)
    requires forall v: nat :: v < |g| ==> (v !in perm <==> Descends(g, v))
    ensures LinearExtension(g, perm) && AllBelow(perm, |g|)
  {
    AllEmitted(perm, |g|);
    assert forall i :: 0 <= i < |perm| ==> perm[i] in perm;
  }
}
