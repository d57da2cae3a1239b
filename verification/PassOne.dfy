/** Pass 1 of the install order: condense the cycles, order the components, then each cycle inside. */
module PassOne {
  import opened Dependencies
  import opened Digraph
  import opened Kahn
  import opened Sorting
  import opened Tarjan
  import opened CycleOrder

  predicate IsHard(c: DepClass) {
    c.Depend? || c.Bdepend?
  }

  predicate IsOrdering(c: DepClass) {
    IsHard(c) || c.Rdepend?
  }

  /** Some DEPEND or BDEPEND makes `v` wait for `u`. */
  ghost predicate HardDep(edges: seq<DepEdge>, u: nat, v: nat) {
    exists e :: e in edges && e.to == u && e.from == v && IsHard(e.kind)
  }

  /** Some DEPEND, BDEPEND or RDEPEND asks for `u` before `v`. */
  ghost predicate OrderDep(edges: seq<DepEdge>, u: nat, v: nat) {
    exists e :: e in edges && e.to == u && e.from == v && IsOrdering(e.kind)
  }

  /** `g` has exactly the edges for which `dep` holds among `n` nodes, each once. */
  ghost predicate Represents(g: Graph, n: nat, dep: (nat, nat) -> bool) {
    && |g| == n && WellFormed(g)
    && (forall u :: 0 <= u < n ==> Distinct(g[u]))
    && (forall u: nat, v: nat :: Edge(g, u, v) <==> u < n && v < n && dep(u, v))
  }

  ghost predicate Recorded(g: Graph, n: nat, edges: seq<DepEdge>, hardOnly: bool) {
    && |g| == n
    && (forall u: nat, v: nat :: Edge(g, u, v) <==>
          u < n && v < n && if hardOnly then HardDep(edges, u, v) else OrderDep(edges, u, v))
  }

  predicate Wanted(e: DepEdge, n: nat, hardOnly: bool) {
    e.to < n && e.from < n && if hardOnly then IsHard(e.kind) else IsOrdering(e.kind)
  }

  lemma DepStep(edges: seq<DepEdge>, e: DepEdge, u: nat, v: nat)
    ensures HardDep(edges + [e], u, v) <==> HardDep(edges, u, v) || (e.to == u && e.from == v && IsHard(e.kind))
    ensures OrderDep(edges + [e], u, v) <==> OrderDep(edges, u, v) || (e.to == u && e.from == v && IsOrdering(e.kind))
  {
  }

  lemma RecordStep(g: Graph, n: nat, edges: seq<DepEdge>, e: DepEdge, hardOnly: bool)
    requires Recorded(g, n, edges, hardOnly)
    ensures Recorded(if Wanted(e, n, hardOnly) then g[e.to := g[e.to] + [e.from]] else g, n, edges + [e], hardOnly)
  {
    forall u: nat, v: nat
      ensures HardDep(edges + [e], u, v) <==> HardDep(edges, u, v) || (e.to == u && e.from == v && IsHard(e.kind))
      ensures OrderDep(edges + [e], u, v) <==> OrderDep(edges, u, v) || (e.to == u && e.from == v && IsOrdering(e.kind))
    {
      DepStep(edges, e, u, v);
    }
    hide HardDep, OrderDep;
    if Wanted(e, n, hardOnly) {
      var g' := g[e.to := g[e.to] + [e.from]];
      assert forall u: nat, v: nat :: Edge(g', u, v) <==> Edge(g, u, v) || (u == e.to && v == e.from);
    }
  }

  /** Sort and deduplicate every row. */
  method Tidy(g: Graph) returns (g': Graph)
    requires forall u: nat, v: nat :: Edge(g, u, v) ==> v < |g|
    ensures |g'| == |g| && WellFormed(g') && forall u :: 0 <= u < |g'| ==> Distinct(g'[u])
    ensures forall u: nat, v: nat :: Edge(g', u, v) <==> Edge(g, u, v)
  {
    g' := g;
    for u := 0 to |g|
      invariant |g'| == |g| && forall k :: u <= k < |g| ==> g'[k] == g[k]
      invariant forall k :: 0 <= k < u ==> Distinct(g'[k])
      invariant forall k, v :: 0 <= k < u ==> (v in g'[k] <==> v in g[k])
    {
      var sorted := SortBy(g[u], (a: nat, b: nat) => a <= b);
      SortBySorted(g[u], (a: nat, b: nat) => a <= b);
      DedupDistinct(sorted, (a: nat, b: nat) => a <= b);
      g' := g'[u := Dedup(sorted)];
    }
    forall u, k | 0 <= u < |g'| && 0 <= k < |g'[u]|
      ensures g'[u][k] < |g'|
    {
      assert Edge(g, u, g'[u][k]);
    }
  }

  /** Adjacency from dependency to dependent; edges of other classes or to unknown nodes are skipped. */
  method BuildSuccessors(edges: seq<DepEdge>, n: nat) returns (all: Graph, hard: Graph)
    ensures Represents(all, n, (u: nat, v: nat) => OrderDep(edges, u, v))
    ensures Represents(hard, n, (u: nat, v: nat) => HardDep(edges, u, v))
  {
    all, hard := seq(n, _ => []), seq(n, _ => []);
    for k := 0 to |edges|
      invariant Recorded(all, n, edges[..k], false) && Recorded(hard, n, edges[..k], true)
    {
      var e := edges[k];
      RecordStep(all, n, edges[..k], e, false);
      RecordStep(hard, n, edges[..k], e, true);
      assert edges[..k+1] == edges[..k] + [e];
      if IsOrdering(e.kind) && e.to < n && e.from < n {
        all := all[e.to := all[e.to] + [e.from]];
        if IsHard(e.kind) {
          hard := hard[e.to := hard[e.to] + [e.from]];
        }
      }
    }
    assert edges[..|edges|] == edges;
    all := Tidy(all);
    hard := Tidy(hard);
  }

  // ---------- the condensation ----------

  ghost predicate MemberLists(comp: seq<nat>, members: seq<seq<nat>>, k: nat) {
    forall c: nat :: c < |members| ==>
      && Distinct(members[c])
      && forall v: nat :: v in members[c] <==> v < |comp| && v < k && comp[v] == c
  }

  method CollectMembers(comp: seq<nat>) returns (members: seq<seq<nat>>)
    requires forall v, c :: 0 <= v < |comp| && 0 <= c <= comp[v] ==> CompUsed(comp, c)
    ensures MemberLists(comp, members, |comp|)
    ensures forall v :: 0 <= v < |comp| ==> comp[v] < |members|
    ensures forall c :: 0 <= c < |members| ==> members[c] != []
  {
    var count: nat := 0;
    for v := 0 to |comp|
      invariant forall k :: 0 <= k < v ==> comp[k] < count
      invariant forall c :: 0 <= c < count ==> CompUsed(comp, c)
    {
      if comp[v] + 1 > count {
        count := comp[v] + 1;
      }
    }
    members := seq(count, _ => []);
    for v := 0 to |comp|
      invariant |members| == count && MemberLists(comp, members, v)
    {
      members := members[comp[v] := members[comp[v]] + [v]];
    }
    forall c | 0 <= c < |members|
      ensures members[c] != []
    {
      assert CompUsed(comp, c);
      var v :| Carries(comp, v, c);
      assert v in members[c];
    }
  }

  ghost predicate CrossEdge(all: Graph, comp: seq<nat>, u: nat, v: nat, a: nat, b: nat) {
    Edge(all, u, v) && u < |comp| && v < |comp| && comp[u] == a && comp[v] == b && a != b
  }

  /** Some ordering edge leads from component `a` to a different component `b`. */
  ghost predicate CompEdge(all: Graph, comp: seq<nat>, a: nat, b: nat) {
    exists u: nat, v: nat :: CrossEdge(all, comp, u, v, a, b)
  }

  /** `succ` has an edge for each pair of components joined by a cross edge seen so far, and no other. */
  ghost predicate Condensing(all: Graph, comp: seq<nat>, succ: Graph, k: nat, j: nat) {
    && WellFormed(succ)
    && (forall a: nat, b: nat :: Edge(succ, a, b) ==> CompEdge(all, comp, a, b))
    && (forall u: nat, i: nat ::
          (u < |all| && (u < k || (u == k && i < j)) && i < |all[u]| && u < |comp| && all[u][i] < |comp|
           && comp[u] != comp[all[u][i]])
          ==> Edge(succ, comp[u], comp[all[u][i]]))
  }

  lemma CountedAdd(g: Graph, indeg: seq<nat>, u: nat, v: nat)
    requires Counted(g, indeg) && u < |g| && v < |g|
    ensures Counted(g[u := g[u] + [v]], indeg[v := indeg[v] + 1])
  {
    forall w: nat | w < |g|
      ensures Pending(g[u := g[u] + [v]], {}, w, |g|) == Pending(g, {}, w, |g|) + if w == v then 1 else 0
    {
      PendingAdd(g, u, v, w, |g|);
    }
  }

  lemma CountedEmpty(n: nat)
    ensures Counted(seq(n, _ => []), seq(n, _ => 0))
  {
    var g: Graph := seq(n, _ => []);
    forall v: nat | v < n
      ensures Pending(g, {}, v, n) == 0
    {
      PendingEmpty(g, v, n);
    }
  }

  /** No successor is listed twice. */
  ghost predicate EachOnce(g: Graph) {
    forall u :: 0 <= u < |g| ==> Distinct(g[u])
  }

  method Condense(all: Graph, comp: seq<nat>, count: nat) returns (succ: Graph, indeg: seq<nat>)
    requires WellFormed(all) && |comp| == |all| && forall v :: 0 <= v < |comp| ==> comp[v] < count
    ensures |succ| == count && WellFormed(succ) && Counted(succ, indeg) && EachOnce(succ)
    ensures forall a: nat, b: nat :: Edge(succ, a, b) <==> CompEdge(all, comp, a, b)
  {
    succ, indeg := seq(count, _ => []), seq(count, _ => 0);
    CountedEmpty(count);
    for u := 0 to |all|
      invariant |succ| == count && Condensing(all, comp, succ, u, 0) && Counted(succ, indeg) && EachOnce(succ)
    {
      for i := 0 to |all[u]|
        invariant |succ| == count && Condensing(all, comp, succ, u, i) && Counted(succ, indeg) && EachOnce(succ)
      {
        hide Pending, Counted;
        var v := all[u][i];
        var cu, cv := comp[u], comp[v];
        if cu != cv && cv !in succ[cu] {
          assert CrossEdge(all, comp, u, v, cu, cv);
          CountedAdd(succ, indeg, cu, cv);
          assert |indeg| == |succ| by { CountedSize(succ, indeg); }
          succ := succ[cu := succ[cu] + [cv]];
          indeg := indeg[cv := indeg[cv] + 1];
        }
      }
    }
    forall a: nat, b: nat | CompEdge(all, comp, a, b)
      ensures Edge(succ, a, b)
    {
      var u: nat, v: nat :| CrossEdge(all, comp, u, v, a, b);
      var i: nat :| i < |all[u]| && all[u][i] == v;
    }
  }

  lemma CountedSize(g: Graph, indeg: seq<nat>)
    requires Counted(g, indeg)
    ensures |indeg| == |g|
  {
  }

  // ---------- pass 1 ----------

  /** Every edge of `g` that lies on no cycle points forward in `order`. */
  ghost predicate Respects(g: Graph, order: seq<nat>) {
    forall j: nat, u: nat :: j < |order| && Edge(g, u, order[j]) && !Reach(g, order[j], u) ==> u in order[..j]
  }

  /** Without cycles, that is every edge. */
  lemma RespectsAcyclic(g: Graph, order: seq<nat>)
    requires Respects(g, order) && Acyclic(g)
    ensures PredsBefore(g, order)
  {
    forall j: nat, u: nat | j < |order| && Edge(g, u, order[j])
      ensures u in order[..j]
    {
      if Reach(g, order[j], u) {
        assert OnCycle(g, u);
      }
    }
  }

  function MaxOf(xs: seq<nat>): (m: nat)
    ensures forall x :: x in xs ==> x <= m
    ensures xs != [] ==> m in xs
  {
    if xs == [] then 0
    else
      assert xs == [xs[0]] + xs[1..];
      var r := MaxOf(xs[1..]);
      if r > xs[0] then r else xs[0]
  }

  function KeyOf(members: seq<seq<nat>>, c: nat): nat {
    if c < |members| then MaxOf(members[c]) else 0
  }

  /** The order of the ready heap: larger key first, then larger component. */
  predicate HeapBefore(members: seq<seq<nat>>, a: nat, b: nat) {
    KeyOf(members, a) > KeyOf(members, b) || (KeyOf(members, a) == KeyOf(members, b) && a > b)
  }

  /** `block` lists component `c` and respects the hard edges inside it. */
  ghost predicate Block(hard: Graph, members: seq<nat>, block: seq<nat>) {
    && Distinct(block) && Elems(block) == Elems(members)
    && forall j: nat, u: nat ::
         j < |block| && u in members && Edge(hard, u, block[j]) && !Reach(hard, block[j], u) ==> u in block[..j]
  }

  /** A single node, or a cycle in the order its greedy rule gives. */
  ghost predicate BlockRule(hard: Graph, all: Graph, keys: seq<int>, members: seq<nat>, block: seq<nat>, group: map<nat, nat>) {
    && |block| == |members|
    && if |members| == 1 then block == members
       else Grouping(hard, members, group) && Greedy(hard, all, group, keys, block)
  }

  method OrderComponent(members: seq<nat>, hard: Graph, all: Graph, keys: seq<int>)
    returns (block: seq<nat>, ghost group: map<nat, nat>)
    requires members != [] && Distinct(members) && |hard| == |all| == |keys| && AllBelow(members, |keys|)
    ensures Block(hard, members, block) && BlockRule(hard, all, keys, members, block, group)
  {
    group := map[];
    if |members| == 1 {
      block := [members[0]];
      ReachRefl(hard, members[0]);
    } else {
      block, group := OrderCycle(members, hard, all, keys);
      DistinctSize(block);
      DistinctSize(members);
      forall j: nat, u: nat | j < |block| && u in members && Edge(hard, u, block[j]) && !Reach(hard, block[j], u)
        ensures u in block[..j]
      {
        assert block[j] in Elems(block);
        HardEdgeCrosses(hard, members, group, u, block[j]);
      }
    }
  }

  /** How pass 1 came to its order: the components, their order, and what each contributed. */
  datatype Schedule = Schedule(comp: seq<nat>, members: seq<seq<nat>>, succ: Graph, compOrder: seq<nat>,
                               blocks: seq<seq<nat>>, groups: seq<map<nat, nat>>)

  function Joined(blocks: seq<seq<nat>>): seq<nat> {
    if blocks == [] then [] else Joined(blocks[..|blocks|-1]) + blocks[|blocks|-1]
  }

  ghost predicate Condensed(all: Graph, s: Schedule) {
    && SccNumbering(all, s.comp) && MemberLists(s.comp, s.members, |s.comp|) && |s.succ| == |s.members|
    && (forall v :: 0 <= v < |s.comp| ==> s.comp[v] < |s.members|)
    && (forall c :: 0 <= c < |s.members| ==> s.members[c] != [])
    && forall a: nat, b: nat :: Edge(s.succ, a, b) <==> CompEdge(all, s.comp, a, b)
  }

  ghost predicate BlocksFollow(all: Graph, hard: Graph, keys: seq<int>, s: Schedule) {
    && |s.blocks| == |s.groups| <= |s.compOrder|
    && forall k: nat :: k < |s.blocks| && s.compOrder[k] < |s.members| ==>
         BlockRule(hard, all, keys, s.members[s.compOrder[k]], s.blocks[k], s.groups[k])
  }

  /**
   * The components come one after the other, dependencies first and among the ready
   * ones the one with the largest node first; each is laid out by its own rule.
   */
  ghost predicate Scheduled(all: Graph, hard: Graph, keys: seq<int>, s: Schedule, order: seq<nat>) {
    && Condensed(all, s) && LinearExtension(s.succ, s.compOrder)
    && BestFirst(s.succ, s.compOrder, (a: nat, b: nat) => HeapBefore(s.members, a, b))
    && BlocksFollow(all, hard, keys, s) && |s.blocks| == |s.compOrder|
    && order == Joined(s.blocks)
  }

  /**
   * Of all nodes that could come next, the largest is in the component that does: `v` could if every node outside
   * its own component that it waits for, itself or through the component, is in a component taken before.
   */
  lemma LargestNext(all: Graph, hard: Graph, keys: seq<int>, s: Schedule, order: seq<nat>, k: nat, v: nat)
    requires Scheduled(all, hard, keys, s, order) && k < |s.compOrder| && v < |s.comp| && s.comp[v] !in s.compOrder[..k]
    requires forall u: nat, w: nat :: Edge(all, u, w) && w < |s.comp| && u < |s.comp| && s.comp[w] == s.comp[v] ==>
               s.comp[u] == s.comp[v] || s.comp[u] in s.compOrder[..k]
    ensures exists m: nat :: v <= m < |s.comp| && s.comp[m] == s.compOrder[k]
  {
    hide BlocksFollow, SccNumbering;
    var c := s.comp[v];
    assert Available(s.succ, s.compOrder[..k], c) by {
      forall a: nat | Edge(s.succ, a, c)
        ensures a in s.compOrder[..k]
      {
        var u: nat, w: nat :| CrossEdge(all, s.comp, u, w, a, c);
      }
    }
    assert v in s.members[c];
    assert !HeapBefore(s.members, c, s.compOrder[k]);
    var taken := s.compOrder[k];
    assert taken in s.compOrder;
    assert MaxOf(s.members[taken]) in s.members[taken];
  }

  /** What has been emitted after the components in `done`. */
  ghost predicate Emitted(all: Graph, hard: Graph, comp: seq<nat>, done: seq<nat>, order: seq<nat>)
    requires |comp| == |all| == |hard|
  {
    && Distinct(order) && (forall v: nat :: v in order <==> v < |comp| && comp[v] in done)
    && Respects(all, order) && Respects(hard, order)
  }

  lemma AppendBlock(all: Graph, hard: Graph, comp: seq<nat>, members: seq<nat>, done: seq<nat>, c: nat,
                    order: seq<nat>, block: seq<nat>)
    requires |comp| == |all| == |hard| && SccNumbering(all, comp) && c !in done
    requires forall u: nat, v: nat :: Edge(hard, u, v) ==> Edge(all, u, v)
    requires forall v: nat :: v in members <==> v < |comp| && comp[v] == c
    requires Emitted(all, hard, comp, done, order) && Block(hard, members, block)
    requires forall u: nat, v: nat :: Edge(all, u, v) && v in members ==> u in members || u in order
    ensures Emitted(all, hard, comp, done + [c], order + block)
  {
    var order' := order + block;
    assert forall v :: v in block <==> v in Elems(block);
    DistinctConcat(order, block);
    forall j: nat, u: nat | j < |order'|
      ensures Edge(all, u, order'[j]) && !Reach(all, order'[j], u) ==> u in order'[..j]
      ensures Edge(hard, u, order'[j]) && !Reach(hard, order'[j], u) ==> u in order'[..j]
    {
      if j < |order| {
        assert order'[..j] == order[..j];
      } else {
        var v := order'[j];
        assert v == block[j - |order|] && v in Elems(block);
        assert order'[..j] == order + block[..j-|order|];
        if u in members {
          assert MutuallyReachable(all, v, u);
        }
      }
    }
  }

  lemma DistinctConcat(xs: seq<nat>, ys: seq<nat>)
    requires Distinct(xs) && Distinct(ys) && forall y :: y in ys ==> y !in xs
    ensures Distinct(xs + ys)
  {
    var zs := xs + ys;
    forall i, j | 0 <= i < j < |zs|
      ensures zs[i] != zs[j]
    {
      if i < |xs| <= j {
        assert ys[j - |xs|] in ys && xs[i] in xs;
      }
    }
  }

  /** A condensation numbered against its edges has no cycle. */
  lemma CondensationAcyclic(all: Graph, comp: seq<nat>, succ: Graph)
    requires WellFormed(succ) && SccNumbering(all, comp)
    requires forall a: nat, b: nat :: Edge(succ, a, b) ==> CompEdge(all, comp, a, b)
    ensures Acyclic(succ)
  {
    forall a: nat, b: nat | Edge(succ, a, b)
      ensures b < a
    {
      var u: nat, v: nat :| CrossEdge(all, comp, u, v, a, b);
    }
    forall a: nat | OnCycle(succ, a)
      ensures false
    {
      var b: nat :| Edge(succ, a, b) && Reach(succ, b, a);
      ReachClosed(succ, Below(b + 1), b, a);
    }
  }

  /** Order `n` nodes; also returns the graphs of all ordering edges and of the hard ones. */
  method OrderPassOne(edges: seq<DepEdge>, n: nat, keys: seq<int>)
    returns (order: seq<nat>, all: Graph, hard: Graph, ghost s: Schedule)
    requires |keys| == n
    ensures Represents(all, n, (u: nat, v: nat) => OrderDep(edges, u, v))
    ensures Represents(hard, n, (u: nat, v: nat) => HardDep(edges, u, v))
    ensures Permutes(order, n) && Respects(all, order) && Respects(hard, order)
    ensures Scheduled(all, hard, keys, s, order)
  {
    hide Respects, Block, BlockRule, BlocksFollow, BestFirst, PredsBefore, HardDep, OrderDep, Pending, CompEdge, Reach;
    all, hard := BuildSuccessors(edges, n);
    HardIsOrdering(edges);
    var comp := TarjanScc(all);
    var members := CollectMembers(comp);
    var succ, counts := Condense(all, comp, |members|);
    CondensationAcyclic(all, comp, succ);
    var indeg := new nat[|succ|](i requires 0 <= i < |counts| => counts[i]);
    var compOrder := KahnBest(succ, indeg, (a: nat, b: nat) => HeapBefore(members, a, b));
    AllEmitted(compOrder, |succ|);
    s := Schedule(comp, members, succ, compOrder, [], []);
    order := [];
    NothingScheduled(all, hard, keys, s);
    for k := 0 to |compOrder|
      invariant Emitted(all, hard, comp, compOrder[..k], order)
      invariant s == Schedule(comp, members, succ, compOrder, s.blocks, s.groups) && |s.blocks| == k
      invariant BlocksFollow(all, hard, keys, s) && order == Joined(s.blocks)
    {
      var c := compOrder[k];
      assert c in compOrder && forall i :: 0 <= i < |members[c]| ==> members[c][i] in members[c];
      ghost var group;
      var block;
      block, group := OrderComponent(members[c], hard, all, keys);
      assert compOrder[..k+1] == compOrder[..k] + [c];
      PredecessorsEmitted(all, comp, members, succ, compOrder, k, order);
      AppendBlock(all, hard, comp, members[c], compOrder[..k], c, order, block);
      BlocksPush(all, hard, keys, s, block, group);
      s := s.(blocks := s.blocks + [block], groups := s.groups + [group]);
      order := order + block;
    }
    assert compOrder[..|compOrder|] == compOrder;
    AllEmitted(order, n);
  }

  lemma NothingScheduled(all: Graph, hard: Graph, keys: seq<int>, s: Schedule)
    requires |s.comp| == |all| == |hard| && s.blocks == [] && s.groups == []
    ensures Emitted(all, hard, s.comp, [], []) && BlocksFollow(all, hard, keys, s)
  {
  }

  lemma BlocksPush(all: Graph, hard: Graph, keys: seq<int>, s: Schedule, block: seq<nat>, group: map<nat, nat>)
    requires BlocksFollow(all, hard, keys, s) && |s.blocks| < |s.compOrder|
    requires var c := s.compOrder[|s.blocks|]; c < |s.members| && BlockRule(hard, all, keys, s.members[c], block, group)
    ensures BlocksFollow(all, hard, keys, s.(blocks := s.blocks + [block], groups := s.groups + [group]))
    ensures Joined(s.blocks + [block]) == Joined(s.blocks) + block
  {
  }

  lemma HardIsOrdering(edges: seq<DepEdge>)
    ensures forall u, v :: HardDep(edges, u, v) ==> OrderDep(edges, u, v)
  {
  }

  lemma PredecessorsEmitted(all: Graph, comp: seq<nat>, members: seq<seq<nat>>, succ: Graph, compOrder: seq<nat>, k: nat,
                            order: seq<nat>)
    requires |comp| == |all| && WellFormed(all) && k < |compOrder| && compOrder[k] < |members|
    requires MemberLists(comp, members, |comp|) && PredsBefore(succ, compOrder)
    requires forall a: nat, b: nat :: Edge(succ, a, b) <==> CompEdge(all, comp, a, b)
    requires forall v: nat :: v in order <==> v < |comp| && comp[v] in compOrder[..k]
    ensures forall u: nat, v: nat :: Edge(all, u, v) && v in members[compOrder[k]] ==> u in members[compOrder[k]] || u in order
  {
    var c := compOrder[k];
    forall u: nat, v: nat | Edge(all, u, v) && v in members[c] && u !in members[c]
      ensures u in order
    {
      assert CrossEdge(all, comp, u, v, comp[u], c);
      assert Edge(succ, comp[u], compOrder[k]);
    }
  }
}
