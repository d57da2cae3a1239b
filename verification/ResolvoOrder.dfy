/** The SAT provider's install order: Kahn's algorithm with a queue, `PDEPEND` deferred. */
module ResolvoOrder {
  import opened Dependencies
  import opened Digraph
  import opened Kahn
  import opened Sorting

  // ---------- metadata ----------

  datatype Entry =
    | Atom(name: string, blocker: bool)
    | UseConditional(flag: string, negate: bool, children: seq<Entry>)
    | Group(children: seq<Entry>)

  datatype Meta = Meta(cpv: int, deps: seq<(DepClass, seq<Entry>)>)

  /** `enabled` holds the enabled and the solver-decided flags; `fits` says whether a solvable matches an atom. */
  datatype Provider = Provider(pool: seq<Meta>, enabled: set<string>, fits: (string, nat) -> bool)

  predicate Included(p: Provider, e: Entry)
    requires e.UseConditional?
  {
    (e.flag in p.enabled) != e.negate
  }

  /** The non-blocker atoms an entry contributes under the configured flags. */
  function Live(p: Provider, e: Entry): set<string>
    decreases e
  {
    match e
    case Atom(name, blocker) => if blocker then {} else {name}
    case UseConditional(_, _, cs) => if Included(p, e) then LiveEach(p, cs) else {}
    case Group(cs) => LiveEach(p, cs)
  }

  function LiveEach(p: Provider, es: seq<Entry>): set<string>
    decreases es
  {
    if es == [] then {} else LiveEach(p, es[..|es|-1]) + Live(p, es[|es|-1])
  }

  /** With the flags of `on` active the entry asks for the atom: it is no blocker and every condition around it holds. */
  ghost predicate Asks(e: Entry, on: set<string>, atom: string)
    decreases e
  {
    match e
    case Atom(name, blocker) => name == atom && !blocker
    case UseConditional(flag, negate, cs) =>
      (if negate then flag !in on else flag in on) && exists i :: 0 <= i < |cs| && Asks(cs[i], on, atom)
    case Group(cs) => exists i :: 0 <= i < |cs| && Asks(cs[i], on, atom)
  }

  lemma {:induction false} LiveMeans(p: Provider, e: Entry, atom: string)
    ensures atom in Live(p, e) <==> Asks(e, p.enabled, atom)
    decreases e, 1
  {
    if !e.Atom? {
      LiveEachMeans(p, e.children, atom);
    }
  }

  lemma {:induction false} LiveEachMeans(p: Provider, es: seq<Entry>, atom: string)
    ensures atom in LiveEach(p, es) <==> exists i :: 0 <= i < |es| && Asks(es[i], p.enabled, atom)
    decreases es, 0
  {
    if es != [] {
      var n := |es| - 1;
      LiveEachMeans(p, es[..n], atom);
      LiveMeans(p, es[n], atom);
      assert forall i :: 0 <= i < n ==> es[..n][i] == es[i];
    }
  }

  ghost predicate Wants(p: Provider, atoms: set<string>, to: nat) {
    exists a :: a in atoms && p.fits(a, to)
  }

  /** Some live atom in the class's entries of `from` is matched by `to`. */
  ghost predicate DependsOn(p: Provider, from: nat, kind: DepClass, to: nat)
    requires from < |p.pool|
  {
    exists k :: 0 <= k < |p.pool[from].deps| && p.pool[from].deps[k].0 == kind
             && Wants(p, LiveEach(p, p.pool[from].deps[k].1), to)
  }

  // ---------- the labelled graph ----------

  /** `added` holds the edges from `from` to the solvables that `atoms` want, and no others. */
  ghost predicate EdgesFor(p: Provider, from: nat, kind: DepClass, atoms: set<string>, solution: seq<nat>, added: seq<DepEdge>) {
    forall e: DepEdge :: e in added <==>
      e.from == from && e.kind == kind && e.to != from && e.to in solution && Wants(p, atoms, e.to)
  }

  lemma EdgesForJoin(p: Provider, from: nat, kind: DepClass, a: set<string>, b: set<string>, solution: seq<nat>,
                     s: seq<DepEdge>, t: seq<DepEdge>)
    requires EdgesFor(p, from, kind, a, solution, s) && EdgesFor(p, from, kind, b, solution, t)
    ensures EdgesFor(p, from, kind, a + b, solution, s + t)
  {
  }

  method CollectDepEdges(p: Provider, from: nat, kind: DepClass, entries: seq<Entry>, solution: seq<nat>)
    returns (edges: seq<DepEdge>)
    ensures EdgesFor(p, from, kind, LiveEach(p, entries), solution, edges)
    decreases entries
  {
    edges := [];
    for i := 0 to |entries|
      invariant EdgesFor(p, from, kind, LiveEach(p, entries[..i]), solution, edges)
    {
      var more: seq<DepEdge> := [];
      var e := entries[i];
      match e {
        case Atom(name, blocker) =>
          if !blocker {
            more := AtomEdges(p, from, kind, name, solution);
          }
        case UseConditional(_, _, children) =>
          if Included(p, e) {
            more := CollectDepEdges(p, from, kind, children, solution);
          }
        case Group(children) =>
          more := CollectDepEdges(p, from, kind, children, solution);
      }
      assert entries[..i+1][..i] == entries[..i];
      EdgesForJoin(p, from, kind, LiveEach(p, entries[..i]), Live(p, e), solution, edges, more);
      edges := edges + more;
    }
    assert entries[..|entries|] == entries;
  }

  method AtomEdges(p: Provider, from: nat, kind: DepClass, name: string, solution: seq<nat>) returns (edges: seq<DepEdge>)
    ensures EdgesFor(p, from, kind, {name}, solution, edges)
  {
    edges := [];
    for i := 0 to |solution|
      invariant forall e: DepEdge :: e in edges <==>
                  e.from == from && e.kind == kind && e.to != from && e.to in solution[..i] && p.fits(name, e.to)
    {
      var to := solution[i];
      if to != from && p.fits(name, to) {
        edges := edges + [DepEdge(from, to, kind)];
      }
    }
    assert name in {name};
  }

  ghost predicate InPool(p: Provider, solution: seq<nat>) {
    forall v :: v in solution ==> v < |p.pool|
  }

  /** An edge for every dependency of `e.from` that `e.to` matches, both in the solution. */
  ghost predicate Labelled(p: Provider, solution: seq<nat>, e: DepEdge)
    requires InPool(p, solution)
  {
    && e.from in solution && e.to in solution && e.from != e.to
    && DependsOn(p, e.from, e.kind, e.to)
  }

  method DependencyGraph(p: Provider, solution: seq<nat>) returns (edges: seq<DepEdge>)
    requires InPool(p, solution)
    ensures forall e: DepEdge :: e in edges <==> Labelled(p, solution, e)
  {
    edges := [];
    for i := 0 to |solution|
      invariant forall e: DepEdge :: e in edges <==> Labelled(p, solution, e) && e.from in solution[..i]
    {
      var from := solution[i];
      assert from in solution;
      var more := ClassEdges(p, from, solution);
      edges := edges + more;
    }
  }

  method ClassEdges(p: Provider, from: nat, solution: seq<nat>) returns (edges: seq<DepEdge>)
    requires from < |p.pool|
    ensures forall e: DepEdge :: e in edges <==>
              e.from == from && e.to != from && e.to in solution && DependsOn(p, from, e.kind, e.to)
  {
    var deps := p.pool[from].deps;
    edges := [];
    for k := 0 to |deps|
      invariant forall e: DepEdge :: e in edges <==>
                  e.from == from && e.to != from && e.to in solution && DependsIn(p, deps[..k], e.kind, e.to)
    {
      var more := CollectDepEdges(p, from, deps[k].0, deps[k].1, solution);
      forall kind: DepClass, to: nat
        ensures DependsIn(p, deps[..k+1], kind, to)
           <==> DependsIn(p, deps[..k], kind, to)
                || (deps[k].0 == kind && Wants(p, LiveEach(p, deps[k].1), to))
      {
        DependsInStep(p, deps, k, kind, to);
      }
      edges := edges + more;
    }
    assert deps[..|deps|] == deps;
    forall kind: DepClass, to: nat
      ensures DependsIn(p, deps, kind, to) <==> DependsOn(p, from, kind, to)
    {
    }
  }

  ghost predicate DependsIn(p: Provider, deps: seq<(DepClass, seq<Entry>)>, kind: DepClass, to: nat) {
    exists k :: 0 <= k < |deps| && deps[k].0 == kind && Wants(p, LiveEach(p, deps[k].1), to)
  }

  lemma DependsInStep(p: Provider, deps: seq<(DepClass, seq<Entry>)>, k: nat, kind: DepClass, to: nat)
    requires k < |deps|
    ensures DependsIn(p, deps[..k+1], kind, to)
       <==> DependsIn(p, deps[..k], kind, to) || (deps[k].0 == kind && Wants(p, LiveEach(p, deps[k].1), to))
  {
  }

  // ---------- ordering ----------

  /** `v` must wait for `u`: one of its dependencies outside `PDEPEND` is matched by `u`. */
  ghost predicate WaitsFor(p: Provider, solution: seq<nat>, v: nat, u: nat)
    requires InPool(p, solution)
  {
    exists kind: DepClass :: kind != Pdepend && Labelled(p, solution, DepEdge(v, u, kind))
  }

  ghost predicate Represents(g: Graph, p: Provider, solution: seq<nat>)
    requires InPool(p, solution)
  {
    && |g| == |p.pool| && WellFormed(g)
    && forall u: nat, v: nat :: Edge(g, u, v) <==> WaitsFor(p, solution, v, u)
  }

  ghost predicate Hardens(edges: seq<DepEdge>, u: nat, v: nat) {
    exists e :: e in edges && e.kind != Pdepend && e.to == u && e.from == v
  }

  /** Adjacency from each dependency to its dependents, with in-degrees; `PDEPEND` edges are skipped. */
  method BuildAdjacency(edges: seq<DepEdge>, n: nat) returns (g: Graph, indeg: array<nat>)
    requires forall e :: e in edges ==> e.from < n && e.to < n
    ensures |g| == n && WellFormed(g) && fresh(indeg) && Counted(g, indeg[..])
    ensures forall u: nat, v: nat :: Edge(g, u, v) <==> Hardens(edges, u, v)
  {
    g := seq(n, _ => []);
    indeg := new nat[n](_ => 0);
    forall v: nat | v < n ensures Pending(g, {}, v, n) == 0 {
      PendingEmpty(g, v, n);
    }
    for i := 0 to |edges|
      invariant |g| == n && WellFormed(g) && Counted(g, indeg[..])
      invariant forall u: nat, v: nat :: Edge(g, u, v) <==> Hardens(edges[..i], u, v)
    {
      var e := edges[i];
      assert e in edges;
      HardensStep(edges, i);
      if e.kind != Pdepend {
        forall v: nat | v < n
          ensures Pending(g[e.to := g[e.to] + [e.from]], {}, v, n)
               == Pending(g, {}, v, n) + if v == e.from then 1 else 0
        {
          PendingAdd(g, e.to, e.from, v, n);
        }
        ghost var before := g;
        g := g[e.to := g[e.to] + [e.from]];
        indeg[e.from] := indeg[e.from] + 1;
        forall u: nat, v: nat
          ensures Edge(g, u, v) <==> Edge(before, u, v) || (u == e.to && v == e.from)
        {
        }
      }
    }
    assert edges[..|edges|] == edges;
  }

  lemma HardensStep(edges: seq<DepEdge>, i: nat)
    requires i < |edges|
    ensures forall u: nat, v: nat ::
              Hardens(edges[..i+1], u, v) <==>
                Hardens(edges[..i], u, v) || (edges[i].kind != Pdepend && edges[i].to == u && edges[i].from == v)
  {
    forall u: nat, v: nat
      ensures Hardens(edges[..i+1], u, v) <==>
                Hardens(edges[..i], u, v) || (edges[i].kind != Pdepend && edges[i].to == u && edges[i].from == v)
    {
      assert edges[..i+1] == edges[..i] + [edges[i]];
      if Hardens(edges[..i], u, v) {
        var e :| e in edges[..i] && e.kind != Pdepend && e.to == u && e.from == v;
        assert e in edges[..i+1];
      }
      assert edges[i] in edges[..i+1];
    }
  }

  /** The members of a hash set, in any order. */
  method Drained(s: set<nat>) returns (xs: seq<nat>)
    ensures Distinct(xs) && Elems(xs) == s
  {
    xs := [];
    var rest := s;
    while rest != {}
      invariant Distinct(xs) && rest <= s && Elems(xs) == s - rest
      decreases |rest|
    {
      var x :| x in rest;
      DistinctPush(xs, x);
      xs := xs + [x];
      rest := rest - {x};
    }
  }

  /** `out` without the solvables that are not part of the solution. */
  ghost predicate Skips(skipped: seq<nat>, solution: seq<nat>, n: nat) {
    Distinct(skipped) && forall v: nat :: v in skipped <==> v < n && v !in solution
  }

  function Members(xs: seq<nat>, keep: set<nat>): seq<nat> {
    if xs == [] then []
    else Members(xs[..|xs|-1], keep) + if xs[|xs|-1] in keep then [xs[|xs|-1]] else []
  }

  datatype Outcome = Ok(order: seq<nat>) | Cyclic(members: seq<nat>)

  /** The solvables on a cycle, or waiting directly or indirectly for one on a cycle. */
  ghost function Stuck(g: Graph, solution: seq<nat>): set<nat> {
    set v | v in solution && Descends(g, v)
  }

  ghost predicate Sound(p: Provider, solution: seq<nat>, order: seq<nat>)
    requires InPool(p, solution)
  {
    forall j: nat, u: nat :: j < |order| && WaitsFor(p, solution, order[j], u) ==> u in order[..j]
  }

  function Cpv(p: Provider, v: nat): int {
    if v < |p.pool| then p.pool[v].cpv else 0
  }

  /** `v` became ready when the first `k` entries of `order` were done, and not earlier. */
  ghost predicate FreedAt(g: Graph, order: seq<nat>, v: nat, k: nat) {
    && k <= |order| && (k > 0 ==> Edge(g, order[k-1], v))
    && forall u :: Edge(g, u, v) ==> u in order[..k]
  }

  /** First the solvables that became ready first; among those freed together, the lower cpv. */
  ghost predicate Fifo(p: Provider, g: Graph, order: seq<nat>) {
    forall i: nat, j: nat, a: nat, b: nat {:trigger FreedAt(g, order, order[i], a), FreedAt(g, order, order[j], b)} ::
      i < j < |order| && FreedAt(g, order, order[i], a) && FreedAt(g, order, order[j], b) ==>
        a < b || (a == b && Cpv(p, order[i]) <= Cpv(p, order[j]))
  }

  /** Of two solvables, the one that became ready first is first; freed together, the one with the lower cpv. */
  lemma FifoMeans(p: Provider, g: Graph, order: seq<nat>, i: nat, j: nat, a: nat, b: nat)
    requires Fifo(p, g, order) && i < |order| && j < |order| && order[i] < |p.pool| && order[j] < |p.pool|
    requires FreedAt(g, order, order[i], a) && FreedAt(g, order, order[j], b)
    requires a < b || (a == b && p.pool[order[i]].cpv < p.pool[order[j]].cpv)
    ensures i < j || order[i] == order[j]
  {
  }

  /** The same with the moments given, for what is done (`order`) and what is queued behind it. */
  ghost predicate Slotted(p: Provider, g: Graph, order: seq<nat>, all: seq<nat>, slots: seq<nat>) {
    && |slots| == |all|
    && (forall i: nat :: i < |all| ==> FreedAt(g, order, all[i], slots[i]))
    && forall i: nat, j: nat :: i < j < |all| ==>
         slots[i] < slots[j] || (slots[i] == slots[j] && Cpv(p, all[i]) <= Cpv(p, all[j]))
  }

  lemma FreedOnce(g: Graph, order: seq<nat>, v: nat, a: nat, b: nat)
    requires Distinct(order) && FreedAt(g, order, v, a) && FreedAt(g, order, v, b)
    ensures a == b
  {
  }

  lemma SlottedIsFifo(p: Provider, g: Graph, order: seq<nat>, slots: seq<nat>)
    requires Distinct(order) && Slotted(p, g, order, order, slots)
    ensures Fifo(p, g, order)
  {
    forall i: nat, j: nat, a: nat, b: nat
      | i < j < |order| && FreedAt(g, order, order[i], a) && FreedAt(g, order, order[j], b)
      ensures a < b || (a == b && Cpv(p, order[i]) <= Cpv(p, order[j]))
    {
      FreedOnce(g, order, order[i], a, slots[i]);
      FreedOnce(g, order, order[j], b, slots[j]);
    }
  }

  function Stamps(k: nat, n: nat): (s: seq<nat>)
    ensures |s| == n && forall i :: 0 <= i < n ==> s[i] == k
  {
    seq(n, _ => k)
  }

  lemma SlottedGrows(p: Provider, g: Graph, order: seq<nat>, all: seq<nat>, slots: seq<nat>, u: nat, next: seq<nat>)
    requires Slotted(p, g, order, all, slots)
    requires forall v :: v in next ==> FreedAt(g, order + [u], v, |order| + 1)
    requires SortedBy(next, (a: nat, b: nat) => Cpv(p, a) <= Cpv(p, b))
    ensures Slotted(p, g, order + [u], all + next, slots + Stamps(|order| + 1, |next|))
  {
    forall i: nat | i < |all|
      ensures FreedAt(g, order + [u], all[i], slots[i])
    {
      assert FreedAt(g, order, all[i], slots[i]);
      assert (order + [u])[..slots[i]] == order[..slots[i]];
    }
    var all', slots' := all + next, slots + Stamps(|order| + 1, |next|);
    forall i: nat | i < |all'|
      ensures FreedAt(g, order + [u], all'[i], slots'[i])
      ensures i < |all| ==> slots'[i] <= |order|
    {
      if i < |all| {
        assert FreedAt(g, order, all[i], slots[i]) && FreedAt(g, order + [u], all[i], slots[i]);
      } else {
        assert all'[i] == next[i - |all|] && all'[i] in next;
      }
    }
    forall i: nat, j: nat | i < j < |all'|
      ensures slots'[i] < slots'[j] || (slots'[i] == slots'[j] && Cpv(p, all'[i]) <= Cpv(p, all'[j]))
    {
      if i >= |all| {
        assert all'[i] == next[i - |all|] && all'[j] == next[j - |all|];
      }
    }
  }

  ghost predicate Isolated(g: Graph, skipped: seq<nat>) {
    forall s, v :: s in skipped ==> !Edge(g, s, v) && !Edge(g, v, s)
  }

  /** Solvables outside the solution count as done from the start. */
  lemma SkippedStart(g: Graph, skipped: seq<nat>, indeg: seq<nat>, ready: set<nat>)
    requires Counted(g, indeg) && Distinct(skipped) && Isolated(g, skipped)
    requires forall v :: v in skipped ==> v < |g|
    requires forall v: nat :: v in ready <==> v < |g| && v !in skipped && indeg[v] == 0
    ensures Progress(g, skipped, indeg, ready)
  {
    forall v: nat | v < |g|
      ensures Pending(g, Elems(skipped), v, |g|) == Pending(g, {}, v, |g|)
    {
      PendingIsolated(g, Elems(skipped), v, |g|);
    }
  }

  lemma {:induction false} PendingIsolated(g: Graph, done: set<nat>, v: nat, n: nat)
    requires n <= |g| && forall s :: s in done ==> !Edge(g, s, v)
    ensures Pending(g, done, v, n) == Pending(g, {}, v, n)
  {
    if n > 0 {
      PendingIsolated(g, done, v, n - 1);
      assert n - 1 in done ==> !Edge(g, n - 1, v);
    }
  }

  /** The state of the loop: solvables outside the solution stand before `order` as already done. */
  ghost predicate Working(p: Provider, g: Graph, skipped: seq<nat>, order: seq<nat>, queue: seq<nat>, indeg: seq<nat>,
                          slots: seq<nat>) {
    && Isolated(g, skipped) && Progress(g, skipped + order, indeg, Elems(queue)) && Distinct(queue)
    && Slotted(p, g, order, order + queue, slots)
  }

  lemma Advance(p: Provider, g: Graph, skipped: seq<nat>, order: seq<nat>, queue: seq<nat>, indeg: seq<nat>,
                slots: seq<nat>, indeg': seq<nat>, freed: seq<nat>, next: seq<nat>)
    requires Working(p, g, skipped, order, queue, indeg, slots) && queue != []
    requires queue[0] < |g| && Released(indeg, indeg', g[queue[0]], freed) && multiset(next) == multiset(freed)
    requires SortedBy(next, (a: nat, b: nat) => Cpv(p, a) <= Cpv(p, b))
    ensures Working(p, g, skipped, order + [queue[0]], queue[1..] + next, indeg',
                    slots + Stamps(|order| + 1, |next|))
  {
    hide Progress, Slotted, FreedAt, Isolated, SortedBy;
    var u := queue[0];
    var ready := Elems(queue);
    assert u in ready;
    Emit(g, skipped + order, indeg, ready, u, indeg', freed);
    assert skipped + order + [u] == skipped + (order + [u]);
    SameMembers(next, freed);
    forall v | v in next
      ensures v in freed && v !in queue
    {
      assert v in Elems(next) && (v in queue ==> v in ready);
    }
    QueueMembers(queue, next);
    forall v | v in next
      ensures FreedAt(g, order + [u], v, |order| + 1)
    {
      NewlyFree(g, skipped, order, u, indeg', (ready - {u}) + Elems(freed), v);
    }
    SlottedGrows(p, g, order, order + queue, slots, u, next);
    assert order + queue + next == (order + [u]) + (queue[1..] + next);
  }

  lemma NewlyFree(g: Graph, skipped: seq<nat>, order: seq<nat>, u: nat, indeg: seq<nat>, ready: set<nat>, v: nat)
    requires Isolated(g, skipped) && Progress(g, skipped + (order + [u]), indeg, ready)
    requires v in ready && Edge(g, u, v)
    ensures FreedAt(g, order + [u], v, |order| + 1)
  {
    ReadyIsAvailable(g, skipped + (order + [u]), indeg, ready, v);
    assert (order + [u])[..|order|+1] == order + [u];
  }

  lemma SameMembers(a: seq<nat>, b: seq<nat>)
    requires multiset(a) == multiset(b) && Distinct(b)
    ensures Distinct(a) && Elems(a) == Elems(b)
  {
    forall i, j | 0 <= i < j < |a|
      ensures a[i] != a[j]
    {
      CountsOnce(b, a[i]);
      CountsTwice(a, i, j);
    }
    forall x: nat
      ensures x in a <==> x in b
    {
      assert x in a <==> multiset(a)[x] > 0;
      assert x in b <==> multiset(b)[x] > 0;
    }
  }

  lemma CountsTwice(xs: seq<nat>, i: nat, j: nat)
    requires i < j < |xs|
    ensures xs[i] == xs[j] ==> multiset(xs)[xs[i]] >= 2
  {
    assert xs == xs[..j] + [xs[j]] + xs[j+1..];
    assert xs[..j][i] == xs[i];
    assert multiset(xs[..j])[xs[i]] > 0;
  }

  lemma QueueMembers(queue: seq<nat>, next: seq<nat>)
    requires queue != [] && Distinct(queue) && Distinct(next)
    requires forall v :: v in next ==> v !in queue
    ensures Distinct(queue[1..] + next)
    ensures Elems(queue[1..] + next) == (Elems(queue) - {queue[0]}) + Elems(next)
  {
    var r := queue[1..] + next;
    forall v
      ensures v in r <==> (v in queue && v != queue[0]) || v in next
    {
      assert queue == [queue[0]] + queue[1..];
    }
    forall i, j | 0 <= i < j < |r|
      ensures r[i] != r[j]
    {
      var m := |queue| - 1;
      assert if i < m then r[i] == queue[i+1] else r[i] == next[i-m];
      assert if j < m then r[j] == queue[j+1] else r[j] == next[j-m] && next[j-m] in next;
    }
  }

  /**
   * The order, or the solvables that cannot be ordered, in the solution's own
   * sequence. A solution that lists a solvable twice never gets an order.
   */
  method InstallOrder(p: Provider, solution: seq<nat>) returns (r: Outcome, ghost g: Graph)
    requires InPool(p, solution)
    ensures Represents(g, p, solution)
    ensures r.Ok? <==> Distinct(solution) && Acyclic(g)
    ensures r.Ok? ==> Distinct(r.order) && |r.order| == |solution| && Elems(r.order) == Elems(solution)
    ensures r.Ok? ==> Sound(p, solution, r.order) && Fifo(p, g, r.order)
    ensures r.Cyclic? ==> r.members == Members(solution, Stuck(g, solution))
  {
    hide Progress, Slotted, Working, Isolated, Distinct, Released, Descends, Acyclic, Sound, Fifo, Skips, Pending, Counted;
    var n := |p.pool|;
    var edges := DependencyGraph(p, solution);
    var adj, indeg := BuildAdjacency(edges, n);
    g := adj;
    Hardened(p, solution, edges);
    ghost var skipped := Outside(solution, n);
    OutsideIsolated(p, g, solution, skipped);
    var zero := Drained(set v | v in solution && indeg[v] == 0);
    var le := (a: nat, b: nat) => Cpv(p, a) <= Cpv(p, b);
    SortBySorted(zero, le);
    SameMembers(SortBy(zero, le), zero);
    var order: seq<nat>, queue := [], SortBy(zero, le);
    ghost var slots: seq<nat> := Stamps(0, |queue|);
    Begin(p, g, solution, skipped, queue, indeg[..]);
    while queue != []
      invariant indeg.Length == n && Working(p, g, skipped, order, queue, indeg[..], slots)
      decreases n - |order|
    {
      var node := queue[0];
      ghost var before := indeg[..];
      CanRelease(p, g, skipped, order, queue, before, slots);
      var freed := Release(adj[node], indeg);
      var next := SortBy(freed, le);
      SortBySorted(freed, le);
      Advance(p, g, skipped, order, queue, before, slots, indeg[..], freed, next);
      slots := slots + Stamps(|order| + 1, |next|);
      order := order + [node];
      queue := queue[1..] + next;
    }
    Finished(p, g, solution, skipped, order, indeg[..], slots);
    if |order| == |solution| {
      r := Ok(order);
    } else {
      var members := Unordered(solution, order);
      MembersSame(solution, (set v | v in solution && v !in order), Stuck(g, solution));
      r := Cyclic(members);
    }
  }

  /** The rest of the pool, as a list. */
  function Outside(solution: seq<nat>, n: nat): (skipped: seq<nat>)
    ensures Skips(skipped, solution, n)
  {
    if n == 0 then [] else Outside(solution, n - 1) + if n - 1 in solution then [] else [n - 1]
  }

  lemma OutsideIsolated(p: Provider, g: Graph, solution: seq<nat>, skipped: seq<nat>)
    requires InPool(p, solution) && Represents(g, p, solution) && Skips(skipped, solution, |p.pool|)
    ensures Isolated(g, skipped)
  {
  }

  lemma Begin(p: Provider, g: Graph, solution: seq<nat>, skipped: seq<nat>, queue: seq<nat>, indeg: seq<nat>)
    requires InPool(p, solution) && Represents(g, p, solution) && Counted(g, indeg)
    requires Skips(skipped, solution, |p.pool|) && Isolated(g, skipped)
    requires Distinct(queue) && Elems(queue) == set v | v in solution && indeg[v] == 0
    requires SortedBy(queue, (a: nat, b: nat) => Cpv(p, a) <= Cpv(p, b))
    ensures Working(p, g, skipped, [], queue, indeg, Stamps(0, |queue|))
  {
    forall v: nat
      ensures v in Elems(queue) <==> v < |g| && v !in skipped && indeg[v] == 0
    {
    }
    SkippedStart(g, skipped, indeg, Elems(queue));
    assert skipped + [] == skipped;
    BeginSlots(p, g, queue, indeg);
  }

  lemma BeginSlots(p: Provider, g: Graph, queue: seq<nat>, indeg: seq<nat>)
    requires Counted(g, indeg) && WellFormed(g)
    requires forall v :: v in Elems(queue) ==> v < |g| && indeg[v] == 0
    requires SortedBy(queue, (a: nat, b: nat) => Cpv(p, a) <= Cpv(p, b))
    ensures Slotted(p, g, [], [] + queue, Stamps(0, |queue|))
  {
    assert [] + queue == queue;
    forall i: nat | i < |queue|
      ensures FreedAt(g, [], queue[i], 0)
    {
      assert queue[i] in Elems(queue);
      PendingZero(g, {}, queue[i], |g|);
    }
  }

  lemma CanRelease(p: Provider, g: Graph, skipped: seq<nat>, order: seq<nat>, queue: seq<nat>, indeg: seq<nat>,
                   slots: seq<nat>)
    requires Working(p, g, skipped, order, queue, indeg, slots) && queue != []
    ensures queue[0] < |g| && |order| < |g|
    ensures forall v: nat :: v < |g| ==> multiset(g[queue[0]])[v] <= indeg[v]
  {
    var u := queue[0];
    assert u in Elems(queue);
    forall v: nat | v < |g|
      ensures multiset(g[u])[v] <= indeg[v]
    {
      PendingCovers(g, Elems(skipped + order), u, v);
    }
    AllEmitted(skipped + order + [u], |g|);
  }

  /** What is left out of `order` when the queue runs dry. */
  lemma Finished(p: Provider, g: Graph, solution: seq<nat>, skipped: seq<nat>, order: seq<nat>, indeg: seq<nat>,
                 slots: seq<nat>)
    requires InPool(p, solution) && Represents(g, p, solution) && Skips(skipped, solution, |p.pool|)
    requires Working(p, g, skipped, order, [], indeg, slots)
    ensures Distinct(order) && Sound(p, solution, order) && Fifo(p, g, order)
    ensures forall v: nat :: v in order <==> v in solution && !Descends(g, v)
    ensures |order| == |solution| <==> Distinct(solution) && Acyclic(g)
    ensures |order| == |solution| ==> Elems(order) == Elems(solution)
  {
    var full := skipped + order;
    assert order + [] == order;
    assert Elems([]) == {};
    Stalled(g, full, indeg);
    TailDistinct(skipped, order);
    SlottedIsFifo(p, g, order, slots);
    TailSound(p, g, solution, skipped, order);
    forall v: nat
      ensures v in order <==> v in solution && !Descends(g, v)
    {
      assert v in full <==> v in skipped || v in order;
      if v in order { TailDisjoint(skipped, order, v); }
    }
    SizeVerdict(p, g, solution, order);
  }

  lemma TailDistinct(a: seq<nat>, b: seq<nat>)
    requires Distinct(a + b)
    ensures Distinct(b)
  {
    forall i, j | 0 <= i < j < |b|
      ensures b[i] != b[j]
    {
      assert (a + b)[|a| + i] == b[i] && (a + b)[|a| + j] == b[j];
    }
  }

  lemma TailDisjoint(a: seq<nat>, b: seq<nat>, v: nat)
    requires Distinct(a + b) && v in b
    ensures v !in a
  {
    var j :| 0 <= j < |b| && b[j] == v;
    assert (a + b)[|a| + j] == v;
    forall i | 0 <= i < |a|
      ensures a[i] != v
    {
      assert (a + b)[i] == a[i];
    }
  }

  lemma TailSound(p: Provider, g: Graph, solution: seq<nat>, skipped: seq<nat>, order: seq<nat>)
    requires InPool(p, solution) && Represents(g, p, solution)
    requires Isolated(g, skipped) && PredsBefore(g, skipped + order)
    ensures Sound(p, solution, order)
  {
    var full := skipped + order;
    forall j: nat, u: nat | j < |order| && WaitsFor(p, solution, order[j], u)
      ensures u in order[..j]
    {
      assert full[|skipped| + j] == order[j];
      assert Edge(g, u, full[|skipped| + j]);
      assert full[..|skipped| + j] == skipped + order[..j];
    }
  }

  lemma {:induction false} DistinctIffSize(xs: seq<nat>)
    ensures |Elems(xs)| <= |xs| && (|Elems(xs)| == |xs| <==> Distinct(xs))
  {
    if xs != [] {
      var ys, x := xs[..|xs|-1], xs[|xs|-1];
      DistinctIffSize(ys);
      assert Elems(xs) == Elems(ys) + {x};
      DistinctSplit(ys, x);
      assert xs == ys + [x];
      if x in ys {
        assert Elems(xs) == Elems(ys);
      }
    }
  }

  lemma DistinctSplit(ys: seq<nat>, x: nat)
    ensures Distinct(ys + [x]) <==> Distinct(ys) && x !in ys
  {
    var xs := ys + [x];
    if Distinct(xs) {
      assert xs[|ys|] == x;
      assert forall i :: 0 <= i < |ys| ==> xs[i] == ys[i] && xs[i] != xs[|ys|];
    }
  }

  lemma SizeVerdict(p: Provider, g: Graph, solution: seq<nat>, order: seq<nat>)
    requires InPool(p, solution) && Represents(g, p, solution) && Distinct(order)
    requires forall v: nat :: v in order <==> v in solution && !Descends(g, v)
    ensures |order| == |solution| <==> Distinct(solution) && Acyclic(g)
    ensures |order| == |solution| ==> Elems(order) == Elems(solution)
  {
    DistinctIffSize(order);
    DistinctIffSize(solution);
    SubsetEqual(Elems(order), Elems(solution));
    forall c: nat | OnCycle(g, c)
      ensures c in Elems(solution) && c !in Elems(order)
    {
      CycleStuck(p, g, solution, c);
    }
  }

  lemma CycleStuck(p: Provider, g: Graph, solution: seq<nat>, c: nat)
    requires InPool(p, solution) && Represents(g, p, solution) && OnCycle(g, c)
    ensures c in solution && Descends(g, c)
  {
    ReachRefl(g, c);
    var d :| Edge(g, c, d) && Reach(g, d, c);
    assert WaitsFor(p, solution, d, c);
  }

  method Unordered(solution: seq<nat>, order: seq<nat>) returns (members: seq<nat>)
    ensures members == Members(solution, set v | v in solution && v !in order)
  {
    ghost var left := set v | v in solution && v !in order;
    members := [];
    for i := 0 to |solution|
      invariant members == Members(solution[..i], left)
    {
      assert solution[..i+1][..i] == solution[..i];
      if solution[i] !in order {
        members := members + [solution[i]];
      }
    }
    assert solution[..|solution|] == solution;
  }

  lemma MembersSame(xs: seq<nat>, a: set<nat>, b: set<nat>)
    requires forall v: nat :: v in a <==> v in b
    ensures Members(xs, a) == Members(xs, b)
  {
  }

  /** With distinct cpvs the queue discipline leaves one order only, whatever order the hash maps are walked in. */
  lemma FifoUnique(p: Provider, g: Graph, x: seq<nat>, y: seq<nat>)
    requires Distinct(x) && Distinct(y) && Elems(x) == Elems(y)
    requires PredsBefore(g, x) && PredsBefore(g, y) && Fifo(p, g, x) && Fifo(p, g, y)
    requires forall v, w :: v in x && w in x && Cpv(p, v) == Cpv(p, w) ==> v == w
    ensures x == y
  {
    DistinctSize(x);
    DistinctSize(y);
    SamePrefix(p, g, x, y, |x|);
    assert x[..|x|] == x && y[..|x|] == y;
  }

  lemma {:induction false} SamePrefix(p: Provider, g: Graph, x: seq<nat>, y: seq<nat>, k: nat)
    requires Distinct(x) && Distinct(y) && Elems(x) == Elems(y) && |x| == |y| && k <= |x|
    requires PredsBefore(g, x) && PredsBefore(g, y) && Fifo(p, g, x) && Fifo(p, g, y)
    requires forall v, w :: v in x && w in x && Cpv(p, v) == Cpv(p, w) ==> v == w
    ensures x[..k] == y[..k]
  {
    if k > 0 {
      var i := k - 1;
      SamePrefix(p, g, x, y, i);
      var a := Moment(g, x, i, y);
      var b := Moment(g, y, i, x);
      var jx := Place(x, y, i);
      var jy := Place(y, x, i);
      FifoAt(p, g, x, i, jx, a, b);
      FifoAt(p, g, y, i, jy, b, a);
      assert x[i] in x && x[jx] in x;
      assert x[..k] == x[..i] + [x[i]] && y[..k] == y[..i] + [y[i]];
    }
  }

  lemma Place(x: seq<nat>, y: seq<nat>, i: nat) returns (j: nat)
    requires i < |x| == |y| && x[..i] == y[..i] && Distinct(y) && Elems(x) == Elems(y)
    ensures i <= j < |x| && x[j] == y[i]
  {
    assert y[i] in Elems(x);
    j :| 0 <= j < |x| && x[j] == y[i];
    forall m: nat | m < i
      ensures x[m] == y[m]
    {
      assert x[m] == x[..i][m] && y[m] == y[..i][m];
    }
  }

  lemma FifoAt(p: Provider, g: Graph, x: seq<nat>, i: nat, j: nat, a: nat, b: nat)
    requires Distinct(x) && Fifo(p, g, x) && i <= j < |x|
    requires FreedAt(g, x, x[i], a) && FreedAt(g, x, x[j], b)
    ensures a < b || (a == b && Cpv(p, x[i]) <= Cpv(p, x[j]))
  {
  }

  /** When `x[i]` was freed; the same moment in any order that agrees before `i`. */
  lemma Moment(g: Graph, x: seq<nat>, i: nat, y: seq<nat>) returns (k: nat)
    requires i < |x| && i < |y| && x[..i] == y[..i] && PredsBefore(g, x)
    ensures FreedAt(g, x, x[i], k) && FreedAt(g, y, x[i], k)
  {
    k := i;
    while k > 0 && !Edge(g, x[k-1], x[i])
      invariant k <= i && forall u :: Edge(g, u, x[i]) ==> u in x[..k]
    {
      assert x[..k] == x[..k-1] + [x[k-1]];
      k := k - 1;
    }
    assert x[..k] == x[..i][..k] && y[..k] == y[..i][..k];
    if k > 0 {
      assert x[k-1] == x[..i][k-1] && y[k-1] == y[..i][k-1];
    }
  }

  lemma Hardened(p: Provider, solution: seq<nat>, edges: seq<DepEdge>)
    requires InPool(p, solution)
    requires forall e: DepEdge :: e in edges <==> Labelled(p, solution, e)
    ensures forall u: nat, v: nat :: Hardens(edges, u, v) <==> WaitsFor(p, solution, v, u)
  {
  }
}
