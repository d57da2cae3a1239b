/** The install order is settled by the edges and distinct keys, not by the order in which anything is walked. */
module OrderUnique {
  import opened Dependencies
  import opened Digraph
  import opened Kahn
  import opened Sorting
  import opened Tarjan
  import opened CycleOrder
  import opened PassOne
  import opened Repair
  import opened InstallOrder

  // ---------- graphs with the same edges ----------

  ghost predicate SameEdges(g: Graph, h: Graph) {
    |g| == |h| && forall u: nat, v: nat :: Edge(g, u, v) <==> Edge(h, u, v)
  }

  lemma SameReach(g: Graph, h: Graph, u: nat, v: nat)
    requires SameEdges(g, h)
    ensures Reach(g, u, v) <==> Reach(h, u, v)
  {
    if Reach(g, u, v) {
      var p :| WalkFromTo(g, p, u, v);
      assert WalkFromTo(h, p, u, v);
    }
    if Reach(h, u, v) {
      var p :| WalkFromTo(h, p, u, v);
      assert WalkFromTo(g, p, u, v);
    }
  }

  lemma {:induction false} SameCount(g: Graph, h: Graph, from: set<nat>, v: nat, n: nat)
    requires SameEdges(g, h) && EachOnce(g) && EachOnce(h) && n <= |g|
    ensures CountFrom(g, from, v, n) == CountFrom(h, from, v, n)
  {
    if n > 0 {
      SameCount(g, h, from, v, n - 1);
      CountsOnce(g[n-1], v);
      CountsOnce(h[n-1], v);
      assert Edge(g, n - 1, v) <==> Edge(h, n - 1, v);
      assert v in g[n-1] <==> multiset(g[n-1])[v] > 0;
      assert v in h[n-1] <==> multiset(h[n-1])[v] > 0;
    }
  }

  // ---------- reachability inside a set of nodes ----------

  ghost predicate WalkInside(g: Graph, s: set<nat>, p: seq<nat>, u: nat, v: nat) {
    WalkFromTo(g, p, u, v) && forall i :: 0 <= i < |p| ==> p[i] in s
  }

  ghost predicate ReachInside(g: Graph, s: set<nat>, u: nat, v: nat) {
    exists p :: WalkInside(g, s, p, u, v)
  }

  ghost function Place(members: seq<nat>, m: nat): (i: nat)
    requires m in members
    ensures i < |members| && members[i] == m
  {
    var i: nat :| i < |members| && members[i] == m;
    i
  }

  ghost function Places(members: seq<nat>, q: seq<nat>): (p: seq<nat>)
    requires forall k :: 0 <= k < |q| ==> q[k] in members
    ensures |p| == |q| && forall k :: 0 <= k < |p| ==> p[k] < |members| && members[p[k]] == q[k]
  {
    if q == [] then []
    else
      Places(members, q[..|q|-1]) + [Place(members, q[|q|-1])]
  }

  /** Reachability in the induced graph is reachability inside the members. */
  lemma InducedInside(g: Graph, members: seq<nat>, sub: Graph, i: nat, j: nat)
    requires Induced(g, members, sub) && Distinct(members) && i < |members| && j < |members|
    ensures Reach(sub, i, j) <==> ReachInside(g, Elems(members), members[i], members[j])
  {
    if Reach(sub, i, j) {
      var p :| WalkFromTo(sub, p, i, j);
      InducedWalk(g, members, sub, p, i, j);
    }
    if ReachInside(g, Elems(members), members[i], members[j]) {
      var q :| WalkInside(g, Elems(members), q, members[i], members[j]);
      var p := Places(members, q);
      forall k | 0 <= k < |p| - 1
        ensures Edge(sub, p[k], p[k+1])
      {
        assert Edge(g, q[k], q[k+1]);
      }
      assert p[0] == i && p[|p|-1] == j;
      assert WalkFromTo(sub, p, i, j);
    }
  }

  lemma InducedWalk(g: Graph, members: seq<nat>, sub: Graph, p: seq<nat>, i: nat, j: nat)
    requires Induced(g, members, sub) && WalkFromTo(sub, p, i, j) && i < |members| && j < |members|
    ensures ReachInside(g, Elems(members), members[i], members[j])
  {
    forall k | 0 <= k < |p|
      ensures p[k] < |members|
    {
      assert k < |p| - 1 ==> Edge(sub, p[k], p[k+1]);
    }
    var q := seq(|p|, k requires 0 <= k < |p| => members[p[k]]);
    forall k | 0 <= k < |q| - 1
      ensures Edge(g, q[k], q[k+1])
    {
      assert Edge(sub, p[k], p[k+1]);
    }
    assert WalkInside(g, Elems(members), q, members[i], members[j]);
  }

  lemma SameInside(g: Graph, h: Graph, s: set<nat>, u: nat, v: nat)
    requires SameEdges(g, h) && ReachInside(g, s, u, v)
    ensures ReachInside(h, s, u, v)
  {
    var p :| WalkInside(g, s, p, u, v);
    assert WalkInside(h, s, p, u, v);
  }

  /** Members share a group exactly if they reach each other inside the members. */
  lemma GroupInside(hard: Graph, members: seq<nat>, group: map<nat, nat>, u: nat, v: nat)
    requires Grouping(hard, members, group) && Distinct(members) && u in members && v in members
    ensures u in group && v in group
    ensures group[u] == group[v] <==>
              ReachInside(hard, Elems(members), u, v) && ReachInside(hard, Elems(members), v, u)
  {
    var sub :| Induced(hard, members, sub) && GroupsBy(members, sub, group);
    var i, j := Place(members, u), Place(members, v);
    InducedInside(hard, members, sub, i, j);
    InducedInside(hard, members, sub, j, i);
  }

  // ---------- one cycle ----------

  /** Two runs over the same edges and members: graphs, member lists and groups may differ in how they are listed. */
  ghost predicate SameCycle(hard: Graph, members: seq<nat>, group: map<nat, nat>,
                            hard': Graph, members': seq<nat>, group': map<nat, nat>) {
    && SameEdges(hard, hard') && EachOnce(hard) && EachOnce(hard')
    && Distinct(members) && Distinct(members') && Elems(members) == Elems(members')
    && Grouping(hard, members, group) && Grouping(hard', members', group')
  }

  lemma SameGroups(hard: Graph, members: seq<nat>, group: map<nat, nat>,
                   hard': Graph, members': seq<nat>, group': map<nat, nat>, u: nat, v: nat)
    requires SameCycle(hard, members, group, hard', members', group') && u in members && v in members
    ensures u in group && v in group && u in group' && v in group'
    ensures group[u] == group[v] <==> group'[u] == group'[v]
  {
    assert u in Elems(members') && v in Elems(members');
    GroupInside(hard, members, group, u, v);
    GroupInside(hard', members', group', u, v);
    hide ReachInside;
    if ReachInside(hard, Elems(members), u, v) { SameInside(hard, hard', Elems(members), u, v); }
    if ReachInside(hard, Elems(members), v, u) { SameInside(hard, hard', Elems(members), v, u); }
    if ReachInside(hard', Elems(members), u, v) { SameInside(hard', hard, Elems(members), u, v); }
    if ReachInside(hard', Elems(members), v, u) { SameInside(hard', hard, Elems(members), v, u); }
  }

  /** Two groupings of the same members give the same cross edges. */
  lemma SameCross(hard: Graph, members: seq<nat>, group: map<nat, nat>,
                  hard': Graph, members': seq<nat>, group': map<nat, nat>)
    requires SameCycle(hard, members, group, hard', members', group')
    ensures SameEdges(CrossGraph(hard, group), CrossGraph(hard', group'))
  {
    forall u: nat, v: nat
      ensures Edge(CrossGraph(hard, group), u, v) <==> Edge(CrossGraph(hard', group'), u, v)
    {
      assert u in members <==> u in Elems(members);
      assert v in members <==> v in Elems(members);
      assert Edge(hard, u, v) <==> Edge(hard', u, v);
      if u in members && v in members {
        SameGroups(hard, members, group, hard', members', group', u, v);
      }
    }
  }

  lemma SameRank(hard: Graph, all: Graph, members: seq<nat>, group: map<nat, nat>,
                 hard': Graph, all': Graph, members': seq<nat>, group': map<nat, nat>,
                 keys: seq<int>, remaining: set<nat>, m: nat)
    requires SameCycle(hard, members, group, hard', members', group')
    requires SameEdges(all, all') && EachOnce(all) && EachOnce(all') && m < |keys|
    ensures RankAt(hard, all, group, keys, remaining, m) == RankAt(hard', all', group', keys, remaining, m)
  {
    SameCross(hard, members, group, hard', members', group');
    SameCount(hard, hard', remaining, m, |hard|);
    SameCount(all, all', remaining, m, |all|);
    CountFromZero(CrossGraph(hard, group), remaining, m, |hard|);
    CountFromZero(CrossGraph(hard', group'), remaining, m, |hard|);
  }

  lemma SameUnbeaten(hard: Graph, all: Graph, members: seq<nat>, group: map<nat, nat>,
                     hard': Graph, all': Graph, members': seq<nat>, group': map<nat, nat>,
                     keys: seq<int>, remaining: set<nat>, pick: nat)
    requires SameCycle(hard, members, group, hard', members', group')
    requires SameEdges(all, all') && EachOnce(all) && EachOnce(all')
    requires Unbeaten(hard', all', group', keys, remaining, pick)
    ensures Unbeaten(hard, all, group, keys, remaining, pick)
  {
    forall m: nat | m < |keys|
      ensures RankAt(hard, all, group, keys, remaining, m) == RankAt(hard', all', group', keys, remaining, m)
    {
      SameRank(hard, all, members, group, hard', all', members', group', keys, remaining, m);
    }
    hide RankAt, SameCycle, SameEdges, EachOnce, Beats;
  }

  /** With distinct keys a cycle has one greedy order. */
  lemma CycleUnique(hard: Graph, all: Graph, members: seq<nat>, group: map<nat, nat>,
                    hard': Graph, all': Graph, members': seq<nat>, group': map<nat, nat>,
                    keys: seq<int>, out: seq<nat>, out': seq<nat>)
    requires SameCycle(hard, members, group, hard', members', group')
    requires SameEdges(all, all') && EachOnce(all) && EachOnce(all') && AllBelow(members, |keys|)
    requires forall m, k :: m in members && k in members && keys[m] == keys[k] ==> m == k
    requires Greedy(hard, all, group, keys, out) && Greedy(hard', all', group', keys, out') && |out| == |out'|
    ensures out == out'
  {
    SameKeys(hard, members, group, hard', members', group');
    hide Unbeaten, SameEdges, EachOnce;
    forall j: nat | j < |out'|
      ensures Unbeaten(hard, all, group, keys, group.Keys - Elems(out'[..j]), out'[j])
    {
      SameUnbeaten(hard, all, members, group, hard', all', members', group', keys, group.Keys - Elems(out'[..j]), out'[j]);
    }
    GreedyUnique(hard, all, group, keys, out, out');
  }

  lemma SameKeys(hard: Graph, members: seq<nat>, group: map<nat, nat>,
                 hard': Graph, members': seq<nat>, group': map<nat, nat>)
    requires SameCycle(hard, members, group, hard', members', group')
    ensures group.Keys == group'.Keys && forall m :: m in group <==> m in members
  {
    assert forall m :: m in group <==> m in Elems(members);
  }

  // ---------- the components in order ----------

  /** Two runs of pass 1 over graphs with the same edges. */
  ghost predicate SameRuns(all: Graph, hard: Graph, s: Schedule, all': Graph, hard': Graph, s': Schedule) {
    && SameEdges(all, all') && SameEdges(hard, hard') && |all| == |hard|
    && EachOnce(all) && EachOnce(all') && EachOnce(hard) && EachOnce(hard')
    && Condensed(all, s) && Condensed(all', s')
  }

  /** The two components hold the same nodes. */
  ghost predicate SameNodes(s: Schedule, c: nat, s': Schedule, c': nat) {
    c < |s.members| && c' < |s'.members| && Elems(s.members[c]) == Elems(s'.members[c'])
  }

  lemma SameComponent(all: Graph, hard: Graph, s: Schedule, all': Graph, hard': Graph, s': Schedule, v: nat)
    requires SameRuns(all, hard, s, all', hard', s') && v < |all|
    ensures v < |s.comp| && v < |s'.comp| && SameNodes(s, s.comp[v], s', s'.comp[v])
  {
    forall w: nat
      ensures w in s.members[s.comp[v]] <==> w in s'.members[s'.comp[v]]
    {
      SameReach(all, all', v, w);
      SameReach(all, all', w, v);
      if w < |all| {
        assert s.comp[v] == s.comp[w] <==> MutuallyReachable(all, v, w);
        assert s'.comp[v] == s'.comp[w] <==> MutuallyReachable(all', v, w);
      }
    }
  }

  /** A component shares its nodes with one component of the other run only. */
  lemma NodesTell(all: Graph, s: Schedule, c: nat, d: nat, v: nat)
    requires Condensed(all, s) && c < |s.members| && d < |s.members| && v in s.members[c] && v in s.members[d]
    ensures c == d && v < |s.comp| && s.comp[v] == c
  {
  }

  /** The components emitted so far hold the same nodes in both runs. */
  ghost predicate Agreed(s: Schedule, s': Schedule, k: nat) {
    && k <= |s.compOrder| && k <= |s'.compOrder|
    && forall j: nat :: j < k ==> SameNodes(s, s.compOrder[j], s', s'.compOrder[j])
  }

  /** The other run's counterpart of the next component may come next there. */
  lemma CounterpartAvailable(all: Graph, hard: Graph, s: Schedule, all': Graph, hard': Graph, s': Schedule, k: nat, v: nat)
    requires SameRuns(all, hard, s, all', hard', s') && Agreed(s, s', k) && k < |s.compOrder|
    requires LinearExtension(s.succ, s.compOrder)
    requires s.compOrder[k] < |s.members| && v in s.members[s.compOrder[k]]
    ensures v < |s'.comp| && s'.comp[v] < |s'.members| && Available(s'.succ, s'.compOrder[..k], s'.comp[v])
    ensures SameNodes(s, s.compOrder[k], s', s'.comp[v])
  {
    var c := s.compOrder[k];
    NodesTell(all, s, c, c, v);
    SameComponent(all, hard, s, all', hard', s', v);
    var d := s'.comp[v];
    assert v in s'.members[d];
    forall j: nat | j < k
      ensures s'.compOrder[j] != d
    {
      if s'.compOrder[j] == d {
        AgreedAt(all, s, s', k, j, v);
      }
    }
    forall e | Edge(s'.succ, e, d)
      ensures e in s'.compOrder[..k]
    {
      CounterpartBefore(all, hard, s, all', hard', s', k, v, e);
    }
  }

  lemma AgreedAt(all: Graph, s: Schedule, s': Schedule, k: nat, j: nat, v: nat)
    requires Condensed(all, s) && Agreed(s, s', k) && j < k && s'.compOrder[j] < |s'.members| && v in s'.members[s'.compOrder[j]]
    ensures v < |s.comp| && s.compOrder[j] == s.comp[v]
  {
    assert SameNodes(s, s.compOrder[j], s', s'.compOrder[j]);
    assert v in Elems(s'.members[s'.compOrder[j]]);
    assert v in s.members[s.compOrder[j]];
  }

  lemma CounterpartBefore(all: Graph, hard: Graph, s: Schedule, all': Graph, hard': Graph, s': Schedule, k: nat, v: nat, e: nat)
    requires SameRuns(all, hard, s, all', hard', s') && Agreed(s, s', k) && k < |s.compOrder|
    requires LinearExtension(s.succ, s.compOrder)
    requires v < |s.comp| && v < |s'.comp| && s.comp[v] == s.compOrder[k] && Edge(s'.succ, e, s'.comp[v])
    ensures e in s'.compOrder[..k]
  {
    var d := s'.comp[v];
    assert CompEdge(all', s'.comp, e, d);
    var x: nat, y: nat :| CrossEdge(all', s'.comp, x, y, e, d);
    assert Edge(all, x, y);
    assert s'.comp[y] == s'.comp[v] && s'.comp[x] != s'.comp[v];
    assert MutuallyReachable(all', y, v) && !MutuallyReachable(all', x, v);
    SameReach(all, all', y, v);
    SameReach(all, all', v, y);
    SameReach(all, all', x, v);
    SameReach(all, all', v, x);
    assert s.comp[y] == s.comp[v] && s.comp[x] != s.comp[v];
    assert CrossEdge(all, s.comp, x, y, s.comp[x], s.comp[v]);
    assert Edge(s.succ, s.comp[x], s.compOrder[k]);
    assert s.comp[x] in s.compOrder[..k];
    var j: nat :| j < k && s.compOrder[..k][j] == s.comp[x];
    assert SameNodes(s, s.compOrder[j], s', s'.compOrder[j]);
    assert x in s.members[s.comp[x]] && x in Elems(s.members[s.compOrder[j]]);
    assert x in s'.members[s'.compOrder[j]];
    NodesTell(all', s', s'.compOrder[j], e, x);
    assert s'.compOrder[..k][j] == e;
  }

  lemma MaxSame(xs: seq<nat>, ys: seq<nat>)
    requires Elems(xs) == Elems(ys) && xs != []
    ensures MaxOf(xs) == MaxOf(ys)
  {
    assert MaxOf(xs) in Elems(xs);
    assert xs[0] in Elems(ys);
    assert MaxOf(ys) in Elems(ys);
  }

  /** The largest node tells components apart. */
  lemma KeyTells(all: Graph, s: Schedule, c: nat, d: nat)
    requires Condensed(all, s) && c < |s.members| && d < |s.members| && KeyOf(s.members, c) == KeyOf(s.members, d)
    ensures c == d
  {
    NodesTell(all, s, c, d, MaxOf(s.members[c]));
  }

  lemma CounterpartNotBetter(all: Graph, hard: Graph, s: Schedule, all': Graph, hard': Graph, s': Schedule, k: nat)
    requires SameRuns(all, hard, s, all', hard', s') && Agreed(s, s', k) && k < |s.compOrder| && k < |s'.compOrder|
    requires LinearExtension(s.succ, s.compOrder) && LinearExtension(s'.succ, s'.compOrder)
    requires BestFirst(s'.succ, s'.compOrder, (a: nat, b: nat) => HeapBefore(s'.members, a, b))
    ensures s.compOrder[k] < |s.members| && s'.compOrder[k] < |s'.members|
    ensures KeyOf(s.members, s.compOrder[k]) <= KeyOf(s'.members, s'.compOrder[k])
  {
    var c := s.compOrder[k];
    assert c in s.compOrder && s'.compOrder[k] in s'.compOrder;
    var v := s.members[c][0];
    CounterpartAvailable(all, hard, s, all', hard', s', k, v);
    hide Available, Condensed, LinearExtension, SameRuns;
    MaxSame(s.members[c], s'.members[s'.comp[v]]);
  }

  lemma AgreedFlips(s: Schedule, s': Schedule, k: nat)
    requires Agreed(s, s', k)
    ensures Agreed(s', s, k)
  {
  }

  lemma RunsFlip(all: Graph, hard: Graph, s: Schedule, all': Graph, hard': Graph, s': Schedule)
    requires SameRuns(all, hard, s, all', hard', s')
    ensures SameRuns(all', hard', s', all, hard, s)
  {
  }

  /** Both runs emit a component with the same nodes next. */
  lemma NextAgrees(all: Graph, hard: Graph, s: Schedule, all': Graph, hard': Graph, s': Schedule, k: nat)
    requires SameRuns(all, hard, s, all', hard', s') && Agreed(s, s', k) && k < |s.compOrder| && k < |s'.compOrder|
    requires LinearExtension(s.succ, s.compOrder) && LinearExtension(s'.succ, s'.compOrder)
    requires BestFirst(s.succ, s.compOrder, (a: nat, b: nat) => HeapBefore(s.members, a, b))
    requires BestFirst(s'.succ, s'.compOrder, (a: nat, b: nat) => HeapBefore(s'.members, a, b))
    ensures Agreed(s, s', k + 1)
  {
    AgreedFlips(s, s', k);
    RunsFlip(all, hard, s, all', hard', s');
    CounterpartNotBetter(all, hard, s, all', hard', s', k);
    CounterpartNotBetter(all', hard', s', all, hard, s, k);
    var c := s.compOrder[k];
    var v := Largest(all, s, c);
    CounterpartAvailable(all, hard, s, all', hard', s', k, v);
    MaxSame(s.members[c], s'.members[s'.comp[v]]);
    KeyTells(all', s', s'.comp[v], s'.compOrder[k]);
  }

  lemma Largest(all: Graph, s: Schedule, c: nat) returns (v: nat)
    requires Condensed(all, s) && c < |s.members|
    ensures v in s.members[c] && s.members[c] != []
  {
    v := s.members[c][0];
  }

  lemma AsLong(all: Graph, hard: Graph, s: Schedule, all': Graph, hard': Graph, s': Schedule, k: nat)
    requires SameRuns(all, hard, s, all', hard', s') && Agreed(s, s', k) && k < |s.compOrder|
    requires LinearExtension(s.succ, s.compOrder) && LinearExtension(s'.succ, s'.compOrder)
    ensures k < |s'.compOrder|
  {
    assert s.compOrder[k] in s.compOrder;
    var v := Largest(all, s, s.compOrder[k]);
    CounterpartAvailable(all, hard, s, all', hard', s', k, v);
    assert s'.comp[v] in s'.compOrder;
    var j :| 0 <= j < |s'.compOrder| && s'.compOrder[j] == s'.comp[v];
    forall m: nat | m < k
      ensures s'.compOrder[m] in s'.compOrder[..k]
    {
      assert s'.compOrder[..k][m] == s'.compOrder[m];
    }
  }

  lemma {:induction false} AllAgree(all: Graph, hard: Graph, s: Schedule, all': Graph, hard': Graph, s': Schedule, k: nat)
    requires SameRuns(all, hard, s, all', hard', s') && k <= |s.compOrder|
    requires LinearExtension(s.succ, s.compOrder) && LinearExtension(s'.succ, s'.compOrder)
    requires BestFirst(s.succ, s.compOrder, (a: nat, b: nat) => HeapBefore(s.members, a, b))
    requires BestFirst(s'.succ, s'.compOrder, (a: nat, b: nat) => HeapBefore(s'.members, a, b))
    ensures Agreed(s, s', k)
  {
    if k > 0 {
      AllAgree(all, hard, s, all', hard', s', k - 1);
      AsLong(all, hard, s, all', hard', s', k - 1);
      NextAgrees(all, hard, s, all', hard', s', k - 1);
    }
  }

  // ---------- the whole of pass 1 ----------

  lemma SameSize(xs: seq<nat>, ys: seq<nat>)
    requires Distinct(xs) && Distinct(ys) && Elems(xs) == Elems(ys)
    ensures |xs| == |ys| && (|xs| == 1 ==> xs == ys)
  {
    DistinctSize(xs);
    DistinctSize(ys);
    if |xs| == 1 {
      assert xs[0] in Elems(ys);
    }
  }

  /** Components with the same nodes are laid out alike. */
  lemma BlockUnique(hard: Graph, all: Graph, members: seq<nat>, block: seq<nat>, group: map<nat, nat>,
                    hard': Graph, all': Graph, members': seq<nat>, block': seq<nat>, group': map<nat, nat>, keys: seq<int>)
    requires SameEdges(hard, hard') && EachOnce(hard) && EachOnce(hard')
    requires SameEdges(all, all') && EachOnce(all) && EachOnce(all')
    requires Distinct(members) && Distinct(members') && Elems(members) == Elems(members') && AllBelow(members, |keys|)
    requires forall m, k :: 0 <= m < k < |keys| ==> keys[m] != keys[k]
    requires BlockRule(hard, all, keys, members, block, group) && BlockRule(hard', all', keys, members', block', group')
    ensures block == block'
  {
    SameSize(members, members');
    if |members| != 1 {
      assert SameCycle(hard, members, group, hard', members', group');
      assert forall i :: 0 <= i < |members| ==> members[i] < |keys|;
      hide SameEdges, EachOnce, Greedy, SameCycle, Grouping;
      CycleUnique(hard, all, members, group, hard', all', members', group', keys, block, block');
    }
  }

  lemma {:induction false} JoinedSame(a: seq<seq<nat>>, b: seq<seq<nat>>)
    requires |a| == |b| && forall k :: 0 <= k < |a| ==> a[k] == b[k]
    ensures Joined(a) == Joined(b)
  {
    assert a == b;
  }

  /** With distinct keys pass 1 has one result for given edges, whatever is walked in which order. */
  lemma PassOneUnique(all: Graph, hard: Graph, s: Schedule, order: seq<nat>,
                      all': Graph, hard': Graph, s': Schedule, order': seq<nat>, keys: seq<int>)
    requires SameEdges(all, all') && SameEdges(hard, hard') && |all| == |hard| == |keys|
    requires EachOnce(all) && EachOnce(all') && EachOnce(hard) && EachOnce(hard')
    requires Scheduled(all, hard, keys, s, order) && Scheduled(all', hard', keys, s', order')
    requires forall m, k :: 0 <= m < k < |keys| ==> keys[m] != keys[k]
    ensures order == order'
  {
    AllAgree(all, hard, s, all', hard', s', |s.compOrder|);
    RunsFlip(all, hard, s, all', hard', s');
    AllAgree(all', hard', s', all, hard, s, |s'.compOrder|);
    forall k: nat | k < |s.blocks|
      ensures s.blocks[k] == s'.blocks[k]
    {
      BlocksAgree(all, hard, s, order, all', hard', s', order', keys, k);
    }
    JoinedSame(s.blocks, s'.blocks);
  }

  lemma BlocksAgree(all: Graph, hard: Graph, s: Schedule, order: seq<nat>,
                    all': Graph, hard': Graph, s': Schedule, order': seq<nat>, keys: seq<int>, k: nat)
    requires SameRuns(all, hard, s, all', hard', s') && |all| == |keys|
    requires Scheduled(all, hard, keys, s, order) && Scheduled(all', hard', keys, s', order')
    requires forall m, k :: 0 <= m < k < |keys| ==> keys[m] != keys[k]
    requires k < |s.blocks| && k < |s'.blocks| && Agreed(s, s', |s.compOrder|)
    ensures s.blocks[k] == s'.blocks[k]
  {
    var c, c' := s.compOrder[k], s'.compOrder[k];
    assert SameNodes(s, c, s', c');
    assert c in s.compOrder && c < |s.members|;
    forall i | 0 <= i < |s.members[c]|
      ensures s.members[c][i] < |keys|
    {
      assert s.members[c][i] in s.members[c];
    }
    hide BlockRule, LinearExtension, BestFirst;
    BlockUnique(hard, all, s.members[c], s.blocks[k], s.groups[k], hard', all', s'.members[c'], s'.blocks[k], s'.groups[k], keys);
  }

  // ---------- pass 2 ----------

  lemma SameTry(g: Graph, h: Graph, p: Pair)
    requires SameEdges(g, h)
    ensures SameEdges(Try(g, p), Try(h, p))
  {
    SameReach(g, h, p.consumer, p.dep);
    assert Edge(g, p.dep, p.consumer) <==> Edge(h, p.dep, p.consumer);
    forall u: nat, v: nat
      ensures Edge(Try(g, p), u, v) <==> Edge(Try(h, p), u, v)
    {
      assert Edge(g, u, v) <==> Edge(h, u, v);
    }
  }

  lemma {:induction false} SameTryAll(g: Graph, h: Graph, pairs: seq<Pair>)
    requires SameEdges(g, h)
    ensures SameEdges(TryAll(g, pairs), TryAll(h, pairs))
  {
    if pairs != [] {
      SameTryAll(g, h, pairs[..|pairs|-1]);
      SameTry(TryAll(g, pairs[..|pairs|-1]), TryAll(h, pairs[..|pairs|-1]), pairs[|pairs|-1]);
    }
  }

  lemma SameExtension(g: Graph, h: Graph, perm: seq<nat>)
    requires SameEdges(g, h) && LinearExtension(g, perm)
    ensures LinearExtension(h, perm)
  {
    forall j: nat, u: nat | j < |perm| && Edge(h, u, perm[j])
      ensures u in perm[..j]
    {
      assert Edge(g, u, perm[j]);
    }
  }

  lemma LexAntisymmetric(xs: seq<nat>, ys: seq<nat>)
    requires LexAtMost(xs, ys) && LexAtMost(ys, xs)
    ensures xs == ys
  {
    if xs != ys {
      var i: nat :| i < |xs| && i < |ys| && xs[..i] == ys[..i] && xs[i] < ys[i];
      var j: nat :| j < |ys| && j < |xs| && ys[..j] == xs[..j] && ys[j] < xs[j];
      PrefixAt(xs, ys, i, j);
      PrefixAt(xs, ys, j, i);
    }
  }

  lemma PrefixAt(xs: seq<nat>, ys: seq<nat>, i: nat, j: nat)
    requires i <= |xs| && i <= |ys| && xs[..i] == ys[..i] && j < |xs| && j < |ys|
    ensures j < i ==> xs[j] == ys[j]
  {
    forall m | 0 <= m < i
      ensures xs[m] == ys[m]
    {
      assert xs[m] == xs[..i][m] && ys[m] == ys[..i][m];
    }
  }

  lemma SameDeps(edges: seq<DepEdge>, edges': seq<DepEdge>, u: nat, v: nat)
    requires forall e :: e in edges <==> e in edges'
    ensures HardDep(edges, u, v) <==> HardDep(edges', u, v)
    ensures SoftDep(edges, u, v) <==> SoftDep(edges', u, v)
    ensures OrderDep(edges, u, v) <==> OrderDep(edges', u, v)
  {
  }

  lemma SameTools(edges: seq<DepEdge>, edges': seq<DepEdge>, order: seq<nat>, i: nat)
    requires forall e :: e in edges <==> e in edges'
    ensures BuildTool(edges, order, i) <==> BuildTool(edges', order, i)
  {
  }

  lemma SameInversions(order: seq<nat>, edges: seq<DepEdge>, plan: Plan, edges': seq<DepEdge>, plan': Plan)
    requires forall e :: e in edges <==> e in edges'
    requires Plans(order, edges, plan) && Plans(order, edges', plan')
    ensures plan.hardInv == plan'.hardInv && plan.softInv == plan'.softInv && SameEdges(plan.locked, plan'.locked)
  {
    hide HardDep, SoftDep, BuildTool, LinearExtension, BestFirst;
    forall u: nat, v: nat
      ensures HardDep(edges, u, v) <==> HardDep(edges', u, v)
      ensures SoftDep(edges, u, v) <==> SoftDep(edges', u, v)
    {
      SameDeps(edges, edges', u, v);
    }
    forall i: nat
      ensures i in plan.tools <==> i in plan'.tools
    {
      SameTools(edges, edges', order, i);
    }
    assert plan.tools == plan'.tools;
    SortedUnique(plan.hardInv, plan'.hardInv, ByConsumer);
    SortedUnique(plan.softInv, plan'.softInv, (a: Pair, b: Pair) => ToolsFirst(plan.tools, a, b));
  }

  /** Pass 2 has one result for given edges and a given order. */
  lemma PassTwoUnique(order: seq<nat>, edges: seq<DepEdge>, plan: Plan, edges': seq<DepEdge>, plan': Plan)
    requires forall e :: e in edges <==> e in edges'
    requires Plans(order, edges, plan) && Plans(order, edges', plan')
    ensures plan.perm == plan'.perm
  {
    SameInversions(order, edges, plan, edges', plan');
    hide Locked, HardInversions, SoftInversions, SameEdges, LinearExtension, BestFirst;
    SameTryAll(plan.locked, plan'.locked, plan.hardInv);
    SameTryAll(TryAll(plan.locked, plan.hardInv), TryAll(plan'.locked, plan.hardInv), plan.softInv);
    SameFlips(plan.final, plan'.final);
    SameExtension(plan.final, plan'.final, plan.perm);
    SameExtension(plan'.final, plan.final, plan'.perm);
    BestFirstLeast(plan.final, plan.perm, plan'.perm);
    BestFirstLeast(plan'.final, plan'.perm, plan.perm);
    LexAntisymmetric(plan.perm, plan'.perm);
  }

  lemma SameFlips(g: Graph, h: Graph)
    requires SameEdges(g, h)
    ensures SameEdges(h, g)
  {
  }

  // ---------- both passes ----------

  lemma SameGraphs(edges: seq<DepEdge>, edges': seq<DepEdge>, n: nat, g: Graph, h: Graph, hardOnly: bool)
    requires forall e :: e in edges <==> e in edges'
    requires if hardOnly then
               Represents(g, n, (u: nat, v: nat) => HardDep(edges, u, v)) && Represents(h, n, (u: nat, v: nat) => HardDep(edges', u, v))
             else
               Represents(g, n, (u: nat, v: nat) => OrderDep(edges, u, v)) && Represents(h, n, (u: nat, v: nat) => OrderDep(edges', u, v))
    ensures SameEdges(g, h) && EachOnce(g) && EachOnce(h) && |g| == n
  {
    forall u: nat, v: nat
      ensures Edge(g, u, v) <==> Edge(h, u, v)
    {
      SameDeps(edges, edges', u, v);
    }
  }

  /**
   * The install order is a function of the set of labelled edges and the keys, when these are
   * distinct: no listing of edges, hash set or heap tie can show in it.
   */
  lemma OrderDetermined(edges: seq<DepEdge>, edges': seq<DepEdge>, n: nat, keys: seq<int>,
                        all: Graph, hard: Graph, s: Schedule, passOne: seq<nat>, plan: Plan, order: seq<nat>,
                        all': Graph, hard': Graph, s': Schedule, passOne': seq<nat>, plan': Plan, order': seq<nat>)
    requires |keys| == n && (forall m, k :: 0 <= m < k < n ==> keys[m] != keys[k])
    requires forall e :: e in edges <==> e in edges'
    requires Ordered(edges, n, keys, all, hard, s, passOne, plan, order)
    requires Ordered(edges', n, keys, all', hard', s', passOne', plan', order')
    ensures order == order'
  {
    hide Represents, Scheduled, Plans, SameEdges, EachOnce;
    SameGraphs(edges, edges', n, all, all', false);
    SameGraphs(edges, edges', n, hard, hard', true);
    PassOneUnique(all, hard, s, passOne, all', hard', s', passOne', keys);
    PassTwoUnique(passOne, edges, plan, edges', plan');
  }
}
