/** Ordering the members of one dependency cycle. */
module CycleOrder {
  import opened Digraph
  import opened Kahn
  import opened Tarjan

  ghost predicate AllBelow(xs: seq<nat>, n: nat) {
    forall i :: 0 <= i < |xs| ==> xs[i] < n
  }

  // ---------- counting edges from a set of nodes ----------

  /** How many edges lead to `v` from the members of `from` below `n`. */
  ghost function CountFrom(g: Graph, from: set<nat>, v: nat, n: nat): nat
    requires n <= |g|
  {
    if n == 0 then 0
    else CountFrom(g, from, v, n - 1) + if n - 1 in from then multiset(g[n-1])[v] else 0
  }

  lemma {:induction false} CountFromAdd(g: Graph, from: set<nat>, u: nat, v: nat, n: nat)
    requires n <= |g| && u < |g| && u !in from
    ensures CountFrom(g, from + {u}, v, n) == CountFrom(g, from, v, n) + if u < n then multiset(g[u])[v] else 0
  {
    if n > 0 {
      CountFromAdd(g, from, u, v, n - 1);
    }
  }

  lemma {:induction false} CountFromZero(g: Graph, from: set<nat>, v: nat, n: nat)
    requires n <= |g|
    ensures CountFrom(g, from, v, n) == 0 <==> forall u: nat :: u < n && u in from ==> !Edge(g, u, v)
  {
    if n > 0 {
      CountFromZero(g, from, v, n - 1);
      assert Edge(g, n - 1, v) <==> multiset(g[n-1])[v] > 0;
    }
  }

  /** `counts` holds, for each node of `keys`, its edges from the members of `from`. */
  ghost predicate Counts(g: Graph, counts: map<nat, nat>, keys: set<nat>, from: set<nat>) {
    counts.Keys == keys && forall v :: v in keys ==> counts[v] == CountFrom(g, from, v, |g|)
  }

  /** Add one for each entry of `succs` that has a counter. */
  method CountUp(counts: map<nat, nat>, succs: seq<nat>) returns (counts': map<nat, nat>)
    ensures counts'.Keys == counts.Keys
    ensures forall v :: v in counts ==> counts'[v] == counts[v] + multiset(succs)[v]
  {
    counts' := counts;
    for k := 0 to |succs|
      invariant counts'.Keys == counts.Keys
      invariant forall v :: v in counts ==> counts'[v] == counts[v] + multiset(succs[..k])[v]
    {
      TakeOne(succs, k);
      if succs[k] in counts' {
        counts' := counts'[succs[k] := counts'[succs[k]] + 1];
      }
    }
    assert succs[..|succs|] == succs;
  }

  /**
   * Take one off, stopping at zero, for each entry of `succs` that has a counter. When the counters
   * are at least the multiplicities, the stop at zero never bites.
   */
  method CountDown(counts: map<nat, nat>, succs: seq<nat>) returns (counts': map<nat, nat>)
    requires forall v :: v in counts ==> multiset(succs)[v] <= counts[v]
    ensures counts'.Keys == counts.Keys
    ensures forall v :: v in counts ==> counts'[v] + multiset(succs)[v] == counts[v]
  {
    counts' := counts;
    for k := 0 to |succs|
      invariant counts'.Keys == counts.Keys
      invariant forall v :: v in counts ==> counts'[v] + multiset(succs[..k])[v] == counts[v]
    {
      TakeOne(succs, k);
      var v := succs[k];
      if v in counts' {
        assert multiset(succs[..k+1])[v] <= multiset(succs)[v];
        counts' := counts'[v := if counts'[v] > 0 then counts'[v] - 1 else 0];
      }
    }
    assert succs[..|succs|] == succs;
  }

  /** Count the edges among `members`. */
  method CountMembers(g: Graph, members: seq<nat>) returns (counts: map<nat, nat>)
    requires Distinct(members) && AllBelow(members, |g|)
    ensures Counts(g, counts, Elems(members), Elems(members))
  {
    counts := map m | m in members :: 0;
    assert Elems(members[..0]) == {};
    forall v
      ensures CountFrom(g, {}, v, |g|) == 0
    {
      CountFromZero(g, {}, v, |g|);
    }
    for i := 0 to |members|
      invariant Counts(g, counts, Elems(members), Elems(members[..i]))
    {
      var u := members[i];
      assert u < |g|;
      assert Elems(members[..i+1]) == Elems(members[..i]) + {u};
      forall v
        ensures CountFrom(g, Elems(members[..i+1]), v, |g|)
             == CountFrom(g, Elems(members[..i]), v, |g|) + multiset(g[u])[v]
      {
        CountFromAdd(g, Elems(members[..i]), u, v, |g|);
      }
      counts := CountUp(counts, g[u]);
    }
    assert members[..|members|] == members;
  }

  /** Retire `u`: its edges no longer count. */
  method Retire(g: Graph, counts: map<nat, nat>, ghost keys: set<nat>, ghost remaining: set<nat>, u: nat)
    returns (counts': map<nat, nat>)
    requires u < |g| && u in remaining && Counts(g, counts, keys, remaining)
    ensures Counts(g, counts', keys, remaining - {u})
  {
    assert remaining == (remaining - {u}) + {u};
    forall v
      ensures CountFrom(g, remaining, v, |g|) == CountFrom(g, remaining - {u}, v, |g|) + multiset(g[u])[v]
    {
      CountFromAdd(g, remaining - {u}, u, v, |g|);
    }
    counts' := CountDown(counts, g[u]);
  }

  // ---------- the hard-only groups ----------

  /** The targets of `succs` that are members, by position. */
  function LocalTargets(succs: seq<nat>, local: map<nat, nat>): (r: seq<nat>)
    ensures forall j :: j in r <==> exists v :: v in succs && v in local && local[v] == j
  {
    if succs == [] then []
    else
      assert succs == [succs[0]] + succs[1..];
      (if succs[0] in local then [local[succs[0]]] else []) + LocalTargets(succs[1..], local)
  }

  /** `local` maps each member to its position. */
  ghost predicate Positions(members: seq<nat>, local: map<nat, nat>) {
    && local.Keys == Elems(members)
    && (forall i :: 0 <= i < |members| ==> local[members[i]] == i)
    && forall m :: m in local ==> local[m] < |members|
  }

  /** `sub` is the graph that `g` induces on `members`, renumbered by position. */
  ghost predicate Induced(g: Graph, members: seq<nat>, sub: Graph) {
    && |sub| == |members| && WellFormed(sub)
    && forall i: nat, j: nat :: i < |members| && j < |members| ==> (Edge(sub, i, j) <==> Edge(g, members[i], members[j]))
  }

  method Induce(g: Graph, members: seq<nat>) returns (local: map<nat, nat>, sub: Graph)
    requires Distinct(members) && AllBelow(members, |g|)
    ensures Positions(members, local) && Induced(g, members, sub)
  {
    local := map[];
    for i := 0 to |members|
      invariant local.Keys == Elems(members[..i])
      invariant forall j :: 0 <= j < i ==> members[j] in local && local[members[j]] == j
    {
      assert Elems(members[..i+1]) == Elems(members[..i]) + {members[i]};
      local := local[members[i] := i];
    }
    assert members[..|members|] == members;
    sub := [];
    for i := 0 to |members|
      invariant |sub| == i
      invariant forall j :: 0 <= j < i ==> sub[j] == LocalTargets(g[members[j]], local)
    {
      sub := sub + [LocalTargets(g[members[i]], local)];
    }
    InducedByTargets(g, members, local, sub);
  }

  lemma InducedByTargets(g: Graph, members: seq<nat>, local: map<nat, nat>, sub: Graph)
    requires Positions(members, local) && AllBelow(members, |g|) && |sub| == |members|
    requires forall j :: 0 <= j < |members| ==> sub[j] == LocalTargets(g[members[j]], local)
    ensures Induced(g, members, sub)
  {
    forall i, k | 0 <= i < |sub| && 0 <= k < |sub[i]|
      ensures sub[i][k] < |sub|
    {
      assert sub[i][k] in LocalTargets(g[members[i]], local);
    }
    forall i: nat, j: nat | i < |members| && j < |members|
      ensures Edge(sub, i, j) <==> Edge(g, members[i], members[j])
    {
      if Edge(sub, i, j) {
        var v :| v in g[members[i]] && v in local && local[v] == j;
        var p :| 0 <= p < |members| && members[p] == v;
        assert p == j;
      }
    }
  }

  /** Reachability among members carries over to the whole graph. */
  lemma InducedReach(g: Graph, members: seq<nat>, sub: Graph, i: nat, j: nat)
    requires Induced(g, members, sub) && i < |members| && Reach(sub, i, j)
    ensures j < |members| && Reach(g, members[i], members[j])
  {
    var s := set k: nat | k < |members| && Reach(g, members[i], members[k]);
    ReachRefl(g, members[i]);
    forall x: nat, y: nat | x in s && Edge(sub, x, y)
      ensures y in s
    {
      ReachEdge(g, members[x], members[y]);
      ReachTrans(g, members[i], members[x], members[y]);
    }
    ReachClosed(sub, s, i, j);
  }

  // ---------- the choice among the remaining members ----------

  /** What the choice looks at: lower ranks win. */
  datatype Rank = Rank(blocked: bool, hard: nat, soft: bool, all: nat, key: int)

  /** Lexicographic; among equals the larger key wins. */
  predicate Beats(a: Rank, b: Rank) {
    if a.blocked != b.blocked then !a.blocked
    else if a.hard != b.hard then a.hard < b.hard
    else if a.soft != b.soft then !a.soft
    else if a.all != b.all then a.all < b.all
    else a.key > b.key
  }

  datatype Counters = Counters(cross: map<nat, nat>, hard: map<nat, nat>, all: map<nat, nat>)

  predicate Covers(c: Counters, keys: seq<int>, m: nat) {
    m in c.cross && m in c.hard && m in c.all && m < |keys|
  }

  function RankOf(c: Counters, keys: seq<int>, m: nat): Rank
    requires Covers(c, keys, m)
  {
    Rank(c.cross[m] > 0, c.hard[m], c.all[m] > c.hard[m], c.all[m], keys[m])
  }

  /** A remaining member that no other one beats; the set is walked in any order. */
  method PickLeast(remaining: set<nat>, c: Counters, keys: seq<int>) returns (pick: nat)
    requires remaining != {} && forall m :: m in remaining ==> Covers(c, keys, m)
    ensures pick in remaining
    ensures forall m :: m in remaining ==> !Beats(RankOf(c, keys, m), RankOf(c, keys, pick))
  {
    pick :| pick in remaining;
    var todo := remaining - {pick};
    while todo != {}
      invariant todo <= remaining && pick in remaining
      invariant forall m :: m in remaining - todo ==> !Beats(RankOf(c, keys, m), RankOf(c, keys, pick))
      decreases |todo|
    {
      var m :| m in todo;
      todo := todo - {m};
      if Beats(RankOf(c, keys, m), RankOf(c, keys, pick)) {
        pick := m;
      }
    }
  }

  // ---------- the specification ----------

  /** The hard edges between members of different groups, in the whole graph's numbering. */
  function CrossTargets(succs: seq<nat>, group: map<nat, nat>, gu: nat): (r: seq<nat>)
    ensures forall v :: v in r <==> v in succs && v in group && group[v] != gu
  {
    if succs == [] then []
    else
      assert succs == [succs[0]] + succs[1..];
      (if succs[0] in group && group[succs[0]] != gu then [succs[0]] else []) + CrossTargets(succs[1..], group, gu)
  }

  function CrossGraph(g: Graph, group: map<nat, nat>): (r: Graph)
    ensures |r| == |g|
  {
    seq(|g|, u requires 0 <= u < |g| => if u in group then CrossTargets(g[u], group, group[u]) else [])
  }

  /** The counters as they stand when exactly `remaining` is still to be emitted. */
  ghost predicate CountersAt(hard: Graph, all: Graph, group: map<nat, nat>, c: Counters, remaining: set<nat>) {
    && Counts(CrossGraph(hard, group), c.cross, group.Keys, remaining)
    && Counts(hard, c.hard, group.Keys, remaining)
    && Counts(all, c.all, group.Keys, remaining)
  }

  ghost function RankAt(hard: Graph, all: Graph, group: map<nat, nat>, keys: seq<int>, remaining: set<nat>, m: nat): Rank
    requires m < |keys|
  {
    var h, a := CountFrom(hard, remaining, m, |hard|), CountFrom(all, remaining, m, |all|);
    Rank(CountFrom(CrossGraph(hard, group), remaining, m, |hard|) > 0, h, a > h, a, keys[m])
  }

  ghost predicate Unbeaten(hard: Graph, all: Graph, group: map<nat, nat>, keys: seq<int>, remaining: set<nat>, pick: nat) {
    && pick in remaining && pick < |keys|
    && forall m :: m in remaining && m < |keys| ==>
      !Beats(RankAt(hard, all, group, keys, remaining, m), RankAt(hard, all, group, keys, remaining, pick))
  }

  /** Each entry of `out` is unbeaten among the members not emitted before it. */
  ghost predicate Greedy(hard: Graph, all: Graph, group: map<nat, nat>, keys: seq<int>, out: seq<nat>) {
    forall j: nat :: j < |out| ==> Unbeaten(hard, all, group, keys, group.Keys - Elems(out[..j]), out[j])
  }

  /**
   * The pick, against any other remaining member: not blocked unless the other is; then no more pending hard edges;
   * then soft-ready if the other is; then no more pending edges at all; then no smaller key.
   */
  lemma PickMeans(hard: Graph, all: Graph, group: map<nat, nat>, keys: seq<int>, remaining: set<nat>, pick: nat, m: nat)
    requires Unbeaten(hard, all, group, keys, remaining, pick) && m in remaining && m < |keys|
    ensures var blocked := (x: nat) => CountFrom(CrossGraph(hard, group), remaining, x, |hard|) > 0;
            var h := (x: nat) => CountFrom(hard, remaining, x, |hard|);
            var a := (x: nat) => CountFrom(all, remaining, x, |all|);
            && (blocked(pick) ==> blocked(m))
            && (blocked(pick) == blocked(m) ==>
                  && h(pick) <= h(m)
                  && (h(pick) == h(m) ==>
                        && (a(m) <= h(m) ==> a(pick) <= h(pick))
                        && ((a(m) <= h(m) <==> a(pick) <= h(pick)) ==>
                              a(pick) <= a(m) && (a(pick) == a(m) ==> keys[pick] >= keys[m]))))
  {
    assert !Beats(RankAt(hard, all, group, keys, remaining, m), RankAt(hard, all, group, keys, remaining, pick));
  }

  /** `group` tells apart the hard-only cycles among `members`, each numbered after the ones it leads to. */
  ghost predicate Grouping(hard: Graph, members: seq<nat>, group: map<nat, nat>) {
    && group.Keys == Elems(members)
    && exists sub :: Induced(hard, members, sub) && GroupsBy(members, sub, group)
  }

  ghost predicate GroupsBy(members: seq<nat>, sub: Graph, group: map<nat, nat>)
    requires |sub| == |members| && group.Keys == Elems(members)
  {
    forall i: nat, j: nat :: i < |members| && j < |members| ==>
      && (group[members[i]] == group[members[j]] <==> MutuallyReachable(sub, i, j))
      && (Edge(sub, i, j) ==> group[members[j]] <= group[members[i]])
  }

  lemma GroupFacts(hard: Graph, members: seq<nat>, group: map<nat, nat>, u: nat, v: nat)
    requires Grouping(hard, members, group) && u in members && v in members && Edge(hard, u, v)
    ensures group[v] <= group[u]
    ensures group[u] == group[v] ==> Reach(hard, v, u)
  {
    var sub :| Induced(hard, members, sub) && GroupsBy(members, sub, group);
    var i: nat :| i < |members| && members[i] == u;
    var j: nat :| j < |members| && members[j] == v;
    assert Edge(sub, i, j);
    if group[u] == group[v] {
      InducedReach(hard, members, sub, j, i);
    }
  }

  lemma {:induction false} HighestGroup(remaining: set<nat>, group: map<nat, nat>) returns (m: nat)
    requires remaining != {} && remaining <= group.Keys
    ensures m in remaining && forall x :: x in remaining ==> group[x] <= group[m]
    decreases |remaining|
  {
    m :| m in remaining;
    var rest := remaining - {m};
    if rest != {} {
      var k := HighestGroup(rest, group);
      if group[k] > group[m] {
        m := k;
      }
    }
  }

  /** Some remaining member waits for no hard predecessor outside its group. */
  lemma SomeUnblocked(hard: Graph, members: seq<nat>, group: map<nat, nat>, remaining: set<nat>) returns (m: nat)
    requires Grouping(hard, members, group) && remaining != {} && remaining <= group.Keys
    ensures m in remaining && CountFrom(CrossGraph(hard, group), remaining, m, |hard|) == 0
  {
    m := HighestGroup(remaining, group);
    var cross := CrossGraph(hard, group);
    forall u: nat | u < |hard| && u in remaining
      ensures !Edge(cross, u, m)
    {
      if Edge(cross, u, m) {
        assert m in CrossTargets(hard[u], group, group[u]);
        GroupFacts(hard, members, group, u, m);
      }
    }
    CountFromZero(cross, remaining, m, |hard|);
  }

  /** An unbeaten choice is never blocked. */
  lemma PickUnblocked(hard: Graph, all: Graph, members: seq<nat>, group: map<nat, nat>, keys: seq<int>,
                      remaining: set<nat>, pick: nat)
    requires Grouping(hard, members, group) && remaining <= group.Keys && AllBelow(members, |keys|)
    requires Unbeaten(hard, all, group, keys, remaining, pick)
    ensures forall u: nat :: u in remaining ==> !Edge(CrossGraph(hard, group), u, pick)
  {
    var m := SomeUnblocked(hard, members, group, remaining);
    assert m in members;
    CountFromZero(CrossGraph(hard, group), remaining, pick, |hard|);
  }

  /** The order is settled by the graphs and the keys alone when the keys are distinct. */
  lemma {:induction false} GreedyUnique(hard: Graph, all: Graph, group: map<nat, nat>, keys: seq<int>,
                                        out: seq<nat>, out': seq<nat>)
    requires forall m :: m in group ==> m < |keys|
    requires forall m, k :: m in group && k in group && keys[m] == keys[k] ==> m == k
    requires Greedy(hard, all, group, keys, out) && Greedy(hard, all, group, keys, out') && |out| == |out'|
    ensures out == out'
  {
    for j := 0 to |out|
      invariant out[..j] == out'[..j]
    {
      var remaining := group.Keys - Elems(out[..j]);
      assert Unbeaten(hard, all, group, keys, remaining, out[j]);
      assert Unbeaten(hard, all, group, keys, remaining, out'[j]);
      assert out[j] == out'[j];
      assert out[..j+1] == out[..j] + [out[j]] && out'[..j+1] == out'[..j] + [out'[j]];
    }
  }

  // ---------- the scheduler ----------

  /** Find the hard-only groups of `members`. */
  method FindGroups(hard: Graph, members: seq<nat>) returns (group: map<nat, nat>)
    requires Distinct(members) && AllBelow(members, |hard|)
    ensures Grouping(hard, members, group)
  {
    var local, sub := Induce(hard, members);
    var groupOfLocal := TarjanScc(sub);
    group := map m | m in local :: groupOfLocal[local[m]];
    assert GroupsBy(members, sub, group);
  }

  /** What holds of the emitted list and the members still to come. */
  ghost predicate Scheduling(hard: Graph, all: Graph, members: seq<nat>, group: map<nat, nat>, keys: seq<int>,
                             out: seq<nat>, remaining: set<nat>) {
    && Distinct(out) && Elems(out) <= Elems(members) && remaining == Elems(members) - Elems(out)
    && Greedy(hard, all, group, keys, out) && PredsBefore(CrossGraph(hard, group), out)
  }

  /** Emit every member once, never overtaking a hard predecessor outside its hard-only cycle. */
  method OrderCycle(members: seq<nat>, hard: Graph, all: Graph, keys: seq<int>)
    returns (out: seq<nat>, ghost group: map<nat, nat>)
    requires Distinct(members) && |hard| == |all| == |keys| && AllBelow(members, |keys|)
    ensures Distinct(out) && Elems(out) == Elems(members)
    ensures Grouping(hard, members, group) && Greedy(hard, all, group, keys, out)
    ensures PredsBefore(CrossGraph(hard, group), out)
  {
    hide Greedy, PredsBefore, CrossGraph, Unbeaten, Distinct, CountFrom, Beats, GroupsBy;
    var indegHard := CountMembers(hard, members);
    var indegAll := CountMembers(all, members);
    var groups := FindGroups(hard, members);
    group := groups;
    var crossSucc := CrossGraph(hard, groups);
    var crossPending := CountMembers(crossSucc, members);
    var remaining := Elems(members);
    out := [];
    NothingEmitted(hard, all, group, keys);
    while remaining != {}
      invariant Scheduling(hard, all, members, group, keys, out, remaining)
      invariant CountersAt(hard, all, group, Counters(crossPending, indegHard, indegAll), remaining)
      decreases |remaining|
    {
      hide Scheduling, Grouping;
      SchedulingMembers(hard, all, members, group, keys, out, remaining);
      var c := Counters(crossPending, indegHard, indegAll);
      var pick := PickLeast(remaining, c, keys);
      PickedUnbeaten(hard, all, group, keys, c, remaining, pick);
      SchedulingStep(hard, all, members, group, keys, out, remaining, pick);
      indegAll := Retire(all, indegAll, group.Keys, remaining, pick);
      indegHard := Retire(hard, indegHard, group.Keys, remaining, pick);
      crossPending := Retire(crossSucc, crossPending, group.Keys, remaining, pick);
      remaining := remaining - {pick};
      out := out + [pick];
    }
  }

  lemma SchedulingMembers(hard: Graph, all: Graph, members: seq<nat>, group: map<nat, nat>, keys: seq<int>,
                          out: seq<nat>, remaining: set<nat>)
    requires Scheduling(hard, all, members, group, keys, out, remaining) && Grouping(hard, members, group)
    requires AllBelow(members, |keys|)
    ensures remaining <= group.Keys == Elems(members) && forall m :: m in group ==> m < |keys|
  {
  }

  lemma SchedulingStep(hard: Graph, all: Graph, members: seq<nat>, group: map<nat, nat>, keys: seq<int>,
                       out: seq<nat>, remaining: set<nat>, pick: nat)
    requires Scheduling(hard, all, members, group, keys, out, remaining) && Grouping(hard, members, group)
    requires AllBelow(members, |keys|) && Unbeaten(hard, all, group, keys, remaining, pick)
    ensures Scheduling(hard, all, members, group, keys, out + [pick], remaining - {pick})
  {
    hide Greedy, PredsBefore, CrossGraph;
    assert pick in remaining;
    PickUnblocked(hard, all, members, group, keys, remaining, pick);
    GreedyPush(hard, all, group, keys, out, pick);
    CrossPush(hard, group, out, remaining, pick);
    DistinctPush(out, pick);
  }

  lemma PickedUnbeaten(hard: Graph, all: Graph, group: map<nat, nat>, keys: seq<int>, c: Counters,
                       remaining: set<nat>, pick: nat)
    requires CountersAt(hard, all, group, c, remaining) && remaining <= group.Keys && pick in remaining
    requires forall m :: m in group ==> m < |keys|
    requires forall m :: m in remaining ==> !Beats(RankOf(c, keys, m), RankOf(c, keys, pick))
    ensures Unbeaten(hard, all, group, keys, remaining, pick)
  {
  }

  lemma NothingEmitted(hard: Graph, all: Graph, group: map<nat, nat>, keys: seq<int>)
    ensures Greedy(hard, all, group, keys, []) && PredsBefore(CrossGraph(hard, group), []) && Distinct([])
  {
  }

  lemma GreedyPush(hard: Graph, all: Graph, group: map<nat, nat>, keys: seq<int>, out: seq<nat>, pick: nat)
    requires Greedy(hard, all, group, keys, out)
    requires Unbeaten(hard, all, group, keys, group.Keys - Elems(out), pick)
    ensures Greedy(hard, all, group, keys, out + [pick])
  {
    hide Unbeaten;
    var out' := out + [pick];
    forall j: nat | j < |out'|
      ensures Unbeaten(hard, all, group, keys, group.Keys - Elems(out'[..j]), out'[j])
    {
      if j < |out| {
        assert out'[..j] == out[..j];
      } else {
        assert out'[..j] == out;
      }
    }
  }

  lemma CrossPush(hard: Graph, group: map<nat, nat>, out: seq<nat>, remaining: set<nat>, pick: nat)
    requires remaining == group.Keys - Elems(out) && PredsBefore(CrossGraph(hard, group), out)
    requires forall u: nat :: u in remaining ==> !Edge(CrossGraph(hard, group), u, pick)
    ensures PredsBefore(CrossGraph(hard, group), out + [pick])
  {
    forall u: nat | Edge(CrossGraph(hard, group), u, pick)
      ensures u in out
    {
      assert u in group;
    }
    PredsPush(CrossGraph(hard, group), out, pick);
  }

  /** A hard edge whose ends share no hard cycle is an edge between groups. */
  lemma HardEdgeCrosses(hard: Graph, members: seq<nat>, group: map<nat, nat>, u: nat, v: nat)
    requires Grouping(hard, members, group) && u in members && v in members
    requires Edge(hard, u, v) && !Reach(hard, v, u)
    ensures Edge(CrossGraph(hard, group), u, v)
  {
    GroupFacts(hard, members, group, u, v);
    assert v in CrossTargets(hard[u], group, group[u]);
  }
}
