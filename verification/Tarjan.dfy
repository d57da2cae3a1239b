/** The iterative Tarjan pass that finds strongly connected components. */
module Tarjan {
  import opened Digraph

  /** Stands for the marker `usize::MAX`, which is never an index. */
  const UNSEEN: int := -1

  // ---------- the invariant, one part at a time ----------
  //
  // `index`, `low`, `onStack`, `comp` and `stack` are the variables of the pass. `path` lists the
  // nodes of the call frames, innermost last, and `prog[v]` is how many edges out of `v` have been
  // followed: the frame of `v` is the pair of `v` and `prog[v]`.

  /** Distinct numbers below `next` for the nodes seen so far. */
  ghost predicate Numbered(index: seq<int>, next: nat) {
    && (forall v :: 0 <= v < |index| ==> UNSEEN <= index[v] < next)
    && (forall u, v :: 0 <= u < |index| && 0 <= v < |index| && index[u] == index[v] != UNSEEN ==> u == v)
  }

  /** The nodes of `xs` are seen, in the order in which they were numbered. */
  ghost predicate Increasing(index: seq<int>, xs: seq<nat>) {
    && (forall i :: 0 <= i < |xs| ==> xs[i] < |index| && index[xs[i]] != UNSEEN)
    && (forall i, j :: 0 <= i < j < |xs| ==> index[xs[i]] < index[xs[j]])
  }

  ghost predicate Marks(onStack: seq<bool>, stack: seq<nat>) {
    && (forall i :: 0 <= i < |stack| ==> stack[i] < |onStack|)
    && (forall v: nat :: v < |onStack| ==> (onStack[v] <==> v in stack))
  }

  /** Exactly the seen nodes that have left the stack carry a component. */
  ghost predicate CompRanged(index: seq<int>, stack: seq<nat>, comp: seq<int>, nextComp: nat)
    requires |comp| == |index|
  {
    forall v: nat :: v < |index| ==>
      && UNSEEN <= comp[v] < nextComp
      && (comp[v] != UNSEEN <==> index[v] != UNSEEN && v !in stack)
  }

  ghost predicate Explored(g: Graph, index: seq<int>, path: seq<nat>, prog: seq<nat>)
    requires |index| == |prog| == |g|
  {
    && (forall v: nat :: v < |g| ==> prog[v] <= |g[v]|)
    && (forall v: nat :: v < |g| && v !in path ==> prog[v] == if index[v] == UNSEEN then 0 else |g[v]|)
    && (forall v: nat, k :: v < |g| && 0 <= k < prog[v] ==> g[v][k] < |g| && index[g[v][k]] != UNSEEN)
  }

  /** An earlier stacked node reaches every later one. */
  ghost predicate StackReaches(g: Graph, index: seq<int>, stack: seq<nat>)
    requires Increasing(index, stack)
  {
    forall x, y :: x in stack && y in stack && index[x] <= index[y] ==> Reach(g, x, y)
  }

  ghost predicate AnchoredBy(g: Graph, index: seq<int>, x: nat, v: nat)
    requires x < |index| && v < |index|
  {
    index[v] <= index[x] && Reach(g, x, v)
  }

  ghost predicate HasAnchor(g: Graph, index: seq<int>, path: seq<nat>, x: nat)
    requires Increasing(index, path) && x < |index|
  {
    exists v :: v in path && AnchoredBy(g, index, x, v)
  }

  /** Each stacked node reaches an open node that was entered no later. */
  ghost predicate Anchored(g: Graph, index: seq<int>, stack: seq<nat>, path: seq<nat>)
    requires Increasing(index, stack) && Increasing(index, path)
  {
    forall x {:trigger HasAnchor(g, index, path, x)} :: x in stack ==> HasAnchor(g, index, path, x)
  }

  ghost predicate LowWitness(g: Graph, index: seq<int>, low: int, v: nat, x: nat)
    requires x < |index|
  {
    index[x] == low && Reach(g, v, x)
  }

  ghost predicate HasLowWitness(g: Graph, index: seq<int>, low: int, stack: seq<nat>, v: nat)
    requires Increasing(index, stack)
  {
    exists x :: x in stack && LowWitness(g, index, low, v, x)
  }

  /** The lowlink of an open node is the number of a stacked node that it reaches. */
  ghost predicate LowSound(g: Graph, index: seq<int>, low: seq<int>, stack: seq<nat>, path: seq<nat>)
    requires |low| == |index| && Increasing(index, stack) && Increasing(index, path)
  {
    forall v {:trigger HasLowWitness(g, index, low[v], stack, v)} ::
      v in path ==> low[v] <= index[v] && HasLowWitness(g, index, low[v], stack, v)
  }

  /** `x` was entered under the `i`-th open node and under no deeper one. */
  ghost predicate Under(index: seq<int>, path: seq<nat>, x: nat, i: nat)
    requires Increasing(index, path) && x < |index| && i < |path|
  {
    index[path[i]] <= index[x] && (i + 1 < |path| ==> index[x] < index[path[i+1]])
  }

  /** The lowlink of an open node accounts for every followed edge under it. */
  ghost predicate LowComplete(g: Graph, index: seq<int>, low: seq<int>, stack: seq<nat>, path: seq<nat>, prog: seq<nat>)
    requires |low| == |index| == |prog| == |g|
    requires Increasing(index, stack) && Increasing(index, path) && Explored(g, index, path, prog)
  {
    forall i: nat, x, k: nat :: i < |path| && x in stack && Under(index, path, x, i) && k < prog[x] && g[x][k] in stack
      ==> low[path[i]] <= index[g[x][k]]
  }

  /** Finished components are closed under edges and numbered against them. */
  ghost predicate CompDescends(g: Graph, comp: seq<int>)
    requires |comp| == |g|
  {
    forall u: nat, v: nat :: Edge(g, u, v) && comp[u] != UNSEEN ==> v < |g| && UNSEEN < comp[v] <= comp[u]
  }

  ghost predicate Carries(comp: seq<int>, v: nat, c: int) {
    v < |comp| && comp[v] == c
  }

  ghost predicate CompUsed(comp: seq<int>, c: int) {
    exists v :: Carries(comp, v, c)
  }

  ghost predicate CompExact(g: Graph, comp: seq<int>, nextComp: nat)
    requires |comp| == |g|
  {
    && (forall u: nat, v: nat :: u < |g| && v < |g| && comp[u] != UNSEEN && comp[v] != UNSEEN ==>
          (comp[u] == comp[v] <==> MutuallyReachable(g, u, v)))
    && (forall c :: 0 <= c < nextComp ==> CompUsed(comp, c))
  }

  datatype Search = Search(
    index: seq<int>, low: seq<int>, comp: seq<int>, stack: seq<nat>, path: seq<nat>, prog: seq<nat>,
    nextIndex: nat, nextComp: nat)

  ghost predicate Shape(g: Graph, s: Search) {
    && |s.index| == |s.low| == |s.comp| == |s.prog| == |g|
    && Numbered(s.index, s.nextIndex) && Increasing(s.index, s.stack) && Increasing(s.index, s.path)
    && (forall v :: v in s.path ==> v in s.stack)
    && CompRanged(s.index, s.stack, s.comp, s.nextComp)
    && Explored(g, s.index, s.path, s.prog)
  }

  ghost predicate Inv(g: Graph, s: Search) {
    && Shape(g, s)
    && StackReaches(g, s.index, s.stack) && Anchored(g, s.index, s.stack, s.path)
    && LowSound(g, s.index, s.low, s.stack, s.path)
    && LowComplete(g, s.index, s.low, s.stack, s.path, s.prog)
    && CompDescends(g, s.comp) && CompExact(g, s.comp, s.nextComp)
  }

  /** What the code of the pass needs to know of its invariant. */
  lemma Basics(g: Graph, s: Search)
    requires Inv(g, s)
    ensures Shape(g, s) && |s.index| == |s.low| == |s.comp| == |s.prog| == |g|
    ensures forall i :: 0 <= i < |s.path| ==> s.path[i] < |g| && s.index[s.path[i]] != UNSEEN && s.path[i] in s.stack && s.prog[s.path[i]] <= |g[s.path[i]]|
    ensures forall i, j :: 0 <= i < j < |s.path| ==> s.path[i] != s.path[j]
  {
  }

  function Start(n: nat): Search {
    Search(seq(n, _ => UNSEEN), seq(n, _ => 0), seq(n, _ => UNSEEN), [], [], seq(n, _ => 0), 0, 0)
  }

  lemma StartInv(g: Graph)
    requires WellFormed(g)
    ensures Inv(g, Start(|g|))
  {
  }

  // ---------- entering an unseen node ----------

  lemma NumberedPush(index: seq<int>, next: nat, w: nat)
    requires Numbered(index, next) && w < |index|
    ensures Numbered(index[w := next], next + 1)
  {
  }

  lemma IncreasingPush(index: seq<int>, next: nat, xs: seq<nat>, w: nat)
    requires Numbered(index, next) && Increasing(index, xs) && w < |index| && index[w] == UNSEEN
    ensures Increasing(index[w := next], xs + [w])
  {
  }

  lemma ExploredPush(g: Graph, index: seq<int>, path: seq<nat>, prog: seq<nat>, next: nat, w: nat)
    requires |index| == |prog| == |g| && w < |g| && index[w] == UNSEEN
    requires Explored(g, index, path, prog)
    ensures Explored(g, index[w := next], path + [w], prog)
  {
  }

  lemma ExploredAdvance(g: Graph, index: seq<int>, path: seq<nat>, prog: seq<nat>, v: nat)
    requires |index| == |prog| == |g| && v in path && v < |g| && prog[v] < |g[v]|
    requires Explored(g, index, path, prog)
    requires g[v][prog[v]] < |g| && index[g[v][prog[v]]] != UNSEEN
    ensures Explored(g, index, path, prog[v := prog[v] + 1])
  {
  }

  function Last(xs: seq<nat>): nat
    requires xs != []
  {
    xs[|xs|-1]
  }

  /** Every stacked node reaches the innermost open one. */
  lemma StackReachesLast(g: Graph, index: seq<int>, stack: seq<nat>, path: seq<nat>, x: nat)
    requires Increasing(index, stack) && Increasing(index, path)
    requires StackReaches(g, index, stack) && Anchored(g, index, stack, path)
    requires forall v :: v in path ==> v in stack
    requires x in stack
    ensures path != [] && Reach(g, x, Last(path))
  {
    assert HasAnchor(g, index, path, x);
    var v :| v in path && AnchoredBy(g, index, x, v);
    assert index[v] <= index[Last(path)];
    ReachTrans(g, x, v, Last(path));
  }

  lemma EnterStackReaches(g: Graph, index: seq<int>, next: nat, stack: seq<nat>, w: nat)
    requires Numbered(index, next) && Increasing(index, stack) && w < |index| && index[w] == UNSEEN
    requires StackReaches(g, index, stack) && forall x :: x in stack ==> Reach(g, x, w)
    requires Increasing(index[w := next], stack + [w])
    ensures StackReaches(g, index[w := next], stack + [w])
  {
    ReachRefl(g, w);
  }

  lemma EnterAnchored(g: Graph, index: seq<int>, next: nat, stack: seq<nat>, path: seq<nat>, w: nat)
    requires Numbered(index, next) && Increasing(index, stack) && Increasing(index, path)
    requires w < |index| && index[w] == UNSEEN && Anchored(g, index, stack, path)
    requires Increasing(index[w := next], stack + [w]) && Increasing(index[w := next], path + [w])
    ensures Anchored(g, index[w := next], stack + [w], path + [w])
  {
    var index' := index[w := next];
    forall x | x in stack + [w]
      ensures HasAnchor(g, index', path + [w], x)
    {
      if x in stack {
        assert HasAnchor(g, index, path, x);
        var v :| v in path && AnchoredBy(g, index, x, v);
        assert v in path + [w] && AnchoredBy(g, index', x, v);
      } else {
        ReachRefl(g, w);
        assert w in path + [w] && AnchoredBy(g, index', w, w);
      }
    }
  }

  lemma EnterLowSound(g: Graph, index: seq<int>, low: seq<int>, next: nat, stack: seq<nat>, path: seq<nat>, w: nat)
    requires Numbered(index, next) && Increasing(index, stack) && Increasing(index, path)
    requires |low| == |index| && w < |index| && index[w] == UNSEEN && LowSound(g, index, low, stack, path)
    requires Increasing(index[w := next], stack + [w]) && Increasing(index[w := next], path + [w])
    ensures LowSound(g, index[w := next], low[w := next], stack + [w], path + [w])
  {
    var index', low' := index[w := next], low[w := next];
    forall v | v in path + [w]
      ensures low'[v] <= index'[v] && HasLowWitness(g, index', low'[v], stack + [w], v)
    {
      if v in path {
        assert HasLowWitness(g, index, low[v], stack, v);
        var x :| x in stack && LowWitness(g, index, low[v], v, x);
        assert x in stack + [w] && LowWitness(g, index', low'[v], v, x);
      } else {
        ReachRefl(g, w);
        assert w in stack + [w] && LowWitness(g, index', low'[w], w, w);
      }
    }
  }

  lemma EnterLowComplete(g: Graph, index: seq<int>, low: seq<int>, next: nat, stack: seq<nat>, path: seq<nat>,
                         prog: seq<nat>, w: nat)
    requires |low| == |index| == |prog| == |g|
    requires Numbered(index, next) && Increasing(index, stack) && Increasing(index, path)
    requires w < |index| && index[w] == UNSEEN && w !in path && Explored(g, index, path, prog)
    requires LowComplete(g, index, low, stack, path, prog)
    requires Increasing(index[w := next], stack + [w]) && Increasing(index[w := next], path + [w])
    requires Explored(g, index[w := next], path + [w], prog)
    ensures LowComplete(g, index[w := next], low[w := next], stack + [w], path + [w], prog)
  {
    var index', low', stack', path' := index[w := next], low[w := next], stack + [w], path + [w];
    forall i: nat, x, k: nat |
      i < |path'| && x in stack' && Under(index', path', x, i) && k < prog[x] && g[x][k] in stack'
      ensures low'[path'[i]] <= index'[g[x][k]]
    {
      assert x != w && x in stack && index[g[x][k]] != UNSEEN;
      assert i < |path|;
      assert Under(index, path, x, i);
    }
  }

  /** Following an edge out of the innermost open node keeps its lowlink complete. */
  lemma AdvanceLowComplete(g: Graph, index: seq<int>, low: seq<int>, low': seq<int>, stack: seq<nat>, path: seq<nat>,
                           prog: seq<nat>, v: nat)
    requires |low| == |low'| == |index| == |prog| == |g|
    requires Increasing(index, stack) && Increasing(index, path) && Explored(g, index, path, prog)
    requires LowComplete(g, index, low, stack, path, prog)
    requires v in path && v < |g| && prog[v] < |g[v]|
    requires forall u: nat :: u < |g| ==> low'[u] <= low[u]
    requires forall i: nat :: i < |path| && Under(index, path, v, i) && g[v][prog[v]] in stack ==> low'[path[i]] <= index[g[v][prog[v]]]
    requires Explored(g, index, path, prog[v := prog[v] + 1])
    ensures LowComplete(g, index, low', stack, path, prog[v := prog[v] + 1])
  {
    var prog' := prog[v := prog[v] + 1];
    forall i: nat, x, k: nat |
      i < |path| && x in stack && Under(index, path, x, i) && k < prog'[x] && g[x][k] in stack
      ensures low'[path[i]] <= index[g[x][k]]
    {
      if k < prog[x] {
        assert low[path[i]] <= index[g[x][k]];
      }
    }
  }

  function Enter(s: Search, w: nat): Search
    requires w < |s.index| == |s.low|
  {
    s.(index := s.index[w := s.nextIndex], low := s.low[w := s.nextIndex], nextIndex := s.nextIndex + 1,
       stack := s.stack + [w], path := s.path + [w])
  }

  /** Numbering an unseen node that every stacked node reaches. */
  lemma EnterInv(g: Graph, s: Search, w: nat)
    requires Inv(g, s) && w < |g| && s.index[w] == UNSEEN
    requires forall x :: x in s.stack ==> Reach(g, x, w)
    ensures Inv(g, Enter(s, w))
  {
    NumberedPush(s.index, s.nextIndex, w);
    IncreasingPush(s.index, s.nextIndex, s.stack, w);
    IncreasingPush(s.index, s.nextIndex, s.path, w);
    ExploredPush(g, s.index, s.path, s.prog, s.nextIndex, w);
    EnterStackReaches(g, s.index, s.nextIndex, s.stack, w);
    EnterAnchored(g, s.index, s.nextIndex, s.stack, s.path, w);
    EnterLowSound(g, s.index, s.low, s.nextIndex, s.stack, s.path, w);
    EnterLowComplete(g, s.index, s.low, s.nextIndex, s.stack, s.path, s.prog, w);
  }

  // ---------- following an edge to a seen node ----------

  function Skip(s: Search, v: nat, lowV: int): Search
    requires v < |s.prog| == |s.low|
  {
    s.(prog := s.prog[v := s.prog[v] + 1], low := s.low[v := lowV])
  }

  lemma SkipLowSound(g: Graph, s: Search, w: nat)
    requires Shape(g, s) && LowSound(g, s.index, s.low, s.stack, s.path)
    requires s.path != [] && Edge(g, Last(s.path), w) && w in s.stack && s.index[w] <= s.low[Last(s.path)]
    ensures LowSound(g, s.index, s.low[Last(s.path) := s.index[w]], s.stack, s.path)
  {
    var p := Last(s.path);
    var low' := s.low[p := s.index[w]];
    ReachEdge(g, p, w);
    assert LowWitness(g, s.index, s.index[w], p, w);
    assert HasLowWitness(g, s.index, low'[p], s.stack, p);
    forall v | v in s.path
      ensures low'[v] <= s.index[v] && HasLowWitness(g, s.index, low'[v], s.stack, v)
    {
      assert HasLowWitness(g, s.index, s.low[v], s.stack, v);
    }
  }

  ghost predicate NextEdge(g: Graph, s: Search, w: nat)
    requires Shape(g, s)
  {
    s.path != [] && var v := Last(s.path); s.prog[v] < |g[v]| && g[v][s.prog[v]] == w
  }

  lemma SkipInv(g: Graph, s: Search, w: nat)
    requires Inv(g, s) && NextEdge(g, s, w) && w < |g| && s.index[w] != UNSEEN
    ensures var v := Last(s.path);
            Inv(g, Skip(s, v, if w in s.stack && s.index[w] < s.low[v] then s.index[w] else s.low[v]))
  {
    hide Numbered, Increasing, CompRanged, Explored, StackReaches, Anchored, LowSound, LowComplete, CompDescends, CompExact, Reach;
    Basics(g, s);
    var v := Last(s.path);
    var lowV := if w in s.stack && s.index[w] < s.low[v] then s.index[w] else s.low[v];
    var t := Skip(s, v, lowV);
    ExploredAdvance(g, s.index, s.path, s.prog, v);
    if lowV != s.low[v] {
      SkipLowSound(g, s, w);
    } else {
      assert t.low == s.low;
    }
    forall i: nat | i < |s.path| && Under(s.index, s.path, v, i) && w in s.stack
      ensures t.low[s.path[i]] <= s.index[w]
    {
      UnderLast(s.index, s.path, i);
    }
    AdvanceLowComplete(g, s.index, s.low, t.low, s.stack, s.path, s.prog, v);
  }

  /** The innermost open node is under no frame but its own. */
  lemma UnderLast(index: seq<int>, path: seq<nat>, i: nat)
    requires Increasing(index, path) && i < |path| && Under(index, path, Last(path), i)
    ensures i == |path| - 1
  {
  }

  // ---------- following an edge to an unseen node ----------

  /** Every stacked node reaches the target of the next edge. */
  lemma EdgeFromStack(g: Graph, s: Search, w: nat)
    requires Inv(g, s) && NextEdge(g, s, w) && Last(s.path) < |g|
    ensures forall x :: x in s.stack ==> Reach(g, x, w)
  {
    hide LowSound, LowComplete, CompExact, CompDescends, CompRanged, Explored, Numbered, Reach;
    ReachEdge(g, Last(s.path), w);
    forall x | x in s.stack
      ensures Reach(g, x, w)
    {
      StackReachesLast(g, s.index, s.stack, s.path, x);
      ReachTrans(g, x, Last(s.path), w);
    }
  }

  /** No lowlink exceeds the number of the innermost open node. */
  lemma LowBelowTop(g: Graph, s: Search)
    requires Inv(g, s) && s.path != []
    ensures forall i :: 0 <= i < |s.path| ==> s.path[i] < |s.low| && s.low[s.path[i]] <= s.index[Last(s.path)]
  {
    hide LowComplete, CompExact, CompDescends, CompRanged, Explored, Numbered, Reach, StackReaches, Anchored;
    forall i | 0 <= i < |s.path|
      ensures s.path[i] < |s.low| && s.low[s.path[i]] <= s.index[Last(s.path)]
    {
      assert s.path[i] in s.path && HasLowWitness(g, s.index, s.low[s.path[i]], s.stack, s.path[i]);
    }
  }

  lemma DescendInv(g: Graph, s: Search, w: nat)
    requires Inv(g, s) && NextEdge(g, s, w) && w < |g| && s.index[w] == UNSEEN
    ensures var v := Last(s.path); var t := Enter(s, w);
            Inv(g, t.(prog := t.prog[v := t.prog[v] + 1]))
  {
    hide Numbered, Increasing, CompRanged, Explored, StackReaches, Anchored, LowSound, LowComplete, CompDescends, CompExact, Reach;
    Basics(g, s);
    var v := Last(s.path);
    EdgeFromStack(g, s, w);
    EnterInv(g, s, w);
    var t := Enter(s, w);
    Basics(g, t);
    assert v == t.path[|s.path|-1] && w == t.path[|s.path|];
    LowBelowTop(g, t);
    ExploredAdvance(g, t.index, t.path, t.prog, v);
    AdvanceLowComplete(g, t.index, t.low, t.low, t.stack, t.path, t.prog, v);
  }

  // ---------- finishing a node that belongs to an enclosing component ----------

  function Min(a: int, b: int): int {
    if a <= b then a else b
  }

  lemma IncreasingTake(index: seq<int>, xs: seq<nat>, k: nat)
    requires Increasing(index, xs) && k <= |xs|
    ensures Increasing(index, xs[..k])
    ensures forall x :: x in xs[..k] ==> x in xs && (k < |xs| ==> index[x] < index[xs[k]])
    ensures forall x :: x in xs && x !in xs[..k] ==> k < |xs| && index[xs[k]] <= index[x]
  {
  }

  /** A finished node with a lower lowlink has an anchor among the frames that stay open. */
  lemma LowerAnchor(g: Graph, s: Search) returns (a: nat)
    requires Inv(g, s) && s.path != [] && s.low[Last(s.path)] != s.index[Last(s.path)]
    ensures a in s.path[..|s.path|-1] && Reach(g, Last(s.path), a) && s.index[a] < s.index[Last(s.path)]
  {
    var v := Last(s.path);
    assert HasLowWitness(g, s.index, s.low[v], s.stack, v);
    var x :| x in s.stack && LowWitness(g, s.index, s.low[v], v, x);
    assert HasAnchor(g, s.index, s.path, x);
    a :| a in s.path && AnchoredBy(g, s.index, x, a);
    ReachTrans(g, v, x, a);
    assert s.path == s.path[..|s.path|-1] + [v];
  }

  lemma FinishAnchored(g: Graph, s: Search, a: nat)
    requires Shape(g, s) && Anchored(g, s.index, s.stack, s.path) && s.path != []
    requires a in s.path[..|s.path|-1] && Reach(g, Last(s.path), a) && s.index[a] < s.index[Last(s.path)]
    requires Increasing(s.index, s.path[..|s.path|-1])
    ensures Anchored(g, s.index, s.stack, s.path[..|s.path|-1])
  {
    var v, path' := Last(s.path), s.path[..|s.path|-1];
    assert s.path == path' + [v];
    forall x | x in s.stack
      ensures HasAnchor(g, s.index, path', x)
    {
      assert HasAnchor(g, s.index, s.path, x);
      var b :| b in s.path && AnchoredBy(g, s.index, x, b);
      if b == v {
        ReachTrans(g, x, v, a);
        assert AnchoredBy(g, s.index, x, a);
      }
    }
  }

  /** Whatever frame was the parent, its lowlink may absorb that of the finished child. */
  lemma FinishLowSound(g: Graph, s: Search, low': seq<int>)
    requires Shape(g, s) && LowSound(g, s.index, s.low, s.stack, s.path) && StackReaches(g, s.index, s.stack)
    requires |s.path| >= 2
    requires var p := s.path[|s.path|-2]; low' == s.low[p := Min(s.low[p], s.low[Last(s.path)])]
    requires Increasing(s.index, s.path[..|s.path|-1])
    ensures LowSound(g, s.index, low', s.stack, s.path[..|s.path|-1])
  {
    var v, p, path' := Last(s.path), s.path[|s.path|-2], s.path[..|s.path|-1];
    assert HasLowWitness(g, s.index, s.low[v], s.stack, v);
    var x :| x in s.stack && LowWitness(g, s.index, s.low[v], v, x);
    assert p in s.path && v in s.path && s.index[p] < s.index[v];
    assert Reach(g, p, v);
    ReachTrans(g, p, v, x);
    assert LowWitness(g, s.index, s.low[v], p, x);
    assert HasLowWitness(g, s.index, s.low[v], s.stack, p);
    forall u | u in path'
      ensures low'[u] <= s.index[u] && HasLowWitness(g, s.index, low'[u], s.stack, u)
    {
      assert HasLowWitness(g, s.index, s.low[u], s.stack, u);
    }
  }

  lemma FinishLowComplete(g: Graph, index: seq<int>, low: seq<int>, low': seq<int>, stack: seq<nat>,
                          path: seq<nat>, path': seq<nat>, prog: seq<nat>)
    requires |low| == |low'| == |index| == |prog| == |g| && |path| >= 2 && path' == path[..|path|-1]
    requires Increasing(index, stack) && Increasing(index, path) && Increasing(index, path')
    requires Explored(g, index, path, prog) && Explored(g, index, path', prog)
    requires forall u: nat :: u < |low| ==> low'[u] <= low[u]
    requires low'[path[|path|-2]] <= low[path[|path|-1]]
    requires LowComplete(g, index, low, stack, path, prog)
    ensures LowComplete(g, index, low', stack, path', prog)
  {
  }

  lemma FinishExplored(g: Graph, s: Search)
    requires Shape(g, s) && s.path != [] && s.prog[Last(s.path)] == |g[Last(s.path)]|
    ensures Explored(g, s.index, s.path[..|s.path|-1], s.prog)
  {
  }

  /** The parent's lowlink after its child returns; nothing changes without a parent. */
  function Absorb(low: seq<int>, path: seq<nat>): (low': seq<int>)
    requires path != [] && forall i :: 0 <= i < |path| ==> path[i] < |low|
    ensures |low'| == |low| && forall u: nat :: u < |low| ==> low'[u] <= low[u]
    ensures |path| >= 2 ==> low'[path[|path|-2]] <= low[path[|path|-1]]
  {
    if |path| < 2 then low
    else var p := path[|path|-2]; low[p := Min(low[p], low[Last(path)])]
  }

  lemma FinishShape(g: Graph, s: Search, low': seq<int>)
    requires Shape(g, s) && s.path != [] && s.prog[Last(s.path)] == |g[Last(s.path)]| && |low'| == |s.low|
    ensures Shape(g, s.(low := low', path := s.path[..|s.path|-1]))
  {
  }

  lemma FinishInv(g: Graph, s: Search)
    requires Inv(g, s) && s.path != [] && s.prog[Last(s.path)] == |g[Last(s.path)]|
    requires s.low[Last(s.path)] != s.index[Last(s.path)]
    ensures Inv(g, s.(low := Absorb(s.low, s.path), path := s.path[..|s.path|-1]))
  {
    hide Numbered, Increasing, CompRanged, Explored, StackReaches, Anchored, LowSound, LowComplete, CompDescends, CompExact, Reach;
    Basics(g, s);
    var low' := Absorb(s.low, s.path);
    var path' := s.path[..|s.path|-1];
    var a := LowerAnchor(g, s);
    FinishShape(g, s, low');
    FinishAnchored(g, s, a);
    FinishLowSound(g, s, low');
    FinishLowComplete(g, s.index, s.low, low', s.stack, s.path, path', s.prog);
  }

  // ---------- finishing the root of a component ----------

  /** `comp'` gives number `c` to the nodes of `popped` and leaves the others alone. */
  ghost predicate Popped(comp: seq<int>, comp': seq<int>, popped: seq<nat>, c: int) {
    |comp'| == |comp| && forall v: nat :: v < |comp| ==> comp'[v] == if v in popped then c else comp[v]
  }

  /** The innermost open node is finished and closes a component: the stack from position `k` up. */
  ghost predicate AtRoot(g: Graph, s: Search, k: nat)
    requires Shape(g, s)
  {
    && s.path != [] && s.prog[Last(s.path)] == |g[Last(s.path)]| && s.low[Last(s.path)] == s.index[Last(s.path)]
    && k < |s.stack| && s.stack[k] == Last(s.path)
  }

  lemma PoppedIsUpper(index: seq<int>, stack: seq<nat>, k: nat, x: nat)
    requires Increasing(index, stack) && k < |stack| && x in stack
    ensures x in stack[k..] <==> index[stack[k]] <= index[x]
    ensures x in stack[k..] <==> x !in stack[..k]
  {
  }

  /** Edges out of the popped nodes stay among them or lead to finished components. */
  lemma RootEdge(g: Graph, s: Search, k: nat, x: nat, y: nat)
    requires Inv(g, s) && AtRoot(g, s, k) && x in s.stack[k..] && Edge(g, x, y)
    ensures y < |g| && (y in s.stack[k..] || (y !in s.stack && s.comp[y] != UNSEEN))
  {
    var v, m := Last(s.path), |s.path| - 1;
    PoppedIsUpper(s.index, s.stack, k, x);
    assert x in s.path ==> s.index[x] <= s.index[v];
    assert s.prog[x] == |g[x]|;
    var e: nat :| e < |g[x]| && g[x][e] == y;
    if y in s.stack {
      assert Under(s.index, s.path, x, m);
      assert s.low[s.path[m]] <= s.index[g[x][e]];
      PoppedIsUpper(s.index, s.stack, k, y);
    }
  }

  lemma RootDescends(g: Graph, s: Search, k: nat, comp': seq<int>)
    requires Inv(g, s) && AtRoot(g, s, k) && Popped(s.comp, comp', s.stack[k..], s.nextComp)
    ensures CompDescends(g, comp')
  {
    forall x: nat, y: nat | Edge(g, x, y) && comp'[x] != UNSEEN
      ensures y < |g| && UNSEEN < comp'[y] <= comp'[x]
    {
      if x in s.stack[k..] {
        RootEdge(g, s, k, x, y);
      } else {
        assert s.comp[x] != UNSEEN;
        assert s.comp[y] != UNSEEN && y !in s.stack;
      }
    }
  }

  /** Popped nodes and the root reach each other. */
  lemma RootMutual(g: Graph, s: Search, k: nat, comp': seq<int>, x: nat)
    requires Inv(g, s) && AtRoot(g, s, k) && Popped(s.comp, comp', s.stack[k..], s.nextComp)
    requires CompDescends(g, comp') && x in s.stack[k..]
    ensures Reach(g, x, Last(s.path)) && Reach(g, Last(s.path), x)
  {
    var v := Last(s.path);
    PoppedIsUpper(s.index, s.stack, k, x);
    assert HasAnchor(g, s.index, s.path, x);
    var a :| a in s.path && AnchoredBy(g, s.index, x, a);
    var closed := set u: nat | u < |g| && comp'[u] != UNSEEN;
    ReachClosed(g, closed, x, a);
    assert a in s.stack[k..];
    PoppedIsUpper(s.index, s.stack, k, a);
    assert a == v;
  }

  /** A finished node reaches no popped one. */
  lemma DoneReachesDone(g: Graph, comp: seq<int>, u: nat, v: nat)
    requires |comp| == |g| && CompDescends(g, comp) && u < |g| && comp[u] != UNSEEN && Reach(g, u, v)
    ensures v < |g| && comp[v] != UNSEEN
  {
    var done := set x: nat | x < |g| && comp[x] != UNSEEN;
    ReachClosed(g, done, u, v);
  }

  lemma RootExact(g: Graph, s: Search, k: nat, comp': seq<int>)
    requires Inv(g, s) && AtRoot(g, s, k) && Popped(s.comp, comp', s.stack[k..], s.nextComp)
    requires CompDescends(g, comp')
    ensures CompExact(g, comp', s.nextComp + 1)
  {
    var root, popped := Last(s.path), s.stack[k..];
    forall u: nat, v: nat | u < |g| && v < |g| && comp'[u] != UNSEEN && comp'[v] != UNSEEN
      ensures comp'[u] == comp'[v] <==> MutuallyReachable(g, u, v)
    {
      if u in popped && v in popped {
        RootMutual(g, s, k, comp', u);
        RootMutual(g, s, k, comp', v);
        ReachTrans(g, u, root, v);
        ReachTrans(g, v, root, u);
      } else if u in popped && Reach(g, v, u) {
        DoneReachesDone(g, s.comp, v, u);
      } else if v in popped && Reach(g, u, v) {
        DoneReachesDone(g, s.comp, u, v);
      }
    }
    forall c | 0 <= c < s.nextComp + 1
      ensures CompUsed(comp', c)
    {
      if c < s.nextComp {
        assert CompUsed(s.comp, c);
        var v :| Carries(s.comp, v, c);
        assert v !in s.stack;
        assert Carries(comp', v, c);
      } else {
        assert root == popped[0];
        assert Carries(comp', root, c);
      }
    }
  }

  lemma RootShape(g: Graph, s: Search, k: nat, comp': seq<int>)
    requires Shape(g, s) && AtRoot(g, s, k) && Popped(s.comp, comp', s.stack[k..], s.nextComp)
    ensures Shape(g, s.(comp := comp', stack := s.stack[..k], path := s.path[..|s.path|-1], nextComp := s.nextComp + 1))
  {
    var path' := s.path[..|s.path|-1];
    IncreasingTake(s.index, s.path, |s.path| - 1);
    IncreasingTake(s.index, s.stack, k);
    FinishExplored(g, s);
    forall v: nat | v < |g|
      ensures UNSEEN <= comp'[v] < s.nextComp + 1
      ensures comp'[v] != UNSEEN <==> s.index[v] != UNSEEN && v !in s.stack[..k]
    {
      if v in s.stack {
        PoppedIsUpper(s.index, s.stack, k, v);
      }
    }
  }

  lemma RootLow(g: Graph, s: Search, k: nat)
    requires Shape(g, s) && AtRoot(g, s, k) && LowSound(g, s.index, s.low, s.stack, s.path)
    requires Increasing(s.index, s.stack[..k]) && Increasing(s.index, s.path[..|s.path|-1])
    ensures LowSound(g, s.index, s.low, s.stack[..k], s.path[..|s.path|-1])
  {
    var path' := s.path[..|s.path|-1];
    forall u | u in path'
      ensures s.low[u] <= s.index[u] && HasLowWitness(g, s.index, s.low[u], s.stack[..k], u)
    {
      IncreasingTake(s.index, s.path, |s.path| - 1);
      assert HasLowWitness(g, s.index, s.low[u], s.stack, u);
      var x :| x in s.stack && LowWitness(g, s.index, s.low[u], u, x);
      PoppedIsUpper(s.index, s.stack, k, x);
    }
  }

  lemma RootAnchored(g: Graph, s: Search, k: nat)
    requires Shape(g, s) && AtRoot(g, s, k) && Anchored(g, s.index, s.stack, s.path)
    requires Increasing(s.index, s.stack[..k]) && Increasing(s.index, s.path[..|s.path|-1])
    ensures Anchored(g, s.index, s.stack[..k], s.path[..|s.path|-1])
  {
    var path' := s.path[..|s.path|-1];
    assert s.path == path' + [Last(s.path)];
    forall x | x in s.stack[..k]
      ensures HasAnchor(g, s.index, path', x)
    {
      PoppedIsUpper(s.index, s.stack, k, x);
      assert HasAnchor(g, s.index, s.path, x);
      var a :| a in s.path && AnchoredBy(g, s.index, x, a);
    }
  }

  lemma RootLowComplete(g: Graph, index: seq<int>, low: seq<int>, stack: seq<nat>, k: nat, path: seq<nat>,
                        path': seq<nat>, prog: seq<nat>)
    requires |low| == |index| == |prog| == |g| && path != [] && path' == path[..|path|-1]
    requires k < |stack| && stack[k] == Last(path)
    requires Increasing(index, stack) && Increasing(index, path)
    requires Increasing(index, stack[..k]) && Increasing(index, path')
    requires Explored(g, index, path, prog) && Explored(g, index, path', prog)
    requires LowComplete(g, index, low, stack, path, prog)
    ensures LowComplete(g, index, low, stack[..k], path', prog)
  {
  }

  lemma RootInv(g: Graph, s: Search, k: nat, comp': seq<int>)
    requires Inv(g, s) && AtRoot(g, s, k) && Popped(s.comp, comp', s.stack[k..], s.nextComp)
    ensures Inv(g, s.(comp := comp', stack := s.stack[..k], path := s.path[..|s.path|-1], nextComp := s.nextComp + 1))
  {
    RootShape(g, s, k, comp');
    RootDescends(g, s, k, comp');
    RootExact(g, s, k, comp');
    RootAnchored(g, s, k);
    RootLow(g, s, k);
    RootLowComplete(g, s.index, s.low, s.stack, k, s.path, s.path[..|s.path|-1], s.prog);
  }

  /** A parent's lowlink already lies below the root it was waiting for. */
  lemma RootAbsorb(g: Graph, s: Search, k: nat)
    requires Inv(g, s) && AtRoot(g, s, k)
    ensures Absorb(s.low, s.path) == s.low
  {
    if |s.path| >= 2 {
      var p := s.path[|s.path|-2];
      assert p in s.path && HasLowWitness(g, s.index, s.low[p], s.stack, p);
      assert s.index[p] < s.index[Last(s.path)];
    }
  }

  // ---------- the pass itself ----------

  /** A depth-first frame: a node and the position of its next edge. */
  datatype Frame = Frame(node: nat, next: nat)

  ghost predicate Framed(call: seq<Frame>, path: seq<nat>, prog: seq<nat>) {
    && |call| == |path|
    && forall i :: 0 <= i < |path| ==> path[i] < |prog| && call[i] == Frame(path[i], prog[path[i]])
  }

  /** The frames while an unseen node `w` waits on top of them for its number. */
  ghost predicate Waiting(g: Graph, s: Search, call: seq<Frame>, w: nat)
    requires Shape(g, s)
  {
    && w < |g| && s.index[w] == UNSEEN && |call| == |s.path| + 1 && call[|s.path|] == Frame(w, 0)
    && (s.path == [] || (NextEdge(g, s, w) && Framed(call[..|s.path|], s.path, Followed(s).prog)))
  }

  /** The innermost open node has followed one more edge. */
  function Followed(s: Search): Search
    requires s.path != [] ==> Last(s.path) < |s.prog|
  {
    if s.path == [] then s else s.(prog := s.prog[Last(s.path) := s.prog[Last(s.path)] + 1])
  }

  /** The iteration that numbers the waiting node. */
  lemma WaitingEnter(g: Graph, s: Search, call: seq<Frame>, w: nat)
    requires Inv(g, s) && Waiting(g, s, call, w)
    ensures var t := Enter(Followed(s), w); Inv(g, t) && Framed(call, t.path, t.prog)
  {
    hide Inv, Shape;
    Basics(g, s);
    UnseenIsOff(g, s, w);
    if s.path == [] {
      NoFrameNoStack(g, s);
      EnterInv(g, s, w);
    } else {
      DescendInv(g, s, w);
    }
    FramedEnter(s, call, w);
  }

  lemma NoFrameNoStack(g: Graph, s: Search)
    requires Inv(g, s) && s.path == []
    ensures s.stack == []
  {
    hide LowSound, LowComplete, CompExact, CompDescends, CompRanged, Explored, Numbered, Reach;
    if s.stack != [] {
      StackReachesLast(g, s.index, s.stack, s.path, s.stack[0]);
    }
  }

  lemma FramedEnter(s: Search, call: seq<Frame>, w: nat)
    requires w < |s.index| == |s.low| && w < |s.prog| && w !in s.path && s.prog[w] == 0
    requires |call| == |s.path| + 1 && call[|s.path|] == Frame(w, 0)
    requires s.path != [] ==> Last(s.path) < |s.prog| && Framed(call[..|s.path|], s.path, Followed(s).prog)
    ensures var t := Enter(Followed(s), w); Framed(call, t.path, t.prog)
  {
  }

  /** How many edges are still to be followed. */
  ghost function Remaining(g: Graph, prog: seq<nat>, n: nat): int
    requires n <= |g| == |prog|
  {
    if n == 0 then 0 else Remaining(g, prog, n - 1) + |g[n-1]| - prog[n-1]
  }

  lemma {:induction false} RemainingDrops(g: Graph, prog: seq<nat>, n: nat, v: nat)
    requires n <= |g| == |prog| && v < |g|
    ensures Remaining(g, prog[v := prog[v] + 1], n) == Remaining(g, prog, n) - if v < n then 1 else 0
  {
    if n > 0 {
      RemainingDrops(g, prog, n - 1, v);
    }
  }

  lemma {:induction false} RemainingNat(g: Graph, prog: seq<nat>, n: nat)
    requires n <= |g| == |prog| && forall v :: 0 <= v < |g| ==> prog[v] <= |g[v]|
    ensures Remaining(g, prog, n) >= 0
  {
    if n > 0 {
      RemainingNat(g, prog, n - 1);
    }
  }

  lemma UnseenIsOff(g: Graph, s: Search, v: nat)
    requires Shape(g, s) && v < |g| && s.index[v] == UNSEEN
    ensures v !in s.stack && v !in s.path && s.prog[v] == 0
  {
  }

  /** Where the node that closes a component sits on the stack. */
  lemma RootPosition(g: Graph, s: Search) returns (k: nat)
    requires Shape(g, s) && s.path != []
    ensures k < |s.stack| && s.stack[k] == Last(s.path)
    ensures forall i, j :: 0 <= i < j < |s.stack| ==> s.stack[i] != s.stack[j]
  {
    assert Last(s.path) in s.stack;
    k :| 0 <= k < |s.stack| && s.stack[k] == Last(s.path);
  }

  lemma FramedTop(call: seq<Frame>, path: seq<nat>, prog: seq<nat>)
    requires Framed(call, path, prog) && call != []
    ensures var m := |call| - 1;
            |path| == |call| && path[m] < |prog| && call[m] == Frame(path[m], prog[path[m]])
            && (m > 0 ==> call[m-1].node == path[m-1]) && Framed(call[..m], path[..m], prog)
  {
  }

  lemma FramedFollow(call: seq<Frame>, path: seq<nat>, prog: seq<nat>)
    requires Framed(call, path, prog) && call != []
    requires forall i, j :: 0 <= i < j < |path| ==> path[i] != path[j]
    ensures var m := |call| - 1; var v := path[m];
            Framed(call[m := Frame(v, prog[v] + 1)], path, prog[v := prog[v] + 1])
  {
  }

  /** The working storage of one run over `g`. */
  class Pass {
    const g: Graph
    const index: array<int>
    const low: array<int>
    const onStack: array<bool>
    const comp: array<int>
    var stack: seq<nat>
    var call: seq<Frame>
    var nextIndex: nat
    var nextComp: nat
    ghost var path: seq<nat>
    ghost var prog: seq<nat>

    ghost function State(): Search
      reads this, index, low, comp
    {
      Search(index[..], low[..], comp[..], stack, path, prog, nextIndex, nextComp)
    }

    ghost predicate Valid()
      reads this, index, low, onStack, comp
    {
      && index != low && index != comp && low != comp
      && WellFormed(g) && index.Length == low.Length == comp.Length == onStack.Length == |g|
      && Marks(onStack[..], stack) && Inv(g, State())
    }

    /** Every frame below the innermost has followed an edge. */
    ghost predicate Resting()
      reads this
    {
      forall i :: 0 <= i < |call| - 1 ==> call[i].next > 0
    }

    /** Between two iterations: at most the innermost node waits for its number. */
    ghost predicate Ready()
      reads this, index, low, onStack, comp
      requires Valid()
    {
      && Resting()
      && if |call| == |path| then Framed(call, path, prog) && (call != [] ==> call[|call|-1].next > 0)
         else |call| > 0 && Waiting(g, State(), call, call[|call|-1].node)
    }

    ghost function Measure(): int
      reads this, index, low, onStack, comp
      requires Valid()
    {
      2 * Remaining(g, prog, |g|) + |call| - if |call| > |path| && path != [] then 2 else 0
    }

    constructor (g: Graph)
      requires WellFormed(g)
      ensures Valid() && this.g == g && call == [] && path == [] && fresh(index) && fresh(low) && fresh(onStack) && fresh(comp)
    {
      this.g := g;
      index := new int[|g|](_ => UNSEEN);
      low := new int[|g|](_ => 0);
      onStack := new bool[|g|](_ => false);
      comp := new int[|g|](_ => UNSEEN);
      stack, call, nextIndex, nextComp := [], [], 0, 0;
      path, prog := [], seq(|g|, _ => 0);
      new;
      StartInv(g);
      assert State() == Start(|g|);
    }

    /** Give the waiting node its number and put it on the stack. */
    method Number(v: nat)
      requires Valid() && Waiting(g, State(), call, v)
      modifies this`nextIndex, this`stack, this`path, this`prog, index, low, onStack
      ensures Valid() && State() == Enter(Followed(old(State())), v) && Framed(call, path, prog)
    {
      hide Inv, Shape;
      ghost var s := State();
      Basics(g, s);
      UnseenIsOff(g, s, v);
      WaitingEnter(g, s, call, v);
      assert v !in stack;
      index[v] := nextIndex;
      low[v] := nextIndex;
      nextIndex := nextIndex + 1;
      stack := stack + [v];
      onStack[v] := true;
      prog, path := Followed(s).prog, path + [v];
      assert State() == Enter(Followed(s), v);
    }

    /** Undo the stack down to `v` and give what is popped the next component number. */
    method PopComponent(v: nat, ghost k: nat)
      requires |stack| > k && stack[k] == v
      requires onStack.Length == comp.Length && Marks(onStack[..], stack)
      requires forall i, j :: 0 <= i < j < |stack| ==> stack[i] != stack[j]
      modifies this`stack, onStack, comp
      ensures stack == old(stack)[..k] && Marks(onStack[..], stack)
      ensures Popped(old(comp[..]), comp[..], old(stack)[k..], nextComp)
    {
      ghost var stack0, comp0 := stack, comp[..];
      while true
        invariant k < |stack| <= |stack0| && stack == stack0[..|stack|]
        invariant Marks(onStack[..], stack)
        invariant Popped(comp0, comp[..], stack0[|stack|..], nextComp)
        decreases |stack|
      {
        var x := stack[|stack|-1];
        stack := stack[..|stack|-1];
        onStack[x] := false;
        comp[x] := nextComp;
        if x == v {
          break;
        }
      }
    }

    /** Follow the next edge of the innermost frame. */
    method Follow()
      requires Valid() && Framed(call, path, prog) && Resting() && call != []
      requires call[|call|-1].next < |g[call[|call|-1].node]|
      modifies this`call, this`prog, low
      ensures Valid() && Ready() && path == old(path)
      ensures old(index[..]) == index[..]
      ensures Measure() < old(Measure())
    {
      hide Inv, Shape;
      ghost var s := State();
      Basics(g, s);
      FramedFollow(call, path, prog);
      var m := |call| - 1;
      var v, ci := call[m].node, call[m].next;
      var w := g[v][ci];
      call := call[m := Frame(v, ci + 1)];
      assert v == Last(path) && NextEdge(g, s, w);
      if index[w] == UNSEEN {
        call := call + [Frame(w, 0)];
        assert call[..|path|] == old(call)[m := Frame(v, ci + 1)];
      } else {
        SkipInv(g, s, w);
        RemainingDrops(g, prog, |g|, v);
        if onStack[w] {
          low[v] := Min(low[v], index[w]);
        }
        prog := prog[v := prog[v] + 1];
        assert State() == Skip(s, v, if w in stack && s.index[w] < s.low[v] then s.index[w] else s.low[v]);
      }
    }

    /** Close the component of the finished innermost node if it is the root of one. */
    method CloseComponent(v: nat)
      requires Valid() && path != [] && v == Last(path) && prog[v] == |g[v]|
      modifies this`stack, this`nextComp, this`path, onStack, comp
      ensures |index[..]| == |low[..]| == |g| && old(index[..]) == index[..] && old(low[..]) == low[..]
      ensures path == old(path[..|path|-1])
      ensures old(path[..]) == path + [v] && v < |g| && forall i :: 0 <= i < |path| ==> path[i] < |g|
      ensures index != low && index != comp && low != comp
      ensures WellFormed(g) && onStack.Length == |g| && Marks(onStack[..], stack)
      ensures Inv(g, State().(low := Absorb(low[..], old(path))))
    {
      hide Inv, Shape;
      ghost var s := State();
      Basics(g, s);
      ghost var k := RootPosition(g, s);
      if low[v] == index[v] {
        PopComponent(v, k);
        RootInv(g, s, k, comp[..]);
        RootAbsorb(g, s, k);
        nextComp := nextComp + 1;
        path := path[..|path|-1];
      } else {
        FinishInv(g, s);
        path := path[..|path|-1];
      }
      assert s.path == path + [v];
    }

    /** Leave the finished innermost frame. */
    method Close()
      requires Valid() && Framed(call, path, prog) && Resting() && call != []
      requires call[|call|-1].next >= |g[call[|call|-1].node]|
      modifies this`stack, this`nextComp, this`path, this`call, onStack, comp, low
      ensures Valid() && Ready()
      ensures old(index[..]) == index[..]
      ensures Measure() < old(Measure())
    {
      hide Inv, Shape, Remaining, Waiting, Marks, Framed;
      Basics(g, State());
      FramedTop(call, path, prog);
      var v := call[|call|-1].node;
      CloseComponent(v);
      AbsorbChild(v, old(path));
      call := call[..|call|-1];
    }

    /** Hand the lowlink of the finished child `v` to its parent, if there is one. */
    method AbsorbChild(v: nat, ghost full: seq<nat>)
      requires |low[..]| == |g| && full != [] && v == Last(full) && |call| == |full|
      requires forall i :: 0 <= i < |full| ==> full[i] < |g|
      requires |call| > 1 ==> call[|call|-2].node == full[|full|-2]
      modifies low
      ensures low[..] == Absorb(old(low[..]), full)
    {
      if |call| > 1 {
        var parent := call[|call|-2].node;
        low[parent] := Min(low[parent], low[v]);
      }
    }

    /** Number the innermost node if it has followed no edge yet. */
    method Begin(v: nat, ci: nat)
      requires Valid() && Ready() && call != [] && call[|call|-1] == Frame(v, ci)
      modifies this`nextIndex, this`stack, this`path, this`prog, index, low, onStack
      ensures Valid() && Framed(call, path, prog) && Resting() && Measure() == old(Measure())
      ensures forall u :: 0 <= u < |g| && old(index[u]) != UNSEEN ==> index[u] != UNSEEN
      ensures v < |g| && index[v] != UNSEEN
    {
      hide Inv, Shape, Marks, Remaining;
      ghost var s := State();
      Basics(g, s);
      if ci == 0 {
        Number(v);
        if s.path != [] {
          RemainingDrops(g, s.prog, |g|, Last(s.path));
        }
      }
    }

    /** One iteration of the depth-first loop. */
    method Step()
      requires Valid() && Ready() && call != []
      modifies this`stack, this`nextComp, this`path, this`call, this`prog, this`nextIndex, index, onStack, comp, low
      ensures Valid() && Ready()
      ensures forall v :: 0 <= v < |g| && old(index[v]) != UNSEEN ==> index[v] != UNSEEN
      ensures var v := old(call[|call|-1].node); v < |g| && index[v] != UNSEEN
      ensures Measure() < old(Measure())
    {
      hide Inv, Shape, Marks, Remaining, Framed, Waiting;
      var v, ci := call[|call|-1].node, call[|call|-1].next;
      Begin(v, ci);
      ghost var seen := index[..];
      if ci < |g[v]| {
        Follow();
      } else {
        Close();
      }
      assert index[..] == seen;
    }

    lemma MeasureNat()
      requires Valid() && Ready()
      ensures Measure() >= 0
    {
      RemainingNat(g, prog, |g|);
    }

    /** Explore everything reachable from the unseen node `r`. */
    method Explore(r: nat)
      requires Valid() && path == [] && r < |g| && index[r] == UNSEEN
      modifies this`stack, this`nextComp, this`path, this`call, this`prog, this`nextIndex, index, onStack, comp, low
      ensures Valid() && path == []
      ensures forall v :: 0 <= v < |g| && old(index[v]) != UNSEEN ==> index[v] != UNSEEN
      ensures index[r] != UNSEEN
    {
      hide Inv, Shape;
      call := [Frame(r, 0)];
      Basics(g, State());
      while call != []
        invariant Valid() && Ready() && (index[r] != UNSEEN || call == [Frame(r, 0)])
        invariant forall v :: 0 <= v < |g| && old(index[v]) != UNSEEN ==> index[v] != UNSEEN
        decreases Measure()
      {
        MeasureNat();
        Step();
      }
    }
  }

  /** `comp` numbers the strongly connected components of `g` densely, each after the ones it leads to. */
  ghost predicate SccNumbering(g: Graph, comp: seq<nat>) {
    && |comp| == |g|
    && (forall u, v :: 0 <= u < |g| && 0 <= v < |g| ==> (comp[u] == comp[v] <==> MutuallyReachable(g, u, v)))
    && (forall u: nat, v: nat :: Edge(g, u, v) && v < |g| ==> comp[v] <= comp[u])
    && (forall u, c :: 0 <= u < |g| && 0 <= c <= comp[u] ==> CompUsed(comp, c))
  }

  method TarjanScc(g: Graph) returns (comp: seq<nat>)
    requires WellFormed(g)
    ensures SccNumbering(g, comp)
  {
    hide Inv, Shape, Marks;
    var pass := new Pass(g);
    for r := 0 to |g|
      invariant pass.Valid() && pass.g == g && pass.path == []
      invariant fresh(pass) && fresh(pass.index) && fresh(pass.low) && fresh(pass.onStack) && fresh(pass.comp)
      invariant forall v :: 0 <= v < r ==> pass.index[v] != UNSEEN
    {
      Basics(g, pass.State());
      if pass.index[r] == UNSEEN {
        pass.Explore(r);
      }
    }
    Basics(g, pass.State());
    AllDone(g, pass.State());
    comp := pass.comp[..];
  }

  lemma AllDone(g: Graph, s: Search)
    requires WellFormed(g) && Inv(g, s) && s.path == [] && forall v :: 0 <= v < |g| ==> s.index[v] != UNSEEN
    ensures forall v :: 0 <= v < |g| ==> s.comp[v] >= 0
    ensures SccNumbering(g, s.comp)
  {
    NoFrameNoStack(g, s);
    assert forall u: nat, v: nat :: Edge(g, u, v) && v < |g| ==> s.comp[v] <= s.comp[u];
  }
}
