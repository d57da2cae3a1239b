/** All versions of a package in one table: dependencies and `REQUIRED_USE` over the same flag nodes. */
module JointEncoding {
  import opened Wrappers
  import opened Solving
  import opened RequiredUse
  import opened Composing
  import opened Registry
  import opened UseEncoder
  import opened Pins
  import opened DepTree
  import opened DepImage
  import opened DepMeaning
  import opened DepConvert

  // ---------- flags ----------

  /** Real packages and flag values only, with a value for every ceded flag. */
  ghost predicate Decided(cfg: Config, env: Selection) {
    BaseOnly(env) && forall f :: Get(cfg, f).Ceded? ==> Decision(f) in env && env[Decision(f)] <= ON
  }

  /** The flags that are on: the ceded ones as selected, the fixed ones as configured. */
  function Selected(cfg: Config, env: Selection): FlagSet {
    set f | f in cfg && if cfg[f].Ceded? then Decision(f) in env && env[Decision(f)] == ON else cfg[f].Enabled?
  }

  lemma SelectedAgrees(cfg: Config, env: Selection)
    ensures Agrees(cfg, Selected(cfg, env))
  {
  }

  /** Nothing outside ceded flags and the encoding's own choices. */
  function FlagPart(cfg: Config, sel: Selection): Selection {
    map p | p in sel && (p.Choice? || (p.Decision? && Get(cfg, p.flag).Ceded?)) :: sel[p]
  }

  lemma FlagPartSolves(cfg: Config, sel: Selection, reqs: seq<Req>, choices: seq<VirtualChoice>, lo: nat, hi: nat)
    requires FlagsOnly(cfg, reqs, choices, lo, hi) && Solves(sel, reqs, choices)
    ensures Solves(FlagPart(cfg, sel), reqs, choices)
  {
    hide Closed;
    var part := FlagPart(cfg, sel);
    forall c: VirtualChoice | c in choices && c.pkg in part
      ensures exists b :: b in c.versions && TakesBranch(part, c, b)
    {
      var b: Branch :| b in c.versions && TakesBranch(sel, c, b);
      forall r: Req | r in b.deps
        ensures Meets(part, r)
      {
        assert OverFlags(cfg, r) && Meets(sel, r);
      }
      assert TakesBranch(part, c, b);
    }
  }

  /** What is selected for the package and its environment together. */
  lemma WholeSolves(cfg: Config, sel: Selection, env: Selection, reqs: seq<Req>, choices: seq<VirtualChoice>, lo: nat, hi: nat)
    requires FlagsOnly(cfg, reqs, choices, lo, hi) && Solves(sel, reqs, choices)
    requires Decided(cfg, env) && Follows(sel, Selected(cfg, env))
    ensures Solves(env + Slice(sel, lo, hi), reqs, choices) && Over(env + Slice(sel, lo, hi), env)
  {
    var whole := env + Slice(sel, lo, hi);
    forall r: Req | OverFlags(cfg, r) && (IsBase(r.pkg) || IsId(r.pkg, lo, hi)) && Meets(sel, r)
      ensures Meets(whole, r)
    {
      SameValue(cfg, sel, env, r, lo, hi);
    }
    forall c: VirtualChoice | c in choices && c.pkg in whole
      ensures exists b :: b in c.versions && TakesBranch(whole, c, b)
    {
      if c.pkg.Decision? {
        assert Meets(sel, Req(c.pkg, Any));
        SameValue(cfg, sel, env, Req(c.pkg, Any), lo, hi);
      }
      var b: Branch :| b in c.versions && TakesBranch(sel, c, b);
      assert TakesBranch(whole, c, b);
    }
  }

  lemma SameValue(cfg: Config, sel: Selection, env: Selection, r: Req, lo: nat, hi: nat)
    requires OverFlags(cfg, r) && (IsBase(r.pkg) || IsId(r.pkg, lo, hi)) && r.pkg in sel
    requires Decided(cfg, env) && Follows(sel, Selected(cfg, env))
    ensures var whole := env + Slice(sel, lo, hi); r.pkg in whole && whole[r.pkg] == sel[r.pkg]
  {
    if r.pkg.Decision? {
      assert Get(cfg, r.pkg.flag).Ceded?;
    }
  }

  /** Being solvable over an environment is extending the flags it selects. */
  lemma SolvableExtends(cfg: Config, reqs: seq<Req>, choices: seq<VirtualChoice>, lo: nat, hi: nat, env: Selection)
    requires FlagsOnly(cfg, reqs, choices, lo, hi) && Decided(cfg, env)
    ensures Solvable(reqs, choices, env) <==> Extensible(reqs, choices, Selected(cfg, env))
  {
    hide Solves, FlagsOnly, BaseOnly;
    if Solvable(reqs, choices, env) {
      var sel :| Solves(sel, reqs, choices) && Over(sel, env);
      FlagPartSolves(cfg, sel, reqs, choices, lo, hi);
      assert Follows(FlagPart(cfg, sel), Selected(cfg, env));
    }
    if Extensible(reqs, choices, Selected(cfg, env)) {
      var sel: Selection :| Solves(sel, reqs, choices) && Follows(sel, Selected(cfg, env));
      WholeSolves(cfg, sel, env, reqs, choices, lo, hi);
    }
  }

  // ---------- one version ----------

  /** One version: how its conditionals are settled, its dependency classes, and its `REQUIRED_USE`. */
  datatype Ebuild = Ebuild(policy: Policy, classes: seq<seq<DepEntry>>, formula: Option<Formula>)

  /** The first and third class are the build-time ones. */
  function ClassPolicy(v: Ebuild, i: nat): Policy {
    v.policy.(buildtime := i == 0 || i == 2)
  }

  /** Only in DEPEND and BDEPEND do atoms on the package itself give way; elsewhere alternatives rank as listed. */
  lemma ClassRanks(v: Ebuild, cs: seq<DepEntry>)
    ensures Ranked(ClassPolicy(v, 0), cs) == Ranked(ClassPolicy(v, 2), cs) == Ranked(v.policy.(buildtime := true), cs)
    ensures Ranked(ClassPolicy(v, 1), cs) == Ranked(ClassPolicy(v, 3), cs) == Ranked(ClassPolicy(v, 4), cs) == cs
  {
  }

  predicate DepsRead(v: Ebuild, env: Selection) {
    forall i :: 0 <= i < |v.classes| ==> AllRead(ClassPolicy(v, i), v.classes[i], env)
  }

  predicate DepsPulled(v: Ebuild, env: Selection) {
    forall i :: 0 <= i < |v.classes| ==> AllPulled(ClassPolicy(v, i), v.classes[i], env)
  }

  /** What is encoded of the formula is true of the selected flags. */
  predicate UseHolds(v: Ebuild, env: Selection) {
    v.formula.Some? ==> Holds(Weaken(v.policy.cfg, v.formula.value, false), Selected(v.policy.cfg, env), false)
  }

  /** What compiling a version yields: its dependencies with ids up to `mid`, then its `REQUIRED_USE`. */
  datatype Compiled = Compiled(
    depReqs: seq<Req>, depNodes: seq<VirtualChoice>, useReqs: seq<Req>, useNodes: seq<VirtualChoice>,
    first: nat, mid: nat, next: nat)
  {
    function Reqs(): seq<Req> { depReqs + useReqs }
    function Nodes(): seq<VirtualChoice> { depNodes + useNodes }
  }

  /** Both parts mean what they stand for. */
  ghost predicate Compiles(v: Ebuild, c: Compiled) {
    && c.first <= c.mid && Closed(c.depReqs, c.depNodes, c.first, c.mid) && OwnIds(c.depNodes, c.first, c.mid)
    && FlagsOnly(v.policy.cfg, c.useReqs, c.useNodes, c.mid, c.next) && OwnIds(c.useNodes, c.mid, c.next)
    && (forall env :: BaseOnly(env) ==> DepsMean(v, c, env))
    && (forall env :: Decided(v.policy.cfg, env) ==> (Solvable(c.useReqs, c.useNodes, env) <==> UseHolds(v, env)))
  }

  ghost predicate DepsMean(v: Ebuild, c: Compiled, env: Selection) {
    && (Solvable(c.depReqs, c.depNodes, env) <==> DepsRead(v, env) && DepsPulled(v, env))
    && (Solvable([], c.depNodes, env) <==> DepsPulled(v, env))
  }

  /** The first `i` classes are converted. */
  ghost predicate ClassesDone(v: Ebuild, i: nat, reqs: seq<Req>, nodes: seq<VirtualChoice>, lo: nat, hi: nat)
    requires i <= |v.classes|
  {
    && lo <= hi && Closed(reqs, nodes, lo, hi) && OwnIds(nodes, lo, hi)
    && forall env :: BaseOnly(env) ==> DepsMean(v.(classes := v.classes[..i]), Compiled(reqs, nodes, [], [], lo, hi, hi), env)
  }

  lemma NoClasses(v: Ebuild, lo: nat)
    ensures ClassesDone(v, 0, [], [], lo, lo)
  {
    forall env | BaseOnly(env)
      ensures Solvable([], [], env)
    {
      EmptySolvable(env);
    }
  }

  lemma PushClass(v: Ebuild, i: nat, reqs: seq<Req>, nodes: seq<VirtualChoice>, lo: nat, mid: nat, r: seq<Req>,
                  n: seq<VirtualChoice>, hi: nat)
    requires i < |v.classes| && ClassesDone(v, i, reqs, nodes, lo, mid)
    requires Closed(r, n, mid, hi) && OwnIds(n, mid, hi) && EntriesMean(ClassPolicy(v, i), v.classes[i], r, n)
    ensures ClassesDone(v, i + 1, reqs + r, nodes + n, lo, hi)
  {
    assert lo <= mid <= hi;
    hide OwnIds, Closed, BaseOnly, DepsMean;
    OwnIdsConcat(nodes, n, lo, mid, hi);
    JoinClosed(reqs, nodes, lo, mid, r, n, hi);
    forall env | BaseOnly(env)
      ensures DepsMean(v.(classes := v.classes[..i+1]), Compiled(reqs + r, nodes + n, [], [], lo, hi, hi), env)
    {
      ClassStep(v, i, reqs, nodes, lo, mid, r, n, hi, env);
    }
  }

  lemma ClassStep(v: Ebuild, i: nat, reqs: seq<Req>, nodes: seq<VirtualChoice>, lo: nat, mid: nat, r: seq<Req>,
                  n: seq<VirtualChoice>, hi: nat, env: Selection)
    requires i < |v.classes| && lo <= mid <= hi && BaseOnly(env) && Closed(reqs, nodes, lo, mid) && Closed(r, n, mid, hi)
    requires DepsMean(v.(classes := v.classes[..i]), Compiled(reqs, nodes, [], [], lo, mid, mid), env)
    requires EntriesMean(ClassPolicy(v, i), v.classes[i], r, n)
    ensures DepsMean(v.(classes := v.classes[..i+1]), Compiled(reqs + r, nodes + n, [], [], lo, hi, hi), env)
  {
    hide Closed, BaseOnly, Solvable, AllRead, AllPulled;
    var before, after := v.(classes := v.classes[..i]), v.(classes := v.classes[..i+1]);
    ClosedNone(reqs, nodes, lo, mid);
    ClosedNone(r, n, mid, hi);
    Join(reqs, nodes, lo, mid, r, n, hi, env);
    JoinUnasked([], nodes, lo, mid, n, hi, env);
    assert forall k :: 0 <= k < i ==> after.classes[k] == before.classes[k];
    assert after.classes[i] == v.classes[i];
    assert forall k: nat :: ClassPolicy(before, k) == ClassPolicy(after, k) == ClassPolicy(v, k);
    assert DepsRead(after, env) <==> DepsRead(before, env) && AllRead(ClassPolicy(v, i), v.classes[i], env);
    assert DepsPulled(after, env) <==> DepsPulled(before, env) && AllPulled(ClassPolicy(v, i), v.classes[i], env);
  }

  /** The clauses of one version: its dependency classes, then its `REQUIRED_USE` if it has one. */
  method CompileVersion(v: Ebuild, firstId: nat) returns (c: Compiled)
    ensures Compiles(v, c) && c.first == firstId
  {
    hide ClassesDone, EntriesMean, Closed, OwnIds, FlagsOnly, Encodes, KeepsPreferences, Compiles;
    hide DirectEach, LiveEach, AttachedBlockers, Shallow, Plain, AllAligned, Solvable, AllRead, BaseOnly, Matches;
    var reqs, nodes, next := [], [], firstId;
    NoClasses(v, firstId);
    for i := 0 to |v.classes|
      invariant ClassesDone(v, i, reqs, nodes, firstId, next)
    {
      var r, blockers, n, hi := ConvertDeps(ClassPolicy(v, i), v.classes[i], next);
      PushClass(v, i, reqs, nodes, firstId, next, r, n, hi);
      reqs, nodes, next := reqs + r, nodes + n, hi;
    }
    var ur, uc, end := [], [], next;
    if v.formula.Some? {
      ur, uc, end := EncodeRequiredUse(v.policy.cfg, v.formula.value, next);
    }
    c := Compiled(reqs, nodes, ur, uc, firstId, next, end);
    VersionCompiles(v, c);
  }

  lemma VersionCompiles(v: Ebuild, c: Compiled)
    requires ClassesDone(v, |v.classes|, c.depReqs, c.depNodes, c.first, c.mid)
    requires if v.formula.Some? then
               && Encodes(v.policy.cfg, v.formula.value, c.useReqs, c.useNodes)
               && FlagsOnly(v.policy.cfg, c.useReqs, c.useNodes, c.mid, c.next) && OwnIds(c.useNodes, c.mid, c.next)
             else c.useReqs == [] && c.useNodes == [] && c.next == c.mid
    ensures Compiles(v, c)
  {
    assert v.classes[..|v.classes|] == v.classes && v.(classes := v.classes) == v;
    forall env | BaseOnly(env)
      ensures DepsMean(v, c, env)
    {
      assert DepsMean(v, Compiled(c.depReqs, c.depNodes, [], [], c.first, c.mid, c.mid), env);
    }
    hide Solvable, Extensible, BaseOnly;
    forall env | Decided(v.policy.cfg, env)
      ensures Solvable(c.useReqs, c.useNodes, env) <==> UseHolds(v, env)
    {
      if v.formula.Some? {
        SelectedAgrees(v.policy.cfg, env);
        SolvableExtends(v.policy.cfg, c.useReqs, c.useNodes, c.mid, c.next, env);
      } else {
        EmptySolvable(env);
      }
    }
  }

  /** Alone, a version is solvable exactly if its formula holds and its dependencies read true with all that is pulled in. */
  lemma VersionExact(v: Ebuild, c: Compiled, env: Selection)
    requires Compiles(v, c) && Decided(v.policy.cfg, env)
    ensures Solvable(c.Reqs(), c.Nodes(), env) <==> UseHolds(v, env) && DepsRead(v, env) && DepsPulled(v, env)
    ensures Solvable([], c.Nodes(), env) <==> DepsPulled(v, env) && Solvable([], c.useNodes, env)
  {
    hide Solvable, UseHolds, DepsRead, DepsPulled;
    Join(c.depReqs, c.depNodes, c.first, c.mid, c.useReqs, c.useNodes, c.next, env);
    UnaskedExact(v, c, env);
  }

  /** Unselected, it still asks for what the selected flags pull in. */
  lemma UnaskedExact(v: Ebuild, c: Compiled, env: Selection)
    requires Compiles(v, c) && BaseOnly(env)
    ensures Solvable([], c.Nodes(), env) <==> DepsPulled(v, env) && Solvable([], c.useNodes, env)
  {
    hide Solvable, DepsRead, DepsPulled;
    ClosedNone(c.depReqs, c.depNodes, c.first, c.mid);
    ClosedNone(c.useReqs, c.useNodes, c.mid, c.next);
    JoinUnasked([], c.depNodes, c.first, c.mid, c.useNodes, c.next, env);
  }

  lemma NothingCededNoCeded(p: Policy, e: DepEntry)
    requires NothingCeded(p.cfg)
    ensures NoCeded(p, e)
    decreases e
  {
    if !e.AtomEntry? {
      forall i | 0 <= i < |e.children|
        ensures NoCeded(p, e.children[i])
      {
        NothingCededNoCeded(p, e.children[i]);
      }
    }
  }

  /** With nothing ceded, as in a retry, `REQUIRED_USE` rules nothing out: only the dependencies count. */
  lemma FixedExact(v: Ebuild, c: Compiled, env: Selection)
    requires Compiles(v, c) && NothingCeded(v.policy.cfg) && BaseOnly(env)
    ensures Solvable(c.Reqs(), c.Nodes(), env) <==> DepsRead(v, env)
  {
    VersionExact(v, c, env);
    hide Solvable, Compiles;
    if v.formula.Some? {
      SelectedAgrees(v.policy.cfg, env);
      FixedIsInert(v.policy.cfg, v.formula.value, Selected(v.policy.cfg, env));
    }
    forall i, k | 0 <= i < |v.classes| && 0 <= k < |v.classes[i]|
      ensures Pulled(ClassPolicy(v, i), v.classes[i][k], env)
    {
      NothingCededNoCeded(ClassPolicy(v, i), v.classes[i][k]);
      NoCededPulled(ClassPolicy(v, i), v.classes[i][k], env);
    }
  }

  // ---------- all versions ----------

  /** The nodes of all versions, as they are registered. */
  function AllNodes(cs: seq<Compiled>): seq<VirtualChoice> {
    if cs == [] then [] else AllNodes(cs[..|cs|-1]) + cs[|cs|-1].Nodes()
  }

  /** Every version is compiled, with ids that follow those of the one before. */
  ghost predicate Linked(vs: seq<Ebuild>, cs: seq<Compiled>, lo: nat, hi: nat)
    decreases |cs|
  {
    && |cs| == |vs|
    && if cs == [] then lo == hi
       else
         var n := |cs| - 1;
         Compiles(vs[n], cs[n]) && cs[n].next == hi && Linked(vs[..n], cs[..n], lo, cs[n].first)
  }

  lemma {:induction false} LinkedAt(vs: seq<Ebuild>, cs: seq<Compiled>, lo: nat, hi: nat, k: nat)
    requires Linked(vs, cs, lo, hi) && k < |cs|
    ensures Compiles(vs[k], cs[k])
    decreases |cs|
  {
    hide Compiles;
    var n := |cs| - 1;
    if k < n {
      LinkedAt(vs[..n], cs[..n], lo, cs[n].first, k);
    }
  }

  lemma PushLinked(vs: seq<Ebuild>, cs: seq<Compiled>, lo: nat, mid: nat, v: Ebuild, c: Compiled)
    requires Linked(vs, cs, lo, mid) && Compiles(v, c) && c.first == mid
    ensures Linked(vs + [v], cs + [c], lo, c.next)
  {
    hide Compiles;
    assert (vs + [v])[..|vs|] == vs && (cs + [c])[..|cs|] == cs;
  }

  lemma CompiledClosed(v: Ebuild, c: Compiled)
    requires Compiles(v, c)
    ensures c.first <= c.next && Closed(c.Reqs(), c.Nodes(), c.first, c.next) && OwnIds(c.Nodes(), c.first, c.next)
  {
    hide Solvable, UseHolds, DepsMean, NodeOK;
    JoinClosed(c.depReqs, c.depNodes, c.first, c.mid, c.useReqs, c.useNodes, c.next);
    OwnIdsConcat(c.depNodes, c.useNodes, c.first, c.mid, c.next);
  }

  /** What is asked for when version `k` is selected: of each version, and of all. */
  function Asked(cs: seq<Compiled>, k: int, j: nat): seq<Req>
    requires j < |cs|
  {
    if j == k then cs[j].Reqs() else []
  }

  function AskedOfAll(cs: seq<Compiled>, k: int): seq<Req> {
    if 0 <= k < |cs| then cs[k].Reqs() else []
  }

  ghost predicate EachSolvable(cs: seq<Compiled>, k: int, env: Selection) {
    forall j: nat :: j < |cs| ==> Solvable(Asked(cs, k, j), cs[j].Nodes(), env)
  }

  /** Over the nodes of all versions, the selected one is solvable exactly if it is alone and every other one is unasked. */
  lemma {:induction false} ChainSolvable(vs: seq<Ebuild>, cs: seq<Compiled>, lo: nat, hi: nat, k: int, env: Selection)
    requires Linked(vs, cs, lo, hi) && BaseOnly(env)
    ensures Closed(AskedOfAll(cs, k), AllNodes(cs), lo, hi) && OwnIds(AllNodes(cs), lo, hi)
    ensures Solvable(AskedOfAll(cs, k), AllNodes(cs), env) <==> EachSolvable(cs, k, env)
    decreases |cs|
  {
    if cs == [] {
      EmptySolvable(env);
    } else {
      hide Solvable, Closed, OwnIds, Compiles, BaseOnly;
      var n := |cs| - 1;
      var init, c := cs[..n], cs[n];
      CompiledClosed(vs[n], c);
      ChainSolvable(vs[..n], init, lo, c.first, k, env);
      ChainStep(cs, lo, hi, k, env);
    }
  }

  lemma ChainStep(cs: seq<Compiled>, lo: nat, hi: nat, k: int, env: Selection)
    requires cs != [] && BaseOnly(env)
    requires var init, c := cs[..|cs|-1], cs[|cs|-1];
             && Closed(AskedOfAll(init, k), AllNodes(init), lo, c.first) && OwnIds(AllNodes(init), lo, c.first)
             && Closed(c.Reqs(), c.Nodes(), c.first, c.next) && OwnIds(c.Nodes(), c.first, c.next) && c.next == hi
             && (Solvable(AskedOfAll(init, k), AllNodes(init), env) <==> EachSolvable(init, k, env))
    ensures Closed(AskedOfAll(cs, k), AllNodes(cs), lo, hi) && OwnIds(AllNodes(cs), lo, hi)
    ensures Solvable(AskedOfAll(cs, k), AllNodes(cs), env) <==> EachSolvable(cs, k, env)
  {
    var n := |cs| - 1;
    var init, c := cs[..n], cs[n];
    assert lo <= c.first <= hi;
    hide Solvable, Closed, OwnIds, BaseOnly, EachSolvable, Asked, AskedOfAll;
    ClosedNone(c.Reqs(), c.Nodes(), c.first, hi);
    OwnIdsConcat(AllNodes(init), c.Nodes(), lo, c.first, hi);
    LastAsked(cs, k, env);
    JoinClosed(AskedOfAll(init, k), AllNodes(init), lo, c.first, Asked(cs, k, n), c.Nodes(), hi);
    Join(AskedOfAll(init, k), AllNodes(init), lo, c.first, Asked(cs, k, n), c.Nodes(), hi, env);
  }

  lemma LastAsked(cs: seq<Compiled>, k: int, env: Selection)
    requires cs != []
    ensures var n := |cs| - 1;
            && AskedOfAll(cs, k) == AskedOfAll(cs[..n], k) + Asked(cs, k, n)
            && (Asked(cs, k, n) == cs[n].Reqs() || Asked(cs, k, n) == [])
            && (EachSolvable(cs, k, env) <==> EachSolvable(cs[..n], k, env) && Solvable(Asked(cs, k, n), cs[n].Nodes(), env))
  {
    hide Solvable;
    var n := |cs| - 1;
    assert forall j: nat :: j < n ==> Asked(cs[..n], k, j) == Asked(cs, k, j) && cs[..n][j] == cs[j];
  }

  /** The table's packages can be settled so that, with `env`, the requirements are met. */
  ghost predicate SolvableIn(pk: Packages, reqs: seq<Req>, env: Selection) {
    exists sel :: MeetsAll(sel, reqs) && Obeys(sel, pk) && Over(sel, env)
  }

  lemma TableSolvable(choices: seq<VirtualChoice>, reqs: seq<Req>, env: Selection)
    requires Uniform(choices)
    ensures SolvableIn(RegisterAll(map[], choices), reqs, env) <==> Solvable(reqs, choices, env)
  {
    hide RegisterAll, MeetsAll, Consistent, Obeys;
    forall sel
      ensures Obeys(sel, RegisterAll(map[], choices)) <==> Consistent(sel, choices)
    {
      RegisterConsistent(choices, sel);
    }
  }

  /**
   * With version `k` selected, the table is solvable exactly if that version's formula and dependencies hold and, of
   * every version, what the selected flag values pull in.
   */
  ghost predicate SelectedMeans(vs: seq<Ebuild>, cs: seq<Compiled>, pk: Packages, k: nat, env: Selection)
    requires k < |vs| == |cs|
  {
    SolvableIn(pk, cs[k].Reqs(), env) <==>
      && UseHolds(vs[k], env) && DepsRead(vs[k], env) && DepsPulled(vs[k], env)
      && forall j :: 0 <= j < |vs| && j != k ==> DepsPulled(vs[j], env) && Solvable([], cs[j].useNodes, env)
  }

  lemma SelectedExact(vs: seq<Ebuild>, cs: seq<Compiled>, lo: nat, hi: nat, k: nat, env: Selection)
    requires Linked(vs, cs, lo, hi) && k < |vs| && Decided(vs[k].policy.cfg, env)
    ensures SelectedMeans(vs, cs, RegisterAll(map[], AllNodes(cs)), k, env)
  {
    hide Solvable, SolvableIn, UseHolds, DepsRead, DepsPulled, Compiles, AllNodes, RegisterAll, OwnIds, Closed, Uniform, BaseOnly;
    assert BaseOnly(env);
    ChainSolvable(vs, cs, lo, hi, k, env);
    OwnIdsUniform(AllNodes(cs), lo, hi);
    TableSolvable(AllNodes(cs), cs[k].Reqs(), env);
    LinkedAt(vs, cs, lo, hi, k);
    VersionExact(vs[k], cs[k], env);
    forall j: nat | j < |vs| && j != k
      ensures Solvable([], cs[j].Nodes(), env) <==> DepsPulled(vs[j], env) && Solvable([], cs[j].useNodes, env)
    {
      LinkedAt(vs, cs, lo, hi, j);
      UnaskedExact(vs[j], cs[j], env);
    }
    assert EachSolvable(cs, k, env) <==>
             Solvable(cs[k].Reqs(), cs[k].Nodes(), env)
             && forall j: nat :: j < |cs| && j != k ==> Solvable([], cs[j].Nodes(), env);
  }

  lemma {:induction false} RegisterConcat(pk: Packages, a: seq<VirtualChoice>, b: seq<VirtualChoice>)
    ensures RegisterAll(RegisterAll(pk, a), b) == RegisterAll(pk, a + b)
  {
    if b == [] {
      assert a + b == a;
    } else {
      RegisterConcat(pk, a, b[..|b|-1]);
      assert (a + b)[..|a + b|-1] == a + b[..|b|-1];
    }
  }

  /** Compile every version of the package and register its nodes. */
  method CompilePackage(vs: seq<Ebuild>, firstId: nat) returns (cs: seq<Compiled>, packages: Packages, nextId: nat)
    ensures Linked(vs, cs, firstId, nextId) && packages == RegisterAll(map[], AllNodes(cs))
    ensures forall k: nat, env :: k < |vs| && Decided(vs[k].policy.cfg, env) ==> SelectedMeans(vs, cs, packages, k, env)
  {
    hide Compiles, SelectedMeans, RegisterAll, Decided;
    cs, packages, nextId := [], map[], firstId;
    assert packages == RegisterAll(map[], AllNodes(cs)) by {
      NothingRegistered();
    }
    for i := 0 to |vs|
      invariant Linked(vs[..i], cs, firstId, nextId)
      invariant packages == RegisterAll(map[], AllNodes(cs))
    {
      var c := CompileVersion(vs[i], nextId);
      packages := RegisterVirtualChoices(packages, c.Nodes());
      RegisterConcat(map[], AllNodes(cs), c.Nodes());
      assert (cs + [c])[..|cs|] == cs;
      PushLinked(vs[..i], cs, firstId, nextId, vs[i], c);
      assert vs[..i+1] == vs[..i] + [vs[i]];
      cs, nextId := cs + [c], c.next;
    }
    assert vs[..|vs|] == vs;
    forall k: nat, env | k < |vs| && Decided(vs[k].policy.cfg, env)
      ensures SelectedMeans(vs, cs, packages, k, env)
    {
      SelectedExact(vs, cs, firstId, nextId, k, env);
    }
  }

  lemma NothingRegistered()
    ensures RegisterAll(map[], AllNodes([])) == map[]
  {
  }

  /** The witness: selecting the second version with the flag on demands what the first version hangs on that flag. */
  lemma OtherVersionBinds(p: Policy, x: Solving.Flag, a: Atom, b: Atom, cs: seq<Compiled>, lo: nat, hi: nat, env: Selection)
    requires var va := Ebuild(p, [[Conditional(x, false, [AtomEntry(a)])]], None);
             var vb := Ebuild(p, [[Conditional(x, false, [AtomEntry(b)])]], None);
             Linked([va, vb], cs, lo, hi)
    requires Get(p.cfg, x).Ceded? && !a.blocker && !b.blocker && Decided(p.cfg, env) && env[Decision(x)] == ON
    requires AtomRead(p, b, env) && !AtomRead(p, a, env)
    ensures Solvable(cs[1].Reqs(), cs[1].Nodes(), env)
    ensures !SolvableIn(RegisterAll(map[], AllNodes(cs)), cs[1].Reqs(), env)
  {
    hide Solvable, SolvableIn, RegisterAll, AllNodes, Compiles, Decided, UseHolds, DepsRead, DepsPulled;
    var va := Ebuild(p, [[Conditional(x, false, [AtomEntry(a)])]], None);
    var vb := Ebuild(p, [[Conditional(x, false, [AtomEntry(b)])]], None);
    SelectedExact([va, vb], cs, lo, hi, 1, env);
    LinkedAt([va, vb], cs, lo, hi, 1);
    VersionExact(vb, cs[1], env);
    HangsOnFlag(p, x, a, env);
    HangsOnFlag(p, x, b, env);
    assert [va, vb][0] == va;
  }

  lemma HangsOnFlag(p: Policy, x: Solving.Flag, a: Atom, env: Selection)
    requires Get(p.cfg, x).Ceded? && !a.blocker && Decided(p.cfg, env) && env[Decision(x)] == ON
    ensures var v := Ebuild(p, [[Conditional(x, false, [AtomEntry(a)])]], None);
            && (DepsRead(v, env) <==> AtomRead(p, a, env)) && (DepsPulled(v, env) <==> AtomRead(p, a, env)) && UseHolds(v, env)
  {
    hide Selected;
    var e := Conditional(x, false, [AtomEntry(a)]);
    var v := Ebuild(p, [[e]], None);
    var q := ClassPolicy(v, 0);
    assert e.children[0] == AtomEntry(a) && v.classes[0][0] == e;
    assert Reads(q, AtomEntry(a), env) <==> AtomRead(p, a, env);
    assert Pulled(q, AtomEntry(a), env);
    assert Reads(q, e, env) <==> AtomRead(p, a, env);
    assert Pulled(q, e, env) <==> AtomRead(p, a, env);
    assert AllRead(q, v.classes[0], env) <==> AtomRead(p, a, env);
    assert AllPulled(q, v.classes[0], env) <==> AtomRead(p, a, env);
  }
}
