/** The labelled dependency graph of a solution: virtual nodes are expanded to the packages they select. */
module DepGraph {
  import opened Digraph
  import opened Kahn
  import opened Wrappers
  import opened Dependencies
  import opened PassOne
  import opened InstallOrder

  /** A requirement of a package name (or virtual node) with the versions it allows. */
  datatype Dep = Dep(pkg: nat, versions: set<nat>)

  datatype Policy = Favor | Lock | Rebuild | Provided

  /** What the solver selected, one version for each package; positions stand for nodes. */
  datatype Entry = Entry(pkg: nat, version: nat)

  type Data = map<nat, seq<seq<Dep>>>

  datatype Provider = Provider(virtuals: set<nat>, cpn: nat -> nat, packages: map<nat, Data>,
                               installed: map<nat, (nat, Policy)>, selectedVirtuals: map<nat, nat>)

  /** The five dependency variables, in the order the requirements are stored. */
  const CLASSES: seq<DepClass> := [Depend, Rdepend, Bdepend, Pdepend, Idepend]

  predicate FiveClasses(p: Provider) {
    forall q, v :: q in p.packages && v in p.packages[q] ==> |p.packages[q][v]| == 5
  }

  function Chosen(sol: seq<Entry>, pkg: nat): (r: Option<nat>)
    ensures r.Some? ==> Entry(pkg, r.value) in sol
    ensures r.None? ==> forall e :: e in sol ==> e.pkg != pkg
    decreases |sol|
  {
    if sol == [] then None
    else if sol[0].pkg == pkg then Some(sol[0].version)
    else
      assert sol == [sol[0]] + sol[1..];
      Chosen(sol[1..], pkg)
  }

  function Selected(p: Provider, sol: seq<Entry>, pkg: nat): Option<nat> {
    match Chosen(sol, pkg)
    case Some(v) => Some(v)
    case None => if pkg in p.selectedVirtuals then Some(p.selectedVirtuals[pkg]) else None
  }

  // ---------- what a virtual node leads to ----------

  predicate Listed(classes: seq<seq<Dep>>, d: Dep) {
    exists c :: 0 <= c < |classes| && d in classes[c]
  }

  /** `d` is a requirement of the selected version of `pkg`, or of any version when none is recorded. */
  ghost predicate OpensTo(p: Provider, sol: seq<Entry>, pkg: nat, d: Dep) {
    && pkg in p.packages
    && match Selected(p, sol, pkg)
       case Some(v) => v in p.packages[pkg] && Listed(p.packages[pkg][v], d)
       case None => exists v :: v in p.packages[pkg] && Listed(p.packages[pkg][v], d)
  }

  ghost predicate Step(p: Provider, sol: seq<Entry>, a: Dep, b: Dep) {
    a.pkg in p.virtuals && OpensTo(p, sol, a.pkg, b)
  }

  ghost predicate Chain(p: Provider, sol: seq<Entry>, path: seq<Dep>) {
    forall i :: 0 <= i < |path| - 1 ==> Step(p, sol, path[i], path[i+1])
  }

  /** `b` is `a` or is reached from it through virtual nodes only. */
  ghost predicate Leads(p: Provider, sol: seq<Entry>, a: Dep, b: Dep) {
    exists path :: Chain(p, sol, path) && path != [] && path[0] == a && path[|path|-1] == b
  }

  /** The real package at position `k` meets the requirement. */
  predicate Meets(p: Provider, sol: seq<Entry>, d: Dep, k: nat) {
    && k < |sol| && d.pkg !in p.virtuals && sol[k].pkg !in p.virtuals
    && p.cpn(sol[k].pkg) == p.cpn(d.pkg) && sol[k].version in d.versions
  }

  /** Position `k` is what the requirement, expanded, selects. */
  ghost predicate Finds(p: Provider, sol: seq<Entry>, dep: Dep, k: nat) {
    exists d :: Leads(p, sol, dep, d) && Meets(p, sol, d, k)
  }

  lemma LeadsRefl(p: Provider, sol: seq<Entry>, a: Dep)
    ensures Leads(p, sol, a, a)
  {
    assert Chain(p, sol, [a]);
    assert [a][0] == a && [a][|[a]|-1] == a;
  }

  lemma LeadsStep(p: Provider, sol: seq<Entry>, a: Dep, b: Dep, c: Dep)
    requires Leads(p, sol, a, b) && Step(p, sol, b, c)
    ensures Leads(p, sol, a, c)
  {
    var path :| Chain(p, sol, path) && path != [] && path[0] == a && path[|path|-1] == b;
    var longer := path + [c];
    forall i | 0 <= i < |longer| - 1
      ensures Step(p, sol, longer[i], longer[i+1])
    {
      if i < |path| - 1 {
        assert Step(p, sol, path[i], path[i+1]);
      }
    }
    assert longer[0] == a && longer[|longer|-1] == c;
  }

  // ---------- the worklist ----------

  method Flatten(classes: seq<seq<Dep>>) returns (deps: seq<Dep>)
    ensures forall d :: d in deps <==> Listed(classes, d)
  {
    deps := [];
    for c := 0 to |classes|
      invariant forall d :: d in deps <==> exists k :: 0 <= k < c && d in classes[k]
    {
      deps := deps + classes[c];
    }
  }

  /** The requirements behind a virtual node; the versions of the map come in any order. */
  method Open(p: Provider, sol: seq<Entry>, pkg: nat) returns (deps: seq<Dep>)
    ensures forall d :: d in deps <==> OpensTo(p, sol, pkg, d)
    ensures pkg !in p.packages ==> deps == []
  {
    deps := [];
    if pkg in p.packages {
      var data := p.packages[pkg];
      match Selected(p, sol, pkg) {
        case Some(v) =>
          if v in data {
            deps := Flatten(data[v]);
          }
        case None =>
          var todo := data.Keys;
          while todo != {}
            invariant todo <= data.Keys
            invariant forall d :: d in deps <==> exists v :: v in data.Keys - todo && Listed(data[v], d)
            decreases |todo|
          {
            var v :| v in todo;
            var more := Flatten(data[v]);
            todo := todo - {v};
            deps := deps + more;
          }
      }
    }
  }

  ghost predicate Settled(p: Provider, sol: seq<Entry>, d: Dep, seen: set<nat>, targets: seq<nat>) {
    if d.pkg in p.virtuals then d.pkg in seen
    else forall k: nat :: Meets(p, sol, d, k) ==> k in targets
  }

  /** Everything in play was reached, and everything to be reached is settled or in the worklist. */
  ghost predicate Underway(p: Provider, sol: seq<Entry>, dep: Dep, work: seq<Dep>, seen: set<nat>, targets: seq<nat>) {
    && (forall d :: d in work ==> Leads(p, sol, dep, d))
    && (forall q :: q in seen ==> q in p.virtuals && Entered(p, sol, dep, q))
    && (forall k :: k in targets ==> Finds(p, sol, dep, k))
    && (dep in work || Settled(p, sol, dep, seen, targets))
    && (forall q, d :: q in seen && OpensTo(p, sol, q, d) ==> d in work || Settled(p, sol, d, seen, targets))
  }

  ghost predicate Entered(p: Provider, sol: seq<Entry>, dep: Dep, q: nat) {
    exists d: Dep :: Leads(p, sol, dep, d) && d.pkg == q
  }

  /** With an empty worklist every requirement reached is settled. */
  lemma AllSettled(p: Provider, sol: seq<Entry>, dep: Dep, seen: set<nat>, targets: seq<nat>, d: Dep)
    requires Underway(p, sol, dep, [], seen, targets) && Leads(p, sol, dep, d)
    ensures Settled(p, sol, d, seen, targets)
  {
    var path :| Chain(p, sol, path) && path != [] && path[0] == dep && path[|path|-1] == d;
    for i := 0 to |path| - 1
      invariant Settled(p, sol, path[i], seen, targets)
    {
      assert Step(p, sol, path[i], path[i+1]);
    }
  }

  /** The solution entries a direct requirement selects, each once. */
  method Expand(p: Provider, sol: seq<Entry>, dep: Dep) returns (targets: seq<nat>)
    ensures Distinct(targets) && forall k: nat :: k in targets <==> Finds(p, sol, dep, k)
  {
    hide Underway, Leads, Finds, Meets, OpensTo, Settled, Distinct;
    var work, seen: set<nat> := [dep], {};
    targets := [];
    Begun(p, sol, dep);
    while work != []
      invariant Underway(p, sol, dep, work, seen, targets) && Distinct(targets)
      decreases |p.packages.Keys - seen|, |work|
    {
      var d := work[|work|-1];
      ghost var had := targets;
      assert work == work[..|work|-1] + [d];
      work := work[..|work|-1];
      if d.pkg in p.virtuals {
        if d.pkg !in seen {
          var next := Open(p, sol, d.pkg);
          Opened(p, sol, dep, work, seen, targets, d, next);
          Shrinks(p, seen, d.pkg, next);
          seen := seen + {d.pkg};
          work := work + next;
        } else {
          Repeated(p, sol, dep, work, seen, targets, d);
        }
      } else {
        targets := Matching(p, sol, d, targets);
        Matched(p, sol, dep, work, seen, had, targets, d);
      }
    }
    AllFound(p, sol, dep, seen, targets);
  }

  lemma AllFound(p: Provider, sol: seq<Entry>, dep: Dep, seen: set<nat>, targets: seq<nat>)
    requires Underway(p, sol, dep, [], seen, targets)
    ensures forall k: nat :: k in targets <==> Finds(p, sol, dep, k)
  {
    forall k: nat | Finds(p, sol, dep, k)
      ensures k in targets
    {
      var d :| Leads(p, sol, dep, d) && Meets(p, sol, d, k);
      AllSettled(p, sol, dep, seen, targets, d);
    }
  }

  lemma Opened(p: Provider, sol: seq<Entry>, dep: Dep, work: seq<Dep>, seen: set<nat>, targets: seq<nat>, d: Dep,
               next: seq<Dep>)
    requires Underway(p, sol, dep, work + [d], seen, targets) && d.pkg in p.virtuals
    requires forall e :: e in next <==> OpensTo(p, sol, d.pkg, e)
    ensures Underway(p, sol, dep, work + next, seen + {d.pkg}, targets)
  {
    hide Leads, OpensTo, Finds, Meets;
    assert d in work + [d];
    forall e | e in work + next
      ensures Leads(p, sol, dep, e)
    {
      if e in work {
        assert e in work + [d];
      } else {
        LeadsStep(p, sol, dep, d, e);
      }
    }
  }

  lemma Begun(p: Provider, sol: seq<Entry>, dep: Dep)
    ensures Underway(p, sol, dep, [dep], {}, []) && Distinct([])
  {
    LeadsRefl(p, sol, dep);
  }

  lemma Repeated(p: Provider, sol: seq<Entry>, dep: Dep, work: seq<Dep>, seen: set<nat>, targets: seq<nat>, d: Dep)
    requires Underway(p, sol, dep, work + [d], seen, targets) && d.pkg in p.virtuals && d.pkg in seen
    ensures Underway(p, sol, dep, work, seen, targets)
  {
    hide Leads, OpensTo, Finds, Meets;
    assert forall e :: e in work ==> e in work + [d];
  }

  lemma Shrinks(p: Provider, seen: set<nat>, q: nat, next: seq<Dep>)
    requires q !in seen && (q !in p.packages ==> next == [])
    ensures q in p.packages ==> |p.packages.Keys - (seen + {q})| < |p.packages.Keys - seen|
    ensures q !in p.packages ==> p.packages.Keys - (seen + {q}) == p.packages.Keys - seen
  {
    assert p.packages.Keys - (seen + {q}) == (p.packages.Keys - seen) - {q};
  }

  /** Adds the positions that meet `d` and were not found before. */
  method Matching(p: Provider, sol: seq<Entry>, d: Dep, before: seq<nat>) returns (targets: seq<nat>)
    requires Distinct(before) && d.pkg !in p.virtuals
    ensures Distinct(targets) && forall k: nat :: k in targets <==> k in before || Meets(p, sol, d, k)
  {
    targets := before;
    for i := 0 to |sol|
      invariant Distinct(targets)
      invariant forall k: nat :: k in targets <==> k in before || (k < i && Meets(p, sol, d, k))
    {
      if Meets(p, sol, d, i) && i !in targets {
        DistinctPush(targets, i);
        targets := targets + [i];
      }
    }
  }

  lemma Matched(p: Provider, sol: seq<Entry>, dep: Dep, work: seq<Dep>, seen: set<nat>, before: seq<nat>, targets: seq<nat>,
                d: Dep)
    requires Underway(p, sol, dep, work + [d], seen, before) && d.pkg !in p.virtuals
    requires forall k: nat :: k in targets <==> k in before || Meets(p, sol, d, k)
    ensures Underway(p, sol, dep, work, seen, targets)
  {
    hide Leads, OpensTo, Meets;
    assert d in work + [d];
  }

  // ---------- the graph ----------

  /** The entry keeps the installed version and is not rebuilt. */
  predicate Kept(p: Provider, e: Entry) {
    e.pkg in p.installed && p.installed[e.pkg].0 == e.version && p.installed[e.pkg].1 != Rebuild
  }

  /** Which dependency variables of the entry count: none of a provided package, only later ones of a kept one. */
  predicate Counts(p: Provider, e: Entry, kind: DepClass) {
    && !(Kept(p, e) && p.installed[e.pkg].1 == Provided)
    && !(Kept(p, e) && IsHard(kind))
  }

  /** `dep` stands in the variable `kind` of the entry's version. */
  ghost predicate Declares(p: Provider, e: Entry, kind: DepClass, dep: Dep)
    requires FiveClasses(p)
  {
    && e.pkg in p.packages && e.version in p.packages[e.pkg]
    && exists c :: 0 <= c < 5 && CLASSES[c] == kind && dep in p.packages[e.pkg][e.version][c]
  }

  /** Position `to` is selected by a dependency of position `from` that counts. */
  ghost predicate Needs(p: Provider, sol: seq<Entry>, from: nat, kind: DepClass, to: nat)
    requires FiveClasses(p)
  {
    && from < |sol| && Counts(p, sol[from], kind)
    && exists dep :: Declares(p, sol[from], kind, dep) && Finds(p, sol, dep, to)
  }

  ghost predicate NeedsOneOf(p: Provider, sol: seq<Entry>, deps: seq<Dep>, to: nat) {
    exists dep :: dep in deps && Finds(p, sol, dep, to)
  }

  method ClassEdges(p: Provider, sol: seq<Entry>, from: nat, kind: DepClass, deps: seq<Dep>) returns (edges: seq<DepEdge>)
    ensures forall e: DepEdge :: e in edges <==> e.from == from && e.kind == kind && NeedsOneOf(p, sol, deps, e.to)
  {
    edges := [];
    for i := 0 to |deps|
      invariant forall e: DepEdge :: e in edges <==> e.from == from && e.kind == kind && NeedsOneOf(p, sol, deps[..i], e.to)
    {
      var targets := Expand(p, sol, deps[i]);
      var more := seq(|targets|, k requires 0 <= k < |targets| => DepEdge(from, targets[k], kind));
      NeedsMore(p, sol, deps, i);
      EdgesTo(from, kind, targets, more);
      edges := edges + more;
    }
    assert deps[..|deps|] == deps;
  }

  lemma EdgesTo(from: nat, kind: DepClass, targets: seq<nat>, edges: seq<DepEdge>)
    requires |edges| == |targets| && forall k :: 0 <= k < |targets| ==> edges[k] == DepEdge(from, targets[k], kind)
    ensures forall e: DepEdge :: e in edges <==> e.from == from && e.kind == kind && e.to in targets
  {
    forall e: DepEdge | e.from == from && e.kind == kind && e.to in targets
      ensures e in edges
    {
      var k :| 0 <= k < |targets| && targets[k] == e.to;
      assert edges[k] == e;
    }
  }

  lemma NeedsMore(p: Provider, sol: seq<Entry>, deps: seq<Dep>, i: nat)
    requires i < |deps|
    ensures forall to :: NeedsOneOf(p, sol, deps[..i+1], to) <==> NeedsOneOf(p, sol, deps[..i], to) || Finds(p, sol, deps[i], to)
  {
    assert deps[..i+1] == deps[..i] + [deps[i]];
    assert deps[i] in deps[..i+1];
    forall to
      ensures NeedsOneOf(p, sol, deps[..i], to) ==> NeedsOneOf(p, sol, deps[..i+1], to)
    {
      if NeedsOneOf(p, sol, deps[..i], to) {
        var dep :| dep in deps[..i] && Finds(p, sol, dep, to);
        assert dep in deps[..i+1];
      }
    }
  }

  /** What the first `c` variables of one entry contribute. */
  ghost predicate NeedsUpTo(p: Provider, sol: seq<Entry>, from: nat, kind: DepClass, to: nat, c: nat)
    requires from < |sol| && c <= 5
  {
    && Counts(p, sol[from], kind) && Offered(p, sol[from]) && |Rows(p, sol[from])| == 5
    && exists i :: 0 <= i < c && CLASSES[i] == kind && NeedsOneOf(p, sol, Rows(p, sol[from])[i], to)
  }

  predicate Offered(p: Provider, e: Entry) {
    e.pkg in p.packages && e.version in p.packages[e.pkg]
  }

  function Rows(p: Provider, e: Entry): seq<seq<Dep>>
    requires Offered(p, e)
  {
    p.packages[e.pkg][e.version]
  }

  method EntryEdges(p: Provider, sol: seq<Entry>, from: nat) returns (edges: seq<DepEdge>)
    requires FiveClasses(p) && from < |sol|
    ensures forall e: DepEdge :: e in edges <==> e.from == from && Needs(p, sol, from, e.kind, e.to)
  {
    edges := [];
    var entry := sol[from];
    if !Offered(p, entry) || (Kept(p, entry) && p.installed[entry.pkg].1 == Provided) {
      return;
    }
    var skipBuildTime := Kept(p, entry);
    var rows := p.packages[entry.pkg][entry.version];
    for c := 0 to 5
      invariant forall e: DepEdge :: e in edges <==> e.from == from && NeedsUpTo(p, sol, from, e.kind, e.to, c)
    {
      var kind := CLASSES[c];
      if !(skipBuildTime && IsHard(kind)) {
        var more := ClassEdges(p, sol, from, kind, rows[c]);
        edges := edges + more;
      }
      NextRow(p, sol, from, c);
    }
    AllRows(p, sol, from);
  }

  lemma NextRow(p: Provider, sol: seq<Entry>, from: nat, c: nat)
    requires from < |sol| && c < 5 && Offered(p, sol[from]) && |Rows(p, sol[from])| == 5
    ensures forall kind, to ::
              (NeedsUpTo(p, sol, from, kind, to, c + 1)
               <==> NeedsUpTo(p, sol, from, kind, to, c)
                    || (CLASSES[c] == kind && Counts(p, sol[from], kind) && NeedsOneOf(p, sol, Rows(p, sol[from])[c], to)))
  {
    hide NeedsOneOf;
  }

  lemma AllRows(p: Provider, sol: seq<Entry>, from: nat)
    requires FiveClasses(p) && from < |sol| && Offered(p, sol[from])
    ensures forall kind, to :: NeedsUpTo(p, sol, from, kind, to, 5) <==> Needs(p, sol, from, kind, to)
  {
    hide Finds;
    forall kind, to
      ensures NeedsUpTo(p, sol, from, kind, to, 5) <==> Needs(p, sol, from, kind, to)
    {
      if NeedsUpTo(p, sol, from, kind, to, 5) {
        var i :| 0 <= i < 5 && CLASSES[i] == kind && NeedsOneOf(p, sol, Rows(p, sol[from])[i], to);
        var dep :| dep in Rows(p, sol[from])[i] && Finds(p, sol, dep, to);
        assert Declares(p, sol[from], kind, dep);
      }
      if Needs(p, sol, from, kind, to) {
        var dep :| Declares(p, sol[from], kind, dep) && Finds(p, sol, dep, to);
        var c :| 0 <= c < 5 && CLASSES[c] == kind && dep in p.packages[sol[from].pkg][sol[from].version][c];
        assert NeedsOneOf(p, sol, Rows(p, sol[from])[c], to);
      }
    }
  }

  /**
   * A requirement stored in row `row` of the entry at `from` selects `to`. An entry that is installed at this
   * version and not rebuilt is skipped if provided, and without its build-time rows otherwise.
   */
  ghost predicate StoredNeeds(p: Provider, sol: seq<Entry>, from: nat, row: nat, buildTime: bool, to: nat)
    requires FiveClasses(p) && row < 5
  {
    && from < |sol| && sol[from].pkg in p.packages && sol[from].version in p.packages[sol[from].pkg]
    && (sol[from].pkg in p.installed && p.installed[sol[from].pkg].0 == sol[from].version ==>
          match p.installed[sol[from].pkg].1
          case Rebuild => true
          case Provided => false
          case _ => !buildTime)
    && exists dep :: dep in p.packages[sol[from].pkg][sol[from].version][row] && Finds(p, sol, dep, to)
  }

  /** The rows are DEPEND, RDEPEND, BDEPEND, PDEPEND and IDEPEND; the first and third are build-time ones. */
  lemma NeedsByRow(p: Provider, sol: seq<Entry>, from: nat, to: nat)
    requires FiveClasses(p)
    ensures Needs(p, sol, from, Depend, to) <==> StoredNeeds(p, sol, from, 0, true, to)
    ensures Needs(p, sol, from, Rdepend, to) <==> StoredNeeds(p, sol, from, 1, false, to)
    ensures Needs(p, sol, from, Bdepend, to) <==> StoredNeeds(p, sol, from, 2, true, to)
    ensures Needs(p, sol, from, Pdepend, to) <==> StoredNeeds(p, sol, from, 3, false, to)
    ensures Needs(p, sol, from, Idepend, to) <==> StoredNeeds(p, sol, from, 4, false, to)
  {
    RowNeeds(p, sol, from, Depend, 0, to);
    RowNeeds(p, sol, from, Rdepend, 1, to);
    RowNeeds(p, sol, from, Bdepend, 2, to);
    RowNeeds(p, sol, from, Pdepend, 3, to);
    RowNeeds(p, sol, from, Idepend, 4, to);
  }

  lemma RowNeeds(p: Provider, sol: seq<Entry>, from: nat, kind: DepClass, row: nat, to: nat)
    requires FiveClasses(p) && row < 5 && forall c :: 0 <= c < 5 ==> (CLASSES[c] == kind <==> c == row)
    ensures Needs(p, sol, from, kind, to) <==> StoredNeeds(p, sol, from, row, kind.Depend? || kind.Bdepend?, to)
  {
    hide Finds;
    if StoredNeeds(p, sol, from, row, kind.Depend? || kind.Bdepend?, to) {
      var dep :| dep in p.packages[sol[from].pkg][sol[from].version][row] && Finds(p, sol, dep, to);
      assert Declares(p, sol[from], kind, dep);
    }
  }

  /** A requirement of a real package selects the real entries of that name whose version it allows. */
  lemma RealFinds(p: Provider, sol: seq<Entry>, dep: Dep, k: nat)
    requires dep.pkg !in p.virtuals
    ensures Finds(p, sol, dep, k) <==>
              k < |sol| && sol[k].pkg !in p.virtuals && p.cpn(sol[k].pkg) == p.cpn(dep.pkg) && sol[k].version in dep.versions
  {
    if Meets(p, sol, dep, k) {
      LeadsRefl(p, sol, dep);
    }
    if Finds(p, sol, dep, k) {
      var d :| Leads(p, sol, dep, d) && Meets(p, sol, d, k);
      var path :| Chain(p, sol, path) && path != [] && path[0] == dep && path[|path|-1] == d;
      assert |path| > 1 ==> Step(p, sol, path[0], path[1]);
    }
  }

  /**
   * What stands behind a virtual node: the requirements of its version in the solution, else of the version recorded for
   * it, else of all its versions.
   */
  ghost predicate Behind(p: Provider, sol: seq<Entry>, pkg: nat, d: Dep) {
    && pkg in p.packages
    && exists v, c :: v in p.packages[pkg] && 0 <= c < |p.packages[pkg][v]| && d in p.packages[pkg][v][c]
         && ((exists e :: e in sol && e.pkg == pkg) ==> Entry(pkg, v) in sol)
         && ((forall e :: e in sol ==> e.pkg != pkg) && pkg in p.selectedVirtuals ==> v == p.selectedVirtuals[pkg])
  }

  lemma OpensBehind(p: Provider, sol: seq<Entry>, pkg: nat, d: Dep)
    requires forall v, w :: Entry(pkg, v) in sol && Entry(pkg, w) in sol ==> v == w
    ensures OpensTo(p, sol, pkg, d) <==> Behind(p, sol, pkg, d)
  {
    if e :| e in sol && e.pkg == pkg {
      assert e == Entry(pkg, e.version);
    }
  }

  /** A requirement of a virtual node selects what those behind it select. */
  lemma VirtualFinds(p: Provider, sol: seq<Entry>, dep: Dep, k: nat)
    requires dep.pkg in p.virtuals
    requires forall v, w :: Entry(dep.pkg, v) in sol && Entry(dep.pkg, w) in sol ==> v == w
    ensures Finds(p, sol, dep, k) <==> exists d :: Behind(p, sol, dep.pkg, d) && Finds(p, sol, d, k)
  {
    hide OpensTo, Behind;
    if Finds(p, sol, dep, k) {
      var d :| Leads(p, sol, dep, d) && Meets(p, sol, d, k);
      var path :| Chain(p, sol, path) && path != [] && path[0] == dep && path[|path|-1] == d;
      assert |path| > 1;
      assert Step(p, sol, path[0], path[1]);
      OpensBehind(p, sol, dep.pkg, path[1]);
      var rest := path[1..];
      forall i | 0 <= i < |rest| - 1
        ensures Step(p, sol, rest[i], rest[i+1])
      {
        assert Step(p, sol, path[i+1], path[i+2]);
      }
      assert rest[0] == path[1] && rest[|rest|-1] == d && Leads(p, sol, path[1], d);
    }
    if n: Dep :| Behind(p, sol, dep.pkg, n) && Finds(p, sol, n, k) {
      OpensBehind(p, sol, dep.pkg, n);
      var d :| Leads(p, sol, n, d) && Meets(p, sol, d, k);
      var path :| Chain(p, sol, path) && path != [] && path[0] == n && path[|path|-1] == d;
      var longer := [dep] + path;
      forall i | 0 <= i < |longer| - 1
        ensures Step(p, sol, longer[i], longer[i+1])
      {
        assert i > 0 ==> Step(p, sol, path[i-1], path[i]);
      }
      assert longer[0] == dep && longer[|longer|-1] == d && Leads(p, sol, dep, d);
    }
  }

  /** All edges, by the row they come from. */
  ghost predicate EdgesByRow(p: Provider, sol: seq<Entry>, edges: seq<DepEdge>)
    requires FiveClasses(p)
  {
    forall from: nat, to: nat ::
      && (DepEdge(from, to, Depend) in edges <==> StoredNeeds(p, sol, from, 0, true, to))
      && (DepEdge(from, to, Rdepend) in edges <==> StoredNeeds(p, sol, from, 1, false, to))
      && (DepEdge(from, to, Bdepend) in edges <==> StoredNeeds(p, sol, from, 2, true, to))
      && (DepEdge(from, to, Pdepend) in edges <==> StoredNeeds(p, sol, from, 3, false, to))
      && (DepEdge(from, to, Idepend) in edges <==> StoredNeeds(p, sol, from, 4, false, to))
  }

  method DependencyGraph(p: Provider, sol: seq<Entry>) returns (edges: seq<DepEdge>)
    requires FiveClasses(p)
    ensures forall e: DepEdge :: e in edges <==> Needs(p, sol, e.from, e.kind, e.to)
    ensures EdgesByRow(p, sol, edges)
  {
    edges := [];
    for from := 0 to |sol|
      invariant forall e: DepEdge :: e in edges <==> e.from < from && Needs(p, sol, e.from, e.kind, e.to)
    {
      var more := EntryEdges(p, sol, from);
      edges := edges + more;
    }
    ByRow(p, sol, edges);
  }

  lemma ByRow(p: Provider, sol: seq<Entry>, edges: seq<DepEdge>)
    requires FiveClasses(p) && forall e: DepEdge :: e in edges <==> Needs(p, sol, e.from, e.kind, e.to)
    ensures EdgesByRow(p, sol, edges)
  {
    hide Needs, StoredNeeds;
    forall from: nat, to: nat
      ensures DepEdge(from, to, Depend) in edges <==> StoredNeeds(p, sol, from, 0, true, to)
      ensures DepEdge(from, to, Rdepend) in edges <==> StoredNeeds(p, sol, from, 1, false, to)
      ensures DepEdge(from, to, Bdepend) in edges <==> StoredNeeds(p, sol, from, 2, true, to)
      ensures DepEdge(from, to, Pdepend) in edges <==> StoredNeeds(p, sol, from, 3, false, to)
      ensures DepEdge(from, to, Idepend) in edges <==> StoredNeeds(p, sol, from, 4, false, to)
    {
      NeedsByRow(p, sol, from, to);
      var d, r, b, q, i := DepEdge(from, to, Depend), DepEdge(from, to, Rdepend), DepEdge(from, to, Bdepend),
                           DepEdge(from, to, Pdepend), DepEdge(from, to, Idepend);
      assert (d in edges <==> Needs(p, sol, d.from, d.kind, d.to)) && (r in edges <==> Needs(p, sol, r.from, r.kind, r.to));
      assert (b in edges <==> Needs(p, sol, b.from, b.kind, b.to)) && (q in edges <==> Needs(p, sol, q.from, q.kind, q.to));
      assert i in edges <==> Needs(p, sol, i.from, i.kind, i.to);
    }
  }

  // ---------- from metadata to the install order ----------

  /** Some hard dependency of `v` selects `u`, possibly through virtual nodes. */
  ghost predicate HardNeeds(p: Provider, sol: seq<Entry>, u: nat, v: nat)
    requires FiveClasses(p)
  {
    Needs(p, sol, v, Depend, u) || Needs(p, sol, v, Bdepend, u)
  }

  /** Some hard or runtime dependency of `v` selects `u`. */
  ghost predicate OrderNeeds(p: Provider, sol: seq<Entry>, u: nat, v: nat)
    requires FiveClasses(p)
  {
    HardNeeds(p, sol, u, v) || Needs(p, sol, v, Rdepend, u)
  }

  /**
   * The order respects every hard dependency that is on no cycle of hard ones, and every hard or
   * runtime dependency that is on no cycle of both; without such cycles that is all of them.
   */
  method InstallOrderOf(p: Provider, sol: seq<Entry>, keys: seq<int>)
    returns (order: seq<nat>, ghost all: Graph, ghost hard: Graph)
    requires FiveClasses(p) && |keys| == |sol|
    ensures Permutes(order, |sol|) && Respects(all, order) && Respects(hard, order)
    ensures forall u: nat, v: nat :: Edge(hard, u, v) <==> HardNeeds(p, sol, u, v)
    ensures forall u: nat, v: nat :: Edge(all, u, v) <==> OrderNeeds(p, sol, u, v)
    ensures Acyclic(all) ==> LinearExtension(all, order)
  {
    hide HardNeeds, OrderNeeds, Needs;
    var edges := DependencyGraph(p, sol);
    ghost var one, s, plan;
    order, all, hard, one, s, plan := Order(edges, |sol|, keys);
    Needed(p, sol, edges);
  }

  lemma Needed(p: Provider, sol: seq<Entry>, edges: seq<DepEdge>)
    requires FiveClasses(p) && forall e: DepEdge :: e in edges <==> Needs(p, sol, e.from, e.kind, e.to)
    ensures forall u: nat, v: nat :: (u < |sol| && v < |sol| && HardDep(edges, u, v)) <==> HardNeeds(p, sol, u, v)
    ensures forall u: nat, v: nat :: (u < |sol| && v < |sol| && OrderDep(edges, u, v)) <==> OrderNeeds(p, sol, u, v)
  {
    forall u: nat, v: nat
      ensures (u < |sol| && v < |sol| && HardDep(edges, u, v)) <==> HardNeeds(p, sol, u, v)
      ensures (u < |sol| && v < |sol| && OrderDep(edges, u, v)) <==> OrderNeeds(p, sol, u, v)
    {
      NeedsInRange(p, sol, v, Depend, u);
      NeedsInRange(p, sol, v, Bdepend, u);
      NeedsInRange(p, sol, v, Rdepend, u);
      hide Needs;
      assert Needs(p, sol, v, Depend, u) <==> DepEdge(v, u, Depend) in edges;
      assert Needs(p, sol, v, Bdepend, u) <==> DepEdge(v, u, Bdepend) in edges;
      assert Needs(p, sol, v, Rdepend, u) <==> DepEdge(v, u, Rdepend) in edges;
      EdgeKinds(edges, u, v);
    }
  }

  lemma EdgeKinds(edges: seq<DepEdge>, u: nat, v: nat)
    ensures HardDep(edges, u, v) <==> DepEdge(v, u, Depend) in edges || DepEdge(v, u, Bdepend) in edges
    ensures OrderDep(edges, u, v) <==> HardDep(edges, u, v) || DepEdge(v, u, Rdepend) in edges
  {
    if HardDep(edges, u, v) {
      var e :| e in edges && e.to == u && e.from == v && IsHard(e.kind);
      assert e == DepEdge(v, u, e.kind);
    }
    if OrderDep(edges, u, v) {
      var e :| e in edges && e.to == u && e.from == v && IsOrdering(e.kind);
      assert e == DepEdge(v, u, e.kind);
    }
  }

  lemma NeedsInRange(p: Provider, sol: seq<Entry>, from: nat, kind: DepClass, to: nat)
    requires FiveClasses(p)
    ensures Needs(p, sol, from, kind, to) ==> from < |sol| && to < |sol|
  {
  }
}
