/** The exact nodes a dependency tree is converted to. */
module DepImage {
  import opened Solving
  import opened RequiredUse
  import opened Composing
  import opened Registry
  import opened DepTree
  import opened Sorting

  // ---------- the order of alternatives ----------

  /** A plain atom on the package being built. */
  predicate IsCircular(p: Policy, e: DepEntry) {
    p.buildtime && e.AtomEntry? && !e.atom.blocker && e.atom.cpn == p.cpn
  }

  function Keep(p: Policy, cs: seq<DepEntry>, circular: bool): (r: seq<DepEntry>)
    ensures forall e :: e in r <==> e in cs && IsCircular(p, e) == circular
  {
    if cs == [] then []
    else
      assert cs == [cs[0]] + cs[1..];
      (if IsCircular(p, cs[0]) == circular then [cs[0]] else []) + Keep(p, cs[1..], circular)
  }

  lemma {:induction false} KeepSplits(p: Policy, cs: seq<DepEntry>)
    ensures multiset(Keep(p, cs, false)) + multiset(Keep(p, cs, true)) == multiset(cs)
  {
    if cs != [] {
      KeepSplits(p, cs[1..]);
      assert cs == [cs[0]] + cs[1..];
    }
  }

  /** First-listed first, except that circular alternatives go after all others when there are others. */
  function Ranked(p: Policy, cs: seq<DepEntry>): (r: seq<DepEntry>)
    ensures multiset(r) == multiset(cs)
  {
    KeepSplits(p, cs);
    if (exists e :: e in cs && IsCircular(p, e)) && (exists e :: e in cs && !IsCircular(p, e))
    then Keep(p, cs, false) + Keep(p, cs, true)
    else cs
  }

  lemma RankedMembers(p: Policy, cs: seq<DepEntry>)
    ensures |Ranked(p, cs)| == |cs| && forall e :: e in Ranked(p, cs) <==> e in cs
  {
    var r := Ranked(p, cs);
    assert |multiset(r)| == |multiset(cs)|;
    assert forall e :: e in multiset(r) <==> e in multiset(cs);
  }

  /** Only a circular alternative has to give way. */
  function RankOrder(p: Policy): (DepEntry, DepEntry) -> bool {
    (a, b) => IsCircular(p, a) ==> IsCircular(p, b)
  }

  lemma {:induction false} InsertRanked(p: Policy, x: DepEntry, plain: seq<DepEntry>, circular: seq<DepEntry>)
    requires forall e :: e in plain ==> !IsCircular(p, e)
    requires forall e :: e in circular ==> IsCircular(p, e)
    ensures InsertBy(x, plain + circular, RankOrder(p))
         == if IsCircular(p, x) then plain + ([x] + circular) else [x] + (plain + circular)
  {
    hide IsCircular;
    var all := plain + circular;
    if plain == [] {
      assert all == circular && plain + ([x] + circular) == [x] + circular;
      assert circular != [] ==> circular[0] in circular;
    } else {
      assert plain[0] in plain && all[0] == plain[0] && all[1..] == plain[1..] + circular;
      if IsCircular(p, x) {
        InsertRanked(p, x, plain[1..], circular);
        assert plain + ([x] + circular) == [plain[0]] + (plain[1..] + ([x] + circular));
      }
    }
  }

  lemma {:induction false} SortedSplits(p: Policy, cs: seq<DepEntry>)
    ensures SortBy(cs, RankOrder(p)) == Keep(p, cs, false) + Keep(p, cs, true)
  {
    hide IsCircular, InsertBy, RankOrder, Keep;
    if cs == [] {
      NothingKept(p);
    } else {
      var plain, circular := Keep(p, cs[1..], false), Keep(p, cs[1..], true);
      SortedSplits(p, cs[1..]);
      KeepStep(p, cs);
      InsertRanked(p, cs[0], plain, circular);
      JoinStep(cs[0], plain, circular);
    }
  }

  lemma NothingKept(p: Policy)
    ensures Keep(p, [], false) == [] && Keep(p, [], true) == []
  {
  }

  lemma JoinStep<T>(x: T, a: seq<T>, b: seq<T>)
    ensures [x] + (a + b) == ([x] + a) + b
  {
  }

  lemma KeepStep(p: Policy, cs: seq<DepEntry>)
    requires cs != []
    ensures var plain, circular := Keep(p, cs[1..], false), Keep(p, cs[1..], true);
            && Keep(p, cs, false) == (if IsCircular(p, cs[0]) then plain else [cs[0]] + plain)
            && Keep(p, cs, true) == (if IsCircular(p, cs[0]) then [cs[0]] + circular else circular)
            && (forall e :: e in plain ==> !IsCircular(p, e))
            && (forall e :: e in circular ==> IsCircular(p, e))
  {
    hide IsCircular;
  }

  lemma {:induction false} KeepUniform(p: Policy, cs: seq<DepEntry>, circular: bool)
    requires forall e :: e in cs ==> IsCircular(p, e) == circular
    ensures Keep(p, cs, circular) == cs && Keep(p, cs, !circular) == []
  {
    if cs != [] {
      assert cs == [cs[0]] + cs[1..] && cs[0] in cs;
      KeepUniform(p, cs[1..], circular);
    }
  }

  /** Ranking is the stable sort that puts circular alternatives behind all others. */
  lemma RankedIsStableSort(p: Policy, cs: seq<DepEntry>)
    ensures Ranked(p, cs) == SortBy(cs, RankOrder(p))
  {
    hide IsCircular, SortBy, Keep;
    SortedSplits(p, cs);
    if !exists e :: e in cs && IsCircular(p, e) {
      KeepUniform(p, cs, false);
    } else if !exists e :: e in cs && !IsCircular(p, e) {
      KeepUniform(p, cs, true);
    }
  }

  /**
   * Of two alternatives the first-listed ranks first, unless it is a build-time, non-blocker atom on the package
   * itself and the other is not.
   */
  lemma RankedBefore(p: Policy, cs: seq<DepEntry>, i: nat, j: nat)
    requires i < j < |cs|
    ensures var gives := (e: DepEntry) => p.buildtime && e.AtomEntry? && !e.atom.blocker && e.atom.cpn == p.cpn;
            if gives(cs[i]) && !gives(cs[j]) then Before(Ranked(p, cs), cs[j], cs[i])
            else Before(Ranked(p, cs), cs[i], cs[j])
  {
    RankedIsStableSort(p, cs);
    SortStable(cs, RankOrder(p), i, j);
  }

  // ---------- the nodes of a tree ----------

  /** What a tree asks for, the nodes it makes in order, and the first id left unused. */
  datatype Image = Image(reqs: seq<Req>, nodes: seq<VirtualChoice>, next: nat)

  /** The branches of the alternatives so far, the nodes made inside them, and the first id left unused. */
  datatype Alternatives = Alternatives(branches: seq<Branch>, nodes: seq<VirtualChoice>, next: nat)

  function SlotChoiceFor(cpn: string, slots: seq<string>, vers: VerSet, id: nat): VirtualChoice {
    VirtualChoice(SlotChoice(id),
                  seq(|slots|, i requires 0 <= i < |slots| => Branch(i + 1, [Req(Real(cpn, slots[i]), vers)])))
  }

  function AtomImage(p: Policy, a: Atom, id: nat): Image {
    var slots := SlotsFor(p, a.cpn);
    if a.slot != "" then Image([Req(Real(a.cpn, a.slot), a.vers)], [], id)
    else if |slots| == 1 then Image([Req(Real(a.cpn, slots[0]), a.vers)], [], id)
    else Image([Req(SlotChoice(id), Any)], [SlotChoiceFor(a.cpn, slots, a.vers, id)], id + 1)
  }

  /** The blockers of a ceded conditional sit at the version that activates it. */
  function DecisionPlaced(p: Policy, e: DepEntry): seq<Placed>
    requires e.Conditional?
  {
    var inside := DirectEach(p, e.children);
    [Placed(OFF, if e.negate then inside else []), Placed(ON, if e.negate then [] else inside)]
  }

  /** The node of a conditional on a ceded flag over the image of its body. */
  function DecisionImage(p: Policy, e: DepEntry, inside: Image): Image
    requires e.Conditional?
  {
    var versions := [Branch(OFF, if e.negate then inside.reqs else []), Branch(ON, if e.negate then [] else inside.reqs)];
    Image([Req(Decision(e.flag), Any)],
          inside.nodes + [VirtualChoice(Decision(e.flag), versions, DecisionPlaced(p, e))], inside.next)
  }

  function NoneBranch(allowNone: bool): seq<Branch> {
    if allowNone then [Branch(0, [])] else []
  }

  function NonePlaced(allowNone: bool): seq<Placed> {
    if allowNone then [Placed(0, [])] else []
  }

  /** The blockers of the first `k` alternatives, each at its own version. */
  function RankedPlaced(p: Policy, ranked: seq<DepEntry>, k: nat): seq<Placed>
    requires k <= |ranked|
  {
    seq(k, i requires 0 <= i < k => Placed(|ranked| - i, DirectBlockers(p, ranked[i])))
  }

  predicate IsGroup(e: DepEntry) {
    e.AnyDep? || e.ExactlyOneDep? || e.AtMostOneDep?
  }

  predicate AllDead(p: Policy, cs: seq<DepEntry>) {
    forall i :: 0 <= i < |cs| ==> Dead(p, cs[i])
  }

  /**
   * The nodes of a tree: those made inside come first, then the choice or decision itself. The branch for
   * an alternative asks for what that alternative asks for and carries the blockers that no node inside
   * it encloses.
   */
  function ImageOf(p: Policy, e: DepEntry, id: nat): Image
    decreases e, 1, 0
  {
    match e
    case AtomEntry(a) => if a.blocker then Image([], [], id) else AtomImage(p, a, id)
    case AllDep(cs) => ImageEach(p, cs, id)
    case Conditional(flag, negate, cs) =>
      if Get(p.cfg, flag).Ceded? then DecisionImage(p, e, ImageEach(p, cs, id))
      else if FixedActive(p, flag, negate) then ImageEach(p, cs, id)
      else Image([], [], id)
    case _ =>
      RankedMembers(p, e.children);
      GroupImage(p, e, AlternativesOf(p, e, Ranked(p, e.children), |e.children|, id + 1), id)
  }

  /** The node of a group around its alternatives; a group with nothing in it vanishes or has no branch. */
  function GroupImage(p: Policy, e: DepEntry, all: Alternatives, id: nat): Image
    requires IsGroup(e)
  {
    var allowNone := e.AtMostOneDep?;
    var empty := !allowNone && AllDead(p, e.children);
    if empty && p.emptyMatches then Image([], [], all.next)
    else if empty then Image([Req(Choice(id), Any)], [VirtualChoice(Choice(id), [])], all.next)
    else
      RankedMembers(p, e.children);
      var c := VirtualChoice(Choice(id), NoneBranch(allowNone) + all.branches,
                             NonePlaced(allowNone) + RankedPlaced(p, Ranked(p, e.children), |e.children|));
      Image([Req(Choice(id), Any)], all.nodes + [c], all.next)
  }

  function ImageEach(p: Policy, cs: seq<DepEntry>, id: nat): Image
    decreases cs, 1, 0
  {
    if cs == [] then Image([], [], id)
    else
      var init := ImageEach(p, cs[..|cs|-1], id);
      var last := ImageOf(p, cs[|cs|-1], init.next);
      Image(init.reqs + last.reqs, init.nodes + last.nodes, last.next)
  }

  /** The first `k` alternatives in rank order, numbered downwards from the number of all of them. */
  function AlternativesOf(p: Policy, e: DepEntry, ranked: seq<DepEntry>, k: nat, id: nat): Alternatives
    requires IsGroup(e) && k <= |ranked| && forall x :: x in ranked ==> x in e.children
    decreases e, 0, k
  {
    if k == 0 then Alternatives([], [], id)
    else
      var init := AlternativesOf(p, e, ranked, k - 1, id);
      assert ranked[k-1] in e.children;
      var last := ImageOf(p, ranked[k-1], init.next);
      Alternatives(init.branches + [Branch(|ranked| - (k - 1), last.reqs)], init.nodes + last.nodes, last.next)
  }

  /** The slots of a choice stand in the order given, the last one at the highest version. */
  lemma SlotsInOrder(cpn: string, slots: seq<string>, vers: VerSet, id: nat, i: nat, j: nat)
    requires i < j < |slots|
    ensures var bs := SlotChoiceFor(cpn, slots, vers, id).versions;
            && |bs| == |slots| && 0 < bs[i].ver < bs[j].ver
            && bs[i].deps == [Req(Real(cpn, slots[i]), vers)] && bs[j].deps == [Req(Real(cpn, slots[j]), vers)]
  {
  }

  /** The branch at version `v` asks for what `x` is converted to. */
  ghost predicate BranchFor(p: Policy, x: DepEntry, v: nat, b: Branch) {
    exists id :: b == Branch(v, ImageOf(p, x, id).reqs)
  }

  /** At version `v` the choice stands for the alternative `x`: it asks for what `x` asks for and carries its blockers. */
  ghost predicate Stands(p: Policy, c: VirtualChoice, x: DepEntry, v: nat) {
    Placed(v, DirectBlockers(p, x)) in c.blockers && exists b :: b in c.versions && BranchFor(p, x, v, b)
  }

  ghost predicate Preferred(p: Policy, c: VirtualChoice, x: DepEntry, y: DepEntry) {
    exists v: nat, w: nat :: v > w > 0 && Stands(p, c, x, v) && Stands(p, c, y, w)
  }

  lemma {:induction false} AlternativeBranches(p: Policy, e: DepEntry, ranked: seq<DepEntry>, k: nat, id: nat)
    requires IsGroup(e) && k <= |ranked| && forall x :: x in ranked ==> x in e.children
    ensures var bs := AlternativesOf(p, e, ranked, k, id).branches;
            |bs| == k && forall j: nat :: j < k ==> BranchFor(p, ranked[j], |ranked| - j, bs[j])
    decreases k
  {
    hide ImageOf;
    if k > 0 {
      assert ranked[k-1] in e.children;
      AlternativeBranches(p, e, ranked, k - 1, id);
      var init := AlternativesOf(p, e, ranked, k - 1, id);
      assert BranchFor(p, ranked[k-1], |ranked| - (k - 1), Branch(|ranked| - (k - 1), ImageOf(p, ranked[k-1], init.next).reqs));
    }
  }

  /** The alternative ranked `j`-th is at the `j`-th highest version. */
  lemma RankStands(p: Policy, e: DepEntry, id: nat, j: nat)
    requires IsGroup(e) && j < |e.children| == |Ranked(p, e.children)| && (e.AtMostOneDep? || !AllDead(p, e.children))
    ensures var nodes := ImageOf(p, e, id).nodes;
            && nodes != [] && nodes[|nodes|-1].pkg == Choice(id)
            && Stands(p, nodes[|nodes|-1], Ranked(p, e.children)[j], |e.children| - j)
  {
    hide Ranked, AlternativesOf, DirectBlockers, BranchFor, Dead;
    RankedMembers(p, e.children);
    var ranked := Ranked(p, e.children);
    var all := AlternativesOf(p, e, ranked, |e.children|, id + 1);
    AlternativeBranches(p, e, ranked, |ranked|, id + 1);
    var m := GroupImage(p, e, all, id);
    var c := m.nodes[|m.nodes|-1];
    assert ImageOf(p, e, id) == m;
    assert RankedPlaced(p, ranked, |ranked|)[j] in c.blockers;
    assert all.branches[j] in c.versions;
  }

  /**
   * In the choice of a group every alternative stands at a version of its own above that of taking none, a first-listed
   * one at a higher version than one listed later, unless it is a build-time atom on the package itself and
   * the other is not.
   */
  lemma ListedFirstPreferred(p: Policy, e: DepEntry, id: nat, i: nat, j: nat)
    requires IsGroup(e) && i < j < |e.children| && (e.AtMostOneDep? || !AllDead(p, e.children))
    ensures var nodes := ImageOf(p, e, id).nodes;
            && nodes != []
            && var c := nodes[|nodes|-1];
               var gives := (x: DepEntry) => p.buildtime && x.AtomEntry? && !x.atom.blocker && x.atom.cpn == p.cpn;
               if gives(e.children[i]) && !gives(e.children[j]) then Preferred(p, c, e.children[j], e.children[i])
               else Preferred(p, c, e.children[i], e.children[j])
  {
    hide Ranked, ImageOf, Stands, AllDead, Preferred;
    RankedMembers(p, e.children);
    RankedBefore(p, e.children, i, j);
    var ranked := Ranked(p, e.children);
    var gives := (x: DepEntry) => p.buildtime && x.AtomEntry? && !x.atom.blocker && x.atom.cpn == p.cpn;
    var swap := gives(e.children[i]) && !gives(e.children[j]);
    var x, y := if swap then e.children[j] else e.children[i], if swap then e.children[i] else e.children[j];
    var k, l :| 0 <= k < l < |ranked| && ranked[k] == x && ranked[l] == y;
    RankStands(p, e, id, k);
    RankStands(p, e, id, l);
    var nodes := ImageOf(p, e, id).nodes;
    StandsPreferred(p, nodes[|nodes|-1], x, y, |ranked| - k, |ranked| - l);
  }

  lemma StandsPreferred(p: Policy, c: VirtualChoice, x: DepEntry, y: DepEntry, v: nat, w: nat)
    requires Stands(p, c, x, v) && Stands(p, c, y, w) && v > w > 0
    ensures Preferred(p, c, x, y)
  {
  }

  /** The blockers of a ceded conditional come with the version that also asks for its body. */
  lemma DecisionStands(p: Policy, e: DepEntry, id: nat, v: nat)
    requires e.Conditional? && Get(p.cfg, e.flag).Ceded? && v <= 1
    ensures var nodes := ImageOf(p, e, id).nodes;
            && nodes != []
            && var c, active := nodes[|nodes|-1], (v == 1) != e.negate;
               && c.pkg == Decision(e.flag)
               && Branch(v, if active then ImageEach(p, e.children, id).reqs else []) in c.versions
               && Placed(v, if active then DirectEach(p, e.children) else []) in c.blockers
  {
    hide ImageEach, DirectEach;
    var nodes := ImageOf(p, e, id).nodes;
    var c := nodes[|nodes|-1];
    assert c.versions[v] in c.versions && c.blockers[v] in c.blockers;
  }

  // ---------- ids ----------

  /** No choice node is made twice, so a blocker attached to one sits at one place. */
  lemma {:induction false} ImageIds(p: Policy, e: DepEntry, id: nat)
    ensures OwnIds(ImageOf(p, e, id).nodes, id, ImageOf(p, e, id).next)
    decreases e, 1, 0
  {
    hide OwnIds, NodeOK, ImageEach, AlternativesOf, GroupImage, AtomImage, DecisionImage, Ranked;
    match e {
      case AtomEntry(a) =>
        AtomIds(p, a, id);
      case AllDep(cs) =>
        ImageIdsEach(p, cs, id);
      case Conditional(flag, negate, cs) =>
        ImageIdsEach(p, cs, id);
        DecisionIds(p, e, ImageEach(p, cs, id), id);
      case _ =>
        RankedMembers(p, e.children);
        var ranked := Ranked(p, e.children);
        ImageIdsAlternatives(p, e, ranked, |ranked|, id + 1);
        GroupIds(p, e, AlternativesOf(p, e, ranked, |e.children|, id + 1), id);
    }
  }

  lemma AtomIds(p: Policy, a: Atom, id: nat)
    ensures OwnIds([], id, id) && OwnIds(AtomImage(p, a, id).nodes, id, AtomImage(p, a, id).next)
  {
  }

  lemma DecisionIds(p: Policy, e: DepEntry, inside: Image, id: nat)
    requires e.Conditional? && OwnIds(inside.nodes, id, inside.next)
    ensures OwnIds([], id, id) && OwnIds(DecisionImage(p, e, inside).nodes, id, inside.next)
    ensures DecisionImage(p, e, inside).next == inside.next
  {
    hide DirectEach;
    var c := DecisionImage(p, e, inside).nodes[|inside.nodes|];
    assert c.versions[0] in c.versions && c.versions[1] in c.versions;
    OwnIdsPush(inside.nodes, c, id, id, inside.next);
  }

  /** The first branches of `n`, numbered downwards. */
  predicate Numbered(branches: seq<Branch>, n: nat) {
    |branches| <= n && forall j :: 0 <= j < |branches| ==> branches[j].ver == n - j
  }

  lemma GroupIds(p: Policy, e: DepEntry, all: Alternatives, id: nat)
    requires IsGroup(e) && OwnIds(all.nodes, id + 1, all.next)
    requires |all.branches| == |e.children| && Numbered(all.branches, |e.children|)
    ensures OwnIds(GroupImage(p, e, all, id).nodes, id, all.next) && GroupImage(p, e, all, id).next == all.next
  {
    var m := GroupImage(p, e, all, id);
    if !e.AtMostOneDep? && AllDead(p, e.children) {
      OwnIdsPush([], VirtualChoice(Choice(id), []), id, id + 1, all.next);
      assert [] + [VirtualChoice(Choice(id), [])] == [VirtualChoice(Choice(id), [])];
    } else {
      RankedMembers(p, e.children);
      GroupNodeOK(p, e, all.branches, m.nodes[|all.nodes|]);
      OwnIdsPush(all.nodes, m.nodes[|all.nodes|], id, id + 1, all.next);
    }
  }

  /** The versions of a group's choice are distinct, and its blockers are at versions it has. */
  lemma GroupNodeOK(p: Policy, e: DepEntry, branches: seq<Branch>, c: VirtualChoice)
    requires IsGroup(e) && |branches| == |e.children| == |Ranked(p, e.children)| && Numbered(branches, |e.children|)
    requires c.pkg.Choice? && c.versions == NoneBranch(e.AtMostOneDep?) + branches
    requires c.blockers == NonePlaced(e.AtMostOneDep?) + RankedPlaced(p, Ranked(p, e.children), |e.children|)
    ensures NodeOK(c)
  {
    hide Ranked, DirectBlockers;
    forall k | 0 <= k < |c.blockers|
      ensures OfVersion(c.versions, c.blockers[k].ver)
    {
      assert c.versions[k] in c.versions && c.versions[k].ver == c.blockers[k].ver;
    }
  }

  lemma {:induction false} ImageIdsEach(p: Policy, cs: seq<DepEntry>, id: nat)
    ensures OwnIds(ImageEach(p, cs, id).nodes, id, ImageEach(p, cs, id).next)
    decreases cs, 1, 0
  {
    hide ImageOf;
    if cs != [] {
      var init := ImageEach(p, cs[..|cs|-1], id);
      var last := ImageOf(p, cs[|cs|-1], init.next);
      ImageIdsEach(p, cs[..|cs|-1], id);
      ImageIds(p, cs[|cs|-1], init.next);
      OwnIdsConcat(init.nodes, last.nodes, id, init.next, last.next);
    }
  }

  lemma {:induction false} ImageIdsAlternatives(p: Policy, e: DepEntry, ranked: seq<DepEntry>, k: nat, id: nat)
    requires IsGroup(e) && k <= |ranked| && forall x :: x in ranked ==> x in e.children
    ensures OwnIds(AlternativesOf(p, e, ranked, k, id).nodes, id, AlternativesOf(p, e, ranked, k, id).next)
    ensures |AlternativesOf(p, e, ranked, k, id).branches| == k && Numbered(AlternativesOf(p, e, ranked, k, id).branches, |ranked|)
    decreases e, 0, k
  {
    hide ImageOf;
    if k > 0 {
      assert ranked[k-1] in e.children;
      var init := AlternativesOf(p, e, ranked, k - 1, id);
      var last := ImageOf(p, ranked[k-1], init.next);
      ImageIdsAlternatives(p, e, ranked, k - 1, id);
      ImageIds(p, ranked[k-1], init.next);
      OwnIdsConcat(init.nodes, last.nodes, id, init.next, last.next);
    }
  }
}
