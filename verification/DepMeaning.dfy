/** What the nodes of a dependency tree mean: under which selections they are solvable, and where blockers sit. */
module DepMeaning {
  import opened Solving
  import opened RequiredUse
  import opened Composing
  import opened DepTree
  import opened DepImage

  // ---------- what nodes stand for ----------

  /** Asked for by nobody, the nodes say what is pulled in; asked for, they say that the tree reads true as well. */
  ghost predicate Means(p: Policy, e: DepEntry, m: Image, env: Selection) {
    && (Solvable([], m.nodes, env) <==> Pulled(p, e, env))
    && (Solvable(m.reqs, m.nodes, env) <==> Reads(p, e, env) && Pulled(p, e, env))
  }

  ghost predicate MeansEach(p: Policy, cs: seq<DepEntry>, m: Image, env: Selection) {
    && (Solvable([], m.nodes, env) <==> AllPulled(p, cs, env))
    && (Solvable(m.reqs, m.nodes, env) <==> AllRead(p, cs, env) && AllPulled(p, cs, env))
  }

  /** Over every selection the clauses mean that all entries read true and all that is pulled in is honoured. */
  ghost predicate EntriesMean(p: Policy, entries: seq<DepEntry>, reqs: seq<Req>, nodes: seq<VirtualChoice>) {
    forall env :: BaseOnly(env) ==>
      (Solvable(reqs, nodes, env) <==> AllRead(p, entries, env) && AllPulled(p, entries, env))
      && (Solvable([], nodes, env) <==> AllPulled(p, entries, env))
  }

  /** The image, with ids from `lo`, stands for the tree `e`. */
  ghost predicate Converts(p: Policy, e: DepEntry, m: Image, lo: nat) {
    && lo <= m.next && Closed(m.reqs, m.nodes, lo, m.next)
    && (m.reqs == [] ==> m.nodes == [])
    && (m.reqs == [] && DirectBlockers(p, e) == [] <==> Dead(p, e))
    && AttachedBlockers(m.nodes) + multiset(DirectBlockers(p, e)) == LiveBlockers(p, e)
    && forall env :: BaseOnly(env) ==> Means(p, e, m, env)
  }

  ghost predicate ConvertsEach(p: Policy, cs: seq<DepEntry>, m: Image, lo: nat) {
    && lo <= m.next && Closed(m.reqs, m.nodes, lo, m.next)
    && (m.reqs == [] ==> m.nodes == [])
    && (m.reqs == [] && DirectEach(p, cs) == [] <==> AllDead(p, cs))
    && AttachedBlockers(m.nodes) + multiset(DirectEach(p, cs)) == LiveEach(p, cs)
    && forall env :: BaseOnly(env) ==> MeansEach(p, cs, m, env)
  }

  /** Of the first `k` alternatives: the branch of each, over the nodes made inside all of them, stands for it. */
  ghost predicate AlternativesConvert(p: Policy, ranked: seq<DepEntry>, k: nat, all: Alternatives, lo: nat) {
    && |all.branches| == k <= |ranked| && lo <= all.next && Closed([], all.nodes, lo, all.next)
    && (forall j: nat :: j < k ==> BranchConverts(p, ranked, j, all, lo))
    && ((forall j :: 0 <= j < k ==> all.branches[j].deps == []) ==> all.nodes == [])
    && AttachedBlockers(all.nodes) + PlacedAtoms(RankedPlaced(p, ranked, k)) == LiveEach(p, ranked[..k])
    && forall env :: BaseOnly(env) ==> AlternativesMean(p, ranked[..k], all, env)
  }

  ghost predicate BranchConverts(p: Policy, ranked: seq<DepEntry>, j: nat, all: Alternatives, lo: nat)
    requires j < |all.branches| <= |ranked|
  {
    var b := all.branches[j];
    && b.ver == |ranked| - j && Closed(b.deps, all.nodes, lo, all.next)
    && (b.deps == [] && DirectBlockers(p, ranked[j]) == [] <==> Dead(p, ranked[j]))
  }

  ghost predicate AlternativesMean(p: Policy, cs: seq<DepEntry>, all: Alternatives, env: Selection)
    requires |all.branches| == |cs|
  {
    && (Solvable([], all.nodes, env) <==> AllPulled(p, cs, env))
    && forall j: nat :: j < |cs| ==>
         (Solvable(all.branches[j].deps, all.nodes, env) <==> Reads(p, cs[j], env) && AllPulled(p, cs, env))
  }

  // ---------- blockers ----------

  lemma {:induction false} LiveTake(p: Policy, cs: seq<DepEntry>, i: nat)
    requires i < |cs|
    ensures LiveEach(p, cs) == LiveEach(p, cs[..i] + cs[i+1..]) + LiveBlockers(p, cs[i])
    decreases |cs|
  {
    hide LiveEach, LiveBlockers;
    var n := |cs| - 1;
    var init := cs[..n];
    assert cs == init + [cs[n]];
    EachPush(p, init, cs[n]);
    if i == n {
      assert cs[..i] + cs[i+1..] == init;
    } else {
      LiveTake(p, init, i);
      var rest := init[..i] + init[i+1..];
      assert cs[..i] + cs[i+1..] == rest + [cs[n]];
      EachPush(p, rest, cs[n]);
    }
  }

  lemma MultisetTake<T>(b: seq<T>, i: nat)
    requires i < |b|
    ensures multiset(b[..i] + b[i+1..]) == multiset(b) - multiset{b[i]}
  {
    assert b == b[..i] + [b[i]] + b[i+1..];
  }

  /** The live blockers of a group do not depend on the order of its alternatives. */
  lemma {:induction false} LivePermuted(p: Policy, a: seq<DepEntry>, b: seq<DepEntry>)
    requires multiset(a) == multiset(b)
    ensures LiveEach(p, a) == LiveEach(p, b)
    decreases |a|
  {
    hide LiveEach, LiveBlockers;
    if a == [] {
      SameEmpty(a, b);
    } else {
      var i := SamePlace(a, b);
      LivePermuted(p, a[..0] + a[1..], b[..i] + b[i+1..]);
      LiveTake(p, a, 0);
      LiveTake(p, b, i);
    }
  }

  lemma SameEmpty<T>(a: seq<T>, b: seq<T>)
    requires multiset(a) == multiset(b) && a == []
    ensures b == []
  {
    assert |multiset(b)| == |b|;
  }

  lemma SamePlace<T>(a: seq<T>, b: seq<T>) returns (i: nat)
    requires multiset(a) == multiset(b) && a != []
    ensures i < |b| && b[i] == a[0] && |a[..0] + a[1..]| < |a|
    ensures multiset(a[..0] + a[1..]) == multiset(b[..i] + b[i+1..])
  {
    assert a[0] in multiset(b);
    i :| 0 <= i < |b| && b[i] == a[0];
    MultisetTake(a, 0);
    MultisetTake(b, i);
  }

  lemma EachPush(p: Policy, cs: seq<DepEntry>, e: DepEntry)
    ensures DirectEach(p, cs + [e]) == DirectEach(p, cs) + DirectBlockers(p, e)
    ensures LiveEach(p, cs + [e]) == LiveEach(p, cs) + LiveBlockers(p, e)
  {
  }

  lemma PlacedPush(ps: seq<Placed>, q: Placed)
    ensures PlacedAtoms(ps + [q]) == PlacedAtoms(ps) + multiset(q.atoms)
  {
  }

  lemma TwoPlaced(a: Placed, b: Placed)
    ensures PlacedAtoms([a, b]) == multiset(a.atoms) + multiset(b.atoms)
  {
    assert [a, b] == [a] + [b] && [a] == [] + [a];
    PlacedPush([a], b);
    PlacedPush([], a);
  }

  lemma {:induction false} NonePlacedAtoms(allowNone: bool, ps: seq<Placed>)
    ensures PlacedAtoms(NonePlaced(allowNone) + ps) == PlacedAtoms(ps)
  {
    if ps == [] {
      assert NonePlaced(allowNone) + ps == NonePlaced(allowNone);
      assert NonePlaced(true)[..0] == [];
    } else {
      var init, last := ps[..|ps|-1], ps[|ps|-1];
      NonePlacedAtoms(allowNone, init);
      assert ps == init + [last];
      assert NonePlaced(allowNone) + ps == (NonePlaced(allowNone) + init) + [last];
      PlacedPush(NonePlaced(allowNone) + init, last);
      PlacedPush(init, last);
    }
  }

  lemma NoneAttached(c: VirtualChoice)
    requires c.blockers == []
    ensures AttachedBlockers([]) == multiset{} && PlacedAtoms(c.blockers) == multiset{}
  {
  }

  lemma {:induction false} DeadBlockers(p: Policy, cs: seq<DepEntry>)
    requires forall i :: 0 <= i < |cs| ==> Dead(p, cs[i])
    ensures LiveEach(p, cs) == multiset{}
    decreases cs
  {
    if cs != [] {
      var n := |cs| - 1;
      DeadBlockers(p, cs[..n]);
      if cs[n].AllDep? || cs[n].AnyDep? || cs[n].ExactlyOneDep?
         || (cs[n].Conditional? && FixedActive(p, cs[n].flag, cs[n].negate)) {
        DeadBlockers(p, cs[n].children);
      }
    }
  }

  // ---------- atoms ----------

  lemma RealSolvable(r: Req, env: Selection)
    requires r.pkg.Real? && BaseOnly(env)
    ensures Solvable([r], [], env) <==> Meets(env, r)
  {
    if Solvable([r], [], env) {
      var sel :| Solves(sel, [r], []) && Over(sel, env);
      assert Meets(sel, r);
    }
    if Meets(env, r) {
      assert Solves(env, [r], []) && Over(env, env);
    }
  }

  lemma AtomReq(p: Policy, e: DepEntry, r: Req, lo: nat)
    requires e.AtomEntry? && !e.atom.blocker && r.pkg.Real?
    requires forall env :: AtomRead(p, e.atom, env) <==> Meets(env, r)
    ensures Converts(p, e, Image([r], [], lo), lo)
  {
    forall env | BaseOnly(env)
      ensures Means(p, e, Image([r], [], lo), env)
    {
      RealSolvable(r, env);
      EmptySolvable(env);
    }
  }

  lemma SlotSolvable(p: Policy, a: Atom, slots: seq<string>, id: nat, env: Selection)
    requires a.slot == "" && slots == SlotsFor(p, a.cpn) && BaseOnly(env)
    ensures Solvable([Req(SlotChoice(id), Any)], [SlotChoiceFor(a.cpn, slots, a.vers, id)], env) <==> AtomRead(p, a, env)
    ensures Solvable([], [SlotChoiceFor(a.cpn, slots, a.vers, id)], env)
  {
    hide Solvable;
    var c := SlotChoiceFor(a.cpn, slots, a.vers, id);
    assert [] + [c] == [c];
    Choose(c, [], id + 1, id + 1, env);
    EmptySolvable(env);
    forall k | 0 <= k < |slots|
      ensures Solvable(c.versions[k].deps, [], env) <==> Meets(env, Req(Real(a.cpn, slots[k]), a.vers))
    {
      RealSolvable(Req(Real(a.cpn, slots[k]), a.vers), env);
    }
    if AtomRead(p, a, env) {
      var s :| s in slots && Meets(env, Req(Real(a.cpn, s), a.vers));
      var k :| 0 <= k < |slots| && slots[k] == s;
      assert c.versions[k] in c.versions;
    }
  }

  /** A choice among slots stands for an atom that any of them meets. */
  lemma SlotChoiceConverts(p: Policy, e: DepEntry, slots: seq<string>, id: nat)
    requires e.AtomEntry? && !e.atom.blocker && e.atom.slot == "" && slots == SlotsFor(p, e.atom.cpn)
    ensures Converts(p, e, Image([Req(SlotChoice(id), Any)], [SlotChoiceFor(e.atom.cpn, slots, e.atom.vers, id)], id + 1), id)
  {
    hide Solvable;
    var c := SlotChoiceFor(e.atom.cpn, slots, e.atom.vers, id);
    AttachedPush([], c);
    assert [] + [c] == [c];
    forall env | BaseOnly(env)
      ensures Means(p, e, Image([Req(SlotChoice(id), Any)], [c], id + 1), env)
    {
      SlotSolvable(p, e.atom, slots, id, env);
    }
  }

  lemma AtomConverts(p: Policy, e: DepEntry, id: nat)
    requires e.AtomEntry? && !e.atom.blocker
    ensures Converts(p, e, AtomImage(p, e.atom, id), id)
  {
    hide Converts;
    var a := e.atom;
    var slots := SlotsFor(p, a.cpn);
    if a.slot != "" {
      AtomReq(p, e, Req(Real(a.cpn, a.slot), a.vers), id);
    } else if |slots| == 1 {
      AtomReq(p, e, Req(Real(a.cpn, slots[0]), a.vers), id);
    } else {
      SlotChoiceConverts(p, e, slots, id);
    }
  }

  // ---------- lists and conditionals ----------

  /** What asks for nothing converts to nothing. */
  lemma NothingConverts(p: Policy, e: DepEntry, lo: nat)
    requires (e.AtomEntry? && e.atom.blocker) || Inactive(p, e)
    ensures Converts(p, e, Image([], [], lo), lo)
  {
    forall env | BaseOnly(env)
      ensures Means(p, e, Image([], [], lo), env)
    {
      EmptySolvable(env);
    }
  }

  lemma NoneConverts(p: Policy, lo: nat)
    ensures ConvertsEach(p, [], Image([], [], lo), lo)
  {
    forall env | BaseOnly(env)
      ensures MeansEach(p, [], Image([], [], lo), env)
    {
      EmptySolvable(env);
    }
  }

  lemma AllPush(p: Policy, cs: seq<DepEntry>, e: DepEntry, env: Selection)
    ensures AllRead(p, cs + [e], env) <==> AllRead(p, cs, env) && Reads(p, e, env)
    ensures AllPulled(p, cs + [e], env) <==> AllPulled(p, cs, env) && Pulled(p, e, env)
  {
    hide Reads, Pulled;
    var cs' := cs + [e];
    assert cs'[|cs|] == e;
    assert forall i :: 0 <= i < |cs| ==> cs'[i] == cs[i];
  }

  lemma AllDeadPush(p: Policy, cs: seq<DepEntry>, e: DepEntry)
    ensures AllDead(p, cs + [e]) <==> AllDead(p, cs) && Dead(p, e)
  {
    hide Dead;
    var cs' := cs + [e];
    assert cs'[|cs|] == e;
    assert forall i :: 0 <= i < |cs| ==> cs'[i] == cs[i];
  }

  lemma PushConverts(p: Policy, cs: seq<DepEntry>, init: Image, lo: nat, e: DepEntry, last: Image)
    requires ConvertsEach(p, cs, init, lo) && Converts(p, e, last, init.next)
    ensures ConvertsEach(p, cs + [e], Image(init.reqs + last.reqs, init.nodes + last.nodes, last.next), lo)
  {
    hide Dead, Solvable, AttachedBlockers, LiveEach, LiveBlockers, DirectEach, DirectBlockers, AllRead, AllPulled, AllDead;
    hide Reads, Pulled, Closed;
    var all := Image(init.reqs + last.reqs, init.nodes + last.nodes, last.next);
    EachPush(p, cs, e);
    AllDeadPush(p, cs, e);
    AttachedConcat(init.nodes, last.nodes);
    JoinClosed(init.reqs, init.nodes, lo, init.next, last.reqs, last.nodes, last.next);
    assert multiset(DirectEach(p, cs + [e])) == multiset(DirectEach(p, cs)) + multiset(DirectBlockers(p, e));
    forall env | BaseOnly(env)
      ensures MeansEach(p, cs + [e], all, env)
    {
      PushMeans(p, cs, init, lo, e, last, env);
    }
  }

  lemma PushMeans(p: Policy, cs: seq<DepEntry>, init: Image, lo: nat, e: DepEntry, last: Image, env: Selection)
    requires lo <= init.next <= last.next && BaseOnly(env) && MeansEach(p, cs, init, env) && Means(p, e, last, env)
    requires Closed(init.reqs, init.nodes, lo, init.next) && Closed(last.reqs, last.nodes, init.next, last.next)
    ensures MeansEach(p, cs + [e], Image(init.reqs + last.reqs, init.nodes + last.nodes, last.next), env)
  {
    hide Solvable, AllRead, AllPulled, Reads, Pulled, Closed, BaseOnly;
    ClosedNone(init.reqs, init.nodes, lo, init.next);
    ClosedNone(last.reqs, last.nodes, init.next, last.next);
    Join(init.reqs, init.nodes, lo, init.next, last.reqs, last.nodes, last.next, env);
    Join([], init.nodes, lo, init.next, [], last.nodes, last.next, env);
    ghost var none: seq<Req> := [];
    assert none + none == none;
    AllPush(p, cs, e, env);
  }

  /** An entry that is the conjunction of its children converts like the list of them. */
  lemma EachConverts(p: Policy, e: DepEntry, m: Image, lo: nat)
    requires e.AllDep? || (e.Conditional? && !Get(p.cfg, e.flag).Ceded? && FixedActive(p, e.flag, e.negate))
    requires ConvertsEach(p, e.children, m, lo)
    ensures Converts(p, e, m, lo)
  {
    hide Solvable, Closed, AttachedBlockers, LiveEach, DirectEach, BaseOnly;
  }

  lemma DecisionClosed(reqs: seq<Req>, nested: seq<VirtualChoice>, c: VirtualChoice, lo: nat, hi: nat)
    requires Closed(reqs, nested, lo, hi) && c.pkg.Decision?
    requires forall b, r :: b in c.versions && r in b.deps ==> r in reqs
    ensures Closed([Req(c.pkg, Any)], nested + [c], lo, hi)
  {
  }

  /** A conditional on a ceded flag binds exactly while its flag activates it, whatever stands in it or around it. */
  lemma DecisionConverts(p: Policy, e: DepEntry, inside: Image, lo: nat)
    requires e.Conditional? && Get(p.cfg, e.flag).Ceded? && ConvertsEach(p, e.children, inside, lo)
    ensures Converts(p, e, DecisionImage(p, e, inside), lo)
  {
    hide Solvable, AttachedBlockers, LiveEach, DirectEach, PlacedAtoms, Closed, BaseOnly;
    var m := DecisionImage(p, e, inside);
    var c := m.nodes[|inside.nodes|];
    DecisionClosed(inside.reqs, inside.nodes, c, lo, m.next);
    AttachedPush(inside.nodes, c);
    TwoPlaced(c.blockers[0], c.blockers[1]);
    forall env | BaseOnly(env)
      ensures Means(p, e, m, env)
    {
      Decide(c, if e.negate then OFF else ON, inside.reqs, inside.nodes, env);
    }
  }

  // ---------- alternatives ----------

  lemma NoAlternatives(p: Policy, ranked: seq<DepEntry>, lo: nat)
    ensures AlternativesConvert(p, ranked, 0, Alternatives([], [], lo), lo)
  {
    assert ranked[..0] == [];
    forall env | BaseOnly(env)
      ensures AlternativesMean(p, [], Alternatives([], [], lo), env)
    {
      EmptySolvable(env);
    }
  }

  function Extend(ranked: seq<DepEntry>, k: nat, init: Alternatives, last: Image): Alternatives
    requires k < |ranked|
  {
    Alternatives(init.branches + [Branch(|ranked| - k, last.reqs)], init.nodes + last.nodes, last.next)
  }

  lemma BlockersPush(p: Policy, ranked: seq<DepEntry>, k: nat, nested: seq<VirtualChoice>, inside: seq<VirtualChoice>)
    requires k < |ranked|
    requires AttachedBlockers(nested) + PlacedAtoms(RankedPlaced(p, ranked, k)) == LiveEach(p, ranked[..k])
    requires AttachedBlockers(inside) + multiset(DirectBlockers(p, ranked[k])) == LiveBlockers(p, ranked[k])
    ensures AttachedBlockers(nested + inside) + PlacedAtoms(RankedPlaced(p, ranked, k + 1)) == LiveEach(p, ranked[..k+1])
  {
    hide DirectBlockers, LiveEach, LiveBlockers, AttachedBlockers, PlacedAtoms;
    var q := Placed(|ranked| - k, DirectBlockers(p, ranked[k]));
    AttachedConcat(nested, inside);
    EachPush(p, ranked[..k], ranked[k]);
    assert ranked[..k+1] == ranked[..k] + [ranked[k]];
    assert RankedPlaced(p, ranked, k + 1) == RankedPlaced(p, ranked, k) + [q];
    PlacedPush(RankedPlaced(p, ranked, k), q);
  }

  lemma PushAlternativeMeans(p: Policy, ranked: seq<DepEntry>, k: nat, init: Alternatives, lo: nat, last: Image, env: Selection)
    requires k < |ranked| && AlternativesConvert(p, ranked, k, init, lo) && Converts(p, ranked[k], last, init.next)
    requires BaseOnly(env)
    ensures AlternativesMean(p, ranked[..k+1], Extend(ranked, k, init, last), env)
  {
    hide Solvable, AllPulled, Reads, Pulled, Closed, BaseOnly, Dead, DirectBlockers, LiveEach, LiveBlockers, AttachedBlockers;
    hide PlacedAtoms, RankedPlaced;
    var all := Extend(ranked, k, init, last);
    var hi := last.next;
    assert Means(p, ranked[k], last, env) && AlternativesMean(p, ranked[..k], init, env);
    assert ranked[..k+1] == ranked[..k] + [ranked[k]];
    AllPush(p, ranked[..k], ranked[k], env);
    ClosedNone(last.reqs, last.nodes, init.next, hi);
    JoinUnasked([], init.nodes, lo, init.next, last.nodes, hi, env);
    JoinAsked(init.nodes, lo, init.next, last.reqs, last.nodes, hi, env);
    forall j: nat | j < k + 1
      ensures Solvable(all.branches[j].deps, all.nodes, env) <==>
                Reads(p, ranked[..k+1][j], env) && AllPulled(p, ranked[..k+1], env)
    {
      if j < k {
        assert BranchConverts(p, ranked, j, init, lo);
        JoinUnasked(init.branches[j].deps, init.nodes, lo, init.next, last.nodes, hi, env);
      }
    }
  }

  lemma PushBranch(p: Policy, ranked: seq<DepEntry>, k: nat, init: Alternatives, lo: nat, last: Image, j: nat)
    requires j <= k < |ranked| && AlternativesConvert(p, ranked, k, init, lo) && Converts(p, ranked[k], last, init.next)
    ensures BranchConverts(p, ranked, j, Extend(ranked, k, init, last), lo)
  {
    hide Solvable, AllPulled, Reads, Pulled, BaseOnly, Dead, DirectBlockers, LiveEach, LiveBlockers, AttachedBlockers;
    hide PlacedAtoms, RankedPlaced;
    if j < k {
      assert BranchConverts(p, ranked, j, init, lo);
    }
  }

  lemma PushAlternative(p: Policy, ranked: seq<DepEntry>, k: nat, init: Alternatives, lo: nat, last: Image)
    requires k < |ranked| && AlternativesConvert(p, ranked, k, init, lo) && Converts(p, ranked[k], last, init.next)
    ensures AlternativesConvert(p, ranked, k + 1, Extend(ranked, k, init, last), lo)
  {
    hide Solvable, Closed, BaseOnly, DirectBlockers, LiveEach, LiveBlockers, AttachedBlockers, PlacedAtoms, RankedPlaced;
    hide BranchConverts, AlternativesMean, Means, Dead;
    var all := Extend(ranked, k, init, last);
    ClosedNone(last.reqs, last.nodes, init.next, last.next);
    JoinClosed([], init.nodes, lo, init.next, [], last.nodes, last.next);
    ghost var none: seq<Req> := [];
    assert none + none == none;
    BlockersPush(p, ranked, k, init.nodes, last.nodes);
    forall j: nat | j < k + 1
      ensures BranchConverts(p, ranked, j, all, lo)
    {
      PushBranch(p, ranked, k, init, lo, last, j);
    }
    if forall j :: 0 <= j < k + 1 ==> all.branches[j].deps == [] {
      assert forall j :: 0 <= j < k ==> all.branches[j].deps == init.branches[j].deps;
      assert all.branches[k].deps == last.reqs;
    }
    forall env | BaseOnly(env)
      ensures AlternativesMean(p, ranked[..k+1], all, env)
    {
      PushAlternativeMeans(p, ranked, k, init, lo, last, env);
    }
  }

  // ---------- groups ----------

  /** Every alternative came out without requirements and without blockers. */
  predicate AllEmpty(versions: seq<Branch>, placed: seq<Placed>) {
    (forall i :: 0 <= i < |versions| ==> versions[i].deps == []) && (forall i :: 0 <= i < |placed| ==> placed[i].atoms == [])
  }

  /** Alternatives come out empty exactly if all children ask for nothing, and then nothing was made inside them. */
  lemma AllEmptyDead(p: Policy, cs: seq<DepEntry>, all: Alternatives, lo: nat)
    requires AlternativesConvert(p, Ranked(p, cs), |Ranked(p, cs)|, all, lo)
    ensures AllEmpty(all.branches, RankedPlaced(p, Ranked(p, cs), |Ranked(p, cs)|)) <==> AllDead(p, cs)
    ensures AllDead(p, cs) ==> all.nodes == []
  {
    hide Closed, Dead, DirectBlockers, Ranked, AlternativesMean;
    var ranked := Ranked(p, cs);
    var placed := RankedPlaced(p, ranked, |ranked|);
    RankedMembers(p, cs);
    forall k: nat | k < |ranked|
      ensures Dead(p, ranked[k]) <==> all.branches[k].deps == [] && placed[k].atoms == []
    {
      assert BranchConverts(p, ranked, k, all, lo);
    }
    if AllEmpty(all.branches, placed) {
      forall i | 0 <= i < |cs|
        ensures Dead(p, cs[i])
      {
        assert cs[i] in ranked;
        var k: nat :| k < |ranked| && ranked[k] == cs[i];
        assert all.branches[k].deps == [] && placed[k].atoms == [];
      }
    }
    if AllDead(p, cs) {
      forall k: nat | k < |ranked|
        ensures all.branches[k].deps == [] && placed[k].atoms == []
      {
        assert ranked[k] in cs;
        assert Dead(p, ranked[k]);
      }
    }
  }

  lemma GroupClosed(p: Policy, ranked: seq<DepEntry>, all: Alternatives, allowNone: bool, id: nat, c: VirtualChoice)
    requires AlternativesConvert(p, ranked, |ranked|, all, id + 1) && c.pkg == Choice(id)
    requires c.versions == NoneBranch(allowNone) + all.branches
    ensures Closed([Req(c.pkg, Any)], all.nodes + [c], id, all.next)
    ensures forall b :: b in c.versions ==> Closed(b.deps, all.nodes, id + 1, all.next)
  {
    hide Dead, DirectBlockers, AlternativesMean, AttachedBlockers, PlacedAtoms, LiveEach;
    forall b | b in c.versions
      ensures Closed(b.deps, all.nodes, id + 1, all.next)
    {
      if b !in NoneBranch(allowNone) {
        assert b in all.branches;
        var k: nat :| k < |all.branches| && all.branches[k] == b;
        assert BranchConverts(p, ranked, k, all, id + 1);
      }
    }
  }

  /** Ranking does not change whether some alternative reads true, nor whether all of them are pulled. */
  lemma RankedReads(p: Policy, cs: seq<DepEntry>, env: Selection)
    ensures (exists i :: 0 <= i < |cs| && Reads(p, cs[i], env))
       <==> (exists k :: 0 <= k < |Ranked(p, cs)| && Reads(p, Ranked(p, cs)[k], env))
    ensures AllPulled(p, cs, env) <==> AllPulled(p, Ranked(p, cs), env)
  {
    hide Reads, Pulled, Ranked;
    var ranked := Ranked(p, cs);
    RankedMembers(p, cs);
    assert forall i :: 0 <= i < |cs| ==> cs[i] in ranked;
    assert forall k :: 0 <= k < |ranked| ==> ranked[k] in cs;
    if i: nat :| i < |cs| && Reads(p, cs[i], env) {
      var k :| 0 <= k < |ranked| && ranked[k] == cs[i];
    }
    if k: nat :| k < |ranked| && Reads(p, ranked[k], env) {
      var i :| 0 <= i < |cs| && cs[i] == ranked[k];
    }
    assert AllPulled(p, cs, env) <==> forall x :: x in cs ==> Pulled(p, x, env);
    assert AllPulled(p, ranked, env) <==> forall x :: x in ranked ==> Pulled(p, x, env);
  }

  /** Some branch of the group is solvable exactly if none is needed or some alternative reads true. */
  lemma SomeBranch(p: Policy, cs: seq<DepEntry>, all: Alternatives, allowNone: bool, env: Selection)
    requires |all.branches| == |cs| && AlternativesMean(p, cs, all, env)
    ensures (exists b :: b in NoneBranch(allowNone) + all.branches && Solvable(b.deps, all.nodes, env))
       <==> (allowNone || exists k :: 0 <= k < |cs| && Reads(p, cs[k], env)) && AllPulled(p, cs, env)
  {
    hide Solvable, Reads, AllPulled;
    var bs := NoneBranch(allowNone) + all.branches;
    if b :| b in bs && Solvable(b.deps, all.nodes, env) {
      if b !in NoneBranch(allowNone) {
        assert b in all.branches;
        var k: nat :| k < |cs| && all.branches[k] == b;
        assert Reads(p, cs[k], env);
      }
    }
    if AllPulled(p, cs, env) {
      if allowNone {
        assert bs[0] == Branch(0, []) && bs[0] in bs;
      } else if k: nat :| k < |cs| && Reads(p, cs[k], env) {
        assert bs == all.branches && all.branches[k] in bs;
      }
    }
  }

  lemma GroupMeans(p: Policy, e: DepEntry, all: Alternatives, id: nat, c: VirtualChoice, env: Selection)
    requires IsGroup(e) && AlternativesConvert(p, Ranked(p, e.children), |Ranked(p, e.children)|, all, id + 1)
    requires (e.AtMostOneDep? || !AllDead(p, e.children)) && BaseOnly(env)
    requires c.pkg == Choice(id) && c.versions == NoneBranch(e.AtMostOneDep?) + all.branches
    ensures Means(p, e, Image([Req(c.pkg, Any)], all.nodes + [c], all.next), env)
  {
    hide Solvable, Closed, Ranked, BaseOnly, NoneBranch, Dead, Reads, Pulled, AttachedBlockers, PlacedAtoms, RankedPlaced;
    hide DirectBlockers, LiveEach, BranchConverts;
    var ranked := Ranked(p, e.children);
    GroupClosed(p, ranked, all, e.AtMostOneDep?, id, c);
    Choose(c, all.nodes, id + 1, all.next, env);
    assert ranked[..|ranked|] == ranked;
    assert AlternativesMean(p, ranked, all, env);
    SomeBranch(p, ranked, all, e.AtMostOneDep?, env);
    RankedReads(p, e.children, env);
    GroupFacts(p, e, env);
  }

  /** How a group that is not empty, or may be left out, unfolds. */
  lemma GroupFacts(p: Policy, e: DepEntry, env: Selection)
    requires IsGroup(e) && (e.AtMostOneDep? || !AllDead(p, e.children))
    ensures !Dead(p, e) && DirectBlockers(p, e) == []
    ensures Reads(p, e, env) <==> e.AtMostOneDep? || exists i :: 0 <= i < |e.children| && Reads(p, e.children[i], env)
    ensures Pulled(p, e, env) <==> AllPulled(p, e.children, env)
  {
  }

  lemma GroupBlockers(p: Policy, e: DepEntry, all: Alternatives, c: VirtualChoice, lo: nat)
    requires IsGroup(e) && AlternativesConvert(p, Ranked(p, e.children), |Ranked(p, e.children)|, all, lo)
    requires c.blockers == NonePlaced(e.AtMostOneDep?) + RankedPlaced(p, Ranked(p, e.children), |Ranked(p, e.children)|)
    ensures AttachedBlockers(all.nodes + [c]) == LiveBlockers(p, e)
  {
    hide AttachedBlockers, LiveEach, PlacedAtoms, DirectBlockers, BranchConverts, AlternativesMean, Closed, Ranked;
    var ranked := Ranked(p, e.children);
    RankedMembers(p, e.children);
    AttachedPush(all.nodes, c);
    LivePermuted(p, ranked, e.children);
    assert ranked[..|ranked|] == ranked;
    NonePlacedAtoms(e.AtMostOneDep?, RankedPlaced(p, ranked, |ranked|));
  }

  /** A group with nothing in it vanishes where that matches, and else becomes a choice without versions. */
  lemma EmptyGroupConverts(p: Policy, e: DepEntry, all: Alternatives, id: nat)
    requires (e.AnyDep? || e.ExactlyOneDep?) && id < all.next && AllDead(p, e.children)
    ensures Converts(p, e, GroupImage(p, e, all, id), id)
  {
    hide Solvable, LiveEach, AttachedBlockers, PlacedAtoms, BaseOnly, Admits;
    DeadBlockers(p, e.children);
    var c := VirtualChoice(Choice(id), []);
    AttachedPush([], c);
    NoneAttached(c);
    assert [] + [c] == [c];
    forall env | BaseOnly(env)
      ensures Means(p, e, GroupImage(p, e, all, id), env)
    {
      EmptySolvable(env);
      NoVersion(c, id, env);
      EmptyPulled(p, e, env);
    }
  }

  lemma EmptyPulled(p: Policy, e: DepEntry, env: Selection)
    requires IsGroup(e) && AllDead(p, e.children)
    ensures Pulled(p, e, env)
  {
    hide Dead;
    forall i | 0 <= i < |e.children|
      ensures Pulled(p, e.children[i], env)
    {
      DeadPulled(p, e.children[i], env);
    }
  }

  /** A choice without versions can be left alone but never selected. */
  lemma NoVersion(c: VirtualChoice, id: nat, env: Selection)
    requires c.versions == [] && c.pkg == Choice(id) && BaseOnly(env)
    ensures !Solvable([Req(c.pkg, Any)], [c], env) && Solvable([], [c], env)
  {
    assert [] + [c] == [c];
    Choose(c, [], id + 1, id + 1, env);
    EmptySolvable(env);
  }

  /** A group becomes a choice among its alternatives, whatever stands in them; or vanishes; or cannot be met. */
  lemma GroupConverts(p: Policy, e: DepEntry, all: Alternatives, id: nat)
    requires IsGroup(e) && AlternativesConvert(p, Ranked(p, e.children), |e.children|, all, id + 1)
    ensures Converts(p, e, GroupImage(p, e, all, id), id)
  {
    hide Closed, AttachedBlockers, LiveEach, Solvable, BaseOnly, Ranked, RankedPlaced, Dead, Reads, Pulled, DirectBlockers;
    hide LiveBlockers, NoneBranch, NonePlaced, AlternativesMean, BranchConverts, Means, PlacedAtoms;
    RankedMembers(p, e.children);
    if !e.AtMostOneDep? && AllDead(p, e.children) {
      EmptyGroupConverts(p, e, all, id);
    } else {
      var m := GroupImage(p, e, all, id);
      var c := m.nodes[|all.nodes|];
      GroupClosed(p, Ranked(p, e.children), all, e.AtMostOneDep?, id, c);
      GroupBlockers(p, e, all, c, id + 1);
      GroupFacts(p, e, map[]);
      forall env | BaseOnly(env)
        ensures Means(p, e, m, env)
      {
        GroupMeans(p, e, all, id, c, env);
      }
    }
  }

  // ---------- whole trees ----------

  /** For every tree: the exact meaning of its nodes, unasked and asked for, and every live blocker in its place. */
  lemma {:induction false} ImageConverts(p: Policy, e: DepEntry, id: nat)
    ensures Converts(p, e, ImageOf(p, e, id), id)
    decreases e, 1, 0
  {
    hide Converts, ConvertsEach, AlternativesConvert, ImageEach, AlternativesOf, AtomImage, GroupImage, Dead, Ranked;
    hide DecisionImage;
    match e {
      case AtomEntry(a) =>
        if a.blocker {
          NothingConverts(p, e, id);
        } else {
          AtomConverts(p, e, id);
        }
      case AllDep(cs) =>
        EachImageConverts(p, cs, id);
        EachConverts(p, e, ImageEach(p, cs, id), id);
      case Conditional(flag, negate, cs) =>
        EachImageConverts(p, cs, id);
        if Get(p.cfg, flag).Ceded? {
          DecisionConverts(p, e, ImageEach(p, cs, id), id);
        } else if FixedActive(p, flag, negate) {
          EachConverts(p, e, ImageEach(p, cs, id), id);
        } else {
          NothingConverts(p, e, id);
        }
      case _ =>
        RankedMembers(p, e.children);
        AlternativesImageConverts(p, e, Ranked(p, e.children), |e.children|, id + 1);
        GroupConverts(p, e, AlternativesOf(p, e, Ranked(p, e.children), |e.children|, id + 1), id);
    }
  }

  lemma {:induction false} EachImageConverts(p: Policy, cs: seq<DepEntry>, id: nat)
    ensures ConvertsEach(p, cs, ImageEach(p, cs, id), id)
    decreases cs, 1, 0
  {
    hide Converts, ConvertsEach, ImageOf;
    if cs == [] {
      NoneConverts(p, id);
    } else {
      var n := |cs| - 1;
      var init := ImageEach(p, cs[..n], id);
      EachImageConverts(p, cs[..n], id);
      ImageConverts(p, cs[n], init.next);
      PushConverts(p, cs[..n], init, id, cs[n], ImageOf(p, cs[n], init.next));
      assert cs[..n] + [cs[n]] == cs;
    }
  }

  lemma {:induction false} AlternativesImageConverts(p: Policy, e: DepEntry, ranked: seq<DepEntry>, k: nat, id: nat)
    requires IsGroup(e) && k <= |ranked| && forall x :: x in ranked ==> x in e.children
    ensures AlternativesConvert(p, ranked, k, AlternativesOf(p, e, ranked, k, id), id)
    decreases e, 0, k
  {
    hide Converts, AlternativesConvert, ImageOf;
    if k == 0 {
      NoAlternatives(p, ranked, id);
    } else {
      assert ranked[k-1] in e.children;
      var init := AlternativesOf(p, e, ranked, k - 1, id);
      AlternativesImageConverts(p, e, ranked, k - 1, id);
      ImageConverts(p, ranked[k-1], init.next);
      PushAlternative(p, ranked, k - 1, init, id, ImageOf(p, ranked[k-1], init.next));
    }
  }

  /** Over every tree and selection: solvable exactly if all entries read true and everything pulled in is honoured. */
  lemma ImageMeans(p: Policy, entries: seq<DepEntry>, id: nat, env: Selection)
    requires BaseOnly(env)
    ensures var m := ImageEach(p, entries, id);
            && (Solvable(m.reqs, m.nodes, env) <==> AllRead(p, entries, env) && AllPulled(p, entries, env))
            && (Solvable([], m.nodes, env) <==> AllPulled(p, entries, env))
  {
    hide ImageEach, Solvable, AllRead, AllPulled;
    EachImageConverts(p, entries, id);
  }

  /** Where ceded conditionals stand neither in one another nor in a choice, reading true is all there is to it. */
  lemma ShallowMeans(p: Policy, entries: seq<DepEntry>, id: nat, env: Selection)
    requires BaseOnly(env) && forall i :: 0 <= i < |entries| ==> Shallow(p, entries[i])
    ensures var m := ImageEach(p, entries, id); Solvable(m.reqs, m.nodes, env) <==> AllRead(p, entries, env)
  {
    hide ImageEach, Solvable, Reads, Pulled, Shallow;
    ImageMeans(p, entries, id, env);
    if AllRead(p, entries, env) {
      forall i | 0 <= i < |entries|
        ensures Pulled(p, entries[i], env)
      {
        ShallowPulled(p, entries[i], env);
      }
    }
  }

  // ---------- ceded conditionals inside one another ----------

  /** Without ceded flags, a tree depends on the real packages alone. */
  lemma {:induction false} SameReal(p: Policy, e: DepEntry, a: Selection, b: Selection)
    requires NoCeded(p, e) && forall n, s :: Real(n, s) in a ==> Real(n, s) in b && a[Real(n, s)] == b[Real(n, s)]
    requires Reads(p, e, a)
    ensures Reads(p, e, b)
    decreases e
  {
    match e {
      case AtomEntry(_) =>
      case AtMostOneDep(_) =>
      case Conditional(flag, negate, cs) =>
        if FixedActive(p, flag, negate) {
          forall i | 0 <= i < |cs|
            ensures Reads(p, cs[i], b)
          {
            SameReal(p, cs[i], a, b);
          }
        }
      case AllDep(cs) =>
        forall i | 0 <= i < |cs|
          ensures Reads(p, cs[i], b)
        {
          SameReal(p, cs[i], a, b);
        }
      case _ =>
        if !(forall i :: 0 <= i < |e.children| ==> Dead(p, e.children[i])) {
          var i :| 0 <= i < |e.children| && Reads(p, e.children[i], a);
          SameReal(p, e.children[i], a, b);
        }
    }
  }

  /** Real packages and flag values only, every selected flag off or on. */
  ghost predicate Proper(env: Selection) {
    BaseOnly(env) && forall f :: Decision(f) in env ==> env[Decision(f)] <= ON
  }

  /** The outer flag inactive, the inner one active, and nothing else selected. */
  function InnerOnly(x: Solving.Flag, outer: bool, y: Solving.Flag, inner: bool): Selection {
    map[Decision(x) := Bit(outer), Decision(y) := Bit(!inner)]
  }

  /**
   * One ceded conditional in another is encoded as it reads exactly if its body reads true with no
   * package selected: the inner flag has one node for the whole package, so its body is pulled in even while
   * the outer one is inactive.
   */
  lemma NestedExact(p: Policy, x: Solving.Flag, outer: bool, y: Solving.Flag, inner: bool, cs: seq<DepEntry>, id: nat)
    requires Get(p.cfg, x).Ceded? && Get(p.cfg, y).Ceded? && x != y && forall i :: 0 <= i < |cs| ==> NoCeded(p, cs[i])
    ensures var e := Conditional(x, outer, [Conditional(y, inner, cs)]);
            var m := ImageOf(p, e, id);
            (forall env :: Proper(env) ==> (Solvable(m.reqs, m.nodes, env) <==> Reads(p, e, env))) <==> AllRead(p, cs, map[])
  {
    hide ImageOf, Solvable;
    var c := Conditional(y, inner, cs);
    var e := Conditional(x, outer, [c]);
    var m := ImageOf(p, e, id);
    var env := InnerOnly(x, outer, y, inner);
    ImageConverts(p, e, id);
    assert [c][0] == c;
    if AllRead(p, cs, map[]) {
      forall any | Proper(any)
        ensures Solvable(m.reqs, m.nodes, any) <==> Reads(p, e, any)
      {
        assert Means(p, e, m, any);
        if Reads(p, e, any) {
          NestedFree(p, e, c, any);
        }
      }
    }
    if forall any :: Proper(any) ==> (Solvable(m.reqs, m.nodes, any) <==> Reads(p, e, any)) {
      assert Proper(env) && Means(p, e, m, env) && Reads(p, e, env);
      forall i | 0 <= i < |cs|
        ensures Reads(p, cs[i], map[])
      {
        assert Pulled(p, c, env);
        SameReal(p, cs[i], env, map[]);
      }
    }
  }

  lemma NestedFree(p: Policy, e: DepEntry, c: DepEntry, env: Selection)
    requires e.Conditional? && Get(p.cfg, e.flag).Ceded? && e.children == [c] && Reads(p, e, env) && Proper(env)
    requires c.Conditional? && Get(p.cfg, c.flag).Ceded? && AllRead(p, c.children, map[])
    requires forall i :: 0 <= i < |c.children| ==> NoCeded(p, c.children[i])
    ensures Pulled(p, e, env)
  {
    forall i | 0 <= i < |c.children|
      ensures Reads(p, c.children[i], env) && Pulled(p, c.children[i], env)
    {
      SameReal(p, c.children[i], map[], env);
      NoCededPulled(p, c.children[i], env);
    }
    hide Reads;
    assert Pulled(p, c, env);
  }

  /** The witness: with `x` off the tree asks for nothing, yet its nodes refuse `y` on without the atom. */
  lemma NestedRefused(p: Policy, x: Solving.Flag, y: Solving.Flag, a: Atom, id: nat)
    requires Get(p.cfg, x).Ceded? && Get(p.cfg, y).Ceded? && x != y && !a.blocker
    ensures var e := Conditional(x, false, [Conditional(y, false, [AtomEntry(a)])]);
            var m := ImageOf(p, e, id);
            var env := map[Decision(x) := OFF, Decision(y) := ON];
            Reads(p, e, env) && !Solvable(m.reqs, m.nodes, env)
  {
    hide ImageOf, Solvable;
    var c := Conditional(y, false, [AtomEntry(a)]);
    var e := Conditional(x, false, [c]);
    var env := map[Decision(x) := OFF, Decision(y) := ON];
    ImageConverts(p, e, id);
    assert Means(p, e, ImageOf(p, e, id), env);
    assert [c][0] == c && [AtomEntry(a)][0] == AtomEntry(a);
    assert !Reads(p, AtomEntry(a), env);
    assert !Pulled(p, c, env);
  }
}
