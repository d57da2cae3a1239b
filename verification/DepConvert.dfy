/** The converter from dependency trees to solver requirements and choices. */
module DepConvert {
  import opened Solving
  import opened RequiredUse
  import opened Composing
  import opened Registry
  import opened DepTree
  import opened DepImage
  import opened DepMeaning

  class Converter {
    const policy: Policy
    var requirements: seq<Req>
    var blockers: seq<Atom>
    var virtualChoices: seq<VirtualChoice>
    var nextId: nat

    constructor (policy: Policy, firstId: nat)
      ensures this.policy == policy && requirements == [] && blockers == [] && virtualChoices == [] && nextId == firstId
    {
      this.policy := policy;
      requirements, blockers, virtualChoices, nextId := [], [], [], firstId;
    }

    /** The buffers hold what they held and the image after it. */
    predicate Holding(reqs: seq<Req>, nodes: seq<VirtualChoice>, m: Image)
      reads this
    {
      requirements == reqs + m.reqs && virtualChoices == nodes + m.nodes && nextId == m.next
    }

    method ConvertAtom(e: DepEntry)
      requires e.AtomEntry? && !e.atom.blocker
      modifies this`requirements, this`virtualChoices, this`nextId
      ensures Holding(old(requirements), old(virtualChoices), AtomImage(policy, e.atom, old(nextId)))
      ensures Converts(policy, e, AtomImage(policy, e.atom, old(nextId)), old(nextId))
    {
      hide Converts;
      var a := e.atom;
      AtomConverts(policy, e, nextId);
      if a.slot != "" {
        requirements := requirements + [Req(Real(a.cpn, a.slot), a.vers)];
      } else {
        PushUnslottedOrChoice(e);
      }
    }

    method PushUnslottedOrChoice(e: DepEntry)
      requires e.AtomEntry? && !e.atom.blocker && e.atom.slot == ""
      modifies this`requirements, this`virtualChoices, this`nextId
      ensures Holding(old(requirements), old(virtualChoices), AtomImage(policy, e.atom, old(nextId)))
      ensures Converts(policy, e, AtomImage(policy, e.atom, old(nextId)), old(nextId))
    {
      hide Converts;
      var a := e.atom;
      AtomConverts(policy, e, nextId);
      var slots := if a.cpn in policy.slots then policy.slots[a.cpn] else [];
      if |slots| <= 1 {
        requirements := requirements + [Req(Real(a.cpn, if slots == [] then "" else slots[0]), a.vers)];
      } else {
        var id := nextId;
        nextId := nextId + 1;
        virtualChoices := virtualChoices + [SlotChoiceFor(a.cpn, slots, a.vers, id)];
        requirements := requirements + [Req(SlotChoice(id), Any)];
      }
    }

    /** Convert one entry into what is appended to the buffers. */
    method ConvertEntry(e: DepEntry)
      modifies this
      ensures Holding(old(requirements), old(virtualChoices), ImageOf(policy, e, old(nextId)))
      ensures blockers == old(blockers) + DirectBlockers(policy, e)
      ensures Converts(policy, e, ImageOf(policy, e, old(nextId)), old(nextId))
      decreases e, 2
    {
      hide Converts, ImageEach, AtomImage, Ranked, Dead;
      ImageConverts(policy, e, nextId);
      match e {
        case AtomEntry(a) =>
          if a.blocker {
            blockers := blockers + [a];
          } else {
            ConvertAtom(e);
          }
        case Conditional(flag, negate, cs) =>
          match Get(policy.cfg, flag) {
            case Ceded(_) =>
              ConvertDecision(e);
            case state =>
              if state.Enabled? != negate {
                ConvertEach(cs);
              }
          }
        case AllDep(cs) =>
          ConvertEach(cs);
        case AnyDep(_) =>
          ConvertChoiceGroup(e, false);
        case ExactlyOneDep(_) =>
          ConvertChoiceGroup(e, false);
        case AtMostOneDep(_) =>
          ConvertChoiceGroup(e, true);
      }
    }

    method ConvertEach(cs: seq<DepEntry>)
      modifies this
      ensures Holding(old(requirements), old(virtualChoices), ImageEach(policy, cs, old(nextId)))
      ensures blockers == old(blockers) + DirectEach(policy, cs)
      decreases cs, 0
    {
      hide Converts, DirectBlockers, ImageOf;
      for i := 0 to |cs|
        invariant Holding(old(requirements), old(virtualChoices), ImageEach(policy, cs[..i], old(nextId)))
        invariant blockers == old(blockers) + DirectEach(policy, cs[..i])
      {
        ConvertEntry(cs[i]);
        assert cs[..i+1][..i] == cs[..i];
      }
      assert cs[..|cs|] == cs;
    }

    /** Convert children into the buffers of their own, leaving the current ones as they were. */
    method ConvertAside(cs: seq<DepEntry>) returns (reqs: seq<Req>, inside: seq<Atom>)
      modifies this
      ensures requirements == old(requirements) && blockers == old(blockers)
      ensures var m := ImageEach(policy, cs, old(nextId));
              reqs == m.reqs && virtualChoices == old(virtualChoices) + m.nodes && nextId == m.next
      ensures inside == DirectEach(policy, cs)
      decreases cs, 1
    {
      hide DirectEach, ImageEach;
      var savedReqs, savedBlockers := requirements, blockers;
      requirements, blockers := [], [];
      ConvertEach(cs);
      reqs, inside := requirements, blockers;
      requirements, blockers := savedReqs, savedBlockers;
    }

    /** A conditional on a ceded flag becomes a node whose active version carries the children. */
    method ConvertDecision(e: DepEntry)
      requires e.Conditional? && Get(policy.cfg, e.flag).Ceded?
      modifies this
      ensures Holding(old(requirements), old(virtualChoices), ImageOf(policy, e, old(nextId)))
      ensures blockers == old(blockers)
      ensures Converts(policy, e, ImageOf(policy, e, old(nextId)), old(nextId))
      decreases e, 1
    {
      hide Converts, DirectEach, ImageEach;
      ImageConverts(policy, e, nextId);
      var reqs, inside := ConvertAside(e.children);
      var onDeps, onBlockers := if e.negate then [] else reqs, if e.negate then [] else inside;
      var offDeps, offBlockers := if e.negate then reqs else [], if e.negate then inside else [];
      virtualChoices := virtualChoices +
        [VirtualChoice(Decision(e.flag), [Branch(OFF, offDeps), Branch(ON, onDeps)],
                       [Placed(OFF, offBlockers), Placed(ON, onBlockers)])];
      requirements := requirements + [Req(Decision(e.flag), Any)];
    }

    /** Convert one alternative into buffers of its own. */
    method ConvertBranch(e: DepEntry) returns (reqs: seq<Req>, inside: seq<Atom>)
      modifies this
      ensures requirements == old(requirements) && blockers == old(blockers)
      ensures var m := ImageOf(policy, e, old(nextId));
              reqs == m.reqs && virtualChoices == old(virtualChoices) + m.nodes && nextId == m.next
      ensures inside == DirectBlockers(policy, e)
      decreases e, 3
    {
      hide Converts, DirectBlockers, ImageOf;
      var savedReqs, savedBlockers := requirements, blockers;
      requirements, blockers := [], [];
      ConvertEntry(e);
      reqs, inside := requirements, blockers;
      requirements, blockers := savedReqs, savedBlockers;
    }

    /** Convert the alternatives in rank order, numbering them downwards. */
    method ConvertAlternatives(e: DepEntry, ranked: seq<DepEntry>) returns (versions: seq<Branch>, placed: seq<Placed>)
      requires IsGroup(e) && forall x :: x in ranked ==> x in e.children
      modifies this
      ensures requirements == old(requirements) && blockers == old(blockers)
      ensures var all := AlternativesOf(policy, e, ranked, |ranked|, old(nextId));
              versions == all.branches && virtualChoices == old(virtualChoices) + all.nodes && nextId == all.next
      ensures placed == RankedPlaced(policy, ranked, |ranked|)
      decreases e, 0
    {
      hide DirectBlockers, ImageOf;
      var n := |ranked|;
      versions, placed := [], [];
      for rank := 0 to n
        invariant requirements == old(requirements) && blockers == old(blockers)
        invariant var all := AlternativesOf(policy, e, ranked, rank, old(nextId));
                  versions == all.branches && virtualChoices == old(virtualChoices) + all.nodes && nextId == all.next
        invariant placed == RankedPlaced(policy, ranked, rank)
      {
        var child := ranked[rank];
        assert child in e.children;
        var reqs, inside := ConvertBranch(child);
        versions := versions + [Branch(n - rank, reqs)];
        placed := placed + [Placed(n - rank, inside)];
      }
    }

    /** A group becomes a choice with one version per alternative, the first-ranked highest. */
    method ConvertChoiceGroup(e: DepEntry, allowNone: bool)
      requires IsGroup(e) && allowNone == e.AtMostOneDep?
      modifies this
      ensures Holding(old(requirements), old(virtualChoices), ImageOf(policy, e, old(nextId)))
      ensures blockers == old(blockers)
      ensures Converts(policy, e, ImageOf(policy, e, old(nextId)), old(nextId))
      decreases e, 1
    {
      hide Converts, AlternativesConvert, DirectBlockers, AllEmpty, Ranked, Dead, RankedPlaced, AlternativesOf;
      ImageConverts(policy, e, nextId);
      var id := nextId;
      nextId := nextId + 1;
      var ranked := Ranked(policy, e.children);
      RankedMembers(policy, e.children);
      AlternativesImageConverts(policy, e, ranked, |ranked|, id + 1);
      AllEmptyDead(policy, e.children, AlternativesOf(policy, e, ranked, |ranked|, id + 1), id + 1);
      var versions, placed := ConvertAlternatives(e, ranked);
      if !allowNone && AllEmpty(versions, placed) {
        if policy.emptyMatches {
          return;
        }
        virtualChoices := virtualChoices + [VirtualChoice(Choice(id), [])];
        requirements := requirements + [Req(Choice(id), Any)];
        return;
      }
      virtualChoices := virtualChoices +
        [VirtualChoice(Choice(id), NoneBranch(allowNone) + versions, NonePlaced(allowNone) + placed)];
      requirements := requirements + [Req(Choice(id), Any)];
    }
  }

  /** Convert the entries of one dependency class. */
  method ConvertDeps(policy: Policy, entries: seq<DepEntry>, firstId: nat)
    returns (reqs: seq<Req>, blockers: seq<Atom>, choices: seq<VirtualChoice>, nextId: nat)
    ensures Image(reqs, choices, nextId) == ImageEach(policy, entries, firstId)
    ensures OwnIds(choices, firstId, nextId) && Closed(reqs, choices, firstId, nextId)
    ensures blockers == DirectEach(policy, entries)
    ensures AttachedBlockers(choices) + multiset(blockers) == LiveEach(policy, entries)
    ensures EntriesMean(policy, entries, reqs, choices)
    ensures (forall i :: 0 <= i < |entries| ==> Shallow(policy, entries[i])) ==>
              forall env :: BaseOnly(env) ==> (Solvable(reqs, choices, env) <==> AllRead(policy, entries, env))
    ensures (forall i :: 0 <= i < |entries| ==> Plain(policy, entries[i]) && AllAligned(policy, entries[i])) ==>
              forall on, env :: Agrees(policy.cfg, on) && BaseOnly(env) ==>
                (Solvable(reqs, choices, env) <==> forall i :: 0 <= i < |entries| ==> Matches(policy, entries[i], on, env))
  {
    hide ImageEach, Solvable, DirectEach, LiveEach, AttachedBlockers, AllPulled, AllRead, Shallow;
    var ctx := new Converter(policy, firstId);
    ctx.ConvertEach(entries);
    reqs, blockers, choices, nextId := ctx.requirements, ctx.blockers, ctx.virtualChoices, ctx.nextId;
    assert Image(reqs, choices, nextId) == ImageEach(policy, entries, firstId);
    ImageIdsEach(policy, entries, firstId);
    EachImageConverts(policy, entries, firstId);
    if forall i :: 0 <= i < |entries| ==> Shallow(policy, entries[i]) {
      forall env | BaseOnly(env)
        ensures Solvable(reqs, choices, env) <==> AllRead(policy, entries, env)
      {
        ShallowMeans(policy, entries, firstId, env);
      }
    }
    if forall i :: 0 <= i < |entries| ==> Plain(policy, entries[i]) && AllAligned(policy, entries[i]) {
      forall on, env | Agrees(policy.cfg, on) && BaseOnly(env)
        ensures Solvable(reqs, choices, env) <==> forall i :: 0 <= i < |entries| ==> Matches(policy, entries[i], on, env)
      {
        AlignedMeans(policy, entries, firstId, on, env);
      }
    }
  }

  /** Entries without ceded flags whose live any-ofs are all aligned mean what the specification says. */
  lemma AlignedMeans(p: Policy, entries: seq<DepEntry>, id: nat, on: set<Solving.Flag>, env: Selection)
    requires Agrees(p.cfg, on) && BaseOnly(env) && forall i :: 0 <= i < |entries| ==> Plain(p, entries[i]) && AllAligned(p, entries[i])
    ensures var m := ImageEach(p, entries, id);
            Solvable(m.reqs, m.nodes, env) <==> forall i :: 0 <= i < |entries| ==> Matches(p, entries[i], on, env)
  {
    hide ImageEach, Solvable, Reads, Matches, Plain, AllAligned, Shallow;
    forall i | 0 <= i < |entries|
      ensures Shallow(p, entries[i]) && (Reads(p, entries[i], env) <==> Matches(p, entries[i], on, env))
    {
      PlainNoCeded(p, entries[i]);
      NoCededShallow(p, entries[i]);
      AlignedReads(p, entries[i]);
    }
    ShallowMeans(p, entries, id, env);
  }
}
