/** Dependency trees, how they read, and the blockers in them. */
module DepTree {
  import opened Solving
  import opened RequiredUse
  import opened Composing

  datatype DepEntry =
    | AtomEntry(atom: Atom)
    | Conditional(flag: Solving.Flag, negate: bool, children: seq<DepEntry>)
    | AnyDep(children: seq<DepEntry>)
    | ExactlyOneDep(children: seq<DepEntry>)
    | AtMostOneDep(children: seq<DepEntry>)
    | AllDep(children: seq<DepEntry>)

  /** What conversion depends on besides the tree. */
  datatype Policy = Policy(
    cpn: string, cfg: Config, slots: map<string, seq<string>>, emptyMatches: bool, buildtime: bool)

  // ---------- how a tree reads ----------

  /** The slots an atom without a slot of its own may be met in. */
  function SlotsFor(p: Policy, cpn: string): seq<string> {
    if cpn in p.slots && p.slots[cpn] != [] then p.slots[cpn] else [""]
  }

  predicate AtomRead(p: Policy, a: Atom, env: Selection) {
    if a.slot != "" then Meets(env, Req(Real(a.cpn, a.slot), a.vers))
    else exists s :: s in SlotsFor(p, a.cpn) && Meets(env, Req(Real(a.cpn, s), a.vers))
  }

  predicate FixedActive(p: Policy, flag: Solving.Flag, negate: bool) {
    Get(p.cfg, flag).Enabled? != negate
  }

  /** The tree asks for nothing at all: no requirement and no blocker. */
  predicate Dead(p: Policy, e: DepEntry)
    decreases e
  {
    match e
    case AtomEntry(_) => false
    case Conditional(flag, negate, cs) =>
      !Get(p.cfg, flag).Ceded? && (FixedActive(p, flag, negate) ==> forall i :: 0 <= i < |cs| ==> Dead(p, cs[i]))
    case AllDep(cs) => forall i :: 0 <= i < |cs| ==> Dead(p, cs[i])
    case AtMostOneDep(_) => false
    case _ => p.emptyMatches && forall i :: 0 <= i < |e.children| ==> Dead(p, e.children[i])
  }

  /** The flag values and real packages of `env` satisfy the tree. */
  predicate Reads(p: Policy, e: DepEntry, env: Selection)
    decreases e
  {
    match e
    case AtomEntry(a) => a.blocker || AtomRead(p, a, env)
    case Conditional(flag, negate, cs) =>
      if Get(p.cfg, flag).Ceded? then
        Decision(flag) in env && env[Decision(flag)] <= ON
        && ((env[Decision(flag)] == ON) != negate ==> forall i :: 0 <= i < |cs| ==> Reads(p, cs[i], env))
      else FixedActive(p, flag, negate) ==> forall i :: 0 <= i < |cs| ==> Reads(p, cs[i], env)
    case AllDep(cs) => forall i :: 0 <= i < |cs| ==> Reads(p, cs[i], env)
    case AtMostOneDep(_) => true
    case _ =>
      if forall i :: 0 <= i < |e.children| ==> Dead(p, e.children[i]) then p.emptyMatches
      else exists i :: 0 <= i < |e.children| && Reads(p, e.children[i], env)
  }

  /**
   * Wherever a conditional on a ceded flag is live in the tree, in an alternative that is taken or not, it is
   * honoured if its flag is selected: the value is a flag value, and the body reads true if that value activates it.
   */
  predicate Pulled(p: Policy, e: DepEntry, env: Selection)
    decreases e
  {
    match e
    case AtomEntry(_) => true
    case Conditional(flag, negate, cs) =>
      if Get(p.cfg, flag).Ceded? then
        && (forall i :: 0 <= i < |cs| ==> Pulled(p, cs[i], env))
        && (Decision(flag) in env ==>
              env[Decision(flag)] <= ON
              && ((env[Decision(flag)] == ON) != negate ==> forall i :: 0 <= i < |cs| ==> Reads(p, cs[i], env)))
      else FixedActive(p, flag, negate) ==> forall i :: 0 <= i < |cs| ==> Pulled(p, cs[i], env)
    case _ => forall i :: 0 <= i < |e.children| ==> Pulled(p, e.children[i], env)
  }

  predicate AllRead(p: Policy, cs: seq<DepEntry>, env: Selection) {
    forall i :: 0 <= i < |cs| ==> Reads(p, cs[i], env)
  }

  predicate AllPulled(p: Policy, cs: seq<DepEntry>, env: Selection) {
    forall i :: 0 <= i < |cs| ==> Pulled(p, cs[i], env)
  }

  /** No conditional on a ceded flag is live in the tree. */
  predicate NoCeded(p: Policy, e: DepEntry)
    decreases e
  {
    match e
    case AtomEntry(_) => true
    case Conditional(flag, negate, cs) =>
      !Get(p.cfg, flag).Ceded? && (FixedActive(p, flag, negate) ==> forall i :: 0 <= i < |cs| ==> NoCeded(p, cs[i]))
    case _ => forall i :: 0 <= i < |e.children| ==> NoCeded(p, e.children[i])
  }

  /** Conditionals on ceded flags stand neither inside one another nor inside a choice. */
  predicate Shallow(p: Policy, e: DepEntry)
    decreases e
  {
    match e
    case AtomEntry(_) => true
    case Conditional(flag, negate, cs) =>
      if Get(p.cfg, flag).Ceded? then forall i :: 0 <= i < |cs| ==> NoCeded(p, cs[i])
      else FixedActive(p, flag, negate) ==> forall i :: 0 <= i < |cs| ==> Shallow(p, cs[i])
    case AllDep(cs) => forall i :: 0 <= i < |cs| ==> Shallow(p, cs[i])
    case _ => forall i :: 0 <= i < |e.children| ==> NoCeded(p, e.children[i])
  }

  lemma {:induction false} NoCededShallow(p: Policy, e: DepEntry)
    requires NoCeded(p, e)
    ensures Shallow(p, e)
    decreases e
  {
    if e.Conditional? || e.AllDep? {
      if e.AllDep? || FixedActive(p, e.flag, e.negate) {
        forall i | 0 <= i < |e.children|
          ensures Shallow(p, e.children[i])
        {
          NoCededShallow(p, e.children[i]);
        }
      }
    }
  }

  lemma {:induction false} DeadPulled(p: Policy, e: DepEntry, env: Selection)
    requires Dead(p, e)
    ensures Pulled(p, e, env)
    decreases e
  {
    if !e.AtomEntry? && (e.Conditional? ==> FixedActive(p, e.flag, e.negate)) {
      forall i | 0 <= i < |e.children|
        ensures Pulled(p, e.children[i], env)
      {
        DeadPulled(p, e.children[i], env);
      }
    }
  }

  lemma {:induction false} NoCededPulled(p: Policy, e: DepEntry, env: Selection)
    requires NoCeded(p, e)
    ensures Pulled(p, e, env)
    decreases e
  {
    if !e.AtomEntry? && (e.Conditional? ==> FixedActive(p, e.flag, e.negate)) {
      forall i | 0 <= i < |e.children|
        ensures Pulled(p, e.children[i], env)
      {
        NoCededPulled(p, e.children[i], env);
      }
    }
  }

  /** In a shallow tree that reads true nothing more is pulled in. */
  lemma {:induction false} ShallowPulled(p: Policy, e: DepEntry, env: Selection)
    requires Shallow(p, e) && Reads(p, e, env)
    ensures Pulled(p, e, env)
    decreases e
  {
    if e.AllDep? || (e.Conditional? && !Get(p.cfg, e.flag).Ceded? && FixedActive(p, e.flag, e.negate)) {
      forall i | 0 <= i < |e.children|
        ensures Pulled(p, e.children[i], env)
      {
        ShallowPulled(p, e.children[i], env);
      }
    } else if !e.AtomEntry? && (e.Conditional? ==> Get(p.cfg, e.flag).Ceded?) {
      forall i | 0 <= i < |e.children|
        ensures Pulled(p, e.children[i], env)
      {
        NoCededPulled(p, e.children[i], env);
      }
    }
  }

  /**
   * A conditional on a fixed flag is what its body is where the flag's value activates it, and nothing elsewhere: in
   * what it asks for, what is pulled in, whether it asks for anything, and its blockers.
   */
  lemma ConditionalMeans(p: Policy, flag: Solving.Flag, negate: bool, cs: seq<DepEntry>, on: set<Solving.Flag>, env: Selection)
    requires !Get(p.cfg, flag).Ceded? && Agrees(p.cfg, on)
    ensures var e, active := Conditional(flag, negate, cs), (flag in on) != negate;
            && (Reads(p, e, env) <==> (active ==> AllRead(p, cs, env)))
            && (Pulled(p, e, env) <==> (active ==> AllPulled(p, cs, env)))
            && (Dead(p, e) <==> (active ==> forall i :: 0 <= i < |cs| ==> Dead(p, cs[i])))
            && DirectBlockers(p, e) == (if active then DirectEach(p, cs) else [])
            && LiveBlockers(p, e) == (if active then LiveEach(p, cs) else multiset{})
  {
  }

  // ---------- the specification's reading ----------

  /** A conditional that is not active; as a child of a group it is no member of it. */
  predicate Inactive(p: Policy, e: DepEntry) {
    e.Conditional? && !Get(p.cfg, e.flag).Ceded? && !FixedActive(p, e.flag, e.negate)
  }

  /** Only atoms, all-of groups, any-of groups and conditionals on fixed flags. */
  predicate Plain(p: Policy, e: DepEntry)
    decreases e
  {
    match e
    case AtomEntry(_) => true
    case Conditional(flag, _, cs) => !Get(p.cfg, flag).Ceded? && forall i :: 0 <= i < |cs| ==> Plain(p, cs[i])
    case AllDep(cs) => forall i :: 0 <= i < |cs| ==> Plain(p, cs[i])
    case AnyDep(cs) => forall i :: 0 <= i < |cs| ==> Plain(p, cs[i])
    case _ => false
  }

  /** `env` has the package in range: in the slot asked for, or else in one it is known in. */
  ghost predicate InRange(p: Policy, a: Atom, env: Selection) {
    exists s: string ::
      && Real(a.cpn, s) in env && Admits(a.vers, env[Real(a.cpn, s)])
      && (a.slot != "" ==> s == a.slot)
      && (a.slot == "" ==> if a.cpn in p.slots && p.slots[a.cpn] != [] then s in p.slots[a.cpn] else s == "")
  }

  predicate IsMember(e: DepEntry, on: set<Solving.Flag>) {
    e.Conditional? ==> (e.flag in on) != e.negate
  }

  /** With exactly the flags of `on` enabled the tree is matched: an any-of by a member, or by policy when it has none. */
  ghost predicate Matches(p: Policy, e: DepEntry, on: set<Solving.Flag>, env: Selection)
    requires Plain(p, e)
    decreases e
  {
    match e
    case AtomEntry(a) => a.blocker || InRange(p, a, env)
    case Conditional(flag, negate, cs) =>
      (flag in on) != negate ==> forall i :: 0 <= i < |cs| ==> Matches(p, cs[i], on, env)
    case AllDep(cs) => forall i :: 0 <= i < |cs| ==> Matches(p, cs[i], on, env)
    case AnyDep(cs) =>
      if forall i :: 0 <= i < |cs| ==> !IsMember(cs[i], on) then p.emptyMatches
      else exists i :: 0 <= i < |cs| && IsMember(cs[i], on) && Matches(p, cs[i], on, env)
  }

  /** The encoding's reading of the tree is the specification's, whatever is selected. */
  ghost predicate ReadsSame(p: Policy, e: DepEntry)
    requires Plain(p, e)
  {
    forall on, env :: Agrees(p.cfg, on) && BaseOnly(env) ==> (Reads(p, e, env) <==> Matches(p, e, on, env))
  }

  predicate AllPlain(p: Policy, cs: seq<DepEntry>) {
    forall i :: 0 <= i < |cs| ==> Plain(p, cs[i])
  }

  /** The flags that are fixed to be on. */
  function Enabled(p: Policy): set<Solving.Flag> {
    set f | f in p.cfg && p.cfg[f].Enabled?
  }

  /** Some member of the any-of is matched by nothing at all being selected. */
  ghost predicate FreeMember(p: Policy, cs: seq<DepEntry>)
    requires AllPlain(p, cs)
  {
    exists i :: 0 <= i < |cs| && IsMember(cs[i], Enabled(p)) && Matches(p, cs[i], Enabled(p), map[])
  }

  /**
   * Where children ask for nothing, they have to do so as the specification has it: all of them
   * inactive or policy accepting an empty group, or, beside others, none inactive or one matched anyway.
   */
  ghost predicate Aligned(p: Policy, cs: seq<DepEntry>)
    requires AllPlain(p, cs)
  {
    if forall i :: 0 <= i < |cs| ==> Dead(p, cs[i]) then
      (forall i :: 0 <= i < |cs| ==> Inactive(p, cs[i])) || p.emptyMatches
    else
      (forall i :: 0 <= i < |cs| ==> !Inactive(p, cs[i])) || FreeMember(p, cs)
  }

  /** Every live any-of of the tree is aligned. */
  ghost predicate AllAligned(p: Policy, e: DepEntry)
    requires Plain(p, e)
    decreases e
  {
    match e
    case AtomEntry(_) => true
    case AnyDep(cs) => Aligned(p, cs) && forall i :: 0 <= i < |cs| ==> AllAligned(p, cs[i])
    case Conditional(flag, negate, cs) => FixedActive(p, flag, negate) ==> forall i :: 0 <= i < |cs| ==> AllAligned(p, cs[i])
    case AllDep(cs) => forall i :: 0 <= i < |cs| ==> AllAligned(p, cs[i])
  }

  /** The slots an atom may be met in are those the solver is asked for. */
  lemma AtomInRange(p: Policy, a: Atom, env: Selection)
    ensures AtomRead(p, a, env) <==> InRange(p, a, env)
  {
    if a.slot == "" && AtomRead(p, a, env) {
      var s :| s in SlotsFor(p, a.cpn) && Meets(env, Req(Real(a.cpn, s), a.vers));
    }
    if InRange(p, a, env) {
      var s: string :| Real(a.cpn, s) in env && Admits(a.vers, env[Real(a.cpn, s)])
        && (a.slot != "" ==> s == a.slot)
        && (a.slot == "" ==> if a.cpn in p.slots && p.slots[a.cpn] != [] then s in p.slots[a.cpn] else s == "");
      assert Meets(env, Req(Real(a.cpn, s), a.vers));
    }
  }

  lemma MemberActive(p: Policy, e: DepEntry, on: set<Solving.Flag>)
    requires Plain(p, e) && Agrees(p.cfg, on)
    ensures IsMember(e, on) <==> !Inactive(p, e)
  {
  }

  lemma EnabledAgrees(p: Policy)
    ensures Agrees(p.cfg, Enabled(p))
  {
  }

  lemma {:induction false} DeadReads(p: Policy, e: DepEntry, env: Selection)
    requires Dead(p, e)
    ensures Reads(p, e, env)
    decreases e
  {
    if e.Conditional? || e.AllDep? {
      if e.AllDep? || FixedActive(p, e.flag, e.negate) {
        forall i | 0 <= i < |e.children|
          ensures Reads(p, e.children[i], env)
        {
          DeadReads(p, e.children[i], env);
        }
      }
    }
  }

  /** Selecting more never unmatches a tree. */
  lemma {:induction false} MatchesGrows(p: Policy, e: DepEntry, on: set<Solving.Flag>, env: Selection)
    requires Plain(p, e) && Matches(p, e, on, map[])
    ensures Matches(p, e, on, env)
    decreases e
  {
    match e {
      case AtomEntry(_) =>
      case AnyDep(cs) =>
        if !(forall i :: 0 <= i < |cs| ==> !IsMember(cs[i], on)) {
          var i :| 0 <= i < |cs| && IsMember(cs[i], on) && Matches(p, cs[i], on, map[]);
          MatchesGrows(p, cs[i], on, env);
        }
      case Conditional(flag, negate, cs) =>
        if (flag in on) != negate {
          forall i | 0 <= i < |cs|
            ensures Matches(p, cs[i], on, env)
          {
            MatchesGrows(p, cs[i], on, env);
          }
        }
      case AllDep(cs) =>
        forall i | 0 <= i < |cs|
          ensures Matches(p, cs[i], on, env)
        {
          MatchesGrows(p, cs[i], on, env);
        }
    }
  }

  lemma SameAt(p: Policy, cs: seq<DepEntry>, i: nat, on: set<Solving.Flag>, env: Selection)
    requires AllPlain(p, cs) && i < |cs| && ReadsSame(p, cs[i]) && Agrees(p.cfg, on) && BaseOnly(env)
    ensures Reads(p, cs[i], env) <==> Matches(p, cs[i], on, env)
    ensures Dead(p, cs[i]) ==> Matches(p, cs[i], on, env)
    ensures Inactive(p, cs[i]) ==> Dead(p, cs[i])
    ensures IsMember(cs[i], on) <==> !Inactive(p, cs[i])
  {
    MemberActive(p, cs[i], on);
    if Dead(p, cs[i]) {
      DeadReads(p, cs[i], env);
    }
  }

  lemma AlignedGroup(p: Policy, cs: seq<DepEntry>, on: set<Solving.Flag>, env: Selection)
    requires AllPlain(p, cs) && (forall i :: 0 <= i < |cs| ==> ReadsSame(p, cs[i])) && Aligned(p, cs)
    requires Agrees(p.cfg, on) && BaseOnly(env)
    ensures Reads(p, AnyDep(cs), env) <==> Matches(p, AnyDep(cs), on, env)
  {
    if FreeMember(p, cs) {
      FreeMatches(p, cs, on, env);
    }
    hide Dead, Inactive, ReadsSame, BaseOnly, FreeMember, Agrees, IsMember;
    forall i: nat | i < |cs|
      ensures Reads(p, cs[i], env) <==> Matches(p, cs[i], on, env)
      ensures Dead(p, cs[i]) ==> Matches(p, cs[i], on, env)
      ensures Inactive(p, cs[i]) ==> Dead(p, cs[i])
      ensures IsMember(cs[i], on) <==> !Inactive(p, cs[i])
    {
      SameAt(p, cs, i, on, env);
    }
  }

  /** A member matched by nothing is matched by anything. */
  lemma FreeMatches(p: Policy, cs: seq<DepEntry>, on: set<Solving.Flag>, env: Selection)
    requires AllPlain(p, cs) && (forall i :: 0 <= i < |cs| ==> ReadsSame(p, cs[i])) && FreeMember(p, cs)
    requires Agrees(p.cfg, on) && BaseOnly(env)
    ensures exists i :: 0 <= i < |cs| && IsMember(cs[i], on) && Matches(p, cs[i], on, env)
  {
    EnabledAgrees(p);
    assert BaseOnly(map[]);
    hide Reads, Dead, Inactive, Agrees, Plain, Matches;
    var i: nat :| i < |cs| && IsMember(cs[i], Enabled(p)) && Matches(p, cs[i], Enabled(p), map[]);
    SameAt(p, cs, i, Enabled(p), map[]);
    SameAt(p, cs, i, on, map[]);
    MatchesGrows(p, cs[i], on, env);
  }

  lemma MisalignedGroup(p: Policy, cs: seq<DepEntry>)
    requires AllPlain(p, cs) && (forall i :: 0 <= i < |cs| ==> ReadsSame(p, cs[i])) && !Aligned(p, cs)
    ensures !(Reads(p, AnyDep(cs), map[]) <==> Matches(p, AnyDep(cs), Enabled(p), map[]))
  {
    EnabledAgrees(p);
    assert BaseOnly(map[]);
    hide Dead, Inactive, ReadsSame, Agrees, IsMember;
    forall i: nat | i < |cs|
      ensures Reads(p, cs[i], map[]) <==> Matches(p, cs[i], Enabled(p), map[])
      ensures Dead(p, cs[i]) ==> Matches(p, cs[i], Enabled(p), map[])
      ensures Inactive(p, cs[i]) ==> Dead(p, cs[i])
      ensures IsMember(cs[i], Enabled(p)) <==> !Inactive(p, cs[i])
    {
      SameAt(p, cs, i, Enabled(p), map[]);
    }
  }

  /** An any-of reads as specified exactly if it is aligned, given that its children do. */
  lemma GroupReadsExact(p: Policy, cs: seq<DepEntry>)
    requires AllPlain(p, cs) && forall i :: 0 <= i < |cs| ==> ReadsSame(p, cs[i])
    ensures ReadsSame(p, AnyDep(cs)) <==> Aligned(p, cs)
  {
    hide Reads, Matches, Aligned;
    if Aligned(p, cs) {
      forall on, env | Agrees(p.cfg, on) && BaseOnly(env)
        ensures Reads(p, AnyDep(cs), env) <==> Matches(p, AnyDep(cs), on, env)
      {
        AlignedGroup(p, cs, on, env);
      }
    } else {
      MisalignedGroup(p, cs);
      EnabledAgrees(p);
      assert BaseOnly(map[]);
    }
  }

  /** With every live any-of aligned, the whole tree reads as specified. */
  lemma {:induction false} AlignedReads(p: Policy, e: DepEntry)
    requires Plain(p, e) && AllAligned(p, e)
    ensures ReadsSame(p, e)
    decreases e
  {
    match e {
      case AtomEntry(a) =>
        forall env
          ensures AtomRead(p, a, env) <==> InRange(p, a, env)
        {
          AtomInRange(p, a, env);
        }
      case AnyDep(cs) =>
        EachAlignedReads(p, cs);
        GroupReadsExact(p, cs);
      case AllDep(cs) =>
        EachAlignedReads(p, cs);
      case Conditional(flag, negate, cs) =>
        if FixedActive(p, flag, negate) {
          EachAlignedReads(p, cs);
        }
    }
  }

  lemma {:induction false} EachAlignedReads(p: Policy, cs: seq<DepEntry>)
    requires AllPlain(p, cs) && forall i :: 0 <= i < |cs| ==> AllAligned(p, cs[i])
    ensures forall i :: 0 <= i < |cs| ==> ReadsSame(p, cs[i])
    decreases cs, 0
  {
    forall i | 0 <= i < |cs|
      ensures ReadsSame(p, cs[i])
    {
      AlignedReads(p, cs[i]);
    }
  }

  /** A mixed any-of of plain atoms and conditionals reads more loosely, and only a mixed one does. */
  lemma MixedReadsLooser(p: Policy, cs: seq<DepEntry>)
    requires forall i :: 0 <= i < |cs| ==> Plain(p, cs[i]) && (Inactive(p, cs[i]) || (cs[i].AtomEntry? && !cs[i].atom.blocker))
    ensures ReadsSame(p, AnyDep(cs)) <==>
              (forall i :: 0 <= i < |cs| ==> Inactive(p, cs[i])) || (forall i :: 0 <= i < |cs| ==> !Inactive(p, cs[i]))
  {
    EnabledAgrees(p);
    forall i | 0 <= i < |cs|
      ensures ReadsSame(p, cs[i]) && (Dead(p, cs[i]) <==> Inactive(p, cs[i]))
      ensures IsMember(cs[i], Enabled(p)) ==> !Matches(p, cs[i], Enabled(p), map[])
    {
      AtomOrInactive(p, cs[i]);
    }
    GroupReadsExact(p, cs);
  }

  lemma AtomOrInactive(p: Policy, e: DepEntry)
    requires Plain(p, e) && (Inactive(p, e) || (e.AtomEntry? && !e.atom.blocker))
    ensures ReadsSame(p, e) && (Dead(p, e) <==> Inactive(p, e))
    ensures IsMember(e, Enabled(p)) ==> !Matches(p, e, Enabled(p), map[])
  {
    if e.AtomEntry? {
      forall env
        ensures AtomRead(p, e.atom, env) <==> InRange(p, e.atom, env)
      {
        AtomInRange(p, e.atom, env);
      }
    } else {
      EnabledAgrees(p);
      MemberActive(p, e, Enabled(p));
    }
  }

  /** The other direction: a group whose only member asks for nothing is matched, yet its encoding is refused. */
  lemma EmptyMemberReadsStricter(p: Policy, a: Atom, on: set<Solving.Flag>, env: Selection)
    requires !p.emptyMatches && Get(p.cfg, "x").Disabled? && Agrees(p.cfg, on)
    ensures var e := AnyDep([AllDep([Conditional("x", false, [AtomEntry(a)])])]);
            Plain(p, e) && IsMember(e.children[0], on) && !Inactive(p, e.children[0]) && !Reads(p, e, env) && Matches(p, e, on, env)
  {
    var c := Conditional("x", false, [AtomEntry(a)]);
    assert Plain(p, AtomEntry(a)) && Plain(p, c) && Plain(p, AllDep([c]));
    assert Dead(p, c) && Matches(p, c, on, env);
    assert Dead(p, AllDep([c])) && Matches(p, AllDep([c]), on, env);
    assert [AllDep([c])][0] == AllDep([c]);
  }

  lemma {:induction false} PlainNoCeded(p: Policy, e: DepEntry)
    requires Plain(p, e)
    ensures NoCeded(p, e)
    decreases e
  {
    if !e.AtomEntry? {
      forall i | 0 <= i < |e.children|
        ensures NoCeded(p, e.children[i])
      {
        PlainNoCeded(p, e.children[i]);
      }
    }
  }

  // ---------- blockers ----------

  /** The live blockers that no choice and no ceded conditional encloses, in order. */
  function DirectBlockers(p: Policy, e: DepEntry): seq<Atom>
    decreases e
  {
    match e
    case AtomEntry(a) => if a.blocker then [a] else []
    case Conditional(flag, negate, cs) =>
      if !Get(p.cfg, flag).Ceded? && FixedActive(p, flag, negate) then DirectEach(p, cs) else []
    case AllDep(cs) => DirectEach(p, cs)
    case _ => []
  }

  function DirectEach(p: Policy, cs: seq<DepEntry>): seq<Atom>
    decreases cs
  {
    if cs == [] then [] else DirectEach(p, cs[..|cs|-1]) + DirectBlockers(p, cs[|cs|-1])
  }

  /** Every live blocker of the tree. */
  function LiveBlockers(p: Policy, e: DepEntry): multiset<Atom>
    decreases e
  {
    match e
    case AtomEntry(a) => if a.blocker then multiset{a} else multiset{}
    case Conditional(flag, negate, cs) =>
      if Get(p.cfg, flag).Ceded? || FixedActive(p, flag, negate) then LiveEach(p, cs) else multiset{}
    case _ => LiveEach(p, e.children)
  }

  function LiveEach(p: Policy, cs: seq<DepEntry>): multiset<Atom>
    decreases cs
  {
    if cs == [] then multiset{} else LiveEach(p, cs[..|cs|-1]) + LiveBlockers(p, cs[|cs|-1])
  }

  function PlacedAtoms(ps: seq<Placed>): multiset<Atom> {
    if ps == [] then multiset{} else PlacedAtoms(ps[..|ps|-1]) + multiset(ps[|ps|-1].atoms)
  }

  /** The blockers attached to versions of the choices. */
  function AttachedBlockers(choices: seq<VirtualChoice>): multiset<Atom> {
    if choices == [] then multiset{}
    else AttachedBlockers(choices[..|choices|-1]) + PlacedAtoms(choices[|choices|-1].blockers)
  }

  lemma AttachedPush(a: seq<VirtualChoice>, c: VirtualChoice)
    ensures AttachedBlockers(a + [c]) == AttachedBlockers(a) + PlacedAtoms(c.blockers)
  {
  }

  lemma {:induction false} AttachedConcat(a: seq<VirtualChoice>, b: seq<VirtualChoice>)
    ensures AttachedBlockers(a + b) == AttachedBlockers(a) + AttachedBlockers(b)
  {
    hide AttachedBlockers, PlacedAtoms;
    if b == [] {
      assert a + b == a;
      AttachedNone();
    } else {
      var init, last := b[..|b|-1], b[|b|-1];
      AttachedConcat(a, init);
      AttachedPush(a + init, last);
      AttachedPush(init, last);
      assert a + b == (a + init) + [last] && b == init + [last];
    }
  }

  lemma AttachedNone()
    ensures AttachedBlockers([]) == multiset{}
  {
  }
}
