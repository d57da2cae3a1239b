/** Where fixed flags rule out what the ceded flags could still satisfy, where they cannot, and the retry that follows. */
module Pins {
  import opened Wrappers
  import opened Solving
  import opened RequiredUse
  import opened UseEncoder

  // ---------- when a solution exists ----------

  /** Some assignment of the ceded flags extends to a solution of the clauses. */
  ghost predicate HasSolution(cfg: Config, reqs: seq<Req>, choices: seq<VirtualChoice>) {
    exists on :: Agrees(cfg, on) && Extensible(reqs, choices, on)
  }

  /** Some assignment of the ceded flags makes what is encoded true. */
  ghost predicate HasModel(cfg: Config, f: Formula) {
    exists on :: Agrees(cfg, on) && Holds(Weaken(cfg, f, false), on, false)
  }

  /** For every formula and configuration: a solution exists exactly when what is encoded has a model. */
  lemma SolutionExact(cfg: Config, f: Formula, reqs: seq<Req>, choices: seq<VirtualChoice>)
    requires Encodes(cfg, f, reqs, choices)
    ensures HasSolution(cfg, reqs, choices) <==> HasModel(cfg, f)
  {
    hide Extensible;
    if HasModel(cfg, f) {
      var on :| Agrees(cfg, on) && Holds(Weaken(cfg, f, false), on, false);
      assert Extensible(reqs, choices, on);
    }
    if HasSolution(cfg, reqs, choices) {
      var on :| Agrees(cfg, on) && Extensible(reqs, choices, on);
      assert Holds(Weaken(cfg, f, false), on, false);
    }
  }

  // ---------- places where a pin acts ----------

  /** The ceded flags as in `on`, the fixed ones as configured. */
  function Pinned(cfg: Config, on: FlagSet): (r: FlagSet)
    ensures forall f :: f in r <==> if Get(cfg, f).Ceded? then f in on else Get(cfg, f).Enabled?
  {
    (set f | f in on && Get(cfg, f).Ceded?) + (set f | f in cfg && cfg[f].Enabled?)
  }

  lemma PinnedAgrees(cfg: Config, on: FlagSet)
    ensures Agrees(cfg, Pinned(cfg, on))
  {
  }

  predicate IsGroup(f: Formula) {
    f.AnyOf? || f.ExactlyOne? || f.AtMostOne?
  }

  /** A flat group that its fixed members satisfy whatever the free ones are. */
  predicate Settled(cfg: Config, f: Formula)
    requires IsGroup(f) && Flat(f.children)
  {
    var fixed, free := FixedCount(FlagOperands(cfg, f.children)), |FreeOperands(FlagOperands(cfg, f.children))|;
    match f
    case AnyOf(_) => fixed >= 1
    case ExactlyOne(_) => fixed == 1 && free == 0
    case _ => fixed + free <= 1
  }

  /** The group is left to the post-solve check. */
  predicate Deferred(cfg: Config, f: Formula, guarded: bool)
    requires IsGroup(f)
  {
    !Flat(f.children) || (!guarded && FixedFalse(cfg, f))
  }

  /** No fixed member of the group bears on its free ones. */
  predicate GroupUnpinned(cfg: Config, f: Formula, guarded: bool)
    requires IsGroup(f)
  {
    || Deferred(cfg, f, guarded)
    || Settled(cfg, f)
    || (if f.AtMostOne? then FixedCount(FlagOperands(cfg, f.children)) == 0
        else |FreeOperands(FlagOperands(cfg, f.children))| == |f.children|)
  }

  /** What is encoded of the formula is true whatever the ceded flags are. */
  predicate Idle(cfg: Config, f: Formula, guarded: bool)
    decreases f
  {
    match f
    case Flag(name, negated) => OperandOf(cfg, name, negated).Fixed? && (guarded ==> OperandOf(cfg, name, negated).satisfied)
    case UseConditional(flag, negated, cs) =>
      (match Get(cfg, flag)
       case Ceded(_) => forall i :: 0 <= i < |cs| ==> Idle(cfg, cs[i], true)
       case state => state.Enabled? != negated ==> forall i :: 0 <= i < |cs| ==> Idle(cfg, cs[i], guarded))
    case All(cs) => forall i :: 0 <= i < |cs| ==> Idle(cfg, cs[i], guarded)
    case _ => Deferred(cfg, f, guarded) || Settled(cfg, f)
  }

  /**
   * No pin acts: no false fixed flag under a ceded guard, no fixed guard that switches
   * something on, no fixed member of a group that bears on the free ones.
   */
  predicate PinFree(cfg: Config, f: Formula, guarded: bool)
    decreases f
  {
    match f
    case Flag(name, negated) => guarded ==> OperandOf(cfg, name, negated) != Fixed(false)
    case UseConditional(flag, negated, cs) =>
      (match Get(cfg, flag)
       case Ceded(_) => forall i :: 0 <= i < |cs| ==> PinFree(cfg, cs[i], true)
       case state => state.Enabled? != negated ==> forall i :: 0 <= i < |cs| ==> Idle(cfg, cs[i], guarded))
    case All(cs) => forall i :: 0 <= i < |cs| ==> PinFree(cfg, cs[i], guarded)
    case _ => GroupUnpinned(cfg, f, guarded)
  }

  lemma {:induction false} IdleHolds(cfg: Config, f: Formula, guarded: bool, on: FlagSet)
    requires Agrees(cfg, on) && Idle(cfg, f, guarded)
    ensures Holds(Weaken(cfg, f, guarded), on, false)
    decreases f
  {
    if f.UseConditional? || f.All? {
      var cs := if f.All? then f.children else f.entries;
      if f.All? || Get(cfg, f.flag).Ceded? || (Get(cfg, f.flag).Enabled? != f.negated) {
        var inner := if f.UseConditional? && Get(cfg, f.flag).Ceded? then true else guarded;
        var ws := WeakenEach(cfg, cs, inner);
        forall i | 0 <= i < |cs|
          ensures Holds(ws[i], on, false)
        {
          IdleHolds(cfg, cs[i], inner, on);
        }
        HoldAllForall(ws, on, false);
      }
    } else if !f.Flag? && !Deferred(cfg, f, guarded) {
      SettledHolds(cfg, f, on);
    }
  }

  lemma SettledHolds(cfg: Config, f: Formula, on: FlagSet)
    requires IsGroup(f) && Flat(f.children) && Agrees(cfg, on) && Settled(cfg, f)
    ensures Holds(f, on, false)
  {
    var ops := FlagOperands(cfg, f.children);
    FlatCount(cfg, f.children, on, false);
    LitCountBound(FreeOperands(ops), on);
    FixedBound(ops);
  }

  lemma {:induction false} LitCountBound(ls: seq<Lit>, on: FlagSet)
    ensures LitCount(ls, on) <= |ls|
  {
    if ls != [] {
      LitCountBound(ls[1..], on);
    }
  }

  lemma {:induction false} FixedBound(ops: seq<Operand>)
    ensures FixedCount(ops) + |FreeOperands(ops)| <= |ops|
  {
    if ops != [] {
      FixedBound(ops[1..]);
    }
  }

  /** Where no pin acts, every model survives with the fixed flags put back to what is configured. */
  lemma {:induction false} PinFreeKeeps(cfg: Config, f: Formula, guarded: bool, on: FlagSet)
    requires PinFree(cfg, f, guarded) && Holds(f, on, false)
    ensures Holds(Weaken(cfg, f, guarded), Pinned(cfg, on), false)
    decreases f
  {
    var pinned := Pinned(cfg, on);
    match f {
      case Flag(_, _) =>
      case UseConditional(flag, negated, cs) =>
        if Get(cfg, flag).Ceded? {
          if (flag in on) != negated {
            HoldAllForall(cs, on, false);
            EachKept(cfg, cs, true, on);
          }
        } else if Get(cfg, flag).Enabled? != negated {
          var ws := WeakenEach(cfg, cs, guarded);
          forall i | 0 <= i < |cs|
            ensures Holds(ws[i], pinned, false)
          {
            IdleHolds(cfg, cs[i], guarded, pinned);
          }
          HoldAllForall(ws, pinned, false);
        }
      case All(cs) =>
        HoldAllForall(cs, on, false);
        EachKept(cfg, cs, guarded, on);
      case _ =>
        if !Deferred(cfg, f, guarded) {
          GroupKept(cfg, f, guarded, on);
        }
    }
  }

  lemma {:induction false} EachKept(cfg: Config, cs: seq<Formula>, guarded: bool, on: FlagSet)
    requires forall i :: 0 <= i < |cs| ==> PinFree(cfg, cs[i], guarded) && Holds(cs[i], on, false)
    ensures HoldAll(WeakenEach(cfg, cs, guarded), Pinned(cfg, on), false)
    decreases cs
  {
    var ws := WeakenEach(cfg, cs, guarded);
    forall i | 0 <= i < |cs|
      ensures Holds(ws[i], Pinned(cfg, on), false)
    {
      PinFreeKeeps(cfg, cs[i], guarded, on);
    }
    HoldAllForall(ws, Pinned(cfg, on), false);
  }

  /** How the first member of a flat group contributes to the free ones. */
  lemma LitStep(cfg: Config, cs: seq<Formula>, on: FlagSet)
    requires Flat(cs) && cs != []
    ensures var free, rest := FreeOperands(FlagOperands(cfg, cs)), FreeOperands(FlagOperands(cfg, cs[1..]));
            && |free| == |rest| + (if Get(cfg, cs[0].name).Ceded? then 1 else 0)
            && LitCount(free, on)
               == LitCount(rest, on) + (if Get(cfg, cs[0].name).Ceded? && Holds(cs[0], on, false) then 1 else 0)
  {
    var ops := FlagOperands(cfg, cs);
    assert ops[1..] == FlagOperands(cfg, cs[1..]);
    var rest := FreeOperands(ops[1..]);
    if ops[0].Free? {
      assert FreeOperands(ops) == [ops[0].lit] + rest;
      assert FreeOperands(ops)[1..] == rest;
    } else {
      assert FreeOperands(ops) == rest;
    }
  }

  /** Pinning does not touch the free members, so the number of members that hold changes only in the fixed ones. */
  lemma {:induction false} FreeKept(cfg: Config, cs: seq<Formula>, on: FlagSet)
    requires Flat(cs)
    ensures LitCount(FreeOperands(FlagOperands(cfg, cs)), Pinned(cfg, on)) == LitCount(FreeOperands(FlagOperands(cfg, cs)), on)
    ensures LitCount(FreeOperands(FlagOperands(cfg, cs)), on) <= HoldCount(cs, on, false)
    ensures |FreeOperands(FlagOperands(cfg, cs))| == |cs| ==>
              LitCount(FreeOperands(FlagOperands(cfg, cs)), on) == HoldCount(cs, on, false)
    ensures MemberCount(cs, on) == |cs| && |FreeOperands(FlagOperands(cfg, cs))| <= |cs|
  {
    if cs != [] {
      FreeKept(cfg, cs[1..], on);
      LitStep(cfg, cs, on);
      LitStep(cfg, cs, Pinned(cfg, on));
      hide FlagOperands, FreeOperands, LitCount;
      assert IsMember(cs[0], on);
    }
  }

  lemma GroupKept(cfg: Config, f: Formula, guarded: bool, on: FlagSet)
    requires IsGroup(f) && Flat(f.children) && GroupUnpinned(cfg, f, guarded) && Holds(f, on, false)
    requires !Deferred(cfg, f, guarded)
    ensures Holds(f, Pinned(cfg, on), false)
  {
    var cs, pinned := f.children, Pinned(cfg, on);
    var ops := FlagOperands(cfg, cs);
    FreeKept(cfg, cs, on);
    FlatCount(cfg, cs, pinned, false);
    FixedBound(ops);
    if Settled(cfg, f) {
      SettledHolds(cfg, f, pinned);
    }
  }

  /** Where no pin acts, pins never end in a formula without solution: any model at all is enough. */
  lemma PinFreeSolvable(cfg: Config, f: Formula, reqs: seq<Req>, choices: seq<VirtualChoice>, on: FlagSet)
    requires Encodes(cfg, f, reqs, choices) && PinFree(cfg, f, false) && Holds(f, on, false)
    ensures Extensible(reqs, choices, Pinned(cfg, on)) && HasSolution(cfg, reqs, choices)
  {
    hide Extensible;
    PinFreeKeeps(cfg, f, false, on);
    PinnedAgrees(cfg, on);
  }

  // ---------- groups: exactly these places ----------

  /** The model `on` of the formula is still one of what is encoded once the fixed flags are put back. */
  predicate Survives(cfg: Config, f: Formula, guarded: bool, on: FlagSet) {
    Holds(f, on, false) ==> Holds(Weaken(cfg, f, guarded), Pinned(cfg, on), false)
  }

  predicate DistinctNames(cs: seq<Formula>)
    requires Flat(cs)
  {
    forall i, j :: 0 <= i < j < |cs| ==> cs[i].name != cs[j].name
  }

  /** The assignment under which member `i` alone holds; none if there is no such member. */
  function Alone(cs: seq<Formula>, i: nat): FlagSet
    requires Flat(cs)
  {
    set j | 0 <= j < |cs| && (j == i) != cs[j].negated :: cs[j].name
  }

  lemma AloneHolds(cs: seq<Formula>, i: nat)
    requires Flat(cs) && DistinctNames(cs)
    ensures forall j :: 0 <= j < |cs| ==> (Holds(cs[j], Alone(cs, i), false) <==> j == i)
  {
    forall j | 0 <= j < |cs|
      ensures cs[j].name in Alone(cs, i) <==> (j == i) != cs[j].negated
    {
    }
  }

  lemma {:induction false} CountAlone(cfg: Config, cs: seq<Formula>, on: FlagSet, i: int)
    requires Flat(cs) && forall j :: 0 <= j < |cs| ==> (Holds(cs[j], on, false) <==> j == i)
    ensures HoldCount(cs, on, false) == if 0 <= i < |cs| then 1 else 0
    ensures LitCount(FreeOperands(FlagOperands(cfg, cs)), on)
         == if 0 <= i < |cs| && FlagOperands(cfg, cs)[i].Free? then 1 else 0
  {
    if cs != [] {
      CountAlone(cfg, cs[1..], on, i - 1);
      LitStep(cfg, cs, on);
      assert Holds(cs[0], on, false) <==> 0 == i;
    }
  }

  lemma {:induction false} FindMember(ops: seq<Operand>, free: bool) returns (i: nat)
    requires if free then FreeOperands(ops) != [] else |FreeOperands(ops)| < |ops|
    ensures i < |ops| && ops[i].Free? == free
  {
    if ops[0].Free? == free {
      i := 0;
    } else {
      i := FindMember(ops[1..], free);
      i := i + 1;
    }
  }

  /** What is left of the group with member `i` alone, once the fixed members are put back. */
  lemma AlonePinned(cfg: Config, f: Formula, i: nat)
    requires IsGroup(f) && Flat(f.children) && DistinctNames(f.children)
    ensures var ops := FlagOperands(cfg, f.children);
            && HoldCount(f.children, Alone(f.children, i), false) == (if i < |ops| then 1 else 0)
            && HoldCount(f.children, Pinned(cfg, Alone(f.children, i)), false)
               == FixedCount(ops) + (if i < |ops| && ops[i].Free? then 1 else 0)
            && MemberCount(f.children, Alone(f.children, i)) == |ops|
            && MemberCount(f.children, Pinned(cfg, Alone(f.children, i))) == |ops|
  {
    var cs, on := f.children, Alone(f.children, i);
    AloneHolds(cs, i);
    CountAlone(cfg, cs, on, i);
    FreeKept(cfg, cs, on);
    FlatCount(cfg, cs, Pinned(cfg, on), false);
  }

  lemma PinnedGroupLoses(cfg: Config, f: Formula, guarded: bool) returns (on: FlagSet)
    requires IsGroup(f) && Flat(f.children) && DistinctNames(f.children) && !GroupUnpinned(cfg, f, guarded)
    ensures !Survives(cfg, f, guarded, on)
  {
    var ops := FlagOperands(cfg, f.children);
    FixedBound(ops);
    var i: nat;
    if FixedCount(ops) >= 2 {
      i := if f.AtMostOne? then |ops| else 0;
    } else {
      i := FindMember(ops, FixedCount(ops) == 1);
    }
    on := Alone(f.children, i);
    AlonePinned(cfg, f, i);
  }

  /** In a group of distinct flags, pins cost no model exactly if no fixed member bears on the free ones. */
  lemma GroupPinsExact(cfg: Config, f: Formula, guarded: bool)
    requires IsGroup(f) && (Flat(f.children) ==> DistinctNames(f.children))
    ensures (forall on :: Survives(cfg, f, guarded, on)) <==> PinFree(cfg, f, guarded)
  {
    if PinFree(cfg, f, guarded) {
      forall on
        ensures Survives(cfg, f, guarded, on)
      {
        if Holds(f, on, false) {
          PinFreeKeeps(cfg, f, guarded, on);
        }
      }
    } else {
      var on := PinnedGroupLoses(cfg, f, guarded);
      assert !Survives(cfg, f, guarded, on);
    }
  }

  // ---------- clauses that pins leave without solution ----------

  /** Asking for a guard whose body is pinned the wrong way forces the guard both on and off. */
  lemma PinnedUnderForcedGuard(reqs: seq<Req>, choices: seq<VirtualChoice>)
    requires Encodes(map["a" := Ceded(true)],
                     All([Formula.Flag("a", false), UseConditional("a", false, [Formula.Flag("b", false)])]), reqs, choices)
    ensures !HasSolution(map["a" := Ceded(true)], reqs, choices)
  {
    var cfg: Config := map["a" := Ceded(true)];
    var a, b := Formula.Flag("a", false), Formula.Flag("b", false);
    var c := UseConditional("a", false, [b]);
    SolutionExact(cfg, All([a, c]), reqs, choices);
    forall on | Agrees(cfg, on)
      ensures !Holds(Weaken(cfg, All([a, c]), false), on, false)
    {
      assert Get(cfg, "b").Disabled?;
      assert WeakenEach(cfg, [b], true) == [b];
      assert WeakenEach(cfg, [a, c], false) == [a, c];
      HoldAllForall([a, c], on, false);
      HoldAllForall([b], on, false);
      assert [b][0] == b;
      assert !(Holds([a, c][0], on, false) && Holds([a, c][1], on, false));
    }
  }

  /** No guard is needed: a satisfied fixed member of an exactly-one forces off what is asked for elsewhere. */
  lemma PinnedMemberForcesOff(reqs: seq<Req>, choices: seq<VirtualChoice>)
    requires Encodes(map["b" := Enabled, "c" := Ceded(true)],
                     All([ExactlyOne([Formula.Flag("b", false), Formula.Flag("c", false)]), Formula.Flag("c", false)]),
                     reqs, choices)
    ensures !HasSolution(map["b" := Enabled, "c" := Ceded(true)], reqs, choices)
  {
    var cfg: Config := map["b" := Enabled, "c" := Ceded(true)];
    var b, c := Formula.Flag("b", false), Formula.Flag("c", false);
    var g := ExactlyOne([b, c]);
    SolutionExact(cfg, All([g, c]), reqs, choices);
    forall on | Agrees(cfg, on)
      ensures !Holds(Weaken(cfg, All([g, c]), false), on, false)
    {
      assert Get(cfg, "b").Enabled? && Get(cfg, "c").Ceded?;
      BothMembers(b, c, on);
      var ws := WeakenEach(cfg, [g, c], false);
      OneFixed(cfg, b, c);
      assert ws == [g, c];
      HoldAllForall(ws, on, false);
      assert !(Holds(ws[0], on, false) && Holds(ws[1], on, false));
    }
  }

  lemma BothMembers(b: Formula, c: Formula, on: FlagSet)
    requires b.Flag? && c.Flag?
    ensures HoldCount([b, c], on, false) == (if Holds(b, on, false) then 1 else 0) + (if Holds(c, on, false) then 1 else 0)
  {
    assert [b, c][1..] == [c] && [c][1..] == [];
    assert HoldCount([c], on, false) == if Holds(c, on, false) then 1 else 0;
  }

  lemma OneFixed(cfg: Config, b: Formula, c: Formula)
    requires b.Flag? && c.Flag? && !Get(cfg, b.name).Ceded? && Get(cfg, c.name).Ceded?
    ensures FixedCount(FlagOperands(cfg, [b, c])) <= 1 && FreeOperands(FlagOperands(cfg, [b, c])) != []
  {
    var ops := FlagOperands(cfg, [b, c]);
    assert ops == [ops[0], ops[1]] && ops[1..] == [ops[1]] && ops[1..][1..] == [];
    assert FixedCount(ops[1..]) == 0 && FreeOperands(ops[1..]) == [ops[1].lit];
  }

  /** A hard pin under both values of a ceded guard leaves the package without any solution. */
  lemma PinnedUnderBothGuards(reqs: seq<Req>, choices: seq<VirtualChoice>, on: FlagSet)
    requires var b := Formula.Flag("b", false);
             Encodes(map["a" := Ceded(true)], All([UseConditional("a", false, [b]), UseConditional("a", true, [b])]), reqs, choices)
    requires Agrees(map["a" := Ceded(true)], on)
    ensures !Extensible(reqs, choices, on)
  {
    var cfg: Config := map["a" := Ceded(true)];
    var b := Formula.Flag("b", false);
    var c0, c1 := UseConditional("a", false, [b]), UseConditional("a", true, [b]);
    assert Get(cfg, "b").Disabled?;
    assert WeakenEach(cfg, [b], true) == [b];
    assert Weaken(cfg, c0, false) == c0 && Weaken(cfg, c1, false) == c1;
    assert WeakenEach(cfg, [c0, c1], false) == [c0, c1];
    HoldAllForall([c0, c1], on, false);
    HoldAllForall([b], on, false);
    assert [b][0] == b;
    assert !(Holds([c0, c1][0], on, false) && Holds([c0, c1][1], on, false));
  }

  /** Every flag of the list is fixed to the value the list asks for. */
  predicate AllMet(cfg: Config, cs: seq<Formula>)
    requires Flat(cs)
  {
    forall i :: 0 <= i < |cs| ==> OperandOf(cfg, cs[i].name, cs[i].negated) == Fixed(true)
  }

  predicate AllFixed(cfg: Config, cs: seq<Formula>) {
    Flat(cs) && forall i :: 0 <= i < |cs| ==> !Get(cfg, cs[i].name).Ceded?
  }

  lemma GuardedPins(cfg: Config, guard: Solving.Flag, negated: bool, cs: seq<Formula>, on: FlagSet)
    requires Get(cfg, guard).Ceded? && AllFixed(cfg, cs) && Agrees(cfg, on)
    ensures Holds(Weaken(cfg, UseConditional(guard, negated, cs), false), on, false) <==>
              (guard in on) == negated || AllMet(cfg, cs)
  {
    assert WeakenEach(cfg, cs, true) == cs;
    HoldAllForall(cs, on, false);
    forall i | 0 <= i < |cs|
      ensures Holds(cs[i], on, false) <==> OperandOf(cfg, cs[i].name, cs[i].negated) == Fixed(true)
    {
      var f := cs[i].name;
      assert (Get(cfg, f).Enabled? ==> f in on) && (Get(cfg, f).Disabled? ==> f !in on);
    }
  }

  /** Pins on fixed flags under both values of a guard leave a solution exactly when one side is met already. */
  lemma PinnedExact(cfg: Config, guard: Solving.Flag, ps: seq<Formula>, qs: seq<Formula>, reqs: seq<Req>,
                    choices: seq<VirtualChoice>)
    requires Get(cfg, guard).Ceded? && AllFixed(cfg, ps) && AllFixed(cfg, qs)
    requires Encodes(cfg, All([UseConditional(guard, false, ps), UseConditional(guard, true, qs)]), reqs, choices)
    ensures HasSolution(cfg, reqs, choices) <==> AllMet(cfg, ps) || AllMet(cfg, qs)
  {
    hide Extensible, AllMet;
    var c0, c1 := UseConditional(guard, false, ps), UseConditional(guard, true, qs);
    forall on | Agrees(cfg, on)
      ensures Extensible(reqs, choices, on) <==> if guard in on then AllMet(cfg, ps) else AllMet(cfg, qs)
    {
      GuardedPins(cfg, guard, false, ps, on);
      GuardedPins(cfg, guard, true, qs, on);
      var ws := WeakenEach(cfg, [c0, c1], false);
      assert ws == [Weaken(cfg, c0, false), Weaken(cfg, c1, false)];
      HoldAllForall(ws, on, false);
      assert Holds(ws[0], on, false) && Holds(ws[1], on, false) <==> HoldAll(ws, on, false);
    }
    var enabled := set f | f in cfg && cfg[f].Enabled?;
    assert Agrees(cfg, enabled) && Agrees(cfg, enabled + {guard}) && guard !in enabled;
  }

  // ---------- the retry with nothing ceded ----------

  ghost predicate NothingCeded(cfg: Config) {
    forall g :: !Get(cfg, g).Ceded?
  }

  /** With nothing ceded the clauses always have a solution: the flags as configured. */
  lemma FixedSolvable(cfg: Config, f: Formula, reqs: seq<Req>, choices: seq<VirtualChoice>)
    requires NothingCeded(cfg) && Encodes(cfg, f, reqs, choices)
    ensures HasSolution(cfg, reqs, choices) && forall on :: Agrees(cfg, on) ==> Extensible(reqs, choices, on)
  {
    hide Extensible;
    PinnedAgrees(cfg, {});
    forall on | Agrees(cfg, on)
      ensures Extensible(reqs, choices, on)
    {
      FixedIsInert(cfg, f, on);
    }
  }

  /** `cfg` leaves some flags of `base` to the solver and all others as they are. */
  ghost predicate Cedes(base: Config, cfg: Config) {
    NothingCeded(base) && forall g :: Get(cfg, g).Ceded? || Get(cfg, g) == Get(base, g)
  }

  type Solver = (Config, seq<Req>, seq<VirtualChoice>) -> Option<FlagSet>

  /** The solver finds an assignment that extends to a solution whenever there is one. */
  ghost predicate Complete(solve: Solver) {
    forall cfg, reqs, choices ::
      match solve(cfg, reqs, choices)
      case Some(on) => Agrees(cfg, on) && Extensible(reqs, choices, on)
      case None => !HasSolution(cfg, reqs, choices)
  }

  /** Solve with flags ceded and, if that fails, once more with all flags as configured: there always is an outcome. */
  method SolveUse(base: Config, cfg: Config, f: Formula, firstId: nat, solve: Solver) returns (r: Option<FlagSet>, retried: bool)
    requires Cedes(base, cfg) && Complete(solve)
    ensures r.Some? && (retried <==> !HasModel(cfg, f))
    ensures retried ==> Agrees(base, r.value)
    ensures !retried ==> Agrees(cfg, r.value) && Holds(Weaken(cfg, f, false), r.value, false)
  {
    hide Extensible, HasModel, HasSolution, FlagsOnly, KeepsPreferences;
    var reqs, choices, next := EncodeRequiredUse(cfg, f, firstId);
    SolutionExact(cfg, f, reqs, choices);
    r, retried := solve(cfg, reqs, choices), false;
    if r.Some? {
      Witnesses(cfg, reqs, choices, r.value);
      return;
    }
    reqs, choices, next := EncodeRequiredUse(base, f, firstId);
    FixedSolvable(base, f, reqs, choices);
    r, retried := solve(base, reqs, choices), true;
  }

  lemma Witnesses(cfg: Config, reqs: seq<Req>, choices: seq<VirtualChoice>, on: FlagSet)
    requires Agrees(cfg, on) && Extensible(reqs, choices, on)
    ensures HasSolution(cfg, reqs, choices)
  {
  }
}
