/** `REQUIRED_USE` formulas, their truth, and the operands the encoder makes of bare flags. */
module RequiredUse {
  import opened Solving

  datatype Formula =
    | Flag(name: Solving.Flag, negated: bool)
    | AnyOf(children: seq<Formula>)
    | ExactlyOne(children: seq<Formula>)
    | AtMostOne(children: seq<Formula>)
    | UseConditional(flag: Solving.Flag, negated: bool, entries: seq<Formula>)
    | All(children: seq<Formula>)

  // ---------- truth ----------

  /** A conditional inside a group is a member of it only while its guard is active. */
  predicate IsMember(c: Formula, on: set<Solving.Flag>) {
    c.UseConditional? ==> (c.flag in on) != c.negated
  }

  /** Truth when exactly the flags of `on` are enabled; `emptyMatches` settles an any-of without members. */
  predicate Holds(f: Formula, on: set<Solving.Flag>, emptyMatches: bool)
    decreases f
  {
    match f
    case Flag(name, negated) => (name in on) != negated
    case AnyOf(cs) => if MemberCount(cs, on) == 0 then emptyMatches else HoldCount(cs, on, emptyMatches) >= 1
    case ExactlyOne(cs) => HoldCount(cs, on, emptyMatches) == 1
    case AtMostOne(cs) => HoldCount(cs, on, emptyMatches) <= 1
    case UseConditional(flag, negated, cs) => (flag in on) != negated ==> HoldAll(cs, on, emptyMatches)
    case All(cs) => HoldAll(cs, on, emptyMatches)
  }

  predicate HoldAll(cs: seq<Formula>, on: set<Solving.Flag>, emptyMatches: bool)
    decreases cs
  {
    cs == [] || (Holds(cs[0], on, emptyMatches) && HoldAll(cs[1..], on, emptyMatches))
  }

  function MemberCount(cs: seq<Formula>, on: set<Solving.Flag>): nat {
    if cs == [] then 0 else (if IsMember(cs[0], on) then 1 else 0) + MemberCount(cs[1..], on)
  }

  /** How many members of a group hold. */
  function HoldCount(cs: seq<Formula>, on: set<Solving.Flag>, emptyMatches: bool): nat
    decreases cs
  {
    if cs == [] then 0
    else (if IsMember(cs[0], on) && Holds(cs[0], on, emptyMatches) then 1 else 0) + HoldCount(cs[1..], on, emptyMatches)
  }

  // ---------- policy ----------

  datatype State = Enabled | Disabled | Ceded(prefer: bool)

  /** The desired configuration; a flag it does not mention is disabled. */
  type Config = map<Solving.Flag, State>

  function Get(cfg: Config, f: Solving.Flag): State {
    if f in cfg then cfg[f] else Disabled
  }

  /** `on` leaves the fixed flags as they are. */
  ghost predicate Agrees(cfg: Config, on: set<Solving.Flag>) {
    forall f :: (Get(cfg, f).Enabled? ==> f in on) && (Get(cfg, f).Disabled? ==> f !in on)
  }

  // ---------- operands ----------

  const OFF: nat := 0
  const ON: nat := 1

  function Bit(b: bool): nat {
    if b then ON else OFF
  }

  /** A ceded literal: the flag's node, the version at which the literal holds, and the preferred version. */
  datatype Lit = Lit(flag: Solving.Flag, ver: nat, prefer: nat)

  datatype Operand = Fixed(satisfied: bool) | Free(lit: Lit)

  predicate LitHolds(l: Lit, on: set<Solving.Flag>) {
    Bit(l.flag in on) == l.ver
  }

  /** A literal over a ceded flag with that flag's own preference. */
  predicate LitOK(cfg: Config, l: Lit) {
    Get(cfg, l.flag).Ceded? && l.prefer == Bit(Get(cfg, l.flag).prefer) && l.ver <= ON
  }

  predicate LitsOK(cfg: Config, ls: seq<Lit>) {
    forall i :: 0 <= i < |ls| ==> LitOK(cfg, ls[i])
  }

  function Negate(l: Lit): (r: Lit)
    requires l.ver <= ON
    ensures forall on :: LitHolds(r, on) <==> !LitHolds(l, on)
  {
    Lit(l.flag, ON + OFF - l.ver, l.prefer)
  }

  function OperandOf(cfg: Config, name: Solving.Flag, negated: bool): Operand {
    match Get(cfg, name)
    case Ceded(prefer) => Free(Lit(name, if negated then OFF else ON, Bit(prefer)))
    case state => Fixed(state.Enabled? != negated)
  }

  predicate Flat(cs: seq<Formula>) {
    forall i :: 0 <= i < |cs| ==> cs[i].Flag?
  }

  /** The operands of a group of bare flags. */
  function FlagOperands(cfg: Config, cs: seq<Formula>): (ops: seq<Operand>)
    requires Flat(cs)
    ensures |ops| == |cs|
  {
    seq(|cs|, i requires 0 <= i < |cs| => OperandOf(cfg, cs[i].name, cs[i].negated))
  }

  function FreeOperands(ops: seq<Operand>): seq<Lit> {
    if ops == [] then []
    else (if ops[0].Free? then [ops[0].lit] else []) + FreeOperands(ops[1..])
  }

  function FixedCount(ops: seq<Operand>): nat {
    if ops == [] then 0
    else (if ops[0].Fixed? && ops[0].satisfied then 1 else 0) + FixedCount(ops[1..])
  }

  function LitCount(ls: seq<Lit>, on: set<Solving.Flag>): nat {
    if ls == [] then 0 else (if LitHolds(ls[0], on) then 1 else 0) + LitCount(ls[1..], on)
  }

  /** Some literal holds. */
  ghost predicate ClauseHolds(ls: seq<Lit>, on: set<Solving.Flag>) {
    exists i :: 0 <= i < |ls| && LitHolds(ls[i], on)
  }

  ghost predicate PairwiseExclusive(ls: seq<Lit>, on: set<Solving.Flag>) {
    forall i, j :: 0 <= i < j < |ls| ==> !(LitHolds(ls[i], on) && LitHolds(ls[j], on))
  }

  lemma FreeOperandsOK(cfg: Config, cs: seq<Formula>)
    requires Flat(cs)
    ensures LitsOK(cfg, FreeOperands(FlagOperands(cfg, cs)))
  {
    if cs != [] {
      FreeOperandsOK(cfg, cs[1..]);
      assert FlagOperands(cfg, cs)[1..] == FlagOperands(cfg, cs[1..]);
    }
  }

  /** The members of a flat group that hold are the satisfied fixed flags and the literals that hold. */
  lemma {:induction false} FlatCount(cfg: Config, cs: seq<Formula>, on: set<Solving.Flag>, e: bool)
    requires Flat(cs) && Agrees(cfg, on)
    ensures var ops := FlagOperands(cfg, cs);
            HoldCount(cs, on, e) == FixedCount(ops) + LitCount(FreeOperands(ops), on) && MemberCount(cs, on) == |cs|
  {
    if cs != [] {
      FlatCount(cfg, cs[1..], on, e);
      var ops := FlagOperands(cfg, cs);
      assert ops[1..] == FlagOperands(cfg, cs[1..]);
      assert IsMember(cs[0], on);
      var rest := FreeOperands(ops[1..]);
      if ops[0].Free? {
        assert FreeOperands(ops) == [ops[0].lit] + rest;
        assert FreeOperands(ops)[1..] == rest;
      } else {
        assert FreeOperands(ops) == rest;
      }
    }
  }

  /** Counting literals, clauses and exclusion say the same thing. */
  lemma {:induction false} CountMeaning(ls: seq<Lit>, on: set<Solving.Flag>)
    ensures LitCount(ls, on) >= 1 <==> ClauseHolds(ls, on)
    ensures LitCount(ls, on) <= 1 <==> PairwiseExclusive(ls, on)
    ensures LitCount(ls, on) == 0 <==> forall i :: 0 <= i < |ls| ==> !LitHolds(ls[i], on)
  {
    if ls != [] {
      var t := ls[1..];
      CountMeaning(t, on);
      assert forall i :: 1 <= i < |ls| ==> ls[i] == t[i-1];
      if ClauseHolds(t, on) {
        var i :| 0 <= i < |t| && LitHolds(t[i], on);
        assert LitHolds(ls[i+1], on);
      }
      if PairwiseExclusive(ls, on) {
        forall i, j | 0 <= i < j < |t|
          ensures !(LitHolds(t[i], on) && LitHolds(t[j], on))
        {
          assert t[i] == ls[i+1] && t[j] == ls[j+1];
        }
        if LitHolds(ls[0], on) {
          forall i | 0 <= i < |t|
            ensures !LitHolds(t[i], on)
          {
            assert t[i] == ls[i+1];
          }
        }
      }
    }
  }

  lemma {:induction false} HoldAllForall(cs: seq<Formula>, on: set<Solving.Flag>, e: bool)
    ensures HoldAll(cs, on, e) <==> forall i :: 0 <= i < |cs| ==> Holds(cs[i], on, e)
  {
    if cs != [] {
      HoldAllForall(cs[1..], on, e);
      assert forall i :: 1 <= i < |cs| ==> cs[i] == cs[1..][i-1];
      if forall i :: 0 <= i < |cs| ==> Holds(cs[i], on, e) {
        forall i | 0 <= i < |cs[1..]|
          ensures Holds(cs[1..][i], on, e)
        {
          assert cs[1..][i] == cs[i+1];
        }
      }
    }
  }

  // ---------- the part of a formula that can be encoded ----------

  const TRUE: Formula := All([])

  /** A group that the fixed flags alone already make false. */
  predicate FixedFalse(cfg: Config, f: Formula)
    requires (f.AnyOf? || f.ExactlyOne? || f.AtMostOne?) && Flat(f.children)
  {
    var ops := FlagOperands(cfg, f.children);
    || (!f.AtMostOne? && FixedCount(ops) == 0 && FreeOperands(ops) == [])
    || (!f.AnyOf? && FixedCount(ops) >= 2)
  }

  /**
   * The formula without what is left to the post-solve check: groups with operands that are not
   * bare flags, and, outside any ceded guard, what is false whatever the ceded flags are.
   */
  function Weaken(cfg: Config, f: Formula, guarded: bool): Formula
    decreases f
  {
    match f
    case Flag(name, negated) =>
      if !guarded && OperandOf(cfg, name, negated) == Fixed(false) then TRUE else f
    case UseConditional(flag, negated, cs) =>
      (match Get(cfg, flag)
       case Ceded(_) => UseConditional(flag, negated, WeakenEach(cfg, cs, true))
       case state => if state.Enabled? != negated then All(WeakenEach(cfg, cs, guarded)) else TRUE)
    case All(cs) => All(WeakenEach(cfg, cs, guarded))
    case _ => if !Flat(f.children) || (!guarded && FixedFalse(cfg, f)) then TRUE else f
  }

  function WeakenEach(cfg: Config, cs: seq<Formula>, guarded: bool): seq<Formula>
    decreases cs
  {
    seq(|cs|, i requires 0 <= i < |cs| => Weaken(cfg, cs[i], guarded))
  }

  /** Nothing is left to the post-solve check. */
  predicate Encodable(cfg: Config, f: Formula, guarded: bool)
    decreases f
  {
    match f
    case Flag(name, negated) => guarded || OperandOf(cfg, name, negated) != Fixed(false)
    case UseConditional(flag, negated, cs) =>
      (match Get(cfg, flag)
       case Ceded(_) => forall i :: 0 <= i < |cs| ==> Encodable(cfg, cs[i], true)
       case state => state.Enabled? != negated ==> forall i :: 0 <= i < |cs| ==> Encodable(cfg, cs[i], guarded))
    case All(cs) => forall i :: 0 <= i < |cs| ==> Encodable(cfg, cs[i], guarded)
    case _ => Flat(f.children) && (guarded || !FixedFalse(cfg, f))
  }

  /** Weakening never makes a true formula false. */
  lemma {:induction false} WeakenSound(cfg: Config, f: Formula, guarded: bool, on: set<Solving.Flag>)
    requires Agrees(cfg, on) && Holds(f, on, false)
    ensures Holds(Weaken(cfg, f, guarded), on, false)
    decreases f
  {
    if f.UseConditional? || f.All? {
      var cs := if f.All? then f.children else f.entries;
      if f.All? || (f.flag in on) != f.negated {
        HoldAllForall(cs, on, false);
        var inner := if f.UseConditional? && Get(cfg, f.flag).Ceded? then true else guarded;
        var ws := WeakenEach(cfg, cs, inner);
        forall i | 0 <= i < |cs|
          ensures Holds(ws[i], on, false)
        {
          WeakenSound(cfg, cs[i], inner, on);
        }
        HoldAllForall(ws, on, false);
      }
    }
  }

  /** An encodable formula is weakened to one with the same truth. */
  lemma {:induction false} WeakenExact(cfg: Config, f: Formula, guarded: bool, on: set<Solving.Flag>)
    requires Agrees(cfg, on) && Encodable(cfg, f, guarded)
    ensures Holds(Weaken(cfg, f, guarded), on, false) <==> Holds(f, on, false)
    decreases f
  {
    if f.UseConditional? || f.All? {
      var cs := if f.All? then f.children else f.entries;
      if f.All? || (f.flag in on) != f.negated {
        var inner := if f.UseConditional? && Get(cfg, f.flag).Ceded? then true else guarded;
        var ws := WeakenEach(cfg, cs, inner);
        forall i | 0 <= i < |cs|
          ensures Holds(ws[i], on, false) <==> Holds(cs[i], on, false)
        {
          WeakenExact(cfg, cs[i], inner, on);
        }
        HoldAllForall(ws, on, false);
        HoldAllForall(cs, on, false);
      }
    }
  }
}
