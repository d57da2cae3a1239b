/** The encoder of `REQUIRED_USE` into decision nodes, implications and choices. */
module UseEncoder {
  import opened Solving
  import opened RequiredUse
  import opened Sorting
  import opened Composing
  import opened Registry

  type FlagSet = set<Solving.Flag>

  // ---------- what a partly built encoding means ----------

  /** The encoder's fields as one value. */
  datatype Store = Store(
    nodeOn: map<Solving.Flag, seq<Req>>, nodeOff: map<Solving.Flag, seq<Req>>, touched: FlagSet,
    reqs: seq<Req>, choices: seq<VirtualChoice>, firstId: nat, nextId: nat)

  function Singleton(flag: Solving.Flag, v: nat): Req {
    Req(Decision(flag), Only(v))
  }

  predicate DepHolds(r: Req, on: FlagSet) {
    r.pkg.Decision? && Admits(r.vers, Bit(r.pkg.flag in on))
  }

  ghost predicate BranchHolds(b: Branch, on: FlagSet) {
    forall r :: r in b.deps ==> DepHolds(r, on)
  }

  ghost predicate SomeBranch(c: VirtualChoice, on: FlagSet) {
    exists i :: 0 <= i < |c.versions| && BranchHolds(c.versions[i], on)
  }

  /** A requirement of the encoding can be met while the flags of `on` are enabled. */
  ghost predicate ReqHolds(choices: seq<VirtualChoice>, r: Req, on: FlagSet) {
    match r.pkg
    case Decision(_) => DepHolds(r, on)
    case Choice(_) => exists c :: c in choices && c.pkg == r.pkg && SomeBranch(c, on)
    case _ => false
  }

  ghost predicate BucketHolds(choices: seq<VirtualChoice>, bucket: map<Solving.Flag, seq<Req>>, f: Solving.Flag, on: FlagSet) {
    f in bucket ==> forall r :: r in bucket[f] ==> ReqHolds(choices, r, on)
  }

  ghost predicate Meaning(st: Store, on: FlagSet) {
    && (forall r :: r in st.reqs ==> ReqHolds(st.choices, r, on))
    && (forall f :: f in on ==> BucketHolds(st.choices, st.nodeOn, f, on))
    && (forall f :: f !in on ==> BucketHolds(st.choices, st.nodeOff, f, on))
  }

  // ---------- what every builder state satisfies ----------

  /** The branches of a choice over literals, highest version first. */
  function Branches(lits: seq<Lit>): seq<Branch> {
    seq(|lits|, i requires 0 <= i < |lits| => Branch(|lits| - i, [Singleton(lits[i].flag, lits[i].ver)]))
  }

  /** If the preferred values satisfy any literal, they satisfy the first. */
  ghost predicate PreferredFirst(lits: seq<Lit>) {
    forall i :: 0 <= i < |lits| && lits[i].ver == lits[i].prefer ==> lits[0].ver == lits[0].prefer
  }

  ghost predicate OverLits(cfg: Config, touched: FlagSet, c: VirtualChoice, lits: seq<Lit>) {
    && lits != [] && LitsOK(cfg, lits) && PreferredFirst(lits) && c.versions == Branches(lits) && c.blockers == []
    && forall i :: 0 <= i < |lits| ==> lits[i].flag in touched
  }

  ghost predicate ChoiceOK(cfg: Config, st: Store, c: VirtualChoice) {
    c.pkg.Choice? && st.firstId <= c.pkg.id < st.nextId && exists lits :: OverLits(cfg, st.touched, c, lits)
  }

  ghost predicate ReqOK(st: Store, r: Req) {
    match r.pkg
    case Decision(f) => f in st.touched
    case Choice(_) => r.vers.Any? && exists c :: c in st.choices && c.pkg == r.pkg
    case _ => false
  }

  ghost predicate BucketOK(st: Store, bucket: map<Solving.Flag, seq<Req>>) {
    forall f :: f in bucket ==> f in st.touched && forall r :: r in bucket[f] ==> ReqOK(st, r)
  }

  ghost predicate StoreOK(cfg: Config, st: Store) {
    && st.firstId <= st.nextId
    && (forall f :: f in st.touched ==> Get(cfg, f).Ceded?)
    && (forall r :: r in st.reqs ==> ReqOK(st, r))
    && BucketOK(st, st.nodeOn) && BucketOK(st, st.nodeOff)
    && (forall c :: c in st.choices ==> ChoiceOK(cfg, st, c))
    && (forall i, j :: 0 <= i < j < |st.choices| ==> st.choices[i].pkg != st.choices[j].pkg)
  }

  // ---------- the effect of one step ----------

  function Touch(st: Store, f: Solving.Flag): Store {
    st.(touched := st.touched + {f})
  }

  lemma TouchOK(cfg: Config, st: Store, f: Solving.Flag)
    requires StoreOK(cfg, st) && Get(cfg, f).Ceded?
    ensures StoreOK(cfg, Touch(st, f))
    ensures forall on :: Meaning(Touch(st, f), on) <==> Meaning(st, on)
  {
    var st' := Touch(st, f);
    forall c | c in st'.choices
      ensures ChoiceOK(cfg, st', c)
    {
      assert ChoiceOK(cfg, st, c);
      var lits: seq<Lit> :| OverLits(cfg, st.touched, c, lits);
      assert OverLits(cfg, st'.touched, c, lits);
    }
  }

  function AddReq(st: Store, r: Req): Store {
    st.(reqs := st.reqs + [r])
  }

  lemma AddReqOK(cfg: Config, st: Store, r: Req)
    requires StoreOK(cfg, st) && ReqOK(st, r)
    ensures StoreOK(cfg, AddReq(st, r))
    ensures forall on :: Meaning(AddReq(st, r), on) <==> Meaning(st, on) && ReqHolds(st.choices, r, on)
  {
    hide SomeBranch, OverLits;
    assert forall c :: ChoiceOK(cfg, st, c) ==> ChoiceOK(cfg, AddReq(st, r), c);
    forall on
      ensures Meaning(AddReq(st, r), on) <==> Meaning(st, on) && ReqHolds(st.choices, r, on)
    {
      assert r in AddReq(st, r).reqs;
    }
  }

  function Bucket(bucket: map<Solving.Flag, seq<Req>>, f: Solving.Flag): seq<Req> {
    if f in bucket then bucket[f] else []
  }

  /** Attach a requirement to a version of a node. */
  function AddDep(st: Store, f: Solving.Flag, v: nat, r: Req): Store {
    if v == ON then st.(nodeOn := st.nodeOn[f := Bucket(st.nodeOn, f) + [r]])
    else st.(nodeOff := st.nodeOff[f := Bucket(st.nodeOff, f) + [r]])
  }

  lemma BucketAdd(choices: seq<VirtualChoice>, bucket: map<Solving.Flag, seq<Req>>, f: Solving.Flag, r: Req,
                  g: Solving.Flag, on: FlagSet)
    ensures BucketHolds(choices, bucket[f := Bucket(bucket, f) + [r]], g, on) <==>
              BucketHolds(choices, bucket, g, on) && (g == f ==> ReqHolds(choices, r, on))
  {
  }

  lemma AddDepMeaning(st: Store, f: Solving.Flag, v: nat, r: Req, on: FlagSet)
    requires v <= ON
    ensures Meaning(AddDep(st, f, v, r), on) <==> Meaning(st, on) && (Bit(f in on) == v ==> ReqHolds(st.choices, r, on))
  {
    hide ReqHolds, BucketHolds;
    forall g
      ensures v == ON ==> (BucketHolds(st.choices, AddDep(st, f, v, r).nodeOn, g, on) <==>
                             BucketHolds(st.choices, st.nodeOn, g, on) && (g == f ==> ReqHolds(st.choices, r, on)))
      ensures v == OFF ==> (BucketHolds(st.choices, AddDep(st, f, v, r).nodeOff, g, on) <==>
                              BucketHolds(st.choices, st.nodeOff, g, on) && (g == f ==> ReqHolds(st.choices, r, on)))
    {
      BucketAdd(st.choices, if v == ON then st.nodeOn else st.nodeOff, f, r, g, on);
    }
  }

  lemma AddDepOK(cfg: Config, st: Store, f: Solving.Flag, v: nat, r: Req)
    requires StoreOK(cfg, st) && ReqOK(st, r) && f in st.touched && v <= ON
    ensures StoreOK(cfg, AddDep(st, f, v, r))
    ensures forall on :: Meaning(AddDep(st, f, v, r), on) <==>
              Meaning(st, on) && (Bit(f in on) == v ==> ReqHolds(st.choices, r, on))
  {
    hide SomeBranch, OverLits, ReqHolds, Meaning;
    var st' := AddDep(st, f, v, r);
    assert forall c :: ChoiceOK(cfg, st, c) ==> ChoiceOK(cfg, st', c);
    forall on
      ensures Meaning(st', on) <==> Meaning(st, on) && (Bit(f in on) == v ==> ReqHolds(st.choices, r, on))
    {
      AddDepMeaning(st, f, v, r, on);
    }
  }

  function AddChoice(st: Store, lits: seq<Lit>): Store {
    st.(choices := st.choices + [VirtualChoice(Choice(st.nextId), Branches(lits))], nextId := st.nextId + 1)
  }

  lemma BranchesHold(c: VirtualChoice, lits: seq<Lit>, on: FlagSet)
    requires c.versions == Branches(lits)
    ensures SomeBranch(c, on) <==> ClauseHolds(lits, on)
  {
    forall i | 0 <= i < |lits|
      ensures BranchHolds(c.versions[i], on) <==> LitHolds(lits[i], on)
    {
      assert Singleton(lits[i].flag, lits[i].ver) in c.versions[i].deps;
    }
  }

  lemma AddChoiceFrame(cfg: Config, st: Store, lits: seq<Lit>, r: Req, on: FlagSet)
    requires StoreOK(cfg, st) && ReqOK(st, r)
    ensures ReqHolds(AddChoice(st, lits).choices, r, on) <==> ReqHolds(st.choices, r, on)
    ensures ReqOK(AddChoice(st, lits), r)
  {
  }

  lemma AddChoiceOK(cfg: Config, st: Store, lits: seq<Lit>)
    requires StoreOK(cfg, st) && lits != [] && LitsOK(cfg, lits) && PreferredFirst(lits)
    requires forall i :: 0 <= i < |lits| ==> lits[i].flag in st.touched
    ensures var st' := AddChoice(st, lits); var r := Req(Choice(st.nextId), Any);
            StoreOK(cfg, st') && ReqOK(st', r)
            && (forall on :: Meaning(st', on) <==> Meaning(st, on))
            && (forall on :: ReqHolds(st'.choices, r, on) <==> ClauseHolds(lits, on))
  {
    var st' := AddChoice(st, lits);
    var c := VirtualChoice(Choice(st.nextId), Branches(lits));
    var r := Req(Choice(st.nextId), Any);
    assert c in st'.choices && OverLits(cfg, st'.touched, c, lits);
    forall d | d in st'.choices
      ensures ChoiceOK(cfg, st', d) && (d in st.choices ==> d.pkg != c.pkg)
      ensures d.pkg == c.pkg ==> d == c
    {
      if d in st.choices {
        assert ChoiceOK(cfg, st, d);
        var ls: seq<Lit> :| OverLits(cfg, st.touched, d, ls);
        assert OverLits(cfg, st'.touched, d, ls);
      }
    }
    forall on
      ensures ReqHolds(st'.choices, r, on) <==> ClauseHolds(lits, on)
    {
      BranchesHold(c, lits, on);
    }
    forall q, on | ReqOK(st, q)
      ensures ReqHolds(st'.choices, q, on) <==> ReqHolds(st.choices, q, on)
      ensures ReqOK(st', q)
    {
      AddChoiceFrame(cfg, st, lits, q, on);
    }
    AddChoiceMeaning(cfg, st, lits);
  }

  lemma AddChoiceMeaning(cfg: Config, st: Store, lits: seq<Lit>)
    requires StoreOK(cfg, st)
    requires forall q, on | ReqOK(st, q) :: ReqHolds(AddChoice(st, lits).choices, q, on) <==> ReqHolds(st.choices, q, on)
    ensures forall on :: Meaning(AddChoice(st, lits), on) <==> Meaning(st, on)
  {
  }

  // ---------- preference order ----------

  /** Literals that the preferred values satisfy come before the others. */
  predicate NoLater(a: Lit, b: Lit) {
    a.ver == a.prefer || b.ver != b.prefer
  }

  function OrderByPreference(lits: seq<Lit>): seq<Lit> {
    SortBy(lits, NoLater)
  }

  lemma OrderOK(cfg: Config, lits: seq<Lit>)
    requires LitsOK(cfg, lits)
    ensures var r := OrderByPreference(lits);
            LitsOK(cfg, r) && PreferredFirst(r) && (lits != [] ==> r != [])
            && (forall l :: l in r <==> l in lits)
            && (forall on :: ClauseHolds(r, on) <==> ClauseHolds(lits, on))
  {
    var r := OrderByPreference(lits);
    SortBySorted(lits, NoLater);
    assert forall i :: 0 <= i < |r| ==> r[i] in lits;
    forall on
      ensures ClauseHolds(r, on) <==> ClauseHolds(lits, on)
    {
      SameClause(r, lits, on);
    }
    if lits != [] {
      assert lits[0] in r;
    }
  }

  /** Of two literals the first stays first, unless only the other is satisfied by its preference. */
  lemma PreferenceStable(lits: seq<Lit>, i: nat, j: nat)
    requires i < j < |lits|
    ensures if lits[i].ver != lits[i].prefer && lits[j].ver == lits[j].prefer
            then Before(OrderByPreference(lits), lits[j], lits[i])
            else Before(OrderByPreference(lits), lits[i], lits[j])
  {
    SortStable(lits, NoLater, i, j);
  }

  lemma SameClause(a: seq<Lit>, b: seq<Lit>, on: FlagSet)
    requires forall l :: l in a <==> l in b
    ensures ClauseHolds(a, on) <==> ClauseHolds(b, on)
  {
    if ClauseHolds(a, on) {
      var i :| 0 <= i < |a| && LitHolds(a[i], on);
      assert a[i] in b;
    }
    if ClauseHolds(b, on) {
      var i :| 0 <= i < |b| && LitHolds(b[i], on);
      assert b[i] in a;
    }
  }

  lemma ClauseConcat(a: seq<Lit>, b: seq<Lit>, on: FlagSet)
    ensures ClauseHolds(a + b, on) <==> ClauseHolds(a, on) || ClauseHolds(b, on)
  {
    var c := a + b;
    if ClauseHolds(a, on) {
      var i :| 0 <= i < |a| && LitHolds(a[i], on);
      assert c[i] == a[i];
    }
    if ClauseHolds(b, on) {
      var i :| 0 <= i < |b| && LitHolds(b[i], on);
      assert c[|a| + i] == b[i];
    }
  }

  // ---------- the builder ----------

  class Builder {
    const cfg: Config
    var nodeOn: map<Solving.Flag, seq<Req>>
    var nodeOff: map<Solving.Flag, seq<Req>>
    var touched: FlagSet
    var requirements: seq<Req>
    var virtualChoices: seq<VirtualChoice>
    const firstId: nat
    var nextId: nat

    ghost function View(): Store
      reads this
    {
      Store(nodeOn, nodeOff, touched, requirements, virtualChoices, firstId, nextId)
    }

    ghost predicate Valid()
      reads this
    {
      StoreOK(cfg, View())
    }

    constructor (cfg: Config, firstId: nat)
      ensures Valid() && this.cfg == cfg && this.firstId == firstId && forall on :: Meaning(View(), on)
    {
      this.cfg, this.firstId := cfg, firstId;
      nodeOn, nodeOff, touched, requirements, virtualChoices, nextId := map[], map[], {}, [], [], firstId;
    }

    /** Pin a ceded flag. */
    method Force(l: Lit)
      requires Valid() && LitOK(cfg, l)
      modifies this
      ensures Valid()
      ensures forall on :: Meaning(View(), on) <==> Meaning(old(View()), on) && LitHolds(l, on)
    {
      hide StoreOK, Meaning;
      ghost var st := View();
      TouchOK(cfg, st, l.flag);
      AddReqOK(cfg, Touch(st, l.flag), Singleton(l.flag, l.ver));
      touched := touched + {l.flag};
      requirements := requirements + [Singleton(l.flag, l.ver)];
      assert View() == AddReq(Touch(st, l.flag), Singleton(l.flag, l.ver));
    }

    /** While `src` holds, `dst` must hold. */
    method Imply(src: Lit, dst: Lit)
      requires Valid() && LitOK(cfg, src) && LitOK(cfg, dst)
      modifies this
      ensures Valid()
      ensures forall on :: Meaning(View(), on) <==> Meaning(old(View()), on) && (LitHolds(src, on) ==> LitHolds(dst, on))
    {
      hide StoreOK, Meaning;
      ghost var st := View();
      TouchOK(cfg, st, src.flag);
      TouchOK(cfg, Touch(st, src.flag), dst.flag);
      ghost var st2 := Touch(Touch(st, src.flag), dst.flag);
      AddDepOK(cfg, st2, src.flag, src.ver, Singleton(dst.flag, dst.ver));
      touched := touched + {src.flag};
      touched := touched + {dst.flag};
      Attach(src.flag, src.ver, Singleton(dst.flag, dst.ver));
    }

    method Attach(f: Solving.Flag, v: nat, r: Req)
      modifies this
      ensures View() == AddDep(old(View()), f, v, r)
    {
      if v == ON {
        nodeOn := nodeOn[f := Bucket(nodeOn, f) + [r]];
      } else {
        nodeOff := nodeOff[f := Bucket(nodeOff, f) + [r]];
      }
    }

    /** One branch per literal, numbered downwards. */
    method MakeBranches(ordered: seq<Lit>) returns (versions: seq<Branch>)
      requires Valid() && LitsOK(cfg, ordered)
      modifies this
      ensures Valid() && View() == old(View()).(touched := touched) && versions == Branches(ordered)
      ensures forall on :: Meaning(View(), on) <==> Meaning(old(View()), on)
      ensures forall k :: 0 <= k < |ordered| ==> ordered[k].flag in touched
    {
      hide StoreOK, Meaning;
      ghost var st := View();
      versions := [];
      for i := 0 to |ordered|
        invariant Valid() && View() == st.(touched := touched)
        invariant forall on :: Meaning(View(), on) <==> Meaning(st, on)
        invariant versions == Branches(ordered)[..i]
        invariant forall k :: 0 <= k < i ==> ordered[k].flag in touched
      {
        var l := ordered[i];
        TouchOK(cfg, View(), l.flag);
        versions := versions + [Branch(|ordered| - i, [Singleton(l.flag, l.ver)])];
        touched := touched + {l.flag};
      }
    }

    /** Register a choice over the literals, preferred ones at the highest versions. */
    method NewChoice(lits: seq<Lit>) returns (r: Req)
      requires Valid() && lits != [] && LitsOK(cfg, lits)
      modifies this
      ensures Valid() && ReqOK(View(), r)
      ensures forall on :: Meaning(View(), on) <==> Meaning(old(View()), on)
      ensures forall on :: ReqHolds(View().choices, r, on) <==> ClauseHolds(lits, on)
    {
      hide StoreOK, Meaning, ReqHolds, ReqOK, ClauseHolds;
      var ordered := OrderByPreference(lits);
      OrderOK(cfg, lits);
      var id := nextId;
      var versions := MakeBranches(ordered);
      ghost var st := View();
      AddChoiceOK(cfg, st, ordered);
      nextId := nextId + 1;
      virtualChoices := virtualChoices + [VirtualChoice(Choice(id), versions)];
      r := Req(Choice(id), Any);
      assert View() == AddChoice(st, ordered);
    }

    /** At least one literal must hold. */
    method AtLeastOne(lits: seq<Lit>)
      requires Valid() && lits != [] && LitsOK(cfg, lits)
      modifies this
      ensures Valid()
      ensures forall on :: Meaning(View(), on) <==> Meaning(old(View()), on) && ClauseHolds(lits, on)
    {
      hide StoreOK, Meaning;
      var r := NewChoice(lits);
      AddReqOK(cfg, View(), r);
      requirements := requirements + [r];
    }

    /** While `guard` holds, at least one literal must hold. */
    method ImplyChoice(guard: Lit, lits: seq<Lit>)
      requires Valid() && lits != [] && LitsOK(cfg, lits) && LitOK(cfg, guard)
      modifies this
      ensures Valid()
      ensures forall on :: Meaning(View(), on) <==> Meaning(old(View()), on) && (LitHolds(guard, on) ==> ClauseHolds(lits, on))
    {
      hide StoreOK, Meaning;
      var r := NewChoice(lits);
      TouchOK(cfg, View(), guard.flag);
      touched := touched + {guard.flag};
      AddDepOK(cfg, View(), guard.flag, guard.ver, r);
      Attach(guard.flag, guard.ver, r);
    }

    /** At most one literal may hold. */
    method AtMostOne(lits: seq<Lit>)
      requires Valid() && LitsOK(cfg, lits)
      modifies this
      ensures Valid()
      ensures forall on :: Meaning(View(), on) <==> Meaning(old(View()), on) && PairwiseExclusive(lits, on)
    {
      hide StoreOK, Meaning;
      ghost var st := View();
      for i := 0 to |lits|
        invariant Valid()
        invariant forall on :: Meaning(View(), on) <==>
                    (Meaning(st, on) && forall a :: 0 <= a < i ==> Excludes(lits, a, |lits|, on))
      {
        for j := 0 to |lits|
          invariant Valid()
          invariant forall on :: Meaning(View(), on) <==>
                      (Meaning(st, on) && (forall a :: 0 <= a < i ==> Excludes(lits, a, |lits|, on)) && Excludes(lits, i, j, on))
        {
          if i != j {
            Imply(lits[i], Negate(lits[j]));
          }
        }
      }
      forall on
        ensures PairwiseExclusive(lits, on) <==> forall a :: 0 <= a < |lits| ==> Excludes(lits, a, |lits|, on)
      {
        ExcludesPairwise(lits, on);
      }
    }

    /** Some escape literal or some body literal must hold. */
    method EmitClause(ctx: seq<Lit>, body: seq<Lit>)
      requires Valid() && LitsOK(cfg, ctx) && LitsOK(cfg, body)
      modifies this
      ensures Valid()
      ensures forall on :: Meaning(View(), on) <==>
                (Meaning(old(View()), on) && ((ctx == [] && body == []) || ClauseHolds(ctx, on) || ClauseHolds(body, on)))
    {
      hide StoreOK, Meaning;
      if ctx == [] {
        if |body| == 1 {
          Force(body[0]);
        } else if body != [] {
          AtLeastOne(body);
        }
      } else if |ctx| == 1 {
        if body == [] {
          Force(ctx[0]);
        } else if |body| == 1 {
          Imply(Negate(ctx[0]), body[0]);
        } else {
          ImplyChoice(Negate(ctx[0]), body);
        }
      } else {
        forall on
          ensures ClauseHolds(body + ctx, on) <==> ClauseHolds(body, on) || ClauseHolds(ctx, on)
        {
          ClauseConcat(body, ctx, on);
        }
        AtLeastOne(body + ctx);
      }
    }

    /** Unless an escape holds, at least one operand of a group holds. */
    method GuardedAny(cs: seq<Formula>, ctx: seq<Lit>)
      requires Valid() && LitsOK(cfg, ctx) && ctx != [] && Flat(cs)
      modifies this
      ensures Valid()
      ensures forall on :: Agrees(cfg, on) ==> (Meaning(View(), on) <==>
                (Meaning(old(View()), on) && (ClauseHolds(ctx, on) || HoldCount(cs, on, false) >= 1)))
    {
      hide StoreOK, Meaning, ClauseHolds;
      var ops := FlagOperands(cfg, cs);
      CountFlat(cs);
      if FixedCount(ops) >= 1 {
        return;
      }
      EmitClause(ctx, FreeOperands(ops));
    }

    /** Unless an escape holds, at most one operand of a group holds. */
    method GuardedAtMost(cs: seq<Formula>, ctx: seq<Lit>)
      requires Valid() && LitsOK(cfg, ctx) && ctx != [] && Flat(cs)
      modifies this
      ensures Valid()
      ensures forall on :: Agrees(cfg, on) ==> (Meaning(View(), on) <==>
                (Meaning(old(View()), on) && (ClauseHolds(ctx, on) || HoldCount(cs, on, false) <= 1)))
    {
      hide StoreOK, Meaning;
      var ops := FlagOperands(cfg, cs);
      CountFlat(cs);
      var fixedSat := FixedCount(ops);
      var free := FreeOperands(ops);
      ghost var st := View();
      if fixedSat >= 2 {
        EmitClause(ctx, []);
        return;
      }
      if fixedSat == 1 {
        for i := 0 to |free|
          invariant Valid()
          invariant forall on :: Meaning(View(), on) <==>
                      (Meaning(st, on) && forall k :: 0 <= k < i ==> ClauseHolds(ctx, on) || !LitHolds(free[k], on))
        {
          var off := [Negate(free[i])];
          assert forall on :: ClauseHolds(off, on) <==> !LitHolds(free[i], on) by {
            NegatedClause(free[i]);
          }
          EmitClause(ctx, off);
        }
      } else {
        for i := 0 to |free|
          invariant Valid()
          invariant forall on :: Meaning(View(), on) <==>
                      (Meaning(st, on) && forall a :: 0 <= a < i ==> ClauseHolds(ctx, on) || Later(free, a, |free|, on))
        {
          for j := i + 1 to |free|
            invariant Valid()
            invariant forall on :: Meaning(View(), on) <==>
                        (Meaning(st, on) && (forall a :: 0 <= a < i ==> ClauseHolds(ctx, on) || Later(free, a, |free|, on))
                         && (ClauseHolds(ctx, on) || Later(free, i, j, on)))
          {
            var pair := [Negate(free[i]), Negate(free[j])];
            NegatedPair(free[i], free[j]);
            EmitClause(ctx, pair);
          }
        }
        forall on
          ensures PairwiseExclusive(free, on) <==> forall a :: 0 <= a < |free| ==> Later(free, a, |free|, on)
        {
          LaterPairwise(free, on);
        }
      }
    }

    /**
     * Gate a formula behind the escapes of the enclosing ceded guards. The context is pushed to and
     * popped, and comes back as it was.
     */
    method Guarded(f: Formula, context: seq<Lit>) returns (ctx: seq<Lit>)
      requires Valid() && LitsOK(cfg, context) && context != []
      modifies this
      ensures Valid() && ctx == context
      ensures forall on :: Agrees(cfg, on) ==> (Meaning(View(), on) <==>
                (Meaning(old(View()), on) && (ClauseHolds(context, on) || Holds(Weaken(cfg, f, true), on, false))))
      decreases f, 1
    {
      hide StoreOK, Meaning, ClauseHolds;
      ctx := context;
      match f {
        case All(cs) =>
          GuardedEach(cs, ctx);
          HoldEach(cs, true);
        case Flag(name, negated) =>
          match OperandOf(cfg, name, negated) {
            case Free(l) =>
              SingleClause(l);
              EmitClause(ctx, [l]);
            case Fixed(satisfied) =>
              if !satisfied {
                var none: seq<Lit> := [];
                forall on
                  ensures ClauseHolds(none, on) <==> LitCount(none, on) >= 1
                {
                  CountMeaning(none, on);
                }
                EmitClause(ctx, none);
              }
          }
        case AnyOf(cs) =>
          if Flat(cs) {
            GuardedAny(cs, ctx);
            CountFlat(cs);
            AnyOfCount(cs);
          }
        case ExactlyOne(cs) =>
          if Flat(cs) {
            GuardedAny(cs, ctx);
            GuardedAtMost(cs, ctx);
          }
        case AtMostOne(cs) =>
          if Flat(cs) {
            GuardedAtMost(cs, ctx);
          }
        case UseConditional(flag, negated, cs) =>
          match Get(cfg, flag) {
            case Ceded(prefer) =>
              var escape := Lit(flag, if negated then ON else OFF, Bit(prefer));
              PushEscape(ctx, escape);
              ctx := ctx + [escape];
              GuardedEach(cs, ctx);
              HoldEach(cs, true);
              ctx := ctx[..|ctx|-1];
            case state =>
              if state.Enabled? != negated {
                GuardedEach(cs, ctx);
                HoldEach(cs, true);
              }
          }
      }
    }

    method GuardedEach(cs: seq<Formula>, ctx: seq<Lit>)
      requires Valid() && LitsOK(cfg, ctx) && ctx != []
      modifies this
      ensures Valid()
      ensures forall on :: Agrees(cfg, on) ==> (Meaning(View(), on) <==>
                (Meaning(old(View()), on) &&
                 forall k :: 0 <= k < |cs| ==> ClauseHolds(ctx, on) || Holds(Weaken(cfg, cs[k], true), on, false)))
      decreases cs, 0
    {
      hide StoreOK, Meaning, ClauseHolds, Weaken, Holds;
      ghost var st := View();
      for i := 0 to |cs|
        invariant Valid()
        invariant forall on :: Agrees(cfg, on) ==> (Meaning(View(), on) <==>
                    (Meaning(st, on) &&
                     forall k :: 0 <= k < i ==> ClauseHolds(ctx, on) || Holds(Weaken(cfg, cs[k], true), on, false)))
      {
        var _ := Guarded(cs[i], ctx);
      }
    }

    /** A weakened list holds when each weakened entry does. */
    lemma HoldEach(cs: seq<Formula>, guarded: bool)
      ensures forall on ::
                HoldAll(WeakenEach(cfg, cs, guarded), on, false) <==>
                forall k :: 0 <= k < |cs| ==> Holds(Weaken(cfg, cs[k], guarded), on, false)
    {
      var ws := WeakenEach(cfg, cs, guarded);
      forall on
        ensures HoldAll(ws, on, false) <==> forall k :: 0 <= k < |cs| ==> Holds(Weaken(cfg, cs[k], guarded), on, false)
      {
        HoldAllForall(ws, on, false);
        assert forall k :: 0 <= k < |cs| ==> ws[k] == Weaken(cfg, cs[k], guarded);
        if HoldAll(ws, on, false) {
          forall k | 0 <= k < |cs|
            ensures Holds(Weaken(cfg, cs[k], guarded), on, false)
          {
            assert Holds(ws[k], on, false);
          }
        }
      }
    }

    lemma AnyOfCount(cs: seq<Formula>)
      requires Flat(cs)
      ensures forall on :: Agrees(cfg, on) ==> (Holds(AnyOf(cs), on, false) <==> HoldCount(cs, on, false) >= 1)
    {
    }

    lemma PushEscape(ctx: seq<Lit>, l: Lit)
      ensures forall on :: ClauseHolds(ctx + [l], on) <==> ClauseHolds(ctx, on) || LitHolds(l, on)
    {
      forall on
        ensures ClauseHolds(ctx + [l], on) <==> ClauseHolds(ctx, on) || LitHolds(l, on)
      {
        ClauseConcat(ctx, [l], on);
        SingleClause(l);
      }
    }

    lemma SingleClause(l: Lit)
      ensures forall on :: ClauseHolds([l], on) <==> LitHolds(l, on)
    {
      assert [l][0] == l;
    }

    // ---------- outside any ceded guard ----------

    /** Pin each literal to its opposite. */
    method ForceOff(lits: seq<Lit>)
      requires Valid() && LitsOK(cfg, lits)
      modifies this
      ensures Valid()
      ensures forall on :: Meaning(View(), on) <==>
                (Meaning(old(View()), on) && forall k :: 0 <= k < |lits| ==> !LitHolds(lits[k], on))
    {
      hide StoreOK, Meaning;
      ghost var st := View();
      for i := 0 to |lits|
        invariant Valid()
        invariant forall on :: Meaning(View(), on) <==>
                    (Meaning(st, on) && forall k :: 0 <= k < i ==> !LitHolds(lits[k], on))
      {
        Force(Negate(lits[i]));
      }
    }

    /** Encode a group; what is not a list of bare flags, or is already false, is left out. */
    method Group(f: Formula)
      requires Valid() && (f.AnyOf? || f.ExactlyOne? || f.AtMostOne?)
      modifies this
      ensures Valid()
      ensures forall on :: Agrees(cfg, on) ==> (Meaning(View(), on) <==>
                (Meaning(old(View()), on) && Holds(Weaken(cfg, f, false), on, false)))
    {
      hide StoreOK, Meaning, ClauseHolds;
      var cs := f.children;
      if !Flat(cs) {
        return;
      }
      CountFlat(cs);
      if f.AnyOf? {
        AnyOfCount(cs);
      }
      var ops := FlagOperands(cfg, cs);
      var fixedSat := FixedCount(ops);
      var free := FreeOperands(ops);
      if |free| == 1 {
        SingleClause(free[0]);
        assert free == [free[0]];
      }
      if f.AnyOf? {
        if fixedSat >= 1 {
          return;
        }
        if |free| == 1 {
          Force(free[0]);
        } else if free != [] {
          AtLeastOne(free);
        }
      } else if f.AtMostOne? {
        if fixedSat >= 2 {
          return;
        }
        if fixedSat == 1 {
          ForceOff(free);
        } else if |free| >= 2 {
          AtMostOne(free);
        }
      } else {
        if fixedSat >= 2 {
          return;
        }
        if fixedSat == 1 {
          ForceOff(free);
        } else if |free| == 1 {
          Force(free[0]);
        } else if free != [] {
          AtLeastOne(free);
          AtMostOne(free);
        }
      }
    }

    /** Encode one clause that no ceded guard encloses. */
    method Clause(f: Formula)
      requires Valid()
      modifies this
      ensures Valid()
      ensures forall on :: Agrees(cfg, on) ==> (Meaning(View(), on) <==>
                (Meaning(old(View()), on) && Holds(Weaken(cfg, f, false), on, false)))
      decreases f, 1
    {
      hide StoreOK, Meaning, ClauseHolds;
      match f {
        case All(cs) =>
          ClauseEach(cs);
          HoldEach(cs, false);
        case Flag(name, negated) =>
          match OperandOf(cfg, name, negated) {
            case Free(l) => Force(l);
            case Fixed(_) =>
          }
        case UseConditional(flag, negated, cs) =>
          match Get(cfg, flag) {
            case Ceded(prefer) =>
              var escape := Lit(flag, if negated then ON else OFF, Bit(prefer));
              SingleClause(escape);
              GuardedEach(cs, [escape]);
              HoldEach(cs, true);
            case state =>
              if state.Enabled? != negated {
                ClauseEach(cs);
                HoldEach(cs, false);
              }
          }
        case _ => Group(f);
      }
    }

    method ClauseEach(cs: seq<Formula>)
      requires Valid()
      modifies this
      ensures Valid()
      ensures forall on :: Agrees(cfg, on) ==> (Meaning(View(), on) <==>
                (Meaning(old(View()), on) && forall k :: 0 <= k < |cs| ==> Holds(Weaken(cfg, cs[k], false), on, false)))
      decreases cs, 0
    {
      hide StoreOK, Meaning, Weaken, Holds;
      ghost var st := View();
      for i := 0 to |cs|
        invariant Valid()
        invariant forall on :: Agrees(cfg, on) ==> (Meaning(View(), on) <==>
                    (Meaning(st, on) && forall k :: 0 <= k < i ==> Holds(Weaken(cfg, cs[k], false), on, false)))
      {
        Clause(cs[i]);
      }
    }

    /** Make every touched flag a node of two versions that is pulled into the package, each once. */
    method Finish() returns (reqs: seq<Req>, choices: seq<VirtualChoice>, ghost nodes: seq<Solving.Flag>)
      requires Valid()
      modifies this
      ensures FinishedBy(old(View()), reqs, choices, nodes) && Finished(old(View()), reqs, choices)
      ensures nextId == old(nextId)
    {
      hide Valid, StoreOK, Finished, FinishedBy, Finishing;
      ghost var st := View();
      var todo := touched;
      nodes := [];
      NothingFinished(st);
      while todo != {}
        invariant nextId == st.nextId
        invariant Finishing(st, todo, nodeOn, nodeOff, requirements, virtualChoices, nodes)
        decreases |todo|
      {
        var f :| f in todo;
        FinishOne(st, todo, nodeOn, nodeOff, requirements, virtualChoices, nodes, f);
        var on, off := Bucket(nodeOn, f), Bucket(nodeOff, f);
        nodeOn, nodeOff := nodeOn - {f}, nodeOff - {f};
        virtualChoices := virtualChoices + [VirtualChoice(Decision(f), [Branch(OFF, off), Branch(ON, on)])];
        requirements := requirements + [Req(Decision(f), Any)];
        todo := todo - {f};
        nodes := nodes + [f];
      }
      reqs, choices := requirements, virtualChoices;
      AllFinished(st, nodeOn, nodeOff, reqs, choices, nodes);
      FinishedByAll(st, reqs, choices, nodes);
    }

    /** The counts of a flat group in terms of its operands. */
    lemma CountFlat(cs: seq<Formula>)
      requires Flat(cs)
      ensures LitsOK(cfg, FreeOperands(FlagOperands(cfg, cs)))
      ensures forall on :: Agrees(cfg, on) ==>
                && HoldCount(cs, on, false) == FixedCount(FlagOperands(cfg, cs)) + LitCount(FreeOperands(FlagOperands(cfg, cs)), on)
                && MemberCount(cs, on) == |cs|
      ensures forall on :: var ls := FreeOperands(FlagOperands(cfg, cs));
                && (LitCount(ls, on) >= 1 <==> ClauseHolds(ls, on))
                && (LitCount(ls, on) <= 1 <==> PairwiseExclusive(ls, on))
                && (LitCount(ls, on) == 0 <==> forall i :: 0 <= i < |ls| ==> !LitHolds(ls[i], on))
    {
      FreeOperandsOK(cfg, cs);
      forall on
        ensures var ls := FreeOperands(FlagOperands(cfg, cs));
                && (LitCount(ls, on) >= 1 <==> ClauseHolds(ls, on))
                && (LitCount(ls, on) <= 1 <==> PairwiseExclusive(ls, on))
                && (LitCount(ls, on) == 0 <==> forall i :: 0 <= i < |ls| ==> !LitHolds(ls[i], on))
      {
        CountMeaning(FreeOperands(FlagOperands(cfg, cs)), on);
      }
      forall on | Agrees(cfg, on)
        ensures HoldCount(cs, on, false) == FixedCount(FlagOperands(cfg, cs)) + LitCount(FreeOperands(FlagOperands(cfg, cs)), on)
        ensures MemberCount(cs, on) == |cs|
      {
        FlatCount(cfg, cs, on, false);
      }
    }
  }

  function Node(st: Store, f: Solving.Flag): VirtualChoice {
    VirtualChoice(Decision(f), [Branch(OFF, Bucket(st.nodeOff, f)), Branch(ON, Bucket(st.nodeOn, f))])
  }

  ghost predicate IsNode(st: Store, flags: FlagSet, c: VirtualChoice) {
    c.pkg.Decision? && c.pkg.flag in flags && c == Node(st, c.pkg.flag)
  }

  predicate IsNodeReq(flags: FlagSet, r: Req) {
    r.pkg.Decision? && r.pkg.flag in flags && r.vers.Any?
  }

  /** The encoding that a builder state stands for. */
  ghost predicate Finished(st: Store, reqs: seq<Req>, choices: seq<VirtualChoice>) {
    && (forall r :: r in reqs <==> r in st.reqs || IsNodeReq(st.touched, r))
    && (forall c :: c in choices <==> c in st.choices || IsNode(st, st.touched, c))
  }

  ghost predicate Once(nodes: seq<Solving.Flag>) {
    forall i, j :: 0 <= i < j < |nodes| ==> nodes[i] != nodes[j]
  }

  function NodeReqs(nodes: seq<Solving.Flag>): seq<Req> {
    seq(|nodes|, i requires 0 <= i < |nodes| => Req(Decision(nodes[i]), Any))
  }

  function Nodes(st: Store, nodes: seq<Solving.Flag>): seq<VirtualChoice> {
    seq(|nodes|, i requires 0 <= i < |nodes| => Node(st, nodes[i]))
  }

  /** Behind what was emitted before come the touched flags, each one node and one requirement. */
  ghost predicate FinishedBy(st: Store, reqs: seq<Req>, choices: seq<VirtualChoice>, nodes: seq<Solving.Flag>) {
    && Once(nodes) && (forall f :: f in nodes <==> f in st.touched)
    && reqs == st.reqs + NodeReqs(nodes) && choices == st.choices + Nodes(st, nodes)
  }

  /** The flags of `todo` are still to be made nodes of. */
  ghost predicate Finishing(st: Store, todo: FlagSet, nodeOn: map<Solving.Flag, seq<Req>>, nodeOff: map<Solving.Flag, seq<Req>>,
                            reqs: seq<Req>, choices: seq<VirtualChoice>, nodes: seq<Solving.Flag>) {
    && todo <= st.touched && Once(nodes) && (forall f :: f in nodes <==> f in st.touched - todo)
    && (forall f :: f in todo ==> Bucket(nodeOn, f) == Bucket(st.nodeOn, f) && Bucket(nodeOff, f) == Bucket(st.nodeOff, f))
    && reqs == st.reqs + NodeReqs(nodes) && choices == st.choices + Nodes(st, nodes)
  }

  lemma NothingFinished(st: Store)
    ensures Finishing(st, st.touched, st.nodeOn, st.nodeOff, st.reqs, st.choices, [])
  {
    assert NodeReqs([]) == [] && Nodes(st, []) == [];
  }

  lemma FinishOne(st: Store, todo: FlagSet, nodeOn: map<Solving.Flag, seq<Req>>, nodeOff: map<Solving.Flag, seq<Req>>,
                  reqs: seq<Req>, choices: seq<VirtualChoice>, nodes: seq<Solving.Flag>, f: Solving.Flag)
    requires Finishing(st, todo, nodeOn, nodeOff, reqs, choices, nodes) && f in todo
    ensures var c := VirtualChoice(Decision(f), [Branch(OFF, Bucket(nodeOff, f)), Branch(ON, Bucket(nodeOn, f))]);
            Finishing(st, todo - {f}, nodeOn - {f}, nodeOff - {f}, reqs + [Req(Decision(f), Any)], choices + [c], nodes + [f])
  {
    assert f !in nodes;
    assert forall i :: 0 <= i < |nodes| ==> nodes[i] in nodes;
    assert NodeReqs(nodes + [f]) == NodeReqs(nodes) + [Req(Decision(f), Any)];
    assert Nodes(st, nodes + [f]) == Nodes(st, nodes) + [Node(st, f)];
  }

  lemma AllFinished(st: Store, nodeOn: map<Solving.Flag, seq<Req>>, nodeOff: map<Solving.Flag, seq<Req>>,
                    reqs: seq<Req>, choices: seq<VirtualChoice>, nodes: seq<Solving.Flag>)
    requires Finishing(st, {}, nodeOn, nodeOff, reqs, choices, nodes)
    ensures FinishedBy(st, reqs, choices, nodes)
  {
  }

  lemma FinishedByAll(st: Store, reqs: seq<Req>, choices: seq<VirtualChoice>, nodes: seq<Solving.Flag>)
    requires FinishedBy(st, reqs, choices, nodes)
    ensures Finished(st, reqs, choices)
  {
    forall r
      ensures r in NodeReqs(nodes) <==> IsNodeReq(st.touched, r)
    {
      if IsNodeReq(st.touched, r) {
        var i :| 0 <= i < |nodes| && nodes[i] == r.pkg.flag;
        assert NodeReqs(nodes)[i] == r;
      }
    }
    forall c
      ensures c in Nodes(st, nodes) <==> IsNode(st, st.touched, c)
    {
      if IsNode(st, st.touched, c) {
        var i :| 0 <= i < |nodes| && nodes[i] == c.pkg.flag;
        assert Nodes(st, nodes)[i] == c;
      }
    }
  }

  // ---------- solutions of a finished encoding ----------

  /** The selection gives each flag node the value it has in `on`. */
  ghost predicate Follows(sel: Selection, on: FlagSet) {
    forall f: Solving.Flag :: Decision(f) in sel ==> sel[Decision(f)] == if f in on then 1 else 0
  }

  /** The assignment extends to a solution. */
  ghost predicate Extensible(reqs: seq<Req>, choices: seq<VirtualChoice>, on: FlagSet) {
    exists sel: Selection :: Solves(sel, reqs, choices) && Follows(sel, on)
  }

  /** The first branch from position `i` on that holds. */
  ghost function FirstHolding(c: VirtualChoice, on: FlagSet, i: nat): (k: nat)
    requires i <= |c.versions| && exists j :: i <= j < |c.versions| && BranchHolds(c.versions[j], on)
    ensures i <= k < |c.versions| && BranchHolds(c.versions[k], on)
    ensures BranchHolds(c.versions[i], on) ==> k == i
    decreases |c.versions| - i
  {
    if BranchHolds(c.versions[i], on) then i else FirstHolding(c, on, i + 1)
  }

  ghost predicate Pulls(st: Store, p: Pkg, on: FlagSet, c: VirtualChoice) {
    c in st.choices && c.pkg == p && SomeBranch(c, on)
  }

  ghost function VersionFor(st: Store, p: Pkg, on: FlagSet): nat
    requires p.Decision? || exists c: VirtualChoice :: Pulls(st, p, on, c)
  {
    if p.Decision? then Bit(p.flag in on)
    else var c :| Pulls(st, p, on, c); c.versions[FirstHolding(c, on, 0)].ver
  }

  /** Flags as in `on`, and every satisfiable choice at its first branch that holds. */
  ghost function SelectionFor(st: Store, on: FlagSet): (sel: Selection)
    ensures forall p: Pkg :: p in sel <==> (p.Decision? && p.flag in st.touched) || (!p.Decision? && exists c: VirtualChoice :: Pulls(st, p, on, c))
    ensures forall p: Pkg :: p in sel ==> sel[p] == VersionFor(st, p, on)
  {
    var nodes := set f | f in st.touched :: Decision(f);
    var picks := set c | c in st.choices && !c.pkg.Decision? && SomeBranch(c, on) :: c.pkg;
    assert forall c: VirtualChoice :: c in st.choices && SomeBranch(c, on) ==> Pulls(st, c.pkg, on, c);
    map p | p in nodes + picks :: VersionFor(st, p, on)
  }

  lemma DepMet(cfg: Config, st: Store, r: Req, on: FlagSet)
    requires StoreOK(cfg, st) && ReqOK(st, r) && ReqHolds(st.choices, r, on)
    ensures Meets(SelectionFor(st, on), r)
  {
  }

  lemma ChoiceUnique(cfg: Config, st: Store, c: VirtualChoice, d: VirtualChoice)
    requires StoreOK(cfg, st) && c in st.choices && d in st.choices && c.pkg == d.pkg
    ensures c == d
  {
  }

  /** A branch of a choice asks for one literal over a touched flag. */
  lemma LitBranch(cfg: Config, st: Store, c: VirtualChoice, k: nat) returns (l: Lit)
    requires StoreOK(cfg, st) && c in st.choices && k < |c.versions|
    ensures c.versions[k].deps == [Singleton(l.flag, l.ver)] && l.flag in st.touched
  {
    assert ChoiceOK(cfg, st, c);
    var lits: seq<Lit> :| OverLits(cfg, st.touched, c, lits);
    l := lits[k];
  }

  /** A selected choice takes a branch whose literals hold. */
  lemma ChoiceTaken(cfg: Config, st: Store, c: VirtualChoice, on: FlagSet)
    requires StoreOK(cfg, st) && c in st.choices && c.pkg in SelectionFor(st, on)
    ensures SomeBranch(c, on)
    ensures var b := c.versions[FirstHolding(c, on, 0)]; TakesBranch(SelectionFor(st, on), c, b)
  {
    assert ChoiceOK(cfg, st, c);
    ChoicePicked(cfg, st, c, on);
    var k := FirstHolding(c, on, 0);
    var l := LitBranch(cfg, st, c, k);
    assert DepHolds(Singleton(l.flag, l.ver), on);
    assert Decision(l.flag) in SelectionFor(st, on);
  }

  lemma ChoicePicked(cfg: Config, st: Store, c: VirtualChoice, on: FlagSet)
    requires StoreOK(cfg, st) && c in st.choices && c.pkg.Choice? && c.pkg in SelectionFor(st, on)
    ensures SomeBranch(c, on)
    ensures SelectionFor(st, on)[c.pkg] == c.versions[FirstHolding(c, on, 0)].ver
  {
    hide FirstHolding, BucketOK, ReqOK, ChoiceOK;
    var d :| Pulls(st, c.pkg, on, d) && SelectionFor(st, on)[c.pkg] == d.versions[FirstHolding(d, on, 0)].ver;
    ChoiceUnique(cfg, st, c, d);
  }

  lemma BucketMet(cfg: Config, st: Store, f: Solving.Flag, on: FlagSet)
    requires StoreOK(cfg, st) && Meaning(st, on) && f in st.touched
    ensures var b := if f in on then Branch(ON, Bucket(st.nodeOn, f)) else Branch(OFF, Bucket(st.nodeOff, f));
            TakesBranch(SelectionFor(st, on), Node(st, f), b)
  {
    var sel := SelectionFor(st, on);
    var bucket := if f in on then st.nodeOn else st.nodeOff;
    assert BucketHolds(st.choices, bucket, f, on);
    forall r: Req | r in Bucket(bucket, f)
      ensures Meets(sel, r)
    {
      DepMet(cfg, st, r, on);
    }
    assert Decision(f) in sel;
  }

  /** An assignment under which the encoding means true extends to a solution. */
  lemma MeaningExtends(cfg: Config, st: Store, reqs: seq<Req>, choices: seq<VirtualChoice>, on: FlagSet)
    requires StoreOK(cfg, st) && Finished(st, reqs, choices) && Meaning(st, on)
    ensures Solves(SelectionFor(st, on), reqs, choices) && Follows(SelectionFor(st, on), on)
  {
    var sel := SelectionFor(st, on);
    forall r: Req | r in reqs
      ensures Meets(sel, r)
    {
      if r in st.reqs {
        DepMet(cfg, st, r, on);
      }
    }
    forall c: VirtualChoice | c in choices && c.pkg in sel
      ensures exists b: Branch :: b in c.versions && TakesBranch(sel, c, b)
    {
      if c in st.choices {
        ChoiceTaken(cfg, st, c, on);
      } else {
        BucketMet(cfg, st, c.pkg.flag, on);
      }
    }
  }

  lemma MetHolds(cfg: Config, st: Store, reqs: seq<Req>, choices: seq<VirtualChoice>, sel: Selection, on: FlagSet, r: Req)
    requires StoreOK(cfg, st) && Finished(st, reqs, choices) && Solves(sel, reqs, choices) && Follows(sel, on)
    requires ReqOK(st, r) && Meets(sel, r)
    ensures ReqHolds(st.choices, r, on)
  {
  }

  /** An assignment that extends to a solution makes the encoding mean true. */
  lemma ExtensionMeans(cfg: Config, st: Store, reqs: seq<Req>, choices: seq<VirtualChoice>, sel: Selection, on: FlagSet)
    requires StoreOK(cfg, st) && Finished(st, reqs, choices) && Solves(sel, reqs, choices) && Follows(sel, on)
    ensures Meaning(st, on)
  {
    forall r: Req | r in st.reqs
      ensures ReqHolds(st.choices, r, on)
    {
      MetHolds(cfg, st, reqs, choices, sel, on, r);
    }
    forall f: Solving.Flag | f in st.touched
      ensures BucketHolds(st.choices, if f in on then st.nodeOn else st.nodeOff, f, on)
    {
      NodeMeans(cfg, st, reqs, choices, sel, on, f);
    }
  }

  lemma NodeMeans(cfg: Config, st: Store, reqs: seq<Req>, choices: seq<VirtualChoice>, sel: Selection, on: FlagSet,
                  f: Solving.Flag)
    requires StoreOK(cfg, st) && Finished(st, reqs, choices) && Solves(sel, reqs, choices) && Follows(sel, on)
    requires f in st.touched
    ensures BucketHolds(st.choices, if f in on then st.nodeOn else st.nodeOff, f, on)
  {
    var bucket := if f in on then st.nodeOn else st.nodeOff;
    assert IsNode(st, st.touched, Node(st, f)) && IsNodeReq(st.touched, Req(Decision(f), Any));
    assert Node(st, f) in choices && Req(Decision(f), Any) in reqs;
    assert Meets(sel, Req(Decision(f), Any));
    var b :| b in Node(st, f).versions && TakesBranch(sel, Node(st, f), b);
    assert b.deps == Bucket(bucket, f);
    forall r: Req | r in Bucket(bucket, f)
      ensures ReqHolds(st.choices, r, on)
    {
      MetHolds(cfg, st, reqs, choices, sel, on, r);
    }
  }

  lemma NegatedClause(l: Lit)
    requires l.ver <= ON
    ensures forall on :: ClauseHolds([Negate(l)], on) <==> !LitHolds(l, on)
  {
    forall on
      ensures ClauseHolds([Negate(l)], on) <==> !LitHolds(l, on)
    {
      assert [Negate(l)][0] == Negate(l);
    }
  }

  lemma NegatedPair(l: Lit, m: Lit)
    requires l.ver <= ON && m.ver <= ON
    ensures forall on :: ClauseHolds([Negate(l), Negate(m)], on) <==> !(LitHolds(l, on) && LitHolds(m, on))
  {
    forall on
      ensures ClauseHolds([Negate(l), Negate(m)], on) <==> !(LitHolds(l, on) && LitHolds(m, on))
    {
      var pair := [Negate(l), Negate(m)];
      assert pair[0] == Negate(l) && pair[1] == Negate(m);
    }
  }

  /** Literal `a` does not hold together with any later one below `j`. */
  ghost predicate Later(lits: seq<Lit>, a: nat, j: nat, on: FlagSet)
    requires a < |lits| && j <= |lits|
  {
    forall b :: a < b < j ==> !(LitHolds(lits[a], on) && LitHolds(lits[b], on))
  }

  lemma LaterPairwise(lits: seq<Lit>, on: FlagSet)
    ensures PairwiseExclusive(lits, on) <==> forall a :: 0 <= a < |lits| ==> Later(lits, a, |lits|, on)
  {
    if forall a :: 0 <= a < |lits| ==> Later(lits, a, |lits|, on) {
      forall i, j | 0 <= i < j < |lits|
        ensures !(LitHolds(lits[i], on) && LitHolds(lits[j], on))
      {
        assert Later(lits, i, |lits|, on);
      }
    }
  }

  /** Literal `a` does not hold together with any other of the first `j`. */
  ghost predicate Excludes(lits: seq<Lit>, a: nat, j: nat, on: FlagSet)
    requires a < |lits| && j <= |lits|
  {
    forall b :: 0 <= b < j && b != a ==> !(LitHolds(lits[a], on) && LitHolds(lits[b], on))
  }

  lemma ExcludesPairwise(lits: seq<Lit>, on: FlagSet)
    ensures PairwiseExclusive(lits, on) <==> forall a :: 0 <= a < |lits| ==> Excludes(lits, a, |lits|, on)
  {
    if forall a :: 0 <= a < |lits| ==> Excludes(lits, a, |lits|, on) {
      forall i, j | 0 <= i < j < |lits|
        ensures !(LitHolds(lits[i], on) && LitHolds(lits[j], on))
      {
        assert Excludes(lits, i, |lits|, on);
      }
    }
  }

  // ---------- the encoder's guarantees ----------

  ghost predicate AtHighest(c: VirtualChoice, v: nat) {
    forall b :: b in c.versions ==> b.ver <= v
  }

  /** Every pulled-in choice sits at its highest version. */
  ghost predicate TopChoices(sel: Selection, choices: seq<VirtualChoice>) {
    forall c :: c in choices && c.pkg.Choice? && c.pkg in sel ==> AtHighest(c, sel[c.pkg])
  }

  /** `on` gives each ceded flag its preferred value. */
  ghost predicate Prefers(cfg: Config, on: FlagSet) {
    Agrees(cfg, on) && forall f :: Get(cfg, f).Ceded? ==> (f in on <==> Get(cfg, f).prefer)
  }

  /** The emitted constraints mean exactly what is left of the formula. */
  ghost predicate Encodes(cfg: Config, f: Formula, reqs: seq<Req>, choices: seq<VirtualChoice>) {
    forall on :: Agrees(cfg, on) ==> (Extensible(reqs, choices, on) <==> Holds(Weaken(cfg, f, false), on, false))
  }

  /** When the preferred values are a model, nothing needs to be flipped and no choice needs to back down. */
  ghost predicate KeepsPreferences(cfg: Config, f: Formula, reqs: seq<Req>, choices: seq<VirtualChoice>) {
    forall on :: Prefers(cfg, on) && Holds(Weaken(cfg, f, false), on, false) ==>
      exists sel :: Solves(sel, reqs, choices) && Follows(sel, on) && TopChoices(sel, choices)
  }

  /** The encoding speaks of ceded flags and choices of its own only, and pulls in every flag node it makes. */
  ghost predicate FlagsOnly(cfg: Config, reqs: seq<Req>, choices: seq<VirtualChoice>, lo: nat, hi: nat) {
    && lo <= hi && Closed(reqs, choices, lo, hi)
    && (forall r :: r in reqs ==> OverFlags(cfg, r))
    && (forall c, b, r :: c in choices && b in c.versions && r in b.deps ==> OverFlags(cfg, r))
    && forall c :: c in choices && c.pkg.Decision? ==> Req(c.pkg, Any) in reqs
  }

  predicate OverFlags(cfg: Config, r: Req) {
    r.pkg.Choice? || (r.pkg.Decision? && Get(cfg, r.pkg.flag).Ceded?)
  }

  lemma ReqShape(cfg: Config, st: Store, r: Req)
    requires StoreOK(cfg, st) && ReqOK(st, r)
    ensures OverFlags(cfg, r) && (IsBase(r.pkg) || IsId(r.pkg, st.firstId, st.nextId))
  {
    if r.pkg.Choice? {
      var c :| c in st.choices && c.pkg == r.pkg;
      assert ChoiceOK(cfg, st, c);
    }
  }

  lemma BranchShape(cfg: Config, st: Store, c: VirtualChoice, b: Branch, r: Req)
    requires StoreOK(cfg, st) && (c in st.choices || IsNode(st, st.touched, c)) && b in c.versions && r in b.deps
    ensures OverFlags(cfg, r) && (IsBase(r.pkg) || IsId(r.pkg, st.firstId, st.nextId))
  {
    if c in st.choices {
      var k :| 0 <= k < |c.versions| && c.versions[k] == b;
      var l := LitBranch(cfg, st, c, k);
      assert r == Singleton(l.flag, l.ver);
    } else {
      ReqShape(cfg, st, r);
    }
  }

  lemma FinishedFlagsOnly(cfg: Config, st: Store, reqs: seq<Req>, choices: seq<VirtualChoice>)
    requires StoreOK(cfg, st) && Finished(st, reqs, choices)
    ensures FlagsOnly(cfg, reqs, choices, st.firstId, st.nextId)
  {
    hide OverFlags;
    forall r | r in reqs
      ensures OverFlags(cfg, r) && (IsBase(r.pkg) || IsId(r.pkg, st.firstId, st.nextId))
    {
      if r in st.reqs {
        ReqShape(cfg, st, r);
      } else {
        assert ReqOK(st, Req(r.pkg, Any));
        ReqShape(cfg, st, Req(r.pkg, Any));
        SameShape(cfg, r, Req(r.pkg, Any));
      }
    }
    forall c, b, r | c in choices && b in c.versions && r in b.deps
      ensures OverFlags(cfg, r) && (IsBase(r.pkg) || IsId(r.pkg, st.firstId, st.nextId))
    {
      BranchShape(cfg, st, c, b, r);
    }
    forall c | c in choices
      ensures c.pkg.Decision? || IsId(c.pkg, st.firstId, st.nextId)
      ensures c.pkg.Decision? ==> Req(c.pkg, Any) in reqs
    {
      assert c in st.choices ==> ChoiceOK(cfg, st, c);
      assert IsNode(st, st.touched, c) ==> IsNodeReq(st.touched, Req(c.pkg, Any));
    }
  }

  /** Well-formed nodes with ids of their own, and one node a flag. */
  lemma FinishedOwnIds(cfg: Config, st: Store, reqs: seq<Req>, choices: seq<VirtualChoice>, nodes: seq<Solving.Flag>)
    requires StoreOK(cfg, st) && FinishedBy(st, reqs, choices, nodes)
    ensures OwnIds(choices, st.firstId, st.nextId)
  {
    hide OverFlags;
    forall c | c in choices
      ensures NodeOK(c) && (c.pkg.Decision? || IsId(c.pkg, st.firstId, st.nextId))
    {
      if c in st.choices {
        assert ChoiceOK(cfg, st, c);
      } else {
        assert c in Nodes(st, nodes);
      }
    }
  }

  lemma SameShape(cfg: Config, r: Req, q: Req)
    requires r.pkg == q.pkg
    ensures OverFlags(cfg, r) == OverFlags(cfg, q)
  {
  }

  method EncodeRequiredUse(cfg: Config, f: Formula, firstId: nat)
    returns (reqs: seq<Req>, choices: seq<VirtualChoice>, nextId: nat)
    ensures Encodes(cfg, f, reqs, choices) && KeepsPreferences(cfg, f, reqs, choices)
    ensures FlagsOnly(cfg, reqs, choices, firstId, nextId) && OwnIds(choices, firstId, nextId)
  {
    hide StoreOK, Meaning, Finished, FinishedBy, Solves, Weaken, Holds, FlagsOnly, OwnIds;
    var b := new Builder(cfg, firstId);
    b.Clause(f);
    ghost var st := b.View();
    ghost var nodes;
    reqs, choices, nodes := b.Finish();
    nextId := b.nextId;
    FinishedFlagsOnly(cfg, st, reqs, choices);
    FinishedOwnIds(cfg, st, reqs, choices, nodes);
    forall on | Agrees(cfg, on)
      ensures Extensible(reqs, choices, on) <==> Meaning(st, on)
    {
      if Meaning(st, on) {
        MeaningExtends(cfg, st, reqs, choices, on);
      }
      if Extensible(reqs, choices, on) {
        var sel: Selection :| Solves(sel, reqs, choices) && Follows(sel, on);
        ExtensionMeans(cfg, st, reqs, choices, sel, on);
      }
    }
    forall on | Prefers(cfg, on) && Holds(Weaken(cfg, f, false), on, false)
      ensures exists sel :: Solves(sel, reqs, choices) && Follows(sel, on) && TopChoices(sel, choices)
    {
      MeaningExtends(cfg, st, reqs, choices, on);
      PreferredTops(cfg, st, reqs, choices, on);
    }
  }

  /** Under the preferred values a choice that can be satisfied is satisfied by its first branch. */
  lemma PreferredTop(cfg: Config, st: Store, c: VirtualChoice, on: FlagSet)
    requires StoreOK(cfg, st) && Prefers(cfg, on) && c in st.choices && SomeBranch(c, on)
    ensures AtHighest(c, c.versions[FirstHolding(c, on, 0)].ver)
  {
    assert ChoiceOK(cfg, st, c);
    var lits: seq<Lit> :| OverLits(cfg, st.touched, c, lits);
    BranchesHold(c, lits, on);
    var i :| 0 <= i < |lits| && LitHolds(lits[i], on);
    assert LitOK(cfg, lits[i]) && lits[i].ver == lits[i].prefer;
    assert LitOK(cfg, lits[0]) && LitHolds(lits[0], on);
    assert c.versions[0].deps == [Singleton(lits[0].flag, lits[0].ver)];
    assert BranchHolds(c.versions[0], on);
  }

  lemma PreferredTops(cfg: Config, st: Store, reqs: seq<Req>, choices: seq<VirtualChoice>, on: FlagSet)
    requires StoreOK(cfg, st) && Finished(st, reqs, choices) && Prefers(cfg, on)
    ensures TopChoices(SelectionFor(st, on), choices)
  {
    var sel := SelectionFor(st, on);
    forall c: VirtualChoice | c in choices && c.pkg.Choice? && c.pkg in sel
      ensures AtHighest(c, sel[c.pkg])
    {
      var d :| Pulls(st, c.pkg, on, d) && sel[c.pkg] == d.versions[FirstHolding(d, on, 0)].ver;
      ChoiceUnique(cfg, st, c, d);
      PreferredTop(cfg, st, c, on);
    }
  }

  /** The members of every group are bare flags. */
  predicate BareGroups(f: Formula)
    decreases f
  {
    match f
    case Flag(_, _) => true
    case UseConditional(_, _, cs) => forall i :: 0 <= i < |cs| ==> BareGroups(cs[i])
    case All(cs) => forall i :: 0 <= i < |cs| ==> BareGroups(cs[i])
    case _ => forall i :: 0 <= i < |f.children| ==> f.children[i].Flag?
  }

  /** A formula that some assignment makes true leaves nothing to the post-solve check. */
  lemma {:induction false} ModelEncodable(cfg: Config, f: Formula, guarded: bool, on: FlagSet)
    requires Agrees(cfg, on) && BareGroups(f) && (guarded || Holds(f, on, false))
    ensures Encodable(cfg, f, guarded)
    decreases f
  {
    match f {
      case Flag(_, _) =>
      case UseConditional(flag, negated, cs) =>
        var ceded := Get(cfg, flag).Ceded?;
        if ceded || (flag in on) != negated {
          HoldAllForall(cs, on, false);
          forall i | 0 <= i < |cs|
            ensures Encodable(cfg, cs[i], guarded || ceded)
          {
            ModelEncodable(cfg, cs[i], guarded || ceded, on);
          }
        }
      case All(cs) =>
        HoldAllForall(cs, on, false);
        forall i | 0 <= i < |cs|
          ensures Encodable(cfg, cs[i], guarded)
        {
          ModelEncodable(cfg, cs[i], guarded, on);
        }
      case _ =>
        FlatCount(cfg, f.children, on, false);
        var ops := FlagOperands(cfg, f.children);
        assert FreeOperands(ops) == [] ==> LitCount(FreeOperands(ops), on) == 0;
    }
  }

  /** If some assignment satisfies a formula over bare-flag groups, exactly those that do extend to a solution. */
  lemma SatisfiableExact(cfg: Config, f: Formula, reqs: seq<Req>, choices: seq<VirtualChoice>, model: FlagSet, on: FlagSet)
    requires Encodes(cfg, f, reqs, choices) && BareGroups(f)
    requires Agrees(cfg, model) && Holds(f, model, false) && Agrees(cfg, on)
    ensures Extensible(reqs, choices, on) <==> Holds(f, on, false)
  {
    hide Extensible;
    ModelEncodable(cfg, f, false, model);
    WeakenExact(cfg, f, false, on);
  }

  /** An assignment that makes the formula true is never ruled out, whatever the formula. */
  lemma NeverOverConstrains(cfg: Config, f: Formula, reqs: seq<Req>, choices: seq<VirtualChoice>, on: FlagSet)
    requires Encodes(cfg, f, reqs, choices) && Agrees(cfg, on) && Holds(f, on, false)
    ensures Extensible(reqs, choices, on)
  {
    WeakenSound(cfg, f, false, on);
  }

  /** When nothing is left out, the assignments that extend are exactly the models of the formula. */
  lemma EncodesExactly(cfg: Config, f: Formula, reqs: seq<Req>, choices: seq<VirtualChoice>, on: FlagSet)
    requires Encodes(cfg, f, reqs, choices) && Agrees(cfg, on) && Encodable(cfg, f, false)
    ensures Extensible(reqs, choices, on) <==> Holds(f, on, false)
  {
    WeakenExact(cfg, f, false, on);
  }

  /** Preferences that already satisfy the formula are kept. */
  lemma NoGratuitousFlips(cfg: Config, f: Formula, reqs: seq<Req>, choices: seq<VirtualChoice>, on: FlagSet)
    requires KeepsPreferences(cfg, f, reqs, choices) && Prefers(cfg, on) && Holds(f, on, false)
    ensures exists sel :: Solves(sel, reqs, choices) && Follows(sel, on) && TopChoices(sel, choices)
  {
    WeakenSound(cfg, f, false, on);
  }

  // ---------- any-of groups without operands ----------

  /** No any-of under a ceded guard is empty. */
  predicate NoEmptyAnyOf(cfg: Config, f: Formula, guarded: bool)
    decreases f
  {
    match f
    case AnyOf(cs) => guarded ==> cs != []
    case UseConditional(flag, _, cs) =>
      forall i :: 0 <= i < |cs| ==> NoEmptyAnyOf(cfg, cs[i], guarded || Get(cfg, flag).Ceded?)
    case All(cs) => forall i :: 0 <= i < |cs| ==> NoEmptyAnyOf(cfg, cs[i], guarded)
    case _ => true
  }

  /** Where an empty any-of matches, the encoder is still safe if none stands under a ceded guard. */
  lemma {:induction false} WeakenSoundMatching(cfg: Config, f: Formula, guarded: bool, on: FlagSet)
    requires Agrees(cfg, on) && Holds(f, on, true) && NoEmptyAnyOf(cfg, f, guarded)
    ensures Holds(Weaken(cfg, f, guarded), on, false)
    decreases f
  {
    if f.UseConditional? || f.All? {
      var cs := if f.All? then f.children else f.entries;
      if f.All? || (f.flag in on) != f.negated {
        HoldAllForall(cs, on, true);
        var inner := if f.UseConditional? && Get(cfg, f.flag).Ceded? then true else guarded;
        var ws := WeakenEach(cfg, cs, inner);
        forall i | 0 <= i < |cs|
          ensures Holds(ws[i], on, false)
        {
          WeakenSoundMatching(cfg, cs[i], inner, on);
        }
        HoldAllForall(ws, on, false);
      }
    } else if !f.Flag? && Flat(f.children) {
      FlatCount(cfg, f.children, on, true);
      FlatCount(cfg, f.children, on, false);
    }
  }

  /** Otherwise it is not: the guard is forced to its inactive value although the formula holds. */
  lemma EmptyAnyOfOverConstrains(reqs: seq<Req>, choices: seq<VirtualChoice>)
    requires Encodes(map["a" := Ceded(true)], UseConditional("a", false, [AnyOf([])]), reqs, choices)
    ensures Holds(UseConditional("a", false, [AnyOf([])]), {"a"}, true)
    ensures !Extensible(reqs, choices, {"a"})
  {
    var cfg: Config := map["a" := Ceded(true)];
    var body := AnyOf([]);
    assert Agrees(cfg, {"a"});
    HoldAllForall([body], {"a"}, true);
    assert WeakenEach(cfg, [body], true) == [body];
    assert Weaken(cfg, UseConditional("a", false, [body]), false) == UseConditional("a", false, [body]);
    HoldAllForall([body], {"a"}, false);
    assert !Holds([body][0], {"a"}, false);
  }

  /** For a group of bare flags under an active ceded guard, that is the only exception. */
  lemma GuardedAnyOfExact(cfg: Config, guard: Solving.Flag, negated: bool, cs: seq<Formula>, on: FlagSet)
    requires Get(cfg, guard).Ceded? && Flat(cs) && Agrees(cfg, on) && (guard in on) != negated
    ensures var f := UseConditional(guard, negated, [AnyOf(cs)]);
            (Holds(Weaken(cfg, f, false), on, false) <==> Holds(f, on, true)) <==> cs != []
  {
    var body := AnyOf(cs);
    assert WeakenEach(cfg, [body], true) == [body];
    HoldAllForall([body], on, true);
    HoldAllForall([body], on, false);
    FlatCount(cfg, cs, on, true);
    FlatCount(cfg, cs, on, false);
    assert [body][0] == body;
  }

  // ---------- policy that leaves no room ----------

  /** With no flag ceded, the formula never constrains anything. */
  lemma {:induction false} FixedIsInert(cfg: Config, f: Formula, on: FlagSet)
    requires Agrees(cfg, on) && forall g :: !Get(cfg, g).Ceded?
    ensures Holds(Weaken(cfg, f, false), on, false)
    decreases f
  {
    if f.UseConditional? || f.All? {
      var cs := if f.All? then f.children else f.entries;
      var ws := WeakenEach(cfg, cs, false);
      forall i | 0 <= i < |cs|
        ensures Holds(ws[i], on, false)
      {
        FixedIsInert(cfg, cs[i], on);
      }
      HoldAllForall(ws, on, false);
    } else if !f.Flag? && Flat(f.children) {
      FlatCount(cfg, f.children, on, false);
      NoFreeOperands(cfg, f.children);
    }
  }

  lemma {:induction false} NoFreeOperands(cfg: Config, cs: seq<Formula>)
    requires Flat(cs) && forall g :: !Get(cfg, g).Ceded?
    ensures FreeOperands(FlagOperands(cfg, cs)) == []
  {
    if cs != [] {
      NoFreeOperands(cfg, cs[1..]);
      assert FlagOperands(cfg, cs)[1..] == FlagOperands(cfg, cs[1..]);
    }
  }
}
