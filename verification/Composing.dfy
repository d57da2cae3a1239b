/** How parts of an encoding with separate ids are solvable together. */
module Composing {
  import opened Solving
  import opened RequiredUse

  predicate IsId(p: Pkg, lo: nat, hi: nat) {
    (p.Choice? || p.SlotChoice?) && lo <= p.id < hi
  }

  predicate IsBase(p: Pkg) {
    p.Real? || p.Decision?
  }

  /** Requirements and choices whose synthetic choice nodes all have ids from `lo` up to `hi`. */
  ghost predicate Closed(reqs: seq<Req>, choices: seq<VirtualChoice>, lo: nat, hi: nat) {
    && (forall r :: r in reqs ==> IsBase(r.pkg) || IsId(r.pkg, lo, hi))
    && (forall c :: c in choices ==> c.pkg.Decision? || IsId(c.pkg, lo, hi))
    && (forall c, b, r :: c in choices && b in c.versions && r in b.deps ==> IsBase(r.pkg) || IsId(r.pkg, lo, hi))
  }

  /** `env` selects real packages and flag values only. */
  ghost predicate BaseOnly(env: Selection) {
    forall p :: p in env ==> IsBase(p)
  }

  ghost predicate Over(sel: Selection, env: Selection) {
    forall p :: IsBase(p) ==> (p in sel <==> p in env) && (p in env ==> sel[p] == env[p])
  }

  /** The choices can be settled so that, with `env`, everything is met. */
  ghost predicate Solvable(reqs: seq<Req>, choices: seq<VirtualChoice>, env: Selection) {
    exists sel :: Solves(sel, reqs, choices) && Over(sel, env)
  }

  function Slice(sel: Selection, lo: nat, hi: nat): Selection {
    map p | p in sel && IsId(p, lo, hi) :: sel[p]
  }

  /** A closed part looks at nothing outside its own ids and the environment. */
  lemma SliceMeets(sel: Selection, env: Selection, whole: Selection, reqs: seq<Req>, choices: seq<VirtualChoice>, lo: nat, hi: nat)
    requires Closed(reqs, choices, lo, hi) && Over(sel, env) && Over(whole, env)
    requires forall p :: IsId(p, lo, hi) ==> (p in whole <==> p in sel) && (p in sel ==> whole[p] == sel[p])
    requires Solves(sel, reqs, choices)
    ensures Solves(whole, reqs, choices)
  {
  }

  lemma SolvesSplit(sel: Selection, r1: seq<Req>, c1: seq<VirtualChoice>, r2: seq<Req>, c2: seq<VirtualChoice>)
    ensures Solves(sel, r1 + r2, c1 + c2) <==> Solves(sel, r1, c1) && Solves(sel, r2, c2)
  {
  }

  /** Parts with separate ids are solvable together exactly when each is. */
  lemma Join(r1: seq<Req>, c1: seq<VirtualChoice>, lo: nat, mid: nat, r2: seq<Req>, c2: seq<VirtualChoice>, hi: nat, env: Selection)
    requires Closed(r1, c1, lo, mid) && Closed(r2, c2, mid, hi) && lo <= mid <= hi && BaseOnly(env)
    ensures Solvable(r1 + r2, c1 + c2, env) <==> Solvable(r1, c1, env) && Solvable(r2, c2, env)
  {
    if Solvable(r1 + r2, c1 + c2, env) {
      var sel :| Solves(sel, r1 + r2, c1 + c2) && Over(sel, env);
      SolvesSplit(sel, r1, c1, r2, c2);
    }
    if Solvable(r1, c1, env) && Solvable(r2, c2, env) {
      var s1 :| Solves(s1, r1, c1) && Over(s1, env);
      var s2 :| Solves(s2, r2, c2) && Over(s2, env);
      var whole := env + Slice(s1, lo, mid) + Slice(s2, mid, hi);
      assert Over(whole, env);
      SliceMeets(s1, env, whole, r1, c1, lo, mid);
      SliceMeets(s2, env, whole, r2, c2, mid, hi);
      SolvesSplit(whole, r1, c1, r2, c2);
    }
  }

  lemma JoinClosed(r1: seq<Req>, c1: seq<VirtualChoice>, lo: nat, mid: nat, r2: seq<Req>, c2: seq<VirtualChoice>, hi: nat)
    requires Closed(r1, c1, lo, mid) && Closed(r2, c2, mid, hi) && lo <= mid <= hi
    ensures Closed(r1 + r2, c1 + c2, lo, hi)
  {
  }

  lemma ClosedNone(reqs: seq<Req>, nodes: seq<VirtualChoice>, lo: nat, hi: nat)
    requires Closed(reqs, nodes, lo, hi)
    ensures Closed([], nodes, lo, hi)
  {
  }

  /** A part's requirements stay solvable beside a further part exactly if that part's nodes are solvable unasked. */
  lemma JoinUnasked(deps: seq<Req>, nodes: seq<VirtualChoice>, lo: nat, mid: nat, inside: seq<VirtualChoice>, hi: nat,
                    env: Selection)
    requires Closed(deps, nodes, lo, mid) && Closed([], inside, mid, hi) && lo <= mid <= hi && BaseOnly(env)
    ensures Solvable(deps, nodes + inside, env) <==> Solvable(deps, nodes, env) && Solvable([], inside, env)
  {
    assert deps + [] == deps;
    Join(deps, nodes, lo, mid, [], inside, hi, env);
  }

  lemma JoinAsked(nodes: seq<VirtualChoice>, lo: nat, mid: nat, deps: seq<Req>, inside: seq<VirtualChoice>, hi: nat,
                  env: Selection)
    requires Closed([], nodes, lo, mid) && Closed(deps, inside, mid, hi) && lo <= mid <= hi && BaseOnly(env)
    ensures Solvable(deps, nodes + inside, env) <==> Solvable([], nodes, env) && Solvable(deps, inside, env)
  {
    assert [] + deps == deps;
    Join([], nodes, lo, mid, deps, inside, hi, env);
  }

  lemma EmptySolvable(env: Selection)
    requires BaseOnly(env)
    ensures Solvable([], [], env)
  {
    assert Solves(env, [], []) && Over(env, env);
  }

  /** The choice `c` taken at version `b`, with the choices of `sel` inside. */
  lemma TakenSolves(c: VirtualChoice, b: Branch, nested: seq<VirtualChoice>, lo: nat, hi: nat, env: Selection)
    requires Closed(b.deps, nested, lo, hi) && !IsBase(c.pkg) && !IsId(c.pkg, lo, hi) && BaseOnly(env)
    requires b in c.versions && Solvable(b.deps, nested, env)
    ensures Solvable([Req(c.pkg, Any)], nested + [c], env)
  {
    var sel :| Solves(sel, b.deps, nested) && Over(sel, env);
    var whole := env + Slice(sel, lo, hi) + map[c.pkg := b.ver];
    assert Over(whole, env);
    SliceMeets(sel, env, whole, b.deps, nested, lo, hi);
    assert TakesBranch(whole, c, b);
    assert Solves(whole, [Req(c.pkg, Any)], nested + [c]);
  }

  /** A choice that nothing asks for is left alone. */
  lemma UntakenSolves(c: VirtualChoice, nested: seq<VirtualChoice>, lo: nat, hi: nat, env: Selection)
    requires Closed([], nested, lo, hi) && !IsBase(c.pkg) && !IsId(c.pkg, lo, hi) && BaseOnly(env)
    requires Solvable([], nested, env)
    ensures Solvable([], nested + [c], env)
  {
    var sel :| Solves(sel, [], nested) && Over(sel, env);
    var whole := env + Slice(sel, lo, hi);
    assert Over(whole, env);
    SliceMeets(sel, env, whole, [], nested, lo, hi);
    assert Solves(whole, [], nested + [c]);
  }

  /** A choice that is asked for is solvable exactly when one of its branches is, over the nodes inside all of them. */
  lemma Choose(c: VirtualChoice, nested: seq<VirtualChoice>, lo: nat, hi: nat, env: Selection)
    requires Closed([], nested, lo, hi) && forall b :: b in c.versions ==> Closed(b.deps, nested, lo, hi)
    requires !IsBase(c.pkg) && !IsId(c.pkg, lo, hi) && BaseOnly(env)
    ensures Solvable([Req(c.pkg, Any)], nested + [c], env) <==> exists b :: b in c.versions && Solvable(b.deps, nested, env)
    ensures Solvable([], nested + [c], env) <==> Solvable([], nested, env)
  {
    if b :| b in c.versions && Solvable(b.deps, nested, env) {
      TakenSolves(c, b, nested, lo, hi, env);
    }
    if Solvable([Req(c.pkg, Any)], nested + [c], env) {
      var sel :| Solves(sel, [Req(c.pkg, Any)], nested + [c]) && Over(sel, env);
      assert Meets(sel, Req(c.pkg, Any)) && c in nested + [c];
      var b: Branch :| b in c.versions && TakesBranch(sel, c, b);
      assert Solves(sel, b.deps, nested);
    }
    if Solvable([], nested, env) {
      UntakenSolves(c, nested, lo, hi, env);
    }
    if Solvable([], nested + [c], env) {
      var sel :| Solves(sel, [], nested + [c]) && Over(sel, env);
      assert Solves(sel, [], nested);
    }
  }

  /** A flag node asks for its requirements exactly while the flag has the gating value, pulled in or not. */
  lemma Decide(c: VirtualChoice, active: nat, deps: seq<Req>, nested: seq<VirtualChoice>, env: Selection)
    requires c.pkg.Decision? && active <= ON && BaseOnly(env)
    requires c.versions == [Branch(OFF, if active == OFF then deps else []), Branch(ON, if active == ON then deps else [])]
    ensures Solvable([], nested + [c], env) <==>
              Solvable([], nested, env)
              && (c.pkg in env ==> env[c.pkg] <= ON && (env[c.pkg] == active ==> Solvable(deps, nested, env)))
    ensures Solvable([Req(c.pkg, Any)], nested + [c], env) <==> c.pkg in env && Solvable([], nested + [c], env)
  {
    var all := nested + [c];
    if Solvable([], all, env) {
      var sel :| Solves(sel, [], all) && Over(sel, env);
      assert Solves(sel, [], nested) && c in all;
      if c.pkg in env {
        var b: Branch :| b in c.versions && TakesBranch(sel, c, b);
        assert env[c.pkg] == active ==> Solves(sel, deps, nested);
        assert Solves(sel, [Req(c.pkg, Any)], all);
      }
    }
    if Solvable([Req(c.pkg, Any)], all, env) {
      var sel :| Solves(sel, [Req(c.pkg, Any)], all) && Over(sel, env);
      assert Meets(sel, Req(c.pkg, Any)) && Solves(sel, [], all);
    }
    if Solvable([], nested, env) && (c.pkg in env ==> env[c.pkg] <= ON && (env[c.pkg] == active ==> Solvable(deps, nested, env))) {
      DecideSolves(c, active, deps, nested, env);
    }
  }

  lemma DecideSolves(c: VirtualChoice, active: nat, deps: seq<Req>, nested: seq<VirtualChoice>, env: Selection)
    requires c.pkg.Decision? && active <= ON && Solvable([], nested, env)
    requires c.versions == [Branch(OFF, if active == OFF then deps else []), Branch(ON, if active == ON then deps else [])]
    requires c.pkg in env ==> env[c.pkg] <= ON && (env[c.pkg] == active ==> Solvable(deps, nested, env))
    ensures Solvable([], nested + [c], env)
  {
    var taken := if c.pkg in env && env[c.pkg] == active then deps else [];
    var sel :| Solves(sel, taken, nested) && Over(sel, env);
    if c.pkg in env {
      assert TakesBranch(sel, c, Branch(env[c.pkg], taken));
    }
    assert Solves(sel, [], nested + [c]);
  }
}
