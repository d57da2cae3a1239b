/** The solver's table of synthetic packages, in which the nodes that several sources make of one flag are merged. */
module Registry {
  import opened Solving
  import opened RequiredUse
  import opened Composing

  // ---------- well-formed nodes ----------

  /** Distinct versions, off and on for a flag, and blockers at versions of the node only. */
  predicate NodeOK(c: VirtualChoice) {
    && (forall i, j :: 0 <= i < j < |c.versions| ==> c.versions[i].ver != c.versions[j].ver)
    && (c.pkg.Decision? ==> |c.versions| == 2 && c.versions[0].ver == OFF && c.versions[1].ver == ON)
    && (forall q :: q in c.blockers ==> OfVersion(c.versions, q.ver))
  }

  predicate OfVersion(bs: seq<Branch>, v: nat) {
    exists b :: b in bs && b.ver == v
  }

  /** Well-formed nodes, the choices among them with ids of their own, from `lo` up to `hi`. */
  ghost predicate OwnIds(nodes: seq<VirtualChoice>, lo: nat, hi: nat) {
    && lo <= hi
    && (forall c :: c in nodes ==> NodeOK(c) && (c.pkg.Decision? || IsId(c.pkg, lo, hi)))
    && forall i, j :: 0 <= i < j < |nodes| && !nodes[i].pkg.Decision? ==> nodes[i].pkg != nodes[j].pkg
  }

  lemma OwnIdsConcat(a: seq<VirtualChoice>, b: seq<VirtualChoice>, lo: nat, mid: nat, hi: nat)
    requires OwnIds(a, lo, mid) && OwnIds(b, mid, hi)
    ensures OwnIds(a + b, lo, hi)
  {
    hide NodeOK;
    forall i, j | 0 <= i < j < |a + b| && !(a + b)[i].pkg.Decision?
      ensures (a + b)[i].pkg != (a + b)[j].pkg
    {
      if i < |a| <= j {
        assert a[i] in a && b[j - |a|] in b;
      }
    }
  }

  lemma OwnIdsPush(a: seq<VirtualChoice>, c: VirtualChoice, lo: nat, mid: nat, hi: nat)
    requires OwnIds(a, mid, hi) && lo <= mid && NodeOK(c) && (c.pkg.Decision? || (IsId(c.pkg, lo, hi) && c.pkg.id < mid))
    ensures OwnIds(a + [c], lo, hi)
  {
    hide NodeOK;
    forall i, j | 0 <= i < j < |a + [c]| && !(a + [c])[i].pkg.Decision?
      ensures (a + [c])[i].pkg != (a + [c])[j].pkg
    {
      assert a[i] in a;
    }
  }

  // ---------- registration ----------

  /** What a version of a synthetic package requires, and the blockers that come with it. */
  datatype Entry = Entry(deps: seq<Req>, blockers: seq<Atom>)

  type Versions = map<nat, Entry>
  type Packages = map<Pkg, Versions>

  /** A version that is there already gets the requirements as further ones. */
  function Put(vs: Versions, b: Branch): Versions {
    vs[b.ver := if b.ver in vs then vs[b.ver].(deps := vs[b.ver].deps + b.deps) else Entry(b.deps, [])]
  }

  function PutAll(vs: Versions, bs: seq<Branch>): Versions {
    if bs == [] then vs else Put(PutAll(vs, bs[..|bs|-1]), bs[|bs|-1])
  }

  /** Blockers go to a version that is there. */
  function Attach(vs: Versions, q: Placed): Versions {
    if q.atoms != [] && q.ver in vs then vs[q.ver := vs[q.ver].(blockers := vs[q.ver].blockers + q.atoms)] else vs
  }

  function AttachAll(vs: Versions, ps: seq<Placed>): Versions {
    if ps == [] then vs else Attach(AttachAll(vs, ps[..|ps|-1]), ps[|ps|-1])
  }

  function RegisterOne(pk: Packages, c: VirtualChoice): Packages {
    pk[c.pkg := AttachAll(PutAll(if c.pkg in pk then pk[c.pkg] else map[], c.versions), c.blockers)]
  }

  function RegisterAll(pk: Packages, choices: seq<VirtualChoice>): Packages {
    if choices == [] then pk else RegisterOne(RegisterAll(pk, choices[..|choices|-1]), choices[|choices|-1])
  }

  method RegisterVirtualChoices(packages: Packages, choices: seq<VirtualChoice>) returns (r: Packages)
    ensures r == RegisterAll(packages, choices)
  {
    r := packages;
    for i := 0 to |choices|
      invariant r == RegisterAll(packages, choices[..i])
    {
      var vc := choices[i];
      var start := if vc.pkg in r then r[vc.pkg] else map[];
      var entry := start;
      for k := 0 to |vc.versions|
        invariant entry == PutAll(start, vc.versions[..k])
      {
        var b := vc.versions[k];
        if b.ver in entry {
          entry := entry[b.ver := entry[b.ver].(deps := entry[b.ver].deps + b.deps)];
        } else {
          entry := entry[b.ver := Entry(b.deps, [])];
        }
        assert vc.versions[..k+1][..k] == vc.versions[..k];
      }
      assert vc.versions[..|vc.versions|] == vc.versions;
      ghost var put := entry;
      for k := 0 to |vc.blockers|
        invariant entry == AttachAll(put, vc.blockers[..k])
      {
        var q := vc.blockers[k];
        if q.atoms != [] && q.ver in entry {
          entry := entry[q.ver := entry[q.ver].(blockers := entry[q.ver].blockers + q.atoms)];
        }
        assert vc.blockers[..k+1][..k] == vc.blockers[..k];
      }
      assert vc.blockers[..|vc.blockers|] == vc.blockers;
      r := r[vc.pkg := entry];
      assert choices[..i+1][..i] == choices[..i];
    }
    assert choices[..|choices|] == choices;
  }

  // ---------- what the table holds ----------

  /** All requirements that the list attaches to a version of a package, in order. */
  function DepsAt(choices: seq<VirtualChoice>, q: Pkg, v: nat): seq<Req> {
    if choices == [] then []
    else
      var c := choices[|choices|-1];
      DepsAt(choices[..|choices|-1], q, v) + if c.pkg == q then BranchDeps(c.versions, v) else []
  }

  function BranchDeps(bs: seq<Branch>, v: nat): seq<Req> {
    if bs == [] then []
    else BranchDeps(bs[..|bs|-1], v) + if bs[|bs|-1].ver == v then bs[|bs|-1].deps else []
  }

  function BlockersAt(choices: seq<VirtualChoice>, q: Pkg, v: nat): seq<Atom> {
    if choices == [] then []
    else
      var c := choices[|choices|-1];
      BlockersAt(choices[..|choices|-1], q, v) + if c.pkg == q then PlacedAt(c.blockers, v) else []
  }

  function PlacedAt(ps: seq<Placed>, v: nat): seq<Atom> {
    if ps == [] then []
    else PlacedAt(ps[..|ps|-1], v) + if ps[|ps|-1].ver == v then ps[|ps|-1].atoms else []
  }

  predicate Offered(choices: seq<VirtualChoice>, q: Pkg, v: nat) {
    exists c :: c in choices && c.pkg == q && OfVersion(c.versions, v)
  }

  predicate Made(choices: seq<VirtualChoice>, q: Pkg) {
    exists c :: c in choices && c.pkg == q
  }

  /** The table holds exactly the packages, versions, requirements and blockers of the list. */
  ghost predicate Registered(pk: Packages, choices: seq<VirtualChoice>) {
    forall q ::
      && (q in pk <==> Made(choices, q))
      && (q in pk ==> forall v ::
            && (v in pk[q] <==> Offered(choices, q, v))
            && (v in pk[q] ==> pk[q][v] == Entry(DepsAt(choices, q, v), BlockersAt(choices, q, v))))
  }

  function At(vs: Versions, v: nat): Entry {
    if v in vs then vs[v] else Entry([], [])
  }

  lemma OfVersionPush(bs: seq<Branch>, v: nat)
    requires bs != []
    ensures OfVersion(bs, v) <==> OfVersion(bs[..|bs|-1], v) || bs[|bs|-1].ver == v
  {
    var n := |bs| - 1;
    if OfVersion(bs, v) {
      var k :| 0 <= k < |bs| && bs[k].ver == v;
      assert k < n ==> bs[..n][k] == bs[k];
    }
    if bs[n].ver == v {
      assert bs[n] in bs;
    }
  }

  lemma PutAt(vs: Versions, b: Branch, v: nat)
    ensures v in Put(vs, b) <==> v in vs || b.ver == v
    ensures At(Put(vs, b), v) == if b.ver == v then At(vs, v).(deps := At(vs, v).deps + b.deps) else At(vs, v)
  {
  }

  lemma {:induction false} PutAllAt(vs: Versions, bs: seq<Branch>, v: nat)
    ensures v in PutAll(vs, bs) <==> v in vs || OfVersion(bs, v)
    ensures At(PutAll(vs, bs), v) == At(vs, v).(deps := At(vs, v).deps + BranchDeps(bs, v))
  {
    hide Put, At, OfVersion;
    if bs == [] {
      NoVersions(v);
    } else {
      var init, b := bs[..|bs|-1], bs[|bs|-1];
      PutAllAt(vs, init, v);
      PutAt(PutAll(vs, init), b, v);
      OfVersionPush(bs, v);
    }
  }

  lemma NoVersions(v: nat)
    ensures !OfVersion([], v)
  {
  }

  lemma {:induction false} AttachAllAt(vs: Versions, ps: seq<Placed>, v: nat)
    ensures v in AttachAll(vs, ps) <==> v in vs
    ensures v in vs ==> AttachAll(vs, ps)[v] == vs[v].(blockers := vs[v].blockers + PlacedAt(ps, v))
  {
    if ps != [] {
      AttachAllAt(vs, ps[..|ps|-1], v);
    }
  }

  lemma {:induction false} NotPlaced(bs: seq<Branch>, ps: seq<Placed>, v: nat)
    requires !OfVersion(bs, v) && forall q :: q in ps ==> OfVersion(bs, q.ver)
    ensures PlacedAt(ps, v) == []
  {
    if ps != [] {
      NotPlaced(bs, ps[..|ps|-1], v);
      assert ps[|ps|-1] in ps;
    }
  }

  lemma {:induction false} NotBranch(bs: seq<Branch>, v: nat)
    requires !OfVersion(bs, v)
    ensures BranchDeps(bs, v) == []
  {
    if bs != [] {
      OfVersionPush(bs, v);
      NotBranch(bs[..|bs|-1], v);
    }
  }

  /** What is not offered has nothing attached. */
  lemma {:induction false} NotOffered(choices: seq<VirtualChoice>, q: Pkg, v: nat)
    requires !Offered(choices, q, v) && forall c :: c in choices ==> NodeOK(c)
    ensures DepsAt(choices, q, v) == [] && BlockersAt(choices, q, v) == []
  {
    if choices != [] {
      var c := choices[|choices|-1];
      NotOffered(choices[..|choices|-1], q, v);
      if c.pkg == q {
        NotBranch(c.versions, v);
        NotPlaced(c.versions, c.blockers, v);
      }
    }
  }

  lemma OfferedPush(choices: seq<VirtualChoice>, q: Pkg, v: nat)
    requires choices != []
    ensures var init, c := choices[..|choices|-1], choices[|choices|-1];
            && (Offered(choices, q, v) <==> Offered(init, q, v) || (c.pkg == q && OfVersion(c.versions, v)))
            && (Made(choices, q) <==> Made(init, q) || c.pkg == q)
  {
    var init, c := choices[..|choices|-1], choices[|choices|-1];
    assert choices == init + [c];
    assert forall d :: d in choices <==> d in init || d == c;
  }

  /** Registering a list of well-formed nodes: nothing lost, nothing added, everything at its package and version. */
  lemma {:induction false} RegisterExact(choices: seq<VirtualChoice>)
    requires forall c :: c in choices ==> NodeOK(c)
    ensures Registered(RegisterAll(map[], choices), choices)
  {
    hide NodeOK, Offered, Made, OfVersion;
    if choices == [] {
      forall q
        ensures !Made(choices, q)
      {
        NothingMade(q);
      }
    } else {
      var init, c := choices[..|choices|-1], choices[|choices|-1];
      var before := RegisterAll(map[], init);
      RegisterExact(init);
      forall q
        ensures q in RegisterAll(map[], choices) <==> Made(choices, q)
      {
        OfferedPush(choices, q, 0);
      }
      forall q, v | Made(choices, q)
        ensures var pk := RegisterAll(map[], choices);
                && q in pk && (v in pk[q] <==> Offered(choices, q, v))
                && (v in pk[q] ==> pk[q][v] == Entry(DepsAt(choices, q, v), BlockersAt(choices, q, v)))
      {
        RegisterStep(choices, before, q, v);
      }
    }
  }

  lemma NothingMade(q: Pkg)
    ensures !Made([], q)
  {
  }

  lemma RegisterStep(choices: seq<VirtualChoice>, pk: Packages, q: Pkg, v: nat)
    requires choices != [] && (forall c :: c in choices ==> NodeOK(c)) && Made(choices, q)
    requires Registered(pk, choices[..|choices|-1])
    ensures var r := RegisterOne(pk, choices[|choices|-1]);
            && q in r && (v in r[q] <==> Offered(choices, q, v))
            && (v in r[q] ==> r[q][v] == Entry(DepsAt(choices, q, v), BlockersAt(choices, q, v)))
  {
    hide NodeOK, Offered, Made, OfVersion, PutAll, AttachAll, PlacedAt, BranchDeps;
    var init, c := choices[..|choices|-1], choices[|choices|-1];
    OfferedPush(choices, q, v);
    if c.pkg == q {
      var start := if q in pk then pk[q] else map[];
      if !Offered(init, q, v) {
        NotOffered(init, q, v);
      }
      if q !in pk {
        NotMade(init, q, v);
      }
      assert At(start, v) == Entry(DepsAt(init, q, v), BlockersAt(init, q, v));
      PutAllAt(start, c.versions, v);
      AttachAllAt(PutAll(start, c.versions), c.blockers, v);
    }
  }

  lemma NotMade(choices: seq<VirtualChoice>, q: Pkg, v: nat)
    requires !Made(choices, q)
    ensures !Offered(choices, q, v)
  {
  }

  // ---------- what the table demands ----------

  /** Every selected package of the table is at one of its versions, with that version's requirements met. */
  ghost predicate Obeys(sel: Selection, pk: Packages) {
    forall q :: q in pk && q in sel ==> sel[q] in pk[q] && MeetsAll(sel, pk[q][sel[q]].deps)
  }

  lemma {:induction false} InBranchDeps(bs: seq<Branch>, v: nat, r: Req)
    ensures r in BranchDeps(bs, v) <==> exists b :: b in bs && b.ver == v && r in b.deps
  {
    if bs != [] {
      var init, b := bs[..|bs|-1], bs[|bs|-1];
      InBranchDeps(init, v, r);
      assert bs == init + [b];
      assert forall d :: d in bs <==> d in init || d == b;
    }
  }

  predicate Attaches(c: VirtualChoice, q: Pkg, v: nat, r: Req) {
    c.pkg == q && exists b :: b in c.versions && b.ver == v && r in b.deps
  }

  lemma {:induction false} InDepsAt(choices: seq<VirtualChoice>, q: Pkg, v: nat, r: Req)
    ensures r in DepsAt(choices, q, v) <==> exists c :: c in choices && Attaches(c, q, v, r)
  {
    hide Attaches;
    if choices != [] {
      var init, c := choices[..|choices|-1], choices[|choices|-1];
      InDepsAt(init, q, v, r);
      LastAttaches(c, q, v, r);
      assert choices == init + [c];
      assert forall d :: d in choices <==> d in init || d == c;
    }
  }

  lemma LastAttaches(c: VirtualChoice, q: Pkg, v: nat, r: Req)
    ensures Attaches(c, q, v, r) <==> c.pkg == q && r in BranchDeps(c.versions, v)
  {
    InBranchDeps(c.versions, v, r);
  }

  /** Nodes of one package offer the same versions. */
  ghost predicate Uniform(choices: seq<VirtualChoice>) {
    && (forall c :: c in choices ==> NodeOK(c))
    && forall c, d, v: nat :: c in choices && d in choices && c.pkg == d.pkg && OfVersion(c.versions, v) ==>
         OfVersion(d.versions, v)
  }

  lemma OwnIdsUniform(choices: seq<VirtualChoice>, lo: nat, hi: nat)
    requires OwnIds(choices, lo, hi)
    ensures Uniform(choices)
  {
    forall c, d, v: nat | c in choices && d in choices && c.pkg == d.pkg && OfVersion(c.versions, v)
      ensures OfVersion(d.versions, v)
    {
      if c.pkg.Decision? {
        assert d.versions[v] in d.versions;
      } else {
        var i :| 0 <= i < |choices| && choices[i] == c;
        var j :| 0 <= j < |choices| && choices[j] == d;
      }
    }
  }

  /** The table binds a selection exactly as the nodes registered in it do, also where nodes were merged. */
  lemma RegisterConsistent(choices: seq<VirtualChoice>, sel: Selection)
    requires Uniform(choices)
    ensures Obeys(sel, RegisterAll(map[], choices)) <==> Consistent(sel, choices)
  {
    hide NodeOK, RegisterAll, DepsAt, BlockersAt, TakesBranch, MeetsAll;
    var pk := RegisterAll(map[], choices);
    RegisterExact(choices);
    if Obeys(sel, pk) {
      forall c: VirtualChoice | c in choices && c.pkg in sel
        ensures exists b :: b in c.versions && TakesBranch(sel, c, b)
      {
        assert Made(choices, c.pkg);
        ObeysNode(choices, sel, c);
      }
    }
    if Consistent(sel, choices) {
      forall q | q in pk && q in sel
        ensures sel[q] in pk[q] && MeetsAll(sel, pk[q][sel[q]].deps)
      {
        ConsistentMeets(choices, sel, q);
      }
    }
  }

  lemma ObeysNode(choices: seq<VirtualChoice>, sel: Selection, c: VirtualChoice)
    requires Uniform(choices) && c in choices && c.pkg in sel
    requires Offered(choices, c.pkg, sel[c.pkg]) && MeetsAll(sel, DepsAt(choices, c.pkg, sel[c.pkg]))
    ensures exists b :: b in c.versions && TakesBranch(sel, c, b)
  {
    hide NodeOK;
    var v := sel[c.pkg];
    assert OfVersion(c.versions, v);
    var b :| b in c.versions && b.ver == v;
    forall r | r in b.deps
      ensures Meets(sel, r)
    {
      assert Attaches(c, c.pkg, v, r);
      InDepsAt(choices, c.pkg, v, r);
    }
    assert TakesBranch(sel, c, b);
  }

  lemma ConsistentMeets(choices: seq<VirtualChoice>, sel: Selection, q: Pkg)
    requires Uniform(choices) && Consistent(sel, choices) && Made(choices, q) && q in sel
    ensures Offered(choices, q, sel[q]) && MeetsAll(sel, DepsAt(choices, q, sel[q]))
  {
    var v := sel[q];
    var c :| c in choices && c.pkg == q;
    var b :| b in c.versions && TakesBranch(sel, c, b);
    assert OfVersion(c.versions, v);
    forall r | r in DepsAt(choices, q, v)
      ensures Meets(sel, r)
    {
      InDepsAt(choices, q, v, r);
      var d :| d in choices && Attaches(d, q, v, r);
      var x :| x in d.versions && x.ver == v && r in x.deps;
      var y :| y in d.versions && TakesBranch(sel, d, y);
      SameBranch(d, x, y);
    }
  }

  lemma SameBranch(c: VirtualChoice, a: Branch, b: Branch)
    requires NodeOK(c) && a in c.versions && b in c.versions && a.ver == b.ver
    ensures a == b
  {
    var i :| 0 <= i < |c.versions| && c.versions[i] == a;
    var j :| 0 <= j < |c.versions| && c.versions[j] == b;
  }
}
