/** What a constraint set means to the solver: packages at versions, and choices among branches. */
module Solving {

  type Flag = string

  /**
   * The nodes of the solver: a real package (its slot empty when it is not slotted), a USE-flag decision,
   * or one of the two kinds of choice.
   */
  datatype Pkg =
    | Real(name: string, slot: string)
    | Decision(flag: Flag)
    | Choice(id: nat)
    | SlotChoice(id: nat)

  /** A set of versions; real version ranges are kept abstract as the versions they admit. */
  datatype VerSet = Any | Only(ver: nat) | Among(vers: set<nat>)

  predicate Admits(vs: VerSet, v: nat) {
    match vs
    case Any => true
    case Only(w) => v == w
    case Among(ws) => v in ws
  }

  datatype Req = Req(pkg: Pkg, vers: VerSet)

  /** One version of a synthetic package and what choosing it requires. */
  datatype Branch = Branch(ver: nat, deps: seq<Req>)

  /** A dependency atom; `slot` is empty unless the atom names one. */
  datatype Atom = Atom(cpn: string, vers: VerSet, slot: string, blocker: bool)

  /** The blockers that come with one version of a synthetic package. */
  datatype Placed = Placed(ver: nat, atoms: seq<Atom>)

  datatype VirtualChoice = VirtualChoice(pkg: Pkg, versions: seq<Branch>, blockers: seq<Placed> := [])

  /** The version selected for each package that is part of the solution. */
  type Selection = map<Pkg, nat>

  predicate Meets(sel: Selection, r: Req) {
    r.pkg in sel && Admits(r.vers, sel[r.pkg])
  }

  predicate MeetsAll(sel: Selection, reqs: seq<Req>) {
    forall r :: r in reqs ==> Meets(sel, r)
  }

  predicate TakesBranch(sel: Selection, c: VirtualChoice, b: Branch) {
    b in c.versions && c.pkg in sel && b.ver == sel[c.pkg] && MeetsAll(sel, b.deps)
  }

  /** Every selected synthetic package is at one of its versions, with that version's requirements met. */
  predicate Consistent(sel: Selection, choices: seq<VirtualChoice>) {
    forall c :: c in choices && c.pkg in sel ==> exists b :: b in c.versions && TakesBranch(sel, c, b)
  }

  predicate Solves(sel: Selection, reqs: seq<Req>, choices: seq<VirtualChoice>) {
    MeetsAll(sel, reqs) && Consistent(sel, choices)
  }
}
