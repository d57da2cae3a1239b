/** The vocabulary of labelled dependencies that both solvers share. */
module Dependencies {

  /** The five dependency variables. */
  datatype DepClass = Depend | Rdepend | Bdepend | Pdepend | Idepend

  /** `from` depends on `to`. */
  datatype DepEdge = DepEdge(from: nat, to: nat, kind: DepClass)
}
