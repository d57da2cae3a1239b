# Verified model of a Gentoo dependency resolver

This project models the algorithmic core of a Gentoo package-management
workspace and proves what those algorithms guarantee for every input.

* **Install-order scheduler** (`Dependencies`, `Digraph`, `Tarjan`, `Kahn`, `Sorting`,
  `CycleOrder`, `PassOne`, `Repair`, `InstallOrder`, `OrderUnique`, `DepGraph`). A labelled
  dependency graph is built by expanding virtual nodes, condensed by an iterative
  Tarjan pass, ordered by a heap-driven Kahn pass with a greedy rule inside each
  cycle, and repaired by a second pass that locks good edges and restores inverted
  ones while the graph stays acyclic.
* **Constraint compiler** (`Solving`, `Composing`, `Registry`, `RequiredUse`, `UseEncoder`, `Pins`,
  `DepTree`, `DepImage`, `DepMeaning`, `DepConvert`, `JointEncoding`). `REQUIRED_USE` formulas and
  dependency trees become
  "package at version requires package in range" clauses with synthetic choice and
  decision nodes. `Solving.Solves` says what a solution of such clauses is, and
  does not mention where they came from; formulas and trees have truth definitions
  of their own (`RequiredUse.Holds`, `DepTree.Matches`). The compiler is proved
  against both.
* **Concurrent interner** (`Interner`): a step relation over any number of threads,
  with one step per shared-memory access.
* **SPDX to `LICENSE`** (`LicenseTokens`, `License`): a postfix stack machine, a
  flattened tree and a context-sensitive printer. `LicenseTokens.Parse` reads
  token lists back, and truth is compared before and after.
* **The resolvo install order** (`ResolvoOrder`): dependency walk, FIFO Kahn,
  and the exact cyclic remainder.
* **In-place ebuild edits** (`EbuildText`, `EbuildEdit`, `EbuildRegions`, `EbuildRun`):
  quoted values behind markers and the feature list, as lenses, and runs of both.

`dafny verify dfyconfig.toml` checks everything.

## How the code is represented

* Vectors indexed by node are arrays or sequences; the marker `usize::MAX` is -1.
  `reaches` keeps its `u32` epoch with wrap-around and the refill of the marks.
* Heaps and hash or tree sets are sets: a heap yields some best element, a hash
  container is walked in an arbitrary order. A result that does not depend on that
  order is proved so.
* `sort` is a stable insertion sort; the relied-upon facts are proved of it.
* Package/version pairs of a solution are named by position. A package key is an
  integer rank, so ties and distinct keys are both covered.
* Version ranges are a membership test (`Solving.VerSet`). Flags, atoms and licenses
  are strings; a mapping value is its list of whitespace-separated tokens, and SPDX
  keys arrive lower-cased.
* Fresh choice ids are a counter passed in, as `next_choice_id` is process-wide.
* A HashMap keyed by solvable in `ResolvoOrder` is an array over the pool in which
  solvables outside the solution have no edges.

## Fixed flags and the retry

`portage-atom-pubgrub/docs/required-use-level-c.md` section 8 promises that a `REQUIRED_USE` made
unsatisfiable by a hard pin still ends in a plan. The encoding alone does not give this: its clauses
can be without solution, under a guard asked for elsewhere, in an exactly-one without any guard, or
under both values of a guard (`PinnedUnderForcedGuard`, `PinnedMemberForcesOff`, `PinnedUnderBothGuards`).
What gives it is the second attempt with nothing ceded
(`portage-cli/src/query/depgraph/round/solve.rs:173-191`): there the clauses always have a solution
(`FixedSolvable`), and beside dependencies they rule nothing out (`JointEncoding.FixedExact`). So,
dependencies apart, the two attempts always have an outcome, and the second is made exactly if what is encoded has no
model over the ceded flags (`SolveUse`, `SolutionExact`).

`PinFree` names the places where a pin acts: a false fixed flag under a ceded guard, a fixed guard
that switches something on, and fixed members of a group that bear on its free ones. Without such
places no model is lost to a pin (`PinFreeKeeps`), and for a group of distinct flags these are
exactly the places (`GroupPinsExact`).

## Where the code and its documentation differ

* `portage-metadata/src/required_use.rs` lets an empty any-of match for EAPI 0 to 6,
  but behind a ceded guard it makes the encoder force the guard off
  (`EmptyAnyOfOverConstrains`). `GuardedAnyOfExact` shows this happens exactly for an
  any-of without children, and `WeakenSoundMatching` that without such any-ofs the
  encoder over-constrains under neither reading.
* A ceded flag has one node for the whole package, so what hangs on its value is asked for wherever
  the conditional stands: inside a conditional that is not active, in an alternative that is not
  taken, or in a version that is not selected. `DepTree.Pulled` is exactly this surplus. Clauses
  are solvable exactly if the tree reads true and is pulled (`DepMeaning.ImageMeans`), so they never
  accept more than that reading; `NestedRefused` and `JointEncoding.OtherVersionBinds` are inputs on
  which they accept less, `NestedExact` says when one conditional in another is encoded as it reads,
  and where no ceded conditional stands in another or in a choice nothing is lost (`ShallowMeans`).
* Any-of groups with children that ask for nothing do not always read as the
  specification has it. An inactive child beside others becomes an alternative without
  requirements, so more is accepted (`MixedReadsLooser`); an active child that asks for
  nothing, alone in its group, is refused where empty groups do not match
  (`EmptyMemberReadsStricter`). `GroupReadsExact` gives the condition for every group
  whose children read as specified.
* A marked value that contains a quote, or ends like another generated marker, breaks
  later edits, as does a feature line that is a lone bracket or a body that holds a
  marker. `PutGet`, `PutPut`, `FeaturesPutPut`, `OtherAfter`, `ListAfter` and
  `MarkerAfterList` give the exact conditions.
* A solution listing a solvable twice never gets a resolvo install order even without
  cycles (`ResolvoOrder.InstallOrder`).
* A license value without entries, or a lone empty any-of where that counts as
  satisfied, changes meaning inside an any-of (`AlternativeExact`).

## Model

| member | source | states |
|---|---|---|
| `Tarjan.TarjanScc` | portage-atom-pubgrub/src/graph.rs:361-416 | Terminates without popping an empty stack. Equal ids exactly for mutually reachable nodes; ids dense; an edge never leads to a higher id. |
| `Tarjan.Pass.Explore` | portage-atom-pubgrub/src/graph.rs:371-415 | One root: the invariant of the search holds before and after, the root is numbered, nothing numbered is forgotten, and the frame measure drops with every step. |
| `Tarjan.Pass.Step` | portage-atom-pubgrub/src/graph.rs:377-413 | One turn of the frame loop keeps the search invariant and strictly decreases the measure. |
| `Tarjan.Pass.Number` | portage-atom-pubgrub/src/graph.rs:378-384 | First visit of a frame: index, low link and stack become exactly those of entering the node. |
| `Tarjan.Pass.Follow` | portage-atom-pubgrub/src/graph.rs:385-392 | Taking up the next child, unseen, stacked or assigned, keeps the search invariant, the path and all indices, and the measure drops. |
| `Tarjan.Pass.PopComponent` | portage-atom-pubgrub/src/graph.rs:398-405 | Pops down to the root, giving precisely the popped nodes the new component id; never pops below the root. |
| `Tarjan.Pass.CloseComponent` | portage-atom-pubgrub/src/graph.rs:394-407 | A finished node that is a root closes its component; the invariant then holds with the child's low link folded into its parent's. |
| `Tarjan.EnterInv` | portage-atom-pubgrub/src/graph.rs:379-383 | Entering an unseen node reached from every stacked node keeps the invariant. |
| `Tarjan.SkipInv` | portage-atom-pubgrub/src/graph.rs:390-392 | Passing over a seen child keeps the invariant, whether it is on the stack or already assigned. |
| `Tarjan.FinishInv` | portage-atom-pubgrub/src/graph.rs:394-411 | Leaving a node that is not a root keeps the invariant with its low link absorbed by the parent. |
| `Tarjan.RootInv` | portage-atom-pubgrub/src/graph.rs:394-408 | Closing at a root keeps the invariant: the popped nodes are exactly one mutual-reachability class. |
| `Kahn.Release` | portage-atom-pubgrub/src/graph.rs:339-344 | Each successor's counter drops once per edge, never below zero; exactly those that reach zero are freed, each once. |
| `Kahn.Emit` | portage-atom-pubgrub/src/graph.rs:327-345 | Emitting a ready node keeps: counter equals unemitted predecessors, ready means unemitted without predecessors, predecessors come first. |
| `Kahn.Stalled` | portage-atom-resolvo/src/provider.rs:1186-1197 | With nothing ready, the nodes left over are exactly those on a cycle or reachable from one. |
| `Kahn.KahnBest` | portage-atom-pubgrub/src/graph.rs:321-345 | The heap loop: distinct nodes, predecessors first, no available node was better than the one taken, exactly the descendants of cycles are missing. |
| `Kahn.ExtensionAcyclic` | portage-atom-pubgrub/src/graph.rs:292-295 | A graph with a linear extension has no cycle, so acyclicity is also necessary. |
| `CycleOrder.CountMembers` | portage-atom-pubgrub/src/graph.rs:443-463 | The initial counters are the numbers of edges from members, with multiplicity. |
| `CycleOrder.Retire` | portage-atom-pubgrub/src/graph.rs:524-541 | After a pick every counter again equals the edges from the remaining members, so the saturating subtraction never clips. |
| `CycleOrder.FindGroups` | portage-atom-pubgrub/src/graph.rs:465-479 | Groups are the mutual-reachability classes of the hard edges among the members, numbered against the edges. |
| `CycleOrder.PickLeast` | portage-atom-pubgrub/src/graph.rs:499-523 | The pick is a remaining member that no other beats by the five-part comparison. |
| `CycleOrder.SomeUnblocked` | portage-atom-pubgrub/src/graph.rs:426-428 | Whatever remains, some member has no hard predecessor outside its group: the gate cannot deadlock. |
| `CycleOrder.PickUnblocked` | portage-atom-pubgrub/src/graph.rs:481-484 | The pick never has a remaining hard predecessor outside its group. |
| `CycleOrder.OrderCycle` | portage-atom-pubgrub/src/graph.rs:435-544 | Emits every member once, each unbeaten among those remaining by true predecessor counts, and all cross-group hard edges forward. |
| `CycleOrder.HardEdgeCrosses` | portage-atom-pubgrub/src/graph.rs:424-428 | A hard edge between members on no common hard-only cycle is a cross-group edge. |
| `CycleOrder.GreedyUnique` | portage-atom-pubgrub/src/graph.rs:499-523 | With distinct keys two greedy orders over the same groups are equal. |
| `CycleOrder.PickMeans` | portage-atom-pubgrub/src/graph.rs:499-523 | Against any other remaining member the pick is not blocked unless the other is, then has no more pending hard edges, then is ready but for soft ones if the other is, then has no more pending edges, then no smaller key; counts with multiplicity. |
| `OrderUnique.SameCross` | portage-atom-pubgrub/src/graph.rs:465-495 | Any two groupings of the same members, listed in any order, have the same cross edges. |
| `OrderUnique.CycleUnique` | portage-atom-pubgrub/src/graph.rs:435-544 | With distinct keys a cycle has one order, whatever the numbering of groups and the iteration of hash sets. |
| `OrderUnique.PassOneUnique` | portage-atom-pubgrub/src/graph.rs:260-345 | With distinct keys pass 1 has one result for given edges, whatever the numbering of components. |
| `OrderUnique.PassTwoUnique` | portage-atom-pubgrub/src/graph.rs:569-700 | Pass 2 has one result for given edges and a given order. |
| `OrderUnique.OrderDetermined` | portage-atom-pubgrub/src/graph.rs:244-258 | The whole install order is a function of the set of labelled edges and distinct keys. |
| `PassOne.BuildSuccessors` | portage-atom-pubgrub/src/graph.rs:260-290 | The two graphs hold exactly the DEPEND/BDEPEND(/RDEPEND) pairs inside the solution, each once. |
| `PassOne.CollectMembers` | portage-atom-pubgrub/src/graph.rs:296-300 | Member lists partition the nodes by component; none is empty. |
| `PassOne.Condense` | portage-atom-pubgrub/src/graph.rs:304-315 | Condensation edges are exactly the cross-component edges, once each; in-degrees count them. |
| `PassOne.CondensationAcyclic` | portage-atom-pubgrub/src/graph.rs:292-295 | The condensation has no cycle, so every component is emitted. |
| `PassOne.OrderComponent` | portage-atom-pubgrub/src/graph.rs:331-338 | A component lists its members once, by the greedy rule when it is a cycle, hard edges outside hard cycles forward. |
| `PassOne.OrderPassOne` | portage-atom-pubgrub/src/graph.rs:260-345 | A permutation that respects every ordering edge on no cycle and every hard edge on no hard cycle, and the exact schedule: ready component with the largest node first, each laid out by its rule. |
| `PassOne.LargestNext` | portage-atom-pubgrub/src/graph.rs:317-346 | Of all nodes that could come next, the largest is in the component that does. |
| `PassOne.RespectsAcyclic` | portage-atom-pubgrub/src/graph.rs:292-295 | If the graph has no cycle, every edge is respected. |
| `Repair.Constraints.Reaches` | portage-atom-pubgrub/src/graph.rs:703-736 | Answers reachability exactly, any number of calls on, through epoch wrap-around. |
| `Repair.Constraints.NextEpoch` | portage-atom-pubgrub/src/graph.rs:715-719 | No mark equals the new epoch, also when the counter wraps to zero. |
| `Repair.Constraints.Visit` | portage-atom-pubgrub/src/graph.rs:723-734 | One node of the probe: finds only reachable targets, keeps everything marked either expanded or stacked. |
| `Repair.Constraints.TryAdd` | portage-atom-pubgrub/src/graph.rs:599-613 | The new edge set is the old one with the pair added unless it would close a cycle; the answer says which. |
| `Repair.Constraints.ForceAdd` | portage-atom-pubgrub/src/graph.rs:590-597 | Adds the pair once and nothing else, ignoring a self pair. |
| `Repair.AddAcyclic` | portage-atom-pubgrub/src/graph.rs:606-609 | An accepted edge closes no cycle. |
| `Repair.TryAllKeeps` | portage-atom-pubgrub/src/graph.rs:658-675 | However many pairs are tried, the graph stays acyclic and loses no edge. |
| `Repair.TryAllMaximal` | portage-atom-pubgrub/src/graph.rs:658-675 | At the end a tried pair is an edge exactly if it does not close a cycle with the final set: the set is maximal. |
| `Repair.CollectPairs` | portage-atom-pubgrub/src/graph.rs:621-644 | Hard and soft pairs by pass-1 position and the set of build tools are exactly those of the labelled edges inside the order. |
| `Repair.Partition` | portage-atom-pubgrub/src/graph.rs:646-653 | Forward and inverted pairs, self pairs dropped. |
| `Repair.Classify` | portage-atom-pubgrub/src/graph.rs:615-673 | Forward pairs hold the hard and soft ones; inversions, each once, are sorted by consumer then dependency, tools' inversions first among the soft. |
| `Repair.RepairSoftInversions` | portage-atom-pubgrub/src/graph.rs:569-700 | The result is pass 1 rearranged by the best-first linear extension of locked, then hard, then soft constraints; the fallback is never taken for longer orders. |
| `Repair.AcyclicAll` | portage-atom-pubgrub/src/graph.rs:694-698 | On an acyclic constraint graph the loop emits every node, so the stall test is false. |
| `InstallOrder.InversionOutcome` | portage-atom-pubgrub/src/graph.rs:657-675 | An inverted pair is honoured in the output exactly if accepted, accepted exactly if it closes no cycle, and stays inverted if refused. |
| `InstallOrder.HardBeforeSoft` | portage-atom-pubgrub/src/graph.rs:657-675 | Whether a hard inversion is accepted is settled before any soft one: no soft promotion causes a refusal. |
| `InstallOrder.TriedInTurn` | portage-atom-pubgrub/src/graph.rs:661-672 | Hard inversions are tried by consumer, then dependency; soft ones likewise, but first those whose consumer is the target of a BDEPEND in the order. |
| `InstallOrder.TriedStays` | portage-atom-pubgrub/src/graph.rs:658-675 | What trying a pair came to is not changed by any pairs tried after it. |
| `InstallOrder.ToolsBeforeOthers` | portage-atom-pubgrub/src/graph.rs:646-675 | The inversions of BDEPEND targets are an initial stretch of the soft ones, and whether one is honoured is settled by that stretch alone: no promotion for an ordinary consumer decides it. |
| `InstallOrder.BestFirstLeast` | portage-atom-pubgrub/src/graph.rs:677-693 | The output is the lexicographically least linear extension by pass-1 index. |
| `InstallOrder.NoInversions` | portage-atom-pubgrub/src/graph.rs:655-693 | Without inversions pass 2 is the identity. |
| `InstallOrder.ForwardStays` | portage-atom-pubgrub/src/graph.rs:655-658 | Every edge pass 1 had right stays right. |
| `InstallOrder.RespectsStays` | portage-atom-pubgrub/src/graph.rs:552-556 | What pass 1 respects, any graph of ordering edges, the output respects. |
| `InstallOrder.Order` | portage-atom-pubgrub/src/graph.rs:238-354 | Both passes: a permutation; ordering edges on no cycle and hard edges on no hard cycle put the dependency first; a linear extension if the graph is acyclic; pass 1 and the plan of pass 2 as specified. |
| `InstallOrder.HardInversionIsCyclic` | portage-atom-pubgrub/src/graph.rs:218-222 | A hard edge left inverted lies on a cycle of hard edges. |
| `DepGraph.Expand` | portage-atom-pubgrub/src/graph.rs:156-200 | The worklist terminates and yields, each once, exactly the solution entries reached through virtual nodes along selected versions, or all versions where none is recorded. |
| `DepGraph.Open` | portage-atom-pubgrub/src/graph.rs:168-184 | A virtual node opens to the requirements of its solution version, else its recorded version, else all its versions; to nothing without data. |
| `DepGraph.Matching` | portage-atom-pubgrub/src/graph.rs:187-199 | Adds exactly the non-virtual entries of the same name whose version is allowed and that were not found before. |
| `DepGraph.AllSettled` | portage-atom-pubgrub/src/graph.rs:160-200 | With the worklist empty every requirement reached has been dealt with. |
| `DepGraph.EntryEdges` | portage-atom-pubgrub/src/graph.rs:121-147 | Edges of one entry: nothing for a kept provided package, no build-time class for a kept one, otherwise what its dependencies select. |
| `DepGraph.DependencyGraph` | portage-atom-pubgrub/src/graph.rs:82-207 | An edge is present exactly if a dependency stored for its class, and counted under the installed policy, selects its target; stated by stored row. |
| `DepGraph.NeedsByRow` | portage-atom-pubgrub/src/provider/mod.rs:85-105 | The stored rows are DEPEND, RDEPEND, BDEPEND, PDEPEND, IDEPEND; an entry installed at its version is skipped if provided, loses its first and third row if kept, and nothing if rebuilt. |
| `DepGraph.RealFinds` | portage-atom-pubgrub/src/graph.rs:191-199 | A requirement of a real package selects exactly the real entries of that name whose version it allows. |
| `DepGraph.VirtualFinds` | portage-atom-pubgrub/src/graph.rs:163-189 | A requirement of a virtual node selects exactly what those behind it select: of its version in the solution, else of the recorded one, else of all. |
| `DepGraph.InstallOrderOf` | portage-atom-pubgrub/src/graph.rs:238-354 | From metadata to order, through any chain of virtual nodes: hard dependencies on no hard cycle and hard or runtime dependencies on no cycle of both come first; all of them if there is no such cycle. |
| `RequiredUse.FlatCount` | portage-atom-pubgrub/src/convert.rs:749-761 | The members of a flat group that hold are the satisfied fixed operands plus the true free literals. |
| `RequiredUse.CountMeaning` | portage-atom-pubgrub/src/convert.rs:825-834 | At least one, at most one and none, as clauses over the literals. |
| `RequiredUse.WeakenSound` | portage-atom-pubgrub/src/convert.rs:697-700 | What the encoder leaves unencoded only ever weakens the formula. |
| `RequiredUse.WeakenExact` | portage-atom-pubgrub/src/convert.rs:697-700 | With flat groups and no unguarded part already false, nothing is lost. |
| `UseEncoder.OrderOK` | portage-atom-pubgrub/src/convert.rs:770-776 | The preference order keeps the literals and puts those the preference satisfies first. |
| `UseEncoder.PreferenceStable` | portage-atom-pubgrub/src/convert.rs:770-776 | Of two literals the first stays first unless only the other is satisfied by its preference. |
| `UseEncoder.Builder.Force` | portage-atom-pubgrub/src/convert.rs:779-782 | The encoding means what it meant, and the literal. |
| `UseEncoder.Builder.Imply` | portage-atom-pubgrub/src/convert.rs:785-794 | The encoding means what it meant, and the implication. |
| `UseEncoder.Builder.NewChoice` | portage-atom-pubgrub/src/convert.rs:800-822 | A fresh choice whose requirement holds exactly if some literal does; nothing else changes. |
| `UseEncoder.Builder.AtLeastOne` | portage-atom-pubgrub/src/convert.rs:800-822 | Adds exactly the clause. |
| `UseEncoder.Builder.AtMostOne` | portage-atom-pubgrub/src/convert.rs:825-834 | Adds exactly pairwise exclusion. |
| `UseEncoder.Builder.EmitClause` | portage-atom-pubgrub/src/convert.rs:974-991 | Adds exactly "some escape or some body literal", in all seven shapes. |
| `UseEncoder.Builder.ImplyChoice` | portage-atom-pubgrub/src/convert.rs:1102-1129 | Adds exactly "guard implies clause". |
| `UseEncoder.Builder.GuardedAny` | portage-atom-pubgrub/src/convert.rs:1051-1063 | Adds exactly "escape, or at least one member holds". |
| `UseEncoder.Builder.GuardedAtMost` | portage-atom-pubgrub/src/convert.rs:1066-1095 | Adds exactly "escape, or at most one member holds", for any number of fixed members. |
| `UseEncoder.Builder.Guarded` | portage-atom-pubgrub/src/convert.rs:1000-1048 | Adds exactly "escape, or the (weakened) expression"; the guard context is returned unchanged. |
| `UseEncoder.Builder.Group` | portage-atom-pubgrub/src/convert.rs:861-915 | Adds exactly the group's truth, or nothing where it is deferred or already false. |
| `UseEncoder.Builder.Clause` | portage-atom-pubgrub/src/convert.rs:837-947 | Adds exactly the weakened clause, over arbitrary nesting. |
| `UseEncoder.Builder.Finish` | portage-atom-pubgrub/src/convert.rs:1131-1152 | Every touched flag becomes one two-version node carrying its buckets, pulled in once; nothing else is added. |
| `UseEncoder.MeaningExtends` | portage-atom-pubgrub/src/convert.rs:1131-1152 | An assignment satisfying the encoding's meaning extends to a solution. |
| `UseEncoder.ExtensionMeans` | portage-atom-pubgrub/src/convert.rs:1131-1152 | A solution that follows an assignment witnesses the encoding's meaning. |
| `UseEncoder.EncodeRequiredUse` | portage-atom-pubgrub/src/convert.rs:701-717 | An assignment of the ceded flags extends to a solution exactly if the weakened formula is true, and preferred models extend at every choice's top version. |
| `UseEncoder.EncodesExactly` | portage-atom-pubgrub/src/convert.rs:701-717 | For formulas with flat groups and no unguarded part already false: extends to a solution exactly if the formula is true. |
| `UseEncoder.SatisfiableExact` | portage-atom-pubgrub/src/convert.rs:701-717 | For a formula whose groups hold bare flags and that some assignment satisfies: an assignment extends to a solution exactly if it satisfies the formula. |
| `UseEncoder.NeverOverConstrains` | portage-atom-pubgrub/src/convert.rs:837-947 | For every formula: a true assignment extends to a solution. |
| `UseEncoder.NoGratuitousFlips` | portage-atom-pubgrub/src/convert.rs:800-822 | If the preferred values satisfy the formula, a solution keeps them all and takes the highest version of every choice selected. |
| `UseEncoder.PreferredTop` | portage-atom-pubgrub/src/convert.rs:770-776 | Under the preferred values the first branch that holds is the highest. |
| `UseEncoder.WeakenSoundMatching` | portage-metadata/src/required_use.rs:93-153 | Under the reading in which an empty any-of matches, soundness holds if no guarded any-of is empty. |
| `UseEncoder.EmptyAnyOfOverConstrains` | portage-atom-pubgrub/src/convert.rs:1051-1063 | A guarded empty any-of matches by that reading, yet its encoding has no solution with the guard on. |
| `UseEncoder.GuardedAnyOfExact` | portage-atom-pubgrub/src/convert.rs:1051-1063 | Behind an active guard of either sign, a flat any-of is encoded as that reading has it exactly if it has a child. |
| `UseEncoder.FixedIsInert` | portage-atom-pubgrub/src/convert.rs:844-858 | With every flag fixed the encoder constrains nothing. |
| `Pins.SolutionExact` | portage-atom-pubgrub/src/convert.rs:701-717 | For every formula and configuration the clauses have a solution exactly if what is encoded has a model over the ceded flags. |
| `Pins.PinFreeKeeps` | portage-atom-pubgrub/src/convert.rs:837-947 | Where no pin acts, every model of the formula, fixed flags ignored, still satisfies what is encoded once the fixed flags are put back. |
| `Pins.PinFreeSolvable` | portage-atom-pubgrub/src/convert.rs:837-947 | Hence where no pin acts a formula with any model at all has a solution. |
| `Pins.GroupPinsExact` | portage-atom-pubgrub/src/convert.rs:861-915 | For a group of distinct flags, guarded or not, pins cost no model exactly if it is deferred, settled by its fixed members, or without fixed members that bear on the free ones. |
| `Pins.PinnedUnderForcedGuard` | portage-atom-pubgrub/src/convert.rs:979-981 | `a a? ( b )` with `b` off: the guard is forced both on and off and there is no solution. |
| `Pins.PinnedMemberForcesOff` | portage-atom-pubgrub/src/convert.rs:896-904 | `^^ ( b c ) c` with `b` on: no guard is needed for there to be no solution. |
| `Pins.PinnedUnderBothGuards` | portage-atom-pubgrub/src/convert.rs:1014-1016 | A pin under both values of a guard leaves no solution. |
| `Pins.PinnedExact` | portage-atom-pubgrub/src/convert.rs:1014-1016 | Pins on fixed flags under both values of a guard leave a solution exactly if one side is met already. |
| `Pins.FixedSolvable` | portage-cli/src/query/depgraph/round/solve.rs:173-187 | With nothing ceded the clauses of every formula have a solution: the flags as configured. |
| `Pins.SolveUse` | portage-cli/src/query/depgraph/round/solve.rs:160-192 | Given a solver that finds a solution whenever there is one, the two attempts always have an outcome. The retry is made exactly if what is encoded has no model, and it leaves the flags as configured. |
| `DepTree.GroupReadsExact` | portage-atom-pubgrub/src/convert.rs:551-637 | Given children that read as specified, an any-of does exactly if it is aligned: when all children ask for nothing, all are inactive or an empty group matches; otherwise none is inactive or some active one is matched by nothing being selected. |
| `DepTree.ConditionalMeans` | portage-atom-pubgrub/src/convert.rs:250-277 | For every set of enabled flags that agrees with the configuration: a conditional on a fixed flag asks for, pulls in and blocks what its body does where the flag activates it, and nothing elsewhere. |
| `DepTree.AtomInRange` | portage-atom-pubgrub/src/convert.rs:499-542 | An atom is met exactly by a package in range in the slot it names, or else in one of the known slots, or unslotted when none is known. |
| `DepTree.AlignedReads` | portage-atom-pubgrub/src/convert.rs:241-343 | A tree whose live any-ofs are all aligned reads as specified under every selection. |
| `DepTree.MixedReadsLooser` | portage-atom-pubgrub/src/convert.rs:581-611 | For an any-of of plain atoms and inactive conditionals that means: not mixed. |
| `DepTree.EmptyMemberReadsStricter` | portage-atom-pubgrub/src/convert.rs:609-626 | An any-of whose only member asks for nothing is matched, yet its encoding refuses every selection when empty groups do not match. |
| `Composing.Join` | portage-atom-pubgrub/src/convert.rs:216-218 | Clauses with separate fresh nodes are solvable together exactly if each is. |
| `Composing.Choose` | portage-atom-pubgrub/src/convert.rs:628-636 | Asked for, a choice node is solvable exactly if one of its branches is, over the nodes made inside all of them; not asked for, exactly if those nodes are. |
| `Composing.Decide` | portage-atom-pubgrub/src/convert.rs:314-326 | A decision node demands its body exactly while the flag is selected with the activating value, asked for or not; asked for, the flag must be selected. |
| `DepImage.RankedIsStableSort` | portage-atom-pubgrub/src/convert.rs:566-580 | The ranking is the stable sort that puts alternatives on the package itself behind all others. |
| `DepImage.RankedMembers` | portage-atom-pubgrub/src/convert.rs:566-580 | Ranking only permutes the alternatives. |
| `DepImage.RankedBefore` | portage-atom-pubgrub/src/convert.rs:566-580 | Of two alternatives the first-listed ranks first unless it is a build-time non-blocker atom on the package itself and the other is not. |
| `DepImage.ListedFirstPreferred` | portage-atom-pubgrub/src/convert.rs:566-607 | In the choice of a group every alternative stands, requirements and blockers together, at a version of its own above that of taking none; the one that ranks first at the higher. |
| `DepImage.DecisionStands` | portage-atom-pubgrub/src/convert.rs:292-327 | A ceded conditional's body and blockers sit at the version that activates it, and nothing at the other. |
| `DepImage.SlotsInOrder` | portage-atom-pubgrub/src/convert.rs:514-531 | The slots of a choice stand in the order given, the last at the highest version. |
| `DepMeaning.SlotChoiceConverts` | portage-atom-pubgrub/src/convert.rs:514-540 | An atom on several slots is met exactly by some slot's package in range. |
| `DepMeaning.GroupConverts` | portage-atom-pubgrub/src/convert.rs:551-637 | Whatever stands in its alternatives, a group becomes a choice that is solvable exactly if the group reads true and all alternatives, taken or not, are pulled; or vanishes; or cannot be met. Every live blocker is in its place. |
| `DepMeaning.EmptyGroupConverts` | portage-atom-pubgrub/src/convert.rs:609-626 | A group with nothing in it vanishes or becomes unsatisfiable as `empty_any_of_matches` says. |
| `DepMeaning.DecisionConverts` | portage-atom-pubgrub/src/convert.rs:278-327 | Whatever stands in it, a conditional on a ceded flag is solvable exactly if the flag is selected at off or on, an activated body reads true, and the body is pulled. |
| `DepMeaning.ImageConverts` | portage-atom-pubgrub/src/convert.rs:241-343 | For every tree: its nodes are solvable exactly if it reads true and everything pulled in by selected flags is honoured; unasked, exactly if the latter. Blockers are conserved with multiplicity; nothing is made exactly for trees that ask for nothing. |
| `DepMeaning.ImageMeans` | portage-atom-pubgrub/src/convert.rs:182-219 | The same for a list of entries under every selection. |
| `DepMeaning.ShallowMeans` | portage-atom-pubgrub/src/convert.rs:278-327 | Where ceded conditionals stand neither in one another nor in a choice, solvable exactly if all entries read true. |
| `DepMeaning.NestedExact` | portage-atom-pubgrub/src/convert.rs:278-327 | One ceded conditional in another is encoded as it reads exactly if its body reads true with no package selected. |
| `DepMeaning.NestedRefused` | portage-atom-pubgrub/src/convert.rs:134-143 | `x? ( y? ( a ) )` with `x` off and `y` on asks for nothing, yet is refused without `a`. |
| `DepConvert.Converter.ConvertEntry` | portage-atom-pubgrub/src/convert.rs:241-343 | Appends exactly the requirements and nodes of the tree (`ImageOf`): nested nodes first, then the choice or decision, each branch with its own requirements and the blockers no inner node encloses. For every tree these are solvable exactly if it reads true and is pulled, and blockers are conserved with multiplicity. |
| `DepConvert.Converter.PushUnslottedOrChoice` | portage-atom-pubgrub/src/convert.rs:499-542 | The requirement or slot choice appended is met exactly by the atom. |
| `DepConvert.Converter.ConvertDecision` | portage-atom-pubgrub/src/convert.rs:278-327 | Buffers come back as they were plus the nodes of the conditional; requirements and blockers of its body sit at the version that activates it. |
| `DepConvert.Converter.ConvertBranch` | portage-atom-pubgrub/src/convert.rs:584-602 | The child is converted aside: requirements and blockers saved around it come back unchanged. |
| `DepConvert.Converter.ConvertAlternatives` | portage-atom-pubgrub/src/convert.rs:581-607 | One branch per alternative in rank order, numbered downwards, each with the requirements and blockers of its own alternative. |
| `DepConvert.Converter.ConvertChoiceGroup` | portage-atom-pubgrub/src/convert.rs:551-637 | The group becomes exactly its nested nodes and one choice with each alternative at its rank, or vanishes, or becomes a choice without branches. |
| `DepImage.ImageIds` | portage-atom-pubgrub/src/convert.rs:551-637 | No choice node of a tree is made twice, versions of a node are distinct, and blockers sit at versions the node has. |
| `DepConvert.ConvertDeps` | portage-atom-pubgrub/src/convert.rs:182-219 | Exactly the nodes of the entries; every live blocker once, in the parent's list or at its branch. For all trees a selection extends to a solution exactly if the entries read true and are pulled; for shallow entries exactly if they read true, and for aligned plain ones exactly if they are matched as specified with the configured flags enabled. |
| `Registry.RegisterVirtualChoices` | portage-atom-pubgrub/src/provider/mod.rs:1461-1501 | The table becomes that of registering the nodes one after the other. |
| `Registry.RegisterExact` | portage-atom-pubgrub/src/provider/mod.rs:1461-1501 | From an empty table: exactly the packages and versions of the nodes, each with all requirements and blockers attached to it, in order; nothing overwritten. |
| `Registry.RegisterConsistent` | portage-atom-pubgrub/src/provider/mod.rs:1470-1482 | The table binds a selection exactly as the whole list of nodes does, however many nodes of one flag were merged. |
| `JointEncoding.SolvableExtends` | portage-atom-pubgrub/src/provider/mod.rs:679-686 | Solving the `REQUIRED_USE` clauses over a selection is extending the flags it selects. |
| `JointEncoding.CompileVersion` | portage-atom-pubgrub/src/provider/mod.rs:647-686 | The dependency classes and the `REQUIRED_USE` of one version, each part with ids of its own and its exact meaning. |
| `JointEncoding.VersionExact` | portage-atom-pubgrub/src/provider/mod.rs:647-686 | A version alone is solvable exactly if what is encoded of its formula holds of the selected flags and its dependencies read true and are pulled. |
| `JointEncoding.ClassRanks` | portage-atom-pubgrub/src/provider/mod.rs:645-658 | Only in DEPEND and BDEPEND do atoms on the package itself give way. |
| `JointEncoding.FixedExact` | portage-cli/src/query/depgraph/round/solve.rs:173-187 | With nothing ceded exactly if its dependencies read true: `REQUIRED_USE` rules nothing out. |
| `JointEncoding.ChainSolvable` | portage-atom-pubgrub/src/provider/mod.rs:596-732 | Over the nodes of all versions, the selected version is solvable exactly if it is alone and the nodes of every other version are with nobody asking. |
| `JointEncoding.CompilePackage` | portage-atom-pubgrub/src/provider/mod.rs:596-732 | All versions compiled into one table. With a version selected it is solvable exactly if that version's formula and dependencies hold and, of every other version, what hangs on the selected flag values does. |
| `JointEncoding.OtherVersionBinds` | portage-atom-pubgrub/src/convert.rs:134-143 | `x? ( a )` in one version, `x? ( b )` in another: with `x` on, the second alone is solved by `b`, but not over the table of both. |
| `Interner.StepInv` | gentoo-interner/src/lib.rs:192-209 | Every step of every thread keeps the invariant. |
| `Interner.RunInv` | gentoo-interner/src/lib.rs:192-209 | The invariant holds in every state of every interleaving. |
| `Interner.RunGrows` | gentoo-interner/src/lib.rs:164-168 | Forward bindings, reverse slots and answers given are never changed or withdrawn. |
| `Interner.IdsResolve` | gentoo-interner/src/lib.rs:211-218 | An id seen in the forward map or returned resolves to its string then and ever after. |
| `Interner.AnswersAgree` | gentoo-interner/src/lib.rs:192-209 | Over a whole run, two completed interns give the same id exactly if the strings are equal. |
| `Interner.OneSlotPerString` | gentoo-interner/README.md:50-51 | Below the id bound no string occupies two reverse slots: nothing is leaked on a lost race. |
| `Interner.LengthsMatch` | gentoo-interner/src/lib.rs:203-208 | Reverse length is forward size plus threads between push and insert plus calls that ran out of ids, of which there are none below the bound. |
| `Interner.AtomicBinding` | gentoo-interner/src/lib.rs:204-208 | Only the insert step changes the forward map: it binds one new string to one unused id. |
| `Interner.NoDeadlock` | gentoo-interner/src/lib.rs:197-202 | While a call is in progress some call in progress can take a step. |
| `Interner.StepAdvances` | gentoo-interner/src/lib.rs:192-209 | A step inside a call brings it nearer to its end, stays with its string and leaves other threads alone; it ends the call only with an answer for that string, or where the index does not fit 32 bits. |
| `Interner.CallCompletes` | gentoo-interner/src/lib.rs:192-209 | A call that is not kept waiting completes, below the id bound, and returns the id its string is bound to. |
| `Interner.DrainsEnd` | gentoo-interner/src/lib.rs:192-209 | However calls in progress are interleaved, they take no more steps than the sum of what each is away from its end. |
| `Interner.SomeContinues` | gentoo-interner/src/lib.rs:197-202 | As long as a call is in progress, some call can go on: with the bound above, all end. |
| `LicenseTokens.ParsePrint` | cargo-eb/src/license.rs:139-187 | Reading printed entries gives them back. |
| `LicenseTokens.ParseExact` | cargo-eb/src/license.rs:109-111 | Token lists that can be read are exactly printed entries. |
| `LicenseTokens.IsPureOr` | cargo-eb/src/license.rs:112-135 | True exactly if the bracket opened first closes at the very last token. |
| `LicenseTokens.PureOrMeaning` | cargo-eb/src/license.rs:109-111 | On readable tokens that is exactly a single any-of group. |
| `License.BuildTree` | cargo-eb/src/license.rs:39-64 | A tree exists exactly for well-formed postfix; it means what the stack machine computes under every set of licenses, is flattened, and keeps the order of the leaves. |
| `License.OperatorMeans` | cargo-eb/src/license.rs:45-60 | Two expressions followed by an operator: both are true, or one of them is. |
| `License.LookupMeans` | cargo-eb/src/license.rs:102-106 | The key as it is decides; with a plus sign and no entry of its own, the key without it. |
| `License.JoinedMeans` | cargo-eb/src/license.rs:66-80 | Flattening same-operator operands keeps meaning and leaf order. |
| `License.Renderer.Render` | cargo-eb/src/license.rs:139-187 | Appends exactly the node's rendering; fails exactly if some leaf has no mapping, with or without its plus sign. |
| `License.AlternativeExact` | cargo-eb/src/license.rs:170-183 | As one alternative of an any-of, a value keeps its meaning for every accepted set exactly if it has an entry and is not a lone empty any-of that counts as satisfied. |
| `License.RenderedPrints` | cargo-eb/src/license.rs:139-187 | The rendered tokens are the printed form of readable entries. |
| `License.RenderedMeans` | cargo-eb/src/license.rs:139-187 | Those entries mean what the node means: all of them outside, any of them inside an any-of. |
| `License.SpdxToEbuild` | cargo-eb/src/license.rs:192-203 | If the values of the expression's own leaves are usable, the tokens read back and all entries are accepted exactly if the SPDX expression is true; an error exactly for an unmapped leaf or rendered tokens that do not read back. |
| `ResolvoOrder.CollectDepEdges` | portage-atom-resolvo/src/provider.rs:1060-1102 | Exactly an edge to each other solution member that some live non-blocker atom of the tree matches. |
| `ResolvoOrder.LiveMeans` | portage-atom-resolvo/src/provider.rs:1069-1102 | An atom is live exactly if it is no blocker and every condition around it holds of the active flags, negated ones of the inactive. |
| `ResolvoOrder.DependencyGraph` | portage-atom-resolvo/src/provider.rs:1045-1057 | An edge is present exactly if both ends are in the solution and the source's class depends on the target. |
| `ResolvoOrder.BuildAdjacency` | portage-atom-resolvo/src/provider.rs:1125-1143 | Adjacency from dependency to dependent without `PDEPEND`; in-degrees count the edges with multiplicity. |
| `ResolvoOrder.InstallOrder` | portage-atom-resolvo/src/provider.rs:1119-1198 | Ok exactly for distinct solvables without a non-`PDEPEND` cycle; then a permutation, dependencies first, in queue order; otherwise exactly the members on or depending on a cycle, in the solution's sequence. |
| `ResolvoOrder.FifoUnique` | portage-atom-resolvo/src/provider.rs:1153-1182 | With distinct cpvs the queue order is unique, so hash-map iteration cannot show. |
| `ResolvoOrder.FifoMeans` | portage-atom-resolvo/src/provider.rs:1145-1182 | Of two members the one that became ready first comes first; of two freed together, the one with the lower cpv. |
| `EbuildRun.Ebuild.ReplaceQuoted` | cargo-eb/src/ebuild.rs:242-252 | Succeeds exactly if marker and closing quote are there; exchanges only the value; otherwise changes nothing. |
| `EbuildEdit.PutLocates` | cargo-eb/src/ebuild.rs:242-252 | The first marker stays in place; its value ends with the new value exactly if that has no quote. |
| `EbuildEdit.PutGet` | cargo-eb/src/ebuild.rs:242-252 | Reading back gives the value exactly if it has no quote. |
| `EbuildEdit.GetPut` | cargo-eb/src/ebuild.rs:242-252 | Writing what is there changes nothing. |
| `EbuildEdit.PutPut` | cargo-eb/src/ebuild.rs:242-252 | A second put overwrites the first exactly if the first value has no quote. |
| `EbuildEdit.ValueHere` | cargo-eb/src/ebuild.rs:242-252 | On a text written out: behind the first marker exactly the text up to the next quote is exchanged. |
| `EbuildRegions.OtherBefore` | cargo-eb/src/ebuild.rs:299-346 | A marked value in front of the edited one stays, place and text. |
| `EbuildRegions.OtherAfter` | cargo-eb/src/ebuild.rs:299-346 | A marked value behind moves along unchanged exactly if the new value does not end like its marker. |
| `EbuildRegions.ListBefore` | cargo-eb/src/ebuild.rs:267-278 | A feature list in front of an edited value stays, place and body. |
| `EbuildRegions.ListAfter` | cargo-eb/src/ebuild.rs:267-278 | A feature list behind an edited value moves along exactly if the value does not hold the list's opening line. |
| `EbuildRegions.MarkerAfterList` | cargo-eb/src/ebuild.rs:348-351 | A marked value behind an edited list moves along exactly if its marker does not occur in the new body. |
| `EbuildRun.OtherRegion` | cargo-eb/src/ebuild.rs:299-352 | Any edit leaves a region in front alone, and one behind exactly if its text does not form that region's opening. |
| `EbuildRun.EditsCommute` | cargo-eb/src/ebuild.rs:299-352 | Two clean edits on separate regions, values or list, may be made in either order. |
| `EbuildRun.UpdateIdempotent` | cargo-eb/src/ebuild.rs:299-352 | A clean run of values and list on separate regions puts all in place, and a second run changes nothing. |
| `EbuildRun.Ebuild.Update` | cargo-eb/src/ebuild.rs:299-352 | The run is the composition of the single edits; if one cannot be placed the text is that of the edits before it. |
| `EbuildText.FindLine` | cargo-eb/src/ebuild.rs:255-264 | The position of the first line at or after the start that is the wanted one once trimmed. |
| `EbuildText.LineAtConcat` | cargo-eb/src/ebuild.rs:255-264 | Searching whole lines and then the rest is searching their concatenation. |
| `EbuildText.WhiteAscii` | cargo-eb/src/ebuild.rs:258-259 | Of the ASCII characters, trimming takes away blanks and tab to carriage return. |
| `EbuildText.TrimPadded` | cargo-eb/src/ebuild.rs:258-259 | Trimming takes away exactly the white space around a text that neither starts nor ends with it. |
| `EbuildText.TrimsToBracket` | cargo-eb/src/ebuild.rs:258-259 | A line closes the list exactly if it is a bracket with white space around it. |
| `EbuildRun.Ebuild.ReplaceMyfeatures` | cargo-eb/src/ebuild.rs:267-278 | Succeeds exactly if the list is there and closed; exchanges only its body (`FeaturesHere` says where that is). |
| `EbuildEdit.FeaturesPutGet` | cargo-eb/src/ebuild.rs:267-278 | Reading back gives the body exactly if no line of it closes the list. |
| `EbuildEdit.FeaturesGetPut` | cargo-eb/src/ebuild.rs:267-278 | Writing the body that is there changes nothing. |
| `EbuildEdit.FeaturesPutPut` | cargo-eb/src/ebuild.rs:267-278 | A second list overwrites the first exactly if no line of the first closes it. |
| `EbuildEdit.FeaturesHere` | cargo-eb/src/ebuild.rs:267-278 | On a text written out: behind the first opening line, whole lines none of which closes the list are exchanged, up to the first line that is a bracket with white space around it. |

## Left out

- DepMeaning.GroupConverts: exclusivity of `^^` and `??` in dependency trees is not claimed, because the encoding only picks a branch.
- JointEncoding.CompilePackage: what another version's `REQUIRED_USE` hangs on the selected flags is stated as solvability of its flag nodes, not as a formula; the table starts without other packages, whose nodes have names of their own; versions offered, blockers between packages and dependencies on packages that are not known are not modelled.
- Pins.SolveUse: the USE-dependency fixpoint around the attempts and failures for other reasons than `REQUIRED_USE` are not modelled.
- Pins.PinFreeSolvable: sufficient only; whether a formula on which pins do act still has a model is a satisfiability question, answered exactly by `Pins.SolutionExact`.
- DepTree.AlignedReads: sufficient for a whole tree, since a group that reads differently can be masked by what stands around it; exact at each group (`DepTree.GroupReadsExact`).
- UseEncoder.EncodesExactly: groups with members that are not bare flags are left to the post-solve report by the code, so equivalence is stated without them; `EncodeRequiredUse` covers them by what is encoded.
- Interner.AnswersAgree: a call that runs out of ids panics in the code; the model counts it as lost and gives no answer.
- License.SpdxToEbuild: parsing of SPDX text and the license-name characters of the final validation are not modelled; its bracket structure is. USE conditionals inside mapping values are read as plain words.
- EbuildRun.Ebuild.Update: the choice of which markers to rewrite, inserting a missing `LICENSE+=`, `update_crates` and `replace_configure_call` are not modelled.
- EbuildRun.UpdateIdempotent: cleanness is sufficient for a whole run, and exact for each pair of edits (`EbuildRun.OtherRegion`).
- DepGraph.DependencyGraph: `via_use_flag` labels and host aliases are not part of this model; package data is looked up directly.
- `gating_flag` labels, USE-dependency, repository and slot-operator collections, and sub-slot pinning in the compiler.
- PubGrub, resolvo and the provider's construction and solve loop; a solution is given.
- `Version` ordering and `Ranges` algebra live in crates that are not part of this model.
- `GraphStats` counters and timings, error texts, serialisation and I/O.
- `format_license_var` and `top_level_license_items`, which only lay out lines.
- `check_use_deps` and the resolvo side of dependency conversion.
