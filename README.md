# Binaryen drop utilities, modelled in Dafny

Binaryen's optimizer sometimes finds that an expression's value is not
needed. Before it removes the expression, it must keep any effects the
expression's children have. `src/ir/drop.h` builds the replacement. The
caller supplies a trailing expression `last`, usually what the original is
replaced with.

- `getDroppedChildrenAndAppend` walks the direct children in order. It
  skips each child whose (deep) effect analysis finds nothing unremovable.
  It wraps a kept child of concrete type in a `drop` and keeps any other
  kept child bare. It appends `last`. The result is `last` alone when
  nothing else was kept, otherwise a block.
- `getDroppedUnconditionalChildrenAndAppend` first looks at the node's own
  (shallow) effects, not counting a possible trap when `last` is
  unreachable. It keeps the node whole, as `drop(curr)` followed by `last`,
  in these cases: those effects are unremovable, the node is an `if`, a
  `try` or a `pop`, or it defines a branch target. Otherwise it hands off to
  `getDroppedChildrenAndAppend`.

Files:

- `wasm.dfy` (module `Wasm`) holds the IR. It has the expression node (a
  kind, a type that is concrete, `none` or `unreachable`, the direct
  children, and the branch-target name it defines). It also has an `op`
  string standing for the operator and immediates. The drop utilities never
  read `op`; it lets the example lemma tell a call from a constant. The
  module also has the node builder (`MakeDrop`, `MakeBlock`, `MakeSequence`) and the effect analyses.
  The analyses are uninterpreted: `Analysis` carries a deep verdict, a
  shallow verdict and a shallow verdict with the trap flag cleared, each as
  a function parameter. How the builder types a new drop or block is also
  a parameter (`Builder.finalize`).
- `drop.dfy` (module `IrDrop`) holds the two entry points as methods. The
  child loop of `getDroppedChildrenAndAppend` is a `while` loop that
  collects into a local sequence. Each method is proved equal to a
  specification function (`DroppedChildrenAndAppend`,
  `DroppedUnconditionalChildrenAndAppend`).
- `drop_properties.dfy` (module `IrDropProperties`) holds the lemmas about
  those specification functions: which children survive, how they are
  wrapped, their order, where `last` goes, and when a node is kept whole.

## Model

| member | source | states |
|---|---|---|
| IrDrop.GetDroppedChildrenAndAppend | src/ir/drop.h:36-59 | The loop over the children returns exactly the specification `DroppedChildrenAndAppend`: the kept children, packaged, then `last`, bare or in a block |
| IrDrop.GetDroppedUnconditionalChildrenAndAppend | src/ir/drop.h:101-133 | Applying the keep-whole test `KeepsWhole` and otherwise delegating to the loop method returns exactly `DroppedUnconditionalChildrenAndAppend` |
| IrDrop.Wrap | src/ir/drop.h:46-52 | A kept child is returned unchanged exactly when its type is not concrete; otherwise it comes back as a drop whose only child is that child |
| IrDrop.Retained | src/ir/drop.h:41-53 | The children the loop collects, packaged by `Wrap`, in child order; there is one element per kept position |
| IrDrop.DroppedChildrenAndAppend | src/ir/drop.h:36-59 | Specification of `getDroppedChildrenAndAppend`: the collected children then `last`, returned bare when that is the only element and as an unnamed block otherwise; its layout is proved in `DroppedChildrenLayout` |
| IrDrop.KeepsWhole | src/ir/drop.h:113-128 | The keep-whole test: the shallow verdict holds (the trap-cleared one when `last` is unreachable), or the node is an `if`, `try` or `pop`, or it defines a branch target; `KeptWholeExactly` ties it to the result |
| IrDrop.DroppedUnconditionalChildrenAndAppend | src/ir/drop.h:101-133 | Specification of `getDroppedUnconditionalChildrenAndAppend`: `drop(curr)` then `last` when `KeepsWhole` holds, otherwise `DroppedChildrenAndAppend`; proved in `KeptWholeExactly`, `StructuralNodesKeptWhole` and `TrapIgnoredBeforeUnreachable` |
| IrDrop.KeptIndices | src/ir/drop.h:42-45 | There are never more kept positions than children, and every kept position is the index of a child |
| IrDropProperties.KeptIndicesAreKeptChildren | src/ir/drop.h:42-45 | A child's position is kept if and only if the deep analysis reports unremovable effects for it; each position is kept at most once, in increasing order |
| IrDropProperties.RetainedWrapsKeptChildren | src/ir/drop.h:41-53 | The collected sequence has one element per kept child, in the children's order, each the packaging of that child |
| IrDropProperties.DroppedChildrenLayout | src/ir/drop.h:46-58 | The result is `last` itself if and only if no child is kept. Otherwise it is an unnamed block of length kept + 1 that ends with `last`. A kept concrete child appears as `drop(child)`; a kept child of type none or unreachable appears unwrapped |
| IrDropProperties.DiscardedChildAbsent | src/ir/drop.h:42-45 | A child without unremovable effects is not an element of the output before `last`. This holds when wrapping a kept concrete child in a drop keeps its deep verdict |
| IrDropProperties.StructuralNodesKeptWhole | src/ir/drop.h:126-131 | An `if`, `try`, `pop` or a node defining a branch target yields `drop(curr)` then `last`. The result is the same under any deep analysis, so the children are never looked at |
| IrDropProperties.KeptWholeExactly | src/ir/drop.h:113-132 | The result is `drop(curr)` then `last` if and only if the keep-whole test holds; otherwise it is the result of `getDroppedChildrenAndAppend` |
| IrDropProperties.TrapIgnoredBeforeUnreachable | src/ir/drop.h:113-132 | With an unreachable `last`, a node whose shallow effects are removable once the trap is ignored, that is not an `if`/`try`/`pop` and defines no name, has its children dropped as usual |
| IrDropProperties.CallSurvivesBlockBeforeUnreachable | src/ir/drop.h:101-133 | A block of constant, call, constant, replaced by `unreachable`, becomes `drop(call)` then `unreachable` |

## Left out

- The effect analyses (`EffectAnalyzer`, `ShallowEffectAnalyzer`, in `ir/effects.h`) are not part of this model. They are parameters. `DiscardedChildAbsent` additionally assumes that a drop around a kept concrete child has unremovable effects too. Binaryen's analysis meets this: a drop has no effects of its own and defines no branch target, so its value's effects pass up unchanged. A stronger premise, that every parent has a child's deep effects, would not hold: a `br $l` inside `block $l` has effects that the block as a whole does not.
- `ChildIterator`, `BranchUtils::getDefinedName`, `Builder`, the `Module` arena and `PassOptions` are not part of this model. The children and the defined name are fields of the node. Builder calls are functions that build nodes. The pass options and the module are fixed inside the `Analysis` value.
- The types of the blocks and drops the builder creates (`finalize`) are not modelled, so no lemma states the type of a result.
- The keep-whole branch wraps `curr` in a drop without checking that `curr` has a concrete type. The model reproduces this as written and proves no typing guarantee.
- No lemma claims the replacement executes like the original. That would need WebAssembly's execution semantics and the real effect analysis.
- Node identity (pointers into the module arena) is not modelled: nodes are values, so "appears once" is stated over positions of the child sequence (`KeptIndices`).
