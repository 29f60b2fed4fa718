/** The slice of Binaryen's IR that the drop utilities read and build:
    expression nodes, their types, the builder that allocates new nodes,
    and the effect analyses, which are consulted but not modelled. */
module Wasm {

  /** The node classes the drop utilities dispatch on; every other class
      of expression is `Other`. */
  datatype Kind = If | Try | Pop | Block | Loop | Drop | Other

  /** An expression's type, as far as the drop utilities look at it:
      a concrete value type, `none`, or `unreachable`. */
  datatype Type = Concrete | None | Unreachable

  /** The branch-target name a node defines (a labelled block, loop or
      try); `NoName` when the name is not set. */
  datatype Name = NoName | Named(text: string)

  /** An expression node. `op` stands for the operator and immediates the
      drop utilities never inspect; `children` are the direct children in
      the order the child iterator yields them; `name` is the branch
      target the node defines. */
  datatype Expression = Node(kind: Kind, op: string, ty: Type, children: seq<Expression>, name: Name)

  /** The node builder. How a new drop or block computes its type is not
      part of this model, so it is a parameter. */
  datatype Builder = Builder(finalize: (Kind, seq<Expression>) -> Type)

  /** `builder.makeDrop(value)` */
  function MakeDrop(b: Builder, value: Expression): Expression
  {
    Node(Drop, "", b.finalize(Drop, [value]), [value], NoName)
  }

  /** `builder.makeBlock(list)`: an unnamed block of the given elements. */
  function MakeBlock(b: Builder, list: seq<Expression>): Expression
  {
    Node(Block, "", b.finalize(Block, list), list, NoName)
  }

  /** `builder.makeSequence(left, right)`: an unnamed two-element block. */
  function MakeSequence(b: Builder, left: Expression, right: Expression): Expression
  {
    MakeBlock(b, [left, right])
  }

  /** The effect analyses, for a fixed module and fixed pass options.
      `deep` is `EffectAnalyzer(...).hasUnremovableSideEffects()` over a
      whole subtree; `shallow` is the same question put to a
      `ShallowEffectAnalyzer` of one node alone; `shallowIgnoringTrap` is
      that question once the shallow analysis has had its `trap` flag
      cleared. */
  datatype Analysis = Analysis(
    deep: Expression -> bool,
    shallow: Expression -> bool,
    shallowIgnoringTrap: Expression -> bool)
}
