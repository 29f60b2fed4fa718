/** Binaryen's drop utilities: replace an expression whose value is no
    longer needed by the children whose effects must stay, followed by a
    trailing expression that the caller supplies. */
module IrDrop {
  import opened Wasm

  /** How a kept child is packaged: a child with a concrete type is
      wrapped in a drop, a child of type none or unreachable stays as it is. */
  function Wrap(b: Builder, child: Expression): (r: Expression)
    ensures r == child <==> !child.ty.Concrete?
    ensures r == child || (r.kind == Drop && r.children == [child])
  {
    assert child in MakeDrop(b, child).children;
    if child.ty.Concrete? then MakeDrop(b, child) else child
  }

  /** The positions of the children the deep analysis says must be kept,
      in increasing order. */
  function KeptIndices(a: Analysis, children: seq<Expression>): (r: seq<nat>)
    ensures |r| <= |children|
    ensures forall i :: 0 <= i < |r| ==> r[i] < |children|
  {
    if children == [] then []
    else
      var n := |children| - 1;
      KeptIndices(a, children[..n]) + (if a.deep(children[n]) then [n] else [])
  }

  /** The packaged kept children, in the order the loop collects them. */
  function Retained(a: Analysis, b: Builder, children: seq<Expression>): (r: seq<Expression>)
    ensures |r| == |KeptIndices(a, children)|
  {
    if children == [] then []
    else
      var n := |children| - 1;
      Retained(a, b, children[..n]) + (if a.deep(children[n]) then [Wrap(b, children[n])] else [])
  }

  /** What `getDroppedChildrenAndAppend` returns: the packaged kept
      children followed by `last`, bare when nothing else is kept and
      otherwise as one block. */
  function DroppedChildrenAndAppend(a: Analysis, b: Builder, curr: Expression, last: Expression): Expression
  {
    var contents := Retained(a, b, curr.children) + [last];
    if |contents| == 1 then last else MakeBlock(b, contents)
  }

  /** Whether `getDroppedUnconditionalChildrenAndAppend` keeps `curr` as a
      whole: its own effects cannot be removed (a possible trap does not
      count when `last` is unreachable), or it is an if, a try or a pop, or
      it defines a branch target. */
  predicate KeepsWhole(a: Analysis, curr: Expression, last: Expression)
  {
    // before an unreachable last the replacement traps anyhow, so a trap in curr is not an effect to keep
    var unremovable := if last.ty == Unreachable then a.shallowIgnoringTrap(curr) else a.shallow(curr);
    unremovable || curr.kind == If || curr.kind == Try || curr.kind == Pop || curr.name.Named?
  }

  /** What `getDroppedUnconditionalChildrenAndAppend` returns. */
  function DroppedUnconditionalChildrenAndAppend(a: Analysis, b: Builder, curr: Expression, last: Expression): Expression
  {
    if KeepsWhole(a, curr, last) then MakeSequence(b, MakeDrop(b, curr), last)
    else DroppedChildrenAndAppend(a, b, curr, last)
  }

  /** `getDroppedChildrenAndAppend`: one pass over the direct children,
      skipping those without unremovable effects and collecting the others,
      then `last`. */
  method GetDroppedChildrenAndAppend(a: Analysis, b: Builder, curr: Expression, last: Expression)
    returns (r: Expression)
    ensures r == DroppedChildrenAndAppend(a, b, curr, last)
  {
    var contents: seq<Expression> := [];
    var i := 0;
    while i < |curr.children|
      invariant i <= |curr.children|
      invariant contents == Retained(a, b, curr.children[..i])
    {
      var child := curr.children[i];
      assert curr.children[..i + 1][..i] == curr.children[..i];
      if a.deep(child) {
        if child.ty.Concrete? {
          contents := contents + [MakeDrop(b, child)];
        } else {
          // unreachable or none: kept without a drop
          contents := contents + [child];
        }
      }
      i := i + 1;
    }
    assert curr.children[..i] == curr.children;
    contents := contents + [last];
    if |contents| == 1 {
      r := contents[0];
    } else {
      r := MakeBlock(b, contents);
    }
  }

  /** `getDroppedUnconditionalChildrenAndAppend`: keep `curr` whole behind
      a drop when splitting it is not safe, otherwise drop its children. */
  method GetDroppedUnconditionalChildrenAndAppend(a: Analysis, b: Builder, curr: Expression, last: Expression)
    returns (r: Expression)
    ensures r == DroppedUnconditionalChildrenAndAppend(a, b, curr, last)
  {
    if KeepsWhole(a, curr, last) {
      r := MakeSequence(b, MakeDrop(b, curr), last);
    } else {
      r := GetDroppedChildrenAndAppend(a, b, curr, last);
    }
  }
}
