/** What the drop utilities promise about the shape of their output:
    which children survive, how they are wrapped, in what order, where
    `last` goes, and when a node is kept whole. */
module IrDropProperties {
  import opened Wasm
  import opened IrDrop

  /** The kept positions are exactly the children with unremovable
      effects, each listed once, in increasing order. */
  lemma {:induction false} KeptIndicesAreKeptChildren(a: Analysis, children: seq<Expression>)
    ensures forall j :: 0 <= j < |children| ==> (j in KeptIndices(a, children) <==> a.deep(children[j]))
    ensures forall i, j :: 0 <= i < j < |KeptIndices(a, children)| ==>
              KeptIndices(a, children)[i] < KeptIndices(a, children)[j]
  {
    if children != [] {
      var n := |children| - 1;
      var init := children[..n];
      KeptIndicesAreKeptChildren(a, init);
      forall j | 0 <= j < n
        ensures children[j] == init[j]
      {
      }
    }
  }

  /** The i-th collected element is the packaging of the i-th kept child. */
  lemma {:induction false} RetainedWrapsKeptChildren(a: Analysis, b: Builder, children: seq<Expression>)
    ensures |Retained(a, b, children)| == |KeptIndices(a, children)|
    ensures forall i :: 0 <= i < |KeptIndices(a, children)| ==>
              Retained(a, b, children)[i] == Wrap(b, children[KeptIndices(a, children)[i]])
  {
    if children != [] {
      var n := |children| - 1;
      var init := children[..n];
      RetainedWrapsKeptChildren(a, b, init);
      var idx := KeptIndices(a, init);
      forall i | 0 <= i < |idx|
        ensures children[idx[i]] == init[idx[i]]
      {
      }
    }
  }

  /** `getDroppedChildrenAndAppend` returns `last` itself exactly when no
      child is kept; otherwise an unnamed block holding, in order, every
      kept child (a concrete one inside a drop, any other one bare) and
      then `last`. */
  lemma DroppedChildrenLayout(a: Analysis, b: Builder, curr: Expression, last: Expression)
    ensures var r := DroppedChildrenAndAppend(a, b, curr, last);
            r == last <==> KeptIndices(a, curr.children) == []
    ensures var r := DroppedChildrenAndAppend(a, b, curr, last);
            var kept := KeptIndices(a, curr.children);
            kept != [] ==>
              r.kind == Block && r.name == NoName &&
              |r.children| == |kept| + 1 && r.children[|kept|] == last &&
              forall i :: 0 <= i < |kept| ==>
                (curr.children[kept[i]].ty.Concrete? ==> r.children[i] == MakeDrop(b, curr.children[kept[i]])) &&
                (!curr.children[kept[i]].ty.Concrete? ==> r.children[i] == curr.children[kept[i]])
  {
    RetainedWrapsKeptChildren(a, b, curr.children);
    var r := DroppedChildrenAndAppend(a, b, curr, last);
    if KeptIndices(a, curr.children) != [] {
      assert last in r.children;
    }
  }

  /** A child without unremovable effects is not an element of the
      output: neither in the block nor, when nothing is kept, as the
      result itself (unless it is `last`). The premise is that a drop
      passes its value's verdict up (a drop defines no branch target, so
      nothing inside it can branch to it); without it a discarded child
      `drop(k)` could equal the `drop(k)` built for a kept sibling `k`. */
  lemma DiscardedChildAbsent(a: Analysis, b: Builder, curr: Expression, last: Expression, child: Expression)
    requires forall k :: k in curr.children && a.deep(k) && k.ty.Concrete? ==> a.deep(MakeDrop(b, k))
    requires child in curr.children && !a.deep(child)
    ensures var r := DroppedChildrenAndAppend(a, b, curr, last);
            child !in Retained(a, b, curr.children) &&
            (r == last || child !in r.children[..|r.children| - 1])
  {
    var kept := KeptIndices(a, curr.children);
    var out := Retained(a, b, curr.children);
    RetainedWrapsKeptChildren(a, b, curr.children);
    KeptIndicesAreKeptChildren(a, curr.children);
    forall i | 0 <= i < |out|
      ensures out[i] != child
    {
      var k := curr.children[kept[i]];
      assert a.deep(k);
    }
    var r := DroppedChildrenAndAppend(a, b, curr, last);
    if r != last {
      assert r.children[..|r.children| - 1] == out;
    }
  }

  /** An if, a try, a pop or a node that defines a branch target is kept
      whole, as `drop(curr)` then `last`, whatever effects its children
      have: two analyses that differ only in their deep verdicts give the
      same result. */
  lemma StructuralNodesKeptWhole(a: Analysis, a': Analysis, b: Builder, curr: Expression, last: Expression)
    requires curr.kind == If || curr.kind == Try || curr.kind == Pop || curr.name.Named?
    ensures DroppedUnconditionalChildrenAndAppend(a, b, curr, last) == MakeSequence(b, MakeDrop(b, curr), last)
    ensures DroppedUnconditionalChildrenAndAppend(a', b, curr, last) == DroppedUnconditionalChildrenAndAppend(a, b, curr, last)
  {
  }

  /** `getDroppedUnconditionalChildrenAndAppend` returns `drop(curr)` then
      `last` exactly when `curr` must be kept whole, and otherwise the
      result of `getDroppedChildrenAndAppend`. */
  lemma KeptWholeExactly(a: Analysis, b: Builder, curr: Expression, last: Expression)
    ensures DroppedUnconditionalChildrenAndAppend(a, b, curr, last) == MakeSequence(b, MakeDrop(b, curr), last)
            <==> KeepsWhole(a, curr, last)
    ensures !KeepsWhole(a, curr, last) ==>
            DroppedUnconditionalChildrenAndAppend(a, b, curr, last) == DroppedChildrenAndAppend(a, b, curr, last)
  {
    var whole := MakeSequence(b, MakeDrop(b, curr), last);
    if !KeepsWhole(a, curr, last) {
      var r := DroppedChildrenAndAppend(a, b, curr, last);
      var kept := KeptIndices(a, curr.children);
      RetainedWrapsKeptChildren(a, b, curr.children);
      if kept == [] {
        // r is last, which is strictly inside whole
        assert last in whole.children;
      } else {
        // r begins with the packaging of a child of curr, strictly smaller than drop(curr)
        var k := curr.children[kept[0]];
        assert k in curr.children;
        assert r.children[0] == Wrap(b, k);
        var dropCurr := MakeDrop(b, curr);
        assert curr in dropCurr.children;
        if k.ty.Concrete? {
          assert MakeDrop(b, k).children != dropCurr.children;
        } else {
          assert k != dropCurr;
        }
        assert r.children[0] != whole.children[0];
      }
    }
  }

  /** Before an unreachable `last`, a node whose only own effect is that it
      may trap is not kept for that reason: an unnamed node other than an
      if, a try or a pop has its children dropped as usual. */
  lemma TrapIgnoredBeforeUnreachable(a: Analysis, b: Builder, curr: Expression, last: Expression)
    requires last.ty == Unreachable
    requires !a.shallowIgnoringTrap(curr)
    requires curr.kind != If && curr.kind != Try && curr.kind != Pop && curr.name == NoName
    ensures DroppedUnconditionalChildrenAndAppend(a, b, curr, last) == DroppedChildrenAndAppend(a, b, curr, last)
  {
  }

  /** The effects of the example below: only the call has any. This is
      not a whole-subtree analysis (the block around the call gets no
      verdict), which does no harm: the deep verdict is asked only of the
      block's children, never of the block. */
  predicate IsCall(e: Expression)
  {
    e.op == "call $f"
  }

  /** A block holding a constant, a call and a constant, replaced by an
      `unreachable`: only the call survives, inside a drop. */
  lemma CallSurvivesBlockBeforeUnreachable(b: Builder)
    ensures
      var one := Node(Other, "i32.const 1", Concrete, [], NoName);
      var call := Node(Other, "call $f", Concrete, [], NoName);
      var block := Node(Block, "", Concrete, [one, call, one], NoName);
      var trap := Node(Other, "unreachable", Unreachable, [], NoName);
      var a := Analysis(IsCall, IsCall, IsCall);
      DroppedUnconditionalChildrenAndAppend(a, b, block, trap) == MakeSequence(b, MakeDrop(b, call), trap)
  {
    var one := Node(Other, "i32.const 1", Concrete, [], NoName);
    var call := Node(Other, "call $f", Concrete, [], NoName);
    var children := [one, call, one];
    var a := Analysis(IsCall, IsCall, IsCall);
    assert !a.deep(one) && a.deep(call);
    assert [one][..0] == [];
    assert Retained(a, b, [one]) == [];
    assert [one, call][..1] == [one];
    assert Retained(a, b, [one, call]) == [MakeDrop(b, call)];
    assert children[..2] == [one, call];
    assert Retained(a, b, children) == [MakeDrop(b, call)];
    var block := Node(Block, "", Concrete, children, NoName);
    var trap := Node(Other, "unreachable", Unreachable, [], NoName);
    assert !KeepsWhole(a, block, trap);
    assert Retained(a, b, block.children) + [trap] == [MakeDrop(b, call), trap];
    assert DroppedChildrenAndAppend(a, b, block, trap) == MakeBlock(b, [MakeDrop(b, call), trap]);
  }
}
