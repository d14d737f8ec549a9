/**
 * What the reconciler of lib/MintUtils.js:64-81 guarantees, and where it
 * does not keep the live DOM in step with the virtual tree.
 */
module DiffFacts {
  import opened Wrappers
  import opened VNodes
  import opened Dom
  import opened PatchFacts
  import opened CreateDom
  import opened Differ

  /** Every node of the tree is truthy and every element has a non-empty tag. */
  predicate Solid(v: VNode)
    decreases v
  {
    && Truthy(v)
    && (v.Element? ==> v.tag != "" && forall i :: 0 <= i < |v.children| ==> Solid(v.children[i]))
  }

  /**
   * Along every pair of same-tag elements the two trees share, no child list
   * shrinks by more than one and no number leaf changes.
   */
  predicate Settled(n: VNode, o: VNode)
    decreases n
  {
    if n.NumLeaf? && o.NumLeaf? then n == o
    else if n.Element? && o.Element? && n.tag == o.tag then
      && |o.children| <= |n.children| + 1
      && forall i :: 0 <= i < |n.children| && i < |o.children| ==> Settled(n.children[i], o.children[i])
    else true
  }

  lemma {:induction false} SolidTagsNamed(v: VNode)
    requires Solid(v)
    ensures TagsNamed(v)
    decreases v
  {
    if v.Element? {
      forall i | 0 <= i < |v.children| ensures TagsNamed(v.children[i]) {
        SolidTagsNamed(v.children[i]);
      }
    }
  }

  // ---------------------------------------------------------------------
  // Idempotence

  /** Diffing a solid tree against itself, over live nodes that show it, changes nothing. */
  lemma {:induction false} DiffSameIsNoop(parent: DomNode, v: VNode, index: nat)
    requires Solid(v) && index < |Kids(parent)| && Fits(parent.kids[index], v)
    ensures DiffOutcome(parent, Some(v), Some(v), index) == Ok(parent)
    decreases Depth(v), 1
  {
    assert Present(Some(v)) && !Replaces(v, v);
    if Descends(v) {
      var t := parent.kids[index];
      SamePropsNoWrites(v.props);
      assert ApplyWrites(t, PropWrites(v.props, v.props)) == Ok(t);
      ChildrenSameNoop(t, v, 0);
      assert parent.kids[index := t] == parent.kids;
      assert parent.(kids := parent.kids) == parent;
    }
  }

  lemma {:induction false} ChildrenSameNoop(t: DomNode, v: VNode, i: nat)
    requires v.Element? && Solid(v) && Fits(t, v) && i <= |v.children|
    ensures ChildrenOutcome(t, v, v, i) == Ok(t)
    decreases Depth(v), 0, |v.children| - i
  {
    if i < |v.children| {
      ChildShallower(v.children, i);
      DiffSameIsNoop(t, v.children[i], i);
      ChildrenSameNoop(t, v, i + 1);
    }
  }

  // ---------------------------------------------------------------------
  // The live DOM keeps showing the virtual tree

  /**
   * Diffing a solid tree against the solid tree the live child at `index`
   * shows leaves that child showing the new tree, as long as the two trees
   * are settled (see `ShrinkByTwoFails` and `NumberChangeIgnored` for what
   * happens otherwise).
   */
  lemma {:induction false} DiffKeepsFit(parent: DomNode, n: VNode, o: VNode, index: nat)
    requires Solid(n) && Solid(o) && Settled(n, o)
    requires index < |Kids(parent)| && Fits(parent.kids[index], o)
    ensures DiffOutcome(parent, Some(n), Some(o), index).Ok?
    ensures Fits(Kids(DiffOutcome(parent, Some(n), Some(o), index).value)[index], n)
    decreases Depth(n), 1
  {
    if Replaces(n, o) {
      SolidTagsNamed(n);
      MaterializeFits(n);
    } else if Descends(n) {
      var t0 := parent.kids[index];
      PatchReflects(t0, o.props, n.props);
      var t := ApplyWrites(t0, PropWrites(o.props, n.props)).value;
      ChildrenKeepFit(t, n, o, 0);
    }
  }

  lemma {:induction false} ChildrenKeepFit(t: DomNode, n: VNode, o: VNode, i: nat)
    requires n.Element? && o.Element? && n.tag == o.tag
    requires Solid(n) && Solid(o) && Settled(n, o)
    requires t.ElementNode? && i <= Width(n, o)
    requires |t.kids| == if i > |n.children| then |n.children| else if i < |o.children| then |o.children| else i
    requires forall j :: 0 <= j < i && j < |n.children| ==> Fits(t.kids[j], n.children[j])
    requires forall j :: i <= j < |o.children| && j < |t.kids| ==> Fits(t.kids[j], o.children[j])
    ensures ChildrenOutcome(t, n, o, i).Ok?
    ensures |Kids(ChildrenOutcome(t, n, o, i).value)| == |n.children|
    ensures forall j :: 0 <= j < |n.children| ==> Fits(Kids(ChildrenOutcome(t, n, o, i).value)[j], n.children[j])
    decreases Depth(n), 0, Width(n, o) - i
  {
    if i < Width(n, o) {
      var r := DiffOutcome(t, ChildAt(n.children, i), ChildAt(o.children, i), i);
      if i < |n.children| && i < |o.children| {
        ChildShallower(n.children, i);
        DiffKeepsFit(t, n.children[i], o.children[i], i);
      } else if i < |n.children| {
        SolidTagsNamed(n.children[i]);
        MaterializeFits(n.children[i]);
      }
      ChildrenKeepFit(r.value, n, o, i + 1);
    }
  }

  /** Growing or shrinking by one at the top level: the live child list ends up one-to-one with the new children. */
  lemma MaterializeThenDiffFits(parent: DomNode, n: VNode, o: VNode, index: nat)
    requires Solid(n) && Solid(o) && Settled(n, o)
    requires index < |Kids(parent)| && Materialize(o) == Ok(parent.kids[index])
    ensures DiffOutcome(parent, Some(n), Some(o), index).Ok?
    ensures Fits(Kids(DiffOutcome(parent, Some(n), Some(o), index).value)[index], n)
  {
    SolidTagsNamed(o);
    MaterializeFits(o);
    DiffKeepsFit(parent, n, o, index);
  }

  // ---------------------------------------------------------------------
  // Where the live DOM falls out of step

  /**
   * Shrinking a child list by two or more throws: the loop removes the child
   * at position `i` while the earlier removals have already shifted the
   * remaining children down, so it runs past the end of `childNodes`.
   */
  lemma ShrinkByTwoFails(parent: DomNode, n: VNode, o: VNode, index: nat)
    requires Descends(n) && o.Element? && o.tag == n.tag
    requires forall j :: 0 <= j < |n.children| ==> Truthy(n.children[j])
    requires forall j :: 0 <= j < |o.children| ==> Truthy(o.children[j])
    requires |o.children| >= |n.children| + 2
    requires index < |Kids(parent)| && parent.kids[index].ElementNode? && |parent.kids[index].kids| == |o.children|
    ensures DiffOutcome(parent, Some(n), Some(o), index).Err?
  {
    var t := ApplyWrites(parent.kids[index], PropWrites(o.props, n.props)).value;
    ChildrenShrinkFails(t, n, o, 0);
  }

  lemma {:induction false} ChildrenShrinkFails(t: DomNode, n: VNode, o: VNode, i: nat)
    requires n.Element? && o.Element?
    requires forall j :: 0 <= j < |n.children| ==> Truthy(n.children[j])
    requires forall j :: 0 <= j < |o.children| ==> Truthy(o.children[j])
    requires |o.children| >= |n.children| + 2
    requires i <= |n.children| && |Kids(t)| == |o.children|
    ensures ChildrenOutcome(t, n, o, i).Err?
    decreases |n.children| - i
  {
    if i < |n.children| {
      var r := DiffOutcome(t, ChildAt(n.children, i), ChildAt(o.children, i), i);
      if r.Ok? {
        ChildrenShrinkFails(r.value, n, o, i + 1);
      }
    } else {
      RemovalsFail(t, n, o, i);
    }
  }

  lemma {:induction false} RemovalsFail(t: DomNode, n: VNode, o: VNode, i: nat)
    requires n.Element? && o.Element?
    requires forall j :: 0 <= j < |o.children| ==> Truthy(o.children[j])
    requires |o.children| >= |n.children| + 2
    requires |n.children| <= i < |o.children|
    requires |Kids(t)| + i == |o.children| + |n.children|
    ensures ChildrenOutcome(t, n, o, i).Err?
    decreases |o.children| - i
  {
    var r := DiffOutcome(t, ChildAt(n.children, i), ChildAt(o.children, i), i);
    if r.Ok? {
      RemovalsFail(r.value, n, o, i + 1);
    }
  }

  /**
   * A number leaf that changes to another non-zero number is left alone
   * (`isSameNodeType` sees two `undefined` tags), so the live text node goes
   * on showing the old number.
   */
  lemma NumberChangeIgnored(parent: DomNode, a: int, b: int, index: nat)
    requires a != 0 && b != 0
    ensures DiffOutcome(parent, Some(NumLeaf(a)), Some(NumLeaf(b)), index) == Ok(parent)
    ensures a != b && index < |Kids(parent)| && Fits(parent.kids[index], NumLeaf(b)) ==>
              !Fits(Kids(DiffOutcome(parent, Some(NumLeaf(a)), Some(NumLeaf(b)), index).value)[index], NumLeaf(a))
  {
    if a != b && index < |Kids(parent)| && Fits(parent.kids[index], NumLeaf(b)) && Fits(parent.kids[index], NumLeaf(a)) {
      NumberTextInjective(a, b);
    }
  }

  /**
   * An old node that is falsy (`""` or `0`) counts as absent: the new node is
   * appended after the existing children instead of replacing the one at
   * `index`.
   */
  lemma FalsyOldAppends(parent: DomNode, n: VNode, o: VNode, index: nat)
    requires !Truthy(o) && parent.ElementNode? && TagsNamed(n)
    ensures Materialize(n).Ok?
    ensures DiffOutcome(parent, Some(n), Some(o), index) == Ok(parent.(kids := parent.kids + [Materialize(n).value]))
  {
    MaterializeFits(n);
  }

  /**
   * So re-rendering an element whose only child is `""` adds one more text
   * node each time: whatever children the live target already has, the
   * falsy old child makes `diff` append, and nothing else changes.
   */
  lemma RerenderEmptyTextGrows(parent: DomNode, tag: string, props: Props, index: nat)
    requires tag != "" && index < |Kids(parent)| && parent.kids[index].ElementNode?
    ensures DiffOutcome(parent, Some(Element(tag, props, [TextLeaf("")])), Some(Element(tag, props, [TextLeaf("")])), index).Ok?
    ensures Kids(DiffOutcome(parent, Some(Element(tag, props, [TextLeaf("")])), Some(Element(tag, props, [TextLeaf("")])), index).value)[index]
            == parent.kids[index].(kids := parent.kids[index].kids + [TextNode("", map[])])
  {
    var v := Element(tag, props, [TextLeaf("")]);
    var t := parent.kids[index];
    SamePropsNoWrites(props);
    assert ApplyWrites(t, PropWrites(props, props)) == Ok(t);
    var step := DiffOutcome(t, Some(TextLeaf("")), Some(TextLeaf("")), 0);
    assert step == Ok(t.(kids := t.kids + [TextNode("", map[])]));
    assert ChildrenOutcome(t, v, v, 0) == ChildrenOutcome(step.value, v, v, 1);
    assert ChildrenOutcome(step.value, v, v, 1) == Ok(step.value);
    assert !Replaces(v, v) && Descends(v);
    assert DiffOutcome(parent, Some(v), Some(v), index) == Ok(parent.(kids := parent.kids[index := step.value]));
  }

  /**
   * The replace branch: when the node type changed, `diff` succeeds exactly
   * when the new node can be created and `index` names a live child, and
   * then that child is the node `createDomNode(newVNode)` builds.
   */
  lemma DiffReplaces(parent: DomNode, n: VNode, o: VNode, index: nat)
    requires Truthy(n) && Truthy(o) && Replaces(n, o)
    ensures DiffOutcome(parent, Some(n), Some(o), index).Ok? <==> Materialize(n).Ok? && index < |Kids(parent)|
    ensures DiffOutcome(parent, Some(n), Some(o), index).Ok? ==>
              Materialize(n) == Ok(Kids(DiffOutcome(parent, Some(n), Some(o), index).value)[index])
  {
  }

  /**
   * The patch branch: the live child at `index` is kept, its props are
   * patched by exactly `PropWrites(oldProps, newProps)`, and only its
   * children change after that; a failing write is the outcome of `diff`.
   */
  lemma DiffPatchesInPlace(parent: DomNode, n: VNode, o: VNode, index: nat)
    requires Truthy(o) && !Replaces(n, o) && Descends(n) && index < |Kids(parent)|
    ensures ApplyWrites(parent.kids[index], PropWrites(o.props, n.props)).Err? ==>
              DiffOutcome(parent, Some(n), Some(o), index) == Err(ApplyWrites(parent.kids[index], PropWrites(o.props, n.props)).error)
    ensures DiffOutcome(parent, Some(n), Some(o), index).Ok? ==>
              && ApplyWrites(parent.kids[index], PropWrites(o.props, n.props)).Ok?
              && var child := Kids(DiffOutcome(parent, Some(n), Some(o), index).value)[index];
                 child == WithKids(ApplyWrites(parent.kids[index], PropWrites(o.props, n.props)).value, Kids(child))
  {
  }

  /**
   * Through `diff`, a handler field of a patched node holds the function of
   * the last changed key binding it, and otherwise keeps its old function:
   * a handler whose key disappears stays bound.
   */
  lemma DiffPatchedField(parent: DomNode, n: VNode, o: VNode, index: nat, name: string)
    requires Truthy(o) && !Replaces(n, o) && Descends(n) && index < |Kids(parent)|
    requires DiffOutcome(parent, Some(n), Some(o), index).Ok?
    ensures FieldAt(Kids(DiffOutcome(parent, Some(n), Some(o), index).value)[index], name) ==
              match LastHandlerKey(n.props.keys, o.props, n.props, name)
              case None => FieldAt(parent.kids[index], name)
              case Some(j) => Some(n.props.vals[n.props.keys[j]].handler)
  {
    DiffPatchesInPlace(parent, n, o, index);
    PatchedField(parent.kids[index], o.props, n.props, name);
  }

  /**
   * Through `diff`, an attribute of a patched element holds the new value if
   * it was set, is gone if its key vanished, and is otherwise untouched.
   */
  lemma DiffPatchedAttribute(parent: DomNode, n: VNode, o: VNode, index: nat, k: string)
    requires Truthy(o) && !Replaces(n, o) && Descends(n) && index < |Kids(parent)|
    requires parent.kids[index].ElementNode?
    requires DiffOutcome(parent, Some(n), Some(o), index).Ok?
    ensures AttrAt(Kids(DiffOutcome(parent, Some(n), Some(o), index).value)[index], k) ==
              if SetsAttribute(o.props, n.props, k) then Some(n.props.vals[k])
              else if k in o.props.vals && k !in n.props.vals then None
              else AttrAt(parent.kids[index], k)
  {
    DiffPatchesInPlace(parent, n, o, index);
    PatchedAttribute(parent.kids[index], o.props, n.props, k);
  }
}
