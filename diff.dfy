/**
 * The reconciler `diff($parent, newVNode, oldVNode, index)` of
 * lib/MintUtils.js:64-81, on live nodes as values.
 *
 * `DiffOutcome` is what one call does to `$parent` (the new parent node) or
 * which exception it throws; `ChildrenOutcome` is the loop over child
 * positions. The methods `Diff` and `DiffChildNodes` follow the code step by
 * step and are proved to compute them.
 */
module Differ {
  import opened Wrappers
  import opened VNodes
  import opened Dom
  import opened CreateDom

  /** `childNodes` of a live node (a text node has none). */
  function Kids(n: DomNode): seq<DomNode>
  {
    if n.ElementNode? then n.kids else []
  }

  /** The same node with another child list (a text node keeps none). */
  function WithKids(n: DomNode, ks: seq<DomNode>): DomNode
  {
    if n.ElementNode? then n.(kids := ks) else n
  }

  /** `typeof`: strings, numbers and objects. */
  datatype Kind = StringKind | NumberKind | ObjectKind

  function KindOf(v: VNode): Kind
  {
    match v
    case TextLeaf(_) => StringKind
    case NumLeaf(_) => NumberKind
    case Element(_, _, _) => ObjectKind
  }

  /** The third branch of `diff`: the live node is replaced by a fresh one. */
  predicate Replaces(n: VNode, o: VNode)
  {
    || KindOf(n) != KindOf(o)
    || (n.TextLeaf? && n != o)
    || !IsSameNodeType(Some(n), Some(o))
  }

  /** `newVNode.tag` is truthy: the fourth branch patches and descends. */
  predicate Descends(n: VNode)
  {
    n.Element? && n.tag != ""
  }

  /** `diff(undefined, n, o, i)` does nothing only in the last, empty branch; any other branch throws. */
  predicate Quiet(n: Option<VNode>, o: Option<VNode>)
  {
    Present(o) && Present(n) && !Replaces(n.value, o.value) && !Descends(n.value)
  }

  /** The bound of the children loop: `i < newLen || i < oldLen`. */
  function Width(n: VNode, o: VNode): nat
    requires n.Element? && o.Element?
  {
    if |n.children| < |o.children| then |o.children| else |n.children|
  }

  predicate AllQuiet(n: VNode, o: VNode)
    requires n.Element? && o.Element?
  {
    forall i :: 0 <= i < Width(n, o) ==> Quiet(ChildAt(n.children, i), ChildAt(o.children, i))
  }

  // ---------------------------------------------------------------------
  // Termination measure

  function DepthOf(o: Option<VNode>): nat
  {
    if o.Some? then Depth(o.value) else 0
  }

  function Rank(a: Option<VNode>, b: Option<VNode>): nat
  {
    if DepthOf(a) < DepthOf(b) then DepthOf(b) else DepthOf(a)
  }

  lemma ChildRank(n: VNode, o: VNode, i: nat)
    requires n.Element? && o.Element?
    ensures Rank(ChildAt(n.children, i), ChildAt(o.children, i)) < Rank(Some(n), Some(o))
  {
    if i < |n.children| {
      ChildShallower(n.children, i);
    }
    if i < |o.children| {
      ChildShallower(o.children, i);
    }
  }

  // ---------------------------------------------------------------------
  // The reconciler

  /**
   * What `diff(parent, newNode, oldNode, index)` does to `parent`. `None` stands for
   * `undefined` (a position past the end of a child array). The shape of
   * the change follows the branch taken: append, remove at `index`, or
   * change only the child at `index`.
   */
  function DiffOutcome(parent: DomNode, newNode: Option<VNode>, oldNode: Option<VNode>, index: nat): (r: Result<DomNode, DomError>)
    ensures r.Ok? ==> r.value == WithKids(parent, Kids(r.value))
    ensures r.Ok? && !Present(oldNode) ==>
              && parent.ElementNode? && newNode.Some? && |Kids(r.value)| == |parent.kids| + 1
              && Kids(r.value)[..|parent.kids|] == parent.kids
              && Materialize(newNode.value) == Ok(Kids(r.value)[|parent.kids|])
    ensures r.Ok? && Present(oldNode) && !Present(newNode) ==>
              index < |Kids(parent)| && Kids(r.value) == parent.kids[..index] + parent.kids[index + 1..]
    ensures r.Ok? && Present(oldNode) && Present(newNode) ==>
              && |Kids(r.value)| == |Kids(parent)|
              && forall j :: 0 <= j < |Kids(parent)| && j != index ==> Kids(r.value)[j] == Kids(parent)[j]
    decreases Rank(newNode, oldNode), 1
  {
    if !Present(oldNode) then
      if newNode.None? then Err(TypeError)
      else
        match Materialize(newNode.value)
        case Err(e) => Err(e)
        case Ok(d) => if parent.ElementNode? then Ok(parent.(kids := parent.kids + [d])) else Err(HierarchyRequestError)
    else if !Present(newNode) then
      if index < |Kids(parent)| then Ok(parent.(kids := parent.kids[..index] + parent.kids[index + 1..]))
      else Err(TypeError)
    else if Replaces(newNode.value, oldNode.value) then
      match Materialize(newNode.value)
      case Err(e) => Err(e)
      case Ok(d) => if index < |Kids(parent)| then Ok(parent.(kids := parent.kids[index := d])) else Err(TypeError)
    else if Descends(newNode.value) then
      var n, o := newNode.value, oldNode.value;
      if index < |Kids(parent)| then
        match ApplyWrites(parent.kids[index], PropWrites(o.props, n.props))
        case Err(e) => Err(e)
        case Ok(t) =>
          match ChildrenOutcome(t, n, o, 0)
          case Err(e) => Err(e)
          case Ok(t') => Ok(parent.(kids := parent.kids[index := t']))
      // the target is `undefined`: any write to it, or any child call that touches it, throws
      else if PropWrites(o.props, n.props) == [] && AllQuiet(n, o) then Ok(parent)
      else Err(TypeError)
    else Ok(parent)
  }

  /** The loop `for (i = start; i < newLen || i < oldLen; i++) diff(target, n.children[i], o.children[i], i)`. */
  function ChildrenOutcome(t: DomNode, n: VNode, o: VNode, i: nat): (r: Result<DomNode, DomError>)
    requires n.Element? && o.Element?
    ensures r.Ok? ==> r.value == WithKids(t, Kids(r.value))
    decreases Rank(Some(n), Some(o)), 0, Width(n, o) - i
  {
    if i >= Width(n, o) then Ok(t)
    else
      ChildRank(n, o, i);
      match DiffOutcome(t, ChildAt(n.children, i), ChildAt(o.children, i), i)
      case Err(e) => Err(e)
      case Ok(t') => ChildrenOutcome(t', n, o, i + 1)
  }

  /** `diff($parent, newVNode, oldVNode, index)`. */
  method Diff(parent: DomNode, newNode: Option<VNode>, oldNode: Option<VNode>, index: nat) returns (r: Result<DomNode, DomError>)
    ensures r == DiffOutcome(parent, newNode, oldNode, index)
    decreases Rank(newNode, oldNode), 1
  {
    if !Present(oldNode) {
      if newNode.None? {
        return Err(TypeError);
      }
      var d := CreateDomNode(newNode.value);
      if d.Err? {
        return Err(d.error);
      }
      if !parent.ElementNode? {
        return Err(HierarchyRequestError);
      }
      return Ok(parent.(kids := parent.kids + [d.value]));
    } else if !Present(newNode) {
      if index >= |Kids(parent)| {
        return Err(TypeError);
      }
      return Ok(parent.(kids := parent.kids[..index] + parent.kids[index + 1..]));
    } else if Replaces(newNode.value, oldNode.value) {
      var d := CreateDomNode(newNode.value);
      if d.Err? {
        return Err(d.error);
      }
      if index >= |Kids(parent)| {
        return Err(TypeError);
      }
      return Ok(parent.(kids := parent.kids[index := d.value]));
    } else if Descends(newNode.value) {
      var n, o := newNode.value, oldNode.value;
      if index >= |Kids(parent)| {
        if PropWrites(o.props, n.props) == [] && AllQuiet(n, o) {
          return Ok(parent);
        }
        return Err(TypeError);
      }
      var t := UpdateProps(parent.kids[index], o.props, n.props);
      if t.Err? {
        return Err(t.error);
      }
      var t' := DiffChildNodes(t.value, n, o);
      if t'.Err? {
        return Err(t'.error);
      }
      return Ok(parent.(kids := parent.kids[index := t'.value]));
    }
    return Ok(parent);
  }

  /** The children loop of `diff` (lines 75-79), on the patched target `t`. */
  method DiffChildNodes(t: DomNode, n: VNode, o: VNode) returns (r: Result<DomNode, DomError>)
    requires n.Element? && o.Element?
    ensures r == ChildrenOutcome(t, n, o, 0)
    decreases Rank(Some(n), Some(o)), 0
  {
    var cur := t;
    var i := 0;
    while i < |n.children| || i < |o.children|
      invariant i <= Width(n, o)
      invariant ChildrenOutcome(cur, n, o, i) == ChildrenOutcome(t, n, o, 0)
      decreases Width(n, o) - i
    {
      ChildRank(n, o, i);
      var step := Diff(cur, ChildAt(n.children, i), ChildAt(o.children, i), i);
      if step.Err? {
        return step;
      }
      cur := step.value;
      i := i + 1;
    }
    return Ok(cur);
  }
}
