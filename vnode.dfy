/**
 * The virtual-node model of lib/MintUtils.js: the values `createElement`
 * builds and `diff` compares. A child of an element is an element object, a
 * string or a number; JavaScript's truthiness makes `""` and `0` count as
 * absent wherever the engine tests a node with `!node`.
 */
module VNodes {
  import opened Wrappers

  /** Identity of a JavaScript function value (compared with `===`). */
  type HandlerId = nat

  /** A value stored under a key of a props object. */
  datatype PropValue = Str(s: string) | Num(n: int) | Bool(b: bool) | Callback(handler: HandlerId)

  /**
   * A plain props object: its own keys in the order `for...in` is taken to
   * visit them (given, not derived from JavaScript's integer-keys-first
   * rule) and the value under each key.
   */
  datatype Object = Object(keys: seq<string>, vals: map<string, PropValue>)

  ghost predicate WellFormed(o: Object)
  {
    && (forall i, j :: 0 <= i < j < |o.keys| ==> o.keys[i] != o.keys[j])
    && (forall k :: k in o.vals <==> k in o.keys)
  }

  type Props = o: Object | WellFormed(o) witness Object([], map[])

  /** The empty object literal `{}`. */
  const NoProps: Props := Object([], map[])

  datatype VNode =
    | TextLeaf(text: string)
    | NumLeaf(num: int)
    | Element(tag: string, props: Props, children: seq<VNode>)

  /** JavaScript truthiness of a node: the empty string and zero are falsy. */
  predicate Truthy(v: VNode)
  {
    v != TextLeaf("") && v != NumLeaf(0)
  }

  /** `!!node` for a node that may be `undefined`. */
  predicate Present(o: Option<VNode>)
  {
    o.Some? && Truthy(o.value)
  }

  /** `children[i]`, which is `undefined` past the end. */
  function ChildAt(cs: seq<VNode>, i: nat): (r: Option<VNode>)
    ensures r.Some? <==> i < |cs|
    ensures i < |cs| ==> r.value == cs[i]
  {
    if i < |cs| then Some(cs[i]) else None
  }

  /** One argument of the rest parameter `...children`: a node or an array of nodes. */
  datatype ChildArg = One(node: VNode) | Many(nodes: seq<VNode>)

  /** `children.flat()`: arrays among the arguments are spliced in, one level deep. */
  function Flatten(args: seq<ChildArg>): seq<VNode>
    decreases |args|
  {
    if args == [] then []
    else
      var last := args[|args| - 1];
      Flatten(args[..|args| - 1]) + Contribution(last)
  }

  /** `createElement(tag, props, ...children)`. */
  function CreateElement(tag: string, props: Option<Props>, children: seq<ChildArg>): (r: VNode)
    ensures r.Element? && r.tag == tag
    ensures props.None? ==> r.props.keys == [] && r.props.vals == map[]
    ensures props.Some? ==> r.props == props.value
    ensures r.children == Flatten(children)
  {
    Element(tag, if props.Some? then props.value else NoProps, Flatten(children))
  }

  /** Flattening distributes over concatenation of the argument list, so order is kept. */
  lemma {:induction false} FlattenConcat(a: seq<ChildArg>, b: seq<ChildArg>)
    ensures Flatten(a + b) == Flatten(a) + Flatten(b)
    decreases |b|
  {
    if b == [] {
      assert a + b == a;
    } else {
      var n := |b| - 1;
      var ab := a + b;
      assert ab[..|ab| - 1] == a + b[..n];
      assert ab[|ab| - 1] == b[n];
      assert Flatten(ab) == Flatten(a + b[..n]) + Contribution(b[n]);
      FlattenConcat(a, b[..n]);
      assert Flatten(b) == Flatten(b[..n]) + Contribution(b[n]);
      assert (Flatten(a) + Flatten(b[..n])) + Contribution(b[n]) == Flatten(a) + (Flatten(b[..n]) + Contribution(b[n]));
    }
  }

  /** Node arguments pass through unchanged; an array argument contributes its elements in order. */
  lemma {:induction false} FlattenOneLevel(args: seq<ChildArg>, i: nat)
    requires i < |args|
    ensures Flatten(args) == Flatten(args[..i]) + Contribution(args[i]) + Flatten(args[i + 1..])
  {
    var pre, one, post := args[..i], [args[i]], args[i + 1..];
    assert args[..i + 1] == pre + one;
    assert args == args[..i + 1] + post;
    FlattenConcat(args[..i + 1], post);
    FlattenConcat(pre, one);
    FlattenSingle(args[i]);
  }

  lemma FlattenSingle(a: ChildArg)
    ensures Flatten([a]) == Contribution(a)
  {
    assert [a][..0] == [];
  }

  /** What one argument adds to `children.flat()`. */
  function Contribution(a: ChildArg): seq<VNode>
  {
    if a.One? then [a.node] else a.nodes
  }

  /** The tag seen by `a.tag`: elements have one, strings and numbers give `undefined`. */
  function TagOf(v: VNode): Option<string>
  {
    if v.Element? then Some(v.tag) else None
  }

  /** `isSameNodeType(a, b)`: `a && b && a.tag === b.tag`. */
  function IsSameNodeType(a: Option<VNode>, b: Option<VNode>): (r: bool)
    ensures r ==> Present(a) && Present(b)
    ensures Present(a) && Present(b) && !a.value.Element? && !b.value.Element? ==> r
    ensures Present(a) && Present(b) && a.value.Element? ==>
              (r <==> b.value.Element? && a.value.tag == b.value.tag)
    ensures Present(a) && Present(b) && b.value.Element? && !a.value.Element? ==> !r
  {
    Present(a) && Present(b) && TagOf(a.value) == TagOf(b.value)
  }

  /** Height of a tree; recursion in the differ descends by it. */
  function Depth(v: VNode): nat
  {
    if v.Element? then 1 + MaxDepth(v.children) else 0
  }

  function MaxDepth(cs: seq<VNode>): nat
  {
    if cs == [] then 0
    else
      var d, m := Depth(cs[0]), MaxDepth(cs[1..]);
      if d < m then m else d
  }

  lemma {:induction false} ChildShallower(cs: seq<VNode>, i: nat)
    requires i < |cs|
    ensures Depth(cs[i]) <= MaxDepth(cs)
  {
    if i > 0 {
      ChildShallower(cs[1..], i - 1);
    }
  }
}
