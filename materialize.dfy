/**
 * `createDomNode` (lib/MintUtils.js:52-62): building live nodes for a
 * virtual tree, and what it means for a live node to show a virtual one.
 */
module CreateDom {
  import opened Wrappers
  import opened VNodes
  import opened Dom
  import opened PatchFacts

  // ---------------------------------------------------------------------
  // Number to text (`createTextNode` stringifies its argument)

  function Digit(d: nat): char
    requires d < 10
  {
    "0123456789"[d]
  }

  function NaturalText(n: nat): (r: string)
    ensures |r| > 0
    ensures forall i :: 0 <= i < |r| ==> '0' <= r[i] <= '9'
    ensures r[0] == '0' ==> n == 0
    decreases n
  {
    if n < 10 then [Digit(n)] else NaturalText(n / 10) + [Digit(n % 10)]
  }

  /** `String(n)` for an integer `n`: optional minus sign, then decimal digits without leading zeros. */
  function NumberText(n: int): (r: string)
    ensures |r| > 0
    ensures r[0] == '-' <==> n < 0
    ensures forall i :: 0 < i < |r| ==> '0' <= r[i] <= '9'
  {
    if n < 0 then "-" + NaturalText(-n) else NaturalText(n)
  }

  /** Decimal value of a digit string, the inverse of `NaturalText`. */
  function DecimalValue(s: string): nat
    requires forall i :: 0 <= i < |s| ==> '0' <= s[i] <= '9'
    decreases |s|
  {
    if s == [] then 0 else 10 * DecimalValue(s[..|s| - 1]) + (s[|s| - 1] - '0') as nat
  }

  lemma {:induction false} NaturalTextRoundTrip(n: nat)
    ensures DecimalValue(NaturalText(n)) == n
    decreases n
  {
    if n >= 10 {
      NaturalTextRoundTrip(n / 10);
      var s := NaturalText(n);
      assert s[..|s| - 1] == NaturalText(n / 10);
    }
  }

  /** The number a text shows: the inverse of `NumberText`. */
  function NumberValue(s: string): int
    requires |s| > 0
    requires forall i :: 0 < i < |s| ==> '0' <= s[i] <= '9'
    requires s[0] != '-' ==> '0' <= s[0] <= '9'
  {
    if s[0] == '-' then -(DecimalValue(s[1..]) as int) else DecimalValue(s)
  }

  lemma NumberTextRoundTrip(n: int)
    ensures NumberValue(NumberText(n)) == n
  {
    if n < 0 {
      var s := NumberText(n);
      assert s[1..] == NaturalText(-n);
      assert NumberValue(s) == -(DecimalValue(NaturalText(-n)) as int);
      NaturalTextRoundTrip(-n);
    } else {
      NaturalTextRoundTrip(n);
    }
  }

  /** Distinct numbers are shown as distinct texts. */
  lemma NumberTextInjective(a: int, b: int)
    requires NumberText(a) == NumberText(b)
    ensures a == b
  {
    NumberTextRoundTrip(a);
    NumberTextRoundTrip(b);
  }

  // ---------------------------------------------------------------------
  // Materializing a virtual tree

  /** `document.createElement(tag)` followed by `updateProps($el, {}, props)`. */
  function Shell(tag: string, props: Props): (r: DomNode)
    ensures r.ElementNode? && r.tag == tag && r.kids == []
  {
    ApplyWrites(ElementNode(tag, map[], map[], []), PropWrites(NoProps, props)).value
  }

  /** What `createDomNode(v)` returns or throws. */
  function Materialize(v: VNode): Result<DomNode, DomError>
    decreases v
  {
    match v
    case TextLeaf(s) => Ok(TextNode(s, map[]))
    case NumLeaf(n) => Ok(TextNode(NumberText(n), map[]))
    case Element(tag, props, cs) =>
      if tag == "" then Err(InvalidCharacterError) else AppendAll(Shell(tag, props), cs)
  }

  /** `cs.forEach(child => $el.appendChild(createDomNode(child)))`. */
  function AppendAll(el: DomNode, cs: seq<VNode>): Result<DomNode, DomError>
    requires el.ElementNode?
    decreases cs
  {
    if cs == [] then Ok(el)
    else
      match Materialize(cs[0])
      case Err(e) => Err(e)
      case Ok(k) => AppendAll(el.(kids := el.kids + [k]), cs[1..])
  }

  /** Every element of the tree has a non-empty tag. */
  predicate TagsNamed(v: VNode)
    decreases v
  {
    v.Element? ==> v.tag != "" && forall i :: 0 <= i < |v.children| ==> TagsNamed(v.children[i])
  }

  /**
   * The attributes of a live element agree with a props object: each
   * non-handler prop is present with its value, and no attribute comes from
   * outside the props.
   */
  ghost predicate Reflects(attrs: map<string, PropValue>, props: Props)
  {
    && (forall k :: k in props.vals && !IsHandlerEntry(k, props.vals[k]) ==> k in attrs && attrs[k] == props.vals[k])
    && (forall k :: k in attrs ==> k in props.vals)
  }

  /** A live node shows a virtual node: same kind, text, tag, attributes and, recursively, children. */
  ghost predicate Fits(d: DomNode, v: VNode)
    decreases v
  {
    match v
    case TextLeaf(s) => d.TextNode? && d.data == s
    case NumLeaf(n) => d.TextNode? && d.data == NumberText(n)
    case Element(tag, props, cs) =>
      && d.ElementNode? && d.tag == tag && Reflects(d.attrs, props) && |d.kids| == |cs|
      && forall i :: 0 <= i < |cs| ==> Fits(d.kids[i], cs[i])
  }

  /** Patching an element whose attributes agree with `oldProps` makes them agree with `newProps`. */
  lemma PatchReflects(e: DomNode, oldProps: Props, newProps: Props)
    requires e.ElementNode? && Reflects(e.attrs, oldProps)
    ensures Reflects(ApplyWrites(e, PropWrites(oldProps, newProps)).value.attrs, newProps)
  {
    var r := ApplyWrites(e, PropWrites(oldProps, newProps)).value;
    forall k ensures AttrAt(r, k) == if k in newProps.vals && !IsHandlerEntry(k, newProps.vals[k]) then Some(newProps.vals[k]) else if k in newProps.vals then AttrAt(r, k) else None
    {
      PatchedAttribute(e, oldProps, newProps, k);
    }
    forall k | k in r.attrs ensures k in newProps.vals {
      assert AttrAt(r, k).Some?;
    }
    forall k | k in newProps.vals && !IsHandlerEntry(k, newProps.vals[k])
      ensures k in r.attrs && r.attrs[k] == newProps.vals[k]
    {
      assert AttrAt(r, k) == Some(newProps.vals[k]);
    }
  }

  lemma {:induction false} AppendAllFits(el: DomNode, cs: seq<VNode>)
    requires el.ElementNode?
    ensures AppendAll(el, cs).Ok? <==> forall i :: 0 <= i < |cs| ==> TagsNamed(cs[i])
    ensures AppendAll(el, cs).Ok? ==>
              var r := AppendAll(el, cs).value;
              && r.ElementNode? && r.tag == el.tag && r.attrs == el.attrs && r.fields == el.fields
              && |r.kids| == |el.kids| + |cs| && r.kids[..|el.kids|] == el.kids
              && forall i :: 0 <= i < |cs| ==> Fits(r.kids[|el.kids| + i], cs[i])
    decreases cs
  {
    if cs != [] {
      MaterializeFits(cs[0]);
      var m := Materialize(cs[0]);
      if m.Ok? {
        var el' := el.(kids := el.kids + [m.value]);
        AppendAllFits(el', cs[1..]);
        assert forall i :: 1 <= i < |cs| ==> cs[i] == cs[1..][i - 1];
        if AppendAll(el, cs).Ok? {
          var r := AppendAll(el, cs).value;
          assert r.kids[..|el'.kids|] == el'.kids;
          assert r.kids[..|el.kids|] == el'.kids[..|el.kids|];
          forall i | 0 <= i < |cs| ensures Fits(r.kids[|el.kids| + i], cs[i]) {
            if i == 0 {
              assert r.kids[|el.kids|] == el'.kids[|el.kids|];
            } else {
              assert r.kids[|el.kids| + i] == r.kids[|el'.kids| + (i - 1)];
            }
          }
        }
      }
    }
  }

  /** `createDomNode(v)` succeeds exactly when every tag in `v` is non-empty, and then shows `v`. */
  lemma {:induction false} MaterializeFits(v: VNode)
    ensures Materialize(v).Ok? <==> TagsNamed(v)
    ensures Materialize(v).Ok? ==> Fits(Materialize(v).value, v)
    decreases v
  {
    if v.Element? && v.tag != "" {
      var e := ElementNode(v.tag, map[], map[], []);
      assert Reflects(e.attrs, NoProps);
      PatchReflects(e, NoProps, v.props);
      AppendAllFits(Shell(v.tag, v.props), v.children);
    }
  }

  /** `createDomNode(vNode)`: one live node per virtual node, children appended in order. */
  method CreateDomNode(v: VNode) returns (r: Result<DomNode, DomError>)
    ensures r == Materialize(v)
    decreases v
  {
    match v
    case TextLeaf(s) =>
      r := Ok(TextNode(s, map[]));
    case NumLeaf(n) =>
      r := Ok(TextNode(NumberText(n), map[]));
    case Element(tag, props, cs) =>
      if tag == "" {
        return Err(InvalidCharacterError);
      }
      var shell := UpdateProps(ElementNode(tag, map[], map[], []), NoProps, props);
      var el := shell.value;
      var i := 0;
      while i < |cs|
        invariant 0 <= i <= |cs|
        invariant el.ElementNode?
        invariant AppendAll(el, cs[i..]) == Materialize(v)
      {
        assert cs[i..][0] == cs[i] && cs[i..][1..] == cs[i + 1..];
        var k := CreateDomNode(cs[i]);
        if k.Err? {
          return Err(k.error);
        }
        el := el.(kids := el.kids + [k.value]);
        i := i + 1;
      }
      r := Ok(el);
  }
}
