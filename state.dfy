/**
 * `createState(v)` of lib/MintUtils.js:83-114: a closure over the value `s`,
 * the subscriber list `c`, the last rendered tree `oldVNode` and the mount
 * `root`, modelled as an object whose fields are those four variables, plus
 * a log of the subscriber calls made.
 */
module StateContainer {
  import opened Wrappers
  import opened VNodes
  import opened Dom
  import opened CreateDom
  import opened Differ
  import opened DiffFacts

  /** Identity of a subscriber function. */
  type SubscriberId = nat

  /**
   * The JavaScript values the state can hold, as far as the container looks
   * at them: `typeof`, truthiness and the `vdom` property of an object.
   */
  datatype JsValue =
    | Undefined
    | Null
    | Boolean(b: bool)
    | Number(n: int)
    | Text(s: string)
    | Obj(vdom: Option<VNode>)

  predicate JsTruthy(v: JsValue)
  {
    match v
    case Undefined => false
    case Null => false
    case Boolean(b) => b
    case Number(n) => n != 0
    case Text(s) => s != ""
    case Obj(_) => true
  }

  /** The argument of `set`: a function of the current value, or a value. */
  datatype Update = Assign(v: JsValue) | Apply(f: JsValue -> JsValue)

  /** One call `c[i](s)`. */
  datatype Notification = Notification(subscriber: SubscriberId, value: JsValue)

  /** `typeof n === "function" ? n(s) : n`. */
  function Assigned(s: JsValue, u: Update): JsValue
  {
    match u
    case Assign(v) => v
    case Apply(f) => f(s)
  }

  /** The calls `c[0](s), ..., c[l-1](s)`, in order. */
  function Notifications(cs: seq<SubscriberId>, s: JsValue): (r: seq<Notification>)
    ensures |r| == |cs|
    ensures forall i :: 0 <= i < |cs| ==> r[i] == Notification(cs[i], s)
  {
    seq(|cs|, i requires 0 <= i < |cs| => Notification(cs[i], s))
  }

  /** `s && typeof s === 'object' && s.vdom`, the tree `subscribe` renders. */
  function MountTree(s: JsValue): (r: Option<VNode>)
    ensures r.Some? ==> Truthy(r.value) && s == Obj(r)
    ensures s.Obj? && Present(s.vdom) ==> r == s.vdom
  {
    if s.Obj? && Present(s.vdom) then s.vdom else None
  }

  /** What the render step at the end of `set` does. */
  datatype Render = Unchanged | Rendered(root: DomNode, tree: VNode) | Threw(error: DomError)

  /**
   * The render step: only with a bound mount and a rendered tree, and only
   * for an object value carrying a truthy tree, the new tree is diffed
   * against the rendered one and becomes the rendered tree. `null` counts
   * as an object there, so looking up its tree throws.
   */
  function AfterSet(root: Option<DomNode>, rendered: Option<VNode>, s: JsValue): Render
  {
    if root.None? || rendered.None? then Unchanged
    else
      match s
      case Null => Threw(TypeError)
      case Obj(vdom) =>
        if !Present(vdom) then Unchanged
        else (
          match DiffOutcome(root.value, vdom, rendered, 0)
          case Err(e) => Threw(e)
          case Ok(d) => Rendered(d, vdom.value))
      case _ => Unchanged
  }

  /** A mount shows a tree: its only child shows it. */
  ghost predicate Shows(root: DomNode, v: VNode)
  {
    root.ElementNode? && |root.kids| == 1 && Fits(root.kids[0], v)
  }

  class Store {
    var value: JsValue
    var subscribers: seq<SubscriberId>
    var rendered: Option<VNode>
    var root: Option<DomNode>
    ghost var notified: seq<Notification>

    /** The mount is an element, and a tree is recorded only once a mount is bound; recorded trees are truthy. */
    ghost predicate Valid()
      reads this
    {
      && (root.Some? ==> root.value.ElementNode?)
      && (rendered.Some? ==> root.Some? && Truthy(rendered.value))
    }

    /** `createState(v)`. */
    constructor (v: JsValue)
      ensures Valid()
      ensures value == v && subscribers == [] && rendered.None? && root.None? && notified == []
    {
      value := v;
      subscribers := [];
      rendered := None;
      root := None;
      notified := [];
    }

    /** `get()`. */
    function Get(): (r: JsValue)
      reads this
      ensures r == value
    {
      value
    }

    /** `set(n)`. */
    method Set(u: Update) returns (r: Result<(), DomError>)
      requires Valid()
      modifies this
      ensures Valid()
      ensures Get() == Assigned(old(value), u)
      ensures subscribers == old(subscribers)
      ensures notified == old(notified) + Notifications(old(subscribers), value)
      ensures match AfterSet(old(root), old(rendered), value)
              case Unchanged => r.Ok? && root == old(root) && rendered == old(rendered)
              case Rendered(d, v) => r.Ok? && root == Some(d) && rendered == Some(v)
              case Threw(e) => r == Err(e) && root == old(root) && rendered == old(rendered)
    {
      value := Assigned(value, u);
      var i, l := 0, |subscribers|;
      while i < l
        invariant 0 <= i <= l == |subscribers|
        invariant value == Assigned(old(value), u) && subscribers == old(subscribers)
        invariant root == old(root) && rendered == old(rendered)
        invariant notified == old(notified) + Notifications(subscribers[..i], value)
      {
        notified := notified + [Notification(subscribers[i], value)];
        i := i + 1;
        assert subscribers[..i] == subscribers[..i - 1] + [subscribers[i - 1]];
      }
      assert subscribers[..l] == subscribers;
      r := Ok(());
      if root.Some? && rendered.Some? {
        match value
        case Null =>
          r := Err(TypeError);
        case Obj(vdom) =>
          if Present(vdom) {
            var d := Diff(root.value, vdom, rendered, 0);
            if d.Err? {
              return Err(d.error);
            }
            root := Some(d.value);
            rendered := vdom;
          }
        case _ =>
      }
    }

    /** `subscribe(f, mountPoint)`; `f` is `None` when it is not a function, `mount` when it is not an element. */
    method Subscribe(f: Option<SubscriberId>, mount: Option<DomNode>) returns (r: Result<(), DomError>)
      requires Valid()
      modifies this
      ensures Valid()
      ensures value == old(value) && notified == old(notified)
      ensures subscribers == old(subscribers) + (if f.Some? then [f.value] else [])
      ensures (mount.None? || !mount.value.ElementNode?) ==> r.Ok? && root == old(root) && rendered == old(rendered)
      ensures mount.Some? && mount.value.ElementNode? && MountTree(value).None? ==>
                r.Ok? && root == mount && rendered == old(rendered)
      ensures mount.Some? && mount.value.ElementNode? && MountTree(value).Some? ==>
                && rendered == MountTree(value)
                && match Materialize(rendered.value)
                   case Ok(d) => r.Ok? && root == Some(mount.value.(kids := [d]))
                   case Err(e) => r == Err(e) && root == Some(mount.value.(kids := []))
    {
      if f.Some? {
        subscribers := subscribers + [f.value];
      }
      r := Ok(());
      if mount.Some? && mount.value.ElementNode? {
        root := mount;
        var tree := MountTree(value);
        if tree.Some? {
          rendered := tree;
          var emptied := mount.value.(kids := []);
          root := Some(emptied);
          var d := CreateDomNode(tree.value);
          if d.Err? {
            return Err(d.error);
          }
          root := Some(emptied.(kids := [d.value]));
        }
      }
    }
  }

  // ---------------------------------------------------------------------
  // The mount keeps showing the state's tree

  /** Mounting a solid tree makes the mount show it. */
  lemma MountShows(mount: DomNode, v: VNode)
    requires mount.ElementNode? && Solid(v)
    ensures Materialize(v).Ok?
    ensures Shows(mount.(kids := [Materialize(v).value]), v)
  {
    SolidTagsNamed(v);
    MaterializeFits(v);
  }

  /**
   * Setting a value whose `vdom` is solid and settled against the shown tree
   * re-renders, and the mount then shows the new tree.
   */
  lemma SetKeepsMountInStep(root: DomNode, shown: VNode, v: VNode)
    requires Shows(root, shown) && Solid(shown) && Solid(v) && Settled(v, shown)
    ensures AfterSet(Some(root), Some(shown), Obj(Some(v))).Rendered?
    ensures AfterSet(Some(root), Some(shown), Obj(Some(v))).tree == v
    ensures Shows(AfterSet(Some(root), Some(shown), Obj(Some(v))).root, v)
  {
    DiffKeepsFit(root, v, shown, 0);
  }

  /** Setting the same solid tree again re-renders to the very same mount. */
  lemma SetSameTreeIsNoop(root: DomNode, shown: VNode)
    requires Shows(root, shown) && Solid(shown)
    ensures AfterSet(Some(root), Some(shown), Obj(Some(shown))) == Rendered(root, shown)
  {
    DiffSameIsNoop(root, shown, 0);
  }

  /** Once a tree is recorded, `set(null)` throws after notifying the subscribers. */
  lemma SetNullThrows(root: DomNode, shown: VNode)
    ensures AfterSet(Some(root), Some(shown), Null) == Threw(TypeError)
    ensures AfterSet(Some(root), Some(shown), Undefined) == Unchanged
  {
  }

  /** Without a recorded tree nothing is re-rendered, whatever the value. */
  lemma NoRenderWithoutTree(root: Option<DomNode>, s: JsValue)
    ensures AfterSet(root, None, s) == Unchanged
  {
  }
}
