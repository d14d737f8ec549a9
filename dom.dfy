/**
 * The live DOM as the engine of lib/MintUtils.js sees it, and the two
 * operations that write to it without diffing: the property patcher
 * (`updateProps`) and the materializer (`createDomNode`).
 *
 * Live nodes are values here. An element records its attributes (the value
 * handed to `setAttribute`), the ad-hoc properties the patcher assigns with
 * `$el[name] = handler`, and its child list. A text node records its text and
 * the same kind of ad-hoc properties.
 */
module Dom {
  import opened Wrappers
  import opened VNodes

  /**
   * The exceptions a DOM call can throw here: a method looked up on
   * `undefined` or handed `undefined`, a child appended to a text node, and
   * `document.createElement` given an empty name.
   */
  datatype DomError = TypeError | HierarchyRequestError | InvalidCharacterError

  datatype DomNode =
    | TextNode(data: string, fields: map<string, HandlerId>)
    | ElementNode(tag: string, attrs: map<string, PropValue>, fields: map<string, HandlerId>, kids: seq<DomNode>)

  /** One write the patcher performs on a live node. */
  datatype Write =
    | RemoveAttribute(name: string)
    | SetAttribute(name: string, value: PropValue)
    | SetField(name: string, handler: HandlerId)

  // ---------------------------------------------------------------------
  // Key classification

  function Lower(c: char): char
  {
    if 'A' <= c <= 'Z' then (c as int + 32) as char else c
  }

  /** `toLowerCase()` on the ASCII letters. */
  function LowerCase(s: string): (r: string)
    ensures |r| == |s|
    ensures forall i :: 0 <= i < |s| ==> r[i] == Lower(s[i])
  {
    seq(|s|, i requires 0 <= i < |s| => Lower(s[i]))
  }

  /** `key.startsWith('on')`. */
  predicate IsEventKey(k: string)
  {
    |k| >= 2 && k[0] == 'o' && k[1] == 'n'
  }

  /** `key.slice(2).toLowerCase()`. */
  function EventName(k: string): string
    requires IsEventKey(k)
  {
    LowerCase(k[2..])
  }

  /** A key that the patcher binds as a handler rather than an attribute. */
  predicate IsHandlerEntry(k: string, v: PropValue)
  {
    IsEventKey(k) && v.Callback?
  }

  /** `oldProps[key] !== newProps[key]` for a key of the new props. */
  predicate Changed(oldProps: Props, newProps: Props, k: string)
  {
    k in newProps.vals && (k !in oldProps.vals || oldProps.vals[k] != newProps.vals[k])
  }

  /** A changed key that becomes an attribute write. */
  predicate SetsAttribute(oldProps: Props, newProps: Props, k: string)
  {
    Changed(oldProps, newProps, k) && !IsHandlerEntry(k, newProps.vals[k])
  }

  /** A changed key that becomes the handler stored under `name`. */
  predicate SetsHandler(oldProps: Props, newProps: Props, k: string, name: string)
  {
    Changed(oldProps, newProps, k) && IsHandlerEntry(k, newProps.vals[k]) && EventName(k) == name
  }

  // ---------------------------------------------------------------------
  // The writes `updateProps` issues, in order

  /** The write for a changed key (lines 41-47). */
  function WriteFor(k: string, v: PropValue): Write
  {
    if IsHandlerEntry(k, v) then SetField(EventName(k), v.handler) else SetAttribute(k, v)
  }

  /** The first loop: every oldProps key missing from the new props is removed. */
  function Removals(keys: seq<string>, newProps: Props): seq<Write>
    decreases |keys|
  {
    if keys == [] then []
    else
      var k := keys[|keys| - 1];
      Removals(keys[..|keys| - 1], newProps) + (if k in newProps.vals then [] else [RemoveAttribute(k)])
  }

  /** The second loop: every new key whose value changed is written. */
  function Assignments(keys: seq<string>, oldProps: Props, newProps: Props): seq<Write>
    decreases |keys|
  {
    if keys == [] then []
    else
      var k := keys[|keys| - 1];
      Assignments(keys[..|keys| - 1], oldProps, newProps) + (if Changed(oldProps, newProps, k) then [WriteFor(k, newProps.vals[k])] else [])
  }

  function PropWrites(oldProps: Props, newProps: Props): seq<Write>
  {
    Removals(oldProps.keys, newProps) + Assignments(newProps.keys, oldProps, newProps)
  }

  // ---------------------------------------------------------------------
  // Applying writes to a live node

  function ApplyWrite(n: DomNode, w: Write): Result<DomNode, DomError>
  {
    match n
    case TextNode(data, fields) =>
      // a text node has no removeAttribute/setAttribute, but takes ad-hoc properties
      if w.SetField? then Ok(TextNode(data, fields[w.name := w.handler])) else Err(TypeError)
    case ElementNode(tag, attrs, fields, kids) =>
      match w
      case RemoveAttribute(k) => Ok(ElementNode(tag, attrs - {k}, fields, kids))
      case SetAttribute(k, v) => Ok(ElementNode(tag, attrs[k := v], fields, kids))
      case SetField(k, h) => Ok(ElementNode(tag, attrs, fields[k := h], kids))
  }

  /** The writes in order; the first one that throws ends the run. */
  function ApplyWrites(n: DomNode, ws: seq<Write>): (r: Result<DomNode, DomError>)
    ensures n.ElementNode? ==> r.Ok? && r.value.ElementNode? && r.value.tag == n.tag && r.value.kids == n.kids
    ensures n.TextNode? ==> (r.Ok? <==> forall i :: 0 <= i < |ws| ==> ws[i].SetField?)
    ensures n.TextNode? && r.Ok? ==> r.value.TextNode? && r.value.data == n.data
    decreases |ws|
  {
    if ws == [] then Ok(n)
    else
      match ApplyWrites(n, ws[..|ws| - 1])
      case Err(e) => Err(e)
      case Ok(m) => ApplyWrite(m, ws[|ws| - 1])
  }

  /** `updateProps($el, oldProps, newProps)` on a live node. */
  method UpdateProps(el: DomNode, oldProps: Props, newProps: Props) returns (r: Result<DomNode, DomError>)
    ensures r == ApplyWrites(el, PropWrites(oldProps, newProps))
  {
    var removed := RemoveOldProps(el, oldProps, newProps);
    ApplyWritesConcat(el, Removals(oldProps.keys, newProps), Assignments(newProps.keys, oldProps, newProps));
    if removed.Err? {
      return removed;
    }
    r := SetNewProps(removed.value, oldProps, newProps);
  }

  /** The first loop of `updateProps` (lines 32-36). */
  method RemoveOldProps(el: DomNode, oldProps: Props, newProps: Props) returns (r: Result<DomNode, DomError>)
    ensures r == ApplyWrites(el, Removals(oldProps.keys, newProps))
  {
    var cur := el;
    var i := 0;
    assert oldProps.keys[..0] == [];
    while i < |oldProps.keys|
      invariant 0 <= i <= |oldProps.keys|
      invariant ApplyWrites(el, Removals(oldProps.keys[..i], newProps)) == Ok(cur)
    {
      var k := oldProps.keys[i];
      RemovedStep(el, oldProps.keys, newProps, i, cur);
      if k !in newProps.vals {
        var step := ApplyWrite(cur, RemoveAttribute(k));
        if step.Err? {
          RemovalFails(el, oldProps.keys, i, newProps);
          return step;
        }
        cur := step.value;
      }
      i := i + 1;
    }
    assert oldProps.keys[..|oldProps.keys|] == oldProps.keys;
    r := Ok(cur);
  }

  /** Once a removal throws, the remaining removals are never reached. */
  lemma RemovalFails(n: DomNode, keys: seq<string>, i: nat, newProps: Props)
    requires i < |keys| && ApplyWrites(n, Removals(keys[..i + 1], newProps)).Err?
    ensures ApplyWrites(n, Removals(keys, newProps)) == ApplyWrites(n, Removals(keys[..i + 1], newProps))
  {
    PrefixRemovals(keys, i + 1, newProps);
    ApplyWritesConcat(n, Removals(keys[..i + 1], newProps), Removals(keys[i + 1..], newProps));
  }

  /** The second loop of `updateProps` (lines 39-49), run on the node the first loop left. */
  method SetNewProps(start: DomNode, oldProps: Props, newProps: Props) returns (r: Result<DomNode, DomError>)
    ensures r == ApplyWrites(start, Assignments(newProps.keys, oldProps, newProps))
  {
    var cur := start;
    var j := 0;
    assert newProps.keys[..0] == [];
    while j < |newProps.keys|
      invariant 0 <= j <= |newProps.keys|
      invariant ApplyWrites(start, Assignments(newProps.keys[..j], oldProps, newProps)) == Ok(cur)
    {
      var k := newProps.keys[j];
      AssignedStep(start, oldProps, newProps, j, cur);
      if Changed(oldProps, newProps, k) {
        var step := ApplyWrite(cur, WriteFor(k, newProps.vals[k]));
        if step.Err? {
          AssignmentFails(start, oldProps, newProps, j);
          return step;
        }
        cur := step.value;
      }
      j := j + 1;
    }
    assert newProps.keys[..|newProps.keys|] == newProps.keys;
    r := Ok(cur);
  }

  /** One pass of the first loop, on the node the earlier passes left. */
  lemma RemovedStep(n: DomNode, keys: seq<string>, newProps: Props, i: nat, cur: DomNode)
    requires i < |keys| && ApplyWrites(n, Removals(keys[..i], newProps)) == Ok(cur)
    ensures ApplyWrites(n, Removals(keys[..i + 1], newProps))
         == if keys[i] in newProps.vals then Ok(cur) else ApplyWrite(cur, RemoveAttribute(keys[i]))
  {
    var prev := Removals(keys[..i], newProps);
    RemovalsStep(keys, i, newProps);
    if keys[i] in newProps.vals {
      assert prev + [] == prev;
    } else {
      AppliedStep(n, prev, RemoveAttribute(keys[i]), cur);
    }
  }

  /** One pass of the second loop, on the node the earlier passes left. */
  lemma AssignedStep(n: DomNode, oldProps: Props, newProps: Props, j: nat, cur: DomNode)
    requires j < |newProps.keys|
    requires ApplyWrites(n, Assignments(newProps.keys[..j], oldProps, newProps)) == Ok(cur)
    ensures ApplyWrites(n, Assignments(newProps.keys[..j + 1], oldProps, newProps))
         == var k := newProps.keys[j];
            if Changed(oldProps, newProps, k) then ApplyWrite(cur, WriteFor(k, newProps.vals[k])) else Ok(cur)
  {
    var k := newProps.keys[j];
    var prev := Assignments(newProps.keys[..j], oldProps, newProps);
    AssignmentsStep(newProps.keys, j, oldProps, newProps);
    if Changed(oldProps, newProps, k) {
      AppliedStep(n, prev, WriteFor(k, newProps.vals[k]), cur);
    } else {
      assert prev + [] == prev;
    }
  }

  lemma RemovalsStep(keys: seq<string>, i: nat, newProps: Props)
    requires i < |keys|
    ensures Removals(keys[..i + 1], newProps)
         == Removals(keys[..i], newProps) + (if keys[i] in newProps.vals then [] else [RemoveAttribute(keys[i])])
  {
    assert keys[..i + 1][..i] == keys[..i];
  }

  lemma AssignmentsStep(keys: seq<string>, j: nat, oldProps: Props, newProps: Props)
    requires j < |keys|
    ensures Assignments(keys[..j + 1], oldProps, newProps)
         == Assignments(keys[..j], oldProps, newProps)
            + (if Changed(oldProps, newProps, keys[j]) then [WriteFor(keys[j], newProps.vals[keys[j]])] else [])
  {
    assert keys[..j + 1][..j] == keys[..j];
  }

  lemma AppliedStep(n: DomNode, done: seq<Write>, w: Write, cur: DomNode)
    requires ApplyWrites(n, done) == Ok(cur)
    ensures ApplyWrites(n, done + [w]) == ApplyWrite(cur, w)
  {
    assert (done + [w])[..|done|] == done;
  }

  /** Once an assignment throws, the remaining assignments are never reached. */
  lemma AssignmentFails(n: DomNode, oldProps: Props, newProps: Props, j: nat)
    requires j < |newProps.keys|
    requires ApplyWrites(n, Assignments(newProps.keys[..j + 1], oldProps, newProps)).Err?
    ensures ApplyWrites(n, Assignments(newProps.keys, oldProps, newProps))
         == ApplyWrites(n, Assignments(newProps.keys[..j + 1], oldProps, newProps))
  {
    PrefixAssignments(newProps.keys, j + 1, oldProps, newProps);
    ApplyWritesConcat(n, Assignments(newProps.keys[..j + 1], oldProps, newProps), Assignments(newProps.keys[j + 1..], oldProps, newProps));
  }

  /** Running `a` then `b` is running `a`, then `b` on its result; an error in `a` ends the run. */
  lemma {:induction false} ApplyWritesConcat(n: DomNode, a: seq<Write>, b: seq<Write>)
    ensures ApplyWrites(n, a + b) == match ApplyWrites(n, a)
                                    case Err(e) => Err(e)
                                    case Ok(m) => ApplyWrites(m, b)
    decreases |b|
  {
    if b == [] {
      assert a + b == a;
    } else {
      var k := |b| - 1;
      assert (a + b)[..|a + b| - 1] == a + b[..k];
      assert (a + b)[|a + b| - 1] == b[k];
      ApplyWritesConcat(n, a, b[..k]);
    }
  }

  /** Removals over a prefix then over the rest is removals over the whole. */
  lemma {:induction false} PrefixRemovals(keys: seq<string>, i: nat, newProps: Props)
    requires i <= |keys|
    ensures Removals(keys, newProps) == Removals(keys[..i], newProps) + Removals(keys[i..], newProps)
    decreases |keys|
  {
    if |keys| == i {
      assert keys[..i] == keys;
      assert keys[i..] == [];
    } else {
      var n := |keys| - 1;
      PrefixRemovals(keys[..n], i, newProps);
      assert keys[..n][..i] == keys[..i];
      assert keys[i..][..|keys[i..]| - 1] == keys[..n][i..];
    }
  }

  lemma {:induction false} PrefixAssignments(keys: seq<string>, i: nat, oldProps: Props, newProps: Props)
    requires i <= |keys|
    ensures Assignments(keys, oldProps, newProps) == Assignments(keys[..i], oldProps, newProps) + Assignments(keys[i..], oldProps, newProps)
    decreases |keys|
  {
    if |keys| == i {
      assert keys[..i] == keys;
      assert keys[i..] == [];
    } else {
      var n := |keys| - 1;
      PrefixAssignments(keys[..n], i, oldProps, newProps);
      assert keys[..n][..i] == keys[..i];
      assert keys[i..][..|keys[i..]| - 1] == keys[..n][i..];
    }
  }
}
