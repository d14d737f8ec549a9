/**
 * What `updateProps` (lib/MintUtils.js:27-50) does, stated about the writes it
 * issues and about the node they leave behind.
 */
module PatchFacts {
  import opened Wrappers
  import opened VNodes
  import opened Dom

  // ---------------------------------------------------------------------
  // Which writes are issued

  lemma {:induction false} RemovalsMembers(keys: seq<string>, newProps: Props, w: Write)
    ensures w in Removals(keys, newProps) <==> w.RemoveAttribute? && w.name in keys && w.name !in newProps.vals
    decreases |keys|
  {
    if keys != [] {
      var n := |keys| - 1;
      RemovalsMembers(keys[..n], newProps, w);
      assert keys == keys[..n] + [keys[n]];
    }
  }

  lemma {:induction false} AssignmentsMembers(keys: seq<string>, oldProps: Props, newProps: Props, w: Write)
    ensures w in Assignments(keys, oldProps, newProps) <==>
              exists k :: k in keys && Changed(oldProps, newProps, k) && w == WriteFor(k, newProps.vals[k])
    decreases |keys|
  {
    if keys != [] {
      var n := |keys| - 1;
      AssignmentsMembers(keys[..n], oldProps, newProps, w);
      assert keys == keys[..n] + [keys[n]];
      if w in Assignments(keys, oldProps, newProps) && w !in Assignments(keys[..n], oldProps, newProps) {
        assert keys[n] in keys;
      }
    }
  }

  /**
   * The patcher's writes, both ways: an attribute is removed exactly when its
   * key is in the old props and not in the new ones, and a write is issued
   * for a new key exactly when its value changed (`!==`); the write is the
   * handler binding or the attribute write that `WriteFor` chooses.
   */
  lemma PropWritesExactly(oldProps: Props, newProps: Props, w: Write)
    ensures w in PropWrites(oldProps, newProps) <==>
              || (w.RemoveAttribute? && w.name in oldProps.vals && w.name !in newProps.vals)
              || (exists k :: k in newProps.vals && Changed(oldProps, newProps, k) && w == WriteFor(k, newProps.vals[k]))
  {
    RemovalsMembers(oldProps.keys, newProps, w);
    AssignmentsMembers(newProps.keys, oldProps, newProps, w);
  }

  /** A key present in both props with the same value is never written. */
  lemma UnchangedKeyNotWritten(oldProps: Props, newProps: Props, k: string)
    requires k in oldProps.vals && k in newProps.vals && oldProps.vals[k] == newProps.vals[k]
    ensures RemoveAttribute(k) !in PropWrites(oldProps, newProps)
    ensures forall v :: SetAttribute(k, v) !in PropWrites(oldProps, newProps)
    ensures forall w :: w in PropWrites(oldProps, newProps) && w.SetField? ==>
              exists k' :: k' != k && SetsHandler(oldProps, newProps, k', w.name)
  {
    PropWritesExactly(oldProps, newProps, RemoveAttribute(k));
    forall v ensures SetAttribute(k, v) !in PropWrites(oldProps, newProps) {
      PropWritesExactly(oldProps, newProps, SetAttribute(k, v));
    }
    forall w | w in PropWrites(oldProps, newProps) && w.SetField?
      ensures exists k' :: k' != k && SetsHandler(oldProps, newProps, k', w.name)
    {
      PropWritesExactly(oldProps, newProps, w);
      var k' :| k' in newProps.vals && Changed(oldProps, newProps, k') && w == WriteFor(k', newProps.vals[k']);
      assert SetsHandler(oldProps, newProps, k', w.name);
    }
  }

  /** A changed `on...` key holding a function binds a handler under its lower-cased suffix and is never an attribute. */
  lemma HandlerKeyBindsField(oldProps: Props, newProps: Props, k: string)
    requires Changed(oldProps, newProps, k) && IsHandlerEntry(k, newProps.vals[k])
    ensures SetField(EventName(k), newProps.vals[k].handler) in PropWrites(oldProps, newProps)
    ensures forall v :: SetAttribute(k, v) !in PropWrites(oldProps, newProps)
  {
    PropWritesExactly(oldProps, newProps, SetField(EventName(k), newProps.vals[k].handler));
    forall v ensures SetAttribute(k, v) !in PropWrites(oldProps, newProps) {
      PropWritesExactly(oldProps, newProps, SetAttribute(k, v));
    }
  }

  /** Patching a node against the props it already has issues no write at all. */
  lemma SamePropsNoWrites(props: Props)
    ensures PropWrites(props, props) == []
  {
    if PropWrites(props, props) != [] {
      var w := PropWrites(props, props)[0];
      PropWritesExactly(props, props, w);
      assert false;
    }
  }

  // ---------------------------------------------------------------------
  // What the writes leave behind

  function AttrAt(n: DomNode, k: string): Option<PropValue>
  {
    if n.ElementNode? && k in n.attrs then Some(n.attrs[k]) else None
  }

  function FieldAt(n: DomNode, name: string): Option<HandlerId>
  {
    if name in n.fields then Some(n.fields[name]) else None
  }

  predicate TouchesAttr(w: Write, k: string)
  {
    (w.RemoveAttribute? || w.SetAttribute?) && w.name == k
  }

  /** The last write in `ws` to attribute `k`. */
  function LastAttrWrite(ws: seq<Write>, k: string): (r: Option<Write>)
    ensures r.None? <==> forall i :: 0 <= i < |ws| ==> !TouchesAttr(ws[i], k)
    ensures r.Some? ==> r.value in ws && TouchesAttr(r.value, k)
    ensures r.Some? ==> exists i :: 0 <= i < |ws| && ws[i] == r.value && forall j :: i < j < |ws| ==> !TouchesAttr(ws[j], k)
    decreases |ws|
  {
    if ws == [] then None
    else if TouchesAttr(ws[|ws| - 1], k) then Some(ws[|ws| - 1])
    else LastAttrWrite(ws[..|ws| - 1], k)
  }

  /** The last write in `ws` to field `name`. */
  function LastFieldWrite(ws: seq<Write>, name: string): (r: Option<HandlerId>)
    ensures r.None? <==> forall i :: 0 <= i < |ws| ==> !(ws[i].SetField? && ws[i].name == name)
    ensures r.Some? ==> exists i :: 0 <= i < |ws| && ws[i] == SetField(name, r.value) && forall j :: i < j < |ws| ==> !(ws[j].SetField? && ws[j].name == name)
    decreases |ws|
  {
    if ws == [] then None
    else if ws[|ws| - 1].SetField? && ws[|ws| - 1].name == name then Some(ws[|ws| - 1].handler)
    else
      assert forall i :: 0 <= i < |ws| - 1 ==> ws[..|ws| - 1][i] == ws[i];
      LastFieldWrite(ws[..|ws| - 1], name)
  }

  lemma {:induction false} ApplyWritesAttr(n: DomNode, ws: seq<Write>, k: string)
    requires n.ElementNode?
    ensures AttrAt(ApplyWrites(n, ws).value, k) ==
              match LastAttrWrite(ws, k)
              case None => AttrAt(n, k)
              case Some(w) => if w.SetAttribute? then Some(w.value) else None
    decreases |ws|
  {
    if ws != [] {
      ApplyWritesAttr(n, ws[..|ws| - 1], k);
    }
  }

  lemma {:induction false} ApplyWritesField(n: DomNode, ws: seq<Write>, name: string)
    requires ApplyWrites(n, ws).Ok?
    ensures FieldAt(ApplyWrites(n, ws).value, name) ==
              if LastFieldWrite(ws, name).Some? then LastFieldWrite(ws, name) else FieldAt(n, name)
    decreases |ws|
  {
    if ws != [] {
      ApplyWritesField(n, ws[..|ws| - 1], name);
    }
  }

  /**
   * After patching an element, each attribute is: the new value if its key
   * changed and is not a handler binding; gone if its key was dropped from
   * the props; otherwise what it was before.
   */
  lemma PatchedAttribute(e: DomNode, oldProps: Props, newProps: Props, k: string)
    requires e.ElementNode?
    ensures AttrAt(ApplyWrites(e, PropWrites(oldProps, newProps)).value, k) ==
              if SetsAttribute(oldProps, newProps, k) then Some(newProps.vals[k])
              else if k in oldProps.vals && k !in newProps.vals then None
              else AttrAt(e, k)
  {
    var ws := PropWrites(oldProps, newProps);
    ApplyWritesAttr(e, ws, k);
    var last := LastAttrWrite(ws, k);
    if last.Some? {
      var w := last.value;
      PropWritesExactly(oldProps, newProps, w);
      if w.SetAttribute? {
        var k' :| k' in newProps.vals && Changed(oldProps, newProps, k') && w == WriteFor(k', newProps.vals[k']);
        assert k' == k;
      }
    } else {
      UntouchedNotWritten(ws, k);
      PropWritesExactly(oldProps, newProps, RemoveAttribute(k));
      if k in newProps.vals {
        PropWritesExactly(oldProps, newProps, SetAttribute(k, newProps.vals[k]));
      }
    }
  }

  lemma UntouchedNotWritten(ws: seq<Write>, k: string)
    requires forall i :: 0 <= i < |ws| ==> !TouchesAttr(ws[i], k)
    ensures RemoveAttribute(k) !in ws
    ensures forall v :: SetAttribute(k, v) !in ws
  {
    forall v ensures SetAttribute(k, v) !in ws {
      assert forall i :: 0 <= i < |ws| ==> ws[i] != SetAttribute(k, v);
    }
    assert forall i :: 0 <= i < |ws| ==> ws[i] != RemoveAttribute(k);
  }

  /** The index of the last key (in `for...in` order) that binds a handler under `name`. */
  function LastHandlerKey(keys: seq<string>, oldProps: Props, newProps: Props, name: string): (r: Option<nat>)
    ensures r.None? ==> forall j :: 0 <= j < |keys| ==> !SetsHandler(oldProps, newProps, keys[j], name)
    ensures r.Some? ==> r.value < |keys| && SetsHandler(oldProps, newProps, keys[r.value], name)
    ensures r.Some? ==> forall j :: r.value < j < |keys| ==> !SetsHandler(oldProps, newProps, keys[j], name)
    decreases |keys|
  {
    if keys == [] then None
    else if SetsHandler(oldProps, newProps, keys[|keys| - 1], name) then Some(|keys| - 1)
    else LastHandlerKey(keys[..|keys| - 1], oldProps, newProps, name)
  }

  lemma {:induction false} RemovalsNoField(keys: seq<string>, newProps: Props, name: string)
    ensures LastFieldWrite(Removals(keys, newProps), name).None?
  {
    var ws := Removals(keys, newProps);
    forall i | 0 <= i < |ws| ensures !ws[i].SetField? {
      RemovalsMembers(keys, newProps, ws[i]);
    }
  }

  lemma {:induction false} LastFieldWriteConcat(a: seq<Write>, b: seq<Write>, name: string)
    requires LastFieldWrite(a, name).None?
    ensures LastFieldWrite(a + b, name) == LastFieldWrite(b, name)
    decreases |b|
  {
    if b == [] {
      assert a + b == a;
    } else {
      assert (a + b)[..|a + b| - 1] == a + b[..|b| - 1];
      LastFieldWriteConcat(a, b[..|b| - 1], name);
    }
  }

  lemma {:induction false} AssignmentsLastField(keys: seq<string>, oldProps: Props, newProps: Props, name: string)
    ensures LastFieldWrite(Assignments(keys, oldProps, newProps), name) ==
              match LastHandlerKey(keys, oldProps, newProps, name)
              case None => None
              case Some(j) => Some(newProps.vals[keys[j]].handler)
    decreases |keys|
  {
    if keys != [] {
      var n := |keys| - 1;
      AssignmentsLastField(keys[..n], oldProps, newProps, name);
      var prev := Assignments(keys[..n], oldProps, newProps);
      var k := keys[n];
      assert LastHandlerKey(keys, oldProps, newProps, name)
          == if SetsHandler(oldProps, newProps, k, name) then Some(n) else LastHandlerKey(keys[..n], oldProps, newProps, name);
      if Changed(oldProps, newProps, k) {
        var w := WriteFor(k, newProps.vals[k]);
        assert Assignments(keys, oldProps, newProps) == prev + [w];
        assert w.SetField? && w.name == name <==> SetsHandler(oldProps, newProps, k, name);
        LastFieldWriteSnoc(prev, w, name);
      } else {
        assert Assignments(keys, oldProps, newProps) == prev;
      }
    }
  }

  lemma LastFieldWriteSnoc(ws: seq<Write>, w: Write, name: string)
    ensures LastFieldWrite(ws + [w], name) == if w.SetField? && w.name == name then Some(w.handler) else LastFieldWrite(ws, name)
  {
    assert (ws + [w])[..|ws|] == ws;
  }

  /**
   * After patching, the ad-hoc property `name` holds the function of the LAST
   * changed key (in `for...in` order) whose lower-cased suffix is `name`, and
   * is untouched when no such key exists; handlers are never removed.
   */
  lemma PatchedField(n: DomNode, oldProps: Props, newProps: Props, name: string)
    requires ApplyWrites(n, PropWrites(oldProps, newProps)).Ok?
    ensures FieldAt(ApplyWrites(n, PropWrites(oldProps, newProps)).value, name) ==
              match LastHandlerKey(newProps.keys, oldProps, newProps, name)
              case None => FieldAt(n, name)
              case Some(j) => Some(newProps.vals[newProps.keys[j]].handler)
  {
    var ws := PropWrites(oldProps, newProps);
    ApplyWritesField(n, ws, name);
    RemovalsNoField(oldProps.keys, newProps, name);
    LastFieldWriteConcat(Removals(oldProps.keys, newProps), Assignments(newProps.keys, oldProps, newProps), name);
    AssignmentsLastField(newProps.keys, oldProps, newProps, name);
  }
}
