# Mint: state container, virtual-DOM differ and development server

This project models the two halves of Mint.

**The client library** (`lib/MintUtils.js`):
- `pipe` and `compose` of unary functions.
- `createElement`, which builds virtual nodes.
- The reconciliation engine:
  - `isSameNodeType`;
  - `updateProps`, which patches attributes and event handlers;
  - `createDomNode`, which materialises a virtual tree;
  - `diff`, which patches a live child against the previous tree.
- The `createState` container, with `get`, `set` and `subscribe`. It notifies subscribers and re-renders its bound mount.

**The development server** (`Execute.c`):
- The tracking memory pool: `init_memory_pool`, `smart_malloc`, `smart_free` and `cleanup_memory_pool`.
- The MIME type chosen by file extension.
- The one-shot `files_changed` flag reported by `/reload`.
- Request-path routing.

**How the live DOM is modelled.** The live DOM is a value. A `DomNode` is either:
- a text node, with its data and ad-hoc fields; or
- an element, with its tag, attributes, ad-hoc fields (`onClick` gives `$el.click = f`) and children.

Each DOM operation returns the new node, or the exception the browser would throw:
- a `TypeError` for a method called on `undefined` or a missing method;
- a `HierarchyRequestError` for appending under a text node;
- an `InvalidCharacterError` for `document.createElement("")`.

**How props are modelled.** A props object carries its own keys in a fixed order, and `for...in` is modelled as visiting them in that order. The model takes that order as given; it does not compute JavaScript's rule, which visits integer-like keys first. Two handler keys can bind the same event name (`onClick` and `onclick`). So `updateProps` is specified by the exact sequence of DOM writes it issues (`Dom.PropWrites`). Every loop of the source is a method proved equal to the function that specifies it.

**The memory pool.** It is a class over two arrays. The allocator owns the optional pool and the C heap, a map from pointer to contents. Outcomes of `malloc` and `realloc` are parameters.

**Two behaviours of the code worth knowing:**
- Binding a second mount replaces the rendered tree only when the current value carries a `vdom`. Otherwise the previously rendered tree is kept (`lib/MintUtils.js:103-110`).
- `set(null)` on a bound, rendered container throws `TypeError`, because `typeof null === 'object'`.

## Model

| member | source | states |
|---|---|---|
| Pipeline.Pipe | lib/MintUtils.js:1-8 | the loop returns `Piped(fs, x)`: the functions applied left to right; no functions is the identity |
| Pipeline.Compose | lib/MintUtils.js:10-17 | the downward loop returns `Composed(fs, x)`: the functions applied right to left; no functions is the identity |
| Pipeline.PipedConcat | lib/MintUtils.js:1-8 | piping `fs + gs` is piping `fs`, then piping `gs` on the result |
| Pipeline.ComposedIsReversedPipe | lib/MintUtils.js:10-17 | `compose(f1..fn)` equals `pipe(fn..f1)` for every argument |
| Pipeline.ComposeTwo | lib/MintUtils.js:10-17 | `compose(f, g)(x) == pipe(g, f)(x) == f(g(x))` |
| Pipeline.Reversed | lib/MintUtils.js:13-14 | the reversal compose walks: same length, entry `i` is entry `n-1-i` |
| VNodes.CreateElement | lib/MintUtils.js:19-21 | an element with the given tag, the given props or an empty object when none, and the children flattened one level |
| VNodes.FlattenConcat | lib/MintUtils.js:20 | `flat()` distributes over concatenation of argument lists |
| VNodes.FlattenOneLevel | lib/MintUtils.js:20 | each argument contributes itself (a node) or its elements (an array), in place, in order |
| VNodes.FlattenSingle | lib/MintUtils.js:20 | one argument flattens to its own contribution |
| VNodes.ChildAt | lib/MintUtils.js:78 | `children[i]` is a node exactly when `i` is in range, and then it is the `i`th child |
| VNodes.IsSameNodeType | lib/MintUtils.js:23-25 | true only for two present nodes; for an element, true iff the other is an element with the same tag; two non-elements always match (`undefined === undefined`) |
| VNodes.ChildShallower | lib/MintUtils.js:77-78 | a child is no deeper than its parent's deepest child, so the recursion of `diff` terminates |
| Dom.LowerCase | lib/MintUtils.js:43 | `toLowerCase` keeps the length and lower-cases every ASCII letter in place |
| Dom.ApplyWrites | lib/MintUtils.js:34-46 | on an element every write succeeds and keeps tag and children; on a text node the run succeeds iff every write is an ad-hoc field (no `setAttribute`/`removeAttribute`), keeping its data |
| Dom.ApplyWritesConcat | lib/MintUtils.js:32-49 | running two write sequences is running the first, then the second on its result; the first exception ends the run |
| Dom.UpdateProps | lib/MintUtils.js:27-50 | the two loops issue exactly `PropWrites(oldProps, newProps)` on the element, stopping at the first exception |
| Dom.RemoveOldProps | lib/MintUtils.js:31-36 | the first loop performs exactly the removals of old keys missing from the new props, in key order |
| Dom.SetNewProps | lib/MintUtils.js:38-49 | the second loop performs exactly the writes for changed new keys, in key order |
| Dom.RemovedStep | lib/MintUtils.js:32-36 | one pass of the first loop removes the attribute iff the key is gone from the new props |
| Dom.AssignedStep | lib/MintUtils.js:39-49 | one pass of the second loop writes iff the value changed (`!==`), else leaves the node as it was |
| Dom.RemovalFails | lib/MintUtils.js:32-36 | once a removal throws, no later removal takes effect |
| Dom.AssignmentFails | lib/MintUtils.js:39-49 | once an assignment throws, no later assignment takes effect |
| PatchFacts.RemovalsMembers | lib/MintUtils.js:32-36 | a write is a removal iff it removes an old key that is absent from the new props |
| PatchFacts.AssignmentsMembers | lib/MintUtils.js:39-49 | a write is an assignment iff it is the write for some changed new key |
| PatchFacts.PropWritesExactly | lib/MintUtils.js:27-50 | both directions: the writes issued are exactly the removals of vanished keys and the handler/attribute writes of changed keys |
| PatchFacts.UnchangedKeyNotWritten | lib/MintUtils.js:40 | a key whose value is identical in both props is never removed or set; any handler write comes from another key |
| PatchFacts.HandlerKeyBindsField | lib/MintUtils.js:41-44 | a changed `on*` key holding a function binds the lower-cased event field and is never set as an attribute |
| PatchFacts.SamePropsNoWrites | lib/MintUtils.js:27-50 | patching props against themselves issues no write at all |
| PatchFacts.LastAttrWrite | lib/MintUtils.js:34-46 | the write found touches the attribute and no later write does; none iff no write touches it |
| PatchFacts.LastFieldWrite | lib/MintUtils.js:44 | the handler found is bound to the field by a write that no later write to the field follows; none iff no write binds it |
| PatchFacts.ApplyWritesAttr | lib/MintUtils.js:34-46 | an attribute ends with the effect of the last write touching it, or keeps its old value |
| PatchFacts.ApplyWritesField | lib/MintUtils.js:44 | a field ends with the handler of the last write binding it, or keeps its old value |
| PatchFacts.PatchedAttribute | lib/MintUtils.js:27-50 | after patching, an attribute holds the new value if it was set, is gone if its key vanished, and is otherwise untouched |
| PatchFacts.UntouchedNotWritten | lib/MintUtils.js:34-46 | a write sequence that never touches an attribute contains no removal or setting of it |
| PatchFacts.LastHandlerKey | lib/MintUtils.js:39-44 | the last new key (in `for...in` order) whose change binds a given event field |
| PatchFacts.RemovalsNoField | lib/MintUtils.js:32-36 | the removal loop never binds a field |
| PatchFacts.LastFieldWriteConcat | lib/MintUtils.js:32-49 | writes that bind no field do not affect which field write is last |
| PatchFacts.AssignmentsLastField | lib/MintUtils.js:39-49 | the last field write of the second loop comes from the last key binding that event name |
| PatchFacts.LastFieldWriteSnoc | lib/MintUtils.js:44 | appending a write changes the last field write only if it binds that field |
| PatchFacts.PatchedField | lib/MintUtils.js:27-50 | after patching, an event field holds the function of the last changed key binding it (`onClick` then `onclick`: the latter wins), and is untouched otherwise; handlers are never removed |
| CreateDom.NaturalText | lib/MintUtils.js:54 | the decimal text of a natural number: non-empty, digits only, no leading zero |
| CreateDom.NumberText | lib/MintUtils.js:54 | the text of an integer: a minus sign exactly for negatives, digits after |
| CreateDom.NaturalTextRoundTrip | lib/MintUtils.js:54 | reading the decimal text back gives the number |
| CreateDom.NumberTextRoundTrip | lib/MintUtils.js:54 | reading a number's text back gives the number |
| CreateDom.NumberTextInjective | lib/MintUtils.js:54 | two numbers with the same text node data are equal |
| CreateDom.Shell | lib/MintUtils.js:56-57 | `createElement(tag)` patched from `{}` is an element with that tag and no children |
| CreateDom.PatchReflects | lib/MintUtils.js:27-50 | an element whose attributes reflect the old props reflects the new props after patching |
| CreateDom.AppendAllFits | lib/MintUtils.js:58-60 | appending the children succeeds iff every child has named tags; the element keeps its tag, attributes, fields and earlier children, and each appended child shows its virtual child |
| CreateDom.MaterializeFits | lib/MintUtils.js:52-62 | materialising succeeds iff every element tag is non-empty, and the live tree then shows the virtual tree (text, number text, tag, attributes, children) |
| CreateDom.CreateDomNode | lib/MintUtils.js:52-62 | the method (with its `forEach` loop) returns `Materialize(v)` |
| Differ.ChildRank | lib/MintUtils.js:77-78 | the pair of `i`th children ranks below the parent pair, so the recursion terminates |
| Differ.DiffOutcome | lib/MintUtils.js:64-81 | only the child list of the parent changes; an absent old node appends the materialised new node; an absent new node removes exactly the child at `index`; otherwise the length and every other child are kept, and `DiffReplaces` and `DiffPatchesInPlace` state what the child at `index` becomes |
| DiffFacts.DiffReplaces | lib/MintUtils.js:69-71 | when the node type changed, diff succeeds iff the new node can be created and `index` names a live child, and then that child is exactly `createDomNode(newVNode)` |
| DiffFacts.DiffPatchesInPlace | lib/MintUtils.js:72-79 | when the type is kept and the new node has a tag, the live child is kept: it is the old child with `PropWrites(old, new)` applied and only its children changed; a failing write is diff's exception |
| DiffFacts.DiffPatchedField | lib/MintUtils.js:72-74 | through diff, a handler field of the patched child holds the last changed handler binding it, or keeps its old function, so a handler whose key disappears stays bound |
| DiffFacts.DiffPatchedAttribute | lib/MintUtils.js:72-74 | through diff, an attribute of the patched element holds the new value if set, is gone if its key vanished, and is otherwise untouched |
| Differ.ChildrenOutcome | lib/MintUtils.js:75-79 | the child loop changes only the target's children |
| Differ.Diff | lib/MintUtils.js:64-81 | the method returns `DiffOutcome` for every input, errors included |
| Differ.DiffChildNodes | lib/MintUtils.js:75-79 | the `for` loop over `max(newLen, oldLen)` returns `ChildrenOutcome(t, n, o, 0)` |
| DiffFacts.SolidTagsNamed | lib/MintUtils.js:56 | a solid tree (truthy children, non-empty tags) can be materialised |
| DiffFacts.DiffSameIsNoop | lib/MintUtils.js:64-81 | diffing a solid tree against itself over a child that shows it leaves the parent unchanged |
| DiffFacts.ChildrenSameNoop | lib/MintUtils.js:77-79 | the child loop with identical trees changes nothing |
| DiffFacts.DiffKeepsFit | lib/MintUtils.js:64-81 | for settled solid trees, diff succeeds and the patched child shows the new tree |
| DiffFacts.ChildrenKeepFit | lib/MintUtils.js:75-79 | the child loop ends with exactly the new child count, each child showing its new virtual child |
| DiffFacts.MaterializeThenDiffFits | lib/MintUtils.js:52-81 | a child created by `createDomNode(o)`, diffed to a settled `n`, shows `n` |
| DiffFacts.ShrinkByTwoFails | lib/MintUtils.js:68-78 | shrinking a child list by two or more throws: the removal at the stale index finds no child |
| DiffFacts.ChildrenShrinkFails | lib/MintUtils.js:77-78 | the child loop throws once the list shrinks by two or more |
| DiffFacts.RemovalsFail | lib/MintUtils.js:68-78 | the trailing removals run past the end of the shrunk child list |
| DiffFacts.NumberChangeIgnored | lib/MintUtils.js:69-73 | a changed non-zero number is not patched; the live text does not show the new number |
| DiffFacts.FalsyOldAppends | lib/MintUtils.js:65-66 | a falsy old node (`""` or `0`) makes diff append a new child instead of replacing |
| DiffFacts.RerenderEmptyTextGrows | lib/MintUtils.js:65-78 | re-rendering an element whose only child is `""` succeeds on any element target and appends one more empty text node, changing nothing else, so each `set` adds a child |
| StateContainer.Notifications | lib/MintUtils.js:92 | every subscriber, in registration order, receives the new value |
| StateContainer.MountTree | lib/MintUtils.js:105 | a tree is mounted iff the value is an object whose `vdom` is truthy, and it is that `vdom` |
| StateContainer.Store.constructor | lib/MintUtils.js:83-84 | holds the initial value, no subscribers, no mount, no rendered tree |
| StateContainer.Store.Get | lib/MintUtils.js:87-89 | returns the current value |
| StateContainer.Store.Set | lib/MintUtils.js:90-98 | stores `n` or `n(s)`; notifies every subscriber with it; then re-renders exactly as `AfterSet` says: no change, a diff that updates the mount and the rendered tree, or the diff's exception, with the mount and the rendered tree kept while the new value and the notifications stand |
| StateContainer.Store.Subscribe | lib/MintUtils.js:99-111 | appends a function subscriber; an element mount is bound; if the value has a `vdom` the mount is cleared, the tree recorded and materialised into it (or its exception returned) |
| StateContainer.MountShows | lib/MintUtils.js:105-109 | mounting a solid tree leaves the mount showing exactly that tree |
| StateContainer.SetKeepsMountInStep | lib/MintUtils.js:94-97 | setting a settled solid tree keeps the mount showing the rendered tree |
| StateContainer.SetSameTreeIsNoop | lib/MintUtils.js:94-97 | setting the already rendered tree leaves the mount as it was |
| StateContainer.SetNullThrows | lib/MintUtils.js:94 | `set(null)` on a rendered container throws `TypeError`; `set(undefined)` renders nothing |
| StateContainer.NoRenderWithoutTree | lib/MintUtils.js:94 | no diff runs before a tree has been rendered |
| Allocation.SumAppend | Execute.c:124 | recording a size adds it to the total |
| Allocation.SumRemoveAt | Execute.c:136-142 | dropping an entry lowers the total by exactly its size |
| Allocation.Zeros | Execute.c:127 | `fast_memset(ptr, 0, size)`: `size` zero bytes |
| Allocation.RemoveAt | Execute.c:138-142 | entries before `i` stay, later entries move down by one |
| Allocation.FirstIndex | Execute.c:134-135 | the first position holding `p`; none iff `p` is not recorded |
| Allocation.FirstIndexAt | Execute.c:134-135 | a position with no earlier occurrence is the one found |
| Allocation.RecordThenRelease | Execute.c:120-145 | freeing a block right after recording it restores the table and the total |
| Allocation.RemoveLast | Execute.c:138-142 | removing the last entry gives the table before it was appended |
| Allocation.MemoryPool.constructor | Execute.c:74-92 | `capacity` zeroed slots, count and total zero |
| Allocation.MemoryPool.Grow | Execute.c:107-117 | larger arrays with the recorded entries, count and total unchanged |
| Allocation.MemoryPool.Record | Execute.c:120-125 | appends `p` and its size and adds the size to the total |
| Allocation.MemoryPool.RemoveEntry | Execute.c:136-142 | removes entry `i` from both arrays and subtracts its size |
| Allocation.MemoryPool.Find | Execute.c:134-135 | the linear scan returns `FirstIndex(Blocks(), p)` |
| Allocation.MemoryPool.ShiftLeft | Execute.c:138-141 | the shifting loop leaves both arrays equal to the old entries with entry `i` removed |
| Allocation.ShiftedRemoves | Execute.c:138-141 | the loop's shifted state is exactly the removal |
| Allocation.InitMemoryPool | Execute.c:74-96 | NULL when an allocation fails, otherwise a fresh empty pool of the requested capacity |
| Allocation.Allocator.constructor | Execute.c:22 | no pool, no allocations |
| Allocation.Allocator.MemoryStats | Execute.c:383-386 | reports the sum of the recorded sizes and the recorded count, which never exceeds the capacity, and the pool's capacity; zeros without a pool |
| Allocation.Allocator.EnsurePool | Execute.c:99-102 | creates a 100-slot pool on first use, or leaves the pool as it was |
| Allocation.Allocator.SmartMalloc | Execute.c:98-129 | NULL without a pool or when `malloc` fails; otherwise a zero-filled block, recorded unless the table is full and cannot grow; a full table doubles when growth succeeds |
| Allocation.Allocator.Track | Execute.c:104-127 | grows a full table, records the block when there is room, zero-fills it |
| Allocation.Allocator.SmartFree | Execute.c:131-148 | nothing for NULL or without a pool; otherwise frees the block and removes its first record, lowering the total by its size; untracked blocks leave the table as it was |
| Allocation.Allocator.CleanupMemoryPool | Execute.c:312-331 | frees every tracked block and drops the pool |
| Allocation.TracksLiveAllocate | Execute.c:104-125 | a new live block keeps the table valid, recorded or not |
| Allocation.TracksLiveRelease | Execute.c:136-147 | releasing a recorded block and its entry keeps the table valid |
| Allocation.TracksLiveFreeUntracked | Execute.c:147 | freeing an unrecorded block keeps the table valid |
| DevServer.LastDot | Execute.c:240 | `strrchr(name, '.')`: none iff there is no dot, else a dot with no dot after it |
| DevServer.MimeType | Execute.c:240-251 | `text/plain` without a dot; `image/jpeg` iff the extension is `.jpg` or `.jpeg` |
| DevServer.MimeOfSuffix | Execute.c:240-251 | for any base, `base + ext` has extension `ext` and gets `ext`'s type: only text after the last dot counts |
| DevServer.UpperCaseIsPlain | Execute.c:243 | matching is case-sensitive: `INDEX.HTML` is served as `text/plain` |
| DevServer.LastDotDecides | Execute.c:240-244 | `app.min.js` is JavaScript |
| DevServer.RouteOf | Execute.c:375-393 | the three endpoints iff the path is exactly theirs; any other path serves a non-empty file name, the path without its first character when that is non-empty |
| DevServer.ServesPathTail | Execute.c:377-393 | every path but `/reload` and `/memory-stats` serves the path's tail, or `index.html` for a one-character path |
| DevServer.LiveScriptIsJavaScript | Execute.c:308-310 | `/live-reload.js` serves `live-reload.js` as JavaScript |
| DevServer.RootIsIndexPage | Execute.c:389-392 | `/` serves `index.html` as HTML |
| DevServer.CountTrueConcat | Execute.c:289-301 | counting `true` replies distributes over concatenation |
| DevServer.ReloadAtMostOncePerChange | Execute.c:289-291 | over any run, the `true` replies plus a still-pending flag never exceed the detected changes plus a flag pending at the start |
| DevServer.ReloadRepliesBounded | Execute.c:289-291 | from start-up, `/reload` answers `true` at most once per detected change |
| DevServer.ChangeIsReported | Execute.c:289-291 | a poll right after a request that detected a change answers `true` |
| DevServer.ReloadFlag.constructor | Execute.c:24 | the flag starts clear |
| DevServer.ReloadFlag.CheckFilesModified | Execute.c:373 | a detected change raises the flag; nothing clears it there |
| DevServer.ReloadFlag.ServeReload | Execute.c:289-291 | replies with the old flag and leaves it clear |
| DevServer.ReloadFlag.HandleRequest | Execute.c:369-393 | checks for changes, then routes; only `/reload` replies and clears the flag, as `Handle` says |

## Left out

- Sockets, `recv`/`send`, HTTP header text, `printf`, `time(NULL)`, CPU-cycle counting, `fopen`/`fread` and the 404 and 500 replies of `serve_file` are not modelled. The routing, the MIME choice and the reload flag are modelled as the decisions they feed.
- `check_files_modified` (directory scan, file times) is a parameter: the `changed` flag of each request. Only its effect on `files_changed` is modelled.
- The `fast_memcpy`/`fast_memset`/`fast_strlen` assembly helpers are modelled by their C library meaning.
- The buffers that `main`, `serve_file` and `optimized_file_read` allocate through the pool are not traced request by request. The pool operations they call are modelled.
- Allocation.Allocator.SmartMalloc: growth is all-or-nothing. When only one of the two `realloc` calls succeeds, the source keeps the old address of the array that moved, and that address dangles. The model treats this as a failed growth with both arrays intact.
- Allocation.Allocator.SmartMalloc: `int` capacity doubling and `size_t` totals are unbounded here. Overflow and wrap-around are not modelled.
- Allocation.Allocator.SmartFree requires a non-NULL pointer to be live while a pool exists. Freeing anything else is undefined in C.
- DevServer.RouteOf requires a non-empty path, as `sscanf("%s")` yields. A request line with a single token leaves `path` uninitialised. That case, and paths longer than the 1024-byte buffer, are not modelled.
- DevServer.ReloadFlag.ServeReload: the reply's `timestamp` and `memory_usage` fields are not modelled, only the `reload` field.
- Node identity, aliasing and `childNodes` as a live list are not modelled. A patched node is recognised by keeping its fields and attributes (`DiffFacts.DiffPatchesInPlace`), a replaced one by being `Materialize(newNode)` (`DiffFacts.DiffReplaces`).
- Dom.PropWrites: `key in newProps` is modelled as a test on the object's own keys. In JavaScript it also sees inherited names such as `toString` or `constructor`, so an old own key with such a name is never removed; the model removes it.
- Dom.ApplyWrite: attribute names are kept case-sensitively and every name is accepted. An HTML element's `setAttribute`/`removeAttribute` lower-case the name and throw `InvalidCharacterError` for an invalid one such as `""`, so props `{title, Title}` set one attribute in the browser and two in the model.
- Dom.ApplyWrite: a handler is written to a separate field map. In the browser `$el[eventName] = f` can hit a reflected property (for example `onId` writes the `id` attribute, `ondata` on a text node writes its data); that write-through is not modelled.
- Allocation.Allocator.CleanupMemoryPool is modelled as an ordinary sequential call. As a `SIGINT` handler it runs asynchronously and can interrupt `smart_malloc` or `smart_free` half-way; that interleaving is not modelled.
- The key order of a props object is taken as given. JavaScript's `for...in` order, which puts integer-like keys first in ascending order, is not computed.
- After an exception in `diff` or `updateProps`, the DOM writes already performed are not kept. The model returns the exception only.
- Dom.LowerCase: only ASCII letters are lower-cased. The Unicode case mapping of `toLowerCase` is not modelled.
- Tag-name legality beyond the empty tag is not modelled. Every non-empty tag is accepted by `document.createElement`.
- CreateDom.NumberText: only integers are modelled. Fractions, exponents, `NaN` and `Infinity` are not.
- VNodes.CreateElement: `children.flat()` is modelled for nodes and arrays of nodes. Deeper nesting, and `null`, booleans or other values among the children, are not modelled.
- Subscriber callbacks are identified by number, and their effects are not modelled. This covers a subscriber that throws, calls `set` again or subscribes during notification. `StateContainer.Store.Set` records the notifications they receive.
- StateContainer.Store.Set: an updater function is a total function on the modelled values. An updater that throws is not modelled.
- JavaScript values beyond `undefined`, `null`, booleans, numbers, strings and objects carrying an optional `vdom` are not modelled. Prop values are strings, numbers, booleans and functions. `setAttribute` stores the value, not its string conversion.
