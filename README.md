# Airkit component lifecycle reconciler, modelled in Dafny

Airkit's component registry watches the document. It keeps one component object per
element that carries a registered CSS class. Each `register(className, ctor, options)`
adds a **handler**. A handler keeps its live components in an index object
(`components`, tag => component). It tells elements apart by a numeric `airkitId`
property, the **tag**, which it writes on each element it adopts; the tags come from its
own counter `nextId_`, which starts at 1. On every pass (`updateComponents`) a handler
does two things:

1. It walks its live node list in document order. It gives each untagged element the
   next tag, constructs a component for it, `init`s it (which sets `ak-init="true"` on
   the element) and files it under the tag. It collects every matched element's tag as
   *active*.
2. It destroys every indexed component whose element's tag is not active. For each one
   it deletes the entry, resets the element's tag to null, and calls the component's
   `destroy`, which removes `ak-init` and drops its references.

The registry runs every handler's pass in registration order. `run` does one pass, then
connects a mutation observer. `destroy` destroys every handler and drops them. A
separate image loader memoises one load promise per image `src`.

The project has five modules:

- `dom.dfy` (`Dom`): the part of the document the registry touches.
  - An `Element` class holds `airkitId` (0 stands for null) and the `ak-init` attribute.
  - A document snapshot is a sequence of `Node(element, classes)`.
  - `MatchList` is `getElementsByClassName` over a snapshot.
- `component.dfy` (`ComponentBase`): the base `Component` class. Its lifecycle stage is
  ghost bookkeeping.
- `reconcile.dfy` (`Reconcile`): the pass stated on values, over a generic element type.
  - `Pass` is one handler's pass: `Mint` is the first loop, `Doomed` is the filter,
    `Cleared` is the tag reset.
  - `Fanout` is every handler's pass in order.
  - The lemmas state what a pass and a fan-out guarantee.
- `registry.dfy` (`ComponentRegistry`): the `Handler` and `Registry` classes.
  - State is updated in place, with `modifies` frames.
  - Each method is proved against `Reconcile`: a handler pass computes exactly
    `Reconcile.Pass` on the abstract state (tags and index). A registry pass computes a
    chain of those passes, which `Reconcile.ChainedFanout` proves equal to `Fanout`.
- `imageloader.dfy` (`ImageLoading`): the `ImageLoader` class. Its `promises` map is
  updated in place by `Load`.

Four behaviours of the code are easy to miss:

- **`register` starts no pass.** It only appends a handler. Elements that already match
  wait for the next pass (`run`, or the next mutation batch).
- **An element with two registered classes gets at most one component.** The tag is a
  single property shared by all handlers, so a later handler treats an element an
  earlier handler tagged as already its own, and constructs nothing for it
  (`Reconcile.LaterHandlerSkipsTagged`). No element is ever in two handlers' indexes
  (`Reconcile.FanoutPreserves`). It can also have none for a while: see the last point
  below.
- **Tags can collide across handlers.** Each handler counts from 1, so two elements can
  carry the same tag for two handlers. A component then survives after its element
  stops matching, because a different matched element carries the same tag
  (`Reconcile.SharedTagCollision` shows a concrete case). The handler invariant
  therefore states only the keys *each handler* owns. No element is owned by two
  handlers (`Reconcile.Disjoint`).
- **A pass is not idempotent across handlers, and can orphan a matched element.** When
  an element's class changes from a later handler's to an earlier handler's, the earlier
  handler sees the tag the later one gave, counts it as active and constructs nothing.
  The later handler then destroys its component and clears the tag. The element matches
  a class but has no component until the next pass (`Reconcile.MovedElementOrphaned`).
  For a single handler a second pass over the same match list changes nothing
  (`Reconcile.PassIdempotent`).

## Model

| member | source | states |
|---|---|---|
| Dom.Element.constructor | src/component/registry.js:129 | a new element carries no tag and no `ak-init` |
| Dom.MatchList | src/component/registry.js:94 | the matched elements are exactly the elements of the snapshot's nodes that have the class, and there are at most as many as nodes |
| ComponentBase.Component.constructor | src/component/component.js:10-16 | the component is bound to the given element and options and is only constructed |
| ComponentBase.Component.Init | src/component/component.js:22-24 | the bound element gets `ak-init`, the references stay, and the stage becomes initialised |
| ComponentBase.Component.Destroy | src/component/component.js:29-33 | the element that was bound loses `ak-init`, and the element and options references become null |
| Reconcile.MintOne | src/component/registry.js:129-135 | one iteration of the first loop, as a value; its effect is stated by `Reconcile.MintIndexFacts` and `Reconcile.MintTagFacts` |
| Reconcile.Mint | src/component/registry.js:128-136 | the first loop over the match list in list order, as a value; its effect is stated by `Reconcile.MintIndexFacts` and `Reconcile.MintTagFacts` |
| Reconcile.Doomed | src/component/registry.js:139-140 | the filter of the second step, as a value; `Reconcile.DoomedKeys` states which keys it keeps |
| Reconcile.Cleared | src/component/registry.js:164-166 | the tag reset of `destroyComponent_` for a set of destroyed keys, as a value; `Reconcile.PassTags` and `Reconcile.PassLeaves` state its effect |
| Reconcile.Pass | src/component/registry.js:124-144 | one handler's pass, as a value; the `Reconcile.Pass…` lemmas below state what it guarantees |
| Reconcile.Fanout | src/component/registry.js:71-73 | every handler's pass in registration order, as a value; `Reconcile.FanoutPreserves`, `Reconcile.FanoutAt`, `Reconcile.ChainedFanout` and `Reconcile.FanoutKeys` state what it guarantees |
| Reconcile.DoomedKeys | src/component/registry.js:139-140 | under the index invariant, the filter keeps exactly the indexed keys that are not active |
| Reconcile.MintIndexFacts | src/component/registry.js:128-136 | the first loop keeps the invariant and every old entry, and files one entry per constructed component under consecutive keys from the counter |
| Reconcile.MintTagFacts | src/component/registry.js:128-136 | the first loop constructs for exactly the untagged matched elements, changes no other tag, leaves every matched element tagged, and collects exactly their tags as active |
| Reconcile.PassCreates | src/component/registry.js:128-136 | a pass constructs one component for each matched element without a tag and for no other element, none twice, with tags `next`, `next+1`, … that it keeps; the counter advances by the number constructed |
| Reconcile.PassKeeps | src/component/registry.js:135-143 | an old entry survives a pass if and only if some matched element carries its key, and a surviving entry keeps its element |
| Reconcile.PassTags | src/component/registry.js:124-144 | after a pass the invariant holds, every matched element is tagged, existing tags of matched elements are unchanged, destroyed entries' elements are untagged, and only untagged or indexed elements change tag |
| Reconcile.PassGone | src/component/registry.js:139-143 | the elements a pass strips of their tag all belong to the old index |
| Reconcile.PassEntriesMatched | src/component/registry.js:135-143 | every entry left after a pass is carried by some matched element |
| Reconcile.PassKeys | src/component/registry.js:129-130 | a pass records a tag for each matched element and forgets none |
| Reconcile.PassLeaves | src/component/registry.js:128-143 | an element in no entry after a pass got no component in it; it was in the old index exactly when its entry was destroyed, and then its tag is reset, otherwise its tag is unchanged |
| Reconcile.PassIdempotent | src/component/registry.js:124-144 | a second pass over the same match list constructs nothing, destroys nothing and changes nothing |
| Reconcile.InvInjective | src/component/registry.js:129-133 | under the index invariant no element is filed under two keys of one index, since each carries its own key as tag |
| Reconcile.StepPreserves | src/component/registry.js:72 | one handler's pass keeps every handler's invariant and keeps element ownership disjoint across handlers |
| Reconcile.FanoutPreserves | src/component/registry.js:71-73 | a fan-out over the handlers keeps every handler's invariant and disjoint ownership |
| Reconcile.FanoutAt | src/component/registry.js:72 | inside a fan-out, handler j's pass is a plain pass over the tags left by the handlers before it |
| Reconcile.ChainedFanout | src/component/registry.js:71-73 | a chain of passes, one per handler in order, has the same tags, indexes, constructions and destructions as the fan-out |
| Reconcile.FanoutKeys | src/component/registry.js:71-73 | when every match list draws on the elements the tags cover, the fan-out's tags cover the same elements |
| Reconcile.LaterHandlerSkipsTagged | src/component/registry.js:129 | an element matched by two consecutive handlers gets no component from the later one |
| Reconcile.SharedTagCollision | src/component/registry.js:118-140 | two handlers give two elements the same tag 1, and a component survives after its element stops matching |
| Reconcile.MovedElementOrphaned | src/component/registry.js:71-73 | an element whose class moves from a later handler's to an earlier one's loses its component in the next fan-out and gets the earlier handler's component only in the one after |
| ComponentRegistry.Handler.constructor | src/component/registry.js:89-119 | a handler starts with an empty index, the counter at 1, and the given class name and options |
| ComponentRegistry.Handler.DestroyComponent | src/component/registry.js:164-168 | the entry under the element's tag is deleted, the tag is reset, the component is destroyed, and the handler stays valid |
| ComponentRegistry.Handler.DestroyComponents | src/component/registry.js:141-143 | every component under the given keys is removed from the index and retired with its element; nothing else in the index changes |
| ComponentRegistry.Handler.Adopt | src/component/registry.js:129-134 | an untagged element gets the counter's value as its tag and a new initialised component under it; the counter advances and the old entries stay |
| ComponentRegistry.Handler.InitOne | src/component/registry.js:129-135 | one iteration of the first loop moves the handler from the state of `Reconcile.Mint` on a prefix to `Reconcile.MintOne` of the next element, keeps the old component objects and files only fresh ones |
| ComponentRegistry.Handler.InitNew | src/component/registry.js:126-136 | the first loop computes `Reconcile.Mint` on the tags and the index, keeps every old component object, and files new ones |
| ComponentRegistry.Handler.Inactive | src/component/registry.js:139-140 | the filtered keys are exactly the indexed keys whose tag is not active |
| ComponentRegistry.Handler.SweepOne | src/component/registry.js:141-143 | one step of the sweep removes the entry under one more key and retires its component and element; the rest of the index is as before |
| ComponentRegistry.Handler.Sweep | src/component/registry.js:139-143 | the second step leaves exactly the index and tags of `Reconcile.Pass` and retires the destroyed components |
| ComponentRegistry.Handler.UpdateComponents | src/component/registry.js:124-144 | a pass computes `Reconcile.Pass` over the handler's match list: tags, index and `ak-init` follow it, kept components are the same objects, new ones are fresh, and destroyed ones are retired |
| ComponentRegistry.Handler.Destroy | src/component/registry.js:149-157 | every component of the index is destroyed with its element's tag and `ak-init`, and the index is dropped |
| ComponentRegistry.Registry.constructor | src/component/registry.js:19-25 | a new registry has no handlers and its observer is not connected |
| ComponentRegistry.Registry.Register | src/component/registry.js:37-41 | one new empty handler is appended with the given options, or a fresh options object when none is given; the old handlers stay and the registry is returned |
| ComponentRegistry.Registry.Delegate | src/component/registry.js:72 | handler i's own pass computes `Reconcile.Pass` over its match list; it writes no other handler and no other handler's component, keeps its surviving component objects, files only fresh ones, retires the destroyed ones, and unmarks exactly the elements it let go |
| ComponentRegistry.Registry.Visit | src/component/registry.js:72 | handler i's pass is `Reconcile.Pass` over its match list with the registry's current tags; the registry stays valid, no other handler's index changes, kept components are the same objects, new ones are fresh and destroyed ones are retired; elements that leave the registry were handler i's and are unmarked |
| ComponentRegistry.Registry.Step | src/component/registry.js:72 | one iteration of the `forEach` appends handler i's pass to the chain of the passes before it, and keeps the component and element facts of the passes so far |
| ComponentRegistry.Registry.EachHandler | src/component/registry.js:71-73 | the `forEach` over all handlers builds the full chain of passes, and each handler keeps its surviving components, files only fresh ones and retires its destroyed ones |
| ComponentRegistry.Registry.UpdateComponents | src/component/registry.js:71-73 | every handler's pass runs in registration order: a chain of `Reconcile.Pass`es from the current tags, with the final tags written on the elements; the registry stays valid and its elements stay within `D`; in every handler kept components are the same objects, new ones are fresh and destroyed ones are dead; an element that no handler owns afterwards is unmarked if some handler owned it before, and otherwise keeps its tag and `ak-init` |
| ComponentRegistry.Registry.Observe | src/component/registry.js:50-55 | the observer is connected; the registry's validity and owned elements are unaffected |
| ComponentRegistry.Registry.Run | src/component/registry.js:48-56 | one full pass with every guarantee of `UpdateComponents`, after which the observer is connected |
| ComponentRegistry.Registry.Separated | src/component/registry.js:61-62 | in a valid registry no component and no element belongs to two handlers |
| ComponentRegistry.Registry.DestroyAt | src/component/registry.js:62 | one iteration of destroy's `forEach`: handler i is disposed and its components and elements join the destroyed and unmarked ones; later handlers keep what they hold |
| ComponentRegistry.Registry.Destroy | src/component/registry.js:61-65 | every handler is disposed, every component any handler held is destroyed, every element one held is untagged and loses `ak-init`, the handler list is empty and the observer is disconnected |
| ImageLoading.Pending.constructor | src/lazyimage/imageloader.js:27-31 | a new load promise resolves with the `src` it was made for |
| ImageLoading.Settle | src/lazyimage/imageloader.js:44 | the values `Promise.all` resolves with: one per promise, each its promise's `src`, in the same order |
| ImageLoading.FirstSeenElements | src/lazyimage/imageloader.js:22-37 | the enumeration order of the promise map holds exactly the requested srcs, each once |
| ImageLoading.FirstSeenSnoc | src/lazyimage/imageloader.js:23-35 | requesting a src adds it at the end of the enumeration order if and only if it was not requested before |
| ImageLoading.ImageLoader.constructor | src/lazyimage/imageloader.js:8-14 | a new loader holds no promise |
| ImageLoading.ImageLoader.Load | src/lazyimage/imageloader.js:22-37 | a cached src returns its stored promise and changes nothing; a new src gets one fresh promise under that key and nothing else changes; the key set stays the set of requested srcs |
| ImageLoading.ImageLoader.Wait | src/lazyimage/imageloader.js:43-45 | the promises `wait` hands to `Promise.all`, as a value; `ImageLoading.ImageLoader.WaitSettles` states what it guarantees |
| ImageLoading.ImageLoader.WaitSettles | src/lazyimage/imageloader.js:43-45 | the promises `wait` combines are exactly the held ones, each once, and they resolve with the distinct requested srcs in first-request order |

## Left out

- The mutation observer is not modelled. `observing` records only whether it is connected.
  A later pass triggered by a mutation batch is one more call of
  `Registry.UpdateComponents` on the next snapshot.
- The live `NodeList` is read as a snapshot (`Dom.Node` list) taken when a pass starts:
  - a component whose `init` or `destroy` changes the document during a pass is not
    modelled;
  - re-entrant calls into the registry from a component are not modelled.
- Only the base `Component` is modelled. Subclass constructors passed as `componentCtor`
  may do more in `init`/`destroy`, for instance throw and abort the pass; that is not
  modelled.
- `options || {}` is modelled for `null` and for an object only. Other falsy values
  (`undefined`, `false`, `0`, `""`) also get a fresh options object in the source.
- Tags and the counter are unbounded integers. JavaScript numbers lose integer precision
  above 2^53; that is not modelled.
- `airkitId` of null, undefined and 0 are all modelled as 0. Other values other code might
  write on the property are not modelled.
- Discarding the node list and the index (`nodeList = null; components = null`) is
  modelled as the `disposed` flag. In the source, a pass on a destroyed handler would
  throw. The registry never runs one, because it drops its handlers when it is destroyed.
- Dom.MatchList: treats the class name as a single token. `getElementsByClassName`
  splits its argument on whitespace and matches elements that have every token; a
  registered name with spaces is not modelled.
- ComponentRegistry.Handler.DestroyComponents: destroys the components in an arbitrary
  order, not in the ascending key order of `Object.values`. The final state does not
  depend on the order, and no component observes it.
- ComponentRegistry.Registry.Destroy: destroys the handlers in registration order and
  states only the final state, not the order of the component `destroy` calls.
- The `Image` element and its `load` event are not modelled, nor the asynchronous resolution
  of the load promises and of `Promise.all`. A promise is an object that remembers the
  `src` it resolves with. A failed image load, which the source leaves unhandled, is not
  modelled.
- ImageLoading.ImageLoader.Load: the promise table is a plain map. In the source it is an
  object literal, where `this.promises[src]` is also truthy for keys inherited from
  `Object.prototype` (such as `constructor`).
- ImageLoading.ImageLoader.Wait: lists the promises in insertion order. JavaScript
  enumerates array-index-like keys (such as `"12"`) first, in numeric order; that is not
  modelled.
