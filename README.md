# emitox `Event` in Dafny

emitox is a small TypeScript event emitter. One `Event` object keeps its
listeners in a single mutable field, `_lis`. That field is `undefined`, a bare
`Listener` object, or an array of listeners. The operations are:

- `on(fn)` and the callback form of `once(fn)` append a listener, through
  `addEventLis`;
- `off()` removes everything and `off(fn)` removes by callback;
- `listenerCount()` counts the listeners;
- `emit(...args)` walks the array by index. It splices out each
  once-listener before calling it and does not advance the index past it;
- `rmFirstListenerInstance` removes one listener object. The timer of a
  timed `once` uses it.

The model has three layers.

- `EmitoxSpec` (listeners.dfy) is the value view:
  - listeners;
  - the three storage shapes (`Empty`, `Single`, `Multi`);
  - every operation as a function on storage;
  - the dispatch loop as the step function `Walk`;
  - the lemmas about all of these.
- `Emitox` (event.dfy) is the imperative model:
  - a `ListenerArray` class that is changed in place by `Push` and `Splice`;
  - the `Event` class with its field `lis`;
  - the two module-level helpers.

  Every method is proved against the functions of `EmitoxSpec`. Its `ensures`
  gives the new abstract state `State()` and the calls made.
- `EmitoxScenarios` (scenarios.dfy) contains client methods that replay the
  repository's tests on the class. `EmitoxFindings` (findings.dfy) holds the
  two findings below.

How the model represents the source:

- **Callbacks and arguments.** A callback is a `FnId`. Arguments are one
  opaque `seq<Arg>`.
- **Listener identity.** A listener is an object, so
  `rmFirstListenerInstance` compares listeners by reference.
- **Calls.** `emit` returns the trace of calls it makes.
- **Callbacks during emit.** The callbacks are opaque, so `Emit` takes a set
  `selfOff`. A callback in `selfOff` calls `off` on itself when it is invoked,
  which is the one re-entrant pattern in the tests. Every other callback
  leaves the event alone. `off` installs a new array while `emit` keeps
  walking the array it captured. The cursor (`Captured`, `Replaced`,
  `Cleared`) records where `_lis` points during the walk.

Three facts about the storage shapes matter throughout the model:

- **`off(fn)` on an array.** It removes every listener with that callback
  and always installs a new array, possibly `[]` or one element long.
- **Array length.** An array may hold zero or one element. Only `emit` and
  `rmFirstListenerInstance` collapse an emptied array to `undefined`.
- **Empty arrays.** `addEventLis` pushes onto an empty array, because an
  empty array is truthy. `listenerCount` reports its length.

## Model

The specification functions `Without` (the filter of `off(fn)`,
index.ts:76-77), `Walk` (emit's array loop, index.ts:149-158) and
`AfterEmit` (emit, index.ts:139-160) carry no contract beyond a length
bound on `Without`. The
`Off`, `EmitArray` and `Emit` methods are proved against them, and the
lemmas below state their properties.

| member | source | states |
|---|---|---|
| EmitoxSpec.Listener.constructor | index.ts:9-16 | a listener keeps the callback and the once flag it was built with |
| EmitoxSpec.Appended | index.ts:18-22 | appending puts the listener last after the existing ones; only empty storage becomes single, and an array stays an array |
| Emitox.AddEventLis | index.ts:18-22 | the event's storage becomes `Appended` of the old one; an existing array is kept and pushed onto; anything newly referenced is fresh |
| Emitox.ListenerArray.Push | index.ts:20 | push adds the element at the end |
| Emitox.ListenerArray.Splice | index.ts:30 | splice(i, 1) drops exactly element i and keeps the rest in order |
| EmitoxSpec.LastIndexOf | index.ts:29 | the backward scan stops at an entry that is `l` with none after it, and yields -1 exactly when `l` is absent |
| EmitoxSpec.RemovedInstance | index.ts:24-35 | the last occurrence of the object is removed; a missing object leaves the listeners as they are; a bare listener goes only if it is the object; an array stays an array unless it ends up empty, and then collapses to empty (an empty array too) |
| Emitox.RmFirstListenerInstance | index.ts:24-35 | the event's storage becomes `RemovedInstance` of the old one; the array is changed in place and only an emptied one is dropped |
| EmitoxSpec.AfterOff | index.ts:69-80 | `off()` and `off` on empty storage leave it empty; `off(fn)` on a bare listener with callback `fn` leaves it empty and on one with another callback leaves an empty array; on an array it yields an array of the entries whose callback differs; every remaining listener was there before and has a different callback |
| EmitoxSpec.WithoutMembers | index.ts:76-77 | a listener survives `off(fn)` exactly when it was present and its callback is not `fn` |
| EmitoxSpec.WithoutConcat | index.ts:76-77 | filtering by callback keeps relative order: it distributes over concatenation |
| EmitoxSpec.WithoutAbsent | index.ts:76-77 | `off(fn)` leaves an array without `fn` entry for entry as it is |
| Emitox.Event.Off | index.ts:69-80 | the event's storage becomes `AfterOff` of the old one; the copying loop builds the new array entry by entry |
| Emitox.Event.ListenerCount | index.ts:86-89 | the count is the number of listeners in storage, and it is 0 exactly when `_lis` is unset or an empty array |
| Emitox.Event.constructor | index.ts:56 | a new event has no listeners |
| Emitox.Event.On | index.ts:97-99 | a new persistent listener for `fn` is appended |
| Emitox.Event.Once | index.ts:116 | a new once-listener for `fn` is appended |
| EmitoxSpec.Calls | index.ts:144-157 | emit makes one call per listener |
| EmitoxSpec.CallsAt | index.ts:149-157 | the j-th call invokes the j-th listener's callback with emit's arguments |
| EmitoxSpec.OffDuringIsOff | index.ts:75-78 | a callback's `off` during dispatch acts on the storage `_lis` currently denotes and always leaves `_lis` off the captured array |
| Emitox.Event.Emit | index.ts:139-160 | the trace is one call per listener present at the start, in storage order, with emit's arguments; the new storage is `AfterEmit` of the old one |
| Emitox.Event.EmitArray | index.ts:147-159 | the array loop calls every captured listener in order and leaves the storage that `Walk` describes |
| Emitox.Event.DispatchAt | index.ts:150-157 | one iteration: a once-listener is spliced out at the index and the index stays; a persistent one leaves the array alone and the index advances by one; an emptied array unsets `_lis`; a self-removing callback then runs `off` on what `_lis` denotes; the step agrees with one step of `Walk` |
| EmitoxSpec.Persistent | index.ts:151-155 | the listeners an emit keeps are exactly those present that are not once-listeners, and no more than were there |
| EmitoxSpec.PersistentOfOnce | index.ts:151-155 | a sequence of once-listeners has no persistent entry |
| EmitoxSpec.KeptAfterSplice | index.ts:151-153 | splicing out a once-listener does not change what the dispatch will leave |
| EmitoxSpec.KeptAfterPass | index.ts:155 | stepping over a persistent listener does not change what the dispatch will leave |
| EmitoxSpec.WalkWithoutReentry | index.ts:149-158 | without re-entrant callbacks, the loop from index i leaves the entries before i followed by the persistent entries from i on, and clears `_lis` only when nothing is left |
| EmitoxSpec.EmitKeepsPersistent | index.ts:142-158 | after emit the storage holds exactly the persistent listeners it had, in order, and no once-listener |
| EmitoxSpec.EmitClearsOnlyWhenAllOnce | index.ts:142-155 | emit clears the storage exactly when it held listeners and all of them were once-listeners; otherwise single stays single and an array keeps its persistent entries |
| EmitoxSpec.EmitCallsEveryListener | index.ts:149-157 | every listener present at the start is called once, in storage order, with the same arguments |
| EmitoxSpec.SelfRemovalKeepsSuccessor | index.ts:75-78 | with two persistent listeners where the first removes itself, one emit leaves only the second |
| EmitoxSpec.TimeoutRetractsListener | index.ts:117-127 | the timer's rmFirstListenerInstance retracts exactly the listener that the same once call appended |
| EmitoxScenarios.OnListenerGetsArgs | test/index.test.ts:34-43 | an on-listener is called with exactly emit's arguments |
| EmitoxScenarios.ManyOnListenersGetArgs | test/index.test.ts:45-56 | any number of on-listeners are all called, in registration order, with emit's arguments |
| EmitoxScenarios.OnceListenerFiresOnce | test/index.test.ts:62-73 | a once-listener is called on the first of three emits only, with that emit's arguments |
| EmitoxScenarios.ManyOnceListenersFireOnce | test/index.test.ts:95-110 | once-listeners are all called by the first emit and by no later one |
| EmitoxScenarios.RemovedListenerNotCalled | test/index.test.ts:113-144 | an on- or once-listener removed by `off(fn)` or `off()` is not called |
| EmitoxScenarios.RemoveOneOfTwo | test/index.test.ts:146-160 | after removing the second of two listeners, emit calls only the first |
| EmitoxScenarios.RemoveBothOfTwo | test/index.test.ts:162-177 | after removing both listeners, emit calls nothing and the count is 0 |
| EmitoxScenarios.SelfRemovalDuringEmit | test/index.test.ts:195-210 | a self-removing first listener does not make emit skip the second; afterwards only the second is called and counted |
| EmitoxScenarios.CountThroughOnAndOff | test/index.test.ts:215-231 | the count goes 0, 3, 2 through on(a), on(b), on(b), off(a) |
| EmitoxFindings.OffDropsUnrelatedListener | index.ts:73-78 | as written, `off(fn)` on a bare listener with another callback yields an empty array rather than the listeners without `fn` |
| EmitoxFindings.OffOtherCallbackDropsListener | index.ts:73-78 | as written, after on(f1) and off(f2) the f1 listener is neither counted nor called |
| EmitoxFindings.AfterOffIntended | index.ts:69-80 | the corrected off removes exactly the listeners with that callback, or all of them without one, and keeps the others in order; a bare listener stays bare only when it survives, and an array stays an array; it differs from `AfterOff` exactly on a bare listener with another callback |
| EmitoxFindings.OnceListenerSurvivesSelfRemoval | index.ts:149-157 | as written, a once-listener after a self-removing listener is still registered after one emit |
| EmitoxFindings.OnceListenerFiresTwice | index.ts:149-157 | as written, that once-listener is called again by the second emit |
| EmitoxFindings.Outside | index.ts:76-77 | the entries that survive `off` for every callback in a set: a listener survives exactly when it was present and its callback is outside the set |
| EmitoxFindings.WithoutOutside | index.ts:76-77 | one more `off(fn)` adds `fn` to the removed set |
| EmitoxFindings.OutsideSpliceKept | index.ts:29-30 | splicing out a surviving entry removes it from the survivors at the point a backward scan for it stops |
| EmitoxFindings.EvictReplaced | index.ts:24-35 | retracting an evicted once-listener from a replacement array keeps that array equal to the survivors of the captured one |
| EmitoxFindings.WalkIntendedOutside | index.ts:149-158 | from any consistent dispatch state, the corrected loop leaves exactly the listeners already passed and the persistent ones still ahead, minus every self-removing callback |
| EmitoxFindings.EmitIntendedKeepsPersistentOutside | index.ts:139-160 | after the corrected emit (`AfterEmitIntended`, whose loop `WalkIntended` also retracts an evicted once-listener from a replacement array) the storage holds exactly the persistent listeners whose callbacks did not remove themselves, in order |
| EmitoxFindings.EmitIntendedWithoutReentry | index.ts:139-160 | without re-entrant callbacks the corrected emit is the emit as written |

## Left out

- The Promise forms of `once` (index.ts:117-128) are not modelled. Their
  promises, timers and asynchronous races are host facilities. The timer
  firing is modelled only as a call to `rmFirstListenerInstance` on the
  listener the call appended (`TimeoutRetractsListener`).
- `onceTimeoutErrorCreator` (index.ts:47-51) is left out. It is a
  process-wide factory of host `Error` objects.
- The special cases for calling with 0 to 3 arguments versus
  `fn.apply(null, Array.from(arguments))` are left out
  (index.ts:144-145, 156-157). Every call passes the same opaque argument
  sequence, so these cases do not change what is called.
- Exceptions thrown by callbacks are left out. So is any re-entrant callback
  other than one that calls `off` on its own callback: a callback is
  first-order data here, not code.
- Listeners added during an emit are not modelled, for the same reason.
- The type-only exports `ProtectedEvent` and `EventListener`
  (index.ts:37-38) are left out.
- The `Event` class keeps the behaviour as written. The corrected behaviours
  of the two findings are stated as the functions `AfterOffIntended` and
  `AfterEmitIntended`. Their properties are proved about those functions,
  not about additional class methods.
- `EmitoxFindings.EmitIntendedKeepsPersistentOutside` assumes that no
  listener object occurs twice (`Distinct`). Every `on` and `once` call
  creates a new listener object, so this always holds.

## Findings

| source | as written | input that shows it | evidently intended | confidence | as-written member | corrected member |
|---|---|---|---|---|---|---|
| index.ts:73-78 | `off(fn)` on a bare listener whose callback is not `fn` fails the callback test. It then copies `lis.length` entries, and a listener object has no length, so it installs `[]` | `on(a); off(b)`: `listenerCount()` is 0 and `emit()` calls nothing | the other listener stays registered | high (not executed) | EmitoxFindings.OffDropsUnrelatedListener, EmitoxFindings.OffOtherCallbackDropsListener | EmitoxFindings.AfterOffIntended |
| index.ts:149-157 | a callback's `off` copies the captured array, once-listeners not yet reached included, into a new `_lis`. The loop then splices those once-listeners only from the captured array | `on(a)` where `a` calls `off(a)`, then `once(b)`; `emit(); emit()` calls `b` twice | a once-listener is called by one emit only | high (not executed) | EmitoxFindings.OnceListenerSurvivesSelfRemoval, EmitoxFindings.OnceListenerFiresTwice | EmitoxFindings.EmitIntendedKeepsPersistentOutside, EmitoxFindings.WalkIntendedOutside |
