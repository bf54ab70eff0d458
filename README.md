# MarkedModel in Dafny

A model of `MarkedModel<T>`, the selection model behind the table view of
`sample-sel` (`src/app/table/markedmodel.ts`). The model keeps a map from key to
value in insertion order (`_markation`). It also keeps:

- a polarity flag (`_containsSelected`), which `reverse()` flips;
- a single- or multiple-value mode, fixed at construction;
- two pending lists (`_markedToEmit`, `_unmarkededToEmit`), which every public
  call flushes into at most one `{added, removed}` change event;
- a cached array of the map's values (`_marked`).

The project has four modules:

- `OrderedMaps` (`ordered_maps.dfy`) models the JavaScript `Map<string, T>`. It
  is a sequence of keys in insertion order plus a Dafny `map`. `set` keeps the
  position of a key that is already present and appends a new key. `delete`
  removes a key and keeps the order of the rest. `values()` lists the values in
  key order.
- `MarkedState` (`marked_state.dfy`) holds the model's state as a datatype, with
  one function for each member of the class, private helpers included. It also
  defines the invariants `WellFormed` (holds at every point of a call) and
  `Valid` (holds between calls: nothing pending, cache accurate).
- `MarkedProperties` (`marked_properties.dfy`) holds the lemmas about those
  functions.
- `MarkedModels` (`marked_model.dfy`) holds the class `MarkedModel`. Its fields
  are the source's fields. Its methods change them in place, with `forEach`
  written as `while` loops. Each method is proved to change `Abs()` exactly as
  the `MarkedState` function of the same name changes a state.

The model replaces three things in the source:

- `value[this._keyField]` becomes an injected function `keyOf: T -> string`.
- The `onChange` subject becomes `events`, the list of every event it would
  have delivered. `onChange` is created exactly when `emitChanges` is set, so
  the flush logs an event only in that case.
- The thrown error becomes the outcome `Fail(MultipleValuesInSingleSelection)`.
  The call returns it before any change is made.

The model follows the code as written, quirks included:

- With the flag `false`, `isMarked` tests for an absent key. So `mark` stores
  again, and reports as added, every value whose key is already present. It
  ignores values whose key is absent.
- With the flag `false`, `unmark` leaves the map unchanged. It reports as
  removed every value whose key is absent.
- With the flag `false`, `toggle` never changes what `isMarked` answers.
- With the flag `false`, `clear()` never changes the map.
- `_unmarkAll` clears the map without reporting anything. So when single mode
  replaces a value, the event lists the new value as added and nothing as
  removed, and `clear()` never emits an event.

Values that single mode replaces, and values that `clear()` drops, are never
reported as removed: the code has no such path, and the model follows the code.

## Model

| member | source | states |
|---|---|---|
| OrderedMaps.Empty | src/app/table/markedmodel.ts:23 | a new `Map` is consistent and has size 0 |
| OrderedMaps.Set | src/app/table/markedmodel.ts:171 | `set` binds the key to the value and leaves every other binding as it was; the old key order is a prefix of the new one; the size grows by one exactly when the key is new |
| OrderedMaps.Delete | src/app/table/markedmodel.ts:182 | `delete` unbinds the key and leaves every other binding as it was; the size shrinks by one exactly when the key was present; deleting an absent key changes nothing |
| OrderedMaps.DeleteKeepsOrder | src/app/table/markedmodel.ts:182 | deleting a present key cuts it out of the key order at its one position; every other key keeps its place |
| OrderedMaps.Has | src/app/table/markedmodel.ts:109 | in a consistent map, `has(k)` holds exactly when `k` appears in the key order |
| OrderedMaps.SizeIsCardinality | src/app/table/markedmodel.ts:121 | in a consistent map, `size` is the number of bound keys |
| OrderedMaps.Values | src/app/table/markedmodel.ts:38 | `values()` has one value per key, in key insertion order: position `i` holds the value bound to the `i`-th key |
| OrderedMaps.Clear | src/app/table/markedmodel.ts:192 | `clear` leaves a consistent map with no keys |
| OrderedMaps.ValuesOfSetNew | src/app/table/markedmodel.ts:38 | after `set` with a new key, `values()` is the old values with the new value appended |
| MarkedState.IsMarked | src/app/table/markedmodel.ts:107-114 | a value is marked when the presence of its key agrees with the flag: present with the flag `true`, absent with the flag `false` (`ReverseStep` shows `reverse` negates it) |
| MarkedState.IsEmpty | src/app/table/markedmodel.ts:119-125 | in a consistent map, `isEmpty()` holds when the map binds no key with the flag `true`, or binds some key with the flag `false` |
| MarkedState.HasValue | src/app/table/markedmodel.ts:130-136 | `hasValue()` is "the map is non-empty", whatever the flag; with the flag `true` it is the negation of `isEmpty()` |
| MarkedState.Marked | src/app/table/markedmodel.ts:36-44 | the getter returns the flag as `containSelected`, and the map's values in key insertion order as `markedItems` (one per key, each stored under its own key); afterwards the cache holds exactly those values |
| MarkedState.UnmarkAll | src/app/table/markedmodel.ts:190-194 | only the map can change and nothing is queued as removed; with the flag `true` the map ends empty, with the flag `false` the state is unchanged |
| MarkedState.MarkSelected | src/app/table/markedmodel.ts:165-177 | leaves the flag, cache, log and removed list alone; queues at most this one value as added, and only when changes are emitted |
| MarkedState.UnmarkSelected | src/app/table/markedmodel.ts:180-187 | leaves the flag, cache, log and added list alone; queues at most this one value as removed, and only when changes are emitted |
| MarkedState.MarkEach | src/app/table/markedmodel.ts:72 | the `forEach` over `_markSelected` never touches the flag, cache, log or removed list, and queues nothing when changes are not emitted |
| MarkedState.UnmarkEach | src/app/table/markedmodel.ts:81 | the `forEach` over `_unmarkSelected` never touches the flag, cache, log or added list, and queues nothing when changes are not emitted |
| MarkedState.EmitChangeEvent | src/app/table/markedmodel.ts:146-162 | the cache and both pending lists end empty and the map and flag are unchanged; the log grows by the one event `{added, removed}` exactly when changes are emitted and something was pending |
| MarkedState.VerifyValueAssignment | src/app/table/markedmodel.ts:200-204 | the check fails exactly in single mode with more than one value, with the one error `getMultipleValuesInSingleSelectionError` stands for |
| MarkedState.Init | src/app/table/markedmodel.ts:49-65 | a new model has the flag `true`, an empty cache, nothing pending and no event |
| MarkedState.Mark | src/app/table/markedmodel.ts:70-74 | fails exactly in single mode with more than one value, and then changes nothing; on success the cache is reset and the flag kept |
| MarkedState.Unmark | src/app/table/markedmodel.ts:79-83 | fails exactly in single mode with more than one value, and then changes nothing; on success the cache is reset and the flag kept |
| MarkedState.Toggle | src/app/table/markedmodel.ts:88-90 | a value that reads as marked is unmarked, any other is marked, and that one-value call always succeeds; the flag is kept and the cache reset |
| MarkedState.Clear | src/app/table/markedmodel.ts:95-98 | keeps the flag and resets the cache |
| MarkedState.Reverse | src/app/table/markedmodel.ts:100-102 | flips the flag and leaves the map, cache, pending lists and log untouched |
| MarkedProperties.MarkSelectedWellFormed | src/app/table/markedmodel.ts:165-177 | `_markSelected` keeps the invariant: consistent map, values under their own keys, at most one entry in single mode, nothing recorded when changes are off, no empty event |
| MarkedProperties.UnmarkSelectedWellFormed | src/app/table/markedmodel.ts:180-187 | `_unmarkSelected` keeps the same invariant |
| MarkedProperties.MarkEachWellFormed | src/app/table/markedmodel.ts:57 | marking any number of values one by one keeps the invariant, the single-mode bound included |
| MarkedProperties.UnmarkEachWellFormed | src/app/table/markedmodel.ts:81 | unmarking any number of values one by one keeps the invariant |
| MarkedProperties.EmitChangeEventValid | src/app/table/markedmodel.ts:146-162 | after the flush nothing is pending and the cache is empty; the flush logs at most one event, and that event is non-empty |
| MarkedProperties.InitValid | src/app/table/markedmodel.ts:55-64 | the constructor establishes the invariant and reports none of the initial values |
| MarkedProperties.MarkStep | src/app/table/markedmodel.ts:70-74 | `mark` keeps the invariant and logs at most one event; that event's `removed` list is empty |
| MarkedProperties.UnmarkStep | src/app/table/markedmodel.ts:79-83 | `unmark` keeps the invariant and logs at most one event; that event's `added` list is empty |
| MarkedProperties.ToggleStep | src/app/table/markedmodel.ts:88-90 | `toggle` keeps the invariant and logs at most one event |
| MarkedProperties.ClearStep | src/app/table/markedmodel.ts:95-98 | `clear` keeps the invariant and never logs an event; with the flag `true` it empties the map, with the flag `false` it leaves the map unchanged |
| MarkedProperties.ReverseStep | src/app/table/markedmodel.ts:100-125 | `reverse` keeps the invariant, negates `isMarked(v)` for every `v`, negates `isEmpty()`, keeps `hasValue()`, and two calls restore the state |
| MarkedProperties.MarkedStep | src/app/table/markedmodel.ts:36-44 | reading `marked` keeps the invariant, so the filled cache is accurate |
| MarkedProperties.SilentModelNeverEmits | src/app/table/markedmodel.ts:173-185 | with `emitChanges` off, `mark`, `unmark`, `toggle` and `clear` never log an event |
| MarkedProperties.MarkSelectedValues | src/app/table/markedmodel.ts:165-177 | flag `true`, multiple mode: `_markSelected(v)` adds `v`'s key and appends `v` to `values()` exactly when the key was absent; otherwise `values()` is unchanged |
| MarkedProperties.UnmarkSelectedValues | src/app/table/markedmodel.ts:180-187 | flag `true`: `_unmarkSelected(v)` drops from `values()` the value stored under `v`'s key, and every other value keeps its place |
| MarkedProperties.MarkEachAppends | src/app/table/markedmodel.ts:165-177 | flag `true`, multiple mode: marking values one by one adds their keys and appends `NewValues` (the values whose key was new at their turn, in argument order) both to `values()` and, when changes are emitted, to the added queue |
| MarkedProperties.UnmarkEachValues | src/app/table/markedmodel.ts:180-187 | flag `true`: unmarking values one by one keeps the invariant and leaves in `values()` exactly the old values whose key is not among theirs, in their old order |
| MarkedProperties.UnmarkEachQueued | src/app/table/markedmodel.ts:180-187 | flag `true`: unmarking values one by one removes exactly their keys and queues as removed `PresentValues` (the values whose key was present at their turn, in argument order) |
| MarkedProperties.MarkEachSelected | src/app/table/markedmodel.ts:165-177 | flag `true`, multiple mode: marking keeps the invariant, adds exactly the values' keys, makes `values()` the old values followed by `NewValues`, and queues `NewValues` as added |
| MarkedProperties.UnmarkEachSelected | src/app/table/markedmodel.ts:180-187 | flag `true`: unmarking keeps the invariant, removes exactly the values' keys, makes `values()` the old values without those stored under these keys (order kept), and queues `PresentValues` as removed |
| MarkedProperties.MarkNotifiesNewValues | src/app/table/markedmodel.ts:70-74 | flag `true`, multiple mode: after `mark(...values)` every value is marked, and the call logs `{added: NewValues, removed: []}` exactly when that list is non-empty |
| MarkedProperties.UnmarkNotifiesPresentValues | src/app/table/markedmodel.ts:79-83 | flag `true`: after `unmark(...values)` no value is marked, and the call logs `{added: [], removed: PresentValues}` exactly when that list is non-empty |
| MarkedProperties.SingleModeReplaces | src/app/table/markedmodel.ts:165-171 | single mode, flag `true`: marking a new value leaves it as the only entry; the event lists it as added and lists nothing as removed |
| MarkedProperties.MarkMarks | src/app/table/markedmodel.ts:107-114 | flag `true`: after `mark(v)`, `isMarked(v)` holds |
| MarkedProperties.UnmarkUnmarks | src/app/table/markedmodel.ts:180-186 | flag `true`: after `unmark(v)`, `isMarked(v)` does not hold |
| MarkedProperties.RedundantCallsChangeNothing | src/app/table/markedmodel.ts:150 | flag `true`: marking a marked value, or unmarking an unmarked one, changes nothing and logs nothing; only the cache is reset |
| MarkedProperties.ToggleFlips | src/app/table/markedmodel.ts:88-90 | flag `true`: `toggle(v)` flips `isMarked(v)` |
| MarkedProperties.MarkEachInverted | src/app/table/markedmodel.ts:166 | flag `false`: marking keeps the map's keys and their order, and queues as added every value whose key is present, repeats included |
| MarkedProperties.MarkSelectedInverted | src/app/table/markedmodel.ts:165-177 | flag `false`: `_markSelected(v)` re-binds a present key to `v` (no clearing, even in single mode) and leaves the map alone when the key is absent |
| MarkedProperties.MarkEachInvertedStores | src/app/table/markedmodel.ts:166-171 | flag `false`: after marking, every present key named by some value is bound to the last value given for it, and every present key no value names keeps its old binding |
| MarkedProperties.UnmarkEachInverted | src/app/table/markedmodel.ts:181 | flag `false`: unmarking leaves the map unchanged and queues as removed every value whose key is absent |
| MarkedProperties.ToggleInvertedKeepsMarking | src/app/table/markedmodel.ts:89 | flag `false`: `toggle(v)` leaves `isMarked(v)` as it was, yet logs an event when changes are emitted |
| MarkedProperties.InitSingleKeepsFirst | src/app/table/markedmodel.ts:58-60 | single mode: the constructor keeps only the first initial value |
| MarkedProperties.InitMultipleMarksAll | src/app/table/markedmodel.ts:56-57 | multiple mode: the constructor marks the key of every initial value and no other key, and `values()` lists the first value given for each key, in argument order |
| MarkedModels.MarkedModel.constructor | src/app/table/markedmodel.ts:49-65 | the new object satisfies the invariant, its state is `Init` of the arguments, and `isMultipleSelection()` returns the mode |
| MarkedModels.MarkedModel.Marked | src/app/table/markedmodel.ts:36-44 | the getter fills the cache in place and returns what `MarkedState.Marked` returns |
| MarkedModels.MarkedModel.IsMarked | src/app/table/markedmodel.ts:107-114 | reading the fields gives `MarkedState.IsMarked` of the state: marked when the key's presence in the key order agrees with the flag |
| MarkedModels.MarkedModel.IsEmpty | src/app/table/markedmodel.ts:119-125 | reading the fields gives `MarkedState.IsEmpty` of the state: with the flag `true` the key order is empty, with `false` it is not |
| MarkedModels.MarkedModel.HasValue | src/app/table/markedmodel.ts:130-136 | reading the fields gives `MarkedState.HasValue` of the state: the key order is non-empty, whatever the flag |
| MarkedModels.MarkedModel.IsMultipleSelection | src/app/table/markedmodel.ts:141-143 | returns the mode fixed at construction |
| MarkedModels.MarkedModel.Mark | src/app/table/markedmodel.ts:70-74 | changes the fields as `MarkedState.Mark` changes the state, returns its outcome, and keeps the invariant |
| MarkedModels.MarkedModel.Unmark | src/app/table/markedmodel.ts:79-83 | changes the fields as `MarkedState.Unmark` does, returns its outcome, and keeps the invariant |
| MarkedModels.MarkedModel.Toggle | src/app/table/markedmodel.ts:88-90 | changes the fields as `MarkedState.Toggle` does and keeps the invariant |
| MarkedModels.MarkedModel.Clear | src/app/table/markedmodel.ts:95-98 | changes the fields as `MarkedState.Clear` does and keeps the invariant |
| MarkedModels.MarkedModel.Reverse | src/app/table/markedmodel.ts:100-102 | changes only the flag, as `MarkedState.Reverse` does, and keeps the invariant |
| MarkedModels.MarkedModel.MarkEach | src/app/table/markedmodel.ts:72 | the loop over `_markSelected` gives `MarkedState.MarkEach` of the old state and keeps the invariant |
| MarkedModels.MarkedModel.UnmarkEach | src/app/table/markedmodel.ts:81 | the loop over `_unmarkSelected` gives `MarkedState.UnmarkEach` of the old state and keeps the invariant |
| MarkedModels.MarkedModel.EmitChangeEvent | src/app/table/markedmodel.ts:146-162 | the flush changes the fields as `MarkedState.EmitChangeEvent` does and leaves the object valid |
| MarkedModels.MarkedModel.MarkSelected | src/app/table/markedmodel.ts:165-177 | changes the fields as `MarkedState.MarkSelected` does and keeps the invariant |
| MarkedModels.MarkedModel.UnmarkSelected | src/app/table/markedmodel.ts:180-187 | changes the fields as `MarkedState.UnmarkSelected` does and keeps the invariant |
| MarkedModels.MarkedModel.UnmarkAll | src/app/table/markedmodel.ts:190-194 | changes only the map, as `MarkedState.UnmarkAll` does |

## Left out

- `src/app/table/table-datasource.ts` is not part of this model. It is an HTTP fetch wired to a paginator and a sort widget; its only computation is a query-string concatenation.
- `src/app/table/table.component.ts` is not part of this model. It holds Angular component wiring and a console log.
- The rxjs `Subject` is not modelled: no subscription and no delivery. An event is an entry appended to `events`, without its `source` field.
- The text of the error built by `getMultipleValuesInSingleSelectionError` is not modelled, only the fact that `mark`/`unmark` fail.
- Key derivation by dynamic property lookup (`value[keyField]`) becomes an injected total function `keyOf`. In the source, a `null` or `undefined` value makes that lookup throw inside the `forEach` (lines 72 and 81), leaving the earlier values applied to the map and their pending entries unflushed; that partial-failure path is not modelled. The constructor's default arguments (`false`, none, `true`, `'id'`) are not modelled; callers pass every argument.
- Re-entrant calls are not modelled. The flush hands the event to subscribers (`onChange.next`, line 152) before it empties the pending lists (lines 159-160). A subscriber that calls back into the model during delivery would flush the same pending values again. The model delivers nothing, so subscriber code is outside it.
- Aliasing is not captured: the source returns its cached array and passes its pending arrays inside events. The model works on values, so a caller that mutates those arrays is outside it.
- Event contents are stated exactly with the flag `true` (in multiple mode, and for a single value in single mode) and with the flag `false` at the level of the loops (`MarkEachInverted`, `UnmarkEachInverted`). No separate lemma restates the flag-`false` results for the whole `mark`/`unmark` calls.
