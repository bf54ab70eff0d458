/**
 * The state of a `MarkedModel<T>` as a value, and every member of the class as
 * a function from state to state.  These functions are the specification the
 * class in module MarkedModels is proved against, and the subject of the
 * lemmas in module MarkedProperties.
 *
 * The `onChange` subject is replaced by `events`, the log of every change
 * event emitted so far; the thrown error by the `Fail` outcome; and the
 * property lookup `value[keyField]` by the injected function `keyOf`.
 */
module MarkedState {
  import opened OrderedMaps

  datatype Option<T> = None | Some(value: T)

  /** The one error the model raises: several values in single-value mode. */
  datatype Error = MultipleValuesInSingleSelection

  datatype Outcome = Ok | Fail(error: Error)

  /** One `MarkationChange` event, without its `source` field. */
  datatype Change<T> = Change(added: seq<T>, removed: seq<T>)

  /** What the `marked` getter returns. */
  datatype MarkedItems<T> = MarkedItems(containSelected: bool, markedItems: seq<T>)

  /** The constructor parameters, fixed for the life of a model. */
  datatype Config<!T> = Config(multiple: bool, emitChanges: bool, keyOf: T -> string)

  datatype State<T> = State(
    markation: OrderedMap<T>,      // `_markation`
    containsSelected: bool,        // `_containsSelected`
    unmarkedToEmit: seq<T>,        // `_unmarkededToEmit`
    markedToEmit: seq<T>,          // `_markedToEmit`
    marked: Option<seq<T>>,        // `_marked`, the cached array view
    events: seq<Change<T>>)        // every event passed to `onChange.next`

  predicate NonEmpty<T>(c: Change<T>)
  {
    c.added != [] || c.removed != []
  }

  /**
   * What holds at every point of every call: the map is well formed, each
   * value is stored under its own key, single-value mode holds at most one
   * entry, a model that does not emit changes records none, and no event
   * logged so far is empty.
   */
  ghost predicate WellFormed<T>(cfg: Config<T>, s: State<T>)
  {
    && OrderedMaps.Consistent(s.markation)
    && (forall k :: k in s.markation.entries ==> cfg.keyOf(s.markation.entries[k]) == k)
    && (!cfg.multiple ==> Size(s.markation) <= 1)
    && (!cfg.emitChanges ==> s.markedToEmit == [] && s.unmarkedToEmit == [] && s.events == [])
    && (forall i :: 0 <= i < |s.events| ==> NonEmpty(s.events[i]))
  }

  /**
   * What holds between public calls as well: nothing is pending, and a
   * filled cache is exactly the map's values in insertion order.
   */
  ghost predicate Valid<T>(cfg: Config<T>, s: State<T>)
  {
    && WellFormed(cfg, s)
    && s.markedToEmit == [] && s.unmarkedToEmit == []
    && (s.marked.Some? ==> s.marked.value == Values(s.markation))
  }

  // ---------------------------------------------------------------------
  // Queries

  /**
   * `isMarked(value)`: raw membership of the value's key, read through the
   * polarity flag: with the flag `true` the map lists the marked values, with
   * `false` the unmarked ones.
   */
  function IsMarked<T>(cfg: Config<T>, s: State<T>, value: T): (r: bool)
    ensures r <==> (cfg.keyOf(value) in KeySet(s.markation) <==> s.containsSelected)
  {
    if s.containsSelected then Has(s.markation, cfg.keyOf(value))
    else !Has(s.markation, cfg.keyOf(value))
  }

  /**
   * `isEmpty()`: with the flag `true`, whether the map binds no key; with
   * `false`, whether it binds some key.
   */
  function IsEmpty<T>(s: State<T>): (r: bool)
    ensures OrderedMaps.Consistent(s.markation) ==> (r <==> (KeySet(s.markation) == {} <==> s.containsSelected))
  {
    EmptyOrderIsEmptyMap(s.markation);
    if s.containsSelected then Size(s.markation) == 0 else Size(s.markation) != 0
  }

  /** `hasValue()`: whatever the flag, whether the map holds an entry. */
  function HasValue<T>(s: State<T>): (r: bool)
    ensures r <==> Size(s.markation) != 0
    ensures s.containsSelected ==> r == !IsEmpty(s)
  {
    if s.containsSelected then !IsEmpty(s) else IsEmpty(s)
  }

  /**
   * The `marked` getter: fills the cache when it is empty and returns the
   * flag with the map's values in key insertion order.
   */
  function Marked<T>(cfg: Config<T>, s: State<T>): (r: (MarkedItems<T>, State<T>))
    requires Valid(cfg, s)
    ensures r.0.containSelected == s.containsSelected
    ensures r.0.markedItems == Values(s.markation)
    ensures |r.0.markedItems| == Size(s.markation)
    ensures forall i :: 0 <= i < |r.0.markedItems| ==> cfg.keyOf(r.0.markedItems[i]) == s.markation.keys[i]
    ensures r.1 == s.(marked := Some(Values(s.markation)))
  {
    var items := if s.marked.Some? then s.marked.value else Values(s.markation);
    (MarkedItems(s.containsSelected, items), s.(marked := Some(items)))
  }

  // ---------------------------------------------------------------------
  // Private helpers

  /**
   * `_unmarkAll()`: empties the map unless `isEmpty()` holds, which with the
   * flag `false` means the map is only ever "cleared" when it is already
   * empty.  It never records a removed value.
   */
  function UnmarkAll<T>(s: State<T>): (r: State<T>)
    ensures r == s.(markation := r.markation)
    ensures s.containsSelected && OrderedMaps.Consistent(s.markation) ==> Size(r.markation) == 0 && KeySet(r.markation) == {}
    ensures !s.containsSelected && OrderedMaps.Consistent(s.markation) ==> r == s
  {
    if !IsEmpty(s) then s.(markation := OrderedMaps.Clear(s.markation)) else s
  }

  /**
   * `_markSelected(value)`: when the value does not read as marked, single
   * mode first clears the map, then the value is stored under its key and,
   * when changes are emitted, queued as added.
   */
  function MarkSelected<T>(cfg: Config<T>, s: State<T>, value: T): (r: State<T>)
    ensures r.containsSelected == s.containsSelected && r.events == s.events && r.marked == s.marked
    ensures r.unmarkedToEmit == s.unmarkedToEmit
    ensures r.markedToEmit == s.markedToEmit || (cfg.emitChanges && r.markedToEmit == s.markedToEmit + [value])
  {
    if !IsMarked(cfg, s, value) then
      var cleared := if !cfg.multiple then UnmarkAll(s) else s;
      var stored := cleared.(markation := Set(cleared.markation, cfg.keyOf(value), value));
      if cfg.emitChanges then stored.(markedToEmit := stored.markedToEmit + [value]) else stored
    else
      s
  }

  /**
   * `_unmarkSelected(value)`: when the value reads as marked, its key is
   * deleted and, when changes are emitted, the value is queued as removed.
   */
  function UnmarkSelected<T>(cfg: Config<T>, s: State<T>, value: T): (r: State<T>)
    ensures r.containsSelected == s.containsSelected && r.events == s.events && r.marked == s.marked
    ensures r.markedToEmit == s.markedToEmit
    ensures r.unmarkedToEmit == s.unmarkedToEmit || (cfg.emitChanges && r.unmarkedToEmit == s.unmarkedToEmit + [value])
  {
    if IsMarked(cfg, s, value) then
      var deleted := s.(markation := Delete(s.markation, cfg.keyOf(value)));
      if cfg.emitChanges then deleted.(unmarkedToEmit := deleted.unmarkedToEmit + [value]) else deleted
    else
      s
  }

  /** `values.forEach(value => this._markSelected(value))` */
  function MarkEach<T>(cfg: Config<T>, s: State<T>, values: seq<T>): (r: State<T>)
    ensures r.containsSelected == s.containsSelected && r.events == s.events && r.marked == s.marked
    ensures r.unmarkedToEmit == s.unmarkedToEmit
    ensures !cfg.emitChanges ==> r.markedToEmit == s.markedToEmit
  {
    if values == [] then s
    else MarkSelected(cfg, MarkEach(cfg, s, values[..|values| - 1]), values[|values| - 1])
  }

  /** `values.forEach(value => this._unmarkSelected(value))` */
  function UnmarkEach<T>(cfg: Config<T>, s: State<T>, values: seq<T>): (r: State<T>)
    ensures r.containsSelected == s.containsSelected && r.events == s.events && r.marked == s.marked
    ensures r.markedToEmit == s.markedToEmit
    ensures !cfg.emitChanges ==> r.unmarkedToEmit == s.unmarkedToEmit
  {
    if values == [] then s
    else UnmarkSelected(cfg, UnmarkEach(cfg, s, values[..|values| - 1]), values[|values| - 1])
  }

  /**
   * `_emitChangeEvent()`: drops the cache and, when something is pending,
   * logs one event holding both pending lists (`onChange` exists exactly
   * when changes are emitted) and empties them.
   */
  function EmitChangeEvent<T>(cfg: Config<T>, s: State<T>): (r: State<T>)
    ensures r.marked == None && r.unmarkedToEmit == [] && r.markedToEmit == []
    ensures r.markation == s.markation && r.containsSelected == s.containsSelected
    ensures r.events == s.events || r.events == s.events + [Change(s.markedToEmit, s.unmarkedToEmit)]
    ensures r.events != s.events <==> cfg.emitChanges && (s.markedToEmit != [] || s.unmarkedToEmit != [])
  {
    var s1 := s.(marked := None);
    if |s1.markedToEmit| > 0 || |s1.unmarkedToEmit| > 0 then
      var logged := if cfg.emitChanges then s1.events + [Change(s1.markedToEmit, s1.unmarkedToEmit)] else s1.events;
      s1.(events := logged, unmarkedToEmit := [], markedToEmit := [])
    else
      s1
  }

  /**
   * `_verifyValueAssignment(values)` and `getMultipleValuesInSingleSelectionError()`:
   * single-value mode refuses more than one value, and nothing else is refused.
   */
  function VerifyValueAssignment<T>(cfg: Config<T>, values: seq<T>): (r: Outcome)
    ensures r.Fail? <==> !cfg.multiple && |values| > 1
    ensures r.Fail? ==> r.error == MultipleValuesInSingleSelection
  {
    if |values| > 1 && !cfg.multiple then Fail(MultipleValuesInSingleSelection) else Ok
  }

  // ---------------------------------------------------------------------
  // Public operations

  /**
   * The constructor: starts with an empty map and the flag `true`, marks
   * every initial value (only the first in single mode) and discards the
   * added values so that none of them is ever reported.
   */
  function Init<T>(cfg: Config<T>, initiallyMarkedValues: seq<T>): (r: State<T>)
    ensures r.containsSelected && r.marked == None && r.events == []
    ensures r.markedToEmit == [] && r.unmarkedToEmit == []
  {
    var s0 := State(Empty(), true, [], [], None, []);
    if |initiallyMarkedValues| > 0 then
      var s1 := if cfg.multiple then MarkEach(cfg, s0, initiallyMarkedValues)
                else MarkSelected(cfg, s0, initiallyMarkedValues[0]);
      s1.(markedToEmit := [])
    else
      s0
  }

  /** `mark(...values)`: fails before any change when single mode gets several values. */
  function Mark<T>(cfg: Config<T>, s: State<T>, values: seq<T>): (r: (Outcome, State<T>))
    ensures r.0.Fail? <==> !cfg.multiple && |values| > 1
    ensures r.0.Fail? ==> r.1 == s
    ensures r.0.Ok? ==> r.1.marked == None && r.1.containsSelected == s.containsSelected
  {
    var check := VerifyValueAssignment(cfg, values);
    if check.Fail? then (check, s)
    else (Ok, EmitChangeEvent(cfg, MarkEach(cfg, s, values)))
  }

  /** `unmark(...values)`: fails before any change when single mode gets several values. */
  function Unmark<T>(cfg: Config<T>, s: State<T>, values: seq<T>): (r: (Outcome, State<T>))
    ensures r.0.Fail? <==> !cfg.multiple && |values| > 1
    ensures r.0.Fail? ==> r.1 == s
    ensures r.0.Ok? ==> r.1.marked == None && r.1.containsSelected == s.containsSelected
  {
    var check := VerifyValueAssignment(cfg, values);
    if check.Fail? then (check, s)
    else (Ok, EmitChangeEvent(cfg, UnmarkEach(cfg, s, values)))
  }

  /**
   * `toggle(value)`: unmarks a value that reads as marked, marks any other.
   * The one-value call it makes never fails the single-mode check, so toggle
   * always ends with a flush: the cache is dropped and the flag kept.
   */
  function Toggle<T>(cfg: Config<T>, s: State<T>, value: T): (r: State<T>)
    ensures IsMarked(cfg, s, value) ==> Unmark(cfg, s, [value]) == (Ok, r)
    ensures !IsMarked(cfg, s, value) ==> Mark(cfg, s, [value]) == (Ok, r)
    ensures r.containsSelected == s.containsSelected && r.marked == None
  {
    if IsMarked(cfg, s, value) then Unmark(cfg, s, [value]).1 else Mark(cfg, s, [value]).1
  }

  /** `clear()` */
  function Clear<T>(cfg: Config<T>, s: State<T>): (r: State<T>)
    ensures r.containsSelected == s.containsSelected && r.marked == None
  {
    EmitChangeEvent(cfg, UnmarkAll(s))
  }

  /** `reverse()`: flips the polarity flag and touches nothing else. */
  function Reverse<T>(s: State<T>): (r: State<T>)
    ensures r.containsSelected == !s.containsSelected
    ensures r.markation == s.markation && r.marked == s.marked && r.events == s.events
    ensures r.markedToEmit == s.markedToEmit && r.unmarkedToEmit == s.unmarkedToEmit
  {
    s.(containsSelected := !s.containsSelected)
  }
}
