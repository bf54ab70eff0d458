/**
 * `MarkedModel<T>`: the selection model as an object whose methods update its
 * fields in place.  Each field stands for the private field of the same name;
 * `events` stands for the `onChange` subject and collects the events it would
 * have delivered.  Every method is proved to do to `Abs()` what the function of
 * the same name in module MarkedState does to a state, so the lemmas of module
 * MarkedProperties apply to the object.
 */
module MarkedModels {
  import opened OrderedMaps
  import opened MarkedState
  import MarkedProperties

  class MarkedModel<T> {
    var markation: OrderedMap<T>
    var containsSelected: bool
    var unmarkedToEmit: seq<T>
    var markedToEmit: seq<T>
    var markedCache: Option<seq<T>>
    var events: seq<Change<T>>

    const multiple: bool
    const emitChanges: bool
    const keyOf: T -> string

    function Cfg(): Config<T>
    {
      Config(multiple, emitChanges, keyOf)
    }

    function Abs(): State<T>
      reads this
    {
      State(markation, containsSelected, unmarkedToEmit, markedToEmit, markedCache, events)
    }

    ghost predicate Valid()
      reads this
    {
      MarkedState.Valid(Cfg(), Abs())
    }

    ghost predicate WellFormed()
      reads this
    {
      MarkedState.WellFormed(Cfg(), Abs())
    }

    /**
     * `new MarkedModel(multiple, initiallyMarkedValues, emitChanges, keyField)`;
     * an absent `initiallyMarkedValues` is the empty sequence.
     */
    constructor(multiple: bool, initiallyMarkedValues: seq<T>, emitChanges: bool, keyOf: T -> string)
      ensures Cfg() == Config(multiple, emitChanges, keyOf)
      ensures Valid()
      ensures Abs() == Init(Cfg(), initiallyMarkedValues)
      ensures events == [] && IsMultipleSelection() == multiple
    {
      this.multiple := multiple;
      this.emitChanges := emitChanges;
      this.keyOf := keyOf;
      markation := Empty();
      containsSelected := true;
      unmarkedToEmit := [];
      markedToEmit := [];
      markedCache := None;
      events := [];
      new;
      MarkedProperties.InitValid(Cfg(), initiallyMarkedValues);
      if |initiallyMarkedValues| > 0 {
        if multiple {
          MarkEach(initiallyMarkedValues);
        } else {
          MarkSelected(initiallyMarkedValues[0]);
        }
        markedToEmit := [];
      }
    }

    // -------------------------------------------------------------------
    // Queries

    /** The `marked` getter: fills the cache if it is empty. */
    method Marked() returns (r: MarkedItems<T>)
      requires Valid()
      modifies this`markedCache
      ensures Valid()
      ensures (r, Abs()) == MarkedState.Marked(Cfg(), old(Abs()))
    {
      if markedCache.None? {
        markedCache := Some(Values(markation));
      }
      r := MarkedItems(containsSelected, markedCache.value);
    }

    /** `isMarked(value)` */
    function IsMarked(value: T): (r: bool)
      reads this
      ensures r == MarkedState.IsMarked(Cfg(), Abs(), value)
      ensures WellFormed() ==> (r <==> (keyOf(value) in markation.keys <==> containsSelected))
    {
      if containsSelected then Has(markation, keyOf(value)) else !Has(markation, keyOf(value))
    }

    /** `isEmpty()` */
    function IsEmpty(): (r: bool)
      reads this
      ensures r == MarkedState.IsEmpty(Abs())
      ensures WellFormed() ==> (r <==> (markation.keys == [] <==> containsSelected))
    {
      if containsSelected then Size(markation) == 0 else Size(markation) != 0
    }

    /** `hasValue()`: whatever the flag, whether the map holds an entry. */
    function HasValue(): (r: bool)
      reads this
      ensures r == MarkedState.HasValue(Abs())
      ensures r <==> markation.keys != []
    {
      if containsSelected then !IsEmpty() else IsEmpty()
    }

    /** `isMultipleSelection()` */
    function IsMultipleSelection(): (r: bool)
      ensures r == Cfg().multiple
    {
      multiple
    }

    // -------------------------------------------------------------------
    // Public operations

    method Mark(values: seq<T>) returns (r: Outcome)
      requires Valid()
      modifies this
      ensures Valid()
      ensures (r, Abs()) == MarkedState.Mark(Cfg(), old(Abs()), values)
    {
      MarkedProperties.MarkStep(Cfg(), Abs(), values);
      r := VerifyValueAssignment(Cfg(), values);
      if r.Fail? {
        return;
      }
      MarkEach(values);
      EmitChangeEvent();
    }

    method Unmark(values: seq<T>) returns (r: Outcome)
      requires Valid()
      modifies this
      ensures Valid()
      ensures (r, Abs()) == MarkedState.Unmark(Cfg(), old(Abs()), values)
    {
      MarkedProperties.UnmarkStep(Cfg(), Abs(), values);
      r := VerifyValueAssignment(Cfg(), values);
      if r.Fail? {
        return;
      }
      UnmarkEach(values);
      EmitChangeEvent();
    }

    /** `toggle(value)`: one value never fails the single-mode check. */
    method Toggle(value: T)
      requires Valid()
      modifies this
      ensures Valid()
      ensures Abs() == MarkedState.Toggle(Cfg(), old(Abs()), value)
    {
      var outcome;
      if IsMarked(value) {
        outcome := Unmark([value]);
      } else {
        outcome := Mark([value]);
      }
    }

    method Clear()
      requires Valid()
      modifies this
      ensures Valid()
      ensures Abs() == MarkedState.Clear(Cfg(), old(Abs()))
    {
      MarkedProperties.ClearStep(Cfg(), Abs());
      UnmarkAll();
      EmitChangeEvent();
    }

    method Reverse()
      requires Valid()
      modifies this`containsSelected
      ensures Valid()
      ensures Abs() == MarkedState.Reverse(old(Abs()))
    {
      MarkedProperties.ReverseStep(Cfg(), Abs());
      containsSelected := !containsSelected;
    }

    // -------------------------------------------------------------------
    // Private helpers

    /** The `forEach` over `_markSelected` in the constructor and in `mark`. */
    method MarkEach(values: seq<T>)
      requires WellFormed()
      modifies this
      ensures WellFormed()
      ensures Abs() == MarkedState.MarkEach(Cfg(), old(Abs()), values)
    {
      var i := 0;
      while i < |values|
        invariant 0 <= i <= |values|
        invariant WellFormed()
        invariant Abs() == MarkedState.MarkEach(Cfg(), old(Abs()), values[..i])
      {
        assert values[..i + 1][..i] == values[..i];
        MarkSelected(values[i]);
        i := i + 1;
      }
      assert values[..i] == values;
    }

    /** The `forEach` over `_unmarkSelected` in `unmark`. */
    method UnmarkEach(values: seq<T>)
      requires WellFormed()
      modifies this
      ensures WellFormed()
      ensures Abs() == MarkedState.UnmarkEach(Cfg(), old(Abs()), values)
    {
      var i := 0;
      while i < |values|
        invariant 0 <= i <= |values|
        invariant WellFormed()
        invariant Abs() == MarkedState.UnmarkEach(Cfg(), old(Abs()), values[..i])
      {
        assert values[..i + 1][..i] == values[..i];
        UnmarkSelected(values[i]);
        i := i + 1;
      }
      assert values[..i] == values;
    }

    method EmitChangeEvent()
      requires WellFormed()
      modifies this
      ensures Valid()
      ensures Abs() == MarkedState.EmitChangeEvent(Cfg(), old(Abs()))
    {
      MarkedProperties.EmitChangeEventValid(Cfg(), Abs());
      markedCache := None;
      if |markedToEmit| > 0 || |unmarkedToEmit| > 0 {
        if emitChanges {
          events := events + [Change(markedToEmit, unmarkedToEmit)];
        }
        unmarkedToEmit := [];
        markedToEmit := [];
      }
    }

    method MarkSelected(value: T)
      requires WellFormed()
      modifies this
      ensures WellFormed()
      ensures Abs() == MarkedState.MarkSelected(Cfg(), old(Abs()), value)
    {
      MarkedProperties.MarkSelectedWellFormed(Cfg(), Abs(), value);
      if !IsMarked(value) {
        if !multiple {
          UnmarkAll();
        }
        markation := Set(markation, keyOf(value), value);
        if emitChanges {
          markedToEmit := markedToEmit + [value];
        }
      }
    }

    method UnmarkSelected(value: T)
      requires WellFormed()
      modifies this
      ensures WellFormed()
      ensures Abs() == MarkedState.UnmarkSelected(Cfg(), old(Abs()), value)
    {
      MarkedProperties.UnmarkSelectedWellFormed(Cfg(), Abs(), value);
      if IsMarked(value) {
        markation := Delete(markation, keyOf(value));
        if emitChanges {
          unmarkedToEmit := unmarkedToEmit + [value];
        }
      }
    }

    method UnmarkAll()
      modifies this`markation
      ensures Abs() == MarkedState.UnmarkAll(old(Abs()))
    {
      if !IsEmpty() {
        markation := OrderedMaps.Clear(markation);
      }
    }
  }
}
