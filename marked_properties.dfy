/**
 * What the marking model promises, proved about the state functions of
 * module MarkedState: the invariants every public call keeps, the contents
 * of the one event a call may emit, and what the polarity flag does to
 * `mark`, `unmark`, `toggle` and `clear`.
 */
module MarkedProperties {
  import opened OrderedMaps
  import opened MarkedState

  // ---------------------------------------------------------------------
  // Reference definitions

  /** The keys of `values`. */
  function KeysOf<T>(keyOf: T -> string, values: seq<T>): set<string>
  {
    set i | 0 <= i < |values| :: keyOf(values[i])
  }

  /**
   * The values, in argument order, whose key is neither in `known` nor the
   * key of an earlier value: what marking `values` one by one adds to a map
   * whose keys are `known`.
   */
  function NewValues<T>(keyOf: T -> string, known: set<string>, values: seq<T>): seq<T>
    decreases |values|
  {
    if values == [] then []
    else if keyOf(values[0]) in known then NewValues(keyOf, known, values[1..])
    else [values[0]] + NewValues(keyOf, known + {keyOf(values[0])}, values[1..])
  }

  /**
   * The values, in argument order, whose key is in `present` and is not the
   * key of an earlier value: what unmarking `values` one by one removes from
   * a map whose keys are `present`.
   */
  function PresentValues<T>(keyOf: T -> string, present: set<string>, values: seq<T>): seq<T>
    decreases |values|
  {
    if values == [] then []
    else if keyOf(values[0]) in present then [values[0]] + PresentValues(keyOf, present - {keyOf(values[0])}, values[1..])
    else PresentValues(keyOf, present, values[1..])
  }

  /** The values, in argument order, whose key is (`inside`) or is not in `keys`. */
  function Filter<T>(keyOf: T -> string, keys: set<string>, inside: bool, values: seq<T>): seq<T>
    decreases |values|
  {
    if values == [] then []
    else if (keyOf(values[0]) in keys) == inside then [values[0]] + Filter(keyOf, keys, inside, values[1..])
    else Filter(keyOf, keys, inside, values[1..])
  }

  /** A call logged no event, or exactly one more. */
  ghost predicate LogsAtMostOne<T>(before: seq<Change<T>>, after: seq<Change<T>>)
  {
    after == before || (|after| == |before| + 1 && after[..|before|] == before)
  }

  // ---------------------------------------------------------------------
  // Facts about the reference definitions

  lemma KeysOfSnoc<T>(keyOf: T -> string, values: seq<T>, v: T)
    ensures KeysOf(keyOf, values + [v]) == KeysOf(keyOf, values) + {keyOf(v)}
  {
    var vs := values + [v];
    assert keyOf(vs[|values|]) == keyOf(v);
    forall k | k in KeysOf(keyOf, values) ensures k in KeysOf(keyOf, vs) {
      var i :| 0 <= i < |values| && keyOf(values[i]) == k;
      assert vs[i] == values[i];
    }
  }

  lemma KeysOfCons<T>(keyOf: T -> string, values: seq<T>)
    requires values != []
    ensures KeysOf(keyOf, values) == {keyOf(values[0])} + KeysOf(keyOf, values[1..])
  {
  }

  lemma {:induction false} NewValuesSnoc<T>(keyOf: T -> string, known: set<string>, values: seq<T>, v: T)
    ensures NewValues(keyOf, known, values + [v])
         == NewValues(keyOf, known, values) + (if keyOf(v) in known + KeysOf(keyOf, values) then [] else [v])
    decreases |values|
  {
    if values == [] {
      assert KeysOf(keyOf, values) == {};
      assert values + [v] == [v];
    } else {
      var a := values[0];
      assert (values + [v])[0] == a && (values + [v])[1..] == values[1..] + [v];
      KeysOfCons(keyOf, values);
      if keyOf(a) in known {
        NewValuesSnoc(keyOf, known, values[1..], v);
      } else {
        NewValuesSnoc(keyOf, known + {keyOf(a)}, values[1..], v);
      }
    }
  }

  lemma {:induction false} PresentValuesSnoc<T>(keyOf: T -> string, present: set<string>, values: seq<T>, v: T)
    ensures PresentValues(keyOf, present, values + [v])
         == PresentValues(keyOf, present, values) + (if keyOf(v) in present - KeysOf(keyOf, values) then [v] else [])
    decreases |values|
  {
    if values == [] {
      assert KeysOf(keyOf, values) == {};
      assert values + [v] == [v];
    } else {
      var a := values[0];
      assert (values + [v])[0] == a && (values + [v])[1..] == values[1..] + [v];
      KeysOfCons(keyOf, values);
      if keyOf(a) in present {
        PresentValuesSnoc(keyOf, present - {keyOf(a)}, values[1..], v);
      } else {
        PresentValuesSnoc(keyOf, present, values[1..], v);
      }
    }
  }

  lemma {:induction false} FilterSnoc<T>(keyOf: T -> string, keys: set<string>, inside: bool, values: seq<T>, v: T)
    ensures Filter(keyOf, keys, inside, values + [v])
         == Filter(keyOf, keys, inside, values) + (if (keyOf(v) in keys) == inside then [v] else [])
    decreases |values|
  {
    if values == [] {
      assert values + [v] == [v];
    } else {
      assert (values + [v])[0] == values[0] && (values + [v])[1..] == values[1..] + [v];
      FilterSnoc(keyOf, keys, inside, values[1..], v);
    }
  }

  lemma {:induction false} FilterNothing<T>(keyOf: T -> string, values: seq<T>)
    ensures Filter(keyOf, {}, false, values) == values
    decreases |values|
  {
    if values != [] {
      FilterNothing(keyOf, values[1..]);
    }
  }

  /** Filtering out `a`, then `b`, filters out `a + b`. */
  lemma {:induction false} FilterTwice<T>(keyOf: T -> string, a: set<string>, b: set<string>, values: seq<T>)
    ensures Filter(keyOf, b, false, Filter(keyOf, a, false, values)) == Filter(keyOf, a + b, false, values)
    decreases |values|
  {
    if values != [] {
      FilterTwice(keyOf, a, b, values[1..]);
      var rest := Filter(keyOf, a, false, values[1..]);
      if keyOf(values[0]) !in a {
        assert Filter(keyOf, a, false, values) == [values[0]] + rest;
        assert ([values[0]] + rest)[1..] == rest;
      }
    }
  }

  /**
   * When every key of `ks` stores a value under its own key, looking up `ks`
   * with `k` taken out drops exactly the values whose key is `k`.
   */
  lemma {:induction false} LookupWithout<T>(keyOf: T -> string, ks: seq<string>, entries: map<string, T>, k: string)
    requires forall x :: x in ks ==> x in entries && keyOf(entries[x]) == x
    ensures Lookup(Without(ks, k), entries) == Filter(keyOf, {k}, false, Lookup(ks, entries))
    decreases |ks|
  {
    if ks != [] {
      LookupWithout(keyOf, ks[1..], entries, k);
      var rest := Lookup(ks[1..], entries);
      assert Lookup(ks, entries) == [entries[ks[0]]] + rest;
      assert ([entries[ks[0]]] + rest)[1..] == rest;
      if ks[0] != k {
        assert Without(ks, k) == [ks[0]] + Without(ks[1..], k);
        assert ([ks[0]] + Without(ks[1..], k))[1..] == Without(ks[1..], k);
      }
    }
  }

  /** A one-value call runs the helper once. */
  lemma EachOfOne<T>(cfg: Config<T>, s: State<T>, value: T)
    ensures MarkEach(cfg, s, [value]) == MarkSelected(cfg, s, value)
    ensures UnmarkEach(cfg, s, [value]) == UnmarkSelected(cfg, s, value)
  {
  }

  // ---------------------------------------------------------------------
  // The invariant, helper by helper

  lemma MarkSelectedWellFormed<T>(cfg: Config<T>, s: State<T>, value: T)
    requires WellFormed(cfg, s)
    ensures WellFormed(cfg, MarkSelected(cfg, s, value))
  {
  }

  lemma UnmarkSelectedWellFormed<T>(cfg: Config<T>, s: State<T>, value: T)
    requires WellFormed(cfg, s)
    ensures WellFormed(cfg, UnmarkSelected(cfg, s, value))
  {
  }

  /** In multiple mode with the flag `true`, `_markSelected(value)` appends a value whose key is new to `values()`. */
  lemma MarkSelectedValues<T>(cfg: Config<T>, s: State<T>, value: T)
    requires Consistent(s.markation) && s.containsSelected && cfg.multiple
    ensures Consistent(MarkSelected(cfg, s, value).markation)
    ensures Values(MarkSelected(cfg, s, value).markation)
         == Values(s.markation) + (if Has(s.markation, cfg.keyOf(value)) then [] else [value])
    ensures KeySet(MarkSelected(cfg, s, value).markation) == KeySet(s.markation) + {cfg.keyOf(value)}
  {
    if !Has(s.markation, cfg.keyOf(value)) {
      ValuesOfSetNew(s.markation, cfg.keyOf(value), value);
    }
  }

  /** With the flag `true`, `_unmarkSelected(value)` drops the value stored under its key from `values()`. */
  lemma UnmarkSelectedValues<T>(cfg: Config<T>, s: State<T>, value: T)
    requires WellFormed(cfg, s) && s.containsSelected
    ensures Values(UnmarkSelected(cfg, s, value).markation)
         == Filter(cfg.keyOf, {cfg.keyOf(value)}, false, Values(s.markation))
  {
    LookupWithout(cfg.keyOf, s.markation.keys, s.markation.entries, cfg.keyOf(value));
  }

  /** Marking values one by one keeps the invariant, single-mode bound included. */
  lemma {:induction false} MarkEachWellFormed<T>(cfg: Config<T>, s: State<T>, values: seq<T>)
    requires WellFormed(cfg, s)
    ensures WellFormed(cfg, MarkEach(cfg, s, values))
    decreases |values|
  {
    if values != [] {
      MarkEachWellFormed(cfg, s, values[..|values| - 1]);
      MarkSelectedWellFormed(cfg, MarkEach(cfg, s, values[..|values| - 1]), values[|values| - 1]);
    }
  }

  lemma {:induction false} UnmarkEachWellFormed<T>(cfg: Config<T>, s: State<T>, values: seq<T>)
    requires WellFormed(cfg, s)
    ensures WellFormed(cfg, UnmarkEach(cfg, s, values))
    decreases |values|
  {
    if values != [] {
      UnmarkEachWellFormed(cfg, s, values[..|values| - 1]);
      UnmarkSelectedWellFormed(cfg, UnmarkEach(cfg, s, values[..|values| - 1]), values[|values| - 1]);
    }
  }

  /** The flush leaves nothing pending, an empty cache, and no empty event. */
  lemma EmitChangeEventValid<T>(cfg: Config<T>, s: State<T>)
    requires WellFormed(cfg, s)
    ensures Valid(cfg, EmitChangeEvent(cfg, s))
    ensures LogsAtMostOne(s.events, EmitChangeEvent(cfg, s).events)
  {
  }

  // ---------------------------------------------------------------------
  // The invariant, call by call

  /** The constructor establishes the invariant and has reported nothing. */
  lemma InitValid<T>(cfg: Config<T>, initiallyMarkedValues: seq<T>)
    ensures Valid(cfg, Init(cfg, initiallyMarkedValues))
    ensures Init(cfg, initiallyMarkedValues).events == []
  {
    var s0 := State(Empty(), true, [], [], None, []);
    assert WellFormed(cfg, s0);
    if |initiallyMarkedValues| > 0 {
      MarkEachWellFormed(cfg, s0, initiallyMarkedValues);
      MarkSelectedWellFormed(cfg, s0, initiallyMarkedValues[0]);
    }
  }

  /**
   * `mark` keeps the invariant and logs at most one event, whose `removed`
   * list is empty: values dropped by single-mode replacement are not reported.
   */
  lemma MarkStep<T>(cfg: Config<T>, s: State<T>, values: seq<T>)
    requires Valid(cfg, s)
    ensures Valid(cfg, Mark(cfg, s, values).1)
    ensures LogsAtMostOne(s.events, Mark(cfg, s, values).1.events)
    ensures forall i :: |s.events| <= i < |Mark(cfg, s, values).1.events| ==>
              Mark(cfg, s, values).1.events[i].removed == []
  {
    if Mark(cfg, s, values).0.Ok? {
      MarkEachWellFormed(cfg, s, values);
      EmitChangeEventValid(cfg, MarkEach(cfg, s, values));
    }
  }

  /** `unmark` keeps the invariant and logs at most one event, whose `added` list is empty. */
  lemma UnmarkStep<T>(cfg: Config<T>, s: State<T>, values: seq<T>)
    requires Valid(cfg, s)
    ensures Valid(cfg, Unmark(cfg, s, values).1)
    ensures LogsAtMostOne(s.events, Unmark(cfg, s, values).1.events)
    ensures forall i :: |s.events| <= i < |Unmark(cfg, s, values).1.events| ==>
              Unmark(cfg, s, values).1.events[i].added == []
  {
    if Unmark(cfg, s, values).0.Ok? {
      UnmarkEachWellFormed(cfg, s, values);
      EmitChangeEventValid(cfg, UnmarkEach(cfg, s, values));
    }
  }

  /** `toggle` keeps the invariant and logs at most one event. */
  lemma ToggleStep<T>(cfg: Config<T>, s: State<T>, value: T)
    requires Valid(cfg, s)
    ensures Valid(cfg, Toggle(cfg, s, value))
    ensures LogsAtMostOne(s.events, Toggle(cfg, s, value).events)
  {
    MarkStep(cfg, s, [value]);
    UnmarkStep(cfg, s, [value]);
  }

  /** `clear` keeps the invariant and never emits: it records no removed value. */
  lemma ClearStep<T>(cfg: Config<T>, s: State<T>)
    requires Valid(cfg, s)
    ensures Valid(cfg, MarkedState.Clear(cfg, s))
    ensures MarkedState.Clear(cfg, s).events == s.events
    ensures s.containsSelected ==> Size(MarkedState.Clear(cfg, s).markation) == 0
    ensures !s.containsSelected ==> MarkedState.Clear(cfg, s).markation == s.markation
  {
  }

  /**
   * `reverse` keeps the invariant, negates `isMarked` and `isEmpty` for
   * every value, leaves `hasValue` alone, and undoes itself.
   */
  lemma ReverseStep<T>(cfg: Config<T>, s: State<T>)
    requires Valid(cfg, s)
    ensures Valid(cfg, Reverse(s))
    ensures forall v :: IsMarked(cfg, Reverse(s), v) == !IsMarked(cfg, s, v)
    ensures IsEmpty(Reverse(s)) == !IsEmpty(s) && HasValue(Reverse(s)) == HasValue(s)
    ensures Reverse(Reverse(s)) == s
  {
  }

  /** Reading `marked` keeps the invariant. */
  lemma MarkedStep<T>(cfg: Config<T>, s: State<T>)
    requires Valid(cfg, s)
    ensures Valid(cfg, Marked(cfg, s).1)
  {
  }

  /** A model built with `emitChanges` off never logs an event, whatever is called. */
  lemma SilentModelNeverEmits<T>(cfg: Config<T>, s: State<T>, values: seq<T>, value: T)
    requires Valid(cfg, s) && !cfg.emitChanges
    ensures Mark(cfg, s, values).1.events == []
    ensures Unmark(cfg, s, values).1.events == []
    ensures Toggle(cfg, s, value).events == []
    ensures MarkedState.Clear(cfg, s).events == []
  {
  }

  // ---------------------------------------------------------------------
  // With the flag `true`: what is marked and what is reported

  /**
   * In multiple mode, marking `values` adds their keys and appends the
   * values whose key was new at their turn both to `values()` and, when
   * changes are emitted, to the added queue.
   */
  lemma {:induction false} MarkEachAppends<T>(cfg: Config<T>, s: State<T>, values: seq<T>)
    requires Consistent(s.markation) && s.containsSelected && cfg.multiple
    ensures Consistent(MarkEach(cfg, s, values).markation)
    ensures KeySet(MarkEach(cfg, s, values).markation) == KeySet(s.markation) + KeysOf(cfg.keyOf, values)
    ensures Values(MarkEach(cfg, s, values).markation)
         == Values(s.markation) + NewValues(cfg.keyOf, KeySet(s.markation), values)
    ensures MarkEach(cfg, s, values).markedToEmit
         == s.markedToEmit + (if cfg.emitChanges then NewValues(cfg.keyOf, KeySet(s.markation), values) else [])
    decreases |values|
  {
    if values == [] {
      assert KeysOf(cfg.keyOf, values) == {};
      assert Values(s.markation) + [] == Values(s.markation);
      assert s.markedToEmit + [] == s.markedToEmit;
    } else {
      var init, v := values[..|values| - 1], values[|values| - 1];
      var known := KeySet(s.markation);
      MarkEachAppends(cfg, s, init);
      MarkSelectedAppends(cfg, known, Values(s.markation), MarkEach(cfg, s, init), init, v);
      MarkSelectedQueues(cfg, known, s.markedToEmit, MarkEach(cfg, s, init), init, v);
      var after := MarkEach(cfg, s, values);
      AppendedLast(cfg.keyOf, known, Values(s.markation), s.markedToEmit, cfg.emitChanges,
                   after.markation, after.markedToEmit, values);
    }
  }

  /** What `MarkSelectedAppends` states about `init + [v]`, restated about `values`. */
  lemma AppendedLast<T>(keyOf: T -> string, known: set<string>, start: seq<T>, queued: seq<T>, emit: bool,
                        m: OrderedMap<T>, q: seq<T>, values: seq<T>)
    requires values != []
    requires var init, v := values[..|values| - 1], values[|values| - 1];
             && Consistent(m)
             && KeySet(m) == known + KeysOf(keyOf, init + [v])
             && Values(m) == start + NewValues(keyOf, known, init + [v])
             && q == queued + (if emit then NewValues(keyOf, known, init + [v]) else [])
    ensures KeySet(m) == known + KeysOf(keyOf, values)
    ensures Values(m) == start + NewValues(keyOf, known, values)
    ensures q == queued + (if emit then NewValues(keyOf, known, values) else [])
  {
    assert values == values[..|values| - 1] + [values[|values| - 1]];
  }

  /**
   * The induction step of `MarkEachAppends` for the map: if `before` holds
   * what marking `init` from keys `known` and values `start` gives, marking
   * `v` next gives what marking `init + [v]` does.
   */
  lemma MarkSelectedAppends<T>(cfg: Config<T>, known: set<string>, start: seq<T>, before: State<T>, init: seq<T>, v: T)
    requires Consistent(before.markation) && before.containsSelected && cfg.multiple
    requires KeySet(before.markation) == known + KeysOf(cfg.keyOf, init)
    requires Values(before.markation) == start + NewValues(cfg.keyOf, known, init)
    ensures Consistent(MarkSelected(cfg, before, v).markation)
    ensures KeySet(MarkSelected(cfg, before, v).markation) == known + KeysOf(cfg.keyOf, init + [v])
    ensures Values(MarkSelected(cfg, before, v).markation) == start + NewValues(cfg.keyOf, known, init + [v])
  {
    KeysOfSnoc(cfg.keyOf, init, v);
    NewValuesSnoc(cfg.keyOf, known, init, v);
    MarkSelectedValues(cfg, before, v);
    var after := Values(MarkSelected(cfg, before, v).markation);
    var newOnes := NewValues(cfg.keyOf, known, init);
    if Has(before.markation, cfg.keyOf(v)) {
      assert NewValues(cfg.keyOf, known, init + [v]) == newOnes + [];
      assert after == Values(before.markation) + [];
    } else {
      assert NewValues(cfg.keyOf, known, init + [v]) == newOnes + [v];
      assert after == start + newOnes + [v];
    }
  }

  /** The induction step of `MarkEachAppends` for the added queue. */
  lemma MarkSelectedQueues<T>(cfg: Config<T>, known: set<string>, queued: seq<T>, before: State<T>, init: seq<T>, v: T)
    requires before.containsSelected && cfg.multiple
    requires KeySet(before.markation) == known + KeysOf(cfg.keyOf, init)
    requires before.markedToEmit == queued + (if cfg.emitChanges then NewValues(cfg.keyOf, known, init) else [])
    ensures MarkSelected(cfg, before, v).markedToEmit
         == queued + (if cfg.emitChanges then NewValues(cfg.keyOf, known, init + [v]) else [])
  {
    NewValuesSnoc(cfg.keyOf, known, init, v);
  }

  /** Unmarking `values` drops from `values()` what is stored under their keys; the rest keep their order. */
  lemma {:induction false} UnmarkEachValues<T>(cfg: Config<T>, s: State<T>, values: seq<T>)
    requires WellFormed(cfg, s) && s.containsSelected
    ensures WellFormed(cfg, UnmarkEach(cfg, s, values))
    ensures Values(UnmarkEach(cfg, s, values).markation)
         == Filter(cfg.keyOf, KeysOf(cfg.keyOf, values), false, Values(s.markation))
    decreases |values|
  {
    if values == [] {
      assert KeysOf(cfg.keyOf, values) == {};
      FilterNothing(cfg.keyOf, Values(s.markation));
    } else {
      var init, v := values[..|values| - 1], values[|values| - 1];
      assert values == init + [v];
      UnmarkEachValues(cfg, s, init);
      KeysOfSnoc(cfg.keyOf, init, v);
      var before := UnmarkEach(cfg, s, init);
      UnmarkSelectedWellFormed(cfg, before, v);
      UnmarkSelectedValues(cfg, before, v);
      FilterTwice(cfg.keyOf, KeysOf(cfg.keyOf, init), {cfg.keyOf(v)}, Values(s.markation));
    }
  }

  /** Unmarking `values` queues as removed the values whose key was still present at their turn. */
  lemma {:induction false} UnmarkEachQueued<T>(cfg: Config<T>, s: State<T>, values: seq<T>)
    requires WellFormed(cfg, s) && s.containsSelected
    ensures KeySet(UnmarkEach(cfg, s, values).markation) == KeySet(s.markation) - KeysOf(cfg.keyOf, values)
    ensures UnmarkEach(cfg, s, values).unmarkedToEmit
         == s.unmarkedToEmit + (if cfg.emitChanges then PresentValues(cfg.keyOf, KeySet(s.markation), values) else [])
    decreases |values|
  {
    if values == [] {
      assert KeysOf(cfg.keyOf, values) == {};
    } else {
      var init, v := values[..|values| - 1], values[|values| - 1];
      assert values == init + [v];
      UnmarkEachQueued(cfg, s, init);
      KeysOfSnoc(cfg.keyOf, init, v);
      PresentValuesSnoc(cfg.keyOf, KeySet(s.markation), init, v);
    }
  }

  /**
   * In multiple mode, marking `values` keeps the invariant, adds exactly
   * their keys, appends to `values()` and queues as added the values whose
   * key was new at their turn, in argument order.
   */
  lemma MarkEachSelected<T>(cfg: Config<T>, s: State<T>, values: seq<T>)
    requires WellFormed(cfg, s) && s.containsSelected && cfg.multiple
    ensures WellFormed(cfg, MarkEach(cfg, s, values))
    ensures Values(MarkEach(cfg, s, values).markation)
         == Values(s.markation) + NewValues(cfg.keyOf, KeySet(s.markation), values)
    ensures KeySet(MarkEach(cfg, s, values).markation) == KeySet(s.markation) + KeysOf(cfg.keyOf, values)
    ensures MarkEach(cfg, s, values).markedToEmit
         == s.markedToEmit + (if cfg.emitChanges then NewValues(cfg.keyOf, KeySet(s.markation), values) else [])
  {
    MarkEachWellFormed(cfg, s, values);
    MarkEachAppends(cfg, s, values);
  }

  /**
   * Unmarking `values` keeps the invariant, removes exactly their keys,
   * drops from `values()` the values stored under them (the rest keep their
   * order), and queues as removed the values whose key was still present at
   * their turn, in argument order.
   */
  lemma UnmarkEachSelected<T>(cfg: Config<T>, s: State<T>, values: seq<T>)
    requires WellFormed(cfg, s) && s.containsSelected
    ensures WellFormed(cfg, UnmarkEach(cfg, s, values))
    ensures Values(UnmarkEach(cfg, s, values).markation)
         == Filter(cfg.keyOf, KeysOf(cfg.keyOf, values), false, Values(s.markation))
    ensures KeySet(UnmarkEach(cfg, s, values).markation) == KeySet(s.markation) - KeysOf(cfg.keyOf, values)
    ensures UnmarkEach(cfg, s, values).unmarkedToEmit
         == s.unmarkedToEmit + (if cfg.emitChanges then PresentValues(cfg.keyOf, KeySet(s.markation), values) else [])
  {
    UnmarkEachValues(cfg, s, values);
    UnmarkEachQueued(cfg, s, values);
  }

  /**
   * `mark(...values)` in multiple mode: afterwards every value is marked, and
   * the call logs one event `{added: NewValues, removed: []}` exactly when
   * some value was new.
   */
  lemma MarkNotifiesNewValues<T>(cfg: Config<T>, s: State<T>, values: seq<T>)
    requires Valid(cfg, s) && s.containsSelected && cfg.multiple && cfg.emitChanges
    ensures KeySet(Mark(cfg, s, values).1.markation) == KeySet(s.markation) + KeysOf(cfg.keyOf, values)
    ensures forall i :: 0 <= i < |values| ==> IsMarked(cfg, Mark(cfg, s, values).1, values[i])
    ensures var added := NewValues(cfg.keyOf, KeySet(s.markation), values);
            Mark(cfg, s, values).1.events == s.events + (if added == [] then [] else [Change(added, [])])
  {
    var marked := MarkEach(cfg, s, values);
    MarkEachSelected(cfg, s, values);
    var added := NewValues(cfg.keyOf, KeySet(s.markation), values);
    assert marked.markedToEmit == added && marked.unmarkedToEmit == [];
    assert Mark(cfg, s, values).1 == EmitChangeEvent(cfg, marked);
    assert EmitChangeEvent(cfg, marked).events == s.events + (if added == [] then [] else [Change(added, [])]);
    forall i | 0 <= i < |values| ensures Has(marked.markation, cfg.keyOf(values[i])) {
      assert cfg.keyOf(values[i]) in KeysOf(cfg.keyOf, values);
    }
  }

  /**
   * `unmark(...values)`: afterwards no value is marked, and the call logs one
   * event `{added: [], removed: PresentValues}` exactly when some value was
   * present.
   */
  lemma UnmarkNotifiesPresentValues<T>(cfg: Config<T>, s: State<T>, values: seq<T>)
    requires Valid(cfg, s) && s.containsSelected && cfg.emitChanges
    requires cfg.multiple || |values| <= 1
    ensures KeySet(Unmark(cfg, s, values).1.markation) == KeySet(s.markation) - KeysOf(cfg.keyOf, values)
    ensures forall i :: 0 <= i < |values| ==> !IsMarked(cfg, Unmark(cfg, s, values).1, values[i])
    ensures var removed := PresentValues(cfg.keyOf, KeySet(s.markation), values);
            Unmark(cfg, s, values).1.events == s.events + (if removed == [] then [] else [Change([], removed)])
  {
    var unmarked := UnmarkEach(cfg, s, values);
    UnmarkEachSelected(cfg, s, values);
    var removed := PresentValues(cfg.keyOf, KeySet(s.markation), values);
    assert unmarked.unmarkedToEmit == removed && unmarked.markedToEmit == [];
    assert Unmark(cfg, s, values).1 == EmitChangeEvent(cfg, unmarked);
    assert EmitChangeEvent(cfg, unmarked).events == s.events + (if removed == [] then [] else [Change([], removed)]);
    forall i | 0 <= i < |values| ensures !Has(unmarked.markation, cfg.keyOf(values[i])) {
      assert cfg.keyOf(values[i]) in KeysOf(cfg.keyOf, values);
    }
  }

  /**
   * Single mode: marking a value whose key is absent replaces the map's one
   * entry by it, and the event reports it as added but reports nothing as
   * removed.
   */
  lemma SingleModeReplaces<T>(cfg: Config<T>, s: State<T>, value: T)
    requires Valid(cfg, s) && s.containsSelected && !cfg.multiple
    requires !Has(s.markation, cfg.keyOf(value))
    ensures Valid(cfg, Mark(cfg, s, [value]).1)
    ensures var r := Mark(cfg, s, [value]).1;
            && Values(r.markation) == [value]
            && r.events == s.events + (if cfg.emitChanges then [Change([value], [])] else [])
  {
    MarkStep(cfg, s, [value]);
    EachOfOne(cfg, s, value);
    var cleared := UnmarkAll(s);
    var stored := cleared.markation;
    assert Consistent(stored) && stored.keys == [];
    ValuesOfSetNew(stored, cfg.keyOf(value), value);
    assert Values(stored) == [];
  }

  /** With the flag `true`, `mark(value)` leaves the value marked. */
  lemma MarkMarks<T>(cfg: Config<T>, s: State<T>, value: T)
    requires Valid(cfg, s) && s.containsSelected
    ensures IsMarked(cfg, Mark(cfg, s, [value]).1, value)
  {
  }

  /** With the flag `true`, `unmark(value)` leaves the value unmarked. */
  lemma UnmarkUnmarks<T>(cfg: Config<T>, s: State<T>, value: T)
    requires Valid(cfg, s) && s.containsSelected
    ensures !IsMarked(cfg, Unmark(cfg, s, [value]).1, value)
  {
  }

  /**
   * With the flag `true`, marking a marked value and unmarking an unmarked
   * one change nothing and emit nothing; only the cache is dropped.
   */
  lemma RedundantCallsChangeNothing<T>(cfg: Config<T>, s: State<T>, value: T)
    requires Valid(cfg, s) && s.containsSelected
    ensures IsMarked(cfg, s, value) ==> Mark(cfg, s, [value]) == (Ok, s.(marked := None))
    ensures !IsMarked(cfg, s, value) ==> Unmark(cfg, s, [value]) == (Ok, s.(marked := None))
  {
    EachOfOne(cfg, s, value);
  }

  /** With the flag `true`, `toggle(value)` flips `isMarked(value)`. */
  lemma ToggleFlips<T>(cfg: Config<T>, s: State<T>, value: T)
    requires Valid(cfg, s) && s.containsSelected
    ensures IsMarked(cfg, Toggle(cfg, s, value), value) == !IsMarked(cfg, s, value)
  {
  }

  // ---------------------------------------------------------------------
  // With the flag `false`: the negated membership test, as written

  /**
   * With the flag `false`, marking never changes which keys are in the map
   * (nor their order), and queues as added every value whose key is present:
   * each of those is stored again and reported, however often it recurs.
   */
  lemma {:induction false} MarkEachInverted<T>(cfg: Config<T>, s: State<T>, values: seq<T>)
    requires WellFormed(cfg, s) && !s.containsSelected
    ensures MarkEach(cfg, s, values).markation.keys == s.markation.keys
    ensures KeySet(MarkEach(cfg, s, values).markation) == KeySet(s.markation)
    ensures MarkEach(cfg, s, values).markedToEmit
         == s.markedToEmit + (if cfg.emitChanges then Filter(cfg.keyOf, KeySet(s.markation), true, values) else [])
    decreases |values|
  {
    if values != [] {
      var init, v := values[..|values| - 1], values[|values| - 1];
      assert values == init + [v];
      MarkEachInverted(cfg, s, init);
      MarkEachWellFormed(cfg, s, init);
      FilterSnoc(cfg.keyOf, KeySet(s.markation), true, init, v);
    }
  }

  /**
   * With the flag `false`, `_markSelected(value)` re-stores the value under
   * its key when that key is present (without clearing, even in single mode)
   * and changes nothing in the map when it is absent.
   */
  lemma MarkSelectedInverted<T>(cfg: Config<T>, s: State<T>, value: T)
    requires WellFormed(cfg, s) && !s.containsSelected
    ensures Has(s.markation, cfg.keyOf(value)) ==>
              MarkSelected(cfg, s, value).markation == Set(s.markation, cfg.keyOf(value), value)
    ensures !Has(s.markation, cfg.keyOf(value)) ==> MarkSelected(cfg, s, value) == s
  {
  }

  /**
   * With the flag `false`, marking `values` re-binds every present key to the
   * last value given for it, and leaves the binding of every present key that
   * no value names as it was.
   */
  lemma {:induction false} MarkEachInvertedStores<T>(cfg: Config<T>, s: State<T>, values: seq<T>)
    requires WellFormed(cfg, s) && !s.containsSelected
    ensures forall k :: k in KeySet(s.markation) && k !in KeysOf(cfg.keyOf, values) ==>
              k in MarkEach(cfg, s, values).markation.entries
              && MarkEach(cfg, s, values).markation.entries[k] == s.markation.entries[k]
    ensures forall i :: 0 <= i < |values| && cfg.keyOf(values[i]) in KeySet(s.markation)
                        && (forall j :: i < j < |values| ==> cfg.keyOf(values[j]) != cfg.keyOf(values[i])) ==>
              cfg.keyOf(values[i]) in MarkEach(cfg, s, values).markation.entries
              && MarkEach(cfg, s, values).markation.entries[cfg.keyOf(values[i])] == values[i]
    decreases |values|
  {
    if values != [] {
      var init, v := values[..|values| - 1], values[|values| - 1];
      var before := MarkEach(cfg, s, init);
      var after := MarkEach(cfg, s, values);
      var kv := cfg.keyOf(v);
      MarkEachInvertedStores(cfg, s, init);
      MarkEachInverted(cfg, s, init);
      MarkEachWellFormed(cfg, s, init);
      KeysOfSnoc(cfg.keyOf, init, v);
      assert values == init + [v];
      MarkSelectedInverted(cfg, before, v);
      assert after == MarkSelected(cfg, before, v);
      assert forall k :: k != kv && k in before.markation.entries ==>
               k in after.markation.entries && after.markation.entries[k] == before.markation.entries[k];
      forall i | 0 <= i < |values| && cfg.keyOf(values[i]) in KeySet(s.markation)
                 && (forall j :: i < j < |values| ==> cfg.keyOf(values[j]) != cfg.keyOf(values[i]))
        ensures cfg.keyOf(values[i]) in after.markation.entries
                && after.markation.entries[cfg.keyOf(values[i])] == values[i]
      {
        if i < |init| {
          assert values[i] == init[i];
          assert cfg.keyOf(values[|values| - 1]) != cfg.keyOf(values[i]);
          assert forall j :: i < j < |init| ==> init[j] == values[j];
        }
      }
    }
  }

  /**
   * With the flag `false`, unmarking never changes the map, and queues as
   * removed every value whose key is absent.
   */
  lemma {:induction false} UnmarkEachInverted<T>(cfg: Config<T>, s: State<T>, values: seq<T>)
    requires WellFormed(cfg, s) && !s.containsSelected
    ensures UnmarkEach(cfg, s, values).markation == s.markation
    ensures UnmarkEach(cfg, s, values).unmarkedToEmit
         == s.unmarkedToEmit + (if cfg.emitChanges then Filter(cfg.keyOf, KeySet(s.markation), false, values) else [])
    decreases |values|
  {
    if values != [] {
      var init, v := values[..|values| - 1], values[|values| - 1];
      assert values == init + [v];
      UnmarkEachInverted(cfg, s, init);
      FilterSnoc(cfg.keyOf, KeySet(s.markation), false, init, v);
    }
  }

  /**
   * With the flag `false`, `toggle(value)` does not flip `isMarked(value)`:
   * it re-marks a present key or "unmarks" an absent one, and still reports it.
   */
  lemma ToggleInvertedKeepsMarking<T>(cfg: Config<T>, s: State<T>, value: T)
    requires Valid(cfg, s) && !s.containsSelected
    ensures IsMarked(cfg, Toggle(cfg, s, value), value) == IsMarked(cfg, s, value)
    ensures cfg.emitChanges ==> |Toggle(cfg, s, value).events| == |s.events| + 1
  {
    EachOfOne(cfg, s, value);
  }

  // ---------------------------------------------------------------------
  // The constructor

  /** Single mode keeps only the first initial value. */
  lemma InitSingleKeepsFirst<T>(cfg: Config<T>, initiallyMarkedValues: seq<T>)
    requires !cfg.multiple && |initiallyMarkedValues| > 0
    ensures Values(Init(cfg, initiallyMarkedValues).markation) == [initiallyMarkedValues[0]]
  {
  }

  /**
   * Multiple mode marks the key of every initial value, and nothing else;
   * `values()` lists the first value given for each key, in argument order.
   */
  lemma InitMultipleMarksAll<T>(cfg: Config<T>, initiallyMarkedValues: seq<T>)
    requires cfg.multiple
    ensures WellFormed(cfg, Init(cfg, initiallyMarkedValues))
    ensures Values(Init(cfg, initiallyMarkedValues).markation) == NewValues(cfg.keyOf, {}, initiallyMarkedValues)
    ensures KeySet(Init(cfg, initiallyMarkedValues).markation) == KeysOf(cfg.keyOf, initiallyMarkedValues)
  {
    InitValid(cfg, initiallyMarkedValues);
    var s0 := State(Empty(), true, [], [], None, []);
    if |initiallyMarkedValues| == 0 {
      assert KeysOf(cfg.keyOf, initiallyMarkedValues) == {};
      assert Init(cfg, initiallyMarkedValues) == s0;
      assert Values(s0.markation) == [] == NewValues(cfg.keyOf, {}, initiallyMarkedValues);
    } else {
      assert WellFormed(cfg, s0) && Values(s0.markation) == [] && KeySet(s0.markation) == {};
      MarkEachSelected(cfg, s0, initiallyMarkedValues);
      var marked := MarkEach(cfg, s0, initiallyMarkedValues).markation;
      assert Init(cfg, initiallyMarkedValues).markation == marked;
      assert Values(marked) == [] + NewValues(cfg.keyOf, {}, initiallyMarkedValues);
    }
  }
}
