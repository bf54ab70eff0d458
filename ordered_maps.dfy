/**
 * An insertion-ordered dictionary from string keys to values: the part of a
 * JavaScript `Map<string, V>` that the marking model relies on (`has`, `get`,
 * `set`, `delete`, `clear`, `size` and `values()`).  `keys` records the order
 * in which keys were first inserted; `entries` holds the current bindings.
 */
module OrderedMaps {

  datatype OrderedMap<V> = OrderedMap(keys: seq<string>, entries: map<string, V>)

  predicate Distinct(ks: seq<string>)
  {
    forall i, j :: 0 <= i < j < |ks| ==> ks[i] != ks[j]
  }

  /** The order lists every bound key exactly once. */
  ghost predicate Consistent<V>(m: OrderedMap<V>)
  {
    && Distinct(m.keys)
    && (forall k :: k in m.entries <==> k in m.keys)
  }

  function Empty<V>(): (r: OrderedMap<V>)
    ensures Consistent(r) && Size(r) == 0
  {
    OrderedMap([], map[])
  }

  /** `map.has(k)`: in a consistent map, whether `k` appears in the key order. */
  function Has<V>(m: OrderedMap<V>, k: string): (r: bool)
    ensures Consistent(m) ==> (r <==> k in m.keys)
  {
    k in m.entries
  }

  function KeySet<V>(m: OrderedMap<V>): set<string>
  {
    m.entries.Keys
  }

  /** `map.size` */
  function Size<V>(m: OrderedMap<V>): nat
  {
    |m.keys|
  }

  /** In a consistent map, `size` is the number of bound keys. */
  lemma {:induction false} SizeIsCardinality<V>(m: OrderedMap<V>)
    requires Consistent(m)
    ensures Size(m) == |KeySet(m)|
    decreases |m.keys|
  {
    if m.keys != [] {
      var k := m.keys[0];
      assert m.keys == [k] + m.keys[1..];
      assert k !in m.keys[1..];
      var rest := OrderedMap(m.keys[1..], m.entries - {k});
      assert forall x :: x in rest.entries <==> x in rest.keys;
      SizeIsCardinality(rest);
      assert KeySet(rest) == KeySet(m) - {k} && k in KeySet(m);
    } else {
      assert KeySet(m) == {};
    }
  }

  /** A consistent map binds no key exactly when its order is empty. */
  lemma EmptyOrderIsEmptyMap<V>(m: OrderedMap<V>)
    ensures Consistent(m) ==> (Size(m) == 0 <==> KeySet(m) == {})
  {
    if Consistent(m) && Size(m) != 0 {
      assert m.keys[0] in KeySet(m);
    }
  }

  /**
   * `map.set(k, v)`: binds `k` to `v`; a key that is already present keeps its
   * place in the order, a new key goes last.
   */
  function Set<V>(m: OrderedMap<V>, k: string, v: V): (r: OrderedMap<V>)
    ensures Consistent(m) ==> Consistent(r)
    ensures Has(r, k) && r.entries[k] == v
    ensures forall x :: x != k ==> (Has(r, x) <==> Has(m, x))
    ensures forall x :: x != k && x in m.entries ==> x in r.entries && r.entries[x] == m.entries[x]
    ensures m.keys <= r.keys
    ensures Size(r) == if Has(m, k) then Size(m) else Size(m) + 1
  {
    OrderedMap(if k in m.entries then m.keys else m.keys + [k], m.entries[k := v])
  }

  /** The order with `k` taken out and every other key kept in place. */
  function Without(ks: seq<string>, k: string): (r: seq<string>)
    ensures forall x :: x in r <==> x in ks && x != k
    ensures Distinct(ks) ==> Distinct(r)
    ensures Distinct(ks) && k in ks ==> |r| == |ks| - 1
    ensures k !in ks ==> r == ks
    decreases |ks|
  {
    if ks == [] then []
    else
      var rest := Without(ks[1..], k);
      if ks[0] == k then rest
      else
        assert Distinct(ks) ==> Distinct(ks[1..]) && ks[0] !in ks[1..];
        [ks[0]] + rest
  }

  /** The first position of `k` in `ks`. */
  function Position(ks: seq<string>, k: string): (i: nat)
    requires k in ks
    ensures i < |ks| && ks[i] == k && k !in ks[..i]
  {
    if ks[0] == k then 0 else Position(ks[1..], k) + 1
  }

  /** Taking a key out of a distinct order cuts it out at its one position. */
  lemma {:induction false} WithoutSplits(ks: seq<string>, k: string)
    requires Distinct(ks) && k in ks
    ensures Without(ks, k) == ks[..Position(ks, k)] + ks[Position(ks, k) + 1..]
    decreases |ks|
  {
    if ks[0] != k {
      var j := Position(ks[1..], k);
      assert Distinct(ks[1..]);
      WithoutSplits(ks[1..], k);
      assert ks[..j + 1] == [ks[0]] + ks[1..][..j];
      assert ks[j + 2..] == ks[1..][j + 1..];
    }
  }

  /** `map.delete(k)`: an absent key leaves the map as it was. */
  function Delete<V>(m: OrderedMap<V>, k: string): (r: OrderedMap<V>)
    ensures Consistent(m) ==> Consistent(r)
    ensures !Has(r, k)
    ensures forall x :: x != k ==> (Has(r, x) <==> Has(m, x))
    ensures forall x :: x in r.entries ==> x in m.entries && r.entries[x] == m.entries[x]
    ensures Consistent(m) ==> Size(r) == if Has(m, k) then Size(m) - 1 else Size(m)
    ensures !Has(m, k) && Consistent(m) ==> r == m
  {
    OrderedMap(Without(m.keys, k), m.entries - {k})
  }

  /** Deleting a present key cuts it out of the order; the other keys keep their places. */
  lemma DeleteKeepsOrder<V>(m: OrderedMap<V>, k: string)
    requires Consistent(m) && Has(m, k)
    ensures Delete(m, k).keys == m.keys[..Position(m.keys, k)] + m.keys[Position(m.keys, k) + 1..]
  {
    WithoutSplits(m.keys, k);
  }

  /** `map.clear()` */
  function Clear<V>(m: OrderedMap<V>): (r: OrderedMap<V>)
    ensures Consistent(r) && Size(r) == 0 && KeySet(r) == {}
  {
    Empty()
  }

  /** The values bound to `ks`, in the order of `ks`. */
  function Lookup<V>(ks: seq<string>, entries: map<string, V>): (r: seq<V>)
    requires forall k :: k in ks ==> k in entries
    ensures |r| == |ks|
    ensures forall i :: 0 <= i < |ks| ==> r[i] == entries[ks[i]]
  {
    if ks == [] then [] else [entries[ks[0]]] + Lookup(ks[1..], entries)
  }

  /** `Array.from(map.values())`: one value per key, in key insertion order. */
  function Values<V>(m: OrderedMap<V>): (r: seq<V>)
    requires Consistent(m)
    ensures |r| == Size(m)
    ensures forall i :: 0 <= i < |r| ==> r[i] == m.entries[m.keys[i]]
  {
    Lookup(m.keys, m.entries)
  }

  /** Setting a new key appends its value to `values()`. */
  lemma ValuesOfSetNew<V>(m: OrderedMap<V>, k: string, v: V)
    requires Consistent(m) && !Has(m, k)
    ensures Values(Set(m, k, v)) == Values(m) + [v]
  {
  }
}
