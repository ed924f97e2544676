/** NullKeyMap: a TreeMap that accepts null keys by storing a private
    placeholder object in their place, together with the comparators that
    order the placeholder below (or above) every real key.

    The wrapped TreeMap's contents are a `map<Slot<K>, V>`; callers of the
    overriding methods pass and receive `Option<K>` keys, `None` being null. */
module NullKeyMap {
  import opened Results

  /** A key as the wrapped TreeMap stores it. */
  datatype Slot<K> = Placeholder | Key(key: K)

  /** The substitution applied by get, put, remove and containsKey. */
  function ToSlot<K>(k: Option<K>): (s: Slot<K>)
    ensures s.Placeholder? <==> k.None?
    ensures FromSlot(s) == k
  {
    if k.None? then Placeholder else Key(k.value)
  }

  /** The reverse substitution applied by the key and entry iterators. */
  function FromSlot<K>(s: Slot<K>): (k: Option<K>)
    ensures k.None? <==> s.Placeholder?
  {
    if s.Placeholder? then None else Some(s.key)
  }

  // ------------------------------------------------------------------
  // Comparators
  // ------------------------------------------------------------------

  function Sign(x: int): int {
    if x < 0 then -1 else if x == 0 then 0 else 1
  }

  /** The general contract of java.util.Comparator.compare. */
  ghost predicate IsComparator<T(!new)>(c: (T, T) -> int) {
    && (forall x, y :: Sign(c(x, y)) == -Sign(c(y, x)))
    && (forall x, y, z :: c(x, y) > 0 && c(y, z) > 0 ==> c(x, z) > 0)
    && (forall x, y, z :: c(x, y) == 0 ==> Sign(c(x, z)) == Sign(c(y, z)))
  }

  /** NullLowOrderC.compare: the placeholder sorts below every key, keys are
      compared by `c`. NullLowOrder is the same with `c` the keys' natural
      ordering (Comparable.compareTo). */
  function NullLow<V>(c: (V, V) -> int, a: Slot<V>, b: Slot<V>): int {
    if a.Placeholder? && b.Placeholder? then 0
    else if a.Placeholder? then -1
    else if b.Placeholder? then 1
    else c(a.key, b.key)
  }

  /** NullHighOrderC.compare (and NullHighOrder with the natural ordering):
      the placeholder sorts above every key. */
  function NullHigh<V>(c: (V, V) -> int, a: Slot<V>, b: Slot<V>): int {
    if a.Placeholder? && b.Placeholder? then 0
    else if a.Placeholder? then 1
    else if b.Placeholder? then -1
    else c(a.key, b.key)
  }

  /** The placeholder is the least slot under NullLow and the greatest under
      NullHigh, and both orders agree with `c` on real keys. */
  lemma PlaceholderIsExtreme<V>(c: (V, V) -> int, a: Slot<V>, b: Slot<V>)
    ensures NullLow(c, Placeholder, b) <= 0 && (NullLow(c, Placeholder, b) == 0 <==> b.Placeholder?)
    ensures NullHigh(c, Placeholder, b) >= 0 && (NullHigh(c, Placeholder, b) == 0 <==> b.Placeholder?)
    ensures a.Key? && b.Key? ==> NullLow(c, a, b) == NullHigh(c, a, b) == c(a.key, b.key)
  {
  }

  /** NullHigh is the mirror image of NullLow: the two agree when neither or
      both sides are the placeholder and are opposite otherwise. */
  lemma NullHighMirrorsNullLow<V>(c: (V, V) -> int, a: Slot<V>, b: Slot<V>)
    ensures a.Placeholder? == b.Placeholder? ==> NullHigh(c, a, b) == NullLow(c, a, b)
    ensures a.Placeholder? != b.Placeholder? ==> NullHigh(c, a, b) == -NullLow(c, a, b)
  {
  }

  /** Wrapping a comparator with NullLow keeps the comparator contract. */
  lemma {:induction false} NullLowIsComparator<V(!new)>(c: (V, V) -> int)
    requires IsComparator(c)
    ensures IsComparator((a: Slot<V>, b: Slot<V>) => NullLow(c, a, b))
  {
    var low := (a: Slot<V>, b: Slot<V>) => NullLow(c, a, b);
    forall x: Slot<V>, y: Slot<V>
      ensures Sign(low(x, y)) == -Sign(low(y, x))
    {
      if x.Key? && y.Key? {
        assert Sign(c(x.key, y.key)) == -Sign(c(y.key, x.key));
      }
    }
    forall x: Slot<V>, y: Slot<V>, z: Slot<V> | low(x, y) > 0 && low(y, z) > 0
      ensures low(x, z) > 0
    {
      if x.Key? && y.Key? && z.Key? {
        assert c(x.key, y.key) > 0 && c(y.key, z.key) > 0;
      }
    }
    forall x: Slot<V>, y: Slot<V>, z: Slot<V> | low(x, y) == 0
      ensures Sign(low(x, z)) == Sign(low(y, z))
    {
      if x.Key? && y.Key? && z.Key? {
        assert c(x.key, y.key) == 0;
      }
    }
  }

  /** Wrapping a comparator with NullHigh keeps the comparator contract. */
  lemma {:induction false} NullHighIsComparator<V(!new)>(c: (V, V) -> int)
    requires IsComparator(c)
    ensures IsComparator((a: Slot<V>, b: Slot<V>) => NullHigh(c, a, b))
  {
    var high := (a: Slot<V>, b: Slot<V>) => NullHigh(c, a, b);
    forall x: Slot<V>, y: Slot<V>
      ensures Sign(high(x, y)) == -Sign(high(y, x))
    {
      if x.Key? && y.Key? {
        assert Sign(c(x.key, y.key)) == -Sign(c(y.key, x.key));
      }
    }
    forall x: Slot<V>, y: Slot<V>, z: Slot<V> | high(x, y) > 0 && high(y, z) > 0
      ensures high(x, z) > 0
    {
      if x.Key? && y.Key? && z.Key? {
        assert c(x.key, y.key) > 0 && c(y.key, z.key) > 0;
      }
    }
    forall x: Slot<V>, y: Slot<V>, z: Slot<V> | high(x, y) == 0
      ensures Sign(high(x, z)) == Sign(high(y, z))
    {
      if x.Key? && y.Key? && z.Key? {
        assert c(x.key, y.key) == 0;
      }
    }
  }

  // ------------------------------------------------------------------
  // The map seen through the overriding methods
  // ------------------------------------------------------------------

  /** The mapping a caller of get/containsKey observes: null keys in place of
      the placeholder. */
  function View<K(==,!new), V(==,!new)>(m: map<Slot<K>, V>): (v: map<Option<K>, V>)
    ensures forall k :: k in v <==> ToSlot(k) in m
    ensures forall k | k in v :: v[k] == m[ToSlot(k)]
  {
    map s | s in m :: FromSlot(s) := m[s]
  }

  function ContainsKey<K(==,!new), V(==,!new)>(m: map<Slot<K>, V>, key: Option<K>): (r: bool)
    ensures r <==> key in View(m)
  {
    ToSlot(key) in m
  }

  function Get<K(==,!new), V(==,!new)>(m: map<Slot<K>, V>, key: Option<K>): (r: Option<V>)
    ensures r.Some? <==> key in View(m)
    ensures r.Some? ==> r.value == View(m)[key]
  {
    if ToSlot(key) in m then Some(m[ToSlot(key)]) else None
  }

  function Put<K(==,!new), V(==,!new)>(m: map<Slot<K>, V>, key: Option<K>, value: V): (r: map<Slot<K>, V>)
    ensures View(r) == View(m)[key := value]
    ensures Get(r, key) == Some(value)
    ensures key.None? ==> Placeholder in r
  {
    var r := m[ToSlot(key) := value];
    assert View(r) == View(m)[key := value];
    r
  }

  function Remove<K(==,!new), V(==,!new)>(m: map<Slot<K>, V>, key: Option<K>): (r: map<Slot<K>, V>)
    ensures View(r) == View(m) - {key}
    ensures Get(r, key) == None
  {
    var r := m - {ToSlot(key)};
    assert View(r) == View(m) - {key};
    r
  }

  /** True when `i` is the last position of `entries` with key `key`. */
  ghost predicate LastWithKey<K, V>(entries: seq<(Option<K>, V)>, i: int, key: Option<K>) {
    0 <= i < |entries| && entries[i].0 == key
    && forall j | i < j < |entries| :: entries[j].0 != key
  }

  /** The keys named by a sequence of entries. */
  function EntryKeys<K(==), V>(entries: seq<(Option<K>, V)>): set<Option<K>> {
    set i | 0 <= i < |entries| :: entries[i].0
  }

  /** putAll routes every entry through the overriding put, in order, so a
      null key of the source lands on the placeholder and later entries win. */
  function PutAll<K(==,!new), V(==,!new)>(m: map<Slot<K>, V>, entries: seq<(Option<K>, V)>): (r: map<Slot<K>, V>)
    ensures forall key | key !in EntryKeys(entries) :: Get(r, key) == Get(m, key)
    ensures forall i | 0 <= i < |entries| && LastWithKey(entries, i, entries[i].0) :: Get(r, entries[i].0) == Some(entries[i].1)
    ensures None in EntryKeys(entries) ==> Placeholder in r
    decreases |entries|
  {
    if |entries| == 0 then m
    else
      var n := |entries| - 1;
      var prev := PutAll(m, entries[..n]);
      var r := Put(prev, entries[n].0, entries[n].1);
      PutAllLast(m, entries, entries[..n], prev, r);
      r
  }

  /** The last step of PutAll: the final entry is put over the others. */
  lemma PutAllLast<K(!new), V(!new)>(m: map<Slot<K>, V>, entries: seq<(Option<K>, V)>, init: seq<(Option<K>, V)>, prev: map<Slot<K>, V>, r: map<Slot<K>, V>)
    requires |entries| > 0 && init == entries[..|entries| - 1]
    requires r == Put(prev, entries[|entries| - 1].0, entries[|entries| - 1].1)
    requires forall key | key !in EntryKeys(init) :: Get(prev, key) == Get(m, key)
    requires forall i | 0 <= i < |init| && LastWithKey(init, i, init[i].0) :: Get(prev, init[i].0) == Some(init[i].1)
    requires None in EntryKeys(init) ==> Placeholder in prev
    ensures forall key | key !in EntryKeys(entries) :: Get(r, key) == Get(m, key)
    ensures forall i | 0 <= i < |entries| && LastWithKey(entries, i, entries[i].0) :: Get(r, entries[i].0) == Some(entries[i].1)
    ensures None in EntryKeys(entries) ==> Placeholder in r
  {
    var n := |entries| - 1;
    forall key | key !in EntryKeys(entries)
      ensures Get(r, key) == Get(m, key)
    {
      PutAllLastUntouched(m, entries, init, prev, r, key);
    }
    forall i | 0 <= i < |entries| && LastWithKey(entries, i, entries[i].0)
      ensures Get(r, entries[i].0) == Some(entries[i].1)
    {
      GetAfterPut(prev, entries[n].0, entries[n].1, entries[i].0);
      if i < n {
        assert init[i] == entries[i];
        assert LastWithKey(init, i, init[i].0);
      }
    }
    if None in EntryKeys(entries) && entries[n].0 != None {
      var i :| 0 <= i < |entries| && entries[i].0 == None;
      assert init[i] == entries[i];
    }
  }

  lemma PutAllLastUntouched<K(!new), V(!new)>(m: map<Slot<K>, V>, entries: seq<(Option<K>, V)>, init: seq<(Option<K>, V)>, prev: map<Slot<K>, V>, r: map<Slot<K>, V>, key: Option<K>)
    requires |entries| > 0 && init == entries[..|entries| - 1]
    requires r == Put(prev, entries[|entries| - 1].0, entries[|entries| - 1].1)
    requires key !in EntryKeys(init) ==> Get(prev, key) == Get(m, key)
    requires key !in EntryKeys(entries)
    ensures Get(r, key) == Get(m, key)
  {
    var n := |entries| - 1;
    assert key != entries[n].0;
    GetAfterPut(prev, entries[n].0, entries[n].1, key);
    forall i | 0 <= i < |init| ensures init[i].0 != key {
      assert init[i] == entries[i];
    }
  }

  /** A put changes the lookup of its own key only. */
  lemma GetAfterPut<K(!new), V(!new)>(m: map<Slot<K>, V>, key: Option<K>, value: V, other: Option<K>)
    ensures Get(Put(m, key, value), other) == if other == key then Some(value) else Get(m, other)
  {
    assert ToSlot(other) == ToSlot(key) <==> other == key;
  }

  /** The elements produced by keySet().iterator(): the placeholder comes out as null. */
  function KeySet<K(==,!new), V(==,!new)>(m: map<Slot<K>, V>): (keys: set<Option<K>>)
    ensures forall k :: k in keys <==> ContainsKey(m, k)
    ensures None in keys <==> Placeholder in m
    ensures |keys| == |m|
  {
    SlotImageSize(m.Keys);
    set s | s in m.Keys :: FromSlot(s)
  }

  /** The entries produced by entrySet().iterator(), keys translated back. */
  function EntrySet<K(==,!new), V(==,!new)>(m: map<Slot<K>, V>): (entries: set<(Option<K>, V)>)
    ensures forall k, v :: (k, v) in entries <==> Get(m, k) == Some(v)
    ensures |entries| == |m|
  {
    EntryImageSize(m, m.Keys);
    set s | s in m.Keys :: (FromSlot(s), m[s])
  }

  /** keySet().remove: deletes the mapping and answers true iff the
      (null-translated) key was present. */
  function KeySetRemove<K(==,!new), V(==,!new)>(m: map<Slot<K>, V>, key: Option<K>): (r: (map<Slot<K>, V>, bool))
    ensures r.1 <==> ContainsKey(m, key)
    ensures View(r.0) == View(m) - {key}
  {
    if ContainsKey(m, key) then (Remove(m, key), true) else (m, false)
  }

  /** entrySet().remove: the entry's value plays no part, only its key. */
  function EntrySetRemove<K(==,!new), V(==,!new)>(m: map<Slot<K>, V>, key: Option<K>, value: Option<V>): (r: (map<Slot<K>, V>, bool))
    ensures r.1 <==> ContainsKey(m, key)
    ensures View(r.0) == View(m) - {key}
  {
    KeySetRemove(m, key)
  }

  /** entrySet().contains: a null value matches a key that is absent. */
  function EntrySetContains<K(==,!new), V(==,!new)>(m: map<Slot<K>, V>, key: Option<K>, value: Option<V>): (r: bool)
    ensures value.Some? ==> (r <==> (key, value.value) in EntrySet(m))
    ensures value.None? ==> (r <==> !ContainsKey(m, key))
  {
    var lookup := Get(m, key);
    if lookup.None? then value.None? else Some(lookup.value) == value
  }

  // ------------------------------------------------------------------
  // NullKeyAbstractMapEntry
  // ------------------------------------------------------------------

  datatype Entry<K, V> = Entry(key: Option<K>, value: Option<V>)

  /** equals: keys equal (both null, or equal objects) and values likewise. */
  function EntryEquals<K(==), V(==)>(a: Entry<K, V>, b: Entry<K, V>): (r: bool)
    ensures r <==> a == b
  {
    (if a.key.None? then b.key.None? else b.key.Some? && a.key.value == b.key.value)
    && (if a.value.None? then b.value.None? else b.value.Some? && a.value.value == b.value.value)
  }

  /** hashCode: key hash xor value hash, null counting as 0. */
  function EntryHash<K, V>(keyHash: K -> bv32, valueHash: V -> bv32, e: Entry<K, V>): bv32 {
    (if e.key.None? then 0 else keyHash(e.key.value))
    ^ (if e.value.None? then 0 else valueHash(e.value.value))
  }

  /** The hash splits into the key's part and the value's part, a null
      counting as 0. Equal entries have equal hash codes too, which is
      immediate here because entry equality is structural. */
  lemma EntryHashAgreesWithEquals<K, V>(keyHash: K -> bv32, valueHash: V -> bv32, a: Entry<K, V>, b: Entry<K, V>)
    requires EntryEquals(a, b)
    ensures EntryHash(keyHash, valueHash, a) == EntryHash(keyHash, valueHash, b)
    ensures EntryHash(keyHash, valueHash, a)
         == EntryHash(keyHash, valueHash, Entry(a.key, None)) ^ EntryHash(keyHash, valueHash, Entry(None, a.value))
  {
  }

  // ------------------------------------------------------------------
  // Helpers
  // ------------------------------------------------------------------

  /** Translating slots back to keys loses no element: a set of slots has
      as many keys as slots. */
  lemma {:induction false} SlotImageSize<K>(s: set<Slot<K>>)
    ensures |set x | x in s :: FromSlot(x)| == |s|
    decreases s
  {
    if s != {} {
      var x :| x in s;
      var rest := s - {x};
      SlotImageSize(rest);
      assert (set y | y in s :: FromSlot(y)) == (set y | y in rest :: FromSlot(y)) + {FromSlot(x)};
      assert FromSlot(x) !in (set y | y in rest :: FromSlot(y));
    }
  }

  /** Likewise a map has as many translated entries as slots. */
  lemma {:induction false} EntryImageSize<K, V>(m: map<Slot<K>, V>, s: set<Slot<K>>)
    requires s <= m.Keys
    ensures |set x | x in s :: (FromSlot(x), m[x])| == |s|
    decreases s
  {
    if s != {} {
      var x :| x in s;
      var rest := s - {x};
      EntryImageSize(m, rest);
      assert (set y | y in s :: (FromSlot(y), m[y])) == (set y | y in rest :: (FromSlot(y), m[y])) + {(FromSlot(x), m[x])};
      assert (FromSlot(x), m[x]) !in (set y | y in rest :: (FromSlot(y), m[y]));
    }
  }
}
