/** MultiIndexContainer: records stored by primary key plus any number of
    secondary indexes, each mapping an indexed value (null included) to the
    primary keys of the records that currently have it.

    Records are equal exactly when their primary keys are, so a bucket is
    modelled as the set of primary keys of its records, and query results
    are sets of primary keys. Every operation is atomic (the read/write lock
    is not modelled). An exception that the code lets escape is a `Failure`;
    what the container holds after such an exception is not modelled. */
module MultiIndexContainer {
  import opened Results
  import opened Expression
  import NullKeyMap

  /** One index: indexed value (`None` for null) to the keys of its bucket. */
  type Index<K(==), V(==)> = map<Option<V>, set<K>>

  /** What the container knows about its records.
      - `pk`: getMultiIndexPk;
      - `acc(l, r)`: the value index `l` reads from record `r` (the data getter);
      - `hasGetter(l)`: whether a data getter can be made for `l` at all;
      - `canChange`: the indexedAttributeCanChange flag;
      - `cmp`: the natural ordering (compareTo) of indexed values. */
  datatype Schema<K(==), !R, !L(==), !V(==)> = Schema(
    pk: R -> K,
    acc: (L, R) -> Option<V>,
    hasGetter: L -> bool,
    canChange: bool,
    cmp: (V, V) -> int)

  /** The container's state: `data` and `indexes`. */
  datatype Store<K(==), R, L(==), V(==)> = Store(data: map<K, R>, indexes: map<L, Index<K, V>>)

  /** The constructor: no data and no index. */
  function Empty<K(==), R, L(==), V(==)>(): Store<K, R, L, V> {
    Store(map[], map[])
  }

  /** A new container holds no record and no index, and is consistent under
      every schema. */
  lemma EmptyIsConsistent<K, R, L, V>(sch: Schema<K, R, L, V>)
    ensures |Empty<K, R, L, V>().data| == 0 && |Empty<K, R, L, V>().indexes| == 0
    ensures Consistent(sch, Empty())
  {
  }

  // ------------------------------------------------------------------
  // Key order of an index
  // ------------------------------------------------------------------

  /** The order of index keys: NullKeyMap.nullLowOrder over the placeholder
      substitution, so null is below every value and values are compared
      with `cmp`. */
  function KeyCompare<V>(cmp: (V, V) -> int, a: Option<V>, b: Option<V>): (r: int)
    ensures a.None? && b.None? ==> r == 0
    ensures a.None? && b.Some? ==> r < 0
    ensures a.Some? && b.None? ==> r > 0
    ensures a.Some? && b.Some? ==> r == cmp(a.value, b.value)
  {
    NullKeyMap.NullLow(cmp, NullKeyMap.ToSlot(a), NullKeyMap.ToSlot(b))
  }

  // ------------------------------------------------------------------
  // The invariant
  // ------------------------------------------------------------------

  /** Every record is stored under its own primary key. */
  ghost predicate WellKeyed<K, R, L, V>(sch: Schema<K, R, L, V>, data: map<K, R>) {
    forall k | k in data :: sch.pk(data[k]) == k
  }

  /** Index `l` is exactly the stored keys grouped by their current value:
      every stored key is in the bucket of its value, every key in a bucket
      is stored and has that bucket's value, and no bucket is empty. */
  ghost predicate IndexMatches<K, R, L, V>(sch: Schema<K, R, L, V>, l: L, idx: Index<K, V>, data: map<K, R>) {
    && (forall k | k in data :: sch.acc(l, data[k]) in idx && k in idx[sch.acc(l, data[k])])
    && (forall v, k | v in idx && k in idx[v] :: k in data && sch.acc(l, data[k]) == v)
    && (forall v | v in idx :: idx[v] != {})
  }

  /** The container invariant: records well keyed and every index matching. */
  ghost predicate Consistent<K, R, L, V>(sch: Schema<K, R, L, V>, s: Store<K, R, L, V>) {
    && WellKeyed(sch, s.data)
    && forall l | l in s.indexes :: IndexMatches(sch, l, s.indexes[l], s.data)
  }

  /** The index that matches `data`, built in one step: the reference that
      every rebuilding operation is compared with. */
  function Grouped<K(==), R, L(==), V(==)>(sch: Schema<K, R, L, V>, l: L, data: map<K, R>): (idx: Index<K, V>)
    ensures IndexMatches(sch, l, idx, data)
  {
    map v | v in AccValues(sch, l, data) :: Bucket(sch, l, data, v)
  }

  /** The values index `l` reads from the stored records. */
  function AccValues<K(==), R, L(==), V(==)>(sch: Schema<K, R, L, V>, l: L, data: map<K, R>): (vals: set<Option<V>>)
    ensures forall k | k in data :: sch.acc(l, data[k]) in vals
    ensures forall v | v in vals :: exists k | k in data :: sch.acc(l, data[k]) == v
  {
    set k | k in data :: sch.acc(l, data[k])
  }

  /** The stored keys whose value under index `l` is `v`. */
  function Bucket<K(==), R, L(==), V(==)>(sch: Schema<K, R, L, V>, l: L, data: map<K, R>, v: Option<V>): (b: set<K>)
    ensures b <= data.Keys
    ensures forall k | k in data :: k in b <==> sch.acc(l, data[k]) == v
  {
    set k | k in data && sch.acc(l, data[k]) == v
  }

  /** There is only one matching index, so any index that matches is the
      grouped one. */
  lemma MatchingIndexIsGrouped<K, R, L, V>(sch: Schema<K, R, L, V>, l: L, idx: Index<K, V>, data: map<K, R>)
    requires IndexMatches(sch, l, idx, data)
    ensures idx == Grouped(sch, l, data)
  {
    var g := Grouped(sch, l, data);
    forall v | v in idx ensures v in g && idx[v] == g[v] {
      var k :| k in idx[v];
      assert sch.acc(l, data[k]) == v;
    }
    forall v | v in g ensures v in idx {
      var k :| k in g[v];
      assert k in data && sch.acc(l, data[k]) == v;
    }
    assert idx.Keys == g.Keys;
  }

  /** recalculateIndex(dataGetter, indexedData): clear the index, then add
      every stored record to the bucket of its value, creating the bucket
      when it is missing. */
  method RecalculateIndex<K(==), R, L(==), V(==)>(sch: Schema<K, R, L, V>, l: L, data: map<K, R>) returns (idx: Index<K, V>)
    ensures IndexMatches(sch, l, idx, data)
    ensures idx == Grouped(sch, l, data)
  {
    idx := map[];
    var rest := data.Keys;
    while rest != {}
      invariant rest <= data.Keys
      invariant forall k | k in data && k !in rest :: sch.acc(l, data[k]) in idx && k in idx[sch.acc(l, data[k])]
      invariant forall v, k | v in idx && k in idx[v] :: k in data && k !in rest && sch.acc(l, data[k]) == v
      invariant forall v | v in idx :: idx[v] != {}
      decreases rest
    {
      var k :| k in rest;
      var v := sch.acc(l, data[k]);
      var bucket := if v in idx then idx[v] else {};
      idx := idx[v := bucket + {k}];
      rest := rest - {k};
    }
    MatchingIndexIsGrouped(sch, l, idx, data);
  }

  /** Every listed index rebuilt over `data` (recalculateIndexes). */
  function Rebuild<K(==), R, L(==), V(==)>(sch: Schema<K, R, L, V>, data: map<K, R>, ids: set<L>): (indexes: map<L, Index<K, V>>)
    ensures indexes.Keys == ids
    ensures forall l | l in indexes :: IndexMatches(sch, l, indexes[l], data)
  {
    map l | l in ids :: Grouped(sch, l, data)
  }

  // ------------------------------------------------------------------
  // Bucket maintenance
  // ------------------------------------------------------------------

  /** Insert `k` into the bucket of `v`, creating the bucket when missing. */
  function AddToBucket<K(==), V(==)>(idx: Index<K, V>, v: Option<V>, k: K): (r: Index<K, V>)
    ensures r.Keys == idx.Keys + {v}
    ensures r[v] == (if v in idx then idx[v] else {}) + {k}
    ensures forall w | w in idx && w != v :: r[w] == idx[w]
  {
    idx[v := (if v in idx then idx[v] else {}) + {k}]
  }

  /** deleteIndexedRecord: remove `k` from the bucket of `v` and drop the
      bucket once it is empty. A missing bucket is dereferenced as null. */
  function DeleteIndexedRecord<K(==), V(==)>(idx: Index<K, V>, v: Option<V>, k: K): (r: Result<Index<K, V>>)
    ensures r.Failure? <==> v !in idx
    ensures r.Failure? ==> r.fault == NullPointer
    ensures r.Success? ==> r.value.Keys == if idx[v] - {k} == {} then idx.Keys - {v} else idx.Keys
    ensures r.Success? && v in r.value ==> r.value[v] == idx[v] - {k}
    ensures r.Success? ==> forall w | w in idx && w != v :: r.value[w] == idx[w]
  {
    if v !in idx then Failure(NullPointer)
    else
      var bucket := idx[v] - {k};
      if bucket == {} then Success(idx - {v}) else Success(idx[v := bucket])
  }

  // ------------------------------------------------------------------
  // add and remove
  // ------------------------------------------------------------------

  /** The work add does on one index: take the key out of the bucket of the
      earlier record's value when there is one, then put it into the bucket
      of the new record's value. */
  function Reinsert<K(==), R, L(==), V(==)>(sch: Schema<K, R, L, V>, l: L, idx: Index<K, V>, prior: Option<R>, rec: R): (r: Result<Index<K, V>>)
    ensures prior.None? ==> r == Success(AddToBucket(idx, sch.acc(l, rec), sch.pk(rec)))
    ensures r.Failure? <==> prior.Some? && sch.acc(l, prior.value) !in idx
    ensures r.Success? ==> sch.acc(l, rec) in r.value && sch.pk(rec) in r.value[sch.acc(l, rec)]
  {
    var cleared :- if prior.Some? then DeleteIndexedRecord(idx, sch.acc(l, prior.value), sch.pk(rec)) else Success(idx);
    Success(AddToBucket(cleared, sch.acc(l, rec), sch.pk(rec)))
  }

  /** add(obj). The record is stored under its primary key, replacing any
      earlier one, and its key is put into the bucket of its value in every
      index. Only when `canChange` holds is the earlier record looked up, so
      that its key leaves the bucket of its old value first. */
  function Add<K(==), R, L(==), V(==)>(sch: Schema<K, R, L, V>, s: Store<K, R, L, V>, obj: Option<R>): (r: Result<Store<K, R, L, V>>)
    ensures obj.None? ==> r == Success(s)
    ensures r.Failure? ==> r.fault == NullPointer && sch.canChange && obj.Some? && sch.pk(obj.value) in s.data
    ensures r.Success? && obj.Some? ==> r.value.data == s.data[sch.pk(obj.value) := obj.value]
    ensures r.Success? ==> r.value.indexes.Keys == s.indexes.Keys
    ensures r.Success? && obj.Some? ==> forall l | l in r.value.indexes ::
              sch.acc(l, obj.value) in r.value.indexes[l] && sch.pk(obj.value) in r.value.indexes[l][sch.acc(l, obj.value)]
  {
    if obj.None? then Success(s)
    else
      var rec := obj.value;
      var k := sch.pk(rec);
      var prior := if sch.canChange && k in s.data then Some(s.data[k]) else None;
      if exists l | l in s.indexes :: Reinsert(sch, l, s.indexes[l], prior, rec).Failure? then Failure(NullPointer)
      else Success(Store(s.data[k := rec], ReinsertAll(sch, s.indexes, prior, rec)))
  }

  /** Every index after its step of add, when no step fails. */
  function ReinsertAll<K(==), R, L(==), V(==)>(sch: Schema<K, R, L, V>, indexes: map<L, Index<K, V>>, prior: Option<R>, rec: R): (m: map<L, Index<K, V>>)
    requires forall l | l in indexes :: Reinsert(sch, l, indexes[l], prior, rec).Success?
    ensures m.Keys == indexes.Keys
    ensures forall l | l in m :: m[l] == Reinsert(sch, l, indexes[l], prior, rec).value
    ensures forall l | l in m :: sch.acc(l, rec) in m[l] && sch.pk(rec) in m[l][sch.acc(l, rec)]
  {
    map l | l in indexes :: Reinsert(sch, l, indexes[l], prior, rec).value
  }

  /** remove(obj). Nothing happens for null or for a key that is not stored.
      Otherwise the record is removed, and its key leaves the bucket of the
      STORED record's value (not the value of `obj`) in every index. */
  function Remove<K(==), R, L(==), V(==)>(sch: Schema<K, R, L, V>, s: Store<K, R, L, V>, obj: Option<R>): (r: Result<Store<K, R, L, V>>)
    ensures obj.None? || sch.pk(obj.value) !in s.data ==> r == Success(s)
    ensures r.Failure? ==> r.fault == NullPointer
    ensures r.Success? && obj.Some? ==> r.value.data == s.data - {sch.pk(obj.value)}
    ensures r.Success? ==> r.value.indexes.Keys == s.indexes.Keys
  {
    if obj.None? then Success(s)
    else
      var k := sch.pk(obj.value);
      if k !in s.data then Success(s)
      else
        var actual := s.data[k];
        if exists l | l in s.indexes :: DeleteIndexedRecord(s.indexes[l], sch.acc(l, actual), k).Failure? then Failure(NullPointer)
        else Success(Store(s.data - {k}, map l | l in s.indexes :: DeleteIndexedRecord(s.indexes[l], sch.acc(l, actual), k).value))
  }

  // ------------------------------------------------------------------
  // Which updates keep the invariant
  // ------------------------------------------------------------------

  /** Taking a stored key out of the bucket of its value yields the index of
      the data without that key; the bucket is always there. */
  lemma DeleteKeepsMatch<K, R, L, V>(sch: Schema<K, R, L, V>, l: L, idx: Index<K, V>, data: map<K, R>, k: K)
    requires IndexMatches(sch, l, idx, data) && k in data
    ensures DeleteIndexedRecord(idx, sch.acc(l, data[k]), k).Success?
    ensures IndexMatches(sch, l, DeleteIndexedRecord(idx, sch.acc(l, data[k]), k).value, data - {k})
  {
    var v := sch.acc(l, data[k]);
    var r := DeleteIndexedRecord(idx, v, k).value;
    var rest := data - {k};
    forall j | j in rest ensures sch.acc(l, rest[j]) in r && j in r[sch.acc(l, rest[j])] {
      assert j in idx[sch.acc(l, data[j])];
    }
    forall w, j | w in r && j in r[w] ensures j in rest && sch.acc(l, rest[j]) == w {
      assert j in idx[w];
    }
  }

  /** Putting a new key into the bucket of its record's value yields the
      index of the data extended with that record. */
  lemma InsertKeepsMatch<K, R, L, V>(sch: Schema<K, R, L, V>, l: L, idx: Index<K, V>, data: map<K, R>, rec: R)
    requires IndexMatches(sch, l, idx, data) && sch.pk(rec) !in data
    ensures IndexMatches(sch, l, AddToBucket(idx, sch.acc(l, rec), sch.pk(rec)), data[sch.pk(rec) := rec])
  {
    var k := sch.pk(rec);
    var r := AddToBucket(idx, sch.acc(l, rec), k);
    var grown := data[k := rec];
    forall j | j in grown ensures sch.acc(l, grown[j]) in r && j in r[sch.acc(l, grown[j])] {
      if j != k {
        assert j in idx[sch.acc(l, data[j])];
      }
    }
    forall w, j | w in r && j in r[w] ensures j in grown && sch.acc(l, grown[j]) == w {
      if j != k {
        assert j in idx[w];
      }
    }
  }

  /** The per-index step of add keeps the index matching when the earlier
      record (if any) is looked up, as `canChange` makes add do. */
  lemma ReinsertKeepsMatch<K, R, L, V>(sch: Schema<K, R, L, V>, l: L, idx: Index<K, V>, data: map<K, R>, rec: R)
    requires IndexMatches(sch, l, idx, data)
    ensures var prior := if sch.pk(rec) in data then Some(data[sch.pk(rec)]) else None;
            && Reinsert(sch, l, idx, prior, rec).Success?
            && IndexMatches(sch, l, Reinsert(sch, l, idx, prior, rec).value, data[sch.pk(rec) := rec])
  {
    var k := sch.pk(rec);
    if k in data {
      DeleteKeepsMatch(sch, l, idx, data, k);
      var cleared := DeleteIndexedRecord(idx, sch.acc(l, data[k]), k).value;
      InsertKeepsMatch(sch, l, cleared, data - {k}, rec);
      assert (data - {k})[k := rec] == data[k := rec];
    } else {
      InsertKeepsMatch(sch, l, idx, data, rec);
    }
  }

  /** With indexedAttributeCanChange set, add never fails on a consistent
      container and keeps it consistent. */
  lemma AddPreservesConsistent<K, R, L, V>(sch: Schema<K, R, L, V>, s: Store<K, R, L, V>, rec: R)
    requires Consistent(sch, s) && sch.canChange
    ensures Add(sch, s, Some(rec)).Success?
    ensures Consistent(sch, Add(sch, s, Some(rec)).value)
  {
    var k := sch.pk(rec);
    var prior := if k in s.data then Some(s.data[k]) else None;
    forall l | l in s.indexes
      ensures Reinsert(sch, l, s.indexes[l], prior, rec).Success?
    {
      ReinsertKeepsMatch(sch, l, s.indexes[l], s.data, rec);
    }
    AddUnfolds(sch, s, rec, prior);
    var t := Add(sch, s, Some(rec)).value;
    forall l | l in t.indexes ensures IndexMatches(sch, l, t.indexes[l], t.data) {
      ReinsertKeepsMatch(sch, l, s.indexes[l], s.data, rec);
    }
  }

  /** When no index step fails, add stores the record and replaces every
      index by the result of its step. */
  lemma AddUnfolds<K, R, L, V>(sch: Schema<K, R, L, V>, s: Store<K, R, L, V>, rec: R, prior: Option<R>)
    requires prior == if sch.canChange && sch.pk(rec) in s.data then Some(s.data[sch.pk(rec)]) else None
    requires forall l | l in s.indexes :: Reinsert(sch, l, s.indexes[l], prior, rec).Success?
    ensures Add(sch, s, Some(rec)) == Success(Store(s.data[sch.pk(rec) := rec], ReinsertAll(sch, s.indexes, prior, rec)))
  {
  }

  /** Without the lookup of the earlier record, add only inserts: the key
      goes into the bucket of the new value in every index and nothing is
      taken out, so add cannot fail. */
  lemma AddWithoutLookup<K, R, L, V>(sch: Schema<K, R, L, V>, s: Store<K, R, L, V>, rec: R)
    requires !sch.canChange
    ensures Add(sch, s, Some(rec))
         == Success(Store(s.data[sch.pk(rec) := rec], map l | l in s.indexes :: AddToBucket(s.indexes[l], sch.acc(l, rec), sch.pk(rec))))
  {
    var k := sch.pk(rec);
    var prior: Option<R> := None;
    forall l | l in s.indexes
      ensures Reinsert(sch, l, s.indexes[l], prior, rec) == Success(AddToBucket(s.indexes[l], sch.acc(l, rec), k))
    {
    }
    assert !exists l | l in s.indexes :: Reinsert(sch, l, s.indexes[l], prior, rec).Failure?;
    assert ReinsertAll(sch, s.indexes, prior, rec)
        == (map l | l in s.indexes :: AddToBucket(s.indexes[l], sch.acc(l, rec), k));
  }

  /** The same value in every index: the replaced record (if any) and the new
      one are indistinguishable to the indexes. */
  ghost predicate SameIndexedValues<K, R, L, V>(sch: Schema<K, R, L, V>, s: Store<K, R, L, V>, rec: R) {
    forall l | l in s.indexes :: sch.pk(rec) in s.data ==> sch.acc(l, s.data[sch.pk(rec)]) == sch.acc(l, rec)
  }

  /** With indexedAttributeCanChange clear (its value in the code), add never
      fails, and the container stays consistent exactly when the new record
      has, in every index, the same value as the record it replaces. */
  lemma AddConsistentIff<K, R, L, V>(sch: Schema<K, R, L, V>, s: Store<K, R, L, V>, rec: R)
    requires Consistent(sch, s) && !sch.canChange
    ensures Add(sch, s, Some(rec)).Success?
    ensures Consistent(sch, Add(sch, s, Some(rec)).value) <==> SameIndexedValues(sch, s, rec)
  {
    AddWithoutLookup(sch, s, rec);
    if SameIndexedValues(sch, s, rec) {
      AddSameValuesConsistent(sch, s, rec);
    } else {
      AddChangedValueInconsistent(sch, s, rec);
    }
  }

  lemma AddSameValuesConsistent<K, R, L, V>(sch: Schema<K, R, L, V>, s: Store<K, R, L, V>, rec: R)
    requires Consistent(sch, s) && !sch.canChange && SameIndexedValues(sch, s, rec)
    ensures Add(sch, s, Some(rec)).Success? && Consistent(sch, Add(sch, s, Some(rec)).value)
  {
    AddWithoutLookup(sch, s, rec);
    var k := sch.pk(rec);
    forall l | l in s.indexes ensures IndexMatches(sch, l, AddToBucket(s.indexes[l], sch.acc(l, rec), k), s.data[k := rec]) {
      if k in s.data {
        SameValueReplaceKeepsMatch(sch, l, s.indexes[l], s.data, rec);
      } else {
        InsertKeepsMatch(sch, l, s.indexes[l], s.data, rec);
      }
    }
  }

  lemma AddChangedValueInconsistent<K, R, L, V>(sch: Schema<K, R, L, V>, s: Store<K, R, L, V>, rec: R)
    requires Consistent(sch, s) && !sch.canChange && !SameIndexedValues(sch, s, rec)
    ensures Add(sch, s, Some(rec)).Success? && !Consistent(sch, Add(sch, s, Some(rec)).value)
  {
    AddWithoutLookup(sch, s, rec);
    var k := sch.pk(rec);
    var l :| l in s.indexes && k in s.data && sch.acc(l, s.data[k]) != sch.acc(l, rec);
    var v0 := sch.acc(l, s.data[k]);
    var idx := AddToBucket(s.indexes[l], sch.acc(l, rec), k);
    assert k in s.indexes[l][v0];
    assert v0 in idx && k in idx[v0];
    assert (s.data[k := rec])[k] == rec;
    assert !IndexMatches(sch, l, idx, s.data[k := rec]);
  }

  /** Re-adding a stored key whose value is unchanged leaves the index as it
      is and matching the updated data. */
  lemma SameValueReplaceKeepsMatch<K, R, L, V>(sch: Schema<K, R, L, V>, l: L, idx: Index<K, V>, data: map<K, R>, rec: R)
    requires IndexMatches(sch, l, idx, data)
    requires sch.pk(rec) in data && sch.acc(l, data[sch.pk(rec)]) == sch.acc(l, rec)
    ensures AddToBucket(idx, sch.acc(l, rec), sch.pk(rec)) == idx
    ensures IndexMatches(sch, l, idx, data[sch.pk(rec) := rec])
  {
    var k := sch.pk(rec);
    assert idx[sch.acc(l, rec)] + {k} == idx[sch.acc(l, rec)];
    var grown := data[k := rec];
    forall j | j in grown ensures sch.acc(l, grown[j]) in idx && j in idx[sch.acc(l, grown[j])] {
      if j != k {
        assert j in idx[sch.acc(l, data[j])];
      }
    }
  }

  /** remove never fails on a consistent container and keeps it consistent. */
  lemma RemovePreservesConsistent<K, R, L, V>(sch: Schema<K, R, L, V>, s: Store<K, R, L, V>, obj: Option<R>)
    requires Consistent(sch, s)
    ensures Remove(sch, s, obj).Success?
    ensures Consistent(sch, Remove(sch, s, obj).value)
  {
    if obj.Some? && sch.pk(obj.value) in s.data {
      var k := sch.pk(obj.value);
      forall l | l in s.indexes
        ensures DeleteIndexedRecord(s.indexes[l], sch.acc(l, s.data[k]), k).Success?
      {
        DeleteKeepsMatch(sch, l, s.indexes[l], s.data, k);
      }
      var t := Store(s.data - {k}, map l | l in s.indexes :: DeleteIndexedRecord(s.indexes[l], sch.acc(l, s.data[k]), k).value);
      assert Remove(sch, s, obj) == Success(t);
      forall l | l in t.indexes ensures IndexMatches(sch, l, t.indexes[l], t.data) {
        DeleteKeepsMatch(sch, l, s.indexes[l], s.data, k);
      }
    }
  }

  /** remove consults only the primary key of its argument: any two records
      with the same key remove the same thing. */
  lemma RemoveUsesStoredInstance<K, R, L, V>(sch: Schema<K, R, L, V>, s: Store<K, R, L, V>, a: R, b: R)
    requires sch.pk(a) == sch.pk(b)
    ensures Remove(sch, s, Some(a)) == Remove(sch, s, Some(b))
  {
  }

  // ------------------------------------------------------------------
  // Bulk updates: addAll, removeAll(c), removeAll()
  // ------------------------------------------------------------------

  /** The primary keys of a collection of records. */
  function PkSet<K(==), R, L(==), V(==)>(sch: Schema<K, R, L, V>, c: seq<R>): set<K> {
    set i | 0 <= i < |c| :: sch.pk(c[i])
  }

  /** True when no later record of `c` has the primary key of `c[i]`. */
  ghost predicate LastWithPk<K, R, L, V>(sch: Schema<K, R, L, V>, c: seq<R>, i: int) {
    0 <= i < |c| && forall j | i < j < |c| :: sch.pk(c[j]) != sch.pk(c[i])
  }

  /** The loop of addAll: data.put(pk, record) for every record in order, so
      a later record with the same key wins. */
  function PutRecords<K(==), R, L(==), V(==)>(sch: Schema<K, R, L, V>, data: map<K, R>, c: seq<R>): (r: map<K, R>)
    ensures r.Keys == data.Keys + PkSet(sch, c)
    ensures forall k | k in data && k !in PkSet(sch, c) :: r[k] == data[k]
    ensures forall i | 0 <= i < |c| && LastWithPk(sch, c, i) :: r[sch.pk(c[i])] == c[i]
    ensures WellKeyed(sch, data) ==> WellKeyed(sch, r)
    decreases |c|
  {
    if |c| == 0 then data
    else
      var n := |c| - 1;
      var prev := PutRecords(sch, data, c[..n]);
      PutRecordsLast(sch, data, c, c[..n], prev);
      prev[sch.pk(c[n]) := c[n]]
  }

  /** The last step of PutRecords: the final record is put over the others. */
  lemma PutRecordsLast<K, R, L, V>(sch: Schema<K, R, L, V>, data: map<K, R>, c: seq<R>, init: seq<R>, prev: map<K, R>)
    requires |c| > 0 && init == c[..|c| - 1]
    requires prev.Keys == data.Keys + PkSet(sch, init)
    requires forall k | k in data && k !in PkSet(sch, init) :: prev[k] == data[k]
    requires forall i | 0 <= i < |init| && LastWithPk(sch, init, i) :: prev[sch.pk(init[i])] == init[i]
    requires WellKeyed(sch, data) ==> WellKeyed(sch, prev)
    ensures var r := prev[sch.pk(c[|c| - 1]) := c[|c| - 1]];
            && r.Keys == data.Keys + PkSet(sch, c)
            && (forall k | k in data && k !in PkSet(sch, c) :: r[k] == data[k])
            && (forall i | 0 <= i < |c| && LastWithPk(sch, c, i) :: r[sch.pk(c[i])] == c[i])
            && (WellKeyed(sch, data) ==> WellKeyed(sch, r))
  {
    PkSetSnoc(sch, c, init);
    PutRecordsLastKeys(sch, data, c, init, prev);
    forall i | 0 <= i < |init| ensures sch.pk(init[i]) in prev {
      assert sch.pk(init[i]) in PkSet(sch, init);
    }
    PutRecordsLastWins(sch, c, init, prev);
  }

  lemma PutRecordsLastKeys<K, R, L, V>(sch: Schema<K, R, L, V>, data: map<K, R>, c: seq<R>, init: seq<R>, prev: map<K, R>)
    requires |c| > 0 && init == c[..|c| - 1]
    requires PkSet(sch, c) == PkSet(sch, init) + {sch.pk(c[|c| - 1])}
    requires prev.Keys == data.Keys + PkSet(sch, init)
    requires forall k | k in data && k !in PkSet(sch, init) :: prev[k] == data[k]
    requires WellKeyed(sch, data) ==> WellKeyed(sch, prev)
    ensures var r := prev[sch.pk(c[|c| - 1]) := c[|c| - 1]];
            && r.Keys == data.Keys + PkSet(sch, c)
            && (forall k | k in data && k !in PkSet(sch, c) :: r[k] == data[k])
            && (WellKeyed(sch, data) ==> WellKeyed(sch, r))
  {
  }

  lemma PutRecordsLastWins<K, R, L, V>(sch: Schema<K, R, L, V>, c: seq<R>, init: seq<R>, prev: map<K, R>)
    requires |c| > 0 && init == c[..|c| - 1]
    requires forall i | 0 <= i < |init| :: sch.pk(init[i]) in prev
    requires forall i | 0 <= i < |init| && LastWithPk(sch, init, i) :: prev[sch.pk(init[i])] == init[i]
    ensures var r := prev[sch.pk(c[|c| - 1]) := c[|c| - 1]];
            forall i | 0 <= i < |c| && LastWithPk(sch, c, i) :: sch.pk(c[i]) in r && r[sch.pk(c[i])] == c[i]
  {
    var n := |c| - 1;
    var r := prev[sch.pk(c[n]) := c[n]];
    forall i | 0 <= i < |c| && LastWithPk(sch, c, i) ensures sch.pk(c[i]) in r && r[sch.pk(c[i])] == c[i] {
      if i < n {
        assert init[i] == c[i];
        assert LastWithPk(sch, init, i);
      }
    }
  }

  /** The keys of a collection are those of its prefix plus that of its
      last record. */
  lemma PkSetSnoc<K, R, L, V>(sch: Schema<K, R, L, V>, c: seq<R>, init: seq<R>)
    requires |c| > 0 && init == c[..|c| - 1]
    ensures PkSet(sch, c) == PkSet(sch, init) + {sch.pk(c[|c| - 1])}
  {
    var n := |c| - 1;
    forall k | k in PkSet(sch, c) ensures k in PkSet(sch, init) + {sch.pk(c[n])} {
      var i :| 0 <= i < |c| && sch.pk(c[i]) == k;
      if i < n {
        assert init[i] == c[i];
      }
    }
    forall k | k in PkSet(sch, init) ensures k in PkSet(sch, c) {
      var i :| 0 <= i < |init| && sch.pk(init[i]) == k;
      assert c[i] == init[i];
    }
  }

  /** The loop of removeAll(c): data.remove(pk) for every record of `c`. */
  function RemoveRecords<K(==), R, L(==), V(==)>(sch: Schema<K, R, L, V>, data: map<K, R>, c: seq<R>): (r: map<K, R>)
    ensures r.Keys == data.Keys - PkSet(sch, c)
    ensures forall k | k in r :: r[k] == data[k]
  {
    map k | k in data && k !in PkSet(sch, c) :: data[k]
  }

  /** addAll(c): nothing for null; otherwise every record is stored by its
      primary key and every established index is rebuilt from scratch, even
      when `c` is empty. */
  function AddAll<K(==), R, L(==), V(==)>(sch: Schema<K, R, L, V>, s: Store<K, R, L, V>, c: Option<seq<R>>): (r: Store<K, R, L, V>)
    ensures c.None? ==> r == s
    ensures c.Some? ==> r.data == PutRecords(sch, s.data, c.value)
    ensures r.indexes.Keys == s.indexes.Keys
    ensures c.Some? && WellKeyed(sch, s.data) ==> Consistent(sch, r)
    ensures Consistent(sch, s) ==> Consistent(sch, r)
  {
    if c.None? then s
    else
      var data := PutRecords(sch, s.data, c.value);
      Store(data, Rebuild(sch, data, s.indexes.Keys))
  }

  /** removeAll(c): nothing for null or an empty collection; otherwise the
      records with the listed primary keys are removed and every established
      index is rebuilt. */
  function RemoveAllOf<K(==), R, L(==), V(==)>(sch: Schema<K, R, L, V>, s: Store<K, R, L, V>, c: Option<seq<R>>): (r: Store<K, R, L, V>)
    ensures c.None? || |c.value| == 0 ==> r == s
    ensures c.Some? && |c.value| > 0 ==> r.data == RemoveRecords(sch, s.data, c.value)
    ensures r.indexes.Keys == s.indexes.Keys
    ensures c.Some? && |c.value| > 0 && WellKeyed(sch, s.data) ==> Consistent(sch, r)
    ensures Consistent(sch, s) ==> Consistent(sch, r)
  {
    if c.None? || |c.value| == 0 then s
    else
      var data := RemoveRecords(sch, s.data, c.value);
      Store(data, Rebuild(sch, data, s.indexes.Keys))
  }

  /** removeAll(): all data goes, every index stays established and is
      rebuilt, hence empty. */
  function RemoveAll<K(==), R, L(==), V(==)>(sch: Schema<K, R, L, V>, s: Store<K, R, L, V>): (r: Store<K, R, L, V>)
    ensures |r.data| == 0
    ensures r.indexes.Keys == s.indexes.Keys
    ensures forall l | l in r.indexes :: |r.indexes[l]| == 0
    ensures Consistent(sch, r)
  {
    var data: map<K, R> := map[];
    var indexes := Rebuild(sch, data, s.indexes.Keys);
    forall l | l in indexes ensures |indexes[l]| == 0 {
      MatchingIndexIsGrouped(sch, l, indexes[l], data);
      assert indexes[l].Keys == {};
    }
    Store(data, indexes)
  }

  // ------------------------------------------------------------------
  // Index management
  // ------------------------------------------------------------------

  /** One identifier of addIndex: an existing index is left untouched;
      otherwise a data getter must exist and a fresh index is built over the
      current data. */
  function AddOneIndex<K(==), R, L(==), V(==)>(sch: Schema<K, R, L, V>, s: Store<K, R, L, V>, l: L): (r: Result<Store<K, R, L, V>>)
    ensures r.Failure? <==> l !in s.indexes && !sch.hasGetter(l)
    ensures r.Failure? ==> r.fault == NoAccessor
    ensures r.Success? ==> r.value.data == s.data && r.value.indexes.Keys == s.indexes.Keys + {l}
    ensures r.Success? ==> forall m | m in s.indexes :: r.value.indexes[m] == s.indexes[m]
    ensures r.Success? && l !in s.indexes ==> r.value.indexes[l] == Grouped(sch, l, s.data)
  {
    if l in s.indexes then Success(s)
    else if !sch.hasGetter(l) then Failure(NoAccessor)
    else Success(Store(s.data, s.indexes[l := Grouped(sch, l, s.data)]))
  }

  /** The loop of addIndex over its identifiers, stopping at the first that
      has no data getter. */
  function AddIndexesFrom<K(==), R, L(==), V(==)>(sch: Schema<K, R, L, V>, s: Store<K, R, L, V>, ids: seq<L>): (r: Result<Store<K, R, L, V>>)
    ensures r.Success? <==> forall i | 0 <= i < |ids| :: ids[i] in s.indexes || sch.hasGetter(ids[i])
    ensures r.Failure? ==> r.fault == NoAccessor
    ensures r.Success? ==> r.value.data == s.data
    ensures r.Success? ==> r.value.indexes.Keys == s.indexes.Keys + (set i | 0 <= i < |ids| :: ids[i])
    ensures r.Success? ==> forall m | m in s.indexes :: r.value.indexes[m] == s.indexes[m]
    ensures r.Success? ==> forall m | m in r.value.indexes && m !in s.indexes :: r.value.indexes[m] == Grouped(sch, m, s.data)
    decreases |ids|
  {
    if |ids| == 0 then Success(s)
    else
      var next :- AddOneIndex(sch, s, ids[0]);
      ElementsSplit(ids);
      AddIndexesFrom(sch, next, ids[1..])
  }

  /** The elements of a non-empty sequence are its head and the elements of
      its tail, and so is the condition that all of them satisfy a test. */
  lemma ElementsSplit<L>(ids: seq<L>)
    requires |ids| > 0
    ensures (set i | 0 <= i < |ids| :: ids[i]) == {ids[0]} + (set i | 0 <= i < |ids[1..]| :: ids[1..][i])
    ensures forall p: L -> bool :: (forall i | 0 <= i < |ids| :: p(ids[i])) <==> p(ids[0]) && forall i | 0 <= i < |ids[1..]| :: p(ids[1..][i])
  {
    assert forall i | 1 <= i < |ids| :: ids[i] == ids[1..][i - 1];
  }

  /** addIndex(ids): nothing for null or no identifier. */
  function AddIndex<K(==), R, L(==), V(==)>(sch: Schema<K, R, L, V>, s: Store<K, R, L, V>, ids: Option<seq<L>>): (r: Result<Store<K, R, L, V>>)
    ensures ids.None? || |ids.value| == 0 ==> r == Success(s)
    ensures ids.Some? ==> r == AddIndexesFrom(sch, s, ids.value)
    ensures r.Success? && Consistent(sch, s) ==> Consistent(sch, r.value)
  {
    if ids.None? || |ids.value| == 0 then Success(s)
    else AddIndexesFrom(sch, s, ids.value)
  }

  /** removeIndex(l): the index goes if it was there; data stays. */
  function RemoveIndex<K(==), R, L(==), V(==)>(s: Store<K, R, L, V>, l: L): (r: Store<K, R, L, V>)
    ensures r.data == s.data
    ensures r.indexes.Keys == s.indexes.Keys - {l}
    ensures forall m | m in r.indexes :: r.indexes[m] == s.indexes[m]
  {
    Store(s.data, s.indexes - {l})
  }

  /** removeIndexes(): every index goes; data stays. */
  function RemoveIndexes<K(==), R, L(==), V(==)>(s: Store<K, R, L, V>): (r: Store<K, R, L, V>)
    ensures r.data == s.data && |r.indexes| == 0
  {
    Store(s.data, map[])
  }

  /** clear(): data and indexes both go. */
  function Clear<K(==), R, L(==), V(==)>(s: Store<K, R, L, V>): (r: Store<K, R, L, V>)
    ensures r == Empty()
  {
    Store(map[], map[])
  }

  /** Dropping indexes keeps the container consistent. */
  lemma DroppingIndexesKeepsConsistent<K, R, L, V>(sch: Schema<K, R, L, V>, s: Store<K, R, L, V>, l: L)
    requires Consistent(sch, s)
    ensures Consistent(sch, RemoveIndex(s, l))
    ensures Consistent(sch, RemoveIndexes(s))
    ensures Consistent(sch, Clear(s))
  {
  }

  // ------------------------------------------------------------------
  // Readers
  // ------------------------------------------------------------------

  /** get(pk): the stored record, or null. */
  function Get<K(==), R, L(==), V(==)>(s: Store<K, R, L, V>, pk: Option<K>): (r: Option<R>)
    ensures r.Some? <==> pk.Some? && pk.value in s.data
    ensures r.Some? ==> r.value == s.data[pk.value]
  {
    if pk.Some? && pk.value in s.data then Some(s.data[pk.value]) else None
  }

  /** get(pks): one entry per requested key, null where nothing is stored;
      empty for a null or empty request. */
  function GetMany<K(==), R, L(==), V(==)>(s: Store<K, R, L, V>, pks: Option<seq<Option<K>>>): (r: seq<Option<R>>)
    ensures pks.None? ==> |r| == 0
    ensures pks.Some? ==> |r| == |pks.value|
    ensures pks.Some? ==> forall i | 0 <= i < |r| :: r[i] == Get(s, pks.value[i])
  {
    if pks.None? || |pks.value| == 0 then []
    else seq(|pks.value|, i requires 0 <= i < |pks.value| => Get(s, pks.value[i]))
  }

  /** size(). */
  function Size<K(==), R, L(==), V(==)>(s: Store<K, R, L, V>): (n: nat)
    ensures n == |s.data.Keys|
  {
    |s.data|
  }

  /** isEmpty(): no record is stored. */
  function IsEmpty<K(==), R, L(==), V(==)>(s: Store<K, R, L, V>): (b: bool)
    ensures b <==> Size(s) == 0
    ensures b <==> s.data == map[]
  {
    |s.data| == 0
  }

  /** getAll(): a fresh list of the stored records, one per primary key. */
  method GetAll<K(==), R, L(==), V(==)>(s: Store<K, R, L, V>) returns (rs: seq<R>)
    ensures |rs| == |s.data|
    ensures forall k | k in s.data :: s.data[k] in rs
    ensures forall i | 0 <= i < |rs| :: IsStored(s.data, rs[i])
  {
    rs := [];
    var rest := s.data.Keys;
    ghost var ks: seq<K> := [];
    while rest != {}
      invariant rest <= s.data.Keys
      invariant |rs| == |ks| && |ks| + |rest| == |s.data|
      invariant forall i | 0 <= i < |ks| :: ks[i] in s.data && ks[i] !in rest && rs[i] == s.data[ks[i]]
      invariant forall k | k in s.data && k !in rest :: k in ks
      decreases rest
    {
      var k :| k in rest;
      rs := rs + [s.data[k]];
      ks := ks + [k];
      rest := rest - {k};
    }
    ListedByKeys(s.data, ks, rs);
  }

  /** `r` is the record stored under some key. */
  ghost predicate IsStored<K, R>(data: map<K, R>, r: R) {
    exists k | k in data :: data[k] == r
  }

  /** A list built alongside a list of keys, each entry the record of its
      key, with every stored key listed, holds every stored record and
      nothing else. */
  lemma ListedByKeys<K, R>(data: map<K, R>, ks: seq<K>, rs: seq<R>)
    requires |rs| == |ks|
    requires forall i | 0 <= i < |ks| :: ks[i] in data && rs[i] == data[ks[i]]
    requires forall k | k in data :: k in ks
    ensures forall k | k in data :: data[k] in rs
    ensures forall i | 0 <= i < |rs| :: IsStored(data, rs[i])
  {
    forall k | k in data ensures data[k] in rs {
      var i :| 0 <= i < |ks| && ks[i] == k;
      assert rs[i] == data[k];
    }
    forall i | 0 <= i < |rs| ensures IsStored(data, rs[i]) {
      assert data[ks[i]] == rs[i];
    }
  }

  /** The keys of a matching index are the values the records have. */
  lemma MatchingKeysAreValues<K, R, L, V>(sch: Schema<K, R, L, V>, l: L, idx: Index<K, V>, data: map<K, R>)
    requires IndexMatches(sch, l, idx, data)
    ensures idx.Keys == AccValues(sch, l, data)
  {
    forall v | v in idx ensures v in AccValues(sch, l, data) {
      assert idx[v] != {};
      var k :| k in idx[v];
      assert k in data && sch.acc(l, data[k]) == v;
    }
  }

  /** getIndexes(): the identifiers of the established indexes. */
  function GetIndexes<K(==), R, L(==), V(==)>(s: Store<K, R, L, V>): (ids: set<L>)
    ensures forall l | l in ids :: l in s.indexes
    ensures forall l | l in s.indexes :: l in ids
  {
    s.indexes.Keys
  }

  /** getDistinctIndexedValues(l): the keys of index `l`; an index that was
      never added is an error. In a consistent container these are exactly
      the values the stored records have. */
  function GetDistinctIndexedValues<K(==), R, L(==), V(==)>(sch: Schema<K, R, L, V>, s: Store<K, R, L, V>, l: L): (r: Result<set<Option<V>>>)
    ensures r.Failure? <==> l !in s.indexes
    ensures r.Failure? ==> r.fault == IndexNotEstablished
    ensures r.Success? && Consistent(sch, s) ==> r.value == AccValues(sch, l, s.data)
  {
    if l !in s.indexes then Failure(IndexNotEstablished)
    else
      assert Consistent(sch, s) ==> s.indexes[l].Keys == AccValues(sch, l, s.data) by {
        if Consistent(sch, s) {
          MatchingKeysAreValues(sch, l, s.indexes[l], s.data);
        }
      }
      Success(s.indexes[l].Keys)
  }

  // ------------------------------------------------------------------
  // Leaf lookup: getRecordInstances(expression)
  // ------------------------------------------------------------------

  /** The exception a lookup operator raises on its operands, if any:
      EQUAL/IN/IS_NULL iterate the value array (null array: NPE); BETWEEN,
      GREATER and LESS hand their bounds to subMap/tailMap/headMap, whose
      comparator dereferences a null bound (NPE), and subMap rejects a lower
      bound above the upper one (IllegalArgumentException). */
  function LeafFault<V, L>(cmp: (V, V) -> int, e: Expr<L, V>): (f: Option<Fault>)
    ensures f.Some? && e.operator in {Equal, In, IsNull} ==> f == Some(NullPointer) && e.values.None?
    ensures f.Some? && e.operator == Greater ==> f == Some(NullPointer) && e.valueFrom.None?
    ensures f.Some? && e.operator == Less ==> f == Some(NullPointer) && e.valueTo.None?
    ensures e.operator == IsNotNull ==> f.None?
    ensures e.operator == Between && e.valueFrom.Some? && e.valueTo.Some? ==> (f.Some? <==> cmp(e.valueFrom.value, e.valueTo.value) > 0)
  {
    match e.operator
    case Equal | In | IsNull => if e.values.None? then Some(NullPointer) else None
    case Between =>
      if e.valueFrom.None? || e.valueTo.None? then Some(NullPointer)
      else if cmp(e.valueFrom.value, e.valueTo.value) > 0 then Some(IllegalArgument)
      else None
    case Greater => if e.valueFrom.None? then Some(NullPointer) else None
    case Less => if e.valueTo.None? then Some(NullPointer) else None
    case IsNotNull => None
  }

  /** Whether an index key `v` is selected by the expression, in the index's
      key order. Ranges are inclusive at both ends whatever the expression's
      flags: subMap(from, true, to, true), tailMap(from, true) and
      headMap(to, true). IS_NOT_NULL selects the keys from the first
      non-null one on, which are the non-null keys (see NotNullByTail). */
  predicate Selects<V(==), L>(cmp: (V, V) -> int, e: Expr<L, V>, v: Option<V>) {
    match e.operator
    case Equal | In | IsNull => e.values.Some? && v in e.values.value
    case Between => KeyCompare(cmp, v, e.valueFrom) >= 0 && KeyCompare(cmp, v, e.valueTo) <= 0
    case Greater => KeyCompare(cmp, v, e.valueFrom) >= 0
    case Less => KeyCompare(cmp, v, e.valueTo) <= 0
    case IsNotNull => v.Some?
  }

  /** The keys of every bucket whose value the expression selects. */
  function Lookup<K(==), L, V(==)>(cmp: (V, V) -> int, idx: Index<K, V>, e: Expr<L, V>): (r: Result<set<K>>)
    ensures r.Failure? <==> LeafFault(cmp, e).Some?
    ensures r.Failure? ==> r.fault == LeafFault(cmp, e).value
    ensures r.Success? ==> forall v | v in idx && Selects(cmp, e, v) :: idx[v] <= r.value
    ensures r.Success? ==> forall k | k in r.value :: exists v | v in idx :: k in idx[v] && Selects(cmp, e, v)
  {
    if LeafFault(cmp, e).Some? then Failure(LeafFault(cmp, e).value)
    else Success(set v, k | v in idx && k in idx[v] && Selects(cmp, e, v) :: k)
  }

  /** getRecordInstances(expression): empty for null; an index that was
      never added is an error; otherwise the lookup in that index. */
  function GetRecordInstances<K(==), R, L(==), V(==)>(sch: Schema<K, R, L, V>, s: Store<K, R, L, V>, e: Option<Expr<L, V>>): (r: Result<set<K>>)
    ensures e.None? ==> r == Success({})
    ensures e.Some? && e.value.index !in s.indexes ==> r == Failure(IndexNotEstablished)
    ensures e.Some? && e.value.index in s.indexes ==> r == Lookup(sch.cmp, s.indexes[e.value.index], e.value)
    ensures Consistent(sch, s) && r.Success? ==> r.value <= s.data.Keys
  {
    if e.None? then Success({})
    else if e.value.index !in s.indexes then Failure(IndexNotEstablished)
    else
      var r := Lookup(sch.cmp, s.indexes[e.value.index], e.value);
      assert Consistent(sch, s) && r.Success? ==> r.value <= s.data.Keys by {
        if Consistent(sch, s) && r.Success? {
          LookupSound(sch, s.indexes[e.value.index], s.data, e.value);
        }
      }
      r
  }

  /** The reference meaning of an expression: scan every stored record and
      keep those whose value the expression selects. */
  function Scan<K(==), R, L(==), V(==)>(sch: Schema<K, R, L, V>, data: map<K, R>, e: Expr<L, V>): set<K> {
    set k | k in data && Selects(sch.cmp, e, sch.acc(e.index, data[k]))
  }

  /** In a consistent container, looking an expression up in its index gives
      what scanning all records gives. */
  lemma LookupAgreesWithScan<K, R, L, V>(sch: Schema<K, R, L, V>, s: Store<K, R, L, V>, e: Expr<L, V>)
    requires Consistent(sch, s) && e.index in s.indexes && LeafFault(sch.cmp, e).None?
    ensures GetRecordInstances(sch, s, Some(e)) == Success(Scan(sch, s.data, e))
  {
    var idx := s.indexes[e.index];
    var r := Lookup(sch.cmp, idx, e);
    LookupSound(sch, idx, s.data, e);
    LookupComplete(sch, idx, s.data, e);
    assert r.value == Scan(sch, s.data, e);
  }

  /** Every key a lookup in a matching index returns is one the scan keeps. */
  lemma LookupSound<K, R, L, V>(sch: Schema<K, R, L, V>, idx: Index<K, V>, data: map<K, R>, e: Expr<L, V>)
    requires IndexMatches(sch, e.index, idx, data) && LeafFault(sch.cmp, e).None?
    ensures Lookup(sch.cmp, idx, e).value <= Scan(sch, data, e)
  {
    var r := Lookup(sch.cmp, idx, e).value;
    forall k | k in r ensures k in Scan(sch, data, e) {
      var v :| v in idx && k in idx[v] && Selects(sch.cmp, e, v);
      BucketMemberIsStored(sch, e.index, idx, data, v, k);
    }
  }

  /** A key filed in a matching index's bucket is stored, with that value. */
  lemma BucketMemberIsStored<K, R, L, V>(sch: Schema<K, R, L, V>, l: L, idx: Index<K, V>, data: map<K, R>, v: Option<V>, k: K)
    requires IndexMatches(sch, l, idx, data) && v in idx && k in idx[v]
    ensures k in data && sch.acc(l, data[k]) == v
  {
  }

  /** Every key the scan keeps is returned by a lookup in a matching index. */
  lemma LookupComplete<K, R, L, V>(sch: Schema<K, R, L, V>, idx: Index<K, V>, data: map<K, R>, e: Expr<L, V>)
    requires IndexMatches(sch, e.index, idx, data) && LeafFault(sch.cmp, e).None?
    ensures Scan(sch, data, e) <= Lookup(sch.cmp, idx, e).value
  {
    var r := Lookup(sch.cmp, idx, e).value;
    forall k | k in Scan(sch, data, e) ensures k in r {
      var v := sch.acc(e.index, data[k]);
      assert v in idx && k in idx[v] && Selects(sch.cmp, e, v);
    }
  }

  // ------------------------------------------------------------------
  // What the operators select
  // ------------------------------------------------------------------

  /** The null bucket sorts below every value: LESS with a non-null bound
      always returns the records whose value is null, GREATER and BETWEEN
      with non-null bounds never do. */
  lemma NullBucketPlacement<K, L, V>(cmp: (V, V) -> int, idx: Index<K, V>, e: Expr<L, V>)
    requires None in idx && LeafFault(cmp, e).None?
    ensures e.operator == Less ==> idx[None] <= Lookup(cmp, idx, e).value
    ensures e.operator in {Greater, Between} ==> !Selects(cmp, e, None)
  {
  }

  /** Range bounds are inclusive whatever the expression's flags say: the
      bucket of a bound value is part of the result. */
  lemma BoundsAreInclusive<K, L, V>(cmp: (V, V) -> int, idx: Index<K, V>, e: Expr<L, V>, x: V)
    requires Some(x) in idx && cmp(x, x) == 0 && LeafFault(cmp, e).None?
    ensures e.operator == Greater && e.valueFrom == Some(x) ==> idx[Some(x)] <= Lookup(cmp, idx, e).value
    ensures e.operator == Less && e.valueTo == Some(x) ==> idx[Some(x)] <= Lookup(cmp, idx, e).value
    ensures e.operator == Between && e.valueFrom == Some(x) && e.valueTo == Some(x) ==> idx[Some(x)] <= Lookup(cmp, idx, e).value
  {
  }

  /** A BETWEEN expression built by the range constructor carries its lower
      bound as upper bound too, so it never raises IllegalArgumentException
      and selects only the values that compare equal to the lower bound,
      whatever upper bound it was given. */
  lemma BuiltBetweenIsPoint<K, L, V>(cmp: (V, V) -> int, idx: Index<K, V>, l: L, f: V, incFrom: bool, to: Option<V>, incTo: bool, v: Option<V>)
    requires cmp(f, f) == 0
    ensures var e := RangeExpr(l, Between, Some(f), incFrom, to, incTo);
            && Lookup(cmp, idx, e).Success?
            && (Selects(cmp, e, v) <==> v.Some? && cmp(v.value, f) == 0)
  {
  }

  /** IS_NOT_NULL as the lookup performs it: walk the keys in index order to
      the first non-null one and return its tail map. The walk is modelled as
      a search for the least non-null key. The result is the union of every
      non-null bucket, which is what `Selects` says. */
  method NotNullByTail<K(==), L, V(==,!new)>(cmp: (V, V) -> int, idx: Index<K, V>, e: Expr<L, V>) returns (r: set<K>)
    requires NullKeyMap.IsComparator(cmp) && e.operator == IsNotNull
    ensures Lookup(cmp, idx, e) == Success(r)
  {
    var first: Option<V> := None;
    var rest := idx.Keys;
    while rest != {}
      invariant rest <= idx.Keys
      invariant LeastOutside(cmp, idx, rest, first)
      decreases rest
    {
      var w :| w in rest;
      var next := if w.Some? && (first.None? || cmp(w.value, first.value) < 0) then w else first;
      SearchStep(cmp, idx, rest, first, w);
      first := next;
      rest := rest - {w};
    }
    r := TailFrom(cmp, idx, first);
    TailFromIsNotNull(cmp, idx, e, first);
  }

  /** The buckets of the tail map from `first` on; none when there is no
      non-null key. */
  function TailFrom<K(==), V(==)>(cmp: (V, V) -> int, idx: Index<K, V>, first: Option<V>): set<K> {
    if first.None? then {}
    else set v, k | v in idx && k in idx[v] && KeyCompare(cmp, v, first) >= 0 :: k
  }

  /** The tail map from the least non-null key holds exactly the non-null
      buckets. */
  lemma TailFromIsNotNull<K, L, V>(cmp: (V, V) -> int, idx: Index<K, V>, e: Expr<L, V>, first: Option<V>)
    requires e.operator == IsNotNull
    requires LeastOutside(cmp, idx, {}, first)
    ensures Lookup(cmp, idx, e) == Success(TailFrom(cmp, idx, first))
  {
    var r := TailFrom(cmp, idx, first);
    var l := Lookup(cmp, idx, e).value;
    forall k | k in l ensures k in r {
      var v :| v in idx && k in idx[v] && Selects(cmp, e, v);
      assert v.Some?;
    }
    forall k | k in r ensures k in l {
      var v :| v in idx && k in idx[v] && KeyCompare(cmp, v, first) >= 0;
      assert Selects(cmp, e, v);
    }
    assert LeafFault(cmp, e).None? && l == r;
  }

  /** `first` is the least non-null key of `idx` outside `rest`, or None
      when every key outside `rest` is null. */
  ghost predicate LeastOutside<K, V>(cmp: (V, V) -> int, idx: Index<K, V>, rest: set<Option<V>>, first: Option<V>) {
    && (first.Some? ==> first in idx && first !in rest)
    && (first.None? ==> forall v | v in idx && v !in rest :: v.None?)
    && (first.Some? ==> forall v | v in idx && v !in rest && v.Some? :: cmp(v.value, first.value) >= 0)
  }

  /** One step of the search: looking at `w` keeps the candidate the least
      non-null key seen. */
  lemma SearchStep<K, V(!new)>(cmp: (V, V) -> int, idx: Index<K, V>, rest: set<Option<V>>, first: Option<V>, w: Option<V>)
    requires NullKeyMap.IsComparator(cmp) && rest <= idx.Keys && w in rest
    requires LeastOutside(cmp, idx, rest, first)
    ensures LeastOutside(cmp, idx, rest - {w}, if w.Some? && (first.None? || cmp(w.value, first.value) < 0) then w else first)
  {
    if w.Some? && (first.None? || cmp(w.value, first.value) < 0) {
      LeastSoFar(cmp, idx, rest, first, w.value);
    }
  }

  /** The step of the search for the least non-null key: a key below the
      current candidate is below every key seen so far. */
  lemma LeastSoFar<K, V(!new)>(cmp: (V, V) -> int, idx: Index<K, V>, rest: set<Option<V>>, first: Option<V>, w: V)
    requires NullKeyMap.IsComparator(cmp)
    requires first.None? ==> forall v | v in idx && v !in rest :: v.None?
    requires first.Some? ==> forall v | v in idx && v !in rest && v.Some? :: cmp(v.value, first.value) >= 0
    requires first.None? || cmp(w, first.value) < 0
    ensures forall v | v in idx && v !in (rest - {Some(w)}) && v.Some? :: cmp(v.value, w) >= 0
  {
    assert NullKeyMap.Sign(cmp(w, w)) == -NullKeyMap.Sign(cmp(w, w));
    forall v | v in idx && v !in (rest - {Some(w)}) && v.Some? ensures cmp(v.value, w) >= 0 {
      if v != Some(w) {
        var m := first.value;
        assert cmp(v.value, m) >= 0;
        assert NullKeyMap.Sign(cmp(m, w)) == -NullKeyMap.Sign(cmp(w, m));
        if cmp(v.value, m) == 0 {
          assert NullKeyMap.Sign(cmp(v.value, w)) == NullKeyMap.Sign(cmp(m, w));
        }
      }
    }
  }
}
