/** IMultiIndexContainer: the behaviour its doc comments promise, stated
    over the container model. Where the implementation keeps a promise the
    lemma proves it; where it does not, the lemma exhibits the difference. */
module ContainerContract {
  import opened Results
  import opened Expression
  import opened MultiIndexContainer
  import opened Junction
  import EnumContainer
  import FieldsContainer

  /** "If null passed, nothing happens" (add, remove, addAll, removeAll),
      addIndex with no identifier changes nothing, and find, getRecordInstances
      and get answer an empty collection for null (or no keys). */
  lemma NullArgumentsChangeNothing<K, R, L, V>(cfg: Config<L, V>, sch: Schema<K, R, L, V>, s: Store<K, R, L, V>)
    ensures Add(sch, s, None) == Success(s) && Remove(sch, s, None) == Success(s)
    ensures AddAll(sch, s, None) == s && RemoveAllOf(sch, s, None) == s && RemoveAllOf(sch, s, Some([])) == s
    ensures AddIndex(sch, s, None) == Success(s) && AddIndex(sch, s, Some([])) == Success(s)
    ensures Find(cfg, sch, s, None) == Success({}) && GetRecordInstances(sch, s, None) == Success({})
    ensures GetMany(s, None) == [] && GetMany(s, Some([])) == []
    ensures Get(s, None).None?
  {
  }

  /** add "adds or updates": on a consistent container the record becomes
      the one stored under its key, no other record changes, the size grows
      only for a new key, and the indexes stay the same ones. The container
      stays consistent when add looks up the earlier record; without that
      lookup, the code's configuration, it stays consistent exactly when the
      earlier record had the same indexed values. */
  lemma AddInsertsOrUpdates<K, R, L, V>(sch: Schema<K, R, L, V>, s: Store<K, R, L, V>, rec: R)
    requires Consistent(sch, s)
    ensures Add(sch, s, Some(rec)).Success?
    ensures var t := Add(sch, s, Some(rec)).value;
            && Get(t, Some(sch.pk(rec))) == Some(rec)
            && (forall k | k != sch.pk(rec) :: Get(t, Some(k)) == Get(s, Some(k)))
            && Size(t) == Size(s) + (if sch.pk(rec) in s.data then 0 else 1)
            && GetIndexes(t) == GetIndexes(s)
            && ((sch.canChange || SameIndexedValues(sch, s, rec)) <==> Consistent(sch, t))
  {
    if sch.canChange {
      AddPreservesConsistent(sch, s, rec);
    } else {
      AddConsistentIff(sch, s, rec);
    }
  }

  /** remove takes the record with the argument's key out and nothing else,
      and keeps a consistent container consistent. */
  lemma RemoveDeletes<K, R, L, V>(sch: Schema<K, R, L, V>, s: Store<K, R, L, V>, rec: R)
    requires Consistent(sch, s)
    ensures Remove(sch, s, Some(rec)).Success?
    ensures var t := Remove(sch, s, Some(rec)).value;
            && Get(t, Some(sch.pk(rec))).None?
            && (forall k | k != sch.pk(rec) :: Get(t, Some(k)) == Get(s, Some(k)))
            && Size(t) == Size(s) - (if sch.pk(rec) in s.data then 1 else 0)
            && GetIndexes(t) == GetIndexes(s)
            && Consistent(sch, t)
  {
    RemovePreservesConsistent(sch, s, Some(rec));
    RemovedRecordIsGone(sch, s, rec);
  }

  /** A successful remove deletes exactly the record stored under the
      argument's key. */
  lemma RemovedRecordIsGone<K, R, L, V>(sch: Schema<K, R, L, V>, s: Store<K, R, L, V>, rec: R)
    requires Remove(sch, s, Some(rec)).Success?
    ensures var t := Remove(sch, s, Some(rec)).value;
            && Get(t, Some(sch.pk(rec))).None?
            && (forall k | k != sch.pk(rec) :: Get(t, Some(k)) == Get(s, Some(k)))
            && Size(t) == Size(s) - (if sch.pk(rec) in s.data then 1 else 0)
            && GetIndexes(t) == GetIndexes(s)
  {
    KeyDeleted(s, Remove(sch, s, Some(rec)).value, sch.pk(rec));
  }

  /** A store whose data lost exactly one key, indexes untouched in name,
      answers for every other key as before. */
  lemma KeyDeleted<K, R, L, V>(s: Store<K, R, L, V>, t: Store<K, R, L, V>, k: K)
    requires t.data == s.data - {k} && t.indexes.Keys == s.indexes.Keys
    ensures Get(t, Some(k)).None?
    ensures forall j | j != k :: Get(t, Some(j)) == Get(s, Some(j))
    ensures Size(t) == Size(s) - (if k in s.data then 1 else 0)
    ensures GetIndexes(t) == GetIndexes(s)
  {
    DropKeySize(s.data, k);
    assert GetIndexes(t) == GetIndexes(s);
  }

  /** Dropping a key shrinks a map by one exactly when the key is there. */
  lemma DropKeySize<K, R>(data: map<K, R>, k: K)
    ensures |(data - {k}).Keys| == |data.Keys| - (if k in data then 1 else 0)
  {
    if k in data {
      assert (data - {k}).Keys == data.Keys - {k};
    } else {
      assert data - {k} == data;
    }
  }

  /** addAll and removeAll(c) "recalculate all established indexes": after
      either, on well-keyed data, each established index is exactly the
      stored keys grouped by their current value, whatever the indexes held
      before. */
  lemma BulkUpdatesRecalculate<K, R, L, V>(sch: Schema<K, R, L, V>, s: Store<K, R, L, V>, c: seq<R>)
    requires WellKeyed(sch, s.data)
    ensures var t := AddAll(sch, s, Some(c));
            GetIndexes(t) == GetIndexes(s) && forall l | l in t.indexes :: t.indexes[l] == Grouped(sch, l, t.data)
    ensures |c| > 0 ==> var t := RemoveAllOf(sch, s, Some(c));
            GetIndexes(t) == GetIndexes(s) && forall l | l in t.indexes :: t.indexes[l] == Grouped(sch, l, t.data)
  {
    var a := AddAll(sch, s, Some(c));
    forall l | l in a.indexes ensures a.indexes[l] == Grouped(sch, l, a.data) {
      MatchingIndexIsGrouped(sch, l, a.indexes[l], a.data);
    }
    if |c| > 0 {
      var r := RemoveAllOf(sch, s, Some(c));
      forall l | l in r.indexes ensures r.indexes[l] == Grouped(sch, l, r.data) {
        MatchingIndexIsGrouped(sch, l, r.indexes[l], r.data);
      }
    }
  }

  /** removeAll() "removes all data but not indexes", clear "clears data
      and also indexes", removeIndex removes only the named index and
      removeIndexes all of them; none of the three index operations touches
      data. */
  lemma ClearingKeepsWhatItPromises<K, R, L, V>(sch: Schema<K, R, L, V>, s: Store<K, R, L, V>, l: L)
    ensures IsEmpty(RemoveAll(sch, s)) && GetIndexes(RemoveAll(sch, s)) == GetIndexes(s)
    ensures IsEmpty(Clear(s)) && GetIndexes(Clear(s)) == {}
    ensures RemoveIndex(s, l).data == s.data && GetIndexes(RemoveIndex(s, l)) == GetIndexes(s) - {l}
    ensures RemoveIndexes(s).data == s.data && GetIndexes(RemoveIndexes(s)) == {}
  {
  }

  /** On a consistent container addIndex behaves as documented: every
      requested index ends up holding the current data grouped from
      scratch, whether it existed before or not. */
  lemma AddIndexOnConsistentReindexes<K, R, L, V>(sch: Schema<K, R, L, V>, s: Store<K, R, L, V>, ids: seq<L>)
    requires Consistent(sch, s) && AddIndex(sch, s, Some(ids)).Success?
    ensures var t := AddIndex(sch, s, Some(ids)).value;
            forall i | 0 <= i < |ids| :: ids[i] in t.indexes && t.indexes[ids[i]] == Grouped(sch, ids[i], s.data)
  {
    var t := AddIndex(sch, s, Some(ids)).value;
    forall i | 0 <= i < |ids| ensures ids[i] in t.indexes && t.indexes[ids[i]] == Grouped(sch, ids[i], s.data) {
      var l := ids[i];
      assert l in t.indexes;
      if l in s.indexes {
        MatchingIndexIsGrouped(sch, l, s.indexes[l], s.data);
      }
    }
  }

  /** addIndex does not reindex an existing index, contrary to its
      documentation: when add without the earlier-record lookup has changed
      an indexed value, some index is stale, and addIndex of that index
      leaves the container as it is, stale index included. */
  lemma AddIndexLeavesStaleIndex<K, R, L, V>(sch: Schema<K, R, L, V>, s: Store<K, R, L, V>, rec: R)
    requires Consistent(sch, s) && !sch.canChange && !SameIndexedValues(sch, s, rec)
    ensures Add(sch, s, Some(rec)).Success?
    ensures var t := Add(sch, s, Some(rec)).value;
            exists l | l in t.indexes :: AddIndex(sch, t, Some([l])) == Success(t) && t.indexes[l] != Grouped(sch, l, t.data)
  {
    StaleIndexAfterAdd(sch, s, rec);
    var t := Add(sch, s, Some(rec)).value;
    var l :| l in t.indexes && t.indexes[l] != Grouped(sch, l, t.data);
    ExistingIndexIsKept(sch, t, l);
  }

  /** Add without the earlier-record lookup leaves some index stale. */
  lemma StaleIndexAfterAdd<K, R, L, V>(sch: Schema<K, R, L, V>, s: Store<K, R, L, V>, rec: R)
    requires Consistent(sch, s) && !sch.canChange && !SameIndexedValues(sch, s, rec)
    ensures Add(sch, s, Some(rec)).Success?
    ensures var t := Add(sch, s, Some(rec)).value;
            exists l | l in t.indexes :: t.indexes[l] != Grouped(sch, l, t.data)
  {
    AddChangedValueInconsistent(sch, s, rec);
    var t := Add(sch, s, Some(rec)).value;
    PutStaysWellKeyed(sch, s.data, rec);
    UnmatchedIndex(sch, t);
  }

  /** Storing a record under its own key keeps every record under its key. */
  lemma PutStaysWellKeyed<K, R, L, V>(sch: Schema<K, R, L, V>, data: map<K, R>, rec: R)
    requires WellKeyed(sch, data)
    ensures WellKeyed(sch, data[sch.pk(rec) := rec])
  {
  }

  /** An inconsistent container whose records sit under their keys has an
      index that differs from its data grouped from scratch. */
  lemma UnmatchedIndex<K, R, L, V>(sch: Schema<K, R, L, V>, t: Store<K, R, L, V>)
    requires WellKeyed(sch, t.data) && !Consistent(sch, t)
    ensures exists l | l in t.indexes :: t.indexes[l] != Grouped(sch, l, t.data)
  {
    var l :| l in t.indexes && !IndexMatches(sch, l, t.indexes[l], t.data);
    assert t.indexes[l] != Grouped(sch, l, t.data);
  }

  /** addIndex of an index that already exists returns the container as it is. */
  lemma ExistingIndexIsKept<K, R, L, V>(sch: Schema<K, R, L, V>, s: Store<K, R, L, V>, l: L)
    requires l in s.indexes
    ensures AddIndex(sch, s, Some([l])) == Success(s)
  {
    var u := AddIndex(sch, s, Some([l]));
    assert u == AddIndexesFrom(sch, s, [l]);
    assert u.Success? && u.value.data == s.data && u.value.indexes.Keys == s.indexes.Keys;
    assert u.value.indexes == s.indexes;
  }

  /** The two-argument gt and lt and the three-argument between are
      documented as not inclusive, yet the bucket of the bound itself is
      selected by all three, and lt selects the null bucket too. */
  lemma TwoArgumentRangesAreInclusive<K, L, V>(cmp: (V, V) -> int, idx: Index<K, V>, l: L, x: V, y: Option<V>)
    requires Some(x) in idx && cmp(x, x) == 0
    ensures Lookup(cmp, idx, EnumContainer.Gt(l, Some(x))).Success?
         && idx[Some(x)] <= Lookup(cmp, idx, EnumContainer.Gt(l, Some(x))).value
    ensures Lookup(cmp, idx, EnumContainer.Lt(l, Some(x))).Success?
         && idx[Some(x)] <= Lookup(cmp, idx, EnumContainer.Lt(l, Some(x))).value
    ensures None in idx ==> idx[None] <= Lookup(cmp, idx, EnumContainer.Lt(l, Some(x))).value
    ensures Lookup(cmp, idx, EnumContainer.Between3(l, Some(x), y)).Success?
         && idx[Some(x)] <= Lookup(cmp, idx, EnumContainer.Between3(l, Some(x), y)).value
  {
    BoundsAreInclusive(cmp, idx, EnumContainer.Gt(l, Some(x)), x);
    BoundsAreInclusive(cmp, idx, EnumContainer.Lt(l, Some(x)), x);
    BoundsAreInclusive(cmp, idx, EnumContainer.Between3(l, Some(x), y), x);
    if None in idx {
      NullBucketPlacement(cmp, idx, EnumContainer.Lt(l, Some(x)));
    }
  }

  /** The builders of the interface mean the same thing in both
      implementations: a Fields container builds, for an index name, the
      very rule an Enum container builds for that name. */
  lemma BuildersAgree<V>(name: string, v: Option<V>, w: Option<V>, inc1: bool, inc2: bool, vs: Option<seq<Option<V>>>)
    ensures FieldsContainer.Eq(name, v) == EnumContainer.Eq(name, v)
    ensures FieldsContainer.Gt3(name, v, inc1) == EnumContainer.Gt3(name, v, inc1)
    ensures FieldsContainer.Lt3(name, v, inc1) == EnumContainer.Lt3(name, v, inc1)
    ensures FieldsContainer.Between5(name, v, inc1, w, inc2) == EnumContainer.Between5(name, v, inc1, w, inc2)
    ensures FieldsContainer.IsNullRule<V>(name) == EnumContainer.IsNullRule(name)
    ensures FieldsContainer.IsNotNullRule<V>(name) == EnumContainer.IsNotNullRule(name)
    ensures FieldsContainer.InRule(name, vs) == EnumContainer.InRule(name, vs)
  {
  }
}
