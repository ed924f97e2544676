/** MultiIndexContainerFields: a container whose indexes are bean property
    names. The data getter of a name is the read method of the record
    class's property of that name, found through the class's property
    descriptors and remembered in a cache. */
module FieldsContainer {
  import opened Results
  import opened Expression
  import opened MultiIndexContainer
  import ExpressionFields

  /** A property descriptor: its name and its read method (None for a
      write-only property). `M` stands for a reflective method handle. */
  datatype Property<M> = Property(name: string, readMethod: Option<M>)

  /** The position of the first descriptor with the given name. */
  function FindProperty<M>(props: seq<Property<M>>, name: string): (r: Option<nat>)
    ensures r.Some? ==> r.value < |props| && props[r.value].name == name
    ensures r.Some? ==> forall j | 0 <= j < r.value :: props[j].name != name
    ensures r.None? ==> forall j | 0 <= j < |props| :: props[j].name != name
  {
    if |props| == 0 then None
    else if props[0].name == name then Some(0)
    else
      var r := FindProperty(props[1..], name);
      if r.None? then None else Some(r.value + 1)
  }

  /** getMethod(attribute): a cached non-null method is returned at once;
      otherwise the first descriptor with that name supplies its read
      method, which is cached even when null; no such descriptor is an
      UnsupportedOperationException. Returns the method and the new cache. */
  function GetMethod<M>(props: seq<Property<M>>, cache: map<string, Option<M>>, attribute: string): (r: Result<(Option<M>, map<string, Option<M>>)>)
    ensures attribute in cache && cache[attribute].Some? ==> r == Success((cache[attribute], cache))
    ensures !(attribute in cache && cache[attribute].Some?) ==>
              (r.Failure? <==> FindProperty(props, attribute).None?)
    ensures r.Failure? ==> r.fault == NoAccessor
    ensures r.Success? ==> r.value.1.Keys == cache.Keys + {attribute}
    ensures r.Success? ==> forall a | a in cache && a != attribute :: r.value.1[a] == cache[a]
    ensures r.Success? ==> r.value.1[attribute] == r.value.0
  {
    if attribute in cache && cache[attribute].Some? then Success((cache[attribute], cache))
    else
      match FindProperty(props, attribute)
      case None => Failure(NoAccessor)
      case Some(i) => Success((props[i].readMethod, cache[attribute := props[i].readMethod]))
  }

  /** Every cached entry is the read method of the first descriptor of its
      name. */
  ghost predicate CacheSound<M>(props: seq<Property<M>>, cache: map<string, Option<M>>) {
    forall a | a in cache ::
      FindProperty(props, a).Some? && cache[a] == props[FindProperty(props, a).value].readMethod
  }

  /** The cache is invisible: with a sound cache, getMethod fails exactly
      when no descriptor has the name, returns the first such descriptor's
      read method otherwise, and leaves the cache sound. */
  lemma GetMethodCacheTransparent<M>(props: seq<Property<M>>, cache: map<string, Option<M>>, attribute: string)
    requires CacheSound(props, cache)
    ensures GetMethod(props, cache, attribute).Failure? <==> FindProperty(props, attribute).None?
    ensures GetMethod(props, cache, attribute).Success? ==>
              GetMethod(props, cache, attribute).value.0 == props[FindProperty(props, attribute).value].readMethod
              && CacheSound(props, GetMethod(props, cache, attribute).value.1)
    ensures GetMethod(props, cache, attribute).Success? ==>
              GetMethod(props, cache, attribute).value.0 == GetMethod(props, map[], attribute).value.0
  {
    var r := GetMethod(props, cache, attribute);
    if r.Success? {
      var c := r.value.1;
      forall a | a in c ensures FindProperty(props, a).Some? && c[a] == props[FindProperty(props, a).value].readMethod {
        if a != attribute {
          assert a in cache;
        }
      }
    }
  }

  /** The schema of a Fields container. `invoke(m, r)` is the value a read
      method returns on a record. A name has a data getter when its first
      descriptor has a read method; the value of a name without one is
      never read, because no index of that name can be established. */
  function FieldsSchema<K(==), R, M, V(==)>(props: seq<Property<M>>, pk: R -> K, invoke: (M, R) -> Option<V>,
                                           canChange: bool, cmp: (V, V) -> int): (sch: Schema<K, R, string, V>)
    ensures forall name: string :: sch.hasGetter(name) <==>
              FindProperty(props, name).Some? && props[FindProperty(props, name).value].readMethod.Some?
    ensures sch.pk == pk && sch.canChange == canChange && sch.cmp == cmp
  {
    Schema(
      pk,
      (name: string, r: R) =>
        var i := FindProperty(props, name);
        if i.Some? && props[i.value].readMethod.Some? then invoke(props[i.value].readMethod.value, r) else None,
      (name: string) => FindProperty(props, name).Some? && props[FindProperty(props, name).value].readMethod.Some?,
      canChange,
      cmp)
  }

  /** The data getter of a name with a readable property invokes that
      property's read method on the record. */
  lemma FieldsGetterInvokesReadMethod<K, R, M, V>(props: seq<Property<M>>, pk: R -> K, invoke: (M, R) -> Option<V>,
                                                  canChange: bool, cmp: (V, V) -> int, name: string, r: R)
    requires FieldsSchema(props, pk, invoke, canChange, cmp).hasGetter(name)
    ensures FindProperty(props, name).Some? && props[FindProperty(props, name).value].readMethod.Some?
    ensures FieldsSchema(props, pk, invoke, canChange, cmp).acc(name, r)
         == invoke(props[FindProperty(props, name).value].readMethod.value, r)
  {
  }

  /** addIndex on a Fields container succeeds exactly when every
      requested name that is not yet indexed has a readable property. */
  lemma AddIndexNeedsReadableProperty<K, R, M, V>(props: seq<Property<M>>, pk: R -> K, invoke: (M, R) -> Option<V>,
                                                  canChange: bool, cmp: (V, V) -> int,
                                                  s: Store<K, R, string, V>, names: seq<string>)
    ensures AddIndex(FieldsSchema(props, pk, invoke, canChange, cmp), s, Some(names)).Success? <==>
              forall i | 0 <= i < |names| && names[i] !in s.indexes ::
                FindProperty(props, names[i]).Some? && props[FindProperty(props, names[i]).value].readMethod.Some?
  {
  }

  /** new MultiIndexContainerFields(clz, records): an empty container with
      an empty getter cache, followed by addAll(records). The cache plays no
      part in the data, so this is the same construction as
      `EnumContainer.New`, as in the two Java subclasses. */
  function New<K(==), R, V(==)>(sch: Schema<K, R, string, V>, records: Option<seq<R>>): (s: Store<K, R, string, V>)
    ensures s.indexes == map[]
    ensures records.None? ==> s.data == map[]
    ensures records.Some? ==> s.data.Keys == PkSet(sch, records.value)
    ensures records.Some? ==> forall i | 0 <= i < |records.value| && LastWithPk(sch, records.value, i) ::
              s.data[sch.pk(records.value[i])] == records.value[i]
    ensures Consistent(sch, s)
  {
    AddAll(sch, Empty(), records)
  }

  // ------------------------------------------------------------------
  // Builders of lookup rules
  // ------------------------------------------------------------------

  /** eq(indexName, value). */
  function Eq<V>(indexName: string, value: Option<V>): (e: Expr<string, V>)
    ensures e.index == indexName && e.operator == Equal && e.values == Some([value])
  {
    ExpressionFields.Values(Equal, indexName, Some([value]))
  }

  /** gt(indexName, value, inclusive). */
  function Gt3<V>(indexName: string, value: Option<V>, inclusive: bool): (e: Expr<string, V>)
    ensures e.index == indexName && e.operator == Greater && e.valueFrom == value
  {
    ExpressionFields.Single(Greater, indexName, value, inclusive)
  }

  /** gt(indexName, value): gt(indexName, value, false). Since the single-value
      constructor drops `inclusive`, this is the very rule the inclusive form
      builds. */
  function Gt<V>(indexName: string, value: Option<V>): (e: Expr<string, V>)
    ensures e.index == indexName && e.operator == Greater && e.valueFrom == value && e.valueTo == value
    ensures e.inclusiveFrom && e == Gt3(indexName, value, true)
  {
    Gt3(indexName, value, false)
  }

  /** lt(indexName, value, inclusive). */
  function Lt3<V>(indexName: string, value: Option<V>, inclusive: bool): (e: Expr<string, V>)
    ensures e.index == indexName && e.operator == Less && e.valueTo == value
  {
    ExpressionFields.Single(Less, indexName, value, inclusive)
  }

  /** lt(indexName, value): lt(indexName, value, false), the very rule the inclusive
      form builds; the value is stored as both bounds. */
  function Lt<V>(indexName: string, value: Option<V>): (e: Expr<string, V>)
    ensures e.index == indexName && e.operator == Less && e.valueFrom == value && e.valueTo == value
    ensures e.inclusiveFrom && e == Lt3(indexName, value, true)
  {
    Lt3(indexName, value, false)
  }

  /** between(indexName, valueFrom, inclusiveFrom, valueTo, inclusiveTo). */
  function Between5<V>(indexName: string, valueFrom: Option<V>, inclusiveFrom: bool, valueTo: Option<V>, inclusiveTo: bool): (e: Expr<string, V>)
    ensures e.index == indexName && e.operator == Between && e.valueFrom == valueFrom && e.valueTo == valueFrom
  {
    ExpressionFields.Range(Between, indexName, valueFrom, inclusiveFrom, valueTo, inclusiveTo)
  }

  /** between(indexName, valueFrom, valueTo). */
  function Between3<V>(indexName: string, valueFrom: Option<V>, valueTo: Option<V>): (e: Expr<string, V>)
    ensures e.index == indexName && e.operator == Between && !e.inclusiveFrom && !e.inclusiveTo
    ensures e.valueFrom == valueFrom && e.valueTo == valueFrom
    ensures e == Between5(indexName, valueFrom, false, valueFrom, false)
  {
    Between5(indexName, valueFrom, false, valueTo, false)
  }

  /** isNull(indexName): eq(indexName, null). */
  function IsNullRule<V>(indexName: string): Expr<string, V> {
    Eq(indexName, None)
  }

  /** isNotNull(indexName). */
  function IsNotNullRule<V>(indexName: string): Expr<string, V> {
    ExpressionFields.Single(IsNotNull, indexName, None, false)
  }

  /** isNull on a property name is an EQUAL rule over the array holding only
      null and selects exactly the null values; isNotNull selects exactly
      the non-null ones. Neither can fail on its operands. */
  lemma NullRulesSelect<V>(cmp: (V, V) -> int, indexName: string, w: Option<V>)
    ensures IsNullRule<V>(indexName).index == indexName && IsNullRule<V>(indexName).operator == Equal
         && IsNullRule<V>(indexName).values == Some([None])
    ensures IsNotNullRule<V>(indexName).index == indexName && IsNotNullRule<V>(indexName).operator == IsNotNull
    ensures LeafFault(cmp, IsNullRule<V>(indexName)).None? && (Selects(cmp, IsNullRule<V>(indexName), w) <==> w.None?)
    ensures LeafFault(cmp, IsNotNullRule<V>(indexName)).None? && (Selects(cmp, IsNotNullRule<V>(indexName), w) <==> w.Some?)
  {
  }

  /** in(indexName, values). */
  function InRule<V>(indexName: string, values: Option<seq<Option<V>>>): (e: Expr<string, V>)
    ensures e.index == indexName && e.operator == In && e.values == values
  {
    ExpressionFields.Values(In, indexName, values)
  }
}
