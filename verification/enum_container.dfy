/** MultiIndexContainerEnum: a container whose indexes are Indexable
    constants. An index constant reads its value from a record itself
    (getIndexedValue), so a data getter exists for every constant. */
module EnumContainer {
  import opened Results
  import opened Expression
  import opened MultiIndexContainer
  import ExpressionEnum

  /** The schema of an Enum container: `getIndexedValue(i, r)` is
      Indexable.getIndexedValue of constant `i` on record `r`. */
  function EnumSchema<K(==), R, I(==), V(==)>(pk: R -> K, getIndexedValue: (I, R) -> Option<V>, canChange: bool, cmp: (V, V) -> int): (sch: Schema<K, R, I, V>)
    ensures sch.pk == pk && sch.acc == getIndexedValue && sch.canChange == canChange && sch.cmp == cmp
  {
    Schema(pk, getIndexedValue, (i: I) => true, canChange, cmp)
  }

  /** Every constant has a data getter, so addIndex never fails in an Enum
      container, and it leaves a consistent container consistent with every
      requested index established. */
  lemma AddIndexNeverFails<K, R, I, V>(pk: R -> K, get: (I, R) -> Option<V>, canChange: bool, cmp: (V, V) -> int,
                                       s: Store<K, R, I, V>, ids: Option<seq<I>>)
    requires Consistent(EnumSchema(pk, get, canChange, cmp), s)
    ensures AddIndex(EnumSchema(pk, get, canChange, cmp), s, ids).Success?
    ensures var r := AddIndex(EnumSchema(pk, get, canChange, cmp), s, ids).value;
            && Consistent(EnumSchema(pk, get, canChange, cmp), r)
            && r.data == s.data
            && (ids.Some? ==> forall i | 0 <= i < |ids.value| :: ids.value[i] in r.indexes)
  {
    var sch := EnumSchema(pk, get, canChange, cmp);
    if ids.Some? && |ids.value| > 0 {
      assert forall i | 0 <= i < |ids.value| :: sch.hasGetter(ids.value[i]);
    }
  }

  /** new MultiIndexContainerEnum(records): an empty container followed by
      addAll(records); null stands for no records. No index exists yet. */
  function New<K(==), R, I(==), V(==)>(sch: Schema<K, R, I, V>, records: Option<seq<R>>): (s: Store<K, R, I, V>)
    ensures s.indexes == map[]
    ensures records.None? ==> s.data == map[]
    ensures records.Some? ==> s.data.Keys == PkSet(sch, records.value)
    ensures records.Some? ==> forall i | 0 <= i < |records.value| && LastWithPk(sch, records.value, i) ::
              s.data[sch.pk(records.value[i])] == records.value[i]
    ensures Consistent(sch, s)
  {
    AddAll(sch, Empty(), records)
  }

  // ------------------------------------------------------------------
  // Builders of lookup rules
  // ------------------------------------------------------------------

  /** eq(index, value): an EQUAL rule over the one-element array {value}. */
  function Eq<I, V>(index: I, value: Option<V>): (e: Expr<I, V>)
    ensures e.index == index && e.operator == Equal && e.values == Some([value])
  {
    ExpressionEnum.Values(Equal, index, Some([value]))
  }

  /** gt(index, value, inclusive). */
  function Gt3<I, V>(index: I, value: Option<V>, inclusive: bool): (e: Expr<I, V>)
    ensures e.index == index && e.operator == Greater && e.valueFrom == value
  {
    ExpressionEnum.Single(Greater, index, value, inclusive)
  }

  /** gt(index, value): gt(index, value, false). Since the single-value
      constructor drops `inclusive`, this is the very rule the inclusive form
      builds. */
  function Gt<I, V>(index: I, value: Option<V>): (e: Expr<I, V>)
    ensures e.index == index && e.operator == Greater && e.valueFrom == value && e.valueTo == value
    ensures e.inclusiveFrom && e == Gt3(index, value, true)
  {
    Gt3(index, value, false)
  }

  /** lt(index, value, inclusive). The value is the rule's lower bound, and
      the upper bound the lookup reads is that same value. */
  function Lt3<I, V>(index: I, value: Option<V>, inclusive: bool): (e: Expr<I, V>)
    ensures e.index == index && e.operator == Less && e.valueTo == value
  {
    ExpressionEnum.Single(Less, index, value, inclusive)
  }

  /** lt(index, value): lt(index, value, false), the very rule the inclusive
      form builds; the value is stored as both bounds. */
  function Lt<I, V>(index: I, value: Option<V>): (e: Expr<I, V>)
    ensures e.index == index && e.operator == Less && e.valueFrom == value && e.valueTo == value
    ensures e.inclusiveFrom && e == Lt3(index, value, true)
  {
    Lt3(index, value, false)
  }

  /** between(index, valueFrom, inclusiveFrom, valueTo, inclusiveTo). */
  function Between5<I, V>(index: I, valueFrom: Option<V>, inclusiveFrom: bool, valueTo: Option<V>, inclusiveTo: bool): (e: Expr<I, V>)
    ensures e.index == index && e.operator == Between && e.valueFrom == valueFrom && e.valueTo == valueFrom
  {
    ExpressionEnum.Range(Between, index, valueFrom, inclusiveFrom, valueTo, inclusiveTo)
  }

  /** between(index, valueFrom, valueTo): both bounds declared exclusive. */
  function Between3<I, V>(index: I, valueFrom: Option<V>, valueTo: Option<V>): (e: Expr<I, V>)
    ensures e.index == index && e.operator == Between && !e.inclusiveFrom && !e.inclusiveTo
    ensures e.valueFrom == valueFrom && e.valueTo == valueFrom
    ensures e == Between5(index, valueFrom, false, valueFrom, false)
  {
    Between5(index, valueFrom, false, valueTo, false)
  }

  /** isNull(index): eq(index, null). */
  function IsNullRule<I, V>(index: I): Expr<I, V> {
    Eq(index, None)
  }

  /** isNotNull(index): an IS_NOT_NULL rule with a null operand. */
  function IsNotNullRule<I, V>(index: I): Expr<I, V> {
    ExpressionEnum.Single(IsNotNull, index, None, false)
  }

  /** in(index, values): an IN rule over the given array, null included. */
  function InRule<I, V>(index: I, values: Option<seq<Option<V>>>): (e: Expr<I, V>)
    ensures e.index == index && e.operator == In && e.values == values
  {
    ExpressionEnum.Values(In, index, values)
  }

  // ------------------------------------------------------------------
  // What the built rules select
  // ------------------------------------------------------------------

  /** eq selects exactly the records whose value equals the given one (null
      included) and never fails on its operands. */
  lemma EqSelects<I, V>(cmp: (V, V) -> int, index: I, value: Option<V>, w: Option<V>)
    ensures LeafFault(cmp, Eq(index, value)).None?
    ensures Selects(cmp, Eq(index, value), w) <==> w == value
  {
  }

  /** isNull is an EQUAL rule over the array holding only null and selects
      exactly the null values; isNotNull is an IS_NOT_NULL rule and selects
      exactly the non-null ones. Neither can fail on its operands. */
  lemma NullRulesSelect<I, V>(cmp: (V, V) -> int, index: I, w: Option<V>)
    ensures IsNullRule<I, V>(index).index == index && IsNullRule<I, V>(index).operator == Equal
         && IsNullRule<I, V>(index).values == Some([None])
    ensures IsNotNullRule<I, V>(index).index == index && IsNotNullRule<I, V>(index).operator == IsNotNull
    ensures LeafFault(cmp, IsNullRule<I, V>(index)).None? && (Selects(cmp, IsNullRule<I, V>(index), w) <==> w.None?)
    ensures LeafFault(cmp, IsNotNullRule<I, V>(index)).None? && (Selects(cmp, IsNotNullRule<I, V>(index), w) <==> w.Some?)
  {
  }

  /** in fails exactly on a null array and otherwise selects its members. */
  lemma InSelects<I, V>(cmp: (V, V) -> int, index: I, values: Option<seq<Option<V>>>, w: Option<V>)
    ensures LeafFault(cmp, InRule(index, values)).Some? <==> values.None?
    ensures values.Some? ==> (Selects(cmp, InRule(index, values), w) <==> w in values.value)
  {
  }

  /** gt fails exactly on a null value; otherwise it selects every value
      that does not compare below it, the value itself included, whatever
      `inclusive` says. */
  lemma GtSelects<I, V>(cmp: (V, V) -> int, index: I, value: Option<V>, inclusive: bool, w: Option<V>)
    ensures LeafFault(cmp, Gt3(index, value, inclusive)).Some? <==> value.None?
    ensures value.Some? ==> (Selects(cmp, Gt3(index, value, inclusive), w) <==> w.Some? && cmp(w.value, value.value) >= 0)
  {
  }

  /** lt fails exactly on a null value; otherwise it selects the null values
      and every value that does not compare above it, the value itself
      included, whatever `inclusive` says. */
  lemma LtSelects<I, V>(cmp: (V, V) -> int, index: I, value: Option<V>, inclusive: bool, w: Option<V>)
    ensures LeafFault(cmp, Lt3(index, value, inclusive)).Some? <==> value.None?
    ensures value.Some? ==> (Selects(cmp, Lt3(index, value, inclusive), w) <==> w.None? || cmp(w.value, value.value) <= 0)
  {
  }

  /** between fails on a null lower bound (a null upper bound is never
      looked at) and, since both stored bounds are the lower one, on a lower
      bound the comparator finds greater than itself; otherwise, for a
      comparator that finds the bound equal to itself, it selects only the
      values that compare equal to the lower bound. */
  lemma BetweenSelects<I, V>(cmp: (V, V) -> int, index: I, valueFrom: Option<V>, inclusiveFrom: bool,
                             valueTo: Option<V>, inclusiveTo: bool, w: Option<V>)
    ensures valueFrom.None? ==> LeafFault(cmp, Between5(index, valueFrom, inclusiveFrom, valueTo, inclusiveTo)) == Some(NullPointer)
    ensures valueFrom.Some? ==>
              (LeafFault(cmp, Between5(index, valueFrom, inclusiveFrom, valueTo, inclusiveTo)).Some? <==> cmp(valueFrom.value, valueFrom.value) > 0)
    ensures valueFrom.Some? && cmp(valueFrom.value, valueFrom.value) == 0 ==>
              (Selects(cmp, Between5(index, valueFrom, inclusiveFrom, valueTo, inclusiveTo), w) <==> w.Some? && cmp(w.value, valueFrom.value) == 0)
  {
  }
}
