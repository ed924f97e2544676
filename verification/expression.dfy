/** The lookup rule of a query: which index to consult, which operator to
    apply and the operand values. An expression is immutable; its getters are
    the datatype's destructors. */
module Expression {
  import opened Results

  /** LOOKUP_OPERATOR. */
  datatype Operator = Equal | Between | Less | Greater | IsNotNull | IsNull | In

  /** LOOKUP_OPERATOR.values(), in declaration order. */
  function Operators(): (ops: seq<Operator>)
    ensures |ops| == 7
    ensures forall op: Operator :: op in ops
    ensures forall i, j | 0 <= i < j < |ops| :: ops[i] != ops[j]
    ensures forall i | 0 <= i < |ops| :: Ordinal(ops[i]) == i
    ensures forall op: Operator :: ops[Ordinal(op)] == op
  {
    var ops := [Equal, Between, Less, Greater, IsNotNull, IsNull, In];
    assert forall op: Operator :: op in ops by {
      forall op: Operator ensures op in ops {
        assert ops[Ordinal(op)] == op;
      }
    }
    ops
  }

  /** LOOKUP_OPERATOR.ordinal(): the position in the declaration. */
  function Ordinal(op: Operator): (n: nat)
    ensures n < 7
  {
    match op
    case Equal => 0
    case Between => 1
    case Less => 2
    case Greater => 3
    case IsNotNull => 4
    case IsNull => 5
    case In => 6
  }

  /** The fields of an expression. `values` is the operand array of
      EQUAL/IN/IS_NULL; `None` in any `Option` field is Java's null. */
  datatype Expr<L, V> = Expr(
    index: L,
    operator: Operator,
    valueFrom: Option<V>,
    inclusiveFrom: bool,
    valueTo: Option<V>,
    inclusiveTo: bool,
    values: Option<seq<Option<V>>>)

  /** The range constructor. The upper bound is assigned from `valueFrom`,
      so the `valueTo` argument is never stored. */
  function RangeExpr<L, V>(index: L, operator: Operator, valueFrom: Option<V>, inclusiveFrom: bool,
                           valueTo: Option<V>, inclusiveTo: bool): (e: Expr<L, V>)
    ensures e.index == index && e.operator == operator
    ensures e.valueFrom == valueFrom && e.inclusiveFrom == inclusiveFrom && e.inclusiveTo == inclusiveTo
    ensures e.valueTo == e.valueFrom
    ensures e.values.None?
  {
    Expr(index, operator, valueFrom, inclusiveFrom, valueFrom, inclusiveTo, None)
  }

  /** The values constructor: the range fields keep their defaults (null and
      false). */
  function ValuesExpr<L, V>(index: L, operator: Operator, values: Option<seq<Option<V>>>): (e: Expr<L, V>)
    ensures e.index == index && e.operator == operator && e.values == values
    ensures e.valueFrom.None? && e.valueTo.None? && !e.inclusiveFrom && !e.inclusiveTo
  {
    Expr(index, operator, None, false, None, false, values)
  }

  /** A range expression does not depend on the `valueTo` it was given:
      two calls that differ only there build the same expression. */
  lemma RangeIgnoresValueTo<L, V>(index: L, operator: Operator, valueFrom: Option<V>, inclusiveFrom: bool,
                                  valueTo1: Option<V>, valueTo2: Option<V>, inclusiveTo: bool)
    ensures RangeExpr(index, operator, valueFrom, inclusiveFrom, valueTo1, inclusiveTo)
         == RangeExpr(index, operator, valueFrom, inclusiveFrom, valueTo2, inclusiveTo)
  {
  }

  /** The two constructors meet only at null: a range expression never
      carries a value array and a values expression never carries a bound,
      so they build the same expression exactly when the array is null and
      the range has a null lower bound and both flags false. */
  lemma ConstructorsOverlap<L, V>(index: L, operator: Operator, valueFrom: Option<V>, inclusiveFrom: bool,
                                  valueTo: Option<V>, inclusiveTo: bool, values: Option<seq<Option<V>>>)
    ensures RangeExpr(index, operator, valueFrom, inclusiveFrom, valueTo, inclusiveTo) == ValuesExpr(index, operator, values)
        <==> values.None? && valueFrom.None? && !inclusiveFrom && !inclusiveTo
  {
  }
}
