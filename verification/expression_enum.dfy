/** ExpressionEnum: expressions over indexes given by Indexable constants
    (the type parameter `I`). */
module ExpressionEnum {
  import opened Results
  import opened Expression

  /** The single-value constructor: the value becomes the lower bound, which
      is marked inclusive whatever `inclusive` says. */
  function Single<I, V>(operator: Operator, index: I, value: Option<V>, inclusive: bool): (e: Expr<I, V>)
    ensures e.index == index && e.operator == operator
    ensures e.valueFrom == value && e.inclusiveFrom && !e.inclusiveTo
    ensures e.valueTo == value
    ensures e.values.None?
  {
    RangeExpr(index, operator, value, true, None, false)
  }

  /** The values constructor forwards operator, index and array unchanged. */
  function Values<I, V>(operator: Operator, index: I, values: Option<seq<Option<V>>>): (e: Expr<I, V>)
    ensures e == ValuesExpr(index, operator, values)
    ensures e.values == values
  {
    ValuesExpr(index, operator, values)
  }

  /** The range constructor forwards all six arguments to the base constructor. */
  function Range<I, V>(operator: Operator, index: I, valueFrom: Option<V>, inclusiveFrom: bool,
                       valueTo: Option<V>, inclusiveTo: bool): (e: Expr<I, V>)
    ensures e == RangeExpr(index, operator, valueFrom, inclusiveFrom, valueTo, inclusiveTo)
    ensures e.valueTo == valueFrom
  {
    RangeExpr(index, operator, valueFrom, inclusiveFrom, valueTo, inclusiveTo)
  }

  /** The `inclusive` argument of the single-value constructor has no effect. */
  lemma SingleIgnoresInclusive<I, V>(operator: Operator, index: I, value: Option<V>)
    ensures Single(operator, index, value, true) == Single(operator, index, value, false)
  {
  }
}
