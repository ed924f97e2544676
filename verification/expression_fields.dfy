/** ExpressionFields: expressions over indexes named by bean property
    names. */
module ExpressionFields {
  import opened Results
  import opened Expression

  /** The single-value constructor: the value becomes the lower bound, which
      is marked inclusive whatever `inclusive` says. */
  function Single<V>(operator: Operator, indexName: string, value: Option<V>, inclusive: bool): (e: Expr<string, V>)
    ensures e.index == indexName && e.operator == operator
    ensures e.valueFrom == value && e.inclusiveFrom && !e.inclusiveTo
    ensures e.valueTo == value
    ensures e.values.None?
  {
    RangeExpr(indexName, operator, value, true, None, false)
  }

  /** The range constructor forwards its arguments to the base constructor.
      It matches `ExpressionEnum.Range` except for the index type, as the two
      Java subclasses do. */
  function Range<V>(operator: Operator, indexName: string, valueFrom: Option<V>, inclusiveFrom: bool,
                    valueTo: Option<V>, inclusiveTo: bool): (e: Expr<string, V>)
    ensures e == RangeExpr(indexName, operator, valueFrom, inclusiveFrom, valueTo, inclusiveTo)
    ensures e.valueTo == valueFrom
  {
    RangeExpr(indexName, operator, valueFrom, inclusiveFrom, valueTo, inclusiveTo)
  }

  /** The values constructor forwards the value array as it is, like
      `ExpressionEnum.Values`. */
  function Values<V>(operator: Operator, indexName: string, values: Option<seq<Option<V>>>): (e: Expr<string, V>)
    ensures e == ValuesExpr(indexName, operator, values)
    ensures e.values == values
  {
    ValuesExpr(indexName, operator, values)
  }

  /** The `inclusive` argument of the single-value constructor has no effect. */
  lemma SingleIgnoresInclusive<V>(operator: Operator, indexName: string, value: Option<V>)
    ensures Single(operator, indexName, value, true) == Single(operator, indexName, value, false)
  {
  }
}
