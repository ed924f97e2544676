/** Criteria: a lookup expression, or a conjunction or disjunction of child
    criteria, evaluated against a container. Two versions of the junction
    exist; both are covered by one evaluator with two switches: the plain
    version visits the children in their set's iteration order one by one,
    the optimised version first sorts a conjunction's children by an
    estimated cost and may evaluate a disjunction's children on a thread
    pool. */
module Junction {
  import opened Results
  import opened Expression
  import opened MultiIndexContainer

  /** ICriterion. `children` lists a junction's child set in the order the
      set iterates it. */
  datatype Crit<L, V> =
    | Leaf(expr: Expr<L, V>)
    | And(children: seq<Crit<L, V>>)
    | Or(children: seq<Crit<L, V>>)

  /** The evaluation switches: whether a conjunction sorts its children by
      `cost` (the container's count of indexed values for a criterion) and
      whether a disjunction runs its children in parallel. */
  datatype Config<!L, !V> = Config(sortByCost: bool, parallel: bool, cost: Crit<L, V> -> nat)

  /** new Conjunction(): no children yet. */
  function Conjunction<L, V>(): Crit<L, V> {
    And([])
  }

  /** new Disjunction(): no children yet. */
  function Disjunction<L, V>(): Crit<L, V> {
    Or([])
  }

  /** A new junction has no children, so its first add leaves exactly that
      child, under the junction's own operator. */
  lemma NewJunctionsStartEmpty<L, V>(child: Crit<L, V>)
    ensures Conjunction<L, V>().And? && Conjunction<L, V>().children == []
    ensures Disjunction<L, V>().Or? && Disjunction<L, V>().children == []
    ensures AddChild(Conjunction(), child) == And([child])
    ensures AddChild(Disjunction(), child) == Or([child])
  {
  }

  /** No child is listed twice. */
  predicate Distinct<T(==)>(cs: seq<T>) {
    forall i, j | 0 <= i < j < |cs| :: cs[i] != cs[j]
  }

  /** Junction.add(child): set insertion into the children; the junction
      itself is returned for chaining. */
  function AddChild<L(==), V(==)>(j: Crit<L, V>, child: Crit<L, V>): (r: Crit<L, V>)
    requires !j.Leaf?
    ensures r.And? == j.And? && r.Or? == j.Or?
    ensures child in r.children
    ensures forall x | x in j.children :: x in r.children
    ensures forall x | x in r.children :: x in j.children || x == child
    ensures child in j.children ==> r == j
    ensures Distinct(j.children) ==> Distinct(r.children)
  {
    if child in j.children then j
    else if j.And? then And(j.children + [child])
    else Or(j.children + [child])
  }

  /** Adding the same child twice is adding it once. */
  lemma AddIdempotent<L, V>(j: Crit<L, V>, child: Crit<L, V>)
    requires !j.Leaf?
    ensures AddChild(AddChild(j, child), child) == AddChild(j, child)
  {
  }

  // ------------------------------------------------------------------
  // Ordering a conjunction's children by cost
  // ------------------------------------------------------------------

  /** Costs never decrease along `cs`. */
  ghost predicate SortedByCost<T>(cost: T -> nat, cs: seq<T>) {
    forall i, j | 0 <= i < j < |cs| :: cost(cs[i]) <= cost(cs[j])
  }

  /** The elements of `cs` whose cost is `n`, in their order in `cs`. */
  function WithCost<T>(cost: T -> nat, cs: seq<T>, n: nat): seq<T> {
    if |cs| == 0 then []
    else WithCost(cost, cs[..|cs| - 1], n) + (if cost(cs[|cs| - 1]) == n then [cs[|cs| - 1]] else [])
  }

  /** Inserts `x` into a sorted list after every element whose cost is not
      above its own. */
  function Insert<T>(cost: T -> nat, x: T, s: seq<T>): (r: seq<T>)
    requires SortedByCost(cost, s)
    ensures SortedByCost(cost, r)
    ensures multiset(r) == multiset(s) + multiset{x}
    ensures forall n: nat :: WithCost(cost, r, n) == WithCost(cost, s, n) + (if cost(x) == n then [x] else [])
  {
    if |s| == 0 then [x]
    else if cost(s[|s| - 1]) <= cost(x) then
      InsertAtEnd(cost, x, s);
      s + [x]
    else
      var init := s[..|s| - 1];
      var last := s[|s| - 1];
      assert s == init + [last];
      var r' := Insert(cost, x, init);
      InsertPast(cost, x, init, last, r');
      r' + [last]
  }

  /** Appending an element whose cost is not below the last one keeps a
      sorted list sorted and adds the element to its own cost class. */
  lemma InsertAtEnd<T>(cost: T -> nat, x: T, s: seq<T>)
    requires SortedByCost(cost, s) && |s| > 0 && cost(s[|s| - 1]) <= cost(x)
    ensures SortedByCost(cost, s + [x])
    ensures forall n: nat :: WithCost(cost, s + [x], n) == WithCost(cost, s, n) + (if cost(x) == n then [x] else [])
  {
    assert (s + [x])[..|s|] == s;
  }

  /** Inserting before a costlier last element: the facts about the
      insertion into the rest carry over to the whole list. */
  lemma InsertPast<T>(cost: T -> nat, x: T, init: seq<T>, last: T, r': seq<T>)
    requires SortedByCost(cost, init + [last]) && SortedByCost(cost, r') && cost(x) < cost(last)
    requires multiset(r') == multiset(init) + multiset{x}
    requires forall n: nat :: WithCost(cost, r', n) == WithCost(cost, init, n) + (if cost(x) == n then [x] else [])
    ensures SortedByCost(cost, r' + [last])
    ensures multiset(r' + [last]) == multiset(init + [last]) + multiset{x}
    ensures forall n: nat :: WithCost(cost, r' + [last], n) == WithCost(cost, init + [last], n) + (if cost(x) == n then [x] else [])
  {
    forall y | y in r' ensures y in init || cost(y) < cost(last) {
      assert y in multiset(r');
    }
    InsertSorted(cost, r', last, init);
    InsertWithCost(cost, x, init, last, r');
  }

  /** The step of Insert that passes over a costlier last element keeps
      every cost class in order. */
  lemma InsertWithCost<T>(cost: T -> nat, x: T, init: seq<T>, last: T, r': seq<T>)
    requires cost(x) < cost(last)
    requires forall n: nat :: WithCost(cost, r', n) == WithCost(cost, init, n) + (if cost(x) == n then [x] else [])
    ensures forall n: nat :: WithCost(cost, r' + [last], n) == WithCost(cost, init + [last], n) + (if cost(x) == n then [x] else [])
  {
    forall n: nat
      ensures WithCost(cost, r' + [last], n) == WithCost(cost, init + [last], n) + (if cost(x) == n then [x] else [])
    {
      assert (r' + [last])[..|r'|] == r';
      assert (init + [last])[..|init|] == init;
    }
  }

  /** Appending an element whose cost is not below a sorted list's keeps it
      sorted. */
  lemma InsertSorted<T>(cost: T -> nat, r': seq<T>, last: T, init: seq<T>)
    requires SortedByCost(cost, r') && SortedByCost(cost, init + [last])
    requires forall y | y in r' :: y in init || cost(y) < cost(last)
    ensures SortedByCost(cost, r' + [last])
  {
    forall y | y in r' ensures cost(y) <= cost(last) {
      if y in init {
        var i :| 0 <= i < |init| && init[i] == y;
        assert (init + [last])[i] == y && (init + [last])[|init|] == last;
      }
    }
    forall i, j | 0 <= i < j < |r' + [last]| ensures cost((r' + [last])[i]) <= cost((r' + [last])[j]) {
      if j == |r'| {
        assert (r' + [last])[i] == r'[i] && r'[i] in r';
      }
    }
  }

  /** The children in the order the optimised conjunction visits them:
      Collections.sort with a comparator subtracting the costs, a stable
      sort. The result is sorted by cost, and elements of equal cost keep
      their relative order. */
  function SortByCost<T>(cost: T -> nat, cs: seq<T>): (r: seq<T>)
    ensures SortedByCost(cost, r)
    ensures multiset(r) == multiset(cs)
    ensures forall n: nat :: WithCost(cost, r, n) == WithCost(cost, cs, n)
  {
    if |cs| == 0 then []
    else
      assert cs == cs[..|cs| - 1] + [cs[|cs| - 1]];
      Insert(cost, cs[|cs| - 1], SortByCost(cost, cs[..|cs| - 1]))
  }

  // ------------------------------------------------------------------
  // Evaluation: getRecordInstances(container)
  // ------------------------------------------------------------------

  /** criterion.getRecordInstances(container). A leaf asks the container to
      look its expression up; a junction combines its children. A fault is
      the exception that escapes the call. In a consistent container every
      key returned is a stored one. */
  function Eval<K(==), R, L(==), V(==)>(cfg: Config<L, V>, sch: Schema<K, R, L, V>, s: Store<K, R, L, V>, c: Crit<L, V>): (r: Result<set<K>>)
    ensures Consistent(sch, s) && r.Success? ==> r.value <= s.data.Keys
    decreases c, 1
  {
    match c
    case Leaf(e) => GetRecordInstances(sch, s, Some(e))
    case And(cs) =>
      var order := if cfg.sortByCost then SortByCost(cfg.cost, cs) else cs;
      assert forall x | x in order :: x in cs by {
        forall x | x in order ensures x in cs {
          assert x in multiset(order);
        }
      }
      AndFrom(cfg, sch, s, c, order, None)
    case Or(cs) =>
      if cfg.parallel then Success(OrParallel(cfg, sch, s, c, cs))
      else OrFrom(cfg, sch, s, c, cs)
  }

  /** Conjunction.getRecordInstances from the child `cs[0]` on: the first
      child's result is kept (`acc` is None before it), every later one is
      intersected in, and the walk stops as soon as the result is empty. A
      conjunction without children yields the empty set. */
  function AndFrom<K(==), R, L(==), V(==)>(cfg: Config<L, V>, sch: Schema<K, R, L, V>, s: Store<K, R, L, V>,
                                           ghost parent: Crit<L, V>, cs: seq<Crit<L, V>>, acc: Option<set<K>>): (r: Result<set<K>>)
    requires !parent.Leaf?
    requires forall x | x in cs :: x in parent.children
    ensures acc.Some? && r.Success? ==> r.value <= acc.value
    ensures Consistent(sch, s) && (acc.Some? ==> acc.value <= s.data.Keys) && r.Success? ==> r.value <= s.data.Keys
    decreases parent, 0, |cs|
  {
    if |cs| == 0 then Success(if acc.None? then {} else acc.value)
    else
      assert cs[0] in parent.children;
      var first :- Eval(cfg, sch, s, cs[0]);
      var next := if acc.None? then first else acc.value * first;
      if next == {} then Success({})
      else AndFrom(cfg, sch, s, parent, cs[1..], Some(next))
  }

  /** Disjunction.getRecordInstances, one child after the other: the union
      of the children's results; the first exception escapes. */
  function OrFrom<K(==), R, L(==), V(==)>(cfg: Config<L, V>, sch: Schema<K, R, L, V>, s: Store<K, R, L, V>,
                                          ghost parent: Crit<L, V>, cs: seq<Crit<L, V>>): (r: Result<set<K>>)
    requires !parent.Leaf?
    requires forall x | x in cs :: x in parent.children
    ensures Consistent(sch, s) && r.Success? ==> r.value <= s.data.Keys
    decreases parent, 0, |cs|
  {
    if |cs| == 0 then Success({})
    else
      assert cs[0] in parent.children;
      var first :- Eval(cfg, sch, s, cs[0]);
      var rest :- OrFrom(cfg, sch, s, parent, cs[1..]);
      Success(first + rest)
  }

  /** Disjunction.getRecordInstances on the thread pool: every child runs as
      a task and the pool waits for each; a task that throws is reported and
      dropped, so its child contributes nothing and the disjunction itself
      never fails. */
  function OrParallel<K(==), R, L(==), V(==)>(cfg: Config<L, V>, sch: Schema<K, R, L, V>, s: Store<K, R, L, V>,
                                              ghost parent: Crit<L, V>, cs: seq<Crit<L, V>>): (r: set<K>)
    requires !parent.Leaf?
    requires forall x | x in cs :: x in parent.children
    ensures Consistent(sch, s) ==> r <= s.data.Keys
    decreases parent, 0, |cs|
  {
    if |cs| == 0 then {}
    else
      assert cs[0] in parent.children;
      var first := Eval(cfg, sch, s, cs[0]);
      (if first.Success? then first.value else {}) + OrParallel(cfg, sch, s, parent, cs[1..])
  }

  /** IMultiIndexContainer.find(criterion): empty for null, otherwise the
      criterion's own evaluation. */
  function Find<K(==), R, L(==), V(==)>(cfg: Config<L, V>, sch: Schema<K, R, L, V>, s: Store<K, R, L, V>, c: Option<Crit<L, V>>): (r: Result<set<K>>)
    ensures c.None? ==> r == Success({})
    ensures c.Some? ==> r == Eval(cfg, sch, s, c.value)
    ensures Consistent(sch, s) && r.Success? ==> r.value <= s.data.Keys
  {
    if c.None? then Success({}) else Eval(cfg, sch, s, c.value)
  }

  // ------------------------------------------------------------------
  // What a criterion means
  // ------------------------------------------------------------------

  /** The keys a criterion describes, independent of any evaluation order:
      a leaf is the scan of all records, a conjunction the keys every child
      describes (none for no children), a disjunction the keys some child
      describes. */
  function Denote<K(==), R, L(==), V(==)>(sch: Schema<K, R, L, V>, s: Store<K, R, L, V>, c: Crit<L, V>): (d: set<K>)
    ensures d <= s.data.Keys
  {
    match c
    case Leaf(e) => Scan(sch, s.data, e)
    case And(cs) =>
      if |cs| == 0 then {}
      else set k | k in Denote(sch, s, cs[0]) && forall i | 0 <= i < |cs| :: k in Denote(sch, s, cs[i])
    case Or(cs) =>
      set i, k | 0 <= i < |cs| && k in Denote(sch, s, cs[i]) :: k
  }

  /** The keys of `a` that every criterion of `cs` describes. */
  function Meet<K(==), R, L(==), V(==)>(sch: Schema<K, R, L, V>, s: Store<K, R, L, V>, a: set<K>, cs: seq<Crit<L, V>>): (m: set<K>)
    ensures m <= a
    ensures forall k, x | k in m && x in cs :: k in Denote(sch, s, x)
    ensures forall k | k in a && (forall x | x in cs :: k in Denote(sch, s, x)) :: k in m
  {
    var m := set k | k in a && forall i | 0 <= i < |cs| :: k in Denote(sch, s, cs[i]);
    assert forall k | k in a && (forall x | x in cs :: k in Denote(sch, s, x)) :: k in m by {
      forall k | k in a && (forall x | x in cs :: k in Denote(sch, s, x)) ensures k in m {
        assert forall i | 0 <= i < |cs| :: cs[i] in cs;
      }
    }
    m
  }

  /** The keys some criterion of `cs` describes. */
  function Join<K(==), R, L(==), V(==)>(sch: Schema<K, R, L, V>, s: Store<K, R, L, V>, cs: seq<Crit<L, V>>): (u: set<K>)
    ensures forall x | x in cs :: Denote(sch, s, x) <= u
    ensures forall k | k in u :: exists x | x in cs :: k in Denote(sch, s, x)
  {
    var u := set i, k | 0 <= i < |cs| && k in Denote(sch, s, cs[i]) :: k;
    assert forall k | k in u :: exists x | x in cs :: k in Denote(sch, s, x) by {
      forall k | k in u ensures exists x | x in cs :: k in Denote(sch, s, x) {
        var i :| 0 <= i < |cs| && k in Denote(sch, s, cs[i]);
        assert cs[i] in cs;
      }
    }
    u
  }

  /** Every leaf names an established index and operands it accepts. */
  predicate AllLeavesOk<K(==), R, L(==), V(==)>(sch: Schema<K, R, L, V>, s: Store<K, R, L, V>, c: Crit<L, V>) {
    match c
    case Leaf(e) => e.index in s.indexes && LeafFault(sch.cmp, e).None?
    case And(cs) => forall i | 0 <= i < |cs| :: AllLeavesOk(sch, s, cs[i])
    case Or(cs) => forall i | 0 <= i < |cs| :: AllLeavesOk(sch, s, cs[i])
  }

  // ------------------------------------------------------------------
  // Evaluation agrees with the meaning
  // ------------------------------------------------------------------

  /** When every leaf can be looked up, evaluating a criterion in a
      consistent container yields its meaning, under every configuration:
      neither the cost order of a conjunction's children, nor its early
      exit, nor the parallel disjunction changes the result. */
  lemma {:induction false} EvalMeaning<K, R, L, V>(cfg: Config<L, V>, sch: Schema<K, R, L, V>, s: Store<K, R, L, V>, c: Crit<L, V>)
    requires Consistent(sch, s) && AllLeavesOk(sch, s, c)
    ensures Eval(cfg, sch, s, c) == Success(Denote(sch, s, c))
    decreases c, 1
  {
    match c
    case Leaf(e) =>
      LookupAgreesWithScan(sch, s, e);
    case And(cs) =>
      var order := if cfg.sortByCost then SortByCost(cfg.cost, cs) else cs;
      assert multiset(order) == multiset(cs);
      forall x | x in order ensures x in c.children && AllLeavesOk(sch, s, x) {
        assert x in multiset(order);
        var i :| 0 <= i < |cs| && cs[i] == x;
      }
      AndFromMeaning(cfg, sch, s, c, order, None);
      if |cs| > 0 {
        MeetIgnoresOrder(sch, s, cs, order);
      }
    case Or(cs) =>
      forall x | x in cs ensures x in c.children && AllLeavesOk(sch, s, x) {
        var i :| 0 <= i < |cs| && cs[i] == x;
      }
      if cfg.parallel {
        OrParallelMeaning(cfg, sch, s, c, cs);
      } else {
        OrFromMeaning(cfg, sch, s, c, cs);
      }
      JoinIsDenote(sch, s, cs);
  }

  /** The walk of a conjunction's children from `cs[0]` on. */
  lemma {:induction false} AndFromMeaning<K, R, L, V>(cfg: Config<L, V>, sch: Schema<K, R, L, V>, s: Store<K, R, L, V>,
                                                      parent: Crit<L, V>, cs: seq<Crit<L, V>>, acc: Option<set<K>>)
    requires Consistent(sch, s) && !parent.Leaf?
    requires forall x | x in cs :: x in parent.children && AllLeavesOk(sch, s, x)
    ensures AndFrom(cfg, sch, s, parent, cs, acc)
         == Success(if acc.Some? then Meet(sch, s, acc.value, cs)
                    else if |cs| == 0 then {} else Meet(sch, s, Denote(sch, s, cs[0]), cs))
    decreases parent, 0, |cs|
  {
    if |cs| > 0 {
      assert cs[0] in cs;
      EvalMeaning(cfg, sch, s, cs[0]);
      var first := Denote(sch, s, cs[0]);
      var next := if acc.None? then first else acc.value * first;
      var want := if acc.Some? then Meet(sch, s, acc.value, cs) else Meet(sch, s, first, cs);
      if next == {} {
        assert want <= next by {
          forall k | k in want ensures k in next {
            assert k in Denote(sch, s, cs[0]);
          }
        }
        assert want == {};
        assert AndFrom(cfg, sch, s, parent, cs, acc) == Success({});
      } else {
        assert forall x | x in cs[1..] :: x in cs;
        AndFromMeaning(cfg, sch, s, parent, cs[1..], Some(next));
        MeetStep(sch, s, acc, cs, next);
      }
    } else if acc.Some? {
      assert Meet(sch, s, acc.value, cs) == acc.value;
    }
  }

  /** Meeting the first child's keys into `acc` and then the rest is
      meeting all children into `acc`. */
  lemma MeetStep<K, R, L, V>(sch: Schema<K, R, L, V>, s: Store<K, R, L, V>, acc: Option<set<K>>, cs: seq<Crit<L, V>>, next: set<K>)
    requires |cs| > 0
    requires next == if acc.None? then Denote(sch, s, cs[0]) else acc.value * Denote(sch, s, cs[0])
    ensures Meet(sch, s, next, cs[1..])
         == if acc.Some? then Meet(sch, s, acc.value, cs) else Meet(sch, s, Denote(sch, s, cs[0]), cs)
  {
    var lhs := Meet(sch, s, next, cs[1..]);
    var rhs := if acc.Some? then Meet(sch, s, acc.value, cs) else Meet(sch, s, Denote(sch, s, cs[0]), cs);
    forall k | k in lhs ensures k in rhs {
      forall x | x in cs ensures k in Denote(sch, s, x) {
        if x != cs[0] {
          var i :| 0 <= i < |cs| && cs[i] == x;
          assert cs[1..][i - 1] == x;
        }
      }
    }
    forall k | k in rhs ensures k in lhs {
      assert cs[0] in cs;
      assert forall x | x in cs[1..] :: x in cs;
    }
  }

  /** The keys every child describes do not depend on the children's order. */
  lemma MeetIgnoresOrder<K, R, L, V>(sch: Schema<K, R, L, V>, s: Store<K, R, L, V>, cs: seq<Crit<L, V>>, order: seq<Crit<L, V>>)
    requires |cs| > 0 && multiset(order) == multiset(cs)
    ensures |order| > 0
    ensures Meet(sch, s, Denote(sch, s, order[0]), order) == Denote(sch, s, And(cs))
  {
    assert |order| == |multiset(order)| == |multiset(cs)| == |cs|;
    var lhs := Meet(sch, s, Denote(sch, s, order[0]), order);
    var rhs := Denote(sch, s, And(cs));
    forall k | k in lhs ensures k in rhs {
      forall i | 0 <= i < |cs| ensures k in Denote(sch, s, cs[i]) {
        assert cs[i] in multiset(order);
      }
    }
    forall k | k in rhs ensures k in lhs {
      forall x | x in order ensures k in Denote(sch, s, x) {
        assert x in multiset(cs);
        var i :| 0 <= i < |cs| && cs[i] == x;
      }
      assert order[0] in order;
    }
  }

  /** A disjunction denotes the keys some child describes. */
  lemma JoinIsDenote<K, R, L, V>(sch: Schema<K, R, L, V>, s: Store<K, R, L, V>, cs: seq<Crit<L, V>>)
    ensures Join(sch, s, cs) == Denote(sch, s, Or(cs))
  {
  }

  /** The sequential disjunction over children that all succeed. */
  lemma {:induction false} OrFromMeaning<K, R, L, V>(cfg: Config<L, V>, sch: Schema<K, R, L, V>, s: Store<K, R, L, V>,
                                                     parent: Crit<L, V>, cs: seq<Crit<L, V>>)
    requires Consistent(sch, s) && !parent.Leaf?
    requires forall x | x in cs :: x in parent.children && AllLeavesOk(sch, s, x)
    ensures OrFrom(cfg, sch, s, parent, cs) == Success(Join(sch, s, cs))
    decreases parent, 0, |cs|
  {
    if |cs| > 0 {
      assert cs[0] in cs;
      assert forall x | x in cs[1..] :: x in cs;
      EvalMeaning(cfg, sch, s, cs[0]);
      OrFromMeaning(cfg, sch, s, parent, cs[1..]);
      JoinStep(sch, s, cs);
    } else {
      assert Join(sch, s, cs) == {};
    }
  }

  /** The parallel disjunction over children that all succeed. */
  lemma {:induction false} OrParallelMeaning<K, R, L, V>(cfg: Config<L, V>, sch: Schema<K, R, L, V>, s: Store<K, R, L, V>,
                                                         parent: Crit<L, V>, cs: seq<Crit<L, V>>)
    requires Consistent(sch, s) && !parent.Leaf?
    requires forall x | x in cs :: x in parent.children && AllLeavesOk(sch, s, x)
    ensures OrParallel(cfg, sch, s, parent, cs) == Join(sch, s, cs)
    decreases parent, 0, |cs|
  {
    if |cs| > 0 {
      assert cs[0] in cs;
      assert forall x | x in cs[1..] :: x in cs;
      EvalMeaning(cfg, sch, s, cs[0]);
      OrParallelMeaning(cfg, sch, s, parent, cs[1..]);
      JoinStep(sch, s, cs);
    } else {
      assert Join(sch, s, cs) == {};
    }
  }

  /** The first child's keys joined with the rest's are all children's keys. */
  lemma JoinStep<K, R, L, V>(sch: Schema<K, R, L, V>, s: Store<K, R, L, V>, cs: seq<Crit<L, V>>)
    requires |cs| > 0
    ensures Join(sch, s, cs) == Denote(sch, s, cs[0]) + Join(sch, s, cs[1..])
  {
    var lhs := Join(sch, s, cs);
    forall k | k in lhs ensures k in Denote(sch, s, cs[0]) + Join(sch, s, cs[1..]) {
      var x :| x in cs && k in Denote(sch, s, x);
      if x != cs[0] {
        var i :| 0 <= i < |cs| && cs[i] == x;
        assert cs[1..][i - 1] == x;
      }
    }
    assert cs[0] in cs;
    assert forall x | x in cs[1..] :: x in cs;
  }

  // ------------------------------------------------------------------
  // Consequences
  // ------------------------------------------------------------------

  /** The two junction versions, and the optimised one with either setting,
      return the same records when every leaf can be looked up. */
  lemma ConfigIrrelevant<K, R, L, V>(cfg1: Config<L, V>, cfg2: Config<L, V>, sch: Schema<K, R, L, V>, s: Store<K, R, L, V>, c: Crit<L, V>)
    requires Consistent(sch, s) && AllLeavesOk(sch, s, c)
    ensures Eval(cfg1, sch, s, c) == Eval(cfg2, sch, s, c)
  {
    EvalMeaning(cfg1, sch, s, c);
    EvalMeaning(cfg2, sch, s, c);
  }

  /** The keys some child describes do not depend on the children's order. */
  lemma JoinIgnoresOrder<K, R, L, V>(sch: Schema<K, R, L, V>, s: Store<K, R, L, V>, cs: seq<Crit<L, V>>, ds: seq<Crit<L, V>>)
    requires multiset(ds) == multiset(cs)
    ensures Join(sch, s, cs) == Join(sch, s, ds)
  {
    forall k | k in Join(sch, s, cs) ensures k in Join(sch, s, ds) {
      var x :| x in cs && k in Denote(sch, s, x);
      assert x in multiset(ds);
    }
    forall k | k in Join(sch, s, ds) ensures k in Join(sch, s, cs) {
      var x :| x in ds && k in Denote(sch, s, x);
      assert x in multiset(cs);
    }
  }

  /** The iteration order of a junction's child set does not change the
      result when every leaf can be looked up. */
  lemma ChildOrderIrrelevant<K, R, L, V>(cfg: Config<L, V>, sch: Schema<K, R, L, V>, s: Store<K, R, L, V>, cs: seq<Crit<L, V>>, ds: seq<Crit<L, V>>)
    requires Consistent(sch, s) && multiset(ds) == multiset(cs)
    requires forall i | 0 <= i < |cs| :: AllLeavesOk(sch, s, cs[i])
    ensures Eval(cfg, sch, s, And(cs)) == Eval(cfg, sch, s, And(ds))
    ensures Eval(cfg, sch, s, Or(cs)) == Eval(cfg, sch, s, Or(ds))
  {
    forall i | 0 <= i < |ds| ensures AllLeavesOk(sch, s, ds[i]) {
      assert ds[i] in multiset(cs);
      var j :| 0 <= j < |cs| && cs[j] == ds[i];
    }
    EvalMeaning(cfg, sch, s, And(cs));
    EvalMeaning(cfg, sch, s, And(ds));
    EvalMeaning(cfg, sch, s, Or(cs));
    EvalMeaning(cfg, sch, s, Or(ds));
    if |cs| > 0 {
      MeetIgnoresOrder(sch, s, cs, cs);
      MeetIgnoresOrder(sch, s, cs, ds);
      MeetIgnoresOrder(sch, s, ds, ds);
    } else {
      assert |ds| == |multiset(ds)| == 0;
    }
    JoinIsDenote(sch, s, cs);
    JoinIsDenote(sch, s, ds);
    JoinIgnoresOrder(sch, s, cs, ds);
  }

  /** A conjunction stops at the first empty intermediate result: when the
      first child it visits finds nothing, later children are never
      evaluated, so their exceptions do not escape. */
  lemma EarlyExitMasksFault<K, R, L, V>(cfg: Config<L, V>, sch: Schema<K, R, L, V>, s: Store<K, R, L, V>, cs: seq<Crit<L, V>>)
    requires !cfg.sortByCost && |cs| > 0 && Eval(cfg, sch, s, cs[0]) == Success({})
    ensures Eval(cfg, sch, s, And(cs)) == Success({})
  {
  }

  /** The sequential disjunction lets the exception of any child escape. */
  lemma {:induction false} OrFromFails<K, R, L, V>(cfg: Config<L, V>, sch: Schema<K, R, L, V>, s: Store<K, R, L, V>,
                                                   parent: Crit<L, V>, cs: seq<Crit<L, V>>, i: nat)
    requires !parent.Leaf? && forall x | x in cs :: x in parent.children
    requires i < |cs| && Eval(cfg, sch, s, cs[i]).Failure?
    ensures OrFrom(cfg, sch, s, parent, cs).Failure?
    decreases |cs|
  {
    if i > 0 && Eval(cfg, sch, s, cs[0]).Success? {
      assert forall x | x in cs[1..] :: x in cs;
      assert cs[1..][i - 1] == cs[i];
      OrFromFails(cfg, sch, s, parent, cs[1..], i - 1);
    }
  }

  /** Without the thread pool a disjunction fails when any child fails. */
  lemma SequentialOrFails<K, R, L, V>(cfg: Config<L, V>, sch: Schema<K, R, L, V>, s: Store<K, R, L, V>, cs: seq<Crit<L, V>>, i: nat)
    requires !cfg.parallel && i < |cs| && Eval(cfg, sch, s, cs[i]).Failure?
    ensures Eval(cfg, sch, s, Or(cs)).Failure?
  {
    OrFromFails(cfg, sch, s, Or(cs), cs, i);
  }

  /** On the thread pool a disjunction never fails: it returns the records
      of exactly the children that succeed. */
  lemma {:induction false} OrParallelCollects<K, R, L, V>(cfg: Config<L, V>, sch: Schema<K, R, L, V>, s: Store<K, R, L, V>,
                                                          parent: Crit<L, V>, cs: seq<Crit<L, V>>)
    requires !parent.Leaf? && forall x | x in cs :: x in parent.children
    ensures forall i | 0 <= i < |cs| && Eval(cfg, sch, s, cs[i]).Success? :: Eval(cfg, sch, s, cs[i]).value <= OrParallel(cfg, sch, s, parent, cs)
    ensures forall k | k in OrParallel(cfg, sch, s, parent, cs) ::
              exists i | 0 <= i < |cs| :: Eval(cfg, sch, s, cs[i]).Success? && k in Eval(cfg, sch, s, cs[i]).value
    decreases |cs|
  {
    if |cs| > 0 {
      assert forall x | x in cs[1..] :: x in cs;
      OrParallelCollects(cfg, sch, s, parent, cs[1..]);
      var rest := OrParallel(cfg, sch, s, parent, cs[1..]);
      forall i | 0 <= i < |cs| && Eval(cfg, sch, s, cs[i]).Success?
        ensures Eval(cfg, sch, s, cs[i]).value <= OrParallel(cfg, sch, s, parent, cs)
      {
        if i > 0 {
          assert cs[1..][i - 1] == cs[i];
        }
      }
      forall k | k in OrParallel(cfg, sch, s, parent, cs)
        ensures exists i | 0 <= i < |cs| :: Eval(cfg, sch, s, cs[i]).Success? && k in Eval(cfg, sch, s, cs[i]).value
      {
        if k !in rest {
          assert Eval(cfg, sch, s, cs[0]).Success? && k in Eval(cfg, sch, s, cs[0]).value;
        } else {
          var j :| 0 <= j < |cs[1..]| && Eval(cfg, sch, s, cs[1..][j]).Success? && k in Eval(cfg, sch, s, cs[1..][j]).value;
          assert cs[1..][j] == cs[j + 1];
        }
      }
    }
  }

  /** A parallel disjunction always succeeds, with the records of the
      children that succeed. */
  lemma ParallelOrNeverFails<K, R, L, V>(cfg: Config<L, V>, sch: Schema<K, R, L, V>, s: Store<K, R, L, V>, cs: seq<Crit<L, V>>)
    requires cfg.parallel
    ensures Eval(cfg, sch, s, Or(cs)).Success?
    ensures forall i | 0 <= i < |cs| && Eval(cfg, sch, s, cs[i]).Success? :: Eval(cfg, sch, s, cs[i]).value <= Eval(cfg, sch, s, Or(cs)).value
    ensures forall k | k in Eval(cfg, sch, s, Or(cs)).value ::
              exists i | 0 <= i < |cs| :: Eval(cfg, sch, s, cs[i]).Success? && k in Eval(cfg, sch, s, cs[i]).value
  {
    OrParallelCollects(cfg, sch, s, Or(cs), cs);
  }

  /** Adding a child to a non-empty conjunction narrows its meaning to the
      child's; adding one to a disjunction widens it by the child's. */
  lemma AddMeaning<K, R, L, V>(sch: Schema<K, R, L, V>, s: Store<K, R, L, V>, j: Crit<L, V>, child: Crit<L, V>)
    requires j.Or? || (j.And? && |j.children| > 0)
    ensures j.And? ==> Denote(sch, s, AddChild(j, child)) == Denote(sch, s, j) * Denote(sch, s, child)
    ensures j.Or? ==> Denote(sch, s, AddChild(j, child)) == Denote(sch, s, j) + Denote(sch, s, child)
  {
    var r := AddChild(j, child);
    var cs := j.children;
    if j.And? {
      MeetIgnoresOrder(sch, s, cs, cs);
      MeetIgnoresOrder(sch, s, r.children, r.children);
      var lhs := Denote(sch, s, r);
      var rhs := Denote(sch, s, j) * Denote(sch, s, child);
      forall k | k in lhs ensures k in rhs {
        forall i | 0 <= i < |cs| ensures k in Denote(sch, s, cs[i]) {
          assert cs[i] in r.children;
        }
        assert child in r.children;
      }
      forall k | k in rhs ensures k in lhs {
        forall x | x in r.children ensures k in Denote(sch, s, x) {
          if x != child {
            var i :| 0 <= i < |cs| && cs[i] == x;
          }
        }
        assert r.children[0] in r.children;
      }
    } else {
      JoinIsDenote(sch, s, cs);
      JoinIsDenote(sch, s, r.children);
      var lhs := Join(sch, s, r.children);
      var rhs := Join(sch, s, cs) + Denote(sch, s, child);
      forall k | k in lhs ensures k in rhs {
        var x :| x in r.children && k in Denote(sch, s, x);
      }
      assert child in r.children;
    }
  }

  /** A junction without children finds nothing, under every configuration:
      an empty conjunction is not "all records". */
  lemma EmptyJunctionsFindNothing<K, R, L, V>(cfg: Config<L, V>, sch: Schema<K, R, L, V>, s: Store<K, R, L, V>)
    ensures Eval(cfg, sch, s, Conjunction()) == Success({})
    ensures Eval(cfg, sch, s, Disjunction()) == Success({})
  {
  }
}
