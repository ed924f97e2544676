# multiindexcontainer in Dafny

A model of the core of *multiindexcontainer*, a Java in-memory record store.
The store keeps records by primary key and any number of secondary indexes.
Each index maps an indexed value, `null` included, to the records that
currently have that value. Queries are lookup expressions (`eq`, `gt`, `lt`,
`between`, `in`, `isNull`, `isNotNull`) combined by conjunctions and
disjunctions. The annotation processor that generates `Indexable` enums for
record classes is modelled through its pure helpers.

| file | module | models |
|---|---|---|
| `results.dfy` | `Results` | `Option`, `Result` and the four exceptions the core lets escape |
| `null_key_map.dfy` | `NullKeyMap` | the null-accepting TreeMap wrapper, its two null orders and its views |
| `expression.dfy` | `Expression` | `LOOKUP_OPERATOR` and the lookup expression with its two constructors |
| `expression_fields.dfy`, `expression_enum.dfy` | `ExpressionFields`, `ExpressionEnum` | the two expression subclasses |
| `store.dfy` | `MultiIndexContainer` | data, indexes, every writer and reader, and the index lookup |
| `junction.dfy` | `Junction` | criteria trees, both `Junction` versions, `find` |
| `enum_container.dfy` | `EnumContainer` | `MultiIndexContainerEnum`: schema, constructor, rule builders |
| `fields_container.dfy` | `FieldsContainer` | `MultiIndexContainerFields`: property lookup, getter cache, builders |
| `contract.dfy` | `ContainerContract` | the promises in the `IMultiIndexContainer` documentation |
| `generator.dfy` | `Generator` | the pure helpers of `MultiIndexContainerGenerator` |

Modelling choices:

- **Records and keys.** Records compare by primary key only, so a bucket is
  the set of primary keys of its records, and query results are key sets.
- **Indexes.** An index is a `map<Option<V>, set<K>>`. `None` is `null`.
- **Schema.** A `Schema` carries what the container learns from its
  subclass:
  - `pk`, the primary key of a record;
  - `acc`, the data getter of an index;
  - `hasGetter`, whether a data getter exists for an index;
  - `canChange`, the `indexedAttributeCanChange` flag;
  - `cmp`, the natural ordering of indexed values.
- **canChange is a parameter.** The code declares the flag but never
  assigns it, so in the code it is always false. The model proves the
  container invariant for both values:
  - with the flag set, `add` keeps every index exact;
  - with it clear, `add` keeps the indexes exact exactly when the replaced
    record has the same indexed values.
- **Exceptions are results.** An exception the code lets escape is a
  `Failure`. This covers:
  - a `NullPointerException` on a null bound or a null value array;
  - an `IllegalArgumentException` for `between` with its lower bound
    above its upper bound;
  - an `UnsupportedOperationException` for an index that was never
    established, or a property without a getter.
- **Hidden dependencies are parameters.**
  - The result of `getCountOfIndexedValues` is the `cost` function of a
    `Config`.
  - The parallelisation switch is `Config.parallel`.
  - Reflective calls are the `invoke` parameter.
  - `Character.isJavaIdentifierPart` is the `isPart` parameter.

Where the documentation and the code disagree, the model follows the code,
and a lemma states the difference:

- `Expression`'s range constructor assigns the upper bound from the lower
  one (`Expression.java` line 80). Every `between` therefore selects only
  values equal to its lower bound (`Expression.RangeIgnoresValueTo`,
  `EnumContainer.BetweenSelects`).
- Every range lookup is inclusive, whatever its `inclusive` flags say
  (`MultiIndexContainer.BoundsAreInclusive`,
  `ContainerContract.TwoArgumentRangesAreInclusive`).
- `lt` also selects the records whose value is null, because null sorts low
  (`MultiIndexContainer.NullBucketPlacement`).
- `addIndex` skips an index that already exists. It therefore does not
  repair an index that `add` left stale, although its documentation says
  indexes are recalculated (`ContainerContract.AddIndexLeavesStaleIndex`).
- A public getter that takes parameters is reported as an error, yet it
  is still kept (`Generator.ParameterisedGetterIsKept`).
- The processor's interface check accepts every class that declares any
  resolved interface, not only classes that implement `IMultiIndexed`
  (`Generator.InterfacedClassesGetEnums`). `Generator.Process` takes the
  check as a parameter: the code runs it with `AsWritten`, and
  `Documented` gives the corrected processor (see "## Findings").
- The conjunction stops at its first empty intermediate result. An
  exception a later child would raise is then never seen
  (`Junction.EarlyExitMasksFault`).
- The parallel disjunction drops the exceptions of its children
  (`Junction.ParallelOrNeverFails`). The sequential one lets them escape
  (`Junction.SequentialOrFails`).

## Model

| member | source | states |
|---|---|---|
| NullKeyMap.ToSlot | cz/kamosh/multiindex/utils/NullKeyMap.java:82-96 | null becomes the placeholder and nothing else does; translating back restores the key |
| NullKeyMap.FromSlot | cz/kamosh/multiindex/utils/NullKeyMap.java:124-127 | the iterators give null back exactly for the placeholder |
| NullKeyMap.PlaceholderIsExtreme | cz/kamosh/multiindex/utils/NullKeyMap.java:342-392 | the placeholder is the least key under the null-low order and the greatest under the null-high order; other keys compare by the wrapped comparator |
| NullKeyMap.NullHighMirrorsNullLow | cz/kamosh/multiindex/utils/NullKeyMap.java:381-392 | the two orders agree unless exactly one side is null, where they are opposite |
| NullKeyMap.NullLowIsComparator | cz/kamosh/multiindex/utils/NullKeyMap.java:361-379 | wrapping a lawful comparator with the null-low order yields a lawful comparator (antisymmetric sign, transitive, consistent) |
| NullKeyMap.NullHighIsComparator | cz/kamosh/multiindex/utils/NullKeyMap.java:400-418 | the same for the null-high order |
| NullKeyMap.View | cz/kamosh/multiindex/utils/NullKeyMap.java:82-88 | a caller sees a null key exactly where the placeholder is stored, with its value |
| NullKeyMap.ContainsKey | cz/kamosh/multiindex/utils/NullKeyMap.java:82-84 | containsKey(null) answers whether the placeholder is present |
| NullKeyMap.Get | cz/kamosh/multiindex/utils/NullKeyMap.java:86-88 | get answers the value the caller's view holds for the key, null included |
| NullKeyMap.Put | cz/kamosh/multiindex/utils/NullKeyMap.java:90-92 | put updates the caller's view at exactly that key; a null key stores the placeholder |
| NullKeyMap.Remove | cz/kamosh/multiindex/utils/NullKeyMap.java:94-96 | remove deletes exactly that key from the caller's view |
| NullKeyMap.PutAll | cz/kamosh/multiindex/utils/NullKeyMap.java:98-106 | keys not named are untouched, and the last entry for each key wins, null keys included |
| NullKeyMap.GetAfterPut | cz/kamosh/multiindex/utils/NullKeyMap.java:90-92 | a put changes the lookup of its own key only |
| NullKeyMap.KeySet | cz/kamosh/multiindex/utils/NullKeyMap.java:112-162 | the key view holds exactly the contained keys, null for the placeholder, and has as many elements as the map |
| NullKeyMap.EntrySet | cz/kamosh/multiindex/utils/NullKeyMap.java:168-253 | the entry view holds exactly the pairs get answers, with as many elements as the map |
| NullKeyMap.KeySetRemove | cz/kamosh/multiindex/utils/NullKeyMap.java:139-149 | removal through the key view deletes the key and reports whether it was there |
| NullKeyMap.EntrySetRemove | cz/kamosh/multiindex/utils/NullKeyMap.java:225-240 | removal through the entry view ignores the entry's value: it deletes the key and reports whether it was there, as removal through the key view does |
| NullKeyMap.EntrySetContains | cz/kamosh/multiindex/utils/NullKeyMap.java:207-223 | an entry with a value is contained when the map holds that pair; one with a null value is contained when its key is absent |
| NullKeyMap.EntryEquals | cz/kamosh/multiindex/utils/NullKeyMap.java:272-285 | entries are equal exactly when their keys and values are |
| NullKeyMap.EntryHashAgreesWithEquals | cz/kamosh/multiindex/utils/NullKeyMap.java:287-293 | an entry's hash is the xor of its key-only and value-only hashes, a null counting as 0; that equal entries hash alike follows at once, since equality is structural |
| Expression.Operators | cz/kamosh/multiindex/criterion/Expression.java:50-52 | values() lists each of the seven operators once, each at its ordinal |
| Expression.RangeExpr | cz/kamosh/multiindex/criterion/Expression.java:74-82 | the range constructor keeps index, operator and flags; its upper bound is its lower bound, and it has no value array |
| Expression.ValuesExpr | cz/kamosh/multiindex/criterion/Expression.java:84-88 | the values constructor keeps its array and leaves the range fields at their defaults |
| Expression.RangeIgnoresValueTo | cz/kamosh/multiindex/criterion/Expression.java:80 | two range expressions that differ only in the given upper bound are equal |
| Expression.ConstructorsOverlap | cz/kamosh/multiindex/criterion/Expression.java:74-88 | the two constructors build the same expression exactly when the value array is null and the range has a null lower bound and both flags false; with a non-null array they never agree |
| ExpressionFields.Single | tags/multiindexcontainer-1.1.2/cz/kamosh/multiindex/impl/ExpressionFields.java:46-49 | the single-value form stores the value as the lower bound, inclusive, whatever flag it was given |
| ExpressionFields.Range | tags/multiindexcontainer-1.1.2/cz/kamosh/multiindex/impl/ExpressionFields.java:51-55 | the range form is the base range constructor over a property name |
| ExpressionFields.Values | tags/multiindexcontainer-1.1.2/cz/kamosh/multiindex/impl/ExpressionFields.java:57-60 | the values form is the base values constructor over a property name |
| ExpressionFields.SingleIgnoresInclusive | tags/multiindexcontainer-1.1.2/cz/kamosh/multiindex/impl/ExpressionFields.java:46-49 | the inclusive flag of the single-value form has no effect |
| ExpressionEnum.Single | branches/multicore/src/cz/kamosh/multiindex/impl/ExpressionEnum.java:48-51 | the single-value form stores the value as the lower bound, inclusive, whatever flag it was given |
| ExpressionEnum.Values | branches/multicore/src/cz/kamosh/multiindex/impl/ExpressionEnum.java:53-55 | the values form is the base values constructor over an index constant |
| ExpressionEnum.Range | branches/multicore/src/cz/kamosh/multiindex/impl/ExpressionEnum.java:57-62 | the range form is the base range constructor over an index constant |
| ExpressionEnum.SingleIgnoresInclusive | branches/multicore/src/cz/kamosh/multiindex/impl/ExpressionEnum.java:48-51 | the inclusive flag of the single-value form has no effect |
| MultiIndexContainer.EmptyIsConsistent | trunk/cz/kamosh/multiindex/impl/MultiIndexContainer.java:127-131 | a new container holds no record and no index, and already keeps the index invariant under every schema |
| MultiIndexContainer.KeyCompare | trunk/cz/kamosh/multiindex/impl/MultiIndexContainer.java:226-228 | index keys are ordered null first, then by the values' natural order |
| MultiIndexContainer.Grouped | trunk/cz/kamosh/multiindex/impl/MultiIndexContainer.java:650-675 | the reference index: every stored key in the bucket of its value, every bucket member stored with that value, no empty bucket |
| MultiIndexContainer.MatchingIndexIsGrouped | trunk/cz/kamosh/multiindex/impl/MultiIndexContainer.java:650-675 | an index that matches the data is unique: it equals the reference index |
| MultiIndexContainer.RecalculateIndex | trunk/cz/kamosh/multiindex/impl/MultiIndexContainer.java:650-675 | rebuilding an index record by record yields exactly the reference index |
| MultiIndexContainer.Rebuild | trunk/cz/kamosh/multiindex/impl/MultiIndexContainer.java:202-207 | recalculating every index leaves each of them matching the data |
| MultiIndexContainer.AddToBucket | trunk/cz/kamosh/multiindex/impl/MultiIndexContainer.java:359-367 | the key joins the bucket of its value, which is created when missing; other buckets are unchanged |
| MultiIndexContainer.DeleteIndexedRecord | trunk/cz/kamosh/multiindex/impl/MultiIndexContainer.java:412-423 | a missing bucket is a null dereference; otherwise the key leaves its bucket, an emptied bucket is dropped, and other buckets are unchanged |
| MultiIndexContainer.Reinsert | trunk/cz/kamosh/multiindex/impl/MultiIndexContainer.java:346-367 | per index, add fails exactly when the earlier record's bucket is missing, and otherwise files the key under the new value |
| MultiIndexContainer.Add | trunk/cz/kamosh/multiindex/impl/MultiIndexContainer.java:321-372 | null changes nothing; the record replaces whatever its key held; the set of indexes is kept; only the earlier-record lookup can fail |
| MultiIndexContainer.Remove | trunk/cz/kamosh/multiindex/impl/MultiIndexContainer.java:374-410 | null or an unknown key changes nothing; otherwise exactly that key's record goes and the set of indexes is kept |
| MultiIndexContainer.DeleteKeepsMatch | trunk/cz/kamosh/multiindex/impl/MultiIndexContainer.java:412-423 | taking a stored key out of a matching index never fails and yields the index of the data without it |
| MultiIndexContainer.InsertKeepsMatch | trunk/cz/kamosh/multiindex/impl/MultiIndexContainer.java:359-367 | filing a new key in a matching index yields the index of the extended data |
| MultiIndexContainer.ReinsertKeepsMatch | trunk/cz/kamosh/multiindex/impl/MultiIndexContainer.java:330-367 | with the earlier record looked up, the per-index step of add keeps the index matching the updated data |
| MultiIndexContainer.AddPreservesConsistent | trunk/cz/kamosh/multiindex/impl/MultiIndexContainer.java:330-357 | with indexedAttributeCanChange set, add never fails on a consistent container and keeps it consistent |
| MultiIndexContainer.AddWithoutLookup | trunk/cz/kamosh/multiindex/impl/MultiIndexContainer.java:330-367 | with the flag clear, add only files the key under its new value and cannot fail |
| MultiIndexContainer.AddConsistentIff | trunk/cz/kamosh/multiindex/impl/MultiIndexContainer.java:330-367 | with the flag clear, add keeps a consistent container consistent if and only if the replaced record had the same indexed values |
| MultiIndexContainer.AddSameValuesConsistent | trunk/cz/kamosh/multiindex/impl/MultiIndexContainer.java:330-367 | with the flag clear, replacing a record by one with the same indexed values keeps the container consistent |
| MultiIndexContainer.AddChangedValueInconsistent | trunk/cz/kamosh/multiindex/impl/MultiIndexContainer.java:330-367 | with the flag clear, replacing a record whose indexed value changed leaves some index stale |
| MultiIndexContainer.SameValueReplaceKeepsMatch | trunk/cz/kamosh/multiindex/impl/MultiIndexContainer.java:359-367 | re-adding a key whose value is unchanged leaves the index as it is, and it matches the updated data |
| MultiIndexContainer.RemovePreservesConsistent | trunk/cz/kamosh/multiindex/impl/MultiIndexContainer.java:374-423 | remove never fails on a consistent container and keeps it consistent |
| MultiIndexContainer.RemoveUsesStoredInstance | trunk/cz/kamosh/multiindex/impl/MultiIndexContainer.java:386-405 | remove depends only on its argument's primary key |
| MultiIndexContainer.PutRecords | trunk/cz/kamosh/multiindex/impl/MultiIndexContainer.java:273-288 | every record is stored under its key, the last record of a key wins, other keys keep their record |
| MultiIndexContainer.AddAll | trunk/cz/kamosh/multiindex/impl/MultiIndexContainer.java:273-288 | null changes nothing; otherwise the records are stored, the same indexes remain, and every index is rebuilt to match |
| MultiIndexContainer.RemoveRecords | trunk/cz/kamosh/multiindex/impl/MultiIndexContainer.java:303-319 | exactly the keys of the given records leave; the other records stay as they were |
| MultiIndexContainer.RemoveAllOf | trunk/cz/kamosh/multiindex/impl/MultiIndexContainer.java:303-319 | null or an empty collection changes nothing; otherwise the records go and every index is rebuilt to match |
| MultiIndexContainer.RemoveAll | trunk/cz/kamosh/multiindex/impl/MultiIndexContainer.java:290-301 | all data goes, every index stays established and becomes empty, and the container is consistent |
| MultiIndexContainer.AddOneIndex | trunk/cz/kamosh/multiindex/impl/MultiIndexContainer.java:217-232 | an existing index is left untouched; a new one fails exactly without a data getter, and otherwise is built from the current data |
| MultiIndexContainer.AddIndexesFrom | trunk/cz/kamosh/multiindex/impl/MultiIndexContainer.java:217-233 | succeeds exactly when every requested index exists or has a getter; then the new indexes are built from the data, old ones are untouched and data is unchanged |
| MultiIndexContainer.AddIndex | trunk/cz/kamosh/multiindex/impl/MultiIndexContainer.java:209-237 | null or no identifiers change nothing; success keeps a consistent container consistent |
| MultiIndexContainer.RemoveIndex | trunk/cz/kamosh/multiindex/impl/MultiIndexContainer.java:250-260 | exactly the named index goes; data and the other indexes stay |
| MultiIndexContainer.RemoveIndexes | trunk/cz/kamosh/multiindex/impl/MultiIndexContainer.java:262-271 | every index goes and data stays |
| MultiIndexContainer.Clear | trunk/cz/kamosh/multiindex/impl/MultiIndexContainer.java:239-248 | the container becomes the empty one |
| MultiIndexContainer.DroppingIndexesKeepsConsistent | trunk/cz/kamosh/multiindex/impl/MultiIndexContainer.java:239-271 | removeIndex, removeIndexes and clear keep a consistent container consistent |
| MultiIndexContainer.Get | trunk/cz/kamosh/multiindex/impl/MultiIndexContainer.java:439-448 | the record stored under the key, and null for null or an unknown key |
| MultiIndexContainer.GetMany | trunk/cz/kamosh/multiindex/impl/MultiIndexContainer.java:476-491 | one answer per requested key, each what get gives; none for null |
| MultiIndexContainer.Size | trunk/cz/kamosh/multiindex/impl/MultiIndexContainer.java:504-513 | the number of stored keys |
| MultiIndexContainer.IsEmpty | trunk/cz/kamosh/multiindex/impl/MultiIndexContainer.java:493-502 | true exactly when size is zero, that is when no record is stored |
| MultiIndexContainer.GetAll | trunk/cz/kamosh/multiindex/impl/MultiIndexContainer.java:428-437 | one list entry per stored key; every stored record is listed and every entry is a stored record |
| MultiIndexContainer.GetIndexes | trunk/cz/kamosh/multiindex/impl/MultiIndexContainer.java:450-458 | exactly the established indexes |
| MultiIndexContainer.GetDistinctIndexedValues | trunk/cz/kamosh/multiindex/impl/MultiIndexContainer.java:460-474 | fails exactly for an index never established; in a consistent container, the values the stored records have |
| MultiIndexContainer.LeafFault | trunk/cz/kamosh/multiindex/impl/MultiIndexContainer.java:546-600 | the exception an operator raises: a null array for value operators, a null bound for ranges, a reversed between; never for isNotNull |
| MultiIndexContainer.Lookup | trunk/cz/kamosh/multiindex/impl/MultiIndexContainer.java:555-596 | fails exactly with the operator's exception; otherwise the union of the buckets whose value the expression selects, and nothing else |
| MultiIndexContainer.GetRecordInstances | trunk/cz/kamosh/multiindex/impl/MultiIndexContainer.java:527-610 | null gives nothing, an index never established fails, otherwise the lookup in that index; results are stored keys |
| MultiIndexContainer.LookupAgreesWithScan | trunk/cz/kamosh/multiindex/impl/MultiIndexContainer.java:527-610 | in a consistent container the index lookup equals a scan of every stored record |
| MultiIndexContainer.LookupSound | trunk/cz/kamosh/multiindex/impl/MultiIndexContainer.java:555-596 | every key a lookup in a matching index returns is one the scan keeps |
| MultiIndexContainer.LookupComplete | trunk/cz/kamosh/multiindex/impl/MultiIndexContainer.java:555-596 | every key the scan keeps is returned by the lookup in a matching index |
| MultiIndexContainer.NullBucketPlacement | trunk/cz/kamosh/multiindex/impl/MultiIndexContainer.java:571-582 | less than a value includes the null bucket; greater and between never select it |
| MultiIndexContainer.BoundsAreInclusive | trunk/cz/kamosh/multiindex/impl/MultiIndexContainer.java:564-582 | the bucket of a bound value is in the result of greater, less and between |
| MultiIndexContainer.BuiltBetweenIsPoint | trunk/cz/kamosh/multiindex/impl/MultiIndexContainer.java:564-570 | a between expression built by the range constructor selects only its lower bound |
| MultiIndexContainer.NotNullByTail | trunk/cz/kamosh/multiindex/impl/MultiIndexContainer.java:583-596 | walking to the least non-null key and taking the tail from there gives exactly the is-not-null lookup |
| Junction.NewJunctionsStartEmpty | trunk/cz/kamosh/multiindex/impl/MultiIndexContainer.java:631-637 | a new conjunction or disjunction has no children, so its first add leaves exactly that child under the same operator |
| Junction.AddChild | cz/kamosh/multiindex/impl/Junction.java:70-73 | set insertion: the children become the old ones plus the child, with no duplicate, and nothing changes when it is already there |
| Junction.AddIdempotent | cz/kamosh/multiindex/impl/Junction.java:70-73 | adding a child twice is adding it once |
| Junction.AddMeaning | cz/kamosh/multiindex/impl/Junction.java:70-73 | adding a child to a non-empty conjunction intersects its meaning with the child's; to a disjunction, unites them |
| Junction.SortByCost | cz/kamosh/multiindex/impl/Junction.java:88-97 | the optimised visiting order is a permutation sorted by cost, and children of equal cost keep their order (a stable sort) |
| Junction.Eval | cz/kamosh/multiindex/impl/Junction.java:81-149 | a criterion evaluated on a consistent container yields stored keys only |
| Junction.AndFrom | cz/kamosh/multiindex/impl/Junction.java:100-115 | the conjunction loop only narrows its running result |
| Junction.AndFromMeaning | cz/kamosh/multiindex/impl/Junction.java:100-115 | when every child can be looked up, the conjunction loop yields the keys every child describes |
| Junction.OrFrom | src/cz/kamosh/multiindex/impl/Junction.java:111-118 | the sequential disjunction yields stored keys only |
| Junction.OrFromMeaning | src/cz/kamosh/multiindex/impl/Junction.java:107-118 | when every child can be looked up, the sequential disjunction yields the keys some child describes |
| Junction.OrParallel | cz/kamosh/multiindex/impl/Junction.java:132-141 | the parallel disjunction yields stored keys only |
| Junction.OrParallelMeaning | cz/kamosh/multiindex/impl/Junction.java:132-141 | when every child can be looked up, the parallel disjunction yields the keys some child describes |
| Junction.ParallelOrNeverFails | cz/kamosh/multiindex/impl/Junction.java:132-141 | on the thread pool a disjunction always succeeds, with exactly the keys of its successful children |
| Junction.Find | trunk/cz/kamosh/multiindex/impl/MultiIndexContainer.java:515-525 | null finds nothing; otherwise the criterion's evaluation, stored keys only |
| Junction.EvalMeaning | cz/kamosh/multiindex/impl/Junction.java:78-149 | when every leaf can be looked up, evaluation gives the order-free meaning: intersections for conjunctions, unions for disjunctions, scans for leaves |
| Junction.MeetIgnoresOrder | cz/kamosh/multiindex/impl/Junction.java:85-115 | intersecting the children in any permuted order gives the conjunction's meaning |
| Junction.ConfigIrrelevant | cz/kamosh/multiindex/impl/Junction.java:85-147 | when every leaf can be looked up, both junction versions, sorted or not, parallel or not, give the same answer |
| Junction.JoinIgnoresOrder | src/cz/kamosh/multiindex/impl/Junction.java:114-117 | the union of the children does not depend on their order |
| Junction.ChildOrderIrrelevant | src/cz/kamosh/multiindex/impl/Junction.java:84-99 | when every child can be looked up, the iteration order of the child set changes neither junction's answer |
| Junction.EarlyExitMasksFault | src/cz/kamosh/multiindex/impl/Junction.java:95-97 | a conjunction whose first child finds nothing answers nothing, whatever its later children would do |
| Junction.SequentialOrFails | src/cz/kamosh/multiindex/impl/Junction.java:114-117 | without the thread pool a disjunction fails when any child fails |
| Junction.EmptyJunctionsFindNothing | src/cz/kamosh/multiindex/impl/Junction.java:80-118 | a junction without children finds nothing under every configuration |
| EnumContainer.EnumSchema | src/cz/kamosh/multiindex/impl/MultiIndexContainerEnum.java:79-94 | the data getter of a constant is the constant's getIndexedValue |
| EnumContainer.AddIndexNeverFails | src/cz/kamosh/multiindex/impl/MultiIndexContainerEnum.java:80-93 | every constant has a data getter, so addIndex never fails; it keeps consistency and data and establishes every requested index |
| EnumContainer.New | src/cz/kamosh/multiindex/impl/MultiIndexContainerEnum.java:64-76 | a new container holds the given records, the last of each key winning, no index, and is consistent |
| EnumContainer.Eq | src/cz/kamosh/multiindex/impl/MultiIndexContainerEnum.java:97-101 | eq is an EQUAL rule over the one-element array of its value |
| EnumContainer.Gt | src/cz/kamosh/multiindex/impl/MultiIndexContainerEnum.java:103-106 | the two-argument gt builds the very rule the inclusive three-argument form builds |
| EnumContainer.Gt3 | src/cz/kamosh/multiindex/impl/MultiIndexContainerEnum.java:108-113 | gt is a GREATER rule on the index with the value as lower bound |
| EnumContainer.Lt | src/cz/kamosh/multiindex/impl/MultiIndexContainerEnum.java:115-118 | the two-argument lt builds the very rule the inclusive three-argument form builds |
| EnumContainer.Lt3 | src/cz/kamosh/multiindex/impl/MultiIndexContainerEnum.java:120-125 | lt is a LESS rule whose upper bound is the value |
| EnumContainer.Between3 | src/cz/kamosh/multiindex/impl/MultiIndexContainerEnum.java:127-131 | the three-argument between is declared exclusive at both ends, and its upper bound is its lower bound |
| EnumContainer.Between5 | src/cz/kamosh/multiindex/impl/MultiIndexContainerEnum.java:133-138 | between is a BETWEEN rule whose upper bound is its lower bound, whatever upper bound was given |
| EnumContainer.NullRulesSelect | src/cz/kamosh/multiindex/impl/MultiIndexContainerEnum.java:140-149 | isNull is an EQUAL rule over the array holding only null, isNotNull an IS_NOT_NULL rule on the index; they select exactly the null and exactly the non-null values |
| EnumContainer.InRule | src/cz/kamosh/multiindex/impl/MultiIndexContainerEnum.java:151-154 | in is an IN rule over the given array, null included |
| EnumContainer.EqSelects | trunk/cz/kamosh/multiindex/impl/MultiIndexContainer.java:555-563 | eq never fails and selects exactly its value, null included |
| EnumContainer.InSelects | trunk/cz/kamosh/multiindex/impl/MultiIndexContainer.java:555-563 | in fails exactly on a null array and otherwise selects exactly its members |
| EnumContainer.GtSelects | trunk/cz/kamosh/multiindex/impl/MultiIndexContainer.java:571-576 | gt fails exactly on null; otherwise it selects every non-null value not below it, itself included |
| EnumContainer.LtSelects | trunk/cz/kamosh/multiindex/impl/MultiIndexContainer.java:577-582 | lt fails exactly on null; otherwise it selects null and every value not above it, itself included |
| EnumContainer.BetweenSelects | trunk/cz/kamosh/multiindex/impl/MultiIndexContainer.java:564-570 | between fails with a null-pointer fault on a null lower bound and with an illegal-argument fault when the comparator puts the lower bound above itself; otherwise it selects only values equal to the lower bound |
| FieldsContainer.FindProperty | trunk/cz/kamosh/multiindex/impl/MultiIndexContainerFields.java:211-218 | the position of the first descriptor with the name, or none when no descriptor has it |
| FieldsContainer.GetMethod | trunk/cz/kamosh/multiindex/impl/MultiIndexContainerFields.java:204-228 | a cached method is reused; otherwise it fails exactly when no descriptor has the name, and caches the read method it returns, even a missing one |
| FieldsContainer.GetMethodCacheTransparent | trunk/cz/kamosh/multiindex/impl/MultiIndexContainerFields.java:204-228 | with a sound cache, getMethod answers what a lookup without a cache answers and keeps the cache sound |
| FieldsContainer.FieldsSchema | trunk/cz/kamosh/multiindex/impl/MultiIndexContainerFields.java:105-125 | a property name has a data getter exactly when its first descriptor has a read method |
| FieldsContainer.FieldsGetterInvokesReadMethod | trunk/cz/kamosh/multiindex/impl/MultiIndexContainerFields.java:112-125 | the data getter of a readable property invokes its read method on the record |
| FieldsContainer.AddIndexNeedsReadableProperty | trunk/cz/kamosh/multiindex/impl/MultiIndexContainerFields.java:105-110 | addIndex succeeds exactly when every new index name has a readable property |
| FieldsContainer.New | trunk/cz/kamosh/multiindex/impl/MultiIndexContainerFields.java:85-102 | a new container holds the given records, the last of each key winning, no index, and is consistent |
| FieldsContainer.Eq | trunk/cz/kamosh/multiindex/impl/MultiIndexContainerFields.java:129-133 | eq is an EQUAL rule over the one-element array of its value |
| FieldsContainer.Gt | trunk/cz/kamosh/multiindex/impl/MultiIndexContainerFields.java:135-138 | the two-argument gt builds the very rule the inclusive three-argument form builds |
| FieldsContainer.Gt3 | trunk/cz/kamosh/multiindex/impl/MultiIndexContainerFields.java:140-145 | gt is a GREATER rule on the property with the value as lower bound |
| FieldsContainer.Lt | trunk/cz/kamosh/multiindex/impl/MultiIndexContainerFields.java:147-150 | the two-argument lt builds the very rule the inclusive three-argument form builds |
| FieldsContainer.Lt3 | trunk/cz/kamosh/multiindex/impl/MultiIndexContainerFields.java:152-157 | lt is a LESS rule whose upper bound is the value |
| FieldsContainer.Between3 | trunk/cz/kamosh/multiindex/impl/MultiIndexContainerFields.java:159-163 | the three-argument between is declared exclusive at both ends, and its upper bound is its lower bound |
| FieldsContainer.Between5 | trunk/cz/kamosh/multiindex/impl/MultiIndexContainerFields.java:165-170 | between is a BETWEEN rule whose upper bound is its lower bound, whatever upper bound was given |
| FieldsContainer.NullRulesSelect | trunk/cz/kamosh/multiindex/impl/MultiIndexContainerFields.java:172-181 | isNull is an EQUAL rule over the array holding only null, isNotNull an IS_NOT_NULL rule on the property; they select exactly the null and exactly the non-null values |
| FieldsContainer.InRule | trunk/cz/kamosh/multiindex/impl/MultiIndexContainerFields.java:183-186 | in is an IN rule over the given array, null included |
| Generator.TrimPrefix | src/cz/kamosh/multiindex/annotation/MultiIndexContainerGenerator.java:395-402 | with trimming on, the first matching prefix, tried in order, is cut off the name; otherwise the name is kept |
| Generator.FormIndexConstantName | src/cz/kamosh/multiindex/annotation/MultiIndexContainerGenerator.java:393-406 | fails exactly when nothing is left after trimming; otherwise the trimmed name, as long, with an upper-case first letter |
| Generator.ConstantNameIsStable | src/cz/kamosh/multiindex/annotation/MultiIndexContainerGenerator.java:403-405 | forming a constant name from a constant name, without trimming, changes nothing |
| Generator.PrefixIsStrippedOnce | src/cz/kamosh/multiindex/annotation/MultiIndexContainerGenerator.java:395-402 | get or is followed by a name gives the constant of that name, so the two getters of one property give one constant |
| Generator.BarePrefixHasNoConstant | src/cz/kamosh/multiindex/annotation/MultiIndexContainerGenerator.java:403-404 | a method named exactly get or is, or an empty name, yields no constant |
| Generator.GetPackageName | src/cz/kamosh/multiindex/annotation/MultiIndexContainerGenerator.java:429-432 | fails exactly for a name without '.'; otherwise the part before the last '.', so the name is the package, a '.', and a dot-free rest |
| Generator.SimpleName | src/cz/kamosh/multiindex/annotation/MultiIndexContainerGenerator.java:345-348 | the part after the last '.', which joined to the package gives the name back |
| Generator.PackageOfQualifiedName | src/cz/kamosh/multiindex/annotation/MultiIndexContainerGenerator.java:429-432 | splitting package.simple at its last '.' gives back the package and the simple name |
| Generator.GeneratedClassName | src/cz/kamosh/multiindex/annotation/MultiIndexContainerGenerator.java:170 | the generated class name is the record class's name followed by the suffix |
| Generator.EnumTypeName | src/cz/kamosh/multiindex/annotation/MultiIndexContainerGenerator.java:347 | the declared enum name is the simple class name followed by the suffix |
| Generator.GeneratedNamesDistinct | src/cz/kamosh/multiindex/annotation/MultiIndexContainerGenerator.java:170 | distinct record classes get distinct generated classes |
| Generator.GeneratedClassFitsItsFile | src/cz/kamosh/multiindex/annotation/MultiIndexContainerGenerator.java:166-178 | for a suffix without '.', the generated file lies in the record's package and declares the enum its file is named after |
| Generator.FirstInvalid | src/cz/kamosh/multiindex/annotation/MultiIndexContainerGenerator.java:115-124 | the position of the first non-identifier character, every earlier one valid; none when all are valid |
| Generator.ParseSuffix | src/cz/kamosh/multiindex/annotation/MultiIndexContainerGenerator.java:109-126 | an absent suffix keeps the default silently; an empty or invalid one keeps it with a warning; a valid one is used |
| Generator.SuffixIsUsable | src/cz/kamosh/multiindex/annotation/MultiIndexContainerGenerator.java:109-126 | whatever the option, the suffix in use is non-empty and has no '.' |
| Generator.ParseTrimGet | src/cz/kamosh/multiindex/annotation/MultiIndexContainerGenerator.java:130-141 | trimming is off exactly for "false" in any case; a warning is printed exactly for a value that is neither boolean |
| Generator.TrimGetRoundTrip | src/cz/kamosh/multiindex/annotation/MultiIndexContainerGenerator.java:130-141 | any case spelling of a boolean parses back to that boolean without warning |
| Generator.CheckIndexedElement | src/cz/kamosh/multiindex/annotation/MultiIndexContainerGenerator.java:230-273 | an element is kept exactly when it is a public non-void method; a rejection prints one error; warnings for non-bean names and static methods appear exactly when they apply |
| Generator.ParameterisedGetterIsKept | src/cz/kamosh/multiindex/annotation/MultiIndexContainerGenerator.java:250-255 | a public non-void method with parameters is kept although an error is printed about it |
| Generator.BeanWarningAgreesWithTrim | src/cz/kamosh/multiindex/annotation/MultiIndexContainerGenerator.java:257-264 | the non-bean warning appears exactly when prefix trimming would leave the name as it is |
| Generator.CheckerAcceptsAnyInterface | src/cz/kamosh/multiindex/annotation/MultiIndexContainerGenerator.java:315-331 | the interface checker as written accepts a class exactly when it declares some resolved interface, so it accepts every class the documented check accepts |
| Generator.CheckerAsWrittenAdmitsNonMarker | src/cz/kamosh/multiindex/annotation/MultiIndexContainerGenerator.java:323-326 | a class declaring only java.io.Serializable passes the checker as written, though it does not implement the marker; a class declaring no interface fails both checks |
| Generator.CheckClassElement | src/cz/kamosh/multiindex/annotation/MultiIndexContainerGenerator.java:290-310 | a cached answer is reused silently; otherwise the class check decides and is cached, and an error appears exactly for a first-time class that the check rejects |
| Generator.ClassErrorAsWritten | src/cz/kamosh/multiindex/annotation/MultiIndexContainerGenerator.java:296-306 | with the checker as written, an error appears exactly for a first-time class that declares no resolved interface, and a class declaring any interface is accepted |
| Generator.ClassCacheTransparent | src/cz/kamosh/multiindex/annotation/MultiIndexContainerGenerator.java:290-310 | with a sound cache the answer is the check's own, the cache stays sound, and asking again prints nothing |
| Generator.AddIndexedElement | src/cz/kamosh/multiindex/annotation/MultiIndexContainerGenerator.java:189-207 | a rejected element changes nothing; an element that is not indexable leaves the groups alone; an indexable one joins its class's group |
| Generator.Process | src/cz/kamosh/multiindex/annotation/MultiIndexContainerGenerator.java:146-153 | processing a round leaves a sound class cache and no empty group |
| Generator.ProcessGroupsIndexable | src/cz/kamosh/multiindex/annotation/MultiIndexContainerGenerator.java:189-207 | for the check in use, the groups are exactly the indexable getters, each under its enclosing class |
| Generator.InterfacedClassesGetEnums | src/cz/kamosh/multiindex/annotation/MultiIndexContainerGenerator.java:189-207 | as written, a class gets an enum exactly when it is a class, declares some resolved interface, and hosts a getter the element check keeps |
| Generator.OnlyMarkedClassesGetEnums | src/cz/kamosh/multiindex/annotation/MultiIndexContainerGenerator.java:296-306 | in the corrected processor, every class that gets an enum implements the marker, and each of its getters is a kept annotated element of that class |
| Generator.SerializableRecordGetsEnum | src/cz/kamosh/multiindex/annotation/MultiIndexContainerGenerator.java:323-326 | a Serializable-only record class with one public getter gets an enum from the processor as written and none from the corrected one |
| Generator.ProcessIgnoresOrder | src/cz/kamosh/multiindex/annotation/MultiIndexContainerGenerator.java:150-152 | with either check, the grouping does not depend on the order the round reports its elements in |
| ContainerContract.NullArgumentsChangeNothing | branches/multicore/src/cz/kamosh/multiindex/interf/IMultiIndexContainer.java:52-165 | a null argument changes nothing and null queries answer nothing, as documented |
| ContainerContract.AddInsertsOrUpdates | branches/multicore/src/cz/kamosh/multiindex/interf/IMultiIndexContainer.java:52-57 | on a consistent container, with either flag value, add succeeds, stores the record under its key, changes no other key, grows size only for a new key and keeps the same indexes; with the flag set the container stays consistent, and with it clear (the code's value) it stays consistent exactly when the replaced record had the same indexed values |
| ContainerContract.RemoveDeletes | branches/multicore/src/cz/kamosh/multiindex/interf/IMultiIndexContainer.java:59-64 | remove takes exactly the argument's key out, shrinks size only for a stored key, and keeps the container consistent |
| ContainerContract.RemovedRecordIsGone | trunk/cz/kamosh/multiindex/impl/MultiIndexContainer.java:374-410 | a successful remove deletes exactly the record under the argument's key |
| ContainerContract.BulkUpdatesRecalculate | branches/multicore/src/cz/kamosh/multiindex/interf/IMultiIndexContainer.java:84-101 | after addAll or removeAll of records, every established index is the data grouped from scratch, whatever it held before |
| ContainerContract.ClearingKeepsWhatItPromises | branches/multicore/src/cz/kamosh/multiindex/interf/IMultiIndexContainer.java:66-106 | removeAll keeps the indexes, clear drops them too, removeIndex and removeIndexes keep the data |
| ContainerContract.AddIndexOnConsistentReindexes | branches/multicore/src/cz/kamosh/multiindex/interf/IMultiIndexContainer.java:71-76 | on a consistent container every requested index ends up as the data grouped from scratch |
| ContainerContract.AddIndexLeavesStaleIndex | branches/multicore/src/cz/kamosh/multiindex/interf/IMultiIndexContainer.java:71-76 | once add has left an index stale, addIndex of that index leaves the container unchanged and the index stale |
| ContainerContract.TwoArgumentRangesAreInclusive | branches/multicore/src/cz/kamosh/multiindex/interf/IMultiIndexContainer.java:178-227 | the gt, lt and between forms documented as not inclusive do select the bound itself, and lt selects null |
| ContainerContract.BuildersAgree | branches/multicore/src/cz/kamosh/multiindex/interf/IMultiIndexContainer.java:168-263 | a Fields container and an Enum container build the very same rule for the same index |

## Left out

- The read/write lock. Every operation is modelled as atomic, and concurrent callers are not modelled.
- The thread pool. The parallel disjunction is modelled by its outcome: the union of the results of the children that do not throw, since the pool swallows their exceptions. Two behaviours are not modelled:
  - all tasks `addAll` into one unsynchronised `HashSet` (`Junction.java` lines 128-141), so keys can be lost or the set corrupted;
  - the fixed pool of `availableProcessors` threads blocks in `f.get()` (`Parallel.java`), so nested parallel disjunctions can starve it and never finish.

  `Junction.ParallelOrNeverFails` therefore describes only the runs that finish.
- The `MultiIndexSetting` singleton. Its parallelisation switch is the `parallel` field of `Junction.Config`.
- Reflection and bean introspection. Property descriptors are a parameter list, and invoking a read method is the `invoke` parameter.
- An `IntrospectionException` from `Introspector.getBeanInfo`. It is not modelled, because the descriptors are given.
- FieldsContainer.FieldsSchema: a name whose property has no read method has no data getter, so `addIndex` of it fails even on an empty container. The code instead establishes such an index, and fails only once a value has to be read through the missing method.
- The `ClassCastException` path of `getRecordInstances`, which logs and answers an empty list. The model's comparator is total on indexed values, so this path cannot arise.
- The `default` branch of the operator switch. All seven operators are handled, so it cannot be reached.
- What the container holds after an exception escapes a writer. The code may leave partial updates behind; the model answers only `Failure`.
- Null primary keys, null children of junctions and null elements inside collections passed to the bulk operations.
- Record identity. Records are identified by primary key, so a bucket or result holds keys, and list-versus-set result types are not distinguished. The code's bucket is a `HashSet` of records equal by primary key, and `records.add(obj)` (`MultiIndexContainer.java` lines 361-367) keeps the earlier instance. After a replacing `add` with unchanged indexed values, `find` therefore returns the stale object, which a key-set model cannot show.
- Junction.EarlyExitMasksFault: it is stated for the order in which the model visits the children, which is insertion order. The code keeps them in a `HashSet` and visits them in hash order, and the sorting conjunction's stable sort breaks ties by that order. Only when a child faults does the order matter: it decides whether a conjunction fails or answers nothing, and which fault the sequential disjunction reports. The lemma holds for every visiting order, but the model does not predict which one the code uses. `Junction.SequentialOrFails` is unaffected, since it holds whichever child faults.
- Junction.AddChild: it appends the child, so the model's children are in insertion order, not the hash order of the code's `HashSet`.
- Cyclic junctions. The code accepts `j.add(j)` and any other cycle (its own note at `Junction.java` line 57 says the check is missing), and `find` on such a junction recurses until a `StackOverflowError`. A `Crit` is a finite tree, so it cannot be cyclic, and this error path is not modelled.
- NullKeyMap.EntrySetContains: the wrapped map's values are never null, while the Java class extends `TreeMap` and its `put` stores a null value like any other. For a key mapped to null, Java's `entrySet().contains((k, null))` is true, because `get` answers null for it as for an absent key. The model instead answers true only for an absent key. The container stores only non-null buckets, so it never reaches this case.
- NullKeyMap.Put, NullKeyMap.Remove: the previous value the Java methods return is not part of the result. It is the `NullKeyMap.Get` of the key before the call.
- Identity versus equality of junction children. Children are compared structurally. Conjunction and disjunction are idempotent, so this does not change any answer.
- Result order. Every result is a set of keys.
- The cost function of the sorting conjunction is a parameter. The int subtraction in its comparator, which can overflow, is not modelled: costs are compared as unbounded numbers.
- The `cmp` parameter is assumed consistent with `equals`, which the sorted index map relies on.
- The 32-bit width of `size()`.
- The annotation-processor plumbing, because it is I/O:
  - the Filer, Writer and Messager;
  - the text of the generated source (`getPackageAndImports`, `getCommentForClass`, `getIndexableConstants`);
  - the message texts.
- The processor state is modelled for one round. A processor that persists across rounds is not modelled.
- Case conversion covers ASCII letters only. `toUpperCase` and `equalsIgnoreCase` on other characters are not modelled.
- `Character.isJavaIdentifierPart` is a parameter.

## Findings

| source | as written | input that shows it | evidently intended | confidence | as-written member | corrected member |
|---|---|---|---|---|---|---|
| src/cz/kamosh/multiindex/annotation/MultiIndexContainerGenerator.java:323-326 | the checker answers true at the first declared interface for which `IMultiIndexed.class.getName().equals(asElement.getSimpleName())` is false; `String.equals` handed a `javax.lang.model.element.Name` is always false, because a Name is not a String, so every declared interface passes, `IMultiIndexed` itself included | a class that declares only `java.io.Serializable` is accepted, and an enum is generated for it | a class is accepted only when it declares the marker interface `IMultiIndexed` | not executed | Generator.SerializableRecordGetsEnum | Generator.OnlyMarkedClassesGetEnums |
