# listmaker in Dafny

A model of the two fluent list wrappers of the listmaker library:

- `Fluent<T>`, a replayable `java.util.stream.Stream` pipeline with
  intermediate operations (`map`, `filter`, `exclude`, `limit`, `skip`,
  `concat`, `flatMap`, `sorted`, `reversed`, `sortedOn`, `reversedOn`,
  `distinct`, `notNulls`) and terminal operations (`size`, `count`, `first`,
  `firstMatch`, `last`, `isEmpty`, `getOnlyElement`, `contains`, `indexOf`,
  `get`, `join`, `reduce`, `min`, `max`, the match quantifiers, `toSet`,
  `toSortedList`, `toSortedSet`, `uniqueIndex`, `index`, `toMap`,
  `forEachWithIndex`);
- `ListMaker<T>`, the older Guava-based wrapper with its `with` factories,
  the `only` and `exclude` filters, `first` and `firstOrDefault`, `count`,
  `sortOn`, `to`, `flatMap`, `min`/`max`, `toTreeSet`, `indexBy`, `getLast`
  and `equals`.

Either wrapper is modelled by the finite sequence it yields when iterated.
Intermediate operations are functions from that sequence to the next one.
Terminal operations return a value, an `Option` (for `java.util.Optional`),
a `map`, or a `Result` whose error is one of the exceptions the wrappers
throw: `InvalidArgument` (IllegalArgumentException), `IndexOutOfBounds`,
`NoSuchElement` and `DuplicateKey` (the "Same key used twice" exception).
Predicates, key extractors, transforms and comparators are Dafny function
values, and Java `equals` is Dafny `==`. The operations the source writes
as loops (`indexOf`, `get`, `join`, `forEachWithIndex`, `uniqueIndex`,
`index`, `toMap`, `only(f, values...)`, `indexBy`) are methods with `while`
loops, proved against the specification functions. `toTreeSet` hands its
elements to `Iterables.addAll`, which adds them to the `TreeSet` one at a
time; that library loop is modelled as a `while` loop as well.

Modules:

- `Wrappers` (`wrappers.dfy`): `Option`, `Failure`, `Result`.
- `Sequences` (`sequences.dfy`): the stream and Guava library operations the
  wrappers delegate to — filter, map, flatMap, left fold and reduce, first
  match, distinct, the joiner, and repeated `HashMap.put`.
- `Ordering` (`ordering.dfy`): comparators (`IsComparator`: the sign of
  `cmp(a, b)` is the opposite of that of `cmp(b, a)`, and "sorts no later"
  is transitive), the stable sort behind `Stream.sorted`,
  `Collections.sort` and `Ordering.sortedCopy`, the iteration order of a
  `TreeSet`, and `minBy`/`maxBy` reductions.
- `Fluent` (`fluent.dfy`): the `Fluent` operations.
- `ListMakers` (`listmakers.dfy`): the `ListMaker` operations.

A sort is stable when, for every pivot `c`, the elements comparing equal to
`c` appear in the result in the same order as in the input
(`Filter(r, Tied(cmp, c)) == Filter(s, Tied(cmp, c))`).

## Model

| member | source | states |
|---|---|---|
| Sequences.Filter | src/main/java/net/gageot/listmaker/Fluent.java:74-77 | filter keeps exactly the elements satisfying the predicate and never grows the sequence |
| Sequences.FilterAppend | src/main/java/net/gageot/listmaker/Fluent.java:74-77 | filtering a concatenation filters each part, so the original order is kept |
| Sequences.FilterPartition | src/main/java/net/gageot/listmaker/Fluent.java:79-82 | a predicate and its negation split the elements: sizes and multisets add up to the input |
| Sequences.Map | src/main/java/net/gageot/listmaker/Fluent.java:69-72 | map keeps the length and transforms element `i` into result `i` |
| Sequences.MapFusion | src/main/java/net/gageot/listmaker/Fluent.java:69-72 | mapping by `f` then `g` is mapping once by `f` then `g` composed |
| Sequences.FlatMap | src/main/java/net/gageot/listmaker/Fluent.java:321-324 | every produced value comes from the list of some element, and every value of every element's list is produced |
| Sequences.FlatMapAppend | src/main/java/net/gageot/listmaker/Fluent.java:321-324 | flatMap of a concatenation is the concatenation of the flatMaps |
| Sequences.FlatMapOfSingletons | src/main/java/net/gageot/listmaker/Fluent.java:321-324 | flatMap with one-element lists is map |
| Sequences.FoldLeft | src/main/java/net/gageot/listmaker/Fluent.java:254-257 | reduce(identity, accumulator) combines the elements left to right: the result on a non-empty sequence is the accumulator applied to the fold of all but the last element and the last element |
| Sequences.Reduce | src/main/java/net/gageot/listmaker/Fluent.java:259-262 | reduce(accumulator) is empty exactly for an empty sequence |
| Sequences.ReduceSnoc | src/main/java/net/gageot/listmaker/Fluent.java:259-262 | reducing one more element combines it with the reduction of the elements before it |
| Sequences.Distinct | src/main/java/net/gageot/listmaker/Fluent.java:338-340 | distinct holds exactly the input's elements, each once |
| Sequences.DistinctKeepsFirstOccurrenceOrder | src/main/java/net/gageot/listmaker/Fluent.java:338-340 | distinct lists the elements in the order of their first occurrence |
| Sequences.DistinctOfDuplicateFree | src/main/java/net/gageot/listmaker/Fluent.java:338-340 | distinct leaves a sequence without duplicates unchanged |
| Sequences.DistinctIdempotent | src/main/java/net/gageot/listmaker/Fluent.java:338-340 | applying distinct twice is applying it once |
| Sequences.JoinedAppend | src/main/java/net/gageot/listmaker/Fluent.java:116-123 | joining two non-empty parts puts exactly one delimiter between the joined parts |
| Sequences.CountWhere | src/main/java/net/gageot/listmaker/Fluent.java:94-97 | the count is zero exactly when no element matches and the size exactly when all do |
| Sequences.FilterSizeIsCount | src/main/java/net/gageot/listmaker/Fluent.java:94-97 | count(p) is the size of filter(p) |
| Sequences.Find | src/main/java/net/gageot/listmaker/Fluent.java:103-106 | the first matching element, nothing exactly when no element matches |
| Sequences.FindIsFilterHead | src/main/java/net/gageot/listmaker/Fluent.java:103-106 | filter(p).findFirst() is the first element satisfying p |
| Sequences.LastByKey | src/main/java/net/gageot/listmaker/ListMaker.java:254-262 | the keys of the map are exactly the keys of the elements |
| Sequences.LastByKeyKeepsLast | src/main/java/net/gageot/listmaker/ListMaker.java:254-262 | an element no later element shares its key with is the value under that key |
| Sequences.LastByKeyOfDistinctKeys | src/main/java/net/gageot/listmaker/Fluent.java:264-276 | with pairwise distinct keys every element is stored under its key and the map has one entry per element |
| Ordering.FlipIsComparator | src/main/java/net/gageot/listmaker/Fluent.java:347-350 | a reversed comparator is a comparator |
| Ordering.OnResultOfIsComparator | src/main/java/net/gageot/listmaker/Fluent.java:352-355 | comparing by a key is a comparator when the key comparator is one |
| Ordering.StableSort | src/main/java/net/gageot/listmaker/Fluent.java:342-345 | the sort is a permutation of its input |
| Ordering.InsertStable | src/main/java/net/gageot/listmaker/Fluent.java:342-345 | inserting after the elements that do not sort after it appends the new element to its tie class |
| Ordering.StableSortCorrect | src/main/java/net/gageot/listmaker/Fluent.java:342-345 | the sort is ascending and stable |
| Ordering.InsertAscending | src/main/java/net/gageot/listmaker/Fluent.java:342-345 | inserting into an ascending sequence keeps it ascending |
| Ordering.StableSortAscending | src/main/java/net/gageot/listmaker/Fluent.java:342-345 | the sort is ascending under a comparator |
| Ordering.StableSortKeepsTies | src/main/java/net/gageot/listmaker/Fluent.java:342-345 | for every pivot, the elements tied with it keep their input order |
| Ordering.TreeAdd | src/main/java/net/gageot/listmaker/ListMaker.java:220-224 | TreeSet.add keeps every element already there, adds nothing but the new element, and grows by at most one |
| Ordering.TreeAddAscending | src/main/java/net/gageot/listmaker/ListMaker.java:220-224 | TreeSet.add keeps the iteration order strictly ascending |
| Ordering.TreeAddRepresents | src/main/java/net/gageot/listmaker/ListMaker.java:220-224 | after TreeSet.add some element compares equal to the added one |
| Ordering.TreeSetOf | src/main/java/net/gageot/listmaker/Fluent.java:160-163 | a TreeSet filled from a sequence is no longer than it and holds only its elements |
| Ordering.TreeSetOfCorrect | src/main/java/net/gageot/listmaker/Fluent.java:160-163 | a TreeSet iterates strictly ascending, holds only input elements, and represents every input element by one comparing equal to it |
| Ordering.TreeSetOfDistinct | src/main/java/net/gageot/listmaker/ListMaker.java:220-224 | under a comparator consistent with equals the TreeSet holds exactly the distinct elements, each once |
| Ordering.FoldMinBy | src/main/java/net/gageot/listmaker/Fluent.java:239-242 | folding with minBy ends on the seed or an element, sorting no later than the seed or any element |
| Ordering.FoldMaxBy | src/main/java/net/gageot/listmaker/Fluent.java:244-247 | folding with maxBy ends on the seed or an element, sorting no earlier than the seed or any element |
| Ordering.Least | src/main/java/net/gageot/listmaker/Fluent.java:239-242 | min is empty exactly for an empty sequence and is otherwise an element |
| Ordering.Greatest | src/main/java/net/gageot/listmaker/Fluent.java:244-247 | max is empty exactly for an empty sequence and is otherwise an element |
| Ordering.LeastIsLeast | src/main/java/net/gageot/listmaker/Fluent.java:239-242 | min sorts no later than any element |
| Ordering.GreatestIsGreatest | src/main/java/net/gageot/listmaker/Fluent.java:244-247 | max sorts no earlier than any element |
| Fluent.Exclude | src/main/java/net/gageot/listmaker/Fluent.java:79-82 | exclude is filter by the negated predicate: exactly the elements failing the predicate, in their original order and with their multiplicity; its size plus that of filter is the size |
| Fluent.Limit | src/main/java/net/gageot/listmaker/Fluent.java:189-194 | a negative limit is an invalid argument; otherwise the result is the prefix of length min(n, size) |
| Fluent.Skip | src/main/java/net/gageot/listmaker/Fluent.java:196-201 | a negative count is an invalid argument; otherwise the result is the suffix left after min(n, size) elements |
| Fluent.LimitSkipSplit | src/main/java/net/gageot/listmaker/Fluent.java:189-201 | limit(n) followed by skip(n) gives the sequence back |
| Fluent.Concat | src/main/java/net/gageot/listmaker/Fluent.java:363-371 | the first size() elements of concat are the sequence and the rest are the values |
| Fluent.Sorted | src/main/java/net/gageot/listmaker/Fluent.java:334-345 | sorted is a permutation, ascending and stable under a comparator |
| Fluent.Reversed | src/main/java/net/gageot/listmaker/Fluent.java:347-350 | reversed is a permutation of the input |
| Fluent.ReversedDescending | src/main/java/net/gageot/listmaker/Fluent.java:347-350 | reversed is descending under the comparator and elements comparing equal keep their order |
| Fluent.SortedOn | src/main/java/net/gageot/listmaker/Fluent.java:352-355 | sortedOn is a permutation of the input |
| Fluent.SortedOnAscending | src/main/java/net/gageot/listmaker/Fluent.java:352-355 | sortedOn is ascending by key and elements with equal keys keep their order |
| Fluent.ReversedOn | src/main/java/net/gageot/listmaker/Fluent.java:357-360 | reversedOn is a permutation of the input |
| Fluent.ReversedOnDescending | src/main/java/net/gageot/listmaker/Fluent.java:357-360 | reversedOn is descending by key and elements with equal keys keep their order |
| Fluent.ToSortedList | src/main/java/net/gageot/listmaker/Fluent.java:153-158 | toSortedList holds what sorted(comparator) yields |
| Fluent.NotNulls | src/main/java/net/gageot/listmaker/Fluent.java:377-379 | notNulls is filter by non-null: exactly the non-null elements in their original order, dropping one element per null |
| Fluent.Count | src/main/java/net/gageot/listmaker/Fluent.java:94-97 | count(p) is the number of elements satisfying p |
| Fluent.Size | src/main/java/net/gageot/listmaker/Fluent.java:90-92 | size is zero exactly for an empty sequence |
| Fluent.SizeSplits | src/main/java/net/gageot/listmaker/Fluent.java:90-97 | size is count(p) plus count(not p) |
| Fluent.First | src/main/java/net/gageot/listmaker/Fluent.java:99-101 | first is empty exactly for an empty sequence and is otherwise element 0 |
| Fluent.FirstMatch | src/main/java/net/gageot/listmaker/Fluent.java:103-106 | firstMatch is the first element satisfying the predicate, empty exactly when none does |
| Fluent.FoldKeepRight | src/main/java/net/gageot/listmaker/Fluent.java:108-110 | folding with (l, r) -> r ends on the last element |
| Fluent.Last | src/main/java/net/gageot/listmaker/Fluent.java:108-110 | last is empty exactly for an empty sequence and is otherwise the final element |
| Fluent.IsEmpty | src/main/java/net/gageot/listmaker/Fluent.java:112-114 | isEmpty holds exactly when there is no first element, no last element, and the size is zero |
| Fluent.GetOnlyElement | src/main/java/net/gageot/listmaker/Fluent.java:373-375 | getOnlyElement fails with no-such-element exactly on an empty sequence and otherwise is first() |
| Fluent.AnyMatch | src/main/java/net/gageot/listmaker/Fluent.java:169-172 | anyMatch holds exactly when some element satisfies the predicate |
| Fluent.AllMatch | src/main/java/net/gageot/listmaker/Fluent.java:174-177 | allMatch holds exactly when every element satisfies the predicate |
| Fluent.NoneMatch | src/main/java/net/gageot/listmaker/Fluent.java:179-182 | noneMatch is the negation of anyMatch and is allMatch of the negated predicate |
| Fluent.Contains | src/main/java/net/gageot/listmaker/Fluent.java:129-131 | contains holds exactly when an equal element occurs |
| Fluent.ToSet | src/main/java/net/gageot/listmaker/Fluent.java:165-167 | toSet holds exactly the elements and has as many members as distinct() has elements |
| Fluent.DistinctCardinality | src/main/java/net/gageot/listmaker/Fluent.java:165-167 | the set of the elements has as many members as distinct() has elements |
| Fluent.IndexOf | src/main/java/net/gageot/listmaker/Fluent.java:133-142 | indexOf is the smallest index of an equal element, and -1 exactly when contains is false |
| Fluent.Get | src/main/java/net/gageot/listmaker/Fluent.java:306-319 | a negative index is an invalid argument before any range check; an index past the end is out of bounds; otherwise the element at the index |
| Fluent.Join | src/main/java/net/gageot/listmaker/Fluent.java:116-123 | the loop over a StringJoiner builds the element strings with one delimiter between neighbours, and "" for no elements |
| Fluent.JoinAll | src/main/java/net/gageot/listmaker/Fluent.java:125-127 | join() is join with the empty delimiter |
| Fluent.ForEachWithIndex | src/main/java/net/gageot/listmaker/Fluent.java:207-213 | the consumer receives (i, element i) for every index, in order |
| Fluent.UniqueIndex | src/main/java/net/gageot/listmaker/Fluent.java:264-276 | duplicate-key exactly when two elements share a key; otherwise every element under its key, one entry per element |
| Fluent.UniqueIndexAsWritten | src/main/java/net/gageot/listmaker/Fluent.java:264-276 | the loop as written, elements possibly null: a reported duplicate is a real shared key; otherwise the map holds the last element under each key |
| Fluent.UniqueIndexAsWrittenWithoutNulls | src/main/java/net/gageot/listmaker/Fluent.java:264-276 | when no element is null, the loop as written reports a duplicate exactly when two elements share a key |
| Fluent.UniqueIndexAsWrittenMissesNullDuplicate | src/main/java/net/gageot/listmaker/Fluent.java:264-276 | as written, `[null, 1]` with one key for all passes without a duplicate-key error |
| Fluent.Group | src/main/java/net/gageot/listmaker/Fluent.java:278-290 | the grouping's keys are exactly the keys of the elements |
| Fluent.GroupIsFilter | src/main/java/net/gageot/listmaker/Fluent.java:278-290 | each group is exactly the elements carrying its key, in their original order |
| Fluent.GroupSizesSum | src/main/java/net/gageot/listmaker/Fluent.java:278-290 | the group lengths, summed over the distinct keys, equal the number of elements |
| Fluent.Index | src/main/java/net/gageot/listmaker/Fluent.java:278-290 | the computeIfAbsent loop builds the grouping: keys of the elements, each group filtered by its key |
| Fluent.ToMap | src/main/java/net/gageot/listmaker/Fluent.java:292-304 | duplicate-key exactly when an element occurs twice; otherwise each element maps to its value |
| Fluent.ToMapAsWritten | src/main/java/net/gageot/listmaker/Fluent.java:292-304 | the loop as written: a reported duplicate is a real repeated element; otherwise every element maps to its (possibly null) value |
| Fluent.ToMapAsWrittenWithoutNulls | src/main/java/net/gageot/listmaker/Fluent.java:292-304 | when no value is null, the loop as written reports a duplicate exactly for a repeated element |
| Fluent.ToMapAsWrittenMissesNullDuplicate | src/main/java/net/gageot/listmaker/Fluent.java:292-304 | as written, a repeated element whose value is null passes without a duplicate-key error |
| ListMakers.With | src/main/java/net/gageot/listmaker/ListMaker.java:37-42 | a ListMaker is returned itself; any iterable is wrapped yielding the same elements |
| ListMakers.WithValues | src/main/java/net/gageot/listmaker/ListMaker.java:44-51 | toList() of with(values...) gives the values back |
| ListMakers.Only | src/main/java/net/gageot/listmaker/ListMaker.java:53-58 | alwaysTrue returns the same ListMaker; otherwise exactly the elements passing the filter, in order |
| ListMakers.OnlyWhereEquals | src/main/java/net/gageot/listmaker/ListMaker.java:60-62 | is the filter by whereEquals: exactly the elements whose image equals the value, in their original order |
| ListMakers.AnyWhereEquals | src/main/java/net/gageot/listmaker/ListMaker.java:64-74 | the or of one whereEquals per value holds exactly when the image is one of the values |
| ListMakers.OnlyWhereAny | src/main/java/net/gageot/listmaker/ListMaker.java:64-74 | keeps, in order, exactly the elements whose image is one of the values |
| ListMakers.OnlyComposed | src/main/java/net/gageot/listmaker/ListMaker.java:76-78 | is the filter by the composed predicate: exactly the elements whose image passes the filter, in their original order |
| ListMakers.ExcludeWhere | src/main/java/net/gageot/listmaker/ListMaker.java:132-134 | is only(not(filter)): exactly the elements failing the filter, in their original order; its size plus that of only(filter) is the size |
| ListMakers.ExcludeComposed | src/main/java/net/gageot/listmaker/ListMaker.java:136-138 | is the filter by the negated composed predicate: exactly the elements whose image fails the filter, in their original order |
| ListMakers.ExcludeValues | src/main/java/net/gageot/listmaker/ListMaker.java:140-142 | keeps, in order, exactly the elements equal to none of the values |
| ListMakers.ExcludeIn | src/main/java/net/gageot/listmaker/ListMaker.java:144-146 | keeps, in order, exactly the elements not in the collection |
| ListMakers.ExcludeValuesIsExcludeIn | src/main/java/net/gageot/listmaker/ListMaker.java:140-146 | excluding a list of values is excluding the collection of the same values |
| ListMakers.NotNulls | src/main/java/net/gageot/listmaker/ListMaker.java:168-170 | yields what Fluent's notNulls yields: exactly the non-null elements, in their original order |
| ListMakers.ToList | src/main/java/net/gageot/listmaker/ListMaker.java:196-198 | toList() copies the elements: wrapping the copy gives the same ListMaker back, with as many elements |
| ListMakers.Size | src/main/java/net/gageot/listmaker/ListMaker.java:250-252 | size is count(alwaysTrue) |
| ListMakers.Count | src/main/java/net/gageot/listmaker/ListMaker.java:148-150 | count(filter) is the number of elements passing the filter |
| ListMakers.CountWhereEquals | src/main/java/net/gageot/listmaker/ListMaker.java:152-154 | count(equalTo, value) is count of whereEquals, zero exactly when no image equals the value |
| ListMakers.IsEmpty | src/main/java/net/gageot/listmaker/ListMaker.java:269-271 | isEmpty holds exactly when size is zero and exactly when first() fails |
| ListMakers.First | src/main/java/net/gageot/listmaker/ListMaker.java:112-118 | no-such-element exactly on an empty sequence, otherwise element 0 |
| ListMakers.FirstWhere | src/main/java/net/gageot/listmaker/ListMaker.java:80-82 | no-such-element exactly when nothing matches, otherwise the first matching element |
| ListMakers.FirstWhereEquals | src/main/java/net/gageot/listmaker/ListMaker.java:108-110 | no-such-element exactly when no image equals the value, otherwise the first element whose image does |
| ListMakers.FirstOrDefault | src/main/java/net/gageot/listmaker/ListMaker.java:84-90 | the default on an empty sequence, otherwise element 0 |
| ListMakers.FirstOrDefaultWhere | src/main/java/net/gageot/listmaker/ListMaker.java:92-98 | the default when nothing matches, otherwise what first(predicate) returns: the first matching element |
| ListMakers.FirstOrDefaultWhereEquals | src/main/java/net/gageot/listmaker/ListMaker.java:100-106 | the default when no image equals the value, otherwise what first(equalTo, value) returns: the first element whose image equals the value |
| ListMakers.GetLast | src/main/java/net/gageot/listmaker/ListMaker.java:246-248 | no-such-element exactly on an empty sequence, otherwise the final element |
| ListMakers.Contains | src/main/java/net/gageot/listmaker/ListMaker.java:120-122 | holds exactly when some element satisfies the predicate, i.e. when first(predicate) succeeds |
| ListMakers.ContainsWhereEquals | src/main/java/net/gageot/listmaker/ListMaker.java:124-126 | holds exactly when some element's image equals the value |
| ListMakers.To | src/main/java/net/gageot/listmaker/ListMaker.java:172-174 | same length, element `i` transformed |
| ListMakers.FlatMap | src/main/java/net/gageot/listmaker/ListMaker.java:176-178 | yields the concatenation of the transformed elements' values, element by element in order |
| ListMakers.SortOn | src/main/java/net/gageot/listmaker/ListMaker.java:156-162 | a permutation, ascending and stable under a comparator |
| ListMakers.SortOnResultOf | src/main/java/net/gageot/listmaker/ListMaker.java:164-166 | a permutation of the input |
| ListMakers.SortOnResultOfAscending | src/main/java/net/gageot/listmaker/ListMaker.java:164-166 | ascending by key, elements with equal keys in their original order |
| ListMakers.Max | src/main/java/net/gageot/listmaker/ListMaker.java:180-182 | no-such-element exactly on an empty sequence, otherwise an element |
| ListMakers.Min | src/main/java/net/gageot/listmaker/ListMaker.java:184-186 | no-such-element exactly on an empty sequence, otherwise an element |
| ListMakers.MaxMinAreExtremal | src/main/java/net/gageot/listmaker/ListMaker.java:180-186 | max sorts no earlier and min no later than any element |
| ListMakers.MaxOnResultOf | src/main/java/net/gageot/listmaker/ListMaker.java:188-190 | no-such-element exactly on an empty sequence, otherwise an element |
| ListMakers.MinOnResultOf | src/main/java/net/gageot/listmaker/ListMaker.java:192-194 | no-such-element exactly on an empty sequence, otherwise an element |
| ListMakers.OnResultOfExtremal | src/main/java/net/gageot/listmaker/ListMaker.java:188-194 | maxOnResultOf and minOnResultOf pick elements with the greatest and least keys |
| ListMakers.Join | src/main/java/net/gageot/listmaker/ListMaker.java:204-206 | "" for no elements, the element's string for one |
| ListMakers.ToSet | src/main/java/net/gageot/listmaker/ListMaker.java:212-214 | holds exactly the elements |
| ListMakers.ToSetOf | src/main/java/net/gageot/listmaker/ListMaker.java:216-218 | holds exactly the transformed elements |
| ListMakers.ToTreeSet | src/main/java/net/gageot/listmaker/ListMaker.java:220-230 | the add loop builds the TreeSet: strictly ascending, only input elements, each represented; exactly the distinct elements under a comparator consistent with equals |
| ListMakers.ToTreeSetOf | src/main/java/net/gageot/listmaker/ListMaker.java:232-240 | the TreeSet of the transformed elements, strictly ascending |
| ListMakers.IndexBy | src/main/java/net/gageot/listmaker/ListMaker.java:254-262 | never fails; keys are the elements' keys and each key holds the last element carrying it |
| ListMakers.Equals | src/main/java/net/gageot/listmaker/ListMaker.java:277-280 | equal only to an iterable, and then exactly when it yields the same elements in the same order |
| ListMakers.EqualsIsEquivalence | src/main/java/net/gageot/listmaker/ListMaker.java:277-280 | between ListMakers, equals is reflexive, symmetric and transitive; and with(it) equals it |

## Left out

- Stream and iterator plumbing: `stream()`, `iterator()`, laziness, and the single-pass sources `of(Iterator)` and `of(Stream)`; a wrapper is only its finite element sequence, so replaying is not modelled.
- `cycle()`: its stream is infinite and has no finite sequence.
- Primitive streams: `of(int[])`, `of(double[])`, `of(long[])`, `intStream`, `longStream`, `doubleStream` (boxing and floating point).
- `collect`, `copyInto`, `toArray(generator)`, `ListMaker.toArray(Class)`: arbitrary collectors and reflection.
- `filter(Class)` and `exclude(Class)`: runtime type tests; with a type test given as a predicate they are `filter` and `exclude`.
- `forEachOrdered`: it hands the elements to the action in order, which `ForEachWithIndex` already shows.
- `substream`, a pre-release stream method: `skip` is modelled as dropping elements.
- `hashCode`, `toString`, `toImmutableList`, `toImmutableSet`, and hash iteration order: sets and maps are Dafny sets and maps, so iteration order is not modelled.
- `requireNonNull` checks: Dafny arguments are never null.
- Nulls in general: elements are values and never null. Nulls are modelled with `Option` only where the null case changes the outcome: the elements of `notNulls`, the values of `toMap` (Fluent.ToMapAsWritten) and the elements of `uniqueIndex` (Fluent.UniqueIndexAsWritten). Fluent.UniqueIndex and Fluent.ToMap are the corrected versions, over values that are never null (see Findings).
- Object identity: `with(listMaker)` returning the same instance and `this == o` in `equals` are modelled by value equality.
- Java `int` and `long` widths: sizes, counts and indexes are unbounded, so the saturation of `Iterables.size` at `Integer.MAX_VALUE` is not modelled.
- Exceptions thrown by predicates, transforms and comparators: the function values are total.
- `String.valueOf` in `join`: the element-to-string conversion is a parameter.
- The natural ordering (`compareTo`, used by `sorted()`, `sortedOn`, `reversedOn`, `toTreeSet()`, `toTreeSet(transform)`, `sortOn(transform)`, `maxOnResultOf`, `minOnResultOf`): it is a comparator parameter.
- Ordering.Least and Ordering.Greatest: which of several tied extremes is returned is not stated, only that the result is an element and extremal under a comparator.
- Fluent.Reversed, Fluent.SortedOn, Fluent.ReversedOn, ListMakers.SortOnResultOf: their order and stability hold under a comparator and are stated by the lemmas beside them rather than in their own contracts.
- ListMakers.Join: its own contract states only the empty and one-element cases; the one-separator-between-neighbours structure is stated by Sequences.JoinedAppend and by the loop of Fluent.Join, which compute the same Joined string.
- ListMakers.ExcludeIn: `Collection.contains` is read as membership by `equals`; a collection whose `contains` uses something else (a `TreeSet` with its own comparator, an identity set) may exclude different elements.
- Accumulator.java is not part of this model: it only holds a summing constant.

## Findings

| source | as written | input that shows it | evidently intended | confidence | as-written member | corrected member |
|---|---|---|---|---|---|---|
| src/main/java/net/gageot/listmaker/Fluent.java:292-304 | `toMap` reports a duplicate only when `map.put` returns a non-null previous value | elements `[7, 7]` with a `toValue` returning null: the map `{7: null}` is returned and no "Same key used twice" exception is thrown | every element occurring twice is a duplicate key, whatever its value | not executed | Fluent.ToMapAsWrittenMissesNullDuplicate | Fluent.ToMap |
| src/main/java/net/gageot/listmaker/Fluent.java:264-276 | `uniqueIndex` reports a duplicate only when `map.put` returns a non-null previous element | elements `[null, 1]` with a key function returning the same key for both: the map `{k: 1}` is returned and no "Same key used twice" exception is thrown | every key shared by two elements is reported, whatever the elements | not executed | Fluent.UniqueIndexAsWrittenMissesNullDuplicate | Fluent.UniqueIndex |
