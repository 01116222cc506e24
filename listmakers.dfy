/** ListMaker<T>: the Guava-based wrapper around an Iterable, modelled by the
    finite sequence it yields. Its filters are built from Guava predicates,
    which here are Dafny function values; `Predicates.alwaysTrue()` is kept
    apart because `only` tests for it by identity. */
module ListMakers {
  import opened Wrappers
  import opened Sequences
  import opened Ordering
  import Fluent

  datatype ListMaker<T> = ListMaker(values: seq<T>)

  /** What `with(Iterable)` may be handed: a ListMaker, or any other iterable. */
  datatype Iterable<T> = Maker(maker: ListMaker<T>) | Elements(elements: seq<T>)

  /** What iterating over an iterable yields. */
  function Yielded<T>(it: Iterable<T>): seq<T> {
    match it
    case Maker(lm) => lm.values
    case Elements(s) => s
  }

  /** A Guava predicate: the shared `alwaysTrue()` instance, or any other test. */
  datatype Predicate<!T> = AlwaysTrue | Where(test: T -> bool)

  function True<T>(): T -> bool {
    x => true
  }

  /** What applying a predicate computes. */
  function Test<T>(p: Predicate<T>): T -> bool {
    match p
    case AlwaysTrue => True()
    case Where(test) => test
  }

  // ---------------------------------------------------------------------------
  // Factories

  /** with(Iterable): a ListMaker is returned as it is; any other iterable is
      wrapped, and the wrapper yields what the iterable yields. */
  function With<T>(values: Iterable<T>): (lm: ListMaker<T>)
    ensures values.Maker? ==> lm == values.maker
    ensures lm.values == Yielded(values)
  {
    match values
    case Maker(lm) => lm
    case Elements(s) => ListMaker(s)
  }

  /** with(), with(T...): the given values, in order. */
  function WithValues<T>(values: seq<T>): (lm: ListMaker<T>)
    ensures ToList(lm) == values
  {
    ListMaker(values)
  }

  /** toList(): a copy of the elements, in order. */
  function ToList<T>(lm: ListMaker<T>): (r: seq<T>)
    ensures With(Elements(r)) == lm
    ensures |r| == Size(lm)
  {
    lm.values
  }

  // ---------------------------------------------------------------------------
  // Filters

  /** only(filter): alwaysTrue gives the ListMaker itself back; any other
      filter keeps exactly the elements that pass it, in order. */
  function Only<T>(lm: ListMaker<T>, filter: Predicate<T>): (r: ListMaker<T>)
    ensures filter.AlwaysTrue? ==> r == lm
    ensures r.values == Filter(lm.values, Test(filter))
  {
    if filter.AlwaysTrue? then
      FilterKeepsAll(lm.values, Test(filter));
      lm
    else
      With(Elements(Filter(lm.values, Test(filter))))
  }

  /** whereEquals(equalTo, value): compose(equalTo(value), equalTo). */
  function WhereEquals<T, P(==)>(equalTo: T -> P, value: P): T -> bool {
    x => equalTo(x) == value
  }

  /** only(equalTo, value) */
  function OnlyWhereEquals<T, P(==)>(lm: ListMaker<T>, equalTo: T -> P, value: P): (r: ListMaker<T>)
    ensures r.values == Filter(lm.values, WhereEquals(equalTo, value))
    ensures forall x :: x in r.values ==> x in lm.values && equalTo(x) == value
    ensures forall x :: x in lm.values && equalTo(x) == value ==> x in r.values
  {
    Only(lm, Where(WhereEquals(equalTo, value)))
  }

  /** Whether one of the predicates holds for `x`: Predicates.or over an array. */
  function Any<T>(predicates: seq<T -> bool>, x: T): bool {
    predicates != [] && (predicates[0](x) || Any(predicates[1..], x))
  }

  function AnyOf<T>(predicates: seq<T -> bool>): T -> bool {
    x => Any(predicates, x)
  }

  /** The elements whose image under `equalTo` is one of `values`. */
  function WhereEqualsAny<T, P(==)>(equalTo: T -> P, values: seq<P>): T -> bool {
    x => equalTo(x) in values
  }

  /** The disjunction of one whereEquals per value holds exactly where the
      image is one of the values. */
  lemma {:induction false} AnyWhereEquals<T, P>(predicates: seq<T -> bool>, equalTo: T -> P, values: seq<P>, x: T)
    requires |predicates| == |values|
    requires forall j :: 0 <= j < |values| ==> predicates[j] == WhereEquals(equalTo, values[j])
    ensures Any(predicates, x) <==> equalTo(x) in values
  {
    if values != [] {
      AnyWhereEquals(predicates[1..], equalTo, values[1..], x);
      assert values == [values[0]] + values[1..];
    }
  }

  /** only(equalTo, values...): one whereEquals predicate per value, or-ed together. */
  method OnlyWhereAny<T, P(==)>(lm: ListMaker<T>, equalTo: T -> P, valuesToCompareWith: seq<P>)
    returns (r: ListMaker<T>)
    ensures r.values == Filter(lm.values, WhereEqualsAny(equalTo, valuesToCompareWith))
    ensures forall x :: x in r.values ==> x in lm.values && equalTo(x) in valuesToCompareWith
    ensures forall x :: x in lm.values && equalTo(x) in valuesToCompareWith ==> x in r.values
  {
    var allWhereEquals: seq<T -> bool> := [];
    var i := 0;
    while i < |valuesToCompareWith|
      invariant 0 <= i <= |valuesToCompareWith|
      invariant |allWhereEquals| == i
      invariant forall j :: 0 <= j < i ==> allWhereEquals[j] == WhereEquals(equalTo, valuesToCompareWith[j])
    {
      allWhereEquals := allWhereEquals + [WhereEquals(equalTo, valuesToCompareWith[i])];
      i := i + 1;
    }
    r := Only(lm, Where(AnyOf(allWhereEquals)));
    forall x | x in lm.values
      ensures AnyOf(allWhereEquals)(x) == WhereEqualsAny(equalTo, valuesToCompareWith)(x)
    {
      AnyWhereEquals(allWhereEquals, equalTo, valuesToCompareWith, x);
    }
    FilterAgrees(lm.values, AnyOf(allWhereEquals), WhereEqualsAny(equalTo, valuesToCompareWith));
  }

  /** only(transform, filter): the elements whose image passes the filter. */
  function OnlyComposed<T, P>(lm: ListMaker<T>, transform: T -> P, filter: P -> bool): (r: ListMaker<T>)
    ensures r.values == Filter(lm.values, AndThen(transform, filter))
    ensures forall x :: x in r.values ==> x in lm.values && filter(transform(x))
    ensures forall x :: x in lm.values && filter(transform(x)) ==> x in r.values
  {
    Only(lm, Where(AndThen(transform, filter)))
  }

  /** exclude(filter): only(not(filter)). */
  function ExcludeWhere<T>(lm: ListMaker<T>, filter: T -> bool): (r: ListMaker<T>)
    ensures r == Only(lm, Where(Not(filter)))
    ensures r.values == Filter(lm.values, Not(filter))
    ensures forall x :: x in r.values ==> x in lm.values && !filter(x)
    ensures forall x :: x in lm.values && !filter(x) ==> x in r.values
    ensures |Only(lm, Where(filter)).values| + |r.values| == |lm.values|
  {
    FilterPartition(lm.values, filter);
    Only(lm, Where(Not(filter)))
  }

  /** exclude(transform, filter): only(not(compose(filter, transform))). */
  function ExcludeComposed<T, P>(lm: ListMaker<T>, transform: T -> P, filter: P -> bool): (r: ListMaker<T>)
    ensures r.values == Filter(lm.values, Not(AndThen(transform, filter)))
    ensures forall x :: x in r.values ==> x in lm.values && !filter(transform(x))
    ensures forall x :: x in lm.values && !filter(transform(x)) ==> x in r.values
  {
    Only(lm, Where(Not(AndThen(transform, filter))))
  }

  function In<T(==)>(values: seq<T>): T -> bool {
    x => x in values
  }

  /** exclude(T...): the elements equal to none of the given values, in order. */
  function ExcludeValues<T(==)>(lm: ListMaker<T>, excludeValues: seq<T>): (r: ListMaker<T>)
    ensures r.values == Filter(lm.values, Not(In(excludeValues)))
    ensures forall x :: x in r.values ==> x in lm.values && x !in excludeValues
    ensures forall x :: x in lm.values && x !in excludeValues ==> x in r.values
  {
    Only(lm, Where(Not(In(excludeValues))))
  }

  function InSet<T(==)>(values: set<T>): T -> bool {
    x => x in values
  }

  /** exclude(Collection): as exclude(T...), with the collection's contains. */
  function ExcludeIn<T(==)>(lm: ListMaker<T>, excludeValues: set<T>): (r: ListMaker<T>)
    ensures r.values == Filter(lm.values, Not(InSet(excludeValues)))
    ensures forall x :: x in r.values ==> x in lm.values && x !in excludeValues
    ensures forall x :: x in lm.values && x !in excludeValues ==> x in r.values
  {
    Only(lm, Where(Not(InSet(excludeValues))))
  }

  /** Excluding the values of a list or of a set holding the same values is the same. */
  lemma ExcludeValuesIsExcludeIn<T>(lm: ListMaker<T>, excludeValues: seq<T>)
    ensures ExcludeValues(lm, excludeValues) == ExcludeIn(lm, set x | x in excludeValues)
  {
    FilterAgrees(lm.values, Not(In(excludeValues)), Not(InSet(set x | x in excludeValues)));
  }

  /** notNulls(): only(notNull()), with `None` standing for null. */
  function NotNulls<T>(lm: ListMaker<Option<T>>): (r: ListMaker<Option<T>>)
    ensures r.values == Fluent.NotNulls(lm.values)
    ensures forall x :: x in r.values ==> x in lm.values && x.Some?
    ensures forall x :: x in lm.values && x.Some? ==> x in r.values
  {
    Only(lm, Where(Fluent.IsPresent()))
  }

  // ---------------------------------------------------------------------------
  // Counting

  /** size(): how many elements there are. */
  function Size<T>(lm: ListMaker<T>): (n: nat)
    ensures n == Count(lm, AlwaysTrue)
  {
    |lm.values|
  }

  /** count(filter): only(filter).size(). */
  function Count<T>(lm: ListMaker<T>, filter: Predicate<T>): (n: nat)
    ensures n == CountWhere(lm.values, Test(filter))
  {
    FilterSizeIsCount(lm.values, Test(filter));
    |Only(lm, filter).values|
  }

  /** count(equalTo, value) */
  function CountWhereEquals<T, P(==)>(lm: ListMaker<T>, equalTo: T -> P, value: P): (n: nat)
    ensures n == Count(lm, Where(WhereEquals(equalTo, value)))
    ensures n == 0 <==> forall x :: x in lm.values ==> equalTo(x) != value
  {
    |Only(lm, Where(WhereEquals(equalTo, value))).values|
  }

  /** isEmpty() */
  function IsEmpty<T>(lm: ListMaker<T>): (b: bool)
    ensures b <==> Size(lm) == 0
    ensures b <==> First(lm).Err?
  {
    |lm.values| == 0
  }

  // ---------------------------------------------------------------------------
  // First and last elements

  /** first(): Iterables.get(values, 0), with its IndexOutOfBoundsException
      turned into a NoSuchElementException. */
  function First<T>(lm: ListMaker<T>): (r: Result<T>)
    ensures r.Err? <==> lm.values == []
    ensures r.Err? ==> r.failure == NoSuchElement
    ensures r.Ok? ==> r.value == lm.values[0]
  {
    if |lm.values| == 0 then Err(NoSuchElement) else Ok(lm.values[0])
  }

  /** first(predicate): Iterables.find, which fails when nothing matches. */
  function FirstWhere<T>(lm: ListMaker<T>, condition: T -> bool): (r: Result<T>)
    ensures r.Err? <==> forall x :: x in lm.values ==> !condition(x)
    ensures r.Err? ==> r.failure == NoSuchElement
    ensures r.Ok? ==> exists i :: 0 <= i < |lm.values| && lm.values[i] == r.value && condition(r.value) &&
                                  forall j :: 0 <= j < i ==> !condition(lm.values[j])
  {
    match Find(lm.values, condition)
    case Some(v) => Ok(v)
    case None => Err(NoSuchElement)
  }

  /** first(equalTo, value) */
  function FirstWhereEquals<T, P(==)>(lm: ListMaker<T>, equalTo: T -> P, value: P): (r: Result<T>)
    ensures r.Err? <==> forall x :: x in lm.values ==> equalTo(x) != value
    ensures r.Err? ==> r.failure == NoSuchElement
    ensures r.Ok? ==> exists i :: 0 <= i < |lm.values| && lm.values[i] == r.value && equalTo(r.value) == value &&
                                  forall j :: 0 <= j < i ==> equalTo(lm.values[j]) != value
  {
    FirstWhere(lm, WhereEquals(equalTo, value))
  }

  /** firstOrDefault(default): the default exactly when first() fails. */
  function FirstOrDefault<T>(lm: ListMaker<T>, defaultValue: T): (r: T)
    ensures lm.values == [] ==> r == defaultValue
    ensures lm.values != [] ==> r == lm.values[0]
  {
    match First(lm)
    case Ok(v) => v
    case Err(_) => defaultValue
  }

  /** firstOrDefault(predicate, default): the default exactly when first(predicate) fails. */
  function FirstOrDefaultWhere<T>(lm: ListMaker<T>, condition: T -> bool, defaultValue: T): (r: T)
    ensures (forall x :: x in lm.values ==> !condition(x)) ==> r == defaultValue
    ensures FirstWhere(lm, condition).Ok? ==> r == FirstWhere(lm, condition).value
    ensures (exists x :: x in lm.values && condition(x)) ==>
      exists i :: 0 <= i < |lm.values| && lm.values[i] == r && condition(r) &&
                  forall j :: 0 <= j < i ==> !condition(lm.values[j])
  {
    match FirstWhere(lm, condition)
    case Ok(v) => v
    case Err(_) => defaultValue
  }

  /** firstOrDefault(equalTo, value, default) */
  function FirstOrDefaultWhereEquals<T, P(==)>(lm: ListMaker<T>, equalTo: T -> P, value: P, defaultValue: T): (r: T)
    ensures (forall x :: x in lm.values ==> equalTo(x) != value) ==> r == defaultValue
    ensures FirstWhereEquals(lm, equalTo, value).Ok? ==> r == FirstWhereEquals(lm, equalTo, value).value
    ensures (exists x :: x in lm.values && equalTo(x) == value) ==>
      exists i :: 0 <= i < |lm.values| && lm.values[i] == r && equalTo(r) == value &&
                  forall j :: 0 <= j < i ==> equalTo(lm.values[j]) != value
  {
    match FirstWhereEquals(lm, equalTo, value)
    case Ok(v) => v
    case Err(_) => defaultValue
  }

  /** getLast(): Iterables.getLast, which fails on an empty iterable. */
  function GetLast<T>(lm: ListMaker<T>): (r: Result<T>)
    ensures r.Err? <==> lm.values == []
    ensures r.Err? ==> r.failure == NoSuchElement
    ensures r.Ok? ==> r.value == lm.values[|lm.values| - 1]
  {
    match Fluent.Last(lm.values)
    case Some(v) => Ok(v)
    case None => Err(NoSuchElement)
  }

  /** contains(condition): Iterables.any. */
  function Contains<T>(lm: ListMaker<T>, condition: T -> bool): (b: bool)
    ensures b <==> exists x :: x in lm.values && condition(x)
    ensures b <==> FirstWhere(lm, condition).Ok?
  {
    Find(lm.values, condition).Some?
  }

  /** contains(equalTo, value) */
  function ContainsWhereEquals<T, P(==)>(lm: ListMaker<T>, equalTo: T -> P, value: P): (b: bool)
    ensures b <==> exists x :: x in lm.values && equalTo(x) == value
  {
    Contains(lm, WhereEquals(equalTo, value))
  }

  // ---------------------------------------------------------------------------
  // Transforms and ordering

  /** to(transform): each element transformed, in order. */
  function To<T, R>(lm: ListMaker<T>, transform: T -> R): (r: ListMaker<R>)
    ensures |r.values| == |lm.values|
    ensures forall i :: 0 <= i < |lm.values| ==> r.values[i] == transform(lm.values[i])
  {
    With(Elements(Map(lm.values, transform)))
  }

  /** flatMap(transform): Iterables.concat of the transformed elements. */
  function FlatMap<T, R>(lm: ListMaker<T>, transform: T -> seq<R>): (r: ListMaker<R>)
    ensures r.values == Sequences.FlatMap(lm.values, transform)
    ensures forall y :: y in r.values ==> exists x :: x in lm.values && y in transform(x)
    ensures forall x, y :: x in lm.values && y in transform(x) ==> y in r.values
  {
    With(Elements(Sequences.FlatMap(lm.values, transform)))
  }

  /** sortOn(ordering), sortOn(comparator): Ordering.sortedCopy, a stable sort. */
  function SortOn<T(!new)>(lm: ListMaker<T>, comparator: Comparator<T>): (r: ListMaker<T>)
    ensures multiset(r.values) == multiset(lm.values)
    ensures IsComparator(comparator) ==> Ascending(r.values, comparator)
    ensures IsComparator(comparator) ==>
      forall c :: Filter(r.values, Tied(comparator, c)) == Filter(lm.values, Tied(comparator, c))
  {
    StableSortCorrect(lm.values, comparator);
    With(Elements(StableSort(lm.values, comparator)))
  }

  /** sortOn(transform): the natural ordering on the result of the transform. */
  function SortOnResultOf<T(!new), K(!new)>(lm: ListMaker<T>, transform: T -> K, keyComparator: Comparator<K>): (r: ListMaker<T>)
    ensures multiset(r.values) == multiset(lm.values)
  {
    SortOn(lm, OnResultOf(transform, keyComparator))
  }

  /** sortOn(transform) yields the elements ascending by key, and elements
      with equal keys keep their original order. */
  lemma SortOnResultOfAscending<T(!new), K(!new)>(lm: ListMaker<T>, transform: T -> K, keyComparator: Comparator<K>)
    requires IsComparator(keyComparator)
    ensures var r := SortOnResultOf(lm, transform, keyComparator).values;
      forall i, j :: 0 <= i < j < |r| ==> keyComparator(transform(r[i]), transform(r[j])) <= 0
    ensures var r := SortOnResultOf(lm, transform, keyComparator).values;
      forall c :: Filter(r, Tied(OnResultOf(transform, keyComparator), c)) ==
                  Filter(lm.values, Tied(OnResultOf(transform, keyComparator), c))
  {
    OnResultOfIsComparator(transform, keyComparator);
  }

  /** max(ordering): Ordering.max, which fails on an empty iterable. */
  function Max<T>(lm: ListMaker<T>, ordering: Comparator<T>): (r: Result<T>)
    ensures r.Err? <==> lm.values == []
    ensures r.Err? ==> r.failure == NoSuchElement
    ensures r.Ok? ==> r.value in lm.values && Some(r.value) == Greatest(lm.values, ordering)
  {
    match Greatest(lm.values, ordering)
    case Some(v) => Ok(v)
    case None => Err(NoSuchElement)
  }

  /** min(ordering): Ordering.min, which fails on an empty iterable. */
  function Min<T>(lm: ListMaker<T>, ordering: Comparator<T>): (r: Result<T>)
    ensures r.Err? <==> lm.values == []
    ensures r.Err? ==> r.failure == NoSuchElement
    ensures r.Ok? ==> r.value in lm.values && Some(r.value) == Least(lm.values, ordering)
  {
    match Least(lm.values, ordering)
    case Some(v) => Ok(v)
    case None => Err(NoSuchElement)
  }

  /** max and min are elements, extremal under the ordering. */
  lemma MaxMinAreExtremal<T(!new)>(lm: ListMaker<T>, ordering: Comparator<T>)
    requires IsComparator(ordering) && lm.values != []
    ensures Max(lm, ordering).value in lm.values && Min(lm, ordering).value in lm.values
    ensures forall x :: x in lm.values ==> ordering(Max(lm, ordering).value, x) >= 0
    ensures forall x :: x in lm.values ==> ordering(Min(lm, ordering).value, x) <= 0
  {
    GreatestIsGreatest(lm.values, ordering);
    LeastIsLeast(lm.values, ordering);
  }

  /** maxOnResultOf(function): the natural ordering on the result of the function. */
  function MaxOnResultOf<T, K>(lm: ListMaker<T>, keyFunction: T -> K, keyComparator: Comparator<K>): (r: Result<T>)
    ensures r.Err? <==> lm.values == []
    ensures r.Err? ==> r.failure == NoSuchElement
    ensures r.Ok? ==> r.value in lm.values
  {
    Max(lm, OnResultOf(keyFunction, keyComparator))
  }

  /** minOnResultOf(function) */
  function MinOnResultOf<T, K>(lm: ListMaker<T>, keyFunction: T -> K, keyComparator: Comparator<K>): (r: Result<T>)
    ensures r.Err? <==> lm.values == []
    ensures r.Err? ==> r.failure == NoSuchElement
    ensures r.Ok? ==> r.value in lm.values
  {
    Min(lm, OnResultOf(keyFunction, keyComparator))
  }

  /** maxOnResultOf and minOnResultOf pick elements whose keys are extremal. */
  lemma OnResultOfExtremal<T(!new), K(!new)>(lm: ListMaker<T>, keyFunction: T -> K, keyComparator: Comparator<K>)
    requires IsComparator(keyComparator) && lm.values != []
    ensures forall x :: x in lm.values ==>
      keyComparator(keyFunction(MaxOnResultOf(lm, keyFunction, keyComparator).value), keyFunction(x)) >= 0
    ensures forall x :: x in lm.values ==>
      keyComparator(keyFunction(MinOnResultOf(lm, keyFunction, keyComparator).value), keyFunction(x)) <= 0
  {
    OnResultOfIsComparator(keyFunction, keyComparator);
    MaxMinAreExtremal(lm, OnResultOf(keyFunction, keyComparator));
  }

  // ---------------------------------------------------------------------------
  // Conversions

  /** join(separator): Joiner.on(separator).join, one separator between neighbours. */
  function Join<T>(lm: ListMaker<T>, separator: string, valueOf: T -> string): (r: string)
    ensures lm.values == [] ==> r == ""
    ensures |lm.values| == 1 ==> r == valueOf(lm.values[0])
  {
    Joined(lm.values, separator, valueOf)
  }

  /** toSet(): Sets.newHashSet, the elements without duplicates. */
  function ToSet<T>(lm: ListMaker<T>): (r: set<T>)
    ensures forall x :: x in r ==> x in lm.values
    ensures forall x :: x in lm.values ==> x in r
  {
    set x | x in lm.values
  }

  /** toSet(transform): the set of the transformed elements. */
  function ToSetOf<T, R>(lm: ListMaker<T>, transform: T -> R): (r: set<R>)
    ensures forall y :: y in r ==> exists x :: x in lm.values && y == transform(x)
    ensures forall x :: x in lm.values ==> transform(x) in r
  {
    ToSet(To(lm, transform))
  }

  /** toTreeSet(), toTreeSet(comparator): each element added in turn to a
      TreeSet ordered by the comparator (the natural ordering for the first). */
  method ToTreeSet<T(!new)>(lm: ListMaker<T>, c: Comparator<T>) returns (treeSet: seq<T>)
    ensures treeSet == TreeSetOf(lm.values, c)
    ensures forall y :: y in treeSet ==> y in lm.values
    ensures IsComparator(c) ==> StrictlyAscending(treeSet, c)
    ensures IsComparator(c) ==> forall x :: x in lm.values ==> exists y :: y in treeSet && c(x, y) == 0
    ensures IsComparator(c) && ConsistentWithEquals(c) ==>
      NoDuplicates(treeSet) && forall x :: x in lm.values ==> x in treeSet
  {
    treeSet := [];
    var i := 0;
    while i < |lm.values|
      invariant 0 <= i <= |lm.values|
      invariant treeSet == TreeSetOf(lm.values[..i], c)
      invariant forall y :: y in treeSet ==> y in lm.values[..i]
    {
      assert lm.values[..i + 1][..i] == lm.values[..i];
      treeSet := TreeAdd(treeSet, lm.values[i], c);
      i := i + 1;
    }
    assert lm.values[..i] == lm.values;
    if IsComparator(c) {
      TreeSetOfCorrect(lm.values, c);
      if ConsistentWithEquals(c) {
        TreeSetOfDistinct(lm.values, c);
      }
    }
  }

  /** toTreeSet(transform, comparator), toTreeSet(transform): the transformed
      elements added in turn to a TreeSet. */
  method ToTreeSetOf<T, R(!new)>(lm: ListMaker<T>, transform: T -> R, ordering: Comparator<R>) returns (treeSet: seq<R>)
    ensures treeSet == TreeSetOf(To(lm, transform).values, ordering)
    ensures forall y :: y in treeSet ==> exists x :: x in lm.values && y == transform(x)
    ensures IsComparator(ordering) ==> StrictlyAscending(treeSet, ordering)
  {
    treeSet := ToTreeSet(To(lm, transform), ordering);
    forall y | y in treeSet
      ensures exists x :: x in lm.values && y == transform(x)
    {
      var i :| 0 <= i < |To(lm, transform).values| && To(lm, transform).values[i] == y;
      assert lm.values[i] in lm.values;
    }
  }

  /** No element after position `i` has the key of the element at `i`. */
  ghost predicate LastWithItsKey<T, K>(s: seq<T>, key: T -> K, i: int)
    requires 0 <= i < |s|
  {
    forall l :: i < l < |s| ==> key(s[l]) != key(s[i])
  }

  /** indexBy(toKey): each element put under its key in turn, so a later
      element overwrites an earlier one with the same key; it never fails. */
  method IndexBy<T, K>(lm: ListMaker<T>, toKey: T -> K) returns (index: map<K, T>)
    ensures index == LastByKey(lm.values, toKey)
    ensures index.Keys == set x | x in lm.values :: toKey(x)
    ensures forall i :: 0 <= i < |lm.values| && LastWithItsKey(lm.values, toKey, i) ==>
      index[toKey(lm.values[i])] == lm.values[i]
  {
    index := map[];
    var i := 0;
    while i < |lm.values|
      invariant 0 <= i <= |lm.values|
      invariant index == LastByKey(lm.values[..i], toKey)
    {
      var value := lm.values[i];
      assert lm.values[..i + 1][..i] == lm.values[..i];
      index := index[toKey(value) := value];
      i := i + 1;
    }
    assert lm.values[..i] == lm.values;
    forall i | 0 <= i < |lm.values| && LastWithItsKey(lm.values, toKey, i)
      ensures index[toKey(lm.values[i])] == lm.values[i]
    {
      LastByKeyKeepsLast(lm.values, toKey, i);
    }
  }

  // ---------------------------------------------------------------------------
  // Equality

  /** equals(o): `o` is an iterable yielding equal elements in the same order;
      `None` stands for an object that is not an Iterable (null included). */
  function Equals<T(==)>(lm: ListMaker<T>, o: Option<Iterable<T>>): (b: bool)
    ensures b ==> o.Some?
    ensures o.Some? ==> (b <==> Yielded(o.value) == lm.values)
  {
    match o
    case Some(it) => Yielded(it) == lm.values
    case None => false
  }

  /** equals is reflexive, symmetric between ListMakers, transitive, and a
      ListMaker equals the iterable it was made from. */
  lemma EqualsIsEquivalence<T>(a: ListMaker<T>, b: ListMaker<T>, c: ListMaker<T>, it: Iterable<T>)
    ensures Equals(a, Some(Maker(a)))
    ensures Equals(a, Some(Maker(b))) <==> Equals(b, Some(Maker(a)))
    ensures Equals(a, Some(Maker(b))) && Equals(b, Some(Maker(c))) ==> Equals(a, Some(Maker(c)))
    ensures Equals(With(it), Some(it))
  {
  }
}
