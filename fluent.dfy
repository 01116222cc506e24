/** Fluent<T>: a stream pipeline that can be replayed, modelled by the finite
    sequence its stream yields. Intermediate operations are functions from that
    sequence to the next one; terminal operations compute a value from it, and
    those the source writes as loops over the elements are methods. The stream
    operations it delegates to are in Sequences and Ordering. */
module Fluent {
  import opened Wrappers
  import opened Sequences
  import opened Ordering

  function MinInt(a: int, b: int): int {
    if a <= b then a else b
  }

  // ---------------------------------------------------------------------------
  // Intermediate operations

  /** exclude(predicate): the elements failing the predicate, in order. */
  function Exclude<T>(s: seq<T>, condition: T -> bool): (r: seq<T>)
    ensures r == Filter(s, Not(condition))
    ensures forall x :: x in r ==> x in s && !condition(x)
    ensures forall x :: x in s && !condition(x) ==> x in r
    ensures |Filter(s, condition)| + |r| == |s|
    ensures multiset(Filter(s, condition)) + multiset(r) == multiset(s)
  {
    FilterPartition(s, condition);
    Filter(s, Not(condition))
  }

  /** limit(n): the first n elements, or all of them when there are fewer. */
  function Limit<T>(s: seq<T>, limitSize: int): (r: Result<seq<T>>)
    ensures r.Err? <==> limitSize < 0
    ensures r.Err? ==> r.failure == InvalidArgument
    ensures r.Ok? ==> r.value <= s && |r.value| == MinInt(limitSize, |s|)
  {
    if limitSize < 0 then Err(InvalidArgument) else Ok(s[..MinInt(limitSize, |s|)])
  }

  /** skip(n): what is left after dropping the first n elements. */
  function Skip<T>(s: seq<T>, numberToSkip: int): (r: Result<seq<T>>)
    ensures r.Err? <==> numberToSkip < 0
    ensures r.Err? ==> r.failure == InvalidArgument
    ensures r.Ok? ==> |r.value| == |s| - MinInt(numberToSkip, |s|) && r.value == s[|s| - |r.value|..]
  {
    if numberToSkip < 0 then Err(InvalidArgument) else Ok(s[MinInt(numberToSkip, |s|)..])
  }

  /** What limit(n) keeps and skip(n) drops are the same prefix. */
  lemma LimitSkipSplit<T>(s: seq<T>, n: int)
    requires n >= 0
    ensures Limit(s, n).value + Skip(s, n).value == s
  {
  }

  /** concat(values): the values after the elements. */
  function Concat<T>(s: seq<T>, values: seq<T>): (r: seq<T>)
    ensures Limit(r, |s|) == Ok(s)
    ensures Skip(r, |s|) == Ok(values)
  {
    s + values
  }

  /** sorted(comparator), and sorted() under the natural ordering: a stable sort. */
  function Sorted<T(!new)>(s: seq<T>, comparator: Comparator<T>): (r: seq<T>)
    ensures multiset(r) == multiset(s)
    ensures IsComparator(comparator) ==> Ascending(r, comparator)
    ensures IsComparator(comparator) ==>
      forall c :: Filter(r, Tied(comparator, c)) == Filter(s, Tied(comparator, c))
  {
    StableSortCorrect(s, comparator);
    StableSort(s, comparator)
  }

  /** reversed(comparator): sorted by the reversed comparator. */
  function Reversed<T(!new)>(s: seq<T>, comparator: Comparator<T>): (r: seq<T>)
    ensures multiset(r) == multiset(s)
  {
    Sorted(s, Flip(comparator))
  }

  /** reversed yields the elements descending, and elements comparing equal
      still keep their original order. */
  lemma ReversedDescending<T(!new)>(s: seq<T>, comparator: Comparator<T>)
    requires IsComparator(comparator)
    ensures forall i, j :: 0 <= i < j < |Reversed(s, comparator)| ==>
      comparator(Reversed(s, comparator)[i], Reversed(s, comparator)[j]) >= 0
    ensures forall c :: Filter(Reversed(s, comparator), Tied(comparator, c)) == Filter(s, Tied(comparator, c))
  {
    var r := Reversed(s, comparator);
    FlipIsComparator(comparator);
    forall c
      ensures Filter(r, Tied(comparator, c)) == Filter(s, Tied(comparator, c))
    {
      assert Filter(r, Tied(Flip(comparator), c)) == Filter(s, Tied(Flip(comparator), c));
      FilterAgrees(r, Tied(comparator, c), Tied(Flip(comparator), c));
      FilterAgrees(s, Tied(comparator, c), Tied(Flip(comparator), c));
    }
  }

  /** sortedOn(key): sorted by comparing the keys. */
  function SortedOn<T(!new), K(!new)>(s: seq<T>, key: T -> K, keyComparator: Comparator<K>): (r: seq<T>)
    ensures multiset(r) == multiset(s)
  {
    Sorted(s, OnResultOf(key, keyComparator))
  }

  /** sortedOn yields the elements ascending by key; elements with equal keys keep their order. */
  lemma SortedOnAscending<T(!new), K(!new)>(s: seq<T>, key: T -> K, keyComparator: Comparator<K>)
    requires IsComparator(keyComparator)
    ensures forall i, j :: 0 <= i < j < |SortedOn(s, key, keyComparator)| ==>
      keyComparator(key(SortedOn(s, key, keyComparator)[i]), key(SortedOn(s, key, keyComparator)[j])) <= 0
    ensures forall c :: Filter(SortedOn(s, key, keyComparator), Tied(OnResultOf(key, keyComparator), c)) ==
                        Filter(s, Tied(OnResultOf(key, keyComparator), c))
  {
    OnResultOfIsComparator(key, keyComparator);
  }

  /** reversedOn(key): sorted by comparing the keys the other way round. */
  function ReversedOn<T(!new), K(!new)>(s: seq<T>, key: T -> K, keyComparator: Comparator<K>): (r: seq<T>)
    ensures multiset(r) == multiset(s)
  {
    Reversed(s, OnResultOf(key, keyComparator))
  }

  /** reversedOn yields the elements descending by key; elements with equal keys keep their order. */
  lemma ReversedOnDescending<T(!new), K(!new)>(s: seq<T>, key: T -> K, keyComparator: Comparator<K>)
    requires IsComparator(keyComparator)
    ensures forall i, j :: 0 <= i < j < |ReversedOn(s, key, keyComparator)| ==>
      keyComparator(key(ReversedOn(s, key, keyComparator)[i]), key(ReversedOn(s, key, keyComparator)[j])) >= 0
    ensures forall c :: Filter(ReversedOn(s, key, keyComparator), Tied(OnResultOf(key, keyComparator), c)) ==
                        Filter(s, Tied(OnResultOf(key, keyComparator), c))
  {
    OnResultOfIsComparator(key, keyComparator);
    ReversedDescending(s, OnResultOf(key, keyComparator));
  }

  /** toSortedList(comparator): Collections.sort is a stable sort too, so the
      list holds what sorted(comparator) yields. */
  function ToSortedList<T(!new)>(s: seq<T>, comparator: Comparator<T>): (r: seq<T>)
    ensures r == Sorted(s, comparator)
  {
    StableSort(s, comparator)
  }

  /** The test `v != null`, with `None` standing for null. */
  function IsPresent<T>(): Option<T> -> bool {
    (x: Option<T>) => x.Some?
  }

  /** notNulls(): the non-null elements, in order. */
  function NotNulls<T>(s: seq<Option<T>>): (r: seq<Option<T>>)
    ensures r == Filter(s, IsPresent())
    ensures forall x :: x in r ==> x in s && x.Some?
    ensures forall x :: x in s && x.Some? ==> x in r
    ensures |r| == |s| - CountWhere(s, Not(IsPresent()))
  {
    FilterPartition(s, IsPresent());
    FilterSizeIsCount(s, Not(IsPresent()));
    Filter(s, IsPresent())
  }

  // ---------------------------------------------------------------------------
  // Terminal operations written as stream calls

  /** count(predicate): how many elements satisfy the predicate. */
  function Count<T>(s: seq<T>, condition: T -> bool): (n: nat)
    ensures n == CountWhere(s, condition)
  {
    FilterSizeIsCount(s, condition);
    |Filter(s, condition)|
  }

  /** size(): the number of elements. */
  function Size<T>(s: seq<T>): (n: nat)
    ensures n == 0 <==> s == []
  {
    |s|
  }

  /** Every element is counted by exactly one of count(p) and count(not p). */
  lemma SizeSplits<T>(s: seq<T>, p: T -> bool)
    ensures Size(s) == Count(s, p) + Count(s, Not(p))
  {
    FilterPartition(s, p);
  }

  /** first(): the first element, if any. */
  function First<T>(s: seq<T>): (r: Option<T>)
    ensures r.None? <==> s == []
    ensures r.Some? ==> r.value == s[0]
  {
    if s == [] then None else Some(s[0])
  }

  /** firstMatch(predicate): the first element satisfying the predicate. */
  function FirstMatch<T>(s: seq<T>, condition: T -> bool): (r: Option<T>)
    ensures r == Find(s, condition)
    ensures r.None? <==> forall x :: x in s ==> !condition(x)
  {
    FindIsFilterHead(s, condition);
    First(Filter(s, condition))
  }

  /** The accumulator (l, r) -> r of last(). */
  function KeepRight<T>(): (T, T) -> T {
    (l, r) => r
  }

  lemma {:induction false} FoldKeepRight<T>(s: seq<T>, acc: T)
    ensures FoldLeft(s, acc, KeepRight()) == if s == [] then acc else s[|s| - 1]
  {
    if s != [] {
      FoldKeepRight(s[1..], s[0]);
    }
  }

  /** last(): reducing by "keep the right one" yields the final element. */
  function Last<T>(s: seq<T>): (r: Option<T>)
    ensures r.None? <==> s == []
    ensures r.Some? ==> r.value == s[|s| - 1]
  {
    if s != [] then
      FoldKeepRight(s[1..], s[0]);
      Reduce(s, KeepRight())
    else
      Reduce(s, KeepRight())
  }

  /** isEmpty(): there is no first element, and no last one either. */
  function IsEmpty<T>(s: seq<T>): (b: bool)
    ensures b <==> First(s).None?
    ensures b <==> Last(s).None?
    ensures b <==> Size(s) == 0
  {
    |s| == 0
  }

  /** getOnlyElement(): first().get(), so the first element, or
      NoSuchElementException on an empty sequence. */
  function GetOnlyElement<T>(s: seq<T>): (r: Result<T>)
    ensures r.Err? <==> s == []
    ensures r.Err? ==> r.failure == NoSuchElement
    ensures r.Ok? ==> Some(r.value) == First(s)
  {
    match First(s)
    case Some(v) => Ok(v)
    case None => Err(NoSuchElement)
  }

  /** anyMatch(predicate) */
  function AnyMatch<T>(s: seq<T>, condition: T -> bool): (b: bool)
    ensures b <==> exists x :: x in s && condition(x)
  {
    Find(s, condition).Some?
  }

  /** allMatch(predicate) */
  function AllMatch<T>(s: seq<T>, condition: T -> bool): (b: bool)
    ensures b <==> forall x :: x in s ==> condition(x)
  {
    Find(s, Not(condition)).None?
  }

  /** noneMatch(predicate) */
  function NoneMatch<T>(s: seq<T>, condition: T -> bool): (b: bool)
    ensures b <==> !AnyMatch(s, condition)
    ensures b <==> AllMatch(s, Not(condition))
  {
    Find(s, condition).None?
  }

  /** Predicate.isEqual(element) */
  function IsEqual<T(==)>(element: T): T -> bool {
    x => x == element
  }

  /** contains(element): anyMatch(isEqual(element)). */
  function Contains<T(==)>(s: seq<T>, element: T): (b: bool)
    ensures b <==> element in s
  {
    AnyMatch(s, IsEqual(element))
  }

  /** toSet(): the elements, duplicates removed. */
  function ToSet<T>(s: seq<T>): (r: set<T>)
    ensures forall x :: x in r ==> x in s
    ensures forall x :: x in s ==> x in r
    ensures |r| == |Distinct(s)|
  {
    DistinctCardinality(s);
    set x | x in s
  }

  lemma {:induction false} DistinctCardinality<T>(s: seq<T>)
    ensures |set x | x in s| == |Distinct(s)|
  {
    var d := Distinct(s);
    assert (set x | x in s) == set x | x in d;
    DuplicateFreeCardinality(d);
  }

  lemma {:induction false} DuplicateFreeCardinality<T>(d: seq<T>)
    requires NoDuplicates(d)
    ensures |set x | x in d| == |d|
    decreases |d|
  {
    if d != [] {
      var t := d[..|d| - 1];
      DuplicateFreeCardinality(t);
      assert d == t + [d[|d| - 1]];
      assert (set x | x in d) == (set x | x in t) + {d[|d| - 1]};
    }
  }

  // ---------------------------------------------------------------------------
  // Terminal operations written as loops

  /** indexOf(element): the position of the first equal element, or -1. */
  method IndexOf<T(==)>(s: seq<T>, element: T) returns (index: int)
    ensures index == Position(s, element)
    ensures index >= 0 <==> Contains(s, element)
    ensures index >= 0 ==> s[index] == element && forall j :: 0 <= j < index ==> s[j] != element
  {
    index := 0;
    while index < |s|
      invariant 0 <= index <= |s|
      invariant element !in s[..index]
    {
      if s[index] == element {
        return;
      }
      index := index + 1;
    }
    assert s[..index] == s;
    return -1;
  }

  /** get(index): the element at `index`; a negative index is rejected before
      the sequence is walked, and an index past the end once it has been. */
  method Get<T>(s: seq<T>, index: int) returns (r: Result<T>)
    ensures index < 0 ==> r == Err(InvalidArgument)
    ensures 0 <= index < |s| ==> r == Ok(s[index])
    ensures |s| <= index ==> r == Err(IndexOutOfBounds)
  {
    if index < 0 {
      return Err(InvalidArgument);
    }
    var current := 0;
    while current < |s|
      invariant 0 <= current <= |s|
      invariant current <= index
    {
      if current == index {
        return Ok(s[current]);
      }
      current := current + 1;
    }
    return Err(IndexOutOfBounds);
  }

  /** join(delimiter): the element strings, one delimiter between neighbours. */
  method Join<T>(s: seq<T>, delimiter: string, valueOf: T -> string) returns (joined: string)
    ensures joined == Joined(s, delimiter, valueOf)
    ensures s == [] ==> joined == ""
  {
    joined := "";
    var i := 0;
    while i < |s|
      invariant 0 <= i <= |s|
      invariant joined == Joined(s[..i], delimiter, valueOf)
    {
      assert s[..i + 1][..i] == s[..i];
      if i == 0 {
        joined := valueOf(s[i]);
      } else {
        joined := joined + delimiter + valueOf(s[i]);
      }
      i := i + 1;
    }
    assert s[..i] == s;
  }

  /** join(): join with the empty delimiter. */
  method JoinAll<T>(s: seq<T>, valueOf: T -> string) returns (joined: string)
    ensures joined == Joined(s, "", valueOf)
  {
    joined := Join(s, "", valueOf);
  }

  /** forEachWithIndex(consumer): the calls the consumer receives, in order. */
  method ForEachWithIndex<T>(s: seq<T>) returns (calls: seq<(int, T)>)
    ensures |calls| == |s|
    ensures forall i :: 0 <= i < |s| ==> calls[i] == (i, s[i])
  {
    calls := [];
    var index := 0;
    while index < |s|
      invariant 0 <= index <= |s|
      invariant |calls| == index
      invariant forall i :: 0 <= i < index ==> calls[i] == (i, s[i])
    {
      calls := calls + [(index, s[index])];
      index := index + 1;
    }
  }

  /** A key already stored for an earlier element is one two elements share. */
  lemma KeyRepeats<T, K>(s: seq<T>, toKey: T -> K, i: int)
    requires 0 <= i < |s|
    requires toKey(s[i]) in LastByKey(s[..i], toKey)
    ensures !KeysDistinct(s, toKey)
  {
    var y :| y in s[..i] && toKey(y) == toKey(s[i]);
    var j :| 0 <= j < i && s[..i][j] == y;
    assert toKey(s[j]) == toKey(s[i]);
  }

  /** A fresh key keeps the prefix's keys distinct and adds one entry to the map. */
  lemma KeysStayDistinct<T, K>(s: seq<T>, toKey: T -> K, i: int)
    requires 0 <= i < |s|
    requires KeysDistinct(s[..i], toKey)
    requires toKey(s[i]) !in LastByKey(s[..i], toKey)
    ensures KeysDistinct(s[..i + 1], toKey)
    ensures LastByKey(s[..i + 1], toKey) == LastByKey(s[..i], toKey)[toKey(s[i]) := s[i]]
  {
    assert s[..i + 1][..i] == s[..i];
    forall j | 0 <= j < i
      ensures toKey(s[j]) != toKey(s[i])
    {
      assert s[..i][j] in s[..i];
    }
  }

  /** uniqueIndex(toKey): each element under its key, or DuplicateKey as soon
      as a key comes round a second time. */
  method UniqueIndex<T, K>(s: seq<T>, toKey: T -> K) returns (r: Result<map<K, T>>)
    ensures r.Err? <==> !KeysDistinct(s, toKey)
    ensures r.Err? ==> r.failure == DuplicateKey
    ensures r.Ok? ==> r.value == LastByKey(s, toKey)
    ensures r.Ok? ==> |r.value| == |s| && forall i :: 0 <= i < |s| ==> r.value[toKey(s[i])] == s[i]
  {
    var m: map<K, T> := map[];
    var i := 0;
    while i < |s|
      invariant 0 <= i <= |s|
      invariant KeysDistinct(s[..i], toKey)
      invariant m == LastByKey(s[..i], toKey)
    {
      var key := toKey(s[i]);
      if key in m {
        KeyRepeats(s, toKey, i);
        return Err(DuplicateKey);
      }
      KeysStayDistinct(s, toKey, i);
      m := m[key := s[i]];
      i := i + 1;
    }
    assert s[..i] == s;
    LastByKeyOfDistinctKeys(s, toKey);
    return Ok(m);
  }

  /** The elements whose key is `k`. */
  function HasKey<T, K(==)>(key: T -> K, k: K): T -> bool {
    x => key(x) == k
  }

  /** The groups index(key) builds: each key with the list of its elements. */
  function Group<T, K>(s: seq<T>, key: T -> K): (m: map<K, seq<T>>)
    ensures m.Keys == set x | x in s :: key(x)
    decreases |s|
  {
    if s == [] then map[]
    else
      var x := s[|s| - 1];
      var m := Group(s[..|s| - 1], key);
      assert s == s[..|s| - 1] + [x];
      m[key(x) := (if key(x) in m then m[key(x)] else []) + [x]]
  }

  /** Each group holds exactly the elements carrying its key, in their original order. */
  lemma {:induction false} GroupIsFilter<T, K>(s: seq<T>, key: T -> K, k: K)
    requires k in Group(s, key)
    ensures Group(s, key)[k] == Filter(s, HasKey(key, k))
    decreases |s|
  {
    var t, x := s[..|s| - 1], s[|s| - 1];
    assert s == t + [x];
    FilterAppend(t, [x], HasKey(key, k));
    if k in Group(t, key) {
      GroupIsFilter(t, key, k);
    } else {
      FilterNone(t, HasKey(key, k));
    }
  }

  /** The total length of the groups stored under the keys `ks`. */
  function TotalSize<K, T>(ks: seq<K>, groups: map<K, seq<T>>): nat {
    if ks == [] then 0
    else (if ks[0] in groups then |groups[ks[0]]| else 0) + TotalSize(ks[1..], groups)
  }

  /** How many elements carry each of the keys `ks`, summed. */
  function KeyCounts<T, K(==)>(ks: seq<K>, s: seq<T>, key: T -> K): nat {
    if ks == [] then 0 else CountWhere(s, HasKey(key, ks[0])) + KeyCounts(ks[1..], s, key)
  }

  lemma {:induction false} TotalSizeIsKeyCounts<T, K>(ks: seq<K>, s: seq<T>, key: T -> K)
    requires forall k :: k in ks ==> k in Group(s, key)
    ensures TotalSize(ks, Group(s, key)) == KeyCounts(ks, s, key)
  {
    if ks != [] {
      TotalSizeIsKeyCounts(ks[1..], s, key);
      GroupIsFilter(s, key, ks[0]);
      FilterSizeIsCount(s, HasKey(key, ks[0]));
    }
  }

  lemma {:induction false} KeyCountsOfEmpty<T, K>(ks: seq<K>, key: T -> K)
    ensures KeyCounts(ks, [], key) == 0
  {
    if ks != [] {
      KeyCountsOfEmpty(ks[1..], key);
    }
  }

  lemma {:induction false} KeyCountsOfHead<T, K>(ks: seq<K>, s: seq<T>, key: T -> K)
    requires s != []
    ensures KeyCounts(ks, s, key) == CountWhere(ks, IsEqual(key(s[0]))) + KeyCounts(ks, s[1..], key)
  {
    if ks != [] {
      KeyCountsOfHead(ks[1..], s, key);
    }
  }

  lemma {:induction false} OccursOnce<K>(ks: seq<K>, k: K)
    requires NoDuplicates(ks) && k in ks
    ensures CountWhere(ks, IsEqual(k)) == 1
  {
    if ks[0] != k {
      OccursOnce(ks[1..], k);
    } else {
      assert k !in ks[1..];
    }
  }

  lemma {:induction false} KeyCountsCover<T, K>(ks: seq<K>, s: seq<T>, key: T -> K)
    requires NoDuplicates(ks)
    requires forall x :: x in s ==> key(x) in ks
    ensures KeyCounts(ks, s, key) == |s|
  {
    if s == [] {
      KeyCountsOfEmpty(ks, key);
    } else {
      KeyCountsOfHead(ks, s, key);
      OccursOnce(ks, key(s[0]));
      KeyCountsCover(ks, s[1..], key);
    }
  }

  /** Summed over the distinct keys, the group lengths add up to the number of elements. */
  lemma GroupSizesSum<T, K>(s: seq<T>, key: T -> K)
    ensures TotalSize(Distinct(Map(s, key)), Group(s, key)) == |s|
  {
    var ks := Distinct(Map(s, key));
    forall x | x in s
      ensures key(x) in ks
    {
      var i :| 0 <= i < |s| && s[i] == x;
      assert Map(s, key)[i] == key(x);
    }
    forall k | k in ks
      ensures k in Group(s, key)
    {
      var i :| 0 <= i < |s| && Map(s, key)[i] == k;
      assert s[i] in s && key(s[i]) == k;
    }
    TotalSizeIsKeyCounts(ks, s, key);
    KeyCountsCover(ks, s, key);
  }

  /** One more element joins the end of the group under its key. */
  lemma GroupSnoc<T, K>(s: seq<T>, toKey: T -> K, i: int)
    requires 0 <= i < |s|
    ensures var g, k := Group(s[..i], toKey), toKey(s[i]);
      Group(s[..i + 1], toKey) == g[k := (if k in g then g[k] else []) + [s[i]]]
  {
    var next := s[..i + 1];
    assert next[..|next| - 1] == s[..i] && next[|next| - 1] == s[i];
  }

  /** index(toKey): the elements grouped under their keys. */
  method Index<T, K(==)>(s: seq<T>, toKey: T -> K) returns (multiMap: map<K, seq<T>>)
    ensures multiMap == Group(s, toKey)
    ensures multiMap.Keys == set x | x in s :: toKey(x)
    ensures forall k :: k in multiMap ==> multiMap[k] == Filter(s, HasKey(toKey, k))
  {
    multiMap := map[];
    var i := 0;
    while i < |s|
      invariant 0 <= i <= |s|
      invariant multiMap == Group(s[..i], toKey)
    {
      var value := s[i];
      var key := toKey(value);
      var list := if key in multiMap then multiMap[key] else [];
      GroupSnoc(s, toKey, i);
      multiMap := multiMap[key := list + [value]];
      i := i + 1;
    }
    assert s[..i] == s;
    forall k | k in multiMap
      ensures multiMap[k] == Filter(s, HasKey(toKey, k))
    {
      GroupIsFilter(s, toKey, k);
    }
  }

  /** toMap(toValue): each element mapped to its value, or DuplicateKey when an
      element occurs twice. */
  method ToMap<T, V>(s: seq<T>, toValue: T -> V) returns (r: Result<map<T, V>>)
    ensures r.Err? <==> !NoDuplicates(s)
    ensures r.Err? ==> r.failure == DuplicateKey
    ensures r.Ok? ==> r.value.Keys == set x | x in s
    ensures r.Ok? ==> forall x :: x in s ==> r.value[x] == toValue(x)
  {
    var m: map<T, V> := map[];
    var i := 0;
    while i < |s|
      invariant 0 <= i <= |s|
      invariant NoDuplicates(s[..i])
      invariant m.Keys == set x | x in s[..i]
      invariant forall x :: x in m ==> m[x] == toValue(x)
    {
      var key := s[i];
      assert s[..i + 1] == s[..i] + [key];
      if key in m {
        var j :| 0 <= j < i && s[j] == key;
        return Err(DuplicateKey);
      }
      m := m[key := toValue(key)];
      i := i + 1;
    }
    assert s[..i] == s;
    return Ok(m);
  }

  /** toMap as the loop is written: HashMap.put returns the previous value, and
      only a previous value that is not null is reported as a duplicate. */
  function ToMapAsWritten<T, V>(s: seq<T>, toValue: T -> Option<V>): (r: Result<map<T, Option<V>>>)
    ensures r.Err? ==> r.failure == DuplicateKey && !NoDuplicates(s)
    ensures r.Ok? ==> r.value.Keys == set x | x in s
    ensures r.Ok? ==> forall x :: x in s ==> r.value[x] == toValue(x)
    decreases |s|
  {
    if s == [] then Ok(map[])
    else
      var key := s[|s| - 1];
      var prefix := s[..|s| - 1];
      assert s == prefix + [key];
      match ToMapAsWritten(prefix, toValue)
      case Err(e) => Err(e)
      case Ok(m) =>
        if key in m && m[key].Some? then
          assert key in prefix;
          Err(DuplicateKey)
        else
          Ok(m[key := toValue(key)])
  }

  /** When no value is null the loop as written reports exactly the repeated elements. */
  lemma {:induction false} ToMapAsWrittenWithoutNulls<T, V>(s: seq<T>, toValue: T -> Option<V>)
    requires forall x :: x in s ==> toValue(x).Some?
    ensures ToMapAsWritten(s, toValue).Err? <==> !NoDuplicates(s)
    decreases |s|
  {
    if s != [] {
      var key, prefix := s[|s| - 1], s[..|s| - 1];
      assert s == prefix + [key];
      ToMapAsWrittenWithoutNulls(prefix, toValue);
      if !NoDuplicates(s) && NoDuplicates(prefix) {
        var i, j :| 0 <= i < j < |s| && s[i] == s[j];
        assert j == |s| - 1;
        assert s[i] in prefix;
      }
    }
  }

  /** uniqueIndex as the loop is written, over elements that may be null
      (`None`): HashMap.put returns the element stored before, and only a
      previous element that is not null is reported as a duplicate. */
  function UniqueIndexAsWritten<T, K>(s: seq<Option<T>>, toKey: Option<T> -> K): (r: Result<map<K, Option<T>>>)
    ensures r.Err? ==> r.failure == DuplicateKey && !KeysDistinct(s, toKey)
    ensures r.Ok? ==> r.value == LastByKey(s, toKey)
    decreases |s|
  {
    if s == [] then Ok(map[])
    else
      var value := s[|s| - 1];
      var prefix := s[..|s| - 1];
      assert s == prefix + [value];
      match UniqueIndexAsWritten(prefix, toKey)
      case Err(e) => Err(e)
      case Ok(m) =>
        var key := toKey(value);
        if key in m && m[key].Some? then
          assert !KeysDistinct(s, toKey) by {
            KeyRepeats(s, toKey, |s| - 1);
          }
          Err(DuplicateKey)
        else
          Ok(m[key := value])
  }

  /** When no element is null the loop as written reports exactly the shared keys. */
  lemma {:induction false} UniqueIndexAsWrittenWithoutNulls<T, K>(s: seq<Option<T>>, toKey: Option<T> -> K)
    requires forall x :: x in s ==> x.Some?
    ensures UniqueIndexAsWritten(s, toKey).Err? <==> !KeysDistinct(s, toKey)
    decreases |s|
  {
    if s != [] {
      var value, prefix := s[|s| - 1], s[..|s| - 1];
      assert s == prefix + [value];
      UniqueIndexAsWrittenWithoutNulls(prefix, toKey);
      if !KeysDistinct(s, toKey) && KeysDistinct(prefix, toKey) {
        assert forall k :: 0 <= k < |prefix| ==> s[k] == prefix[k];
        var i, j :| 0 <= i < j < |s| && toKey(s[i]) == toKey(s[j]);
        assert j == |s| - 1;
        LastByKeyOfDistinctKeys(prefix, toKey);
        assert prefix[i] == s[i] && s[i] in s;
        assert LastByKey(prefix, toKey)[toKey(value)] == s[i];
      }
    }
  }

  /** A key function mapping every element to the same key. */
  function SameKey<T>(): T -> int {
    x => 0
  }

  /** The loop as written lets a second element with the same key through when
      the element stored first is null. */
  lemma UniqueIndexAsWrittenMissesNullDuplicate()
    ensures !KeysDistinct([None, Some(1)], SameKey<Option<int>>())
    ensures UniqueIndexAsWritten([None, Some(1)], SameKey<Option<int>>()) == Ok(map[0 := Some(1)])
  {
    var s: seq<Option<int>> := [None, Some(1)];
    var key := SameKey<Option<int>>();
    assert key(s[0]) == key(s[1]);
    assert s[..1] == [None] && s[..1][..0] == [];
    assert UniqueIndexAsWritten([], key) == Ok(map[]);
    assert UniqueIndexAsWritten([None], key) == Ok(map[0 := None]);
    var m: map<int, Option<int>> := map[0 := None];
    assert m[0 := Some(1)] == map[0 := Some(1)];
  }

  /** A value function returning null */
  function NullValue<T, V>(): T -> Option<V> {
    x => None
  }

  /** The loop as written lets a repeated element through when its value is null. */
  lemma ToMapAsWrittenMissesNullDuplicate()
    ensures !NoDuplicates([7, 7])
    ensures ToMapAsWritten([7, 7], NullValue<int, int>()) == Ok(map[7 := None])
  {
    var s := [7, 7];
    assert s[0] == s[1];
    assert s[..1] == [7] && [7][..0] == [];
    var none := NullValue<int, int>();
    assert ToMapAsWritten([], none) == Ok(map[]);
    assert none(7) == None;
    assert ToMapAsWritten([7], none) == Ok(map[7 := None]);
    assert ToMapAsWritten(s, none) == Ok(map[7 := None][7 := None]);
    var m: map<int, Option<int>> := map[7 := None];
    assert m[7 := None] == m;
  }
}
