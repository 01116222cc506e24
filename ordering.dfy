/** Comparators and what the libraries build from them: the stable sort of
    Stream.sorted, Collections.sort and Ordering.sortedCopy, the contents of a
    TreeSet, and the minimum and maximum of BinaryOperator.minBy/maxBy and
    Guava's Ordering.min/max. */
module Ordering {
  import opened Wrappers
  import opened Sequences

  /** A java.util.Comparator: negative, zero or positive as the first argument
      sorts before, together with, or after the second. */
  type Comparator<!T> = (T, T) -> int

  /** The Comparator contract: the sign flips when the arguments are swapped,
      and "sorts no later than" is transitive. */
  ghost predicate IsComparator<T(!new)>(cmp: Comparator<T>) {
    && (forall a, b :: cmp(a, b) < 0 <==> cmp(b, a) > 0)
    && (forall a, b, c :: cmp(a, b) <= 0 && cmp(b, c) <= 0 ==> cmp(a, c) <= 0)
  }

  /** Comparator.reversed(), Ordering.reverse() */
  function Flip<T>(cmp: Comparator<T>): Comparator<T> {
    (a, b) => cmp(b, a)
  }

  /** Ordering.onResultOf, Comparator.comparing: compare the keys. */
  function OnResultOf<T, K>(key: T -> K, keyCmp: Comparator<K>): Comparator<T> {
    (a, b) => keyCmp(key(a), key(b))
  }

  /** Reversing a comparator keeps the comparator contract. */
  lemma FlipIsComparator<T(!new)>(cmp: Comparator<T>)
    requires IsComparator(cmp)
    ensures IsComparator(Flip(cmp))
  {
  }

  /** Comparing by a key keeps the comparator contract. */
  lemma OnResultOfIsComparator<T(!new), K(!new)>(key: T -> K, keyCmp: Comparator<K>)
    requires IsComparator(keyCmp)
    ensures IsComparator(OnResultOf(key, keyCmp))
  {
  }

  ghost predicate Ascending<T>(s: seq<T>, cmp: Comparator<T>) {
    forall i, j :: 0 <= i < j < |s| ==> cmp(s[i], s[j]) <= 0
  }

  ghost predicate StrictlyAscending<T>(s: seq<T>, cmp: Comparator<T>) {
    forall i, j :: 0 <= i < j < |s| ==> cmp(s[i], s[j]) < 0
  }

  /** The elements that compare as equal to `c`. */
  function Tied<T>(cmp: Comparator<T>, c: T): T -> bool {
    x => cmp(x, c) == 0
  }

  /** `x` placed before the first element that sorts strictly after it. */
  function Insert<T>(x: T, r: seq<T>, cmp: Comparator<T>): (res: seq<T>)
    ensures multiset(res) == multiset(r) + multiset{x}
    ensures forall y :: y in res ==> y == x || y in r
  {
    if r == [] then [x]
    else if cmp(x, r[0]) < 0 then [x] + r
    else
      assert r == [r[0]] + r[1..];
      [r[0]] + Insert(x, r[1..], cmp)
  }

  /** A stable sort: each element is inserted after every element already
      placed that does not sort after it. */
  function StableSort<T>(s: seq<T>, cmp: Comparator<T>): (r: seq<T>)
    ensures multiset(r) == multiset(s)
    decreases |s|
  {
    if s == [] then []
    else
      assert s == s[..|s| - 1] + [s[|s| - 1]];
      Insert(s[|s| - 1], StableSort(s[..|s| - 1], cmp), cmp)
  }

  /** An element no greater than every element of an ascending sequence can go in front. */
  lemma ConsWeaklyAscending<T>(h: T, t: seq<T>, cmp: Comparator<T>)
    requires Ascending(t, cmp)
    requires forall j :: 0 <= j < |t| ==> cmp(h, t[j]) <= 0
    ensures Ascending([h] + t, cmp)
  {
    var res := [h] + t;
    forall i, j | 0 <= i < j < |res|
      ensures cmp(res[i], res[j]) <= 0
    {
      assert res[j] == t[j - 1];
      if i > 0 {
        assert res[i] == t[i - 1];
      }
    }
  }

  lemma {:induction false} InsertAscending<T(!new)>(x: T, r: seq<T>, cmp: Comparator<T>)
    requires IsComparator(cmp) && Ascending(r, cmp)
    ensures Ascending(Insert(x, r, cmp), cmp)
  {
    if r == [] {
    } else if cmp(x, r[0]) < 0 {
      forall j | 0 <= j < |r|
        ensures cmp(x, r[j]) <= 0
      {
        assert cmp(x, r[0]) <= 0 && cmp(r[0], r[j]) <= 0;
      }
      ConsWeaklyAscending(x, r, cmp);
    } else {
      var t := Insert(x, r[1..], cmp);
      InsertAscending(x, r[1..], cmp);
      forall j | 0 <= j < |t|
        ensures cmp(r[0], t[j]) <= 0
      {
        assert t[j] in t;
        if t[j] != x {
          var k :| 0 <= k < |r[1..]| && r[1..][k] == t[j];
          assert r[k + 1] == t[j];
        }
      }
      ConsWeaklyAscending(r[0], t, cmp);
    }
  }

  /** When `x` sorts before the head of an ascending sequence, nothing in the
      sequence is tied with `x`. */
  lemma NoneTiedAfterSmaller<T(!new)>(x: T, r: seq<T>, cmp: Comparator<T>, c: T)
    requires IsComparator(cmp) && Ascending(r, cmp)
    requires r != [] && cmp(x, r[0]) < 0 && Tied(cmp, c)(x)
    ensures Filter(r, Tied(cmp, c)) == []
  {
    forall y | y in r
      ensures !Tied(cmp, c)(y)
    {
      assert cmp(x, y) < 0;
    }
    FilterNone(r, Tied(cmp, c));
  }

  /** Filtering a sequence with a known first element. */
  lemma FilterHead<T>(h: T, t: seq<T>, p: T -> bool)
    ensures Filter([h] + t, p) == (if p(h) then [h] else []) + Filter(t, p)
  {
    var ht := [h] + t;
    assert ht[0] == h && ht[1..] == t;
  }

  /** Putting the same element in front of two sequences keeps a relation
      between their filtered forms. */
  lemma FilterCons<T>(h: T, rest: seq<T>, t: seq<T>, extra: seq<T>, p: T -> bool)
    requires Filter(t, p) == Filter(rest, p) + extra
    ensures Filter([h] + t, p) == Filter([h] + rest, p) + extra
  {
    FilterHead(h, t, p);
    FilterHead(h, rest, p);
    ConcatAssociative(if p(h) then [h] else [], Filter(rest, p), extra);
  }

  /** Inserting `x` into an ascending sequence appends it to the elements tied with it. */
  lemma {:induction false} InsertStable<T(!new)>(x: T, r: seq<T>, cmp: Comparator<T>, c: T)
    requires IsComparator(cmp) && Ascending(r, cmp)
    ensures Filter(Insert(x, r, cmp), Tied(cmp, c)) == Filter(r, Tied(cmp, c)) + Filter([x], Tied(cmp, c))
  {
    var tied := Tied(cmp, c);
    if r == [] {
      assert Insert(x, r, cmp) == [x];
    } else if cmp(x, r[0]) < 0 {
      assert Insert(x, r, cmp) == [x] + r;
      FilterAppend([x], r, tied);
      if tied(x) {
        NoneTiedAfterSmaller(x, r, cmp, c);
      } else {
        assert Filter([x], tied) == [];
      }
    } else {
      var rest := r[1..];
      assert Insert(x, r, cmp) == [r[0]] + Insert(x, rest, cmp);
      assert Ascending(rest, cmp) by {
        forall i, j | 0 <= i < j < |rest|
          ensures cmp(rest[i], rest[j]) <= 0
        {
          assert rest[i] == r[i + 1] && rest[j] == r[j + 1];
        }
      }
      InsertStable(x, rest, cmp, c);
      FilterCons(r[0], rest, Insert(x, rest, cmp), Filter([x], tied), tied);
      assert r == [r[0]] + rest;
    }
  }

  /** The sort yields an ascending sequence. */
  lemma {:induction false} StableSortAscending<T(!new)>(s: seq<T>, cmp: Comparator<T>)
    requires IsComparator(cmp)
    ensures Ascending(StableSort(s, cmp), cmp)
    decreases |s|
  {
    if s != [] {
      StableSortAscending(s[..|s| - 1], cmp);
      InsertAscending(s[|s| - 1], StableSort(s[..|s| - 1], cmp), cmp);
    }
  }

  /** The step of the stability proof: a sort of `t + [y]` that filters like
      the sort of `t` followed by `y` filters like `t + [y]`. */
  lemma FilterSnocStep<T>(t: seq<T>, y: T, sortedS: seq<T>, sortedT: seq<T>, p: T -> bool)
    requires Filter(sortedS, p) == Filter(sortedT, p) + Filter([y], p)
    requires Filter(sortedT, p) == Filter(t, p)
    ensures Filter(sortedS, p) == Filter(t + [y], p)
  {
    FilterAppend(t, [y], p);
  }

  /** The sort keeps the elements tied with `c` in their original order. */
  lemma {:induction false} StableSortKeepsTies<T(!new)>(s: seq<T>, cmp: Comparator<T>, c: T)
    requires IsComparator(cmp)
    ensures Filter(StableSort(s, cmp), Tied(cmp, c)) == Filter(s, Tied(cmp, c))
    decreases |s|
  {
    if s != [] {
      var t, y := s[..|s| - 1], s[|s| - 1];
      assert s == t + [y];
      var sortedT := StableSort(t, cmp);
      assert StableSort(s, cmp) == Insert(y, sortedT, cmp);
      StableSortKeepsTies(t, cmp, c);
      StableSortAscending(t, cmp);
      InsertStable(y, sortedT, cmp, c);
      FilterSnocStep(t, y, StableSort(s, cmp), sortedT, Tied(cmp, c));
    }
  }

  /** Sorting is correct and stable: the result is ascending, and for every
      element `c` the elements that compare equal to `c` keep their relative order. */
  lemma StableSortCorrect<T(!new)>(s: seq<T>, cmp: Comparator<T>)
    ensures IsComparator(cmp) ==> Ascending(StableSort(s, cmp), cmp)
    ensures IsComparator(cmp) ==> forall c :: Filter(StableSort(s, cmp), Tied(cmp, c)) == Filter(s, Tied(cmp, c))
  {
    if IsComparator(cmp) {
      StableSortAscending(s, cmp);
      forall c
        ensures Filter(StableSort(s, cmp), Tied(cmp, c)) == Filter(s, Tied(cmp, c))
      {
        StableSortKeepsTies(s, cmp, c);
      }
    }
  }

  /** TreeSet.add: `x` goes in its place unless an element comparing equal to
      it is already there, in which case the set is unchanged. */
  function TreeAdd<T>(r: seq<T>, x: T, cmp: Comparator<T>): (res: seq<T>)
    ensures forall y :: y in r ==> y in res
    ensures forall y :: y in res ==> y == x || y in r
    ensures |res| <= |r| + 1
  {
    if r == [] then [x]
    else if cmp(x, r[0]) < 0 then [x] + r
    else if cmp(x, r[0]) == 0 then r
    else
      assert r == [r[0]] + r[1..];
      [r[0]] + TreeAdd(r[1..], x, cmp)
  }

  /** The iteration order of a TreeSet filled with `s` in order. */
  function TreeSetOf<T>(s: seq<T>, cmp: Comparator<T>): (r: seq<T>)
    ensures |r| <= |s|
    ensures forall y :: y in r ==> y in s
    decreases |s|
  {
    if s == [] then []
    else
      assert s == s[..|s| - 1] + [s[|s| - 1]];
      TreeAdd(TreeSetOf(s[..|s| - 1], cmp), s[|s| - 1], cmp)
  }

  /** Strict order is transitive under a comparator. */
  lemma LessTransitive<T(!new)>(a: T, b: T, c: T, cmp: Comparator<T>)
    requires IsComparator(cmp) && cmp(a, b) < 0 && cmp(b, c) < 0
    ensures cmp(a, c) < 0
  {
    assert cmp(b, a) > 0;
    assert cmp(c, a) <= 0 ==> cmp(b, a) <= 0;
  }

  /** An element below every element of a strictly ascending sequence can go in front. */
  lemma ConsAscending<T>(h: T, t: seq<T>, cmp: Comparator<T>)
    requires StrictlyAscending(t, cmp)
    requires forall j :: 0 <= j < |t| ==> cmp(h, t[j]) < 0
    ensures StrictlyAscending([h] + t, cmp)
  {
    var res := [h] + t;
    forall i, j | 0 <= i < j < |res|
      ensures cmp(res[i], res[j]) < 0
    {
      assert res[j] == t[j - 1];
      if i > 0 {
        assert res[i] == t[i - 1];
      }
    }
  }

  lemma {:induction false} TreeAddAscending<T(!new)>(r: seq<T>, x: T, cmp: Comparator<T>)
    requires IsComparator(cmp) && StrictlyAscending(r, cmp)
    ensures StrictlyAscending(TreeAdd(r, x, cmp), cmp)
  {
    if r == [] || cmp(x, r[0]) == 0 {
    } else if cmp(x, r[0]) < 0 {
      forall j | 0 <= j < |r|
        ensures cmp(x, r[j]) < 0
      {
        if j > 0 {
          LessTransitive(x, r[0], r[j], cmp);
        }
      }
      ConsAscending(x, r, cmp);
    } else {
      var t := TreeAdd(r[1..], x, cmp);
      TreeAddAscending(r[1..], x, cmp);
      forall j | 0 <= j < |t|
        ensures cmp(r[0], t[j]) < 0
      {
        assert t[j] in t;
        if t[j] != x {
          var k :| 0 <= k < |r[1..]| && r[1..][k] == t[j];
          assert r[k + 1] == t[j];
        }
      }
      ConsAscending(r[0], t, cmp);
    }
  }

  lemma {:induction false} TreeAddRepresents<T>(r: seq<T>, x: T, cmp: Comparator<T>)
    requires cmp(x, x) == 0
    ensures exists y :: y in TreeAdd(r, x, cmp) && cmp(x, y) == 0
  {
    if r == [] || cmp(x, r[0]) < 0 {
      assert x in TreeAdd(r, x, cmp);
    } else if cmp(x, r[0]) == 0 {
      assert r[0] in TreeAdd(r, x, cmp);
    } else {
      TreeAddRepresents(r[1..], x, cmp);
      var y :| y in TreeAdd(r[1..], x, cmp) && cmp(x, y) == 0;
      assert y in TreeAdd(r, x, cmp);
    }
  }

  /** toTreeSet yields the elements strictly ascending, each drawn from `s`, and
      every element of `s` is represented by one that compares equal to it. */
  lemma {:induction false} TreeSetOfCorrect<T(!new)>(s: seq<T>, cmp: Comparator<T>)
    requires IsComparator(cmp)
    ensures StrictlyAscending(TreeSetOf(s, cmp), cmp)
    ensures forall y :: y in TreeSetOf(s, cmp) ==> y in s
    ensures forall x :: x in s ==> exists y :: y in TreeSetOf(s, cmp) && cmp(x, y) == 0
    decreases |s|
  {
    if s != [] {
      var t, z := s[..|s| - 1], s[|s| - 1];
      assert s == t + [z];
      var ts := TreeSetOf(t, cmp);
      assert TreeSetOf(s, cmp) == TreeAdd(ts, z, cmp);
      TreeSetOfCorrect(t, cmp);
      TreeAddAscending(ts, z, cmp);
      TreeAddRepresents(ts, z, cmp);
      forall x | x in s
        ensures exists y :: y in TreeAdd(ts, z, cmp) && cmp(x, y) == 0
      {
        if x != z {
          var y :| y in ts && cmp(x, y) == 0;
          assert y in TreeAdd(ts, z, cmp);
        }
      }
    }
  }

  /** A comparator consistent with equals: it reports a tie exactly for equal elements. */
  ghost predicate ConsistentWithEquals<T(!new)>(cmp: Comparator<T>) {
    forall a, b :: cmp(a, b) == 0 <==> a == b
  }

  /** With a comparator consistent with equals the TreeSet holds exactly the
      distinct elements, each once, in ascending order. */
  lemma TreeSetOfDistinct<T(!new)>(s: seq<T>, cmp: Comparator<T>)
    requires IsComparator(cmp) && ConsistentWithEquals(cmp)
    ensures forall x :: x in TreeSetOf(s, cmp) ==> x in s
    ensures forall x :: x in s ==> x in TreeSetOf(s, cmp)
    ensures NoDuplicates(TreeSetOf(s, cmp))
  {
    TreeSetOfCorrect(s, cmp);
  }

  /** BinaryOperator.minBy, Ordering.min(a, b): the first argument on a tie. */
  function MinBy<T>(cmp: Comparator<T>): (T, T) -> T {
    (a, b) => if cmp(a, b) <= 0 then a else b
  }

  /** BinaryOperator.maxBy, Ordering.max(a, b): the first argument on a tie. */
  function MaxBy<T>(cmp: Comparator<T>): (T, T) -> T {
    (a, b) => if cmp(a, b) >= 0 then a else b
  }

  /** Folding with minBy yields the seed or an element, sorting no later than any of them. */
  lemma {:induction false} FoldMinBy<T(!new)>(s: seq<T>, acc: T, cmp: Comparator<T>)
    requires IsComparator(cmp)
    ensures var m := FoldLeft(s, acc, MinBy(cmp));
      && (m == acc || m in s)
      && cmp(m, acc) <= 0
      && forall x :: x in s ==> cmp(m, x) <= 0
  {
    if s != [] {
      FoldMinBy(s[1..], MinBy(cmp)(acc, s[0]), cmp);
      assert s == [s[0]] + s[1..];
    }
  }

  /** Folding with maxBy yields the seed or an element, sorting no earlier than any of them. */
  lemma {:induction false} FoldMaxBy<T(!new)>(s: seq<T>, acc: T, cmp: Comparator<T>)
    requires IsComparator(cmp)
    ensures var m := FoldLeft(s, acc, MaxBy(cmp));
      && (m == acc || m in s)
      && cmp(m, acc) >= 0
      && forall x :: x in s ==> cmp(m, x) >= 0
  {
    if s != [] {
      FoldMaxBy(s[1..], MaxBy(cmp)(acc, s[0]), cmp);
      assert s == [s[0]] + s[1..];
    }
  }

  /** A fold whose step returns one of its two arguments ends on the seed or on an element. */
  lemma {:induction false} FoldChoosesElement<T>(s: seq<T>, acc: T, choose: (T, T) -> T)
    requires forall a, b :: choose(a, b) == a || choose(a, b) == b
    ensures FoldLeft(s, acc, choose) == acc || FoldLeft(s, acc, choose) in s
  {
    if s != [] {
      FoldChoosesElement(s[1..], choose(acc, s[0]), choose);
      assert s == [s[0]] + s[1..];
    }
  }

  /** The least element under `cmp`, or nothing for an empty sequence. */
  function Least<T>(s: seq<T>, cmp: Comparator<T>): (r: Option<T>)
    ensures r.None? <==> s == []
    ensures r.Some? ==> r.value in s
  {
    if s == [] then None
    else
      FoldChoosesElement(s[1..], s[0], MinBy(cmp));
      assert s == [s[0]] + s[1..];
      Reduce(s, MinBy(cmp))
  }

  /** The greatest element under `cmp`, or nothing for an empty sequence. */
  function Greatest<T>(s: seq<T>, cmp: Comparator<T>): (r: Option<T>)
    ensures r.None? <==> s == []
    ensures r.Some? ==> r.value in s
  {
    if s == [] then None
    else
      FoldChoosesElement(s[1..], s[0], MaxBy(cmp));
      assert s == [s[0]] + s[1..];
      Reduce(s, MaxBy(cmp))
  }

  /** min(comparator) is an element that sorts no later than every element. */
  lemma LeastIsLeast<T(!new)>(s: seq<T>, cmp: Comparator<T>)
    requires IsComparator(cmp) && s != []
    ensures Least(s, cmp).value in s
    ensures forall x :: x in s ==> cmp(Least(s, cmp).value, x) <= 0
  {
    var m := FoldLeft(s[1..], s[0], MinBy(cmp));
    assert Least(s, cmp) == Some(m);
    FoldMinBy(s[1..], s[0], cmp);
    forall x | x in s
      ensures cmp(m, x) <= 0
    {
      if x != s[0] {
        assert x in s[1..];
      }
    }
  }

  /** max(comparator) is an element that sorts no earlier than every element. */
  lemma GreatestIsGreatest<T(!new)>(s: seq<T>, cmp: Comparator<T>)
    requires IsComparator(cmp) && s != []
    ensures Greatest(s, cmp).value in s
    ensures forall x :: x in s ==> cmp(Greatest(s, cmp).value, x) >= 0
  {
    var m := FoldLeft(s[1..], s[0], MaxBy(cmp));
    assert Greatest(s, cmp) == Some(m);
    FoldMaxBy(s[1..], s[0], cmp);
    forall x | x in s
      ensures cmp(m, x) >= 0
    {
      if x != s[0] {
        assert x in s[1..];
      }
    }
  }
}
