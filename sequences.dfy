/** The semantics of the java.util.stream and Guava Iterables operations that
    both fluent wrappers delegate to. A wrapper is modelled by the finite
    sequence it yields when iterated, and Java `equals` by Dafny `==`. */
module Sequences {
  import opened Wrappers

  /** Predicate.negate() and Guava's Predicates.not. */
  function Not<T>(p: T -> bool): T -> bool {
    x => !p(x)
  }

  /** The elements satisfying `p`, in their original order (Stream.filter, Iterables.filter). */
  function Filter<T>(s: seq<T>, p: T -> bool): (r: seq<T>)
    ensures |r| <= |s|
    ensures forall x :: x in r ==> x in s && p(x)
    ensures forall x :: x in s && p(x) ==> x in r
  {
    if s == [] then []
    else if p(s[0]) then [s[0]] + Filter(s[1..], p)
    else Filter(s[1..], p)
  }

  lemma ConcatAssociative<T>(a: seq<T>, b: seq<T>, c: seq<T>)
    ensures a + (b + c) == a + b + c
  {
  }

  /** Filtering distributes over concatenation, so the kept elements stay in their order. */
  lemma {:induction false} FilterAppend<T>(a: seq<T>, b: seq<T>, p: T -> bool)
    ensures Filter(a + b, p) == Filter(a, p) + Filter(b, p)
  {
    if a == [] {
      assert a + b == b;
    } else {
      var ab := a + b;
      assert ab[0] == a[0] && ab[1..] == a[1..] + b;
      FilterAppend(a[1..], b, p);
      if p(a[0]) {
        ConcatAssociative([a[0]], Filter(a[1..], p), Filter(b, p));
      }
    }
  }

  /** A predicate and its negation split a sequence: every element lands in exactly one part. */
  lemma {:induction false} FilterPartition<T>(s: seq<T>, p: T -> bool)
    ensures |Filter(s, p)| + |Filter(s, Not(p))| == |s|
    ensures multiset(Filter(s, p)) + multiset(Filter(s, Not(p))) == multiset(s)
  {
    if s != [] {
      FilterPartition(s[1..], p);
      assert s == [s[0]] + s[1..];
    }
  }

  /** Filtering by a predicate every element satisfies gives the sequence back. */
  lemma {:induction false} FilterKeepsAll<T>(s: seq<T>, p: T -> bool)
    requires forall x :: x in s ==> p(x)
    ensures Filter(s, p) == s
  {
    if s != [] {
      FilterKeepsAll(s[1..], p);
      assert s == [s[0]] + s[1..];
    }
  }

  /** Filtering by a predicate no element satisfies leaves nothing. */
  lemma {:induction false} FilterNone<T>(s: seq<T>, p: T -> bool)
    requires forall x :: x in s ==> !p(x)
    ensures Filter(s, p) == []
  {
    if s != [] {
      FilterNone(s[1..], p);
    }
  }

  /** Two predicates that agree on the elements filter alike. */
  lemma {:induction false} FilterAgrees<T>(s: seq<T>, p: T -> bool, q: T -> bool)
    requires forall x :: x in s ==> p(x) == q(x)
    ensures Filter(s, p) == Filter(s, q)
  {
    if s != [] {
      FilterAgrees(s[1..], p, q);
    }
  }

  /** The number of elements satisfying `p`, counted one by one. */
  function CountWhere<T>(s: seq<T>, p: T -> bool): (n: nat)
    ensures n <= |s|
    ensures n == 0 <==> forall x :: x in s ==> !p(x)
    ensures n == |s| <==> forall x :: x in s ==> p(x)
  {
    if s == [] then 0
    else (if p(s[0]) then 1 else 0) + CountWhere(s[1..], p)
  }

  /** Counting the filtered sequence counts the matching elements. */
  lemma {:induction false} FilterSizeIsCount<T>(s: seq<T>, p: T -> bool)
    ensures |Filter(s, p)| == CountWhere(s, p)
  {
    if s != [] {
      FilterSizeIsCount(s[1..], p);
    }
  }

  /** The first element satisfying `p`, found by walking the sequence (Iterables.find, Stream.findFirst after filter). */
  function Find<T>(s: seq<T>, p: T -> bool): (r: Option<T>)
    ensures r.None? <==> forall x :: x in s ==> !p(x)
    ensures r.Some? ==> exists i :: 0 <= i < |s| && s[i] == r.value && p(s[i]) &&
                                    forall j :: 0 <= j < i ==> !p(s[j])
  {
    if s == [] then None
    else if p(s[0]) then Some(s[0])
    else
      assert forall i :: 0 <= i < |s| - 1 ==> s[1..][i] == s[i + 1];
      Find(s[1..], p)
  }

  /** Walking for the first match agrees with filtering and taking the head
      (Stream.filter(p).findFirst()). */
  lemma {:induction false} FindIsFilterHead<T>(s: seq<T>, p: T -> bool)
    ensures Find(s, p) == if Filter(s, p) == [] then None else Some(Filter(s, p)[0])
  {
    if s != [] && !p(s[0]) {
      FindIsFilterHead(s[1..], p);
    }
  }

  /** Stream.map, Iterables.transform: `f` applied to every element, in order. */
  function Map<T, R>(s: seq<T>, f: T -> R): (r: seq<R>)
    ensures |r| == |s|
    ensures forall i :: 0 <= i < |s| ==> r[i] == f(s[i])
  {
    if s == [] then [] else [f(s[0])] + Map(s[1..], f)
  }

  /** Function.andThen */
  function AndThen<T, U, R>(f: T -> U, g: U -> R): T -> R {
    x => g(f(x))
  }

  /** Mapping twice is mapping once by the composed function. */
  lemma {:induction false} MapFusion<T, U, R>(s: seq<T>, f: T -> U, g: U -> R)
    ensures Map(Map(s, f), g) == Map(s, AndThen(f, g))
  {
    if s != [] {
      MapFusion(s[1..], f, g);
    }
  }

  /** Stream.flatMap, Iterables.concat of the transformed elements: the
      sub-sequences of the elements, concatenated in element order. */
  function FlatMap<T, R>(s: seq<T>, f: T -> seq<R>): (r: seq<R>)
    ensures forall y :: y in r ==> exists x :: x in s && y in f(x)
    ensures forall x, y :: x in s && y in f(x) ==> y in r
  {
    if s == [] then [] else f(s[0]) + FlatMap(s[1..], f)
  }

  /** Flattening distributes over concatenation. */
  lemma {:induction false} FlatMapAppend<T, R>(a: seq<T>, b: seq<T>, f: T -> seq<R>)
    ensures FlatMap(a + b, f) == FlatMap(a, f) + FlatMap(b, f)
  {
    if a == [] {
      assert a + b == b;
    } else {
      assert (a + b)[0] == a[0];
      assert (a + b)[1..] == a[1..] + b;
      FlatMapAppend(a[1..], b, f);
    }
  }

  /** A transform to one-element lists */
  function Singleton<T, R>(f: T -> R): T -> seq<R> {
    x => [f(x)]
  }

  /** Flattening one-element sub-sequences is plain mapping. */
  lemma {:induction false} FlatMapOfSingletons<T, R>(s: seq<T>, f: T -> R)
    ensures FlatMap(s, Singleton(f)) == Map(s, f)
  {
    if s != [] {
      FlatMapOfSingletons(s[1..], f);
    }
  }

  /** A sequential left fold: `f(...f(f(acc, s[0]), s[1])..., s[|s|-1])`. */
  function FoldLeft<A, T>(s: seq<T>, acc: A, f: (A, T) -> A): (r: A)
    ensures s == [] ==> r == acc
    ensures s != [] ==> r == f(FoldLeft(s[..|s| - 1], acc, f), s[|s| - 1])
    decreases |s|
  {
    if s == [] then acc
    else
      var rest := s[1..];
      assert rest != [] ==> s[..|s| - 1][1..] == rest[..|rest| - 1] && s[..|s| - 1][0] == s[0];
      FoldLeft(rest, f(acc, s[0]), f)
  }

  /** Stream.reduce(accumulator): nothing when empty, otherwise the fold seeded
      with the first element. */
  function Reduce<T>(s: seq<T>, f: (T, T) -> T): (r: Option<T>)
    ensures r.None? <==> s == []
  {
    if s == [] then None else Some(FoldLeft(s[1..], s[0], f))
  }

  /** Reducing one more element combines it with the reduction of the rest. */
  lemma ReduceSnoc<T>(s: seq<T>, x: T, f: (T, T) -> T)
    ensures Reduce(s + [x], f) == Some(if s == [] then x else f(Reduce(s, f).value, x))
  {
    if s != [] {
      var rest := (s + [x])[1..];
      assert rest == s[1..] + [x] && rest[..|rest| - 1] == s[1..];
    }
  }

  /** The position of the first element equal to `x`, or -1 when there is none. */
  function Position<T(==)>(s: seq<T>, x: T): (i: int)
    ensures -1 <= i < |s|
    ensures i == -1 <==> x !in s
    ensures 0 <= i ==> s[i] == x && forall j :: 0 <= j < i ==> s[j] != x
  {
    if s == [] then -1
    else if s[0] == x then 0
    else
      var k := Position(s[1..], x);
      if k == -1 then -1 else k + 1
  }

  ghost predicate NoDuplicates<T>(s: seq<T>) {
    forall i, j :: 0 <= i < j < |s| ==> s[i] != s[j]
  }

  /** Stream.distinct: each element once, at its first occurrence. */
  function Distinct<T(==)>(s: seq<T>): (r: seq<T>)
    ensures forall x :: x in r ==> x in s
    ensures forall x :: x in s ==> x in r
    ensures NoDuplicates(r)
    decreases |s|
  {
    if s == [] then []
    else
      var d := Distinct(s[..|s| - 1]);
      var x := s[|s| - 1];
      assert s == s[..|s| - 1] + [x];
      if x in d then d else d + [x]
  }

  /** The distinct elements come in the order of their first occurrences. */
  lemma {:induction false} DistinctKeepsFirstOccurrenceOrder<T>(s: seq<T>)
    ensures forall i, j :: 0 <= i < j < |Distinct(s)| ==>
      Position(s, Distinct(s)[i]) < Position(s, Distinct(s)[j])
    decreases |s|
  {
    if s != [] {
      var t, y := s[..|s| - 1], s[|s| - 1];
      assert s == t + [y];
      DistinctKeepsFirstOccurrenceOrder(t);
      var d := Distinct(t);
      forall x | x in t
        ensures Position(s, x) == Position(t, x)
      {
        var p := Position(t, x);
        assert s[p] == x;
      }
      var r := Distinct(s);
      assert r == if y in d then d else d + [y];
      forall i, j | 0 <= i < j < |r|
        ensures Position(s, r[i]) < Position(s, r[j])
      {
        assert r[i] == d[i] && r[i] in t;
        if j < |d| {
          assert r[j] == d[j] && r[j] in t;
        } else {
          assert r[j] == y && y !in t;
          assert Position(s, y) == |t|;
        }
      }
    }
  }

  /** A sequence without duplicates is its own distinct view. */
  lemma {:induction false} DistinctOfDuplicateFree<T>(s: seq<T>)
    requires NoDuplicates(s)
    ensures Distinct(s) == s
    decreases |s|
  {
    if s != [] {
      var t := s[..|s| - 1];
      DistinctOfDuplicateFree(t);
      assert s == t + [s[|s| - 1]];
    }
  }

  /** distinct().distinct() yields the same sequence as distinct(). */
  lemma DistinctIdempotent<T>(s: seq<T>)
    ensures Distinct(Distinct(s)) == Distinct(s)
  {
    DistinctOfDuplicateFree(Distinct(s));
  }

  /** What a java.util.StringJoiner or a Guava Joiner builds from the element
      strings: the first string, then the delimiter and the next string, and so on. */
  function Joined<T>(s: seq<T>, delimiter: string, str: T -> string): string
    decreases |s|
  {
    if s == [] then ""
    else if |s| == 1 then str(s[0])
    else Joined(s[..|s| - 1], delimiter, str) + delimiter + str(s[|s| - 1])
  }

  /** Joining a concatenation puts exactly one delimiter between the two joined halves. */
  lemma {:induction false} JoinedAppend<T>(a: seq<T>, b: seq<T>, delimiter: string, str: T -> string)
    requires a != [] && b != []
    ensures Joined(a + b, delimiter, str) == Joined(a, delimiter, str) + delimiter + Joined(b, delimiter, str)
    decreases |b|
  {
    var ab := a + b;
    assert ab[|ab| - 1] == b[|b| - 1];
    if |b| == 1 {
      assert ab[..|ab| - 1] == a;
    } else {
      var b' := b[..|b| - 1];
      assert ab[..|ab| - 1] == a + b';
      JoinedAppend(a, b', delimiter, str);
      var ja, jb', last := Joined(a, delimiter, str), Joined(b', delimiter, str), str(b[|b| - 1]);
      assert Joined(b, delimiter, str) == jb' + delimiter + last;
      assert Joined(ab, delimiter, str) == ja + delimiter + jb' + delimiter + last;
    }
  }

  /** The map that putting every element under its key leaves behind: a later
      element replaces an earlier one with the same key (HashMap.put). */
  function LastByKey<T, K>(s: seq<T>, key: T -> K): (m: map<K, T>)
    ensures m.Keys == set x | x in s :: key(x)
    decreases |s|
  {
    if s == [] then map[]
    else
      var x := s[|s| - 1];
      assert s == s[..|s| - 1] + [x];
      LastByKey(s[..|s| - 1], key)[key(x) := x]
  }

  /** An element that no later element shares a key with is the value stored under its key. */
  lemma {:induction false} LastByKeyKeepsLast<T, K>(s: seq<T>, key: T -> K, i: int)
    requires 0 <= i < |s|
    requires forall l :: i < l < |s| ==> key(s[l]) != key(s[i])
    ensures key(s[i]) in LastByKey(s, key) && LastByKey(s, key)[key(s[i])] == s[i]
    decreases |s|
  {
    if i < |s| - 1 {
      LastByKeyKeepsLast(s[..|s| - 1], key, i);
    }
  }

  ghost predicate KeysDistinct<T, K>(s: seq<T>, key: T -> K) {
    forall i, j :: 0 <= i < j < |s| ==> key(s[i]) != key(s[j])
  }

  /** With distinct keys every element is stored under its own key and none is lost. */
  lemma {:induction false} LastByKeyOfDistinctKeys<T, K>(s: seq<T>, key: T -> K)
    requires KeysDistinct(s, key)
    ensures |LastByKey(s, key)| == |s|
    ensures forall i :: 0 <= i < |s| ==> LastByKey(s, key)[key(s[i])] == s[i]
    decreases |s|
  {
    forall i | 0 <= i < |s|
      ensures LastByKey(s, key)[key(s[i])] == s[i]
    {
      LastByKeyKeepsLast(s, key, i);
    }
    if s != [] {
      var t, x := s[..|s| - 1], s[|s| - 1];
      LastByKeyOfDistinctKeys(t, key);
      var m := LastByKey(t, key);
      assert LastByKey(s, key).Keys == m.Keys + {key(x)};
    }
  }
}
