/**
 * The stable sort the platform provides (`Array.prototype.sort`), as a function of a comparison.
 * It is a permutation, it sorts, and under an antisymmetric comparison its result does not depend
 * on the order of the input.
 */
module Sorting {

  ghost predicate TotalPreorder<T(!new)>(le: (T, T) -> bool) {
    && (forall x, y :: le(x, y) || le(y, x))
    && (forall x, y, z :: le(x, y) && le(y, z) ==> le(x, z))
  }

  ghost predicate TotalOrder<T(!new)>(le: (T, T) -> bool) {
    TotalPreorder(le) && forall x, y :: le(x, y) && le(y, x) ==> x == y
  }

  ghost predicate SortedBy<T>(xs: seq<T>, le: (T, T) -> bool) {
    forall i, j :: 0 <= i < j < |xs| ==> le(xs[i], xs[j])
  }

  function Insert<T>(x: T, xs: seq<T>, le: (T, T) -> bool): seq<T> {
    if xs == [] || le(x, xs[0]) then [x] + xs else [xs[0]] + Insert(x, xs[1..], le)
  }

  function SortBy<T>(xs: seq<T>, le: (T, T) -> bool): seq<T> {
    if xs == [] then [] else Insert(xs[0], SortBy(xs[1..], le), le)
  }

  lemma {:induction false} InsertPermutes<T>(x: T, xs: seq<T>, le: (T, T) -> bool)
    ensures multiset(Insert(x, xs, le)) == multiset([x] + xs)
  {
    if xs != [] && !le(x, xs[0]) {
      InsertPermutes(x, xs[1..], le);
      assert xs == [xs[0]] + xs[1..];
    }
  }

  lemma {:induction false} SortPermutes<T>(xs: seq<T>, le: (T, T) -> bool)
    ensures multiset(SortBy(xs, le)) == multiset(xs) && |SortBy(xs, le)| == |xs|
  {
    if xs != [] {
      SortPermutes(xs[1..], le);
      InsertPermutes(xs[0], SortBy(xs[1..], le), le);
      assert xs == [xs[0]] + xs[1..];
    }
    SameSize(SortBy(xs, le), xs);
  }

  lemma SameSize<T>(xs: seq<T>, ys: seq<T>)
    requires multiset(xs) == multiset(ys)
    ensures |xs| == |ys|
  {
    assert |multiset(xs)| == |xs| && |multiset(ys)| == |ys|;
  }

  lemma SameMembers<T>(xs: seq<T>, ys: seq<T>, x: T)
    requires multiset(xs) == multiset(ys)
    ensures x in xs <==> x in ys
  {
    assert x in xs <==> x in multiset(xs);
    assert x in ys <==> x in multiset(ys);
  }

  lemma SortMembers<T>(xs: seq<T>, le: (T, T) -> bool)
    ensures forall x :: x in SortBy(xs, le) <==> x in xs
  {
    SortPermutes(xs, le);
    forall x ensures x in SortBy(xs, le) <==> x in xs {
      SameMembers(SortBy(xs, le), xs, x);
    }
  }

  lemma {:induction false} InsertSorts<T(!new)>(x: T, xs: seq<T>, le: (T, T) -> bool)
    requires TotalPreorder(le) && SortedBy(xs, le)
    ensures SortedBy(Insert(x, xs, le), le)
  {
    if xs != [] && !le(x, xs[0]) {
      InsertSorts(x, xs[1..], le);
      var tail := Insert(x, xs[1..], le);
      InsertPermutes(x, xs[1..], le);
      forall j | 0 <= j < |tail| ensures le(xs[0], tail[j]) {
        SameMembers(tail, [x] + xs[1..], tail[j]);
        assert tail[j] in [x] + xs[1..];
      }
    }
  }

  lemma {:induction false} SortSorts<T(!new)>(xs: seq<T>, le: (T, T) -> bool)
    requires TotalPreorder(le)
    ensures SortedBy(SortBy(xs, le), le)
  {
    if xs != [] {
      SortSorts(xs[1..], le);
      InsertSorts(xs[0], SortBy(xs[1..], le), le);
    }
  }

  /** Under a total order two insertions commute, in whatever list. */
  lemma {:induction false} InsertCommutes<T(!new)>(x: T, y: T, xs: seq<T>, le: (T, T) -> bool)
    requires TotalOrder(le) && le(x, y)
    ensures Insert(x, Insert(y, xs, le), le) == Insert(y, Insert(x, xs, le), le)
  {
    if x != y {
      assert !le(y, x);
      if xs == [] || le(x, xs[0]) {
        assert ([x] + xs)[1..] == xs;
      } else {
        assert !le(y, xs[0]);
        InsertCommutes(x, y, xs[1..], le);
        InsertPast(x, y, xs, le);
        InsertPast(y, x, xs, le);
      }
    }
  }

  lemma InsertPast<T>(x: T, y: T, xs: seq<T>, le: (T, T) -> bool)
    requires xs != [] && !le(x, xs[0]) && !le(y, xs[0])
    ensures Insert(x, Insert(y, xs, le), le) == [xs[0]] + Insert(x, Insert(y, xs[1..], le), le)
  {
    assert ([xs[0]] + Insert(y, xs[1..], le))[1..] == Insert(y, xs[1..], le);
  }

  /** So where an element stands in the input does not matter: it is inserted into the rest, sorted. */
  lemma {:induction false} SortMiddle<T(!new)>(before: seq<T>, x: T, after: seq<T>, le: (T, T) -> bool)
    requires TotalOrder(le)
    ensures SortBy(before + [x] + after, le) == Insert(x, SortBy(before + after, le), le)
  {
    if before == [] {
      assert before + [x] + after == [x] + after && ([x] + after)[1..] == after && before + after == after;
    } else {
      SortMiddle(before[1..], x, after, le);
      assert (before + [x] + after)[1..] == before[1..] + [x] + after;
      assert (before + after)[1..] == before[1..] + after;
      assert le(before[0], x) || le(x, before[0]);
      if le(x, before[0]) {
        InsertCommutes(x, before[0], SortBy(before[1..] + after, le), le);
      } else {
        InsertCommutes(before[0], x, SortBy(before[1..] + after, le), le);
      }
    }
  }

  /** The first element of a list stands somewhere in each of its permutations, and the rests are permutations. */
  lemma MatchFirst<T>(xs: seq<T>, ys: seq<T>) returns (j: nat)
    requires xs != [] && multiset(xs) == multiset(ys)
    ensures j < |ys| && ys[j] == xs[0]
    ensures xs == [xs[0]] + xs[1..] && ys == ys[..j] + [xs[0]] + ys[j + 1..]
    ensures multiset(xs[1..]) == multiset(ys[..j] + ys[j + 1..])
  {
    SameMembers(xs, ys, xs[0]);
    j :| 0 <= j < |ys| && ys[j] == xs[0];
    assert xs == [xs[0]] + xs[1..];
    assert ys == ys[..j] + [ys[j]] + ys[j + 1..];
    assert multiset(xs[1..]) == multiset(xs) - multiset{xs[0]};
  }

  /** Under a total order the sorted result does not depend on the order of the input. */
  lemma {:induction false} SortForgetsOrder<T(!new)>(xs: seq<T>, ys: seq<T>, le: (T, T) -> bool)
    requires TotalOrder(le) && multiset(xs) == multiset(ys)
    ensures SortBy(xs, le) == SortBy(ys, le)
    decreases |xs|
  {
    SameSize(xs, ys);
    if xs == [] {
      assert ys == [];
    } else {
      var j := MatchFirst(xs, ys);
      SortForgetsOrder(xs[1..], ys[..j] + ys[j + 1..], le);
      SortMiddle(ys[..j], xs[0], ys[j + 1..], le);
      hide TotalOrder;
    }
  }

  // ---------- The default order on strings ----------

  predicate StringLe(a: string, b: string) {
    a == "" || (b != "" && (a[0] < b[0] || (a[0] == b[0] && StringLe(a[1..], b[1..]))))
  }

  lemma {:induction false} StringLeTotal(a: string, b: string)
    ensures StringLe(a, b) || StringLe(b, a)
    ensures StringLe(a, b) && StringLe(b, a) ==> a == b
  {
    if a != "" && b != "" {
      StringLeTotal(a[1..], b[1..]);
      assert a == [a[0]] + a[1..] && b == [b[0]] + b[1..];
    }
  }

  lemma {:induction false} StringLeTransitive(a: string, b: string, c: string)
    requires StringLe(a, b) && StringLe(b, c)
    ensures StringLe(a, c)
  {
    if a != "" && a[0] == b[0] == c[0] {
      StringLeTransitive(a[1..], b[1..], c[1..]);
    }
  }

  lemma StringLeIsTotalOrder()
    ensures TotalOrder(StringLe)
  {
    forall a, b ensures (StringLe(a, b) || StringLe(b, a)) && (StringLe(a, b) && StringLe(b, a) ==> a == b) {
      StringLeTotal(a, b);
    }
    forall a, b, c | StringLe(a, b) && StringLe(b, c) ensures StringLe(a, c) {
      StringLeTransitive(a, b, c);
    }
  }
}
