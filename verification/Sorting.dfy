/**
 Sorting a copy, as `sort_by` and `sort_by_key` do: any rank with values in the reals.

 Equal ranks keep their order, so the sort is a function of its input. With distinct ranks it is
 a function of the bag of its input: the sorted arrangement is unique.

 The models sort samples by themselves and pack members by their block ids.
 */
module Sorting {

  ghost predicate Sorted<T>(s: seq<T>, rank: T -> real) {
    forall i, j :: 0 <= i < j < |s| ==> rank(s[i]) <= rank(s[j])
  }

  /** Put one element behind every element that ranks no higher: equal ranks keep their order. */
  function Insert<T>(x: T, s: seq<T>, rank: T -> real): (r: seq<T>)
    ensures |r| == |s| + 1
  {
    if s == [] || rank(x) < rank(s[0]) then [x] + s else [s[0]] + Insert(x, s[1..], rank)
  }

  /** The stable sort of a list. */
  function Sort<T>(s: seq<T>, rank: T -> real): (r: seq<T>)
    ensures |r| == |s|
  {
    if s == [] then [] else Insert(s[|s| - 1], Sort(s[..|s| - 1], rank), rank)
  }

  lemma {:induction false} InsertKeeps<T>(x: T, s: seq<T>, rank: T -> real)
    ensures multiset(Insert(x, s, rank)) == multiset(s) + multiset{x}
  {
    if s != [] && !(rank(x) < rank(s[0])) {
      InsertKeeps(x, s[1..], rank);
      assert s == [s[0]] + s[1..];
    }
  }

  lemma {:induction false} InsertSorted<T>(x: T, s: seq<T>, rank: T -> real)
    requires Sorted(s, rank)
    ensures Sorted(Insert(x, s, rank), rank)
  {
    if s != [] && !(rank(x) < rank(s[0])) {
      var rest := Insert(x, s[1..], rank);
      InsertSorted(x, s[1..], rank);
      InsertKeeps(x, s[1..], rank);
      forall j | 0 <= j < |rest| ensures rank(s[0]) <= rank(rest[j]) {
        assert rest[j] in multiset(rest);
      }
    }
  }

  lemma {:induction false} SortSorts<T>(s: seq<T>, rank: T -> real)
    ensures Sorted(Sort(s, rank), rank)
    ensures multiset(Sort(s, rank)) == multiset(s)
  {
    if s != [] {
      var before := s[..|s| - 1];
      SortSorts(before, rank);
      InsertSorted(s[|s| - 1], Sort(before, rank), rank);
      InsertKeeps(s[|s| - 1], Sort(before, rank), rank);
      assert s == before + [s[|s| - 1]];
    }
  }

  /** No two of these elements share a rank unless they are the same element. */
  ghost predicate RankInjective<T>(s: seq<T>, rank: T -> real) {
    forall i, j :: 0 <= i < |s| && 0 <= j < |s| && rank(s[i]) == rank(s[j]) ==> s[i] == s[j]
  }

  /** With distinct ranks the sorted arrangement of a bag is unique. */
  lemma {:induction false} SortedUnique<T>(a: seq<T>, b: seq<T>, rank: T -> real)
    requires Sorted(a, rank) && Sorted(b, rank) && multiset(a) == multiset(b)
    requires RankInjective(a, rank)
    ensures a == b
    decreases |a|
  {
    SameLength(a, b);
    if a != [] {
      SameHead(a, b, rank);
      TailBag(a);
      TailBag(b);
      TailSorted(a, rank);
      TailSorted(b, rank);
      TailInjective(a, rank);
      SortedUnique(a[1..], b[1..], rank);
      SameWhole(a, b);
    }
  }

  lemma {:induction false} SameHead<T>(a: seq<T>, b: seq<T>, rank: T -> real)
    requires Sorted(a, rank) && Sorted(b, rank) && multiset(a) == multiset(b)
    requires RankInjective(a, rank) && a != [] && b != []
    ensures a[0] == b[0]
  {
    assert a[0] in multiset(b) && b[0] in multiset(a);
    var i :| 0 <= i < |b| && b[i] == a[0];
    var j :| 0 <= j < |a| && a[j] == b[0];
    assert rank(b[0]) <= rank(b[i]) && rank(a[0]) <= rank(a[j]);
  }

  lemma {:induction false} SameLength<T>(a: seq<T>, b: seq<T>)
    requires multiset(a) == multiset(b)
    ensures |a| == |b|
  {
    assert |a| == |multiset(a)| && |b| == |multiset(b)|;
  }

  lemma {:induction false} SameWhole<T>(a: seq<T>, b: seq<T>)
    requires a != [] && b != [] && a[0] == b[0] && a[1..] == b[1..]
    ensures a == b
  {
    assert a == [a[0]] + a[1..] && b == [b[0]] + b[1..];
  }

  lemma {:induction false} TailSorted<T>(a: seq<T>, rank: T -> real)
    requires a != [] && Sorted(a, rank)
    ensures Sorted(a[1..], rank)
  {
  }

  lemma {:induction false} TailInjective<T>(a: seq<T>, rank: T -> real)
    requires a != [] && RankInjective(a, rank)
    ensures RankInjective(a[1..], rank)
  {
  }

  lemma {:induction false} TailBag<T>(a: seq<T>)
    requires a != []
    ensures multiset(a[1..]) == multiset(a) - multiset{a[0]}
  {
    assert a == [a[0]] + a[1..];
  }

  /** Rearranging the input of a sort by distinct ranks does not change its output. */
  lemma {:induction false} SortIgnoresOrder<T>(a: seq<T>, b: seq<T>, rank: T -> real)
    requires multiset(a) == multiset(b) && RankInjective(a, rank)
    ensures Sort(a, rank) == Sort(b, rank)
  {
    SortSorts(a, rank);
    SortSorts(b, rank);
    var sa := Sort(a, rank);
    forall i, j | 0 <= i < |sa| && 0 <= j < |sa| && rank(sa[i]) == rank(sa[j]) ensures sa[i] == sa[j] {
      assert sa[i] in multiset(a) && sa[j] in multiset(a);
      var i' :| 0 <= i' < |a| && a[i'] == sa[i];
      var j' :| 0 <= j' < |a| && a[j'] == sa[j];
    }
    SortedUnique(sa, Sort(b, rank), rank);
  }
}
