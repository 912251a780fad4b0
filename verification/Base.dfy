/**
 Small vocabulary shared by every model in this project.

 `Option` and `Result` stand for the source's own; an error is a value of the model that can
 raise it.

 `RemoveFirst` is the one list operation that several of the source's structures share.
 */
module Base {

  datatype Option<+T> = None | Some(value: T)

  datatype Result<+T, +E> = Ok(value: T) | Err(error: E)

  function GetOr<T>(o: Option<T>, default: T): T {
    match o case Some(v) => v case None => default
  }

  /** A byte, kept as an integer so that truncating casts are written out with `%`. */
  newtype byte = x: int | 0 <= x < 256

  /** `Vec::iter().position(..)` followed by `Vec::remove`: drop the first occurrence, if any. */
  function RemoveFirst<T(==)>(s: seq<T>, x: T): (r: seq<T>)
    ensures x !in s ==> r == s
    ensures |r| == if x in s then |s| - 1 else |s|
  {
    if s == [] then []
    else if s[0] == x then s[1..]
    else [s[0]] + RemoveFirst(s[1..], x)
  }

  /** Where a left-to-right search stops is where `RemoveFirst` cuts. */
  lemma {:induction false} RemoveFirstAt<T>(s: seq<T>, i: nat, x: T)
    requires i < |s| && s[i] == x && x !in s[..i]
    ensures RemoveFirst(s, x) == s[..i] + s[i + 1..]
  {
    if i > 0 {
      assert s[0] in s[..i];
      assert s[1..][..i - 1] == s[..i][1..];
      RemoveFirstAt(s[1..], i - 1, x);
      assert s[1..][i..] == s[i + 1..];
      assert [s[0]] + s[1..][..i - 1] == s[..i];
    }
  }

  /** No element occurs twice. */
  ghost predicate Distinct<T>(s: seq<T>) {
    forall i, j :: 0 <= i < j < |s| ==> s[i] != s[j]
  }

  /** `filter_map`: the values that are there, in order, and nothing else. */
  function Somes<T>(os: seq<Option<T>>): seq<T> {
    if os == [] then []
    else
      var before, o := Somes(os[..|os| - 1]), os[|os| - 1];
      if o.Some? then before + [o.value] else before
  }

  lemma {:induction false} SomesSplit<T>(a: seq<Option<T>>, b: seq<Option<T>>)
    ensures Somes(a + b) == Somes(a) + Somes(b)
  {
    if b == [] {
      assert a + b == a;
    } else {
      var n := |b| - 1;
      SomesSplit(a, b[..n]);
      assert (a + b)[..|a + b| - 1] == a + b[..n];
    }
  }

  lemma {:induction false} SomesFirst<T>(os: seq<Option<T>>)
    requires os != []
    ensures Somes(os) == if os[0].Some? then [os[0].value] + Somes(os[1..]) else Somes(os[1..])
  {
    SomesSplit([os[0]], os[1..]);
    assert os == [os[0]] + os[1..] && [os[0]][..0] == [];
    assert [] + Somes(os[1..]) == Somes(os[1..]);
  }

  lemma SomesNext<T>(os: seq<Option<T>>, i: nat)
    requires i < |os|
    ensures Somes(os[..i + 1]) == if os[i].Some? then Somes(os[..i]) + [os[i].value] else Somes(os[..i])
  {
    assert os[..i + 1][..i] == os[..i];
  }

  lemma Regrouped<T>(a: seq<T>, b: seq<T>, c: seq<T>)
    ensures a + (b + c) == (a + b) + c
  {
  }

  lemma NothingAdded<T>(s: seq<T>)
    ensures [] + s == s
  {
  }

  /** The value at a place comes right after those of the places before it. */
  lemma {:induction false} SomesAt<T>(os: seq<Option<T>>, i: nat)
    requires i < |os| && os[i].Some?
    ensures |Somes(os[..i])| < |Somes(os)| && Somes(os)[|Somes(os[..i])|] == os[i].value
  {
    SomesSplit(os[..i + 1], os[i + 1..]);
    assert os == os[..i + 1] + os[i + 1..] && os[..i + 1][..i] == os[..i];
  }
}
