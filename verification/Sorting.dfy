/** Sorting by a string key, as slices.Sort, slices.SortFunc and sort.Slice are used. */
module Sorting {
  import opened Strings

  predicate AscendingBy<T>(key: T -> string, xs: seq<T>) {
    forall i, j :: 0 <= i < j < |xs| ==> !Less(key(xs[j]), key(xs[i]))
  }

  predicate StrictBy<T>(key: T -> string, xs: seq<T>) {
    forall i, j :: 0 <= i < j < |xs| ==> Less(key(xs[i]), key(xs[j]))
  }

  predicate DistinctBy<T>(key: T -> string, xs: seq<T>) {
    forall i, j :: 0 <= i < j < |xs| ==> key(xs[i]) != key(xs[j])
  }

  function InsertBy<T(==)>(key: T -> string, xs: seq<T>, x: T): (out: seq<T>)
    requires AscendingBy(key, xs)
    ensures AscendingBy(key, out) && multiset(out) == multiset(xs) + multiset{x}
  {
    if xs == [] then [x]
    else if !Less(key(xs[0]), key(x)) then
      BeforeAll(key, xs, x);
      [x] + xs
    else
      var rest := InsertBy(key, xs[1..], x);
      assert xs == [xs[0]] + xs[1..];
      FirstStays(key, xs, x, rest);
      [xs[0]] + rest
  }

  lemma BeforeAll<T>(key: T -> string, xs: seq<T>, x: T)
    requires AscendingBy(key, xs) && xs != [] && !Less(key(xs[0]), key(x))
    ensures forall i :: 0 <= i < |xs| ==> !Less(key(xs[i]), key(x))
  {
    forall i | 0 < i < |xs|
      ensures !Less(key(xs[i]), key(x))
    {
      if Less(key(xs[i]), key(x)) {
        LessTotal(key(xs[0]), key(xs[i]));
        if Less(key(xs[0]), key(xs[i])) {
          LessTransitive(key(xs[0]), key(xs[i]), key(x));
        }
      }
    }
  }

  lemma FirstStays<T>(key: T -> string, xs: seq<T>, x: T, rest: seq<T>)
    requires AscendingBy(key, xs) && xs != [] && Less(key(xs[0]), key(x))
    requires multiset(rest) == multiset(xs[1..]) + multiset{x}
    ensures forall i :: 0 <= i < |rest| ==> !Less(key(rest[i]), key(xs[0]))
  {
    forall i | 0 <= i < |rest|
      ensures !Less(key(rest[i]), key(xs[0]))
    {
      assert rest[i] in multiset(rest);
      if rest[i] == x {
        if Less(key(x), key(xs[0])) {
          LessTransitive(key(xs[0]), key(x), key(xs[0]));
          LessIrreflexive(key(xs[0]));
        }
      } else {
        assert rest[i] in xs[1..];
      }
    }
  }

  function SortBy<T(==)>(key: T -> string, xs: seq<T>): (out: seq<T>)
    ensures AscendingBy(key, out) && multiset(out) == multiset(xs)
  {
    if xs == [] then []
    else
      assert xs == [xs[0]] + xs[1..];
      InsertBy(key, SortBy(key, xs[1..]), xs[0])
  }

  lemma SameElements<T>(a: seq<T>, b: seq<T>, x: T)
    requires multiset(a) == multiset(b)
    ensures x in a <==> x in b
  {
    assert x in a <==> x in multiset(a);
    assert x in b <==> x in multiset(b);
  }

  lemma DistinctTail<T>(key: T -> string, xs: seq<T>)
    requires DistinctBy(key, xs) && xs != []
    ensures DistinctBy(key, xs[1..]) && forall y :: y in xs[1..] ==> key(y) != key(xs[0])
  {
    forall y | y in xs[1..]
      ensures key(y) != key(xs[0])
    {
      var i :| 0 <= i < |xs[1..]| && xs[1..][i] == y;
      assert xs[i + 1] == y;
    }
  }

  /** Distinct keys end up strictly ascending. */
  lemma {:induction false} SortDistinct<T>(key: T -> string, xs: seq<T>)
    requires DistinctBy(key, xs)
    ensures StrictBy(key, SortBy(key, xs)) && forall x :: x in SortBy(key, xs) <==> x in xs
  {
    forall x
      ensures x in SortBy(key, xs) <==> x in xs
    {
      SameElements(SortBy(key, xs), xs, x);
    }
    if xs != [] {
      SortDistinct(key, xs[1..]);
      DistinctTail(key, xs);
      forall y | y in SortBy(key, xs[1..])
        ensures key(y) != key(xs[0])
      {
        SameElements(SortBy(key, xs[1..]), xs[1..], y);
      }
      InsertStrict(key, SortBy(key, xs[1..]), xs[0]);
    }
  }

  lemma {:induction false} InsertStrict<T>(key: T -> string, xs: seq<T>, x: T)
    requires AscendingBy(key, xs) && StrictBy(key, xs) && forall y :: y in xs ==> key(y) != key(x)
    ensures StrictBy(key, InsertBy(key, xs, x))
  {
    if xs != [] {
      LessTotal(key(xs[0]), key(x));
      if Less(key(xs[0]), key(x)) {
        InsertStrict(key, xs[1..], x);
        forall y | y in InsertBy(key, xs[1..], x)
          ensures Less(key(xs[0]), key(y))
        {
          assert y in multiset(InsertBy(key, xs[1..], x));
        }
      } else {
        forall y | y in xs
          ensures Less(key(x), key(y))
        {
          if y != xs[0] {
            LessTransitive(key(x), key(xs[0]), key(y));
          }
        }
      }
    }
  }
}
