/** The host's comparator sort (a stable sort on a comparator that returns a
    negative number, zero or a positive number), written as an insertion sort. */
module Sorting {

  /** What a comparator must satisfy for the sort to be meaningful: "a may go
      before b" (cmp(a, b) <= 0) is total and transitive. */
  ghost predicate IsComparator<T(!new)>(cmp: (T, T) -> int)
  {
    && (forall a, b :: cmp(a, b) <= 0 || cmp(b, a) <= 0)
    && (forall a, b, c :: cmp(a, b) <= 0 && cmp(b, c) <= 0 ==> cmp(a, c) <= 0)
  }

  /** Every element may go before every later element. */
  predicate SortedBy<T>(s: seq<T>, cmp: (T, T) -> int)
  {
    forall i, j :: 0 <= i < j < |s| ==> cmp(s[i], s[j]) <= 0
  }

  /** Inserts x in front of the first element it may go before. */
  function Insert<T>(x: T, t: seq<T>, cmp: (T, T) -> int): (r: seq<T>)
    ensures multiset(r) == multiset(t) + multiset{x}
  {
    if t == [] then [x]
    else if cmp(x, t[0]) <= 0 then [x] + t
    else
      assert t == [t[0]] + t[1..];
      [t[0]] + Insert(x, t[1..], cmp)
  }

  /** Sorts s; equal elements keep their relative order. */
  function Sort<T>(s: seq<T>, cmp: (T, T) -> int): (r: seq<T>)
    ensures multiset(r) == multiset(s)
  {
    if s == [] then []
    else
      assert s == [s[0]] + s[1..];
      Insert(s[0], Sort(s[1..], cmp), cmp)
  }

  /** y may go before every element of r. */
  predicate Precedes<T>(y: T, r: seq<T>, cmp: (T, T) -> int)
  {
    forall k :: 0 <= k < |r| ==> cmp(y, r[k]) <= 0
  }

  lemma ConsSorted<T>(y: T, r: seq<T>, cmp: (T, T) -> int)
    requires Precedes(y, r, cmp) && SortedBy(r, cmp)
    ensures SortedBy([y] + r, cmp)
  {
    var s := [y] + r;
    forall i, j | 0 <= i < j < |s|
      ensures cmp(s[i], s[j]) <= 0
    {
      assert s[j] == r[j - 1];
      if i > 0 {
        assert s[i] == r[i - 1];
      }
    }
  }

  lemma {:induction false} InsertPrecedes<T>(y: T, x: T, t: seq<T>, cmp: (T, T) -> int)
    requires Precedes(y, t, cmp) && cmp(y, x) <= 0
    ensures Precedes(y, Insert(x, t, cmp), cmp)
  {
    if t != [] && cmp(x, t[0]) > 0 {
      InsertPrecedes(y, x, t[1..], cmp);
      var r := Insert(x, t, cmp);
      forall k | 0 <= k < |r|
        ensures cmp(y, r[k]) <= 0
      {
        if k > 0 {
          assert r[k] == Insert(x, t[1..], cmp)[k - 1];
        }
      }
    }
  }

  lemma {:induction false} InsertSorted<T(!new)>(x: T, t: seq<T>, cmp: (T, T) -> int)
    requires IsComparator(cmp)
    requires SortedBy(t, cmp)
    ensures SortedBy(Insert(x, t, cmp), cmp)
  {
    if t == [] {
    } else if cmp(x, t[0]) <= 0 {
      forall k | 0 <= k < |t|
        ensures cmp(x, t[k]) <= 0
      {
        assert cmp(t[0], t[k]) <= 0 || k == 0;
      }
      ConsSorted(x, t, cmp);
    } else {
      var rest := t[1..];
      assert SortedBy(rest, cmp) by {
        forall i, j | 0 <= i < j < |rest|
          ensures cmp(rest[i], rest[j]) <= 0
        {
          assert rest[i] == t[i + 1] && rest[j] == t[j + 1];
        }
      }
      assert Precedes(t[0], rest, cmp) by {
        forall k | 0 <= k < |rest|
          ensures cmp(t[0], rest[k]) <= 0
        {
          assert rest[k] == t[k + 1];
        }
      }
      InsertSorted(x, rest, cmp);
      InsertPrecedes(t[0], x, rest, cmp);
      ConsSorted(t[0], Insert(x, rest, cmp), cmp);
    }
  }

  /** The sort's output is sorted. */
  lemma {:induction false} SortSorted<T(!new)>(s: seq<T>, cmp: (T, T) -> int)
    requires IsComparator(cmp)
    ensures SortedBy(Sort(s, cmp), cmp)
  {
    if s != [] {
      SortSorted(s[1..], cmp);
      InsertSorted(s[0], Sort(s[1..], cmp), cmp);
    }
  }

  /** A sequence that is already sorted comes back unchanged. */
  lemma {:induction false} SortKeepsSorted<T>(s: seq<T>, cmp: (T, T) -> int)
    requires SortedBy(s, cmp)
    ensures Sort(s, cmp) == s
  {
    if s != [] {
      assert SortedBy(s[1..], cmp) by {
        forall i, j | 0 <= i < j < |s[1..]|
          ensures cmp(s[1..][i], s[1..][j]) <= 0
        {
          assert s[1..][i] == s[i + 1] && s[1..][j] == s[j + 1];
        }
      }
      SortKeepsSorted(s[1..], cmp);
      assert s == [s[0]] + s[1..];
      if |s| > 1 {
        assert cmp(s[0], s[1]) <= 0;
      }
    }
  }

  /** Sorting twice gives what sorting once gives. */
  lemma SortIdempotent<T(!new)>(s: seq<T>, cmp: (T, T) -> int)
    requires IsComparator(cmp)
    ensures Sort(Sort(s, cmp), cmp) == Sort(s, cmp)
  {
    SortSorted(s, cmp);
    SortKeepsSorted(Sort(s, cmp), cmp);
  }
}
