/**
  Byte-wise lexicographic order on strings, as used by Go's `sort.Strings`,
  and a sort built on it. Label names are sorted before they are written into
  a fingerprint; the lemmas here show that the sorted order is determined by
  the collection of names alone, whatever order they were enumerated in.
 */
module Lex {

  /** `a` sorts strictly before `b`. */
  predicate Less(a: string, b: string)
    decreases |a|
  {
    |b| > 0 && (|a| == 0 || a[0] < b[0] || (a[0] == b[0] && Less(a[1..], b[1..])))
  }

  lemma {:induction false} LessIrreflexive(a: string)
    ensures !Less(a, a)
    decreases |a|
  {
    if |a| > 0 {
      LessIrreflexive(a[1..]);
    }
  }

  lemma {:induction false} LessTransitive(a: string, b: string, c: string)
    requires Less(a, b) && Less(b, c)
    ensures Less(a, c)
    decreases |a|
  {
    if |a| > 0 && a[0] == b[0] && b[0] == c[0] {
      LessTransitive(a[1..], b[1..], c[1..]);
    }
  }

  /** Two different strings are always ordered one way or the other. */
  lemma {:induction false} LessTotal(a: string, b: string)
    requires a != b
    ensures Less(a, b) || Less(b, a)
    decreases |a|
  {
    if |a| > 0 && |b| > 0 && a[0] == b[0] {
      assert a == [a[0]] + a[1..] && b == [b[0]] + b[1..];
      LessTotal(a[1..], b[1..]);
    }
  }

  lemma {:induction false} LessAsymmetric(a: string, b: string)
    requires Less(a, b)
    ensures !Less(b, a)
  {
    if Less(b, a) {
      LessTransitive(a, b, a);
      LessIrreflexive(a);
    }
  }

  /** "Not after" is transitive: `a <= b <= c` gives `a <= c`. */
  lemma NotAfterTransitive(a: string, b: string, c: string)
    requires !Less(b, a) && !Less(c, b)
    ensures !Less(c, a)
  {
    if Less(c, a) {
      if a == b {
      } else {
        LessTotal(a, b);
        LessTransitive(c, a, b);
      }
    }
  }

  /** Ascending order; equal strings may sit next to each other. */
  predicate Ordered(s: seq<string>) {
    forall i, j :: 0 <= i < j < |s| ==> !Less(s[j], s[i])
  }

  predicate Distinct<T(==)>(s: seq<T>) {
    forall i, j :: 0 <= i < j < |s| ==> s[i] != s[j]
  }

  /** `names` lists every element of `keys` exactly once. */
  ghost predicate Enumerates<T(!new)>(names: seq<T>, keys: set<T>) {
    Distinct(names) && (forall x :: x in names <==> x in keys)
  }

  /** Insert `x` into an ordered sequence, before the first element not below it. */
  function InsertSorted(x: string, s: seq<string>): (r: seq<string>)
    requires Ordered(s)
    ensures Ordered(r)
    ensures multiset(r) == multiset(s) + multiset{x}
  {
    if s == [] then [x]
    else if Less(s[0], x) then
      var rest := InsertSorted(x, s[1..]);
      assert s == [s[0]] + s[1..];
      KeepHead(x, s, rest);
      [s[0]] + rest
    else
      PutFirst(x, s);
      [x] + s
  }

  /** The head of `s`, below `x`, stays in front of `x` inserted into the tail. */
  lemma KeepHead(x: string, s: seq<string>, rest: seq<string>)
    requires s != [] && Ordered(s) && Less(s[0], x)
    requires Ordered(rest) && multiset(rest) == multiset(s[1..]) + multiset{x}
    ensures Ordered([s[0]] + rest)
  {
    forall j | 0 <= j < |rest|
      ensures !Less(rest[j], s[0])
    {
      assert rest[j] in multiset(rest);
      if rest[j] == x {
        LessAsymmetric(s[0], x);
      } else {
        assert rest[j] in multiset(s[1..]);
        var k :| 0 <= k < |s[1..]| && s[1..][k] == rest[j];
        assert s[k + 1] == rest[j];
      }
    }
    var r := [s[0]] + rest;
    forall i, j | 0 <= i < j < |r|
      ensures !Less(r[j], r[i])
    {
      if i > 0 {
        assert r[i] == rest[i - 1] && r[j] == rest[j - 1];
      } else {
        assert r[j] == rest[j - 1];
      }
    }
  }

  /** `x`, not above the head of `s`, may go in front of all of `s`. */
  lemma PutFirst(x: string, s: seq<string>)
    requires s != [] && Ordered(s) && !Less(s[0], x)
    ensures Ordered([x] + s)
  {
    forall j | 0 <= j < |s|
      ensures !Less(s[j], x)
    {
      if j > 0 {
        NotAfterTransitive(x, s[0], s[j]);
      }
    }
    var r := [x] + s;
    forall i, j | 0 <= i < j < |r|
      ensures !Less(r[j], r[i])
    {
      assert r[j] == s[j - 1];
      if i > 0 {
        assert r[i] == s[i - 1];
      }
    }
  }

  /** Sort ascending (insertion sort; any correct sort yields the same sequence, see `OrderedUnique`). */
  function Sort(xs: seq<string>): (r: seq<string>)
    ensures Ordered(r)
    ensures multiset(r) == multiset(xs)
  {
    if xs == [] then []
    else
      assert xs == [xs[0]] + xs[1..];
      InsertSorted(xs[0], Sort(xs[1..]))
  }

  /** The head of an ordered sequence is not after any of its elements. */
  lemma HeadIsLeast(a: seq<string>, x: string)
    requires Ordered(a) && x in a
    ensures !Less(x, a[0])
  {
    var i :| 0 <= i < |a| && a[i] == x;
    if i == 0 {
      LessIrreflexive(x);
    }
  }

  lemma TailMultiset(a: seq<string>)
    requires |a| > 0
    ensures multiset(a[1..]) == multiset(a) - multiset{a[0]}
  {
    assert a == [a[0]] + a[1..];
  }

  /** Two ordered sequences holding the same strings are the same sequence. */
  lemma {:induction false} OrderedUnique(a: seq<string>, b: seq<string>)
    requires Ordered(a) && Ordered(b)
    requires multiset(a) == multiset(b)
    ensures a == b
    decreases |a|
  {
    assert |a| == |multiset(a)| == |multiset(b)| == |b|;
    if |a| > 0 {
      assert a[0] in multiset(b) && b[0] in multiset(a);
      HeadIsLeast(b, a[0]);
      HeadIsLeast(a, b[0]);
      if a[0] != b[0] {
        LessTotal(a[0], b[0]);
      }
      TailMultiset(a);
      TailMultiset(b);
      OrderedUnique(a[1..], b[1..]);
      assert a == [a[0]] + a[1..] && b == [b[0]] + b[1..];
    }
  }

  /** Sorting forgets the order the strings were listed in. */
  lemma {:induction false} SortIgnoresOrder(a: seq<string>, b: seq<string>)
    requires multiset(a) == multiset(b)
    ensures Sort(a) == Sort(b)
  {
    OrderedUnique(Sort(a), Sort(b));
  }

  /** Sorting keeps exactly the elements it was given. */
  lemma SortKeepsElements(xs: seq<string>)
    ensures forall x :: x in Sort(xs) <==> x in xs
  {
    forall x
      ensures x in Sort(xs) <==> x in xs
    {
      assert x in Sort(xs) <==> x in multiset(Sort(xs));
      assert x in xs <==> x in multiset(xs);
    }
  }

  /** Without duplicates, sorting produces a strictly ascending enumeration of the same strings. */
  lemma SortDistinct(xs: seq<string>)
    requires Distinct(xs)
    ensures Distinct(Sort(xs))
    ensures forall i, j :: 0 <= i < j < |Sort(xs)| ==> Less(Sort(xs)[i], Sort(xs)[j])
  {
    var r := Sort(xs);
    forall i, j | 0 <= i < j < |r|
      ensures r[i] != r[j]
    {
      if r[i] == r[j] {
        TwoOccurrences(r, i, j);
        DistinctCount(xs, r[i]);
      }
    }
    forall i, j | 0 <= i < j < |r|
      ensures Less(r[i], r[j])
    {
      assert r[i] != r[j];
      LessTotal(r[i], r[j]);
    }
  }

  /** Rearranging a sequence without duplicates leaves it without duplicates. */
  lemma PermutationDistinct<T>(a: seq<T>, b: seq<T>)
    requires Distinct(a) && multiset(a) == multiset(b)
    ensures Distinct(b)
  {
    forall i, j | 0 <= i < j < |b|
      ensures b[i] != b[j]
    {
      if b[i] == b[j] {
        TwoOccurrences(b, i, j);
        DistinctCount(a, b[i]);
      }
    }
  }

  /** An element found at two positions occurs at least twice. */
  lemma TwoOccurrences<T>(r: seq<T>, i: int, j: int)
    requires 0 <= i < j < |r| && r[i] == r[j]
    ensures multiset(r)[r[i]] >= 2
  {
    assert r == r[..j] + r[j..];
    assert multiset(r) == multiset(r[..j]) + multiset(r[j..]);
    assert r[..j][i] == r[i];
    assert r[j..][0] == r[j];
  }

  /** In a sequence without duplicates every element occurs once. */
  lemma {:induction false} DistinctCount<T>(xs: seq<T>, x: T)
    requires Distinct(xs)
    ensures multiset(xs)[x] <= 1
  {
    if xs != [] {
      assert xs == [xs[0]] + xs[1..];
      DistinctCount(xs[1..], x);
      if x == xs[0] {
        assert x !in xs[1..];
      }
    }
  }

  /** A duplicate-free sequence is as long as the set of its elements is large. */
  lemma {:induction false} DistinctCardinality<T(!new)>(xs: seq<T>, keys: set<T>)
    requires Enumerates(xs, keys)
    ensures |xs| == |keys|
  {
    if xs != [] {
      var rest := xs[1..];
      assert forall x :: x in rest <==> x in keys - {xs[0]};
      DistinctCardinality(rest, keys - {xs[0]});
    }
  }

  /** Drop repeated strings, keeping the last occurrence of each. */
  function Dedup<T(==,!new)>(xs: seq<T>): (r: seq<T>)
    ensures Distinct(r)
    ensures forall x :: x in r <==> x in xs
  {
    if xs == [] then []
    else
      var rest := Dedup(xs[1..]);
      if xs[0] in rest then rest else [xs[0]] + rest
  }
}
