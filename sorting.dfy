/** Python's `sorted(list)`, `sorted(list(set(xs)))` and list filtering, with
    the facts about them that the scanners rely on. */
module Sorting {

  predicate Ascending(s: seq<int>)
  {
    forall i, j :: 0 <= i < j < |s| ==> s[i] <= s[j]
  }

  predicate StrictlyAscending(s: seq<int>)
  {
    forall i, j :: 0 <= i < j < |s| ==> s[i] < s[j]
  }

  predicate Distinct(s: seq<int>)
  {
    forall i, j :: 0 <= i < j < |s| ==> s[i] != s[j]
  }

  /** Inserts x into an ascending sequence. */
  function Insert(x: int, s: seq<int>): (r: seq<int>)
    requires Ascending(s)
    ensures Ascending(r)
    ensures multiset(r) == multiset(s) + multiset{x}
  {
    if s == [] || x <= s[0] then
      [x] + s
    else
      var tail := Insert(x, s[1..]);
      assert s == [s[0]] + s[1..];
      HeadBelowInsert(x, s, tail);
      ConsAscending(s[0], tail);
      [s[0]] + tail
  }

  lemma HeadBelowInsert(x: int, s: seq<int>, tail: seq<int>)
    requires Ascending(s) && s != [] && s[0] < x
    requires multiset(tail) == multiset(s[1..]) + multiset{x}
    ensures forall y :: y in tail ==> s[0] <= y
  {
    forall y | y in tail
      ensures s[0] <= y
    {
      assert y in multiset(tail);
      if y != x {
        assert y in multiset(s[1..]);
        var k :| 0 <= k < |s[1..]| && s[1..][k] == y;
        assert s[k + 1] == y;
      }
    }
  }

  lemma ConsAscending(h: int, t: seq<int>)
    requires Ascending(t)
    requires forall y :: y in t ==> h <= y
    ensures Ascending([h] + t)
  {
    forall i, j | 0 <= i < j < |[h] + t|
      ensures ([h] + t)[i] <= ([h] + t)[j]
    {
      assert ([h] + t)[j] == t[j - 1];
      assert t[j - 1] in t;
    }
  }

  lemma ConsStrictlyAscending(h: int, t: seq<int>)
    requires StrictlyAscending(t)
    requires forall y :: y in t ==> h < y
    ensures StrictlyAscending([h] + t)
  {
    forall i, j | 0 <= i < j < |[h] + t|
      ensures ([h] + t)[i] < ([h] + t)[j]
    {
      assert ([h] + t)[j] == t[j - 1];
      assert t[j - 1] in t;
    }
  }

  /** `sorted(xs)`: ascending, and a permutation of the input. */
  function Sort(xs: seq<int>): (r: seq<int>)
    ensures Ascending(r)
    ensures multiset(r) == multiset(xs)
  {
    if xs == [] then []
    else
      assert xs == [xs[0]] + xs[1..];
      Insert(xs[0], Sort(xs[1..]))
  }

  /** Inserts x into a strictly ascending sequence unless it is already there. */
  function InsertNew(x: int, s: seq<int>): (r: seq<int>)
    requires StrictlyAscending(s)
    ensures StrictlyAscending(r)
    ensures forall y :: y in r <==> y in s || y == x
  {
    if s == [] || x < s[0] then
      [x] + s
    else if x == s[0] then
      s
    else
      var tail := InsertNew(x, s[1..]);
      ConsStrictlyAscending(s[0], tail);
      [s[0]] + tail
  }

  /** `sorted(list(set(xs)))`: strictly ascending, with exactly the members of xs. */
  function SortedDistinct(xs: seq<int>): (r: seq<int>)
    ensures StrictlyAscending(r)
    ensures forall y :: y in r <==> y in xs
  {
    if xs == [] then []
    else
      assert xs == [xs[0]] + xs[1..];
      InsertNew(xs[0], SortedDistinct(xs[1..]))
  }

  /** The elements of xs that keep accepts, in their original order. */
  function Filter(xs: seq<int>, keep: int -> bool): (r: seq<int>)
  {
    if xs == [] then []
    else
      var last := xs[|xs| - 1];
      Filter(xs[..|xs| - 1], keep) + (if keep(last) then [last] else [])
  }

  /** Two ascending sequences with the same elements, counted with
      multiplicity, are equal: a sorted result is determined by its multiset. */
  lemma {:induction false} AscendingUnique(a: seq<int>, b: seq<int>)
    requires Ascending(a) && Ascending(b)
    requires multiset(a) == multiset(b)
    ensures a == b
  {
    if a == [] {
      assert |b| == |multiset(b)| == 0;
    } else {
      assert |b| == |multiset(b)| == |multiset(a)| == |a|;
      assert a[0] in multiset(b);
      assert b[0] in multiset(a);
      assert a[0] == b[0];
      assert a == [a[0]] + a[1..];
      assert b == [b[0]] + b[1..];
      assert multiset(a) == multiset{a[0]} + multiset(a[1..]);
      assert multiset(b) == multiset{b[0]} + multiset(b[1..]);
      forall y
        ensures multiset(a[1..])[y] == multiset(b[1..])[y]
      {
        assert multiset(a)[y] == multiset{a[0]}[y] + multiset(a[1..])[y];
        assert multiset(b)[y] == multiset{b[0]}[y] + multiset(b[1..])[y];
      }
      assert multiset(a[1..]) == multiset(b[1..]);
      AscendingUnique(a[1..], b[1..]);
    }
  }

  /** Two strictly ascending sequences with the same members are equal. */
  lemma {:induction false} StrictlyAscendingUnique(a: seq<int>, b: seq<int>)
    requires StrictlyAscending(a) && StrictlyAscending(b)
    requires forall y :: y in a <==> y in b
    ensures a == b
  {
    if a == [] {
      assert forall k :: 0 <= k < |b| ==> b[k] in b;
    } else {
      assert a[0] in a;
      if b == [] {
        assert false;
      }
      assert b[0] in b;
      assert a[0] in b;
      assert b[0] in a;
      assert a[0] == b[0];
      forall y
        ensures y in a[1..] <==> y in b[1..]
      {
        if y in a[1..] {
          assert y in a && y != a[0];
        }
        if y in b[1..] {
          assert y in b && y != b[0];
        }
      }
      StrictlyAscendingUnique(a[1..], b[1..]);
    }
  }

  /** The filter keeps every accepted element as often as it occurs, and
      nothing else. */
  lemma {:induction false} FilterCount(xs: seq<int>, keep: int -> bool, x: int)
    ensures multiset(Filter(xs, keep))[x] == if keep(x) then multiset(xs)[x] else 0
  {
    if xs != [] {
      var init, last := xs[..|xs| - 1], xs[|xs| - 1];
      assert xs == init + [last];
      FilterCount(init, keep, x);
    }
  }

  lemma FilterLength(xs: seq<int>, keep: int -> bool)
    ensures |Filter(xs, keep)| <= |xs|
  {
  }

  /** Filtering two permutations of one list gives permutations of one list. */
  lemma FilterPermutation(xs: seq<int>, ys: seq<int>, keep: int -> bool)
    requires multiset(xs) == multiset(ys)
    ensures multiset(Filter(xs, keep)) == multiset(Filter(ys, keep))
  {
    forall x
      ensures multiset(Filter(xs, keep))[x] == multiset(Filter(ys, keep))[x]
    {
      FilterCount(xs, keep, x);
      FilterCount(ys, keep, x);
    }
  }

  /** The order in which results arrive does not matter once they are sorted:
      sorting the filter of any permutation of the submissions gives the
      sorted filter of the submissions. */
  lemma CompletionOrderIrrelevant(completion: seq<int>, submitted: seq<int>, keep: int -> bool)
    requires multiset(completion) == multiset(submitted)
    ensures Sort(Filter(completion, keep)) == Sort(Filter(submitted, keep))
  {
    FilterPermutation(completion, submitted, keep);
    AscendingUnique(Sort(Filter(completion, keep)), Sort(Filter(submitted, keep)));
  }

  /** Everything a caller needs to know about `sorted(filter(keep, xs))`. */
  lemma SortedFilter(xs: seq<int>, keep: int -> bool)
    ensures Ascending(Sort(Filter(xs, keep)))
    ensures |Sort(Filter(xs, keep))| <= |xs|
    ensures forall x :: multiset(Sort(Filter(xs, keep)))[x] == if keep(x) then multiset(xs)[x] else 0
    ensures forall x :: x in Sort(Filter(xs, keep)) <==> x in xs && keep(x)
  {
    var r := Sort(Filter(xs, keep));
    FilterLength(xs, keep);
    assert |r| == |multiset(r)| == |multiset(Filter(xs, keep))| == |Filter(xs, keep)|;
    forall x
      ensures multiset(r)[x] == if keep(x) then multiset(xs)[x] else 0
      ensures x in r <==> x in xs && keep(x)
    {
      FilterCount(xs, keep, x);
    }
  }

  /** Every element of the sorted filter is one of the inputs. */
  lemma SortedFilterWithin(xs: seq<int>, keep: int -> bool)
    ensures forall k :: 0 <= k < |Sort(Filter(xs, keep))| ==> Sort(Filter(xs, keep))[k] in xs
  {
    SortedFilter(xs, keep);
    var r := Sort(Filter(xs, keep));
    assert forall k :: 0 <= k < |r| ==> r[k] in r;
  }

  /** Two positions holding one value make it occur at least twice. */
  lemma TwoOccurrences(s: seq<int>, i: int, j: int)
    requires 0 <= i < j < |s| && s[i] == s[j]
    ensures multiset(s)[s[i]] >= 2
  {
    assert s == s[..j] + s[j..];
    assert s[i] in s[..j];
    assert s[j] in s[j..];
  }

  lemma {:induction false} DistinctOccursOnce(s: seq<int>)
    requires Distinct(s)
    ensures forall x :: multiset(s)[x] <= 1
  {
    if s != [] {
      assert s == [s[0]] + s[1..];
      DistinctOccursOnce(s[1..]);
      assert s[0] !in s[1..];
    }
  }

  /** An ascending sequence with no repeated element is strictly ascending. */
  lemma AscendingOnceIsStrict(s: seq<int>)
    requires Ascending(s)
    requires forall x :: multiset(s)[x] <= 1
    ensures StrictlyAscending(s)
  {
    forall i, j | 0 <= i < j < |s|
      ensures s[i] < s[j]
    {
      if s[i] == s[j] {
        TwoOccurrences(s, i, j);
      }
    }
  }
}
