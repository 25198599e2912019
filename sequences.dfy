/**
 * The two array operations parseSet and buildFromSet rely on: Array.prototype.sort with the
 * numeric comparator (a, b) => a - b (app.js:45, app.js:54), and Array.from(new Set(xs)),
 * which keeps the first occurrence of every value in input order (app.js:45).
 */
module Sequences {

  /** Ascending, duplicates allowed. */
  predicate Sorted(s: seq<int>)
  {
    forall i, j :: 0 <= i < j < |s| ==> s[i] <= s[j]
  }

  predicate StrictlyAscending(s: seq<int>)
  {
    forall i, j :: 0 <= i < j < |s| ==> s[i] < s[j]
  }

  predicate Distinct(s: seq<int>)
  {
    forall i, j :: 0 <= i < j < |s| ==> s[i] != s[j]
  }

  /** Places x into a sorted sequence. */
  function Insert(x: int, s: seq<int>): (r: seq<int>)
    requires Sorted(s)
    ensures Sorted(r)
    ensures multiset(r) == multiset(s) + multiset{x}
    ensures |r| == |s| + 1
    decreases |s|
  {
    if s == [] || s[|s| - 1] <= x then s + [x]
    else
      var init, last := s[..|s| - 1], s[|s| - 1];
      assert s == init + [last];
      var r' := Insert(x, init);
      BoundedByLast(x, init, last, r');
      AppendLargest(r', last);
      assert multiset(r' + [last]) == multiset(r') + multiset{last};
      r' + [last]
  }

  lemma BoundedByLast(x: int, init: seq<int>, last: int, r': seq<int>)
    requires Sorted(init + [last]) && x < last
    requires multiset(r') == multiset(init) + multiset{x}
    ensures forall y :: y in r' ==> y <= last
  {
    var s := init + [last];
    forall y | y in r' ensures y <= last {
      assert y in multiset(r');
      if y != x {
        assert y in multiset(init);
        var k :| 0 <= k < |init| && init[k] == y;
        assert s[k] == y && s[|init|] == last;
      }
    }
  }

  lemma AppendLargest(s: seq<int>, last: int)
    requires Sorted(s)
    requires forall y :: y in s ==> y <= last
    ensures Sorted(s + [last])
  {
    var t := s + [last];
    forall i, j | 0 <= i < j < |t| ensures t[i] <= t[j] {
      if j == |s| {
        assert t[i] == s[i] && s[i] in s;
      }
    }
  }

  /** A value no greater than every element may go in front of an ascending sequence. */
  lemma PrependSmallest(x: int, s: seq<int>)
    requires Sorted(s) && forall y :: y in s ==> x <= y
    ensures Sorted([x] + s)
    ensures StrictlyAscending(s) && (forall y :: y in s ==> x < y) ==> StrictlyAscending([x] + s)
  {
    var t := [x] + s;
    forall i, j | 0 <= i < j < |t| ensures t[i] <= t[j] {
      assert t[j] == s[j - 1] && s[j - 1] in s;
      if i > 0 {
        assert t[i] == s[i - 1];
      }
    }
    if StrictlyAscending(s) && (forall y :: y in s ==> x < y) {
      forall i, j | 0 <= i < j < |t| ensures t[i] < t[j] {
        assert t[j] == s[j - 1] && s[j - 1] in s;
        if i > 0 {
          assert t[i] == s[i - 1];
        }
      }
    }
  }

  /** The result of xs.sort((a, b) => a - b): an ascending permutation of xs. */
  function Sort(xs: seq<int>): (r: seq<int>)
    ensures Sorted(r)
    ensures multiset(r) == multiset(xs)
    ensures |r| == |xs|
  {
    if xs == [] then []
    else
      var init := xs[..|xs| - 1];
      assert xs == init + [xs[|xs| - 1]];
      Insert(xs[|xs| - 1], Sort(init))
  }

  /** Sorting neither adds nor drops a value. */
  lemma SortSameElements(xs: seq<int>)
    ensures forall v :: v in Sort(xs) <==> v in xs
  {
    forall v ensures v in Sort(xs) <==> v in xs {
      assert v in Sort(xs) <==> v in multiset(Sort(xs));
    }
  }

  /** Array.from(new Set(xs)): the values of xs without repetition, in first-occurrence order. */
  function Dedup(xs: seq<int>): (r: seq<int>)
    ensures Distinct(r)
    ensures forall v :: v in r <==> v in xs
  {
    if xs == [] then []
    else
      var init, last := xs[..|xs| - 1], xs[|xs| - 1];
      assert xs == init + [last];
      var d := Dedup(init);
      if last in d then d else d + [last]
  }

  /** Dropping the last element keeps a sequence ascending. */
  lemma SortedPrefix(xs: seq<int>)
    requires xs != [] && Sorted(xs)
    ensures Sorted(xs[..|xs| - 1])
  {
    var init := xs[..|xs| - 1];
    forall i, j | 0 <= i < j < |init| ensures init[i] <= init[j] {
      assert init[i] == xs[i] && init[j] == xs[j];
    }
  }

  /** Inserting a value no smaller than the last element appends it. */
  lemma InsertLargest(x: int, s: seq<int>)
    requires Sorted(s) && (s == [] || s[|s| - 1] <= x)
    ensures Insert(x, s) == s + [x]
  {
  }

  /** Sorting keeps an already ascending sequence as it is. */
  lemma {:induction false} SortKeepsSorted(xs: seq<int>)
    requires Sorted(xs)
    ensures Sort(xs) == xs
  {
    if xs != [] {
      var init, last := xs[..|xs| - 1], xs[|xs| - 1];
      assert xs == init + [last];
      SortedPrefix(xs);
      SortKeepsSorted(init);
      assert Sort(xs) == Insert(last, Sort(init));
      InsertLargest(last, init);
    }
  }

  /** Deduplication keeps a sequence without repetition as it is. */
  lemma {:induction false} DedupKeepsDistinct(xs: seq<int>)
    requires Distinct(xs)
    ensures Dedup(xs) == xs
  {
    if xs != [] {
      var init := xs[..|xs| - 1];
      DedupKeepsDistinct(init);
      assert xs[|xs| - 1] !in init;
    }
  }

  /** The least element. */
  function Min(xs: seq<int>): (m: int)
    requires xs != []
    ensures m in xs && forall v :: v in xs ==> m <= v
  {
    if |xs| == 1 then xs[0]
    else
      var m := Min(xs[1..]);
      assert forall v :: v in xs ==> v == xs[0] || v in xs[1..];
      if xs[0] <= m then xs[0] else m
  }

  /** The greatest element. */
  function Max(xs: seq<int>): (m: int)
    requires xs != []
    ensures m in xs && forall v :: v in xs ==> v <= m
  {
    if |xs| == 1 then xs[0]
    else
      var m := Max(xs[1..]);
      assert forall v :: v in xs ==> v == xs[0] || v in xs[1..];
      if xs[0] >= m then xs[0] else m
  }

  /** The first element of the sorted copy is the least element and the last one the greatest. */
  lemma SortEnds(xs: seq<int>)
    requires xs != []
    ensures |Sort(xs)| == |xs|
    ensures Sort(xs)[0] == Min(xs) && Sort(xs)[|xs| - 1] == Max(xs)
  {
    var r := Sort(xs);
    assert |r| == |multiset(r)| == |multiset(xs)| == |xs|;
    assert r[0] in multiset(xs) && r[|r| - 1] in multiset(xs);
    assert r[0] in xs && r[|r| - 1] in xs;
    var lo, hi := Min(xs), Max(xs);
    assert lo in multiset(r) && hi in multiset(r);
    var a :| 0 <= a < |r| && r[a] == lo;
    var b :| 0 <= b < |r| && r[b] == hi;
    assert r[0] <= r[a] && r[b] <= r[|r| - 1];
  }

  lemma {:induction false} DistinctCountsOnce(xs: seq<int>, x: int)
    requires Distinct(xs)
    ensures multiset(xs)[x] <= 1
  {
    if xs != [] {
      var init, last := xs[..|xs| - 1], xs[|xs| - 1];
      assert xs == init + [last];
      DistinctCountsOnce(init, x);
      if x == last {
        assert x !in init;
      }
    }
  }

  lemma RepeatCountsTwice(s: seq<int>, i: int, j: int)
    requires 0 <= i < j < |s| && s[i] == s[j]
    ensures multiset(s)[s[i]] >= 2
  {
    var a, b := s[..j], s[j..];
    assert s == a + b;
    assert s[i] == a[i];
    assert s[j] == b[0];
  }

  /** Sorting a sequence without repetition gives a strictly ascending one. */
  lemma SortDistinct(xs: seq<int>)
    requires Distinct(xs)
    ensures StrictlyAscending(Sort(xs))
  {
    var r := Sort(xs);
    forall i, j | 0 <= i < j < |r|
      ensures r[i] < r[j]
    {
      if r[i] == r[j] {
        RepeatCountsTwice(r, i, j);
        DistinctCountsOnce(xs, r[i]);
        assert false;
      }
    }
  }
}
