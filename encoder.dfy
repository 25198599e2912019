/**
 * buildFromSet (app.js:49-83): resolves the range, records the values outside it, builds the
 * BigInt mask with one bit per in-range value, and hands the result to the formatter.
 */
module Encoder {
  import opened Wrappers
  import opened Numerals
  import opened Bits
  import opened Sequences
  import opened Formatter

  /** The optional bounds; a bound is present only when it is a finite number (app.js:58-59). */
  datatype RangeOptions = RangeOptions(minX: Option<int>, maxX: Option<int>)

  /** The two errors buildFromSet throws (app.js:51, app.js:60). */
  datatype BuildError = EmptySet | MinAboveMax

  /** An explicit bound wins over the one inferred from the set. */
  function ResolveBound(explicit: Option<int>, inferred: int): int
  {
    if explicit.Some? then explicit.value else inferred
  }

  /** sorted.filter(v => v < min || v > max) (app.js:63) */
  function OutOfRange(sorted: seq<int>, lo: int, hi: int): (r: seq<int>)
    ensures |r| <= |sorted|
    ensures forall v :: v in r <==> v in sorted && (v < lo || v > hi)
  {
    if sorted == [] then []
    else
      var rest := OutOfRange(sorted[1..], lo, hi);
      assert sorted == [sorted[0]] + sorted[1..];
      if sorted[0] < lo || sorted[0] > hi then [sorted[0]] + rest else rest
  }

  /** The filter keeps every copy of an out-of-range value and drops every in-range one. */
  lemma {:induction false} OutOfRangeCounts(sorted: seq<int>, lo: int, hi: int)
    ensures forall v :: multiset(OutOfRange(sorted, lo, hi))[v] == if v < lo || v > hi then multiset(sorted)[v] else 0
  {
    if sorted != [] {
      OutOfRangeCounts(sorted[1..], lo, hi);
      assert sorted == [sorted[0]] + sorted[1..];
    }
  }

  /** Every element of rest that comes from the tail lies above the head of an ascending sequence. */
  lemma HeadBelowTail(s: seq<int>, rest: seq<int>)
    requires s != [] && Sorted(s)
    requires forall v :: v in rest ==> v in s[1..]
    ensures forall v :: v in rest ==> s[0] <= v
    ensures StrictlyAscending(s) ==> forall v :: v in rest ==> s[0] < v
  {
    forall v | v in rest ensures s[0] <= v && (StrictlyAscending(s) ==> s[0] < v) {
      var k :| 0 <= k < |s[1..]| && s[1..][k] == v;
      assert s[k + 1] == v;
    }
  }

  /** Filtering keeps the order of the sorted copy, strict order included. */
  lemma {:induction false} OutOfRangeKeepsOrder(sorted: seq<int>, lo: int, hi: int)
    requires Sorted(sorted)
    ensures Sorted(OutOfRange(sorted, lo, hi))
    ensures StrictlyAscending(sorted) ==> StrictlyAscending(OutOfRange(sorted, lo, hi))
  {
    if sorted != [] {
      var tail := sorted[1..];
      assert Sorted(tail) by {
        forall i, j | 0 <= i < j < |tail| ensures tail[i] <= tail[j] {
          assert tail[i] == sorted[i + 1] && tail[j] == sorted[j + 1];
        }
      }
      assert StrictlyAscending(sorted) ==> StrictlyAscending(tail) by {
        if StrictlyAscending(sorted) {
          forall i, j | 0 <= i < j < |tail| ensures tail[i] < tail[j] {
            assert tail[i] == sorted[i + 1] && tail[j] == sorted[j + 1];
          }
        }
      }
      OutOfRangeKeepsOrder(tail, lo, hi);
      var rest := OutOfRange(tail, lo, hi);
      HeadBelowTail(sorted, rest);
      if sorted[0] < lo || sorted[0] > hi {
        PrependSmallest(sorted[0], rest);
      }
    }
  }

  /**
   * The mask after the loop of app.js:66-70 has visited xs: bit v - lo is set for each visited
   * v in [lo, hi]; the other values are skipped.
   */
  function MaskOf(xs: seq<int>, lo: int, hi: int): nat
  {
    if xs == [] then 0
    else
      var m := MaskOf(xs[..|xs| - 1], lo, hi);
      var v := xs[|xs| - 1];
      if v < lo || v > hi then m else Or(m, Pow(2, v - lo))
  }

  /** Bit i of the mask is set exactly when lo + i is an element of xs no greater than hi. */
  lemma {:induction false} MaskBits(xs: seq<int>, lo: int, hi: int, i: nat)
    ensures Bit(MaskOf(xs, lo, hi), i) <==> lo + i in xs && lo + i <= hi
  {
    if xs == [] {
      ZeroHasNoBits(i);
    } else {
      var init, v := xs[..|xs| - 1], xs[|xs| - 1];
      assert xs == init + [v];
      MaskBits(init, lo, hi, i);
      if lo <= v <= hi {
        OrBit(MaskOf(init, lo, hi), Pow(2, v - lo), i);
        PowerBit(v - lo, i);
      }
    }
  }

  /** The mask fits in width = hi - lo + 1 bits. */
  lemma {:induction false} MaskFitsWidth(xs: seq<int>, lo: int, hi: int)
    requires lo <= hi
    ensures MaskOf(xs, lo, hi) < Pow(2, hi - lo + 1)
  {
    if xs != [] {
      var init, v := xs[..|xs| - 1], xs[|xs| - 1];
      MaskFitsWidth(init, lo, hi);
      if lo <= v <= hi {
        PowerMonotone(v - lo, hi - lo + 1);
        OrBelowPower(MaskOf(init, lo, hi), Pow(2, v - lo), hi - lo + 1);
      }
    }
  }

  /** The resolved bounds of a non-empty sorted copy: the explicit ones, else its ends (app.js:58-59). */
  function Lower(sorted: seq<int>, opts: RangeOptions): int
    requires sorted != []
  {
    ResolveBound(opts.minX, sorted[0])
  }

  function Upper(sorted: seq<int>, opts: RangeOptions): int
    requires sorted != []
  {
    ResolveBound(opts.maxX, sorted[|sorted| - 1])
  }

  /** buildFromSet from the sorted copy on (app.js:58-82). */
  function Encode(sorted: seq<int>, opts: RangeOptions): Result<Encoding, BuildError>
    requires sorted != []
  {
    var lo, hi := Lower(sorted, opts), Upper(sorted, opts);
    if lo > hi then Err(MinAboveMax)
    else
      MaskFitsWidth(sorted, lo, hi);
      Ok(Format(MaskOf(sorted, lo, hi), lo, hi, OutOfRange(sorted, lo, hi)))
  }

  /** What buildFromSet computes, as a function of its arguments. */
  function Build(xSet: seq<int>, opts: RangeOptions): Result<Encoding, BuildError>
  {
    if |xSet| == 0 then Err(EmptySet)
    else Encode(Sort(xSet), opts)
  }

  /** buildFromSet: the mask is accumulated by a loop over the sorted copy (app.js:66-70). */
  method BuildFromSet(xSet: seq<int>, opts: RangeOptions) returns (r: Result<Encoding, BuildError>)
    ensures r == Build(xSet, opts)
  {
    if |xSet| == 0 {
      return Err(EmptySet);
    }
    var sorted := Sort(xSet);
    var lo := ResolveBound(opts.minX, sorted[0]);
    var hi := ResolveBound(opts.maxX, sorted[|sorted| - 1]);
    if lo > hi {
      return Err(MinAboveMax);
    }
    var outOfRange := OutOfRange(sorted, lo, hi);
    var mask: nat := 0;
    for k := 0 to |sorted|
      invariant mask == MaskOf(sorted[..k], lo, hi)
    {
      var v := sorted[k];
      assert sorted[..k + 1][..k] == sorted[..k];
      if v < lo || v > hi {
        continue;
      }
      mask := Or(mask, Pow(2, v - lo));
    }
    assert sorted[..|sorted|] == sorted;
    MaskFitsWidth(sorted, lo, hi);
    r := Ok(Format(mask, lo, hi, outOfRange));
  }

  /** The resolved bounds stated on the set itself: the explicit one, else its least (greatest) element. */
  function ResolvedMin(xSet: seq<int>, opts: RangeOptions): int
    requires xSet != []
  {
    ResolveBound(opts.minX, Min(xSet))
  }

  function ResolvedMax(xSet: seq<int>, opts: RangeOptions): int
    requires xSet != []
  {
    ResolveBound(opts.maxX, Max(xSet))
  }

  /** The mask the loop of app.js:65-70 builds over the sorted copy of a non-empty set. */
  function SetMask(xSet: seq<int>, opts: RangeOptions): nat
    requires xSet != []
  {
    var sorted := Sort(xSet);
    MaskOf(sorted, Lower(sorted, opts), Upper(sorted, opts))
  }

  /** buildFromSet throws on an empty set, and otherwise exactly when the resolved min exceeds the resolved max. */
  lemma BuildErrors(xSet: seq<int>, opts: RangeOptions)
    ensures Build(xSet, opts) == Err(EmptySet) <==> xSet == []
    ensures xSet != [] ==>
      (Build(xSet, opts) == Err(MinAboveMax) <==>
        ResolvedMin(xSet, opts) > ResolvedMax(xSet, opts))
  {
    if xSet != [] {
      SortEnds(xSet);
    }
  }

  /** Each bound is the explicit one if given, else the least (greatest) element; offset = -min. */
  lemma BuildBounds(xSet: seq<int>, opts: RangeOptions)
    requires Build(xSet, opts).Ok?
    ensures var e := Build(xSet, opts).value;
      && xSet != []
      && e.min == ResolvedMin(xSet, opts)
      && e.max == ResolvedMax(xSet, opts)
      && e.min <= e.max
      && e.offset == -e.min
  {
    SortEnds(xSet);
  }

  /** Every x in [min, max] maps to a bit index x + offset in [0, width). */
  lemma BuildIndexRange(xSet: seq<int>, opts: RangeOptions, x: int)
    requires Build(xSet, opts).Ok?
    requires Build(xSet, opts).value.min <= x <= Build(xSet, opts).value.max
    ensures var e := Build(xSet, opts).value;
      0 <= x + e.offset < e.max - e.min + 1
  {
  }

  /** outOfRange lists, in ascending order, exactly the elements outside [min, max], each as often as in the set. */
  lemma BuildOutOfRange(xSet: seq<int>, opts: RangeOptions)
    requires Build(xSet, opts).Ok?
    ensures var e := Build(xSet, opts).value;
      && (forall v :: v in e.outOfRange <==> v in xSet && (v < e.min || v > e.max))
      && (forall v :: multiset(e.outOfRange)[v] == if v < e.min || v > e.max then multiset(xSet)[v] else 0)
      && Sorted(e.outOfRange)
      && (Distinct(xSet) ==> StrictlyAscending(e.outOfRange))
  {
    var sorted := Sort(xSet);
    SortSameElements(xSet);
    var lo, hi := Lower(sorted, opts), Upper(sorted, opts);
    OutOfRangeKeepsOrder(sorted, lo, hi);
    OutOfRangeCounts(sorted, lo, hi);
    if Distinct(xSet) {
      SortDistinct(xSet);
    }
  }

  /** For x in [lo, hi], bit x - lo of the mask is set exactly when x is a visited value. */
  lemma MaskMembership(xs: seq<int>, lo: int, hi: int, x: int)
    requires lo <= x <= hi
    ensures Bit(MaskOf(xs, lo, hi), x - lo) <==> x in xs
  {
    var i: nat := x - lo;
    MaskBits(xs, lo, hi, i);
    assert lo + i == x;
  }

  /** Bit i of the set's mask is set exactly when min + i is an element no greater than max. */
  lemma SetMaskBits(xSet: seq<int>, opts: RangeOptions, i: nat)
    requires xSet != []
    ensures Bit(SetMask(xSet, opts), i) <==>
      ResolvedMin(xSet, opts) + i in xSet && ResolvedMin(xSet, opts) + i <= ResolvedMax(xSet, opts)
  {
    var sorted := Sort(xSet);
    SortEnds(xSet);
    SortSameElements(xSet);
    MaskBits(sorted, Lower(sorted, opts), Upper(sorted, opts), i);
  }

  /** For x in [min, max], bit x - min of the mask is set exactly when x is an element of the set. */
  lemma SetMaskMembership(xSet: seq<int>, opts: RangeOptions, x: int)
    requires xSet != [] && ResolvedMin(xSet, opts) <= x <= ResolvedMax(xSet, opts)
    ensures Bit(SetMask(xSet, opts), x - ResolvedMin(xSet, opts)) <==> x in xSet
  {
    var sorted := Sort(xSet);
    SortEnds(xSet);
    SortSameElements(xSet);
    MaskMembership(sorted, Lower(sorted, opts), Upper(sorted, opts), x);
  }

  /** The set's mask fits in width = max - min + 1 bits. */
  lemma SetMaskFits(xSet: seq<int>, opts: RangeOptions)
    requires xSet != [] && ResolvedMin(xSet, opts) <= ResolvedMax(xSet, opts)
    ensures SetMask(xSet, opts) < Pow(2, ResolvedMax(xSet, opts) - ResolvedMin(xSet, opts) + 1)
  {
    var sorted := Sort(xSet);
    SortEnds(xSet);
    MaskFitsWidth(sorted, Lower(sorted, opts), Upper(sorted, opts));
  }

  /** constDec is the decimal text of the set's mask: it reads back as the mask, with no leading zero. */
  lemma BuildMask(xSet: seq<int>, opts: RangeOptions)
    requires Build(xSet, opts).Ok?
    ensures var e := Build(xSet, opts).value;
      && xSet != []
      && ParseInt(e.constDec) == Some(SetMask(xSet, opts))
      && IsRadixDigits(e.constDec, 10)
      && (e.constDec[0] == '0' ==> e.constDec == "0")
  {
  }

  /** constBin is the binary text of the set's mask, zero-padded to width = max - min + 1. */
  lemma BuildBinary(xSet: seq<int>, opts: RangeOptions)
    requires Build(xSet, opts).Ok?
    ensures var e := Build(xSet, opts).value;
      && xSet != []
      && |e.constBin| == e.max - e.min + 1
      && IsRadixDigits(e.constBin, 2) && RadixValue(e.constBin, 2) == SetMask(xSet, opts)
  {
  }

  /** The two Lua expressions wrap constDec and the term around the shift and the bit test. */
  lemma BuildExpressions(xSet: seq<int>, opts: RangeOptions)
    requires Build(xSet, opts).Ok?
    ensures var e := Build(xSet, opts).value;
      && (Term(e.offset) == "x" <==> e.min == 0)
      && e.luaReadable == "(" + e.constDec + " >> (" + Term(e.offset) + ")) & 1 == 1"
      && e.luaCompact == e.constDec + " >> " + Term(e.offset) + " & 1 == 1"
  {
  }

  /** Visiting one more in-range value v above every bit of the mask adds 2^(v - lo). */
  lemma MaskOfAppend(init: seq<int>, v: int, lo: int, hi: int)
    requires lo <= v <= hi && MaskOf(init, lo, hi) < Pow(2, v - lo)
    ensures MaskOf(init + [v], lo, hi) == MaskOf(init, lo, hi) + Pow(2, v - lo)
  {
    assert (init + [v])[..|init|] == init;
    OrNewTopBit(MaskOf(init, lo, hi), v - lo);
  }
}
