/**
 * parseSet (app.js:38-46): free text to an ascending, duplicate-free list of integers.
 *
 *   String(input).split(/[^-0-9]+/g)   -> Split
 *     .filter(Boolean)                 -> NonEmpty
 *     .map(Number).filter(Number.isInteger) -> KeepIntegers
 *   Array.from(new Set(nums))          -> Dedup
 *     .sort((a, b) => a - b)           -> Sort
 */
module Parser {
  import opened Wrappers
  import opened Numerals
  import opened Sequences

  /** The characters the split pattern [^-0-9]+ does not cut on. */
  predicate IsTokenChar(c: char) { c == '-' || IsDigit(c) }

  predicate AllTokenChars(f: string)
  {
    forall k :: 0 <= k < |f| ==> IsTokenChar(f[k])
  }

  /** The first index at or after i whose character is not of the given kind (|s| if none). */
  function RunEnd(s: string, i: nat, token: bool): (e: nat)
    requires i <= |s|
    ensures i <= e <= |s|
    decreases |s| - i
  {
    if i == |s| || IsTokenChar(s[i]) != token then i else RunEnd(s, i + 1, token)
  }

  /**
   * The fields of s from index i on, as String.prototype.split on /[^-0-9]+/g produces them:
   * the text between maximal runs of separator characters, with an empty first (last) field
   * when the text starts (ends) with a separator.
   */
  function SplitFrom(s: string, i: nat): (r: seq<string>)
    requires i <= |s|
    ensures |r| >= 1
    decreases |s| - i
  {
    var t := RunEnd(s, i, true);
    if t == |s| then [s[i..]]
    else [s[i..t]] + SplitFrom(s, RunEnd(s, t, false))
  }

  /** String(input).split(/[^-0-9]+/g) */
  function Split(s: string): (r: seq<string>)
    ensures |r| >= 1
  {
    SplitFrom(s, 0)
  }

  /** .filter(Boolean) on strings: drops the empty fields. */
  function NonEmpty(fs: seq<string>): (r: seq<string>)
    ensures forall f :: f in r <==> f in fs && f != []
  {
    if fs == [] then []
    else (if fs[0] == [] then [] else [fs[0]]) + NonEmpty(fs[1..])
  }

  /** .map(Number).filter(Number.isInteger): the fields that denote integers, as integers, in order. */
  function KeepIntegers(fs: seq<string>): (r: seq<int>)
    ensures forall n :: n in r <==> exists f :: f in fs && ParseInt(f) == Some(n)
  {
    if fs == [] then []
    else
      var rest := KeepIntegers(fs[1..]);
      assert forall f :: f in fs[1..] ==> f in fs;
      assert forall f :: f in fs ==> f == fs[0] || f in fs[1..];
      match ParseInt(fs[0])
      case Some(n) => [n] + rest
      case None => rest
  }

  /** parseSet: the integers the text denotes, strictly ascending; "" gives []. */
  function ParseSet(input: string): (r: seq<int>)
    ensures input == [] ==> r == []
    ensures StrictlyAscending(r)
    ensures forall n :: n in r <==> exists f :: f in Split(input) && ParseInt(f) == Some(n)
  {
    if input == [] then
      assert Split(input) == [[]];
      []
    else
      var nums := KeepIntegers(NonEmpty(Split(input)));
      var d := Dedup(nums);
      SortDistinct(d);
      var r := Sort(d);
      assert forall n :: n in r <==> n in d by {
        forall n ensures n in r <==> n in d {
          assert n in r <==> n in multiset(r);
        }
      }
      r
  }

  /** s[i..j] is a non-empty maximal run of token characters of s. */
  predicate MaximalRun(s: string, i: int, j: int)
  {
    && 0 <= i < j <= |s|
    && (forall k :: i <= k < j ==> IsTokenChar(s[k]))
    && (i == 0 || !IsTokenChar(s[i - 1]))
    && (j == |s| || !IsTokenChar(s[j]))
  }

  /** RunEnd(s, i, token) passes only characters of the given kind and stops at one of the other kind. */
  lemma {:induction false} RunEndStops(s: string, i: nat, token: bool)
    requires i <= |s|
    ensures forall m :: i <= m < RunEnd(s, i, token) ==> IsTokenChar(s[m]) == token
    ensures RunEnd(s, i, token) < |s| ==> IsTokenChar(s[RunEnd(s, i, token)]) != token
    decreases |s| - i
  {
    if i < |s| && IsTokenChar(s[i]) == token {
      RunEndStops(s, i + 1, token);
    }
  }

  /** RunEnd(s, i, token) stops no later than the first character of the other kind. */
  lemma {:induction false} RunEndAtMost(s: string, i: nat, token: bool, m: nat)
    requires i <= m < |s| && IsTokenChar(s[m]) != token
    ensures RunEnd(s, i, token) <= m
    decreases |s| - i
  {
    if i < m && IsTokenChar(s[i]) == token {
      RunEndAtMost(s, i + 1, token, m);
    }
  }

  /** Every non-empty field of SplitFrom(s, i0) is a maximal run of token characters of s at or after i0. */
  lemma {:induction false} SplitFieldIsMaximalRun(s: string, i0: nat, k: nat) returns (i: nat, j: nat)
    requires i0 <= |s| && (i0 == 0 || !IsTokenChar(s[i0 - 1]))
    requires k < |SplitFrom(s, i0)| && SplitFrom(s, i0)[k] != []
    ensures i0 <= i && MaximalRun(s, i, j) && s[i..j] == SplitFrom(s, i0)[k]
    decreases |s| - i0
  {
    var t := RunEnd(s, i0, true);
    RunEndStops(s, i0, true);
    if k == 0 {
      i, j := i0, t;
    } else {
      var p := RunEnd(s, t, false);
      RunEndStops(s, t, false);
      assert SplitFrom(s, i0)[k] == SplitFrom(s, p)[k - 1];
      i, j := SplitFieldIsMaximalRun(s, p, k - 1);
    }
  }

  /** Every maximal run of token characters of s at or after a field start i0 is a field of SplitFrom(s, i0). */
  lemma {:induction false} MaximalRunIsSplitField(s: string, i0: nat, i: int, j: int)
    requires i0 <= i && MaximalRun(s, i, j)
    requires i0 == 0 || !IsTokenChar(s[i0 - 1])
    ensures s[i..j] in SplitFrom(s, i0)
    decreases |s| - i0
  {
    var t := RunEnd(s, i0, true);
    RunEndStops(s, i0, true);
    if i == i0 {
      assert t == j;
      assert SplitFrom(s, i0)[0] == s[i..j];
    } else {
      RunEndAtMost(s, i0, true, i - 1);
      var p := RunEnd(s, t, false);
      RunEndStops(s, t, false);
      RunEndAtMost(s, t, false, i);
      assert SplitFrom(s, i0) == [s[i0..t]] + SplitFrom(s, p);
      MaximalRunIsSplitField(s, p, i, j);
    }
  }

  /** parseSet keeps an integer exactly when some maximal run of '-' and digits denotes it. */
  lemma ParseSetKeepsMaximalRuns(s: string, n: int)
    ensures n in ParseSet(s) <==> exists i, j :: MaximalRun(s, i, j) && ParseInt(s[i..j]) == Some(n)
  {
    if n in ParseSet(s) {
      var f :| f in Split(s) && ParseInt(f) == Some(n);
      var k :| 0 <= k < |Split(s)| && Split(s)[k] == f;
      var i, j := SplitFieldIsMaximalRun(s, 0, k);
    }
    if exists i, j :: MaximalRun(s, i, j) && ParseInt(s[i..j]) == Some(n) {
      var i, j :| MaximalRun(s, i, j) && ParseInt(s[i..j]) == Some(n);
      MaximalRunIsSplitField(s, 0, i, j);
    }
  }

  /** The decimal texts of xs, one per element: String(v) for each v. */
  function Texts(xs: seq<int>): (r: seq<string>)
    ensures |r| == |xs|
  {
    if xs == [] then [] else [SignedDecimal(xs[0])] + Texts(xs[1..])
  }

  /** Array.prototype.join(', ') on texts. */
  function JoinTexts(ts: seq<string>): string
  {
    if ts == [] then ""
    else if |ts| == 1 then ts[0]
    else ts[0] + ", " + JoinTexts(ts[1..])
  }

  /** Array.prototype.join(', ') of a list of integers, as app.js:112 writes out-of-range values back as text. */
  function Join(xs: seq<int>): string
  {
    JoinTexts(Texts(xs))
  }

  /** Each text is a non-empty run of token characters. */
  predicate Fields(ts: seq<string>)
  {
    forall k :: 0 <= k < |ts| ==> ts[k] != [] && AllTokenChars(ts[k])
  }

  lemma TextsCons(xs: seq<int>)
    requires xs != []
    ensures Texts(xs) == [SignedDecimal(xs[0])] + Texts(xs[1..])
  {
  }

  /** Decimal texts are fields: non-empty, digits and a leading minus sign only. */
  lemma {:induction false} TextsAreFields(xs: seq<int>)
    ensures Fields(Texts(xs))
  {
    if xs != [] {
      TextsAreFields(xs[1..]);
      TextsCons(xs);
      var t, d := Texts(xs), SignedDecimal(xs[0]);
      forall k | 0 <= k < |t| ensures t[k] != [] && AllTokenChars(t[k]) {
        if k == 0 {
          assert t[0] == d;
          assert forall m :: 0 <= m < |d| ==> IsTokenChar(d[m]);
        } else {
          assert t[k] == Texts(xs[1..])[k - 1];
        }
      }
    }
  }

  lemma {:induction false} RunEndIs(s: string, i: nat, token: bool, e: nat)
    requires i <= e <= |s|
    requires forall m :: i <= m < e ==> IsTokenChar(s[m]) == token
    requires e < |s| ==> IsTokenChar(s[e]) != token
    ensures RunEnd(s, i, token) == e
    decreases e - i
  {
    if i < e {
      RunEndIs(s, i + 1, token, e);
    }
  }

  /** The field d sits in s from i on: all token characters. */
  lemma TextAt(s: string, i: nat, d: string)
    requires i + |d| <= |s| && s[i..i + |d|] == d && AllTokenChars(d)
    ensures forall m :: i <= m < i + |d| ==> IsTokenChar(s[m])
  {
    forall m | i <= m < i + |d| ensures IsTokenChar(s[m]) {
      assert s[m] == d[m - i];
    }
  }

  /** One field of SplitFrom: the run of token characters up to e, then the fields after the separators. */
  lemma SplitFromStep(s: string, i: nat, e: nat, next: nat)
    requires i <= e < |s| && RunEnd(s, i, true) == e && RunEnd(s, e, false) == next
    ensures SplitFrom(s, i) == [s[i..e]] + SplitFrom(s, next)
  {
  }

  /** Splitting the join of one field gives that field. */
  lemma SplitFromJoinOne(s: string, i: nat, d: string)
    requires i <= |s| && s[i..] == d && AllTokenChars(d)
    ensures SplitFrom(s, i) == [d]
  {
    assert s[i..i + |d|] == d;
    TextAt(s, i, d);
    RunEndIs(s, i, true, |s|);
  }

  /** Where d + ", " + rest sits in s from i on: d's token characters, the two separators, then rest. */
  lemma JoinLayout(s: string, i: nat, d: string, rest: string)
    requires i <= |s| && s[i..] == d + ", " + rest && AllTokenChars(d)
    requires rest != [] && IsTokenChar(rest[0])
    ensures i + |d| + 2 < |s| && s[i + |d| + 2..] == rest
    ensures forall m :: i <= m < i + |d| ==> IsTokenChar(s[m])
    ensures !IsTokenChar(s[i + |d|]) && !IsTokenChar(s[i + |d| + 1]) && IsTokenChar(s[i + |d| + 2])
    ensures s[i..i + |d|] == d
  {
    var e := i + |d|;
    var t := s[i..];
    assert s[i..e] == t[..|d|] == d;
    TextAt(s, i, d);
    assert s[e] == t[|d|] == ',';
    assert s[e + 1] == t[|d| + 1] == ' ';
    assert s[e + 2..] == t[|d| + 2..] == rest;
    assert s[e + 2] == rest[0];
  }

  /** Splitting the join of several fields: the first field, then the fields of the rest's join. */
  lemma SplitFromJoinMore(s: string, i: nat, d: string, rest: string)
    requires i <= |s| && s[i..] == d + ", " + rest && d != [] && AllTokenChars(d)
    requires rest != [] && IsTokenChar(rest[0])
    ensures i + |d| + 2 <= |s| && s[i + |d| + 2..] == rest
    ensures SplitFrom(s, i) == [d] + SplitFrom(s, i + |d| + 2)
  {
    var e := i + |d|;
    JoinLayout(s, i, d, rest);
    RunEndIs(s, i, true, e);
    RunEndIs(s, e, false, e + 2);
    SplitFromStep(s, i, e, e + 2);
  }

  /** The join of non-empty fields starts with a token character. */
  lemma JoinTextsStart(ts: seq<string>)
    requires ts != [] && Fields(ts)
    ensures JoinTexts(ts) != [] && IsTokenChar(JoinTexts(ts)[0])
  {
    assert ts[0] != [] && AllTokenChars(ts[0]);
    if |ts| > 1 {
      assert JoinTexts(ts)[0] == ts[0][0];
    }
  }

  lemma FieldsTail(ts: seq<string>)
    requires ts != [] && Fields(ts)
    ensures ts[0] != [] && AllTokenChars(ts[0]) && Fields(ts[1..])
  {
    var tail := ts[1..];
    forall k | 0 <= k < |tail| ensures tail[k] != [] && AllTokenChars(tail[k]) {
      assert tail[k] == ts[k + 1];
    }
  }

  /** The join of one field splits into that field. */
  lemma SplitFromJoinSingle(s: string, i: nat, ts: seq<string>)
    requires |ts| == 1 && Fields(ts) && i <= |s| && s[i..] == JoinTexts(ts)
    ensures SplitFrom(s, i) == ts
  {
    FieldsTail(ts);
    SplitFromJoinOne(s, i, ts[0]);
  }

  /** The join of several fields splits into the first one, then the fields of the rest's join. */
  lemma SplitFromJoinStep(s: string, i: nat, ts: seq<string>)
    requires |ts| > 1 && Fields(ts) && i <= |s| && s[i..] == JoinTexts(ts)
    ensures i + |ts[0]| + 2 <= |s| && s[i + |ts[0]| + 2..] == JoinTexts(ts[1..]) && Fields(ts[1..])
    ensures SplitFrom(s, i) == [ts[0]] + SplitFrom(s, i + |ts[0]| + 2)
  {
    FieldsTail(ts);
    JoinTextsStart(ts[1..]);
    SplitFromJoinMore(s, i, ts[0], JoinTexts(ts[1..]));
  }

  /** Splitting the join of fields gives back the fields. */
  lemma {:induction false} SplitFromJoin(s: string, i: nat, ts: seq<string>)
    requires ts != [] && Fields(ts) && i <= |s| && s[i..] == JoinTexts(ts)
    ensures SplitFrom(s, i) == ts
    decreases |ts|
  {
    if |ts| == 1 {
      SplitFromJoinSingle(s, i, ts);
    } else {
      SplitFromJoinStep(s, i, ts);
      SplitFromJoin(s, i + |ts[0]| + 2, ts[1..]);
      assert ts == [ts[0]] + ts[1..];
    }
  }

  lemma {:induction false} NonEmptyOfTexts(xs: seq<int>)
    ensures NonEmpty(Texts(xs)) == Texts(xs)
  {
    if xs != [] {
      NonEmptyOfTexts(xs[1..]);
      TextsCons(xs);
      var t := Texts(xs);
      assert t[0] != [] && t[1..] == Texts(xs[1..]);
    }
  }

  lemma {:induction false} KeepIntegersOfTexts(xs: seq<int>)
    ensures KeepIntegers(Texts(xs)) == xs
  {
    if xs != [] {
      KeepIntegersOfTexts(xs[1..]);
      SignedDecimalParses(xs[0]);
      TextsCons(xs);
      var t := Texts(xs);
      assert t[0] == SignedDecimal(xs[0]) && t[1..] == Texts(xs[1..]);
      assert xs == [xs[0]] + xs[1..];
    }
  }

  /** Writing a canonical set back as "a, b, c" and parsing it again gives the same set. */
  lemma ParseSetOfJoin(xs: seq<int>)
    requires StrictlyAscending(xs)
    ensures ParseSet(Join(xs)) == xs
  {
    if xs != [] {
      var s := Join(xs);
      assert s[0..] == s;
      TextsAreFields(xs);
      JoinTextsStart(Texts(xs));
      SplitFromJoin(s, 0, Texts(xs));
      NonEmptyOfTexts(xs);
      KeepIntegersOfTexts(xs);
      DedupKeepsDistinct(xs);
      SortKeepsSorted(xs);
    }
  }
}
