/**
 * The sample the page loads at start-up (app.js:184-186): the text "-4, -2, 1, 3, 5" is parsed
 * and encoded with no explicit bounds.  These lemmas follow it through parseSet and buildFromSet.
 */
module Demo {
  import opened Wrappers
  import opened Numerals
  import opened Sequences
  import opened Parser
  import opened Formatter
  import opened Encoder

  lemma SmallPowersOfTwo()
    ensures Pow(2, 0) == 1 && Pow(2, 2) == 4 && Pow(2, 5) == 32 && Pow(2, 7) == 128 && Pow(2, 9) == 512
  {
    assert Pow(2, 2) == 4;
    assert Pow(2, 5) == 8 * Pow(2, 2);
    assert Pow(2, 7) == 4 * Pow(2, 5);
    assert Pow(2, 9) == 4 * Pow(2, 7);
  }

  /** The mask of the page's start-up sample "-4, -2, 1, 3, 5" (app.js:185), one loop step at a time. */
  lemma DemoMaskSteps()
    ensures MaskOf([-4, -2, 1, 3, 5], -4, 5) == 677
  {
    SmallPowersOfTwo();
    assert MaskOf([], -4, 5) == 0;
    MaskOfAppend([], -4, -4, 5);
    assert [] + [-4] == [-4];
    MaskOfAppend([-4], -2, -4, 5);
    assert [-4] + [-2] == [-4, -2];
    MaskOfAppend([-4, -2], 1, -4, 5);
    assert [-4, -2] + [1] == [-4, -2, 1];
    MaskOfAppend([-4, -2, 1], 3, -4, 5);
    assert [-4, -2, 1] + [3] == [-4, -2, 1, 3];
    MaskOfAppend([-4, -2, 1, 3], 5, -4, 5);
    assert [-4, -2, 1, 3] + [5] == [-4, -2, 1, 3, 5];
  }

  /** The sample is already ascending, so the sorted copy is the sample itself. */
  lemma DemoSorted()
    ensures Sort([-4, -2, 1, 3, 5]) == [-4, -2, 1, 3, 5]
  {
    var xs := [-4, -2, 1, 3, 5];
    assert Sorted(xs);
    SortKeepsSorted(xs);
  }

  /** The least and greatest elements of the sample. */
  lemma DemoEnds()
    ensures Min([-4, -2, 1, 3, 5]) == -4 && Max([-4, -2, 1, 3, 5]) == 5
  {
    var xs := [-4, -2, 1, 3, 5];
    DemoSorted();
    SortEnds(xs);
  }

  /** With no explicit bounds the sample spans [-4, 5] and its mask is 677 (binary 1010100101). */
  lemma DemoMask()
    ensures ResolvedMin([-4, -2, 1, 3, 5], RangeOptions(None, None)) == -4
    ensures ResolvedMax([-4, -2, 1, 3, 5], RangeOptions(None, None)) == 5
    ensures SetMask([-4, -2, 1, 3, 5], RangeOptions(None, None)) == 677
  {
    DemoEnds();
    DemoSorted();
    DemoMaskSteps();
  }

  /** The decimal texts of the sample's elements. */
  lemma DemoTexts()
    ensures Texts([-4, -2, 1, 3, 5]) == ["-4", "-2", "1", "3", "5"]
  {
    var xs := [-4, -2, 1, 3, 5];
    assert SignedDecimal(-4) == "-4" && SignedDecimal(-2) == "-2";
    assert SignedDecimal(1) == "1" && SignedDecimal(3) == "3" && SignedDecimal(5) == "5";
    TextsCons(xs);
    TextsCons(xs[1..]);
    TextsCons(xs[2..]);
    TextsCons(xs[3..]);
    TextsCons(xs[4..]);
    assert xs[4..][1..] == [];
  }

  /** The sample set written back with ", " between the elements is the sample text. */
  lemma DemoJoin()
    ensures Join([-4, -2, 1, 3, 5]) == "-4, -2, 1, 3, 5"
  {
    DemoTexts();
  }

  lemma DemoAscending()
    ensures StrictlyAscending([-4, -2, 1, 3, 5])
  {
  }

  /** parseSet reads the sample text as the sample set. */
  lemma DemoParse()
    ensures ParseSet("-4, -2, 1, 3, 5") == [-4, -2, 1, 3, 5]
  {
    DemoJoin();
    DemoAscending();
    ParseSetOfJoin([-4, -2, 1, 3, 5]);
  }

  /** Every element of the sample lies in [-4, 5], so nothing is out of range. */
  lemma DemoOutOfRange()
    ensures OutOfRange([-4, -2, 1, 3, 5], -4, 5) == []
  {
  }

  /** 677 in decimal. */
  lemma DemoDecimal()
    ensures RadixString(677, 10) == "677"
  {
    assert DigitChar(6) == '6' && DigitChar(7) == '7';
    assert RadixString(6, 10) == "6";
    assert RadixString(67, 10) == "67";
  }

  /** 677 in binary, one digit at a time from the most significant. */
  lemma DemoBinary()
    ensures RadixString(677, 2) == "1010100101"
  {
    assert DigitChar(0) == '0' && DigitChar(1) == '1';
    assert RadixString(1, 2) == "1";
    assert RadixString(2, 2) == "10";
    assert RadixString(5, 2) == "101";
    assert RadixString(10, 2) == "1010";
    assert RadixString(21, 2) == "10101";
    assert RadixString(42, 2) == "101010";
    assert RadixString(84, 2) == "1010100";
    assert RadixString(169, 2) == "10101001";
    assert RadixString(338, 2) == "101010010";
  }

  /** The offset 4 as the shifted term. */
  lemma DemoTerm()
    ensures Term(4) == "x+4"
  {
    assert RadixString(4, 10) == "4";
  }

  /** 677 fits the sample's width of 10 bits and needs no padding. */
  lemma DemoBinaryText()
    ensures 677 < Pow(2, 10) && BinaryText(677, 10) == "1010100101"
  {
    assert Pow(2, 5) == 32;
    assert Pow(2, 10) == Pow(2, 5) * Pow(2, 5);
    DemoBinary();
  }

  /** The two expressions the page prints for the constant "677" at offset 4. */
  lemma DemoLuaTexts()
    ensures "(" + "677" + " >> (" + Term(4) + ")) & 1 == 1" == "(677 >> (x+4)) & 1 == 1"
    ensures "677" + " >> " + Term(4) + " & 1 == 1" == "677 >> x+4 & 1 == 1"
  {
    DemoTerm();
  }

  lemma DemoFormatDecimal()
    ensures 677 < Pow(2, 10) && Format(677, -4, 5, []).constDec == "677"
  {
    DemoBinaryText();
    DemoDecimal();
  }

  lemma DemoFormatBinary()
    ensures 677 < Pow(2, 10) && Format(677, -4, 5, []).constBin == "1010100101"
  {
    DemoBinaryText();
  }

  lemma DemoFormatLua()
    ensures 677 < Pow(2, 10)
    ensures Format(677, -4, 5, []).luaReadable == "(677 >> (x+4)) & 1 == 1"
    ensures Format(677, -4, 5, []).luaCompact == "677 >> x+4 & 1 == 1"
  {
    DemoBinaryText();
    DemoFormatDecimal();
    DemoTerm();
    DemoLuaTexts();
  }

  /** The renderings of mask 677 over [-4, 5]. */
  lemma DemoFormat()
    ensures 677 < Pow(2, 10)
    ensures Format(677, -4, 5, []) == Encoding(
      "677",
      "1010100101",
      4,
      "(677 >> (x+4)) & 1 == 1",
      "677 >> x+4 & 1 == 1",
      -4,
      5,
      [])
  {
    DemoFormatDecimal();
    DemoFormatBinary();
    DemoFormatLua();
  }

  /** The sample's Build is the formatting of its mask 677 over [-4, 5]. */
  lemma DemoBuildIsFormat()
    ensures 677 < Pow(2, 10)
    ensures Build([-4, -2, 1, 3, 5], RangeOptions(None, None)) == Ok(Format(677, -4, 5, []))
  {
    DemoSorted();
    DemoMaskSteps();
    DemoOutOfRange();
    DemoBinaryText();
  }

  /** The object buildFromSet returns for the sample with no explicit bounds: what the page shows at start-up. */
  lemma DemoBuild()
    ensures Build([-4, -2, 1, 3, 5], RangeOptions(None, None)) == Ok(Encoding(
      "677",
      "1010100101",
      4,
      "(677 >> (x+4)) & 1 == 1",
      "677 >> x+4 & 1 == 1",
      -4,
      5,
      []))
  {
    DemoBuildIsFormat();
    DemoFormat();
  }
}
