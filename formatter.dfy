/**
 * The formatting half of buildFromSet (app.js:72-82): from the mask and the resolved bounds to
 * the decimal and zero-padded binary renderings, the offset and the two Lua bit-test expressions.
 */
module Formatter {
  import opened Wrappers
  import opened Numerals

  /** The object buildFromSet returns (app.js:82). */
  datatype Encoding = Encoding(
    constDec: string,
    constBin: string,
    offset: int,
    luaReadable: string,
    luaCompact: string,
    min: int,
    max: int,
    outOfRange: seq<int>)

  /** The term x is shifted by: "x" when the offset is zero, else "x+" and the offset's signed text, without leading zeros. */
  function Term(offset: int): (r: string)
    ensures r == "x" <==> offset == 0
    ensures offset != 0 ==> |r| > 2 && r[..2] == "x+" && ParseInt(r[2..]) == Some(offset)
    ensures offset != 0 ==> r[2] != '0' && (r[2] == '-' ==> |r| > 3 && r[3] != '0')
  {
    if offset == 0 then "x"
    else
      var d := SignedDecimal(offset);
      SignedDecimalParses(offset);
      assert ("x+" + d)[2..] == d;
      "x+" + d
  }

  /** mask.toString(2).padStart(width, "0"): the binary digits of the mask, zero-padded to width. */
  function BinaryText(mask: nat, width: nat): (r: string)
    requires width >= 1 && mask < Pow(2, width)
    ensures |r| == width
    ensures IsRadixDigits(r, 2) && RadixValue(r, 2) == mask
  {
    var bin := RadixString(mask, 2);
    RadixStringLength(mask, 2, width);
    PadStartPrepends(bin, width, '0');
    ZeroPaddingKeepsValue(width - |bin|, bin, 2);
    PadStart(bin, width, '0')
  }

  /** The renderings of a mask that fits the width of the resolved range [lo, hi]. */
  function Format(mask: nat, lo: int, hi: int, outOfRange: seq<int>): (e: Encoding)
    requires lo <= hi && mask < Pow(2, hi - lo + 1)
    ensures e.min == lo && e.max == hi && e.outOfRange == outOfRange
    ensures e.offset == -lo
    ensures ParseInt(e.constDec) == Some(mask) && IsRadixDigits(e.constDec, 10)
    ensures e.constDec[0] == '0' ==> e.constDec == "0"
    ensures |e.constBin| == hi - lo + 1 && IsRadixDigits(e.constBin, 2) && RadixValue(e.constBin, 2) == mask
    ensures e.luaReadable == "(" + e.constDec + " >> (" + Term(e.offset) + ")) & 1 == 1"
    ensures e.luaCompact == e.constDec + " >> " + Term(e.offset) + " & 1 == 1"
  {
    var width := hi - lo + 1;
    var offset := -lo;
    var constDec := RadixString(mask, 10);
    var constBin := BinaryText(mask, width);
    assert ParseInt(constDec) == Some(mask) by {
      assert constDec[0] != '-';
    }
    var term := Term(offset);
    Encoding(
      constDec,
      constBin,
      offset,
      "(" + constDec + " >> (" + term + ")) & 1 == 1",
      constDec + " >> " + term + " & 1 == 1",
      lo,
      hi,
      outOfRange)
  }
}
