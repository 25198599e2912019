# Lua bitmask expression generator — Dafny model

The generator turns a set of integers into one integer constant. For every `x` in the range `[min, max]`, bit `x - min` of the constant is set exactly when `x` is in the set. It also prints Lua expressions that test membership with a shift and a mask: `(C >> (x+offset)) & 1 == 1`.

This project models the generator's two pure steps in `app.js`:

- `parseSet` (app.js:38-46) reads free text as a set of integers. It:
  - splits the text on every run of characters other than `-` and digits;
  - drops empty fields;
  - converts each field with `Number` and keeps the integers;
  - removes duplicates and sorts ascending.
- `buildFromSet` (app.js:49-83):
  - rejects an empty set;
  - resolves the range `[min, max]`, taking each bound from the options or else from the set;
  - rejects `min > max`;
  - records the values outside the range;
  - folds the values inside the range into a BigInt mask with `mask |= 1n << (v - min)`;
  - renders the mask in decimal and as zero-padded binary of width `max - min + 1`;
  - builds the offset `-min` and the two Lua expressions.

Modules:

- `Wrappers`: `Option` and `Result`.
- `Numerals`:
  - radix digit strings and their values;
  - `BigInt.prototype.toString(radix)` on non-negative values;
  - `Number(...)` on the fields the splitter can produce;
  - `padStart`.
- `Bits`: bits of natural numbers and bitwise OR. These are the BigInt operations the mask uses.
- `Sequences`: the ascending numeric sort, duplicate removal, and minimum and maximum.
- `Parser`: `parseSet`, with the maximal-run characterisation of its splitting and the round trip with the `", "`-joined rendering of a set.
- `Formatter`: the text half of `buildFromSet`.
- `Encoder`:
  - `buildFromSet` itself, as a method with the source's loop, proved equal to the functional specification `Build`;
  - the lemmas that state what the result means.
- `Demo`: the sample `"-4, -2, 1, 3, 5"` the page loads at start-up (app.js:185), followed through `parseSet` and `buildFromSet` to the object the page shows.

Failures, which the source throws as `Error`s, are the `Err` values `EmptySet` and `MinAboveMax`.

## Model

| member | source | states |
|---|---|---|
| Numerals.RadixString | app.js:74-75 | The text is made of radix digits and its value is `n`. It has no leading zero, and it is `"0"` exactly when `n` is 0. |
| Numerals.Pow | app.js:69 | `Pow(2, k)` is `1n << k`; a power of a positive base is positive. Its bit pattern is given by `Bits.PowerBit`. |
| Numerals.ParseInt | app.js:43-44 | A field converts to an integer exactly when it is an optionally signed digit string. A negative result comes from a field that starts with `-`. The value itself is given by `Numerals.ParseIntValue`. |
| Numerals.ParseIntValue | app.js:43-44 | The integer a field converts to is its decimal value, negated when the field starts with `-`: `"007"` gives 7 and `"-12"` gives -12. |
| Numerals.SignedDecimal | app.js:78 | `String(z)`: a non-empty text of digits with at most a leading `-`. No leading zero: a text starting with `0` is `"0"`, and a `-` is never followed by `0`. |
| Numerals.SignedDecimalParses | app.js:78 | The decimal rendering of any integer converts back to that integer. |
| Numerals.PadStart | app.js:75 | `padStart` yields at least `width` characters. It ends with the original text, and everything before that is the pad character. |
| Numerals.PadStartPrepends | app.js:75 | When the text is no longer than `width`, `padStart` prepends exactly `width - \|s\|` pad characters. |
| Numerals.ZeroPaddingKeepsValue | app.js:75 | Leading zeros keep a digit string's digits valid and do not change its value. |
| Numerals.RadixStringLength | app.js:75 | A number below `radix^w` has at most `w` digits. |
| Bits.Or | app.js:69 | BigInt `\|` on non-negative values. Its meaning, bit by bit, is given by `Bits.OrBit`. |
| Bits.ZeroHasNoBits | app.js:66 | The initial mask `0n` has no bit set. |
| Bits.OrBit | app.js:69 | A bit of `a \| b` is set exactly when it is set in `a` or in `b`. |
| Bits.PowerBit | app.js:69 | `1n << k` has bit `k` set and no other bit. |
| Bits.OrBelowPower | app.js:69-72 | OR of two numbers below `2^w` is below `2^w`. |
| Bits.PowerMonotone | app.js:69-72 | `2^k < 2^w` when `k < w`. |
| Bits.OrNewTopBit | app.js:69 | When `m < 2^k`, setting bit `k` adds `2^k`: `m \| (1n << k) == m + 2^k`. |
| Sequences.Insert | app.js:45 | Inserting into a sorted sequence keeps it sorted. The multiset gains exactly one `x`, and the length grows by one. |
| Sequences.Sort | app.js:45 | The numeric sort returns an ascending permutation of its input: same multiset, same length. |
| Sequences.SortSameElements | app.js:54 | The sorted copy has exactly the elements of the input. |
| Sequences.SortKeepsSorted | app.js:45 | Sorting an already ascending sequence returns it unchanged. |
| Sequences.Dedup | app.js:45 | After duplicate removal no value occurs twice, and exactly the same set of values remains. |
| Sequences.DedupKeepsDistinct | app.js:45 | Duplicate removal returns a sequence without repetitions unchanged. |
| Sequences.SortEnds | app.js:54-56 | The first element of the sorted copy is the minimum of the set and the last is the maximum. |
| Sequences.SortDistinct | app.js:45 | Sorting a duplicate-free sequence gives a strictly ascending one. |
| Parser.Split | app.js:40-41 | `split(/[^-0-9]+/g)` always yields at least one field. Which fields it yields is given by `Parser.SplitFieldIsMaximalRun` and `Parser.MaximalRunIsSplitField`. |
| Parser.NonEmpty | app.js:42 | `filter(Boolean)` keeps exactly the non-empty fields. |
| Parser.KeepIntegers | app.js:43-44 | `map(Number).filter(Number.isInteger)` keeps the value of every field that is an integer literal and nothing else. |
| Parser.ParseSet | app.js:38-46 | The result is strictly ascending. It is empty on empty input. It holds exactly the values of the integer-literal fields of the split. |
| Parser.SplitFieldIsMaximalRun | app.js:41 | Every non-empty field of the split is a maximal run of `-` and digit characters of the input. |
| Parser.MaximalRunIsSplitField | app.js:41 | Every maximal run of `-` and digit characters of the input is a field of the split. |
| Parser.ParseSetKeepsMaximalRuns | app.js:40-44 | `n` is in the parsed set exactly when some maximal run of the input is an integer literal with value `n`. |
| Parser.Join | app.js:112 | `xs.join(', ')`: `String(v)` of each element (`Parser.Texts`), separated by `", "`. What parsing it gives back is stated by `Parser.ParseSetOfJoin`. |
| Parser.TextsAreFields | app.js:112 | The decimal renderings of a set's elements are non-empty runs of `-` and digits. |
| Parser.SplitFromJoin | app.js:41 | Splitting a `", "`-joined sequence of such runs gives back exactly those runs. |
| Parser.NonEmptyOfTexts | app.js:42 | Filtering the renderings of a set removes nothing. |
| Parser.KeepIntegersOfTexts | app.js:43-44 | Converting the renderings of a set gives back the set's elements. |
| Parser.ParseSetOfJoin | app.js:38-46 | Parsing the `", "`-joined rendering of a strictly ascending set gives back that set. |
| Formatter.Term | app.js:78 | The shifted term is `"x"` exactly when the offset is 0. Otherwise it is `"x+"` followed by a text that converts back to the offset and has no leading zero, neither after `+` nor after a `-`. Together these fix the text as `String(offset)`. |
| Formatter.BinaryText | app.js:75 | The zero-padded binary text has exactly `width` binary digits, and its value is the mask. |
| Formatter.Format | app.js:72-82 | The bounds and the out-of-range list pass through, and the offset is `-min`. `constDec` converts back to the mask, with no leading zero. `constBin` is `width` binary digits with the mask's value. The two Lua texts have the source's shapes around `constDec` and the term. |
| Encoder.ResolveBound | app.js:58-59 | An explicit bound wins over the inferred one. What the resolved bounds are for a set is stated by `Encoder.BuildBounds`. |
| Encoder.OutOfRange | app.js:63 | A value is recorded as out of range exactly when it is in the input and lies below `lo` or above `hi`. |
| Encoder.OutOfRangeCounts | app.js:63 | The filter keeps every copy of an out-of-range value and no copy of an in-range one: for `[1, 5, 5]` over `[0, 2]` it gives `[5, 5]`. |
| Encoder.OutOfRangeKeepsOrder | app.js:63 | Filtering a sorted sequence keeps it sorted, and keeps a strictly ascending one strictly ascending. |
| Encoder.MaskOf | app.js:65-70 | The mask after the loop has visited a prefix of the sorted copy. Its meaning is given by `Encoder.MaskBits` and `Encoder.MaskFitsWidth`. |
| Encoder.MaskBits | app.js:65-70 | Bit `i` of the folded mask is set exactly when `lo + i` is in the input and `lo + i <= hi`. |
| Encoder.MaskFitsWidth | app.js:65-72 | The folded mask is below `2^(hi - lo + 1)`. |
| Encoder.MaskMembership | app.js:65-70 | For `x` in `[lo, hi]`, bit `x - lo` of the mask is set exactly when `x` is in the input. |
| Encoder.MaskOfAppend | app.js:66-70 | One more loop step on an in-range value `v` whose bit lies above the mask adds `2^(v - lo)` to the mask. |
| Encoder.Encode | app.js:54-82 | `buildFromSet` from the sorted copy on. Its results are described by the `Build` lemmas below. |
| Encoder.Build | app.js:49-83 | The specification of `buildFromSet`. Its errors are given by `Encoder.BuildErrors`; its bounds by `Encoder.BuildBounds`; its texts by `Encoder.BuildMask`, `Encoder.BuildBinary` and `Encoder.BuildExpressions`. |
| Encoder.BuildFromSet | app.js:49-83 | The loop over the sorted copy, with its `continue` for out-of-range values, returns exactly the specification `Build`. |
| Encoder.BuildErrors | app.js:50-60 | The result is `EmptySet` exactly when the set is empty. It is `MinAboveMax` exactly when the set is non-empty and the resolved minimum exceeds the resolved maximum. |
| Encoder.BuildBounds | app.js:54-73 | On success the set is non-empty. `min` and `max` are the resolved bounds: each is the given option, or else the set's minimum or maximum. Also `min <= max` and `offset == -min`. |
| Encoder.BuildIndexRange | app.js:72-73 | On success, `x + offset` lies in `[0, width)` for every `x` in `[min, max]`. |
| Encoder.BuildOutOfRange | app.js:63 | On success, `outOfRange` holds exactly the set's values outside `[min, max]`, each as often as in the input, sorted. For a duplicate-free set it is strictly ascending. |
| Encoder.SetMaskBits | app.js:65-70 | Bit `i` of the mask is set exactly when `min + i` is in the set and is at most `max`. |
| Encoder.SetMaskMembership | app.js:65-70 | For `x` in `[min, max]`, bit `x - min` of the mask is set exactly when `x` is in the set. |
| Encoder.SetMaskFits | app.js:65-72 | The mask is below `2^width`, so it fits the binary width. |
| Encoder.BuildMask | app.js:74 | On success, `constDec` is the decimal text of the set's mask: it converts back to the mask and has no leading zero. |
| Encoder.BuildBinary | app.js:72-75 | On success, `constBin` is exactly `width` binary digits whose value is the set's mask. |
| Encoder.BuildExpressions | app.js:77-80 | On success, the term is `"x"` exactly when `min == 0`. `luaReadable` and `luaCompact` are the two source templates filled with `constDec` and the term. |
| Demo.DemoParse | app.js:185 | `parseSet("-4, -2, 1, 3, 5")` is `[-4, -2, 1, 3, 5]`. |
| Demo.DemoMask | app.js:185 | With no explicit bounds the sample spans `[-4, 5]`, and its mask is 677. |
| Demo.DemoMaskSteps | app.js:66-70 | The loop over the sample sets bits 0, 2, 5, 7 and 9, one step at a time, ending at 677. |
| Demo.DemoBuild | app.js:185 | For the sample with no explicit bounds, `buildFromSet` returns `constDec` `"677"`, `constBin` `"1010100101"`, offset 4, `"(677 >> (x+4)) & 1 == 1"`, `"677 >> x+4 & 1 == 1"`, min -4, max 5 and no out-of-range values. |

## Left out

- The page wiring is not modelled: DOM access, events, the clipboard, rendering and the warning texts (app.js:1-35, app.js:85-186). It is I/O. Of the out-of-range warning (app.js:112), only its `outOfRange.join(', ')` is modelled, as `Parser.Join`, to state the parse round trip `Parser.ParseSetOfJoin`.
- The UI's check that both range fields are filled is not modelled. It lives in the event handler, not in `buildFromSet`.
- `parseSet` on `null`/`undefined` or on non-string values (`String(input)`) is not modelled: the model's input is a string. An empty string gives the empty set, as `!input` does.
- The `Array.isArray` guard of `buildFromSet` is not modelled: the model's input is always a sequence of integers.
- Range bounds are `Option<int>`: a missing or non-finite option is `None`. A finite non-integer bound is not modelled. With one, the source throws a `RangeError` from `BigInt(v - min)` only if some in-range `v` gives a fractional `v - min`. Otherwise it returns a fractional width, and a fractional offset when `min` is fractional; `padStart` truncates the width. Examples: bounds 0 and 2.5 over `[1, 2, 3]`; bounds 0.5 and 0.7 over `[1]`, where every value is skipped.
- JavaScript `Number` is modelled as an unbounded integer. The following are not modelled:
  - loss of precision above 2^53;
  - `-0`;
  - `Infinity` from very long digit runs;
  - the exponent notation `String(n)` uses for large values.
- Numerals.ParseInt: handles only the fields the splitter can produce, which are runs of `-` and digits. Among those it accepts exactly an optional `-` followed by digits. Other texts that `Number` accepts are out of scope, because they never reach it: leading `+`, blanks, hex and exponent forms. A digit run too long for a double is treated as its exact value.
- The Lua expressions are modelled as text only. Their evaluation in a Lua interpreter is not modelled: the meaning of the constant is given by `Encoder.SetMaskMembership` on the bits of the mask. Lua integers are 64-bit, so a constant of 2^63 or more is read as a float there, and `>>` on it raises an error; the model does not capture this.
