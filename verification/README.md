# Verified models of the float printer, `quote!`, the LSP crates and serde sequences

This project models the intricate parts of the repository and proves what they are for. Every
module is independent and stands beside the source it models:

- `zmij/` – shortest float printing: multiword multiplication and rounding to odd (`Multiply`),
  the table of powers (`PowerTable`), decimal exponents and shifts (`Exponents`), Schubfach and the
  fast path (`Decimal`, `DecimalProofs`, `FastPath`, `ExactHits`), digit extraction (`Bcd`), the
  in-place writer (`Text`, `Shape`, `Printer`, `FloatText`), floats as bit patterns and rounding to the
  nearest of them (`Floats`) and what the text is worth (`ReadBack`, `Nearest`). The final results
  go from the bits of a float to its text: the text denotes a number that rounds to the same float,
  none with fewer digits does, and none with as many is nearer.
- `quote/` – expansion of `quote!`: the seven-row token windows equal a left-to-right muncher
  (`Windows`, spelled out in `Patterns`), whole invocations at every depth and the names repetitions bind (`Expansion`), the
  loops at run time as zip (`Repetition`), spans (`Spans`), `quote_spanned!` with rules of its own
  (`Spanned`), where each of its tokens comes from (`Origins`), and what each form yields, in tokens
  (`Meaning`).
- `lsp/` – the frame decoder (`Framing`, `FramingProofs`, `HeaderGrammar`), request correlation as a state machine
  over interleaved steps (`Client`), the stderr ring (`StderrRing`), the hover fan-out (`Enrich`)
  and the coalescing main loop of the server (`Server`, `ServerProofs`, `StreamProofs`,
  `ServerLaws`).
- `serde/` – vectors, arrays and the counting sequence deserializer (`Sequences`).
- `common/` – option and result types, powers, lists.

Code of the source that changes things step by step is written as methods and classes and proved
against a specification function; code made of expressions is written as functions. What the
specification functions say is stated again in literal terms, apart from them, in `Shape`,
`Patterns`, `Meaning`, `HeaderGrammar` and `ServerLaws`.

## Hypotheses about the table of powers

The numeric contents of `POW10S`, `HIGH_PARTS` and `FIXUPS` are not part of this model. Results
about floats take a table entry that is

- usable: normalized, and one unit can be added without a carry (`Decimal.Usable`);
- accurate: the exact power of ten rounded down to the entry's width (`DecimalProofs.Accurate`);
- separated: no even number of quarters lies between an estimate's exact product and the product
  with the raised entry (`DecimalProofs.AllSeparated`).

Everything else is proved for every float: the exponents of ten (`Exponents.DecExpIsFloorLog10`,
`Exponents.DecExpIsFloorLog10Irregular`), and that exact ties and exact interval ends cannot mislead
the fast path (`ExactHits.HitsAreSafeForFloats`). `FloatText.ExactEntryIsTrusted` shows that the
hypotheses can be met: the entry of 10^0 meets them for every significand.

## Where the code and a claim about it differ

- The caches of the server do not depend on batching only if the engine is uniform for each
  document. `compute_and_push` leaves an old diff in place when the engine refuses the new content
  (`crates/lsp-server/src/main.rs:377-379`). `ServerProofs.SplitInvarianceNeedsUniformity` gives the
  exact condition on the engine, `StreamProofs.StreamsWithOneOutcome` the one on a stream of messages
  under any engine, `ServerProofs.StaleDiff` messages that show the difference.
- The code treats the smallest normal number as one whose lower neighbour is only half a unit away
  (`patches/zmij/src/lib.rs:1046-1052`). It is a full unit away, so the interval the code works with
  is smaller than the float's own, for this float and no other
  (`ReadBack.IntervalsDifferAtSmallestNormal`). The text is right all the same: `ReadBack.ReadsBack`,
  `Nearest.FewestDigits` and `Nearest.NearestOfItsLength` are about rounding to the nearest float and
  cover this one too.
- Request ids come from a 64-bit counter that wraps: they are unique for fewer than 2^64 requests
  (`Client.IdsAreUnique`) and repeat beyond (`Client.IdsWrap`).
- A comment says that server-initiated requests are discarded (`crates/lsp-client/src/client.rs:12-13`);
  the code looks at the id alone, and so does the model.

## Model

| member | source | states |
|---|---|---|
| Multiply.Umul192Hi128 | patches/zmij/src/lib.rs:123-130 | for every 128-bit and 64-bit operand the two words are exactly the product divided by 2^64, rounded down |
| Multiply.CarryFits | patches/zmij/src/lib.rs:123-130 | the wrapped low sum is detected by one comparison, carries at most once, and the high word never overflows |
| Multiply.InexactToOdd64Compares | patches/zmij/src/lib.rs:135-147 | against every even number `t` the rounded product is at least `t` exactly when the true product is, and greater exactly when the product exceeds `t` by two units of 2^-64 or more |
| Multiply.InexactToOdd32Compares | patches/zmij/src/lib.rs:135-147 | the same for 32-bit significands, which use only the high word of the power |
| PowerTable.Product | patches/zmij/src/lib.rs:263-273 | the three words are exactly the 192-bit product of a mantissa and a high part |
| PowerTable.TopBitsOfProduct | patches/zmij/src/lib.rs:275-282 | for any normalized operands the result is the product divided by the one power of two that brings it into [2^127, 2^128), rounded down |
| PowerTable.ComputeIsNormalizedProduct | patches/zmij/src/lib.rs:263-285 | an entry is those top 128 bits less the fixup bit of its index |
| PowerTable.New | patches/zmij/src/lib.rs:285-306 | the loop fills either layout so that every entry is the computed one |
| PowerTable.GetUnchecked | patches/zmij/src/lib.rs:308-345 | for every exponent in range both layouts return the entry computed for `dec_exp + 292`, with all loads in bounds |
| Exponents.Convergent2136 | patches/zmij/src/lib.rs:358-366 | 10^643 < 2^2136: 643/2136 is below log10(2) |
| Exponents.Convergent485 | patches/zmij/src/lib.rs:358-366 | 10^146 > 2^485: 146/485 is above log10(2) |
| Exponents.Convergent2621 | patches/zmij/src/lib.rs:358-366 | 10^789 > 2^2621, from certified truncated products: the convergents' gap stays open at the end of the range |
| Exponents.DecExpIsFloorLog10 | patches/zmij/src/lib.rs:356-366 | for every binary exponent of the documented range the shift and multiply is, for regular significands, exactly the floor of log10(2^bin_exp) |
| Exponents.DecExpIsFloorLog10Irregular | patches/zmij/src/lib.rs:356-366 | and for irregular significands exactly the floor of log10(3/4 * 2^bin_exp), over the same range |
| Exponents.ShiftIsSmall | patches/zmij/src/lib.rs:369-377 | the alignment shift of every finite float, regular or not, lies between 1 and 4, so the cast to a byte loses nothing |
| Exponents.Log2IsFloor | patches/zmij/src/lib.rs:369-377 | for every decimal exponent from -350 to 350 the other shift and multiply is exactly the floor of log2(10^-dec_exp) |
| Exponents.ShiftAligns | patches/zmij/src/lib.rs:369-377 | so the shift puts the power of ten, times the unit, just below a power of two, for every finite float |
| Exponents.BuildExpShifts | patches/zmij/src/lib.rs:392-412 | the table loop stores the directly computed shift for every raw exponent, with raw exponent 0 treated as 1 |
| Exponents.ComputeExpShift | patches/zmij/src/lib.rs:424-440 | the lookup and the direct computation agree for every regular exponent |
| Decimal.Div10IsExact | patches/zmij/src/lib.rs:937-942 | the reciprocal multiplication divides every integral part by ten exactly |
| Decimal.InexactToOddCompares | patches/zmij/src/lib.rs:135-147 | either width of the rounded product against every even number |
| DecimalProofs.EstimateCompares | patches/zmij/src/lib.rs:853-875 | given an accurate, separated table entry, each of the three estimates compares to every even number as the exact scaled value does |
| DecimalProofs.ChooseIsShortest | patches/zmij/src/lib.rs:868-897 | from three such estimates the selection returns a number in the rounding interval (closed for even, open for odd significands): a multiple of ten if there is one, otherwise the nearest, ties to even |
| FloatText.SchubfachOfFloat | patches/zmij/src/lib.rs:838-898 | `to_decimal_schubfach` as a whole returns that number for every significand and exponent of both widths, regular or not, with no assumption on the exponent of ten |
| FastPathProofs.FastPathMeaning | patches/zmij/src/lib.rs:905-1005 | when the loop body returns, its answer is decided by where the exact fixed-point remainder lies: in the lower gap, in the upper gap, or between |
| FastPathProofs.FastOutcome | patches/zmij/src/lib.rs:967-1005 | an answer of the fast path is a multiple of ten in the interval, or the strictly nearest integer when no multiple of ten is |
| FastPathProofs.SettledIsShortest | patches/zmij/src/lib.rs:905-1007 | two numbers settled in this way are the same number |
| FastPathProofs.FastIsSchubfach | patches/zmij/src/lib.rs:905-1007 | for every regular significand the fast path, where it returns, returns what Schubfach returns, and that is the shortest decimal |
| ExactHits.UlpIsBetweenOneAndTen | patches/zmij/src/lib.rs:948-951 | a regular unit in the last place, scaled by the power of ten, lies in [1, 10) |
| FloatText.IrregularUlp | patches/zmij/src/lib.rs:356-366 | of an irregular unit in the last place, scaled by its power of ten, three quarters lie in [1, 10) |
| ExactHits.MiddleIsExact | patches/zmij/src/lib.rs:929-933 | a value exactly half way between integers only arises where the table entry is the exact power |
| ExactHits.EndIsSafe | patches/zmij/src/lib.rs:976-984 | an interval that ends exactly on a multiple of ten stays clear of the fixed-point grid of the comparison, for every float |
| ExactHits.HitsAreSafeForFloats | patches/zmij/src/lib.rs:905-1007 | what the fast path needs of exact hits holds of every regular float of both widths; it is proved, not assumed |
| Bcd.Split4 | patches/zmij/src/lib.rs:505-506 | the first multiplication splits eight digits into two half-words of four |
| Bcd.Split2 | patches/zmij/src/lib.rs:507-508 | the second splits each half-word without disturbing its neighbour |
| Bcd.Split1 | patches/zmij/src/lib.rs:509-511 | the third splits each pair of digits without carries between lanes |
| Bcd.ToBcd8IsDigits | patches/zmij/src/lib.rs:498-513 | for every number below 10^8 the eight bytes in memory are its eight digits, most significant first |
| Bcd.CountIsTrimmedLength | patches/zmij/src/lib.rs:442-456 | the bit trick counts exactly the digits up to the last nonzero one |
| Bcd.AddZeros | patches/zmij/src/lib.rs:495-525 | adding the constant turns every digit into its character with no carry between bytes |
| Printer.WriteEight | patches/zmij/src/lib.rs:539-543 | one store writes the eight digits and the count is what remains without trailing zeros |
| Printer.WriteTwoGroups | patches/zmij/src/lib.rs:551-570 | the scalar form for doubles, with the second store left out when the low digits are zero |
| Printer.WriteSignificand | patches/zmij/src/lib.rs:535-570 | exactly the 16 or 17 (8 or 9) digits up to the last nonzero one are written, the end is just behind it, and nothing outside the places of the longest significand changes |
| Printer.LayOutWhole | patches/zmij/src/lib.rs:1070-1077 | overlapping copy and fill leave the digits, zeros and `.0` |
| Printer.LayOutPoint | patches/zmij/src/lib.rs:1078-1084 | the point is moved into the digits |
| Printer.LayOutFraction | patches/zmij/src/lib.rs:1085-1092 | `0.`, zeros and the digits |
| Printer.WriteExponent | patches/zmij/src/lib.rs:1102-1138 | the overlapping stores leave `e`, the sign and the exponent without a leading zero, for every exponent of the width |
| Printer.LayOutScientific | patches/zmij/src/lib.rs:1096-1138 | first digit, point if there are more, rest, exponent |
| Text.NumberOfNatDigits | patches/zmij/src/lib.rs:1112-1138 | the exponent's digits denote its absolute value |
| Text.ReadsExponent | patches/zmij/src/lib.rs:1102-1138 | the reader, which refuses leading zeros, reads the exponent back |
| Text.LayoutDenotes | patches/zmij/src/lib.rs:1065-1138 | in all four layouts the text, read as a decimal number, has the sign and denotes exactly the number that was laid out |
| Shape.LayoutIsShaped | patches/zmij/src/lib.rs:1065-1138 | the layout of shown digits is decided by the number alone: an `e` exactly below 10^-5 (single 10^-6) and from 10^16 (10^13) on; without one the digits of the integer part, a point and at least one digit, no superfluous zero; with one a single nonzero digit before the point or the `e`, the exponent the number has, and its digits |
| Shape.PlainMeansRange | patches/zmij/src/lib.rs:1066-1068 | the test of the exponent is a test of the number |
| FloatText.ShownIsDecimal | patches/zmij/src/lib.rs:1053-1061 | the shown digits begin and end with nonzero digits and denote exactly `sig * 10^exp`, also when a short single-precision significand is widened |
| FloatText.WriteDecimal | patches/zmij/src/lib.rs:1053-1138 | every decimal of the width is written as its layout with every store inside 24 bytes |
| FloatText.ScaleUp | patches/zmij/src/lib.rs:1042-1045 | the loop for subnormal numbers ends with all digits present and the same value |
| FloatText.DecimalFits | patches/zmij/src/lib.rs:1012-1052 | the selected decimal of every float has the number of digits the writer expects |
| FloatText.ToDecimalIsShortest | patches/zmij/src/lib.rs:1041-1052 | whichever path `write` takes, the selected decimal is the shortest that reads back |
| FloatText.LookupIsInTable | patches/zmij/src/lib.rs:838-843 | every power of ten that a finite float of either width asks for is one of the 617 stored |
| FloatText.Lookup | patches/zmij/src/lib.rs:838-843 | read from the stored array in either layout, it is the entry computed for that power |
| FloatText.Choose | patches/zmij/src/lib.rs:1022-1052 | the decimal handed to the writer, with the entry read from the stored array, has the value of the selected one, for normal, irregular and subnormal floats |
| FloatText.Write | patches/zmij/src/lib.rs:1012-1138 | for every finite float the text is `0.0` with the sign, or denotes exactly the sign and the selected decimal and has the shape such a number must have (`Shape.IsShapedSigned`); length at most 24 |
| Floats.Successor | patches/zmij/src/lib.rs:149-173 | the next bit pattern is the float one unit above, also across powers of two and out of the subnormals |
| Floats.RoundsToMeansInInterval | patches/zmij/src/lib.rs:838-898 | a real number is at least as near to a nonzero float as to every other finite bit pattern of the width (ties to even) and below the overflow bound if and only if it lies between the halves towards the neighbours, ends included for even significands |
| ReadBack.IntervalsDifferAtSmallestNormal | patches/zmij/src/lib.rs:868-889 | the interval the code works with lies in the float's own, and it is the same set of numbers if and only if the float is not the smallest normal one |
| ReadBack.ReadsBack | patches/zmij/src/lib.rs:1012-1138 | the printed number rounds to the float: no other finite bit pattern is as near unless the tie is the float's, and it does not overflow (section 4.3.1 of IEEE 754-2019) |
| ReadBack.TextReadsBack | patches/zmij/src/lib.rs:1012-1138 | the same of the text: what a reader of decimals finds in it rounds to the float it was printed from |
| ReadBack.NoShorterDecimal | patches/zmij/src/lib.rs:1008-1010 | no multiple of a power of ten above the last printed digit rounds to the same float, for every nonzero float including the smallest normal one |
| Nearest.FewestDigits | patches/zmij/src/lib.rs:1008-1010 | the text is as short as possible: no decimal with fewer digits, at whatever place, rounds to the same float |
| Nearest.NearestOfItsLength | patches/zmij/src/lib.rs:1008-1010 | of all decimals with at most as many digits that round to the same float the printed one is the nearest to it, and of two as near the one with the even last digit; the smallest normal float and single digits included |
| Windows.ColumnsAreWindows | patches/quote/src/lib.rs:823-868 | the transposed rows are, column by column, the windows of the tokens, with three silent columns at either end |
| Windows.OpsOfStep | patches/quote/src/lib.rs:887-954 | at a boundary the ordered rules do what the muncher does there, and nothing at the other tokens it consumed |
| Windows.NextBoundary | patches/quote/src/lib.rs:887-954 | behind every consumed form lies a boundary again, also with `#`, `*`, `@` or a group as separator |
| Windows.WindowsAreMuncher | patches/quote/src/lib.rs:753-954 | for every token sequence the window expansion is that of a left-to-right muncher |
| Patterns.PlainRepetition | patches/quote/src/lib.rs:893-912 | spelled out in tokens: `#( ... )*` becomes a repetition, whatever is in it and whatever follows |
| Patterns.SeparatedRepetition | patches/quote/src/lib.rs:914-933 | `#( ... ) sep *` becomes one with that separator, which may be any token but `*` |
| Patterns.StarBehindRepetition | patches/quote/src/lib.rs:934-939 | in `#( ... )* *` the second star is pushed |
| Patterns.Interpolation | patches/quote/src/lib.rs:943-948 | `#name` becomes an interpolation |
| Patterns.OtherGroups | patches/quote/src/lib.rs:893-953 | `#[ ... ]` and `#{ ... }` are pushed as they are |
| Patterns.GroupWithoutStar | patches/quote/src/lib.rs:893-953 | `#( ... )` with no star in either place behind it is pushed as it is |
| Patterns.PoundAlone | patches/quote/src/lib.rs:950-953 | `#` before anything else is pushed |
| Expansion.NamesOfSeparated | patches/quote/src/lib.rs:690-730 | the names found by pairs of neighbours across a repetition with a separator |
| Expansion.ShortArms | patches/quote/src/lib.rs:496-526 | the arms for none, one and two tokens and for `#var` do what the general arm does |
| Expansion.QuoteIsReference | patches/quote/src/lib.rs:486-954 | at every depth `quote!` expands to the code of a left-to-right reading, and every repetition binds exactly the names its body interpolates, nested groups and separators included |
| Repetition.RoundCount | patches/quote/src/runtime.rs:83-167 | the number of rounds is the length of the shortest iterable among the names, and there is none without an iterable |
| Repetition.QuoteIntoIterIsIdempotent | patches/quote/src/runtime.rs:83-167 | `quote_into_iter` leaves what it has already bound as it is and reports the same of it again |
| Repetition.IntoIter | patches/quote/src/lib.rs:733-741 | bound once for every occurrence of every name, each name has the source of its value; there is an iterator exactly when some name is iterable |
| Repetition.NextOccurrence | patches/quote/src/runtime.rs:178-191 | the first occurrence of a name in a round advances its iterator, or ends the loop when it is empty; every later occurrence finds the item of the round and leaves the iterator where it is |
| Repetition.BindAll | patches/quote/src/lib.rs:744-751 | with `next` called for every occurrence, the loop goes on exactly if no iterable is exhausted, and each name then has its source, advanced once, below as many copies of the item as it occurs |
| Repetition.NextOrBreak | patches/quote/src/lib.rs:744-751 | the body of a round sees the items of that round, other values repeat, every iterator has moved by one, and the loop ends exactly with the shortest iterable |
| Repetition.RunLoop | patches/quote/src/lib.rs:893-929 | the `while true` loop appends the zip of the iterables: the body once a round, the separator between rounds only |
| Repetition.Run | patches/quote/src/lib.rs:1018-1245 | running expanded code appends exactly its meaning to the stream |
| Repetition.Invoke | patches/quote/src/lib.rs:486-526 | an invocation yields the meaning of reading its tokens from left to right; of an operator each character is a leaf, joint unless it is the last, a lifetime is a joint `'` and its name, names are one leaf, all with the span, and other text is what it parses to |
| Meaning.OrdinaryYields | patches/quote/src/lib.rs:950-953 | a token other than `#` yields what it yields alone, before what the rest yields |
| Meaning.GroupYields | patches/quote/src/lib.rs:1018-1060 | a group yields a group with its delimiter and the span around what its tokens yield |
| Meaning.NameYields | patches/quote/src/lib.rs:943-948 | `#name` yields the tokens of the value, whatever the span |
| Meaning.BoundAreMentioned | patches/quote/src/lib.rs:690-730 | a repetition binds a name exactly if `#` and the name stand next to each other somewhere in its tokens |
| Meaning.RepetitionYields | patches/quote/src/lib.rs:893-933 | a repetition yields its bodies in order, one for each item of the shortest iterable it mentions, with the separators between them only, before what the rest yields |
| Spans.MapRespan | patches/quote/src/runtime.rs:287-308 | respanning replaces every span at every depth |
| Spans.EvalIsNatural | patches/quote/src/lib.rs:960-1007 | changing spans after the expansion is the same as running with changed spans |
| Spanned.SameOperations | patches/quote/src/lib.rs:840-1007 | the rule table of the `_spanned` macros does to every token sequence what the other table does, with the span handed to everything but interpolations |
| Spanned.SameExpansion | patches/quote/src/lib.rs:486-683 | arm by arm and at every depth `quote_spanned!` expands to the code of `quote!` with the span handed on |
| Spanned.MeaningWithSpan | patches/quote/src/lib.rs:1248-1479 | running the `_spanned` pushes of that code yields what the code means when all its pushes are given the span |
| Spanned.SpannedIsUnspannedErased | patches/quote/src/lib.rs:643-683 | `quote_spanned!` and `quote!` yield the same trees once spans are erased |
| Spanned.SpansAreGivenOrOwn | patches/quote/src/runtime.rs:263-308 | every token of the spanned form, at any depth, carries the given span or one that came in with an interpolated value |
| Origins.SpansAreByOrigin | patches/quote/src/lib.rs:960-1007 | token by token and at every depth, for trees marked as quoted or interpolated: the marks add nothing, quoted tokens carry the given span, interpolated ones a span of their value, and with another span the quoted ones carry that one while the interpolated ones stay as they are |
| Framing.FindCrlf | crates/lsp-client/src/lib.rs:214-216 | the first line terminator, if there is one |
| HeaderGrammar.EveryLineIsSpelled | crates/lsp-client/src/lib.rs:177-190 | every header line is a text without a colon, or a key and a value with white space around them |
| HeaderGrammar.HeaderMeans | crates/lsp-client/src/lib.rs:177-190 | by its spelling: a line without a colon or with another key leaves the length in force alone; the key `content-length` in any case sets it to its 64-bit integer, negative ones to zero, and any other value is an error |
| HeaderGrammar.OtherHeadersDoNotMatter | crates/lsp-client/src/lib.rs:153-190 | a line about something else, inserted anywhere in a section within the caps, changes neither events nor error |
| HeaderGrammar.LastLengthCounts | crates/lsp-client/src/lib.rs:153-200 | among any other headers the last of several lengths counts: so many bytes are one body, none if it is not positive, and more than 67108864 end the stream |
| HeaderGrammar.NoLengthIsSkipped | crates/lsp-client/src/lib.rs:161-176 | a section without a length is skipped |
| HeaderGrammar.BadLengthIsFatal | crates/lsp-client/src/lib.rs:177-188 | a length without digits, with other characters or out of 64 bits is fatal where it stands |
| HeaderGrammar.CapsAreFatal | crates/lsp-client/src/lib.rs:141-158 | a line of more than 4096 bytes or a section of more than 16384 is fatal |
| HeaderGrammar.PartialLineWaits | crates/lsp-client/src/lib.rs:141-152 | a line without its terminator is waited for up to 4096 bytes |
| HeaderGrammar.DressedRoundTrip | crates/lsp-client/src/lib.rs:134-206 | bodies framed by any such sections come out once each, in order, and nothing is left |
| HeaderGrammar.DressedRoundTripInChunks | crates/lsp-client/src/lib.rs:129-206 | the same however the bytes are cut |
| Framing.DecodeStep | crates/lsp-client/src/lib.rs:138-206 | one turn of the decoding loop keeps the state in its bounds and consumes bytes |
| Framing.DrainByPull | crates/lsp-client/src/lib.rs:134-206 | pulling events until none is left is draining the buffer |
| Framing.FrameDecoder.NextEvent | crates/lsp-client/src/lib.rs:138-206 | the loop over buffer and state computes the pull of the specification, keeps header bytes and body length in bounds, and terminates |
| FramingProofs.StepExtend | crates/lsp-client/src/lib.rs:138-206 | a step that was decided is decided in the same way with more bytes behind |
| FramingProofs.DrainAppend | crates/lsp-client/src/lib.rs:129-206 | draining before more bytes arrive and draining afterwards come to the same |
| FramingProofs.ChunkingInvariance | crates/lsp-client/src/lib.rs:129-211 | for every stream and every way of cutting it into chunks, with draining in between, events, fatal error, state and buffer are those of feeding it at once |
| FramingProofs.SameStreamSameOutcome | crates/lsp-client/src/lib.rs:129-211 | two cuts of the same stream have the same outcome |
| FramingProofs.ReadLoop | crates/lsp-client/src/client.rs:480-501 | the reader loop delivers exactly the events of the whole stream up to the first fatal error |
| FramingProofs.BytesConserved | crates/lsp-client/src/lib.rs:129-206 | what is left in the buffer is a suffix of what was fed |
| FramingProofs.WaitingIsBounded | crates/lsp-client/src/lib.rs:141-152 | waiting for more means at most 4096 bytes without a terminator, or less than the awaited body of 1 byte to 64 MiB |
| FramingProofs.ErrorsAreSticky | crates/lsp-client/src/lib.rs:134-141 | after a fatal error every later feed yields that error and no event |
| FramingProofs.LengthLineIsRead | crates/lsp-client/src/lib.rs:177-188 | the printed length of every 64-bit value is read back, negative ones as zero |
| FramingProofs.RoundTrip | crates/lsp-client/src/lib.rs:43-48 | decoding encoded messages (bodies of 1 byte to 64 MiB) gives them back, with skipped blocks in between skipped and malformed bodies reported once each |
| FramingProofs.RoundTripInChunks | crates/lsp-client/src/lib.rs:43-48 | the same however the encoded stream is cut |
| FramingProofs.NonPositiveLengthIsSkipped | crates/lsp-client/src/lib.rs:161-176 | blocks with no, a zero or a negative length are skipped |
| Client.IdsAreUnique | crates/lsp-client/src/client.rs:430 | fewer than 2^64 requests never share an id |
| Client.IdsCountUp | crates/lsp-client/src/client.rs:430 | the first request has the id one, and they count up |
| Client.IdsWrap | crates/lsp-client/src/client.rs:430 | the 64-bit counter comes around: beyond that number ids repeat |
| Client.DispatchKeeps | crates/lsp-client/src/client.rs:503-523 | taking a sender out of the map for a message keeps the invariant, whatever the id |
| Client.StepKeeps | crates/lsp-client/src/client.rs:429-523 | every step of every task keeps the invariant |
| Client.EveryRunIsSafe | crates/lsp-client/src/client.rs:429-523 | over every interleaving ids are never reused, a returned request has no pending entry, an answer is the first message with the request's own id since it was registered, a connection error means the reader has ended, and write errors and timeouts are the request's own |
| Client.RunExplains | crates/lsp-client/src/client.rs:434-450 | over every run each failing, expiring or returned request is explained by a step of its own that was taken |
| Client.OutcomeIsFinal | crates/lsp-client/src/client.rs:436-450 | a request keeps its one outcome in every continuation |
| Client.StrayIdsHaveNoEntry | crates/lsp-client/src/client.rs:503-509 | while the reader reads, the map has no entry for an id exactly when nobody waits for it: unknown, not yet registered, answered before, or returned |
| Client.MessagesFindTheirRequest | crates/lsp-client/src/client.rs:503-523 | over every run, a message with a stray id changes nothing but the record of what was received, and any other goes to a request with that very id |
| Client.OwnStepProgresses | crates/lsp-client/src/client.rs:429-450 | a request that has not returned can always take a step of its own towards its outcome |
| Client.OthersDoNotDelay | crates/lsp-client/src/client.rs:429-523 | no step of another task sets a request back |
| Client.CanReturn | crates/lsp-client/src/client.rs:429-450 | every request can be brought to its outcome in at most four steps of its own |
| Client.ReplyArrives | crates/lsp-client/src/client.rs:503-523 | a message with the id of a waiting request goes to it alone and makes it return with that reply |
| Client.RequestIsAnswered | crates/lsp-client/src/client.rs:429-450 | after every run a new request can be registered, written, and answered with its reply |
| Client.EndWakesEveryone | crates/lsp-client/src/client.rs:500-501 | when the stream ends every waiting request is woken and returns that the connection is closed |
| Client.AbortLeavesTheTimeout | crates/lsp-client/src/client.rs:418-423 | when the reader is aborted a waiting request is not woken and times out |
| StderrRing.NewestOfNewest | crates/lsp-client/src/client.rs:139-146 | dropping old bytes early loses nothing that would be kept later |
| StderrRing.Ring.Push | crates/lsp-client/src/client.rs:139-146 | however the bytes are cut, the ring holds the last 65536 of all of them, or all if there are fewer |
| Enrich.PollKeeps | crates/lsp-client/src/enrich.rs:62-72 | after every poll at most fifty queries hold a permit, the queue is exact, each query is on the wire at most once |
| Enrich.FiftyAtOnce | crates/lsp-client/src/enrich.rs:62-72 | fewer than fifty under way let a new query be sent by its first poll; there are never more than fifty |
| Enrich.SomeoneCanFinish | crates/lsp-client/src/enrich.rs:60-72 | while a query is unfinished some future can finish: the permits cannot deadlock |
| Enrich.CollectedIsLastAnswer | crates/lsp-client/src/enrich.rs:73 | the map holds for each id the answer of the last answered target with that id |
| Enrich.JoinAll.PollSlot | crates/lsp-client/src/enrich.rs:87-95 | a finished future is not polled again, and `done` counts the filled results |
| Enrich.WaitingTakesNothing | crates/lsp-client/src/enrich.rs:60-72 | a future that is polled with its answer there and still waits for a permit takes nothing from those that can finish |
| Enrich.JoinAll.PollRound | crates/lsp-client/src/enrich.rs:86-101 | the combined future is ready exactly when every result is there, and a poll with all answers there brings at least one more |
| Enrich.HoverMap | crates/lsp-client/src/enrich.rs:51-74 | whatever the schedule, the result is the fold of the answers in target order, every target is queried once, and the result is there after as many rounds with all answers as there are targets |
| Enrich.EnrichTargets | crates/lsp-client/src/enrich.rs:35-48 | a failed open ends with an empty map; otherwise all queries lie between the open and the one close, and the result comes under every schedule with enough rounds |
| Server.ServerState.Handle | crates/lsp-server/src/main.rs:231-349 | one message changes root, configuration, flag, caches, dirty list and output as specified; in particular `initialize` sets the root it brings and the configuration loaded for it, and nothing else sets them |
| ServerLaws.FirstDocument | crates/lsp-server/src/main.rs:223-402 | from a new server, `initialize` and then a document, in one batch or two, end with the engine's diff of that root, configuration, document and text, cached, published, and shown by a codeLens request |
| ServerLaws.InitializeSetsUp | crates/lsp-server/src/main.rs:239-283 | root and configuration with a root, neither without, the flag always, and the answer |
| ServerLaws.UpdateIsPublished | crates/lsp-server/src/main.rs:285-310 | with a root new content is diffed, cached and published in its batch, and with nothing the engine refuses |
| ServerLaws.WithoutRootNothingIsDiffed | crates/lsp-server/src/main.rs:365-367 | without a root content is kept and nothing is diffed |
| ServerLaws.LensesShowOwnDiff | crates/lsp-server/src/main.rs:318-331 | a codeLens request is answered with the cached diff of the document it names |
| ServerLaws.CompareUsesLiveText | crates/lsp-server/src/main.rs:332-337 | a compare request is given the live text of the new document |
| ServerLaws.RequestsAreAnswered | crates/lsp-server/src/main.rs:338-349 | each other request is answered in kind, and what has no id is not answered |
| ServerLaws.CloseForgets | crates/lsp-server/src/main.rs:311-317 | closing removes content and diff |
| ServerLaws.ExitEndsAtOnce | crates/lsp-server/src/main.rs:343 | nothing behind an `exit` is handled or computed |
| Server.ServerState.ComputeAndPush | crates/lsp-server/src/main.rs:365-402 | one document is diffed, cached and published, or nothing happens |
| Server.ServerState.RunBatch | crates/lsp-server/src/main.rs:223-356 | one turn of the main loop, with `exit` leaving at once |
| Server.ServerState.Serve | crates/lsp-server/src/main.rs:223-356 | the main loop over the batches the channel delivers |
| ServerProofs.BatchKeepsCoherent | crates/lsp-server/src/main.rs:223-356 | after each batch every open document has exactly the diff of its cached content, and no other document has one |
| ServerProofs.BatchSplitInvariance | crates/lsp-server/src/main.rs:223-356 | with root and configuration fixed, every way of cutting the same exit-free messages into batches ends with the same two caches |
| ServerProofs.StaleDiff | crates/lsp-server/src/main.rs:352-379 | with an engine that serves one content of a document and refuses another, two batches keep a stale diff that one batch never has |
| ServerProofs.SplitInvarianceNeedsUniformity | crates/lsp-server/src/main.rs:223-402 | the caches are independent of batching for all streams if and only if the engine serves, for each document, all contents or none |
| StreamProofs.StreamsWithOneOutcome | crates/lsp-server/src/main.rs:223-402 | for any engine, state and stream without `exit` or a change of root and configuration: all ways of cutting this stream end with the same caches if and only if each document ends with content the engine serves, or was never since its last close given content served with another diff than it had |
| StreamProofs.EndsWithFinalDiff | crates/lsp-server/src/main.rs:223-402 | such a document ends, however the stream is cut, with the diff of its latest content if the engine serves that, and otherwise with the one it had |
| StreamProofs.UnsettledStream | crates/lsp-server/src/main.rs:352-402 | for any other document the stream has a place to cut it in two so that the caches differ from those of one batch |
| ServerProofs.ComputedAllPublishesOnce | crates/lsp-server/src/main.rs:352-355 | behind a batch each changed document is published at most once, with its latest content |
| Sequences.VisitVec | patches/serde_core/src/de/impls.rs:1157-1169 | a vector read afresh is all elements in order or the first error |
| Sequences.FreshAllMeaning | patches/serde_core/src/de/impls.rs:1157-1169 | it succeeds exactly if every element can be read, with each in its place, and otherwise with the error of the first that cannot |
| Sequences.VisitVecInPlace | patches/serde_core/src/de/impls.rs:1194-1219 | overwrite, then truncate or push, leaves what the specification says, also when an element fails half way |
| Sequences.InPlaceMeaning | patches/serde_core/src/de/impls.rs:1194-1219 | on success the elements in order and nothing else; when one fails, those before it, what it left itself, and the old values behind it |
| Sequences.InPlaceIsFresh | patches/serde_core/src/de/impls.rs:1194-1219 | for any old contents (longer, equal, shorter) a successful read in place leaves the vector of a fresh read, with the same error otherwise |
| Sequences.DefaultAgrees | patches/serde_core/src/de/mod.rs:585-592 | the default in-place read, which reads afresh and assigns, agrees with a fresh read |
| Sequences.NestingAgrees | patches/serde_core/src/de/impls.rs:1178-1223 | agreement of the elements carries over to vectors of vectors at any depth |
| Sequences.VecOfDefaultsIsFresh | patches/serde_core/src/de/impls.rs:1178-1223 | so a vector of elements with the default is read in place as it is read afresh, whatever it held |
| Sequences.VisitArray | patches/serde_core/src/de/impls.rs:1281-1290 | exactly the places of the array are read, and data that ends early is an error at that place |
| Sequences.VisitArrayInPlace | patches/serde_core/src/de/impls.rs:1305-1317 | for any element reader the slots end as the in-place reference leaves them, also when an element fails or the data ends half way |
| Sequences.InPlaceArrayMeaning | patches/serde_core/src/de/impls.rs:1305-1317 | the same for the slots of an array, and for data that ends early the slots reached and an error with their number |
| Sequences.UnreachedSlots | patches/serde_core/src/de/impls.rs:1305-1317 | slots that were not reached keep what they held |
| Sequences.InPlaceArrayIsFresh | patches/serde_core/src/de/impls.rs:1305-1317 | where reading over an element agrees with reading it afresh, the array ends with what a fresh read returns, with the same error otherwise |
| Sequences.SeqDeserializer.Next | patches/serde_core/src/de/value.rs:1090-1100 | the elements of the data come out one by one in order, each counted once, so the count and what is left always make up the data |
| Sequences.SeqDeserializer.End | patches/serde_core/src/de/value.rs:1030-1042 | there is an error exactly if elements are left, and it reports how many elements the data had from the beginning, and how many were taken |
| Sequences.FreshArrayMeaning | patches/serde_core/src/de/impls.rs:1281-1290 | which data an array accepts, what it holds then, and the length it reports otherwise |
| Sequences.DeserializeArray | patches/serde_core/src/de/value.rs:1053-1060 | an array of any length is read exactly when there are exactly as many elements and all can be read; a wrong number is reported as the number there is |
| Sequences.DeserializeArrayInPlace | patches/serde_core/src/de/value.rs:1053-1060 | the same in place: the slots are what the in-place reference leaves, surplus data is an error with its true length, and with agreeing elements it succeeds exactly when a fresh read does |
| Sequences.DeserializeVecInPlace | patches/serde_core/src/de/value.rs:1053-1060 | a vector read in place from a sequence equals a fresh one, and its final count never fails |

## Left out

- Vector and assembly variants of `write_significand`, the empty assembly barriers, `select_unpredictable` and the code for Apple targets: other forms of the scalar path that is modelled.
- The compressed form of the power table, which calls `compute` directly, and the text of the two-digit table, modelled as the two digits of its index.
- FloatText.Write: the numbers in the table of powers are hypotheses, as described above; text for NaN and infinities is not modelled, and float bits are taken as numbers.
- Repetition.Run: a program that does not compile (a name that is not defined, an iterable interpolated outside of a repetition, a repetition without an iterable) has no meaning; the error is found when the code is reached, so a repetition of no rounds does not show the errors of its body.
- Spanned.SameExpansion: joining of delimiter spans and parsing of token text are not modelled, and the evaluation of the span expression to one span comes before.
- `format_ident!`, `ToTokens` implementations and `#[doc]` forms of the macros: shallow.
- Framing.FrameDecoder.NextEvent: header lines are taken as bytes with ASCII white space; lossy UTF-8 decoding and Unicode trimming are not modelled, and JSON is a pair of parse and show functions where parse inverts show.
- Client.EveryRunIsSafe: tasks, timers and the transport appear as steps on values that may be taken in any order; dropped request futures, which leave their entry behind, and the shutdown ladder are not modelled.
- Client.CanReturn: says that the steps are possible, not that a scheduler takes them.
- StderrRing.Ring.Push: the formatted hint of the last 500 characters is not modelled.
- Enrich.EnrichTargets: the answers and the points in time at which they arrive are parameters; cancellation of the whole future is not modelled.
- ServerProofs.BatchSplitInvariance: speaks of the two caches; codeLens answers inside a batch, diagnostics and request ids depend on batching by design, and so does what an `exit` cuts off.
- Server.ServerState.Handle: the diff engine, configuration loading, URI handling and file reads are functions of what the code passes to them.
- Sequences.VisitVec: capacity hints are left out, as are the other collections, which would add the same loop with another insertion, and `MapDeserializer`, which counts in the same way.
- `specs.rs`, launch plans, process spawning, hover text extraction and error message strings: branching without state.
