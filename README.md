# LightTraveller.Helpers: Base32, radix conversion and paging, in Dafny

This project models three helper classes of the `LightTraveller.Helpers` library and proves properties of them.

- `EncodingHelpers` is a Base32 codec, following section 6 of RFC 4648.
  - `ToBase32String` turns every five bytes into eight characters of the alphabet `A-Z2-7`. A final partial block is filled with zero bits and then `=`.
  - `ValidateBase32String` is the strict test a text has to pass before it is decoded.
  - `FromBase32String` validates the text. It then moves the bits of each character into an output byte array, a few at a time.
- `NumberExtensions` has the range tests `In` on `int` and `long`, and `ToBaseN`. `ToBaseN` writes a `long` in a base from 2 to 64, using a symbol table the caller passes in.
- `PagingExtensions.GetPageCount` gives the number of pages needed for a record count, with a `long` and an `int` overload.

## How the model is built

- **Shared modules.**
  - `DotNet` holds the parts of .NET the helpers rely on:
    - C#'s `int` and `long`, and its truncating `/` and `%`;
    - 32-bit wrap-around;
    - the exceptions, as a `Result` type;
    - `IndexOf`, `LastIndexOf`, `char.ToUpperInvariant` and `string.IsNullOrWhiteSpace`.
  - `Bits` holds bit strings, shifts, masks and the cutting of bit strings into fixed-width chunks.
- **The Base32 reference.** `Base32Format` defines the format at the bit level, which is how RFC 4648 states it:
  - the bytes form one big-endian bit string;
  - the string is cut into five-bit groups, and each group names a symbol;
  - the text is padded with `=` to a multiple of eight characters.

  `Base32Validation` gives the validator check by check, and the grammar it accepts.
- **The Base32 methods.** `EncodingHelpers` holds the two conversion methods, written as the source writes them.
  - The encoder builds a number from each block with `<<= 8` and `|=`. It then extracts the eight five-bit fields at shifts 35 down to 0.
  - The encoder's final block starts from the block's first byte and then ORs that byte in again. `Base32Steps.SeedHarmless` shows that the extra copy of that byte lies above bit 40 and is never read.
  - The decoder works on an array of bytes: every `<<=` and `|=` is reduced modulo 256, as a C# `byte` is. This reduction is what removes the already-used high bits of each character, because the OR brings them in again.
  - Both methods are proved to compute exactly the reference `Encode` and `Decode`. The proofs go step by step through the lemmas of `Base32Steps`.
- **Worked examples.** `Base32Vectors` works out the known encodings of the unit tests.
- **Overflow.** `Int32Overflow` shows that two lengths the methods compute overflow C#'s 32-bit `int` (see Findings).
- **`ToBaseN`.**
  - It is a method over a 64-character buffer array: a loop that writes one digit per pass, then an in-place reversal.
  - The method is proved equal to the function `BaseN`. `BaseN` spells out `Digits`, the positional digits of the value.
  - `Digits` is proved to give the value back and to be its only numeral without a leading zero.
- **Paging.** The two `GetPageCount` overloads are functions, proved to be the ceiling of the division.

## Model

| member | source | states |
|---|---|---|
| EncodingHelpers.ToBase32String | src/LightTraveller.Helpers/EncodingHelpers.cs:16-98 | a null array throws `ArgumentNullException`. An empty one throws `ArgumentException`. Any other array gives exactly the RFC 4648 text `Encode` of its bytes. |
| EncodingHelpers.EncodeFullBlocks | src/LightTraveller.Helpers/EncodingHelpers.cs:42-65 | after the loop, the first 8 * (n / 5) characters are those of the encoding |
| EncodingHelpers.ReadFullBlock | src/LightTraveller.Helpers/EncodingHelpers.cs:47-55 | the five shift-and-OR steps give the block's 40-bit big-endian value |
| EncodingHelpers.WriteBlock | src/LightTraveller.Helpers/EncodingHelpers.cs:57-64 | writes the eight five-bit fields at shifts 35, 30, ..., 0 through the alphabet. No other character changes. |
| EncodingHelpers.FullBlockText | src/LightTraveller.Helpers/EncodingHelpers.cs:57-64 | the eight fields of a full block are the eight characters of the encoding at that block |
| EncodingHelpers.ReadFinalBlock | src/LightTraveller.Helpers/EncodingHelpers.cs:69-85 | the seeded loop gives the zero-filled last block's value, plus a copy of the seed byte shifted above bit 40 |
| EncodingHelpers.FinalBlockChar | src/LightTraveller.Helpers/EncodingHelpers.cs:87-95 | in the last block, a position below `segments` is the field at `shift`, whatever the seed left above bit 40. Every later position is `=`. |
| EncodingHelpers.EncodeFinalBlock | src/LightTraveller.Helpers/EncodingHelpers.cs:67-96 | after the final block is written, the whole buffer is the encoding |
| Base32Steps.SeedHarmless | src/LightTraveller.Helpers/EncodingHelpers.cs:70-92 | bits above bit 40 never reach a field read at a shift of at most 35 |
| Base32Steps.TailStep | src/LightTraveller.Helpers/EncodingHelpers.cs:76-79 | one `<<= 8; \|= x` step moves the seed up together with the bytes read so far |
| Base32Steps.EncodeAt | src/LightTraveller.Helpers/EncodingHelpers.cs:57-64 | character k of text block i is the field at shift 35 - 5k of the block's value while it holds data bits, and `=` after |
| EncodingHelpers.FromBase32String | src/LightTraveller.Helpers/EncodingHelpers.cs:320-379 | throws `ArgumentException` exactly when the validator rejects the text. Otherwise it returns `Decode` of the text: it never throws `InvalidOperationException`, and the result has d * 5 / 8 bytes for d data symbols. |
| EncodingHelpers.DecodeSymbols | src/LightTraveller.Helpers/EncodingHelpers.cs:343-376 | the loop over a zeroed array of the decoded length leaves exactly the decoded bytes in it |
| EncodingHelpers.DecodeSymbol | src/LightTraveller.Helpers/EncodingHelpers.cs:345-375 | one pass keeps the decoding invariant and moves the bit position strictly forward |
| EncodingHelpers.ShiftIn | src/LightTraveller.Helpers/EncodingHelpers.cs:356-359 | the byte becomes `((old << a) mod 256) \| t`, reduced mod 256. No other byte changes. |
| EncodingHelpers.DecodeStep | src/LightTraveller.Helpers/EncodingHelpers.cs:353-359 | after a step, the current byte's low bits are the next bits of the data stream. The consumed high bits of the character are shifted out of the byte. |
| EncodingHelpers.PendingAfter | src/LightTraveller.Helpers/EncodingHelpers.cs:361-375 | after the position update, the current byte holds exactly the bits still pending |
| EncodingHelpers.DataLengthIsIndexOf | src/LightTraveller.Helpers/EncodingHelpers.cs:339-340 | `inputLength` is where the data symbols end: the first `=`, or the length |
| Base32Format.BlockCount | src/LightTraveller.Helpers/EncodingHelpers.cs:20-25 | the number of five-byte blocks begun covers the bytes with fewer than five to spare |
| Base32Format.EncodedLength | src/LightTraveller.Helpers/EncodingHelpers.cs:29 | the output length lies between 8n/5 and 8n/5 + 8, and is 0 only for no bytes |
| Base32Format.DataSymbolCount | src/LightTraveller.Helpers/EncodingHelpers.cs:27-28 | `segments` is the ceiling of 8n / 5 and never exceeds the output length |
| Base32Format.PaddingCount | src/LightTraveller.Helpers/EncodingHelpers.cs:27-29 | the text ends in 0, 6, 4, 3 or 1 `=` for n % 5 = 0, 1, 2, 3, 4 |
| Base32Format.EncodeChar | src/LightTraveller.Helpers/EncodingHelpers.cs:87-95 | position o is the symbol of five-bit group o while o < `segments`, and `=` after |
| Base32Format.EncodePadded | src/LightTraveller.Helpers/EncodingHelpers.cs:87-95 | the text is its data symbols followed by its padding only |
| Base32Format.EncodeValid | src/LightTraveller.Helpers/EncodingHelpers.cs:412-470 | the text of any non-empty byte sequence passes the validator in either case mode. Its data symbols end where the padding starts. |
| Base32Format.DecodeEncode | src/LightTraveller.Helpers/EncodingHelpers.cs:320-379 | decoding the text of any byte sequence gives the bytes back, in either case mode |
| Base32Format.DecodeShape | src/LightTraveller.Helpers/EncodingHelpers.cs:339-341 | every accepted text has the length and the number of data symbols of the text of the bytes it decodes to |
| Base32Format.ValidDataFolds | src/LightTraveller.Helpers/EncodingHelpers.cs:345-350 | after validation, every data character folds to a symbol, so the throw on a character outside the alphabet cannot happen |
| Base32Format.DataValuesOfEncode | src/LightTraveller.Helpers/EncodingHelpers.cs:345 | the data characters of an encoding look up to the five-bit groups of the bytes |
| Base32Format.BytesOfByteBits | src/LightTraveller.Helpers/EncodingHelpers.cs:341 | cutting the bits of the bytes, plus fewer than eight zero bits, into bytes gives the bytes, because the incomplete last byte is dropped |
| Base32Validation.ValidateBase32String | src/LightTraveller.Helpers/EncodingHelpers.cs:412-470 | the validator's checks in the source's order, with `ignoreCase` true by default. An accepted text has a positive length that is a multiple of 8, and no `=` in its first two positions. |
| Base32Validation.DotlessIRejected | src/LightTraveller.Helpers/EncodingHelpers.cs:439-447 | a text holding U+0131 is rejected in either case mode, because upper-casing leaves it unchanged and it is not a symbol |
| Base32Validation.ValidateIffWellFormed | src/LightTraveller.Helpers/EncodingHelpers.cs:412-470 | the validator accepts exactly the non-empty multiples of eight characters that are symbols (after folding) followed by 0, 1, 3, 4 or 6 `=` |
| Base32Validation.ValidFacts | src/LightTraveller.Helpers/EncodingHelpers.cs:412-470 | an accepted text meets each check: not blank, length a multiple of 8, first `=` not at 0 or 1, only symbols or `=`, nothing but `=` after the first `=`, span of the `=` in {0,2,3,5} |
| Base32Validation.ValidFromFacts | src/LightTraveller.Helpers/EncodingHelpers.cs:412-470 | a text that meets each check is accepted |
| Base32Validation.ValidIsWellFormed | src/LightTraveller.Helpers/EncodingHelpers.cs:449-467 | an accepted text is its data symbols followed by a legal run of padding |
| Base32Validation.WellFormedIsValid | src/LightTraveller.Helpers/EncodingHelpers.cs:412-470 | a text of the grammar passes every check |
| Base32Validation.PaddingAfterData | src/LightTraveller.Helpers/EncodingHelpers.cs:449-461 | when nothing after the first `=` is data, everything from the first `=` on is padding |
| Base32Validation.IllegalPaddingRejected | src/LightTraveller.Helpers/EncodingHelpers.cs:463-467 | a run of padding whose length is not 0, 1, 3, 4 or 6 is rejected |
| Base32Validation.LowerCaseRejected | src/LightTraveller.Helpers/EncodingHelpers.cs:441-446 | without `ignoreCase`, one lower-case letter anywhere makes the text invalid, so the decoder throws |
| Base32Validation.PlainTextHasNoForeignCharacter | src/LightTraveller.Helpers/EncodingHelpers.cs:439-447 | a text made of symbols and `=` has no foreign character in either case mode |
| Base32Validation.RejectsBadLength | src/LightTraveller.Helpers.UnitTests/EncodingTests.cs:63-64 | "" and "ABCD" are rejected |
| Base32Validation.RejectsEarlyPadding | src/LightTraveller.Helpers.UnitTests/EncodingTests.cs:65-71 | "=IE=====", "==ABCDEF" and "I=======" are rejected for their early padding |
| Base32Validation.RejectsForeignCharacter | src/LightTraveller.Helpers.UnitTests/EncodingTests.cs:67 | "I_======" is rejected |
| Base32Validation.RejectsDataAfterPadding | src/LightTraveller.Helpers.UnitTests/EncodingTests.cs:68 | "IE====A=" is rejected, so decoding it throws `ArgumentException` |
| Base32Validation.RejectsTwoPaddingCharacters | src/LightTraveller.Helpers.UnitTests/EncodingTests.cs:69 | "IFBEGR==" is rejected |
| Base32Validation.RejectsFivePaddingCharacters | src/LightTraveller.Helpers.UnitTests/EncodingTests.cs:70 | "IFB=====" is rejected |
| Base32Validation.DataLength | src/LightTraveller.Helpers/EncodingHelpers.cs:339-340 | the data part holds no `=` and is followed by `=` or ends the text |
| Base32Alphabet.AlphabetIsTable | src/LightTraveller.Helpers/EncodingHelpers.cs:34-40 | the table has 32 entries, `A`-`Z` and then `2`-`7` |
| Base32Alphabet.SymbolValue | src/LightTraveller.Helpers/EncodingHelpers.cs:345 | the lookup gives -1 or a value below 32 |
| Base32Alphabet.SymbolValueOf | src/LightTraveller.Helpers/EncodingHelpers.cs:345 | looking up the symbol of v gives v back: the table has no repeated symbol |
| Base32Alphabet.IsSymbolRange | src/LightTraveller.Helpers/EncodingHelpers.cs:443 | a character is in the table exactly when it is an upper-case ASCII letter or a digit from 2 to 7 |
| Base32Alphabet.FoldFixes | src/LightTraveller.Helpers/EncodingHelpers.cs:441 | upper-casing leaves symbols alone, and turns only `=` into `=` |
| Base32Alphabet.FoldedSymbolIsVisible | src/LightTraveller.Helpers/EncodingHelpers.cs:414-415 | a character that folds to a symbol is neither `=` nor white space |
| Base32Vectors.EncodeIsBlocksText | src/LightTraveller.Helpers/EncodingHelpers.cs:42-95 | the encoding is the block-by-block text of the byte-wise shift and mask formulas |
| Base32Vectors.FieldOfValue | src/LightTraveller.Helpers/EncodingHelpers.cs:57-64 | the field at shift 35 - 5k of a block's value is the byte-wise formula for field k |
| Base32Vectors.VectorA | src/LightTraveller.Helpers.UnitTests/EncodingTests.cs:24 | "A" encodes to "IE======" |
| Base32Vectors.VectorAB | src/LightTraveller.Helpers.UnitTests/EncodingTests.cs:25 | "AB" encodes to "IFBA====" |
| Base32Vectors.VectorABC | src/LightTraveller.Helpers.UnitTests/EncodingTests.cs:26 | "ABC" encodes to "IFBEG===" |
| Base32Vectors.VectorABCD | src/LightTraveller.Helpers.UnitTests/EncodingTests.cs:27 | "ABCD" encodes to "IFBEGRA=" |
| Base32Vectors.VectorABCDE | src/LightTraveller.Helpers.UnitTests/EncodingTests.cs:28 | "ABCDE" encodes to "IFBEGRCF" |
| Base32Vectors.LongVector | src/LightTraveller.Helpers.UnitTests/EncodingTests.cs:29-35 | "ABCDE.01234_FGHIJ-56789" encodes to "IFBEGRCFFYYDCMRTGRPUMR2IJFFC2NJWG44DS===" |
| Base32Vectors.LongVectorDecodes | src/LightTraveller.Helpers.UnitTests/EncodingTests.cs:52-59 | that text passes the validator and decodes to those 23 bytes, in either case mode |
| Base32Vectors.DecodeNotCanonical | src/LightTraveller.Helpers/EncodingHelpers.cs:343-376 | "IF======" is valid and decodes to "A", whose text is "IE======". The decoder drops the leftover low bits without checking them, so decoding and then encoding does not give every valid text back. |
| Int32Overflow.SegmentsAsWritten | src/LightTraveller.Helpers/EncodingHelpers.cs:27-28 | `segments` computed in 32-bit `int` lies between -429496729 and 429496730, and is negative once the wrapped `bits` is -10 or below |
| Int32Overflow.SegmentsAgree | src/LightTraveller.Helpers/EncodingHelpers.cs:27-28 | below 2^28 bytes, the 32-bit `segments` equals the number of data symbols |
| Int32Overflow.SegmentsWrap | src/LightTraveller.Helpers/EncodingHelpers.cs:27-28 | from 2^28 bytes on, the 32-bit `segments` is at most the character count of the full blocks, so a partial last block loses its data symbols |
| Int32Overflow.SegmentsCounterexample | src/LightTraveller.Helpers/EncodingHelpers.cs:27-28 | for 2^28 + 1 bytes, `segments` is -429496728 where 429496732 data symbols are needed |
| Int32Overflow.OutputLengthAsWritten | src/LightTraveller.Helpers/EncodingHelpers.cs:341 | the 32-bit output length lies between -268435456 and 268435455, and is negative exactly when the wrapped `inputLength * 5` is -8 or below |
| Int32Overflow.OutputLengthAgrees | src/LightTraveller.Helpers/EncodingHelpers.cs:341 | while d * 5 fits in an `int`, the 32-bit output length is d * 5 / 8 |
| Int32Overflow.OutputLengthCounterexamples | src/LightTraveller.Helpers/EncodingHelpers.cs:341 | for two valid texts of all 'A', the 32-bit output length is negative (-268435452), or is 3 instead of 536870915 |
| NumberExtensions.InRange | src/LightTraveller.Helpers/NumberExtensions.cs:24 | true exactly when the start's value is at most the value and the value is below the end's value |
| NumberExtensions.InInt | src/LightTraveller.Helpers/NumberExtensions.cs:33 | true exactly when the value lies between the two bounds, both included |
| NumberExtensions.InLong | src/LightTraveller.Helpers/NumberExtensions.cs:42 | true exactly when the value lies between the two bounds, both included |
| NumberExtensions.InRangeIsInclusiveBelowEnd | src/LightTraveller.Helpers/NumberExtensions.cs:24-33 | the half-open range a..b is the inclusive one from a to b - 1. a..a is empty, while the inclusive range from a to a holds a. |
| NumberExtensions.InIntIsInLong | src/LightTraveller.Helpers/NumberExtensions.cs:33-42 | the `int` and `long` overloads agree on `int` arguments |
| NumberExtensions.InVectors | src/LightTraveller.Helpers.UnitTests/NumberExtensionTests.cs:5-79 | 1 and 5 are in `1..10` and in `[1, 10]`. 10 is only in `[1, 10]`. 0 and 11 are in neither. |
| NumberExtensions.Base64CharsIsTable | src/LightTraveller.Helpers/NumberExtensions.cs:7-16 | the default table has 64 entries: `0`-`9`, `A`-`Z`, `a`-`z`, `+`, `/` |
| NumberExtensions.Base64CharsDistinct | src/LightTraveller.Helpers/NumberExtensions.cs:7-16 | no symbol repeats in the default table |
| NumberExtensions.SymbolsOf | src/LightTraveller.Helpers/NumberExtensions.cs:224-225 | an empty symbol list is replaced by the default table, and any other is used as given |
| NumberExtensions.ToBaseN | src/LightTraveller.Helpers/NumberExtensions.cs:220-257 | the method returns or throws exactly what `BaseN` says, for a null, an empty or a given symbol array |
| NumberExtensions.WriteDigits | src/LightTraveller.Helpers/NumberExtensions.cs:233-256 | the buffer loop and the reversal spell `Digits` of a non-negative value. A negative value gives the first symbol when its first remainder is 0, and `IndexOutOfRangeException` otherwise. |
| NumberExtensions.DigitPass | src/LightTraveller.Helpers/NumberExtensions.cs:238-243 | one pass of the do/while loop keeps the buffer invariant and strictly decreases a positive value. It fails exactly on a negative remainder, and stops with all the digits. |
| NumberExtensions.PushDigit | src/LightTraveller.Helpers/NumberExtensions.cs:240 | `buffer[offset++] = symbol` extends the reversed spelling by one digit |
| NumberExtensions.ReverseText | src/LightTraveller.Helpers/NumberExtensions.cs:245-252 | reversing the written prefix and copying it out gives the digits' spelling, most significant first |
| NumberExtensions.ReversePrefix | src/LightTraveller.Helpers/NumberExtensions.cs:245 | the first n characters are reversed in place, and the rest of the buffer is unchanged |
| NumberExtensions.DigitStep | src/LightTraveller.Helpers/NumberExtensions.cs:240-241 | C#'s `%` and `/` on the signed value: a digit below the base and the next value for a non-negative value, a non-positive remainder for a negative one |
| NumberExtensions.Digits | src/LightTraveller.Helpers/NumberExtensions.cs:238-243 | the digits are not empty, each is below the base, 0 has the single digit 0, and a positive value has no leading 0 |
| NumberExtensions.DigitsRoundTrip | src/LightTraveller.Helpers/NumberExtensions.cs:238-243 | reading the digits back, most significant first, gives the value |
| NumberExtensions.DigitsCanonical | src/LightTraveller.Helpers/NumberExtensions.cs:238-243 | a digit sequence without a leading zero is the `Digits` of its own value, so `Digits` is the only canonical numeral |
| NumberExtensions.DigitsLength | src/LightTraveller.Helpers/NumberExtensions.cs:230-235 | a value below 2^k has at most k digits in any base, so 63 fit in the 64-character buffer |
| NumberExtensions.ReadSpelling | src/LightTraveller.Helpers/NumberExtensions.cs:240 | with distinct symbols, looking each character up in the table gives the digits back |
| NumberExtensions.BaseNErrors | src/LightTraveller.Helpers/NumberExtensions.cs:222-228 | `ArgumentOutOfRangeException` exactly for a base outside 2..64. Then `NullReferenceException` exactly for a null array, then `Exception` exactly when the base exceeds the symbol count. A non-negative value past these guards gives a result. |
| NumberExtensions.BaseNShape | src/LightTraveller.Helpers/NumberExtensions.cs:233-243 | for a non-negative value the text is 1 to 64 characters of the first `targetBase` symbols. It is the first symbol alone for 0, and does not start with the first symbol for a positive value. |
| NumberExtensions.BaseNRoundTrip | src/LightTraveller.Helpers/NumberExtensions.cs:238-245 | with distinct symbols, reading the text back in the base gives the value |
| NumberExtensions.BaseNVectors | src/LightTraveller.Helpers.UnitTests/NumberExtensionTests.cs:136-143 | 1000 gives "1111101000", "1750", "3E8" and "Fe" in bases 2, 8, 16 and 64 |
| NumberExtensions.BaseNEdgeVectors | src/LightTraveller.Helpers/NumberExtensions.cs:222-243 | bases 1 and 65 throw `ArgumentOutOfRangeException`, as the tests at src/LightTraveller.Helpers.UnitTests/NumberExtensionTests.cs:145-150 expect. -10 in base 2 gives "0", -9 throws `IndexOutOfRangeException`, and a base above the symbol count throws. |
| PagingExtensions.GetPageCountLong | src/LightTraveller.Helpers/PagingExtensions.cs:13-22 | `ArgumentException` for a page size that is not positive, and 0 for no records. Otherwise it is the r with (r - 1) * pageSize < total <= r * pageSize and 0 < r <= total, so `pages + 1` cannot overflow. |
| PagingExtensions.GetPageCountInt | src/LightTraveller.Helpers/PagingExtensions.cs:30-39 | the same three cases for the `int` overload |
| PagingExtensions.CeilingBounds | src/LightTraveller.Helpers/PagingExtensions.cs:20-21 | the quotient, plus one when there is a remainder, is the ceiling of the division, and lies between the quotient and the total |
| PagingExtensions.GetPageCountIsCeiling | src/LightTraveller.Helpers/PagingExtensions.cs:20-21 | for positive arguments, both overloads return the ceiling of totalRecords / pageSize |
| PagingExtensions.OverloadsAgree | src/LightTraveller.Helpers/PagingExtensions.cs:13-39 | the `int` and `long` overloads fail together, with the same exception, and otherwise return the same count on `int` arguments |
| PagingExtensions.GetPageCountVectors | src/LightTraveller.Helpers.UnitTests/PagingExtensionTests.cs:5-38 | page sizes 0 and -5 throw `ArgumentException`. 0 records give 0, 100 records of 10 give 10, and 101 give 11. |
| DotNet.Rem | src/LightTraveller.Helpers/NumberExtensions.cs:240 | C#'s `%`: dividend = divisor * quotient + remainder. The remainder takes the dividend's sign and is smaller than the divisor in size. |
| DotNet.Div | src/LightTraveller.Helpers/NumberExtensions.cs:241 | C#'s `/`: for a non-negative dividend and a positive divisor, the ordinary quotient. For negative operands, `DotNet.Rem`'s contract makes it the quotient rounded toward zero. |
| DotNet.Min | src/LightTraveller.Helpers/EncodingHelpers.cs:353 | `Math.Min`: one of its two arguments, and not above either |
| DotNet.ToUpperInvariant | src/LightTraveller.Helpers/EncodingHelpers.cs:441 | the result is an upper-case ASCII letter exactly for an upper- or lower-case ASCII letter or U+017F. A lower-case letter moves down by 32, and every other character, U+0131 included, is unchanged. |
| DotNet.IsBlank | src/LightTraveller.Helpers/EncodingHelpers.cs:414-415 | the empty text is blank, and a text holding a letter, a digit or `=` is not |
| DotNet.IndexOf | src/LightTraveller.Helpers/EncodingHelpers.cs:422 | the first position of the character, or -1 exactly when it does not occur |
| DotNet.LastIndexOf | src/LightTraveller.Helpers/EncodingHelpers.cs:464 | the last position of the character, or -1 exactly when it does not occur |
| DotNet.Wrap32 | src/LightTraveller.Helpers/EncodingHelpers.cs:27 | the 32-bit value congruent to x modulo 2^32, equal to x when x fits |

## Left out

- Null strings: a Dafny string is a value, so the null `input` of `ValidateBase32String` and `FromBase32String` is not modelled. A null `byte[]` and a null symbol array are modelled, as `array?`.
- `ToUpperInvariant`: `char.ToUpperInvariant` is modelled through the mappings whose result is ASCII only: `a`-`z` and U+017F (to 'S'). The dotless i U+0131 is its own upper case in the invariant culture, and all other characters are left as they are. The full Unicode case tables are not modelled. No other mapping produces a symbol or `=`, so the validator and the decoder see the same characters either way.
- `IsBlank`: `string.IsNullOrWhiteSpace` (the library's `Empty`) is modelled by the white-space characters of the Unicode database that .NET uses.
- Guards: `Guard.NullOrEmpty`, `Guard.OutOfRange` and `Guard.ZeroOrNegative` come from a library that is not part of this model. Only which exception each one throws is modelled, not its message or parameter name.
- Buffers: `string.Create`, its callback, the `stackalloc` spans and the `unsafe`/`fixed` string construction in `ToBaseN` are modelled as arrays and sequences.
- `ToBaseN` symbols: a call with no symbols passes an empty `params` array. An explicit `null` array is modelled as throwing `NullReferenceException` at its `.Length`.
- EncodingHelpers.ToBase32String: assumes 64-bit lengths and does not wrap `bits` at 2^31. The wrap-around is proved on its own in `Int32Overflow` (see Findings).
- EncodingHelpers.FromBase32String: does not wrap `inputLength * 5` at 2^31, for the same reason.
- Round trip from text: a text that decodes and then encodes back to itself is not claimed, because it does not hold. `Base32Vectors.DecodeNotCanonical` gives the counterexample.
- Dead code: the commented-out `ToBase32OI2` and the older `FromBase32String` in `EncodingHelpers.cs` are not compiled and are not modelled.
- Exception messages: messages and the character code in the decoder's `InvalidOperationException` are not modelled. That throw is proved unreachable.
- Other overloads: the `float`, `double` and `decimal` overloads of `In` and the `TimeSpan` helpers of `NumberExtensions` work on floating point and time types.
- `Range` ends: `In(int, Range)` reads only `Start.Value` and `End.Value`. An end counted from the end (`^n`) is modelled as that behaviour does it, with `fromEnd` ignored.
- Other helper classes: the other classes of the library (strings, enumerables, enums, expression trees, cancellation tokens) are not part of this model.

## Findings

| source | as written | input that shows it | evidently intended | confidence | as-written member | corrected member |
|---|---|---|---|---|---|---|
| src/LightTraveller.Helpers/EncodingHelpers.cs:27-28 | `bits = bytes.Length * 8` is computed in 32-bit `int` and wraps for 2^28 bytes or more. `segments` then falls below the position of the last block, and its data characters are written as `=`. | an array of 2^28 + 1 bytes: `segments` = -429496728 | `segments` = ceil(8n / 5), the number of data symbols | medium: not executed; arrays this large are legal in .NET | Int32Overflow.SegmentsCounterexample | EncodingHelpers.ToBase32String |
| src/LightTraveller.Helpers/EncodingHelpers.cs:341 | `inputLength * 5 / 8` is computed in 32-bit `int` and wraps for 429496730 data symbols or more | a valid text of 429496736 'A': length -268435452, so `new byte[...]` throws. For 858993464 'A' the length is 3 instead of 536870915. | the output length d * 5 / 8 | medium: not executed; strings this long are legal in .NET | Int32Overflow.OutputLengthCounterexamples | EncodingHelpers.FromBase32String |
