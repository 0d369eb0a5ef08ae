/** The two lengths the conversion methods compute in C#'s 32-bit `int`, as written: the
    number of data symbols `segments` of the encoder (`bits = bytes.Length * 8`) and the
    output length of the decoder (`inputLength * 5 / 8`). Both products wrap around for
    inputs that .NET arrays and strings can hold; the methods of `EncodingHelpers` compute
    them without wrap-around, as the format requires. */
module Int32Overflow {
  import opened DotNet
  import opened Base32Alphabet
  import opened Base32Validation
  import opened Base32Format

  /** `segments` as the encoder computes it: `bits / 5 + (bits % 5 != 0 ? 1 : 0)` with
      `bits = bytes.Length * 8` in 32-bit arithmetic. Whatever the length, the result lies
      within a fifth of the `int` range, and it is negative whenever the wrapped `bits` is
      -10 or below. */
  function SegmentsAsWritten(n: nat): (segments: int)
    ensures -429496729 <= segments <= 429496730
    ensures Wrap32(n * 8) <= -10 ==> segments < 0
  {
    var bits := Wrap32(n * 8);
    Div(bits, 5) + (if Rem(bits, 5) != 0 then 1 else 0)
  }

  /** Below 2^28 bytes the product fits, and `segments` is the number of data symbols. */
  lemma SegmentsAgree(n: nat)
    requires n < 0x1000_0000
    ensures SegmentsAsWritten(n) == DataSymbolCount(n)
  {
    var bits := n * 8;
    assert Wrap32(bits) == bits;
    assert bits == 5 * (bits / 5) + bits % 5;
  }

  /** From 2^28 bytes on, `segments` falls to at most the number of characters of the full
      blocks: every character of the last, partial block is compared against it, fails, and
      is written as '=' although the first of them holds data bits. */
  lemma SegmentsWrap(n: nat)
    requires 0x1000_0000 <= n
    ensures SegmentsAsWritten(n) <= 8 * (n / 5)
    ensures n % 5 > 0 ==> 8 * (n / 5) < DataSymbolCount(n)
  {
    var bits := Wrap32(n * 8);
    var k := (n * 8 - bits) / Int32Modulus;
    assert n * 8 - bits == k * Int32Modulus;
    assert k >= 1;
    if bits >= 0 {
      assert bits <= n * 8 - Int32Modulus;
      assert 5 * (n / 5) + n % 5 == n;
    }
  }

  /** The smallest such input with a partial block, 2^28 + 1 bytes: `segments` is negative. */
  lemma SegmentsCounterexample()
    ensures 0x1000_0001 % 5 == 2
    ensures SegmentsAsWritten(0x1000_0001) == -429496728
    ensures DataSymbolCount(0x1000_0001) == 429496732 && 8 * (0x1000_0001 / 5) == 429496728
  {
    assert Wrap32(0x1000_0001 * 8) == -2147483640;
    assert Rem(-2147483640, 5) == 0;
  }

  /** The decoder's output length as written: `inputLength * 5 / 8` in 32-bit arithmetic. */
  function OutputLengthAsWritten(d: nat): (length: int)
    ensures -268435456 <= length <= 268435455
    ensures length < 0 <==> Wrap32(d * 5) <= -8
  {
    Div(Wrap32(d * 5), 8)
  }

  /** Up to 429496729 data symbols the product fits and the length is the decoded length. */
  lemma OutputLengthAgrees(d: nat)
    requires d * 5 < 0x8000_0000
    ensures OutputLengthAsWritten(d) == d * 5 / 8
  {
  }

  /** A text of n characters 'A': with n a multiple of 8 it has no padding and is valid. */
  function AllA(n: nat): (s: string)
    ensures |s| == n
  {
    seq(n, _ => 'A')
  }

  lemma AllAValid(n: nat, ignoreCase: bool)
    requires n > 0 && n % 8 == 0
    ensures ValidateBase32String(AllA(n), ignoreCase) && DataLength(AllA(n)) == n
  {
    var s := AllA(n);
    assert IsSymbol('A') && Fold(ignoreCase, 'A') == 'A';
    assert PaddedWith(s, ignoreCase, 0);
    WellFormedIsValid(s, ignoreCase, 0);
    PaddedDataLength(s, ignoreCase, 0);
  }

  /** Two valid texts the decoder mishandles: with 429496736 data symbols the length is
      negative and `new byte[...]` throws `OverflowException`; with 858993464 it is 3, and
      only the first three of the 536870915 bytes are decoded. */
  lemma OutputLengthCounterexamples(ignoreCase: bool)
    ensures ValidateBase32String(AllA(429496736), ignoreCase)
    ensures OutputLengthAsWritten(429496736) == -268435452
    ensures ValidateBase32String(AllA(858993464), ignoreCase)
    ensures OutputLengthAsWritten(858993464) == 3
    ensures DataLength(AllA(858993464)) * 5 / 8 == 536870915
  {
    AllAValid(429496736, ignoreCase);
    AllAValid(858993464, ignoreCase);
    assert Wrap32(429496736 * 5) == -2147483616;
    assert Wrap32(858993464 * 5) == 24;
  }
}
