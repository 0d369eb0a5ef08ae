/** Known encodings of RFC 4648 Base32, worked out on the reference format. */
module Base32Vectors {
  import opened DotNet
  import opened Bits
  import opened Base32Alphabet
  import opened Base32Validation
  import opened Base32Format
  import opened Base32Steps

  /** `x >> k` is division by 2^k. */
  lemma {:induction false} ShrIsDiv(x: nat, k: nat)
    ensures Shr(x, k) == x / Pow2(k)
  {
    if k > 0 {
      ShrIsDiv(x / 2, k - 1);
      HalvePow2(x, k);
    }
  }

  /** The field of five bits at a shift, as arithmetic. */
  lemma QuintetIsDiv(v: nat, shift: nat)
    ensures Quintet(v, shift) == v / Pow2(shift) % 32
  {
    ShrIsDiv(v, shift);
    LowIsMod(Shr(v, shift), 5);
    assert Pow2(5) == 32;
  }

  lemma Pow2Shifts()
    ensures Pow2(0) == 1 && Pow2(5) == 32 && Pow2(10) == 1024 && Pow2(15) == 32768
    ensures Pow2(20) == 1048576 && Pow2(25) == 33554432 && Pow2(30) == 1073741824
    ensures Pow2(35) == 34359738368
  {
  }

  /** The symbol value of character k of a block, written with the byte-wise shifts and masks
      of section 6 of RFC 4648: the five bits that start at bit 5 * k of the five bytes. */
  function Field(blk: seq<byte>, k: nat): (q: nat)
    requires |blk| == 5 && k < 8
    ensures q < 32
  {
    match k
    case 0 => blk[0] / 8
    case 1 => blk[0] % 8 * 4 + blk[1] / 64
    case 2 => blk[1] % 64 / 2
    case 3 => blk[1] % 2 * 16 + blk[2] / 16
    case 4 => blk[2] % 16 * 2 + blk[3] / 128
    case 5 => blk[3] % 128 / 4
    case 6 => blk[3] % 4 * 8 + blk[4] / 32
    case 7 => blk[4] % 32
  }

  /** Reading a five-bit field once the value is split at the field's low end. */
  lemma FieldOfSplit(v: nat, d: nat, high: nat, low: nat, top: nat, q: nat)
    requires 0 <= low < d && v == high * d + low
    requires q < 32 && high == 32 * top + q
    ensures v / d % 32 == q
  {
    DivModUnique(v, d, high, low);
    DivModUnique(high, 32, top, q);
  }

  /** The byte-wise formulas agree with the 40-bit block value the encoder shifts. */
  lemma FieldIsQuintet(blk: seq<byte>, k: nat)
    requires |blk| == 5 && k < 8
    ensures Quintet(BytesValue(blk), 35 - 5 * k) == Field(blk, k)
  {
    FiveBytes(blk);
    QuintetIsDiv(BytesValue(blk), 35 - 5 * k);
    FieldOfValue(blk, k, BytesValue(blk));
  }

  /** `FieldIsQuintet` on the value written out. */
  lemma FieldOfValue(blk: seq<byte>, k: nat, v: nat)
    requires |blk| == 5 && k < 8
    requires v == 4294967296 * (blk[0] as nat) + 16777216 * (blk[1] as nat) + 65536 * (blk[2] as nat) + 256 * (blk[3] as nat) + blk[4]
    ensures v / Pow2(35 - 5 * k) % 32 == Field(blk, k)
  {
    Pow2Shifts();
    var b0: nat, b1: nat, b2: nat, b3: nat, b4: nat := blk[0], blk[1], blk[2], blk[3], blk[4];
    match k
    case 0 =>
      var h, l := b0 / 8, b0 % 8;
      FieldOfSplit(v, 34359738368, h, l * 4294967296 + 16777216 * b1 + 65536 * b2 + 256 * b3 + b4, 0, h);
    case 1 =>
      var h0, l0, h1, l1 := b0 / 8, b0 % 8, b1 / 64, b1 % 64;
      FieldOfSplit(v, 1073741824, 4 * b0 + h1, l1 * 16777216 + 65536 * b2 + 256 * b3 + b4, h0, 4 * l0 + h1);
    case 2 =>
      var a, r := b1 / 64, b1 % 64;
      var q, l := r / 2, r % 2;
      FieldOfSplit(v, 33554432, 128 * b0 + 32 * a + q, l * 16777216 + 65536 * b2 + 256 * b3 + b4, 4 * b0 + a, q);
    case 3 =>
      var l1, h2, l2 := b1 % 2, b2 / 16, b2 % 16;
      FieldOfSplit(v, 1048576, 4096 * b0 + 16 * b1 + h2, l2 * 65536 + 256 * b3 + b4, 128 * b0 + b1 / 2, 16 * l1 + h2);
    case 4 =>
      var l2, h3, l3 := b2 % 16, b3 / 128, b3 % 128;
      FieldOfSplit(v, 32768, 131072 * b0 + 512 * b1 + 2 * b2 + h3, l3 * 256 + b4,
                   4096 * b0 + 16 * b1 + b2 / 16, 2 * l2 + h3);
    case 5 =>
      var a, r := b3 / 128, b3 % 128;
      var q, l := r / 4, r % 4;
      FieldOfSplit(v, 1024, 4194304 * b0 + 16384 * b1 + 64 * b2 + 32 * a + q, l * 256 + b4,
                   131072 * b0 + 512 * b1 + 2 * b2 + a, q);
    case 6 =>
      var l3, h4, l4 := b3 % 4, b4 / 32, b4 % 32;
      FieldOfSplit(v, 32, 134217728 * b0 + 524288 * b1 + 2048 * b2 + 8 * b3 + h4, l4,
                   4194304 * b0 + 16384 * b1 + 64 * b2 + b3 / 4, 8 * l3 + h4);
    case 7 =>
      var h4, l4 := b4 / 32, b4 % 32;
      FieldOfSplit(v, 1, v, 0, 134217728 * b0 + 524288 * b1 + 2048 * b2 + 8 * b3 + h4, l4);
  }

  /** Character k of text block i is the padding character or the symbol of field k of
      block i, computed byte by byte. */
  lemma EncodeField(b: seq<byte>, i: nat, k: nat)
    requires i < BlockCount(|b|) && k < 8
    ensures 8 * i + k < |Encode(b)|
    ensures Encode(b)[8 * i + k]
         == if 8 * i + k < DataSymbolCount(|b|) then Alphabet[Field(Block(b, i), k)] else PaddingChar
  {
    EncodeAt(b, i, k);
    FieldIsQuintet(Block(b, i), k);
  }

  /** Character k of a text block whose first m characters are data symbols. */
  function BlockChar(blk: seq<byte>, k: nat, m: int): char
    requires |blk| == 5 && k < 8
  {
    if k < m then TableEntry(Field(blk, k)) else PaddingChar
  }

  /** The first n characters of a block, by the byte-wise formulas. */
  function BlockText(blk: seq<byte>, m: int, n: nat): (t: string)
    requires |blk| == 5 && n <= 8
    ensures |t| == n
  {
    if n == 0 then [] else BlockText(blk, m, n - 1) + [BlockChar(blk, n - 1, m)]
  }

  lemma {:induction false} BlockTextAt(blk: seq<byte>, m: int, n: nat, k: nat)
    requires |blk| == 5 && k < n <= 8
    ensures BlockText(blk, m, n)[k] == BlockChar(blk, k, m)
  {
    if k < n - 1 {
      BlockTextAt(blk, m, n - 1, k);
    }
  }

  /** The text of the first c blocks of the bytes, block by block: section 6 of RFC 4648
      written as its byte-wise shifts and masks, independent of the bit-string definition. */
  function BlocksText(b: seq<byte>, c: nat): (t: string)
    ensures |t| == 8 * c
  {
    if c == 0 then [] else BlocksText(b, c - 1) + BlockText(Block(b, c - 1), DataSymbolCount(|b|) - 8 * (c - 1), 8)
  }

  /** The encoding is the block-by-block text of RFC 4648. */
  lemma EncodeIsBlocksText(b: seq<byte>)
    ensures Encode(b) == BlocksText(b, BlockCount(|b|))
  {
    EncodePrefix(b, BlockCount(|b|));
  }

  lemma {:induction false} EncodePrefix(b: seq<byte>, c: nat)
    requires c <= BlockCount(|b|)
    ensures 8 * c <= |Encode(b)| && Encode(b)[..8 * c] == BlocksText(b, c)
  {
    if c > 0 {
      var e, i := Encode(b), c - 1;
      EncodePrefix(b, i);
      var t := BlockText(Block(b, i), DataSymbolCount(|b|) - 8 * i, 8);
      BlocksTextSnoc(b, i, t);
      EncodeBlock(b, i, e, t);
      assert e[..8 * c] == e[..8 * i] + e[8 * i..8 * c];
    }
  }

  lemma BlocksTextSnoc(b: seq<byte>, c: nat, t: string)
    requires t == BlockText(Block(b, c), DataSymbolCount(|b|) - 8 * c, 8)
    ensures BlocksText(b, c + 1) == BlocksText(b, c) + t
  {
  }

  /** Text block i of the encoding is the block's text. */
  lemma EncodeBlock(b: seq<byte>, i: nat, e: string, t: string)
    requires i < BlockCount(|b|) && e == Encode(b)
    requires t == BlockText(Block(b, i), DataSymbolCount(|b|) - 8 * i, 8)
    ensures 8 * i + 8 <= |e| && e[8 * i..8 * i + 8] == t
  {
    AlphabetIsTable();
    forall k | 0 <= k < 8
      ensures e[8 * i + k] == t[k]
    {
      EncodeField(b, i, k);
      BlockTextAt(Block(b, i), DataSymbolCount(|b|) - 8 * i, 8, k);
    }
  }

  /** The text of at most five bytes is the text of their one block. */
  lemma EncodeOneBlock(b: seq<byte>, t: string)
    requires 0 < |b| <= 5
    requires t == BlockText(Block(b, 0), DataSymbolCount(|b|), 8)
    ensures Encode(b) == t
  {
    EncodeIsBlocksText(b);
    assert BlocksText(b, 1) == BlocksText(b, 0) + t;
  }

  /** The five-block text of 21 to 25 bytes, given block by block: four full blocks and a
      last one of one to five bytes, which `q4` fills with zeros. */
  lemma EncodeFiveBlocks(p0: seq<byte>, p1: seq<byte>, p2: seq<byte>, p3: seq<byte>, p4: seq<byte>, q4: seq<byte>,
                         t0: string, t1: string, t2: string, t3: string, t4: string)
    requires |p0| == |p1| == |p2| == |p3| == 5 && 0 < |p4| <= 5
    requires |q4| == 5 && q4[..|p4|] == p4 && forall j | |p4| <= j < 5 :: q4[j] == 0
    requires t0 == BlockText(p0, DataSymbolCount(20 + |p4|), 8)
    requires t1 == BlockText(p1, DataSymbolCount(20 + |p4|) - 8, 8)
    requires t2 == BlockText(p2, DataSymbolCount(20 + |p4|) - 16, 8)
    requires t3 == BlockText(p3, DataSymbolCount(20 + |p4|) - 24, 8)
    requires t4 == BlockText(q4, DataSymbolCount(20 + |p4|) - 32, 8)
    ensures Encode(p0 + p1 + p2 + p3 + p4) == t0 + t1 + t2 + t3 + t4
  {
    var b := p0 + p1 + p2 + p3 + p4;
    BlocksOfParts(p0, p1, p2, p3, p4, q4);
    assert |b| == 20 + |p4| && BlockCount(|b|) == 5;
    EncodeIsBlocksText(b);
    BlocksTextSnoc(b, 0, t0);
    BlocksTextSnoc(b, 1, t1);
    BlocksTextSnoc(b, 2, t2);
    BlocksTextSnoc(b, 3, t3);
    BlocksTextSnoc(b, 4, t4);
    assert [] + t0 == t0;
  }

  /** The blocks of 21 to 25 bytes given block by block. */
  lemma BlocksOfParts(p0: seq<byte>, p1: seq<byte>, p2: seq<byte>, p3: seq<byte>, p4: seq<byte>, q4: seq<byte>)
    requires |p0| == |p1| == |p2| == |p3| == 5 && 0 < |p4| <= 5
    requires |q4| == 5 && q4[..|p4|] == p4 && forall j | |p4| <= j < 5 :: q4[j] == 0
    ensures var b := p0 + p1 + p2 + p3 + p4;
      Block(b, 0) == p0 && Block(b, 1) == p1 && Block(b, 2) == p2 && Block(b, 3) == p3 && Block(b, 4) == q4
  {
    var b := p0 + p1 + p2 + p3 + p4;
    assert b[..5] == p0 && b[5..10] == p1 && b[10..15] == p2 && b[15..20] == p3;
    forall j | 0 <= j < 5
      ensures Block(b, 4)[j] == q4[j]
    {
      if j < |p4| {
        assert b[20 + j] == p4[j] == q4[j];
      }
    }
  }

  lemma BlockTextA()
    ensures BlockText([65, 0, 0, 0, 0], 2, 8) == "IE======"
  {
  }

  /** The encoding of "A" in ASCII. */
  lemma VectorA()
    ensures Encode([65]) == "IE======"
  {
    assert Block([65], 0) == [65, 0, 0, 0, 0];
    BlockTextA();
    EncodeOneBlock([65], "IE======");
  }

  lemma BlockTextAB()
    ensures BlockText([65, 66, 0, 0, 0], 4, 8) == "IFBA===="
  {
  }

  /** The encoding of "AB" in ASCII. */
  lemma VectorAB()
    ensures Encode([65, 66]) == "IFBA===="
  {
    assert Block([65, 66], 0) == [65, 66, 0, 0, 0];
    BlockTextAB();
    EncodeOneBlock([65, 66], "IFBA====");
  }

  lemma BlockTextABC()
    ensures BlockText([65, 66, 67, 0, 0], 5, 8) == "IFBEG==="
  {
  }

  /** The encoding of "ABC" in ASCII. */
  lemma VectorABC()
    ensures Encode([65, 66, 67]) == "IFBEG==="
  {
    assert Block([65, 66, 67], 0) == [65, 66, 67, 0, 0];
    BlockTextABC();
    EncodeOneBlock([65, 66, 67], "IFBEG===");
  }

  /** The eight characters of a text block. */
  lemma BlockTextEight(blk: seq<byte>, m: int)
    requires |blk| == 5
    ensures BlockText(blk, m, 8)
         == [BlockChar(blk, 0, m), BlockChar(blk, 1, m), BlockChar(blk, 2, m), BlockChar(blk, 3, m),
             BlockChar(blk, 4, m), BlockChar(blk, 5, m), BlockChar(blk, 6, m), BlockChar(blk, 7, m)]
  {
    forall k | 0 <= k < 8
      ensures BlockText(blk, m, 8)[k] == BlockChar(blk, k, m)
    {
      BlockTextAt(blk, m, 8, k);
    }
  }

  lemma BlockTextABCD()
    ensures BlockText([65, 66, 67, 68, 0], 7, 8) == "IFBEGRA="
  {
    var blk: seq<byte> := [65, 66, 67, 68, 0];
    BlockTextEight(blk, 7);
    assert BlockChar(blk, 0, 7) == 'I' && BlockChar(blk, 1, 7) == 'F';
    assert BlockChar(blk, 2, 7) == 'B' && BlockChar(blk, 3, 7) == 'E';
    assert BlockChar(blk, 4, 7) == 'G' && BlockChar(blk, 5, 7) == 'R';
    assert BlockChar(blk, 6, 7) == 'A' && BlockChar(blk, 7, 7) == '=';
  }

  /** The encoding of "ABCD" in ASCII. */
  lemma VectorABCD()
    ensures Encode([65, 66, 67, 68]) == "IFBEGRA="
  {
    assert Block([65, 66, 67, 68], 0) == [65, 66, 67, 68, 0];
    BlockTextABCD();
    EncodeOneBlock([65, 66, 67, 68], "IFBEGRA=");
  }

  lemma BlockTextABCDE()
    ensures BlockText([65, 66, 67, 68, 69], 8, 8) == "IFBEGRCF"
  {
  }

  /** The encoding of "ABCDE" in ASCII. */
  lemma VectorABCDE()
    ensures Encode([65, 66, 67, 68, 69]) == "IFBEGRCF"
  {
    assert Block([65, 66, 67, 68, 69], 0) == [65, 66, 67, 68, 69];
    BlockTextABCDE();
    EncodeOneBlock([65, 66, 67, 68, 69], "IFBEGRCF");
  }

  lemma LongBlockText0()
    ensures BlockText([65, 66, 67, 68, 69], 37, 8) == "IFBEGRCF"
  {
  }

  lemma LongBlockText1()
    ensures BlockText([46, 48, 49, 50, 51], 29, 8) == "FYYDCMRT"
  {
  }

  lemma LongBlockText2()
    ensures BlockText([52, 95, 70, 71, 72], 21, 8) == "GRPUMR2I"
  {
  }

  lemma LongBlockText3()
    ensures BlockText([73, 74, 45, 53, 54], 13, 8) == "JFFC2NJW"
  {
  }

  lemma LongBlockText4()
    ensures BlockText([55, 56, 57, 0, 0], 5, 8) == "G44DS==="
  {
  }

  /** The encoding of "ABCDE.01234_FGHIJ-56789" in ASCII, written block by block. */
  lemma LongVector()
    ensures Encode([65, 66, 67, 68, 69] + [46, 48, 49, 50, 51] + [52, 95, 70, 71, 72] + [73, 74, 45, 53, 54] + [55, 56, 57])
         == "IFBEGRCF" + "FYYDCMRT" + "GRPUMR2I" + "JFFC2NJW" + "G44DS==="
  {
    assert DataSymbolCount(23) == 37;
    LongBlockText0();
    LongBlockText1();
    LongBlockText2();
    LongBlockText3();
    LongBlockText4();
    EncodeFiveBlocks([65, 66, 67, 68, 69], [46, 48, 49, 50, 51], [52, 95, 70, 71, 72], [73, 74, 45, 53, 54], [55, 56, 57],
                     [55, 56, 57, 0, 0], "IFBEGRCF", "FYYDCMRT", "GRPUMR2I", "JFFC2NJW", "G44DS===");
  }

  /** A text of the shape "IF======". */
  predicate ShapeIF(s: string)
  {
    && |s| == 8 && s[0] == 'I' && s[1] == 'F'
    && forall i | 2 <= i < 8 :: s[i] == PaddingChar
  }

  /** The decoder's view of "IF======": six padding characters after two data symbols,
      'I' = 8 and 'F' = 5. */
  lemma ValuesIF(s: string, ignoreCase: bool)
    requires ShapeIF(s)
    ensures PaddedWith(s, ignoreCase, 6) && DataFolds(s, ignoreCase)
    ensures DataValues(s, ignoreCase) == [8, 5]
  {
    SymbolsIF();
    FoldFixes(ignoreCase, 'I');
    FoldFixes(ignoreCase, 'F');
    forall i | 0 <= i < |s| - 6
      ensures IsSymbol(Fold(ignoreCase, s[i]))
    {
      if i == 0 {
        assert Fold(ignoreCase, s[i]) == 'I';
      } else {
        assert i == 1 && Fold(ignoreCase, s[i]) == 'F';
      }
    }
    PaddedDataLength(s, ignoreCase, 6);
    var dv := DataValues(s, ignoreCase);
    assert dv[0] == 8 && dv[1] == 5;
    PairIs(dv, 8, 5);
  }

  lemma PairIs(x: seq<nat>, a: nat, b: nat)
    requires |x| == 2 && x[0] == a && x[1] == b
    ensures x == [a, b]
  {
  }

  lemma SymbolsIF()
    ensures SymbolValue('I') == 8 && SymbolValue('F') == 5
  {
    AlphabetIsTable();
    assert Alphabet[8] == TableEntry(8) == 'I' && Alphabet[5] == TableEntry(5) == 'F';
    SymbolValueOf(8);
    SymbolValueOf(5);
  }

  lemma BitsIF()
    ensures BitsValue(Unchunk([8, 5], 5), 0, 8) == 65
  {
  }

  /** A text "IF======" is valid and decodes to the byte 65, whose text is "IE======": the
      decoder drops the two low bits of the last symbol, so a text whose dropped bits are not
      zero does not come back from a round trip. */
  lemma DecodeNotCanonical(s: string, ignoreCase: bool)
    requires ShapeIF(s)
    ensures ValidateBase32String(s, ignoreCase)
    ensures Decode(s, ignoreCase) == [65]
    ensures Encode([65]) == "IE======" != s
  {
    ValuesIF(s, ignoreCase);
    WellFormedIsValid(s, ignoreCase, 6);
    DecodeIF(s, ignoreCase);
    VectorA();
    SecondOfIE();
  }

  lemma DecodeIF(s: string, ignoreCase: bool)
    requires ShapeIF(s)
    ensures DataFolds(s, ignoreCase) && Decode(s, ignoreCase) == [65]
  {
    ValuesIF(s, ignoreCase);
    BitsIF();
    DecodedByte(s, ignoreCase, 0);
  }

  lemma SecondOfIE()
    ensures "IE======"[1] == 'E'
  {
  }

  /** Decoding the text of "ABCDE.01234_FGHIJ-56789" gives its bytes back, in either case mode. */
  lemma LongVectorDecodes(ignoreCase: bool)
    ensures ValidateBase32String("IFBEGRCF" + "FYYDCMRT" + "GRPUMR2I" + "JFFC2NJW" + "G44DS===", ignoreCase)
    ensures Decode("IFBEGRCF" + "FYYDCMRT" + "GRPUMR2I" + "JFFC2NJW" + "G44DS===", ignoreCase)
         == [65, 66, 67, 68, 69] + [46, 48, 49, 50, 51] + [52, 95, 70, 71, 72] + [73, 74, 45, 53, 54] + [55, 56, 57]
  {
    var b: seq<byte> := [65, 66, 67, 68, 69] + [46, 48, 49, 50, 51] + [52, 95, 70, 71, 72] + [73, 74, 45, 53, 54] + [55, 56, 57];
    LongVector();
    EncodeValid(b, ignoreCase);
    DecodeEncode(b, ignoreCase);
  }
}
