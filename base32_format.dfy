/** The Base32 format of RFC 4648 (section 6) on the bit level, the reference the two
    conversion methods of `EncodingHelpers` are proved against: the bytes, read as one
    big-endian bit string, are cut into groups of five bits, each group names a symbol, and
    the text is padded with '=' to a multiple of eight characters. */
module Base32Format {
  import opened DotNet
  import opened Bits
  import opened Base32Alphabet
  import opened Base32Validation

  /** Number of blocks of five bytes begun by n bytes. */
  function BlockCount(n: nat): (c: nat)
    ensures n <= 5 * c < n + 5
  {
    n / 5 + (if n % 5 > 0 then 1 else 0)
  }

  /** Length of the text for n bytes: eight characters for every block of five bytes begun. */
  function EncodedLength(n: nat): (l: nat)
    ensures 8 * n <= 5 * l < 8 * n + 40
    ensures n == 0 <==> l == 0
  {
    8 * BlockCount(n)
  }

  /** Number of data symbols for n bytes: one per five bits begun. */
  function DataSymbolCount(n: nat): (m: nat)
    ensures 8 * n <= 5 * m < 8 * n + 5
    ensures m <= EncodedLength(n)
  {
    (8 * n + 4) / 5
  }

  /** How many padding characters end the text of n bytes. */
  lemma PaddingCount(n: nat)
    ensures n % 5 == 0 ==> EncodedLength(n) - DataSymbolCount(n) == 0
    ensures n % 5 == 1 ==> EncodedLength(n) - DataSymbolCount(n) == 6
    ensures n % 5 == 2 ==> EncodedLength(n) - DataSymbolCount(n) == 4
    ensures n % 5 == 3 ==> EncodedLength(n) - DataSymbolCount(n) == 3
    ensures n % 5 == 4 ==> EncodedLength(n) - DataSymbolCount(n) == 1
  {
    var q := n / 5;
    assert n == 5 * q + n % 5;
  }

  /** The bytes as one big-endian bit string. */
  function ByteBits(b: seq<byte>): (s: seq<bool>)
    ensures |s| == 8 * |b|
  {
    Unchunk(b, 8)
  }

  /** The bit string of the bytes, filled with zero bits to five bits for every character
      of the text. */
  function PaddedBits(b: seq<byte>): (s: seq<bool>)
    ensures |s| == 5 * EncodedLength(|b|)
  {
    ByteBits(b) + Zeros(5 * EncodedLength(|b|) - 8 * |b|)
  }

  /** The five-bit groups of the filled bit string, one for every character of the text. */
  function GroupValues(b: seq<byte>): (vs: seq<nat>)
    ensures |vs| == EncodedLength(|b|)
    ensures forall i | 0 <= i < |vs| :: vs[i] < 32
  {
    ChunksLength(PaddedBits(b), 5);
    Chunks(PaddedBits(b), 5)
  }

  /** The first l characters of a text with m data symbols for the groups vs: the symbol of
      each group before m, the padding character from m on. */
  function Text(vs: seq<nat>, m: nat, l: nat): (s: string)
    requires l <= |vs| && forall i | 0 <= i < |vs| :: vs[i] < 32
    ensures |s| == l
  {
    if l == 0 then [] else Text(vs, m, l - 1) + [if l - 1 < m then Alphabet[vs[l - 1]] else PaddingChar]
  }

  /** Character o of a text. */
  lemma {:induction false} TextAt(vs: seq<nat>, m: nat, l: nat, o: nat)
    requires l <= |vs| && forall i | 0 <= i < |vs| :: vs[i] < 32
    requires o < l
    ensures Text(vs, m, l)[o] == if o < m then Alphabet[vs[o]] else PaddingChar
  {
    if o < l - 1 {
      TextAt(vs, m, l - 1, o);
    }
  }

  /** The Base32 text of the bytes: a symbol for each group that holds data bits, then padding. */
  function Encode(b: seq<byte>): (s: string)
    ensures |s| == EncodedLength(|b|)
  {
    Text(GroupValues(b), DataSymbolCount(|b|), EncodedLength(|b|))
  }

  /** Character o of the text of b: the symbol of group o while o holds data bits, the
      padding character after. */
  lemma EncodeChar(b: seq<byte>, o: nat)
    requires o < EncodedLength(|b|)
    ensures Encode(b)[o] == if o < DataSymbolCount(|b|) then Alphabet[GroupValues(b)[o]] else PaddingChar
  {
    TextAt(GroupValues(b), DataSymbolCount(|b|), EncodedLength(|b|), o);
  }

  /** The data characters of the text all stand for symbols. */
  predicate DataFolds(s: string, ignoreCase: bool)
  {
    forall i | 0 <= i < DataLength(s) :: IsSymbol(Fold(ignoreCase, s[i]))
  }

  /** The values of the data characters. */
  function DataValues(s: string, ignoreCase: bool): (vs: seq<nat>)
    requires DataFolds(s, ignoreCase)
    ensures |vs| == DataLength(s)
    ensures forall i | 0 <= i < |vs| :: vs[i] < 32
  {
    seq(DataLength(s), i requires 0 <= i < DataLength(s) => SymbolValue(Fold(ignoreCase, s[i])) as nat)
  }

  /** The bytes a text stands for: its data bits cut into bytes, the last incomplete byte
      dropped. */
  function Decode(s: string, ignoreCase: bool): (b: seq<byte>)
    requires DataFolds(s, ignoreCase)
    ensures |b| == DataLength(s) * 5 / 8
  {
    var bits := Unchunk(DataValues(s, ignoreCase), 5);
    ChunksLength(bits, 8);
    Chunks(bits, 8)
  }

  /** The validator lets only texts through that the decoder can read. */
  lemma ValidDataFolds(s: string, ignoreCase: bool)
    requires ValidateBase32String(s, ignoreCase)
    ensures DataFolds(s, ignoreCase)
  {
    ValidIsWellFormed(s, ignoreCase);
  }

  /** The text of b is its data symbols followed by its padding. */
  lemma EncodePadded(b: seq<byte>, ignoreCase: bool)
    ensures PaddedWith(Encode(b), ignoreCase, EncodedLength(|b|) - DataSymbolCount(|b|))
  {
    var s := Encode(b);
    var vs := GroupValues(b);
    forall i | 0 <= i < DataSymbolCount(|b|)
      ensures IsSymbol(Fold(ignoreCase, s[i]))
    {
      EncodeChar(b, i);
      AlphabetSymbol(vs[i]);
      FoldFixes(ignoreCase, s[i]);
    }
    forall i | DataSymbolCount(|b|) <= i < |s|
      ensures s[i] == PaddingChar
    {
      EncodeChar(b, i);
    }
  }

  /** The text of a non-empty byte sequence passes the validator, and its data symbols
      end where the padding starts. */
  lemma EncodeValid(b: seq<byte>, ignoreCase: bool)
    requires |b| > 0
    ensures ValidateBase32String(Encode(b), ignoreCase)
    ensures DataLength(Encode(b)) == DataSymbolCount(|b|)
  {
    var p := EncodedLength(|b|) - DataSymbolCount(|b|);
    PaddingCount(|b|);
    EncodePadded(b, ignoreCase);
    WellFormedIsValid(Encode(b), ignoreCase, p);
    PaddedDataLength(Encode(b), ignoreCase, p);
  }

  /** The data characters of the text of b stand for its first groups. */
  lemma DataValuesOfEncode(b: seq<byte>, ignoreCase: bool)
    requires |b| > 0
    ensures DataFolds(Encode(b), ignoreCase)
    ensures DataValues(Encode(b), ignoreCase) == GroupValues(b)[..DataSymbolCount(|b|)]
  {
    var s := Encode(b);
    var vs := GroupValues(b);
    EncodePadded(b, ignoreCase);
    PaddedDataLength(s, ignoreCase, EncodedLength(|b|) - DataSymbolCount(|b|));
    var dv := DataValues(s, ignoreCase);
    forall i | 0 <= i < DataSymbolCount(|b|)
      ensures dv[i] == vs[i]
    {
      EncodeChar(b, i);
      AlphabetSymbol(vs[i]);
      FoldFixes(ignoreCase, s[i]);
      SymbolValueOf(vs[i]);
    }
  }

  /** The data groups cover the first 5 * m filled bits. */
  lemma DataGroupsArePrefix(b: seq<byte>, m: nat)
    requires m <= EncodedLength(|b|)
    ensures Unchunk(GroupValues(b)[..m], 5) == PaddedBits(b)[..5 * m]
  {
    GroupsArePadded(b);
    UnchunkPrefix(GroupValues(b), 5, m, 5 * m);
  }

  /** The groups, put back together, are the filled bits. */
  lemma GroupsArePadded(b: seq<byte>)
    ensures Unchunk(GroupValues(b), 5) == PaddedBits(b)
  {
    var P := PaddedBits(b);
    assert |P| % 5 == 0 by {
      DivModUnique(|P|, 5, EncodedLength(|b|), 0);
    }
    UnchunkOfChunks(P, 5);
  }

  /** Up to 5 * m, the filled bits are the bits of the bytes and zero bits. */
  lemma PaddedPrefix(b: seq<byte>, m: nat)
    requires 8 * |b| <= 5 * m <= 5 * EncodedLength(|b|)
    ensures PaddedBits(b)[..5 * m] == ByteBits(b) + Zeros(5 * m - 8 * |b|)
  {
    ZerosPrefix(ByteBits(b), 5 * EncodedLength(|b|) - 8 * |b|, 5 * m - 8 * |b|);
  }

  /** The bits of the data groups are the bits of the bytes and fewer than five zero bits. */
  lemma DataGroupBits(b: seq<byte>)
    ensures Unchunk(GroupValues(b)[..DataSymbolCount(|b|)], 5)
         == ByteBits(b) + Zeros(5 * DataSymbolCount(|b|) - 8 * |b|)
  {
    DataGroupsArePrefix(b, DataSymbolCount(|b|));
    PaddedPrefix(b, DataSymbolCount(|b|));
  }

  /** Cutting the bits of the bytes and a few more zero bits into bytes gives the bytes. */
  lemma BytesOfByteBits(b: seq<byte>, z: nat)
    requires z < 8
    ensures Chunks(ByteBits(b) + Zeros(z), 8) == b
  {
    ChunksAppend(ByteBits(b), Zeros(z), 8);
    ChunksOfUnchunk(b, 8);
  }

  /** Decoding the text of any byte sequence gives the bytes back, whatever the case mode. */
  lemma DecodeEncode(b: seq<byte>, ignoreCase: bool)
    ensures DataFolds(Encode(b), ignoreCase)
    ensures Decode(Encode(b), ignoreCase) == b
  {
    if |b| == 0 {
      assert Encode(b) == [];
    } else {
      DataValuesOfEncode(b, ignoreCase);
      DataGroupBits(b);
      BytesOfByteBits(b, 5 * DataSymbolCount(|b|) - 8 * |b|);
    }
  }

  /** The arithmetic of `DecodeShape`: d data symbols and a legal run of p padding characters
      make a text of the length that the d * 5 / 8 bytes they decode to encode to. */
  lemma ShapeArithmetic(d: nat, p: nat, k: nat)
    requires d + p == 8 * k && IsLegalPaddingCount(p) && d > 0
    ensures EncodedLength(d * 5 / 8) == 8 * k
    ensures DataSymbolCount(d * 5 / 8) == d
  {
    if p == 0 {
      assert d * 5 / 8 == 5 * k;
    } else if p == 1 {
      assert d * 5 / 8 == 5 * (k - 1) + 4;
    } else if p == 3 {
      assert d * 5 / 8 == 5 * (k - 1) + 3;
    } else if p == 4 {
      assert d * 5 / 8 == 5 * (k - 1) + 2;
    } else {
      assert d * 5 / 8 == 5 * (k - 1) + 1;
    }
  }

  /** Every text the validator accepts has the length and the padding of the text of the
      bytes it decodes to. */
  lemma DecodeShape(s: string, ignoreCase: bool)
    requires ValidateBase32String(s, ignoreCase)
    ensures DataFolds(s, ignoreCase)
    ensures EncodedLength(|Decode(s, ignoreCase)|) == |s|
    ensures DataSymbolCount(|Decode(s, ignoreCase)|) == DataLength(s)
  {
    ValidIsWellFormed(s, ignoreCase);
    ValidDataFolds(s, ignoreCase);
    var d := DataLength(s);
    ShapeArithmetic(d, |s| - d, |s| / 8);
  }

  /** Block i of the bytes: the five bytes from 5 * i on, zero where the bytes have run out. */
  function Block(b: seq<byte>, i: nat): (blk: seq<byte>)
    ensures |blk| == 5
    ensures 5 * i + 5 <= |b| ==> blk == b[5 * i..5 * i + 5]
  {
    seq(5, j requires 0 <= j < 5 => if 5 * i + j < |b| then b[5 * i + j] else 0)
  }

  /** The big-endian number of a byte string, most significant byte first. */
  function BytesValue(bs: seq<byte>): nat
  {
    if bs == [] then 0 else 256 * BytesValue(bs[..|bs| - 1]) + bs[|bs| - 1]
  }

  /** The number of a byte string is the number of its bits. */
  lemma {:induction false} BytesValueBits(bs: seq<byte>)
    ensures BytesValue(bs) == BitsToNat(Unchunk(bs, 8))
  {
    if bs != [] {
      var front, last := bs[..|bs| - 1], bs[|bs| - 1];
      assert bs == front + [last];
      BytesValueBits(front);
      assert last < Pow2(8);
      UnchunkSnoc(front, last, 8);
      Shl8(BitsToNat(Unchunk(front, 8)));
    }
  }

  /** Block i as a 40-bit big-endian number. */
  function BlockValue(b: seq<byte>, i: nat): nat
  {
    BytesValue(Block(b, i))
  }

  /** Bit r of byte t of block i sits at position 40 * i + 8 * t + r of the filled bits. */
  lemma PaddedBit(b: seq<byte>, i: nat, t: nat, r: nat)
    requires i < BlockCount(|b|) && t < 5 && r < 8
    ensures 40 * i + 8 * t + r < |PaddedBits(b)|
    ensures PaddedBits(b)[40 * i + 8 * t + r] == NatToBits(Block(b, i)[t], 8)[r]
  {
    var n := |b|;
    var q := 40 * i + 8 * t + r;
    if 5 * i + t < n {
      UnchunkBit(b, 8, 5 * i + t, r, 8 * (5 * i + t));
      assert PaddedBits(b)[q] == ByteBits(b)[q];
    } else {
      NatToBitsZero(8);
      assert PaddedBits(b)[q] == Zeros(5 * EncodedLength(n) - 8 * n)[q - 8 * n];
    }
  }

  /** The 40 filled bits of text block i are the bits of block i of the bytes. */
  lemma PaddedBlock(b: seq<byte>, i: nat)
    requires i < BlockCount(|b|)
    ensures 40 * i + 40 <= |PaddedBits(b)|
    ensures PaddedBits(b)[40 * i..40 * i + 40] == Unchunk(Block(b, i), 8)
  {
    var P := PaddedBits(b);
    var X := Unchunk(Block(b, i), 8);
    forall j | 0 <= j < 40
      ensures P[40 * i + j] == X[j]
    {
      var t, r := j / 8, j % 8;
      PaddedBit(b, i, t, r);
      UnchunkBit(Block(b, i), 8, t, r, 8 * t);
    }
    assert P[40 * i..40 * i + 40] == X;
  }

  /** Character o of the text stands for the five filled bits from q = 5 * o on. */
  lemma GroupAt(b: seq<byte>, o: nat, q: nat)
    requires o < EncodedLength(|b|) && q == 5 * o
    ensures q + 5 <= |PaddedBits(b)|
    ensures GroupValues(b)[o] == BitsToNat(PaddedBits(b)[q..q + 5])
  {
    ChunksLength(PaddedBits(b), 5);
    ChunksAt(PaddedBits(b), 5, o, q);
  }

  /** Character k of text block i is read from bits 5 * k to 5 * k + 5 of the block. */
  lemma GroupBits(b: seq<byte>, i: nat, k: nat)
    requires i < BlockCount(|b|) && k < 8
    ensures GroupValues(b)[8 * i + k] == BitsToNat(Unchunk(Block(b, i), 8)[5 * k..5 * k + 5])
  {
    GroupAt(b, 8 * i + k, 40 * i + 5 * k);
    PaddedBlock(b, i);
    GroupOfSlice(PaddedBits(b), Unchunk(Block(b, i), 8), 40 * i, k);
  }

  /** Group k of a 40-bit slice starting at a is the group at a + 5 * k of the whole. */
  lemma GroupOfSlice(P: seq<bool>, X: seq<bool>, a: nat, k: nat)
    requires a + 40 <= |P| && P[a..a + 40] == X && k < 8
    ensures P[a + 5 * k..a + 5 * k + 5] == X[5 * k..5 * k + 5]
  {
    SliceOfSlice(P, a, a + 40, 5 * k, 5 * k + 5);
  }

  /** Five bits of a 40-bit string, read off its number with a shift and a five-bit mask. */
  lemma GroupOfBits(X: seq<bool>, k: nat)
    requires |X| == 40 && k < 8
    ensures Low(Shr(BitsToNat(X), 35 - 5 * k), 5) == BitsToNat(X[5 * k..5 * k + 5])
  {
    BitsSlice(X, 5 * k, 5 * k + 5);
  }

  /** Character k of text block i stands for bits 5 * k to 5 * k + 5 of the block's number:
      the shift right by 35 - 5 * k and the five-bit mask of the encoder. */
  lemma GroupOfBlock(b: seq<byte>, i: nat, k: nat)
    requires i < BlockCount(|b|) && k < 8
    ensures GroupValues(b)[8 * i + k] == Low(Shr(BlockValue(b, i), 35 - 5 * k), 5)
  {
    GroupBits(b, i, k);
    GroupOfBits(Unchunk(Block(b, i), 8), k);
    BytesValueBits(Block(b, i));
  }
}
