/** What the statements of the block-wise encoder and of the accumulating decoder compute,
    stated against the bit-level definitions of `Base32Format`: one lemma for each kind of
    step the two loops take. */
module Base32Steps {
  import opened DotNet
  import opened Bits
  import opened Base32Alphabet
  import opened Base32Format

  lemma Pow2Byte()
    ensures Pow2(8) == 256
  {
  }

  lemma Pow2Quintet()
    ensures Pow2(5) == 32
  {
  }

  /** `(int)(val >> shift & 0x1F)`: the five bits of val from bit `shift` up. */
  function Quintet(val: nat, shift: nat): (v: nat)
    ensures v < 32
    ensures v == Low(Shr(val, shift), 5)
  {
    FiveBitMask(Shr(val, shift));
    BitAnd(Shr(val, shift), 0x1F)
  }

  /** `x & 0x1F` keeps the five low bits. */
  lemma FiveBitMask(x: nat)
    ensures BitAnd(x, 0x1F) == Low(x, 5) < 32
  {
    BitAndMask(x, 5);
    LowBound(x, 5);
    Pow2Quintet();
  }

  // The encoder

  /** `val <<= 8; val |= x` appends the byte x to the big-endian number held in val. */
  lemma ShiftInByte(v: nat, x: byte)
    ensures BitOr(Shl(v, 8), x) == 256 * v + x
  {
    assert x < Pow2(8);
    BitOrDisjoint(v, 8, x);
    Shl8(v);
  }

  /** Five shift-and-OR steps over five bytes, v1 to v5, compute their number. */
  lemma FiveBytesValue(blk: seq<byte>, v1: nat, v2: nat, v3: nat, v4: nat, v5: nat)
    requires |blk| == 5 && v1 == blk[0]
    requires v2 == BitOr(Shl(v1, 8), blk[1])
    requires v3 == BitOr(Shl(v2, 8), blk[2])
    requires v4 == BitOr(Shl(v3, 8), blk[3])
    requires v5 == BitOr(Shl(v4, 8), blk[4])
    ensures v5 == BytesValue(blk)
  {
    ShiftInByte(v1, blk[1]);
    ShiftInByte(v2, blk[2]);
    ShiftInByte(v3, blk[3]);
    ShiftInByte(v4, blk[4]);
    FiveBytes(blk);
  }

  /** The number of five bytes, written out. */
  lemma FiveBytes(blk: seq<byte>)
    requires |blk| == 5
    ensures BytesValue(blk)
         == 256 * (256 * (256 * (256 * (blk[0] as nat) + blk[1]) + blk[2]) + blk[3]) + blk[4]
  {
    var b0: nat, b1: nat, b2: nat, b3: nat, b4: nat := blk[0], blk[1], blk[2], blk[3], blk[4];
    assert blk[..1][..0] == [];
    assert BytesValue(blk[..1]) == b0;
    assert blk[..2][..1] == blk[..1];
    assert BytesValue(blk[..2]) == 256 * b0 + b1;
    assert blk[..3][..2] == blk[..2];
    assert BytesValue(blk[..3]) == 256 * (256 * b0 + b1) + b2;
    assert blk[..4][..3] == blk[..3];
    assert BytesValue(blk[..4]) == 256 * (256 * (256 * b0 + b1) + b2) + b3;
    assert blk[..5] == blk && blk[..5][..4] == blk[..4];
  }

  /** The five shift-and-OR steps over a full block compute the block's 40-bit number. */
  lemma FullBlockValue(b: seq<byte>, i: nat, v1: nat, v2: nat, v3: nat, v4: nat, v5: nat)
    requires 5 * i + 5 <= |b|
    requires v1 == b[5 * i]
    requires v2 == BitOr(Shl(v1, 8), b[5 * i + 1])
    requires v3 == BitOr(Shl(v2, 8), b[5 * i + 2])
    requires v4 == BitOr(Shl(v3, 8), b[5 * i + 3])
    requires v5 == BitOr(Shl(v4, 8), b[5 * i + 4])
    ensures v5 == BlockValue(b, i)
  {
    var blk := b[5 * i..5 * i + 5];
    assert Block(b, i) == blk;
    FiveBytesValue(blk, v1, v2, v3, v4, v5);
  }

  /** One step of the final block's loop, `val2 <<= 8; val2 |= x` with x = blk[j]: the seed
      byte moves up with the bytes read so far. */
  lemma TailStep(seed: nat, blk: seq<byte>, j: nat, y: nat)
    requires j < |blk| && y == Shl(seed, 8 * j) + BytesValue(blk[..j])
    ensures BitOr(Shl(y, 8), blk[j]) == Shl(seed, 8 * (j + 1)) + BytesValue(blk[..j + 1])
  {
    var high, v := Shl(seed, 8 * j), BytesValue(blk[..j]);
    ShiftInByte(y, blk[j]);
    assert blk[..j + 1][..j] == blk[..j];
    assert Shl(seed, 8 * (j + 1)) == 256 * high by {
      ShlAdd(seed, 8 * j, 8);
      assert 8 * j + 8 == 8 * (j + 1);
      Shl8(high);
    }
  }

  /** The seed copy that the final block's number carries above bit 40 is never read: every
      field the encoder extracts lies at a shift of at most 35. */
  lemma SeedHarmless(seed: nat, v: nat, shift: nat)
    requires shift <= 35
    ensures Quintet(Shl(seed, 40) + v, shift) == Quintet(v, shift)
  {
    FieldIgnoresHighBits(seed, v, 40, shift, 5);
  }

  /** Character k of text block i: the block's field at shift 35 - 5 * k when it holds data
      bits, the padding character otherwise. */
  lemma EncodeAt(b: seq<byte>, i: nat, k: nat)
    requires i < BlockCount(|b|) && k < 8
    ensures 8 * i + k < |Encode(b)|
    ensures Encode(b)[8 * i + k]
         == if 8 * i + k < DataSymbolCount(|b|) then Alphabet[Quintet(BlockValue(b, i), 35 - 5 * k)]
            else PaddingChar
  {
    EncodeChar(b, 8 * i + k);
    GroupOfBlock(b, i, k);
  }

  // The decoder

  /** The bits of a character's value from io to io + a, as the decoder's shift extracts them. */
  lemma CodeBits(c: nat, io: nat, a: nat)
    requires c < 32 && io + a <= 5
    ensures Low(Shr(c, 5 - (io + a)), a) == BitsToNat(NatToBits(c, 5)[io..io + a])
  {
    BitsSlice(NatToBits(c, 5), io, io + a);
    BitsToNatOfNat(c, 5);
    Pow2Quintet();
    LowOfSmall(c, 5);
  }

  /** A shifted character value fits in a byte, and in a bits when nothing of it was read. */
  lemma CodeShiftBound(c: nat, io: nat, a: nat)
    requires c < 32 && io + a <= 5
    ensures Shr(c, 5 - (io + a)) < 32
    ensures io == 0 ==> Shr(c, 5 - (io + a)) < Pow2(a)
  {
    Pow2Quintet();
    ShrBound(c, 5, 5 - (io + a));
    assert 5 - (5 - (io + a)) == io + a;
    Pow2Monotone(io + a, 5);
  }

  /** Bits q = 5 * ir + io to q + a of the data are bits io to io + a of value ir. */
  lemma CodeSlice(dv: seq<nat>, ir: nat, io: nat, a: nat, q: nat)
    requires ir < |dv| && io + a <= 5 && q == 5 * ir + io
    ensures q + a <= |Unchunk(dv, 5)|
    ensures Unchunk(dv, 5)[q..q + a] == NatToBits(dv[ir], 5)[io..io + a]
  {
    var u, o := Unchunk(dv, 5), 5 * ir;
    UnchunkAt(dv, 5, ir, o);
    SliceOfSlice(u, o, o + 5, io, io + a);
    assert o + io == q && o + (io + a) == q + a;
  }

  /** Bits q = 5 * ir + io to q + a of the data, as a number, are the field the decoder's
      shift and mask read from value ir. */
  lemma CodeValue(dv: seq<nat>, ir: nat, io: nat, a: nat, q: nat)
    requires ir < |dv| && dv[ir] < 32 && io + a <= 5 && q == 5 * ir + io
    ensures q + a <= |Unchunk(dv, 5)|
    ensures BitsValue(Unchunk(dv, 5), q, q + a) == Low(Shr(dv[ir], 5 - (io + a)), a)
  {
    CodeSlice(dv, ir, io, a, q);
    CodeBits(dv[ir], io, a);
    BitsValueIsBits(Unchunk(dv, 5), q, q + a);
  }

  /** A value below 32 is unchanged by the cast to a byte. */
  lemma SmallByte(t: nat)
    requires t < 32
    ensures t % 256 == t
  {
  }

  /** Value ir of the data, at bits q = 5 * ir + io on, supplies the a bits the decoder takes. */
  lemma CodeField(dv: seq<nat>, ir: nat, io: nat, a: nat, q: nat)
    requires ir < |dv| && dv[ir] < 32 && io + a <= 5 && q == 5 * ir + io
    ensures q + a <= |Unchunk(dv, 5)|
    ensures Low(Shr(dv[ir], 5 - (io + a)) % 256, a) == BitsValue(Unchunk(dv, 5), q, q + a)
  {
    CodeValue(dv, ir, io, a, q);
    CodeShiftBound(dv[ir], io, a);
    SmallByte(Shr(dv[ir], 5 - (io + a)));
  }

  /** Read from its first bit, value ir of the data gives its a leading bits as they are. */
  lemma CodeFieldFirst(dv: seq<nat>, ir: nat, a: nat, q: nat)
    requires ir < |dv| && dv[ir] < 32 && a <= 5 && q == 5 * ir
    ensures q + a <= |Unchunk(dv, 5)|
    ensures Shr(dv[ir], 5 - a) % 256 < Pow2(a)
    ensures Shr(dv[ir], 5 - a) % 256 == BitsValue(Unchunk(dv, 5), q, q + a)
  {
    var t := Shr(dv[ir], 5 - a);
    assert 5 - (0 + a) == 5 - a;
    CodeField(dv, ir, 0, a, q);
    CodeShiftBound(dv[ir], 0, a);
    SmallByte(t);
    LowOfSmall(t, a);
  }

  /** The first step into a fresh output byte: shifting zero gives zero, and the OR sets the
      byte to the shifted character, high bits that were already consumed included. */
  lemma DecodeStepFresh(a: nat, t: nat, next: nat)
    requires t < 256 && next == BitOr(Shl(0, a) % 256, t) % 256
    ensures next == t
  {
    ShlZero(a);
  }

  /** The cast to a byte keeps the eight low bits. */
  lemma ByteCast(x: nat)
    ensures x % 256 == Low(x, 8)
  {
    LowIsMod(x, 8);
    Pow2Byte();
  }

  /** A later step into a byte: the shift keeps the byte's pending low bits, and the OR adds
      the new bits below them. */
  lemma DecodeStepClean(prev: nat, oo: nat, a: nat, t: nat, next: nat)
    requires prev < 256 && 0 < a && oo + a <= 8 && t < Pow2(a)
    requires next == BitOr(Shl(prev, a) % 256, t) % 256
    ensures Low(next, oo + a) == Shl(Low(prev, oo), a) + t
  {
    var q := Low(prev, 8 - a);
    var y := Shl(q, a) + t;
    assert Shl(prev, a) % 256 == Shl(q, a) by {
      ByteCast(Shl(prev, a));
      LowOfShl(prev, a, 8);
    }
    assert BitOr(Shl(q, a), t) == y by {
      BitOrDisjoint(q, a, t);
    }
    assert next == y by {
      ByteCast(y);
      LowBound(prev, 8 - a);
      ShlBound(q, 8 - a, t, a);
      assert 8 - a + a == 8;
      LowOfSmall(y, 8);
    }
    assert Low(y, oo + a) == Shl(Low(q, oo), a) + t by {
      LowOfAppend(q, a, t, oo);
    }
    LowOfLow(prev, oo, 8 - a);
  }

  /** A step that starts an output byte takes the a bits of the current character. */
  lemma DecodeStepStart(dv: seq<nat>, ir: nat, io: nat, ob: nat, a: nat, t: nat, next: nat)
    requires ir < |dv| && dv[ir] < 32 && io + a <= 5
    requires 5 * ir + io == 8 * ob
    requires t == Shr(dv[ir], 5 - (io + a)) % 256
    requires next == BitOr(Shl(0, a) % 256, t) % 256
    ensures 8 * ob + a <= |Unchunk(dv, 5)|
    ensures Low(next, a) == BitsValue(Unchunk(dv, 5), 8 * ob, 8 * ob + a)
  {
    CodeField(dv, ir, io, a, 8 * ob);
    DecodeStepFresh(a, t, next);
  }

  /** A step that continues an output byte appends the a bits of a character read from its
      first bit to the oo bits already pending. */
  lemma DecodeStepMore(dv: seq<nat>, ir: nat, ob: nat, oo: nat, prev: nat, a: nat, t: nat, next: nat)
    requires ir < |dv| && dv[ir] < 32 && 0 < a <= 5 && oo + a <= 8
    requires 5 * ir == 8 * ob + oo
    requires prev < 256
    requires Low(prev, oo) == BitsValue(Unchunk(dv, 5), 8 * ob, 8 * ob + oo)
    requires t == Shr(dv[ir], 5 - a) % 256
    requires next == BitOr(Shl(prev, a) % 256, t) % 256
    ensures 8 * ob + oo + a <= |Unchunk(dv, 5)|
    ensures Low(next, oo + a) == BitsValue(Unchunk(dv, 5), 8 * ob, 8 * ob + oo + a)
  {
    var u := Unchunk(dv, 5);
    var j := 8 * ob + oo;
    CodeFieldFirst(dv, ir, a, j);
    DecodeStepClean(prev, oo, a, t, next);
    BitsValueSplit(u, 8 * ob, j, a);
  }

  /** Once eight bits are pending, the byte holds exactly those bits. */
  lemma ByteDone(x: nat, v: nat)
    requires x < 256 && Low(x, 8) == v
    ensures x == v
  {
    Pow2Byte();
    LowOfSmall(x, 8);
  }

  /** Byte j of the decoded text is bits 8 * j to 8 * j + 8 of its data. */
  lemma DecodedByte(s: string, ignoreCase: bool, j: nat)
    requires DataFolds(s, ignoreCase) && j < |Decode(s, ignoreCase)|
    ensures 8 * j + 8 <= |Unchunk(DataValues(s, ignoreCase), 5)|
    ensures Decode(s, ignoreCase)[j] == BitsValue(Unchunk(DataValues(s, ignoreCase), 5), 8 * j, 8 * j + 8)
  {
    var bits := Unchunk(DataValues(s, ignoreCase), 5);
    ChunkValue(bits, j);
  }

  /** Chunk j of a bit string, as the eight bits from 8 * j read in place. */
  lemma ChunkValue(bits: seq<bool>, j: nat)
    requires j < |Chunks(bits, 8)|
    ensures 8 * j + 8 <= |bits|
    ensures Chunks(bits, 8)[j] == BitsValue(bits, 8 * j, 8 * j + 8)
  {
    ChunksAt(bits, 8, j, 8 * j);
    BitsValueIsBits(bits, 8 * j, 8 * j + 8);
  }
}
