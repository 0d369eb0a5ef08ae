/** `EncodingHelpers.ToBase32String` and `EncodingHelpers.FromBase32String`: the block-wise
    encoder that writes eight characters for every five bytes, and the decoder that moves the
    bits of each character into the output bytes a few at a time. Both are proved to compute
    the bit-level format of `Base32Format`. */
module EncodingHelpers {
  import opened DotNet
  import opened Bits
  import opened Base32Alphabet
  import opened Base32Validation
  import opened Base32Format
  import opened Base32Steps

  /** Encodes the bytes as Base32: `ArgumentNullException` for a null array,
      `ArgumentException` for an empty one, the text of the bytes otherwise. The character
      buffer of `string.Create` is an array, and its callback the two methods below. */
  method ToBase32String(bytes: array?<byte>) returns (r: Result<string>)
    ensures bytes == null ==> r == Failure(ArgumentNullException)
    ensures bytes != null && bytes.Length == 0 ==> r == Failure(ArgumentException)
    ensures bytes != null && bytes.Length > 0 ==> r == Success(Encode(bytes[..]))
  {
    if bytes == null {
      return Failure(ArgumentNullException);
    }
    if bytes.Length == 0 {
      return Failure(ArgumentException);
    }
    var fullBlocks := bytes.Length / 5;
    var overflow := bytes.Length % 5;
    var missing := 0;
    if overflow > 0 {
      missing := 5 - overflow;
    }
    var bits := bytes.Length * 8;
    var segments := bits / 5 + (if bits % 5 != 0 then 1 else 0);
    var outputLength := fullBlocks * 8 + (if overflow > 0 then 8 else 0);
    assert segments == DataSymbolCount(bytes.Length) && outputLength == EncodedLength(bytes.Length);
    var chars := new char[outputLength];
    EncodeFullBlocks(bytes, fullBlocks, chars);
    if overflow > 0 {
      EncodeFinalBlock(bytes, fullBlocks, outputLength, segments, chars);
    }
    assert chars[..] == Encode(bytes[..]);
    return Success(chars[..]);
  }

  /** The first loop of the callback: eight characters for each full block of five bytes. */
  method EncodeFullBlocks(bytes: array<byte>, fullBlocks: nat, chars: array<char>)
    requires fullBlocks == bytes.Length / 5 && chars.Length == EncodedLength(bytes.Length)
    modifies chars
    ensures forall o | 0 <= o < 8 * fullBlocks :: chars[o] == Encode(bytes[..])[o]
  {
    ghost var b := bytes[..];
    ghost var e := Encode(b);
    assert 5 * fullBlocks <= |b| && 8 * fullBlocks <= |e|;
    var i := 0;
    while i < fullBlocks
      invariant 0 <= i <= fullBlocks
      invariant forall o | 0 <= o < 8 * i :: chars[o] == e[o]
    {
      var inputOffset := i * 5;
      var outputOffset := i * 8;
      assert 5 * i + 5 <= |b|;
      var val := ReadFullBlock(bytes, i, inputOffset);

      WriteBlock(chars, outputOffset, val);
      FullBlockText(b, e, i, val);
      i := i + 1;
    }
  }

  /** The statements that load full block i, from `inputOffset` = 5 * i on, into a number:
      each byte is shifted in below the ones before it. */
  method ReadFullBlock(bytes: array<byte>, i: nat, inputOffset: nat) returns (val: nat)
    requires inputOffset == 5 * i && inputOffset + 5 <= bytes.Length
    ensures val == BlockValue(bytes[..], i)
  {
    val := bytes[inputOffset];
    ghost var v1 := val;
    val := Shl(val, 8);
    val := BitOr(val, bytes[inputOffset + 1]);
    ghost var v2 := val;
    val := Shl(val, 8);
    val := BitOr(val, bytes[inputOffset + 2]);
    ghost var v3 := val;
    val := Shl(val, 8);
    val := BitOr(val, bytes[inputOffset + 3]);
    ghost var v4 := val;
    val := Shl(val, 8);
    val := BitOr(val, bytes[inputOffset + 4]);
    FullBlockValue(bytes[..], i, v1, v2, v3, v4, val);
  }

  /** The second part of the callback, for a byte count that is not a multiple of five: the
      last block's number is loaded, then its eight characters are written, data symbols
      while the position is below `segments` and padding after. */
  method EncodeFinalBlock(bytes: array<byte>, fullBlocks: nat, outputLength: nat, segments: nat, chars: array<char>)
    requires bytes.Length % 5 > 0 && fullBlocks == bytes.Length / 5
    requires outputLength == chars.Length == EncodedLength(bytes.Length)
    requires segments == DataSymbolCount(bytes.Length)
    requires forall o | 0 <= o < 8 * fullBlocks :: chars[o] == Encode(bytes[..])[o]
    modifies chars
    ensures chars[..] == Encode(bytes[..])
  {
    ghost var b := bytes[..];
    ghost var e := Encode(b);
    var val2 := ReadFinalBlock(bytes, fullBlocks);
    ghost var seed := bytes[fullBlocks * 5];

    var outputOffset := fullBlocks * 8;
    var shift := 35;
    while outputOffset < outputLength
      invariant 8 * fullBlocks <= outputOffset <= outputLength
      invariant shift == 35 - 5 * (outputOffset - 8 * fullBlocks)
      invariant forall o | 0 <= o < outputOffset :: chars[o] == e[o]
    {
      FinalBlockChar(b, e, fullBlocks, seed, val2, segments, outputOffset, shift);
      chars[outputOffset] := if outputOffset < segments then Alphabet[Quintet(val2, shift)] else PaddingChar;
      shift := shift - 5;
      outputOffset := outputOffset + 1;
    }
    assert chars[..] == e;
  }

  /** The loop that loads the last block: the number starts out as the block's first byte, and
      five bytes are shifted in below it, zero for each position past the end. What the bytes
      after that seed byte give is the block's number, with the seed above bit 40. */
  method ReadFinalBlock(bytes: array<byte>, fullBlocks: nat) returns (val2: nat)
    requires 5 * fullBlocks < bytes.Length
    ensures val2 == Shl(bytes[5 * fullBlocks], 40) + BlockValue(bytes[..], fullBlocks)
  {
    ghost var blk := Block(bytes[..], fullBlocks);
    var overflowOffset := fullBlocks * 5;
    val2 := bytes[overflowOffset];
    ghost var seed := val2;
    var i := 0;
    while i < 5
      invariant 0 <= i <= 5 && overflowOffset == fullBlocks * 5 + i
      invariant val2 == Shl(seed, 8 * i) + BytesValue(blk[..i])
    {
      TailStep(seed, blk, i, val2);
      val2 := Shl(val2, 8);
      if overflowOffset < bytes.Length {
        val2 := BitOr(val2, bytes[overflowOffset]);
      } else {
        val2 := BitOr(val2, 0);
      }
      overflowOffset := overflowOffset + 1;
      i := i + 1;
    }
    assert blk[..5] == blk;
  }

  /** Character o of the last block: the field of its number at `shift`, whatever the seed
      byte left above bit 40, while o holds data, and padding after. */
  lemma FinalBlockChar(b: seq<byte>, e: string, i: nat, seed: nat, val2: nat, segments: nat, o: nat, shift: int)
    requires e == Encode(b) && i == |b| / 5 && |b| % 5 > 0 && segments == DataSymbolCount(|b|)
    requires val2 == Shl(seed, 40) + BlockValue(b, i)
    requires 8 * i <= o < 8 * i + 8 && shift == 35 - 5 * (o - 8 * i)
    ensures o < |e| && shift >= 0
    ensures e[o] == if o < segments then Alphabet[Quintet(val2, shift)] else PaddingChar
  {
    SeedHarmless(seed, BlockValue(b, i), shift);
    EncodeAt(b, i, o - 8 * i);
  }

  /** The eight assignments of a full block's characters: five bits of the block's number
      each, from the top. */
  method WriteBlock(chars: array<char>, outputOffset: nat, val: nat)
    requires outputOffset + 8 <= chars.Length
    modifies chars
    ensures forall o | 0 <= o < chars.Length ::
      chars[o] == if outputOffset <= o < outputOffset + 8 then Alphabet[Quintet(val, 35 - 5 * (o - outputOffset))]
                  else old(chars[o])
  {
    chars[outputOffset] := Alphabet[Quintet(val, 35)];
    chars[outputOffset + 1] := Alphabet[Quintet(val, 30)];
    chars[outputOffset + 2] := Alphabet[Quintet(val, 25)];
    chars[outputOffset + 3] := Alphabet[Quintet(val, 20)];
    chars[outputOffset + 4] := Alphabet[Quintet(val, 15)];
    chars[outputOffset + 5] := Alphabet[Quintet(val, 10)];
    chars[outputOffset + 6] := Alphabet[Quintet(val, 5)];
    chars[outputOffset + 7] := Alphabet[Quintet(val, 0)];
  }

  /** The eight characters of a full block, at the shifts the encoder writes them with. */
  lemma FullBlockText(b: seq<byte>, e: string, i: nat, val: nat)
    requires e == Encode(b) && val == BlockValue(b, i) && 5 * i + 5 <= |b|
    ensures 8 * i + 8 <= |e|
    ensures forall o | 8 * i <= o < 8 * i + 8 :: e[o] == Alphabet[Quintet(val, 35 - 5 * (o - 8 * i))]
  {
    forall o | 8 * i <= o < 8 * i + 8
      ensures e[o] == Alphabet[Quintet(val, 35 - 5 * (o - 8 * i))]
    {
      FullBlockChar(b, e, i, val, o - 8 * i);
    }
  }

  /** Character k of a full block: always a data symbol. */
  lemma FullBlockChar(b: seq<byte>, e: string, i: nat, val: nat, k: nat)
    requires e == Encode(b) && val == BlockValue(b, i) && 5 * i + 5 <= |b| && k < 8
    ensures 8 * i + k < |e|
    ensures e[8 * i + k] == Alphabet[Quintet(val, 35 - 5 * k)]
  {
    EncodeAt(b, i, k);
  }

  /** Decodes a Base32 text: `ArgumentException` when the validator rejects it, the bytes its
      data symbols stand for otherwise. The output array is filled in place: each step moves
      as many bits of the current character as the current byte still has room for, and the
      character lookup that would throw `InvalidOperationException` never fails on a text the
      validator accepted. The array is returned as its contents. */
  method FromBase32String(input: string, ignoreCase: bool := true) returns (r: Result<seq<byte>>)
    ensures !ValidateBase32String(input, ignoreCase) ==> r == Failure(ArgumentException)
    ensures ValidateBase32String(input, ignoreCase) ==>
      DataFolds(input, ignoreCase) && r == Success(Decode(input, ignoreCase))
  {
    if !ValidateBase32String(input, ignoreCase) {
      return Failure(ArgumentException);
    }
    ValidDataFolds(input, ignoreCase);
    var indexOfEqual := IndexOf(input, PaddingChar);
    var inputLength := if indexOfEqual < 0 then |input| else indexOfEqual;
    DataLengthIsIndexOf(input);
    var output := new byte[inputLength * 5 / 8](_ => 0);
    DecodeSymbols(input, ignoreCase, output);
    return Success(output[..]);
  }

  /** The decoding loop of `FromBase32String`, over a zeroed output array of the decoded
      length. */
  method DecodeSymbols(input: string, ignoreCase: bool, output: array<byte>)
    requires DataFolds(input, ignoreCase)
    requires output.Length == DataLength(input) * 5 / 8
    requires forall j | 0 <= j < output.Length :: output[j] == 0
    modifies output
    ensures output[..] == Decode(input, ignoreCase)
  {
    ghost var dv := DataValues(input, ignoreCase);
    ghost var u := Unchunk(dv, 5);
    ghost var dec := Decode(input, ignoreCase);
    var inputRow, outputRow, inputOffset, outputOffset := 0, 0, 0, 0;
    assert output.Length > 0 ==> Low(output[0], 0) == BitsValue(u, 0, 0);

    while outputRow < output.Length
      invariant Decoding(output, u, dec, inputRow, inputOffset, outputRow, outputOffset)
      decreases 8 * output.Length - (8 * outputRow + outputOffset)
    {
      inputRow, inputOffset, outputRow, outputOffset :=
        DecodeSymbol(input, ignoreCase, output, dv, u, dec, inputRow, inputOffset, outputRow, outputOffset);
    }
    assert output[..] == dec;
  }

  /** What the decoding loop keeps: the input position (`inputRow`, `inputOffset`) and the
      output position (`outputRow`, `outputOffset`) are the same bit position; the bytes
      before the output position are decoded, those after it are still zero, and the low
      `outputOffset` bits of the current byte are the bits it has received. */
  ghost predicate Decoding(output: array<byte>, u: seq<bool>, dec: seq<byte>, ir: nat, io: nat, ob: nat, oo: nat)
    reads output
  {
    && io < 5 && oo < 8 && (io == 0 || oo == 0)
    && 5 * ir + io == 8 * ob + oo
    && ob <= output.Length == |dec|
    && (forall j | 0 <= j < ob :: output[j] == dec[j])
    && (forall j | ob < j < output.Length :: output[j] == 0)
    && (ob < output.Length ==>
          && (oo == 0 ==> output[ob] == 0)
          && 8 * ob + oo <= |u|
          && Low(output[ob], oo) == BitsValue(u, 8 * ob, 8 * ob + oo))
  }

  /** One pass of the decoding loop: reads the current character, shifts as many of its bits
      into the current byte as both have, and advances both positions. */
  method DecodeSymbol(input: string, ignoreCase: bool, output: array<byte>,
                      ghost dv: seq<nat>, ghost u: seq<bool>, ghost dec: seq<byte>,
                      inputRow: nat, inputOffset: nat, outputRow: nat, outputOffset: nat)
    returns (inputRow': nat, inputOffset': nat, outputRow': nat, outputOffset': nat)
    requires DataFolds(input, ignoreCase)
    requires dv == DataValues(input, ignoreCase) && u == Unchunk(dv, 5) && dec == Decode(input, ignoreCase)
    requires outputRow < output.Length
    requires Decoding(output, u, dec, inputRow, inputOffset, outputRow, outputOffset)
    modifies output
    ensures Decoding(output, u, dec, inputRow', inputOffset', outputRow', outputOffset')
    ensures 8 * outputRow + outputOffset < 8 * outputRow' + outputOffset'
  {
    inputRow', inputOffset', outputRow', outputOffset' := inputRow, inputOffset, outputRow, outputOffset;
    var availableBits := ShiftSymbol(input, ignoreCase, output, dv, u, dec, inputRow, inputOffset, outputRow, outputOffset);
    ghost var next := output[outputRow];

    inputOffset' := inputOffset' + availableBits;
    if inputOffset' >= 5 {
      inputRow' := inputRow' + 1;
      inputOffset' := 0;
    }
    outputOffset' := outputOffset' + availableBits;
    if outputOffset' >= 8 {
      outputRow' := outputRow' + 1;
      outputOffset' := 0;
    }
    if outputRow' < output.Length {
      PendingAfter(u, outputRow, outputOffset, availableBits, next, outputRow', outputOffset', output[outputRow']);
    }
  }

  /** The body of the decoding loop up to the position updates: the current character's
      value, the number of bits that move, and the current byte with those bits shifted in. */
  method ShiftSymbol(input: string, ignoreCase: bool, output: array<byte>,
                     ghost dv: seq<nat>, ghost u: seq<bool>, ghost dec: seq<byte>,
                     inputRow: nat, inputOffset: nat, outputRow: nat, outputOffset: nat)
    returns (availableBits: nat)
    requires DataFolds(input, ignoreCase)
    requires dv == DataValues(input, ignoreCase) && u == Unchunk(dv, 5) && dec == Decode(input, ignoreCase)
    requires inputOffset < 5 && outputOffset < 8 && (inputOffset == 0 || outputOffset == 0)
    requires 5 * inputRow + inputOffset == 8 * outputRow + outputOffset
    requires outputRow < output.Length == |dec|
    requires outputOffset == 0 ==> output[outputRow] == 0
    requires Low(output[outputRow], outputOffset) == BitsValue(u, 8 * outputRow, 8 * outputRow + outputOffset)
    modifies output
    ensures availableBits == Min(5 - inputOffset, 8 - outputOffset)
    ensures forall j | 0 <= j < output.Length && j != outputRow :: output[j] == old(output[j])
    ensures 8 * outputRow + outputOffset + availableBits <= |u|
    ensures Low(output[outputRow], outputOffset + availableBits)
      == BitsValue(u, 8 * outputRow, 8 * outputRow + outputOffset + availableBits)
    ensures outputOffset + availableBits == 8 ==> output[outputRow] == dec[outputRow]
  {
    assert 8 * outputRow + outputOffset < 8 * |dec| <= 5 * |dv|;
    var code := SymbolValue(Fold(ignoreCase, input[inputRow]));
    if code < 0 {
      assert false;
    }
    assert code == dv[inputRow];
    availableBits := Min(5 - inputOffset, 8 - outputOffset);
    ghost var prev := output[outputRow];
    ShiftIn(output, outputRow, availableBits, Shr(code, 5 - (inputOffset + availableBits)) % 256);
    ghost var next := output[outputRow];
    DecodeStep(dv, inputRow, inputOffset, outputRow, outputOffset, prev, availableBits, next);
    if outputOffset + availableBits == 8 {
      ByteDone(next, BitsValue(u, 8 * outputRow, 8 * outputRow + 8));
      DecodedByte(input, ignoreCase, outputRow);
    }
  }

  /** `output[row] <<= a; output[row] |= t;` on a byte array. */
  method ShiftIn(output: array<byte>, row: nat, a: nat, t: byte)
    requires row < output.Length
    modifies output
    ensures output[row] == BitOr(Shl(old(output[row]), a) % 256, t) % 256
    ensures forall j | 0 <= j < output.Length && j != row :: output[j] == old(output[j])
  {
    output[row] := Shl(output[row], a) % 256;
    output[row] := BitOr(output[row], t) % 256;
  }

  /** One step of the decoder, by the two kinds of step: into a fresh byte, which takes the
      low bits of the current character, or into a byte with bits pending, which takes the
      leading bits of a fresh character. */
  lemma DecodeStep(dv: seq<nat>, ir: nat, io: nat, ob: nat, oo: nat, prev: byte, a: nat, next: nat)
    requires ir < |dv| && dv[ir] < 32 && io < 5 && oo < 8 && (io == 0 || oo == 0)
    requires 5 * ir + io == 8 * ob + oo
    requires a == Min(5 - io, 8 - oo)
    requires oo == 0 ==> prev == 0
    requires Low(prev, oo) == BitsValue(Unchunk(dv, 5), 8 * ob, 8 * ob + oo)
    requires next == BitOr(Shl(prev, a) % 256, Shr(dv[ir], 5 - (io + a)) % 256) % 256
    ensures 8 * ob + oo + a <= |Unchunk(dv, 5)|
    ensures Low(next, oo + a) == BitsValue(Unchunk(dv, 5), 8 * ob, 8 * ob + oo + a)
  {
    var t := Shr(dv[ir], 5 - (io + a)) % 256;
    if oo == 0 {
      DecodeStepStart(dv, ir, io, ob, a, t, next);
    } else {
      DecodeStepMore(dv, ir, ob, oo, prev, a, t, next);
    }
  }

  /** The bits pending in the current output byte once a step is done: none when the step
      completed a byte, all that the byte has received otherwise. */
  lemma PendingAfter(u: seq<bool>, ob0: nat, oo0: nat, a: nat, next: nat, ob: nat, oo: nat, x: nat)
    requires oo0 + a <= 8 && 8 * ob0 + oo0 + a <= |u|
    requires Low(next, oo0 + a) == BitsValue(u, 8 * ob0, 8 * ob0 + oo0 + a)
    requires ob == (if oo0 + a == 8 then ob0 + 1 else ob0)
    requires oo == (if oo0 + a == 8 then 0 else oo0 + a)
    requires oo == 0 ==> x == 0
    requires oo != 0 ==> x == next
    ensures 8 * ob + oo <= |u|
    ensures Low(x, oo) == BitsValue(u, 8 * ob, 8 * ob + oo)
  {
  }

  /** `IndexOf('=')` finds where the data symbols end. */
  lemma DataLengthIsIndexOf(s: string)
    ensures DataLength(s) == if IndexOf(s, PaddingChar) < 0 then |s| else IndexOf(s, PaddingChar)
  {
  }
}
