/** `NumberExtensions`: the range tests `In` on `int` and `long`, and `ToBaseN`, which writes
    a `long` in a base from 2 to 64 with symbols the caller chooses. `ToBaseN` is proved to
    spell out the positional digits of `Digits`, and the digits are proved to be the one
    canonical numeral of the value. */
module NumberExtensions {
  import opened DotNet
  import opened Bits

  // ---------------------------------------------------------------- In

  /** A non-negative `int`, the value of a `System.Index`. */
  type nat32 = x: int32 | 0 <= x

  /** `System.Index`: a position, counted from the end when `fromEnd` holds (`^n`). */
  datatype Index = Index(value: nat32, fromEnd: bool)

  /** `System.Range`, the `start..end` of C#. */
  datatype Range = Range(start: Index, end: Index)

  /** `value.In(range)`: the range is half-open, and only the `Value` of each end is looked
      at, so an end written `^n` counts as `n`. */
  function InRange(value: int32, range: Range): (b: bool)
    ensures b <==> range.start.value <= value < range.end.value
  {
    value >= range.start.value && value < range.end.value
  }

  /** `value.In(minInclusive, maxInclusive)` on `int`: both bounds belong to the range. */
  function InInt(value: int32, minInclusive: int32, maxInclusive: int32): (b: bool)
    ensures b <==> minInclusive <= value <= maxInclusive
  {
    value >= minInclusive && value <= maxInclusive
  }

  /** `value.In(minInclusive, maxInclusive)` on `long`. */
  function InLong(value: int64, minInclusive: int64, maxInclusive: int64): (b: bool)
    ensures b <==> minInclusive <= value <= maxInclusive
  {
    value >= minInclusive && value <= maxInclusive
  }

  /** The half-open range `a..b` holds the same values as the inclusive range from `a` to
      `b - 1`; in particular `a..a` is empty, while the inclusive range from `a` to `a` holds
      `a`. */
  lemma InRangeIsInclusiveBelowEnd(value: int32, range: Range)
    ensures InRange(value, range) <==> InInt(value, range.start.value, range.end.value - 1)
    ensures range.start.value == range.end.value ==> !InRange(value, range)
    ensures InInt(value, range.start.value, range.start.value) <==> value == range.start.value
  {
  }

  /** The `int` and the `long` overloads agree on `int` arguments. */
  lemma InIntIsInLong(value: int32, minInclusive: int32, maxInclusive: int32)
    ensures InInt(value, minInclusive, maxInclusive)
        == InLong(value as int64, minInclusive as int64, maxInclusive as int64)
  {
  }

  /** `1..10` and the bounds 1 and 10: 1 and 5 are in both, 10 only in the inclusive one,
      0 and 11 in neither. */
  lemma InVectors()
    ensures InRange(5, Range(Index(1, false), Index(10, false)))
    ensures InRange(1, Range(Index(1, false), Index(10, false)))
    ensures !InRange(0, Range(Index(1, false), Index(10, false)))
    ensures !InRange(10, Range(Index(1, false), Index(10, false)))
    ensures !InRange(11, Range(Index(1, false), Index(10, false)))
    ensures InInt(1, 1, 10) && InInt(5, 1, 10) && InInt(10, 1, 10)
    ensures !InInt(0, 1, 10) && !InInt(11, 1, 10)
    ensures InLong(1, 1, 10) && InLong(5, 1, 10) && InLong(10, 1, 10)
    ensures !InLong(0, 1, 10) && !InLong(11, 1, 10)
  {
  }

  // ---------------------------------------------------------------- digits

  /** The digits of `v` in base `b`, most significant first, with no leading zero. */
  function Digits(v: nat, b: nat): (ds: seq<nat>)
    requires b >= 2
    ensures |ds| > 0
    ensures forall i | 0 <= i < |ds| :: ds[i] < b
    ensures v == 0 ==> ds == [0]
    ensures v > 0 ==> ds[0] != 0
    decreases v
  {
    if v < b then [v]
    else
      QuotientSmaller(v, b);
      Digits(v / b, b) + [v % b]
  }

  /** The value of a numeral in base `b`, read most significant digit first. */
  function DigitsValue(ds: seq<nat>, b: nat): nat
  {
    if |ds| == 0 then 0 else DigitsValue(ds[..|ds| - 1], b) * b + ds[|ds| - 1]
  }

  /** A numeral: digits below the base and no leading zero, except for zero itself. */
  predicate Canonical(ds: seq<nat>, b: nat)
  {
    && (forall i | 0 <= i < |ds| :: ds[i] < b)
    && (ds == [0] || (|ds| > 0 && ds[0] != 0))
  }

  /** Reading the digits of `v` gives back `v`. */
  lemma {:induction false} DigitsRoundTrip(v: nat, b: nat)
    requires b >= 2
    ensures DigitsValue(Digits(v, b), b) == v
    decreases v
  {
    if v >= b {
      QuotientSmaller(v, b);
      DigitsRoundTrip(v / b, b);
      RoundTripStep(v, b);
    } else {
      DigitsUnfold(v, b);
      DigitsValueSnoc([], v, b);
    }
  }

  lemma RoundTripStep(v: nat, b: nat)
    requires b >= 2 && v >= b && DigitsValue(Digits(v / b, b), b) == v / b
    ensures DigitsValue(Digits(v, b), b) == v
  {
    var q, r := v / b, v % b;
    var ds := Digits(q, b);
    DigitsUnfold(v, b);
    QuotientRemainder(v, b);
    DigitsValueSnoc(ds, r, b);
  }

  /** A digit written after a numeral multiplies its value by the base. */
  lemma DigitsValueSnoc(ds: seq<nat>, d: nat, b: nat)
    ensures DigitsValue(ds + [d], b) == DigitsValue(ds, b) * b + d
  {
    assert (ds + [d])[..|ds|] == ds;
  }

  /** A numeral with a non-zero leading digit has a positive value. */
  lemma {:induction false} LeadingDigitPositive(ds: seq<nat>, b: nat)
    requires b >= 2 && |ds| > 0 && ds[0] != 0
    ensures DigitsValue(ds, b) > 0
  {
    if |ds| > 1 {
      LeadingDigitPositive(ds[..|ds| - 1], b);
    }
  }

  /** Every canonical numeral is the one `Digits` writes for its value: the digits are the
      only way to write a value. */
  lemma {:induction false} DigitsCanonical(ds: seq<nat>, b: nat)
    requires b >= 2 && Canonical(ds, b)
    ensures Digits(DigitsValue(ds, b), b) == ds
  {
    if |ds| > 1 {
      var init, last := ds[..|ds| - 1], ds[|ds| - 1];
      var x := DigitsValue(init, b);
      var v := DigitsValue(ds, b);
      assert v == x * b + last;
      LeadingDigitPositive(init, b);
      MulMonotone(1, x, b);
      DigitsUnfold(v, b);
      DivModUnique(v, b, x, last);
      DigitsCanonical(init, b);
      assert ds == init + [last];
    }
  }

  /** A value below `2^k` has at most `k` digits in any base from 2 up. */
  lemma {:induction false} DigitsLength(v: nat, b: nat, k: nat)
    requires b >= 2 && k >= 1 && v < Pow2(k)
    ensures |Digits(v, b)| <= k
    decreases k
  {
    if v >= b {
      assert v / b <= v / 2 by {
        DivisorMonotone(v, 2, b);
      }
      DigitsLength(v / b, b, k - 1);
    }
  }

  lemma DivisorMonotone(v: nat, a: nat, b: nat)
    requires 0 < a <= b
    ensures v / b <= v / a
  {
    var q, r := v / b, v % b;
    assert v == q * b + r;
    MulMonotone(a, b, q);
    DivFloor(v, a, q);
  }

  lemma DivFloor(v: nat, a: nat, q: nat)
    requires 0 < a && q * a <= v
    ensures q <= v / a
  {
    var q', r' := v / a, v % a;
    assert v == q' * a + r';
    if q > q' {
      MulMonotone(q' + 1, q, a);
    }
  }

  /** Dividing a positive value by a base of at least 2 makes it smaller, and positive when
      the value is not below the base. */
  lemma QuotientSmaller(v: nat, b: nat)
    requires b >= 2 && v >= 1
    ensures v / b < v
    ensures v >= b ==> v / b >= 1
  {
    var q, r := v / b, v % b;
    assert v == q * b + r;
    MulMonotone(2, b, q);
  }

  // ---------------------------------------------------------------- spelling

  /** The characters of the digits in a table of symbols. */
  function Spell(ds: seq<nat>, symbols: seq<char>): (t: string)
    requires forall i | 0 <= i < |ds| :: ds[i] < |symbols|
    ensures |t| == |ds|
    ensures forall i | 0 <= i < |ds| :: t[i] == symbols[ds[i]]
  {
    seq(|ds|, i requires 0 <= i < |ds| => symbols[ds[i]])
  }

  /** The reader the spelling is meant for: each character stands for its position in the
      table, most significant first. */
  function ReadNumeral(t: string, table: string): int
  {
    if |t| == 0 then 0 else ReadNumeral(t[..|t| - 1], table) * |table| + IndexOf(table, t[|t| - 1])
  }

  predicate Distinct(table: string)
  {
    forall i, j | 0 <= i < j < |table| :: table[i] != table[j]
  }

  /** With distinct symbols, reading a spelling gives back the value of its digits. */
  lemma {:induction false} ReadSpelling(ds: seq<nat>, table: string)
    requires Distinct(table) && forall i | 0 <= i < |ds| :: ds[i] < |table|
    ensures ReadNumeral(Spell(ds, table), table) == DigitsValue(ds, |table|)
  {
    if |ds| > 0 {
      var t := Spell(ds, table);
      var init := ds[..|ds| - 1];
      assert t[..|t| - 1] == Spell(init, table);
      ReadSpelling(init, table);
      var d := ds[|ds| - 1];
      assert IndexOf(table, table[d]) == d;
    }
  }

  // ---------------------------------------------------------------- ToBaseN

  /** `Base64Chars`, the default symbols: the ten digits, the upper-case letters, the
      lower-case letters, '+' and '/'. */
  const Base64Chars: string := Decimal + Upper + Lower + "+/"
  const Decimal: string := "0123456789"
  const Upper: string := "ABCDEFGHIJKLMNOPQRSTUVWXYZ"
  const Lower: string := "abcdefghijklmnopqrstuvwxyz"

  /** The default symbol for a digit, written out by character ranges. */
  function Base64Digit(d: nat): char
    requires d < 64
  {
    if d < 10 then ('0' as int + d) as char
    else if d < 36 then ('A' as int + (d - 10)) as char
    else if d < 62 then ('a' as int + (d - 36)) as char
    else if d == 62 then '+'
    else '/'
  }

  lemma Base64CharsIsTable()
    ensures |Base64Chars| == 64
    ensures forall d | 0 <= d < 64 :: Base64Chars[d] == Base64Digit(d)
  {
    DecimalIsRange();
    UpperIsRange();
    LowerIsRange();
  }

  lemma DecimalIsRange()
    ensures |Decimal| == 10 && forall d | 0 <= d < 10 :: Decimal[d] == ('0' as int + d) as char
  {
  }

  lemma UpperIsRange()
    ensures |Upper| == 26 && forall d | 0 <= d < 26 :: Upper[d] == ('A' as int + d) as char
  {
  }

  lemma LowerIsRange()
    ensures |Lower| == 26 && forall d | 0 <= d < 26 :: Lower[d] == ('a' as int + d) as char
  {
  }

  /** The default symbols are distinct, so every base reads its numerals back. */
  lemma Base64CharsDistinct()
    ensures Distinct(Base64Chars)
  {
    Base64CharsIsTable();
    forall i, j | 0 <= i < j < 64
      ensures Base64Chars[i] != Base64Chars[j]
    {
      Base64DigitInjective(i, j);
    }
  }

  lemma Base64DigitInjective(i: nat, j: nat)
    requires i < j < 64
    ensures Base64Digit(i) != Base64Digit(j)
  {
  }

  /** The symbols `ToBaseN` uses: the caller's, or the default ones for an empty list. */
  function SymbolsOf(targetBaseSymbols: seq<char>): (symbols: seq<char>)
    ensures |targetBaseSymbols| == 0 ==> symbols == Base64Chars
    ensures |targetBaseSymbols| > 0 ==> symbols == targetBaseSymbols
  {
    if |targetBaseSymbols| == 0 then Base64Chars else targetBaseSymbols
  }

  /** What `value.ToBaseN(targetBase, targetBaseSymbols)` returns or throws. A non-negative
      value is spelled digit by digit. A negative value makes the first remainder negative,
      which indexes outside the symbols, unless it is zero: then the loop stops after one
      digit, because the quotient is not positive either. */
  function BaseN(value: int64, targetBase: int32, targetBaseSymbols: Option<seq<char>>): Result<string>
  {
    if targetBase < 2 || targetBase > 64 then Failure(ArgumentOutOfRangeException)
    else if targetBaseSymbols.None? then Failure(NullReferenceException)
    else
      var symbols := SymbolsOf(targetBaseSymbols.value);
      if targetBase as int > |symbols| then Failure(BaseException)
      else if value >= 0 then Success(Spell(Digits(value as nat, targetBase as nat), symbols))
      else if Rem(value as int, targetBase as int) == 0 then Success([symbols[0]])
      else Failure(IndexOutOfRangeException)
  }

  /** The error cases, each exactly when the guards in front of the loop say so. */
  lemma BaseNErrors(value: int64, targetBase: int32, targetBaseSymbols: Option<seq<char>>)
    ensures BaseN(value, targetBase, targetBaseSymbols) == Failure(ArgumentOutOfRangeException)
        <==> targetBase < 2 || targetBase > 64
    ensures 2 <= targetBase <= 64 ==>
        (BaseN(value, targetBase, targetBaseSymbols) == Failure(NullReferenceException)
         <==> targetBaseSymbols.None?)
    ensures 2 <= targetBase <= 64 && targetBaseSymbols.Some? ==>
        (BaseN(value, targetBase, targetBaseSymbols) == Failure(BaseException)
         <==> targetBase as int > |SymbolsOf(targetBaseSymbols.value)|)
    ensures value >= 0 && 2 <= targetBase <= 64 && targetBaseSymbols.Some?
        && targetBase as int <= |SymbolsOf(targetBaseSymbols.value)|
        ==> BaseN(value, targetBase, targetBaseSymbols).Success?
  {
  }

  /** For a non-negative value the text is not empty, has at most 64 characters, is made
      of the first `targetBase` symbols only, is the first symbol alone for zero, and does
      not start with the first symbol for a positive value when no other symbol repeats it. */
  lemma BaseNShape(value: int64, targetBase: int32, targetBaseSymbols: seq<char>)
    requires value >= 0 && 2 <= targetBase <= 64
    requires targetBase as int <= |SymbolsOf(targetBaseSymbols)|
    ensures BaseN(value, targetBase, Some(targetBaseSymbols)).Success?
    ensures var t, symbols := BaseN(value, targetBase, Some(targetBaseSymbols)).value, SymbolsOf(targetBaseSymbols);
      && 0 < |t| <= 64
      && (forall i | 0 <= i < |t| :: t[i] in symbols[..targetBase])
      && (value == 0 ==> t == [symbols[0]])
      && (value > 0 && (forall i | 0 < i < targetBase as int :: symbols[i] != symbols[0]) ==> t[0] != symbols[0])
  {
    var b := targetBase as nat;
    var symbols := SymbolsOf(targetBaseSymbols);
    var ds := Digits(value as nat, b);
    var t := Spell(ds, symbols);
    Pow2Is63();
    DigitsLength(value as nat, b, 63);
    forall i | 0 <= i < |t|
      ensures t[i] in symbols[..targetBase]
    {
      assert t[i] == symbols[..targetBase][ds[i]];
    }
  }

  /** `long.MaxValue + 1`, the bound of non-negative `long` values. */
  lemma Pow2Is63()
    ensures Pow2(63) == 0x8000_0000_0000_0000
  {
    Pow2Is31();
    Pow2Is32();
    Pow2Add(31, 32);
  }

  lemma Pow2Is31()
    ensures Pow2(31) == 0x8000_0000
  {
    Pow2Is16();
    Pow2Is15();
    Pow2Add(16, 15);
  }

  lemma Pow2Is32()
    ensures Pow2(32) == 0x1_0000_0000
  {
    Pow2Is16();
    Pow2Add(16, 16);
  }

  lemma Pow2Is16()
    ensures Pow2(16) == 0x1_0000
  {
    Pow2Is8();
    Pow2Add(8, 8);
  }

  lemma Pow2Is15()
    ensures Pow2(15) == 0x8000
  {
    Pow2Is8();
    Pow2Add(8, 7);
  }

  lemma Pow2Is8()
    ensures Pow2(8) == 0x100
  {
  }

  /** For a non-negative value, reading the text back with distinct symbols gives the value. */
  lemma BaseNRoundTrip(value: int64, targetBase: int32, targetBaseSymbols: seq<char>)
    requires value >= 0 && 2 <= targetBase <= 64
    requires targetBase as int <= |SymbolsOf(targetBaseSymbols)|
    requires Distinct(SymbolsOf(targetBaseSymbols)[..targetBase])
    ensures BaseN(value, targetBase, Some(targetBaseSymbols)).Success?
    ensures ReadNumeral(BaseN(value, targetBase, Some(targetBaseSymbols)).value,
                        SymbolsOf(targetBaseSymbols)[..targetBase]) == value as int
  {
    var b := targetBase as nat;
    var table := SymbolsOf(targetBaseSymbols)[..targetBase];
    var ds := Digits(value as nat, b);
    assert Spell(ds, SymbolsOf(targetBaseSymbols)) == Spell(ds, table);
    ReadSpelling(ds, table);
    DigitsRoundTrip(value as nat, b);
  }

  /** `ToBaseN` itself: the guards, then the loop of `WriteDigits`. The default symbols are a
      copy of `Base64Chars`. */
  method ToBaseN(value: int64, targetBase: int32, targetBaseSymbols: array?<char>) returns (r: Result<string>)
    ensures r == BaseN(value, targetBase, if targetBaseSymbols == null then None else Some(targetBaseSymbols[..]))
  {
    if targetBase < 2 || targetBase > 64 {
      return Failure(ArgumentOutOfRangeException);
    }
    if targetBaseSymbols == null {
      return Failure(NullReferenceException);
    }
    var symbols := targetBaseSymbols;
    if symbols.Length == 0 {
      Base64CharsIsTable();
      symbols := new char[64](i requires 0 <= i < 64 => Base64Chars[i]);
      assert symbols[..] == Base64Chars;
    }
    assert symbols[..] == SymbolsOf(targetBaseSymbols[..]);
    if targetBase as int > symbols.Length {
      return Failure(BaseException);
    }
    r := WriteDigits(value, targetBase as int, symbols);
  }

  /** The loop of `ToBaseN` and the reversal after it. The stack buffer is an array of 64
      characters and `Span.Reverse` the method `ReversePrefix`. The buffer is large enough
      because a non-negative `long` has at most 63 binary digits. */
  method WriteDigits(value: int64, b: int, symbols: array<char>) returns (r: Result<string>)
    requires 2 <= b <= symbols.Length
    ensures value >= 0 ==> r == Success(Spell(Digits(value as nat, b), symbols[..]))
    ensures value < 0 && Rem(value as int, b) == 0 ==> r == Success([symbols[0]])
    ensures value < 0 && Rem(value as int, b) != 0 ==> r == Failure(IndexOutOfRangeException)
  {
    if value >= 0 {
      Pow2Is63();
      DigitsLength(value as nat, b, 63);
    }
    var buffer := new char[64];
    var offset := 0;
    var v: int := value as int;
    ghost var low: seq<nat> := [];
    while true
      invariant Writing(value as int, b, symbols, buffer, offset, v, low)
      decreases if v > 0 then v else 0
    {
      var failed, last;
      offset, v, low, failed, last := DigitPass(value as int, b, symbols, buffer, offset, v, low);
      if failed {
        return Failure(IndexOutOfRangeException);
      }
      if last {
        break;
      }
    }
    var text := ReverseText(buffer, offset, low, symbols[..]);
    if value < 0 {
      assert text == [symbols[0]];
    }
    return Success(text);
  }

  /** The state of the loop in `ToBaseN` before a pass: for a non-negative value, the
      digits written so far, least significant first, and the digits of what is left make
      up the digits of the value; a negative value is still waiting for its first pass. */
  ghost predicate Writing(value: int, b: int, symbols: array<char>, buffer: array<char>, offset: int, v: int, low: seq<nat>)
    reads symbols, buffer
  {
    && 2 <= b <= symbols.Length && buffer.Length == 64 && buffer != symbols
    && 0 <= offset <= 63 && |low| == offset
    && (value < 0 ==> offset == 0 && v == value)
    && (value >= 0 ==> v >= 0 && |Digits(value, b)| <= 63 && Digits(value, b) == Digits(v, b) + low)
    && (offset > 0 ==> v > 0)
    && (forall i | 0 <= i < |low| :: low[i] < b)
    && buffer[..offset] == Reversed(Spell(low, symbols[..]))
  }

  /** One pass of the do/while loop of `ToBaseN`: a negative remainder indexes outside the
      symbols; otherwise its symbol is written and the value divided, and the loop ends
      when the quotient is not positive, with every digit of the value written. */
  method DigitPass(ghost value: int, b: int, symbols: array<char>, buffer: array<char>, offset: int, v: int, ghost low: seq<nat>)
      returns (offset': int, v': int, ghost low': seq<nat>, failed: bool, last: bool)
    requires Writing(value, b, symbols, buffer, offset, v, low)
    modifies buffer
    ensures failed <==> Rem(v, b) < 0
    ensures failed ==> value < 0 && Rem(value, b) != 0
    ensures !failed && !last ==> Writing(value, b, symbols, buffer, offset', v', low') && 0 < v' < v
    ensures !failed && last ==> forall i | 0 <= i < |low'| :: low'[i] < symbols.Length
    ensures !failed && last ==> |low'| == offset' <= buffer.Length && buffer[..offset'] == Reversed(Spell(low', symbols[..]))
    ensures !failed && last && value >= 0 ==> low' == Digits(value, b)
    ensures !failed && last && value < 0 ==> Rem(value, b) == 0 && low' == [0]
  {
    var d := Rem(v, b);
    if d < 0 {
      return offset, v, low, true, false;
    }
    DigitStep(v, b);
    offset' := PushDigit(buffer, offset, symbols, d, low, symbols[..]);
    v' := Div(v, b);
    low' := [d] + low;
    failed, last := false, v' <= 0;
  }

  /** `buffer[offset++] = targetBaseSymbols[value % targetBase]`: the symbol of the next
      digit goes after the ones written so far. */
  method PushDigit(buffer: array<char>, offset: nat, symbols: array<char>, d: nat, ghost low: seq<nat>, ghost table: string)
      returns (next: nat)
    requires buffer != symbols && symbols[..] == table && d < |table|
    requires offset < buffer.Length && |low| == offset
    requires forall i | 0 <= i < |low| :: low[i] < |table|
    requires buffer[..offset] == Reversed(Spell(low, table))
    modifies buffer
    ensures next == offset + 1
    ensures buffer[..next] == Reversed(Spell([d] + low, table))
  {
    ghost var prefix := buffer[..offset];
    buffer[offset] := symbols[d];
    next := offset + 1;
    SpellPrepend(d, low, table);
    assert buffer[..next] == prefix + [table[d]];
  }

  /** `buffer[0..offset].Reverse()` and the string of the first `offset` characters: the
      symbols come out most significant first. */
  method ReverseText(buffer: array<char>, offset: nat, ghost low: seq<nat>, ghost table: string)
      returns (text: string)
    requires offset <= buffer.Length && |low| == offset
    requires forall i | 0 <= i < |low| :: low[i] < |table|
    requires buffer[..offset] == Reversed(Spell(low, table))
    modifies buffer
    ensures text == Spell(low, table)
  {
    ReversePrefix(buffer, offset);
    text := buffer[..offset];
    ReversedTwice(Spell(low, table));
  }

  /** One pass of the loop in `ToBaseN` on the digits: C#'s truncating `/` and `%` agree
      with Dafny's on a non-negative value, the quotient is smaller and not positive below
      the base, and the remainder is the last digit. */
  lemma DigitStep(v: int, b: int)
    requires b >= 2
    ensures v >= 0 ==> Div(v, b) == v / b && Rem(v, b) == v % b
    ensures v > 0 ==> Div(v, b) < v
    ensures v < 0 ==> Div(v, b) <= 0 && Rem(v, b) <= 0
    ensures 0 <= v < b ==> Div(v, b) == 0 && Rem(v, b) == v && Digits(v, b) == [v]
    ensures v >= b ==> Div(v, b) > 0 && Digits(v, b) == Digits(Div(v, b), b) + [Rem(v, b)]
  {
    if v >= 0 {
      DigitsUnfold(v, b);
      if v < b {
        DivModUnique(v, b, 0, v);
      }
    }
  }

  /** One step of `Digits`: a value below the base is one digit; otherwise the last digit
      is the remainder and the rest are the digits of the quotient, which is positive and
      smaller. */
  lemma DigitsUnfold(v: nat, b: nat)
    requires b >= 2
    ensures v < b ==> Digits(v, b) == [v]
    ensures v >= b ==> 1 <= v / b < v && Digits(v, b) == Digits(v / b, b) + [v % b]
  {
    if v >= b {
      QuotientSmaller(v, b);
    }
  }

  /** The buffer holds the digits least significant first: a new most significant digit
      goes at its end. */
  lemma SpellPrepend(d: nat, ds: seq<nat>, table: string)
    requires d < |table| && forall i | 0 <= i < |ds| :: ds[i] < |table|
    ensures Reversed(Spell([d] + ds, table)) == Reversed(Spell(ds, table)) + [table[d]]
  {
  }

  /** The reversal of a sequence. */
  function Reversed(s: seq<char>): (r: seq<char>)
    ensures |r| == |s|
    ensures forall i | 0 <= i < |s| :: r[i] == s[|s| - 1 - i]
  {
    seq(|s|, i requires 0 <= i < |s| => s[|s| - 1 - i])
  }

  /** Reversing twice gives the sequence back. */
  lemma ReversedTwice(s: seq<char>)
    ensures Reversed(Reversed(s)) == s
  {
  }

  /** `buffer[0..n].Reverse()`: swaps the ends of the prefix pairwise towards the middle. */
  method ReversePrefix(a: array<char>, n: nat)
    requires n <= a.Length
    modifies a
    ensures a[..n] == Reversed(old(a[..n]))
    ensures a[n..] == old(a[n..])
  {
    ghost var s := a[..n];
    var i, j := 0, n;
    while i + 1 < j
      invariant 0 <= i && j <= n && i + j == n
      invariant forall k | 0 <= k < i :: a[k] == s[n - 1 - k] && a[n - 1 - k] == s[k]
      invariant forall k | i <= k < j :: a[k] == s[k]
      invariant a[n..] == old(a[n..])
    {
      a[i], a[j - 1] := a[j - 1], a[i];
      i, j := i + 1, j - 1;
    }
  }

  // ---------------------------------------------------------------- vectors

  /** 1000 in bases 2, 8, 16 and 64 with the default symbols. */
  lemma BaseNVectors()
    ensures BaseN(1000, 2, Some([])) == Success("1111101000")
    ensures BaseN(1000, 8, Some([])) == Success("1750")
    ensures BaseN(1000, 16, Some([])) == Success("3E8")
    ensures BaseN(1000, 64, Some([])) == Success("Fe")
  {
    Binary1000();
    Octal1000();
    Hexadecimal1000();
    Base64Of1000();
  }

  lemma Binary1000()
    ensures BaseN(1000, 2, Some([])) == Success("1111101000")
  {
    var ds := [1, 1, 1, 1, 1, 0, 1, 0, 0, 0];
    Binary1000Low();
    Binary31();
    assert Digits(1000, 2) == ds;
    Binary1000Text(ds);
  }

  lemma Binary1000Low()
    ensures Digits(1000, 2) == Digits(31, 2) + [0, 1, 0, 0, 0]
  {
    DigitsUnfold(1000, 2);
    DigitsUnfold(500, 2);
    DigitsUnfold(250, 2);
    DigitsUnfold(125, 2);
    DigitsUnfold(62, 2);
  }

  lemma Binary31()
    ensures Digits(31, 2) == [1, 1, 1, 1, 1]
  {
    DigitsUnfold(31, 2);
    DigitsUnfold(15, 2);
    DigitsUnfold(7, 2);
    DigitsUnfold(3, 2);
    DigitsUnfold(1, 2);
  }

  lemma Binary1000Text(ds: seq<nat>)
    requires ds == [1, 1, 1, 1, 1, 0, 1, 0, 0, 0]
    ensures Spell(ds, Base64Chars) == "1111101000"
  {
    Base64CharsIsTable();
  }

  lemma Octal1000()
    ensures BaseN(1000, 8, Some([])) == Success("1750")
  {
    var ds := [1, 7, 5, 0];
    DigitsUnfold(1000, 8);
    DigitsUnfold(125, 8);
    DigitsUnfold(15, 8);
    DigitsUnfold(1, 8);
    assert Digits(1000, 8) == ds;
    Base64CharsIsTable();
    assert Spell(ds, Base64Chars) == "1750";
  }

  lemma Hexadecimal1000()
    ensures BaseN(1000, 16, Some([])) == Success("3E8")
  {
    var ds := [3, 14, 8];
    DigitsUnfold(1000, 16);
    DigitsUnfold(62, 16);
    DigitsUnfold(3, 16);
    assert Digits(1000, 16) == ds;
    Base64CharsIsTable();
    assert Spell(ds, Base64Chars) == "3E8";
  }

  lemma Base64Of1000()
    ensures BaseN(1000, 64, Some([])) == Success("Fe")
  {
    var ds := [15, 40];
    DigitsUnfold(1000, 64);
    DigitsUnfold(15, 64);
    assert Digits(1000, 64) == ds;
    Base64CharsIsTable();
    assert Spell(ds, Base64Chars) == "Fe";
  }

  /** Base 1 and base 65 are out of range, and a negative multiple of the base comes out as
      the zero symbol alone: -10 in base 2 is "0". */
  lemma BaseNEdgeVectors()
    ensures BaseN(10, 1, Some([])) == Failure(ArgumentOutOfRangeException)
    ensures BaseN(10, 65, Some([])) == Failure(ArgumentOutOfRangeException)
    ensures BaseN(-10, 2, Some([])) == Success("0")
    ensures BaseN(-9, 2, Some([])) == Failure(IndexOutOfRangeException)
    ensures BaseN(10, 2, Some(['0'])) == Failure(BaseException)
  {
    Base64CharsIsTable();
  }
}
