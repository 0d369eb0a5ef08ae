/** The parts of the .NET runtime that the helpers rely on: C#'s fixed-width integers and
    their truncating division, the exceptions the helpers throw, and the string and character
    primitives they call (`IndexOf`, `LastIndexOf`, `char.ToUpperInvariant`,
    `string.IsNullOrWhiteSpace`). */
module DotNet {

  /** C# `int` and `long`. */
  newtype int32 = x: int | -0x8000_0000 <= x < 0x8000_0000
  newtype int64 = x: int | -0x8000_0000_0000_0000 <= x < 0x8000_0000_0000_0000

  const Int32Modulus: int := 0x1_0000_0000

  /** C# `byte`, an 8-bit unsigned value. */
  type byte = x: nat | x < 256

  /** The exceptions the modelled helpers can throw. */
  datatype Exception =
    | ArgumentNullException
    | ArgumentException
    | ArgumentOutOfRangeException
      /** thrown by the decoder for a character outside the alphabet, with its code and position */
    | InvalidOperationException(character: char, position: nat)
    | IndexOutOfRangeException
    | NullReferenceException
    | OverflowException
      /** a plain `System.Exception` */
    | BaseException

  /** The outcome of a call that either returns a value or throws. */
  datatype Result<T> = Success(value: T) | Failure(error: Exception)

  /** A reference that may be null. */
  datatype Option<T> = None | Some(value: T)

  function Abs(x: int): nat { if x < 0 then -x else x }

  /** C#'s integer `/`: the quotient rounded toward zero (Dafny's own `/` is Euclidean). */
  function Div(a: int, b: int): (q: int)
    requires b != 0
    ensures 0 <= a && 0 < b ==> q == a / b
  {
    if a >= 0 && b > 0 then a / b
    else if a >= 0 then -(a / -b)
    else if b > 0 then -((-a) / b)
    else (-a) / (-b)
  }

  /** C#'s integer `%`: the remainder has the sign of the dividend. */
  function Rem(a: int, b: int): (r: int)
    requires b != 0
    ensures a == b * Div(a, b) + r
    ensures 0 <= a && 0 < b ==> r == a % b
    ensures 0 <= a ==> 0 <= r < Abs(b)
    ensures a < 0 ==> 0 < r + Abs(b) && r <= 0
  {
    if a >= 0 && b > 0 then a % b
    else if a >= 0 then a % -b
    else if b > 0 then -((-a) % b)
    else -((-a) % -b)
  }

  /** `Math.Min`. */
  function Min(a: int, b: int): (m: int)
    ensures m <= a && m <= b && (m == a || m == b)
  {
    if a <= b then a else b
  }

  /** The value of `x` after unchecked 32-bit arithmetic wraps it around. */
  function Wrap32(x: int): (w: int)
    ensures -0x8000_0000 <= w < 0x8000_0000
    ensures (x - w) % Int32Modulus == 0
    ensures -0x8000_0000 <= x < 0x8000_0000 ==> w == x
  {
    var m := x % Int32Modulus;
    if m < 0x8000_0000 then m else m - Int32Modulus
  }

  /** `s.IndexOf(c)`: the first position of `c`, or -1. */
  function IndexOf(s: string, c: char): (i: int)
    ensures -1 <= i < |s|
    ensures i == -1 <==> c !in s
    ensures 0 <= i ==> s[i] == c
    ensures forall j | 0 <= j < i :: s[j] != c
  {
    if s == [] then -1
    else if s[0] == c then 0
    else
      var j := IndexOf(s[1..], c);
      assert forall k | 0 < k < |s| :: s[1..][k - 1] == s[k];
      if j < 0 then -1 else j + 1
  }

  /** `s.LastIndexOf(c)`: the last position of `c`, or -1. */
  function LastIndexOf(s: string, c: char): (i: int)
    ensures -1 <= i < |s|
    ensures i == -1 <==> c !in s
    ensures 0 <= i ==> s[i] == c
    ensures forall j | i < j < |s| :: s[j] != c
  {
    if s == [] then -1
    else if s[|s| - 1] == c then |s| - 1
    else
      assert s == s[..|s| - 1] + [s[|s| - 1]];
      LastIndexOf(s[..|s| - 1], c)
  }

  /** `IndexOf` finds the first occurrence. */
  lemma {:induction false} IndexOfFirst(s: string, c: char, k: nat)
    requires k < |s| && s[k] == c
    requires forall i | 0 <= i < k :: s[i] != c
    ensures IndexOf(s, c) == k
  {
    if k > 0 {
      IndexOfFirst(s[1..], c, k - 1);
    }
  }

  /** `LastIndexOf` finds the last occurrence. */
  lemma {:induction false} LastIndexOfLast(s: string, c: char, k: nat)
    requires k < |s| && s[k] == c
    requires forall i | k < i < |s| :: s[i] != c
    ensures LastIndexOf(s, c) == k
  {
    if k < |s| - 1 {
      LastIndexOfLast(s[..|s| - 1], c, k);
    }
  }

  /** `char.ToUpperInvariant`, restricted to the mappings whose results are ASCII: the
      letters a-z and the long s (U+017F, to 'S'). The dotless i (U+0131) is its own
      upper case in the invariant culture. Every other character is left as it is. */
  function ToUpperInvariant(c: char): (u: char)
    ensures 'A' <= u <= 'Z' <==> 'A' <= c <= 'Z' || 'a' <= c <= 'z' || c == '\U{017F}'
    ensures 'a' <= c <= 'z' ==> u as int == c as int - 32
    ensures !('a' <= c <= 'z' || c == '\U{017F}') ==> u == c
  {
    if 'a' <= c <= 'z' then (c as int - 32) as char
    else if c == '\U{017F}' then 'S'
    else c
  }

  /** `char.IsWhiteSpace`: the Unicode space, line and paragraph separators, the controls
      U+0009 to U+000D and U+0085. */
  predicate IsWhiteSpace(c: char)
  {
    || '\U{0009}' <= c <= '\U{000D}'
    || c == ' ' || c == '\U{0085}' || c == '\U{00A0}' || c == '\U{1680}'
    || '\U{2000}' <= c <= '\U{200A}'
    || c == '\U{2028}' || c == '\U{2029}' || c == '\U{202F}' || c == '\U{205F}' || c == '\U{3000}'
  }

  /** `string.IsNullOrWhiteSpace` for a string that is not null. */
  function IsBlank(s: string): (blank: bool)
    ensures |s| == 0 ==> blank
    ensures (exists i | 0 <= i < |s| :: 'A' <= s[i] <= 'Z' || '0' <= s[i] <= '9' || s[i] == '=') ==> !blank
  {
    forall i | 0 <= i < |s| :: IsWhiteSpace(s[i])
  }
}
