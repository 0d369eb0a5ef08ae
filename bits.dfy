/** Unsigned bit arithmetic on natural numbers, and big-endian bit strings.

    C#'s shift and bitwise operators on non-negative operands are modelled by: `x << k` is
    `Shl(x, k)` (before any truncation to the operand's width), `x >> k` is `Shr(x, k)`,
    `x | y` is `BitOr(x, y)` and `x & y` is `BitAnd(x, y)`; `Low(x, k)` is the k low bits
    of x. The three shift functions are defined bit by bit, so that reasoning about them
    stays linear. */
module Bits {

  function Pow2(k: nat): (p: nat)
    ensures p >= 1
  {
    if k == 0 then 1 else 2 * Pow2(k - 1)
  }

  lemma {:induction false} Pow2Add(a: nat, b: nat)
    ensures Pow2(a + b) == Pow2(a) * Pow2(b)
  {
    if a > 0 {
      Pow2Add(a - 1, b);
      calc {
        Pow2(a + b);
        2 * Pow2(a - 1 + b);
        2 * (Pow2(a - 1) * Pow2(b));
        (2 * Pow2(a - 1)) * Pow2(b);
      }
    }
  }

  lemma {:induction false} Pow2Monotone(a: nat, b: nat)
    requires a <= b
    ensures Pow2(a) <= Pow2(b)
  {
    if a < b {
      Pow2Monotone(a, b - 1);
    }
  }

  lemma {:induction false} MulAtLeast(d: nat, m: nat)
    requires d >= 1
    ensures d * m >= m
  {
    if d > 1 {
      MulAtLeast(d - 1, m);
      assert d * m == (d - 1) * m + m;
    }
  }

  lemma MulSucc(w: nat, j: nat)
    ensures w * (j + 1) == w * j + w
  {
  }

  /** A quotient and remainder pair is unique. */
  lemma DivModUnique(x: int, m: int, q: int, r: int)
    requires 0 < m && 0 <= r < m && x == q * m + r
    ensures x / m == q && x % m == r
  {
    var q', r' := x / m, x % m;
    assert x == q' * m + r';
    assert (q - q') * m == r' - r by {
      assert (q - q') * m == q * m - q' * m;
    }
    if q > q' {
      MulAtLeast(q - q', m);
    } else if q < q' {
      MulAtLeast(q' - q, m);
    }
  }

  /** Division with remainder on naturals. */
  lemma QuotientRemainder(v: nat, b: nat)
    requires b > 0
    ensures v == v / b * b + v % b && v % b < b
  {
  }

  lemma MulMonotone(x: nat, y: nat, m: nat)
    requires x <= y
    ensures x * m <= y * m
  {
    assert y * m == x * m + (y - x) * m;
  }

  lemma MulPred(q: int, p: int)
    ensures (q - 1) * p == q * p - p
  {
  }

  /** A positive multiple of w is at least w, and stays a multiple when w is taken away. */
  lemma DropMultiple(n: nat, w: nat)
    requires w > 0 && n > 0 && n % w == 0
    ensures n >= w && (n - w) % w == 0
  {
    if n < w {
      DivModUnique(n, w, 0, n);
    }
    var q := n / w;
    assert n == q * w;
    assert n - w == (q - 1) * w;
    DivModUnique(n - w, w, q - 1, 0);
  }

  /** Dividing by two, then by P, is dividing by 2 * P; the remainders combine likewise. */
  lemma HalveDivMod(x: nat, p: nat)
    requires p > 0
    ensures x / (2 * p) == (x / 2) / p
    ensures x % (2 * p) == 2 * ((x / 2) % p) + x % 2
  {
    var h, b := x / 2, x % 2;
    var q, r := h / p, h % p;
    assert x == q * (2 * p) + (2 * r + b);
    DivModUnique(x, 2 * p, q, 2 * r + b);
  }

  /** `HalveDivMod` for a power of two, stated on `Pow2(k)` itself. */
  lemma HalvePow2(x: nat, k: nat)
    requires k > 0
    ensures x / Pow2(k) == (x / 2) / Pow2(k - 1)
    ensures x % Pow2(k) == 2 * ((x / 2) % Pow2(k - 1)) + x % 2
  {
    HalveDivMod(x, Pow2(k - 1));
  }

  /** `x << k` before any truncation: x with k zero bits appended. */
  function Shl(x: nat, k: nat): nat
  {
    if k == 0 then x else 2 * Shl(x, k - 1)
  }

  /** `x >> k` on a non-negative value: x with its k low bits dropped. */
  function Shr(x: nat, k: nat): nat
  {
    if k == 0 then x else Shr(x / 2, k - 1)
  }

  /** The k low bits of x, as `x & ((1 << k) - 1)` keeps them. */
  function Low(x: nat, k: nat): nat
  {
    if k == 0 then 0 else 2 * Low(x / 2, k - 1) + x % 2
  }

  /** The k low bits fit in k bits. */
  lemma {:induction false} LowBound(x: nat, k: nat)
    ensures Low(x, k) < Pow2(k)
  {
    if k > 0 {
      LowBound(x / 2, k - 1);
    }
  }

  lemma {:induction false} ShlZero(k: nat)
    ensures Shl(0, k) == 0
  {
    if k > 0 {
      ShlZero(k - 1);
    }
  }

  /** Shifting left by k multiplies by 2^k. */
  lemma {:induction false} ShlIsMul(x: nat, k: nat)
    ensures Shl(x, k) == x * Pow2(k)
  {
    if k > 0 {
      ShlIsMul(x, k - 1);
      assert x * Pow2(k) == 2 * (x * Pow2(k - 1));
    }
  }

  lemma Shl8(x: nat)
    ensures Shl(x, 8) == 256 * x
  {
    ShlIsMul(x, 8);
  }

  /** Shifting distributes over a sum. */
  lemma {:induction false} ShlOfSum(x: nat, y: nat, k: nat)
    ensures Shl(x + y, k) == Shl(x, k) + Shl(y, k)
  {
    if k > 0 {
      ShlOfSum(x, y, k - 1);
    }
  }

  /** Two shifts in a row are one shift by the sum. */
  lemma {:induction false} ShlAdd(x: nat, a: nat, b: nat)
    ensures Shl(Shl(x, a), b) == Shl(x, a + b)
  {
    if b > 0 {
      ShlAdd(x, a, b - 1);
    }
  }

  /** An n-bit value shifted left by k, with a k-bit value below it, fits in n + k bits. */
  lemma {:induction false} ShlBound(x: nat, n: nat, y: nat, k: nat)
    requires x < Pow2(n) && y < Pow2(k)
    ensures Shl(x, k) + y < Pow2(n + k)
  {
    if k > 0 {
      ShlBound(x, n, y / 2, k - 1);
    }
  }

  /** A value is its high part shifted back into place plus its low bits. */
  lemma {:induction false} Split(x: nat, k: nat)
    ensures x == Shl(Shr(x, k), k) + Low(x, k)
  {
    if k > 0 {
      Split(x / 2, k - 1);
    }
  }

  /** A value put above k low bits y < 2^k is recovered by the shift right, y by the mask. */
  lemma {:induction false} ShrLowOfAppend(x: nat, y: nat, k: nat)
    requires y < Pow2(k)
    ensures Shr(Shl(x, k) + y, k) == x
    ensures Low(Shl(x, k) + y, k) == y
  {
    if k > 0 {
      var z := Shl(x, k) + y;
      assert z / 2 == Shl(x, k - 1) + y / 2 && z % 2 == y % 2;
      ShrLowOfAppend(x, y / 2, k - 1);
    }
  }

  /** A value that fits in k bits is its own low k bits. */
  lemma LowOfSmall(x: nat, k: nat)
    requires x < Pow2(k)
    ensures Low(x, k) == x
  {
    ShlZero(k);
    ShrLowOfAppend(0, x, k);
  }

  /** Keeping the low n bits, then the low k <= n bits, keeps the low k bits. */
  lemma {:induction false} LowOfLow(x: nat, k: nat, n: nat)
    requires k <= n
    ensures Low(Low(x, n), k) == Low(x, k)
  {
    if k > 0 {
      var y := Low(x, n);
      assert y / 2 == Low(x / 2, n - 1) && y % 2 == x % 2;
      LowOfLow(x / 2, k - 1, n - 1);
    }
  }

  /** The low n bits of x shifted left by a <= n are the low n - a bits of x, shifted. */
  lemma {:induction false} LowOfShl(x: nat, a: nat, n: nat)
    requires a <= n
    ensures Low(Shl(x, a), n) == Shl(Low(x, n - a), a)
  {
    if a > 0 {
      var z := Shl(x, a);
      assert z / 2 == Shl(x, a - 1) && z % 2 == 0;
      LowOfShl(x, a - 1, n - 1);
    }
  }

  /** Putting a bits t below q and keeping k + a bits keeps the low k bits of q. */
  lemma {:induction false} LowOfAppend(q: nat, a: nat, t: nat, k: nat)
    requires t < Pow2(a)
    ensures Low(Shl(q, a) + t, k + a) == Shl(Low(q, k), a) + t
  {
    if a > 0 {
      var z, h := Shl(q, a) + t, Shl(q, a - 1) + t / 2;
      assert z / 2 == h && z % 2 == t % 2;
      assert Low(z, k + a) == 2 * Low(h, k + (a - 1)) + t % 2;
      LowOfAppend(q, a - 1, t / 2, k);
      assert Shl(Low(q, k), a) == 2 * Shl(Low(q, k), a - 1);
    }
  }

  /** Bits at n and above do not reach the w <= n low bits. */
  lemma {:induction false} LowOfHigh(x: nat, n: nat, v: nat, w: nat)
    requires w <= n
    ensures Low(Shl(x, n) + v, w) == Low(v, w)
  {
    if w > 0 {
      var z := Shl(x, n) + v;
      assert z / 2 == Shl(x, n - 1) + v / 2 && z % 2 == v % 2;
      LowOfHigh(x, n - 1, v / 2, w - 1);
    }
  }

  /** Shifting right by sh <= n moves bits at n and above down to n - sh. */
  lemma {:induction false} ShrOfHigh(x: nat, n: nat, v: nat, sh: nat)
    requires sh <= n
    ensures Shr(Shl(x, n) + v, sh) == Shl(x, n - sh) + Shr(v, sh)
  {
    if sh > 0 {
      var z := Shl(x, n) + v;
      assert z / 2 == Shl(x, n - 1) + v / 2;
      ShrOfHigh(x, n - 1, v / 2, sh - 1);
    }
  }

  /** Bits at n and above do not reach a w-bit field read with a shift sh when sh + w <= n. */
  lemma FieldIgnoresHighBits(x: nat, v: nat, n: nat, sh: nat, w: nat)
    requires sh + w <= n
    ensures Low(Shr(Shl(x, n) + v, sh), w) == Low(Shr(v, sh), w)
  {
    ShrOfHigh(x, n, v, sh);
    LowOfHigh(x, n - sh, Shr(v, sh), w);
  }

  /** An n-bit value shifted right by k <= n fits in n - k bits. */
  lemma {:induction false} ShrBound(x: nat, n: nat, k: nat)
    requires x < Pow2(n) && k <= n
    ensures Shr(x, k) < Pow2(n - k)
  {
    if k > 0 {
      ShrBound(x / 2, n - 1, k - 1);
    }
  }

  /** The k low bits are the remainder by 2^k. */
  lemma {:induction false} LowIsMod(x: nat, k: nat)
    ensures Low(x, k) == x % Pow2(k)
  {
    if k > 0 {
      LowIsMod(x / 2, k - 1);
      HalvePow2(x, k);
    }
  }

  /** `x | y` on non-negative integers. */
  function BitOr(x: nat, y: nat): nat
    decreases x + y
  {
    if x == 0 then y
    else if y == 0 then x
    else 2 * BitOr(x / 2, y / 2) + (if x % 2 == 1 || y % 2 == 1 then 1 else 0)
  }

  /** ORing a value into zero low bits that can hold it is addition. */
  lemma {:induction false} BitOrDisjoint(x: nat, k: nat, y: nat)
    requires y < Pow2(k)
    ensures BitOr(Shl(x, k), y) == Shl(x, k) + y
  {
    var z := Shl(x, k);
    if k == 0 || z == 0 || y == 0 {
    } else {
      assert z / 2 == Shl(x, k - 1) && z % 2 == 0;
      BitOrDisjoint(x, k - 1, y / 2);
    }
  }

  /** `x & y` on non-negative integers. */
  function BitAnd(x: nat, y: nat): nat
    decreases x + y
  {
    if x == 0 || y == 0 then 0
    else 2 * BitAnd(x / 2, y / 2) + (if x % 2 == 1 && y % 2 == 1 then 1 else 0)
  }

  /** ANDing with a mask of k one bits keeps the k low bits. */
  lemma {:induction false} BitAndMask(x: nat, k: nat)
    ensures BitAnd(x, Pow2(k) - 1) == Low(x, k)
  {
    if k > 0 {
      BitAndOddMask(x, Pow2(k - 1) - 1, Pow2(k) - 1);
      BitAndMask(x / 2, k - 1);
    }
  }

  /** A mask with its lowest bit set keeps x's lowest bit and masks the rest of x by the rest. */
  lemma BitAndOddMask(x: nat, h: nat, m: nat)
    requires m == 2 * h + 1
    ensures BitAnd(x, m) == 2 * BitAnd(x / 2, h) + x % 2
  {
    assert m / 2 == h && m % 2 == 1;
  }

  /** The value of a big-endian bit string, most significant bit first. */
  function BitsToNat(s: seq<bool>): nat
  {
    if s == [] then 0 else 2 * BitsToNat(s[..|s| - 1]) + (if s[|s| - 1] then 1 else 0)
  }

  /** A string of k bits stands for a number below 2^k. */
  lemma {:induction false} BitsToNatBound(s: seq<bool>)
    ensures BitsToNat(s) < Pow2(|s|)
  {
    if s != [] {
      BitsToNatBound(s[..|s| - 1]);
    }
  }

  /** The w-bit big-endian bit string of v, modulo 2^w. */
  function NatToBits(v: nat, w: nat): (s: seq<bool>)
    ensures |s| == w
  {
    if w == 0 then [] else NatToBits(v / 2, w - 1) + [v % 2 == 1]
  }

  function Zeros(k: nat): seq<bool>
  {
    seq(k, _ => false)
  }

  lemma {:induction false} BitsToNatAppend(s: seq<bool>, t: seq<bool>)
    ensures BitsToNat(s + t) == Shl(BitsToNat(s), |t|) + BitsToNat(t)
  {
    if t == [] {
      assert s + t == s;
    } else {
      var t' := t[..|t| - 1];
      assert (s + t)[..|s + t| - 1] == s + t';
      BitsToNatAppend(s, t');
    }
  }

  lemma {:induction false} BitsToNatOfNat(v: nat, w: nat)
    ensures BitsToNat(NatToBits(v, w)) == Low(v, w)
  {
    if w > 0 {
      var s := NatToBits(v, w);
      assert s[..w - 1] == NatToBits(v / 2, w - 1);
      BitsToNatOfNat(v / 2, w - 1);
    }
  }

  lemma {:induction false} NatToBitsOfBits(s: seq<bool>)
    ensures NatToBits(BitsToNat(s), |s|) == s
  {
    if s != [] {
      var s' := s[..|s| - 1];
      var v := BitsToNat(s);
      assert v / 2 == BitsToNat(s');
      NatToBitsOfBits(s');
      assert s == s' + [s[|s| - 1]];
    }
  }

  lemma {:induction false} BitsToNatZeros(k: nat)
    ensures BitsToNat(Zeros(k)) == 0
  {
    if k > 0 {
      assert Zeros(k)[..k - 1] == Zeros(k - 1);
      BitsToNatZeros(k - 1);
    }
  }

  lemma {:induction false} NatToBitsZero(w: nat)
    ensures NatToBits(0, w) == Zeros(w)
  {
    if w > 0 {
      NatToBitsZero(w - 1);
    }
  }

  /** The value of s splits at j into the value of its first j bits, shifted up past the
      rest, and the value of the rest. */
  lemma BitsSplit(s: seq<bool>, j: nat, k: nat)
    requires j <= |s| && k == |s| - j
    ensures Shr(BitsToNat(s), k) == BitsToNat(s[..j])
    ensures Low(BitsToNat(s), k) == BitsToNat(s[j..])
  {
    var front, back := s[..j], s[j..];
    assert s == front + back;
    assert |back| == k;
    BitsToNatAppend(front, back);
    BitsToNatBound(back);
    ShrLowOfAppend(BitsToNat(front), BitsToNat(back), k);
  }

  /** Bits i to j of s, as a number, are what the shift right by |s| - j and the mask of
      j - i bits extract from the value of s. */
  lemma BitsSlice(s: seq<bool>, i: nat, j: nat)
    requires i <= j <= |s|
    ensures Low(Shr(BitsToNat(s), |s| - j), j - i) == BitsToNat(s[i..j])
  {
    var front := s[..j];
    assert Shr(BitsToNat(s), |s| - j) == BitsToNat(front) by {
      BitsSplit(s, j, |s| - j);
    }
    assert Low(BitsToNat(front), j - i) == BitsToNat(front[i..]) by {
      BitsSplit(front, i, j - i);
    }
    assert front[i..] == s[i..j];
  }

  /** The number that bits i to j of s stand for, read without cutting s. */
  function BitsValue(s: seq<bool>, i: nat, j: nat): nat
    requires i <= j <= |s|
    decreases j
  {
    if j == i then 0 else 2 * BitsValue(s, i, j - 1) + (if s[j - 1] then 1 else 0)
  }

  lemma {:induction false} BitsValueIsBits(s: seq<bool>, i: nat, j: nat)
    requires i <= j <= |s|
    ensures BitsValue(s, i, j) == BitsToNat(s[i..j])
    decreases j
  {
    if j > i {
      assert s[i..j][..j - i - 1] == s[i..j - 1];
      BitsValueIsBits(s, i, j - 1);
    }
  }

  /** Bits i to j + a stand for bits i to j shifted past the a bits from j, plus those. */
  lemma {:induction false} BitsValueSplit(s: seq<bool>, i: nat, j: nat, a: nat)
    requires i <= j && j + a <= |s|
    ensures BitsValue(s, i, j + a) == Shl(BitsValue(s, i, j), a) + BitsValue(s, j, j + a)
  {
    if a > 0 {
      BitsValueSplit(s, i, j, a - 1);
    }
  }

  /** Splits a bit string into consecutive w-bit groups read as numbers; a final group
      shorter than w is dropped. */
  function Chunks(s: seq<bool>, w: nat): (vs: seq<nat>)
    requires w > 0
    ensures forall i | 0 <= i < |vs| :: vs[i] < Pow2(w)
    decreases |s|
  {
    if |s| < w then [] else BitsToNatBound(s[..w]); [BitsToNat(s[..w])] + Chunks(s[w..], w)
  }

  /** Concatenates the w-bit big-endian strings of the values. */
  function Unchunk(vs: seq<nat>, w: nat): (s: seq<bool>)
    ensures |s| == w * |vs|
  {
    if vs == [] then [] else NatToBits(vs[0], w) + Unchunk(vs[1..], w)
  }

  lemma {:induction false} ChunksLength(s: seq<bool>, w: nat)
    requires w > 0
    ensures |Chunks(s, w)| == |s| / w
    decreases |s|
  {
    if |s| >= w {
      ChunksLength(s[w..], w);
      DivModUnique(|s|, w, (|s| - w) / w + 1, (|s| - w) % w);
    } else {
      DivModUnique(|s|, w, 0, |s|);
    }
  }

  /** Group j of the chunks is the number the j-th w bits stand for; the offset w * j is
      passed in as o, which keeps the product out of the induction. */
  lemma {:induction false} ChunksAt(s: seq<bool>, w: nat, j: nat, o: nat)
    requires w > 0 && j < |Chunks(s, w)| && o == w * j
    ensures o + w <= |s| && Chunks(s, w)[j] == BitsToNat(s[o..o + w])
    decreases j
  {
    var c := Chunks(s, w);
    assert c == [BitsToNat(s[..w])] + Chunks(s[w..], w);
    if j == 0 {
      assert o == 0;
    } else {
      assert o - w == w * (j - 1) by {
        MulSucc(w, j - 1);
      }
      ChunksAt(s[w..], w, j - 1, o - w);
      assert c[j] == Chunks(s[w..], w)[j - 1];
      var t := s[w..];
      assert t[o - w..o] == s[o..o + w] by {
        assert forall k | o <= k < o + w :: t[k - w] == s[k];
      }
    }
  }

  /** The i-th w bits of an unchunked string, at offset o == w * i, are the bits of the
      i-th value. */
  lemma UnchunkAt(vs: seq<nat>, w: nat, i: nat, o: nat)
    requires i < |vs| && o == w * i
    ensures o + w <= |Unchunk(vs, w)| && Unchunk(vs, w)[o..o + w] == NatToBits(vs[i], w)
  {
    var before, rest := vs[..i], vs[i..];
    assert vs == before + rest;
    UnchunkAppend(before, rest, w);
    var h, t := NatToBits(vs[i], w), Unchunk(rest[1..], w);
    assert Unchunk(rest, w) == h + t;
    var a := Unchunk(before, w);
    assert |a| == o;
    assert (a + (h + t))[|a|..|a| + |h|] == h;
  }

  lemma {:induction false} ChunksOfUnchunk(vs: seq<nat>, w: nat)
    requires w > 0
    requires forall i | 0 <= i < |vs| :: vs[i] < Pow2(w)
    ensures Chunks(Unchunk(vs, w), w) == vs
  {
    if vs != [] {
      var u, rest := Unchunk(vs, w), vs[1..];
      assert |u| >= w && u[..w] == NatToBits(vs[0], w) && u[w..] == Unchunk(rest, w) by {
        UnchunkHead(vs, w);
      }
      assert BitsToNat(u[..w]) == vs[0] by {
        BitsToNatOfNat(vs[0], w);
        LowOfSmall(vs[0], w);
      }
      assert Chunks(Unchunk(rest, w), w) == rest by {
        ChunksOfUnchunk(rest, w);
      }
      assert vs == [vs[0]] + rest;
    }
  }

  /** An unchunked string starts with the bits of the first value. */
  lemma UnchunkHead(vs: seq<nat>, w: nat)
    requires vs != []
    ensures |Unchunk(vs, w)| >= w
    ensures Unchunk(vs, w)[..w] == NatToBits(vs[0], w)
    ensures Unchunk(vs, w)[w..] == Unchunk(vs[1..], w)
  {
    var h, t := NatToBits(vs[0], w), Unchunk(vs[1..], w);
    assert Unchunk(vs, w) == h + t;
    assert (h + t)[..|h|] == h && (h + t)[|h|..] == t;
  }

  lemma {:induction false} UnchunkOfChunks(s: seq<bool>, w: nat)
    requires w > 0 && |s| % w == 0
    ensures Unchunk(Chunks(s, w), w) == s
    decreases |s|
  {
    if |s| > 0 {
      DropMultiple(|s|, w);
      var c := Chunks(s, w);
      assert c == [BitsToNat(s[..w])] + Chunks(s[w..], w);
      assert c[1..] == Chunks(s[w..], w);
      assert Unchunk(c, w) == NatToBits(BitsToNat(s[..w]), w) + Unchunk(Chunks(s[w..], w), w);
      UnchunkOfChunks(s[w..], w);
      NatToBitsOfBits(s[..w]);
      assert s == s[..w] + s[w..];
    }
  }

  lemma {:induction false} ChunksAppend(s: seq<bool>, t: seq<bool>, w: nat)
    requires w > 0 && |s| % w == 0
    ensures Chunks(s + t, w) == Chunks(s, w) + Chunks(t, w)
    decreases |s|
  {
    if s == [] {
      assert s + t == t;
    } else {
      DropMultiple(|s|, w);
      assert (s + t)[..w] == s[..w];
      assert (s + t)[w..] == s[w..] + t;
      ChunksAppend(s[w..], t, w);
    }
  }

  lemma {:induction false} UnchunkAppend(us: seq<nat>, vs: seq<nat>, w: nat)
    ensures Unchunk(us + vs, w) == Unchunk(us, w) + Unchunk(vs, w)
  {
    if us == [] {
      assert us + vs == vs;
    } else {
      assert (us + vs)[1..] == us[1..] + vs;
      UnchunkAppend(us[1..], vs, w);
    }
  }

  /** Bit r of the t-th group of an unchunked string, at offset o == w * t, is bit r of the
      t-th value. */
  lemma UnchunkBit(vs: seq<nat>, w: nat, t: nat, r: nat, o: nat)
    requires t < |vs| && r < w && o == w * t
    ensures o + r < |Unchunk(vs, w)| && Unchunk(vs, w)[o + r] == NatToBits(vs[t], w)[r]
  {
    UnchunkAt(vs, w, t, o);
    var u := Unchunk(vs, w);
    assert u[o..o + w][r] == u[o + r];
  }

  /** Appending one w-bit value shifts the big-endian number left by w and adds the value. */
  lemma UnchunkSnoc(vs: seq<nat>, x: nat, w: nat)
    requires x < Pow2(w)
    ensures BitsToNat(Unchunk(vs + [x], w)) == Shl(BitsToNat(Unchunk(vs, w)), w) + x
  {
    UnchunkAppend(vs, [x], w);
    assert Unchunk([x], w) == NatToBits(x, w) + Unchunk([], w);
    assert Unchunk([x], w) == NatToBits(x, w);
    BitsToNatAppend(Unchunk(vs, w), NatToBits(x, w));
    BitsToNatOfNat(x, w);
    LowOfSmall(x, w);
  }

  /** Cutting zero bits off the end of a zero-filled string leaves a zero-filled string. */
  lemma ZerosPrefix(x: seq<bool>, k: nat, j: nat)
    requires j <= k
    ensures (x + Zeros(k))[..|x| + j] == x + Zeros(j)
  {
  }

  /** Unchunking the first m values gives the first w * m bits (the offset passed in as o). */
  lemma UnchunkPrefix(vs: seq<nat>, w: nat, m: nat, o: nat)
    requires m <= |vs| && o == w * m
    ensures o <= |Unchunk(vs, w)| && Unchunk(vs[..m], w) == Unchunk(vs, w)[..o]
  {
    assert vs == vs[..m] + vs[m..];
    UnchunkAppend(vs[..m], vs[m..], w);
  }

  /** A slice of a slice is a slice. */
  lemma SliceOfSlice<T>(s: seq<T>, a: nat, b: nat, c: nat, d: nat)
    requires a <= b <= |s| && c <= d <= b - a
    ensures s[a..b][c..d] == s[a + c..a + d]
  {
    forall j | 0 <= j < d - c
      ensures s[a..b][c..d][j] == s[a + c..a + d][j]
    {
    }
  }
}
