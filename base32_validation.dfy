/** `EncodingHelpers.ValidateBase32String`, the strict well-formedness test that the decoder
    applies before it reads a character, and its grammar: data symbols followed by a run of
    0, 1, 3, 4 or 6 padding characters, eight characters to a block. */
module Base32Validation {
  import opened DotNet
  import opened Base32Alphabet

  /** The padding counts a Base32 text may end in (RFC 4648, section 6, cases (1) to (5)). */
  predicate IsLegalPaddingCount(p: int)
  {
    p == 0 || p == 1 || p == 3 || p == 4 || p == 6
  }

  /** The differences `LastIndexOf('=') - IndexOf('=')` the validator accepts. */
  predicate IsAcceptedPaddingSpan(k: int)
  {
    k == 0 || k == 2 || k == 3 || k == 5
  }

  /** The validator, check by check; each `false` is one of its early returns. An accepted
      text is of a positive multiple of eight characters, and its first padding character,
      if any, is not one of the first two. */
  function ValidateBase32String(input: string, ignoreCase: bool := true): (valid: bool)
    ensures valid ==> |input| > 0 && |input| % 8 == 0
    ensures valid ==> IndexOf(input, PaddingChar) == -1 || IndexOf(input, PaddingChar) >= 2
  {
    if IsBlank(input) then false
    else if |input| % 8 != 0 then false
    else
      var firstPaddingIndex := IndexOf(input, PaddingChar);
      if firstPaddingIndex > -1 && firstPaddingIndex < 2 then false
      else if HasForeignCharacter(input, ignoreCase) then false
      else if firstPaddingIndex > 0 && HasDataAfter(input, firstPaddingIndex) then false
      else IsAcceptedPaddingSpan(LastIndexOf(input, PaddingChar) - firstPaddingIndex)
  }

  /** Some character folds to neither a symbol nor the padding character. */
  predicate HasForeignCharacter(s: string, ignoreCase: bool)
  {
    exists i | 0 <= i < |s| :: !IsSymbol(Fold(ignoreCase, s[i])) && Fold(ignoreCase, s[i]) != PaddingChar
  }

  /** A text of symbols and padding characters holds no foreign character, whatever the case mode. */
  lemma PlainTextHasNoForeignCharacter(s: string, ignoreCase: bool)
    requires forall i | 0 <= i < |s| :: IsSymbol(s[i]) || s[i] == PaddingChar
    ensures !HasForeignCharacter(s, ignoreCase)
  {
    forall i | 0 <= i < |s|
      ensures IsSymbol(Fold(ignoreCase, s[i])) || Fold(ignoreCase, s[i]) == PaddingChar
    {
      FoldFixes(ignoreCase, s[i]);
    }
  }

  /** Some character after position `first` is not the padding character. */
  predicate HasDataAfter(s: string, first: nat)
  {
    exists i | first < i < |s| :: s[i] != PaddingChar
  }

  /** Where the data symbols end: the first padding character, or the end of the text. */
  function DataLength(s: string): (d: nat)
    ensures d <= |s|
    ensures forall i | 0 <= i < d :: s[i] != PaddingChar
    ensures d < |s| ==> s[d] == PaddingChar
  {
    var i := IndexOf(s, PaddingChar);
    assert forall j | 0 <= j < i :: s[..i][j] == s[j];
    if i < 0 then |s| else i
  }

  /** s is p padding characters after |s| - p characters that fold to symbols. */
  predicate PaddedWith(s: string, ignoreCase: bool, p: int)
  {
    && 0 <= p <= |s|
    && (forall i | 0 <= i < |s| - p :: IsSymbol(Fold(ignoreCase, s[i])))
    && (forall i | |s| - p <= i < |s| :: s[i] == PaddingChar)
  }

  /** The grammar of a Base32 text. */
  predicate WellFormed(s: string, ignoreCase: bool)
  {
    && |s| > 0
    && |s| % 8 == 0
    && exists p | 0 <= p <= |s| :: IsLegalPaddingCount(p) && PaddedWith(s, ignoreCase, p)
  }

  /** In a text of that shape the data symbols end exactly where the padding starts. */
  lemma PaddedDataLength(s: string, ignoreCase: bool, p: int)
    requires PaddedWith(s, ignoreCase, p)
    ensures DataLength(s) == |s| - p
  {
    forall i | 0 <= i < |s| - p
      ensures s[i] != PaddingChar
    {
      FoldedSymbolIsVisible(ignoreCase, s[i]);
    }
    assert p > 0 ==> s[|s| - p] == PaddingChar;
  }

  /** The checks of the validator, one by one, for a text it accepts. */
  lemma ValidFacts(s: string, ignoreCase: bool)
    requires ValidateBase32String(s, ignoreCase)
    ensures |s| > 0 && |s| % 8 == 0
    ensures IndexOf(s, PaddingChar) == -1 || IndexOf(s, PaddingChar) >= 2
    ensures forall i | 0 <= i < |s| :: IsSymbol(Fold(ignoreCase, s[i])) || Fold(ignoreCase, s[i]) == PaddingChar
    ensures IndexOf(s, PaddingChar) > 0 ==> forall i | IndexOf(s, PaddingChar) < i < |s| :: s[i] == PaddingChar
    ensures IsAcceptedPaddingSpan(LastIndexOf(s, PaddingChar) - IndexOf(s, PaddingChar))
  {
  }

  /** The validator accepts a text that passes each of its checks. */
  lemma ValidFromFacts(s: string, ignoreCase: bool)
    requires |s| % 8 == 0 && !IsBlank(s)
    requires IndexOf(s, PaddingChar) == -1 || IndexOf(s, PaddingChar) >= 2
    requires forall i | 0 <= i < |s| :: IsSymbol(Fold(ignoreCase, s[i])) || Fold(ignoreCase, s[i]) == PaddingChar
    requires IndexOf(s, PaddingChar) > 0 ==> forall i | IndexOf(s, PaddingChar) < i < |s| :: s[i] == PaddingChar
    requires IsAcceptedPaddingSpan(LastIndexOf(s, PaddingChar) - IndexOf(s, PaddingChar))
    ensures ValidateBase32String(s, ignoreCase)
  {
  }

  /** The validator accepts exactly the texts of the grammar. */
  lemma ValidateIffWellFormed(s: string, ignoreCase: bool)
    ensures ValidateBase32String(s, ignoreCase) <==> WellFormed(s, ignoreCase)
  {
    if ValidateBase32String(s, ignoreCase) {
      ValidIsWellFormed(s, ignoreCase);
    }
    if WellFormed(s, ignoreCase) {
      var p :| IsLegalPaddingCount(p) && PaddedWith(s, ignoreCase, p);
      WellFormedIsValid(s, ignoreCase, p);
    }
  }

  /** Where the padding characters are in a text that is k other characters and then a run
      of padding. */
  lemma PaddingRun(s: string, k: nat)
    requires k <= |s|
    requires forall i | 0 <= i < k :: s[i] != PaddingChar
    requires forall i | k <= i < |s| :: s[i] == PaddingChar
    ensures IndexOf(s, PaddingChar) == if k < |s| then k else -1
    ensures LastIndexOf(s, PaddingChar) == if k < |s| then |s| - 1 else -1
    ensures DataLength(s) == k
  {
    if k < |s| {
      IndexOfFirst(s, PaddingChar, k);
      LastIndexOfLast(s, PaddingChar, |s| - 1);
    } else {
      assert PaddingChar !in s;
    }
  }

  /** In a text that passes the checks of the validator, everything from the first padding
      character on is padding. */
  lemma PaddingAfterData(s: string)
    requires IndexOf(s, PaddingChar) != 0
    requires IndexOf(s, PaddingChar) > 0 ==> forall i | IndexOf(s, PaddingChar) < i < |s| :: s[i] == PaddingChar
    ensures forall i | DataLength(s) <= i < |s| :: s[i] == PaddingChar
  {
  }

  /** An accepted text is its data symbols followed by a legal run of padding. */
  lemma ValidIsWellFormed(s: string, ignoreCase: bool)
    requires ValidateBase32String(s, ignoreCase)
    ensures PaddedWith(s, ignoreCase, |s| - DataLength(s))
    ensures IsLegalPaddingCount(|s| - DataLength(s))
    ensures WellFormed(s, ignoreCase)
  {
    ValidFacts(s, ignoreCase);
    FactsWellFormed(s, ignoreCase);
  }

  /** A text that passes each check of the validator is of the grammar. */
  lemma FactsWellFormed(s: string, ignoreCase: bool)
    requires |s| > 0 && |s| % 8 == 0
    requires IndexOf(s, PaddingChar) == -1 || IndexOf(s, PaddingChar) >= 2
    requires forall i | 0 <= i < |s| :: IsSymbol(Fold(ignoreCase, s[i])) || Fold(ignoreCase, s[i]) == PaddingChar
    requires IndexOf(s, PaddingChar) > 0 ==> forall i | IndexOf(s, PaddingChar) < i < |s| :: s[i] == PaddingChar
    requires IsAcceptedPaddingSpan(LastIndexOf(s, PaddingChar) - IndexOf(s, PaddingChar))
    ensures PaddedWith(s, ignoreCase, |s| - DataLength(s))
    ensures IsLegalPaddingCount(|s| - DataLength(s))
    ensures WellFormed(s, ignoreCase)
  {
    var d := DataLength(s);
    assert forall i | 0 <= i < d :: IsSymbol(Fold(ignoreCase, s[i])) by {
      forall i | 0 <= i < d
        ensures IsSymbol(Fold(ignoreCase, s[i]))
      {
        FoldFixes(ignoreCase, s[i]);
      }
    }
    PaddingAfterData(s);
    assert IsLegalPaddingCount(|s| - d) by {
      PaddingRun(s, d);
    }
    assert PaddedWith(s, ignoreCase, |s| - d);
  }

  /** A text of the grammar passes every check of the validator. */
  lemma WellFormedIsValid(s: string, ignoreCase: bool, p: int)
    requires |s| > 0 && |s| % 8 == 0
    requires IsLegalPaddingCount(p) && PaddedWith(s, ignoreCase, p)
    ensures ValidateBase32String(s, ignoreCase)
  {
    assert forall i | 0 <= i < |s| - p :: s[i] != PaddingChar by {
      forall i | 0 <= i < |s| - p
        ensures s[i] != PaddingChar
      {
        FoldedSymbolIsVisible(ignoreCase, s[i]);
      }
    }
    assert !IsBlank(s) by {
      FoldedSymbolIsVisible(ignoreCase, s[0]);
    }
    assert forall i | 0 <= i < |s| :: IsSymbol(Fold(ignoreCase, s[i])) || Fold(ignoreCase, s[i]) == PaddingChar by {
      forall i | 0 <= i < |s|
        ensures IsSymbol(Fold(ignoreCase, s[i])) || Fold(ignoreCase, s[i]) == PaddingChar
      {
        FoldFixes(ignoreCase, s[i]);
      }
    }
    var first := IndexOf(s, PaddingChar);
    var last := LastIndexOf(s, PaddingChar);
    assert (first == -1 && last == -1) || (first == |s| - p && last == |s| - 1) by {
      PaddingRun(s, |s| - p);
    }
    ValidFromFacts(s, ignoreCase);
  }

  /** Without `ignoreCase`, one lower-case letter anywhere makes the text invalid. */
  lemma LowerCaseRejected(s: string, i: nat)
    requires i < |s| && 'a' <= s[i] <= 'z'
    ensures !ValidateBase32String(s, false)
  {
  }

  /** The invalid inputs of the unit tests that fail on their length or on an empty text. */
  lemma RejectsBadLength()
    ensures !ValidateBase32String("")
    ensures !ValidateBase32String("ABCD")
  {
    assert !IsWhiteSpace("ABCD"[0]);
  }

  /** ... that have padding in one of the first two positions. */
  lemma RejectsEarlyPadding()
    ensures !ValidateBase32String("=IE=====")
    ensures !ValidateBase32String("==ABCDEF")
    ensures !ValidateBase32String("I=======")
  {
    var a := "=IE=====";
    assert !IsWhiteSpace(a[0]);
    IndexOfFirst(a, PaddingChar, 0);
    var b := "==ABCDEF";
    assert !IsWhiteSpace(b[0]);
    IndexOfFirst(b, PaddingChar, 0);
    var c := "I=======";
    assert !IsWhiteSpace(c[0]);
    IndexOfFirst(c, PaddingChar, 1);
  }

  /** ... that hold a character outside the alphabet. */
  lemma RejectsForeignCharacter()
    ensures !ValidateBase32String("I_======")
  {
    var e := "I_======";
    assert !IsWhiteSpace(e[0]);
    IndexOfFirst(e, PaddingChar, 2);
    assert !IsSymbol(Fold(true, e[1])) && Fold(true, e[1]) != PaddingChar;
  }

  /** ... that hold a data symbol after the first padding character. */
  lemma RejectsDataAfterPadding()
    ensures !ValidateBase32String("IE====A=")
  {
    var f := "IE====A=";
    assert !IsWhiteSpace(f[0]);
    IndexOfFirst(f, PaddingChar, 2);
    assert forall i | 0 <= i < |f| :: IsSymbol(Fold(true, f[i])) || f[i] == PaddingChar;
    assert f[6] != PaddingChar;
  }

  /** The dotless i (U+0131) is its own upper case in the invariant culture, so a text that
      holds it is rejected in either case mode. */
  lemma DotlessIRejected(s: string, i: nat, ignoreCase: bool)
    requires i < |s| && s[i] == '\U{0131}'
    ensures !ValidateBase32String(s, ignoreCase)
  {
    assert !IsSymbol(Fold(ignoreCase, s[i])) && Fold(ignoreCase, s[i]) != PaddingChar;
    assert HasForeignCharacter(s, ignoreCase);
  }

  /** A text whose run of padding has a length other than 0, 1, 3, 4 or 6 is rejected. */
  lemma IllegalPaddingRejected(s: string, ignoreCase: bool, q: int)
    requires PaddedWith(s, ignoreCase, q) && !IsLegalPaddingCount(q)
    ensures !ValidateBase32String(s, ignoreCase)
  {
    PaddedDataLength(s, ignoreCase, q);
    if ValidateBase32String(s, ignoreCase) {
      ValidIsWellFormed(s, ignoreCase);
    }
  }

  /** ... whose run of padding has an impossible length: two characters ... */
  lemma RejectsTwoPaddingCharacters()
    ensures !ValidateBase32String("IFBEGR==")
  {
    var g := "IFBEGR==";
    assert PaddedWith(g, true, 2);
    IllegalPaddingRejected(g, true, 2);
  }

  /** ... or five. */
  lemma RejectsFivePaddingCharacters()
    ensures !ValidateBase32String("IFB=====")
  {
    var h := "IFB=====";
    assert PaddedWith(h, true, 5);
    IllegalPaddingRejected(h, true, 5);
  }
}
