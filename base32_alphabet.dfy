/** The Base32 alphabet of RFC 4648 (section 6, Table 3): the symbols A-Z for the values 0-25
    and 2-7 for 26-31, the padding character '=', and the inverse lookup the decoder and the
    validator make with `base32chars.IndexOf`. */
module Base32Alphabet {
  import opened DotNet

  const Alphabet: string := "ABCDEFGHIJKLMNOPQRSTUVWXYZ234567"
  const PaddingChar: char := '='

  /** Membership in the alphabet, written as the two character ranges it is made of
      (`IsSymbolRange` shows the two agree). */
  predicate IsSymbol(c: char)
  {
    'A' <= c <= 'Z' || '2' <= c <= '7'
  }

  /** The symbol for a value, written out as RFC 4648's table gives it. */
  function TableEntry(v: nat): char
    requires v < 32
  {
    if v < 26 then ('A' as int + v) as char else ('2' as int + (v - 26)) as char
  }

  lemma AlphabetIsTable()
    ensures |Alphabet| == 32
    ensures forall v | 0 <= v < 32 :: Alphabet[v] == TableEntry(v)
  {
  }

  /** `base32chars.IndexOf(c)`: the value of a symbol, and -1 for any other character. */
  function SymbolValue(c: char): (v: int)
    ensures -1 <= v < 32
    ensures v == -1 <==> !IsSymbol(c)
    ensures 0 <= v ==> Alphabet[v] == c
  {
    IsSymbolRange(c);
    IndexOf(Alphabet, c)
  }

  /** Every entry of the alphabet is a symbol. */
  lemma AlphabetSymbol(v: nat)
    requires v < 32
    ensures IsSymbol(Alphabet[v])
  {
    AlphabetIsTable();
  }

  /** Looking a symbol up gives back its value: the alphabet has no repeated symbol. */
  lemma SymbolValueOf(v: nat)
    requires v < 32
    ensures SymbolValue(Alphabet[v]) == v
  {
    AlphabetIsTable();
    var i := SymbolValue(Alphabet[v]);
    assert TableEntry(i) == TableEntry(v);
  }

  /** The symbols are the upper-case ASCII letters and the digits 2 to 7. */
  lemma IsSymbolRange(c: char)
    ensures IsSymbol(c) <==> c in Alphabet
  {
    AlphabetIsTable();
    if 'A' <= c <= 'Z' {
      assert Alphabet[c as int - 'A' as int] == c;
    } else if '2' <= c <= '7' {
      assert Alphabet[c as int - '2' as int + 26] == c;
    }
  }

  /** The character the validator and the decoder test: upper-cased when `ignoreCase` is set. */
  function Fold(ignoreCase: bool, c: char): char
  {
    if ignoreCase then ToUpperInvariant(c) else c
  }

  /** Case folding leaves symbols and the padding character alone, and turns no other
      character into the padding character. */
  lemma FoldFixes(ignoreCase: bool, c: char)
    ensures IsSymbol(c) ==> Fold(ignoreCase, c) == c
    ensures Fold(ignoreCase, c) == PaddingChar <==> c == PaddingChar
  {
  }

  /** A character whose folded form is a symbol is neither the padding character nor white space. */
  lemma FoldedSymbolIsVisible(ignoreCase: bool, c: char)
    requires IsSymbol(Fold(ignoreCase, c))
    ensures c != PaddingChar && !IsWhiteSpace(c)
  {
  }
}
