/** The glyphs a cell may show while it scrambles (script.js lines 9 and 13-15),
    and the whitespace test that keeps a blank cell stable (the `trim()` of
    line 54). */
module Glyphs {

  /** The 36 scramble symbols: the upper-case Latin letters, then the digits. */
  const ALPHABET: string := "ABCDEFGHIJKLMNOPQRSTUVWXYZ0123456789"

  /** The outcome of `Math.floor(Math.random() * ALPHABET.length)`: an index
      into ALPHABET, chosen by the environment. */
  type AlphabetIndex = i: int | 0 <= i < 36

  /** The symbols that may appear in ALPHABET, described without the string. */
  predicate IsScrambleSymbol(c: char) {
    'A' <= c <= 'Z' || '0' <= c <= '9'
  }

  /** The k-th symbol of ALPHABET, computed: a letter for k < 26, a digit
      after. */
  function SymbolAt(k: AlphabetIndex): char {
    if k < 26 then ('A' as int + k) as char else ('0' as int + (k - 26)) as char
  }

  /** Where a symbol sits in ALPHABET, computed. */
  function SymbolIndex(c: char): int {
    if c <= '9' then 26 + (c as int - '0' as int) else c as int - 'A' as int
  }

  lemma AlphabetAt(k: AlphabetIndex)
    ensures |ALPHABET| == 36 && ALPHABET[k] == SymbolAt(k)
  {
  }

  /** `randomChar()`, with the random draw made explicit as the index `i`. */
  function RandomChar(i: AlphabetIndex): (c: char)
    ensures IsScrambleSymbol(c)
  {
    AlphabetAt(i);
    ALPHABET[i]
  }

  /** ALPHABET holds exactly the letters A-Z and the digits 0-9: each of its
      symbols is one of them, and each of them sits at index SymbolIndex. */
  lemma AlphabetIsLettersAndDigits()
    ensures |ALPHABET| == 36
    ensures forall k :: 0 <= k < |ALPHABET| ==> IsScrambleSymbol(ALPHABET[k])
    ensures forall c :: IsScrambleSymbol(c) ==> 0 <= SymbolIndex(c) < 36 && ALPHABET[SymbolIndex(c)] == c
  {
    forall k | 0 <= k < |ALPHABET|
      ensures IsScrambleSymbol(ALPHABET[k])
    {
      AlphabetAt(k);
    }
    forall c | IsScrambleSymbol(c)
      ensures 0 <= SymbolIndex(c) < 36 && ALPHABET[SymbolIndex(c)] == c
    {
      AlphabetAt(SymbolIndex(c));
    }
  }

  /** No symbol occurs twice, so every symbol is drawn by exactly one index:
      a uniform index gives a uniform symbol. */
  lemma RandomCharIsInjective(i: AlphabetIndex, j: AlphabetIndex)
    requires RandomChar(i) == RandomChar(j)
    ensures i == j
  {
    AlphabetAt(i);
    AlphabetAt(j);
  }

  /** The code points JavaScript's `String.prototype.trim` removes: the
      WhiteSpace and LineTerminator code points of ECMAScript (tab, vertical
      tab, form feed, space, no-break space, the byte-order mark, the other
      space separators of Unicode category Zs, line feed, carriage return,
      line separator and paragraph separator). */
  predicate IsTrimmable(c: char) {
    || c == '\t' || c == '\n' || c == '\U{B}' || c == '\U{C}' || c == '\r'
    || c == ' ' || c == '\U{A0}' || c == '\U{1680}' || '\U{2000}' <= c <= '\U{200A}'
    || c == '\U{2028}' || c == '\U{2029}' || c == '\U{202F}' || c == '\U{205F}'
    || c == '\U{3000}' || c == '\U{FEFF}'
  }

  function TrimStart(s: string): (r: string)
    ensures r != [] ==> !IsTrimmable(r[0])
  {
    if s != [] && IsTrimmable(s[0]) then TrimStart(s[1..]) else s
  }

  function TrimEnd(s: string): (r: string)
    ensures r != [] ==> !IsTrimmable(r[|r| - 1])
  {
    if s != [] && IsTrimmable(s[|s| - 1]) then TrimEnd(s[..|s| - 1]) else s
  }

  /** TrimStart removes a prefix of `s` made only of trimmable code points. */
  lemma {:induction false} TrimStartRemovesWhitespacePrefix(s: string)
    ensures var r := TrimStart(s);
      |r| <= |s| && r == s[|s| - |r|..] && forall k :: 0 <= k < |s| - |r| ==> IsTrimmable(s[k])
    decreases |s|
  {
    if s != [] && IsTrimmable(s[0]) {
      TrimStartRemovesWhitespacePrefix(s[1..]);
      assert forall k :: 1 <= k < |s| ==> s[k] == s[1..][k - 1];
    }
  }

  /** TrimEnd removes a suffix of `s` made only of trimmable code points. */
  lemma {:induction false} TrimEndRemovesWhitespaceSuffix(s: string)
    ensures var r := TrimEnd(s);
      |r| <= |s| && r == s[..|r|] && forall k :: |r| <= k < |s| ==> IsTrimmable(s[k])
    decreases |s|
  {
    if s != [] && IsTrimmable(s[|s| - 1]) {
      var init := s[..|s| - 1];
      TrimEndRemovesWhitespaceSuffix(init);
      assert forall k :: 0 <= k < |init| ==> init[k] == s[k];
    }
  }

  /** `s.trim()`: whitespace and line terminators removed from both ends. */
  function Trim(s: string): (r: string) {
    TrimEnd(TrimStart(s))
  }

  /** `s.trim() === ""` holds exactly when every code point of `s` is
      whitespace or a line terminator. */
  lemma {:induction false} TrimIsEmptyIff(s: string)
    ensures Trim(s) == "" <==> forall k :: 0 <= k < |s| ==> IsTrimmable(s[k])
  {
    if s == [] {
    } else if IsTrimmable(s[0]) {
      assert TrimStart(s) == TrimStart(s[1..]);
      TrimIsEmptyIff(s[1..]);
      assert forall k :: 1 <= k < |s| ==> s[k] == s[1..][k - 1];
    } else {
      assert TrimStart(s) == s;
      TrimEndKeepsLast(s);
    }
  }

  lemma {:induction false} TrimEndKeepsLast(s: string)
    requires s != [] && !IsTrimmable(s[0])
    ensures TrimEnd(s) != ""
  {
    var r := TrimEnd(s);
    if r == [] {
      TrimEndOfAllTrimmable(s);
    }
  }

  /** A string TrimEnd empties is made of trimmable code points. */
  lemma {:induction false} TrimEndOfAllTrimmable(s: string)
    requires TrimEnd(s) == []
    ensures forall k :: 0 <= k < |s| ==> IsTrimmable(s[k])
  {
    if s != [] {
      assert IsTrimmable(s[|s| - 1]);
      TrimEndOfAllTrimmable(s[..|s| - 1]);
      assert forall k :: 0 <= k < |s| - 1 ==> s[k] == s[..|s| - 1][k];
    }
  }

  /** A one-code-point string trims to the empty string exactly when that code
      point is whitespace: this is the test a cell applies to its glyph. */
  lemma SingleGlyphTrim(c: char)
    ensures Trim([c]) == "" <==> IsTrimmable(c)
  {
    if IsTrimmable(c) {
      assert [c][1..] == [];
      assert TrimStart([c]) == [];
    } else {
      assert TrimStart([c]) == [c];
      assert TrimEnd([c]) == [c];
    }
  }
}
