/**
 * Grammar symbols. A symbol is a string; terminals are the end-of-input marker `$`, the epsilon
 * marker, and quoted literals such as `'+'`. Everything else names a nonterminal.
 */
module Symbols {
  type Symbol = string

  /** The epsilon marker. The source file stores the two code points U+00CE U+00B5. */
  const EPSILON: Symbol := "\U{CE}\U{B5}"

  /** The end-of-input marker. */
  const EOF: Symbol := "$"

  /**
   * The quoted-literal shape `^'.*'$`: a leading and a trailing quote with no line feed between
   * them (`.` does not match `\n`).
   */
  predicate IsQuoted(s: Symbol) {
    |s| >= 2 && s[0] == '\'' && s[|s| - 1] == '\'' && forall i :: 0 < i < |s| - 1 ==> s[i] != '\n'
  }

  predicate IsTerminal(s: Symbol) {
    s == EOF || s == EPSILON || IsQuoted(s)
  }

  predicate IsNonTerminal(s: Symbol) {
    !IsTerminal(s)
  }

  /** The text of a quoted terminal without its quotes; any other symbol is returned unchanged. */
  function Stringify(s: Symbol): (r: string)
    ensures IsQuoted(s) ==> "'" + r + "'" == s
    ensures !IsQuoted(s) ==> r == s
  {
    if s == EOF || s == EPSILON || !IsTerminal(s) then s else s[1..|s| - 1]
  }

  function Quote(text: string): Symbol {
    "'" + text + "'"
  }

  lemma MarkersAreNotQuoted()
    ensures !IsQuoted(EOF) && !IsQuoted(EPSILON)
    ensures IsTerminal(EOF) && IsTerminal(EPSILON)
    ensures EOF != EPSILON
  {
  }

  /** Quoting any text without a line feed gives a terminal, and stringify takes the quotes off again. */
  lemma StringifyQuote(text: string)
    requires forall i :: 0 <= i < |text| ==> text[i] != '\n'
    ensures IsQuoted(Quote(text)) && IsTerminal(Quote(text))
    ensures Stringify(Quote(text)) == text
  {
    var q := Quote(text);
    assert forall i :: 0 < i < |q| - 1 ==> q[i] == text[i - 1];
  }

  /** A symbol is terminal exactly when it is `$`, the epsilon marker, or the quote of some line-free text. */
  lemma IsTerminalCharacterization(s: Symbol)
    ensures IsTerminal(s) <==>
      (s == EOF || s == EPSILON ||
       exists text :: (forall i :: 0 <= i < |text| ==> text[i] != '\n') && s == Quote(text))
  {
    if IsQuoted(s) {
      var text := s[1..|s| - 1];
      assert forall i :: 0 <= i < |text| ==> text[i] == s[i + 1];
      assert s == Quote(text);
    }
    if exists text :: (forall i :: 0 <= i < |text| ==> text[i] != '\n') && s == Quote(text) {
      var text :| (forall i :: 0 <= i < |text| ==> text[i] != '\n') && s == Quote(text);
      StringifyQuote(text);
    }
  }
}
