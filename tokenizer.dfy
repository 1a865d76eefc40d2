/**
 * `lexion_lib`'s `Tokenizer`: the input, a cursor into it that `next` advances, and the token
 * types in priority order. Reading a file is left out; the constructor is `from_string`.
 */
module Tokenizing {
  import opened Wrappers
  import opened Symbols
  import opened Location
  import opened Tokens
  import opened Scanning

  /** The file name of a tokenizer over a string. */
  const INLINE: string := "inline"

  /** `get_cursor_loc` for a cursor into `input`. */
  function CursorLoc(file: string, input: string, cursor: nat): (l: SourceLocation)
    requires cursor <= |input|
    ensures l.file == file && l.loc.line == 1 + Newlines(input[..cursor]) && l.loc.col >= 1
  {
    SourceLocation(file, FileLocation(1 + Newlines(input[..cursor]), Column(input[..cursor])))
  }

  /** The error of a failed match: the unexpected text's range from the cursor, and its message. */
  function NoMatchError(file: string, input: string, at: nat): (e: SyntaxError)
    requires at <= |input|
    ensures e.range.start == CursorLoc(file, input, at).loc
    ensures e.range.end.line == e.range.start.line && e.range.end.col == e.range.start.col + |Unexpected(input[at..])|
    ensures e.message == UnexpectedMessage(input[at..])
  {
    SyntaxError(FromLocLen(CursorLoc(file, input, at), |Unexpected(input[at..])|), UnexpectedMessage(input[at..]))
  }

  /** What a call of `next` does: it returns with a result, or calls itself forever. */
  datatype NextOutcome = Returns(lexed: Lexed) | Diverges

  /**
   * The outcome of `next` at `cursor` and the cursor it leaves: the `$` token at the end, a named
   * token with its text and the location where it starts, or the no-match error; the cursor ends
   * after the token, or at the end, the failure or the spin.
   */
  function NextOf(file: string, types: seq<TokenType>, input: string, cursor: nat): (r: (NextOutcome, nat))
    requires cursor <= |input| && PrefixMatchers(types)
  {
    ScanBounds(types, input, cursor);
    OutcomeOf(file, input, ScanFrom(types, input, cursor))
  }

  /** The result `next` builds where its scan stops. */
  function OutcomeOf(file: string, input: string, r: Scan): (NextOutcome, nat)
    requires ScanEnd(r) <= |input| && (r.Found? ==> r.start + r.len <= |input|)
  {
    match r
    case AtEnd(at) => (Returns(Lexed(Token(EOF, EOF, CursorLoc(file, input, at)))), at)
    case Found(kind, start, len) =>
      (Returns(Lexed(Token(kind, input[start..start + len], CursorLoc(file, input, start)))), start + len)
    case NoMatch(at) => (Returns(LexFailed(NoMatchError(file, input, at))), at)
    case Spins(at) => (Diverges, at)
  }

  /**
   * `next` never moves the cursor back or past the end; a token it returns is either a named one
   * whose text is the input just before the new cursor, or the `$` token at the end; at the end it
   * is always the `$` token, with the cursor left in place.
   */
  lemma NextFacts(file: string, types: seq<TokenType>, input: string, cursor: nat)
    requires cursor <= |input| && PrefixMatchers(types)
    ensures var (o, c) := NextOf(file, types, input, cursor);
            cursor <= c <= |input| &&
            (o.Returns? && o.lexed.Lexed? ==>
               (o.lexed.token.kind != "" && |o.lexed.token.value| <= c && input[c - |o.lexed.token.value|..c] == o.lexed.token.value) ||
               (c == |input| && o.lexed.token == Token(EOF, EOF, CursorLoc(file, input, c))))
    ensures cursor == |input| ==> NextOf(file, types, input, cursor) == (Returns(Lexed(Token(EOF, EOF, CursorLoc(file, input, cursor)))), cursor)
  {
    ScanFacts(types, input, cursor);
    ScanBounds(types, input, cursor);
    var r := ScanFrom(types, input, cursor);
    assert NextOf(file, types, input, cursor) == OutcomeOf(file, input, r);
    OutcomeFacts(file, input, r, cursor);
  }

  /** `NextFacts` for one scan result. */
  lemma OutcomeFacts(file: string, input: string, r: Scan, cursor: nat)
    requires cursor <= ScanEnd(r) <= |input| && (r.AtEnd? <==> ScanEnd(r) == |input|)
    requires r.Found? ==> r.kind != "" && r.start + r.len <= |input|
    ensures var (o, c) := OutcomeOf(file, input, r);
            cursor <= c <= |input| &&
            (o.Returns? && o.lexed.Lexed? ==>
               (o.lexed.token.kind != "" && |o.lexed.token.value| <= c && input[c - |o.lexed.token.value|..c] == o.lexed.token.value) ||
               (c == |input| && o.lexed.token == Token(EOF, EOF, CursorLoc(file, input, c))))
    ensures cursor == |input| ==> OutcomeOf(file, input, r) == (Returns(Lexed(Token(EOF, EOF, CursorLoc(file, input, cursor)))), cursor)
  {
  }

  /** `NextOf` one match at a time: a named match returns, a skipped one starts over after it. */
  lemma NextOfMatch(file: string, types: seq<TokenType>, input: string, cursor: nat, n: nat, i: nat)
    requires cursor < |input| && PrefixMatchers(types)
    requires Longest(types, input[cursor..], |types|) == Some((n, i))
    ensures i < |types| && cursor + n <= |input|
    ensures types[i].name != "" ==>
              NextOf(file, types, input, cursor) ==
              (Returns(Lexed(Token(types[i].name, input[cursor..cursor + n], CursorLoc(file, input, cursor)))), cursor + n)
    ensures types[i].name == "" && n == 0 ==> NextOf(file, types, input, cursor) == (Diverges, cursor)
    ensures types[i].name == "" && n > 0 ==> NextOf(file, types, input, cursor) == NextOf(file, types, input, cursor + n)
  {
    ScanMatch(types, input, cursor, n, i);
    if types[i].name != "" {
      NextOfFound(file, types, input, cursor, types[i].name, n);
    } else if n == 0 {
      NextOfSpin(file, types, input, cursor);
    } else {
      NextOfSkip(file, types, input, cursor, n);
    }
  }

  lemma NextOfEnd(file: string, types: seq<TokenType>, input: string)
    requires PrefixMatchers(types)
    ensures NextOf(file, types, input, |input|) == (Returns(Lexed(Token(EOF, EOF, CursorLoc(file, input, |input|)))), |input|)
  {
  }

  lemma NextOfNoMatch(file: string, types: seq<TokenType>, input: string, cursor: nat)
    requires cursor < |input| && PrefixMatchers(types)
    requires Longest(types, input[cursor..], |types|).None?
    ensures NextOf(file, types, input, cursor) == (Returns(LexFailed(NoMatchError(file, input, cursor))), cursor)
  {
    assert ScanFrom(types, input, cursor) == NoMatch(cursor);
  }

  lemma NextOfFound(file: string, types: seq<TokenType>, input: string, cursor: nat, kind: string, n: nat)
    requires cursor + n <= |input| && PrefixMatchers(types)
    requires ScanFrom(types, input, cursor) == Found(kind, cursor, n)
    ensures NextOf(file, types, input, cursor) ==
            (Returns(Lexed(Token(kind, input[cursor..cursor + n], CursorLoc(file, input, cursor)))), cursor + n)
  {
  }

  lemma NextOfSpin(file: string, types: seq<TokenType>, input: string, cursor: nat)
    requires cursor <= |input| && PrefixMatchers(types)
    requires ScanFrom(types, input, cursor) == Spins(cursor)
    ensures NextOf(file, types, input, cursor) == (Diverges, cursor)
  {
  }

  lemma NextOfSkip(file: string, types: seq<TokenType>, input: string, cursor: nat, n: nat)
    requires cursor + n <= |input| && PrefixMatchers(types)
    requires ScanFrom(types, input, cursor) == ScanFrom(types, input, cursor + n)
    ensures NextOf(file, types, input, cursor) == NextOf(file, types, input, cursor + n)
  {
  }

  class Tokenizer {
    const file: string
    const input: string
    var cursor: nat
    const types: seq<TokenType>

    ghost predicate Valid()
      reads this
    {
      cursor <= |input| && PrefixMatchers(types)
    }

    /** `from_string`: the file `inline`, the cursor at 0. */
    constructor (input: string, types: seq<TokenType>)
      requires PrefixMatchers(types)
      ensures Valid() && file == INLINE && this.input == input && this.types == types && cursor == 0
    {
      file := INLINE;
      this.input := input;
      this.types := types;
      cursor := 0;
    }

    predicate HasNext()
      reads this
    {
      cursor < |input|
    }

    /** `get_cursor_loc`: the line and column of the cursor, counted over the bytes before it. */
    method GetCursorLoc() returns (l: SourceLocation)
      requires Valid()
      ensures l == CursorLoc(file, input, cursor)
    {
      var line, lastLine := LineAndBase(input[..cursor]);
      l := SourceLocation(file, FileLocation(line, cursor - lastLine + 1));
    }

    /**
     * `match_next`: the longest match at the cursor with its pattern's index, or the error naming
     * the unexpected text.
     */
    method MatchNext() returns (r: Result)
      requires Valid()
      ensures r.Matched? <==> Longest(types, input[cursor..], |types|).Some?
      ensures r.Matched? ==> Longest(types, input[cursor..], |types|) == Some((|r.text|, r.index)) &&
                             r.index < |types| && cursor + |r.text| <= |input| &&
                             r.text == input[cursor..cursor + |r.text|]
      ensures r.Unmatched? ==> r.error == NoMatchError(file, input, cursor)
    {
      var rest := input[cursor..];
      var best := LongestMatch(types, rest);
      LongestIsEarliestMaximal(types, rest, |types|);
      if best.None? {
        var l := GetCursorLoc();
        var unexpected := Unexpected(rest);
        return Unmatched(SyntaxError(FromLocLen(l, |unexpected|), "unexpected token '" + unexpected + "'"));
      }
      var (n, i) := best.value;
      assert types[i].matcher(rest).Some?;
      r := Matched(rest[..n], i);
    }

    /**
     * `next`: at the end the `$` token; otherwise the cursor moves past the longest match, and a
     * skipped pattern's match starts `next` over. An empty skipped match would restart it with
     * nothing changed, forever.
     */
    method Next() returns (o: NextOutcome)
      requires Valid()
      modifies this
      ensures Valid()
      ensures (o, cursor) == NextOf(file, types, input, old(cursor))
      decreases |input| - cursor
    {
      var again, r := Round();
      if again {
        o := Next();
      } else {
        o := r;
      }
    }

    /**
     * The body of `next` up to its call of itself: the outcome with the cursor it leaves, or, after
     * a non-empty match of a skipped pattern, `again` with the cursor past the match, from where
     * `next` has the same outcome.
     */
    method Round() returns (again: bool, o: NextOutcome)
      requires Valid()
      modifies this
      ensures Valid()
      ensures !again ==> (o, cursor) == NextOf(file, types, input, old(cursor))
      ensures again ==> old(cursor) < cursor && NextOf(file, types, input, old(cursor)) == NextOf(file, types, input, cursor)
    {
      var start := cursor;
      var l := GetCursorLoc();
      if !HasNext() {
        NextOfEnd(file, types, input);
        return false, Returns(Lexed(Token(EOF, EOF, l)));
      }
      var m := MatchNext();
      if m.Unmatched? {
        NextOfNoMatch(file, types, input, start);
        return false, Returns(LexFailed(m.error));
      }
      var n := |m.text|;
      NextOfMatch(file, types, input, start, n, m.index);
      assert m.text == input[start..start + n];
      var token := types[m.index];
      if token.name == "" && n == 0 {
        return false, Diverges;
      }
      cursor := cursor + n;
      if token.name == "" {
        return true, Diverges;
      }
      return false, Returns(Lexed(Token(token.name, m.text, l)));
    }
  }

  /** What `match_next` gives back. */
  datatype Result = Matched(text: string, index: nat) | Unmatched(error: SyntaxError)
}
