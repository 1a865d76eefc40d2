/**
 * What both tokenizers share: a token pattern is an abstract matcher giving the length of the
 * prefix of the remaining input it matches, if any; the longest match with the earliest pattern
 * winning ties; the maximal non-whitespace prefix reported on no match; and the line/column
 * arithmetic of `get_cursor_loc`.
 */
module Scanning {
  import opened Wrappers

  /** A compiled, `^`-anchored pattern: the length of the matched prefix, if it matches. */
  type Matcher = string -> Option<nat>

  /** A token type: its name (empty for a skipped pattern) and its pattern. */
  datatype TokenType = TokenType(name: string, matcher: Matcher)

  /** Every matcher only ever matches a prefix of its input. */
  ghost predicate PrefixMatchers(types: seq<TokenType>) {
    forall k, s :: 0 <= k < |types| && types[k].matcher(s).Some? ==> types[k].matcher(s).value <= |s|
  }

  /**
   * The `longest_match` after visiting the first k patterns: a (length, index) pair, replaced
   * only by a strictly longer match.
   */
  function Longest(types: seq<TokenType>, s: string, k: nat): Option<(nat, nat)>
    requires k <= |types|
  {
    if k == 0 then None
    else
      var prev := Longest(types, s, k - 1);
      match types[k - 1].matcher(s)
      case None => prev
      case Some(n) => if prev.None? || n > prev.value.0 then Some((n, k - 1)) else prev
  }

  /**
   * The longest match among the first k patterns is the earliest of maximal length: its pattern
   * matches with that length, no pattern matches longer, and no earlier pattern matches as long;
   * there is none exactly when no pattern matches.
   */
  lemma {:induction false} LongestIsEarliestMaximal(types: seq<TokenType>, s: string, k: nat)
    requires k <= |types|
    ensures Longest(types, s, k).None? <==> forall j :: 0 <= j < k ==> types[j].matcher(s).None?
    ensures Longest(types, s, k).Some? ==>
              var (n, i) := Longest(types, s, k).value;
              i < k && types[i].matcher(s) == Some(n) &&
              (forall j :: 0 <= j < k && types[j].matcher(s).Some? ==> types[j].matcher(s).value <= n) &&
              (forall j :: 0 <= j < i && types[j].matcher(s).Some? ==> types[j].matcher(s).value < n)
  {
    if k > 0 {
      LongestIsEarliestMaximal(types, s, k - 1);
    }
  }

  /** The loop of `match_next` over the patterns, in order. */
  method LongestMatch(types: seq<TokenType>, s: string) returns (best: Option<(nat, nat)>)
    ensures best == Longest(types, s, |types|)
  {
    best := None;
    for k := 0 to |types|
      invariant best == Longest(types, s, k)
    {
      var m := types[k].matcher(s);
      if m.None? {
        continue;
      }
      if best.None? || m.value > best.value.0 {
        best := Some((m.value, k));
      }
    }
  }

  /** The characters `\s` matches, in ASCII. */
  predicate IsSpace(c: char) {
    c == ' ' || c == '\t' || c == '\n' || c == '\r' || c == '\U{0B}' || c == '\U{0C}'
  }

  /** What `^\S+` finds: the maximal prefix without whitespace (empty when there is none). */
  function Unexpected(s: string): (r: string)
    ensures r <= s
    ensures forall i :: 0 <= i < |r| ==> !IsSpace(r[i])
    ensures |r| < |s| ==> IsSpace(s[|r|])
  {
    if |s| == 0 || IsSpace(s[0]) then [] else [s[0]] + Unexpected(s[1..])
  }

  /** The error message of a failed match. */
  function UnexpectedMessage(s: string): (m: string)
    ensures m == "unexpected token '" + Unexpected(s) + "'"
  {
    "unexpected token '" + Unexpected(s) + "'"
  }

  /** The number of line feeds of `s`. */
  function Newlines(s: string): nat {
    if |s| == 0 then 0 else Newlines(s[..|s| - 1]) + (if s[|s| - 1] == '\n' then 1 else 0)
  }

  /**
   * `last_line` after scanning `s`: the index after the last line feed, except that a line feed at
   * index 0 sets it to 0; 0 when there is no line feed.
   */
  function LineBase(s: string): (b: nat)
    ensures b <= |s|
  {
    if |s| == 0 then 0
    else if s[|s| - 1] == '\n' then (if |s| - 1 == 0 then 0 else |s|)
    else LineBase(s[..|s| - 1])
  }

  /** The index of the last line feed of `s`. */
  function LastNewline(s: string): Option<nat> {
    if |s| == 0 then None
    else if s[|s| - 1] == '\n' then Some(|s| - 1)
    else LastNewline(s[..|s| - 1])
  }

  /** `LastNewline` finds a line feed exactly when there is one, and none follows it. */
  lemma {:induction false} LastNewlineFacts(s: string)
    ensures LastNewline(s).None? <==> forall i :: 0 <= i < |s| ==> s[i] != '\n'
    ensures LastNewline(s).Some? ==>
              var j := LastNewline(s).value;
              j < |s| && s[j] == '\n' && forall i :: j < i < |s| ==> s[i] != '\n'
  {
    if |s| > 0 && s[|s| - 1] != '\n' {
      var p := s[..|s| - 1];
      LastNewlineFacts(p);
      assert forall i :: 0 <= i < |p| ==> p[i] == s[i];
    }
  }

  /**
   * `LineBase` is the index after the last line feed, except that it is 0 when there is
   * none or the last one is at index 0.
   */
  lemma {:induction false} LineBaseAfterLastNewline(s: string)
    ensures LineBase(s) == match LastNewline(s) case None => 0 case Some(j) => if j == 0 then 0 else j + 1
  {
    if |s| > 0 && s[|s| - 1] != '\n' {
      LineBaseAfterLastNewline(s[..|s| - 1]);
    }
  }

  /** The loop of `get_cursor_loc` over the bytes before the cursor: the line and `last_line`. */
  method LineAndBase(s: string) returns (line: nat, lastLine: nat)
    ensures line == 1 + Newlines(s) && lastLine == LineBase(s)
  {
    line, lastLine := 1, 0;
    for i := 0 to |s|
      invariant line == 1 + Newlines(s[..i]) && lastLine == LineBase(s[..i])
    {
      assert s[..i + 1][..i] == s[..i];
      if s[i] == '\n' {
        line := line + 1;
        lastLine := if i == 0 then 0 else i + 1;
      }
    }
    assert s[..|s|] == s;
  }

  /** The column `get_cursor_loc` reports for a cursor at the end of `s`. */
  function Column(s: string): (col: nat)
    ensures col >= 1
  {
    |s| - LineBase(s) + 1
  }

  /** A cursor right after a line feed other than at index 0 is in column 1 of the next line. */
  lemma ColumnAfterNewline(s: string)
    requires |s| >= 2 && s[|s| - 1] == '\n'
    ensures Column(s) == 1 && Newlines(s) == Newlines(s[..|s| - 1]) + 1
  {
  }

  /**
   * A line feed at index 0 leaves the base at 0: the character after it is reported in column 2,
   * where after any later line feed it is in column 1.
   */
  lemma LeadingNewlineColumn()
    ensures Column("\n") == 2 && Newlines("\n") == 1
    ensures Column("a\n") == 1 && Newlines("a\n") == 1
  {
    assert "a\n"[..1] == "a";
  }

  /**
   * Where a call of `next` at `cursor` ends up: at the end of the input, at a named match (its
   * kind, start and length), at a position where no pattern matches, or at an empty match of a
   * skipped pattern, where `next` calls itself again on the very same state and never returns.
   * Matches of skipped patterns are consumed on the way.
   */
  datatype Scan = AtEnd(at: nat) | Found(kind: string, start: nat, len: nat) | NoMatch(at: nat) | Spins(at: nat)

  function ScanFrom(types: seq<TokenType>, input: string, cursor: nat): Scan
    requires cursor <= |input| && PrefixMatchers(types)
    decreases |input| - cursor
  {
    if cursor == |input| then AtEnd(cursor)
    else
      var rest := input[cursor..];
      match Longest(types, rest, |types|)
      case None => NoMatch(cursor)
      case Some((n, i)) =>
        LongestIsEarliestMaximal(types, rest, |types|);
        assert n <= |rest| by {
          assert types[i].matcher(rest).Some?;
        }
        if types[i].name != "" then Found(types[i].name, cursor, n)
        else if n == 0 then Spins(cursor)
        else ScanFrom(types, input, cursor + n)
  }

  /** A scan stops inside the input, after the cursor; a named match lies inside the input. */
  lemma {:induction false} ScanBounds(types: seq<TokenType>, input: string, cursor: nat)
    requires cursor <= |input| && PrefixMatchers(types)
    ensures cursor <= ScanEnd(ScanFrom(types, input, cursor)) <= |input|
    ensures ScanFrom(types, input, cursor).Found? ==>
              ScanFrom(types, input, cursor).start + ScanFrom(types, input, cursor).len <= |input|
    decreases |input| - cursor
  {
    if cursor < |input| {
      var rest := input[cursor..];
      match Longest(types, rest, |types|)
      case None =>
      case Some((n, i)) =>
        ScanMatch(types, input, cursor, n, i);
        if types[i].name == "" && n > 0 {
          ScanBounds(types, input, cursor + n);
        }
    }
  }

  /** One match of `ScanFrom`: a named match is found, an empty skipped one spins, any other skipped one is consumed. */
  lemma ScanMatch(types: seq<TokenType>, input: string, cursor: nat, n: nat, i: nat)
    requires cursor < |input| && PrefixMatchers(types)
    requires Longest(types, input[cursor..], |types|) == Some((n, i))
    ensures i < |types| && cursor + n <= |input|
    ensures types[i].name != "" ==> ScanFrom(types, input, cursor) == Found(types[i].name, cursor, n)
    ensures types[i].name == "" && n == 0 ==> ScanFrom(types, input, cursor) == Spins(cursor)
    ensures types[i].name == "" && n > 0 ==> ScanFrom(types, input, cursor) == ScanFrom(types, input, cursor + n)
  {
    LongestIsEarliestMaximal(types, input[cursor..], |types|);
    assert types[i].matcher(input[cursor..]).Some?;
  }

  /** The position a scan stops at. */
  function ScanEnd(r: Scan): nat {
    match r
    case AtEnd(at) => at
    case Found(_, start, _) => start
    case NoMatch(at) => at
    case Spins(at) => at
  }

  /**
   * A scan never moves backwards and stays inside the input; it reports the end exactly at the
   * end; a named match is the longest (earliest on ties) at its start and lies inside the input;
   * no match means no pattern matches there; a spin is an empty match of a skipped pattern.
   */
  lemma {:induction false} ScanFacts(types: seq<TokenType>, input: string, cursor: nat)
    requires cursor <= |input| && PrefixMatchers(types)
    ensures var r := ScanFrom(types, input, cursor);
            cursor <= ScanEnd(r) <= |input| &&
            (r.AtEnd? <==> ScanEnd(r) == |input|) &&
            (r.Found? ==> r.kind != "" && r.start + r.len <= |input| &&
                          exists i: nat :: i < |types| && Longest(types, input[r.start..], |types|) == Some((r.len, i)) && types[i].name == r.kind) &&
            (r.NoMatch? ==> Longest(types, input[r.at..], |types|).None?) &&
            (r.Spins? ==> exists i: nat :: i < |types| && Longest(types, input[r.at..], |types|) == Some((0, i)) && types[i].name == "")
    decreases |input| - cursor
  {
    if cursor < |input| {
      var rest := input[cursor..];
      LongestIsEarliestMaximal(types, rest, |types|);
      match Longest(types, rest, |types|)
      case None =>
      case Some((n, i)) =>
        if types[i].name == "" && n > 0 {
          ScanFacts(types, input, cursor + n);
        }
    }
  }
}
