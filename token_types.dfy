/**
 * `Grammar::get_token_types`: the token types a tokenizer for the grammar is built from. Three
 * unnamed token types (whitespace and the two comment forms) come first; then one named token type
 * per terminal other than `$`, the terminals without a terminal rule first, each group in the
 * iteration order of the terminal set (the sort is stable). A terminal with a terminal rule matches
 * the first right-hand symbol of its first such rule as a regular expression; one without matches
 * its own text literally.
 * Regular expressions are kept as their source text; the iteration order of the terminal set is a
 * parameter, since a hash set fixes none.
 */
module TokenTypes {
  import opened Wrappers
  import opened Symbols
  import opened GrammarRules
  import opened GrammarModel
  import opened SeqFacts

  datatype TokenTypeSpec = TokenTypeSpec(name: string, pattern: string)

  /** Patterns of the token types every grammar skips. */
  const WHITESPACE: string := "^\\s+"
  const SINGLE_LINE_COMMENT: string := "^\\/\\/.*"
  const MULTI_LINE_COMMENT: string := "^\\/\\*[\\s\\S]*?\\*\\/"

  /** The unnamed token types; a token of one of them is dropped by the tokenizer. */
  const SKIPPED: seq<TokenTypeSpec> := [
    TokenTypeSpec("", WHITESPACE),
    TokenTypeSpec("", SINGLE_LINE_COMMENT),
    TokenTypeSpec("", MULTI_LINE_COMMENT)
  ]

  /** The characters `regex::escape` puts a backslash in front of. */
  predicate IsRegexMeta(c: char) {
    c in {'\\', '.', '+', '*', '?', '(', ')', '|', '[', ']', '{', '}', '^', '$', '#', '&', '-', '~'}
  }

  /** `regex::escape`: a pattern matching exactly the given text. */
  function Escape(s: string): (r: string)
    ensures |r| >= |s|
  {
    if |s| == 0 then ""
    else (if IsRegexMeta(s[0]) then ['\\', s[0]] else [s[0]]) + Escape(s[1..])
  }

  /** Reading an escaped pattern back: a backslash stands for the character after it. */
  function Unescape(s: string): string {
    if |s| == 0 then ""
    else if s[0] == '\\' && |s| >= 2 then [s[1]] + Unescape(s[2..])
    else [s[0]] + Unescape(s[1..])
  }

  /** Escaping loses nothing: the literal text can be read back from its pattern. */
  lemma {:induction false} EscapeRoundTrip(s: string)
    ensures Unescape(Escape(s)) == s
  {
    if |s| > 0 {
      EscapeRoundTrip(s[1..]);
      var head := if IsRegexMeta(s[0]) then ['\\', s[0]] else [s[0]];
      var e := head + Escape(s[1..]);
      if IsRegexMeta(s[0]) {
        assert e[2..] == Escape(s[1..]);
      } else {
        assert e[1..] == Escape(s[1..]);
      }
    }
  }

  /** Text without metacharacters is its own pattern. */
  lemma {:induction false} EscapePlain(s: string)
    requires forall i :: 0 <= i < |s| ==> !IsRegexMeta(s[i])
    ensures Escape(s) == s
  {
    if |s| > 0 {
      EscapePlain(s[1..]);
    }
  }

  /** The first terminal rule with the given left side (`terminal_rules.iter().find`). */
  function FindRule(rules: seq<Rule>, t: Symbol): Option<Rule> {
    if |rules| == 0 then None
    else if rules[0].left == t then Some(rules[0])
    else FindRule(rules[1..], t)
  }

  /** `FindRule` finds the first rule with that left side, and fails only when there is none. */
  lemma {:induction false} FindRuleFacts(rules: seq<Rule>, t: Symbol)
    ensures FindRule(rules, t).None? <==> forall k :: 0 <= k < |rules| ==> rules[k].left != t
    ensures FindRule(rules, t).Some? ==>
      exists k :: 0 <= k < |rules| && rules[k] == FindRule(rules, t).value && rules[k].left == t &&
        forall j :: 0 <= j < k ==> rules[j].left != t
  {
    if |rules| > 0 && rules[0].left != t {
      FindRuleFacts(rules[1..], t);
      assert forall k :: 1 <= k < |rules| ==> rules[k] == rules[1..][k - 1];
      if FindRule(rules, t).Some? {
        var k :| 0 <= k < |rules[1..]| && rules[1..][k] == FindRule(rules, t).value && rules[1..][k].left == t &&
          forall j :: 0 <= j < k ==> rules[1..][j].left != t;
        assert rules[k + 1] == FindRule(rules, t).value;
      }
    }
  }

  predicate HasRule(g: Grammar, t: Symbol) {
    FindRule(g.terminalRules, t).Some?
  }

  /** `get_token_types` reads `right[0]` of every terminal rule it finds. */
  predicate PatternsPresent(g: Grammar) {
    forall t :: t in g.terminals ==> FindRule(g.terminalRules, t).Some? ==> |FindRule(g.terminalRules, t).value.right| > 0
  }

  /** `order` lists the terminal set, each terminal once. */
  predicate IsEnumeration(order: seq<Symbol>, s: set<Symbol>) {
    (forall t :: t in order ==> t in s) && (forall t :: t in s ==> t in order) &&
    forall i, j :: 0 <= i < j < |order| ==> order[i] != order[j]
  }

  /** The terminals of `order` other than `$` whose having a terminal rule is `withRule`, in order. */
  function Keep(g: Grammar, order: seq<Symbol>, withRule: bool): seq<Symbol> {
    Select(order, KeepFilter(g, withRule))
  }

  function KeepFilter(g: Grammar, withRule: bool): Symbol -> bool {
    t => t != EOF && HasRule(g, t) == withRule
  }

  /** The token type of one terminal. */
  function TokenTypeFor(g: Grammar, t: Symbol): TokenTypeSpec
    requires PatternsPresent(g) && t in g.terminals
  {
    match FindRule(g.terminalRules, t)
    case Some(rule) => TokenTypeSpec(t, "^" + rule.right[0])
    case None => TokenTypeSpec(t, "^" + Escape(Stringify(t)))
  }

  function TokenTypesOf(g: Grammar, ts: seq<Symbol>): (r: seq<TokenTypeSpec>)
    requires PatternsPresent(g) && forall t :: t in ts ==> t in g.terminals
    ensures |r| == |ts| && forall i :: 0 <= i < |ts| ==> r[i] == TokenTypeFor(g, ts[i])
  {
    if |ts| == 0 then [] else [TokenTypeFor(g, ts[0])] + TokenTypesOf(g, ts[1..])
  }

  /** The terminals in the order their token types are listed. */
  function Named(g: Grammar, order: seq<Symbol>): seq<Symbol> {
    Keep(g, order, false) + Keep(g, order, true)
  }

  function GetTokenTypes(g: Grammar, order: seq<Symbol>): (r: seq<TokenTypeSpec>)
    requires PatternsPresent(g) && IsEnumeration(order, g.terminals)
    ensures |r| == 3 + |Named(g, order)| && r[..3] == SKIPPED
  {
    KeepMembers(g, order, false);
    KeepMembers(g, order, true);
    var r := SKIPPED + TokenTypesOf(g, Named(g, order));
    assert r[..3] == SKIPPED;
    r
  }

  lemma KeepMembers(g: Grammar, order: seq<Symbol>, withRule: bool)
    ensures forall t :: t in Keep(g, order, withRule) <==> t in order && t != EOF && HasRule(g, t) == withRule
  {
    forall t
      ensures t in Keep(g, order, withRule) <==> t in order && t != EOF && HasRule(g, t) == withRule
    {
      SelectMember(order, KeepFilter(g, withRule), t);
    }
  }

  /** Where a terminal sits among the named token types tells whether it has a terminal rule. */
  lemma NamedAt(g: Grammar, order: seq<Symbol>, i: nat)
    requires IsEnumeration(order, g.terminals) && i < |Named(g, order)|
    ensures var x := Named(g, order)[i];
      x in g.terminals && x != EOF && (HasRule(g, x) <==> i >= |Keep(g, order, false)|)
  {
    var a := Keep(g, order, false);
    var b := Keep(g, order, true);
    if i < |a| {
      SelectMember(order, KeepFilter(g, false), a[i]);
    } else {
      SelectMember(order, KeepFilter(g, true), b[i - |a|]);
    }
  }

  /** Two different positions of the named token types hold different terminals. */
  lemma NamedDistinct(g: Grammar, order: seq<Symbol>, i: nat, j: nat)
    requires IsEnumeration(order, g.terminals) && i < j < |Named(g, order)|
    ensures Named(g, order)[i] != Named(g, order)[j]
  {
    var n := |Keep(g, order, false)|;
    NamedAt(g, order, i);
    NamedAt(g, order, j);
    if j < n {
      SelectDistinct(order, KeepFilter(g, false), i, j);
    } else if n <= i {
      SelectDistinct(order, KeepFilter(g, true), i - n, j - n);
    }
  }

  /**
   * After the three skipped token types comes one token type per entry of `Named`, carrying that
   * terminal's name and pattern.
   */
  lemma TokenTypesAt(g: Grammar, order: seq<Symbol>, i: nat)
    requires PatternsPresent(g) && IsEnumeration(order, g.terminals) && 3 <= i < |GetTokenTypes(g, order)|
    ensures var x := Named(g, order)[i - 3];
      x in g.terminals && GetTokenTypes(g, order)[i] == TokenTypeFor(g, x) && GetTokenTypes(g, order)[i].name == x
  {
    NamedAt(g, order, i - 3);
  }

  /** `Named` lists every terminal other than `$`, each once. */
  lemma NamedMembers(g: Grammar, order: seq<Symbol>)
    requires IsEnumeration(order, g.terminals)
    ensures forall t :: t in Named(g, order) <==> t in g.terminals && t != EOF
    ensures forall i, j :: 0 <= i < j < |Named(g, order)| ==> Named(g, order)[i] != Named(g, order)[j]
  {
    KeepMembers(g, order, false);
    KeepMembers(g, order, true);
    forall i, j | 0 <= i < j < |Named(g, order)|
      ensures Named(g, order)[i] != Named(g, order)[j]
    {
      NamedDistinct(g, order, i, j);
    }
  }

  /**
   * The stable sort by "has a terminal rule": no terminal with a rule precedes one without, and
   * within each group the terminals keep their enumeration order.
   */
  lemma NamedOrder(g: Grammar, order: seq<Symbol>)
    requires IsEnumeration(order, g.terminals)
    ensures var ts := Named(g, order);
      (forall i, j :: 0 <= i < j < |ts| && HasRule(g, ts[i]) ==> HasRule(g, ts[j])) &&
      (forall i, j :: 0 <= i < j < |ts| && HasRule(g, ts[i]) == HasRule(g, ts[j]) ==>
         exists p, q :: 0 <= p < q < |order| && order[p] == ts[i] && order[q] == ts[j])
  {
    var n := |Keep(g, order, false)|;
    var ts := Named(g, order);
    forall i | 0 <= i < |ts|
      ensures HasRule(g, ts[i]) <==> i >= n
    {
      NamedAt(g, order, i);
    }
    forall i, j | 0 <= i < j < |ts| && HasRule(g, ts[i]) == HasRule(g, ts[j])
      ensures exists p, q :: 0 <= p < q < |order| && order[p] == ts[i] && order[q] == ts[j]
    {
      if j < n {
        SelectInOrder(order, KeepFilter(g, false), i, j);
      } else {
        SelectInOrder(order, KeepFilter(g, true), i - n, j - n);
      }
    }
  }
}
