# lexion in Dafny

A Dafny model of the parser generator lexion and of the small data structures of its language
front end, with proofs of what each piece promises.

## What is modelled

**`lexion_lib`, the parser generator.**

- *Grammar analysis.* Symbols are classified as terminals (`$`, the epsilon marker `ε`, or a
  quoted `'…'` literal) or nonterminals. Rules with a terminal left side are split off as terminal
  rules, and the grammar is augmented with `S' -> S`. The nullable set and the FIRST and FOLLOW
  maps are computed by fixpoint loops, which are proved to stop at the least fixpoint of the rules
  the source implements. The token-type list is built in the source's order.
- *LR(0) items.* `is_final`, `is_accept`, the rendering with `•`, `goto` and `closure`. Closure is
  proved to be the least closed superset.
- *The canonical collection.* The worklist builder numbers closed states in discovery order, keeps
  registered states distinct, and records one labelled edge per popped entry.
- *The action table.* `insert_entry`, `get_action` and `from_collection` are modelled for any
  reduce-lookahead function. Its three instances are LR(0) (every terminal), SLR(1) (FOLLOW, plus
  the single overridden cell) and LALR(1) (the `pred`/`trans`/`lalr` search of
  `SetConstructorLALR1`). Each LALR(1) set is proved to be the set the search defines. The
  search marks (left side, predecessor state) pairs. Their least closed set over the item's seeds
  is taken. The set is what the goto states of those pairs offer directly. Because `trans` only
  recurses into states already in `tm`, nothing else reaches the set.
- *The stack-machine parser.* Shift, Goto, Reduce, Accept and Reject build the ordered derivation
  graph. Every configuration keeps states at even and nodes at odd stack positions.
- *The longest-match tokenizer.* Each pattern is an abstract function giving the length of the
  prefix it matches. On equal lengths the earliest pattern wins. Lines and columns are counted as
  the source counts them, including its handling of a line feed at index 0.
- *Source locations and spans.* `FileLocation`, `SourceRange` and `SpanBuilder`.

**The older crate under `src/lib`.** It has its own grammar (no augmentation; recursive,
memoised nullability; FIRST and FOLLOW as written, including their defects), an LL(1) table
builder, an LR engine that appends children into an arena, and a tokenizer. Each is related to the
`lexion_lib` counterpart wherever the two agree.

**`lexion_lang`.**

- The display strings of `Type` and the deduplicating `TypeCollection`.
- The scoped symbol table: a sorted-vector insert found by binary search, and a lookup along the
  chain of parent scopes. Its generator's `create_scope`, `insert`, `parent_scope` and block-scope
  naming are modelled, together with the older generator.
- `OperatorTable`.
- The pre/post-order AST visitor, modelled as the sequence of callback events it emits.

**How the source becomes Dafny.**

- A graph, arena or bimap becomes an integer-indexed sequence or map.
- An unspecified hash-set iteration order becomes an arbitrary choice, so state numbers are not
  claimed to be deterministic.
- A Rust panic becomes an explicit outcome.
- A loop or recursion that may not end gets a `fuel` bound and an out-of-fuel outcome.
- Diagnostics become an appended message log.
- Strings are sequences of characters, one character per byte.

## Model

| member | source | states |
|---|---|---|
| Symbols.Stringify | lexion_lib/src/grammar/grammar.rs:136-141 | a quoted terminal loses exactly its two quotes; `$`, epsilon and nonterminals come back unchanged |
| Symbols.MarkersAreNotQuoted | lexion_lib/src/grammar/grammar.rs:128-130 | `$` and epsilon are terminals, are not quoted literals, and differ |
| Symbols.StringifyQuote | lexion_lib/src/grammar/grammar.rs:128-141 | quoting line-free text gives a terminal, and stringify takes the quotes off again |
| Symbols.IsTerminalCharacterization | lexion_lib/src/grammar/grammar.rs:11-13 | a symbol is terminal exactly when it is `$`, epsilon or the quote of some line-free text (the `^'.*'$` pattern) |
| GrammarRules.SelectByLeft | lexion_lib/src/grammar/grammar.rs:106-107 | the partition keeps exactly the rules whose left side is (or is not) terminal |
| GrammarRules.PartitionSizes | lexion_lib/src/grammar/grammar.rs:106-107 | every rule lands on exactly one side of the partition |
| GrammarRules.AugmentedStart | lexion_lib/src/grammar/grammar.rs:427-429 | `S'` is the start symbol followed by one quote |
| GrammarRules.NonTerminalsInMembers | lexion_lib/src/grammar/grammar.rs:160-167 | the nonterminals collected from a right side are exactly its nonterminal symbols |
| GrammarRules.TerminalsInMembers | lexion_lib/src/grammar/grammar.rs:160-167 | the terminals collected from a right side are exactly its terminal symbols other than epsilon |
| GrammarRules.NonTerminalsOfMembers | lexion_lib/src/grammar/grammar.rs:155-168 | a symbol is collected as a nonterminal exactly when it is a left side or a nonterminal on some right side |
| GrammarRules.TerminalsOfMembers | lexion_lib/src/grammar/grammar.rs:155-168 | a symbol is collected as a terminal exactly when it is a non-epsilon terminal on some right side |
| GrammarRules.StartOfFacts | lexion_lib/src/grammar/grammar.rs:156-158 | the start symbol is empty only when every left side is, and otherwise is the first non-empty left side |
| GrammarRules.BuildSymbols | lexion_lib/src/grammar/grammar.rs:154-181 | the start symbol, the nonterminals, the terminals plus `$`, the symbol set with epsilon, and rule 0 `S' -> S` in front of the rules |
| GrammarRules.NullableSeedMembers | lexion_lib/src/grammar/grammar.rs:188-191 | the seed is exactly the left sides of the `A -> ε` rules |
| GrammarRules.BuildNullable | lexion_lib/src/grammar/grammar.rs:187-203 | the result contains the seed, holds only left sides, is closed under "some right-hand symbol is nullable" for rules 1.., and lies inside every closed superset of the seed |
| GrammarRules.PassCoversStep | lexion_lib/src/grammar/grammar.rs:196-201 | one more rule of a pass keeps the pass's coverage |
| GrammarRules.SeedInLefts | lexion_lib/src/grammar/grammar.rs:188-191 | the seed holds only left sides |
| GrammarRules.AddLeftStaysBelow | lexion_lib/src/grammar/grammar.rs:197-200 | adding a left side whose rule has a nullable symbol keeps the set inside every closed superset of the seed |
| GrammarRules.PassEnd | lexion_lib/src/grammar/grammar.rs:193-202 | a pass that kept the size ends in a closed set; one that changed it grew the set strictly |
| FirstSets.NullablePrefix | lexion_lib/src/grammar/grammar.rs:239-254 | the scan moves on at most over every right-hand symbol |
| FirstSets.NullablePrefixFacts | lexion_lib/src/grammar/grammar.rs:239-254 | every symbol the scan moves over has epsilon in FIRST, the one it stops at does not, and it runs off the end exactly when all do |
| FirstSets.ScanFirstMembers | lexion_lib/src/grammar/grammar.rs:241-254 | the scan collects exactly the non-epsilon members of the FIRST sets of the symbols up to the one where it stops |
| FirstSets.FirstOfRulesMembers | lexion_lib/src/grammar/grammar.rs:236-262 | the union over rules holds exactly what some rule of the symbol contributes |
| FirstSets.FirstOfRulesStep | lexion_lib/src/grammar/grammar.rs:236-262 | one rule more adds that rule's contribution when its left side is the symbol |
| FirstSets.ScanStep | lexion_lib/src/grammar/grammar.rs:241-254 | one scan step: the symbol's FIRST set without epsilon, and the rest only when it holds epsilon |
| FirstSets.NullablePrefixMono | lexion_lib/src/grammar/grammar.rs:239-254 | larger FIRST sets let the scan move on at least as far |
| FirstSets.ScanFirstMono | lexion_lib/src/grammar/grammar.rs:241-254 | the scan is monotone in the FIRST map |
| FirstSets.RuleFirstMono | lexion_lib/src/grammar/grammar.rs:241-261 | a rule's contribution is monotone in the FIRST map |
| FirstSets.FirstOfRulesMono | lexion_lib/src/grammar/grammar.rs:236-262 | the union over rules is monotone in the FIRST map |
| FirstSets.FirstOfSpecMono | lexion_lib/src/grammar/grammar.rs:217-265 | `first_of` is monotone in the map it reads |
| FirstSets.ScanFirstBounded | lexion_lib/src/grammar/grammar.rs:241-254 | the scan only yields symbols already in the FIRST sets' range |
| FirstSets.FirstOfRulesBounded | lexion_lib/src/grammar/grammar.rs:236-262 | the union over rules stays inside the symbol set |
| FirstSets.FirstOf | lexion_lib/src/grammar/grammar.rs:217-265 | the loop computes `{s}` for a terminal, else the union over the rules of `s` of the scan plus epsilon when the scan ran off the end or the rule is `A -> ε` |
| FirstSets.RuleFirstOf | lexion_lib/src/grammar/grammar.rs:236-261 | one rule's scan gives the non-epsilon FIRST members up to the first symbol without epsilon, plus epsilon when every symbol had it or the side is `ε` |
| FirstSets.DeficitShrinks | lexion_lib/src/grammar/grammar.rs:267-278 | the loop measure never grows as the sets grow |
| FirstSets.DeficitStrict | lexion_lib/src/grammar/grammar.rs:273-275 | a set that gains a member makes the loop measure drop |
| FirstSets.BuildFirstSets | lexion_lib/src/grammar/grammar.rs:205-279 | the result is a fixpoint of `first_of` over all symbols and lies below every pre-fixpoint, so it is the least one |
| FirstSets.FirstUpdate | lexion_lib/src/grammar/grammar.rs:270-277 | one update keeps the invariant, and either grows a set and drops the measure or leaves the map unchanged |
| FirstSets.UpdateSameValue | lexion_lib/src/grammar/grammar.rs:276 | writing back the value already stored changes nothing |
| FirstSets.ProperSubsetCardConverse | lexion_lib/src/grammar/grammar.rs:273 | a larger superset has a new member |
| FirstSets.StepPreserves | lexion_lib/src/grammar/grammar.rs:270-277 | one update keeps the map below its own step and below every pre-fixpoint |
| FirstSets.FirstOfTerminal | lexion_lib/src/grammar/grammar.rs:229-231 | FIRST of a terminal is the terminal itself |
| FirstSets.FirstHoldsTerminals | lexion_lib/src/grammar/grammar.rs:205-279 | the least FIRST fixpoint holds only terminals, epsilon and `$` among them |
| FirstSets.FirstEpsilon | lexion_lib/src/grammar/grammar.rs:256-261 | epsilon is in FIRST(A) exactly when some rule of A is `A -> ε` or all its right-hand symbols have epsilon in FIRST |
| FirstSets.FirstNonEpsilon | lexion_lib/src/grammar/grammar.rs:235-254 | a non-epsilon x is in FIRST(A) exactly when x is in FIRST of some right-hand symbol of a rule of A all of whose predecessors have epsilon in FIRST |
| FollowSets.FollowGet | lexion_lib/src/grammar/grammar.rs:319-325 | `unwrap_or`: the stored FOLLOW set, or empty when there is no entry |
| FollowSets.FollowOf | lexion_lib/src/grammar/grammar.rs:294-351 | the loops compute the union of the scans after every occurrence of `s`, plus `$` for the start symbol, without epsilon |
| FollowSets.ScanAfter | lexion_lib/src/grammar/grammar.rs:313-339 | the scan after one occurrence: FIRST sets without epsilon while they hold epsilon, then FOLLOW of the left side at the end |
| FollowSets.NoOccurrenceNoFollow | lexion_lib/src/grammar/grammar.rs:307-310 | a rule without an occurrence of `s` contributes nothing |
| FollowSets.RuleFollowMono | lexion_lib/src/grammar/grammar.rs:310-340 | a rule's contribution is monotone in the FOLLOW map |
| FollowSets.FollowOfRulesMono | lexion_lib/src/grammar/grammar.rs:307-341 | `follow_of` is monotone in the FOLLOW map |
| FollowSets.ScanFirstInUniverse | lexion_lib/src/grammar/grammar.rs:328-333 | the scan only yields members of FIRST sets |
| FollowSets.RuleFollowBounded | lexion_lib/src/grammar/grammar.rs:310-340 | a rule's contribution stays inside the finite universe of FIRST members |
| FollowSets.FollowOfRulesBounded | lexion_lib/src/grammar/grammar.rs:307-341 | `follow_of` stays inside that universe, which bounds the loop |
| FollowSets.FollowStepPreserves | lexion_lib/src/grammar/grammar.rs:356-363 | one update keeps the map below its own step and below every pre-fixpoint |
| FollowSets.FollowUpdate | lexion_lib/src/grammar/grammar.rs:356-363 | one update keeps the invariant, and either grows a set and drops the measure or leaves the map unchanged |
| FollowSets.FollowInitial | lexion_lib/src/grammar/grammar.rs:283-292 | the initial map (empty sets, `$` for the start symbol) meets the loop invariant |
| FollowSets.BuildFollowSets | lexion_lib/src/grammar/grammar.rs:281-365 | the result is a fixpoint of `follow_of` over the nonterminals and lies below every pre-fixpoint, so it is the least one |
| FollowSets.FollowInUniverse | lexion_lib/src/grammar/grammar.rs:281-365 | the least FOLLOW fixpoint holds only members of FIRST sets and `$` |
| GrammarModel.FromRules | lexion_lib/src/grammar/grammar.rs:105-124 | the grammar meets every fact of construction: partition, symbols, rule 0, least nullable set, least FIRST and FOLLOW fixpoints |
| GrammarModel.InputShape | lexion_lib/src/grammar/grammar.rs:105-124 | rules a grammar can be built from meet the preconditions of the FIRST and FOLLOW construction |
| GrammarModel.AugmentedFirstInput | lexion_lib/src/grammar/grammar.rs:174-180 | after `S' -> S` is added every right side is non-empty and made of known symbols |
| GrammarModel.StartInNonTerminals | lexion_lib/src/grammar/grammar.rs:156-159 | the start symbol is a nonterminal |
| GrammarModel.StartOfIsLeft | lexion_lib/src/grammar/grammar.rs:156-158 | the start symbol is the left side of some rule |
| GrammarModel.RightInSymbols | lexion_lib/src/grammar/grammar.rs:160-172 | every right-hand symbol is in the symbol set |
| GrammarModel.FirstOf | lexion_lib/src/grammar/grammar.rs:367-369 | some set exactly when the symbol has an entry, and then its FIRST set |
| GrammarModel.FollowOf | lexion_lib/src/grammar/grammar.rs:371-373 | some set exactly when the symbol has an entry, and then its FOLLOW set |
| GrammarModel.NullableSequenceConcat | lexion_lib/src/grammar/grammar.rs:375-381 | a concatenation is a nullable sequence exactly when both parts are |
| GrammarModel.ConstructionLayout | lexion_lib/src/grammar/grammar.rs:105-181 | terminal rules are the input rules with terminal left sides, rule 0 is `S' -> S`, the other rules are the input's nonterminal rules, `$` is a terminal, epsilon is not, terminals and nonterminals are of their kind |
| GrammarModel.NullableFacts | lexion_lib/src/grammar/grammar.rs:187-203 | the nullable set holds every `A -> ε` left side, is closed for rules 1.., and lies inside every such closed set |
| GrammarModel.FollowBasics | lexion_lib/src/grammar/grammar.rs:283-292 | `$` is in FOLLOW(S), epsilon is in no FOLLOW set, and exactly the nonterminals have entries |
| GrammarModel.FollowHoldsTerminals | lexion_lib/src/grammar/grammar.rs:281-365 | every FOLLOW set of a constructed grammar holds only terminals |
| GrammarModel.FollowMembers | lexion_lib/src/grammar/grammar.rs:294-351 | x is in FOLLOW(B) exactly when x is `$` and B is the start, or some occurrence of B lets x follow it |
| GrammarModel.FollowOfRulesMembers | lexion_lib/src/grammar/grammar.rs:307-341 | the union over rules holds exactly what some occurrence of the symbol lets follow |
| GrammarModel.RuleFollowMembers | lexion_lib/src/grammar/grammar.rs:310-340 | one rule contributes exactly what one of its occurrences of the symbol lets follow |
| GrammarModel.OccurrenceMembers | lexion_lib/src/grammar/grammar.rs:313-339 | one occurrence's scan yields exactly the symbols that may follow it |
| TokenTypes.Escape | lexion_lib/src/grammar/grammar.rs:408 | an escaped pattern is at least as long as the text |
| TokenTypes.EscapeRoundTrip | lexion_lib/src/grammar/grammar.rs:408 | the literal text can be read back from its escaped pattern |
| TokenTypes.EscapePlain | lexion_lib/src/grammar/grammar.rs:408 | text without metacharacters is its own pattern |
| TokenTypes.FindRuleFacts | lexion_lib/src/grammar/grammar.rs:401 | `find` gives the first terminal rule for the terminal, and fails only when there is none |
| TokenTypes.TokenTypesOf | lexion_lib/src/grammar/grammar.rs:404-414 | one token type per terminal, built from the terminal's rule or its escaped text |
| TokenTypes.GetTokenTypes | lexion_lib/src/grammar/grammar.rs:391-417 | the three unnamed skip types come first, then one per named terminal |
| TokenTypes.KeepMembers | lexion_lib/src/grammar/grammar.rs:398-403 | each group holds exactly the terminals other than `$` with (or without) a terminal rule |
| TokenTypes.NamedAt | lexion_lib/src/grammar/grammar.rs:398-403 | a terminal's position among named types says whether it has a terminal rule |
| TokenTypes.NamedDistinct | lexion_lib/src/grammar/grammar.rs:398-403 | no terminal is named twice |
| TokenTypes.TokenTypesAt | lexion_lib/src/grammar/grammar.rs:397-415 | each type after the first three carries its terminal's name and pattern |
| TokenTypes.NamedMembers | lexion_lib/src/grammar/grammar.rs:398-403 | the named types are exactly the terminals other than `$`, each once |
| TokenTypes.NamedOrder | lexion_lib/src/grammar/grammar.rs:400-403 | the stable sort puts terminals without a rule first and keeps the set's order within each group |
| LegacyGrammars.AllTerminalsInMembers | src/lib/grammar/grammar.rs:131-137 | the terminals collected from a right side are exactly its terminal symbols, epsilon included |
| LegacyGrammars.AllTerminalsOfMembers | src/lib/grammar/grammar.rs:126-138 | a symbol is collected as a terminal exactly when it is a terminal on some right side |
| LegacyGrammars.TerminalsAgainstLexionLib | src/lib/grammar/grammar.rs:125-142 | the terminal set differs from the newer crate's only in epsilon and `$`, each present exactly when it appears on a right side |
| LegacyGrammars.BuildSymbols | src/lib/grammar/grammar.rs:125-142 | the first non-empty left side as start, the nonterminals, the terminals and the symbol set with epsilon |
| LegacyGrammars.DerivesEmptyMono | src/lib/grammar/grammar.rs:152-154 | a derivation of the empty string within one height bound fits every larger bound |
| LegacyGrammars.CommonHeight | src/lib/grammar/grammar.rs:154 | nullable symbols share one height bound |
| LegacyGrammars.NullableStep | src/lib/grammar/grammar.rs:152-154 | a symbol derives the empty string exactly when some rule of it has only such symbols on the right |
| LegacyGrammars.NotLeftNotNullable | src/lib/grammar/grammar.rs:149-151 | a symbol that is not a nonterminal is never nullable |
| LegacyGrammars.BuildPropsNullable | src/lib/grammar/grammar.rs:144-168 | a memoised answer comes back unchanged, a non-nonterminal gives `false`, any answer is the true nullability and is memoised, the memo stays truthful, and a left-recursive first rule exhausts the stack |
| LegacyGrammars.IsNullableSound | src/lib/grammar/grammar.rs:340-345 | a memoised `true` is right, and a memoised entry is right both ways |
| LegacyGrammars.EpsilonRuleNotNullable | src/lib/grammar/grammar.rs:144-168 | `A -> ε` does not make `A` nullable here, while an empty right side does |
| LegacyGrammars.SymbolsShape | src/lib/grammar/grammar.rs:125-142 | every left side is a nonterminal and every symbol of a rule is in the symbol set |
| LegacyGrammars.FromRules | src/lib/grammar/grammar.rs:81-104 | a returned grammar meets every construction fact; a panic means no nonterminal rule or a scan past the end at every pre-fixpoint; all-terminal input, `A -> ε` and a left-recursive start each fail |
| LegacyGrammars.NoRulesPanics | src/lib/grammar/grammar.rs:260 | the start symbol is a nonterminal exactly when there is a nonterminal rule |
| LegacyGrammars.TokenTypeOf | src/lib/grammar/grammar.rs:359-369 | the first terminal rule's first right symbol or the unescaped text, after `^`; a panic exactly when that rule's right side is empty |
| LegacyGrammars.NamedTokenTypes | src/lib/grammar/grammar.rs:357-370 | one token type per terminal in iteration order, unless one panics |
| LegacyGrammars.GetTokenTypes | src/lib/grammar/grammar.rs:351-372 | the three skip types followed by the named ones |
| LegacyGrammars.TokenTypeNames | src/lib/grammar/grammar.rs:351-372 | exactly one named token type per terminal, epsilon and `$` included when they are terminals |
| LegacyGrammars.DistinctCard | src/lib/grammar/grammar.rs:358 | an enumeration of the terminal set without repetition has its size |
| LegacyFirstSets.FirstOfAsWritten | src/lib/grammar/grammar.rs:186-233 | the newer crate's result when no scan reads past the end of a right side, and a panic exactly when one does |
| LegacyFirstSets.OffEndStep | src/lib/grammar/grammar.rs:205-230 | one rule more reads past the end when an earlier one did or its own scan runs off |
| LegacyFirstSets.OffEndPersists | src/lib/grammar/grammar.rs:210-222 | a scan that runs off at one map runs off at every larger one |
| LegacyFirstSets.EpsilonRuleRunsOffEnd | src/lib/grammar/grammar.rs:210-222 | `A -> ε` and an empty rule run off the end at every pre-fixpoint |
| LegacyFirstSets.BuildFirstSetsAsWritten | src/lib/grammar/grammar.rs:174-247 | finishing gives the least fixpoint with no scan off the end; a panic means a scan off the end at every pre-fixpoint; `A -> ε` always panics |
| LegacyFirstSets.PassAsWritten | src/lib/grammar/grammar.rs:238-245 | a pass keeps the invariant, drops the measure when a set grew, ends at a fixpoint when none did, and panics only when every pre-fixpoint would |
| LegacyFirstSets.PanicEverywhere | src/lib/grammar/grammar.rs:210-222 | a panic below every pre-fixpoint recurs at each of them |
| LegacyFirstSets.FinishedFacts | src/lib/grammar/grammar.rs:235-246 | when the loop finishes there is no `A -> ε` or empty rule |
| LegacyFollowSets.FollowOfAsWritten | src/lib/grammar/grammar.rs:262-316 | the union of the re-reading scans after each occurrence, plus `$` for the start, without epsilon |
| LegacyFollowSets.ScanAfterAsWritten | src/lib/grammar/grammar.rs:281-304 | the scan that reads FIRST of `right[i + 1]` at every step and adds FOLLOW of the left side at the end |
| LegacyFollowSets.NoOccurrenceNoFollowAsWritten | src/lib/grammar/grammar.rs:275-278 | a rule without an occurrence contributes nothing |
| LegacyFollowSets.RuleFollowAsWrittenMono | src/lib/grammar/grammar.rs:278-305 | a rule's contribution is monotone in the FOLLOW map |
| LegacyFollowSets.FollowOfRulesAsWrittenMono | src/lib/grammar/grammar.rs:275-306 | `follow_of` is monotone in the FOLLOW map |
| LegacyFollowSets.RuleFollowAsWrittenBounded | src/lib/grammar/grammar.rs:278-305 | a rule's contribution stays inside the FIRST members' universe |
| LegacyFollowSets.FollowOfRulesAsWrittenBounded | src/lib/grammar/grammar.rs:275-306 | `follow_of` stays inside that universe |
| LegacyFollowSets.StepPreservesAsWritten | src/lib/grammar/grammar.rs:321-328 | one update keeps the map below its step and below every pre-fixpoint |
| LegacyFollowSets.UpdateAsWritten | src/lib/grammar/grammar.rs:321-328 | one update keeps the invariant and either drops the measure or changes nothing |
| LegacyFollowSets.InitialAsWritten | src/lib/grammar/grammar.rs:251-260 | the initial map meets the loop invariant |
| LegacyFollowSets.BuildFollowSetsAsWritten | src/lib/grammar/grammar.rs:249-330 | a panic exactly when the start symbol is not a nonterminal; otherwise the least fixpoint of the re-reading scan |
| LegacyFollowSets.AgreesWhenNextNotNullable | src/lib/grammar/grammar.rs:281-304 | when the symbol after the occurrence lacks epsilon, or there is none, the scan agrees with the newer crate's |
| LegacyFollowSets.RereadMissesLaterSymbols | src/lib/grammar/grammar.rs:293 | for `A -> B ε 'x'` the scan after `B` yields `{$}` where the newer crate's yields `{'x'}` |
| LL1Parsers.Get | src/lib/parsers/ll1.rs:41 | the previous value of a fresh row exists exactly when the key was there |
| LL1Parsers.EnterOneMore | src/lib/parsers/ll1.rs:36-48 | entering one more lookahead is one more cell write, creating the row if needed |
| LL1Parsers.EnterCells | src/lib/parsers/ll1.rs:36-48 | entering a rule sets exactly the cells of its lookaheads to it and keeps every other cell |
| LL1Parsers.TableCells | src/lib/parsers/ll1.rs:24-50 | a cell is set exactly when some entered rule of the nonterminal has the lookahead in FIRST of its first symbol, it holds the last such rule, and no row is empty |
| LL1Parsers.CellsStep | src/lib/parsers/ll1.rs:25-49 | entering rule n-1 into the table of the first n-1 rules gives the table of the first n |
| LL1Parsers.SomeRuleStep | src/lib/parsers/ll1.rs:25 | one rule more among those that claim a cell |
| LL1Parsers.GrammarParserLL1.constructor | src/lib/parsers/ll1.rs:14-17 | the flag is set and the table is empty |
| LL1Parsers.GrammarParserLL1.BuildParseTable | src/lib/parsers/ll1.rs:24-50 | a panic exactly when some rule has an empty right side, a first symbol without a FIRST entry, or is `A -> $` without a FOLLOW entry for `A`; otherwise the table of all rules; the flag is unchanged |
| LL1Parsers.GrammarParserLL1.EnterRule | src/lib/parsers/ll1.rs:36-48 | the table of the first k rules becomes the table of the first k+1; the flag is unchanged |
| LL1Parsers.FromGrammar | src/lib/parsers/ll1.rs:13-20 | a parser exactly when building succeeds, with the full table, and `is_ll1` true |
| LL1Parsers.BuiltGrammarsBuild | src/lib/parsers/ll1.rs:26 | a grammar that construction returned never makes building panic |
| LL1Parsers.EarlierRuleOverwritten | src/lib/parsers/ll1.rs:36-47 | two rules of one nonterminal sharing a lookahead: the cell keeps the later one and the flag stays set |
| Lr0Items.AcceptIsFinal | lexion_lib/src/parsers/items/lr0.rs:31-41 | an accepting item `S' -> S •` is final |
| Lr0Items.InsertAt | lexion_lib/src/parsers/items/lr0.rs:46 | `Vec::insert`: the element lands at the position with the prefix and suffix around it unchanged |
| Lr0Items.ItemTokens | lexion_lib/src/parsers/items/lr0.rs:43-48 | the rendered tokens are the right side with the dot marker inserted at the dot |
| Lr0Items.TokensMarkDot | lexion_lib/src/parsers/items/lr0.rs:43-48 | when the right side has no marker of its own, the marker sits exactly at the dot |
| Lr0Items.LeastItemExists | lexion_lib/src/parsers/items/lr0.rs:6-10 | a non-empty item set, ordered by rule index then dot, has a least item |
| Lr0Items.GotoMembers | lexion_lib/src/parsers/items/lr0.rs:52-61 | `goto` holds exactly the items one past an occurrence of the symbol after a dot, so never a dot-0 item |
| Lr0Items.GotoValid | lexion_lib/src/parsers/items/lr0.rs:52-61 | `goto` keeps items valid and has no dot at the start |
| Lr0Items.GotoMono | lexion_lib/src/parsers/items/lr0.rs:52-61 | `goto` is monotone in the item set |
| Lr0Items.PredictMembers | lexion_lib/src/parsers/items/lr0.rs:67-75 | one pass predicts exactly the dot-0 items of the rules for the next symbol of some non-final item |
| Lr0Items.PredictAdd | lexion_lib/src/parsers/items/lr0.rs:67-75 | the predictions of one more item are that item's predictions added |
| Lr0Items.PredictValid | lexion_lib/src/parsers/items/lr0.rs:67-75 | predictions are valid items |
| Lr0Items.PredictMono | lexion_lib/src/parsers/items/lr0.rs:67-75 | predictions are monotone in the item set |
| Lr0Items.AllItems | lexion_lib/src/parsers/items/lr0.rs:6-10 | exactly the valid items of the rules |
| Lr0Items.Closure | lexion_lib/src/parsers/items/lr0.rs:63-82 | the closure of valid items is valid |
| Lr0Items.ClosureFacts | lexion_lib/src/parsers/items/lr0.rs:63-82 | the closure contains the items, is closed, and adds only dot-0 items |
| Lr0Items.ClosureLeast | lexion_lib/src/parsers/items/lr0.rs:63-82 | the closure lies inside every closed superset |
| Lr0Items.ClosureIdempotent | lexion_lib/src/parsers/items/lr0.rs:63-82 | closing twice is closing once, and a closed set is its own closure |
| Lr0Items.ClosedHasPredictions | lexion_lib/src/parsers/items/lr0.rs:67-75 | a closed set holds the dot-0 item of every rule for the next symbol of each non-final item |
| Lr0Items.ElemsAppend | lexion_lib/src/parsers/items/lr0.rs:73 | pushing an item adds it to the buffer's elements |
| Lr0Items.AppendPredictions | lexion_lib/src/parsers/items/lr0.rs:70-74 | the inner loop appends the dot-0 item of every rule for the symbol and keeps what was there |
| Lr0Items.CollectAdditions | lexion_lib/src/parsers/items/lr0.rs:67-75 | one pass fills the buffer with exactly the predictions of the set |
| Lr0Items.CloseItems | lexion_lib/src/parsers/items/lr0.rs:63-82 | the loop computes the closure |
| Lr0Items.ClosureStep | lexion_lib/src/parsers/items/lr0.rs:76-80 | a pass that adds nothing ends at the closure; one that adds items grows the set strictly and keeps the closure |
| Collection.CloseState | lexion_lib/src/parsers/items/graph.rs:33-37 | a closed state stays as it is; otherwise its items become their closure and the flag is set |
| Collection.AcceptStateIsFinal | lexion_lib/src/parsers/items/graph.rs:47-53 | a state with an accepting item has a final item |
| Collection.IndexOf | lexion_lib/src/parsers/items/graph.rs:79 | `get_by_right`: no id exactly when the state is not registered, and otherwise an id naming it |
| Collection.BuildCollection | lexion_lib/src/parsers/items/graph.rs:67-108 | state 0 is the closure of the initial item; all states are closed, distinct and valid; every edge from f is labelled by a next symbol of f and leads to the closure of goto on it; every next symbol of every state has its edge |
| Collection.EntryValid | lexion_lib/src/parsers/items/graph.rs:75-77 | a popped entry's items are valid and its predecessor is registered |
| Collection.RegisterGrows | lexion_lib/src/parsers/items/graph.rs:80-82 | registering a new state adds one new item set, which bounds the loop |
| Collection.PushSuccessors | lexion_lib/src/parsers/items/graph.rs:83-90 | one entry per distinct next symbol, carrying goto on it |
| Collection.StepKeeps | lexion_lib/src/parsers/items/graph.rs:74-102 | one step of the worklist loop keeps the builder invariant |
| Collection.StackStep | lexion_lib/src/parsers/items/graph.rs:75-90 | after a step every stacked entry was pushed by a registered state for one of its next symbols |
| Collection.StatesStep | lexion_lib/src/parsers/items/graph.rs:79-82 | registering a closed state only when it is new keeps the states distinct and closed |
| Collection.EdgesStep | lexion_lib/src/parsers/items/graph.rs:93-101 | the edge added from the predecessor to the state is a correct edge |
| Collection.CompleteStep | lexion_lib/src/parsers/items/graph.rs:74-102 | after a step every next symbol of every state has its edge or a waiting entry |
| Collection.CompleteAt | lexion_lib/src/parsers/items/graph.rs:74-102 | the same for one state and one symbol |
| Collection.HasEdgeKept | lexion_lib/src/parsers/items/graph.rs:97-100 | appending an edge keeps every edge already there |
| Collection.IndexOfDistinct | lexion_lib/src/parsers/items/graph.rs:79-82 | among distinct states a state's id is its position |
| ParseTable.ActionStringRoundTrip | lexion_lib/src/parsers/table.rs:25-39 | every action's text (`s3`, `3`, `r3`, `acc`, empty) reads back as that action |
| ParseTable.ActionStringInjective | lexion_lib/src/parsers/table.rs:25-39 | no two actions print the same |
| ParseTable.ParseTableLR.constructor | lexion_lib/src/parsers/table.rs:47-50 | an empty table for the given number of states |
| ParseTable.ParseTableLR.InsertEntry | lexion_lib/src/parsers/table.rs:89-99 | sets the one cell to the action, creating its column if needed, and leaves every other cell as it was |
| ParseTable.LastEdgeOnFacts | lexion_lib/src/parsers/table.rs:71-82 | the edge whose write survives is the last one labelled with the symbol, and there is none exactly when no edge is |
| ParseTable.ReduceWinnerUnique | lexion_lib/src/parsers/table.rs:57-67 | among the final items reducing on a symbol, the one written last is unique |
| ParseTable.CellOkWellFormed | lexion_lib/src/parsers/table.rs:51-83 | with a terminal-only lookahead, `Goto` sits only on nonterminal columns and `Shift`, `Reduce`, `Accept` only on terminal ones |
| ParseTable.FromCollectionWellFormed | lexion_lib/src/parsers/table.rs:42-85 | the whole table is well formed in that sense |
| ParseTable.FromCollection | lexion_lib/src/parsers/table.rs:42-85 | every cell of state i holds the action of the last edge from i on the symbol, else `Accept` on `$` for an accepting state, else the reduce of the greatest final item whose lookahead holds the symbol, else `Reject`; cells of no state are `Reject` |
| ParseTable.FillState | lexion_lib/src/parsers/table.rs:52-82 | the writes of one state give its cells and leave other states alone |
| ParseTable.FillBase | lexion_lib/src/parsers/table.rs:52-68 | the accept or reduce writes of one state |
| ParseTable.FillEdges | lexion_lib/src/parsers/table.rs:71-82 | the shift and goto writes of one state, a later edge on a symbol overwriting |
| ParseTable.FillReduces | lexion_lib/src/parsers/table.rs:57-67 | the reduce writes of a final state, final items in item order |
| ParseTable.InsertReduces | lexion_lib/src/parsers/table.rs:59-66 | `Reduce(rule)` on each lookahead terminal and nothing else changed |
| ParseTable.ReduceStep | lexion_lib/src/parsers/table.rs:57-67 | writing a greater final item's reduces keeps the winner-written-last description |
| ParseTable.ReduceFinalsOnly | lexion_lib/src/parsers/table.rs:57-58 | only final items take part in the reduce writes |
| ParseTable.SelectRank | lexion_lib/src/parsers/table.rs:116-127 | each group of the column order holds symbols of its rank |
| ParseTable.ColumnOrderPermutation | lexion_lib/src/parsers/table.rs:112-127 | the printed column order is a rearrangement of the table's symbols |
| ParseTable.ColumnOrderSorted | lexion_lib/src/parsers/table.rs:116-127 | quoted terminals come first, then `$`, then nonterminals |
| LrParsers.StatesOkValid | lexion_lib/src/parsers/lr0.rs:18-19 | registered states are made of valid items |
| LrParsers.Lr0FromGrammar | lexion_lib/src/parsers/lr0.rs:17-23 | the collection of item (0, 0) with its edge facts, and the table whose reduce lookahead is every terminal, well formed when the terminals are |
| LrParsers.Lr0ReducesOnEveryTerminal | lexion_lib/src/parsers/lr0.rs:17-23 | a final non-accepting LR(0) state reduces by its greatest final item on every terminal it has no edge on |
| LrParsers.Slr1FromGrammar | lexion_lib/src/parsers/slr1.rs:18-31 | the same collection; every cell but the overridden one follows `from_collection` with FOLLOW of the rule's left side (empty when missing); the override `(114, ',')` holds `Reduce(96)`; when FOLLOW holds only terminals (as `GrammarModel.FollowHoldsTerminals` proves for a constructed grammar) the table, override included, is well formed |
| LrParsers.SlrReduceInFollow | lexion_lib/src/parsers/slr1.rs:21-24 | an SLR(1) reduce by rule r lies on a symbol of FOLLOW of r's left side |
| LrParsers.SlrNoEpsilonReduce | lexion_lib/src/parsers/slr1.rs:21-24 | for a constructed grammar no SLR(1) reduce lies on epsilon |
| Reachability.ReachHasPath | lexion_lib/src/parsers/lalr1.rs:84-88 | every state the depth-bounded search finds ends a chain of steps from its start of at most that many states |
| Reachability.PathInReach | lexion_lib/src/parsers/lalr1.rs:84-88 | the end of every chain of at most d states is found by the search of depth d |
| Reachability.ReachIsPaths | lexion_lib/src/parsers/lalr1.rs:84-88 | both directions: the search of depth d finds exactly the ends of the chains from its start of at most d states |
| Reachability.PathsBoundedStep | lexion_lib/src/parsers/lalr1.rs:84-88 | a node whose every successor bounds its chains by n - 1 bounds its own by n |
| Lalr1.GotoState | lexion_lib/src/parsers/lalr1.rs:37-41 | the goto state over x has valid items |
| Lalr1.GotoStateClosed | lexion_lib/src/parsers/lalr1.rs:37-41 | the goto state is marked closured, is closed, and holds every goto item |
| Lalr1.DirectPreds | lexion_lib/src/parsers/lalr1.rs:54-58 | exactly the states of the collection whose goto over the symbol is the state |
| Lalr1.Pred | lexion_lib/src/parsers/lalr1.rs:43-61 | only the state or states of the collection; the empty and the epsilon-only sequence give the state itself |
| Lalr1.PredMember | lexion_lib/src/parsers/lalr1.rs:52-60 | membership one step back, through a state whose goto over the last symbol is the state |
| Lalr1.RunSnoc | lexion_lib/src/parsers/lalr1.rs:52-60 | a run stays in the collection exactly when its shorter run does and ends in a state of it |
| Lalr1.PredIsRuns | lexion_lib/src/parsers/lalr1.rs:43-61 | for a sequence without epsilon, `pred` is exactly the starts of runs along it that stay in the collection and end in the state |
| Lalr1.Contributed | lexion_lib/src/parsers/lalr1.rs:71-83 | what a state offers `trans` directly is only terminals other than epsilon |
| Lalr1.NullableSuccessors | lexion_lib/src/parsers/lalr1.rs:84-88 | the states `trans` recurses into from a state are states of `tm` |
| Lalr1.ReachWithin | lexion_lib/src/parsers/lalr1.rs:84-88 | the states reached along nullable successors are the start state or states of `tm` |
| Lalr1.ScannedOffered | lexion_lib/src/parsers/lalr1.rs:63-91 | what a scan finds is offered by `tm` with the scanned state |
| Lalr1.ItemScanCases | lexion_lib/src/parsers/lalr1.rs:80-89 | an item either recurses (its goto's scan, no direct lookahead) or gives its direct lookahead only |
| Lalr1.ScannedByItems | lexion_lib/src/parsers/lalr1.rs:75-90 | for a non-accepting state in `tm`, the scan is exactly the union of the scans of its items |
| Lalr1.OfferedGrows | lexion_lib/src/parsers/lalr1.rs:70 | more states in `tm` offer at least as much |
| Lalr1.LaOfAdd | lexion_lib/src/parsers/lalr1.rs:110-111 | a newly marked pair adds exactly what its goto state offers |
| Lalr1.OfferedWithinLaOf | lexion_lib/src/parsers/lalr1.rs:111 | states that are all goto states of marked pairs offer only what those pairs' lookaheads hold |
| Lalr1.SeedsDemanded | lexion_lib/src/parsers/lalr1.rs:112-120 | an item `lalr` recurses into from a pair demands all its seeds |
| Lalr1.DemandsInAdd | lexion_lib/src/parsers/lalr1.rs:112-120 | one more item adds its seeds exactly when `lalr` recurses into it |
| Lalr1.NewClosedThen | lexion_lib/src/parsers/lalr1.rs:105-121 | closedness of the newly marked pairs composes over successive growths |
| Lalr1.NewClosedAdd | lexion_lib/src/parsers/lalr1.rs:110-120 | a pair closed once its items are done leaves all pairs marked since before it closed |
| Lalr1.LeastThen | lexion_lib/src/parsers/lalr1.rs:105-121 | leastness over the seeds composes over successive growths |
| Lalr1.LeastThenDemanded | lexion_lib/src/parsers/lalr1.rs:112-120 | the pairs a recursion marks lie in every closed set that holds the pairs marked before |
| Lalr1.LeastAdd | lexion_lib/src/parsers/lalr1.rs:110 | marking one pair first is leastness with that pair as a seed |
| Lalr1.SetConstructor.constructor | lexion_lib/src/parsers/lalr1.rs:24-35 | empty lookahead, `tm` and visited sets over the given grammar and collection |
| Lalr1.SetConstructor.Trans | lexion_lib/src/parsers/lalr1.rs:63-91 | `tm` gains exactly the state; an accepting state adds `$` only; the lookaheads only ever grow within what the states on chains of nullable successors in `tm` offer, and a finished scan adds exactly that set, no chain being longer than the fuel; never panics; a self-looping nullable item recurses without end |
| Lalr1.SetConstructor.TransItems | lexion_lib/src/parsers/lalr1.rs:75-90 | the loop adds exactly the union of the items' scans when it finishes, and stays within the state's scan otherwise; `tm` and the marks are unchanged |
| Lalr1.SetConstructor.TransItem | lexion_lib/src/parsers/lalr1.rs:80-89 | an item that does not recurse adds exactly its direct lookahead; one that recurses adds exactly its goto state's scan with one level less when that finishes |
| Lalr1.SetConstructor.Lalr | lexion_lib/src/parsers/lalr1.rs:93-122 | the pairs marked lie in every closed set holding the seeds and the earlier marks; a finished run has marked every seed, closed every new pair, holds what the goto states of all marked pairs offer, and ran `trans` on the goto of each new pair |
| Lalr1.SetConstructor.Visit | lexion_lib/src/parsers/lalr1.rs:110-120 | marks the pair, runs `trans` on its goto state, and on finishing the pair and the ones marked after it are closed and their gotos' lookaheads are held |
| Lalr1.SetConstructor.LalrItems | lexion_lib/src/parsers/lalr1.rs:112-120 | a state with a complete item panics on `right[dot]`; finishing means it has none and the pair is closed |
| Lalr1.SetConstructor.Lalr1 | lexion_lib/src/parsers/lalr1.rs:124-131 | an item of the augmented start rule changes nothing; any other runs `lalr` with its guarantees |
| Lalr1.ItemsScanAdd | lexion_lib/src/parsers/lalr1.rs:75-90 | one more item adds exactly its scan |
| Lalr1.ItemsScanGrows | lexion_lib/src/parsers/lalr1.rs:75-90 | the scans of some items, and one more, lie within the state's scan |
| Lalr1.ContributedScanned | lexion_lib/src/parsers/lalr1.rs:63-91 | a scan of positive depth holds what the state offers directly |
| Lalr1.ItemLookaheads | lexion_lib/src/parsers/lalr1.rs:145-147 | the set of an augmented-rule item is empty; any other finished set is that item's LALR(1) lookahead: what the goto states of the least closed set of pairs over its seeds offer |
| Lalr1.LalrFound | lexion_lib/src/parsers/lalr1.rs:145-147 | a finished `lalr1` from a fresh constructor has found exactly the LALR(1) lookahead |
| Lalr1.LalrLookaheadUnique | lexion_lib/src/parsers/lalr1.rs:145-147 | an item has one LALR(1) lookahead set |
| Lalr1.LalrLookaheadSets | lexion_lib/src/parsers/lalr1.rs:139-149 | every stored set belongs to a final item of its state and is, outside the augmented rule, its LALR(1) lookahead; when all runs finish every final item of every state has one |
| Lalr1.StateLookaheadSets | lexion_lib/src/parsers/lalr1.rs:144-148 | the sets of one state's final items, each its LALR(1) lookahead; other states untouched |
| Lalr1.LalrFromGrammar | lexion_lib/src/parsers/lalr1.rs:135-161 | the collection, the lookahead sets (each the LALR(1) lookahead of its item), and a table exactly when no run panicked, whose cells follow `from_collection` with the stored sets (empty when missing) and are well formed |
| Lalr1.LalrLookaheadTerminal | lexion_lib/src/parsers/lalr1.rs:152-154 | the stored sets hold only terminals |
| Lalr1.LalrReduceCell | lexion_lib/src/parsers/lalr1.rs:152-154 | a reduce by rule r on x lies on a terminal other than epsilon, r is not the augmented start rule, and x is in the set of a final item of r in that state |
| LrEngine.RejectMessage | lexion_lib/src/parsers/lr.rs:160-168 | "unexpected end of input" for the `$` token, "unexpected token '…'" with the text otherwise |
| LrEngine.LastState | lexion_lib/src/parsers/lr.rs:79-89 | the search for the nearest state entry fails exactly when the stack holds only nodes |
| LrEngine.ChildIds | lexion_lib/src/parsers/lr.rs:145-157 | the node ids at the even offsets of the drained span, in order; none when a state sits where a node should |
| LrEngine.RunNext | lexion_lib/src/parsers/lr.rs:72-171 | a step that goes on continues the loop from the next configuration |
| LrEngine.RunAction | lexion_lib/src/parsers/lr.rs:118-170 | one iteration with the chosen action ends the loop or continues it from the next configuration |
| LrEngine.ParseTrace | lexion_lib/src/parsers/lr.rs:51-177 | the loop from stack `[0]` and the first token computes the outcome of the step relation, within the fuel bound |
| LrEngine.Iterate | lexion_lib/src/parsers/lr.rs:73-170 | the loop body ends the run with its outcome or continues it from the next configuration |
| LrEngine.ChooseAction | lexion_lib/src/parsers/lr.rs:74-96 | the cell of the top state and the lookahead's kind, or of the nearest state and the node's rule's left side; none where the source panics |
| LrEngine.ApplyAction | lexion_lib/src/parsers/lr.rs:118-170 | the action's arm: accept on a node below the top, goto pushes, shift pushes a leaf and reads the next token, reduce, reject with its error |
| LrEngine.Reduce | lexion_lib/src/parsers/lr.rs:133-159 | a node for the left side at the lookahead's location, the drained nodes as its children in order, pushed; a panic for a bad rule, a short stack or a drained state |
| LrEngine.ChildIdsUnique | lexion_lib/src/parsers/lr.rs:145-157 | the ids at the even offsets are all there is to the drained children |
| LrEngine.StepKeepsStack | lexion_lib/src/parsers/lr.rs:118-170 | a step never empties the stack and only appends nodes |
| LrEngine.RunIgnoresCursor | lexion_lib/src/parsers/lr.rs:172-176 | the stack never runs empty, so the outcome does not depend on the cursor location |
| LrEngine.ParseIgnoresCursor | lexion_lib/src/parsers/lr.rs:172-176 | the error after the loop is never produced |
| LrEngine.NearestStateBelow | lexion_lib/src/parsers/lr.rs:79-89 | on an alternating stack the nearest state below a node is the entry directly beneath it |
| LrEngine.StepKeepsShape | lexion_lib/src/parsers/lr.rs:72-171 | on a well-formed table a step keeps the stack alternating and always changes the configuration, and panics only on accept over `[0]` or a reduce by a missing rule or over a short stack |
| LrEngine.ShiftKeepsShape | lexion_lib/src/parsers/lr.rs:127-132 | a shift keeps the alternation |
| LrEngine.ReduceKeepsShape | lexion_lib/src/parsers/lr.rs:133-159 | a reduce keeps the alternation, and panics only for a missing rule or a short stack |
| LrEngine.DrainedIds | lexion_lib/src/parsers/lr.rs:145-157 | on an alternating stack the drained span has a node at every even offset |
| LrEngine.PushNodeAlternates | lexion_lib/src/parsers/lr.rs:158 | pushing the new node after the drain keeps the alternation |
| LrEngine.RunKeepsShape | lexion_lib/src/parsers/lr.rs:72-171 | an accepted root names a node of the final arena, every rule exists and every child precedes its parent |
| LrEngine.AcceptFromNode | lexion_lib/src/parsers/lr.rs:119-123 | an accept names the node entry directly beneath the top, over the unchanged arena |
| LrEngine.ParseAcceptedIsTree | lexion_lib/src/parsers/lr.rs:51-177 | on a well-formed table an accepted parse returns a root inside an arena that is a tree over existing rules |
| LegacyLrEngine.RejectError | src/lib/parsers/lr.rs:168-175 | the error sits at the lookahead's location with the newer engine's message |
| LegacyLrEngine.EmptyStackError | src/lib/parsers/lr.rs:179-182 | the error sits at the tokenizer's cursor with an empty message |
| LegacyLrEngine.RunNext | src/lib/parsers/lr.rs:89-177 | a step that goes on continues the loop from the next configuration |
| LegacyLrEngine.RunAction | src/lib/parsers/lr.rs:126-176 | one iteration with the chosen action ends the loop or continues it |
| LegacyLrEngine.ParseTrace | src/lib/parsers/lr.rs:66-183 | the loop computes the outcome of the step relation, within the fuel bound |
| LegacyLrEngine.Iterate | src/lib/parsers/lr.rs:90-176 | the loop body ends the run or continues it from the next configuration |
| LegacyLrEngine.ChooseAction | src/lib/parsers/lr.rs:91-103 | the cell of the top state or of the nearest state under a node; none where the source panics |
| LegacyLrEngine.ApplyAction | src/lib/parsers/lr.rs:126-176 | the action's arm of the loop body |
| LegacyLrEngine.Reduce | src/lib/parsers/lr.rs:141-167 | a node for the left side, the drained nodes appended as children in order, pushed; the same panics |
| LegacyLrEngine.LiftNodes | src/lib/parsers/lr.rs:136-154 | each node of the arena corresponds to one node of the newer engine's graph |
| LegacyLrEngine.StepAgrees | src/lib/parsers/lr.rs:89-177 | one step of each engine on corresponding configurations chooses the same action and gives corresponding results |
| LegacyLrEngine.ApplyAgrees | src/lib/parsers/lr.rs:126-176 | each action's arm corresponds to the newer engine's |
| LegacyLrEngine.RunAgrees | src/lib/parsers/lr.rs:89-183 | over any number of steps the two engines agree |
| LegacyLrEngine.ParseAgrees | src/lib/parsers/lr.rs:66-183 | the older parse agrees with the newer one on the lifted token stream |
| LegacyLrEngine.ParseAcceptedIsTree | src/lib/parsers/lr.rs:66-183 | on a well-formed table an accepted parse returns a root inside an arena that is a tree over existing rules |
| Scanning.LongestIsEarliestMaximal | lexion_lib/src/tokenizer/tokenizer.rs:64-92 | the chosen match is the longest and, among equally long ones, the earliest pattern's; there is none exactly when no pattern matches |
| Scanning.LongestMatch | lexion_lib/src/tokenizer/tokenizer.rs:66-76 | the loop over the patterns computes that earliest longest match |
| Scanning.Unexpected | lexion_lib/src/tokenizer/tokenizer.rs:80-83 | the longest prefix of the rest of the input without whitespace |
| Scanning.UnexpectedMessage | lexion_lib/src/tokenizer/tokenizer.rs:86 | the message quotes that unexpected text |
| Scanning.LineBase | lexion_lib/src/tokenizer/tokenizer.rs:96-102 | the base the column is counted from stays inside the text before the cursor |
| Scanning.LastNewlineFacts | lexion_lib/src/tokenizer/tokenizer.rs:97-101 | the last line feed is found exactly when there is one, and none follows it |
| Scanning.LineBaseAfterLastNewline | lexion_lib/src/tokenizer/tokenizer.rs:96-102 | the base is the index after the last line feed, but 0 when there is none or it is at index 0 |
| Scanning.LineAndBase | lexion_lib/src/tokenizer/tokenizer.rs:95-102 | the loop gives one more than the number of line feeds and that base |
| Scanning.Column | lexion_lib/src/tokenizer/tokenizer.rs:107 | columns start at 1 |
| Scanning.ColumnAfterNewline | lexion_lib/src/tokenizer/tokenizer.rs:97-107 | after a line feed (not at index 0) the cursor is in column 1 of the next line |
| Scanning.LeadingNewlineColumn | lexion_lib/src/tokenizer/tokenizer.rs:100 | a line feed at index 0 puts the next character in column 2, where any later one puts it in column 1 |
| Scanning.ScanBounds | lexion_lib/src/tokenizer/tokenizer.rs:40-62 | the repeated skipping never moves the cursor back or past the end, and a named match lies inside the input |
| Scanning.ScanMatch | lexion_lib/src/tokenizer/tokenizer.rs:50-55 | a named match ends the scan; an empty skipped one spins; a longer skipped one is consumed |
| Scanning.ScanFacts | lexion_lib/src/tokenizer/tokenizer.rs:40-62 | a scan ends at the end exactly when it reports the end; a named match is the longest at its start; no match means no pattern matches there; a spin is an empty skipped match |
| Tokenizing.CursorLoc | lexion_lib/src/tokenizer/tokenizer.rs:94-110 | the tokenizer's file, one more line than line feeds before the cursor, a column of at least 1 |
| Tokenizing.NoMatchError | lexion_lib/src/tokenizer/tokenizer.rs:78-88 | the error's range starts at the cursor and spans the unexpected text on its line, with the message naming it |
| Tokenizing.NextFacts | lexion_lib/src/tokenizer/tokenizer.rs:40-62 | the cursor only moves forward and stays in the input; a returned token is a named one whose text is the input just before the new cursor, or the `$` token at the end |
| Tokenizing.OutcomeFacts | lexion_lib/src/tokenizer/tokenizer.rs:40-62 | the same facts for each kind of scan result |
| Tokenizing.NextOfMatch | lexion_lib/src/tokenizer/tokenizer.rs:50-61 | a named match returns its token at the cursor's location; an empty skipped match never returns; a longer one restarts after it |
| Tokenizing.NextOfEnd | lexion_lib/src/tokenizer/tokenizer.rs:41-48 | at the end the `$` token, with `$` as its text, at the cursor |
| Tokenizing.NextOfNoMatch | lexion_lib/src/tokenizer/tokenizer.rs:50 | when no pattern matches, the match error and an unmoved cursor |
| Tokenizing.NextOfFound | lexion_lib/src/tokenizer/tokenizer.rs:50-61 | a named match returns the matched text as the token's value |
| Tokenizing.NextOfSpin | lexion_lib/src/tokenizer/tokenizer.rs:52-55 | an empty match of a skipped pattern makes `next` recurse forever |
| Tokenizing.NextOfSkip | lexion_lib/src/tokenizer/tokenizer.rs:52-55 | skipping a match does not change what `next` returns |
| Tokenizing.Tokenizer.constructor | lexion_lib/src/tokenizer/tokenizer.rs:16-23 | file `inline`, the input and the patterns kept, cursor 0 |
| Tokenizing.Tokenizer.GetCursorLoc | lexion_lib/src/tokenizer/tokenizer.rs:94-110 | the cursor's location |
| Tokenizing.Tokenizer.MatchNext | lexion_lib/src/tokenizer/tokenizer.rs:64-92 | the earliest longest match at the cursor, the text read from the input, or the match error exactly when nothing matches |
| Tokenizing.Tokenizer.Next | lexion_lib/src/tokenizer/tokenizer.rs:40-62 | the outcome and the new cursor are those of the pure `next` |
| Tokenizing.Tokenizer.Round | lexion_lib/src/tokenizer/tokenizer.rs:40-62 | one pass of `next`: the outcome, or a skip that moves the cursor forward without changing what `next` returns |
| LegacyTokenizing.CursorLoc | src/lib/tokenizer/tokenizer.rs:94-112 | the reported file, one more line than line feeds before the cursor, a column of at least 1 |
| LegacyTokenizing.NoMatchError | src/lib/tokenizer/tokenizer.rs:79-89 | the error at the cursor with the message naming the unexpected text |
| LegacyTokenizing.NextFacts | src/lib/tokenizer/tokenizer.rs:42-63 | the cursor only moves forward and stays in the input; a returned token is named and read just before the new cursor, or the `$` token at the end |
| LegacyTokenizing.OutcomeFacts | src/lib/tokenizer/tokenizer.rs:42-63 | the same facts for each kind of scan result |
| LegacyTokenizing.NextOfMatch | src/lib/tokenizer/tokenizer.rs:52-62 | a named match returns its token; an empty skipped match never returns; a longer one restarts after it |
| LegacyTokenizing.NextOfEnd | src/lib/tokenizer/tokenizer.rs:43-50 | at the end the `$` token at the cursor |
| LegacyTokenizing.NextOfNoMatch | src/lib/tokenizer/tokenizer.rs:52 | when no pattern matches, the match error and an unmoved cursor |
| LegacyTokenizing.NextOfFound | src/lib/tokenizer/tokenizer.rs:52-62 | a named match returns the matched text as the token's value |
| LegacyTokenizing.NextOfSpin | src/lib/tokenizer/tokenizer.rs:53-56 | an empty match of a skipped pattern makes `next` recurse forever |
| LegacyTokenizing.NextOfSkip | src/lib/tokenizer/tokenizer.rs:53-56 | skipping a match does not change what `next` returns |
| LegacyTokenizing.Tokenizer.constructor | src/lib/tokenizer/tokenizer.rs:18-25 | file `inline`, the input and the patterns kept, cursor 0 |
| LegacyTokenizing.Tokenizer.GetCursorLoc | src/lib/tokenizer/tokenizer.rs:94-112 | the cursor's location in the reported file |
| LegacyTokenizing.Tokenizer.MatchNext | src/lib/tokenizer/tokenizer.rs:65-92 | the earliest longest match at the cursor, or the error exactly when nothing matches |
| LegacyTokenizing.Tokenizer.Next | src/lib/tokenizer/tokenizer.rs:42-63 | the outcome and the new cursor are those of the pure `next` |
| LegacyTokenizing.Tokenizer.Round | src/lib/tokenizer/tokenizer.rs:42-63 | one pass of `next`: the outcome, or a skip that moves the cursor forward without changing what `next` returns |
| Location.CompareIsTotalOrder | lexion_lib/src/tokenizer/location.rs:24-41 | the order by line, then column, is total: equal only on equal locations, antisymmetric, transitive |
| Location.MinLoc | lexion_lib/src/tokenizer/location.rs:134 | one of the two, no greater than either |
| Location.MaxLoc | lexion_lib/src/tokenizer/location.rs:135 | one of the two, no less than either |
| Location.FromLocation | lexion_lib/src/tokenizer/location.rs:77-85 | the empty range at the location, which contains it |
| Location.FromLocLen | lexion_lib/src/tokenizer/location.rs:100-109 | from the location to `len` columns on along the same line; empty exactly when `len` is 0 |
| Location.FromStartEnd | lexion_lib/src/tokenizer/location.rs:111-120 | an ordered range between the two locations, in the earlier one's file |
| Location.Extend | lexion_lib/src/tokenizer/location.rs:122-130 | the start lowered to the location and the end raised to it where needed |
| Location.ExtendContains | lexion_lib/src/tokenizer/location.rs:122-130 | the extended range is ordered, contains the location and everything the range contained |
| Location.Merge | lexion_lib/src/tokenizer/location.rs:132-141 | the first range's file, with bounds drawn from the four endpoints |
| Location.MergeContains | lexion_lib/src/tokenizer/location.rs:132-141 | the merged range is ordered and contains all four endpoints |
| Location.RangeStart | lexion_lib/src/tokenizer/location.rs:143-148 | the start of the range, in its file |
| Location.RangeEnd | lexion_lib/src/tokenizer/location.rs:150-155 | the end of the range, in its file |
| Spans.Merge | lexion_lib/src/tokenizer/span.rs:7-12 | as written: from the earlier start to the end of the span that starts later |
| Spans.MergeMayCutFirst | lexion_lib/src/tokenizer/span.rs:7-12 | merging 0..10 with 2..3 gives 0..3, which does not cover the first span |
| Spans.MergeCovering | lexion_lib/src/tokenizer/span.rs:7-12 | corrected: the least span covering both, from the earlier start to the later end |
| Spans.MergeAgreesWhenNested | lexion_lib/src/tokenizer/span.rs:7-12 | the two merges agree when the later-starting span also ends last |
| Spans.Start | lexion_lib/src/tokenizer/span.rs:14-16 | the empty span at the start |
| Spans.EndSpan | lexion_lib/src/tokenizer/span.rs:18-20 | the empty span just past the end |
| NameSearch.SearchIn | lexion_lang/src/symbol_table.rs:94-98 | a hit lies in the searched slots and holds the key; a miss is a position inside them |
| NameSearch.Search | lexion_lang/src/symbol_table.rs:94-98 | `Ok(i)` holds the key at `i`; `Err(p)` is a position in the vector |
| NameSearch.BelowKey | lexion_lang/src/symbol_table.rs:97 | in ascending names, everything up to a name below the key is below it |
| NameSearch.AboveKey | lexion_lang/src/symbol_table.rs:97 | in ascending names, everything from a name above the key on is above it |
| NameSearch.SearchInVacant | lexion_lang/src/symbol_table.rs:94-104 | on ascending names a miss splits the vector into names below and names above the key |
| NameSearch.SearchVacant | lexion_lang/src/symbol_table.rs:94-104 | on ascending names `Err(p)` means the key is absent and `p` is the place that keeps the order |
| NameSearch.InsertKeepsStrict | lexion_lang/src/symbol_table.rs:102-104 | inserting at `Err(p)` keeps strictly ascending names strictly ascending |
| NameSearch.InsertKeepsAscending | lexion_lang/src/symbol_table_generator.rs:66-71 | inserting at the position of either answer keeps ascending names ascending |
| ScopeChains.Ancestors | lexion_lang/src/symbol_table.rs:115-116 | the walk starts at the node itself and visits only existing tables |
| ScopeChains.FindOnChain | lexion_lang/src/symbol_table.rs:115-125 | a hit names a table on the walk and an index where the identifier is stored |
| ScopeChains.FindOnChainIsNearest | lexion_lang/src/symbol_table.rs:115-125 | with sorted tables, nothing is found exactly when no table on the walk holds the identifier, and a hit is in the nearest one that does |
| ScopeChains.AddKeepsForest | lexion_lang/src/symbol_table.rs:187-198 | adding a table whose parent already exists keeps every walk finite |
| SymbolTables.InsertEntryFacts | lexion_lang/src/symbol_table.rs:92-108 | tables stay sorted; `Err(i)` exactly when the name is present, at `i`, with nothing changed; otherwise that table gains exactly the entry and no other table changes; a missing node changes nothing and gives `Ok` |
| SymbolTables.Lookup | lexion_lang/src/symbol_table.rs:110-126 | a hit gives the table, the index and the entry stored there under the identifier |
| SymbolTables.LookupIsNearest | lexion_lang/src/symbol_table.rs:110-126 | nothing is found exactly when no table from the node up holds the identifier; a hit is in the nearest table that does |
| SymbolTables.InsertLogCases | lexion_lang/src/symbol_table.rs:200-214 | the redeclaration error exactly when the current table holds the name; the shadowing warning, naming the nearest entry's kind, exactly when only an ancestor does; nothing otherwise |
| SymbolTables.BlockScopeNamesDiffer | lexion_lang/src/symbol_table.rs:298-308 | blocks opened in one table after different numbers of entries get different names |
| SymbolTables.SymbolTableGraph.constructor | lexion_lang/src/symbol_table.rs:85-89 | an empty graph with root 0 |
| SymbolTables.SymbolTableGraph.InsertEntry | lexion_lang/src/symbol_table.rs:92-108 | the tables and the answer are those of the pure insert; root and edges unchanged |
| SymbolTables.SymbolTableGraph.AddTable | lexion_lang/src/symbol_table.rs:187-193 | an empty table appended at the next index, with the edge to its parent |
| SymbolTables.SymbolTableGenerator.constructor | lexion_lang/src/symbol_table.rs:173-178 | an empty graph, scope 0, nothing reported |
| SymbolTables.SymbolTableGenerator.ParentScope | lexion_lang/src/symbol_table.rs:181-185 | the current scope moves to its parent when it has one, and stays otherwise |
| SymbolTables.SymbolTableGenerator.Insert | lexion_lang/src/symbol_table.rs:200-214 | the entry goes into the current table as the pure insert says, and the diagnostics grow by the insert's log |
| SymbolTables.SymbolTableGenerator.CreateScope | lexion_lang/src/symbol_table.rs:187-198 | a new table named after the entry becomes current; unless it is table 0 it gets an edge to the old scope, and the entry, pointing at it, is inserted there with its diagnostics |
| SymbolTables.SymbolTableGenerator.CreateRoot | lexion_lang/src/symbol_table.rs:229-237 | the root scope is a new empty table `root`, which becomes both the graph's root and the current scope |
| SymbolTables.SymbolTableGenerator.EnterBlock | lexion_lang/src/symbol_table.rs:298-308 | a block opens a child scope of the current one named after the current table and its entry count |
| OldSymbolTables.PushAt | lexion_lang/src/symbol_table_generator.rs:55-59 | as written: the entry appended after all the others |
| OldSymbolTables.InsertAtFacts | lexion_lang/src/symbol_table_generator.rs:64-73 | inserting at the search's position keeps names ascending, adds exactly the entry, and the search then finds it |
| OldSymbolTables.DeclEntries | lexion_lang/src/symbol_table_generator.rs:24-31 | one entry per declarator, in order, without table or range |
| OldSymbolTables.InsertAllFacts | lexion_lang/src/symbol_table_generator.rs:24-32 | inserting each declarator keeps names ascending, adds exactly those entries, and each name is then present |
| OldSymbolTables.FindEntry | lexion_lang/src/symbol_table_generator.rs:75-87 | a hit is an entry under the identifier |
| OldSymbolTables.FindEntryIsComplete | lexion_lang/src/symbol_table_generator.rs:75-87 | with sorted tables, nothing is found exactly when no table from the node up holds the identifier |
| OldSymbolTables.PushBreaksLookup | lexion_lang/src/symbol_table_generator.rs:55-59 | after `var b; var c; fn a` the root holds `b`, `c`, `a` out of order and from inside `a` the lookup misses `a`; inserted in order it is found |
| OldSymbolTables.WithInserted | lexion_lang/src/symbol_table_generator.rs:24-32 | only the current table changes, and no table is renamed |
| OldSymbolTables.OldSymbolTableGenerator.constructor | lexion_lang/src/symbol_table_generator.rs:10-14 | no tables, scope 0 |
| OldSymbolTables.OldSymbolTableGenerator.Insert | lexion_lang/src/symbol_table_generator.rs:64-73 | the entry inserted at the search's position in the current table, nothing when there is none; sorted tables stay sorted |
| OldSymbolTables.OldSymbolTableGenerator.CreateScopeAsWritten | lexion_lang/src/symbol_table_generator.rs:51-62 | as written: a new current table, linked to the old scope unless it is table 0, whose entry is pushed at the end of the old scope's table |
| OldSymbolTables.OldSymbolTableGenerator.CreateScope | lexion_lang/src/symbol_table_generator.rs:51-62 | corrected: the same, with the entry inserted in name order, so sorted tables stay sorted |
| OldSymbolTables.OldSymbolTableGenerator.Lookup | lexion_lang/src/symbol_table_generator.rs:75-87 | a hit from the current scope is an entry under the identifier |
| OldSymbolTables.OldSymbolTableGenerator.DeclareVars | lexion_lang/src/symbol_table_generator.rs:24-32 | the declarators inserted one by one into the current table; sorted tables stay sorted |
| OldSymbolTables.OldSymbolTableGenerator.Process | lexion_lang/src/symbol_table_generator.rs:17-49 | a root table first, then one table per function declaration met; all tables stay sorted |
| OldSymbolTables.OldSymbolTableGenerator.Handle | lexion_lang/src/symbol_table_generator.rs:19-44 | a function declaration adds exactly one table, anything else none; tables keep their names and stay sorted |
| Types.DisplayExamples | lexion_lang/src/ast/types.rs:51-88 | one display string for each shape: tuples in parentheses joined by `, `, one `&` per reference, `fn (…) -> …`, a type definition by its name |
| Types.TypeDefsCollide | lexion_lang/src/ast/types.rs:83-85 | type definitions with one name display alike whatever they stand for, so the collection merges them |
| Types.StructAmpersands | lexion_lang/src/ast/types.rs:65-67 | a struct's display string starts with exactly one `&` per reference |
| Types.StructDisplayInjective | lexion_lang/src/ast/types.rs:65-67 | a struct's display string determines its name and reference count |
| Types.InsertedFacts | lexion_lang/src/ast/types.rs:120-129 | the index is of a type with the same display string; a known string changes nothing; a new one appends exactly that type and records its index |
| Types.SameDisplaySameIndex | lexion_lang/src/ast/types.rs:120-129 | types with equal display strings get the same index, and the second insert changes nothing |
| Types.TypeCollection.constructor | lexion_lang/src/ast/types.rs:99-104 | an empty arena and empty maps |
| Types.TypeCollection.Insert | lexion_lang/src/ast/types.rs:120-129 | the arena and string map as the pure insert says; the type map is untouched |
| Types.TypeCollection.Canonicalize | lexion_lang/src/ast/types.rs:131-137 | as written: the index itself when it has no entry; when it has one, the loop never ends |
| Types.TypeCollection.CanonicalizeChasing | lexion_lang/src/ast/types.rs:131-137 | corrected: it ends at an index without an entry, reached by following the map, or every index on the way has one |
| Types.TypeCollection.Eq | lexion_lang/src/ast/types.rs:139-143 | for indices without entries, whether they are equal; no answer when either has one |
| Visitor.ExprWalks | lexion_lang/src/ast/visitor.rs:72-77 | one walk per expression |
| Visitor.StmtWalks | lexion_lang/src/ast/visitor.rs:22-24 | one walk per statement |
| Visitor.FlattenNested | lexion_lang/src/ast/visitor.rs:22-24 | walks that each close what they open still do so one after another |
| Visitor.Bracket | lexion_lang/src/ast/visitor.rs:27-49 | a nested walk between a node's two calls closes what it opens |
| Visitor.ExprNested | lexion_lang/src/ast/visitor.rs:51-81 | each postorder call of an expression's walk closes the innermost open node, and the walk ends as it began |
| Visitor.StmtsNested | lexion_lang/src/ast/visitor.rs:38-42 | a statement list's walks close what they open |
| Visitor.StmtNested | lexion_lang/src/ast/visitor.rs:27-49 | the same nesting for a statement's walk |
| Visitor.VisitNested | lexion_lang/src/ast/visitor.rs:21-25 | the whole walk is properly nested and leaves nothing open |
| Visitor.FunctionBodyHasNoEvents | lexion_lang/src/ast/visitor.rs:31-37 | a function's body block gets no calls of its own: its statements are walked directly |
| Visitor.VarDeclHasNoChildren | lexion_lang/src/ast/visitor.rs:46 | a variable declaration's walk is its two calls; initialisers are not walked |
| Visitor.LeafExprs | lexion_lang/src/ast/visitor.rs:78 | leaf expressions get their two calls alone |
| Visitor.WalkBrackets | lexion_lang/src/ast/visitor.rs:27-81 | every walk starts with the node's preorder call and ends with its postorder call |
| Operators.AddPairsSucceedsIffNew | lexion_lang/src/type_checker/operator_table.rs:13-41 | a batch succeeds exactly when no pair was registered before and none is repeated |
| Operators.AddPairsAppends | lexion_lang/src/type_checker/operator_table.rs:36-39 | overloads are only appended: the old lists stay in front, and after success every pair is registered |
| Operators.AddPairsAppend | lexion_lang/src/type_checker/operator_table.rs:18-22 | two batches in a row are one batch, stopping at the first failure |
| Operators.Stops | lexion_lang/src/type_checker/operator_table.rs:18-22 | `all` stops at the first failing pair and nothing after it is added |
| Operators.OperatorTable.constructor | lexion_lang/src/type_checker/operator_table.rs:7-10 | no definitions |
| Operators.OperatorTable.AddDefinition | lexion_lang/src/type_checker/operator_table.rs:25-41 | false with nothing changed exactly when an equal overload is already registered; otherwise appended, with true |
| Operators.OperatorTable.AddDefinitionMultiple | lexion_lang/src/type_checker/operator_table.rs:13-23 | every operator paired with every definition in order, stopping at the first failure |
| Operators.CandidatesAreFittingOverloads | lexion_lang/src/type_checker/operator_table.rs:43-56 | exactly the registered overloads that fit the argument types, in registration order; none for an unknown operator |
| Strings.NatToString | lexion_lang/src/symbol_table.rs:304 | decimal digits without leading zeros |
| Strings.NatToStringRoundTrip | lexion_lang/src/symbol_table.rs:304 | reading the digits back gives the number |
| Strings.NatToStringInjective | lexion_lang/src/symbol_table.rs:304 | distinct counts render differently |
| Strings.Join | lexion_lang/src/ast/types.rs:58-62 | no parts give the empty string; one part gives itself |
| Strings.JoinConcat | lexion_lang/src/ast/types.rs:58-62 | joining two non-empty part lists is joining each with one separator between, so the parts appear in order separated by `sep` |
| Strings.RepeatChar | lexion_lang/src/ast/types.rs:66 | `n` copies of the character |
| Strings.LessIrreflexive | lexion_lang/src/symbol_table.rs:97 | no string sorts before itself |
| Strings.LessTransitive | lexion_lang/src/symbol_table.rs:97 | the string order is transitive |
| Strings.LessTotal | lexion_lang/src/symbol_table.rs:97 | any two strings are equal or ordered one way |
| Strings.LessAsymmetric | lexion_lang/src/symbol_table.rs:97 | the string order is asymmetric |

## Left out

- Regular expressions: each token pattern is an abstract prefix-length function, and `Regex::new` failures are not modelled.
- The `TERMINAL` regex is replaced by the quoted-literal test it implements.
- File and process I/O: `from_file`, `from_json_file`, `fs::canonicalize` (the older tokenizer takes the file name it reports as a parameter), the build script and every `main.rs`.
- Printing: the `println!` traces of `trans` and `lalr`, prettytable rendering, the parse-trace table the LR engines can fill, `Display` of grammars, `to_jsmachine_string` and derivation-tree drawing. The trace never changes the chosen action, so the engines are modelled without it.
- The procedural macros in `lexion_derive` and `compiler_derive`, which only emit code.
- Container libraries (petgraph, indextree, bimap, generational_arena): replaced by sequences and maps. Their iteration orders are not modelled.
- The standard library's `binary_search_by` loop: `NameSearch.Search` is a halving search with the same contract (a hit holds the key; a miss is the insertion point).
- Non-termination and stack depth: wherever the source may loop or recurse forever, a `fuel` bound stands in. The model says nothing about runs longer than the fuel.
- The type checkers, the diagnostics and pipeline plumbing, and miette spans. A span is modelled as an (offset, length) pair.
- `exec`'s handling of function and variable declarations in the newer symbol-table generator: only the root scope and block scopes are modelled. The AST lacks the position fields those handlers read.
- `apply_conflict_resolutions` and `ParseTableOverride` are not part of this model. The SLR(1) override is modelled as setting one cell.
- The LL(1) builder's `symbol_set`: it is computed and never used.
- Floating-point literals are kept as text.
- UTF-8 multi-byte characters: a character is one byte.
- GrammarModel.FromRules: requires `AcceptableRules`, so it does not model two panics of `from_rules`: the `unwrap` of the start symbol's FOLLOW entry when no rule has a nonterminal left side (lexion_lib/src/grammar/grammar.rs:292), and `rule.right[index]` on a nonterminal rule with an empty right side (lexion_lib/src/grammar/grammar.rs:242). The older crate's `LegacyGrammars.FromRules` models the same kind of panic as an outcome.
- TokenTypes.TokenTypesOf: requires `PatternsPresent`, so it does not model the panic of `r.right[0]` on a terminal rule with an empty right side (lexion_lib/src/grammar/grammar.rs:406).
- TokenTypes.GetTokenTypes: requires `PatternsPresent` for the same reason, so the panic at lexion_lib/src/grammar/grammar.rs:406 is not modelled.
- Collection.BuildCollection: does not state that ids follow the LIFO discovery order, nor that each popped entry adds exactly one edge. It states that every edge is correct and every needed edge exists. Stating the order would need a fixed successor order, which comes from a hash set.
- OldSymbolTables.OldSymbolTableGenerator.Process: the older generator passes a one-argument closure to a visitor whose callback takes two arguments. It is modelled as one call per node on the way down, so no scope is ever left. It uses the corrected `create_scope`, and the graph printing at the end is left out.

## Findings

| source | as written | input that shows it | evidently intended | confidence | as-written member | corrected member |
|---|---|---|---|---|---|---|
| lexion_lib/src/tokenizer/span.rs:7-12 | the merge ends where the later-starting span ends | merging 0..10 with 2..3 gives 0..3 | the least span covering both, 0..10 | not executed | Spans.MergeMayCutFirst | Spans.MergeCovering |
| lexion_lang/src/symbol_table_generator.rs:55-59 | a scope's entry is pushed at the end of the parent table, outside name order | `var b; var c; fn a`: the root holds `b`, `c`, `a`, and inside `a` the lookup of `a` finds nothing | the entry inserted at its binary-search position, as `insert` does | not executed | OldSymbolTables.PushBreaksLookup | OldSymbolTables.OldSymbolTableGenerator.CreateScope |
| lexion_lang/src/ast/types.rs:131-137 | the loop tests the key it started with on every round | a `type_map` of `{0 ↦ 1}`: `canonicalize(0)` never returns | follow the map from the index reached so far, giving 1 | not executed | Types.TypeCollection.Canonicalize | Types.TypeCollection.CanonicalizeChasing |
| src/lib/grammar/grammar.rs:293 | each FOLLOW scan step reads FIRST of `right[i + 1]`, not of `right[index]` | `A -> B ε 'x'`: FOLLOW(B) gets `$` but misses `'x'` | read the symbol the scan has reached | not executed | LegacyFollowSets.RereadMissesLaterSymbols | FollowSets.ScanAfter |
| src/lib/grammar/grammar.rs:210-222 | the FIRST scan advances while epsilon is present, with no end check | `A -> ε`: FIRST(ε) holds ε, so the scan indexes past the right side and panics | stop at the end of the right side | not executed | LegacyFirstSets.EpsilonRuleRunsOffEnd | FirstSets.FirstOf |
