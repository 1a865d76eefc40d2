/** The tokens and syntax errors `lexion_lib`'s tokenizer hands to the parser. */
module Tokens {
  import opened Location

  /** A token instance: its kind (a terminal's name, or `$`), its text and where it starts. */
  datatype Token = Token(kind: string, value: string, loc: SourceLocation)

  datatype SyntaxError = SyntaxError(range: SourceRange, message: string)

  /** What one call of the tokenizer's `next` gives. */
  datatype Lexed = Lexed(token: Token) | LexFailed(error: SyntaxError)
}
