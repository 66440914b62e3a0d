/** The token payload a grammar syntax-tree node carries. */
module Tokens {
  import opened Wrappers

  /** Token type of the end-of-input sentinel. */
  const EOF: int := -1

  /** Token type reported by a node that has no token. */
  const INVALID_TOKEN_TYPE: int := 0

  /** An opaque handle on the character stream a token was read from. */
  type StreamId = nat

  /**
   * A token: its type, its text and its provenance (source stream,
   * line, column and index in the token sequence).
   */
  datatype Token = Token(
    ttype: int,
    text: string,
    line: int,
    charPositionInLine: int,
    tokenIndex: int,
    inputStream: Option<StreamId>)

  /**
   * A token made from a type and a text only; its position fields keep the
   * token class's defaults (no line, no column, no index, no stream).
   */
  function NewToken(ttype: int, text: string): (t: Token)
    ensures t.ttype == ttype && t.text == text && t.inputStream == None
  {
    Token(ttype, text, 0, -1, -1, None)
  }

  /** `t` with its type and text replaced and its provenance taken from `from`. */
  function WithProvenance(ttype: int, text: string, from: Token): (t: Token)
    ensures t.ttype == ttype && t.text == text
    ensures t.line == from.line && t.charPositionInLine == from.charPositionInLine
    ensures t.tokenIndex == from.tokenIndex && t.inputStream == from.inputStream
  {
    NewToken(ttype, text).(line := from.line, charPositionInLine := from.charPositionInLine,
                           tokenIndex := from.tokenIndex, inputStream := from.inputStream)
  }
}
