/**
 * The statement records the parser hands to both rules, in visit order.
 * Lines and columns are inputs: nothing here derives them from the text.
 */
module Statements {

  /** A lexical token: its text, the line it starts on, and its start and end columns. */
  datatype Token = Token(value: string, line: int, startCol: int, endCol: int)

  /** Which visitor saw the statement. */
  datatype Kind =
    | Declaration(parentIsFor: bool)            // a VariableDeclaration; the flag: its parent is a ForStatement
    | Assignment(leftLine: int, rightLine: int) // an ExpressionStatement holding an AssignmentExpression,
                                                // with the start lines of its left and right sides
    | OtherExpression                           // an ExpressionStatement holding anything else

  /**
   * One visited statement. `parent`, `firstLine` (line of its first token) and
   * `lastLine` (start line of its last token) describe the statement itself and
   * drive grouping. The remaining fields describe the node that joins a group:
   * the declaration itself, or the assignment expression inside an expression
   * statement. `text` is that node's source text, `start`/`end` its offsets in
   * the file, `prefix` the width of its declared name or left side (end column
   * minus start column), and `tokens` its tokens in order.
   */
  datatype Stmt = Stmt(
    parent: nat,
    kind: Kind,
    firstLine: int,
    lastLine: int,
    text: string,
    start: nat,
    end: nat,
    prefix: int,
    tokens: seq<Token>)
}
