/** The parse tree the analysis walks, as the external parser produces it.
    Only what the visitor reads from each context is kept: the tokens it takes
    text and positions from, and the child contexts it visits. */
module ParseTrees {

  /** A token: its text, its 1-based line and its 0-based offset in that line. */
  datatype Token = Token(text: string, line: nat, charPositionInLine: nat) {
    /** The 1-based column every message reports. */
    function Column(): (c: nat)
      ensures c >= 1 && c - 1 == charPositionInLine
    {
      charPositionInLine + 1
    }
  }

  /** Contexts of the `expr` rule, one variant per labelled alternative the visitor handles. */
  datatype ExprTree =
    | NumberNode(num: string)                          // NUM token text
    | BooleanNode(boolText: string)                    // BOOL token text
    | VariableNode(id: Token)                          // ID token
    | UnaryMinusNode(start: Token, operand: ExprTree)  // start: the '-' token
    | NotNode(operand: ExprTree)
    | AndNode(left: ExprTree, right: ExprTree)
    | OrNode(left: ExprTree, right: ExprTree)
    | AddSubNode(left: ExprTree, op: string, right: ExprTree)
    | MultDivModNode(left: ExprTree, op: string, right: ExprTree)
    | ParensNode(inner: ExprTree)

  /** Declaration `<type> <id> = <expr>` and assignment `<id> = <expr>` contexts. */
  datatype Statement =
    | DeclarationNode(typeText: string, id: Token, init: ExprTree)
    | AssignmentNode(id: Token, rhs: ExprTree)
}
