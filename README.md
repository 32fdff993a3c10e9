# Semantic analysis of a small expression language, in Dafny

This project models the semantic-analysis visitor `AntlrToExpression` of a small
expression language built on an ANTLR grammar. The visitor walks a parse tree
once and builds one AST `Expression` per node. It keeps a flat symbol table:
`vars`, the declared names in order, and `varTypes`, each name's type text. It
appends non-fatal errors (a duplicate declaration, a read of an undeclared name)
to a shared `semanticErrors` list. It aborts on fatal errors by throwing:

- assignment to an undeclared name;
- a number literal assigned to `bool`;
- a boolean literal assigned to `int`;
- a number literal with a `.` assigned to `int`;
- a unary minus written directly over another unary minus over a number or a variable.

The AST node classes `Parens` and `Variable`, with their accessors and printing,
are modelled too.

Files:

- `parse_trees.dfy` (module `ParseTrees`): the input. A token (text, 1-based
  line, 0-based offset) and the `expr`, declaration and assignment contexts.
- `messages.dfy` (module `Messages`): `Result` (a value, or `Fatal(message)` for
  the thrown `Error`), `Option`, and the exact text of every message.
- `expressions.dfy` (module `Expressions`): the AST datatype, with `ToString`,
  `GetExpression` and `GetId`, and lemmas about `Parens` and `Variable` printing.
- `analysis.dfy` (module `Analysis`): every visit as a pure function over an
  explicit context (`vars`, `varTypes`, errors). Independent reference
  definitions sit beside them:
  - `Convert`: the AST a tree denotes;
  - `MinusSites`: the offending minus operators, in the order the walk finishes them;
  - `UndeclaredReads`: the reads of undeclared names, left to right.

  The lemmas connect the two, and a few scenarios are proved on concrete inputs.
- `transformer.dfy` (module `Transformer`): the class `AntlrToExpression`. Its
  three fields are updated in place. Each visit method is proved to return, and
  to leave the fields as, the matching `Analysis` function says. The class
  invariant `Valid()` says `vars` has no repeats and a name is in `vars` exactly
  when it has a `varTypes` entry.

Behaviour of the code worth noting:

- A declaration whose initializer is a float literal and whose type is `int`
  fails with "cannot assign float '...' to int". That message has no trailing
  "variable". The assignment form of the same message does end in "to int
  variable". See `Analysis.FloatIntoIntMessage`.
- Only a bare literal initializer is type-checked. `bool b = true; int y = b;`
  is accepted, and so are `int x = -3.5;` and `bool b = (1);`. See
  `Analysis.BoolVariableIntoIntAccepted` and `Analysis.DeclarationResult`.
- A declaration registers its name before the initializer is visited, and before
  the initializer's literal check runs. A declaration that then fails fatally
  has already added its name to the table.

## Model

| member | source | states |
|---|---|---|
| `ParseTrees.Token.Column` | src/expression/AntlrToExpression.java:38-40 | the reported column is the token's offset in its line plus one, so it is at least 1 |
| `Messages.NatToString` | src/expression/AntlrToExpression.java:46-47 | a `%d` field is rendered as a non-empty string of decimal digits |
| `Messages.NatToStringReadsBack` | src/expression/AntlrToExpression.java:46-47 | the rendering of a positive number has no leading zero, and reading the digits back gives the number |
| `Messages.AtReadsBack` | src/expression/AntlrToExpression.java:91-92 | the `(%d:%d)` suffix of every message starts with ` (` and ends with `)`. Its two digit runs, split by `:`, read back as the token's line and its 1-based column |
| `Messages.AlreadyDeclaredLayout` | src/expression/AntlrToExpression.java:46-47 | the duplicate-declaration message is `Error: variable '`, the identifier, `' already declared`, then the identifier token's position. The length is the sum of the parts, so nothing else is in the message |
| `Messages.NotDeclaredLayout` | src/expression/AntlrToExpression.java:91-92 | the undeclared-name message is `Error: variable '`, the identifier, `' not declared`, then the position. The read error at :209-210 uses the same text. The length is the sum of the parts, so nothing else is in the message |
| `Messages.CannotAssignNumberLayout` | src/expression/AntlrToExpression.java:59-60 | the number-into-bool message is `Error: cannot assign number '`, the value, `' to bool variable`, then the position (the same text at :102-103). The length is the sum of the parts, so nothing else is in the message |
| `Messages.CannotAssignBooleanLayout` | src/expression/AntlrToExpression.java:66-67 | the boolean-into-int message quotes `true` or `false` after `Error: cannot assign boolean '` and ends `' to int variable` before the position (the same text at :109-110). The length is the sum of the parts, so nothing else is in the message |
| `Messages.CannotAssignFloatToIntLayout` | src/expression/AntlrToExpression.java:74-75 | the declaration's float-into-int message quotes the value after `Error: cannot assign float '` and ends `' to int`, with no "variable", before the position. The length is the sum of the parts, so nothing else is in the message |
| `Messages.CannotAssignFloatToIntVariableLayout` | src/expression/AntlrToExpression.java:117-118 | the assignment's float-into-int message quotes the value after `Error: cannot assign float '` and ends `' to int variable` before the position. The length is the sum of the parts, so nothing else is in the message |
| `Messages.ConsecutiveMinusLayout` | src/expression/AntlrToExpression.java:137-138 | the consecutive-minus message is `Error: consecutive unary minus not allowed` followed by the position of the outer minus. The length is the sum of the parts, so nothing else is in the message |
| `Analysis.LiteralMismatch` | src/expression/AntlrToExpression.java:56-78 | a literal check fails if and only if: the target is `bool` and the value is a number; or the target is `int` and the value is a boolean or a non-integer number. Only a bare number or boolean literal can fail. The same checks run at :99-121 |
| `Expressions.Expression.GetExpression` | src/expression/Parens.java:10-12 | the wrapped expression is strictly smaller than its `Parens` node, never the node itself, and printing the node puts it inside one pair of parentheses |
| `Expressions.Expression.GetId` | src/expression/Variable.java:10-17 | the identifier a `Variable` returns is exactly its printed form |
| `Expressions.ParensPrintShape` | src/expression/Parens.java:15-17 | a `Parens` node prints two characters longer than its child, starts with `(`, ends with `)`, and its middle is the child's printed form |
| `Expressions.ParensConstructorKeepsChild` | src/expression/Parens.java:6-12 | `GetExpression` returns exactly the child given to the constructor, and the wrapper differs from the child |
| `Expressions.NestedParensPrint` | src/expression/Parens.java:16 | k nested `Parens` print as k opening parentheses, the inner form, and k closing ones; nesting is never flattened |
| `Expressions.ParensPrintInjective` | src/expression/Parens.java:16 | two `Parens` nodes print alike if and only if their children print alike |
| `Expressions.VariableConstructorKeepsId` | src/expression/Variable.java:6-17 | a `Variable` keeps the identifier it was built with; `GetId` and `ToString` both return it undecorated |
| `Expressions.VariablePrintInjective` | src/expression/Variable.java:15-17 | two `Variable` nodes print alike if and only if their identifiers are equal |
| `Analysis.VisitNumber` | src/expression/AntlrToExpression.java:216-222 | a number literal keeps its text and is an integer if and only if no character of the text is `.` |
| `Analysis.VisitBoolean` | src/expression/AntlrToExpression.java:153-158 | a boolean literal is true if and only if its text is exactly `true` |
| `Analysis.VisitExpr` | src/expression/AntlrToExpression.java:126-214 | visiting an expression never removes or changes a recorded error: the old error list is a prefix of the new one |
| `Analysis.VisitDeclaration` | src/expression/AntlrToExpression.java:36-81 | a declaration never removes or changes a recorded error |
| `Analysis.VisitAssignment` | src/expression/AntlrToExpression.java:83-124 | an assignment never removes or changes a recorded error |
| `Analysis.VisitExprResult` | src/expression/AntlrToExpression.java:126-199 | an expression visit is fatal if and only if the tree holds a minus written directly over a minus over a number or a variable; it then reports the first such minus, innermost and leftmost first, at its own token; otherwise it yields exactly the tree's AST, with every `Parens` kept |
| `Analysis.MinusOverLeafShape` | src/expression/AntlrToExpression.java:130-132 | the visited operand is a minus over a number or a variable if and only if the operand context is one, so a `Parens` in between exempts it |
| `Analysis.VisitExprErrors` | src/expression/AntlrToExpression.java:201-214 | a successful expression visit appends exactly one "not declared" message per read of an undeclared name, in left-to-right order; a fatal one appends a prefix of those messages |
| `Analysis.UndeclaredReadsExact` | src/expression/AntlrToExpression.java:207-212 | the reported reads are exactly the reads of names outside `vars`, in both directions |
| `Analysis.ParensPreserved` | src/expression/AntlrToExpression.java:195-199 | a parenthesized context yields a `Parens` node over the inner AST, which prints as `(` + inner + `)` |
| `Analysis.DeclarationTable` | src/expression/AntlrToExpression.java:45-54 | a fresh name is appended to `vars` and mapped to the stated type. A repeated name leaves `vars` and `varTypes` unchanged and records its "already declared" error before any error from the initializer. On success, the initializer adds exactly its undeclared reads |
| `Analysis.DeclarationKeepsTableInSync` | src/expression/AntlrToExpression.java:45-52 | a declaration keeps `vars` free of repeats and keeps a name in `vars` if and only if it has a `varTypes` entry |
| `Analysis.SelfReferenceNotReported` | src/expression/AntlrToExpression.java:45-54 | the name being declared is never reported as undeclared inside its own initializer |
| `Analysis.DeclarationResult` | src/expression/AntlrToExpression.java:54-80 | the outcome, stated on the parse tree. A consecutive minus in the initializer is fatal first. Then, with the stated type even on a redeclaration, a number literal into `bool`, a boolean literal into `int`, and a number literal containing `.` into `int` are fatal, in that order, with their messages. Anything else yields the declaration node over the initializer's AST |
| `Analysis.AssignmentResult` | src/expression/AntlrToExpression.java:90-123 | an undeclared target is fatal with "not declared" and changes nothing, so no initializer error is recorded. Otherwise the same three literal rules apply against the recorded type, with the "to int variable" wording. The table is never changed. On success, exactly the undeclared reads are appended |
| `Analysis.RedeclarationKeepsFirstType` | src/expression/AntlrToExpression.java:45-52 | after declaring a name twice, it is in `vars` once, keeps the first declared type, and the second declaration adds an "already declared" error at the second position |
| `Analysis.FloatIntoIntMessage` | src/expression/AntlrToExpression.java:70-77 | `int x = 3.5;` with `x` at line 1, offset 4 fails with exactly `Error: cannot assign float '3.5' to int (1:5)` |
| `Analysis.UndeclaredAssignmentMessage` | src/expression/AntlrToExpression.java:90-94 | `y = 1;` on an empty table fails with exactly `Error: variable 'y' not declared (1:1)` |
| `Analysis.BoolVariableIntoIntAccepted` | src/expression/AntlrToExpression.java:63-69 | `bool b = true; int y = b;` is accepted with no error, because only a bare boolean literal is checked |
| `Analysis.DirectDoubleMinusFatal` | src/expression/AntlrToExpression.java:127-140 | `int x = --x;` is fatal, reported at the outer minus |
| `Analysis.GroupedDoubleMinusAccepted` | src/expression/AntlrToExpression.java:126-144 | `int x = -(-x);` is accepted with no error, and the `Parens` node stays in the result |
| `Transformer.AntlrToExpression.constructor` | src/expression/AntlrToExpression.java:30-34 | starts with an empty symbol table and the caller's error list, with the invariant established |
| `Transformer.AntlrToExpression.VisitDeclaration` | src/expression/AntlrToExpression.java:36-81 | returns, and leaves `vars`, `varTypes` and `semanticErrors` as, `Analysis.VisitDeclaration` of the old fields. It keeps the invariant and only grows the error list |
| `Transformer.AntlrToExpression.VisitAssignment` | src/expression/AntlrToExpression.java:83-124 | returns, and leaves `semanticErrors` as, `Analysis.VisitAssignment` of the old fields. It may change only `semanticErrors` |
| `Transformer.AntlrToExpression.Visit` | src/expression/AntlrToExpression.java:54 | dispatching on an `expr` context returns, and leaves `semanticErrors` as, `Analysis.VisitExpr`. It may change only `semanticErrors`, which only grows |
| `Transformer.AntlrToExpression.VisitUnaryMinus` | src/expression/AntlrToExpression.java:126-144 | returns and records what `Analysis.VisitExpr` gives for a unary minus context |
| `Transformer.AntlrToExpression.VisitAnd` | src/expression/AntlrToExpression.java:146-151 | returns and records what `Analysis.VisitExpr` gives for an `&&` context: left operand first, and a fatal left operand stops the visit |
| `Transformer.AntlrToExpression.VisitNot` | src/expression/AntlrToExpression.java:166-170 | returns and records what `Analysis.VisitExpr` gives for a `!` context |
| `Transformer.AntlrToExpression.VisitOr` | src/expression/AntlrToExpression.java:172-177 | returns and records what `Analysis.VisitExpr` gives for an `\|\|` context |
| `Transformer.AntlrToExpression.VisitMultDivMod` | src/expression/AntlrToExpression.java:179-185 | returns and records what `Analysis.VisitExpr` gives for a `*`, `/`, `%` context, with the operator text kept |
| `Transformer.AntlrToExpression.VisitAddSub` | src/expression/AntlrToExpression.java:187-193 | returns and records what `Analysis.VisitExpr` gives for a `+`, `-` context, with the operator text kept |
| `Transformer.AntlrToExpression.VisitParens` | src/expression/AntlrToExpression.java:195-199 | returns and records what `Analysis.VisitExpr` gives for a parenthesized context |
| `Transformer.AntlrToExpression.VisitVariable` | src/expression/AntlrToExpression.java:201-214 | always returns `Variable(id)`. It appends exactly one "not declared" error when the name is not in `vars`, and nothing otherwise |

## Left out

- `visitCompareEqual` (src/expression/AntlrToExpression.java:161-164) delegates to the generated base visitor, which is not part of this model; the parse tree has no comparison context.
- The generated base visitor's `visit` dispatch is not part of this model; `Transformer.AntlrToExpression.Visit` stands in for it, matching on the kind of context.
- The grammar file is not part of this model. Declarations and assignments are taken to occur only as statements, never inside an expression, as the visitor interface's `decl` label for declarations suggests.
- `Double.parseDouble` and the `String.valueOf` formatting of the parsed value are floating-point parsing and printing. A number carries its literal text. The error messages quote that text where the source quotes the reformatted double: for example `3.50` or `007` would appear as `3.5` or `7` in the source's message. For an integer literal assigned to `bool`, the source prints `(int)` of the parsed double (src/expression/AntlrToExpression.java:58 and :101). That cast saturates, so `99999999999` would appear as `2147483647` in the source's message.
- The `toString` of the other node classes (`Number`, `Bool`, `UnaryMinus`, `Not`, `And`, `Or`, `AddSub`, `MultDivMod`, `VariableDeclaration`, `Assignment`) is not part of this model. `Expressions.Expression.ToString` gives them a stand-in rendering, and no lemma relies on its form for those variants.
- The program visitor (`AntlrToProgram`), the evaluator (`ExpressionProcessor`), the lexer, the syntax-error listener and the command-line entry point are not part of this model: they are generated code, I/O, or outside the analysis.
- Java exceptions: `throw new Error(msg)` becomes a `Fatal(msg)` result that every enclosing visit returns unchanged. Field updates made before the throw are kept, as in the source.
- `semanticErrors` is a list the caller shares with the visitor. Here it is a field that the constructor initialises from the caller's list and that the caller reads afterwards. Aliasing with other holders of that list is not modelled.
- `Transformer.AntlrToExpression.VisitAssignment` requires the class invariant. Under that invariant `varTypes.get(id)` never returns null for a declared name, so the null-pointer failure the source could otherwise hit is not modelled.
- Token lines and offsets are natural numbers, as the parser produces them; the visitor only reads them.
