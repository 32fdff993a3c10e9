/** The semantic-analysis pass as pure functions over an explicit context: the
    symbol table (`vars` in declaration order and `varTypes`, name to type text)
    and the accumulated non-fatal errors. Each function gives what the
    corresponding visit returns and what state it leaves; the class in module
    Transformer is proved against them.

    Next to them stand reference definitions that do not walk the tree the way
    the visitor does (the AST a tree denotes, the offending unary minus operators,
    the undeclared reads), and lemmas that tie the two together. */
module Analysis {
  import opened ParseTrees
  import opened Messages
  import opened Expressions

  /** Outcome of visiting an expression: the result and the error list afterwards. */
  datatype Visited = Visited(result: Result<Expression>, errors: seq<string>)

  /** The visitor's fields. */
  datatype Ctx = Ctx(vars: seq<string>, varTypes: map<string, string>, errors: seq<string>)

  /** Outcome of visiting a declaration or an assignment: the result and the new fields. */
  datatype Stepped = Stepped(result: Result<Expression>, ctx: Ctx)

  /** A name is in `vars` exactly when it has a type in `varTypes`. */
  ghost predicate TableInSync(c: Ctx) {
    forall x :: x in c.vars <==> x in c.varTypes
  }

  ghost predicate NoDuplicates(s: seq<string>) {
    forall i, j :: 0 <= i < j < |s| ==> s[i] != s[j]
  }

  // ---------------------------------------------------------------------------
  // Literals

  /** A number literal is an integer exactly when its text has no '.'. */
  function VisitNumber(text: string): (e: Expression)
    ensures e.Number? && e.text == text
    ensures e.isInt <==> forall i :: 0 <= i < |text| ==> text[i] != '.'
  {
    Number(text, '.' !in text)
  }

  /** A boolean literal is true exactly when its text is "true". */
  function VisitBoolean(text: string): (e: Expression)
    ensures e.Bool? && (e.value <==> text == "true")
  {
    Bool(text == "true")
  }

  /** The shape that a unary minus may not be applied to directly. */
  predicate IsMinusOverLeaf(e: Expression) {
    e.UnaryMinus? && (e.expr.Number? || e.expr.Variable?)
  }

  // ---------------------------------------------------------------------------
  // Expressions

  /** Visiting an expression under the declared names `vars`: children are visited
      left to right, a fatal result stops the walk, and each undeclared read appends
      one message. The error list only grows. */
  function VisitExpr(t: ExprTree, vars: seq<string>, errors: seq<string>): (r: Visited)
    ensures errors <= r.errors
    decreases t
  {
    match t
    case NumberNode(text) => Visited(Ok(VisitNumber(text)), errors)
    case BooleanNode(text) => Visited(Ok(VisitBoolean(text)), errors)
    case VariableNode(id) =>
      var errors' := if id.text in vars then errors else errors + [NotDeclared(id)];
      Visited(Ok(Variable(id.text)), errors')
    case UnaryMinusNode(start, operand) =>
      var v := VisitExpr(operand, vars, errors);
      if v.result.Fatal? then v
      else if IsMinusOverLeaf(v.result.value) then Visited(Fatal(ConsecutiveMinus(start)), v.errors)
      else Visited(Ok(UnaryMinus(v.result.value)), v.errors)
    case NotNode(operand) =>
      var v := VisitExpr(operand, vars, errors);
      if v.result.Fatal? then v else Visited(Ok(Not(v.result.value)), v.errors)
    case ParensNode(inner) =>
      var v := VisitExpr(inner, vars, errors);
      if v.result.Fatal? then v else Visited(Ok(Parens(v.result.value)), v.errors)
    case AndNode(left, right) =>
      var vl := VisitExpr(left, vars, errors);
      if vl.result.Fatal? then vl else
      var vr := VisitExpr(right, vars, vl.errors);
      if vr.result.Fatal? then vr else Visited(Ok(And(vl.result.value, vr.result.value)), vr.errors)
    case OrNode(left, right) =>
      var vl := VisitExpr(left, vars, errors);
      if vl.result.Fatal? then vl else
      var vr := VisitExpr(right, vars, vl.errors);
      if vr.result.Fatal? then vr else Visited(Ok(Or(vl.result.value, vr.result.value)), vr.errors)
    case AddSubNode(left, op, right) =>
      var vl := VisitExpr(left, vars, errors);
      if vl.result.Fatal? then vl else
      var vr := VisitExpr(right, vars, vl.errors);
      if vr.result.Fatal? then vr else Visited(Ok(AddSub(vl.result.value, vr.result.value, op)), vr.errors)
    case MultDivModNode(left, op, right) =>
      var vl := VisitExpr(left, vars, errors);
      if vl.result.Fatal? then vl else
      var vr := VisitExpr(right, vars, vl.errors);
      if vr.result.Fatal? then vr else Visited(Ok(MultDivMod(vl.result.value, vr.result.value, op)), vr.errors)
  }

  // ---------------------------------------------------------------------------
  // Declarations and assignments

  datatype Site = InDeclaration | InAssignment

  /** The three fatal literal checks, in the order the visitor applies them. Only a
      bare literal is checked: any other initializer passes. */
  function LiteralMismatch(typeText: string, e: Expression, id: Token, site: Site): (r: Option<string>)
    ensures r.Some? <==> (typeText == "bool" && e.Number?) || (typeText == "int" && (e.Bool? || (e.Number? && !e.isInt)))
    ensures r.Some? ==> e.Number? || e.Bool?
  {
    if typeText == "bool" && e.Number? then Some(CannotAssignNumber(e.text, id))
    else if typeText == "int" && e.Bool? then Some(CannotAssignBoolean(e.value, id))
    else if e.Number? && typeText == "int" && !e.isInt then
      Some(if site == InDeclaration then CannotAssignFloatToInt(e.text, id)
           else CannotAssignFloatToIntVariable(e.text, id))
    else None
  }

  /** Visiting `<typeText> <id> = <init>`: a repeated name records one error and
      leaves the table alone, a fresh one is registered before the initializer is
      visited; the literal checks use the stated type. */
  function VisitDeclaration(typeText: string, id: Token, init: ExprTree, c: Ctx): (r: Stepped)
    ensures c.errors <= r.ctx.errors
  {
    var c1 :=
      if id.text in c.vars then c.(errors := c.errors + [AlreadyDeclared(id)])
      else c.(vars := c.vars + [id.text], varTypes := c.varTypes[id.text := typeText]);
    var v := VisitExpr(init, c1.vars, c1.errors);
    var c2 := c1.(errors := v.errors);
    if v.result.Fatal? then Stepped(v.result, c2)
    else match LiteralMismatch(typeText, v.result.value, id, InDeclaration)
      case Some(m) => Stepped(Fatal(m), c2)
      case None => Stepped(Ok(VariableDeclaration(id.text, typeText, v.result.value)), c2)
  }

  /** Visiting `<id> = <rhs>`: an undeclared name aborts before the right-hand side is
      visited; otherwise the literal checks use the recorded type and the table is
      left alone. */
  function VisitAssignment(id: Token, rhs: ExprTree, c: Ctx): (r: Stepped)
    requires TableInSync(c)
    ensures c.errors <= r.ctx.errors
  {
    if id.text !in c.vars then Stepped(Fatal(NotDeclared(id)), c)
    else
      var v := VisitExpr(rhs, c.vars, c.errors);
      var c2 := c.(errors := v.errors);
      if v.result.Fatal? then Stepped(v.result, c2)
      else match LiteralMismatch(c.varTypes[id.text], v.result.value, id, InAssignment)
        case Some(m) => Stepped(Fatal(m), c2)
        case None => Stepped(Ok(Assignment(id.text, v.result.value)), c2)
  }

  // ---------------------------------------------------------------------------
  // Reference definitions

  /** The AST a tree denotes when no check fires: one node per context, grouping kept. */
  function Convert(t: ExprTree): Expression {
    match t
    case NumberNode(text) => VisitNumber(text)
    case BooleanNode(text) => VisitBoolean(text)
    case VariableNode(id) => Variable(id.text)
    case UnaryMinusNode(_, operand) => UnaryMinus(Convert(operand))
    case NotNode(operand) => Not(Convert(operand))
    case ParensNode(inner) => Parens(Convert(inner))
    case AndNode(l, r) => And(Convert(l), Convert(r))
    case OrNode(l, r) => Or(Convert(l), Convert(r))
    case AddSubNode(l, op, r) => AddSub(Convert(l), Convert(r), op)
    case MultDivModNode(l, op, r) => MultDivMod(Convert(l), Convert(r), op)
  }

  /** A unary minus written directly over another unary minus over a number or a variable. */
  predicate IsConsecutiveMinus(t: ExprTree) {
    t.UnaryMinusNode? && t.operand.UnaryMinusNode?
    && (t.operand.operand.NumberNode? || t.operand.operand.VariableNode?)
  }

  /** The start tokens of every consecutive unary minus in the tree, innermost and
      leftmost first (the order in which the walk finishes the nodes). */
  function MinusSites(t: ExprTree): seq<Token> {
    match t
    case NumberNode(_) => []
    case BooleanNode(_) => []
    case VariableNode(_) => []
    case UnaryMinusNode(start, operand) => MinusSites(operand) + (if IsConsecutiveMinus(t) then [start] else [])
    case NotNode(operand) => MinusSites(operand)
    case ParensNode(inner) => MinusSites(inner)
    case AndNode(l, r) => MinusSites(l) + MinusSites(r)
    case OrNode(l, r) => MinusSites(l) + MinusSites(r)
    case AddSubNode(l, _, r) => MinusSites(l) + MinusSites(r)
    case MultDivModNode(l, _, r) => MinusSites(l) + MinusSites(r)
  }

  /** The identifier tokens read in the tree whose names are not in `vars`, left to right. */
  function UndeclaredReads(t: ExprTree, vars: seq<string>): seq<Token> {
    match t
    case NumberNode(_) => []
    case BooleanNode(_) => []
    case VariableNode(id) => if id.text in vars then [] else [id]
    case UnaryMinusNode(_, operand) => UndeclaredReads(operand, vars)
    case NotNode(operand) => UndeclaredReads(operand, vars)
    case ParensNode(inner) => UndeclaredReads(inner, vars)
    case AndNode(l, r) => UndeclaredReads(l, vars) + UndeclaredReads(r, vars)
    case OrNode(l, r) => UndeclaredReads(l, vars) + UndeclaredReads(r, vars)
    case AddSubNode(l, _, r) => UndeclaredReads(l, vars) + UndeclaredReads(r, vars)
    case MultDivModNode(l, _, r) => UndeclaredReads(l, vars) + UndeclaredReads(r, vars)
  }

  /** One "not declared" message per token. */
  function ReadErrors(sites: seq<Token>): (msgs: seq<string>)
    ensures |msgs| == |sites|
    ensures forall i :: 0 <= i < |sites| ==> msgs[i] == NotDeclared(sites[i])
  {
    if sites == [] then [] else [NotDeclared(sites[0])] + ReadErrors(sites[1..])
  }

  lemma ReadErrorsAppend(a: seq<Token>, b: seq<Token>)
    ensures ReadErrors(a + b) == ReadErrors(a) + ReadErrors(b)
  {
  }

  // ---------------------------------------------------------------------------
  // Lemmas: expressions

  predicate IsBinary(t: ExprTree) {
    t.AndNode? || t.OrNode? || t.AddSubNode? || t.MultDivModNode?
  }

  /** What a visit's result must be for the tree `t`: fatal exactly when the tree holds
      a consecutive unary minus, reporting the first one; otherwise the tree's AST. */
  ghost predicate ResultMeans(t: ExprTree, r: Result<Expression>) {
    && (r.Ok? <==> MinusSites(t) == [])
    && (r.Ok? ==> r.value == Convert(t))
    && (r.Fatal? ==> MinusSites(t) != [] && r.message == ConsecutiveMinus(MinusSites(t)[0]))
  }

  /** Visiting an expression is fatal exactly when the tree holds a consecutive unary
      minus, and then reports the first one; otherwise it yields the tree's AST, so
      no node is dropped, added or regrouped. */
  lemma {:induction false} VisitExprResult(t: ExprTree, vars: seq<string>, errors: seq<string>)
    ensures ResultMeans(t, VisitExpr(t, vars, errors).result)
    decreases t, 1
  {
    match t
    case NumberNode(_) =>
    case BooleanNode(_) =>
    case VariableNode(_) =>
    case UnaryMinusNode(_, operand) =>
      VisitExprResult(operand, vars, errors);
      MinusOverLeafShape(operand);
    case NotNode(operand) =>
      VisitExprResult(operand, vars, errors);
    case ParensNode(inner) =>
      VisitExprResult(inner, vars, errors);
    case AndNode(_, _) =>
      BinaryResult(t, vars, errors);
    case OrNode(_, _) =>
      BinaryResult(t, vars, errors);
    case AddSubNode(_, _, _) =>
      BinaryResult(t, vars, errors);
    case MultDivModNode(_, _, _) =>
      BinaryResult(t, vars, errors);
  }

  /** The denoted AST is a minus over a number or a variable exactly when the tree is. */
  lemma MinusOverLeafShape(t: ExprTree)
    ensures IsMinusOverLeaf(Convert(t)) <==> t.UnaryMinusNode? && (t.operand.NumberNode? || t.operand.VariableNode?)
  {
  }

  /** The two operand visits of a binary context, as VisitExprResult needs them. */
  lemma {:induction false} BinaryResult(t: ExprTree, vars: seq<string>, errors: seq<string>)
    requires IsBinary(t)
    ensures var vl := VisitExpr(t.left, vars, errors);
      && ResultMeans(t.left, vl.result)
      && (vl.result.Ok? ==> ResultMeans(t.right, VisitExpr(t.right, vars, vl.errors).result))
    decreases t, 0
  {
    VisitExprResult(t.left, vars, errors);
    var vl := VisitExpr(t.left, vars, errors);
    if vl.result.Ok? {
      VisitExprResult(t.right, vars, vl.errors);
    }
  }

  /** The errors an expression visit records: one "not declared" message per read of
      an undeclared name, left to right. A fatal visit stops early, so what it has
      recorded is a prefix of those messages. */
  lemma {:induction false} VisitExprErrors(t: ExprTree, vars: seq<string>, errors: seq<string>)
    ensures var r := VisitExpr(t, vars, errors);
      && (r.result.Ok? ==> r.errors == errors + ReadErrors(UndeclaredReads(t, vars)))
      && r.errors <= errors + ReadErrors(UndeclaredReads(t, vars))
    decreases t, 1
  {
    match t
    case NumberNode(_) =>
    case BooleanNode(_) =>
    case VariableNode(_) =>
    case UnaryMinusNode(_, operand) =>
      VisitExprErrors(operand, vars, errors);
    case NotNode(operand) =>
      VisitExprErrors(operand, vars, errors);
    case ParensNode(inner) =>
      VisitExprErrors(inner, vars, errors);
    case AndNode(_, _) =>
      BinaryErrors(t, vars, errors);
    case OrNode(_, _) =>
      BinaryErrors(t, vars, errors);
    case AddSubNode(_, _, _) =>
      BinaryErrors(t, vars, errors);
    case MultDivModNode(_, _, _) =>
      BinaryErrors(t, vars, errors);
  }

  lemma {:induction false} BinaryErrors(t: ExprTree, vars: seq<string>, errors: seq<string>)
    requires IsBinary(t)
    ensures var vl := VisitExpr(t.left, vars, errors);
      var all := errors + ReadErrors(UndeclaredReads(t.left, vars) + UndeclaredReads(t.right, vars));
      && vl.errors <= all
      && (vl.result.Ok? ==>
            var vr := VisitExpr(t.right, vars, vl.errors);
            && vr.errors <= all
            && (vr.result.Ok? ==> vr.errors == all))
    decreases t, 0
  {
    var ul, ur := UndeclaredReads(t.left, vars), UndeclaredReads(t.right, vars);
    ReadErrorsAppend(ul, ur);
    assert errors + ReadErrors(ul + ur) == (errors + ReadErrors(ul)) + ReadErrors(ur);
    VisitExprErrors(t.left, vars, errors);
    var vl := VisitExpr(t.left, vars, errors);
    if vl.result.Ok? {
      VisitExprErrors(t.right, vars, vl.errors);
    }
  }

  /** Whether the tree reads the variable `name` anywhere. */
  predicate Reads(t: ExprTree, name: string) {
    match t
    case NumberNode(_) => false
    case BooleanNode(_) => false
    case VariableNode(id) => id.text == name
    case UnaryMinusNode(_, operand) => Reads(operand, name)
    case NotNode(operand) => Reads(operand, name)
    case ParensNode(inner) => Reads(inner, name)
    case AndNode(l, r) => Reads(l, name) || Reads(r, name)
    case OrNode(l, r) => Reads(l, name) || Reads(r, name)
    case AddSubNode(l, _, r) => Reads(l, name) || Reads(r, name)
    case MultDivModNode(l, _, r) => Reads(l, name) || Reads(r, name)
  }

  /** Whether some token of `s` has the text `name`. */
  predicate Names(s: seq<Token>, name: string) {
    exists i :: 0 <= i < |s| && s[i].text == name
  }

  lemma NamesAppend(a: seq<Token>, b: seq<Token>, name: string)
    ensures Names(a + b, name) <==> Names(a, name) || Names(b, name)
  {
    if Names(a + b, name) {
      var i :| 0 <= i < |a + b| && (a + b)[i].text == name;
      if i >= |a| { assert b[i - |a|].text == name; }
    }
    if Names(a, name) {
      var i :| 0 <= i < |a| && a[i].text == name;
      assert (a + b)[i].text == name;
    }
    if Names(b, name) {
      var i :| 0 <= i < |b| && b[i].text == name;
      assert (a + b)[|a| + i].text == name;
    }
  }

  /** The undeclared reads are exactly the reads of names outside `vars`: every
      reported read names a variable that is not declared, and every read of such a
      variable is reported. */
  lemma {:induction false} UndeclaredReadsExact(t: ExprTree, vars: seq<string>, name: string)
    ensures Names(UndeclaredReads(t, vars), name) <==> name !in vars && Reads(t, name)
    decreases t
  {
    match t
    case NumberNode(_) =>
    case BooleanNode(_) =>
    case VariableNode(id) =>
      if name !in vars && Reads(t, name) {
        assert UndeclaredReads(t, vars)[0].text == name;
      }
    case UnaryMinusNode(_, operand) => UndeclaredReadsExact(operand, vars, name);
    case NotNode(operand) => UndeclaredReadsExact(operand, vars, name);
    case ParensNode(inner) => UndeclaredReadsExact(inner, vars, name);
    case AndNode(l, r) =>
      UndeclaredReadsExact(l, vars, name); UndeclaredReadsExact(r, vars, name);
      NamesAppend(UndeclaredReads(l, vars), UndeclaredReads(r, vars), name);
    case OrNode(l, r) =>
      UndeclaredReadsExact(l, vars, name); UndeclaredReadsExact(r, vars, name);
      NamesAppend(UndeclaredReads(l, vars), UndeclaredReads(r, vars), name);
    case AddSubNode(l, _, r) =>
      UndeclaredReadsExact(l, vars, name); UndeclaredReadsExact(r, vars, name);
      NamesAppend(UndeclaredReads(l, vars), UndeclaredReads(r, vars), name);
    case MultDivModNode(l, _, r) =>
      UndeclaredReadsExact(l, vars, name); UndeclaredReadsExact(r, vars, name);
      NamesAppend(UndeclaredReads(l, vars), UndeclaredReads(r, vars), name);
  }

  /** Explicit grouping survives the walk: a parenthesized tree yields a `Parens` node
      that prints as its inner form inside one pair of parentheses. */
  lemma ParensPreserved(inner: ExprTree, vars: seq<string>, errors: seq<string>)
    requires MinusSites(inner) == []
    ensures var r := VisitExpr(ParensNode(inner), vars, errors);
      r.result == Ok(Parens(Convert(inner)))
      && r.result.value.ToString() == "(" + Convert(inner).ToString() + ")"
  {
    VisitExprResult(ParensNode(inner), vars, errors);
  }

  // ---------------------------------------------------------------------------
  // Lemmas: declarations and assignments

  /** The symbol table a declaration leaves, whatever its outcome: a fresh name is
      appended to `vars` and mapped to the stated type; a repeated name leaves both
      alone (the first type stays) and its error comes before any the initializer
      records. When the declaration succeeds, the initializer has added exactly its
      undeclared reads, judged with the name already registered. */
  lemma DeclarationTable(typeText: string, id: Token, init: ExprTree, c: Ctx)
    ensures var r := VisitDeclaration(typeText, id, init, c);
      && (id.text in c.vars ==>
            && r.ctx.vars == c.vars && r.ctx.varTypes == c.varTypes
            && c.errors + [AlreadyDeclared(id)] <= r.ctx.errors
            && (r.result.Ok? ==>
                  r.ctx.errors == c.errors + [AlreadyDeclared(id)] + ReadErrors(UndeclaredReads(init, c.vars))))
      && (id.text !in c.vars ==>
            && r.ctx.vars == c.vars + [id.text] && r.ctx.varTypes == c.varTypes[id.text := typeText]
            && (r.result.Ok? ==> r.ctx.errors == c.errors + ReadErrors(UndeclaredReads(init, c.vars + [id.text]))))
  {
    if id.text in c.vars {
      VisitExprErrors(init, c.vars, c.errors + [AlreadyDeclared(id)]);
    } else {
      VisitExprErrors(init, c.vars + [id.text], c.errors);
    }
  }

  /** A declaration keeps `vars` free of repeats and in step with `varTypes`. */
  lemma DeclarationKeepsTableInSync(typeText: string, id: Token, init: ExprTree, c: Ctx)
    requires TableInSync(c) && NoDuplicates(c.vars)
    ensures var r := VisitDeclaration(typeText, id, init, c);
      TableInSync(r.ctx) && NoDuplicates(r.ctx.vars)
  {
  }

  /** The name being declared counts as declared inside its own initializer: no read
      of it is reported there. */
  lemma SelfReferenceNotReported(typeText: string, id: Token, init: ExprTree, c: Ctx)
    requires id.text !in c.vars
    ensures var r := VisitDeclaration(typeText, id, init, c);
      !Names(UndeclaredReads(init, r.ctx.vars), id.text)
      && (r.result.Ok? ==> r.ctx.errors == c.errors + ReadErrors(UndeclaredReads(init, r.ctx.vars)))
  {
    DeclarationTable(typeText, id, init, c);
    UndeclaredReadsExact(init, c.vars + [id.text], id.text);
  }

  /** The outcome of a declaration, stated on the parse tree: a consecutive unary
      minus in the initializer is fatal first; then, with the stated type (even on a
      redeclaration), a number literal into bool, a boolean literal into int and a
      number literal with a '.' into int are fatal, in that order; anything else,
      including a variable or a compound initializer, is accepted as its AST. */
  lemma DeclarationResult(typeText: string, id: Token, init: ExprTree, c: Ctx)
    ensures VisitDeclaration(typeText, id, init, c).result ==
      if MinusSites(init) != [] then Fatal(ConsecutiveMinus(MinusSites(init)[0]))
      else if typeText == "bool" && init.NumberNode? then Fatal(CannotAssignNumber(init.num, id))
      else if typeText == "int" && init.BooleanNode? then Fatal(CannotAssignBoolean(init.boolText == "true", id))
      else if typeText == "int" && init.NumberNode? && '.' in init.num then Fatal(CannotAssignFloatToInt(init.num, id))
      else Ok(VariableDeclaration(id.text, typeText, Convert(init)))
  {
    if id.text in c.vars {
      VisitExprResult(init, c.vars, c.errors + [AlreadyDeclared(id)]);
    } else {
      VisitExprResult(init, c.vars + [id.text], c.errors);
    }
  }

  /** The outcome of an assignment: an undeclared target aborts with nothing changed
      and no error recorded for the right-hand side; a declared one is checked against
      its recorded type by the same rules as a declaration (with the "to int variable"
      wording) and never changes the table. */
  lemma AssignmentResult(id: Token, rhs: ExprTree, c: Ctx)
    requires TableInSync(c)
    ensures var r := VisitAssignment(id, rhs, c);
      && r.ctx.vars == c.vars && r.ctx.varTypes == c.varTypes
      && (id.text !in c.vars ==> r == Stepped(Fatal(NotDeclared(id)), c))
      && (id.text in c.vars ==>
            var ty := c.varTypes[id.text];
            && r.result ==
                 (if MinusSites(rhs) != [] then Fatal(ConsecutiveMinus(MinusSites(rhs)[0]))
                  else if ty == "bool" && rhs.NumberNode? then Fatal(CannotAssignNumber(rhs.num, id))
                  else if ty == "int" && rhs.BooleanNode? then Fatal(CannotAssignBoolean(rhs.boolText == "true", id))
                  else if ty == "int" && rhs.NumberNode? && '.' in rhs.num then Fatal(CannotAssignFloatToIntVariable(rhs.num, id))
                  else Ok(Assignment(id.text, Convert(rhs))))
            && (r.result.Ok? ==> r.ctx.errors == c.errors + ReadErrors(UndeclaredReads(rhs, c.vars))))
  {
    if id.text in c.vars {
      VisitExprResult(rhs, c.vars, c.errors);
      VisitExprErrors(rhs, c.vars, c.errors);
    }
  }

  /** Declaring a name twice: the second declaration reports the second position,
      and the type recorded by the first stays in force. */
  lemma RedeclarationKeepsFirstType(type1: string, id1: Token, init1: ExprTree,
                                    type2: string, id2: Token, init2: ExprTree, c: Ctx)
    requires id1.text !in c.vars && id2.text == id1.text
    ensures var r1 := VisitDeclaration(type1, id1, init1, c);
      var r2 := VisitDeclaration(type2, id2, init2, r1.ctx);
      && r2.ctx.vars == c.vars + [id1.text]
      && id1.text in r2.ctx.varTypes && r2.ctx.varTypes[id1.text] == type1
      && r1.ctx.errors + [AlreadyDeclared(id2)] <= r2.ctx.errors
  {
  }

  // ---------------------------------------------------------------------------
  // Scenarios

  /** `int x = 3.5;` with `x` at line 1, offset 4. */
  lemma FloatIntoIntMessage(c: Ctx)
    ensures VisitDeclaration("int", Token("x", 1, 4), NumberNode("3.5"), c).result
         == Fatal("Error: cannot assign float '3.5' to int (1:5)")
  {
  }

  /** `y = 1;` as the only statement: the undeclared target is reported at (1:1). */
  lemma UndeclaredAssignmentMessage()
    ensures VisitAssignment(Token("y", 1, 0), NumberNode("1"), Ctx([], map[], [])).result
         == Fatal("Error: variable 'y' not declared (1:1)")
  {
  }

  /** `bool b = true; int y = b;` is accepted: only literal initializers are checked. */
  lemma BoolVariableIntoIntAccepted(b: Token, y: Token, ref: Token, c: Ctx)
    requires b.text !in c.vars && y.text !in c.vars && y.text != b.text && ref.text == b.text
    ensures var r1 := VisitDeclaration("bool", b, BooleanNode("true"), c);
      var r2 := VisitDeclaration("int", y, VariableNode(ref), r1.ctx);
      r1.result.Ok? && r2.result == Ok(VariableDeclaration(y.text, "int", Variable(b.text)))
      && r2.ctx.errors == c.errors
  {
  }

  /** `int x = --x;` is fatal, reported at the outer minus. */
  lemma DirectDoubleMinusFatal(x: Token, ref: Token, m1: Token, m2: Token, c: Ctx)
    requires ref.text == x.text
    ensures VisitDeclaration("int", x, UnaryMinusNode(m1, UnaryMinusNode(m2, VariableNode(ref))), c).result
         == Fatal(ConsecutiveMinus(m1))
  {
    var inner := UnaryMinusNode(m2, VariableNode(ref));
    var direct := UnaryMinusNode(m1, inner);
    DeclarationResult("int", x, direct, c);
    assert MinusSites(inner) == [];
    assert MinusSites(direct) == [m1];
  }

  /** `int x = -(-x);` is accepted with no error, and prints its grouping back. */
  lemma GroupedDoubleMinusAccepted(x: Token, ref: Token, m1: Token, m2: Token, c: Ctx)
    requires x.text !in c.vars && ref.text == x.text
    ensures var r := VisitDeclaration("int", x, UnaryMinusNode(m1, ParensNode(UnaryMinusNode(m2, VariableNode(ref)))), c);
      r.result == Ok(VariableDeclaration(x.text, "int", UnaryMinus(Parens(UnaryMinus(Variable(x.text))))))
      && r.ctx.errors == c.errors
  {
    var inner := UnaryMinusNode(m2, VariableNode(ref));
    var grouped := UnaryMinusNode(m1, ParensNode(inner));
    DeclarationResult("int", x, grouped, c);
    DeclarationTable("int", x, grouped, c);
    assert MinusSites(inner) == [];
    assert MinusSites(ParensNode(inner)) == [];
    assert MinusSites(grouped) == [];
    var vars := c.vars + [x.text];
    assert UndeclaredReads(VariableNode(ref), vars) == [];
    assert UndeclaredReads(inner, vars) == [];
    assert UndeclaredReads(ParensNode(inner), vars) == [];
    assert UndeclaredReads(grouped, vars) == [];
    assert Convert(inner) == UnaryMinus(Variable(x.text));
    assert Convert(ParensNode(inner)) == Parens(UnaryMinus(Variable(x.text)));
  }
}
