/** The visitor object itself. Its three fields are updated in place as the walk
    proceeds; each visit method is proved to return, and to leave the fields as,
    the corresponding function of module Analysis says. A fatal error is returned
    as `Fatal` and passed straight up by every enclosing visit, as the source's
    thrown `Error` is. */
module Transformer {
  import opened ParseTrees
  import opened Messages
  import opened Expressions
  import opened Analysis

  class AntlrToExpression {
    /** Declared names, in declaration order. */
    var vars: seq<string>
    /** Declared name to the type text it was first declared with. */
    var varTypes: map<string, string>
    /** Non-fatal errors; the caller supplies the initial list and reads it afterwards. */
    var semanticErrors: seq<string>

    ghost function State(): Ctx
      reads this
    {
      Ctx(vars, varTypes, semanticErrors)
    }

    /** The symbol table invariant: no name twice, and a name is in `vars` exactly
        when it has a type. */
    ghost predicate Valid()
      reads this
    {
      TableInSync(State()) && NoDuplicates(vars)
    }

    constructor (semanticErrors: seq<string>)
      ensures Valid()
      ensures vars == [] && varTypes == map[] && this.semanticErrors == semanticErrors
    {
      vars := [];
      varTypes := map[];
      this.semanticErrors := semanticErrors;
    }

    /** `<type> <id> = <expr>` */
    method VisitDeclaration(ctx: Statement) returns (r: Result<Expression>)
      requires ctx.DeclarationNode? && Valid()
      modifies this
      ensures Valid() && old(semanticErrors) <= semanticErrors
      ensures Stepped(r, State()) == Analysis.VisitDeclaration(ctx.typeText, ctx.id, ctx.init, old(State()))
    {
      var id := ctx.id.text;
      var typeText := ctx.typeText;
      if id in vars {
        semanticErrors := semanticErrors + [AlreadyDeclared(ctx.id)];
      } else {
        vars := vars + [id];
        varTypes := varTypes[id := typeText];
      }

      var visited := Visit(ctx.init);
      if visited.Fatal? {
        return visited;
      }
      var expr := visited.value;

      if typeText == "bool" && expr.Number? {
        return Fatal(CannotAssignNumber(expr.text, ctx.id));
      }
      if typeText == "int" && expr.Bool? {
        return Fatal(CannotAssignBoolean(expr.value, ctx.id));
      }
      if expr.Number? {
        if typeText == "int" && !expr.isInt {
          return Fatal(CannotAssignFloatToInt(expr.text, ctx.id));
        }
      }
      r := Ok(VariableDeclaration(id, typeText, expr));
    }

    /** `<id> = <expr>` */
    method VisitAssignment(ctx: Statement) returns (r: Result<Expression>)
      requires ctx.AssignmentNode? && Valid()
      modifies this`semanticErrors
      ensures Valid() && old(semanticErrors) <= semanticErrors
      ensures Stepped(r, State()) == Analysis.VisitAssignment(ctx.id, ctx.rhs, old(State()))
    {
      var id := ctx.id.text;
      if id !in vars {
        return Fatal(NotDeclared(ctx.id));
      }

      var visited := Visit(ctx.rhs);
      if visited.Fatal? {
        return visited;
      }
      var expr := visited.value;
      var typeText := varTypes[id];

      if typeText == "bool" && expr.Number? {
        return Fatal(CannotAssignNumber(expr.text, ctx.id));
      }
      if typeText == "int" && expr.Bool? {
        return Fatal(CannotAssignBoolean(expr.value, ctx.id));
      }
      if expr.Number? {
        if typeText == "int" && !expr.isInt {
          return Fatal(CannotAssignFloatToIntVariable(expr.text, ctx.id));
        }
      }
      r := Ok(Assignment(id, expr));
    }

    /** Dispatch on the kind of an `expr` context, as the generated base visitor's
        `visit` does. */
    method Visit(t: ExprTree) returns (r: Result<Expression>)
      modifies this`semanticErrors
      ensures old(semanticErrors) <= semanticErrors
      ensures Visited(r, semanticErrors) == VisitExpr(t, vars, old(semanticErrors))
      decreases t, 1
    {
      match t
      case NumberNode(text) => r := Ok(Analysis.VisitNumber(text));
      case BooleanNode(text) => r := Ok(Analysis.VisitBoolean(text));
      case VariableNode(_) => r := VisitVariable(t);
      case UnaryMinusNode(_, _) => r := VisitUnaryMinus(t);
      case NotNode(_) => r := VisitNot(t);
      case ParensNode(_) => r := VisitParens(t);
      case AndNode(_, _) => r := VisitAnd(t);
      case OrNode(_, _) => r := VisitOr(t);
      case AddSubNode(_, _, _) => r := VisitAddSub(t);
      case MultDivModNode(_, _, _) => r := VisitMultDivMod(t);
    }

    /** `-<expr>`: a minus written directly over a minus over a number or a variable is
        fatal, reported at this minus. */
    method VisitUnaryMinus(ctx: ExprTree) returns (r: Result<Expression>)
      requires ctx.UnaryMinusNode?
      modifies this`semanticErrors
      ensures Visited(r, semanticErrors) == VisitExpr(ctx, vars, old(semanticErrors))
      decreases ctx, 0
    {
      var visited := Visit(ctx.operand);
      if visited.Fatal? {
        return visited;
      }
      var expr := visited.value;
      if expr.UnaryMinus? {
        if expr.expr.Number? || expr.expr.Variable? {
          return Fatal(ConsecutiveMinus(ctx.start));
        }
      }
      r := Ok(UnaryMinus(expr));
    }

    method VisitAnd(ctx: ExprTree) returns (r: Result<Expression>)
      requires ctx.AndNode?
      modifies this`semanticErrors
      ensures Visited(r, semanticErrors) == VisitExpr(ctx, vars, old(semanticErrors))
      decreases ctx, 0
    {
      var left := Visit(ctx.left);
      if left.Fatal? { return left; }
      var right := Visit(ctx.right);
      if right.Fatal? { return right; }
      r := Ok(And(left.value, right.value));
    }

    method VisitNot(ctx: ExprTree) returns (r: Result<Expression>)
      requires ctx.NotNode?
      modifies this`semanticErrors
      ensures Visited(r, semanticErrors) == VisitExpr(ctx, vars, old(semanticErrors))
      decreases ctx, 0
    {
      var visited := Visit(ctx.operand);
      if visited.Fatal? { return visited; }
      r := Ok(Not(visited.value));
    }

    method VisitOr(ctx: ExprTree) returns (r: Result<Expression>)
      requires ctx.OrNode?
      modifies this`semanticErrors
      ensures Visited(r, semanticErrors) == VisitExpr(ctx, vars, old(semanticErrors))
      decreases ctx, 0
    {
      var left := Visit(ctx.left);
      if left.Fatal? { return left; }
      var right := Visit(ctx.right);
      if right.Fatal? { return right; }
      r := Ok(Or(left.value, right.value));
    }

    method VisitMultDivMod(ctx: ExprTree) returns (r: Result<Expression>)
      requires ctx.MultDivModNode?
      modifies this`semanticErrors
      ensures Visited(r, semanticErrors) == VisitExpr(ctx, vars, old(semanticErrors))
      decreases ctx, 0
    {
      var left := Visit(ctx.left);
      if left.Fatal? { return left; }
      var right := Visit(ctx.right);
      if right.Fatal? { return right; }
      r := Ok(MultDivMod(left.value, right.value, ctx.op));
    }

    method VisitAddSub(ctx: ExprTree) returns (r: Result<Expression>)
      requires ctx.AddSubNode?
      modifies this`semanticErrors
      ensures Visited(r, semanticErrors) == VisitExpr(ctx, vars, old(semanticErrors))
      decreases ctx, 0
    {
      var left := Visit(ctx.left);
      if left.Fatal? { return left; }
      var right := Visit(ctx.right);
      if right.Fatal? { return right; }
      r := Ok(AddSub(left.value, right.value, ctx.op));
    }

    method VisitParens(ctx: ExprTree) returns (r: Result<Expression>)
      requires ctx.ParensNode?
      modifies this`semanticErrors
      ensures Visited(r, semanticErrors) == VisitExpr(ctx, vars, old(semanticErrors))
      decreases ctx, 0
    {
      var visited := Visit(ctx.inner);
      if visited.Fatal? { return visited; }
      r := Ok(Parens(visited.value));
    }

    /** A read of a name: an undeclared one appends one error, and the node is
        produced either way. */
    method VisitVariable(ctx: ExprTree) returns (r: Result<Expression>)
      requires ctx.VariableNode?
      modifies this`semanticErrors
      ensures r == Ok(Variable(ctx.id.text))
      ensures semanticErrors == old(semanticErrors) + (if ctx.id.text in vars then [] else [NotDeclared(ctx.id)])
      ensures Visited(r, semanticErrors) == VisitExpr(ctx, vars, old(semanticErrors))
      decreases ctx, 0
    {
      var id := ctx.id.text;
      if id !in vars {
        semanticErrors := semanticErrors + [NotDeclared(ctx.id)];
      }
      r := Ok(Variable(id));
    }
  }
}
