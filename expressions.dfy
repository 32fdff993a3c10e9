/** The AST the analysis produces. Every node class of the program is one variant;
    nodes are immutable values. `Parens` and `Variable` carry their printing and
    accessors; the printing of the other variants is a stand-in (see README). */
module Expressions {

  datatype Expression =
    | Number(text: string, isInt: bool)
    | Bool(value: bool)
    | Variable(id: string)
    | UnaryMinus(expr: Expression)
    | Not(expr: Expression)
    | And(left: Expression, right: Expression)
    | Or(left: Expression, right: Expression)
    | AddSub(left: Expression, right: Expression, op: string)
    | MultDivMod(left: Expression, right: Expression, op: string)
    | Parens(expr: Expression)
    | VariableDeclaration(id: string, typeText: string, expr: Expression)
    | Assignment(id: string, expr: Expression)
  {
    /** The printed form of a node. */
    function ToString(): string {
      match this
      case Number(text, _) => text
      case Bool(value) => if value then "true" else "false"
      case Variable(id) => id
      case UnaryMinus(e) => "-" + e.ToString()
      case Not(e) => "!" + e.ToString()
      case And(l, r) => l.ToString() + " && " + r.ToString()
      case Or(l, r) => l.ToString() + " || " + r.ToString()
      case AddSub(l, r, op) => l.ToString() + " " + op + " " + r.ToString()
      case MultDivMod(l, r, op) => l.ToString() + " " + op + " " + r.ToString()
      case Parens(e) => "(" + e.ToString() + ")"
      case VariableDeclaration(id, t, e) => t + " " + id + " = " + e.ToString()
      case Assignment(id, e) => id + " = " + e.ToString()
    }

    /** The wrapped expression of a `Parens` node: a strictly smaller node, never the wrapper itself. */
    function GetExpression(): (e: Expression)
      requires Parens?
      ensures e < this && e != this
      ensures "(" + e.ToString() + ")" == ToString()
    {
      expr
    }

    /** The identifier of a `Variable` node; it is also the node's printed form. */
    function GetId(): (id: string)
      requires Variable?
      ensures id == ToString()
    {
      this.id
    }
  }

  /** The printed form of a parenthesized node is its inner form inside one pair of
      parentheses, so the inner form can be read back from it. */
  lemma ParensPrintShape(e: Expression)
    ensures var s := Parens(e).ToString();
      |s| == |e.ToString()| + 2 && s[0] == '(' && s[|s| - 1] == ')' && s[1..|s| - 1] == e.ToString()
  {
  }

  /** Constructing `Parens` keeps exactly the given child: wrapping and unwrapping are inverse. */
  lemma ParensConstructorKeepsChild(e: Expression)
    ensures Parens(e).GetExpression() == e
    ensures Parens(e) != e
  {
  }

  /** Nesting is never flattened: k wrappers print k pairs of parentheses. */
  function Wrapped(e: Expression, k: nat): Expression {
    if k == 0 then e else Parens(Wrapped(e, k - 1))
  }

  function Repeat(c: char, k: nat): (s: string)
    ensures |s| == k && forall i :: 0 <= i < k ==> s[i] == c
  {
    if k == 0 then [] else [c] + Repeat(c, k - 1)
  }

  lemma {:induction false} NestedParensPrint(e: Expression, k: nat)
    ensures Wrapped(e, k).ToString() == Repeat('(', k) + e.ToString() + Repeat(')', k)
  {
    if k > 0 {
      NestedParensPrint(e, k - 1);
      var inner := e.ToString();
      calc {
        Wrapped(e, k).ToString();
        "(" + Wrapped(e, k - 1).ToString() + ")";
        "(" + (Repeat('(', k - 1) + inner + Repeat(')', k - 1)) + ")";
        { assert Repeat('(', k) == "(" + Repeat('(', k - 1);
          assert Repeat(')', k) == Repeat(')', k - 1) + ")"; }
        Repeat('(', k) + inner + Repeat(')', k);
      }
    }
  }

  /** Two parenthesized nodes print alike exactly when their children print alike. */
  lemma ParensPrintInjective(a: Expression, b: Expression)
    ensures Parens(a).ToString() == Parens(b).ToString() <==> a.ToString() == b.ToString()
  {
    var sa, sb := Parens(a).ToString(), Parens(b).ToString();
    if sa == sb {
      ParensPrintShape(a);
      ParensPrintShape(b);
    }
  }

  /** A `Variable` prints as its identifier with no decoration, and its accessor agrees. */
  lemma VariableConstructorKeepsId(id: string)
    ensures Variable(id).GetId() == id
    ensures Variable(id).ToString() == id
  {
  }

  /** Distinct identifiers give distinct printed variables. */
  lemma VariablePrintInjective(a: string, b: string)
    ensures Variable(a).ToString() == Variable(b).ToString() <==> a == b
  {
  }
}
