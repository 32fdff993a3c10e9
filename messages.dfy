/** Outcome types and the text of every semantic-error message the analysis produces.
    Each message ends with the position of the offending token as "(line:column)",
    where the column is the token's 0-based offset in its line plus one. */
module Messages {
  import opened ParseTrees

  datatype Option<+T> = None | Some(value: T)

  /** A visit either yields a value or aborts the whole analysis with one message
      (the source throws an `Error` for the latter). */
  datatype Result<+T> = Ok(value: T) | Fatal(message: string)

  function Digit(d: nat): (c: char)
    requires d < 10
    ensures '0' <= c <= '9' && DigitValue(c) == d
  {
    ('0' as int + d) as char
  }

  /** The value of a decimal digit character (0 for any other character). */
  function DigitValue(c: char): nat {
    if '0' <= c <= '9' then (c as int - '0' as int) as nat else 0
  }

  /** Reads a string of decimal digits back as a number, most significant digit first. */
  function DecimalValue(s: string): nat {
    if s == [] then 0 else DecimalValue(s[..|s| - 1]) * 10 + DigitValue(s[|s| - 1])
  }

  predicate AllDigits(s: string) {
    forall i :: 0 <= i < |s| ==> '0' <= s[i] <= '9'
  }

  /** Decimal rendering of a natural number, as `%d` formats it. */
  function NatToString(n: nat): (s: string)
    ensures |s| >= 1 && AllDigits(s)
  {
    if n < 10 then [Digit(n)] else NatToString(n / 10) + [Digit(n % 10)]
  }

  /** The rendering has no leading zero, and reading it back gives the number. */
  lemma {:induction false} NatToStringReadsBack(n: nat)
    ensures var s := NatToString(n);
      (n > 0 ==> s[0] != '0') && DecimalValue(s) == n
  {
    if n >= 10 {
      NatToStringReadsBack(n / 10);
      var prefix := NatToString(n / 10);
      var s := NatToString(n);
      assert s[..|s| - 1] == prefix;
    }
  }

  /** The " (line:column)" suffix of every message. */
  function At(tok: Token): string {
    " (" + NatToString(tok.line) + ":" + NatToString(tok.Column()) + ")"
  }

  /** The position suffix reads back: both numbers are written in decimal, split by
      the only ':' of the suffix, and give the token's line and 1-based column. */
  lemma AtReadsBack(tok: Token)
    ensures var s := At(tok);
      |s| >= 6 && s[..2] == " (" && s[|s| - 1] == ')'
      && (exists k :: 2 < k < |s| - 2 && s[k] == ':'
            && AllDigits(s[2..k]) && DecimalValue(s[2..k]) == tok.line
            && AllDigits(s[k + 1..|s| - 1]) && DecimalValue(s[k + 1..|s| - 1]) == tok.Column())
  {
    var line, column := NatToString(tok.line), NatToString(tok.Column());
    var s := At(tok);
    var k := 2 + |line|;
    NatToStringReadsBack(tok.line);
    NatToStringReadsBack(tok.Column());
    assert s[2..k] == line && s[k] == ':' && s[k + 1..|s| - 1] == column;
  }

  /** `m` begins with `lead`, quotes `value` right after it, and ends with the
      position of `tok`. */
  ghost predicate Quotes(m: string, lead: string, value: string, tok: Token) {
    && |lead| + |value| + |At(tok)| <= |m|
    && m[..|lead|] == lead
    && m[|lead|..|lead| + |value|] == value
    && m[|m| - |At(tok)|..] == At(tok)
  }

  /** `lead + value + rest + At(tok)` has the shape `Quotes` describes, `rest`
      sits just before the position, and nothing else lies between them. */
  lemma QuotesOf(lead: string, value: string, rest: string, tok: Token)
    ensures var m := lead + value + rest + At(tok);
      Quotes(m, lead, value, tok) && m[|m| - |At(tok)| - |rest|..|m| - |At(tok)|] == rest
      && |m| == |lead| + |value| + |rest| + |At(tok)|
  {
    var m := lead + value + rest + At(tok);
    assert m == lead + (value + (rest + At(tok)));
  }

  function AlreadyDeclared(id: Token): string {
    "Error: variable '" + id.text + "' already declared" + At(id)
  }

  function NotDeclared(id: Token): string {
    "Error: variable '" + id.text + "' not declared" + At(id)
  }

  /** `value` is the literal's source text (see README: the source formats the parsed double). */
  function CannotAssignNumber(value: string, id: Token): string {
    "Error: cannot assign number '" + value + "' to bool variable" + At(id)
  }

  function CannotAssignBoolean(value: bool, id: Token): string {
    "Error: cannot assign boolean '" + (if value then "true" else "false") + "' to int variable" + At(id)
  }

  /** The declaration form of the float message: it ends in "to int", without "variable". */
  function CannotAssignFloatToInt(value: string, id: Token): string {
    "Error: cannot assign float '" + value + "' to int" + At(id)
  }

  /** The assignment form of the float message. */
  function CannotAssignFloatToIntVariable(value: string, id: Token): string {
    "Error: cannot assign float '" + value + "' to int variable" + At(id)
  }

  /** Reported at the first token of the outer unary minus. */
  function ConsecutiveMinus(start: Token): string {
    "Error: consecutive unary minus not allowed" + At(start)
  }

  // ---------------------------------------------------------------------------
  // The layout of each message: its fixed lead, the quoted name or value, the
  // fixed text after it, and the position of the reported token, with nothing
  // in between: the length is the sum of the parts.

  lemma AlreadyDeclaredLayout(id: Token)
    ensures var m := AlreadyDeclared(id);
      Quotes(m, "Error: variable '", id.text, id)
      && m[|m| - |At(id)| - 18..|m| - |At(id)|] == "' already declared"
      && |m| == |"Error: variable '"| + |id.text| + 18 + |At(id)|
  {
    QuotesOf("Error: variable '", id.text, "' already declared", id);
  }

  lemma NotDeclaredLayout(id: Token)
    ensures var m := NotDeclared(id);
      Quotes(m, "Error: variable '", id.text, id)
      && m[|m| - |At(id)| - 14..|m| - |At(id)|] == "' not declared"
      && |m| == |"Error: variable '"| + |id.text| + 14 + |At(id)|
  {
    QuotesOf("Error: variable '", id.text, "' not declared", id);
  }

  lemma CannotAssignNumberLayout(value: string, id: Token)
    ensures var m := CannotAssignNumber(value, id);
      Quotes(m, "Error: cannot assign number '", value, id)
      && m[|m| - |At(id)| - 18..|m| - |At(id)|] == "' to bool variable"
      && |m| == |"Error: cannot assign number '"| + |value| + 18 + |At(id)|
  {
    QuotesOf("Error: cannot assign number '", value, "' to bool variable", id);
  }

  lemma CannotAssignBooleanLayout(value: bool, id: Token)
    ensures var m := CannotAssignBoolean(value, id);
      Quotes(m, "Error: cannot assign boolean '", if value then "true" else "false", id)
      && m[|m| - |At(id)| - 17..|m| - |At(id)|] == "' to int variable"
      && |m| == |"Error: cannot assign boolean '"| + |(if value then "true" else "false")| + 17 + |At(id)|
  {
    QuotesOf("Error: cannot assign boolean '", if value then "true" else "false", "' to int variable", id);
  }

  lemma CannotAssignFloatToIntLayout(value: string, id: Token)
    ensures var m := CannotAssignFloatToInt(value, id);
      Quotes(m, "Error: cannot assign float '", value, id)
      && m[|m| - |At(id)| - 8..|m| - |At(id)|] == "' to int"
      && |m| == |"Error: cannot assign float '"| + |value| + 8 + |At(id)|
  {
    QuotesOf("Error: cannot assign float '", value, "' to int", id);
  }

  lemma CannotAssignFloatToIntVariableLayout(value: string, id: Token)
    ensures var m := CannotAssignFloatToIntVariable(value, id);
      Quotes(m, "Error: cannot assign float '", value, id)
      && m[|m| - |At(id)| - 17..|m| - |At(id)|] == "' to int variable"
      && |m| == |"Error: cannot assign float '"| + |value| + 17 + |At(id)|
  {
    QuotesOf("Error: cannot assign float '", value, "' to int variable", id);
  }

  lemma ConsecutiveMinusLayout(start: Token)
    ensures var m := ConsecutiveMinus(start);
      Quotes(m, "Error: consecutive unary minus not allowed", "", start)
      && |m| == |"Error: consecutive unary minus not allowed"| + |At(start)|
  {
    QuotesOf("Error: consecutive unary minus not allowed", "", "", start);
  }
}
