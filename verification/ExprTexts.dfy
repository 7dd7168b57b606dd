/** The filter language by example texts: spelling, precedence, letter case, and which bytes and numerals are taken. */
module ExprTexts {
  import opened Common
  import opened ExprGrammar
  import opened ExprRoundTrip
  import opened ExprEval

  // ---------------------------------------------------------------- spelling and precedence

  /** How each comparison is written. */
  function Sign(op: Kind): string
    requires IsCmpOp(op)
  {
    if op == EQ then "==" else if op == NE then "!=" else if op == GT then ">"
    else if op == GTE then ">=" else if op == LT then "<" else "<="
  }

  /** Comparisons and calls are read as they are written. */
  lemma AtomTexts(f: string, op: Kind, s: string, n: string)
    requires IsField(f) && IsCmpOp(op) && IsQuotable(s) && IsNumeral(n) && FloatParses(n)
    ensures ParseCondition(f + " " + Sign(op) + " '" + s + "'") == Some(Cmp(f, op, Str(s)))
    ensures ParseCondition(f + " " + Sign(op) + " " + n) == Some(Cmp(f, op, Num(n)))
    ensures ParseCondition(f + " " + Sign(op) + " true") == Some(Cmp(f, op, Boolean(true)))
    ensures ParseCondition(f + " " + Sign(op) + " false") == Some(Cmp(f, op, Boolean(false)))
    ensures ParseCondition("contains ( " + f + " , '" + s + "' )") == Some(Contains(f, s))
    ensures ParseCondition("startswith ( " + f + " , '" + s + "' )") == Some(StartsWith(f, s))
  {
    hide *;
    Literals(s, n);
    CmpText(f, op, Str(s));
    CmpText(f, op, Num(n));
    CmpText(f, op, Boolean(true));
    CmpText(f, op, Boolean(false));
    CallText("contains", f, s);
    CallText("startswith", f, s);
    CallsPrinted(f, s);
    RoundTrip(Contains(f, s));
    RoundTrip(StartsWith(f, s));
    Spaced(f, Sign(op), s);
  }

  lemma Literals(s: string, n: string)
    requires IsQuotable(s) && IsNumeral(n) && FloatParses(n)
    ensures Render(LiteralToken(Str(s))) == "'" + s + "'" && Render(LiteralToken(Num(n))) == n
    ensures Render(LiteralToken(Boolean(true))) == "true" && Render(LiteralToken(Boolean(false))) == "false"
    ensures PrintableLiteral(Str(s)) && PrintableLiteral(Num(n)) && forall b :: PrintableLiteral(Boolean(b))
  {
  }

  lemma CallsPrinted(f: string, s: string)
    requires IsField(f) && IsQuotable(s)
    ensures Printable(Contains(f, s)) && Print(Contains(f, s)) == Text(Call("contains", f, s))
    ensures Printable(StartsWith(f, s)) && Print(StartsWith(f, s)) == Text(Call("startswith", f, s))
  {
  }

  lemma Spaced(f: string, sign: string, s: string)
    ensures f + " " + sign + " " + ("'" + s + "'") == f + " " + sign + " '" + s + "'"
    ensures "contains ( " + f + " , " + ("'" + s + "'") + " )" == "contains ( " + f + " , '" + s + "' )"
    ensures "startswith ( " + f + " , " + ("'" + s + "'") + " )" == "startswith ( " + f + " , '" + s + "' )"
    ensures "contains" + " ( " + f == "contains ( " + f && "startswith" + " ( " + f == "startswith ( " + f
    ensures f + " " + sign + " " + "true" == f + " " + sign + " true"
    ensures f + " " + sign + " " + "false" == f + " " + sign + " false"
  {
  }

  lemma CmpText(f: string, op: Kind, v: Literal)
    requires IsField(f) && IsCmpOp(op) && PrintableLiteral(v)
    ensures ParseCondition(f + " " + Sign(op) + " " + Render(LiteralToken(v))) == Some(Cmp(f, op, v))
  {
    hide *;
    CmpPrinted(f, op, v);
    RoundTrip(Cmp(f, op, v));
  }

  lemma CmpPrinted(f: string, op: Kind, v: Literal)
    requires IsField(f) && IsCmpOp(op) && PrintableLiteral(v)
    ensures Printable(Cmp(f, op, v)) && Print(Cmp(f, op, v)) == f + " " + Sign(op) + " " + Render(LiteralToken(v))
  {
    var a, b, c := Token(Ident, f), Sym(op), LiteralToken(v);
    TextJoin([a, b], [c]);
    TextJoin([a], [b]);
    assert Body(Cmp(f, op, v)) == [a] + [b] + [c] && [a] + [b] == [a, b];
    assert Render(b) == Sign(op);
    hide LiteralToken, IsField, PrintableLiteral;
  }

  lemma CallText(name: string, f: string, s: string)
    ensures Text(Call(name, f, s)) == name + " ( " + f + " , " + ("'" + s + "'") + " )"
  {
    var t0, t1, t2, t3, t4, t5 :=
      Token(Ident, name), Sym(LParen), Token(Ident, f), Sym(Comma), Token(String, s), Sym(RParen);
    assert Call(name, f, s) == [t0] + ([t1] + ([t2] + ([t3] + ([t4] + [t5]))));
    assert Text([t0]) == name && Text([t1]) == "(" && Text([t2]) == f && Text([t3]) == ",";
    assert Text([t4]) == "'" + s + "'" && Text([t5]) == ")";
    hide Text;
    TextJoin([t4], [t5]);
    TextJoin([t3], [t4] + [t5]);
    TextJoin([t2], [t3] + ([t4] + [t5]));
    TextJoin([t1], [t2] + ([t3] + ([t4] + [t5])));
    TextJoin([t0], [t1] + ([t2] + ([t3] + ([t4] + [t5]))));
    Grouped(name, f, "'" + s + "'");
  }

  lemma Grouped(a: string, b: string, c: string)
    ensures a + " " + ("(" + " " + (b + " " + ("," + " " + (c + " " + ")")))) == a + " ( " + b + " , " + c + " )"
  {
  }

  lemma {:induction false} TextJoin(x: seq<Token>, y: seq<Token>)
    requires x != [] && y != []
    ensures Text(x + y) == Text(x) + " " + Text(y)
  {
    if |x| == 1 {
      assert (x + y)[1..] == y;
    } else {
      assert (x + y)[1..] == x[1..] + y;
      TextJoin(x[1..], y);
    }
  }

  predicate Atom(e: Expr) { Printable(e) && !e.And? && !e.Or? && !e.Not? }

  lemma Joined(x: seq<Token>, k: Kind, y: seq<Token>)
    requires x != [] && y != [] && k in {AND, OR}
    ensures Text(x + [Sym(k)] + y) == Text(x) + (if k == AND then " AND " else " OR ") + Text(y)
  {
    hide Text;
    TextJoin(x + [Sym(k)], y);
    TextJoin(x, [Sym(k)]);
    SymText(k);
    Between(Text(x), Text(y));
  }

  lemma Between(x: string, y: string)
    ensures x + " " + "AND" + " " + y == x + " AND " + y && x + " " + "OR" + " " + y == x + " OR " + y
  {
  }

  lemma SymText(k: Kind)
    requires k != String
    ensures Text([Sym(k)]) == Spelling(k)
  {
  }

  lemma NotEmpty(e: Expr)
    ensures Body(e) != []
  {
  }

  /** Operands that bind tightly enough are printed without parentheses. */
  lemma AndText(l: Expr, r: Expr)
    requires Level(l) >= 1 && Level(r) >= 2
    ensures Print(And(l, r)) == Print(l) + " AND " + Print(r)
  {
    NotEmpty(l);
    NotEmpty(r);
    assert Body(And(l, r)) == Body(l) + [Sym(AND)] + Body(r);
    hide Body, Text;
    Joined(Body(l), AND, Body(r));
  }

  lemma OrText(l: Expr, r: Expr)
    requires Level(r) >= 1
    ensures Print(Or(l, r)) == Print(l) + " OR " + Print(r)
  {
    NotEmpty(l);
    NotEmpty(r);
    assert Body(Or(l, r)) == Body(l) + [Sym(OR)] + Body(r);
    hide Body, Text;
    Joined(Body(l), OR, Body(r));
  }

  lemma NotText(x: Expr)
    requires Level(x) >= 2
    ensures Print(Not(x)) == "NOT " + Print(x)
  {
    NotEmpty(x);
    assert Body(Not(x)) == [Sym(NOT)] + Body(x);
    TextJoin([Sym(NOT)], Body(x));
    SymText(NOT);
    hide Body, Text;
    assert "NOT" + " " + Print(x) == "NOT " + Print(x);
  }

  lemma ParenBody(l: Expr, r: Expr)
    requires Level(l) == 0 && Level(r) >= 2
    ensures Body(And(l, r)) == [Sym(LParen)] + Body(l) + [Sym(RParen)] + [Sym(AND)] + Body(r)
  {
    assert Operand(l, 1) == [Sym(LParen)] + Body(l) + [Sym(RParen)];
    assert Operand(r, 2) == Body(r);
  }

  lemma ParenText(l: Expr, r: Expr)
    requires Level(l) == 0 && Level(r) >= 2
    ensures Print(And(l, r)) == "( " + Print(l) + " ) AND " + Print(r)
  {
    hide Body, Text;
    NotEmpty(l);
    NotEmpty(r);
    ParenBody(l, r);
    var x, y := Body(l), [Sym(LParen)] + Body(l) + [Sym(RParen)];
    Joined(y, AND, Body(r));
    TextJoin([Sym(LParen)] + x, [Sym(RParen)]);
    TextJoin([Sym(LParen)], x);
    SymText(LParen);
    SymText(RParen);
    Parens(Print(l), Print(r));
  }

  lemma Parens(x: string, y: string)
    ensures "(" + " " + x + " " + ")" + " AND " + y == "( " + x + " ) AND " + y
  {
  }

  lemma Levels(a: Expr, b: Expr)
    requires Atom(a) && Atom(b)
    ensures Printable(a) && Printable(b) && Level(a) == 2 && Printable(Not(a)) && Level(Not(a)) == 2
    ensures Printable(And(a, b)) && Level(And(a, b)) == 1 && Printable(Or(a, b)) && Level(Or(a, b)) == 0
    ensures Printable(And(Not(a), b))
  {
  }

  lemma Three(x: Expr, c: Expr)
    requires Printable(x) && Printable(c)
    ensures Printable(And(x, c)) && Printable(Or(x, c)) && Printable(Or(c, x))
  {
  }

  /** AND binds tighter than OR, NOT tightest, equal ones associate to the left, and parentheses override all of it. */
  lemma Precedence(a: Expr, b: Expr, c: Expr)
    requires Atom(a) && Atom(b) && Atom(c)
    ensures ParseCondition(Print(a) + " OR " + Print(b) + " AND " + Print(c)) == Some(Or(a, And(b, c)))
    ensures ParseCondition(Print(a) + " AND " + Print(b) + " OR " + Print(c)) == Some(Or(And(a, b), c))
    ensures ParseCondition(Print(a) + " AND " + Print(b) + " AND " + Print(c)) == Some(And(And(a, b), c))
    ensures ParseCondition(Print(a) + " OR " + Print(b) + " OR " + Print(c)) == Some(Or(Or(a, b), c))
    ensures ParseCondition("NOT " + Print(a) + " AND " + Print(b)) == Some(And(Not(a), b))
    ensures ParseCondition("( " + Print(a) + " OR " + Print(b) + " ) AND " + Print(c)) == Some(And(Or(a, b), c))
  {
    hide *;
    Levels(a, b);
    Levels(b, c);
    Levels(c, c);
    Three(And(b, c), a);
    Three(And(a, b), c);
    Three(Or(a, b), c);
    AndText(a, b);
    AndText(b, c);
    OrText(a, b);
    NotText(a);
    OrText(a, And(b, c));
    OrText(And(a, b), c);
    AndText(And(a, b), c);
    OrText(Or(a, b), c);
    AndText(Not(a), b);
    ParenText(Or(a, b), c);
    RoundTrip(Or(a, And(b, c)));
    RoundTrip(Or(And(a, b), c));
    RoundTrip(And(And(a, b), c));
    RoundTrip(Or(Or(a, b), c));
    RoundTrip(And(Not(a), b));
    RoundTrip(And(Or(a, b), c));
    Regroup(Print(a), Print(b), Print(c));
  }

  lemma Regroup(x: string, y: string, z: string)
    ensures x + " OR " + (y + " AND " + z) == x + " OR " + y + " AND " + z
    ensures "( " + (x + " OR " + y) + " ) AND " + z == "( " + x + " OR " + y + " ) AND " + z
  {
  }

  /** The words of the language are known by their letters, in any case. */
  lemma Keywords(w: string)
    ensures WordToken(w).kind == AND <==> Upper(w) == "AND"
    ensures WordToken(w).kind == OR <==> Upper(w) == "OR"
    ensures WordToken(w).kind == NOT <==> Upper(w) == "NOT"
    ensures WordToken(w).kind == Bool <==> Upper(w) == "TRUE" || Upper(w) == "FALSE"
    ensures WordToken(w).kind != Bool ==> WordToken(w).val == w
  {
    hide Upper;
  }

  lemma SampleWords()
    ensures WordToken("and").kind == AND && WordToken("Or").kind == OR && WordToken("nOT").kind == NOT
    ensures WordToken("TRUE") == Token(Bool, "true") && WordToken("False") == Token(Bool, "false")
  {
    assert Upper("and") == "AND" && Upper("Or") == "OR" && Upper("nOT") == "NOT";
    assert Upper("TRUE") == "TRUE" && Upper("False") == "FALSE" && Lower("TRUE") == "true" && Lower("False") == "false";
    hide Upper, Lower;
  }

  // ---------------------------------------------------------------- bytes and numerals

  /** The bytes that are digits, letters and spaces. */
  lemma ByteClasses(c: char)
    ensures IsDigit(c) <==> c in "0123456789"
    ensures c as int < 0x80 ==>
      (IsLetter(c) <==> c in "abcdefghijklmnopqrstuvwxyz" || c in "ABCDEFGHIJKLMNOPQRSTUVWXYZ")
    ensures c as int < 0x80 ==> (IsSpace(c) <==> c as int == 11 || c as int == 12 || c in " \t\n\r")
    ensures 0x80 <= c as int < 0x100 ==>
      (IsLetter(c) <==> c as int in {0xAA, 0xB5, 0xBA} || (c as int >= 0xC0 && c as int !in {0xD7, 0xF7}))
    ensures 0x80 <= c as int < 0x100 ==> (IsSpace(c) <==> c as int in {0x85, 0xA0})
  {
    Lowers(c);
    Uppers(c);
  }

  lemma Lowers(c: char)
    ensures 'a' <= c <= 'z' <==> c in "abcdefghijklmnopqrstuvwxyz"
  {
    var s := "abcdefghijklmnopqrstuvwxyz";
    assert forall i :: 0 <= i < 26 ==> s[i] == ('a' as int + i) as char;
    if 'a' <= c <= 'z' {
      assert s[c as int - 'a' as int] == c;
    }
  }

  lemma Uppers(c: char)
    ensures 'A' <= c <= 'Z' <==> c in "ABCDEFGHIJKLMNOPQRSTUVWXYZ"
  {
    var s := "ABCDEFGHIJKLMNOPQRSTUVWXYZ";
    assert forall i :: 0 <= i < 26 ==> s[i] == ('A' as int + i) as char;
    if 'A' <= c <= 'Z' {
      assert s[c as int - 'A' as int] == c;
    }
  }

  lemma {:induction false} DotsIn(a: string, b: string)
    ensures Dots(a + b) == Dots(a) + Dots(b)
  {
    if a == "" {
      assert a + b == b;
    } else {
      assert (a + b)[0] == a[0] && (a + b)[1..] == a[1..] + b;
      DotsIn(a[1..], b);
    }
  }

  lemma {:induction false} DigitsHaveNoDot(s: string)
    requires forall c :: c in s ==> c in "0123456789"
    ensures Dots(s) == 0
  {
    if s != "" {
      assert s[0] in s && forall c :: c in s[1..] ==> c in s;
      DigitsHaveNoDot(s[1..]);
    }
  }

  /** The values that round to a float: up to the midpoint between the largest one and the next power of two. */
  predicate InRange(v: real) { v < (Pow2(1024) - Pow2(970)) as real }

  /** Digits, with or without one point, are accepted when their value is in range; two points never are. */
  lemma NumeralsAccepted(a: string, b: string, c: string)
    requires forall x :: x in a + b ==> x in "0123456789"
    ensures FloatParses(a) <==> InRange(NumeralValue(a))
    ensures FloatParses(a + "." + b) <==> InRange(NumeralValue(a + "." + b))
    ensures !FloatParses(a + "." + b + "." + c)
  {
    assert forall x :: x in a ==> x in a + b;
    assert forall x :: x in b ==> x in a + b;
    DigitsHaveNoDot(a);
    DigitsHaveNoDot(b);
    assert "."[1..] == "";
    DotsIn(a, ".");
    DotsIn(a + ".", b);
    DotsIn(a + "." + b, ".");
    DotsIn(a + "." + b + ".", c);
    hide Pow2, DecimalValue, Dots;
  }
}
