/** Printing a filter expression and compiling the text gives the expression back; compiled expressions
    are exactly the printable ones. */
module ExprRoundTrip {
  import opened Common
  import opened ExprGrammar

  // ---------------------------------------------------------------- printable trees

  /** A word that lexes as one identifier token. */
  predicate IsField(s: string) {
    && s != "" && !IsDigit(s[0])
    && (forall i :: 0 <= i < |s| ==> IsIdentChar(s[i]))
    && WordToken(s).kind == Ident
  }

  predicate IsNumeral(s: string) {
    s != "" && IsDigit(s[0]) && forall i :: 0 <= i < |s| ==> IsNumberChar(s[i])
  }

  predicate IsQuotable(s: string) { forall i :: 0 <= i < |s| ==> NotQuote(s[i]) }

  predicate PrintableLiteral(v: Literal) {
    match v
    case Str(s) => IsQuotable(s)
    case Num(n) => IsNumeral(n) && FloatParses(n)
    case Boolean(_) => true
  }

  predicate Printable(e: Expr) {
    match e
    case Cmp(f, op, v) => IsField(f) && IsCmpOp(op) && PrintableLiteral(v)
    case And(l, r) => Printable(l) && Printable(r)
    case Or(l, r) => Printable(l) && Printable(r)
    case Not(x) => Printable(x)
    case Contains(f, s) => IsField(f) && IsQuotable(s)
    case StartsWith(f, s) => IsField(f) && IsQuotable(s)
  }

  // ---------------------------------------------------------------- printing

  /** Binding strength: 0 for OR, 1 for AND, 2 for NOT and the atoms. */
  function Level(e: Expr): nat { if e.Or? then 0 else if e.And? then 1 else 2 }

  function Spelling(k: Kind): string {
    match k
    case EQ => "==" case NE => "!=" case GT => ">" case GTE => ">=" case LT => "<" case LTE => "<="
    case AND => "AND" case OR => "OR" case NOT => "NOT"
    case LParen => "(" case RParen => ")" case Comma => ","
    case _ => ""
  }

  function Sym(k: Kind): Token { Token(k, Spelling(k)) }

  function LiteralToken(v: Literal): Token {
    match v
    case Str(s) => Token(String, s)
    case Num(n) => Token(Number, n)
    case Boolean(b) => Token(Bool, if b then "true" else "false")
  }

  /** The tokens of `e` where an operand of strength `need` is expected: parentheses only if `e` binds weaker. */
  function Operand(e: Expr, need: nat): seq<Token>
    decreases e, 1
  {
    if Level(e) < need then [Sym(LParen)] + Body(e) + [Sym(RParen)] else Body(e)
  }

  function Body(e: Expr): seq<Token>
    decreases e, 0
  {
    match e
    case Cmp(f, op, v) => [Token(Ident, f), Sym(op), LiteralToken(v)]
    case And(l, r) => Operand(l, 1) + [Sym(AND)] + Operand(r, 2)
    case Or(l, r) => Operand(l, 0) + [Sym(OR)] + Operand(r, 1)
    case Not(x) => [Sym(NOT)] + Operand(x, 2)
    case Contains(f, s) => Call("contains", f, s)
    case StartsWith(f, s) => Call("startswith", f, s)
  }

  function Call(name: string, field: string, arg: string): seq<Token> {
    [Token(Ident, name), Sym(LParen), Token(Ident, field), Sym(Comma), Token(String, arg), Sym(RParen)]
  }

  function Render(t: Token): string {
    if t.kind == String then "'" + t.val + "'" else t.val
  }

  /** The tokens, one space apart. */
  function Text(ts: seq<Token>): string {
    if ts == [] then "" else if |ts| == 1 then Render(ts[0]) else Render(ts[0]) + " " + Text(ts[1..])
  }

  function Print(e: Expr): string { Text(Body(e)) }

  // ---------------------------------------------------------------- parsing printed tokens

  predicate Starts(ts: seq<Token>, k: Kind) { StartsWithKind(ts, k) }

  lemma {:induction false} NotBack(e: Expr, rest: seq<Token>)
    requires Printable(e)
    ensures ParseNot(Operand(e, 2) + rest) == Done(e, rest)
    decreases e, if Level(e) < 2 then 3 else 0
  {
    match e {
      case Cmp(f, op, v) =>
        CmpBack(f, op, v, rest);
      case Not(x) =>
        NotBack(x, rest);
        Negated(Operand(x, 2), rest);
        assert Operand(e, 2) == [Sym(NOT)] + Operand(x, 2);
      case Contains(f, s) =>
        CallNames(f, s);
        CallBack("contains", f, s, rest);
      case StartsWith(f, s) =>
        CallNames(f, s);
        CallBack("startswith", f, s, rest);
      case _ =>
        OrBack(e, [Sym(RParen)] + rest);
        Parenthesised(e, Body(e), rest);
    }
  }

  lemma Negated(ts: seq<Token>, rest: seq<Token>)
    ensures ParseNot([Sym(NOT)] + ts + rest) ==
      match ParseNot(ts + rest) case Fail => Fail case Done(e, rest') => Done(Not(e), rest')
  {
    assert ([Sym(NOT)] + ts + rest)[1..] == ts + rest;
  }

  lemma Parenthesised(e: Expr, ts: seq<Token>, rest: seq<Token>)
    requires ParseOr(ts + ([Sym(RParen)] + rest)) == Done(e, [Sym(RParen)] + rest)
    ensures ParseNot([Sym(LParen)] + ts + [Sym(RParen)] + rest) == Done(e, rest)
  {
    var all := [Sym(LParen)] + ts + [Sym(RParen)] + rest;
    assert all[1..] == ts + ([Sym(RParen)] + rest);
    assert ([Sym(RParen)] + rest)[1..] == rest;
    assert ParsePrimary(all) == Done(e, rest);
  }

  lemma CallNames(f: string, s: string)
    ensures CallOf("contains", f, s) == Some(Contains(f, s))
    ensures CallOf("startswith", f, s) == Some(StartsWith(f, s))
  {
    assert Lower("contains") == "contains" && Lower("startswith") == "startswith";
    assert Lower("startswith") != "contains";
  }

  lemma CmpBack(f: string, op: Kind, v: Literal, rest: seq<Token>)
    requires IsCmpOp(op) && PrintableLiteral(v)
    ensures ParseNot([Token(Ident, f), Sym(op), LiteralToken(v)] + rest) == Done(Cmp(f, op, v), rest)
  {
    var ts := [Token(Ident, f), Sym(op), LiteralToken(v)] + rest;
    assert ts[1..] == [Sym(op), LiteralToken(v)] + rest;
    assert ts[1..][1..] == [LiteralToken(v)] + rest;
    assert ts[1..][1..][1..] == rest;
    assert ParseValue(ts[1..][1..]) == Done(v, rest);
  }

  lemma CallBack(name: string, f: string, s: string, rest: seq<Token>)
    requires CallOf(name, f, s).Some?
    ensures ParseNot(Call(name, f, s) + rest) == Done(CallOf(name, f, s).value, rest)
  {
    var args := [Sym(LParen), Token(Ident, f), Sym(Comma), Token(String, s), Sym(RParen)] + rest;
    var ts := Call(name, f, s) + rest;
    assert ts[0] == Token(Ident, name) && ts[1..] == args && ts[1] == Sym(LParen);
    ArgumentsBack(name, f, s, rest);
    assert ParsePrimary(ts) == ParseFunctionCall(name, args) by { hide ParseFunctionCall; }
  }

  lemma ArgumentsBack(name: string, f: string, s: string, rest: seq<Token>)
    requires CallOf(name, f, s).Some?
    ensures ParseFunctionCall(name, [Sym(LParen), Token(Ident, f), Sym(Comma), Token(String, s), Sym(RParen)] + rest)
      == Done(CallOf(name, f, s).value, rest)
  {
    hide CallOf;
    var t1 := ([Sym(LParen), Token(Ident, f), Sym(Comma), Token(String, s), Sym(RParen)] + rest)[1..];
    assert t1 == [Token(Ident, f), Sym(Comma), Token(String, s), Sym(RParen)] + rest;
    assert t1[1..] == [Sym(Comma), Token(String, s), Sym(RParen)] + rest;
    assert t1[1..][1..] == [Token(String, s), Sym(RParen)] + rest;
    assert t1[1..][1..][1..] == [Sym(RParen)] + rest;
    assert t1[1..][1..][1..][1..] == rest;
  }

  lemma {:induction false} AndBack(e: Expr, rest: seq<Token>)
    requires Printable(e)
    ensures ParseAnd(Operand(e, 1) + rest) == AndTail(e, rest)
    decreases e, if Level(e) < 1 then 4 else 1
  {
    if e.And? {
      var more := [Sym(AND)] + (Operand(e.right, 2) + rest);
      assert Operand(e, 1) + rest == Operand(e.left, 1) + more;
      AndBack(e.left, more);
      assert more[1..] == Operand(e.right, 2) + rest;
      NotBack(e.right, rest);
    } else {
      assert Operand(e, 1) == Operand(e, 2);
      NotBack(e, rest);
    }
  }

  lemma {:induction false} OrBack(e: Expr, rest: seq<Token>)
    requires Printable(e) && !Starts(rest, AND)
    ensures ParseOr(Operand(e, 0) + rest) == OrTail(e, rest)
    decreases e, 2
  {
    if e.Or? {
      var more := [Sym(OR)] + (Operand(e.right, 1) + rest);
      assert Operand(e, 0) + rest == Operand(e.left, 0) + more;
      OrBack(e.left, more);
      assert more[1..] == Operand(e.right, 1) + rest;
      AndBack(e.right, rest);
    } else {
      assert Operand(e, 0) == Operand(e, 1);
      AndBack(e, rest);
    }
  }

  // ---------------------------------------------------------------- lexing rendered tokens

  predicate Canonical(t: Token) {
    match t.kind
    case String => IsQuotable(t.val)
    case Number => IsNumeral(t.val)
    case Bool => t.val == "true" || t.val == "false"
    case Ident => IsField(t.val)
    case EOF => false
    case k => t.val == Spelling(k)
  }

  lemma {:induction false} ScanEnds(input: string, pos: nat, p: char -> bool, end: nat)
    requires pos <= end <= |input|
    requires forall i :: pos <= i < end ==> p(input[i])
    requires end < |input| ==> !p(input[end])
    ensures ScanWhile(input, pos, p) == end
    decreases end - pos
  {
    if pos < end {
      ScanEnds(input, pos + 1, p, end);
    }
  }

  /** At a rendered token that is followed by a space or by nothing, the lexer reads exactly that token. */
  lemma LexOne(input: string, pos: nat, t: Token, end: nat)
    requires Canonical(t) && pos < end <= |input| && input[pos..end] == Render(t)
    requires end < |input| ==> input[end] == ' '
    ensures NextToken(input, pos) == (t, end)
  {
    var r := Render(t);
    assert forall i :: pos <= i < end ==> input[i] == r[i - pos];
    match t.kind {
      case String => LexString(input, pos, t.val, end);
      case Number => ScanEnds(input, pos, IsNumberChar, end);
      case Ident => LexWord(input, pos, end, t.val);
      case Bool => LexKeyword(input, pos, t, end);
      case AND => LexKeyword(input, pos, t, end);
      case OR => LexKeyword(input, pos, t, end);
      case NOT => LexKeyword(input, pos, t, end);
      case _ => LexSymbol(input, pos, t, end);
    }
  }

  lemma LexSymbol(input: string, pos: nat, t: Token, end: nat)
    requires t.kind in {EQ, NE, GT, GTE, LT, LTE, LParen, RParen, Comma} && t == Sym(t.kind)
    requires pos < end <= |input| && input[pos..end] == t.val
    requires end < |input| ==> input[end] == ' '
    ensures NextToken(input, pos) == (t, end)
  {
    assert input[pos] == t.val[0];
    assert end == pos + |t.val| && (|t.val| == 2 ==> input[pos + 1] == t.val[1]);
  }

  lemma LexString(input: string, pos: nat, val: string, end: nat)
    requires IsQuotable(val) && pos < end <= |input| && input[pos..end] == "'" + val + "'"
    ensures NextToken(input, pos) == (Token(String, val), end)
  {
    var quoted := "'" + val + "'";
    assert forall i :: pos <= i < end ==> input[i] == quoted[i - pos];
    assert forall i :: pos + 1 <= i < end - 1 ==> input[i] == val[i - pos - 1];
    ScanEnds(input, pos + 1, NotQuote, end - 1);
    assert input[pos + 1..end - 1] == val;
  }

  lemma LexKeyword(input: string, pos: nat, t: Token, end: nat)
    requires Canonical(t) && t.kind in {AND, OR, NOT, Bool}
    requires pos < end <= |input| && input[pos..end] == t.val
    requires end < |input| ==> input[end] == ' '
    ensures NextToken(input, pos) == (t, end)
  {
    assert Upper("AND") == "AND" && Upper("OR") == "OR" && Upper("NOT") == "NOT";
    assert Upper("true") == "TRUE" && Upper("false") == "FALSE";
    assert Lower("true") == "true" && Lower("false") == "false";
    LexWord(input, pos, end, t.val);
  }

  lemma LexWord(input: string, pos: nat, end: nat, word: string)
    requires pos < end <= |input| && input[pos..end] == word
    requires !IsDigit(word[0]) && forall i :: 0 <= i < |word| ==> IsIdentChar(word[i])
    requires end < |input| ==> input[end] == ' '
    ensures NextToken(input, pos) == (WordToken(word), end)
  {
    assert forall i :: pos <= i < end ==> input[i] == word[i - pos];
    ScanEnds(input, pos, IsIdentChar, end);
  }

  lemma {:induction false} TokensOfText(input: string, pos: nat, ts: seq<Token>, end: nat)
    requires forall i :: 0 <= i < |ts| ==> Canonical(ts[i])
    requires pos <= end <= |input| && input[pos..end] == Text(ts)
    requires end < |input| ==> input[end] == ' '
    ensures Tokens(input, pos) == ts + Tokens(input, end)
    decreases |ts|
  {
    TextOfFew(ts);
    hide *;
    if |ts| == 1 {
      LexOne(input, pos, ts[0], end);
      TokensCons(input, pos, ts[0], end);
      assert ts == [ts[0]];
    } else if ts != [] {
      var stop := TextSplits(input, pos, ts, end);
      LexOne(input, pos, ts[0], stop);
      TokensCons(input, pos, ts[0], stop);
      SpaceSkipped(input, stop);
      TokensOfText(input, stop + 1, ts[1..], end);
      Regroup(ts, Tokens(input, end));
    }
  }

  lemma TextOfFew(ts: seq<Token>)
    ensures |ts| == 0 ==> Text(ts) == ""
    ensures |ts| == 1 ==> Text(ts) == Render(ts[0])
    ensures |ts| == 1 && Canonical(ts[0]) ==> Render(ts[0]) != "" && ts[0].kind != EOF
  {
  }

  lemma Regroup(ts: seq<Token>, more: seq<Token>)
    requires ts != []
    ensures [ts[0]] + (ts[1..] + more) == ts + more
  {
  }

  lemma TextSplits(input: string, pos: nat, ts: seq<Token>, end: nat) returns (stop: nat)
    requires |ts| > 1 && Canonical(ts[0]) && pos <= end <= |input| && input[pos..end] == Text(ts)
    ensures ts[0].kind != EOF
    ensures pos < stop < end && input[pos..stop] == Render(ts[0])
    ensures input[stop] == ' ' && input[stop + 1..end] == Text(ts[1..])
  {
    var word, text := Render(ts[0]), input[pos..end];
    stop := pos + |word|;
    assert text == word + " " + Text(ts[1..]);
    assert text[..|word|] == word && text[|word|] == ' ' && text[|word| + 1..] == Text(ts[1..]);
    assert input[pos..stop] == text[..|word|] && input[stop + 1..end] == text[|word| + 1..];
  }

  lemma TokensCons(input: string, pos: nat, t: Token, stop: nat)
    requires pos <= |input| && NextToken(input, pos) == (t, stop) && t.kind != EOF
    ensures Tokens(input, pos) == [t] + Tokens(input, stop)
  {
  }

  lemma SpaceSkipped(input: string, pos: nat)
    requires pos < |input| && input[pos] == ' '
    ensures Tokens(input, pos) == Tokens(input, pos + 1)
  {
    assert ScanWhile(input, pos, IsSpace) == ScanWhile(input, pos + 1, IsSpace);
  }

  lemma {:induction false} BodyCanonical(e: Expr, need: nat)
    requires Printable(e)
    ensures forall i :: 0 <= i < |Body(e)| ==> Canonical(Body(e)[i])
    ensures forall i :: 0 <= i < |Operand(e, need)| ==> Canonical(Operand(e, need)[i])
    decreases e
  {
    hide IsField, IsQuotable, IsNumeral, FloatParses;
    match e {
      case Cmp(f, op, v) =>
      case And(l, r) => BodyCanonical(l, 1); BodyCanonical(r, 2);
      case Or(l, r) => BodyCanonical(l, 0); BodyCanonical(r, 1);
      case Not(x) => BodyCanonical(x, 2);
      case Contains(f, s) => CallCanonical("contains", f, s);
      case StartsWith(f, s) => CallCanonical("startswith", f, s);
    }
  }

  lemma CallCanonical(name: string, f: string, s: string)
    requires name in {"contains", "startswith"} && IsField(f) && IsQuotable(s)
    ensures forall i :: 0 <= i < |Call(name, f, s)| ==> Canonical(Call(name, f, s)[i])
  {
    FunctionNames();
    hide IsField, IsQuotable;
  }

  lemma FunctionNames()
    ensures IsField("contains") && IsField("startswith")
  {
    assert Upper("contains") == "CONTAINS" && Upper("startswith") == "STARTSWITH";
  }

  // ---------------------------------------------------------------- the round trip

  /** Compiling the printed form of an expression, with any text after it that lexes to nothing, gives
      the expression back. */
  lemma PrintThenParse(e: Expr, tail: string)
    requires Printable(e) && (tail == "" || tail[0] == ' ')
    requires Tokens(Print(e) + tail, |Print(e)|) == []
    ensures ParseCondition(Print(e) + tail) == Some(e)
  {
    BodyCanonical(e, 0);
    TokensOfText(Print(e) + tail, 0, Body(e), |Print(e)|);
    assert Tokens(Print(e) + tail, 0) == Body(e);
    assert Operand(e, 0) + [] == Body(e);
    OrBack(e, []);
  }

  lemma RoundTrip(e: Expr)
    requires Printable(e)
    ensures ParseCondition(Print(e)) == Some(e)
  {
    assert Print(e) + "" == Print(e);
    PrintThenParse(e, "");
  }

  /** A byte that starts no token ends the input for the compiler: what follows it is never looked at. */
  lemma IllegalByteEndsInput(e: Expr, illegal: char, garbage: string)
    requires Printable(e)
    requires !IsSpace(illegal) && !IsIdentChar(illegal) && illegal !in "(),=!><'"
    ensures ParseCondition(Print(e) + " " + [illegal] + garbage) == Some(e)
  {
    var tail := " " + [illegal] + garbage;
    var input := Print(e) + tail;
    assert input == Print(e) + " " + [illegal] + garbage;
    var p := |Print(e)|;
    assert input[p] == ' ' && input[p + 1] == illegal;
    hide Print, Printable, ParseCondition;
    ScanEnds(input, p, IsSpace, p + 1);
    ScanEnds(input, p + 1, IsIdentChar, p + 1);
    PrintThenParse(e, tail);
  }

  // ---------------------------------------------------------------- the image of the compiler

  /** What the lexer guarantees about a token's text. */
  predicate Scanned(t: Token) {
    match t.kind
    case String => IsQuotable(t.val)
    case Number => IsNumeral(t.val)
    case Ident => IsField(t.val)
    case _ => true
  }

  predicate AllScanned(ts: seq<Token>) { forall i :: 0 <= i < |ts| ==> Scanned(ts[i]) }

  lemma NextScanned(input: string, pos: nat)
    requires pos <= |input|
    ensures Scanned(NextToken(input, pos).0)
  {
  }

  lemma {:induction false} TokensScanned(input: string, pos: nat)
    requires pos <= |input|
    ensures AllScanned(Tokens(input, pos))
    decreases |input| - pos
  {
    NextScanned(input, pos);
    var (t, p) := NextToken(input, pos);
    if t.kind != EOF {
      TokensScanned(input, p);
    }
  }

  ghost predicate GoodResult(r: Parsed<Expr>) { r.Done? ==> Printable(r.value) && AllScanned(r.rest) }

  lemma {:induction false} PrimaryImage(ts: seq<Token>)
    requires AllScanned(ts)
    ensures GoodResult(ParsePrimary(ts))
    decreases |ts|, 0
  {
    hide IsField, IsQuotable, IsNumeral, FloatParses;
    if ts != [] {
      if ts[0].kind == LParen {
        OrImage(ts[1..]);
      }
    }
  }

  lemma {:induction false} NotImage(ts: seq<Token>)
    requires AllScanned(ts)
    ensures GoodResult(ParseNot(ts))
    decreases |ts|, 1
  {
    if Starts(ts, NOT) {
      NotImage(ts[1..]);
    } else {
      PrimaryImage(ts);
    }
  }

  lemma {:induction false} AndTailImage(left: Expr, ts: seq<Token>)
    requires AllScanned(ts) && Printable(left)
    ensures GoodResult(AndTail(left, ts))
    decreases |ts|, 2
  {
    if Starts(ts, AND) {
      NotImage(ts[1..]);
      var r := ParseNot(ts[1..]);
      if r.Done? {
        AndTailImage(And(left, r.value), r.rest);
      }
    }
  }

  lemma {:induction false} AndImage(ts: seq<Token>)
    requires AllScanned(ts)
    ensures GoodResult(ParseAnd(ts))
    decreases |ts|, 3
  {
    NotImage(ts);
    var r := ParseNot(ts);
    if r.Done? {
      AndTailImage(r.value, r.rest);
    }
  }

  lemma {:induction false} OrTailImage(left: Expr, ts: seq<Token>)
    requires AllScanned(ts) && Printable(left)
    ensures GoodResult(OrTail(left, ts))
    decreases |ts|, 4
  {
    if Starts(ts, OR) {
      AndImage(ts[1..]);
      var r := ParseAnd(ts[1..]);
      if r.Done? {
        OrTailImage(Or(left, r.value), r.rest);
      }
    }
  }

  lemma {:induction false} OrImage(ts: seq<Token>)
    requires AllScanned(ts)
    ensures GoodResult(ParseOr(ts))
    decreases |ts|, 5
  {
    AndImage(ts);
    var r := ParseAnd(ts);
    if r.Done? {
      OrTailImage(r.value, r.rest);
    }
  }

  /** Some condition compiles to `e` exactly when `e` is printable; its printed form is then one of them. */
  lemma CompiledIffPrintable(e: Expr)
    ensures (exists condition :: ParseCondition(condition) == Some(e)) <==> Printable(e)
  {
    if condition :| ParseCondition(condition) == Some(e) {
      TokensScanned(condition, 0);
      OrImage(Tokens(condition, 0));
    }
    if Printable(e) {
      RoundTrip(e);
    }
  }
}
