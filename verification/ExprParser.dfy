/** The lexer and the recursive-descent parser, which advance a position and a current token in place,
    proved against the grammar. */
module ExprParser {
  import opened Common
  import opened ExprGrammar

  class Lexer {
    const input: string
    var pos: nat

    constructor (input: string)
      ensures this.input == input && pos == 0
    {
      this.input, pos := input, 0;
    }

    method SkipSpace()
      requires pos <= |input|
      modifies this
      ensures pos == ScanWhile(input, old(pos), IsSpace)
    {
      while pos < |input| && IsSpace(input[pos])
        invariant pos <= |input|
        invariant ScanWhile(input, pos, IsSpace) == ScanWhile(input, old(pos), IsSpace)
      {
        pos := pos + 1;
      }
    }

    method ScanString() returns (t: Token)
      requires pos < |input|
      modifies this
      ensures var e := ScanWhile(input, old(pos) + 1, NotQuote);
        t == Token(String, input[old(pos) + 1..e]) && pos == if e < |input| then e + 1 else e
    {
      pos := pos + 1;
      var start := pos;
      while pos < |input| && input[pos] != '\''
        invariant start <= pos <= |input|
        invariant ScanWhile(input, pos, NotQuote) == ScanWhile(input, start, NotQuote)
      {
        pos := pos + 1;
      }
      var val := input[start..pos];
      if pos < |input| {
        pos := pos + 1;
      }
      t := Token(String, val);
    }

    method ScanNumber() returns (t: Token)
      requires pos <= |input|
      modifies this
      ensures pos == ScanWhile(input, old(pos), IsNumberChar) && t == Token(Number, input[old(pos)..pos])
    {
      var start := pos;
      while pos < |input| && (IsDigit(input[pos]) || input[pos] == '.')
        invariant start <= pos <= |input|
        invariant ScanWhile(input, pos, IsNumberChar) == ScanWhile(input, start, IsNumberChar)
      {
        pos := pos + 1;
      }
      t := Token(Number, input[start..pos]);
    }

    method ScanIdent() returns (word: string)
      requires pos <= |input|
      modifies this
      ensures pos == ScanWhile(input, old(pos), IsIdentChar) && word == input[old(pos)..pos]
    {
      var start := pos;
      while pos < |input|
        invariant start <= pos <= |input|
        invariant ScanWhile(input, pos, IsIdentChar) == ScanWhile(input, start, IsIdentChar)
      {
        var ch := input[pos];
        if IsLetter(ch) || IsDigit(ch) || ch == '_' || ch == '.' {
          pos := pos + 1;
          continue;
        }
        break;
      }
      word := input[start..pos];
    }

    method Next() returns (t: Token)
      requires pos <= |input|
      modifies this
      ensures (t, pos) == NextToken(input, old(pos))
    {
      SkipSpace();
      if pos >= |input| {
        return Token(EOF, "");
      }
      match input[pos] {
        case '(' => pos := pos + 1; return Token(LParen, "(");
        case ')' => pos := pos + 1; return Token(RParen, ")");
        case ',' => pos := pos + 1; return Token(Comma, ",");
        case '=' =>
          if Peek(input, pos, '=') { pos := pos + 2; return Token(EQ, "=="); }
        case '!' =>
          if Peek(input, pos, '=') { pos := pos + 2; return Token(NE, "!="); }
        case '>' =>
          if Peek(input, pos, '=') { pos := pos + 2; return Token(GTE, ">="); }
          pos := pos + 1;
          return Token(GT, ">");
        case '<' =>
          if Peek(input, pos, '=') { pos := pos + 2; return Token(LTE, "<="); }
          pos := pos + 1;
          return Token(LT, "<");
        case '\'' =>
          t := ScanString();
          return;
        case _ =>
      }
      if IsDigit(input[pos]) {
        t := ScanNumber();
        return;
      }
      var word := ScanIdent();
      if word == "" {
        var ch := input[pos];
        pos := pos + 1;
        return Token(EOF, [ch]);
      }
      return WordToken(word);
    }
  }

  // ---------------------------------------------------------------- the parser object

  ghost predicate Answers<T>(r: Option<T>, now: seq<Token>, spec: Parsed<T>) {
    match spec
    case Fail => r.None?
    case Done(v, rest) => r == Some(v) && now == rest
  }

  class Parser {
    const lex: Lexer
    var cur: Token

    ghost predicate Valid()
      reads this, lex
    {
      lex.pos <= |lex.input|
    }

    /** What is still to be parsed: the current token and the tokens after it, up to EOF. */
    ghost function Rest(): seq<Token>
      requires Valid()
      reads this, lex
    {
      if cur.kind == EOF then [] else [cur] + Tokens(lex.input, lex.pos)
    }

    constructor (condition: string)
      ensures Valid() && fresh(lex) && lex.input == condition && lex.pos == 0
    {
      lex := new Lexer(condition);
      cur := Token(EOF, "");
    }

    /** Moves past the current token; the parser only does so on a token other than EOF. */
    method Next()
      requires Valid()
      modifies this, lex
      ensures Valid() && Rest() == Tokens(lex.input, old(lex.pos))
      ensures old(cur.kind != EOF) ==> Rest() == old(Rest())[1..]
    {
      cur := lex.Next();
    }

    /** Checks the kind of the current token and moves past it. */
    method Take(kind: Kind) returns (val: Option<string>)
      requires Valid() && kind != EOF
      modifies this, lex
      ensures Valid()
      ensures val.Some? <==> StartsWithKind(old(Rest()), kind)
      ensures val.Some? ==> val.value == old(Rest())[0].val && Rest() == old(Rest())[1..]
    {
      if cur.kind != kind {
        return None;
      }
      val := Some(cur.val);
      Next();
    }

    method ParseValue() returns (r: Option<Literal>)
      requires Valid()
      modifies this, lex
      ensures Valid() && Answers(r, Rest(), ExprGrammar.ParseValue(old(Rest())))
    {
      match cur.kind {
        case String =>
          var v := cur.val;
          Next();
          return Some(Str(v));
        case Number =>
          var v := cur.val;
          if !FloatParses(v) {
            return None;
          }
          Next();
          return Some(Num(v));
        case Bool =>
          var v := cur.val == "true";
          Next();
          return Some(Boolean(v));
        case _ =>
          return None;
      }
    }

    method ParseComparison(field: string) returns (r: Option<Expr>)
      requires Valid()
      modifies this, lex
      ensures Valid() && Answers(r, Rest(), ExprGrammar.ParseComparison(field, old(Rest())))
    {
      var op := cur.kind;
      if !IsCmpOp(op) {
        return None;
      }
      Next();
      var val := ParseValue();
      if val.None? {
        return None;
      }
      return Some(Cmp(field, op, val.value));
    }

    method ParseFunctionCall(name: string) returns (r: Option<Expr>)
      requires Valid() && cur.kind == LParen
      modifies this, lex
      ensures Valid() && Answers(r, Rest(), ExprGrammar.ParseFunctionCall(name, old(Rest())))
    {
      Next();
      var field := Take(Ident);
      if field.None? {
        return None;
      }
      var comma := Take(Comma);
      if comma.None? {
        return None;
      }
      var arg := Take(String);
      if arg.None? {
        return None;
      }
      var close := Take(RParen);
      if close.None? {
        return None;
      }
      return CallOf(name, field.value, arg.value);
    }

    method ParsePrimary() returns (r: Option<Expr>)
      requires Valid()
      modifies this, lex
      ensures Valid() && Answers(r, Rest(), ExprGrammar.ParsePrimary(old(Rest())))
      decreases |Rest()|, 0
    {
      match cur.kind {
        case LParen =>
          Next();
          r := ParseOr();
          if r.None? {
            return;
          }
          if cur.kind != RParen {
            return None;
          }
          Next();
        case Ident =>
          var name := cur.val;
          Next();
          if cur.kind == LParen {
            r := ParseFunctionCall(name);
          } else {
            r := ParseComparison(name);
          }
        case _ =>
          return None;
      }
    }

    method ParseNot() returns (r: Option<Expr>)
      requires Valid()
      modifies this, lex
      ensures Valid() && Answers(r, Rest(), ExprGrammar.ParseNot(old(Rest())))
      decreases |Rest()|, 1
    {
      if cur.kind == NOT {
        Next();
        var inner := ParseNot();
        if inner.None? {
          return None;
        }
        return Some(Not(inner.value));
      }
      r := ParsePrimary();
    }

    method ParseAnd() returns (r: Option<Expr>)
      requires Valid()
      modifies this, lex
      ensures Valid() && Answers(r, Rest(), ExprGrammar.ParseAnd(old(Rest())))
      decreases |Rest()|, 3
    {
      ghost var before := Rest();
      r := ParseNot();
      if r.None? {
        return;
      }
      while cur.kind == AND
        invariant Valid() && r.Some? && |Rest()| < |before|
        invariant ExprGrammar.ParseAnd(before) == AndTail(r.value, Rest())
        decreases |Rest()|
      {
        Next();
        var right := ParseNot();
        if right.None? {
          return None;
        }
        r := Some(And(r.value, right.value));
      }
    }

    method ParseOr() returns (r: Option<Expr>)
      requires Valid()
      modifies this, lex
      ensures Valid() && Answers(r, Rest(), ExprGrammar.ParseOr(old(Rest())))
      decreases |Rest()|, 5
    {
      ghost var before := Rest();
      r := ParseAnd();
      if r.None? {
        return;
      }
      while cur.kind == OR
        invariant Valid() && r.Some? && |Rest()| < |before|
        invariant ExprGrammar.ParseOr(before) == OrTail(r.value, Rest())
        decreases |Rest()|
      {
        Next();
        var right := ParseAnd();
        if right.None? {
          return None;
        }
        r := Some(Or(r.value, right.value));
      }
    }
  }

  /** Compiles a condition. */
  method ParseExpr(condition: string) returns (r: Option<Expr>)
    ensures r == ParseCondition(condition)
  {
    var p := new Parser(condition);
    p.Next();
    r := p.ParseOr();
    if r.Some? && p.cur.kind != EOF {
      r := None;
    }
  }
}
