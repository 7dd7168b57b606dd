/** The filter-expression language as pure functions: the tokens of a byte string and the grammar over
    token sequences. */
module ExprGrammar {
  import opened Common

  // ---------------------------------------------------------------- tokens

  datatype Kind =
    | String | Number | Bool
    | EQ | NE | GT | GTE | LT | LTE
    | AND | OR | NOT
    | LParen | RParen | Comma | Ident | EOF

  datatype Token = Token(kind: Kind, val: string)

  // Characters stand for input bytes; the classes are the Latin-1 ones of Go's unicode package.
  predicate IsSpace(c: char) {
    9 <= c as int <= 13 || c as int in {0x20, 0x85, 0xA0}
  }

  predicate IsDigit(c: char) { '0' <= c <= '9' }

  predicate IsLetter(c: char) {
    || 'a' <= c <= 'z' || 'A' <= c <= 'Z'
    || c as int in {0xAA, 0xB5, 0xBA}
    || (0xC0 <= c as int <= 0xFF && c as int != 0xD7 && c as int != 0xF7)
  }

  predicate IsIdentChar(c: char) { IsLetter(c) || IsDigit(c) || c == '_' || c == '.' }

  predicate IsNumberChar(c: char) { IsDigit(c) || c == '.' }

  predicate NotQuote(c: char) { c != '\'' }

  /** The token of a scanned word. */
  function WordToken(word: string): Token {
    var w := Upper(word);
    if w == "AND" then Token(AND, word)
    else if w == "OR" then Token(OR, word)
    else if w == "NOT" then Token(NOT, word)
    else if w == "TRUE" || w == "FALSE" then Token(Bool, Lower(word))
    else Token(Ident, word)
  }

  /** The first position from `pos` on whose byte is not in the class. */
  function ScanWhile(input: string, pos: nat, p: char -> bool): (end: nat)
    requires pos <= |input|
    ensures pos <= end <= |input|
    ensures forall i :: pos <= i < end ==> p(input[i])
    ensures end < |input| ==> !p(input[end])
    decreases |input| - pos
  {
    if pos < |input| && p(input[pos]) then ScanWhile(input, pos + 1, p) else pos
  }

  predicate Peek(input: string, pos: nat, c: char) { pos + 1 < |input| && input[pos + 1] == c }

  /** The token that starts at `p`, where no space is, and the position after it. A byte that starts no
      token reads as EOF. */
  function TokenAt(input: string, p: nat): (r: (Token, nat))
    requires p <= |input|
    ensures p <= r.1 <= |input|
    ensures r.0.kind != EOF ==> p < r.1
  {
    if p == |input| then (Token(EOF, ""), p)
    else
      var c := input[p];
      if c == '(' then (Token(LParen, "("), p + 1)
      else if c == ')' then (Token(RParen, ")"), p + 1)
      else if c == ',' then (Token(Comma, ","), p + 1)
      else if c == '=' && Peek(input, p, '=') then (Token(EQ, "=="), p + 2)
      else if c == '!' && Peek(input, p, '=') then (Token(NE, "!="), p + 2)
      else if c == '>' then if Peek(input, p, '=') then (Token(GTE, ">="), p + 2) else (Token(GT, ">"), p + 1)
      else if c == '<' then if Peek(input, p, '=') then (Token(LTE, "<="), p + 2) else (Token(LT, "<"), p + 1)
      else if c == '\'' then
        var e := ScanWhile(input, p + 1, NotQuote);
        (Token(String, input[p + 1..e]), if e < |input| then e + 1 else e)
      else if IsDigit(c) then
        var e := ScanWhile(input, p, IsNumberChar);
        (Token(Number, input[p..e]), e)
      else
        var e := ScanWhile(input, p, IsIdentChar);
        if e == p then (Token(EOF, [c]), p + 1) else (WordToken(input[p..e]), e)
  }

  /** One token from `pos`, after any spaces. */
  function NextToken(input: string, pos: nat): (r: (Token, nat))
    requires pos <= |input|
    ensures pos <= r.1 <= |input|
    ensures r.0.kind != EOF ==> pos < r.1
  {
    TokenAt(input, ScanWhile(input, pos, IsSpace))
  }

  /** The tokens the parser sees: up to, and without, the first EOF token. */
  function Tokens(input: string, pos: nat): seq<Token>
    requires pos <= |input|
    decreases |input| - pos
  {
    var (t, p) := NextToken(input, pos);
    if t.kind == EOF then [] else [t] + Tokens(input, p)
  }

  // ---------------------------------------------------------------- expressions and their grammar

  datatype Literal = Str(s: string) | Num(numeral: string) | Boolean(b: bool)

  datatype Expr =
    | Cmp(field: string, op: Kind, value: Literal)
    | And(left: Expr, right: Expr)
    | Or(left: Expr, right: Expr)
    | Not(inner: Expr)
    | Contains(field: string, substr: string)
    | StartsWith(field: string, prefix: string)

  predicate IsCmpOp(k: Kind) { k in {EQ, NE, GT, GTE, LT, LTE} }

  function Pow2(n: nat): nat { if n == 0 then 1 else 2 * Pow2(n - 1) }

  function Dots(s: string): nat {
    if s == "" then 0 else (if s[0] == '.' then 1 else 0) + Dots(s[1..])
  }

  /** The decimal value of a numeral with at most one point: digits read so far, and the weight of the next fraction
      digit. */
  function DecimalValue(s: string, acc: real, weight: real): real {
    if s == "" then acc
    else if s[0] == '.' then DecimalValue(s[1..], acc, 0.1)
    else
      var d := (s[0] as int - '0' as int) as real;
      if weight == 1.0 then DecimalValue(s[1..], 10.0 * acc + d, 1.0)
      else DecimalValue(s[1..], acc + d * weight, weight / 10.0)
  }

  /** Scanned numerals that the float conversion accepts: one point at most, and not beyond the float64 range. */
  predicate FloatParses(numeral: string) {
    Dots(numeral) <= 1 && DecimalValue(numeral, 0.0, 1.0) < (Pow2(1024) - Pow2(970)) as real
  }

  datatype Parsed<T> = Fail | Done(value: T, rest: seq<Token>)

  function ParseValue(ts: seq<Token>): (r: Parsed<Literal>)
    ensures r.Done? ==> ts != [] && r.rest == ts[1..]
  {
    if ts == [] then Fail
    else if ts[0].kind == String then Done(Str(ts[0].val), ts[1..])
    else if ts[0].kind == Number && FloatParses(ts[0].val) then Done(Num(ts[0].val), ts[1..])
    else if ts[0].kind == Bool then Done(Boolean(ts[0].val == "true"), ts[1..])
    else Fail
  }

  function ParseComparison(field: string, ts: seq<Token>): (r: Parsed<Expr>)
    ensures r.Done? ==> |r.rest| < |ts|
  {
    if ts == [] || !IsCmpOp(ts[0].kind) then Fail
    else
      match ParseValue(ts[1..])
      case Fail => Fail
      case Done(v, rest) => Done(Cmp(field, ts[0].kind, v), rest)
  }

  predicate StartsWithKind(ts: seq<Token>, kind: Kind) { ts != [] && ts[0].kind == kind }

  function CallOf(name: string, field: string, arg: string): Option<Expr> {
    if Lower(name) == "contains" then Some(Contains(field, arg))
    else if Lower(name) == "startswith" then Some(StartsWith(field, arg))
    else None
  }

  /** `ts` starts after the function name, at the opening parenthesis. */
  function ParseFunctionCall(name: string, ts: seq<Token>): (r: Parsed<Expr>)
    requires ts != []
    ensures r.Done? ==> |r.rest| < |ts|
  {
    var t1 := ts[1..];
    if !StartsWithKind(t1, Ident) then Fail else
    var t2 := t1[1..];
    if !StartsWithKind(t2, Comma) then Fail else
    var t3 := t2[1..];
    if !StartsWithKind(t3, String) then Fail else
    var t4 := t3[1..];
    if !StartsWithKind(t4, RParen) then Fail else
    match CallOf(name, t1[0].val, t3[0].val)
    case None => Fail
    case Some(e) => Done(e, t4[1..])
  }

  function ParsePrimary(ts: seq<Token>): (r: Parsed<Expr>)
    ensures r.Done? ==> |r.rest| < |ts|
    decreases |ts|, 0
  {
    if ts == [] then Fail
    else if ts[0].kind == LParen then
      match ParseOr(ts[1..])
      case Fail => Fail
      case Done(e, rest) => if rest != [] && rest[0].kind == RParen then Done(e, rest[1..]) else Fail
    else if ts[0].kind == Ident then
      if |ts| > 1 && ts[1].kind == LParen then ParseFunctionCall(ts[0].val, ts[1..])
      else ParseComparison(ts[0].val, ts[1..])
    else Fail
  }

  function ParseNot(ts: seq<Token>): (r: Parsed<Expr>)
    ensures r.Done? ==> |r.rest| < |ts|
    decreases |ts|, 1
  {
    if ts != [] && ts[0].kind == NOT then
      match ParseNot(ts[1..])
      case Fail => Fail
      case Done(e, rest) => Done(Not(e), rest)
    else ParsePrimary(ts)
  }

  /** Folds the remaining `AND operand` pairs onto `left`. */
  function AndTail(left: Expr, ts: seq<Token>): (r: Parsed<Expr>)
    ensures r.Done? ==> |r.rest| <= |ts|
    decreases |ts|, 2
  {
    if ts != [] && ts[0].kind == AND then
      match ParseNot(ts[1..])
      case Fail => Fail
      case Done(e, rest) => AndTail(And(left, e), rest)
    else Done(left, ts)
  }

  function ParseAnd(ts: seq<Token>): (r: Parsed<Expr>)
    ensures r.Done? ==> |r.rest| < |ts|
    decreases |ts|, 3
  {
    match ParseNot(ts)
    case Fail => Fail
    case Done(e, rest) => AndTail(e, rest)
  }

  function OrTail(left: Expr, ts: seq<Token>): (r: Parsed<Expr>)
    ensures r.Done? ==> |r.rest| <= |ts|
    decreases |ts|, 4
  {
    if ts != [] && ts[0].kind == OR then
      match ParseAnd(ts[1..])
      case Fail => Fail
      case Done(e, rest) => OrTail(Or(left, e), rest)
    else Done(left, ts)
  }

  function ParseOr(ts: seq<Token>): (r: Parsed<Expr>)
    ensures r.Done? ==> |r.rest| < |ts|
    decreases |ts|, 5
  {
    match ParseAnd(ts)
    case Fail => Fail
    case Done(e, rest) => OrTail(e, rest)
  }

  /** The whole condition: one expression, then EOF. */
  function ParseCondition(condition: string): Option<Expr> {
    match ParseOr(Tokens(condition, 0))
    case Fail => None
    case Done(e, rest) => if rest == [] then Some(e) else None
  }
}
