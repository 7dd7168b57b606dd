/** What a filter expression says about a record, and where negation and comparison part ways. */
module ExprEval {
  import opened ExprGrammar
  import opened ExprRoundTrip
  import opened StringOrder
  import J = Json

  type Data = map<string, J.Json>

  /** Exact decimal value; the program rounds it to a float64. */
  function NumeralValue(s: string): real { DecimalValue(s, 0.0, 1.0) }

  // ---------------------------------------------------------------- evaluation

  function CompareStrings(op: Kind, a: string, b: string): bool {
    match op
    case EQ => a == b case NE => a != b
    case GT => Less(b, a) case GTE => a == b || Less(b, a)
    case LT => Less(a, b) case LTE => a == b || Less(a, b)
    case _ => false
  }

  function CompareNumbers(op: Kind, a: real, b: real): bool {
    match op
    case EQ => a == b case NE => a != b
    case GT => a > b case GTE => a >= b
    case LT => a < b case LTE => a <= b
    case _ => false
  }

  function CompareBools(op: Kind, a: bool, b: bool): bool {
    match op case EQ => a == b case NE => a != b case _ => false
  }

  /** A missing field, or one of another type than the literal, fails every comparison. */
  function Compare(data: Data, field: string, op: Kind, v: Literal): bool {
    field in data &&
    match v
    case Str(s) => data[field].Str? && CompareStrings(op, data[field].s, s)
    case Num(n) => data[field].Int? && CompareNumbers(op, data[field].n as real, NumeralValue(n))
    case Boolean(b) => data[field].Bool? && CompareBools(op, data[field].b, b)
  }

  predicate HasPrefix(s: string, prefix: string) { prefix <= s }

  predicate HasSubstring(s: string, part: string) { exists i :: 0 <= i <= |s| && HasPrefix(s[i..], part) }

  predicate Eval(e: Expr, data: Data) {
    match e
    case Cmp(f, op, v) => Compare(data, f, op, v)
    case And(l, r) => Eval(l, data) && Eval(r, data)
    case Or(l, r) => Eval(l, data) || Eval(r, data)
    case Not(x) => !Eval(x, data)
    case Contains(f, s) => f in data && data[f].Str? && HasSubstring(data[f].s, s)
    case StartsWith(f, s) => f in data && data[f].Str? && HasPrefix(data[f].s, s)
  }

  // ---------------------------------------------------------------- negation and comparison

  function Opposite(op: Kind): Kind {
    match op
    case EQ => NE case NE => EQ case GT => LTE case LTE => GT case LT => GTE case GTE => LT
    case _ => op
  }

  /** The field is there with the literal's type, and the operator is defined for that type. */
  predicate Comparable(data: Data, f: string, op: Kind, v: Literal) {
    f in data &&
    match v
    case Str(_) => data[f].Str?
    case Num(_) => data[f].Int?
    case Boolean(_) => data[f].Bool? && op in {EQ, NE}
  }

  /** Negating a comparison is comparing with the opposite operator exactly when the field can be compared;
      otherwise the negation holds and both comparisons fail. */
  lemma NegatedComparison(data: Data, f: string, op: Kind, v: Literal)
    requires IsCmpOp(op)
    ensures Eval(Not(Cmp(f, op, v)), data) == Eval(Cmp(f, Opposite(op), v), data) <==> Comparable(data, f, op, v)
    ensures !Comparable(data, f, op, v) ==> !Eval(Cmp(f, op, v), data) && !Eval(Cmp(f, Opposite(op), v), data)
  {
    if f in data && v.Str? && data[f].Str? {
      LessTotal(data[f].s, v.s);
    }
  }

  /** For a comparable string or number, exactly one of less, equal and greater holds. */
  lemma ExactlyOneOrder(data: Data, f: string, v: Literal)
    requires Comparable(data, f, LT, v)
    ensures var lt, eq, gt := Eval(Cmp(f, LT, v), data), Eval(Cmp(f, EQ, v), data), Eval(Cmp(f, GT, v), data);
      (lt || eq || gt) && !(lt && eq) && !(lt && gt) && !(eq && gt)
  {
    if v.Str? {
      LessTotal(data[f].s, v.s);
    }
  }

  // ---------------------------------------------------------------- what the tests mean

  /** The record with an integer in the field. */
  function WithInt(data: Data, f: string, n: int): Data { data[f := J.Int(n)] }

  function WithText(data: Data, f: string, s: string): Data { data[f := J.Str(s)] }

  /** More than a numeral: what is more still is, what is little enough is not, and what is much enough is. Less than
      one, likewise the other way round. */
  lemma NumbersGrow(data: Data, f: string, numeral: string, a: int, b: int)
    requires a <= b
    ensures Eval(Cmp(f, GT, Num(numeral)), WithInt(data, f, a)) ==> Eval(Cmp(f, GT, Num(numeral)), WithInt(data, f, b))
    ensures Eval(Cmp(f, LT, Num(numeral)), WithInt(data, f, b)) ==> Eval(Cmp(f, LT, Num(numeral)), WithInt(data, f, a))
  {
    hide DecimalValue;
  }

  lemma NumbersEnd(data: Data, f: string, numeral: string) returns (low: int, high: int)
    ensures forall n :: n <= low ==>
      !Eval(Cmp(f, GT, Num(numeral)), WithInt(data, f, n)) && Eval(Cmp(f, LT, Num(numeral)), WithInt(data, f, n))
    ensures forall n :: n >= high ==>
      Eval(Cmp(f, GT, Num(numeral)), WithInt(data, f, n)) && !Eval(Cmp(f, LT, Num(numeral)), WithInt(data, f, n))
  {
    hide DecimalValue;
    var v := NumeralValue(numeral);
    low, high := v.Floor - 1, v.Floor + 1;
  }

  /** An integer field is compared with the value of the numeral. */
  lemma NumbersCompare(data: Data, f: string, numeral: string, a: int)
    ensures Eval(Cmp(f, GT, Num(numeral)), WithInt(data, f, a)) <==> a as real > NumeralValue(numeral)
    ensures Eval(Cmp(f, LT, Num(numeral)), WithInt(data, f, a)) <==> a as real < NumeralValue(numeral)
    ensures Eval(Cmp(f, EQ, Num(numeral)), WithInt(data, f, a)) <==> a as real == NumeralValue(numeral)
  {
  }

  /** For every kind of literal, at least and at most are more or equal and less or equal. */
  lemma OrEqual(data: Data, f: string, v: Literal)
    ensures Eval(Cmp(f, GTE, v), data) <==> Eval(Cmp(f, GT, v), data) || (Eval(Cmp(f, EQ, v), data) && !v.Boolean?)
    ensures Eval(Cmp(f, LTE, v), data) <==> Eval(Cmp(f, LT, v), data) || (Eval(Cmp(f, EQ, v), data) && !v.Boolean?)
  {
  }

  /** Compared with the text of a whole number, an integer field is compared as a number. */
  lemma WholeNumbers(data: Data, f: string, n: nat, a: int)
    ensures Eval(Cmp(f, EQ, Num(J.NatText(n))), WithInt(data, f, a)) <==> a == n
    ensures Eval(Cmp(f, NE, Num(J.NatText(n))), WithInt(data, f, a)) <==> a != n
    ensures Eval(Cmp(f, GT, Num(J.NatText(n))), WithInt(data, f, a)) <==> a > n
    ensures Eval(Cmp(f, LT, Num(J.NatText(n))), WithInt(data, f, a)) <==> a < n
  {
    NumeralOfNat(n);
  }

  lemma NumeralOfNat(n: nat)
    ensures NumeralValue(J.NatText(n)) == n as real
  {
    J.NatTextDigits(n);
    WholePart(J.NatText(n), "", 0);
    ReadsBack(n, 0);
    assert J.NatText(n) + "" == J.NatText(n);
  }

  function DigitValue(c: char): nat
    requires J.IsDigit(c)
  {
    c as int - '0' as int
  }

  /** Digits read one after the other. */
  function Read(s: string, acc: nat): nat
    requires forall c :: c in s ==> J.IsDigit(c)
  {
    if s == "" then acc
    else
      assert s[0] in s;
      Read(s[1..], 10 * acc + DigitValue(s[0]))
  }

  lemma {:induction false} WholePart(s: string, rest: string, acc: nat)
    requires forall c :: c in s ==> J.IsDigit(c)
    ensures DecimalValue(s + rest, acc as real, 1.0) == DecimalValue(rest, Read(s, acc) as real, 1.0)
  {
    if s == "" {
      assert s + rest == rest;
    } else {
      assert s[0] in s && (s + rest)[0] == s[0] && (s + rest)[1..] == s[1..] + rest;
      WholePart(s[1..], rest, 10 * acc + DigitValue(s[0]));
    }
  }

  lemma {:induction false} ReadSnoc(s: string, d: char, acc: nat)
    requires (forall c :: c in s ==> J.IsDigit(c)) && J.IsDigit(d)
    ensures Read(s + [d], acc) == 10 * Read(s, acc) + DigitValue(d)
  {
    if s == "" {
      assert [d][1..] == "" && s + [d] == [d];
    } else {
      assert s[0] in s && (s + [d])[0] == s[0] && (s + [d])[1..] == s[1..] + [d];
      ReadSnoc(s[1..], d, 10 * acc + DigitValue(s[0]));
    }
  }

  lemma {:induction false} ReadsBack(n: nat, acc: nat)
    ensures (forall c :: c in J.NatText(n) ==> J.IsDigit(c)) && Read(J.NatText(n), 0) == n
  {
    J.NatTextDigits(n);
    if n < 10 {
      assert J.NatText(n)[1..] == "";
    } else {
      ReadsBack(n / 10, 0);
      ReadSnoc(J.NatText(n / 10), J.Digit(n % 10), 0);
    }
  }

  /** A numeral with a point has the value of its digits without the point, ten times smaller for each digit after
      it. */
  lemma DecimalPoint(whole: string, fraction: string)
    requires (forall c :: c in whole ==> J.IsDigit(c)) && (forall c :: c in fraction ==> J.IsDigit(c))
    ensures NumeralValue(whole + "." + fraction) * Power10(|fraction|) == NumeralValue(whole + fraction)
  {
    hide *;
    var read, both := Read(whole, 0), Read(fraction, Read(whole, 0));
    assert whole + "." + fraction == whole + ("." + fraction) && fraction + "" == fraction;
    WholePart(whole, "." + fraction, 0);
    WholePart(whole, fraction, 0);
    WholePart(fraction, "", read);
    AtPoint(fraction, read as real);
    FractionPart(fraction, read, read as real, 0.1, 1.0);
    NoneRead(both);
    Values(whole + "." + fraction);
    Values(whole + fraction);
    var x := DecimalValue(fraction, read as real, 0.1);
    assert 1.0 * Power10(|fraction|) == Power10(|fraction|);
    assert x * (1.0 * Power10(|fraction|)) == both as real;
  }

  lemma Values(s: string)
    ensures NumeralValue(s) == DecimalValue(s, 0.0, 1.0)
  {
  }

  lemma NoneRead(n: nat)
    ensures DecimalValue("", n as real, 1.0) == n as real
  {
  }

  lemma AtPoint(fraction: string, acc: real)
    ensures DecimalValue("." + fraction, acc, 1.0) == DecimalValue(fraction, acc, 0.1)
  {
    assert ("." + fraction)[1..] == fraction;
  }

  function Power10(n: nat): (p: real)
    ensures p >= 1.0
  {
    if n == 0 then 1.0 else 10.0 * Power10(n - 1)
  }

  /** When `acc` is `read` with the point moved by the places of `p`, and `w` is the weight of the next place. */
  lemma {:induction false} FractionPart(s: string, read: nat, acc: real, w: real, p: real)
    requires (forall c :: c in s ==> J.IsDigit(c)) && p >= 1.0 && w * (10.0 * p) == 1.0 && acc * p == read as real
    ensures DecimalValue(s, acc, w) * (p * Power10(|s|)) == Read(s, read) as real
  {
    hide *;
    if s == "" {
      NoFraction(read, acc, w, p);
    } else {
      assert s[0] in s && forall c :: c in s[1..] ==> c in s;
      var d := DigitValue(s[0]);
      Place(acc, d as real, w, p);
      FractionStep(s, d, acc, w, p);
      ReadFirst(s, read);
      FractionPart(s[1..], 10 * read + d, acc + d as real * w, w / 10.0, 10.0 * p);
      assert DecimalValue(s, acc, w) * (p * Power10(|s|)) ==
        DecimalValue(s[1..], acc + d as real * w, w / 10.0) * (10.0 * p * Power10(|s[1..]|));
    }
  }

  lemma NoFraction(read: nat, acc: real, w: real, p: real)
    requires acc * p == read as real
    ensures DecimalValue("", acc, w) * (p * Power10(0)) == Read("", read) as real
  {
    assert p * Power10(0) == p;
  }

  lemma ReadFirst(s: string, read: nat)
    requires s != "" && forall c :: c in s ==> J.IsDigit(c)
    ensures J.IsDigit(s[0]) && (forall c :: c in s[1..] ==> J.IsDigit(c))
    ensures Read(s, read) == Read(s[1..], 10 * read + DigitValue(s[0]))
  {
    assert s[0] in s;
  }

  lemma FractionStep(s: string, d: nat, acc: real, w: real, p: real)
    requires s != "" && J.IsDigit(s[0]) && d == DigitValue(s[0]) && w < 1.0
    ensures DecimalValue(s, acc, w) == DecimalValue(s[1..], acc + d as real * w, w / 10.0)
    ensures p * Power10(|s|) == 10.0 * p * Power10(|s[1..]|)
  {
    var q := Power10(|s| - 1);
    assert Power10(|s|) == 10.0 * q;
    Moved(p, q);
    OneDigit(s, acc, w);
  }

  lemma OneDigit(s: string, acc: real, w: real)
    requires s != "" && J.IsDigit(s[0]) && w < 1.0
    ensures DecimalValue(s, acc, w) == DecimalValue(s[1..], acc + DigitValue(s[0]) as real * w, w / 10.0)
  {
    var d := (s[0] as int - '0' as int) as real;
    assert s[0] != '.' && d == DigitValue(s[0]) as real;
    assert DecimalValue(s, acc, w) == DecimalValue(s[1..], acc + d * w, w / 10.0);
  }

  lemma Moved(p: real, q: real)
    ensures p * (10.0 * q) == 10.0 * p * q
  {
  }

  lemma Place(acc: real, d: real, w: real, p: real)
    requires p >= 1.0 && w * (10.0 * p) == 1.0
    ensures (acc + d * w) * (10.0 * p) == 10.0 * (acc * p) + d
    ensures w / 10.0 * (10.0 * (10.0 * p)) == 1.0 && w < 1.0
  {
    var t := 10.0 * p;
    Spread(acc, d, w, t);
    assert w * t == 1.0 && acc * t == 10.0 * (acc * p);
    if w >= 1.0 {
      AtLeast(w, t);
    }
  }

  lemma Spread(acc: real, d: real, w: real, t: real)
    ensures (acc + d * w) * t == acc * t + d * (w * t)
    ensures w / 10.0 * (10.0 * t) == w * t
  {
  }

  lemma AtLeast(w: real, t: real)
    requires w >= 1.0 && t >= 10.0
    ensures w * t >= 10.0
  {
  }

  /** Texts are compared byte by byte: a longer text is more than what it extends, the empty one is less than any other,
      and otherwise the first byte that differs decides. */
  lemma TextsCompare(data: Data, f: string, v: string, more: string, a: char, b: char, x: string, y: string)
    requires more != "" && a < b
    ensures Eval(Cmp(f, GT, Str(v)), WithText(data, f, v + more)) &&
      !Eval(Cmp(f, LT, Str(v)), WithText(data, f, v + more))
    ensures Eval(Cmp(f, LT, Str(v + more)), WithText(data, f, v)) &&
      !Eval(Cmp(f, GT, Str(v + more)), WithText(data, f, v))
    ensures Eval(Cmp(f, LT, Str(v + [b] + y)), WithText(data, f, v + [a] + x))
    ensures Eval(Cmp(f, GT, Str(v + [a] + x)), WithText(data, f, v + [b] + y))
  {
    LessExtended(v, more);
    LessAtFirst(v, a, b, x, y);
    LessTotal(v, v + more);
  }

  lemma {:induction false} LessExtended(v: string, more: string)
    requires more != ""
    ensures Less(v, v + more)
  {
    if v == "" {
      assert v + more == more;
    } else {
      assert (v + more)[0] == v[0] && (v + more)[1..] == v[1..] + more;
      LessExtended(v[1..], more);
    }
  }

  lemma {:induction false} LessAtFirst(v: string, a: char, b: char, x: string, y: string)
    requires a < b
    ensures Less(v + [a] + x, v + [b] + y)
  {
    var s, t := v + [a] + x, v + [b] + y;
    if v != "" {
      assert s[0] == v[0] == t[0] && s[1..] == v[1..] + [a] + x && t[1..] == v[1..] + [b] + y;
      LessAtFirst(v[1..], a, b, x, y);
    }
  }

  /** Equality is equality of a field that is there with the literal's type, inequality its opposite for such a
      field. */
  lemma EqualsMeans(data: Data, f: string, s: string, b: bool)
    ensures Eval(Cmp(f, EQ, Str(s)), data) <==> f in data && data[f] == J.Str(s)
    ensures Eval(Cmp(f, NE, Str(s)), data) <==> f in data && data[f].Str? && data[f] != J.Str(s)
    ensures Eval(Cmp(f, EQ, Boolean(b)), data) <==> f in data && data[f] == J.Bool(b)
    ensures Eval(Cmp(f, NE, Boolean(b)), data) <==> f in data && data[f].Bool? && data[f] != J.Bool(b)
  {
  }

  /** The field starts with `p` when it is `p` and some text. */
  lemma StartsWithMeans(data: Data, f: string, p: string)
    ensures Eval(StartsWith(f, p), data) <==> exists rest :: f in data && data[f] == J.Str(p + rest)
  {
    if Eval(StartsWith(f, p), data) {
      assert data[f].s == p + data[f].s[|p|..];
    }
  }

  /** The field contains `s` when it is some text, `s`, and some text. */
  lemma ContainsMeans(data: Data, f: string, s: string)
    ensures Eval(Contains(f, s), data) <==> exists before, rest :: f in data && data[f] == J.Str(before + s + rest)
  {
    if f in data && data[f].Str? {
      HasPart(data[f].s, s);
    }
  }

  lemma HasPart(t: string, s: string)
    ensures HasSubstring(t, s) <==> exists before, rest :: t == before + s + rest
  {
    if HasSubstring(t, s) {
      var i :| 0 <= i <= |t| && HasPrefix(t[i..], s);
      assert t == t[..i] + s + t[i + |s|..];
    }
    if before, rest :| t == before + s + rest {
      assert t[|before|..] == s + rest;
      assert HasPrefix(t[|before|..], s);
    }
  }

  function FieldsOf(e: Expr): set<string> {
    match e
    case Cmp(f, _, _) => {f}
    case And(l, r) => FieldsOf(l) + FieldsOf(r)
    case Or(l, r) => FieldsOf(l) + FieldsOf(r)
    case Not(x) => FieldsOf(x)
    case Contains(f, _) => {f}
    case StartsWith(f, _) => {f}
  }

  /** The expression with every test failing. */
  predicate Skeleton(e: Expr) {
    match e
    case And(l, r) => Skeleton(l) && Skeleton(r)
    case Or(l, r) => Skeleton(l) || Skeleton(r)
    case Not(x) => !Skeleton(x)
    case _ => false
  }

  /** A record without any of the fields is judged by the connectives alone. */
  lemma {:induction false} AbsentFields(e: Expr, data: Data)
    requires forall f :: f in FieldsOf(e) ==> f !in data
    ensures Eval(e, data) <==> Skeleton(e)
  {
    match e
    case And(l, r) => AbsentFields(l, data); AbsentFields(r, data);
    case Or(l, r) => AbsentFields(l, data); AbsentFields(r, data);
    case Not(x) => AbsentFields(x, data);
    case _ =>
  }

  /** Compiling the printed text of an expression keeps what it says about every record. */
  lemma PrintingKeepsMeaning(e: Expr, data: Data)
    requires Printable(e)
    ensures ParseCondition(Print(e)).Some? && (Eval(ParseCondition(Print(e)).value, data) <==> Eval(e, data))
  {
    RoundTrip(e);
  }
}
