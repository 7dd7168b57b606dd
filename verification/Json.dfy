/** JSON values and their canonical text: sorted keys, no spaces, Go's string escapes. */
module Json {
  import opened StringOrder

  datatype Json =
    | Null
    | Bool(b: bool)
    | Int(n: int)
    | Str(s: string)
    | Arr(items: seq<Json>)
    | Obj(fields: map<string, Json>)

  // ---------------------------------------------------------------- text of the scalars

  function Digit(d: nat): char
    requires d < 10
  {
    '0' + d as char
  }

  function NatText(n: nat): string {
    if n < 10 then [Digit(n)] else NatText(n / 10) + [Digit(n % 10)]
  }

  function IntText(n: int): string {
    if n < 0 then "-" + NatText(-n) else NatText(n)
  }

  function HexDigit(d: nat): char
    requires d < 16
  {
    if d < 10 then '0' + d as char else 'a' + (d - 10) as char
  }

  /** The six-character escape of a code point below 0x10000. */
  function Escape6(c: nat): string
    requires c < 0x10000
  {
    "\\u" + [HexDigit(c / 16 / 16 / 16), HexDigit(c / 16 / 16 % 16), HexDigit(c / 16 % 16), HexDigit(c % 16)]
  }

  predicate NeedsEscape6(c: char) {
    c as int < 0x20 || c in "<>&" || c as int == 0x2028 || c as int == 0x2029
  }

  function CharText(c: char): string {
    if c == '"' then "\\\""
    else if c == '\\' then "\\\\"
    else if c as int == 8 then "\\b"
    else if c as int == 9 then "\\t"
    else if c as int == 10 then "\\n"
    else if c as int == 12 then "\\f"
    else if c as int == 13 then "\\r"
    else if NeedsEscape6(c) then Escape6(c as int)
    else [c]
  }

  function CharsText(s: string): string {
    if s == "" then "" else CharText(s[0]) + CharsText(s[1..])
  }

  function StringText(s: string): string { "\"" + CharsText(s) + "\"" }

  // ---------------------------------------------------------------- text of values

  ghost function Encode(v: Json): string
    decreases v, 1, 0
  {
    match v
    case Null => "null"
    case Bool(b) => if b then "true" else "false"
    case Int(n) => IntText(n)
    case Str(s) => StringText(s)
    case Arr(_) => "[" + Items(v, 0) + "]"
    case Obj(m) => "{" + Fields(v, Sorted(m.Keys), 0) + "}"
  }

  function Comma(i: nat): string { if i > 0 then "," else "" }

  /** The array items from index `i` on. */
  ghost function Items(v: Json, i: nat): string
    requires v.Arr? && i <= |v.items|
    decreases v, 0, |v.items| - i
  {
    if i == |v.items| then "" else Comma(i) + Encode(v.items[i]) + Items(v, i + 1)
  }

  ghost predicate AreKeys(v: Json, ks: seq<string>) { v.Obj? && forall k :: k in ks ==> k in v.fields }

  /** The fields of the keys `ks` from index `i` on. */
  ghost function Fields(v: Json, ks: seq<string>, i: nat): string
    requires AreKeys(v, ks) && i <= |ks|
    decreases v, 0, |ks| - i
  {
    if i == |ks| then "" else Comma(i) + StringText(ks[i]) + ":" + Encode(v.fields[ks[i]]) + Fields(v, ks, i + 1)
  }

  // ---------------------------------------------------------------- reading scalars back

  predicate IsDigit(c: char) { '0' <= c <= '9' }

  /** Text that may follow a value inside a larger canonical text. */
  predicate Ends(r: string) { r == "" || r[0] in ",]}" }

  lemma {:induction false} NatTextDigits(n: nat)
    ensures NatText(n) != "" && forall c :: c in NatText(n) ==> IsDigit(c)
  {
    if n >= 10 {
      NatTextDigits(n / 10);
    }
  }

  /** The length of the longest prefix of digits. */
  function DigitRun(x: string): nat {
    if x != "" && IsDigit(x[0]) then 1 + DigitRun(x[1..]) else 0
  }

  lemma {:induction false} RunIs(a: string, r: string)
    requires forall c :: c in a ==> IsDigit(c)
    requires r == "" || !IsDigit(r[0])
    ensures DigitRun(a + r) == |a|
  {
    if a == "" {
      assert a + r == r;
    } else {
      assert a[0] in a && (a + r)[1..] == a[1..] + r;
      RunIs(a[1..], r);
    }
  }

  /** Two digit runs that are followed by no digit are equal when the texts are. */
  lemma RunsAgree(a: string, b: string, r: string, s: string)
    requires a + r == b + s
    requires (forall c :: c in a ==> IsDigit(c)) && (forall c :: c in b ==> IsDigit(c))
    requires (r == "" || !IsDigit(r[0])) && (s == "" || !IsDigit(s[0]))
    ensures a == b && r == s
  {
    RunIs(a, r);
    RunIs(b, s);
    assert a == (a + r)[..|a|] && b == (b + s)[..|b|];
    assert r == (a + r)[|a|..] && s == (b + s)[|b|..];
  }

  lemma {:induction false} NatTextInjective(m: nat, n: nat)
    requires NatText(m) == NatText(n)
    ensures m == n
  {
    NatTextDigits(m / 10);
    NatTextDigits(n / 10);
    if m >= 10 && n >= 10 {
      var a, b := NatText(m / 10), NatText(n / 10);
      assert a == NatText(m)[..|a|] && b == NatText(n)[..|b|];
      NatTextInjective(m / 10, n / 10);
      assert NatText(m)[|a|] == Digit(m % 10) && NatText(n)[|b|] == Digit(n % 10);
    } else {
      assert |NatText(m)| == |NatText(n)|;
      assert NatText(m)[0] == NatText(n)[0];
    }
  }

  function Abs(n: int): nat { if n < 0 then -n else n }

  lemma IntHead(n: int, r: string)
    ensures IntText(n) + r != "" && ((IntText(n) + r)[0] == '-' <==> n < 0)
    ensures (IntText(n) + r)[if n < 0 then 1 else 0..] == NatText(Abs(n)) + r
    ensures n >= 0 ==> IsDigit((IntText(n) + r)[0])
  {
    NatTextDigits(Abs(n));
    assert NatText(Abs(n))[0] in NatText(Abs(n));
  }

  lemma IntBack(m: int, n: int, r: string, s: string)
    requires IntText(m) + r == IntText(n) + s && Ends(r) && Ends(s)
    ensures m == n && r == s
  {
    hide NatText, IntText;
    IntHead(m, r);
    IntHead(n, s);
    NatTextDigits(Abs(m));
    NatTextDigits(Abs(n));
    RunsAgree(NatText(Abs(m)), NatText(Abs(n)), r, s);
    NatTextInjective(Abs(m), Abs(n));
  }

  lemma Escape6Injective(c: nat, d: nat)
    requires c < 0x10000 && d < 0x10000 && Escape6(c) == Escape6(d)
    ensures c == d
  {
    var e := Escape6(c);
    HexBack(c % 16, d % 16);
    HexBack(c / 16 % 16, d / 16 % 16);
    HexBack(c / 16 / 16 % 16, d / 16 / 16 % 16);
    HexBack(c / 16 / 16 / 16, d / 16 / 16 / 16);
    assert e[2..] == Escape6(d)[2..];
    assert e[2] == HexDigit(c / 16 / 16 / 16) && e[3] == HexDigit(c / 16 / 16 % 16);
    assert e[4] == HexDigit(c / 16 % 16) && e[5] == HexDigit(c % 16);
  }

  lemma HexBack(a: nat, b: nat)
    requires a < 16 && b < 16
    ensures HexDigit(a) == HexDigit(b) ==> a == b
  {
  }

  /** No character text is a proper prefix of another, and none starts with the closing quote. */
  lemma CharBack(c: char, d: char, r: string, s: string)
    requires CharText(c) + r == CharText(d) + s
    ensures c == d && r == s
  {
    var x, y := CharText(c) + r, CharText(d) + s;
    assert x[0] == y[0] == CharText(c)[0] == CharText(d)[0];
    if |CharText(c)| > 1 {
      assert |CharText(d)| > 1;
      assert CharText(c)[1] == x[1] == y[1] == CharText(d)[1];
      assert |CharText(c)| == |CharText(d)|;
    }
    var k := |CharText(c)|;
    assert x[..k] == CharText(c) && y[..k] == CharText(d) && x[k..] == r && y[k..] == s;
    if k == 6 {
      Escape6Injective(c as int, d as int);
    }
  }

  lemma {:induction false} CharsBack(a: string, b: string, r: string, s: string)
    requires CharsText(a) + "\"" + r == CharsText(b) + "\"" + s
    ensures a == b && r == s
    decreases |a| + |b|
  {
    CharsHead(a, r);
    CharsHead(b, s);
    hide CharsText, CharText;
    if a == "" {
      assert ("\"" + r)[1..] == r && ("\"" + s)[1..] == s;
    } else {
      var r', s' := CharsText(a[1..]) + "\"" + r, CharsText(b[1..]) + "\"" + s;
      CharBack(a[0], b[0], r', s');
      CharsBack(a[1..], b[1..], r, s);
      assert a == [a[0]] + a[1..] && b == [b[0]] + b[1..];
    }
  }

  lemma CharsHead(a: string, r: string)
    ensures (CharsText(a) + "\"" + r)[0] == '"' <==> a == ""
    ensures a == "" ==> CharsText(a) + "\"" + r == "\"" + r
    ensures a != "" ==> CharsText(a) + "\"" + r == CharText(a[0]) + (CharsText(a[1..]) + "\"" + r)
  {
    if a == "" {
      assert CharsText(a) + "\"" + r == "\"" + r;
    } else {
      CharHead(a[0]);
      assert CharsText(a) == CharText(a[0]) + CharsText(a[1..]);
      hide CharsText, CharText;
      Chain(CharText(a[0]), CharsText(a[1..]), "\"", r);
    }
  }

  lemma CharHead(c: char)
    ensures CharText(c) != "" && CharText(c)[0] != '"'
  {
  }

  lemma Chain(a: string, b: string, c: string, r: string)
    ensures (a + b) + c + r == a + (b + c + r)
    ensures a != "" ==> ((a + b) + c + r)[0] == a[0]
  {
  }

  lemma StringBack(a: string, b: string, r: string, s: string)
    requires StringText(a) + r == StringText(b) + s
    ensures a == b && r == s
  {
    assert (StringText(a) + r)[1..] == CharsText(a) + "\"" + r;
    assert (StringText(b) + s)[1..] == CharsText(b) + "\"" + s;
    CharsBack(a, b, r, s);
  }
}
