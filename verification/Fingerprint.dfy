/** The canonical writer behind entity fingerprints. The writer appends to a buffer while it walks a value
    whose maps come in no particular order; its text is proved to identify the value. */
module Fingerprint {
  import opened Common
  import opened Json
  import opened StringOrder

  // ---------------------------------------------------------------- the writer

  class Buffer {
    var data: string

    constructor ()
      ensures data == ""
    {
      data := "";
    }

    method Write(s: string)
      modifies this
      ensures data == old(data) + s
    {
      data := data + s;
    }
  }

  /** What the writer is asked to encode: at the top level the excluded keys do not take part. */
  function Kept(v: Json, excl: set<string>, topLevel: bool): Json {
    if topLevel && v.Obj? then Obj(v.fields - excl) else v
  }

  lemma EncodeObject(w: Json, ks: seq<string>)
    requires w.Obj? && Ascending(ks) && forall k :: k in ks <==> k in w.fields
    ensures Encode(w) == "{" + Fields(w, ks, 0) + "}"
  {
    AscendingUnique(ks, Sorted(w.fields.Keys));
  }

  method WriteCanonical(buf: Buffer, v: Json, excl: set<string>, topLevel: bool)
    modifies buf
    ensures buf.data == old(buf.data) + Encode(Kept(v, excl, topLevel))
    decreases v, 1
  {
    ghost var start := buf.data;
    match v {
      case Obj(val) =>
        ghost var w := Kept(v, excl, topLevel);
        var keys: seq<string> := [];
        var rest := val.Keys;
        while rest != {}
          invariant rest <= val.Keys && Distinct(keys)
          invariant forall k :: k in keys <==> k in w.fields && k !in rest
          decreases |rest|
        {
          var k :| k in rest;
          rest := rest - {k};
          if topLevel && k in excl {
            continue;
          }
          keys := keys + [k];
        }
        keys := SortStrings(keys);
        EncodeObject(w, keys);
        buf.Write("{");
        for i := 0 to |keys|
          invariant buf.data + Fields(w, keys, i) == start + "{" + Fields(w, keys, 0)
        {
          WriteField(buf, v, w, excl, keys, i);
        }
        assert buf.data + "" == buf.data;
        buf.Write("}");
        Regroup(start, "{", "", "", Fields(w, keys, 0), "}");
      case Arr(items) =>
        assert Encode(v) == "[" + Items(v, 0) + "]";
        buf.Write("[");
        for i := 0 to |items|
          invariant buf.data + Items(v, i) == start + "[" + Items(v, 0)
        {
          WriteItem(buf, v, excl, i);
        }
        assert buf.data + "" == buf.data;
        buf.Write("]");
        Regroup(start, "[", "", "", Items(v, 0), "]");
      case Null => buf.Write("null");
      case Bool(b) => buf.Write(if b then "true" else "false");
      case Int(n) => buf.Write(IntText(n));
      case Str(s) => buf.Write(StringText(s));
    }
  }

  /** One round of the loop over the keys: comma, key, colon, value. */
  method WriteField(buf: Buffer, v: Json, ghost w: Json, excl: set<string>, keys: seq<string>, i: nat)
    requires v.Obj? && AreKeys(w, keys) && i < |keys|
    requires forall k :: k in keys ==> k in v.fields && v.fields[k] == w.fields[k]
    modifies buf
    ensures buf.data + Fields(w, keys, i + 1) == old(buf.data) + Fields(w, keys, i)
    decreases v, 0
  {
    hide Encode, StringText, Fields;
    ghost var start := buf.data;
    var k := keys[i];
    if i > 0 {
      buf.Write(",");
    }
    assert buf.data == start + Comma(i);
    buf.Write(StringText(k));
    buf.Write(":");
    WriteCanonical(buf, v.fields[k], excl, false);
    FieldsUnfold(w, keys, i);
    Regroup(start, Comma(i), StringText(k), ":", Encode(v.fields[k]), Fields(w, keys, i + 1));
  }

  method WriteItem(buf: Buffer, v: Json, excl: set<string>, i: nat)
    requires v.Arr? && i < |v.items|
    modifies buf
    ensures buf.data + Items(v, i + 1) == old(buf.data) + Items(v, i)
    decreases v, 0
  {
    hide Encode, Items;
    ghost var start := buf.data;
    if i > 0 {
      buf.Write(",");
    }
    assert buf.data == start + Comma(i);
    WriteCanonical(buf, v.items[i], excl, false);
    ItemsUnfold(v, i);
    Regroup(start, Comma(i), "", "", Encode(v.items[i]), Items(v, i + 1));
  }

  lemma ItemsUnfold(v: Json, i: nat)
    requires v.Arr? && i < |v.items|
    ensures Items(v, i) == Comma(i) + Encode(v.items[i]) + Items(v, i + 1)
  {
  }

  lemma FieldsUnfold(v: Json, ks: seq<string>, i: nat)
    requires AreKeys(v, ks) && i < |ks|
    ensures Fields(v, ks, i) == Comma(i) + StringText(ks[i]) + ":" + Encode(v.fields[ks[i]]) + Fields(v, ks, i + 1)
  {
  }

  lemma Regroup(start: string, a: string, b: string, c: string, d: string, e: string)
    ensures start + a + b + c + d + e == start + (a + b + c + d + e)
    ensures start + a + d + e == start + (a + d + e)
  {
  }

  /** The bytes that are hashed into the fingerprint of a payload. */
  ghost function PreHash(data: map<string, Json>, exclude: seq<string>): string {
    Encode(Obj(data - (set k | k in exclude)))
  }

  method Of(data: map<string, Json>, exclude: seq<string>) returns (bytes: string)
    ensures bytes == PreHash(data, exclude)
  {
    var excl: set<string> := {};
    for i := 0 to |exclude|
      invariant excl == set k | k in exclude[..i]
    {
      excl := excl + {exclude[i]};
    }
    assert exclude[..|exclude|] == exclude;
    var buf := new Buffer();
    WriteCanonical(buf, Obj(data), excl, true);
    bytes := buf.data;
  }

  // ---------------------------------------------------------------- the text identifies the value

  /** The first character of a value's text tells its kind. */
  predicate Heads(v: Json, c: char) {
    match v
    case Null => c == 'n'
    case Bool(b) => c == if b then 't' else 'f'
    case Int(_) => c == '-' || IsDigit(c)
    case Str(_) => c == '"'
    case Arr(_) => c == '['
    case Obj(_) => c == '{'
  }

  lemma EncodeHead(v: Json, r: string)
    ensures Encode(v) != "" && Heads(v, (Encode(v) + r)[0]) && Encode(v)[0] !in ",]}"
  {
    if v.Int? {
      IntHead(v.n, "");
      assert IntText(v.n) + "" == IntText(v.n);
    }
  }

  /** Two values whose texts, with proper continuations, read the same are the same. */
  lemma {:induction false} EncodeBack(v: Json, w: Json, r: string, s: string)
    requires Encode(v) + r == Encode(w) + s && Ends(r) && Ends(s)
    ensures v == w && r == s
    decreases v, 1, 0
  {
    EncodeHead(v, r);
    EncodeHead(w, s);
    match v {
      case Null => Suffixes("null", r, s);
      case Bool(b) => Suffixes(if b then "true" else "false", r, s);
      case Int(n) => IntBack(n, w.n, r, s);
      case Str(t) => StringBack(t, w.s, r, s);
      case Arr(_) =>
        Opened("[", Items(v, 0), Items(w, 0), "]", r, s);
        ItemsBack(v, w, 0, r, s);
      case Obj(_) =>
        var ks, js := Sorted(v.fields.Keys), Sorted(w.fields.Keys);
        Opened("{", Fields(v, ks, 0), Fields(w, js, 0), "}", r, s);
        FieldsBack(v, w, ks, js, 0, r, s);
        assert forall k :: k in v.fields ==> k in ks;
        assert forall k :: k in w.fields ==> k in js;
        assert v.fields == w.fields;
    }
  }

  lemma Suffixes(p: string, r: string, s: string)
    requires p + r == p + s
    ensures r == s
  {
    assert r == (p + r)[|p|..] && s == (p + s)[|p|..];
  }

  lemma Opened(open: string, a: string, b: string, close: string, r: string, s: string)
    requires open + a + close + r == open + b + close + s
    ensures a + close + r == b + close + s
  {
    assert open + a + close + r == open + (a + close + r);
    assert open + b + close + s == open + (b + close + s);
    Suffixes(open, a + close + r, b + close + s);
  }

  lemma Tail(a: string, head: string, more: string, close: string, r: string)
    requires head != ""
    ensures (a + head + more) + close + r == a + (head + (more + close + r))
    ensures (a + head + more + close + r)[0] == if a == "" then head[0] else a[0]
  {
  }

  lemma FieldTail(a: string, k: string, x: string, more: string, r: string)
    requires k != ""
    ensures (a + k + ":" + x + more) + "}" + r == a + (k + (":" + (x + (more + "}" + r))))
    ensures ((a + k + ":" + x + more) + "}" + r)[0] == if a == "" then k[0] else a[0]
  {
    var t := more + "}" + r;
    assert (a + k + ":" + x + more) + "}" + r == a + k + ":" + x + t;
    assert a + k + ":" + x + t == a + (k + ":" + x + t);
    assert k + ":" + x + t == k + (":" + x + t);
    assert ":" + x + t == ":" + (x + t);
  }

  /** What follows index `i` in an array text, closing bracket included. */
  ghost function ItemsTail(v: Json, i: nat, r: string): string
    requires v.Arr? && i <= |v.items|
  {
    Items(v, i) + "]" + r
  }

  lemma SplitItems(v: Json, i: nat, r: string)
    requires v.Arr? && i <= |v.items|
    ensures ItemsTail(v, i, r) != "" && (i > 0 ==> Ends(ItemsTail(v, i, r)))
    ensures ItemsTail(v, i, r)[0] == ']' <==> i == |v.items|
    ensures i == |v.items| ==> ItemsTail(v, i, r)[1..] == r
    ensures i < |v.items| ==> ItemsTail(v, i, r) == Comma(i) + (Encode(v.items[i]) + ItemsTail(v, i + 1, r))
  {
    if i < |v.items| {
      ItemsUnfold(v, i);
      EncodeHead(v.items[i], "");
      hide Encode, Items;
      Tail(Comma(i), Encode(v.items[i]), Items(v, i + 1), "]", r);
    } else {
      assert ItemsTail(v, i, r) == "]" + r;
    }
  }

  lemma {:induction false} ItemsBack(v: Json, w: Json, i: nat, r: string, s: string)
    requires v.Arr? && w.Arr? && i <= |v.items| && i <= |w.items| && v.items[..i] == w.items[..i]
    requires ItemsTail(v, i, r) == ItemsTail(w, i, s)
    ensures v == w && r == s
    decreases v, 0, |v.items| - i
  {
    hide Encode, ItemsTail;
    SplitItems(v, i, r);
    SplitItems(w, i, s);
    if i < |v.items| {
      SplitItems(v, i + 1, r);
      SplitItems(w, i + 1, s);
      Suffixes(Comma(i), Encode(v.items[i]) + ItemsTail(v, i + 1, r), Encode(w.items[i]) + ItemsTail(w, i + 1, s));
      EncodeBack(v.items[i], w.items[i], ItemsTail(v, i + 1, r), ItemsTail(w, i + 1, s));
      assert v.items[..i + 1] == v.items[..i] + [v.items[i]] && w.items[..i + 1] == w.items[..i] + [w.items[i]];
      ItemsBack(v, w, i + 1, r, s);
    } else {
      assert v.items[..i] == v.items && w.items[..i] == w.items;
    }
  }

  /** What follows field `i` in an object text, closing brace included. */
  ghost function FieldsTail(v: Json, ks: seq<string>, i: nat, r: string): string
    requires AreKeys(v, ks) && i <= |ks|
  {
    Fields(v, ks, i) + "}" + r
  }

  lemma SplitFields(v: Json, ks: seq<string>, i: nat, r: string)
    requires AreKeys(v, ks) && i <= |ks|
    ensures FieldsTail(v, ks, i, r) != "" && (i > 0 ==> Ends(FieldsTail(v, ks, i, r)))
    ensures FieldsTail(v, ks, i, r)[0] == '}' <==> i == |ks|
    ensures i == |ks| ==> FieldsTail(v, ks, i, r)[1..] == r
    ensures i < |ks| ==> (
      FieldsTail(v, ks, i, r) ==
      Comma(i) + (StringText(ks[i]) + (":" + (Encode(v.fields[ks[i]]) + FieldsTail(v, ks, i + 1, r)))))
  {
    if i < |ks| {
      FieldsUnfold(v, ks, i);
      var k, x := StringText(ks[i]), Encode(v.fields[ks[i]]);
      assert k[0] == '"';
      hide Encode, Fields, StringText;
      FieldTail(Comma(i), k, x, Fields(v, ks, i + 1), r);
    } else {
      assert FieldsTail(v, ks, i, r) == "}" + r;
    }
  }

  lemma {:induction false} FieldsBack(v: Json, w: Json, ks: seq<string>, js: seq<string>, i: nat, r: string, s: string)
    requires AreKeys(v, ks) && AreKeys(w, js) && i <= |ks| && i <= |js| && ks[..i] == js[..i]
    requires FieldsTail(v, ks, i, r) == FieldsTail(w, js, i, s)
    ensures ks == js && r == s && forall j :: i <= j < |ks| ==> v.fields[ks[j]] == w.fields[ks[j]]
    decreases v, 0, |ks| - i
  {
    hide Encode, FieldsTail, StringText;
    SplitFields(v, ks, i, r);
    SplitFields(w, js, i, s);
    if i < |ks| {
      SplitFields(v, ks, i + 1, r);
      SplitFields(w, js, i + 1, s);
      var x, y := Encode(v.fields[ks[i]]) + FieldsTail(v, ks, i + 1, r),
        Encode(w.fields[js[i]]) + FieldsTail(w, js, i + 1, s);
      Suffixes(Comma(i), StringText(ks[i]) + (":" + x), StringText(js[i]) + (":" + y));
      StringBack(ks[i], js[i], ":" + x, ":" + y);
      Suffixes(":", x, y);
      EncodeBack(v.fields[ks[i]], w.fields[js[i]], FieldsTail(v, ks, i + 1, r), FieldsTail(w, js, i + 1, s));
      assert ks[..i + 1] == ks[..i] + [ks[i]] && js[..i + 1] == js[..i] + [js[i]];
      FieldsBack(v, w, ks, js, i + 1, r, s);
    } else {
      assert ks[..i] == ks && js[..i] == js;
    }
  }

  /** The canonical text is injective: equal texts, equal values. */
  lemma EncodeInjective(v: Json, w: Json)
    ensures Encode(v) == Encode(w) <==> v == w
  {
    if Encode(v) == Encode(w) {
      assert Encode(v) + "" == Encode(w) + "";
      EncodeBack(v, w, "", "");
    }
  }

  // ---------------------------------------------------------------- fingerprints of payloads

  /** The include list, when there is one, selects the fields; an empty list selects all. */
  function FpFields(data: map<string, Json>, included: seq<string>): map<string, Json> {
    if included == [] then data else map k | k in data && k in included :: data[k]
  }

  predicate Hashed(k: string, included: seq<string>, exclude: seq<string>) {
    (included == [] || k in included) && k !in exclude
  }

  ghost predicate SameField(a: map<string, Json>, b: map<string, Json>, k: string) {
    (k in a <==> k in b) && (k in a && k in b ==> a[k] == b[k])
  }

  /** Two payloads have the same fingerprint bytes exactly when they agree on every hashed top-level
      field; excluded names hide top-level fields only. */
  lemma FingerprintsAgree(a: map<string, Json>, b: map<string, Json>, included: seq<string>, exclude: seq<string>)
    ensures PreHash(FpFields(a, included), exclude) == PreHash(FpFields(b, included), exclude)
      <==> forall k :: Hashed(k, included, exclude) ==> SameField(a, b, k)
  {
    EncodeInjective(Obj(HashedFields(a, included, exclude)), Obj(HashedFields(b, included, exclude)));
    SameHashedFields(a, b, included, exclude);
  }

  /** The fields that are hashed. */
  function HashedFields(data: map<string, Json>, included: seq<string>, exclude: seq<string>): map<string, Json> {
    FpFields(data, included) - (set k | k in exclude)
  }

  lemma HashedField(data: map<string, Json>, included: seq<string>, exclude: seq<string>, k: string)
    ensures k in HashedFields(data, included, exclude) <==> k in data && Hashed(k, included, exclude)
    ensures k in HashedFields(data, included, exclude) ==> HashedFields(data, included, exclude)[k] == data[k]
  {
  }

  lemma SameHashedFields(a: map<string, Json>, b: map<string, Json>, included: seq<string>, exclude: seq<string>)
    ensures HashedFields(a, included, exclude) == HashedFields(b, included, exclude)
      <==> forall k :: Hashed(k, included, exclude) ==> SameField(a, b, k)
  {
    hide HashedFields, Hashed;
    var x, y := HashedFields(a, included, exclude), HashedFields(b, included, exclude);
    if x == y {
      forall k | Hashed(k, included, exclude) ensures SameField(a, b, k) {
        HashedField(a, included, exclude, k);
        HashedField(b, included, exclude, k);
      }
    }
    if forall k :: Hashed(k, included, exclude) ==> SameField(a, b, k) {
      forall k ensures (k in x <==> k in y) && (k in x ==> x[k] == y[k]) {
        HashedField(a, included, exclude, k);
        HashedField(b, included, exclude, k);
      }
    }
  }

  // ---------------------------------------------------------------- the text itself

  /** Strings are quoted, with the short escapes where there are some, and most bytes as they are. */
  lemma StringTexts(c: char)
    ensures c as int >= 0x20 && c !in "\"\\<>&" && c as int != 0x2028 && c as int != 0x2029 ==> CharText(c) == [c]
    ensures StringText("") == "\"\"" && CharText('"') == "\\\"" && CharText('\\') == "\\\\"
    ensures CharText('\n') == "\\n" && CharText('\r') == "\\r" && CharText('\t') == "\\t"
    ensures CharText(8 as char) == "\\b" && CharText(12 as char) == "\\f"
  {
  }

  /** Other controls, angle brackets, ampersands and the two separators of Unicode have six-character escapes. */
  lemma EscapedTexts()
    ensures CharText('<') == "\\u003c" && CharText('>') == "\\u003e" && CharText('&') == "\\u0026"
    ensures CharText(0 as char) == "\\u0000" && CharText(31 as char) == "\\u001f"
    ensures CharText(0x2028 as char) == "\\u2028" && CharText(0x2029 as char) == "\\u2029"
  {
    hide Escape6;
    EscapedAs(60, 0, 0, 3, 12);
    EscapedAs(62, 0, 0, 3, 14);
    EscapedAs(38, 0, 0, 2, 6);
    EscapedAs(0, 0, 0, 0, 0);
    EscapedAs(31, 0, 0, 1, 15);
    EscapedAs(0x2028, 2, 0, 2, 8);
    EscapedAs(0x2029, 2, 0, 2, 9);
    assert HexDigit(0) == '0' && HexDigit(1) == '1' && HexDigit(2) == '2' && HexDigit(3) == '3' && HexDigit(6) == '6';
    assert HexDigit(8) == '8' && HexDigit(9) == '9' && HexDigit(12) == 'c' && HexDigit(14) == 'e' && HexDigit(15) == 'f';
  }

  lemma EscapedAs(c: nat, d3: nat, d2: nat, d1: nat, d0: nat)
    requires c < 0x10000 && d3 < 16 && d2 < 16 && d1 < 16 && d0 < 16 && c == ((d3 * 16 + d2) * 16 + d1) * 16 + d0
    ensures Escape6(c) == "\\u" + [HexDigit(d3), HexDigit(d2), HexDigit(d1), HexDigit(d0)]
  {
    var b := (d3 * 16 + d2) * 16 + d1;
    Hex(b, d0);
    Hex(d3 * 16 + d2, d1);
    Hex(d3, d2);
    assert c == b * 16 + d0;
  }

  lemma Hex(a: nat, d: nat)
    requires d < 16
    ensures (a * 16 + d) / 16 == a && (a * 16 + d) % 16 == d
  {
  }

  lemma Texts(n: nat)
    ensures Encode(Null) == "null" && Encode(Bool(true)) == "true" && Encode(Bool(false)) == "false"
    ensures Encode(Arr([])) == "[]" && Encode(Arr([Null, Bool(true)])) == "[null,true]"
    ensures n > 0 ==> Encode(Int(0 - n)) == "-" + Encode(Int(n))
    ensures n >= 10 ==> Encode(Int(n)) == Encode(Int(n / 10)) + Encode(Int(n % 10))
    ensures Encode(Int(0)) == "0" && Encode(Int(7)) == "7"
  {
    assert Items(Arr([Null, Bool(true)]), 2) == "";
    assert Items(Arr([Null, Bool(true)]), 1) == ",true";
  }

  /** Fields are written in ascending order of their names, without spaces. */
  lemma ObjectText(a: Json, b: Json)
    ensures Encode(Obj(map["b" := b, "a" := a])) == "{\"a\":" + Encode(a) + ",\"b\":" + Encode(b) + "}"
  {
    hide *;
    var v, ks := Obj(map["b" := b, "a" := a]), ["a", "b"];
    InOrder();
    EncodeObject(v, ks);
    TwoFields(v, ks, a, b);
    Braced(Encode(a), Encode(b));
  }

  lemma InOrder()
    ensures Ascending(["a", "b"])
  {
  }

  lemma Braced(x: string, y: string)
    ensures "{" + ("\"a\":" + x + ",\"b\":" + y) + "}" == "{\"a\":" + x + ",\"b\":" + y + "}"
  {
  }

  lemma TwoFields(v: Json, ks: seq<string>, a: Json, b: Json)
    requires ks == ["a", "b"] && v == Obj(map["b" := b, "a" := a])
    ensures AreKeys(v, ks) && Fields(v, ks, 0) == "\"a\":" + Encode(a) + ",\"b\":" + Encode(b)
  {
    hide Encode;
    FieldsUnfold(v, ks, 0);
    FieldsUnfold(v, ks, 1);
    assert Fields(v, ks, 2) == "" && StringText("a") == "\"a\"" && StringText("b") == "\"b\"";
    hide *;
    var x, y := Encode(a), Encode(b);
    assert Comma(0) == "" && Comma(1) == "," by { Commas(); }
    assert "" + "\"a\"" + ":" + x + ("," + "\"b\"" + ":" + y + "") == "\"a\":" + x + ",\"b\":" + y;
  }

  lemma Commas()
    ensures Comma(0) == "" && Comma(1) == ","
  {
  }
}
