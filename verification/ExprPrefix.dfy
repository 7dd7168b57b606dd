/** How far a condition is read. The first place where no token starts ends the input: what the compiler says
    about a condition is what it says about the text before that place. */
module ExprPrefix {
  import opened Common
  import opened ExprGrammar
  import opened ExprRoundTrip

  /** The first position, spaces skipped, where no token starts; the end of the text if there is none before. */
  function Stop(input: string, pos: nat): (s: nat)
    requires pos <= |input|
    ensures pos <= s <= |input|
    decreases |input| - pos
  {
    var (t, p) := NextToken(input, pos);
    if t.kind == EOF then ScanWhile(input, pos, IsSpace) else Stop(input, p)
  }

  predicate StartsToken(input: string, p: nat)
    requires p <= |input|
  {
    TokenAt(input, p).0.kind != EOF
  }

  /** `d` continues after position `s` differently from `c`, if at all, and like `c` has no token at `s`. */
  predicate SameUpTo(c: string, d: string, s: nat) {
    && s <= |c| && s <= |d| && c[..s] == d[..s]
    && (s == |d| || (s < |c| && c[s] == d[s] && !IsSpace(d[s]) && !StartsToken(d, s)))
  }

  lemma {:induction false} StopStartsNoToken(input: string, pos: nat)
    requires pos <= |input|
    ensures var s := Stop(input, pos); !StartsToken(input, s) && (s < |input| ==> !IsSpace(input[s]))
    decreases |input| - pos
  {
    var (t, p) := NextToken(input, pos);
    if t.kind != EOF {
      StopStartsNoToken(input, p);
    }
  }

  lemma SameByte(c: string, d: string, s: nat, i: nat)
    requires SameUpTo(c, d, s) && i < s
    ensures c[i] == d[i]
  {
    assert c[..s][i] == d[..s][i];
  }

  /** A scan that ends by `s` ends at the same place in both texts. */
  lemma SameScan(c: string, d: string, s: nat, pos: nat, p: char -> bool)
    requires SameUpTo(c, d, s) && pos <= s && ScanWhile(c, pos, p) <= s
    requires s < |d| ==> !p(d[s]) || ScanWhile(c, pos, p) < s
    ensures ScanWhile(d, pos, p) == ScanWhile(c, pos, p)
  {
    var e := ScanWhile(c, pos, p);
    forall i | pos <= i < e ensures p(d[i]) { SameByte(c, d, s, i); }
    if e < s {
      SameByte(c, d, s, e);
    }
    ScanEnds(d, pos, p, e);
  }

  lemma NoWordAtStop(d: string, s: nat)
    requires s < |d| && !StartsToken(d, s)
    ensures !IsIdentChar(d[s]) && !IsNumberChar(d[s]) && d[s] != '\''
    ensures Peek(d, s, '=') ==> d[s] != '='
  {
    var e := ScanWhile(d, s, IsIdentChar);
    assert IsIdentChar(d[s]) <==> e > s;
  }

  lemma SameSlice(c: string, d: string, s: nat, a: nat, e: nat)
    requires SameUpTo(c, d, s) && a <= e <= s
    ensures c[a..e] == d[a..e]
  {
    assert c[a..e] == c[..s][a..e] && d[a..e] == d[..s][a..e];
  }

  lemma SamePeek(c: string, d: string, s: nat, p: nat)
    requires SameUpTo(c, d, s) && p < s && TokenAt(c, p).1 <= s
    requires c[p] in ">=<!" && (c[p] in "=!" ==> StartsToken(c, p))
    ensures Peek(c, p, '=') == Peek(d, p, '=')
  {
    SameByte(c, d, s, p);
    if p + 1 < s {
      SameByte(c, d, s, p + 1);
    }
  }

  lemma SameString(c: string, d: string, s: nat, p: nat)
    requires SameUpTo(c, d, s) && p < s && c[p] == '\'' && TokenAt(c, p).1 <= s
    ensures TokenAt(d, p) == TokenAt(c, p)
  {
    SameByte(c, d, s, p);
    var e := ScanWhile(c, p + 1, NotQuote);
    if e < |c| {
      SameScan(c, d, s, p + 1, NotQuote);
      SameSlice(c, d, s, p + 1, e);
    } else {
      assert c == c[..s] && d == d[..s];
    }
  }

  lemma SameNumber(c: string, d: string, s: nat, p: nat)
    requires SameUpTo(c, d, s) && p < s && IsDigit(c[p]) && TokenAt(c, p).1 <= s
    ensures TokenAt(d, p) == TokenAt(c, p)
  {
    SameByte(c, d, s, p);
    if s < |d| {
      NoWordAtStop(d, s);
    }
    SameScan(c, d, s, p, IsNumberChar);
    SameSlice(c, d, s, p, ScanWhile(c, p, IsNumberChar));
  }

  lemma SameWord(c: string, d: string, s: nat, p: nat)
    requires SameUpTo(c, d, s) && p < s && IsIdentChar(c[p]) && !IsDigit(c[p]) && TokenAt(c, p).1 <= s
    ensures TokenAt(d, p) == TokenAt(c, p)
  {
    SameByte(c, d, s, p);
    if s < |d| {
      NoWordAtStop(d, s);
    }
    SameScan(c, d, s, p, IsIdentChar);
    SameSlice(c, d, s, p, ScanWhile(c, p, IsIdentChar));
    hide WordToken;
  }

  lemma TokenStarts(c: string, p: nat)
    requires p < |c| && StartsToken(c, p)
    ensures c[p] == '\'' || IsIdentChar(c[p]) || c[p] in "(),=!><"
  {
  }

  lemma SameTokenAt(c: string, d: string, s: nat, p: nat)
    requires SameUpTo(c, d, s) && p < s && StartsToken(c, p) && TokenAt(c, p).1 <= s
    ensures TokenAt(d, p) == TokenAt(c, p)
  {
    TokenStarts(c, p);
    if c[p] == '\'' {
      SameString(c, d, s, p);
    } else if IsDigit(c[p]) {
      SameNumber(c, d, s, p);
    } else if IsIdentChar(c[p]) {
      SameWord(c, d, s, p);
    } else {
      SameByte(c, d, s, p);
      if c[p] in ">=<!" {
        SamePeek(c, d, s, p);
      }
      SymbolByPeek(c, d, p);
    }
  }

  lemma SymbolByPeek(c: string, d: string, p: nat)
    requires p < |c| && p < |d| && c[p] == d[p] && c[p] in "(),=!><" && StartsToken(c, p)
    requires c[p] in ">=<!" ==> Peek(c, p, '=') == Peek(d, p, '=')
    ensures TokenAt(d, p) == TokenAt(c, p)
  {
    hide ScanWhile, WordToken, IsIdentChar, IsNumberChar;
    assert c[p] in "=!" ==> Peek(c, p, '=') by { LoneIsNoToken(c, p); }
  }

  lemma LoneIsNoToken(c: string, p: nat)
    requires p < |c|
    ensures c[p] in "=!" && !Peek(c, p, '=') ==> !StartsToken(c, p)
  {
    var e := ScanWhile(c, p, IsIdentChar);
  }

  // ---------------------------------------------------------------- conditions

  lemma {:induction false} SameTokens(c: string, d: string, pos: nat)
    requires pos <= |c| && SameUpTo(c, d, Stop(c, pos))
    ensures pos <= |d| && Tokens(d, pos) == Tokens(c, pos) && Stop(d, pos) == Stop(c, pos)
    decreases |c| - pos
  {
    var s := Stop(c, pos);
    var p := ScanWhile(c, pos, IsSpace);
    var (t, next) := NextToken(c, pos);
    StopStartsNoToken(c, pos);
    SameScan(c, d, s, pos, IsSpace);
    if t.kind == EOF {
      assert p == s;
    } else {
      SameTokenAt(c, d, s, p);
      SameTokens(c, d, next);
    }
  }

  /** A condition means what any other text means that is the same up to the first place without a token, that
      place included. */
  lemma RestIsNeverRead(c: string, d: string)
    requires SameUpTo(c, d, Stop(c, 0))
    ensures ParseCondition(d) == ParseCondition(c)
  {
    SameTokens(c, d, 0);
  }

  /** In particular it means what the text before that place means. */
  lemma OnlyThePrefixCounts(c: string)
    ensures ParseCondition(c) == ParseCondition(c[..Stop(c, 0)])
  {
    RestIsNeverRead(c, c[..Stop(c, 0)]);
  }

  /** From `pos` on the text is tokens with spaces before them, which end where `ends` says, and spaces. */
  ghost predicate Tiled(c: string, pos: nat, ends: seq<nat>)
    requires pos <= |c|
    decreases |ends|
  {
    if ends == [] then forall i :: pos <= i < |c| ==> IsSpace(c[i])
    else
      var (t, p) := NextToken(c, pos);
      t.kind != EOF && ends[0] == p && Tiled(c, p, ends[1..])
  }

  lemma {:induction false} TiledMeansStop(c: string, pos: nat, ends: seq<nat>)
    requires pos <= |c| && Tiled(c, pos, ends)
    ensures Stop(c, pos) == |c|
    decreases |ends|
  {
    if ends == [] {
      ScanEnds(c, pos, IsSpace, |c|);
    } else {
      TiledMeansStop(c, ends[0], ends[1..]);
    }
  }

  lemma {:induction false} StopMeansTiled(c: string, pos: nat) returns (ends: seq<nat>)
    requires pos <= |c| && Stop(c, pos) == |c|
    ensures Tiled(c, pos, ends)
    decreases |c| - pos
  {
    var (t, p) := NextToken(c, pos);
    if t.kind == EOF {
      ends := [];
    } else {
      var more := StopMeansTiled(c, p);
      ends := [p] + more;
      assert ends[1..] == more;
    }
  }

  /** A condition is read to its end exactly when it is all tokens and spaces. */
  lemma ReadToTheEndIff(c: string)
    ensures Stop(c, 0) == |c| <==> exists ends :: Tiled(c, 0, ends)
  {
    hide Tiled, Stop;
    if Stop(c, 0) == |c| {
      var ends := StopMeansTiled(c, 0);
      assert Tiled(c, 0, ends);
    }
    if exists ends :: Tiled(c, 0, ends) {
      var ends :| Tiled(c, 0, ends);
      TiledMeansStop(c, 0, ends);
    }
  }

  /** A single equals sign is such a place: a condition goes on being accepted whatever follows it. */
  lemma LoneEqualsEndsInput(e: Expr, garbage: string)
    requires Printable(e) && (garbage != "" ==> garbage[0] != '=')
    ensures ParseCondition(Print(e) + (" =" + garbage)) == Some(e)
  {
    var tail := " =" + garbage;
    var input, p := Print(e) + tail, |Print(e)|;
    assert input[p] == tail[0] && input[p + 1] == tail[1] && (garbage != "" ==> input[p + 2] == tail[2]);
    hide Print, Printable, ParseCondition;
    ScanEnds(input, p, IsSpace, p + 1);
    LoneIsNoToken(input, p + 1);
    PrintThenParse(e, tail);
  }
}
