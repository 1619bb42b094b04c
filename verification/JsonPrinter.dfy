/** WriteJSON: the bytes a tree is written as, and the tokens those bytes scan to. */
module JsonPrinter {
  import opened Decimal
  import opened JsonTree
  import opened JsonLexer
  import opened Sequences

  function Magnitude(n: int): nat { if n < 0 then -n else n }

  /** "%ld" */
  function IntText(n: int): string
  {
    (if n < 0 then "-" else "") + Digits(Magnitude(n))
  }

  function Text(t: Json): string
  {
    match t
    case Seq(items) => "{\n" + ItemsText(items, 0) + "\n}\n"
    case List(items) => "[\n" + ItemsText(items, 0) + "]\n"
    case Str(s) => "\"" + s + "\""
    case Int(n) => IntText(n)
    case Bool(b) => if b then "true" else "false"
    case Float(x) => Fixed(x)
    case Null => "null"
    case Assign(v, e) => "\"" + v + "\" : " + Text(e)
    case Empty => "\n"
  }

  /** The items from index i on, each but the very first one after a comma. */
  function ItemsText(items: seq<Json>, i: nat): string
    requires i <= |items|
    decreases items, |items| - i
  {
    if i == |items| then ""
    else (if i == 0 then "" else ",\n") + Text(items[i]) + ItemsText(items, i + 1)
  }

  /** The tokens of a printed tree. */
  function Tokens(t: Json): seq<Token>
  {
    match t
    case Seq(items) => [LeftBracket] + ItemsTokens(items, 0) + [RightBracket]
    case List(items) => [LeftSquare] + ItemsTokens(items, 0) + [RightSquare]
    case Str(s) => [StringTok(s)]
    case Int(n) => [IntTok(n)]
    case Bool(b) => [BoolTok(b)]
    case Float(x) => [FloatTok(SixDecimals(x))]
    case Null => [NullTok]
    case Assign(v, e) => [StringTok(v), Colon] + Tokens(e)
    case Empty => []
  }

  function ItemsTokens(items: seq<Json>, i: nat): seq<Token>
    requires i <= |items|
    decreases items, |items| - i
  {
    if i == |items| then []
    else (if i == 0 then [] else [Comma]) + Tokens(items[i]) + ItemsTokens(items, i + 1)
  }

  /** The open file the tree is written to. */
  class OutFile {
    var bytes: string

    constructor ()
      ensures bytes == ""
    {
      bytes := "";
    }

    method SafeWrite(buffer: string)
      modifies this
      ensures bytes == old(bytes) + buffer
    {
      bytes := bytes + buffer;
    }
  }

  method WriteJSON(t: Json, file: OutFile)
    modifies file
    ensures file.bytes == old(file.bytes) + Text(t)
    decreases t
  {
    hide Digits, Fixed, IntText;
    ghost var before := file.bytes;
    match t
    case Str(s) =>
      file.SafeWrite("\"");
      file.SafeWrite(s);
      file.SafeWrite("\"");
      Assoc4(before, "\"", s, "\"");
    case Seq(items) =>
      file.SafeWrite("{\n");
      WriteItems(items, file);
      file.SafeWrite("\n}\n");
      Assoc4(before, "{\n", ItemsText(items, 0), "\n}\n");
    case List(items) =>
      file.SafeWrite("[\n");
      WriteItems(items, file);
      file.SafeWrite("]\n");
      Assoc4(before, "[\n", ItemsText(items, 0), "]\n");
    case Float(x) => file.SafeWrite(Fixed(x));
    case Bool(b) => file.SafeWrite(if b then "true" else "false");
    case Null => file.SafeWrite("null");
    case Int(n) => file.SafeWrite(IntText(n));
    case Assign(v, e) =>
      file.SafeWrite("\"");
      file.SafeWrite(v);
      file.SafeWrite("\" : ");
      ghost var named := file.bytes;
      Assoc4(before, "\"", v, "\" : ");
      WriteJSON(e, file);
      Assoc4(before, "\"" + v, "\" : ", Text(e));
    case Empty => file.SafeWrite("\n");
  }

  method WriteItems(items: seq<Json>, file: OutFile)
    modifies file
    ensures file.bytes == old(file.bytes) + ItemsText(items, 0)
    decreases items
  {
    var first := true;
    for i := 0 to |items|
      invariant first <==> i == 0
      invariant file.bytes + ItemsText(items, i) == old(file.bytes) + ItemsText(items, 0)
    {
      ghost var before := file.bytes;
      ghost var comma := if first then "" else ",\n";
      if !first {
        file.SafeWrite(",\n");
      } else {
        first := false;
      }
      WriteJSON(items[i], file);
      Assoc4(before, comma, Text(items[i]), ItemsText(items, i + 1));
    }
  }

  // ---------------------------------------------------------------- scanning printed pieces

  lemma LexBlank(c: char, rest: string)
    requires IsSpace(c)
    ensures Lex([c] + rest) == Lex(rest)
  {
  }

  lemma LexScanned(head: string, token: Token, rest: string)
    requires head != "" && !IsSpace(head[0]) && head[0] != '\0'
    requires Scan(head + rest) == (token, |head|)
    ensures Lex(head + rest) == [token] + Lex(rest)
  {
  }

  lemma LexMark(c: char, token: Token, rest: string)
    requires c in "{}[],:" && Scan([c]) == (token, 1)
    ensures Lex([c] + rest) == [token] + Lex(rest)
  {
  }

  lemma LexQuoted(s: CString, rest: string)
    requires QuoteFree(s)
    ensures Lex("\"" + s + "\"" + rest) == [StringTok(s)] + Lex(rest)
  {
    var head := "\"" + s + "\"";
    var all := head + rest;
    var e := QuoteEnd(all, 1);
    assert all[|s| + 1] == '"';
    assert forall k :: 1 <= k <= |s| ==> all[k] == s[k - 1];
    assert e == |s| + 1;
    assert all[1..e] == s;
    LexScanned(head, StringTok(s), rest);
  }

  lemma LexWord(word: string, token: Token, rest: string)
    requires (word == "false" && token == BoolTok(false)) || (word == "true" && token == BoolTok(true))
          || (word == "null" && token == NullTok)
    ensures Lex(word + rest) == [token] + Lex(rest)
  {
    var all := word + rest;
    assert HasPrefix(all, word) && all[0] == word[0];
    assert all[0] != 'f' ==> !HasPrefix(all, "false");
    assert all[0] != 't' ==> !HasPrefix(all, "true");
    LexScanned(word, token, rest);
  }

  /** What may follow a number in printed text. */
  predicate Stops(rest: string) { rest == "" || rest[0] in ",\n]" }

  /** The printed pieces of a number: an optional minus, then digits, inside a longer text. */
  lemma ScanSignedDigits(negative: bool, digits: string, tail: string)
    requires digits != "" && AllDigits(digits)
    requires tail != "" ==> !IsDigit(tail[0])
    ensures var k := if negative then 1 else 0;
            var all := (if negative then "-" else "") + digits + tail;
            var d := k + |digits|;
            StartsNumber(all[0]) && SignEnd(all, 0) == k && At(all, 0, '-') == negative
            && DigitsEnd(all, 1) == d == DigitsEnd(all, k) && all[k..d] == digits && all[d..] == tail
  {
    var k := if negative then 1 else 0;
    var all := (if negative then "-" else "") + digits + tail;
    var d := k + |digits|;
    assert all[k..d] == digits && all[k] == digits[0];
    assert all[1..d] == if negative then digits else digits[1..];
    DigitsEndUnique(all, k, d);
    DigitsEndUnique(all, 1, d);
  }

  lemma LexNumber(head: string, token: Token, rest: string)
    requires head != "" && StartsNumber(head[0])
    requires NumberToken(head + rest) == token && NumberEnd(head + rest) == |head|
    ensures Lex(head + rest) == [token] + Lex(rest)
  {
    assert (head + rest)[0] == head[0];
    LexScanned(head, token, rest);
  }

  lemma LexInt(n: Long, rest: string)
    requires Stops(rest)
    ensures Lex(IntText(n) + rest) == [IntTok(n)] + Lex(rest)
  {
    hide Lex, Scan, Digits;
    ScanSignedDigits(n < 0, Digits(Magnitude(n)), rest);
    LexNumber(IntText(n), IntTok(n), rest);
  }

  /** A printed float seen by the scanner: k and d are the ends of its sign and its whole part. */
  ghost predicate PointNumber(s: string, k: nat, d: nat)
  {
    && k <= d && 1 <= d && d + 7 <= |s|
    && SignEnd(s, 0) == k && DigitsEnd(s, k) == d && DigitsEnd(s, 1) == d
    && s[d] == '.' && DigitsEnd(s, d + 1) == d + 7
    && !At(s, d + 7, 'e') && !At(s, d + 7, 'E')
  }

  lemma PointNumberShape(negative: bool, whole: string, frac: string, rest: string)
    requires whole != "" && AllDigits(whole) && |frac| == 6 && AllDigits(frac) && Stops(rest)
    ensures var all := (if negative then "-" else "") + whole + ("." + frac + rest);
            var k := if negative then 1 else 0;
            var d := k + |whole|;
            StartsNumber(all[0]) && At(all, 0, '-') == negative && PointNumber(all, k, d)
            && all[k..d] == whole && all[d + 1..d + 7] == frac
  {
    hide DigitsEnd, Value, IsDigit, SignEnd, StartsNumber, AllDigits, Stops;
    var front := (if negative then "-" else "") + whole;
    var all := front + ("." + frac + rest);
    var d := |front|;
    PointIsNoDigit(frac + rest);
    Assoc(".", frac, rest);
    ScanSignedDigits(negative, whole, "." + frac + rest);
    Pieces(front, ".", frac, rest);
    FractionDigits(all, d + 1, frac, rest);
  }

  lemma PointIsNoDigit(rest: string)
    ensures !IsDigit(("." + rest)[0])
  {
  }

  /** A fraction and what stops it, seen inside a longer text. */
  lemma FractionDigits(all: string, from: nat, frac: string, rest: string)
    requires from + |frac| <= |all| && AllDigits(frac) && Stops(rest)
    requires all[from..from + |frac|] == frac && all[from + |frac|..] == rest
    ensures DigitsEnd(all, from) == from + |frac|
    ensures !At(all, from + |frac|, 'e') && !At(all, from + |frac|, 'E')
  {
  }

  lemma Pieces(front: string, point: string, frac: string, rest: string)
    requires |point| == 1
    ensures var all := front + (point + frac + rest);
            var d := |front|;
            all[d] == point[0] && all[d + 1..d + 1 + |frac|] == frac && all[d + 1 + |frac|..] == rest
    ensures var all := front + (point + frac + rest);
            forall i :: 0 <= i < |rest| ==> all[|front| + 1 + |frac| + i] == rest[i]
  {
  }

  lemma PointNumberEnd(s: string, k: nat, d: nat)
    requires PointNumber(s, k, d)
    ensures IsFloatText(s) && NumberEnd(s) == d + 7
  {
  }

  /** atof adds the whole part to six decimals' worth of fraction. */
  lemma PointNumberValue(s: string, k: nat, d: nat, whole: nat, frac: nat)
    requires PointNumber(s, k, d) && Value(s[k..d]) == whole && Value(s[d + 1..d + 7]) == frac
    ensures Atof(s) == (if At(s, 0, '-') then -1.0 else 1.0) * (whole as real + frac as real / 1000000.0)
  {
    hide DigitsEnd, Value;
    assert Pow10(6) == 1000000 && Pow10(0) == 1;
    assert Exponent(s, d + 7) == 0;
    assert FractionEnd(s, d) == d + 7;
    assert d + 7 - k > 1;
    assert Scale(whole as real + frac as real / 1000000.0, 0) == whole as real + frac as real / 1000000.0;
  }

  lemma FixedValue(x: real)
    ensures (if x < 0.0 then -1.0 else 1.0)
            * ((Micros(x) / MILLION) as real + (Micros(x) % MILLION) as real / 1000000.0) == SixDecimals(x)
  {
  }

  lemma PointNumberRead(negative: bool, whole: string, frac: string, rest: string)
    requires whole != "" && AllDigits(whole) && |frac| == 6 && AllDigits(frac) && Stops(rest)
    ensures var all := (if negative then "-" else "") + whole + ("." + frac + rest);
            StartsNumber(all[0]) && IsFloatText(all) && NumberEnd(all) == |all| - |rest|
            && Atof(all) == (if negative then -1.0 else 1.0) * (Value(whole) as real + Value(frac) as real / 1000000.0)
  {
    var k := if negative then 1 else 0;
    var all := (if negative then "-" else "") + whole + ("." + frac + rest);
    PointNumberShape(negative, whole, frac, rest);
    PointNumberEnd(all, k, k + |whole|);
    PointNumberValue(all, k, k + |whole|, Value(whole), Value(frac));
  }

  lemma LexPointNumber(negative: bool, whole: string, frac: string, x: real, rest: string)
    requires whole != "" && AllDigits(whole) && |frac| == 6 && AllDigits(frac) && Stops(rest)
    requires x == (if negative then -1.0 else 1.0) * (Value(whole) as real + Value(frac) as real / 1000000.0)
    ensures Lex((if negative then "-" else "") + whole + "." + frac + rest) == [FloatTok(x)] + Lex(rest)
  {
    hide Lex, Atof, NumberEnd, IsFloatText, StartsNumber, Atol, Value, AllDigits, Stops;
    var front := (if negative then "-" else "") + whole;
    PointNumberRead(negative, whole, frac, rest);
    Assoc4(front, ".", frac, rest);
    LexNumber(front + "." + frac, FloatTok(x), rest);
  }

  lemma LexFloat(x: real, rest: string)
    requires Stops(rest)
    ensures Lex(Fixed(x) + rest) == [FloatTok(SixDecimals(x))] + Lex(rest)
  {
    assert Pow10(6) == MILLION;
    PaddedFits(Micros(x) % MILLION, 6);
    FixedValue(x);
    LexPointNumber(x < 0.0, Digits(Micros(x) / MILLION), Padded(Micros(x) % MILLION, 6), SixDecimals(x), rest);
  }
}
