/** Writing a tree and reading it back: what survives, and exactly when. */
module JsonRoundTrip {
  import opened Decimal
  import opened JsonTree
  import opened JsonLexer
  import opened JsonParser
  import opened JsonPrinter
  import opened Sequences

  /** What loading a text does; Unreadable is an exit, or a read past the end of memory. */
  datatype Loaded = Loaded(tree: Json) | Unreadable

  /** The JSON_Expression(byte_string) constructor: trailing tokens are ignored. */
  function Load(text: string): Loaded
  {
    var tokens := Lex(text);
    if Overrun in tokens then Unreadable
    else
      match Parse(tokens)
      case Parsed(tree, _) => Loaded(tree)
      case Failed(_) => Unreadable
  }

  method LoadText(byteString: string) returns (r: Loaded)
    ensures r == Load(byteString)
  {
    var tokens := Tokenize(byteString);
    if Overrun in tokens {
      return Unreadable;
    }
    var list := new TokenList(tokens);
    var e := list.InitializeFromTokens();
    match e
    case Done(tree) => return Loaded(tree);
    case Stopped(_) => return Unreadable;
  }

  // ---------------------------------------------------------------- scanning

  ghost predicate Printable(t: Json) { Valid(t) && QuoteFreeTree(t) && !t.Empty? }

  lemma {:induction false} LexText(t: Json, rest: string)
    requires Printable(t) && Stops(rest)
    ensures Lex(Text(t) + rest) == Tokens(t) + Lex(rest)
    decreases t
  {
    hide Scan, Digits, Fixed, IntText;
    match t
    case Seq(items) =>
      var tail := "\n}\n" + rest;
      Assoc4("{\n", ItemsText(items, 0), "\n}\n", rest);
      LexBrace(ItemsText(items, 0) + tail);
      LexItems(items, 0, tail);
      LexBraceEnd(rest);
    case List(items) =>
      var tail := "]\n" + rest;
      Assoc4("[\n", ItemsText(items, 0), "]\n", rest);
      LexSquare(ItemsText(items, 0) + tail);
      LexItems(items, 0, tail);
      LexSquareEnd(rest);
    case Str(s) => LexQuoted(s, rest);
    case Int(n) => LexInt(n, rest);
    case Bool(b) => LexWord(if b then "true" else "false", BoolTok(b), rest);
    case Float(x) => LexFloat(x, rest);
    case Null => LexWord("null", NullTok, rest);
    case Assign(v, e) =>
      Assoc4("\"" + v, "\" : ", Text(e), rest);
      LexVariable(v, Text(e) + rest);
      LexText(e, rest);
  }

  lemma {:induction false} LexItems(items: seq<Json>, i: nat, rest: string)
    requires AllPrintable(items)
    requires i <= |items| && rest != "" && Stops(rest)
    ensures Lex(ItemsText(items, i) + rest) == ItemsTokens(items, i) + Lex(rest)
    decreases items, |items| - i
  {
    hide Lex, Text, Tokens;
    if i == |items| {
      assert ItemsText(items, i) + rest == rest;
    } else {
      var more := ItemsText(items, i + 1) + rest;
      LexItems(items, i + 1, rest);
      LexText(items[i], more);
      var comma := if i == 0 then "" else ",\n";
      Assoc4(comma, Text(items[i]), ItemsText(items, i + 1), rest);
      Assoc4(if i == 0 then [] else [Comma], Tokens(items[i]), ItemsTokens(items, i + 1), Lex(rest));
      if i == 0 {
        assert "" + (Text(items[i]) + more) == Text(items[i]) + more;
        assert [] + (Tokens(items[i]) + Lex(more)) == Tokens(items[i]) + Lex(more);
      } else {
        LexComma(Text(items[i]) + more);
      }
    }
  }

  lemma LexBrace(rest: string)
    ensures Lex("{\n" + rest) == [LeftBracket] + Lex(rest)
  {
  }

  lemma LexBraceEnd(rest: string)
    ensures Lex("\n}\n" + rest) == [RightBracket] + Lex(rest)
  {
    LexBlank('\n', "}\n" + rest);
    LexMark('}', RightBracket, "\n" + rest);
    LexBlank('\n', rest);
    assert "\n}\n" + rest == "\n" + ("}\n" + rest);
    assert "}\n" + rest == "}" + ("\n" + rest);
  }

  lemma LexSquare(rest: string)
    ensures Lex("[\n" + rest) == [LeftSquare] + Lex(rest)
  {
  }

  lemma LexSquareEnd(rest: string)
    ensures Lex("]\n" + rest) == [RightSquare] + Lex(rest)
  {
  }

  lemma LexComma(rest: string)
    ensures Lex(",\n" + rest) == [Comma] + Lex(rest)
  {
  }

  lemma LexColon(rest: string)
    ensures Lex(" : " + rest) == [Colon] + Lex(rest)
  {
    hide Lex;
    assert " : " + rest == " " + (": " + rest);
    LexBlank(' ', ": " + rest);
    assert ": " + rest == ":" + (" " + rest);
    LexMark(':', Colon, " " + rest);
    LexBlank(' ', rest);
  }

  lemma LexVariable(v: CString, rest: string)
    requires QuoteFree(v)
    ensures Lex("\"" + v + ("\" : " + rest)) == [StringTok(v), Colon] + Lex(rest)
  {
    hide Scan;
    var tail := " : " + rest;
    assert "\" : " + rest == "\"" + tail;
    Assoc("\"" + v, "\"", tail);
    LexQuoted(v, tail);
    LexColon(rest);
    Assoc([StringTok(v)], [Colon], Lex(rest));
  }

  // ---------------------------------------------------------------- parsing

  /** The tokens left when the parser stands at item i, its comma already popped. */
  function FromItem(items: seq<Json>, i: nat): seq<Token>
    requires i <= |items|
  {
    if i == |items| then [] else Tokens(items[i]) + ItemsTokens(items, i + 1)
  }

  function RoundedItems(items: seq<Json>): seq<Json>
  {
    seq(|items|, i requires 0 <= i < |items| => Rounded(items[i]))
  }

  lemma FirstToken(t: Json)
    requires Printable(t)
    ensures Tokens(t) != []
    ensures Tokens(t)[0] != RightSquare && Tokens(t)[0] != RightBracket && Tokens(t)[0] != Comma
  {
  }

  lemma ParseSeqStep(v: CString, value: seq<Token>, tree: Json, rest: seq<Token>)
    requires Parse(value + rest) == Parsed(tree, rest)
    requires rest != [] && (rest[0] == Comma || rest[0] == RightBracket)
    ensures ParseSeq([StringTok(v), Colon] + value + rest)
         == Prepend(Assign(v, tree), ParseSeq(if rest[0] == Comma then rest[1..] else rest))
  {
    var tokens := [StringTok(v), Colon] + value + rest;
    Assoc([StringTok(v), Colon], value, rest);
    DropHead([StringTok(v), Colon], value + rest);
    assert tokens[0] == StringTok(v) && tokens[1] == Colon;
  }

  lemma ParseListStep(item: seq<Token>, tree: Json, rest: seq<Token>)
    requires item != [] && item[0] != RightSquare
    requires Parse(item + rest) == Parsed(tree, rest) && rest != []
    ensures ParseList(item + rest) == Prepend(tree, ParseList(if rest[0] == Comma then rest[1..] else rest))
  {
  }

  /** Popping the comma, if there is one, leads from item i to item i + 1. */
  lemma NextItem(items: seq<Json>, i: nat, end: seq<Token>)
    requires i < |items| && AllPrintable(items)
    requires end != [] && (end[0] == RightSquare || end[0] == RightBracket)
    ensures var rest := ItemsTokens(items, i + 1) + end;
            rest != [] && (rest[0] == Comma || rest == end)
            && (if rest[0] == Comma then rest[1..] else rest) == FromItem(items, i + 1) + end
            && FromItem(items, i) + end == Tokens(items[i]) + rest
  {
    var rest := ItemsTokens(items, i + 1) + end;
    Assoc(Tokens(items[i]), ItemsTokens(items, i + 1), end);
    if i + 1 < |items| {
      Assoc4([Comma], Tokens(items[i + 1]), ItemsTokens(items, i + 2), end);
      DropHead([Comma], FromItem(items, i + 1) + end);
    } else {
      assert rest == end;
      assert FromItem(items, i + 1) + end == end;
    }
  }

  ghost predicate AllPrintable(items: seq<Json>)
  {
    forall k :: 0 <= k < |items| ==> Printable(items[k])
  }

  /** The parser takes exactly the tokens of the tree from any list that goes on with no colon. */
  lemma {:induction false} ParseTokens(t: Json, suffix: seq<Token>)
    requires Printable(t)
    requires suffix == [] || suffix[0] != Colon
    ensures Parse(Tokens(t) + suffix) == Parsed(Rounded(t), suffix)
    decreases t
  {
    var tokens := Tokens(t) + suffix;
    match t
    case Seq(items) =>
      ParseSeqItems(items, 0, suffix);
      Wrapped(LeftBracket, items, RightBracket, suffix);
    case List(items) =>
      ParseListItems(items, 0, suffix);
      Wrapped(LeftSquare, items, RightSquare, suffix);
    case Assign(v, e) =>
      FirstToken(e);
      Assoc([StringTok(v), Colon], Tokens(e), suffix);
      DropHead([StringTok(v), Colon], Tokens(e) + suffix);
      ParseTokens(e, suffix);
    case Empty => assert false;
    case _ =>
      assert |Tokens(t)| == 1;
      DropHead(Tokens(t), suffix);
  }

  lemma Wrapped(open: Token, items: seq<Json>, close: Token, suffix: seq<Token>)
    ensures var tokens := [open] + ItemsTokens(items, 0) + [close] + suffix;
            tokens[0] == open && tokens[1..] == FromItem(items, 0) + ([close] + suffix)
    ensures RoundedItems(items)[0..] == RoundedItems(items)
  {
  }

  lemma RoundedFrom(items: seq<Json>, i: nat)
    requires i < |items|
    ensures RoundedItems(items)[i..] == [Rounded(items[i])] + RoundedItems(items)[i + 1..]
  {
  }

  lemma AssignTokens(t: Json)
    requires t.Assign?
    ensures Tokens(t) == [StringTok(t.variable), Colon] + Tokens(t.expression)
    ensures Rounded(t) == Assign(t.variable, Rounded(t.expression))
  {
  }

  lemma {:induction false} ParseSeqItems(items: seq<Json>, i: nat, suffix: seq<Token>)
    requires AllPrintable(items) && forall k :: 0 <= k < |items| ==> items[k].Assign?
    requires i <= |items|
    ensures ParseSeq(FromItem(items, i) + ([RightBracket] + suffix)) == Parsed(RoundedItems(items)[i..], suffix)
    decreases items, |items| - i, 1
  {
    var end := [RightBracket] + suffix;
    if i == |items| {
      assert FromItem(items, i) + end == end;
      assert RoundedItems(items)[i..] == [];
      DropHead([RightBracket], suffix);
    } else {
      ParseSeqFrom(items, i, suffix);
    }
  }

  lemma {:induction false} ParseSeqFrom(items: seq<Json>, i: nat, suffix: seq<Token>)
    requires AllPrintable(items) && forall k :: 0 <= k < |items| ==> items[k].Assign?
    requires i < |items|
    ensures ParseSeq(FromItem(items, i) + ([RightBracket] + suffix)) == Parsed(RoundedItems(items)[i..], suffix)
    decreases items, |items| - i, 0
  {
    hide Parse, ParseSeq, ParseList, Tokens, ItemsTokens, Rounded, RoundedItems, FromItem;
    var end := [RightBracket] + suffix;
    var item := items[i];
    var rest := ItemsTokens(items, i + 1) + end;
    NextItem(items, i, end);
    AssignTokens(item);
    ParseTokens(item.expression, rest);
    ParseSeqStep(item.variable, Tokens(item.expression), Rounded(item.expression), rest);
    ParseSeqItems(items, i + 1, suffix);
    RoundedFrom(items, i);
  }

  lemma {:induction false} ParseListItems(items: seq<Json>, i: nat, suffix: seq<Token>)
    requires AllPrintable(items)
    requires i <= |items|
    ensures ParseList(FromItem(items, i) + ([RightSquare] + suffix)) == Parsed(RoundedItems(items)[i..], suffix)
    decreases items, |items| - i, 1
  {
    var end := [RightSquare] + suffix;
    if i == |items| {
      assert FromItem(items, i) + end == end;
      assert RoundedItems(items)[i..] == [];
      DropHead([RightSquare], suffix);
    } else {
      ParseListFrom(items, i, suffix);
    }
  }

  lemma {:induction false} ParseListFrom(items: seq<Json>, i: nat, suffix: seq<Token>)
    requires AllPrintable(items)
    requires i < |items|
    ensures ParseList(FromItem(items, i) + ([RightSquare] + suffix)) == Parsed(RoundedItems(items)[i..], suffix)
    decreases items, |items| - i, 0
  {
    hide Parse, ParseSeq, ParseList, Tokens, ItemsTokens, Rounded, RoundedItems, FromItem;
    var end := [RightSquare] + suffix;
    var rest := ItemsTokens(items, i + 1) + end;
    NextItem(items, i, end);
    FirstToken(items[i]);
    ParseTokens(items[i], rest);
    ParseListStep(Tokens(items[i]), Rounded(items[i]), rest);
    ParseListItems(items, i + 1, suffix);
    RoundedFrom(items, i);
  }

  // ---------------------------------------------------------------- the round trip

  predicate QuoteFreeTokens(tokens: seq<Token>)
  {
    forall i :: 0 <= i < |tokens| && tokens[i].StringTok? ==> QuoteFree(tokens[i].text)
  }

  predicate QuoteFreeItems(items: seq<Json>)
  {
    forall i :: 0 <= i < |items| ==> QuoteFreeTree(items[i])
  }

  /** The parser invents no strings. */
  lemma {:induction false} ParseQuoteFree(tokens: seq<Token>)
    requires QuoteFreeTokens(tokens)
    ensures Parse(tokens).Parsed? ==> QuoteFreeTree(Parse(tokens).result) && QuoteFreeTokens(Parse(tokens).rest)
    decreases |tokens|, 0
  {
    if tokens != [] {
      if IsNakedAssignment(tokens) {
        ParseQuoteFree(tokens[2..]);
      } else if tokens[0] == LeftBracket {
        ParseSeqQuoteFree(tokens[1..]);
      } else if tokens[0] == LeftSquare {
        ParseListQuoteFree(tokens[1..]);
      }
    }
  }

  lemma {:induction false} ParseSeqQuoteFree(tokens: seq<Token>)
    requires QuoteFreeTokens(tokens)
    ensures ParseSeq(tokens).Parsed? ==>
              QuoteFreeItems(ParseSeq(tokens).result) && QuoteFreeTokens(ParseSeq(tokens).rest)
    decreases |tokens|, 1
  {
    if |tokens| > 1 && tokens[0].StringTok? && tokens[1] == Colon {
      ParseQuoteFree(tokens[2..]);
      var p := Parse(tokens[2..]);
      if p.Parsed? && p.rest != [] {
        ParseSeqQuoteFree(if p.rest[0] == Comma then p.rest[1..] else p.rest);
      }
    }
  }

  lemma {:induction false} ParseListQuoteFree(tokens: seq<Token>)
    requires QuoteFreeTokens(tokens)
    ensures ParseList(tokens).Parsed? ==>
              QuoteFreeItems(ParseList(tokens).result) && QuoteFreeTokens(ParseList(tokens).rest)
    decreases |tokens|, 1
  {
    if tokens != [] && tokens[0] != RightSquare {
      ParseQuoteFree(tokens);
      var p := Parse(tokens);
      if p.Parsed? && p.rest != [] {
        ParseListQuoteFree(if p.rest[0] == Comma then p.rest[1..] else p.rest);
      }
    }
  }

  lemma {:induction false} NoOverrun(t: Json)
    ensures Overrun !in Tokens(t)
    decreases t
  {
    match t
    case Seq(items) => NoOverrunItems(items, 0);
    case List(items) => NoOverrunItems(items, 0);
    case Assign(_, e) => NoOverrun(e);
    case _ =>
  }

  lemma {:induction false} NoOverrunItems(items: seq<Json>, i: nat)
    requires i <= |items|
    ensures Overrun !in ItemsTokens(items, i)
    decreases items, |items| - i
  {
    if i < |items| {
      NoOverrun(items[i]);
      NoOverrunItems(items, i + 1);
    }
  }

  /** Without quotes in its strings, a valid tree is read back with its floats rounded. */
  lemma LoadsRounded(t: Json)
    requires Valid(t) && QuoteFreeTree(t)
    ensures Load(Text(t)) == Loaded(Rounded(t))
  {
    if t.Empty? {
      assert Text(t) == "\n" && Lex("\n") == [];
    } else {
      assert Text(t) + "" == Text(t) && Tokens(t) + [] == Tokens(t);
      LexText(t, "");
      ParseTokens(t, []);
      NoOverrun(t);
    }
  }

  /** A written tree is read back unchanged exactly when no string in it holds a double
      quote and every float in it is a whole number of millionths. */
  lemma RoundTrip(t: Json)
    requires Valid(t)
    ensures Load(Text(t)) == Loaded(t) <==> QuoteFreeTree(t) && SixDecimalTree(t)
  {
    if QuoteFreeTree(t) {
      LoadsRounded(t);
      RoundedFixed(t);
    }
    if Load(Text(t)) == Loaded(t) {
      LexQuoteFree(Text(t));
      ParseQuoteFree(Lex(Text(t)));
    }
  }

  /** A string that holds a quote, and a float of seven decimals, do not come back. */
  lemma NotRestored()
    ensures Load(Text(Str("a\"b"))) != Loaded(Str("a\"b"))
    ensures Load(Text(Float(0.0000001))) != Loaded(Float(0.0000001))
  {
    RoundTrip(Str("a\"b"));
    RoundTrip(Float(0.0000001));
    assert "a\"b"[1] == '"';
  }
}
