/** The language of the parser: which token lists spell which trees, stated on the trees. */
module JsonGrammar {
  import opened JsonTree
  import opened JsonLexer
  import opened JsonParser

  /** The tokens spell the tree, commas between the elements of a list being optional and one
      comma too many at an end allowed. */
  ghost predicate Spells(tokens: seq<Token>, t: Json)
    decreases |tokens|, 0
  {
    match t
    case Str(s) => tokens == [StringTok(s)]
    case Int(n) => tokens == [IntTok(n)]
    case Float(x) => tokens == [FloatTok(x)]
    case Bool(b) => tokens == [BoolTok(b)]
    case Null => tokens == [NullTok]
    case Empty => false
    case Assign(v, e) => |tokens| > 2 && tokens[0] == StringTok(v) && tokens[1] == Colon && Spells(tokens[2..], e)
    case Seq(items) => tokens != [] && tokens[0] == LeftBracket && SpellsSeq(tokens[1..], items)
    case List(items) => tokens != [] && tokens[0] == LeftSquare && SpellsList(tokens[1..], items)
  }

  /** What follows the '{' of a sequence: assignments, a comma between any two, and '}'. */
  ghost predicate SpellsSeq(tokens: seq<Token>, items: seq<Json>)
    decreases |tokens|, 2
  {
    if items == [] then tokens == [RightBracket] else exists n :: SeqStep(tokens, items, n)
  }

  /** The first n tokens spell the first assignment. */
  ghost predicate SeqStep(tokens: seq<Token>, items: seq<Json>, n: int)
    requires items != []
    decreases |tokens|, 1
  {
    && 0 < n < |tokens| && items[0].Assign? && Spells(tokens[..n], items[0])
    && if tokens[n] == Comma then SpellsSeq(tokens[n + 1..], items[1..])
       else |items| == 1 && tokens[n..] == [RightBracket]
  }

  /** What follows the '[' of a list: elements, perhaps a comma behind each, and ']'. */
  ghost predicate SpellsList(tokens: seq<Token>, items: seq<Json>)
    decreases |tokens|, 2
  {
    if items == [] then tokens == [RightSquare] else exists n :: ListStep(tokens, items, n)
  }

  ghost predicate ListStep(tokens: seq<Token>, items: seq<Json>, n: int)
    requires items != []
    decreases |tokens|, 1
  {
    0 < n < |tokens| && Spells(tokens[..n], items[0]) && SpellsList(Behind(tokens, n), items[1..])
  }

  /** The tokens from n on, without a comma there. */
  function Behind(tokens: seq<Token>, n: nat): (r: seq<Token>)
    requires n < |tokens|
    ensures |r| <= |tokens| - n
  {
    if tokens[n] == Comma then tokens[n + 1..] else tokens[n..]
  }

  predicate NoColon(rest: seq<Token>) { rest == [] || rest[0] != Colon }

  // ---------------------------------------------------------------- what is spelled is parsed

  lemma SpellsFirst(tokens: seq<Token>, t: Json)
    requires Spells(tokens, t)
    ensures tokens != [] && tokens[0] !in {Colon, Comma, RightBracket, RightSquare, Garbage, Overrun}
  {
  }

  lemma ListFirst(tokens: seq<Token>, items: seq<Json>)
    requires SpellsList(tokens, items)
    ensures tokens != [] && tokens[0] != Colon
  {
    if items != [] {
      var n :| ListStep(tokens, items, n);
      SpellsFirst(tokens[..n], items[0]);
    }
  }

  lemma {:induction false} ParseSpelled(front: seq<Token>, t: Json, rest: seq<Token>)
    requires Spells(front, t) && NoColon(rest)
    ensures Parse(front + rest) == Parsed(t, rest)
    decreases |front|, 0
  {
    var all := front + rest;
    match t
    case Assign(v, e) =>
      assert all[2..] == front[2..] + rest;
      ParseSpelled(front[2..], e, rest);
    case Seq(items) =>
      assert all[1..] == front[1..] + rest;
      ParseSpelledSeq(front[1..], items, rest);
    case List(items) =>
      assert all[1..] == front[1..] + rest;
      ParseSpelledList(front[1..], items, rest);
    case Empty =>
    case _ =>
      assert all[1..] == rest;
      assert |all| > 1 ==> all[1] == rest[0];
  }

  /** One round of the parser's loops. */
  lemma SeqRound(tokens: seq<Token>, item: Json, rest: seq<Token>)
    requires |tokens| >= 2 && tokens[0].StringTok? && tokens[1] == Colon && item.Assign? && rest != []
    requires item.variable == tokens[0].text && Parse(tokens[2..]) == Parsed(item.expression, rest)
    requires rest[0] == Comma || rest[0] == RightBracket
    ensures ParseSeq(tokens) == Prepend(item, ParseSeq(Behind(rest, 0)))
  {
    assert rest[0..] == rest;
  }

  lemma ListRound(tokens: seq<Token>, item: Json, rest: seq<Token>)
    requires tokens != [] && tokens[0] != RightSquare && Parse(tokens) == Parsed(item, rest) && rest != []
    ensures ParseList(tokens) == Prepend(item, ParseList(Behind(rest, 0)))
  {
    assert rest[0..] == rest;
  }

  /** A list of tokens cut at n, with more behind it. */
  lemma Cut(front: seq<Token>, n: nat, rest: seq<Token>)
    requires 0 < n < |front|
    ensures front + rest == front[..n] + (front[n..] + rest)
    ensures (front + rest)[0] == front[..n][0] && (front[n..] + rest)[0] == front[n]
    ensures Behind(front[n..] + rest, 0) == Behind(front, n) + rest
  {
    var tail := front[n..] + rest;
    assert tail[0..] == tail && tail[1..] == front[n + 1..] + rest;
  }

  lemma {:induction false} ParseSpelledSeq(front: seq<Token>, items: seq<Json>, rest: seq<Token>)
    requires SpellsSeq(front, items)
    ensures ParseSeq(front + rest) == Parsed(items, rest)
    decreases |front|, 1
  {
    if items == [] {
      assert (front + rest)[1..] == rest;
    } else {
      var n :| SeqStep(front, items, n);
      ParseSpelledStep(front, items, n, rest);
    }
  }

  lemma {:induction false} ParseSpelledStep(front: seq<Token>, items: seq<Json>, n: nat, rest: seq<Token>)
    requires items != [] && SeqStep(front, items, n)
    ensures ParseSeq(front + rest) == Parsed(items, rest)
    decreases |front|, 0
  {
    hide Parse, ParseSeq, SpellsSeq, SeqStep, Behind, Spells;
    SeqParts(front, items, n);
    var all, value, tail := front + rest, front[2..n], front[n..] + rest;
    Cut(front, n, rest);
    assert all[0] == front[0] && all[1] == front[1];
    assert all[2..] == value + tail;
    ParseSpelled(value, items[0].expression, tail);
    SeqRound(all, items[0], tail);
    ParseSpelledSeq(Behind(front, n), items[1..], rest);
    assert items == [items[0]] + items[1..];
  }

  lemma SeqParts(front: seq<Token>, items: seq<Json>, n: nat)
    requires items != [] && SeqStep(front, items, n)
    ensures 2 < n < |front| && items[0].Assign? && front[0] == StringTok(items[0].variable) && front[1] == Colon
    ensures Spells(front[2..n], items[0].expression) && (front[n] == Comma || front[n] == RightBracket)
    ensures SpellsSeq(Behind(front, n), items[1..])
  {
    assert Spells(front[..n], items[0]) && front[..n][2..] == front[2..n];
  }

  lemma {:induction false} ParseSpelledList(front: seq<Token>, items: seq<Json>, rest: seq<Token>)
    requires SpellsList(front, items)
    ensures ParseList(front + rest) == Parsed(items, rest)
    decreases |front|, 1
  {
    if items == [] {
      assert (front + rest)[1..] == rest;
    } else {
      var n :| ListStep(front, items, n);
      var tail := front[n..] + rest;
      assert SpellsList(Behind(front, n), items[1..]);
      hide Parse, ParseList, SpellsList, Spells;
      SpellsFirst(front[..n], items[0]);
      ListFirst(Behind(front, n), items[1..]);
      Cut(front, n, rest);
      NoColonBehind(front, n);
      ParseSpelled(front[..n], items[0], tail);
      ListRound(front + rest, items[0], tail);
      ParseSpelledList(Behind(front, n), items[1..], rest);
      assert items == [items[0]] + items[1..];
    }
  }

  lemma NoColonBehind(front: seq<Token>, n: nat)
    requires n < |front| && Behind(front, n) != [] && Behind(front, n)[0] != Colon
    ensures front[n] != Colon
  {
  }

  // ---------------------------------------------------------------- what is parsed is spelled

  /** The tokens taken from the front. */
  function Taken(tokens: seq<Token>, rest: seq<Token>): seq<Token>
    requires |rest| <= |tokens|
  {
    tokens[..|tokens| - |rest|]
  }

  lemma {:induction false} ParsedSpells(tokens: seq<Token>)
    requires Parse(tokens).Parsed? && tokens != []
    ensures var p := Parse(tokens); tokens == Taken(tokens, p.rest) + p.rest && Spells(Taken(tokens, p.rest), p.result)
    decreases |tokens|, 0
  {
    var p := Parse(tokens);
    if IsNakedAssignment(tokens) {
      var value := Parse(tokens[2..]);
      assert p == Parsed(Assign(tokens[0].text, value.result), value.rest);
      hide Parse, Spells;
      ParsedSpells(tokens[2..]);
      AssignSpelled(tokens, value.rest, p.result);
    } else if tokens[0] == LeftBracket {
      var items := ParseSeq(tokens[1..]);
      assert p == Parsed(Seq(items.result), items.rest);
      hide Parse, ParseSeq, SpellsSeq;
      ParsedSpellsSeq(tokens[1..]);
      TakenFirst(tokens, items.rest);
    } else if tokens[0] == LeftSquare {
      var items := ParseList(tokens[1..]);
      assert p == Parsed(List(items.result), items.rest);
      hide Parse, ParseList, SpellsList;
      ParsedSpellsList(tokens[1..]);
      TakenFirst(tokens, items.rest);
    } else {
      TakenOne(tokens);
    }
  }

  lemma TakenFirst(tokens: seq<Token>, rest: seq<Token>)
    requires |rest| + 1 < |tokens| && tokens[1..] == Taken(tokens[1..], rest) + rest
    ensures var taken := Taken(tokens, rest);
            taken != [] && taken[0] == tokens[0] && taken[1..] == Taken(tokens[1..], rest) && tokens == taken + rest
  {
    TakenFrom(tokens, 1, rest);
  }

  lemma TakenOne(tokens: seq<Token>)
    requires tokens != []
    ensures Taken(tokens, tokens[1..]) == [tokens[0]] && tokens == [tokens[0]] + tokens[1..]
  {
  }

  /** The rest of a rest is cut off from the end. */
  lemma TakenBehind(tokens: seq<Token>, middle: seq<Token>, rest: seq<Token>)
    requires middle != [] && |middle| < |tokens| && tokens == Taken(tokens, middle) + middle
    requires var after := Behind(middle, 0); |rest| < |after| && after == Taken(after, rest) + rest
    ensures var n, taken := |tokens| - |middle|, Taken(tokens, rest);
            && 0 < n < |taken| && taken[..n] == Taken(tokens, middle) && taken[n] == middle[0]
            && Behind(taken, n) == Taken(Behind(middle, 0), rest) && tokens == taken + rest
  {
    var n, taken := |tokens| - |middle|, Taken(tokens, rest);
    var m := if middle[0] == Comma then n + 1 else n;
    TakenMiddle(tokens, middle);
    TakenFrom(tokens, m, rest);
    assert middle[0..] == middle;
    assert Behind(taken, n) == taken[m..];
  }

  lemma TakenMiddle(tokens: seq<Token>, middle: seq<Token>)
    requires middle != [] && |middle| < |tokens| && tokens == Taken(tokens, middle) + middle
    ensures var n := |tokens| - |middle|;
            tokens[n] == middle[0] && tokens[n..] == middle && tokens[n + 1..] == middle[1..]
  {
  }

  lemma TakenFrom(tokens: seq<Token>, m: nat, rest: seq<Token>)
    requires m <= |tokens| && |rest| < |tokens[m..]| && tokens[m..] == Taken(tokens[m..], rest) + rest
    ensures var taken := Taken(tokens, rest);
            m < |taken| && taken[m..] == Taken(tokens[m..], rest) && tokens == taken + rest
    ensures forall i :: 0 <= i < m ==> Taken(tokens, rest)[i] == tokens[i]
  {
    assert tokens == tokens[..m] + tokens[m..];
    assert tokens == (tokens[..m] + Taken(tokens[m..], rest)) + rest;
  }

  lemma {:induction false} ParsedSpellsSeq(tokens: seq<Token>)
    requires ParseSeq(tokens).Parsed?
    ensures var p := ParseSeq(tokens);
            tokens == Taken(tokens, p.rest) + p.rest && SpellsSeq(Taken(tokens, p.rest), p.result)
    decreases |tokens|, 1
  {
    var p := ParseSeq(tokens);
    if tokens[0] == RightBracket {
      assert Taken(tokens, p.rest) == [tokens[0]];
    } else {
      var value := Parse(tokens[2..]);
      var item, after := Assign(tokens[0].text, value.result), Behind(value.rest, 0);
      SeqRound(tokens, item, value.rest);
      hide Parse, ParseSeq;
      ParsedSpells(tokens[2..]);
      ParsedSpellsSeq(after);
      assert p.result[1..] == ParseSeq(after).result;
      AssignSpelled(tokens, value.rest, item);
      TakenBehind(tokens, value.rest, p.rest);
      SeqJoined(Taken(tokens, p.rest), p.result, |tokens| - |value.rest|);
    }
  }

  lemma AssignSpelled(tokens: seq<Token>, rest: seq<Token>, item: Json)
    requires |tokens| >= 2 && |rest| < |tokens| - 2 && tokens[2..] == Taken(tokens[2..], rest) + rest
    requires item.Assign? && tokens[0] == StringTok(item.variable) && tokens[1] == Colon
    requires Spells(Taken(tokens[2..], rest), item.expression)
    ensures Spells(Taken(tokens, rest), item) && tokens == Taken(tokens, rest) + rest
  {
    assert Taken(tokens, rest)[2..] == Taken(tokens[2..], rest);
    assert tokens == tokens[..2] + tokens[2..];
  }

  lemma SeqJoined(taken: seq<Token>, items: seq<Json>, n: nat)
    requires 0 < n < |taken| && items != [] && items[0].Assign? && Spells(taken[..n], items[0])
    requires taken[n] == Comma || taken[n] == RightBracket
    requires SpellsSeq(Behind(taken, n), items[1..])
    ensures SpellsSeq(taken, items)
  {
    if taken[n] == RightBracket && items[1..] != [] {
      var m :| SeqStep(taken[n..], items[1..], m);
      SpellsFirst(taken[n..][..m], items[1]);
      assert false;
    }
    assert SeqStep(taken, items, n);
  }

  lemma {:induction false} ParsedSpellsList(tokens: seq<Token>)
    requires ParseList(tokens).Parsed?
    ensures var p := ParseList(tokens);
            tokens == Taken(tokens, p.rest) + p.rest && SpellsList(Taken(tokens, p.rest), p.result)
    decreases |tokens|, 1
  {
    var p := ParseList(tokens);
    if tokens[0] == RightSquare {
      assert Taken(tokens, p.rest) == [tokens[0]];
    } else {
      var item := Parse(tokens);
      var after := Behind(item.rest, 0);
      ListRound(tokens, item.result, item.rest);
      hide Parse, ParseList, Spells;
      ParsedSpells(tokens);
      ParsedSpellsList(after);
      assert p.result[1..] == ParseList(after).result;
      TakenBehind(tokens, item.rest, p.rest);
      assert ListStep(Taken(tokens, p.rest), p.result, |tokens| - |item.rest|);
    }
  }

  /** The parser takes a tree from the front of a token list, and leaves a rest that goes on with
      no colon, if and only if the front spells the tree. */
  lemma ParseExact(front: seq<Token>, t: Json, rest: seq<Token>)
    requires NoColon(rest) && front != []
    ensures Parse(front + rest) == Parsed(t, rest) <==> Spells(front, t)
  {
    if Spells(front, t) {
      ParseSpelled(front, t, rest);
    }
    if Parse(front + rest) == Parsed(t, rest) {
      ParsedSpells(front + rest);
      assert Taken(front + rest, rest) == front;
    }
  }
}
