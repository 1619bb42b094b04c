/** InitializeFromTokens: the recursive parser that pops a shared token list. */
module JsonParser {
  import opened JsonTree
  import opened JsonLexer

  /** BadToken is the source's exit(-2); PastEnd is front() of an empty list. */
  datatype ParseError = BadToken | PastEnd

  datatype Parsed<+T> = Parsed(result: T, rest: seq<Token>) | Failed(error: ParseError)

  predicate IsNakedAssignment(tokens: seq<Token>)
  {
    |tokens| > 2 && tokens[0].StringTok? && tokens[1] == Colon
  }

  /** The expression at the front of the list and the tokens it leaves behind. */
  function Parse(tokens: seq<Token>): (p: Parsed<Json>)
    ensures p.Parsed? && tokens != [] ==> |p.rest| < |tokens|
    ensures p.Parsed? && tokens == [] ==> p.rest == []
    decreases |tokens|, 0
  {
    if tokens == [] then Parsed(Empty, [])
    else if IsNakedAssignment(tokens) then
      match Parse(tokens[2..])
      case Parsed(value, rest) => Parsed(Assign(tokens[0].text, value), rest)
      case Failed(error) => Failed(error)
    else
      match tokens[0]
      case LeftBracket =>
        (match ParseSeq(tokens[1..])
         case Parsed(items, rest) => Parsed(Seq(items), rest)
         case Failed(error) => Failed(error))
      case LeftSquare =>
        (match ParseList(tokens[1..])
         case Parsed(items, rest) => Parsed(List(items), rest)
         case Failed(error) => Failed(error))
      case StringTok(s) => Parsed(Str(s), tokens[1..])
      case BoolTok(b) => Parsed(Bool(b), tokens[1..])
      case NullTok => Parsed(Null, tokens[1..])
      case IntTok(n) => Parsed(Int(n), tokens[1..])
      case FloatTok(x) => Parsed(Float(x), tokens[1..])
      case _ => Failed(BadToken)
  }

  /** The remaining assignments of a sequence and everything after its '}'. */
  function ParseSeq(tokens: seq<Token>): (p: Parsed<seq<Json>>)
    ensures p.Parsed? ==> |p.rest| < |tokens|
    decreases |tokens|, 1
  {
    if tokens == [] then Failed(PastEnd)
    else if tokens[0] == RightBracket then Parsed([], tokens[1..])
    else if !tokens[0].StringTok? then Failed(BadToken)
    else if |tokens| == 1 then Failed(PastEnd)
    else if tokens[1] != Colon then Failed(BadToken)
    else
      match Parse(tokens[2..])
      case Failed(error) => Failed(error)
      case Parsed(value, rest) =>
        var item := Assign(tokens[0].text, value);
        if rest == [] then Failed(PastEnd)
        else if rest[0] == Comma then Prepend(item, ParseSeq(rest[1..]))
        else if rest[0] == RightBracket then Prepend(item, ParseSeq(rest))
        else Failed(BadToken)
  }

  /** The remaining elements of a list and everything after its ']'. */
  function ParseList(tokens: seq<Token>): (p: Parsed<seq<Json>>)
    ensures p.Parsed? ==> |p.rest| < |tokens|
    decreases |tokens|, 1
  {
    if tokens == [] then Failed(PastEnd)
    else if tokens[0] == RightSquare then Parsed([], tokens[1..])
    else
      match Parse(tokens)
      case Failed(error) => Failed(error)
      case Parsed(item, rest) =>
        if rest == [] then Failed(PastEnd)
        else if rest[0] == Comma then Prepend(item, ParseList(rest[1..]))
        else Prepend(item, ParseList(rest))
  }

  function Prepend(item: Json, p: Parsed<seq<Json>>): (q: Parsed<seq<Json>>)
    ensures p.Parsed? <==> q.Parsed?
    ensures p.Parsed? ==> q.rest == p.rest && q.result == [item] + p.result
  {
    match p
    case Parsed(items, rest) => Parsed([item] + items, rest)
    case Failed(error) => Failed(error)
  }

  function PrependAll(items: seq<Json>, p: Parsed<seq<Json>>): Parsed<seq<Json>>
  {
    match p
    case Parsed(more, rest) => Parsed(items + more, rest)
    case Failed(error) => Failed(error)
  }

  lemma PrependAllSteps(items: seq<Json>, p: Parsed<seq<Json>>)
    ensures PrependAll([], p) == p
    ensures PrependAll(items, Failed(BadToken)) == Failed(BadToken)
    ensures forall item :: PrependAll(items, Prepend(item, p)) == PrependAll(items + [item], p)
  {
    forall item ensures PrependAll(items, Prepend(item, p)) == PrependAll(items + [item], p) {
      if p.Parsed? {
        assert items + ([item] + p.result) == items + [item] + p.result;
      }
    }
    if p.Parsed? {
      assert [] + p.result == p.result;
    }
  }

  // ---------------------------------------------------------------- the methods

  datatype Outcome<+T> = Done(value: T) | Stopped(error: ParseError)

  /** What a method leaves: its outcome and, when it did not stop, the tokens. */
  predicate Agrees<T(==)>(outcome: Outcome<T>, left: seq<Token>, p: Parsed<T>)
  {
    match outcome
    case Done(value) => p == Parsed(value, left)
    case Stopped(error) => p == Failed(error)
  }

  /** The std::list the whole recursion pops from. */
  class TokenList {
    var tokens: seq<Token>

    constructor (initial: seq<Token>)
      ensures tokens == initial
    {
      tokens := initial;
    }

    method PopFront()
      requires tokens != []
      modifies this
      ensures tokens == old(tokens)[1..]
    {
      tokens := tokens[1..];
    }

    method InitializeFromTokens() returns (e: Outcome<Json>)
      modifies this
      ensures Agrees(e, tokens, Parse(old(tokens)))
      ensures |tokens| <= |old(tokens)|
      decreases |tokens|, 0
    {
      if tokens == [] {
        return Done(Empty);
      }
      if IsNakedAssignment(tokens) {
        var variable := tokens[0].text;
        PopFront();
        PopFront();
        assert tokens == old(tokens)[2..];
        var value := InitializeFromTokens();
        match value
        case Done(v) => return Done(Assign(variable, v));
        case Stopped(error) => return Stopped(error);
      }
      var first := tokens[0];
      match first
      case LeftBracket =>
        PopFront();
        var items := SeqItems();
        match items {
          case Done(v) => e := Done(Seq(v));
          case Stopped(error) => e := Stopped(error);
        }
      case LeftSquare =>
        PopFront();
        var items := ListItems();
        match items {
          case Done(v) => e := Done(List(v));
          case Stopped(error) => e := Stopped(error);
        }
      case StringTok(s) => PopFront(); e := Done(Str(s));
      case BoolTok(b) => PopFront(); e := Done(Bool(b));
      case NullTok => PopFront(); e := Done(Null);
      case IntTok(n) => PopFront(); e := Done(Int(n));
      case FloatTok(x) => PopFront(); e := Done(Float(x));
      case _ => e := Stopped(BadToken);
    }

    /** The do-while loop of the '{' case. */
    method SeqItems() returns (e: Outcome<seq<Json>>)
      modifies this
      ensures Agrees(e, tokens, ParseSeq(old(tokens)))
      ensures |tokens| <= |old(tokens)|
      decreases |tokens|, 1
    {
      var items := [];
      PrependAllSteps(items, ParseSeq(tokens));
      while true
        invariant |tokens| <= |old(tokens)|
        invariant ParseSeq(old(tokens)) == PrependAll(items, ParseSeq(tokens))
        decreases |tokens|
      {
        if tokens == [] {
          return Stopped(PastEnd);
        }
        if tokens[0] == RightBracket {
          break;
        }
        if !tokens[0].StringTok? {
          return Stopped(BadToken);
        }
        ghost var before := tokens;
        var variable := tokens[0].text;
        PopFront();
        if tokens == [] {
          return Stopped(PastEnd);
        }
        if tokens[0] != Colon {
          return Stopped(BadToken);
        }
        PopFront();
        assert tokens == before[2..];
        var value := InitializeFromTokens();
        if value.Stopped? {
          return Stopped(value.error);
        }
        if tokens == [] {
          return Stopped(PastEnd);
        }
        if tokens[0] == Comma {
          PopFront();
        } else if tokens[0] != RightBracket {
          return Stopped(BadToken);
        }
        PrependAllSteps(items, ParseSeq(tokens));
        items := items + [Assign(variable, value.value)];
      }
      PopFront();
      assert items + [] == items;
      e := Done(items);
    }

    /** The while loop of the '[' case. */
    method ListItems() returns (e: Outcome<seq<Json>>)
      modifies this
      ensures Agrees(e, tokens, ParseList(old(tokens)))
      ensures |tokens| <= |old(tokens)|
      decreases |tokens|, 1
    {
      var items := [];
      PrependAllSteps(items, ParseList(tokens));
      while tokens != [] && tokens[0] != RightSquare
        invariant |tokens| <= |old(tokens)|
        invariant ParseList(old(tokens)) == PrependAll(items, ParseList(tokens))
        decreases |tokens|
      {
        var item := InitializeFromTokens();
        if item.Stopped? {
          return Stopped(item.error);
        }
        if tokens == [] {
          return Stopped(PastEnd);
        }
        if tokens[0] == Comma {
          PopFront();
        }
        PrependAllSteps(items, ParseList(tokens));
        items := items + [item.value];
      }
      if tokens == [] {
        return Stopped(PastEnd);
      }
      PopFront();
      assert items + [] == items;
      e := Done(items);
    }
  }
}
