/** DBASE: records of named values, kept in a file of bracketed lines. */
module Dbases {
  import opened Decimal
  import opened Sequences
  import JsonLexer
  import JsonPrinter
  import GenMessages
  import opened Wrappers

  type Int32 = x: int | -0x8000_0000 <= x < 0x8000_0000

  datatype Value = Int(i: Int32) | Double(d: real) | Str(s: string)

  datatype Element = Element(name: string, value: Value)

  datatype Record = Record(number: int, dirty: bool, elements: seq<Element>)

  // ---------------------------------------------------------------- writing

  function TypeLetter(v: Value): char
  {
    match v case Int(_) => 'I' case Double(_) => 'D' case Str(_) => 'S'
  }

  function ValueText(v: Value): string
  {
    match v case Int(i) => JsonPrinter.IntText(i) case Double(d) => Fixed(d) case Str(s) => s
  }

  function Line(name: string, letter: char, text: string): string
  {
    "[" + name + "][" + [letter] + "][" + text + "]\n"
  }

  function ElementLine(e: Element): string { Line(e.name, TypeLetter(e.value), ValueText(e.value)) }

  function ElementsText(es: seq<Element>): string
  {
    if es == [] then "" else ElementLine(es[0]) + ElementsText(es[1..])
  }

  const RECORD_LINE: string := "[RECORD]\n"

  /** What close writes. */
  function Text(records: seq<Record>): string
  {
    if records == [] then "" else RECORD_LINE + ElementsText(records[0].elements) + Text(records[1..])
  }

  // ---------------------------------------------------------------- reading

  const BUFFER: nat := 4096

  /** How much of the text one fgets into the buffer takes. */
  function LineLength(s: string, room: nat): (n: nat)
    ensures n <= |s| && n <= room && (s != "" && room > 0 ==> n > 0)
  {
    if s == "" || room == 0 then 0 else if s[0] == '\n' then 1 else 1 + LineLength(s[1..], room - 1)
  }

  predicate IsBracket(c: char) { c == '[' || c == ']' }

  function Brackets(s: string): nat
  {
    if s == "" then 0 else Brackets(s[..|s| - 1]) + if IsBracket(s[|s| - 1]) then 1 else 0
  }

  /** Length of the text before the first closing bracket, or of all of it. */
  function WordLength(s: string): (n: nat)
    ensures n <= |s| && (n < |s| ==> s[n] == ']') && forall i :: 0 <= i < n ==> s[i] != ']'
  {
    if s == "" || s[0] == ']' then 0 else 1 + WordLength(s[1..])
  }

  /** One step of bracket_split: a word and what stands behind its closing bracket. */
  function SplitWord(s: string): Option<(string, string)>
  {
    if s == "" || s[0] != '[' then None
    else
      var n := WordLength(s[1..]);
      Some((s[1..1 + n], if n + 1 < |s| then s[n + 2..] else ""))
  }

  function SkipSpaces(s: string): string
  {
    if s != "" && JsonLexer.IsSpace(s[0]) then SkipSpaces(s[1..]) else s
  }

  /** strtod and atoi */
  function ToDouble(s: string): real { JsonLexer.Atof(SkipSpaces(s)) }

  function ToInt(s: string): Int32 { GenMessages.ToInt(JsonLexer.Atol(SkipSpaces(s))) }

  /** The element of a line with six brackets; None where the words or the type are not as close
      writes them and the source goes on with pointers or a type it has not set. */
  function ParseElement(line: string): Option<Element>
  {
    match SplitWord(line)
    case None => None
    case Some((name, rest)) =>
      match SplitWord(rest)
      case None => None
      case Some((kind, last)) =>
        match SplitWord(last)
        case None => None
        case Some((text, _)) =>
          if kind == "S" then Some(Element(name, Str(text)))
          else if kind == "D" then Some(Element(name, Double(ToDouble(text))))
          else if kind == "I" then Some(Element(name, Int(ToInt(text))))
          else None
  }

  datatype Loaded = Loaded(records: seq<Record>) | Undefined

  function AddElement(records: seq<Record>, e: Element): seq<Record>
    requires records != []
  {
    var n := |records| - 1;
    records[n := records[n].(elements := records[n].elements + [e])]
  }

  function LoadLine(line: string, records: seq<Record>): Loaded
  {
    var count := Brackets(line);
    if count == 2 then Loaded(if "[RECORD]" <= line then records + [Record(|records|, false, [])] else records)
    else if count == 6 then
      match ParseElement(line)
      case None => Undefined
      case Some(e) => if records == [] then Undefined else Loaded(AddElement(records, e))
    else Loaded(records)
  }

  /** The reading loop of the constructor. */
  function Load(s: string, records: seq<Record>): Loaded
    decreases |s|
  {
    if s == "" then Loaded(records)
    else
      var n := LineLength(s, BUFFER - 1);
      match LoadLine(s[..n], records)
      case Undefined => Undefined
      case Loaded(r) => Load(s[n..], r)
  }

  // ---------------------------------------------------------------- what survives

  predicate BracketFree(s: string) { forall i :: 0 <= i < |s| ==> !IsBracket(s[i]) }

  predicate OneLine(s: string) { forall i :: 0 <= i < |s| ==> s[i] != '\n' }

  /** Text the line format is meant for: no newline inside, and a line (its newline aside) that
      fits the buffer. */
  predicate Fits(e: Element)
  {
    OneLine(e.name) && OneLine(ValueText(e.value)) && |ElementLine(e)| <= BUFFER
  }

  predicate Survives(e: Element) { BracketFree(e.name) && BracketFree(ValueText(e.value)) }

  function Rounded(e: Element): Element
  {
    if e.value.Double? then e.(value := Double(SixDecimals(e.value.d))) else e
  }

  function Kept(es: seq<Element>): seq<Element>
  {
    if es == [] then [] else (if Survives(es[0]) then [Rounded(es[0])] else []) + Kept(es[1..])
  }

  /** The records of a file written by close, when it is read again. */
  function Reloaded(records: seq<Record>, from: nat): seq<Record>
  {
    if records == [] then []
    else [Record(from, false, Kept(records[0].elements))] + Reloaded(records[1..], from + 1)
  }

  ghost predicate AllFit(records: seq<Record>)
  {
    forall i :: 0 <= i < |records| ==> ElementsFit(records[i].elements)
  }

  ghost predicate ElementsFit(es: seq<Element>) { forall j :: 0 <= j < |es| ==> Fits(es[j]) }

  // ---------------------------------------------------------------- one line

  lemma {:induction false} BracketsAppend(a: string, b: string)
    ensures Brackets(a + b) == Brackets(a) + Brackets(b)
    decreases |b|
  {
    if b == "" {
      assert a + b == a;
    } else {
      assert (a + b)[..|a + b| - 1] == a + b[..|b| - 1];
      BracketsAppend(a, b[..|b| - 1]);
    }
  }

  lemma {:induction false} BracketsNone(s: string)
    ensures Brackets(s) == 0 <==> BracketFree(s)
  {
    if s != "" {
      BracketsNone(s[..|s| - 1]);
      assert s == s[..|s| - 1] + [s[|s| - 1]];
    }
  }

  /** A written line has six brackets exactly when its name and value have none. */
  lemma LineBrackets(name: string, letter: char, text: string)
    requires !IsBracket(letter)
    ensures Brackets(Line(name, letter, text)) == 6 + Brackets(name) + Brackets(text)
  {
    hide Brackets;
    BracketsAppend("[" + name + "][" + [letter] + "][" + text, "]\n");
    BracketsAppend("[" + name + "][" + [letter] + "][", text);
    BracketsAppend("[" + name + "][" + [letter], "][");
    BracketsAppend("[" + name + "][", [letter]);
    BracketsAppend("[" + name, "][");
    BracketsAppend("[", name);
    Marks(letter);
  }

  lemma Marks(letter: char)
    requires !IsBracket(letter)
    ensures Brackets("[") == 1 && Brackets("][") == 2 && Brackets("]\n") == 1 && Brackets([letter]) == 0
  {
  }

  lemma SplitWordIs(word: string, rest: string)
    requires BracketFree(word)
    ensures SplitWord("[" + word + "]" + rest) == Some((word, rest))
  {
    var s := "[" + word + "]" + rest;
    var t := s[1..];
    assert t == word + "]" + rest;
    assert forall i :: 0 <= i < |word| ==> t[i] == word[i];
    assert t[|word|] == ']';
    assert WordLength(t) == |word|;
    assert s[1..1 + |word|] == word && s[|word| + 2..] == rest;
  }

  /** The three words of a line, whether or not its newline came with it. */
  lemma ParseLine(name: string, letter: char, text: string, end: string)
    requires BracketFree(name) && BracketFree(text) && !IsBracket(letter)
    ensures var last := "[" + text + "]" + end;
            var rest := "[" + [letter] + "]" + last;
            && SplitWord("[" + name + "]" + rest) == Some((name, rest))
            && SplitWord(rest) == Some(([letter], last))
            && SplitWord(last) == Some((text, end))
  {
    hide SplitWord;
    var last := "[" + text + "]" + end;
    SplitWordIs(name, "[" + [letter] + "]" + last);
    SplitWordIs([letter], last);
    SplitWordIs(text, end);
  }

  lemma LineWords(name: string, letter: char, text: string)
    ensures var body := "[" + name + "][" + [letter] + "][" + text + "]";
            && Line(name, letter, text) == body + "\n"
            && body == "[" + name + "]" + ("[" + [letter] + "]" + ("[" + text + "]" + ""))
            && body + "\n" == "[" + name + "]" + ("[" + [letter] + "]" + ("[" + text + "]" + "\n"))
  {
  }

  /** strtod reads back what "%lf" has kept. */
  lemma DoubleReads(x: real)
    ensures ToDouble(Fixed(x)) == SixDecimals(x)
  {
    hide JsonLexer.Atof, Decimal.Value, Digits, Padded;
    var whole, frac := Digits(Micros(x) / MILLION), Padded(Micros(x) % MILLION, 6);
    assert Pow10(6) == MILLION;
    PaddedFits(Micros(x) % MILLION, 6);
    JsonPrinter.FixedValue(x);
    JsonPrinter.PointNumberRead(x < 0.0, whole, frac, "");
    Assoc4(if x < 0.0 then "-" else "", whole, ".", frac);
    assert Fixed(x) == (if x < 0.0 then "-" else "") + whole + ("." + frac + "");
    assert SkipSpaces(Fixed(x)) == Fixed(x);
  }

  lemma IntReads(i: Int32)
    ensures ToInt(JsonPrinter.IntText(i)) == i
  {
    hide DigitsEnd, Decimal.Value, Digits;
    var digits := Digits(JsonPrinter.Magnitude(i));
    JsonPrinter.ScanSignedDigits(i < 0, digits, "");
    assert JsonPrinter.IntText(i) == (if i < 0 then "-" else "") + digits + "";
    assert SkipSpaces(JsonPrinter.IntText(i)) == JsonPrinter.IntText(i);
    assert JsonLexer.Atol(JsonPrinter.IntText(i)) == i;
  }

  /** A line of bracket-free words parses to its element, rounded to six decimals. */
  lemma ParseBack(e: Element, end: string)
    requires Survives(e)
    ensures var name, letter, text := e.name, TypeLetter(e.value), ValueText(e.value);
            ParseElement("[" + name + "]" + ("[" + [letter] + "]" + ("[" + text + "]" + end))) == Some(Rounded(e))
  {
    hide SplitWord, ToDouble, ToInt, Fixed, BracketFree;
    ParseLine(e.name, TypeLetter(e.value), ValueText(e.value), end);
    match e.value
    case Int(i) => IntReads(i);
    case Double(d) => DoubleReads(d);
    case Str(_) =>
  }

  /** A written line as the constructor takes it, with or without its newline. */
  lemma LoadWritten(e: Element, records: seq<Record>, newline: bool)
    requires records != []
    ensures var line := ElementLine(e);
            LoadLine(if newline then line else line[..|line| - 1], records)
            == Loaded(if Survives(e) then AddElement(records, Rounded(e)) else records)
  {
    hide Brackets, ParseElement, BracketFree, ValueText;
    var name, letter, text := e.name, TypeLetter(e.value), ValueText(e.value);
    var body := "[" + name + "][" + [letter] + "][" + text + "]";
    LineWords(name, letter, text);
    assert ElementLine(e)[..|ElementLine(e)| - 1] == body;
    LineBrackets(name, letter, text);
    BracketsAppend(body, "\n");
    NoBracket();
    BracketsNone(name);
    BracketsNone(text);
    if Survives(e) {
      ParseBack(e, if newline then "\n" else "");
    }
  }

  lemma NoBracket()
    ensures Brackets("\n") == 0
  {
  }

  lemma {:induction false} LineLengthIs(body: string, rest: string, room: nat)
    requires OneLine(body)
    ensures LineLength(body + "\n" + rest, room) == if |body| < room then |body| + 1 else room
    decreases |body|
  {
    var s := body + "\n" + rest;
    if body != "" && room > 0 {
      assert s[1..] == body[1..] + "\n" + rest;
      LineLengthIs(body[1..], rest, room - 1);
    }
  }

  lemma LoadStep(s: string, line: string, rest: string, records: seq<Record>, after: seq<Record>)
    requires s == line + rest && line != "" && LineLength(s, BUFFER - 1) == |line|
    requires LoadLine(line, records) == Loaded(after)
    ensures Load(s, records) == Load(rest, after)
  {
  }

  /** A written element comes back, or its line is passed over.  A line whose newline alone does
      not fit the buffer is read in two goes, the second of them an empty line. */
  lemma LoadElement(e: Element, rest: string, records: seq<Record>)
    requires Fits(e) && records != []
    ensures Load(ElementLine(e) + rest, records)
            == Load(rest, if Survives(e) then AddElement(records, Rounded(e)) else records)
  {
    hide Survives, Rounded, AddElement, LoadLine, LineLength, Load;
    var line := ElementLine(e);
    var body := line[..|line| - 1];
    var after := if Survives(e) then AddElement(records, Rounded(e)) else records;
    LoadWritten(e, records, true);
    LoadWritten(e, records, false);
    BodyOneLine(e);
    Assoc(body, "\n", rest);
    LineLengthIs(body, rest, BUFFER - 1);
    if |line| < BUFFER {
      LoadStep(line + rest, line, rest, records, after);
    } else {
      LoadStep(line + rest, body, "\n" + rest, records, after);
      EmptyLine(rest, after);
    }
  }

  lemma BodyOneLine(e: Element)
    requires Fits(e)
    ensures var line := ElementLine(e); OneLine(line[..|line| - 1]) && line == line[..|line| - 1] + "\n"
  {
  }

  lemma EmptyLine(rest: string, records: seq<Record>)
    ensures Load("\n" + rest, records) == Load(rest, records)
  {
    LineLengthIs("", rest, BUFFER - 1);
    assert "" + "\n" + rest == "\n" + rest;
    NoBracket();
    LoadStep("\n" + rest, "\n", rest, records, records);
  }

  lemma RecordBrackets()
    ensures Brackets(RECORD_LINE) == 2
  {
    hide Brackets;
    assert RECORD_LINE == "[" + "RECORD" + "]\n";
    BracketsAppend("[" + "RECORD", "]\n");
    BracketsAppend("[", "RECORD");
    BracketsNone("RECORD");
    Marks('R');
  }

  lemma RecordLine(rest: string, records: seq<Record>)
    ensures Load(RECORD_LINE + rest, records) == Load(rest, records + [Record(|records|, false, [])])
  {
    hide Load, LineLength, Brackets;
    var body := "[RECORD]";
    assert RECORD_LINE == body + "\n";
    Assoc(body, "\n", rest);
    LineLengthIs(body, rest, BUFFER - 1);
    RecordBrackets();
    LoadStep(RECORD_LINE + rest, RECORD_LINE, rest, records, records + [Record(|records|, false, [])]);
  }

  /** What a line means, newline or not: one that starts with [RECORD] and has no further bracket
      starts a record, other lines with two brackets or a number of brackets that is not six are
      passed over, and a line of three words behind a record is an element of it. */
  lemma LineTaken(line: string, rest: string, records: seq<Record>)
    ensures line == "[RECORD]" + rest && BracketFree(rest) ==>
              LoadLine(line, records) == Loaded(records + [Record(|records|, false, [])])
    ensures Brackets(line) == 2 && (|line| < 8 || line[..8] != "[RECORD]") ==>
              LoadLine(line, records) == Loaded(records)
    ensures Brackets(line) != 2 && Brackets(line) != 6 ==> LoadLine(line, records) == Loaded(records)
  {
    hide Brackets, ParseElement, BracketFree;
    if line == "[RECORD]" + rest && BracketFree(rest) {
      assert line[..8] == "[RECORD]" && RECORD_LINE == "[RECORD]" + "\n";
      BracketsAppend("[RECORD]", rest);
      BracketsNone(rest);
      RecordBrackets();
      BracketsAppend("[RECORD]", "\n");
      NoBracket();
    }
  }

  lemma WordsTaken(name: string, letter: char, text: string, end: string, records: seq<Record>)
    requires BracketFree(name) && BracketFree(text) && BracketFree(end) && !IsBracket(letter)
    ensures var line := "[" + name + "]" + ("[" + [letter] + "]" + ("[" + text + "]" + end));
            var taken := LoadLine(line, records);
            if records == [] || letter !in {'S', 'D', 'I'} then taken == Undefined
            else taken == Loaded(AddElement(records, Element(name,
              if letter == 'S' then Str(text) else if letter == 'D' then Double(ToDouble(text)) else Int(ToInt(text)))))
  {
    hide Brackets, BracketFree, ToDouble, ToInt, SplitWord;
    ParseLine(name, letter, text, end);
    WordsBrackets(name, letter, text, end);
    assert [letter] == "S" <==> letter == 'S';
    assert [letter] == "D" <==> letter == 'D';
    assert [letter] == "I" <==> letter == 'I';
  }

  lemma WordsBrackets(name: string, letter: char, text: string, end: string)
    requires BracketFree(name) && BracketFree(text) && BracketFree(end) && !IsBracket(letter)
    ensures Brackets("[" + name + "]" + ("[" + [letter] + "]" + ("[" + text + "]" + end))) == 6
  {
    hide Brackets, BracketFree;
    var body := "[" + name + "][" + [letter] + "][" + text + "]";
    LineWords(name, letter, text);
    LineBrackets(name, letter, text);
    BracketsNone(name);
    BracketsNone(text);
    BracketsNone(end);
    NoBracket();
    BracketsAppend(body, "\n");
    BracketsAppend(body, end);
    assert body + end == "[" + name + "]" + ("[" + [letter] + "]" + ("[" + text + "]" + end));
  }

  // ---------------------------------------------------------------- the whole file

  function AddAll(records: seq<Record>, es: seq<Element>): seq<Record>
    requires records != []
  {
    var n := |records| - 1;
    records[n := records[n].(elements := records[n].elements + es)]
  }

  lemma AddFirst(records: seq<Record>, e: Element, es: seq<Element>)
    requires records != []
    ensures AddAll(AddElement(records, e), es) == AddAll(records, [e] + es)
  {
    Assoc(records[|records| - 1].elements, [e], es);
  }

  lemma AddNothing(records: seq<Record>)
    requires records != []
    ensures AddAll(records, []) == records
  {
    assert records[|records| - 1].elements + [] == records[|records| - 1].elements;
  }

  lemma AddToNew(records: seq<Record>, number: int, es: seq<Element>)
    ensures AddAll(records + [Record(number, false, [])], es) == records + [Record(number, false, es)]
  {
    assert [] + es == es;
  }

  lemma {:induction false} LoadElements(es: seq<Element>, rest: string, records: seq<Record>)
    requires ElementsFit(es) && records != []
    ensures Load(ElementsText(es) + rest, records) == Load(rest, AddAll(records, Kept(es)))
    decreases |es|
  {
    hide Load, ElementLine, Survives, Rounded, Fits;
    if es == [] {
      assert ElementsText(es) + rest == rest;
      AddNothing(records);
    } else {
      var tail := ElementsText(es[1..]) + rest;
      Assoc(ElementLine(es[0]), ElementsText(es[1..]), rest);
      LoadElement(es[0], tail, records);
      if Survives(es[0]) {
        LoadElements(es[1..], rest, AddElement(records, Rounded(es[0])));
        AddFirst(records, Rounded(es[0]), Kept(es[1..]));
      } else {
        LoadElements(es[1..], rest, records);
        assert [] + Kept(es[1..]) == Kept(es[1..]);
      }
    }
  }

  /** Reading what close wrote, for every text the format is meant for: the records come back in
      order and numbered by place, each with exactly those of its elements whose name and value
      hold no bracket, in order, doubles rounded to six decimals. */
  lemma {:induction false} LoadText(written: seq<Record>, records: seq<Record>)
    requires AllFit(written)
    ensures Load(Text(written), records) == Loaded(records + Reloaded(written, |records|))
    decreases |written|
  {
    hide ElementsFit, ElementsText, Kept, AddAll;
    if written == [] {
      assert records + [] == records;
    } else {
      var es, rest := written[0].elements, Text(written[1..]);
      var started := records + [Record(|records|, false, [])];
      Assoc(RECORD_LINE, ElementsText(es), rest);
      RecordLine(ElementsText(es) + rest, records);
      LoadElements(es, rest, started);
      var filled := AddAll(started, Kept(es));
      AddToNew(records, |records|, Kept(es));
      LoadText(written[1..], filled);
      Assoc(records, [Record(|records|, false, Kept(es))], Reloaded(written[1..], |records| + 1));
    }
  }

  predicate Exact(e: Element) { Survives(e) && (e.value.Double? ==> IsSixDecimal(e.value.d)) }

  lemma {:induction false} KeptExactly(es: seq<Element>)
    ensures |Kept(es)| <= |es|
    ensures Kept(es) == es <==> forall i :: 0 <= i < |es| ==> Exact(es[i])
    decreases |es|
  {
    hide Survives, IsSixDecimal, SixDecimals;
    if es != [] {
      KeptExactly(es[1..]);
      if es[0].value.Double? {
        SixDecimalsExact(es[0].value.d);
      }
      assert es == [es[0]] + es[1..];
      assert Survives(es[0]) ==> Kept(es)[0] == Rounded(es[0]) && Kept(es)[1..] == Kept(es[1..]);
    }
  }

  /** The same records, clean and numbered from 0. */
  function Renumbered(records: seq<Record>, from: nat): seq<Record>
  {
    if records == [] then [] else [Record(from, false, records[0].elements)] + Renumbered(records[1..], from + 1)
  }

  ghost predicate AllExact(records: seq<Record>)
  {
    forall i :: 0 <= i < |records| ==> ElementsExact(records[i].elements)
  }

  ghost predicate ElementsExact(es: seq<Element>) { forall j :: 0 <= j < |es| ==> Exact(es[j]) }

  lemma {:induction false} ReloadedExactly(records: seq<Record>, from: nat)
    ensures Reloaded(records, from) == Renumbered(records, from) <==> AllExact(records)
    decreases |records|
  {
    hide ElementsExact;
    if records != [] {
      ReloadedExactly(records[1..], from + 1);
      KeptExactly(records[0].elements);
      assert ElementsExact(records[0].elements) <==> Kept(records[0].elements) == records[0].elements by {
        KeptExactlyAll(records[0].elements);
      }
      var a, b := Reloaded(records, from), Renumbered(records, from);
      assert a[1..] == Reloaded(records[1..], from + 1) && b[1..] == Renumbered(records[1..], from + 1);
      assert a == [a[0]] + a[1..] && b == [b[0]] + b[1..];
      assert forall i :: 0 < i < |records| ==> records[i] == records[1..][i - 1];
    }
  }

  lemma KeptExactlyAll(es: seq<Element>)
    ensures ElementsExact(es) <==> Kept(es) == es
  {
    KeptExactly(es);
  }

  /** Closing and reopening restores the records and their elements in order, numbered 0 to n-1,
      exactly when no name and no string holds a bracket and every double is a six-decimal one. */
  lemma RoundTrip(records: seq<Record>)
    requires AllFit(records)
    ensures Load(Text(records), []) == Loaded(Renumbered(records, 0)) <==> AllExact(records)
  {
    LoadText(records, []);
    assert [] + Reloaded(records, 0) == Reloaded(records, 0);
    ReloadedExactly(records, 0);
  }

  // ---------------------------------------------------------------- record numbers

  /** get_reference: the first record with a number. */
  function Find(records: seq<Record>, number: int): Option<Record>
  {
    if records == [] then None
    else if records[0].number == number then Some(records[0])
    else Find(records[1..], number)
  }

  lemma {:induction false} FindAppend(a: seq<Record>, b: seq<Record>, number: int)
    ensures Find(a + b, number) == if Find(a, number).Some? then Find(a, number) else Find(b, number)
    ensures Find(a, number).Some? <==> exists i :: 0 <= i < |a| && a[i].number == number
    decreases |a|
  {
    if a == [] {
      assert a + b == b;
    } else {
      assert (a + b)[1..] == a[1..] + b;
      assert forall i :: 0 < i < |a| ==> a[i] == a[1..][i - 1];
      FindAppend(a[1..], b, number);
    }
  }

  predicate ByPlace(records: seq<Record>) { forall i :: 0 <= i < |records| ==> records[i].number == i }

  /** While the numbers are the places, get(i) is the i-th record and nothing is found beyond. */
  lemma FindByPlace(records: seq<Record>, i: nat)
    requires ByPlace(records)
    ensures Find(records, i) == if i < |records| then Some(records[i]) else None
  {
    if i < |records| {
      assert records == records[..i] + records[i..];
      FindAppend(records[..i], records[i..], i);
    } else {
      FindAppend(records, [], i);
      assert records + [] == records;
    }
  }

  lemma {:induction false} RenumberedByPlace(records: seq<Record>, from: nat)
    ensures var r := Renumbered(records, from);
            |r| == |records| && forall i :: 0 <= i < |r| ==> r[i] == Record(from + i, false, records[i].elements)
    decreases |records|
  {
    if records != [] {
      RenumberedByPlace(records[1..], from + 1);
    }
  }

  function Appended(records: seq<Record>, r: Record): seq<Record>
  {
    records + [Record(|records|, true, r.elements)]
  }

  /** An appended record can be got by the number append returns exactly when no earlier record
      still has that number, as one may once something has been erased. */
  lemma AppendFound(records: seq<Record>, r: Record)
    ensures Find(Appended(records, r), |records|) == Some(Record(|records|, true, r.elements))
            <==> Find(records, |records|) in {None, Some(Record(|records|, true, r.elements))}
    ensures ByPlace(records) ==> ByPlace(Appended(records, r)) && Find(records, |records|) == None
  {
    FindAppend(records, [Record(|records|, true, r.elements)], |records|);
    if ByPlace(records) {
      FindByPlace(records, |records|);
    }
  }

  predicate Matches(r: Record, e: Element) { e in r.elements }

  /** erase: every record that holds the element goes. */
  function Erased(records: seq<Record>, e: Element): (r: seq<Record>)
    ensures |r| <= |records| && forall i :: 0 <= i < |r| ==> !Matches(r[i], e)
  {
    if records == [] then []
    else
      var n := |records| - 1;
      Erased(records[..n], e) + if Matches(records[n], e) then [] else [records[n]]
  }

  lemma ErasedNone(e: Element)
    ensures Erased([], e) == []
  {
  }

  /** The pass of erase taken one record further. */
  lemma ErasedNext(done: seq<Record>, rest: seq<Record>, e: Element)
    requires rest != []
    ensures done + rest == done + [rest[0]] + rest[1..]
    ensures var kept := Erased(done, e);
            var all := kept + rest;
            && all[|kept|] == rest[0]
            && all[..|kept|] + all[|kept| + 1..] == kept + rest[1..]
            && all == kept + [rest[0]] + rest[1..]
            && Erased(done + [rest[0]], e) == kept + (if Matches(rest[0], e) then [] else [rest[0]])
  {
  }

  /** ... and every other stays, behind exactly those that stood before it and stay too. */
  lemma {:induction false} ErasedInOrder(records: seq<Record>, e: Element, i: nat)
    requires i < |records| && !Matches(records[i], e)
    ensures |Erased(records[..i], e)| < |Erased(records, e)|
    ensures Erased(records, e)[|Erased(records[..i], e)|] == records[i]
    decreases |records|
  {
    if i < |records| - 1 {
      var front := records[..|records| - 1];
      assert front[..i] == records[..i];
      ErasedInOrder(front, e, i);
    }
  }

  /** update: the old record goes, the new one is appended. */
  function Updated(records: seq<Record>, i: nat, r: Record): seq<Record>
    requires i < |records|
  {
    Appended(records[..i] + records[i + 1..], r)
  }

  /** An update moves the record to the end, numbered by its new place and marked, and leaves the
      others as they were, in order. */
  lemma UpdatedInOrder(records: seq<Record>, i: nat, r: Record)
    requires i < |records|
    ensures var after, n := Updated(records, i, r), |records| - 1;
            && |after| == |records|
            && (forall j :: 0 <= j < i ==> after[j] == records[j])
            && (forall j :: i <= j < n ==> after[j] == records[j + 1])
            && after[n] == Record(n, true, r.elements)
  {
  }

  /** Every other record is still found under its number; that of the last one so hides the
      updated record, unless it was the last itself. */
  lemma UpdatedOthers(records: seq<Record>, i: nat, r: Record, j: nat)
    requires ByPlace(records) && i < |records| && j != i
    ensures Find(Updated(records, i, r), j) == if j < |records| then Some(records[j]) else None
  {
    var n := |records| - 1;
    var rest := records[..i] + records[i + 1..];
    UpdatedInOrder(records, i, r);
    FindAppend(records[..i], records[i + 1..], j);
    FindAppend(rest, [Record(n, true, r.elements)], j);
    assert records == records[..i] + [records[i]] + records[i + 1..];
    FindAppend(records[..i] + [records[i]], records[i + 1..], j);
    FindAppend(records[..i], [records[i]], j);
    FindByPlace(records, j);
  }

  /** A record that has been updated is found under its old number exactly when it was the last. */
  lemma UpdateFound(records: seq<Record>, i: nat, r: Record)
    requires ByPlace(records) && i < |records|
    ensures Find(Updated(records, i, r), i).Some? <==> i == |records| - 1
    ensures i == |records| - 1 ==> Find(Updated(records, i, r), i).value.elements == r.elements
  {
    var rest := records[..i] + records[i + 1..];
    assert forall k :: 0 <= k < |rest| ==> rest[k] == records[if k < i then k else k + 1];
    FindAppend(rest, [Record(|rest|, true, r.elements)], i);
  }

  /** The first of two records, once updated, is not found under its number any more. */
  lemma UpdatedFirst()
    ensures var two := [Record(0, false, []), Record(1, false, [])];
            Find(Updated(two, 0, Record(0, true, [Element("x", Int(1))])), 0) == None
  {
    UpdateFound([Record(0, false, []), Record(1, false, [])], 0, Record(0, true, [Element("x", Int(1))]));
  }

  /** A number freed by an erasure is given out again while its old owner is still there. */
  lemma AppendedTwice()
    ensures var left := [Record(1, false, [])];
            Find(Appended(left, Record(0, true, [Element("x", Int(1))])), 1) == Some(Record(1, false, []))
  {
  }

  // ---------------------------------------------------------------- the object

  function Words(s: string, n: nat): seq<string>
    decreases n
  {
    if n == 0 then []
    else
      match SplitWord(s)
      case None => []
      case Some((word, rest)) => [word] + Words(rest, n - 1)
  }

  function ElementOf(words: seq<string>): Option<Element>
  {
    if |words| != 3 then None
    else if words[1] == "S" then Some(Element(words[0], Str(words[2])))
    else if words[1] == "D" then Some(Element(words[0], Double(ToDouble(words[2]))))
    else if words[1] == "I" then Some(Element(words[0], Int(ToInt(words[2]))))
    else None
  }

  lemma ParsedWords(line: string)
    ensures ParseElement(line) == ElementOf(Words(line, 3))
  {
  }

  /** bracket_split */
  method BracketSplit(s: string) returns (words: seq<string>)
    ensures words == Words(s, 3)
  {
    hide SplitWord;
    words := [];
    var p := 0;
    for k := 0 to 3
      invariant p <= |s| && words + Words(s[p..], 3 - k) == Words(s, 3)
    {
      var ok, word, next := NextWord(s, p);
      if !ok {
        return;
      }
      Assoc(words, [word], Words(s[next..], 2 - k));
      words, p := words + [word], next;
    }
  }

  /** One of its three stretches. */
  method NextWord(s: string, p: nat) returns (ok: bool, word: string, next: nat)
    requires p <= |s|
    ensures next <= |s| && SplitWord(s[p..]) == if ok then Some((word, s[next..])) else None
  {
    ok, word, next := false, "", p;
    if p == |s| || s[p] != '[' {
      return;
    }
    ghost var t := s[p..];
    next := p + 1;
    while next < |s| && s[next] != ']'
      invariant p + 1 <= next <= |s|
      invariant WordLength(t[1..]) == next - p - 1 + WordLength(s[next..])
    {
      assert s[next..][1..] == s[next + 1..];
      next := next + 1;
    }
    assert WordLength(t[1..]) == next - p - 1;
    CutAt(s, p, next);
    ok, word := true, s[p + 1..next];
    if next < |s| {
      next := next + 1;
    }
  }

  lemma CutAt(s: string, p: nat, next: nat)
    requires p < next <= |s|
    ensures s[p..][1..][..next - p - 1] == s[p + 1..next] && s[p..][1..next - p] == s[p + 1..next]
    ensures next < |s| ==> s[p..][next - p + 1..] == s[next + 1..]
  {
  }

  method CountBrackets(s: string) returns (count: nat)
    ensures count == Brackets(s)
  {
    count := 0;
    for i := 0 to |s|
      invariant count == Brackets(s[..i])
    {
      assert s[..i + 1][..i] == s[..i];
      if s[i] == '[' || s[i] == ']' {
        count := count + 1;
      }
    }
    assert s[..|s|] == s;
  }

  method Fgets(s: string, at: nat) returns (next: nat)
    requires at < |s|
    ensures next == at + LineLength(s[at..], BUFFER - 1)
  {
    next := at;
    var room := BUFFER - 1;
    while next < |s| && room > 0
      invariant at <= next <= |s| && 0 <= room
      invariant next + LineLength(s[next..], room) == at + LineLength(s[at..], BUFFER - 1)
      decreases room
    {
      assert s[next..][1..] == s[next + 1..];
      next := next + 1;
      room := room - 1;
      if s[next - 1] == '\n' {
        return;
      }
    }
  }

  class DiskFile {
    var present: bool
    var text: string

    constructor ()
      ensures !present
    {
      present, text := false, "";
    }
  }

  datatype State = New | Modified | Closed

  class Dbase {
    const file: DiskFile
    const writable: bool
    var contents: seq<Record>
    var state: State
    var lost: bool

    /** The constructor.  lost: a line was met on which the source goes on with what it has not set. */
    constructor (file: DiskFile, writable: bool)
      ensures this.file == file && this.writable == writable
      ensures !file.present ==> contents == [] && state == New && !lost
      ensures file.present ==> lost == Load(file.text, []).Undefined?
      ensures file.present && !lost ==> Loaded(contents) == Load(file.text, []) && state == Closed
    {
      this.file, this.writable, contents, state, lost := file, writable, [], New, false;
      new;
      if !file.present {
        return;
      }
      var s, at := file.text, 0;
      while at < |s|
        invariant at <= |s| && Load(s[at..], contents) == Load(s, []) && s == file.text && file.present && !lost
      {
        hide LineLength, LoadLine, Load;
        var next := Fgets(s, at);
        ghost var rest := s[at..];
        assert rest[..next - at] == s[at..next] && rest[next - at..] == s[next..];
        LoadOne(rest, contents, next - at);
        var ok := TakeLine(s[at..next]);
        if !ok {
          lost := true;
          return;
        }
        at := next;
      }
      state := Closed;
    }

    /** What the constructor does with one line. */
    method TakeLine(line: string) returns (ok: bool)
      modifies this`contents
      ensures LoadLine(line, old(contents)) == if ok then Loaded(contents) else Undefined
    {
      hide Brackets, ParseElement, Words;
      var count := CountBrackets(line);
      if count == 2 {
        if "[RECORD]" <= line {
          contents := contents + [Record(|contents|, false, [])];
        }
      } else if count == 6 {
        ParsedWords(line);
        var words := BracketSplit(line);
        var e := ElementOf(words);
        if e.None? || contents == [] {
          return false;
        }
        var n := |contents| - 1;
        contents := contents[n := contents[n].(elements := contents[n].elements + [e.value])];
      }
      return true;
    }

    method Append(record: Record) returns (number: int)
      modifies this`contents, this`state
      ensures if writable then
                number == |old(contents)| && contents == Appended(old(contents), record) && state == Modified
              else number == -1 && contents == old(contents) && state == old(state)
    {
      if !writable {
        return -1;
      }
      contents := contents + [Record(|contents|, true, record.elements)];
      state := Modified;
      return |contents| - 1;
    }

    method Erase(e: Element)
      modifies this`contents, this`state
      ensures contents == Erased(old(contents), e) && state == Modified
    {
      hide Erased, Matches;
      ghost var all := contents;
      ghost var done, rest: seq<Record> := [], all;
      var at := 0;
      ErasedNone(e);
      while at < |contents|
        invariant all == done + rest && at == |Erased(done, e)|
        invariant contents == Erased(done, e) + rest
        decreases |rest|
      {
        ErasedNext(done, rest, e);
        var isMatch := HasElement(contents[at], e);
        if isMatch {
          contents := contents[..at] + contents[at + 1..];
        } else {
          at := at + 1;
        }
        done, rest := done + [rest[0]], rest[1..];
      }
      assert all == done && contents == Erased(done, e);
      state := Modified;
    }

    method HasElement(r: Record, e: Element) returns (found: bool)
      ensures found <==> Matches(r, e)
    {
      for q := 0 to |r.elements|
        invariant forall j :: 0 <= j < q ==> r.elements[j] != e
      {
        if r.elements[q].name == e.name && r.elements[q].value == e.value {
          return true;
        }
      }
      return false;
    }

    /** get and get_reference */
    method GetReference(number: int) returns (r: Option<Record>)
      ensures r == Find(contents, number)
    {
      for i := 0 to |contents|
        invariant Find(contents[i..], number) == Find(contents, number)
      {
        if contents[i].number == number {
          return Some(contents[i]);
        }
        assert contents[i..][1..] == contents[i + 1..];
      }
      return None;
    }

    /** update(record_number, record) */
    method Update(number: int, record: Record) returns (ok: bool)
      modifies this`contents, this`state
      ensures ok <==> writable && exists i :: 0 <= i < |old(contents)| && old(contents)[i].number == number
      ensures !ok ==> contents == old(contents) && state == old(state)
      ensures ok ==> state == Modified && exists i ::
                (&& 0 <= i < |old(contents)| && old(contents)[i].number == number
                 && (forall j :: 0 <= j < i ==> old(contents)[j].number != number)
                 && contents == Updated(old(contents), i, record))
    {
      if !writable {
        return false;
      }
      for i := 0 to |contents|
        invariant contents == old(contents) && state == old(state)
        invariant forall j :: 0 <= j < i ==> contents[j].number != number
      {
        if contents[i].number == number {
          contents := contents[..i] + contents[i + 1..];
          var _ := Append(record);
          return true;
        }
      }
      return false;
    }

    method AnyRecordIsDirty() returns (dirty: bool)
      ensures dirty <==> exists i :: 0 <= i < |contents| && contents[i].dirty
    {
      for i := 0 to |contents|
        invariant forall j :: 0 <= j < i ==> !contents[j].dirty
      {
        if contents[i].dirty {
          return true;
        }
      }
      return false;
    }

    /** close: a changed, writable database is written whole; nothing else touches the file.  What
        a later constructor reads is what was closed, under the condition of RoundTrip. */
    method Close()
      modifies this`state, file
      ensures contents == old(contents)
      ensures if writable && (old(state) == Modified || exists i :: 0 <= i < |contents| && contents[i].dirty)
              then file.present && file.text == Text(contents) && state == Closed
              else file.present == old(file.present) && file.text == old(file.text) && state == old(state)
      ensures writable && (old(state) == Modified || exists i :: 0 <= i < |contents| && contents[i].dirty)
              && AllFit(contents) ==>
                (Load(file.text, []) == Loaded(Renumbered(contents, 0)) <==> AllExact(contents))
    {
      if !writable {
        return;
      }
      var dirty := AnyRecordIsDirty();
      if !dirty && state != Modified {
        return;
      }
      if AllFit(contents) {
        RoundTrip(contents);
      }
      hide Load, AllExact, AllFit, Renumbered, Text;
      file.present := true;
      file.text := "";
      WriteRecords();
      state := Closed;
    }

    /** The outer loop of close. */
    method WriteRecords()
      modifies file`text
      ensures file.text == old(file.text) + Text(contents)
    {
      hide ElementsText;
      ghost var start := file.text;
      for i := 0 to |contents|
        invariant file.text + Text(contents[i..]) == start + Text(contents)
      {
        ghost var before := file.text;
        assert contents[i..][1..] == contents[i + 1..];
        file.text := file.text + RECORD_LINE;
        WriteElements(contents[i].elements);
        Assoc4(before, RECORD_LINE, ElementsText(contents[i].elements), Text(contents[i + 1..]));
      }
      assert contents[|contents|..] == [];
    }

    /** The inner loop of close. */
    method WriteElements(es: seq<Element>)
      modifies file`text
      ensures file.text == old(file.text) + ElementsText(es)
    {
      hide ElementLine;
      ghost var start := file.text;
      for j := 0 to |es|
        invariant file.text + ElementsText(es[j..]) == start + ElementsText(es)
      {
        assert es[j..][1..] == es[j + 1..];
        ghost var before := file.text;
        file.text := file.text + ElementLine(es[j]);
        Assoc(before, ElementLine(es[j]), ElementsText(es[j + 1..]));
      }
      assert es[|es|..] == [];
    }
  }

  lemma LoadOne(s: string, records: seq<Record>, n: nat)
    requires s != "" && n == LineLength(s, BUFFER - 1)
    ensures n <= |s|
    ensures Load(s, records) == match LoadLine(s[..n], records)
              case Undefined => Undefined
              case Loaded(r) => Load(s[n..], r)
  {
  }
}
