/** Tokenize: the hand-written scanner over a NUL-terminated byte string. */
module JsonLexer {
  import opened Decimal
  import opened JsonTree
  import opened Sequences

  /** Garbage is the token the scanner still appends after reporting an unknown
      character; its type field is never initialised.  Overrun marks an unterminated
      string, after which the source reads on past the terminating NUL. */
  datatype Token =
    | LeftBracket | RightBracket | LeftSquare | RightSquare | Comma | Colon
    | StringTok(text: CString)
    | IntTok(value: Long)
    | FloatTok(number: real)
    | BoolTok(truth: bool)
    | NullTok
    | Garbage
    | Overrun

  predicate IsSpace(c: char) { c == ' ' || '\t' <= c <= '\r' }

  predicate IsSign(c: char) { c == '-' || c == '+' }

  predicate StartsNumber(c: char) { IsSign(c) || IsDigit(c) }

  predicate At(s: string, i: nat, c: char) { i < |s| && s[i] == c }

  predicate HasPrefix(s: string, word: string)
  {
    |word| <= |s| && s[..|word|] == word
  }

  /** Index of the closing quote at or after i, or of the end of the text. */
  function QuoteEnd(s: string, i: nat): (e: nat)
    requires i <= |s|
    ensures i <= e <= |s|
    ensures forall k :: i <= k < e ==> s[k] != '"' && s[k] != '\0'
    ensures e < |s| ==> s[e] == '"' || s[e] == '\0'
    decreases |s| - i
  {
    if i < |s| && s[i] != '"' && s[i] != '\0' then QuoteEnd(s, i + 1) else i
  }

  function Clamp(x: int): Long
  {
    if x < -0x8000_0000_0000_0000 then -0x8000_0000_0000_0000
    else if x > 0x7FFF_FFFF_FFFF_FFFF then 0x7FFF_FFFF_FFFF_FFFF
    else x
  }

  function SignEnd(s: string, i: nat): (k: nat)
    requires i <= |s|
    ensures i <= k <= |s| && k <= i + 1
  {
    if i < |s| && IsSign(s[i]) then i + 1 else i
  }

  function Signed(negative: bool, n: nat): int { if negative then -(n as int) else n }

  /** atol on text that starts with a sign or a digit. */
  function Atol(s: string): Long
  {
    var k := SignEnd(s, 0);
    Clamp(Signed(At(s, 0, '-'), Value(s[k..DigitsEnd(s, k)])))
  }

  /** End of the fraction that starts with the point at d, or d when there is none. */
  function FractionEnd(s: string, d: nat): (f: nat)
    requires d <= |s|
    ensures d <= f <= |s|
  {
    if At(s, d, '.') then DigitsEnd(s, d + 1) else d
  }

  function Scale(x: real, exponent: int): real
  {
    if exponent >= 0 then x * Pow10(exponent) as real else x / Pow10(-exponent) as real
  }

  /** The decimal exponent written at f: strtod takes both e and E. */
  function Exponent(s: string, f: nat): int
    requires f <= |s|
  {
    if At(s, f, 'e') || At(s, f, 'E') then
      var h := SignEnd(s, f + 1);
      Signed(At(s, f + 1, '-'), Value(s[h..DigitsEnd(s, h)]))
    else 0
  }

  /** atof on text that starts with a sign or a digit, in exact arithmetic. */
  function Atof(s: string): real
  {
    var k := SignEnd(s, 0);
    var d := DigitsEnd(s, k);
    var f := FractionEnd(s, d);
    var whole := Value(s[k..d]) as real;
    var fraction := if f > d then Value(s[d + 1..f]) as real / Pow10(f - d - 1) as real else 0.0;
    if f - k <= (if f > d then 1 else 0) then 0.0
    else
      var x := Scale(whole + fraction, Exponent(s, f));
      if At(s, 0, '-') then -x else x
  }

  /** Where the scanner's own walk over an exponent that starts at f ends. */
  function ExponentEnd(s: string, f: nat): (e: nat)
    requires f <= |s|
    ensures f <= e <= |s|
  {
    if At(s, f, 'e') then DigitsEnd(s, SignEnd(s, f + 1)) else f
  }

  predicate IsFloatText(s: string)
    requires s != ""
  {
    var d := DigitsEnd(s, 1);
    At(s, d, '.') || At(s, d, 'e')
  }

  /** How many characters the scanner takes for a number. */
  function NumberEnd(s: string): (n: nat)
    requires s != ""
    ensures 1 <= n <= |s|
  {
    var d := DigitsEnd(s, 1);
    if IsFloatText(s) then ExponentEnd(s, FractionEnd(s, d)) else d
  }

  function NumberToken(s: string): Token
    requires s != ""
  {
    if IsFloatText(s) then FloatTok(Atof(s)) else IntTok(Atol(s))
  }

  /** The token at the start of s, which is neither empty, blank nor NUL there. */
  function Scan(s: string): (r: (Token, nat))
    requires s != "" && !IsSpace(s[0]) && s[0] != '\0'
    ensures 1 <= r.1 <= |s|
  {
    if s[0] == '{' then (LeftBracket, 1)
    else if s[0] == '}' then (RightBracket, 1)
    else if s[0] == '[' then (LeftSquare, 1)
    else if s[0] == ']' then (RightSquare, 1)
    else if s[0] == ',' then (Comma, 1)
    else if s[0] == ':' then (Colon, 1)
    else if StartsNumber(s[0]) then (NumberToken(s), NumberEnd(s))
    else if s[0] == '"' then
      var e := QuoteEnd(s, 1);
      if At(s, e, '"') then (StringTok(s[1..e]), e + 1) else (Overrun, |s|)
    else if HasPrefix(s, "false") then (BoolTok(false), 5)
    else if HasPrefix(s, "true") then (BoolTok(true), 4)
    else if HasPrefix(s, "null") then (NullTok, 4)
    else (Garbage, 1)
  }

  /** All the tokens of a text that ends at its first NUL. */
  function Lex(s: string): seq<Token>
  {
    if s == "" || s[0] == '\0' then []
    else if IsSpace(s[0]) then Lex(s[1..])
    else
      var (token, n) := Scan(s);
      [token] + Lex(s[n..])
  }

  /** The scanner cannot produce a string that holds a double quote. */
  lemma {:induction false} LexQuoteFree(s: string)
    ensures forall i :: 0 <= i < |Lex(s)| && Lex(s)[i].StringTok? ==> QuoteFree(Lex(s)[i].text)
    decreases |s|
  {
    if s == "" || s[0] == '\0' {
    } else if IsSpace(s[0]) {
      LexQuoteFree(s[1..]);
    } else {
      LexQuoteFree(s[Scan(s).1..]);
      LexStep(s);
      if s[0] == '"' {
        assert forall k :: 0 <= k < QuoteEnd(s, 1) - 1 ==> s[1..QuoteEnd(s, 1)][k] == s[k + 1];
      }
    }
  }

  lemma LexStep(s: string)
    requires s != "" && !IsSpace(s[0]) && s[0] != '\0'
    ensures Lex(s) == [Scan(s).0] + Lex(s[Scan(s).1..])
  {
  }

  // ---------------------------------------------------------------- the loops

  method SkipDigits(s: string, start: nat) returns (p: nat)
    requires start <= |s|
    ensures p == DigitsEnd(s, start)
  {
    p := start;
    while p < |s| && IsDigit(s[p])
      invariant start <= p <= |s|
      invariant DigitsEnd(s, start) == DigitsEnd(s, p)
    {
      p := p + 1;
    }
  }

  method FindQuote(s: string, start: nat) returns (p: nat)
    requires start <= |s|
    ensures p == QuoteEnd(s, start)
  {
    p := start;
    while p < |s| && s[p] != '\0' && s[p] != '"'
      invariant start <= p <= |s|
      invariant QuoteEnd(s, start) == QuoteEnd(s, p)
    {
      p := p + 1;
    }
  }

  method SkipNumber(s: string) returns (p: nat, isFloat: bool)
    requires s != "" && StartsNumber(s[0])
    ensures p == NumberEnd(s) && isFloat == IsFloatText(s)
  {
    hide DigitsEnd;
    p := SkipDigits(s, 1);
    isFloat := false;
    if At(s, p, '.') || At(s, p, 'e') {
      isFloat := true;
      if At(s, p, '.') {
        p := SkipDigits(s, p + 1);
      }
      if At(s, p, 'e') {
        p := p + 1;
        if At(s, p, '+') {
          p := p + 1;
        } else if At(s, p, '-') {
          p := p + 1;
        }
        p := SkipDigits(s, p);
      }
    }
  }

  method SkipSpaces(s: string, start: nat) returns (p: nat)
    requires start <= |s|
    ensures start <= p <= |s| && Lex(s[start..]) == Lex(s[p..])
    ensures p < |s| ==> !IsSpace(s[p])
  {
    p := start;
    while p < |s| && IsSpace(s[p])
      invariant start <= p <= |s|
      invariant Lex(s[start..]) == Lex(s[p..])
    {
      assert s[p..][1..] == s[p + 1..];
      p := p + 1;
    }
  }

  method ScanToken(s: string) returns (token: Token, n: nat)
    requires s != "" && !IsSpace(s[0]) && s[0] != '\0'
    ensures token == Scan(s).0 && n == Scan(s).1
  {
    hide NumberEnd, QuoteEnd, IsFloatText, HasPrefix;
    LetterByLetter(s);
    n := 1;
    if s[0] == '{' {
      token := LeftBracket;
    } else if s[0] == '}' {
      token := RightBracket;
    } else if s[0] == '[' {
      token := LeftSquare;
    } else if s[0] == ']' {
      token := RightSquare;
    } else if s[0] == ',' {
      token := Comma;
    } else if s[0] == ':' {
      token := Colon;
    } else if s[0] == '-' || s[0] == '+' || IsDigit(s[0]) {
      var isFloat;
      n, isFloat := SkipNumber(s);
      token := if isFloat then FloatTok(Atof(s)) else IntTok(Atol(s));
    } else if s[0] == '"' {
      var e := FindQuote(s, 1);
      if At(s, e, '"') {
        token, n := StringTok(s[1..e]), e + 1;
      } else {
        token, n := Overrun, |s|;
      }
    } else if At(s, 0, 'f') && At(s, 1, 'a') && At(s, 2, 'l') && At(s, 3, 's') && At(s, 4, 'e') {
      token, n := BoolTok(false), 5;
    } else if At(s, 0, 't') && At(s, 1, 'r') && At(s, 2, 'u') && At(s, 3, 'e') {
      token, n := BoolTok(true), 4;
    } else if At(s, 0, 'n') && At(s, 1, 'u') && At(s, 2, 'l') && At(s, 3, 'l') {
      token, n := NullTok, 4;
    } else {
      token := Garbage;
    }
  }

  lemma LetterByLetter(s: string)
    ensures HasPrefix(s, "false") <==> At(s, 0, 'f') && At(s, 1, 'a') && At(s, 2, 'l') && At(s, 3, 's') && At(s, 4, 'e')
    ensures HasPrefix(s, "true") <==> At(s, 0, 't') && At(s, 1, 'r') && At(s, 2, 'u') && At(s, 3, 'e')
    ensures HasPrefix(s, "null") <==> At(s, 0, 'n') && At(s, 1, 'u') && At(s, 2, 'l') && At(s, 3, 'l')
  {
    LettersOf(s, "false");
    LettersOf(s, "true");
    LettersOf(s, "null");
  }

  lemma LettersOf(s: string, word: string)
    ensures HasPrefix(s, word) <==> forall i :: 0 <= i < |word| ==> At(s, i, word[i])
  {
    if word != "" && At(s, |word| - 1, word[|word| - 1]) && forall i :: 0 <= i < |word| ==> At(s, i, word[i]) {
      assert s[..|word|] == word;
    }
  }

  /** One round of the scanner: the token at p, or none at the end of the text. */
  method NextToken(s: string, start: nat) returns (tokens: seq<Token>, p: nat)
    requires start <= |s|
    ensures start <= p <= |s| && (tokens != [] ==> start < p)
    ensures Lex(s[start..]) == if tokens == [] then [] else tokens + Lex(s[p..])
  {
    hide Scan;
    p := SkipSpaces(s, start);
    if p == |s| || s[p] == '\0' {
      return [], p;
    }
    var token, n := ScanToken(s[p..]);
    LexStep(s[p..]);
    DropDrop(s, p, n);
    return [token], p + n;
  }

  /** Walks byte_string forward, appending one token per round. */
  method Tokenize(byteString: string) returns (output: seq<Token>)
    ensures output == Lex(byteString)
  {
    output := [];
    var p := 0;
    assert byteString[0..] == byteString;
    while true
      invariant p <= |byteString|
      invariant Lex(byteString) == output + Lex(byteString[p..])
      decreases |byteString| - p
    {
      var tokens, next := NextToken(byteString, p);
      if tokens == [] {
        break;
      }
      output, p := output + tokens, next;
    }
  }
}
