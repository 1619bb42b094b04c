/** Numbers as they are written: what the scanner and atof make of a decimal numeral. */
module JsonNumbers {
  import opened Decimal
  import opened JsonLexer
  import opened Wrappers

  /** The letter, the sign and the digits of a power of ten. */
  datatype Power = Power(letter: char, sign: string, digits: string)

  /** A sign, digits, perhaps a point with a fraction, perhaps a power of ten. */
  datatype Numeral = Numeral(sign: string, whole: string, fraction: Option<string>, power: Option<Power>)

  predicate IsSignText(s: string) { s == "" || s == "+" || s == "-" }

  predicate WellFormed(n: Numeral)
  {
    && IsSignText(n.sign) && AllDigits(n.whole)
    && (n.fraction.Some? ==> AllDigits(n.fraction.value))
    && (n.power.Some? ==>
          n.power.value.letter in {'e', 'E'} && IsSignText(n.power.value.sign) && AllDigits(n.power.value.digits))
    && n.whole + Fraction(n) != ""
  }

  function Fraction(n: Numeral): string { if n.fraction.Some? then n.fraction.value else "" }

  function PowerText(n: Numeral): string
  {
    match n.power
    case None => ""
    case Some(Power(letter, sign, digits)) => [letter] + sign + digits
  }

  function Pointed(fraction: Option<string>): string { if fraction.Some? then "." + fraction.value else "" }

  function Text(n: Numeral): string { n.sign + n.whole + Pointed(n.fraction) + PowerText(n) }

  function TenTo(n: Numeral): int
    requires WellFormed(n)
  {
    match n.power
    case None => 0
    case Some(Power(_, sign, digits)) => Signed(sign == "-", Value(digits))
  }

  predicate NoDigit(s: string) { s == "" || !IsDigit(s[0]) }

  /** What follows does not go on with the numeral. */
  predicate Ends(n: Numeral, rest: string)
  {
    rest == "" || (&& !IsDigit(rest[0])
                   && (n.power.None? ==> rest[0] != 'e' && rest[0] != 'E')
                   && (n.power.None? && n.fraction.None? ==> rest[0] != '.')
                   && (n.power.Some? && n.power.value.digits == "" && n.power.value.sign == "" ==> !IsSign(rest[0])))
  }

  /** The text from k on. */
  ghost predicate From(all: string, k: nat, tail: string) { k <= |all| && all[k..] == tail }

  /** The text between k and d. */
  ghost predicate Slice(all: string, k: nat, d: nat, piece: string) { k <= d <= |all| && all[k..d] == piece }

  /** A piece of a text, and what comes behind it. */
  lemma Piece(all: string, k: nat, piece: string, rest: string)
    requires From(all, k, piece + rest)
    ensures From(all, k + |piece|, rest) && Slice(all, k, k + |piece|, piece)
    ensures piece != "" ==> all[k] == piece[0]
    ensures rest != "" ==> k + |piece| < |all| && all[k + |piece|] == rest[0]
    ensures |all| == k + |piece| + |rest|
  {
    assert |all[k..]| == |piece| + |rest|;
    assert all[k..k + |piece|] == all[k..][..|piece|];
    assert all[k + |piece|..] == all[k..][|piece|..];
    assert rest != "" ==> all[k + |piece|] == all[k..][|piece|];
    assert piece != "" ==> all[k] == all[k..][0];
  }

  lemma DigitsPiece(all: string, k: nat, digits: string, rest: string)
    requires From(all, k, digits + rest) && AllDigits(digits) && NoDigit(rest)
    ensures k <= |all| && DigitsEnd(all, k) == k + |digits|
    ensures Slice(all, k, k + |digits|, digits) && From(all, k + |digits|, rest)
  {
    hide DigitsEnd;
    Piece(all, k, digits, rest);
    assert forall i :: k <= i < k + |digits| ==> all[i] == all[k..k + |digits|][i - k];
    DigitsEndUnique(all, k, k + |digits|);
  }

  lemma SignPiece(all: string, k: nat, sign: string, rest: string)
    requires From(all, k, sign + rest) && IsSignText(sign) && (rest == "" || sign != "" || !IsSign(rest[0]))
    ensures k <= |all| && SignEnd(all, k) == k + |sign| && (At(all, k, '-') <==> sign == "-")
    ensures From(all, k + |sign|, rest)
  {
    hide From, Slice;
    Piece(all, k, sign, rest);
  }

  /** Where atof finds the fraction. */
  lemma FractionPiece(all: string, d: nat, fraction: Option<string>, rest: string)
    requires From(all, d, Pointed(fraction) + rest) && NoDigit(rest)
    requires fraction.Some? ==> AllDigits(fraction.value)
    requires fraction.None? ==> !At(rest, 0, '.')
    ensures var f := d + |Pointed(fraction)|;
            && d <= |all| && FractionEnd(all, d) == f && From(all, f, rest)
            && (fraction.Some? ==> Slice(all, d + 1, f, fraction.value))
  {
    hide DigitsEnd, AllDigits, From, Slice;
    if fraction.Some? {
      assert Pointed(fraction) + rest == "." + (fraction.value + rest);
      Piece(all, d, ".", fraction.value + rest);
      DigitsPiece(all, d + 1, fraction.value, rest);
    } else {
      Piece(all, d, "", rest);
    }
  }

  /** Where it finds the power of ten. */
  lemma PowerPiece(all: string, f: nat, n: Numeral, rest: string)
    requires From(all, f, PowerText(n) + rest) && WellFormed(n) && Ends(n, rest)
    ensures f <= |all| && Exponent(all, f) == TenTo(n)
    ensures n.power.None? || n.power.value.letter == 'e' ==> ExponentEnd(all, f) == |all| - |rest|
  {
    hide From, DigitsEnd, SignEnd, AllDigits, IsSignText, IsSign, Signed, Value;
    if n.power.Some? {
      LetterPiece(all, f, n.power.value, rest);
    } else {
      Piece(all, f, "", rest);
    }
  }

  lemma LetterPiece(all: string, f: nat, p: Power, rest: string)
    requires From(all, f, [p.letter] + p.sign + p.digits + rest)
    requires IsSignText(p.sign) && AllDigits(p.digits) && NoDigit(rest) && p.letter in {'e', 'E'}
    requires p.digits == "" && p.sign == "" && rest != "" ==> !IsSign(rest[0])
    ensures var h := f + 1 + |p.sign|;
            var g := h + |p.digits|;
            && f < |all| && all[f] == p.letter && h <= |all| && g == |all| - |rest|
            && SignEnd(all, f + 1) == h && (At(all, f + 1, '-') <==> p.sign == "-")
            && DigitsEnd(all, h) == g && Slice(all, h, g, p.digits)
  {
    hide DigitsEnd, From, AllDigits, SignEnd, At, IsSignText, IsSign, Slice;
    Regroup([p.letter], p.sign, p.digits, rest);
    NotSigned(p.digits, rest);
    Piece(all, f, [p.letter], p.sign + (p.digits + rest));
    SignPiece(all, f + 1, p.sign, p.digits + rest);
    DigitsPiece(all, f + 1 + |p.sign|, p.digits, rest);
    Piece(all, f + 1 + |p.sign|, p.digits, rest);
  }

  lemma Regroup(a: string, b: string, c: string, d: string)
    ensures a + b + c + d == a + (b + (c + d))
  {
  }

  lemma NotSigned(digits: string, rest: string)
    requires AllDigits(digits)
    ensures digits != "" ==> digits + rest != "" && !IsSign((digits + rest)[0])
  {
  }

  /** The parts of a numeral at the front of a text. */
  ghost predicate Found(all: string, n: Numeral, tail: string)
  {
    var k := |n.sign|;
    var d := k + |n.whole|;
    var f := d + |Pointed(n.fraction)|;
    && From(all, f, tail) && d <= |all|
    && SignEnd(all, 0) == k && (At(all, 0, '-') <==> n.sign == "-")
    && DigitsEnd(all, k) == d && Slice(all, k, d, n.whole) && FractionEnd(all, d) == f
    && (n.fraction.Some? ==> Slice(all, d + 1, f, n.fraction.value))
  }

  lemma Parts(n: Numeral, rest: string)
    requires WellFormed(n) && Ends(n, rest)
    ensures Found(Text(n) + rest, n, PowerText(n) + rest)
  {
    hide AllDigits, IsSignText, IsSign, At, WellFormed, Ends, PowerText, Pointed, Text, From, Slice, DigitsEnd,
         SignEnd, FractionEnd, NoDigit;
    var all, tail := Text(n) + rest, PowerText(n) + rest;
    var back := Pointed(n.fraction) + tail;
    Behind(n, rest);
    Whole(all);
    Joined(n, rest);
    SignPiece(all, 0, n.sign, n.whole + back);
    DigitsPiece(all, |n.sign|, n.whole, back);
    FractionPiece(all, |n.sign| + |n.whole|, n.fraction, tail);
  }

  lemma Whole(all: string)
    ensures From(all, 0, all)
  {
  }

  /** How the pieces of a numeral begin. */
  lemma Behind(n: Numeral, rest: string)
    requires WellFormed(n) && Ends(n, rest)
    ensures var tail := PowerText(n) + rest;
            var body := n.whole + (Pointed(n.fraction) + tail);
            && (body == "" || !IsSign(body[0])) && NoDigit(Pointed(n.fraction) + tail) && NoDigit(tail)
            && (n.fraction.None? ==> !At(tail, 0, '.'))
            && IsSignText(n.sign) && AllDigits(n.whole) && (n.fraction.Some? ==> AllDigits(n.fraction.value))
            && (body == "" || n.sign != "" || !IsSign(body[0]))
  {
  }

  lemma Joined(n: Numeral, rest: string)
    ensures Text(n) + rest == n.sign + (n.whole + (Pointed(n.fraction) + (PowerText(n) + rest)))
  {
    hide Pointed, PowerText;
    var front := n.sign + n.whole;
    assert front + Pointed(n.fraction) + PowerText(n) == front + (Pointed(n.fraction) + PowerText(n));
  }

  /** atof in exact arithmetic: the digits as one whole number, shifted by the power of ten and by
      the places behind the point. */
  lemma AtofNumeral(n: Numeral, rest: string)
    requires WellFormed(n) && Ends(n, rest)
    ensures AllDigits(n.whole + Fraction(n))
    ensures var x, e := Atof(Text(n) + rest), TenTo(n);
            var digits := Value(n.whole + Fraction(n)) as real * (if n.sign == "-" then -1.0 else 1.0);
            x * Pow10(|Fraction(n)|) as real * Pow10(if e < 0 then -e else 0) as real
            == digits * Pow10(if e > 0 then e else 0) as real
  {
    hide Atof, Value, Text, WellFormed, Ends, Scale, TenTo, Fraction, Pow10, AllDigits;
    AllDigitsOf(n);
    var e, sum := TenTo(n), Value(n.whole) as real + FractionValue(n);
    AtofScaled(n, rest);
    ValueAppend(n.whole, Fraction(n));
    Scaled(sum, e);
    Shifted(Value(n.whole) as real, FractionValue(n), Pow10(|Fraction(n)|) as real,
            Value(n.whole + Fraction(n)) as real, Scale(sum, e),
            Pow10(if e < 0 then -e else 0) as real, Pow10(if e > 0 then e else 0) as real);
  }

  lemma AllDigitsOf(n: Numeral)
    requires WellFormed(n)
    ensures AllDigits(n.whole) && AllDigits(Fraction(n))
  {
  }

  lemma AtofScaled(n: Numeral, rest: string)
    requires WellFormed(n) && Ends(n, rest)
    ensures AllDigits(n.whole)
    ensures var x := Scale(Value(n.whole) as real + FractionValue(n), TenTo(n));
            Atof(Text(n) + rest) == if n.sign == "-" then -x else x
  {
    hide Found, Value, AllDigits, Text, Ends, Scale, TenTo, Atof, WellFormed, FractionValue;
    var all := Text(n) + rest;
    AllDigitsOf(n);
    Parts(n, rest);
    FoundFrom(all, n, PowerText(n) + rest);
    PowerPiece(all, |n.sign| + |n.whole| + |Pointed(n.fraction)|, n, rest);
    AtofFound(all, n, PowerText(n) + rest);
  }

  lemma AtofFound(all: string, n: Numeral, tail: string)
    requires WellFormed(n) && Found(all, n, tail)
    requires Exponent(all, |n.sign| + |n.whole| + |Pointed(n.fraction)|) == TenTo(n)
    ensures AllDigits(n.whole)
    ensures var x := Scale(Value(n.whole) as real + FractionValue(n), TenTo(n));
            Atof(all) == if n.sign == "-" then -x else x
  {
    hide DigitsEnd, SignEnd, FractionEnd, At, Exponent, Value, AllDigits, Scale, TenTo, Pow10;
  }

  function FractionValue(n: Numeral): (x: real)
    requires WellFormed(n)
    ensures x * Pow10(|Fraction(n)|) as real == Value(Fraction(n)) as real
  {
    if n.fraction.Some? then Value(n.fraction.value) as real / Pow10(|n.fraction.value|) as real else 0.0
  }

  lemma Scaled(x: real, e: int)
    ensures Scale(x, e) * Pow10(if e < 0 then -e else 0) as real == x * Pow10(if e > 0 then e else 0) as real
  {
  }

  lemma Shifted(whole: real, fraction: real, places: real, digits: real, x: real, down: real, up: real)
    requires digits == whole * places + fraction * places && x * down == (whole + fraction) * up
    ensures x * places * down == digits * up && -x * places * down == -digits * up
  {
    assert x * places * down == (x * down) * places;
    assert (whole + fraction) * up * places == (whole * places + fraction * places) * up;
  }

  // ---------------------------------------------------------------- the scanner

  /** The scanner takes a numeral whole, as long as a power of ten has a small e, and makes a
      float of it exactly if it has a point or a power of ten; otherwise a long, kept within the
      limits of one. */
  lemma ScanNumeral(n: Numeral, rest: string)
    requires WellFormed(n) && Ends(n, rest) && n.sign + n.whole != ""
    requires n.power.Some? ==> n.power.value.letter == 'e'
    ensures var s := Text(n) + rest;
            && s != "" && StartsNumber(s[0]) && Scan(s).1 == |Text(n)|
            && (if n.fraction.Some? || n.power.Some? then Scan(s).0 == FloatTok(Atof(s))
                else Scan(s).0 == IntTok(Clamp(Signed(n.sign == "-", Value(n.whole)))))
  {
    hide Atof, Atol, Text, Ends, WellFormed, NumberEnd, IsFloatText, Clamp, Signed, Value;
    FirstCharacter(n, rest);
    AllDigitsOf(n);
    NumeralShape(n, rest);
    NumeralLong(n, rest);
  }

  lemma NumeralShape(n: Numeral, rest: string)
    requires WellFormed(n) && Ends(n, rest) && n.sign + n.whole != ""
    requires n.power.Some? ==> n.power.value.letter == 'e'
    ensures var s := Text(n) + rest;
            s != "" && NumberEnd(s) == |Text(n)| && (IsFloatText(s) <==> n.fraction.Some? || n.power.Some?)
  {
    hide AllDigits, IsSignText, Ends, Text, WellFormed, Found, At, StartsNumber, NumberEnd, IsFloatText,
         Pointed, ExponentEnd, Exponent;
    var s, f := Text(n) + rest, |n.sign| + |n.whole| + |Pointed(n.fraction)|;
    Parts(n, rest);
    Behind(n, rest);
    FoundFrom(s, n, PowerText(n) + rest);
    PowerPiece(s, f, n, rest);
    FirstCharacter(n, rest);
    SecondOn(s, |n.sign|);
    PointAt(s, n, PowerText(n) + rest);
    PowerAt(s, n, rest);
    WholeShape(s, n, PowerText(n) + rest, |Text(n)|);
  }

  lemma FoundFrom(all: string, n: Numeral, tail: string)
    requires Found(all, n, tail)
    ensures From(all, |n.sign| + |n.whole| + |Pointed(n.fraction)|, tail)
    ensures DigitsEnd(all, |n.sign|) == |n.sign| + |n.whole|
  {
  }

  lemma WholeShape(s: string, n: Numeral, tail: string, end: nat)
    requires s != "" && Found(s, n, tail) && DigitsEnd(s, 1) == |n.sign| + |n.whole|
    requires At(s, |n.sign| + |n.whole|, '.') <==> n.fraction.Some?
    requires var f := |n.sign| + |n.whole| + |Pointed(n.fraction)|;
             && f <= |s| && (At(s, f, 'e') <==> n.power.Some?) && ExponentEnd(s, f) == end
             && (n.power.None? ==> end == f)
    ensures NumberEnd(s) == end && (IsFloatText(s) <==> n.fraction.Some? || n.power.Some?)
  {
    hide DigitsEnd, From, Slice, ExponentEnd, SignEnd;
  }

  lemma NumeralLong(n: Numeral, rest: string)
    requires WellFormed(n) && Ends(n, rest)
    ensures AllDigits(n.whole) && Atol(Text(n) + rest) == Clamp(Signed(n.sign == "-", Value(n.whole)))
  {
    hide AllDigits, IsSignText, Ends, Text, From, Value, DigitsEnd, FractionEnd, SignEnd, Clamp, Signed;
    AllDigitsOf(n);
    Parts(n, rest);
  }

  lemma FirstCharacter(n: Numeral, rest: string)
    requires WellFormed(n) && n.sign + n.whole != ""
    ensures var s := Text(n) + rest; s != "" && StartsNumber(s[0])
    ensures |Text(n)| == |n.sign| + |n.whole| + |Pointed(n.fraction)| + |PowerText(n)|
    ensures n.sign == "" ==> IsDigit((Text(n) + rest)[0])
  {
  }

  lemma SecondOn(s: string, k: nat)
    requires s != "" && (k == 1 || (k == 0 && IsDigit(s[0])))
    ensures DigitsEnd(s, 1) == DigitsEnd(s, k)
  {
  }

  lemma PointAt(s: string, n: Numeral, tail: string)
    requires Found(s, n, tail) && (n.fraction.None? ==> !At(tail, 0, '.'))
    ensures At(s, |n.sign| + |n.whole|, '.') <==> n.fraction.Some?
  {
  }

  lemma PowerAt(s: string, n: Numeral, rest: string)
    requires Found(s, n, PowerText(n) + rest) && Ends(n, rest) && (n.power.Some? ==> n.power.value.letter == 'e')
    ensures At(s, |n.sign| + |n.whole| + |Pointed(n.fraction)|, 'e') <==> n.power.Some?
  {
  }
}
