/** The language of the camera message scan: which texts it reads as which keywords and values. */
module CameraGrammar {
  import opened Decimal
  import opened CameraMessages

  /** One entry as it may be written: newlines, the keyword, the length with any leading zeros, the
      value, and whatever character stands where its closing slash should. */
  datatype Spelled = Spelled(lines: nat, key: string, digits: string, value: string, close: char)

  function Newlines(n: nat): (s: string)
    ensures |s| == n && forall i :: 0 <= i < n ==> s[i] == '\n'
  {
    seq(n, i => '\n')
  }

  predicate WellSpelled(x: Spelled)
  {
    && (forall i :: 0 <= i < |x.key| ==> x.key[i] != '/' && x.key[i] != '\0')
    && x.digits != "" && AllDigits(x.digits) && Decimal.Value(x.digits) == |x.value| <= 65535
  }

  function FieldText(x: Spelled): string { x.digits + "V/" + x.value + [x.close] }

  function Text(x: Spelled): string { Newlines(x.lines) + ("*K/" + (x.key + ("/" + FieldText(x)))) }

  function TextAll(xs: seq<Spelled>): string { if xs == [] then "" else Text(xs[0]) + TextAll(xs[1..]) }

  predicate AllWellSpelled(xs: seq<Spelled>) { forall i :: 0 <= i < |xs| ==> WellSpelled(xs[i]) }

  /** The entries in order, later ones overriding earlier ones. */
  function Meaning(xs: seq<Spelled>, m: map<string, string>): map<string, string>
  {
    if xs == [] then m else Meaning(xs[1..], m[xs[0].key := xs[0].value])
  }

  // ---------------------------------------------------------------- the pieces

  lemma {:induction false} NewlinesSkipped(n: nat, rest: string)
    requires rest == "" || rest[0] != '\n'
    ensures SkipNewlines(Newlines(n) + rest) == rest
    decreases n
  {
    var s := Newlines(n) + rest;
    if n > 0 {
      assert s[1..] == Newlines(n - 1) + rest;
      NewlinesSkipped(n - 1, rest);
    } else {
      assert s == rest;
    }
  }

  lemma {:induction false} SkippedNewlines(s: string)
    ensures var r := SkipNewlines(s); s == Newlines(|s| - |r|) + r && (r == "" || r[0] != '\n')
    decreases |s|
  {
    if s != "" && s[0] == '\n' {
      SkippedNewlines(s[1..]);
      assert s == ['\n'] + s[1..];
      var r := SkipNewlines(s);
      assert Newlines(|s| - |r|) == ['\n'] + Newlines(|s| - 1 - |r|);
    } else {
      assert s == Newlines(0) + s;
    }
  }

  lemma HeadIs(n: nat, rest: string, slack: string)
    ensures StartOfEntry(Newlines(n) + ("*K/" + rest)) == Key(rest)
    ensures StartOfEntry(Newlines(n) + ("*Q" + slack)) == Stop(Quit)
  {
    NewlinesSkipped(n, "*K/" + rest);
    NewlinesSkipped(n, "*Q" + slack);
    assert ("*K/" + rest)[3..] == rest;
  }

  lemma HeadOf(s: string)
    ensures var n := |s| - |SkipNewlines(s)|;
            match StartOfEntry(s)
            case Key(rest) => s == Newlines(n) + ("*K/" + rest)
            case Stop(Quit) => |s| >= n + 2 && s == Newlines(n) + ("*Q" + s[n + 2..])
            case Stop(_) => true
  {
    hide Newlines;
    SkippedNewlines(s);
    var r := SkipNewlines(s);
    match StartOfEntry(s)
    case Key(rest) => assert r == "*K/" + rest;
    case Stop(Quit) =>
      assert r == "*Q" + r[2..];
      assert s[|s| - |r| + 2..] == r[2..];
    case Stop(_) =>
  }

  lemma FieldIs(x: Spelled, rest: string)
    requires WellSpelled(x)
    ensures ValueField(FieldText(x) + rest) == Field.Value(x.value, rest)
  {
    hide DigitsEnd, Decimal.Value, AllDigits, ValueField;
    var s, e := FieldText(x) + rest, |x.digits|;
    assert s[..e] == x.digits && s[e] == 'V' && s[e + 1] == '/';
    assert s[e + 2..e + 2 + |x.value|] == x.value && s[e + 3 + |x.value|..] == rest;
    DigitsBefore(x.digits, s);
    FieldAt(s, e, |x.value|);
  }

  lemma FieldOf(s: string) returns (digits: string, close: char)
    requires ValueField(s).Value?
    ensures var f := ValueField(s);
            && digits != "" && AllDigits(digits) && Decimal.Value(digits) == |f.value| <= 65535
            && s == digits + "V/" + f.value + [close] + f.rest
  {
    var f, e := ValueField(s), DigitsEnd(s, 0);
    var n := |f.value|;
    digits, close := s[..e], s[e + 2 + n];
    hide DigitsEnd, Decimal.Value;
    assert s[e..e + 2] == "V/" && s[e + 2..e + 2 + n] == f.value;
    assert s == s[..e] + s[e..e + 2] + s[e + 2..e + 2 + n] + [s[e + 2 + n]] + s[e + 3 + n..];
  }

  // ---------------------------------------------------------------- one entry

  /** What one round of the scan does with a spelled entry. */
  lemma DecodeSpelled(x: Spelled, rest: string, m: map<string, string>)
    requires WellSpelled(x)
    ensures Decode(Text(x) + rest, m) == Decode(rest, m[x.key := x.value])
  {
    hide ValueField, StartOfEntry, KeyLength, FieldText, Newlines;
    var field := FieldText(x) + rest;
    var r := x.key + "/" + field;
    assert Text(x) + rest == Newlines(x.lines) + ("*K/" + r);
    HeadIs(x.lines, r, "");
    KeyLengthIs(x.key, field);
    assert r[|x.key|] == '/' && r[..|x.key|] == x.key && r[|x.key| + 1..] == field;
    FieldIs(x, rest);
  }

  /** One round that goes on has read a spelled entry. */
  lemma SpelledRound(s: string, m: map<string, string>) returns (x: Spelled, rest: string)
    requires StartOfEntry(s).Key?
    requires var r := StartOfEntry(s).rest;
             var k := KeyLength(r);
             k < |r| && r[k] == '/' && ValueField(r[k + 1..]).Value?
    ensures WellSpelled(x) && s == Text(x) + rest && |rest| < |s|
    ensures Decode(s, m) == Decode(rest, m[x.key := x.value])
  {
    hide Decode, StartOfEntry, ValueField, KeyLength, Text, WellSpelled, Newlines, AllDigits, Decimal.Value,
         SkipNewlines;
    var r := StartOfEntry(s).rest;
    var k := KeyLength(r);
    var f := ValueField(r[k + 1..]);
    RoundStep(s, m, r, k);
    HeadOf(s);
    var digits, close := FieldOf(r[k + 1..]);
    x, rest := Spelled(|s| - |SkipNewlines(s)|, r[..k], digits, f.value, close), f.rest;
    KeyBefore(r, k);
    SpelledJoined(x, rest, r, s);
    Shorter(x, rest, s);
    IsWellSpelled(x);
  }

  lemma RoundStep(s: string, m: map<string, string>, r: string, k: nat)
    requires StartOfEntry(s) == Key(r) && k == KeyLength(r)
    requires k < |r| && r[k] == '/' && ValueField(r[k + 1..]).Value?
    ensures var f := ValueField(r[k + 1..]); Decode(s, m) == Decode(f.rest, m[r[..k] := f.value])
    ensures forall i :: 0 <= i < k ==> r[..k][i] != '/' && r[..k][i] != '\0'
  {
    hide StartOfEntry, ValueField;
  }

  lemma KeyBefore(r: string, k: nat)
    requires k < |r| && r[k] == '/'
    ensures r == r[..k] + ("/" + r[k + 1..])
  {
  }

  lemma Shorter(x: Spelled, rest: string, s: string)
    requires s == Text(x) + rest
    ensures |rest| < |s|
  {
  }

  lemma IsWellSpelled(x: Spelled)
    requires forall i :: 0 <= i < |x.key| ==> x.key[i] != '/' && x.key[i] != '\0'
    requires x.digits != "" && AllDigits(x.digits) && Decimal.Value(x.digits) == |x.value| <= 65535
    ensures WellSpelled(x)
  {
  }

  lemma NeverQuit(s: string)
    ensures ValueField(s).Broken? ==> ValueField(s).status != Quit
  {
  }

  lemma SpelledJoined(x: Spelled, rest: string, r: string, s: string)
    requires r == x.key + ("/" + (x.digits + "V/" + x.value + [x.close] + rest))
    requires s == Newlines(x.lines) + ("*K/" + r)
    ensures s == Text(x) + rest
  {
    hide Newlines;
    assert r == x.key + ("/" + FieldText(x)) + rest;
  }

  // ---------------------------------------------------------------- the whole scan

  /** How a text is read: well spelled entries, and what is left when no more can be taken. */
  ghost predicate ReadsAs(s: string, xs: seq<Spelled>, left: string)
  {
    AllWellSpelled(xs) && s == TextAll(xs) + left
  }

  /** The end mark, perhaps behind newlines. */
  ghost predicate AtEnd(left: string) { exists n: nat, slack: string :: left == Newlines(n) + ("*Q" + slack) }

  lemma {:induction false} DecodeAll(xs: seq<Spelled>, left: string, m: map<string, string>)
    requires AllWellSpelled(xs)
    ensures Decode(TextAll(xs) + left, m) == Decode(left, Meaning(xs, m))
    decreases |xs|
  {
    hide Decode, Text, WellSpelled;
    if xs == [] {
      assert TextAll(xs) + left == left;
    } else {
      assert TextAll(xs) + left == Text(xs[0]) + (TextAll(xs[1..]) + left);
      DecodeSpelled(xs[0], TextAll(xs[1..]) + left, m);
      DecodeAll(xs[1..], left, m[xs[0].key := xs[0].value]);
    }
  }

  /** Every scan reads a list of spelled entries and stops behind them. */
  lemma {:induction false} DecodeReads(s: string, m: map<string, string>) returns (xs: seq<Spelled>, left: string)
    ensures ReadsAs(s, xs, left) && Decode(s, m) == Decoded(Meaning(xs, m), Decode(s, m).status)
    ensures Decode(s, m).status == Quit ==> AtEnd(left)
    decreases |s|
  {
    hide Text, WellSpelled, ValueField, Newlines, StartOfEntry, KeyLength;
    xs, left := [], s;
    assert TextAll([]) + s == s;
    if StartOfEntry(s).Key? {
      var r := StartOfEntry(s).rest;
      var k := KeyLength(r);
      if k < |r| {
        NeverQuit(r[k + 1..]);
      }
      if k < |r| && r[k] == '/' && ValueField(r[k + 1..]).Value? {
        var x, rest := SpelledRound(s, m);
        var ys, end := DecodeReads(rest, m[x.key := x.value]);
        xs, left := [x] + ys, end;
        assert TextAll(xs) + left == Text(x) + (TextAll(ys) + left);
      }
    } else {
      HeadOf(s);
    }
  }

  /** The scan ends at the end mark with a map if and only if the text is a list of spelled entries
      with that meaning and the end mark behind them. */
  lemma DecodeExact(s: string, m: map<string, string>, result: map<string, string>)
    ensures Decode(s, m) == Decoded(result, Quit)
            <==> exists xs, left :: ReadsAs(s, xs, left) && AtEnd(left) && Meaning(xs, m) == result
  {
    hide Decode, ReadsAs, Meaning;
    if Decode(s, m) == Decoded(result, Quit) {
      var xs, left := DecodeReads(s, m);
      assert ReadsAs(s, xs, left) && AtEnd(left) && Meaning(xs, m) == result;
    }
    if exists xs, left :: ReadsAs(s, xs, left) && AtEnd(left) && Meaning(xs, m) == result {
      var xs, left :| ReadsAs(s, xs, left) && AtEnd(left) && Meaning(xs, m) == result;
      ReadsEnded(s, xs, left, m);
    }
  }

  lemma ReadsEnded(s: string, xs: seq<Spelled>, left: string, m: map<string, string>)
    requires ReadsAs(s, xs, left) && AtEnd(left)
    ensures Decode(s, m) == Decoded(Meaning(xs, m), Quit)
  {
    hide TextAll, Text;
    DecodeAll(xs, left, m);
    var n: nat, slack: string :| left == Newlines(n) + ("*Q" + slack);
    HeadIs(n, "", slack);
  }

  /** A length throws exactly if it has no digits or does not fit an int, and is refused without
      throwing if it is only too large for a value. */
  lemma LengthRefused(digits: string, rest: string)
    requires AllDigits(digits) && rest != "" && !IsDigit(rest[0])
    ensures ValueField(digits + rest) == Broken(Throws) <==> digits == "" || Decimal.Value(digits) > 2147483647
    ensures digits != "" && 65535 < Decimal.Value(digits) <= 2147483647 ==>
              ValueField(digits + rest) == Broken(BadFormat)
  {
    hide DigitsEnd, Decimal.Value;
    var s := digits + rest;
    DigitsEndUnique(s, 0, |digits|);
    assert s[..|digits|] == digits;
  }
}
