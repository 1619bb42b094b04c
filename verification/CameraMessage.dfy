/** CameraMessage: a keyword map written as counted text behind the message header. */
module CameraMessages {
  import opened Decimal
  import opened Sequences
  import opened GenMessages

  const CAMERA_MESSAGE_ID: char := 151 as char  // 0x97
  const MAX_VALUE: nat := 65535
  const INT_MAX: nat := 0x7FFF_FFFF

  type Entry = (string, string)

  /** One keyword and its value, as send writes them. */
  function EntryText(e: Entry): string
  {
    "\n*K/" + e.0 + "/" + Digits(|e.1|) + "V/" + e.1 + "/"
  }

  const Ending: string := "\n*Q\0"

  /** Everything behind the header, the entries in the order the map yields them. */
  function Body(entries: seq<Entry>): string
  {
    if entries == [] then Ending else EntryText(entries[0]) + Body(entries[1..])
  }

  // ---------------------------------------------------------------- decoding

  /** Quit: the end mark was found.  BadFormat: a message and a break, keeping what was read.
      Throws: stoi throws.  PastEnd: the scan runs off the buffer. */
  datatype Status = Quit | BadFormat | Throws | PastEnd

  datatype Decoded = Decoded(keyValues: map<string, string>, status: Status)

  function SkipNewlines(s: string): (r: string)
    ensures |r| <= |s|
  {
    if s != "" && s[0] == '\n' then SkipNewlines(s[1..]) else s
  }

  /** Length of the text before the first slash or NUL. */
  function KeyLength(s: string): (n: nat)
    ensures n <= |s|
    ensures forall i :: 0 <= i < n ==> s[i] != '/' && s[i] != '\0'
    ensures n < |s| ==> s[n] == '/' || s[n] == '\0'
  {
    if s != "" && s[0] != '/' && s[0] != '\0' then 1 + KeyLength(s[1..]) else 0
  }

  /** The head of an entry: the text behind "*K/", or why there is none. */
  datatype Head = Key(rest: string) | Stop(status: Status)

  function StartOfEntry(s: string): (h: Head)
    ensures h.Key? ==> |h.rest| < |s|
  {
    var r := SkipNewlines(s);
    if r == "" then Stop(PastEnd)
    else if r[0] != '*' then Stop(BadFormat)
    else if |r| < 2 then Stop(PastEnd)
    else if r[1] == 'Q' then Stop(Quit)
    else if r[1] != 'K' then Stop(BadFormat)
    else if |r| < 3 then Stop(PastEnd)
    else if r[2] != '/' then Stop(BadFormat)
    else Key(r[3..])
  }

  /** The value behind a keyword: "<length>V/<value>/" and what follows it. */
  datatype Field = Value(value: string, rest: string) | Broken(status: Status)

  function ValueField(s: string): (f: Field)
    ensures f.Value? ==> |f.rest| < |s| && |f.value| <= MAX_VALUE
  {
    var e := DigitsEnd(s, 0);
    if e == |s| then Broken(PastEnd)
    else if e == 0 then Broken(Throws)
    else
      var n := Decimal.Value(s[..e]);
      if n > INT_MAX then Broken(Throws)
      else if n > MAX_VALUE then Broken(BadFormat)
      else if s[e] != 'V' then Broken(BadFormat)
      else if e + 1 == |s| then Broken(PastEnd)
      else if s[e + 1] != '/' then Broken(BadFormat)
      else if e + 2 + n >= |s| then Broken(PastEnd)
      else Value(s[e + 2..e + 2 + n], s[e + 3 + n..])
  }

  /** The scanning loop of CameraMessage(GenMessage *), adding to the map so far. */
  function Decode(s: string, m: map<string, string>): Decoded
    decreases |s|
  {
    match StartOfEntry(s)
    case Stop(status) => Decoded(m, status)
    case Key(r) =>
      var k := KeyLength(r);
      if k == |r| then Decoded(m, PastEnd)
      else if r[k] != '/' then Decoded(m, BadFormat)
      else
        match ValueField(r[k + 1..])
        case Broken(status) => Decoded(m, status)
        case Value(value, rest) => Decode(rest, m[r[..k] := value])
  }

  // ---------------------------------------------------------------- the round trip

  /** A keyword the format can carry, and a value it can count. */
  predicate Clean(key: string, value: string)
  {
    (forall i :: 0 <= i < |key| ==> key[i] != '/' && key[i] != '\0') && |value| <= MAX_VALUE
  }

  predicate CleanMap(m: map<string, string>)
  {
    forall key :: key in m ==> Clean(key, m[key])
  }

  lemma KeyLengthIs(key: string, rest: string)
    requires forall i :: 0 <= i < |key| ==> key[i] != '/' && key[i] != '\0'
    ensures KeyLength(key + "/" + rest) == |key|
  {
    var s := key + "/" + rest;
    var n := KeyLength(s);
    assert s[|key|] == '/';
    assert forall i :: 0 <= i < |key| ==> s[i] == key[i];
  }

  lemma ValueFieldIs(value: string, rest: string)
    requires |value| <= MAX_VALUE
    ensures ValueField(Digits(|value|) + "V/" + value + "/" + rest) == Field.Value(value, rest)
  {
    hide Digits, DigitsEnd, ValueField, Decimal.Value, AllDigits, IsDigit;
    var digits := Digits(|value|);
    var s := digits + "V/" + value + "/" + rest;
    FieldPieces(digits, value, rest);
    DigitsBefore(digits, s);
    FieldAt(s, |digits|, |value|);
  }

  lemma DigitsBefore(digits: string, s: string)
    requires AllDigits(digits) && |digits| < |s| && s[..|digits|] == digits && s[|digits|] == 'V'
    ensures DigitsEnd(s, 0) == |digits|
  {
    hide DigitsEnd;
    assert forall k :: 0 <= k < |digits| ==> s[k] == s[..|digits|][k];
    DigitsEndUnique(s, 0, |digits|);
  }

  lemma FieldAt(s: string, e: nat, n: nat)
    requires 0 < e && e + 2 + n < |s| && DigitsEnd(s, 0) == e
    requires AllDigits(s[..e]) && Decimal.Value(s[..e]) == n <= MAX_VALUE
    requires s[e] == 'V' && s[e + 1] == '/'
    ensures ValueField(s) == Field.Value(s[e + 2..e + 2 + n], s[e + 3 + n..])
  {
  }

  lemma FieldPieces(digits: string, value: string, rest: string)
    ensures var s := digits + "V/" + value + "/" + rest;
            var e := |digits|;
            && s[..e] == digits && s[e] == 'V' && s[e + 1] == '/'
            && s[e + 2..e + 2 + |value|] == value && s[e + 3 + |value|..] == rest
  {
  }

  lemma EntryHead(rest: string)
    ensures StartOfEntry("\n*K/" + rest) == Key(rest)
  {
    var s := "*K/" + rest;
    assert ("\n*K/" + rest)[1..] == s;
    assert SkipNewlines(s) == s && s[3..] == rest;
  }

  lemma EndingHead(slack: string)
    ensures StartOfEntry(Ending + slack) == Stop(Quit)
  {
    var s := "*Q\0" + slack;
    assert (Ending + slack)[1..] == s;
    assert SkipNewlines(s) == s;
  }

  /** Decoding a clean entry puts it into the map and goes on behind it. */
  lemma DecodeEntry(e: Entry, rest: string, m: map<string, string>)
    requires Clean(e.0, e.1)
    ensures Decode(EntryText(e) + rest, m) == Decode(rest, m[e.0 := e.1])
  {
    hide Digits, ValueField, StartOfEntry, KeyLength;
    var field := Digits(|e.1|) + "V/" + e.1 + "/" + rest;
    var r := e.0 + "/" + field;
    assert EntryText(e) + rest == "\n*K/" + r by { EntryTextSplit(e, rest); }
    EntryHead(r);
    KeyLengthIs(e.0, field);
    assert r[|e.0|] == '/';
    assert r[..|e.0|] == e.0 && r[|e.0| + 1..] == field;
    ValueFieldIs(e.1, rest);
  }

  lemma EntryTextSplit(e: Entry, rest: string)
    ensures EntryText(e) + rest == "\n*K/" + (e.0 + "/" + (Digits(|e.1|) + "V/" + e.1 + "/" + rest))
  {
  }

  /** Later entries override earlier ones. */
  function MapOf(entries: seq<Entry>, m: map<string, string>): map<string, string>
  {
    if entries == [] then m else MapOf(entries[1..], m[entries[0].0 := entries[0].1])
  }

  predicate CleanEntries(entries: seq<Entry>)
  {
    forall i :: 0 <= i < |entries| ==> Clean(entries[i].0, entries[i].1)
  }

  lemma {:induction false} DecodeBody(entries: seq<Entry>, slack: string, m: map<string, string>)
    requires CleanEntries(entries)
    ensures Decode(Body(entries) + slack, m) == Decoded(MapOf(entries, m), Quit)
    decreases |entries|
  {
    if entries == [] {
      EndingHead(slack);
    } else {
      Assoc(EntryText(entries[0]), Body(entries[1..]), slack);
      DecodeEntry(entries[0], Body(entries[1..]) + slack, m);
      DecodeBody(entries[1..], slack, m[entries[0].0 := entries[0].1]);
    }
  }

  lemma CleanUpdate(m: map<string, string>, key: string, value: string)
    requires CleanMap(m) && Clean(key, value)
    ensures CleanMap(m[key := value])
  {
  }

  /** Nothing unclean ever comes out of a message. */
  lemma {:induction false} DecodedClean(s: string, m: map<string, string>)
    requires CleanMap(m)
    ensures CleanMap(Decode(s, m).keyValues)
    decreases |s|
  {
    hide StartOfEntry, ValueField, CleanMap;
    match StartOfEntry(s)
    case Stop(_) =>
    case Key(r) =>
      var k := KeyLength(r);
      if k < |r| && r[k] == '/' {
        match ValueField(r[k + 1..])
        case Broken(_) =>
        case Value(value, rest) =>
          CleanUpdate(m, r[..k], value);
          DecodedClean(rest, m[r[..k] := value]);
      }
  }

  /** The entries are the pairs of the map, each key once, in any order. */
  ghost predicate Enumerates(entries: seq<Entry>, m: map<string, string>)
  {
    && (forall i, j :: 0 <= i < j < |entries| ==> entries[i].0 != entries[j].0)
    && (forall i :: 0 <= i < |entries| ==> entries[i].0 in m && m[entries[i].0] == entries[i].1)
    && (forall key :: key in m ==> exists i :: 0 <= i < |entries| && entries[i].0 == key)
  }

  lemma {:induction false} MapOfAt(entries: seq<Entry>, m: map<string, string>, key: string)
    requires forall i, j :: 0 <= i < j < |entries| ==> entries[i].0 != entries[j].0
    ensures forall i :: 0 <= i < |entries| && entries[i].0 == key ==>
              key in MapOf(entries, m) && MapOf(entries, m)[key] == entries[i].1
    ensures (forall i :: 0 <= i < |entries| ==> entries[i].0 != key) ==>
              (key in MapOf(entries, m) <==> key in m) && (key in m ==> MapOf(entries, m)[key] == m[key])
    decreases |entries|
  {
    if entries != [] {
      var rest := entries[1..];
      MapOfAt(rest, m[entries[0].0 := entries[0].1], key);
      assert forall i :: 0 < i < |entries| ==> entries[i] == rest[i - 1];
    }
  }

  lemma MapOfEnumeration(entries: seq<Entry>, m: map<string, string>)
    requires Enumerates(entries, m)
    ensures MapOf(entries, map[]) == m
  {
    forall key ensures key in m <==> key in MapOf(entries, map[])
               ensures key in m ==> MapOf(entries, map[])[key] == m[key]
    {
      MapOfAt(entries, map[], key);
    }
  }

  /** For any iteration order and any bytes behind the end mark, the map comes back exactly
      when its keywords hold no slash and no NUL and its values are at most 65535 long. */
  lemma MapRoundTrip(entries: seq<Entry>, m: map<string, string>, slack: string)
    requires Enumerates(entries, m)
    ensures Decode(Body(entries) + slack, map[]) == Decoded(m, Quit) <==> CleanMap(m)
  {
    MapOfEnumeration(entries, m);
    if CleanMap(m) {
      assert CleanEntries(entries);
      DecodeBody(entries, slack, map[]);
    }
    DecodedClean(Body(entries) + slack, map[]);
  }

  // ---------------------------------------------------------------- the size of the buffer

  /** The size send works out before it writes anything. */
  function BufferSize(entries: seq<Entry>): nat
  {
    if entries == [] then 19 else |entries[0].0| + 4 + |entries[0].1| + 7 + BufferSize(entries[1..])
  }

  /** Decimal digits of the value lengths, three allowed for each. */
  function ExtraDigits(entries: seq<Entry>): int
  {
    if entries == [] then 0 else |Digits(|entries[0].1|)| - 3 + ExtraDigits(entries[1..])
  }

  lemma {:induction false} BodySize(entries: seq<Entry>)
    ensures 7 + |Body(entries)| == BufferSize(entries) - 8 + ExtraDigits(entries)
    decreases |entries|
  {
    if entries != [] {
      BodySize(entries[1..]);
    }
  }

  /** The message fits its buffer exactly while the lengths have at most eight digits more than
      three for each entry. */
  lemma FitsExactly(entries: seq<Entry>)
    ensures 7 + |Body(entries)| <= BufferSize(entries) <==> ExtraDigits(entries) <= 8
  {
    BodySize(entries);
  }

  /** Values of up to 999 bytes always fit, however many there are. */
  lemma {:induction false} ShortValuesFit(entries: seq<Entry>)
    requires forall i :: 0 <= i < |entries| ==> |entries[i].1| < 1000
    ensures ExtraDigits(entries) <= 0
    decreases |entries|
  {
    if entries != [] {
      assert Pow10(3) == 1000;
      DigitsLength(|entries[0].1|, 3);
      ShortValuesFit(entries[1..]);
    }
  }

  /** Nine values of a thousand bytes are one digit too many. */
  lemma OverflowingMap()
    ensures var entry := ("k", Zeros(1000));
            var entries := seq(9, i => entry);
            ExtraDigits(entries) == 9 && 7 + |Body(entries)| > BufferSize(entries)
  {
    var entry := ("k", Zeros(1000));
    assert Pow10(3) == 1000 && Pow10(4) == 10000;
    DigitsLength(1000, 3);
    DigitsLength(1000, 4);
    SameDigits(seq(9, i => entry), entry);
    FitsExactly(seq(9, i => entry));
  }

  lemma {:induction false} SameDigits(entries: seq<Entry>, e: Entry)
    requires forall i :: 0 <= i < |entries| ==> entries[i] == e
    ensures ExtraDigits(entries) == |entries| * (|Digits(|e.1|)| - 3)
    decreases |entries|
  {
    if entries != [] {
      SameDigits(entries[1..], e);
    }
  }

  // ---------------------------------------------------------------- the message object

  type Byte = c: char | IsByte(c) witness '\0'

  /** The buffer of a message: header, entries, and whatever lies behind the end mark. */
  ghost predicate Carries(content: string, command: char, uniqueId: char, entries: seq<Entry>)
  {
    && IsMessage(content) && |content| >= 7
    && content[4] == CAMERA_MESSAGE_ID && content[5] == command && content[6] == uniqueId
    && Body(entries) <= content[7..]
  }

  predicate ByteEntries(entries: seq<Entry>)
  {
    forall i :: 0 <= i < |entries| ==> AllBytes(entries[i].0) && AllBytes(entries[i].1)
  }

  lemma DigitsAreBytes(s: string)
    requires AllDigits(s)
    ensures AllBytes(s)
  {
  }

  /** start_of_entry */
  method SkipToEntry(s: string, from: nat) returns (at: nat, h: Head)
    requires from <= |s|
    ensures at <= |s| && h == StartOfEntry(s[from..]) && (h.Key? ==> h.rest == s[at..])
  {
    at := from;
    while at < |s| && s[at] == '\n'
      invariant from <= at <= |s| && SkipNewlines(s[at..]) == SkipNewlines(s[from..])
    {
      assert s[at..][1..] == s[at + 1..];
      at := at + 1;
    }
    ghost var r := s[at..];
    assert SkipNewlines(s[from..]) == r;
    if at == |s| { return at, Stop(PastEnd); }
    if s[at] != '*' { return at, Stop(BadFormat); }
    at := at + 1;
    if at == |s| { return at, Stop(PastEnd); }
    if s[at] == 'Q' { return at, Stop(Quit); }
    if s[at] != 'K' { return at, Stop(BadFormat); }
    at := at + 1;
    if at == |s| { return at, Stop(PastEnd); }
    if s[at] != '/' { return at, Stop(BadFormat); }
    at := at + 1;
    assert r[3..] == s[at..];
    h := Key(s[at..]);
  }

  method SkipKeyword(s: string, from: nat) returns (at: nat)
    requires from <= |s|
    ensures at == from + KeyLength(s[from..])
  {
    at := from;
    while at < |s| && s[at] != '/' && s[at] != '\0'
      invariant from <= at <= |s| && at + KeyLength(s[at..]) == from + KeyLength(s[from..])
    {
      assert s[at..][1..] == s[at + 1..];
      at := at + 1;
    }
  }

  lemma SliceOfTail(s: string, from: nat, k: nat, n: nat)
    requires from + k + n < |s|
    ensures s[from + k..from + k + n] == s[from..][k..k + n]
    ensures s[from + k + n + 1..] == s[from..][k + n + 1..]
  {
  }

  /** The digits, the marks and the counted value behind a keyword. */
  method ReadValue(s: string, from: nat) returns (at: nat, f: Field)
    requires from <= |s|
    ensures at <= |s| && f == ValueField(s[from..]) && (f.Value? ==> f.rest == s[at..])
  {
    hide Decimal.Value, DigitsEnd;
    at := from;
    while at < |s| && IsDigit(s[at])
      invariant from <= at <= |s| && forall k :: from <= k < at ==> IsDigit(s[k])
    {
      at := at + 1;
    }
    ghost var r := s[from..];
    ghost var e := at - from;
    DigitsEndUnique(r, 0, e);
    assert s[from..at] == r[..e];
    if at == |s| { return at, Broken(PastEnd); }
    if at == from { return at, Broken(Throws); }
    var n := Decimal.Value(s[from..at]);
    if n > INT_MAX { return at, Broken(Throws); }
    if n > MAX_VALUE { return at, Broken(BadFormat); }
    if s[at] != 'V' { return at, Broken(BadFormat); }
    at := at + 1;
    if at == |s| { return at, Broken(PastEnd); }
    if s[at] != '/' { return at, Broken(BadFormat); }
    at := at + 1;
    if at + n >= |s| { return at, Broken(PastEnd); }
    f := Field.Value(s[at..at + n], s[at + n + 1..]);
    SliceOfTail(s, from, e + 2, n);
    at := at + n + 1;
  }

  class CameraMessage {
    var command: char
    var uniqueId: char
    var keyValues: map<string, string>
    var content: array<Byte>

    constructor (command: char, uniqueId: char)
      ensures this.command == command && this.uniqueId == uniqueId && keyValues == map[] && fresh(content)
    {
      this.command, this.uniqueId, keyValues := command, uniqueId, map[];
      content := new Byte[7];
    }

    method SetKeywordValue(keyword: string, value: string)
      modifies this`keyValues
      ensures keyValues == old(keyValues)[keyword := value]
    {
      keyValues := keyValues[keyword := value];
    }

    /** The loop `for (c : text) *d++ = c`; a byte behind the buffer's end is lost. */
    method Put(text: string, d: nat) returns (end: nat)
      requires AllBytes(text)
      modifies content
      ensures end == d + |text|
      ensures end <= content.Length ==> content[..end] == old(content[..d]) + text
    {
      end := d;
      for k := 0 to |text|
        invariant end == d + k
        invariant end <= content.Length ==> content[..end] == old(content[..d]) + text[..k]
      {
        if end < content.Length {
          content[end] := text[k];
        }
        end := end + 1;
      }
    }

    /** One round of the writing loop of send. */
    method PutEntry(e: Entry, d: nat) returns (end: nat)
      requires AllBytes(e.0) && AllBytes(e.1)
      modifies content
      ensures end == d + |EntryText(e)|
      ensures end <= content.Length ==> content[..end] == old(content[..d]) + EntryText(e)
    {
      ghost var head := content[..if d <= content.Length then d else 0];
      var length := Digits(|e.1|);
      DigitsAreBytes(length);
      end := Put("\n*K/", d);
      end := Put(e.0, end);
      end := Put("/", end);
      end := Put(length, end);
      end := Put("V/", end);
      end := Put(e.1, end);
      end := Put("/", end);
      Regroup8(head, "\n*K/", e.0, "/", length, "V/", e.1, "/");
    }

    /** The first loop of send. */
    method TotalSize(entries: seq<Entry>) returns (size: nat)
      ensures size == BufferSize(entries)
    {
      size := 0;
      for i := 0 to |entries|
        invariant size + BufferSize(entries[i..]) == BufferSize(entries)
      {
        assert entries[i..][1..] == entries[i + 1..];
        size := size + |entries[i].0| + 4;
        size := size + |entries[i].1| + 7;
      }
      assert entries[|entries|..] == [];
      size := size + 19;
    }

    /** The second loop of send, and the end mark. */
    method PutBody(entries: seq<Entry>, d: nat) returns (end: nat)
      requires ByteEntries(entries)
      modifies content
      ensures end == d + |Body(entries)|
      ensures end <= content.Length ==> content[..end] == old(content[..d]) + Body(entries)
    {
      hide EntryText;
      ghost var header := content[..if d <= content.Length then d else 0];
      end := d;
      for i := 0 to |entries|
        invariant end + |Body(entries[i..])| == d + |Body(entries)|
        invariant end <= content.Length ==> content[..end] + Body(entries[i..]) == header + Body(entries)
      {
        assert entries[i..][1..] == entries[i + 1..];
        ghost var before := content[..if end <= content.Length then end else 0];
        end := PutEntry(entries[i], end);
        Assoc(before, EntryText(entries[i]), Body(entries[i + 1..]));
      }
      assert entries[|entries|..] == [];
      end := Put(Ending, end);
    }

    /** send up to GenMessage::send: the entries in the order the map's iterator gives them,
        written into a buffer of the computed size.  Whether they fit it is known beforehand. */
    method Encode(entries: seq<Entry>) returns (fits: bool)
      requires Enumerates(entries, keyValues) && ByteEntries(entries)
      requires BufferSize(entries) <= INT_MAX && IsByte(command) && IsByte(uniqueId)
      modifies this`content
      ensures fits <==> ExtraDigits(entries) <= 8
      ensures fits ==> Carries(content[..], command, uniqueId, entries)
    {
      hide Pack, Body, BufferSize, ExtraDigits, Enumerates;
      var size := TotalSize(entries);
      content := new Byte[size];
      var d := Put(Pack(size), 0);
      d := Put([CAMERA_MESSAGE_ID, command, uniqueId], d);
      FitsExactly(entries);
      ghost var header := Pack(size) + [CAMERA_MESSAGE_ID, command, uniqueId];
      d := PutBody(entries, d);
      fits := d <= content.Length;
      if fits {
        HeaderAndBody(content[..], header, Body(entries));
      }
    }

    /** CameraMessage(GenMessage *): everything the decoder sets, and how its scan ends. */
    method Read(message: string) returns (status: Status)
      modifies this`command, this`uniqueId, this`keyValues
      ensures |message| >= 7 ==> command == message[5] && uniqueId == message[6]
                                 && Decoded(keyValues, status) == Decode(message[7..], map[])
      ensures |message| < 7 ==> status == PastEnd
    {
      if |message| < 7 {
        return PastEnd;
      }
      command, uniqueId, keyValues := message[5], message[6], map[];
      var s := 7;
      while true
        invariant s <= |message| && command == message[5] && uniqueId == message[6]
        invariant Decode(message[s..], keyValues) == Decode(message[7..], map[])
        decreases |message| - s
      {
        hide StartOfEntry, ValueField, KeyLength;
        var at, h := SkipToEntry(message, s);
        if h.Stop? {
          return h.status;
        }
        var k := SkipKeyword(message, at);
        if k == |message| {
          return PastEnd;
        }
        assert h.rest == message[at..] && h.rest[k - at] == message[k];
        if message[k] != '/' {
          return BadFormat;
        }
        var keyword := message[at..k];
        assert keyword == h.rest[..k - at] && h.rest[k - at + 1..] == message[k + 1..];
        var next, f := ReadValue(message, k + 1);
        if f.Broken? {
          return f.status;
        }
        SetKeywordValue(keyword, f.value);
        s := next;
      }
    }
  }

  lemma Regroup8(h: string, a: string, b: string, c: string, d: string, e: string, f: string, g: string)
    ensures h + a + b + c + d + e + f + g == h + (a + b + c + d + e + f + g)
  {
  }

  lemma HeaderAndBody(content: string, header: string, body: string)
    requires |header| + |body| <= |content| && content[..|header| + |body|] == header + body
    ensures body <= content[|header|..] && header <= content
  {
  }

  /** End to end: a message written by Encode is taken off the stream whole, and its keywords,
      values, command and number come out as they went in exactly when the map was clean. */
  lemma MessageRoundTrip(inbound: string, content: string, tail: string, command: char, uniqueId: char,
                         entries: seq<Entry>, m: map<string, string>)
    requires Carries(content, command, uniqueId, entries) && Enumerates(entries, m)
    requires inbound == Frame(content) + tail && AllBytes(inbound)
    ensures Receive(inbound) == (Received(content), tail)
    ensures content[5] == command && content[6] == uniqueId
    ensures Decode(content[7..], map[]) == Decoded(m, Quit) <==> CleanMap(m)
  {
    hide Receive, IsMessage, Decode, Enumerates, CleanMap;
    ReceiveExact(inbound, content, tail);
    var slack := content[7..][|Body(entries)|..];
    assert content[7..] == Body(entries) + slack;
    MapRoundTrip(entries, m, slack);
  }
}
