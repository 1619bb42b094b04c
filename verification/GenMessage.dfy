/** Message framing: a magic byte, a four byte size, and the rest of the message, over a
    stream whose reads and writes move as many bytes as they please. */
module GenMessages {
  import opened Sequences

  /** A byte, as a character. */
  predicate IsByte(c: char) { c as int < 256 }

  const MAGIC: char := 115 as char  // 0x73

  predicate IsInt32(v: int) { -0x8000_0000 <= v < 0x8000_0000 }

  /** The bits of a 32-bit int as a number from 0 up. */
  function Bits(v: int): (n: nat)
    requires IsInt32(v)
    ensures n < 0x1_0000_0000
  {
    if v < 0 then v + 0x1_0000_0000 else v
  }

  function Low(n: nat): (c: char)
    ensures IsByte(c) && c as int == n % 256
  {
    (n % 256) as char
  }

  /** pack_4byte_int: low byte first. */
  function Pack(v: int): (s: string)
    requires IsInt32(v)
    ensures |s| == 4 && AllBytes(s)
  {
    var n := Bits(v);
    [Low(n), Low(n / 256), Low(n / 256 / 256), Low(n / 256 / 256 / 256)]
  }

  predicate AllBytes(s: string) { forall i :: 0 <= i < |s| ==> IsByte(s[i]) }

  /** The number the four bytes spell. */
  function Number(s: string): (n: nat)
    requires |s| == 4 && AllBytes(s)
    ensures n < 0x1_0000_0000
  {
    var n1 := s[2] as int + 256 * (s[3] as int);
    var n2 := s[1] as int + 256 * n1;
    s[0] as int + 256 * n2
  }

  /** get_4byte_int: an int of four shifted bytes, widened to an unsigned long. */
  function Get(s: string): (r: int)
    requires |s| == 4 && AllBytes(s)
    ensures 0 <= r < 0x1_0000_0000_0000_0000
  {
    var n := Number(s);
    if n >= 0x8000_0000 then n - 0x1_0000_0000 + 0x1_0000_0000_0000_0000 else n
  }

  /** An unsigned long stored into an int. */
  function ToInt(r: int): (v: int)
    ensures IsInt32(v)
  {
    var low := r % 0x1_0000_0000;
    if low >= 0x8000_0000 then low - 0x1_0000_0000 else low
  }

  /** Widening and storing back keeps the bits. */
  lemma StoredBits(s: string)
    requires |s| == 4 && AllBytes(s)
    ensures Bits(ToInt(Get(s))) == Number(s)
    ensures ToInt(Get(s)) == if Number(s) >= 0x8000_0000 then Number(s) - 0x1_0000_0000 else Number(s)
  {
    hide Number;
    var n := Number(s);
    if n >= 0x8000_0000 {
      assert Get(s) == n + 0xFFFF_FFFF * 0x1_0000_0000;
    }
  }

  lemma Cut256(a: nat, b: nat)
    requires a < 256
    ensures (a + 256 * b) / 256 == b && (a + 256 * b) % 256 == a
  {
  }

  /** Every 32-bit int survives, negative ones through the widening too. */
  lemma PackGet(v: int)
    requires IsInt32(v)
    ensures ToInt(Get(Pack(v))) == v
  {
    StoredBits(Pack(v));
    var n := Bits(v);
    assert n == n % 256 + 256 * (n / 256);
    assert n / 256 / 256 / 256 < 256;
    assert Number(Pack(v)) == n;
  }

  lemma GetPack(s: string)
    requires |s| == 4 && AllBytes(s)
    ensures Pack(ToInt(Get(s))) == s
  {
    hide Get, ToInt;
    StoredBits(s);
    var n1 := s[2] as int + 256 * (s[3] as int);
    var n2 := s[1] as int + 256 * n1;
    Cut256(s[2] as int, s[3] as int);
    Cut256(s[1] as int, n1);
    Cut256(s[0] as int, n2);
  }

  // ---------------------------------------------------------------- frames

  /** A message buffer as Resize prepares it: its size in its first four bytes. */
  predicate IsMessage(content: string)
  {
    && 5 <= |content| < 0x8000_0000
    && content[..4] == Pack(|content|)
    && AllBytes(content)
  }

  /** What goes over the wire. */
  function Frame(content: string): string { [MAGIC] + content }

  function Frames(contents: seq<string>): string
  {
    if contents == [] then "" else Frame(contents[0]) + Frames(contents[1..])
  }

  /** Refused: the receiver gives up.  Garbled: the stream ended inside the message, and the
      receiver goes on with a buffer it has not filled.  Overflow: a size too small for the
      fields the receiver stores. */
  datatype Outcome = Received(content: string) | Refused | Garbled | Overflow

  /** ReceiveMessage on the bytes that will ever arrive, and what it leaves unread. */
  function Receive(inbound: string): (Outcome, string)
    requires AllBytes(inbound)
  {
    if |inbound| < 5 then (Refused, "")
    else if inbound[0] != MAGIC then (Refused, inbound[5..])
    else
      var size := ToInt(Get(inbound[1..5]));
      if size < 2 then (Refused, inbound[5..])
      else if size < 5 then (Overflow, inbound[5..])
      else if |inbound| < size + 1 then (Garbled, "")
      else (Received(inbound[1..size + 1]), inbound[size + 1..])
  }

  /** A message is received exactly when the stream starts with its frame, and then exactly
      that frame is taken off the stream. */
  lemma ReceiveExact(inbound: string, content: string, rest: string)
    requires AllBytes(inbound)
    ensures Receive(inbound) == (Received(content), rest)
            <==> IsMessage(content) && inbound == Frame(content) + rest
  {
    if IsMessage(content) && inbound == Frame(content) + rest {
      assert inbound[1..5] == content[..4];
      PackGet(|content|);
      assert inbound[1..|content| + 1] == content && inbound[|content| + 1..] == rest;
    }
    if Receive(inbound) == (Received(content), rest) {
      GetPack(inbound[1..5]);
      assert content[..4] == inbound[1..5];
      assert inbound == inbound[..1] + inbound[1..|content| + 1] + inbound[|content| + 1..];
    }
  }

  // ---------------------------------------------------------------- writing and reading

  /** How the next reads or writes go: how many bytes at most, an interrupted call, an error. */
  datatype Pace = Chunk(bytes: nat) | Interrupted | Error

  predicate OnlyChunks(pace: seq<Pace>) { forall i :: 0 <= i < |pace| ==> pace[i].Chunk? }

  /** write(2) of n bytes: how many it takes, negative for none; all of them once the pace runs out. */
  function Taken(n: nat, pace: seq<Pace>): int
  {
    if pace == [] then n
    else match pace[0] case Chunk(k) => (if k < n then k else n) case _ => -1
  }

  function Tail(pace: seq<Pace>): (r: seq<Pace>)
    ensures pace != [] ==> |r| < |pace|
  {
    if pace == [] then [] else pace[1..]
  }

  /** The loop over the magic byte: it goes on while nothing is written, and ends when the byte
      is out or the write has failed, all the same.  Whether it is out, and the pace left. */
  function MagicOut(pace: seq<Pace>): (bool, seq<Pace>)
    decreases |pace|
  {
    if pace != [] && Taken(1, pace) == 0 then MagicOut(Tail(pace)) else (Taken(1, pace) > 0, Tail(pace))
  }

  /** The loop over n bytes of content: how many go out before a write fails, and the pace left. */
  function ContentOut(n: nat, pace: seq<Pace>): (r: (nat, seq<Pace>))
    ensures r.0 <= n
    decreases |pace|
  {
    if n == 0 then (0, pace)
    else if pace == [] then (n, [])
    else if Taken(n, pace) < 0 then (0, Tail(pace))
    else
      var r := ContentOut(n - Taken(n, pace), Tail(pace));
      (Taken(n, pace) + r.0, r.1)
  }

  /** What GenMessage::send returns, the bytes it puts on the wire, and the pace it leaves. */
  datatype Sending = Sending(status: int, bytes: string, pace: seq<Pace>)

  function SendOf(content: string, pace: seq<Pace>): Sending
  {
    var (magic, p) := MagicOut(pace);
    var (n, q) := ContentOut(|content|, p);
    Sending(if n == |content| then 0 else -1, (if magic then [MAGIC] else "") + content[..n], q)
  }

  /** How many bytes the calls before the first failing one take at most. */
  function Capacity(pace: seq<Pace>): nat
  {
    if pace == [] || !pace[0].Chunk? then 0 else pace[0].bytes + Capacity(pace[1..])
  }

  predicate Suffices(n: nat, pace: seq<Pace>) { OnlyChunks(pace) || Capacity(pace) >= n }

  /** The calls behind the first one that does not take zero bytes, and that one. */
  function AfterZeros(pace: seq<Pace>): seq<Pace>
  {
    if pace != [] && pace[0] == Chunk(0) then AfterZeros(pace[1..]) else pace
  }

  /** The first call that does anything writes, and those behind it take the content. */
  predicate Unbroken(n: nat, pace: seq<Pace>)
  {
    var calls := AfterZeros(pace);
    (calls != [] ==> calls[0].Chunk?) && Suffices(n, Tail(calls))
  }

  lemma {:induction false} MagicOutIs(pace: seq<Pace>)
    ensures var calls := AfterZeros(pace);
            MagicOut(pace) == (calls != [] ==> calls[0].Chunk?, Tail(calls))
    decreases |pace|
  {
    if pace != [] && pace[0] == Chunk(0) {
      MagicOutIs(pace[1..]);
    }
  }

  lemma {:induction false} ContentOutIs(n: nat, pace: seq<Pace>)
    ensures ContentOut(n, pace).0 == n <==> Suffices(n, pace)
    decreases |pace|
  {
    if n > 0 && pace != [] && pace[0].Chunk? {
      ContentOutIs(n - Taken(n, pace), pace[1..]);
      assert OnlyChunks(pace) <==> OnlyChunks(pace[1..]);
    }
  }

  /** For every pace: the frame goes out whole exactly when no call fails before it is out.  The
      status is 0 whenever the content went out, with or without its magic byte. */
  lemma SendExact(content: string, pace: seq<Pace>)
    ensures var s := SendOf(content, pace);
            && (s.bytes == Frame(content) <==> Unbroken(|content|, pace))
            && (s.bytes == Frame(content) ==> s.status == 0)
            && (s.status == 0 <==> Suffices(|content|, Tail(AfterZeros(pace))))
            && |s.bytes| <= |Frame(content)|
            && (|s.bytes| == |Frame(content)| ==> s.bytes == Frame(content))
  {
    MagicOutIs(pace);
    var (magic, p) := MagicOut(pace);
    ContentOutIs(|content|, p);
    var n := ContentOut(|content|, p).0;
    if n == |content| {
      assert content[..n] == content;
    }
  }

  /** An interrupted first write: send reports success, and the magic byte is missing. */
  lemma MagicDropped(content: string)
    ensures SendOf(content, [Interrupted]) == Sending(0, content, [])
    ensures !Unbroken(|content|, [Interrupted])
  {
    assert content[..|content|] == content;
  }

  /** The receiver of such a message gives up, five bytes further, unless the low byte of the size
      happens to be the magic number. */
  lemma MagiclessRefused(content: string, rest: string)
    requires IsMessage(content) && AllBytes(content + rest) && Low(|content|) != MAGIC
    ensures Receive(content + rest) == (Refused, (content + rest)[5..])
  {
    assert (content + rest)[0] == content[..4][0];
  }

  function SendAllOf(contents: seq<string>, pace: seq<Pace>): (string, seq<Pace>)
    decreases |contents|
  {
    if contents == [] then ("", pace)
    else
      var s := SendOf(contents[0], pace);
      var (bytes, p) := SendAllOf(contents[1..], s.pace);
      (s.bytes + bytes, p)
  }

  predicate AllUnbroken(contents: seq<string>, pace: seq<Pace>)
    decreases |contents|
  {
    contents == [] ||
    (Unbroken(|contents[0]|, pace) && AllUnbroken(contents[1..], SendOf(contents[0], pace).pace))
  }

  /** A list of messages goes out as its frames exactly when no call fails before its message is out. */
  lemma {:induction false} SendAllExact(contents: seq<string>, pace: seq<Pace>)
    ensures SendAllOf(contents, pace).0 == Frames(contents) <==> AllUnbroken(contents, pace)
    ensures |SendAllOf(contents, pace).0| <= |Frames(contents)|
    ensures |SendAllOf(contents, pace).0| == |Frames(contents)| ==> SendAllOf(contents, pace).0 == Frames(contents)
    decreases |contents|
  {
    hide SendOf, Unbroken;
    if contents != [] {
      SendExact(contents[0], pace);
      SendAllExact(contents[1..], SendOf(contents[0], pace).pace);
      var a, b := SendOf(contents[0], pace).bytes, SendAllOf(contents[1..], SendOf(contents[0], pace).pace).0;
      SamePieces(a, b, Frame(contents[0]), Frames(contents[1..]));
    }
  }

  lemma SamePieces(a: string, b: string, c: string, d: string)
    ensures |a| <= |c| && |b| <= |d| ==> (|a + b| == |c + d| <==> |a| == |c| && |b| == |d|)
    ensures |a| == |c| && a + b == c + d ==> a == c && b == d
  {
    if |a| == |c| && a + b == c + d {
      assert a == (a + b)[..|a|] && c == (c + d)[..|c|];
      assert b == (a + b)[|a|..] && d == (c + d)[|c|..];
    }
  }

  /** Where a run without any failing call leaves only such calls. */
  lemma {:induction false} ChunksRemain(n: nat, pace: seq<Pace>)
    requires OnlyChunks(pace)
    ensures OnlyChunks(MagicOut(pace).1) && OnlyChunks(ContentOut(n, pace).1)
    ensures OnlyChunks(AfterZeros(pace)) && Suffices(n, pace)
    decreases |pace|
  {
    if pace != [] {
      assert OnlyChunks(pace[1..]);
      ChunksRemain(n, pace[1..]);
      if n > 0 {
        ChunksRemain(n - Taken(n, pace), pace[1..]);
      }
    }
  }

  /** With any chunking of the writes, all of it goes out. */
  lemma {:induction false} ChunksSuffice(contents: seq<string>, pace: seq<Pace>)
    requires OnlyChunks(pace)
    ensures AllUnbroken(contents, pace)
    decreases |contents|
  {
    if contents != [] {
      ChunksRemain(0, pace);
      MagicOutIs(pace);
      ChunksRemain(|contents[0]|, MagicOut(pace).1);
      ChunksSuffice(contents[1..], SendOf(contents[0], pace).pace);
    }
  }

  /** read(2) of up to count bytes: how many come; none only at the end of the stream. */
  function Coming(inbound: string, pace: seq<Pace>, count: nat): (n: nat)
    ensures n <= count && n <= |inbound| && (inbound != "" && count > 0 ==> n > 0)
  {
    var n := if count < |inbound| then count else |inbound|;
    if pace != [] && pace[0].Chunk? && 0 < pace[0].bytes < n then pace[0].bytes else n
  }

  datatype Fetching = Fetching(total: int, buffer: string, inbound: string, pace: seq<Pace>)

  /** fetch_bytes with this much in the buffer and this many empty reads behind it. */
  function Fetch(inbound: string, pace: seq<Pace>, count: int, buffer: string, zeros: nat): Fetching
    requires zeros <= 31
    decreases |pace|, |inbound|, 31 - zeros
  {
    if |buffer| >= count then Fetching(|buffer|, buffer, inbound, pace)
    else if pace != [] && pace[0] == Error then Fetching(-1, buffer, inbound, pace[1..])
    else if pace != [] && pace[0] == Interrupted then Fetch(inbound, pace[1..], count, buffer, zeros)
    else
      var n := Coming(inbound, pace, count - |buffer|);
      if n > 0 then Fetch(inbound[n..], Tail(pace), count, buffer + inbound[..n], zeros)
      else if zeros > 30 then Fetching(0, buffer, inbound, Tail(pace))
      else Fetch(inbound, Tail(pace), count, buffer, zeros + 1)
  }

  predicate NoErrors(pace: seq<Pace>) { Error !in pace }

  /** No read fails before n bytes have come, interrupted ones being taken up again. */
  predicate Arrives(n: nat, pace: seq<Pace>)
    decreases |pace|
  {
    n == 0 || pace == [] ||
    match pace[0]
    case Error => false
    case Interrupted => Arrives(n, pace[1..])
    case Chunk(k) => Arrives(if 0 < k < n then n - k else 0, pace[1..])
  }

  /** All bytes asked for come exactly when they are on the stream and no read fails before. */
  lemma {:induction false} FetchExact(inbound: string, pace: seq<Pace>, count: nat, buffer: string, zeros: nat)
    requires zeros <= 31 && |buffer| <= count && count > 0
    ensures var f := Fetch(inbound, pace, count, buffer, zeros);
            var n := count - |buffer|;
            && (f.total == count <==> n <= |inbound| && Arrives(n, pace))
            && (f.total == count ==> f.buffer == buffer + inbound[..n] && f.inbound == inbound[n..])
            && f.total <= count
    decreases |pace|, |inbound|, 31 - zeros
  {
    var n := count - |buffer|;
    if n == 0 {
      assert buffer + inbound[..0] == buffer;
    } else if pace != [] && pace[0] == Interrupted {
      FetchExact(inbound, pace[1..], count, buffer, zeros);
    } else if pace == [] || pace[0].Chunk? {
      var k := Coming(inbound, pace, n);
      if k > 0 {
        FetchExact(inbound[k..], Tail(pace), count, buffer + inbound[..k], zeros);
        if n <= |inbound| {
          assert buffer + inbound[..k] + inbound[k..][..n - k] == buffer + inbound[..n];
          assert inbound[k..][n - k..] == inbound[n..];
        }
      } else if zeros <= 30 {
        FetchExact(inbound, Tail(pace), count, buffer, zeros + 1);
      }
    }
  }

  /** Without errors a stream that is too short is read to its end. */
  lemma {:induction false} FetchShort(inbound: string, pace: seq<Pace>, count: nat, buffer: string, zeros: nat)
    requires zeros <= 31 && |buffer| <= count && NoErrors(pace)
    ensures var f := Fetch(inbound, pace, count, buffer, zeros);
            NoErrors(f.pace) && (|inbound| < count - |buffer| ==> f.total == 0 && f.inbound == "")
    decreases |pace|, |inbound|, 31 - zeros
  {
    if |buffer| < count {
      assert NoErrors(Tail(pace));
      var k := Coming(inbound, pace, count - |buffer|);
      if pace != [] && pace[0] == Interrupted {
        FetchShort(inbound, pace[1..], count, buffer, zeros);
      } else if k > 0 {
        FetchShort(inbound[k..], Tail(pace), count, buffer + inbound[..k], zeros);
      } else if zeros <= 30 {
        FetchShort(inbound, Tail(pace), count, buffer, zeros + 1);
      }
    }
  }

  lemma {:induction false} Arrive(n: nat, pace: seq<Pace>)
    requires NoErrors(pace)
    ensures Arrives(n, pace)
    decreases |pace|
  {
    if n > 0 && pace != [] {
      match pace[0]
      case Interrupted => Arrive(n, pace[1..]);
      case Chunk(k) => Arrive(if 0 < k < n then n - k else 0, pace[1..]);
      case Error => assert false;
    }
  }

  /** ReceiveMessage with these reads, up to the dispatch on the message id: a read error while
      the rest of the message is fetched gives up, the end of the stream there does not. */
  function ReceiveWith(inbound: string, pace: seq<Pace>): (Outcome, string, seq<Pace>)
    requires AllBytes(inbound)
  {
    var f := Fetch(inbound, pace, 5, "", 0);
    if f.total != 5 then (Refused, f.inbound, f.pace)
    else
      FetchExact(inbound, pace, 5, "", 0);
      if f.buffer[0] != MAGIC then (Refused, f.inbound, f.pace)
      else
        var size := ToInt(Get(f.buffer[1..]));
        if size < 2 then (Refused, f.inbound, f.pace)
        else if size < 5 then (Overflow, f.inbound, f.pace)
        else
          var g := Fetch(f.inbound, f.pace, size - 4, "", 0);
          if g.total < 0 then (Refused, g.inbound, g.pace)
          else if g.total != size - 4 then (Garbled, g.inbound, g.pace)
          else (Received(f.buffer[1..] + g.buffer), g.inbound, g.pace)
  }

  /** For every pace of the reads: a message is received exactly when the stream starts with its
      frame and no read fails before the frame has come, and then exactly the frame is taken. */
  lemma ReceiveWithExact(inbound: string, pace: seq<Pace>, content: string, rest: string)
    requires AllBytes(inbound)
    ensures var (r, left, p) := ReceiveWith(inbound, pace);
            (r == Received(content) && left == rest)
            <==> IsMessage(content) && inbound == Frame(content) + rest
                 && Arrives(5, pace) && Arrives(|content| - 4, Fetch(inbound, pace, 5, "", 0).pace)
  {
    hide Fetch, Arrives, IsMessage, Get, ToInt;
    ReceiveExact(inbound, content, rest);
    FetchExact(inbound, pace, 5, "", 0);
    var f := Fetch(inbound, pace, 5, "", 0);
    if f.total == 5 {
      HeadOf(inbound, f.buffer);
      var size := ToInt(Get(f.buffer[1..]));
      if f.buffer[0] == MAGIC && size >= 5 {
        FetchExact(f.inbound, f.pace, size - 4, "", 0);
        TwoParts(inbound, size);
        if |inbound| >= size + 1 {
          assert Receive(inbound) == (Received(inbound[1..size + 1]), inbound[size + 1..]);
          assert |inbound[1..size + 1]| == size;
        }
      }
    } else if Receive(inbound) == (Received(content), rest) {
      assert !Arrives(5, pace);
    }
  }

  lemma HeadOf(inbound: string, buffer: string)
    requires AllBytes(inbound) && |inbound| >= 5 && buffer == "" + inbound[..5]
    ensures buffer[0] == inbound[0] && buffer[1..] == inbound[1..5]
  {
  }

  lemma TwoParts(inbound: string, size: nat)
    requires size >= 5
    ensures |inbound| >= size + 1 ==>
              inbound[1..5] + ("" + inbound[5..][..size - 4]) == inbound[1..size + 1]
              && inbound[5..][size - 4..] == inbound[size + 1..]
  {
  }

  /** Without read errors the pace makes no difference. */
  lemma ReceiveClean(inbound: string, pace: seq<Pace>)
    requires AllBytes(inbound) && NoErrors(pace)
    ensures var (r, left, p) := ReceiveWith(inbound, pace); (r, left) == Receive(inbound) && NoErrors(p)
  {
    hide Fetch, Arrives, Get, ToInt;
    FetchExact(inbound, pace, 5, "", 0);
    FetchShort(inbound, pace, 5, "", 0);
    Arrive(5, pace);
    var f := Fetch(inbound, pace, 5, "", 0);
    if f.total == 5 {
      HeadOf(inbound, f.buffer);
      var size := ToInt(Get(f.buffer[1..]));
      if f.buffer[0] == MAGIC && size >= 5 {
        FetchExact(f.inbound, f.pace, size - 4, "", 0);
        FetchShort(f.inbound, f.pace, size - 4, "", 0);
        Arrive(size - 4, f.pace);
        TwoParts(inbound, size);
      }
    }
  }

  // ---------------------------------------------------------------- the stream

  class Socket {
    /** bytes written towards the peer, and how the coming writes go */
    var outbound: string
    var writePace: seq<Pace>
    /** bytes that will still arrive before the peer closes, and how the coming reads go */
    var inbound: string
    var readPace: seq<Pace>

    constructor (inbound: string, writePace: seq<Pace>, readPace: seq<Pace>)
      ensures this.inbound == inbound && this.writePace == writePace && this.readPace == readPace && outbound == ""
    {
      this.inbound, this.writePace, this.readPace, outbound := inbound, writePace, readPace, "";
    }

    /** write(2) */
    method Write(bytes: string) returns (n: int)
      modifies this`outbound, this`writePace
      ensures n == Taken(|bytes|, old(writePace)) && writePace == Tail(old(writePace))
      ensures outbound == old(outbound) + (if n > 0 then bytes[..n] else "")
    {
      n := Taken(|bytes|, writePace);
      writePace := Tail(writePace);
      outbound := outbound + if n > 0 then bytes[..n] else "";
    }

    /** read(2) */
    method Read(count: nat) returns (bytes: string, interrupted: bool, error: bool)
      requires count > 0
      modifies this`inbound, this`readPace
      ensures readPace == Tail(old(readPace))
      ensures interrupted == (old(readPace) != [] && old(readPace)[0] == Interrupted)
      ensures error == (old(readPace) != [] && old(readPace)[0] == Error)
      ensures var n := Coming(old(inbound), old(readPace), count);
              if interrupted || error then bytes == "" && inbound == old(inbound)
              else bytes == old(inbound)[..n] && inbound == old(inbound)[n..]
    {
      interrupted := readPace != [] && readPace[0] == Interrupted;
      error := readPace != [] && readPace[0] == Error;
      var n := if interrupted || error then 0 else Coming(inbound, readPace, count);
      bytes, inbound, readPace := inbound[..n], inbound[n..], Tail(readPace);
    }
  }

  /** GenMessage::send.  A failed write of the content ends it; a failed write of the magic byte
      only ends the loop that writes that byte. */
  method Send(socket: Socket, content: string) returns (status: int)
    modifies socket`outbound, socket`writePace
    ensures var s := SendOf(content, old(socket.writePace));
            status == s.status && socket.outbound == old(socket.outbound) + s.bytes && socket.writePace == s.pace
    ensures status == 0 || status == -1
    ensures (status == 0 && socket.outbound == old(socket.outbound) + Frame(content))
            <==> Unbroken(|content|, old(socket.writePace))
  {
    hide MagicOut, ContentOut, Unbroken;
    ghost var before, pace := socket.outbound, socket.writePace;
    SendExact(content, pace);
    SendMagic(socket);
    ghost var head := if MagicOut(pace).0 then [MAGIC] else "";
    ghost var n := ContentOut(|content|, socket.writePace).0;
    status := SendContent(socket, content);
    Assoc(before, head, content[..n]);
    if socket.outbound == before + Frame(content) {
      DropHead(before, SendOf(content, pace).bytes);
      DropHead(before, Frame(content));
    }
  }

  method SendMagic(socket: Socket)
    modifies socket`outbound, socket`writePace
    ensures var (magic, p) := MagicOut(old(socket.writePace));
            socket.outbound == old(socket.outbound) + (if magic then [MAGIC] else "") && socket.writePace == p
  {
    var n := socket.Write([MAGIC]);
    while n == 0
      invariant MagicOut(old(socket.writePace))
                == if n == 0 then MagicOut(socket.writePace) else (n > 0, socket.writePace)
      invariant n <= 1 && socket.outbound == old(socket.outbound) + (if n > 0 then [MAGIC] else "")
      decreases |socket.writePace|, n == 0
    {
      n := socket.Write([MAGIC]);
    }
  }

  method SendContent(socket: Socket, content: string) returns (status: int)
    modifies socket`outbound, socket`writePace
    ensures var (n, p) := ContentOut(|content|, old(socket.writePace));
            && socket.outbound == old(socket.outbound) + content[..n] && socket.writePace == p
            && status == if n == |content| then 0 else -1
  {
    var total := 0;
    while total < |content|
      invariant 0 <= total <= |content| && socket.outbound == old(socket.outbound) + content[..total]
      invariant ContentOut(|content|, old(socket.writePace)).0
                == total + ContentOut(|content| - total, socket.writePace).0
      invariant ContentOut(|content|, old(socket.writePace)).1 == ContentOut(|content| - total, socket.writePace).1
      decreases |socket.writePace|, |content| - total
    {
      var written := socket.Write(content[total..]);
      if written < 0 {
        return -1;
      }
      assert content[..total + written] == content[..total] + content[total..][..written];
      total := total + written;
    }
    return 0;
  }

  /** fetch_bytes: all count bytes, or 0 once the stream has ended, or a negative error. */
  method FetchBytes(socket: Socket, count: int) returns (total: int, buffer: string)
    modifies socket`inbound, socket`readPace
    ensures Fetching(total, buffer, socket.inbound, socket.readPace)
            == Fetch(old(socket.inbound), old(socket.readPace), count, "", 0)
  {
    total, buffer := 0, "";
    var zeroCount := 0;
    while total < count
      invariant total == |buffer| && 0 <= zeroCount <= 31
      invariant Fetch(socket.inbound, socket.readPace, count, buffer, zeroCount)
                == Fetch(old(socket.inbound), old(socket.readPace), count, "", 0)
      decreases |socket.readPace|, |socket.inbound|, 31 - zeroCount
    {
      var bytes, interrupted, error := socket.Read(count - total);
      if error {
        return -1, buffer;
      }
      if interrupted {
        continue;
      }
      if bytes == "" {
        if zeroCount > 30 {
          return 0, buffer;
        }
        zeroCount := zeroCount + 1;
        assert buffer + bytes == buffer;
      }
      buffer := buffer + bytes;
      total := total + |bytes|;
    }
  }

  /** GenMessage::ReceiveMessage up to the dispatch on the message id. */
  method ReceiveMessage(socket: Socket) returns (r: Outcome)
    requires AllBytes(socket.inbound)
    modifies socket`inbound, socket`readPace
    ensures (r, socket.inbound, socket.readPace) == ReceiveWith(old(socket.inbound), old(socket.readPace))
  {
    hide Fetch;
    ghost var all := socket.inbound;
    FetchExact(all, socket.readPace, 5, "", 0);
    var n, preface := FetchBytes(socket, 5);
    if n != 5 {
      return Refused;
    }
    HeadOf(all, preface);
    if preface[0] != MAGIC {
      return Refused;
    }
    var size := ToInt(Get(preface[1..]));
    if size < 2 {
      return Refused;
    }
    if size < 5 {
      return Overflow;
    }
    var m, rest := FetchBytes(socket, size - 4);
    if m < 0 {
      return Refused;
    }
    if m != size - 4 {
      return Garbled;
    }
    return Received(preface[1..] + rest);
  }

  /** A list of messages, whatever becomes of each of them. */
  method SendAll(socket: Socket, contents: seq<string>) returns (failed: bool)
    modifies socket`outbound, socket`writePace
    ensures socket.outbound == old(socket.outbound) + SendAllOf(contents, old(socket.writePace)).0
    ensures socket.outbound == old(socket.outbound) + Frames(contents) <==> AllUnbroken(contents, old(socket.writePace))
    ensures OnlyChunks(old(socket.writePace)) ==> socket.outbound == old(socket.outbound) + Frames(contents)
  {
    hide SendOf, Unbroken;
    ghost var start, pace := socket.outbound, socket.writePace;
    SendAllExact(contents, pace);
    if OnlyChunks(pace) {
      ChunksSuffice(contents, pace);
    }
    failed := false;
    for k := 0 to |contents|
      invariant socket.outbound + SendAllOf(contents[k..], socket.writePace).0 == start + SendAllOf(contents, pace).0
    {
      ghost var before, p := socket.outbound, socket.writePace;
      var status := Send(socket, contents[k]);
      failed := failed || status != 0;
      assert contents[k..][1..] == contents[k + 1..];
      Assoc(before, SendOf(contents[k], p).bytes, SendAllOf(contents[k + 1..], socket.writePace).0);
    }
    assert contents[|contents|..] == [];
    if SendAllOf(contents, pace).0 != Frames(contents) {
      DropHead(start, SendAllOf(contents, pace).0);
      DropHead(start, Frames(contents));
    }
  }

  lemma NextFrame(contents: seq<string>, k: nat, tail: string)
    requires k < |contents| && IsMessage(contents[k])
    requires AllBytes(Frames(contents[k..]) + tail)
    ensures AllBytes(Frames(contents[k + 1..]) + tail)
    ensures Receive(Frames(contents[k..]) + tail) == (Received(contents[k]), Frames(contents[k + 1..]) + tail)
  {
    hide Receive, IsMessage;
    var rest := Frames(contents[k + 1..]) + tail;
    assert contents[k..][1..] == contents[k + 1..];
    Assoc(Frame(contents[k]), Frames(contents[k + 1..]), tail);
    var all := Frames(contents[k..]) + tail;
    assert all == Frame(contents[k]) + rest;
    assert forall i :: 0 <= i < |rest| ==> rest[i] == all[|Frame(contents[k])| + i];
    ReceiveExact(all, contents[k], rest);
  }

  lemma {:induction false} FramesAreBytes(contents: seq<string>)
    requires forall k :: 0 <= k < |contents| ==> IsMessage(contents[k])
    ensures AllBytes(Frames(contents))
    decreases |contents|
  {
    if contents != [] {
      FramesAreBytes(contents[1..]);
    }
  }

  /** Receiving, with any chunking of the reads and any interruptions, gives back the messages
      sent, in order, and leaves the stream at the boundary behind the last of them. */
  method ReceiveAll(socket: Socket, ghost contents: seq<string>, count: nat, ghost tail: string)
    returns (received: seq<Outcome>)
    requires count == |contents| && forall k :: 0 <= k < |contents| ==> IsMessage(contents[k])
    requires socket.inbound == Frames(contents) + tail && AllBytes(tail) && NoErrors(socket.readPace)
    modifies socket`inbound, socket`readPace
    ensures |received| == |contents| && forall k :: 0 <= k < |contents| ==> received[k] == Received(contents[k])
    ensures socket.inbound == tail
  {
    received := [];
    FramesAreBytes(contents);
    assert contents[0..] == contents;
    for k := 0 to count
      invariant NoErrors(socket.readPace)
      invariant socket.inbound == Frames(contents[k..]) + tail && AllBytes(socket.inbound)
      invariant |received| == k && forall j :: 0 <= j < k ==> received[j] == Received(contents[j])
    {
      NextFrame(contents, k, tail);
      ReceiveClean(socket.inbound, socket.readPace);
      var r := ReceiveMessage(socket);
      received := received + [r];
    }
    assert contents[|contents|..] == [];
  }
}
