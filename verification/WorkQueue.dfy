/** The persistent work queue: a file of length-prefixed records that many processes
    extend under a lock, and the index of it that each of them keeps in memory. */
module WorkQueues {
  import opened Decimal
  import opened Sequences
  import opened Wrappers

  /** payload is everything after the 12 header bytes: the task and its newline. */
  datatype Record = Record(uid: nat, payload: string)

  datatype LineInfo = LineInfo(uid: int, lineStart: int, lineLength: int)

  const HEADER: nat := 12
  const FIRST_UID: nat := 1000
  const UID_STEP: nat := 7

  /** "%06ld %05d" */
  function Header(length: nat, uid: nat): string
  {
    Padded(length, 6) + " " + Padded(uid, 5)
  }

  function Length(r: Record): nat { HEADER + |r.payload| }

  function Encode(r: Record): string { Header(Length(r), r.uid) + r.payload }

  predicate NulFree(s: string) { forall i :: 0 <= i < |s| ==> s[i] != '\0' }

  /** The numbers of the record fit the columns of its header. */
  predicate Fits(r: Record)
  {
    Length(r) <= 999999 && r.uid <= 99999 && NulFree(r.payload)
  }

  lemma HeaderWidth(length: nat, uid: nat)
    ensures |Header(length, uid)| == HEADER <==> length <= 999999 && uid <= 99999
    ensures |Header(length, uid)| >= HEADER
  {
    assert Pow10(5) == 100000 && Pow10(6) == 1000000;
    PaddedFits(length, 6);
    PaddedFits(uid, 5);
  }

  /** The file that holds these records. */
  function Bytes(rs: seq<Record>): string
  {
    if rs == [] then "" else Bytes(rs[..|rs| - 1]) + Encode(rs[|rs| - 1])
  }

  predicate WellFormed(rs: seq<Record>)
  {
    forall i :: 0 <= i < |rs| ==> Fits(rs[i]) && rs[i].uid == FIRST_UID + UID_STEP * i
  }

  function Offset(rs: seq<Record>, i: nat): nat
    requires i <= |rs|
  {
    |Bytes(rs[..i])|
  }

  /** What all_lines is once it has caught up with these records. */
  function Index(rs: seq<Record>): seq<LineInfo>
  {
    seq(|rs|, i requires 0 <= i < |rs| => LineInfo(rs[i].uid, Offset(rs, i), Length(rs[i])))
  }

  lemma {:induction false} BytesSplit(rs: seq<Record>, i: nat)
    requires i <= |rs|
    ensures Bytes(rs) == Bytes(rs[..i]) + Bytes(rs[i..])
    decreases |rs|
  {
    hide Encode;
    if i == |rs| {
      assert rs[..i] == rs && rs[i..] == [];
    } else {
      var n := |rs| - 1;
      BytesSplit(rs[..n], i);
      assert rs[..n][..i] == rs[..i] && rs[..n][i..] == rs[i..][..|rs[i..]| - 1];
      Assoc(Bytes(rs[..i]), Bytes(rs[..n][i..]), Encode(rs[n]));
    }
  }

  /** Record i stands at its offset, and its header in the first 12 bytes there. */
  lemma RecordAt(rs: seq<Record>, i: nat)
    requires i < |rs| && WellFormed(rs)
    ensures var at := Offset(rs, i);
            && at + Length(rs[i]) == Offset(rs, i + 1) <= |Bytes(rs)|
            && Bytes(rs)[at..at + Length(rs[i])] == Encode(rs[i])
            && Bytes(rs)[at..at + HEADER] == Header(Length(rs[i]), rs[i].uid)
            && Bytes(rs)[at + HEADER..at + Length(rs[i])] == rs[i].payload
  {
    hide Bytes, Header;
    SplitAt(rs, i);
    SplitNext(rs, i);
    HeaderWidth(Length(rs[i]), rs[i].uid);
    Cut(Bytes(rs[..i]), Header(Length(rs[i]), rs[i].uid), rs[i].payload, Bytes(rs[i + 1..]));
  }

  lemma SplitAt(rs: seq<Record>, i: nat)
    requires i < |rs|
    ensures Bytes(rs) == Bytes(rs[..i]) + Encode(rs[i]) + Bytes(rs[i + 1..])
  {
    BytesSplit(rs, i + 1);
    SplitNext(rs, i);
  }

  lemma SplitNext(rs: seq<Record>, i: nat)
    requires i < |rs|
    ensures Bytes(rs[..i + 1]) == Bytes(rs[..i]) + Encode(rs[i])
  {
    hide Encode;
    assert rs[..i + 1][..i] == rs[..i];
  }

  lemma Cut(front: string, head: string, payload: string, back: string)
    ensures var all := front + (head + payload) + back;
            var at := |front|;
            && all[at..at + |head| + |payload|] == head + payload
            && all[at..at + |head|] == head
            && all[at + |head|..at + |head| + |payload|] == payload
  {
  }

  // ---------------------------------------------------------------- sscanf

  predicate IsBlank(c: char) { c == ' ' || '\t' <= c <= '\r' }

  function SkipBlanks(s: string, i: nat): (j: nat)
    requires i <= |s|
    ensures i <= j <= |s|
    decreases |s| - i
  {
    if i < |s| && IsBlank(s[i]) then SkipBlanks(s, i + 1) else i
  }

  /** One "%d" conversion from position i. */
  function ScanInt(s: string, i: nat): Option<(int, nat)>
    requires i <= |s|
  {
    var b := SkipBlanks(s, i);
    var k := if b < |s| && (s[b] == '-' || s[b] == '+') then b + 1 else b;
    var e := DigitsEnd(s, k);
    if e == k then None
    else
      var n := Value(s[k..e]);
      Some((if s[b] == '-' then -(n as int) else n, e))
  }

  /** sscanf(header, "%d %d", &reclen, &uid) */
  function ScanHeader(header: string): Option<(int, int)>
  {
    match ScanInt(header, 0)
    case None => None
    case Some((length, e)) =>
      match ScanInt(header, e)
      case None => None
      case Some((uid, _)) => Some((length, uid))
  }

  lemma ScanPadded(s: string, i: nat, e: nat, n: nat)
    requires i < e <= |s| && s[i..e] == Padded(n, e - i)
    requires e < |s| ==> !IsDigit(s[e])
    ensures ScanInt(s, i) == Some((n, e))
  {
    hide Padded;
    assert forall k :: i <= k < e ==> s[k] == s[i..e][k - i];
    assert IsDigit(s[i]);
    DigitsEndUnique(s, i, e);
  }

  lemma HeaderScans(length: nat, uid: nat)
    requires length <= 999999 && uid <= 99999
    ensures ScanHeader(Header(length, uid)) == Some((length, uid))
  {
    hide ScanInt, Padded, Value;
    assert Pow10(5) == 100000 && Pow10(6) == 1000000;
    PaddedFits(length, 6);
    PaddedFits(uid, 5);
    var h := Header(length, uid);
    assert h[0..6] == Padded(length, 6) && h[7..12] == Padded(uid, 5);
    ScanPadded(h, 0, 6, length);
    ScanPadded(h, 7, 12, uid);
    ScanSkips(h, 6);
  }

  lemma ScanSkips(s: string, i: nat)
    requires i + 1 < |s| && s[i] == ' '
    ensures ScanInt(s, i) == ScanInt(s, i + 1)
  {
  }

  // ---------------------------------------------------------------- the operations on records

  /** What AddToQueue writes: the first line_length bytes of the printed line. */
  function Appended(uid: nat, task: string): (s: string)
    ensures |s| == HEADER + 1 + |task|
  {
    HeaderWidth(HEADER + 1 + |task|, uid);
    (Header(HEADER + 1 + |task|, uid) + task + "\n")[..HEADER + 1 + |task|]
  }

  function NewRecord(count: nat, task: string): Record
  {
    Record(FIRST_UID + UID_STEP * count, task + "\n")
  }

  /** The new line is a record of the format exactly while its numbers fit their columns. */
  lemma AppendedRecord(count: nat, task: string)
    requires NulFree(task)
    ensures var r := NewRecord(count, task);
            && (Appended(r.uid, task) == Encode(r) <==> Fits(r))
            && (Fits(r) <==> |task| <= 999986 && count <= 14142)
  {
    var r := NewRecord(count, task);
    HeaderWidth(Length(r), r.uid);
    Assoc(Header(Length(r), r.uid), task, "\n");
  }

  function Overwrite(bytes: string, at: nat, s: string): string
    requires at <= |bytes|
  {
    bytes[..at] + s + (if at + |s| <= |bytes| then bytes[at + |s|..] else "")
  }

  function Done(r: Record): Record
    requires |r.payload| >= 4
  {
    Record(r.uid, "DONE" + r.payload[4..])
  }

  function Slice(s: string, from: nat, to: nat): string
  {
    if from <= to <= |s| then s[from..to] else ""
  }

  /** Every record but the i-th still stands where it stood, and the file has not grown. */
  predicate OthersIntact(rs: seq<Record>, i: nat, bytes: string)
  {
    && |bytes| == |Bytes(rs)|
    && forall j :: 0 <= j < |rs| && j != i ==>
         Slice(bytes, Offset(rs, j), Offset(rs, j) + Length(rs[j])) == Encode(rs[j])
  }

  /** Marking a record done leaves the file a file of records with the same index. */
  lemma {:induction false} DoneBytes(rs: seq<Record>, i: nat)
    requires WellFormed(rs) && i < |rs| && |rs[i].payload| >= 4
    ensures var done := rs[i := Done(rs[i])];
            && WellFormed(done)
            && Offset(rs, i) + HEADER + 4 <= |Bytes(rs)|
            && Bytes(done) == Overwrite(Bytes(rs), Offset(rs, i) + HEADER, "DONE")
            && Index(done) == Index(rs)
  {
    hide Bytes, Header, Overwrite, Index;
    var done := rs[i := Done(rs[i])];
    var head := Header(Length(rs[i]), rs[i].uid);
    var front, back := Bytes(rs[..i]), Bytes(rs[i + 1..]);
    RecordAt(rs, i);
    SplitAt(rs, i);
    SplitAt(done, i);
    assert done[..i] == rs[..i] && done[i + 1..] == rs[i + 1..];
    HeaderWidth(Length(rs[i]), rs[i].uid);
    OverwriteMiddle(front + head, rs[i].payload, back, "DONE");
    Assoc(front, head, rs[i].payload);
    Assoc(front, head, Done(rs[i]).payload);
    SameOffsets(rs, done);
  }

  lemma OverwriteMiddle(front: string, payload: string, back: string, s: string)
    requires |s| <= |payload|
    ensures Overwrite(front + payload + back, |front|, s) == front + (s + payload[|s|..]) + back
  {
  }

  lemma {:induction false} SameSize(a: seq<Record>, b: seq<Record>)
    requires WellFormed(a) && WellFormed(b) && |a| == |b|
    requires forall i :: 0 <= i < |a| ==> |a[i].payload| == |b[i].payload|
    ensures |Bytes(a)| == |Bytes(b)|
    decreases |a|
  {
    hide Header;
    if a != [] {
      var n := |a| - 1;
      SameSize(a[..n], b[..n]);
      HeaderWidth(Length(a[n]), a[n].uid);
      HeaderWidth(Length(b[n]), b[n].uid);
    }
  }

  /** The index depends on the lengths of the payloads alone. */
  lemma SameOffsets(a: seq<Record>, b: seq<Record>)
    requires WellFormed(a) && WellFormed(b) && |a| == |b|
    requires forall i :: 0 <= i < |a| ==> |a[i].payload| == |b[i].payload|
    ensures |Bytes(a)| == |Bytes(b)| && Index(a) == Index(b)
  {
    hide Bytes;
    SameSize(a, b);
    forall i | 0 <= i < |a| ensures Offset(a, i) == Offset(b, i) {
      SameSize(a[..i], b[..i]);
    }
  }

  lemma DoneIntact(rs: seq<Record>, i: nat)
    requires WellFormed(rs) && i < |rs| && |rs[i].payload| >= 4
    ensures var done := rs[i := Done(rs[i])]; OthersIntact(rs, i, Bytes(done))
  {
    hide Bytes, Encode, Index, Offset;
    var done := rs[i := Done(rs[i])];
    SameOffsets(rs, done);
    DoneBytes(rs, i);
    forall j | 0 <= j < |rs| && j != i
      ensures Slice(Bytes(done), Offset(rs, j), Offset(rs, j) + Length(rs[j])) == Encode(rs[j])
    {
      RecordAt(done, j);
      IndexAt(done, j);
      IndexAt(rs, j);
    }
  }

  /** A shorter payload pushes the mark into the next record's length column. */
  lemma MarkSpills(rs: seq<Record>, i: nat, bytes: string)
    requires WellFormed(rs) && i + 1 < |rs| && |rs[i].payload| < 4
    requires Offset(rs, i) + HEADER <= |Bytes(rs)| && bytes == Overwrite(Bytes(rs), Offset(rs, i) + HEADER, "DONE")
    ensures !OthersIntact(rs, i, bytes)
  {
    hide Bytes, Encode;
    RecordAt(rs, i);
    RecordAt(rs, i + 1);
    var next := Offset(rs, i + 1);
    assert bytes[next] == "DONE"[|rs[i].payload|];
    FirstByte(rs[i + 1]);
    if |bytes| == |Bytes(rs)| {
      assert Slice(bytes, next, next + Length(rs[i + 1]))[0] == bytes[next];
    }
  }

  lemma FirstByte(r: Record)
    ensures Encode(r) != "" && IsDigit(Encode(r)[0])
  {
  }

  /** DeleteLine leaves every other record intact exactly when there are at least four bytes
      after the header, that is, when the task has at least three characters. */
  lemma DeleteExact(rs: seq<Record>, i: nat)
    requires WellFormed(rs) && i < |rs|
    ensures Offset(rs, i) + HEADER <= |Bytes(rs)|
    ensures OthersIntact(rs, i, Overwrite(Bytes(rs), Offset(rs, i) + HEADER, "DONE")) <==> |rs[i].payload| >= 4
  {
    hide Bytes, Encode, Header;
    RecordAt(rs, i);
    if |rs[i].payload| >= 4 {
      DoneBytes(rs, i);
      DoneIntact(rs, i);
    } else if i + 1 < |rs| {
      MarkSpills(rs, i, Overwrite(Bytes(rs), Offset(rs, i) + HEADER, "DONE"));
    } else {
      assert rs[..i + 1] == rs;
    }
  }

  /** The bytes are some list of well-formed records. */
  ghost predicate IsQueue(bytes: string)
  {
    exists rs :: WellFormed(rs) && Bytes(rs) == bytes
  }

  /** As far as two files agree up to the end of a header, their records start at the same places. */
  lemma {:induction false} Aligned(rs: seq<Record>, qs: seq<Record>, j: nat)
    requires WellFormed(rs) && WellFormed(qs) && j < |rs|
    requires Offset(rs, j) + HEADER <= |Bytes(rs)| && Offset(rs, j) + HEADER <= |Bytes(qs)|
    requires forall k :: 0 <= k < Offset(rs, j) + HEADER ==> Bytes(rs)[k] == Bytes(qs)[k]
    ensures j < |qs| && Offset(qs, j) == Offset(rs, j) && Length(qs[j]) == Length(rs[j])
    decreases j
  {
    hide Bytes, Encode, Header, ScanHeader, Offset;
    BytesStart(qs);
    BytesStart(rs);
    if j > 0 {
      RecordAt(rs, j - 1);
      Aligned(rs, qs, j - 1);
      RecordAt(qs, j - 1);
    }
    var at := Offset(rs, j);
    RecordAt(rs, j);
    RecordAt(qs, j);
    assert Bytes(rs)[at..at + HEADER] == Bytes(qs)[at..at + HEADER];
    HeaderScans(Length(rs[j]), rs[j].uid);
    HeaderScans(Length(qs[j]), qs[j].uid);
  }

  /** After a shorter payload the mark stands where the next record would have to begin. */
  lemma SpilledIsNoQueue(rs: seq<Record>, i: nat, bytes: string, qs: seq<Record>)
    requires WellFormed(rs) && i < |rs| && |rs[i].payload| < 4
    requires Offset(rs, i) + HEADER <= |Bytes(rs)| && bytes == Overwrite(Bytes(rs), Offset(rs, i) + HEADER, "DONE")
    requires WellFormed(qs)
    ensures Bytes(qs) != bytes
  {
    hide Bytes, Encode, Header, Offset;
    if Bytes(qs) == bytes {
      RecordAt(rs, i);
      var next := Offset(rs, i + 1);
      assert bytes[next] == "DONE"[|rs[i].payload|] && |bytes| > next;
      Aligned(rs, qs, i);
      RecordAt(qs, i);
      BytesStart(qs);
      RecordAt(qs, i + 1);
      assert bytes[next] == Bytes(qs)[next..next + Length(qs[i + 1])][0];
      FirstByte(qs[i + 1]);
    }
  }

  /** One deletion leaves a queue exactly when there are at least four bytes after the header. */
  lemma DeleteKeepsQueue(rs: seq<Record>, i: nat)
    requires WellFormed(rs) && i < |rs|
    ensures Offset(rs, i) + HEADER <= |Bytes(rs)|
    ensures IsQueue(Overwrite(Bytes(rs), Offset(rs, i) + HEADER, "DONE")) <==> |rs[i].payload| >= 4
  {
    hide Bytes, Offset, Overwrite;
    RecordAt(rs, i);
    var bytes := Overwrite(Bytes(rs), Offset(rs, i) + HEADER, "DONE");
    if |rs[i].payload| >= 4 {
      DoneBytes(rs, i);
      assert Bytes(rs[i := Done(rs[i])]) == bytes;
    } else if qs :| WellFormed(qs) && Bytes(qs) == bytes {
      SpilledIsNoQueue(rs, i, bytes, qs);
    }
  }

  /** The task "ab": deleting its record spoils the length of the next one. */
  lemma TwoCharacterTask()
    ensures var rs := [NewRecord(0, "ab"), NewRecord(1, "status")];
            && WellFormed(rs) && Offset(rs, 0) + HEADER <= |Bytes(rs)|
            && !IsQueue(Overwrite(Bytes(rs), Offset(rs, 0) + HEADER, "DONE"))
  {
    hide Bytes, Offset, Overwrite, IsQueue;
    DeleteKeepsQueue([NewRecord(0, "ab"), NewRecord(1, "status")], 0);
  }

  // ---------------------------------------------------------------- schedules

  /** First record with this uid, the answer of FindUID over a caught-up index. */
  function Find(rs: seq<Record>, uid: int): (r: Option<nat>)
    ensures r.Some? ==> r.value < |rs| && rs[r.value].uid == uid
    ensures r.None? ==> forall i :: 0 <= i < |rs| ==> rs[i].uid != uid
  {
    FindFrom(rs, uid, 0)
  }

  function FindFrom(rs: seq<Record>, uid: int, k: nat): (r: Option<nat>)
    requires k <= |rs|
    ensures r.Some? ==> k <= r.value < |rs| && rs[r.value].uid == uid
    ensures r.None? ==> forall i :: k <= i < |rs| ==> rs[i].uid != uid
    decreases |rs| - k
  {
    if k == |rs| then None else if rs[k].uid == uid then Some(k) else FindFrom(rs, uid, k + 1)
  }

  /** One call by one of the processes, which are numbered. */
  datatype Call =
    | Add(process: nat, task: string)
    | Sync(process: nat)
    | Delete(process: nat, uid: int)

  /** The new line fits the length column. */
  predicate FineTask(task: string) { |task| <= 999986 && NulFree(task) }

  /** The records after a call on these records. */
  function AfterCall(rs: seq<Record>, call: Call): seq<Record>
  {
    match call
    case Add(_, task) => rs + [NewRecord(|rs|, task)]
    case Sync(_) => rs
    case Delete(_, uid) =>
      match Find(rs, uid)
      case Some(i) => if |rs[i].payload| >= 4 then rs[i := Done(rs[i])] else rs
      case None => rs
  }

  function Records(calls: seq<Call>): (rs: seq<Record>)
    ensures forall k :: 0 <= k < |rs| ==> rs[k].uid == FIRST_UID + UID_STEP * k
  {
    if calls == [] then [] else AfterCall(Records(calls[..|calls| - 1]), calls[|calls| - 1])
  }

  predicate FineCalls(calls: seq<Call>)
  {
    && |Records(calls)| <= 14143
    && forall k :: 0 <= k < |calls| && calls[k].Add? ==> FineTask(calls[k].task)
  }

  lemma {:induction false} FewerRecords(calls: seq<Call>, n: nat)
    requires n <= |calls|
    ensures |Records(calls[..n])| <= |Records(calls)|
    decreases |calls|
  {
    if n < |calls| {
      FewerRecords(calls[..|calls| - 1], n);
      assert calls[..|calls| - 1][..n] == calls[..n];
    } else {
      assert calls[..n] == calls;
    }
  }

  /** Whatever the interleaving, the records the calls put into the file are well formed. */
  lemma {:induction false} CallsWellFormed(calls: seq<Call>)
    requires FineCalls(calls)
    ensures WellFormed(Records(calls))
    decreases |calls|
  {
    if calls != [] {
      FewerRecords(calls, |calls| - 1);
      CallsWellFormed(calls[..|calls| - 1]);
    }
  }

  /** Whether a call, made on these records, deletes none of them or one of at least four bytes. */
  predicate Harmless(rs: seq<Record>, call: Call)
  {
    call.Delete? && Find(rs, call.uid).Some? ==> |rs[Find(rs, call.uid).value].payload| >= 4
  }

  predicate HarmlessCalls(calls: seq<Call>)
  {
    forall n :: 0 <= n < |calls| ==> Harmless(Records(calls[..n]), calls[n])
  }

  /** What one call writes, byte for byte, while the file holds these records. */
  function Written(bytes: string, rs: seq<Record>, call: Call): string
  {
    match call
    case Add(_, task) => bytes + Appended(FIRST_UID + UID_STEP * |rs|, task)
    case Sync(_) => bytes
    case Delete(_, uid) =>
      match Find(rs, uid)
      case None => bytes
      case Some(i) =>
        if Offset(rs, i) + HEADER <= |bytes| then Overwrite(bytes, Offset(rs, i) + HEADER, "DONE") else bytes
  }

  function FileAfter(calls: seq<Call>): string
  {
    if calls == [] then ""
    else
      var init := calls[..|calls| - 1];
      Written(FileAfter(init), Records(init), calls[|calls| - 1])
  }

  lemma CallStep(calls: seq<Call>, n: nat)
    requires n < |calls|
    ensures FileAfter(calls[..n + 1]) == Written(FileAfter(calls[..n]), Records(calls[..n]), calls[n])
    ensures Records(calls[..n + 1]) == AfterCall(Records(calls[..n]), calls[n])
  {
    assert calls[..n + 1][..n] == calls[..n];
  }

  lemma AddedExact(rs: seq<Record>, process: nat, task: string)
    requires WellFormed(rs) && FineTask(task) && |rs| <= 14142
    ensures var call := Add(process, task);
            IsQueue(Written(Bytes(rs), rs, call)) && Written(Bytes(rs), rs, call) == Bytes(AfterCall(rs, call))
  {
    hide Bytes, Appended, IsQueue, Encode;
    var r := NewRecord(|rs|, task);
    AppendedRecord(|rs|, task);
    IndexGrows(rs, r);
    QueueOf(rs + [r]);
  }

  lemma DeletedExact(rs: seq<Record>, process: nat, uid: int)
    requires WellFormed(rs)
    ensures var call := Delete(process, uid);
            && (IsQueue(Written(Bytes(rs), rs, call)) <==> Harmless(rs, call))
            && (Harmless(rs, call) ==> Written(Bytes(rs), rs, call) == Bytes(AfterCall(rs, call)))
  {
    hide Bytes, Offset, Overwrite, Find, IsQueue, Index, Fits;
    if Find(rs, uid).Some? {
      var i := Find(rs, uid).value;
      DeleteKeepsQueue(rs, i);
      if |rs[i].payload| >= 4 {
        DoneBytes(rs, i);
      }
    } else {
      QueueOf(rs);
    }
  }

  /** While the file is these records, a call leaves a queue, and the next records at that, exactly
      when it is harmless. */
  lemma WrittenExact(rs: seq<Record>, call: Call)
    requires WellFormed(rs) && (call.Add? ==> FineTask(call.task) && |rs| <= 14142)
    ensures IsQueue(Written(Bytes(rs), rs, call)) <==> Harmless(rs, call)
    ensures Harmless(rs, call) ==> Written(Bytes(rs), rs, call) == Bytes(AfterCall(rs, call))
  {
    hide Bytes, IsQueue, WellFormed, FineTask;
    match call
    case Add(process, task) => AddedExact(rs, process, task);
    case Sync(_) => QueueOf(rs);
    case Delete(process, uid) => DeletedExact(rs, process, uid);
  }

  lemma CallExact(calls: seq<Call>, n: nat)
    requires FineCalls(calls) && n < |calls| && FileAfter(calls[..n]) == Bytes(Records(calls[..n]))
    ensures IsQueue(FileAfter(calls[..n + 1])) <==> Harmless(Records(calls[..n]), calls[n])
    ensures Harmless(Records(calls[..n]), calls[n]) ==> FileAfter(calls[..n + 1]) == Bytes(Records(calls[..n + 1]))
  {
    hide Bytes, IsQueue, FileAfter, Written, Records, Harmless;
    FewerRecords(calls, n + 1);
    FewerRecords(calls, n);
    CallsWellFormed(calls[..n]);
    CallStep(calls, n);
    WrittenExact(Records(calls[..n]), calls[n]);
  }

  lemma QueueOf(rs: seq<Record>)
    requires WellFormed(rs)
    ensures IsQueue(Bytes(rs))
  {
  }

  lemma {:induction false} HarmlessFile(calls: seq<Call>, n: nat)
    requires FineCalls(calls) && n <= |calls|
    requires forall k :: 0 <= k < n ==> Harmless(Records(calls[..k]), calls[k])
    ensures FileAfter(calls[..n]) == Bytes(Records(calls[..n]))
    decreases n
  {
    hide Harmless;
    if n > 0 {
      HarmlessFile(calls, n - 1);
      CallExact(calls, n - 1);
    } else {
      assert calls[..0] == [];
    }
  }

  /** In every run within the column bounds, whatever the tasks and the interleaving, the file is a
      queue after each call exactly when no deletion hits a record of a task under three
      characters; and then it holds exactly the records the calls put into it. */
  lemma RunExact(calls: seq<Call>)
    requires FineCalls(calls)
    ensures (forall n :: 0 <= n <= |calls| ==> IsQueue(FileAfter(calls[..n]))) <==> HarmlessCalls(calls)
    ensures HarmlessCalls(calls) ==> FileAfter(calls) == Bytes(Records(calls))
  {
    hide Harmless, IsQueue, Bytes, FileAfter, Records;
    if HarmlessCalls(calls) {
      forall n | 0 <= n <= |calls| ensures IsQueue(FileAfter(calls[..n])) {
        HarmlessFile(calls, n);
        FewerRecords(calls, n);
        CallsWellFormed(calls[..n]);
        QueueOf(Records(calls[..n]));
      }
      HarmlessFile(calls, |calls|);
      assert calls[..|calls|] == calls;
    } else {
      var n := FirstHarm(calls);
      HarmlessFile(calls, n);
      CallExact(calls, n);
    }
  }

  lemma FirstHarm(calls: seq<Call>) returns (n: nat)
    requires !HarmlessCalls(calls)
    ensures n < |calls| && !Harmless(Records(calls[..n]), calls[n])
    ensures forall k :: 0 <= k < n ==> Harmless(Records(calls[..k]), calls[k])
  {
    hide Harmless, Records;
    n := 0;
    while Harmless(Records(calls[..n]), calls[n])
      decreases |calls| - n
      invariant n < |calls| && forall k :: 0 <= k < n ==> Harmless(Records(calls[..k]), calls[k])
    {
      n := n + 1;
    }
  }

  // ---------------------------------------------------------------- the processes

  class QueueFile {
    var bytes: string
    ghost var records: seq<Record>

    constructor ()
      ensures Valid() && records == []
    {
      bytes := "";
      records := [];
    }

    ghost predicate Valid()
      reads this
    {
      WellFormed(records) && bytes == Bytes(records)
    }
  }

  class WorkQueue {
    const file: QueueFile
    var allLines: seq<LineInfo>

    /** The lines this process knows are the first lines of the file. */
    ghost predicate Valid()
      reads this, file
    {
      file.Valid() && allLines <= Index(file.records)
    }

    constructor (file: QueueFile)
      requires file.Valid()
      ensures this.file == file && Valid() && allLines == Index(file.records)
    {
      this.file := file;
      allLines := [];
      new;
      SyncFile();
    }

    method SyncFile()
      requires Valid()
      modifies this`allLines
      ensures Valid() && allLines == Index(file.records)
    {
      hide Bytes, ScanHeader, Offset, Index, WellFormed;
      IndexLength(file.records);
      BytesStart(file.records);
      var currentStart := 0;
      var it := 0;
      while currentStart < |file.bytes|
        invariant Valid()
        invariant it <= |file.records| && it <= |allLines|
        invariant currentStart == Offset(file.records, it) <= |file.bytes|
        invariant it == |file.records| <==> currentStart == |file.bytes|
        decreases |file.records| - it
      {
        RoundOfSync(file.records, it);
        IndexAt(file.records, it);
        var header := file.bytes[currentStart..currentStart + HEADER];
        var Some((length, uid)) := ScanHeader(header);
        if it == |allLines| {
          allLines := allLines + [LineInfo(uid, currentStart, length)];
        }
        it := it + 1;
        currentStart := currentStart + length;
      }
      assert allLines == Index(file.records)[..|allLines|];
    }

    method FindUID(uid: int) returns (k: Option<nat>)
      requires Valid()
      ensures k == Find(file.records[..|allLines|], uid)
    {
      var i := 0;
      while i < |allLines|
        invariant i <= |allLines|
        invariant Find(file.records[..|allLines|], uid) == FindFrom(file.records[..|allLines|], uid, i)
      {
        assert allLines[i] == Index(file.records)[i];
        if allLines[i].uid == uid {
          return Some(i);
        }
        i := i + 1;
      }
      k := None;
    }

    /** The stored line, with its newline, of a record this process knows; else nothing. */
    method GetLine(uid: int) returns (line: string)
      requires Valid()
      ensures forall i :: 0 <= i < |allLines| && file.records[i].uid == uid ==> line == file.records[i].payload
      ensures (forall i :: 0 <= i < |allLines| ==> file.records[i].uid != uid) ==> line == ""
    {
      hide Bytes, Offset, Index, Encode, Find;
      IndexLength(file.records);
      var k := FindUID(uid);
      if k.None? {
        return "";
      }
      SameUid(file.records, k.value);
      var li := allLines[k.value];
      IndexAt(file.records, k.value);
      RecordAt(file.records, k.value);
      line := file.bytes[li.lineStart..li.lineStart + li.lineLength][HEADER..];
      DropTake(file.bytes, li.lineStart, HEADER, li.lineLength);
    }

    method AddToQueue(task: string)
      requires Valid() && NulFree(task)
      modifies this`allLines, file
      ensures file.bytes == old(file.bytes) + Appended(FIRST_UID + UID_STEP * |old(file.records)|, task)
      ensures |task| <= 999986 && |old(file.records)| <= 14142 ==>
                && Valid() && allLines == Index(file.records)
                && file.records == old(file.records) + [NewRecord(|old(file.records)|, task)]
                && old(Index(file.records)) <= Index(file.records)
    {
      hide Bytes, Offset, Index, Encode, Appended;
      IndexLength(file.records);
      SyncFile();
      var uid := |allLines| * UID_STEP + FIRST_UID;
      var start := |file.bytes|;
      AppendedRecord(|file.records|, task);
      IndexGrows(file.records, NewRecord(|file.records|, task));
      file.bytes := file.bytes + Appended(uid, task);
      allLines := allLines + [LineInfo(uid, start, HEADER + 1 + |task|)];
      file.records := file.records + [NewRecord(|file.records|, task)];
    }

    method DeleteLine(uid: int)
      requires Valid()
      modifies this`allLines, file
      ensures var rs := old(file.records);
              match Find(rs, uid)
              case None => file.bytes == old(file.bytes) && file.records == rs && Valid()
              case Some(i) =>
                && Offset(rs, i) + HEADER <= |Bytes(rs)|
                && file.bytes == Overwrite(old(file.bytes), Offset(rs, i) + HEADER, "DONE")
                && (|rs[i].payload| >= 4 ==>
                      Valid() && file.records == rs[i := Done(rs[i])] && Index(file.records) == Index(rs))
    {
      hide Bytes, Offset, Index, Encode, Overwrite, Find;
      IndexLength(file.records);
      SyncFile();
      assert file.records[..|allLines|] == file.records;
      var k := FindUID(uid);
      if k.Some? {
        var li := allLines[k.value];
        IndexAt(file.records, k.value);
        RecordAt(file.records, k.value);
        file.bytes := Overwrite(file.bytes, li.lineStart + HEADER, "DONE");
        if |file.records[k.value].payload| >= 4 {
          DoneBytes(file.records, k.value);
          file.records := file.records[k.value := Done(file.records[k.value])];
        }
      }
    }

    /** One round of NextUIDWait: the uid after the given one, or None while there is none yet. */
    method NextUID(uid: int) returns (next: Option<int>)
      requires Valid()
      modifies this`allLines
      ensures Valid() && allLines == Index(file.records)
      ensures forall i :: 0 <= i < |file.records| && file.records[i].uid == uid ==>
                next == if i + 1 < |file.records| then Some(file.records[i + 1].uid) else None
      ensures (forall i :: 0 <= i < |file.records| ==> file.records[i].uid != uid) ==> next == None
    {
      hide Bytes, Index, Offset, Encode;
      SyncFile();
      IndexLength(file.records);
      var found := false;
      for i := 0 to |allLines|
        invariant Valid() && allLines == Index(file.records)
        invariant !found ==> forall j :: 0 <= j < i ==> file.records[j].uid != uid
        invariant found ==> i > 0 && file.records[i - 1].uid == uid
      {
        IndexAt(file.records, i);
        if found {
          SameUid(file.records, i - 1);
          return Some(allLines[i].uid);
        }
        if allLines[i].uid == uid {
          found := true;
        }
      }
      if found {
        SameUid(file.records, |file.records| - 1);
      }
      next := None;
    }
  }

  lemma IndexAt(rs: seq<Record>, i: nat)
    requires i < |rs|
    ensures |Index(rs)| == |rs| && Index(rs)[i] == LineInfo(rs[i].uid, Offset(rs, i), Length(rs[i]))
  {
  }

  lemma IndexLength(rs: seq<Record>)
    ensures |Index(rs)| == |rs|
  {
  }

  lemma BytesStart(rs: seq<Record>)
    ensures Offset(rs, 0) == 0 && Offset(rs, |rs|) == |Bytes(rs)|
    ensures rs != [] && WellFormed(rs) ==> |Bytes(rs)| > 0
  {
    assert rs[..|rs|] == rs && rs[..0] == [];
  }

  lemma SameUid(rs: seq<Record>, k: nat)
    requires WellFormed(rs) && k < |rs|
    ensures forall i :: 0 <= i < |rs| && rs[i].uid == rs[k].uid ==> i == k
  {
  }

  lemma DropTake(s: string, start: nat, skip: nat, length: nat)
    requires start + length <= |s| && skip <= length
    ensures s[start..start + length][skip..] == s[start + skip..start + length]
  {
  }

  /** What one round of SyncFile finds at the offset of record i. */
  lemma RoundOfSync(rs: seq<Record>, i: nat)
    requires WellFormed(rs) && i <= |rs| && Offset(rs, i) < |Bytes(rs)|
    ensures i < |rs| && Offset(rs, i) + HEADER <= |Bytes(rs)|
    ensures ScanHeader(Bytes(rs)[Offset(rs, i)..Offset(rs, i) + HEADER]) == Some((Length(rs[i]), rs[i].uid))
    ensures Offset(rs, i) + Length(rs[i]) == Offset(rs, i + 1)
    ensures Offset(rs, i + 1) <= |Bytes(rs)|
    ensures i + 1 == |rs| <==> Offset(rs, i + 1) == |Bytes(rs)|
  {
    assert rs[..|rs|] == rs;
    RecordAt(rs, i);
    HeaderScans(Length(rs[i]), rs[i].uid);
    if i + 1 < |rs| {
      RecordAt(rs, i + 1);
    }
  }

  lemma IndexGrows(rs: seq<Record>, r: Record)
    ensures Index(rs + [r]) == Index(rs) + [LineInfo(r.uid, |Bytes(rs)|, Length(r))]
    ensures Bytes(rs + [r]) == Bytes(rs) + Encode(r)
  {
    hide Encode;
    assert (rs + [r])[..|rs|] == rs;
    assert forall i :: 0 <= i < |rs| ==> (rs + [r])[..i] == rs[..i];
  }

  /** Any interleaving of calls by any number of processes on one file: every process keeps a
      correct prefix of the file, and the file holds what the calls, in order, put into it. */
  method Interleave(file: QueueFile, queues: seq<WorkQueue>, calls: seq<Call>)
    requires file.Valid() && file.records == []
    requires forall p :: 0 <= p < |queues| ==> queues[p].file == file && queues[p].Valid()
    requires FineCalls(calls) && HarmlessCalls(calls)
    requires forall k :: 0 <= k < |calls| ==> calls[k].process < |queues|
    modifies file, queues
    ensures file.Valid() && file.records == Records(calls) && file.bytes == FileAfter(calls)
    ensures forall p :: 0 <= p < |queues| ==> queues[p].Valid()
  {
    hide Bytes, Index, Offset, Overwrite, Appended, Find;
    for n := 0 to |calls|
      invariant file.Valid() && file.records == Records(calls[..n])
      invariant forall p :: 0 <= p < |queues| ==> queues[p].Valid()
    {
      assert calls[..n + 1][..n] == calls[..n];
      FewerRecords(calls, n + 1);
      FewerRecords(calls, n);
      CallsWellFormed(calls[..n]);
      match calls[n]
      case Add(p, task) => queues[p].AddToQueue(task);
      case Sync(p) => queues[p].SyncFile();
      case Delete(p, uid) =>
        assert Harmless(Records(calls[..n]), calls[n]);
        queues[p].DeleteLine(uid);
    }
    assert calls[..|calls|] == calls;
    RunExact(calls);
  }
}
