/** The client's out-log: every record the client sends is first appended to
    one log file, and one reader per server replays it. This module models
    the record framing (`writeToOutLog` / `readLogEntry`) and the positions
    that decide rotation and the pending-queue size. */
module OutLog {
  import opened Base
  import opened Numbers
  import opened Consts
  import Utils

  /** One log record: the ten-character action, the payload length
      right-aligned in ten characters (`%10d`), then the payload. */
  function EncodeRecord(action: string, payload: string): (r: string)
    ensures HasPrefix(r, action)
    ensures |r| >= |action| + 10 + |payload|
  {
    action + SpacePad10(|payload|) + payload
  }

  /** A record followed by more of the log is its action followed by the
      rest. */
  lemma RecordAfterAction(action: string, payload: string, more: string)
    ensures EncodeRecord(action, payload) + more == action + (SpacePad10(|payload|) + payload + more)
  {
    Regroup3(action, SpacePad10(|payload|), payload, more);
  }

  lemma Regroup3(a: string, b: string, c: string, d: string)
    ensures a + b + c + d == a + (b + c + d)
  {
  }

  /** A record whose length fits the field is exactly 20 bytes longer than
      its payload. */
  lemma RecordLength(action: string, payload: string)
    requires |action| == 10 && |payload| < 10_000_000_000
    ensures |EncodeRecord(action, payload)| == 20 + |payload|
  {
    PadWidth(|payload|);
  }

  /** io.ReadFull of `n` bytes: all of them, none at all (io.EOF), or some
      but not all (io.ErrUnexpectedEOF). */
  datatype Chunk = Full(data: string, rest: string) | NoBytes | Partial

  function ReadFull(s: string, n: nat): (r: Chunk)
    ensures r.Full? <==> |s| >= n
    ensures r.Full? ==> |r.data| == n && s == r.data + r.rest
    ensures r.NoBytes? <==> |s| == 0 < n
  {
    if |s| >= n then Full(s[..n], s[n..])
    else if |s| == 0 then NoBytes
    else Partial
  }

  /** What one call of readLogEntry yields: a record (and the log after it),
      io.EOF (which the sender answers by reopening the log), another error,
      or a panic when the length field does not fit the read buffer. */
  datatype ReadOutcome =
    | Read(action: string, payload: string, bufLen: nat, rest: string)
    | AtEof
    | Failed(why: string)
    | Panicked

  /** The payload step of readLogEntry, once the action and the length
      field are read: a zero length needs no payload, a length the buffer
      cannot hold panics on the slice, anything else is read in full. */
  function ReadPayload(action: string, lenField: string, s: string): (r: ReadOutcome)
    ensures r.Read? ==> r.action == action && r.bufLen == 20 + |r.payload| && |r.payload| <= MaxDiffSize
    ensures r.Read? ==> s == r.payload + r.rest && Atoi(TrimSpace(lenField)) == Value(|r.payload|)
  {
    match Atoi(TrimSpace(lenField))
    case Value(d) =>
      if d == 0 then Read(action, "", 20, s)
      else if d < 0 || d > MaxDiffSize then Panicked
      else (
        match ReadFull(s, d)
        case NoBytes => AtEof
        case Partial => Failed("unexpected EOF")
        case Full(payload, rest) => Read(action, payload, 20 + d, rest))
    case _ => Failed("invalid length")
  }

  /** The length step of readLogEntry, once the action is read. */
  function ReadLength(action: string, s: string): (r: ReadOutcome)
    ensures |s| == 0 ==> r == AtEof
    ensures 0 < |s| < 10 ==> r.Failed?
    ensures r.Read? ==> |s| >= 10 && r.action == action && r.bufLen == 20 + |r.payload| && |r.payload| <= MaxDiffSize
    ensures r.Read? ==> s == s[..10] + r.payload + r.rest && Atoi(TrimSpace(s[..10])) == Value(|r.payload|)
  {
    match ReadFull(s, 10)
    case NoBytes => AtEof
    case Partial => Failed("unexpected EOF")
    case Full(lenField, rest) => ReadPayload(action, lenField, rest)
  }

  /** Go's readLogEntry on the unread part `s` of the log. */
  function ReadLogEntry(s: string): (r: ReadOutcome)
    ensures |s| == 0 ==> r == AtEof
    ensures 0 < |s| < 10 ==> r.Failed?
    ensures |s| == 10 ==> r == AtEof
    ensures 10 < |s| < 20 ==> r.Failed?
    ensures r.Read? ==> |s| >= 20 && |r.action| == 10 && r.bufLen == 20 + |r.payload| && |r.payload| <= MaxDiffSize
    ensures r.Read? ==> s == r.action + s[10..20] + r.payload + r.rest
    ensures r.Read? ==> Atoi(TrimSpace(s[10..20])) == Value(|r.payload|)
  {
    match ReadFull(s, 10)
    case NoBytes => AtEof
    case Partial => Failed("unexpected EOF")
    case Full(action, rest) =>
      var r := ReadLength(action, rest);
      FramedAfterAction(s, action, rest, r);
      r
  }

  lemma FramedAfterAction(s: string, action: string, rest: string, r: ReadOutcome)
    requires |action| == 10 && s == action + rest
    requires r.Read? ==> |rest| >= 10 && rest == rest[..10] + r.payload + r.rest
    ensures r.Read? ==> |s| >= 20 && s[10..20] == rest[..10]
    ensures r.Read? ==> s == action + s[10..20] + r.payload + r.rest
  {
    if r.Read? {
      assert s[10..20] == rest[..10];
    }
  }

  /** readLogEntry recovers exactly what writeToOutLog wrote: the action, the
      payload, and a buffer length of 20 plus the payload's. */
  lemma ReadWritten(action: string, payload: string, rest: string)
    requires |action| == 10
    requires |payload| <= MaxDiffSize
    ensures ReadLogEntry(EncodeRecord(action, payload) + rest) == Read(action, payload, 20 + |payload|, rest)
  {
    var s1 := SpacePad10(|payload|) + (payload + rest);
    assert EncodeRecord(action, payload) + rest == action + s1;
    ReadAfterAction(action, s1);
    ReadLengthWritten(action, payload, rest);
  }

  /** Once the action is read, the rest of the entry is read from what
      follows it. */
  lemma ReadAfterAction(action: string, s1: string)
    requires |action| == 10
    ensures ReadLogEntry(action + s1) == ReadLength(action, s1)
  {
    var s := action + s1;
    assert s[..10] == action && s[10..] == s1;
  }

  lemma ReadLengthWritten(action: string, payload: string, rest: string)
    requires |payload| <= MaxDiffSize
    ensures ReadLength(action, SpacePad10(|payload|) + (payload + rest)) == Read(action, payload, 20 + |payload|, rest)
  {
    var n := |payload|;
    PadWidth(n);
    var field := SpacePad10(n);
    var s1 := field + (payload + rest);
    ReadPayloadWritten(action, payload, rest);
    assert s1[..10] == field && s1[10..] == payload + rest;
  }

  lemma ReadPayloadWritten(action: string, payload: string, rest: string)
    requires |payload| <= MaxDiffSize
    ensures ReadPayload(action, SpacePad10(|payload|), payload + rest) == Read(action, payload, 20 + |payload|, rest)
  {
    var n := |payload|;
    SpacePadRoundTrip(n);
    if n > 0 {
      assert (payload + rest)[..n] == payload && (payload + rest)[n..] == rest;
    }
  }

  /** A record without payload (a PING) is read back as exactly 20 bytes. */
  lemma EmptyRecordIsTwentyBytes(action: string, rest: string)
    requires |action| == 10
    ensures ReadLogEntry(EncodeRecord(action, "") + rest).Read?
    ensures ReadLogEntry(EncodeRecord(action, "") + rest).bufLen == 20
    ensures |EncodeRecord(action, "")| == 20
  {
    ReadWritten(action, "", rest);
    RecordLength(action, "");
  }

  /** A length field that is not a number stops the reader with an error,
      never a record. */
  lemma BadLengthFails(action: string, field: string, rest: string)
    requires |action| == 10 && |field| == 10
    requires !Atoi(TrimSpace(field)).Value?
    ensures ReadLogEntry(action + field + rest).Failed?
  {
    var s := action + field + rest;
    assert s[..10] == action && s[10..] == field + rest;
    assert (field + rest)[..10] == field;
  }

  /** The records a reader replays, in order, until the log stops yielding
      one. */
  function ReadAll(s: string): (r: seq<(string, string)>)
    decreases |s|
  {
    match ReadLogEntry(s)
    case Read(action, payload, _, rest) => [(action, payload)] + ReadAll(rest)
    case _ => []
  }

  /** The log a series of writeToOutLog calls produces. */
  function WriteAll(records: seq<(string, string)>): string {
    if |records| == 0 then "" else EncodeRecord(records[0].0, records[0].1) + WriteAll(records[1..])
  }

  /** Logs written one after the other read as one log. */
  lemma {:induction false} WriteAllAppend(a: seq<(string, string)>, b: seq<(string, string)>)
    ensures WriteAll(a + b) == WriteAll(a) + WriteAll(b)
    decreases |a|
  {
    if |a| == 0 {
      assert a + b == b;
    } else {
      var e := EncodeRecord(a[0].0, a[0].1);
      assert WriteAll(a + b) == e + WriteAll(a[1..] + b) by {
        assert (a + b)[0] == a[0];
        assert (a + b)[1..] == a[1..] + b;
      }
      WriteAllAppend(a[1..], b);
    }
  }

  lemma Regroup4(a: string, b: string, c: string, d: string)
    ensures (a + (b + c)) + d == a + (b + (c + d))
  {
  }

  /** A log framed by a first and a last record. */
  lemma WriteFramed(first: (string, string), mid: seq<(string, string)>, last: (string, string), more: string)
    ensures WriteAll([first] + mid + [last]) + more
         == EncodeRecord(first.0, first.1) + (WriteAll(mid) + (EncodeRecord(last.0, last.1) + more))
  {
    var e1, e2 := EncodeRecord(first.0, first.1), EncodeRecord(last.0, last.1);
    assert [first] + mid + [last] == [first] + (mid + [last]);
    assert WriteAll([first] + mid + [last]) == e1 + (WriteAll(mid) + e2) by {
      WriteAllAppend([first], mid + [last]);
      WriteAllAppend(mid, [last]);
      WriteOne(first);
      WriteOne(last);
    }
    Regroup4(e1, WriteAll(mid), e2, more);
  }

  lemma WriteOne(r: (string, string))
    ensures WriteAll([r]) == EncodeRecord(r.0, r.1)
  {
    assert [r][1..] == [];
    var e := EncodeRecord(r.0, r.1);
    assert e + "" == e;
  }

  /** The sender replays every record in the order it was written. */
  lemma {:induction false} ReplayInOrder(records: seq<(string, string)>)
    requires forall r :: r in records ==> |r.0| == 10 && |r.1| <= MaxDiffSize
    ensures ReadAll(WriteAll(records)) == records
    decreases |records|
  {
    if |records| > 0 {
      var a, p, tail := records[0].0, records[0].1, records[1..];
      assert records == [(a, p)] + tail;
      ReplayInOrder(tail);
      assert WriteAll(records) == EncodeRecord(a, p) + WriteAll(tail);
      ReadAllCons(a, p, WriteAll(tail));
    }
  }

  /** Reading a written record, then the rest of the log. */
  lemma ReadAllCons(action: string, payload: string, rest: string)
    requires |action| == 10 && |payload| <= MaxDiffSize
    ensures ReadAll(EncodeRecord(action, payload) + rest) == [(action, payload)] + ReadAll(rest)
  {
    ReadWritten(action, payload, rest);
  }

  /** The shared log positions: the writer's position in the current file,
      and for each server its reader's position and, after a rotation the
      reader has not caught up with, the size of the file it still reads. */
  datatype LogState = LogState(pos: nat, readPos: map<string, int>, oldSize: map<string, int>)

  /** A Go map lookup: the zero value for a missing key. */
  function Get(m: map<string, int>, k: string): int {
    if k in m then m[k] else 0
  }

  /** initializeLogs: an empty log and no readers. */
  const Initial := LogState(0, map[], map[])

  /** The end of the file host `h` reads: the old file after a rotation,
      the current one otherwise. */
  function Limit(st: LogState, h: string): int {
    if Get(st.oldSize, h) != 0 then Get(st.oldSize, h) else st.pos
  }

  /** No reader is ahead of what was written to the file it reads. */
  predicate Valid(st: LogState) {
    st.pos >= 0
    && forall h :: h in st.oldSize ==> st.oldSize[h] >= 0 && 0 <= Get(st.readPos, h) <= Limit(st, h)
  }

  lemma InitialValid()
    ensures Valid(Initial) && Initial.pos == 0 && Initial.oldSize == map[]
  {
  }

  /** The rotation guard: the log has grown past the limit and every reader
      reads the current file. */
  predicate MayRotate(oldSize: map<string, int>, pos: int) {
    pos > LogMaxSize && forall h :: h in oldSize ==> oldSize[h] == 0
  }

  /** writeToOutLog: append the record, then rotate if the guard allows.
      Rotation (createOutLog) points every reader at the file it leaves
      behind by recording that file's size, and restarts at position 0. */
  function Write(st: LogState, action: string, payload: string): (r: LogState)
    ensures r.readPos == st.readPos && r.oldSize.Keys == st.oldSize.Keys
    ensures r.pos == 0 <==> MayRotate(st.oldSize, st.pos + |EncodeRecord(action, payload)|)
    ensures r.pos != 0 ==> r.oldSize == st.oldSize && r.pos == st.pos + |EncodeRecord(action, payload)|
    ensures r.pos == 0 ==> forall h :: h in r.oldSize ==> r.oldSize[h] == st.pos + |EncodeRecord(action, payload)|
  {
    var written := st.pos + |EncodeRecord(action, payload)|;
    if MayRotate(st.oldSize, written) then
      LogState(0, st.readPos, map h | h in st.oldSize :: written)
    else
      st.(pos := written)
  }

  /** openOutLogForRead: a continuing reader starts at the writer's position,
      a fresh one at the start; either way it reads the current file. */
  function OpenForRead(st: LogState, h: string, continuation: bool): (r: LogState)
    ensures h in r.oldSize && r.oldSize[h] == 0
    ensures Get(r.readPos, h) == if continuation then st.pos else 0
    ensures r.pos == st.pos
    ensures r.oldSize.Keys == st.oldSize.Keys + {h}
    ensures forall g :: g != h ==> Get(r.readPos, g) == Get(st.readPos, g) && Get(r.oldSize, g) == Get(st.oldSize, g)
  {
    LogState(st.pos, st.readPos[h := if continuation then st.pos else 0], st.oldSize[h := 0])
  }

  /** The sender records its new position after a record of `n` bytes was
      delivered; a reader never reads past the end of its file. */
  function Advance(st: LogState, h: string, n: nat): (r: LogState)
    requires Get(st.readPos, h) + n <= Limit(st, h)
    ensures r.pos == st.pos && r.oldSize == st.oldSize
    ensures Get(r.readPos, h) == Get(st.readPos, h) + n
  {
    st.(readPos := st.readPos[h := Get(st.readPos, h) + n])
  }

  /** printStatusThread forgets a server whose client can no longer be told
      its queue size. */
  function Drop(st: LogState, h: string): (r: LogState)
    ensures h !in r.oldSize && r.oldSize.Keys == st.oldSize.Keys - {h}
    ensures forall g :: g in r.oldSize ==> r.oldSize[g] == st.oldSize[g]
    ensures r.readPos == st.readPos && r.pos == st.pos
  {
    st.(oldSize := st.oldSize - {h})
  }

  /** Forgetting a server keeps the log valid and leaves every other
      server's queue exactly as it was. */
  lemma DropValid(st: LogState, h: string)
    requires Valid(st)
    ensures Valid(Drop(st, h))
    ensures forall g :: g != h ==> Pending(Drop(st, h), g) == Pending(st, g)
  {
    var r := Drop(st, h);
    forall g | g in r.oldSize
      ensures r.oldSize[g] >= 0 && 0 <= Get(r.readPos, g) <= Limit(r, g)
    {
      assert g in st.oldSize && Limit(r, g) == Limit(st, g);
    }
    forall g | g != h
      ensures Pending(r, g) == Pending(st, g)
    {
      assert Get(r.oldSize, g) == Get(st.oldSize, g);
    }
  }

  /** The number of bytes still to be sent to host `h`: the rest of the old
      file plus all of the current one after a rotation, or the distance to
      the writer otherwise. */
  function Pending(st: LogState, h: string): int {
    if Get(st.oldSize, h) != 0 then Get(st.oldSize, h) - Get(st.readPos, h) + st.pos
    else st.pos - Get(st.readPos, h)
  }

  /** doSendChanges waits instead of reading when this holds. */
  predicate Idle(st: LogState, h: string) {
    Get(st.readPos, h) == st.pos && Get(st.oldSize, h) == 0
  }

  /** In a valid state every queue is non-negative, and it is empty exactly
      when the sender idles or stands at the end of an old file the writer
      has not yet added to. */
  lemma PendingBounds(st: LogState, h: string)
    requires Valid(st) && h in st.oldSize
    ensures Pending(st, h) >= 0
    ensures Pending(st, h) == 0 <==>
      Idle(st, h) || (Get(st.readPos, h) == Get(st.oldSize, h) && st.pos == 0)
  {
  }

  /** Writing a record adds exactly its size to every reader's queue, whether
      or not the log rotates. */
  lemma WriteGrowsPending(st: LogState, action: string, payload: string, h: string)
    requires h in st.oldSize
    ensures Pending(Write(st, action, payload), h) == Pending(st, h) + |EncodeRecord(action, payload)|
  {
  }

  lemma WriteValid(st: LogState, action: string, payload: string)
    requires Valid(st)
    ensures Valid(Write(st, action, payload))
  {
    var r := Write(st, action, payload);
    forall h | h in r.oldSize
      ensures r.oldSize[h] >= 0 && 0 <= Get(r.readPos, h) <= Limit(r, h)
    {
      assert h in st.oldSize;
    }
  }

  /** Rotation only happens when no reader lags behind on an old file, so no
      reader ever has to remember two old files. */
  lemma RotationNeedsCaughtUpReaders(st: LogState, action: string, payload: string, h: string)
    requires h in st.oldSize && st.oldSize[h] != 0
    ensures Write(st, action, payload).pos != 0
    ensures Write(st, action, payload).oldSize[h] == st.oldSize[h]
  {
  }

  lemma OpenForReadValid(st: LogState, h: string, continuation: bool)
    requires Valid(st)
    ensures Valid(OpenForRead(st, h, continuation))
    ensures Pending(OpenForRead(st, h, continuation), h) == if continuation then 0 else st.pos
    ensures forall g :: g != h ==> Pending(OpenForRead(st, h, continuation), g) == Pending(st, g)
  {
    var r := OpenForRead(st, h, continuation);
    forall g | g in r.oldSize
      ensures r.oldSize[g] >= 0 && 0 <= Get(r.readPos, g) <= Limit(r, g)
    {
      if g != h {
        assert g in st.oldSize;
      }
    }
    forall g | g != h
      ensures Pending(r, g) == Pending(st, g)
    {
      assert Get(r.oldSize, g) == Get(st.oldSize, g);
    }
  }

  /** Delivering a record shrinks that server's queue by the record's size
      and leaves every other queue alone. */
  lemma AdvanceShrinksPending(st: LogState, h: string, n: nat, g: string)
    requires Valid(st)
    requires h in st.oldSize && Get(st.readPos, h) + n <= Limit(st, h)
    ensures Valid(Advance(st, h, n))
    ensures Pending(Advance(st, h, n), h) == Pending(st, h) - n
    ensures g != h ==> Pending(Advance(st, h, n), g) == Pending(st, g)
  {
    var r := Advance(st, h, n);
    forall k | k in r.oldSize
      ensures r.oldSize[k] >= 0 && 0 <= Get(r.readPos, k) <= Limit(r, k)
    {
      assert k in st.oldSize;
    }
  }

  /** The status printed for host `h`: its queue size, starred while it
      still reads a rotated file, and nothing when it is up to date. */
  function Status(st: LogState, h: string): (r: Option<string>)
    ensures r.None? <==> Get(st.oldSize, h) == 0 && Get(st.readPos, h) == st.pos
    ensures r.Some? ==> HasPrefix(r.value, h + " ")
  {
    if Get(st.oldSize, h) != 0 then Some(h + " " + Utils.FormatLength(Pending(st, h)) + "*")
    else if Get(st.readPos, h) != st.pos then Some(h + " " + Utils.FormatLength(Pending(st, h)))
    else None
  }
}
