/** The sending side of a sync (changes.go, and its twin client.go): changed
    entries are folded into a bounded diff buffer that is flushed as one
    DIFF record, and a file too big for one record is sent as BIGINIT, a run
    of BIGRCV chunks, and BIGCOMMIT or BIGABORT. */
module Diff {
  import opened Base
  import opened Numbers
  import opened Consts
  import opened UnrealStat

  /** One out-log record: the ten-character action header and the payload. */
  type Record = (string, string)

  function Rec(a: Action, payload: string): Record {
    (ActionName(a), payload)
  }

  /** One changed entry: gone, or present with its current stat. */
  datatype Change = Deleted(file: string) | Added(file: string, stat: Stat)

  /** The text an entry contributes to a diff buffer ahead of its contents. */
  function Header(c: Change): string {
    match c
    case Deleted(file) => "D " + file + DiffSep
    case Added(file, stat) => "A " + file + "\n" + Serialize(stat) + DiffSep
  }

  /** How many content bytes the entry announces: the size of anything
      present that is not a directory. */
  function DiffLen(c: Change): int {
    if c.Added? && !c.stat.isDir then c.stat.size else 0
  }

  /** Entries announcing more than half a record go the big-file way. */
  predicate IsBig(c: Change) {
    DiffLen(c) > MaxDiffSize / 2
  }

  /** The client's diff buffer (the bytes of `localDiff` up to
      `localDiffPtr`) and the records it has written to the out-log. */
  datatype Sender = Sender(buf: string, out: seq<Record>)

  /** Go's commitDiff: a non-empty buffer becomes one DIFF record and the
      buffer starts over; an empty one writes nothing. */
  function CommitDiff(s: Sender): (r: Sender)
    ensures r.buf == ""
    ensures s.out <= r.out && |r.out| <= |s.out| + 1
    ensures |r.out| == |s.out| + 1 <==> s.buf != ""
    ensures |r.out| == |s.out| + 1 ==> r.out[|s.out|] == Rec(Diff, s.buf)
  {
    if s.buf == "" then s else Sender("", s.out + [Rec(Diff, s.buf)])
  }

  /** The content bytes addToDiff obtains for an entry that announces some.
      `data` is what Readlink or the file holds, None when it cannot be
      opened or read. A link target must have exactly the announced length;
      a file is read into a buffer of that length, which must fill. */
  function Payload(c: Change, data: Option<string>): (r: Option<string>)
    requires DiffLen(c) > 0
    ensures r.Some? ==> |r.value| == DiffLen(c)
    ensures r.Some? <==> data.Some? && (if c.stat.isLink then |data.value| == DiffLen(c) else |data.value| >= DiffLen(c))
    ensures r.Some? ==> HasPrefix(data.value, r.value)
  {
    if data.None? then None
    else if c.stat.isLink then (if |data.value| == c.stat.size then Some(data.value) else None)
    else
      var got := Take(data.value, c.stat.size);
      if |got| == c.stat.size then Some(got) else None
  }

  /** What addToDiff appends to the buffer for a small entry: its header
      and, when it announces contents, those contents; None when the
      contents cannot be obtained, and then nothing is appended. */
  function Entry(c: Change, data: Option<string>): (r: Option<string>)
    ensures DiffLen(c) <= 0 ==> r == Some(Header(c))
    ensures r.Some? ==> HasPrefix(r.value, Header(c))
    ensures r.Some? ==> |r.value| == |Header(c)| + (if DiffLen(c) > 0 then DiffLen(c) else 0)
  {
    if DiffLen(c) > 0 then
      var p := Payload(c, data);
      if p.None? then None else Some(Header(c) + p.value)
    else Some(Header(c))
  }

  /** The longest chunk of file contents one BIGRCV record carries: half a
      record less the ten-digit name length and the name. */
  function ChunkCap(file: string): int {
    MaxDiffSize / 2 - 10 - |file|
  }

  /** A BIGRCV payload: the name's length as ten zero-padded digits, the
      name, the chunk. */
  function RcvPayload(file: string, chunk: string): string {
    ZeroPad10(|file|) + file + chunk
  }

  /** The BIGCOMMIT payload: the name's length, the name, the stat text. */
  function CommitPayload(file: string, stat: Stat): string {
    ZeroPad10(|file|) + file + Serialize(stat)
  }

  function Flatten(chunks: seq<string>): string {
    if |chunks| == 0 then "" else chunks[0] + Flatten(chunks[1..])
  }

  /** What the read loop of commitBigFile sent, and whether it ran to the end
      (BIGCOMMIT) or gave up (BIGABORT). */
  datatype Sent = Sent(chunks: seq<string>, complete: bool)

  /** The read loop of commitBigFile. `rest` is what the open file still
      holds, `left` the number of bytes the announced size still expects,
      and `changedAt` the round whose re-stat first finds the file changed
      (None: it never changes while it is read). Each round reads up to a
      chunk's capacity; a short read is only accepted when it is exactly
      what is left. */
  function Chunks(file: string, rest: string, left: int, changedAt: Option<nat>): (r: Sent)
    requires ChunkCap(file) >= 1 && left != 0
    ensures forall i :: 0 <= i < |r.chunks| ==> 1 <= |r.chunks[i]| <= ChunkCap(file)
    ensures HasPrefix(rest, Flatten(r.chunks))
    ensures r.complete ==> |Flatten(r.chunks)| == left
    ensures changedAt.None? && |rest| == left ==> r.complete
    decreases |rest|
  {
    if changedAt == Some(0) then Sent([], false)
    else
      var n := Min(ChunkCap(file), |rest|);
      if n != ChunkCap(file) && n != left then Sent([], false)
      else if left - n == 0 then Sent([rest[..n]], true)
      else
        var more := Chunks(file, rest[n..], left - n, if changedAt.Some? then Some(changedAt.value - 1) else None);
        assert rest == rest[..n] + rest[n..];
        Sent([rest[..n]] + more.chunks, more.complete)
  }

  function RcvRecords(file: string, chunks: seq<string>): (r: seq<Record>)
    ensures |r| == |chunks|
    ensures forall i :: 0 <= i < |chunks| ==> r[i] == Rec(BigRcv, RcvPayload(file, chunks[i]))
  {
    if |chunks| == 0 then [] else [Rec(BigRcv, RcvPayload(file, chunks[0]))] + RcvRecords(file, chunks[1..])
  }

  /** Go's commitBigFile once the file is open: BIGINIT with the name, the
      chunks, and BIGCOMMIT with the stat or BIGABORT with the name. */
  function BigRecords(file: string, stat: Stat, data: string, changedAt: Option<nat>): (r: seq<Record>)
    requires ChunkCap(file) >= 1 && stat.size != 0
  {
    var sent := Chunks(file, data, stat.size, changedAt);
    [Rec(BigInit, file)] + RcvRecords(file, sent.chunks)
    + [if sent.complete then Rec(BigCommit, CommitPayload(file, stat)) else Rec(BigAbort, file)]
  }

  /** Go's addToDiff. `data` is what the entry's file or link target holds
      (None when it cannot be opened); `changedAt` says when, if ever, a big
      file is found changed while it is sent. A name so long that the chunk
      header leaves no room for contents is excluded: commitBigFile would
      slice past its buffer or never progress. */
  function AddToDiff(s: Sender, c: Change, data: Option<string>, changedAt: Option<nat>): (r: Sender)
    requires IsBig(c) ==> ChunkCap(c.file) >= 1
    ensures s.out <= r.out
    ensures IsBig(c) ==> r.buf == s.buf
    ensures |s.buf| <= MaxDiffSize ==> |r.buf| <= MaxDiffSize
  {
    if IsBig(c) then
      if data.None? then s else s.(out := s.out + BigRecords(c.file, c.stat, data.value, changedAt))
    else
      var s1 := if |s.buf| + DiffLen(c) + |Header(c)| >= MaxDiffSize - 1 then CommitDiff(s) else s;
      var e := Entry(c, data);
      if e.None? then s1 else s1.(buf := Take(s1.buf + e.value, MaxDiffSize))
  }

  /** The bytes an entry's encoding takes: header plus announced contents. */
  function EntrySize(c: Change): int {
    |Header(c)| + (if DiffLen(c) > 0 then DiffLen(c) else 0)
  }

  /** A small entry whose contents can be read is appended whole: either
      behind what the buffer held, or, when that would overflow, after the
      buffer was flushed as a DIFF record. The buffer is never cut as long
      as one entry fits on its own. */
  lemma EntryAppendedWhole(s: Sender, c: Change, data: Option<string>, changedAt: Option<nat>)
    requires !IsBig(c) && Entry(c, data).Some? && DiffLen(c) >= 0
    requires EntrySize(c) < MaxDiffSize - 1
    ensures var r := AddToDiff(s, c, data, changedAt);
      var e := Entry(c, data).value;
      if |s.buf| + EntrySize(c) < MaxDiffSize - 1
      then r == Sender(s.buf + e, s.out)
      else r == Sender(e, CommitDiff(s).out)
  {
    var e := Entry(c, data).value;
    if |s.buf| + EntrySize(c) < MaxDiffSize - 1 {
      assert Take(s.buf + e, MaxDiffSize) == s.buf + e;
    } else {
      assert "" + e == e;
      assert Take(e, MaxDiffSize) == e;
    }
  }

  /** An entry whose contents cannot be read leaves the buffer as it was,
      apart from the flush an overflow triggers first. */
  lemma UnreadableSkipped(s: Sender, c: Change, data: Option<string>, changedAt: Option<nat>)
    requires !IsBig(c) && Entry(c, data).None?
    ensures var r := AddToDiff(s, c, data, changedAt);
      r == s || r == CommitDiff(s)
  {
  }

  /** Every chunk record fits a record, so the out-log accepts it. */
  lemma BigRecordsFit(file: string, stat: Stat, data: string, changedAt: Option<nat>)
    requires ChunkCap(file) >= 1 && stat.size != 0
    ensures var r := BigRecords(file, stat, data, changedAt);
      |r| >= 2 && r[0] == Rec(BigInit, file)
      && (r[|r| - 1] == Rec(BigCommit, CommitPayload(file, stat)) || r[|r| - 1] == Rec(BigAbort, file))
      && forall i :: 1 <= i < |r| - 1 ==> r[i].0 == ActionName(BigRcv) && |r[i].1| <= MaxDiffSize / 2
  {
    var sent := Chunks(file, data, stat.size, changedAt);
    var r := BigRecords(file, stat, data, changedAt);
    var rcv := RcvRecords(file, sent.chunks);
    assert r == [Rec(BigInit, file)] + rcv + [r[|r| - 1]];
    forall i | 1 <= i < |r| - 1
      ensures r[i].0 == ActionName(BigRcv) && |r[i].1| <= MaxDiffSize / 2
    {
      assert r[i] == rcv[i - 1];
      PadWidth(|file|);
    }
  }

  /** A file that does not change while it is sent, and holds exactly its
      announced size, is sent whole: the chunks, in order, are its
      contents, and the last record commits it. */
  lemma BigFileComplete(file: string, stat: Stat, data: string)
    requires ChunkCap(file) >= 1 && stat.size > 0 && |data| == stat.size
    ensures Chunks(file, data, stat.size, None).complete
    ensures Flatten(Chunks(file, data, stat.size, None).chunks) == data
    ensures BigRecords(file, stat, data, None)
         == [Rec(BigInit, file)] + RcvRecords(file, Chunks(file, data, stat.size, None).chunks) + [Rec(BigCommit, CommitPayload(file, stat))]
  {
  }

  /** A file holding fewer bytes than announced is never committed. */
  lemma BigFileShortAborts(file: string, stat: Stat, data: string, changedAt: Option<nat>)
    requires ChunkCap(file) >= 1 && stat.size > 0 && |data| < stat.size
    ensures var r := BigRecords(file, stat, data, changedAt);
      r[|r| - 1] == Rec(BigAbort, file)
  {
  }

  /** A file found changed at the first re-stat is aborted before any
      chunk goes out. */
  lemma BigFileChangedAborts(file: string, stat: Stat, data: string)
    requires ChunkCap(file) >= 1 && stat.size != 0
    ensures BigRecords(file, stat, data, Some(0)) == [Rec(BigInit, file), Rec(BigAbort, file)]
  {
  }
}
