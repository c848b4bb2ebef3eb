/** The receiving side (server.go): the parser that turns a DIFF payload
    back into operations, the reader of the record stream, the big-file
    reassembly, and the dispatch of each record to its handler. */
module Server {
  import opened Base
  import opened Numbers
  import opened Consts
  import opened UnrealStat
  import opened Diff
  import OutLog

  /** One operation of a diff, as applyDiff hands it to writeContents or
      RemoveAll. */
  datatype Op = Add(file: string, stat: Stat, contents: string) | Delete(file: string)

  /** An Add carries contents exactly when its stat announces some. */
  predicate Consistent(op: Op) {
    op.Add? ==> |op.contents| == if !op.stat.isDir && op.stat.size > 0 then op.stat.size else 0
  }

  /** What applyDiff did: the operations applied, in order, and the reason
      it stopped early, if it did (a panic or fatalLn ends the server; the
      operations before it have already taken effect). */
  datatype Applied = Applied(ops: seq<Op>, failure: Option<string>)

  /** One chunk of applyDiff: the text before a separator, and what follows
      the separator. An Add of a non-directory with a positive size takes
      that many bytes after the separator as its contents. Yields the
      operation and the text the search resumes on. */
  function ParseChunk(chunk: string, after: string): (r: Result<(Op, string)>)
    ensures r.Ok? ==> Consistent(r.value.0) && |r.value.1| <= |after|
    ensures r.Ok? && r.value.0.Delete? ==> |chunk| >= 2 && chunk[0] == 'D' && r.value.0.file == chunk[2..]
    ensures r.Ok? && r.value.0.Add? ==> |chunk| >= 3 && chunk[0] == 'A' && '\n' !in r.value.0.file
    ensures |chunk| > 0 && chunk[0] != 'A' && chunk[0] != 'D' ==> r.Err?
  {
    if |chunk| == 0 then Err("index out of range")
    else if chunk[0] == 'A' then
      var nl := IndexOfChar(chunk, '\n');
      if nl < 0 then Err("No new line in file diff")
      else if nl < 2 then Err("slice bounds out of range")
      else
        var file := chunk[2..nl];
        assert forall i :: 0 <= i < |file| ==> file[i] == chunk[i + 2];
        var stat := Unserialize(chunk[nl + 1..]);
        if !stat.isDir && stat.size > 0 then
          if stat.size > |after| then Err("slice bounds out of range")
          else Ok((Add(file, stat, after[..stat.size]), after[stat.size..]))
        else Ok((Add(file, stat, ""), after))
    else if chunk[0] == 'D' then
      if |chunk| < 2 then Err("slice bounds out of range") else Ok((Delete(chunk[2..]), after))
    else Err("Unknown operation in diff")
  }

  /** Go's applyDiff on the part `s` of the buffer not yet parsed: it stops
      quietly when at most one byte is left or no separator remains. */
  function ParseDiff(s: string): (r: Applied)
    ensures forall i :: 0 <= i < |r.ops| ==> Consistent(r.ops[i])
    ensures |s| <= 1 || (forall i :: 0 <= i ==> !OccursAt(s, DiffSep, i)) ==> r == Applied([], None)
    decreases |s|
  {
    if |s| <= 1 then Applied([], None)
    else
      var e := IndexOf(s, DiffSep);
      if e < 0 then Applied([], None)
      else
        match ParseChunk(s[..e], s[e + |DiffSep|..])
        case Err(why) => Applied([], Some(why))
        case Ok((op, rest)) =>
          var more := ParseDiff(rest);
          Applied([op] + more.ops, more.failure)
  }

  /** The operation the server is meant to apply for an entry the client
      encoded with the given contents: the stat comes back as its text
      form carries it. */
  function Expected(c: Change, contents: string): Op {
    match c
    case Deleted(file) => Delete(file)
    case Added(file, stat) => Add(file, Shipped(stat), contents)
  }

  function ExpectedOps(es: seq<(Change, string)>): (r: seq<Op>)
    ensures |r| == |es|
    ensures forall i :: 0 <= i < |es| ==> r[i] == Expected(es[i].0, es[i].1)
  {
    if |es| == 0 then [] else [Expected(es[0].0, es[0].1)] + ExpectedOps(es[1..])
  }

  /** An entry whose name has no line break, carrying exactly the contents
      its stat announces. */
  predicate Sendable(c: Change, contents: string) {
    '\n' !in c.file && |contents| == (if DiffLen(c) > 0 then DiffLen(c) else 0)
  }

  /** A diff buffer holding the given entries, each header followed by its
      contents. */
  function EncodeEntries(es: seq<(Change, string)>): string {
    if |es| == 0 then "" else Header(es[0].0) + es[0].1 + EncodeEntries(es[1..])
  }

  /** The header of an entry without its separator. */
  function HeaderText(c: Change): string {
    match c
    case Deleted(file) => "D " + file
    case Added(file, stat) => "A " + file + "\n" + Serialize(stat)
  }

  /** No line break in `prefix` is followed by the '-' the separator
      continues with. */
  predicate NoSepStart(prefix: string) {
    forall i :: 0 <= i < |prefix| - 1 && prefix[i] == '\n' ==> prefix[i + 1] != '-'
  }

  /** The first separator after a text that cannot start one is the one
      that follows it. */
  lemma FirstSep(prefix: string, rest: string)
    requires NoSepStart(prefix)
    ensures IndexOf(prefix + DiffSep + rest, DiffSep) == |prefix|
  {
    var t := prefix + DiffSep + rest;
    assert t[|prefix|..|prefix| + |DiffSep|] == DiffSep;
    forall i | 0 <= i < |prefix|
      ensures !OccursAt(t, DiffSep, i)
    {
      assert t[i] == prefix[i];
      if i + 1 < |prefix| {
        assert t[i + 1] == prefix[i + 1];
      } else {
        assert t[i + 1] == '\n';
      }
      if i + |DiffSep| <= |t| {
        var w := t[i..i + |DiffSep|];
        assert w[0] == t[i] && w[1] == t[i + 1];
        assert w[0] != '\n' || w[1] != '-';
      }
    }
    assert OccursAt(t, DiffSep, |prefix|);
    var r := IndexOf(t, DiffSep);
    assert r >= 0;
  }

  lemma HeaderSplit(c: Change)
    requires '\n' !in c.file
    ensures Header(c) == HeaderText(c) + DiffSep
    ensures NoSepStart(HeaderText(c))
  {
    match c
    case Deleted(file) =>
      var h := HeaderText(c);
      assert forall i :: 2 <= i < |h| ==> h[i] == file[i - 2];
    case Added(file, stat) =>
      SerializeOneLine(stat);
      AddedNoSepStart(file, Serialize(stat));
  }

  lemma AddedNoSepStart(file: string, ser: string)
    requires '\n' !in file && '\n' !in ser && |ser| >= 1 && ser[0] != '-'
    ensures NoSepStart("A " + file + "\n" + ser)
  {
    var h := "A " + file + "\n" + ser;
    assert forall i :: 2 <= i < 2 + |file| ==> h[i] == file[i - 2];
    assert h[2 + |file|] == '\n' && h[3 + |file|] == ser[0];
    assert forall i :: 3 + |file| <= i < |h| ==> h[i] == ser[i - 3 - |file|];
  }

  /** Where the pieces of an add header sit. */
  lemma AddedFields(file: string, stat: Stat)
    requires '\n' !in file
    ensures var h := HeaderText(Added(file, stat));
      |h| >= 3 && h[0] == 'A' && IndexOfChar(h, '\n') == 2 + |file|
      && h[2..2 + |file|] == file && h[3 + |file|..] == Serialize(stat)
  {
    var h := HeaderText(Added(file, stat));
    assert h[2 + |file|] == '\n';
    assert forall i :: 2 <= i < 2 + |file| ==> h[i] == file[i - 2];
    assert forall i :: 0 <= i < 2 + |file| ==> h[i] != '\n';
    assert h[2..2 + |file|] == file;
    assert h[3 + |file|..] == Serialize(stat);
  }

  /** The chunk of an encoded entry parses to the expected operation and
      leaves exactly what follows the entry. */
  lemma ChunkOf(c: Change, contents: string, rest: string)
    requires Sendable(c, contents)
    ensures ParseChunk(HeaderText(c), contents + rest) == Ok((Expected(c, contents), rest))
  {
    var h := HeaderText(c);
    var after := contents + rest;
    match c
    case Deleted(file) =>
      assert h[2..] == file;
      assert after == rest;
    case Added(file, stat) =>
      AddedFields(file, stat);
      SerializeRoundTrip(stat);
      var st := Shipped(stat);
      assert h[3 + |file|..] == Serialize(stat);
      if DiffLen(c) > 0 {
        AddChunkSized(h, file, st, contents, rest);
      } else {
        AddChunkEmpty(h, file, st, contents, rest);
      }
  }

  /** An add chunk whose stat announces contents takes exactly that many
      bytes from what follows it. */
  lemma AddChunkSized(chunk: string, file: string, st: Stat, contents: string, rest: string)
    requires |chunk| >= 3 && chunk[0] == 'A' && IndexOfChar(chunk, '\n') == 2 + |file|
    requires chunk[2..2 + |file|] == file && Unserialize(chunk[3 + |file|..]) == st
    requires !st.isDir && st.size > 0 && |contents| == st.size
    ensures ParseChunk(chunk, contents + rest) == Ok((Add(file, st, contents), rest))
  {
    var after := contents + rest;
    assert after[..st.size] == contents;
    assert after[st.size..] == rest;
  }

  /** An add chunk for a directory or an empty file takes nothing from what
      follows it. */
  lemma AddChunkEmpty(chunk: string, file: string, st: Stat, contents: string, rest: string)
    requires |chunk| >= 3 && chunk[0] == 'A' && IndexOfChar(chunk, '\n') == 2 + |file|
    requires chunk[2..2 + |file|] == file && Unserialize(chunk[3 + |file|..]) == st
    requires (st.isDir || st.size <= 0) && |contents| == 0
    ensures ParseChunk(chunk, contents + rest) == Ok((Add(file, st, contents), rest))
  {
    assert contents + rest == rest;
  }

  /** One encoded entry in front of the rest of the buffer: the parser
      yields its operation and carries on with the rest. */
  lemma ParseEntry(c: Change, contents: string, rest: string)
    requires Sendable(c, contents)
    ensures var r := ParseDiff(rest);
      ParseDiff(Header(c) + contents + rest) == Applied([Expected(c, contents)] + r.ops, r.failure)
  {
    var h := HeaderText(c);
    HeaderSplit(c);
    var s := Header(c) + contents + rest;
    assert s == h + DiffSep + (contents + rest);
    FirstSep(h, contents + rest);
    assert s[..|h|] == h;
    assert s[|h| + |DiffSep|..] == contents + rest;
    ChunkOf(c, contents, rest);
  }

  /** applyDiff recovers, in order, every entry addToDiff encoded: the
      operation, the name, the stat fields the text form carries, and the
      contents, even when the contents hold the separator. */
  lemma {:induction false} ApplyRoundTrip(es: seq<(Change, string)>)
    requires forall i :: 0 <= i < |es| ==> Sendable(es[i].0, es[i].1)
    ensures ParseDiff(EncodeEntries(es)) == Applied(ExpectedOps(es), None)
    decreases |es|
  {
    if |es| > 0 {
      ApplyRoundTrip(es[1..]);
      ParseEntry(es[0].0, es[0].1, EncodeEntries(es[1..]));
    }
  }

  /** Go's readResponse on the stream after the action: a ten-byte length
      field, trimmed of blanks, then that many bytes. Every failure panics:
      a short field, a field that is not a number, a negative length (the
      buffer cannot be made), a length above MaxDiffSize, a short payload.
      Yields the payload and the rest of the stream. */
  function ReadResponse(s: string): (r: Result<(string, string)>)
    ensures r.Ok? ==> |s| >= 10 && |r.value.0| <= MaxDiffSize && s == s[..10] + r.value.0 + r.value.1
    ensures r.Ok? ==> Atoi(TrimSpace(s[..10])) == Value(|r.value.0|)
    ensures |s| < 10 ==> r.Err?
  {
    match OutLog.ReadFull(s, 10)
    case Full(field, rest) =>
      var r := ResponseBody(field, rest);
      assert r.Ok? ==> s == field + r.value.0 + r.value.1;
      r
    case _ => Err("Cannot read diff length")
  }

  /** readResponse once the length field is read. */
  function ResponseBody(field: string, rest: string): (r: Result<(string, string)>)
    ensures r.Ok? ==> |r.value.0| <= MaxDiffSize && rest == r.value.0 + r.value.1
    ensures r.Ok? ==> Atoi(TrimSpace(field)) == Value(|r.value.0|)
  {
    match Atoi(TrimSpace(field))
    case Value(length) =>
      if length < 0 then Err("makeslice: len out of range")
      else if length == 0 then Ok(("", rest))
      else if length > MaxDiffSize then Err("Too big diff, probably communication error")
      else
        (match OutLog.ReadFull(rest, length)
         case Full(buf, more) => Ok((buf, more))
         case _ => Err("Cannot read diff"))
    case _ => Err("Incorrect diff length")
  }

  /** The length field the out-log writes is the one readResponse reads. */
  lemma ReadResponseRoundTrip(payload: string, rest: string)
    requires |payload| <= MaxDiffSize
    ensures ReadResponse(SpacePad10(|payload|) + payload + rest) == Ok((payload, rest))
  {
    PadWidth(|payload|);
    var field := SpacePad10(|payload|);
    var s := field + payload + rest;
    assert s[..10] == field;
    assert s[10..] == payload + rest;
    BodyRoundTrip(payload, rest);
  }

  lemma BodyRoundTrip(payload: string, rest: string)
    requires |payload| <= MaxDiffSize
    ensures ResponseBody(SpacePad10(|payload|), payload + rest) == Ok((payload, rest))
  {
    SpacePadRoundTrip(|payload|);
    assert (payload + rest)[..|payload|] == payload;
    assert (payload + rest)[|payload|..] == rest;
  }

  /** The header of a BIGRCV or BIGCOMMIT payload: ten characters parsed as
      a 32-bit length, then the name of that length. Yields the name and
      what follows it; a short buffer or a bad length panics. */
  function BigHeader(buf: string): (r: Result<(string, string)>)
    ensures r.Ok? ==> |buf| >= 10 + |r.value.0| && buf == buf[..10] + r.value.0 + r.value.1
    ensures r.Ok? ==> ParseInt(buf[..10], 10, 32) == Value(|r.value.0|)
  {
    if |buf| < 10 then Err("slice bounds out of range")
    else
      match ParseInt(buf[..10], 10, 32)
      case Value(n) =>
        if n < 0 || 10 + n > |buf| then Err("slice bounds out of range")
        else
          assert buf == buf[..10] + buf[10..10 + n] + buf[10 + n..];
          Ok((buf[10..10 + n], buf[10 + n..]))
      case _ => Err("Cannot parse big filename length")
  }

  /** The server reads back the name the client put in front of a chunk or
      a commit, and exactly what follows it. */
  lemma BigHeaderRoundTrip(file: string, rest: string)
    requires |file| < 0x8000_0000
    ensures BigHeader(ZeroPad10(|file|) + file + rest) == Ok((file, rest))
  {
    PadWidth(|file|);
    ZeroPadRoundTrip(|file|);
    var buf := ZeroPad10(|file|) + file + rest;
    assert buf[..10] == ZeroPad10(|file|);
    assert buf[10..10 + |file|] == file;
    assert buf[10 + |file|..] == rest;
  }

  /** The temporary file a big transfer writes into: what it holds so far,
      and whether it is still open. */
  datatype BigFile = BigFile(data: string, open: bool)

  /** What the server does to the world: apply a diff operation, move a
      finished big file into place with its stat, or write a reply. */
  datatype Effect = Apply(op: Op) | Install(file: string, stat: Stat, data: string) | Reply(action: string)

  /** applyThread's state: the big transfers by name (`bigFps`), and the
      effects so far. */
  datatype Receiver = Receiver(big: map<string, BigFile>, effects: seq<Effect>)

  /** The outcome of handling one record: carry on, or stop with a panic. */
  datatype Step = Continue(st: Receiver) | Halt(st: Receiver, why: string)

  function Applies(ops: seq<Op>): (r: seq<Effect>)
    ensures |r| == |ops|
    ensures forall i :: 0 <= i < |ops| ==> r[i] == Apply(ops[i])
  {
    if |ops| == 0 then [] else [Apply(ops[0])] + Applies(ops[1..])
  }

  /** Go's processBigInit: a fresh, empty, open temporary file for the name
      (an earlier one of the same name is truncated). */
  function ProcessBigInit(st: Receiver, buf: string): (r: Step)
  {
    Continue(st.(big := st.big[buf := BigFile("", true)]))
  }

  /** Go's processBigRcv: the chunk is appended to the named transfer. A
      name with no transfer panics, and so does writing to a transfer
      already committed (its file is closed). */
  function ProcessBigRcv(st: Receiver, buf: string): (r: Step)
    ensures r.Continue? <==> BigHeader(buf).Ok? && BigHeader(buf).value.0 in st.big && st.big[BigHeader(buf).value.0].open
    ensures r.Continue? ==> var (file, chunk) := BigHeader(buf).value;
      r.st == st.(big := st.big[file := BigFile(st.big[file].data + chunk, true)])
    ensures r.Halt? ==> r.st == st
  {
    match BigHeader(buf)
    case Err(why) => Halt(st, why)
    case Ok((file, chunk)) =>
      if file !in st.big then Halt(st, "Received big chunk for unknown file")
      else if !st.big[file].open then Halt(st, "Cannot write to tmp file")
      else Continue(st.(big := st.big[file := BigFile(st.big[file].data + chunk, true)]))
  }

  /** Go's processBigCommit: the temporary file is closed and moved into
      place with the mode and time of the stat that follows the name. A
      name with no transfer panics, and so does closing it a second time. */
  function ProcessBigCommit(st: Receiver, buf: string): (r: Step)
    ensures r.Continue? <==> BigHeader(buf).Ok? && BigHeader(buf).value.0 in st.big && st.big[BigHeader(buf).value.0].open
    ensures r.Continue? ==> var (file, text) := BigHeader(buf).value;
      r.st == Receiver(st.big[file := BigFile("", false)],
                       st.effects + [Install(file, Unserialize(text), st.big[file].data)])
    ensures r.Halt? ==> r.st == st
  {
    match BigHeader(buf)
    case Err(why) => Halt(st, why)
    case Ok((file, text)) =>
      if file !in st.big then Halt(st, "Received big commit for unknown file")
      else if !st.big[file].open then Halt(st, "Cannot close tmp file")
      else Continue(Receiver(st.big[file := BigFile("", false)],
                             st.effects + [Install(file, Unserialize(text), st.big[file].data)]))
  }

  /** Go's processBigAbort: the transfer is closed and its temporary file
      removed; a second close or a missing file goes unnoticed, but a name
      with no transfer panics. */
  function ProcessBigAbort(st: Receiver, buf: string): (r: Step)
    ensures r.Continue? <==> buf in st.big
    ensures r.Continue? ==> r.st == st.(big := st.big[buf := BigFile("", false)])
  {
    if buf !in st.big then Halt(st, "Received big commit for unknown file")
    else Continue(st.(big := st.big[buf := BigFile("", false)]))
  }

  /** Go's applyThread dispatch on one record. PING is answered with PONG;
      DIFF, BIGINIT, BIGRCV, BIGCOMMIT and BIGABORT go to their handlers;
      PONG and anything else is ignored. */
  function Dispatch(st: Receiver, action: string, buf: string): (r: Step)
    ensures st.effects <= r.st.effects
    ensures ActionOf(action).None? || ActionOf(action) in {Some(Pong), Some(StopServer)} ==> r == Continue(st)
  {
    match ActionOf(action)
    case Some(Ping) => Continue(st.(effects := st.effects + [Reply(ActionName(Pong))]))
    case Some(Diff) =>
      var a := ParseDiff(buf);
      var next := st.(effects := st.effects + Applies(a.ops));
      if a.failure.Some? then Halt(next, a.failure.value) else Continue(next)
    case Some(BigInit) => ProcessBigInit(st, buf)
    case Some(BigRcv) => ProcessBigRcv(st, buf)
    case Some(BigCommit) => ProcessBigCommit(st, buf)
    case Some(BigAbort) => ProcessBigAbort(st, buf)
    case _ => Continue(st)
  }

  /** Go's applyThread loop over the stream `s` of records: it runs until a
      read fails or a handler panics, and yields the state it stops in and
      why. */
  function Serve(st: Receiver, s: string): (r: (Receiver, string))
    ensures st.effects <= r.0.effects
    decreases |s|
  {
    match OutLog.ReadFull(s, 10)
    case Full(action, rest) =>
      (match ReadResponse(rest)
       case Err(why) => (st, why)
       case Ok((buf, more)) =>
         match Dispatch(st, action, buf)
         case Halt(next, why) => (next, why)
         case Continue(next) => Serve(next, more))
    case _ => (st, "Cannot read action")
  }

  /** Where the loop goes after one record: it stops on a panic, and
      otherwise reads on. */
  function Resume(step: Step, more: string): (Receiver, string) {
    if step.Halt? then (step.st, step.why) else Serve(step.st, more)
  }

  /** One record at the head of the stream is read back whole and handed to
      its handler; the loop then carries on after it. */
  lemma ServeRecord(st: Receiver, action: string, payload: string, more: string)
    requires |action| == 10 && |payload| <= MaxDiffSize
    ensures Serve(st, OutLog.EncodeRecord(action, payload) + more) == Resume(Dispatch(st, action, payload), more)
  {
    ReadResponseRoundTrip(payload, more);
    OutLog.RecordAfterAction(action, payload, more);
    ServeAt(st, action, SpacePad10(|payload|) + payload + more, payload, more);
  }

  /** The loop on a stream that starts with an action and a well-formed
      length and payload. */
  lemma ServeAt(st: Receiver, action: string, rest: string, buf: string, more: string)
    requires |action| == 10 && ReadResponse(rest) == Ok((buf, more))
    ensures Serve(st, action + rest) == Resume(Dispatch(st, action, buf), more)
  {
    var s := action + rest;
    assert s[..10] == action && s[10..] == rest;
  }

  /** A DIFF record of encoded entries makes the server apply exactly the
      expected operations, in order, and read on. */
  lemma DiffDelivered(st: Receiver, es: seq<(Change, string)>, more: string)
    requires forall i :: 0 <= i < |es| ==> Sendable(es[i].0, es[i].1)
    requires |EncodeEntries(es)| <= MaxDiffSize
    ensures Serve(st, OutLog.EncodeRecord(ActionName(Diff), EncodeEntries(es)) + more)
         == Serve(st.(effects := st.effects + Applies(ExpectedOps(es))), more)
  {
    ServeRecord(st, ActionName(Diff), EncodeEntries(es), more);
    ApplyRoundTrip(es);
    ActionNameRoundTrip(Diff);
  }

  /** One chunk record for an open transfer appends the chunk. */
  lemma ChunkDelivered(st: Receiver, file: string, c: string, more: string)
    requires file in st.big && st.big[file].open && ChunkCap(file) >= 1 && |c| <= ChunkCap(file)
    ensures Serve(st, OutLog.EncodeRecord(ActionName(BigRcv), RcvPayload(file, c)) + more)
         == Serve(st.(big := st.big[file := BigFile(st.big[file].data + c, true)]), more)
  {
    var p := RcvPayload(file, c);
    var st1 := st.(big := st.big[file := BigFile(st.big[file].data + c, true)]);
    assert |p| <= MaxDiffSize by {
      PadWidth(|file|);
    }
    assert Dispatch(st, ActionName(BigRcv), p) == Continue(st1) by {
      DispatchBig(st, p);
      BigHeaderRoundTrip(file, c);
    }
    ServeRecord(st, ActionName(BigRcv), p, more);
  }

  /** The first of a run of chunk records is consumed on its own. */
  lemma ChunksCons(st: Receiver, file: string, chunks: seq<string>, more: string)
    requires file in st.big && st.big[file].open && ChunkCap(file) >= 1
    requires |chunks| > 0 && |chunks[0]| <= ChunkCap(file)
    ensures Serve(st, OutLog.WriteAll(RcvRecords(file, chunks)) + more)
         == Serve(st.(big := st.big[file := BigFile(st.big[file].data + chunks[0], true)]),
                  OutLog.WriteAll(RcvRecords(file, chunks[1..])) + more)
  {
    var recs := RcvRecords(file, chunks);
    assert recs[1..] == RcvRecords(file, chunks[1..]);
    var tail := OutLog.WriteAll(RcvRecords(file, chunks[1..])) + more;
    assert OutLog.WriteAll(recs) + more == OutLog.EncodeRecord(ActionName(BigRcv), RcvPayload(file, chunks[0])) + tail;
    ChunkDelivered(st, file, chunks[0], tail);
  }

  lemma ChunksNil(st: Receiver, file: string, more: string)
    requires file in st.big && st.big[file].open
    ensures Serve(st, OutLog.WriteAll(RcvRecords(file, [])) + more)
         == Serve(st.(big := st.big[file := BigFile(st.big[file].data + Flatten([]), true)]), more)
  {
    assert OutLog.WriteAll(RcvRecords(file, [])) + more == more;
    assert BigFile(st.big[file].data + Flatten([]), true) == st.big[file];
    assert st.big[file := st.big[file]] == st.big;
  }

  /** Appending the first chunk and then the others appends them all. */
  lemma AppendTwice(st: Receiver, file: string, chunks: seq<string>)
    requires file in st.big && |chunks| > 0
    ensures var st1 := st.(big := st.big[file := BigFile(st.big[file].data + chunks[0], true)]);
      st1.(big := st1.big[file := BigFile(st1.big[file].data + Flatten(chunks[1..]), true)])
      == st.(big := st.big[file := BigFile(st.big[file].data + Flatten(chunks), true)])
  {
    var data := st.big[file].data;
    assert data + chunks[0] + Flatten(chunks[1..]) == data + Flatten(chunks);
  }

  /** A run of chunk records for an open transfer appends the chunks, in
      order, to what the transfer holds. */
  lemma {:induction false} ChunksDelivered(st: Receiver, file: string, chunks: seq<string>, more: string)
    requires file in st.big && st.big[file].open && ChunkCap(file) >= 1
    requires forall i :: 0 <= i < |chunks| ==> |chunks[i]| <= ChunkCap(file)
    ensures Serve(st, OutLog.WriteAll(RcvRecords(file, chunks)) + more)
         == Serve(st.(big := st.big[file := BigFile(st.big[file].data + Flatten(chunks), true)]), more)
    decreases |chunks|
  {
    var data := st.big[file].data;
    if |chunks| == 0 {
      ChunksNil(st, file, more);
    } else {
      var c := chunks[0];
      var st1 := st.(big := st.big[file := BigFile(data + c, true)]);
      var target := st.(big := st.big[file := BigFile(data + Flatten(chunks), true)]);
      var later := OutLog.WriteAll(RcvRecords(file, chunks[1..])) + more;
      assert Serve(st, OutLog.WriteAll(RcvRecords(file, chunks)) + more) == Serve(st1, later) by {
        ChunksCons(st, file, chunks, more);
      }
      assert Serve(st1, later) == Serve(target, more) by {
        ChunksDelivered(st1, file, chunks[1..], more);
        AppendTwice(st, file, chunks);
      }
    }
  }

  /** BIGINIT opens an empty transfer for the name. */
  lemma InitDelivered(st: Receiver, file: string, more: string)
    requires ChunkCap(file) >= 1
    ensures Serve(st, OutLog.EncodeRecord(ActionName(BigInit), file) + more)
         == Serve(st.(big := st.big[file := BigFile("", true)]), more)
  {
    DispatchBig(st, file);
    ServeRecord(st, ActionName(BigInit), file, more);
  }

  /** BIGINIT restarts a transfer: whatever the name held before, open or
      already committed, a chunk and a commit that follow install exactly
      that chunk. */
  lemma InitRestarts(st: Receiver, file: string, c: string, stat: Stat)
    requires |file| < 0x8000_0000
    ensures var s1 := ProcessBigInit(st, file).st;
      var s2 := ProcessBigRcv(s1, RcvPayload(file, c));
      s2.Continue? && ProcessBigCommit(s2.st, CommitPayload(file, stat))
        == Continue(Receiver(st.big[file := BigFile("", false)], st.effects + [Install(file, Shipped(stat), c)]))
  {
    var s1 := ProcessBigInit(st, file).st;
    BigHeaderRoundTrip(file, c);
    assert "" + c == c;
    var s2 := s1.(big := s1.big[file := BigFile(c, true)]);
    assert ProcessBigRcv(s1, RcvPayload(file, c)) == Continue(s2);
    BigHeaderRoundTrip(file, Serialize(stat));
    SerializeRoundTrip(stat);
    UpdateTwice(st.big, file, BigFile("", true), BigFile(c, true));
    UpdateTwice(st.big, file, BigFile(c, true), BigFile("", false));
  }

  /** A PING record is answered with exactly the ten bytes of PONG, and
      the loop reads on; nothing else changes. */
  lemma PingAnswered(st: Receiver, payload: string, more: string)
    requires |payload| <= MaxDiffSize
    ensures Serve(st, OutLog.EncodeRecord(ActionName(Ping), payload) + more)
         == Serve(st.(effects := st.effects + [Reply(ActionName(Pong))]), more)
    ensures |ActionName(Pong)| == 10
  {
    ServeRecord(st, ActionName(Ping), payload, more);
    ActionNameRoundTrip(Ping);
  }

  /** BIGCOMMIT of an open transfer installs what it holds, with the stat
      the commit carries, and closes it. */
  lemma CommitDelivered(st: Receiver, file: string, stat: Stat, more: string)
    requires ChunkCap(file) >= 1 && file in st.big && st.big[file].open
    ensures Serve(st, OutLog.EncodeRecord(ActionName(BigCommit), CommitPayload(file, stat)) + more)
         == Serve(Receiver(st.big[file := BigFile("", false)], st.effects + [Install(file, Shipped(stat), st.big[file].data)]), more)
  {
    var p := CommitPayload(file, stat);
    var st1 := Receiver(st.big[file := BigFile("", false)], st.effects + [Install(file, Shipped(stat), st.big[file].data)]);
    assert |p| <= MaxDiffSize by {
      PadWidth(|file|);
      SerializeShort(stat);
    }
    assert Dispatch(st, ActionName(BigCommit), p) == Continue(st1) by {
      CommitStep(st, file, stat);
    }
    ServeRecord(st, ActionName(BigCommit), p, more);
  }

  lemma CommitStep(st: Receiver, file: string, stat: Stat)
    requires ChunkCap(file) >= 1 && file in st.big && st.big[file].open
    ensures Dispatch(st, ActionName(BigCommit), CommitPayload(file, stat))
         == Continue(Receiver(st.big[file := BigFile("", false)], st.effects + [Install(file, Shipped(stat), st.big[file].data)]))
  {
    var p := CommitPayload(file, stat);
    DispatchBig(st, p);
    assert BigHeader(p) == Ok((file, Serialize(stat))) by {
      BigHeaderRoundTrip(file, Serialize(stat));
    }
    SerializeRoundTrip(stat);
  }

  /** Each big-file action reaches its own handler. */
  lemma DispatchBig(st: Receiver, buf: string)
    ensures Dispatch(st, ActionName(BigInit), buf) == ProcessBigInit(st, buf)
    ensures Dispatch(st, ActionName(BigRcv), buf) == ProcessBigRcv(st, buf)
    ensures Dispatch(st, ActionName(BigCommit), buf) == ProcessBigCommit(st, buf)
    ensures Dispatch(st, ActionName(BigAbort), buf) == ProcessBigAbort(st, buf)
  {
    ActionNameRoundTrip(BigInit);
    ActionNameRoundTrip(BigRcv);
    ActionNameRoundTrip(BigCommit);
    ActionNameRoundTrip(BigAbort);
  }

  /** The records commitBigFile writes for an unchanged file holding its
      announced size make the server install exactly that file, with the
      stat its text form carries, and close the transfer. */
  lemma BigDelivered(st: Receiver, file: string, stat: Stat, data: string, more: string)
    requires ChunkCap(file) >= 1 && stat.size > 0 && |data| == stat.size
    ensures Serve(st, OutLog.WriteAll(BigRecords(file, stat, data, None)) + more)
         == Serve(Receiver(st.big[file := BigFile("", false)], st.effects + [Install(file, Shipped(stat), data)]), more)
  {
    var rcv := RcvRecords(file, Chunks(file, data, stat.size, None).chunks);
    var afterRcv := OutLog.EncodeRecord(ActionName(BigCommit), CommitPayload(file, stat)) + more;
    var st2 := st.(big := st.big[file := BigFile(data, true)]);
    BigSplit(file, stat, data, more);
    InitDelivered(st, file, OutLog.WriteAll(rcv) + afterRcv);
    ChunksPhase(st, file, stat, data, afterRcv);
    CommitDelivered(st2, file, stat, more);
    UpdateTwice(st.big, file, BigFile(data, true), BigFile("", false));
  }

  /** The text of the big-file records: the BIGINIT record, the chunk
      records, the BIGCOMMIT record. */
  lemma BigSplit(file: string, stat: Stat, data: string, more: string)
    requires ChunkCap(file) >= 1 && stat.size > 0 && |data| == stat.size
    ensures var rcv := RcvRecords(file, Chunks(file, data, stat.size, None).chunks);
      OutLog.WriteAll(BigRecords(file, stat, data, None)) + more
      == OutLog.EncodeRecord(ActionName(BigInit), file)
         + (OutLog.WriteAll(rcv) + (OutLog.EncodeRecord(ActionName(BigCommit), CommitPayload(file, stat)) + more))
  {
    BigFileComplete(file, stat, data);
    OutLog.WriteFramed(Rec(BigInit, file), RcvRecords(file, Chunks(file, data, stat.size, None).chunks),
      Rec(BigCommit, CommitPayload(file, stat)), more);
  }

  /** The chunk records of a file sent whole fill the freshly opened
      transfer with the file's contents. */
  lemma ChunksPhase(st: Receiver, file: string, stat: Stat, data: string, more: string)
    requires ChunkCap(file) >= 1 && stat.size > 0 && |data| == stat.size
    ensures var rcv := RcvRecords(file, Chunks(file, data, stat.size, None).chunks);
      Serve(st.(big := st.big[file := BigFile("", true)]), OutLog.WriteAll(rcv) + more)
      == Serve(st.(big := st.big[file := BigFile(data, true)]), more)
  {
    var chunks := Chunks(file, data, stat.size, None).chunks;
    var st1 := st.(big := st.big[file := BigFile("", true)]);
    BigFileComplete(file, stat, data);
    ChunksDelivered(st1, file, chunks, more);
    assert "" + Flatten(chunks) == data;
    UpdateTwice(st.big, file, BigFile("", true), BigFile(data, true));
  }

  lemma UpdateTwice(m: map<string, BigFile>, k: string, v: BigFile, w: BigFile)
    ensures m[k := v][k := w] == m[k := w]
  {
  }

  /** writeContents' first decision: an entry already at the path is
      removed first when it is a directory and the incoming entry is not, or
      the other way round, or when it is a symlink. */
  function MustRemoveFirst(existing: Option<FileInfo>, incoming: Stat): (r: bool)
    ensures existing.None? ==> !r
    ensures existing.Some? && existing.value.IsSymlink() ==> r
    ensures existing.Some? && !existing.value.IsSymlink() ==> (r <==> existing.value.IsDir() != incoming.isDir)
  {
    existing.Some? && (existing.value.IsDir() != incoming.isDir || existing.value.IsSymlink())
  }

  /** The kind of entry a path holds. */
  datatype Kind = Dir | Link | File

  function KindOf(info: FileInfo): Kind {
    if info.IsSymlink() then Link else if info.IsDir() then Dir else File
  }

  function StatKind(s: Stat): Kind {
    if s.isDir then Dir else if s.isLink then Link else File
  }

  /** What writeContents leaves at the path, when every call into the
      filesystem that can succeed does: the entry removed first (or not),
      then MkdirAll for a directory (which accepts an existing directory),
      os.Symlink for a link (which fails on any existing entry and leaves it
      alone), or a write to a temporary file renamed over the path. */
  function WriteOutcome(existing: Option<FileInfo>, incoming: Stat, remove: bool): (r: Kind)
    requires !remove ==> existing.None? || (!existing.value.IsSymlink() && existing.value.IsDir() == incoming.isDir)
  {
    var left := if remove || existing.None? then None else Some(KindOf(existing.value));
    if incoming.isDir then Dir
    else if incoming.isLink then (if left.None? then Link else left.value)
    else File
  }

  /** The remove-first rule as written: an incoming symlink does not
      remove a regular file, so os.Symlink then fails and the file stays. */
  lemma LinkOverFileKept(info: FileInfo, incoming: Stat)
    requires !info.IsDir() && !info.IsSymlink() && incoming.isLink && !incoming.isDir
    ensures !MustRemoveFirst(Some(info), incoming)
    ensures WriteOutcome(Some(info), incoming, MustRemoveFirst(Some(info), incoming)) == File
    ensures StatKind(incoming) == Link
  {
  }

  /** The rule writeContents evidently intends: remove the entry too when
      the incoming one is a symlink, since nothing can be linked over it. */
  function MustRemove(existing: Option<FileInfo>, incoming: Stat): (r: bool)
    ensures r <==> MustRemoveFirst(existing, incoming) || (existing.Some? && incoming.isLink && !incoming.isDir)
  {
    existing.Some? && (existing.value.IsDir() != incoming.isDir || existing.value.IsSymlink() || (incoming.isLink && !incoming.isDir))
  }

  /** With the corrected rule the path always ends up holding the kind of
      entry that was sent, whatever was there before. */
  lemma WrittenKind(existing: Option<FileInfo>, incoming: Stat)
    ensures WriteOutcome(existing, incoming, MustRemove(existing, incoming)) == StatKind(incoming)
  {
  }
}
