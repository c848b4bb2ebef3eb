# unrealsync in Dafny

unrealsync keeps a remote directory in step with a local one. The client
watches the local tree and records every directory it has seen in a
repository of file stats. On each tick it reconciles the directories that
changed against that record. It encodes what changed as a diff buffer of
`A` (add) and `D` (delete) entries, or as a BIGINIT / BIGRCV… / BIGCOMMIT
run for a big file, and appends those to an out-log of framed records.
A server reads the records back and applies them.

This project models the pure rules at the heart of that pipeline and proves
properties about them:

- **Base** and **Numbers**: the Go library behaviour the rules rely on.
  - Base: `strings.Split` / `Join` / `TrimSpace`, `IndexOf`.
  - Numbers: `strconv.Itoa` / `Atoi` / `ParseInt`, scanning left to right as
    Go does: the first digit that overflows gives a clamped range error, the
    first stray character before that a syntax error. Also
    the `%10d` and `%010d` fields.
- **Consts**: the action names.
- **UnrealStat**: the stat record, its one-line text form, and the change
  test `StatsEqual`.
- **Diff**: the client's diff buffer (`addToDiff`, `commitDiff`) and the
  big-file record layout (`commitBigFile`).
- **OutLog**:
  - the out-log record framing (`writeToOutLog`, `readLogEntry`);
  - the writer/reader position state machine (rotation, reader
    invalidation, pending queue size).
- **Server**: the receiving side.
  - The `applyDiff` parser and `readResponse`.
  - The big-file handlers and the `applyThread` dispatch loop.
  - The remove-first decision of `writeContents`.
- **Repository**: the client's repository and its path filter.
- **Sync**:
  - path location (`getPathToSync`, `readWatcher`) and directory
    aggregation between ticks (`aggregateDirs`);
  - `syncDir` over a filesystem snapshot, for both the current client
    (changes.go) and its older twin (client.go), selected by a revision
    parameter.
- **List**: brace and interval expansion of server-name patterns
  (`list.Expand`, `list.Glob`).
- **Config**: server settings from the ini dictionary (`parseConfig`).
- **Utils**: `formatLength`, version parsing and compatibility, ssh
  options, and progress padding.
- **Cli**: the command line, meaning the repeatable `-exclude` flag and
  the `[user@]host:dir` arguments.

The constants are the ones unrealsync.go defines:

- diff separator `"\n------------\n"`;
- ten-character actions;
- `maxDiffSize = 2*1024*1204` (the factor really is 1204);
- repository directory `.unrealsync`.

The code contains no event normaliser that coalesces change kinds over a
latency window. The only watcher prints each path it is told about, and
`aggregateDirs` just collects directories into a set until the next tick.
The model follows the code, so there is no such normaliser here.

Go map iteration order is modelled in one of two ways:

- by an explicit `order` parameter (`parseConfig` sections, the tick's
  directories);
- by a set where order cannot matter (the deletions one `syncDir` call
  reports).

Integers keep Go's widths where the code relies on them: 16-bit mode, and
64-bit mtime and size with `ParseInt`'s clamp.

## Model

| member | source | states |
|---|---|---|
| Consts.ActionName | unrealsync.go:28-36 | every action name is exactly ten characters and does not start with a blank |
| Consts.ActionNameRoundTrip | unrealsync.go:28-36 | each action name is recognised as its own action, so the dispatch can tell them apart |
| Consts.ActionOf | server.go:159-174 | a header is recognised as an action only if it is exactly that action's name |
| Consts.ActionNameInjective | unrealsync.go:28-36 | distinct actions have distinct headers |
| Numbers.ParseInt | unrealstat.go:88-89 | whatever is parsed, the value kept after the error is dropped fits the signed width; a range error carries one of the two limits |
| Numbers.FormatParse | unrealstat.go:31 | a number printed in base 8 or 10 and parsed with ParseInt at a width that holds it reads back as that number |
| Numbers.SpacePadRoundTrip | log.go:61 | a length written `%10d` reads back by TrimSpace and Atoi, as readLogEntry and readResponse do |
| Numbers.ZeroPadRoundTrip | changes.go:79 | a name length written `%010d` reads back with ParseInt(…, 10, 32), as processBigRcv does |
| Numbers.PadWidth | log.go:61 | a length below 10^10 fills exactly the ten characters of the `%10d` / `%010d` field |
| UnrealStat.SerializeTokens | unrealstat.go:22-33 | the text form is the optional `dir` and `symlink` markers, then `mode=<octal>`, `mtime=<dec>` and `size=<dec>`, split on blanks exactly into those tokens |
| UnrealStat.SerializeRoundTrip | unrealstat.go:82-99 | Unserialize(Serialize(s)) gives back isDir, isLink, mode, mtime and size; the name and hash come back empty |
| UnrealStat.UnknownTokenIgnored | unrealstat.go:83-96 | an unknown token anywhere in the text changes nothing |
| UnrealStat.BadNumberReadsZero | unrealstat.go:88-89 | a mode that is a syntax error (a stray character reached before any digit overflows 16 bits) is read as 0; the error is dropped and never reported |
| UnrealStat.OverflowingModeClamps | unrealstat.go:88-89 | an unsigned mode with a digit prefix past 16 bits is read as 32767, whatever follows that prefix |
| UnrealStat.OverflowBeforeBadDigit | unrealstat.go:88-89 | `mode=1777777x` reads as 32767, not 0: the overflow comes before the stray letter |
| UnrealStat.SerializeOneLine | unrealstat.go:22-33 | the text form is one non-empty line that does not start with `-`, so it cannot run into the separator after it |
| UnrealStat.StatsEqual | unrealstat.go:35-65 | equal stats agree on isDir and isLink, and on the low nine mode bits unless the old one is a symlink; they agree on size unless the old one is a directory, and on mtime for a regular file when hashing is off; stats with the same shipped fields are equal |
| UnrealStat.HashEqual | unrealstat.go:67-73 | with hash checking off it is always false |
| UnrealStat.StatsEqualReflexive | unrealstat.go:35-65 | every stat is StatsEqual to itself |
| UnrealStat.StatsEqualModeBits | unrealstat.go:48-51 | only the low nine mode bits take part in the comparison |
| UnrealStat.StatsEqualRegularFile | unrealstat.go:59-62 | for regular files with equal mode bits and size and hashing off, StatsEqual holds iff the mtimes agree |
| UnrealStat.StatsEqualDirIgnoresSizeAndTime | unrealstat.go:53-62 | against a directory, size and mtime do not matter |
| UnrealStat.StatsEqualLinkIgnoresModeAndTime | unrealstat.go:46-62 | against a symlink, mode and mtime do not matter |
| UnrealStat.FromFileInfo | unrealstat.go:101-111 | the stat of a file-info keeps its path, dir and symlink flags, mtime and size, takes mode bits 0..511, and has no hash |
| Diff.CommitDiff | changes.go:37-48 | an empty buffer writes nothing; a non-empty one becomes exactly one DIFF record holding it, and the buffer restarts empty |
| Diff.Payload | changes.go:149-183 | the contents are obtained iff the source can be read and gives the announced size (exactly for a link, at least for a file); they are then the first `size` bytes |
| Diff.Entry | changes.go:130-137 | an entry is its `D`/`A` header followed by exactly the announced number of content bytes, and by none for a directory or a deletion |
| Diff.EntryAppendedWhole | changes.go:144-147 | a small readable entry is appended whole; when it would reach `maxDiffSize-1`, the buffer is first flushed as a DIFF record and the entry starts the new one |
| Diff.AddToDiff | changes.go:126-193 | records are only ever appended; an entry above half a record leaves the buffer alone (big-file path), so its records reach the out-log ahead of small entries still waiting in the buffer, as in Go; the buffer never exceeds `maxDiffSize` |
| Diff.Chunks | changes.go:75-117 | every chunk is non-empty and at most a chunk's capacity; the chunks are a prefix of the file; a committed run covers exactly the announced size; an unchanged file holding exactly that size is committed |
| Diff.BigRecordsFit | changes.go:72-119 | a big file is sent as BIGINIT with the name, BIGRCV records each within half a record, and BIGCOMMIT or BIGABORT last |
| Diff.BigFileComplete | changes.go:72-119 | a file that is unchanged and holds its announced size is sent whole: the chunks flatten back to its contents and the run ends with BIGCOMMIT |
| Diff.BigFileShortAborts | changes.go:106-110 | a file holding fewer bytes than announced is never committed |
| Diff.BigFileChangedAborts | changes.go:92-96 | a file found changed at the first re-stat sends only BIGINIT and BIGABORT |
| Diff.UnreadableSkipped | changes.go:149-184 | an entry whose contents cannot be read, or read short, is dropped: the buffer is left as it was, apart from a flush an overflow triggers |
| OutLog.EncodeRecord | log.go:61 | a record starts with its action and is at least action, ten and payload long |
| OutLog.RecordLength | log.go:61 | with a ten-character action and a length that fits, a record is exactly 20 bytes longer than its payload |
| OutLog.ReadFull | log.go:239-284 | io.ReadFull yields all `n` bytes iff there are that many, no bytes iff the input is empty, and otherwise a partial read |
| OutLog.ReadLogEntry | log.go:239-284 | reads end at EOF on an empty log or a lone action, and fail on a short action or length field; a read record is the action, the ten-character field, and a payload whose length the field states |
| OutLog.ReadWritten | log.go:57-79 | readLogEntry recovers exactly the action and payload writeToOutLog wrote, with `bufLen = 20 + len` |
| OutLog.EmptyRecordIsTwentyBytes | log.go:268-272 | a record with no payload (PING) reads back as exactly 20 bytes |
| OutLog.BadLengthFails | log.go:257-260 | a length field that Atoi rejects gives an error, not a record |
| OutLog.WriteAllAppend | log.go:57-79 | logs written one after another read as one log |
| OutLog.ReplayInOrder | log.go:239-284 | reading a log back yields every record written, in order |
| OutLog.InitialValid | log.go:49-55 | the log starts empty and with no readers |
| OutLog.Write | log.go:57-96 | the position resets to 0 exactly when it passes logMaxSize and every reader's oldSize is 0, and then every reader's oldSize becomes the size written; otherwise the position grows by the record's length and readers are untouched |
| OutLog.RotationNeedsCaughtUpReaders | log.go:68-77 | a reader still on an older file blocks rotation and keeps its oldSize |
| OutLog.WriteValid | log.go:81-96 | every write, rotating or not, keeps every reader's position within the file it reads |
| OutLog.WriteGrowsPending | log.go:207-216 | a write adds exactly the record's size to every reader's pending queue, including when it rotates |
| OutLog.OpenForRead | log.go:99-128 | opening sets readPos to the writer's position (continuation) or 0, and always resets oldSize to 0; every other server's readPos and oldSize are unchanged |
| OutLog.OpenForReadValid | log.go:117-126 | opening keeps the log state valid; a continuing reader has nothing pending and a fresh one has the whole file pending; every other server's queue is unchanged |
| OutLog.AdvanceShrinksPending | log.go:207-216 | a reader consuming `n` bytes reduces its own pending size by `n` and no one else's |
| OutLog.Advance | log.go:192-194 | after a delivered record the sender's position moves on by the record's size, whether or not the sender is still in oldSize; the writer and the old sizes are untouched |
| OutLog.Drop | log.go:217-220 | a server whose client cannot be told its queue size is forgotten; every other server keeps its old-file size, and read positions and the write position stay |
| OutLog.DropValid | log.go:217-220 | forgetting a server keeps the log state valid and leaves every other server's queue unchanged |
| OutLog.PendingBounds | log.go:207-216 | in a valid state the queue is never negative, and it is zero iff the reader idles or stands at the end of its old file while the new one is still empty |
| OutLog.Status | log.go:207-216 | for a host in oldSize (the only hosts the loop visits), it is listed in the status line iff it is on an old file or behind the writer, and its entry starts with its name |
| Server.ParseChunk | server.go:45-74 | a `D` chunk names everything after byte 2; an `A` chunk's name runs from byte 2 to the first newline; any other op is an error; an add carries exactly `size` content bytes |
| Server.ParseDiff | server.go:35-42 | parsing stops quietly when at most one byte is left or no separator remains; every operation is consistent with its stat |
| Server.ParseEntry | server.go:26-97 | an encoded entry parses back as the expected operation, then parsing carries on after its contents |
| Server.ApplyRoundTrip | server.go:26-97 | parsing a diff buffer of encoded entries gives back exactly the entries' operations, files, stat fields and contents, for names without a newline, even when contents contain the separator |
| Server.HeaderSplit | changes.go:130-133 | each header is its text followed by the separator, and the text cannot start a separator |
| Server.ReadResponse | server.go:99-125 | a read payload has the length that the trimmed ten-character field states, and at most `maxDiffSize` |
| Server.ReadResponseRoundTrip | server.go:99-125 | readResponse recovers exactly a payload framed as the out-log frames it |
| Server.BigHeader | server.go:194-233 | a BIGRCV / BIGCOMMIT payload splits into a ten-digit 32-bit length, a name of that length, and the rest |
| Server.BigHeaderRoundTrip | changes.go:79-83 | the header the client builds (`%010d`, then the name) is recovered exactly |
| Server.InitRestarts | server.go:184-250 | after BIGINIT, whatever the name held before, a chunk and a commit install exactly that chunk |
| Server.ProcessBigRcv | server.go:194-214 | a chunk is appended to its transfer iff the header parses and names an open transfer; otherwise the server stops with nothing changed |
| Server.ProcessBigCommit | server.go:216-250 | a commit installs the transfer's data with the sent stat iff it names an open transfer, and closes it |
| Server.ProcessBigAbort | server.go:252-261 | an abort closes a known transfer; an unknown name stops the server |
| Server.Dispatch | server.go:159-174 | unknown actions, PONG and STOPSERVER change nothing; no handler removes earlier effects |
| Server.ServeRecord | server.go:145-175 | one record at the head of the stream goes to its handler, and the loop resumes after it |
| Server.PingAnswered | server.go:159-160 | a PING record is answered with exactly the ten-byte PONG and the loop reads on, nothing else changing |
| Server.DiffDelivered | server.go:161-162 | a DIFF record of encoded entries makes the server apply exactly their operations, in order, and read on |
| Server.ChunksDelivered | server.go:194-214 | a run of BIGRCV records appends the chunks, in order, to the open transfer |
| Server.BigDelivered | server.go:163-170 | a complete big-file run installs exactly the file's contents with its stat and leaves the transfer closed |
| Server.MustRemoveFirst | server.go:271-282 | an existing entry is removed first iff it is a symlink or its dir-ness differs from the incoming one |
| Server.MustRemove | server.go:271-282 | the corrected rule also removes an entry that an incoming symlink would replace |
| Server.LinkOverFileKept | server.go:271-282 | as written, an incoming symlink over a regular file removes nothing, so the path keeps holding the file |
| Server.WrittenKind | server.go:268-301 | with the corrected rule the path always ends up holding the kind of entry that was sent |
| Repository.NewRepository | repository.go:10-15 | a new repository knows no directory and keeps the excludes |
| Repository.AddDir | repository.go:22-24 | AddDir makes the directory known with no entries, replacing what it held, and changes no other directory |
| Repository.GetDirStat | repository.go:26-33 | nothing for an unknown directory, the stored entries otherwise |
| Repository.SetDirStat | repository.go:35-37 | only the addressed directory changes |
| Repository.AddFileToDir | repository.go:39-41 | only the addressed entry of a known directory changes |
| Repository.RepoDirExcluded | repository.go:43-46 | every path under `.unrealsync` is excluded |
| Repository.ExcludedExtends | repository.go:43-52 | a path extending an excluded path is excluded |
| Repository.SingleExclude | repository.go:47-52 | an exclude filters exactly the paths it is a string prefix of |
| Repository.PrefixNotComponent | repository.go:47-52 | `foo` excludes `foobar`: prefixes are strings, not path components |
| Sync.Locate | changes.go:221-241 | a failed Rel of an absolute path drops it; otherwise, on the relative path, a directory stays, a missing path or non-directory stands for its parent, and a failed Lstat drops the path |
| Sync.GetPathToSync | changes.go:221-258 | the path is kept iff it locates and the result is not under `.unrealsync` or an exclude |
| Sync.WatchedPath | client.go:531-556 | readWatcher keeps a located path iff it does not start with `.unrealsync` |
| Sync.RevisionsAgree | client.go:531-556 | without excludes, readWatcher and getPathToSync accept the same paths and map them to the same directory |
| Sync.Aggregate | changes.go:195-219 | every batch a tick hands over is non-empty, and a final tick leaves nothing pending |
| Sync.AggregateComplete | changes.go:195-219 | nothing is lost or invented: the batches plus what is pending are exactly the accepted directories |
| Sync.DirKeySpellings | changes.go:261-263 | the current client records `./d` and `d` under one key, `d`; the older client keeps them apart |
| Sync.Gone | changes.go:294-306 | the deleted entries are exactly the recorded names no longer listed |
| Sync.Kept | changes.go:294-306 | the record keeps exactly the recorded names still listed, with their stats |
| Sync.SyncNode | changes.go:260-345 | output is only appended and is empty without sendChanges; `.unrealsync` and non-directories are left alone; the record becomes the kept entries reconciled with the listing; deletions are handed over before anything else |
| Sync.Entries | changes.go:308-340 | the walk's entries are the reconciliation of the listing; a listing already settled changes nothing |
| Sync.SyncDir | changes.go:268-272 | a directory that cannot be opened is left alone |
| Sync.ReconciledKeys | changes.go:287-342 | after reconciliation the record holds the kept entries plus the listed names |
| Sync.ReconciledValues | changes.go:319-329 | each listed entry ends up recorded with its current stat, or with a record StatsEqual to it |
| Sync.ReconciledSettled | changes.go:319-329 | after reconciliation every listed entry is StatsEqual to its record |
| Sync.SyncedKeys | changes.go:294-342 | after a sync the directory's record holds exactly its listing |
| Sync.SyncIdempotent | changes.go:260-345 | syncing a directory again with nothing changed changes nothing and hands nothing over |
| Sync.SettledQuiet | changes.go:319-338 | a directory whose record matches its listing syncs with no effect |
| Sync.FlatEntries | changes.go:319-338 | without subdirectories the walk hands over exactly the entries that are new or not StatsEqual, in listing order |
| Sync.FlatSync | changes.go:294-338 | a directory without subdirectories hands over its deletions first, then exactly the re-recorded entries |
| Sync.Flush | changes.go:206-216 | a tick with nothing collected does nothing; otherwise it hands over at least a commit, and the commit comes last |
| Sync.TickQuiet | changes.go:206-216 | a tick over directories unchanged since their last sync keeps the repository and hands over only the commit |
| Sync.TickSingle | changes.go:206-216 | after a tick on one directory its record holds exactly its listing, each entry StatsEqual to its record |
| List.SplitCount | list/list.go:173-193 | splitting on a character gives one more part than it occurs |
| List.ComputeOffsets | list/list.go:62-78 | no `{` means no block; a missing `}`, or fewer than one character between the first `{` and `}`, is an error |
| List.ParseInterval | list/list.go:128-171 | an interval needs digits directly before and after `..`; the pieces reassemble the pattern |
| List.Range | list/list.go:114-122 | the range from lo to hi ascends by one and has hi - lo + 1 elements |
| List.IntervalExpansion | list/list.go:96-126 | `n..m` expands to every integer from min(n,m) to max(n,m), ascending, comma-separated |
| List.IntervalsToCommas | list/list.go:80-94 | on success no `..` remains and no brace is added; without `..` the text is unchanged |
| List.ExpandCommas | list/list.go:173-193 | an empty element is an error; otherwise each element is wrapped in before/after, in order, one per comma plus one |
| List.EmptyElement | list/list.go:180-190 | an empty element is exactly a leading, trailing or double comma, or empty input |
| List.Expand | list/list.go:26-60 | on success the expansion is non-empty and no result holds a `{` |
| List.ExpandPlain | list/list.go:33-36 | a pattern without `{` is simply split on commas |
| List.ExpandTwoNames | list/list.go:33-36 | `a,b` expands to `a` and `b` |
| List.Glob | list/list.go:12-23 | Glob is an error iff expansion is, and otherwise true iff some expansion matches |
| Config.ParseExcludes | settings.go:68-76 | every `\|`-separated piece becomes an exclude |
| Config.ParseServerSettings | settings.go:25-66 | a non-numeric port is fatal and an empty one is 0; a server exclude replaces the global ones; the host defaults to the section name; compression is on unless `false` |
| Config.PortRoundTrip | settings.go:32-37 | a port written as a number is read back |
| Config.Merge | settings.go:116-120 | general keys fill in exactly the server keys that are empty |
| Config.NameServers | settings.go:121-142 | the inner loop succeeds iff every expanded name's glob and settings succeed; its servers are exactly the selected names, each with the settings built for it |
| Config.Sections | settings.go:103-143 | the outer loop serves exactly the names some section serves, and each with the last section serving it |
| Config.ParseConfigOk | settings.go:78-145 | with a general section, parseConfig succeeds iff every section's expansion, glob and settings succeed |
| Config.SectionServers | settings.go:103-142 | the empty-name section and disabled sections give no server; otherwise each selected expansion of the name gives one |
| Config.SectionsOk | settings.go:103-143 | the loop succeeds iff every section's expansion and glob succeed |
| Config.ParseConfig | settings.go:78-145 | no general section is fatal; the servers are those the sections serve, the last section winning a name |
| Config.ConfigServes | settings.go:96-142 | a name is served iff its section is enabled, it is an expansion of the section's name, and it matches the `-servers` flag or the general `servers` key |
| Config.GeneralExcludes | settings.go:91-94 | the global excludes come from the general `exclude` key, none when it is empty |
| Utils.FormatLengthBytes | utils.go:114-122 | below 1024 the length reads back as `N B` |
| Utils.FormatLengthKiB | utils.go:114-122 | below 1048576 it reads back as `N/1024 KiB` |
| Utils.FormatLengthMiB | utils.go:114-122 | otherwise it reads back as `N/1048576 MiB` |
| Utils.ParseParts | utils.go:146-157 | the parse succeeds iff every part is a number, and then it holds those numbers |
| Utils.VersionToIntArray | utils.go:146-157 | on success there is one integer per dot-separated part |
| Utils.VersionRoundTrip | utils.go:146-157 | a version written as dotted numbers parses back to them |
| Utils.CompatibleSymmetric | utils.go:131-144 | compatibility is symmetric |
| Utils.CompatibleTransitive | utils.go:131-144 | compatibility is transitive |
| Utils.CompatibleNumbers | utils.go:131-144 | two dotted versions of at least two parts are compatible iff their first two numbers agree |
| Utils.SshOptions | utils.go:53-76 | every option follows a `-o`, and the list starts with ConnectTimeout, LogLevel, ServerAliveInterval and ServerAliveCountMax |
| Utils.OptionForms | utils.go:53-76 | every other option is one of the fixed ones, a Port for a positive port, a User for a non-empty user, or BatchMode / Compression when set |
| Utils.WithFlagsMembers | utils.go:53-76 | the option list holds exactly the option values, each behind a `-o` |
| Utils.OptionMembers | utils.go:53-76 | the values start with the four fixed keep-alive options, always hold the host-key options, and hold BatchMode, Compression, Port and User exactly when the settings ask for them |
| Utils.ProgressPadding | utils.go:13-17 | the prefix is padded to 15 characters, with at least one blank |
| Cli.CollectInOrder | unrealsync.go:53-56 | repeating `-exclude` keeps every value, in command-line order |
| Cli.GlobalExcludes | unrealsync.go:189-195 | without `-exclude` there are no excludes; otherwise they are the given values plus `.unrealsync` |
| Cli.HostArgShape | unrealsync.go:197-212 | an argument is accepted iff it holds exactly one `:`; sudo user, remote binary path and excludes are copied in |
| Cli.UserHostRoundTrip | unrealsync.go:202-204 | `user@host:dir` reads back as that user, host and directory |
| Cli.HostRoundTrip | unrealsync.go:205-206 | `host:dir` reads back with an empty user |
| Cli.ServersOk | unrealsync.go:196-220 | the loop succeeds iff every argument is well formed |
| Cli.ServersKeys | unrealsync.go:219 | the servers are keyed by exactly the hosts named |
| Cli.ServersLastWins | unrealsync.go:219 | each host maps to the last argument naming it |
| Cli.HostArgsServers | unrealsync.go:189-220 | the whole loop succeeds iff every argument has one `:`, and then each host maps to its last argument |

## Left out

- I/O, processes, goroutines, channels and mutexes are not modelled. This covers ssh/rsync launching, `doSendChanges`, the ping/timeout threads and the `printStatusThread` loop (only its queue-size formula is). Files, Readdir and Lstat become a filesystem snapshot (`Sync.Node`) or parameters.
- The HTTP status page, logging and progress printing are not modelled, apart from `_progress`'s padding width.
- MD5 hashing is not computed: `hashEqual` sees an opaque `HashMode` that either disables the check or supplies the new hash.
- The goini loader and go-glob matching are foreign libraries. The parsed ini dictionary is an input, and glob matching is a `List.Matcher` parameter.
- `filepath.Rel` is a parameter. `Sync.DirOf` is `filepath.Dir` for clean paths only.
- `unicode.IsNumber` in list/list.go is treated as an ASCII digit test.
- List.Range, List.Listing: list/list.go:119 counts with a 64-bit `int`, so `i++` wraps and the loop never ends when the upper bound is 9223372036854775807. The model's integers are unbounded and these functions terminate on that input.
- Base.TrimSpace: `IsSpace` is ASCII whitespace only. Go's strings.TrimSpace also trims Unicode spaces such as U+0085 and U+00A0. This matters where readLogEntry, readResponse and parseConfig trim text.
- Go map iteration order is an explicit `order` parameter or a set, as described above. `Sync.Emit.Deletions` is the set of one directory's deletions because Go emits them in map order.
- Sync.SyncNode:
  - the filesystem is a static snapshot, so syncDir's deletion test (Lstat of each recorded name) is "not in the listing";
  - an Lstat error other than "does not exist" in that loop is fatal in Go and is not modelled;
  - its output is the list of entries handed to addToDiff, not the diff bytes themselves;
  - the `Diff` members model addToDiff on one entry at a time.
- changes.go calls `StatsEqual` and `UnrealStatFromStat` with an older signature (a file-info and no path). The model uses the entry's path and FileInfo (`Sync.EntryStat`).
- commitBigFile's own write of the file's stat into the repository is left out. It repeats the write syncDir makes for the same entry.
- applyDiff's local `dirs` map is left out: it is written but never read.
- The client's and the server's real filesystem writes (`writeFile`, rename, chmod, chtimes) are left out. The server's effects are a list, and `Server.WriteOutcome` gives only the kind of entry a path ends up holding.
- Diff.AddToDiff: requires that a big entry's name leave room for contents in a chunk (`ChunkCap >= 1`). With a longer name Go would slice past its buffer or never progress.
- Diff.Chunks, Diff.Payload: a single `fp.Read` (changes.go:98 and changes.go:171-172) is modelled as returning as many bytes as are available, up to the chunk's capacity in Chunks and up to the announced length in Payload. A short read from a file that holds more is not modelled. In Chunks the re-stat that detects a change is a parameter (`changedAt`), not a comparison of stats.
- Server.ParseChunk: an empty chunk is an error rather than Go's index panic. Both stop applyDiff.
- OutLog.Write: lengths of 10^10 or more, which overflow the `%10d` field, are not excluded. The round-trip lemmas require the payload to fit `maxDiffSize` instead.
- `Config.Settings` keeps `sudoUser`, `remoteBinPath` and `batchMode`, which utils.go and unrealsync.go read. settings.go never sets them, so parsed servers carry zero values for them.
- client.go's revisions of `commitDiff`, `addToDiff` and `commitBigFile` match changes.go apart from logging, so the `Diff` members model both.

## Findings

| source | as written | input that shows it | evidently intended | confidence | as-written member | corrected member |
|---|---|---|---|---|---|---|
| server.go:271-282 | an existing entry is removed first only when its dir-ness differs or it is a symlink, so an incoming symlink over an existing regular file is not removed, os.Symlink then fails, and the old file stays | an existing regular file at the path, and an incoming stat with isLink set and isDir unset | remove the existing entry whenever a symlink is to be created there, so that the path ends up holding the link | not executed | Server.MustRemoveFirst, Server.LinkOverFileKept | Server.MustRemove, Server.WrittenKind |
