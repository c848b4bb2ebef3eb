/** How the client finds what changed (changes.go, and its twin client.go):
    a watcher reports paths, they are reduced to the directories to look
    at, those are collected until the next tick, and each is reconciled
    against the repository's record of it. The filesystem is a snapshot: a
    tree of entries, each as Lstat and Readdir report it. */
module Sync {
  import opened Base
  import opened Consts
  import opened UnrealStat
  import opened Repository

  /* ---------- the filesystem snapshot ---------- */

  /** An entry and, for a directory, what Readdir lists in it, in order. */
  datatype Node = Node(info: FileInfo, children: seq<Node>)

  /** The outcome of os.Lstat: the entry, "does not exist", or another
      error. */
  datatype Lstat = Exists(info: FileInfo) | Missing | Failed

  /** Which revision of the client: changes.go (current) or client.go. */
  datatype Rev = Current | Older

  /* ---------- locating the directory to sync ---------- */

  predicate IsAbs(path: string) {
    |path| > 0 && path[0] == '/'
  }

  /** filepath.Dir of a clean path: everything before the last `/`, `.`
      when there is none, `/` when it is the first character. */
  function DirOf(path: string): (r: string)
    ensures '/' !in path ==> r == "."
    ensures '/' in path && path[0] != '/' ==> HasPrefix(path, r + "/") && |r| < |path|
  {
    var i := LastIndexOfChar(path, '/');
    if i < 0 then "."
    else if i == 0 then "/"
    else path[..i]
  }

  /** The common part of getPathToSync and readWatcher: an absolute path
      is made relative to the synced directory (`rel`, filepath.Rel), and
      a path that is missing or is not a directory stands for its parent. A
      failed Lstat drops the path. */
  function Locate(path: string, rel: string -> Result<string>, lstat: string -> Lstat): (r: Result<string>)
    ensures IsAbs(path) && rel(path).Err? ==> r.Err?
    ensures !IsAbs(path) || rel(path).Ok? ==>
      var p := if IsAbs(path) then rel(path).value else path;
      (lstat(p).Exists? && lstat(p).info.IsDir() ==> r == Ok(p))
      && (lstat(p).Missing? || (lstat(p).Exists? && !lstat(p).info.IsDir()) ==> r == Ok(DirOf(p)))
      && (lstat(p).Failed? ==> r.Err?)
  {
    var p := if IsAbs(path) then rel(path) else Ok(path);
    if p.Err? then Err(p.msg)
    else
      match lstat(p.value)
      case Failed => Err("stat failed")
      case Missing => Ok(DirOf(p.value))
      case Exists(info) => Ok(if info.IsDir() then p.value else DirOf(p.value))
  }

  /** Go's getPathToSync (changes.go): the located directory, unless it
      falls under the repository's directory or an exclude. */
  function GetPathToSync(path: string, excludes: map<string, bool>, rel: string -> Result<string>, lstat: string -> Lstat): (r: Result<string>)
    ensures r.Ok? ==> !PathIsGlobalExcluded(r.value, excludes)
    ensures r.Ok? <==> Locate(path, rel, lstat).Ok? && !PathIsGlobalExcluded(Locate(path, rel, lstat).value, excludes)
    ensures r.Ok? ==> r.value == Locate(path, rel, lstat).value
  {
    match Locate(path, rel, lstat)
    case Err(msg) => Err(msg)
    case Ok(p) => if PathIsGlobalExcluded(p, excludes) then Err("Excluded folder change") else Ok(p)
  }

  /** The path filter of readWatcher (client.go): the located directory,
      unless it starts with the repository's directory. */
  function WatchedPath(line: string, rel: string -> Result<string>, lstat: string -> Lstat): (r: Option<string>)
    ensures r.Some? ==> !HasPrefix(r.value, RepoDir)
    ensures r.Some? <==> Locate(line, rel, lstat).Ok? && !HasPrefix(Locate(line, rel, lstat).value, RepoDir)
  {
    match Locate(line, rel, lstat)
    case Err(_) => None
    case Ok(p) => if HasPrefix(p, RepoDir) then None else Some(p)
  }

  /** Without excludes the two revisions accept the same paths and map
      them to the same directories. */
  lemma RevisionsAgree(path: string, rel: string -> Result<string>, lstat: string -> Lstat)
    ensures GetPathToSync(path, map[], rel, lstat).Ok? <==> WatchedPath(path, rel, lstat).Some?
    ensures GetPathToSync(path, map[], rel, lstat).Ok? ==> GetPathToSync(path, map[], rel, lstat).value == WatchedPath(path, rel, lstat).value
  {
    var l := Locate(path, rel, lstat);
    if l.Ok? {
      assert PathIsGlobalExcluded(l.value, map[]) <==> HasPrefix(l.value, RepoDir);
    }
  }

  /* ---------- collecting directories between ticks ---------- */

  /** What reaches aggregateDirs: a path from the watcher, or a tick. */
  datatype Event = Notify(path: string) | Tick

  /** aggregateDirs: accepted directories are gathered in a set; a tick
      with a non-empty set hands the whole set over to be synced (each
      directory once) and empties it, a tick with an empty set does
      nothing. `accept` is the path filter of the revision. Yields the sets
      handed over, in order, and what is still pending. */
  function Aggregate(events: seq<Event>, pending: set<string>, accept: string -> Option<string>): (r: (seq<set<string>>, set<string>))
    ensures forall k :: 0 <= k < |r.0| ==> r.0[k] != {}
    ensures |events| > 0 && events[|events| - 1].Tick? ==> r.1 == {}
    decreases |events|
  {
    if |events| == 0 then ([], pending)
    else
      match events[0]
      case Notify(path) =>
        var a := accept(path);
        Aggregate(events[1..], if a.Some? then pending + {a.value} else pending, accept)
      case Tick =>
        if pending == {} then Aggregate(events[1..], pending, accept)
        else
          var rest := Aggregate(events[1..], {}, accept);
          ([pending] + rest.0, rest.1)
  }

  /** The directories accepted from a run of events. */
  function Accepted(events: seq<Event>, accept: string -> Option<string>): (r: set<string>)
    decreases |events|
  {
    if |events| == 0 then {}
    else
      var a := if events[0].Notify? then accept(events[0].path) else None;
      (if a.Some? then {a.value} else {}) + Accepted(events[1..], accept)
  }

  function UnionAll(batches: seq<set<string>>): set<string>
    decreases |batches|
  {
    if |batches| == 0 then {} else batches[0] + UnionAll(batches[1..])
  }

  /** Nothing is lost and nothing is invented: the sets handed over and
      what is still pending hold exactly the directories pending at the
      start and those accepted since. */
  lemma {:induction false} AggregateComplete(events: seq<Event>, pending: set<string>, accept: string -> Option<string>)
    ensures var r := Aggregate(events, pending, accept);
      UnionAll(r.0) + r.1 == pending + Accepted(events, accept)
    decreases |events|
  {
    if |events| > 0 {
      match events[0]
      case Notify(path) =>
        var a := accept(path);
        AggregateComplete(events[1..], if a.Some? then pending + {a.value} else pending, accept);
      case Tick =>
        if pending == {} {
          AggregateComplete(events[1..], pending, accept);
        } else {
          AggregateComplete(events[1..], {}, accept);
        }
    }
  }

  /* ---------- reconciling one directory ---------- */

  /** Names of the entries of a listing. */
  function Names(listing: seq<Node>): set<string> {
    set i | 0 <= i < |listing| :: listing[i].info.name
  }

  predicate UniqueNames(listing: seq<Node>) {
    forall i, j :: 0 <= i < j < |listing| ==> listing[i].info.name != listing[j].info.name
  }

  /** The path of an entry of directory `dir`, as syncDir writes it. */
  function PathIn(dir: string, name: string): string {
    dir + "/" + name
  }

  /** The stat the client records for an entry of `dir`. */
  function EntryStat(dir: string, n: Node): (r: Stat)
    ensures r.name == PathIn(dir, n.info.name) && r.isDir == n.info.IsDir()
  {
    FromFileInfo(PathIn(dir, n.info.name), n.info)
  }

  /** An entry is recorded again when it is new or its stat is not
      StatsEqual to the recorded one. */
  predicate Rerecord(entries: DirStat, name: string, stat: Stat, hm: HashMode) {
    name !in entries || !StatsEqual(stat, entries[name], hm)
  }

  /** The entries a directory is left with after its listing is walked,
      starting from `entries`. */
  function Reconciled(entries: DirStat, dir: string, listing: seq<Node>, hm: HashMode): (r: DirStat)
    decreases |listing|
  {
    if |listing| == 0 then entries
    else
      var n := listing[0];
      var stat := EntryStat(dir, n);
      Reconciled(if Rerecord(entries, n.info.name, stat, hm) then entries[n.info.name := stat] else entries,
        dir, listing[1..], hm)
  }

  /** The records of entries that were recorded again, in listing order. */
  function Rerecorded(entries: DirStat, dir: string, listing: seq<Node>, hm: HashMode): (r: seq<Emit>)
    ensures forall k :: 0 <= k < |r| ==> r[k].Record?
    decreases |listing|
  {
    if |listing| == 0 then []
    else
      var n := listing[0];
      var stat := EntryStat(dir, n);
      if Rerecord(entries, n.info.name, stat, hm)
      then [Record(PathIn(dir, n.info.name), stat)] + Rerecorded(entries[n.info.name := stat], dir, listing[1..], hm)
      else Rerecorded(entries, dir, listing[1..], hm)
  }

  /** Walking a listing keeps the entries it does not name. */
  lemma {:induction false} ReconciledFrame(entries: DirStat, dir: string, listing: seq<Node>, hm: HashMode, k: string)
    requires k !in Names(listing)
    ensures k in Reconciled(entries, dir, listing, hm) <==> k in entries
    ensures k in entries ==> Reconciled(entries, dir, listing, hm)[k] == entries[k]
    decreases |listing|
  {
    if |listing| > 0 {
      var n := listing[0];
      var stat := EntryStat(dir, n);
      assert k != n.info.name by {
        assert n.info.name in Names(listing);
      }
      assert k !in Names(listing[1..]) by {
        forall i | 0 <= i < |listing[1..]|
          ensures listing[1..][i].info.name != k
        {
          assert listing[1..][i] == listing[i + 1];
        }
      }
      ReconciledFrame(if Rerecord(entries, n.info.name, stat, hm) then entries[n.info.name := stat] else entries,
        dir, listing[1..], hm, k);
    }
  }

  /** After the walk the directory holds the entries it held and every
      listed name. */
  lemma {:induction false} ReconciledKeys(entries: DirStat, dir: string, listing: seq<Node>, hm: HashMode)
    ensures Reconciled(entries, dir, listing, hm).Keys == entries.Keys + Names(listing)
    decreases |listing|
  {
    if |listing| > 0 {
      var n := listing[0];
      var stat := EntryStat(dir, n);
      var next := if Rerecord(entries, n.info.name, stat, hm) then entries[n.info.name := stat] else entries;
      ReconciledKeys(next, dir, listing[1..], hm);
      assert Names(listing) == {n.info.name} + Names(listing[1..]) by {
        forall x | x in Names(listing) ensures x in {n.info.name} + Names(listing[1..]) {
          var i :| 0 <= i < |listing| && listing[i].info.name == x;
          if i > 0 {
            assert listing[1..][i - 1] == listing[i];
          }
        }
        forall x | x in Names(listing[1..]) ensures x in Names(listing) {
          var i :| 0 <= i < |listing[1..]| && listing[1..][i].info.name == x;
          assert listing[i + 1] == listing[1..][i];
        }
      }
    }
  }

  /** With distinct names, each listed entry ends up with its new stat when
      it was recorded again and keeps the recorded one otherwise. */
  lemma {:induction false} ReconciledValues(entries: DirStat, dir: string, listing: seq<Node>, hm: HashMode, i: nat)
    requires UniqueNames(listing) && i < |listing|
    ensures var n := listing[i];
      var stat := EntryStat(dir, n);
      var r := Reconciled(entries, dir, listing, hm);
      n.info.name in r
      && r[n.info.name] == (if Rerecord(entries, n.info.name, stat, hm) then stat else entries[n.info.name])
    decreases |listing|
  {
    var n := listing[0];
    var stat := EntryStat(dir, n);
    var next := if Rerecord(entries, n.info.name, stat, hm) then entries[n.info.name := stat] else entries;
    var tail := listing[1..];
    if i == 0 {
      assert n.info.name !in Names(tail) by {
        forall j | 0 <= j < |tail| ensures tail[j].info.name != n.info.name {
          assert tail[j] == listing[j + 1];
        }
      }
      ReconciledFrame(next, dir, tail, hm, n.info.name);
    } else {
      assert UniqueNames(tail) by {
        forall a, b | 0 <= a < b < |tail| ensures tail[a].info.name != tail[b].info.name {
          assert tail[a] == listing[a + 1] && tail[b] == listing[b + 1];
        }
      }
      assert tail[i - 1] == listing[i];
      ReconciledValues(next, dir, tail, hm, i - 1);
      assert listing[i].info.name != n.info.name;
    }
  }

  /** Every entry of a walked directory is StatsEqual to its listing. */
  predicate Settled(entries: DirStat, dir: string, listing: seq<Node>, hm: HashMode) {
    forall i :: 0 <= i < |listing| ==> !Rerecord(entries, listing[i].info.name, EntryStat(dir, listing[i]), hm)
  }

  /** A walked directory is settled: walking the same listing again
      records nothing. */
  lemma ReconciledSettled(entries: DirStat, dir: string, listing: seq<Node>, hm: HashMode)
    requires UniqueNames(listing)
    ensures Settled(Reconciled(entries, dir, listing, hm), dir, listing, hm)
  {
    forall i | 0 <= i < |listing|
      ensures !Rerecord(Reconciled(entries, dir, listing, hm), listing[i].info.name, EntryStat(dir, listing[i]), hm)
    {
      ReconciledValues(entries, dir, listing, hm, i);
      StatsEqualReflexive(EntryStat(dir, listing[i]), hm);
    }
  }

  lemma SettledTail(entries: DirStat, dir: string, listing: seq<Node>, hm: HashMode)
    requires |listing| > 0
    ensures Settled(entries, dir, listing, hm) ==> Settled(entries, dir, listing[1..], hm)
  {
    if Settled(entries, dir, listing, hm) {
      forall i | 0 <= i < |listing[1..]|
        ensures !Rerecord(entries, listing[1..][i].info.name, EntryStat(dir, listing[1..][i]), hm)
      {
        assert listing[1..][i] == listing[i + 1];
      }
    }
  }

  /** Walking a settled directory changes and records nothing. */
  lemma {:induction false} SettledUnchanged(entries: DirStat, dir: string, listing: seq<Node>, hm: HashMode)
    requires Settled(entries, dir, listing, hm)
    ensures Reconciled(entries, dir, listing, hm) == entries
    ensures Rerecorded(entries, dir, listing, hm) == []
    decreases |listing|
  {
    if |listing| > 0 {
      SettledTail(entries, dir, listing, hm);
      SettledUnchanged(entries, dir, listing[1..], hm);
    }
  }

  /* ---------- syncDir ---------- */

  /** What syncDir hands over: the deletions of one directory (a set, as
      Go walks them in map order), one entry recorded again with its stat,
      or the commitDiff that ends a tick. */
  datatype Emit = Deletions(files: set<string>) | Record(file: string, stat: Stat) | Commit

  /** The repository's entries and what has been handed over so far. */
  datatype SyncState = SyncState(repo: map<string, DirStat>, out: seq<Emit>)

  /** The key under which a revision records a directory: changes.go
      strips a leading `./`, client.go does not. */
  function DirKey(rev: Rev, dir: string): (r: string)
  {
    if rev.Current? && HasPrefix(dir, "./") then dir[2..] else dir
  }

  /** The current client records `./d` and `d` under one key, `d`; the
      older client keeps the two spellings apart. */
  lemma DirKeySpellings(d: string)
    requires !HasPrefix(d, "./")
    ensures DirKey(Current, "./" + d) == DirKey(Current, d) == d
    ensures DirKey(Older, "./" + d) != DirKey(Older, d)
  {
    assert HasPrefix("./" + d, "./");
    assert ("./" + d)[2..] == d;
    assert |"./" + d| != |d|;
  }

  /** The directory syncDir leaves alone: the repository's own. */
  predicate Skipped(rev: Rev, dir: string) {
    match rev
    case Current => DirKey(rev, dir) == RepoDir
    case Older => dir == "./" + RepoDir
  }

  function Recorded(repo: map<string, DirStat>, key: string): DirStat {
    if key in repo then repo[key] else map[]
  }

  /** The recorded entries that are no longer listed. */
  function Gone(prev: DirStat, listing: seq<Node>): (r: set<string>)
    ensures forall x :: x in r <==> x in prev && x !in Names(listing)
  {
    prev.Keys - Names(listing)
  }

  /** The recorded entries that are still listed. */
  function Kept(prev: DirStat, listing: seq<Node>): (r: DirStat)
    ensures r.Keys == prev.Keys * Names(listing)
    ensures forall x :: x in r ==> r[x] == prev[x]
  {
    map x | x in prev && x in Names(listing) :: prev[x]
  }

  function DeletionsOf(key: string, gone: set<string>): (r: seq<Emit>)
    ensures gone == {} ==> r == []
    ensures gone != {} ==> r == [Deletions(set x | x in gone :: PathIn(key, x))]
  {
    if gone == {} then [] else [Deletions(set x | x in gone :: PathIn(key, x))]
  }

  /** Go's syncDir on a directory found in the snapshot. Deletions are
      detected first (an entry recorded but no longer listed), then the
      listing is walked: an entry that is new or not StatsEqual to its
      record is recorded again and handed over, after a directory among
      them has been synced itself (always when `recursive`, otherwise only
      when it is new or was not a directory). Without `sendChanges` the
      repository is updated and nothing is handed over. */
  function SyncNode(st: SyncState, rev: Rev, dir: string, node: Node, recursive: bool, send: bool, hm: HashMode): (r: SyncState)
    ensures st.out <= r.out
    ensures !send ==> r.out == st.out
    ensures Skipped(rev, dir) || !node.info.IsDir() ==> r == st
    ensures !Skipped(rev, dir) && node.info.IsDir() ==>
      var key := DirKey(rev, dir);
      var prev := Recorded(st.repo, key);
      key in r.repo && r.repo[key] == Reconciled(Kept(prev, node.children), key, node.children, hm)
      && (send ==> st.out + DeletionsOf(key, Gone(prev, node.children)) <= r.out)
    decreases node, 1
  {
    if Skipped(rev, dir) || !node.info.IsDir() then st
    else
      var key := DirKey(rev, dir);
      var prev := Recorded(st.repo, key);
      var st1 := SyncState(st.repo[key := prev],
        st.out + (if send then DeletionsOf(key, Gone(prev, node.children)) else []));
      var walked := Entries(st1, rev, key, node, 0, Kept(prev, node.children), recursive, send, hm);
      SyncState(walked.0.repo[key := walked.1], walked.0.out)
  }

  /** The walk over the listing from entry `i`, with the entries recorded
      so far. */
  function Entries(st: SyncState, rev: Rev, key: string, node: Node, i: nat, entries: DirStat,
                   recursive: bool, send: bool, hm: HashMode): (r: (SyncState, DirStat))
    requires i <= |node.children|
    ensures st.out <= r.0.out
    ensures !send ==> r.0.out == st.out
    ensures r.1 == Reconciled(entries, key, node.children[i..], hm)
    ensures Settled(entries, key, node.children[i..], hm) ==> r.0 == st
    decreases node, 0, |node.children| - i
  {
    if i == |node.children| then (st, entries)
    else
      var c := node.children[i];
      var name := c.info.name;
      var stat := EntryStat(key, c);
      assert node.children[i..][0] == c && node.children[i..][1..] == node.children[i + 1..];
      if !Rerecord(entries, name, stat, hm) then
        SettledTail(entries, key, node.children[i..], hm);
        Entries(st, rev, key, node, i + 1, entries, recursive, send, hm)
      else
        var st1 := if c.info.IsDir() && (recursive || name !in entries || !entries[name].isDir)
                   then SyncNode(st, rev, PathIn(key, name), c, true, send, hm) else st;
        var st2 := if send then st1.(out := st1.out + [Record(PathIn(key, name), stat)]) else st1;
        Entries(st2, rev, key, node, i + 1, entries[name := stat], recursive, send, hm)
  }

  /** syncDir on a path of the snapshot: `None` when it cannot be opened,
      and then nothing happens. */
  function SyncDir(st: SyncState, rev: Rev, dir: string, node: Option<Node>, recursive: bool, send: bool, hm: HashMode): (r: SyncState)
    ensures node.None? ==> r == st
    ensures st.out <= r.out
    ensures !send ==> r.out == st.out
  {
    if node.None? then st else SyncNode(st, rev, dir, node.value, recursive, send, hm)
  }

  /** After a sync the directory's record holds exactly its listing. */
  lemma SyncedKeys(st: SyncState, rev: Rev, dir: string, node: Node, recursive: bool, send: bool, hm: HashMode)
    requires !Skipped(rev, dir) && node.info.IsDir()
    ensures var key := DirKey(rev, dir);
      var r := SyncNode(st, rev, dir, node, recursive, send, hm);
      key in r.repo && r.repo[key].Keys == Names(node.children)
  {
    var key := DirKey(rev, dir);
    var prev := Recorded(st.repo, key);
    ReconciledKeys(Kept(prev, node.children), key, node.children, hm);
  }

  /** Syncing a directory a second time, with nothing changed on disk,
      changes nothing and hands nothing over: every listed entry is
      StatsEqual to what the first sync recorded, and nothing recorded is
      missing. */
  lemma SyncIdempotent(st: SyncState, rev: Rev, dir: string, node: Node, recursive: bool, send: bool, hm: HashMode,
                       recursive2: bool, send2: bool)
    requires UniqueNames(node.children)
    ensures var r := SyncNode(st, rev, dir, node, recursive, send, hm);
      SyncNode(r, rev, dir, node, recursive2, send2, hm) == r
  {
    var r := SyncNode(st, rev, dir, node, recursive, send, hm);
    if !Skipped(rev, dir) && node.info.IsDir() {
      var key := DirKey(rev, dir);
      SyncedKeys(st, rev, dir, node, recursive, send, hm);
      ReconciledSettled(Kept(Recorded(st.repo, key), node.children), key, node.children, hm);
      SettledQuiet(r, rev, dir, node, recursive2, send2, hm);
    }
  }

  /** A directory whose record holds exactly its listing, each entry
      StatsEqual to its record, syncs without any effect. */
  lemma SettledQuiet(st: SyncState, rev: Rev, dir: string, node: Node, recursive: bool, send: bool, hm: HashMode)
    requires !Skipped(rev, dir) && node.info.IsDir()
    requires DirKey(rev, dir) in st.repo
    requires st.repo[DirKey(rev, dir)].Keys == Names(node.children)
    requires Settled(st.repo[DirKey(rev, dir)], DirKey(rev, dir), node.children, hm)
    ensures SyncNode(st, rev, dir, node, recursive, send, hm) == st
  {
    var key := DirKey(rev, dir);
    var listing := node.children;
    var rec := st.repo[key];
    assert Recorded(st.repo, key) == rec;
    assert Gone(rec, listing) == {};
    assert Kept(rec, listing) == rec;
    assert st.repo[key := rec] == st.repo;
    assert listing[0..] == listing;
    SettledUnchanged(rec, key, listing, hm);
  }

  /** No entry of the listing is a directory. */
  predicate Flat(listing: seq<Node>) {
    forall i :: 0 <= i < |listing| ==> !listing[i].info.IsDir()
  }

  /** What the walk hands over from entry `i` on, when no entry is a
      directory: the entries recorded again, in listing order. */
  predicate FlatWalk(st: SyncState, rev: Rev, key: string, node: Node, i: nat, entries: DirStat, recursive: bool, hm: HashMode)
    requires i <= |node.children|
  {
    Entries(st, rev, key, node, i, entries, recursive, true, hm).0.out
    == st.out + Rerecorded(entries, key, node.children[i..], hm)
  }

  /** An entry that is not a directory and is recorded again is handed
      over, and the walk goes on. */
  lemma FlatStepNew(st: SyncState, rev: Rev, key: string, node: Node, i: nat, entries: DirStat, recursive: bool, hm: HashMode)
    requires i < |node.children| && !node.children[i].info.IsDir()
    requires Rerecord(entries, node.children[i].info.name, EntryStat(key, node.children[i]), hm)
    requires var c := node.children[i];
      FlatWalk(st.(out := st.out + [Record(PathIn(key, c.info.name), EntryStat(key, c))]), rev, key, node, i + 1,
               entries[c.info.name := EntryStat(key, c)], recursive, hm)
    ensures FlatWalk(st, rev, key, node, i, entries, recursive, hm)
  {
    var c := node.children[i];
    var stat := EntryStat(key, c);
    var rec := Record(PathIn(key, c.info.name), stat);
    var rest := node.children[i + 1..];
    assert node.children[i..][0] == c && node.children[i..][1..] == rest;
    var tail := Rerecorded(entries[c.info.name := stat], key, rest, hm);
    assert Rerecorded(entries, key, node.children[i..], hm) == [rec] + tail;
    assert (st.out + [rec]) + tail == st.out + ([rec] + tail);
  }

  /** An entry recorded as it is is passed over. */
  lemma FlatStepSame(st: SyncState, rev: Rev, key: string, node: Node, i: nat, entries: DirStat, recursive: bool, hm: HashMode)
    requires i < |node.children| && !node.children[i].info.IsDir()
    requires !Rerecord(entries, node.children[i].info.name, EntryStat(key, node.children[i]), hm)
    requires FlatWalk(st, rev, key, node, i + 1, entries, recursive, hm)
    ensures FlatWalk(st, rev, key, node, i, entries, recursive, hm)
  {
    assert node.children[i..][0] == node.children[i] && node.children[i..][1..] == node.children[i + 1..];
  }

  /** In a directory without subdirectories the walk hands over exactly
      the entries recorded again, in listing order. */
  lemma {:induction false} FlatEntries(st: SyncState, rev: Rev, key: string, node: Node, i: nat, entries: DirStat, recursive: bool, hm: HashMode)
    requires i <= |node.children| && Flat(node.children)
    ensures FlatWalk(st, rev, key, node, i, entries, recursive, hm)
    decreases |node.children| - i
  {
    if i < |node.children| {
      var c := node.children[i];
      var stat := EntryStat(key, c);
      if Rerecord(entries, c.info.name, stat, hm) {
        FlatEntries(st.(out := st.out + [Record(PathIn(key, c.info.name), stat)]), rev, key, node, i + 1, entries[c.info.name := stat], recursive, hm);
        FlatStepNew(st, rev, key, node, i, entries, recursive, hm);
      } else {
        FlatEntries(st, rev, key, node, i + 1, entries, recursive, hm);
        FlatStepSame(st, rev, key, node, i, entries, recursive, hm);
      }
    }
  }

  /** A directory without subdirectories hands over its deletions first,
      then the entries recorded again, and nothing else. */
  lemma FlatSync(st: SyncState, rev: Rev, dir: string, node: Node, recursive: bool, hm: HashMode)
    requires !Skipped(rev, dir) && node.info.IsDir() && Flat(node.children)
    ensures var key := DirKey(rev, dir);
      var prev := Recorded(st.repo, key);
      SyncNode(st, rev, dir, node, recursive, true, hm).out
      == st.out + DeletionsOf(key, Gone(prev, node.children))
         + Rerecorded(Kept(prev, node.children), key, node.children, hm)
  {
    var key := DirKey(rev, dir);
    var prev := Recorded(st.repo, key);
    var st1 := SyncState(st.repo[key := prev], st.out + DeletionsOf(key, Gone(prev, node.children)));
    FlatEntries(st1, rev, key, node, 0, Kept(prev, node.children), recursive, hm);
    assert node.children[0..] == node.children;
  }

  /** Each directory of `order` synced in turn, non-recursively and
      handing changes over; `lookup` is the snapshot's directory at a path. */
  function SyncAll(st: SyncState, rev: Rev, order: seq<string>, lookup: string -> Option<Node>, hm: HashMode): (r: SyncState)
    ensures st.out <= r.out
    decreases |order|
  {
    if |order| == 0 then st
    else
      var st1 := SyncDir(st, rev, order[0], lookup(order[0]), false, true, hm);
      SyncAll(st1, rev, order[1..], lookup, hm)
  }

  /** `order` visits every directory of the batch exactly once: Go's map
      iteration. */
  predicate Enumerates(order: seq<string>, batch: set<string>) {
    (forall i :: 0 <= i < |order| ==> order[i] in batch)
    && (forall d :: d in batch ==> d in order)
    && forall i, j :: 0 <= i < j < |order| ==> order[i] != order[j]
  }

  /** A tick of aggregateDirs on the batch it collected: an empty batch is
      skipped with no commit; otherwise each directory is synced once, in
      `order`, and the diff is committed. */
  function Flush(st: SyncState, rev: Rev, batch: set<string>, order: seq<string>,
                 lookup: string -> Option<Node>, hm: HashMode): (r: SyncState)
    requires Enumerates(order, batch)
    ensures batch == {} ==> r == st
    ensures batch != {} ==> st.out < r.out && r.out[|r.out| - 1] == Commit
  {
    if batch == {} then st
    else
      var st1 := SyncAll(st, rev, order, lookup, hm);
      st1.(out := st1.out + [Commit])
  }

  /** A directory syncDir would leave as it is: missing from the snapshot,
      not a directory, the repository's own, or recorded with exactly its
      listing and every entry StatsEqual to its record. */
  predicate Unchanged(repo: map<string, DirStat>, rev: Rev, dir: string, node: Option<Node>, hm: HashMode) {
    node.None? || Skipped(rev, dir) || !node.value.info.IsDir()
    || (DirKey(rev, dir) in repo
        && repo[DirKey(rev, dir)].Keys == Names(node.value.children)
        && Settled(repo[DirKey(rev, dir)], DirKey(rev, dir), node.value.children, hm))
  }

  lemma {:induction false} SyncAllQuiet(st: SyncState, rev: Rev, order: seq<string>, lookup: string -> Option<Node>, hm: HashMode)
    requires forall i :: 0 <= i < |order| ==> Unchanged(st.repo, rev, order[i], lookup(order[i]), hm)
    ensures SyncAll(st, rev, order, lookup, hm) == st
    decreases |order|
  {
    if |order| > 0 {
      var d := order[0];
      var node := lookup(d);
      assert Unchanged(st.repo, rev, d, node, hm);
      if node.Some? && !Skipped(rev, d) && node.value.info.IsDir() {
        SettledQuiet(st, rev, d, node.value, false, true, hm);
      }
      assert SyncDir(st, rev, d, node, false, true, hm) == st;
      assert forall i :: 0 <= i < |order[1..]| ==> order[1..][i] == order[i + 1];
      SyncAllQuiet(st, rev, order[1..], lookup, hm);
    }
  }

  /** A tick over directories that have not changed since they were last
      synced keeps the repository as it is and hands over only the commit. */
  lemma TickQuiet(st: SyncState, rev: Rev, batch: set<string>, order: seq<string>,
                  lookup: string -> Option<Node>, hm: HashMode)
    requires Enumerates(order, batch)
    requires forall d :: d in batch ==> Unchanged(st.repo, rev, d, lookup(d), hm)
    ensures batch != {} ==> Flush(st, rev, batch, order, lookup, hm) == st.(out := st.out + [Commit])
  {
    if batch != {} {
      SyncAllQuiet(st, rev, order, lookup, hm);
    }
  }

  /** A tick on a single directory leaves it recorded with exactly its
      listing, each entry StatsEqual to its record, and commits. */
  lemma TickSingle(st: SyncState, rev: Rev, dir: string, lookup: string -> Option<Node>, hm: HashMode)
    requires lookup(dir).Some? && !Skipped(rev, dir) && lookup(dir).value.info.IsDir()
    requires UniqueNames(lookup(dir).value.children)
    ensures var r := Flush(st, rev, {dir}, [dir], lookup, hm);
      Unchanged(r.repo, rev, dir, lookup(dir), hm) && r.out[|r.out| - 1] == Commit
  {
    var node := lookup(dir).value;
    var key := DirKey(rev, dir);
    var s1 := SyncNode(st, rev, dir, node, false, true, hm);
    assert SyncAll(st, rev, [dir], lookup, hm) == s1 by {
      assert [dir][1..] == [];
    }
    SyncedKeys(st, rev, dir, node, false, true, hm);
    ReconciledSettled(Kept(Recorded(st.repo, key), node.children), key, node.children, hm);
  }
}
