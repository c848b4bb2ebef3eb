/** The client's record of what it last saw: for every synced directory, the
    stat of each of its entries (repository.go), and the path filter shared
    by the repository and the change watcher. */
module Repository {
  import opened Base
  import opened Consts
  import opened UnrealStat

  /** Entries of one directory, by name. */
  type DirStat = map<string, Stat>

  datatype Repository = Repository(stats: map<string, DirStat>, excludes: map<string, bool>)

  /** Go's NewRepository: no directory yet, and the given excludes. */
  function NewRepository(excludes: map<string, bool>): (r: Repository)
    ensures forall d :: !HasDir(r, d)
    ensures r.excludes == excludes
  {
    Repository(map[], excludes)
  }

  predicate HasDir(r: Repository, dir: string) {
    dir in r.stats
  }

  /** Go's AddDir: the directory is known with no entries, whatever it held
      before. */
  function AddDir(r: Repository, dir: string): (r': Repository)
    ensures HasDir(r', dir) && GetDirStat(r', dir) == Some(map[])
    ensures forall d :: d != dir ==> GetDirStat(r', d) == GetDirStat(r, d)
    ensures r'.excludes == r.excludes
  {
    r.(stats := r.stats[dir := map[]])
  }

  /** Go's GetDirStat: nil for an unknown directory. */
  function GetDirStat(r: Repository, dir: string): (s: Option<DirStat>)
    ensures s.None? <==> !HasDir(r, dir)
    ensures HasDir(r, dir) ==> s == Some(r.stats[dir])
  {
    if dir in r.stats then Some(r.stats[dir]) else None
  }

  /** Go's SetDirStat: replaces one directory's entries. */
  function SetDirStat(r: Repository, dir: string, stat: DirStat): (r': Repository)
    ensures GetDirStat(r', dir) == Some(stat)
    ensures forall d :: d != dir ==> GetDirStat(r', d) == GetDirStat(r, d)
    ensures r'.excludes == r.excludes
  {
    r.(stats := r.stats[dir := stat])
  }

  /** Go's AddFileToDir: writing into the entries of an unknown directory
      would write into a nil map, which panics, so the directory must be
      known. */
  function AddFileToDir(r: Repository, dir: string, file: string, stat: Stat): (r': Repository)
    requires HasDir(r, dir)
    ensures GetDirStat(r', dir) == Some(r.stats[dir][file := stat])
    ensures forall d :: d != dir ==> GetDirStat(r', d) == GetDirStat(r, d)
    ensures r'.excludes == r.excludes
  {
    r.(stats := r.stats[dir := r.stats[dir][file := stat]])
  }

  /** Go's pathIsGlobalExcluded (and the body of IsPathExcluded): the
      repository's own directory, or a plain string prefix from the
      excludes. A prefix is not a path component: `foo` excludes `foobar`. */
  predicate PathIsGlobalExcluded(path: string, excludes: map<string, bool>) {
    HasPrefix(path, RepoDir) || exists e :: e in excludes && HasPrefix(path, e)
  }

  /** Go's IsPathExcluded. */
  predicate IsPathExcluded(r: Repository, path: string) {
    PathIsGlobalExcluded(path, r.excludes)
  }

  /** Everything under the repository's own directory is excluded, whatever
      the excludes hold. */
  lemma RepoDirExcluded(excludes: map<string, bool>, rest: string)
    ensures PathIsGlobalExcluded(RepoDir + rest, excludes)
  {
    assert (RepoDir + rest)[..|RepoDir|] == RepoDir;
  }

  /** Exclusion is closed under extension: a path that extends an excluded
      one is excluded too (so `foo` excluding `foo` excludes `foobar`). */
  lemma ExcludedExtends(path: string, more: string, excludes: map<string, bool>)
    requires PathIsGlobalExcluded(path, excludes)
    ensures PathIsGlobalExcluded(path + more, excludes)
  {
    if HasPrefix(path, RepoDir) {
      assert (path + more)[..|RepoDir|] == path[..|RepoDir|];
    } else {
      var e :| e in excludes && HasPrefix(path, e);
      assert (path + more)[..|e|] == path[..|e|];
    }
  }

  /** An exclude filters exactly the paths it is a prefix of, when nothing
      else applies. */
  lemma SingleExclude(path: string, e: string)
    requires !HasPrefix(path, RepoDir)
    ensures PathIsGlobalExcluded(path, map[e := true]) <==> HasPrefix(path, e)
  {
    if HasPrefix(path, e) {
      assert e in map[e := true];
    }
  }

  /** `foo` excludes `foobar`: the test is on strings, not path components. */
  lemma PrefixNotComponent()
    ensures PathIsGlobalExcluded("foobar", map["foo" := true])
  {
    SingleExclude("foobar", "foo");
  }
}
