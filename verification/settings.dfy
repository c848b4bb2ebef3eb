/** Per-server settings and how they are read from the client's ini-style
    configuration (settings.go). The ini file itself is read by foreign
    code: the model starts from its sections, each a map from key to value. */
module Config {
  import opened Base
  import opened Numbers
  import List

  /** One server to sync to. `sudoUser`, `remoteBinPath` and `batchMode` are
      read by the rest of the program although the settings record of
      settings.go does not declare them; the configuration reader leaves
      them at Go's zero values. */
  datatype Settings = Settings(
    excludes: map<string, bool>,
    username: string,
    host: string,
    port: int,
    dir: string,
    os: string,
    compression: bool,
    sudoUser: string,
    remoteBinPath: string,
    batchMode: bool)

  /** One section of the configuration file. */
  type Section = map<string, string>

  /** The section whose keys every server section inherits. */
  const GeneralSection := "general_settings"

  /** Reading a Go map: a missing key reads as the empty string. */
  function Get(m: Section, k: string): (r: string)
    ensures k !in m ==> r == ""
    ensures k in m ==> r == m[k]
  {
    if k in m then m[k] else ""
  }

  /** Go's parseExcludes: every `|`-separated name of `excl`, marked true. */
  function ParseExcludes(excl: string): (r: map<string, bool>)
    ensures forall k :: k in r <==> k in Split(excl, '|')
    ensures forall k :: k in r ==> r[k]
  {
    map k | k in Split(excl, '|') :: true
  }

  /** Go's parseServerSettings. A port that is given but is not a 64-bit
      decimal integer stops the program; an `exclude` key replaces the
      inherited excludes; a missing `host` key means the section's name is
      the host; compression is on unless it is exactly "false". */
  function ParseServerSettings(section: string, ss: Section, excludes: map<string, bool>): (r: Result<Settings>)
    ensures r.Err? <==> Get(ss, "port") != "" && !Atoi(Get(ss, "port")).Value?
    ensures r.Ok? && Get(ss, "port") == "" ==> r.value.port == 0
    ensures r.Ok? ==> r.value.host == if "host" in ss then ss["host"] else section
    ensures r.Ok? ==> (r.value.compression <==> Get(ss, "compression") != "false")
    ensures r.Ok? && Get(ss, "exclude") == "" ==> r.value.excludes == excludes
    ensures r.Ok? && Get(ss, "exclude") != "" ==> r.value.excludes == ParseExcludes(Get(ss, "exclude"))
    ensures r.Ok? ==> r.value.username == Get(ss, "username") && r.value.dir == Get(ss, "dir") && r.value.os == Get(ss, "os")
  {
    var p := Get(ss, "port");
    if p != "" && !Atoi(p).Value? then Err("Cannot parse 'port' property in [" + section + "] section")
    else
      var port := if p == "" then 0 else Atoi(p).v;
      var local := if Get(ss, "exclude") != "" then ParseExcludes(Get(ss, "exclude")) else excludes;
      var host := if "host" in ss then ss["host"] else section;
      Ok(Settings(local, Get(ss, "username"), host, port, Get(ss, "dir"), Get(ss, "os"),
        Get(ss, "compression") != "false", "", "", false))
  }

  /** A port written in decimal is read back. */
  lemma PortRoundTrip(section: string, ss: Section, excludes: map<string, bool>, x: Int64)
    ensures var r := ParseServerSettings(section, ss["port" := Itoa(x)], excludes);
      r.Ok? && r.value.port == x
  {
    AtoiItoa(x);
    assert Get(ss["port" := Itoa(x)], "port") == Itoa(x);
  }

  /** The loop of parseConfig over the general section: every key the
      server section leaves empty takes the general value. */
  function Merge(ss: Section, general: Section): (r: Section)
    ensures r.Keys == ss.Keys + general.Keys
    ensures forall k :: Get(r, k) == if Get(ss, k) == "" then Get(general, k) else Get(ss, k)
  {
    map k | k in ss.Keys + general.Keys :: if Get(ss, k) == "" && k in general then general[k] else ss[k]
  }

  /** How parseConfig turns sections into servers: `expand` gives the
      names a section's name stands for, `glob` tells whether the override
      pattern `force` selects a name (every name is selected when there is
      no override), and `build` makes the settings of a name from the
      section it came from. */
  datatype Reader = Reader(
    expand: string -> Result<seq<string>>,
    glob: (string, string) -> Result<bool>,
    force: string,
    build: (string, Section) -> Result<Settings>)

  /** Whether a server name passes the `servers` override. */
  function Selected(rd: Reader, name: string): (r: Result<bool>)
  {
    if rd.force == "" then Ok(true) else rd.glob(rd.force, name)
  }

  /** Whether a section takes part: it is named, and not disabled. */
  predicate Enabled(key: string, ss: Section) {
    key != "" && "disabled" !in ss
  }

  /** Whether section `key` yields server `n`. */
  predicate Serves(rd: Reader, key: string, ss: Section, n: string) {
    && Enabled(key, ss)
    && rd.expand(key).Ok? && n in rd.expand(key).value
    && Selected(rd, n) == Ok(true)
  }

  /** The inner loop of parseConfig: the settings of every expanded name
      the override selects. A later name overwrites an earlier one; the
      first error stops the loop. */
  function NameServers(rd: Reader, names: seq<string>, ss: Section): (r: Result<map<string, Settings>>)
    ensures r.Ok? <==> forall i :: 0 <= i < |names| ==>
      Selected(rd, names[i]).Ok? && (Selected(rd, names[i]).value ==> rd.build(names[i], ss).Ok?)
    ensures r.Ok? ==> forall n :: n in r.value <==> n in names && Selected(rd, n) == Ok(true)
    ensures r.Ok? ==> forall n :: n in r.value ==> Ok(r.value[n]) == rd.build(n, ss)
  {
    if |names| == 0 then Ok(map[])
    else
      var sel := Selected(rd, names[0]);
      if sel.Err? then Err(sel.msg)
      else
        var first := rd.build(names[0], ss);
        if sel.value && first.Err? then Err(first.msg)
        else
          match NameServers(rd, names[1..], ss)
          case Err(e) => Err(e)
          case Ok(rest) =>
            assert forall i :: 1 <= i < |names| ==> names[i] == names[1..][i - 1];
            assert forall n :: n in names ==> n == names[0] || n in names[1..];
            if sel.value then Ok(map[names[0] := first.value] + rest) else Ok(rest)
  }

  /** The servers one section contributes: none when it is unnamed or
      disabled, otherwise one per expansion of its name that the override
      selects; a name that does not expand is an error. */
  function SectionServers(rd: Reader, key: string, ss: Section): (r: Result<map<string, Settings>>)
    ensures !Enabled(key, ss) ==> r == Ok(map[])
    ensures Enabled(key, ss) && rd.expand(key).Err? ==> r.Err?
    ensures r.Ok? ==> forall n :: n in r.value <==> Serves(rd, key, ss, n)
    ensures r.Ok? ==> forall n :: n in r.value ==> Ok(r.value[n]) == rd.build(n, ss)
  {
    if !Enabled(key, ss) then Ok(map[])
    else
      match rd.expand(key)
      case Err(e) => Err("Server name pattern '" + key + "' parse error [config]: " + e)
      case Ok(names) => NameServers(rd, names, ss)
  }

  /** `s` is what the last section of `order` that yields `n` makes of it. */
  predicate LastServes(rd: Reader, order: seq<string>, dict: map<string, Section>, n: string, s: Settings)
    requires forall i :: 0 <= i < |order| ==> order[i] in dict
  {
    exists i :: 0 <= i < |order| && Serves(rd, order[i], dict[order[i]], n)
      && rd.build(n, dict[order[i]]) == Ok(s)
      && forall j :: i < j < |order| ==> !Serves(rd, order[j], dict[order[j]], n)
  }

  /** The outer loop of parseConfig over the sections in the order the map
      hands them out; the servers of a later section overwrite those of an
      earlier one, and the first error stops the loop. */
  function Sections(rd: Reader, order: seq<string>, dict: map<string, Section>): (r: Result<map<string, Settings>>)
    requires forall i :: 0 <= i < |order| ==> order[i] in dict
    ensures r.Ok? ==> forall n :: n in r.value <==>
      exists i :: 0 <= i < |order| && Serves(rd, order[i], dict[order[i]], n)
    ensures r.Ok? ==> forall n :: n in r.value ==> LastServes(rd, order, dict, n, r.value[n])
  {
    if |order| == 0 then Ok(map[])
    else
      var init := order[..|order| - 1];
      var key := order[|order| - 1];
      match Sections(rd, init, dict)
      case Err(e) => Err(e)
      case Ok(acc) =>
        match SectionServers(rd, key, dict[key])
        case Err(e) => Err(e)
        case Ok(m) =>
          assert forall i :: 0 <= i < |init| ==> init[i] == order[i];
          SectionsStep(rd, order, dict, acc, m);
          SectionsMembers(rd, order, dict, acc, m);
          Ok(acc + m)
  }

  /** The outer loop fails exactly when some section fails. */
  lemma {:induction false} SectionsOk(rd: Reader, order: seq<string>, dict: map<string, Section>)
    requires forall i :: 0 <= i < |order| ==> order[i] in dict
    ensures Sections(rd, order, dict).Ok? <==> forall i :: 0 <= i < |order| ==> SectionServers(rd, order[i], dict[order[i]]).Ok?
  {
    if |order| > 0 {
      var init := order[..|order| - 1];
      assert forall i :: 0 <= i < |init| ==> init[i] == order[i];
      SectionsOk(rd, init, dict);
    }
  }

  /** One round of the outer loop keeps its invariant. */
  lemma SectionsStep(rd: Reader, order: seq<string>, dict: map<string, Section>,
                     acc: map<string, Settings>, m: map<string, Settings>)
    requires |order| > 0 && forall i :: 0 <= i < |order| ==> order[i] in dict
    requires forall n :: n in acc ==> LastServes(rd, order[..|order| - 1], dict, n, acc[n])
    requires var key := order[|order| - 1];
      && (forall n :: n in m <==> Serves(rd, key, dict[key], n))
      && (forall n :: n in m ==> Ok(m[n]) == rd.build(n, dict[key]))
    ensures forall n :: n in acc + m ==> LastServes(rd, order, dict, n, (acc + m)[n])
  {
    var init, last := order[..|order| - 1], |order| - 1;
    forall n | n in acc + m
      ensures LastServes(rd, order, dict, n, (acc + m)[n])
    {
      if n in m {
        assert Serves(rd, order[last], dict[order[last]], n);
      } else {
        LastServesExtend(rd, order, dict, n, acc[n]);
      }
    }
  }

  /** One round of the outer loop adds the servers of its section. */
  lemma SectionsMembers(rd: Reader, order: seq<string>, dict: map<string, Section>,
                        acc: map<string, Settings>, m: map<string, Settings>)
    requires |order| > 0 && forall i :: 0 <= i < |order| ==> order[i] in dict
    requires var init := order[..|order| - 1];
      forall n :: n in acc <==> exists i :: 0 <= i < |init| && Serves(rd, init[i], dict[init[i]], n)
    requires var key := order[|order| - 1];
      forall n :: n in m <==> Serves(rd, key, dict[key], n)
    ensures forall n :: n in acc + m <==> exists i :: 0 <= i < |order| && Serves(rd, order[i], dict[order[i]], n)
  {
    var init, last := order[..|order| - 1], |order| - 1;
    forall n
      ensures n in acc + m <==> exists i :: 0 <= i < |order| && Serves(rd, order[i], dict[order[i]], n)
    {
      if n in acc {
        var i :| 0 <= i < |init| && Serves(rd, init[i], dict[init[i]], n);
        assert order[i] == init[i];
      } else if n in m {
        assert Serves(rd, order[last], dict[order[last]], n);
      }
      forall i | 0 <= i < |order| && Serves(rd, order[i], dict[order[i]], n)
        ensures n in acc + m
      {
        if i < last {
          assert init[i] == order[i];
        }
      }
    }
  }

  /** A server no later section yields keeps what the earlier sections
      made of it. */
  lemma LastServesExtend(rd: Reader, order: seq<string>, dict: map<string, Section>, n: string, s: Settings)
    requires |order| > 0 && forall i :: 0 <= i < |order| ==> order[i] in dict
    requires LastServes(rd, order[..|order| - 1], dict, n, s)
    requires !Serves(rd, order[|order| - 1], dict[order[|order| - 1]], n)
    ensures LastServes(rd, order, dict, n, s)
  {
    var init, last := order[..|order| - 1], |order| - 1;
    var i :| 0 <= i < |init| && Serves(rd, init[i], dict[init[i]], n)
      && rd.build(n, dict[init[i]]) == Ok(s)
      && forall j :: i < j < |init| ==> !Serves(rd, init[j], dict[init[j]], n);
    assert order[i] == init[i];
    forall j | i < j < |order|
      ensures !Serves(rd, order[j], dict[order[j]], n)
    {
      if j < last {
        assert order[j] == init[j];
      }
    }
  }

  /** The reader of parseConfig: list.Expand, list.Glob with the given
      matcher, the override of the flag or else of the general section,
      and parseServerSettings after merging in the general section, with
      the general excludes. */
  function ConfigReader(dict: map<string, Section>, forceFlag: string, matches: List.Matcher): (rd: Reader)
    requires GeneralSection in dict
    ensures rd.expand == List.Expand && rd.force == Force(dict, forceFlag)
    ensures forall p, n :: rd.glob(p, n) == List.Glob(p, n, matches)
    ensures forall n, ss :: rd.build(n, ss) == ParseServerSettings(n, Merge(ss, dict[GeneralSection]), GeneralExcludes(dict))
  {
    var general, excludes := dict[GeneralSection], GeneralExcludes(dict);
    Reader(List.Expand, (p, n) => List.Glob(p, n, matches), Force(dict, forceFlag),
      (n, ss) => ParseServerSettings(n, Merge(ss, general), excludes))
  }

  /** Go's parseConfig, after the ini file has been read into `dict`:
      `order` is the order in which Go's map iteration hands out the
      sections other than the general one, and `forceFlag` the
      `--servers` command-line flag. A missing general section, a bad
      pattern or a bad port stops the program. */
  function ParseConfig(dict: map<string, Section>, order: seq<string>, forceFlag: string,
                       matches: List.Matcher): (r: Result<map<string, Settings>>)
    requires forall k :: k in order <==> k in dict && k != GeneralSection
    ensures GeneralSection !in dict ==> r.Err?
    ensures r.Ok? ==> forall n :: n in r.value <==>
      exists i :: 0 <= i < |order| && Serves(ConfigReader(dict, forceFlag, matches), order[i], dict[order[i]], n)
    ensures r.Ok? ==> forall n :: n in r.value ==>
      LastServes(ConfigReader(dict, forceFlag, matches), order, dict, n, r.value[n])
  {
    if GeneralSection !in dict then Err("Section " + GeneralSection + " of config file is empty")
    else
      assert forall i :: 0 <= i < |order| ==> order[i] in order;
      Sections(ConfigReader(dict, forceFlag, matches), order, dict)
  }

  /** With a general section, parseConfig stops the program exactly when
      some section has a bad pattern, a failing override or a bad port. */
  lemma ParseConfigOk(dict: map<string, Section>, order: seq<string>, forceFlag: string, matches: List.Matcher)
    requires forall k :: k in order <==> k in dict && k != GeneralSection
    requires GeneralSection in dict
    ensures ParseConfig(dict, order, forceFlag, matches).Ok? <==>
      forall i :: 0 <= i < |order| ==> SectionServers(ConfigReader(dict, forceFlag, matches), order[i], dict[order[i]]).Ok?
  {
    assert forall i :: 0 <= i < |order| ==> order[i] in order;
    SectionsOk(ConfigReader(dict, forceFlag, matches), order, dict);
  }

  /** Which names a section of the configuration yields: those its pattern
      expands to that the override pattern, when there is one, matches. */
  lemma ConfigServes(dict: map<string, Section>, forceFlag: string, matches: List.Matcher, key: string, n: string)
    requires GeneralSection in dict && key in dict
    ensures var f := Force(dict, forceFlag);
      Serves(ConfigReader(dict, forceFlag, matches), key, dict[key], n) <==>
        && key != "" && "disabled" !in dict[key]
        && List.Expand(key).Ok? && n in List.Expand(key).value
        && (f == "" || List.Glob(f, n, matches) == Ok(true))
  { }

  /** The excludes of the general section; none when it has no `exclude`
      key. */
  function GeneralExcludes(dict: map<string, Section>): (r: map<string, bool>)
    requires GeneralSection in dict
    ensures Get(dict[GeneralSection], "exclude") == "" ==> r == map[]
    ensures Get(dict[GeneralSection], "exclude") != "" ==>
      forall k :: k in r <==> k in Split(Get(dict[GeneralSection], "exclude"), '|')
  {
    var e := Get(dict[GeneralSection], "exclude");
    if e != "" then ParseExcludes(e) else map[]
  }

  /** The server-name override: the flag when it is given, otherwise the
      general section's `servers` key. */
  function Force(dict: map<string, Section>, forceFlag: string): (r: string)
  {
    if forceFlag != "" then forceFlag
    else if GeneralSection in dict then Get(dict[GeneralSection], "servers")
    else ""
  }
}
