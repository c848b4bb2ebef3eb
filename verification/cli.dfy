/** The command line of unrealsync.go: the repeatable `-exclude` flag and
    the `[user@]host:dir` arguments that name the servers to sync to. */
module Cli {
  import opened Base
  import opened Consts
  import Config
  import List

  /** Go's MultipleStringFlag.Set: every occurrence of the flag adds its
      value after the ones seen before. */
  function SetFlag(values: seq<string>, value: string): (r: seq<string>)
    ensures |r| == |values| + 1 && r[|values|] == value
    ensures r[..|values|] == values
  {
    values + [value]
  }

  /** The flag values after a command line repeating the flag. */
  function Collect(values: seq<string>, given: seq<string>): (r: seq<string>)
    decreases |given|
  {
    if |given| == 0 then values else Collect(SetFlag(values, given[0]), given[1..])
  }

  /** Repeating the flag keeps every value, in command-line order. */
  lemma {:induction false} CollectInOrder(values: seq<string>, given: seq<string>)
    ensures Collect(values, given) == values + given
    decreases |given|
  {
    if |given| > 0 {
      CollectInOrder(values + [given[0]], given[1..]);
      assert values + [given[0]] + given[1..] == values + given;
    }
  }

  /** The exclude set main builds: nil without `-exclude`, otherwise every
      value given plus the repository's own directory. */
  function GlobalExcludes(flags: seq<string>): (r: map<string, bool>)
    ensures |flags| == 0 ==> r == map[]
    ensures |flags| > 0 ==> r.Keys == (set x | x in flags) + {RepoDir}
    ensures forall k :: k in r ==> r[k]
  {
    if |flags| == 0 then map[] else (map x | x in flags :: true)[RepoDir := true]
  }

  /** Go's settings for one `host:dir` argument: the host part splits on
      `@` into user and host only when it holds exactly one `@`; anything
      other than exactly one `:` is fatal. The sudo user, the remote binary
      path and the excludes are copied in only when non-empty. */
  function ParseHostArg(arg: string, sudoUser: string, remoteBinPath: string, excludes: map<string, bool>): (r: Result<Config.Settings>)
  {
    var parts := Split(arg, ':');
    if |parts| != 2 then Err("bad host:dir specification:" + arg)
    else
      var hostUser := Split(parts[0], '@');
      var user := if |hostUser| == 2 then hostUser[0] else "";
      var host := if |hostUser| == 2 then hostUser[1] else parts[0];
      Ok(Config.Settings(excludes, user, host, 0, parts[1], "", false,
        sudoUser, remoteBinPath, false))
  }

  /** An argument is accepted exactly when it holds one `:`; the user is
      set exactly when the part before it holds one `@`. */
  lemma HostArgShape(arg: string, sudoUser: string, remoteBinPath: string, excludes: map<string, bool>)
    ensures ParseHostArg(arg, sudoUser, remoteBinPath, excludes).Ok? <==> Count(arg, ':') == 1
    ensures var r := ParseHostArg(arg, sudoUser, remoteBinPath, excludes);
      r.Ok? ==> (r.value.sudoUser == sudoUser && r.value.remoteBinPath == remoteBinPath
                 && r.value.excludes == excludes && r.value.port == 0 && !r.value.compression
                 && ':' !in r.value.host && ':' !in r.value.dir)
  {
    List.SplitCount(arg, ':');
  }

  /** `user@host:dir` reads back as that user, host and directory. */
  lemma UserHostRoundTrip(user: string, host: string, dir: string, sudoUser: string, remoteBinPath: string, excludes: map<string, bool>)
    requires ':' !in user && ':' !in host && ':' !in dir && '@' !in user && '@' !in host
    ensures var r := ParseHostArg(user + "@" + host + ":" + dir, sudoUser, remoteBinPath, excludes);
      r.Ok? && r.value.username == user && r.value.host == host && r.value.dir == dir
  {
    var hp := user + "@" + host;
    assert ':' !in hp by {
      assert forall i :: 0 <= i < |hp| ==> hp[i] == (if i < |user| then user[i] else if i == |user| then '@' else host[i - |user| - 1]);
    }
    assert Join([hp, dir], ':') == user + "@" + host + ":" + dir;
    SplitJoin([hp, dir], ':');
    assert Join([user, host], '@') == hp;
    SplitJoin([user, host], '@');
  }

  /** `host:dir` without `@` leaves the user empty and keeps the host. */
  lemma HostRoundTrip(host: string, dir: string, sudoUser: string, remoteBinPath: string, excludes: map<string, bool>)
    requires ':' !in host && ':' !in dir && '@' !in host
    ensures var r := ParseHostArg(host + ":" + dir, sudoUser, remoteBinPath, excludes);
      r.Ok? && r.value.username == "" && r.value.host == host && r.value.dir == dir
  {
    assert Join([host, dir], ':') == host + ":" + dir;
    SplitJoin([host, dir], ':');
    SplitJoin([host], '@');
  }

  /** Every server argument read on its own. */
  function ParseEach(args: seq<string>, sudoUser: string, remoteBinPath: string, flags: seq<string>): (r: seq<Result<Config.Settings>>)
    ensures |r| == |args|
    ensures forall i :: 0 <= i < |args| ==> r[i] == ParseHostArg(args[i], sudoUser, remoteBinPath, GlobalExcludes(flags))
  {
    seq(|args|, i requires 0 <= i < |args| => ParseHostArg(args[i], sudoUser, remoteBinPath, GlobalExcludes(flags)))
  }

  /** The loop of main over the server arguments, once each is read:
      servers keyed by host, a later argument overwriting an earlier one with
      the same host, and the first malformed argument fatal. */
  function Servers(parsed: seq<Result<Config.Settings>>): (r: Result<map<string, Config.Settings>>)
    decreases |parsed|
  {
    if |parsed| == 0 then Ok(map[])
    else
      match Servers(parsed[..|parsed| - 1])
      case Err(msg) => Err(msg)
      case Ok(servers) =>
        match parsed[|parsed| - 1]
        case Err(msg) => Err(msg)
        case Ok(s) => Ok(servers[s.host := s])
  }

  function ParseHostArgs(args: seq<string>, sudoUser: string, remoteBinPath: string, flags: seq<string>): Result<map<string, Config.Settings>> {
    Servers(ParseEach(args, sudoUser, remoteBinPath, flags))
  }

  predicate AllOk(parsed: seq<Result<Config.Settings>>) {
    forall i :: 0 <= i < |parsed| ==> parsed[i].Ok?
  }

  /** No later argument names the host argument `i` names. */
  predicate LastForHost(parsed: seq<Result<Config.Settings>>, i: nat)
    requires i < |parsed| && AllOk(parsed)
  {
    forall j :: i < j < |parsed| ==> parsed[j].value.host != parsed[i].value.host
  }

  /** The loop succeeds exactly when every argument is well formed. */
  lemma {:induction false} ServersOk(parsed: seq<Result<Config.Settings>>)
    ensures Servers(parsed).Ok? <==> AllOk(parsed)
    decreases |parsed|
  {
    if |parsed| > 0 {
      var n := |parsed| - 1;
      ServersOk(parsed[..n]);
      assert forall i :: 0 <= i < n ==> parsed[..n][i] == parsed[i];
    }
  }

  /** On success the servers are keyed by exactly the hosts the arguments
      name. */
  lemma {:induction false} ServersKeys(parsed: seq<Result<Config.Settings>>)
    requires AllOk(parsed)
    ensures Servers(parsed).Ok?
    ensures Servers(parsed).value.Keys == set i | 0 <= i < |parsed| :: parsed[i].value.host
    decreases |parsed|
  {
    ServersOk(parsed);
    if |parsed| > 0 {
      var n := |parsed| - 1;
      var init := parsed[..n];
      assert forall i :: 0 <= i < n ==> init[i] == parsed[i];
      ServersKeys(init);
      var s := parsed[n].value;
      assert Servers(parsed).value.Keys == Servers(init).value.Keys + {s.host};
      var all := set i | 0 <= i < |parsed| :: parsed[i].value.host;
      var before := set i | 0 <= i < n :: init[i].value.host;
      assert all == before + {s.host} by {
        forall h | h in all ensures h in before + {s.host} {
          var i :| 0 <= i < |parsed| && parsed[i].value.host == h;
          if i < n {
            assert init[i].value.host == h;
          }
        }
        forall h | h in before ensures h in all {
          var i :| 0 <= i < n && init[i].value.host == h;
          assert parsed[i].value.host == h;
        }
      }
    }
  }

  /** On success each host maps to the settings of the last argument
      naming it. */
  lemma {:induction false} ServersLastWins(parsed: seq<Result<Config.Settings>>)
    requires AllOk(parsed)
    ensures Servers(parsed).Ok?
    ensures forall i :: 0 <= i < |parsed| && LastForHost(parsed, i) ==>
      parsed[i].value.host in Servers(parsed).value && Servers(parsed).value[parsed[i].value.host] == parsed[i].value
    decreases |parsed|
  {
    ServersKeys(parsed);
    if |parsed| > 0 {
      var n := |parsed| - 1;
      var init := parsed[..n];
      var s := parsed[n].value;
      assert AllOk(init) by {
        assert forall i :: 0 <= i < n ==> init[i] == parsed[i];
      }
      var m := Servers(init).value;
      assert Servers(parsed).value == m[s.host := s];
      forall i | 0 <= i < |parsed| && LastForHost(parsed, i)
        ensures parsed[i].value.host in m[s.host := s] && m[s.host := s][parsed[i].value.host] == parsed[i].value
      {
        if i < n {
          assert init[i] == parsed[i];
          assert LastForHost(init, i) by {
            assert forall j :: i < j < n ==> init[j] == parsed[j];
          }
          ServersLastWins(init);
        }
      }
    }
  }


  /** The whole loop: it succeeds exactly when every argument holds one
      `:`, and then each host maps to its last argument. */
  lemma HostArgsServers(args: seq<string>, sudoUser: string, remoteBinPath: string, flags: seq<string>)
    ensures var r := ParseHostArgs(args, sudoUser, remoteBinPath, flags);
      r.Ok? <==> forall i :: 0 <= i < |args| ==> Count(args[i], ':') == 1
    ensures var r := ParseHostArgs(args, sudoUser, remoteBinPath, flags);
      var parsed := ParseEach(args, sudoUser, remoteBinPath, flags);
      r.Ok? ==> AllOk(parsed) && forall i :: 0 <= i < |args| && LastForHost(parsed, i) ==>
        parsed[i].value.host in r.value && r.value[parsed[i].value.host] == parsed[i].value
  {
    var parsed := ParseEach(args, sudoUser, remoteBinPath, flags);
    ServersOk(parsed);
    forall i | 0 <= i < |args|
      ensures parsed[i].Ok? <==> Count(args[i], ':') == 1
    {
      HostArgShape(args[i], sudoUser, remoteBinPath, GlobalExcludes(flags));
    }
    if AllOk(parsed) {
      ServersLastWins(parsed);
    }
  }
}
