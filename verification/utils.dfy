/** Small helpers of utils.go: human-readable lengths, version comparison,
    the ssh option list, and the alignment of progress messages. */
module Utils {
  import opened Base
  import opened Numbers
  import opened Consts
  import Config

  /** Go's formatLength: bytes below 1 KiB, whole KiB below 1 MiB, whole MiB
      above. */
  function FormatLength(n: int): string {
    if n < 1024 then Itoa(n) + " B"
    else if n < 1048576 then Itoa(n / 1024) + " KiB"
    else Itoa(n / 1048576) + " MiB"
  }

  lemma NumberAndUnit(x: Int64, unit: string)
    requires |unit| > 0 && ' ' !in unit
    ensures Split(Itoa(x) + " " + unit, ' ') == [Itoa(x), unit]
    ensures Atoi(Itoa(x)) == Value(x)
  {
    var d := Itoa(x);
    FormatIntAlphabet(x, 10);
    assert ' ' !in d;
    assert Join([d, unit], ' ') == d + " " + unit;
    SplitJoin([d, unit], ' ');
    AtoiItoa(x);
  }

  /** `d + " " + unit`, regrouped. */
  lemma Regroup(d: string, unit: string)
    ensures d + " " + unit == d + (" " + unit)
  {
  }

  /** A line holding a number, a blank and a unit splits back into both. */
  lemma UnitLine(line: string, x: Int64, unit: string, spaced: string)
    requires spaced == " " + unit && line == Itoa(x) + spaced
    requires |unit| > 0 && ' ' !in unit
    ensures var parts := Split(line, ' ');
      |parts| == 2 && parts[1] == unit && Atoi(parts[0]) == Value(x)
  {
    NumberAndUnit(x, unit);
    Regroup(Itoa(x), unit);
  }

  /** The three units hold no blank. */
  lemma Units()
    ensures " B" == " " + "B" && ' ' !in "B"
    ensures " KiB" == " " + "KiB" && ' ' !in "KiB"
    ensures " MiB" == " " + "MiB" && ' ' !in "MiB"
  {
  }

  lemma ScaleBounds(n: int)
    ensures 1024 <= n < 1048576 ==> 1 <= n / 1024 < 1024
    ensures 1048576 <= n < 0x8000_0000_0000_0000 ==> 1 <= n / 1048576 < 0x8000_0000_0000_0000
  {
  }

  /** The branch of formatLength a length takes. */
  lemma FormatLengthBranch(n: Int64)
    ensures n < 1024 ==> FormatLength(n) == Itoa(n) + " B"
    ensures 1024 <= n < 1048576 ==> FormatLength(n) == Itoa(n / 1024) + " KiB"
    ensures n >= 1048576 ==> FormatLength(n) == Itoa(n / 1048576) + " MiB"
  {
  }

  /** The printed length is a number and a unit; reading the number back
      gives the length itself below 1 KiB. */
  lemma FormatLengthBytes(n: Int64)
    requires n < 1024
    ensures var parts := Split(FormatLength(n), ' ');
      |parts| == 2 && parts[1] == "B" && Atoi(parts[0]) == Value(n)
  {
    FormatLengthBranch(n);
    Units();
    UnitLine(FormatLength(n), n, "B", " B");
  }

  /** Between 1 KiB and 1 MiB the number is the whole KiB, from 1 to 1023. */
  lemma FormatLengthKiB(n: Int64)
    requires 1024 <= n < 1048576
    ensures var parts := Split(FormatLength(n), ' ');
      |parts| == 2 && parts[1] == "KiB" && Atoi(parts[0]) == Value(n / 1024) && 1 <= n / 1024 < 1024
  {
    ScaleBounds(n);
    FormatLengthBranch(n);
    Units();
    UnitLine(FormatLength(n), n / 1024, "KiB", " KiB");
  }

  /** From 1 MiB on the number is the whole MiB. */
  lemma FormatLengthMiB(n: Int64)
    requires n >= 1048576
    ensures var parts := Split(FormatLength(n), ' ');
      |parts| == 2 && parts[1] == "MiB" && Atoi(parts[0]) == Value(n / 1048576) && n / 1048576 >= 1
  {
    ScaleBounds(n);
    FormatLengthBranch(n);
    Units();
    UnitLine(FormatLength(n), n / 1048576, "MiB", " MiB");
  }

  /** Every part is a decimal number Atoi accepts. */
  predicate AllNumbers(parts: seq<string>) {
    forall k :: 0 <= k < |parts| ==> Atoi(parts[k]).Value?
  }

  lemma AllNumbersCons(parts: seq<string>)
    requires |parts| > 0
    ensures AllNumbers(parts) <==> Atoi(parts[0]).Value? && AllNumbers(parts[1..])
  {
    assert forall k :: 1 <= k < |parts| ==> parts[k] == parts[1..][k - 1];
  }

  /** Each part reads as the number at the same position. */
  predicate ReadsAs(parts: seq<string>, xs: seq<int>) {
    |xs| == |parts| && forall k :: 0 <= k < |parts| ==> Atoi(parts[k]) == Value(xs[k])
  }

  lemma ReadsAsCons(parts: seq<string>, x: int, xs: seq<int>)
    requires |parts| > 0 && Atoi(parts[0]) == Value(x) && ReadsAs(parts[1..], xs)
    ensures ReadsAs(parts, [x] + xs)
  {
    assert forall k :: 1 <= k < |parts| ==> parts[k] == parts[1..][k - 1];
  }

  /** The numbers of a dotted version string, or the first part that is not
      a number. */
  function ParseParts(parts: seq<string>): (r: Result<seq<int>>)
    ensures r.Ok? <==> AllNumbers(parts)
    ensures r.Ok? ==> ReadsAs(parts, r.value)
  {
    if |parts| == 0 then Ok([])
    else
      AllNumbersCons(parts);
      var first := Atoi(parts[0]);
      var rest := ParseParts(parts[1..]);
      if !first.Value? then Err("invalid syntax")
      else if rest.Err? then Err(rest.msg)
      else
        ReadsAsCons(parts, first.v, rest.value);
        Ok([first.v] + rest.value)
  }

  /** Go's versionToIntArray: one number per dot-separated part, or an error
      (with an empty slice) as soon as one part is not a number. */
  function VersionToIntArray(version: string): (r: Result<seq<int>>)
    ensures r.Ok? ==> |r.value| == |Split(version, '.')| >= 1
  {
    ParseParts(Split(version, '.'))
  }

  /** The version string "x.y.z" of a list of numbers. */
  function VersionString(xs: seq<int>): string {
    Join(Numerals(xs), '.')
  }

  /** Every numeral reads back as its number. */
  lemma {:induction false} ParseNumerals(xs: seq<Int64>)
    ensures ParseParts(Numerals(xs)) == Ok(xs)
    decreases |xs|
  {
    if |xs| > 0 {
      var parts := Numerals(xs);
      assert parts[0] == Itoa(xs[0]);
      assert parts[1..] == Numerals(xs[1..]);
      ParseNumerals(xs[1..]);
      AtoiItoa(xs[0]);
      assert Atoi(parts[0]) == Value(xs[0]);
      assert ParseParts(parts[1..]) == Ok(xs[1..]);
      assert ParseParts(parts) == Ok([xs[0]] + xs[1..]);
      assert [xs[0]] + xs[1..] == xs;
    }
  }

  /** Splitting a version string at the dots gives the numerals back. */
  lemma SplitVersion(xs: seq<Int64>)
    requires |xs| >= 1
    ensures Split(VersionString(xs), '.') == Numerals(xs)
  {
    var parts := Numerals(xs);
    forall k | 0 <= k < |parts|
      ensures '.' !in parts[k]
    {
      FormatIntAlphabet(xs[k], 10);
    }
    SplitJoin(parts, '.');
  }

  /** Reading a version written as dot-separated numbers gives the numbers
      back. */
  lemma VersionRoundTrip(xs: seq<Int64>)
    requires |xs| >= 1
    ensures VersionToIntArray(VersionString(xs)) == Ok(xs)
  {
    SplitVersion(xs);
    ParseNumerals(xs);
  }

  /** Go's isCompatibleVersions: both versions read, both have a major and a
      minor number, and those agree. */
  function IsCompatibleVersions(first: string, second: string): bool {
    var a := VersionToIntArray(first);
    var b := VersionToIntArray(second);
    a.Ok? && b.Ok? && |a.value| >= 2 && |b.value| >= 2
    && a.value[0] == b.value[0] && a.value[1] == b.value[1]
  }

  lemma CompatibleSymmetric(a: string, b: string)
    ensures IsCompatibleVersions(a, b) == IsCompatibleVersions(b, a)
  {
  }

  lemma CompatibleTransitive(a: string, b: string, c: string)
    requires IsCompatibleVersions(a, b) && IsCompatibleVersions(b, c)
    ensures IsCompatibleVersions(a, c)
  {
  }

  /** Two versions written from numbers are compatible exactly when they
      share the major and minor numbers. */
  lemma CompatibleNumbers(xs: seq<Int64>, ys: seq<Int64>)
    requires |xs| >= 2 && |ys| >= 2
    ensures IsCompatibleVersions(VersionString(xs), VersionString(ys)) <==> xs[..2] == ys[..2]
  {
    VersionRoundTrip(xs);
    VersionRoundTrip(ys);
    assert IsCompatibleVersions(VersionString(xs), VersionString(ys)) <==> xs[0] == ys[0] && xs[1] == ys[1];
    SamePair(xs, ys);
  }

  lemma SamePair(xs: seq<Int64>, ys: seq<Int64>)
    requires |xs| >= 2 && |ys| >= 2
    ensures xs[..2] == ys[..2] <==> xs[0] == ys[0] && xs[1] == ys[1]
  {
    if xs[..2] == ys[..2] {
      assert xs[..2][0] == ys[..2][0] && xs[..2][1] == ys[..2][1];
    }
  }

  /** The values of the ssh options for a server, in the order they are
      passed. */
  function OptionValues(s: Config.Settings): seq<string> {
    ["ConnectTimeout=" + Itoa(DefaultConnectTimeout), "LogLevel=ERROR",
     "ServerAliveInterval=" + Itoa(ServerAliveInterval),
     "ServerAliveCountMax=" + Itoa(ServerAliveCountMax)]
    + (if s.batchMode then ["BatchMode=yes"] else [])
    + ["StrictHostKeyChecking=no", "UserKnownHostsFile=/dev/null"]
    + (if s.port > 0 then ["Port=" + Itoa(s.port)] else [])
    + (if s.username != "" then ["User=" + s.username] else [])
    + (if s.compression then ["Compression=yes"] else [])
  }

  /** The option values that do not depend on a setting's text. */
  const FixedValues: seq<string> :=
    ["ConnectTimeout=" + Itoa(DefaultConnectTimeout), "LogLevel=ERROR",
     "ServerAliveInterval=" + Itoa(ServerAliveInterval),
     "ServerAliveCountMax=" + Itoa(ServerAliveCountMax),
     "StrictHostKeyChecking=no", "UserKnownHostsFile=/dev/null",
     "BatchMode=yes", "Compression=yes"]

  /** Each value preceded by "-o", as the option list is built. */
  function WithFlags(values: seq<string>): (r: seq<string>)
    ensures |r| == 2 * |values|
  {
    if |values| == 0 then [] else ["-o", values[0]] + WithFlags(values[1..])
  }

  /** Every even position holds "-o" and every odd one the next value. */
  lemma {:induction false} FlagsAtEven(values: seq<string>, i: nat)
    requires i < 2 * |values|
    ensures WithFlags(values)[i] == if i % 2 == 0 then "-o" else values[i / 2]
    decreases |values|
  {
    if i >= 2 {
      FlagsAtEven(values[1..], i - 2);
      assert WithFlags(values)[i] == WithFlags(values[1..])[i - 2];
    }
  }

  /** Apart from the flag itself, the option list holds exactly the
      values. */
  lemma {:induction false} WithFlagsMembers(values: seq<string>, x: string)
    requires x != "-o"
    ensures x in WithFlags(values) <==> x in values
    decreases |values|
  {
    if |values| > 0 {
      WithFlagsMembers(values[1..], x);
      assert WithFlags(values) == ["-o", values[0]] + WithFlags(values[1..]);
      assert values == [values[0]] + values[1..];
    }
  }

  lemma PrefixAt(x: string, p: string, k: nat)
    requires k < |p|
    ensures HasPrefix(x, p) ==> k < |x| && x[k] == p[k]
  {
    if HasPrefix(x, p) {
      assert x[..|p|][k] == x[k];
    }
  }

  /** Where each option value comes from. */
  lemma OptionForms(s: Config.Settings, x: string)
    requires x in OptionValues(s)
    ensures x in FixedValues || (s.port > 0 && x == "Port=" + Itoa(s.port))
      || (s.username != "" && x == "User=" + s.username)
    ensures x == "BatchMode=yes" ==> s.batchMode
    ensures x == "Compression=yes" ==> s.compression
  {
    var port, user := "Port=" + Itoa(s.port), "User=" + s.username;
    assert port[0] == 'P' && user[0] == 'U';
  }

  /** No fixed value looks like a Port or User option, or like the flag. */
  lemma FixedNotPrefixed(x: string)
    requires x in FixedValues
    ensures !HasPrefix(x, "Port=") && !HasPrefix(x, "User=") && x != "-o"
  {
    PrefixAt(x, "Port=", 0);
    PrefixAt(x, "User=", 0);
    PrefixAt(x, "User=", 4);
  }

  /** Go's sshOptions: the option list passed to every ssh invocation for a
      server. */
  function SshOptions(s: Config.Settings): (r: seq<string>)
    ensures |r| % 2 == 0 && |r| >= 12
    ensures forall i :: 0 <= i < |r| && i % 2 == 0 ==> r[i] == "-o"
    ensures r[1] == "ConnectTimeout=" + Itoa(DefaultConnectTimeout) && r[3] == "LogLevel=ERROR"
    ensures r[5] == "ServerAliveInterval=" + Itoa(ServerAliveInterval)
    ensures r[7] == "ServerAliveCountMax=" + Itoa(ServerAliveCountMax)
    ensures "StrictHostKeyChecking=no" in r && "UserKnownHostsFile=/dev/null" in r
    ensures "BatchMode=yes" in r <==> s.batchMode
    ensures "Compression=yes" in r <==> s.compression
    ensures s.port > 0 ==> "Port=" + Itoa(s.port) in r
    ensures forall x :: x in r && HasPrefix(x, "Port=") ==> s.port > 0
    ensures s.username != "" ==> "User=" + s.username in r
    ensures forall x :: x in r && HasPrefix(x, "User=") ==> s.username != ""
  {
    SshOptionsFacts(s);
    WithFlags(OptionValues(s))
  }

  lemma SshOptionsFacts(s: Config.Settings)
    ensures var r := WithFlags(OptionValues(s));
      && |r| % 2 == 0 && |r| >= 12
      && (forall i :: 0 <= i < |r| && i % 2 == 0 ==> r[i] == "-o")
      && r[1] == "ConnectTimeout=" + Itoa(DefaultConnectTimeout) && r[3] == "LogLevel=ERROR"
      && r[5] == "ServerAliveInterval=" + Itoa(ServerAliveInterval)
      && r[7] == "ServerAliveCountMax=" + Itoa(ServerAliveCountMax)
      && "StrictHostKeyChecking=no" in r && "UserKnownHostsFile=/dev/null" in r
      && ("BatchMode=yes" in r <==> s.batchMode)
      && ("Compression=yes" in r <==> s.compression)
      && (s.port > 0 ==> "Port=" + Itoa(s.port) in r)
      && (forall x :: x in r && HasPrefix(x, "Port=") ==> s.port > 0)
      && (s.username != "" ==> "User=" + s.username in r)
      && (forall x :: x in r && HasPrefix(x, "User=") ==> s.username != "")
  {
    var v := OptionValues(s);
    var r := WithFlags(v);
    OptionLayout(v);
    OptionMembers(s);
    forall x | x != "-o"
      ensures x in r <==> x in v
    {
      WithFlagsMembers(v, x);
    }
  }

  /** The flags sit at the even positions, the first four values at the
      first odd ones. */
  lemma OptionLayout(v: seq<string>)
    requires |v| >= 6
    ensures var r := WithFlags(v);
      && |r| % 2 == 0 && |r| >= 12
      && (forall i :: 0 <= i < |r| && i % 2 == 0 ==> r[i] == "-o")
      && r[1] == v[0] && r[3] == v[1] && r[5] == v[2] && r[7] == v[3]
  {
    var r := WithFlags(v);
    forall i | 0 <= i < |r| && i % 2 == 0
      ensures r[i] == "-o"
    {
      FlagsAtEven(v, i);
    }
    FlagsAtEven(v, 1);
    FlagsAtEven(v, 3);
    FlagsAtEven(v, 5);
    FlagsAtEven(v, 7);
  }

  /** Which values the list holds, depending on the settings. */
  lemma OptionMembers(s: Config.Settings)
    ensures var v := OptionValues(s);
      && |v| >= 6
      && v[0] == "ConnectTimeout=" + Itoa(DefaultConnectTimeout) && v[1] == "LogLevel=ERROR"
      && v[2] == "ServerAliveInterval=" + Itoa(ServerAliveInterval)
      && v[3] == "ServerAliveCountMax=" + Itoa(ServerAliveCountMax)
      && "StrictHostKeyChecking=no" in v && "UserKnownHostsFile=/dev/null" in v
      && ("BatchMode=yes" in v <==> s.batchMode)
      && ("Compression=yes" in v <==> s.compression)
      && (s.port > 0 ==> "Port=" + Itoa(s.port) in v)
      && (forall x :: x in v && HasPrefix(x, "Port=") ==> s.port > 0)
      && (s.username != "" ==> "User=" + s.username in v)
      && (forall x :: x in v && HasPrefix(x, "User=") ==> s.username != "")
      && "-o" !in v
  {
    var v := OptionValues(s);
    forall x | x in FixedValues
      ensures !HasPrefix(x, "Port=") && !HasPrefix(x, "User=") && x != "-o"
    {
      FixedNotPrefixed(x);
    }
    forall x | x in v
      ensures x != "-o"
      ensures x == "BatchMode=yes" ==> s.batchMode
      ensures x == "Compression=yes" ==> s.compression
      ensures HasPrefix(x, "Port=") ==> s.port > 0
      ensures HasPrefix(x, "User=") ==> s.username != ""
    {
      OptionForms(s, x);
    }
  }

  /** The blank padding `_progress` puts after a message's prefix, so that
      messages line up at column 15 unless the prefix is already wider. */
  function ProgressPadding(prefix: string): (n: nat)
    ensures n >= 1
    ensures |prefix| < 15 ==> |prefix| + n == 15
    ensures |prefix| >= 14 ==> n == 1
  {
    if 15 - |prefix| <= 0 then 1 else 15 - |prefix|
  }
}
