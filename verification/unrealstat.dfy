/** The file metadata record the tool compares and ships (`UnrealStat`), its
    one-line text form, and the change test `StatsEqual`. */
module UnrealStat {
  import opened Base
  import opened Numbers

  /** Go's uint32, the width of os.FileMode. */
  type Uint32 = x: int | 0 <= x < 0x1_0000_0000

  datatype Stat = Stat(
    name: string,
    isDir: bool,
    isLink: bool,
    mode: Int16,
    mtime: Int64,
    size: Int64,
    hash: string)

  /** The record every field of which Unserialize starts from. */
  const Zero := Stat("", false, false, 0, 0, 0, "")

  /** What survives a trip through the text form: everything but the name and
      the cached hash. */
  function Shipped(s: Stat): Stat {
    s.(name := "", hash := "")
  }

  /** The text form: optional "dir " and "symlink " markers, then the mode in
      octal and the modification time and size in decimal. */
  function Serialize(p: Stat): string {
    (if p.isDir then "dir " else "") + (if p.isLink then "symlink " else "") + Fields(p)
  }

  /** Go's `fmt.Sprintf("mode=%o mtime=%d size=%v", ...)` on the record. */
  function Fields(p: Stat): string {
    "mode=" + FormatInt(p.mode, 8) + " mtime=" + Itoa(p.mtime) + " size=" + Itoa(p.size)
  }

  /** One blank-separated token of the text form, applied to the record
      being rebuilt: unknown tokens are skipped and a number that does not
      parse leaves whatever ParseInt hands back alongside its error. */
  function ApplyToken(acc: Stat, part: string): Stat {
    if part == "dir" then acc.(isDir := true)
    else if part == "symlink" then acc.(isLink := true)
    else if HasPrefix(part, "mode=") then
      acc.(mode := ParseInt(part[|"mode="|..], 8, 16).Or())
    else if HasPrefix(part, "mtime=") then
      acc.(mtime := ParseInt(part[|"mtime="|..], 10, 64).Or())
    else if HasPrefix(part, "size=") then
      acc.(size := ParseInt(part[|"size="|..], 10, 64).Or())
    else acc
  }

  function ApplyTokens(acc: Stat, parts: seq<string>): Stat
    decreases |parts|
  {
    if |parts| == 0 then acc else ApplyTokens(ApplyToken(acc, parts[0]), parts[1..])
  }

  /** Go's UnrealStatUnserialize: total, it never reports an error. */
  function Unserialize(input: string): Stat {
    ApplyTokens(Zero, Split(input, ' '))
  }

  /** The tokens of the text form, in the order they are written. */
  function Tokens(p: Stat): seq<string> {
    (if p.isDir then ["dir"] else [])
    + (if p.isLink then ["symlink"] else [])
    + ["mode=" + FormatInt(p.mode, 8), "mtime=" + Itoa(p.mtime), "size=" + Itoa(p.size)]
  }

  lemma NoBlankInNumber(x: int, base: nat)
    requires 2 <= base <= 10
    ensures ' ' !in FormatInt(x, base)
  {
    FormatIntAlphabet(x, base);
  }

  lemma Join3(a: string, b: string, c: string)
    ensures Join([a, b, c], ' ') == a + " " + b + " " + c
  {
    JoinFront(a, [b, c], ' ');
    JoinFront(b, [c], ' ');
    assert [a, b, c] == [a] + [b, c];
    assert [b, c] == [b] + [c];
  }

  lemma Concat3(x: string, y: string, w: string, t: string, z: string)
    requires t == "mtime=" + y && z == "size=" + w
    ensures x + " mtime=" + y + " size=" + w == x + " " + t + " " + z
  {
    assert " mtime=" + y == " " + t;
    assert " size=" + w == " " + z;
  }

  lemma FieldsJoin(p: Stat)
    ensures Fields(p) == Join(["mode=" + FormatInt(p.mode, 8), "mtime=" + Itoa(p.mtime), "size=" + Itoa(p.size)], ' ')
  {
    var x, y, w := FormatInt(p.mode, 8), Itoa(p.mtime), Itoa(p.size);
    Join3("mode=" + x, "mtime=" + y, "size=" + w);
    Concat3("mode=" + x, y, w, "mtime=" + y, "size=" + w);
  }

  lemma NoBlankInTokens(p: Stat)
    ensures forall k :: 0 <= k < |Tokens(p)| ==> ' ' !in Tokens(p)[k]
  {
    NoBlankInNumber(p.mode, 8);
    NoBlankInNumber(p.mtime, 10);
    NoBlankInNumber(p.size, 10);
    var m, t, z := "mode=" + FormatInt(p.mode, 8), "mtime=" + Itoa(p.mtime), "size=" + Itoa(p.size);
    assert ' ' !in m && ' ' !in t && ' ' !in z;
  }

  /** A marker word in front of a joined list. */
  lemma JoinMarker(b: bool, word: string, rest: seq<string>)
    requires |rest| >= 1
    ensures Join((if b then [word] else []) + rest, ' ') == (if b then word + " " else "") + Join(rest, ' ')
  {
    if b {
      JoinFront(word, rest, ' ');
    } else {
      assert [] + rest == rest;
    }
  }

  /** The text form is exactly its tokens joined by single blanks, and no
      token holds a blank. */
  lemma SerializeIsJoin(p: Stat)
    ensures Join(Tokens(p), ' ') == Serialize(p)
  {
    var core := ["mode=" + FormatInt(p.mode, 8), "mtime=" + Itoa(p.mtime), "size=" + Itoa(p.size)];
    var linkPart := (if p.isLink then ["symlink"] else []) + core;
    FieldsJoin(p);
    JoinMarker(p.isLink, "symlink", core);
    JoinMarker(p.isDir, "dir", linkPart);
  }

  lemma SerializeTokens(p: Stat)
    ensures Split(Serialize(p), ' ') == Tokens(p)
  {
    SerializeIsJoin(p);
    NoBlankInTokens(p);
    SplitJoin(Tokens(p), ' ');
  }

  lemma ApplyMode(acc: Stat, x: Int16)
    ensures ApplyToken(acc, "mode=" + FormatInt(x, 8)) == acc.(mode := x)
  {
    var m := "mode=" + FormatInt(x, 8);
    FormatParse(x, 8, 16);
    assert m[|"mode="|..] == FormatInt(x, 8);
    assert m[..5] == "mode=";
    assert m != "dir" && m != "symlink" by { assert m[0] == 'm'; }
  }

  lemma ApplyMtime(acc: Stat, x: Int64)
    ensures ApplyToken(acc, "mtime=" + Itoa(x)) == acc.(mtime := x)
  {
    var t := "mtime=" + Itoa(x);
    FormatParse(x, 10, 64);
    assert t[|"mtime="|..] == Itoa(x);
    assert t[..6] == "mtime=";
    assert t != "dir" && t != "symlink" by { assert t[0] == 'm'; }
    assert !HasPrefix(t, "mode=") by { assert t[..5][1] == 't'; }
  }

  lemma ApplySize(acc: Stat, x: Int64)
    ensures ApplyToken(acc, "size=" + Itoa(x)) == acc.(size := x)
  {
    var z := "size=" + Itoa(x);
    FormatParse(x, 10, 64);
    assert z[|"size="|..] == Itoa(x);
    assert HasPrefix(z, "size=") by { assert z[..5] == "size="; }
    assert z[0] == 's' && z[1] == 'i';
    assert z != "dir" && z != "symlink";
    FirstCharDiffers(z, "mode=");
    FirstCharDiffers(z, "mtime=");
  }

  lemma FirstCharDiffers(s: string, prefix: string)
    requires |s| > 0 && |prefix| > 0 && s[0] != prefix[0]
    ensures !HasPrefix(s, prefix)
  {
    if |prefix| <= |s| {
      assert s[..|prefix|][0] == s[0];
    }
  }

  lemma ApplyNumbers(acc: Stat, p: Stat)
    ensures ApplyTokens(acc, ["mode=" + FormatInt(p.mode, 8), "mtime=" + Itoa(p.mtime), "size=" + Itoa(p.size)])
         == acc.(mode := p.mode, mtime := p.mtime, size := p.size)
  {
    var m, t, z := "mode=" + FormatInt(p.mode, 8), "mtime=" + Itoa(p.mtime), "size=" + Itoa(p.size);
    var a1 := acc.(mode := p.mode);
    var a2 := a1.(mtime := p.mtime);
    var a3 := a2.(size := p.size);
    assert [m, t, z][0] == m && [m, t, z][1..] == [t, z];
    assert [t, z][0] == t && [t, z][1..] == [z];
    assert [z][0] == z && [z][1..] == [];
    calc {
      ApplyTokens(acc, [m, t, z]);
      ApplyTokens(ApplyToken(acc, m), [t, z]);
      { ApplyMode(acc, p.mode); }
      ApplyTokens(a1, [t, z]);
      ApplyTokens(ApplyToken(a1, t), [z]);
      { ApplyMtime(a1, p.mtime); }
      ApplyTokens(a2, [z]);
      ApplyTokens(ApplyToken(a2, z), []);
      { ApplySize(a2, p.size); }
      ApplyTokens(a3, []);
    }
  }

  lemma ApplyCons(acc: Stat, t: string, rest: seq<string>)
    ensures ApplyTokens(acc, [t] + rest) == ApplyTokens(ApplyToken(acc, t), rest)
  {
    assert ([t] + rest)[0] == t && ([t] + rest)[1..] == rest;
  }

  /** The leading markers set the directory and symlink flags. */
  lemma Markers(d: bool, l: bool, nums: seq<string>)
    ensures ApplyTokens(Zero, (if d then ["dir"] else []) + (if l then ["symlink"] else []) + nums)
         == ApplyTokens(Zero.(isDir := d, isLink := l), nums)
  {
    var after := (if l then ["symlink"] else []) + nums;
    if d {
      assert (if d then ["dir"] else []) + (if l then ["symlink"] else []) + nums == ["dir"] + after;
      ApplyCons(Zero, "dir", after);
    } else {
      assert (if d then ["dir"] else []) + (if l then ["symlink"] else []) + nums == after;
    }
    var z := Zero.(isDir := d);
    if l {
      ApplyCons(z, "symlink", nums);
    } else {
      assert after == nums;
    }
  }

  /** Unserialize(Serialize(s)) gives back the directory and symlink flags,
      the mode, the modification time and the size; the name and hash come
      back empty. */
  lemma SerializeRoundTrip(p: Stat)
    ensures Unserialize(Serialize(p)) == Shipped(p)
  {
    SerializeTokens(p);
    var nums := ["mode=" + FormatInt(p.mode, 8), "mtime=" + Itoa(p.mtime), "size=" + Itoa(p.size)];
    var flagged := Zero.(isDir := p.isDir, isLink := p.isLink);
    Markers(p.isDir, p.isLink, nums);
    ApplyNumbers(flagged, p);
  }

  /** The text form is one line that does not start with '-', so it cannot
      run into the diff separator that follows it. */
  lemma SerializeOneLine(p: Stat)
    ensures |Serialize(p)| >= 1 && Serialize(p)[0] != '-'
    ensures '\n' !in Serialize(p)
  {
    FormatIntAlphabet(p.mode, 8);
    FormatIntAlphabet(p.mtime, 10);
    FormatIntAlphabet(p.size, 10);
    var m, t, z := FormatInt(p.mode, 8), Itoa(p.mtime), Itoa(p.size);
    assert '\n' !in m && '\n' !in t && '\n' !in z;
    assert Fields(p) == "mode=" + m + " mtime=" + t + " size=" + z;
  }

  /** The text form never exceeds 80 characters. */
  lemma SerializeShort(p: Stat)
    ensures |Serialize(p)| <= 80
  {
    assert Power(8, 6) == 262144 by {
      assert Power(8, 3) == 512;
    }
    assert Power(10, 19) == 10_000_000_000_000_000_000 by {
      assert Power(10, 5) == 100_000;
      assert Power(10, 10) == 10_000_000_000 by {
        assert Power(10, 10) == 100_000 * Power(10, 5) by {
          PowerAdd(10, 5, 5);
        }
      }
      assert Power(10, 19) == 1_000_000_000 * Power(10, 10) by {
        PowerAdd(10, 9, 10);
        assert Power(10, 9) == 10_000 * Power(10, 5) by {
          PowerAdd(10, 4, 5);
        }
      }
    }
    FormatIntWithin(p.mode, 8, 6);
    FormatIntWithin(p.mtime, 10, 19);
    FormatIntWithin(p.size, 10, 19);
  }

  /** A token the text form does not know changes nothing, wherever it
      appears. */
  lemma {:induction false} UnknownTokenIgnored(acc: Stat, before: seq<string>, t: string, after: seq<string>)
    requires t != "dir" && t != "symlink"
    requires !HasPrefix(t, "mode=") && !HasPrefix(t, "mtime=") && !HasPrefix(t, "size=")
    ensures ApplyTokens(acc, before + [t] + after) == ApplyTokens(acc, before + after)
    decreases |before|
  {
    if |before| == 0 {
      assert before + [t] + after == [t] + after;
      assert ([t] + after)[1..] == after;
      assert before + after == after;
    } else {
      assert (before + [t] + after)[1..] == before[1..] + [t] + after;
      assert (before + after)[1..] == before[1..] + after;
      UnknownTokenIgnored(ApplyToken(acc, before[0]), before[1..], t, after);
    }
  }

  /** A number field that does not parse reads as zero: the parse error is
      dropped, never reported. */
  lemma BadNumberReadsZero(acc: Stat, v: string)
    requires ParseInt(v, 8, 16) == SyntaxError
    ensures ApplyToken(acc, "mode=" + v) == acc.(mode := 0)
  {
    assert ("mode=" + v)[|"mode="|..] == v;
    assert HasPrefix("mode=" + v, "mode=");
    assert ("mode=" + v)[0] == 'm';
  }

  /** A mode whose digits run past 16 bits before anything else goes wrong
      reads as the largest int16: Go's scan stops with a range error at the
      first digit that overflows and keeps the clamped value. */
  lemma OverflowingModeClamps(acc: Stat, v: string)
    requires |v| > 0 && IsDigit(v[0]) && Overflows(v, 8, 0xFFFF)
    ensures ApplyToken(acc, "mode=" + v) == acc.(mode := 0x7FFF)
  {
    assert ("mode=" + v)[|"mode="|..] == v;
    assert HasPrefix("mode=" + v, "mode=");
    assert ("mode=" + v)[0] == 'm';
  }

  /** `mode=1777777x`: the seventh digit already overflows, so the stray
      letter after it is never looked at. */
  lemma OverflowBeforeBadDigit(acc: Stat)
    ensures ApplyToken(acc, "mode=1777777x") == acc.(mode := 0x7FFF)
  {
    var v := "1777777x";
    assert v[..|v| - 1] == "1777777";
    assert DigitsIn("1777777", 8);
    assert DigitsValue("1", 8) == 1;
    assert DigitsValue("17", 8) == 15 by { assert "17"[..1] == "1"; }
    assert DigitsValue("177", 8) == 127 by { assert "177"[..2] == "17"; }
    assert DigitsValue("1777", 8) == 1023 by { assert "1777"[..3] == "177"; }
    assert DigitsValue("17777", 8) == 8191 by { assert "17777"[..4] == "1777"; }
    assert DigitsValue("177777", 8) == 0xFFFF by { assert "177777"[..5] == "17777"; }
    assert DigitsValue("1777777", 8) == 0x7FFFF by { assert "1777777"[..6] == "177777"; }
    assert Overflows(v, 8, 0xFFFF);
    assert "mode=1777777x" == "mode=" + v;
    OverflowingModeClamps(acc, v);
  }

  /** Whether content hashing is switched on (the -hash-check flag), and the
      content digest of a path when it is. */
  datatype HashMode = NoHashCheck | HashCheck(md5: string -> string)

  /** Go's UnrealStat.Hash: the cached digest, computed from the file named
      by the record when none is cached. */
  function HashOf(s: Stat, hm: HashMode): string
    requires hm.HashCheck?
  {
    if s.hash == "" then hm.md5(s.name) else s.hash
  }

  /** Go's hashEqual: false whenever hashing is off. */
  function HashEqual(newStat: Stat, oldStat: Stat, hm: HashMode): (r: bool)
    ensures hm.NoHashCheck? ==> !r
  {
    match hm
    case NoHashCheck => false
    case HashCheck(_) => oldStat.hash == HashOf(newStat, hm)
  }

  /** Go's StatsEqual: has anything the tool ships changed between the
      recorded `oldStat` and the current `newStat`? Kind changes always
      count; the permission bits count unless the old entry is a symlink;
      the size counts unless it is a directory; the modification time counts
      only for regular files, and then only when the contents' digest does
      not vouch for them. */
  function StatsEqual(newStat: Stat, oldStat: Stat, hm: HashMode): (r: bool)
    ensures r ==> newStat.isDir == oldStat.isDir && newStat.isLink == oldStat.isLink
    ensures r && !oldStat.isLink ==> newStat.mode % 512 == oldStat.mode % 512
    ensures r && !oldStat.isDir ==> newStat.size == oldStat.size
    ensures hm.NoHashCheck? && r && !oldStat.isLink && !oldStat.isDir ==> newStat.mtime == oldStat.mtime
    ensures Shipped(newStat) == Shipped(oldStat) ==> r
  {
    if newStat.isDir != oldStat.isDir then false
    else if newStat.isLink != oldStat.isLink then false
    else if !oldStat.isLink && oldStat.mode % 512 != newStat.mode % 512 then false
    else if !oldStat.isDir && oldStat.size != newStat.size then false
    else if !oldStat.isLink && !oldStat.isDir && oldStat.mtime != newStat.mtime
         && !HashEqual(newStat, oldStat, hm) then false
    else true
  }

  /** Every record equals itself, whatever the hash setting. */
  lemma StatsEqualReflexive(s: Stat, hm: HashMode)
    ensures StatsEqual(s, s, hm)
  {
  }

  /** Only the low nine permission bits take part in the comparison. */
  lemma StatsEqualModeBits(n: Stat, o: Stat, m: Int16, hm: HashMode)
    requires m % 512 == n.mode % 512
    ensures StatsEqual(n.(mode := m), o, hm) == StatsEqual(n, o, hm)
  {
  }

  /** Without hash checking, a regular file with the same kind, permission
      bits and size is unchanged exactly when its modification time is. */
  lemma StatsEqualRegularFile(n: Stat, o: Stat)
    requires !o.isDir && !o.isLink && !n.isDir && !n.isLink
    requires n.mode % 512 == o.mode % 512 && n.size == o.size
    ensures StatsEqual(n, o, NoHashCheck) <==> n.mtime == o.mtime
  {
  }

  /** A directory's size and modification time never make it "changed". */
  lemma StatsEqualDirIgnoresSizeAndTime(n: Stat, o: Stat, size: Int64, mtime: Int64, hm: HashMode)
    requires o.isDir
    ensures StatsEqual(n.(size := size, mtime := mtime), o, hm) == StatsEqual(n, o, hm)
  {
  }

  /** Against a symlink, neither the mode (which cannot be changed on a
      link) nor the modification time (which cannot be set on one) matters. */
  lemma StatsEqualLinkIgnoresModeAndTime(n: Stat, o: Stat, mode: Int16, mtime: Int64, hm: HashMode)
    requires o.isLink
    ensures StatsEqual(n.(mode := mode, mtime := mtime), o, hm) == StatsEqual(n, o, hm)
  {
  }

  /** os.FileInfo as Lstat or Readdir reports it; `data` is what reading the
      file (or the link, for a symlink) yields. */
  datatype FileInfo = FileInfo(name: string, mode: Uint32, modTime: Int64, size: Int64, data: string) {
    /** os.ModeDir is bit 31 of the file mode. */
    predicate IsDir() {
      mode / 0x8000_0000 % 2 == 1
    }

    /** os.ModeSymlink is bit 27 of the file mode. */
    predicate IsSymlink() {
      mode / 0x800_0000 % 2 == 1
    }
  }

  /** Go's UnrealStatFromStat: the kind bits, the permission bits
      (`mode & 0777`), the time and size, and no cached hash. */
  function FromFileInfo(path: string, info: FileInfo): (r: Stat)
    ensures r.name == path && r.hash == ""
    ensures r.isDir == info.IsDir() && r.isLink == info.IsSymlink()
    ensures 0 <= r.mode < 512 && r.mode == info.mode % 512
    ensures r.mtime == info.modTime && r.size == info.size
  {
    Stat(path, info.IsDir(), info.IsSymlink(), info.mode % 512, info.modTime, info.size, "")
  }
}
