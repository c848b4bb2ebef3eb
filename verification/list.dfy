/** Brace expansion of server-name patterns (list/list.go): the first
    `{…}` block of a pattern is expanded into one pattern per comma-separated
    alternative, after every `n..m` interval inside it has been rewritten as
    the list of its numbers; expansion repeats until no `{` is left. Glob
    matches a subject against every expansion. */
module List {
  import opened Base
  import opened Numbers

  /* ---------- character counts ---------- */

  lemma {:induction false} CountPositive(s: string, c: char)
    requires c in s
    ensures Count(s, c) >= 1
    decreases |s|
  {
    if s[|s| - 1] != c {
      assert c in s[..|s| - 1] by {
        var i :| 0 <= i < |s| && s[i] == c;
        assert s[..|s| - 1][i] == c;
      }
      CountPositive(s[..|s| - 1], c);
    }
  }

  lemma Count3(a: string, b: string, c: string, x: char)
    ensures Count(a + b + c, x) == Count(a, x) + Count(b, x) + Count(c, x)
  {
    CountAppend(a + b, c, x);
    CountAppend(a, b, x);
  }

  /** A character other than the separator that no part holds is not in
      the joined string. */
  lemma {:induction false} NotInJoin(parts: seq<string>, c: char, x: char)
    requires x != c
    requires forall k :: 0 <= k < |parts| ==> x !in parts[k]
    ensures x !in Join(parts, c)
    decreases |parts|
  {
    if |parts| > 1 {
      NotInJoin(parts[1..], c, x);
    }
  }

  /** Each part holds no more of a character than the joined string. */
  lemma {:induction false} PartCount(parts: seq<string>, c: char, x: char, k: nat)
    requires k < |parts|
    ensures Count(parts[k], x) <= Count(Join(parts, c), x)
    decreases |parts|
  {
    if |parts| > 1 {
      var rest := Join(parts[1..], c);
      Count3(parts[0], [c], rest, x);
      if k > 0 {
        PartCount(parts[1..], c, x, k - 1);
      }
    }
  }

  /** strings.Split yields one more piece than there are separators. */
  lemma {:induction false} SplitCount(s: string, c: char)
    ensures |Split(s, c)| == Count(s, c) + 1
    decreases |s|
  {
    var i := IndexOfChar(s, c);
    if i < 0 {
      CountAbsent(s, c);
    } else {
      assert s == s[..i] + [c] + s[i + 1..];
      Count3(s[..i], [c], s[i + 1..], c);
      CountAbsent(s[..i], c);
      assert [c][..0] == [];
      SplitCount(s[i + 1..], c);
    }
  }

  /* ---------- computeOffsets ---------- */

  /** Where the first `{` and the first `}` of a pattern are. */
  datatype Offsets = NoBlock | Block(start: nat, end: nat)

  /** Go's computeOffsets: no `{` at all, or an error when there is no `}`
      or fewer than one character between the first `{` and the first `}`
      (which also covers a `}` before the `{`). */
  function ComputeOffsets(pattern: string): (r: Result<Offsets>)
    ensures (r.Ok? && r.value.NoBlock?) <==> '{' !in pattern
    ensures r.Err? <==> ('{' in pattern
      && ('}' !in pattern || IndexOfChar(pattern, '}') - IndexOfChar(pattern, '{') < 2))
    ensures r.Ok? && r.value.Block? ==>
      && r.value.start + 2 <= r.value.end < |pattern|
      && pattern[r.value.start] == '{' && pattern[r.value.end] == '}'
      && (forall i :: 0 <= i < r.value.start ==> pattern[i] != '{')
  {
    var start := IndexOfChar(pattern, '{');
    if start < 0 then Ok(NoBlock)
    else
      var end := IndexOfChar(pattern, '}');
      if end < 0 then Err("No terminating '}' found in ")
      else if end - start < 2 then Err("Empty pattern between {}")
      else Ok(Block(start, end))
  }

  /* ---------- intervals ---------- */

  /** The number of ASCII digits right before position `at` of `p`: the
      scan of computeIntervalStart. */
  function DigitsBefore(p: string, at: nat): (k: nat)
    requires at <= |p|
    ensures k <= at
    ensures forall i :: at - k <= i < at ==> IsDigit(p[i])
    ensures k < at ==> !IsDigit(p[at - k - 1])
  {
    if at == 0 || !IsDigit(p[at - 1]) then 0 else DigitsBefore(p, at - 1) + 1
  }

  /** The number of ASCII digits from position `i` of `p` on: the scan of
      computeIntervalEnd. */
  function DigitsFrom(p: string, i: nat): (k: nat)
    requires i <= |p|
    ensures i + k <= |p|
    ensures forall n :: i <= n < i + k ==> IsDigit(p[n])
    ensures i + k < |p| ==> !IsDigit(p[i + k])
    decreases |p| - i
  {
    if i == |p| || !IsDigit(p[i]) then 0 else DigitsFrom(p, i + 1) + 1
  }

  /** An interval `n..m` found in a pattern: the text before the digits of
      `n`, both digit runs, and the text after the digits of `m`. */
  datatype Interval = Interval(before: string, from: string, to: string, after: string)

  /** Go's expandInterval up to the rewriting, with computeIntervalStart and
      computeIntervalEnd: the first `..`, the digits right before it and
      right after it, which must end the pattern or be followed by a comma.
      `None` when there is no `..`. */
  function ParseInterval(p: string): (r: Result<Option<Interval>>)
    ensures (r.Ok? && r.value.None?) <==> IndexOf(p, "..") < 0
    ensures r.Ok? && r.value.Some? ==> WellSplit(p, r.value.value)
    ensures r.Ok? && r.value.Some? ==> Atoi(r.value.value.from).Value? && Atoi(r.value.value.to).Value?
  {
    var at := IndexOf(p, "..");
    if at < 0 then Ok(None)
    else
      var k := DigitsBefore(p, at);
      var from := p[at - k..at];
      if k == 0 then Err("No digits before '..'")
      else if !Atoi(from).Value? then Err("invalid syntax")
      else
        var j := DigitsFrom(p, at + 2);
        var to := p[at + 2..at + 2 + j];
        if at + 2 + j < |p| && p[at + 2 + j] != ',' then Err("Found non-comma terminating character")
        else if j == 0 then Err("No digits after '..'")
        else if !Atoi(to).Value? then Err("invalid syntax")
        else
          var iv := Interval(p[..at - k], from, to, p[at + 2 + j..]);
          IntervalPieces(p, at, k, j, iv);
          Ok(Some(iv))
  }

  /** How an interval sits in the pattern it was found in. */
  predicate WellSplit(p: string, iv: Interval) {
    && p == iv.before + iv.from + ".." + iv.to + iv.after
    && |iv.from| > 0 && |iv.to| > 0 && AllDigits(iv.from) && AllDigits(iv.to)
    && (|iv.after| == 0 || iv.after[0] == ',')
    && (|iv.before| == 0 || !IsDigit(iv.before[|iv.before| - 1]))
  }

  lemma IntervalPieces(p: string, at: nat, k: nat, j: nat, iv: Interval)
    requires OccursAt(p, "..", at) && 0 < k <= at && 0 < j <= |p| - at - 2
    requires forall i :: at - k <= i < at ==> IsDigit(p[i])
    requires forall i :: at + 2 <= i < at + 2 + j ==> IsDigit(p[i])
    requires k < at ==> !IsDigit(p[at - k - 1])
    requires at + 2 + j == |p| || p[at + 2 + j] == ','
    requires iv == Interval(p[..at - k], p[at - k..at], p[at + 2..at + 2 + j], p[at + 2 + j..])
    ensures WellSplit(p, iv)
  {
    PrefixConcat(p, at - k, at);
    PrefixConcat(p, at, at + 2);
    PrefixConcat(p, at + 2, at + 2 + j);
    PrefixConcat(p, at + 2 + j, |p|);
    assert p[at..at + 2] == "..";
    assert p[..|p|] == p;
  }

  /** The integers from `lo` to `hi`, ascending. */
  function Range(lo: int, hi: int): (r: seq<int>)
    ensures |r| == if lo <= hi then hi - lo + 1 else 0
    ensures forall i :: 0 <= i < |r| ==> r[i] == lo + i
    decreases hi - lo
  {
    if lo > hi then [] else [lo] + Range(lo + 1, hi)
  }

  /** The loop of expandInterval: every number from `lo` to `hi`, each
      followed by a comma. */
  function Listing(lo: int, hi: int): string
    decreases hi - lo
  {
    if lo > hi then "" else Itoa(lo) + "," + Listing(lo + 1, hi)
  }

  /** Go's strings.TrimRight with a one-character cutset. */
  function TrimRight(s: string, c: char): (r: string)
    ensures |r| <= |s| && r == s[..|r|]
    ensures |r| > 0 ==> r[|r| - 1] != c
  {
    if |s| > 0 && s[|s| - 1] == c then TrimRight(s[..|s| - 1], c) else s
  }

  /** Go's expandInterval: the first interval replaced by its numbers,
      separated by commas. */
  function ExpandInterval(p: string): (r: Result<Option<string>>)
    ensures r.Err? <==> ParseInterval(p).Err?
    ensures (r.Ok? && r.value.None?) <==> IndexOf(p, "..") < 0
  {
    match ParseInterval(p)
    case Err(e) => Err(e)
    case Ok(None) => Ok(None)
    case Ok(Some(iv)) =>
      var a, b := Atoi(iv.from).v, Atoi(iv.to).v;
      var lo, hi := if a <= b then a else b, if a <= b then b else a;
      Ok(Some(TrimRight(iv.before + Listing(lo, hi), ',') + iv.after))
  }

  /** The listing is the numerals joined by commas, plus one comma. */
  lemma {:induction false} ListingJoin(lo: int, hi: int)
    requires lo <= hi
    ensures Listing(lo, hi) == Join(Numerals(Range(lo, hi)), ',') + ","
    decreases hi - lo
  {
    var xs := Range(lo, hi);
    assert xs == [lo] + Range(lo + 1, hi);
    assert Numerals(xs) == [Itoa(lo)] + Numerals(Range(lo + 1, hi)) by {
      assert xs[1..] == Range(lo + 1, hi);
    }
    if lo < hi {
      ListingJoin(lo + 1, hi);
    }
  }

  /** A join ends with the last character of its last part. */
  lemma {:induction false} JoinEnds(parts: seq<string>, c: char)
    requires |parts| >= 1 && |parts[|parts| - 1]| > 0
    ensures var j, last := Join(parts, c), parts[|parts| - 1];
      |j| > 0 && j[|j| - 1] == last[|last| - 1]
    decreases |parts|
  {
    if |parts| > 1 {
      JoinEnds(parts[1..], c);
    }
  }

  /** Decimal numerals of non-negative numbers are digits only. */
  lemma NumeralDigits(x: int)
    requires x >= 0
    ensures |Itoa(x)| >= 1 && AllDigits(Itoa(x))
    ensures forall ch :: ch in Itoa(x) ==> IsDigit(ch)
  {
    assert Itoa(x) == NatDigits(x, 10);
  }

  /** The numbers of an interval, comma-separated, hold no dot or brace. */
  lemma RangeAlphabet(lo: int, hi: int, x: char)
    requires 0 <= lo <= hi
    requires !IsDigit(x) && x != ','
    ensures x !in Join(Numerals(Range(lo, hi)), ',')
  {
    var ns := Numerals(Range(lo, hi));
    forall k | 0 <= k < |ns|
      ensures x !in ns[k]
    {
      NumeralDigits(Range(lo, hi)[k]);
    }
    NotInJoin(ns, ',', x);
  }

  /** TrimRight removes the one trailing separator after a last character
      that is not one. */
  lemma TrimOne(x: string, c: char)
    requires |x| > 0 && x[|x| - 1] != c
    ensures TrimRight(x + [c], c) == x
  {
    assert (x + [c])[..|x|] == x;
  }

  /** The numbers of the loop, with the trailing comma trimmed. */
  lemma ListingTrimmed(before: string, lo: int, hi: int)
    requires 0 <= lo <= hi
    ensures TrimRight(before + Listing(lo, hi), ',') == before + Join(Numerals(Range(lo, hi)), ',')
  {
    var ns := Numerals(Range(lo, hi));
    ListingJoin(lo, hi);
    NumeralDigits(hi);
    assert ns[|ns| - 1] == Itoa(hi);
    JoinEnds(ns, ',');
    TrimAppended(before, Join(ns, ','), ',');
  }

  lemma TrimAppended(before: string, j: string, c: char)
    requires |j| > 0 && j[|j| - 1] != c
    ensures TrimRight(before + (j + [c]), c) == before + j
  {
    assert before + (j + [c]) == (before + j) + [c];
    TrimOne(before + j, c);
  }

  /** `n..m` becomes every integer from min(n, m) to max(n, m), ascending
      and comma-separated, with the text around the interval kept. */
  lemma IntervalExpansion(p: string)
    requires ParseInterval(p).Ok? && ParseInterval(p).value.Some?
    ensures var iv := ParseInterval(p).value.value;
      var a, b := Atoi(iv.from).v, Atoi(iv.to).v;
      ExpandInterval(p) == Ok(Some(iv.before + Join(Numerals(Range(if a <= b then a else b, if a <= b then b else a)), ',') + iv.after))
  {
    var iv := ParseInterval(p).value.value;
    DigitsNonNegative(iv.from);
    DigitsNonNegative(iv.to);
    var a, b := Atoi(iv.from).v, Atoi(iv.to).v;
    ListingTrimmed(iv.before, if a <= b then a else b, if a <= b then b else a);
  }

  /** What Atoi reads from plain digits is never negative. */
  lemma DigitsNonNegative(d: string)
    requires |d| > 0 && AllDigits(d) && Atoi(d).Value?
    ensures Atoi(d).v >= 0
  {
    assert d[0] != '+' && d[0] != '-';
  }

  /** A digit run and its two dots: two dots, no brace. */
  lemma MidCount(from: string, to: string, x: char)
    requires AllDigits(from) && AllDigits(to) && !IsDigit(x)
    ensures Count(from + ".." + to, x) == if x == '.' then 2 else 0
  {
    CountAbsent(from, x);
    CountAbsent(to, x);
    Count3(from, "..", to, x);
    assert Count(".", x) == if x == '.' then 1 else 0 by {
      assert "."[..0] == "";
    }
    assert Count("..", x) == if x == '.' then 2 else 0 by {
      assert ".."[..1] == ".";
    }
  }

  /** The counts of an interval's pattern, piece by piece. */
  lemma PatternCount(p: string, iv: Interval, x: char)
    requires WellSplit(p, iv) && !IsDigit(x)
    ensures Count(p, x) == Count(iv.before, x) + Count(iv.after, x) + if x == '.' then 2 else 0
  {
    assert p == iv.before + (iv.from + ".." + iv.to) + iv.after;
    Count3(iv.before, iv.from + ".." + iv.to, iv.after, x);
    MidCount(iv.from, iv.to, x);
  }

  /** The counts of the rewritten pattern, piece by piece. */
  lemma ListingCount(before: string, lo: int, hi: int, after: string, x: char)
    requires 0 <= lo <= hi && !IsDigit(x) && x != ','
    ensures Count(before + Join(Numerals(Range(lo, hi)), ',') + after, x) == Count(before, x) + Count(after, x)
  {
    var j := Join(Numerals(Range(lo, hi)), ',');
    RangeAlphabet(lo, hi, x);
    CountAbsent(j, x);
    Count3(before, j, after, x);
  }

  /** Rewriting an interval of `p` into a listing removes its two dots and
      keeps every brace. */
  lemma ListingCounts(p: string, iv: Interval, lo: int, hi: int)
    requires WellSplit(p, iv) && 0 <= lo <= hi
    ensures var r := iv.before + Join(Numerals(Range(lo, hi)), ',') + iv.after;
      Count(r, '.') + 2 == Count(p, '.') && Count(r, '{') == Count(p, '{')
  {
    ListingCount(iv.before, lo, hi, iv.after, '.');
    ListingCount(iv.before, lo, hi, iv.after, '{');
    PatternCount(p, iv, '.');
    PatternCount(p, iv, '{');
  }

  /** Expanding an interval removes its two dots and keeps every brace. */
  lemma IntervalCounts(p: string)
    requires ExpandInterval(p).Ok? && ExpandInterval(p).value.Some?
    ensures var r := ExpandInterval(p).value.value;
      Count(r, '.') + 2 <= Count(p, '.') && Count(r, '{') == Count(p, '{')
  {
    var iv := ParseInterval(p).value.value;
    DigitsNonNegative(iv.from);
    DigitsNonNegative(iv.to);
    IntervalExpansion(p);
    var a, b := Atoi(iv.from).v, Atoi(iv.to).v;
    ListingCounts(p, iv, if a <= b then a else b, if a <= b then b else a);
  }

  /** Go's intervalsToCommas: expand intervals until none is left. Each
      round removes two dots, which bounds the rounds. */
  function IntervalsToCommas(values: string): (r: Result<string>)
    ensures r.Ok? ==> IndexOf(r.value, "..") < 0 && Count(r.value, '{') == Count(values, '{')
    ensures IndexOf(values, "..") < 0 ==> r == Ok(values)
    decreases Count(values, '.')
  {
    match ExpandInterval(values)
    case Err(e) => Err(e)
    case Ok(None) => Ok(values)
    case Ok(Some(next)) =>
      IntervalCounts(values);
      IntervalsToCommas(next)
  }

  /* ---------- expandCommas ---------- */

  /** Go's expandCommas: one `before + element + after` per comma-separated
      element of `p`, in order; an empty element (an empty `p`, a leading or
      trailing comma, two commas in a row) is an error. */
  function ExpandCommas(before: string, p: string, after: string): (r: Result<seq<string>>)
    ensures r.Err? <==> "" in Split(p, ',')
    ensures r.Ok? ==> |r.value| == |Split(p, ',')| == Count(p, ',') + 1
    ensures r.Ok? ==> forall i :: 0 <= i < |r.value| ==> r.value[i] == before + Split(p, ',')[i] + after
  {
    var pieces := Split(p, ',');
    SplitCount(p, ',');
    if "" in pieces then Err("No character after comma")
    else Ok(seq(|pieces|, i requires 0 <= i < |pieces| => before + pieces[i] + after))
  }

  /** An element is empty exactly when the text is empty, starts or ends
      with a comma, or holds two commas in a row. */
  predicate HasEmptyElement(p: string) {
    |p| == 0 || p[0] == ',' || p[|p| - 1] == ','
    || exists i :: 0 <= i < |p| - 1 && p[i] == ',' && p[i + 1] == ','
  }

  /** The elements expandCommas rejects, described on the characters of
      `p`. */
  lemma {:induction false} EmptyElement(p: string)
    ensures "" in Split(p, ',') <==> HasEmptyElement(p)
    decreases |p|
  {
    var i := IndexOfChar(p, ',');
    if i < 0 {
      NoCommaElement(p);
    } else {
      var rest := p[i + 1..];
      assert Split(p, ',') == [p[..i]] + Split(rest, ',');
      EmptyElement(rest);
      EmptyAfterComma(p, i);
    }
  }

  lemma NoCommaElement(p: string)
    requires ',' !in p
    ensures "" in Split(p, ',') <==> HasEmptyElement(p)
  {
    assert Split(p, ',') == [p];
    forall k | 0 <= k < |p|
      ensures p[k] != ','
    {
      assert p[k] in p;
    }
  }

  /** At the first comma, an empty element is either the one before it or
      one in the rest. */
  lemma EmptyAfterComma(p: string, i: nat)
    requires i < |p| && p[i] == ','
    requires forall k :: 0 <= k < i ==> p[k] != ','
    ensures HasEmptyElement(p) <==> i == 0 || HasEmptyElement(p[i + 1..])
  {
    var rest := p[i + 1..];
    if HasEmptyElement(rest) && i > 0 {
      if |rest| == 0 {
        assert p[|p| - 1] == ',';
      } else if rest[0] == ',' {
        assert p[i] == ',' && p[i + 1] == ',';
      } else if rest[|rest| - 1] == ',' {
        assert p[|p| - 1] == ',';
      } else {
        var k :| 0 <= k < |rest| - 1 && rest[k] == ',' && rest[k + 1] == ',';
        assert p[i + 1 + k] == ',' && p[i + 2 + k] == ',';
      }
    }
    if HasEmptyElement(p) && i > 0 {
      if p[|p| - 1] == ',' && |rest| > 0 {
        assert rest[|rest| - 1] == ',';
      }
      if exists k :: 0 <= k < |p| - 1 && p[k] == ',' && p[k + 1] == ',' {
        var k :| 0 <= k < |p| - 1 && p[k] == ',' && p[k + 1] == ',';
        if k > i {
          assert rest[k - i - 1] == ',' && rest[k - i] == ',';
        } else if k == i {
          assert rest[0] == ',';
        }
      }
    }
  }

  /* ---------- Expand and Glob ---------- */

  /** Every line expandCommas builds from a `{…}` block has fewer braces
      than the pattern the block came from. */
  lemma FewerBraces(pattern: string, start: nat, end: nat, values: string, lines: seq<string>)
    requires start + 2 <= end < |pattern| && pattern[start] == '{'
    requires forall i :: 0 <= i < start ==> pattern[i] != '{'
    requires Count(values, '{') == Count(pattern[start + 1..end], '{')
    requires ExpandCommas(pattern[..start], values, pattern[end + 1..]) == Ok(lines)
    ensures forall i :: 0 <= i < |lines| ==> Count(lines[i], '{') < Count(pattern, '{')
  {
    var before, after := pattern[..start], pattern[end + 1..];
    BlockCount(pattern, start, end);
    forall i | 0 <= i < |lines|
      ensures Count(lines[i], '{') < Count(pattern, '{')
    {
      var piece := Split(values, ',')[i];
      PartCount(Split(values, ','), ',', '{', i);
      Count3(before, piece, after, '{');
    }
  }

  /** A block's braces: none before it, its own `{`, the ones inside and
      after it. */
  lemma BlockCount(pattern: string, start: nat, end: nat)
    requires start + 2 <= end < |pattern| && pattern[start] == '{'
    requires forall i :: 0 <= i < start ==> pattern[i] != '{'
    ensures Count(pattern[..start], '{') == 0
    ensures Count(pattern, '{') >= 1 + Count(pattern[start + 1..end], '{') + Count(pattern[end + 1..], '{')
  {
    CountAbsent(pattern[..start], '{');
    OpeningBrace(pattern, start);
    var u, w := pattern[start + 1..], pattern[end..];
    assert Count(u, '{') == Count(pattern[start + 1..end], '{') + Count(w, '{') by {
      CountAt(u, end - start - 1, '{');
      assert u[..end - start - 1] == pattern[start + 1..end] && u[end - start - 1..] == w;
    }
    CountSlice(w, 1, |w|, '{');
    assert w[1..|w|] == pattern[end + 1..];
  }

  /** The braces of a pattern from its first `{` on: that one and those
      after it. */
  lemma OpeningBrace(pattern: string, start: nat)
    requires start < |pattern| && pattern[start] == '{'
    requires Count(pattern[..start], '{') == 0
    ensures Count(pattern, '{') == 1 + Count(pattern[start + 1..], '{')
  {
    var t := pattern[start..];
    CountAt(pattern, start, '{');
    CountAt(t, 1, '{');
    assert t[..1] == ['{'] && t[1..] == pattern[start + 1..];
    assert ['{'][..0] == [];
  }

  /** A string's count, split at a position. */
  lemma CountAt(s: string, i: nat, c: char)
    requires i <= |s|
    ensures Count(s, c) == Count(s[..i], c) + Count(s[i..], c)
  {
    assert s == s[..i] + s[i..];
    CountAppend(s[..i], s[i..], c);
  }

  /** Go's Expand: the patterns a server-name pattern stands for. Without a
      `{` the pattern is only split at commas; otherwise the first block is
      expanded and each resulting line is expanded again. The number of `{`
      falls with every round. */
  function Expand(pattern: string): (r: Result<seq<string>>)
    ensures r.Ok? ==> |r.value| >= 1
    ensures r.Ok? ==> forall i :: 0 <= i < |r.value| ==> '{' !in r.value[i]
    decreases Count(pattern, '{'), 1, 0
  {
    match ComputeOffsets(pattern)
    case Err(e) => Err(e)
    case Ok(NoBlock) =>
      var r := ExpandCommas("", pattern, "");
      PlainLines(pattern);
      r
    case Ok(Block(start, end)) =>
      match IntervalsToCommas(pattern[start + 1..end])
      case Err(e) => Err(e)
      case Ok(values) =>
        match ExpandCommas(pattern[..start], values, pattern[end + 1..])
        case Err(e) => Err(e)
        case Ok(lines) =>
          FewerBraces(pattern, start, end, values, lines);
          ExpandEach(lines, Count(pattern, '{'))
  }

  /** Without a `{` in the pattern, no element has one. */
  lemma PlainLines(pattern: string)
    requires '{' !in pattern
    ensures var r := ExpandCommas("", pattern, "");
      r.Ok? ==> forall i :: 0 <= i < |r.value| ==> '{' !in r.value[i]
  {
    var pieces := Split(pattern, ',');
    var r := ExpandCommas("", pattern, "");
    if r.Ok? {
      forall i | 0 <= i < |r.value|
        ensures '{' !in r.value[i]
      {
        assert r.value[i] == pieces[i];
        CountAbsent(pattern, '{');
        PartCount(pieces, ',', '{', i);
        if '{' in pieces[i] {
          CountPositive(pieces[i], '{');
        }
      }
    }
  }

  /** The Expand loop over the lines of one round, concatenating their
      expansions in order and stopping at the first error. */
  function ExpandEach(lines: seq<string>, n: nat): (r: Result<seq<string>>)
    requires forall i :: 0 <= i < |lines| ==> Count(lines[i], '{') < n
    ensures r.Ok? && |lines| >= 1 ==> |r.value| >= 1
    ensures r.Ok? ==> forall i :: 0 <= i < |r.value| ==> '{' !in r.value[i]
    decreases n, 0, |lines|
  {
    if |lines| == 0 then Ok([])
    else
      match Expand(lines[0])
      case Err(e) => Err(e)
      case Ok(first) =>
        match ExpandEach(lines[1..], n)
        case Err(e) => Err(e)
        case Ok(rest) => Ok(first + rest)
  }

  /** A pattern without braces or empty elements is split at its commas. */
  lemma ExpandPlain(p: string)
    requires '{' !in p && "" !in Split(p, ',')
    ensures Expand(p) == Ok(Split(p, ','))
  {
    var pieces := Split(p, ',');
    var r := ExpandCommas("", p, "");
    assert |r.value| == |pieces|;
    forall i | 0 <= i < |pieces|
      ensures r.value[i] == pieces[i]
    {
      assert r.value[i] == "" + pieces[i] + "";
    }
    assert r.value == pieces;
  }

  /** `"a,b"` names the two servers `a` and `b`. */
  lemma ExpandTwoNames()
    ensures Expand("a,b") == Ok(["a", "b"])
  {
    assert IndexOfChar("a,b", ',') == 1;
    assert "a,b"[2..] == "b";
    assert "a,b"[..1] == "a";
    assert IndexOfChar("b", ',') == -1;
    assert Split("b", ',') == ["b"];
    assert Split("a,b", ',') == ["a", "b"];
    ExpandPlain("a,b");
  }

  /** go-glob's matcher is foreign code: it is a parameter of the model. */
  type Matcher = (string, string) -> bool

  /** Whether any of the patterns matches the subject. */
  function AnyMatch(patterns: seq<string>, subj: string, matches: Matcher): (r: bool)
    ensures r <==> exists i :: 0 <= i < |patterns| && matches(patterns[i], subj)
  {
    if |patterns| == 0 then false
    else if matches(patterns[0], subj) then true
    else
      assert forall i :: 1 <= i < |patterns| ==> patterns[i] == patterns[1..][i - 1];
      AnyMatch(patterns[1..], subj, matches)
  }

  /** Go's Glob: true exactly when some expansion of the pattern matches;
      an expansion error is passed on. */
  function Glob(pattern: string, subj: string, matches: Matcher): (r: Result<bool>)
    ensures r.Err? <==> Expand(pattern).Err?
    ensures r.Ok? ==> (r.value <==> exists i :: 0 <= i < |Expand(pattern).value| && matches(Expand(pattern).value[i], subj))
  {
    match Expand(pattern)
    case Err(e) => Err(e)
    case Ok(patterns) => Ok(AnyMatch(patterns, subj, matches))
  }
}
