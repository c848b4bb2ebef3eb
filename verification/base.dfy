/** Failure-carrying wrappers and the small string toolkit (Go's `strings`
    and `bytes` helpers) that the rest of the model is written in. A Go
    string or byte slice is a `seq<char>` here, each `char` standing for one
    byte. */
module Base {

  datatype Option<+T> = None | Some(value: T)

  /** The outcome of an operation that the Go code either completes or aborts
      (an `error` return, a `panic` or a `fatalLn`). */
  datatype Result<+T> = Ok(value: T) | Err(msg: string) {
    predicate IsFailure() { Err? }

    function PropagateFailure<U>(): Result<U>
      requires Err?
    {
      Err(msg)
    }

    function Extract(): T
      requires Ok?
    {
      value
    }
  }

  /** Go's strings.HasPrefix. */
  predicate HasPrefix(s: string, prefix: string) {
    |prefix| <= |s| && s[..|prefix|] == prefix
  }

  /** Go's strings.IndexByte / strings.IndexRune on an ASCII character: the
      first position of `c`, or -1. */
  function IndexOfChar(s: string, c: char): (r: int)
    ensures -1 <= r < |s|
    ensures r >= 0 ==> s[r] == c
    ensures r >= 0 ==> forall i :: 0 <= i < r ==> s[i] != c
    ensures r < 0 <==> c !in s
  {
    if |s| == 0 then -1
    else if s[0] == c then 0
    else
      var k := IndexOfChar(s[1..], c);
      assert forall i :: 0 < i < |s| ==> s[i] == s[1..][i - 1];
      if k < 0 then -1 else k + 1
  }

  /** The last position of `c`, or -1 (the search filepath.Dir performs). */
  function LastIndexOfChar(s: string, c: char): (r: int)
    ensures -1 <= r < |s|
    ensures r >= 0 ==> s[r] == c
    ensures forall i :: r < i < |s| ==> s[i] != c
  {
    if |s| == 0 then -1
    else if s[|s| - 1] == c then |s| - 1
    else LastIndexOfChar(s[..|s| - 1], c)
  }

  /** True when `pat` occurs in `s` at position `i`. */
  predicate OccursAt(s: string, pat: string, i: int) {
    0 <= i && i + |pat| <= |s| && s[i..i + |pat|] == pat
  }

  /** Go's strings.Index / bytes.Index: the first occurrence of `pat`, or -1. */
  function IndexOf(s: string, pat: string): (r: int)
    ensures -1 <= r
    ensures r >= 0 ==> OccursAt(s, pat, r)
    ensures r >= 0 ==> forall i :: 0 <= i < r ==> !OccursAt(s, pat, i)
    ensures r < 0 ==> forall i :: 0 <= i ==> !OccursAt(s, pat, i)
  {
    if |s| < |pat| then -1
    else if s[..|pat|] == pat then 0
    else
      var k := IndexOf(s[1..], pat);
      assert forall i :: 1 <= i ==> (OccursAt(s, pat, i) <==> OccursAt(s[1..], pat, i - 1)) by {
        forall i | 1 <= i ensures OccursAt(s, pat, i) <==> OccursAt(s[1..], pat, i - 1) {
          if i + |pat| <= |s| {
            var t := s[1..];
            var a, b := s[i..i + |pat|], t[i - 1..i - 1 + |pat|];
            assert forall k :: 0 <= k < |pat| ==> a[k] == b[k];
            assert a == b;
          }
        }
      }
      if k < 0 then -1 else k + 1
  }

  /** Adjacent slices concatenate to the slice spanning both. */
  lemma PrefixConcat<T>(s: seq<T>, j: nat, k: nat)
    requires j <= k <= |s|
    ensures s[..j] + s[j..k] == s[..k]
  {
  }

  /** The number of occurrences of the character `c` in `s`. */
  function Count(s: string, c: char): nat {
    if |s| == 0 then 0 else Count(s[..|s| - 1], c) + (if s[|s| - 1] == c then 1 else 0)
  }

  lemma {:induction false} CountAppend(a: string, b: string, c: char)
    ensures Count(a + b, c) == Count(a, c) + Count(b, c)
    decreases |b|
  {
    if |b| == 0 {
      assert a + b == a;
    } else {
      assert (a + b)[..|a + b| - 1] == a + b[..|b| - 1];
      CountAppend(a, b[..|b| - 1], c);
    }
  }

  lemma {:induction false} CountAbsent(s: string, c: char)
    requires c !in s
    ensures Count(s, c) == 0
    decreases |s|
  {
    if |s| > 0 {
      CountAbsent(s[..|s| - 1], c);
    }
  }

  lemma CountSlice(s: string, i: int, j: int, c: char)
    requires 0 <= i <= j <= |s|
    ensures Count(s[i..j], c) <= Count(s, c)
  {
    assert s == s[..i] + s[i..j] + s[j..];
    CountAppend(s[..i] + s[i..j], s[j..], c);
    CountAppend(s[..i], s[i..j], c);
  }

  /** Go's strings.Split with a one-character separator: never empty, and
      `Split("", c) == [""]`. */
  function Split(s: string, c: char): (r: seq<string>)
    ensures |r| >= 1
    ensures forall k :: 0 <= k < |r| ==> c !in r[k]
    ensures Join(r, c) == s
    decreases |s|
  {
    var i := IndexOfChar(s, c);
    if i < 0 then [s]
    else
      var rest := Split(s[i + 1..], c);
      SplitHead(s, i, c, rest);
      [s[..i]] + rest
  }

  /** The text before the first separator, then the parts after it, join
      back into the whole. */
  lemma SplitHead(s: string, i: int, c: char, rest: seq<string>)
    requires 0 <= i < |s| && s[i] == c && forall j :: 0 <= j < i ==> s[j] != c
    requires |rest| >= 1 && Join(rest, c) == s[i + 1..]
    ensures c !in s[..i]
    ensures Join([s[..i]] + rest, c) == s
  {
    var head := s[..i];
    assert c !in head by {
      assert forall j :: 0 <= j < |head| ==> head[j] == s[j];
    }
    JoinFront(head, rest, c);
    assert s == head + [c] + s[i + 1..];
  }

  lemma JoinFront(x: string, rest: seq<string>, c: char)
    requires |rest| >= 1
    ensures Join([x] + rest, c) == x + [c] + Join(rest, c)
  {
    assert ([x] + rest)[0] == x && ([x] + rest)[1..] == rest;
  }

  /** Go's strings.Join with a one-character separator. */
  function Join(parts: seq<string>, c: char): string {
    if |parts| == 0 then ""
    else if |parts| == 1 then parts[0]
    else parts[0] + [c] + Join(parts[1..], c)
  }

  /** Splitting undoes joining when no part holds the separator. */
  lemma {:induction false} SplitJoin(parts: seq<string>, c: char)
    requires |parts| >= 1
    requires forall k :: 0 <= k < |parts| ==> c !in parts[k]
    ensures Split(Join(parts, c), c) == parts
    decreases |parts|
  {
    if |parts| == 1 {
      assert IndexOfChar(parts[0], c) < 0;
    } else {
      JoinFront(parts[0], parts[1..], c);
      SplitAt(parts[0], c, Join(parts[1..], c));
      SplitJoin(parts[1..], c);
      assert parts == [parts[0]] + parts[1..];
    }
  }

  /** Splitting at a first separator gives the text before it, then the
      split of the text after it. */
  lemma SplitAt(x: string, c: char, t: string)
    requires c !in x
    ensures Split(x + [c] + t, c) == [x] + Split(t, c)
  {
    var s := x + [c] + t;
    assert IndexOfChar(s, c) == |x| by {
      assert s[|x|] == c;
      assert forall i :: 0 <= i < |x| ==> s[i] == x[i];
    }
    assert s[|x| + 1..] == t;
    assert s[..|x|] == x;
  }

  /** Go's unicode.IsSpace restricted to single bytes that decode as ASCII. */
  predicate IsSpace(c: char) {
    c == ' ' || c == '\t' || c == '\n' || c == '\r' || c == '\U{0B}' || c == '\U{0C}'
  }

  function TrimLeftSpace(s: string): (r: string)
    ensures |r| <= |s| && r == s[|s| - |r|..]
    ensures |r| > 0 ==> !IsSpace(r[0])
  {
    if |s| > 0 && IsSpace(s[0]) then TrimLeftSpace(s[1..]) else s
  }

  function TrimRightSpace(s: string): (r: string)
    ensures |r| <= |s| && r == s[..|r|]
    ensures |r| > 0 ==> !IsSpace(r[|r| - 1])
  {
    if |s| > 0 && IsSpace(s[|s| - 1]) then TrimRightSpace(s[..|s| - 1]) else s
  }

  /** Go's strings.TrimSpace. */
  function TrimSpace(s: string): string {
    TrimRightSpace(TrimLeftSpace(s))
  }

  function Repeat(c: char, n: nat): (r: string)
    ensures |r| == n
    ensures forall i :: 0 <= i < n ==> r[i] == c
  {
    if n == 0 then "" else [c] + Repeat(c, n - 1)
  }

  /** Leading blanks are dropped by TrimSpace, and a word with no blank at
      either end survives it unchanged. */
  lemma {:induction false} TrimSpacePadded(k: nat, s: string)
    requires |s| > 0 && !IsSpace(s[0]) && !IsSpace(s[|s| - 1])
    ensures TrimSpace(Repeat(' ', k) + s) == s
    decreases k
  {
    if k == 0 {
      assert Repeat(' ', k) + s == s;
    } else {
      assert (Repeat(' ', k) + s)[1..] == Repeat(' ', k - 1) + s;
      TrimSpacePadded(k - 1, s);
    }
  }

  /** Go's `min` on lengths. */
  function Min(a: int, b: int): int {
    if a <= b then a else b
  }

  /** The first `n` characters of `s`, or all of them when `s` is shorter:
      what Go's `copy` transfers into a bounded destination. */
  function Take(s: string, n: int): (r: string)
    ensures |r| == if n <= 0 then 0 else Min(n, |s|)
    ensures HasPrefix(s, r)
  {
    if n <= 0 then "" else if n >= |s| then s else s[..n]
  }
}
