/** Integer formatting and parsing as Go's `fmt` verbs (`%d`, `%o`, `%10d`,
    `%010d`) and `strconv` (`Itoa`, `Atoi`, `ParseInt`) perform them, with
    the fixed-width integer types the source uses written out as subset
    types. */
module Numbers {
  import opened Base

  /** The integer widths the program parses at. */
  predicate IsWidth(bits: nat) {
    bits == 16 || bits == 32 || bits == 64
  }

  /** 1 << (bits - 1): the magnitude of the most negative `bits`-bit
      integer. */
  function Half(bits: nat): (r: int)
    requires IsWidth(bits)
    ensures r >= 0x8000
  {
    if bits == 16 then 0x8000 else if bits == 32 then 0x8000_0000 else 0x8000_0000_0000_0000
  }

  /** Go's int16. */
  type Int16 = x: int | -0x8000 <= x < 0x8000
  /** Go's int64 (and `int` on the 64-bit platforms the tool targets). */
  type Int64 = x: int | -0x8000_0000_0000_0000 <= x < 0x8000_0000_0000_0000

  predicate IsDigit(c: char) {
    '0' <= c <= '9'
  }

  predicate AllDigits(s: string) {
    forall i :: 0 <= i < |s| ==> IsDigit(s[i])
  }

  function DigitChar(d: nat): (c: char)
    requires d < 10
    ensures IsDigit(c)
  {
    ('0' as int + d) as char
  }

  function DigitValue(c: char): nat
    requires IsDigit(c)
  {
    c as int - '0' as int
  }

  /** The digits of `n` in `base`, most significant first and without
      leading zeros ("0" for zero). */
  function NatDigits(n: nat, base: nat): (r: string)
    requires 2 <= base <= 10
    ensures |r| >= 1
    ensures AllDigits(r)
    ensures forall i :: 0 <= i < |r| ==> DigitValue(r[i]) < base
    decreases n
  {
    if n < base then [DigitChar(n)]
    else
      DivMod(n, base);
      var init := NatDigits(n / base, base);
      var r := init + [DigitChar(n % base)];
      assert forall i :: 0 <= i < |init| ==> r[i] == init[i];
      r
  }

  lemma DigitCharValue(d: nat)
    requires d < 10
    ensures DigitValue(DigitChar(d)) == d
  {
  }

  lemma DivMod(n: nat, base: nat)
    requires base >= 2
    ensures n == (n / base) * base + n % base
    ensures n % base < base
    ensures n >= 1 ==> n / base < n
  {
  }

  lemma DigitsValueSnoc(p: string, c: char, base: nat)
    requires AllDigits(p) && IsDigit(c)
    ensures AllDigits(p + [c])
    ensures DigitsValue(p + [c], base) == DigitsValue(p, base) * base + DigitValue(c)
  {
    assert (p + [c])[..|p + [c]| - 1] == p;
  }

  /** The number a string of digits denotes in `base`. */
  function DigitsValue(s: string, base: nat): nat
    requires AllDigits(s)
  {
    if |s| == 0 then 0
    else DigitsValue(s[..|s| - 1], base) * base + DigitValue(s[|s| - 1])
  }

  /** Reading back the digits of `n` gives `n`. */
  lemma {:induction false} DigitsRoundTrip(n: nat, base: nat)
    requires 2 <= base <= 10
    ensures DigitsValue(NatDigits(n, base), base) == n
    decreases n
  {
    var r := NatDigits(n, base);
    if n < base {
      assert r[..0] == "";
      DigitCharValue(n);
    } else {
      var q, d := n / base, n % base;
      DivMod(n, base);
      DigitsRoundTrip(q, base);
      var p := NatDigits(q, base);
      assert r == p + [DigitChar(d)];
      DigitsValueSnoc(p, DigitChar(d), base);
      DigitCharValue(d);
    }
  }

  /** A leading '0' does not change the value of a digit string. */
  lemma {:induction false} LeadingZero(s: string, base: nat)
    requires AllDigits(s)
    ensures DigitsValue("0" + s, base) == DigitsValue(s, base)
    decreases |s|
  {
    if |s| > 0 {
      assert ("0" + s)[..|"0" + s| - 1] == "0" + s[..|s| - 1];
      LeadingZero(s[..|s| - 1], base);
    }
  }

  lemma {:induction false} LeadingZeros(k: nat, s: string, base: nat)
    requires AllDigits(s)
    ensures AllDigits(Repeat('0', k) + s)
    ensures DigitsValue(Repeat('0', k) + s, base) == DigitsValue(s, base)
    decreases k
  {
    if k == 0 {
      assert Repeat('0', k) + s == s;
    } else {
      var t := Repeat('0', k - 1) + s;
      LeadingZeros(k - 1, s, base);
      assert Repeat('0', k) + s == "0" + t;
      LeadingZero(t, base);
    }
  }

  /** Go's `%d` (base 10) and `%o` (base 8) on a signed integer: a '-' sign
      for negatives, then the digits of the magnitude. */
  function FormatInt(x: int, base: nat): string
    requires 2 <= base <= 10
  {
    if x < 0 then "-" + NatDigits(-x, base) else NatDigits(x, base)
  }

  /** Go's strconv.Itoa and `%d`. */
  function Itoa(x: int): string {
    FormatInt(x, 10)
  }

  /** Go's `%10d` on a non-negative length: right-aligned in a field of ten,
      padded with blanks; wider numbers are not cut. */
  function SpacePad10(n: nat): (r: string)
    ensures |r| == if |Itoa(n)| < 10 then 10 else |Itoa(n)|
  {
    var d := Itoa(n);
    if |d| < 10 then Repeat(' ', 10 - |d|) + d else d
  }

  /** Go's `%010d` on a non-negative length: padded with zeros to ten. */
  function ZeroPad10(n: nat): (r: string)
    ensures |r| == if |Itoa(n)| < 10 then 10 else |Itoa(n)|
    ensures AllDigits(r)
  {
    var d := Itoa(n);
    if |d| < 10 then Repeat('0', 10 - |d|) + d else d
  }

  /** What strconv.ParseInt reports: a value, a syntax error (the value is
      then 0), or a range error with the value clamped to the type's limit. */
  datatype Parsed = Value(v: int) | SyntaxError | RangeError(clamped: int) {
    /** The value Go hands back alongside the error, which callers that
        discard the error (`x, _ := strconv.ParseInt(...)`) keep. */
    function Or(): int {
      match this
      case Value(v) => v
      case SyntaxError => 0
      case RangeError(c) => c
    }
  }

  predicate DigitsIn(s: string, base: nat) {
    forall i :: 0 <= i < |s| ==> IsDigit(s[i]) && DigitValue(s[i]) < base
  }

  /** Some non-empty prefix of `s` made only of digits of the base already
      denotes more than `max`. Go's ParseUint scans left to right and stops
      at such a prefix with a range error, whatever characters follow. */
  predicate Overflows(s: string, base: nat, max: nat)
    decreases |s|
  {
    |s| > 0 && (Overflows(s[..|s| - 1], base, max) || (DigitsIn(s, base) && DigitsValue(s, base) > max))
  }

  /** Digits whose value is within `max` have no prefix above it. */
  lemma {:induction false} NoOverflow(s: string, base: nat, max: nat)
    requires base >= 1 && DigitsIn(s, base) && DigitsValue(s, base) <= max
    ensures !Overflows(s, base, max)
    decreases |s|
  {
    if |s| > 0 {
      var p := s[..|s| - 1];
      assert DigitsIn(p, base) by {
        assert forall i :: 0 <= i < |p| ==> p[i] == s[i];
      }
      var v := DigitsValue(p, base);
      assert DigitsValue(s, base) == v * base + DigitValue(s[|s| - 1]);
      assert v <= v * base by {
        assert v * base == v + v * (base - 1);
      }
      NoOverflow(p, base, max);
    }
  }

  /** Go's strconv.ParseInt(s, base, bits) for base 8 or 10: an optional
      sign, then ParseUint at the same width, which stops with a range error
      at the first digit that takes the magnitude past 2^bits - 1 and with a
      syntax error at the first character that is not a digit of the base.
      A magnitude outside the signed range is clamped and reported. */
  function ParseInt(s: string, base: nat, bits: nat): (r: Parsed)
    requires base == 8 || base == 10
    requires IsWidth(bits)
    ensures r.Value? ==> -Half(bits) <= r.v < Half(bits)
    ensures r.RangeError? ==> r.clamped == Half(bits) - 1 || r.clamped == -Half(bits)
    ensures -Half(bits) <= r.Or() < Half(bits)
  {
    var signed := |s| > 0 && (s[0] == '+' || s[0] == '-');
    var neg := signed && s[0] == '-';
    var body := if signed then s[1..] else s;
    var cutoff: int := Half(bits);
    if |body| == 0 then SyntaxError
    else if Overflows(body, base, 2 * cutoff - 1) then
      if neg then RangeError(-cutoff) else RangeError(cutoff - 1)
    else if !DigitsIn(body, base) then SyntaxError
    else
      var m: int := DigitsValue(body, base);
      if !neg && m >= cutoff then RangeError(cutoff - 1)
      else if neg && m > cutoff then RangeError(-cutoff)
      else Value(if neg then -m else m)
  }

  /** Go's strconv.Atoi on a 64-bit platform. */
  function Atoi(s: string): Parsed {
    ParseInt(s, 10, 64)
  }

  /** Parsing what FormatInt printed gives the number back, for every number
      that fits the parsed width. */
  lemma FormatParse(x: int, base: nat, bits: nat)
    requires base == 8 || base == 10
    requires IsWidth(bits)
    requires -Half(bits) <= x < Half(bits)
    ensures ParseInt(FormatInt(x, base), base, bits) == Value(x)
  {
    var m: nat := if x < 0 then -x else x;
    var d := NatDigits(m, base);
    DigitsRoundTrip(m, base);
    assert DigitsIn(d, base);
    assert d[0] != '+' && d[0] != '-';
    if x < 0 {
      var s := "-" + d;
      assert FormatInt(x, base) == s;
      assert s[1..] == d;
      ParseDigits(s, d, true, base, bits);
    } else {
      assert FormatInt(x, base) == d;
      ParseDigits(d, d, false, base, bits);
    }
  }

  /** ParseInt on a sign and digits whose value is in range. */
  lemma ParseDigits(s: string, d: string, neg: bool, base: nat, bits: nat)
    requires base == 8 || base == 10
    requires IsWidth(bits)
    requires |d| > 0 && DigitsIn(d, base) && d[0] != '+' && d[0] != '-'
    requires s == if neg then "-" + d else d
    requires if neg then DigitsValue(d, base) <= Half(bits) else DigitsValue(d, base) < Half(bits)
    ensures ParseInt(s, base, bits) == Value(if neg then 0 - DigitsValue(d, base) else DigitsValue(d, base))
  {
    NoOverflow(d, base, 2 * Half(bits) - 1);
    if neg {
      assert s[1..] == d;
    }
  }

  /** Atoi reads Itoa back. */
  lemma AtoiItoa(x: Int64)
    ensures Atoi(Itoa(x)) == Value(x)
  {
    FormatParse(x, 10, 64);
  }

  /** A numeral neither starts nor ends with white space. */
  lemma ItoaEnds(n: nat)
    ensures |Itoa(n)| >= 1 && !IsSpace(Itoa(n)[0]) && !IsSpace(Itoa(n)[|Itoa(n)| - 1])
  {
    var d := NatDigits(n, 10);
    assert Itoa(n) == d;
    assert IsDigit(d[0]) && IsDigit(d[|d| - 1]);
  }

  /** A length written with `%10d` is read back by trimming blanks and
      calling Atoi. */
  lemma SpacePadRoundTrip(n: nat)
    requires n < 0x8000_0000_0000_0000
    ensures Atoi(TrimSpace(SpacePad10(n))) == Value(n)
  {
    var k := SpacePadShape(n);
    ItoaEnds(n);
    TrimSpacePadded(k, Itoa(n));
    AtoiItoa(n);
  }

  /** `%10d` is blanks followed by the numeral. */
  lemma SpacePadShape(n: nat) returns (k: nat)
    ensures SpacePad10(n) == Repeat(' ', k) + Itoa(n)
  {
    var d := Itoa(n);
    if |d| < 10 {
      k := 10 - |d|;
    } else {
      k := 0;
      assert Repeat(' ', 0) + d == d;
    }
  }

  /** A length written with `%010d` is read back by ParseInt(…, 10, 32). */
  lemma ZeroPadRoundTrip(n: nat)
    requires n < 0x8000_0000
    ensures ParseInt(ZeroPad10(n), 10, 32) == Value(n)
  {
    var d := Itoa(n);
    assert d == NatDigits(n, 10);
    DigitsRoundTrip(n, 10);
    if |d| < 10 {
      LeadingZeros(10 - |d|, d, 10);
    }
    var z := ZeroPad10(n);
    assert DigitsIn(z, 10) && DigitsValue(z, 10) == n;
    NoOverflow(z, 10, 2 * Half(32) - 1);
  }

  function Pow10(k: nat): (r: nat)
    ensures r >= 1
  {
    if k == 0 then 1 else 10 * Pow10(k - 1)
  }

  /** A number below 10^k has at most k decimal digits. */
  lemma {:induction false} NatDigitsWidth(n: nat, k: nat)
    requires k >= 1 && n < Pow10(k)
    ensures |NatDigits(n, 10)| <= k
    decreases k
  {
    if n >= 10 {
      DivMod(n, 10);
      assert Pow10(1) == 10;
      assert k >= 2;
      assert n / 10 < Pow10(k - 1);
      NatDigitsWidth(n / 10, k - 1);
    }
  }

  function Power(base: nat, k: nat): (r: nat)
    ensures base >= 1 ==> r >= 1
  {
    if k == 0 then 1 else base * Power(base, k - 1)
  }

  lemma DivBelow(n: nat, base: nat, p: nat)
    requires base >= 1 && n < base * p
    ensures n / base < p
  {
    var q := n / base;
    assert n == q * base + n % base;
    assert q * base <= n;
    assert q * base < p * base;
  }

  /** A number below base^k has at most k digits in that base. */
  lemma {:induction false} NatDigitsWithin(n: nat, base: nat, k: nat)
    requires 2 <= base <= 10 && k >= 1 && n < Power(base, k)
    ensures |NatDigits(n, base)| <= k
    decreases k
  {
    if n >= base {
      DivMod(n, base);
      assert Power(base, 1) == base;
      DivBelow(n, base, Power(base, k - 1));
      NatDigitsWithin(n / base, base, k - 1);
    }
  }

  lemma MulAssoc(x: nat, y: nat, z: nat)
    ensures x * (y * z) == (x * y) * z
  {
  }

  lemma {:induction false} PowerAdd(base: nat, j: nat, k: nat)
    ensures Power(base, j + k) == Power(base, j) * Power(base, k)
    decreases j
  {
    if j > 0 {
      PowerAdd(base, j - 1, k);
      var a, b := Power(base, j - 1), Power(base, k);
      assert Power(base, j + k) == base * Power(base, j - 1 + k);
      MulAssoc(base, a, b);
    }
  }

  /** A signed number of magnitude below base^k takes at most k digits and
      a sign. */
  lemma FormatIntWithin(x: int, base: nat, k: nat)
    requires 2 <= base <= 10 && k >= 1 && -x < Power(base, k) && x < Power(base, k)
    ensures |FormatInt(x, base)| <= k + 1
  {
    NatDigitsWithin(if x < 0 then -x else x, base, k);
  }

  /** Lengths below 10^10 fill the ten-character `%10d` and `%010d` fields
      exactly. */
  lemma PadWidth(n: nat)
    requires n < 10_000_000_000
    ensures |Itoa(n)| <= 10
    ensures |SpacePad10(n)| == 10 && |ZeroPad10(n)| == 10
  {
    assert Pow10(10) == 10_000_000_000 by {
      assert Pow10(5) == 100_000;
    }
    NatDigitsWidth(n, 10);
  }

  /** Formatted integers hold only digits and a leading minus sign. */
  lemma FormatIntAlphabet(x: int, base: nat)
    requires 2 <= base <= 10
    ensures forall c :: c in FormatInt(x, base) ==> IsDigit(c) || c == '-'
  {
    var d := NatDigits(if x < 0 then -x else x, base);
    assert forall i :: 0 <= i < |d| ==> IsDigit(d[i]);
  }

  /** The decimal numerals of a list of numbers. */
  function Numerals(xs: seq<int>): (r: seq<string>)
    ensures |r| == |xs|
    ensures forall i :: 0 <= i < |xs| ==> r[i] == Itoa(xs[i])
  {
    if |xs| == 0 then [] else [Itoa(xs[0])] + Numerals(xs[1..])
  }
}
