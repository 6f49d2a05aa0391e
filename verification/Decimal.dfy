/**
 The C library's conversions as far as the playlist code uses them: `%u` and `%llu`, `%.3f`,
 strtoul and strtoull, and strtod. A double is a sign and a real magnitude, an infinity or
 not a number; rounding to binary is left out.
 */
module Decimal {
  import opened Common
  import opened Positional

  const ULONG_MAX: nat := 0xFFFF_FFFF_FFFF_FFFF

  predicate IsDigit(c: char) {
    '0' <= c <= '9'
  }

  type Magnitude = r: real | r >= 0.0

  datatype Double = Finite(negative: bool, magnitude: Magnitude) | Infinite(negative: bool) | NaN(negative: bool)

  /** Half a unit above the largest double, from where on a number is read as infinite. */
  predicate TooLarge(m: Magnitude) {
    m >= (Pow(2, 1024) - Pow(2, 970)) as real
  }

  function ToDouble(negative: bool, m: Magnitude): Double {
    if TooLarge(m) then Infinite(negative) else Finite(negative, m)
  }

  // ---------- Printing ----------

  function Chars(ds: seq<int>): (s: string)
    requires AreDigits(10, ds)
    ensures |s| == |ds| && forall i :: 0 <= i < |s| ==> IsDigit(s[i]) && (s[i] - '0') as int == ds[i]
  {
    seq(|ds|, i requires 0 <= i < |ds| => '0' + ds[i] as char)
  }

  function Numerals(n: nat): (ds: seq<int>)
    ensures AreDigits(10, ds) && ds != []
  {
    if n == 0 then [0] else
      ValueOfDigits(10, n);
      Digits(10, n)
  }

  /** %u and %llu */
  function Numeral(n: nat): string {
    Chars(Numerals(n))
  }

  function ThreeDigits(k: nat): (ds: seq<int>)
    requires k < 1000
    ensures AreDigits(10, ds) && |ds| == 3
  {
    [k / 100, k / 10 % 10, k % 10]
  }

  /** Milliseconds, rounded to nearest. */
  function Millis(m: Magnitude): nat {
    (m * 1000.0 + 0.5).Floor
  }

  /** %.3f */
  function Fixed(d: Double): string {
    (if d.negative then "-" else "") + Unsigned(d)
  }

  function Unsigned(d: Double): string {
    match d
    case Finite(_, m) => Numeral(Millis(m) / 1000) + "." + Chars(ThreeDigits(Millis(m) % 1000))
    case Infinite(_) => "inf"
    case NaN(_) => "nan"
  }

  // ---------- Scanning ----------

  /** The digits at the front. */
  function Scan(s: string): (ds: seq<int>)
    ensures AreDigits(10, ds) && |ds| <= |s|
  {
    if s != "" && IsDigit(s[0]) then [(s[0] - '0') as int] + Scan(s[1..]) else []
  }

  function SkipSpace(s: string): string {
    if s != "" && IsSpace(s[0] as int) then SkipSpace(s[1..]) else s
  }

  /** strtoul and strtoull, base 10: a minus sign negates modulo 2^64, too large a number is clamped. */
  function ParseUnsigned(s: string): (n: nat)
    ensures n <= ULONG_MAX
  {
    var t := SkipSpace(s);
    var negative := t != "" && t[0] == '-';
    var signed := negative || (t != "" && t[0] == '+');
    var v := Value(10, Scan(if signed then t[1..] else t));
    if v > ULONG_MAX then ULONG_MAX
    else if negative && v > 0 then ULONG_MAX + 1 - v
    else v
  }

  function Lower(c: char): char {
    if 'A' <= c <= 'Z' then 'a' + (c - 'A') else c
  }

  /** The text starts with this word of lower-case letters, in whatever case. */
  predicate StartsWith(s: string, word: string) {
    |word| <= |s| && forall i :: 0 <= i < |word| ==> Lower(s[i]) == word[i]
  }

  /** strtod */
  function ParseDouble(s: string): Double {
    var t := SkipSpace(s);
    var negative := t != "" && t[0] == '-';
    var signed := negative || (t != "" && t[0] == '+');
    Interpret(negative, if signed then t[1..] else t)
  }

  /** The number after its sign. */
  function Interpret(negative: bool, u: string): Double {
    if StartsWith(u, "inf") then Infinite(negative)
    else if StartsWith(u, "nan") then NaN(negative)
    else if IsHex(u) then ToDouble(negative, ParseHex(u[2..]))
    else if IsDecimal(u) then ToDouble(negative, ParseDecimal(u))
    else Finite(false, 0.0)
  }

  /** A digit, maybe after a point. */
  predicate IsDecimal(s: string) {
    s != "" && (IsDigit(s[0]) || (s[0] == '.' && |s| > 1 && IsDigit(s[1])))
  }

  /** Digits, a fraction and an exponent, the latter two if present. */
  function ParseDecimal(s: string): Magnitude {
    var whole := Scan(s);
    var after := s[|whole|..];
    var fraction := if after != "" && after[0] == '.' then Scan(after[1..]) else [];
    var rest := if after != "" && after[0] == '.' then after[1 + |fraction|..] else after;
    PowPositive(10, |fraction|);
    Scaled(Value(10, whole) as real + Value(10, fraction) as real / Pow(10, |fraction|) as real, rest, 'e', 10)
  }

  /** `m` times the power of `base` that `s` starts with, if it does. */
  function Scaled(m: Magnitude, s: string, mark: char, base: nat): Magnitude
    requires base > 0
  {
    if s == "" || Lower(s[0]) != mark then m
    else
      var negative := |s| > 1 && s[1] == '-';
      var signed := negative || (|s| > 1 && s[1] == '+');
      var e := Value(10, Scan(s[if signed then 2 else 1..]));
      PowPositive(base, e);
      if negative then m / Pow(base, e) as real else m * Pow(base, e) as real
  }

  function HexDigit(c: char): Option<int> {
    if IsDigit(c) then Some((c - '0') as int)
    else if 'a' <= Lower(c) <= 'f' then Some((Lower(c) - 'a') as int + 10)
    else None
  }

  function ScanHex(s: string): (ds: seq<int>)
    ensures AreDigits(16, ds) && |ds| <= |s|
  {
    if s != "" && HexDigit(s[0]).Some? then [HexDigit(s[0]).value] + ScanHex(s[1..]) else []
  }

  /** 0x and a hexadecimal digit, maybe after a point. */
  predicate IsHex(s: string) {
    && |s| > 2 && s[0] == '0' && Lower(s[1]) == 'x'
    && (HexDigit(s[2]).Some? || (s[2] == '.' && |s| > 3 && HexDigit(s[3]).Some?))
  }

  function ParseHex(s: string): Magnitude {
    var whole := ScanHex(s);
    var after := s[|whole|..];
    var fraction := if after != "" && after[0] == '.' then ScanHex(after[1..]) else [];
    var rest := if after != "" && after[0] == '.' then after[1 + |fraction|..] else after;
    PowPositive(16, |fraction|);
    Scaled(Value(16, whole) as real + Value(16, fraction) as real / Pow(16, |fraction|) as real, rest, 'p', 2)
  }

  // ---------- Reading back what was printed ----------

  predicate StopsDigits(rest: string) {
    rest == "" || !IsDigit(rest[0])
  }

  predicate StopsNumber(rest: string) {
    StopsDigits(rest) && (rest == "" || Lower(rest[0]) != 'e')
  }

  lemma {:induction false} ScanChars(ds: seq<int>, rest: string)
    requires AreDigits(10, ds) && StopsDigits(rest)
    ensures Scan(Chars(ds) + rest) == ds
  {
    if ds == [] {
      assert Chars(ds) + rest == rest;
    } else {
      var s := Chars(ds) + rest;
      assert s[1..] == Chars(ds[1..]) + rest;
      assert s[0] == Chars(ds)[0];
      ScanChars(ds[1..], rest);
      assert ds == [ds[0]] + ds[1..];
    }
  }

  lemma NumeralsValue(n: nat)
    ensures Value(10, Numerals(n)) == n
  {
    ValueOfDigits(10, n);
    assert Value(10, [0]) == 0 by {
      assert [0][..0] == [];
    }
  }

  lemma NumeralStartsWithDigit(n: nat, rest: string)
    ensures var s := Numeral(n) + rest; s != "" && IsDigit(s[0]) && SkipSpace(s) == s && s[0] != '-' && s[0] != '+'
  {
    var s := Numeral(n) + rest;
    assert s[0] == Numeral(n)[0];
  }

  /** A printed number is read back, up to the first character that is no digit. */
  lemma ParseNumeral(n: nat, rest: string)
    requires n <= ULONG_MAX && StopsDigits(rest)
    ensures ParseUnsigned(Numeral(n) + rest) == n
  {
    hide SkipSpace, Scan;
    NumeralStartsWithDigit(n, rest);
    ScanChars(Numerals(n), rest);
    NumeralsValue(n);
  }

  lemma ThreeDigitsValue(k: nat)
    requires k < 1000
    ensures Value(10, ThreeDigits(k)) == k && Pow(10, 3) == 1000
  {
    var ds := ThreeDigits(k);
    assert ds[..2] == [ds[0], ds[1]] && [ds[0], ds[1]][..1] == [ds[0]] && [ds[0]][..0] == [];
    assert Value(10, [ds[0]]) == ds[0];
    assert Value(10, [ds[0], ds[1]]) == ds[0] * 10 + ds[1];
  }

  lemma Unscaled(m: Magnitude, rest: string)
    requires StopsNumber(rest)
    ensures Scaled(m, rest, 'e', 10) == m
  {
  }

  lemma ParseFixedMagnitude(ms: nat, rest: string)
    requires StopsNumber(rest)
    ensures ParseDecimal(Numeral(ms / 1000) + "." + Chars(ThreeDigits(ms % 1000)) + rest) == ms as real / 1000.0
  {
    hide Scan, Value, Numerals, Chars, Pow, Scaled, ThreeDigits;
    var whole, three := Numeral(ms / 1000), Chars(ThreeDigits(ms % 1000));
    var s := whole + "." + three + rest;
    assert s == whole + ("." + (three + rest));
    ScanChars(Numerals(ms / 1000), "." + (three + rest));
    assert s[|whole|..] == "." + (three + rest);
    assert ("." + (three + rest))[1..] == three + rest && ("." + (three + rest))[4..] == rest;
    ScanChars(ThreeDigits(ms % 1000), rest);
    NumeralsValue(ms / 1000);
    ThreeDigitsValue(ms % 1000);
    Unscaled((ms / 1000) as real + (ms % 1000) as real / 1000.0, rest);
    assert ms as real == (ms / 1000) as real * 1000.0 + (ms % 1000) as real;
  }

  /** The duration to the millisecond. */
  function Rounded(d: Double): Double {
    if d.Finite? then ToDouble(d.negative, Millis(d.magnitude) as real / 1000.0) else d
  }

  /** Printed and read back, a duration is rounded to the millisecond, sign included. */
  lemma ParseFixed(d: Double, rest: string)
    requires StopsNumber(rest)
    ensures ParseDouble(Fixed(d) + rest) == Rounded(d)
  {
    hide Interpret, Unsigned, Rounded, SkipSpace;
    UnsignedRead(d, rest);
    UnsignedStarts(d, rest);
    var u := Unsigned(d) + rest;
    var t := Fixed(d) + rest;
    if d.negative {
      assert t == "-" + u && t[1..] == u;
    } else {
      assert t == u;
    }
    SkipNothing(t);
  }

  lemma UnsignedRead(d: Double, rest: string)
    requires StopsNumber(rest)
    ensures Interpret(d.negative, Unsigned(d) + rest) == Rounded(d)
  {
    hide ParseDecimal, ParseHex, Numeral, Millis, ToDouble, Chars, IsHex, IsDecimal, StartsWith;
    if d.Finite? {
      var ms := Millis(d.magnitude);
      var whole, three := Numeral(ms / 1000), Chars(ThreeDigits(ms % 1000));
      ParseFixedMagnitude(ms, rest);
      assert whole + "." + three + rest == whole + ("." + three + rest);
      NumeralThenPoint(ms / 1000, "." + three + rest);
    } else {
      Words(rest);
    }
  }

  lemma UnsignedStarts(d: Double, rest: string)
    ensures var u := Unsigned(d) + rest; u != "" && !IsSpace(u[0] as int) && u[0] != '+' && u[0] != '-'
  {
    hide Millis, Chars, Numerals;
    if d.Finite? {
      assert (Unsigned(d) + rest)[0] == Numeral(Millis(d.magnitude) / 1000)[0];
    }
  }

  lemma Words(rest: string)
    ensures StartsWith("inf" + rest, "inf") && StartsWith("nan" + rest, "nan") && !StartsWith("nan" + rest, "inf")
  {
    assert ("nan" + rest)[0] == 'n';
  }

  lemma NumeralThenPoint(n: nat, tail: string)
    requires tail != "" && tail[0] == '.'
    ensures var u := Numeral(n) + tail; IsDecimal(u) && !IsHex(u) && !StartsWith(u, "inf") && !StartsWith(u, "nan")
  {
    var u := Numeral(n) + tail;
    assert u[0] == Numeral(n)[0];
    assert |Numeral(n)| > 1 ==> u[1] == Numeral(n)[1];
    hide Numeral;
  }

  lemma SkipNothing(s: string)
    requires s != "" && !IsSpace(s[0] as int)
    ensures SkipSpace(s) == s
  {
  }

  lemma WholeMillis(ms: nat)
    ensures Millis(ms as real / 1000.0) == ms
  {
    assert ms as real / 1000.0 * 1000.0 == ms as real;
  }

  /** Rounding once is enough: a rounded duration is printed the same, unless it has become infinite. */
  lemma RoundedAgain(d: Double)
    ensures Rounded(Rounded(d)) == Rounded(d) && Rounded(d).negative == d.negative
    ensures (Rounded(d).Finite? <==> d.Finite?) ==> Fixed(Rounded(d)) == Fixed(d)
  {
    hide Millis, TooLarge, Numeral;
    if d.Finite? {
      WholeMillis(Millis(d.magnitude));
    }
  }

  // ---------- How large is too large ----------

  lemma PowOne(b: nat)
    ensures Pow(b, 1) == b
  {
  }

  /** A number of at most 200 digits is not. */
  lemma SmallEnough(m: Magnitude)
    requires m < Pow(10, 200) as real
    ensures !TooLarge(m)
  {
    hide Pow;
    PowMonotone(10, 16, 200);
    assert Pow(2, 4) == 16 by {
      PowFour();
    }
    PowMul(2, 4, 200, 800);
    PowGrows(2, 800, 970);
    PowAdd(2, 970, 1);
    PowOne(2);
    PowGrows(2, 971, 1024);
  }

  lemma PowFour()
    ensures Pow(2, 4) == 16
  {
  }

  /** A one with an exponent of 400 or more is read as infinite. */
  lemma Overflows(e: nat)
    requires e >= 400
    ensures ParseDouble("1e" + Numeral(e) + ",") == Infinite(false)
  {
    hide Numerals, Chars, Scan, Value, Pow, SkipSpace, TooLarge;
    var s := "1e" + Numeral(e) + ",";
    var after := Numeral(e) + ",";
    assert s[0] == '1' && s[1] == 'e' && s[1..] == "e" + after && ("e" + after)[1..] == after;
    SkipNothing(s);
    OneThen(s);
    NumeralStartsWithDigit(e, ",");
    assert Scan(after) == Numerals(e) by {
      ScanChars(Numerals(e), ",");
      assert after == Chars(Numerals(e)) + ",";
    }
    NumeralsValue(e);
    LargeEnough(e);
  }

  lemma OneThen(s: string)
    requires |s| > 1 && s[0] == '1' && s[1] == 'e'
    ensures Scan(s) == [1] && Value(10, [1]) == 1 && Value(10, []) == 0 && Pow(10, 0) == 1
  {
    assert Scan(s[1..]) == [];
    assert [1][..0] == [];
  }

  lemma LargeEnough(e: nat)
    requires e >= 400
    ensures TooLarge(Pow(10, e) as real)
  {
    hide Pow;
    PowMonotone(8, 10, 400);
    assert Pow(2, 3) == 8 by {
      PowThree();
    }
    PowMul(2, 3, 400, 1200);
    PowGrows(2, 1024, 1200);
    PowGrows(10, 400, e);
  }

  lemma PowThree()
    ensures Pow(2, 3) == 8
  {
  }

  // ---------- Lengths ----------

  /** A number has at most `k` digits if and only if it is below the k-th power of ten. */
  lemma NumeralLength(n: nat, k: nat)
    requires k > 0
    ensures |Numeral(n)| <= k <==> n < Pow(10, k)
  {
    PowPositive(10, k);
    if n > 0 {
      if n < Pow(10, k) {
        DigitsShort(10, n, k);
      }
      ValueOfDigits(10, n);
      ValueBound(10, Digits(10, n));
      if |Digits(10, n)| <= k {
        PowGrows(10, |Digits(10, n)|, k);
      }
    }
  }

  lemma FixedLength(d: Double)
    ensures |Fixed(d)| == (if d.negative then 1 else 0) + if d.Finite? then |Numeral(Millis(d.magnitude) / 1000)| + 4 else 3
  {
  }
}
