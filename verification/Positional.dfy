/** Powers and positional number systems, most significant digit first. */
module Positional {

  function Pow(b: nat, e: nat): nat {
    if e == 0 then 1 else b * Pow(b, e - 1)
  }

  lemma {:induction false} PowAdd(b: nat, m: nat, n: nat)
    ensures Pow(b, m + n) == Pow(b, m) * Pow(b, n)
  {
    if m > 0 {
      PowAdd(b, m - 1, n);
      assert b * (Pow(b, m - 1) * Pow(b, n)) == (b * Pow(b, m - 1)) * Pow(b, n);
    }
  }

  lemma {:induction false} PowMul(b: nat, m: nat, n: nat, mn: nat)
    requires mn == m * n
    ensures Pow(b, mn) == Pow(Pow(b, m), n)
  {
    if n > 0 {
      assert mn == m + m * (n - 1);
      PowMul(b, m, n - 1, mn - m);
      PowAdd(b, m, mn - m);
    }
  }

  lemma {:induction false} PowPositive(b: nat, e: nat)
    requires b > 0
    ensures Pow(b, e) > 0
  {
    if e > 0 {
      PowPositive(b, e - 1);
    }
  }

  lemma {:induction false} PowGrows(b: nat, m: nat, n: nat)
    requires b > 0 && m <= n
    ensures Pow(b, m) <= Pow(b, n)
  {
    PowAdd(b, m, n - m);
    PowPositive(b, m);
    PowPositive(b, n - m);
    assert Pow(b, m) * 1 <= Pow(b, m) * Pow(b, n - m);
  }

  lemma Times(a: nat, b: nat, c: nat, d: nat)
    requires a <= b && c <= d
    ensures a * c <= b * d
  {
    assert a * c <= b * c;
    assert b * c <= b * d;
  }

  lemma {:induction false} PowMonotone(a: nat, b: nat, e: nat)
    requires a <= b
    ensures Pow(a, e) <= Pow(b, e)
  {
    if e > 0 {
      PowMonotone(a, b, e - 1);
      Times(a, b, Pow(a, e - 1), Pow(b, e - 1));
    }
  }

  lemma {:induction false} PowStrict(a: nat, b: nat, e: nat)
    requires a < b && e > 0
    ensures Pow(a, e) < Pow(b, e)
  {
    if e == 1 {
      assert Pow(a, 1) == a * Pow(a, 0) && Pow(b, 1) == b * Pow(b, 0);
    } else {
      PowStrict(a, b, e - 1);
      Times(a, a, Pow(a, e - 1), Pow(b, e - 1));
      PowPositive(b, e - 1);
      assert a * Pow(b, e - 1) < b * Pow(b, e - 1);
    }
  }

  lemma Root(a: nat, b: nat, e: nat)
    requires e > 0 && Pow(a, e) <= Pow(b, e)
    ensures a <= b
  {
    if b < a {
      PowStrict(b, a, e);
    }
  }

  /** From one comparison to all: if b^p <= c^q then b^k <= c^n whenever n/k >= q/p. */
  lemma PowRatio(b: nat, c: nat, p: nat, q: nat, k: nat, n: nat, qk: nat, np: nat)
    requires c > 0 && p > 0 && Pow(b, p) <= Pow(c, q)
    requires qk == q * k && np == n * p && qk <= np
    ensures Pow(b, k) <= Pow(c, n)
  {
    PowMul(c, q, k, qk);
    PowMul(c, n, p, np);
    PowGrows(c, qk, np);
    PowMonotone(Pow(b, p), Pow(c, q), k);
    PowSwap(b, k, p);
    Root(Pow(b, k), Pow(c, n), p);
  }

  lemma PowSwap(b: nat, m: nat, n: nat)
    ensures Pow(Pow(b, m), n) == Pow(Pow(b, n), m)
  {
    PowMul(b, m, n, m * n);
    PowMul(b, n, m, m * n);
  }

  // ---------- Digits ----------

  predicate AreDigits(base: nat, s: seq<int>) {
    forall i :: 0 <= i < |s| ==> 0 <= s[i] < base
  }

  function Value(base: nat, s: seq<int>): nat
    requires AreDigits(base, s)
  {
    if s == [] then 0 else Value(base, s[..|s| - 1]) * base + s[|s| - 1]
  }

  lemma {:induction false} ValueConcat(base: nat, a: seq<int>, b: seq<int>)
    requires AreDigits(base, a) && AreDigits(base, b)
    ensures AreDigits(base, a + b)
    ensures Value(base, a + b) == Value(base, a) * Pow(base, |b|) + Value(base, b)
  {
    if b == [] {
      assert a + b == a;
    } else {
      var c, d := b[..|b| - 1], b[|b| - 1];
      assert (a + b)[..|a + b| - 1] == a + c;
      ValueConcat(base, a, c);
      Shift(Value(base, a), Pow(base, |c|), Value(base, c), base, d);
    }
  }

  lemma Shift(x: int, p: int, y: int, base: int, d: int)
    ensures (x * p + y) * base + d == x * (base * p) + (y * base + d)
  {
    assert (x * p) * base == x * (base * p);
  }

  lemma {:induction false} ValueBound(base: nat, s: seq<int>)
    requires AreDigits(base, s)
    ensures Value(base, s) < Pow(base, |s|)
  {
    if s != [] {
      var t := s[..|s| - 1];
      ValueBound(base, t);
      Times(Value(base, t) + 1, Pow(base, |t|), base, base);
      assert (Value(base, t) + 1) * base == Value(base, t) * base + base;
      assert Pow(base, |s|) == base * Pow(base, |t|);
    }
  }

  /** The digits of a number with no leading zero; none at all for zero. */
  function Digits(base: nat, v: nat): (s: seq<int>)
    requires base >= 2
    ensures AreDigits(base, s)
    ensures s != [] ==> s[0] != 0
    decreases v
  {
    if v == 0 then [] else Smaller(base, v); Digits(base, v / base) + [v % base]
  }

  lemma Smaller(base: nat, v: nat)
    requires base >= 2 && v > 0
    ensures 0 <= v / base < v && 0 <= v % base < base && (v / base == 0 ==> v % base != 0)
    ensures v == (v / base) * base + v % base
  {
    assert v == base * (v / base) + v % base;
    if v / base >= v {
      Times(2, base, v, v / base);
    }
  }

  lemma ValueOfAppend(base: nat, s: seq<int>, d: int)
    requires AreDigits(base, s) && 0 <= d < base
    ensures AreDigits(base, s + [d]) && Value(base, s + [d]) == Value(base, s) * base + d
  {
    assert (s + [d])[..|s|] == s;
  }

  lemma {:induction false} ValueOfDigits(base: nat, v: nat)
    requires base >= 2
    ensures Value(base, Digits(base, v)) == v
  {
    if v > 0 {
      Smaller(base, v);
      ValueOfDigits(base, v / base);
      ValueOfAppend(base, Digits(base, v / base), v % base);
    }
  }

  lemma Quotient(base: nat, x: nat, d: nat)
    requires d < base
    ensures (x * base + d) / base == x && (x * base + d) % base == d
  {
    var v := x * base + d;
    var q, r := v / base, v % base;
    assert v == q * base + r;
    assert (x - q) * base == r - d;
    Sign(x - q, base);
  }

  lemma Sign(k: int, base: nat)
    ensures k >= 1 ==> k * base >= base
    ensures k <= -1 ==> k * base + base <= 0
  {
  }

  /** A number has one representation without leading zeros. */
  lemma {:induction false} DigitsOfValue(base: nat, s: seq<int>)
    requires base >= 2 && AreDigits(base, s) && (s != [] ==> s[0] != 0)
    ensures Digits(base, Value(base, s)) == s
  {
    if s != [] {
      var t, d := s[..|s| - 1], s[|s| - 1];
      assert s == t + [d];
      DigitsOfValue(base, t);
      DigitsOfAppend(base, Value(base, t), d);
      if Value(base, t) == 0 {
        assert t == [];
      }
    }
  }

  lemma DigitsOfAppend(base: nat, x: nat, d: nat)
    requires base >= 2 && d < base && (x > 0 || d > 0)
    ensures Digits(base, x * base + d) == Digits(base, x) + [d]
  {
    Quotient(base, x, d);
    if x > 0 {
      Times(1, x, 1, base);
    }
  }

  /** How many digits a number needs. */
  lemma {:induction false} DigitsShort(base: nat, v: nat, n: nat)
    requires base >= 2 && v < Pow(base, n)
    ensures |Digits(base, v)| <= n
  {
    if v > 0 {
      Smaller(base, v);
      if n > 0 {
        if v / base >= Pow(base, n - 1) {
          Times(Pow(base, n - 1), v / base, base, base);
        }
        DigitsShort(base, v / base, n - 1);
      }
    }
  }

  lemma {:induction false} LeadingZeros(base: nat, z: nat, s: seq<int>)
    requires AreDigits(base, s) && z <= |s| && forall i :: 0 <= i < z ==> s[i] == 0
    ensures Value(base, s) == Value(base, s[z..])
    decreases |s|
  {
    if z == |s| {
      if s != [] {
        LeadingZeros(base, z - 1, s[..|s| - 1]);
        assert s[..|s| - 1][z - 1..] == [];
      }
    } else {
      LeadingZeros(base, z, s[..|s| - 1]);
      assert s[..|s| - 1][z..] == s[z..][..|s[z..]| - 1];
    }
  }
}
