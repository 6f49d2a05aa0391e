/**
 Base58 encoding and decoding. The in-place long multiplication of base58.c is
 `Pass`; `Encode` and `Decode` are the two functions of the source, working on
 the same temporary buffers of fixed size, and are proved against the positional
 reading of `EncodeSpec` and `DecodeSpec`. The buffer sizes are shown to lose
 nothing for any input length, and the two codecs to be inverse to each other.
 */
module Base58 {
  import opened Common
  import opened Positional

  // ---------- Alphabet ----------

  predicate InAlphabet(c: char) {
    '1' <= c <= '9' || 'A' <= c <= 'H' || 'J' <= c <= 'N' || 'P' <= c <= 'Z' || 'a' <= c <= 'k' || 'm' <= c <= 'z'
  }

  /** `kAlphabet`, as its runs of consecutive characters. */
  function CharOf(d: int): (c: char)
    requires 0 <= d < 58
    ensures InAlphabet(c) && (c == '1' <==> d == 0)
  {
    if d < 9 then '1' + d as char
    else if d < 17 then 'A' + (d - 9) as char
    else if d < 22 then 'J' + (d - 17) as char
    else if d < 33 then 'P' + (d - 22) as char
    else if d < 44 then 'a' + (d - 33) as char
    else 'm' + (d - 44) as char
  }

  /** `kAlphabetMap`: the digit a character stands for, or -1. */
  function DigitOf(c: char): (d: int)
    ensures d == -1 || 0 <= d < 58
    ensures d != -1 <==> InAlphabet(c)
    ensures InAlphabet(c) ==> CharOf(d) == c
  {
    if '1' <= c <= '9' then (c - '1') as int
    else if 'A' <= c <= 'H' then 9 + (c - 'A') as int
    else if 'J' <= c <= 'N' then 17 + (c - 'J') as int
    else if 'P' <= c <= 'Z' then 22 + (c - 'P') as int
    else if 'a' <= c <= 'k' then 33 + (c - 'a') as int
    else if 'm' <= c <= 'z' then 44 + (c - 'm') as int
    else -1
  }

  lemma DigitOfChar(d: int)
    requires 0 <= d < 58
    ensures DigitOf(CharOf(d)) == d
  {
  }

  function Letters(s: seq<int>): (t: string)
    requires AreDigits(58, s)
    ensures |t| == |s| && forall i :: 0 <= i < |s| ==> t[i] == CharOf(s[i])
  {
    seq(|s|, i requires 0 <= i < |s| => CharOf(s[i]))
  }

  predicate AllInAlphabet(t: string) {
    forall i :: 0 <= i < |t| ==> InAlphabet(t[i])
  }

  function Numerals(t: string): (s: seq<int>)
    requires AllInAlphabet(t)
    ensures AreDigits(58, s) && |s| == |t| && forall i :: 0 <= i < |t| ==> s[i] == DigitOf(t[i])
  {
    seq(|t|, i requires 0 <= i < |t| => DigitOf(t[i]))
  }

  // ---------- Specification ----------

  /** How many elements at the front equal `x`. */
  function Leading<T(==)>(s: seq<T>, x: T): (z: nat)
    ensures z <= |s| && (forall i :: 0 <= i < z ==> s[i] == x) && (z < |s| ==> s[z] != x)
  {
    LeadingFrom(s, x, 0)
  }

  function LeadingFrom<T(==)>(s: seq<T>, x: T, i: nat): (z: nat)
    requires i <= |s|
    ensures i <= z <= |s| && (forall k :: i <= k < z ==> s[k] == x) && (z < |s| ==> s[z] != x)
    decreases |s| - i
  {
    if i < |s| && s[i] == x then LeadingFrom(s, x, i + 1) else i
  }

  function Repeat<T>(x: T, n: nat): (s: seq<T>)
    ensures |s| == n && forall i :: 0 <= i < n ==> s[i] == x
  {
    seq(n, _ => x)
  }

  /** One '1' per leading zero byte, then the number the rest denotes, in base 58. */
  function EncodeSpec(b: seq<int>): string
    requires AreDigits(256, b)
  {
    Repeat('1', Leading(b, 0)) + Letters(Digits(58, Value(256, b)))
  }

  /** One zero byte per leading '1', then the number the rest denotes, in base 256. */
  function DecodeSpec(t: string): Option<seq<int>> {
    if AllInAlphabet(t) then Some(Repeat(0, Leading(t, '1')) + Digits(256, Value(58, Numerals(t)))) else None
  }

  // ---------- Round trips ----------

  lemma LeadingUnique<T>(s: seq<T>, x: T, z: nat)
    requires z <= |s| && (forall i :: 0 <= i < z ==> s[i] == x) && (z < |s| ==> s[z] != x)
    ensures Leading(s, x) == z
  {
  }

  lemma SplitAtLeading<T>(s: seq<T>, x: T)
    ensures Repeat(x, Leading(s, x)) + s[Leading(s, x)..] == s
  {
    var z := Leading(s, x);
    assert Repeat(x, z) == s[..z];
  }

  /** Past its leading zeros a digit sequence is the digits of its value. */
  lemma DigitsPastZeros(base: nat, s: seq<int>)
    requires base >= 2 && AreDigits(base, s)
    ensures Digits(base, Value(base, s)) == s[Leading(s, 0)..]
  {
    var z := Leading(s, 0);
    LeadingZeros(base, z, s);
    DigitsOfValue(base, s[z..]);
  }

  /** Putting `z` zeros before digits that start with none. */
  lemma ZerosThenDigits(base: nat, z: nat, d: seq<int>)
    requires base >= 2 && AreDigits(base, d) && (d != [] ==> d[0] != 0)
    ensures var b := Repeat(0, z) + d;
            AreDigits(base, b) && Leading(b, 0) == z && Value(base, b) == Value(base, d)
  {
    var b := Repeat(0, z) + d;
    LeadingUnique(b, 0, z);
    assert b[z..] == d;
    LeadingZeros(base, z, b);
  }

  /** Ones before letters are zeros before digits. */
  lemma OnesThenLetters(z: nat, d: seq<int>)
    requires AreDigits(58, d)
    ensures var t := Repeat('1', z) + Letters(d);
            AllInAlphabet(t) && Numerals(t) == Repeat(0, z) + d
  {
    var t := Repeat('1', z) + Letters(d);
    forall i | 0 <= i < |t| ensures InAlphabet(t[i]) && DigitOf(t[i]) == (Repeat(0, z) + d)[i] {
      if i >= z {
        DigitOfChar(d[i - z]);
      }
    }
  }

  lemma LeadingOnes(t: string)
    requires AllInAlphabet(t)
    ensures Leading(t, '1') == Leading(Numerals(t), 0)
  {
    LeadingUnique(Numerals(t), 0, Leading(t, '1'));
  }

  /** Decoding what was encoded gives back every byte string. */
  lemma DecodeAfterEncode(b: seq<int>)
    requires AreDigits(256, b)
    ensures DecodeSpec(EncodeSpec(b)) == Some(b)
  {
    var z, v := Leading(b, 0), Value(256, b);
    var d := Digits(58, v);
    OnesThenLetters(z, d);
    LeadingOnes(EncodeSpec(b));
    ZerosThenDigits(58, z, d);
    ValueOfDigits(58, v);
    DigitsPastZeros(256, b);
    SplitAtLeading(b, 0);
  }

  lemma LettersOfNumerals(t: string, z: nat)
    requires AllInAlphabet(t) && z <= |t|
    ensures Letters(Numerals(t)[z..]) == t[z..]
  {
  }

  /** Encoding what was decoded gives back every string over the alphabet; no other string decodes. */
  lemma EncodeAfterDecode(t: string)
    ensures DecodeSpec(t).Some? <==> AllInAlphabet(t)
    ensures DecodeSpec(t).Some? ==> AreDigits(256, DecodeSpec(t).value) && EncodeSpec(DecodeSpec(t).value) == t
  {
    if AllInAlphabet(t) {
      var z, v := Leading(t, '1'), Value(58, Numerals(t));
      ZerosThenDigits(256, z, Digits(256, v));
      ValueOfDigits(256, v);
      LeadingOnes(t);
      DigitsPastZeros(58, Numerals(t));
      LettersOfNumerals(t, z);
      SplitAtLeading(t, '1');
    }
  }

  // ---------- Buffer bounds ----------

  lemma PowTwice(b: nat, n: nat, x: nat)
    requires Pow(b, n) == x
    ensures Pow(b, 2 * n) == x * x
  {
    PowAdd(b, n, n);
  }

  lemma PowPlus(b: nat, m: nat, n: nat, x: nat, y: nat)
    requires Pow(b, m) == x && Pow(b, n) == y
    ensures Pow(b, m + n) == x * y
  {
    PowAdd(b, m, n);
  }

  lemma Pow256By58()
    ensures Pow(256, 8) <= Pow(58, 11)
  {
    PowTwice(256, 4, 4294967296);
    PowTwice(58, 5, 656356768);
    PowPlus(58, 10, 1, 430804206899405824, 58);
  }

  lemma Pow58At32()
    ensures Pow(58, 32) == 268965015114358137726910587140455987105619365599731777536
  {
    PowTwice(58, 4, 11316496);
    PowTwice(58, 8, 128063081718016);
    PowTwice(58, 16, 16400152899115243850138976256);
  }

  lemma Pow58At71()
    ensures Pow(58, 71)
         == 159730386663078066345306447337161584696769904898410078913243029577507397293846405390982563136983769384625594118558891106107392
  {
    Pow58At32();
    PowTwice(58, 32, 268965015114358137726910587140455987105619365599731777536);
    PowPlus(58, 4, 3, 11316496, 195112);
    PowPlus(58, 64, 7,
            72342179355466901471258927612150153907721848234316445933056526044582001260898145151856420451025374266490194231296,
            2207984167552);
  }

  lemma Pow256At52()
    ensures Pow(256, 52)
         == 169230328010303641331690318856389386196071598838855992136870091590247882556495704531248437872567112920983350278405979725889536
  {
    PowTwice(256, 4, 4294967296);
    PowTwice(256, 8, 18446744073709551616);
    PowPlus(256, 16, 4, 340282366920938463463374607431768211456, 4294967296);
    PowTwice(256, 16, 340282366920938463463374607431768211456);
    PowPlus(256, 32, 20,
            115792089237316195423570985008687907853269984665640564039457584007913129639936,
            1461501637330902918203684832716283019655932542976);
  }

  lemma Pow58By256()
    ensures Pow(58, 71) <= Pow(256, 52)
  {
    Pow58At71();
    Pow256At52();
  }

  function EncodeBufSize(n: nat): nat { n * 138 / 100 + 1 }
  function DecodeBufSize(n: nat): nat { n * 733 / 1000 + 1 }

  /** Numbers of `k` bytes fit the digit buffer of any input at least that long. */
  lemma EncodeBufHolds(k: nat, n: nat)
    requires k <= n
    ensures Pow(256, k) <= Pow(58, EncodeBufSize(n))
  {
    Pow256By58();
    PowRatio(256, 58, 8, 11, k, EncodeBufSize(n), 11 * k, 8 * EncodeBufSize(n));
  }

  lemma DecodeBufHolds(k: nat, n: nat)
    requires k <= n
    ensures Pow(58, k) <= Pow(256, DecodeBufSize(n))
  {
    Pow58By256();
    PowRatio(58, 256, 71, 52, k, DecodeBufSize(n), 52 * k, 71 * DecodeBufSize(n));
  }

  /** `XBASE58_ENCODE_MAXLEN` always leaves room for the string and its terminator. */
  lemma EncodeMaxLenSuffices(b: seq<int>)
    requires AreDigits(256, b)
    ensures |EncodeSpec(b)| + 1 <= |b| * 138 / 100 + 2
  {
    var z := Leading(b, 0);
    LeadingZeros(256, z, b);
    ValueBound(256, b[z..]);
    var k := |b| - z;
    if k == 0 {
      assert Value(256, b[z..]) == 0;
    } else {
      EncodeBufHolds(k, k);
      DigitsShort(58, Value(256, b), EncodeBufSize(k));
    }
  }

  lemma {:induction false} DigitsLonger(base: nat, v: nat, w: nat)
    requires base >= 2 && v <= w
    ensures |Digits(base, v)| <= |Digits(base, w)|
  {
    ValueOfDigits(base, w);
    ValueBound(base, Digits(base, w));
    DigitsShort(base, v, |Digits(base, w)|);
  }

  lemma {:induction false} AllTopDigits(k: nat)
    ensures AreDigits(58, Repeat(57, k)) && Value(58, Repeat(57, k)) + 1 == Pow(58, k)
  {
    if k > 0 {
      AllTopDigits(k - 1);
      assert Repeat(57, k - 1) + [57] == Repeat(57, k);
      ValueOfAppend(58, Repeat(57, k - 1), 57);
    }
  }

  /** The longest output of a string of `z` leading ones and `k` further letters. */
  function DecodedAtMost(z: nat, k: nat): nat {
    PowPositive(58, k);
    z + |Digits(256, Pow(58, k) - 1)|
  }

  predicate HasShape(t: string, z: nat, k: nat) {
    AllInAlphabet(t) && |t| == z + k && Leading(t, '1') == z
  }

  lemma DecodedLength(t: string, z: nat, k: nat)
    requires HasShape(t, z, k)
    ensures |DecodeSpec(t).value| <= DecodedAtMost(z, k)
  {
    LeadingOnes(t);
    BoundPastZeros(58, z, Numerals(t));
    DigitsLonger(256, Value(58, Numerals(t)), Pow(58, k) - 1);
  }

  lemma BoundPastZeros(base: nat, z: nat, s: seq<int>)
    requires AreDigits(base, s) && z <= |s| && forall i :: 0 <= i < z ==> s[i] == 0
    ensures Value(base, s) < Pow(base, |s| - z)
  {
    LeadingZeros(base, z, s);
    ValueBound(base, s[z..]);
  }

  /** z ones and then k times the highest digit: the string that needs the most room. */
  lemma LongestDecoded(z: nat, k: nat) returns (t: string)
    ensures HasShape(t, z, k) && |DecodeSpec(t).value| == DecodedAtMost(z, k)
  {
    var d := Repeat(57, k);
    t := Repeat('1', z) + Letters(d);
    OnesThenLetters(z, d);
    LeadingOnes(t);
    ZerosThenDigits(58, z, d);
    AllTopDigits(k);
  }

  /**
   `XBASE58_DECODE_MAXLEN` is not the bound its comment claims. It suffices for all
   strings with `z` leading ones and `k` further letters if and only if the largest
   k-letter number fits next to the `z` zero bytes.
   */
  lemma DecodeMaxLenExact(z: nat, k: nat)
    ensures (forall t :: HasShape(t, z, k) ==> |DecodeSpec(t).value| <= DecodeBufSize(z + k))
       <==> DecodedAtMost(z, k) <= DecodeBufSize(z + k)
  {
    forall t | HasShape(t, z, k) ensures |DecodeSpec(t).value| <= DecodedAtMost(z, k) {
      DecodedLength(t, z, k);
    }
    var t := LongestDecoded(z, k);
    assert HasShape(t, z, k);
  }

  /** Without leading ones it always suffices; four ones are already too many. */
  lemma DecodeMaxLenCases(k: nat)
    ensures DecodedAtMost(0, k) <= DecodeBufSize(k)
    ensures DecodedAtMost(4, 0) > DecodeBufSize(4)
  {
    PowPositive(58, k);
    DecodeBufHolds(k, k);
    DigitsShort(256, Pow(58, k) - 1, DecodeBufSize(k));
    assert Pow(58, 0) - 1 == 0;
  }

  // ---------- The long multiplication ----------

  datatype Passed = Passed(digits: seq<int>, carry: nat)

  function Then(p: Passed, low: seq<int>): Passed {
    Passed(p.digits + low, p.carry)
  }

  /** One pass over the first `n` digits, last to first: each is multiplied, the carry added and passed on. */
  function Pass(base: nat, mul: nat, s: seq<int>, n: nat, carry: nat): (r: Passed)
    requires base >= 2 && AreDigits(base, s) && n <= |s|
    ensures |r.digits| == n && AreDigits(base, r.digits)
  {
    if n == 0 then Passed([], carry)
    else
      var c := carry + mul * s[n - 1];
      Times(0, mul, 0, s[n - 1]);
      Then(Pass(base, mul, s, n - 1, c / base), [c % base])
  }

  /** The number that `lead` followed by the digits of `s` denotes; `lead` need not be a digit. */
  function Prefixed(base: nat, lead: nat, s: seq<int>): nat
    requires AreDigits(base, s)
  {
    if s == [] then lead else Prefixed(base, lead, s[..|s| - 1]) * base + s[|s| - 1]
  }

  lemma {:induction false} PrefixedByNothing(base: nat, lead: nat, s: seq<int>)
    requires AreDigits(base, s)
    ensures lead == 0 ==> Prefixed(base, lead, s) == Value(base, s)
    ensures lead > 0 ==> Prefixed(base, lead, s) >= Pow(base, |s|)
  {
    if s != [] {
      var t := s[..|s| - 1];
      PrefixedByNothing(base, lead, t);
      if lead > 0 {
        Times(Pow(base, |t|), Prefixed(base, lead, t), base, base);
      }
    }
  }

  lemma PrefixedAppend(base: nat, lead: nat, s: seq<int>, d: int)
    requires AreDigits(base, s) && 0 <= d < base
    ensures AreDigits(base, s + [d]) && Prefixed(base, lead, s + [d]) == Prefixed(base, lead, s) * base + d
  {
    assert (s + [d])[..|s|] == s;
  }

  /** The new number, the carry in front, is the old one times `mul` plus what was carried in. */
  ghost predicate Computes(base: nat, mul: nat, s: seq<int>, n: nat, carry: nat)
    requires base >= 2 && AreDigits(base, s) && n <= |s|
  {
    var r := Pass(base, mul, s, n, carry);
    Prefixed(base, r.carry, r.digits) == Value(base, s[..n]) * mul + carry
  }

  /** The two multiplications of the codec. */
  predicate IsCodec(base: nat, mul: nat) {
    (base == 58 && mul == 256) || (base == 256 && mul == 58)
  }

  lemma ComputesStep(base: nat, mul: nat, s: seq<int>, n: nat, carry: nat, c: nat)
    requires IsCodec(base, mul) && AreDigits(base, s) && 0 < n <= |s|
    requires c == carry + mul * s[n - 1] && Computes(base, mul, s, n - 1, c / base)
    ensures Computes(base, mul, s, n, carry)
  {
    hide Value, Prefixed;
    var r, d := Pass(base, mul, s, n - 1, c / base), s[n - 1];
    assert s[..n] == s[..n - 1] + [d];
    if base == 58 {
      ValueOfAppend(58, s[..n - 1], d);
      PrefixedAppend(58, r.carry, r.digits, c % 58);
    } else {
      ValueOfAppend(256, s[..n - 1], d);
      PrefixedAppend(256, r.carry, r.digits, c % 256);
    }
  }

  lemma {:induction false} PassValue(base: nat, mul: nat, s: seq<int>, n: nat, carry: nat)
    requires IsCodec(base, mul) && AreDigits(base, s) && n <= |s|
    ensures Computes(base, mul, s, n, carry)
  {
    if n > 0 {
      Times(0, mul, 0, s[n - 1]);
      var c: nat := carry + mul * s[n - 1];
      PassValue(base, mul, s, n - 1, c / base);
      ComputesStep(base, mul, s, n, carry, c);
    }
  }

  /** If the result fits the buffer nothing is carried out: no digit is lost. */
  lemma PassFits(base: nat, mul: nat, s: seq<int>, add: nat)
    requires IsCodec(base, mul) && AreDigits(base, s) && Value(base, s) * mul + add < Pow(base, |s|)
    ensures var r := Pass(base, mul, s, |s|, add);
            r.carry == 0 && Value(base, r.digits) == Value(base, s) * mul + add
  {
    var r := Pass(base, mul, s, |s|, add);
    PassValue(base, mul, s, |s|, add);
    assert s[..|s|] == s;
    PrefixedByNothing(base, r.carry, r.digits);
  }

  lemma ThenNothing(p: Passed)
    ensures Then(p, []) == p
  {
    assert p.digits + [] == p.digits;
  }

  /** The last of the `j` digits left goes to the front of those already done. */
  lemma Peel(base: nat, mul: nat, s: seq<int>, j: nat, carry: nat, low: seq<int>, c: nat)
    requires base >= 2 && AreDigits(base, s) && 0 < j <= |s| && c == carry + mul * s[j - 1]
    ensures Then(Pass(base, mul, s, j, carry), low) == Then(Pass(base, mul, s, j - 1, c / base), [c % base] + low)
  {
    var p, d := Pass(base, mul, s, j - 1, c / base), c % base;
    assert p.digits + [d] + low == p.digits + ([d] + low);
  }

  /** The inner loop of xBase58Encode. */
  method EncodePass(buf: array<int>, add: nat) returns (carry: nat)
    requires AreDigits(58, buf[..])
    modifies buf
    ensures Pass(58, 256, old(buf[..]), buf.Length, add) == Passed(buf[..], carry)
  {
    ghost var was, low := buf[..], [];
    carry := add;
    var j := buf.Length;
    ThenNothing(Pass(58, 256, was, j, add));
    while j > 0
      invariant 0 <= j <= buf.Length && |low| == buf.Length - j
      invariant forall i :: 0 <= i < j ==> buf[i] == was[i]
      invariant forall i :: j <= i < buf.Length ==> buf[i] == low[i - j]
      invariant Pass(58, 256, was, buf.Length, add) == Then(Pass(58, 256, was, j, carry), low)
    {
      ghost var before := carry;
      carry := carry + 256 * buf[j - 1];
      Peel(58, 256, was, j, before, low, carry);
      buf[j - 1] := carry % 58;
      low := [carry % 58] + low;
      carry := carry / 58;
      j := j - 1;
    }
    assert buf[..] == low;
  }

  /** The inner loop of xBase58Decode. */
  method DecodePass(buf: array<int>, add: nat) returns (carry: nat)
    requires AreDigits(256, buf[..])
    modifies buf
    ensures Pass(256, 58, old(buf[..]), buf.Length, add) == Passed(buf[..], carry)
  {
    ghost var was, low := buf[..], [];
    carry := add;
    var j := buf.Length;
    ThenNothing(Pass(256, 58, was, j, add));
    while j > 0
      invariant 0 <= j <= buf.Length && |low| == buf.Length - j
      invariant forall i :: 0 <= i < j ==> buf[i] == was[i]
      invariant forall i :: j <= i < buf.Length ==> buf[i] == low[i - j]
      invariant Pass(256, 58, was, buf.Length, add) == Then(Pass(256, 58, was, j, carry), low)
    {
      ghost var before := carry;
      carry := carry + 58 * buf[j - 1];
      Peel(256, 58, was, j, before, low, carry);
      buf[j - 1] := carry % 256;
      low := [carry % 256] + low;
      carry := carry / 256;
      j := j - 1;
    }
    assert buf[..] == low;
  }

  // ---------- xBase58Encode and xBase58Decode ----------

  /** After `i` input bytes the buffer holds their number, leading zeros aside. */
  ghost predicate HoldsBytes(s: seq<int>, src: seq<int>, zeros: nat, i: nat)
    requires AreDigits(256, src) && zeros <= i <= |src|
  {
    AreDigits(58, s) && |s| == EncodeBufSize(|src|) && Value(58, s) == Value(256, src[zeros..i])
  }

  /** One more byte: the pass carries nothing out. */
  lemma EncodeRoom(src: seq<int>, zeros: nat, i: nat, s: seq<int>)
    requires AreDigits(256, src) && zeros <= i < |src| && HoldsBytes(s, src, zeros, i)
    ensures Pass(58, 256, s, |s|, src[i]).carry == 0
    ensures HoldsBytes(Pass(58, 256, s, |s|, src[i]).digits, src, zeros, i + 1)
  {
    hide Pass;
    assert Value(256, src[zeros..i + 1]) == Value(58, s) * 256 + src[i] by {
      assert src[zeros..i + 1] == src[zeros..i] + [src[i]];
      ValueOfAppend(256, src[zeros..i], src[i]);
    }
    assert Value(256, src[zeros..i + 1]) < Pow(58, |s|) by {
      ValueBound(256, src[zeros..i + 1]);
      EncodeBufHolds(i + 1 - zeros, |src|);
    }
    PassFits(58, 256, s, src[i]);
  }

  /** After `i` letters the buffer holds their number, leading ones aside. */
  ghost predicate HoldsLetters(s: seq<int>, src: string, zeros: nat, i: nat)
    requires zeros <= i <= |src|
  {
    && AllInAlphabet(src[zeros..i]) && AreDigits(256, s) && |s| == DecodeBufSize(|src|)
    && Value(256, s) == Value(58, Numerals(src[zeros..i]))
  }

  lemma DecodeRoom(src: string, zeros: nat, i: nat, s: seq<int>)
    requires zeros <= i < |src| && InAlphabet(src[i]) && HoldsLetters(s, src, zeros, i)
    ensures Pass(256, 58, s, |s|, DigitOf(src[i])).carry == 0
    ensures HoldsLetters(Pass(256, 58, s, |s|, DigitOf(src[i])).digits, src, zeros, i + 1)
  {
    hide Pass, DigitOf;
    assert src[zeros..i + 1] == src[zeros..i] + [src[i]];
    var n := Numerals(src[zeros..i + 1]);
    assert Value(58, n) == Value(256, s) * 58 + DigitOf(src[i]) by {
      assert n == Numerals(src[zeros..i]) + [DigitOf(src[i])];
      ValueOfAppend(58, Numerals(src[zeros..i]), DigitOf(src[i]));
    }
    assert Value(58, n) < Pow(256, |s|) by {
      ValueBound(58, n);
      DecodeBufHolds(i + 1 - zeros, |src|);
    }
    PassFits(256, 58, s, DigitOf(src[i]));
  }

  /** The buffer before the first byte or letter. */
  lemma EmptyBuffer(base: nat, s: seq<int>)
    requires base >= 2 && forall i :: 0 <= i < |s| ==> s[i] == 0
    ensures AreDigits(base, s) && Value(base, s) == 0 == Value(256, []) == Value(58, [])
  {
    LeadingZeros(base, |s|, s);
  }

  /** `while (start < size && buf[start] == 0) start++`. */
  method SkipZeros(buf: array<int>) returns (start: nat)
    ensures start == Leading(buf[..], 0)
  {
    start := 0;
    while start < buf.Length && buf[start] == 0
      invariant start <= buf.Length && forall i :: 0 <= i < start ==> buf[i] == 0
    {
      start := start + 1;
    }
    LeadingUnique(buf[..], 0, start);
  }

  lemma EncodeFrom(src: seq<int>, zeros: nat, s: seq<int>)
    requires AreDigits(256, src) && zeros == Leading(src, 0) && HoldsBytes(s, src, zeros, |src|)
    ensures EncodeSpec(src) == Repeat('1', zeros) + Letters(s[Leading(s, 0)..])
  {
    assert src[zeros..|src|] == src[zeros..];
    LeadingZeros(256, zeros, src);
    DigitsPastZeros(58, s);
  }

  lemma DecodeFrom(src: string, zeros: nat, s: seq<int>)
    requires zeros == Leading(src, '1') && HoldsLetters(s, src, zeros, |src|)
    ensures DecodeSpec(src) == Some(Repeat(0, zeros) + s[Leading(s, 0)..])
  {
    assert src[zeros..|src|] == src[zeros..];
    forall i | 0 <= i < |src| ensures InAlphabet(src[i]) {
      if i >= zeros {
        assert src[i] == src[zeros..][i - zeros];
      }
    }
    LeadingOnes(src);
    assert Numerals(src)[zeros..] == Numerals(src[zeros..]);
    LeadingZeros(58, zeros, Numerals(src));
    DigitsPastZeros(256, s);
  }

  /** The loop of xBase58Encode over the input bytes. */
  method EncodeDigits(src: seq<int>, zeros: nat) returns (buf: array<int>)
    requires AreDigits(256, src) && zeros <= |src|
    ensures fresh(buf) && HoldsBytes(buf[..], src, zeros, |src|)
  {
    hide Value, Pass;
    buf := new int[EncodeBufSize(|src|)](_ => 0);
    EmptyBuffer(58, buf[..]);
    assert src[zeros..zeros] == [];
    for i := zeros to |src|
      invariant HoldsBytes(buf[..], src, zeros, i)
    {
      EncodeRoom(src, zeros, i, buf[..]);
      var carry := EncodePass(buf, src[i]);
    }
  }

  /** The loop of xBase58Decode over the input letters; stops at the first that is none. */
  method DecodeBytes(src: string, zeros: nat) returns (ok: bool, buf: array<int>)
    requires zeros <= |src|
    ensures fresh(buf) && (ok <==> AllInAlphabet(src[zeros..]))
    ensures ok ==> HoldsLetters(buf[..], src, zeros, |src|)
  {
    hide Value, Pass;
    buf := new int[DecodeBufSize(|src|)](_ => 0);
    EmptyBuffer(256, buf[..]);
    assert Numerals(src[zeros..zeros]) == [];
    for i := zeros to |src|
      invariant HoldsLetters(buf[..], src, zeros, i)
    {
      if DigitOf(src[i]) == -1 {
        assert src[zeros..][i - zeros] == src[i];
        return false, buf;
      }
      DecodeRoom(src, zeros, i, buf[..]);
      var carry := DecodePass(buf, DigitOf(src[i]));
    }
    assert src[zeros..|src|] == src[zeros..];
    ok := true;
  }

  /** `zeros` ones and then the letters of `buf[start..]`, written to the front of `dst`. */
  method WriteLetters(buf: array<int>, start: nat, zeros: nat, dst: array<char>)
    requires start <= buf.Length && AreDigits(58, buf[..]) && zeros + (buf.Length - start) < dst.Length
    modifies dst
    ensures var n := zeros + (buf.Length - start);
            && dst[..n] == Repeat('1', zeros) + Letters(buf[start..]) && dst[n] == '\0'
            && forall k :: n < k < dst.Length ==> dst[k] == old(dst[k])
  {
    ghost var letters := Letters(buf[start..]);
    forall i | 0 <= i < zeros {
      dst[i] := '1';
    }
    for i := start to buf.Length
      invariant forall k :: 0 <= k < zeros ==> dst[k] == '1'
      invariant forall k :: zeros <= k < zeros + (i - start) ==> dst[k] == letters[k - zeros]
      invariant forall k :: zeros + (i - start) <= k < dst.Length ==> dst[k] == old(dst[k])
    {
      dst[zeros + (i - start)] := CharOf(buf[i]);
    }
    dst[zeros + (buf.Length - start)] := '\0';
    assert dst[..zeros + (buf.Length - start)] == Repeat('1', zeros) + letters;
  }

  /** `zeros` zero bytes and then `buf[start..]`, written to the front of `dst`. */
  method WriteBytes(buf: array<int>, start: nat, zeros: nat, dst: array<int>)
    requires buf != dst && start <= buf.Length && zeros + (buf.Length - start) <= dst.Length
    modifies dst
    ensures var n := zeros + (buf.Length - start);
            && dst[..n] == Repeat(0, zeros) + buf[start..]
            && forall k :: n <= k < dst.Length ==> dst[k] == old(dst[k])
  {
    forall i | 0 <= i < zeros + (buf.Length - start) {
      dst[i] := if i < zeros then 0 else buf[start + (i - zeros)];
    }
    assert dst[..zeros + (buf.Length - start)] == Repeat(0, zeros) + buf[start..];
  }

  /**
   xBase58Encode: writes the encoding of `src` and a terminator to `dst` if `dstLen`
   leaves room; otherwise fails and leaves `dst` alone.
   */
  method Encode(src: seq<int>, dst: array<char>, dstLen: nat) returns (ok: bool, n: nat)
    requires AreDigits(256, src) && dstLen <= dst.Length
    modifies dst
    ensures ok <==> |EncodeSpec(src)| + 1 <= dstLen
    ensures ok ==> n == |EncodeSpec(src)| && dst[..n] == EncodeSpec(src) && dst[n] == '\0'
    ensures forall i :: (if ok then n else -1) < i < dst.Length ==> dst[i] == old(dst[i])
  {
    hide Value, Digits, Leading, EncodeSpec;
    var zeros := 0;
    while zeros < |src| && src[zeros] == 0
      invariant zeros <= |src| && forall i :: 0 <= i < zeros ==> src[i] == 0
    {
      zeros := zeros + 1;
    }
    LeadingUnique(src, 0, zeros);
    var buf := EncodeDigits(src, zeros);
    var start := SkipZeros(buf);
    EncodeFrom(src, zeros, buf[..]);
    assert buf[..][start..] == buf[start..];
    n := zeros + (buf.Length - start);
    ok := n + 1 <= dstLen;
    if ok {
      WriteLetters(buf, start, zeros, dst);
    }
  }

  /**
   xBase58Decode: writes the bytes `src` stands for to `dst` if all its letters are in
   the alphabet and `dstLen` leaves room; otherwise fails and leaves `dst` alone.
   */
  method Decode(src: string, dst: array<int>, dstLen: nat) returns (ok: bool, n: nat)
    requires dstLen <= dst.Length
    modifies dst
    ensures ok <==> DecodeSpec(src).Some? && |DecodeSpec(src).value| <= dstLen
    ensures ok ==> n == |DecodeSpec(src).value| && dst[..n] == DecodeSpec(src).value
    ensures forall i :: (if ok then n else 0) <= i < dst.Length ==> dst[i] == old(dst[i])
  {
    hide Value, Digits, Leading;
    var zeros := 0;
    while zeros < |src| && src[zeros] == '1'
      invariant zeros <= |src| && forall i :: 0 <= i < zeros ==> src[i] == '1'
    {
      zeros := zeros + 1;
    }
    LeadingUnique(src, '1', zeros);
    var valid, buf := DecodeBytes(src, zeros);
    if !valid {
      return false, 0;
    }
    var start := SkipZeros(buf);
    DecodeFrom(src, zeros, buf[..]);
    assert buf[..][start..] == buf[start..];
    n := zeros + (buf.Length - start);
    ok := n <= dstLen;
    if ok {
      WriteBytes(buf, start, zeros, dst);
    }
  }
}
