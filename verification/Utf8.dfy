/**
 UTF-8 as string.h and bytes.h implement it (sections 3 and 4 of RFC 3629). `Encode` and
 `Head` are encode_one and decode_one, `Step` is safe_utf8_step, `Validate` is
 validate_utf8 and `ToStringLossy` is Bytes::to_string_lossy. A byte is an integer below
 256; masks and shifts are written as ranges, division and remainder.
 */
module Utf8 {
  import opened Common

  type Byte = b: int | 0 <= b < 256

  // ---------- Code points and their encoding ----------

  predicate Scalar(cp: int) {
    0 <= cp <= 0x10FFFF && !(0xD800 <= cp <= 0xDFFF)
  }

  predicate AllScalar(cps: seq<int>) {
    forall i :: 0 <= i < |cps| ==> Scalar(cps[i])
  }

  /** (b & 0xC0) == 0x80 */
  predicate Continues(b: Byte) {
    0x80 <= b < 0xC0
  }

  function Encode(cp: int): (bytes: seq<Byte>)
    requires Scalar(cp)
    ensures 1 <= |bytes| <= 4 && !Continues(bytes[0]) && forall i :: 1 <= i < |bytes| ==> Continues(bytes[i])
  {
    if cp < 0x80 then [cp]
    else if cp < 0x800 then [0xC0 + cp / 64, 0x80 + cp % 64]
    else if cp < 0x10000 then [0xE0 + cp / 4096, 0x80 + cp / 64 % 64, 0x80 + cp % 64]
    else [0xF0 + cp / 262144, 0x80 + cp / 4096 % 64, 0x80 + cp / 64 % 64, 0x80 + cp % 64]
  }

  function EncodeAll(cps: seq<int>): seq<Byte>
    requires AllScalar(cps)
  {
    if cps == [] then [] else Encode(cps[0]) + EncodeAll(cps[1..])
  }

  // ---------- One step of decoding ----------

  function Two(a: Byte, b: Byte): int {
    (a - 0xC0) * 64 + (b - 0x80)
  }

  function Three(a: Byte, b: Byte, c: Byte): int {
    (a - 0xE0) * 4096 + (b - 0x80) * 64 + (c - 0x80)
  }

  function Four(a: Byte, b: Byte, c: Byte, d: Byte): int {
    (a - 0xF0) * 262144 + (b - 0x80) * 4096 + (c - 0x80) * 64 + (d - 0x80)
  }

  /** How many bytes the code point at the front takes; 0 if there is none. */
  function Step(s: seq<Byte>): (n: nat)
    ensures n <= |s| && n <= 4
  {
    if s == [] then 0
    else if s[0] < 0x80 then 1
    else if 0xC0 <= s[0] < 0xE0 then
      if |s| < 2 || !Continues(s[1]) || Two(s[0], s[1]) < 0x80 then 0 else 2
    else if 0xE0 <= s[0] < 0xF0 then
      if |s| < 3 || !Continues(s[1]) || !Continues(s[2]) then 0
      else var cp := Three(s[0], s[1], s[2]); if cp < 0x800 || 0xD800 <= cp <= 0xDFFF then 0 else 3
    else if 0xF0 <= s[0] < 0xF8 then
      if |s| < 4 || !Continues(s[1]) || !Continues(s[2]) || !Continues(s[3]) then 0
      else var cp := Four(s[0], s[1], s[2], s[3]); if cp < 0x10000 || cp > 0x10FFFF then 0 else 4
    else 0
  }

  /** cp_byte_len: what the first byte promises. */
  function Width(b: Byte): nat {
    if b < 0x80 then 1 else if 0xC0 <= b < 0xE0 then 2 else if 0xE0 <= b < 0xF0 then 3 else 4
  }

  /** decode_one, on a valid front. */
  function Head(s: seq<Byte>): int
    requires s != [] && Width(s[0]) <= |s|
  {
    match Width(s[0])
    case 1 => s[0]
    case 2 => Two(s[0], s[1])
    case 3 => Three(s[0], s[1], s[2])
    case _ => Four(s[0], s[1], s[2], s[3])
  }

  lemma SixBits(cp: int)
    requires 0 <= cp
    ensures cp == cp / 4096 * 4096 + cp / 64 % 64 * 64 + cp % 64
    ensures cp == cp / 262144 * 262144 + cp / 4096 % 64 * 4096 + cp / 64 % 64 * 64 + cp % 64
  {
    assert cp / 64 / 64 == cp / 4096 && cp / 4096 / 64 == cp / 262144;
  }

  lemma FromSixBits(a: int, b: int, c: int, d: int)
    requires 0 <= a && 0 <= b < 64 && 0 <= c < 64 && 0 <= d < 64
    ensures var cp := a * 262144 + b * 4096 + c * 64 + d;
            cp / 262144 == a && cp / 4096 % 64 == b && cp / 64 % 64 == c && cp % 64 == d
    ensures var cp := b * 4096 + c * 64 + d; cp / 4096 == b && cp / 64 % 64 == c && cp % 64 == d
  {
    var cp, low := a * 262144 + b * 4096 + c * 64 + d, b * 4096 + c * 64 + d;
    assert low / 64 == b * 64 + c && cp / 64 == a * 4096 + b * 64 + c && cp / 4096 == a * 64 + b;
  }

  /** An encoding in front is recognised and decoded, whatever follows. */
  lemma StepOfEncode(cp: int, rest: seq<Byte>)
    requires Scalar(cp)
    ensures var s := Encode(cp) + rest; Step(s) == |Encode(cp)| == Width(s[0]) && Head(s) == cp
  {
    var u := Encode(cp);
    var s := u + rest;
    SixBits(cp);
    assert s[0] == u[0] && (|u| > 1 ==> s[1] == u[1]) && (|u| > 2 ==> s[2] == u[2]) && (|u| > 3 ==> s[3] == u[3]);
  }

  /** Whatever a step recognises is the encoding of a scalar value. */
  lemma EncodeOfStep(s: seq<Byte>)
    requires Step(s) > 0
    ensures Step(s) == Width(s[0]) && Scalar(Head(s)) && s[..Step(s)] == Encode(Head(s))
  {
    match Step(s)
    case 1 => assert s[..1] == [s[0]];
    case 2 => assert s[..2] == [s[0], s[1]];
    case 3 => EncodeOfThree(s);
    case _ => EncodeOfFour(s);
  }

  lemma EncodeOfThree(s: seq<Byte>)
    requires Step(s) == 3
    ensures Width(s[0]) == 3 && Scalar(Head(s)) && s[..3] == Encode(Head(s))
  {
    FromSixBits(0, s[0] - 0xE0, s[1] - 0x80, s[2] - 0x80);
    assert s[..3] == [s[0], s[1], s[2]];
  }

  lemma EncodeOfFour(s: seq<Byte>)
    requires Step(s) == 4
    ensures Width(s[0]) == 4 && Scalar(Head(s)) && s[..4] == Encode(Head(s))
  {
    FromSixBits(s[0] - 0xF0, s[1] - 0x80, s[2] - 0x80, s[3] - 0x80);
    assert s[..4] == [s[0], s[1], s[2], s[3]];
  }

  // ---------- Decoding a whole sequence ----------

  function DecodeAll(s: seq<Byte>): Option<seq<int>> {
    if s == [] then Some([])
    else if Step(s) == 0 then None
    else
      EncodeOfStep(s);
      match DecodeAll(s[Step(s)..]) case None => None case Some(cps) => Some([Head(s)] + cps)
  }

  predicate IsValid(s: seq<Byte>) {
    DecodeAll(s).Some?
  }

  lemma {:induction false} EncodeAllConcat(a: seq<int>, b: seq<int>)
    requires AllScalar(a) && AllScalar(b)
    ensures AllScalar(a + b) && EncodeAll(a + b) == EncodeAll(a) + EncodeAll(b)
  {
    hide Encode;
    if a == [] {
      assert a + b == b;
    } else {
      EncodeAllConcat(a[1..], b);
      assert (a + b)[1..] == a[1..] + b;
    }
  }

  /** Well-formed text in front does not change how the rest decodes. */
  lemma {:induction false} DecodeAfter(cps: seq<int>, rest: seq<Byte>)
    requires AllScalar(cps)
    ensures DecodeAll(EncodeAll(cps) + rest) ==
            match DecodeAll(rest) case None => None case Some(more) => Some(cps + more)
  {
    hide Encode, Step, Head, Width;
    if cps == [] {
      assert EncodeAll(cps) + rest == rest;
      assert forall more: seq<int> :: cps + more == more;
    } else {
      var tail := EncodeAll(cps[1..]) + rest;
      var s := EncodeAll(cps) + rest;
      assert s == Encode(cps[0]) + tail;
      StepOfEncode(cps[0], tail);
      assert s[Step(s)..] == tail;
      DecodeAfter(cps[1..], rest);
      assert forall more: seq<int> :: [cps[0]] + (cps[1..] + more) == cps + more;
    }
  }

  lemma DecodeOfEncode(cps: seq<int>)
    requires AllScalar(cps)
    ensures DecodeAll(EncodeAll(cps)) == Some(cps)
  {
    DecodeAfter(cps, []);
    assert EncodeAll(cps) + [] == EncodeAll(cps) && cps + [] == cps;
  }

  lemma {:induction false} EncodeOfDecode(s: seq<Byte>)
    requires IsValid(s)
    ensures AllScalar(DecodeAll(s).value) && EncodeAll(DecodeAll(s).value) == s
  {
    hide Encode, Step, Head, Width;
    if s != [] {
      EncodeOfStep(s);
      EncodeOfDecode(s[Step(s)..]);
      assert DecodeAll(s).value[1..] == DecodeAll(s[Step(s)..]).value;
      assert s == s[..Step(s)] + s[Step(s)..];
    }
  }

  /** Valid are exactly the encodings of scalar values. */
  lemma ValidIsEncoded(s: seq<Byte>)
    ensures IsValid(s) <==> exists cps :: AllScalar(cps) && EncodeAll(cps) == s
  {
    if IsValid(s) {
      EncodeOfDecode(s);
    }
    forall cps | AllScalar(cps) && EncodeAll(cps) == s ensures IsValid(s) {
      DecodeOfEncode(cps);
    }
  }

  // ---------- validate_utf8 ----------

  /** `s` is ill-formed first at `e`: valid up to there, and no code point starts there. */
  predicate FirstError(s: seq<Byte>, e: nat) {
    e < |s| && IsValid(s[..e]) && Step(s[e..]) == 0
  }

  /** Text with a first error is not valid, and has only one first error. */
  lemma ErrorIsFinal(s: seq<Byte>, e: nat)
    requires FirstError(s, e)
    ensures !IsValid(s) && forall f: nat :: FirstError(s, f) ==> f == e
  {
    hide Step;
    NotPast(s, e);
    forall f: nat | FirstError(s, f) ensures f == e {
      if f < e {
        GoesOn(s, f, e);
      } else if e < f {
        GoesOn(s, e, f);
      }
    }
  }

  lemma NotPast(s: seq<Byte>, e: nat)
    requires FirstError(s, e)
    ensures !IsValid(s)
  {
    hide Step;
    EncodeOfDecode(s[..e]);
    DecodeAfter(DecodeAll(s[..e]).value, s[e..]);
    assert s[..e] + s[e..] == s;
  }

  /** Between two valid prefixes there is a code point. */
  lemma GoesOn(s: seq<Byte>, f: nat, e: nat)
    requires f < e <= |s| && IsValid(s[..f]) && IsValid(s[..e])
    ensures Step(s[f..]) > 0
  {
    hide Head, Encode, Width, Step;
    var t := s[f..e];
    EncodeOfDecode(s[..f]);
    assert s[..e] == s[..f] + t;
    DecodeAfter(DecodeAll(s[..f]).value, t);
    EncodeOfStep(t);
    StepOfEncode(Head(t), t[Step(t)..] + s[e..]);
    assert s[f..] == Encode(Head(t)) + (t[Step(t)..] + s[e..]);
  }

  /** One more code point keeps the text in front valid. */
  lemma OneMore(s: seq<Byte>, i: nat)
    requires i < |s| && IsValid(s[..i]) && Step(s[i..]) > 0
    ensures i + Step(s[i..]) <= |s| && IsValid(s[..i + Step(s[i..])])
  {
    hide Step, Head, Encode, Width;
    var t := s[i..];
    var n := Step(t);
    EncodeOfStep(t);
    EncodeOfDecode(s[..i]);
    DecodeAfter(DecodeAll(s[..i]).value, t[..n]);
    DecodeOfEncode([Head(t)]);
    assert EncodeAll([Head(t)]) == Encode(Head(t)) by {
      assert EncodeAll([Head(t)][1..]) == [];
    }
    assert s[..i + n] == s[..i] + t[..n];
  }

  /** The tests of the loop, at one position; it returns there unless they all pass. */
  method Accepts(s: seq<Byte>, i: nat) returns (n: nat)
    requires i < |s|
    ensures n == Step(s[i..])
  {
    assert forall k :: i <= k < |s| ==> s[i..][k - i] == s[k];
    if s[i] < 0x80 {
      return 1;
    }
    if 0xC0 <= s[i] < 0xE0 {
      if i + 1 >= |s| || !Continues(s[i + 1]) || Two(s[i], s[i + 1]) < 0x80 {
        return 0;
      }
      return 2;
    } else if 0xE0 <= s[i] < 0xF0 {
      if i + 2 >= |s| || !Continues(s[i + 1]) || !Continues(s[i + 2]) {
        return 0;
      }
      var cp := Three(s[i], s[i + 1], s[i + 2]);
      if cp < 0x800 || 0xD800 <= cp <= 0xDFFF {
        return 0;
      }
      return 3;
    } else if 0xF0 <= s[i] < 0xF8 {
      if i + 3 >= |s| || !Continues(s[i + 1]) || !Continues(s[i + 2]) || !Continues(s[i + 3]) {
        return 0;
      }
      var cp := Four(s[i], s[i + 1], s[i + 2], s[i + 3]);
      if cp < 0x10000 || cp > 0x10FFFF {
        return 0;
      }
      return 4;
    }
    return 0;
  }

  /** None for valid text, else the offset of the first error. */
  method Validate(s: seq<Byte>) returns (error: Option<nat>)
    ensures error.None? <==> IsValid(s)
    ensures error.Some? ==> FirstError(s, error.value)
  {
    hide Step;
    var i: nat := 0;
    while i < |s|
      invariant i <= |s| && IsValid(s[..i])
    {
      var n := Accepts(s, i);
      if n == 0 {
        ErrorIsFinal(s, i);
        return Some(i);
      }
      OneMore(s, i);
      StepMoves(s[i..]);
      i := i + n;
    }
    assert s[..i] == s;
    error := None;
  }

  lemma StepMoves(s: seq<Byte>)
    ensures Step(s) <= |s|
  {
  }

  // ---------- to_string_lossy ----------

  const REPLACEMENT: int := 0xFFFD

  /** The text with every byte that starts no code point replaced by U+FFFD. */
  function Lossy(s: seq<Byte>): (cps: seq<int>)
    ensures AllScalar(cps)
  {
    if s == [] then []
    else if Step(s) == 0 then [REPLACEMENT] + Lossy(s[1..])
    else
      EncodeOfStep(s);
      [Head(s)] + Lossy(s[Step(s)..])
  }

  lemma {:induction false} LossyOfValid(s: seq<Byte>)
    requires IsValid(s)
    ensures EncodeAll(Lossy(s)) == s
  {
    hide Lossy, Step;
    if s == [] {
      EmptyLossy();
    } else {
      LossyStep(s, 0);
      var n := Step(s);
      assert s[0..] == s && s == s[0..n] + s[n..];
      LossyOfValid(s[n..]);
    }
  }

  /** Always valid; text that is valid already comes back unchanged. */
  method ToStringLossy(v: seq<Byte>) returns (out: seq<Byte>)
    ensures out == EncodeAll(Lossy(v)) && IsValid(out) && (IsValid(v) ==> out == v)
  {
    hide Step, Head, Encode, Lossy;
    DecodeOfEncode(Lossy(v));
    var error := Validate(v);
    if error.None? {
      LossyOfValid(v);
      return v;
    }
    out := [];
    var i: nat := 0;
    assert v[0..] == v;
    while i < |v|
      invariant i <= |v| && out + EncodeAll(Lossy(v[i..])) == EncodeAll(Lossy(v))
    {
      var n := Accepts(v, i);
      LossyStep(v, i);
      StepMoves(v[i..]);
      if n == 0 {
        out := out + [0xEF, 0xBF, 0xBD];
        i := i + 1;
      } else {
        out := out + v[i..i + n];
        i := i + n;
      }
    }
    assert v[i..] == [];
    EmptyLossy();
    assert out + [] == out;
  }

  lemma EmptyLossy()
    ensures Lossy([]) == [] && EncodeAll([]) == []
  {
  }

  /** One turn of the loop. */
  lemma LossyStep(v: seq<Byte>, i: nat)
    requires i < |v|
    ensures i + Step(v[i..]) <= |v|
    ensures EncodeAll(Lossy(v[i..])) ==
            if Step(v[i..]) == 0 then [0xEF, 0xBF, 0xBD] + EncodeAll(Lossy(v[i + 1..]))
            else v[i..i + Step(v[i..])] + EncodeAll(Lossy(v[i + Step(v[i..])..]))
  {
    hide Encode, Step, Head, Width;
    var t := v[i..];
    var n := Step(t);
    assert t[1..] == v[i + 1..] && t[n..] == v[i + n..];
    if n == 0 {
      ReplacementBytes();
      assert Lossy(t)[1..] == Lossy(t[1..]);
    } else {
      EncodeOfStep(t);
      assert Lossy(t)[1..] == Lossy(t[n..]);
      assert t[..n] == v[i..i + n];
    }
  }

  lemma ReplacementBytes()
    ensures Encode(REPLACEMENT) == [0xEF, 0xBF, 0xBD]
  {
  }
}
