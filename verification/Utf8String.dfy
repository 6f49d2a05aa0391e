/**
 `String`: a byte buffer that always holds valid UTF-8. Its mutators and searches work on
 bytes; here they are shown to be the same operations on the sequence of code points. The
 key is that UTF-8 synchronises itself: a valid non-empty pattern can match only where a
 code point starts, and must end where one ends.
 */
module Utf8String {
  import opened Common
  import Positional
  import opened Utf8

  // ---------- Boundaries ----------

  /** is_codepoint_boundary */
  predicate Boundary(s: seq<Byte>, k: nat) {
    k == 0 || k >= |s| || !Continues(s[k])
  }

  function Text(s: seq<Byte>): (cps: seq<int>)
    requires IsValid(s)
    ensures AllScalar(cps) && EncodeAll(cps) == s
  {
    EncodeOfDecode(s);
    DecodeAll(s).value
  }

  lemma TextOfEncoded(cps: seq<int>)
    requires AllScalar(cps)
    ensures IsValid(EncodeAll(cps)) && Text(EncodeAll(cps)) == cps
  {
    DecodeOfEncode(cps);
  }

  lemma Join(a: seq<Byte>, b: seq<Byte>)
    requires IsValid(a)
    ensures IsValid(a + b) <==> IsValid(b)
    ensures IsValid(b) ==> Text(a + b) == Text(a) + Text(b)
  {
    DecodeAfter(Text(a), b);
  }

  lemma JoinThree(a: seq<Byte>, b: seq<Byte>, c: seq<Byte>)
    requires IsValid(a) && IsValid(b) && IsValid(c)
    ensures IsValid(a + b + c) && Text(a + b + c) == Text(a) + Text(b) + Text(c)
  {
    Join(a, b);
    Join(a + b, c);
  }

  lemma FirstByte(s: seq<Byte>)
    requires IsValid(s) && s != []
    ensures !Continues(s[0])
  {
    hide Encode;
    EncodeOfStep(s);
  }

  lemma One(cp: int)
    requires Scalar(cp)
    ensures IsValid(Encode(cp)) && Text(Encode(cp)) == [cp]
  {
    TextOfEncoded([cp]);
    assert EncodeAll([cp][1..]) == [];
    assert EncodeAll([cp]) == Encode(cp);
  }

  /** The first code point and the rest. */
  lemma Front(s: seq<Byte>)
    requires IsValid(s) && s != []
    ensures var n := Step(s);
            && 1 <= n <= |s| && n == Width(s[0]) && Text(s)[0] == Head(s) && s[..n] == Encode(Head(s))
            && IsValid(s[n..]) && Text(s)[1..] == Text(s[n..])
    ensures forall i :: 1 <= i < Step(s) ==> Continues(s[i])
  {
    hide Encode, Width, Head, Step;
    EncodeOfStep(s);
    StepMoves(s);
    assert forall i :: 0 <= i < Step(s) ==> s[i] == s[..Step(s)][i];
  }

  /** At a boundary valid text falls into two valid parts, */
  lemma {:induction false} BoundarySplits(s: seq<Byte>, k: nat)
    requires IsValid(s) && k <= |s| && Boundary(s, k)
    ensures IsValid(s[..k]) && IsValid(s[k..]) && Text(s) == Text(s[..k]) + Text(s[k..])
    decreases |s|
  {
    hide Encode, Width, Head, Step, Text, IsValid;
    if k == 0 {
      EmptyText();
      assert s[..k] == [] && s[k..] == s;
    } else {
      Front(s);
      var n := Step(s);
      assert k >= n;
      BoundarySplits(s[n..], k - n);
      assert s[n..][k - n..] == s[k..] && s[n..][..k - n] == s[n..k];
      assert s[..k] == s[..n] + s[n..k];
      One(Head(s));
      Join(s[..n], s[n..k]);
      assert s == s[..k] + s[k..];
      Join(s[..k], s[k..]);
    }
  }

  lemma EmptyText()
    ensures IsValid([]) && Text([]) == []
  {
  }

  /** and it falls so nowhere else. */
  lemma SplitIsBoundary(s: seq<Byte>, k: nat)
    requires IsValid(s) && k <= |s| && IsValid(s[..k])
    ensures Boundary(s, k)
  {
    Join(s[..k], s[k..]);
    assert s == s[..k] + s[k..];
    if k < |s| {
      FirstByte(s[k..]);
    }
  }

  predicate MatchAt<T(==)>(s: seq<T>, pat: seq<T>, i: nat) {
    i + |pat| <= |s| && s[i..i + |pat|] == pat
  }

  /** A match of a valid pattern lies between two boundaries. */
  lemma MatchOnBoundaries(s: seq<Byte>, pat: seq<Byte>, i: nat)
    requires IsValid(s) && IsValid(pat) && pat != [] && MatchAt(s, pat, i)
    ensures Boundary(s, i) && Boundary(s, i + |pat|)
  {
    FirstByte(pat);
    assert s[i] == s[i..i + |pat|][0];
    BoundarySplits(s, i);
    var t := s[i..];
    assert t[..|pat|] == pat;
    SplitIsBoundary(t, |pat|);
    assert i + |pat| < |s| ==> t[|pat|] == s[i + |pat|];
  }

  // ---------- Search and replacement, on any sequences ----------

  function FirstMatch<T(==)>(s: seq<T>, pat: seq<T>): (r: Option<nat>)
    ensures r.Some? ==> r.value + |pat| <= |s|
  {
    if |pat| > |s| then None
    else if pat <= s then Some(0)
    else if s == [] then None
    else match FirstMatch(s[1..], pat) case None => None case Some(k) => Some(k + 1)
  }

  /** A limit of None is no limit. */
  function Less(limit: Option<nat>): Option<nat> {
    if limit.Some? && limit.value > 0 then Some(limit.value - 1) else limit
  }

  /** The first matches, from left to right and up to the limit, are replaced. */
  function ReplaceIn<T(==)>(s: seq<T>, pat: seq<T>, to: seq<T>, limit: Option<nat>): seq<T>
    requires pat != []
    decreases |s|
  {
    if limit == Some(0) then s
    else match FirstMatch(s, pat)
         case None => s
         case Some(k) => s[..k] + to + ReplaceIn(s[k + |pat|..], pat, to, Less(limit))
  }

  lemma MatchShift<T>(s: seq<T>, pat: seq<T>, j: nat)
    requires s != []
    ensures MatchAt(s, pat, j + 1) <==> MatchAt(s[1..], pat, j)
  {
    if j + 1 + |pat| <= |s| {
      assert s[j + 1..j + 1 + |pat|] == s[1..][j..j + |pat|];
    }
  }

  lemma MatchZero<T>(s: seq<T>, pat: seq<T>)
    ensures MatchAt(s, pat, 0) <==> pat <= s
  {
    if |pat| <= |s| {
      assert s[0..|pat|] == s[..|pat|];
    }
  }

  /** The least match is the first one. */
  lemma {:induction false} LeastIsFirst<T>(s: seq<T>, pat: seq<T>, k: nat)
    requires k + |pat| <= |s| && MatchAt(s, pat, k) && forall j: nat :: j < k ==> !MatchAt(s, pat, j)
    ensures FirstMatch(s, pat) == Some(k)
  {
    hide MatchAt;
    MatchZero(s, pat);
    if k > 0 {
      forall j: nat | j < k - 1 ensures !MatchAt(s[1..], pat, j) {
        MatchShift(s, pat, j);
      }
      MatchShift(s, pat, k - 1);
      LeastIsFirst(s[1..], pat, k - 1);
    }
  }

  lemma {:induction false} NoneIsNone<T>(s: seq<T>, pat: seq<T>)
    requires forall j: nat :: !MatchAt(s, pat, j)
    ensures FirstMatch(s, pat) == None
  {
    hide MatchAt;
    MatchZero(s, pat);
    if s != [] {
      forall j: nat ensures !MatchAt(s[1..], pat, j) {
        MatchShift(s, pat, j);
      }
      NoneIsNone(s[1..], pat);
    }
  }

  lemma {:induction false} FirstMatches<T>(s: seq<T>, pat: seq<T>)
    ensures FirstMatch(s, pat).Some? ==> MatchAt(s, pat, FirstMatch(s, pat).value)
  {
    hide MatchAt;
    MatchZero(s, pat);
    if |pat| <= |s| && !(pat <= s) && s != [] {
      FirstMatches(s[1..], pat);
      var k := FirstMatch(s[1..], pat);
      if k.Some? {
        MatchShift(s, pat, k.value);
      }
    }
  }

  // ---------- Matching bytes is matching code points ----------

  /** One encoding is a prefix of another exactly if the texts are. */
  lemma {:induction false} PrefixIff(pat: seq<int>, cps: seq<int>)
    requires AllScalar(pat) && AllScalar(cps)
    ensures EncodeAll(pat) <= EncodeAll(cps) <==> pat <= cps
  {
    var p, s := EncodeAll(pat), EncodeAll(cps);
    if p <= s {
      TextOfEncoded(pat);
      Join(p, s[|p|..]);
      assert p + s[|p|..] == s;
      TextOfEncoded(cps);
    }
    if pat <= cps {
      EncodeAllConcat(pat, cps[|pat|..]);
      assert pat + cps[|pat|..] == cps;
    }
  }

  function Shift(n: nat, r: Option<nat>): Option<nat> {
    match r case None => None case Some(k) => Some(n + k)
  }

  /** Continuation bytes cannot start a match. */
  lemma {:induction false} SkipContinuations(u: seq<Byte>, rest: seq<Byte>, pat: seq<Byte>)
    requires pat != [] && !Continues(pat[0]) && forall i :: 0 <= i < |u| ==> Continues(u[i])
    ensures FirstMatch(u + rest, pat) == Shift(|u|, FirstMatch(rest, pat))
  {
    if u == [] {
      assert u + rest == rest;
    } else {
      var s := u + rest;
      assert s[1..] == u[1..] + rest;
      SkipContinuations(u[1..], rest, pat);
      assert s[0] == u[0];
    }
  }

  lemma ShiftOnce<T>(s: seq<T>, pat: seq<T>)
    requires s != [] && !(pat <= s)
    ensures FirstMatch(s, pat) == Shift(1, FirstMatch(s[1..], pat))
  {
  }

  /** Past a code point that does not start a match. */
  lemma SkipOne(cp: int, rest: seq<Byte>, pat: seq<Byte>)
    requires Scalar(cp) && pat != [] && !Continues(pat[0]) && !(pat <= Encode(cp) + rest)
    ensures FirstMatch(Encode(cp) + rest, pat) == Shift(|Encode(cp)|, FirstMatch(rest, pat))
  {
    hide Encode, FirstMatch;
    var u := Encode(cp);
    var s := u + rest;
    assert s[1..] == u[1..] + rest;
    SkipContinuations(u[1..], rest, pat);
    ShiftOnce(s, pat);
  }

  lemma {:induction false} FirstMatchRefines(cps: seq<int>, pat: seq<int>)
    requires AllScalar(cps) && AllScalar(pat) && pat != []
    ensures var k := FirstMatch(cps, pat);
            FirstMatch(EncodeAll(cps), EncodeAll(pat)) == if k.None? then None else Some(|EncodeAll(cps[..k.value])|)
  {
    hide Encode;
    var p, s := EncodeAll(pat), EncodeAll(cps);
    TextOfEncoded(pat);
    FirstByte(p);
    PrefixIff(pat, cps);
    if pat <= cps {
      assert cps[..0] == [];
    } else if cps != [] {
      var rest := EncodeAll(cps[1..]);
      SkipOne(cps[0], rest, p);
      FirstMatchRefines(cps[1..], pat);
      var k := FirstMatch(cps[1..], pat);
      if k.Some? {
        assert cps[..k.value + 1] == [cps[0]] + cps[1..][..k.value];
        assert cps[..k.value + 1][1..] == cps[1..][..k.value];
      }
    }
  }

  lemma {:induction false} ReplaceKeepsScalar(s: seq<int>, pat: seq<int>, to: seq<int>, limit: Option<nat>)
    requires AllScalar(s) && AllScalar(to) && pat != []
    ensures AllScalar(ReplaceIn(s, pat, to, limit))
    decreases |s|
  {
    var k := FirstMatch(s, pat);
    if limit != Some(0) && k.Some? {
      ReplaceKeepsScalar(s[k.value + |pat|..], pat, to, Less(limit));
    }
  }

  /** Replacing bytes is replacing code points. */
  lemma {:induction false} ReplaceRefines(cps: seq<int>, pat: seq<int>, to: seq<int>, limit: Option<nat>)
    requires AllScalar(cps) && AllScalar(pat) && AllScalar(to) && pat != []
    ensures AllScalar(ReplaceIn(cps, pat, to, limit)) && EncodeAll(pat) != []
    ensures ReplaceIn(EncodeAll(cps), EncodeAll(pat), EncodeAll(to), limit) == EncodeAll(ReplaceIn(cps, pat, to, limit))
    decreases |cps|
  {
    hide EncodeAll, FirstMatch, ReplaceIn, Less;
    ReplaceKeepsScalar(cps, pat, to, limit);
    EncodedNonEmpty(pat);
    var k := FirstMatch(cps, pat);
    FirstMatchRefines(cps, pat);
    if limit != Some(0) && k.Some? {
      var a, rest := cps[..k.value], cps[k.value + |pat|..];
      MatchSplits(cps, pat);
      ReplaceKeepsScalar(rest, pat, to, Less(limit));
      ReplaceRefines(rest, pat, to, Less(limit));
      EncodeThree(a, pat, rest);
      EncodeThree(a, to, ReplaceIn(rest, pat, to, Less(limit)));
      ReplaceUnfolds(cps, pat, to, limit);
      ReplaceUnfolds(EncodeAll(cps), EncodeAll(pat), EncodeAll(to), limit);
      Cut(EncodeAll(a), EncodeAll(pat), EncodeAll(rest));
    } else {
      ReplaceNothing(cps, pat, to, limit);
      ReplaceNothing(EncodeAll(cps), EncodeAll(pat), EncodeAll(to), limit);
    }
  }

  lemma ReplaceUnfolds<T>(s: seq<T>, pat: seq<T>, to: seq<T>, limit: Option<nat>)
    requires pat != [] && limit != Some(0) && FirstMatch(s, pat).Some?
    ensures var k := FirstMatch(s, pat).value;
            ReplaceIn(s, pat, to, limit) == s[..k] + (to + ReplaceIn(s[k + |pat|..], pat, to, Less(limit)))
  {
    var k := FirstMatch(s, pat).value;
    var rest := ReplaceIn(s[k + |pat|..], pat, to, Less(limit));
    assert s[..k] + to + rest == s[..k] + (to + rest);
  }

  lemma ReplaceNothing<T>(s: seq<T>, pat: seq<T>, to: seq<T>, limit: Option<nat>)
    requires pat != [] && (limit == Some(0) || FirstMatch(s, pat).None?)
    ensures ReplaceIn(s, pat, to, limit) == s
  {
  }

  lemma EncodeThree(a: seq<int>, b: seq<int>, c: seq<int>)
    requires AllScalar(a) && AllScalar(b) && AllScalar(c)
    ensures AllScalar(a + (b + c)) && EncodeAll(a + (b + c)) == EncodeAll(a) + (EncodeAll(b) + EncodeAll(c))
  {
    EncodeAllConcat(b, c);
    EncodeAllConcat(a, b + c);
  }

  lemma Cut<T>(a: seq<T>, b: seq<T>, c: seq<T>)
    ensures (a + (b + c))[..|a|] == a && (a + (b + c))[|a| + |b|..] == c
  {
  }

  lemma EncodedNonEmpty(cps: seq<int>)
    requires AllScalar(cps) && cps != []
    ensures EncodeAll(cps) != []
  {
  }

  lemma MatchSplits<T>(s: seq<T>, pat: seq<T>)
    ensures var k := FirstMatch(s, pat); k.Some? ==> s == s[..k.value] + (pat + s[k.value + |pat|..])
  {
    hide FirstMatch;
    FirstMatches(s, pat);
    var r := FirstMatch(s, pat);
    if r.Some? {
      var k := r.value;
      assert s == s[..k] + (s[k..k + |pat|] + s[k + |pat|..]);
    }
  }

  // ---------- Trimming ----------

  function TrimFront(s: seq<int>): seq<int> {
    if s != [] && IsSpace(s[0]) then TrimFront(s[1..]) else s
  }

  function TrimBack(s: seq<int>): seq<int> {
    if s != [] && IsSpace(s[|s| - 1]) then TrimBack(s[..|s| - 1]) else s
  }

  lemma SpaceIsOneByte(cp: int)
    requires Scalar(cp)
    ensures IsSpace(cp) ==> Encode(cp) == [cp]
    ensures IsSpace(Encode(cp)[0]) <==> IsSpace(cp)
    ensures IsSpace(Encode(cp)[|Encode(cp)| - 1]) <==> IsSpace(cp)
  {
  }

  lemma {:induction false} TrimFrontRefines(cps: seq<int>)
    requires AllScalar(cps)
    ensures AllScalar(TrimFront(cps)) && TrimFront(EncodeAll(cps)) == EncodeAll(TrimFront(cps))
  {
    hide Encode;
    if cps != [] {
      SpaceIsOneByte(cps[0]);
      var u, rest := Encode(cps[0]), EncodeAll(cps[1..]);
      assert (u + rest)[0] == u[0];
      if IsSpace(cps[0]) {
        TrimFrontRefines(cps[1..]);
        assert (u + rest)[1..] == rest;
      }
    }
  }

  lemma {:induction false} TrimBackRefines(cps: seq<int>)
    requires AllScalar(cps)
    ensures AllScalar(TrimBack(cps)) && TrimBack(EncodeAll(cps)) == EncodeAll(TrimBack(cps))
  {
    hide Encode;
    if cps != [] {
      var n := |cps| - 1;
      SpaceIsOneByte(cps[n]);
      var front, u := EncodeAll(cps[..n]), Encode(cps[n]);
      assert EncodeAll(cps) == front + u by {
        EncodeAllConcat(cps[..n], [cps[n]]);
        assert cps[..n] + [cps[n]] == cps && EncodeAll([cps[n]][1..]) == [];
      }
      assert (front + u)[|front + u| - 1] == u[|u| - 1];
      if IsSpace(cps[n]) {
        TrimBackRefines(cps[..n]);
        assert (front + u)[..|front + u| - 1] == front;
      }
    }
  }

  // ---------- Lemmas for the search loops ----------

  const SIZE_MAX: nat := 0xFFFF_FFFF_FFFF_FFFF

  lemma TooLong<T>(s: seq<T>, pat: seq<T>)
    requires |pat| > |s|
    ensures FirstMatch(s, pat) == None
  {
  }

  lemma MatchInSuffix<T>(s: seq<T>, pat: seq<T>, start: nat, j: nat)
    requires start <= |s|
    ensures MatchAt(s[start..], pat, j) <==> MatchAt(s, pat, start + j)
  {
    if start + j + |pat| <= |s| {
      assert s[start + j..start + j + |pat|] == s[start..][j..j + |pat|];
    }
  }

  lemma FoundIs(s: seq<Byte>, pat: seq<Byte>, start: nat, i: nat)
    requires start <= i && i + |pat| <= |s| && MatchAt(s, pat, i) && forall k :: start <= k < i ==> !MatchAt(s, pat, k)
    ensures Shift(start, FirstMatch(s[start..], pat)) == Some(i)
  {
    hide MatchAt, FirstMatch;
    MatchInSuffix(s, pat, start, i - start);
    forall j: nat | j < i - start ensures !MatchAt(s[start..], pat, j) {
      MatchInSuffix(s, pat, start, j);
    }
    LeastIsFirst(s[start..], pat, i - start);
  }

  lemma NotFound(s: seq<Byte>, pat: seq<Byte>, start: nat, i: nat)
    requires start <= |s| && i + |pat| > |s| && forall k :: start <= k < i ==> !MatchAt(s, pat, k)
    ensures FirstMatch(s[start..], pat) == None
  {
    hide FirstMatch;
    forall j: nat ensures !MatchAt(s[start..], pat, j) {
      MatchInSuffix(s, pat, start, j);
    }
    NoneIsNone(s[start..], pat);
  }

  lemma MatchInside(s: seq<Byte>, pat: seq<Byte>, pos: nat, k: nat)
    requires pos <= |s| && Shift(pos, FirstMatch(s[pos..], pat)) == Some(k)
    ensures pos <= k && k + |pat| <= |s|
  {
  }

  /** One turn of the replace loop. */
  lemma ReplaceTurn(s: seq<Byte>, pat: seq<Byte>, to: seq<Byte>, limit: Option<nat>, pos: nat, k: nat)
    requires pat != [] && limit != Some(0) && pos <= k && k + |pat| <= |s|
    requires Shift(pos, FirstMatch(s[pos..], pat)) == Some(k)
    ensures ReplaceIn(s[pos..], pat, to, limit) == s[pos..k] + to + ReplaceIn(s[k + |pat|..], pat, to, Less(limit))
  {
    hide FirstMatch, ReplaceIn, Less;
    var t := s[pos..];
    assert t[..k - pos] == s[pos..k] && t[k - pos + |pat|..] == s[k + |pat|..];
    ReplaceUnfolds(t, pat, to, limit);
    var rest := ReplaceIn(s[k + |pat|..], pat, to, Less(limit));
    assert s[pos..k] + to + rest == s[pos..k] + (to + rest);
  }

  lemma ReplaceRest(s: seq<Byte>, pat: seq<Byte>, to: seq<Byte>, limit: Option<nat>, pos: nat)
    requires pat != [] && pos <= |s|
    requires pos == |s| || limit == Some(0) || FirstMatch(s[pos..], pat).None?
    ensures ReplaceIn(s[pos..], pat, to, limit) == s[pos..]
  {
    ReplaceNothing(s[pos..], pat, to, limit);
  }

  lemma ReplaceZero(s: seq<Byte>, pat: seq<Byte>, to: seq<Byte>, limit: Option<nat>)
    ensures pat != [] && limit == Some(0) ==> ReplaceIn(s, pat, to, limit) == s
  {
  }

  lemma EmptyIffEmpty(s: seq<Byte>)
    requires IsValid(s)
    ensures s == [] <==> Text(s) == []
  {
  }

  /** On valid text the replaced bytes are valid and are the replaced code points. */
  lemma ReplaceText(s: seq<Byte>, pat: seq<Byte>, to: seq<Byte>, limit: Option<nat>)
    requires IsValid(s) && IsValid(pat) && IsValid(to)
    ensures pat != [] && Text(pat) != [] ==>
              && IsValid(ReplaceIn(s, pat, to, limit))
              && Text(ReplaceIn(s, pat, to, limit)) == ReplaceIn(Text(s), Text(pat), Text(to), limit)
  {
    hide IsValid, Text, ReplaceIn;
    if Text(pat) != [] {
      ReplaceRefines(Text(s), Text(pat), Text(to), limit);
      TextOfEncoded(ReplaceIn(Text(s), Text(pat), Text(to), limit));
    }
  }

  // ---------- The string ----------

  /** Back to the last byte that is no continuation: the last code point. */
  lemma LastPoint(s: seq<Byte>, pos: nat)
    requires IsValid(s) && pos < |s| && Boundary(s, pos) && forall k :: pos < k < |s| ==> Continues(s[k])
    ensures IsValid(s[..pos]) && Width(s[pos]) <= |s| - pos && Text(s) == Text(s[..pos]) + [Head(s[pos..])]
  {
    hide IsValid, Text, Head, Width, Step, Encode;
    BoundarySplits(s, pos);
    var t := s[pos..];
    Front(t);
    var rest := t[Step(t)..];
    assert rest == [] by {
      assert forall k :: 0 <= k < |rest| ==> rest[k] == s[pos + Step(t) + k];
      if rest != [] {
        FirstByte(rest);
      }
    }
    EmptyText();
    assert Text(t) == [Text(t)[0]] + Text(t)[1..];
  }

  lemma RemovePoint(s: seq<Byte>, pos: nat)
    requires IsValid(s) && pos < |s| && Boundary(s, pos)
    ensures IsValid(s[..pos]) && IsValid(s[pos..]) && Width(s[pos]) <= |s| - pos && Text(s[pos..]) != []
    ensures var t := s[..pos] + s[pos + Width(s[pos])..];
            IsValid(t) && Text(t) == Text(s[..pos]) + Text(s[pos..])[1..] && Text(s[pos..])[0] == Head(s[pos..])
  {
    hide IsValid, Text, Head, Width, Step, Encode;
    BoundarySplits(s, pos);
    Front(s[pos..]);
    assert s[pos..][Width(s[pos])..] == s[pos + Width(s[pos])..];
    Join(s[..pos], s[pos + Width(s[pos])..]);
  }

  /** `p` over and over, `n` bytes of it. */
  function Cycle(p: seq<Byte>, n: nat): (c: seq<Byte>)
    requires p != []
    ensures |c| == n
  {
    seq(n, i requires i >= 0 => p[i % |p|])
  }

  /** What insert_str puts into the gap: the bytes of `s`, or those before `pos` over and over if `s` is the string itself. */
  function Filled(bytes: seq<Byte>, pos: nat, add: seq<Byte>, self: bool): seq<Byte>
    requires pos <= |bytes| && (self ==> add == bytes)
  {
    if self && pos > 0 then Cycle(bytes[..pos], |bytes|) else add
  }

  /** The string is another one, or what it repeats is what it holds. */
  predicate InsertSafe(bytes: seq<Byte>, pos: nat, self: bool)
    requires pos <= |bytes|
  {
    !self || pos == 0 || forall i :: 0 <= i < |bytes| ==> bytes[i] == bytes[i % pos]
  }

  lemma FilledLength(bytes: seq<Byte>, pos: nat, add: seq<Byte>, self: bool)
    requires pos <= |bytes| && (self ==> add == bytes)
    ensures |Filled(bytes, pos, add, self)| == |add|
  {
  }

  /** Past `pos` the filling repeats what it wrote `pos` bytes earlier. */
  lemma FilledAt(bytes: seq<Byte>, pos: nat, add: seq<Byte>, self: bool, i: nat)
    requires pos <= |bytes| && (self ==> add == bytes) && i < |add|
    ensures |Filled(bytes, pos, add, self)| == |add|
    ensures Filled(bytes, pos, add, self)[i] ==
            if self && i >= pos > 0 then Filled(bytes, pos, add, self)[i - pos] else add[i]
  {
    if self && pos > 0 {
      if i >= pos {
        ModStep(i, pos);
      } else {
        Positional.Quotient(pos, 0, i);
      }
    }
  }

  lemma ModStep(i: nat, n: nat)
    requires 0 < n <= i
    ensures (i - n) % n == i % n
  {
    var q, r := i / n, i % n;
    assert i == q * n + r && q >= 1;
    assert i - n == (q - 1) * n + r;
    Positional.Quotient(n, q - 1, r);
  }

  lemma SafeIffFilled(bytes: seq<Byte>, pos: nat, add: seq<Byte>, self: bool)
    requires pos <= |bytes| && (self ==> add == bytes)
    ensures InsertSafe(bytes, pos, self) <==>
            bytes[..pos] + Filled(bytes, pos, add, self) + bytes[pos..] == bytes[..pos] + add + bytes[pos..]
  {
    var f := Filled(bytes, pos, add, self);
    FilledLength(bytes, pos, add, self);
    SameMiddle(bytes[..pos], f, add, bytes[pos..]);
    if self && pos > 0 {
      assert forall i :: 0 <= i < |bytes| ==> f[i] == bytes[i % pos];
    }
  }

  lemma Round(i: nat, n: nat)
    requires n > 0
    ensures if i < n then i % n == i else i % n == (i - n) % n
  {
    if i < n {
      Positional.Quotient(n, 0, i);
    } else {
      ModStep(i, n);
    }
  }

  lemma CycleAt(p: seq<Byte>, n: nat, i: nat)
    requires p != [] && i < n
    ensures Cycle(p, n)[i] == if i < |p| then p[i] else Cycle(p, n - |p|)[i - |p|]
  {
    Round(i, |p|);
  }

  lemma CyclePeels(p: seq<Byte>, n: nat)
    requires p != []
    ensures if n < |p| then Cycle(p, n) == p[..n] && n % |p| == n
            else Cycle(p, n) == p + Cycle(p, n - |p|) && n % |p| == (n - |p|) % |p|
  {
    hide Cycle;
    forall i | 0 <= i < n ensures Cycle(p, n)[i] == if i < |p| then p[i] else Cycle(p, n - |p|)[i - |p|] {
      CycleAt(p, n, i);
    }
    Round(n, |p|);
  }

  /** Whole rounds of valid text do not matter to what follows them. */
  lemma {:induction false} CycleThen(p: seq<Byte>, n: nat, rest: seq<Byte>)
    requires IsValid(p) && p != []
    ensures n % |p| <= |p| && (IsValid(Cycle(p, n) + rest) <==> IsValid(p[..n % |p|] + rest))
    decreases n
  {
    hide IsValid, Cycle;
    CyclePeels(p, n);
    if n >= |p| {
      var less := Cycle(p, n - |p|);
      CycleThen(p, n - |p|, rest);
      Join(p, less + rest);
      assert p + less + rest == p + (less + rest);
    }
  }

  /** A part of valid text before other valid text is valid exactly if it ends on a boundary. */
  lemma CutBefore(s: seq<Byte>, k: nat, rest: seq<Byte>)
    requires IsValid(s) && k <= |s| && IsValid(rest)
    ensures IsValid(s[..k] + rest) <==> Boundary(s, k)
  {
    hide IsValid, Text;
    var t := s[..k] + rest;
    if Boundary(s, k) {
      BoundarySplits(s, k);
      Join(s[..k], rest);
    }
    if IsValid(t) {
      if rest != [] {
        FirstByte(rest);
        assert t[k] == rest[0];
      }
      BoundarySplits(t, k);
      assert t[..k] == s[..k];
      SplitIsBoundary(s, k);
    }
  }

  /** Inserting a string into itself keeps it valid if and only if the part of a round that is left over does. */
  lemma ValidIffFilled(bytes: seq<Byte>, pos: nat, add: seq<Byte>, self: bool)
    requires IsValid(bytes) && IsValid(add) && pos <= |bytes| && Boundary(bytes, pos) && (self ==> add == bytes)
    ensures IsValid(bytes[..pos] + Filled(bytes, pos, add, self) + bytes[pos..]) <==>
            !self || pos == 0 || Boundary(bytes, |bytes| % pos)
  {
    hide IsValid, Text, Boundary, Cycle;
    var f, before, after := Filled(bytes, pos, add, self), bytes[..pos], bytes[pos..];
    BoundarySplits(bytes, pos);
    if self && pos > 0 {
      var k := |bytes| % pos;
      Join(before, f + after);
      assert before + f + after == before + (f + after);
      CycleThen(before, |bytes|, after);
      assert before[..k] == bytes[..k];
      CutBefore(bytes, k, after);
    } else {
      JoinThree(before, f, after);
    }
  }

  lemma SameMiddle<T>(a: seq<T>, b: seq<T>, b': seq<T>, c: seq<T>)
    requires |b| == |b'|
    ensures a + b + c == a + b' + c <==> b == b'
  {
    assert (a + b + c)[|a|..|a| + |b|] == b;
    assert (a + b' + c)[|a|..|a| + |b'|] == b';
  }

  /**
   Inserting a string into itself goes wrong already for two code points: the result is not
   valid. Two letters give valid text that is not the insertion.
   */
  lemma InsertIntoItself()
    ensures var x := Encode(0xE9) + Encode(0x61);
            && IsValid(x) && Boundary(x, 2) && !InsertSafe(x, 2, true)
            && !IsValid(x[..2] + Filled(x, 2, x, true) + x[2..])
    ensures var y := Encode(0x61) + Encode(0x62);
            && IsValid(y) && Boundary(y, 1) && !InsertSafe(y, 1, true)
            && IsValid(y[..1] + Filled(y, 1, y, true) + y[1..])
  {
    LettersIntoThemselves();
    var x: seq<Byte> := [0xC3, 0xA9, 0x61];
    assert Encode(0xE9) + Encode(0x61) == x;
    One(0xE9);
    One(0x61);
    Join(Encode(0xE9), Encode(0x61));
    var r := x[..2] + Filled(x, 2, x, true) + x[2..];
    assert r == [0xC3, 0xA9, 0xC3, 0xA9, 0xC3, 0x61];
    assert x[2] != x[2 % 2];
    var e: seq<Byte> := [0xC3, 0xA9];
    assert e == Encode(0xE9);
    Join(e, e);
    Join(e + e, [0xC3, 0x61]);
    assert r == e + e + [0xC3, 0x61];
    assert Step([0xC3, 0x61]) == 0;
  }

  lemma LettersIntoThemselves()
    ensures var y := Encode(0x61) + Encode(0x62);
            && IsValid(y) && Boundary(y, 1) && !InsertSafe(y, 1, true)
            && IsValid(y[..1] + Filled(y, 1, y, true) + y[1..])
  {
    var y: seq<Byte> := [0x61, 0x62];
    assert Encode(0x61) + Encode(0x62) == y;
    One(0x61);
    One(0x62);
    Join(Encode(0x61), Encode(0x62));
    assert y[1] != y[1 % 1];
    assert !Continues(y[1]);
    ValidIffFilled(y, 1, y, true);
    assert 2 % 1 == 0;
  }

  function Filter(cps: seq<int>, pred: int -> bool): seq<int> {
    if cps == [] then [] else (if pred(cps[0]) then [cps[0]] else []) + Filter(cps[1..], pred)
  }

  lemma {:induction false} FilterIsScalar(cps: seq<int>, pred: int -> bool)
    requires AllScalar(cps)
    ensures AllScalar(Filter(cps, pred))
  {
    if cps != [] {
      FilterIsScalar(cps[1..], pred);
    }
  }

  class String {
    var bytes: seq<Byte>

    ghost predicate Valid()
      reads this
    {
      IsValid(bytes)
    }

    /** The code points of the string. */
    ghost function Points(): seq<int>
      requires Valid()
      reads this
    {
      Text(bytes)
    }

    constructor (bytes: seq<Byte>)
      ensures this.bytes == bytes
    {
      this.bytes := bytes;
    }

    /** from_utf8: the string, or the offset of the first error. */
    static method FromUtf8(v: seq<Byte>) returns (r: String?, error: Option<nat>)
      ensures r != null <==> IsValid(v)
      ensures r != null ==> fresh(r) && r.bytes == v
      ensures r == null ==> error.Some? && FirstError(v, error.value)
    {
      error := Validate(v);
      r := null;
      if error.None? {
        r := new String(v);
      }
    }

    method Push(cp: int)
      requires Valid() && Scalar(cp)
      modifies this
      ensures Valid() && Points() == old(Points()) + [cp]
    {
      hide IsValid, Text, Encode;
      var buf := Encode(cp);
      One(cp);
      Join(bytes, buf);
      for i := 0 to |buf|
        invariant bytes == old(bytes) + buf[..i]
      {
        bytes := bytes + [buf[i]];
      }
      assert buf[..|buf|] == buf;
    }

    method Pop() returns (r: Option<int>)
      requires Valid()
      modifies this
      ensures Valid() && (r.None? <==> old(bytes) == [])
      ensures Points() + (if r.Some? then [r.value] else []) == old(Points())
    {
      hide IsValid, Text, Head, Width;
      if bytes == [] {
        return None;
      }
      var pos := |bytes| - 1;
      while pos > 0 && Continues(bytes[pos])
        invariant 0 <= pos < |bytes| && forall k :: pos < k < |bytes| ==> Continues(bytes[k])
      {
        pos := pos - 1;
      }
      LastPoint(bytes, pos);
      r := Some(Head(bytes[pos..]));
      bytes := bytes[..pos];
    }

    /** Grows the buffer by `n` and moves the tail up, from its end. */
    method MakeGap(pos: nat, n: nat)
      requires pos <= |bytes|
      modifies this
      ensures |bytes| == |old(bytes)| + n
      ensures forall k :: 0 <= k < |old(bytes)| && k < pos + n ==> bytes[k] == old(bytes)[k]
      ensures forall k :: pos <= k < |old(bytes)| ==> bytes[k + n] == old(bytes)[k]
    {
      var was := bytes;
      bytes := bytes + seq(n, _ => 0);
      var i := |was|;
      while i > pos
        invariant pos <= i <= |was| && |bytes| == |was| + n
        invariant forall k :: 0 <= k < |was| && (k < i || k < pos + n) ==> bytes[k] == was[k]
        invariant forall k :: i <= k < |was| ==> bytes[k + n] == was[k]
      {
        bytes := bytes[i + n - 1 := bytes[i - 1]];
        i := i - 1;
      }
    }

    method InsertBytes(pos: nat, buf: seq<Byte>)
      requires pos <= |bytes|
      modifies this
      ensures bytes == old(bytes)[..pos] + buf + old(bytes)[pos..]
    {
      var was, n := bytes, |buf|;
      MakeGap(pos, n);
      for j := 0 to n
        invariant |bytes| == |was| + n
        invariant forall k :: 0 <= k < pos ==> bytes[k] == was[k]
        invariant forall k :: 0 <= k < j ==> bytes[pos + k] == buf[k]
        invariant forall k :: pos <= k < |was| ==> bytes[k + n] == was[k]
      {
        bytes := bytes[pos + j := buf[j]];
      }
      Spliced(was, pos, buf, bytes);
    }

    method Insert(pos: nat, cp: int)
      requires Valid() && pos <= |bytes| && Boundary(bytes, pos) && Scalar(cp)
      modifies this
      ensures Valid() && IsValid(old(bytes)[..pos]) && IsValid(old(bytes)[pos..])
      ensures Points() == Text(old(bytes)[..pos]) + [cp] + Text(old(bytes)[pos..])
    {
      hide IsValid, Text, Encode;
      BoundarySplits(bytes, pos);
      One(cp);
      JoinThree(bytes[..pos], Encode(cp), bytes[pos..]);
      InsertBytes(pos, Encode(cp));
    }

    /**
     insert_str. The bytes of `s` are read while the gap is filled; when `s` is this very
     string those past `pos` have been overwritten by then. The result is the insertion
     exactly if that makes no difference, and valid exactly if the part of `bytes[..pos]` that
     is left over from whole rounds ends on a boundary.
     */
    method InsertString(pos: nat, s: String)
      requires Valid() && pos <= |bytes| && Boundary(bytes, pos) && s.Valid()
      modifies this
      ensures bytes == old(bytes)[..pos] + Filled(old(bytes), pos, old(s.bytes), s == this) + old(bytes)[pos..]
      ensures bytes == old(bytes)[..pos] + old(s.bytes) + old(bytes)[pos..] <==> InsertSafe(old(bytes), pos, s == this)
      ensures Valid() <==> s != this || pos == 0 || Boundary(old(bytes), |old(bytes)| % pos)
      ensures IsValid(old(bytes)[..pos]) && IsValid(old(bytes)[pos..])
      ensures InsertSafe(old(bytes), pos, s == this) ==>
                Valid() && Points() == Text(old(bytes)[..pos]) + old(s.Points()) + Text(old(bytes)[pos..])
    {
      hide IsValid, Text, Encode, InsertSafe, Boundary, Filled;
      ghost var was, add := bytes, s.bytes;
      BoundarySplits(bytes, pos);
      JoinThree(bytes[..pos], s.bytes, bytes[pos..]);
      SafeIffFilled(was, pos, add, s == this);
      ValidIffFilled(was, pos, add, s == this);
      FillFrom(pos, s);
    }

    /** The shift and the copy loop of insert_str. */
    method FillFrom(pos: nat, s: String)
      requires pos <= |bytes|
      modifies this
      ensures bytes == old(bytes)[..pos] + Filled(old(bytes), pos, old(s.bytes), s == this) + old(bytes)[pos..]
    {
      hide Filled;
      ghost var was, add := bytes, s.bytes;
      var n := |s.bytes|;
      ghost var fill := Filled(was, pos, add, s == this);
      FilledLength(was, pos, add, s == this);
      MakeGap(pos, n);
      for i := 0 to n
        invariant |bytes| == |was| + n
        invariant forall k :: 0 <= k < pos ==> bytes[k] == was[k]
        invariant forall k :: 0 <= k < i ==> bytes[pos + k] == fill[k]
        invariant forall k :: pos <= k < |was| ==> bytes[k + n] == was[k]
        invariant if s == this then pos == 0 ==> forall k :: 0 <= k < n ==> bytes[k] == was[k] else s.bytes == add
      {
        FilledAt(was, pos, add, s == this, i);
        assert s == this && i >= pos > 0 ==> bytes[i] == bytes[pos + (i - pos)];
        bytes := bytes[pos + i := s.bytes[i]];
      }
      Spliced(was, pos, fill, bytes);
    }

    method Remove(pos: nat) returns (cp: int)
      requires Valid() && pos < |bytes| && Boundary(bytes, pos)
      modifies this
      ensures Valid() && IsValid(old(bytes)[..pos]) && IsValid(old(bytes)[pos..]) && Text(old(bytes)[pos..]) != []
      ensures Points() == Text(old(bytes)[..pos]) + Text(old(bytes)[pos..])[1..]
      ensures cp == Text(old(bytes)[pos..])[0]
    {
      hide IsValid, Text, Head, Width, Encode;
      RemovePoint(bytes, pos);
      cp := Head(bytes[pos..]);
      RemoveBytes(pos, Width(bytes[pos]));
    }

    /** Moves the tail down and truncates. */
    method RemoveBytes(pos: nat, n: nat)
      requires pos + n <= |bytes|
      modifies this
      ensures bytes == old(bytes)[..pos] + old(bytes)[pos + n..]
    {
      var was := bytes;
      for i := pos + n to |was|
        invariant |bytes| == |was|
        invariant forall k :: 0 <= k < pos ==> bytes[k] == was[k]
        invariant forall k :: pos + n <= k < i ==> bytes[k - n] == was[k]
        invariant forall k :: i <= k < |was| ==> bytes[k] == was[k]
      {
        bytes := bytes[i - n := bytes[i]];
      }
      bytes := bytes[..|was| - n];
      Closed(was, pos, n, bytes);
    }

    /** trim: both ends, judged by bytes. */
    method Trim() returns (t: String)
      requires Valid()
      ensures fresh(t) && t.Valid() && t.Points() == TrimBack(TrimFront(Points()))
    {
      hide IsValid, Text;
      var start := 0;
      assert bytes[0..] == bytes;
      while start < |bytes| && IsSpace(bytes[start])
        invariant 0 <= start <= |bytes| && TrimFront(bytes[start..]) == TrimFront(bytes)
      {
        assert bytes[start..][1..] == bytes[start + 1..];
        start := start + 1;
      }
      ghost var front := bytes[start..];
      assert front == TrimFront(bytes);
      var end := |bytes|;
      assert bytes[start..end] == front;
      while end > start && IsSpace(bytes[end - 1])
        invariant start <= end <= |bytes| && TrimBack(bytes[start..end]) == TrimBack(front)
      {
        var mid := bytes[start..end];
        assert mid[..|mid| - 1] == bytes[start..end - 1] && mid[|mid| - 1] == bytes[end - 1];
        end := end - 1;
      }
      assert bytes[start..end] == TrimBack(front);
      TrimFrontRefines(Points());
      TrimBackRefines(TrimFront(Points()));
      TextOfEncoded(TrimBack(TrimFront(Points())));
      t := new String(bytes[start..end]);
    }

    /** find_bytes_from: the first match at or after `start`. An empty pattern matches at once. */
    method FindFrom(pat: seq<Byte>, start: nat) returns (r: Option<nat>)
      ensures pat == [] ==> r == Some(if start <= |bytes| then start else SIZE_MAX)
      ensures pat != [] && start <= |bytes| ==> r == Shift(start, FirstMatch(bytes[start..], pat))
      ensures pat != [] && start > |bytes| ==> r == None
    {
      if |pat| == 0 {
        return Some(if start <= |bytes| then start else SIZE_MAX);
      }
      hide FirstMatch, MatchAt;
      if |pat| > |bytes| || start > |bytes| - |pat| {
        if start <= |bytes| {
          TooLong(bytes[start..], pat);
        }
        return None;
      }
      var i := start;
      while i <= |bytes| - |pat|
        invariant start <= i <= |bytes| - |pat| + 1
        invariant forall k :: start <= k < i ==> !MatchAt(bytes, pat, k)
      {
        var match' := MatchesAt(pat, i);
        if match' {
          FoundIs(bytes, pat, start, i);
          return Some(i);
        }
        i := i + 1;
      }
      NotFound(bytes, pat, start, i);
      r := None;
    }

    /** The inner loop of the search. */
    method MatchesAt(pat: seq<Byte>, i: nat) returns (match': bool)
      requires i + |pat| <= |bytes|
      ensures match' <==> MatchAt(bytes, pat, i)
    {
      var j := 0;
      while j < |pat|
        invariant 0 <= j <= |pat| && forall k :: 0 <= k < j ==> bytes[i + k] == pat[k]
      {
        if bytes[i + j] != pat[j] {
          assert bytes[i..i + |pat|][j] == bytes[i + j];
          return false;
        }
        j := j + 1;
      }
      assert bytes[i..i + |pat|] == pat;
      return true;
    }

    /** replace and replacen (with a limit). An empty pattern leaves the string as it is. */
    method Replace(pat: String, to: String, limit: Option<nat>) returns (r: String)
      requires Valid() && pat.Valid() && to.Valid()
      ensures fresh(r) && r.Valid()
      ensures r.Points() == if pat.Points() == [] then Points()
                            else ReplaceIn(Points(), pat.Points(), to.Points(), limit)
    {
      hide IsValid, Text, FirstMatch, ReplaceIn, Shift, Less;
      EmptyIffEmpty(pat.bytes);
      if |pat.bytes| == 0 || limit == Some(0) {
        r := new String(bytes);
        ReplaceZero(bytes, pat.bytes, to.bytes, limit);
      } else {
        var out := ReplaceBytes(pat.bytes, to.bytes, limit);
        r := new String(out);
      }
      ReplaceText(bytes, pat.bytes, to.bytes, limit);
    }

    method ReplaceBytes(pat: seq<Byte>, to: seq<Byte>, limit: Option<nat>) returns (out: seq<Byte>)
      requires pat != []
      ensures out == ReplaceIn(bytes, pat, to, limit)
    {
      hide FirstMatch, ReplaceIn;
      out := [];
      var pos, left := 0, limit;
      assert bytes[0..] == bytes;
      while pos < |bytes| && left != Some(0)
        invariant 0 <= pos <= |bytes| && out + ReplaceIn(bytes[pos..], pat, to, left) == ReplaceIn(bytes, pat, to, limit)
        decreases |bytes| - pos
      {
        var found := FindFrom(pat, pos);
        if found.None? {
          break;
        }
        var k := found.value;
        MatchInside(bytes, pat, pos, k);
        ReplaceTurn(bytes, pat, to, left, pos, k);
        out := out + bytes[pos..k] + to;
        pos, left := k + |pat|, Less(left);
      }
      ReplaceRest(bytes, pat, to, left, pos);
      out := out + bytes[pos..];
    }

    method Retain(pred: int -> bool)
      requires Valid()
      modifies this
      ensures Valid() && Points() == Filter(old(Points()), pred)
    {
      hide IsValid, Text, Head, Width, Kept;
      var kept: seq<Byte> := [];
      var pos := 0;
      assert bytes[0..] == bytes;
      while pos < |bytes|
        invariant 0 <= pos <= |bytes| && IsValid(bytes[pos..]) && bytes == old(bytes)
        invariant kept + Kept(bytes[pos..], pred) == Kept(bytes, pred)
      {
        var rest := bytes[pos..];
        KeptStep(rest, pred);
        var cp, n := Head(rest), Width(rest[0]);
        if pred(cp) {
          kept := kept + Encode(cp);
        }
        assert rest[n..] == bytes[pos + n..];
        pos := pos + n;
      }
      assert bytes[pos..] == [];
      KeptAll(bytes, pred);
      assert kept + [] == kept;
      bytes := kept;
    }
  }

  /** What retain leaves of valid text. */
  ghost function Kept(s: seq<Byte>, pred: int -> bool): seq<Byte>
    requires IsValid(s)
  {
    FilterIsScalar(Text(s), pred);
    EncodeAll(Filter(Text(s), pred))
  }

  lemma KeptStep(s: seq<Byte>, pred: int -> bool)
    requires IsValid(s) && s != []
    ensures 1 <= Width(s[0]) <= |s| && Scalar(Head(s)) && IsValid(s[Width(s[0])..])
    ensures Kept(s, pred) == (if pred(Head(s)) then Encode(Head(s)) else []) + Kept(s[Width(s[0])..], pred)
  {
    hide IsValid, Text, Head, Width, Step, Encode;
    Front(s);
    FilterIsScalar(Text(s), pred);
    FilterIsScalar(Text(s)[1..], pred);
    FilterFront(Text(s), pred);
  }

  lemma KeptAll(s: seq<Byte>, pred: int -> bool)
    requires IsValid(s)
    ensures Kept([], pred) == [] && IsValid(Kept(s, pred)) && Text(Kept(s, pred)) == Filter(Text(s), pred)
  {
    EmptyText();
    FilterIsScalar(Text(s), pred);
    TextOfEncoded(Filter(Text(s), pred));
  }

  lemma FilterFront(cps: seq<int>, pred: int -> bool)
    requires AllScalar(cps) && cps != [] && AllScalar(Filter(cps, pred)) && AllScalar(Filter(cps[1..], pred))
    ensures EncodeAll(Filter(cps, pred)) ==
            (if pred(cps[0]) then Encode(cps[0]) else []) + EncodeAll(Filter(cps[1..], pred))
  {
    hide Encode;
    if pred(cps[0]) {
      assert Filter(cps, pred)[1..] == Filter(cps[1..], pred);
    } else {
      assert Filter(cps, pred) == Filter(cps[1..], pred);
    }
  }

  lemma Spliced(was: seq<Byte>, pos: nat, buf: seq<Byte>, now: seq<Byte>)
    requires pos <= |was| && |now| == |was| + |buf|
    requires forall k :: 0 <= k < pos ==> now[k] == was[k]
    requires forall k :: 0 <= k < |buf| ==> now[pos + k] == buf[k]
    requires forall k :: pos <= k < |was| ==> now[k + |buf|] == was[k]
    ensures now == was[..pos] + buf + was[pos..]
  {
    var want := was[..pos] + buf + was[pos..];
    forall k | 0 <= k < |now| ensures now[k] == want[k] {
      if pos <= k < pos + |buf| {
        assert now[k] == now[pos + (k - pos)];
      } else if k >= pos + |buf| {
        assert now[k] == now[(k - |buf|) + |buf|];
      }
    }
  }

  lemma Closed(was: seq<Byte>, pos: nat, n: nat, now: seq<Byte>)
    requires pos + n <= |was| && |now| == |was| - n
    requires forall k :: 0 <= k < pos ==> now[k] == was[k]
    requires forall k :: pos + n <= k < |was| ==> now[k - n] == was[k]
    ensures now == was[..pos] + was[pos + n..]
  {
    var want := was[..pos] + was[pos + n..];
    forall k | 0 <= k < |now| ensures now[k] == want[k] {
      if k >= pos {
        assert now[k] == now[(k + n) - n];
      }
    }
  }
}
