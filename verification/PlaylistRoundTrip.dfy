/**
 What really comes back when a parsed playlist is printed through the fixed line buffers
 and parsed again as a C string: everything if every duration line fits its buffer, and
 otherwise too few segments.
 */
module PlaylistRoundTrip {
  import opened Common
  import opened Positional
  import opened Decimal
  import opened Playlist

  // ---------- Which lines fit ----------

  lemma PowersOfTen()
    ensures Pow(10, 10) == 10_000_000_000 && Pow(10, 20) == 100_000_000_000_000_000_000
  {
    assert Pow(10, 4) == 10_000;
    assert Pow(10, 8) == 10_000 * Pow(10, 4) by { PowAdd(10, 4, 4); }
    assert Pow(10, 10) == 100 * Pow(10, 8);
    PowAdd(10, 10, 10);
  }

  lemma ShortNumbers(n: nat)
    ensures n < UINT32 ==> |Numeral(n)| <= 10
    ensures n <= ULONG_MAX ==> |Numeral(n)| <= 20
  {
    PowersOfTen();
    NumeralLength(n, 10);
    NumeralLength(n, 20);
  }

  /** Only a duration can be too long for its line. */
  lemma OtherLinesFit(seg: Segment)
    requires InRange(seg)
    ensures |RangeLine(seg)| + 1 < 128 && |UriLine(seg)| + 1 < 128
  {
    ShortNumbers(seg.length);
    ShortNumbers(seg.offset);
    ShortNumbers(seg.seqNo);
  }

  /**
   A duration fits if and only if it is infinite, not a number, or has at most 113 integer
   digits once rounded to milliseconds, 112 with a minus sign.
   */
  lemma FitsIff(seg: Segment)
    ensures FitsAt(seg) <==>
            var d := seg.duration;
            d.Finite? ==> Millis(d.magnitude) / 1000 < Pow(10, if d.negative then 112 else 113)
  {
    var d := seg.duration;
    FixedLength(d);
    if d.Finite? {
      NumeralLength(Millis(d.magnitude) / 1000, if d.negative then 112 else 113);
    }
    hide Fixed, Numeral, Millis;
  }

  // ---------- What is sent ----------

  lemma EmitHeadIs(pl: Media, junk: nat -> char)
    requires pl.version < UINT32 && pl.target < UINT32 && pl.mediaSeq < UINT32
    ensures EmitHead(pl, junk) == Upto(pl, 0)
  {
    ShortNumbers(pl.version);
    ShortNumbers(pl.target);
    ShortNumbers(pl.mediaSeq);
    var a, b, c := VERSION + Numeral(pl.version), TARGET + Numeral(pl.target), SEQUENCE + Numeral(pl.mediaSeq);
    hide Numeral, Unlines;
    UnlinesOne(HEADER);
    Unlines2([HEADER], a);
    Unlines2([HEADER] + [a], b);
    Unlines2([HEADER] + [a] + [b], c);
    assert [HEADER] + HeadLines(pl) + AllSegmentLines(pl.segments[..0]) == [HEADER] + [a] + [b] + [c];
  }

  /** A segment whose duration fits is sent as its lines; otherwise its first line is cut at a terminator. */
  lemma EmitSegmentIs(seg: Segment, junk: nat -> char)
    requires InRange(seg)
    ensures FitsAt(seg) ==> EmitSegment(seg, junk) == Unlines(SegmentLines(seg))
    ensures !FitsAt(seg) ==> |InfLine(seg)| >= 127 && InfLine(seg)[..127] + "\0" <= EmitSegment(seg, junk)
  {
    hide InfLine, RangeLine, UriLine, Unlines;
    OtherLinesFit(seg);
    if FitsAt(seg) {
      UnlinesOne(InfLine(seg));
      var ls := [InfLine(seg)];
      if seg.hasRange {
        Unlines2(ls, RangeLine(seg));
        ls := ls + [RangeLine(seg)];
      }
      Unlines2(ls, UriLine(seg));
      assert SegmentLines(seg) == ls + [UriLine(seg)];
    } else {
      var full := InfLine(seg) + "\n";
      assert full[..127] == InfLine(seg)[..127];
    }
  }

  lemma EmitStep(pl: Media, junk: nat -> char, i: nat)
    requires i < |pl.segments|
    ensures EmitUpto(pl, junk, i + 1) == EmitUpto(pl, junk, i) + EmitSegment(pl.segments[i], junk)
  {
    hide EmitSegment, EmitHead;
  }

  lemma PrintableParts(pl: Media)
    requires Printable(pl)
    ensures pl.version < UINT32 && pl.target < UINT32 && pl.mediaSeq < UINT32
    ensures forall k :: 0 <= k < |pl.segments| ==> InRange(pl.segments[k])
  {
  }

  lemma {:induction false} EmitUptoIs(pl: Media, junk: nat -> char, i: nat)
    requires Printable(pl) && i <= |pl.segments| && forall k :: 0 <= k < i ==> FitsAt(pl.segments[k])
    ensures EmitUpto(pl, junk, i) == Upto(pl, i)
  {
    hide *;
    PrintableParts(pl);
    if i == 0 {
      EmitHeadIs(pl, junk);
      EmitNone(pl, junk);
    } else {
      EmitUptoIs(pl, junk, i - 1);
      EmitSegmentIs(pl.segments[i - 1], junk);
      UptoStep(pl, i - 1);
      EmitStep(pl, junk, i - 1);
    }
  }

  lemma EmitNone(pl: Media, junk: nat -> char)
    ensures EmitUpto(pl, junk, 0) == EmitHead(pl, junk)
  {
    hide EmitHead;
  }

  lemma {:induction false} EmitGrows(pl: Media, junk: nat -> char, i: nat, j: nat)
    requires i <= j <= |pl.segments|
    ensures EmitUpto(pl, junk, i) <= EmitUpto(pl, junk, j)
  {
    hide EmitSegment, EmitHead;
    if i < j {
      EmitGrows(pl, junk, i, j - 1);
    }
  }

  /** The first segment that does not fit ends the text, as far as a C string goes. */
  lemma EmittedUpto(pl: Media, junk: nat -> char, j: nat)
    requires Printable(pl) && j < |pl.segments| && !FitsAt(pl.segments[j])
    requires forall k :: 0 <= k < j ==> FitsAt(pl.segments[k])
    ensures |InfLine(pl.segments[j])| >= 127
    ensures Upto(pl, j) + InfLine(pl.segments[j])[..127] + "\0" <= Emitted(pl, junk)
  {
    hide Upto, EmitSegment, FitsAt, InfLine, EmitHead;
    EmitUptoIs(pl, junk, j);
    EmitSegmentIs(pl.segments[j], junk);
    EmitGrows(pl, junk, j + 1, |pl.segments|);
    var cut := InfLine(pl.segments[j])[..127] + "\0";
    PrefixOfSum(Upto(pl, j), cut, EmitSegment(pl.segments[j], junk));
    assert Upto(pl, j) + InfLine(pl.segments[j])[..127] + "\0" == Upto(pl, j) + cut;
  }

  lemma PrefixOfSum(a: string, b: string, c: string)
    requires b <= c
    ensures a + b <= a + c
  {
  }

  lemma FirstMisfit(pl: Media) returns (j: nat)
    requires !Fits(pl)
    ensures j < |pl.segments| && !FitsAt(pl.segments[j]) && forall k :: 0 <= k < j ==> FitsAt(pl.segments[k])
  {
    hide FitsAt;
    j := 0;
    while FitsAt(pl.segments[j])
      invariant j < |pl.segments| && forall k :: 0 <= k < j ==> FitsAt(pl.segments[k])
      decreases |pl.segments| - j
    {
      if j + 1 == |pl.segments| {
        assert forall k :: 0 <= k < |pl.segments| ==> FitsAt(pl.segments[k]);
      }
      j := j + 1;
    }
  }

  // ---------- As a C string ----------

  /** The part before the terminator. */
  function CText(s: string): string {
    var k := IndexOf(s, '\0');
    if k.Some? then s[..k.value] else s
  }

  lemma CutAt(a: string, s: string)
    requires '\0' !in a && a + "\0" <= s
    ensures CText(s) == a && CText(s) != s
  {
    hide IndexOf;
    forall i | 0 <= i < |a| ensures s[i] != '\0' {
      assert s[i] == (a + "\0")[i] == a[i] && a[i] in a;
    }
    assert s[|a|] == (a + "\0")[|a|];
    IndexIs(s, '\0', |a|);
    assert s[..|a|] == a;
  }

  lemma Uncut(s: string)
    requires '\0' !in s
    ensures CText(s) == s
  {
    hide IndexOf;
    IndexIs(s, '\0', |s|);
  }

  lemma {:induction false} UnlinesNoNul(ls: seq<string>)
    requires NoBreaks(ls)
    ensures '\0' !in Unlines(ls)
  {
    if ls != [] {
      UnlinesNoNul(ls[..|ls| - 1]);
    }
  }

  /** The lines before segment `j`. */
  function LinesUpto(pl: Media, j: nat): seq<string>
    requires j <= |pl.segments|
  {
    HeadLines(pl) + AllSegmentLines(pl.segments[..j])
  }

  lemma UptoText(pl: Media, j: nat)
    requires j <= |pl.segments|
    ensures Upto(pl, j) == HEADER + "\n" + Unlines(LinesUpto(pl, j))
  {
    hide Unlines, HeadLines, AllSegmentLines;
    assert [HEADER] + HeadLines(pl) + AllSegmentLines(pl.segments[..j]) == [HEADER] + LinesUpto(pl, j);
    UnlinesFront(HEADER, LinesUpto(pl, j));
  }

  lemma {:induction false} LinesOfCut(ls: seq<string>, l: string)
    requires NoBreaks(ls) && NoBreak(l) && l != ""
    ensures LinesOf(Unlines(ls) + l) == ls + [l]
  {
    hide IndexOf, Unlines, NoBreak;
    if ls == [] {
      NoLines();
      assert Unlines(ls) + l == l;
      NoBreakInside(l);
    } else {
      var rest := ls[1..];
      assert [ls[0]] + rest == ls;
      UnlinesFront(ls[0], rest);
      var s := ls[0] + "\n" + (Unlines(rest) + l);
      assert Unlines(ls) + l == s;
      FirstOf(ls[0], Unlines(rest) + l);
      LinesOfCut(rest, l);
      assert s[..|ls[0]|] == ls[0] && s[|ls[0]| + 1..] == Unlines(rest) + l;
      assert ls + [l] == [ls[0]] + (rest + [l]);
    }
  }

  lemma NoBreakInside(l: string)
    requires NoBreak(l)
    ensures IndexOf(l, '\n') == None
  {
    IndexIs(l, '\n', |l|);
  }

  // ---------- Reading the cut text ----------

  /** A cut duration line still sets a duration and adds no segment. */
  lemma CutInfLine(p: Parser, seg: Segment, resolve: string -> string)
    requires |InfLine(seg)| >= 127
    ensures var l := InfLine(seg)[..127];
            NoBreak(l) && l != "" && OnLine(p, l, resolve).pl == p.pl
  {
    hide TagOf, OnLine, ParseDouble;
    InfLineRead(p, seg, resolve);
    var l := InfLine(seg)[..127];
    var rest := l[8..];
    InfTag(rest);
    assert l == INF + rest;
    CutFixed(seg, rest);
    Tagged(p, INF, rest, resolve);
  }

  lemma CutFixed(seg: Segment, rest: string)
    requires |InfLine(seg)| >= 127 && rest == InfLine(seg)[..127][8..] && NoBreak(InfLine(seg))
    ensures NoBreak(rest) && PlainEnd(rest) && NoBreak(InfLine(seg)[..127])
  {
    var l := InfLine(seg);
    var tail := Fixed(seg.duration) + ",";
    assert l == INF + tail && |INF| == 8;
    assert rest == tail[..119];
    FixedHasNoReturn(seg.duration);
    assert rest[118] in tail;
  }

  lemma FixedHasNoReturn(d: Double)
    ensures '\r' !in Fixed(d) + ","
  {
    if d.Finite? {
      var ms := Millis(d.magnitude);
      DigitsHaveNoReturn(Numeral(ms / 1000));
      DigitsHaveNoReturn(Chars(ThreeDigits(ms % 1000)));
    }
    hide Numeral, Chars, Millis;
  }

  lemma DigitsHaveNoReturn(s: string)
    requires forall i :: 0 <= i < |s| ==> IsDigit(s[i])
    ensures '\r' !in s
  {
  }

  /** The text before and including a cut line gives the segments before it, and no more. */
  lemma ParseCut(pl: Media, j: nat, again: string -> string)
    requires Printable(pl) && j < |pl.segments| && |InfLine(pl.segments[j])| >= 127
    ensures var text := Upto(pl, j) + InfLine(pl.segments[j])[..127];
            && '\0' !in text
            && ParseSpec(text, again).Some? && |ParseSpec(text, again).value.segments| == j
  {
    hide OnLine, OnLines, Unlines, HeadLines, AllSegmentLines, IndexOf, NoBreak, InfLine, Upto, LinesUpto, RereadAll;
    var ls, l := LinesUpto(pl, j), InfLine(pl.segments[j])[..127];
    var p := UptoRead(pl, j, again);
    CutInfLine(p, pl.segments[j], again);
    UptoText(pl, j);
    LinesOfCut(ls, l);
    var text := Upto(pl, j) + l;
    assert text == HEADER + "\n" + (Unlines(ls) + l);
    HeaderFirst(Unlines(ls) + l);
    OnOneLine(p, l, again);
    OnLinesConcat(Fresh, ls, [l], again);
    UnlinesNoNul(ls);
    NoNulIn(HEADER + "\n", Unlines(ls), l);
  }

  lemma NoNulIn(a: string, b: string, l: string)
    requires '\0' !in a && '\0' !in b && NoBreak(l)
    ensures '\0' !in a + (b + l)
  {
  }

  lemma UptoRead(pl: Media, j: nat, again: string -> string) returns (p: Parser)
    requires Printable(pl) && j <= |pl.segments|
    ensures NoBreaks(LinesUpto(pl, j)) && OnLines(Fresh, LinesUpto(pl, j), again) == p && |p.pl.segments| == j
  {
    hide OnLine, OnLines, HeadLines, AllSegmentLines, NoBreak, RereadAll;
    HeadRead(pl, again);
    var q := OnLines(Fresh, HeadLines(pl), again);
    SegmentsRead(q, pl.segments[..j], again);
    RereadEach(pl.segments[..j], q.nextSeq, again);
    OnLinesConcat(Fresh, HeadLines(pl), AllSegmentLines(pl.segments[..j]), again);
    p := OnLines(q, AllSegmentLines(pl.segments[..j]), again);
  }

  // ---------- The printer is right exactly if every duration fits ----------

  lemma SpecHasNoNul(pl: Media)
    requires Printable(pl)
    ensures '\0' !in PrintSpec(pl)
  {
    hide OnLines, Unlines, HeadLines, AllSegmentLines, EndLines, RereadAll, PrintSpec;
    var ls := HeadLines(pl) + AllSegmentLines(pl.segments) + EndLines(pl);
    LinesRead(pl, s => s);
    PrintedText(pl, ls);
    UnlinesNoNul(ls);
  }

  lemma FittingText(pl: Media, junk: nat -> char)
    requires Printable(pl) && Fits(pl)
    ensures Emitted(pl, junk) == PrintSpec(pl)
  {
    hide Upto, PrintSpec, EmitUpto, FitsAt;
    EmitUptoIs(pl, junk, |pl.segments|);
    UptoEnd(pl);
  }

  /** What is sent is the playlist's lines if and only if every duration line fits. */
  lemma EmittedIffFits(pl: Media, junk: nat -> char)
    requires Printable(pl)
    ensures Emitted(pl, junk) == PrintSpec(pl) <==> Fits(pl)
  {
    hide Emitted, PrintSpec, Printable, Upto, InfLine, FitsAt;
    if Fits(pl) {
      FittingText(pl, junk);
    } else {
      var j := FirstMisfit(pl);
      EmittedUpto(pl, junk, j);
      ParseCut(pl, j, s => s);
      CutAt(Upto(pl, j) + InfLine(pl.segments[j])[..127], Emitted(pl, junk));
      SpecHasNoNul(pl);
      Uncut(PrintSpec(pl));
    }
  }

  /**
   Any parsed playlist, printed and parsed again. If every duration line fits its buffer the
   same playlist comes back; if one does not, fewer segments do.
   */
  lemma RoundTrip(text: string, resolve: string -> string, again: string -> string, junk: nat -> char)
    requires ParseSpec(text, resolve).Some?
    ensures var pl := ParseSpec(text, resolve).value; var back := ParseSpec(CText(Emitted(pl, junk)), again);
            && back.Some?
            && (Fits(pl) ==> SameAgain(back.value, pl))
            && (!Fits(pl) ==> |back.value.segments| < |pl.segments|)
  {
    hide ParseSpec, Emitted, PrintSpec, Printable, Upto, InfLine, FitsAt, SameAgain, CText;
    ParsedIsPrintable(text, resolve);
    var pl := ParseSpec(text, resolve).value;
    if Fits(pl) {
      FittingText(pl, junk);
      SpecHasNoNul(pl);
      Uncut(PrintSpec(pl));
      LinesRoundTrip(text, resolve, again);
    } else {
      var j := FirstMisfit(pl);
      EmittedUpto(pl, junk, j);
      ParseCut(pl, j, again);
      CutAt(Upto(pl, j) + InfLine(pl.segments[j])[..127], Emitted(pl, junk));
    }
  }

  // ---------- At concrete texts ----------

  /** One segment with a duration of 114 digits, the first one not 0: it does not fit. */
  lemma LongDurationMisfits(ds: seq<int>, resolve: string -> string)
    requires AreDigits(10, ds) && |ds| == 114 && ds[0] != 0
    ensures var pl := ParseSpec(HEADER + "\n" + INF + Chars(ds) + ",\nx.ts\n", resolve);
            pl.Some? && |pl.value.segments| == 1 && !Fits(pl.value)
  {
    hide ParseDouble, OnLine, OnLines, Chars, IndexOf, TagOf, Unlines, NoBreak;
    var inf, uri := INF + (Chars(ds) + ","), "x.ts";
    var text := HEADER + "\n" + INF + Chars(ds) + ",\nx.ts\n";
    LongLines(ds, resolve);
    assert text == HEADER + "\n" + Unlines([inf, uri]) by {
      UnlinesFront(inf, [uri]);
      UnlinesOne(uri);
      assert [inf] + [uri] == [inf, uri];
      assert text == HEADER + "\n" + (inf + "\n" + (uri + "\n"));
    }
    HeaderFirst(Unlines([inf, uri]));
    LinesOfUnlines([inf, uri]);
    OnLinesConcat(Fresh, [inf], [uri], resolve);
    assert [inf] + [uri] == [inf, uri];
    LongSegment(ds, ParseSpec(text, resolve).value.segments[0]);
  }

  lemma LongLines(ds: seq<int>, resolve: string -> string)
    requires AreDigits(10, ds) && 0 < |ds| <= 200 && ds[0] != 0
    ensures var inf := INF + (Chars(ds) + ",");
            && NoBreaks([inf, "x.ts"])
            && OnLines(OnLines(Fresh, [inf], resolve), ["x.ts"], resolve).pl ==
               Fresh.pl.(segments := [Segment(0, Finite(false, Value(10, ds) as real), resolve("x.ts"), false, 0, 0)])
  {
    hide *;
    var inf := INF + (Chars(ds) + ",");
    LongInf(ds, resolve);
    var p := OnLine(Fresh, inf, resolve);
    PlainUri(p, resolve);
    OnOneLine(Fresh, inf, resolve);
    OnOneLine(p, "x.ts", resolve);
    OnUriSegment(p, resolve("x.ts"));
    BothUnbroken(inf, "x.ts");
  }

  lemma BothUnbroken(a: string, b: string)
    requires NoBreak(a) && NoBreak(b)
    ensures NoBreaks([a, b])
  {
    hide NoBreak;
  }

  lemma LongInf(ds: seq<int>, resolve: string -> string)
    requires AreDigits(10, ds) && 0 < |ds| <= 200 && ds[0] != 0
    ensures var inf := INF + (Chars(ds) + ",");
            NoBreak(inf) && OnLine(Fresh, inf, resolve) == Fresh.(duration := Some(Finite(false, Value(10, ds) as real)))
  {
    hide ParseDouble, OnLine, Chars, TagOf, Value, NoBreak;
    var rest := Chars(ds) + ",";
    DigitText(ds);
    InfTag(rest);
    Tagged(Fresh, INF, rest, resolve);
    ParseDigits(ds);
  }

  lemma PlainUri(p: Parser, resolve: string -> string)
    ensures NoBreak("x.ts") && OnLine(p, "x.ts", resolve) == OnUri(p, resolve("x.ts"))
  {
    hide OnUri, OnTag;
  }

  lemma OnUriSegment(p: Parser, uri: string)
    requires p.duration.Some? && p == Fresh.(duration := p.duration)
    ensures OnUri(p, uri).pl == Fresh.pl.(segments := [Segment(0, p.duration.value, uri, false, 0, 0)])
  {
  }

  lemma DigitText(ds: seq<int>)
    requires AreDigits(10, ds)
    ensures NoBreak(Chars(ds) + ",") && PlainEnd(Chars(ds) + ",")
  {
  }

  lemma ParseDigits(ds: seq<int>)
    requires AreDigits(10, ds) && 0 < |ds| <= 200 && ds[0] != 0
    ensures ParseDouble(Chars(ds) + ",") == Finite(false, Value(10, ds) as real)
  {
    hide Value, Chars, TooLarge, ParseDecimal, ParseHex, IsHex, IsDecimal, StartsWith, SkipSpace;
    var s := Chars(ds) + ",";
    assert s[0] == Chars(ds)[0];
    SkipNothing(s);
    DigitsOnly(ds);
    DigitsValue(ds);
    NotTooLarge(ds);
  }

  lemma DigitsOnly(ds: seq<int>)
    requires AreDigits(10, ds) && 0 < |ds| && ds[0] != 0
    ensures var s := Chars(ds) + ","; IsDecimal(s) && !IsHex(s) && !StartsWith(s, "inf") && !StartsWith(s, "nan")
  {
    hide Chars;
    var s := Chars(ds) + ",";
    assert s[0] == Chars(ds)[0];
  }

  lemma DigitsValue(ds: seq<int>)
    requires AreDigits(10, ds)
    ensures ParseDecimal(Chars(ds) + ",") == Value(10, ds) as real
  {
    hide Scan, Value, Chars, Pow;
    var s := Chars(ds) + ",";
    ScanChars(ds, ",");
    assert s[|ds|..] == ",";
    NoDigits();
  }

  lemma NotTooLarge(ds: seq<int>)
    requires AreDigits(10, ds) && |ds| <= 200
    ensures !TooLarge(Value(10, ds) as real)
  {
    hide Pow, Value, TooLarge;
    ValueBound(10, ds);
    PowGrows(10, |ds|, 200);
    SmallEnough(Value(10, ds) as real);
  }

  lemma NoDigits()
    ensures Value(10, []) == 0 && Pow(10, 0) == 1
  {
  }

  lemma LongSegment(ds: seq<int>, seg: Segment)
    requires AreDigits(10, ds) && |ds| == 114 && ds[0] != 0 && seg.duration == Finite(false, Value(10, ds) as real)
    ensures !FitsAt(seg)
  {
    var v := Value(10, ds);
    DigitsOfValue(10, ds);
    assert Numerals(v) == ds by { NoDigitsOfZero(); }
    NumeralLength(v, 113);
    FitsIff(seg);
    hide Value, Digits;
    assert Millis(v as real) == v * 1000 by {
      assert (v as real * 1000.0 + 0.5).Floor == v * 1000;
    }
  }

  lemma NoDigitsOfZero()
    ensures Digits(10, 0) == []
  {
  }

  /**
   Two segments of one file, both with their offset omitted: the first keeps the marker, and
   the second follows it one byte too low.
   */
  lemma FirstOmitted(a: nat, b: nat, resolve: string -> string)
    requires 0 < a <= ULONG_MAX && b <= ULONG_MAX
    ensures var text := HEADER + "\n" + Unlines([RANGE + Numeral(a), "#EXTINF:1,", "a.ts", RANGE + Numeral(b), "#EXTINF:1,", "a.ts"]);
            var pl := ParseSpec(text, resolve);
            && pl.Some? && |pl.value.segments| == 2
            && pl.value.segments[0].offset == NO_OFFSET && pl.value.segments[1].offset == a - 1
  {
    hide OnLine, OnLines, Numeral, IndexOf, Unlines, NoBreak;
    var ls := [RANGE + Numeral(a), "#EXTINF:1,", "a.ts"] + [RANGE + Numeral(b), "#EXTINF:1,", "a.ts"];
    var p := OmittedSegment(Fresh, a, resolve);
    var q := OmittedSegment(p, b, resolve);
    OnLinesConcat(Fresh, [RANGE + Numeral(a), "#EXTINF:1,", "a.ts"], [RANGE + Numeral(b), "#EXTINF:1,", "a.ts"], resolve);
    assert ls == [RANGE + Numeral(a), "#EXTINF:1,", "a.ts", RANGE + Numeral(b), "#EXTINF:1,", "a.ts"];
    LinesOfUnlines(ls);
    HeaderFirst(Unlines(ls));
    var segs := q.pl.segments;
    assert ContinueFrom(segs, 1) == segs[1 := Continued(segs, 1)];
    assert (NO_OFFSET + a) % UINT64 == a - 1;
  }

  lemma HundredAndFifty()
    ensures Numeral(100) == "100" && Numeral(50) == "50"
  {
    DigitsOfAppend(10, 10, 0);
    DigitsOfAppend(10, 1, 0);
    DigitsOfAppend(10, 0, 1);
    DigitsOfAppend(10, 5, 0);
    DigitsOfAppend(10, 0, 5);
    NoDigitsOfZero();
    hide Digits, Chars;
    assert Numerals(100) == [1, 0, 0] && Numerals(50) == [5, 0];
    FewChars();
  }

  lemma FewChars()
    ensures Chars([1, 0, 0]) == "100" && Chars([5, 0]) == "50"
  {
  }

  /** For instance, ranges of 100 and 50 bytes get the offsets 2^64 - 1 and 99. */
  lemma FirstOmittedAtHundred(resolve: string -> string)
    ensures var text := HEADER + "\n" + Unlines([RANGE + "100", "#EXTINF:1,", "a.ts", RANGE + "50", "#EXTINF:1,", "a.ts"]);
            var pl := ParseSpec(text, resolve);
            && pl.Some? && |pl.value.segments| == 2
            && pl.value.segments[0].offset == NO_OFFSET && pl.value.segments[1].offset == 99
  {
    hide Unlines, ParseSpec, Numeral;
    HundredAndFifty();
    FirstOmitted(100, 50, resolve);
  }

  /** The three lines of such a segment. */
  lemma OmittedSegment(p: Parser, n: nat, resolve: string -> string) returns (q: Parser)
    requires Idle(p) && n <= ULONG_MAX
    ensures q == OnLines(p, [RANGE + Numeral(n), "#EXTINF:1,", "a.ts"], resolve) && Idle(q)
    ensures NoBreaks([RANGE + Numeral(n), "#EXTINF:1,", "a.ts"])
    ensures exists d: Double :: q.pl.segments == p.pl.segments + [Segment(p.nextSeq, d, resolve("a.ts"), true, NO_OFFSET, n)]
  {
    hide OnLines, Numeral, TagOf, ParseDouble;
    var l1, l2, l3 := RANGE + Numeral(n), "#EXTINF:1,", "a.ts";
    OmittedRange(p, n, resolve);
    var p1 := p.(hasRange := true, length := n, offset := NO_OFFSET);
    InfTag("1,");
    assert l2 == INF + "1,";
    Tagged(p1, INF, "1,", resolve);
    var p2 := OnLine(p1, l2, resolve);
    assert p2 == p1.(duration := Some(ParseDouble("1,")));
    q := OnLine(p2, l3, resolve);
    OnOneLine(p, l1, resolve);
    OnOneLine(p1, l2, resolve);
    OnOneLine(p2, l3, resolve);
    OnLinesConcat(p, [l1], [l2], resolve);
    OnLinesConcat(p, [l1] + [l2], [l3], resolve);
    assert [l1] + [l2] + [l3] == [l1, l2, l3];
    assert q.pl.segments == p.pl.segments + [Segment(p.nextSeq, ParseDouble("1,"), resolve("a.ts"), true, NO_OFFSET, n)];
  }

  lemma OmittedRange(p: Parser, n: nat, resolve: string -> string)
    requires n <= ULONG_MAX
    ensures NoBreak(RANGE + Numeral(n))
    ensures OnLine(p, RANGE + Numeral(n), resolve) == p.(hasRange := true, length := n, offset := NO_OFFSET)
  {
    hide TagOf, OnLine, IndexOf, ParseUnsigned;
    ReadNumeral(n);
    RangeTag(Numeral(n));
    Tagged(p, RANGE, Numeral(n), resolve);
    NoAt(n);
  }

  lemma NoAt(n: nat)
    ensures IndexOf(Numeral(n), '@') == None
  {
    IndexIs(Numeral(n), '@', |Numeral(n)|);
  }
}
