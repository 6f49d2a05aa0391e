/**
 HLS media playlists (section 4.3 of RFC 8216): `Parse` is hls_parse_playlist, a cursor
 over the text line by line followed by a pass that fills in omitted byte offsets, and
 `Print` is the printer inside serve_m3u8. Resolving a URI is a parameter. A text is the
 part of the C string before its terminator.

 The printer formats each line into a buffer of fixed size; a longer line is cut, and what
 is sent for it includes the terminator and memory past the buffer. What was parsed and
 printed parses to the same playlist again, but for URIs, encryption and variants, if and only
 if every duration fits; the sequence numbers come back if and only if they count up from
 the media sequence number.
 */
module Playlist {
  import opened Common
  import opened Decimal

  const UINT32: nat := 0x1_0000_0000
  const UINT64: nat := 0x1_0000_0000_0000_0000
  const NO_OFFSET: nat := 0xFFFF_FFFF_FFFF_FFFF      // (uint64_t)-1: offset omitted

  datatype Segment = Segment(seqNo: nat, duration: Double, uri: string, hasRange: bool, offset: nat, length: nat)

  /** The URI of a variant is None until the line with it is read. */
  datatype Variant = Variant(bandwidth: nat, width: nat, height: nat, codecs: Option<string>, uri: Option<string>)

  datatype Media = Media(
    version: nat, target: nat, mediaSeq: nat,
    isVod: bool, encrypted: bool, isMaster: bool,
    segments: seq<Segment>, variants: seq<Variant>)

  /** The playlist so far and what is pending for the next segment. */
  datatype Parser = Parser(pl: Media, nextSeq: nat, duration: Option<Double>, hasRange: bool, offset: nat, length: nat)

  const Fresh: Parser := Parser(Media(1, 0, 0, false, false, false, [], []), 0, None, false, 0, 0)

  // ---------- Tags ----------

  const HEADER: string := "#EXTM3U"
  const VERSION: string := "#EXT-X-VERSION:"
  const TARGET: string := "#EXT-X-TARGETDURATION:"
  const SEQUENCE: string := "#EXT-X-MEDIA-SEQUENCE:"
  const INF: string := "#EXTINF:"
  const RANGE: string := "#EXT-X-BYTERANGE:"
  const STREAM: string := "#EXT-X-STREAM-INF:"
  const ENDLIST: string := "#EXT-X-ENDLIST"
  const KEY: string := "#EXT-X-KEY:"

  datatype Tag = Version | Target | Sequence | Inf | Range | Stream | EndList | Key | Other

  function TagOf(s: string): Tag {
    if VERSION <= s then Version
    else if TARGET <= s then Target
    else if SEQUENCE <= s then Sequence
    else if INF <= s then Inf
    else if RANGE <= s then Range
    else if STREAM <= s then Stream
    else if ENDLIST <= s then EndList
    else if KEY <= s then Key
    else Other
  }

  function IndexOf(s: string, c: char): (r: Option<nat>)
    ensures r.Some? ==> r.value < |s|
  {
    if s == "" then None
    else if s[0] == c then Some(0)
    else match IndexOf(s[1..], c) case None => None case Some(k) => Some(k + 1)
  }

  /** find_attr: where the value of the attribute starts, past an opening quote. */
  function FindAttr(s: string, key: string, i: nat): (r: Option<nat>)
    requires i <= |s|
    ensures r.Some? ==> 0 < r.value <= |s|
    decreases |s| - i
  {
    if i == |s| then None
    else if key <= s[i..] && i + |key| < |s| && s[i + |key|] == '=' then
      var v := i + |key| + 1;
      Some(if v < |s| && s[v] == '"' then v + 1 else v)
    else FindAttr(s, key, i + 1)
  }

  /** copy_quoted_attr */
  function CopyAttr(s: string, key: string): Option<string> {
    var v := FindAttr(s, key, 0);
    if v.None? then None
    else
      var rest := s[v.value..];
      var end := IndexOf(rest, if s[v.value - 1] == '"' then '"' else ',');
      Some(if end.Some? then rest[..end.value] else rest)
  }

  // ---------- One line ----------

  function OnRange(p: Parser, s: string): Parser {
    var at := IndexOf(s, '@');
    p.(hasRange := true, length := ParseUnsigned(s),
       offset := if at.Some? then ParseUnsigned(s[at.value + 1..]) else NO_OFFSET)
  }

  function UnsignedAttr(s: string, key: string): nat {
    var v := FindAttr(s, key, 0);
    if v.Some? then ParseUnsigned(s[v.value..]) % UINT32 else 0
  }

  /** #EXT-X-STREAM-INF */
  function OnStream(s: string, resolve: string -> string): Variant {
    var res := FindAttr(s, "RESOLUTION", 0);
    var x := if res.Some? then IndexOf(s[res.value..], 'x') else None;
    var uri := CopyAttr(s, "URI");
    Variant(UnsignedAttr(s, "BANDWIDTH"), UnsignedAttr(s, "RESOLUTION"),
            if x.Some? then ParseUnsigned(s[res.value..][x.value + 1..]) % UINT32 else 0,
            CopyAttr(s, "CODECS"),
            if uri.Some? then Some(resolve(uri.value)) else None)
  }

  function OnTag(p: Parser, s: string, resolve: string -> string): Parser {
    match TagOf(s)
    case Version => p.(pl := p.pl.(version := ParseUnsigned(s[15..]) % UINT32))
    case Target => p.(pl := p.pl.(target := ParseUnsigned(s[22..]) % UINT32))
    case Sequence =>
      var n := ParseUnsigned(s[22..]) % UINT32;
      p.(pl := p.pl.(mediaSeq := n), nextSeq := n)
    case Inf => p.(duration := Some(ParseDouble(s[8..])))
    case Range => OnRange(p, s[17..])
    case Stream => p.(pl := p.pl.(isMaster := true, variants := p.pl.variants + [OnStream(s, resolve)]))
    case EndList => p.(pl := p.pl.(isVod := true))
    case Key => p.(pl := p.pl.(encrypted := true))
    case Other => p
  }

  function AddSegment(p: Parser, seg: Segment): Parser {
    p.(pl := p.pl.(segments := p.pl.segments + [seg]), nextSeq := (p.nextSeq + 1) % UINT32)
  }

  function OnUri(p: Parser, uri: string): Parser {
    var vs := p.pl.variants;
    if vs != [] && vs[|vs| - 1].uri.None? then
      p.(pl := p.pl.(variants := vs[|vs| - 1 := vs[|vs| - 1].(uri := Some(uri))]))
    else if p.duration.Some? then
      AddSegment(p, Segment(p.nextSeq, p.duration.value, uri, p.hasRange, p.offset, p.length)).(
        duration := None, hasRange := false, offset := 0, length := 0)
    else AddSegment(p, Segment(p.nextSeq, Finite(false, 0.0), uri, false, 0, 0))
  }

  function StripCr(s: string): string {
    if s != "" && s[|s| - 1] == '\r' then s[..|s| - 1] else s
  }

  function SkipBlanks(s: string): string {
    if s != "" && (s[0] == ' ' || s[0] == '\t') then SkipBlanks(s[1..]) else s
  }

  function OnLine(p: Parser, raw: string, resolve: string -> string): Parser {
    var s := SkipBlanks(StripCr(raw));
    if s == "" then p
    else if s[0] == '#' then OnTag(p, s, resolve)
    else OnUri(p, resolve(s))
  }

  function OnLines(p: Parser, ls: seq<string>, resolve: string -> string): Parser
    decreases |ls|
  {
    if ls == [] then p else OnLines(OnLine(p, ls[0], resolve), ls[1..], resolve)
  }

  function LinesOf(s: string): seq<string> {
    if s == "" then []
    else
      var k := IndexOf(s, '\n');
      if k.None? then [s] else [s[..k.value]] + LinesOf(s[k.value + 1..])
  }

  // ---------- Omitted offsets ----------

  /** The latest segment before `j` with this URI. */
  function Before(segs: seq<Segment>, uri: string, j: nat): (r: Option<nat>)
    requires j <= |segs|
    ensures r.Some? ==> r.value < j
  {
    if j == 0 then None
    else if segs[j - 1].uri == uri then Some(j - 1)
    else Before(segs, uri, j - 1)
  }

  function Continued(segs: seq<Segment>, i: nat): (s: Segment)
    requires i < |segs|
    ensures s.hasRange ==> s.offset != NO_OFFSET
  {
    var seg := segs[i];
    if seg.hasRange && seg.offset == NO_OFFSET then
      var j := Before(segs, seg.uri, i);
      var o := if j.Some? then (segs[j.value].offset + segs[j.value].length) % UINT64 else NO_OFFSET;
      seg.(offset := if o == NO_OFFSET then 0 else o)
    else seg
  }

  /** The pass over the segments from `i` on, each seeing the offsets already filled in. */
  function ContinueFrom(segs: seq<Segment>, i: nat): (r: seq<Segment>)
    requires i <= |segs|
    ensures |r| == |segs|
    decreases |segs| - i
  {
    if i == |segs| then segs else ContinueFrom(segs[i := Continued(segs, i)], i + 1)
  }

  /** The first segment is not looked at. */
  function ContinueAll(segs: seq<Segment>): seq<Segment> {
    if segs == [] then segs else ContinueFrom(segs, 1)
  }

  /** What the text means. */
  function ParseSpec(text: string, resolve: string -> string): Option<Media> {
    if !(HEADER <= text) then None
    else
      var k := IndexOf(text, '\n');
      if k.None? then Some(Fresh.pl)
      else
        var pl := OnLines(Fresh, LinesOf(text[k.value + 1..]), resolve).pl;
        Some(pl.(segments := ContinueAll(pl.segments)))
  }

  // ---------- The parser ----------

  /** strchr */
  method FindChar(s: string, start: nat, c: char) returns (k: nat)
    requires start <= |s|
    ensures start <= k <= |s|
    ensures IndexOf(s[start..], c) == if k < |s| then Some(k - start) else None
  {
    hide IndexOf;
    k := start;
    while k < |s| && s[k] != c
      invariant start <= k <= |s| && forall i :: start <= i < k ==> s[i] != c
    {
      k := k + 1;
    }
    IndexIs(s[start..], c, k - start);
  }

  lemma {:induction false} IndexIs(s: string, c: char, k: nat)
    requires k <= |s| && (forall i :: 0 <= i < k ==> s[i] != c) && (k < |s| ==> s[k] == c)
    ensures IndexOf(s, c) == if k < |s| then Some(k) else None
  {
    if k > 0 {
      IndexIs(s[1..], c, k - 1);
    }
  }

  /** hls_parse_playlist */
  method Parse(text: string, resolve: string -> string) returns (r: Option<Media>)
    ensures r == ParseSpec(text, resolve)
  {
    hide OnLine, IndexOf, ContinueAll;
    if !(HEADER <= text) {
      return None;
    }
    var k := FindChar(text, 0, '\n');
    assert text[0..] == text;
    if k == |text| {
      return Some(Fresh.pl);
    }
    var cursor := k + 1;
    var p := Fresh;
    ghost var whole := OnLines(Fresh, LinesOf(text[cursor..]), resolve);
    while cursor < |text|
      invariant cursor <= |text| && OnLines(p, LinesOf(text[cursor..]), resolve) == whole
    {
      var end := FindChar(text, cursor, '\n');
      FirstLine(text, cursor, end);
      p := OnLine(p, text[cursor..end], resolve);
      if end == |text| {
        cursor := end;
        break;
      }
      cursor := end + 1;
    }
    assert text[cursor..] == "";
    var segs := ContinueRanges(p.pl.segments);
    r := Some(p.pl.(segments := segs));
  }

  lemma FirstLine(text: string, cursor: nat, end: nat)
    requires cursor < |text| && cursor <= end <= |text|
    requires IndexOf(text[cursor..], '\n') == if end < |text| then Some(end - cursor) else None
    ensures var ls := LinesOf(text[cursor..]);
            ls != [] && ls[0] == text[cursor..end] && ls[1..] == if end < |text| then LinesOf(text[end + 1..]) else []
  {
    var s := text[cursor..];
    if end < |text| {
      assert s[..end - cursor] == text[cursor..end] && s[end - cursor + 1..] == text[end + 1..];
    } else {
      assert s == text[cursor..end];
    }
  }

  /** The pass that fills in omitted offsets. */
  method ContinueRanges(segments: seq<Segment>) returns (segs: seq<Segment>)
    ensures segs == ContinueAll(segments)
  {
    segs := segments;
    if |segs| == 0 {
      return;
    }
    var i := 1;
    while i < |segs|
      invariant 1 <= i <= |segs| == |segments| && ContinueFrom(segs, i) == ContinueFrom(segments, 1)
    {
      if segs[i].hasRange && segs[i].offset == NO_OFFSET {
        var offset := NO_OFFSET;
        var j := i;
        while j > 0
          invariant 0 <= j <= i && offset == NO_OFFSET && Before(segs, segs[i].uri, j) == Before(segs, segs[i].uri, i)
        {
          if segs[j - 1].uri == segs[i].uri {
            offset := (segs[j - 1].offset + segs[j - 1].length) % UINT64;
            break;
          }
          j := j - 1;
        }
        segs := segs[i := segs[i].(offset := if offset == NO_OFFSET then 0 else offset)];
      } else {
        assert segs[i := segs[i]] == segs;
      }
      i := i + 1;
    }
  }

  // ---------- The printer ----------

  function InfLine(seg: Segment): string {
    INF + Fixed(seg.duration) + ","
  }

  function RangeLine(seg: Segment): string {
    RANGE + Numeral(seg.length) + "@" + Numeral(seg.offset)
  }

  function UriLine(seg: Segment): string {
    "./" + Numeral(seg.seqNo) + ".ts"
  }

  function SegmentLines(seg: Segment): seq<string> {
    [InfLine(seg)] + (if seg.hasRange then [RangeLine(seg)] else []) + [UriLine(seg)]
  }

  function AllSegmentLines(segs: seq<Segment>): seq<string> {
    if segs == [] then [] else AllSegmentLines(segs[..|segs| - 1]) + SegmentLines(segs[|segs| - 1])
  }

  function HeadLines(pl: Media): seq<string> {
    [VERSION + Numeral(pl.version), TARGET + Numeral(pl.target), SEQUENCE + Numeral(pl.mediaSeq)]
  }

  function EndLines(pl: Media): seq<string> {
    if pl.isVod then [ENDLIST] else []
  }

  function Unlines(ls: seq<string>): string {
    if ls == [] then "" else Unlines(ls[..|ls| - 1]) + ls[|ls| - 1] + "\n"
  }

  function PrintSpec(pl: Media): string {
    Unlines([HEADER] + HeadLines(pl) + AllSegmentLines(pl.segments) + EndLines(pl))
  }

  /** The duration line fits the printer's buffer of 128 bytes. */
  predicate FitsAt(seg: Segment) {
    |InfLine(seg)| + 1 < 128
  }

  predicate Fits(pl: Media) {
    forall i :: 0 <= i < |pl.segments| ==> FitsAt(pl.segments[i])
  }

  lemma {:induction false} UnlinesConcat(a: seq<string>, b: seq<string>)
    ensures Unlines(a + b) == Unlines(a) + Unlines(b)
  {
    if b == [] {
      assert a + b == a;
    } else {
      var front := b[..|b| - 1];
      assert (a + b)[..|a + b| - 1] == a + front;
      UnlinesConcat(a, front);
    }
  }

  lemma UnlinesOne(l: string)
    ensures Unlines([l]) == l + "\n"
  {
    assert [l][..0] == [];
  }

  /** The text with the first `i` segments. */
  ghost function Upto(pl: Media, i: nat): string
    requires i <= |pl.segments|
  {
    Unlines([HEADER] + HeadLines(pl) + AllSegmentLines(pl.segments[..i]))
  }

  lemma UptoStep(pl: Media, i: nat)
    requires i < |pl.segments|
    ensures Upto(pl, i + 1) == Upto(pl, i) + Unlines(SegmentLines(pl.segments[i]))
  {
    hide SegmentLines, HeadLines, Unlines;
    var head, lines := [HEADER] + HeadLines(pl), SegmentLines(pl.segments[i]);
    assert pl.segments[..i + 1][..i] == pl.segments[..i];
    UnlinesConcat(head + AllSegmentLines(pl.segments[..i]), lines);
    assert head + (AllSegmentLines(pl.segments[..i]) + lines) == head + AllSegmentLines(pl.segments[..i]) + lines;
  }

  lemma UptoEnd(pl: Media)
    ensures PrintSpec(pl) == Upto(pl, |pl.segments|) + (if pl.isVod then ENDLIST + "\n" else "")
  {
    assert pl.segments[..|pl.segments|] == pl.segments;
    UnlinesConcat([HEADER] + HeadLines(pl) + AllSegmentLines(pl.segments), EndLines(pl));
    UnlinesOne(ENDLIST);
    NoLines();
    hide Unlines, HeadLines, AllSegmentLines;
  }

  // ---------- The printer and its buffers ----------

  /**
   What `snprintf(line, size, ..)` and then copying as many bytes as it returned appends: a
   line that does not fit is cut at the terminator, and memory past the buffer follows.
   */
  function Emit(full: string, size: nat, junk: nat -> char): string
    requires size > 0
  {
    if |full| < size then full else full[..size - 1] + "\0" + seq(|full| - size, k requires k >= 0 => junk(k))
  }

  function EmitSegment(seg: Segment, junk: nat -> char): string {
    Emit(InfLine(seg) + "\n", 128, junk) +
    (if seg.hasRange then Emit(RangeLine(seg) + "\n", 128, junk) else "") +
    Emit(UriLine(seg) + "\n", 128, junk)
  }

  function EmitHead(pl: Media, junk: nat -> char): string {
    HEADER + "\n" + Emit(VERSION + Numeral(pl.version) + "\n", 64, junk) +
    Emit(TARGET + Numeral(pl.target) + "\n", 64, junk) + Emit(SEQUENCE + Numeral(pl.mediaSeq) + "\n", 64, junk)
  }

  /** The text with the first `i` segments as it is really sent; `junk` is the memory past the buffer. */
  function EmitUpto(pl: Media, junk: nat -> char, i: nat): string
    requires i <= |pl.segments|
  {
    if i == 0 then EmitHead(pl, junk) else EmitUpto(pl, junk, i - 1) + EmitSegment(pl.segments[i - 1], junk)
  }

  function Emitted(pl: Media, junk: nat -> char): string {
    EmitUpto(pl, junk, |pl.segments|) + (if pl.isVod then ENDLIST + "\n" else "")
  }

  /** The printer in serve_m3u8. */
  method Print(pl: Media, junk: nat -> char) returns (out: string)
    ensures out == Emitted(pl, junk)
  {
    hide Emit, InfLine, RangeLine, UriLine, Numeral, EmitSegment;
    out := HEADER + "\n";
    out := out + Emit(VERSION + Numeral(pl.version) + "\n", 64, junk);
    out := out + Emit(TARGET + Numeral(pl.target) + "\n", 64, junk);
    out := out + Emit(SEQUENCE + Numeral(pl.mediaSeq) + "\n", 64, junk);
    for i := 0 to |pl.segments|
      invariant out == EmitUpto(pl, junk, i)
    {
      var lines := PrintSegment(pl.segments[i], junk);
      out := out + lines;
    }
    if pl.isVod {
      out := out + (ENDLIST + "\n");
    } else {
      assert out + "" == out;
    }
  }

  method PrintSegment(seg: Segment, junk: nat -> char) returns (out: string)
    ensures out == EmitSegment(seg, junk)
  {
    hide Emit, InfLine, RangeLine, UriLine;
    out := Emit(InfLine(seg) + "\n", 128, junk);
    if seg.hasRange {
      out := out + Emit(RangeLine(seg) + "\n", 128, junk);
    } else {
      assert out + "" == out;
    }
    out := out + Emit(UriLine(seg) + "\n", 128, junk);
  }

  lemma Unlines2(ls: seq<string>, l: string)
    ensures Unlines(ls + [l]) == Unlines(ls) + l + "\n"
  {
    assert (ls + [l])[..|ls|] == ls;
  }

  // ---------- Printed text falls into its lines ----------

  /** Neither a line break nor a terminator. */
  predicate NoBreak(s: string) {
    '\n' !in s && '\0' !in s
  }

  predicate NoBreaks(ls: seq<string>) {
    forall i :: 0 <= i < |ls| ==> NoBreak(ls[i])
  }

  lemma FirstOf(l: string, rest: string)
    requires NoBreak(l)
    ensures IndexOf(l + "\n" + rest, '\n') == Some(|l|)
  {
    var s := l + "\n" + rest;
    forall i | 0 <= i < |l| ensures s[i] != '\n' {
      assert s[i] == l[i] && l[i] in l;
    }
    IndexIs(s, '\n', |l|);
  }

  lemma UnlinesFront(l: string, ls: seq<string>)
    ensures Unlines([l] + ls) == l + "\n" + Unlines(ls)
  {
    UnlinesConcat([l], ls);
    UnlinesOne(l);
  }

  lemma {:induction false} LinesOfUnlines(ls: seq<string>)
    requires NoBreaks(ls)
    ensures LinesOf(Unlines(ls)) == ls
  {
    hide IndexOf, Unlines;
    if ls == [] {
      assert Unlines(ls) == "" by { NoLines(); }
    } else {
      var l, rest := ls[0], ls[1..];
      assert [l] + rest == ls;
      UnlinesFront(l, rest);
      FirstOf(l, Unlines(rest));
      LinesOfUnlines(rest);
      var s := l + "\n" + Unlines(rest);
      assert s[..|l|] == l && s[|l| + 1..] == Unlines(rest);
    }
  }

  lemma NoLines()
    ensures Unlines([]) == ""
  {
  }

  lemma {:induction false} OnLinesConcat(p: Parser, a: seq<string>, b: seq<string>, resolve: string -> string)
    ensures OnLines(p, a + b, resolve) == OnLines(OnLines(p, a, resolve), b, resolve)
    decreases |a|
  {
    hide OnLine;
    if a == [] {
      assert a + b == b;
    } else {
      assert (a + b)[1..] == a[1..] + b;
      OnLinesConcat(OnLine(p, a[0], resolve), a[1..], b, resolve);
    }
  }

  lemma OnOneLine(p: Parser, l: string, resolve: string -> string)
    ensures OnLines(p, [l], resolve) == OnLine(p, l, resolve)
  {
    hide OnLine;
    assert [l][1..] == [];
  }

  // ---------- Each printed line means what was printed ----------

  /** The tags differ at their eighth character, or `#EXTINF:` at its fifth. */
  lemma TagByLetter(s: string)
    requires |s| > 7
    ensures s[4] == '-' && s[7] != 'V' ==> !(VERSION <= s)
    ensures s[4] == '-' && s[7] != 'T' ==> !(TARGET <= s)
    ensures s[4] == '-' && s[7] != 'M' ==> !(SEQUENCE <= s)
    ensures s[4] == '-' && s[7] != 'B' ==> !(RANGE <= s)
    ensures s[4] == '-' && s[7] != 'S' ==> !(STREAM <= s)
    ensures s[4] == '-' ==> !(INF <= s)
    ensures s[4] != '-' ==> !(VERSION <= s) && !(TARGET <= s) && !(SEQUENCE <= s)
  {
  }

  predicate PlainEnd(s: string) {
    s != "" && s[|s| - 1] != '\r'
  }

  /** A line that starts with a tag and does not end in a carriage return goes to the tag as it is. */
  lemma TagLine(p: Parser, s: string, resolve: string -> string)
    requires PlainEnd(s) && s[0] == '#'
    ensures OnLine(p, s, resolve) == OnTag(p, s, resolve)
  {
  }

  lemma NumeralText(n: nat)
    ensures Numeral(n) != "" && NoBreak(Numeral(n)) && IsDigit(Numeral(n)[|Numeral(n)| - 1])
  {
  }

  lemma Tail(tag: string, rest: string)
    ensures tag <= tag + rest && (tag + rest)[|tag|..] == rest
  {
  }

  /** How each printed tag is recognised, whatever follows it. */
  lemma VersionTag(rest: string)
    ensures TagOf(VERSION + rest) == Version && NoBreak(VERSION) && |VERSION| == 15
  {
    Tail(VERSION, rest);
  }

  lemma TargetTag(rest: string)
    ensures TagOf(TARGET + rest) == Target && NoBreak(TARGET) && |TARGET| == 22
  {
    TagByLetter(TARGET + rest);
    Tail(TARGET, rest);
  }

  lemma SequenceTag(rest: string)
    ensures TagOf(SEQUENCE + rest) == Sequence && NoBreak(SEQUENCE) && |SEQUENCE| == 22
  {
    TagByLetter(SEQUENCE + rest);
    Tail(SEQUENCE, rest);
  }

  lemma InfTag(rest: string)
    ensures TagOf(INF + rest) == Inf && NoBreak(INF) && |INF| == 8
  {
    TagByLetter(INF + rest);
    Tail(INF, rest);
  }

  lemma RangeTag(rest: string)
    ensures TagOf(RANGE + rest) == Range && NoBreak(RANGE) && |RANGE| == 17
  {
    TagByLetter(RANGE + rest);
    Tail(RANGE, rest);
  }

  /** A tag and what follows it, as a line. */
  lemma Tagged(p: Parser, tag: string, rest: string, resolve: string -> string)
    requires tag != "" && tag[0] == '#' && PlainEnd(rest) && NoBreak(tag) && NoBreak(rest)
    ensures NoBreak(tag + rest) && (tag + rest)[|tag|..] == rest
    ensures OnLine(p, tag + rest, resolve) == OnTag(p, tag + rest, resolve)
  {
    hide OnTag;
    TagLine(p, tag + rest, resolve);
  }

  lemma ReadNumeral(n: nat)
    requires n <= ULONG_MAX
    ensures ParseUnsigned(Numeral(n)) == n && PlainEnd(Numeral(n)) && NoBreak(Numeral(n))
  {
    NumeralText(n);
    hide Numeral;
    ParseNumeral(n, "");
    assert Numeral(n) + "" == Numeral(n);
  }

  lemma VersionLine(p: Parser, n: nat, resolve: string -> string)
    requires n < UINT32
    ensures NoBreak(VERSION + Numeral(n))
    ensures OnLine(p, VERSION + Numeral(n), resolve) == p.(pl := p.pl.(version := n))
  {
    hide Numeral, TagOf, OnLine, NoBreak, ParseUnsigned;
    ReadNumeral(n);
    VersionTag(Numeral(n));
    Tagged(p, VERSION, Numeral(n), resolve);
  }

  lemma TargetLine(p: Parser, n: nat, resolve: string -> string)
    requires n < UINT32
    ensures NoBreak(TARGET + Numeral(n))
    ensures OnLine(p, TARGET + Numeral(n), resolve) == p.(pl := p.pl.(target := n))
  {
    hide Numeral, TagOf, OnLine, NoBreak, ParseUnsigned;
    ReadNumeral(n);
    TargetTag(Numeral(n));
    Tagged(p, TARGET, Numeral(n), resolve);
  }

  lemma SequenceLine(p: Parser, n: nat, resolve: string -> string)
    requires n < UINT32
    ensures NoBreak(SEQUENCE + Numeral(n))
    ensures OnLine(p, SEQUENCE + Numeral(n), resolve) == p.(pl := p.pl.(mediaSeq := n), nextSeq := n)
  {
    hide Numeral, TagOf, OnLine, NoBreak, ParseUnsigned;
    ReadNumeral(n);
    SequenceTag(Numeral(n));
    Tagged(p, SEQUENCE, Numeral(n), resolve);
  }

  lemma EndLine(p: Parser, resolve: string -> string)
    ensures NoBreak(ENDLIST) && OnLine(p, ENDLIST, resolve) == p.(pl := p.pl.(isVod := true))
  {
    TagLine(p, ENDLIST, resolve);
    TagByLetter(ENDLIST);
  }

  lemma FixedText(d: Double)
    ensures NoBreak(Fixed(d))
  {
    if d.Finite? {
      NumeralText(Millis(d.magnitude) / 1000);
    }
    hide Numeral;
  }

  lemma InfLineRead(p: Parser, seg: Segment, resolve: string -> string)
    ensures NoBreak(InfLine(seg))
    ensures OnLine(p, InfLine(seg), resolve) == p.(duration := Some(Rounded(seg.duration)))
  {
    hide Fixed, TagOf, OnLine, NoBreak, ParseDouble, Rounded;
    ParseFixed(seg.duration, ",");
    var rest := Fixed(seg.duration) + ",";
    assert InfLine(seg) == INF + rest;
    CommaText(Fixed(seg.duration)) by { FixedText(seg.duration); }
    InfTag(rest);
    Tagged(p, INF, rest, resolve);
  }

  lemma CommaText(s: string)
    requires NoBreak(s)
    ensures NoBreak(s + ",") && PlainEnd(s + ",")
  {
  }

  lemma AtIndex(a: nat, b: nat)
    ensures var s := Numeral(a) + "@" + Numeral(b);
            IndexOf(s, '@') == Some(|Numeral(a)|) && s[|Numeral(a)| + 1..] == Numeral(b)
  {
    var s := Numeral(a) + "@" + Numeral(b);
    forall i | 0 <= i < |Numeral(a)| ensures s[i] != '@' {
      assert s[i] == Numeral(a)[i];
    }
    IndexIs(s, '@', |Numeral(a)|);
  }

  lemma RangeText(a: nat, b: nat)
    ensures NoBreak(Numeral(a) + "@" + Numeral(b)) && PlainEnd(Numeral(a) + "@" + Numeral(b))
  {
    NumeralText(a);
    NumeralText(b);
    hide Numeral;
  }

  lemma OnRangeRead(p: Parser, a: nat, b: nat)
    requires a <= ULONG_MAX && b <= ULONG_MAX
    ensures OnRange(p, Numeral(a) + "@" + Numeral(b)) == p.(hasRange := true, length := a, offset := b)
  {
    hide Numeral, ParseUnsigned, IndexOf;
    AtIndex(a, b);
    ReadNumeral(b);
    ParseNumeral(a, "@" + Numeral(b));
    assert Numeral(a) + "@" + Numeral(b) == Numeral(a) + ("@" + Numeral(b));
  }

  lemma RangeLineRead(p: Parser, seg: Segment, resolve: string -> string)
    requires seg.length <= ULONG_MAX && seg.offset <= ULONG_MAX
    ensures NoBreak(RangeLine(seg))
    ensures OnLine(p, RangeLine(seg), resolve) == p.(hasRange := true, length := seg.length, offset := seg.offset)
  {
    hide Numeral, TagOf, OnLine, NoBreak, OnRange;
    var rest := Numeral(seg.length) + "@" + Numeral(seg.offset);
    assert RangeLine(seg) == RANGE + rest;
    RangeText(seg.length, seg.offset);
    RangeTag(rest);
    Tagged(p, RANGE, rest, resolve);
    OnRangeRead(p, seg.length, seg.offset);
  }

  lemma UriLineRead(p: Parser, seg: Segment, resolve: string -> string)
    ensures NoBreak(UriLine(seg)) && OnLine(p, UriLine(seg), resolve) == OnUri(p, resolve(UriLine(seg)))
  {
    NumeralText(seg.seqNo);
    hide Numeral, OnUri, OnTag;
    var s := UriLine(seg);
    assert s[0] == '.' && s[|s| - 1] == 's';
  }

  // ---------- The printed segments ----------

  /** Nothing is pending, and no variant waits for its URI. */
  predicate Idle(p: Parser) {
    p.duration.None? && !p.hasRange && p.offset == 0 == p.length && p.pl.variants == []
  }

  /** What a printed segment is read back as. */
  function Reread(seg: Segment, seqNo: nat, resolve: string -> string): Segment {
    Segment(seqNo, Rounded(seg.duration), resolve(UriLine(seg)), seg.hasRange,
            if seg.hasRange then seg.offset else 0, if seg.hasRange then seg.length else 0)
  }

  /** The widths of the fields. */
  predicate InRange(seg: Segment) {
    seg.length <= ULONG_MAX && seg.offset <= ULONG_MAX && seg.seqNo < UINT32
  }

  lemma SegmentRead(p: Parser, seg: Segment, resolve: string -> string)
    requires Idle(p) && InRange(seg)
    ensures OnLines(p, SegmentLines(seg), resolve) == AddSegment(p, Reread(seg, p.nextSeq, resolve))
    ensures NoBreaks(SegmentLines(seg))
  {
    hide OnLine, OnLines, InfLine, RangeLine, UriLine, Rounded, NoBreak;
    InfLineRead(p, seg, resolve);
    OnOneLine(p, InfLine(seg), resolve);
    var q := OnLine(p, InfLine(seg), resolve);
    if seg.hasRange {
      RangeLineRead(q, seg, resolve);
      OnOneLine(q, RangeLine(seg), resolve);
      OnLinesConcat(p, [InfLine(seg)], [RangeLine(seg)], resolve);
      q := OnLine(q, RangeLine(seg), resolve);
    } else {
      assert [InfLine(seg)] + [] == [InfLine(seg)];
    }
    UriLineRead(q, seg, resolve);
    OnOneLine(q, UriLine(seg), resolve);
    OnLinesConcat(p, [InfLine(seg)] + (if seg.hasRange then [RangeLine(seg)] else []), [UriLine(seg)], resolve);
  }

  function RereadAll(segs: seq<Segment>, from: nat, resolve: string -> string): seq<Segment> {
    if segs == [] then []
    else
      var n := |segs| - 1;
      RereadAll(segs[..n], from, resolve) + [Reread(segs[n], (from + n) % UINT32, resolve)]
  }

  lemma {:induction false} RereadEach(segs: seq<Segment>, from: nat, resolve: string -> string)
    ensures var r := RereadAll(segs, from, resolve);
            |r| == |segs| && forall i :: 0 <= i < |segs| ==> r[i] == Reread(segs[i], (from + i) % UINT32, resolve)
  {
    hide Reread;
    if segs != [] {
      RereadEach(segs[..|segs| - 1], from, resolve);
    }
  }

  /** The parser after the printed segments. */
  function AfterAll(p: Parser, segs: seq<Segment>, resolve: string -> string): Parser {
    p.(pl := p.pl.(segments := RereadAll(segs, p.nextSeq, resolve)), nextSeq := (p.nextSeq + |segs|) % UINT32)
  }

  lemma AfterOneMore(p: Parser, segs: seq<Segment>, resolve: string -> string)
    requires segs != []
    ensures var n := |segs| - 1; var q := AfterAll(p, segs[..n], resolve);
            AddSegment(q, Reread(segs[n], q.nextSeq, resolve)) == AfterAll(p, segs, resolve)
  {
    hide Reread;
  }

  lemma {:induction false} SegmentsRead(p: Parser, segs: seq<Segment>, resolve: string -> string)
    requires Idle(p) && p.pl.segments == [] && p.nextSeq < UINT32 && forall i :: 0 <= i < |segs| ==> InRange(segs[i])
    ensures NoBreaks(AllSegmentLines(segs))
    ensures OnLines(p, AllSegmentLines(segs), resolve) == AfterAll(p, segs, resolve)
  {
    hide OnLine, OnLines, SegmentLines, Reread, NoBreak, AddSegment;
    if segs == [] {
      OnNoLine(p, resolve);
    } else {
      var n := |segs| - 1;
      var front, last := segs[..n], segs[n];
      SegmentsRead(p, front, resolve);
      SegmentRead(AfterAll(p, front, resolve), last, resolve);
      OnLinesConcat(p, AllSegmentLines(front), SegmentLines(last), resolve);
      AfterOneMore(p, segs, resolve);
    }
  }

  lemma OnNoLine(p: Parser, resolve: string -> string)
    ensures OnLines(p, [], resolve) == p
  {
  }

  // ---------- Round trip ----------

  predicate Printable(pl: Media) {
    && pl.version < UINT32 && pl.target < UINT32 && pl.mediaSeq < UINT32
    && (forall i :: 0 <= i < |pl.segments| ==> InRange(pl.segments[i]))
    && (forall i :: 1 <= i < |pl.segments| && pl.segments[i].hasRange ==> pl.segments[i].offset != NO_OFFSET)
  }

  lemma HeadRead(pl: Media, resolve: string -> string)
    requires pl.version < UINT32 && pl.target < UINT32 && pl.mediaSeq < UINT32
    ensures NoBreaks(HeadLines(pl))
    ensures OnLines(Fresh, HeadLines(pl), resolve) ==
            Fresh.(pl := Fresh.pl.(version := pl.version, target := pl.target, mediaSeq := pl.mediaSeq), nextSeq := pl.mediaSeq)
  {
    hide OnLine, OnLines, Numeral, NoBreak;
    var a, b, c := VERSION + Numeral(pl.version), TARGET + Numeral(pl.target), SEQUENCE + Numeral(pl.mediaSeq);
    VersionLine(Fresh, pl.version, resolve);
    OnOneLine(Fresh, a, resolve);
    var p := OnLine(Fresh, a, resolve);
    TargetLine(p, pl.target, resolve);
    OnOneLine(p, b, resolve);
    OnLinesConcat(Fresh, [a], [b], resolve);
    var q := OnLine(p, b, resolve);
    SequenceLine(q, pl.mediaSeq, resolve);
    OnOneLine(q, c, resolve);
    OnLinesConcat(Fresh, [a] + [b], [c], resolve);
    assert HeadLines(pl) == [a] + [b] + [c];
  }

  lemma {:induction false} NothingToContinue(segs: seq<Segment>, i: nat)
    requires i <= |segs| && forall k :: i <= k < |segs| && segs[k].hasRange ==> segs[k].offset != NO_OFFSET
    ensures ContinueFrom(segs, i) == segs
    decreases |segs| - i
  {
    if i < |segs| {
      assert segs[i := Continued(segs, i)] == segs;
      NothingToContinue(segs, i + 1);
    }
  }

  /** The whole text but its first line, read back. */
  lemma LinesRead(pl: Media, resolve: string -> string)
    requires Printable(pl)
    ensures var ls := HeadLines(pl) + AllSegmentLines(pl.segments) + EndLines(pl);
            && NoBreaks(ls)
            && OnLines(Fresh, ls, resolve).pl ==
               Media(pl.version, pl.target, pl.mediaSeq, pl.isVod, false, false, RereadAll(pl.segments, pl.mediaSeq, resolve), [])
  {
    hide OnLine, OnLines, HeadLines, AllSegmentLines, NoBreak;
    var head, body := HeadLines(pl), AllSegmentLines(pl.segments);
    HeadRead(pl, resolve);
    var p := OnLines(Fresh, head, resolve);
    SegmentsRead(p, pl.segments, resolve);
    OnLinesConcat(Fresh, head, body, resolve);
    var q := OnLines(p, body, resolve);
    OnLinesConcat(Fresh, head + body, EndLines(pl), resolve);
    if pl.isVod {
      EndLine(q, resolve);
      OnOneLine(q, ENDLIST, resolve);
    } else {
      assert head + body + [] == head + body;
    }
  }

  lemma PrintedText(pl: Media, ls: seq<string>)
    requires ls == HeadLines(pl) + AllSegmentLines(pl.segments) + EndLines(pl)
    ensures PrintSpec(pl) == HEADER + "\n" + Unlines(ls)
  {
    hide Unlines, HeadLines, AllSegmentLines, EndLines;
    assert [HEADER] + HeadLines(pl) + AllSegmentLines(pl.segments) + EndLines(pl) == [HEADER] + ls;
    UnlinesFront(HEADER, ls);
  }

  /** Printing and parsing, for every printable playlist. */
  lemma ParsePrinted(pl: Media, resolve: string -> string)
    requires Printable(pl)
    ensures ParseSpec(PrintSpec(pl), resolve) ==
            Some(Media(pl.version, pl.target, pl.mediaSeq, pl.isVod, false, false, RereadAll(pl.segments, pl.mediaSeq, resolve), []))
  {
    hide OnLines, Unlines, HeadLines, AllSegmentLines, EndLines, IndexOf, NoBreak, RereadAll;
    var ls := HeadLines(pl) + AllSegmentLines(pl.segments) + EndLines(pl);
    LinesRead(pl, resolve);
    LinesOfUnlines(ls);
    PrintedText(pl, ls);
    HeaderFirst(Unlines(ls));
    var segs := RereadAll(pl.segments, pl.mediaSeq, resolve);
    RereadOffsets(pl, resolve);
    if segs != [] {
      NothingToContinue(segs, 1);
    }
  }

  lemma HeaderFirst(rest: string)
    ensures var s := HEADER + "\n" + rest; HEADER <= s && IndexOf(s, '\n') == Some(7) && s[8..] == rest
  {
    FirstOf(HEADER, rest);
  }

  lemma RereadOffsets(pl: Media, resolve: string -> string)
    requires Printable(pl)
    ensures var segs := RereadAll(pl.segments, pl.mediaSeq, resolve);
            forall k :: 1 <= k < |segs| && segs[k].hasRange ==> segs[k].offset != NO_OFFSET
  {
    hide RereadAll;
    RereadEach(pl.segments, pl.mediaSeq, resolve);
  }

  // ---------- Every parsed playlist is printable ----------

  /** What holds of any parser state: numbers in range, and no offset or length without a byte range. */
  predicate Sound(p: Parser) {
    && p.pl.version < UINT32 && p.pl.target < UINT32 && p.pl.mediaSeq < UINT32 && p.nextSeq < UINT32
    && p.offset <= ULONG_MAX && p.length <= ULONG_MAX && (!p.hasRange ==> p.offset == 0 == p.length)
    && AllSound(p.pl.segments)
  }

  predicate AllSound(segs: seq<Segment>) {
    forall i :: 0 <= i < |segs| ==> InRange(segs[i]) && (!segs[i].hasRange ==> segs[i].offset == 0 == segs[i].length)
  }

  lemma LineKeepsSound(p: Parser, raw: string, resolve: string -> string)
    requires Sound(p)
    ensures Sound(OnLine(p, raw, resolve))
  {
    hide SkipBlanks, StripCr, Sound, OnTag, OnUri;
    var s := SkipBlanks(StripCr(raw));
    TagKeepsSound(p, s, resolve);
    UriKeepsSound(p, resolve(s));
  }

  lemma TagKeepsSound(p: Parser, s: string, resolve: string -> string)
    requires Sound(p)
    ensures Sound(OnTag(p, s, resolve))
  {
    hide ParseUnsigned, ParseDouble, TagOf, OnStream, IndexOf, AllSound;
    TagLength(s);
  }

  lemma UriKeepsSound(p: Parser, uri: string)
    requires Sound(p)
    ensures Sound(OnUri(p, uri))
  {
  }

  lemma TagLength(s: string)
    ensures TagOf(s).Version? ==> |s| >= 15
    ensures TagOf(s).Target? || TagOf(s).Sequence? ==> |s| >= 22
    ensures TagOf(s).Inf? ==> |s| >= 8
    ensures TagOf(s).Range? ==> |s| >= 17
  {
  }

  lemma {:induction false} LinesKeepSound(p: Parser, ls: seq<string>, resolve: string -> string)
    requires Sound(p)
    ensures Sound(OnLines(p, ls, resolve))
    decreases |ls|
  {
    hide OnLine, Sound;
    if ls != [] {
      LineKeepsSound(p, ls[0], resolve);
      LinesKeepSound(OnLine(p, ls[0], resolve), ls[1..], resolve);
    }
  }

  /** The pass changes offsets only, keeps them in range, and leaves none open from `i` on. */
  lemma {:induction false} ContinueResolves(segs: seq<Segment>, i: nat)
    requires i <= |segs| && AllSound(segs)
    ensures var r := ContinueFrom(segs, i);
            && AllSound(r)
            && (forall k :: 0 <= k < |segs| ==> r[k] == segs[k].(offset := r[k].offset))
            && (forall k :: 0 <= k < i ==> r[k] == segs[k])
            && (forall k :: i <= k < |segs| && r[k].hasRange ==> r[k].offset != NO_OFFSET)
    decreases |segs| - i
  {
    if i < |segs| {
      var next := segs[i := Continued(segs, i)];
      ContinuedIsSound(segs, i);
      ContinueResolves(next, i + 1);
      assert ContinueFrom(segs, i)[i] == next[i];
    }
  }

  lemma ContinuedIsSound(segs: seq<Segment>, i: nat)
    requires i < |segs| && AllSound(segs)
    ensures AllSound(segs[i := Continued(segs, i)]) && Continued(segs, i) == segs[i].(offset := Continued(segs, i).offset)
  {
    hide Before;
  }

  // ---------- What the pass does, exactly ----------

  /** A byte range whose offset is still the marker. */
  predicate Open(seg: Segment) {
    seg.hasRange && seg.offset == NO_OFFSET
  }

  /** The first segment is left as parsed, open if its offset was omitted; no other is ever open. */
  lemma OnlyFirstStaysOpen(segs: seq<Segment>)
    requires AllSound(segs) && segs != []
    ensures var r := ContinueAll(segs);
            && |r| == |segs| && r[0] == segs[0] && (Open(r[0]) <==> Open(segs[0]))
            && forall k :: 1 <= k < |r| ==> !Open(r[k])
  {
    ContinueResolves(segs, 1);
  }

  lemma {:induction false} BeforeSame(a: seq<Segment>, b: seq<Segment>, uri: string, j: nat)
    requires j <= |a| && j <= |b| && forall k :: 0 <= k < j ==> a[k].uri == b[k].uri
    ensures Before(a, uri, j) == Before(b, uri, j)
  {
    if j > 0 {
      BeforeSame(a, b, uri, j - 1);
    }
  }

  /** Each segment is filled in from the segments before it as they end up. */
  lemma {:induction false} ContinuedLast(segs: seq<Segment>, i: nat, k: nat)
    requires i <= k < |segs| && AllSound(segs)
    ensures var r := ContinueFrom(segs, i); r[k] == Continued(r[k := segs[k]], k)
    decreases |segs| - i
  {
    var next := segs[i := Continued(segs, i)];
    ContinuedIsSound(segs, i);
    var r := ContinueFrom(segs, i);
    ContinueResolves(segs, i);
    if i == k {
      ContinueResolves(next, i + 1);
      BeforeSame(segs, r[k := segs[k]], segs[i].uri, i);
    } else {
      ContinuedLast(next, i + 1, k);
    }
  }

  /**
   An omitted offset becomes the end of the latest earlier segment with that URI if and only
   if that end is below 2^64 - 1. It is not when the predecessor is an open first segment, or
   when the sum reaches the marker or wraps; without a predecessor it becomes 0.
   */
  lemma ContinuedOffset(segs: seq<Segment>, k: nat)
    requires AllSound(segs) && 1 <= k < |segs| && Open(segs[k])
    ensures var r := ContinueAll(segs); var j := Before(r, segs[k].uri, k);
            && |r| == |segs| && (j.None? ==> r[k].offset == 0)
            && (j.Some? ==> (r[k].offset == r[j.value].offset + r[j.value].length <==>
                             r[j.value].offset + r[j.value].length < NO_OFFSET))
  {
    hide Before;
    ContinuedLast(segs, 1, k);
    ContinueResolves(segs, 1);
    var r := ContinueAll(segs);
    BeforeSame(r, r[k := segs[k]], segs[k].uri, k);
  }

  /**
   Where a segment starts, going by what was parsed: at its own offset, or after the latest
   earlier segment with its URI, or at 0 if there is none. Going back may end at a first
   segment whose offset was omitted; then it is not known.
   */
  function Start(segs: seq<Segment>, k: nat): Option<nat>
    requires k < |segs|
    decreases k
  {
    if !Open(segs[k]) then Some(segs[k].offset)
    else if k == 0 then None
    else
      var j := Before(segs, segs[k].uri, k);
      if j.None? then Some(0)
      else
        var from := Start(segs, j.value);
        if from.None? then None else Some(from.value + segs[j.value].length)
  }

  /** The pass gives a segment the offset where it starts if and only if that is known and, if it was omitted, below 2^64 - 1. */
  lemma {:induction false} OffsetIsStart(segs: seq<Segment>, k: nat)
    requires AllSound(segs) && k < |segs|
    ensures var start := Start(segs, k);
            && |ContinueAll(segs)| == |segs|
            && (start == Some(ContinueAll(segs)[k].offset) <==>
                start.Some? && (Open(segs[k]) ==> start.value < NO_OFFSET))
    decreases k
  {
    hide Before, ContinueAll;
    var r := ContinueAll(segs);
    PassKeeps(segs);
    if Open(segs[k]) && k > 0 {
      ContinuedOffset(segs, k);
      BeforeSame(r, segs, segs[k].uri, k);
      var j := Before(segs, segs[k].uri, k);
      if j.Some? {
        OffsetIsStart(segs, j.value);
      }
    }
  }

  /** The pass changes omitted offsets only, to ones below the marker. */
  lemma PassKeeps(segs: seq<Segment>)
    requires AllSound(segs) && segs != []
    ensures var r := ContinueAll(segs);
            && |r| == |segs| && (forall k :: 0 <= k < |segs| ==> r[k] == segs[k].(offset := r[k].offset))
            && (forall k :: 0 <= k < |segs| && (k == 0 || !Open(segs[k])) ==> r[k] == segs[k])
            && (forall k :: 1 <= k < |segs| && Open(segs[k]) ==> r[k].offset < NO_OFFSET)
  {
    ContinueResolves(segs, 1);
    var r := ContinueAll(segs);
    forall k | 1 <= k < |segs| && !Open(segs[k]) ensures r[k] == segs[k] {
      ContinuedLast(segs, 1, k);
    }
  }

  lemma ParsedIsPrintable(text: string, resolve: string -> string)
    requires ParseSpec(text, resolve).Some?
    ensures var pl := ParseSpec(text, resolve).value; Printable(pl) && AllSound(pl.segments)
  {
    hide OnLines, LinesOf, IndexOf;
    var k := IndexOf(text, '\n');
    if k.Some? {
      var p := OnLines(Fresh, LinesOf(text[k.value + 1..]), resolve);
      LinesKeepSound(Fresh, LinesOf(text[k.value + 1..]), resolve);
      if p.pl.segments != [] {
        ContinueResolves(p.pl.segments, 1);
      }
    }
  }

  // ---------- The round trip of any parsed text ----------

  /** `a` is `b` but for URI and sequence number, its duration rounded to the millisecond. */
  predicate Alike(a: Segment, b: Segment) {
    a.duration == Rounded(b.duration) && a.hasRange == b.hasRange && a.offset == b.offset && a.length == b.length
  }

  predicate CountsUp(pl: Media) {
    forall i :: 0 <= i < |pl.segments| ==> pl.segments[i].seqNo == (pl.mediaSeq + i) % UINT32
  }

  lemma RereadIsAlike(seg: Segment, seqNo: nat, resolve: string -> string)
    requires !seg.hasRange ==> seg.offset == 0 == seg.length
    ensures Alike(Reread(seg, seqNo, resolve), seg) && Reread(seg, seqNo, resolve).seqNo == seqNo
  {
    hide Rounded, UriLine;
  }

  /**
   What the printer writes comes back, the sequence numbers exactly if they count up. It does
   not write URIs, the encryption flag or the variants of a master playlist: none of these do.
   */
  ghost predicate SameAgain(back: Media, pl: Media) {
    && back.version == pl.version && back.target == pl.target && back.mediaSeq == pl.mediaSeq
    && back.isVod == pl.isVod && |back.segments| == |pl.segments|
    && !back.encrypted && !back.isMaster && back.variants == []
    && (forall i :: 0 <= i < |pl.segments| ==> Alike(back.segments[i], pl.segments[i]))
    && ((forall i :: 0 <= i < |pl.segments| ==> back.segments[i].seqNo == pl.segments[i].seqNo) <==> CountsUp(pl))
  }

  /** The lines of any parsed playlist parse to the same playlist, be it against another base URL. */
  lemma LinesRoundTrip(text: string, resolve: string -> string, again: string -> string)
    requires ParseSpec(text, resolve).Some?
    ensures var pl := ParseSpec(text, resolve).value; var back := ParseSpec(PrintSpec(pl), again);
            back.Some? && SameAgain(back.value, pl)
  {
    hide ParseSpec, PrintSpec, RereadAll, Alike, Printable, AllSound;
    ParsedIsPrintable(text, resolve);
    var pl := ParseSpec(text, resolve).value;
    ParsePrinted(pl, again);
    RereadAlike(pl.segments, pl.mediaSeq, again);
  }

  lemma RereadAlike(segs: seq<Segment>, from: nat, again: string -> string)
    requires AllSound(segs)
    ensures var r := RereadAll(segs, from, again);
            |r| == |segs| && forall i :: 0 <= i < |segs| ==> Alike(r[i], segs[i]) && r[i].seqNo == (from + i) % UINT32
  {
    hide RereadAll, Alike;
    RereadEach(segs, from, again);
    var r := RereadAll(segs, from, again);
    forall i | 0 <= i < |segs| ensures Alike(r[i], segs[i]) && r[i].seqNo == (from + i) % UINT32 {
      RereadIsAlike(segs[i], (from + i) % UINT32, again);
    }
  }

  // ---------- When sequence numbers count up ----------

  predicate IsSequenceLine(raw: string) {
    var s := SkipBlanks(StripCr(raw));
    s != "" && s[0] == '#' && TagOf(s) == Sequence
  }

  /** Every media sequence tag comes before the first segment. */
  predicate SequenceFirst(p: Parser, ls: seq<string>, resolve: string -> string)
    decreases |ls|
  {
    ls == [] || ((IsSequenceLine(ls[0]) ==> p.pl.segments == []) &&
                 SequenceFirst(OnLine(p, ls[0], resolve), ls[1..], resolve))
  }

  predicate InStep(p: Parser) {
    CountsUp(p.pl) && p.nextSeq == (p.pl.mediaSeq + |p.pl.segments|) % UINT32
  }

  lemma LineKeepsStep(p: Parser, raw: string, resolve: string -> string)
    requires InStep(p) && p.pl.mediaSeq < UINT32 && (IsSequenceLine(raw) ==> p.pl.segments == [])
    ensures InStep(OnLine(p, raw, resolve)) && OnLine(p, raw, resolve).pl.mediaSeq < UINT32
  {
    hide SkipBlanks, StripCr, TagOf, OnTag, OnUri, InStep;
    var s := SkipBlanks(StripCr(raw));
    if s != "" && s[0] == '#' {
      TagKeepsStep(p, s, resolve);
    } else {
      UriKeepsStep(p, resolve(s));
    }
  }

  lemma TagKeepsStep(p: Parser, s: string, resolve: string -> string)
    requires InStep(p) && p.pl.mediaSeq < UINT32 && (TagOf(s) == Sequence ==> p.pl.segments == [])
    ensures InStep(OnTag(p, s, resolve)) && OnTag(p, s, resolve).pl.mediaSeq < UINT32
  {
    hide ParseUnsigned, ParseDouble, TagOf, OnStream, IndexOf;
    TagLength(s);
    var q := OnTag(p, s, resolve);
    assert q.pl.segments == p.pl.segments;
    if TagOf(s) != Sequence {
      assert q.pl.mediaSeq == p.pl.mediaSeq && q.nextSeq == p.nextSeq;
    }
  }

  lemma AddKeepsStep(p: Parser, seg: Segment)
    requires InStep(p) && p.pl.mediaSeq < UINT32 && seg.seqNo == p.nextSeq
    ensures InStep(AddSegment(p, seg))
  {
    var q, n := AddSegment(p, seg), |p.pl.segments|;
    assert q.pl.mediaSeq == p.pl.mediaSeq && q.pl.segments == p.pl.segments + [seg];
    NextModulo(p.pl.mediaSeq + n);
  }

  lemma NextModulo(x: nat)
    ensures (x % UINT32 + 1) % UINT32 == (x + 1) % UINT32
  {
  }

  lemma SameStep(p: Parser, q: Parser)
    requires InStep(p) && q.pl.segments == p.pl.segments && q.pl.mediaSeq == p.pl.mediaSeq && q.nextSeq == p.nextSeq
    ensures InStep(q)
  {
  }

  lemma UriKeepsStep(p: Parser, uri: string)
    requires InStep(p) && p.pl.mediaSeq < UINT32
    ensures InStep(OnUri(p, uri)) && OnUri(p, uri).pl.mediaSeq < UINT32
  {
    hide InStep;
    var vs := p.pl.variants;
    if vs != [] && vs[|vs| - 1].uri.None? {
      SameStep(p, OnUri(p, uri));
    } else if p.duration.Some? {
      var seg := Segment(p.nextSeq, p.duration.value, uri, p.hasRange, p.offset, p.length);
      AddKeepsStep(p, seg);
      SameStep(AddSegment(p, seg), OnUri(p, uri));
    } else {
      AddKeepsStep(p, Segment(p.nextSeq, Finite(false, 0.0), uri, false, 0, 0));
    }
  }

  lemma {:induction false} LinesKeepStep(p: Parser, ls: seq<string>, resolve: string -> string)
    requires InStep(p) && p.pl.mediaSeq < UINT32 && SequenceFirst(p, ls, resolve)
    ensures InStep(OnLines(p, ls, resolve))
    decreases |ls|
  {
    hide OnLine, InStep, IsSequenceLine;
    if ls != [] {
      LineKeepsStep(p, ls[0], resolve);
      LinesKeepStep(OnLine(p, ls[0], resolve), ls[1..], resolve);
    }
  }

  /** A text whose media sequence tags precede its segments counts up, so all of it round-trips. */
  lemma SequenceFirstCountsUp(text: string, k: nat, resolve: string -> string)
    requires HEADER <= text && IndexOf(text, '\n') == Some(k) && SequenceFirst(Fresh, LinesOf(text[k + 1..]), resolve)
    ensures ParseSpec(text, resolve).Some? && CountsUp(ParseSpec(text, resolve).value)
  {
    hide OnLines, LinesOf, IndexOf, SequenceFirst;
    var ls := LinesOf(text[k + 1..]);
    LinesKeepStep(Fresh, ls, resolve);
    LinesKeepSound(Fresh, ls, resolve);
    var p := OnLines(Fresh, ls, resolve);
    if p.pl.segments != [] {
      ContinueResolves(p.pl.segments, 1);
    }
  }
}
