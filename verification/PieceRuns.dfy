/**
 A clip over whole runs: what readiness answers mean after any writes and sizes, in terms
 of what was written; and what saving and loading a clip keeps.
 */
module PieceRuns {
  import opened Common
  import opened MetaFile
  import opened PieceCache

  datatype Call = WriteCall(offset: nat, len: nat) | SizeCall(size: nat)

  /** Offsets and sizes within the table. */
  predicate InTable(calls: seq<Call>) {
    forall k :: 0 <= k < |calls| ==> CallInTable(calls[k])
  }

  predicate CallInTable(call: Call) {
    match call
    case WriteCall(offset, len) => offset + len <= LIMIT
    case SizeCall(size) => size <= LIMIT
  }

  function TotalAfter(total: nat, call: Call): nat {
    if call.SizeCall? && call.size > 0 then call.size else total
  }

  /** The size of the file after these calls to a clip opened with `size`. */
  function FinalTotal(size: nat, calls: seq<Call>): nat {
    if calls == [] then size else TotalAfter(FinalTotal(size, calls[..|calls| - 1]), calls[|calls| - 1])
  }

  /** A size is never raised once it is known. */
  predicate Lowering(size: nat, calls: seq<Call>) {
    calls == [] ||
    (var call, before := calls[|calls| - 1], calls[..|calls| - 1];
     var total := FinalTotal(size, before);
     Lowering(size, before) && (call.SizeCall? ==> total == 0 || call.size <= total))
  }

  predicate Writes(call: Call, g: nat) {
    call.WriteCall? && Overlaps(g, call.offset, call.offset + call.len)
  }

  predicate Written(calls: seq<Call>, g: nat) {
    exists k :: 0 <= k < |calls| && Writes(calls[k], g)
  }

  predicate WritesTo(call: Call, bno: nat) {
    call.WriteCall? && call.len > 0 && Meets(bno, call.offset, call.len)
  }

  predicate Seen(calls: seq<Call>, bno: nat) {
    exists k :: 0 <= k < |calls| && WritesTo(calls[k], bno)
  }

  // ---------- What the calls make of a block ----------

  /** The size block `i` has, if it is there: the one it was created with or the latest set while it was the last. */
  function SizeOf(size: nat, calls: seq<Call>, i: nat): Option<nat> {
    if calls == [] then None
    else
      var call, before := calls[|calls| - 1], calls[..|calls| - 1];
      SizeNext(SizeOf(size, before, i), FinalTotal(size, before), call, i)
  }

  function SizeNext(now: Option<nat>, total: nat, call: Call, i: nat): Option<nat> {
    match call
    case WriteCall(_, _) => if now.None? && WritesTo(call, i) then Some(GivenSize(total, i)) else now
    case SizeCall(n) => if now.Some? && n > 0 && i == (n - 1) / BLOCK then Some(LastSize(n)) else now
  }

  /** Some call wrote the piece while it lay within its block's size. */
  predicate Marked(size: nat, calls: seq<Call>, g: nat) {
    exists k :: 0 <= k < |calls| && Writes(calls[k], g) && Within(SizeOf(size, calls[..k + 1], g / PIECES), g)
  }

  ghost predicate FullAfter(size: nat, calls: seq<Call>, i: nat) {
    && SizeOf(size, calls, i).Some?
    && forall g: nat :: g / PIECES == i && Within(SizeOf(size, calls, i), g) ==> Marked(size, calls, g)
  }

  /** After some of the calls, every piece within the size that block `i` then had was marked. */
  ghost predicate DoneIn(size: nat, calls: seq<Call>, i: nat) {
    exists k :: 0 <= k <= |calls| && FullAfter(size, calls[..k], i)
  }

  ghost predicate DoneAllIn(size: nat, calls: seq<Call>, offset: nat, len: nat) {
    forall i: nat :: Meets(i, offset, len) ==> DoneIn(size, calls, i)
  }

  lemma RunAppend(size: nat, calls: seq<Call>, call: Call)
    ensures FinalTotal(size, calls + [call]) == TotalAfter(FinalTotal(size, calls), call)
    ensures Lowering(size, calls + [call]) <==>
            Lowering(size, calls) && (call.SizeCall? ==> FinalTotal(size, calls) == 0 || call.size <= FinalTotal(size, calls))
    ensures forall i: nat :: SizeOf(size, calls + [call], i) == SizeNext(SizeOf(size, calls, i), FinalTotal(size, calls), call, i)
  {
    hide SizeNext;
    var all := calls + [call];
    assert all[..|all| - 1] == calls;
  }

  lemma MarkedAppend(size: nat, calls: seq<Call>, call: Call, g: nat)
    ensures Marked(size, calls + [call], g) <==>
            Marked(size, calls, g) || (Writes(call, g) && Within(SizeOf(size, calls + [call], g / PIECES), g))
  {
    hide Writes, SizeOf, Within;
    var all := calls + [call];
    assert all[..|calls| + 1] == all;
    assert forall k :: 0 <= k < |calls| ==> all[k] == calls[k] && all[..k + 1] == calls[..k + 1];
    if Marked(size, calls, g) {
      var k :| 0 <= k < |calls| && Writes(calls[k], g) && Within(SizeOf(size, calls[..k + 1], g / PIECES), g);
      assert Writes(all[k], g) && Within(SizeOf(size, all[..k + 1], g / PIECES), g);
    }
    if Writes(call, g) && Within(SizeOf(size, all, g / PIECES), g) {
      assert Writes(all[|calls|], g) && Within(SizeOf(size, all[..|calls| + 1], g / PIECES), g);
    }
  }

  lemma DoneAppend(size: nat, calls: seq<Call>, call: Call, i: nat)
    ensures DoneIn(size, calls + [call], i) <==> DoneIn(size, calls, i) || FullAfter(size, calls + [call], i)
  {
    hide FullAfter;
    var all := calls + [call];
    assert all[..|all|] == all;
    assert forall k :: 0 <= k <= |calls| ==> all[..k] == calls[..k];
    if DoneIn(size, calls, i) {
      var k :| 0 <= k <= |calls| && FullAfter(size, calls[..k], i);
      assert FullAfter(size, all[..k], i);
    }
    if FullAfter(size, all, i) {
      assert FullAfter(size, all[..|all|], i);
    }
  }

  /** A block is there exactly if some call wrote to it. */
  lemma {:induction false} SizedIsSeen(size: nat, calls: seq<Call>, i: nat)
    ensures SizeOf(size, calls, i).Some? <==> Seen(calls, i)
  {
    hide Seen, WritesTo;
    if calls == [] {
      assert !Seen(calls, i) by {
        NothingSeen(i);
      }
    } else {
      var call, before := calls[|calls| - 1], calls[..|calls| - 1];
      SizedIsSeen(size, before, i);
      assert before + [call] == calls;
      SeenAppend(before, call, i);
      OnlyWritesTo(call, i);
    }
  }

  lemma NothingSeen(i: nat)
    ensures !Seen([], i)
  {
  }

  lemma OnlyWritesTo(call: Call, i: nat)
    ensures WritesTo(call, i) ==> call.WriteCall?
  {
  }

  // ---------- While the size is not raised ----------

  /** Block `bno` was first written after the last size was set. */
  predicate Late(calls: seq<Call>, bno: nat)
    decreases |calls|
  {
    calls != [] &&
    (var call, before := calls[|calls| - 1], calls[..|calls| - 1];
     if call.SizeCall? then call.size == 0 && Late(before, bno)
     else Late(before, bno) || (WritesTo(call, bno) && !Seen(before, bno)))
  }

  /**
   The size the file is taken to have after these calls: its own, except that a file over
   4 GB that ends inside a block first written afterwards seems to fill that block.
   */
  function Extent(total: nat, calls: seq<Call>): nat {
    if Partial(total) && Late(calls, total / BLOCK) then RoundUp(total) else total
  }

  /** The touched pieces of the file are those some write has reached. */
  ghost predicate Accounts(touched: set<nat>, total: nat, calls: seq<Call>) {
    forall g: nat :: InFile(total, g) ==> (g in touched <==> Written(calls, g))
  }

  lemma WrittenAppend(calls: seq<Call>, call: Call, g: nat)
    ensures Written(calls + [call], g) <==> Written(calls, g) || Writes(call, g)
  {
    hide Writes;
    var all := calls + [call];
    if Written(calls, g) {
      var k :| 0 <= k < |calls| && Writes(calls[k], g);
      assert Writes(all[k], g);
    }
    if Writes(call, g) {
      assert Writes(all[|calls|], g);
    }
  }

  lemma SeenAppend(calls: seq<Call>, call: Call, bno: nat)
    ensures Seen(calls + [call], bno) <==> Seen(calls, bno) || WritesTo(call, bno)
    ensures Late(calls + [call], bno) <==>
            if call.SizeCall? then call.size == 0 && Late(calls, bno)
            else Late(calls, bno) || (WritesTo(call, bno) && !Seen(calls, bno))
  {
    hide WritesTo;
    var all := calls + [call];
    assert all[..|all| - 1] == calls;
    if Seen(calls, bno) {
      var k :| 0 <= k < |calls| && WritesTo(calls[k], bno);
      assert WritesTo(all[k], bno);
    }
    if WritesTo(call, bno) {
      assert WritesTo(all[|calls|], bno);
    }
  }

  lemma WrittenIsSeen(calls: seq<Call>, g: nat)
    requires Written(calls, g)
    ensures Seen(calls, g / PIECES)
  {
    var k :| 0 <= k < |calls| && Writes(calls[k], g);
    assert WritesTo(calls[k], g / PIECES);
  }

  lemma AccountsOn(touched: set<nat>, extent: nat, calls: seq<Call>, call: Call, touched': set<nat>, extent': nat)
    requires Accounts(touched, extent, calls)
    requires forall g: nat :: InFile(extent', g) && !InFile(extent, g) ==> g !in touched && !Written(calls, g)
    requires call.SizeCall? ==> touched' == touched
    requires call.WriteCall? ==> forall g: nat :: InFile(extent', g) ==>
               (g in touched' <==> g in touched || Overlaps(g, call.offset, call.offset + call.len))
    ensures Accounts(touched', extent', calls + [call])
  {
    hide Written, Overlaps, InFile;
    forall g: nat | InFile(extent', g) ensures g in touched' <==> Written(calls + [call], g) {
      WrittenAppend(calls, call, g);
    }
  }

  /** What rounding up adds lies in the last block, which nothing has reached yet. */
  lemma WiderIsBlank(blocks: seq<Option<Block>>, touched: set<nat>, total: nat, calls: seq<Call>)
    requires Mirrors(blocks, touched) && Partial(total) && !Present(blocks, total / BLOCK) && !Seen(calls, total / BLOCK)
    ensures forall g: nat :: InFile(RoundUp(total), g) && !InFile(total, g) ==> g !in touched && !Written(calls, g)
  {
    hide Written, Seen, Fits;
    forall g: nat | InFile(RoundUp(total), g) && !InFile(total, g) ensures g !in touched && !Written(calls, g) {
      assert g / PIECES == total / BLOCK;
      if Written(calls, g) {
        WrittenIsSeen(calls, g);
      }
    }
  }

  /** The clip is what the calls say. */
  ghost predicate Follows(c: Clip, size: nat, calls: seq<Call>)
    reads c
  {
    && c.Kept() && c.total == FinalTotal(size, calls)
    && (forall i: nat :: SizeIn(c.blocks, i) == SizeOf(size, calls, i))
    && (forall g: nat :: g in c.touched <==> Marked(size, calls, g))
    && (forall i: nat :: DoneAt(c.blocks, i) <==> DoneIn(size, calls, i))
  }

  /** What holds besides while the size is not raised. */
  ghost predicate Settles(c: Clip, calls: seq<Call>)
    reads c
  {
    c.Agrees() && c.extent == Extent(c.total, calls) && Accounts(c.touched, c.extent, calls)
  }

  method PerformOne(c: Clip, ghost size: nat, ghost calls: seq<Call>, call: Call)
    requires Follows(c, size, calls) && CallInTable(call) && (Lowering(size, calls) ==> Settles(c, calls))
    modifies c
    ensures Follows(c, size, calls + [call]) && (Lowering(size, calls + [call]) ==> Settles(c, calls + [call]))
  {
    hide Accounts, Mirrors, Sized, AllCurrent, Marked, Written, Seen, Honest, Overlaps, Meets, RoundUp, Partial, Late, InFile, Lowering,
         FinalTotal, SizeOf, DoneIn, Within, Full, GivenSize;
    ghost var touched, extent, blocks := c.touched, c.extent, c.blocks;
    var ok;
    match call {
      case WriteCall(offset, len) => ok := c.Write(offset, len);
      case SizeCall(n) => ok := c.SetFileSize(n);
    }
    RunAppend(size, calls, call);
    FollowOn(c, size, calls, call, blocks, touched);
    if Lowering(size, calls + [call]) {
      SettleOn(c, size, calls, call, blocks, touched, extent, old(c.total));
    }
  }

  /** The state after one more call, from what the call did. */
  lemma FollowOn(c: Clip, size: nat, calls: seq<Call>, call: Call, blocks: seq<Option<Block>>, touched: set<nat>)
    requires c.Kept() && Flags(blocks, c.blocks, c.touched)
    requires c.total == FinalTotal(size, calls + [call])
    requires forall i: nat :: SizeIn(blocks, i) == SizeOf(size, calls, i)
    requires forall i: nat :: SizeIn(c.blocks, i) == SizeNext(SizeIn(blocks, i), FinalTotal(size, calls), call, i)
    requires forall g: nat :: g in touched <==> Marked(size, calls, g)
    requires forall g: nat :: g in c.touched <==> g in touched || (Writes(call, g) && Reached(c.blocks, g))
    requires forall i: nat :: DoneAt(blocks, i) <==> DoneIn(size, calls, i)
    ensures Follows(c, size, calls + [call])
  {
    hide Mirrors, AllCurrent, Marked, DoneIn, Full, DoneAt, Writes, Within, SizeNext, SizeOf, FinalTotal;
    var all := calls + [call];
    RunAppend(size, calls, call);
    forall g: nat ensures g in c.touched <==> Marked(size, all, g) {
      MarkedAppend(size, calls, call, g);
    }
    forall i: nat ensures DoneAt(c.blocks, i) <==> DoneIn(size, all, i) {
      DoneAppend(size, calls, call, i);
      FullIsFull(c, size, all, i);
    }
  }

  lemma FullIsFull(c: Clip, size: nat, calls: seq<Call>, i: nat)
    requires SizeIn(c.blocks, i) == SizeOf(size, calls, i) && forall g: nat :: g in c.touched <==> Marked(size, calls, g)
    ensures Full(c.blocks, c.touched, i) <==> FullAfter(size, calls, i)
  {
    hide Marked, Within, SizeOf;
  }

  lemma SettleOn(c: Clip, size: nat, calls: seq<Call>, call: Call, blocks: seq<Option<Block>>, touched: set<nat>, extent: nat,
                 total: nat)
    requires Mirrors(blocks, touched) && forall i: nat :: SizeIn(blocks, i) == SizeOf(size, calls, i)
    requires extent == Extent(total, calls) && Accounts(touched, extent, calls)
    requires c.Agrees() && c.total == TotalAfter(total, call)
    requires call.WriteCall? ==> forall g: nat :: InFile(c.extent, g) ==>
               (g in c.touched <==> g in touched || Overlaps(g, call.offset, call.offset + call.len))
    requires call.WriteCall? ==>
               c.extent == if WritesTo(call, total / BLOCK) && Misses(blocks, total, total / BLOCK) then RoundUp(total) else extent
    requires call.SizeCall? ==>
               && c.touched == touched && (total == 0 || call.size <= total)
               && c.extent == if call.size > 0 then call.size else extent
    ensures Settles(c, calls + [call])
  {
    hide Accounts, Mirrors, Sized, AllCurrent, Written, Seen, Overlaps, Meets, RoundUp, Partial, Late, InFile, SizeOf;
    var last := c.total / BLOCK;
    SeenAppend(calls, call, last);
    SizedIsSeen(size, calls, last);
    assert Present(blocks, last) <==> SizeIn(blocks, last).Some?;
    if c.extent != extent && call.WriteCall? {
      assert extent == c.total;
      WiderIsBlank(blocks, touched, c.total, calls);
    }
    if call.SizeCall? && call.size > 0 {
      InsideOld(total, extent, c.extent);
    }
    AccountsOn(touched, extent, calls, call, c.touched, c.extent);
  }

  lemma InsideOld(total: nat, extent: nat, size: nat)
    requires extent == total || (Partial(total) && extent == RoundUp(total))
    requires size > 0 && (total == 0 || size <= total)
    ensures forall g: nat :: InFile(size, g) ==> InFile(extent, g)
  {
  }

  /** A clip after any calls. */
  method Perform(size: nat, calls: seq<Call>) returns (c: Clip)
    requires InTable(calls)
    ensures fresh(c) && Follows(c, size, calls) && (Lowering(size, calls) ==> Settles(c, calls))
  {
    hide Follows, Settles, Lowering, CallInTable;
    c := new Clip(size);
    NothingYet(c);
    assert calls[..0] == [];
    for i := 0 to |calls|
      invariant fresh(c) && Follows(c, size, calls[..i]) && (Lowering(size, calls[..i]) ==> Settles(c, calls[..i]))
    {
      assert calls[..i + 1] == calls[..i] + [calls[i]];
      PerformOne(c, size, calls[..i], calls[i]);
    }
    assert calls[..|calls|] == calls;
  }

  lemma NothingYet(c: Clip)
    requires c.Agrees() && c.extent == c.total && c.touched == {} && forall i :: 0 <= i < |c.blocks| ==> c.blocks[i].None?
    ensures Follows(c, c.total, []) && Settles(c, [])
  {
  }

  /** The pieces of the file in every block that meets the range were all written. */
  ghost predicate AllWritten(total: nat, calls: seq<Call>, offset: nat, len: nat) {
    forall g: nat :: InFile(total, g) && Meets(g / PIECES, offset, len) ==> Written(calls, g)
  }

  lemma TouchedIsWritten(touched: set<nat>, total: nat, calls: seq<Call>, offset: nat, len: nat)
    requires Accounts(touched, total, calls)
    ensures AllTouched(total, touched, offset, len) <==> AllWritten(total, calls, offset, len)
  {
    hide Written;
  }

  /**
   After any writes and sizes, a range is ready if and only if each block it meets was once
   marked within the size it had then. If no size was raised, a range in the file is ready if
   and only if some write has reached each piece, within the extent, of each block it meets.
   */
  method ReadyAfter(size: nat, calls: seq<Call>, offset: nat, len: nat) returns (ready: bool)
    requires InTable(calls) && offset + len <= UINT32 * BLOCK
    ensures ready <==> len > 0 && DoneAllIn(size, calls, offset, len)
    ensures Lowering(size, calls) && RangeInFile(FinalTotal(size, calls), offset, len) ==>
              (ready <==> AllWritten(Extent(FinalTotal(size, calls), calls), calls, offset, len))
  {
    hide InTable, Lowering, FinalTotal, Accounts, AllWritten, AllTouched, Extent, SizeOf, Marked, DoneIn, Meets;
    var c := Perform(size, calls);
    ready := c.IsReady(offset, len);
    if Lowering(size, calls) {
      TouchedIsWritten(c.touched, c.extent, calls, offset, len);
    }
  }

  /**
   So every answer is right if and only if the extent is the size, or the last block is not
   written up to the end of the file, or is written in full.
   */
  lemma RightIff(total: nat, calls: seq<Call>)
    ensures var extent, last := Extent(total, calls), total / BLOCK;
            (forall offset: nat, len: nat :: RangeInFile(total, offset, len) ==>
               (AllWritten(extent, calls, offset, len) <==> AllWritten(total, calls, offset, len)))
            <==> (extent == total || (BlockWritten(total, calls, last) ==> BlockWritten(extent, calls, last)))
  {
    hide Written, AllWritten, BlockWritten, AllTouched, BlockTouched, RangeInFile, RoundUp;
    var wide := RoundUp(total);
    if Extent(total, calls) != total {
      var touched := set g: nat | g < wide && Written(calls, g);
      RoundsUp(total);
      AccountsFor(touched, wide, wide, calls);
      AccountsFor(touched, total, wide, calls);
      forall offset: nat, len: nat
        ensures AllTouched(total, touched, offset, len) <==> AllWritten(total, calls, offset, len)
        ensures AllTouched(wide, touched, offset, len) <==> AllWritten(wide, calls, offset, len)
      {
        TouchedIsWritten(touched, total, calls, offset, len);
        TouchedIsWritten(touched, wide, calls, offset, len);
      }
      SameBlockWritten(touched, total, calls, total / BLOCK);
      SameBlockWritten(touched, wide, calls, total / BLOCK);
      WiderAnswers(touched, total);
    }
  }

  /** The pieces of block `i` within this size were all written. */
  ghost predicate BlockWritten(total: nat, calls: seq<Call>, i: nat) {
    forall g: nat :: g / PIECES == i && InFile(total, g) ==> Written(calls, g)
  }

  lemma AccountsFor(touched: set<nat>, size: nat, wide: nat, calls: seq<Call>)
    requires 0 < size <= wide && touched == set g: nat | g < wide && Written(calls, g)
    ensures Accounts(touched, size, calls)
  {
    hide Written;
  }

  lemma SameBlockWritten(touched: set<nat>, total: nat, calls: seq<Call>, i: nat)
    requires Accounts(touched, total, calls)
    ensures BlockTouched(total, touched, i) <==> BlockWritten(total, calls, i)
  {
    hide Written;
  }

  /** A file of 4 GB and 1000 bytes, written in full, whose last bytes are never ready. */
  lemma NeverReady()
    ensures var size, calls := UINT32 + 1000, [WriteCall(0, UINT32 + 1000)];
            && InTable(calls) && Lowering(size, calls) && FinalTotal(size, calls) == size && RangeInFile(size, UINT32, 1000)
            && AllWritten(size, calls, UINT32, 1000) && !AllWritten(Extent(size, calls), calls, UINT32, 1000)
  {
    var size, call := UINT32 + 1000, WriteCall(0, UINT32 + 1000);
    var calls := [call];
    assert size / BLOCK == 16384 && size % BLOCK == 1000 && RoundUp(size) == 16385 * BLOCK;
    assert [] + [call] == calls;
    SeenAppend([], call, 16384);
    assert WritesTo(call, 16384) && Extent(size, calls) == 16385 * BLOCK;
    forall g: nat | InFile(size, g) ensures Written(calls, g) {
      assert Writes(calls[0], g);
    }
    assert calls[..0] == [];
    var g := 16384 * PIECES + 1;
    assert g / PIECES == 16384 && Meets(16384, UINT32, 1000) && InFile(16385 * BLOCK, g) && !Writes(call, g);
    assert !Written(calls, g);
  }

  /** Raising the size: a file of 1000 bytes is written and said to have 2000, and byte 1024 counts as ready. */
  method RaisedSizeLies() returns (c: Clip, ready: bool)
    ensures ready && c.total == 2000 && InFile(c.total, 1) && 1 !in c.touched
  {
    hide Has, Mirrors, AllCurrent, Sized;
    c := new Clip(1000);
    var ok := c.Write(0, 1000);
    FirstPieceOnly(c.blocks, c.touched);
    ok := c.SetFileSize(2000);
    ready := c.IsReady(1024, 1);
    assert forall i: nat :: Meets(i, 1024, 1) ==> i == 0;
  }

  lemma FirstPieceOnly(blocks: seq<Option<Block>>, touched: set<nat>)
    requires Mirrors(blocks, touched) && Sized(blocks, 1000)
    requires forall g: nat :: g in touched <==> Overlaps(g, 0, 1000) && Reached(blocks, g)
    requires forall g: nat :: InFile(1000, g) ==> (g in touched <==> Overlaps(g, 0, 1000))
    ensures 1 !in touched && DoneAt(blocks, 0)
  {
    hide Has;
    assert 0 in touched && 0 / PIECES == 0;
    assert InFile(1000, 0 * PIECES);
    BlockAt(blocks, touched, 0);
    SizeAt(blocks, 1000, 0);
    DoneIsTouched(blocks[0].value, 1000, 0, touched);
  }

  /**
   Saved, and loaded into a clip opened with the same size: the same touched pieces, and for
   every range in the file the same answer, unless the extent differs because the last block
   has been made anew.
   */
  method Reopen(c: Clip, rest: nat -> bv8) returns (d: Clip, ok: bool)
    requires c.Kept() && |c.blocks| * BLOCK <= LIMIT && c.total <= LIMIT
    ensures fresh(d) && d.Agrees() && d.total == c.total && (ok <==> |c.blocks| == CountFor(c.total))
    ensures ok ==> d.touched == c.touched && d.extent == if Partial(c.total) then RoundUp(c.total) else c.total
    ensures ok && c.Agrees() ==>
              ((forall offset: nat, len: nat :: RangeInFile(c.total, offset, len) ==>
                  (DoneAll(d.blocks, offset, len) <==> DoneAll(c.blocks, offset, len)))
               <==> d.extent == c.extent || Settled(c.touched, c.total))
  {
    hide Has, Sized, Bitmaps, Restored, Honest, DoneAll, AllTouched, AllCurrent, RoundUp, Settled, Header;
    var file := c.Save();
    d := new Clip(c.total);
    HeadersDiffer(|c.blocks|, |d.blocks|, c.total);
    var removed;
    ok, removed := d.Load(file, rest);
    if ok {
      RestoresSaved(file, rest, c.touched, d.touched, |c.blocks|);
    }
    LastInTable(c.total);
    if ok && c.Agrees() {
      SizedIsHonest(c.blocks, c.touched, c.extent);
      SizedIsHonest(d.blocks, d.touched, d.extent);
      SameAnswers(c.blocks, d.blocks, c.touched, c.total, c.extent, d.extent);
    }
  }

  lemma HeadersDiffer(a: nat, b: nat, total: nat)
    requires a < UINT32 && b < UINT32 && total <= LIMIT
    ensures Header(a, total) == Header(b, total) <==> a == b
  {
    hide Header, Matches;
    MatchesIff(Header(a, total), a, total);
    MatchesIff(Header(a, total), b, total);
    assert Header(a, total)[..HEADER_LEN] == Header(a, total);
    MatchesOne(Header(a, total), a, b, total);
  }

  lemma MatchesOne(file: seq<bv8>, a: nat, b: nat, total: nat)
    ensures Matches(file, a, total) && Matches(file, b, total) ==> a == b
  {
    hide OfLe;
  }

  lemma LastInTable(total: nat)
    ensures Partial(total) && total <= LIMIT ==> total / BLOCK < CountFor(total)
  {
  }

  lemma SameAnswers(a: seq<Option<Block>>, b: seq<Option<Block>>, touched: set<nat>, total: nat, x: nat, y: nat)
    requires Honest(a, touched, x) && Honest(b, touched, y)
    requires x == total || (Partial(total) && x == RoundUp(total))
    requires y == if Partial(total) then RoundUp(total) else total
    ensures (forall offset: nat, len: nat :: RangeInFile(total, offset, len) ==>
               (DoneAll(b, offset, len) <==> DoneAll(a, offset, len)))
            <==> y == x || Settled(touched, total)
  {
    hide DoneAll, AllTouched, RoundUp, Settled;
    RoundsUp(total);
    if Partial(total) {
      WiderAnswers(touched, total);
    }
  }

  /** Written in full and not ready: the last 1000 bytes of a file of 4 GB and 1000 bytes. */
  method WrittenNotReady() returns (ready: bool)
    ensures !ready && AllWritten(UINT32 + 1000, [WriteCall(0, UINT32 + 1000)], UINT32, 1000)
  {
    hide InTable, Lowering, FinalTotal, AllWritten, Extent, DoneAllIn;
    NeverReady();
    ready := ReadyAfter(UINT32 + 1000, [WriteCall(0, UINT32 + 1000)], UINT32, 1000);
  }
}
