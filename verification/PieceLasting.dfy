/**
 When readiness answers stay right. A size that is raised leaves blocks with the sizes they
 had, so a clip whose answers are all right may give wrong ones after the next write. Here is
 exactly from which calls on every answer is right whatever is written later.
 */
module PieceLasting {
  import opened Common
  import opened PieceCache
  import opened PieceRuns

  /** Every answer about a range in the file is what was written. */
  ghost predicate Right(size: nat, calls: seq<Call>) {
    var total := FinalTotal(size, calls);
    forall offset: nat, len: nat :: RangeInFile(total, offset, len) ==>
      (DoneAllIn(size, calls, offset, len) <==> AllWritten(total, calls, offset, len))
  }

  ghost predicate RightAt(size: nat, calls: seq<Call>, i: nat) {
    DoneIn(size, calls, i) <==> BlockWritten(FinalTotal(size, calls), calls, i)
  }

  lemma RangeByBlocks(size: nat, calls: seq<Call>, offset: nat, len: nat)
    requires forall i: nat :: Meets(i, offset, len) ==> RightAt(size, calls, i)
    ensures DoneAllIn(size, calls, offset, len) <==> AllWritten(FinalTotal(size, calls), calls, offset, len)
  {
    hide DoneIn, Meets, InFile, Written, FinalTotal;
    var total := FinalTotal(size, calls);
    if AllWritten(total, calls, offset, len) {
      forall i: nat | Meets(i, offset, len) ensures DoneIn(size, calls, i) {
        assert RightAt(size, calls, i) && BlockWritten(total, calls, i);
      }
    }
    if DoneAllIn(size, calls, offset, len) {
      forall g: nat | InFile(total, g) && Meets(g / PIECES, offset, len) ensures Written(calls, g) {
        assert RightAt(size, calls, g / PIECES) && BlockWritten(total, calls, g / PIECES);
      }
    }
  }

  /** The first byte of a block asks about that block alone. */
  lemma OneBlockAsks(size: nat, calls: seq<Call>, i: nat)
    ensures DoneAllIn(size, calls, i * BLOCK, 1) <==> DoneIn(size, calls, i)
    ensures forall total: nat :: AllWritten(total, calls, i * BLOCK, 1) <==> BlockWritten(total, calls, i)
  {
    hide DoneIn, InFile, Written;
    assert forall j: nat :: Meets(j, i * BLOCK, 1) <==> j == i;
  }

  /** The answers are right exactly if each block of the file is done exactly when it is written. */
  lemma RightByBlocks(size: nat, calls: seq<Call>)
    ensures Right(size, calls) <==>
            forall i: nat :: InFile(FinalTotal(size, calls), i * PIECES) ==> RightAt(size, calls, i)
  {
    hide RightAt, DoneAllIn, AllWritten, FinalTotal;
    var total := FinalTotal(size, calls);
    if Right(size, calls) {
      forall i: nat | InFile(total, i * PIECES) ensures RightAt(size, calls, i) {
        OneBlockAsks(size, calls, i);
        assert RangeInFile(total, i * BLOCK, 1);
        assert RightAt(size, calls, i) by {
          Unfold(size, calls, i);
        }
      }
    }
    if forall i: nat :: InFile(total, i * PIECES) ==> RightAt(size, calls, i) {
      forall offset: nat, len: nat | RangeInFile(total, offset, len)
        ensures DoneAllIn(size, calls, offset, len) <==> AllWritten(total, calls, offset, len)
      {
        forall i: nat | Meets(i, offset, len) ensures RightAt(size, calls, i) {
          MetIsInFile(total, offset, len, i);
        }
        RangeByBlocks(size, calls, offset, len);
      }
    }
  }

  lemma Unfold(size: nat, calls: seq<Call>, i: nat)
    ensures RightAt(size, calls, i) <==> (DoneIn(size, calls, i) <==> BlockWritten(FinalTotal(size, calls), calls, i))
  {
  }

  // ---------- The condition ----------

  /** Piece `g` of a block of this size that is there and not done cannot lead to a wrong answer. */
  predicate Sound(total: nat, now: Option<nat>, written: bool, marked: bool, g: nat) {
    && (InFile(total, g) && !Within(now, g) ==> written)
    && (Within(now, g) && (InFile(total, g) ==> written) ==> marked)
  }

  /**
   A block yet to be made will have the right size; a done one is written; in any other, the
   pieces that only its size or only the file has are marked or written already, and those
   that both have are marked if they are written.
   */
  ghost predicate LastingAt(size: nat, calls: seq<Call>, i: nat) {
    var total, now := FinalTotal(size, calls), SizeOf(size, calls, i);
    if now.None? then
      forall g: nat :: g / PIECES == i ==> (Within(Some(GivenSize(total, i)), g) <==> InFile(total, g))
    else if DoneIn(size, calls, i) then BlockWritten(total, calls, i)
    else
      forall g: nat :: g / PIECES == i ==> Sound(total, now, Written(calls, g), Marked(size, calls, g), g)
  }

  ghost predicate Lasting(size: nat, calls: seq<Call>) {
    forall i: nat :: InFile(FinalTotal(size, calls), i * PIECES) ==> LastingAt(size, calls, i)
  }

  // ---------- It suffices ----------

  lemma {:induction false} MarkedIsWritten(size: nat, calls: seq<Call>, g: nat)
    ensures Marked(size, calls, g) ==> Written(calls, g)
  {
    hide Writes, Within, SizeOf;
  }

  /** A block that is full within its size but not done does not exist. */
  lemma FullIsDone(size: nat, calls: seq<Call>, i: nat)
    ensures FullAfter(size, calls, i) ==> DoneIn(size, calls, i)
  {
    hide FullAfter;
    assert calls[..|calls|] == calls;
  }

  lemma {:induction false} DoneIsSeen(size: nat, calls: seq<Call>, i: nat)
    ensures DoneIn(size, calls, i) ==> SizeOf(size, calls, i).Some?
  {
    hide SizeNext;
    if calls != [] {
      var call, before := calls[|calls| - 1], calls[..|calls| - 1];
      assert calls == before + [call];
      DoneIsSeen(size, before, i);
      DoneAppend(size, before, call, i);
      NeverLost(SizeOf(size, before, i), FinalTotal(size, before), call, i);
    }
  }

  lemma NeverLost(now: Option<nat>, total: nat, call: Call, i: nat)
    ensures now.Some? ==> SizeNext(now, total, call, i).Some?
  {
  }

  lemma LastingIsRight(size: nat, calls: seq<Call>, i: nat)
    requires LastingAt(size, calls, i) && InFile(FinalTotal(size, calls), i * PIECES)
    ensures RightAt(size, calls, i)
  {
    hide DoneIn, Marked, Written, SizeOf, FinalTotal, Within, InFile, GivenSize;
    DoneIsSeen(size, calls, i);
    var total, now := FinalTotal(size, calls), SizeOf(size, calls, i);
    if now.None? {
      SizedIsSeen(size, calls, i);
      if Written(calls, i * PIECES) {
        WrittenIsSeen(calls, i * PIECES);
      }
      assert (i * PIECES) / PIECES == i;
    } else if !DoneIn(size, calls, i) && BlockWritten(total, calls, i) {
      forall g: nat | g / PIECES == i && Within(now, g) ensures Marked(size, calls, g) {
        assert Sound(total, now, Written(calls, g), Marked(size, calls, g), g);
      }
      assert FullAfter(size, calls, i);
      FullIsDone(size, calls, i);
    }
  }

  /** A write keeps the condition. */
  lemma LastingOn(size: nat, calls: seq<Call>, call: Call, i: nat)
    requires LastingAt(size, calls, i) && call.WriteCall?
    ensures LastingAt(size, calls + [call], i)
  {
    hide DoneIn, Marked, Written, SizeOf, FinalTotal, Within, InFile, GivenSize, Writes, WritesTo;
    var all := calls + [call];
    var total, was, now := FinalTotal(size, calls), SizeOf(size, calls, i), SizeOf(size, all, i);
    RunAppend(size, calls, call);
    DoneAppend(size, calls, call, i);
    SizedIsSeen(size, calls, i);
    forall g: nat | g / PIECES == i
      ensures Marked(size, all, g) <==> Marked(size, calls, g) || (Writes(call, g) && Within(now, g))
      ensures Written(all, g) <==> Written(calls, g) || Writes(call, g)
      ensures Marked(size, calls, g) ==> Written(calls, g)
      ensures was.None? ==> !Written(calls, g)
      ensures Marked(size, all, g) ==> Written(all, g)
    {
      MarkedAppend(size, calls, call, g);
      WrittenAppend(calls, call, g);
      MarkedIsWritten(size, calls, g);
      if was.None? && Written(calls, g) {
        WrittenIsSeen(calls, g);
      }
    }
    DoneIsSeen(size, calls, i);
  }

  // ---------- It is needed ----------

  predicate OnlyWrites(calls: seq<Call>) {
    forall k :: 0 <= k < |calls| ==> calls[k].WriteCall?
  }

  function PieceWrite(g: nat): Call {
    WriteCall(g * PIECE, PIECE)
  }

  lemma PieceWrites(g: nat, h: nat, i: nat)
    ensures Writes(PieceWrite(g), h) <==> h == g
    ensures WritesTo(PieceWrite(g), i) <==> i == g / PIECES
  {
  }

  /** Writes of the pieces of block `i` below `n` that are wanted, each on its own. */
  function Pick(i: nat, n: nat, want: nat -> bool): seq<Call> {
    if n == 0 then []
    else Pick(i, n - 1, want) + if want(i * PIECES + n - 1) then [PieceWrite(i * PIECES + n - 1)] else []
  }

  lemma {:induction false} PickInTable(i: nat, n: nat, want: nat -> bool)
    requires n <= PIECES && (i + 1) * BLOCK <= LIMIT
    ensures InTable(Pick(i, n, want)) && OnlyWrites(Pick(i, n, want))
  {
    if n > 0 {
      PickInTable(i, n - 1, want);
    }
  }

  /** What these writes do: the wanted pieces are written, and marked as far as the block's size goes. */
  lemma {:induction false} PickDoes(size: nat, calls: seq<Call>, i: nat, n: nat, want: nat -> bool, now: nat)
    requires n <= PIECES
    requires SizeOf(size, calls, i) == Some(now) || (SizeOf(size, calls, i).None? && now == GivenSize(FinalTotal(size, calls), i))
    ensures var all := calls + Pick(i, n, want);
            && FinalTotal(size, all) == FinalTotal(size, calls)
            && (SizeOf(size, all, i) == SizeOf(size, calls, i) || SizeOf(size, all, i) == Some(now))
            && (forall g: nat :: g / PIECES == i ==>
                  && (Written(all, g) <==> Written(calls, g) || (g % PIECES < n && want(g)))
                  && (Marked(size, all, g) <==> Marked(size, calls, g) || (g % PIECES < n && want(g) && Within(Some(now), g))))
            && (Pick(i, n, want) != [] ==> SizeOf(size, all, i) == Some(now))
  {
    hide Marked, Written, SizeOf, FinalTotal, Within, GivenSize, Writes, WritesTo;
    var less := Pick(i, if n == 0 then 0 else n - 1, want);
    if n == 0 {
      assert calls + Pick(i, 0, want) == calls;
    } else {
      PickDoes(size, calls, i, n - 1, want, now);
      var p := i * PIECES + n - 1;
      assert p / PIECES == i && p % PIECES == n - 1;
      var before := calls + less;
      if want(p) {
        var call := PieceWrite(p);
        assert calls + Pick(i, n, want) == before + [call];
        RunAppend(size, before, call);
        PieceWrites(p, p, i);
        forall g: nat | g / PIECES == i
          ensures Written(before + [call], g) <==> Written(before, g) || g == p
          ensures Marked(size, before + [call], g) <==> Marked(size, before, g) || (g == p && Within(Some(now), g))
        {
          WrittenAppend(before, call, g);
          MarkedAppend(size, before, call, g);
          PieceWrites(p, g, i);
        }
      } else {
        assert calls + Pick(i, n, want) == before;
      }
      forall g: nat | g / PIECES == i ensures g % PIECES < n <==> g % PIECES < n - 1 || g == p {
        assert g == i * PIECES + g % PIECES;
      }
    }
  }

  lemma {:induction false} StillNotDone(size: nat, calls: seq<Call>, more: seq<Call>, i: nat, now: nat, g: nat)
    requires OnlyWrites(more) && !DoneIn(size, calls, i) && g / PIECES == i && Within(Some(now), g)
    requires SizeOf(size, calls, i) == Some(now) || (SizeOf(size, calls, i).None? && now == GivenSize(FinalTotal(size, calls), i))
    requires !Marked(size, calls + more, g)
    ensures var all := calls + more;
            && !DoneIn(size, all, i) && FinalTotal(size, all) == FinalTotal(size, calls)
            && (SizeOf(size, all, i) == SizeOf(size, calls, i) || SizeOf(size, all, i) == Some(now))
  {
    hide DoneIn, Marked, SizeOf, FinalTotal, Within, GivenSize, Writes, WritesTo;
    if more == [] {
      assert calls + more == calls;
    } else {
      var less, call := more[..|more| - 1], more[|more| - 1];
      var before := calls + less;
      assert calls + more == before + [call];
      MarkedAppend(size, before, call, g);
      StillNotDone(size, calls, less, i, now, g);
      RunAppend(size, before, call);
      DoneAppend(size, before, call, i);
    }
  }

  /** A piece of the file beyond the block's size that was not written: fill the block, and it is done without it. */
  lemma DoneTooSoon(size: nat, calls: seq<Call>, i: nat, now: nat, g: nat, want: nat -> bool)
    requires forall h: nat :: want(h) <==> Within(Some(now), h)
    requires SizeOf(size, calls, i) == Some(now) || (SizeOf(size, calls, i).None? && now == GivenSize(FinalTotal(size, calls), i))
    requires g / PIECES == i && InFile(FinalTotal(size, calls), g) && !Within(Some(now), g) && !Written(calls, g) && now > 0
    ensures !RightAt(size, calls + Pick(i, PIECES, want), i)
  {
    hide DoneIn, Marked, Written, SizeOf, FinalTotal, Within, GivenSize, InFile, Pick;
    var all := calls + Pick(i, PIECES, want);
    PickDoes(size, calls, i, PIECES, want, now);
    PickSome(i, PIECES, want, now);
    assert FullAfter(size, all, i);
    FullIsDone(size, all, i);
    assert !Written(all, g);
  }

  lemma {:induction false} PickSome(i: nat, n: nat, want: nat -> bool, now: nat)
    requires n > 0 && now > 0 && forall h: nat :: want(h) <==> Within(Some(now), h)
    ensures Pick(i, n, want) != []
  {
    if n == 1 {
      assert want(i * PIECES) by {
        assert (i * PIECES) % PIECES == 0;
      }
    } else {
      PickSome(i, n - 1, want, now);
    }
  }

  /** A piece the block's size asks for that will not be marked: write the rest of the file, and it is never done. */
  lemma NotDoneInTime(size: nat, calls: seq<Call>, i: nat, now: nat, g: nat, want: nat -> bool)
    requires forall h: nat :: want(h) <==> InFile(FinalTotal(size, calls), h) && h != g
    requires SizeOf(size, calls, i) == Some(now) || (SizeOf(size, calls, i).None? && now == GivenSize(FinalTotal(size, calls), i))
    requires g / PIECES == i && Within(Some(now), g) && !Marked(size, calls, g) && !DoneIn(size, calls, i)
    requires (InFile(FinalTotal(size, calls), g) ==> Written(calls, g)) && (i + 1) * BLOCK <= LIMIT
    ensures !RightAt(size, calls + Pick(i, PIECES, want), i)
  {
    hide DoneIn, Marked, Written, SizeOf, FinalTotal, Within, GivenSize, InFile, Pick, InTable, OnlyWrites;
    var total := FinalTotal(size, calls);
    var all := calls + Pick(i, PIECES, want);
    PickDoes(size, calls, i, PIECES, want, now);
    PickInTable(i, PIECES, want);
    StillNotDone(size, calls, Pick(i, PIECES, want), i, now, g);
    assert BlockWritten(total, all, i);
  }

  lemma {:induction false} TotalInTable(size: nat, calls: seq<Call>)
    requires size <= LIMIT && InTable(calls)
    ensures FinalTotal(size, calls) <= LIMIT
  {
    if calls != [] {
      TotalInTable(size, calls[..|calls| - 1]);
      assert CallInTable(calls[|calls| - 1]);
    }
  }

  lemma BlockInTable(size: nat, calls: seq<Call>, i: nat)
    requires size <= LIMIT && InTable(calls) && InFile(FinalTotal(size, calls), i * PIECES)
    requires SizeOf(size, calls, i).Some? || FinalTotal(size, calls) > 0
    ensures (i + 1) * BLOCK <= LIMIT
  {
    hide SizeOf, FinalTotal;
    TotalInTable(size, calls);
    SizedIsSeen(size, calls, i);
    if Seen(calls, i) {
      var k :| 0 <= k < |calls| && WritesTo(calls[k], i);
      assert CallInTable(calls[k]);
    }
  }

  /** Where the condition fails, some writes lead to a wrong answer. */
  lemma WrongLater(size: nat, calls: seq<Call>, i: nat) returns (more: seq<Call>)
    requires size <= LIMIT && InTable(calls) && InFile(FinalTotal(size, calls), i * PIECES) && !LastingAt(size, calls, i)
    ensures InTable(more) && OnlyWrites(more) && !RightAt(size, calls + more, i)
    ensures FinalTotal(size, calls + more) == FinalTotal(size, calls)
  {
    hide DoneIn, Marked, Written, SizeOf, FinalTotal, Within, GivenSize, InFile, Pick, InTable, OnlyWrites, RightAt;
    var total, was := FinalTotal(size, calls), SizeOf(size, calls, i);
    DoneIsSeen(size, calls, i);
    if was.Some? && DoneIn(size, calls, i) {
      more := [];
      assert calls + more == calls;
      NoCalls();
      Unfold(size, calls, i);
    } else {
      var now := if was.Some? then was.value else GivenSize(total, i);
      var g := Culprit(size, calls, i, now);
      if was.None? && total == 0 {
        UnknownFits(i, g);
      }
      BlockInTable(size, calls, i);
      var want: nat -> bool;
      if InFile(total, g) && !Within(Some(now), g) {
        want := (h: nat) => Within(Some(now), h);
        SizePositive(size, calls, i, now);
        DoneTooSoon(size, calls, i, now, g, want);
      } else {
        want := (h: nat) => InFile(total, h) && h != g;
        NotDoneInTime(size, calls, i, now, g, want);
      }
      more := Pick(i, PIECES, want);
      PickInTable(i, PIECES, want);
      PickDoes(size, calls, i, PIECES, want, now);
    }
  }

  lemma NoCalls()
    ensures InTable([]) && OnlyWrites([])
  {
  }

  /** The piece that stands against it. */
  lemma Culprit(size: nat, calls: seq<Call>, i: nat, now: nat) returns (g: nat)
    requires !LastingAt(size, calls, i) && !DoneIn(size, calls, i)
    requires SizeOf(size, calls, i) == Some(now) || (SizeOf(size, calls, i).None? && now == GivenSize(FinalTotal(size, calls), i))
    ensures var total := FinalTotal(size, calls);
            && g / PIECES == i
            && if InFile(total, g) && !Within(Some(now), g) then !Written(calls, g)
               else Within(Some(now), g) && !Marked(size, calls, g) && (InFile(total, g) ==> Written(calls, g))
    ensures SizeOf(size, calls, i).None? ==> (Within(Some(now), g) <==> !InFile(FinalTotal(size, calls), g))
  {
    hide DoneIn, Marked, Written, SizeOf, FinalTotal, Within, GivenSize, InFile;
    var total, was := FinalTotal(size, calls), SizeOf(size, calls, i);
    if was.None? {
      g :| g / PIECES == i && !(Within(Some(GivenSize(total, i)), g) <==> InFile(total, g));
      SizedIsSeen(size, calls, i);
      MarkedIsWritten(size, calls, g);
      if Written(calls, g) {
        WrittenIsSeen(calls, g);
      }
    } else {
      g :| g / PIECES == i && !Sound(total, was, Written(calls, g), Marked(size, calls, g), g);
    }
  }

  lemma UnknownFits(i: nat, g: nat)
    ensures Within(Some(GivenSize(0, i)), g) && InFile(0, g)
  {
  }

  lemma {:induction false} SizePositive(size: nat, calls: seq<Call>, i: nat, now: nat)
    requires SizeOf(size, calls, i) == Some(now) || now == GivenSize(FinalTotal(size, calls), i)
    ensures now > 0
  {
    hide GivenSize, FinalTotal;
    GivenPositive(FinalTotal(size, calls), i);
    if SizeOf(size, calls, i) == Some(now) {
      var call, before := calls[|calls| - 1], calls[..|calls| - 1];
      GivenPositive(FinalTotal(size, before), i);
      if SizeOf(size, before, i) == Some(now) {
        SizePositive(size, before, i, now);
      }
    }
  }

  lemma GivenPositive(total: nat, i: nat)
    ensures GivenSize(total, i) > 0
  {
  }

  // ---------- The theorem ----------

  lemma {:induction false} StaysLasting(size: nat, calls: seq<Call>, more: seq<Call>, i: nat)
    requires LastingAt(size, calls, i) && OnlyWrites(more)
    ensures LastingAt(size, calls + more, i) && FinalTotal(size, calls + more) == FinalTotal(size, calls)
  {
    hide LastingAt, FinalTotal;
    if more == [] {
      assert calls + more == calls;
    } else {
      var less, call := more[..|more| - 1], more[|more| - 1];
      assert calls + more == calls + less + [call];
      StaysLasting(size, calls, less, i);
      LastingOn(size, calls + less, call, i);
      RunAppend(size, calls + less, call);
    }
  }

  /** Every answer is right, now and after any later writes, if and only if the condition holds. */
  lemma LastingIff(size: nat, calls: seq<Call>)
    requires size <= LIMIT && InTable(calls)
    ensures (forall more: seq<Call> :: InTable(more) && OnlyWrites(more) ==> Right(size, calls + more)) <==> Lasting(size, calls)
  {
    hide LastingAt, FinalTotal, Right, RightAt, InTable, OnlyWrites, InFile;
    if Lasting(size, calls) {
      forall more: seq<Call> | InTable(more) && OnlyWrites(more) ensures Right(size, calls + more) {
        LastingMeansRight(size, calls, more);
      }
    } else {
      var i: nat :| InFile(FinalTotal(size, calls), i * PIECES) && !LastingAt(size, calls, i);
      var more := WrongLater(size, calls, i);
      RightByBlocks(size, calls + more);
    }
  }

  lemma LastingMeansRight(size: nat, calls: seq<Call>, more: seq<Call>)
    requires Lasting(size, calls) && OnlyWrites(more)
    ensures Right(size, calls + more)
  {
    hide LastingAt, FinalTotal, Right, RightAt, OnlyWrites, InFile;
    RightByBlocks(size, calls + more);
    SameTotal(size, calls, more);
    forall i: nat | InFile(FinalTotal(size, calls), i * PIECES) ensures RightAt(size, calls + more, i) {
      StaysLasting(size, calls, more, i);
      LastingIsRight(size, calls + more, i);
    }
  }

  lemma {:induction false} SameTotal(size: nat, calls: seq<Call>, more: seq<Call>)
    requires OnlyWrites(more)
    ensures FinalTotal(size, calls + more) == FinalTotal(size, calls)
  {
    if more == [] {
      assert calls + more == calls;
    } else {
      var less, call := more[..|more| - 1], more[|more| - 1];
      assert calls + more == calls + less + [call];
      SameTotal(size, calls, less);
      RunAppend(size, calls + less, call);
    }
  }

  /** A block yet to be made fails the condition only as the last one of a file over 4 GB that leaves pieces of it out. */
  lemma AbsentLasts(total: nat, i: nat)
    requires InFile(total, i * PIECES)
    ensures (forall g: nat :: g / PIECES == i ==> (Within(Some(GivenSize(total, i)), g) <==> InFile(total, g))) <==>
            !(Partial(total) && i == total / BLOCK && PieceCount(Canonical(total, i)) < PIECES)
  {
    hide GivenSize, RoundUp;
    GivenSizeRight(total, i);
    var m := PieceCount(Canonical(total, i));
    forall g: nat | g / PIECES == i ensures InFile(total, g) <==> g % PIECES < m {
      assert g == i * PIECES + g % PIECES;
    }
    if Partial(total) && i == total / BLOCK {
      InLast(total, i);
      assert GivenSize(total, i) == BLOCK;
      if m < PIECES {
        var g := i * PIECES + m;
        assert g / PIECES == i && g % PIECES == m;
        assert Within(Some(GivenSize(total, i)), g) && !InFile(total, g);
      }
    }
  }

  // ---------- A run ----------

  function RaisedCalls(): seq<Call> {
    [WriteCall(0, 1), SizeCall(300000), WriteCall(1024, 2000)]
  }

  /** The calls step by step: block 0 has its 3000 bytes throughout, and is marked in full by the last write. */
  lemma RaisedSteps()
    ensures var calls := RaisedCalls();
            && InTable(calls) && FinalTotal(3000, calls) == FinalTotal(3000, calls[..2]) == 300000
            && (forall k :: 1 <= k <= 3 ==> SizeOf(3000, calls[..k], 0) == Some(3000))
            && (forall g: nat :: g / PIECES == 0 ==> (Marked(3000, calls[..2], g) <==> g == 0))
            && (forall g: nat :: g / PIECES == 0 ==> (Marked(3000, calls[..1], g) <==> g == 0))
            && (forall g: nat :: g / PIECES == 0 ==> (Marked(3000, calls, g) <==> g < 3))
  {
    hide Marked, SizeOf, FinalTotal;
    var calls := RaisedCalls();
    var a, b, c := calls[0], calls[1], calls[2];
    var one, two := [] + [a], [] + [a] + [b];
    assert calls[..1] == one && calls[..2] == two && calls[..3] == calls == two + [c];
    Nothing();
    RunAppend(3000, [], a);
    RunAppend(3000, one, b);
    RunAppend(3000, two, c);
    assert WritesTo(a, 0) && GivenSize(3000, 0) == 3000;
    forall g: nat | g / PIECES == 0
      ensures Marked(3000, one, g) <==> g == 0
      ensures Marked(3000, two, g) <==> g == 0
      ensures Marked(3000, calls, g) <==> g < 3
    {
      MarkedAppend(3000, [], a, g);
      MarkedAppend(3000, one, b, g);
      MarkedAppend(3000, two, c, g);
    }
  }

  lemma Nothing()
    ensures FinalTotal(3000, []) == 3000 && SizeOf(3000, [], 0) == None && forall g: nat :: !Marked(3000, [], g)
  {
  }

  lemma RaisedIsRightAtFirst()
    ensures Right(3000, RaisedCalls()[..2])
  {
    hide Marked, SizeOf, FinalTotal, Written, Right;
    var calls := RaisedCalls()[..2];
    RaisedSteps();
    RightByBlocks(3000, calls);
    forall i: nat | InFile(300000, i * PIECES) ensures RightAt(3000, calls, i) {
      var g := i * PIECES + 1;
      assert g / PIECES == i && InFile(300000, g);
      assert !Written(calls, g) by {
        RaisedUnwritten(g);
      }
      if i == 0 {
        assert Within(Some(3000), 1) && 1 / PIECES == 0;
        forall k | 0 <= k <= 2 ensures !FullAfter(3000, calls[..k], 0) {
          assert calls[..k] == RaisedCalls()[..k];
          Nothing();
        }
      } else {
        DoneIsSeen(3000, calls, i);
        SizedIsSeen(3000, calls, i);
      }
    }
  }

  lemma RaisedUnwritten(g: nat)
    ensures g > 0 ==> !Written(RaisedCalls()[..2], g)
    ensures g > 2 ==> !Written(RaisedCalls(), g)
  {
  }

  /**
   A file of 3000 bytes has one byte written and is said to have 300000: all answers are right.
   Then its first 3000 bytes are completed, and byte 200000 counts as ready.
   */
  method RaisedLiesLater() returns (ready: bool)
    ensures ready && Right(3000, RaisedCalls()[..2]) && RangeInFile(FinalTotal(3000, RaisedCalls()), 200000, 1)
    ensures !AllWritten(FinalTotal(3000, RaisedCalls()), RaisedCalls(), 200000, 1)
  {
    hide Marked, SizeOf, FinalTotal, Written, Right, InTable;
    var calls := RaisedCalls();
    RaisedSteps();
    RaisedIsRightAtFirst();
    assert calls[..3] == calls;
    assert FullAfter(3000, calls, 0);
    FullIsDone(3000, calls, 0);
    assert forall i: nat :: Meets(i, 200000, 1) <==> i == 0;
    RaisedUnwritten(195);
    assert InFile(300000, 195) && 195 / PIECES == 0;
    ready := ReadyAfter(3000, calls, 200000, 1);
  }
}
