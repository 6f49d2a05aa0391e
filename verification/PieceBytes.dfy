/**
 Pieces and bytes. A piece is marked by any byte of it, while readiness promises all of the
 data; here is exactly when the two come to the same.
 */
module PieceBytes {
  import opened Common
  import opened PieceCache
  import opened PieceRuns
  import opened PieceLasting

  predicate InSize(total: nat, x: nat) {
    total == 0 || x < total
  }

  predicate Covers(offset: nat, len: nat, x: nat) {
    offset <= x < offset + len
  }

  /** The write starts and ends between pieces, or where no byte of the file is cut off. */
  predicate Aligned(total: nat, offset: nat, len: nat) {
    || len == 0
    || (&& (offset % PIECE == 0 || !InFile(total, offset / PIECE))
        && ((offset + len) % PIECE == 0 || !InSize(total, offset + len)))
  }

  /** Every byte of the file in a piece the write marks is in the write. */
  ghost predicate WholePieces(total: nat, offset: nat, len: nat) {
    forall x: nat :: InSize(total, x) && Overlaps(x / PIECE, offset, offset + len) ==> Covers(offset, len, x)
  }

  lemma WholeIffAligned(total: nat, offset: nat, len: nat)
    ensures WholePieces(total, offset, len) <==> Aligned(total, offset, len)
  {
    var end := offset + len;
    if WholePieces(total, offset, len) && len > 0 {
      var x := offset / PIECE * PIECE;
      assert x / PIECE == offset / PIECE && Overlaps(x / PIECE, offset, end);
      assert InSize(total, x) ==> Covers(offset, len, x);
      assert end % PIECE != 0 ==> Overlaps(end / PIECE, offset, end);
      assert InSize(total, end) && end % PIECE != 0 ==> Covers(offset, len, end);
    }
    if Aligned(total, offset, len) {
      forall x: nat | InSize(total, x) && Overlaps(x / PIECE, offset, end) ensures Covers(offset, len, x) {
        assert x / PIECE * PIECE <= x < (x / PIECE + 1) * PIECE;
      }
    }
  }

  predicate WritesByte(call: Call, x: nat) {
    call.WriteCall? && Covers(call.offset, call.len, x)
  }

  predicate ByteWritten(calls: seq<Call>, x: nat) {
    exists k :: 0 <= k < |calls| && WritesByte(calls[k], x)
  }

  /** Each byte of the file, in every block that meets the range, was written. */
  ghost predicate AllBytes(total: nat, calls: seq<Call>, offset: nat, len: nat) {
    forall x: nat :: InSize(total, x) && Meets(x / BLOCK, offset, len) ==> ByteWritten(calls, x)
  }

  predicate AllAligned(total: nat, calls: seq<Call>) {
    forall k :: 0 <= k < |calls| && calls[k].WriteCall? ==> Aligned(total, calls[k].offset, calls[k].len)
  }

  lemma ByteIsPiece(calls: seq<Call>, g: nat)
    requires ByteWritten(calls, g * PIECE)
    ensures Written(calls, g)
  {
    var k :| 0 <= k < |calls| && WritesByte(calls[k], g * PIECE);
    assert Writes(calls[k], g);
  }

  /** No piece of the file is written in part. */
  ghost predicate NoHalf(total: nat, calls: seq<Call>) {
    forall x: nat :: InSize(total, x) && Written(calls, x / PIECE) ==> ByteWritten(calls, x)
  }

  lemma ByteAppend(calls: seq<Call>, call: Call, x: nat)
    ensures ByteWritten(calls + [call], x) <==> ByteWritten(calls, x) || WritesByte(call, x)
  {
    hide WritesByte;
    var all := calls + [call];
    if ByteWritten(calls, x) {
      var k :| 0 <= k < |calls| && WritesByte(calls[k], x);
      assert WritesByte(all[k], x);
    }
    if WritesByte(call, x) {
      assert WritesByte(all[|calls|], x);
    }
  }

  /** Aligned writes leave no piece in part. */
  lemma {:induction false} AlignedKeepsWhole(total: nat, calls: seq<Call>, more: seq<Call>)
    requires NoHalf(total, calls) && AllAligned(total, more) && OnlyWrites(more)
    ensures NoHalf(total, calls + more)
  {
    hide Written, ByteWritten, Writes, Aligned, InSize, Overlaps, Covers;
    if more == [] {
      assert calls + more == calls;
    } else {
      var less, call := more[..|more| - 1], more[|more| - 1];
      var before := calls + less;
      assert calls + more == before + [call];
      AlignedKeepsWhole(total, calls, less);
      WholeIffAligned(total, call.offset, call.len);
      forall x: nat | InSize(total, x) && Written(before + [call], x / PIECE) ensures ByteWritten(before + [call], x) {
        WrittenAppend(before, call, x / PIECE);
        ByteAppend(before, call, x);
        WritesIs(call, x / PIECE);
      }
    }
  }

  lemma WritesIs(call: Call, g: nat)
    requires call.WriteCall?
    ensures Writes(call, g) <==> Overlaps(g, call.offset, call.offset + call.len)
  {
  }

  /** Bytes written are pieces written; the converse holds where no piece is written in part. */
  lemma PiecesAndBytes(total: nat, calls: seq<Call>, offset: nat, len: nat)
    ensures AllBytes(total, calls, offset, len) ==> AllWritten(total, calls, offset, len)
    ensures NoHalf(total, calls) && AllWritten(total, calls, offset, len) ==> AllBytes(total, calls, offset, len)
  {
    hide Written, ByteWritten, Meets;
    if AllBytes(total, calls, offset, len) {
      forall g: nat | InFile(total, g) && Meets(g / PIECES, offset, len) ensures Written(calls, g) {
        assert g * PIECE / BLOCK == g / PIECES && InSize(total, g * PIECE);
        ByteIsPiece(calls, g);
      }
    }
    if NoHalf(total, calls) && AllWritten(total, calls, offset, len) {
      forall x: nat | InSize(total, x) && Meets(x / BLOCK, offset, len) ensures ByteWritten(calls, x) {
        assert x / PIECE / PIECES == x / BLOCK && InFile(total, x / PIECE);
      }
    }
  }

  ghost predicate SameForAll(total: nat, calls: seq<Call>) {
    forall offset: nat, len: nat :: RangeInFile(total, offset, len) ==>
      (AllWritten(total, calls, offset, len) <==> AllBytes(total, calls, offset, len))
  }

  lemma {:induction false} PickBytes(calls: seq<Call>, total: nat, i: nat, n: nat, want: nat -> bool, x: nat)
    requires n <= PIECES && !ByteWritten(calls, x) && !want(x / PIECE)
    ensures !ByteWritten(calls + Pick(i, n, want), x) && AllAligned(total, Pick(i, n, want))
  {
    hide ByteWritten, InFile, InSize;
    if n == 0 {
      assert calls + Pick(i, n, want) == calls;
    } else {
      PickBytes(calls, total, i, n - 1, want, x);
      var p, less := i * PIECES + n - 1, Pick(i, n - 1, want);
      if want(p) {
        assert calls + Pick(i, n, want) == calls + less + [PieceWrite(p)];
        ByteAppend(calls + less, PieceWrite(p), x);
        assert !WritesByte(PieceWrite(p), x);
      } else {
        assert Pick(i, n, want) == less;
      }
    }
  }

  /** A piece written in part: complete its block around it, and the missing byte is answered for. */
  lemma HalfLies(size: nat, calls: seq<Call>, total: nat, x: nat) returns (more: seq<Call>)
    requires InTable(calls) && InSize(total, x) && Written(calls, x / PIECE) && !ByteWritten(calls, x)
    ensures InTable(more) && OnlyWrites(more) && AllAligned(total, more) && !SameForAll(total, calls + more)
  {
    hide Written, ByteWritten, Pick, InTable, AllAligned, Marked, SizeOf, FinalTotal, GivenSize, Within, InFile;
    var i, g := x / BLOCK, x / PIECE;
    assert g / PIECES == i;
    WrittenIsSeen(calls, g);
    SeenInTable(calls, i);
    var want := (h: nat) => InFile(total, h) && h != g;
    more := Pick(i, PIECES, want);
    PickInTable(i, PIECES, want);
    PickBytes(calls, total, i, PIECES, want, x);
    var was := SizeOf(size, calls, i);
    PickDoes(size, calls, i, PIECES, want, if was.Some? then was.value else GivenSize(FinalTotal(size, calls), i));
    var all := calls + more;
    assert forall j: nat :: Meets(j, i * BLOCK, 1) <==> j == i;
    assert AllWritten(total, all, i * BLOCK, 1);
    assert RangeInFile(total, i * BLOCK, 1);
    assert !AllBytes(total, all, i * BLOCK, 1);
  }

  lemma SeenInTable(calls: seq<Call>, i: nat)
    requires InTable(calls) && Seen(calls, i)
    ensures (i + 1) * BLOCK <= LIMIT
  {
    var k :| 0 <= k < |calls| && WritesTo(calls[k], i);
    assert CallInTable(calls[k]);
  }

  /**
   Pieces written and bytes written come to the same for every range, now and after any later
   aligned writes, if and only if no piece of the file is written in part.
   */
  lemma NoHalfIff(total: nat, calls: seq<Call>)
    requires InTable(calls)
    ensures (forall more: seq<Call> :: InTable(more) && OnlyWrites(more) && AllAligned(total, more) ==> SameForAll(total, calls + more))
            <==> NoHalf(total, calls)
  {
    hide InTable, OnlyWrites, AllAligned, SameForAll;
    if NoHalf(total, calls) {
      forall more: seq<Call> | InTable(more) && OnlyWrites(more) && AllAligned(total, more) ensures SameForAll(total, calls + more) {
        AlignedKeepsWhole(total, calls, more);
        WholeIsSame(total, calls + more);
      }
    } else {
      var x: nat :| InSize(total, x) && Written(calls, x / PIECE) && !ByteWritten(calls, x);
      var more := HalfLies(total, calls, total, x);
    }
  }

  lemma WholeIsSame(total: nat, calls: seq<Call>)
    requires NoHalf(total, calls)
    ensures SameForAll(total, calls)
  {
    hide NoHalf, AllWritten, AllBytes;
    forall offset: nat, len: nat ensures AllWritten(total, calls, offset, len) <==> AllBytes(total, calls, offset, len) {
      PiecesAndBytes(total, calls, offset, len);
    }
  }

  /**
   Where no piece is written in part, a range is ready if and only if every byte of every block
   it meets was written: of the file if the answers are right at all, up to the extent if no
   size was raised.
   */
  method BytesReady(size: nat, calls: seq<Call>, offset: nat, len: nat) returns (ready: bool)
    requires InTable(calls) && RangeInFile(FinalTotal(size, calls), offset, len) && offset + len <= UINT32 * BLOCK
    ensures Right(size, calls) && NoHalf(FinalTotal(size, calls), calls) ==>
              (ready <==> AllBytes(FinalTotal(size, calls), calls, offset, len))
    ensures Lowering(size, calls) && NoHalf(Extent(FinalTotal(size, calls), calls), calls) ==>
              (ready <==> AllBytes(Extent(FinalTotal(size, calls), calls), calls, offset, len))
  {
    hide InTable, FinalTotal, Extent, NoHalf, AllBytes, AllWritten, DoneAllIn, Lowering;
    ready := ReadyAfter(size, calls, offset, len);
    PiecesAndBytes(FinalTotal(size, calls), calls, offset, len);
    PiecesAndBytes(Extent(FinalTotal(size, calls), calls), calls, offset, len);
  }

  /** One byte written of a file of 1000, and all of it counts as ready. */
  method OneByteSuffices() returns (ready: bool)
    ensures ready && !ByteWritten([WriteCall(0, 1)], 999)
  {
    hide Written, DoneAllIn;
    var calls := [WriteCall(0, 1)];
    assert calls[..0] == [];
    assert Writes(calls[0], 0);
    assert Written(calls, 0) by {
      WrittenAppend([], calls[0], 0);
      assert [] + [calls[0]] == calls;
    }
    assert AllWritten(1000, calls, 0, 1000);
    ready := ReadyAfter(1000, calls, 0, 1000);
  }
}
