/**
 The block cache of a clip: blocks of 256 KB that record in a bitmap which of their
 1 KB pieces have been written, and a `done` flag that readiness is answered from. The
 flags and bitmaps are compared with a plain set of touched pieces.

 A piece counts as touched as soon as any byte of it is written. A block keeps its offset
 in 32 bits, so past 4 GB it wraps; the table has at most 2^31 blocks, where its own
 32-bit size does not.
 */
module PieceCache {
  import opened Common
  import opened MetaFile

  const PIECE: nat := 1024
  const PIECES: nat := 256
  const BLOCK: nat := 262144
  const UINT32: nat := 0x1_0000_0000
  const LIMIT: nat := 0x8000_0000 * BLOCK   // more blocks than this and the 32-bit table size would wrap

  // ---------- Bitmaps ----------

  datatype Block = Block(offset: nat, size: nat, done: bool, pieces: seq<bv8>)

  /** 1u << k */
  function Bit(k: nat): bv8 {
    match k
    case 0 => 1
    case 1 => 2
    case 2 => 4
    case 3 => 8
    case 4 => 16
    case 5 => 32
    case 6 => 64
    case _ => 128
  }

  lemma OrBit(b: bv8, k: nat, j: nat)
    requires k < 8 && j < 8
    ensures (b | Bit(k)) & Bit(j) != 0 <==> k == j || b & Bit(j) != 0
  {
  }

  predicate Has(m: seq<bv8>, p: nat)
    requires |m| == 32 && p < PIECES
  {
    m[p / 8] & Bit(p % 8) != 0
  }

  function SetPiece(m: seq<bv8>, p: nat): (r: seq<bv8>)
    requires |m| == 32 && p < PIECES
    ensures |r| == 32
  {
    m[p / 8 := m[p / 8] | Bit(p % 8)]
  }

  lemma SetPieceHas(m: seq<bv8>, p: nat, q: nat)
    requires |m| == 32 && p < PIECES && q < PIECES
    ensures Has(SetPiece(m, p), q) <==> q == p || Has(m, q)
  {
    hide Bit;
    OrBit(m[p / 8], p % 8, q % 8);
  }

  lemma SetPieceAll(m: seq<bv8>, p: nat)
    requires |m| == 32 && p < PIECES
    ensures forall q :: 0 <= q < PIECES ==> (Has(SetPiece(m, p), q) <==> q == p || Has(m, q))
  {
    forall q | 0 <= q < PIECES ensures Has(SetPiece(m, p), q) <==> q == p || Has(m, q) {
      SetPieceHas(m, p, q);
    }
  }

  function PieceCount(size: nat): (n: nat)
    ensures (size <= BLOCK ==> n <= PIECES) && (size > 0 ==> n > 0)
  {
    (size + PIECE - 1) / PIECE
  }

  /** The first `n` pieces are all marked. */
  predicate AllMarked(m: seq<bv8>, n: nat)
    requires |m| == 32 && n <= PIECES
  {
    forall p :: 0 <= p < n ==> Has(m, p)
  }

  predicate WellFormed(b: Block) {
    |b.pieces| == 32 && 0 < b.size <= BLOCK
  }

  /** The flag says that every piece within the block's size is marked. */
  predicate DoneOk(b: Block)
    requires WellFormed(b)
  {
    b.done <==> AllMarked(b.pieces, PieceCount(b.size))
  }

  /** The half of it that always holds: a block that could be done is. */
  predicate Current(b: Block)
    requires WellFormed(b)
  {
    AllMarked(b.pieces, PieceCount(b.size)) ==> b.done
  }

  /** dlp_block_check_done */
  method CheckDone(b: Block) returns (r: Block)
    requires WellFormed(b)
    ensures r == b.(done := b.done || AllMarked(b.pieces, PieceCount(b.size)))
  {
    hide Has;
    if b.done {
      return b;
    }
    var n := PieceCount(b.size);
    for i := 0 to n
      invariant AllMarked(b.pieces, i)
    {
      if !Has(b.pieces, i) {
        return b;
      }
    }
    r := b.(done := true);
  }

  /** dlp_block_mark_range: marks the pieces met by the range, as far as the block's size goes. */
  method MarkRange(b: Block, boff: nat, len: nat) returns (r: Block)
    requires WellFormed(b) && len > 0 && boff + len <= BLOCK
    ensures WellFormed(r) && r.size == b.size && r.offset == b.offset
    ensures r.done <==> b.done || AllMarked(r.pieces, PieceCount(r.size))
    ensures Current(r) && (DoneOk(b) ==> DoneOk(r))
    ensures forall q :: 0 <= q < PIECES ==>
              (Has(r.pieces, q) <==>
               Has(b.pieces, q) || (boff / PIECE <= q <= (boff + len - 1) / PIECE && q < PieceCount(b.size)))
  {
    hide Has, SetPiece;
    var start, end, max := boff / PIECE, (boff + len - 1) / PIECE, PieceCount(b.size);
    if end >= max {
      end := max - 1;
    }
    r := b;
    var p := start;
    while p <= end
      invariant start <= p && (p <= end + 1 || p == start)
      invariant |r.pieces| == 32 && r == b.(pieces := r.pieces)
      invariant forall q :: 0 <= q < PIECES ==> (Has(r.pieces, q) <==> Has(b.pieces, q) || start <= q < p)
    {
      SetPieceAll(r.pieces, p);
      r := r.(pieces := SetPiece(r.pieces, p));
      p := p + 1;
    }
    r := CheckDone(r);
  }

  // ---------- The clip ----------

  /** The piece lies in the file; a total of 0 is a size not known yet. */
  predicate InFile(total: nat, g: nat) {
    total == 0 || g * PIECE < total
  }

  /** The size block `bno` should have. */
  function Canonical(total: nat, bno: nat): nat {
    if InFile(total, bno * PIECES) && total != 0 && total - bno * BLOCK < BLOCK then total - bno * BLOCK else BLOCK
  }

  /** The bitmap of the block holds exactly its touched pieces. */
  ghost predicate Fits(b: Block, bno: nat, touched: set<nat>) {
    && WellFormed(b) && b.offset == bno * BLOCK % UINT32
    && forall p :: 0 <= p < PIECES ==> (Has(b.pieces, p) <==> bno * PIECES + p in touched)
  }

  ghost predicate Mirrors(blocks: seq<Option<Block>>, touched: set<nat>) {
    && (forall i :: 0 <= i < |blocks| && blocks[i].Some? ==> Fits(blocks[i].value, i, touched))
    && (forall g :: g in touched ==> g / PIECES < |blocks| && blocks[g / PIECES].Some?)
  }

  predicate SizeOk(b: Block, total: nat, bno: nat) {
    WellFormed(b) && DoneOk(b) && (InFile(total, bno * PIECES) ==> b.size == Canonical(total, bno))
  }

  predicate Sized(blocks: seq<Option<Block>>, total: nat) {
    forall i :: 0 <= i < |blocks| && blocks[i].Some? ==> SizeOk(blocks[i].value, total, i)
  }

  predicate AllCurrent(blocks: seq<Option<Block>>) {
    forall i :: 0 <= i < |blocks| && blocks[i].Some? ==> WellFormed(blocks[i].value) && Current(blocks[i].value)
  }

  predicate Meets(bno: nat, offset: nat, len: nat) {
    bno * BLOCK < offset + len && offset < (bno + 1) * BLOCK
  }

  /** A piece with a byte in [lo, hi). */
  predicate Overlaps(g: nat, lo: nat, hi: nat) {
    lo < hi && g * PIECE < hi && lo < (g + 1) * PIECE
  }

  /** Every piece in the file of every block that meets the range is touched. */
  ghost predicate AllTouched(total: nat, touched: set<nat>, offset: nat, len: nat) {
    forall g: nat :: InFile(total, g) && Meets(g / PIECES, offset, len) ==> g in touched
  }

  lemma ChunkPieces(g: nat, bno: nat, boff: nat, chunk: nat)
    requires chunk > 0 && boff + chunk <= BLOCK
    ensures Overlaps(g, bno * BLOCK + boff, bno * BLOCK + boff + chunk) <==>
            g / PIECES == bno && boff / PIECE <= g % PIECES <= (boff + chunk - 1) / PIECE
  {
    assert g == g / PIECES * PIECES + g % PIECES;
  }

  /** Every piece of block `i` that lies in the file is touched. */
  ghost predicate BlockTouched(total: nat, touched: set<nat>, i: nat) {
    forall g: nat :: g / PIECES == i && InFile(total, g) ==> g in touched
  }

  /** Touched in full is marked up to the size the block should have. */
  lemma MarkedIsTouched(b: Block, total: nat, i: nat, touched: set<nat>)
    requires Fits(b, i, touched) && InFile(total, i * PIECES)
    ensures AllMarked(b.pieces, PieceCount(Canonical(total, i))) <==> BlockTouched(total, touched, i)
  {
    hide Has;
    var n := PieceCount(Canonical(total, i));
    if AllMarked(b.pieces, n) {
      forall g: nat | g / PIECES == i && InFile(total, g) ensures g in touched {
        assert g % PIECES < n && Has(b.pieces, g % PIECES);
      }
    }
    if BlockTouched(total, touched, i) {
      forall p | 0 <= p < n ensures Has(b.pieces, p) {
        var g := i * PIECES + p;
        assert g / PIECES == i && InFile(total, g);
      }
    }
  }

  /** A block in the file is done exactly if its pieces in the file are touched. */
  lemma DoneIsTouched(b: Block, total: nat, i: nat, touched: set<nat>)
    requires Fits(b, i, touched) && SizeOk(b, total, i) && InFile(total, i * PIECES)
    ensures b.done <==> BlockTouched(total, touched, i)
  {
    MarkedIsTouched(b, total, i, touched);
  }

  // ---------- Files over 4 GB that end inside a block ----------

  predicate Present(blocks: seq<Option<Block>>, i: nat) {
    i < |blocks| && blocks[i].Some?
  }

  function SizeIn(blocks: seq<Option<Block>>, i: nat): Option<nat> {
    if Present(blocks, i) then Some(blocks[i].value.size) else None
  }

  /** The piece lies within a block of this size. */
  predicate Within(size: Option<nat>, g: nat) {
    size.Some? && g % PIECES < PieceCount(size.value)
  }

  /** Every piece within the size of the block, which is there, is touched. */
  ghost predicate Full(blocks: seq<Option<Block>>, touched: set<nat>, i: nat) {
    Present(blocks, i) && forall g: nat :: g / PIECES == i && Within(SizeIn(blocks, i), g) ==> g in touched
  }

  /** The flags set since are those of the blocks that are full now. */
  ghost predicate Flags(was: seq<Option<Block>>, now: seq<Option<Block>>, touched: set<nat>) {
    forall i: nat :: DoneAt(now, i) <==> DoneAt(was, i) || Full(now, touched, i)
  }

  predicate Partial(total: nat) {
    total > UINT32 && total % BLOCK != 0
  }

  function RoundUp(total: nat): nat {
    (total / BLOCK + 1) * BLOCK
  }

  /** The block to be made is the last one, and its 32-bit offset has wrapped. */
  predicate Misses(blocks: seq<Option<Block>>, total: nat, bno: nat) {
    Partial(total) && bno == total / BLOCK && !Present(blocks, bno)
  }

  /** The size a new block gets, from its 32-bit offset. */
  function GivenSize(total: nat, bno: nat): nat {
    var offset := bno * BLOCK % UINT32;
    var rem := if total >= offset then total - offset else total + 0x1_0000_0000_0000_0000 - offset;
    if total > 0 && rem < BLOCK then (if rem > 0 then rem else BLOCK) else BLOCK
  }

  /** A new block of the file gets the size it should have if and only if it is not cut short past 4 GB. */
  lemma GivenSizeRight(total: nat, bno: nat)
    requires InFile(total, bno * PIECES)
    ensures GivenSize(total, bno) == Canonical(total, bno) <==> !(Partial(total) && bno == total / BLOCK)
    ensures Partial(total) ==> GivenSize(total, bno) == Canonical(RoundUp(total), bno)
  {
    var at, offset := bno * BLOCK, bno * BLOCK % UINT32;
    assert at == at / UINT32 * UINT32 + offset;
    assert total > 0 ==> at < total;
    assert offset == at || (at >= UINT32 && at - offset >= UINT32);
    if total > 0 {
      InLast(total, bno);
    }
  }

  lemma InLast(total: nat, bno: nat)
    requires total > 0 && bno * BLOCK < total
    ensures total - bno * BLOCK < BLOCK <==> bno == total / BLOCK && total % BLOCK != 0
    ensures bno == total / BLOCK && total % BLOCK != 0 ==> RoundUp(total) - bno * BLOCK == BLOCK
    ensures bno < total / BLOCK ==> RoundUp(total) - bno * BLOCK >= BLOCK
  {
  }

  /** Rounding the size up puts no other block into the file. */
  lemma SameBlocks(total: nat, i: nat)
    requires Partial(total)
    ensures InFile(RoundUp(total), i * PIECES) <==> InFile(total, i * PIECES)
    ensures i != total / BLOCK ==> Canonical(RoundUp(total), i) == Canonical(total, i)
  {
    assert total == total / BLOCK * BLOCK + total % BLOCK;
    if i <= total / BLOCK {
      InLast(total, i);
    }
  }

  lemma SizedWider(blocks: seq<Option<Block>>, total: nat)
    requires Sized(blocks, total) && Partial(total) && !Present(blocks, total / BLOCK)
    ensures Sized(blocks, RoundUp(total))
  {
    hide DoneOk, Canonical, RoundUp, InFile;
    forall i | 0 <= i < |blocks| && blocks[i].Some? ensures SizeOk(blocks[i].value, RoundUp(total), i) {
      assert SizeOk(blocks[i].value, total, i);
      SameBlocks(total, i);
    }
  }

  /** The last block's size from its 32-bit offset is right all the same, the result being cut to 32 bits. */
  lemma LastSizeWraps(fileSize: nat)
    requires fileSize > 0
    ensures var offset := (fileSize - 1) / BLOCK * BLOCK % UINT32;
            offset < fileSize && (fileSize - offset) % UINT32 == LastSize(fileSize)
  {
    var at := (fileSize - 1) / BLOCK * BLOCK;
    var q, offset := at / UINT32, at % UINT32;
    assert fileSize - offset == q * UINT32 + LastSize(fileSize);
    ModOf(q, LastSize(fileSize));
  }

  lemma ModOf(q: nat, r: nat)
    requires r < UINT32
    ensures (q * UINT32 + r) % UINT32 == r
  {
  }

  // ---------- Readiness, block by block ----------

  predicate DoneAt(blocks: seq<Option<Block>>, i: nat) {
    i < |blocks| && blocks[i].Some? && blocks[i].value.done
  }

  /** What dlp_cache_is_ready looks at. */
  ghost predicate DoneAll(blocks: seq<Option<Block>>, offset: nat, len: nat) {
    forall i: nat :: Meets(i, offset, len) ==> DoneAt(blocks, i)
  }

  predicate RangeInFile(total: nat, offset: nat, len: nat) {
    len > 0 && (total == 0 || offset + len <= total)
  }

  /** Every question about a range in the file gets the right answer. */
  ghost predicate Honest(blocks: seq<Option<Block>>, touched: set<nat>, total: nat) {
    forall offset: nat, len: nat :: RangeInFile(total, offset, len) ==>
      (DoneAll(blocks, offset, len) <==> AllTouched(total, touched, offset, len))
  }

  ghost predicate HonestAt(blocks: seq<Option<Block>>, touched: set<nat>, total: nat, i: nat) {
    DoneAt(blocks, i) <==> BlockTouched(total, touched, i)
  }

  lemma HonestRange(blocks: seq<Option<Block>>, touched: set<nat>, total: nat, offset: nat, len: nat)
    requires RangeInFile(total, offset, len)
    requires forall i: nat :: Meets(i, offset, len) ==> HonestAt(blocks, touched, total, i)
    ensures DoneAll(blocks, offset, len) <==> AllTouched(total, touched, offset, len)
  {
    hide Meets, InFile;
    if AllTouched(total, touched, offset, len) {
      forall i: nat | Meets(i, offset, len) ensures DoneAt(blocks, i) {
        assert HonestAt(blocks, touched, total, i) && BlockTouched(total, touched, i);
      }
    }
    if DoneAll(blocks, offset, len) {
      forall g: nat | InFile(total, g) && Meets(g / PIECES, offset, len) ensures g in touched {
        assert DoneAt(blocks, g / PIECES) && HonestAt(blocks, touched, total, g / PIECES);
      }
    }
  }

  lemma MetIsInFile(total: nat, offset: nat, len: nat, i: nat)
    requires RangeInFile(total, offset, len) && Meets(i, offset, len)
    ensures InFile(total, i * PIECES)
  {
  }

  /** The answers are right for all ranges exactly if each block in the file is flagged rightly. */
  lemma HonestByBlocks(blocks: seq<Option<Block>>, touched: set<nat>, total: nat)
    ensures Honest(blocks, touched, total) <==>
            forall i: nat :: InFile(total, i * PIECES) ==> HonestAt(blocks, touched, total, i)
  {
    hide DoneAll, AllTouched, HonestAt;
    if forall i: nat :: InFile(total, i * PIECES) ==> HonestAt(blocks, touched, total, i) {
      forall offset: nat, len: nat | RangeInFile(total, offset, len)
        ensures DoneAll(blocks, offset, len) <==> AllTouched(total, touched, offset, len)
      {
        forall i: nat | Meets(i, offset, len) ensures HonestAt(blocks, touched, total, i) {
          MetIsInFile(total, offset, len, i);
        }
        HonestRange(blocks, touched, total, offset, len);
      }
    }
    if Honest(blocks, touched, total) {
      forall i: nat | InFile(total, i * PIECES) ensures HonestAt(blocks, touched, total, i) {
        assert RangeInFile(total, i * BLOCK, 1);
        assert DoneAll(blocks, i * BLOCK, 1) <==> AllTouched(total, touched, i * BLOCK, 1);
        OneBlock(blocks, touched, total, i);
      }
    }
  }

  /** The first byte of a block asks about that block alone. */
  lemma OneBlock(blocks: seq<Option<Block>>, touched: set<nat>, total: nat, i: nat)
    ensures (DoneAll(blocks, i * BLOCK, 1) <==> AllTouched(total, touched, i * BLOCK, 1)) <==> HonestAt(blocks, touched, total, i)
  {
    assert forall k: nat :: Meets(k, i * BLOCK, 1) <==> k == i;
  }

  lemma AbsentIsHonest(blocks: seq<Option<Block>>, touched: set<nat>, total: nat, i: nat)
    requires Mirrors(blocks, touched) && InFile(total, i * PIECES) && (i < |blocks| ==> blocks[i].None?)
    ensures HonestAt(blocks, touched, total, i)
  {
    hide Has;
    assert i * PIECES / PIECES == i;
    assert i * PIECES !in touched;
  }

  /** Flags, bitmaps and sizes in order: every answer is right. */
  lemma SizedIsHonest(blocks: seq<Option<Block>>, touched: set<nat>, total: nat)
    requires Mirrors(blocks, touched) && Sized(blocks, total)
    ensures Honest(blocks, touched, total)
  {
    forall i: nat | InFile(total, i * PIECES) ensures HonestAt(blocks, touched, total, i) {
      if i < |blocks| && blocks[i].Some? {
        BlockAt(blocks, touched, i);
        DoneIsTouched(blocks[i].value, total, i, touched);
      } else {
        AbsentIsHonest(blocks, touched, total, i);
      }
    }
    HonestByBlocks(blocks, touched, total);
  }

  lemma BlockAt(blocks: seq<Option<Block>>, touched: set<nat>, bno: nat)
    requires Mirrors(blocks, touched) && bno < |blocks| && blocks[bno].Some?
    ensures Fits(blocks[bno].value, bno, touched)
  {
  }

  // ---------- Which sizes are safe ----------

  /** What a file of this size leaves for its last block. */
  function LastSize(fileSize: nat): (n: nat)
    requires fileSize > 0
    ensures 0 < n <= BLOCK && n == Canonical(fileSize, (fileSize - 1) / BLOCK)
  {
    fileSize - (fileSize - 1) / BLOCK * BLOCK
  }

  /** A block of the file flagged done has every piece marked that the new size gives it. */
  predicate CoveredAt(blocks: seq<Option<Block>>, fileSize: nat, i: nat)
    requires i < |blocks| && (blocks[i].Some? ==> WellFormed(blocks[i].value))
  {
    blocks[i].Some? && blocks[i].value.done ==> AllMarked(blocks[i].value.pieces, PieceCount(Canonical(fileSize, i)))
  }

  predicate SafeSize(blocks: seq<Option<Block>>, fileSize: nat)
    requires AllCurrent(blocks)
  {
    forall i :: 0 <= i < |blocks| && InFile(fileSize, i * PIECES) ==> CoveredAt(blocks, fileSize, i)
  }

  /** The blocks once the last one of the new size is brought up to date. */
  predicate Resizes(blocks: seq<Option<Block>>, after: seq<Option<Block>>, fileSize: nat)
    requires fileSize > 0 && AllCurrent(blocks)
  {
    var last := (fileSize - 1) / BLOCK;
    if last < |blocks| && blocks[last].Some? then
      var b := blocks[last].value;
      after == blocks[last := Some(b.(size := LastSize(fileSize),
                                      done := b.done || AllMarked(b.pieces, PieceCount(LastSize(fileSize)))))]
    else after == blocks
  }

  lemma ResizedKeeps(blocks: seq<Option<Block>>, after: seq<Option<Block>>, touched: set<nat>, fileSize: nat)
    requires fileSize > 0 && Mirrors(blocks, touched) && AllCurrent(blocks) && Resizes(blocks, after, fileSize)
    ensures Mirrors(after, touched) && AllCurrent(after)
    ensures forall i: nat :: DoneAt(blocks, i) ==> DoneAt(after, i)
  {
    hide Has;
  }

  lemma HonestIffCovered(blocks: seq<Option<Block>>, after: seq<Option<Block>>, touched: set<nat>, fileSize: nat, i: nat)
    requires fileSize > 0 && Mirrors(blocks, touched) && AllCurrent(blocks) && Resizes(blocks, after, fileSize)
    requires InFile(fileSize, i * PIECES)
    ensures HonestAt(after, touched, fileSize, i) <==> (i < |blocks| ==> CoveredAt(blocks, fileSize, i))
  {
    hide Has;
    ResizedKeeps(blocks, after, touched, fileSize);
    if i < |blocks| && blocks[i].Some? {
      BlockAt(blocks, touched, i);
      MarkedIsTouched(blocks[i].value, fileSize, i, touched);
      var last := (fileSize - 1) / BLOCK;
      if i != last {
        assert Canonical(fileSize, i) == BLOCK;
        FullIsDone(blocks[i].value);
      }
    } else {
      AbsentIsHonest(after, touched, fileSize, i);
    }
  }

  lemma FullIsDone(b: Block)
    requires WellFormed(b) && Current(b)
    ensures AllMarked(b.pieces, PieceCount(BLOCK)) ==> b.done
  {
    hide Has;
    assert PieceCount(b.size) <= PieceCount(BLOCK) == PIECES;
  }

  /** After a size update every answer is right if and only if the size was safe. */
  lemma HonestIffSafe(blocks: seq<Option<Block>>, after: seq<Option<Block>>, touched: set<nat>, fileSize: nat)
    requires fileSize > 0 && Mirrors(blocks, touched) && AllCurrent(blocks) && Resizes(blocks, after, fileSize)
    ensures Honest(after, touched, fileSize) <==> SafeSize(blocks, fileSize)
  {
    hide Honest, HonestAt, CoveredAt, Mirrors, AllCurrent, Resizes;
    HonestByBlocks(after, touched, fileSize);
    forall i: nat | InFile(fileSize, i * PIECES)
      ensures HonestAt(after, touched, fileSize, i) <==> (i < |blocks| ==> Formed(blocks, i) && CoveredAt(blocks, fileSize, i))
    {
      AtFormed(blocks, i);
      HonestIffCovered(blocks, after, touched, fileSize, i);
    }
    forall i | 0 <= i < |blocks| ensures Formed(blocks, i) {
      AtFormed(blocks, i);
    }
  }

  predicate Formed(blocks: seq<Option<Block>>, i: nat)
    requires i < |blocks|
  {
    blocks[i].Some? ==> WellFormed(blocks[i].value)
  }

  lemma AtFormed(blocks: seq<Option<Block>>, i: nat)
    requires AllCurrent(blocks)
    ensures i < |blocks| ==> Formed(blocks, i)
  {
  }

  /** A size that is not raised keeps the sizes in order too. */
  lemma LoweredIsSafe(blocks: seq<Option<Block>>, after: seq<Option<Block>>, total: nat, fileSize: nat)
    requires Sized(blocks, total) && AllCurrent(blocks) && fileSize > 0 && (total == 0 || fileSize <= total)
    requires Resizes(blocks, after, fileSize)
    ensures SafeSize(blocks, fileSize) && Sized(after, fileSize)
  {
    hide Has;
    forall i | 0 <= i < |blocks| && blocks[i].Some? && InFile(fileSize, i * PIECES)
      ensures PieceCount(Canonical(fileSize, i)) <= PieceCount(blocks[i].value.size)
    {
      assert SizeOk(blocks[i].value, total, i);
    }
  }

  class Clip {
    var blocks: seq<Option<Block>>
    var total: nat
    ghost var touched: set<nat>
    ghost var extent: nat   // the size of the file as far as readiness goes

    /** What every call keeps, whatever sizes are set. */
    ghost predicate Kept()
      reads this
    {
      0 < |blocks| && Mirrors(blocks, touched) && AllCurrent(blocks)
    }

    /** What holds besides while the size is not raised. */
    ghost predicate Agrees()
      reads this
    {
      && Kept() && Sized(blocks, extent)
      && (extent == total || (Partial(total) && extent == RoundUp(total) && Present(blocks, total / BLOCK)))
    }

    /** dlp_cache_open_clip */
    constructor (size: nat)
      ensures Agrees() && total == size == extent && touched == {}
      ensures |blocks| == CountFor(size) && forall i :: 0 <= i < |blocks| ==> blocks[i].None?
    {
      total, extent := size, size;
      blocks := seq(CountFor(size), _ => None);
      touched := {};
    }

    /** The table doubles until it has the block. */
    method Grow(bno: nat)
      requires Kept() && bno >= |blocks| && (bno + 1) * BLOCK <= LIMIT
      modifies this`blocks
      ensures Kept() && (old(Agrees()) ==> Agrees()) && bno < |blocks|
      ensures old(blocks) <= blocks && forall i :: |old(blocks)| <= i < |blocks| ==> blocks[i].None?
    {
      hide Has, DoneOk, Canonical, RoundUp;
      var newCount := |blocks| * 2 % UINT32;
      while bno >= newCount
        invariant newCount >= |blocks| > 0
        decreases bno - newCount
      {
        newCount := newCount * 2 % UINT32;
      }
      blocks := blocks + seq(newCount - |blocks|, _ => None);
    }

    /** dlp_block_ensure */
    method Ensure(bno: nat)
      requires Kept() && (bno + 1) * BLOCK <= LIMIT
      modifies this`blocks, this`extent
      ensures Kept() && (old(Agrees()) ==> Agrees())
      ensures extent == if Misses(old(blocks), total, bno) then RoundUp(total) else old(extent)
      ensures bno < |blocks| && blocks[bno].Some? && |blocks| >= |old(blocks)|
      ensures !Present(old(blocks), bno) ==> blocks[bno].value.size == GivenSize(total, bno) && !blocks[bno].value.done
      ensures forall i :: 0 <= i < |old(blocks)| && (old(blocks)[i].Some? || i != bno) ==> blocks[i] == old(blocks)[i]
      ensures forall i :: |old(blocks)| <= i < |blocks| && i != bno ==> blocks[i].None?
      ensures bno < |old(blocks)| ==> |blocks| == |old(blocks)|
    {
      hide Has, RoundUp, Canonical, DoneOk;
      if bno >= |blocks| {
        Grow(bno);
      }
      if blocks[bno].None? {
        var offset := bno * BLOCK % UINT32;
        var size := BLOCK;
        if total > 0 {
          // the subtraction is unsigned: past the end it is huge
          var rem := if total >= offset then total - offset else total + 0x1_0000_0000_0000_0000 - offset;
          if rem < BLOCK {
            size := if rem > 0 then rem else BLOCK;
          }
        }
        var b := Block(offset, size, false, seq(32, _ => 0));
        NewBlockFits(b, bno, touched);
        if old(Agrees()) {
          NewBlockSized(blocks, total, extent, bno, b);
        }
        if Partial(total) && bno == total / BLOCK {
          extent := RoundUp(total);
        }
        blocks := blocks[bno := Some(b)];
      }
    }

    /** One turn of the write loop. */
    method MarkBlock(bno: nat, boff: nat, chunk: nat)
      requires Kept() && (bno + 1) * BLOCK <= LIMIT && chunk > 0 && boff + chunk <= BLOCK
      modifies this`blocks, this`touched, this`extent
      ensures extent == if Misses(old(blocks), total, bno) then RoundUp(total) else old(extent)
      ensures Kept() && (old(Agrees()) ==> Agrees())
      ensures Grown(old(blocks), blocks, total, bno) && Flags(old(blocks), blocks, touched)
      ensures forall g: nat :: g in touched <==>
                g in old(touched) || (Overlaps(g, bno * BLOCK + boff, bno * BLOCK + boff + chunk) && Reached(blocks, g))
    {
      hide Has, Mirrors, AllCurrent, Sized, RoundUp, Partial, GivenSize, Full;
      Ensure(bno);
      BlockAt(blocks, touched, bno);
      var b := blocks[bno].value;
      var r := MarkRange(b, boff, chunk);
      ghost var added := set p | 0 <= p < PIECES && Has(r.pieces, p) :: bno * PIECES + p;
      MarkedBlock(blocks, touched, bno, r, added);
      Replaced(blocks, extent, bno, r);
      AddedPieces(b, r, bno, boff, chunk, touched, added);
      touched := touched + added;
      blocks := blocks[bno := Some(r)];
      ReachedAt(blocks, bno);
      FlagsOf(old(blocks), blocks, touched, bno);
    }

    /** dlp_cache_write, its bitmap part; false for an empty write. */
    method Write(offset: nat, len: nat) returns (ok: bool)
      requires Kept() && offset + len <= LIMIT
      modifies this`blocks, this`touched, this`extent
      ensures Kept() && (ok <==> len > 0)
      ensures forall i: nat :: SizeIn(blocks, i) ==
                if SizeIn(old(blocks), i).None? && ok && Meets(i, offset, len) then Some(GivenSize(total, i)) else SizeIn(old(blocks), i)
      ensures Flags(old(blocks), blocks, touched)
      ensures extent == if ok && Misses(old(blocks), total, total / BLOCK) && Meets(total / BLOCK, offset, len)
                        then RoundUp(total) else old(extent)
      ensures forall g: nat :: g in touched <==>
                g in old(touched) || (Overlaps(g, offset, offset + len) && Reached(blocks, g))
      ensures old(Agrees()) ==> Agrees() && forall g: nat :: InFile(extent, g) ==>
                (g in touched <==> g in old(touched) || Overlaps(g, offset, offset + len))
    {
      hide Mirrors, AllCurrent, Sized, Overlaps, RoundUp, Partial, Meets, GivenSize, Full;
      NothingOverlaps(offset);
      FlagsKept(blocks, touched);
      if len == 0 {
        return false;
      }
      var end, pos := offset + len, offset;
      while pos < end
        invariant offset <= pos <= end && Kept() && (old(Agrees()) ==> Agrees())
        invariant pos == offset || pos == end || pos % BLOCK == 0
        invariant Walked(blocks, old(touched), touched, offset, pos) && Reaches(old(blocks), blocks, total, offset, pos)
        invariant Flags(old(blocks), blocks, touched)
        invariant extent == if Misses(old(blocks), total, total / BLOCK) && Present(blocks, total / BLOCK)
                            then RoundUp(total) else old(extent)
      {
        var bno, boff := pos / BLOCK % UINT32, pos % BLOCK;
        var chunk := BLOCK - boff;
        if chunk > end - pos {
          chunk := end - pos;
        }
        ghost var was, before := blocks, touched;
        MarkBlock(bno, boff, chunk);
        assert SizeIn(blocks, total / BLOCK).Some? <==> SizeIn(was, total / BLOCK).Some? || bno == total / BLOCK;
        WalkOn(was, blocks, old(touched), before, touched, total, offset, pos, bno, boff, chunk);
        ReachOn(old(blocks), was, blocks, total, offset, pos, bno, boff, chunk);
        FlagsOn(old(blocks), was, blocks, total, before, touched, bno);
        pos := pos + chunk;
      }
      if old(Agrees()) {
        InFileIsReached(blocks, touched, old(touched), extent, offset, end);
      }
      ok := true;
    }

    /** dlp_cache_is_ready */
    method IsReady(offset: nat, len: nat) returns (ready: bool)
      requires Kept() && offset + len <= UINT32 * BLOCK
      ensures ready <==> len > 0 && DoneAll(blocks, offset, len)
      ensures Agrees() && RangeInFile(total, offset, len) ==> (ready <==> AllTouched(extent, touched, offset, len))
    {
      hide Mirrors, Sized, AllTouched, Honest, AllCurrent;
      ready := len > 0;
      var end, pos := offset + len, offset;
      while ready && pos < end
        invariant offset <= pos && (pos == offset || pos % BLOCK == 0)
        invariant ready <==> len > 0 && forall i: nat :: Meets(i, offset, len) && (i + 1) * BLOCK <= pos ==> DoneAt(blocks, i)
        decreases end - pos
      {
        var bno, boff := pos / BLOCK % UINT32, pos % BLOCK;
        if bno >= |blocks| || blocks[bno].None? || !blocks[bno].value.done {
          assert Meets(bno, offset, len);
          ready := false;
          break;
        }
        pos := pos + (BLOCK - boff);
      }
      if Agrees() && RangeInFile(total, offset, len) {
        SizedIsHonest(blocks, touched, extent);
        Answer(blocks, touched, extent, offset, len);
      }
    }

    /**
     dlp_cache_set_file_size; false for size 0. Until the next call every readiness answer
     within the file is right if and only if the new size was safe.
     */
    method SetFileSize(fileSize: nat) returns (ok: bool)
      requires Kept() && fileSize <= LIMIT
      modifies this`blocks, this`total, this`extent
      ensures Kept() && (ok <==> fileSize > 0)
      ensures !ok ==> blocks == old(blocks) && total == old(total) && extent == old(extent)
      ensures ok ==> total == fileSize == extent && (Honest(blocks, touched, total) <==> SafeSize(old(blocks), fileSize))
      ensures ok && old(Agrees()) && (old(total) == 0 || fileSize <= old(total)) ==> Agrees()
      ensures Flags(old(blocks), blocks, touched)
      ensures forall i: nat :: SizeIn(blocks, i) ==
                if ok && i == (fileSize - 1) / BLOCK && SizeIn(old(blocks), i).Some? then Some(LastSize(fileSize)) else SizeIn(old(blocks), i)
    {
      hide Has, Mirrors, Sized, SafeSize, Honest, RoundUp, Full;
      FlagsKept(blocks, touched);
      if fileSize == 0 {
        return false;
      }
      ghost var was, before := extent, blocks;
      total, extent := fileSize, fileSize;
      LastSizeWraps(fileSize);
      var last := (fileSize - 1) / BLOCK % UINT32;
      if last < |blocks| && blocks[last].Some? {
        BlockAt(blocks, touched, last);
        var b := blocks[last].value;
        var rem := fileSize - b.offset;
        var r := CheckDone(b.(size := (if rem > 0 then rem else BLOCK) % UINT32));
        blocks := blocks[last := Some(r)];
      }
      ResizedKeeps(before, blocks, touched, fileSize);
      FlagsOf(before, blocks, touched, last);
      HonestIffSafe(before, blocks, touched, fileSize);
      if old(Agrees()) && (old(total) == 0 || fileSize <= old(total)) {
        RoundsUp(old(total));
        LoweredIsSafe(before, blocks, was, fileSize);
      }
      ok := true;
    }

    // ---------- The .meta file ----------

    /** meta_save */
    method Save() returns (file: seq<bv8>)
      requires Kept()
      ensures |file| == HEADER_LEN + BITMAP * |blocks| && file[..HEADER_LEN] == Header(|blocks|, total)
      ensures Bitmaps(file, touched, |blocks|)
    {
      hide Has, AllCurrent, Header, Bitmaps, IsBitmap, Mirrors;
      file := Header(|blocks|, total);
      NoBitmaps(file, touched);
      for i := 0 to |blocks|
        invariant |file| == HEADER_LEN + BITMAP * i && file[..HEADER_LEN] == Header(|blocks|, total)
        invariant Bitmaps(file, touched, i)
      {
        var bitmap := if blocks[i].Some? then blocks[i].value.pieces else seq(32, _ => 0);
        SavedBitmap(blocks, touched, i, bitmap);
        OneMoreBitmap(file, touched, i, bitmap);
        file := file + bitmap;
      }
    }

    /**
     meta_load into a clip just opened; `rest` is the memory past a file that is too short. A file
     for another clip and one that is complete are removed.
     */
    method Load(file: seq<bv8>, rest: nat -> bv8) returns (ok: bool, removed: bool)
      requires Agrees() && touched == {} && |blocks| * BLOCK <= LIMIT && total < 0x1_0000_0000_0000_0000
      requires forall i :: 0 <= i < |blocks| ==> blocks[i].None?
      modifies this`blocks, this`touched, this`extent
      ensures Agrees() && |blocks| == |old(blocks)|
      ensures ok <==> |file| >= HEADER_LEN && file[..HEADER_LEN] == Header(|blocks|, total)
      ensures if ok then Restored(file, rest, touched, |blocks|) else touched == {}
      ensures extent == if ok && Partial(total) && total / BLOCK < |blocks| then RoundUp(total) else total
      ensures removed <==> if ok then forall i :: 0 <= i < |blocks| ==> DoneAt(blocks, i)
                           else |file| >= HEADER_LEN && file[..16] == MAGIC
    {
      hide Has, Sized, Mirrors, AllCurrent, RoundUp, Partial, Bitmap, Header, IsBitmap;
      MatchesIff(file, |blocks|, total);
      if |file| < HEADER_LEN || file[..16] != MAGIC {
        return false, false;
      }
      if OfLe(file[16..20]) != |blocks| || OfLe(file[20..24]) != BLOCK || OfLe(file[24..32]) != total {
        return false, true;
      }
      for i := 0 to |blocks|
        invariant |blocks| == |old(blocks)| && Agrees() && Restored(file, rest, touched, i)
        invariant forall k: nat :: Present(blocks, k) <==> k < i
        invariant extent == if Partial(total) && total / BLOCK < i then RoundUp(total) else total
      {
        ghost var before := touched;
        assert !Present(blocks, i);
        LoadOne(i, Bitmap(file, rest, i));
        RestoredOn(file, rest, before, touched, i);
      }
      for i := 0 to |blocks|
        invariant forall k :: 0 <= k < i ==> DoneAt(blocks, k)
      {
        if blocks[i].None? || !blocks[i].value.done {
          assert !DoneAt(blocks, i);
          return true, false;
        }
      }
      return true, true;
    }

    /** One turn of the load loop. */
    method LoadOne(i: nat, bitmap: seq<bv8>)
      requires Agrees() && i < |blocks| && (i + 1) * BLOCK <= LIMIT && |bitmap| == 32 && blocks[i].None?
      modifies this`blocks, this`touched, this`extent
      ensures Agrees() && |blocks| == |old(blocks)|
      ensures touched == old(touched) + set p | 0 <= p < PIECES && Has(bitmap, p) :: i * PIECES + p
      ensures extent == if Misses(old(blocks), total, i) then RoundUp(total) else old(extent)
      ensures forall k: nat :: Present(blocks, k) <==> k == i || Present(old(blocks), k)
    {
      hide Has, Sized, Mirrors, AllCurrent, RoundUp, Partial;
      NoneTouched(blocks, touched, i);
      Ensure(i);
      BlockAt(blocks, touched, i);
      SizeAt(blocks, extent, i);
      var b := blocks[i].value;
      BlankBlock(b, i, touched);
      var r := CheckDone(b.(pieces := bitmap));
      ghost var added := set p | 0 <= p < PIECES && Has(bitmap, p) :: i * PIECES + p;
      MarkedBlock(blocks, touched, i, r, added);
      Replaced(blocks, extent, i, r);
      touched := touched + added;
      blocks := blocks[i := Some(r)];
    }
  }

  // ---------- What a wider extent changes ----------

  /** Once the last block is touched up to the end of the file it is touched in full. */
  ghost predicate Settled(touched: set<nat>, total: nat) {
    BlockTouched(total, touched, total / BLOCK) ==> BlockTouched(RoundUp(total), touched, total / BLOCK)
  }

  lemma WiderPiece(total: nat, g: nat)
    requires Partial(total)
    ensures InFile(total, g) ==> InFile(RoundUp(total), g)
    ensures InFile(RoundUp(total), g) && !InFile(total, g) ==> g / PIECES == total / BLOCK
  {
  }

  lemma SameIfSettled(touched: set<nat>, total: nat, offset: nat, len: nat)
    requires Partial(total) && Settled(touched, total)
    ensures AllTouched(RoundUp(total), touched, offset, len) <==> AllTouched(total, touched, offset, len)
  {
    hide Meets, RoundUp, InFile;
    var last := total / BLOCK;
    if AllTouched(total, touched, offset, len) {
      forall g: nat | InFile(RoundUp(total), g) && Meets(g / PIECES, offset, len) ensures g in touched {
        WiderPiece(total, g);
        if !InFile(total, g) {
          assert BlockTouched(total, touched, last);
        }
      }
    }
    if AllTouched(RoundUp(total), touched, offset, len) {
      forall g: nat | InFile(total, g) && Meets(g / PIECES, offset, len) ensures g in touched {
        WiderPiece(total, g);
      }
    }
  }

  /** Otherwise the first byte of the last block gets two answers. */
  lemma LastBlockAsks(touched: set<nat>, total: nat)
    requires Partial(total) && !Settled(touched, total)
    ensures var offset := total / BLOCK * BLOCK;
            && RangeInFile(total, offset, 1) && AllTouched(total, touched, offset, 1)
            && !AllTouched(RoundUp(total), touched, offset, 1)
  {
    var offset, last := total / BLOCK * BLOCK, total / BLOCK;
    assert forall i: nat :: Meets(i, offset, 1) <==> i == last;
    var g: nat :| g / PIECES == last && InFile(RoundUp(total), g) && g !in touched;
    assert Meets(g / PIECES, offset, 1);
  }

  lemma WiderAnswers(touched: set<nat>, total: nat)
    requires Partial(total)
    ensures (forall offset: nat, len: nat :: RangeInFile(total, offset, len) ==>
               (AllTouched(RoundUp(total), touched, offset, len) <==> AllTouched(total, touched, offset, len)))
            <==> Settled(touched, total)
  {
    hide AllTouched, Settled, RangeInFile, RoundUp;
    if Settled(touched, total) {
      forall offset: nat, len: nat
        ensures AllTouched(RoundUp(total), touched, offset, len) <==> AllTouched(total, touched, offset, len)
      {
        SameIfSettled(touched, total, offset, len);
      }
    } else {
      LastBlockAsks(touched, total);
    }
  }

  /** Sized for the extent, every answer is right if and only if that is the size or the last block is settled. */
  lemma HonestIffSettled(blocks: seq<Option<Block>>, touched: set<nat>, total: nat, extent: nat)
    requires Mirrors(blocks, touched) && Sized(blocks, extent)
    requires extent == total || (Partial(total) && extent == RoundUp(total))
    ensures Honest(blocks, touched, total) <==> extent == total || Settled(touched, total)
  {
    hide Mirrors, Sized, AllTouched, Settled, RoundUp, DoneAll;
    SizedIsHonest(blocks, touched, extent);
    if extent != total {
      WiderAnswers(touched, total);
      RoundsUp(total);
    }
  }

  // ---------- Lemmas for the loops ----------

  /** The piece lies within the size of a block that is there. */
  predicate Reached(blocks: seq<Option<Block>>, g: nat) {
    Within(SizeIn(blocks, g / PIECES), g)
  }

  /** Block `bno` is there, no block has changed its size, and no other has appeared. */
  ghost predicate Grown(was: seq<Option<Block>>, now: seq<Option<Block>>, total: nat, bno: nat) {
    forall i: nat :: SizeIn(now, i) == if i == bno && SizeIn(was, i).None? then Some(GivenSize(total, i)) else SizeIn(was, i)
  }

  /** After the pieces of [offset, pos): their blocks are there, and those within size are touched. */
  ghost predicate Walked(blocks: seq<Option<Block>>, was: set<nat>, touched: set<nat>, offset: nat, pos: nat) {
    && (forall g: nat :: Overlaps(g, offset, pos) ==> g / PIECES < |blocks| && blocks[g / PIECES].Some?)
    && (forall g: nat :: g in touched <==> g in was || (Overlaps(g, offset, pos) && Reached(blocks, g)))
  }

  /** The blocks are those there were and those of [offset, pos). */
  ghost predicate Reaches(was: seq<Option<Block>>, now: seq<Option<Block>>, total: nat, offset: nat, pos: nat)
    requires offset <= pos
  {
    forall i: nat :: SizeIn(now, i) ==
      if SizeIn(was, i).None? && offset < pos && Meets(i, offset, pos - offset) then Some(GivenSize(total, i)) else SizeIn(was, i)
  }

  lemma ReachOn(first: seq<Option<Block>>, was: seq<Option<Block>>, now: seq<Option<Block>>, total: nat, offset: nat,
                pos: nat, bno: nat, boff: nat, chunk: nat)
    requires offset <= pos == bno * BLOCK + boff && chunk > 0 && boff + chunk <= BLOCK
    requires Reaches(first, was, total, offset, pos) && Grown(was, now, total, bno)
    ensures Reaches(first, now, total, offset, pos + chunk)
  {
    hide GivenSize, SizeIn;
    forall i: nat ensures SizeIn(now, i) ==
        if SizeIn(first, i).None? && Meets(i, offset, pos + chunk - offset) then Some(GivenSize(total, i)) else SizeIn(first, i)
    {
      assert Meets(i, offset, pos + chunk - offset) <==> (offset < pos && Meets(i, offset, pos - offset)) || i == bno;
    }
  }

  /** A block that is full is flagged. */
  lemma FullIsFlagged(blocks: seq<Option<Block>>, touched: set<nat>, i: nat)
    requires Mirrors(blocks, touched) && AllCurrent(blocks)
    ensures Full(blocks, touched, i) ==> DoneAt(blocks, i)
    ensures Present(blocks, i) ==>
              && WellFormed(blocks[i].value)
              && (Full(blocks, touched, i) <==> AllMarked(blocks[i].value.pieces, PieceCount(blocks[i].value.size)))
  {
    hide Has, PieceCount;
    if Present(blocks, i) {
      var b := blocks[i].value;
      BlockAt(blocks, touched, i);
      if Full(blocks, touched, i) {
        forall p | 0 <= p < PieceCount(b.size) ensures Has(b.pieces, p) {
          assert (i * PIECES + p) / PIECES == i && (i * PIECES + p) % PIECES == p;
          assert Within(SizeIn(blocks, i), i * PIECES + p);
        }
      }
      if AllMarked(b.pieces, PieceCount(b.size)) {
        forall g: nat | g / PIECES == i && Within(SizeIn(blocks, i), g) ensures g in touched {
          assert g == i * PIECES + g % PIECES && Has(b.pieces, g % PIECES);
        }
      }
    }
  }

  lemma FlagsKept(blocks: seq<Option<Block>>, touched: set<nat>)
    requires Mirrors(blocks, touched) && AllCurrent(blocks)
    ensures Flags(blocks, blocks, touched)
  {
    hide Mirrors, AllCurrent, Full, DoneAt;
    forall i: nat ensures Full(blocks, touched, i) ==> DoneAt(blocks, i) {
      FullIsFlagged(blocks, touched, i);
    }
  }

  /** One block has been checked. */
  lemma FlagsOf(was: seq<Option<Block>>, now: seq<Option<Block>>, touched: set<nat>, bno: nat)
    requires Mirrors(now, touched) && AllCurrent(now)
    requires forall i: nat :: i != bno ==> (DoneAt(now, i) <==> DoneAt(was, i))
    requires DoneAt(was, bno) ==> DoneAt(now, bno)
    requires DoneAt(now, bno) && !DoneAt(was, bno) ==>
               WellFormed(now[bno].value) && AllMarked(now[bno].value.pieces, PieceCount(now[bno].value.size))
    ensures Flags(was, now, touched)
  {
    hide Mirrors, AllCurrent, Full, AllMarked, PieceCount;
    forall i: nat ensures DoneAt(now, i) <==> DoneAt(was, i) || Full(now, touched, i) {
      FullIsFlagged(now, touched, i);
    }
  }

  /** What was full is still full, so the flags of two steps are those of one. */
  lemma FlagsOn(first: seq<Option<Block>>, was: seq<Option<Block>>, now: seq<Option<Block>>, total: nat,
                before: set<nat>, touched: set<nat>, bno: nat)
    requires Flags(first, was, before) && Flags(was, now, touched) && before <= touched && Grown(was, now, total, bno)
    ensures Flags(first, now, touched)
  {
    hide DoneAt, GivenSize, PieceCount;
    forall i: nat | Full(was, before, i) ensures Full(now, touched, i) {
      assert SizeIn(was, i).Some? && SizeIn(now, i) == SizeIn(was, i);
    }
  }

  lemma RoundsUp(total: nat)
    ensures total < RoundUp(total)
  {
  }

  lemma NothingOverlaps(offset: nat)
    ensures forall g: nat :: !Overlaps(g, offset, offset)
  {
  }

  lemma OverlapsOn(g: nat, offset: nat, pos: nat, chunk: nat)
    requires offset <= pos && chunk > 0
    ensures Overlaps(g, offset, pos + chunk) <==> Overlaps(g, offset, pos) || Overlaps(g, pos, pos + chunk)
  {
  }

  lemma WalkOn(was: seq<Option<Block>>, now: seq<Option<Block>>, start: set<nat>, before: set<nat>, touched: set<nat>,
               total: nat, offset: nat, pos: nat, bno: nat, boff: nat, chunk: nat)
    requires Walked(was, start, before, offset, pos) && Grown(was, now, total, bno)
    requires offset <= pos == bno * BLOCK + boff && chunk > 0 && boff + chunk <= BLOCK
    requires forall g: nat :: g in touched <==> g in before || (Overlaps(g, pos, pos + chunk) && Reached(now, g))
    ensures Walked(now, start, touched, offset, pos + chunk)
  {
    hide Overlaps, PieceCount, GivenSize;
    forall g: nat
      ensures Overlaps(g, offset, pos + chunk) ==> g / PIECES < |now| && now[g / PIECES].Some?
      ensures g in touched <==> g in start || (Overlaps(g, offset, pos + chunk) && Reached(now, g))
    {
      OverlapsOn(g, offset, pos, chunk);
      ChunkPieces(g, bno, boff, chunk);
      var i := g / PIECES;
      assert SizeIn(was, i).Some? ==> SizeIn(now, i) == SizeIn(was, i);
      assert Overlaps(g, offset, pos) ==> (Reached(was, g) <==> Reached(now, g));
      assert i == bno ==> SizeIn(now, i).Some?;
    }
  }

  lemma InFileIsReached(blocks: seq<Option<Block>>, touched: set<nat>, was: set<nat>, total: nat, offset: nat, end: nat)
    requires Sized(blocks, total) && Walked(blocks, was, touched, offset, end)
    ensures forall g: nat :: InFile(total, g) ==> (g in touched <==> g in was || Overlaps(g, offset, end))
  {
    hide Overlaps, DoneOk;
    forall g: nat | InFile(total, g) && Overlaps(g, offset, end) ensures Reached(blocks, g) {
      assert SizeOk(blocks[g / PIECES].value, total, g / PIECES);
    }
  }

  lemma ReachedAt(blocks: seq<Option<Block>>, bno: nat)
    requires bno < |blocks| && blocks[bno].Some?
    ensures forall g: nat :: g / PIECES == bno ==> (Reached(blocks, g) <==> g % PIECES < PieceCount(blocks[bno].value.size))
  {
  }

  lemma SizeAt(blocks: seq<Option<Block>>, total: nat, bno: nat)
    requires Sized(blocks, total) && bno < |blocks| && blocks[bno].Some?
    ensures SizeOk(blocks[bno].value, total, bno)
  {
  }

  lemma Answer(blocks: seq<Option<Block>>, touched: set<nat>, total: nat, offset: nat, len: nat)
    requires Honest(blocks, touched, total) && RangeInFile(total, offset, len)
    ensures DoneAll(blocks, offset, len) <==> AllTouched(total, touched, offset, len)
  {
  }

  /** One block replaced by another version of it. */
  lemma Replaced(blocks: seq<Option<Block>>, total: nat, bno: nat, r: Block)
    requires bno < |blocks| && blocks[bno].Some? && AllCurrent(blocks) && WellFormed(r) && Current(r)
    ensures AllCurrent(blocks[bno := Some(r)])
    ensures Sized(blocks, total) && r.size == blocks[bno].value.size && (DoneOk(blocks[bno].value) ==> DoneOk(r)) ==>
              Sized(blocks[bno := Some(r)], total)
  {
    hide AllMarked;
    if Sized(blocks, total) {
      assert SizeOk(blocks[bno].value, total, bno);
    }
  }

  ghost predicate IsBitmap(m: seq<bv8>, touched: set<nat>, i: nat) {
    |m| == 32 && forall p :: 0 <= p < PIECES ==> (Has(m, p) <==> i * PIECES + p in touched)
  }

  /** The first `n` bitmaps of the file, all there, hold the touched pieces of their blocks. */
  ghost predicate Bitmaps(file: seq<bv8>, touched: set<nat>, n: nat) {
    && |file| == HEADER_LEN + BITMAP * n
    && forall rest: nat -> bv8, i: nat :: i < n ==> IsBitmap(Bitmap(file, rest, i), touched, i)
  }

  /** The touched pieces are those of the first `n` bitmaps that are read. */
  ghost predicate Restored(file: seq<bv8>, rest: nat -> bv8, touched: set<nat>, n: nat) {
    && (forall i: nat :: i < n ==> IsBitmap(Bitmap(file, rest, i), touched, i))
    && (forall g :: g in touched ==> g / PIECES < n)
  }

  lemma NoBitmaps(file: seq<bv8>, touched: set<nat>)
    requires |file| == HEADER_LEN
    ensures Bitmaps(file, touched, 0)
  {
  }

  lemma OneMoreBitmap(file: seq<bv8>, touched: set<nat>, n: nat, bitmap: seq<bv8>)
    requires Bitmaps(file, touched, n) && IsBitmap(bitmap, touched, n)
    ensures Bitmaps(file + bitmap, touched, n + 1)
  {
    hide Bitmap, Has;
    forall rest: nat -> bv8, i: nat | i < n + 1 ensures IsBitmap(Bitmap(file + bitmap, rest, i), touched, i) {
      if i < n {
        BitmapAppended(file, bitmap, rest, i);
      } else {
        BitmapAdded(file, bitmap, rest, i);
      }
    }
  }

  lemma RestoredOn(file: seq<bv8>, rest: nat -> bv8, before: set<nat>, touched: set<nat>, n: nat)
    requires Restored(file, rest, before, n)
    requires touched == before + set p | 0 <= p < PIECES && Has(Bitmap(file, rest, n), p) :: n * PIECES + p
    ensures Restored(file, rest, touched, n + 1)
  {
    hide Has, Bitmap;
    var bitmap := Bitmap(file, rest, n);
    var added := set p | 0 <= p < PIECES && Has(bitmap, p) :: n * PIECES + p;
    forall i: nat | i < n + 1 ensures IsBitmap(Bitmap(file, rest, i), touched, i) {
      assert i < n ==> IsBitmap(Bitmap(file, rest, i), before, i);
      forall p | 0 <= p < PIECES ensures Has(Bitmap(file, rest, i), p) <==> i * PIECES + p in touched {
        InAdded(bitmap, n, added, i, p);
        assert (i * PIECES + p) / PIECES == i;
      }
    }
    assert forall g :: g in added ==> g / PIECES == n;
  }

  /** A saved file restores what was touched. */
  lemma RestoresSaved(file: seq<bv8>, rest: nat -> bv8, saved: set<nat>, touched: set<nat>, n: nat)
    requires Bitmaps(file, saved, n) && Restored(file, rest, touched, n) && forall g :: g in saved ==> g / PIECES < n
    ensures touched == saved
  {
    hide Has, Bitmap;
    forall g: nat ensures g in touched <==> g in saved {
      var i, p := g / PIECES, g % PIECES;
      if i < n {
        assert IsBitmap(Bitmap(file, rest, i), saved, i) && IsBitmap(Bitmap(file, rest, i), touched, i);
        assert Has(Bitmap(file, rest, i), p) <==> i * PIECES + p in saved;
        assert Has(Bitmap(file, rest, i), p) <==> i * PIECES + p in touched;
        assert i * PIECES + p == g;
      }
    }
  }

  lemma NoneTouched(blocks: seq<Option<Block>>, touched: set<nat>, i: nat)
    requires Mirrors(blocks, touched) && !Present(blocks, i)
    ensures forall g :: g in touched ==> g / PIECES != i
  {
  }

  lemma BlankBlock(b: Block, i: nat, touched: set<nat>)
    requires Fits(b, i, touched) && forall g :: g in touched ==> g / PIECES != i
    ensures forall p :: 0 <= p < PIECES ==> !Has(b.pieces, p)
    ensures DoneOk(b) ==> !b.done
  {
    hide Has;
    forall p | 0 <= p < PIECES ensures !Has(b.pieces, p) {
      assert (i * PIECES + p) / PIECES == i;
    }
    assert !Has(b.pieces, 0);
  }

  lemma SavedBitmap(blocks: seq<Option<Block>>, touched: set<nat>, i: nat, bitmap: seq<bv8>)
    requires Mirrors(blocks, touched) && i < |blocks|
    requires bitmap == if blocks[i].Some? then blocks[i].value.pieces else seq(32, _ => 0)
    ensures IsBitmap(bitmap, touched, i)
  {
    if blocks[i].None? {
      forall p | 0 <= p < PIECES ensures !Has(bitmap, p) && i * PIECES + p !in touched {
        assert 0 & Bit(p % 8) == 0;
        assert (i * PIECES + p) / PIECES == i;
      }
    } else {
      assert Fits(blocks[i].value, i, touched);
    }
  }

  lemma MarkedBlock(blocks: seq<Option<Block>>, touched: set<nat>, bno: nat, r: Block, added: set<nat>)
    requires Mirrors(blocks, touched) && bno < |blocks| && blocks[bno].Some? && WellFormed(blocks[bno].value)
    requires WellFormed(r) && r.offset == bno * BLOCK % UINT32
    requires forall p :: 0 <= p < PIECES ==> Has(blocks[bno].value.pieces, p) ==> Has(r.pieces, p)
    requires added == set p | 0 <= p < PIECES && Has(r.pieces, p) :: bno * PIECES + p
    ensures Mirrors(blocks[bno := Some(r)], touched + added)
  {
    hide Has;
    var blocks', touched' := blocks[bno := Some(r)], touched + added;
    forall i | 0 <= i < |blocks'| && blocks'[i].Some? ensures Fits(blocks'[i].value, i, touched') {
      assert Fits(blocks[i].value, i, touched);
      forall p | 0 <= p < PIECES ensures Has(blocks'[i].value.pieces, p) <==> i * PIECES + p in touched' {
        InAdded(r.pieces, bno, added, i, p);
      }
    }
    assert forall g :: g in added ==> g / PIECES == bno;
  }

  lemma InAdded(m: seq<bv8>, bno: nat, added: set<nat>, i: nat, p: nat)
    requires |m| == 32 && p < PIECES && added == set q | 0 <= q < PIECES && Has(m, q) :: bno * PIECES + q
    ensures i * PIECES + p in added <==> i == bno && Has(m, p)
  {
    hide Has;
  }

  lemma AddedPieces(b: Block, r: Block, bno: nat, boff: nat, chunk: nat, touched: set<nat>, added: set<nat>)
    requires Fits(b, bno, touched) && |r.pieces| == 32 && r.size == b.size && chunk > 0 && boff + chunk <= BLOCK
    requires forall q :: 0 <= q < PIECES ==>
               (Has(r.pieces, q) <==>
                Has(b.pieces, q) || (boff / PIECE <= q <= (boff + chunk - 1) / PIECE && q < PieceCount(b.size)))
    requires added == set p | 0 <= p < PIECES && Has(r.pieces, p) :: bno * PIECES + p
    ensures forall g: nat :: g in touched + added <==>
              g in touched || (Overlaps(g, bno * BLOCK + boff, bno * BLOCK + boff + chunk) &&
                               g / PIECES == bno && g % PIECES < PieceCount(r.size))
  {
    hide Has, PieceCount, Overlaps;
    forall g: nat
      ensures g in touched + added <==>
                g in touched || (Overlaps(g, bno * BLOCK + boff, bno * BLOCK + boff + chunk) &&
                                 g / PIECES == bno && g % PIECES < PieceCount(r.size))
    {
      ChunkPieces(g, bno, boff, chunk);
      var q := g % PIECES;
      assert g == g / PIECES * PIECES + q;
      InAdded(r.pieces, bno, added, g / PIECES, q);
    }
  }

  function CountFor(size: nat): nat {
    var n := (size + BLOCK - 1) / BLOCK % UINT32;
    if n == 0 then 4096 else n
  }

  lemma NewBlockFits(b: Block, bno: nat, touched: set<nat>)
    requires WellFormed(b) && b.offset == bno * BLOCK % UINT32 && !b.done
    requires b.pieces == seq(32, _ => 0) && forall g: nat :: g / PIECES == bno ==> g !in touched
    ensures Fits(b, bno, touched) && DoneOk(b)
  {
    forall p | 0 <= p < PIECES ensures !Has(b.pieces, p) && bno * PIECES + p !in touched {
      assert (bno * PIECES + p) / PIECES == bno;
      assert 0 & Bit(p % 8) == 0;
    }
    assert !Has(b.pieces, 0);
  }

  lemma NewBlockSized(blocks: seq<Option<Block>>, total: nat, extent: nat, bno: nat, b: Block)
    requires Sized(blocks, extent) && bno < |blocks| && blocks[bno].None?
    requires extent == total || (Partial(total) && extent == RoundUp(total) && Present(blocks, total / BLOCK))
    requires WellFormed(b) && DoneOk(b) && b.size == GivenSize(total, bno)
    ensures Sized(blocks[bno := Some(b)], if Partial(total) && bno == total / BLOCK then RoundUp(total) else extent)
  {
    hide DoneOk, Canonical, RoundUp, InFile, GivenSize;
    var e := if Partial(total) && bno == total / BLOCK then RoundUp(total) else extent;
    if e != extent {
      SizedWider(blocks, total);
    }
    if Partial(total) {
      SameBlocks(total, bno);
    }
    if InFile(total, bno * PIECES) {
      GivenSizeRight(total, bno);
    }
    assert SizeOk(b, e, bno);
    forall i | 0 <= i < |blocks| && blocks[i].Some? ensures SizeOk(blocks[i].value, e, i) {
      assert Sized(blocks, e);
    }
  }
}
