/**
 The layout of a `.meta` file: a magic number, the number of blocks, the block size and the
 total size in little-endian order, then 32 bytes of bitmap for each block.
 */
module MetaFile {
  import opened Positional

  const HEADER_LEN: nat := 32
  const BITMAP: nat := 32
  const BLOCK_SIZE: nat := 262144

  // DLPROXY_META and four zero bytes
  const MAGIC: seq<bv8> := [68, 76, 80, 82, 79, 88, 89, 95, 77, 69, 84, 65, 0, 0, 0, 0]

  /** The low `k` bytes of a number, least significant first. */
  function Le(n: nat, k: nat): (b: seq<bv8>)
    ensures |b| == k
  {
    if k == 0 then [] else [(n % 256) as bv8] + Le(n / 256, k - 1)
  }

  function OfLe(b: seq<bv8>): nat {
    if b == [] then 0 else b[0] as nat + 256 * OfLe(b[1..])
  }

  lemma ByteAndBack(n: nat, v: bv8)
    ensures n < 256 ==> (n as bv8) as nat == n
    ensures (v as nat) as bv8 == v && v as nat < 256
  {
  }

  /** A number that fits its field is read back. */
  lemma {:induction false} OfLeOfNumber(n: nat, k: nat)
    requires n < Pow(256, k)
    ensures OfLe(Le(n, k)) == n
  {
    if k > 0 {
      ByteAndBack(n % 256, 0);
      OfLeOfNumber(n / 256, k - 1);
      assert Le(n, k)[1..] == Le(n / 256, k - 1);
    }
  }

  /** Only the bytes of a number are read as that number. */
  lemma {:induction false} NumberOfBytes(b: seq<bv8>)
    ensures Le(OfLe(b), |b|) == b
  {
    if b != [] {
      NumberOfBytes(b[1..]);
      ByteAndBack(0, b[0]);
      var n := OfLe(b);
      assert n % 256 == b[0] as nat && n / 256 == OfLe(b[1..]);
      assert b == [b[0]] + b[1..];
    }
  }

  function Header(count: nat, total: nat): (b: seq<bv8>)
    ensures |b| == HEADER_LEN
  {
    MAGIC + Le(count, 4) + Le(BLOCK_SIZE, 4) + Le(total, 8)
  }

  lemma FieldSizes()
    ensures Pow(256, 4) == 0x1_0000_0000 && Pow(256, 8) == 0x1_0000_0000_0000_0000
  {
    assert Pow(256, 2) == 65536 && Pow(256, 4) == 65536 * 65536;
    PowAdd(256, 4, 4);
  }

  /** What meta_load asks of the first 32 bytes, field by field. */
  predicate Matches(file: seq<bv8>, count: nat, total: nat) {
    && |file| >= HEADER_LEN && file[..16] == MAGIC && OfLe(file[16..20]) == count
    && OfLe(file[20..24]) == BLOCK_SIZE && OfLe(file[24..32]) == total
  }

  lemma FieldIs(b: seq<bv8>, n: nat)
    requires n < Pow(256, |b|)
    ensures OfLe(b) == n <==> b == Le(n, |b|)
  {
    NumberOfBytes(b);
    OfLeOfNumber(n, |b|);
  }

  /** The header matches if and only if it is the one that would be saved. */
  lemma MatchesIff(file: seq<bv8>, count: nat, total: nat)
    requires count < 0x1_0000_0000 && total < 0x1_0000_0000_0000_0000
    ensures Matches(file, count, total) <==> |file| >= HEADER_LEN && file[..HEADER_LEN] == Header(count, total)
  {
    hide Le, OfLe, Pow;
    if |file| >= HEADER_LEN {
      FieldSizes();
      FieldIs(file[16..20], count);
      FieldIs(file[20..24], BLOCK_SIZE);
      FieldIs(file[24..32], total);
      Fields(file, Header(count, total));
    }
  }

  lemma Fields(file: seq<bv8>, header: seq<bv8>)
    requires |file| >= HEADER_LEN == |header|
    ensures file[..HEADER_LEN] == header <==>
            file[..16] == header[..16] && file[16..20] == header[16..20] && file[20..24] == header[20..24] &&
            file[24..32] == header[24..32]
  {
    assert file[..32] == file[..16] + file[16..20] + file[20..24] + file[24..32];
    assert header == header[..16] + header[16..20] + header[20..24] + header[24..32];
  }

  /** Bitmap `i` as meta_load copies it; `rest` is the memory past a file that is too short. */
  function Bitmap(file: seq<bv8>, rest: nat -> bv8, i: nat): (m: seq<bv8>)
    ensures |m| == BITMAP
  {
    seq(BITMAP, k requires 0 <= k < BITMAP =>
      var at := HEADER_LEN + BITMAP * i + k; if at < |file| then file[at] else rest(at))
  }

  lemma BitmapAppended(file: seq<bv8>, more: seq<bv8>, rest: nat -> bv8, i: nat)
    requires HEADER_LEN + BITMAP * (i + 1) <= |file|
    ensures Bitmap(file + more, rest, i) == Bitmap(file, rest, i)
  {
  }

  lemma BitmapAdded(file: seq<bv8>, m: seq<bv8>, rest: nat -> bv8, i: nat)
    requires HEADER_LEN + BITMAP * i == |file| && |m| == BITMAP
    ensures Bitmap(file + m, rest, i) == m
  {
  }
}
