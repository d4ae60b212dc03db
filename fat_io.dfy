/**
 * `FatIO`, the byte-addressed cursor the FAT file system reads and writes
 * the block device through. A transfer starting at `pos` is cut into
 * per-block pieces: the first from the offset within its block, the middle
 * ones whole blocks, the last up to the end of the transfer. The device is
 * seen through the block cache, which keeps it coherent; here it is the
 * sequence of its blocks.
 */
module FatIo {
  import opened Wrappers
  import opened Bytes
  import opened Errors
  import opened Addr
  import opened Chunks
  import opened BlockCaches

  /** `FS_IMG_SIZE`: 40 MiB. */
  const FS_IMG_SIZE: nat := 40 * 1024 * 1024

  /** `SeekFrom`. */
  datatype SeekFrom = Current(delta: I64) | Start(offset: Usize) | End(delta: I64)

  /**
   * What a transfer did: moved `n` bytes, or panicked because `pos` and the
   * length were both 0. The last block `pos + len - 1` then underflows: a
   * debug build panics on the subtraction, and a release build wraps it to
   * the top block, so the loop starts at block 0 with a whole block to copy
   * and panics slicing the empty buffer. Either way nothing is moved.
   * (`max_size - pos` cannot underflow: a seek never puts `pos` past
   * `max_size`.)
   */
  datatype Outcome = Moved(n: nat) | Underflow

  /** The cursor's target for a seek, an `i64` sum wrapping as it is cast to `usize`. */
  function SeekTarget(pos: Usize, maxSize: Usize, from: SeekFrom): Usize
  {
    match from
    case Current(d) => Wrap(pos + d)
    case Start(off) => off
    case End(d) => Wrap(maxSize + d)
  }

  /** A target before the start of the device wraps above any size below 2^63, so the seek fails. */
  lemma NegativeTargetRejected(pos: Usize, maxSize: Usize, from: SeekFrom)
    requires maxSize <= I64_MAX && pos <= maxSize
    requires from.Current? ==> pos + from.delta < 0
    requires from.End? ==> maxSize + from.delta < 0
    requires !from.Start?
    ensures SeekTarget(pos, maxSize, from) > maxSize
  {
  }

  /** Where block `k` starts on the device. */
  function BlockStart(k: nat): nat
  {
    k * BLOCK_SIZE
  }

  /** Byte `x` of the device lies in block `k`. */
  predicate InBlock(x: nat, k: nat)
  {
    BlockStart(k) <= x < BlockStart(k) + BLOCK_SIZE
  }

  /** The block that byte `x` of the device lies in. */
  function BlockOf(x: nat): (k: nat)
    ensures InBlock(x, k)
  {
    x / BLOCK_SIZE
  }

  lemma BlockBound(k: nat, n: nat)
    requires BlockStart(k) < BlockStart(n)
    ensures k < n
  {
  }

  /**
   * One piece of a transfer of `len` bytes from `start` whose last byte
   * lies in block `endId`: at `p` in block `k`, the piece fits in its
   * block and in what remains; a middle piece ends at the next block's
   * start, and the last piece takes all that remains.
   */
  lemma PieceStep(start: nat, len: nat, p: nat, k: nat, endId: nat, n: nat)
    requires start + len > 0 && InBlock(start + len - 1, endId)
    requires start <= p <= start + len && k <= endId && InBlock(p, k)
    requires n == if k == endId then start + len - p else BLOCK_SIZE - p % BLOCK_SIZE
    ensures p % BLOCK_SIZE == p - BlockStart(k)
    ensures p % BLOCK_SIZE + n <= BLOCK_SIZE && n <= start + len - p
    ensures k < endId ==> InBlock(p + n, k + 1)
    ensures k == endId ==> n == start + len - p
  {
    OffsetInBlock(p, k);
  }

  /** In block `k`, `x`'s offset is `x - BlockStart(k)`. */
  lemma OffsetInBlock(x: nat, k: nat)
    requires InBlock(x, k)
    ensures x % BLOCK_SIZE == x - BlockStart(k)
  {
    assert x == k * BLOCK_SIZE + (x - k * BLOCK_SIZE);
  }

  class FatIO {
    /** The device's blocks, as the block cache presents them. */
    var blocks: seq<Block>
    var pos: Usize
    const maxSize: Usize

    /** The cursor lies within the device, which holds at least `maxSize` bytes. */
    predicate Valid()
      reads this
    {
      maxSize <= BlockStart(|blocks|) && pos <= maxSize && maxSize <= I64_MAX
    }

    /** The device's bytes. */
    function Contents(): (r: seq<Byte>)
      reads this
      ensures |r| == BlockStart(|blocks|)
    {
      DeviceLength(blocks);
      Flatten(blocks)
    }

    /** `new`: the cursor at 0 over a device of `FS_IMG_SIZE` bytes. */
    constructor (device: seq<Block>)
      requires FS_IMG_SIZE <= BlockStart(|device|)
      ensures Valid() && blocks == device && pos == 0 && maxSize == FS_IMG_SIZE
    {
      blocks := device;
      pos := 0;
      maxSize := FS_IMG_SIZE;
    }

    /**
     * `read`: `min(max_size - pos, buf.len())` bytes from `pos` into the
     * front of `buf`, block by block; the cursor advances past them. A read
     * of nothing at position 0 underflows computing its last block.
     */
    method Read(buf: array<Byte>) returns (r: Outcome)
      requires Valid()
      modifies this, buf
      ensures Valid() && blocks == old(blocks)
      ensures r == Underflow <==> old(pos) == 0 && Min(maxSize, buf.Length) == 0
      ensures r == Underflow ==> pos == old(pos) && buf[..] == old(buf[..])
      ensures r.Moved? ==>
        r.n == Min(maxSize - old(pos), buf.Length) && pos == old(pos) + r.n &&
        buf[..] == Contents()[old(pos)..old(pos) + r.n] + old(buf[..])[r.n..]
    {
      var len := Min(maxSize - pos, buf.Length);
      if pos + len == 0 {
        return Underflow;
      }
      ReadBlocks(blocks, buf, pos, len);
      pos := pos + len;
      r := Moved(len);
    }

    /**
     * `write`: `min(max_size - pos, buf.len())` bytes from the front of
     * `buf` to the device at `pos`, block by block; the cursor advances
     * past them. A write of nothing at position 0 underflows computing its
     * last block.
     */
    method Write(buf: seq<Byte>) returns (r: Outcome)
      requires Valid()
      modifies this
      ensures Valid() && |blocks| == |old(blocks)|
      ensures r == Underflow <==> old(pos) == 0 && Min(maxSize, |buf|) == 0
      ensures r == Underflow ==> pos == old(pos) && blocks == old(blocks)
      ensures r.Moved? ==>
        r.n == Min(maxSize - old(pos), |buf|) && pos == old(pos) + r.n &&
        Contents() == old(Contents())[..old(pos)] + buf[..r.n] + old(Contents())[old(pos) + r.n..]
    {
      var len := Min(maxSize - pos, |buf|);
      if pos + len == 0 {
        return Underflow;
      }
      blocks := WriteBlocks(blocks, pos, buf, len);
      pos := pos + len;
      r := Moved(len);
    }

    /** `read` that moves nothing when there is nothing to move, instead of underflowing. */
    method ReadGuarded(buf: array<Byte>) returns (n: nat)
      requires Valid()
      modifies this, buf
      ensures Valid() && blocks == old(blocks)
      ensures n == Min(maxSize - old(pos), buf.Length) && pos == old(pos) + n
      ensures buf[..] == Contents()[old(pos)..old(pos) + n] + old(buf[..])[n..]
    {
      if Min(maxSize - pos, buf.Length) == 0 {
        return 0;
      }
      var r := Read(buf);
      n := r.n;
    }

    /** `write` that moves nothing when there is nothing to move, instead of underflowing. */
    method WriteGuarded(buf: seq<Byte>) returns (n: nat)
      requires Valid()
      modifies this
      ensures Valid() && |blocks| == |old(blocks)|
      ensures n == Min(maxSize - old(pos), |buf|) && pos == old(pos) + n
      ensures Contents() == old(Contents())[..old(pos)] + buf[..n] + old(Contents())[old(pos) + n..]
    {
      if Min(maxSize - pos, |buf|) == 0 {
        assert old(Contents())[..old(pos)] + buf[..0] + old(Contents())[old(pos)..] == old(Contents());
        return 0;
      }
      var r := Write(buf);
      n := r.n;
    }

    /** `seek`: to the target if it lies within the device, otherwise `IOUnexpectedEof` with the cursor kept. */
    method Seek(from: SeekFrom) returns (r: Result<Usize, KernelError>)
      requires Valid()
      modifies this
      ensures Valid() && blocks == old(blocks)
      ensures SeekTarget(old(pos), maxSize, from) > maxSize ==> r == Err(IOUnexpectedEof) && pos == old(pos)
      ensures SeekTarget(old(pos), maxSize, from) <= maxSize ==>
        r == Ok(SeekTarget(old(pos), maxSize, from)) && pos == SeekTarget(old(pos), maxSize, from)
    {
      var newPos := match from
        case Current(d) => Wrap(pos + d)
        case Start(off) => off
        case End(d) => Wrap(maxSize + d);
      if newPos > maxSize {
        return Err(IOUnexpectedEof);
      }
      pos := newPos;
      r := Ok(pos);
    }
  }

  /** The device holds `BLOCK_SIZE` bytes per block. */
  lemma DeviceLength(bs: seq<Block>)
    ensures |Flatten(bs)| == BlockStart(|bs|)
  {
    BlocksUniform(bs);
    FlattenLength(bs, BLOCK_SIZE);
  }

  lemma BlocksUniform(bs: seq<Block>)
    ensures Uniform(bs, BLOCK_SIZE)
  {
  }

  /** The piece of block `k` from `off` is that of the device from `BlockStart(k) + off`. */
  lemma ReadPiece(bs: seq<Block>, k: nat, off: nat, len: nat)
    requires k < |bs| && off + len <= BLOCK_SIZE
    ensures BlockStart(k) + off + len <= |Flatten(bs)|
    ensures Flatten(bs)[BlockStart(k) + off..BlockStart(k) + off + len] == bs[k][off..off + len]
  {
    BlocksUniform(bs);
    FlattenSlice(bs, k, off, len);
    UnitStartUniform(bs, BLOCK_SIZE, k);
  }

  /** Writing a piece into block `k` at `off` writes the device at `BlockStart(k) + off`. */
  lemma WritePiece(bs: seq<Block>, k: nat, off: nat, piece: seq<Byte>)
    requires k < |bs| && off + |piece| <= BLOCK_SIZE
    ensures BlockStart(k) + off + |piece| <= |Flatten(bs)|
    ensures Flatten(bs[k := bs[k][..off] + piece + bs[k][off + |piece|..]]) ==
      Flatten(bs)[..BlockStart(k) + off] + piece + Flatten(bs)[BlockStart(k) + off + |piece|..]
  {
    BlocksUniform(bs);
    FlattenUpdate(bs, k, off, piece);
    UnitStartUniform(bs, BLOCK_SIZE, k);
  }

  /**
   * The loop of `read`: `len` device bytes from `start` into the front of
   * `buf`, one block piece at a time from block `start / BLOCK_SIZE` to
   * the block of the last byte, `(start + len - 1) / BLOCK_SIZE`.
   */
  method ReadBlocks(bs: seq<Block>, buf: array<Byte>, start: nat, len: nat)
    requires start + len > 0 && start + len <= BlockStart(|bs|) && len <= buf.Length
    modifies buf
    ensures start + len <= |Flatten(bs)|
    ensures buf[..] == Flatten(bs)[start..start + len] + old(buf[..])[len..]
  {
    ghost var data := Flatten(bs);
    DeviceLength(bs);
    ghost var before := buf[..];
    FilledStart(data, start, before);
    ReadLoop(bs, buf, start, len, data, before);
    FilledAll(buf[..], data, start, len, before);
  }

  /** The block-by-block loop of `read`, from `start` on, filling `buf` from its front. */
  method ReadLoop(bs: seq<Block>, buf: array<Byte>, start: nat, len: nat, ghost data: seq<Byte>, ghost before: seq<Byte>)
    requires start + len > 0 && start + len <= BlockStart(|bs|) && len <= buf.Length == |before|
    requires data == Flatten(bs) && |data| == BlockStart(|bs|) && Filled(buf[..], data, start, start, before)
    modifies buf
    ensures Filled(buf[..], data, start, start + len, before)
  {
    var startId := BlockOf(start);
    var endId := BlockOf(start + len - 1);
    BlockBound(endId, |bs|);
    var blockPtr: nat := start;
    var bufPtr: nat := 0;
    var remLen: nat := len;
    for blockId := startId to endId + 1
      invariant blockPtr == start + bufPtr && remLen + bufPtr == len
      invariant Reading(bs, buf[..], data, before, start, len, endId, blockId, blockPtr)
    {
      var readLen := ReadNext(bs, buf, start, len, blockPtr, blockId, endId, data, before);
      blockPtr := blockPtr + readLen;
      bufPtr := bufPtr + readLen;
      remLen := remLen - readLen;
    }
  }

  /**
   * The loop of `write`: the first `len` bytes of `buf` onto the device
   * from `start`, one block piece at a time.
   */
  method WriteBlocks(bs: seq<Block>, start: nat, buf: seq<Byte>, len: nat) returns (r: seq<Block>)
    requires start + len > 0 && start + len <= BlockStart(|bs|) && len <= |buf|
    ensures |r| == |bs| && start + len <= |Flatten(bs)|
    ensures Flatten(r) == Flatten(bs)[..start] + buf[..len] + Flatten(bs)[start + len..]
  {
    ghost var data := Flatten(bs);
    DeviceLength(bs);
    SplicedStart(data, start);
    r := WriteLoop(bs, start, buf, len, data);
  }

  /** The block-by-block loop of `write`, from `start` on, taking bytes from the front of `buf`. */
  method WriteLoop(bs: seq<Block>, start: nat, buf: seq<Byte>, len: nat, ghost data: seq<Byte>) returns (r: seq<Block>)
    requires start + len > 0 && start + len <= BlockStart(|bs|) && len <= |buf|
    requires data == Flatten(bs) && |data| == BlockStart(|bs|) && Spliced(data, data, start, [], start)
    ensures |r| == |bs| && Spliced(Flatten(r), data, start, buf[..len], start + len)
  {
    r := bs;
    var startId := BlockOf(start);
    var endId := BlockOf(start + len - 1);
    BlockBound(endId, |bs|);
    var blockPtr: nat := start;
    var bufPtr: nat := 0;
    var remLen: nat := len;
    assert buf[..0] == [];
    for blockId := startId to endId + 1
      invariant blockPtr == start + bufPtr && remLen + bufPtr == len && |r| == |bs|
      invariant Writing(bs, r, data, buf, start, len, endId, blockId, blockPtr)
    {
      var writeLen;
      r, writeLen := WriteNext(r, buf, start, len, blockPtr, blockId, endId, bs, data);
      blockPtr := blockPtr + writeLen;
      bufPtr := bufPtr + writeLen;
      remLen := remLen - writeLen;
    }
  }

  /**
   * Where the loop of `write` stands at `p`, about to write block `k`: the
   * device `cur` holds the original bytes `data` with `start..p` replaced
   * by the front of `buf`, and `p` lies in block `k`, or, past the last
   * block `endId`, is the end of the transfer.
   */
  ghost predicate Writing(bs: seq<Block>, cur: seq<Block>, data: seq<Byte>, buf: seq<Byte>,
                          start: nat, len: nat, endId: nat, k: nat, p: nat)
  {
    data == Flatten(bs) && |data| == BlockStart(|bs|) && |cur| == |bs| && endId < |bs| &&
    start + len > 0 && InBlock(start + len - 1, endId) && len <= |buf| &&
    start <= p <= start + len &&
    (k <= endId ==> InBlock(p, k)) && (k > endId ==> p == start + len) &&
    Spliced(Flatten(cur), data, start, buf[..p - start], p)
  }

  /**
   * One turn of the loop of `write`, at `p` in block `k`: the piece up to
   * the block's end, or all that remains in the last block, is written.
   */
  method WriteNext(cur: seq<Block>, buf: seq<Byte>, start: nat, len: nat, p: nat, k: nat, endId: nat,
                   ghost bs: seq<Block>, ghost data: seq<Byte>) returns (r: seq<Block>, n: nat)
    requires k <= endId && Writing(bs, cur, data, buf, start, len, endId, k, p)
    ensures p + n <= start + len && |r| == |cur|
    ensures Writing(bs, r, data, buf, start, len, endId, k + 1, p + n)
  {
    var off := p % BLOCK_SIZE;
    n := if k == endId then start + len - p else BLOCK_SIZE - off;
    PieceStep(start, len, p, k, endId, n);
    r := WriteBlockPiece(cur, k, off, buf, p - start, n, start, p, data);
  }

  /** Writes bytes `at..at + n` of `buf` into block `k` at `off`: the written prefix grows by them. */
  method WriteBlockPiece(bs: seq<Block>, k: nat, off: nat, buf: seq<Byte>, at: nat, n: nat,
                         ghost start: nat, ghost p: nat, ghost data: seq<Byte>) returns (r: seq<Block>)
    requires k < |bs| && off + n <= BLOCK_SIZE && p == BlockStart(k) + off && at + n <= |buf|
    requires start <= p && p + n <= |data| && p == start + at
    requires Spliced(Flatten(bs), data, start, buf[..at], p)
    ensures |r| == |bs|
    ensures Spliced(Flatten(r), data, start, buf[..at + n], p + n)
  {
    var piece := buf[at..at + n];
    WritePiece(bs, k, off, piece);
    r := bs[k := bs[k][..off] + piece + bs[k][off + n..]];
    SpliceStep(data[..start], buf[..at], piece, data[p..], n);
    assert buf[..at] + piece == buf[..at + n];
    assert data[p..][n..] == data[p + n..];
  }

  /**
   * Where the loop of `read` stands at `p`, about to read block `k`: the
   * buffer holds the device bytes `start..p`, and `p` lies in block `k`,
   * or, past the last block `endId`, is the end of the transfer.
   */
  ghost predicate Reading(bs: seq<Block>, b: seq<Byte>, data: seq<Byte>, before: seq<Byte>,
                          start: nat, len: nat, endId: nat, k: nat, p: nat)
  {
    data == Flatten(bs) && |data| == BlockStart(|bs|) && endId < |bs| &&
    start + len > 0 && InBlock(start + len - 1, endId) && len <= |before| &&
    start <= p <= start + len &&
    (k <= endId ==> InBlock(p, k)) && (k > endId ==> p == start + len) &&
    Filled(b, data, start, p, before)
  }

  /**
   * One turn of the loop of `read`, at `p` in block `k`: the piece up to the
   * block's end, or all that remains in the last block, is read into `buf`.
   */
  method ReadNext(bs: seq<Block>, buf: array<Byte>, start: nat, len: nat, p: nat, k: nat, endId: nat,
                  ghost data: seq<Byte>, ghost before: seq<Byte>) returns (n: nat)
    requires k <= endId && buf.Length == |before|
    requires Reading(bs, buf[..], data, before, start, len, endId, k, p)
    modifies buf
    ensures p + n <= start + len
    ensures Reading(bs, buf[..], data, before, start, len, endId, k + 1, p + n)
  {
    var off := p % BLOCK_SIZE;
    n := if k == endId then start + len - p else BLOCK_SIZE - off;
    PieceStep(start, len, p, k, endId, n);
    ReadBlockPiece(bs, k, off, n, buf, start, p, data, before);
  }

  /**
   * Reads the piece of block `k` from `off` into `buf` right after its
   * filled front: the filled front grows by the device bytes at `p`.
   */
  method ReadBlockPiece(bs: seq<Block>, k: nat, off: nat, n: nat, buf: array<Byte>,
                        start: nat, p: nat, ghost data: seq<Byte>, ghost before: seq<Byte>)
    requires k < |bs| && off + n <= BLOCK_SIZE && p == BlockStart(k) + off && data == Flatten(bs)
    requires start <= p && p + n <= |data| && (p - start) + n <= buf.Length == |before|
    requires Filled(buf[..], data, start, p, before)
    modifies buf
    ensures Filled(buf[..], data, start, p + n, before)
  {
    ReadPiece(bs, k, off, n);
    ghost var was := buf[..];
    CopyInto(buf, p - start, bs[k][off..off + n]);
    CopyStep(data, start, p, n, before, was);
  }

  /**
   * Writing bytes and reading them back from the same position returns
   * them, as many as fit below `max_size`.
   */
  method WriteThenRead(io: FatIO, bytes: seq<Byte>, buf: array<Byte>) returns (n: nat)
    requires io.Valid() && buf.Length == |bytes|
    modifies io, buf
    ensures n == Min(io.maxSize - old(io.pos), |bytes|)
    ensures buf[..n] == bytes[..n] && io.pos == old(io.pos) + n
  {
    var start := io.pos;
    n := io.WriteGuarded(bytes);
    var s := io.Seek(Start(start));
    var m := io.ReadGuarded(buf);
    assert io.Contents()[start..start + n] == bytes[..n];
  }

  /** At position 0, reading into an empty buffer underflows as written, and moves nothing when guarded. */
  method EmptyReadAtStart(device: seq<Block>) returns (written: Outcome, guarded: nat)
    requires FS_IMG_SIZE <= BlockStart(|device|)
    ensures written == Underflow && guarded == 0
  {
    var io := new FatIO(device);
    var empty := new Byte[0];
    written := io.Read(empty);
    guarded := io.ReadGuarded(empty);
  }
}
