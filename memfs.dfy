/**
 * `MemFile`, a file held in memory frames, created while the system
 * starts. Its size is a multiple of `PAGE_SIZE`; a transfer starting at
 * the cursor is cut into per-frame pieces, the first from the offset
 * within its frame, the last up to the end of the transfer.
 *
 * The transfers as written copy every piece with `copy_from_slice`
 * between the piece and the WHOLE buffer, so they only complete when the
 * transfer is a single piece as long as the buffer; `Read` and `Write`
 * model them so. `ReadPiecewise` and `WritePiecewise` copy each piece to
 * its place in the buffer and saturate `max_size - pos`.
 *
 * `Read` and `Write` take the debug-build view of the two `usize`
 * subtractions `max_size - pos` and `read_end - 1`: when either goes below
 * zero they panic (`Underflow`). A release build wraps them instead, so a
 * cursor past `max_size` and a zero-length transfer at position 0 behave
 * differently there (the second panics indexing past the frames).
 */
module MemFs {
  import opened Wrappers
  import opened Bytes
  import opened Addr
  import opened Chunks

  function ZeroPage(): seq<Byte>
  {
    seq(PAGE_SIZE, _ => 0)
  }

  /** The bytes of one allocated frame. */
  type FrameBytes = f: seq<Byte> | |f| == PAGE_SIZE witness ZeroPage()

  /** `SeekWhence`. */
  datatype SeekWhence = Set | Current | End

  /** Why a transfer panics. */
  datatype Fault =
    | Underflow       // a `usize` subtraction below zero
    | OutOfBounds     // `frames[i]` past the last frame
    | LengthMismatch  // `copy_from_slice` between slices of different lengths

  /** What a transfer as written did: moved `n` bytes, or panicked. */
  datatype Outcome = Done(n: nat) | Panicked(fault: Fault)

  /** Where frame `k` starts in the file. */
  function PageStart(k: nat): nat
  {
    k * PAGE_SIZE
  }

  /** Byte `x` of the file lies in frame `k`. */
  predicate InPage(x: nat, k: nat)
  {
    PageStart(k) <= x < PageStart(k) + PAGE_SIZE
  }

  /** `x` lies in frame `x / PAGE_SIZE`. */
  lemma PageOf(x: nat)
    ensures InPage(x, x / PAGE_SIZE)
  {
  }

  lemma PageBound(k: nat, n: nat)
    requires PageStart(k) < PageStart(n)
    ensures k < n
  {
  }

  /** In frame `k`, `x`'s offset `x & (PAGE_SIZE - 1)` is `x - PageStart(k)`. */
  lemma OffsetInPage(x: nat, k: nat)
    requires InPage(x, k)
    ensures x % PAGE_SIZE == x - PageStart(k)
  {
    assert x == k * PAGE_SIZE + (x - k * PAGE_SIZE);
  }

  /**
   * One piece of a transfer of `len` bytes from `start` whose last byte
   * lies in frame `endIdx`: at `p` in frame `k`, the piece
   * `min(PAGE_SIZE - off, end - p)` fits in its frame; a middle piece ends
   * at the next frame's start, and the last piece takes all that remains.
   */
  lemma PieceStep(start: nat, len: nat, p: nat, k: nat, endIdx: nat, n: nat)
    requires start + len > 0 && InPage(start + len - 1, endIdx)
    requires start <= p <= start + len && k <= endIdx && InPage(p, k)
    requires n == Min(PAGE_SIZE - p % PAGE_SIZE, start + len - p)
    ensures p % PAGE_SIZE == p - PageStart(k)
    ensures p % PAGE_SIZE + n <= PAGE_SIZE && n <= start + len - p
    ensures k < endIdx ==> InPage(p + n, k + 1)
    ensures k == endIdx ==> n == start + len - p
  {
    OffsetInPage(p, k);
    if k < endIdx {
      assert PageStart(k + 1) <= PageStart(endIdx);
    }
  }

  /** Frame `f` with `bytes` copied in at `off`. */
  function Splice(f: FrameBytes, off: nat, bytes: seq<Byte>): FrameBytes
    requires off + |bytes| <= PAGE_SIZE
  {
    f[..off] + bytes + f[off + |bytes|..]
  }

  /** The file holds `PAGE_SIZE` bytes per frame. */
  lemma FramesLength(fs: seq<FrameBytes>)
    ensures |Flatten(fs)| == PageStart(|fs|)
  {
    FramesUniform(fs);
    FlattenLength(fs, PAGE_SIZE);
  }

  lemma FramesUniform(fs: seq<FrameBytes>)
    ensures Uniform(fs, PAGE_SIZE)
  {
  }

  /** The piece of frame `k` from `off` is that of the file from `PageStart(k) + off`. */
  lemma FrameSlice(fs: seq<FrameBytes>, k: nat, off: nat, len: nat)
    requires k < |fs| && off + len <= PAGE_SIZE
    ensures PageStart(k) + off + len <= |Flatten(fs)|
    ensures Flatten(fs)[PageStart(k) + off..PageStart(k) + off + len] == fs[k][off..off + len]
  {
    FramesUniform(fs);
    FlattenSlice(fs, k, off, len);
    UnitStartUniform(fs, PAGE_SIZE, k);
  }

  /** The bytes from `x` on in its own frame `k` are those at the same offset in the frame. */
  lemma PieceAt(fs: seq<FrameBytes>, k: nat, x: nat, len: nat)
    requires k < |fs| && InPage(x, k) && x % PAGE_SIZE + len <= PAGE_SIZE
    ensures x + len <= |Flatten(fs)|
    ensures Flatten(fs)[x..x + len] == fs[k][x % PAGE_SIZE..x % PAGE_SIZE + len]
  {
    OffsetInPage(x, k);
    FrameSlice(fs, k, x % PAGE_SIZE, len);
  }

  /** Writing a piece at `x` in its own frame `k` writes the file at `x`. */
  lemma UpdateAt(fs: seq<FrameBytes>, k: nat, x: nat, piece: seq<Byte>)
    requires k < |fs| && InPage(x, k) && x % PAGE_SIZE + |piece| <= PAGE_SIZE
    ensures x + |piece| <= |Flatten(fs)|
    ensures Flatten(fs[k := Splice(fs[k], x % PAGE_SIZE, piece)]) == Flatten(fs)[..x] + piece + Flatten(fs)[x + |piece|..]
  {
    OffsetInPage(x, k);
    FrameUpdate(fs, k, x % PAGE_SIZE, piece);
  }

  /** Writing a piece into frame `k` at `off` writes the file at `PageStart(k) + off`. */
  lemma FrameUpdate(fs: seq<FrameBytes>, k: nat, off: nat, piece: seq<Byte>)
    requires k < |fs| && off + |piece| <= PAGE_SIZE
    ensures PageStart(k) + off + |piece| <= |Flatten(fs)|
    ensures Flatten(fs[k := fs[k][..off] + piece + fs[k][off + |piece|..]]) ==
      Flatten(fs)[..PageStart(k) + off] + piece + Flatten(fs)[PageStart(k) + off + |piece|..]
  {
    FramesUniform(fs);
    FlattenUpdate(fs, k, off, piece);
    UnitStartUniform(fs, PAGE_SIZE, k);
  }

  /**
   * Where a seek puts the cursor, or `None` when it refuses: `Set` takes
   * the offset unchecked; `Current` and `End` add the offset, read as an
   * `isize`, to the cursor or to `max_size`, and refuse a result below 0
   * or above `max_size`.
   */
  function SeekResult(pos: Usize, maxSize: Usize, offset: Usize, whence: SeekWhence): Option<Usize>
  {
    match whence
    case Set => Some(offset)
    case Current =>
      var target: int := WrapIsize(AsIsize(pos) + AsIsize(offset));
      if target < 0 || target > AsIsize(maxSize) then None else Some(target)
    case End =>
      var target: int := WrapIsize(AsIsize(maxSize) + AsIsize(offset));
      if target < 0 || target > AsIsize(maxSize) then None else Some(target)
  }

  /** A relative seek never leaves the file. */
  lemma RelativeSeekStaysInFile(pos: Usize, maxSize: Usize, offset: Usize, whence: SeekWhence)
    requires whence != Set && maxSize <= I64_MAX
    ensures SeekResult(pos, maxSize, offset, whence).Some? ==> SeekResult(pos, maxSize, offset, whence).value <= maxSize
  {
  }

  /**
   * Every position in the file is reachable by a relative seek: from the
   * cursor with the difference as the offset, and from the end likewise.
   */
  lemma RelativeSeekReachesAll(pos: Usize, maxSize: Usize, target: Usize)
    requires pos <= I64_MAX && maxSize <= I64_MAX && target <= maxSize
    ensures SeekResult(pos, maxSize, Wrap(target - pos), Current) == Some(target)
    ensures SeekResult(pos, maxSize, Wrap(target - maxSize), End) == Some(target)
  {
    if target < pos {
      assert Wrap(target - pos) == target - pos + U64;
    }
    if target < maxSize {
      assert Wrap(target - maxSize) == target - maxSize + U64;
    }
  }

  /** A relative seek whose sum lies below 0 is refused. */
  lemma SeekBelowZeroRefused(pos: Usize, maxSize: Usize, offset: Usize)
    requires I64_MIN <= AsIsize(pos) + AsIsize(offset) < 0
    ensures SeekResult(pos, maxSize, offset, Current) == None
  {
  }

  class MemFile {
    /** The allocated frames holding the file's bytes. */
    var frames: seq<FrameBytes>
    /** The cursor. */
    var pos: Usize
    /** The file's size limit. */
    const maxSize: Usize

    /** The frames hold at least `max_size` bytes. The cursor may lie past them. */
    predicate Valid()
      reads this
    {
      maxSize <= PageStart(|frames|)
    }

    /** The file's bytes. */
    function Contents(): (r: seq<Byte>)
      reads this
      ensures |r| == PageStart(|frames|)
    {
      FramesLength(frames);
      Flatten(frames)
    }

    /** `get_size`: the number of bytes the frames hold. */
    function Size(): (r: nat)
      reads this
      ensures r == |Contents()|
    {
      |frames| * PAGE_SIZE
    }

    /**
     * `new` as written: `Vec::with_capacity` then `fill_with` on the empty
     * vector, which fills nothing, so the file has no frames.
     */
    constructor (limit: Usize)
      ensures frames == [] && pos == 0 && maxSize == limit
      ensures Size() == 0
    {
      frames := [];
      pos := 0;
      maxSize := limit;
    }

    /** `new` with its `limit / PAGE_SIZE` frames allocated; `initial` is what they hold when allocated. */
    constructor Allocated(limit: Usize, initial: seq<FrameBytes>)
      requires limit % PAGE_SIZE == 0 && |initial| == limit / PAGE_SIZE
      ensures Valid() && frames == initial && pos == 0 && maxSize == limit
      ensures Size() == limit
    {
      frames := initial;
      pos := 0;
      maxSize := limit;
    }

    /**
     * `read` as written. It panics when `max_size - pos` or
     * `pos + len - 1` underflows, when a frame index runs past the frames,
     * and when a piece is not as long as `buf`; it completes only when the
     * transfer is one piece that fills `buf`.
     */
    method Read(buf: array<Byte>) returns (r: Outcome)
      modifies this, buf
      ensures frames == old(frames)
      ensures r == Panicked(Underflow) <==>
        old(pos) > maxSize || old(pos) + Min(buf.Length, maxSize - old(pos)) == 0
      ensures r.Done? ==> r.n == Min(buf.Length, maxSize - old(pos)) && pos == old(pos) + r.n
      ensures r.Done? && r.n > 0 ==>
        r.n == buf.Length && old(pos) % PAGE_SIZE + r.n <= PAGE_SIZE &&
        old(pos) + r.n <= |Contents()| && buf[..] == Contents()[old(pos)..old(pos) + r.n]
      ensures r == Done(0) ==> buf[..] == old(buf[..])
    {
      if pos > maxSize {
        return Panicked(Underflow);
      }
      var readLen := Min(buf.Length, maxSize - pos);
      var readEnd := pos + readLen;
      if readEnd == 0 {
        return Panicked(Underflow);
      }
      ghost var data := Flatten(frames);
      var startIdx: nat := pos / PAGE_SIZE;
      var endIdx: nat := (readEnd - 1) / PAGE_SIZE;
      PageOf(pos);
      PageOf(readEnd - 1);
      var p: nat := pos;
      for i := startIdx to endIdx + 1
        invariant frames == old(frames) && pos == old(pos)
        invariant i == startIdx ==> p == old(pos)
        invariant i > startIdx ==> p == readEnd
        invariant i > startIdx && readLen > 0 ==>
          readLen == buf.Length && old(pos) % PAGE_SIZE + readLen <= PAGE_SIZE &&
          readEnd <= |data| && buf[..] == data[old(pos)..readEnd]
        invariant readLen == 0 ==> buf[..] == old(buf[..])
      {
        if i >= |frames| {
          return Panicked(OutOfBounds);
        }
        var off := p % PAGE_SIZE;
        var len := Min(PAGE_SIZE - off, readEnd - p);
        assert i > startIdx ==> len == 0 && readLen > 0;
        if len != buf.Length {
          return Panicked(LengthMismatch);
        }
        if i == startIdx {
          PieceAt(frames, i, p, len);
        }
        CopyInto(buf, 0, frames[i][off..off + len]);
        assert buf[..] == buf[0..len];
        p := p + len;
      }
      pos := p;
      r := Done(readLen);
    }

    /**
     * `write` as written, with the same panics as `read`; it completes only
     * when the transfer is one piece that takes all of `buf`.
     */
    method Write(buf: seq<Byte>) returns (r: Outcome)
      modifies this
      ensures |frames| == |old(frames)|
      ensures r == Panicked(Underflow) <==>
        old(pos) > maxSize || old(pos) + Min(|buf|, maxSize - old(pos)) == 0
      ensures r.Done? ==> r.n == Min(|buf|, maxSize - old(pos)) && pos == old(pos) + r.n
      ensures r.Done? && r.n == 0 ==> frames == old(frames)
      ensures r.Done? && r.n > 0 ==>
        r.n == |buf| && old(pos) % PAGE_SIZE + r.n <= PAGE_SIZE && old(pos) + r.n <= |old(Contents())| &&
        Contents() == old(Contents())[..old(pos)] + buf + old(Contents())[old(pos) + r.n..]
    {
      if pos > maxSize {
        return Panicked(Underflow);
      }
      var writeLen := Min(|buf|, maxSize - pos);
      var writeEnd := pos + writeLen;
      if writeEnd == 0 {
        return Panicked(Underflow);
      }
      ghost var data := Contents();
      assert data == Flatten(frames);
      var startIdx: nat := pos / PAGE_SIZE;
      var endIdx: nat := (writeEnd - 1) / PAGE_SIZE;
      PageOf(pos);
      PageOf(writeEnd - 1);
      var p: nat := pos;
      for i := startIdx to endIdx + 1
        invariant |frames| == |old(frames)| && pos == old(pos)
        invariant i == startIdx ==> p == old(pos) && frames == old(frames)
        invariant i > startIdx ==> p == writeEnd
        invariant i > startIdx && writeLen == 0 ==> frames == old(frames)
        invariant i > startIdx && writeLen > 0 ==>
          writeLen == |buf| && old(pos) % PAGE_SIZE + writeLen <= PAGE_SIZE &&
          writeEnd <= |data| && Flatten(frames) == data[..old(pos)] + buf + data[writeEnd..]
      {
        if i >= |frames| {
          return Panicked(OutOfBounds);
        }
        var off := p % PAGE_SIZE;
        var len := Min(PAGE_SIZE - off, writeEnd - p);
        if len != |buf| {
          return Panicked(LengthMismatch);
        }
        if len > 0 {
          assert i == startIdx;
          UpdateAt(frames, i, p, buf);
        } else {
          assert Splice(frames[i], off, buf) == frames[i];
        }
        frames := frames[i := Splice(frames[i], off, buf)];
        p := p + len;
      }
      pos := p;
      r := Done(writeLen);
    }

    /**
     * `read` with each piece copied to its place in `buf`: the bytes from
     * the cursor up to `max_size`, as many as `buf` holds, none when the
     * cursor lies past `max_size`; the cursor advances past them.
     */
    method ReadPiecewise(buf: array<Byte>) returns (n: nat)
      requires Valid()
      modifies this, buf
      ensures Valid() && frames == old(frames)
      ensures n == (if old(pos) <= maxSize then Min(buf.Length, maxSize - old(pos)) else 0)
      ensures pos == old(pos) + n
      ensures n == 0 ==> buf[..] == old(buf[..])
      ensures n > 0 ==> buf[..] == Contents()[old(pos)..old(pos) + n] + old(buf[..])[n..]
    {
      if pos > maxSize {
        return 0;
      }
      var len := Min(buf.Length, maxSize - pos);
      if len == 0 {
        return 0;
      }
      ReadPages(frames, buf, pos, len);
      pos := pos + len;
      n := len;
    }

    /**
     * `write` with each piece taken from its place in `buf`: as many of its
     * bytes as fit below `max_size` go to the file from the cursor, which
     * advances past them; none when the cursor lies past `max_size`.
     */
    method WritePiecewise(buf: seq<Byte>) returns (n: nat)
      requires Valid()
      modifies this
      ensures Valid() && |frames| == |old(frames)|
      ensures n == (if old(pos) <= maxSize then Min(|buf|, maxSize - old(pos)) else 0)
      ensures pos == old(pos) + n
      ensures n == 0 ==> frames == old(frames)
      ensures n > 0 ==> Contents() == old(Contents())[..old(pos)] + buf[..n] + old(Contents())[old(pos) + n..]
    {
      if pos > maxSize {
        return 0;
      }
      var len := Min(|buf|, maxSize - pos);
      if len == 0 {
        return 0;
      }
      frames := WritePages(frames, pos, buf, len);
      pos := pos + len;
      n := len;
    }

    /** `seek`: moves the cursor where `SeekResult` says and returns it, or keeps it and returns `None`. */
    method Seek(offset: Usize, whence: SeekWhence) returns (r: Option<Usize>)
      modifies this
      ensures frames == old(frames)
      ensures r == SeekResult(old(pos), maxSize, offset, whence)
      ensures r.Some? ==> pos == r.value
      ensures r.None? ==> pos == old(pos)
    {
      match whence {
        case Current =>
          var newPos := WrapIsize(AsIsize(pos) + AsIsize(offset));
          if newPos < 0 || newPos > AsIsize(maxSize) {
            return None;
          }
          pos := newPos;
        case Set =>
          pos := offset;
        case End =>
          var newPos := WrapIsize(AsIsize(maxSize) + AsIsize(offset));
          if newPos < 0 || newPos > AsIsize(maxSize) {
            return None;
          }
          pos := newPos;
      }
      r := Some(pos);
    }
  }

  /**
   * The loop of `read`: `len` bytes of the file from `start` into the
   * front of `buf`, one frame piece at a time from frame
   * `start / PAGE_SIZE` to the frame of the last byte.
   */
  method ReadPages(fs: seq<FrameBytes>, buf: array<Byte>, start: nat, len: nat)
    requires 0 < len && start + len <= PageStart(|fs|) && len <= buf.Length
    modifies buf
    ensures start + len <= |Flatten(fs)|
    ensures buf[..] == Flatten(fs)[start..start + len] + old(buf[..])[len..]
  {
    ghost var data := Flatten(fs);
    FramesLength(fs);
    ghost var before := buf[..];
    var readEnd := start + len;
    var startIdx: nat := start / PAGE_SIZE;
    var endIdx: nat := (readEnd - 1) / PAGE_SIZE;
    PageOf(start);
    PageOf(readEnd - 1);
    PageBound(endIdx, |fs|);
    var p: nat := start;
    for i := startIdx to endIdx + 1
      invariant start <= p <= readEnd
      invariant i <= endIdx ==> InPage(p, i)
      invariant i > endIdx ==> p == readEnd
      invariant Filled(buf[..], data, start, p, before)
    {
      p := ReadStep(fs, buf, start, len, endIdx, i, p, data, before);
    }
  }

  /**
   * One turn of the loop of `read`: the piece of frame `i` from the cursor
   * `p`, `min(PAGE_SIZE - off, end - p)` bytes, into `buf` after its
   * filled front; returns the cursor past it.
   */
  method ReadStep(fs: seq<FrameBytes>, buf: array<Byte>, start: nat, len: nat, endIdx: nat, i: nat, p: nat,
                  ghost data: seq<Byte>, ghost before: seq<Byte>) returns (q: nat)
    requires data == Flatten(fs) && |data| == PageStart(|fs|) && endIdx < |fs|
    requires 0 < len && InPage(start + len - 1, endIdx) && start <= p <= start + len
    requires i <= endIdx && InPage(p, i) && len <= buf.Length == |before|
    requires Filled(buf[..], data, start, p, before)
    modifies buf
    ensures p <= q <= start + len
    ensures i < endIdx ==> InPage(q, i + 1)
    ensures i == endIdx ==> q == start + len
    ensures Filled(buf[..], data, start, q, before)
  {
    var off := p % PAGE_SIZE;
    var n := Min(PAGE_SIZE - off, start + len - p);
    PieceStep(start, len, p, i, endIdx, n);
    PageBound(i, |fs|);
    ReadFramePiece(fs, i, off, n, buf, start, p, data, before);
    q := p + n;
  }

  /** Reads the piece of frame `k` from `off` into `buf` right after its filled front. */
  method ReadFramePiece(fs: seq<FrameBytes>, k: nat, off: nat, n: nat, buf: array<Byte>,
                        start: nat, p: nat, ghost data: seq<Byte>, ghost before: seq<Byte>)
    requires k < |fs| && off + n <= PAGE_SIZE && p == PageStart(k) + off && data == Flatten(fs)
    requires start <= p && p + n <= |data| && (p - start) + n <= buf.Length == |before|
    requires Filled(buf[..], data, start, p, before)
    modifies buf
    ensures Filled(buf[..], data, start, p + n, before)
  {
    FrameSlice(fs, k, off, n);
    ghost var was := buf[..];
    CopyInto(buf, p - start, fs[k][off..off + n]);
    CopyStep(data, start, p, n, before, was);
  }

  /** The loop of `write`: the first `len` bytes of `buf` into the file from `start`, one frame piece at a time. */
  method WritePages(fs: seq<FrameBytes>, start: nat, buf: seq<Byte>, len: nat) returns (r: seq<FrameBytes>)
    requires 0 < len && start + len <= PageStart(|fs|) && len <= |buf|
    ensures |r| == |fs| && start + len <= |Flatten(fs)|
    ensures Flatten(r) == Flatten(fs)[..start] + buf[..len] + Flatten(fs)[start + len..]
  {
    ghost var data := Flatten(fs);
    FramesLength(fs);
    r := fs;
    var writeEnd := start + len;
    var startIdx: nat := start / PAGE_SIZE;
    var endIdx: nat := (writeEnd - 1) / PAGE_SIZE;
    PageOf(start);
    PageOf(writeEnd - 1);
    PageBound(endIdx, |fs|);
    var p: nat := start;
    for i := startIdx to endIdx + 1
      invariant start <= p <= writeEnd && |r| == |fs|
      invariant i <= endIdx ==> InPage(p, i)
      invariant i > endIdx ==> p == writeEnd
      invariant Spliced(Flatten(r), data, start, buf[..p - start], p)
    {
      var off := p % PAGE_SIZE;
      var n := Min(PAGE_SIZE - off, writeEnd - p);
      PieceStep(start, len, p, i, endIdx, n);
      r := WriteFramePiece(r, i, off, buf, p - start, n, start, p, data);
      p := p + n;
    }
  }

  /** Writes bytes `at..at + n` of `buf` into frame `k` at `off`: the written prefix grows by them. */
  method WriteFramePiece(fs: seq<FrameBytes>, k: nat, off: nat, buf: seq<Byte>, at: nat, n: nat,
                         ghost start: nat, ghost p: nat, ghost data: seq<Byte>) returns (r: seq<FrameBytes>)
    requires k < |fs| && off + n <= PAGE_SIZE && p == PageStart(k) + off && at + n <= |buf|
    requires start <= p && p + n <= |data| && p == start + at
    requires Spliced(Flatten(fs), data, start, buf[..at], p)
    ensures |r| == |fs|
    ensures Spliced(Flatten(r), data, start, buf[..at + n], p + n)
  {
    var piece := buf[at..at + n];
    FrameUpdate(fs, k, off, piece);
    r := fs[k := fs[k][..off] + piece + fs[k][off + n..]];
    SpliceStep(data[..start], buf[..at], piece, data[p..], n);
    assert buf[..at] + piece == buf[..at + n];
    assert data[p..][n..] == data[p + n..];
  }

  /**
   * Writing bytes and reading them back from the same position returns
   * them, as many as fit below `max_size`.
   */
  method WriteThenRead(f: MemFile, bytes: seq<Byte>, buf: array<Byte>) returns (n: nat)
    requires f.Valid() && f.pos <= f.maxSize && buf.Length == |bytes|
    modifies f, buf
    ensures n == Min(|bytes|, f.maxSize - old(f.pos)) && f.pos == old(f.pos) + n
    ensures buf[..n] == bytes[..n]
  {
    var start := f.pos;
    n := f.WritePiecewise(bytes);
    var _ := f.Seek(start, Set);
    var m := f.ReadPiecewise(buf);
    if n > 0 {
      assert f.Contents()[start..start + n] == bytes[..n];
    }
  }

  /** As written, a new file has no frames: its size is 0 and a one-byte read panics. */
  method NewFileIsEmpty(limit: Usize) returns (size: nat, r: Outcome)
    requires limit > 0
    ensures size == 0 && r.Panicked?
  {
    var f := new MemFile(limit);
    size := f.Size();
    var buf := new Byte[1];
    r := f.Read(buf);
  }

  /**
   * A read of 200 bytes from 4000, across the first frame boundary,
   * panics as written and reads all 200 bytes piecewise.
   */
  method CrossFrameRead(initial: seq<FrameBytes>) returns (asWritten: Outcome, piecewise: nat)
    requires |initial| == 2
    ensures asWritten.Panicked? && piecewise == 200
  {
    var f := new MemFile.Allocated(2 * PAGE_SIZE, initial);
    var buf := new Byte[200];
    var _ := f.Seek(4000, Set);
    asWritten := f.Read(buf);
    var _ := f.Seek(4000, Set);
    piecewise := f.ReadPiecewise(buf);
  }

  /** After a `Set` seek past `max_size`, a read underflows as written and moves nothing piecewise. */
  method ReadPastLimit(initial: seq<FrameBytes>) returns (asWritten: Outcome, piecewise: nat)
    requires |initial| == 1
    ensures asWritten == Panicked(Underflow) && piecewise == 0
  {
    var f := new MemFile.Allocated(PAGE_SIZE, initial);
    var buf := new Byte[8];
    var _ := f.Seek(PAGE_SIZE + 1, Set);
    asWritten := f.Read(buf);
    var _ := f.Seek(PAGE_SIZE + 1, Set);
    piecewise := f.ReadPiecewise(buf);
  }
}
