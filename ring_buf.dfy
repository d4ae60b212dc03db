/**
 * `RingBuffer`: a FIFO byte queue stored in a file of `max_size` bytes.
 * `head` is where the next read starts and `tail` where the next write
 * starts; both run from 0 to `max_size` and wrap to the front when a
 * transfer passes the end. The file is modelled as its byte contents
 * (`data`), read and written in place.
 */
module RingWindows {
  import opened Bytes

  /** Where byte `k` of a window from `head` sits in a file of `size` bytes. */
  function At(head: nat, k: nat, size: nat): nat
  {
    if head + k < size then head + k else head + k - size
  }

  /** The `len` bytes of the file `data` from `head` on, wrapping to its front at its end. */
  function Window(data: seq<Byte>, head: nat, len: nat): (w: seq<Byte>)
    requires head <= |data| && len <= |data|
    ensures |w| == len
  {
    seq(len, k requires 0 <= k < len => data[At(head, k, |data|)])
  }

  /** Where a transfer of `n` bytes from `p` ends: `p + n`, wrapped to the front past the end. */
  function Advance(p: nat, n: nat, size: nat): nat
  {
    if p + n <= size then p + n else p + n - size
  }

  /** Byte `k` of the window is byte `k` past `head`, wrapped. */
  lemma WindowAt(data: seq<Byte>, head: nat, len: nat, k: nat)
    requires head <= |data| && len <= |data| && k < len
    ensures At(head, k, |data|) < |data| && Window(data, head, len)[k] == data[At(head, k, |data|)]
  {
  }

  /** The first `n` bytes of a window are the window of `n` bytes. */
  lemma WindowPrefix(data: seq<Byte>, head: nat, len: nat, n: nat)
    requires head <= |data| && n <= len <= |data|
    ensures Window(data, head, n) == Window(data, head, len)[..n]
  {
    forall k | 0 <= k < n
      ensures Window(data, head, n)[k] == Window(data, head, len)[k]
    {
      WindowAt(data, head, n, k);
      WindowAt(data, head, len, k);
    }
  }

  /** Taking `n` bytes off the front of a window moves its start `n` places on, wrapping. */
  lemma DropFront(data: seq<Byte>, head: nat, len: nat, n: nat)
    requires head <= |data| && n <= len <= |data|
    ensures Advance(head, n, |data|) <= |data|
    ensures Window(data, Advance(head, n, |data|), len - n) == Window(data, head, len)[n..]
  {
    var h := Advance(head, n, |data|);
    forall k | 0 <= k < len - n
      ensures Window(data, h, len - n)[k] == Window(data, head, len)[n..][k]
    {
      WindowAt(data, h, len - n, k);
      WindowAt(data, head, len, n + k);
      assert At(h, k, |data|) == At(head, n + k, |data|);
    }
  }

  /** Writing `piece` at `tail`, the window's end, short of the end of the file, extends the window by it. */
  lemma WriteInPlace(data: seq<Byte>, head: nat, len: nat, tail: nat, piece: seq<Byte>)
    requires head <= |data| && len + |piece| <= |data|
    requires tail == Advance(head, len, |data|) && tail + |piece| <= |data|
    ensures Window(data[..tail] + piece + data[tail + |piece|..], head, len + |piece|) == Window(data, head, len) + piece
  {
    var d := data[..tail] + piece + data[tail + |piece|..];
    assert |d| == |data|;
    forall k | 0 <= k < len + |piece|
      ensures Window(d, head, len + |piece|)[k] == (Window(data, head, len) + piece)[k]
    {
      WindowAt(d, head, len + |piece|, k);
      if k < len {
        WindowAt(data, head, len, k);
      }
    }
  }

  /**
   * Writing `piece` at `tail` when it passes the end of the file: its first
   * `first` bytes fill the file from `tail`, the rest its front; the window
   * grows by `piece`.
   */
  lemma WriteWrapped(data: seq<Byte>, head: nat, len: nat, tail: nat, piece: seq<Byte>, first: nat)
    requires head <= |data| && len + |piece| <= |data|
    requires tail == Advance(head, len, |data|) && tail + |piece| > |data| && first == |data| - tail
    ensures |piece| - first <= tail
    ensures Window(piece[first..] + data[|piece| - first..tail] + piece[..first], head, len + |piece|) ==
      Window(data, head, len) + piece
  {
    var d := piece[first..] + data[|piece| - first..tail] + piece[..first];
    assert |d| == |data|;
    forall k | 0 <= k < len + |piece|
      ensures Window(d, head, len + |piece|)[k] == (Window(data, head, len) + piece)[k]
    {
      WindowAt(d, head, len + |piece|, k);
      if k < len {
        WindowAt(data, head, len, k);
      }
    }
  }

  /**
   * The file write of `write`: `piece` at `tail`, the window's end, its
   * bytes past the end of the file going to its front. The window grows by
   * `piece`.
   */
  method Put(data: seq<Byte>, head: nat, len: nat, tail: nat, piece: seq<Byte>) returns (d: seq<Byte>)
    requires head <= |data| && len + |piece| <= |data| && tail == Advance(head, len, |data|)
    ensures |d| == |data|
    ensures Window(d, head, len + |piece|) == Window(data, head, len) + piece
  {
    if tail + |piece| <= |data| {
      WriteInPlace(data, head, len, tail, piece);
      d := data[..tail] + piece + data[tail + |piece|..];
    } else {
      var first := |data| - tail;
      WriteWrapped(data, head, len, tail, piece, first);
      d := piece[first..] + data[|piece| - first..tail] + piece[..first];
    }
  }

  /**
   * The file read of `read`: the `n` bytes from `head` into the front of
   * `buf`, those up to the end of the file first, then those from its
   * front.
   */
  method CopyOut(buf: array<Byte>, data: seq<Byte>, head: nat, n: nat)
    requires head <= |data| && n <= |data| && n <= buf.Length
    modifies buf
    ensures buf[..n] == Window(data, head, n) && buf[n..] == old(buf[n..])
  {
    if head + n <= |data| {
      forall k | 0 <= k < n {
        buf[k] := data[head + k];
      }
    } else {
      var first := |data| - head;
      forall k | 0 <= k < first {
        buf[k] := data[head + k];
      }
      forall k | first <= k < n {
        buf[k] := data[k - first];
      }
    }
  }
}

module RingBuf {
  import opened Bytes
  import opened RingWindows

  class RingBuffer {
    /** The underlying file's contents. */
    var data: seq<Byte>
    var head: nat
    var tail: nat
    var len: nat
    const maxSize: nat
    /** The queued bytes, oldest first. */
    ghost var contents: seq<Byte>

    /** The queue is the window of `len` bytes of the file from `head`, and `tail` is where it ends. */
    ghost predicate Valid()
      reads this
    {
      |data| == maxSize && len <= maxSize && head <= maxSize &&
      tail == Advance(head, len, maxSize) &&
      contents == Window(data, head, len)
    }

    /** `new(limit, file)`, with `file` holding `limit` bytes. */
    constructor (limit: nat, file: seq<Byte>)
      requires |file| == limit
      ensures Valid() && maxSize == limit && contents == [] && data == file
      ensures head == 0 && tail == 0 && len == 0
    {
      data := file;
      head, tail, len := 0, 0, 0;
      maxSize := limit;
      contents := [];
    }

    predicate IsEmpty()
      reads this
    {
      len == 0
    }

    predicate IsFull()
      reads this
    {
      len == maxSize
    }

    /**
     * `read`: move `min(buf.len(), len)` of the oldest bytes into the front
     * of `buf`, in the order they were written.
     */
    method Read(buf: array<Byte>) returns (n: nat)
      requires Valid()
      modifies this`head, this`len, this`contents, buf
      ensures Valid() && |contents| == len
      ensures n == Min(buf.Length, old(len)) && len == old(len) - n
      ensures buf[..n] == old(contents)[..n] && buf[n..] == old(buf[n..])
      ensures contents == old(contents)[n..]
      ensures head == Advance(old(head), n, maxSize)
    {
      n := Min(buf.Length, len);
      CopyOut(buf, data, head, n);
      WindowPrefix(data, head, len, n);
      DropFront(data, head, len, n);
      head := Advance(head, n, maxSize);
      len := len - n;
      contents := contents[n..];
    }

    /**
     * `write`: append `min(buf.len(), max_size - len)` bytes of `buf` at the
     * tail, wrapping to the front of the file when they pass its end.
     */
    method Write(buf: seq<Byte>) returns (n: nat)
      requires Valid()
      modifies this`data, this`tail, this`len, this`contents
      ensures Valid() && |contents| == len
      ensures n == Min(|buf|, maxSize - old(len)) && len == old(len) + n
      ensures contents == old(contents) + buf[..n]
      ensures tail == Advance(old(tail), n, maxSize)
    {
      n := Min(|buf|, maxSize - len);
      var piece := buf[..n];
      data := Put(data, head, len, tail, piece);
      tail := Advance(tail, n, maxSize);
      len := len + n;
      contents := contents + piece;
    }
  }

  /** The crate test: write "abcdefghijk" into a 512-byte buffer, read it all back. */
  method RingBufferScenario() returns (empty: bool, first: Byte, count: nat)
    ensures empty && first == 'a' as Byte && count == 11
  {
    var rb := new RingBuffer(512, seq(512, _ => 0));
    var text: seq<Byte> := [97, 98, 99, 100, 101, 102, 103, 104, 105, 106, 107];
    var w := rb.Write(text);
    var buf := new Byte[512](_ => 0);
    assert rb.contents == text;
    count := rb.Read(buf);
    assert buf[..count][0] == text[0];
    empty := rb.IsEmpty();
    first := buf[0];
  }
}
