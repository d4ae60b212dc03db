/**
 * Storage made of equal-sized units (disk blocks, memory frames) read as
 * one run of bytes, and the split of a byte range into per-unit pieces
 * that the block-wise readers and writers walk.
 */
module Chunks {
  import opened Bytes

  /** The units laid end to end. */
  function Flatten(us: seq<seq<Byte>>): seq<Byte>
  {
    if us == [] then [] else us[0] + Flatten(us[1..])
  }

  predicate Uniform(us: seq<seq<Byte>>, size: nat)
  {
    forall i :: 0 <= i < |us| ==> |us[i]| == size
  }

  lemma {:induction false} FlattenLength(us: seq<seq<Byte>>, size: nat)
    requires Uniform(us, size)
    ensures |Flatten(us)| == |us| * size
  {
    if us != [] {
      FlattenLength(us[1..], size);
      assert |us| * size == size + (|us| - 1) * size;
    }
  }

  lemma {:induction false} FlattenAppend(a: seq<seq<Byte>>, b: seq<seq<Byte>>)
    ensures Flatten(a + b) == Flatten(a) + Flatten(b)
  {
    if a == [] {
      assert a + b == b;
    } else {
      assert (a + b)[1..] == a[1..] + b;
      FlattenAppend(a[1..], b);
    }
  }

  /** The whole is the units before `i`, unit `i`, and the units after it. */
  lemma FlattenSplit(us: seq<seq<Byte>>, i: nat)
    requires i < |us|
    ensures Flatten(us) == Flatten(us[..i]) + us[i] + Flatten(us[i + 1..])
  {
    var t := us[i..];
    assert t[0] == us[i] && t[1..] == us[i + 1..];
    assert us == us[..i] + t;
    FlattenAppend(us[..i], t);
  }

  lemma FlattenCons(u: seq<Byte>, rest: seq<seq<Byte>>)
    ensures Flatten([u] + rest) == u + Flatten(rest)
  {
    var t := [u] + rest;
    assert t[0] == u && t[1..] == rest;
  }

  /** Where unit `i` starts in the whole. */
  function UnitStart(us: seq<seq<Byte>>, i: nat): nat
    requires i <= |us|
  {
    |Flatten(us[..i])|
  }

  /** With units of `size` bytes, unit `i` starts at `i * size`. */
  lemma UnitStartUniform(us: seq<seq<Byte>>, size: nat, i: nat)
    requires Uniform(us, size) && i <= |us|
    ensures UnitStart(us, i) == i * size
  {
    FlattenLength(us[..i], size);
  }

  /** Bytes `off` to `off + len` of unit `i` are those `off` bytes past the unit's start in the whole. */
  lemma FlattenSlice(us: seq<seq<Byte>>, i: nat, off: nat, len: nat)
    requires i < |us| && off + len <= |us[i]|
    ensures UnitStart(us, i) + off + len <= |Flatten(us)|
    ensures Flatten(us)[UnitStart(us, i) + off..UnitStart(us, i) + off + len] == us[i][off..off + len]
  {
    FlattenSplit(us, i);
    var p := Flatten(us[..i]);
    assert Flatten(us)[|p| + off..|p| + off + len] == us[i][off..off + len];
  }

  lemma ConcatCut(p: seq<Byte>, w: seq<Byte>, q: seq<Byte>, k: nat)
    requires k <= |w|
    ensures (p + w + q)[..|p| + k] == p + w[..k]
    ensures (p + w + q)[|p| + k..] == w[k..] + q
  {
  }

  /** Replacing bytes within unit `i` replaces the same bytes of the whole. */
  lemma FlattenUpdate(us: seq<seq<Byte>>, i: nat, off: nat, bytes: seq<Byte>)
    requires i < |us| && off + |bytes| <= |us[i]|
    ensures UnitStart(us, i) + off + |bytes| <= |Flatten(us)|
    ensures Flatten(us[i := us[i][..off] + bytes + us[i][off + |bytes|..]]) ==
      Flatten(us)[..UnitStart(us, i) + off] + bytes + Flatten(us)[UnitStart(us, i) + off + |bytes|..]
  {
    var w := us[i];
    FlattenSplit(us, i);
    FlattenReplace(us, i, w[..off] + bytes + w[off + |bytes|..]);
    SpliceMiddle(Flatten(us[..i]), w, Flatten(us[i + 1..]), off, bytes);
  }

  /** Overwriting bytes of the middle part of `p + w + q` overwrites the same bytes of the whole. */
  lemma SpliceMiddle(p: seq<Byte>, w: seq<Byte>, q: seq<Byte>, off: nat, bytes: seq<Byte>)
    requires off + |bytes| <= |w|
    ensures |p| + off + |bytes| <= |p + w + q|
    ensures p + (w[..off] + bytes + w[off + |bytes|..]) + q ==
      (p + w + q)[..|p| + off] + bytes + (p + w + q)[|p| + off + |bytes|..]
  {
    ConcatCut(p, w, q, off);
    ConcatCut(p, w, q, off + |bytes|);
    Regroup(p, w[..off], bytes, w[off + |bytes|..], q);
  }

  /** Replacing unit `i` replaces its bytes in the whole. */
  lemma FlattenReplace(us: seq<seq<Byte>>, i: nat, u: seq<Byte>)
    requires i < |us|
    ensures Flatten(us[i := u]) == Flatten(us[..i]) + u + Flatten(us[i + 1..])
  {
    var vs := us[i := u];
    FlattenSplit(vs, i);
    assert vs[..i] == us[..i] && vs[i + 1..] == us[i + 1..];
  }

  lemma Regroup(p: seq<Byte>, a: seq<Byte>, b: seq<Byte>, c: seq<Byte>, q: seq<Byte>)
    ensures p + (a + b + c) + q == (p + a) + b + (c + q)
  {
  }

  /** Replacing bytes within a unit keeps every unit's size. */
  lemma UpdateUniform(us: seq<seq<Byte>>, size: nat, i: nat, off: nat, bytes: seq<Byte>)
    requires Uniform(us, size) && i < |us| && off + |bytes| <= size
    ensures Uniform(us[i := us[i][..off] + bytes + us[i][off + |bytes|..]], size)
  {
  }

  /** `k * size <= x < (k + 1) * size`: `x` lies in unit `k`. */
  predicate InUnit(x: nat, k: nat, size: nat)
  {
    k * size <= x < k * size + size
  }

  /**
   * `copy_from_slice` into `dst` at `at`: the bytes of `src` land there and
   * nothing else changes.
   */
  method CopyInto(dst: array<Byte>, at: nat, src: seq<Byte>)
    requires at + |src| <= dst.Length
    modifies dst
    ensures dst[..] == old(dst[..])[..at] + src + old(dst[..])[at + |src|..]
    ensures dst[at..at + |src|] == src
  {
    forall k | 0 <= k < |src| {
      dst[at + k] := src[k];
    }
    assert dst[..] == old(dst[..])[..at] + src + old(dst[..])[at + |src|..];
  }

  /** `b` holds the bytes `start..p` and then what `before` held past them. */
  predicate Filled(b: seq<Byte>, data: seq<Byte>, start: nat, p: nat, before: seq<Byte>)
  {
    start <= p <= |data| && p - start <= |before| && b == data[start..p] + before[p - start..]
  }

  /** Before the first piece, the buffer is filled with nothing yet. */
  lemma FilledStart(data: seq<Byte>, start: nat, before: seq<Byte>)
    requires start <= |data|
    ensures Filled(before, data, start, start, before)
  {
    assert data[start..start] + before[0..] == before;
  }

  /** `f` is the bytes of `data` before `start`, then `done`, then the bytes of `data` from `p` on. */
  predicate Spliced(f: seq<Byte>, data: seq<Byte>, start: nat, done: seq<Byte>, p: nat)
  {
    start <= p <= |data| && f == data[..start] + done + data[p..]
  }

  /** Once the buffer is filled up to `start + len`, its front is those device bytes. */
  lemma FilledAll(b: seq<Byte>, data: seq<Byte>, start: nat, len: nat, before: seq<Byte>)
    requires Filled(b, data, start, start + len, before)
    ensures b == data[start..start + len] + before[len..]
  {
  }

  /** Before the first piece, nothing is written yet. */
  lemma SplicedStart(data: seq<Byte>, start: nat)
    requires start <= |data|
    ensures Spliced(data, data, start, [], start)
  {
    assert data[..start] + [] + data[start..] == data;
  }

  /**
   * One more piece read: the buffer's filled front grows by the bytes
   * that follow it, and the untouched rest shrinks by as much.
   */
  lemma CopyStep(data: seq<Byte>, start: nat, p: nat, n: nat, before: seq<Byte>, was: seq<Byte>)
    requires start <= p && p + n <= |data| && (p - start) + n <= |before|
    requires was == data[start..p] + before[p - start..]
    ensures was[..p - start] + data[p..p + n] + was[p - start + n..] == data[start..p + n] + before[p - start + n..]
  {
    var b := p - start;
    assert was[..b] == data[start..p];
    assert was[b + n..] == before[b + n..];
    assert data[start..p] + data[p..p + n] == data[start..p + n];
  }

  /** One more piece written: the written prefix grows by it and the untouched rest shrinks by as much. */
  lemma SpliceStep(head: seq<Byte>, done: seq<Byte>, piece: seq<Byte>, rest: seq<Byte>, n: nat)
    requires n == |piece| && n <= |rest|
    ensures (head + done + rest)[..|head| + |done|] + piece + (head + done + rest)[|head| + |done| + n..] ==
      head + (done + piece) + rest[n..]
  {
    assert (head + done + rest)[..|head| + |done|] == head + done;
    assert (head + done + rest)[|head| + |done| + n..] == rest[n..];
  }
}
