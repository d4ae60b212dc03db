/**
 * `UserBuffer` and its iterator: a user buffer is a list of byte slices,
 * and the iterator hands out a pointer to each byte of each slice in turn.
 * A slice is modelled by its length and a pointer by its position, the
 * slice's index and the byte's index within it.
 */
module UserBuffers {
  /** Where a yielded pointer points: byte `idx` of slice `buf`. */
  datatype Pos = Pos(buf: nat, idx: nat)

  /** What `next` does: yield a pointer, report the end, or panic indexing an empty slice. */
  datatype Step = Item(pos: Pos) | End | OutOfBounds

  /** The positions of slice `b`, which has `n` bytes, from byte `i` on, in order. */
  function RowFrom(b: nat, i: nat, n: nat): (r: seq<Pos>)
    ensures |r| == if i <= n then n - i else 0
    decreases n - i
  {
    if i >= n then [] else [Pos(b, i)] + RowFrom(b, i + 1, n)
  }

  /** Every position of the slices from `b` on, slice by slice, each in order. */
  function Items(lens: seq<nat>, b: nat): seq<Pos>
    requires b <= |lens|
    decreases |lens| - b
  {
    if b == |lens| then [] else RowFrom(b, 0, lens[b]) + Items(lens, b + 1)
  }

  function Sum(lens: seq<nat>): nat
  {
    if lens == [] then 0 else lens[0] + Sum(lens[1..])
  }

  /** The iteration yields as many pointers as the slices hold bytes. */
  lemma {:induction false} ItemsCount(lens: seq<nat>, b: nat)
    requires b <= |lens|
    ensures |Items(lens, b)| == Sum(lens[b..])
    decreases |lens| - b
  {
    if b < |lens| {
      ItemsCount(lens, b + 1);
      assert lens[b..][1..] == lens[b + 1..];
    }
  }

  predicate NoEmptySlice(lens: seq<nat>)
  {
    forall i :: 0 <= i < |lens| ==> lens[i] > 0
  }

  /** The positions from byte `i` of slice `b` on: the rest of that slice, then every later slice. */
  function Rest(lens: seq<nat>, b: nat, i: nat): seq<Pos>
    requires b <= |lens|
  {
    if b == |lens| then [] else RowFrom(b, i, lens[b]) + Items(lens, b + 1)
  }

  /**
   * One step of the iteration: the first remaining position is byte `i` of
   * slice `b`, and after it come the rest of the slice, or, from its last
   * byte, the next slice's start.
   */
  lemma RestStep(lens: seq<nat>, b: nat, i: nat)
    requires b < |lens| && i < lens[b]
    ensures Rest(lens, b, i) == [Pos(b, i)] +
      (if i + 1 == lens[b] then Rest(lens, b + 1, 0) else Rest(lens, b, i + 1))
  {
    var row := RowFrom(b, i + 1, lens[b]);
    var tail := Items(lens, b + 1);
    assert Rest(lens, b, i) == [Pos(b, i)] + (row + tail);
    if i + 1 == lens[b] {
      assert row == [];
      if b + 1 < |lens| {
        assert Rest(lens, b + 1, 0) == RowFrom(b + 1, 0, lens[b + 1]) + Items(lens, b + 2);
      }
    }
  }

  class UserBufferIterator {
    const lens: seq<nat>
    var currBuf: nat
    var currIdx: nat

    /** The cursor points into a slice, or at the start of an empty one, or past the last slice. */
    predicate Valid()
      reads this
    {
      currBuf <= |lens| &&
      (currBuf < |lens| ==> currIdx < lens[currBuf] || currIdx == 0) &&
      (currBuf == |lens| ==> currIdx == 0)
    }

    /** The positions still to be yielded. */
    function Remaining(): seq<Pos>
      requires Valid()
      reads this
    {
      Rest(lens, currBuf, currIdx)
    }

    /** `into_iter`: the cursor at the first byte of the first slice. */
    constructor (lens: seq<nat>)
      ensures this.lens == lens && currBuf == 0 && currIdx == 0
      ensures Valid() && Remaining() == Items(lens, 0)
    {
      this.lens := lens;
      currBuf := 0;
      currIdx := 0;
    }

    /**
     * `next`: past the last slice, nothing; otherwise the current byte, the
     * cursor moving to the next slice's start exactly when this was its
     * slice's last byte. An empty slice under the cursor panics.
     */
    method Next() returns (r: Step)
      requires Valid()
      modifies this
      ensures Valid()
      ensures old(currBuf) >= |lens| ==> r == End && currBuf == old(currBuf) && currIdx == old(currIdx)
      ensures r == OutOfBounds <==> old(currBuf) < |lens| && lens[old(currBuf)] == 0
      ensures r.Item? ==> Rest(lens, old(currBuf), old(currIdx)) != [] && r.pos == Rest(lens, old(currBuf), old(currIdx))[0] && Remaining() == Rest(lens, old(currBuf), old(currIdx))[1..]
      ensures r.Item? ==> r.pos == Pos(old(currBuf), old(currIdx))
      ensures r.Item? ==>
        (old(currIdx) + 1 == lens[old(currBuf)] <==> currBuf == old(currBuf) + 1 && currIdx == 0)
      ensures r.Item? && old(currIdx) + 1 != lens[old(currBuf)] ==> currBuf == old(currBuf) && currIdx == old(currIdx) + 1
      ensures NoEmptySlice(lens) ==> (r.End? <==> Rest(lens, old(currBuf), old(currIdx)) == []) && r != OutOfBounds
    {
      if currBuf >= |lens| {
        return End;
      }
      if lens[currBuf] == 0 {
        return OutOfBounds;
      }
      RestStep(lens, currBuf, currIdx);
      r := Item(Pos(currBuf, currIdx));
      if currIdx + 1 == lens[currBuf] {
        currIdx := 0;
        currBuf := currBuf + 1;
      } else {
        currIdx := currIdx + 1;
      }
    }
  }

  /**
   * Draining the iterator over non-empty slices yields every byte of every
   * slice in order, as many as the slices hold.
   */
  method Drain(lens: seq<nat>) returns (out: seq<Pos>)
    requires NoEmptySlice(lens)
    ensures out == Items(lens, 0)
    ensures |out| == Sum(lens)
  {
    var it := new UserBufferIterator(lens);
    out := [];
    while it.currBuf < |it.lens|
      invariant it.Valid() && it.lens == lens
      invariant out + it.Remaining() == Items(lens, 0)
      decreases |it.Remaining()|
    {
      ghost var before := it.Remaining();
      ghost var done := out;
      var r := it.Next();
      assert r.Item? && before == [r.pos] + it.Remaining();
      out := out + [r.pos];
      assert out + it.Remaining() == done + before;
    }
    ItemsCount(lens, 0);
  }
}
