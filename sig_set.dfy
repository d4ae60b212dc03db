/**
 * `SigSet`, a 64-bit signal mask. A `u64` is modelled by its 64 bits,
 * bit `k` at index `k`, so `|`, `&` and `!` act index by index. A shift by
 * `kth` uses `kth % 64`, as a release build's `>>` and `<<` on a `u64` do.
 */
module SigSetBits {
  type Word = s: seq<bool> | |s| == 64 witness Zero()

  /** The word 0. */
  function Zero(): (z: seq<bool>)
    ensures |z| == 64 && forall j :: 0 <= j < 64 ==> !z[j]
  {
    seq(64, j => false)
  }

  /** `a | b`. */
  function Or(a: Word, b: Word): (r: Word)
    ensures forall j :: 0 <= j < 64 ==> (r[j] <==> a[j] || b[j])
  {
    seq(64, j requires 0 <= j < 64 => a[j] || b[j])
  }

  /** `a & !b`. */
  function AndNot(a: Word, b: Word): (r: Word)
    ensures forall j :: 0 <= j < 64 ==> (r[j] <==> a[j] && !b[j])
  {
    seq(64, j requires 0 <= j < 64 => a[j] && !b[j])
  }

  /** `a & b`. */
  function And(a: Word, b: Word): (r: Word)
    ensures forall j :: 0 <= j < 64 ==> (r[j] <==> a[j] && b[j])
  {
    seq(64, j requires 0 <= j < 64 => a[j] && b[j])
  }

  /** `1 << kth`. */
  function Single(kth: nat): (r: Word)
    ensures forall j :: 0 <= j < 64 ==> (r[j] <==> j == kth % 64)
  {
    seq(64, j => j == kth % 64)
  }

  class SigSet {
    var bits: Word

    /** `new`/`default` (the word 0) and `From<u64>`: the raw bits as given. */
    constructor (value: Word)
      ensures bits == value
    {
      bits := value;
    }

    /** `get`: `(self.0 >> kth) & 1 == 1`. */
    predicate Get(kth: nat)
      reads this
    {
      bits[kth % 64]
    }

    /** `is_empty`: the word is 0. */
    predicate IsEmpty()
      reads this
    {
      bits == Zero()
    }

    method Clear()
      modifies this
      ensures IsEmpty()
      ensures forall k: nat :: !Get(k)
    {
      bits := Zero();
    }

    /** `set`: `|= 1 << kth`; bit `kth` becomes set, every other bit is kept. */
    method Set(kth: nat)
      modifies this
      ensures bits == Or(old(bits), Single(kth))
      ensures Get(kth)
      ensures forall k: nat :: k % 64 != kth % 64 ==> (Get(k) <==> old(Get(k)))
    {
      bits := Or(bits, Single(kth));
    }

    /** `unset`: `&= !(1 << kth)`; bit `kth` becomes clear, every other bit is kept. */
    method Unset(kth: nat)
      modifies this
      ensures bits == AndNot(old(bits), Single(kth))
      ensures !Get(kth)
      ensures forall k: nat :: k % 64 != kth % 64 ==> (Get(k) <==> old(Get(k)))
    {
      bits := AndNot(bits, Single(kth));
    }

    /** `set_mask`. */
    method SetMask(mask: Word)
      modifies this
      ensures bits == Or(old(bits), mask)
      ensures forall k: nat :: Get(k) <==> old(Get(k)) || mask[k % 64]
    {
      bits := Or(bits, mask);
    }

    /** `unset_mask`. */
    method UnsetMask(mask: Word)
      modifies this
      ensures bits == AndNot(old(bits), mask)
      ensures forall k: nat :: Get(k) <==> old(Get(k)) && !mask[k % 64]
    {
      bits := AndNot(bits, mask);
    }

    /** `union`: the signals in either set. */
    method Union(other: SigSet)
      requires other != this
      modifies this
      ensures bits == Or(old(bits), other.bits)
      ensures forall k: nat :: Get(k) <==> old(Get(k)) || other.Get(k)
    {
      bits := Or(bits, other.bits);
    }

    /** `intersection`: the signals in both sets. */
    method Intersection(other: SigSet)
      requires other != this
      modifies this
      ensures bits == And(old(bits), other.bits)
      ensures forall k: nat :: Get(k) <==> old(Get(k)) && other.Get(k)
    {
      bits := And(bits, other.bits);
    }

    /** `difference`: the signals of this set not in `other`. */
    method Difference(other: SigSet)
      requires other != this
      modifies this
      ensures bits == AndNot(old(bits), other.bits)
      ensures forall k: nat :: Get(k) <==> old(Get(k)) && !other.Get(k)
    {
      bits := AndNot(bits, other.bits);
    }
  }

  /** A set is empty exactly when no signal is in it. */
  lemma EmptyIffNoSignal(w: Word)
    ensures w == Zero() <==> forall k: nat :: !w[k % 64]
  {
    if forall k: nat :: !w[k % 64] {
      forall j | 0 <= j < 64 ensures w[j] == Zero()[j] {
        assert j % 64 == j;
      }
    }
  }

  /** Setting then unsetting a signal that was clear restores the set; the reverse holds for one that was set. */
  lemma SetUnsetRestores(w: Word, kth: nat)
    ensures !w[kth % 64] ==> AndNot(Or(w, Single(kth)), Single(kth)) == w
    ensures w[kth % 64] ==> Or(AndNot(w, Single(kth)), Single(kth)) == w
  {
  }
}
