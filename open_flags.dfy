/**
 * `OpenFlags`, the `open` flag word of the file system layer, and the
 * access it grants. A flag word is a `u32`; a named flag is one bit, and
 * `contains` of a one-bit flag is that bit's test.
 */
module OpenFlags {
  import opened Addr

  const O_RDONLY: nat := 0
  const O_WRONLY: nat := 1
  const O_RDWR: nat := 2
  const O_CREAT: nat := 0x40
  const O_EXCL: nat := 0x80
  const O_NOCTTY: nat := 0x100
  const O_TRUNC: nat := 0x200
  const O_APPEND: nat := 0x400
  const O_NONBLOCK: nat := 0x800
  /** `O_DSYNC` as written, octal 200000: the value of `O_DIRECTORY`. */
  const O_DSYNC_AS_WRITTEN: nat := 0x1_0000
  /** `O_DSYNC` as Linux numbers it, octal 10000. */
  const O_DSYNC: nat := 0x1000
  const O_DIRECTORY: nat := 0x1_0000
  const O_NOFOLLOW: nat := 0x2_0000
  const O_CLOEXEC: nat := 0x8_0000
  const O_PATH: nat := 0x20_0000

  /** Every one-bit flag, with the corrected `O_DSYNC`. */
  const FLAG_BITS: seq<nat> := [O_WRONLY, O_RDWR, O_CREAT, O_EXCL, O_NOCTTY, O_TRUNC, O_APPEND,
                                O_NONBLOCK, O_DSYNC, O_DIRECTORY, O_NOFOLLOW, O_CLOEXEC, O_PATH]

  /** `readable`: a file is readable unless opened write-only. */
  predicate Readable(f: nat)
  {
    !HasFlag(f, O_WRONLY)
  }

  /** `writable`: a file is writable when opened write-only or read-write. */
  predicate Writable(f: nat)
  {
    HasFlag(f, O_WRONLY) || HasFlag(f, O_RDWR)
  }

  /**
   * The three access modes give what their names say, only the two low
   * bits decide the access, and every flag word grants some access.
   */
  lemma AccessModes(f: nat)
    ensures Readable(O_RDONLY) && !Writable(O_RDONLY)
    ensures !Readable(O_WRONLY) && Writable(O_WRONLY)
    ensures Readable(O_RDWR) && Writable(O_RDWR)
    ensures Readable(f) == Readable(f % 4) && Writable(f) == Writable(f % 4)
    ensures Readable(f) || Writable(f)
  {
    assert f % 2 == (f % 4) % 2;
    assert (f / 2) % 2 == ((f % 4) / 2) % 2 by {
      assert f == 4 * (f / 4) + f % 4;
      assert f / 2 == 2 * (f / 4) + (f % 4) / 2;
    }
  }

  /**
   * `read_write` as written: the empty word is read-only, a word with
   * `O_WRONLY` write-only, and every other word read-write, so a read-only
   * open carrying any other flag is granted writing.
   */
  function ReadWriteAsWritten(f: nat): (r: (bool, bool))
    ensures r.0 == Readable(f)
    ensures r.1 ==> f != 0
  {
    if f == 0 then (true, false)
    else if HasFlag(f, O_WRONLY) then (false, true)
    else (true, true)
  }

  /** `read_write` giving the access `readable` and `writable` describe. */
  function ReadWrite(f: nat): (r: (bool, bool))
    ensures r.0 <==> !HasFlag(f, O_WRONLY)
    ensures r.1 <==> HasFlag(f, O_WRONLY) || HasFlag(f, O_RDWR)
    ensures r.0 || r.1
  {
    AccessModes(f);
    (Readable(f), Writable(f))
  }

  /**
   * The written `read_write` departs from `writable` exactly on non-empty
   * words with neither `O_WRONLY` nor `O_RDWR`: read-only opens with other
   * flags set.
   */
  lemma ReadWriteDiffers(f: nat)
    ensures ReadWriteAsWritten(f) != ReadWrite(f) <==> f != 0 && !HasFlag(f, O_WRONLY) && !HasFlag(f, O_RDWR)
  {
    if f == 0 {
      assert !HasFlag(f, O_RDWR);
    }
  }

  /** `O_RDONLY | O_CREAT`: the written `read_write` grants writing, `writable` does not. */
  lemma CreateReadOnly()
    ensures ReadWriteAsWritten(O_RDONLY + O_CREAT) == (true, true)
    ensures !Writable(O_RDONLY + O_CREAT)
    ensures ReadWrite(O_RDONLY + O_CREAT) == (true, false)
  {
    assert HasFlag(O_CREAT, 0x40);
  }

  /** As written, a word naming `O_DIRECTORY` also contains `O_DSYNC`. */
  lemma DirectoryMeansDsync()
    ensures HasFlag(O_DIRECTORY, O_DSYNC_AS_WRITTEN)
  {
  }

  /** Bit `k` of a flag word, `1 << k`. */
  function Bit(k: nat): (r: nat)
    ensures r > 0
  {
    if k == 0 then 1 else 2 * Bit(k - 1)
  }

  /** The bit positions of the one-bit flags, in the order of `FLAG_BITS`. */
  const FLAG_SHIFTS: seq<nat> := [0, 1, 6, 7, 8, 9, 10, 11, 12, 16, 17, 19, 21]

  /** Each one-bit flag is the bit its shift names, and the shifts increase. */
  lemma FlagShifts()
    ensures |FLAG_SHIFTS| == |FLAG_BITS|
    ensures forall i :: 0 <= i < |FLAG_BITS| ==> FLAG_BITS[i] == Bit(FLAG_SHIFTS[i])
    ensures forall i, j :: 0 <= i < j < |FLAG_SHIFTS| ==> FLAG_SHIFTS[i] < FLAG_SHIFTS[j]
  {
    assert Bit(6) == 0x40 && Bit(12) == 0x1000 && Bit(16) == 0x1_0000 && Bit(21) == 0x20_0000;
  }

  /** Bits add their shifts when multiplied. */
  lemma {:induction false} BitAdd(c: nat, b: nat)
    ensures Bit(c + b) == Bit(c) * Bit(b)
  {
    if c > 0 {
      BitAdd(c - 1, b);
    }
  }

  /** A higher bit is a larger number. */
  lemma {:induction false} BitBelow(a: nat, b: nat)
    requires a < b
    ensures Bit(a) < Bit(b)
    decreases b
  {
    if a < b - 1 {
      BitBelow(a, b - 1);
    }
  }

  /** A positive multiple of `d` is at least `d`. */
  lemma {:induction false} MultipleAtLeast(k: nat, d: nat)
    requires k > 0
    ensures k * d >= d
  {
    assert k * d == (k - 1) * d + d;
  }

  /** Exact and too-small quotients, the two cases `HasFlag` meets here. */
  lemma Quotient(n: nat, d: nat, q: nat)
    requires d > 0 && q * d <= n < q * d + d
    ensures n / d == q
  {
    var q', r' := n / d, n % d;
    assert n == q' * d + r';
    if q' > q {
      assert (q' - q) * d == q' * d - q * d;
      MultipleAtLeast(q' - q, d);
    } else if q > q' {
      assert (q - q') * d == q * d - q' * d;
      MultipleAtLeast(q - q', d);
    }
  }

  /** A word of one bit contains a one-bit flag exactly when it is that bit. */
  lemma BitContains(a: nat, b: nat)
    ensures HasFlag(Bit(a), Bit(b)) <==> a == b
  {
    if a < b {
      BitBelow(a, b);
      Quotient(Bit(a), Bit(b), 0);
    } else {
      BitAdd(a - b, b);
      Quotient(Bit(a), Bit(b), Bit(a - b));
      if a > b {
        assert Bit(a - b) == 2 * Bit(a - b - 1);
      }
    }
  }

  /**
   * With Linux's `O_DSYNC`, each named flag is its own bit: a word holding
   * one flag contains no other.
   */
  lemma FlagBitsDistinct()
    ensures forall i, j :: 0 <= i < |FLAG_BITS| && 0 <= j < |FLAG_BITS| ==>
      (HasFlag(FLAG_BITS[i], FLAG_BITS[j]) <==> i == j)
  {
    FlagShifts();
    forall i, j | 0 <= i < |FLAG_BITS| && 0 <= j < |FLAG_BITS|
      ensures HasFlag(FLAG_BITS[i], FLAG_BITS[j]) <==> i == j
    {
      BitContains(FLAG_SHIFTS[i], FLAG_SHIFTS[j]);
    }
  }
}
