/**
 * Sv39 page-table entries: the `PTEFlags` bits and the `PageTableEntry`
 * encoding shared, line for line, by the two page-table crates.
 *
 * An entry is a 64-bit word: bits 7..0 are the flags, bits 9..8 are reserved
 * for software (RSW), bits 53..10 hold the physical page number (PPN) and
 * bits 63..54 are reserved. Words are natural numbers below 2^64; a mask with
 * contiguous bits is written with `/` and `%`, and `a | b` on disjoint bit
 * ranges is `a + b`.
 */
module Pte {
  import opened Addr
  import opened Sv39Address

  const VALID: nat := 1
  const READABLE: nat := 2
  const WRITABLE: nat := 4
  const EXECUTABLE: nat := 8
  const USER_ACCESSIBLE: nat := 16
  const GLOBAL: nat := 32
  const ACCESSED: nat := 64
  const DIRTY: nat := 128

  /** A set of `PTEFlags`: the eight flag bits. */
  type Flags = f: nat | f < 256

  /** 2^44: the PPN field holds 44 bits. */
  const PPN_SPAN: nat := 0x1000_0000_0000
  /** `PPN_OFFSET_SV39`: the PPN field starts at bit 10. */
  const PPN_UNIT: nat := 0x400
  /** Frames whose start address is canonical: 2^50 / PAGE_SIZE. */
  const FRAME_SPAN: nat := 0x40_0000_0000

  predicate IsValid(f: nat) { HasFlag(f, VALID) }

  /** `is_pointer`: valid and none of R, W, X set. */
  predicate IsPointer(f: nat)
  {
    HasFlag(f, VALID) && !HasFlag(f, EXECUTABLE) && !HasFlag(f, WRITABLE) && !HasFlag(f, READABLE)
  }

  /** The Sv39 non-leaf rule: the low four bits read V=1, R=W=X=0. */
  lemma IsPointerIffNonLeaf(f: Flags)
    ensures IsPointer(f) <==> f % 16 == 1
  {
    var q, r := f / 16, f % 16;
    assert f / 2 == 8 * q + r / 2;
    assert f / 4 == 4 * q + r / 4;
    assert f / 8 == 2 * q + r / 8;
    assert IsPointer(f) <==> r % 2 == 1 && (r / 2) % 2 == 0 && (r / 4) % 2 == 0 && (r / 8) % 2 == 0;
  }

  /** `flags()`: `from_bits_truncate` keeps bits 7..0, all of which are defined flags. */
  function FlagsOf(pte: Usize): (f: Flags)
    ensures pte == (pte / 256) * 256 + f
  {
    pte % 256
  }

  /** The PPN field, bits 53..10. */
  function Ppn(pte: Usize): nat
  {
    (pte / PPN_UNIT) % PPN_SPAN
  }

  /** The RSW field, bits 9..8. */
  function Rsw(pte: Usize): nat
  {
    (pte / 256) % 4
  }

  /** The reserved field, bits 63..54. */
  function Reserved(pte: Usize): nat
  {
    pte / (PPN_UNIT * PPN_SPAN)
  }

  /** `set_flags`: `pte & PPN_MASK_SV39 | flags`. */
  function SetFlags(pte: Usize, f: Flags): (r: Usize)
    ensures FlagsOf(r) == f
    ensures Ppn(r) == Ppn(pte)
    ensures Rsw(r) == 0 && Reserved(r) == 0
  {
    Ppn(pte) * PPN_UNIT + f
  }

  /** `set_ppn`: `(frame << 10) & PPN_MASK_SV39 | flags`; the frame number is truncated to 44 bits. */
  function SetPpn(pte: Usize, frame: Usize): (r: Usize)
    ensures Ppn(r) == frame % PPN_SPAN
    ensures FlagsOf(r) == FlagsOf(pte)
    ensures Rsw(r) == 0 && Reserved(r) == 0
  {
    (frame % PPN_SPAN) * PPN_UNIT + FlagsOf(pte)
  }

  /** The word a map request writes: flags `f` and frame `frame`. */
  lemma SetFlagsThenPpn(pte: Usize, f: Flags, frame: Usize)
    requires frame < PPN_SPAN
    ensures SetPpn(SetFlags(pte, f), frame) == frame * PPN_UNIT + f
  {
  }

  /**
   * `frame()` as written: `Frame::floor(PhysAddr::new_canonical(pte << 2))`.
   * Shifting left by 2 moves the PPN to bit 12 but also moves the flag and RSW
   * bits into the low 12 bits, and `floor` rounds those up.
   */
  function FrameAsWritten(pte: Usize): Usize
  {
    Floor(CanonicalizePa(Wrap(pte * 4)))
  }

  /** Any valid entry pointing below 2^38 yields the frame AFTER the one it names. */
  lemma FrameAsWrittenIsOffByOne(pte: Usize)
    requires Reserved(pte) == 0 && Ppn(pte) < FRAME_SPAN
    ensures pte % PPN_UNIT == 0 ==> FrameAsWritten(pte) == Ppn(pte)
    ensures pte % PPN_UNIT != 0 ==> FrameAsWritten(pte) == Ppn(pte) + 1
  {
    assert pte == Ppn(pte) * PPN_UNIT + pte % PPN_UNIT;
  }

  /** A pointer entry written by `create` for frame 5 reads back as frame 6. */
  lemma FrameAsWrittenCounterexample()
    ensures Ppn(SetPpn(SetFlags(0, VALID), 5)) == 5
    ensures FrameAsWritten(SetPpn(SetFlags(0, VALID), 5)) == 6
  {
    FrameAsWrittenIsOffByOne(SetPpn(SetFlags(0, VALID), 5));
  }

  /** `frame()` as intended: the PPN field. */
  function Frame(pte: Usize): (r: nat)
    ensures r < PPN_SPAN
    ensures pte % (PPN_UNIT * PPN_SPAN) == r * PPN_UNIT + pte % PPN_UNIT
  {
    Ppn(pte)
  }

  /** `frame()` reads back the frame `set_ppn` wrote, whatever the flags. */
  lemma FrameOfSetPpn(pte: Usize, f: Flags, frame: Usize)
    requires frame < PPN_SPAN
    ensures Frame(SetPpn(SetFlags(pte, f), frame)) == frame
    ensures FlagsOf(SetPpn(SetFlags(pte, f), frame)) == f
  {
  }

  /** `from_index`: the physical address of entry `index` in table frame `frame`. */
  function FromIndex(frame: Usize, index: Usize): Usize
  {
    CanonicalizePa(Wrap(StartAddress(CanonicalizePa, frame) + index * 8))
  }

  /** Entry addresses of canonical frames are laid out 8 bytes apart inside the frame. */
  lemma FromIndexLayout(frame: nat, index: nat)
    requires frame < FRAME_SPAN && index < ENTRIES
    ensures FromIndex(frame, index) == frame * PAGE_SIZE + index * 8
  {
  }

  /** Distinct (frame, index) pairs give distinct entry addresses. */
  lemma FromIndexInjective(f1: nat, i1: nat, f2: nat, i2: nat)
    requires f1 < FRAME_SPAN && i1 < ENTRIES && f2 < FRAME_SPAN && i2 < ENTRIES
    requires f1 != f2 || i1 != i2
    ensures FromIndex(f1, i1) != FromIndex(f2, i2)
  {
    FromIndexLayout(f1, i1);
    FromIndexLayout(f2, i2);
  }
}
