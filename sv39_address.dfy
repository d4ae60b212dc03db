/**
 * Sv39 virtual and physical addresses (section 4.4 of the RISC-V
 * Privileged Architecture specification): canonical forms, the
 * canonicalisers the address macros are instantiated with, and the split of
 * a virtual page number into the three 9-bit page-table indexes.
 *
 * Masks are written arithmetically: `x & (2^k - 1)` is `x % 2^k`, `x & !(2^k - 1)`
 * is `x - x % 2^k` and `x >> k` is `x / 2^k`.
 */
module Sv39Address {
  import opened Wrappers
  import opened Addr

  const VA_BITS: nat := 39
  /** 2^39: `VA_MASK_SV39 + 1`. */
  const VA_SPAN: nat := 0x80_0000_0000
  /** 2^38: `VA_38_SV39`, the sign bit of a virtual address. */
  const VA_38: nat := 0x40_0000_0000
  /** 2^50: `PA_MASK_SV39 + 1`. */
  const PA_SPAN: nat := 0x4_0000_0000_0000
  const INDEX_BITS: nat := 9
  /** 2^9 entries per page-table page. */
  const ENTRIES: nat := 512

  /** Bits 63..39 of `va` (`va & !VA_MASK_SV39`). */
  function HighBits(va: Usize): Usize
  {
    va - va % VA_SPAN
  }

  /** Bit 38 of `va` is set (`va & VA_38_SV39 != 0`). */
  predicate Bit38(va: Usize)
  {
    (va / VA_38) % 2 == 1
  }

  /** Bits 63..39 are all equal to bit 38. */
  predicate IsCanonicalVa(va: Usize)
  {
    (HighBits(va) == U64 - VA_SPAN && Bit38(va)) || (HighBits(va) == 0 && !Bit38(va))
  }

  /** Canonical virtual addresses are the lowest and the highest 256 GiB. */
  lemma CanonicalVaIsLowOrHigh(va: Usize)
    ensures IsCanonicalVa(va) <==> va < VA_38 || U64 - VA_38 <= va
  {
  }

  /** `((va << 25) as isize >> 25) as usize`: keep bits 38..0 and copy bit 38 into bits 63..39. */
  function CanonicalizeVa(va: Usize): (r: Usize)
    ensures r % VA_SPAN == va % VA_SPAN
    ensures IsCanonicalVa(r)
  {
    var low := va % VA_SPAN;
    if VA_38 <= low then low + (U64 - VA_SPAN) else low
  }

  lemma CanonicalizeVaFixesCanonical(va: Usize)
    ensures CanonicalizeVa(va) == va <==> IsCanonicalVa(va)
  {
  }

  lemma CanonicalizeVaIdempotent(va: Usize)
    ensures CanonicalizeVa(CanonicalizeVa(va)) == CanonicalizeVa(va)
  {
  }

  /** Only the lowest 2^50 bytes of physical space exist (`pa & !PA_MASK_SV39 == 0`). */
  predicate IsCanonicalPa(pa: Usize)
  {
    pa - pa % PA_SPAN == 0
  }

  /** `pa & PA_MASK_SV39`. */
  function CanonicalizePa(pa: Usize): (r: Usize)
    ensures IsCanonicalPa(r)
    ensures r <= pa && (pa - r) % PA_SPAN == 0
  {
    pa % PA_SPAN
  }

  lemma CanonicalizePaFixesCanonical(pa: Usize)
    ensures CanonicalizePa(pa) == pa <==> IsCanonicalPa(pa)
    ensures CanonicalizePa(CanonicalizePa(pa)) == CanonicalizePa(pa)
  {
  }

  /** `VirtAddr::new`: `Some` exactly for canonical addresses. */
  function NewVirtAddr(va: Usize): (r: Option<Usize>)
    ensures r.Some? <==> CanonicalVa(va)
    ensures r.Some? ==> r.value == va
  {
    if IsCanonicalVa(va) then Some(va) else None
  }

  /** `PhysAddr::new`. */
  function NewPhysAddr(pa: Usize): (r: Option<Usize>)
    ensures r.Some? <==> pa < PA_SPAN
    ensures r.Some? ==> r.value == pa
  {
    if IsCanonicalPa(pa) then Some(pa) else None
  }

  /** Helper so that `NewVirtAddr`'s contract reads as a range rather than a bit pattern. */
  predicate CanonicalVa(va: Usize)
  {
    va < VA_38 || U64 - VA_38 <= va
  }

  /** Virtual-address arithmetic always lands on a canonical address. */
  lemma VirtAddrArithmeticIsCanonical(va: Usize, n: Usize)
    ensures IsCanonicalVa(AddrAdd(CanonicalizeVa, va, n))
    ensures IsCanonicalVa(AddrSub(CanonicalizeVa, va, n))
    ensures IsCanonicalVa(StartAddress(CanonicalizeVa, n))
  {
  }

  /** Physical-address arithmetic always lands on a canonical address. */
  lemma PhysAddrArithmeticIsCanonical(pa: Usize, n: Usize)
    ensures IsCanonicalPa(AddrAdd(CanonicalizePa, pa, n))
    ensures IsCanonicalPa(AddrSub(CanonicalizePa, pa, n))
    ensures IsCanonicalPa(StartAddress(CanonicalizePa, n))
  {
  }

  /** The three 9-bit indexes of a virtual page number, most significant first (bits 26..18, 17..9, 8..0). */
  function VpnIndexes(vpn: Usize): seq<nat>
  {
    [(vpn / (ENTRIES * ENTRIES)) % ENTRIES, (vpn / ENTRIES) % ENTRIES, vpn % ENTRIES]
  }

  /** The indexes are 9-bit and reassemble the low 27 bits of the page number. */
  lemma VpnIndexesReassemble(vpn: Usize)
    ensures |VpnIndexes(vpn)| == 3
    ensures forall i :: 0 <= i < 3 ==> VpnIndexes(vpn)[i] < ENTRIES
    ensures VpnIndexes(vpn)[0] * ENTRIES * ENTRIES + VpnIndexes(vpn)[1] * ENTRIES + VpnIndexes(vpn)[2]
            == vpn % (ENTRIES * ENTRIES * ENTRIES)
  {
    var a := vpn / ENTRIES;
    var b := a / ENTRIES;
    assert vpn == a * ENTRIES + vpn % ENTRIES;
    assert a == b * ENTRIES + a % ENTRIES;
    assert vpn / (ENTRIES * ENTRIES) == b;
    assert b == (b / ENTRIES) * ENTRIES + b % ENTRIES;
    assert vpn == (b / ENTRIES) * (ENTRIES * ENTRIES * ENTRIES) +
      ((b % ENTRIES) * ENTRIES * ENTRIES + (a % ENTRIES) * ENTRIES + vpn % ENTRIES);
  }

  /** Two page numbers agreeing in their low 27 bits have the same indexes, and conversely. */
  lemma VpnIndexesInjective(p: Usize, q: Usize)
    ensures VpnIndexes(p) == VpnIndexes(q) <==> p % (ENTRIES * ENTRIES * ENTRIES) == q % (ENTRIES * ENTRIES * ENTRIES)
  {
    VpnIndexesReassemble(p);
    VpnIndexesReassemble(q);
    if p % (ENTRIES * ENTRIES * ENTRIES) == q % (ENTRIES * ENTRIES * ENTRIES) {
      assert VpnIndexes(p)[0] == VpnIndexes(q)[0];
    }
  }

  /** `Page::split_vpn`: fill the index array from the last slot, shifting the page number down by 9 bits each time. */
  method SplitVpn(page: Usize) returns (indexes: seq<nat>)
    ensures indexes == VpnIndexes(page)
  {
    var vpn: nat := page;
    var a := new nat[3](_ => 0);
    var i := 3;
    while i > 0
      invariant 0 <= i <= 3
      invariant vpn == page / Pow512(3 - i)
      invariant forall j :: i <= j < 3 ==> a[j] == (page / Pow512(2 - j)) % ENTRIES
    {
      i := i - 1;
      a[i] := vpn % ENTRIES;
      DivDiv(page, Pow512(2 - i));
      vpn := vpn / ENTRIES;
    }
    indexes := a[..];
  }

  function Pow512(k: nat): (r: nat)
    ensures r > 0
  {
    if k == 0 then 1 else ENTRIES * Pow512(k - 1)
  }

  lemma DivDiv(x: nat, d: nat)
    requires d == 1 || d == ENTRIES || d == ENTRIES * ENTRIES
    ensures x / d / ENTRIES == x / (d * ENTRIES)
  {
  }
}
