/**
 * Area flags (`VMFlags`, a `u64` of flag bits) and their conversions to and
 * from page-table-entry flags and from the `prot` argument of `mmap`. Only
 * the read, write, execute and user bits cross between the two flag sets.
 */
module VmFlags {
  import opened Addr
  import opened Pte

  const VM_READ: nat := 1
  const VM_WRITE: nat := 2
  const VM_EXEC: nat := 4
  const VM_SHARED: nat := 8
  const VM_GROWSDOWN: nat := 0x100
  const VM_IDENTICAL: nat := 0x4000_0000_0000_0000
  const VM_USER: nat := 0x8000_0000_0000_0000

  const PROT_READ: nat := 1
  const PROT_WRITE: nat := 2
  const PROT_EXEC: nat := 4

  /** `bit` if `HasFlag(v, bit)`, else 0: one term of a flag-by-flag conversion. */
  function IfSet(v: nat, bit: nat, out: nat): nat
    requires bit > 0
  {
    if HasFlag(v, bit) then out else 0
  }

  /** `From<VMFlags> for PTEFlags`: READ, WRITE, EXEC and USER become R, W, X and U. */
  function ToPteFlags(v: Usize): (f: Flags)
    ensures HasFlag(f, READABLE) <==> HasFlag(v, VM_READ)
    ensures HasFlag(f, WRITABLE) <==> HasFlag(v, VM_WRITE)
    ensures HasFlag(f, EXECUTABLE) <==> HasFlag(v, VM_EXEC)
    ensures HasFlag(f, USER_ACCESSIBLE) <==> HasFlag(v, VM_USER)
    ensures !HasFlag(f, VALID) && !HasFlag(f, GLOBAL) && !HasFlag(f, ACCESSED) && !HasFlag(f, DIRTY)
  {
    IfSet(v, VM_READ, READABLE) + IfSet(v, VM_WRITE, WRITABLE) + IfSet(v, VM_EXEC, EXECUTABLE) + IfSet(v, VM_USER, USER_ACCESSIBLE)
  }

  /** `From<PTEFlags> for VMFlags`: R, W, X and U become READ, WRITE, EXEC and USER. */
  function FromPteFlags(f: Flags): (v: Usize)
    ensures HasFlag(v, VM_READ) <==> HasFlag(f, READABLE)
    ensures HasFlag(v, VM_WRITE) <==> HasFlag(f, WRITABLE)
    ensures HasFlag(v, VM_EXEC) <==> HasFlag(f, EXECUTABLE)
    ensures HasFlag(v, VM_USER) <==> HasFlag(f, USER_ACCESSIBLE)
    ensures !HasFlag(v, VM_SHARED) && !HasFlag(v, VM_GROWSDOWN) && !HasFlag(v, VM_IDENTICAL)
  {
    IfSet(f, READABLE, VM_READ) + IfSet(f, WRITABLE, VM_WRITE) + IfSet(f, EXECUTABLE, VM_EXEC) + IfSet(f, USER_ACCESSIBLE, VM_USER)
  }

  /** The four permission bits of an area's flags, and nothing else. */
  function Permissions(v: Usize): Usize
  {
    IfSet(v, VM_READ, VM_READ) + IfSet(v, VM_WRITE, VM_WRITE) + IfSet(v, VM_EXEC, VM_EXEC) + IfSet(v, VM_USER, VM_USER)
  }

  /** Converting to entry flags and back keeps exactly the four permission bits. */
  lemma PermissionsRoundTrip(v: Usize)
    ensures FromPteFlags(ToPteFlags(v)) == Permissions(v)
  {
  }

  /** From entry flags to area flags and back keeps exactly R, W, X and U. */
  lemma PteFlagsRoundTrip(f: Flags)
    ensures ToPteFlags(FromPteFlags(f)) ==
      IfSet(f, READABLE, READABLE) + IfSet(f, WRITABLE, WRITABLE) + IfSet(f, EXECUTABLE, EXECUTABLE) + IfSet(f, USER_ACCESSIBLE, USER_ACCESSIBLE)
  {
  }

  /** Three low bits under `VM_USER`: each flag reads its own bit and the others are clear. */
  lemma LowBitsUnderUser(x: nat)
    requires x < 8
    ensures HasFlag(x + VM_USER, VM_USER)
    ensures HasFlag(x + VM_USER, VM_READ) <==> x % 2 == 1
    ensures HasFlag(x + VM_USER, VM_WRITE) <==> (x / 2) % 2 == 1
    ensures HasFlag(x + VM_USER, VM_EXEC) <==> x / 4 == 1
    ensures !HasFlag(x + VM_USER, VM_SHARED) && !HasFlag(x + VM_USER, VM_GROWSDOWN) && !HasFlag(x + VM_USER, VM_IDENTICAL)
  {
    var v := x + VM_USER;
    assert v / VM_USER == 1;
    assert v / 2 == x / 2 + VM_USER / 2;
    assert v / 4 == x / 4 + VM_USER / 4;
    assert v / VM_SHARED == VM_USER / VM_SHARED;
    assert v / VM_GROWSDOWN == VM_USER / VM_GROWSDOWN;
    assert v / VM_IDENTICAL == 2;
  }

  /** `From<MmapProt> for VMFlags`: the three access bits carried over, and USER always added. */
  function FromProt(prot: Usize): (v: Usize)
    ensures HasFlag(v, VM_USER)
    ensures HasFlag(v, VM_READ) <==> HasFlag(prot, PROT_READ)
    ensures HasFlag(v, VM_WRITE) <==> HasFlag(prot, PROT_WRITE)
    ensures HasFlag(v, VM_EXEC) <==> HasFlag(prot, PROT_EXEC)
    ensures !HasFlag(v, VM_SHARED) && !HasFlag(v, VM_GROWSDOWN) && !HasFlag(v, VM_IDENTICAL)
  {
    var x := IfSet(prot, PROT_READ, VM_READ) + IfSet(prot, PROT_WRITE, VM_WRITE) + IfSet(prot, PROT_EXEC, VM_EXEC);
    LowBitsUnderUser(x);
    x + VM_USER
  }
}
