/**
 * `ClockID`, a CPU clock id packed into an `i32`: bits 31..3 hold the
 * complement of a pid or tid, bit 2 says thread (1) or process (0), and
 * bits 1..0 give the CPU clock type. The `usize` operations wrap modulo
 * 2^64, `as i32` keeps the low 32 bits as a two's-complement value, and
 * `i32 as usize` sign-extends; each is written out below. Where the
 * source ORs into bits known to be zero, the model adds.
 */
module ClockId {
  import opened Addr

  const U32: nat := 0x1_0000_0000
  const I32_MIN: int := -0x8000_0000
  type I32 = x: int | I32_MIN <= x < 0x8000_0000

  /** `CPUClockType`: PROF, VIRT, SCHED, FD. */
  type ClockType = t: nat | t < 4

  /** `!x` on a `usize`. */
  function Not(x: Usize): (r: Usize)
    ensures r + x == USIZE_MAX
  {
    USIZE_MAX - x
  }

  /** `x as i32`: the low 32 bits, read as two's complement. */
  function ToI32(x: Usize): (r: I32)
    ensures r % U32 == x % U32
  {
    var low := x % U32;
    if low < 0x8000_0000 then low else low - U32
  }

  /** `x as usize` for an `i32`: sign extension. */
  function ToUsize(x: I32): (r: Usize)
    ensures r % U32 == x % U32
  {
    if x < 0 then x + U64 else x
  }

  datatype ClockID = ClockID(raw: I32)

  /** `new_proc`: `((!pid << 3) | type) as i32`. */
  function NewProc(pid: Usize, t: ClockType): ClockID
  {
    ClockID(ToI32(Wrap(Not(pid) * 8) + t))
  }

  /** `new_thread`: `((!tid << 3) | type | 4) as i32`. */
  function NewThread(tid: Usize, t: ClockType): ClockID
  {
    ClockID(ToI32(Wrap(Not(tid) * 8) + t + 4))
  }

  /** `get_type`: bits 1..0. */
  function GetType(c: ClockID): ClockType
  {
    ToUsize(c.raw) % 4
  }

  /** `is_thread`: bit 2 set. */
  predicate IsThread(c: ClockID)
  {
    (ToUsize(c.raw) / 4) % 2 == 1
  }

  /** `is_proc`: bit 2 clear. */
  predicate IsProc(c: ClockID)
  {
    (ToUsize(c.raw) / 4) % 2 == 0
  }

  /** The type and the thread/process bit read back what the constructors wrote. */
  lemma ConstructorsRoundTrip(id: Usize, t: ClockType)
    ensures GetType(NewProc(id, t)) == t && GetType(NewThread(id, t)) == t
    ensures IsProc(NewProc(id, t)) && !IsThread(NewProc(id, t))
    ensures IsThread(NewThread(id, t)) && !IsProc(NewThread(id, t))
  {
    var p := Wrap(Not(id) * 8);
    ShiftedIsMultiple(Not(id));
    var yp := ToUsize(ToI32(p + t));
    var yt := ToUsize(ToI32(p + t + 4));
    LowBitsThroughI32(p + t);
    LowBitsThroughI32(p + t + 4);
    AddLow(p, t);
    AddLow(p, t + 4);
    FieldsOfLowBits(yp, t);
    FieldsOfLowBits(yt, t + 4);
  }

  /** `x << 3` leaves the low 3 bits clear and room for them to be filled. */
  lemma ShiftedIsMultiple(x: Usize)
    ensures Wrap(x * 8) % 8 == 0 && Wrap(x * 8) <= USIZE_MAX - 7
  {
    var q := (x * 8) / U64;
    assert x * 8 == q * U64 + Wrap(x * 8);
    assert U64 == 8 * 0x2000_0000_0000_0000;
    assert Wrap(x * 8) == 8 * (x - q * 0x2000_0000_0000_0000);
  }

  lemma AddLow(p: nat, low: nat)
    requires p % 8 == 0 && low < 8
    ensures (p + low) % 8 == low
  {
  }

  /** The low 3 bits survive truncation to `i32` and sign extension back. */
  lemma LowBitsThroughI32(x: Usize)
    ensures ToUsize(ToI32(x)) % 8 == x % 8
  {
    var low := x % U32;
    var k := (x / U32) * 0x2000_0000;
    assert x == 8 * k + low;
    assert ToUsize(ToI32(x)) == low || ToUsize(ToI32(x)) == low + (U64 - U32);
  }

  /** Bits 1..0 and bit 2 of a word are read off its low 3 bits. */
  lemma FieldsOfLowBits(y: nat, low: nat)
    requires low < 8 && y % 8 == low
    ensures y % 4 == low % 4 && (y / 4) % 2 == low / 4
  {
  }

  /** `get_pid` as written: `!(self.0 as usize >> 3)`, a logical shift of the sign-extended value. */
  function GetPidAsWritten(c: ClockID): Usize
  {
    Not(ToUsize(c.raw) / 8)
  }

  /** The logical shift clears the top three bits, so the complement sets them: pid 1 reads back as 1 + 7 * 2^61. */
  lemma GetPidAsWrittenSetsTopBits()
    ensures NewProc(1, 0).raw == -16
    ensures GetPidAsWritten(NewProc(1, 0)) == 1 + 7 * 0x2000_0000_0000_0000
  {
  }

  /** `get_pid` with an arithmetic shift of the `i32` (`!((self.0 >> 3) as usize)`): the sign bit is kept. */
  function GetPid(c: ClockID): Usize
  {
    Not(ToUsize(c.raw / 8))
  }

  /** Every pid whose complement fits the 29-bit field reads back unchanged. */
  lemma GetPidRoundTrip(pid: Usize, t: ClockType)
    requires pid < 0x1000_0000
    ensures GetPid(NewProc(pid, t)) == pid
    ensures GetPid(NewThread(pid, t)) == pid
  {
    PackedValue(pid, t);
    PackedValue(pid, t + 4);
    ShiftBack(pid, t);
    ShiftBack(pid, t + 4);
  }

  /** For such a pid the packed `i32` is the negative number `low - 8 * (pid + 1)`. */
  lemma PackedValue(pid: Usize, low: nat)
    requires pid < 0x1000_0000 && low < 8
    ensures ToI32(Wrap(Not(pid) * 8) + low) == low - (pid + 1) * 8
  {
    assert Wrap(Not(pid) * 8) == U64 - (pid + 1) * 8;
  }

  lemma ShiftBack(pid: Usize, low: nat)
    requires pid < 0x1000_0000 && low < 8
    ensures Not(ToUsize((low - (pid + 1) * 8) / 8)) == pid
  {
    assert (low - (pid + 1) * 8) / 8 == -(pid + 1);
  }
}
