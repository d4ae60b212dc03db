/**
 * `TrapFrame`, the user context the trampoline saves on a trap: kernel
 * satp, kernel stack pointer, trap handler, user pc, user status, the 31
 * general registers x1..x31 (`user_regs[i]` is register `x(i+1)`) and the
 * hart id. The status word is read from `sstatus` by the hardware and
 * arrives here as a parameter.
 */
module TrapFrames {
  import opened Wrappers
  import opened Addr
  import Clone

  const REG_COUNT: nat := 31
  /** x2, the stack pointer. */
  const SP: nat := 1
  /** x4, the thread pointer. */
  const TP: nat := 3
  /** x10, the first argument and return value. */
  const A0: nat := 9
  /** x17, the system call number. */
  const A7: nat := 16

  /**
   * The registers a cloned child starts with: the parent's, with `a0 = 0`
   * (the child's return value), `sp = stack` for a non-zero `stack`, and
   * `tp = tls` under `CLONE_SETTLS`.
   */
  function CloneRegs(regs: seq<Usize>, flags: nat, stack: Usize, tls: Usize): (r: seq<Usize>)
    requires |regs| == REG_COUNT
    ensures |r| == REG_COUNT
    ensures r[A0] == 0
    ensures r[SP] == (if stack != 0 then stack else regs[SP])
    ensures r[TP] == (if HasFlag(flags, Clone.CLONE_SETTLS) then tls else regs[TP])
    ensures forall i :: 0 <= i < REG_COUNT && i != A0 && i != SP && i != TP ==> r[i] == regs[i]
  {
    var withA0 := regs[A0 := 0];
    var withSp := if stack != 0 then withA0[SP := stack] else withA0;
    if HasFlag(flags, Clone.CLONE_SETTLS) then withSp[TP := tls] else withSp
  }

  class TrapFrame {
    var kernelSatp: Usize
    var kernelSp: Usize
    var trapHandler: Usize
    var userEpc: Usize
    var userStatus: Usize
    const userRegs: array<Usize>
    var cpuId: Usize

    ghost predicate Valid()
      reads this
    {
      userRegs.Length == REG_COUNT
    }

    /** `new`: every register 0 except `sp`, which is the user stack pointer. */
    constructor (kernelSatp: Usize, kernelSp: Usize, trapHandler: Usize, userEpc: Usize, userSp: Usize, cpuId: Usize, status: Usize)
      ensures Valid() && fresh(userRegs)
      ensures this.kernelSatp == kernelSatp && this.kernelSp == kernelSp && this.trapHandler == trapHandler
      ensures this.userEpc == userEpc && this.cpuId == cpuId && userStatus == status
      ensures userRegs[SP] == userSp && forall i :: 0 <= i < REG_COUNT && i != SP ==> userRegs[i] == 0
    {
      this.kernelSatp := kernelSatp;
      this.kernelSp := kernelSp;
      this.trapHandler := trapHandler;
      this.userEpc := userEpc;
      this.cpuId := cpuId;
      userStatus := status;
      var regs := new Usize[REG_COUNT](i => 0);
      regs[SP] := userSp;
      userRegs := regs;
    }

    /**
     * `copy_from`: the parent's frame, with the child's kernel stack and the
     * registers of `CloneRegs`.
     */
    method CopyFrom(orig: TrapFrame, flags: nat, stack: Usize, tls: Usize, kstack: Usize)
      requires Valid() && orig.Valid() && orig != this && orig.userRegs != userRegs
      modifies this, userRegs
      ensures kernelSatp == orig.kernelSatp && trapHandler == orig.trapHandler && userEpc == orig.userEpc
      ensures userStatus == orig.userStatus && cpuId == orig.cpuId
      ensures kernelSp == kstack
      ensures userRegs[..] == CloneRegs(orig.userRegs[..], flags, stack, tls)
    {
      forall i | 0 <= i < REG_COUNT {
        userRegs[i] := orig.userRegs[i];
      }
      kernelSatp := orig.kernelSatp;
      trapHandler := orig.trapHandler;
      userEpc := orig.userEpc;
      userStatus := orig.userStatus;
      cpuId := orig.cpuId;
      kernelSp := kstack;
      SetA0(0);
      if stack != 0 {
        SetSp(stack);
      }
      if HasFlag(flags, Clone.CLONE_SETTLS) {
        SetTp(tls);
      }
    }

    /** `syscall_no`: register a7. */
    function SyscallNo(): (no: Usize)
      requires Valid()
      reads this, userRegs
      ensures no == userRegs[A7]
    {
      userRegs[A7]
    }

    /**
     * `syscall_args`: the number from a7 and the six arguments a0..a5, or
     * the number itself as the error when it names no supported call
     * (`supported` stands for `SyscallNO::try_from`).
     */
    function SyscallArgs(supported: set<Usize>): (r: Result<(Usize, seq<Usize>), Usize>)
      requires Valid()
      reads this, userRegs
      ensures r.Err? <==> userRegs[A7] !in supported
      ensures r.Err? ==> r.error == userRegs[A7]
      ensures r.Ok? ==> r.value.0 == userRegs[A7] && |r.value.1| == 6
      ensures r.Ok? ==> forall k :: 0 <= k < 6 ==> r.value.1[k] == userRegs[A0 + k]
    {
      if userRegs[A7] !in supported then Err(userRegs[A7])
      else Ok((userRegs[A7], userRegs[A0..A0 + 6]))
    }

    /** `next_epc`: step over the 4-byte `ecall`, the pc wrapping as `usize` does. */
    method NextEpc()
      modifies this
      ensures userEpc == Wrap(old(userEpc) + 4)
      ensures kernelSatp == old(kernelSatp) && kernelSp == old(kernelSp) && trapHandler == old(trapHandler)
      ensures userStatus == old(userStatus) && cpuId == old(cpuId)
    {
      userEpc := Wrap(userEpc + 4);
    }

    /** `set_a0`: the return value register, and no other. */
    method SetA0(a0: Usize)
      requires Valid()
      modifies userRegs
      ensures userRegs[..] == old(userRegs[..])[A0 := a0]
    {
      userRegs[A0] := a0;
    }

    /** `set_sp`: the stack pointer, and no other register. */
    method SetSp(sp: Usize)
      requires Valid()
      modifies userRegs
      ensures userRegs[..] == old(userRegs[..])[SP := sp]
    {
      userRegs[SP] := sp;
    }

    /** `set_tp`: the thread pointer, and no other register. */
    method SetTp(tp: Usize)
      requires Valid()
      modifies userRegs
      ensures userRegs[..] == old(userRegs[..])[TP := tp]
    {
      userRegs[TP] := tp;
    }
  }
}
