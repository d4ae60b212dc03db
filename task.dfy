/**
 * The parts of a kernel task that scheduling and exit handling look at.
 * A task is shared (`Arc<Task>`) and its state and family links change in
 * place, so it is a class; its ids and exit signal are fixed at creation.
 */
module Tasks {
  import opened Wrappers

  /** Linux's `SIGCHLD`, the exit signal of an ordinary child process. */
  const SIGCHLD: nat := 17
  /** `SIGNONE`: a thread reports no signal to its parent on exit. */
  const SIGNONE: nat := 0

  datatype TaskState = Runnable | Running | Interruptible | Stopped | Zombie | Dead

  class Task {
    const tid: nat
    const pid: nat
    const exitSignal: nat
    var state: TaskState
    var exitCode: int
    var parent: Option<Task>
    var children: seq<Task>

    constructor (tid: nat, pid: nat, exitSignal: nat, state: TaskState)
      ensures this.tid == tid && this.pid == pid && this.exitSignal == exitSignal && this.state == state
      ensures exitCode == 0 && parent == None && children == []
    {
      this.tid := tid;
      this.pid := pid;
      this.exitSignal := exitSignal;
      this.state := state;
      exitCode := 0;
      parent := None;
      children := [];
    }
  }
}
