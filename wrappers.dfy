/** Option and Result, the shapes the kernel's `Option<T>` and `Result<T, E>` take here. */
module Wrappers {
  datatype Option<T> = None | Some(value: T)
  {
    predicate IsSome() { Some? }
  }

  datatype Result<T, E> = Ok(value: T) | Err(error: E)
  {
    predicate IsOk() { Ok? }
  }
}

/** A byte (`u8`, C `unsigned char`). */
module Bytes {
  type Byte = x: nat | x < 256

  function Min(a: nat, b: nat): (m: nat)
    ensures m <= a && m <= b && (m == a || m == b)
  {
    if a <= b then a else b
  }
}

/** The error values the modelled kernel code returns: POSIX `errno`s and the kernel's own error kinds. */
module Errors {
  datatype Errno = EINVAL | ECHILD | ENOMEM | EBADF

  datatype KernelError =
    | PageTableInvalid
    | PageUnmapped
    | FrameAllocFailed
    | FrameOutOfRange
    | FatalPageFault
    | InvalidArgs
    | PMAOutOfRange
    | PMAFrameNotFound
    | FDNotFound
    | FDOutOfBound
    | IOUnexpectedEof
    | PMAFailedIO
    | VMAAllocFailed
    | ErrnoError(errno: Errno)
}
