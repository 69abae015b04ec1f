/**
 The operating-system boundary shared by the socket primitives: the `errno`
 value that marks a call interrupted by a signal, and the result of one
 `read` or `write` system call as seen by its caller.
 */
module SysCalls {

  /** `errno` after a system call that a signal interrupted before any byte moved (Linux value). */
  const EINTR: int := 4

  /** One `read`/`write` call: its return value and the `errno` it left behind. */
  datatype SysResult = SysResult(ret: int, errno: int)

  /** The call failed only because a signal arrived: the case the wrappers retry. */
  predicate Interrupted(r: SysResult) {
    r.ret < 0 && r.errno == EINTR
  }
}
