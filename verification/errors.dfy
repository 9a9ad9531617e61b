/** Kernel-style error codes and the result type every operation returns. */
module Errors {

  /** The Linux error numbers the modelled core produces, plus the two
      loader-level error kinds of the underlying framework. */
  datatype Errno =
    | EINVAL      // bad flags, bad size, overflowing address, bad time fields
    | EAGAIN      // futex word mismatch
    | ETIMEDOUT   // futex wait deadline elapsed
    | EOWNERDEAD  // futex wait succeeded, previous owner died
    | ENOSYS      // unknown futex command
    | ENOEXEC     // not an ELF file
    | ELOOP       // robust list longer than the traversal bound
    | EFAULT      // user pointer does not translate
    | ESRCH       // no thread with the requested id
    | InvalidInput // loader: no program path
    | InvalidData  // loader: malformed shebang line or ELF segment
    | Collaborator(code: nat) // an error reported by a component outside this model

  /** A value or an error; failure-compatible, so `:-` propagates the error. */
  datatype Result<+T> = Ok(value: T) | Err(error: Errno) {

    predicate IsFailure() {
      Err?
    }

    function PropagateFailure<U>(): Result<U>
      requires Err?
    {
      Err(error)
    }

    function Extract(): T
      requires Ok?
    {
      value
    }
  }

  datatype Option<+T> = None | Some(value: T)
}
