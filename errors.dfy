/** The values the buffer's operations report instead of Go's `error`, and the
    replies of the operating-system calls, which the model takes as inputs. */
module Errors {

  /** `None` stands for Go's `nil` error. */
  datatype Option<+T> = None | Some(value: T)

  /** An error raised by the operating system. Only "the file does not exist"
      (what `os.IsNotExist` detects) and EINVAL are told apart. */
  datatype OsError = NotExist | Invalid | OtherOsError(code: nat)

  /** What an operation of the buffer can report:
      - `ErrIsClosed`: the buffer is closed;
      - `EOF`: Go's `io.EOF`, a short read;
      - `SysErr`: an operating-system error, passed on unchanged;
      - `Panic`: the Go run time would panic (a slice index or a length out
        of range); no error value is returned then, the program stops. */
  datatype Error = ErrIsClosed | EOF | SysErr(cause: OsError) | Panic

  /** The answer the operating system gives to one call. */
  datatype Reply = Ok | Fail(cause: OsError)

  /** The answers to the calls one operation may make: `munmap`, opening the
      file, `fstat`, `ftruncate` and `mmap`. Each call may fail on its own. */
  datatype Os = Os(munmap: Reply, open: Reply, stat: Reply, ftruncate: Reply, mmap: Reply)

  /** The environment in which every call succeeds. */
  const AllOk: Os := Os(Ok, Ok, Ok, Ok, Ok)

  /** The error an operation returns for a failed call. */
  function Failure(r: Reply): Option<Error>
    requires r.Fail?
  {
    Some(SysErr(r.cause))
  }
}
