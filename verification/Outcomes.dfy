/** Kernel-style results: a value or an error number. */
module Outcomes {
  datatype Errno = EINVAL | ENXIO | EPERM | ENOENT | EOVERFLOW | Other(code: int)

  datatype Result<+T> = Ok(value: T) | Err(error: Errno)

  datatype Option<+T> = None | Some(value: T)
}
