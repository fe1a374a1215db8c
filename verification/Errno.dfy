/** Status codes, as the kernel returns them. */
module Errno {
  const ENOENT: int := -2
  const EIO: int := -5
  const ENOEXEC: int := -8
  const EBADF: int := -9
  const ECHILD: int := -10
  const ENOMEM: int := -12
  const EBUSY: int := -16
  const EEXIST: int := -17
  const ENOTDIR: int := -20
  const EISDIR: int := -21
  const EINVAL: int := -22
  const ENFILE: int := -23
  const EMFILE: int := -24
  const ENOSPC: int := -28
  const ENOTEMPTY: int := -39
}
