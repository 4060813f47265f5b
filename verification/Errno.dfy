/** The error numbers in use. */
module Errno {
  const ENOENT: int := 2
  const EIO: int := 5
  const EBADF: int := 9
  const EAGAIN: int := 11
  const ENOMEM: int := 12
  const EFAULT: int := 14
  const EEXIST: int := 17
  const ENODEV: int := 19
  const EINVAL: int := 22
  const EMFILE: int := 24
  const ENOTTY: int := 25
  const ENOSPC: int := 28
  const EROFS: int := 30
}
