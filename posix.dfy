/** The POSIX error numbers the bridge returns or tests, with their Linux
    values. */
module Posix {
  const ENOENT: int := 2
  const EINTR: int := 4
  const EINVAL: int := 22
  const ENOSYS: int := 38
}
