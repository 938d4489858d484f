/** The Linux errno values the engine returns, negated by the callers. */
module Errors {
  const ENOENT: int := 2
  const EIO: int := 5
  const ENOMEM: int := 12
  const EEXIST: int := 17
  const ENOTDIR: int := 20
  const EISDIR: int := 21
  const EINVAL: int := 22
  const ENFILE: int := 23
  const ENOSPC: int := 28
  const ESPIPE: int := 29
  const ENOTEMPTY: int := 39
  const ENODATA: int := 61
}
