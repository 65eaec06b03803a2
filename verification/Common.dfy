/** What several modules share: optional values, machine bytes and words, and error numbers. */
module Common {

  datatype Option<T> = None | Some(value: T)

  type byte = x: int | 0 <= x < 256

  /** One more than the largest 32-bit word. */
  const WORD: nat := 0x1_0000_0000

  function Min(a: int, b: int): int {
    if a < b then a else b
  }

  const EPERM: int := 1
  const ENOENT: int := 2
  const ESRCH: int := 3
  const EBADF: int := 9
  const EACCES: int := 13
  const EEXIST: int := 17
  const EINVAL: int := 22
  const EMFILE: int := 24
  const EPIPE: int := 32
  const ENAMETOOLONG: int := 36
  const EALREADY: int := 114
  const ENOTNAM: int := 118
}
