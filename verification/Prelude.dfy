/** What several modules share. */
module Prelude {
  /** The range of a 32-bit word. */
  const WORD: nat := 0x1_0000_0000

  // error numbers
  const ENOENT := -2
  const EINTR := -4
  const ENOMEM := -12
  const EFAULT := -14
  const ELOOP := -40

  datatype Option<+T> = None | Some(value: T)

  function Min(a: nat, b: nat): nat {
    if a <= b then a else b
  }

  function Max(a: nat, b: nat): nat {
    if a <= b then b else a
  }
}
