/** What every part uses. */
module Common {

  /** PAGE_SIZE, which is the block size of the parent as well. */
  const PAGE: nat := 4096

  datatype Option<+T> = None | Some(value: T)

  function Max(a: int, b: int): int {
    if a > b then a else b
  }

  function Min(a: int, b: int): int {
    if a < b then a else b
  }
}
