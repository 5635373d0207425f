/** Types and small helpers shared by every module of the model. */
module Common {
  datatype Option<+T> = None | Some(value: T)

  type Byte = bv8
  type Bytes = seq<Byte>

  function Min(a: int, b: int): int {
    if a <= b then a else b
  }

  function Max(a: int, b: int): int {
    if a >= b then a else b
  }

  // Error numbers as the C code returns them.
  const EPERM := -1
  const ENOENT := -2
  const EINVAL := -22
}
