/** What all the models share. */
module Common {

  /** An unsigned char. */
  type Byte = b: int | 0 <= b < 256

  datatype Option<+T> = None | Some(value: T)

  function Min(a: int, b: int): (r: int) { if a < b then a else b }
}
