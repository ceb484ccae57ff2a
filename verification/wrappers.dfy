module Wrappers {

  datatype Option<+T> = None | Some(value: T)

  datatype Result<+T> = Ok(value: T) | Error(message: string)

  newtype Byte = x: int | 0 <= x < 0x100
}
