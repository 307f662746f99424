/** Basic types shared by all modules. */
module Types {

  newtype byte = x: int | 0 <= x < 256

  type uint64 = x: nat | x < 0x1_0000_0000_0000_0000

  // A Go string is a sequence of bytes; the repository uses strings as duty ids and public keys.
  type Id = seq<byte>

  // An instant, in nanoseconds since the zero instant of Go's time.Time.
  type Time = int

  const ZERO_TIME: Time := 0

  datatype Option<+T> = None | Some(value: T)

  datatype Result<+T, +E> = Ok(value: T) | Err(error: E)
}
