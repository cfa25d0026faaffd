// Bytes, and the sequence helpers several components share.
module Bytes {

  // A C `char8_t`: one of 256 values, written as a character so that literals stay readable.
  type byte = c: char | c as int < 0x100 witness ' '

  type bytes = seq<byte>

  datatype Option<+T> = None | Some(value: T)
}
