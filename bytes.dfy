/** Shared vocabulary: bytes, the separators the engine looks for, the
    machine-integer bounds it relies on, an `Option` that stands for Rust's,
    and the bytes of ASCII text. */
module Bytes {

  /** One byte of a `&[u8]` or of the UTF-8 encoding of a `&str`. */
  newtype byte = x: int | 0 <= x < 0x100

  const NL: byte := 10   // b'\n'
  const TAB: byte := 9   // '\t'
  const SP: byte := 32   // ' '

  /** u64::MAX; also usize::MAX, the engine targeting 64-bit machines. */
  const U64_MAX: nat := 0xFFFF_FFFF_FFFF_FFFF
  const USIZE_MAX: nat := U64_MAX

  datatype Option<+T> = None | Some(value: T)

  /** The bytes of an ASCII string literal (used to write test inputs). */
  function Ascii(s: string): (r: seq<byte>)
    ensures |r| == |s|
  {
    seq(|s|, i requires 0 <= i < |s| => ((s[i] as int) % 0x100) as byte)
  }
}
