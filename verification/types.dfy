/** Machine types shared by the whole model: the C integer widths the
    program uses, its one-byte characters, and its error codes. */
module Types {

  /** uint8_t */
  type uint8 = x: int | 0 <= x < 0x100

  /** uint32_t */
  type uint32 = x: int | 0 <= x < 0x1_0000_0000

  /** char_t: one byte of text. The render buffer may hold any byte value. */
  type char8 = c: char | c as int < 0x100 witness ' '

  datatype Option<+T> = None | Some(value: T)

  /** The errno values the core returns. */
  datatype Errno = EOK | EINVAL | EBADF

  /** Conversion of an arbitrary integer to uint8_t (C truncation modulo 2^8). */
  function ToUint8(x: int): (r: uint8)
  {
    x % 0x100
  }

  /** Conversion of an arbitrary integer to uint32_t (C wrap-around modulo 2^32). */
  function ToUint32(x: int): (r: uint32)
  {
    x % 0x1_0000_0000
  }

  /** The buffer `mem` with `s` copied over it starting at `at`. */
  function Splice<T>(mem: seq<T>, at: nat, s: seq<T>): (r: seq<T>)
    requires at + |s| <= |mem|
    ensures |r| == |mem|
    ensures forall k :: 0 <= k < |s| ==> r[at + k] == s[k]
    ensures forall k :: 0 <= k < |mem| && !(at <= k < at + |s|) ==> r[k] == mem[k]
  {
    mem[..at] + s + mem[at + |s|..]
  }
}
