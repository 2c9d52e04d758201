/** Bytes, 16-bit code units and 32-bit words as ranges of `int`, and the bit operations of the
    source written as arithmetic. */
module Words {

  const WORD := 0x1_0000_0000

  type byte = x: int | 0 <= x < 256
  type u16 = x: int | 0 <= x < 0x1_0000
  type u32 = x: int | 0 <= x < 0x1_0000_0000
  type i32 = x: int | -0x8000_0000 <= x < 0x8000_0000

  /** `hi | lo`. The precondition makes Dafny prove, at every use, that the operands share no bit:
      `hi` is a multiple of the power of two `w` and `lo` is below it. */
  function Or(hi: int, lo: int, w: int): int
    requires 0 < w && hi % w == 0 && 0 <= lo < w
  {
    hi + lo
  }

  /** The four bytes of a 32-bit word, most significant first. */
  function Big32(n: u32): (r: seq<byte>)
    ensures |r| == 4
  {
    [n / 0x100_0000, n / 0x1_0000 % 256, n / 256 % 256, n % 256]
  }

  /** `((b0 << 24) | (b1 << 16) | (b2 << 8) | b3) >>> 0` */
  function Join32(b0: byte, b1: byte, b2: byte, b3: byte): u32
  {
    Or(b0 * 0x100_0000, Or(b1 * 0x1_0000, Or(b2 * 256, b3, 256), 0x1_0000), 0x100_0000)
  }

  lemma Join32OfBig32(n: u32)
    ensures var b := Big32(n); Join32(b[0], b[1], b[2], b[3]) == n
  {
    assert n / 0x1_0000 == n / 0x100_0000 * 256 + n / 0x1_0000 % 256;
    assert n / 256 == n / 0x1_0000 * 256 + n / 256 % 256;
  }
}
