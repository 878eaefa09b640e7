/**
 Physical memory as the page-table code sees it: 2^40 frames of 4096 bytes, each read and written as 512
 words of 64 bits.  Words are unbounded integers below 2^64; a shift right is a division and a mask a remainder.
 */
module Machine {
  const PAGE_SIZE := 4096
  const TWO64 := 0x1_0000_0000_0000_0000

  type Byte = b: int | 0 <= b < 256

  type Word = w: int | 0 <= w < 0x1_0000_0000_0000_0000

  /** A page frame number: the 40 bits an entry can hold. */
  type Frame = f: int | 0 <= f < 0x100_0000_0000

  type Index = i: int | 0 <= i < 512

  /** 2^40 frames of 512 words. */
  const RAM_WORDS: nat := 0x2_0000_0000_0000

  type Memory = m: seq<Word> | |m| == RAM_WORDS ghost witness seq(RAM_WORDS, _ => 0)

  datatype Option<+T> = None | Some(value: T)

  function Load(m: Memory, f: Frame, i: Index): Word {
    m[512 * f + i]
  }

  function Store(m: Memory, f: Frame, i: Index, w: Word): (r: Memory)
    ensures forall g: Frame, j: Index :: Load(r, g, j) == if g == f && j == i then w else Load(m, g, j)
  {
    m[512 * f + i := w]
  }

  function ZeroPage(m: Memory, f: Frame): (r: Memory)
    ensures forall g: Frame, j: Index :: Load(r, g, j) == if g == f then 0 else Load(m, g, j)
  {
    m[..512 * f] + seq(512, _ => 0) + m[512 * f + 512..]
  }

  /** 64-bit addition. */
  function Add64(a: Word, b: Word): Word {
    (a + b) % TWO64
  }

  /** 64-bit subtraction. */
  function Sub64(a: Word, b: Word): Word {
    (a - b) % TWO64
  }

  function FrameOfAddress(a: Word): Frame {
    a / 4096 % 0x100_0000_0000
  }
}
