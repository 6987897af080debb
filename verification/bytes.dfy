/** Byte-level helpers shared by every layer of the updater. */
module Bytes {

  /** An unsigned 8-bit value (`uint8_t`). */
  type byte = x: int | 0 <= x < 0x100

  /** An unsigned 16-bit value (`uint16_t`). */
  type u16 = x: int | 0 <= x < 0x1_0000

  const Word: int := 0x1_0000

  /** Low byte of a non-negative integer: `(x >> 0) & 0xff`. */
  function Lo(x: nat): byte
  {
    x % 0x100
  }

  /** Second byte of a non-negative integer: `(x >> 8) & 0xff`. */
  function Hi(x: nat): byte
  {
    (x / 0x100) % 0x100
  }

  /** `le_bytes_to_int`: the first two bytes of a buffer read as a little-endian word. */
  function LeBytesToInt(buf: seq<byte>): u16
    requires |buf| >= 2
  {
    buf[0] as int + buf[1] as int * 0x100
  }

  /** The low and high bytes of the decoded word are the two buffer bytes. */
  lemma LeBytes(buf: seq<byte>)
    requires |buf| >= 2
    ensures Lo(LeBytesToInt(buf)) == buf[0] && Hi(LeBytesToInt(buf)) == buf[1]
  {
  }

  /** Encoding a 16-bit value as `[Lo, Hi]` and decoding it again gives the value back. */
  lemma LeRoundTrip(v: u16)
    ensures LeBytesToInt([Lo(v), Hi(v)]) == v
  {
  }

  /** Two words with the same bytes are the same word: the decoding is injective. */
  lemma LeInjective(a: seq<byte>, b: seq<byte>)
    requires |a| >= 2 && |b| >= 2
    requires LeBytesToInt(a) == LeBytesToInt(b)
    ensures a[..2] == b[..2]
  {
    LeBytes(a);
    LeBytes(b);
  }

  /** `v & mask != 0` for a single-bit mask (a power of two): the bit is set when the value,
      modulo twice the mask, reaches the mask. */
  predicate HasBit(v: nat, mask: nat)
    requires mask > 0
  {
    v % (2 * mask) >= mask
  }

  /** Adding into a 16-bit accumulator: reducing before the addition changes nothing. */
  lemma AddMod(a: int, b: int)
    ensures (a % Word + b) % Word == (a + b) % Word
  {
    var q := a / Word;
    assert a == q * Word + a % Word;
    assert a + b == (a % Word + b) + q * Word;
  }
}
