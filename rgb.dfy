/** Packed RGB pixels and their colour channels.
 *
 *  A pixel is the 32-bit int that `getRGB` returns and `setRGB` accepts;
 *  the filter reads the red, green and blue bytes out of bits 16..23, 8..15
 *  and 0..7 and writes them back in the same places.
 *
 *  The bit operations are written as the arithmetic they amount to on a
 *  two's-complement int: an arithmetic shift right by n is floor division
 *  by 2^n (Dafny's `/` by a positive divisor floors), masking with 0xFF is
 *  the non-negative remainder modulo 256, and `(r << 16) | (g << 8) | b` with
 *  every channel in 0..255 sets disjoint bits, so the `|` is a `+`.
 */
module Rgb {

  /** One colour channel: a byte, 0..255. */
  type Channel = x: int | 0 <= x < 256

  /** A packed pixel: a Java `int`. */
  type Pixel = x: int | -0x8000_0000 <= x < 0x8000_0000

  datatype Color = Color(red: Channel, green: Channel, blue: Channel)

  /** `(rgb >> 16) & 0xFF` */
  function Red(p: Pixel): Channel {
    (p / 0x1_0000) % 0x100
  }

  /** `(rgb >> 8) & 0xFF` */
  function Green(p: Pixel): Channel {
    (p / 0x100) % 0x100
  }

  /** `rgb & 0xFF` */
  function Blue(p: Pixel): Channel {
    p % 0x100
  }

  /** The three channels of a pixel are the digits, in base 256, of its low
   *  24 bits. */
  function Unpack(p: Pixel): (c: Color)
    ensures c.red * 0x1_0000 + c.green * 0x100 + c.blue == p % 0x100_0000
  {
    LowBytes(p);
    Color(Red(p), Green(p), Blue(p))
  }

  lemma LowBytes(p: Pixel)
    ensures Red(p) * 0x1_0000 + Green(p) * 0x100 + Blue(p) == p % 0x100_0000
  {
    var q0, q1, q2 := p / 0x100, p / 0x1_0000, p / 0x100_0000;
    assert p == q0 * 0x100 + Blue(p);
    assert q1 == q0 / 0x100;
    assert q0 == q1 * 0x100 + Green(p);
    assert q2 == q1 / 0x100;
    assert q1 == q2 * 0x100 + Red(p);
    assert p == q2 * 0x100_0000 + Red(p) * 0x1_0000 + Green(p) * 0x100 + Blue(p);
  }

  /** `(r << 16) | (g << 8) | b`: the channels land in disjoint bytes, so
   *  unpacking gives them back and the top byte stays clear. */
  function Pack(c: Color): (p: Pixel)
    ensures Unpack(p) == c
    ensures 0 <= p < 0x100_0000
  {
    PackedChannels(c.red, c.green, c.blue);
    c.red * 0x1_0000 + c.green * 0x100 + c.blue
  }

  lemma PackedChannels(r: Channel, g: Channel, b: Channel)
    ensures var p := r * 0x1_0000 + g * 0x100 + b;
            Red(p) == r && Green(p) == g && Blue(p) == b
  {
    var p := r * 0x1_0000 + g * 0x100 + b;
    assert p == (r * 0x100 + g) * 0x100 + b;
    assert p / 0x100 == r * 0x100 + g;
    assert p / 0x1_0000 == r;
  }

  /** Packing what was unpacked keeps the three colour bytes (the low 24
   *  bits) and clears the top, alpha, byte. */
  lemma PackUnpack(p: Pixel)
    ensures Pack(Unpack(p)) == p % 0x100_0000
  {
  }

  /** Two pixels unpack to the same colour exactly when their low 24 bits agree. */
  lemma UnpackEqual(p: Pixel, q: Pixel)
    ensures Unpack(p) == Unpack(q) <==> p % 0x100_0000 == q % 0x100_0000
  {
    PackUnpack(p);
    PackUnpack(q);
  }
}
