/**
 * Colour conversion for the icon renderer.
 *
 * Icon palettes hold 15-bit colours: three 5-bit channels packed into one 16-bit
 * word, channel 0 in bits 0-4, channel 1 in bits 5-9, channel 2 in bits 10-14.
 * The renderer widens each channel to 8 bits by scaling 0..31 onto 0..255 and
 * rounding to the nearest integer.
 */
module Color {
  import opened ByteReader
  import opened Arith

  /** One pixel of the output image, in channel order red, green, blue, alpha. */
  datatype Rgba = Rgba(r: u8, g: u8, b: u8, a: u8)

  /** The pixel written for palette index 0. */
  const Transparent := Rgba(0, 0, 0, 0)

  /**
   * Widens a 5-bit channel to 8 bits: `c * 255 / 31` rounded to the nearest
   * integer (the exact quotient is never halfway between two integers, so the
   * rounding mode does not matter), saturated at 255 as the conversion to a byte
   * saturates.
   */
  function Conv(c: u16): (v: u8)
    ensures c <= 31 ==> -15 <= 31 * v - 255 * c <= 15
    ensures c >= 31 ==> v == 255
  {
    var scaled := (255 * c + 15) / 31;
    if scaled > 255 then 255 else scaled
  }

  /** The 5-bit channel of `color` starting at bit `shift`. */
  function Channel(color: u16, shift: nat): (c: u16)
    requires shift == 0 || shift == 5 || shift == 10
    ensures c < 32
  {
    color / Pow2(shift) % 32
  }

  function Pow2(n: nat): (p: nat)
    ensures p >= 1
  {
    if n == 0 then 1 else 2 * Pow2(n - 1)
  }

  /** The opaque pixel for a palette colour. */
  function Expand(color: u16): (px: Rgba)
    ensures px.a == 255
    ensures px.r == Conv(color % 32)
    ensures px.g == Conv(color / 32 % 32)
    ensures px.b == Conv(color / 1024 % 32)
  {
    Rgba(Conv(Channel(color, 0)), Conv(Channel(color, 5)), Conv(Channel(color, 10)), 255)
  }

  /** The 15-bit colour whose channels are `r`, `g`, `b`. */
  function Pack(r: u16, g: u16, b: u16): (color: u16)
    requires r < 32 && g < 32 && b < 32
    ensures color < 0x8000
  {
    r + 32 * g + 1024 * b
  }

  /** Widening keeps the order of channel values. */
  lemma ConvMonotone(a: u16, b: u16)
    requires a <= b
    ensures Conv(a) <= Conv(b)
  {
    DivMonotone(255 * a + 15, 255 * b + 15, 31);
  }

  /** The endpoints of the 5-bit range map onto the endpoints of the 8-bit range. */
  lemma ConvEndpoints()
    ensures Conv(0) == 0 && Conv(31) == 255
  {
  }

  /** Distinct 5-bit channel values stay distinct after widening. */
  lemma ConvInjective(a: u16, b: u16)
    requires a <= 31 && b <= 31 && Conv(a) == Conv(b)
    ensures a == b
  {
  }

  /** Every 5-bit channel survives the packing and is widened into its own slot. */
  lemma ExpandOfPack(r: u16, g: u16, b: u16)
    requires r < 32 && g < 32 && b < 32
    ensures Expand(Pack(r, g, b)) == Rgba(Conv(r), Conv(g), Conv(b), 255)
  {
    ChannelsOfPack(r, g, b);
  }

  /** The channels of a packed colour are the values packed. */
  lemma ChannelsOfPack(r: u16, g: u16, b: u16)
    requires r < 32 && g < 32 && b < 32
    ensures Pack(r, g, b) % 32 == r && Pack(r, g, b) / 32 % 32 == g && Pack(r, g, b) / 1024 % 32 == b
  {
    DigitSplit(r, g + 32 * b, 32);
    DigitSplit(g, b, 32);
    DigitSplit(r + 32 * g, b, 1024);
  }

  /** Two colours that differ below bit 15 expand to different pixels. */
  lemma ExpandInjective(c1: u16, c2: u16)
    requires c1 < 0x8000 && c2 < 0x8000 && Expand(c1) == Expand(c2)
    ensures c1 == c2
  {
    ConvInjective(c1 % 32, c2 % 32);
    ConvInjective(c1 / 32 % 32, c2 / 32 % 32);
    ConvInjective(c1 / 1024 % 32, c2 / 1024 % 32);
    PackOfChannels(c1);
    PackOfChannels(c2);
  }

  /** A colour below bit 15 is the packing of its own three channels. */
  lemma PackOfChannels(c: u16)
    requires c < 0x8000
    ensures c == c % 32 + 32 * (c / 32 % 32) + 1024 * (c / 1024 % 32)
  {
    var lo, hi := c % 32, c / 32;
    assert c == lo + 32 * hi;
    assert hi == hi % 32 + 32 * (hi / 32);
    assert hi / 32 == c / 1024;
    assert c / 1024 < 32;
  }
}
