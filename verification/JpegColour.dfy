/** The decoder's way back from luma and chroma to a pixel. */
module JpegColour {
  import opened Bits
  import opened JpegPixels

  /** Red, green and blue of a sample triple; chroma is around 0. */
  function RedOf(y: real, v: real): real { y + 1.402 * v }

  function GreenOf(y: real, u: real, v: real): real { y - 0.344136 * u - 0.714136 * v }

  function BlueOf(y: real, u: real): real { y + 1.772 * u }

  /** Bits 16-23, 8-15 and 0-7 of a pixel are its channels. */
  lemma Channels(r: byte, g: byte, b: byte, a: byte)
    ensures var p := a * 0x100_0000 + r * 0x1_0000 + g * 0x100 + b; Red(p) == r && Green(p) == g && Blue(p) == b
  {
    var p := a * 0x100_0000 + r * 0x1_0000 + g * 0x100 + b;
    assert p == 0x1_0000 * (a * 256 + r) + (g * 256 + b) && p == 256 * (a * 0x1_0000 + r * 256 + g) + b;
    Halve(a * 256 + r, g * 256 + b, 0x1_0000);
    Halve(a * 0x1_0000 + r * 256 + g, b, 256);
    Halve(a, r, 256);
    Halve(a * 256 + r, g, 256);
  }

  lemma Halve(hi: nat, lo: nat, d: nat)
    requires lo < d
    ensures (d * hi + lo) / d == hi && (d * hi + lo) % d == lo
  {
    ModUnique(d * hi + lo, d, hi, lo);
    assert d * ((d * hi + lo) / d) == d * hi;
  }

  const CLOSE := 0.001

  /** The decoder's conversion undoes the encoder's within a thousandth. */
  lemma ColourInverse(p: Argb)
    ensures var y, u, v := Luma(p), ChromaB(p) - 128.0, ChromaR(p) - 128.0;
            && -CLOSE <= RedOf(y, v) - Red(p) as real <= CLOSE
            && -CLOSE <= GreenOf(y, u, v) - Green(p) as real <= CLOSE
            && -CLOSE <= BlueOf(y, u) - Blue(p) as real <= CLOSE
  {
    hide Red, Green, Blue;
  }

  /** Rounded towards zero. */
  function Trunc(x: real): int { if x >= 0.0 then x.Floor else -((-x).Floor) }

  /** Kept to a byte. */
  function Clamp(n: int): (c: byte) { if n < 0 then 0 else if n > 255 then 255 else n }

  lemma ClampNear(x: real, c: byte, e: real)
    requires 0.0 <= e && -e <= x - c as real <= e
    ensures -(e + 1.0) < Clamp(Trunc(x)) as real - c as real <= e
  {
  }

  lemma ClampGap(x: real, z: real, e: real)
    requires 0.0 <= e && -e <= x - z <= e
    ensures -(e + 1.0) <= (Clamp(Trunc(x)) - Clamp(Trunc(z))) as real <= e + 1.0
  {
  }
}
