/** The pixel arithmetic shared by the image tools: 8-bit RGBA pixels, the
    RGB565 word they are packed into, its little-endian byte split, and the
    decoding of a word back to 8-bit channels. Python integers are unbounded;
    for them `x >> k` is floor division by 2^k and `x & (2^m - 1)` is the
    remainder modulo 2^m, which is what Dafny's `/` and `%` compute for a
    positive divisor. */
module PixelCodec {

  /** A value a Python bytearray accepts. */
  type Byte = x: int | 0 <= x < 256

  /** An RGBA pixel, as make_button builds it and as Pillow's getpixel
      returns it for an RGBA image. */
  datatype Rgba = Rgba(r: Byte, g: Byte, b: Byte, a: Byte)

  function Min(x: int, y: int): int { if x <= y then x else y }
  function Max(x: int, y: int): int { if x <= y then y else x }

  /** clamp(v, lo, hi) of the button generator, on an integer v. */
  function Clamp(v: int, lo: int := 0, hi: int := 255): (c: int)
    ensures lo <= hi ==> lo <= c <= hi
    ensures lo <= v <= hi ==> c == v
    ensures v < lo ==> c == lo
    ensures lo <= hi < v ==> c == hi
    ensures hi < lo ==> c == lo
  {
    Max(lo, Min(hi, v))
  }

  /** rgb888_to_rgb565: the top five bits of red, six of green and five of
      blue packed into one 16-bit word. The three fields do not overlap, so
      the source's bitwise or is a sum. */
  function Rgb888ToRgb565(r: int, g: int, b: int): (w: int)
    ensures 0 <= w < 0x1_0000
    ensures w / 2048 == (r / 8) % 32
    ensures (w / 32) % 64 == (g / 4) % 64
    ensures w % 32 == (b / 8) % 32
  {
    var r5 := (r / 8) % 32;
    var g6 := (g / 4) % 64;
    var b5 := (b / 8) % 32;
    assert 0 <= g6 * 32 + b5 < 2048;
    r5 * 2048 + g6 * 32 + b5
  }

  /** The RGB565 word of a pixel; its alpha is not part of it. */
  function Rgb565Of(p: Rgba): int
  {
    Rgb888ToRgb565(p.r, p.g, p.b)
  }

  /** For 8-bit channels the masks drop nothing: the word holds r >> 3,
      g >> 2 and b >> 3 in bits 11-15, 5-10 and 0-4. */
  lemma Rgb565Fields(p: Rgba)
    ensures Rgb565Of(p) / 2048 == p.r / 8
    ensures (Rgb565Of(p) / 32) % 64 == p.g / 4
    ensures Rgb565Of(p) % 32 == p.b / 8
  {
  }

  /** `w & 0xFF`, the byte written first. */
  function LowByte(w: int): Byte
  {
    w % 256
  }

  /** `(w >> 8) & 0xFF`, the byte written second. */
  function HighByte(w: int): Byte
  {
    (w / 256) % 256
  }

  /** `lo | (hi << 8)`: a little-endian 16-bit word read back. */
  function Word(lo: Byte, hi: Byte): (w: int)
    ensures 0 <= w < 0x1_0000
    ensures LowByte(w) == lo && HighByte(w) == hi
  {
    lo + hi * 256
  }

  /** Splitting a 16-bit word into bytes and joining them gives it back. */
  lemma WordOfBytes(w: int)
    requires 0 <= w < 0x1_0000
    ensures Word(LowByte(w), HighByte(w)) == w
  {
  }

  /** One pixel of an RGB565A8 image read back: the channels of the word
      stored as lo, hi widened to eight bits with zero low bits, and the
      alpha byte as stored. */
  function DecodePixel(lo: Byte, hi: Byte, alpha: Byte): (p: Rgba)
    ensures p.r % 8 == 0 && p.r <= 248
    ensures p.g % 4 == 0 && p.g <= 252
    ensures p.b % 8 == 0 && p.b <= 248
    ensures p.a == alpha
  {
    var w := Word(lo, hi);
    var r5, g6, b5 := (w / 2048) % 32, (w / 32) % 64, w % 32;
    Widened(r5);
    Widened(g6);
    Widened(b5);
    Rgba(r5 * 8, g6 * 4, b5 * 8, alpha)
  }

  /** A field shifted left by three or two bits has those bits clear. */
  lemma Widened(x: int)
    ensures (x * 8) % 8 == 0 && (x * 4) % 4 == 0
  {
  }

  /** An 8-bit channel with its low bits dropped, as RGB565 keeps it. */
  function Quantise(p: Rgba): Rgba
  {
    Rgba(p.r / 8 * 8, p.g / 4 * 4, p.b / 8 * 8, p.a)
  }

  /** A 16-bit word is the sum of its three colour fields. */
  lemma SplitWord(w: int)
    requires 0 <= w < 0x1_0000
    ensures w == 2048 * ((w / 2048) % 32) + 32 * ((w / 32) % 64) + w % 32
  {
    var q := w / 2048;
    var m := w % 2048;
    assert w == 2048 * q + m;
    assert q < 32;
    assert m == 32 * (m / 32) + m % 32;
    assert m % 32 == w % 32;
    assert m / 32 == (w / 32) % 64;
  }

  /** Widened fields pack back to the fields themselves. */
  lemma PackWidened(x: int, y: int, z: int)
    requires 0 <= x < 32 && 0 <= y < 64 && 0 <= z < 32
    ensures Rgb888ToRgb565(x * 8, y * 4, z * 8) == 2048 * x + 32 * y + z
  {
    var w := Rgb888ToRgb565(x * 8, y * 4, z * 8);
    assert (x * 8) / 8 == x && (y * 4) / 4 == y && (z * 8) / 8 == z;
    assert w / 2048 == x && (w / 32) % 64 == y && w % 32 == z;
    SplitWord(w);
  }

  /** Decoding then re-encoding a stored word gives the same word: the
      decoder loses nothing the encoder keeps. */
  lemma DecodeThenEncode(lo: Byte, hi: Byte, alpha: Byte)
    ensures Rgb565Of(DecodePixel(lo, hi, alpha)) == Word(lo, hi)
  {
    var w := Word(lo, hi);
    SplitWord(w);
    PackWidened((w / 2048) % 32, (w / 32) % 64, w % 32);
  }

  /** Encoding then decoding a pixel keeps the top bits of each colour and
      the alpha. */
  lemma EncodeThenDecode(p: Rgba)
    ensures DecodePixel(LowByte(Rgb565Of(p)), HighByte(Rgb565Of(p)), p.a) == Quantise(p)
  {
    var w := Rgb565Of(p);
    Rgb565Fields(p);
    WordOfBytes(w);
  }

  /** A decoded pixel is already quantised. */
  lemma QuantiseDecoded(lo: Byte, hi: Byte, alpha: Byte)
    ensures Quantise(DecodePixel(lo, hi, alpha)) == DecodePixel(lo, hi, alpha)
  {
  }

  /** The rows of an image laid end to end: the order in which a nested
      `for y` / `for x` loop visits its pixels. */
  function Flatten(rows: seq<seq<Rgba>>): seq<Rgba>
  {
    if |rows| == 0 then [] else Flatten(rows[..|rows| - 1]) + rows[|rows| - 1]
  }

  /** img[y][x] is the pixel at column x of row y of a width x height image. */
  predicate IsImage(img: seq<seq<Rgba>>, width: nat, height: nat)
  {
    |img| == height && forall y :: 0 <= y < height ==> |img[y]| == width
  }

  /** In row-major order pixel (x, y) comes at index y * width + x. */
  lemma {:induction false} FlattenAt(img: seq<seq<Rgba>>, width: nat, height: nat, x: nat, y: nat)
    requires IsImage(img, width, height) && x < width && y < height
    ensures |Flatten(img)| == width * height
    ensures y * width + x < width * height
    ensures Flatten(img)[y * width + x] == img[y][x]
    decreases height
  {
    var last := height - 1;
    var before := img[..last];
    assert IsImage(before, width, last);
    FlattenLength(before, width, last);
    assert width * height == width * last + width;
    if y < last {
      FlattenAt(before, width, last, x, y);
    } else {
      assert y * width == width * last;
    }
  }

  /** A width x height image has width * height pixels. */
  lemma {:induction false} FlattenLength(img: seq<seq<Rgba>>, width: nat, height: nat)
    requires IsImage(img, width, height)
    ensures |Flatten(img)| == width * height
    decreases height
  {
    if height > 0 {
      assert IsImage(img[..height - 1], width, height - 1);
      FlattenLength(img[..height - 1], width, height - 1);
      assert width * height == width * (height - 1) + width;
    }
  }
}
