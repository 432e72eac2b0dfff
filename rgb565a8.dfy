/** The planar RGB565A8 image layout of LVGL: the RGB565 words of all pixels,
    each little-endian, followed by the alpha bytes of all pixels, both in
    pixel order. It is written by the button generator and read and
    rewritten by the rescaler that works from an existing C array. */
module Rgb565A8 {
  import opened PixelCodec
  import CArrayText

  /** The colour plane: two bytes per pixel, low byte first. */
  function ColourPlane(ps: seq<Rgba>): seq<Byte>
  {
    if |ps| == 0 then []
    else
      var w := Rgb565Of(ps[|ps| - 1]);
      ColourPlane(ps[..|ps| - 1]) + [LowByte(w), HighByte(w)]
  }

  /** The alpha plane: one byte per pixel. */
  function AlphaPlane(ps: seq<Rgba>): seq<Byte>
  {
    if |ps| == 0 then [] else AlphaPlane(ps[..|ps| - 1]) + [ps[|ps| - 1].a]
  }

  /** The whole image: `rgb_data + alpha_data`. */
  function Planar(ps: seq<Rgba>): seq<Byte>
  {
    ColourPlane(ps) + AlphaPlane(ps)
  }

  lemma {:induction false} ColourPlaneAt(ps: seq<Rgba>, k: nat)
    requires k < |ps|
    ensures |ColourPlane(ps)| == 2 * |ps|
    ensures ColourPlane(ps)[2 * k] == LowByte(Rgb565Of(ps[k]))
    ensures ColourPlane(ps)[2 * k + 1] == HighByte(Rgb565Of(ps[k]))
    decreases |ps|
  {
    var init := ps[..|ps| - 1];
    ColourPlaneLength(init);
    if k < |ps| - 1 {
      ColourPlaneAt(init, k);
    }
  }

  lemma {:induction false} ColourPlaneLength(ps: seq<Rgba>)
    ensures |ColourPlane(ps)| == 2 * |ps|
    decreases |ps|
  {
    if |ps| > 0 {
      ColourPlaneLength(ps[..|ps| - 1]);
    }
  }

  lemma {:induction false} AlphaPlaneAt(ps: seq<Rgba>, k: nat)
    requires k < |ps|
    ensures |AlphaPlane(ps)| == |ps|
    ensures AlphaPlane(ps)[k] == ps[k].a
    decreases |ps|
  {
    var init := ps[..|ps| - 1];
    AlphaPlaneLength(init);
    if k < |ps| - 1 {
      AlphaPlaneAt(init, k);
    }
  }

  lemma {:induction false} AlphaPlaneLength(ps: seq<Rgba>)
    ensures |AlphaPlane(ps)| == |ps|
    decreases |ps|
  {
    if |ps| > 0 {
      AlphaPlaneLength(ps[..|ps| - 1]);
    }
  }

  /** Where pixel k lives in the planar layout of n pixels: its word at
      bytes 2k (low) and 2k + 1 (high), its alpha at byte 2n + k; 3n bytes
      in all. */
  lemma PlanarAt(ps: seq<Rgba>, k: nat)
    requires k < |ps|
    ensures |Planar(ps)| == 3 * |ps|
    ensures Planar(ps)[2 * k] == LowByte(Rgb565Of(ps[k]))
    ensures Planar(ps)[2 * k + 1] == HighByte(Rgb565Of(ps[k]))
    ensures Planar(ps)[2 * |ps| + k] == ps[k].a
  {
    ColourPlaneAt(ps, k);
    AlphaPlaneAt(ps, k);
  }

  lemma PlanarLength(ps: seq<Rgba>)
    ensures |Planar(ps)| == 3 * |ps|
  {
    ColourPlaneLength(ps);
    AlphaPlaneLength(ps);
  }

  /** The pixel loop of write_c_file: every pixel's word goes to the colour
      plane, low byte first, and its alpha to the alpha plane. */
  method EncodePixels(pixels: seq<Rgba>) returns (data: seq<Byte>)
    ensures data == Planar(pixels)
    ensures |data| == 3 * |pixels|
    ensures forall k :: 0 <= k < |pixels| ==>
      && data[2 * k] == LowByte(Rgb888ToRgb565(pixels[k].r, pixels[k].g, pixels[k].b))
      && data[2 * k + 1] == HighByte(Rgb888ToRgb565(pixels[k].r, pixels[k].g, pixels[k].b))
      && data[2 * |pixels| + k] == pixels[k].a
  {
    var rgbData: seq<Byte> := [];
    var alphaData: seq<Byte> := [];
    for i := 0 to |pixels|
      invariant rgbData == ColourPlane(pixels[..i])
      invariant alphaData == AlphaPlane(pixels[..i])
    {
      var p := pixels[i];
      var rgb565 := Rgb888ToRgb565(p.r, p.g, p.b);
      rgbData := rgbData + [LowByte(rgb565)];
      rgbData := rgbData + [HighByte(rgb565)];
      alphaData := alphaData + [p.a];
      assert pixels[..i + 1][..i] == pixels[..i];
    }
    assert pixels[..|pixels|] == pixels;
    data := rgbData + alphaData;
    PlanarLength(pixels);
    forall k | 0 <= k < |pixels|
      ensures data[2 * k] == LowByte(Rgb565Of(pixels[k]))
      ensures data[2 * k + 1] == HighByte(Rgb565Of(pixels[k]))
      ensures data[2 * |pixels| + k] == pixels[k].a
    {
      PlanarAt(pixels, k);
    }
  }

  /** The two planes built so far hold exactly the pixels visited so far. */
  ghost predicate Encoded(visited: seq<Rgba>, rgbData: seq<Byte>, alphaData: seq<Byte>)
  {
    rgbData == ColourPlane(visited) && alphaData == AlphaPlane(visited)
  }

  /** Appending a pixel's word bytes to the colour plane and its alpha to the
      alpha plane encodes one pixel more. */
  lemma EncodedSnoc(visited: seq<Rgba>, rgbData: seq<Byte>, alphaData: seq<Byte>, p: Rgba)
    requires Encoded(visited, rgbData, alphaData)
    ensures Encoded(visited + [p], rgbData + [LowByte(Rgb565Of(p))] + [HighByte(Rgb565Of(p))],
                    alphaData + [p.a])
  {
    assert (visited + [p])[..|visited|] == visited;
  }

  /** Where pixel (x, y) of a width x height image lands in its planar
      encoding: it is pixel i = y * width + x of the n = width * height
      pixels in row-major order. */
  lemma PlanarImageAt(img: seq<seq<Rgba>>, width: nat, height: nat, x: nat, y: nat, i: nat, n: nat)
    requires IsImage(img, width, height) && x < width && y < height
    requires i == y * width + x && n == width * height
    ensures i < n
    ensures |Planar(Flatten(img))| == 3 * n
    ensures Planar(Flatten(img))[2 * i] == LowByte(Rgb565Of(img[y][x]))
    ensures Planar(Flatten(img))[2 * i + 1] == HighByte(Rgb565Of(img[y][x]))
    ensures Planar(Flatten(img))[2 * n + i] == img[y][x].a
  {
    FlattenAt(img, width, height, x, y);
    PlanarAt(Flatten(img), i);
  }

  /** The re-encoding loops of the C-array rescaler: the resized image is
      visited row by row and laid out as RGB565A8. */
  method EncodeImage(img: seq<seq<Rgba>>, width: nat, height: nat) returns (data: seq<Byte>)
    requires IsImage(img, width, height)
    ensures data == Planar(Flatten(img))
    ensures |data| == 3 * (width * height)
  {
    var rgbData: seq<Byte> := [];
    var alphaData: seq<Byte> := [];
    ghost var visited: seq<Rgba> := [];
    for y := 0 to height
      invariant visited == Flatten(img[..y])
      invariant Encoded(visited, rgbData, alphaData)
    {
      ghost var rowsBefore := visited;
      for x := 0 to width
        invariant visited == rowsBefore + img[y][..x]
        invariant Encoded(visited, rgbData, alphaData)
      {
        var p := img[y][x];
        var r5 := (p.r / 8) % 32;
        var g6 := (p.g / 4) % 64;
        var b5 := (p.b / 8) % 32;
        var rgb565 := r5 * 2048 + g6 * 32 + b5;
        assert rgb565 == Rgb565Of(p);
        EncodedSnoc(visited, rgbData, alphaData, p);
        rgbData := rgbData + [LowByte(rgb565)];
        rgbData := rgbData + [HighByte(rgb565)];
        alphaData := alphaData + [p.a];
        assert visited + [p] == rowsBefore + img[y][..x + 1] by {
          assert img[y][..x + 1] == img[y][..x] + [p];
        }
        visited := visited + [p];
      }
      assert visited == Flatten(img[..y + 1]) by {
        assert img[y][..width] == img[y];
        assert img[..y + 1][..y] == img[..y];
      }
    }
    assert visited == Flatten(img) by {
      assert img[..height] == img;
    }
    data := rgbData + alphaData;
    FlattenLength(img, width, height);
    PlanarLength(Flatten(img));
  }

  /** The pixels n pixels of planar data stand for, when it is long enough. */
  function Pixels(raw: seq<Byte>, n: nat): (ps: seq<Rgba>)
    requires 3 * n <= |raw|
  {
    seq(n, i requires 0 <= i < n => PixelAt(raw, n, i))
  }

  /** Pixel i of n pixels of planar data. */
  function PixelAt(raw: seq<Byte>, n: nat, i: nat): Rgba
    requires 3 * n <= |raw| && i < n
  {
    DecodePixel(raw[2 * i], raw[2 * i + 1], raw[2 * n + i])
  }

  /** The decoder's result: the pixels, or the IndexError that Python raises
      at the first byte it reads beyond the data. */
  datatype Decoded = Decoded(pixels: seq<Rgba>) | IndexError(index: nat)

  /** The first |pixels| of n pixels have been decoded from planar data. */
  ghost predicate DecodedPrefix(pixels: seq<Rgba>, raw: seq<Byte>, n: nat)
  {
    && |pixels| <= n
    && (|pixels| == 0 || 2 * n + |pixels| <= |raw|)
    && forall k :: 0 <= k < |pixels| ==>
         pixels[k] == DecodePixel(raw[2 * k], raw[2 * k + 1], raw[2 * n + k])
  }

  lemma DecodedNext(pixels: seq<Rgba>, raw: seq<Byte>, n: nat, p: Rgba)
    requires DecodedPrefix(pixels, raw, n)
    requires |pixels| < n && 2 * n + |pixels| < |raw|
    requires p == DecodePixel(raw[2 * |pixels|], raw[2 * |pixels| + 1], raw[2 * n + |pixels|])
    ensures DecodedPrefix(pixels + [p], raw, n)
  {
  }

  lemma DecodedAll(pixels: seq<Rgba>, raw: seq<Byte>, n: nat)
    requires DecodedPrefix(pixels, raw, n) && |pixels| == n && 3 * n <= |raw|
    ensures pixels == Pixels(raw, n)
  {
    assert forall k :: 0 <= k < n ==> pixels[k] == PixelAt(raw, n, k);
  }

  /** The decoding loop of the C-array rescaler: pixel i has its word at
      raw[2i], raw[2i + 1] and its alpha at raw[2n + i]. */
  method DecodeImage(raw: seq<Byte>, width: nat, height: nat) returns (result: Decoded)
    ensures result.IndexError? <==> |raw| < 3 * (width * height)
    ensures result.IndexError? ==> |raw| <= result.index < 3 * (width * height)
    ensures result.Decoded? ==> result.pixels == Pixels(raw, width * height)
  {
    var n := width * height;
    var rgbSize := n * 2;
    var alphaOffset := rgbSize;
    var pixels: seq<Rgba> := [];
    for i := 0 to n
      invariant |pixels| == i
      invariant DecodedPrefix(pixels, raw, n)
    {
      if i * 2 >= |raw| {
        return IndexError(i * 2);
      }
      var lo := raw[i * 2];
      if i * 2 + 1 >= |raw| {
        return IndexError(i * 2 + 1);
      }
      var hi := raw[i * 2 + 1];
      var rgb565 := Word(lo, hi);
      var r := ((rgb565 / 2048) % 32) * 8;
      var g := ((rgb565 / 32) % 64) * 4;
      var b := (rgb565 % 32) * 8;
      if alphaOffset + i >= |raw| {
        return IndexError(alphaOffset + i);
      }
      var a := raw[alphaOffset + i];
      assert Rgba(r, g, b, a) == DecodePixel(lo, hi, a);
      DecodedNext(pixels, raw, n, Rgba(r, g, b, a));
      pixels := pixels + [Rgba(r, g, b, a)];
    }
    DecodedAll(pixels, raw, n);
    return Decoded(pixels);
  }

  /** Re-encoding pixel k of decoded planar data puts back the three bytes
      it was read from. */
  lemma ReencodePixel(raw: seq<Byte>, n: nat, k: nat)
    requires 3 * n <= |raw| && k < n
    ensures |Planar(Pixels(raw, n))| == 3 * n
    ensures Planar(Pixels(raw, n))[2 * k] == raw[2 * k]
    ensures Planar(Pixels(raw, n))[2 * k + 1] == raw[2 * k + 1]
    ensures Planar(Pixels(raw, n))[2 * n + k] == raw[2 * n + k]
  {
    var ps := Pixels(raw, n);
    assert ps[k] == PixelAt(raw, n, k);
    PlanarAt(ps, k);
    DecodeThenEncode(raw[2 * k], raw[2 * k + 1], raw[2 * n + k]);
  }

  /** Decoding planar data and encoding the pixels again reproduces the
      first 3n bytes exactly. */
  lemma ReencodeDecoded(raw: seq<Byte>, n: nat)
    requires 3 * n <= |raw|
    ensures Planar(Pixels(raw, n)) == raw[..3 * n]
  {
    var data := Planar(Pixels(raw, n));
    PlanarLength(Pixels(raw, n));
    forall j | 0 <= j < 3 * n
      ensures data[j] == raw[j]
    {
      if j < 2 * n {
        ReencodePixel(raw, n, j / 2);
      } else {
        ReencodePixel(raw, n, j - 2 * n);
      }
    }
  }

  /** Encoding pixels and decoding them again gives the pixels with each
      colour reduced to the bits RGB565 keeps. */
  lemma DecodeEncoded(ps: seq<Rgba>)
    ensures 3 * |ps| <= |Planar(ps)|
    ensures Pixels(Planar(ps), |ps|) == seq(|ps|, i requires 0 <= i < |ps| => Quantise(ps[i]))
  {
    PlanarLength(ps);
    forall k | 0 <= k < |ps|
      ensures Pixels(Planar(ps), |ps|)[k] == Quantise(ps[k])
    {
      PlanarAt(ps, k);
      EncodeThenDecode(ps[k]);
    }
  }

  /** The array a generator writes, scanned by the rescaler and decoded,
      gives back the generator's pixels with their colours quantised. */
  lemma ArrayReadsBack(ps: seq<Rgba>)
    ensures CArrayText.ParseHex(CArrayText.ArrayBody(Planar(ps))) == Planar(ps)
    ensures 3 * |ps| <= |Planar(ps)|
    ensures Pixels(CArrayText.ParseHex(CArrayText.ArrayBody(Planar(ps))), |ps|)
            == seq(|ps|, i requires 0 <= i < |ps| => Quantise(ps[i]))
  {
    CArrayText.ParseArrayBody(Planar(ps));
    DecodeEncoded(ps);
  }
}
