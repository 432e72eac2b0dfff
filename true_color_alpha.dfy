/** The interleaved layout that the PNG rescaler writes: for each pixel in
    row-major order, the low byte of its RGB565 word, the high byte, then
    its alpha (LVGL's true-colour-with-alpha format at 16-bit depth). */
module TrueColorAlpha {
  import opened PixelCodec
  import Rgb565A8

  /** Three bytes per pixel, in pixel order. */
  function Interleave(ps: seq<Rgba>): seq<Byte>
  {
    if |ps| == 0 then []
    else
      var p := ps[|ps| - 1];
      Interleave(ps[..|ps| - 1]) + [LowByte(Rgb565Of(p)), HighByte(Rgb565Of(p)), p.a]
  }

  lemma {:induction false} InterleaveLength(ps: seq<Rgba>)
    ensures |Interleave(ps)| == 3 * |ps|
    decreases |ps|
  {
    if |ps| > 0 {
      InterleaveLength(ps[..|ps| - 1]);
    }
  }

  /** Pixel k occupies bytes 3k, 3k + 1 and 3k + 2. */
  lemma {:induction false} InterleaveAt(ps: seq<Rgba>, k: nat)
    requires k < |ps|
    ensures |Interleave(ps)| == 3 * |ps|
    ensures Interleave(ps)[3 * k] == LowByte(Rgb565Of(ps[k]))
    ensures Interleave(ps)[3 * k + 1] == HighByte(Rgb565Of(ps[k]))
    ensures Interleave(ps)[3 * k + 2] == ps[k].a
    decreases |ps|
  {
    var init := ps[..|ps| - 1];
    InterleaveLength(init);
    if k < |ps| - 1 {
      InterleaveAt(init, k);
    }
  }

  /** Appending a pixel appends its three bytes. */
  lemma InterleaveSnoc(ps: seq<Rgba>, p: Rgba)
    ensures Interleave(ps + [p]) == Interleave(ps) + [LowByte(Rgb565Of(p)), HighByte(Rgb565Of(p)), p.a]
  {
    assert (ps + [p])[..|ps|] == ps;
  }

  /** The bytes written so far encode exactly the pixels visited so far. */
  ghost predicate Encoded(visited: seq<Rgba>, data: seq<Byte>)
  {
    data == Interleave(visited)
  }

  lemma EncodedSnoc(visited: seq<Rgba>, data: seq<Byte>, p: Rgba)
    requires Encoded(visited, data)
    ensures Encoded(visited + [p], data + [LowByte(Rgb565Of(p))] + [HighByte(Rgb565Of(p))] + [p.a])
  {
    InterleaveSnoc(visited, p);
  }

  /** The encoding loops of the PNG rescaler: the resized image is visited
      row by row and each pixel's three bytes are appended. */
  method EncodeImage(img: seq<seq<Rgba>>, width: nat, height: nat) returns (data: seq<Byte>)
    requires IsImage(img, width, height)
    ensures data == Interleave(Flatten(img))
    ensures |data| == 3 * (width * height)
  {
    data := [];
    ghost var visited: seq<Rgba> := [];
    for y := 0 to height
      invariant visited == Flatten(img[..y])
      invariant Encoded(visited, data)
    {
      ghost var rowsBefore := visited;
      for x := 0 to width
        invariant visited == rowsBefore + img[y][..x]
        invariant Encoded(visited, data)
      {
        var p := img[y][x];
        var r5 := (p.r / 8) % 32;
        var g6 := (p.g / 4) % 64;
        var b5 := (p.b / 8) % 32;
        var rgb565 := r5 * 2048 + g6 * 32 + b5;
        assert rgb565 == Rgb565Of(p);
        EncodedSnoc(visited, data, p);
        data := data + [LowByte(rgb565)];
        data := data + [HighByte(rgb565)];
        data := data + [p.a];
        assert visited + [p] == rowsBefore + img[y][..x + 1] by {
          assert img[y][..x + 1] == img[y][..x] + [p];
        }
        visited := visited + [p];
      }
      assert visited == Flatten(img[..y + 1]) by {
        assert img[y][..width] == img[y];
        assert img[..y + 1][..y] == img[..y];
      }
    }
    assert visited == Flatten(img) by {
      assert img[..height] == img;
    }
    FlattenLength(img, width, height);
    InterleaveLength(Flatten(img));
  }

  /** Where pixel (x, y) of a width x height image lands in the interleaved
      encoding: it is pixel i = y * width + x of the n = width * height
      pixels in row-major order. */
  lemma InterleavedImageAt(img: seq<seq<Rgba>>, width: nat, height: nat, x: nat, y: nat, i: nat, n: nat)
    requires IsImage(img, width, height) && x < width && y < height
    requires i == y * width + x && n == width * height
    ensures i < n
    ensures |Interleave(Flatten(img))| == 3 * n
    ensures Interleave(Flatten(img))[3 * i] == LowByte(Rgb565Of(img[y][x]))
    ensures Interleave(Flatten(img))[3 * i + 1] == HighByte(Rgb565Of(img[y][x]))
    ensures Interleave(Flatten(img))[3 * i + 2] == img[y][x].a
  {
    FlattenAt(img, width, height, x, y);
    InterleaveAt(Flatten(img), i);
  }

  /** The same pixel in the two layouts: the interleaved bytes 3k, 3k + 1,
      3k + 2 are the planar bytes 2k, 2k + 1 and 2n + k. */
  lemma MatchesPlanar(ps: seq<Rgba>, k: nat)
    requires k < |ps|
    ensures |Interleave(ps)| == 3 * |ps| && |Rgb565A8.Planar(ps)| == 3 * |ps|
    ensures Interleave(ps)[3 * k] == Rgb565A8.Planar(ps)[2 * k]
    ensures Interleave(ps)[3 * k + 1] == Rgb565A8.Planar(ps)[2 * k + 1]
    ensures Interleave(ps)[3 * k + 2] == Rgb565A8.Planar(ps)[2 * |ps| + k]
  {
    InterleaveAt(ps, k);
    Rgb565A8.PlanarAt(ps, k);
  }

  /** Three bytes appended to one sequence, and split between the two parts
      of another with the same elements, keep the elements equal. */
  lemma MultisetStep(xs: seq<Byte>, ys: seq<Byte>, zs: seq<Byte>, lo: Byte, hi: Byte, a: Byte)
    requires multiset(xs) == multiset(ys + zs)
    ensures multiset(xs + [lo, hi, a]) == multiset((ys + [lo, hi]) + (zs + [a]))
  {
    assert [lo, hi, a] == [lo, hi] + [a];
  }

  /** The two layouts hold the same bytes, only in a different order. */
  lemma {:induction false} SameBytesAsPlanar(ps: seq<Rgba>)
    ensures multiset(Interleave(ps)) == multiset(Rgb565A8.Planar(ps))
    decreases |ps|
  {
    if |ps| > 0 {
      var init := ps[..|ps| - 1];
      var p := ps[|ps| - 1];
      SameBytesAsPlanar(init);
      var lo, hi := LowByte(Rgb565Of(p)), HighByte(Rgb565Of(p));
      var colour, alpha := Rgb565A8.ColourPlane(init), Rgb565A8.AlphaPlane(init);
      assert Interleave(ps) == Interleave(init) + [lo, hi, p.a];
      assert Rgb565A8.Planar(ps) == (colour + [lo, hi]) + (alpha + [p.a]);
      MultisetStep(Interleave(init), colour, alpha, lo, hi, p.a);
    }
  }
}
