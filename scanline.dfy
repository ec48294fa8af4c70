/** What one worker produces: `render_scanline` walks its band's rows from
    the top down, and within a row the columns from left to right, summing
    `samples_per_pixel` jittered samples per pixel and appending the sum to
    its private buffer.

    The colour of a sample comes from floating-point ray tracing, which is
    not part of this model; a sample is known here only by the pixel it
    belongs to and its index, and a pixel's accumulated colour by the list of
    samples summed into it, in the order they were added. */
module Scanline {
  import opened Partition

  /** Contribution `ray_color(cam.get_ray(u, v), world, max_depth)` of sample
      `index` to the pixel at column `col`, row `row`. */
  datatype Sample = Sample(col: int, row: int, index: int)

  /** An accumulated pixel colour: the sum of these samples. */
  datatype Pixel = Pixel(terms: seq<Sample>)

  function NonNeg(x: int): nat { if x < 0 then 0 else x }

  /** The pixel at (col, row) with samples 0 .. s-1, in that order. */
  function PixelAt(col: int, row: int, s: nat): Pixel
  {
    Pixel(seq(s, k => Sample(col, row, k)))
  }

  /** The first w pixels of row `row`, left to right. */
  function RowPixels(row: int, w: nat, s: nat): seq<Pixel>
  {
    seq(w, i => PixelAt(i, row, s))
  }

  /** `count` full rows of width w, starting at row `top` and going down. */
  function Rows(top: int, count: nat, w: nat, s: nat): seq<Pixel>
    decreases count
  {
    if count == 0 then [] else RowPixels(top, w, s) + Rows(top - 1, count - 1, w, s)
  }

  lemma {:induction false} RowsLength(top: int, count: nat, w: nat, s: nat)
    ensures |Rows(top, count, w, s)| == count * w
    decreases count
  {
    if count > 0 {
      RowsLength(top - 1, count - 1, w, s);
      assert count * w == w + (count - 1) * w;
    }
  }

  lemma DivModStep(k: nat, w: nat)
    requires w > 0 && k >= w
    ensures (k - w) / w == k / w - 1 && (k - w) % w == k % w
  {
    var q, r := (k - w) / w, (k - w) % w;
    assert k == (q + 1) * w + r;
    QuotientUnique(k, w, q + 1);
  }

  lemma DivModSmall(k: nat, w: nat)
    requires k < w
    ensures k / w == 0 && k % w == k
  {
  }

  /** Pixel k of a run of rows sits at row `top - k/w`, column `k % w`: rows
      come top to bottom, and each row left to right. */
  lemma {:induction false} RowsAt(top: int, count: nat, w: nat, s: nat, k: nat)
    requires k < count * w
    ensures |Rows(top, count, w, s)| == count * w
    ensures Rows(top, count, w, s)[k] == PixelAt(k % w, top - k / w, s)
    decreases count
  {
    RowsLength(top, count, w, s);
    assert count > 0;
    var first, rest := RowPixels(top, w, s), Rows(top - 1, count - 1, w, s);
    assert Rows(top, count, w, s) == first + rest;
    if k < w {
      DivModSmall(k, w);
      assert Rows(top, count, w, s)[k] == first[k];
    } else {
      RowsLength(top - 1, count - 1, w, s);
      assert k - w < (count - 1) * w by {
        assert count * w == w + (count - 1) * w;
      }
      RowsAt(top - 1, count - 1, w, s, k - w);
      DivModStep(k, w);
      assert Rows(top, count, w, s)[k] == rest[k - w];
    }
  }

  /** A run of rows split in two: the first `a` rows then the next `b`. */
  lemma {:induction false} RowsSplit(top: int, a: nat, b: nat, w: nat, s: nat)
    ensures Rows(top, a + b, w, s) == Rows(top, a, w, s) + Rows(top - a, b, w, s)
    decreases a
  {
    if a > 0 {
      RowsSplit(top - 1, a - 1, b, w, s);
      assert a + b - 1 == (a - 1) + b;
    }
  }

  /** The sample loop of one pixel (`for s = 0; s < samples_per_pixel; ++s`):
      the pixel is the sum of exactly `samples_per_pixel` samples, taken at
      its own column and row, with indices 0, 1, 2, ... in that order. */
  method AccumulatePixel(data: RenderData, i: int, j: int) returns (pixelColor: Pixel)
    ensures |pixelColor.terms| == NonNeg(data.samplesPerPixel)
    ensures forall k :: 0 <= k < |pixelColor.terms| ==> pixelColor.terms[k] == Sample(i, j, k)
    ensures pixelColor == PixelAt(i, j, NonNeg(data.samplesPerPixel))
  {
    pixelColor := Pixel([]);
    var s := 0;
    while s < data.samplesPerPixel
      invariant 0 <= s <= NonNeg(data.samplesPerPixel)
      invariant pixelColor == PixelAt(i, j, s)
    {
      pixelColor := Pixel(pixelColor.terms + [Sample(i, j, s)]);
      s := s + 1;
    }
  }

  /** `render_scanline`: the buffer of band `data` holds its RowCount rows,
      from row `Top` down to row `Stop`, each row left to right; it has
      exactly width * RowCount entries, and none for a band that starts
      below the bottom of the image. */
  method RenderScanline(data: RenderData) returns (buf: seq<Pixel>)
    ensures |buf| == NonNeg(data.imageWidth) * RowCount(data)
    ensures forall k :: 0 <= k < |buf| ==>
      buf[k] == PixelAt(k % data.imageWidth, Top(data) - k / data.imageWidth,
                        NonNeg(data.samplesPerPixel))
    ensures buf == Rows(Top(data), RowCount(data), NonNeg(data.imageWidth),
                        NonNeg(data.samplesPerPixel))
  {
    ghost var w, s := NonNeg(data.imageWidth), NonNeg(data.samplesPerPixel);
    var idx := data.imageHeight - 1 - data.idx;
    var stop := Max(idx + 1 - data.num, 0);
    buf := [];
    var j := idx;
    while j >= stop
      invariant j == idx || stop - 1 <= j < idx
      invariant buf == Rows(idx, idx - j, w, s)
    {
      var i := 0;
      while i < data.imageWidth
        invariant 0 <= i <= w
        invariant buf == Rows(idx, idx - j, w, s) + RowPixels(j, i, s)
      {
        var pixelColor := AccumulatePixel(data, i, j);
        buf := buf + [pixelColor];
        i := i + 1;
      }
      RowsSplit(idx, idx - j, 1, w, s);
      j := j - 1;
    }
    RowsLength(idx, idx - j, w, s);
    forall k | 0 <= k < |buf|
      ensures buf[k] == PixelAt(k % data.imageWidth, Top(data) - k / data.imageWidth, s)
    {
      RowsAt(idx, idx - j, w, s, k);
    }
  }
}
