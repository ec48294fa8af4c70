/** The render driver of `main`: write the header, split the image height
    into bands of ceil(height / threads) scanlines, let every worker fill its
    own buffer, then walk the buffers in worker-index order and write each
    pixel, counting them.

    Threads only decide when a band is computed, never which pixel or which
    sample goes into which buffer, so the workers run here one after another;
    the buffers are a sequence of sequences indexed by worker. */
module Driver {
  import opened Partition
  import opened Scanline
  import opened Ppm

  /** One item written to the image stream: the header text, or one
      `write_color(std::cout, pixel, samples_per_pixel)` call. */
  datatype Emit = Text(text: string) | WriteColor(pixel: Pixel, samplesPerPixel: int)

  /** The single top-to-bottom, left-to-right pass over the whole image. */
  function Image(w: nat, h: nat, s: nat): seq<Pixel>
  {
    Rows(h - 1, h, w, s)
  }

  lemma ImageLength(w: nat, h: nat, s: nat)
    ensures |Image(w, h, s)| == w * h
  {
    RowsLength(h - 1, h, w, s);
  }

  /** Pixel k of the image is at row H-1-k/W, column k%W. */
  lemma ImageAt(w: nat, h: nat, s: nat, k: nat)
    requires k < w * h
    ensures |Image(w, h, s)| == w * h
    ensures Image(w, h, s)[k] == PixelAt(k % w, h - 1 - k / w, s)
  {
    RowsAt(h - 1, h, w, s, k);
  }

  /** The buffer worker p fills: its band's rows, as `render_scanline`
      produces them. */
  function Band(w: nat, h: nat, s: nat, b: int, p: int): seq<Pixel>
  {
    var d := SpawnData(p, b, w, h, s);
    Rows(Top(d), RowCount(d), w, s)
  }

  /** The buffers of workers 0 .. n-1, in worker order. */
  function Bands(w: nat, h: nat, s: nat, b: int, n: nat): seq<seq<Pixel>>
  {
    seq(n, p => Band(w, h, s, b, p))
  }

  /** Buffers concatenated in index order. */
  function Flatten(bufs: seq<seq<Pixel>>): seq<Pixel>
  {
    if |bufs| == 0 then [] else Flatten(bufs[..|bufs| - 1]) + bufs[|bufs| - 1]
  }

  /** The pixels written for a sequence of pixels, one call each, in order. */
  function Writes(pixels: seq<Pixel>, s: int): seq<Emit>
  {
    seq(|pixels|, k requires 0 <= k < |pixels| => WriteColor(pixels[k], s))
  }

  lemma WritesAppend(pixels: seq<Pixel>, x: Pixel, s: int)
    ensures Writes(pixels + [x], s) == Writes(pixels, s) + [WriteColor(x, s)]
  {
  }

  /** Band m continues the rows the bands before it ended with. */
  lemma BandStep(w: nat, h: nat, s: nat, b: nat, m: nat)
    ensures Rows(h - 1, Min(h, m * b), w, s) + Band(w, h, s, b, m) ==
            Rows(h - 1, Min(h, (m + 1) * b), w, s)
  {
    var x := m * b;
    assert (m + 1) * b == x + b;
    var d := SpawnData(m, b, w, h, s);
    assert Top(d) == h - 1 - x && RowCount(d) == Max(0, Min(b, h - x));
    if x >= h {
      assert Band(w, h, s, b, m) == [];
    } else {
      RowsSplit(h - 1, x, RowCount(d), w, s);
    }
  }

  /** The first n bands, reassembled in order, are the top min(H, n*B) rows
      of the image: each band picks up exactly where the previous one ended. */
  lemma {:induction false} BandsCover(w: nat, h: nat, s: nat, b: nat, n: nat)
    ensures Flatten(Bands(w, h, s, b, n)) == Rows(h - 1, Min(h, n * b), w, s)
  {
    if n > 0 {
      var bands := Bands(w, h, s, b, n);
      assert bands[..n - 1] == Bands(w, h, s, b, n - 1);
      assert Flatten(bands) == Flatten(Bands(w, h, s, b, n - 1)) + Band(w, h, s, b, n - 1);
      BandsCover(w, h, s, b, n - 1);
      BandStep(w, h, s, b, n - 1);
    }
  }

  /** With B = ceil(H/N), reassembling the N buffers in worker order gives
      exactly the single sequential pass, whatever the worker count. */
  lemma PartitionIndependent(w: nat, h: nat, s: nat, n: nat)
    requires n > 0
    ensures Flatten(Bands(w, h, s, CeilDiv(h, n), n)) == Image(w, h, s)
  {
    BandsCover(w, h, s, CeilDiv(h, n), n);
  }

  /** Two worker counts give the same reassembled image. */
  lemma SameImageForAnyThreadCount(w: nat, h: nat, s: nat, n1: nat, n2: nat)
    requires n1 > 0 && n2 > 0
    ensures Flatten(Bands(w, h, s, CeilDiv(h, n1), n1)) ==
            Flatten(Bands(w, h, s, CeilDiv(h, n2), n2))
  {
    PartitionIndependent(w, h, s, n1);
    PartitionIndependent(w, h, s, n2);
  }

  lemma BandsAppend(w: nat, h: nat, s: nat, b: int, n: nat)
    ensures Bands(w, h, s, b, n + 1) == Bands(w, h, s, b, n) + [Band(w, h, s, b, n)]
  {
  }

  lemma FlattenAppend(bufs: seq<seq<Pixel>>, t: nat)
    requires t < |bufs|
    ensures Flatten(bufs[..t + 1]) == Flatten(bufs[..t]) + bufs[t]
  {
    assert bufs[..t + 1][..t] == bufs[..t];
  }

  /** The reassembly loop of `main`: after writing `header`, walk the
      buffers in index order (not in the order the workers finished) and
      write every pixel of each, counting them. */
  method Reassemble(header: seq<Emit>, buffer: seq<seq<Pixel>>, samplesPerPixel: int)
    returns (out: seq<Emit>, counter: int)
    ensures out == header + Writes(Flatten(buffer), samplesPerPixel)
    ensures counter == |Flatten(buffer)|
  {
    out := header;
    counter := 0;
    ghost var written: seq<Pixel> := [];
    for t := 0 to |buffer|
      invariant written == Flatten(buffer[..t])
      invariant out == header + Writes(written, samplesPerPixel)
      invariant counter == |written|
    {
      for i := 0 to |buffer[t]|
        invariant written == Flatten(buffer[..t]) + buffer[t][..i]
        invariant out == header + Writes(written, samplesPerPixel)
        invariant counter == |written|
      {
        WritesAppend(written, buffer[t][i], samplesPerPixel);
        assert buffer[t][..i + 1] == buffer[t][..i] + [buffer[t][i]];
        out := out + [WriteColor(buffer[t][i], samplesPerPixel)];
        written := written + [buffer[t][i]];
        counter := counter + 1;
      }
      FlattenAppend(buffer, t);
      assert buffer[t][..|buffer[t]|] == buffer[t];
    }
    assert buffer[..|buffer|] == buffer;
  }

  /** The whole image stream: the header, then one write per pixel of the
      sequential pass. */
  function Stream(w: nat, h: nat, s: nat): seq<Emit>
  {
    [Text(Header(w, h))] + Writes(Image(w, h, s), s)
  }

  /** The stream starts with the header and then holds W*H pixel writes,
      write k+1 being the pixel at row H-1-k/W, column k%W. */
  lemma StreamShape(w: nat, h: nat, s: nat)
    ensures |Stream(w, h, s)| == 1 + w * h
    ensures Stream(w, h, s)[0] == Text(Header(w, h))
    ensures forall k :: 0 <= k < w * h ==>
      Stream(w, h, s)[k + 1] == WriteColor(PixelAt(k % w, h - 1 - k / w, s), s)
  {
    ImageLength(w, h, s);
    forall k | 0 <= k < w * h
      ensures Stream(w, h, s)[k + 1] == WriteColor(PixelAt(k % w, h - 1 - k / w, s), s)
    {
      ImageAt(w, h, s, k);
    }
  }

  /** The rendering part of `main`: the header first, then the W*H pixels in
      row-major order from the top scanline down, each the sum of
      `samplesPerPixel` samples; `counter` ends at W*H. */
  method Render(imageWidth: nat, imageHeight: nat, samplesPerPixel: nat, numThreads: int)
    returns (out: seq<Emit>, counter: int)
    requires numThreads > 0
    ensures |out| == 1 + imageWidth * imageHeight
    ensures out[0] == Text(Header(imageWidth, imageHeight))
    ensures forall k :: 0 <= k < imageWidth * imageHeight ==>
      out[k + 1] == WriteColor(PixelAt(k % imageWidth, imageHeight - 1 - k / imageWidth,
                                       samplesPerPixel), samplesPerPixel)
    ensures out == Stream(imageWidth, imageHeight, samplesPerPixel)
    ensures counter == imageWidth * imageHeight
  {
    ghost var w, h, s := imageWidth, imageHeight, samplesPerPixel;
    var header := [Text(Header(imageWidth, imageHeight))];
    var scanlinesPerThread := CeilDiv(imageHeight, numThreads);

    var buffer: seq<seq<Pixel>> := [];
    for p := 0 to numThreads
      invariant buffer == Bands(w, h, s, scanlinesPerThread, p)
    {
      var data := RenderData(p * scanlinesPerThread, scanlinesPerThread,
                             imageWidth, imageHeight, samplesPerPixel);
      var buf := RenderScanline(data);
      BandsAppend(w, h, s, scanlinesPerThread, p);
      buffer := buffer + [buf];
    }

    out, counter := Reassemble(header, buffer, samplesPerPixel);
    PartitionIndependent(w, h, s, numThreads);
    ImageLength(w, h, s);
    StreamShape(w, h, s);
  }
}
