# Scanline partitioner of a multi-threaded path tracer, verified

The renderer (`main.cpp`) traces a scene of spheres into a plain PPM image.
Its only exact, integer part is the way `main` spreads the work over
threads and puts the result back together:

- it writes the PPM header `P3`, `<width> <height>`, `255` before any pixel;
- it cuts the `image_height` scanlines into `num_threads` bands of
  `ceil(image_height / num_threads)` scanlines, band `p` starting at scanline
  `p * B` counted from the top;
- each worker (`render_scanline`) walks its band from row `H-1-p*B` down to
  `max(H-(p+1)*B, 0)`, each row from column 0 to `W-1`, sums
  `samples_per_pixel` samples per pixel and appends the sum to its own buffer;
- `main` then walks the buffers in thread-index order, writes every pixel and
  counts them.

This project models that scheme in Dafny and proves that it works: the bands
cover the image, never overlap and meet end to end; every buffer has the
right size and order; and the reassembled stream is the header followed by
exactly `W*H` pixels in row-major, top-to-bottom order, the same for every
thread count.

Rows are numbered the way the renderer numbers them: row `H-1` is the top of
the image and row 0 the bottom. A sample's colour comes from floating-point
ray tracing, so the model knows a sample only by its pixel and its index:
`Sample(col, row, index)`. A pixel's accumulated colour is the list of
samples summed into it, in the order they were added. The workers run one
after another, because the threads only decide when a band is computed,
never which pixel or which sample goes into which buffer. The colours
themselves are a different matter: see the line on `random_double` under
"Left out".

Modules:

- `partition.dfy` (`Partition`): the datatype `RenderData`, which holds the
  `render_data` fields the partitioner sets (main.cpp:78-89; the camera and
  world references are left out), the band size, band bounds, and the proofs that the bands partition
  the rows.
- `scanline.dfy` (`Scanline`): `render_scanline` with its row, column and
  sample loops, and the reference run of rows it is proved against.
- `ppm.dfy` (`Ppm`): the header text, a reader for it, and the proof that
  the header reads back to the width and height it was written from.
- `driver.dfy` (`Driver`): the datatype `Emit` for one item of the image
  stream (the header text, or one `write_color` call, main.cpp:160 and 206),
  `main`'s spawn loop and reassembly loop, the `counter`, and the proof that the output equals one sequential pass.

`ceil(float(H) / float(N))` is modelled as the integer `(H + N - 1) / N`.
For `H` below 2^24 the two agree. When `H/N` is not an integer it lies at
least `1/N` away from the nearest integer. The single-precision quotient is
off from `H/N` by at most `(H/N) * 2^-24`, which is less than `1/N`. So the
rounding never carries the quotient onto or past an integer, and `ceil`
returns `(H + N - 1) / N`. When `H/N` is an integer, the quotient is exact. `fmax` on these integers is
integer `Max`.

## Model

| member | source | states |
|---|---|---|
| `Partition.CeilDiv` | main.cpp:163-164 | the band size B gives N*B >= H, so the N bands reach every scanline, and B is the least size that does (N*(B-1) < H) |
| `Partition.DefaultBandSize` | main.cpp:162-164 | the configured 225 scanlines on 15 threads give bands of 15 scanlines |
| `Partition.RowCount` | main.cpp:93-95 | the descending loop from `idx` down to `stop` visits max(0, min(num, H - data.idx)) rows, and when it visits any, `stop` is its last row and is not below row 0 |
| `Partition.Top` | main.cpp:93 | the first (highest) row a band renders, `H - 1 - data.idx`; BandBounds gives it as H-1-p*B for band p |
| `Partition.Stop` | main.cpp:94 | the last (lowest) row a band renders, `max(Top + 1 - num, 0)`; BandBounds gives it as max(H-(p+1)*B, 0) for band p |
| `Partition.SpawnData` | main.cpp:177-185 | the `render_data` of worker p: start scanline p*B, length B, and the image width, height and samples per pixel |
| `Partition.BandBounds` | main.cpp:93-95 | band p of the spawn loop runs from row H-1-p*B down to max(H-(p+1)*B, 0), and a row is in the band exactly when it lies in that range |
| `Partition.InBandIff` | main.cpp:177-179 | a row j >= 0 belongs to band p exactly when p*B <= H-1-j < (p+1)*B, i.e. it is among the B scanlines starting at index p*B from the top |
| `Partition.Contiguous` | main.cpp:93-94 | when band p+1 is not empty, band p is full (B rows) and its lowest row is directly above the highest row of band p+1 |
| `Partition.OwnerOf` | main.cpp:175-179 | every scanline 0 <= j < H lies in band (H-1-j)/B and in no other band |
| `Partition.Disjoint` | main.cpp:93-95 | two different bands never share a row, so no scanline is rendered twice |
| `Partition.Coverage` | main.cpp:164-175 | with B = ceil(H/N), the band owning any scanline is one of the N spawned workers |
| `Scanline.RowsAt` | main.cpp:95-96 | entry k of a run of rows starting at row `top` is the pixel at row top - k/W, column k % W: rows top to bottom, each left to right |
| `Scanline.RowsSplit` | main.cpp:95 | a run of a+b rows is the first a rows followed by the next b rows |
| `Scanline.AccumulatePixel` | main.cpp:97-104 | the pixel pushed is the sum of exactly `samples_per_pixel` samples at its own column and row, with indices 0, 1, 2, ... in order |
| `Scanline.RenderScanline` | main.cpp:91-107 | the buffer has exactly W * RowCount entries (none for a band past the bottom), entry k being the pixel at row Top - k/W, column k % W, and equals the reference run of rows of the band |
| `Scanline.PixelAt` | main.cpp:97-105 | reference pixel: the sum of samples 0 .. s-1 at one column and row, in order; AccumulatePixel is proved equal to it |
| `Scanline.RowPixels` | main.cpp:96-105 | reference row: the W pixels of one row, column 0 first |
| `Scanline.Rows` | main.cpp:95-106 | reference run of rows from `top` downward, each row left to right; RowsAt gives the position of every entry and RenderScanline is proved equal to it |
| `Ppm.Decimal` | main.cpp:160 | the decimal text `operator<<` writes for a dimension: non-empty and all digits, and DecimalValue shows it denotes the number |
| `Ppm.Header` | main.cpp:160 | the header text `P3\n<width> <height>\n255\n`; HeaderRoundTrip shows a reader recovers width and height from it |
| `Ppm.DecimalValue` | main.cpp:160 | the decimal text written for a dimension reads back as that number |
| `Ppm.ReadDecimal` | main.cpp:160 | reading the digits of n followed by a non-digit yields n and leaves the rest of the text |
| `Ppm.HeaderRoundTrip` | main.cpp:160 | a PPM reader parses the header written for (W, H) back to exactly W and H, and leaves the pixel text after it untouched |
| `Ppm.HeaderInjective` | main.cpp:160 | different image sizes give different headers |
| `Ppm.DefaultHeader` | main.cpp:160 | the 400 x 225 image gets the header `P3`, `400 225`, `255` |
| `Driver.Band` | main.cpp:187-190 | the buffer worker p fills: the reference rows of its band, from Top down, RowCount rows |
| `Driver.Bands` | main.cpp:171-197 | the vector of buffers of workers 0 .. n-1, in worker order; BandsCover and PartitionIndependent state what they concatenate to |
| `Driver.Flatten` | main.cpp:203-205 | the buffers concatenated in buffer-index order, which is the order the reassembly loop walks them |
| `Driver.Image` | main.cpp:91-107 | the single sequential pass over the whole image, top row first; ImageAt gives each entry's position |
| `Driver.Writes` | main.cpp:205-207 | one `write_color(std::cout, pixel, samples_per_pixel)` call per pixel, in order |
| `Driver.Stream` | main.cpp:160-209 | the whole image stream: the header, then one write per pixel of the sequential pass; StreamShape states its length and every entry |
| `Driver.ImageAt` | main.cpp:203-209 | pixel k of the sequential top-to-bottom pass is at row H-1-k/W, column k % W, and the pass has W*H pixels |
| `Driver.BandStep` | main.cpp:175-185 | band m's buffer continues exactly where the rows of bands 0..m-1 ended |
| `Driver.BandsCover` | main.cpp:175-198 | the buffers of workers 0..n-1 concatenated in index order are the top min(H, n*B) rows of the image |
| `Driver.PartitionIndependent` | main.cpp:163-209 | with B = ceil(H/N), the N buffers concatenated in index order are exactly the single sequential pass over the image |
| `Driver.SameImageForAnyThreadCount` | main.cpp:163-164 | any two thread counts produce the same reassembled image |
| `Driver.Reassemble` | main.cpp:200-209 | after the header, the writes are the pixels of the buffers in buffer-index order, and `counter` equals the number of pixels written |
| `Driver.StreamShape` | main.cpp:160-209 | the image stream is the header followed by W*H pixel writes, write k+1 being the pixel at row H-1-k/W, column k % W |
| `Driver.Render` | main.cpp:158-209 | `main` writes the header first, then W*H pixels in row-major order from the top scanline down, each from `samples_per_pixel` samples, the same for any thread count, and ends with `counter == W*H` |

## Left out

- Thread spawning and joining (main.cpp:170-198, 203-204): the workers run in sequence; each writes only its own buffer, and which pixels and samples a buffer holds, and in what order, does not depend on when the worker runs.
- The heap-allocated `std::vector<color>*` buffers: modelled as a sequence of sequences indexed by worker.
- `ray_color`, the camera's `get_ray`, `random_double` and the jittered `u`, `v` coordinates: floating-point ray tracing and randomness; a sample is identified by its pixel and index instead of a colour. `random_double` comes from helper.h, which is not part of this model; if all threads share one generator, which random draws a band receives depends on how the threads interleave, so the colours (unlike the pixel and sample identities proved here) may differ between runs and between thread counts.
- `write_color` (color.h:12-27): gamma correction with `sqrt`, clamping and scaling of doubles; a pixel write is the item `WriteColor(pixel, samples_per_pixel)`.
- Sphere intersection, `set_face_normal`, materials and scene construction (main.cpp:31-76, 132-142): floating-point geometry.
- Deriving `image_height` from the double aspect ratio (main.cpp:116-118): the height is an input.
- Timing and all progress messages on `std::cerr`: diagnostics, not part of the image stream.
- 32-bit `int` overflow of `p * scanlinesPerThread` and `counter`: integers are unbounded; the configured 400 x 225 image is far from the limit.
- `Driver.Render`: requires at least one thread; with zero threads the C++ casts an infinite `ceil` result to `int`, which is undefined behaviour.
