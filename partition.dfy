/** The integer side of the scanline work partitioner: how many scanlines go
    into each band, which descending row range a band covers, and the facts
    that make the bands a partition of the image (every row has exactly one
    owning band, and neighbouring bands meet without overlap).

    Rows are numbered as the renderer numbers them: row H-1 is the top of the
    image, row 0 the bottom.  Band p is handed the start index p*B, counted
    from the top. */
module Partition {

  function Max(a: int, b: int): int { if a >= b then a else b }
  function Min(a: int, b: int): int { if a <= b then a else b }

  /** The arguments handed to one worker (the fields of `render_data` that
      the partitioner decides; the camera and the world are left out). */
  datatype RenderData = RenderData(
    idx: int,               // first scanline of the band, counted from the top
    num: int,               // scanlines per band
    imageWidth: int,
    imageHeight: int,
    samplesPerPixel: int)

  /** Integer model of `ceil(float(h) / float(n))`: the least band size with
      which n bands reach every one of the h scanlines. */
  function CeilDiv(h: nat, n: nat): (b: nat)
    requires n > 0
    ensures n * b >= h
    ensures b == 0 || n * (b - 1) < h
  {
    var q := (h + n - 1) / n;
    var r := (h + n - 1) % n;
    assert h + n - 1 == q * n + r;
    assert n * q == h + n - 1 - r;
    q
  }

  /** The configuration of `main`: 225 scanlines on 15 threads gives
      bands of 15 scanlines. */
  lemma DefaultBandSize()
    ensures CeilDiv(225, 15) == 15
  {
  }

  /** The data of worker p in the spawn loop: start p*B, length B. */
  function SpawnData(p: int, b: int, w: int, h: int, s: int): RenderData
  {
    RenderData(p * b, b, w, h, s)
  }

  /** First (highest) row a band renders: `idx = H - 1 - data.idx`. */
  function Top(d: RenderData): int { d.imageHeight - 1 - d.idx }

  /** Last (lowest) row a band renders: `stop = fmax(idx + 1 - num, 0)`. */
  function Stop(d: RenderData): int { Max(Top(d) + 1 - d.num, 0) }

  /** Number of scanlines the descending loop `for j = Top; j >= Stop; --j`
      visits: the band length, cut off at the bottom of the image, and zero
      for a band that starts past the bottom. */
  function RowCount(d: RenderData): (c: nat)
    ensures c == Max(0, Min(d.num, d.imageHeight - d.idx))
    ensures c > 0 ==> Stop(d) == Top(d) - c + 1 && Stop(d) >= 0
  {
    if Top(d) >= Stop(d) then Top(d) - Stop(d) + 1 else 0
  }

  /** Row j is one of the rows band d visits. */
  predicate InBand(d: RenderData, j: int)
  {
    Stop(d) <= j <= Top(d)
  }

  /** Band p of the spawn loop visits rows H-1-p*B down to max(H-(p+1)*B, 0),
      which are exactly its RowCount rows. */
  lemma BandBounds(h: int, b: int, p: int, w: int, s: int)
    ensures Top(SpawnData(p, b, w, h, s)) == h - 1 - p * b
    ensures Stop(SpawnData(p, b, w, h, s)) == Max(h - (p + 1) * b, 0)
    ensures forall j :: InBand(SpawnData(p, b, w, h, s), j) <==>
      Max(h - (p + 1) * b, 0) <= j <= h - 1 - p * b
  {
    assert (p + 1) * b == p * b + b;
  }

  /** Bands p and p+1 are contiguous: the lowest row of band p is directly
      above the highest row of band p+1, whenever band p+1 is not empty. */
  lemma Contiguous(h: int, b: int, p: int, w: int, s: int)
    requires b > 0 && 0 <= p
    requires RowCount(SpawnData(p + 1, b, w, h, s)) > 0
    ensures RowCount(SpawnData(p, b, w, h, s)) == b
    ensures Stop(SpawnData(p, b, w, h, s)) == Top(SpawnData(p + 1, b, w, h, s)) + 1
  {
    assert (p + 1) * b == p * b + b;
  }

  lemma MulMonotone(a: int, c: int, b: int)
    requires a <= c && b >= 0
    ensures a * b <= c * b
  {
    assert c * b - a * b == (c - a) * b;
  }

  /** The quotient is the only p with p*B <= x < (p+1)*B. */
  lemma QuotientUnique(x: int, b: int, p: int)
    requires b > 0 && 0 <= p
    requires p * b <= x < (p + 1) * b
    ensures x / b == p
  {
    var q, r := x / b, x % b;
    assert x == q * b + r;
    if q < p {
      assert (q + 1) * b == q * b + b;
      MulMonotone(q + 1, p, b);
    } else if q > p {
      MulMonotone(p + 1, q, b);
    }
  }

  /** A row j >= 0 is in band p exactly when p*B <= H-1-j < (p+1)*B. */
  lemma InBandIff(h: int, b: int, p: int, w: int, s: int, j: int)
    requires j >= 0
    ensures InBand(SpawnData(p, b, w, h, s), j) <==> p * b <= h - 1 - j < (p + 1) * b
  {
    BandBounds(h, b, p, w, s);
  }

  /** The band that owns scanline j of an image of height h split into bands
      of b scanlines: j is in it, and in no other band. */
  function OwnerOf(h: int, b: int, w: int, s: int, j: int): (p: nat)
    requires b > 0 && 0 <= j < h
    ensures InBand(SpawnData(p, b, w, h, s), j)
    ensures forall q: nat :: InBand(SpawnData(q, b, w, h, s), j) ==> q == p
  {
    var x := h - 1 - j;
    var p := x / b;
    assert p * b <= x < (p + 1) * b by {
      assert x == p * b + x % b;
      assert (p + 1) * b == p * b + b;
    }
    InBandIff(h, b, p, w, s, j);
    forall q: nat | InBand(SpawnData(q, b, w, h, s), j)
      ensures q == p
    {
      InBandIff(h, b, q, w, s, j);
      QuotientUnique(x, b, q);
    }
    p
  }

  /** Bands are pairwise disjoint: no scanline is rendered twice. */
  lemma Disjoint(h: int, b: int, w: int, s: int, p: nat, q: nat, j: int)
    requires b > 0 && p != q
    requires InBand(SpawnData(p, b, w, h, s), j)
    ensures !InBand(SpawnData(q, b, w, h, s), j)
  {
    assert 0 <= j < h;
    var o := OwnerOf(h, b, w, s, j);
  }

  /** With B = ceil(H/N), the N bands together reach every scanline: the
      owner of any row is one of the N workers. */
  lemma Coverage(h: nat, n: nat, w: int, s: int, j: int)
    requires n > 0 && 0 <= j < h
    ensures CeilDiv(h, n) > 0
    ensures OwnerOf(h, CeilDiv(h, n), w, s, j) < n
  {
    var b := CeilDiv(h, n);
    var p := OwnerOf(h, b, w, s, j);
    BandBounds(h, b, p, w, s);
    if p >= n {
      MulMonotone(n, p, b);
    }
  }
}
