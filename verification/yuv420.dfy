/** The byte image RGB242Yuv420p produces from an interleaved 3-byte-per-pixel
    buffer of width w and height h (both even): a full-resolution luma plane
    of w*h bytes in raster order, followed by one (U, V) pair per pixel whose
    coordinates are both even, sampled from that pixel alone and written
    interleaved, in raster order of the subsampled grid. */
module Yuv420 {
  import opened Pixel

  /** Number of pixels, and of luma bytes: `image_size` in the source. */
  function ImageSize(w: nat, h: nat): nat {
    w * h
  }

  /** Number of samples in one chroma plane: one per pixel with even coordinates. */
  function ChromaSize(w: nat, h: nat): nat {
    (h / 2) * (w / 2)
  }

  /** Number of bytes of a YUV 4:2:0 frame: the luma plane and two chroma planes. */
  function FrameSize(w: nat, h: nat): nat {
    ImageSize(w, h) + 2 * ChromaSize(w, h)
  }

  /** Raster index of pixel (x, y). */
  function PixelIndex(w: nat, x: nat, y: nat): nat {
    y * w + x
  }

  /** Index of the chroma sample of pixel (x, y) in the subsampled grid. */
  function ChromaIndex(w: nat, x: nat, y: nat): nat {
    (y / 2) * (w / 2) + x / 2
  }

  lemma MulSucc(a: nat, b: nat)
    ensures (a + 1) * b == a * b + b
  {
  }

  /** The even rows of an image of even height cover half of its pixels. */
  lemma HalfRows(w: nat, h: nat)
    requires h % 2 == 0
    ensures w * h == 2 * ((h / 2) * w)
  {
  }

  /** The chroma of all even rows fills the frame after the luma plane. */
  lemma ChromaFillsFrame(w: nat, h: nat)
    requires w % 2 == 0 && h % 2 == 0
    ensures w * h + (h / 2) * w == FrameSize(w, h)
  {
    assert (h / 2) * w == 2 * ChromaSize(w, h);
  }

  lemma MulMonotone(a: nat, b: nat, c: nat)
    requires a <= b
    ensures a * c <= b * c
  {
  }

  /** Quotient bound: k < n*d implies k/d < n. */
  lemma DivBelow(k: nat, d: nat, n: nat)
    requires d > 0 && k < n * d
    ensures k / d < n
  {
    if k / d >= n {
      MulMonotone(n, k / d, d);
      assert false;
    }
  }

  /** Every pixel of a w-by-h image has a raster index inside the image. */
  lemma PixelInImage(w: nat, h: nat, x: nat, y: nat)
    requires x < w && y < h
    ensures PixelIndex(w, x, y) < ImageSize(w, h)
  {
    MulMonotone(y + 1, h, w);
  }

  /** Every pixel with even coordinates has a chroma index inside a plane. */
  lemma ChromaInPlane(w: nat, h: nat, x: nat, y: nat)
    requires w % 2 == 0 && h % 2 == 0 && x < w && y < h
    ensures ChromaIndex(w, x, y) < ChromaSize(w, h)
  {
    MulMonotone(y / 2 + 1, h / 2, w / 2);
    assert (y / 2 + 1) * (w / 2) == (y / 2) * (w / 2) + w / 2;
  }

  /** Plane sizes of an image with even sides: the two chroma planes together
      are half the luma plane, and the whole frame is `height*width*3/2` bytes
      (and `height/2*width/2` is the chroma plane size, as C evaluates it). */
  lemma FrameSizes(w: nat, h: nat)
    requires w % 2 == 0 && h % 2 == 0
    ensures ImageSize(w, h) == 4 * ChromaSize(w, h)
    ensures FrameSize(w, h) == h * w * 3 / 2 == 3 * ImageSize(w, h) / 2
    ensures h / 2 * w / 2 == ChromaSize(w, h)
    ensures h * w == ImageSize(w, h) && FrameSize(w, h) == ImageSize(w, h) + 2 * ChromaSize(w, h)
  {
    var a, b := h / 2, w / 2;
    assert w * h == (2 * b) * (2 * a) == 4 * (a * b);
    assert h * w == w * h;
    assert h / 2 * w == 2 * (a * b);
  }

  /** The k-th chroma sample of a w-by-h image (w, h even) is the sample of
      one pixel (x, y) with both coordinates even. */
  lemma SubsampledPixel(w: nat, h: nat, k: nat) returns (x: nat, y: nat)
    requires w % 2 == 0 && h % 2 == 0 && k < ChromaSize(w, h)
    ensures x % 2 == 0 && x < w && y % 2 == 0 && y < h
    ensures ChromaIndex(w, x, y) == k
  {
    var half := w / 2;
    DivBelow(k, half, h / 2);
    x, y := 2 * (k % half), 2 * (k / half);
  }

  /** Pixel i of a 3-byte-per-pixel buffer lies inside it. */
  predicate HasPixel(rgb: seq<byte>, i: nat) {
    3 * i + 2 < |rgb|
  }

  /** The three components of the output. */
  datatype Component = Y | U | V

  /** The byte stored for component ch of a pixel with bytes (c0, c1, c2). */
  function ComponentByte(ch: Component, c0: byte, c1: byte, c2: byte): byte {
    match ch
    case Y => StoreByte(Luma(c0, c1, c2))
    case U => StoreByte(ChromaU(c0, c1, c2))
    case V => StoreByte(ChromaV(c0, c1, c2))
  }

  /** The byte stored for component ch of pixel i. */
  function SampleByte(rgb: seq<byte>, ch: Component, i: nat): byte
    requires HasPixel(rgb, i)
  {
    ComponentByte(ch, rgb[3 * i], rgb[3 * i + 1], rgb[3 * i + 2])
  }

  /** Component ch of the first n pixels at full resolution, in raster order. */
  function Plane(rgb: seq<byte>, ch: Component, n: nat): (p: seq<byte>)
    requires 3 * n <= |rgb|
    ensures |p| == n
  {
    if n == 0 then [] else Plane(rgb, ch, n - 1) + [SampleByte(rgb, ch, n - 1)]
  }

  /** The first n (U, V) pairs taken at every other sample from offset base. */
  function ChromaRow(us: seq<byte>, vs: seq<byte>, base: nat, n: nat): (c: seq<byte>)
    requires |us| == |vs| && base + 2 * n <= |us|
    ensures |c| == 2 * n
  {
    if n == 0 then [] else ChromaRow(us, vs, base, n - 1) + [us[base + 2 * (n - 1)], vs[base + 2 * (n - 1)]]
  }

  /** The chroma pairs of the first m even rows of a w-wide image: every
      other sample of rows 0, 2, ..., 2m - 2, a complete row of w bytes each. */
  function ChromaRows(us: seq<byte>, vs: seq<byte>, w: nat, m: nat): (c: seq<byte>)
    requires |us| == |vs| && w % 2 == 0 && 2 * (m * w) <= |us|
    ensures |c| == m * w
  {
    if m == 0 then []
    else
      MulSucc(m - 1, w);
      ChromaRows(us, vs, w, m - 1) + ChromaRow(us, vs, 2 * ((m - 1) * w), w / 2)
  }

  /** The output of RGB242Yuv420p: luma plane, then the interleaved chroma of
      the even rows and columns. */
  function Encoded(rgb: seq<byte>, w: nat, h: nat): (e: seq<byte>)
    requires w % 2 == 0 && h % 2 == 0 && 3 * ImageSize(w, h) <= |rgb|
    ensures |e| == FrameSize(w, h)
  {
    var n := ImageSize(w, h);
    FrameSizes(w, h);
    Plane(rgb, Y, n) + ChromaRows(Plane(rgb, U, n), Plane(rgb, V, n), w, h / 2)
  }

  lemma {:induction false} PlaneAt(rgb: seq<byte>, ch: Component, n: nat, i: nat)
    requires 3 * n <= |rgb| && i < n
    ensures Plane(rgb, ch, n)[i] == SampleByte(rgb, ch, i)
  {
    if i < n - 1 {
      PlaneAt(rgb, ch, n - 1, i);
    }
  }

  /** The U and V plane samples of pixel i are the chroma bytes of its three bytes. */
  lemma ChromaSamples(pixels: seq<byte>, n: nat, i: nat)
    requires 3 * n <= |pixels| && i < n
    ensures Plane(pixels, U, n)[i] == ComponentByte(U, pixels[3 * i], pixels[3 * i + 1], pixels[3 * i + 2])
    ensures Plane(pixels, V, n)[i] == ComponentByte(V, pixels[3 * i], pixels[3 * i + 1], pixels[3 * i + 2])
  {
    PlaneAt(pixels, U, n, i);
    PlaneAt(pixels, V, n, i);
  }

  lemma {:induction false} ChromaRowAt(us: seq<byte>, vs: seq<byte>, base: nat, n: nat, j: nat)
    requires |us| == |vs| && base + 2 * n <= |us| && j < n
    ensures ChromaRow(us, vs, base, n)[2 * j] == us[base + 2 * j]
    ensures ChromaRow(us, vs, base, n)[2 * j + 1] == vs[base + 2 * j]
  {
    if j < n - 1 {
      ChromaRowAt(us, vs, base, n - 1, j);
    }
  }

  lemma {:induction false} ChromaRowsAt(us: seq<byte>, vs: seq<byte>, w: nat, m: nat, r: nat, x: nat)
    requires |us| == |vs| && w % 2 == 0 && 2 * (m * w) <= |us|
    requires r < m && x % 2 == 0 && x < w
    ensures r * w + x + 1 < m * w && 2 * (r * w) + x < |us|
    ensures ChromaRows(us, vs, w, m)[r * w + x] == us[2 * (r * w) + x]
    ensures ChromaRows(us, vs, w, m)[r * w + x + 1] == vs[2 * (r * w) + x]
  {
    MulSucc(m - 1, w);
    var above, row := ChromaRows(us, vs, w, m - 1), ChromaRow(us, vs, 2 * ((m - 1) * w), w / 2);
    assert ChromaRows(us, vs, w, m) == above + row;
    if r < m - 1 {
      MulMonotone(r + 1, m - 1, w);
      MulSucc(r, w);
      ChromaRowsAt(us, vs, w, m - 1, r, x);
    } else {
      assert x == 2 * (x / 2);
      ChromaRowAt(us, vs, 2 * (r * w), w / 2, x / 2);
    }
  }

  /** Every luma byte of the output is the luma formula of its pixel, exactly. */
  lemma EncodedLumaAt(rgb: seq<byte>, w: nat, h: nat, i: nat)
    requires w % 2 == 0 && h % 2 == 0 && 3 * ImageSize(w, h) <= |rgb|
    requires i < ImageSize(w, h)
    ensures Encoded(rgb, w, h)[i] == Luma(rgb[3 * i], rgb[3 * i + 1], rgb[3 * i + 2])
  {
    PlaneAt(rgb, Y, ImageSize(w, h), i);
    StoresNeverWrap(rgb[3 * i], rgb[3 * i + 1], rgb[3 * i + 2]);
  }

  /** Index arithmetic for a pixel (x, y) with even coordinates: its chroma
      pair sits at offset (y/2)*w + x of the chroma block, and its raster index
      is twice the start of chroma row y/2 plus x. */
  lemma ChromaPixelIndices(w: nat, h: nat, x: nat, y: nat)
    requires w % 2 == 0 && h % 2 == 0 && x % 2 == 0 && x < w && y % 2 == 0 && y < h
    ensures PixelIndex(w, x, y) < ImageSize(w, h) && ChromaIndex(w, x, y) < ChromaSize(w, h)
    ensures 2 * ChromaIndex(w, x, y) == (y / 2) * w + x
    ensures PixelIndex(w, x, y) == 2 * ((y / 2) * w) + x
    ensures ImageSize(w, h) == 2 * ((h / 2) * w)
  {
    var r, half := y / 2, w / 2;
    ChromaInPlane(w, h, x, y);
    PixelInImage(w, h, x, y);
    HalfRows(w, h);
    assert 2 * (r * half) == r * w;
  }

  /** For even x < w and even y < h the k-th chroma pair, k = (y/2)*(w/2) + x/2,
      holds the U and V formulas of pixel i = y*w + x, exactly. */
  lemma EncodedChromaAt(rgb: seq<byte>, w: nat, h: nat, x: nat, y: nat)
    requires w % 2 == 0 && h % 2 == 0 && 3 * ImageSize(w, h) <= |rgb|
    requires x % 2 == 0 && x < w && y % 2 == 0 && y < h
    ensures var n, k, i := ImageSize(w, h), ChromaIndex(w, x, y), PixelIndex(w, x, y);
      && i < n && k < ChromaSize(w, h)
      && Encoded(rgb, w, h)[n + 2 * k] == ChromaU(rgb[3 * i], rgb[3 * i + 1], rgb[3 * i + 2])
      && Encoded(rgb, w, h)[n + 2 * k + 1] == ChromaV(rgb[3 * i], rgb[3 * i + 1], rgb[3 * i + 2])
  {
    var n, k, i := ImageSize(w, h), ChromaIndex(w, x, y), PixelIndex(w, x, y);
    ChromaPixelIndices(w, h, x, y);
    var us, vs := Plane(rgb, U, n), Plane(rgb, V, n);
    ChromaRowsAt(us, vs, w, h / 2, y / 2, x);
    var luma, chroma := Plane(rgb, Y, n), ChromaRows(us, vs, w, h / 2);
    assert Encoded(rgb, w, h) == luma + chroma;
    assert chroma[2 * k] == us[i] && chroma[2 * k + 1] == vs[i];
    ChromaSamples(rgb, n, i);
    StoresNeverWrap(rgb[3 * i], rgb[3 * i + 1], rgb[3 * i + 2]);
  }

  /** Pixel i of the buffer carries the bytes (c0, c1, c2). */
  predicate PixelIs(rgb: seq<byte>, i: nat, c0: byte, c1: byte, c2: byte) {
    HasPixel(rgb, i) && rgb[3 * i] == c0 && rgb[3 * i + 1] == c1 && rgb[3 * i + 2] == c2
  }

  /** A uniformly coloured image encodes to a constant luma plane and a chroma
      plane of identical (U, V) pairs. */
  lemma UniformImage(rgb: seq<byte>, w: nat, h: nat, c0: byte, c1: byte, c2: byte)
    requires w % 2 == 0 && h % 2 == 0 && 3 * ImageSize(w, h) <= |rgb|
    requires forall i :: 0 <= i < ImageSize(w, h) ==> PixelIs(rgb, i, c0, c1, c2)
    ensures forall i :: 0 <= i < ImageSize(w, h) ==> Encoded(rgb, w, h)[i] == Luma(c0, c1, c2)
    ensures forall k :: 0 <= k < ChromaSize(w, h) ==>
      Encoded(rgb, w, h)[ImageSize(w, h) + 2 * k] == ChromaU(c0, c1, c2) &&
      Encoded(rgb, w, h)[ImageSize(w, h) + 2 * k + 1] == ChromaV(c0, c1, c2)
  {
    forall i | 0 <= i < ImageSize(w, h)
      ensures Encoded(rgb, w, h)[i] == Luma(c0, c1, c2)
    {
      assert PixelIs(rgb, i, c0, c1, c2);
      EncodedLumaAt(rgb, w, h, i);
    }
    forall k | 0 <= k < ChromaSize(w, h)
      ensures Encoded(rgb, w, h)[ImageSize(w, h) + 2 * k] == ChromaU(c0, c1, c2)
      ensures Encoded(rgb, w, h)[ImageSize(w, h) + 2 * k + 1] == ChromaV(c0, c1, c2)
    {
      var x, y := SubsampledPixel(w, h, k);
      EncodedChromaAt(rgb, w, h, x, y);
      assert PixelIs(rgb, PixelIndex(w, x, y), c0, c1, c2);
    }
  }
}
