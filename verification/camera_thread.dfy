/** The frame-processing part of CameraTask: the two pixel-format kernels,
    which write their output arrays in place, and the per-frame publish step
    of the worker loop (the Android path), which re-encodes the camera frame
    in place and copies it into the display and export buffers.
    A C pointer into a buffer is an (array, offset) pair; `memcpy` is a plain
    array copy. */
module CameraThread {
  import opened Pixel
  import opened ChromaLayout
  import opened Yuv420

  /** A YUV 4:2:0 frame with semiplanar chroma turned into planar chroma:
      the n luma bytes stay, the 2*c chroma bytes are de-interleaved into a
      U plane and a V plane of c bytes each. */
  function ToPlanar420(frame: seq<byte>, n: nat, c: nat): (p: seq<byte>)
    requires |frame| == n + 2 * c
    ensures |p| == |frame|
  {
    frame[..n] + Planar(frame[n..])
  }

  /** The inverse layout change: planar chroma interleaved back into pairs. */
  function ToSemiplanar420(frame: seq<byte>, n: nat, c: nat): (s: seq<byte>)
    requires |frame| == n + 2 * c
    ensures |s| == |frame|
  {
    frame[..n] + Interleave(frame[n..n + c], frame[n + c..])
  }

  /** Re-interleaving a planar frame gives back the semiplanar frame: the
      export buffer can be recovered from the display buffer. */
  lemma SemiplanarOfPlanar(frame: seq<byte>, n: nat, c: nat)
    requires |frame| == n + 2 * c
    ensures ToSemiplanar420(ToPlanar420(frame, n, c), n, c) == frame
  {
    var chroma := frame[n..];
    var p := ToPlanar420(frame, n, c);
    assert p[..n] == frame[..n];
    assert p[n..n + c] == Us(chroma);
    assert p[n + c..] == Vs(chroma);
    InterleaveOfSplit(chroma);
    assert Interleave(p[n..n + c], p[n + c..]) == chroma;
    assert frame == frame[..n] + chroma;
  }

  /** De-interleaving a semiplanar frame built from a planar one gives it back. */
  lemma PlanarOfSemiplanar(frame: seq<byte>, n: nat, c: nat)
    requires |frame| == n + 2 * c
    ensures ToPlanar420(ToSemiplanar420(frame, n, c), n, c) == frame
  {
    var u, v := frame[n..n + c], frame[n + c..];
    var s := ToSemiplanar420(frame, n, c);
    assert s[..n] == frame[..n];
    assert s[n..] == Interleave(u, v);
    SplitOfInterleave(u, v);
    assert Planar(s[n..]) == u + v;
    assert frame == frame[..n] + u + v;
  }

  /** Where ToPlanar420 puts each byte: luma bytes stay, the k-th chroma pair
      goes to offset k of the U plane and offset k of the V plane. */
  lemma PlanarFrameAt(frame: seq<byte>, n: nat, c: nat, i: nat, k: nat)
    requires |frame| == n + 2 * c
    requires i < n && k < c
    ensures ToPlanar420(frame, n, c)[i] == frame[i]
    ensures ToPlanar420(frame, n, c)[n + k] == frame[n + 2 * k]
    ensures ToPlanar420(frame, n, c)[n + c + k] == frame[n + 2 * k + 1]
  {
    PlanarAt(frame[n..], k);
  }

  /** What the display shows after a frame re-encoded from pixel buffer rgb:
      the luma formula at every pixel, and for every pixel (x, y) with even
      coordinates its U sample at offset k of the U plane and its V sample at
      offset k of the V plane that follows it, k = (y/2)*(w/2) + x/2. */
  lemma DisplayedFrameAt(rgb: seq<byte>, w: nat, h: nat, x: nat, y: nat)
    requires w % 2 == 0 && h % 2 == 0 && 3 * ImageSize(w, h) <= |rgb|
    requires x % 2 == 0 && x < w && y % 2 == 0 && y < h
    ensures var d := ToPlanar420(Encoded(rgb, w, h), ImageSize(w, h), ChromaSize(w, h));
      var n, c, k, i := ImageSize(w, h), ChromaSize(w, h), ChromaIndex(w, x, y), PixelIndex(w, x, y);
      && i < n && k < c
      && d[i] == Luma(rgb[3 * i], rgb[3 * i + 1], rgb[3 * i + 2])
      && d[n + k] == ChromaU(rgb[3 * i], rgb[3 * i + 1], rgb[3 * i + 2])
      && d[n + c + k] == ChromaV(rgb[3 * i], rgb[3 * i + 1], rgb[3 * i + 2])
  {
    var e := Encoded(rgb, w, h);
    var i, k := PixelIndex(w, x, y), ChromaIndex(w, x, y);
    EncodedChromaAt(rgb, w, h, x, y);
    EncodedLumaAt(rgb, w, h, i);
    PlanarFrameAt(e, ImageSize(w, h), ChromaSize(w, h), i, k);
  }

  /** `CameraTask::convertUVsp2UVp`: de-interleaves the 2*stride chroma bytes
      at src[srcOff..] into dst[dstOff..]; the buffers do not alias. */
  method ConvertUVsp2UVp(src: array<byte>, srcOff: nat, dst: array<byte>, dstOff: nat, stride: nat)
    requires src != dst
    requires srcOff + 2 * stride <= src.Length && dstOff + 2 * stride <= dst.Length
    modifies dst
    ensures dst[dstOff..dstOff + 2 * stride] == Planar(src[srcOff..srcOff + 2 * stride])
    ensures dst[..dstOff] == old(dst[..dstOff])
    ensures dst[dstOff + 2 * stride..] == old(dst[dstOff + 2 * stride..])
  {
    ghost var block := src[srcOff..srcOff + 2 * stride];
    for i := 0 to stride
      invariant forall j :: 0 <= j < i ==> dst[dstOff + j] == block[2 * j]
      invariant forall j :: 0 <= j < i ==> dst[dstOff + stride + j] == block[2 * j + 1]
      invariant forall j ::
        (0 <= j < dst.Length && !(dstOff <= j < dstOff + i) && !(dstOff + stride <= j < dstOff + stride + i))
        ==> dst[j] == old(dst[j])
    {
      dst[dstOff + i] := src[srcOff + i * 2];
      dst[dstOff + i + stride] := src[srcOff + i * 2 + 1];
    }
    forall j | 0 <= j < 2 * stride
      ensures dst[dstOff + j] == Planar(block)[j]
    {
      if j < stride {
        PlanarAt(block, j);
      } else {
        PlanarAt(block, j - stride);
      }
    }
  }

  /** The even successor of an even number below an even bound stays within it. */
  lemma NextEven(c: nat, half: nat)
    requires 2 * c < 2 * half
    ensures 2 * c + 2 <= 2 * half
  {
  }

  /** Pixel row y = 2r starts at twice the chroma offset of chroma row r. */
  lemma RowStart(y: nat, r: nat, w: nat)
    requires y == 2 * r
    ensures y * w == 2 * (r * w)
  {
  }

  /** Storing b just past a written prefix extends the prefix by b and
      consumes one byte of what follows it. */
  lemma PutByte(written: seq<byte>, rest: seq<byte>, b: byte)
    requires 1 <= |rest|
    ensures (written + rest)[|written| := b] == written + [b] + rest[1..]
  {
  }

  /** Storing a chroma pair just past a written prefix extends the prefix by
      the pair and consumes two bytes of what follows it. */
  lemma PutPair(written: seq<byte>, rest: seq<byte>, u: byte, v: byte)
    requires 2 <= |rest|
    ensures (written + rest)[|written| := u][|written| + 1 := v] == written + [u, v] + rest[2..]
  {
  }

  /** Storing the chroma pair of pixel rowStart + 2c just past the first c
      pairs of a row extends the row by one pair. */
  lemma RowStep(written: seq<byte>, us: seq<byte>, vs: seq<byte>, rowStart: nat, c: nat, rest: seq<byte>, x: nat,
                u: byte, v: byte)
    requires |us| == |vs| && rowStart + 2 * c + 2 <= |us| && x + 2 <= |rest|
    requires u == us[rowStart + 2 * c] && v == vs[rowStart + 2 * c]
    ensures var p := |written| + 2 * c;
      (written + ChromaRow(us, vs, rowStart, c) + rest[x..])[p := u][p + 1 := v]
      == written + ChromaRow(us, vs, rowStart, c + 1) + rest[x + 2..]
  {
    PutPair(written + ChromaRow(us, vs, rowStart, c), rest[x..], u, v);
    assert rest[x..][2..] == rest[x + 2..];
  }

  /** The Y-plane loop of `CameraTask::RGB242Yuv420p`: the first n bytes of
      destination become the luma plane of the n pixels of rgb; the rest of
      destination is untouched. */
  method LumaPass(destination: array<byte>, rgb: array<byte>, n: nat, ghost pixels: seq<byte>)
    requires destination != rgb && pixels == rgb[..]
    requires 3 * n <= rgb.Length && n <= destination.Length
    modifies destination
    ensures destination[..] == Plane(pixels, Y, n) + old(destination[n..])
  {
    ghost var initial := destination[..];
    var dstY := 0;
    for i := 0 to n
      invariant dstY == i
      invariant destination[..] == Plane(pixels, Y, i) + initial[i..]
    {
      PlaneAt(pixels, Y, i + 1, i);
      ghost var before := destination[..];
      var luma := ComponentByte(Y, rgb[3 * i], rgb[3 * i + 1], rgb[3 * i + 2]);
      destination[dstY] := luma;
      dstY := dstY + 1;
      assert destination[..] == before[i := luma];
      PutByte(Plane(pixels, Y, i), initial[i..], luma);
      assert initial[i..][1..] == initial[i + 1..];
    }
  }

  /** One pass of the inner UV loop of `CameraTask::RGB242Yuv420p`: for the
      pixels rowStart, rowStart + 2, ... of one even row of width pixels, the
      U and V samples are stored in pairs from destination[start] on.
      written is what destination holds before start, rest what it holds
      from start on. */
  method ChromaRowPass(destination: array<byte>, start: nat, rgb: array<byte>, width: nat, rowStart: nat, n: nat,
                       ghost pixels: seq<byte>, ghost written: seq<byte>, ghost rest: seq<byte>)
    returns (end: nat)
    requires destination != rgb && pixels == rgb[..] && width % 2 == 0
    requires rowStart + width <= n && 3 * n <= rgb.Length
    requires destination[..] == written + rest && |written| == start && width <= |rest|
    modifies destination
    ensures end == start + width
    ensures destination[..] == written + ChromaRow(Plane(pixels, U, n), Plane(pixels, V, n), rowStart, width / 2) + rest[width..]
  {
    ghost var us, vs := Plane(pixels, U, n), Plane(pixels, V, n);
    ghost var half := width / 2;
    assert width == 2 * half;
    var dstUV := start;
    var x := 0;
    ghost var c := 0;
    assert rest[0..] == rest;
    while x < width
      invariant x == 2 * c && x <= width
      invariant dstUV == start + x
      invariant destination[..] == written + ChromaRow(us, vs, rowStart, c) + rest[x..]
    {
      NextEven(c, half);
      var i := rowStart + x;
      ChromaSamples(pixels, n, i);
      ghost var before := destination[..];
      var c0, c1, c2 := rgb[3 * i], rgb[3 * i + 1], rgb[3 * i + 2];
      var u, v := ComponentByte(U, c0, c1, c2), ComponentByte(V, c0, c1, c2);
      RowStep(written, us, vs, rowStart, c, rest, x, u, v);
      destination[dstUV] := u;
      dstUV := dstUV + 1;
      destination[dstUV] := v;
      dstUV := dstUV + 1;
      assert destination[..] == before[dstUV - 2 := u][dstUV - 1 := v];
      x := x + 2;
      c := c + 1;
    }
    end := dstUV;
  }

  /** One more row pair of chroma: it fits in the planes, starts at twice
      the chroma offset of the rows before it, and appending it to the chroma
      of the rows before it gives the chroma of one more row. */
  lemma ChromaRowsStep(luma: seq<byte>, us: seq<byte>, vs: seq<byte>, w: nat, rows: nat, r: nat, rest: seq<byte>)
    requires |us| == |vs| && w % 2 == 0 && r < rows && 2 * (rows * w) <= |us|
    requires rows * w <= |rest|
    ensures r * w + w == (r + 1) * w <= rows * w
    ensures 2 * (r * w) + w <= 2 * (rows * w)
    ensures luma + ChromaRows(us, vs, w, r) + ChromaRow(us, vs, 2 * (r * w), w / 2) + rest[r * w..][w..]
            == luma + ChromaRows(us, vs, w, r + 1) + rest[(r + 1) * w..]
  {
    MulSucc(r, w);
    MulMonotone(r + 1, rows, w);
    assert rest[r * w..][w..] == rest[(r + 1) * w..];
  }

  /** The UV loop of `CameraTask::RGB242Yuv420p`: after the luma plane
      (imageSize bytes, held in luma), the chroma pairs of every even row
      y = 0, 2, ... of the width x height image; rest is what destination
      holds after the luma plane. */
  method ChromaPass(destination: array<byte>, rgb: array<byte>, width: nat, height: nat, imageSize: nat,
                    ghost pixels: seq<byte>, ghost luma: seq<byte>, ghost rest: seq<byte>)
    requires destination != rgb && pixels == rgb[..]
    requires width % 2 == 0 && height % 2 == 0 && imageSize == 2 * ((height / 2) * width)
    requires 3 * imageSize <= rgb.Length
    requires destination[..] == luma + rest && |luma| == imageSize && (height / 2) * width <= |rest|
    modifies destination
    ensures destination[..] == luma + ChromaRows(Plane(pixels, U, imageSize), Plane(pixels, V, imageSize), width, height / 2)
                               + rest[(height / 2) * width..]
  {
    ghost var us, vs := Plane(pixels, U, imageSize), Plane(pixels, V, imageSize);
    ghost var rows := height / 2;
    assert height == 2 * rows;
    var dstUV := imageSize;
    assert rest[0..] == rest;
    var y := 0;
    ghost var r, done := 0, 0;
    while y < height
      invariant y == 2 * r && r <= rows
      invariant done == r * width && done <= rows * width
      invariant dstUV == imageSize + done
      invariant destination[..] == luma + ChromaRows(us, vs, width, r) + rest[done..]
    {
      NextEven(r, rows);
      ChromaRowsStep(luma, us, vs, width, rows, r, rest);
      RowStart(y, r, width);
      ghost var written := luma + ChromaRows(us, vs, width, r);
      dstUV := ChromaRowPass(destination, dstUV, rgb, width, y * width, imageSize, pixels, written, rest[done..]);
      y := y + 2;
      r, done := r + 1, done + width;
    }
    assert r == rows && done == (height / 2) * width;
  }

  /** `CameraTask::RGB242Yuv420p`: writes the luma plane and then the
      interleaved chroma of the even rows and columns into destination,
      advancing one cursor per region. */
  method RGB242Yuv420p(destination: array<byte>, rgb: array<byte>, width: nat, height: nat)
    requires destination != rgb
    requires width % 2 == 0 && height % 2 == 0
    requires 3 * ImageSize(width, height) <= rgb.Length
    requires FrameSize(width, height) <= destination.Length
    modifies destination
    ensures destination[..FrameSize(width, height)] == Encoded(old(rgb[..]), width, height)
    ensures destination[FrameSize(width, height)..] == old(destination[FrameSize(width, height)..])
    ensures rgb[..] == old(rgb[..])
  {
    ghost var pixels := rgb[..];
    ghost var initial := destination[..];
    HalfRows(width, height);
    ChromaFillsFrame(width, height);
    var imageSize := width * height;
    LumaPass(destination, rgb, imageSize, pixels);
    ghost var luma := Plane(pixels, Y, imageSize);
    ChromaPass(destination, rgb, width, height, imageSize, pixels, luma, initial[imageSize..]);
    ghost var chroma := ChromaRows(Plane(pixels, U, imageSize), Plane(pixels, V, imageSize), width, height / 2);
    assert Encoded(pixels, width, height) == luma + chroma;
    assert initial[imageSize..][(height / 2) * width..] == initial[FrameSize(width, height)..];
  }

  /** A display buffer holding the luma of a semiplanar frame followed by its
      de-interleaved chroma holds the planar form of that frame. */
  lemma DisplayedPrefix(display: seq<byte>, camera: seq<byte>, n: nat, c: nat)
    requires n + 2 * c <= |display| && n + 2 * c <= |camera|
    requires display[..n] == camera[..n] && display[n..n + 2 * c] == Planar(camera[n..n + 2 * c])
    ensures display[..n + 2 * c] == ToPlanar420(camera[..n + 2 * c], n, c)
  {
    assert display[..n + 2 * c] == display[..n] + display[n..n + 2 * c];
    assert camera[..n + 2 * c][..n] == camera[..n];
    assert camera[..n + 2 * c][n..] == camera[n..n + 2 * c];
  }

  /** Two buffers that agree from offset n on agree from any later offset. */
  lemma SameSuffix(a: seq<byte>, b: seq<byte>, n: nat, m: nat)
    requires n <= m <= |a| == |b| && a[n..] == b[n..]
    ensures a[m..] == b[m..]
  {
    assert a[m..] == a[n..][m - n..];
    assert b[m..] == b[n..][m - n..];
  }

  /** `memcpy(dst, src, count)` between two distinct buffers. */
  method MemCopy(dst: array<byte>, src: array<byte>, count: nat)
    requires dst != src && count <= dst.Length && count <= src.Length
    modifies dst
    ensures dst[..count] == src[..count]
    ensures dst[count..] == old(dst[count..])
  {
    forall i | 0 <= i < count {
      dst[i] := src[i];
    }
  }

  /** The frame state of a camera worker: the display frame (a mapped video
      frame, planar YUV 4:2:0), the optional export buffer (semiplanar
      YUV 4:2:0) and the frame dimensions. */
  class CameraTask {
    const videoFrame: array?<byte>
    const cvImageBuf: array?<byte>
    const width: nat
    const height: nat

    constructor (videoFrame: array?<byte>, cvImageBuf: array?<byte>, width: nat, height: nat)
      ensures this.videoFrame == videoFrame && this.cvImageBuf == cvImageBuf
      ensures this.width == width && this.height == height
    {
      this.videoFrame := videoFrame;
      this.cvImageBuf := cvImageBuf;
      this.width := width;
      this.height := height;
    }

    /** One pass of the worker loop once a camera frame has been grabbed:
        bgr is the OpenCV conversion of that frame with the rectangle drawn.
        The frame is re-encoded in place, its luma copied and its chroma
        de-interleaved into the display frame, and the whole frame copied
        into the export buffer when there is one. */
    method PublishFrame(cameraFrame: array<byte>, bgr: array<byte>)
      requires videoFrame != null
      requires width % 2 == 0 && height % 2 == 0
      requires 3 * ImageSize(width, height) <= bgr.Length
      requires FrameSize(width, height) <= cameraFrame.Length
      requires FrameSize(width, height) <= videoFrame.Length
      requires cvImageBuf != null ==> FrameSize(width, height) <= cvImageBuf.Length
      requires cameraFrame != bgr && cameraFrame != videoFrame && cameraFrame != cvImageBuf
      requires bgr != videoFrame && bgr != cvImageBuf && videoFrame != cvImageBuf
      modifies cameraFrame, videoFrame, cvImageBuf
      ensures var size := FrameSize(width, height);
        && cameraFrame[..size] == Encoded(bgr[..], width, height)
        && cameraFrame[size..] == old(cameraFrame[size..])
      ensures var size := FrameSize(width, height);
        && videoFrame[..size] == ToPlanar420(cameraFrame[..size], ImageSize(width, height), ChromaSize(width, height))
        && videoFrame[size..] == old(videoFrame[size..])
      ensures var size := FrameSize(width, height);
        cvImageBuf != null ==>
          && cvImageBuf[..size] == cameraFrame[..size]
          && cvImageBuf[size..] == old(cvImageBuf[size..])
    {
      FrameSizes(width, height);
      ghost var n, c, size := ImageSize(width, height), ChromaSize(width, height), FrameSize(width, height);

      RGB242Yuv420p(cameraFrame, bgr, width, height);

      var lumaBytes, stride := height * width, height / 2 * width / 2;
      assert lumaBytes == n && stride == c && n + 2 * c == size;
      ghost var display := videoFrame[..];
      MemCopy(videoFrame, cameraFrame, lumaBytes);
      SameSuffix(videoFrame[..], display, n, size);
      ConvertUVsp2UVp(cameraFrame, lumaBytes, videoFrame, lumaBytes, stride);
      DisplayedPrefix(videoFrame[..], cameraFrame[..], n, c);

      if cvImageBuf != null {
        MemCopy(cvImageBuf, cameraFrame, height * width * 3 / 2);
      }
    }
  }
}
