# CameraTask frame processing, modelled in Dafny

This project models the pixel-format core of `CameraTask` in the Qt/OpenCV camera
demo `testLibOpencv`. The worker thread of that class re-encodes each camera
frame, copies it to the screen and optionally exports it. Three pieces are
modelled:

- `convertUVsp2UVp` turns semiplanar chroma (interleaved U V pairs) into planar
  chroma (all U samples, then all V samples).
- `RGB242Yuv420p` re-encodes a 3-byte-per-pixel image as YUV 4:2:0. It writes a
  full-resolution luma plane, then one (U, V) pair for every pixel whose
  coordinates are both even. Despite the `p` (planar) in its name, the pairs
  are written interleaved.
- The Android branch of the worker loop's body, `CameraTask.PublishFrame` here.
  It re-encodes the camera frame in place. It copies the luma plane into the
  mapped display frame and de-interleaves the chroma behind it. When there is
  an export buffer, it copies the whole frame there.

The files, in dependency order:

- `pixel.dfy` (`Pixel`): the `unsigned char` type and `>> 8` as an arithmetic
  shift (floor division by 256). Also the store into an `unsigned char` (modulo
  256) and the three integer colour formulas with their exact ranges.
- `chroma_layout.dfy` (`ChromaLayout`): the semiplanar and planar chroma
  layouts. De-interleaving and interleaving are proved to be inverses.
- `yuv420.dfy` (`Yuv420`): `Encoded`, the byte image `RGB242Yuv420p`
  produces. Lemmas locate every output byte. Luma byte `i` is the luma formula
  of pixel `i`. For even `x` and `y`, chroma pair `k = (y/2)*(w/2) + x/2` holds
  the U and V formulas of pixel `i = y*w + x`.
- `camera_thread.dfy` (`CameraThread`): the imperative kernels on arrays, each
  proved against the functions above, and class `CameraTask` with
  `PublishFrame`.

A C pointer into a buffer is an (array, offset) pair, and `memcpy` is an array
copy. The three bytes of a pixel are named `c0`, `c1`, `c2` by their offset.
The only caller hands over OpenCV BGR data (`CV_YUV420sp2BGR`), so `c0` is
blue there. The weights applied to `c0` are still the ones BT.601 gives to red.
The model keeps the code's behaviour.

Pixel (255, 0, 0) encodes to Y = 81, U = 90 and V = 239. The V formula
truncates 28560 / 256 = 111.56 to 111 before adding 128;
`Pixel.SaturatedC0Pixel` proves these values.

## Model

| member | source | states |
|---|---|---|
| Pixel.Shr8 | testLibOpencv/src/CameraThread.cpp:70 | `>> 8` on an `int` is floor division: `r*256 <= v < r*256 + 256`, also for negative sums |
| Pixel.StoreByte | testLibOpencv/src/CameraThread.cpp:70 | storing an `int` into an `unsigned char` keeps it modulo 256, and keeps it exactly when it is in 0..255 |
| Pixel.Luma | testLibOpencv/src/CameraThread.cpp:70 | the luma formula stays within [16, 235] for all byte inputs |
| Pixel.ChromaU | testLibOpencv/src/CameraThread.cpp:76 | the first chroma formula stays within [16, 239] for all byte inputs |
| Pixel.ChromaV | testLibOpencv/src/CameraThread.cpp:77 | the second chroma formula stays within [16, 239] for all byte inputs |
| Pixel.StoresNeverWrap | testLibOpencv/src/CameraThread.cpp:70-77 | none of the three stores wraps around: each byte written equals its formula |
| Pixel.RangesAreTight | testLibOpencv/src/CameraThread.cpp:70-77 | each bound of the three ranges is reached by some pixel |
| Pixel.SaturatedC0Pixel | testLibOpencv/src/CameraThread.cpp:70-77 | pixel (255, 0, 0) encodes to Y = 81, U = 90, V = 239 |
| ChromaLayout.UsAt | testLibOpencv/src/CameraThread.cpp:55 | sample i of the U block is source byte 2i |
| ChromaLayout.VsAt | testLibOpencv/src/CameraThread.cpp:56 | sample i of the V block is source byte 2i + 1 |
| ChromaLayout.PlanarAt | testLibOpencv/src/CameraThread.cpp:54-57 | planar byte i is semiplanar byte 2i, and planar byte stride + i is semiplanar byte 2i + 1 |
| ChromaLayout.PlanarInjective | testLibOpencv/src/CameraThread.cpp:52-58 | two semiplanar blocks with the same planar form are equal: de-interleaving loses nothing |
| ChromaLayout.InterleaveOfSplit | testLibOpencv/src/CameraThread.cpp:52-58 | re-interleaving the U and V blocks gives back the semiplanar block |
| ChromaLayout.SplitOfInterleave | testLibOpencv/src/CameraThread.cpp:52-58 | splitting an interleaved block gives back the U block and the V block |
| Yuv420.FrameSizes | testLibOpencv/src/CameraThread.cpp:120-134 | for even sides: C's `height*width` is the luma plane size; `height/2*width/2` as C evaluates it is one chroma plane, a quarter of the luma plane; `height*width*3/2` is the frame size, the luma plane plus two chroma planes |
| Yuv420.SubsampledPixel | testLibOpencv/src/CameraThread.cpp:73-75 | every chroma index below the plane size belongs to a pixel with even coordinates inside the image |
| Yuv420.ChromaPixelIndices | testLibOpencv/src/CameraThread.cpp:73-75 | for even x < w and y < h, pixel i = y*w + x lies in the image, k = (y/2)*(w/2) + x/2 lies in a chroma plane, and 2k is the pair's offset in the chroma block |
| Yuv420.PlaneAt | testLibOpencv/src/CameraThread.cpp:69-70 | byte i of a component plane is that component's stored byte for pixel i |
| Yuv420.ChromaSamples | testLibOpencv/src/CameraThread.cpp:75-77 | the U and V samples of pixel i are the two chroma bytes of its three bytes |
| Yuv420.ChromaRowsAt | testLibOpencv/src/CameraThread.cpp:73-77 | in the chroma of the even rows, offset r*w + x holds the U sample and the next byte the V sample of pixel 2r*w + x |
| Yuv420.EncodedLumaAt | testLibOpencv/src/CameraThread.cpp:69-71 | output byte i < w*h is exactly the luma formula of pixel i |
| Yuv420.EncodedChromaAt | testLibOpencv/src/CameraThread.cpp:73-79 | for even x < w and even y < h, output bytes w*h + 2k and w*h + 2k + 1 (k = (y/2)*(w/2) + x/2) are exactly the U and V formulas of pixel y*w + x |
| Yuv420.UniformImage | testLibOpencv/src/CameraThread.cpp:60-80 | a uniformly coloured image encodes to a constant luma plane and identical (U, V) pairs |
| CameraThread.ConvertUVsp2UVp | testLibOpencv/src/CameraThread.cpp:52-58 | the 2*stride bytes written are the planar form of the 2*stride source bytes; nothing else in dst changes |
| CameraThread.SemiplanarOfPlanar | testLibOpencv/src/CameraThread.cpp:52-58 | interleaving the chroma of a planar frame gives back the semiplanar frame it came from |
| CameraThread.PlanarOfSemiplanar | testLibOpencv/src/CameraThread.cpp:52-58 | de-interleaving an interleaved planar frame gives it back |
| CameraThread.PlanarFrameAt | testLibOpencv/src/CameraThread.cpp:120-123 | in the display frame luma byte i is frame byte i, and U and V sample k are frame bytes n + 2k and n + 2k + 1 |
| CameraThread.LumaPass | testLibOpencv/src/CameraThread.cpp:69-71 | the Y loop writes the luma plane of the first w*h pixels into the first w*h bytes and nothing else |
| CameraThread.ChromaRowPass | testLibOpencv/src/CameraThread.cpp:74-78 | one pass of the inner UV loop appends the (U, V) pairs of the even pixels of one row at the cursor, and advances the cursor by width |
| CameraThread.ChromaPass | testLibOpencv/src/CameraThread.cpp:73-79 | the UV loop writes the interleaved chroma of every even row right after the luma plane and nothing beyond it |
| CameraThread.RGB242Yuv420p | testLibOpencv/src/CameraThread.cpp:60-80 | the first w*h*3/2 bytes of destination become `Encoded(rgb)`; the rest of destination and all of rgb are unchanged |
| CameraThread.DisplayedPrefix | testLibOpencv/src/CameraThread.cpp:120-123 | a buffer holding the frame's luma followed by its de-interleaved chroma holds the planar frame |
| CameraThread.MemCopy | testLibOpencv/src/CameraThread.cpp:120 | the first count bytes of dst become those of src; the rest of dst is unchanged |
| CameraThread.DisplayedFrameAt | testLibOpencv/src/CameraThread.cpp:108-123 | end to end, the display shows the luma formula of every pixel at its raster index. For even (x, y), it shows the U and V formulas of that pixel at offset k of the U plane and at offset k of the V plane |
| CameraThread.CameraTask.constructor | testLibOpencv/src/CameraThread.cpp:32-40 | the task keeps the display frame, the export buffer and the frame size it was given |
| CameraThread.CameraTask.PublishFrame | testLibOpencv/src/CameraThread.cpp:108-134 | after one frame the camera buffer holds `Encoded(bgr)`, the display frame holds its planar form, and the export buffer (if any) holds a copy of it; bytes past the frame in each buffer are unchanged |

## Left out

- Threading is not modelled: `QThread`, the `running` flag, `stop()`, the
  `imageReady` signal and the destructor. `PublishFrame` models one pass of the
  loop body.
- The camera device is not modelled: `grabFrame`, the retry on a failed grab
  and `retrieveFrame`. The retrieved frame is the `cameraFrame` parameter.
- `QVideoFrame::map` and `bits()` are not modelled. The mapped bytes are the
  `videoFrame` array.
- The OpenCV calls are not modelled: the `cv::Mat` wrappers,
  `cvtColor(..., CV_YUV420sp2BGR)` and `rectangle`. Their result is the `bgr`
  parameter, with arbitrary contents. The model therefore does not relate the
  re-encoded frame to the frame the camera delivered.
- The non-Android branch is not modelled. It is compiled out and copies
  nothing.
- The model uses unbounded integers:
  - it does not capture an overflow of the C `int` product `width*height` or of
    `height*width*3/2` for huge frames;
  - `int` and `size_t` widths are not modelled;
  - the colour sums are at most 220*255 in magnitude (the luma sum), so they
    cannot overflow.
- Before C++20, `>>` of a negative `int` is implementation-defined. The model
  takes the arithmetic shift that mainstream compilers implement.
- CameraThread.RGB242Yuv420p: requires even width and height. For odd sizes
  the UV loop writes a pair for the rounded-up number of rows and columns.
  The copies in the worker loop use `height/2*width/2` and `height*width*3/2`,
  which round down, so the two no longer agree; that case is not modelled.
  `PublishFrame` has the same restriction.
- CameraThread.RGB242Yuv420p: the two loops and the nested loop are three
  methods (`LumaPass`, `ChromaPass`, `ChromaRowPass`) instead of one function
  body. The cursors, the order of stores and every stored byte are the same.
- `__restrict` and the separate buffers are preconditions that the arrays are
  distinct. Overlapping buffers are not modelled.
