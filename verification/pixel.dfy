/** Integer pixel arithmetic of CameraTask: the `unsigned char` type, the
    arithmetic right shift by 8 and the BT.601-style luma and chroma formulas.
    Channels are named by their byte offset inside a 3-byte pixel (c0, c1, c2):
    the caller hands over OpenCV BGR data, so c0 is blue there, although the
    weights applied to it are the ones BT.601 gives to red. */
module Pixel {

  /** An `unsigned char`. */
  type byte = b: int | 0 <= b < 256

  /** `v >> 8` on a C++ `int`, taken as an arithmetic shift: floor division
      by 256 (Dafny's `/` by a positive divisor rounds toward minus infinity). */
  function Shr8(v: int): (r: int)
    ensures r * 256 <= v < r * 256 + 256
  {
    v / 256
  }

  /** Storing an `int` into an `unsigned char`: the value modulo 256. */
  function StoreByte(v: int): (b: byte)
    ensures (v - b) % 256 == 0
    ensures 0 <= v < 256 ==> b == v
  {
    v % 256
  }

  /** Luma of one pixel; for byte inputs it never leaves the video range, so
      the store into an `unsigned char` never wraps. */
  function Luma(c0: byte, c1: byte, c2: byte): (y: int)
    ensures 16 <= y <= 235
  {
    Shr8(66 * c0 + 129 * c1 + 25 * c2) + 16
  }

  /** First chroma sample (U) of one pixel, within [16, 239] for byte inputs. */
  function ChromaU(c0: byte, c1: byte, c2: byte): (u: int)
    ensures 16 <= u <= 239
  {
    Shr8(-38 * c0 - 74 * c1 + 112 * c2) + 128
  }

  /** Second chroma sample (V) of one pixel, within [16, 239] for byte inputs. */
  function ChromaV(c0: byte, c1: byte, c2: byte): (v: int)
    ensures 16 <= v <= 239
  {
    Shr8(112 * c0 - 94 * c1 - 18 * c2) + 128
  }

  /** The three stores of one pixel keep the exact formula values: no
      wrap-around modulo 256 happens for any byte input. */
  lemma StoresNeverWrap(c0: byte, c1: byte, c2: byte)
    ensures StoreByte(Luma(c0, c1, c2)) == Luma(c0, c1, c2)
    ensures StoreByte(ChromaU(c0, c1, c2)) == ChromaU(c0, c1, c2)
    ensures StoreByte(ChromaV(c0, c1, c2)) == ChromaV(c0, c1, c2)
  {
  }

  /** The range bounds are reached: black and white give the luma limits,
      and a pixel with only c2 (resp. only c0) saturated gives the chroma limits. */
  lemma RangesAreTight()
    ensures Luma(0, 0, 0) == 16 && Luma(255, 255, 255) == 235
    ensures ChromaU(0, 0, 255) == 239 && ChromaU(255, 255, 0) == 16
    ensures ChromaV(255, 0, 0) == 239 && ChromaV(0, 255, 255) == 16
  {
  }

  /** A pixel whose bytes are (255, 0, 0) encodes to Y = 81, U = 90, V = 239. */
  lemma SaturatedC0Pixel()
    ensures Luma(255, 0, 0) == 81
    ensures ChromaU(255, 0, 0) == 90
    ensures ChromaV(255, 0, 0) == 239
  {
  }
}
