/** YUV 4:2:0 chroma layouts. A semiplanar chroma block holds interleaved
    pairs U0 V0 U1 V1 ...; the planar block holds all U samples, then all V
    samples, each in their original order. */
module ChromaLayout {
  import opened Pixel

  /** The U samples of a semiplanar block: the bytes at even offsets. */
  function Us(s: seq<byte>): (u: seq<byte>)
    requires |s| % 2 == 0
    ensures |u| == |s| / 2
  {
    if s == [] then [] else [s[0]] + Us(s[2..])
  }

  /** The V samples of a semiplanar block: the bytes at odd offsets. */
  function Vs(s: seq<byte>): (v: seq<byte>)
    requires |s| % 2 == 0
    ensures |v| == |s| / 2
  {
    if s == [] then [] else [s[1]] + Vs(s[2..])
  }

  /** The planar form of a semiplanar block: U block followed by V block. */
  function Planar(s: seq<byte>): (p: seq<byte>)
    requires |s| % 2 == 0
    ensures |p| == |s|
  {
    Us(s) + Vs(s)
  }

  /** Semiplanar block built from a U block and a V block of equal length. */
  function Interleave(u: seq<byte>, v: seq<byte>): (s: seq<byte>)
    requires |u| == |v|
    ensures |s| == 2 * |u|
  {
    if u == [] then [] else [u[0], v[0]] + Interleave(u[1..], v[1..])
  }

  lemma {:induction false} UsAt(s: seq<byte>, i: nat)
    requires |s| % 2 == 0 && i < |s| / 2
    ensures Us(s)[i] == s[2 * i]
  {
    if i > 0 {
      UsAt(s[2..], i - 1);
    }
  }

  lemma {:induction false} VsAt(s: seq<byte>, i: nat)
    requires |s| % 2 == 0 && i < |s| / 2
    ensures Vs(s)[i] == s[2 * i + 1]
  {
    if i > 0 {
      VsAt(s[2..], i - 1);
    }
  }

  /** Where each byte of a semiplanar block lands in the planar block:
      the i-th U sample at i, the i-th V sample at stride + i. */
  lemma PlanarAt(s: seq<byte>, i: nat)
    requires |s| % 2 == 0 && i < |s| / 2
    ensures Planar(s)[i] == s[2 * i]
    ensures Planar(s)[|s| / 2 + i] == s[2 * i + 1]
  {
    UsAt(s, i);
    VsAt(s, i);
  }

  /** Two semiplanar blocks of the same length with the same planar form are
      equal: de-interleaving loses nothing. */
  lemma PlanarInjective(s: seq<byte>, t: seq<byte>)
    requires |s| % 2 == 0 && |t| == |s|
    requires Planar(s) == Planar(t)
    ensures s == t
  {
    forall k | 0 <= k < |s|
      ensures s[k] == t[k]
    {
      PlanarAt(s, k / 2);
      PlanarAt(t, k / 2);
    }
  }

  /** Re-interleaving the U and V samples gives back the semiplanar block. */
  lemma {:induction false} InterleaveOfSplit(s: seq<byte>)
    requires |s| % 2 == 0
    ensures Interleave(Us(s), Vs(s)) == s
    decreases |s|
  {
    if s != [] {
      InterleaveOfSplit(s[2..]);
      assert Us(s)[1..] == Us(s[2..]);
      assert Vs(s)[1..] == Vs(s[2..]);
      assert s == [s[0], s[1]] + s[2..];
    }
  }

  /** Splitting an interleaved block gives back the U and V blocks. */
  lemma {:induction false} SplitOfInterleave(u: seq<byte>, v: seq<byte>)
    requires |u| == |v|
    ensures Us(Interleave(u, v)) == u
    ensures Vs(Interleave(u, v)) == v
    decreases |u|
  {
    if u != [] {
      SplitOfInterleave(u[1..], v[1..]);
      var s := Interleave(u, v);
      assert s[2..] == Interleave(u[1..], v[1..]);
      assert u == [u[0]] + u[1..];
      assert v == [v[0]] + v[1..];
    }
  }
}
