/** The arithmetic of `Image::GenerateMipmaps`: how many levels one call
    appends, and what each byte of a level is. Two readings are given: the
    per-channel 2 x 2 average the loop evidently intends, which the image
    model builds, and the loop as written, whose defects are exhibited. */
module Mipmapping {
  import opened Common
  import Util

  // ---------------------------------------------------------------------
  // Level count

  /** The source's sanity fix: a `minSize` of zero or below counts as 1. */
  function MinLevelSize(minSize: int): (m: int)
    ensures m >= 1
    ensures minSize >= 1 ==> m == minSize
  {
    if minSize <= 0 then 1 else minSize
  }

  /** `x` halved `k` times, as the `>> 1` steps of the mipmap loop do for
      non-negative sizes. */
  function Halved(x: int, k: nat): int
  {
    if k == 0 then x else Halved(x, k - 1) / 2
  }

  /** Levels appended below a `w x h` level: halve both sizes while neither
      falls below `m`. */
  function LevelCount(w: int, h: int, m: int): nat
    requires m >= 1
    decreases w
  {
    if w / 2 >= m && h / 2 >= m then 1 + LevelCount(w / 2, h / 2, m) else 0
  }

  lemma {:induction false} HalvedShift(x: int, k: nat)
    ensures Halved(x, k + 1) == Halved(x / 2, k)
  {
    if k > 0 {
      HalvedShift(x, k - 1);
    }
  }

  /** The last level appended has no room for another: a second call with
      the same `minSize` appends nothing. */
  lemma {:induction false} LevelCountStops(w: int, h: int, m: int)
    requires m >= 1
    ensures LevelCount(Halved(w, LevelCount(w, h, m)), Halved(h, LevelCount(w, h, m)), m) == 0
    decreases w
  {
    var n := LevelCount(w, h, m);
    if n > 0 {
      LevelCountStops(w / 2, h / 2, m);
      HalvedShift(w, n - 1);
      HalvedShift(h, n - 1);
    }
  }

  /** A `2^a x 2^b` image with `minSize` 1 gets `min(a, b)` more levels, down
      to the level where one side is 1. */
  lemma {:induction false} LevelCountOfPowers(a: nat, b: nat)
    ensures LevelCount(Util.Pow2(a), Util.Pow2(b), 1) == Min(a, b)
  {
    if a > 0 && b > 0 {
      LevelCountOfPowers(a - 1, b - 1);
      assert Util.Pow2(a) / 2 == Util.Pow2(a - 1);
      assert Util.Pow2(b) / 2 == Util.Pow2(b - 1);
    } else if a == 0 {
      assert Util.Pow2(a) / 2 == 0;
    } else {
      assert Util.Pow2(b) / 2 == 0;
    }
  }

  /** Every appended level is at least `m` on each side. */
  lemma {:induction false} LevelsAtLeast(w: int, h: int, m: int, k: nat)
    requires m >= 1 && 1 <= k <= LevelCount(w, h, m)
    ensures Halved(w, k) >= m && Halved(h, k) >= m
    decreases w
  {
    HalvedShift(w, k - 1);
    HalvedShift(h, k - 1);
    if k > 1 {
      LevelsAtLeast(w / 2, h / 2, m, k - 1);
    }
  }

  // ---------------------------------------------------------------------
  // Level contents, as intended

  /** The truncating average of four bytes, `(a + b) / 4` in the source. */
  function Mean4(a: byte, b: byte, c: byte, d: byte): (r: byte)
    ensures 4 * r <= a + b + c + d < 4 * r + 4
  {
    (a + b + c + d) / 4
  }

  /** The average lies between the smallest and the largest of the four. */
  lemma Mean4Between(a: byte, b: byte, c: byte, d: byte, lo: int, hi: int)
    requires lo <= a <= hi && lo <= b <= hi && lo <= c <= hi && lo <= d <= hi
    ensures lo <= Mean4(a, b, c, d) <= hi
  {
  }

  /** Byte offset of channel `c` of pixel `(y, x)` in a level `w` pixels wide. */
  function Offset(w: int, bpp: int, y: int, x: int, c: int): int
  {
    (y * w + x) * bpp + c
  }

  lemma OffsetInRange(w: int, h: int, bpp: int, y: int, x: int, c: int)
    requires 0 <= y < h && 0 <= x < w && 0 <= c < bpp
    ensures 0 <= Offset(w, bpp, y, x, c) < w * h * bpp
  {
    MulAddBelow(y, x, w, h);
    MulAddBelow(y * w + x, c, bpp, h * w);
    assert h * w * bpp == w * h * bpp;
  }

  /** A level of `w x h` pixels below a source level of `srcW x srcH`. */
  predicate Fits(srcLen: int, srcW: int, srcH: int, bpp: int, w: int, h: int)
  {
    bpp >= 0 && w >= 0 && h >= 0 && 2 * w <= srcW && 2 * h <= srcH &&
    srcLen == srcW * srcH * bpp
  }

  /** Channel `c` of pixel `(j, i)` of the level below `src`: the average of
      that channel over the 2 x 2 block at `(2j, 2i)`. */
  function Averaged(src: seq<byte>, srcW: int, srcH: int, bpp: int, w: int, h: int,
                    j: int, i: int, c: int): byte
    requires Fits(|src|, srcW, srcH, bpp, w, h)
    requires 0 <= j < h && 0 <= i < w && 0 <= c < bpp
  {
    OffsetInRange(srcW, srcH, bpp, 2 * j, 2 * i, c);
    OffsetInRange(srcW, srcH, bpp, 2 * j, 2 * i + 1, c);
    OffsetInRange(srcW, srcH, bpp, 2 * j + 1, 2 * i, c);
    OffsetInRange(srcW, srcH, bpp, 2 * j + 1, 2 * i + 1, c);
    Mean4(src[Offset(srcW, bpp, 2 * j, 2 * i, c)], src[Offset(srcW, bpp, 2 * j, 2 * i + 1, c)],
          src[Offset(srcW, bpp, 2 * j + 1, 2 * i, c)], src[Offset(srcW, bpp, 2 * j + 1, 2 * i + 1, c)])
  }

  /** Byte `q` of the level below `src`, with rows of `w * bpp` bytes. */
  function DownsampledByte(src: seq<byte>, srcW: int, srcH: int, bpp: int, w: int, h: int,
                           q: int): byte
    requires Fits(|src|, srcW, srcH, bpp, w, h) && 0 <= q < w * h * bpp
  {
    Coordinates(w, h, bpp, q);
    Averaged(src, srcW, srcH, bpp, w, h, q / (w * bpp), (q % (w * bpp)) / bpp, (q % (w * bpp)) % bpp)
  }

  /** Row, pixel and channel of byte `q` in a level `w x h`. */
  lemma Coordinates(w: int, h: int, bpp: int, q: int)
    requires w >= 0 && h >= 0 && bpp >= 0 && 0 <= q < w * h * bpp
    ensures w * bpp > 0 && bpp > 0
    ensures 0 <= q / (w * bpp) < h
    ensures 0 <= (q % (w * bpp)) / bpp < w
  {
    var R := w * bpp;
    assert w * h * bpp == h * R;
    PositiveFactors(h, R);
    PositiveFactors(w, bpp);
    DivBelow(q, R, h);
    DivBelow(q % R, bpp, w);
  }

  lemma PositiveFactors(a: int, b: int)
    requires a >= 0 && b >= 0 && a * b > 0
    ensures a > 0 && b > 0
  {
  }

  /** The byte of channel `c` of pixel `(j, i)` has those coordinates. */
  lemma ByteCoordinates(w: int, h: int, bpp: int, j: int, i: int, c: int)
    requires 0 <= j < h && 0 <= i < w && 0 <= c < bpp
    ensures 0 <= Offset(w, bpp, j, i, c) < w * h * bpp
    ensures Offset(w, bpp, j, i, c) / (w * bpp) == j
    ensures (Offset(w, bpp, j, i, c) % (w * bpp)) / bpp == i
    ensures (Offset(w, bpp, j, i, c) % (w * bpp)) % bpp == c
  {
    OffsetInRange(w, h, bpp, j, i, c);
    var q := Offset(w, bpp, j, i, c);
    assert q == j * (w * bpp) + (i * bpp + c);
    MulAddBelow(i, c, bpp, w);
    DivModUnique(q, w * bpp, j, i * bpp + c);
    DivModUnique(i * bpp + c, bpp, i, c);
  }

  /** The level below `src`, `w x h` pixels of `bpp` bytes. */
  function Downsample(src: seq<byte>, srcW: int, srcH: int, bpp: int, w: int, h: int): (r: seq<byte>)
    requires Fits(|src|, srcW, srcH, bpp, w, h)
    ensures |r| == w * h * bpp
  {
    MulMono(0, w, h);
    MulMono(0, w * h, bpp);
    seq(w * h * bpp, q requires 0 <= q < w * h * bpp => DownsampledByte(src, srcW, srcH, bpp, w, h, q))
  }

  /** Byte `(j, i, c)` of a level is the truncated mean of the same channel
      of the four source pixels `(2j, 2i)`, `(2j, 2i+1)`, `(2j+1, 2i)` and
      `(2j+1, 2i+1)`. */
  lemma DownsampleAt(src: seq<byte>, srcW: int, srcH: int, bpp: int, w: int, h: int,
                     j: int, i: int, c: int)
    requires Fits(|src|, srcW, srcH, bpp, w, h)
    requires 0 <= j < h && 0 <= i < w && 0 <= c < bpp
    ensures 0 <= Offset(w, bpp, j, i, c) < w * h * bpp
    ensures 0 <= Offset(srcW, bpp, 2 * j, 2 * i, c) < |src|
    ensures 0 <= Offset(srcW, bpp, 2 * j, 2 * i + 1, c) < |src|
    ensures 0 <= Offset(srcW, bpp, 2 * j + 1, 2 * i, c) < |src|
    ensures 0 <= Offset(srcW, bpp, 2 * j + 1, 2 * i + 1, c) < |src|
    ensures Downsample(src, srcW, srcH, bpp, w, h)[Offset(w, bpp, j, i, c)]
         == Mean4(src[Offset(srcW, bpp, 2 * j, 2 * i, c)], src[Offset(srcW, bpp, 2 * j, 2 * i + 1, c)],
                  src[Offset(srcW, bpp, 2 * j + 1, 2 * i, c)], src[Offset(srcW, bpp, 2 * j + 1, 2 * i + 1, c)])
  {
    ByteCoordinates(w, h, bpp, j, i, c);
    OffsetInRange(srcW, srcH, bpp, 2 * j, 2 * i, c);
    OffsetInRange(srcW, srcH, bpp, 2 * j, 2 * i + 1, c);
    OffsetInRange(srcW, srcH, bpp, 2 * j + 1, 2 * i, c);
    OffsetInRange(srcW, srcH, bpp, 2 * j + 1, 2 * i + 1, c);
  }

  /** `DownsampleAt` in the pointer terms of the mipmap loop: for byte `i`
      of destination row `j`, channel `c` of its pixel, with the rows
      starting at `r1` (source row `2j`), `r2` (source row `2j + 1`) and
      `q0` (destination row `j`), the source bytes sit at `2i - c` from the
      source row starts. */
  lemma DownsampleByte(src: seq<byte>, srcW: int, srcH: int, bpp: int, w: int, h: int,
                       j: int, i: int, c: int, r1: int, r2: int, q0: int)
    requires Fits(|src|, srcW, srcH, bpp, w, h)
    requires 0 <= j < h && 0 <= i < w * bpp && bpp > 0 && c == i % bpp
    requires r1 == 2 * j * (srcW * bpp) && r2 == r1 + srcW * bpp && q0 == j * (w * bpp)
    ensures 0 <= r1 + 2 * i - c && r2 + 2 * i - c + bpp < |src|
    ensures 0 <= q0 + i < w * h * bpp
    ensures Downsample(src, srcW, srcH, bpp, w, h)[q0 + i]
         == Mean4(src[r1 + 2 * i - c], src[r1 + 2 * i - c + bpp],
                  src[r2 + 2 * i - c], src[r2 + 2 * i - c + bpp])
  {
    var x := i / bpp;
    ByteOfPixel(i, bpp, w);
    DownsamplePixelByte(src, srcW, srcH, bpp, w, h, j, x, c, x * bpp, r1, r2, q0);
  }

  /** Byte `i` of a row of `w` pixels is channel `i % bpp` of pixel `i / bpp`. */
  lemma ByteOfPixel(i: int, bpp: int, w: int)
    requires 0 <= i < w * bpp && bpp > 0
    ensures 0 <= i / bpp < w && 0 <= i % bpp < bpp && i == (i / bpp) * bpp + i % bpp
  {
    DivBelow(i, bpp, w);
  }

  lemma DownsamplePixelByte(src: seq<byte>, srcW: int, srcH: int, bpp: int, w: int, h: int,
                            j: int, x: int, c: int, xb: int, r1: int, r2: int, q0: int)
    requires Fits(|src|, srcW, srcH, bpp, w, h)
    requires 0 <= j < h && 0 <= x < w && 0 <= c < bpp && xb == x * bpp
    requires r1 == 2 * j * (srcW * bpp) && r2 == r1 + srcW * bpp && q0 == j * (w * bpp)
    ensures 0 <= r1 + 2 * xb + c && r2 + 2 * xb + c + bpp < |src|
    ensures 0 <= q0 + xb + c < w * h * bpp
    ensures Downsample(src, srcW, srcH, bpp, w, h)[q0 + xb + c]
         == Mean4(src[r1 + 2 * xb + c], src[r1 + 2 * xb + c + bpp],
                  src[r2 + 2 * xb + c], src[r2 + 2 * xb + c + bpp])
  {
    DownsampleAt(src, srcW, srcH, bpp, w, h, j, x, c);
    BlockBases(srcW * bpp, bpp, j, x, xb, r1, r2);
    OffsetLinear(w, bpp, j, x, c, xb);
    OffsetLinear(srcW, bpp, 2 * j, 2 * x, c, 2 * xb);
    OffsetLinear(srcW, bpp, 2 * j, 2 * x + 1, c, 2 * xb + bpp);
    OffsetLinear(srcW, bpp, 2 * j + 1, 2 * x, c, 2 * xb);
    OffsetLinear(srcW, bpp, 2 * j + 1, 2 * x + 1, c, 2 * xb + bpp);
  }

  lemma BlockBases(S: int, bpp: int, j: int, x: int, xb: int, r1: int, r2: int)
    requires xb == x * bpp && r1 == 2 * j * S && r2 == r1 + S
    ensures (2 * x) * bpp == 2 * xb && (2 * x + 1) * bpp == 2 * xb + bpp
    ensures (2 * j) * S == r1 && (2 * j + 1) * S == r2
  {
  }

  /** Row `j` of a `w x h` level ends inside the level. */
  lemma RowFits(w: int, h: int, bpp: int, j: int)
    requires 0 <= j < h && w >= 0 && bpp >= 0
    ensures 0 <= j * (w * bpp) && j * (w * bpp) + w * bpp <= w * h * bpp
    ensures j * (w * bpp) + w * bpp == (j + 1) * (w * bpp) && h * (w * bpp) == w * h * bpp
    ensures w * bpp > 0 ==> bpp > 0
  {
    MulMono(0, w, bpp);
    MulMono(0, j, w * bpp);
    MulMono(j + 1, h, w * bpp);
    assert h * (w * bpp) == w * h * bpp;
    if w * bpp > 0 {
      PositiveFactors(w, bpp);
    }
  }

  /** `h` rows of `w * bpp` bytes make the level. */
  lemma RowsMake(w: int, h: int, bpp: int)
    ensures h * (w * bpp) == w * h * bpp
  {
  }

  lemma OffsetLinear(w: int, bpp: int, y: int, x: int, c: int, xb: int)
    requires xb == x * bpp
    ensures Offset(w, bpp, y, x, c) == y * (w * bpp) + xb + c
  {
    assert (y * w + x) * bpp == (y * w) * bpp + x * bpp;
    assert (y * w) * bpp == y * (w * bpp);
  }

  /** The channel of the next byte: one more, or 0 after the last. */
  lemma ChannelNext(i: int, bpp: int)
    requires bpp > 0
    ensures (i + 1) % bpp == if i % bpp + 1 == bpp then 0 else i % bpp + 1
  {
    var c := i % bpp;
    if c + 1 == bpp {
      DivModUnique(i + 1, bpp, i / bpp + 1, 0);
    } else {
      DivModUnique(i + 1, bpp, i / bpp, c + 1);
    }
  }

  /** A level of one colour stays that colour. */
  lemma DownsampleUniform(src: seq<byte>, srcW: int, srcH: int, bpp: int, w: int, h: int, v: byte)
    requires Fits(|src|, srcW, srcH, bpp, w, h)
    requires forall k :: 0 <= k < |src| ==> src[k] == v
    ensures forall q :: 0 <= q < w * h * bpp ==> Downsample(src, srcW, srcH, bpp, w, h)[q] == v
  {
    forall q | 0 <= q < w * h * bpp
      ensures Downsample(src, srcW, srcH, bpp, w, h)[q] == v
    {
      Coordinates(w, h, bpp, q);
      var j, i, c := q / (w * bpp), (q % (w * bpp)) / bpp, (q % (w * bpp)) % bpp;
      assert q == Offset(w, bpp, j, i, c);
      DownsampleAt(src, srcW, srcH, bpp, w, h, j, i, c);
    }
  }

  // ---------------------------------------------------------------------
  // Level contents, as written

  /** The four source offsets the loop reads for byte `i` of destination
      row `j`: `p1` starts at `2 * j * srcStride` and advances by
      `2 * bpp` per destination byte, `p2` is one source row below. */
  function AsWrittenReads(srcStride: int, bpp: int, j: int, i: int): (r: seq<int>)
    ensures |r| == 4
  {
    var p1 := 2 * j * srcStride + i * (2 * bpp);
    var p2 := p1 + srcStride;
    [p1, p1 + bpp, p2, p2 + bpp]
  }

  /** With wider pixels the last byte of the last destination row reads
      beyond the source level. */
  lemma AsWrittenOverrun(w: int, h: int, bpp: int)
    requires w >= 1 && h >= 1 && bpp >= 2
    ensures AsWrittenReads(2 * w * bpp, bpp, h - 1, w * bpp - 1)[3] >= (2 * w) * (2 * h) * bpp
  {
    var X := w * bpp;
    MulMono(1, w, bpp);
    MulMono(2, X, bpp - 1);
    OverrunTerms(w, h, bpp, X);
  }

  /** The products in `AsWrittenOverrun`, each as a multiple of the row
      length `X = w * bpp`. */
  lemma OverrunTerms(w: int, h: int, bpp: int, X: int)
    requires X == w * bpp
    ensures 2 * w * bpp == 2 * X
    ensures (2 * w) * (2 * h) * bpp == 4 * (h * X)
    ensures 2 * (h - 1) * (2 * X) == 4 * (h * X) - 4 * X
    ensures (X - 1) * (2 * bpp) == 2 * (X * bpp) - 2 * bpp
    ensures X * (bpp - 1) == X * bpp - X
  {
  }

  /** The smallest case: a 2 x 2 level of 3-byte pixels, 12 bytes, whose
      one-pixel level below reads offset 12 for its third byte. */
  lemma AsWrittenOverrunExample()
    ensures AsWrittenReads(6, 3, 0, 2) == [12, 15, 18, 21]
  {
  }

  /** The level the loop builds with one-byte pixels from the fixed source
      level `s` of stride `srcStride`. Every level of one call reads `s`,
      because the source pointer and stride are set before the loop and
      never advanced. */
  function AsWrittenLevel(s: seq<byte>, srcStride: int, srcH: int, w: int, h: int): (r: seq<byte>)
    requires Fits(|s|, srcStride, srcH, 1, w, h)
    ensures |r| == w * h
  {
    Downsample(s, srcStride, srcH, 1, w, h)
  }

  /** The 4 x 4 one-byte image with a bright 2 x 2 corner. */
  function CornerImage(): seq<byte>
  {
    [0, 0, 0, 0,
     0, 0, 0, 0,
     0, 0, 4, 4,
     0, 0, 4, 4]
  }

  /** The corner image byte by byte: 4 in rows 2 and 3, columns 2 and 3. */
  predicate CornerBytes(s: seq<byte>)
  {
    |s| == 16 &&
    s[0] == 0 && s[1] == 0 && s[4] == 0 && s[5] == 0 &&
    s[2] == 0 && s[3] == 0 && s[6] == 0 && s[7] == 0 &&
    s[8] == 0 && s[9] == 0 && s[12] == 0 && s[13] == 0 &&
    s[10] == 4 && s[11] == 4 && s[14] == 4 && s[15] == 4
  }

  lemma CornerImageBytes(s: seq<byte>)
    requires s == CornerImage()
    ensures CornerBytes(s)
  {
  }

  /** Level 1 of the corner image is `[0, 0, 0, 4]`. */
  lemma CornerLevelOne(s: seq<byte>)
    requires CornerBytes(s)
    ensures Downsample(s, 4, 4, 1, 2, 2) == [0, 0, 0, 4]
  {
    CornerTopLeft(s);
    CornerTopRight(s);
    CornerBottomLeft(s);
    CornerBottomRight(s);
    SeqOfFour(Downsample(s, 4, 4, 1, 2, 2), 0, 0, 0, 4);
  }

  /** Each pixel of level 1 of the corner image averages one 2 x 2 block. */
  lemma CornerTopLeft(s: seq<byte>)
    requires |s| == 16 && s[0] == 0 && s[1] == 0 && s[4] == 0 && s[5] == 0
    ensures Downsample(s, 4, 4, 1, 2, 2)[0] == 0
  {
    DownsampleAt(s, 4, 4, 1, 2, 2, 0, 0, 0);
  }

  lemma CornerTopRight(s: seq<byte>)
    requires |s| == 16 && s[2] == 0 && s[3] == 0 && s[6] == 0 && s[7] == 0
    ensures Downsample(s, 4, 4, 1, 2, 2)[1] == 0
  {
    DownsampleAt(s, 4, 4, 1, 2, 2, 0, 1, 0);
  }

  lemma CornerBottomLeft(s: seq<byte>)
    requires |s| == 16 && s[8] == 0 && s[9] == 0 && s[12] == 0 && s[13] == 0
    ensures Downsample(s, 4, 4, 1, 2, 2)[2] == 0
  {
    DownsampleAt(s, 4, 4, 1, 2, 2, 1, 0, 0);
  }

  lemma CornerBottomRight(s: seq<byte>)
    requires |s| == 16 && s[10] == 4 && s[11] == 4 && s[14] == 4 && s[15] == 4
    ensures Downsample(s, 4, 4, 1, 2, 2)[3] == 4
  {
    DownsampleAt(s, 4, 4, 1, 2, 2, 1, 1, 0);
  }

  lemma SeqOfFour(d: seq<byte>, a: byte, b: byte, c: byte, e: byte)
    requires |d| == 4 && d[0] == a && d[1] == b && d[2] == c && d[3] == e
    ensures d == [a, b, c, e]
  {
  }

  /** Level 2 averages level 1 to 1. */
  lemma CornerLevelTwo(level1: seq<byte>)
    requires level1 == [0, 0, 0, 4]
    ensures Downsample(level1, 2, 2, 1, 1, 1) == [1]
  {
    DownsampleAt(level1, 2, 2, 1, 1, 1, 0, 0, 0);
  }

  /** The loop as written builds level 2 from the top-left block of the
      original image again and yields 0 where the intended level is 1. */
  lemma StaleSourceExample(s: seq<byte>)
    requires s == CornerImage()
    ensures AsWrittenLevel(s, 4, 4, 1, 1) == [0]
    ensures Downsample(Downsample(s, 4, 4, 1, 2, 2), 2, 2, 1, 1, 1) == [1]
  {
    CornerImageBytes(s);
    DownsampleAt(s, 4, 4, 1, 1, 1, 0, 0, 0);
    CornerLevelOne(s);
    CornerLevelTwo(Downsample(s, 4, 4, 1, 2, 2));
  }

  // ---------------------------------------------------------------------
  // One whole call, with one-byte pixels

  /** A halved size stays between 0 and the size it came from. */
  lemma {:induction false} HalvedBelow(x: int, k: nat)
    requires x >= 0
    ensures 0 <= Halved(x, k) <= x
    ensures k >= 1 ==> 2 * Halved(x, k) <= x
  {
    if k > 0 {
      HalvedBelow(x, k - 1);
    }
  }

  /** The levels one call appends as written, below a `w x h` level, when
      the call began at the one-byte level `s` of `srcW x srcH`: the sizes
      halve as `prevWidth` and `prevHeight` do, but every level reads `s`
      with the stride `srcW`, since `srcData` and `srcStride` are never
      advanced. */
  function AsWrittenLevels(s: seq<byte>, srcW: int, srcH: int, w: int, h: int, m: int): (r: seq<seq<byte>>)
    requires m >= 1 && |s| == srcW * srcH && 0 <= w <= srcW && 0 <= h <= srcH
    ensures |r| == LevelCount(w, h, m)
    decreases w
  {
    if w / 2 >= m && h / 2 >= m then
      [AsWrittenLevel(s, srcW, srcH, w / 2, h / 2)] + AsWrittenLevels(s, srcW, srcH, w / 2, h / 2, m)
    else []
  }

  /** The levels one call appends as intended below the one-byte level
      `src` of `w x h`: each averages the level appended just before it. */
  function IntendedLevels(src: seq<byte>, w: int, h: int, m: int): (r: seq<seq<byte>>)
    requires m >= 1 && w >= 0 && h >= 0 && |src| == w * h
    ensures |r| == LevelCount(w, h, m)
    decreases w
  {
    if w / 2 >= m && h / 2 >= m then
      var d := Downsample(src, w, h, 1, w / 2, h / 2);
      [d] + IntendedLevels(d, w / 2, h / 2, m)
    else []
  }

  /** Level `k` of one call as written (the `k - 1`-th appended) is the
      level of size `w >> k` x `h >> k` averaged from the level the call
      began at, whatever `k` is. */
  lemma {:induction false} AsWrittenLevelsAt(s: seq<byte>, srcW: int, srcH: int, w: int, h: int, m: int, k: nat)
    requires m >= 1 && |s| == srcW * srcH && 0 <= w <= srcW && 0 <= h <= srcH
    requires 1 <= k <= LevelCount(w, h, m)
    ensures Fits(|s|, srcW, srcH, 1, Halved(w, k), Halved(h, k))
    ensures AsWrittenLevels(s, srcW, srcH, w, h, m)[k - 1]
         == AsWrittenLevel(s, srcW, srcH, Halved(w, k), Halved(h, k))
    decreases w
  {
    HalvedBelow(w, k);
    HalvedBelow(h, k);
    HalvedShift(w, k - 1);
    HalvedShift(h, k - 1);
    if k > 1 {
      AsWrittenLevelsAt(s, srcW, srcH, w / 2, h / 2, m, k - 1);
    }
  }

  /** Level `k` of one call as intended (the `k - 1`-th appended) is
      `w >> k` x `h >> k` bytes. */
  lemma {:induction false} IntendedLevelsSize(src: seq<byte>, w: int, h: int, m: int, k: nat)
    requires m >= 1 && w >= 0 && h >= 0 && |src| == w * h
    requires 1 <= k <= LevelCount(w, h, m)
    ensures Halved(w, k) >= 0 && Halved(h, k) >= 0
    ensures |IntendedLevels(src, w, h, m)[k - 1]| == Halved(w, k) * Halved(h, k)
    decreases w
  {
    HalvedBelow(w, k);
    HalvedBelow(h, k);
    HalvedShift(w, k - 1);
    HalvedShift(h, k - 1);
    if k > 1 {
      IntendedLevelsSize(Downsample(src, w, h, 1, w / 2, h / 2), w / 2, h / 2, m, k - 1);
    }
  }

  /** The intended levels form a chain: each level after the first
      averages the level appended just before it, as the image's
      `AppendLevels` builds them. */
  lemma {:induction false} IntendedLevelsChain(src: seq<byte>, w: int, h: int, m: int, k: nat)
    requires m >= 1 && w >= 0 && h >= 0 && |src| == w * h
    requires 1 <= k < LevelCount(w, h, m)
    ensures Fits(|IntendedLevels(src, w, h, m)[k - 1]|, Halved(w, k), Halved(h, k), 1,
                 Halved(w, k + 1), Halved(h, k + 1))
    ensures IntendedLevels(src, w, h, m)[k]
         == Downsample(IntendedLevels(src, w, h, m)[k - 1], Halved(w, k), Halved(h, k), 1,
                       Halved(w, k + 1), Halved(h, k + 1))
    decreases w
  {
    IntendedLevelsSize(src, w, h, m, k);
    HalvedShift(w, k - 1);
    HalvedShift(h, k - 1);
    HalvedShift(w, k);
    HalvedShift(h, k);
    if k > 1 {
      IntendedLevelsChain(Downsample(src, w, h, 1, w / 2, h / 2), w / 2, h / 2, m, k - 1);
    }
  }

  /** A whole call on the corner image, with `minSize` 1: both readings
      append two levels and agree on the first, but the loop as written
      makes the second `[0]` where the intended chain gives `[1]`. */
  lemma StaleSourceCall(s: seq<byte>)
    requires s == CornerImage()
    ensures AsWrittenLevels(s, 4, 4, 4, 4, 1) == [[0, 0, 0, 4], [0]]
    ensures IntendedLevels(s, 4, 4, 1) == [[0, 0, 0, 4], [1]]
  {
    CornerImageBytes(s);
    AsWrittenCallOfCorner(s);
    IntendedCallOfCorner(s);
  }

  lemma AsWrittenCallOfCorner(s: seq<byte>)
    requires CornerBytes(s)
    ensures AsWrittenLevels(s, 4, 4, 4, 4, 1) == [[0, 0, 0, 4], [0]]
  {
    CornerLevelOne(s);
    CornerStale(s);
    assert AsWrittenLevels(s, 4, 4, 1, 1, 1) == [];
    assert AsWrittenLevels(s, 4, 4, 2, 2, 1) == [AsWrittenLevel(s, 4, 4, 1, 1)];
  }

  /** Read from the corner image, the 1 x 1 level averages its top-left block. */
  lemma CornerStale(s: seq<byte>)
    requires CornerBytes(s)
    ensures AsWrittenLevel(s, 4, 4, 1, 1) == [0]
  {
    DownsampleAt(s, 4, 4, 1, 1, 1, 0, 0, 0);
    assert AsWrittenLevel(s, 4, 4, 1, 1)[0] == 0;
  }

  lemma IntendedCallOfCorner(s: seq<byte>)
    requires CornerBytes(s)
    ensures IntendedLevels(s, 4, 4, 1) == [[0, 0, 0, 4], [1]]
  {
    CornerLevelOne(s);
    var level1 := Downsample(s, 4, 4, 1, 2, 2);
    CornerLevelTwo(level1);
    assert IntendedLevels(Downsample(level1, 2, 2, 1, 1, 1), 1, 1, 1) == [];
    assert IntendedLevels(level1, 2, 2, 1) == [Downsample(level1, 2, 2, 1, 1, 1)];
  }
}
