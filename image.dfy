/** The in-memory image of `glsh::Image`: a pixel buffer, its size, and the
    chain of mipmap levels built from it. Loading a Targa file is proved to
    yield exactly the buffer that `Targa.Decode` describes. */
module ImageBuffer {
  import opened Common
  import opened Targa
  import Util
  import opened Mipmapping

  /** One level of detail: its size and its bytes (level 0 shares the
      image's own buffer). */
  datatype Mipmap = Mipmap(width: int, height: int, data: array?<byte>)

  /** A default-constructed level: 0 x 0 without data. */
  const EmptyMipmap := Mipmap(0, 0, null)

  /** `lower` is the level built right below `upper`. */
  predicate LevelBelow(upper: Mipmap, lower: Mipmap, bpp: int)
  {
    lower.data != null &&
    lower.width == upper.width / 2 && lower.height == upper.height / 2 &&
    lower.width >= 1 && lower.height >= 1 &&
    lower.data.Length == lower.width * lower.height * bpp
  }

  /** The bytes of `lower` average the 2 x 2 blocks of `upper`, channel by
      channel. */
  ghost predicate AveragesLevel(upper: Mipmap, lower: Mipmap, bpp: int)
    reads upper.data, lower.data
  {
    upper.data != null && lower.data != null &&
    Fits(upper.data.Length, upper.width, upper.height, bpp, lower.width, lower.height) &&
    lower.data[..] == Downsample(upper.data[..], upper.width, upper.height, bpp, lower.width, lower.height)
  }

  /** One pass of the mipmap loop, as intended, reading the bytes `src` of
      the level above: a fresh `w x h` level whose
      byte for channel `c` of pixel `(j, x)` averages that channel of the
      source block at `(2j, 2x)`. The read pointers step one byte per
      channel and skip the block's second pixel after the last channel. */
  method DownsampleLevel(src: seq<byte>, srcW: int, srcH: int, bpp: int, w: int, h: int)
    returns (dst: array<byte>)
    requires Fits(|src|, srcW, srcH, bpp, w, h)
    ensures fresh(dst)
    ensures dst[..] == Downsample(src, srcW, srcH, bpp, w, h)
  {
    MulMono(0, w, h);
    MulMono(0, w * h, bpp);
    dst := new byte[w * h * bpp];
    var dstStride := w * bpp;
    var q := 0;
    var j := 0;
    ghost var D := Downsample(src, srcW, srcH, bpp, w, h);
    while j < h
      invariant 0 <= j <= h && q == j * dstStride && 0 <= q <= |D|
      invariant dst[..q] == D[..q]
    {
      q := DownsampleRow(src, srcW, srcH, bpp, w, h, j, dst, q, D);
      MulSucc(j, dstStride);
      j := j + 1;
    }
    RowsMake(w, h, bpp);
    assert dst[..] == dst[..q] && D == D[..q];
  }

  /** `*q = (a + b) / 4` with `a`, `b` the sums of the two bytes one pixel
      apart at `p1` and at `p2`. */
  method AverageInto(src: seq<byte>, p1: int, p2: int, bpp: int, dst: array<byte>, q: int)
    requires bpp >= 0 && 0 <= p1 && 0 <= p2 && p1 + bpp < |src| && p2 + bpp < |src|
    requires 0 <= q < dst.Length
    modifies dst
    ensures dst[..] == old(dst[..])[q := Mean4(src[p1], src[p1 + bpp], src[p2], src[p2 + bpp])]
  {
    var a := src[p1] as int + src[p1 + bpp] as int;
    var b := src[p2] as int + src[p2 + bpp] as int;
    dst[q] := (a + b) / 4;
  }

  /** Row `j` of one pass: the bytes `q0 ..` of the row, written in order. */
  method DownsampleRow(src: seq<byte>, srcW: int, srcH: int, bpp: int, w: int, h: int, j: int,
                       dst: array<byte>, q0: int, ghost D: seq<byte>) returns (q: int)
    requires Fits(|src|, srcW, srcH, bpp, w, h) && 0 <= j < h
    requires D == Downsample(src, srcW, srcH, bpp, w, h)
    requires dst.Length == |D| && q0 == j * (w * bpp) && 0 <= q0 <= |D|
    requires dst[..q0] == D[..q0]
    modifies dst
    ensures q == q0 + w * bpp <= |D|
    ensures dst[..q] == D[..q]
  {
    var srcStride := srcW * bpp;
    var dstStride := w * bpp;
    RowFits(w, h, bpp, j);
    var p1 := 2 * j * srcStride;
    var p2 := p1 + srcStride;
    ghost var r1, r2 := p1, p2;
    var c := 0;
    var i := 0;
    q := q0;
    while i < dstStride
      invariant 0 <= i <= dstStride && 0 <= c && q == q0 + i
      invariant i < dstStride ==> c == i % bpp
      invariant p1 == r1 + 2 * i - c && p2 == r2 + 2 * i - c
      invariant dst[..q] == D[..q]
    {
      DownsampleByte(src, srcW, srcH, bpp, w, h, j, i, c, r1, r2, q0);
      ChannelNext(i, bpp);
      AverageInto(src, p1, p2, bpp, dst, q);
      q := q + 1;
      i := i + 1;
      c := c + 1;
      p1 := p1 + 1;
      p2 := p2 + 1;
      if c == bpp {
        c := 0;
        p1 := p1 + bpp;
        p2 := p2 + bpp;
      }
    }
  }

  // ---------------------------------------------------------------------
  // Cursor arithmetic of the Targa decoders

  /** The RLE decoder's write position after `t` pixels: column `inRow` of
      buffer row `dstRow / RowLen()`, byte `p`. */
  ghost predicate Cursor(L: Layout, rowStep: int, t: int, inRow: int, dstRow: int, p: int)
  {
    L.width > 0 && t >= 0 && inRow == t % L.width &&
    dstRow == L.DestRow(t / L.width) * L.RowLen() &&
    p == dstRow + inRow * L.bpp &&
    rowStep == (if L.bottomToTop then -(L.RowLen() as int) else L.RowLen())
  }

  /** Before the first pixel the cursor is at the start of buffer row
      `DestRow(0)`: the last row when rows go bottom to top. */
  lemma CursorStart(L: Layout, rowStep: int, dstRow: int)
    requires L.width > 0
    requires rowStep == (if L.bottomToTop then -(L.RowLen() as int) else L.RowLen())
    requires dstRow == (if L.bottomToTop then L.RowLen() * (L.height - 1) else 0)
    ensures Cursor(L, rowStep, 0, 0, dstRow, dstRow)
  {
  }

  /** Stepping `dstRow` by `rowStep` moves to the buffer row of the next file row. */
  lemma RowAdvance(L: Layout, j: int)
    ensures L.DestRow(j + 1) * L.RowLen()
         == L.DestRow(j) * L.RowLen() + (if L.bottomToTop then -(L.RowLen() as int) else L.RowLen())
  {
    var R := L.RowLen();
    if L.bottomToTop {
      assert (L.height - 1 - (j + 1)) * R == (L.height - 1 - j) * R - R;
    } else {
      assert (j + 1) * R == j * R + R;
    }
  }

  /** The cursor update after one pixel, including the wrap to the next row
      when the row is full, lands on pixel `t + 1`. */
  lemma CursorStep(L: Layout, rowStep: int, t: int, inRow: int, dstRow: int, p: int)
    requires Cursor(L, rowStep, t, inRow, dstRow, p)
    ensures inRow + 1 < L.width ==> Cursor(L, rowStep, t + 1, inRow + 1, dstRow, p + L.bpp)
    ensures inRow + 1 == L.width ==>
      Cursor(L, rowStep, t + 1, 0, dstRow + rowStep, dstRow + rowStep)
  {
    var W := L.width;
    var row := t / W;
    assert t == row * W + inRow;
    if inRow + 1 < W {
      DivModUnique(t + 1, W, row, inRow + 1);
      assert p + L.bpp == dstRow + (inRow + 1) * L.bpp;
    } else {
      assert t + 1 == (row + 1) * W;
      DivModUnique(t + 1, W, row + 1, 0);
      RowAdvance(L, row);
    }
  }

  /** Pixel `(j, i)` of the file starts where the uncompressed decoder's `p` is. */
  lemma PixelAt(L: Layout, j: int, i: int)
    requires L.width > 0 && 0 <= j < L.height && 0 <= i < L.width
    ensures 0 <= j * L.width + i < L.Pixels()
    ensures L.PixelStart(j * L.width + i) == L.DestRow(j) * L.RowLen() + i * L.bpp
  {
    MulAddBelow(j, i, L.width, L.height);
    DivModUnique(j * L.width + i, L.width, j, i);
  }

  /** One more uncompressed pixel read at `pos`: the stream so far grows by
      it, or, when the file ends there, the whole stream is missing. */
  lemma RawNext(file: seq<byte>, start: nat, pos: nat, bpp: nat, total: nat, n: nat,
                read: seq<Pixel>)
    requires RawPixels(file, start, bpp, total) == Prepend(read, RawPixels(file, pos, bpp, n))
    requires n > 0
    ensures pos + bpp > |file| ==> RawPixels(file, start, bpp, total) == None
    ensures pos + bpp <= |file| ==>
      RawPixels(file, start, bpp, total)
        == Prepend(read + [file[pos..pos + bpp]], RawPixels(file, pos + bpp, bpp, n - 1))
  {
    if pos + bpp <= |file| {
      PrependAssoc(read, [file[pos..pos + bpp]], RawPixels(file, pos + bpp, bpp, n - 1));
    }
  }

  /** A run packet at `pos` with `count` copies, while pixels are still
      needed: the stream grows by the repeated pixel, or is missing when the
      file ends inside the packet. */
  lemma RleRunNext(file: seq<byte>, start: nat, pos: nat, bpp: nat, total: int, need: int,
                   read: seq<Pixel>, count: nat, next: nat)
    requires RlePixels(file, start, bpp, total) == Prepend(read, RlePixels(file, pos, bpp, need))
    requires need > 0 && pos < |file| && file[pos] > 127 && count == file[pos] - 127
    requires next == pos + 1 + bpp
    ensures next > |file| ==> RlePixels(file, start, bpp, total) == None
    ensures next <= |file| ==>
      RlePixels(file, start, bpp, total)
        == Prepend(read + Repeat(file[pos + 1..next], count), RlePixels(file, next, bpp, need - count))
  {
    if next <= |file| {
      PrependAssoc(read, Repeat(file[pos + 1..next], count), RlePixels(file, next, bpp, need - count));
    }
  }

  /** A literal packet at `pos` with `count` pixels, while pixels are still
      needed: the stream grows by its pixels, or is missing when the file
      ends inside it. */
  lemma RleLiteralNext(file: seq<byte>, start: nat, pos: nat, bpp: nat, total: int, need: int,
                       read: seq<Pixel>, count: nat, next: nat)
    requires RlePixels(file, start, bpp, total) == Prepend(read, RlePixels(file, pos, bpp, need))
    requires need > 0 && pos < |file| && file[pos] <= 127 && count == file[pos] + 1
    requires next == pos + 1 + count * bpp
    ensures RawPixels(file, pos + 1, bpp, count).None? ==>
      RlePixels(file, start, bpp, total) == None
    ensures RawPixels(file, pos + 1, bpp, count).Some? ==>
      RlePixels(file, start, bpp, total)
        == Prepend(read + RawPixels(file, pos + 1, bpp, count).value,
                   RlePixels(file, next, bpp, need - count))
  {
    var literal := RawPixels(file, pos + 1, bpp, count);
    if literal.Some? {
      PrependAssoc(read, literal.value, RlePixels(file, next, bpp, need - count));
    }
  }

  /** `j` whole rows of pixels, once `j` is the height, are all the pixels. */
  lemma AllRows(L: Layout, j: int, n: int)
    requires j == L.height && n == j * L.width
    ensures n == L.Pixels()
  {
  }

  /** Where the unguarded RLE loop of the source writes once a packet runs
      past the last pixel: never inside the buffer. */
  lemma RleOverrunTarget(L: Layout, t: int)
    requires L.width > 0 && L.height > 0 && L.bpp > 0
    requires L.Pixels() <= t < L.Pixels() + L.width
    ensures L.PixelStart(t) < 0 || L.PixelStart(t) >= L.Size()
  {
    var W, H, R := L.width, L.height, L.RowLen();
    DivModUnique(t, W, H, t - H * W);
    RowLenTimesHeight(L);
    if L.bottomToTop {
      assert L.DestRow(H) * R == -R;
      MulAddBelow(t - H * W, 0, L.bpp, W);
      assert W * L.bpp == R;
    } else {
      assert L.DestRow(H) * R == R * H;
      MulMono(0, t - H * W, L.bpp);
    }
  }

  lemma NextMultiple(base: int, i: int, step: int)
    ensures base + i * step + step == base + (i + 1) * step
  {
  }

  /** The first `i` of the `count` pixels of a literal packet starting at
      `start` are `literal`, and the next one is at `pos`. */
  ghost predicate LiteralRead(file: seq<byte>, start: nat, bpp: nat, count: int, i: int, pos: nat,
                              literal: seq<Pixel>)
  {
    0 <= i <= count && |literal| == i && pos == start + i * bpp &&
    RawPixels(file, start, bpp, count) == Prepend(literal, RawPixels(file, pos, bpp, count - i))
  }

  /** Reading one more pixel of a literal packet. */
  lemma LiteralNext(file: seq<byte>, start: nat, bpp: nat, count: int, i: int, pos: nat,
                    literal: seq<Pixel>)
    requires LiteralRead(file, start, bpp, count, i, pos, literal) && i < count
    ensures pos + bpp > |file| ==> RawPixels(file, start, bpp, count) == None
    ensures pos + bpp <= |file| ==>
      LiteralRead(file, start, bpp, count, i + 1, pos + bpp, literal + [file[pos..pos + bpp]])
  {
    RawNext(file, start, pos, bpp, count, count - i, literal);
    NextMultiple(start, i, bpp);
  }

  /** All pixels of a literal packet read. */
  lemma LiteralDone(file: seq<byte>, start: nat, bpp: nat, count: int, pos: nat, literal: seq<Pixel>)
    requires LiteralRead(file, start, bpp, count, count, pos, literal)
    ensures RawPixels(file, start, bpp, count) == Some(literal)
  {
    assert literal + [] == literal;
  }

  /** The uncompressed stream read so far: `emitted` are its first pixels
      and the rest follows from `pos`. */
  ghost predicate Streamed(file: seq<byte>, start: nat, L: Layout, pos: nat, emitted: seq<Pixel>)
  {
    |emitted| <= L.Pixels() &&
    RawPixels(file, start, L.bpp, L.Pixels())
      == Prepend(emitted, RawPixels(file, pos, L.bpp, L.Pixels() - |emitted|))
  }

  /** State of the uncompressed decoder before file row `j`. */
  ghost predicate RowsLoaded(file: seq<byte>, start: nat, L: Layout, j: int, dstRow: int, pos: nat,
                             emitted: seq<Pixel>, buf: seq<byte>)
  {
    0 <= j <= L.height && |emitted| == j * L.width &&
    dstRow == L.DestRow(j) * L.RowLen() &&
    Streamed(file, start, L, pos, emitted) &&
    FilledUpTo(L, emitted, buf, |emitted|)
  }

  /** After the last row the stream is complete and so is the buffer. */
  lemma RowsComplete(file: seq<byte>, start: nat, L: Layout, j: int, dstRow: int, pos: nat,
                     emitted: seq<Pixel>, buf: seq<byte>)
    requires RowsLoaded(file, start, L, j, dstRow, pos, emitted, buf) && j >= L.height
    ensures RawPixels(file, start, L.bpp, L.Pixels()) == Some(emitted)
    ensures buf == Placed(L, emitted)
  {
    AllRows(L, j, |emitted|);
    assert emitted + [] == emitted;
    FilledComplete(L, emitted, buf);
  }

  /** The RLE cursor after `t` decoded pixels, with every pixel below `t`
      that lies inside the image in its place. */
  ghost predicate Painted(L: Layout, rowStep: int, ps: seq<Pixel>, buf: seq<byte>, t: int,
                          inRow: int, dstRow: int, p: int)
  {
    Cursor(L, rowStep, t, inRow, dstRow, p) && FilledUpTo(L, ps, buf, Min(t, L.Pixels()))
  }

  /** The RLE stream read so far: `emitted` are its first pixels and the
      packets from `pos` supply the rest. */
  ghost predicate RleStreamed(file: seq<byte>, start: nat, L: Layout, pos: nat, emitted: seq<Pixel>)
  {
    RlePixels(file, start, L.bpp, L.Pixels())
      == Prepend(emitted, RlePixels(file, pos, L.bpp, L.Pixels() - |emitted|))
  }

  /** State of the RLE decoder between packets. */
  ghost predicate PacketsLoaded(file: seq<byte>, start: nat, L: Layout, rowStep: int, pos: nat,
                                emitted: seq<Pixel>, inRow: int, dstRow: int, p: int, buf: seq<byte>)
  {
    RleStreamed(file, start, L, pos, emitted) &&
    (L.Pixels() > 0 ==> Painted(L, rowStep, emitted, buf, |emitted|, inRow, dstRow, p))
  }

  /** A packet of `more` pixels decoded after the `t` pixels `read`: the
      decoder state between packets again. */
  lemma PacketDone(file: seq<byte>, start: nat, L: Layout, rowStep: int, pos: nat,
                   read: seq<Pixel>, more: seq<Pixel>, t: int, need: int, count: int,
                   inRow: int, dstRow: int, p: int, buf: seq<byte>)
    requires t == |read| && need == L.Pixels() - t && need > 0 && count == |more|
    requires RlePixels(file, start, L.bpp, L.Pixels())
          == Prepend(read + more, RlePixels(file, pos, L.bpp, need - count))
    requires Painted(L, rowStep, read + more, buf, t + count, inRow, dstRow, p)
    ensures PacketsLoaded(file, start, L, rowStep, pos, read + more, inRow, dstRow, p, buf)
  {
  }

  /** A literal packet of `count` pixels at `header` read in full: the
      decoder state between packets again. */
  lemma LiteralPacketDone(file: seq<byte>, start: nat, L: Layout, rowStep: int, header: nat,
                          read: seq<Pixel>, count: int, literal: seq<Pixel>, pos: nat,
                          inRow: int, dstRow: int, p: int, buf: seq<byte>)
    requires |read| < L.Pixels() && RleStreamed(file, start, L, header, read)
    requires header < |file| && file[header] <= 127 && count == file[header] + 1
    requires RawPixels(file, header + 1, L.bpp, count) == Some(literal) && |literal| == count
    requires pos == header + 1 + count * L.bpp
    requires Painted(L, rowStep, read + literal, buf, |read| + count, inRow, dstRow, p)
    ensures PacketsLoaded(file, start, L, rowStep, pos, read + literal, inRow, dstRow, p, buf)
  {
    var need := L.Pixels() - |read|;
    RleLiteralNext(file, start, header, L.bpp, L.Pixels(), need, read, count, pos);
    PacketDone(file, start, L, rowStep, pos, read, literal, |read|, need, count, inRow, dstRow, p, buf);
  }

  /** A literal packet of `count` pixels at `header` that the file cuts
      short: the whole stream is missing. */
  lemma LiteralPacketCut(file: seq<byte>, start: nat, L: Layout, header: nat, read: seq<Pixel>, count: int)
    requires |read| < L.Pixels() && RleStreamed(file, start, L, header, read)
    requires header < |file| && file[header] <= 127 && count == file[header] + 1
    requires RawPixels(file, header + 1, L.bpp, count) == None
    ensures RlePixels(file, start, L.bpp, L.Pixels()) == None
  {
    RleLiteralNext(file, start, header, L.bpp, L.Pixels(), L.Pixels() - |read|, read, count,
                   header + 1 + count * L.bpp);
  }

  /** Once the image is full the stream is complete and so is the buffer. */
  lemma PacketsComplete(file: seq<byte>, start: nat, L: Layout, rowStep: int, pos: nat,
                        emitted: seq<Pixel>, inRow: int, dstRow: int, p: int, buf: seq<byte>)
    requires PacketsLoaded(file, start, L, rowStep, pos, emitted, inRow, dstRow, p, buf)
    requires |emitted| >= L.Pixels() && |buf| == L.Size()
    ensures RlePixels(file, start, L.bpp, L.Pixels()) == Some(emitted)
    ensures buf == Placed(L, emitted)
  {
    assert emitted + [] == emitted;
    if L.Pixels() == 0 {
      FilledNothing(L, emitted, buf);
    }
    FilledComplete(L, emitted, buf);
  }

  class Image {
    var width: int
    var height: int
    var bytesPerPixel: int
    var data: array?<byte>
    var mipmaps: seq<Mipmap>

    /** Either nothing is allocated, or `data` holds `width * height` pixels
        and the mipmap chain starts with it, each level halving the last. */
    ghost predicate Valid()
      reads this
    {
      if data == null then
        width == 0 && height == 0 && bytesPerPixel == 0 && mipmaps == []
      else
        width >= 0 && height >= 0 && bytesPerPixel >= 0 &&
        data.Length == width * height * bytesPerPixel &&
        |mipmaps| >= 1 && mipmaps[0] == Mipmap(width, height, data) &&
        forall k :: 1 <= k < |mipmaps| ==> LevelBelow(mipmaps[k - 1], mipmaps[k], bytesPerPixel)
    }

    ghost predicate Empty()
      reads this
    {
      width == 0 && height == 0 && bytesPerPixel == 0 && data == null && mipmaps == []
    }

    constructor ()
      ensures Valid() && Empty()
    {
      width := 0;
      height := 0;
      bytesPerPixel := 0;
      data := null;
      mipmaps := [];
    }

    /** Releases the buffer and every mipmap level. */
    method Deallocate()
      modifies this
      ensures Valid() && Empty()
    {
      data := null;
      width := 0;
      height := 0;
      bytesPerPixel := 0;
      mipmaps := [];
    }

    /** Replaces the image by a fresh `w x h` buffer of `bpp`-byte pixels,
        which becomes the only mipmap level. */
    method Allocate(w: int, h: int, bpp: int) returns (ok: bool)
      requires w >= 0 && h >= 0 && bpp >= 0
      modifies this
      ensures ok && Valid()
      ensures data != null && fresh(data) && data.Length == w * h * bpp
      ensures width == w && height == h && bytesPerPixel == bpp
      ensures mipmaps == [Mipmap(w, h, data)]
    {
      Deallocate();
      MulMono(0, w, h);
      MulMono(0, w * h, bpp);
      data := new byte[w * h * bpp];
      width := w;
      height := h;
      bytesPerPixel := bpp;
      mipmaps := mipmaps + [Mipmap(width, height, data)];
      return true;
    }

    // -------------------------------------------------------------------
    // Accessors

    /** An image is loaded exactly when it has a level 0. */
    function IsGood(): (r: bool)
      reads this
      requires Valid()
      ensures r <==> |mipmaps| >= 1
    {
      data != null
    }

    function BitsPerPixel(): (r: int)
      reads this
      requires Valid()
      ensures r >= 0 && r % 8 == 0 && r / 8 == bytesPerPixel
    {
      8 * bytesPerPixel
    }

    /** The pixel buffer, `width * height * bytesPerPixel` bytes when loaded. */
    function Data(): (r: array?<byte>)
      reads this
      requires Valid()
      ensures r != null <==> IsGood()
      ensures r != null ==> r == mipmaps[0].data && r.Length == width * height * bytesPerPixel
    {
      data
    }

    function NumMipmaps(): (r: int)
      reads this
      requires Valid()
      ensures r == 0 <==> !IsGood()
    {
      |mipmaps|
    }

    /** Level `k` is the image halved `k` times. */
    lemma {:induction false} LevelSize(k: int)
      requires Valid() && 0 <= k < |mipmaps|
      ensures mipmaps[k].width == Halved(width, k) && mipmaps[k].height == Halved(height, k)
      ensures mipmaps[k].data != null && mipmaps[k].width >= 0 && mipmaps[k].height >= 0
      ensures mipmaps[k].data.Length == mipmaps[k].width * mipmaps[k].height * bytesPerPixel
    {
      if k > 0 {
        LevelSize(k - 1);
        assert LevelBelow(mipmaps[k - 1], mipmaps[k], bytesPerPixel);
      }
    }

    function MipmapWidth(level: int): (r: int)
      reads this
      requires Valid() && 0 <= level < |mipmaps|
      ensures r == Halved(width, level)
    {
      LevelSize(level);
      mipmaps[level].width
    }

    function MipmapHeight(level: int): (r: int)
      reads this
      requires Valid() && 0 <= level < |mipmaps|
      ensures r == Halved(height, level)
    {
      LevelSize(level);
      mipmaps[level].height
    }

    function MipmapData(level: int): (r: array<byte>)
      reads this
      requires Valid() && 0 <= level < |mipmaps|
      ensures r.Length == Halved(width, level) * Halved(height, level) * bytesPerPixel
      ensures level == 0 ==> r == data
    {
      LevelSize(level);
      mipmaps[level].data
    }

    // -------------------------------------------------------------------
    // Mipmaps

    /** Appends levels below the last one, halving both sides each time,
        while neither side falls below `minSize` (at least 1). Refused when
        nothing is loaded or a side is not a power of two; the image itself
        and the levels it had are kept. Each new level is a fresh buffer
        averaging 2 x 2 blocks of the level above it. */
    method GenerateMipmaps(minSize: int) returns (ok: bool)
      requires Valid()
      modifies this
      ensures Valid()
      ensures width == old(width) && height == old(height)
      ensures bytesPerPixel == old(bytesPerPixel) && data == old(data)
      ensures ok <==> old(data) != null && Util.IsPowerOf2(width) && Util.IsPowerOf2(height)
      ensures !ok ==> mipmaps == old(mipmaps)
      ensures ok ==> |mipmaps| == |old(mipmaps)| + LevelCount(old(mipmaps)[|old(mipmaps)| - 1].width,
                                                            old(mipmaps)[|old(mipmaps)| - 1].height,
                                                            MinLevelSize(minSize))
      ensures |old(mipmaps)| <= |mipmaps| && mipmaps[..|old(mipmaps)|] == old(mipmaps)
      ensures forall k :: |old(mipmaps)| <= k < |mipmaps| ==>
        fresh(mipmaps[k].data) && AveragesLevel(mipmaps[k - 1], mipmaps[k], bytesPerPixel)
    {
      if data == null {
        return false;
      }
      if !Util.IsPowerOf2(width) || !Util.IsPowerOf2(height) {
        return false;
      }
      var m := minSize;
      if m <= 0 {
        m := 1;
      }
      AppendLevels(m);
      return true;
    }

    /** The mipmap loop: levels halving the last one are appended while
        both sides stay at least `m`. */
    method AppendLevels(m: int)
      requires Valid() && data != null && m >= 1
      modifies this
      ensures Valid() && data == old(data)
      ensures width == old(width) && height == old(height) && bytesPerPixel == old(bytesPerPixel)
      ensures |mipmaps| == |old(mipmaps)| + LevelCount(old(mipmaps)[|old(mipmaps)| - 1].width,
                                                     old(mipmaps)[|old(mipmaps)| - 1].height, m)
      ensures |old(mipmaps)| <= |mipmaps| && mipmaps[..|old(mipmaps)|] == old(mipmaps)
      ensures forall k :: |old(mipmaps)| <= k < |mipmaps| ==>
        fresh(mipmaps[k].data) && AveragesLevel(mipmaps[k - 1], mipmaps[k], bytesPerPixel)
    {
      var prev := mipmaps[|mipmaps| - 1];
      LevelSize(|mipmaps| - 1);
      var dstWidth := prev.width / 2;
      var dstHeight := prev.height / 2;
      ghost var n0 := |mipmaps|;
      ghost var total := LevelCount(prev.width, prev.height, m);
      while dstWidth >= m && dstHeight >= m
        invariant Valid() && data == old(data) && data != null
        invariant width == old(width) && height == old(height) && bytesPerPixel == old(bytesPerPixel)
        invariant n0 <= |mipmaps| && mipmaps[..n0] == old(mipmaps)
        invariant dstWidth == mipmaps[|mipmaps| - 1].width / 2 >= 0
        invariant dstHeight == mipmaps[|mipmaps| - 1].height / 2
        invariant |mipmaps| - n0 + LevelCount(mipmaps[|mipmaps| - 1].width, mipmaps[|mipmaps| - 1].height, m) == total
        invariant forall k :: n0 <= k < |mipmaps| ==>
          fresh(mipmaps[k].data) && AveragesLevel(mipmaps[k - 1], mipmaps[k], bytesPerPixel)
        decreases dstWidth
      {
        var level := AppendLevel(dstWidth, dstHeight);
        dstWidth := dstWidth / 2;
        dstHeight := dstHeight / 2;
      }
    }

    /** One turn of the mipmap loop: a fresh `w x h` level, averaged from
        the last level, is appended. */
    method AppendLevel(w: int, h: int) returns (level: Mipmap)
      requires Valid() && data != null
      requires w == mipmaps[|mipmaps| - 1].width / 2 && w >= 1
      requires h == mipmaps[|mipmaps| - 1].height / 2 && h >= 1
      modifies this
      ensures Valid() && data == old(data)
      ensures width == old(width) && height == old(height) && bytesPerPixel == old(bytesPerPixel)
      ensures mipmaps == old(mipmaps) + [level]
      ensures level.width == w && level.height == h && fresh(level.data)
      ensures AveragesLevel(old(mipmaps)[|old(mipmaps)| - 1], level, bytesPerPixel)
    {
      var prev := mipmaps[|mipmaps| - 1];
      LevelSize(|mipmaps| - 1);
      var dstData := DownsampleLevel(prev.data[..], prev.width, prev.height, bytesPerPixel, w, h);
      level := Mipmap(w, h, dstData);
      mipmaps := mipmaps + [level];
    }

    // -------------------------------------------------------------------
    // Loading a Targa file

    /** Loads `file` (its whole contents). Refused files leave the image as
        it was; an accepted header allocates a fresh image of its size; the
        pixels are then decoded into it as `Targa.Decode` says. A file whose
        pixel data ends early is refused and leaves the image empty. */
    method LoadTarga(file: seq<byte>) returns (ok: bool)
      requires Valid()
      modifies this
      ensures Valid()
      ensures ok <==> Decode(file).Decoded? || Decode(file).Undecoded?
      ensures Decode(file).ShortHeader? || Decode(file).Unsupported? ==> unchanged(this)
      ensures Decode(file).Truncated? ==> Empty()
      ensures ok ==>
        var h := Decode(file).hdr;
        data != null && fresh(data) && mipmaps == [Mipmap(width, height, data)] &&
        width == h.width && height == h.height && bytesPerPixel == h.bpp / 8
      ensures Decode(file).Decoded? ==> data != null && data[..] == Decode(file).buffer
    {
      if |file| < HeaderSize {
        return false;
      }
      var h := ParseHeader(file);
      if !SupportedType(h.imageTypeCode) {
        return false;
      }
      if RightToLeft(h.imageDesc) {
        return false;
      }
      ok := Allocate(h.width, h.height, h.bpp / 8);
      var complete;
      if h.imageTypeCode == TargaRgb || h.imageTypeCode == TargaGrayscale {
        complete := LoadTargaUncompressed(file, h);
      } else {
        complete := LoadTargaRle(file, h);
      }
      if !complete {
        Deallocate();
        return false;
      }
      return true;
    }

    /** Stores file pixel `px` (B,G,R[,A] or one grey byte) at byte `at` in
        buffer order. */
    method PutPixel(at: int, px: Pixel)
      requires data != null && 0 <= at && at + |px| <= data.Length
      requires |px| == 1 || |px| == 3 || |px| == 4
      modifies data
      ensures forall k :: 0 <= k < data.Length ==>
        data[k] == if at <= k < at + |px| then Swizzle(px)[k - at] else old(data[k])
    {
      if |px| == 1 {
        data[at] := px[0];
      } else {
        data[at] := px[2];
        data[at + 1] := px[1];
        data[at + 2] := px[0];
        if |px| == 4 {
          data[at + 3] := px[3];
        }
      }
    }

    /** Uncompressed pixel data: `width` pixels per file row, each row
        stored at `DestRow(j)`. */
    method LoadTargaUncompressed(file: seq<byte>, h: Header) returns (complete: bool)
      requires data != null && data.Length == LayoutOf(h).Size()
      modifies data
      ensures var L := LayoutOf(h);
        var s := RawPixels(file, HeaderSize + h.idLength, L.bpp, L.Pixels());
        if DecodedDepth(h.bpp) then
          (complete <==> s.Some?) && (complete ==> data[..] == Placed(L, s.value))
        else complete && data[..] == old(data[..])
    {
      var L := LayoutOf(h);
      var rowLen := L.RowLen();
      var rowStep, dstRow;
      if BottomToTop(h.imageDesc) {
        rowStep := -(rowLen as int);
        dstRow := rowLen * (L.height - 1);
      } else {
        rowStep := rowLen;
        dstRow := 0;
      }
      if !DecodedDepth(h.bpp) {
        return true;
      }
      complete := LoadRows(file, L, HeaderSize + h.idLength, rowStep, dstRow);
    }

    /** The outer loop of the uncompressed decoder: one file row after
        another, `dstRow` moving by `rowStep` in the buffer. */
    method LoadRows(file: seq<byte>, L: Layout, start: nat, rowStep: int, dstRow0: int)
      returns (complete: bool)
      requires data != null && data.Length == L.Size()
      requires L.bpp == 1 || L.bpp == 3 || L.bpp == 4
      requires rowStep == (if L.bottomToTop then -(L.RowLen() as int) else L.RowLen())
      requires dstRow0 == (if L.bottomToTop then L.RowLen() * (L.height - 1) else 0)
      modifies data
      ensures var s := RawPixels(file, start, L.bpp, L.Pixels());
        (complete <==> s.Some?) && (complete ==> data[..] == Placed(L, s.value))
    {
      var pos: nat := start;
      var dstRow := dstRow0;
      ghost var emitted: seq<Pixel> := [];
      assert RowsLoaded(file, start, L, 0, dstRow, pos, emitted, data[..]) by {
        FilledNothing(L, emitted, data[..]);
        PrependNothing(RawPixels(file, start, L.bpp, L.Pixels()));
      }
      var j := 0;
      while j < L.height
        invariant RowsLoaded(file, start, L, j, dstRow, pos, emitted, data[..])
        decreases L.height - j
      {
        complete, pos, emitted := LoadRow(file, L, start, j, rowStep, dstRow, pos, emitted);
        if !complete {
          return false;
        }
        dstRow := dstRow + rowStep;
        j := j + 1;
      }
      RowsComplete(file, start, L, j, dstRow, pos, emitted, data[..]);
      return true;
    }

    /** The inner loop of the uncompressed decoder: file row `j`, `width`
        pixels from `pos`, copied to the buffer row at `dstRow`. */
    method LoadRow(file: seq<byte>, L: Layout, ghost start: nat, j: int, rowStep: int, dstRow: int,
                   pos: nat, ghost emitted: seq<Pixel>)
      returns (complete: bool, pos': nat, ghost emitted': seq<Pixel>)
      requires data != null && data.Length == L.Size()
      requires L.bpp == 1 || L.bpp == 3 || L.bpp == 4
      requires rowStep == (if L.bottomToTop then -(L.RowLen() as int) else L.RowLen())
      requires j < L.height && RowsLoaded(file, start, L, j, dstRow, pos, emitted, data[..])
      modifies data
      ensures !complete ==> RawPixels(file, start, L.bpp, L.Pixels()) == None
      ensures complete ==> RowsLoaded(file, start, L, j + 1, dstRow + rowStep, pos', emitted', data[..])
    {
      var bpp := L.bpp;
      MulMono(j + 1, L.height, L.width);
      var p := dstRow;
      pos' := pos;
      emitted' := emitted;
      var i := 0;
      while i < L.width
        invariant 0 <= i <= L.width
        invariant |emitted'| == j * L.width + i <= L.Pixels()
        invariant p == dstRow + i * bpp
        invariant Streamed(file, start, L, pos', emitted')
        invariant FilledUpTo(L, emitted', data[..], |emitted'|)
      {
        PixelAt(L, j, i);
        RawNext(file, start, pos', bpp, L.Pixels(), L.Pixels() - |emitted'|, emitted');
        if pos' + bpp > |file| {
          return false, pos', emitted';
        }
        var px := file[pos'..pos' + bpp];
        FilledExtend(L, emitted', [px], data[..], |emitted'|);
        StorePixel(L, emitted' + [px], |emitted'|, p, px);
        emitted' := emitted' + [px];
        pos' := pos' + bpp;
        p := p + bpp;
        i := i + 1;
      }
      assert j * L.width + L.width == (j + 1) * L.width;
      RowAdvance(L, j);
      return true, pos', emitted';
    }

    /** Stores file pixel `t`, `px`, at its place in the buffer. */
    method StorePixel(L: Layout, ghost ps: seq<Pixel>, ghost t: int, at: int, px: Pixel)
      requires data != null && data.Length == L.Size()
      requires L.width > 0 && 0 <= t < L.Pixels() && at == L.PixelStart(t)
      requires |px| == L.bpp && (L.bpp == 1 || L.bpp == 3 || L.bpp == 4)
      requires FilledUpTo(L, ps, data[..], t) && t < |ps| && ps[t] == px
      modifies data
      ensures FilledUpTo(L, ps, data[..], t + 1)
    {
      PixelSpan(L, t);
      ghost var before := data[..];
      PutPixel(at, px);
      FilledStep(L, ps, before, data[..], t);
    }

    /** One decoded pixel of an RLE packet: stored at the cursor while the
        image is not yet full, then the cursor moves on, wrapping to the
        next buffer row at the end of a row. */
    method EmitPixel(L: Layout, rowStep: int, ghost ps: seq<Pixel>, t: int,
                     px: Pixel, inRow: int, dstRow: int, p: int)
      returns (inRow': int, dstRow': int, p': int)
      requires data != null && data.Length == L.Size()
      requires |px| == L.bpp && (L.bpp == 1 || L.bpp == 3 || L.bpp == 4)
      requires Painted(L, rowStep, ps, data[..], t, inRow, dstRow, p)
      requires t < L.Pixels() ==> t < |ps| && ps[t] == px
      modifies data
      ensures Painted(L, rowStep, ps, data[..], t + 1, inRow', dstRow', p')
    {
      if t < L.Pixels() {
        StorePixel(L, ps, t, p, px);
      }
      CursorStep(L, rowStep, t, inRow, dstRow, p);
      p' := p + L.bpp;
      inRow' := inRow + 1;
      dstRow' := dstRow;
      if inRow' == L.width {
        dstRow' := dstRow + rowStep;
        p' := dstRow';
        inRow' := 0;
      }
    }

    /** The pixel loop of a run packet: `count` copies of `px`. */
    method EmitRun(L: Layout, rowStep: int, ghost ps: seq<Pixel>, t: int,
                   px: Pixel, count: int, inRow: int, dstRow: int, p: int)
      returns (inRow': int, dstRow': int, p': int)
      requires data != null && data.Length == L.Size()
      requires |px| == L.bpp && (L.bpp == 1 || L.bpp == 3 || L.bpp == 4)
      requires |ps| == t && count >= 0 && Painted(L, rowStep, ps, data[..], t, inRow, dstRow, p)
      modifies data
      ensures Painted(L, rowStep, ps + Repeat(px, count), data[..], t + count, inRow', dstRow', p')
    {
      ghost var run := Repeat(px, count);
      FilledExtend(L, ps, run, data[..], Min(t, L.Pixels()));
      inRow', dstRow', p' := inRow, dstRow, p;
      var i := 0;
      while i < count
        invariant 0 <= i <= count
        invariant Painted(L, rowStep, ps + run, data[..], t + i, inRow', dstRow', p')
      {
        inRow', dstRow', p' := EmitPixel(L, rowStep, ps + run, t + i, px, inRow', dstRow', p');
        i := i + 1;
      }
    }

    /** The pixel loop of a literal packet: `count` pixels read from `pos`;
        fails when the file ends first. */
    method EmitLiteral(file: seq<byte>, L: Layout, rowStep: int,
                       ghost ps: seq<Pixel>, t: int, pos: nat, count: int,
                       inRow: int, dstRow: int, p: int)
      returns (complete: bool, pos': nat, inRow': int, dstRow': int, p': int,
               ghost literal: seq<Pixel>)
      requires data != null && data.Length == L.Size()
      requires L.bpp == 1 || L.bpp == 3 || L.bpp == 4
      requires |ps| == t && count >= 0 && Painted(L, rowStep, ps, data[..], t, inRow, dstRow, p)
      modifies data
      ensures !complete ==> RawPixels(file, pos, L.bpp, count) == None
      ensures complete ==>
        RawPixels(file, pos, L.bpp, count) == Some(literal) &&
        |literal| == count && pos' == pos + count * L.bpp &&
        Painted(L, rowStep, ps + literal, data[..], t + count, inRow', dstRow', p')
    {
      var bpp := L.bpp;
      literal := [];
      assert LiteralRead(file, pos, bpp, count, 0, pos, literal) by {
        PrependNothing(RawPixels(file, pos, bpp, count));
      }
      pos', inRow', dstRow', p' := pos, inRow, dstRow, p;
      var i := 0;
      while i < count
        invariant LiteralRead(file, pos, bpp, count, i, pos', literal)
        invariant Painted(L, rowStep, ps + literal, data[..], t + i, inRow', dstRow', p')
      {
        LiteralNext(file, pos, bpp, count, i, pos', literal);
        if pos' + bpp > |file| {
          return false, pos', inRow', dstRow', p', literal;
        }
        var px := file[pos'..pos' + bpp];
        ghost var more := ps + (literal + [px]);
        assert Painted(L, rowStep, more, data[..], t + i, inRow', dstRow', p') by {
          FilledExtend(L, ps + literal, [px], data[..], Min(t + i, L.Pixels()));
          assert ps + literal + [px] == more;
        }
        inRow', dstRow', p' := EmitPixel(L, rowStep, more, t + i, px, inRow', dstRow', p');
        literal := literal + [px];
        pos' := pos' + bpp;
        i := i + 1;
      }
      LiteralDone(file, pos, bpp, count, pos', literal);
      complete := true;
    }

    /** One pass of the RLE loop: the packet header at `pos`, then the
        pixels it stands for. */
    method DecodePacket(file: seq<byte>, L: Layout, rowStep: int, ghost start: nat,
                        ghost emitted0: seq<Pixel>, numPixelsRead: int, pos0: nat,
                        inRow: int, dstRow0: int, p0: int)
      returns (complete: bool, count: int, pos: nat, numPixelsInRow: int, dstRow: int, p: int,
               ghost emitted: seq<Pixel>)
      requires data != null && data.Length == L.Size()
      requires L.bpp == 1 || L.bpp == 3 || L.bpp == 4
      requires 0 <= numPixelsRead < L.Pixels() && |emitted0| == numPixelsRead
      requires PacketsLoaded(file, start, L, rowStep, pos0, emitted0, inRow, dstRow0, p0, data[..])
      modifies data
      ensures !complete ==> RlePixels(file, start, L.bpp, L.Pixels()) == None
      ensures complete ==>
        count >= 1 && |emitted| == numPixelsRead + count &&
        PacketsLoaded(file, start, L, rowStep, pos, emitted, numPixelsInRow, dstRow, p, data[..])
    {
      if pos0 >= |file| {
        return false, 0, pos0, inRow, dstRow0, p0, emitted0;
      }
      if file[pos0] > 127 {
        complete, count, pos, numPixelsInRow, dstRow, p, emitted :=
          DecodeRun(file, L, rowStep, start, emitted0, numPixelsRead, pos0, inRow, dstRow0, p0);
      } else {
        complete, count, pos, numPixelsInRow, dstRow, p, emitted :=
          DecodeLiteral(file, L, rowStep, start, emitted0, numPixelsRead, pos0, inRow, dstRow0, p0);
      }
    }

    /** A run packet: header byte `count + 127` at `header`, then one pixel
        that is repeated `count` times. */
    method DecodeRun(file: seq<byte>, L: Layout, rowStep: int, ghost start: nat,
                     ghost emitted0: seq<Pixel>, numPixelsRead: int, header: nat,
                     inRow: int, dstRow0: int, p0: int)
      returns (complete: bool, count: int, pos: nat, numPixelsInRow: int, dstRow: int, p: int,
               ghost emitted: seq<Pixel>)
      requires data != null && data.Length == L.Size()
      requires L.bpp == 1 || L.bpp == 3 || L.bpp == 4
      requires 0 <= numPixelsRead < L.Pixels() && |emitted0| == numPixelsRead
      requires header < |file| && file[header] > 127
      requires PacketsLoaded(file, start, L, rowStep, header, emitted0, inRow, dstRow0, p0, data[..])
      modifies data
      ensures !complete ==> RlePixels(file, start, L.bpp, L.Pixels()) == None
      ensures complete ==>
        count >= 1 && |emitted| == numPixelsRead + count &&
        PacketsLoaded(file, start, L, rowStep, pos, emitted, numPixelsInRow, dstRow, p, data[..])
    {
      var bpp := L.bpp;
      count := file[header] - 127;
      pos := header + 1;
      emitted := emitted0;
      var need := L.Pixels() - numPixelsRead;
      RleRunNext(file, start, header, bpp, L.Pixels(), need, emitted0, count, pos + bpp);
      if pos + bpp > |file| {
        return false, count, pos, inRow, dstRow0, p0, emitted;
      }
      var px := file[pos..pos + bpp];
      pos := pos + bpp;
      numPixelsInRow, dstRow, p :=
        EmitRun(L, rowStep, emitted0, numPixelsRead, px, count, inRow, dstRow0, p0);
      emitted := emitted0 + Repeat(px, count);
      PacketDone(file, start, L, rowStep, pos, emitted0, Repeat(px, count), numPixelsRead, need, count,
                 numPixelsInRow, dstRow, p, data[..]);
      complete := true;
    }

    /** A literal packet: header byte `count - 1` at `header`, then `count`
        pixels. */
    method DecodeLiteral(file: seq<byte>, L: Layout, rowStep: int, ghost start: nat,
                         ghost emitted0: seq<Pixel>, numPixelsRead: int, header: nat,
                         inRow: int, dstRow0: int, p0: int)
      returns (complete: bool, count: int, pos: nat, numPixelsInRow: int, dstRow: int, p: int,
               ghost emitted: seq<Pixel>)
      requires data != null && data.Length == L.Size()
      requires L.bpp == 1 || L.bpp == 3 || L.bpp == 4
      requires 0 <= numPixelsRead < L.Pixels() && |emitted0| == numPixelsRead
      requires header < |file| && file[header] <= 127
      requires PacketsLoaded(file, start, L, rowStep, header, emitted0, inRow, dstRow0, p0, data[..])
      modifies data
      ensures !complete ==> RlePixels(file, start, L.bpp, L.Pixels()) == None
      ensures complete ==>
        count >= 1 && |emitted| == numPixelsRead + count &&
        PacketsLoaded(file, start, L, rowStep, pos, emitted, numPixelsInRow, dstRow, p, data[..])
    {
      count := file[header] + 1;
      ghost var literal;
      complete, pos, numPixelsInRow, dstRow, p, literal :=
        EmitLiteral(file, L, rowStep, emitted0, numPixelsRead, header + 1, count, inRow, dstRow0, p0);
      emitted := emitted0 + literal;
      if complete {
        LiteralPacketDone(file, start, L, rowStep, header, emitted0, count, literal, pos,
                          numPixelsInRow, dstRow, p, data[..]);
      } else {
        LiteralPacketCut(file, start, L, header, emitted0, count);
      }
    }

    /** Run-length encoded pixel data, decoded packet by packet until the
        image is full; pixels of the last packet beyond the image are dropped. */
    method LoadTargaRle(file: seq<byte>, h: Header) returns (complete: bool)
      requires data != null && data.Length == LayoutOf(h).Size()
      modifies data
      ensures var L := LayoutOf(h);
        var s := RlePixels(file, HeaderSize + h.idLength, L.bpp, L.Pixels());
        if DecodedDepth(h.bpp) then
          (complete <==> s.Some?) && (complete ==> data[..] == Placed(L, s.value))
        else complete && data[..] == old(data[..])
    {
      var L := LayoutOf(h);
      var rowLen := L.RowLen();
      var rowStep, dstRow;
      if BottomToTop(h.imageDesc) {
        rowStep := -(rowLen as int);
        dstRow := rowLen * (L.height - 1);
      } else {
        rowStep := rowLen;
        dstRow := 0;
      }
      if !DecodedDepth(h.bpp) {
        return true;
      }
      complete := LoadPackets(file, L, HeaderSize + h.idLength, rowStep, dstRow);
    }

    /** The packet loop of the RLE decoder, with the cursor starting at
        `dstRow0`. */
    method LoadPackets(file: seq<byte>, L: Layout, start: nat, rowStep: int, dstRow0: int)
      returns (complete: bool)
      requires data != null && data.Length == L.Size()
      requires L.bpp == 1 || L.bpp == 3 || L.bpp == 4
      requires rowStep == (if L.bottomToTop then -(L.RowLen() as int) else L.RowLen())
      requires dstRow0 == (if L.bottomToTop then L.RowLen() * (L.height - 1) else 0)
      modifies data
      ensures var s := RlePixels(file, start, L.bpp, L.Pixels());
        (complete <==> s.Some?) && (complete ==> data[..] == Placed(L, s.value))
    {
      var numPixels := L.Pixels();
      var numPixelsRead := 0;
      var numPixelsInRow := 0;
      var dstRow := dstRow0;
      var p := dstRow;
      var pos: nat := start;
      ghost var emitted: seq<Pixel> := [];
      assert PacketsLoaded(file, start, L, rowStep, pos, emitted, numPixelsInRow, dstRow, p, data[..]) by {
        FilledNothing(L, emitted, data[..]);
        PrependNothing(RlePixels(file, start, L.bpp, numPixels));
        if numPixels > 0 {
          CursorStart(L, rowStep, dstRow);
        }
      }
      while numPixelsRead < numPixels
        invariant numPixelsRead == |emitted|
        invariant PacketsLoaded(file, start, L, rowStep, pos, emitted, numPixelsInRow, dstRow, p, data[..])
        decreases numPixels - numPixelsRead
      {
        var count;
        complete, count, pos, numPixelsInRow, dstRow, p, emitted :=
          DecodePacket(file, L, rowStep, start, emitted, numPixelsRead, pos, numPixelsInRow, dstRow, p);
        if !complete {
          return false;
        }
        numPixelsRead := numPixelsRead + count;
      }
      PacketsComplete(file, start, L, rowStep, pos, emitted, numPixelsInRow, dstRow, p, data[..]);
      return true;
    }
  }
}
