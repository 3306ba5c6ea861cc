/** The Truevision TGA format as the image loader reads it: the 18-byte
    header, the two pixel encodings (uncompressed and run-length packets), and
    where each decoded pixel lands in the image buffer. Everything here is a
    pure function of the file's bytes; `ImageBuffer.Image.LoadTarga` is the
    imperative decoder proved against `Decode`. */
module Targa {
  import opened Common

  /** Fixed header length: fields 1 to 5 of the TGA 2.0 header. */
  const HeaderSize := 18

  // Image type codes the loader accepts.
  const TargaRgb := 2
  const TargaGrayscale := 3
  const TargaRleRgb := 10
  const TargaRleGrayscale := 11

  datatype Header = Header(
    idLength: byte,
    colorMapType: byte,
    imageTypeCode: byte,
    colorMapSpec: seq<byte>,
    xOrigin: nat,
    yOrigin: nat,
    width: nat,
    height: nat,
    bpp: byte,
    imageDesc: byte)

  /** A header that some 18 bytes can spell: 5 colour-map bytes, 16-bit fields. */
  predicate WellFormedHeader(h: Header)
  {
    |h.colorMapSpec| == 5 &&
    h.xOrigin < 0x1_0000 && h.yOrigin < 0x1_0000 &&
    h.width < 0x1_0000 && h.height < 0x1_0000
  }

  /** A little-endian unsigned 16-bit field. */
  function U16(lo: byte, hi: byte): nat
  {
    lo + 256 * hi
  }

  function ParseHeader(file: seq<byte>): (h: Header)
    requires |file| >= HeaderSize
    ensures WellFormedHeader(h)
  {
    Header(file[0], file[1], file[2], file[3..8],
           U16(file[8], file[9]), U16(file[10], file[11]),
           U16(file[12], file[13]), U16(file[14], file[15]),
           file[16], file[17])
  }

  function LowByte(x: nat): byte { x % 256 }
  function HighByte(x: nat): byte requires x < 0x1_0000 { x / 256 }

  /** The 18 bytes that spell a header; the inverse of `ParseHeader`. */
  function EncodeHeader(h: Header): (bytes: seq<byte>)
    requires WellFormedHeader(h)
    ensures |bytes| == HeaderSize
  {
    [h.idLength, h.colorMapType, h.imageTypeCode] + h.colorMapSpec +
    [LowByte(h.xOrigin), HighByte(h.xOrigin), LowByte(h.yOrigin), HighByte(h.yOrigin),
     LowByte(h.width), HighByte(h.width), LowByte(h.height), HighByte(h.height),
     h.bpp, h.imageDesc]
  }

  lemma ParseEncodedHeader(h: Header, rest: seq<byte>)
    requires WellFormedHeader(h)
    ensures ParseHeader(EncodeHeader(h) + rest) == h
  {
    var file := EncodeHeader(h) + rest;
    assert file[3..8] == h.colorMapSpec;
  }

  predicate SupportedType(code: byte)
  {
    code == TargaRgb || code == TargaGrayscale || code == TargaRleRgb || code == TargaRleGrayscale
  }

  predicate IsRle(code: byte)
  {
    code == TargaRleRgb || code == TargaRleGrayscale
  }

  /** Descriptor bit 4 (0x10): pixels stored right to left, which is refused. */
  predicate RightToLeft(desc: byte) { (desc / 0x10) % 2 == 1 }

  /** Descriptor bit 5 (0x20): the decoder fills the buffer from its last row up. */
  predicate BottomToTop(desc: byte) { (desc / 0x20) % 2 == 1 }

  predicate Accepted(h: Header)
  {
    SupportedType(h.imageTypeCode) && !RightToLeft(h.imageDesc)
  }

  predicate DecodedDepth(bpp: byte)
  {
    bpp == 8 || bpp == 24 || bpp == 32
  }

  /** Geometry of the destination buffer: `bpp` is bytes per pixel here. */
  datatype Layout = Layout(width: nat, height: nat, bpp: nat, bottomToTop: bool)
  {
    function Pixels(): nat { width * height }

    function Size(): nat { width * height * bpp }

    function RowLen(): nat { bpp * width }

    /** Buffer row that file row `j` is written to; the map is its own inverse. */
    function DestRow(j: int): int
    {
      if bottomToTop then height - 1 - j else j
    }

    /** Byte offset in the buffer of the `t`-th pixel of the file. */
    function PixelStart(t: int): int
      requires width > 0
    {
      DestRow(t / width) * RowLen() + (t % width) * bpp
    }

    /** Which file pixel buffer byte `k` comes from ... */
    function SrcPixel(k: int): int
      requires width > 0 && bpp > 0
    {
      DestRow(k / RowLen()) * width + (k % RowLen()) / bpp
    }

    /** ... and which of its channels. */
    function Channel(k: int): int
      requires width > 0 && bpp > 0
    {
      (k % RowLen()) % bpp
    }
  }

  function LayoutOf(h: Header): Layout
  {
    Layout(h.width, h.height, h.bpp / 8, BottomToTop(h.imageDesc))
  }

  type Pixel = seq<byte>

  /** File order B,G,R[,A] to buffer order R,G,B[,A]; one-byte pixels are kept. */
  function Swizzle(px: Pixel): (r: Pixel)
    ensures |r| == |px|
  {
    if |px| >= 3 then [px[2], px[1], px[0]] + px[3..] else px
  }

  lemma SwizzleInvolution(px: Pixel)
    ensures Swizzle(Swizzle(px)) == px
  {
    if |px| >= 3 {
      assert Swizzle(Swizzle(px)) == [px[0], px[1], px[2]] + px[3..];
    }
  }

  /** The buffer byte `k` of an image whose file pixels are `ps`. */
  function PlacedByte(L: Layout, ps: seq<Pixel>, k: int): byte
  {
    if L.width == 0 || L.bpp == 0 then 0
    else
      var t := L.SrcPixel(k);
      var c := L.Channel(k);
      if 0 <= t < |ps| && 0 <= c < |ps[t]| then Swizzle(ps[t])[c] else 0
  }

  /** The decoded image buffer for file pixels `ps`. */
  function Placed(L: Layout, ps: seq<Pixel>): (buf: seq<byte>)
    ensures |buf| == L.Size()
  {
    seq(L.Size(), k => PlacedByte(L, ps, k))
  }

  predicate AllOfSize(ps: seq<Pixel>, bpp: nat)
  {
    forall t :: 0 <= t < |ps| ==> |ps[t]| == bpp
  }

  function Prepend(ps: seq<Pixel>, rest: Option<seq<Pixel>>): (r: Option<seq<Pixel>>)
  {
    match rest
    case None => None
    case Some(tail) => Some(ps + tail)
  }

  lemma PrependNothing(rest: Option<seq<Pixel>>)
    ensures Prepend([], rest) == rest
  {
    if rest.Some? {
      assert [] + rest.value == rest.value;
    }
  }

  lemma PrependAssoc(a: seq<Pixel>, b: seq<Pixel>, rest: Option<seq<Pixel>>)
    ensures Prepend(a, Prepend(b, rest)) == Prepend(a + b, rest)
  {
    if rest.Some? {
      assert a + (b + rest.value) == (a + b) + rest.value;
    }
  }

  /** `n` uncompressed pixels of `bpp` bytes read back to back from `pos`;
      None when the file ends first. */
  function RawPixels(file: seq<byte>, pos: nat, bpp: nat, n: nat): Option<seq<Pixel>>
    decreases n
  {
    if n == 0 then Some([])
    else if pos + bpp > |file| then None
    else Prepend([file[pos..pos + bpp]], RawPixels(file, pos + bpp, bpp, n - 1))
  }

  function Repeat(px: Pixel, n: nat): (r: seq<Pixel>)
    ensures |r| == n && forall t :: 0 <= t < n ==> r[t] == px
  {
    if n == 0 then [] else [px] + Repeat(px, n - 1)
  }

  /** Run-length packets from `pos` until at least `need` pixels are out. A
      header byte above 127 repeats the next pixel (header - 127) times;
      otherwise the next (header + 1) pixels are literal. None when the file
      ends inside a packet or before enough pixels. */
  function RlePixels(file: seq<byte>, pos: nat, bpp: nat, need: int): Option<seq<Pixel>>
    decreases need
  {
    if need <= 0 then Some([])
    else if pos >= |file| then None
    else if file[pos] > 127 then
      var count := file[pos] - 127;
      if pos + 1 + bpp > |file| then None
      else Prepend(Repeat(file[pos + 1..pos + 1 + bpp], count),
                   RlePixels(file, pos + 1 + bpp, bpp, need - count))
    else
      var count := file[pos] + 1;
      match RawPixels(file, pos + 1, bpp, count)
      case None => None
      case Some(literal) =>
        Prepend(literal, RlePixels(file, pos + 1 + count * bpp, bpp, need - count))
  }

  datatype Outcome =
    | ShortHeader              // fewer than 18 bytes
    | Unsupported(hdr: Header) // refused type code or right-to-left order
    | Undecoded(hdr: Header)   // accepted, but no decoder for this depth
    | Truncated(hdr: Header)   // pixel data ends early
    | Decoded(hdr: Header, buffer: seq<byte>)

  function PixelStream(file: seq<byte>, h: Header): Option<seq<Pixel>>
  {
    var L := LayoutOf(h);
    var start := HeaderSize + h.idLength;
    if IsRle(h.imageTypeCode) then RlePixels(file, start, L.bpp, L.Pixels())
    else RawPixels(file, start, L.bpp, L.Pixels())
  }

  /** What loading `file` yields. */
  function Decode(file: seq<byte>): Outcome
  {
    if |file| < HeaderSize then ShortHeader
    else
      var h := ParseHeader(file);
      if !Accepted(h) then Unsupported(h)
      else if !DecodedDepth(h.bpp) then Undecoded(h)
      else
        match PixelStream(file, h)
        case None => Truncated(h)
        case Some(ps) => Decoded(h, Placed(LayoutOf(h), ps))
  }

  // ---------------------------------------------------------------------
  // Geometry of the pixel layout

  lemma RowLenTimesHeight(L: Layout)
    ensures L.RowLen() * L.height == L.Size()
    ensures L.Pixels() * L.bpp == L.Size()
  {
  }

  /** A pixel position `(j, i)` with channel `c` sits at one byte offset, and
      that offset maps back to `(j, i)` and `c`. */
  lemma OffsetOf(L: Layout, j: int, i: int, c: int)
    requires L.width > 0 && L.bpp > 0
    requires 0 <= j < L.height && 0 <= i < L.width && 0 <= c < L.bpp
    ensures var k := L.DestRow(j) * L.RowLen() + i * L.bpp + c;
      0 <= k < L.Size() &&
      L.SrcPixel(k) == j * L.width + i && L.Channel(k) == c
  {
    var W, H, B, R := L.width, L.height, L.bpp, L.RowLen();
    var r := L.DestRow(j);
    var inRow := i * B + c;
    var k := r * R + inRow;
    MulAddBelow(i, c, B, W);
    assert W * B == R;
    DivModUnique(k, R, r, inRow);
    DivModUnique(inRow, B, i, c);
    MulAddBelow(r, inRow, R, H);
    RowLenTimesHeight(L);
  }

  /** Every buffer byte comes from a pixel of the image and a channel of it. */
  lemma SourceInRange(L: Layout, k: int)
    requires L.width > 0 && L.bpp > 0 && 0 <= k < L.Size()
    ensures 0 <= L.SrcPixel(k) < L.Pixels() && 0 <= L.Channel(k) < L.bpp
    ensures L.PixelStart(L.SrcPixel(k)) + L.Channel(k) == k
  {
    var W, H, B, R := L.width, L.height, L.bpp, L.RowLen();
    RowLenTimesHeight(L);
    var row, inRow := k / R, k % R;
    DivBelow(k, R, H);
    var i, c := inRow / B, inRow % B;
    assert W * B == R;
    DivBelow(inRow, B, W);
    var j := L.DestRow(row);
    var t := j * W + i;
    MulAddBelow(j, i, W, H);
    DivModUnique(t, W, j, i);
    assert inRow == i * B + c;
    assert k == row * R + inRow;
  }

  /** The bytes of pixel `t` are exactly those whose source pixel is `t`, and
      they hold its channels in order. */
  lemma PixelSpan(L: Layout, t: int)
    requires L.width > 0 && L.bpp > 0 && 0 <= t < L.Pixels()
    ensures 0 <= L.PixelStart(t) && L.PixelStart(t) + L.bpp <= L.Size()
    ensures forall k :: 0 <= k < L.Size() ==>
      (L.SrcPixel(k) == t <==> L.PixelStart(t) <= k < L.PixelStart(t) + L.bpp)
    ensures forall k :: L.PixelStart(t) <= k < L.PixelStart(t) + L.bpp ==>
      L.Channel(k) == k - L.PixelStart(t)
  {
    var W, H := L.width, L.height;
    assert L.Pixels() == H * W;
    DivBelow(t, W, H);
    var j, i := t / W, t % W;
    forall k | L.PixelStart(t) <= k < L.PixelStart(t) + L.bpp
      ensures 0 <= k < L.Size() && L.SrcPixel(k) == t && L.Channel(k) == k - L.PixelStart(t)
    {
      OffsetOf(L, j, i, k - L.PixelStart(t));
    }
    OffsetOf(L, j, i, 0);
    OffsetOf(L, j, i, L.bpp - 1);
    forall k | 0 <= k < L.Size() && L.SrcPixel(k) == t
      ensures L.PixelStart(t) <= k < L.PixelStart(t) + L.bpp
    {
      SourceInRange(L, k);
    }
  }

  /** Pixel `(j, i)` of the file, channel `c`, is found in buffer row
      `DestRow(j)` (row `height-1-j` when descriptor bit 0x20 is set), column
      `i`, with B and R exchanged for 3- and 4-byte pixels. */
  lemma PlacedAt(L: Layout, ps: seq<Pixel>, j: int, i: int, c: int)
    requires L.width > 0 && L.bpp > 0
    requires |ps| >= L.Pixels() && AllOfSize(ps, L.bpp)
    requires 0 <= j < L.height && 0 <= i < L.width && 0 <= c < L.bpp
    ensures 0 <= L.DestRow(j) * L.RowLen() + i * L.bpp + c < L.Size()
    ensures j * L.width + i < L.Pixels()
    ensures Placed(L, ps)[L.DestRow(j) * L.RowLen() + i * L.bpp + c] == Swizzle(ps[j * L.width + i])[c]
  {
    OffsetOf(L, j, i, c);
    var k := L.DestRow(j) * L.RowLen() + i * L.bpp + c;
    var t := j * L.width + i;
    MulAddBelow(j, i, L.width, L.height);
    assert |ps[t]| == L.bpp;
    assert L.SrcPixel(k) == t && L.Channel(k) == c;
    assert PlacedByte(L, ps, k) == Swizzle(ps[t])[c];
    assert Placed(L, ps)[k] == PlacedByte(L, ps, k);
  }

  /** Position of pixel `t` once the rows are taken in reverse order. */
  function MirrorIndex(width: nat, height: nat, t: int): (m: int)
    requires width > 0 && 0 <= t < width * height
    ensures 0 <= m < width * height
  {
    var j := t / width;
    DivBelow(t, width, height);
    MulAddBelow(height - 1 - j, t % width, width, height);
    (height - 1 - j) * width + t % width
  }

  /** The file rows in reverse order. */
  function ReverseRows(ps: seq<Pixel>, width: nat, height: nat): (r: seq<Pixel>)
    requires width > 0 && |ps| == width * height
    ensures |r| == |ps|
  {
    seq(|ps|, t requires 0 <= t < |ps| => ps[MirrorIndex(width, height, t)])
  }

  /** Two files that differ in descriptor bit 0x20 and store their rows in
      opposite orders fill identical buffers. */
  lemma RowOrderSymmetric(width: nat, height: nat, bpp: nat, ps: seq<Pixel>)
    requires width > 0 && bpp > 0 && |ps| == width * height
    ensures Placed(Layout(width, height, bpp, true), ps)
         == Placed(Layout(width, height, bpp, false), ReverseRows(ps, width, height))
  {
    var up := Layout(width, height, bpp, true);
    var down := Layout(width, height, bpp, false);
    var rev := ReverseRows(ps, width, height);
    forall k | 0 <= k < up.Size()
      ensures PlacedByte(up, ps, k) == PlacedByte(down, rev, k)
    {
      var R := down.RowLen();
      var row, inRow := k / R, k % R;
      var col := inRow / bpp;
      assert width * bpp == R;
      DivBelow(inRow, bpp, width);
      SourceInRange(down, k);
      var t := down.SrcPixel(k);
      assert t == row * width + col;
      DivModUnique(t, width, row, col);
      var mirrored := MirrorIndex(width, height, t);
      assert up.SrcPixel(k) == mirrored;
      assert rev[t] == ps[mirrored];
      assert down.Channel(k) == up.Channel(k);
    }
  }

  // ---------------------------------------------------------------------
  // Filling the buffer pixel by pixel

  /** `buf` already holds the final bytes of the first `t` file pixels. */
  predicate FilledUpTo(L: Layout, ps: seq<Pixel>, buf: seq<byte>, t: int)
  {
    |buf| == L.Size() &&
    (L.width > 0 && L.bpp > 0 ==>
      forall k {:trigger L.SrcPixel(k), buf[k]} :: 0 <= k < |buf| && L.SrcPixel(k) < t ==> buf[k] == PlacedByte(L, ps, k))
  }

  lemma FilledNothing(L: Layout, ps: seq<Pixel>, buf: seq<byte>)
    requires |buf| == L.Size()
    ensures FilledUpTo(L, ps, buf, 0)
  {
    if L.width > 0 && L.bpp > 0 {
      forall k | 0 <= k < |buf|
        ensures L.SrcPixel(k) >= 0
      {
        SourceInRange(L, k);
      }
    }
  }

  /** Writing pixel `t` at `PixelStart(t)` extends the filled prefix by one. */
  lemma FilledStep(L: Layout, ps: seq<Pixel>, before: seq<byte>, after: seq<byte>, t: int)
    requires L.width > 0 && L.bpp > 0
    requires FilledUpTo(L, ps, before, t)
    requires 0 <= t < L.Pixels() && t < |ps| && |ps[t]| == L.bpp
    requires |after| == |before|
    requires forall k :: 0 <= k < |after| ==>
      after[k] == if L.PixelStart(t) <= k < L.PixelStart(t) + L.bpp
                  then Swizzle(ps[t])[k - L.PixelStart(t)] else before[k]
    ensures FilledUpTo(L, ps, after, t + 1)
  {
    PixelSpan(L, t);
    forall k | 0 <= k < |after| && L.SrcPixel(k) < t + 1
      ensures after[k] == PlacedByte(L, ps, k)
    {
      SourceInRange(L, k);
    }
  }

  /** Pixels appended to the stream do not disturb what is already filled. */
  lemma FilledExtend(L: Layout, ps: seq<Pixel>, more: seq<Pixel>, buf: seq<byte>, t: int)
    requires FilledUpTo(L, ps, buf, t) && t <= |ps|
    ensures FilledUpTo(L, ps + more, buf, t)
  {
    if L.width > 0 && L.bpp > 0 {
      forall k | 0 <= k < |buf| && L.SrcPixel(k) < t
        ensures buf[k] == PlacedByte(L, ps + more, k)
      {
        SourceInRange(L, k);
        assert (ps + more)[L.SrcPixel(k)] == ps[L.SrcPixel(k)];
      }
    }
  }

  /** Once every pixel is written the buffer is the decoded image. */
  lemma FilledComplete(L: Layout, ps: seq<Pixel>, buf: seq<byte>)
    requires FilledUpTo(L, ps, buf, L.Pixels())
    ensures buf == Placed(L, ps)
  {
    if L.width > 0 && L.bpp > 0 {
      forall k | 0 <= k < |buf|
        ensures buf[k] == Placed(L, ps)[k]
      {
        SourceInRange(L, k);
      }
    } else {
      assert L.Size() == 0;
    }
  }

  // ---------------------------------------------------------------------
  // Pixel streams

  /** Pixels written back to back: the uncompressed pixel data. */
  function Concat(ps: seq<Pixel>): seq<byte>
  {
    if ps == [] then [] else ps[0] + Concat(ps[1..])
  }

  lemma {:induction false} RawPixelsOfConcat(ps: seq<Pixel>, bpp: nat, prefix: seq<byte>, rest: seq<byte>)
    requires AllOfSize(ps, bpp)
    ensures RawPixels(prefix + Concat(ps) + rest, |prefix|, bpp, |ps|) == Some(ps)
    decreases |ps|
  {
    if ps != [] {
      var file := prefix + Concat(ps) + rest;
      var first, tail := ps[0], ps[1..];
      assert |first| == bpp;
      assert file == (prefix + first) + Concat(tail) + rest;
      assert file[|prefix|..|prefix| + bpp] == first by {
        assert file[|prefix|..|prefix| + bpp] == (prefix + first)[|prefix|..];
      }
      assert RawPixels(file, |prefix| + bpp, bpp, |tail|) == Some(tail) by {
        RawPixelsOfConcat(tail, bpp, prefix + first, rest);
      }
      assert [first] + tail == ps;
    }
  }

  /** Uncompressed pixel data of the right length is never truncated, and
      `RawPixels` fails exactly when the file is too short. */
  lemma {:induction false} RawPixelsLength(file: seq<byte>, pos: nat, bpp: nat, n: nat)
    requires bpp > 0
    ensures RawPixels(file, pos, bpp, n).Some? <==> n == 0 || pos + n * bpp <= |file|
    ensures RawPixels(file, pos, bpp, n).Some? ==>
      |RawPixels(file, pos, bpp, n).value| == n && AllOfSize(RawPixels(file, pos, bpp, n).value, bpp)
    decreases n
  {
    if n > 0 {
      RawPixelsLength(file, pos + bpp, bpp, n - 1);
      assert pos + n * bpp == pos + bpp + (n - 1) * bpp;
      if pos + bpp > |file| {
        MulAtLeast(n, bpp);
      }
    }
  }

  /** A packet stands for 1 to 128 pixels: its header byte holds the count
      minus one in the low seven bits. */
  type PacketCount = n: int | 1 <= n <= 128 witness 1
  type LiteralPixels = ps: seq<Pixel> | 1 <= |ps| <= 128 witness [[]]

  /** One run-length packet as the encoder writes it. */
  datatype Packet = Run(px: Pixel, count: PacketCount) | Literal(pixels: LiteralPixels)

  /** Every pixel of the packet has `bpp` bytes. */
  predicate ValidPacket(p: Packet, bpp: nat)
  {
    match p
    case Run(px, _) => |px| == bpp
    case Literal(pixels) => AllOfSize(pixels, bpp)
  }

  /** The pixels one packet stands for. */
  function PacketPixels(p: Packet): seq<Pixel>
  {
    match p
    case Run(px, count) => Repeat(px, count)
    case Literal(pixels) => pixels
  }

  function Expand(packets: seq<Packet>): seq<Pixel>
  {
    if packets == [] then [] else PacketPixels(packets[0]) + Expand(packets[1..])
  }

  function EncodePacket(p: Packet): seq<byte>
  {
    match p
    case Run(px, count) => [127 + count] + px
    case Literal(pixels) => [|pixels| - 1] + Concat(pixels)
  }

  function EncodePackets(packets: seq<Packet>): seq<byte>
  {
    if packets == [] then [] else EncodePacket(packets[0]) + EncodePackets(packets[1..])
  }

  lemma ConcatLength(ps: seq<Pixel>, bpp: nat)
    requires AllOfSize(ps, bpp)
    ensures |Concat(ps)| == |ps| * bpp
  {
    if ps != [] {
      ConcatLength(ps[1..], bpp);
    }
  }

  lemma ExpandAllOfSize(packets: seq<Packet>, bpp: nat)
    requires forall n :: 0 <= n < |packets| ==> ValidPacket(packets[n], bpp)
    ensures AllOfSize(Expand(packets), bpp)
  {
    if packets != [] {
      ExpandAllOfSize(packets[1..], bpp);
    }
  }

  lemma RleRunStep(file: seq<byte>, pos: nat, bpp: nat, px: Pixel, count: nat, need: int)
    requires |px| == bpp && 1 <= count <= 128 && need >= count
    requires pos + 1 + bpp <= |file| && file[pos] == 127 + count
    requires file[pos + 1..pos + 1 + bpp] == px
    ensures RlePixels(file, pos, bpp, need)
         == Prepend(Repeat(px, count), RlePixels(file, pos + 1 + bpp, bpp, need - count))
  {
  }

  lemma RleLiteralStep(file: seq<byte>, pos: nat, bpp: nat, pixels: seq<Pixel>, need: int)
    requires 1 <= |pixels| <= 128 && AllOfSize(pixels, bpp) && need >= |pixels|
    requires pos + 1 + |Concat(pixels)| <= |file| && file[pos] == |pixels| - 1
    requires file[pos + 1..pos + 1 + |Concat(pixels)|] == Concat(pixels)
    ensures RlePixels(file, pos, bpp, need)
         == Prepend(pixels, RlePixels(file, pos + 1 + |Concat(pixels)|, bpp, need - |pixels|))
  {
    var n := |Concat(pixels)|;
    assert RawPixels(file, pos + 1, bpp, |pixels|) == Some(pixels) by {
      var before, after := file[..pos + 1], file[pos + 1 + n..];
      assert file == before + Concat(pixels) + after;
      RawPixelsOfConcat(pixels, bpp, before, after);
    }
    assert pos + 1 + |pixels| * bpp == pos + 1 + n by {
      ConcatLength(pixels, bpp);
    }
  }

  /** One encoded packet at `pos`, while pixels are still needed, contributes
      exactly its own pixels. */
  lemma RlePacketStep(file: seq<byte>, pos: nat, bpp: nat, p: Packet, need: int)
    requires ValidPacket(p, bpp)
    requires MatchesAt(file, pos, EncodePacket(p))
    requires need >= |PacketPixels(p)|
    ensures |PacketPixels(p)| >= 1
    ensures RlePixels(file, pos, bpp, need)
         == Prepend(PacketPixels(p), RlePixels(file, pos + |EncodePacket(p)|, bpp, need - |PacketPixels(p)|))
  {
    if p.Run? {
      RunPacketStep(file, pos, bpp, p, need);
    } else {
      LiteralPacketStep(file, pos, bpp, p, need);
    }
  }

  /** The bytes `x` stand in `file` from `pos` on. */
  predicate MatchesAt(file: seq<byte>, pos: nat, x: seq<byte>)
  {
    pos + |x| <= |file| && forall k :: 0 <= k < |x| ==> file[pos + k] == x[k]
  }

  lemma MatchesInside(prefix: seq<byte>, x: seq<byte>, suffix: seq<byte>)
    ensures MatchesAt(prefix + x + suffix, |prefix|, x)
  {
    var file := prefix + x + suffix;
    forall k | 0 <= k < |x| ensures file[|prefix| + k] == x[k] {
    }
  }

  /** Bytes `a + b` at `pos` are `a` at `pos` followed by `b`. */
  lemma MatchesSplit(file: seq<byte>, pos: nat, a: seq<byte>, b: seq<byte>)
    requires MatchesAt(file, pos, a + b)
    ensures MatchesAt(file, pos, a) && MatchesAt(file, pos + |a|, b)
  {
    forall k | 0 <= k < |a| ensures file[pos + k] == a[k] {
      assert (a + b)[k] == a[k];
    }
    forall k | 0 <= k < |b| ensures file[pos + |a| + k] == b[k] {
      assert (a + b)[|a| + k] == b[k];
    }
  }

  /** The first byte of an encoded packet and the rest, read back from the file. */
  lemma PacketBytes(file: seq<byte>, pos: nat, enc: seq<byte>)
    requires |enc| >= 1 && MatchesAt(file, pos, enc)
    ensures file[pos] == enc[0] && file[pos + 1..pos + |enc|] == enc[1..]
  {
    assert file[pos + 0] == enc[0];
    forall k | 0 <= k < |enc| - 1 ensures file[pos + 1..pos + |enc|][k] == enc[1..][k] {
      assert file[pos + (k + 1)] == enc[k + 1];
    }
  }

  lemma RunPacketStep(file: seq<byte>, pos: nat, bpp: nat, p: Packet, need: int)
    requires p.Run? && ValidPacket(p, bpp) && need >= |PacketPixels(p)|
    requires MatchesAt(file, pos, EncodePacket(p))
    ensures RlePixels(file, pos, bpp, need)
         == Prepend(PacketPixels(p), RlePixels(file, pos + |EncodePacket(p)|, bpp, need - |PacketPixels(p)|))
  {
    PacketBytes(file, pos, EncodePacket(p));
    RleRunStep(file, pos, bpp, p.px, p.count, need);
  }

  lemma LiteralPacketStep(file: seq<byte>, pos: nat, bpp: nat, p: Packet, need: int)
    requires p.Literal? && ValidPacket(p, bpp) && need >= |PacketPixels(p)|
    requires MatchesAt(file, pos, EncodePacket(p))
    ensures RlePixels(file, pos, bpp, need)
         == Prepend(PacketPixels(p), RlePixels(file, pos + |EncodePacket(p)|, bpp, need - |PacketPixels(p)|))
  {
    PacketBytes(file, pos, EncodePacket(p));
    RleLiteralStep(file, pos, bpp, p.pixels, need);
  }

  /** The valid packets `packets` are encoded in `file` one after another
      from `pos` on. */
  predicate PacketsAt(file: seq<byte>, pos: nat, packets: seq<Packet>, bpp: nat)
    decreases |packets|
  {
    packets == [] ||
    (ValidPacket(packets[0], bpp) &&
     MatchesAt(file, pos, EncodePacket(packets[0])) &&
     PacketsAt(file, pos + |EncodePacket(packets[0])|, packets[1..], bpp))
  }

  /** Every packet after the first is valid when all are. */
  lemma ValidTail(packets: seq<Packet>, bpp: nat)
    requires packets != []
    requires forall n :: 0 <= n < |packets| ==> ValidPacket(packets[n], bpp)
    ensures forall n :: 0 <= n < |packets[1..]| ==> ValidPacket(packets[1..][n], bpp)
  {
    forall n | 0 <= n < |packets[1..]| ensures ValidPacket(packets[1..][n], bpp) {
      assert packets[1..][n] == packets[n + 1];
    }
  }

  /** The encoding of a non-empty packet list found at `pos` is the first
      packet's encoding followed by the encoding of the rest. */
  lemma EncodePacketsCons(packets: seq<Packet>)
    requires packets != []
    ensures EncodePackets(packets) == EncodePacket(packets[0]) + EncodePackets(packets[1..])
  {
  }

  /** `EncodePackets` found in `file` at `pos` puts the packets there one
      after another. */
  lemma {:induction false} PacketsAtOfEncoding(packets: seq<Packet>, bpp: nat, file: seq<byte>, pos: nat)
    requires forall n :: 0 <= n < |packets| ==> ValidPacket(packets[n], bpp)
    requires MatchesAt(file, pos, EncodePackets(packets))
    ensures PacketsAt(file, pos, packets, bpp)
    decreases |packets|
  {
    if packets != [] {
      var mid := pos + |EncodePacket(packets[0])|;
      EncodePacketsCons(packets);
      MatchesSplit(file, pos, EncodePacket(packets[0]), EncodePackets(packets[1..]));
      ValidTail(packets, bpp);
      PacketsAtOfEncoding(packets[1..], bpp, file, mid);
      PacketsAtCons(file, pos, mid, packets, bpp);
    }
  }

  /** The first packet encoded at `pos` and the rest right after it. */
  lemma PacketsAtCons(file: seq<byte>, pos: nat, mid: nat, packets: seq<Packet>, bpp: nat)
    requires packets != [] && ValidPacket(packets[0], bpp)
    requires mid == pos + |EncodePacket(packets[0])|
    requires MatchesAt(file, pos, EncodePacket(packets[0]))
    requires PacketsAt(file, mid, packets[1..], bpp)
    ensures PacketsAt(file, pos, packets, bpp)
  {
  }

  /** An encoded packet at `pos` followed by bytes that decode to `rest`
      decodes to the packet's pixels followed by `rest`. */
  lemma PacketThenRest(file: seq<byte>, pos: nat, bpp: nat, p: Packet, rest: seq<Pixel>)
    requires ValidPacket(p, bpp)
    requires MatchesAt(file, pos, EncodePacket(p))
    requires RlePixels(file, pos + |EncodePacket(p)|, bpp, |rest|) == Some(rest)
    ensures RlePixels(file, pos, bpp, |PacketPixels(p) + rest|) == Some(PacketPixels(p) + rest)
  {
    var all := PacketPixels(p) + rest;
    RlePacketStep(file, pos, bpp, p, |all|);
    assert |all| - |PacketPixels(p)| == |rest|;
  }

  /** Decoding packets encoded one after another gives back every pixel
      they encode, in order: the round trip of the run-length format. */
  lemma {:induction false} RlePixelsOfPackets(packets: seq<Packet>, bpp: nat, file: seq<byte>, pos: nat)
    requires PacketsAt(file, pos, packets, bpp)
    ensures RlePixels(file, pos, bpp, |Expand(packets)|) == Some(Expand(packets))
    decreases |packets|
  {
    if packets == [] {
      assert Expand(packets) == [];
    } else {
      var first, rest := packets[0], packets[1..];
      RlePixelsOfPackets(rest, bpp, file, pos + |EncodePacket(first)|);
      PacketThenRest(file, pos, bpp, first, Expand(rest));
      assert Expand(packets) == PacketPixels(first) + Expand(rest);
    }
  }

  lemma DecodeOfStream(file: seq<byte>, h: Header, ps: seq<Pixel>)
    requires |file| >= HeaderSize && ParseHeader(file) == h
    requires Accepted(h) && DecodedDepth(h.bpp) && PixelStream(file, h) == Some(ps)
    ensures Decode(file) == Decoded(h, Placed(LayoutOf(h), ps))
  {
  }

  lemma RawPixelsAtEnd(ps: seq<Pixel>, bpp: nat, prefix: seq<byte>)
    requires AllOfSize(ps, bpp)
    ensures RawPixels(prefix + Concat(ps), |prefix|, bpp, |ps|) == Some(ps)
  {
    RawPixelsOfConcat(ps, bpp, prefix, []);
    assert prefix + Concat(ps) + [] == prefix + Concat(ps);
  }

  /** A header and its image identification field in front of any bytes. */
  lemma HeaderThenRest(h: Header, id: seq<byte>, rest: seq<byte>)
    requires WellFormedHeader(h) && |id| == h.idLength
    ensures ParseHeader(EncodeHeader(h) + id + rest) == h
    ensures |EncodeHeader(h) + id| == HeaderSize + h.idLength
  {
    ParseEncodedHeader(h, id + rest);
    assert EncodeHeader(h) + id + rest == EncodeHeader(h) + (id + rest);
  }

  lemma RleFileStream(h: Header, id: seq<byte>, packets: seq<Packet>)
    requires WellFormedHeader(h) && |id| == h.idLength && IsRle(h.imageTypeCode)
    requires forall n :: 0 <= n < |packets| ==> ValidPacket(packets[n], h.bpp / 8)
    requires |Expand(packets)| == h.width * h.height
    ensures var file := EncodeHeader(h) + id + EncodePackets(packets);
      ParseHeader(file) == h && PixelStream(file, h) == Some(Expand(packets))
  {
    var prefix, enc := EncodeHeader(h) + id, EncodePackets(packets);
    HeaderThenRest(h, id, enc);
    MatchesInside(prefix, enc, []);
    assert prefix + enc + [] == prefix + enc;
    PacketsAtOfEncoding(packets, h.bpp / 8, prefix + enc, |prefix|);
    RlePixelsOfPackets(packets, h.bpp / 8, prefix + enc, |prefix|);
  }

  lemma RawFileStream(h: Header, id: seq<byte>, ps: seq<Pixel>)
    requires WellFormedHeader(h) && |id| == h.idLength && !IsRle(h.imageTypeCode)
    requires AllOfSize(ps, h.bpp / 8) && |ps| == h.width * h.height
    ensures var file := EncodeHeader(h) + id + Concat(ps);
      ParseHeader(file) == h && PixelStream(file, h) == Some(ps)
  {
    HeaderThenRest(h, id, Concat(ps));
    RawPixelsAtEnd(ps, h.bpp / 8, EncodeHeader(h) + id);
  }

  /** The same pixels stored as run-length packets or uncompressed decode
      to the same buffer: type 10 against type 2 for colour, type 11
      against type 3 for grey scale. */
  lemma RleMatchesUncompressed(h: Header, id: seq<byte>, packets: seq<Packet>, grey: bool)
    requires WellFormedHeader(h) && |id| == h.idLength
    requires Accepted(h) && DecodedDepth(h.bpp)
    requires forall n :: 0 <= n < |packets| ==> ValidPacket(packets[n], h.bpp / 8)
    requires |Expand(packets)| == h.width * h.height
    ensures var rle := h.(imageTypeCode := if grey then TargaRleGrayscale else TargaRleRgb);
            var raw := h.(imageTypeCode := if grey then TargaGrayscale else TargaRgb);
            var rleFile := EncodeHeader(rle) + id + EncodePackets(packets);
            var rawFile := EncodeHeader(raw) + id + Concat(Expand(packets));
            Decode(rleFile).Decoded? && Decode(rawFile).Decoded? &&
            Decode(rleFile).buffer == Decode(rawFile).buffer
  {
    var rle := h.(imageTypeCode := if grey then TargaRleGrayscale else TargaRleRgb);
    var raw := h.(imageTypeCode := if grey then TargaGrayscale else TargaRgb);
    var ps := Expand(packets);
    ExpandAllOfSize(packets, h.bpp / 8);
    RleFileStream(rle, id, packets);
    RawFileStream(raw, id, ps);
    DecodeOfStream(EncodeHeader(rle) + id + EncodePackets(packets), rle, ps);
    DecodeOfStream(EncodeHeader(raw) + id + Concat(ps), raw, ps);
    assert LayoutOf(rle) == LayoutOf(raw);
  }

  // ---------------------------------------------------------------------
  // A worked example

  /** A 2x2 run-length grey-scale header: 8 bits per pixel, rows top to bottom. */
  function ExampleHeader(): Header
  {
    Header(0, 0, TargaRleGrayscale, [0, 0, 0, 0, 0], 0, 0, 2, 2, 8, 0)
  }

  /** `ExampleHeader`, then a literal packet of one pixel and a run of four. */
  function ExampleFile(): seq<byte>
  {
    EncodeHeader(ExampleHeader()) + [0, 10, 131, 30]
  }

  lemma ExampleStream()
    ensures RlePixels(ExampleFile(), 18, 1, 4) == Some([[10]] + Repeat([30], 4))
  {
    var file := ExampleFile();
    var p10: Pixel, p30: Pixel := [10], [30];
    var none: seq<Pixel> := [];
    assert file[18..] == [0, 10, 131, 30];
    assert file[18] == 0 && file[19..20] == p10 && file[20] == 131 && file[21..22] == p30;
    assert RawPixels(file, 20, 1, 0) == Some(none);
    assert [p10] + none == [p10];
    assert RawPixels(file, 19, 1, 1) == Some([p10]);
    assert RlePixels(file, 22, 1, -1) == Some(none);
    assert Repeat(p30, 4) + none == Repeat(p30, 4);
    assert RlePixels(file, 20, 1, 3) == Some(Repeat(p30, 4));
  }

  /** In a top-to-bottom grey-scale layout buffer byte `k` is file pixel `k`. */
  lemma GreyTopDown(L: Layout, k: int)
    requires L.width > 0 && L.bpp == 1 && !L.bottomToTop && k >= 0
    ensures L.SrcPixel(k) == k && L.Channel(k) == 0
  {
    assert L.RowLen() == L.width;
    assert (k / L.width) * L.width + k % L.width == k;
  }

  /** A top-to-bottom grey-scale buffer lists the pixels in file order;
      pixels beyond the image are ignored. */
  lemma GreyTopDownPlaced(L: Layout, ps: seq<Pixel>)
    requires L.width > 0 && L.bpp == 1 && !L.bottomToTop
    requires |ps| >= L.Pixels() && AllOfSize(ps, 1)
    ensures |Placed(L, ps)| == L.Pixels()
    ensures forall k :: 0 <= k < L.Pixels() ==> Placed(L, ps)[k] == ps[k][0]
  {
    forall k | 0 <= k < L.Pixels()
      ensures Placed(L, ps)[k] == ps[k][0]
    {
      GreyTopDown(L, k);
    }
  }

  lemma ExamplePlaced(ps: seq<Pixel>)
    requires ps == [[10]] + Repeat([30], 4)
    ensures Placed(Layout(2, 2, 1, false), ps) == [10, 30, 30, 30]
  {
    var p30: Pixel := [30];
    assert ps == [[10], p30, p30, p30, p30] by {
      assert Repeat(p30, 4) == [p30, p30, p30, p30];
    }
    GreyTopDownPlaced(Layout(2, 2, 1, false), ps);
  }

  lemma ExampleParse()
    ensures |ExampleFile()| >= HeaderSize && ParseHeader(ExampleFile()) == ExampleHeader()
  {
    ParseEncodedHeader(ExampleHeader(), [0, 10, 131, 30]);
  }

  /** `ExampleHeader` is accepted and decoded into a 2x2 top-to-bottom layout. */
  lemma ExampleAccepted()
    ensures Accepted(ExampleHeader()) && DecodedDepth(ExampleHeader().bpp)
    ensures LayoutOf(ExampleHeader()) == Layout(2, 2, 1, false)
  {
    assert (0 / 0x10) % 2 == 0 && (0 / 0x20) % 2 == 0;
  }

  /** A 2x2 run-length grey-scale image: a literal packet of one pixel, then
      a run of four. The run wraps from the first row into the second, and
      the one pixel beyond 2x2 is dropped. */
  lemma RowWrapExample()
    ensures Decode(ExampleFile()) == Decoded(ExampleHeader(), [10, 30, 30, 30])
  {
    var h := ExampleHeader();
    ExampleParse();
    ExampleAccepted();
    ExampleStream();
    ExamplePlaced([[10]] + Repeat([30], 4));
    DecodeOfStream(ExampleFile(), h, [[10]] + Repeat([30], 4));
  }
}
