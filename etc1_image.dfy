/**
 * JavaETC1's image-level code: the encoded data size, encodeImage (which
 * cuts the image into 4x4 blocks, expands RGB565 pixels into a reused
 * 48-byte block and encodes each block) and the edge masks it passes.
 */
module JavaEtc1Image {
  import opened JavaInt
  import opened Etc1
  import opened JavaEtc1
  import JavaEtc1Block

  // ---------------------------------------------------------------------
  // Sizes
  // ---------------------------------------------------------------------

  /** Blocks along a side of `size` pixels: the iterations of `for (v = 0; v < (size + 3) & ~3; v += 4)`. */
  function BlockCount(size: int): (n: int)
    requires IsInt(size)
    ensures 0 <= n
    ensures 0 < size <= IntMax - 3 ==> n == (size + 3) / 4 && 4 * n - 4 < size <= 4 * n
    ensures (size <= 0 || size > IntMax - 3) ==> n == 0
    ensures RoundUp4(size) > 0 ==> RoundUp4(size) == 4 * n
    ensures RoundUp4(size) <= 0 ==> n == 0
  {
    var e := RoundUp4(size);
    if e > 0 then e / 4 else 0
  }

  /** getEncodedDataSize: ((encodedWidth * encodedHeight) >> 1) in 32-bit int arithmetic. */
  function EncodedDataSize(width: int, height: int): (r: int)
    requires IsInt(width) && IsInt(height)
    ensures IntMin <= 2 * r <= IntMax
  {
    Wrap(RoundUp4(width) * RoundUp4(height)) / 2
  }

  /** Without overflow the encoded data size is 8 bytes per block. */
  lemma EncodedDataSizeBlocks(width: int, height: int)
    requires 0 <= width <= IntMax - 3 && 0 <= height <= IntMax - 3
    requires RoundUp4(width) * RoundUp4(height) <= IntMax
    ensures EncodedDataSize(width, height) == 8 * BlockCount(width) * BlockCount(height)
  {
    var ew := RoundUp4(width);
    var eh := RoundUp4(height);
    var a := BlockCount(width);
    var b := BlockCount(height);
    assert ew == 4 * a && eh == 4 * b;
    FourByFour(a, b);
    MulNonNegative(a, b);
    assert ew * eh == 16 * (a * b);
    assert Wrap(ew * eh) == 16 * (a * b);
  }

  lemma FourByFour(a: int, b: int)
    ensures (4 * a) * (4 * b) == 16 * (a * b) && 8 * a * b == 8 * (a * b)
  {
  }

  lemma MulNonNegative(a: int, b: int)
    requires 0 <= a && 0 <= b
    ensures 0 <= a * b
  {
  }

  // ---------------------------------------------------------------------
  // Edge masks
  // ---------------------------------------------------------------------

  /** kYMask[yEnd]: the pixels of the first yEnd rows, the low 4 * yEnd bits. */
  function KYMask(yEnd: int): (r: bv32)
    requires 0 <= yEnd <= 4
  {
    if yEnd == 0 then 0x0 else if yEnd == 1 then 0xf else if yEnd == 2 then 0xff
    else if yEnd == 3 then 0xfff else 0xffff
  }

  /** kXMask[xEnd]: the pixels of the first xEnd columns, the low xEnd bits of each row's nibble. */
  function KXMask(xEnd: int): (r: bv32)
    requires 0 <= xEnd <= 4
  {
    if xEnd == 0 then 0x0 else if xEnd == 1 then 0x1111 else if xEnd == 2 then 0x3333
    else if xEnd == 3 then 0x7777 else 0xffff
  }

  /** kYMask[yEnd] marks the first yEnd rows: its low 4 * yEnd bits. */
  lemma KYMaskRows(yEnd: int)
    requires 0 <= yEnd <= 4
    ensures KYMask(yEnd) == ((1 as bv32) << (4 * yEnd) as bv32) - 1
  {
  }

  /** kXMask[xEnd] marks the first xEnd columns: the low xEnd bits of each row's nibble. */
  lemma KXMaskColumns(xEnd: int)
    requires 0 <= xEnd <= 4
    ensures var m := ((1 as bv32) << xEnd as bv32) - 1; KXMask(xEnd) == m | (m << 4) | (m << 8) | (m << 12)
  {
  }

  /** The columns (or rows) of the block starting at `start` that lie inside a side of `size` pixels. */
  function EdgeEnd(size: int, start: int): (e: int)
    ensures e <= 4 && (e == 4 || e == size - start)
  {
    if size - start > 4 then 4 else size - start
  }

  /** ymask & kXMask[xEnd]: a full block has all 16 pixels valid, an empty one none, and no bit above 15 is set. */
  function BlockMask(xEnd: int, yEnd: int): (r: bv32)
    requires 0 <= xEnd <= 4 && 0 <= yEnd <= 4
    ensures r & 0xffff == r
    ensures xEnd == 4 && yEnd == 4 ==> r == 0xffff
    ensures xEnd == 0 || yEnd == 0 ==> r == 0
  {
    KYMask(yEnd) & KXMask(xEnd)
  }

  lemma MaskBit(xEnd: int, yEnd: int, i: int)
    requires 0 <= xEnd <= 4 && 0 <= yEnd <= 4 && 0 <= i < 16
    ensures BlockMask(xEnd, yEnd) & (1 << Bv(i)) != 0 <==> i % 4 < xEnd && i / 4 < yEnd
  {
    if yEnd == 0 {
    } else if yEnd == 1 {
    } else if yEnd == 2 {
    } else if yEnd == 3 {
    } else {
    }
  }

  /** Pixel i of the block (x = i % 4, y = i / 4) is valid exactly when it lies inside the image. */
  lemma BlockMaskValid(xEnd: int, yEnd: int, i: int)
    requires 0 <= xEnd <= 4 && 0 <= yEnd <= 4 && 0 <= i < 16
    ensures PixelValid(BlockMask(xEnd, yEnd), i) <==> i % 4 < xEnd && i / 4 < yEnd
  {
    BitShift(i);
    MaskBit(xEnd, yEnd, i);
  }

  // ---------------------------------------------------------------------
  // RGB565 expansion and the block gather
  // ---------------------------------------------------------------------

  /**
   * The block's R, G, B bytes for the little-endian RGB565 pixel (lo, hi):
   * pixel = (hi << 8) | lo, then convert5To8(pixel >>> 11),
   * convert6To8(pixel >>> 5) and convert5To8(pixel), stored as bytes.
   * Each channel's top bits are its field of the pixel.
   */
  function Expand565(lo: JByte, hi: JByte): (rgb: seq<JByte>)
    ensures |rgb| == 3
    ensures Unsigned(rgb[0]) / 8 == Unsigned(hi) / 8
    ensures Unsigned(rgb[1]) / 4 == (Unsigned(hi) % 8) * 8 + Unsigned(lo) / 32
    ensures Unsigned(rgb[2]) / 8 == Unsigned(lo) % 32
  {
    var h := Unsigned(hi);
    var l := Unsigned(lo);
    var pixel := h * 256 + l;
    Channels565(h, l);
    [StoredByte(Convert5To8(pixel / 2048)), StoredByte(Convert6To8(pixel / 32)), StoredByte(Convert5To8(pixel))]
  }

  /** (byte) c for a channel value: reading it back with & 0xff gives c. */
  function StoredByte(c: int): (b: JByte)
    requires 0 <= c < 256
    ensures Unsigned(b) == c
  {
    ToJByte(c)
  }

  /** The 16-bit pixel buffer encodeImage reads: byte offset 2 * x + stride * y holds pixel (x, y). */
  datatype Raster = Raster(pixels: seq<JByte>, width: int, height: int, stride: int)

  /** p at the start of row cy of the block at (x, y): pixelSize * x + stride * (y + cy). */
  function RowStart(img: Raster, x: int, y: int, cy: int): int {
    2 * x + img.stride * (y + cy)
  }

  /**
   * Whether the reads of pixels 0..cx of row cy all succeed: pIn.get throws
   * outside 0 .. limit - 1, and the offsets grow by 2 per pixel.
   */
  predicate Readable(img: Raster, x: int, y: int, cy: int, cx: int) {
    var p := RowStart(img, x, y, cy);
    0 <= p && p + 2 * cx + 1 < |img.pixels|
  }

  /**
   * Whether encodeImage writes pixel (cx, cy) of the block at (x, y): it is
   * inside the image (cx < xEnd, cy < yEnd) and no read of its row up to it
   * threw (an exception ends the row; the catch swallows it).  Only rows
   * cy < rows and the first cols pixels of row `rows` count.
   */
  predicate Written(img: Raster, x: int, y: int, xEnd: int, yEnd: int, rows: int, cols: int, cx: int, cy: int) {
    cx < xEnd && cy < yEnd && (cy < rows || (cy == rows && cx < cols)) && Readable(img, x, y, cy, cx)
  }

  /** Byte i of the block once rows 0 .. rows - 1 and the first cols pixels of row `rows` are gathered. */
  function GatheredByte(prev: seq<JByte>, img: Raster, x: int, y: int, xEnd: int, yEnd: int, rows: int, cols: int, i: int): JByte
    requires |prev| == 48 && 0 <= i < 48
  {
    var cx := (i / 3) % 4;
    var cy := (i / 3) / 4;
    if Written(img, x, y, xEnd, yEnd, rows, cols, cx, cy) then PixelBytes(img, x, y, cx, cy)[i % 3] else prev[i]
  }

  /** The three block bytes encodeImage stores for pixel (cx, cy) of the block at (x, y). */
  function PixelBytes(img: Raster, x: int, y: int, cx: int, cy: int): (rgb: seq<JByte>)
    requires 0 <= cx && Readable(img, x, y, cy, cx)
    ensures |rgb| == 3
  {
    var p := RowStart(img, x, y, cy) + 2 * cx;
    Expand565(img.pixels[p], img.pixels[p + 1])
  }

  function GatheredUpTo(prev: seq<JByte>, img: Raster, x: int, y: int, xEnd: int, yEnd: int, rows: int, cols: int): (b: seq<JByte>)
    requires |prev| == 48
    ensures |b| == 48
  {
    seq(48, i requires 0 <= i < 48 => GatheredByte(prev, img, x, y, xEnd, yEnd, rows, cols, i))
  }

  /**
   * The block array after the cy loop of encodeImage for the block at
   * (x, y): pixels written are the 565 expansion of the image pixel, all
   * other bytes keep what the previous block left (the array is never cleared).
   */
  function Gathered(prev: seq<JByte>, img: Raster, x: int, y: int, xEnd: int, yEnd: int): (b: seq<JByte>)
    requires |prev| == 48
    ensures |b| == 48
  {
    GatheredUpTo(prev, img, x, y, xEnd, yEnd, yEnd, 0)
  }

  /** Storing pixel (cx, cy)'s three bytes extends the gathered prefix of row cy by one pixel. */
  lemma GatherStep(prev: seq<JByte>, img: Raster, x: int, y: int, xEnd: int, yEnd: int, cy: int, cx: int,
                   b: seq<JByte>, p: int, q: int, rgb: seq<JByte>)
    requires |prev| == 48 && 0 <= cy < yEnd <= 4 && 0 <= cx < xEnd <= 4
    requires Readable(img, x, y, cy, cx)
    requires b == GatheredUpTo(prev, img, x, y, xEnd, yEnd, cy, cx)
    requires p == RowStart(img, x, y, cy) + 2 * cx && q == 12 * cy + 3 * cx
    requires rgb == PixelBytes(img, x, y, cx, cy)
    ensures b[q := rgb[0]][q + 1 := rgb[1]][q + 2 := rgb[2]] == GatheredUpTo(prev, img, x, y, xEnd, yEnd, cy, cx + 1)
  {
    var c := b[q := rgb[0]][q + 1 := rgb[1]][q + 2 := rgb[2]];
    var d := GatheredUpTo(prev, img, x, y, xEnd, yEnd, cy, cx + 1);
    forall i | 0 <= i < 48
      ensures c[i] == d[i]
    {
      if q <= i < q + 3 {
        GatheredCell(prev, img, x, y, xEnd, yEnd, cy, cx, p, q, rgb, i);
      } else {
        GatheredOther(prev, img, x, y, xEnd, yEnd, cy, cx, q, i);
      }
    }
  }

  lemma GatheredCell(prev: seq<JByte>, img: Raster, x: int, y: int, xEnd: int, yEnd: int, cy: int, cx: int,
                     p: int, q: int, rgb: seq<JByte>, i: int)
    requires |prev| == 48 && 0 <= cy < yEnd <= 4 && 0 <= cx < xEnd <= 4
    requires Readable(img, x, y, cy, cx)
    requires p == RowStart(img, x, y, cy) + 2 * cx && q == 12 * cy + 3 * cx && q <= i < q + 3
    requires rgb == PixelBytes(img, x, y, cx, cy)
    ensures GatheredByte(prev, img, x, y, xEnd, yEnd, cy, cx + 1, i) == rgb[i - q]
  {
    ByteCell(i, cx, cy);
    assert Written(img, x, y, xEnd, yEnd, cy, cx + 1, cx, cy);
  }

  lemma GatheredOther(prev: seq<JByte>, img: Raster, x: int, y: int, xEnd: int, yEnd: int, cy: int, cx: int, q: int, i: int)
    requires |prev| == 48 && 0 <= cy < yEnd <= 4 && 0 <= cx < xEnd <= 4
    requires q == 12 * cy + 3 * cx && 0 <= i < 48 && !(q <= i < q + 3)
    ensures GatheredByte(prev, img, x, y, xEnd, yEnd, cy, cx + 1, i) == GatheredByte(prev, img, x, y, xEnd, yEnd, cy, cx, i)
  {
    NotByteCell(i, cx, cy);
  }

  /** When the read at pixel cx of row cy throws (or the row is complete), the row's gather is finished. */
  lemma GatherRowEnd(prev: seq<JByte>, img: Raster, x: int, y: int, xEnd: int, yEnd: int, cy: int, cx: int)
    requires |prev| == 48 && 0 <= cy < yEnd <= 4 && 0 <= cx <= xEnd <= 4
    requires cx == xEnd || !Readable(img, x, y, cy, cx)
    requires cx == 0 || Readable(img, x, y, cy, cx - 1)
    ensures GatheredUpTo(prev, img, x, y, xEnd, yEnd, cy, cx) == GatheredUpTo(prev, img, x, y, xEnd, yEnd, cy + 1, 0)
  {
    var b := GatheredUpTo(prev, img, x, y, xEnd, yEnd, cy, cx);
    var d := GatheredUpTo(prev, img, x, y, xEnd, yEnd, cy + 1, 0);
    forall i | 0 <= i < 48
      ensures b[i] == d[i]
    {
      var c := (i / 3) % 4;
      if (i / 3) / 4 == cy && cx <= c < xEnd {
        assert !Readable(img, x, y, cy, c);
      }
    }
  }

  /**
   * The body of encodeImage's cx loop once both reads succeeded: the pixel
   * (hi << 8) | lo expanded into block[q], block[q + 1], block[q + 2].
   */
  method StorePixel(img: Raster, block: array<JByte>, x: int, y: int, xEnd: int, yEnd: int, cy: int, cx: int,
                    p: int, q: int, p1: JByte, p2: JByte, ghost prev: seq<JByte>)
    requires block.Length == 48 && |prev| == 48 && 0 <= cy < yEnd <= 4 && 0 <= cx < xEnd <= 4
    requires p == RowStart(img, x, y, cy) + 2 * cx && q == 12 * cy + 3 * cx
    requires Readable(img, x, y, cy, cx) && p1 == img.pixels[p + 1] && p2 == img.pixels[p]
    requires block[..] == GatheredUpTo(prev, img, x, y, xEnd, yEnd, cy, cx)
    modifies block
    ensures block[..] == GatheredUpTo(prev, img, x, y, xEnd, yEnd, cy, cx + 1)
  {
    var rgb := Expand565(p2, p1);
    ghost var b := block[..];
    GatherStep(prev, img, x, y, xEnd, yEnd, cy, cx, b, p, q, rgb);
    block[q] := rgb[0];
    block[q + 1] := rgb[1];
    block[q + 2] := rgb[2];
    assert block[..] == b[q := rgb[0]][q + 1 := rgb[1]][q + 2 := rgb[2]];
  }

  /**
   * One row of encodeImage's gather (pixelSize 2): the try block's cx loop.
   * A read outside the buffer throws; the catch ends the row.
   */
  method GatherRow(img: Raster, block: array<JByte>, x: int, y: int, xEnd: int, yEnd: int, cy: int, ghost prev: seq<JByte>)
    requires block.Length == 48 && |prev| == 48 && 0 <= cy < yEnd <= 4 && 0 <= xEnd <= 4
    requires block[..] == GatheredUpTo(prev, img, x, y, xEnd, yEnd, cy, 0)
    modifies block
    ensures block[..] == GatheredUpTo(prev, img, x, y, xEnd, yEnd, cy + 1, 0)
  {
    var q := (cy * 4) * 3;
    var p := 2 * x + img.stride * (y + cy);
    var cx := 0;
    while cx < xEnd
      invariant 0 <= cx <= xEnd
      invariant q == 12 * cy + 3 * cx && p == RowStart(img, x, y, cy) + 2 * cx
      invariant cx == 0 || Readable(img, x, y, cy, cx - 1)
      invariant block[..] == GatheredUpTo(prev, img, x, y, xEnd, yEnd, cy, cx)
    {
      if !(0 <= p + 1 < |img.pixels|) || !(0 <= p < |img.pixels|) {
        break;
      }
      var p1 := img.pixels[p + 1];
      var p2 := img.pixels[p];
      StorePixel(img, block, x, y, xEnd, yEnd, cy, cx, p, q, p1, p2, prev);
      q := q + 3;
      p := p + 2;
      cx := cx + 1;
    }
    GatherRowEnd(prev, img, x, y, xEnd, yEnd, cy, cx);
  }

  /** encodeImage's cy loop (pixelSize 2) for the block at (x, y): every row is gathered. */
  method GatherBlock(img: Raster, block: array<JByte>, x: int, y: int, xEnd: int, yEnd: int)
    requires block.Length == 48 && 0 <= xEnd <= 4 && 0 <= yEnd <= 4
    modifies block
    ensures block[..] == Gathered(old(block[..]), img, x, y, xEnd, yEnd)
  {
    ghost var prev := block[..];
    GatheredNothing(prev, img, x, y, xEnd, yEnd);
    var cy := 0;
    while cy < yEnd
      invariant 0 <= cy <= yEnd
      invariant block[..] == GatheredUpTo(prev, img, x, y, xEnd, yEnd, cy, 0)
    {
      GatherRow(img, block, x, y, xEnd, yEnd, cy, prev);
      cy := cy + 1;
    }
  }

  /** Before the first row nothing is gathered. */
  lemma GatheredNothing(prev: seq<JByte>, img: Raster, x: int, y: int, xEnd: int, yEnd: int)
    requires |prev| == 48
    ensures GatheredUpTo(prev, img, x, y, xEnd, yEnd, 0, 0) == prev
  {
    var b := GatheredUpTo(prev, img, x, y, xEnd, yEnd, 0, 0);
    forall i | 0 <= i < 48
      ensures b[i] == prev[i]
    {
    }
  }

  // ---------------------------------------------------------------------
  // encodeImage
  // ---------------------------------------------------------------------

  /** Java ints for the image's width and height. */
  predicate IsRaster(img: Raster) {
    IsInt(img.width) && IsInt(img.height)
  }

  /** What encodeImage passes to encodeBlock for one block: the block array's contents and the mask. */
  datatype BlockInput = BlockInput(pixels: seq<JByte>, xEnd: int, yEnd: int)

  predicate IsBlockInput(b: BlockInput) {
    |b.pixels| == 48 && 0 <= b.xEnd <= 4 && 0 <= b.yEnd <= 4
  }

  predicate IsBlockInputs(bs: seq<BlockInput>) {
    forall k :: 0 <= k < |bs| ==> IsBlockInput(bs[k])
  }

  /** The block array before the next block: what the last block left in it, or a fresh (zeroed) array. */
  function LastBlock(bs: seq<BlockInput>): (b: seq<JByte>)
    requires IsBlockInputs(bs)
    ensures |b| == 48
  {
    if |bs| == 0 then Zeros(48) else bs[|bs| - 1].pixels
  }

  /** The block at (x, y) gathered over the array contents prev, with its edge mask. */
  function BlockAt(img: Raster, prev: seq<JByte>, x: int, y: int): (b: BlockInput)
    requires IsRaster(img) && |prev| == 48 && 0 <= x < img.width && 0 <= y < img.height
    ensures IsBlockInput(b)
  {
    var xEnd := EdgeEnd(img.width, x);
    var yEnd := EdgeEnd(img.height, y);
    BlockInput(Gathered(prev, img, x, y, xEnd, yEnd), xEnd, yEnd)
  }

  /** The blocks `done` of the rows above, then the first n blocks of the row at y, left to right. */
  function RowBlocks(img: Raster, done: seq<BlockInput>, y: int, n: int): (bs: seq<BlockInput>)
    requires IsRaster(img) && IsBlockInputs(done) && 0 <= y < img.height && 0 <= n <= BlockCount(img.width)
    ensures IsBlockInputs(bs) && |bs| == |done| + n
    decreases n
  {
    if n == 0 then done
    else
      var bs := RowBlocks(img, done, y, n - 1);
      bs + [BlockAt(img, LastBlock(bs), 4 * (n - 1), y)]
  }

  /** The blocks of the first m block rows, top to bottom. */
  function ImageBlocks(img: Raster, m: int): (bs: seq<BlockInput>)
    requires IsRaster(img) && 0 <= m <= BlockCount(img.height)
    ensures IsBlockInputs(bs)
    decreases m
  {
    if m == 0 then [] else RowBlocks(img, ImageBlocks(img, m - 1), 4 * (m - 1), BlockCount(img.width))
  }

  /** The first m block rows hold BlockCount(width) blocks each. */
  lemma {:induction false} ImageBlocksCount(img: Raster, m: int)
    requires IsRaster(img) && 0 <= m <= BlockCount(img.height)
    ensures |ImageBlocks(img, m)| == m * BlockCount(img.width)
    decreases m
  {
    if m > 0 {
      ImageBlocksCount(img, m - 1);
      MulStep(m, BlockCount(img.width));
    }
  }

  lemma MulStep(m: int, n: int)
    ensures m * n == (m - 1) * n + n
  {
  }

  /** 8 bytes for each of the BlockCount(height) * BlockCount(width) blocks is the encoded data size. */
  lemma ImageCodeLength(width: int, height: int, blocks: int, len: int)
    requires 0 <= width <= IntMax - 3 && 0 <= height <= IntMax - 3 && RoundUp4(width) * RoundUp4(height) <= IntMax
    requires blocks == BlockCount(height) * BlockCount(width) && len == 8 * blocks
    ensures len == EncodedDataSize(width, height)
  {
    EncodedDataSizeBlocks(width, height);
    EightBlocks(BlockCount(width), BlockCount(height));
  }

  lemma EightBlocks(a: int, b: int)
    ensures 8 * (b * a) == 8 * a * b
  {
  }

  /** q is the encoding of the block with the mask (stated so that callers do not unfold the encoder). */
  predicate IsBlockCode(q: seq<int>, block: seq<int>, mask: bv32) {
    IsBlock(block) && forall m {:trigger EncodeBlock(block, m)} :: m == mask ==> q == EncodeBlock(block, m)
  }

  /** q holds, 8 bytes per block, the encodings of the blocks bs. */
  predicate IsImageCode(q: seq<int>, bs: seq<BlockInput>)
    requires IsBlockInputs(bs)
  {
    |q| == 8 * |bs| &&
    forall k :: 0 <= k < |bs| ==> IsBlockCode(q[8 * k..8 * k + 8], BlockOf(bs[k].pixels), BlockMask(bs[k].xEnd, bs[k].yEnd))
  }

  lemma ImageCodeStart()
    ensures IsImageCode([], [])
  {
  }

  lemma ImageCodeStep(bs: seq<BlockInput>, b: BlockInput, q: seq<int>, code: seq<int>)
    requires IsBlockInputs(bs) && IsImageCode(q, bs) && IsBlockInput(b) && |code| == 8 && IsBlockCode(code, BlockOf(b.pixels), BlockMask(b.xEnd, b.yEnd))
    ensures IsImageCode(q + code, bs + [b])
  {
    var cs := bs + [b];
    var r := q + code;
    forall k | 0 <= k < |cs|
      ensures IsBlockCode(r[8 * k..8 * k + 8], BlockOf(cs[k].pixels), BlockMask(cs[k].xEnd, cs[k].yEnd))
    {
      if k < |bs| {
        assert r[8 * k..8 * k + 8] == q[8 * k..8 * k + 8];
      } else {
        assert r[8 * k..8 * k + 8] == code;
      }
    }
  }

  lemma UnsignedConcat(a: seq<JByte>, b: seq<JByte>)
    ensures UnsignedBytes(a + b) == UnsignedBytes(a) + UnsignedBytes(b)
  {
    assert UnsignedBytes(a + b) == UnsignedBytes(a) + UnsignedBytes(b);
  }

  /**
   * encodeBlock(block, mask, encoded) followed by compressedImage.put(encoded):
   * the 8 bytes put, for the block array holding pixels.
   */
  method EmitBlock(pixels: seq<JByte>, mask: bv32, encoded: array<JByte>, ghost xEnd: int, ghost yEnd: int)
    returns (bytes: seq<JByte>)
    requires |pixels| == 48 && encoded.Length == 8
    requires 0 <= xEnd <= 4 && 0 <= yEnd <= 4 && mask == BlockMask(xEnd, yEnd)
    modifies encoded
    ensures |bytes| == 8 && IsBlockCode(UnsignedBytes(bytes), BlockOf(pixels), BlockMask(xEnd, yEnd))
  {
    JavaEtc1Block.EncodeBlock(pixels, mask, encoded);
    bytes := encoded[..8];
  }

  /** n zero bytes, what new byte[n] holds. */
  function Zeros(n: nat): (z: seq<JByte>)
    ensures |z| == n
  {
    seq(n, _ => 0)
  }

  /** The blocks encodeImage has gathered when the block at (4 * col, 4 * row) is next. */
  ghost function BlocksBefore(img: Raster, col: int, row: int): (bs: seq<BlockInput>)
    requires IsRaster(img) && 0 <= row < BlockCount(img.height) && 0 <= col <= BlockCount(img.width)
    ensures IsBlockInputs(bs)
  {
    RowBlocks(img, ImageBlocks(img, row), 4 * row, col)
  }

  /**
   * The state encodeImage keeps between blocks, before the block at
   * (x, y) = (4 * col, 4 * row): the bytes put are the encodings of the
   * blocks so far and the block array (blk) holds the last of them.
   */
  ghost predicate BlockLoop(img: Raster, blk: seq<JByte>, out: seq<JByte>, col: int, row: int)
    requires IsRaster(img)
  {
    0 <= row < BlockCount(img.height) && 0 <= col <= BlockCount(img.width) &&
    blk == LastBlock(BlocksBefore(img, col, row)) && IsImageCode(UnsignedBytes(out), BlocksBefore(img, col, row))
  }

  /** The same state between block rows, before the row at y = 4 * row. */
  ghost predicate RowLoop(img: Raster, blk: seq<JByte>, out: seq<JByte>, row: int)
    requires IsRaster(img)
  {
    0 <= row <= BlockCount(img.height) &&
    blk == LastBlock(ImageBlocks(img, row)) && IsImageCode(UnsignedBytes(out), ImageBlocks(img, row))
  }

  /** A loop over v = 0, 4, ... while v < (size + 3) & ~3 visits exactly the blocks k = v / 4, each starting inside the image. */
  lemma BlockStart(size: int, k: int)
    requires IsInt(size) && 0 <= k
    ensures 4 * k < RoundUp4(size) <==> k < BlockCount(size)
    ensures 4 * k < RoundUp4(size) ==> 4 * k < size && 4 * k + 4 <= RoundUp4(size)
  {
  }

  lemma RowLoopStart(img: Raster)
    requires IsRaster(img)
    ensures RowLoop(img, Zeros(48), [], 0)
  {
    ImageCodeStart();
  }

  lemma RowToBlocks(img: Raster, blk: seq<JByte>, out: seq<JByte>, row: int)
    requires IsRaster(img) && RowLoop(img, blk, out, row) && 4 * row < RoundUp4(img.height)
    ensures BlockLoop(img, blk, out, 0, row)
  {
    BlockStart(img.height, row);
  }

  lemma BlocksToRow(img: Raster, blk: seq<JByte>, out: seq<JByte>, col: int, row: int)
    requires IsRaster(img) && BlockLoop(img, blk, out, col, row) && !(4 * col < RoundUp4(img.width))
    ensures RowLoop(img, blk, out, row + 1)
  {
    BlockStart(img.width, col);
    assert col == BlockCount(img.width);
  }

  /** After the last block row the bytes put are the image's blocks. */
  lemma RowLoopDone(img: Raster, blk: seq<JByte>, out: seq<JByte>, row: int)
    requires IsRaster(img) && RowLoop(img, blk, out, row) && !(4 * row < RoundUp4(img.height))
    ensures IsImageCode(UnsignedBytes(out), ImageBlocks(img, BlockCount(img.height)))
  {
    BlockStart(img.height, row);
  }

  /** The block just gathered and encoded extends the loop state to the next block. */
  lemma BlockLoopStep(img: Raster, prev: seq<JByte>, blk: seq<JByte>, out: seq<JByte>, bytes: seq<JByte>,
                      col: int, row: int, xEnd: int, yEnd: int)
    requires IsRaster(img) && BlockLoop(img, prev, out, col, row) && 4 * col < RoundUp4(img.width)
    requires 0 <= 4 * col < img.width && 0 <= 4 * row < img.height
    requires xEnd == EdgeEnd(img.width, 4 * col) && yEnd == EdgeEnd(img.height, 4 * row)
    requires |prev| == 48 && blk == Gathered(prev, img, 4 * col, 4 * row, xEnd, yEnd)
    requires |bytes| == 8 && IsBlockCode(UnsignedBytes(bytes), BlockOf(blk), BlockMask(xEnd, yEnd))
    ensures BlockLoop(img, blk, out + bytes, col + 1, row)
  {
    BlockStart(img.width, col);
    var bs := BlocksBefore(img, col, row);
    var b := BlockInput(blk, xEnd, yEnd);
    assert bs + [b] == BlocksBefore(img, col + 1, row);
    ImageCodeStep(bs, b, UnsignedBytes(out), UnsignedBytes(bytes));
    UnsignedConcat(out, bytes);
  }

  /**
   * One iteration of encodeImage's x loop: the edge mask, the cy loop, then
   * encodeBlock and compressedImage.put.
   */
  method EncodeBlockAt(img: Raster, block: array<JByte>, encoded: array<JByte>, x: int, y: int, yEnd: int, ymask: bv32)
    returns (bytes: seq<JByte>, xEnd: int, ghost pixels: seq<JByte>)
    requires block.Length == 48 && encoded.Length == 8 && block != encoded
    requires x < img.width && y < img.height
    requires yEnd == EdgeEnd(img.height, y) && ymask == KYMask(yEnd)
    modifies block, encoded
    ensures xEnd == EdgeEnd(img.width, x)
    ensures block[..] == pixels && pixels == Gathered(old(block[..]), img, x, y, xEnd, yEnd)
    ensures |bytes| == 8 && IsBlockCode(UnsignedBytes(bytes), BlockOf(pixels), BlockMask(xEnd, yEnd))
  {
    xEnd := img.width - x;
    if xEnd > 4 {
      xEnd := 4;
    }
    var mask := ymask & KXMask(xEnd);
    GatherBlock(img, block, x, y, xEnd, yEnd);
    pixels := block[..];
    bytes := EmitBlock(block[..], mask, encoded, xEnd, yEnd);
  }

  /** One pass of encodeImage's x loop: the block at (x, y) = (4 * col, 4 * row) encoded and appended. */
  method EncodeRowStep(img: Raster, block: array<JByte>, encoded: array<JByte>, x: int, y: int,
                       yEnd: int, ymask: bv32, out: seq<JByte>, ghost col: int, ghost row: int)
    returns (out': seq<JByte>)
    requires block.Length == 48 && encoded.Length == 8 && block != encoded
    requires IsRaster(img) && BlockLoop(img, block[..], out, col, row) && x == 4 * col && y == 4 * row
    requires x < RoundUp4(img.width) && yEnd == EdgeEnd(img.height, y) && ymask == KYMask(yEnd)
    modifies block, encoded
    ensures BlockLoop(img, block[..], out', col + 1, row)
  {
    BlockStart(img.width, col);
    ghost var prev := block[..];
    var bytes, xEnd;
    ghost var pixels;
    bytes, xEnd, pixels := EncodeBlockAt(img, block, encoded, x, y, yEnd, ymask);
    BlockLoopStep(img, prev, pixels, out, bytes, col, row, xEnd, yEnd);
    out' := out + bytes;
  }

  /** encodeImage's x loop for the block row at y = 4 * row, from the block at column col on. */
  method EncodeRowBlocks(img: Raster, block: array<JByte>, encoded: array<JByte>, encodedWidth: int, y: int,
                         yEnd: int, ymask: bv32, out: seq<JByte>, ghost row: int)
    returns (out': seq<JByte>, ghost col: int)
    requires block.Length == 48 && encoded.Length == 8 && block != encoded
    requires IsRaster(img) && BlockLoop(img, block[..], out, 0, row) && y == 4 * row
    requires encodedWidth == RoundUp4(img.width) && yEnd == EdgeEnd(img.height, y) && ymask == KYMask(yEnd)
    modifies block, encoded
    ensures BlockLoop(img, block[..], out', col, row) && !(4 * col < RoundUp4(img.width))
  {
    out' := out;
    var x := 0;
    col := 0;
    while x < encodedWidth
      invariant x == 4 * col
      invariant BlockLoop(img, block[..], out', col, row)
    {
      out' := EncodeRowStep(img, block, encoded, x, y, yEnd, ymask, out', col, row);
      x, col := x + 4, col + 1;
    }
  }

  /** One block row of encodeImage: the row's edge mask, then the x loop over its blocks. */
  method EncodeRow(img: Raster, block: array<JByte>, encoded: array<JByte>, encodedWidth: int, y: int,
                   out: seq<JByte>, ghost row: int)
    returns (out': seq<JByte>)
    requires block.Length == 48 && encoded.Length == 8 && block != encoded
    requires IsRaster(img) && RowLoop(img, block[..], out, row) && y == 4 * row && y < RoundUp4(img.height)
    requires encodedWidth == RoundUp4(img.width)
    modifies block, encoded
    ensures RowLoop(img, block[..], out', row + 1)
  {
    RowToBlocks(img, block[..], out, row);
    var yEnd := img.height - y;
    if yEnd > 4 {
      yEnd := 4;
    }
    var ymask := KYMask(yEnd);
    ghost var col;
    out', col := EncodeRowBlocks(img, block, encoded, encodedWidth, y, yEnd, ymask, out, row);
    BlocksToRow(img, block[..], out', col, row);
  }

  /** new byte[n]: a fresh array of n zero bytes. */
  method NewBytes(n: nat) returns (a: array<JByte>)
    ensures fresh(a) && a[..] == Zeros(n)
  {
    a := new JByte[n](_ => 0);
    assert a[..] == Zeros(n);
  }

  /** encodeImage's y loop (pixelSize 2): the bytes put are the encodings of the image's blocks, row by row. */
  method EncodeRows(img: Raster) returns (out: seq<JByte>)
    requires IsRaster(img)
    ensures IsImageCode(UnsignedBytes(out), ImageBlocks(img, BlockCount(img.height)))
  {
    var block := NewBytes(48);
    var encoded := NewBytes(8);
    var encodedWidth := RoundUp4(img.width);
    var encodedHeight := RoundUp4(img.height);
    out := [];
    RowLoopStart(img);
    var y := 0;
    ghost var row := 0;
    while y < encodedHeight
      invariant y == 4 * row
      invariant RowLoop(img, block[..], out, row)
    {
      out := EncodeRow(img, block, encoded, encodedWidth, y, out, row);
      y, row := y + 4, row + 1;
    }
    RowLoopDone(img, block[..], out, row);
  }

  /** encodeImage's return value and what it wrote. */
  datatype EncodeResult =
    | BadPixelSize              // returns -1
    | Thrown                    // an exception leaves encodeImage
    | Done(data: seq<JByte>)    // returns 0 after putting data

  /**
   * encodeImage: -1 for a pixel size other than 2 or 3.  With pixelSize 3
   * the gather hands System.arraycopy a ByteBuffer, which throws on the
   * first block, before anything is put; an image without blocks is
   * returned unchanged.  With pixelSize 2 the bytes put are the blocks'
   * encodings row by row.
   */
  method EncodeImage(pIn: seq<JByte>, width: int, height: int, pixelSize: int, stride: int) returns (r: EncodeResult)
    requires IsInt(width) && IsInt(height)
    ensures (pixelSize < 2 || pixelSize > 3) ==> r == BadPixelSize
    ensures pixelSize == 3 ==> r == (if BlockCount(width) > 0 && BlockCount(height) > 0 then Thrown else Done([]))
    ensures pixelSize == 2 ==> r.Done? && IsImageCode(UnsignedBytes(r.data), ImageBlocks(Raster(pIn, width, height, stride), BlockCount(height)))
    ensures pixelSize == 2 && 0 <= width <= IntMax - 3 && 0 <= height <= IntMax - 3 && RoundUp4(width) * RoundUp4(height) <= IntMax
      ==> |r.data| == EncodedDataSize(width, height)
  {
    if pixelSize < 2 || pixelSize > 3 {
      return BadPixelSize;
    }
    if pixelSize == 3 {
      if RoundUp4(height) > 0 && RoundUp4(width) > 0 {
        return Thrown;
      }
      return Done([]);
    }
    var img := Raster(pIn, width, height, stride);
    var out := EncodeRows(img);
    ImageBlocksCount(img, BlockCount(height));
    if 0 <= width <= IntMax - 3 && 0 <= height <= IntMax - 3 && RoundUp4(width) * RoundUp4(height) <= IntMax {
      ImageCodeLength(width, height, |ImageBlocks(img, BlockCount(height))|, |out|);
    }
    return Done(out);
  }
}
