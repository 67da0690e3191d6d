/**
 * The kernel side of the RenderScript encoder around etc1_encode_block.
 * pullBlockAndMask_from_Raster maps a kernel index to a mip level and a block
 * of it, gathers the block's pixels and computes its mask;
 * pullBlockAndMask_from_DXT3 is a stub; the root kernel encodes one block and
 * packs its 8 bytes into four 16-bit lanes.  The script globals (pInA, width,
 * height, pixelSize, containMipmaps) become parameters.
 *
 * The descent loop and the encodedHeight computation are modelled twice: as
 * written (DescendAsWritten, LocateAsWritten), with lemmas exhibiting what
 * goes wrong, and corrected (Descend, Locate), which the kernel model uses.
 */
module RsEtc1Raster {
  import opened Etc1
  import opened RsEtc1
  import RsEtc1Block

  /** kYMask: the bits of rows 0 .. yEnd - 1 of a block. */
  const YMasks: seq<bv32> := [0x0, 0xf, 0xff, 0xfff, 0xffff]

  /** kXMask: the bits of columns 0 .. xEnd - 1 of a block. */
  const XMasks: seq<bv32> := [0x0, 0x1111, 0x3333, 0x7777, 0xffff]

  // ---------------------------------------------------------------------
  // Mip level
  // ---------------------------------------------------------------------

  /** widthMP * heightMP / 16: the block count the descent gives a level. */
  function LevelBlocks(width: nat, height: nat): nat {
    width * height / 16
  }

  /** The blocks of the levels from (width, height) down, until a level counts none. */
  function ChainBlocks(width: nat, height: nat): nat
    decreases width
  {
    if width == 0 || LevelBlocks(width, height) == 0 then 0
    else LevelBlocks(width, height) + ChainBlocks(width / 2, height / 2)
  }

  /** What the descent leaves: the block index within the level, the level's size and the byte offset of its pixels. */
  datatype Level = Level(bn: nat, width: nat, height: nat, offset: nat)

  /**
   * The descent as written: while bnMP > widthMP * heightMP / 16 it subtracts
   * the level's count, moves the pointer by widthMP * heightMP * 2 bytes and
   * halves both sizes.  The index stays within the level or one past its
   * last block, and as many blocks of the chain follow it as followed bn.
   */
  function DescendAsWritten(bn: nat, width: nat, height: nat, offset: nat): (l: Level)
    requires bn <= ChainBlocks(width, height)
    ensures l.bn <= LevelBlocks(l.width, l.height)
    ensures ChainBlocks(l.width, l.height) - l.bn == ChainBlocks(width, height) - bn
    decreases width
  {
    if bn > LevelBlocks(width, height) then
      DescendAsWritten(bn - LevelBlocks(width, height), width / 2, height / 2, offset + width * height * 2)
    else
      Level(bn, width, height, offset)
  }

  /**
   * The descent with the evidently intended test bnMP >= widthMP * heightMP / 16:
   * the index lands on a block of a level with whole blocks, and as many
   * blocks of the chain follow it as followed bn.
   */
  function Descend(bn: nat, width: nat, height: nat, offset: nat): (l: Level)
    requires bn < ChainBlocks(width, height)
    ensures l.bn < LevelBlocks(l.width, l.height) && 0 < l.width && 0 < l.height
    ensures ChainBlocks(l.width, l.height) - l.bn == ChainBlocks(width, height) - bn
    decreases width
  {
    if bn >= LevelBlocks(width, height) then
      Descend(bn - LevelBlocks(width, height), width / 2, height / 2, offset + width * height * 2)
    else
      Level(bn, width, height, offset)
  }

  /**
   * The first blocks of every level that is not the last: as written, the
   * index a level's block count gives stays in that level, one past its last
   * block, instead of moving to block 0 of the next level.
   */
  lemma AsWrittenStaysPastLevel(width: nat, height: nat)
    requires LevelBlocks(width, height) > 0 && LevelBlocks(width / 2, height / 2) > 0
    ensures DescendAsWritten(LevelBlocks(width, height), width, height, 0) == Level(LevelBlocks(width, height), width, height, 0)
    ensures Descend(LevelBlocks(width, height), width, height, 0) == Descend(0, width / 2, height / 2, width * height * 2)
  {
  }

  /**
   * An 8 x 8 image with mipmaps: kernel index 4 is level 0's fifth block as
   * written, level 1's first block as intended. As written it is located on
   * block row 2 of the 8 x 8 level, the edge test fires and the mask is 0.
   */
  lemma AsWrittenMipIndex4()
    ensures DescendAsWritten(4, 8, 8, 0) == Level(4, 8, 8, 0)
    ensures Descend(4, 8, 8, 0) == Level(0, 4, 4, 128)
    ensures LocateAsWritten(DescendAsWritten(4, 8, 8, 0)) == Location(8, 8, 0, 2, 4, 0)
    ensures MaskOf(LocateAsWritten(DescendAsWritten(4, 8, 8, 0))) == 0
  {
    assert ChainBlocks(8, 8) == 5 by {
      assert ChainBlocks(4, 4) == 1 by {
        assert ChainBlocks(2, 2) == 0;
      }
    }
  }

  /** The loop of pullBlockAndMask_from_Raster that walks down the mip chain, with the intended >= test. */
  method FindLevel(bn: nat, width: nat, height: nat, containMipmaps: bool) returns (l: Level)
    requires containMipmaps ==> bn < ChainBlocks(width, height)
    ensures l == if containMipmaps then Descend(bn, width, height, 0) else Level(bn, width, height, 0)
  {
    var bnMP: nat := bn;
    var widthMP: nat := width;
    var heightMP: nat := height;
    var pInMP: nat := 0;
    if containMipmaps {
      while bnMP >= widthMP * heightMP / 16
        invariant bnMP < ChainBlocks(widthMP, heightMP)
        invariant Descend(bnMP, widthMP, heightMP, pInMP) == Descend(bn, width, height, 0)
        decreases widthMP
      {
        bnMP := bnMP - widthMP * heightMP / 16;
        pInMP := pInMP + widthMP * heightMP * 2;
        widthMP := widthMP / 2;
        heightMP := heightMP / 2;
      }
    }
    l := Level(bnMP, widthMP, heightMP, pInMP);
  }

  // ---------------------------------------------------------------------
  // Block location and mask
  // ---------------------------------------------------------------------

  /** (v + 3) & ~3: v rounded up to a multiple of 4. */
  function RoundUp4(v: nat): (r: nat)
    ensures r % 4 == 0 && v <= r < v + 4
  {
    (v + 3) / 4 * 4
  }

  /** a - (a / n) * n is Euclidean division's remainder: it lies in [0, n). */
  lemma QuotientRemainder(a: nat, n: int)
    requires 0 < n
    ensures 0 <= a / n && 0 <= a - a / n * n < n
  {
    assert a == a / n * n + a % n;
  }

  /** The padded level size, the block's column and row, and how many of its columns and rows the code gathers. */
  datatype Location = Location(encodedWidth: int, encodedHeight: int, blockX: int, blockY: int, xEnd: int, yEnd: int)

  /**
   * The block location as written: encodedHeight is computed from widthMP.
   * by and bx are the quotient and remainder of bnMP by the blocks per
   * padded row, so bx never reaches encodedWidth / 4 and xEnd is always 4.
   */
  function LocateAsWritten(l: Level): (loc: Location)
    requires 0 < l.width
    ensures l.bn == loc.blockY * (loc.encodedWidth / 4) + loc.blockX && 0 <= loc.blockX < loc.encodedWidth / 4 && 0 <= loc.blockY
    ensures loc.xEnd == 4
  {
    var encodedWidth := RoundUp4(l.width);
    var encodedHeight := RoundUp4(l.width);
    var blockY := l.bn / (encodedWidth / 4);
    var blockX := l.bn - blockY * (encodedWidth / 4);
    QuotientRemainder(l.bn, encodedWidth / 4);
    var yEnd := if blockY == encodedHeight / 4 then encodedHeight - l.height else 4;
    var xEnd := if blockX == encodedWidth / 4 then encodedWidth - l.width else 4;
    Location(encodedWidth, encodedHeight, blockX, blockY, xEnd, yEnd)
  }

  /** The block location with encodedHeight computed from heightMP. */
  function Locate(l: Level): (loc: Location)
    requires 0 < l.width
    ensures l.bn == loc.blockY * (loc.encodedWidth / 4) + loc.blockX && 0 <= loc.blockX < loc.encodedWidth / 4 && 0 <= loc.blockY
    ensures loc.xEnd == 4 && loc.encodedHeight == RoundUp4(l.height)
  {
    var encodedWidth := RoundUp4(l.width);
    var encodedHeight := RoundUp4(l.height);
    var blockY := l.bn / (encodedWidth / 4);
    var blockX := l.bn - blockY * (encodedWidth / 4);
    QuotientRemainder(l.bn, encodedWidth / 4);
    var yEnd := if blockY == encodedHeight / 4 then encodedHeight - l.height else 4;
    var xEnd := if blockX == encodedWidth / 4 then encodedWidth - l.width else 4;
    Location(encodedWidth, encodedHeight, blockX, blockY, xEnd, yEnd)
  }

  /**
   * A 4 x 8 image without mipmaps, kernel index 1 (its second block): as
   * written yEnd is 4 - 8 = -4, an index outside kYMask; as intended the
   * block is row 1 of 2 and is gathered whole.
   */
  lemma AsWrittenHeightFromWidth()
    ensures LocateAsWritten(Level(1, 4, 8, 0)).yEnd == -4
    ensures Locate(Level(1, 4, 8, 0)) == Location(4, 8, 0, 1, 4, 4)
  {
  }

  /** ymask & kXMask[xEnd]. */
  function MaskOf(loc: Location): bv32
    requires 0 <= loc.xEnd <= 4 && 0 <= loc.yEnd <= 4
  {
    YMasks[loc.yEnd] & XMasks[loc.xEnd]
  }

  /** w * h / 16 <= (W / 4) * (H / 4) when w <= W, h <= H and W, H are multiples of 4. */
  lemma LevelFitsPadded(w: nat, h: nat, ew: nat, eh: nat)
    requires w <= ew && h <= eh && ew % 4 == 0 && eh % 4 == 0
    ensures w * h / 16 <= (ew / 4) * (eh / 4)
  {
    assert w * h <= ew * h <= ew * eh;
    assert ew * eh == 16 * ((ew / 4) * (eh / 4));
  }

  /** q * d + r with 0 <= r < d and q * d + r < d * n: q < n. */
  lemma QuotientBelow(v: int, q: int, r: int, d: int, n: int)
    requires 0 < d && 0 <= r < d && 0 <= q && v == q * d + r && v < d * n
    ensures q < n
  {
    if q >= n {
      MulMono(d, n, q);
    }
  }

  /**
   * With the intended encodedHeight, every block of a level lies in a row
   * below encodedHeight / 4, so the edge test never fires: the code gathers
   * all 4 x 4 pixels and the mask is 0xffff.
   */
  lemma LocateInside(l: Level)
    requires l.bn < LevelBlocks(l.width, l.height) && 0 < l.width
    ensures var loc := Locate(l);
      loc.blockY < loc.encodedHeight / 4 && loc.xEnd == 4 && loc.yEnd == 4 && MaskOf(loc) == 0xffff
  {
    var loc := Locate(l);
    LevelFitsPadded(l.width, l.height, loc.encodedWidth, loc.encodedHeight);
    QuotientBelow(l.bn, loc.blockY, loc.blockX, loc.encodedWidth / 4, loc.encodedHeight / 4);
  }

  // ---------------------------------------------------------------------
  // Pixel gather
  // ---------------------------------------------------------------------

  /** Where a block's pixels come from: the raster, the bytes per pixel, the level's offset and row stride, and the block's corner. */
  datatype Source = Source(pIn: seq<U8>, pixelSize: nat, offset: nat, stride: nat, x: nat, y: nat, xEnd: int, yEnd: int)

  /** p for pixel (cx, cy): pInMP + pixelSize * x + stride * (y + cy), advanced by pixelSize per pixel. */
  function PixelStart(src: Source, cx: nat, cy: nat): int {
    src.offset + src.pixelSize * src.x + src.stride * (src.y + cy) + src.pixelSize * cx
  }

  /** The bytes read for pixel (cx, cy) lie in the raster: p[0], p[1] for RGB565, p[0] .. p[2] otherwise. */
  predicate Readable(src: Source, cx: nat, cy: nat) {
    PixelStart(src, cx, cy) + (if src.pixelSize == 2 then 1 else 2) < |src.pIn|
  }

  /** Every pixel the gather visits is readable. */
  predicate AllReadable(src: Source) {
    forall cx: nat, cy: nat :: cx < src.xEnd && cy < src.yEnd ==> Readable(src, cx, cy)
  }

  /**
   * The RGB565 pixel (p[1] << 8) | p[0] expanded to convert5To8(pixel >> 11),
   * convert6To8(pixel >> 5), convert5To8(pixel): each channel's top bits are
   * its field of the pixel.
   */
  function Expand565(lo: U8, hi: U8): (rgb: seq<U8>)
    ensures |rgb| == 3
    ensures rgb[0] as int / 8 == hi as int / 8
    ensures rgb[1] as int / 4 == (hi as int % 8) * 8 + lo as int / 32
    ensures rgb[2] as int / 8 == lo as int % 32
  {
    var pixel := hi as int * 256 + lo as int;
    Channels565(hi as int, lo as int);
    [Convert5To8(pixel / 2048) as U8, Convert6To8(pixel / 32) as U8, Convert5To8(pixel) as U8]
  }

  /** The three block bytes for pixel (cx, cy): the 565 expansion, or the first three bytes as R, G, B (alpha is skipped). */
  function PixelBytes(src: Source, cx: nat, cy: nat): (rgb: seq<U8>)
    requires Readable(src, cx, cy)
    ensures |rgb| == 3
  {
    var p := PixelStart(src, cx, cy);
    if src.pixelSize == 2 then Expand565(src.pIn[p], src.pIn[p + 1])
    else [src.pIn[p], src.pIn[p + 1], src.pIn[p + 2]]
  }

  /** Whether pixel (cx, cy) is written once rows 0 .. rows - 1 and the first cols pixels of row `rows` are gathered. */
  predicate Written(src: Source, rows: int, cols: int, cx: int, cy: int) {
    cx < src.xEnd && cy < src.yEnd && (cy < rows || (cy == rows && cx < cols))
  }

  /** Byte i of the block after that much of the gather: the pixel's byte if written, prev[i] otherwise. */
  function PulledByte(prev: seq<U8>, src: Source, rows: int, cols: int, i: int): U8
    requires |prev| == 48 && 0 <= i < 48 && AllReadable(src)
  {
    var cx := (i / 3) % 4;
    var cy := (i / 3) / 4;
    if Written(src, rows, cols, cx, cy) then PixelBytes(src, cx, cy)[i % 3] else prev[i]
  }

  function PulledUpTo(prev: seq<U8>, src: Source, rows: int, cols: int): (b: seq<U8>)
    requires |prev| == 48 && AllReadable(src)
    ensures |b| == 48
  {
    seq(48, i requires 0 <= i < 48 => PulledByte(prev, src, rows, cols, i))
  }

  /**
   * The block after the gather: pixel (cx, cy) for cx < xEnd, cy < yEnd is
   * at bytes 3 * (cx + 4 * cy) .. + 2, and the other bytes keep prev (the
   * uninitialised local array of root).
   */
  function Pulled(prev: seq<U8>, src: Source): (b: seq<U8>)
    requires |prev| == 48 && AllReadable(src)
    ensures |b| == 48
  {
    PulledUpTo(prev, src, src.yEnd, 0)
  }

  /** Before the first row nothing is gathered. */
  lemma PulledNothing(prev: seq<U8>, src: Source)
    requires |prev| == 48 && AllReadable(src)
    ensures PulledUpTo(prev, src, 0, 0) == prev
  {
    var b := PulledUpTo(prev, src, 0, 0);
    forall i | 0 <= i < 48
      ensures b[i] == prev[i]
    {
    }
  }

  /** Storing pixel (cx, cy)'s three bytes extends the gathered prefix of row cy by one pixel. */
  lemma PullStep(prev: seq<U8>, src: Source, cy: nat, cx: nat, b: seq<U8>, q: int, rgb: seq<U8>)
    requires |prev| == 48 && AllReadable(src) && cy < src.yEnd <= 4 && cx < src.xEnd <= 4
    requires b == PulledUpTo(prev, src, cy, cx) && q == 12 * cy + 3 * cx
    requires rgb == PixelBytes(src, cx, cy)
    ensures b[q := rgb[0]][q + 1 := rgb[1]][q + 2 := rgb[2]] == PulledUpTo(prev, src, cy, cx + 1)
  {
    var c := b[q := rgb[0]][q + 1 := rgb[1]][q + 2 := rgb[2]];
    var d := PulledUpTo(prev, src, cy, cx + 1);
    forall i | 0 <= i < 48
      ensures c[i] == d[i]
    {
      if q <= i < q + 3 {
        ByteCell(i, cx, cy);
        assert Written(src, cy, cx + 1, cx, cy);
      } else {
        NotByteCell(i, cx, cy);
      }
    }
  }

  /** A finished row: the prefix up to pixel xEnd of row cy is the gather of rows 0 .. cy. */
  lemma PullRowEnd(prev: seq<U8>, src: Source, cy: int)
    requires |prev| == 48 && AllReadable(src) && 0 <= cy < src.yEnd && 0 <= src.xEnd
    ensures PulledUpTo(prev, src, cy, src.xEnd) == PulledUpTo(prev, src, cy + 1, 0)
  {
    var b := PulledUpTo(prev, src, cy, src.xEnd);
    var d := PulledUpTo(prev, src, cy + 1, 0);
    forall i | 0 <= i < 48
      ensures b[i] == d[i]
    {
    }
  }

  /**
   * The body of the cx loop: p[1] << 8 | p[0] expanded (pixelSize 2) or
   * p[0], p[1], p[2] copied into block[q], block[q + 1], block[q + 2].
   */
  method StorePixel(src: Source, block: array<U8>, cy: nat, cx: nat, p: int, q: int, ghost prev: seq<U8>)
    requires block.Length == 48 && |prev| == 48 && AllReadable(src) && cy < src.yEnd <= 4 && cx < src.xEnd <= 4
    requires p == PixelStart(src, cx, cy) && q == 12 * cy + 3 * cx
    requires block[..] == PulledUpTo(prev, src, cy, cx)
    modifies block
    ensures block[..] == PulledUpTo(prev, src, cy, cx + 1)
  {
    assert Readable(src, cx, cy);
    var rgb;
    if src.pixelSize == 2 {
      rgb := Expand565(src.pIn[p], src.pIn[p + 1]);
    } else {
      rgb := [src.pIn[p], src.pIn[p + 1], src.pIn[p + 2]];
    }
    ghost var b := block[..];
    PullStep(prev, src, cy, cx, b, q, rgb);
    block[q] := rgb[0];
    block[q + 1] := rgb[1];
    block[q + 2] := rgb[2];
    assert block[..] == b[q := rgb[0]][q + 1 := rgb[1]][q + 2 := rgb[2]];
  }

  /** One row of the gather: the cx loop, with q and p advancing by 3 and by pixelSize. */
  method PullRow(src: Source, block: array<U8>, cy: nat, ghost prev: seq<U8>)
    requires block.Length == 48 && |prev| == 48 && AllReadable(src) && cy < src.yEnd <= 4 && 0 <= src.xEnd <= 4
    requires block[..] == PulledUpTo(prev, src, cy, 0)
    modifies block
    ensures block[..] == PulledUpTo(prev, src, cy + 1, 0)
  {
    var q := (cy * 4) * 3;
    var p := src.offset + src.pixelSize * src.x + src.stride * (src.y + cy);
    var cx: nat := 0;
    while cx < src.xEnd
      invariant cx <= src.xEnd
      invariant q == 12 * cy + 3 * cx && p == PixelStart(src, cx, cy)
      invariant block[..] == PulledUpTo(prev, src, cy, cx)
    {
      StorePixel(src, block, cy, cx, p, q, prev);
      q := q + 3;
      p := p + src.pixelSize;
      cx := cx + 1;
    }
    PullRowEnd(prev, src, cy);
  }

  /** The cy loop of pullBlockAndMask_from_Raster. */
  method PullPixels(src: Source, block: array<U8>)
    requires block.Length == 48 && AllReadable(src) && 0 <= src.xEnd <= 4 && 0 <= src.yEnd <= 4
    modifies block
    ensures block[..] == Pulled(old(block[..]), src)
  {
    ghost var prev := block[..];
    PulledNothing(prev, src);
    var cy: nat := 0;
    while cy < src.yEnd
      invariant cy <= src.yEnd
      invariant block[..] == PulledUpTo(prev, src, cy, 0)
    {
      PullRow(src, block, cy, prev);
      cy := cy + 1;
    }
  }

  // ---------------------------------------------------------------------
  // pullBlockAndMask_from_Raster, pullBlockAndMask_from_DXT3 and root
  // ---------------------------------------------------------------------

  /** Kernel indices the host launches: one per block of the image, or of its whole mip chain. */
  function KernelBlocks(width: nat, height: nat, containMipmaps: bool): nat {
    if containMipmaps then ChainBlocks(width, height) else LevelBlocks(width, height)
  }

  /** The level the (corrected) descent selects for kernel index bn. */
  function LevelOf(bn: nat, width: nat, height: nat, containMipmaps: bool): (l: Level)
    requires bn < KernelBlocks(width, height, containMipmaps)
    ensures l.bn < LevelBlocks(l.width, l.height) && 0 < l.width && 0 < l.height
  {
    if containMipmaps then Descend(bn, width, height, 0) else Level(bn, width, height, 0)
  }

  /** The pixels the block for kernel index bn is gathered from. */
  function SourceOf(pIn: seq<U8>, pixelSize: nat, bn: nat, width: nat, height: nat, containMipmaps: bool): (src: Source)
    requires bn < KernelBlocks(width, height, containMipmaps)
    ensures src.xEnd == 4 && src.yEnd == 4
  {
    var l := LevelOf(bn, width, height, containMipmaps);
    var loc := Locate(l);
    LocateInside(l);
    Source(pIn, pixelSize, l.offset, pixelSize * l.width, loc.blockX * 4, loc.blockY * 4, loc.xEnd, loc.yEnd)
  }

  /**
   * pullBlockAndMask_from_Raster (descent and encodedHeight corrected): the
   * block for kernel index bn is gathered whole into block and the mask is
   * 0xffff.  Products are etc1_uint32 in the source; the bound on
   * width * height keeps them from wrapping.
   */
  method PullBlockAndMask(pixelSize: nat, bn: nat, pIn: seq<U8>, height: nat, width: nat, block: array<U8>, containMipmaps: bool)
    returns (mask: bv32)
    requires block.Length == 48 && width * height * 2 < 0x1_0000_0000
    requires bn < KernelBlocks(width, height, containMipmaps)
    requires AllReadable(SourceOf(pIn, pixelSize, bn, width, height, containMipmaps))
    modifies block
    ensures mask == 0xffff
    ensures block[..] == Pulled(old(block[..]), SourceOf(pIn, pixelSize, bn, width, height, containMipmaps))
  {
    var l := FindLevel(bn, width, height, containMipmaps);
    var encodedWidth := RoundUp4(l.width);
    var encodedHeight := RoundUp4(l.height);
    var blockY := l.bn / (encodedWidth / 4);
    var blockX := l.bn - blockY * (encodedWidth / 4);
    var yEnd := 4;
    if blockY == encodedHeight / 4 {
      yEnd := encodedHeight - l.height;
    }
    LocateInside(l);
    assert Locate(l) == Location(encodedWidth, encodedHeight, blockX, blockY, 4, yEnd);
    var ymask := YMasks[yEnd];
    var xEnd := 4;
    if blockX == encodedWidth / 4 {
      xEnd := encodedWidth - l.width;
    }
    mask := ymask & XMasks[xEnd];
    var stride := pixelSize * l.width;
    var x := blockX * 4;
    var y := blockY * 4;
    PullPixels(Source(pIn, pixelSize, l.offset, stride, x, y, xEnd, yEnd), block);
  }

  /** pullBlockAndMask_from_DXT3: the decode is not implemented; every pixel is reported valid. */
  function PullMaskFromDxt3(bn: nat, pIn: seq<U8>, height: nat, width: nat): (mask: bv32)
    ensures forall i :: 0 <= i < 16 ==> PixelValid(mask, i)
  {
    FullMaskValid();
    0xffff
  }

  /** Every pixel of the mask 0xffff is valid. */
  lemma FullMaskValid()
    ensures forall i :: 0 <= i < 16 ==> PixelValid(0xffff, i)
  {
    forall i | 0 <= i < 16
      ensures PixelValid(0xffff, i)
    {
      BitShift(i);
    }
  }

  /** The four 16-bit lanes of root's ushort4 result. */
  datatype UShort4 = UShort4(x: int, y: int, z: int, w: int)

  /** pOut[2k] | pOut[2k + 1] << 8: the low byte and the high byte of a lane (their bits do not overlap). */
  function Lane(lo: U8, hi: U8): (v: int)
    ensures 0 <= v < 0x1_0000 && v % 256 == lo as int && v / 256 == hi as int
  {
    lo as int + hi as int * 256
  }

  /** The 8 bytes the lanes hold, each lane low byte first, as the host copies them out. */
  function LaneBytes(out: UShort4): seq<int> {
    [out.x % 256, out.x / 256, out.y % 256, out.y / 256, out.z % 256, out.z / 256, out.w % 256, out.w / 256]
  }

  /** The lane packing of root: out.x from pOut[0..2], out.y from pOut[2..4], and so on. */
  function PackLanes(pOut: seq<U8>): (out: UShort4)
    requires |pOut| == 8
    ensures LaneBytes(out) == Ints(pOut)
  {
    UShort4(Lane(pOut[0], pOut[1]), Lane(pOut[2], pOut[3]), Lane(pOut[4], pOut[5]), Lane(pOut[6], pOut[7]))
  }

  /** etc1_encode_block into the local pOut, then the lane packing. */
  method EncodeToLanes(block: seq<U8>, mask: bv32) returns (out: UShort4)
    requires |block| == 48
    ensures LaneBytes(out) == Etc1.EncodeBlock(BlockOf(block), mask)
  {
    var pOut := new U8[8];
    RsEtc1Block.EncodeBlock(block, mask, pOut);
    out := PackLanes(pOut[..8]);
  }

  /**
   * root(x): gathers block x (pixelSize, width, height and containMipmaps
   * are the script globals; stale is what the uninitialised local block
   * array holds), encodes it with etc1_encode_block and returns its 8 bytes
   * in four lanes.
   */
  method Root(pInA: seq<U8>, height: nat, width: nat, pixelSize: nat, containMipmaps: bool, x: nat, stale: seq<U8>)
    returns (out: UShort4)
    requires |stale| == 48 && width * height * 2 < 0x1_0000_0000
    requires x < KernelBlocks(width, height, containMipmaps)
    requires AllReadable(SourceOf(pInA, pixelSize, x, width, height, containMipmaps))
    ensures LaneBytes(out) == Etc1.EncodeBlock(BlockOf(Pulled(stale, SourceOf(pInA, pixelSize, x, width, height, containMipmaps))), 0xffff)
  {
    var block := new U8[48](i requires 0 <= i < 48 => stale[i]);
    assert block[..] == stale;
    var amask := PullBlockAndMask(pixelSize, x, pInA, height, width, block, containMipmaps);
    out := EncodeToLanes(block[..], amask);
  }

  /** A block gathered whole does not depend on what the array held before: no stale byte reaches root's output. */
  lemma FullBlockIgnoresStale(prev1: seq<U8>, prev2: seq<U8>, src: Source)
    requires |prev1| == 48 && |prev2| == 48 && AllReadable(src) && src.xEnd == 4 && src.yEnd == 4
    ensures Pulled(prev1, src) == Pulled(prev2, src)
  {
    var b1 := Pulled(prev1, src);
    var b2 := Pulled(prev2, src);
    forall i | 0 <= i < 48
      ensures b1[i] == b2[i]
    {
      assert Written(src, 4, 0, (i / 3) % 4, (i / 3) / 4);
    }
  }
}
