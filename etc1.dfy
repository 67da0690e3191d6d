/**
 * Shared specification of the ETC1 4x4 block encoder (OpenGL ES extension
 * OES_compressed_ETC1_RGB8_texture).  Both the Java encoder (module JavaEtc1)
 * and the RenderScript kernel (module RsEtc1) are proved to compute the
 * functions defined here.
 *
 * A block is 16 pixels of 3 unsigned bytes (R, G, B); pixel (x, y) is number
 * x + 4 * y and starts at byte 3 * (x + 4 * y).  A 16-bit validity mask has
 * bit x + 4 * y set when pixel (x, y) takes part in the encoding.
 */
module Etc1 {

  // ---------------------------------------------------------------------
  // Tables and integer helpers
  // ---------------------------------------------------------------------

  /** The encoder's modifier table: entry 4 * t + i is modifier i of codeword t. */
  const ModifierTable: seq<int> := [
    2, 8, -2, -8,
    5, 17, -5, -17,
    9, 29, -9, -29,
    13, 42, -13, -42,
    18, 60, -18, -60,
    24, 80, -24, -80,
    33, 106, -33, -106,
    47, 183, -47, -183 ]

  /** Entry 4 * t + i of ModifierTable by its pattern a, b, -a, -b for codeword t. */
  function ModifierValue(t: int, i: int): (m: int)
    requires 0 <= t < 8 && 0 <= i < 4
  {
    var a := if t == 0 then 2 else if t == 1 then 5 else if t == 2 then 9 else if t == 3 then 13
             else if t == 4 then 18 else if t == 5 then 24 else if t == 6 then 33 else 47;
    var b := if t == 0 then 8 else if t == 1 then 17 else if t == 2 then 29 else if t == 3 then 42
             else if t == 4 then 60 else if t == 5 then 80 else if t == 6 then 106 else 183;
    if i == 0 then a else if i == 1 then b else if i == 2 then -a else -b
  }

  /** A table holding ModifierTable's 32 entries, stated entry by entry. */
  predicate IsModifierTable(table: seq<int>) {
    |table| == 32 && forall j :: 0 <= j < 32 ==> table[j] == ModifierValue(j / 4, j % 4)
  }

  /** Value of a 3-bit two's-complement delta. */
  const Lookup: seq<int> := [0, 1, 2, 3, -4, -3, -2, -1]

  /** Table 3.17.2 of the extension as printed there: -b, -a, a, b per codeword. */
  const IntensityModifierSets: seq<seq<int>> := [
    [-8, -2, 2, 8],
    [-17, -5, 5, 17],
    [-29, -9, 9, 29],
    [-42, -13, 13, 42],
    [-60, -18, 18, 60],
    [-80, -24, 24, 80],
    [-106, -33, 33, 106],
    [-183, -47, 47, 183] ]

  /** Table 3.17.3: the modifier selected by a pixel's (msb, lsb) index bits. */
  function ExtensionModifier(t: int, msb: int, lsb: int): int
    requires 0 <= t < 8 && 0 <= msb < 2 && 0 <= lsb < 2
  {
    var row := IntensityModifierSets[t];
    if msb == 1 && lsb == 1 then row[0]       // -b
    else if msb == 1 && lsb == 0 then row[1]  // -a
    else if msb == 0 && lsb == 0 then row[2]  // a
    else row[3]                               // b
  }

  /** clamp / etc1_clamp: saturate to the byte range. */
  function Clamp(x: int): (r: int)
    ensures 0 <= r <= 255
    ensures 0 <= x <= 255 ==> r == x
    ensures x < 0 ==> r == 0
    ensures x > 255 ==> r == 255
  {
    if x >= 0 then (if x < 255 then x else 255) else 0
  }

  /** Bit replication of the low 4 bits of b to 8 bits: (c << 4) | c. */
  function Convert4To8(b: int): (r: int)
    ensures 0 <= r <= 255
    ensures r / 16 == b % 16 && r % 16 == b % 16
  {
    var c := b % 16;
    c * 16 + c
  }

  /** Bit replication of the low 5 bits of b to 8 bits: (c << 3) | (c >> 2). */
  function Convert5To8(b: int): (r: int)
    ensures 0 <= r <= 255
    ensures r / 8 == b % 32 && r % 8 == (b % 32) / 4
  {
    var c := b % 32;
    c * 8 + c / 4
  }

  /** Bit replication of the low 6 bits of b to 8 bits: (c << 2) | (c >> 4). */
  function Convert6To8(b: int): (r: int)
    ensures 0 <= r <= 255
    ensures r / 4 == b % 64 && r % 4 == (b % 64) / 16
  {
    var c := b % 64;
    c * 4 + c / 16
  }

  /**
   * (d + 128 + (d >> 8)) >> 8.  For the products the encoder forms
   * (at most 255 * 31) it is the integer nearest to d / 255.
   */
  function DivideBy255(d: int): (r: int)
    ensures 0 <= d <= 7905 ==> -127 <= d - 255 * r <= 127
  {
    var q := d / 256;
    var s := d % 256;
    assert d == 256 * q + s;
    (d + 128 + q) / 256
  }

  /** Nearest 4-bit value to the low byte of b: the result is within half a step of b * 15 / 255. */
  function Convert8To4(b: int): (r: int)
    ensures 0 <= r <= 15
    ensures -127 <= (b % 256) * 15 - 255 * r <= 127
  {
    DivideBy255((b % 256) * 15)
  }

  /** Nearest 5-bit value to the low byte of b. */
  function Convert8To5(b: int): (r: int)
    ensures 0 <= r <= 31
    ensures -127 <= (b % 256) * 31 - 255 * r <= 127
  {
    DivideBy255((b % 256) * 31)
  }

  /** convertDiff: a 5-bit base plus a 3-bit two's-complement delta, expanded to 8 bits. */
  function ConvertDiff(base: int, diff: int): (r: int)
    ensures 0 <= r <= 255
    ensures r / 8 == (base % 32 + Lookup[diff % 8]) % 32
  {
    Convert5To8(base % 32 + Lookup[diff % 8])
  }

  /** Whether a 5-bit difference fits the 3-bit signed delta field. */
  predicate InRange4BitSigned(color: int) {
    -4 <= color <= 3
  }

  function Square(x: int): int {
    x * x
  }

  /** The 32-bit pattern of a small non-negative int (shift amounts, bit fields). */
  function Bv(n: int): (b: bv32)
    requires 0 <= n < 32
  {
    n as bv32
  }

  /** Bv(n) holds the value n. */
  lemma BvValue(n: int)
    requires 0 <= n < 32
    ensures Bv(n) as int == n
  {
    var b: bv8 := n as bv8;
    assert b as int == n;
  }

  // ---------------------------------------------------------------------
  // Blocks, pixels and masks
  // ---------------------------------------------------------------------

  datatype Rgb = Rgb(r: int, g: int, b: int)

  predicate IsRgb(c: Rgb) {
    0 <= c.r < 256 && 0 <= c.g < 256 && 0 <= c.b < 256
  }

  /** 48 unsigned bytes: 16 pixels of R, G, B. */
  predicate IsBlock(block: seq<int>) {
    |block| == 48 && forall i :: 0 <= i < 48 ==> 0 <= block[i] < 256
  }

  function PixelAt(block: seq<int>, i: int): (c: Rgb)
    requires IsBlock(block) && 0 <= i < 16
    ensures IsRgb(c)
  {
    Rgb(block[3 * i], block[3 * i + 1], block[3 * i + 2])
  }

  /** The word with only bit p set. */
  function Bit(p: int): bv32
    requires 0 <= p < 32
    decreases p
  {
    if p == 0 then 1 else Bit(p - 1) << 1
  }

  /** Whether bit p of w is set. */
  predicate HasBit(w: bv32, p: int)
    requires 0 <= p < 32
  {
    w & Bit(p) != 0
  }

  /** Bit i of the validity mask. */
  predicate PixelValid(mask: bv32, i: int)
    requires 0 <= i < 16
  {
    HasBit(mask, i)
  }

  /** The validity mask as one flag per pixel. */
  function ValidFlags(mask: bv32): (valid: seq<bool>)
    ensures |valid| == 16 && forall i :: 0 <= i < 16 ==> valid[i] == PixelValid(mask, i)
  {
    seq(16, i requires 0 <= i < 16 => PixelValid(mask, i))
  }

  /**
   * The eight pixels of one half of the block, in the order the encoder
   * visits them: rows by, by + 1 (x fastest) when flipped, columns bx, bx + 1
   * (x fastest) otherwise; the second half starts at row / column 2.
   */
  function HalfPixels(flipped: bool, second: bool): (ps: seq<int>)
    ensures IsPixelList(ps)
  {
    HalfPixelsUpTo(flipped, second, 8)
  }

  /** Position k of a half's visiting order. */
  function HalfPixel(flipped: bool, second: bool, k: int): (i: int)
    requires 0 <= k < 8
    ensures 0 <= i < 16 && InHalf(i, flipped, second)
  {
    var o := if second then 2 else 0;
    if flipped then k % 4 + 4 * (o + k / 4) else (o + k % 2) + 4 * (k / 2)
  }

  /** The first n pixels of a half's visiting order. */
  function HalfPixelsUpTo(flipped: bool, second: bool, n: int): (ps: seq<int>)
    requires 0 <= n <= 8
    ensures |ps| == n && forall k :: 0 <= k < n ==> 0 <= ps[k] < 16
    decreases n
  {
    if n == 0 then [] else HalfPixelsUpTo(flipped, second, n - 1) + [HalfPixel(flipped, second, n - 1)]
  }

  lemma {:induction false} HalfPixelsUpToAt(flipped: bool, second: bool, n: int)
    requires 0 <= n <= 8
    ensures forall k :: 0 <= k < n ==> HalfPixelsUpTo(flipped, second, n)[k] == HalfPixel(flipped, second, k)
    decreases n
  {
    if n > 0 {
      HalfPixelsUpToAt(flipped, second, n - 1);
    }
  }

  /** Positions k0 .. k0 + n - 1 of ps visit row y from column bx on, x fastest. */
  predicate RowRun(ps: seq<int>, k0: int, bx: int, y: int, n: int) {
    0 <= k0 && k0 + n <= |ps| && forall k :: k0 <= k < k0 + n ==> ps[k] == (bx + k - k0) + 4 * y
  }

  /** The order of a flipped half: rows y0 and y0 + 1, x fastest. */
  predicate RowsOrder(ps: seq<int>, y0: int) {
    |ps| == 8 && forall k :: 0 <= k < 8 ==> ps[k] == k % 4 + 4 * (y0 + k / 4)
  }

  /** The order of a non-flipped half: columns bx and bx + 1 of each row in turn, x fastest. */
  predicate ColumnsOrder(ps: seq<int>, bx: int) {
    |ps| == 8 && forall k :: 0 <= k < 8 ==> ps[k] == (bx + k % 2) + 4 * (k / 2)
  }

  /** HalfPixels lists the pixels in the order of the encoder's loops. */
  lemma HalfPixelsOrder(flipped: bool, second: bool)
    ensures IsPixelList(HalfPixels(flipped, second))
    ensures flipped ==> RowsOrder(HalfPixels(flipped, second), if second then 2 else 0)
    ensures !flipped ==> ColumnsOrder(HalfPixels(flipped, second), if second then 2 else 0)
  {
    HalfPixelsUpToAt(flipped, second, 8);
  }

  /** Row y of a flipped half is visited at positions 4 * y .. 4 * y + 3. */
  lemma RowsOrderRun(ps: seq<int>, y0: int, y: int)
    requires RowsOrder(ps, y0) && 0 <= y < 2
    ensures RowRun(ps, 4 * y, 0, y0 + y, 4)
  {
    forall k | 4 * y <= k < 4 * y + 4
      ensures ps[k] == (k - 4 * y) + 4 * (y0 + y)
    {
      assert k / 4 == y && k % 4 == k - 4 * y;
    }
  }

  /** Row y of a non-flipped half is visited at positions 2 * y and 2 * y + 1. */
  lemma ColumnsOrderRun(ps: seq<int>, bx: int, y: int)
    requires ColumnsOrder(ps, bx) && 0 <= y < 4
    ensures RowRun(ps, 2 * y, bx, y, 2)
  {
    forall k | 2 * y <= k < 2 * y + 2
      ensures ps[k] == (bx + k - 2 * y) + 4 * y
    {
      assert k / 2 == y && k % 2 == k - 2 * y;
    }
  }

  /** Pixel i lies in the given half: rows 0-1 / 2-3 when flipped, columns 0-1 / 2-3 otherwise. */
  predicate InHalf(i: int, flipped: bool, second: bool)
    requires 0 <= i < 16
  {
    var coord := if flipped then i / 4 else i % 4;
    (coord >= 2) == second
  }

  /** Sum of channel ch over the valid pixels among the first k of ps. */
  function ValidSum(block: seq<int>, valid: seq<bool>, ps: seq<int>, k: int, ch: int): (s: int)
    requires IsBlock(block) && 0 <= ch < 3 && |valid| == 16 && 0 <= k <= |ps|
    requires forall a :: 0 <= a < |ps| ==> 0 <= ps[a] < 16
    ensures 0 <= s <= 255 * k
    decreases k
  {
    if k == 0 then 0
    else
      var i := ps[k - 1];
      ValidSum(block, valid, ps, k - 1, ch) + (if valid[i] then block[3 * i + ch] else 0)
  }

  /** etc_average_colors_subblock: each channel is (sum over the half's valid pixels + 4) >> 3. */
  function AverageHalf(block: seq<int>, valid: seq<bool>, flipped: bool, second: bool): (c: Rgb)
    requires IsBlock(block) && |valid| == 16
    ensures IsRgb(c)
  {
    var ps := HalfPixels(flipped, second);
    Rgb((ValidSum(block, valid, ps, 8, 0) + 4) / 8,
        (ValidSum(block, valid, ps, 8, 1) + 4) / 8,
        (ValidSum(block, valid, ps, 8, 2) + 4) / 8)
  }

  // ---------------------------------------------------------------------
  // Base colours
  // ---------------------------------------------------------------------

  /** The high-word bits contributed by the base colours, and the two decoded base colours. */
  datatype BaseEncoding = BaseEncoding(bits: bv32, first: Rgb, second: Rgb)

  /** Differential mode: all three 5-bit deltas fit in 3 signed bits. */
  predicate Differential(c1: Rgb, c2: Rgb) {
    InRange4BitSigned(Convert8To5(c2.r) - Convert8To5(c1.r)) &&
    InRange4BitSigned(Convert8To5(c2.g) - Convert8To5(c1.g)) &&
    InRange4BitSigned(Convert8To5(c2.b) - Convert8To5(c1.b))
  }

  /** The differential packing of 5-bit first colours and deltas dr, dg, db (stored as 7 & d, i.e. d % 8). */
  function DifferentialBase(r51: int, g51: int, b51: int, dr: int, dg: int, db: int): (e: BaseEncoding)
    requires 0 <= r51 < 32 && 0 <= g51 < 32 && 0 <= b51 < 32
    ensures IsRgb(e.first) && IsRgb(e.second)
  {
    BaseEncoding(
      (Bv(r51) << 27) | (Bv(dr % 8) << 24) | (Bv(g51) << 19)
        | (Bv(dg % 8) << 16) | (Bv(b51) << 11) | (Bv(db % 8) << 8) | 2,
      Rgb(Convert5To8(r51), Convert5To8(g51), Convert5To8(b51)),
      Rgb(Convert5To8(r51 + dr), Convert5To8(g51 + dg), Convert5To8(b51 + db)))
  }

  /** The individual packing of two 4-bit colours, interleaved per channel. */
  function IndividualBase(r41: int, g41: int, b41: int, r42: int, g42: int, b42: int): (e: BaseEncoding)
    requires 0 <= r41 < 16 && 0 <= g41 < 16 && 0 <= b41 < 16 && 0 <= r42 < 16 && 0 <= g42 < 16 && 0 <= b42 < 16
    ensures IsRgb(e.first) && IsRgb(e.second)
  {
    BaseEncoding(
      (Bv(r41) << 28) | (Bv(r42) << 24) | (Bv(g41) << 20)
        | (Bv(g42) << 16) | (Bv(b41) << 12) | (Bv(b42) << 8),
      Rgb(Convert4To8(r41), Convert4To8(g41), Convert4To8(b41)),
      Rgb(Convert4To8(r42), Convert4To8(g42), Convert4To8(b42)))
  }

  /** etc_encodeBaseColors: differential when all three 5-bit deltas fit, individual otherwise. */
  function EncodeBaseColors(c1: Rgb, c2: Rgb): (e: BaseEncoding)
    ensures IsRgb(e.first) && IsRgb(e.second)
  {
    var r51 := Convert8To5(c1.r);
    var g51 := Convert8To5(c1.g);
    var b51 := Convert8To5(c1.b);
    var dr := Convert8To5(c2.r) - r51;
    var dg := Convert8To5(c2.g) - g51;
    var db := Convert8To5(c2.b) - b51;
    if Differential(c1, c2) then
      DifferentialBase(r51, g51, b51, dr, dg, db)
    else
      IndividualBase(Convert8To4(c1.r), Convert8To4(c1.g), Convert8To4(c1.b),
                     Convert8To4(c2.r), Convert8To4(c2.g), Convert8To4(c2.b))
  }

  // ---------------------------------------------------------------------
  // Modifier choice
  // ---------------------------------------------------------------------

  /** Weighted squared error of decoding base + modifier against a pixel (green 6, red 3, blue 1). */
  function ModifierScore(base: Rgb, px: Rgb, modifier: int): int {
    6 * Square(Clamp(base.g + modifier) - px.g)
      + 3 * Square(Clamp(base.r + modifier) - px.r)
      + Square(Clamp(base.b + modifier) - px.b)
  }

  function CandidateScore(t: int, base: Rgb, px: Rgb, i: int): int
    requires 0 <= t < 8 && 0 <= i < 4
  {
    ModifierScore(base, px, ModifierValue(t, i))
  }

  datatype Choice = Choice(index: int, score: int)

  /** The scores of the four entries of codeword t for one pixel. */
  function CandidateScores(t: int, base: Rgb, px: Rgb): (s: seq<int>)
    requires 0 <= t < 8
    ensures |s| == 4 && forall i :: 0 <= i < 4 ==> s[i] == CandidateScore(t, base, px, i)
  {
    seq(4, i requires 0 <= i < 4 => CandidateScore(t, base, px, i))
  }

  /** Sequential minimum over the first n scores, keeping the earlier entry on ties. */
  function ArgMinUpTo(scores: seq<int>, n: int): (c: Choice)
    requires 1 <= n <= |scores|
    ensures 0 <= c.index < n
    decreases n
  {
    if n == 1 then Choice(0, scores[0])
    else
      var c := ArgMinUpTo(scores, n - 1);
      if scores[n - 1] < c.score then Choice(n - 1, scores[n - 1]) else c
  }

  lemma SquareNonNegative(x: int)
    ensures Square(x) >= 0
  {
    if x < 0 {
      MulMono(-x, 0, -x);
    } else {
      MulMono(x, 0, x);
    }
  }

  /** ArgMinUpTo is the minimum of the first n scores, and every earlier entry scores strictly more. */
  lemma {:induction false} ArgMinUpToIsMin(scores: seq<int>, n: int)
    requires 1 <= n <= |scores|
    ensures var c := ArgMinUpTo(scores, n);
      c.score == scores[c.index]
      && (forall j :: 0 <= j < n ==> c.score <= scores[j])
      && (forall j :: 0 <= j < c.index ==> c.score < scores[j])
    decreases n
  {
    if n > 1 {
      ArgMinUpToIsMin(scores, n - 1);
    }
  }

  /** The entry of codeword t chosen for a pixel: the first one of least score. */
  function BestModifier(t: int, base: Rgb, px: Rgb): (c: Choice)
    requires 0 <= t < 8
    ensures 0 <= c.index < 4
  {
    ArgMinUpTo(CandidateScores(t, base, px), 4)
  }

  /**
   * chooseModifier's choice is the least of the four candidate scores, and
   * on a tie the lowest index wins.
   */
  lemma BestModifierIsBest(t: int, base: Rgb, px: Rgb)
    requires 0 <= t < 8
    ensures var c := BestModifier(t, base, px);
      c.score == CandidateScore(t, base, px, c.index)
      && (forall i :: 0 <= i < 4 ==> c.score <= CandidateScore(t, base, px, i))
      && (forall i :: 0 <= i < c.index ==> c.score < CandidateScore(t, base, px, i))
  {
    ArgMinUpToIsMin(CandidateScores(t, base, px), 4);
  }

  /** Position of pixel i = x + 4 * y in the index words: y + 4 * x (the extension's a..p order). */
  function BitIndex(i: int): (p: int)
    requires 0 <= i < 16
    ensures 0 <= p < 16
  {
    i / 4 + 4 * (i % 4)
  }

  /** A 2-bit index spread over a word: its msb at bit 16, its lsb at bit 0. */
  function LowBits(index: int): (w: bv32)
    requires 0 <= index < 4
    ensures w & 0xFFFE_FFFE == 0
  {
    (if index / 2 == 1 then 0x1_0000 else 0) | (if index % 2 == 1 then 1 else 0)
  }

  /** The bits chooseModifier ORs into low: the index's msb at bit + 16, its lsb at bit. */
  function LowMask(index: int, bit: int): bv32
    requires 0 <= index < 4 && 0 <= bit < 16
    decreases bit
  {
    if bit == 0 then LowBits(index) else LowMask(index, bit - 1) << 1
  }

  /** LowMask is LowBits shifted left by bit. */
  lemma {:induction false} LowMaskShift(index: int, bit: int)
    requires 0 <= index < 4 && 0 <= bit < 16
    ensures Bv(bit) < 16 && LowMask(index, bit) == LowBits(index) << Bv(bit)
    decreases bit
  {
    BvValue(bit);
    if bit > 0 {
      LowMaskShift(index, bit - 1);
      BvValue(bit - 1);
      ShiftStep(LowBits(index), Bv(bit - 1));
    }
  }

  lemma ShiftStep(w: bv32, b: bv32)
    requires b < 15
    ensures (w << b) << 1 == w << (b + 1)
  {
  }

  // ---------------------------------------------------------------------
  // Half-block search, block search and output
  // ---------------------------------------------------------------------

  datatype HalfResult = HalfResult(score: int, low: bv32)

  /** Pixel positions of a half: eight distinct pixels of the block. */
  predicate IsPixelList(ps: seq<int>) {
    |ps| == 8 && forall a :: 0 <= a < 8 ==> 0 <= ps[a] < 16
  }

  /** No pixel is visited twice. */
  predicate Distinct(ps: seq<int>) {
    forall a, b :: 0 <= a < b < |ps| ==> ps[a] != ps[b]
  }

  /** One modifier index (0..3) per pixel of the block. */
  predicate IsChoiceList(chosen: seq<int>) {
    |chosen| == 16 && forall i :: 0 <= i < 16 ==> 0 <= chosen[i] < 4
  }

  /** The index chooseModifier picks for every pixel of the block, for codeword t and the given base. */
  function Chosen(block: seq<int>, base: Rgb, t: int): (c: seq<int>)
    requires IsBlock(block) && 0 <= t < 8
    ensures IsChoiceList(c)
    ensures forall i :: 0 <= i < 16 ==> c[i] == BestModifier(t, base, PixelAt(block, i)).index
  {
    seq(16, i requires 0 <= i < 16 => BestModifier(t, base, PixelAt(block, i)).index)
  }

  /** The score one visited pixel adds: its best score if valid, nothing otherwise. */
  function PixelScore(block: seq<int>, valid: seq<bool>, base: Rgb, t: int, i: int): (s: int)
    requires IsBlock(block) && 0 <= t < 8 && 0 <= i < 16 && |valid| == 16
    ensures 0 <= s <= 650250
  {
    if valid[i] then
      var c := BestModifier(t, base, PixelAt(block, i));
      ScoreBound(t, base, PixelAt(block, i), c.index);
      c.score
    else 0
  }

  /** etc_encode_subblock_helper's score over the first k pixels of ps. */
  function HalfScoreUpTo(block: seq<int>, valid: seq<bool>, ps: seq<int>, base: Rgb, t: int, k: int): (s: int)
    requires IsBlock(block) && IsPixelList(ps) && 0 <= t < 8 && 0 <= k <= 8 && |valid| == 16
    ensures 0 <= s <= 650250 * k
    decreases k
  {
    if k == 0 then 0
    else HalfScoreUpTo(block, valid, ps, base, t, k - 1) + PixelScore(block, valid, base, t, ps[k - 1])
  }

  /** One 2-bit index (0..3) per position of the index words. */
  predicate IsIndexList(idx: seq<int>) {
    |idx| == 16 && forall p :: 0 <= p < 16 ==> 0 <= idx[p] < 4
  }

  /**
   * The indices etc_encode_subblock_helper has stored after the first k
   * pixels of ps, position by position: a valid pixel i stores chosen[i] at
   * BitIndex(i), everything else is still 0.
   */
  function HalfIndicesUpTo(valid: seq<bool>, ps: seq<int>, chosen: seq<int>, k: int): (idx: seq<int>)
    requires IsPixelList(ps) && IsChoiceList(chosen) && 0 <= k <= 8 && |valid| == 16
    ensures IsIndexList(idx)
    decreases k
  {
    if k == 0 then seq(16, p => 0)
    else
      var prev := HalfIndicesUpTo(valid, ps, chosen, k - 1);
      var i := ps[k - 1];
      if valid[i] then prev[BitIndex(i) := chosen[i]] else prev
  }

  /** The low word holding idx[p] at position p for the positions below n. */
  function LowWordUpTo(idx: seq<int>, n: int): bv32
    requires IsIndexList(idx) && 0 <= n <= 16
    decreases n
  {
    if n == 0 then 0 else LowWordUpTo(idx, n - 1) | LowMask(idx[n - 1], n - 1)
  }

  /** The low word of the extension's layout: the index of position p has its msb at bit p + 16 and its lsb at bit p. */
  function LowWord(idx: seq<int>): bv32
    requires IsIndexList(idx)
  {
    LowWordUpTo(idx, 16)
  }

  /** etc_encode_subblock_helper for one half and codeword t: the summed score and the index word. */
  function HalfSearch(block: seq<int>, valid: seq<bool>, flipped: bool, second: bool, base: Rgb, t: int): (h: HalfResult)
    requires IsBlock(block) && 0 <= t < 8 && |valid| == 16
    ensures 0 <= h.score <= 650250 * 8
  {
    var ps := HalfPixels(flipped, second);
    HalfPixelsExact(flipped, second);
    HalfResult(HalfScoreUpTo(block, valid, ps, base, t, 8), LowWord(HalfIndicesUpTo(valid, ps, Chosen(block, base, t), 8)))
  }

  /**
   * h is HalfSearch's result for codeword t.  The quantifier fires only on a
   * HalfSearch term, so a context that merely passes h along does not unfold
   * the search.
   */
  predicate IsHalfSearch(h: HalfResult, block: seq<int>, valid: seq<bool>, flipped: bool, second: bool, base: Rgb, t: int)
    requires IsBlock(block) && |valid| == 16
  {
    0 <= t < 8 && forall u {:trigger HalfSearch(block, valid, flipped, second, base, u)} ::
      0 <= u < 8 && u == t ==> h == HalfSearch(block, valid, flipped, second, base, u)
  }

  /** The half search for codeword t, as a value whose tie to HalfSearch is IsHalfSearch. */
  lemma SearchedHalf(block: seq<int>, valid: seq<bool>, flipped: bool, second: bool, base: Rgb, t: int)
    returns (h: HalfResult)
    requires IsBlock(block) && |valid| == 16 && 0 <= t < 8
    ensures IsHalfSearch(h, block, valid, flipped, second, base, t) && 0 <= h.score <= 650250 * 8
  {
    h := HalfSearch(block, valid, flipped, second, base, t);
  }

  /** The words and score of a candidate encoding (etc_compressed). */
  datatype Encoded = Encoded(high: bv32, low: bv32, score: int)

  /** take_best: b replaces a only when it scores strictly lower. */
  function TakeBest(a: Encoded, b: Encoded): (r: Encoded)
    ensures r.score <= a.score && r.score <= b.score
    ensures r == a || r == b
    ensures a.score <= b.score ==> r == a
  {
    if a.score > b.score then b else a
  }

  /** Index of the candidate a left-to-right run of take_best keeps. */
  function BestIndex(cs: seq<Encoded>): (i: int)
    requires |cs| > 0
    ensures 0 <= i < |cs|
    ensures forall j :: 0 <= j < |cs| ==> cs[i].score <= cs[j].score
    ensures forall j :: 0 <= j < i ==> cs[j].score > cs[i].score
    decreases |cs|
  {
    if |cs| == 1 then 0
    else
      var i := BestIndex(cs[..|cs| - 1]);
      if cs[i].score > cs[|cs| - 1].score then |cs| - 1 else i
  }

  /** One more take_best step: the kept candidate of cs[..i + 1] is take_best of the kept one of cs[..i] and cs[i]. */
  lemma BestIndexStep(cs: seq<Encoded>, i: int)
    requires 0 < i < |cs|
    ensures cs[BestIndex(cs[..i + 1])] == TakeBest(cs[BestIndex(cs[..i])], cs[i])
  {
    assert cs[..i + 1][..i] == cs[..i];
  }

  /** High word before the codewords are added: flip bit and base-colour fields. */
  function HighStart(flipped: bool, base: BaseEncoding): bv32 {
    (if flipped then 1 else 0) | base.bits
  }

  /** The first-half candidate for codeword t: table bits 5-7, the half's index bits and score. */
  function FirstCandidate(block: seq<int>, valid: seq<bool>, flipped: bool, base: BaseEncoding, t: int): Encoded
    requires IsBlock(block) && 0 <= t < 8 && |valid| == 16
  {
    var h := HalfSearch(block, valid, flipped, false, base.first, t);
    Encoded(HighStart(flipped, base) | (Bv(t) << 5), h.low, h.score)
  }

  /** The second-half candidate for codeword t, built on the chosen first half. */
  function SecondCandidate(block: seq<int>, valid: seq<bool>, flipped: bool, base: BaseEncoding, first: Encoded, t: int): Encoded
    requires IsBlock(block) && 0 <= t < 8 && |valid| == 16
  {
    var h := HalfSearch(block, valid, flipped, true, base.second, t);
    Encoded(first.high | (Bv(t) << 2), first.low | h.low, first.score + h.score)
  }

  /** The fields of the first-half candidate for codeword t. */
  lemma FirstCandidateFields(block: seq<int>, valid: seq<bool>, flipped: bool, base: BaseEncoding, t: int)
    requires IsBlock(block) && |valid| == 16 && 0 <= t < 8
    ensures var h := HalfSearch(block, valid, flipped, false, base.first, t);
      var c := FirstCandidate(block, valid, flipped, base, t);
      c.high == HighStart(flipped, base) | (Bv(t) << 5) && c.low == h.low && c.score == h.score
  {
  }

  /** The eight first-half candidates of the first loop of etc_encode_block_helper. */
  function FirstCandidates(block: seq<int>, valid: seq<bool>, flipped: bool, base: BaseEncoding): (cs: seq<Encoded>)
    requires IsBlock(block) && |valid| == 16
    ensures |cs| == 8
    ensures forall t :: 0 <= t < 8 ==> cs[t] == FirstCandidate(block, valid, flipped, base, t)
  {
    seq(8, t requires 0 <= t < 8 => FirstCandidate(block, valid, flipped, base, t))
  }

  /**
   * cs lists the eight first-half candidates. The quantifier fires only on
   * FirstCandidate terms, so a context holding cs alone does not unfold the
   * half searches.
   */
  predicate AreFirstCandidates(cs: seq<Encoded>, block: seq<int>, valid: seq<bool>, flipped: bool, base: BaseEncoding)
    requires IsBlock(block) && |valid| == 16
  {
    |cs| == 8 && forall t {:trigger FirstCandidate(block, valid, flipped, base, t)} ::
      0 <= t < 8 ==> cs[t] == FirstCandidate(block, valid, flipped, base, t)
  }

  lemma FirstCandidatesAre(block: seq<int>, valid: seq<bool>, flipped: bool, base: BaseEncoding)
    requires IsBlock(block) && |valid| == 16
    ensures AreFirstCandidates(FirstCandidates(block, valid, flipped, base), block, valid, flipped, base)
  {
  }

  /** The fields of the second-half candidate for codeword t. */
  lemma SecondCandidateFields(block: seq<int>, valid: seq<bool>, flipped: bool, base: BaseEncoding, first: Encoded, t: int)
    requires IsBlock(block) && |valid| == 16 && 0 <= t < 8
    ensures var h := HalfSearch(block, valid, flipped, true, base.second, t);
      var c := SecondCandidate(block, valid, flipped, base, first, t);
      c.high == first.high | (Bv(t) << 2) && c.low == first.low | h.low && c.score == first.score + h.score
  {
  }

  /** The eight second-half candidates of the second loop. */
  function SecondCandidates(block: seq<int>, valid: seq<bool>, flipped: bool, base: BaseEncoding, first: Encoded): (cs: seq<Encoded>)
    requires IsBlock(block) && |valid| == 16
    ensures |cs| == 8
    ensures forall t :: 0 <= t < 8 ==> cs[t] == SecondCandidate(block, valid, flipped, base, first, t)
  {
    seq(8, t requires 0 <= t < 8 => SecondCandidate(block, valid, flipped, base, first, t))
  }

  /** cs lists the eight second-half candidates built on first (see AreFirstCandidates). */
  predicate AreSecondCandidates(cs: seq<Encoded>, block: seq<int>, valid: seq<bool>, flipped: bool, base: BaseEncoding, first: Encoded)
    requires IsBlock(block) && |valid| == 16
  {
    |cs| == 8 && forall t {:trigger SecondCandidate(block, valid, flipped, base, first, t)} ::
      0 <= t < 8 ==> cs[t] == SecondCandidate(block, valid, flipped, base, first, t)
  }

  lemma SecondCandidatesAre(block: seq<int>, valid: seq<bool>, flipped: bool, base: BaseEncoding, first: Encoded)
    requires IsBlock(block) && |valid| == 16
    ensures AreSecondCandidates(SecondCandidates(block, valid, flipped, base, first), block, valid, flipped, base, first)
  {
  }

  /** The fields of entry t of a second-candidate list, h being that half's search. */
  lemma SecondCandidateAt(cs: seq<Encoded>, block: seq<int>, valid: seq<bool>, flipped: bool, base: BaseEncoding, first: Encoded,
                          t: int, h: HalfResult)
    requires IsBlock(block) && |valid| == 16 && 0 <= t < 8
    requires AreSecondCandidates(cs, block, valid, flipped, base, first)
    requires IsHalfSearch(h, block, valid, flipped, true, base.second, t)
    ensures cs[t].high == first.high | (Bv(t) << 2) && cs[t].low == first.low | h.low && cs[t].score == first.score + h.score
  {
    SecondCandidateFields(block, valid, flipped, base, first, t);
  }

  /** The fields of entry t of a first-candidate list, h being that half's search. */
  lemma FirstCandidateAt(cs: seq<Encoded>, block: seq<int>, valid: seq<bool>, flipped: bool, base: BaseEncoding, t: int, h: HalfResult)
    requires IsBlock(block) && |valid| == 16 && 0 <= t < 8
    requires AreFirstCandidates(cs, block, valid, flipped, base)
    requires IsHalfSearch(h, block, valid, flipped, false, base.first, t)
    ensures cs[t].high == HighStart(flipped, base) | (Bv(t) << 5) && cs[t].low == h.low && cs[t].score == h.score
    ensures cs[t].score <= 650250 * 8
  {
    FirstCandidateFields(block, valid, flipped, base, t);
  }

  /** etc_encode_block_helper for one orientation, given the two half averages. */
  function BlockHelper(block: seq<int>, valid: seq<bool>, c1: Rgb, c2: Rgb, flipped: bool): Encoded
    requires IsBlock(block) && |valid| == 16
  {
    var base := EncodeBaseColors(c1, c2);
    var cs1 := FirstCandidates(block, valid, flipped, base);
    var first := cs1[BestIndex(cs1)];
    var cs2 := SecondCandidates(block, valid, flipped, base, first);
    cs2[BestIndex(cs2)]
  }

  /**
   * e is BlockHelper's result for the given orientation.  As with
   * IsHalfSearch, only a BlockHelper term in context unfolds this.
   */
  predicate IsBlockHelper(e: Encoded, block: seq<int>, valid: seq<bool>, c1: Rgb, c2: Rgb, flipped: bool)
    requires IsBlock(block) && |valid| == 16
  {
    forall f {:trigger BlockHelper(block, valid, c1, c2, f)} :: f == flipped ==> e == BlockHelper(block, valid, c1, c2, f)
  }

  /** The encoding encodeBlock keeps: the two orientations compared with take_best. */
  function EncodeBlockWords(block: seq<int>, mask: bv32): Encoded
    requires IsBlock(block)
  {
    var valid := ValidFlags(mask);
    var a := BlockHelper(block, valid, AverageHalf(block, valid, false, false), AverageHalf(block, valid, false, true), false);
    var b := BlockHelper(block, valid, AverageHalf(block, valid, true, false), AverageHalf(block, valid, true, true), true);
    TakeBest(a, b)
  }

  /** writeBigEndian: the four bytes of a word, most significant first. */
  function BigEndian(w: bv32): (q: seq<int>)
    ensures |q| == 4 && forall k :: 0 <= k < 4 ==> 0 <= q[k] < 256
  {
    [((w >> 24) & 0xFF) as int, ((w >> 16) & 0xFF) as int, ((w >> 8) & 0xFF) as int, (w & 0xFF) as int]
  }

  /** e is the kept encoding of the block (guarded like IsHalfSearch). */
  predicate IsBlockWords(e: Encoded, block: seq<int>, mask: bv32)
    requires IsBlock(block)
  {
    forall m {:trigger EncodeBlockWords(block, m)} :: m == mask ==> e == EncodeBlockWords(block, m)
  }

  /**
   * The kept encoding of a block, given the four half averages c1..c4 and
   * the two orientations' block-helper results x and y.
   */
  lemma EncodeBlockWordsOf(block: seq<int>, mask: bv32, c1: Rgb, c2: Rgb, c3: Rgb, c4: Rgb, x: Encoded, y: Encoded)
    requires IsBlock(block)
    requires var valid := ValidFlags(mask);
      c1 == AverageHalf(block, valid, false, false) && c2 == AverageHalf(block, valid, false, true)
      && c3 == AverageHalf(block, valid, true, false) && c4 == AverageHalf(block, valid, true, true)
    requires IsBlockHelper(x, block, ValidFlags(mask), c1, c2, false)
    requires IsBlockHelper(y, block, ValidFlags(mask), c3, c4, true)
    ensures IsBlockWords(TakeBest(x, y), block, mask)
  {
    assert EncodeBlockWords(block, mask) == TakeBest(x, y);
  }

  /** The 8 output bytes of a block whose kept encoding is e. */
  lemma EncodeBlockOf(block: seq<int>, mask: bv32, e: Encoded)
    requires IsBlock(block) && IsBlockWords(e, block, mask)
    ensures EncodeBlock(block, mask) == BigEndian(e.high) + BigEndian(e.low)
  {
    assert e == EncodeBlockWords(block, mask);
  }

  /** encodeBlock / etc1_encode_block: the 8 output bytes, high word then low word. */
  function EncodeBlock(block: seq<int>, mask: bv32): (out: seq<int>)
    requires IsBlock(block)
    ensures |out| == 8
  {
    var e := EncodeBlockWords(block, mask);
    BigEndian(e.high) + BigEndian(e.low)
  }

  // ---------------------------------------------------------------------
  // Lemmas
  // ---------------------------------------------------------------------

  lemma SquareBound(d: int)
    requires -255 <= d <= 255
    ensures 0 <= Square(d) <= 65025
  {
    var a := if d >= 0 then d else -d;
    assert Square(d) == a * a;
    MulMono(a, a, 255);
    MulMono(255, a, 255);
  }

  lemma MulMono(k: int, a: int, b: int)
    requires 0 <= k && a <= b
    ensures k * a <= k * b
  {
    assert k * b - k * a == k * (b - a);
  }

  /** A single candidate's score never exceeds 10 * 255^2. */
  lemma ScoreBound(t: int, base: Rgb, px: Rgb, i: int)
    requires 0 <= t < 8 && 0 <= i < 4 && IsRgb(px)
    ensures 0 <= CandidateScore(t, base, px, i) <= 650250
  {
    var m := ModifierValue(t, i);
    SquareBound(Clamp(base.g + m) - px.g);
    SquareBound(Clamp(base.r + m) - px.r);
    SquareBound(Clamp(base.b + m) - px.b);
  }

  /** Clamp returns the byte value nearest to x. */
  lemma ClampIsNearest(x: int, v: int)
    requires 0 <= v <= 255
    ensures (if Clamp(x) >= x then Clamp(x) - x else x - Clamp(x)) <= (if v >= x then v - x else x - v)
  {
  }

  /** Two values within half a step of d / 255 are equal. */
  lemma NearestUnique(d: int, r: int, c: int)
    requires -127 <= d - 255 * r <= 127 && -127 <= d - 255 * c <= 127
    ensures r == c
  {
  }

  /** Expanding a 5-bit value to 8 bits and quantising back gives the value again. */
  lemma RoundTrip5(c: int)
    requires 0 <= c < 32
    ensures Convert8To5(Convert5To8(c)) == c
  {
    var x := Convert5To8(c);
    var q := c / 4;
    assert x == 8 * c + q && x % 256 == x;
    assert -127 <= x * 31 - 255 * c <= 127;
    NearestUnique(x * 31, Convert8To5(x), c);
  }

  /** Expanding a 4-bit value to 8 bits and quantising back gives the value again. */
  lemma RoundTrip4(c: int)
    requires 0 <= c < 16
    ensures Convert8To4(Convert4To8(c)) == c
  {
    var x := Convert4To8(c);
    assert x == 17 * c && x % 256 == x;
    NearestUnique(x * 15, Convert8To4(x), c);
  }

  /** Entry i of codeword t in a table holding ModifierTable's entries. */
  lemma ModifierAt(table: seq<int>, t: int, i: int)
    requires IsModifierTable(table) && 0 <= t < 8 && 0 <= i < 4
    ensures table[4 * t + i] == ModifierValue(t, i)
  {
    var j := 4 * t + i;
    assert j / 4 == t && j % 4 == i;
  }

  /** ModifierTable is exactly the table of ModifierValue. */
  lemma ModifierTableValues()
    ensures IsModifierTable(ModifierTable)
  {
    forall j | 0 <= j < 32
      ensures ModifierTable[j] == ModifierValue(j / 4, j % 4)
    {
      assert j < 8 || j < 16 || j < 24 || j < 32;
    }
  }

  /** Any table holding those 32 entries is ModifierTable. */
  lemma ModifierTableUnique(table: seq<int>)
    requires IsModifierTable(table)
    ensures table == ModifierTable
  {
    ModifierTableValues();
  }

  /** The encoder's table agrees with Tables 3.17.2 and 3.17.3: index i stores msb i / 2 and lsb i % 2. */
  lemma ModifierTableMatchesExtension(t: int, i: int)
    requires 0 <= t < 8 && 0 <= i < 4
    ensures ModifierTable[4 * t + i] == ExtensionModifier(t, i / 2, i % 2)
  {
    assert t == 0 || t == 1 || t == 2 || t == 3 || t == 4 || t == 5 || t == 6 || t == 7;
  }

  /** Pixel (x, y) stores its index at bit y + 4 * x, and the mapping is its own inverse (so one-to-one). */
  lemma BitIndexPlacement(i: int, x: int, y: int)
    requires 0 <= x < 4 && 0 <= y < 4 && i == x + 4 * y
    ensures BitIndex(i) == y + 4 * x
    ensures BitIndex(BitIndex(i)) == i
  {
    assert (x + 4 * y) / 4 == y && (x + 4 * y) % 4 == x;
    assert (y + 4 * x) / 4 == x && (y + 4 * x) % 4 == y;
  }

  lemma BitIndexInjective(i: int, j: int)
    requires 0 <= i < 16 && 0 <= j < 16 && i != j
    ensures BitIndex(i) != BitIndex(j)
    ensures BitIndex(i) + 16 != BitIndex(j) && BitIndex(i) != BitIndex(j) + 16
  {
  }

  /** The index a two-bit pattern holds: its bit 16 is the msb, its bit 0 the lsb. */
  function PairIndex(v: bv32): (idx: int)
    ensures 0 <= idx < 4
  {
    (if v & 0x1_0000 != 0 then 2 else 0) + (if v & 1 != 0 then 1 else 0)
  }

  /** The index (msb * 2 + lsb) a low word holds at position pos: msb at bit pos + 16, lsb at bit pos. */
  function IndexAt(low: bv32, pos: int): (idx: int)
    requires 0 <= pos < 16
    ensures 0 <= idx < 4
  {
    BvValue(pos);
    PairIndex((low >> Bv(pos)) & 0x1_0001)
  }

  /** Shifting a two-bit pattern up by b and down by q leaves it in place when b == q and nothing otherwise. */
  lemma ShiftedBits(m: bv32, b: bv32, q: bv32)
    requires m & 0xFFFE_FFFE == 0 && b < 16 && q < 16
    ensures ((m << b) >> q) & 0x1_0001 == if b == q then m else 0
  {
  }

  /** PairIndex reads LowBits back; the empty pattern holds index 0. */
  lemma LowBitsIndex(index: int)
    requires 0 <= index < 4
    ensures PairIndex(LowBits(index)) == index
    ensures PairIndex(0) == 0
  {
  }

  /** chooseModifier's mask holds the index at position bit and 0 at every other position. */
  lemma LowMaskIndex(index: int, bit: int, pos: int)
    requires 0 <= index < 4 && 0 <= bit < 16 && 0 <= pos < 16
    ensures IndexAt(LowMask(index, bit), pos) == if pos == bit then index else 0
  {
    LowMaskShift(index, bit);
    BvValue(bit);
    BvValue(pos);
    ShiftedBits(LowBits(index), Bv(bit), Bv(pos));
    LowBitsIndex(index);
    if pos != bit {
      assert Bv(bit) != Bv(pos);
    }
  }

  /** The eight pixels of a half are distinct and are exactly the pixels InHalf selects. */
  lemma HalfPixelsExact(flipped: bool, second: bool)
    ensures IsPixelList(HalfPixels(flipped, second)) && Distinct(HalfPixels(flipped, second))
    ensures forall k :: 0 <= k < 8 ==> InHalf(HalfPixels(flipped, second)[k], flipped, second)
    ensures forall j :: 0 <= j < 16 && InHalf(j, flipped, second) ==> j in HalfPixels(flipped, second)
  {
    var ps := HalfPixels(flipped, second);
    HalfPixelsUpToAt(flipped, second, 8);
    forall a, b | 0 <= a < b < 8
      ensures ps[a] != ps[b]
    {
      HalfPixelInjective(flipped, second, a, b);
    }
    forall j | 0 <= j < 16 && InHalf(j, flipped, second)
      ensures j in ps
    {
      var k := HalfPixelPosition(flipped, second, j);
      assert ps[k] == j;
    }
  }

  /** Two positions of a half's order visit different pixels. */
  lemma HalfPixelInjective(flipped: bool, second: bool, a: int, b: int)
    requires 0 <= a < b < 8
    ensures HalfPixel(flipped, second, a) != HalfPixel(flipped, second, b)
  {
    var o := if second then 2 else 0;
    if flipped {
      assert HalfPixel(flipped, second, a) % 4 == a % 4 && HalfPixel(flipped, second, a) / 4 == o + a / 4;
      assert HalfPixel(flipped, second, b) % 4 == b % 4 && HalfPixel(flipped, second, b) / 4 == o + b / 4;
    } else {
      assert HalfPixel(flipped, second, a) % 4 == o + a % 2 && HalfPixel(flipped, second, a) / 4 == a / 2;
      assert HalfPixel(flipped, second, b) % 4 == o + b % 2 && HalfPixel(flipped, second, b) / 4 == b / 2;
    }
  }

  /** The position at which a half's order visits pixel j of that half. */
  function HalfPixelPosition(flipped: bool, second: bool, j: int): (k: int)
    requires 0 <= j < 16 && InHalf(j, flipped, second)
    ensures 0 <= k < 8 && HalfPixel(flipped, second, k) == j
  {
    var o := if second then 2 else 0;
    if flipped then j - 4 * o else 2 * (j / 4) + (j % 4 - o)
  }

  /**
   * After the first k pixels of ps, the position of pixel j holds j's chosen
   * index if j is among them and valid, and 0 otherwise.
   */
  lemma {:induction false} HalfIndicesUpToAt(valid: seq<bool>, ps: seq<int>, chosen: seq<int>, k: int, j: int)
    requires IsPixelList(ps) && Distinct(ps) && IsChoiceList(chosen) && 0 <= k <= 8 && 0 <= j < 16 && |valid| == 16
    ensures HalfIndicesUpTo(valid, ps, chosen, k)[BitIndex(j)]
      == if j in ps[..k] && valid[j] then chosen[j] else 0
    decreases k
  {
    if k > 0 {
      HalfIndicesUpToAt(valid, ps, chosen, k - 1, j);
      var i := ps[k - 1];
      assert ps[..k] == ps[..k - 1] + [i];
      if i != j {
        BitIndexInjective(i, j);
      }
    }
  }

  /**
   * The index word of a half (HalfSearch's low is LowWord of these indices for
   * the indices Chosen picks): every valid pixel of the half has its chosen
   * index at its position, every other position holds 0.  Since BitIndex is
   * its own inverse this fixes all 16 positions.
   */
  lemma HalfIndices(valid: seq<bool>, flipped: bool, second: bool, chosen: seq<int>, j: int)
    requires IsChoiceList(chosen) && 0 <= j < 16 && |valid| == 16
    ensures HalfIndicesUpTo(valid, HalfPixels(flipped, second), chosen, |HalfPixels(flipped, second)|)[BitIndex(j)]
      == if InHalf(j, flipped, second) && valid[j] then chosen[j] else 0
  {
    var ps := HalfPixels(flipped, second);
    HalfPixelsExact(flipped, second);
    HalfIndicesUpToAt(valid, ps, chosen, |ps|, j);
    assert ps[..|ps|] == ps;
  }

  lemma {:induction false} LowMaskZero(bit: int)
    requires 0 <= bit < 16
    ensures LowMask(0, bit) == 0
    decreases bit
  {
    if bit == 0 {
      assert LowBits(0) == 0;
    } else {
      LowMaskZero(bit - 1);
    }
  }

  lemma OrSwap(a: bv32, b: bv32, c: bv32)
    ensures (a | b) | c == (a | c) | b
  {
  }

  lemma OrAssoc(a: bv32, b: bv32, c: bv32)
    ensures (a | b) | c == a | (b | c)
  {
  }

  lemma OrZero(a: bv32)
    ensures a | 0 == a
  {
  }

  /** Low words of index lists that agree below n agree. */
  lemma {:induction false} LowWordUpToSame(idx: seq<int>, jdx: seq<int>, n: int)
    requires IsIndexList(idx) && IsIndexList(jdx) && 0 <= n <= 16 && idx[..n] == jdx[..n]
    ensures LowWordUpTo(idx, n) == LowWordUpTo(jdx, n)
    decreases n
  {
    if n > 0 {
      assert idx[n - 1] == idx[..n][n - 1] == jdx[..n][n - 1] == jdx[n - 1];
      assert idx[..n - 1] == idx[..n][..n - 1] == jdx[..n][..n - 1] == jdx[..n - 1];
      LowWordUpToSame(idx, jdx, n - 1);
    }
  }

  /** Storing v at a position p < n that holds 0 ORs exactly chooseModifier's mask into the word. */
  lemma {:induction false} LowWordUpToUpdate(idx: seq<int>, n: int, p: int, v: int)
    requires IsIndexList(idx) && 0 <= p < n <= 16 && 0 <= v < 4 && idx[p] == 0
    ensures LowWordUpTo(idx[p := v], n) == LowWordUpTo(idx, n) | LowMask(v, p)
    decreases n
  {
    var idx' := idx[p := v];
    if p == n - 1 {
      assert idx'[..n - 1] == idx[..n - 1];
      LowWordUpToSame(idx', idx, n - 1);
      LowMaskZero(p);
      OrZero(LowWordUpTo(idx, n - 1));
    } else {
      LowWordUpToUpdate(idx, n - 1, p, v);
      OrSwap(LowWordUpTo(idx, n - 1), LowMask(v, p), LowMask(idx[n - 1], n - 1));
    }
  }

  /** The low word of the all-zero index list is 0. */
  lemma {:induction false} LowWordUpToZero(n: int)
    requires 0 <= n <= 16
    ensures LowWordUpTo(seq(16, p => 0), n) == 0
    decreases n
  {
    if n > 0 {
      LowWordUpToZero(n - 1);
      LowMaskZero(n - 1);
    }
  }

  /**
   * Visiting the (k+1)-th pixel i of a half when i is valid stores its chosen
   * index at BitIndex(i), a position still 0, so the index word gains exactly
   * chooseModifier's mask.
   */
  lemma HalfIndicesStepValid(valid: seq<bool>, ps: seq<int>, chosen: seq<int>, k: int)
    requires IsPixelList(ps) && Distinct(ps) && IsChoiceList(chosen) && 0 < k <= 8 && |valid| == 16 && valid[ps[k - 1]]
    ensures LowWord(HalfIndicesUpTo(valid, ps, chosen, k))
      == LowWord(HalfIndicesUpTo(valid, ps, chosen, k - 1)) | LowMask(chosen[ps[k - 1]], BitIndex(ps[k - 1]))
  {
    var i := ps[k - 1];
    var prev := HalfIndicesUpTo(valid, ps, chosen, k - 1);
    assert i !in ps[..k - 1];
    HalfIndicesUpToAt(valid, ps, chosen, k - 1, i);
    LowWordUpToUpdate(prev, 16, BitIndex(i), chosen[i]);
  }

  /**
   * The word a subblock search leaves after visiting the first k pixels of ps
   * on top of low0: each valid pixel i ORs in its chosen index as two bits at
   * BitIndex(i), exactly as chooseModifier does.
   */
  function StoredLow(low0: bv32, valid: seq<bool>, ps: seq<int>, chosen: seq<int>, k: int): bv32
    requires IsPixelList(ps) && IsChoiceList(chosen) && 0 <= k <= 8 && |valid| == 16
    decreases k
  {
    if k == 0 then low0
    else
      var i := ps[k - 1];
      if valid[i] then StoredLow(low0, valid, ps, chosen, k - 1) | LowMask(chosen[i], BitIndex(i))
      else StoredLow(low0, valid, ps, chosen, k - 1)
  }

  /**
   * ORing the masks in one at a time gives low0 with the index word of the
   * visited pixels ORed in: every position a pixel claims is still 0 when it
   * is claimed, because the pixels of ps are distinct.
   */
  lemma {:induction false} StoredLowWord(low0: bv32, valid: seq<bool>, ps: seq<int>, chosen: seq<int>, k: int)
    requires IsPixelList(ps) && Distinct(ps) && IsChoiceList(chosen) && 0 <= k <= 8 && |valid| == 16
    ensures StoredLow(low0, valid, ps, chosen, k) == low0 | LowWord(HalfIndicesUpTo(valid, ps, chosen, k))
    decreases k
  {
    if k == 0 {
      StoredLowWordStart(low0, valid, ps, chosen);
    } else {
      StoredLowWord(low0, valid, ps, chosen, k - 1);
      StoredLowWordStep(low0, valid, ps, chosen, k);
    }
  }

  lemma StoredLowWordStart(low0: bv32, valid: seq<bool>, ps: seq<int>, chosen: seq<int>)
    requires IsPixelList(ps) && IsChoiceList(chosen) && |valid| == 16
    ensures StoredLow(low0, valid, ps, chosen, 0) == low0 | LowWord(HalfIndicesUpTo(valid, ps, chosen, 0))
  {
    LowWordUpToZero(16);
    OrZero(low0);
  }

  lemma StoredLowWordStep(low0: bv32, valid: seq<bool>, ps: seq<int>, chosen: seq<int>, k: int)
    requires IsPixelList(ps) && Distinct(ps) && IsChoiceList(chosen) && 0 < k <= 8 && |valid| == 16
    requires StoredLow(low0, valid, ps, chosen, k - 1) == low0 | LowWord(HalfIndicesUpTo(valid, ps, chosen, k - 1))
    ensures StoredLow(low0, valid, ps, chosen, k) == low0 | LowWord(HalfIndicesUpTo(valid, ps, chosen, k))
  {
    if valid[ps[k - 1]] {
      StoredLowWordValid(low0, valid, ps, chosen, k);
    }
  }

  lemma StoredLowWordValid(low0: bv32, valid: seq<bool>, ps: seq<int>, chosen: seq<int>, k: int)
    requires IsPixelList(ps) && Distinct(ps) && IsChoiceList(chosen) && 0 < k <= 8 && |valid| == 16 && valid[ps[k - 1]]
    requires StoredLow(low0, valid, ps, chosen, k - 1) == low0 | LowWord(HalfIndicesUpTo(valid, ps, chosen, k - 1))
    ensures StoredLow(low0, valid, ps, chosen, k) == low0 | LowWord(HalfIndicesUpTo(valid, ps, chosen, k))
  {
    var i := ps[k - 1];
    HalfIndicesStepValid(valid, ps, chosen, k);
    OrAssoc(low0, LowWord(HalfIndicesUpTo(valid, ps, chosen, k - 1)), LowMask(chosen[i], BitIndex(i)));
  }

  /**
   * A subblock search's score and OR-accumulated word are the half's
   * HalfSearch score and low0 with the half's index word ORed in.
   */
  lemma StoredHalfSearch(block: seq<int>, valid: seq<bool>, flipped: bool, second: bool, base: Rgb, t: int, low0: bv32, h: HalfResult)
    requires IsBlock(block) && |valid| == 16 && 0 <= t < 8
    requires IsHalfSearch(h, block, valid, flipped, second, base, t)
    ensures HalfScoreUpTo(block, valid, HalfPixels(flipped, second), base, t, 8) == h.score
    ensures StoredLow(low0, valid, HalfPixels(flipped, second), Chosen(block, base, t), 8) == low0 | h.low
  {
    assert h == HalfSearch(block, valid, flipped, second, base, t);
    HalfPixelsExact(flipped, second);
    StoredLowWord(low0, valid, HalfPixels(flipped, second), Chosen(block, base, t), 8);
  }

  /**
   * The channels of the RGB565 pixel (hi << 8) | lo expanded to 8 bits:
   * each result's top bits are its field of the pixel.
   */
  lemma Channels565(hi: int, lo: int)
    requires 0 <= hi < 256 && 0 <= lo < 256
    ensures Convert5To8((hi * 256 + lo) / 2048) / 8 == hi / 8
    ensures Convert6To8((hi * 256 + lo) / 32) / 4 == (hi % 8) * 8 + lo / 32
    ensures Convert5To8(hi * 256 + lo) / 8 == lo % 32
  {
    Pixel565Fields(hi, lo);
  }

  /** Division by 32, 64 and 2048 splits m * d + r back into m and r. */
  lemma Split32(m: int, r: int)
    requires 0 <= r < 32
    ensures (m * 32 + r) / 32 == m && (m * 32 + r) % 32 == r
  {
  }

  lemma Split64(m: int, r: int)
    requires 0 <= r < 64
    ensures (m * 64 + r) / 64 == m && (m * 64 + r) % 64 == r
  {
  }

  lemma Split2048(m: int, r: int)
    requires 0 <= r < 2048
    ensures (m * 2048 + r) / 2048 == m
  {
  }

  lemma Pixel565Fields(hi: int, lo: int)
    requires 0 <= hi < 256 && 0 <= lo < 256
    ensures (hi * 256 + lo) / 2048 == hi / 8
    ensures (hi * 256 + lo) / 32 % 64 == (hi % 8) * 8 + lo / 32
    ensures (hi * 256 + lo) % 32 == lo % 32
  {
    var pixel := hi * 256 + lo;
    assert pixel == (hi / 8) * 2048 + ((hi % 8) * 256 + lo);
    Split2048(hi / 8, (hi % 8) * 256 + lo);
    assert pixel == (hi * 8 + lo / 32) * 32 + lo % 32;
    Split32(hi * 8 + lo / 32, lo % 32);
    assert hi * 8 + lo / 32 == (hi / 8) * 64 + ((hi % 8) * 8 + lo / 32);
    Split64(hi / 8, (hi % 8) * 8 + lo / 32);
  }

  /** Bytes 12 * cy + 3 * cx .. + 2 of the block are pixel (cx, cy)'s R, G, B. */
  lemma ByteCell(i: int, cx: int, cy: int)
    requires 0 <= cx < 4 && 0 <= cy < 4 && 12 * cy + 3 * cx <= i < 12 * cy + 3 * cx + 3
    ensures i / 3 == 4 * cy + cx && (i / 3) % 4 == cx && (i / 3) / 4 == cy && i % 3 == i - (12 * cy + 3 * cx)
  {
    var k := 4 * cy + cx;
    assert i == 3 * k + (i - 3 * k);
  }

  lemma NotByteCell(i: int, cx: int, cy: int)
    requires 0 <= cx < 4 && 0 <= cy < 4 && 0 <= i < 48
    requires !(12 * cy + 3 * cx <= i < 12 * cy + 3 * cx + 3)
    ensures !((i / 3) % 4 == cx && (i / 3) / 4 == cy)
  {
    var k := i / 3;
    assert i == 3 * k + i % 3;
  }

  /** Bit(p) is 1 << p. */
  lemma {:induction false} BitShift(p: int)
    requires 0 <= p < 16
    ensures Bv(p) < 16 && Bit(p) == 1 << Bv(p)
    decreases p
  {
    BvValue(p);
    if p > 0 {
      BitShift(p - 1);
      BvValue(p - 1);
      ShiftStep(1, Bv(p - 1));
    }
  }
}
