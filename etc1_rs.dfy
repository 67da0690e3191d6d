/**
 * The RenderScript ETC1 encoder (etc1compressor.rs) as imperative code over
 * etc_compressed records and the byte arrays it writes, proved to compute the
 * functions of module Etc1.  Arrays the encoder only reads (the input block,
 * the base colours while a half is searched, the modifier table) are passed as
 * sequences, and a pointer into one of them becomes the sequence and an
 * offset.  etc1_byte is unsigned, so pixel bytes are read as they are.
 */
module RsEtc1 {
  import opened Etc1

  /** An etc1_byte (unsigned char). */
  newtype U8 = x: int | 0 <= x < 256

  /**
   * ~0 as an etc1_uint32, the score a search starts from.  Scores are
   * etc1_uint32; every score the encoder computes is at most 16 * 650250, so
   * no sum wraps and they are modelled as int.
   */
  const UInt32Max: int := 0xFFFF_FFFF

  /** The etc_compressed struct: the two output words and the score (lower is more accurate). */
  class EtcCompressed {
    var high: bv32
    var low: bv32
    var score: int

    /** A fresh etc_compressed local; the code sets every field before reading it. */
    constructor ()
      ensures high == 0 && low == 0 && score == 0
    {
      high := 0;
      low := 0;
      score := 0;
    }

    function Value(): Encoded
      reads this
    {
      Encoded(high, low, score)
    }
  }

  /** take_best: *a = *b when a scores strictly higher than b; a is unchanged otherwise. */
  method TakeBestInto(a: EtcCompressed, b: EtcCompressed)
    modifies a
    ensures a.Value() == TakeBest(old(a.Value()), old(b.Value()))
  {
    if a.score > b.score {
      a.high, a.low, a.score := b.high, b.low, b.score;
    }
  }

  /** The base colour stored at pBaseColors[icolor..icolor + 3]. */
  function BaseAt(colors: seq<U8>, icolor: int): Rgb
    requires 0 <= icolor && icolor + 3 <= |colors|
  {
    Rgb(colors[icolor] as int, colors[icolor + 1] as int, colors[icolor + 2] as int)
  }

  /** The pixel whose R, G, B start at pIn[indice]. */
  function PixelFrom(pIn: seq<U8>, indice: int): Rgb
    requires 0 <= indice && indice + 3 <= |pIn|
  {
    Rgb(pIn[indice] as int, pIn[indice + 1] as int, pIn[indice + 2] as int)
  }

  /** ((i >> 1) << 16) | (i & 1) is the two-bit pattern LowBits(i). */
  lemma LowBitsFormula(i: int)
    requires 0 <= i < 4
    ensures ((Bv(i) >> 1) << 16) | (Bv(i) & 1) == LowBits(i)
  {
    assert Bv(0) == 0 && Bv(1) == 1 && Bv(2) == 2 && Bv(3) == 3;
  }

  /** chooseModifier's lowMask, ((bestIndex >> 1) << 16 | (bestIndex & 1)) << bitIndex, is LowMask. */
  function RsLowMask(bestIndex: int, bitIndex: int): (m: bv32)
    requires 0 <= bestIndex < 4 && 0 <= bitIndex < 16
    ensures m == LowMask(bestIndex, bitIndex)
  {
    LowBitsFormula(bestIndex);
    LowMaskShift(bestIndex, bitIndex);
    BvValue(bitIndex);
    (((Bv(bestIndex) >> 1) << 16) | (Bv(bestIndex) & 1)) << Bv(bitIndex)
  }

  /**
   * One pass of chooseModifier's loop: the candidate replaces the best so far
   * exactly when its full score is lower.  The partial sums only grow, so the
   * two early exits skip only candidates whose full score could not win.
   */
  method TryModifier(base: Rgb, px: Rgb, modifier: int, i: int, bestScore: int, bestIndex: int)
    returns (bestScore': int, bestIndex': int)
    ensures var s := ModifierScore(base, px, modifier);
      Choice(bestIndex', bestScore') == if s < bestScore then Choice(i, s) else Choice(bestIndex, bestScore)
  {
    bestScore', bestIndex' := bestScore, bestIndex;
    var decodedG := Clamp(base.g + modifier);
    var decodedR := Clamp(base.r + modifier);
    var decodedB := Clamp(base.b + modifier);
    SquareNonNegative(decodedR - px.r);
    SquareNonNegative(decodedB - px.b);
    var score := 6 * Square(decodedG - px.g);
    if score >= bestScore {
      return;
    }
    score := score + 3 * Square(decodedR - px.r);
    if score >= bestScore {
      return;
    }
    score := score + Square(decodedB - px.b);
    if score < bestScore {
      bestScore', bestIndex' := score, i;
    }
  }

  /**
   * The search loop of chooseModifier: the result is the first least score
   * among the four entries of the table at iModifierTable.
   */
  method SearchModifiers(base: Rgb, px: Rgb, pModifierTable: seq<int>, iModifierTable: int)
    returns (bestScore: int, bestIndex: int)
    requires IsRgb(px) && IsModifierTable(pModifierTable) && 0 <= iModifierTable < 32 && iModifierTable % 4 == 0
    ensures Choice(bestIndex, bestScore) == BestModifier(iModifierTable / 4, base, px)
  {
    ghost var t := iModifierTable / 4;
    ghost var scores := CandidateScores(t, base, px);
    assert 4 * t == iModifierTable;
    bestScore := UInt32Max;
    bestIndex := 0;
    for i := 0 to 4
      invariant i == 0 ==> bestScore == UInt32Max && bestIndex == 0
      invariant i > 0 ==> Choice(bestIndex, bestScore) == ArgMinUpTo(scores, i)
    {
      var modifier := pModifierTable[iModifierTable + i];
      ModifierAt(pModifierTable, t, i);
      ScoreBound(t, base, px, i);
      bestScore, bestIndex := TryModifier(base, px, modifier, i, bestScore, bestIndex);
    }
  }

  /**
   * chooseModifier: reads the base colour and the pixel, searches the four
   * modifiers, and ORs the winning index's bits at bitIndex into low.
   */
  method ChooseModifier(pBaseColors: seq<U8>, icolor: int, pIn: seq<U8>, indice: int,
                        pCompressed: EtcCompressed, bitIndex: int, pModifierTable: seq<int>, iModifierTable: int)
    returns (bestScore: int)
    requires 0 <= icolor && icolor + 3 <= |pBaseColors|
    requires 0 <= indice && indice + 3 <= |pIn|
    requires IsModifierTable(pModifierTable) && 0 <= iModifierTable < 32 && iModifierTable % 4 == 0
    requires 0 <= bitIndex < 16
    modifies pCompressed`low
    ensures var c := BestModifier(iModifierTable / 4, BaseAt(pBaseColors, icolor), PixelFrom(pIn, indice));
      bestScore == c.score && pCompressed.low == old(pCompressed.low) | LowMask(c.index, bitIndex)
  {
    var pixelR := pIn[indice] as int;
    var pixelG := pIn[indice + 1] as int;
    var pixelB := pIn[indice + 2] as int;
    var r := pBaseColors[icolor] as int;
    var g := pBaseColors[icolor + 1] as int;
    var b := pBaseColors[icolor + 2] as int;
    ghost var c := BestModifier(iModifierTable / 4, BaseAt(pBaseColors, icolor), PixelFrom(pIn, indice));
    var bestIndex;
    bestScore, bestIndex := SearchModifiers(Rgb(r, g, b), Rgb(pixelR, pixelG, pixelB), pModifierTable, iModifierTable);
    assert bestIndex == c.index && bestScore == c.score;
    var lowMask := RsLowMask(bestIndex, bitIndex);
    pCompressed.low := pCompressed.low | lowMask;
  }

  /** The values of a sequence of etc1_bytes. */
  function Ints(s: seq<U8>): (u: seq<int>)
    ensures |u| == |s| && forall i :: 0 <= i < |s| ==> u[i] == s[i] as int
  {
    seq(|s|, i requires 0 <= i < |s| => s[i] as int)
  }

  /** The block a 48-byte etc1_byte array holds. */
  function BlockOf(pIn: seq<U8>): (block: seq<int>)
    requires |pIn| == 48
    ensures IsBlock(block) && block == Ints(pIn)
  {
    Ints(pIn)
  }


  /** r, g and b are the channel sums over the valid pixels among the first k the half visits. */
  ghost predicate SummedUpTo(pIn: seq<U8>, inMask: bv32, ps: seq<int>, k: int, r: int, g: int, b: int)
  {
    |pIn| == 48 && IsPixelList(ps) && 0 <= k <= 8
    && r == ValidSum(BlockOf(pIn), ValidFlags(inMask), ps, k, 0)
    && g == ValidSum(BlockOf(pIn), ValidFlags(inMask), ps, k, 1)
    && b == ValidSum(BlockOf(pIn), ValidFlags(inMask), ps, k, 2)
  }

  /**
   * The body of both loop nests of etc_average_colors_subblock: pixel i adds
   * its three bytes to the sums exactly when its mask bit is set, so
   * sums over the first k visited pixels become sums over the first k + 1.
   */
  method AddPixel(pIn: seq<U8>, inMask: bv32, ghost ps: seq<int>, ghost k: int, i: int, r: int, g: int, b: int)
    returns (r': int, g': int, b': int)
    requires IsPixelList(ps) && 0 <= k < 8 && ps[k] == i
    requires SummedUpTo(pIn, inMask, ps, k, r, g, b)
    ensures SummedUpTo(pIn, inMask, ps, k + 1, r', g', b')
  {
    ghost var block := BlockOf(pIn);
    ghost var valid := ValidFlags(inMask);
    assert valid[i] == HasBit(inMask, i);
    r', g', b' := r, g, b;
    if HasBit(inMask, i) {
      var p := i * 3;
      r' := r + pIn[p] as int;
      g' := g + pIn[p + 1] as int;
      b' := b + pIn[p + 2] as int;
      assert block[p] == pIn[p] as int && block[p + 1] == pIn[p + 1] as int && block[p + 2] == pIn[p + 2] as int;
    }
  }

  /**
   * The flipped loop nest of etc_average_colors_subblock: sums each channel
   * over the valid pixels of rows yBase and yBase + 1.
   */
  method SumHalfRows(pIn: seq<U8>, inMask: bv32, second: bool) returns (r: int, g: int, b: int)
    requires |pIn| == 48
    ensures SummedUpTo(pIn, inMask, HalfPixels(true, second), 8, r, g, b)
  {
    ghost var ps := HalfPixels(true, second);
    HalfPixelsOrder(true, second);
    r, g, b := 0, 0, 0;
    ghost var k := 0;
    var yBase := 0;
    if second {
      yBase := 2;
    }
    for y := 0 to 2
      invariant k == 4 * y
      invariant SummedUpTo(pIn, inMask, ps, k, r, g, b)
    {
      var yy := yBase + y;
      RowsOrderRun(ps, yBase, y);
      for x := 0 to 4
        invariant k == 4 * y + x
        invariant SummedUpTo(pIn, inMask, ps, k, r, g, b)
      {
        var i := x + 4 * yy;
        r, g, b := AddPixel(pIn, inMask, ps, k, i, r, g, b);
        k := k + 1;
      }
    }
  }

  /**
   * The non-flipped loop nest of etc_average_colors_subblock: sums each
   * channel over the valid pixels of columns xBase and xBase + 1.
   */
  method SumHalfColumns(pIn: seq<U8>, inMask: bv32, second: bool) returns (r: int, g: int, b: int)
    requires |pIn| == 48
    ensures SummedUpTo(pIn, inMask, HalfPixels(false, second), 8, r, g, b)
  {
    ghost var ps := HalfPixels(false, second);
    HalfPixelsOrder(false, second);
    r, g, b := 0, 0, 0;
    ghost var k := 0;
    var xBase := 0;
    if second {
      xBase := 2;
    }
    for y := 0 to 4
      invariant k == 2 * y
      invariant SummedUpTo(pIn, inMask, ps, k, r, g, b)
    {
      ColumnsOrderRun(ps, xBase, y);
      for x := 0 to 2
        invariant k == 2 * y + x
        invariant SummedUpTo(pIn, inMask, ps, k, r, g, b)
      {
        var xx := xBase + x;
        var i := xx + 4 * y;
        r, g, b := AddPixel(pIn, inMask, ps, k, i, r, g, b);
        k := k + 1;
      }
    }
  }

  /** Both loop nests of etc_average_colors_subblock: rows when flipped, columns otherwise. */
  method SumHalf(pIn: seq<U8>, inMask: bv32, flipped: bool, second: bool) returns (r: int, g: int, b: int)
    requires |pIn| == 48
    ensures SummedUpTo(pIn, inMask, HalfPixels(flipped, second), 8, r, g, b)
  {
    if flipped {
      r, g, b := SumHalfRows(pIn, inMask, second);
    } else {
      r, g, b := SumHalfColumns(pIn, inMask, second);
    }
  }

  /**
   * etc_average_colors_subblock: stores the rounded averages of the half's
   * valid pixels at pColors[icolor..icolor + 3] and changes nothing else.
   */
  method AverageColorsSubblock(pIn: seq<U8>, inMask: bv32, pColors: array<U8>, icolor: int, flipped: bool, second: bool)
    requires |pIn| == 48 && 0 <= icolor && icolor + 3 <= pColors.Length
    modifies pColors
    ensures BaseAt(pColors[..], icolor) == AverageHalf(BlockOf(pIn), ValidFlags(inMask), flipped, second)
    ensures forall j :: 0 <= j < pColors.Length && !(icolor <= j < icolor + 3) ==> pColors[j] == old(pColors[j])
  {
    ghost var avg := AverageHalf(BlockOf(pIn), ValidFlags(inMask), flipped, second);
    var r, g, b := SumHalf(pIn, inMask, flipped, second);
    assert avg == Rgb((r + 4) / 8, (g + 4) / 8, (b + 4) / 8);
    pColors[icolor] := ((r + 4) / 8) as U8;
    pColors[icolor + 1] := ((g + 4) / 8) as U8;
    pColors[icolor + 2] := ((b + 4) / 8) as U8;
  }

  /** The pixel chooseModifier reads at byte 3 * i is pixel i of the block. */
  lemma PixelFromBlock(pIn: seq<U8>, i: int)
    requires |pIn| == 48 && 0 <= i < 16
    ensures PixelFrom(pIn, 3 * i) == PixelAt(BlockOf(pIn), i)
  {
    var block := BlockOf(pIn);
    assert block[3 * i] == pIn[3 * i] as int;
    assert block[3 * i + 1] == pIn[3 * i + 1] as int;
    assert block[3 * i + 2] == pIn[3 * i + 2] as int;
  }

  /**
   * The arguments one etc_encode_subblock_helper call passes down unchanged,
   * with the block, the base colour and the per-pixel modifier
   * indices they determine.
   */
  ghost predicate SearchContext(pIn: seq<U8>, pBaseColors: seq<U8>, icolor: int, pModifierTable: seq<int>, indice: int,
                                block: seq<int>, base: Rgb, chosen: seq<int>)
  {
    |pIn| == 48 && 0 <= icolor && icolor + 3 <= |pBaseColors|
    && IsModifierTable(pModifierTable) && 0 <= indice < 32 && indice % 4 == 0
    && block == BlockOf(pIn) && base == BaseAt(pBaseColors, icolor) && chosen == Chosen(block, base, indice / 4)
  }

  /** score is score0 plus the error of the first k pixels the half visits. */
  ghost predicate ScoredUpTo(score: int, score0: int, block: seq<int>, inMask: bv32, ps: seq<int>, base: Rgb, indice: int, k: int)
  {
    IsBlock(block) && IsPixelList(ps) && 0 <= indice < 32 && 0 <= k <= 8
    && score == score0 + HalfScoreUpTo(block, ValidFlags(inMask), ps, base, indice / 4, k)
  }

  /** low is low0 with the chosen indices of the first k pixels the half visits ORed in. */
  ghost predicate StoredUpTo(low: bv32, low0: bv32, inMask: bv32, ps: seq<int>, chosen: seq<int>, k: int)
  {
    IsPixelList(ps) && IsChoiceList(chosen) && 0 <= k <= 8
    && low == StoredLow(low0, ValidFlags(inMask), ps, chosen, k)
  }

  /**
   * The body of both loop nests of etc_encode_subblock_helper, for the
   * (k+1)-th pixel i of the half: a valid pixel has chooseModifier add its
   * best score and OR its chosen index in at BitIndex(i); an invalid one
   * changes nothing.  Score and index word go from the first k visited pixels
   * to the first k + 1.
   */
  method ChoosePixel(pIn: seq<U8>, inMask: bv32, pCompressed: EtcCompressed, i: int, bitIndex: int,
                     pBaseColors: seq<U8>, icolor: int, pModifierTable: seq<int>, indice: int,
                     ghost block: seq<int>, ghost base: Rgb, ghost chosen: seq<int>, ghost ps: seq<int>, ghost k: int, ghost score0: int, ghost low0: bv32, score: int)
    returns (score': int)
    requires SearchContext(pIn, pBaseColors, icolor, pModifierTable, indice, block, base, chosen)
    requires IsPixelList(ps) && 0 <= k < 8 && ps[k] == i && bitIndex == BitIndex(i)
    requires ScoredUpTo(score, score0, block, inMask, ps, base, indice, k)
    requires StoredUpTo(pCompressed.low, low0, inMask, ps, chosen, k)
    modifies pCompressed`low
    ensures ScoredUpTo(score', score0, block, inMask, ps, base, indice, k + 1)
    ensures StoredUpTo(pCompressed.low, low0, inMask, ps, chosen, k + 1)
  {
    ghost var valid := ValidFlags(inMask);
    score' := score;
    if HasBit(inMask, i) {
      assert valid[i];
      PixelFromBlock(pIn, i);
      ghost var c := BestModifier(indice / 4, base, PixelAt(block, i));
      var s := ChooseModifier(pBaseColors, icolor, pIn, 3 * i, pCompressed, bitIndex, pModifierTable, indice);
      assert s == c.score;
      score' := score + s;
    } else {
      assert !valid[i];
    }
  }

  /**
   * The inner loop of the flipped nest of etc_encode_subblock_helper: the
   * four pixels of row yy, which the half visits at positions k0 .. k0 + 3.
   */
  method SearchRow(pIn: seq<U8>, inMask: bv32, pCompressed: EtcCompressed, yy: int,
                   pBaseColors: seq<U8>, icolor: int, pModifierTable: seq<int>, indice: int,
                   ghost block: seq<int>, ghost base: Rgb, ghost chosen: seq<int>, ghost ps: seq<int>, ghost k0: int, ghost score0: int, ghost low0: bv32, score: int)
    returns (score': int)
    requires SearchContext(pIn, pBaseColors, icolor, pModifierTable, indice, block, base, chosen)
    requires IsPixelList(ps) && 0 <= yy < 4 && k0 <= 4 && RowRun(ps, k0, 0, yy, 4)
    requires ScoredUpTo(score, score0, block, inMask, ps, base, indice, k0)
    requires StoredUpTo(pCompressed.low, low0, inMask, ps, chosen, k0)
    modifies pCompressed`low
    ensures ScoredUpTo(score', score0, block, inMask, ps, base, indice, k0 + 4)
    ensures StoredUpTo(pCompressed.low, low0, inMask, ps, chosen, k0 + 4)
  {
    score' := score;
    ghost var k := k0;
    for x := 0 to 4
      invariant k == k0 + x
      invariant ScoredUpTo(score', score0, block, inMask, ps, base, indice, k)
      invariant StoredUpTo(pCompressed.low, low0, inMask, ps, chosen, k)
    {
      var i := x + 4 * yy;
      BitIndexPlacement(i, x, yy);
      var bitIndex := yy + x * 4;
      score' := ChoosePixel(pIn, inMask, pCompressed, i, bitIndex, pBaseColors, icolor, pModifierTable, indice,
                            block, base, chosen, ps, k, score0, low0, score');
      k := k + 1;
    }
  }

  /**
   * The flipped loop nest of etc_encode_subblock_helper: rows yBase and
   * yBase + 1, returning score0 plus the half's score and ORing the half's
   * index word into low.
   */
  method SearchHalfRows(pIn: seq<U8>, inMask: bv32, pCompressed: EtcCompressed, second: bool,
                        pBaseColors: seq<U8>, icolor: int, pModifierTable: seq<int>, indice: int,
                        ghost block: seq<int>, ghost base: Rgb, ghost chosen: seq<int>, ghost ps: seq<int>, score0: int)
    returns (score: int)
    requires SearchContext(pIn, pBaseColors, icolor, pModifierTable, indice, block, base, chosen)
    requires IsPixelList(ps) && RowsOrder(ps, if second then 2 else 0)
    modifies pCompressed`low
    ensures ScoredUpTo(score, score0, block, inMask, ps, base, indice, 8)
    ensures StoredUpTo(pCompressed.low, old(pCompressed.low), inMask, ps, chosen, 8)
  {
    score := score0;
    ghost var k := 0;
    var yBase := 0;
    if second {
      yBase := 2;
    }
    for y := 0 to 2
      invariant k == 4 * y
      invariant ScoredUpTo(score, score0, block, inMask, ps, base, indice, k)
      invariant StoredUpTo(pCompressed.low, old(pCompressed.low), inMask, ps, chosen, k)
    {
      var yy := yBase + y;
      RowsOrderRun(ps, yBase, y);
      score := SearchRow(pIn, inMask, pCompressed, yy, pBaseColors, icolor, pModifierTable, indice,
                         block, base, chosen, ps, k, score0, old(pCompressed.low), score);
      k := k + 4;
    }
  }

  /**
   * The inner loop of the non-flipped nest of etc_encode_subblock_helper: the
   * pixels of row y in columns xBase and xBase + 1, which the half visits at
   * positions k0 and k0 + 1.
   */
  method SearchRowPair(pIn: seq<U8>, inMask: bv32, pCompressed: EtcCompressed, y: int, xBase: int,
                       pBaseColors: seq<U8>, icolor: int, pModifierTable: seq<int>, indice: int,
                       ghost block: seq<int>, ghost base: Rgb, ghost chosen: seq<int>, ghost ps: seq<int>, ghost k0: int, ghost score0: int, ghost low0: bv32, score: int)
    returns (score': int)
    requires SearchContext(pIn, pBaseColors, icolor, pModifierTable, indice, block, base, chosen)
    requires IsPixelList(ps) && 0 <= y < 4 && 0 <= xBase <= 2 && k0 <= 6 && RowRun(ps, k0, xBase, y, 2)
    requires ScoredUpTo(score, score0, block, inMask, ps, base, indice, k0)
    requires StoredUpTo(pCompressed.low, low0, inMask, ps, chosen, k0)
    modifies pCompressed`low
    ensures ScoredUpTo(score', score0, block, inMask, ps, base, indice, k0 + 2)
    ensures StoredUpTo(pCompressed.low, low0, inMask, ps, chosen, k0 + 2)
  {
    score' := score;
    ghost var k := k0;
    for x := 0 to 2
      invariant k == k0 + x
      invariant ScoredUpTo(score', score0, block, inMask, ps, base, indice, k)
      invariant StoredUpTo(pCompressed.low, low0, inMask, ps, chosen, k)
    {
      var xx := xBase + x;
      var i := xx + 4 * y;
      BitIndexPlacement(i, xx, y);
      var bitIndex := y + xx * 4;
      score' := ChoosePixel(pIn, inMask, pCompressed, i, bitIndex, pBaseColors, icolor, pModifierTable, indice,
                            block, base, chosen, ps, k, score0, low0, score');
      k := k + 1;
    }
  }

  /**
   * The non-flipped loop nest of etc_encode_subblock_helper: columns xBase
   * and xBase + 1, returning score0 plus the half's score and ORing the half's
   * index word into low.
   */
  method SearchHalfColumns(pIn: seq<U8>, inMask: bv32, pCompressed: EtcCompressed, second: bool,
                           pBaseColors: seq<U8>, icolor: int, pModifierTable: seq<int>, indice: int,
                           ghost block: seq<int>, ghost base: Rgb, ghost chosen: seq<int>, ghost ps: seq<int>, score0: int)
    returns (score: int)
    requires SearchContext(pIn, pBaseColors, icolor, pModifierTable, indice, block, base, chosen)
    requires IsPixelList(ps) && ColumnsOrder(ps, if second then 2 else 0)
    modifies pCompressed`low
    ensures ScoredUpTo(score, score0, block, inMask, ps, base, indice, 8)
    ensures StoredUpTo(pCompressed.low, old(pCompressed.low), inMask, ps, chosen, 8)
  {
    score := score0;
    ghost var k := 0;
    var xBase := 0;
    if second {
      xBase := 2;
    }
    for y := 0 to 4
      invariant k == 2 * y
      invariant ScoredUpTo(score, score0, block, inMask, ps, base, indice, k)
      invariant StoredUpTo(pCompressed.low, old(pCompressed.low), inMask, ps, chosen, k)
    {
      ColumnsOrderRun(ps, xBase, y);
      score := SearchRowPair(pIn, inMask, pCompressed, y, xBase, pBaseColors, icolor, pModifierTable, indice,
                             block, base, chosen, ps, k, score0, old(pCompressed.low), score);
      k := k + 2;
    }
  }

  /** Both loop nests of etc_encode_subblock_helper: rows when flipped, columns otherwise. */
  method SearchHalf(pIn: seq<U8>, inMask: bv32, pCompressed: EtcCompressed, flipped: bool, second: bool,
                    pBaseColors: seq<U8>, icolor: int, pModifierTable: seq<int>, indice: int,
                    ghost block: seq<int>, ghost base: Rgb, ghost chosen: seq<int>, ghost ps: seq<int>, score0: int)
    returns (score: int)
    requires SearchContext(pIn, pBaseColors, icolor, pModifierTable, indice, block, base, chosen)
    requires ps == HalfPixels(flipped, second)
    modifies pCompressed`low
    ensures ScoredUpTo(score, score0, block, inMask, ps, base, indice, 8)
    ensures StoredUpTo(pCompressed.low, old(pCompressed.low), inMask, ps, chosen, 8)
  {
    HalfPixelsOrder(flipped, second);
    if flipped {
      score := SearchHalfRows(pIn, inMask, pCompressed, second, pBaseColors, icolor, pModifierTable, indice,
                              block, base, chosen, ps, score0);
    } else {
      score := SearchHalfColumns(pIn, inMask, pCompressed, second, pBaseColors, icolor, pModifierTable, indice,
                                 block, base, chosen, ps, score0);
    }
  }

  /**
   * etc_encode_subblock_helper: adds the half's score to pCompressed.score and
   * ORs the half's index word into pCompressed.low, leaving high alone.
   */
  method EncodeSubblockHelper(pIn: seq<U8>, inMask: bv32, pCompressed: EtcCompressed, flipped: bool, second: bool,
                              pBaseColors: seq<U8>, icolor: int, pModifierTable: seq<int>, indice: int)
    requires |pIn| == 48 && 0 <= icolor && icolor + 3 <= |pBaseColors|
    requires IsModifierTable(pModifierTable) && 0 <= indice < 32 && indice % 4 == 0
    modifies pCompressed`low, pCompressed`score
    ensures ScoredUpTo(pCompressed.score, old(pCompressed.score), BlockOf(pIn), inMask, HalfPixels(flipped, second), BaseAt(pBaseColors, icolor), indice, 8)
    ensures StoredUpTo(pCompressed.low, old(pCompressed.low), inMask, HalfPixels(flipped, second), Chosen(BlockOf(pIn), BaseAt(pBaseColors, icolor), indice / 4), 8)
  {
    var score := SearchHalf(pIn, inMask, pCompressed, flipped, second, pBaseColors, icolor, pModifierTable, indice,
                            BlockOf(pIn), BaseAt(pBaseColors, icolor), Chosen(BlockOf(pIn), BaseAt(pBaseColors, icolor), indice / 4),
                            HalfPixels(flipped, second), pCompressed.score);
    pCompressed.score := score;
  }
}
