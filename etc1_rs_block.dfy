/**
 * The block level of the RenderScript ETC1 encoder: etc_encodeBaseColors'
 * stores, the two codeword loops of etc_encode_block_helper, which update the
 * caller's etc_compressed struct in place, writeBigEndian and
 * etc1_encode_block.
 */
module RsEtc1Block {
  import opened Etc1
  import opened RsEtc1

  /** *a = *b: a struct copy. */
  method Assign(a: EtcCompressed, b: EtcCompressed)
    modifies a
    ensures a.Value() == old(b.Value())
  {
    a.high, a.low, a.score := b.high, b.low, b.score;
  }

  /** The six stores that end etc_encodeBaseColors. */
  method StoreBaseColors(pBaseColors: array<U8>, first: Rgb, second: Rgb)
    requires pBaseColors.Length == 6 && IsRgb(first) && IsRgb(second)
    modifies pBaseColors
    ensures BaseAt(pBaseColors[..], 0) == first && BaseAt(pBaseColors[..], 3) == second
  {
    pBaseColors[0] := first.r as U8;
    pBaseColors[1] := first.g as U8;
    pBaseColors[2] := first.b as U8;
    pBaseColors[3] := second.r as U8;
    pBaseColors[4] := second.g as U8;
    pBaseColors[5] := second.b as U8;
  }

  /**
   * etc_encodeBaseColors: ORs the base-colour fields of the two averages in
   * pColors into high and stores the two decoded base colours in pBaseColors.
   */
  method EncodeBaseColorsInto(pBaseColors: array<U8>, pColors: seq<U8>, pCompressed: EtcCompressed)
    requires pBaseColors.Length == 6 && |pColors| == 6
    modifies pBaseColors, pCompressed`high
    ensures var e := EncodeBaseColors(BaseAt(pColors, 0), BaseAt(pColors, 3));
      pCompressed.high == old(pCompressed.high) | e.bits
      && BaseAt(pBaseColors[..], 0) == e.first && BaseAt(pBaseColors[..], 3) == e.second
  {
    var e := EncodeBaseColors(BaseAt(pColors, 0), BaseAt(pColors, 3));
    pCompressed.high := pCompressed.high | e.bits;
    StoreBaseColors(pBaseColors, e.first, e.second);
  }

  /**
   * etc_encode_subblock_helper on temp for codeword t, with the base colour at
   * pBaseColors[icolor..]: h is the half's HalfSearch result, temp's score
   * grows by h.score and h.low is ORed into temp.low.
   */
  method SubblockSearch(pIn: seq<U8>, inMask: bv32, temp: EtcCompressed, flipped: bool, second: bool,
                        pBaseColors: seq<U8>, icolor: int, t: int)
    returns (ghost h: HalfResult)
    requires |pIn| == 48 && 0 <= icolor && icolor + 3 <= |pBaseColors| && 0 <= t < 8
    modifies temp`low, temp`score
    ensures IsHalfSearch(h, BlockOf(pIn), ValidFlags(inMask), flipped, second, BaseAt(pBaseColors, icolor), t)
    ensures temp.score == old(temp.score) + h.score && temp.low == old(temp.low) | h.low
  {
    h := SearchedHalf(BlockOf(pIn), ValidFlags(inMask), flipped, second, BaseAt(pBaseColors, icolor), t);
    ModifierTableValues();
    var indice := 4 * t;
    assert indice / 4 == t;
    EncodeSubblockHelper(pIn, inMask, temp, flipped, second, pBaseColors, icolor, ModifierTable, indice);
    SubblockResult(temp.score, old(temp.score), temp.low, old(temp.low), pIn, inMask, flipped, second, pBaseColors, icolor, indice, h);
  }

  /** What EncodeSubblockHelper's contract says, in terms of the half's search result h. */
  lemma SubblockResult(score: int, score0: int, low: bv32, low0: bv32, pIn: seq<U8>, inMask: bv32, flipped: bool, second: bool,
                       pBaseColors: seq<U8>, icolor: int, indice: int, h: HalfResult)
    requires |pIn| == 48 && 0 <= icolor && icolor + 3 <= |pBaseColors| && 0 <= indice < 32 && indice % 4 == 0
    requires ScoredUpTo(score, score0, BlockOf(pIn), inMask, HalfPixels(flipped, second), BaseAt(pBaseColors, icolor), indice, 8)
    requires StoredUpTo(low, low0, inMask, HalfPixels(flipped, second), Chosen(BlockOf(pIn), BaseAt(pBaseColors, icolor), indice / 4), 8)
    requires IsHalfSearch(h, BlockOf(pIn), ValidFlags(inMask), flipped, second, BaseAt(pBaseColors, icolor), indice / 4)
    ensures score == score0 + h.score && low == low0 | h.low
  {
    StoredHalfSearch(BlockOf(pIn), ValidFlags(inMask), flipped, second, BaseAt(pBaseColors, icolor), indice / 4, low0, h);
  }

  /** A local temp = {0, originalHigh | t << 5, 0}, then the first half searched with codeword t (result h). */
  method FirstHalfCandidate(pIn: seq<U8>, inMask: bv32, flipped: bool, pBaseColors: seq<U8>, originalHigh: bv32, t: int)
    returns (temp: EtcCompressed, ghost h: HalfResult)
    requires |pIn| == 48 && |pBaseColors| == 6 && 0 <= t < 8
    ensures fresh(temp)
    ensures IsHalfSearch(h, BlockOf(pIn), ValidFlags(inMask), flipped, false, BaseAt(pBaseColors, 0), t)
    ensures temp.high == originalHigh | (Bv(t) << 5) && temp.low == h.low && temp.score == h.score
  {
    temp := new EtcCompressed();
    temp.score := 0;
    temp.high := originalHigh | (Bv(t) << 5);
    temp.low := 0;
    h := SubblockSearch(pIn, inMask, temp, flipped, false, pBaseColors, 0, t);
  }

  /** A local temp = {score, high | t << 2, low} of the chosen first half, then the second half searched with codeword t (result h). */
  method SecondHalfCandidate(pIn: seq<U8>, inMask: bv32, flipped: bool, pBaseColors: seq<U8>, first: Encoded, t: int)
    returns (temp: EtcCompressed, ghost h: HalfResult)
    requires |pIn| == 48 && |pBaseColors| == 6 && 0 <= t < 8
    ensures fresh(temp)
    ensures IsHalfSearch(h, BlockOf(pIn), ValidFlags(inMask), flipped, true, BaseAt(pBaseColors, 3), t)
    ensures temp.high == first.high | (Bv(t) << 2) && temp.low == first.low | h.low && temp.score == first.score + h.score
  {
    temp := new EtcCompressed();
    temp.score := first.score;
    temp.high := first.high | (Bv(t) << 2);
    temp.low := first.low;
    h := SubblockSearch(pIn, inMask, temp, flipped, true, pBaseColors, 3, t);
  }

  /** One pass of the first loop up to take_best: the struct built for codeword t is candidate cs[t]. */
  method FirstHalfPass(pIn: seq<U8>, inMask: bv32, flipped: bool, pBaseColors: seq<U8>, originalHigh: bv32, t: int,
                       ghost base: BaseEncoding, ghost cs: seq<Encoded>)
    returns (temp: EtcCompressed)
    requires |pIn| == 48 && |pBaseColors| == 6 && 0 <= t < 8
    requires BaseAt(pBaseColors, 0) == base.first && originalHigh == HighStart(flipped, base)
    requires AreFirstCandidates(cs, BlockOf(pIn), ValidFlags(inMask), flipped, base)
    ensures fresh(temp)
    ensures temp.high == cs[t].high && temp.low == cs[t].low && temp.score == cs[t].score
    ensures temp.score <= 650250 * 8
  {
    ghost var h;
    temp, h := FirstHalfCandidate(pIn, inMask, flipped, pBaseColors, originalHigh, t);
    FirstCandidateAt(cs, BlockOf(pIn), ValidFlags(inMask), flipped, base, t, h);
  }

  /**
   * The first loop of etc_encode_block_helper: take_best of each of the
   * eight first-half candidates cs into pCompressed, whose score starts at ~0.
   */
  method SearchFirstHalves(pIn: seq<U8>, inMask: bv32, flipped: bool, pBaseColors: seq<U8>, originalHigh: bv32,
                           pCompressed: EtcCompressed, ghost base: BaseEncoding, ghost cs: seq<Encoded>)
    requires |pIn| == 48 && |pBaseColors| == 6
    requires BaseAt(pBaseColors, 0) == base.first && originalHigh == HighStart(flipped, base) && pCompressed.score == UInt32Max
    requires AreFirstCandidates(cs, BlockOf(pIn), ValidFlags(inMask), flipped, base)
    modifies pCompressed
    ensures pCompressed.Value() == cs[BestIndex(cs)]
  {
    var i := 0;
    while i < 8
      invariant 0 <= i <= 8
      invariant i == 0 ==> pCompressed.score == UInt32Max
      invariant i > 0 ==> pCompressed.Value() == cs[BestIndex(cs[..i])]
    {
      var temp := FirstHalfPass(pIn, inMask, flipped, pBaseColors, originalHigh, i, base, cs);
      assert temp.Value() == cs[i];
      if i > 0 {
        BestIndexStep(cs, i);
      }
      TakeBestInto(pCompressed, temp);
      i := i + 1;
    }
    assert cs[..8] == cs;
  }

  /** One pass of the second loop up to take_best: the struct built for codeword t is candidate cs[t]. */
  method SecondHalfPass(pIn: seq<U8>, inMask: bv32, flipped: bool, pBaseColors: seq<U8>, first: Encoded, t: int,
                        ghost base: BaseEncoding, ghost cs: seq<Encoded>)
    returns (temp: EtcCompressed)
    requires |pIn| == 48 && |pBaseColors| == 6 && 0 <= t < 8 && BaseAt(pBaseColors, 3) == base.second
    requires AreSecondCandidates(cs, BlockOf(pIn), ValidFlags(inMask), flipped, base, first)
    ensures fresh(temp)
    ensures temp.high == cs[t].high && temp.low == cs[t].low && temp.score == cs[t].score
  {
    ghost var h;
    temp, h := SecondHalfCandidate(pIn, inMask, flipped, pBaseColors, first, t);
    SecondCandidateAt(cs, BlockOf(pIn), ValidFlags(inMask), flipped, base, first, t, h);
  }

  /**
   * The second loop: firstHalf is a copy of pCompressed; the candidate for
   * codeword 0 is copied into pCompressed, the other seven go through take_best.
   */
  method SearchSecondHalves(pIn: seq<U8>, inMask: bv32, flipped: bool, pBaseColors: seq<U8>, pCompressed: EtcCompressed,
                            ghost base: BaseEncoding, ghost cs: seq<Encoded>)
    requires |pIn| == 48 && |pBaseColors| == 6 && BaseAt(pBaseColors, 3) == base.second
    requires AreSecondCandidates(cs, BlockOf(pIn), ValidFlags(inMask), flipped, base, pCompressed.Value())
    modifies pCompressed
    ensures pCompressed.Value() == cs[BestIndex(cs)]
  {
    var firstHalf := pCompressed.Value();
    var i := 0;
    while i < 8
      invariant 0 <= i <= 8
      invariant i > 0 ==> pCompressed.Value() == cs[BestIndex(cs[..i])]
    {
      var temp := SecondHalfPass(pIn, inMask, flipped, pBaseColors, firstHalf, i, base, cs);
      assert temp.Value() == cs[i];
      if i == 0 {
        Assign(pCompressed, temp);
      } else {
        BestIndexStep(cs, i);
        TakeBestInto(pCompressed, temp);
      }
      i := i + 1;
    }
    assert cs[..8] == cs;
  }

  /**
   * The start of etc_encode_block_helper: pCompressed is reset to
   * {~0, flip bit, 0}, the base colours are encoded into it and decoded into
   * pBaseColors, and originalHigh keeps the resulting high word.
   */
  method StartBlockHelper(pColors: seq<U8>, pCompressed: EtcCompressed, flipped: bool)
    returns (pBaseColors: array<U8>, originalHigh: bv32)
    requires |pColors| == 6
    modifies pCompressed
    ensures fresh(pBaseColors) && pBaseColors.Length == 6
    ensures var base := EncodeBaseColors(BaseAt(pColors, 0), BaseAt(pColors, 3));
      originalHigh == HighStart(flipped, base) && pCompressed.score == UInt32Max
      && BaseAt(pBaseColors[..], 0) == base.first && BaseAt(pBaseColors[..], 3) == base.second
  {
    pCompressed.score := UInt32Max;
    pCompressed.high := if flipped then 1 else 0;
    pCompressed.low := 0;
    pBaseColors := new U8[6];
    EncodeBaseColorsInto(pBaseColors, pColors, pCompressed);
    originalHigh := pCompressed.high;
  }

  /**
   * etc_encode_block_helper: pCompressed ends up holding one orientation's
   * best encoding of the block, given the half averages in pColors.
   */
  method EncodeBlockHelper(pIn: seq<U8>, inMask: bv32, pColors: seq<U8>, pCompressed: EtcCompressed, flipped: bool)
    requires |pIn| == 48 && |pColors| == 6
    modifies pCompressed
    ensures IsBlockHelper(pCompressed.Value(), BlockOf(pIn), ValidFlags(inMask), BaseAt(pColors, 0), BaseAt(pColors, 3), flipped)
  {
    var pBaseColors, originalHigh := StartBlockHelper(pColors, pCompressed, flipped);
    ghost var base := EncodeBaseColors(BaseAt(pColors, 0), BaseAt(pColors, 3));
    ghost var block := BlockOf(pIn);
    ghost var valid := ValidFlags(inMask);
    ghost var cs1 := FirstCandidates(block, valid, flipped, base);
    FirstCandidatesAre(block, valid, flipped, base);
    SearchFirstHalves(pIn, inMask, flipped, pBaseColors[..], originalHigh, pCompressed, base, cs1);
    ghost var cs2 := SecondCandidates(block, valid, flipped, base, pCompressed.Value());
    SecondCandidatesAre(block, valid, flipped, base, pCompressed.Value());
    SearchSecondHalves(pIn, inMask, flipped, pBaseColors[..], pCompressed, base, cs2);
  }

  /** (etc1_byte) w: the low 8 bits of a word. */
  function ByteOf(w: bv32): (b: U8)
    ensures b as int == (w & 0xFF) as int
  {
    (w & 0xFF) as int as U8
  }

  /** writeBigEndian: d's four bytes, most significant first, at pOut[i..i + 4]; nothing else changes. */
  method WriteBigEndian(pOut: array<U8>, i: int, d: bv32)
    requires 0 <= i && i + 4 <= pOut.Length
    modifies pOut
    ensures Ints(pOut[i..i + 4]) == BigEndian(d)
    ensures forall j :: 0 <= j < pOut.Length && !(i <= j < i + 4) ==> pOut[j] == old(pOut[j])
  {
    pOut[i] := ByteOf(d >> 24);
    pOut[i + 1] := ByteOf(d >> 16);
    pOut[i + 2] := ByteOf(d >> 8);
    pOut[i + 3] := ByteOf(d);
  }

  /** The two etc_average_colors_subblock calls for one orientation, into pColors[0..3] and pColors[3..6]. */
  method AverageSubblocks(pIn: seq<U8>, inMask: bv32, pColors: array<U8>, flipped: bool)
    requires |pIn| == 48 && pColors.Length == 6
    modifies pColors
    ensures BaseAt(pColors[..], 0) == AverageHalf(BlockOf(pIn), ValidFlags(inMask), flipped, false)
    ensures BaseAt(pColors[..], 3) == AverageHalf(BlockOf(pIn), ValidFlags(inMask), flipped, true)
  {
    AverageColorsSubblock(pIn, inMask, pColors, 0, flipped, false);
    ghost var c1 := BaseAt(pColors[..], 0);
    AverageColorsSubblock(pIn, inMask, pColors, 3, flipped, true);
    assert BaseAt(pColors[..], 0) == c1;
  }

  /**
   * The four etc_average_colors_subblock calls of etc1_encode_block, into
   * the local arrays colors (not flipped) and flippedColors.
   */
  method AverageAll(pIn: seq<U8>, inMask: bv32) returns (colors: seq<U8>, flippedColors: seq<U8>)
    requires |pIn| == 48
    ensures |colors| == 6 && |flippedColors| == 6
    ensures var block, valid := BlockOf(pIn), ValidFlags(inMask);
      BaseAt(colors, 0) == AverageHalf(block, valid, false, false) && BaseAt(colors, 3) == AverageHalf(block, valid, false, true)
      && BaseAt(flippedColors, 0) == AverageHalf(block, valid, true, false) && BaseAt(flippedColors, 3) == AverageHalf(block, valid, true, true)
  {
    var c := new U8[6];
    var f := new U8[6];
    AverageSubblocks(pIn, inMask, c, false);
    AverageSubblocks(pIn, inMask, f, true);
    colors, flippedColors := c[..], f[..];
  }

  /** etc_encode_block_helper on a fresh etc_compressed local (a or b of etc1_encode_block). */
  method NewBlockHelper(pIn: seq<U8>, inMask: bv32, pColors: seq<U8>, flipped: bool) returns (r: EtcCompressed)
    requires |pIn| == 48 && |pColors| == 6
    ensures fresh(r)
    ensures IsBlockHelper(r.Value(), BlockOf(pIn), ValidFlags(inMask), BaseAt(pColors, 0), BaseAt(pColors, 3), flipped)
  {
    r := new EtcCompressed();
    EncodeBlockHelper(pIn, inMask, pColors, r, flipped);
  }

  /**
   * The search part of etc1_encode_block: the four half averages,
   * etc_encode_block_helper into a and into b, and take_best(&a, &b).
   */
  method EncodeBest(pIn: seq<U8>, inMask: bv32) returns (a: EtcCompressed)
    requires |pIn| == 48
    ensures IsBlockWords(a.Value(), BlockOf(pIn), inMask)
  {
    var colors, flippedColors := AverageAll(pIn, inMask);
    a := NewBlockHelper(pIn, inMask, colors, false);
    var b := NewBlockHelper(pIn, inMask, flippedColors, true);
    EncodeBlockWordsOf(BlockOf(pIn), inMask, BaseAt(colors, 0), BaseAt(colors, 3),
      BaseAt(flippedColors, 0), BaseAt(flippedColors, 3), a.Value(), b.Value());
    TakeBestInto(a, b);
  }

  /** The two writeBigEndian calls: high word, then low word, in pOut[0..8]. */
  method WriteWords(pOut: array<U8>, high: bv32, low: bv32)
    requires 8 <= pOut.Length
    modifies pOut
    ensures Ints(pOut[..8]) == BigEndian(high) + BigEndian(low)
    ensures pOut[8..] == old(pOut[8..])
  {
    WriteBigEndian(pOut, 0, high);
    WriteBigEndian(pOut, 4, low);
    assert pOut[..8] == pOut[0..4] + pOut[4..8];
  }

  /**
   * etc1_encode_block: the block's ETC1 encoding, high word then low word, in
   * the first 8 bytes of pOut; nothing else changes.
   */
  method EncodeBlock(pIn: seq<U8>, inMask: bv32, pOut: array<U8>)
    requires |pIn| == 48 && 8 <= pOut.Length
    modifies pOut
    ensures Ints(pOut[..8]) == Etc1.EncodeBlock(BlockOf(pIn), inMask)
    ensures pOut[8..] == old(pOut[8..])
  {
    var a := EncodeBest(pIn, inMask);
    EncodeBlockOf(BlockOf(pIn), inMask, a.Value());
    WriteWords(pOut, a.high, a.low);
  }
}
