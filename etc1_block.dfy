/**
 * The block level of the Java ETC1 encoder: etc_encodeBaseColors' stores,
 * the two codeword loops of etc_encode_block_helper, writeBigEndian and
 * encodeBlock.
 */
module JavaEtc1Block {
  import opened Etc1
  import opened JavaEtc1

  /** The six (short) stores that end etc_encodeBaseColors. */
  method StoreBaseColors(pBaseColors: array<int>, first: Rgb, second: Rgb)
    requires pBaseColors.Length == 6
    modifies pBaseColors
    ensures BaseAt(pBaseColors[..], 0) == first && BaseAt(pBaseColors[..], 3) == second
  {
    pBaseColors[0] := first.r;
    pBaseColors[1] := first.g;
    pBaseColors[2] := first.b;
    pBaseColors[3] := second.r;
    pBaseColors[4] := second.g;
    pBaseColors[5] := second.b;
  }

  /**
   * etc_encodeBaseColors: ORs the base-colour fields of the two averages in
   * pColors into high and stores the two decoded base colours in pBaseColors.
   */
  method EncodeBaseColorsInto(pBaseColors: array<int>, pColors: seq<int>, pCompressed: EtcCompressed)
    requires pBaseColors.Length == 6 && |pColors| == 6
    modifies pBaseColors, pCompressed`high
    ensures var e := EncodeBaseColors(BaseAt(pColors, 0), BaseAt(pColors, 3));
      pCompressed.high == old(pCompressed.high) | e.bits
      && BaseAt(pBaseColors[..], 0) == e.first && BaseAt(pBaseColors[..], 3) == e.second
  {
    var e := EncodeBaseColors(BaseAt(pColors, 0), BaseAt(pColors, 3));
    pCompressed.high := pCompressed.high | e.bits;
    StoreBaseColors(pBaseColors, e.first, e.second);
  }

  /**
   * etc_encode_subblock_helper on temp for codeword t, with the base colour at
   * pBaseColors[icolor..]: h is the half's HalfSearch result, temp's score
   * grows by h.score and h.low is ORed into temp.low.
   */
  method SubblockSearch(pIn: seq<JByte>, inMask: bv32, temp: EtcCompressed, flipped: bool, second: bool,
                        pBaseColors: seq<int>, icolor: int, t: int)
    returns (ghost h: HalfResult)
    requires |pIn| == 48 && 0 <= icolor && icolor + 3 <= |pBaseColors| && 0 <= t < 8
    modifies temp`low, temp`score
    ensures IsHalfSearch(h, BlockOf(pIn), ValidFlags(inMask), flipped, second, BaseAt(pBaseColors, icolor), t)
    ensures temp.score == old(temp.score) + h.score && temp.low == old(temp.low) | h.low
  {
    h := SearchedHalf(BlockOf(pIn), ValidFlags(inMask), flipped, second, BaseAt(pBaseColors, icolor), t);
    ModifierTableValues();
    var indice := 4 * t;
    assert indice / 4 == t;
    EncodeSubblockHelper(pIn, inMask, temp, flipped, second, pBaseColors, icolor, ModifierTable, indice);
    SubblockResult(temp.score, old(temp.score), temp.low, old(temp.low), pIn, inMask, flipped, second, pBaseColors, icolor, indice, h);
  }

  /** What EncodeSubblockHelper's contract says, in terms of the half's search result h. */
  lemma SubblockResult(score: int, score0: int, low: bv32, low0: bv32, pIn: seq<JByte>, inMask: bv32, flipped: bool, second: bool,
                       pBaseColors: seq<int>, icolor: int, indice: int, h: HalfResult)
    requires |pIn| == 48 && 0 <= icolor && icolor + 3 <= |pBaseColors| && 0 <= indice < 32 && indice % 4 == 0
    requires ScoredUpTo(score, score0, BlockOf(pIn), inMask, HalfPixels(flipped, second), BaseAt(pBaseColors, icolor), indice, 8)
    requires StoredUpTo(low, low0, inMask, HalfPixels(flipped, second), Chosen(BlockOf(pIn), BaseAt(pBaseColors, icolor), indice / 4), 8)
    requires IsHalfSearch(h, BlockOf(pIn), ValidFlags(inMask), flipped, second, BaseAt(pBaseColors, icolor), indice / 4)
    ensures score == score0 + h.score && low == low0 | h.low
  {
    StoredHalfSearch(BlockOf(pIn), ValidFlags(inMask), flipped, second, BaseAt(pBaseColors, icolor), indice / 4, low0, h);
  }

  /** temp = {0, originalHigh | t << 5, 0}, then the first half searched with codeword t (result h). */
  method FirstHalfCandidate(pIn: seq<JByte>, inMask: bv32, flipped: bool, pBaseColors: seq<int>, originalHigh: bv32, t: int)
    returns (temp: EtcCompressed, ghost h: HalfResult)
    requires |pIn| == 48 && |pBaseColors| == 6 && 0 <= t < 8
    ensures fresh(temp)
    ensures IsHalfSearch(h, BlockOf(pIn), ValidFlags(inMask), flipped, false, BaseAt(pBaseColors, 0), t)
    ensures temp.high == originalHigh | (Bv(t) << 5) && temp.low == h.low && temp.score == h.score
  {
    temp := new EtcCompressed();
    temp.score := 0;
    temp.high := originalHigh | (Bv(t) << 5);
    temp.low := 0;
    h := SubblockSearch(pIn, inMask, temp, flipped, false, pBaseColors, 0, t);
  }

  /** temp = a copy {score, high | t << 2, low} of the chosen first half, then the second half searched with codeword t (result h). */
  method SecondHalfCandidate(pIn: seq<JByte>, inMask: bv32, flipped: bool, pBaseColors: seq<int>, first: Encoded, t: int)
    returns (temp: EtcCompressed, ghost h: HalfResult)
    requires |pIn| == 48 && |pBaseColors| == 6 && 0 <= t < 8
    ensures fresh(temp)
    ensures IsHalfSearch(h, BlockOf(pIn), ValidFlags(inMask), flipped, true, BaseAt(pBaseColors, 3), t)
    ensures temp.high == first.high | (Bv(t) << 2) && temp.low == first.low | h.low && temp.score == first.score + h.score
  {
    temp := new EtcCompressed();
    temp.score := first.score;
    temp.high := first.high | (Bv(t) << 2);
    temp.low := first.low;
    h := SubblockSearch(pIn, inMask, temp, flipped, true, pBaseColors, 3, t);
  }

  /** One pass of the first loop up to take_best: the record built for codeword t is candidate cs[t]. */
  method FirstHalfPass(pIn: seq<JByte>, inMask: bv32, flipped: bool, pBaseColors: seq<int>, originalHigh: bv32, t: int,
                       ghost base: BaseEncoding, ghost cs: seq<Encoded>)
    returns (temp: EtcCompressed)
    requires |pIn| == 48 && |pBaseColors| == 6 && 0 <= t < 8
    requires BaseAt(pBaseColors, 0) == base.first && originalHigh == HighStart(flipped, base)
    requires AreFirstCandidates(cs, BlockOf(pIn), ValidFlags(inMask), flipped, base)
    ensures fresh(temp)
    ensures temp.high == cs[t].high && temp.low == cs[t].low && temp.score == cs[t].score
    ensures temp.score <= 650250 * 8
  {
    ghost var h;
    temp, h := FirstHalfCandidate(pIn, inMask, flipped, pBaseColors, originalHigh, t);
    FirstCandidateAt(cs, BlockOf(pIn), ValidFlags(inMask), flipped, base, t, h);
  }

  /**
   * The first loop of etc_encode_block_helper: take_best over the eight
   * first-half candidates cs, starting from pCompressed (score Long.MAX_VALUE).
   */
  method SearchFirstHalves(pIn: seq<JByte>, inMask: bv32, flipped: bool, pBaseColors: seq<int>, originalHigh: bv32,
                           pCompressed: EtcCompressed, ghost base: BaseEncoding, ghost cs: seq<Encoded>)
    returns (best: EtcCompressed)
    requires |pIn| == 48 && |pBaseColors| == 6
    requires BaseAt(pBaseColors, 0) == base.first && originalHigh == HighStart(flipped, base) && pCompressed.score == LongMax
    requires AreFirstCandidates(cs, BlockOf(pIn), ValidFlags(inMask), flipped, base)
    ensures best.Value() == cs[BestIndex(cs)]
  {
    best := pCompressed;
    var i := 0;
    while i < 8
      invariant 0 <= i <= 8
      invariant i == 0 ==> best.score == LongMax
      invariant i > 0 ==> best.Value() == cs[BestIndex(cs[..i])]
    {
      var temp := FirstHalfPass(pIn, inMask, flipped, pBaseColors, originalHigh, i, base, cs);
      assert temp.Value() == cs[i];
      if i > 0 {
        BestIndexStep(cs, i);
      }
      best := TakeBestObj(best, temp);
      i := i + 1;
    }
    assert cs[..8] == cs;
  }

  /** One pass of the second loop up to take_best: the record built for codeword t is candidate cs[t]. */
  method SecondHalfPass(pIn: seq<JByte>, inMask: bv32, flipped: bool, pBaseColors: seq<int>, first: Encoded, t: int,
                        ghost base: BaseEncoding, ghost cs: seq<Encoded>)
    returns (temp: EtcCompressed)
    requires |pIn| == 48 && |pBaseColors| == 6 && 0 <= t < 8 && BaseAt(pBaseColors, 3) == base.second
    requires AreSecondCandidates(cs, BlockOf(pIn), ValidFlags(inMask), flipped, base, first)
    ensures fresh(temp)
    ensures temp.high == cs[t].high && temp.low == cs[t].low && temp.score == cs[t].score
  {
    ghost var h;
    temp, h := SecondHalfCandidate(pIn, inMask, flipped, pBaseColors, first, t);
    SecondCandidateAt(cs, BlockOf(pIn), ValidFlags(inMask), flipped, base, first, t, h);
  }

  /** The second loop: take_best over the eight second-half candidates cs built on firstHalf. */
  method SearchSecondHalves(pIn: seq<JByte>, inMask: bv32, flipped: bool, pBaseColors: seq<int>, firstHalf: EtcCompressed,
                            ghost base: BaseEncoding, ghost cs: seq<Encoded>)
    returns (best: EtcCompressed)
    requires |pIn| == 48 && |pBaseColors| == 6 && BaseAt(pBaseColors, 3) == base.second
    requires AreSecondCandidates(cs, BlockOf(pIn), ValidFlags(inMask), flipped, base, firstHalf.Value())
    ensures fresh(best) && best.Value() == cs[BestIndex(cs)]
  {
    var first := firstHalf.Value();
    best := firstHalf;
    var i := 0;
    while i < 8
      invariant 0 <= i <= 8
      invariant i > 0 ==> fresh(best) && best.Value() == cs[BestIndex(cs[..i])]
    {
      var temp := SecondHalfPass(pIn, inMask, flipped, pBaseColors, first, i, base, cs);
      assert temp.Value() == cs[i];
      if i == 0 {
        best := temp;
      } else {
        BestIndexStep(cs, i);
        best := TakeBestObj(best, temp);
      }
      i := i + 1;
    }
    assert cs[..8] == cs;
  }

  /**
   * The start of etc_encode_block_helper: pCompressed is reset to
   * {Long.MAX_VALUE, flip bit, 0}, the base colours are encoded into it and
   * decoded into pBaseColors, and originalHigh keeps the resulting high word.
   */
  method StartBlockHelper(pColors: seq<int>, pCompressed: EtcCompressed, flipped: bool)
    returns (pBaseColors: array<int>, originalHigh: bv32)
    requires |pColors| == 6
    modifies pCompressed
    ensures fresh(pBaseColors) && pBaseColors.Length == 6
    ensures var base := EncodeBaseColors(BaseAt(pColors, 0), BaseAt(pColors, 3));
      originalHigh == HighStart(flipped, base) && pCompressed.score == LongMax
      && BaseAt(pBaseColors[..], 0) == base.first && BaseAt(pBaseColors[..], 3) == base.second
  {
    pCompressed.score := LongMax;
    pCompressed.high := if flipped then 1 else 0;
    pCompressed.low := 0;
    pBaseColors := new int[6];
    EncodeBaseColorsInto(pBaseColors, pColors, pCompressed);
    originalHigh := pCompressed.high;
  }

  /** etc_encode_block_helper: one orientation's best encoding of the block, given the half averages in pColors. */
  method EncodeBlockHelper(pIn: seq<JByte>, inMask: bv32, pColors: seq<int>, pCompressed: EtcCompressed, flipped: bool)
    returns (r: EtcCompressed)
    requires |pIn| == 48 && |pColors| == 6
    modifies pCompressed
    ensures fresh(r)
    ensures IsBlockHelper(r.Value(), BlockOf(pIn), ValidFlags(inMask), BaseAt(pColors, 0), BaseAt(pColors, 3), flipped)
  {
    var pBaseColors, originalHigh := StartBlockHelper(pColors, pCompressed, flipped);
    ghost var base := EncodeBaseColors(BaseAt(pColors, 0), BaseAt(pColors, 3));
    var block := BlockOf(pIn);
    var valid := ValidFlags(inMask);
    ghost var cs1 := FirstCandidates(block, valid, flipped, base);
    FirstCandidatesAre(block, valid, flipped, base);
    var firstHalf := SearchFirstHalves(pIn, inMask, flipped, pBaseColors[..], originalHigh, pCompressed, base, cs1);
    ghost var cs2 := SecondCandidates(block, valid, flipped, base, firstHalf.Value());
    SecondCandidatesAre(block, valid, flipped, base, firstHalf.Value());
    r := SearchSecondHalves(pIn, inMask, flipped, pBaseColors[..], firstHalf, base, cs2);
  }

  /** (byte) w: the low 8 bits of a word as a signed Java byte. */
  function ByteOf(w: bv32): (b: JByte)
    ensures Unsigned(b) == (w & 0xFF) as int
  {
    ToJByte((w & 0xFF) as int)
  }

  /** writeBigEndian: d's four bytes, most significant first, at pOut[i..i + 4]; nothing else changes. */
  method WriteBigEndian(pOut: array<JByte>, i: int, d: bv32)
    requires 0 <= i && i + 4 <= pOut.Length
    modifies pOut
    ensures UnsignedBytes(pOut[i..i + 4]) == BigEndian(d)
    ensures forall j :: 0 <= j < pOut.Length && !(i <= j < i + 4) ==> pOut[j] == old(pOut[j])
  {
    pOut[i] := ByteOf(d >> 24);
    pOut[i + 1] := ByteOf(d >> 16);
    pOut[i + 2] := ByteOf(d >> 8);
    pOut[i + 3] := ByteOf(d);
  }

  /** encodeBlock's two etc_average_colors_subblock calls for one orientation, into pColors[0..3] and pColors[3..6]. */
  method AverageSubblocks(pIn: seq<JByte>, inMask: bv32, pColors: array<int>, flipped: bool)
    requires |pIn| == 48 && pColors.Length == 6
    modifies pColors
    ensures BaseAt(pColors[..], 0) == AverageHalf(BlockOf(pIn), ValidFlags(inMask), flipped, false)
    ensures BaseAt(pColors[..], 3) == AverageHalf(BlockOf(pIn), ValidFlags(inMask), flipped, true)
  {
    AverageColorsSubblock(pIn, inMask, pColors, 0, flipped, false);
    ghost var c1 := Rgb(pColors[0], pColors[1], pColors[2]);
    AverageColorsSubblock(pIn, inMask, pColors, 3, flipped, true);
    assert Rgb(pColors[0], pColors[1], pColors[2]) == c1;
  }

  /**
   * One orientation of encodeBlock: the two half averages into a fresh
   * colour array, then etc_encode_block_helper on a fresh EtcCompressed.
   */
  method EncodeOrientation(pIn: seq<JByte>, inMask: bv32, flipped: bool) returns (r: EtcCompressed)
    requires |pIn| == 48
    ensures var block, valid := BlockOf(pIn), ValidFlags(inMask);
      IsBlockHelper(r.Value(), block, valid, AverageHalf(block, valid, flipped, false), AverageHalf(block, valid, flipped, true), flipped)
  {
    var colors := new int[6];
    AverageSubblocks(pIn, inMask, colors, flipped);
    var c := colors[..];
    r := new EtcCompressed();
    r := EncodeBlockHelper(pIn, inMask, c, r, flipped);
  }

  /**
   * The search part of encodeBlock: both orientations' best encodings and
   * take_best between them.
   */
  method EncodeBest(pIn: seq<JByte>, inMask: bv32) returns (a: EtcCompressed)
    requires |pIn| == 48
    ensures IsBlockWords(a.Value(), BlockOf(pIn), inMask)
  {
    a := EncodeOrientation(pIn, inMask, false);
    var b := EncodeOrientation(pIn, inMask, true);
    ghost var block, valid := BlockOf(pIn), ValidFlags(inMask);
    EncodeBlockWordsOf(block, inMask, AverageHalf(block, valid, false, false), AverageHalf(block, valid, false, true),
      AverageHalf(block, valid, true, false), AverageHalf(block, valid, true, true), a.Value(), b.Value());
    a := TakeBestObj(a, b);
  }

  /** encodeBlock's two writeBigEndian calls: high word, then low word, in pOut[0..8]. */
  method WriteWords(pOut: array<JByte>, high: bv32, low: bv32)
    requires 8 <= pOut.Length
    modifies pOut
    ensures UnsignedBytes(pOut[..8]) == BigEndian(high) + BigEndian(low)
    ensures pOut[8..] == old(pOut[8..])
  {
    WriteBigEndian(pOut, 0, high);
    WriteBigEndian(pOut, 4, low);
    assert pOut[..8] == pOut[0..4] + pOut[4..8];
  }

  /**
   * encodeBlock: the block's ETC1 encoding, high word then low word, in the
   * first 8 bytes of pOut; nothing else changes.
   */
  method EncodeBlock(pIn: seq<JByte>, inMask: bv32, pOut: array<JByte>)
    requires |pIn| == 48 && 8 <= pOut.Length
    modifies pOut
    ensures UnsignedBytes(pOut[..8]) == Etc1.EncodeBlock(BlockOf(pIn), inMask)
    ensures pOut[8..] == old(pOut[8..])
  {
    var a := EncodeBest(pIn, inMask);
    EncodeBlockOf(BlockOf(pIn), inMask, a.Value());
    WriteWords(pOut, a.high, a.low);
  }
}
