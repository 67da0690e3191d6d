// Properties of the shared ETC1 encoder specification: the base-colour
// fields of the high word, the codeword and flip fields written by the
// block helper, the big-endian byte order, and the output for an empty mask.

module Etc1Props {
  import opened Etc1

  // ---------------------------------------------------------------------
  // Base-colour fields of the high word
  // ---------------------------------------------------------------------

  /** The differential packing (5-bit bases at 27/19/11, 3-bit deltas at 24/16/8, bit 1) read back field by field. */
  lemma PackDifferential(r: bv32, dr: bv32, g: bv32, dg: bv32, b: bv32, db: bv32)
    requires r < 32 && g < 32 && b < 32 && dr < 8 && dg < 8 && db < 8
    ensures var w := (r << 27) | (dr << 24) | (g << 19) | (dg << 16) | (b << 11) | (db << 8) | 2;
      w >> 27 == r && (w >> 24) & 7 == dr && (w >> 19) & 31 == g && (w >> 16) & 7 == dg
      && (w >> 11) & 31 == b && (w >> 8) & 7 == db && w & 0xFF == 2
  {
  }

  /** The individual packing (4-bit fields at 28, 24, 20, 16, 12, 8) read back field by field. */
  lemma PackIndividual(r1: bv32, r2: bv32, g1: bv32, g2: bv32, b1: bv32, b2: bv32)
    requires r1 < 16 && r2 < 16 && g1 < 16 && g2 < 16 && b1 < 16 && b2 < 16
    ensures var w := (r1 << 28) | (r2 << 24) | (g1 << 20) | (g2 << 16) | (b1 << 12) | (b2 << 8);
      w >> 28 == r1 && (w >> 24) & 15 == r2 && (w >> 20) & 15 == g1 && (w >> 16) & 15 == g2
      && (w >> 12) & 15 == b1 && (w >> 8) & 15 == b2 && w & 0xFF == 0
  {
  }

  /** A 3-bit two's-complement delta in [-4, 3] decodes (through the extension's table) back to itself. */
  lemma LookupDelta(d: int)
    requires InRange4BitSigned(d)
    ensures Lookup[d % 8] == d
  {
  }

  /** Bv of a small value is a small word. */
  lemma BvBelow(n: int, k: int)
    requires 0 <= n < k && (k == 8 || k == 16 || k == 32)
    ensures Bv(n) < k as bv32
  {
    BvValue(n);
  }

  /**
   * Differential packing: the high word holds the three 5-bit first colours
   * and the three deltas modulo 8 at the extension's positions, with bit 1
   * set.
   */
  lemma DifferentialFields(r51: int, g51: int, b51: int, dr: int, dg: int, db: int)
    requires 0 <= r51 < 32 && 0 <= g51 < 32 && 0 <= b51 < 32
    ensures var w := DifferentialBase(r51, g51, b51, dr, dg, db).bits;
      w >> 27 == Bv(r51) && (w >> 24) & 7 == Bv(dr % 8) && (w >> 19) & 31 == Bv(g51)
      && (w >> 16) & 7 == Bv(dg % 8) && (w >> 11) & 31 == Bv(b51) && (w >> 8) & 7 == Bv(db % 8)
      && w & 0xFF == 2
  {
    BvBelow(r51, 32); BvBelow(g51, 32); BvBelow(b51, 32);
    BvBelow(dr % 8, 8); BvBelow(dg % 8, 8); BvBelow(db % 8, 8);
    PackDifferential(Bv(r51), Bv(dr % 8), Bv(g51), Bv(dg % 8), Bv(b51), Bv(db % 8));
  }

  /**
   * Differential packing: the second base colour is what a decoder rebuilds
   * from the 5-bit first colour and the stored 3-bit delta (convertDiff).
   */
  lemma DifferentialSecond(r51: int, g51: int, b51: int, dr: int, dg: int, db: int)
    requires 0 <= r51 < 32 && 0 <= g51 < 32 && 0 <= b51 < 32
    requires InRange4BitSigned(dr) && InRange4BitSigned(dg) && InRange4BitSigned(db)
    ensures var e := DifferentialBase(r51, g51, b51, dr, dg, db);
      e.second.r == ConvertDiff(r51, dr % 8) && e.second.g == ConvertDiff(g51, dg % 8)
      && e.second.b == ConvertDiff(b51, db % 8)
  {
    ChannelDiff(r51, dr); ChannelDiff(g51, dg); ChannelDiff(b51, db);
  }

  /** One channel: the decoder's convertDiff of the stored delta gives the 5-bit second colour expanded. */
  lemma ChannelDiff(c: int, d: int)
    requires 0 <= c < 32 && InRange4BitSigned(d)
    ensures ConvertDiff(c, d % 8) == Convert5To8(c + d)
  {
    LookupDelta(d);
    assert c % 32 + Lookup[d % 8] == c + d;
  }

  /** Individual packing: six 4-bit fields, first and second colour interleaved per channel, bit 1 clear. */
  lemma IndividualFields(r41: int, g41: int, b41: int, r42: int, g42: int, b42: int)
    requires 0 <= r41 < 16 && 0 <= g41 < 16 && 0 <= b41 < 16 && 0 <= r42 < 16 && 0 <= g42 < 16 && 0 <= b42 < 16
    ensures var w := IndividualBase(r41, g41, b41, r42, g42, b42).bits;
      w >> 28 == Bv(r41) && (w >> 24) & 15 == Bv(r42) && (w >> 20) & 15 == Bv(g41)
      && (w >> 16) & 15 == Bv(g42) && (w >> 12) & 15 == Bv(b41) && (w >> 8) & 15 == Bv(b42)
      && w & 0xFF == 0
  {
    BvBelow(r41, 16); BvBelow(g41, 16); BvBelow(b41, 16);
    BvBelow(r42, 16); BvBelow(g42, 16); BvBelow(b42, 16);
    PackIndividual(Bv(r41), Bv(r42), Bv(g41), Bv(g42), Bv(b41), Bv(b42));
  }

  /** The differential flag (bit 1 of the high word) is set exactly when the deltas fit, and the low byte holds nothing else. */
  lemma DifferentialBit(c1: Rgb, c2: Rgb)
    ensures var e := EncodeBaseColors(c1, c2);
      (e.bits & 2 == 2 <==> Differential(c1, c2)) && e.bits & 0xFD == 0
  {
    var r51, g51, b51 := Convert8To5(c1.r), Convert8To5(c1.g), Convert8To5(c1.b);
    if Differential(c1, c2) {
      DifferentialFields(r51, g51, b51, Convert8To5(c2.r) - r51, Convert8To5(c2.g) - g51, Convert8To5(c2.b) - b51);
    } else {
      IndividualFields(Convert8To4(c1.r), Convert8To4(c1.g), Convert8To4(c1.b),
                       Convert8To4(c2.r), Convert8To4(c2.g), Convert8To4(c2.b));
    }
  }

  // ---------------------------------------------------------------------
  // Codeword and flip fields
  // ---------------------------------------------------------------------

  /** Setting the flip bit and two codewords above a base-colour word whose low byte is 0 or 2. */
  lemma PackControl(bits: bv32, flipped: bool, t1: int, t2: int)
    requires bits & 0xFD == 0 && 0 <= t1 < 8 && 0 <= t2 < 8
    ensures var w := (((if flipped then 1 else 0) | bits) | (Bv(t1) << 5)) | (Bv(t2) << 2);
      (w & 1 == 1 <==> flipped) && (w >> 5) & 7 == Bv(t1) && (w >> 2) & 7 == Bv(t2) && w & 2 == bits & 2 && w >> 8 == bits >> 8
  {
    BvBelow(t1, 8);
    BvBelow(t2, 8);
  }

  /** First-half candidate t: flip bit and base fields with the codeword in bits 5-7. */
  lemma FirstHigh(block: seq<int>, valid: seq<bool>, flipped: bool, base: BaseEncoding, cs1: seq<Encoded>, t: int)
    requires IsBlock(block) && |valid| == 16 && 0 <= t < 8
    requires AreFirstCandidates(cs1, block, valid, flipped, base)
    ensures cs1[t].high == HighStart(flipped, base) | (Bv(t) << 5)
  {
    var h := SearchedHalf(block, valid, flipped, false, base.first, t);
    FirstCandidateAt(cs1, block, valid, flipped, base, t, h);
  }

  /** Second-half candidate t: the first half's high word with the codeword in bits 2-4. */
  lemma SecondHigh(block: seq<int>, valid: seq<bool>, flipped: bool, base: BaseEncoding, first: Encoded, cs2: seq<Encoded>, t: int)
    requires IsBlock(block) && |valid| == 16 && 0 <= t < 8
    requires AreSecondCandidates(cs2, block, valid, flipped, base, first)
    ensures cs2[t].high == first.high | (Bv(t) << 2)
  {
    var h := SearchedHalf(block, valid, flipped, true, base.second, t);
    SecondCandidateAt(cs2, block, valid, flipped, base, first, t, h);
  }

  /**
   * etc_encode_block_helper's high word, for the candidate lists cs1 and
   * cs2 of its two loops and the codewords t1 and t2 they keep (the first
   * of least score, BestIndex): over a base whose low byte is 0 or 2 (as
   * DifferentialBit shows for every encoded base) the flip bit is bit 0,
   * t1 is in bits 5-7, t2 in bits 2-4, and the base-colour fields and the
   * differential bit are unchanged.
   */
  lemma CandidateControl(block: seq<int>, valid: seq<bool>, flipped: bool, base: BaseEncoding,
                         cs1: seq<Encoded>, cs2: seq<Encoded>, t1: int, t2: int)
    requires IsBlock(block) && |valid| == 16 && base.bits & 0xFD == 0
    requires AreFirstCandidates(cs1, block, valid, flipped, base) && t1 == BestIndex(cs1)
    requires AreSecondCandidates(cs2, block, valid, flipped, base, cs1[t1]) && t2 == BestIndex(cs2)
    ensures var high := cs2[t2].high;
      (high & 1 == 1 <==> flipped) && (high >> 5) & 7 == Bv(t1) && (high >> 2) & 7 == Bv(t2)
      && high >> 8 == base.bits >> 8 && high & 2 == base.bits & 2
  {
    FirstHigh(block, valid, flipped, base, cs1, t1);
    SecondHigh(block, valid, flipped, base, cs1[t1], cs2, t2);
    PackControl(base.bits, flipped, t1, t2);
  }

  /**
   * The block helper's score is the sum of the two halves' search scores,
   * h1 and h2, for the kept codewords.
   */
  lemma CandidateScore(block: seq<int>, valid: seq<bool>, flipped: bool, base: BaseEncoding,
                       cs1: seq<Encoded>, cs2: seq<Encoded>, t1: int, t2: int) returns (h1: HalfResult, h2: HalfResult)
    requires IsBlock(block) && |valid| == 16
    requires AreFirstCandidates(cs1, block, valid, flipped, base) && t1 == BestIndex(cs1)
    requires AreSecondCandidates(cs2, block, valid, flipped, base, cs1[t1]) && t2 == BestIndex(cs2)
    ensures IsHalfSearch(h1, block, valid, flipped, false, base.first, t1)
    ensures IsHalfSearch(h2, block, valid, flipped, true, base.second, t2)
    ensures cs2[t2].score == h1.score + h2.score
  {
    h1 := SearchedHalf(block, valid, flipped, false, base.first, t1);
    h2 := SearchedHalf(block, valid, flipped, true, base.second, t2);
    FirstCandidateAt(cs1, block, valid, flipped, base, t1, h1);
    SecondCandidateAt(cs2, block, valid, flipped, base, cs1[t1], t2, h2);
  }

  // ---------------------------------------------------------------------
  // Byte order
  // ---------------------------------------------------------------------

  /** The word four bytes spell, most significant first. */
  function FromBigEndian(q: seq<int>): (w: bv32)
    requires |q| == 4 && forall k :: 0 <= k < 4 ==> 0 <= q[k] < 256
  {
    ((q[0] as bv32) << 24) | ((q[1] as bv32) << 16) | ((q[2] as bv32) << 8) | (q[3] as bv32)
  }

  lemma ByteBack(x: bv32)
    requires x < 256
    ensures (x as int) as bv32 == x
  {
  }

  lemma IntBack(n: int)
    requires 0 <= n < 256
    ensures (n as bv32) as int == n && n as bv32 < 256
  {
  }

  lemma JoinBytes(w: bv32)
    ensures (((w >> 24) & 0xFF) << 24) | (((w >> 16) & 0xFF) << 16) | (((w >> 8) & 0xFF) << 8) | (w & 0xFF) == w
  {
  }

  lemma SplitBytes(a: bv32, b: bv32, c: bv32, d: bv32)
    requires a < 256 && b < 256 && c < 256 && d < 256
    ensures var w := (a << 24) | (b << 16) | (c << 8) | d;
      (w >> 24) & 0xFF == a && (w >> 16) & 0xFF == b && (w >> 8) & 0xFF == c && w & 0xFF == d
  {
  }

  /** Reading the bytes writeBigEndian stores gives the word back. */
  lemma BigEndianRoundTrip(w: bv32)
    ensures FromBigEndian(BigEndian(w)) == w
  {
    ByteBack((w >> 24) & 0xFF);
    ByteBack((w >> 16) & 0xFF);
    ByteBack((w >> 8) & 0xFF);
    ByteBack(w & 0xFF);
    JoinBytes(w);
  }

  /** Writing the word four bytes spell gives the bytes back. */
  lemma FromBigEndianRoundTrip(q: seq<int>)
    requires |q| == 4 && forall k :: 0 <= k < 4 ==> 0 <= q[k] < 256
    ensures BigEndian(FromBigEndian(q)) == q
  {
    IntBack(q[0]); IntBack(q[1]); IntBack(q[2]); IntBack(q[3]);
    SplitBytes(q[0] as bv32, q[1] as bv32, q[2] as bv32, q[3] as bv32);
  }

  // ---------------------------------------------------------------------
  // The empty mask
  // ---------------------------------------------------------------------

  predicate NoneValid(valid: seq<bool>) {
    |valid| == 16 && forall i :: 0 <= i < 16 ==> !valid[i]
  }

  lemma ZeroMaskNoneValid()
    ensures NoneValid(ValidFlags(0))
  {
  }

  lemma {:induction false} NoneValidSum(block: seq<int>, valid: seq<bool>, ps: seq<int>, k: int, ch: int)
    requires IsBlock(block) && 0 <= ch < 3 && NoneValid(valid) && 0 <= k <= |ps|
    requires forall a :: 0 <= a < |ps| ==> 0 <= ps[a] < 16
    ensures ValidSum(block, valid, ps, k, ch) == 0
    decreases k
  {
    if k > 0 {
      NoneValidSum(block, valid, ps, k - 1, ch);
    }
  }

  /** With no valid pixel every half averages to black: (0 + 4) >> 3 == 0. */
  lemma NoneValidAverage(block: seq<int>, valid: seq<bool>, flipped: bool, second: bool)
    requires IsBlock(block) && NoneValid(valid)
    ensures AverageHalf(block, valid, flipped, second) == Rgb(0, 0, 0)
  {
    var ps := HalfPixels(flipped, second);
    NoneValidSum(block, valid, ps, 8, 0);
    NoneValidSum(block, valid, ps, 8, 1);
    NoneValidSum(block, valid, ps, 8, 2);
  }

  /** Two black averages give the differential encoding with zero fields. */
  lemma BlackBase()
    ensures var e := EncodeBaseColors(Rgb(0, 0, 0), Rgb(0, 0, 0));
      e.bits == 2 && e.first == Rgb(0, 0, 0) && e.second == Rgb(0, 0, 0)
  {
    assert Convert8To5(0) == 0;
    assert Bv(0) == 0;
  }

  lemma {:induction false} NoneValidScore(block: seq<int>, valid: seq<bool>, ps: seq<int>, base: Rgb, t: int, k: int)
    requires IsBlock(block) && IsPixelList(ps) && 0 <= t < 8 && 0 <= k <= 8 && NoneValid(valid)
    ensures HalfScoreUpTo(block, valid, ps, base, t, k) == 0
    decreases k
  {
    if k > 0 {
      NoneValidScore(block, valid, ps, base, t, k - 1);
    }
  }

  lemma {:induction false} NoneValidIndices(valid: seq<bool>, ps: seq<int>, chosen: seq<int>, k: int)
    requires IsPixelList(ps) && IsChoiceList(chosen) && 0 <= k <= 8 && NoneValid(valid)
    ensures HalfIndicesUpTo(valid, ps, chosen, k) == seq(16, p => 0)
    decreases k
  {
    if k > 0 {
      NoneValidIndices(valid, ps, chosen, k - 1);
    }
  }

  /** With no valid pixel a half search scores 0 and stores no index bit. */
  lemma NoneValidHalf(block: seq<int>, valid: seq<bool>, flipped: bool, second: bool, base: Rgb, t: int)
    requires IsBlock(block) && NoneValid(valid) && 0 <= t < 8
    ensures HalfSearch(block, valid, flipped, second, base, t).score == 0
    ensures HalfSearch(block, valid, flipped, second, base, t).low == 0
  {
    var ps := HalfPixels(flipped, second);
    NoneValidScore(block, valid, ps, base, t, 8);
    NoneValidIndices(valid, ps, Chosen(block, base, t), 8);
    LowWordUpToZero(16);
  }

  /** With no valid pixel all eight first-half candidates tie at 0, so codeword 0 is kept. */
  lemma NoneValidFirst(block: seq<int>, valid: seq<bool>, flipped: bool, base: BaseEncoding)
    requires IsBlock(block) && NoneValid(valid)
    ensures var cs := FirstCandidates(block, valid, flipped, base);
      BestIndex(cs) == 0 && cs[0].high == HighStart(flipped, base) && cs[0].low == 0 && cs[0].score == 0
  {
    var cs := FirstCandidates(block, valid, flipped, base);
    forall t | 0 <= t < 8
      ensures cs[t].score == 0
    {
      NoneValidHalf(block, valid, flipped, false, base.first, t);
      FirstCandidateFields(block, valid, flipped, base, t);
    }
    NoneValidHalf(block, valid, flipped, false, base.first, 0);
    FirstCandidateFields(block, valid, flipped, base, 0);
    assert Bv(0) == 0;
  }

  /** The same for the second half, built on a first half of score 0 and no index bits. */
  lemma NoneValidSecond(block: seq<int>, valid: seq<bool>, flipped: bool, base: BaseEncoding, first: Encoded)
    requires IsBlock(block) && NoneValid(valid) && first.low == 0 && first.score == 0
    ensures var cs := SecondCandidates(block, valid, flipped, base, first);
      BestIndex(cs) == 0 && cs[0].high == first.high && cs[0].low == 0 && cs[0].score == 0
  {
    var cs := SecondCandidates(block, valid, flipped, base, first);
    forall t | 0 <= t < 8
      ensures cs[t].score == 0
    {
      NoneValidHalf(block, valid, flipped, true, base.second, t);
      SecondCandidateFields(block, valid, flipped, base, first, t);
    }
    NoneValidHalf(block, valid, flipped, true, base.second, 0);
    SecondCandidateFields(block, valid, flipped, base, first, 0);
    assert Bv(0) == 0;
  }

  /** With no valid pixel one orientation encodes as the flip bit over the black differential base. */
  lemma NoneValidBlockHelper(block: seq<int>, valid: seq<bool>, flipped: bool) returns (e: Encoded)
    requires IsBlock(block) && NoneValid(valid)
    ensures IsBlockHelper(e, block, valid, Rgb(0, 0, 0), Rgb(0, 0, 0), flipped)
    ensures e.high == (if flipped then 3 else 2) && e.low == 0 && e.score == 0
  {
    var base := EncodeBaseColors(Rgb(0, 0, 0), Rgb(0, 0, 0));
    BlackBase();
    NoneValidFirst(block, valid, flipped, base);
    var cs1 := FirstCandidates(block, valid, flipped, base);
    NoneValidSecond(block, valid, flipped, base, cs1[0]);
    e := BlockHelper(block, valid, Rgb(0, 0, 0), Rgb(0, 0, 0), flipped);
  }

  /** With mask 0 the kept encoding is the unflipped one: high word 2, low word 0, score 0. */
  lemma ZeroMaskWords(block: seq<int>)
    requires IsBlock(block)
    ensures IsBlockWords(Encoded(2, 0, 0), block, 0)
  {
    var valid := ValidFlags(0);
    ZeroMaskNoneValid();
    NoneValidAverage(block, valid, false, false);
    NoneValidAverage(block, valid, false, true);
    NoneValidAverage(block, valid, true, false);
    NoneValidAverage(block, valid, true, true);
    var x := NoneValidBlockHelper(block, valid, false);
    var y := NoneValidBlockHelper(block, valid, true);
    var black := Rgb(0, 0, 0);
    EncodeBlockWordsOf(block, 0, black, black, black, black, x, y);
    assert TakeBest(x, y) == Encoded(2, 0, 0);
  }

  /** encodeBlock with mask 0 writes 00 00 00 02 00 00 00 00 whatever the pixels: differential, codewords 0, not flipped. */
  lemma ZeroMaskBlock(block: seq<int>)
    requires IsBlock(block)
    ensures EncodeBlock(block, 0) == [0, 0, 0, 2, 0, 0, 0, 0]
  {
    ZeroMaskWords(block);
    EncodeBlockOf(block, 0, Encoded(2, 0, 0));
    ZeroMaskBytes();
  }

  lemma ZeroMaskBytes()
    ensures BigEndian(2) + BigEndian(0) == [0, 0, 0, 2, 0, 0, 0, 0]
  {
  }
}
