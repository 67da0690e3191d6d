# WorldWind Android core, modelled in Dafny

This project models two parts of the WorldWind Android repository and proves
properties of the models.

The first part is the ETC1 texture encoder, which exists twice: in Java
(`JavaETC1`) and as a RenderScript kernel (`etc1compressor.rs`). Module
`Etc1` defines the encoder once, as functions: the colour helpers, the
subblock averages, the base colours, the modifier search, the subblock and
block searches and the 8 bytes of an encoded block. `Etc1Props` proves what
those functions mean: the chosen codeword is the best one, the base colours
are in range, the differential fields decode to the colours they encode.
The imperative models follow the source's own loops and in-place updates:

- `JavaEtc1` and `JavaEtc1Block` model the Java block encoder.
- `JavaEtc1Image` models `encodeImage`'s block walk and edge masks.
- `JavaEtc1Pkm` models the PKM header.
- `RsEtc1`, `RsEtc1Block` and `RsEtc1Raster` model the RenderScript encoder, its raster and mip-map walk, and its output lanes.

Each of these is proved to compute the `Etc1` functions.

The second part is the plumbing around shapes, picking and caches:

- `Colors`: colour ints and KML colour strings.
- `DrawContexts`: pick colours and the ordered-renderable queue.
- `Picking`, `PickSupports` and `SceneControllers`: picked objects, the top pick and the merge of a deep pick.
- `MemoryCaches`, `RenderableLayers` and `DataConfigurations`.
- `KmlUtil` and `KmlMultiGeometries`.
- `OglUtil`: texture memory estimates.
- `ViewLimits`: view and orbit-view limits.
- `Shapes`: shape attributes and shape state.

Supporting modules:

- `JavaLang`: `Option`, `Outcome` (a return value or a thrown exception), `Status` and list helpers.
- `JavaInt`: 32-bit int wrap-around.
- `Geo`: locations, positions and sectors.

Java objects whose fields the source updates are classes. Values are
datatypes. Thrown exceptions are `Outcome.Throw` or `Status.Threw` results
that leave the state as it was at the throw. A Java `null` argument is
`None` or a nullable reference. Doubles are Dafny reals.

Clocks and reads from the GPU are parameters:

- `System.nanoTime`;
- the colour read back at the pick point;
- the terrain elevation a globe reports;
- the file-name sanitiser.

## Model

| member | source | states |
|---|---|---|
| Etc1.Clamp | WorldWindAndroid/src/nicastel/renderscripttexturecompressor/etc1/java/JavaETC1.java:149-151 | the result lies in 0..255: the input itself inside that range, 0 below it, 255 above it |
| Etc1.ClampIsNearest | WorldWindAndroid/src/nicastel/renderscripttexturecompressor/etc1/java/JavaETC1.java:149-151 | no value of 0..255 is closer to the input than the clamped one |
| Etc1.Convert4To8 | WorldWindAndroid/src/nicastel/renderscripttexturecompressor/etc1/java/JavaETC1.java:153-163 | the expansion replicates the four bits: high nibble and low nibble both equal the input |
| Etc1.Convert5To8 | WorldWindAndroid/src/nicastel/renderscripttexturecompressor/etc1/java/JavaETC1.java:165-175 | the high five bits are the input and the low three bits repeat its top three bits |
| Etc1.Convert6To8 | WorldWindAndroid/src/nicastel/renderscripttexturecompressor/etc1/java/JavaETC1.java:177-187 | the high six bits are the input and the low two bits repeat its top two bits |
| Etc1.DivideBy255 | WorldWindAndroid/src/nicastel/renderscripttexturecompressor/etc1/java/JavaETC1.java:189-192 | for every product of two bytes' worth (0..7905, the range the quantisers use) the result is within 127/255 of d/255: the quotient rounded to nearest |
| Etc1.Convert8To4 | WorldWindAndroid/src/nicastel/renderscripttexturecompressor/etc1/java/JavaETC1.java:194-198 | a 4-bit value r with 255*r within 127 of 15*b: the nearest 4-bit level to the byte |
| Etc1.Convert8To5 | WorldWindAndroid/src/nicastel/renderscripttexturecompressor/etc1/java/JavaETC1.java:200-204 | a 5-bit value r with 255*r within 127 of 31*b: the nearest 5-bit level to the byte |
| Etc1.NearestUnique | WorldWindAndroid/src/nicastel/renderscripttexturecompressor/etc1/java/JavaETC1.java:189-204 | two values both within 127 of d in multiples of 255 are equal, so the nearest level Convert8To4/Convert8To5 return is the only one |
| Etc1.RoundTrip5 | WorldWindAndroid/src/nicastel/renderscripttexturecompressor/etc1/java/JavaETC1.java:165-204 | quantising an expanded 5-bit value gives it back |
| Etc1.RoundTrip4 | WorldWindAndroid/src/nicastel/renderscripttexturecompressor/etc1/java/JavaETC1.java:153-198 | quantising an expanded 4-bit value gives it back |
| Etc1.ConvertDiff | WorldWindAndroid/src/nicastel/renderscripttexturecompressor/etc1/java/JavaETC1.java:206-209 | a byte whose high five bits are the base plus the kLookup delta of the 3-bit code, modulo 32 |
| Etc1.ModifierAt | WorldWindAndroid/src/nicastel/renderscripttexturecompressor/etc1/java/JavaETC1.java:137-146 | every entry of a table of the kModifierTable shape is the modifier of its row and column |
| Etc1.ModifierTableValues | WorldWindAndroid/src/nicastel/renderscripttexturecompressor/etc1/java/JavaETC1.java:137-146 | kModifierTable has that shape: eight rows a, b, -a, -b of the ETC1 intensity table |
| Etc1.ModifierTableUnique | WorldWindAndroid/src/nicastel/renderscripttexturecompressor/etc1/java/JavaETC1.java:137-146 | any table of that shape is kModifierTable itself |
| Etc1.ModifierTableMatchesExtension | WorldWindAndroid/src/nicastel/renderscripttexturecompressor/etc1/java/JavaETC1.java:137-146 | entry 4t+i of kModifierTable is the ETC1 intensity modifier of table t for index bits msb = i/2, lsb = i%2 |
| Etc1.PixelAt | WorldWindAndroid/src/nicastel/renderscripttexturecompressor/etc1/java/JavaETC1.java:293-338 | the pixel read at 3*i is an RGB triple of bytes (also lines 357-359) |
| Etc1.ValidFlags | WorldWindAndroid/src/nicastel/renderscripttexturecompressor/etc1/java/JavaETC1.java:293-338 | pixel i is counted exactly when bit i of the mask is set (also lines 388-389) |
| Etc1.HalfPixel | WorldWindAndroid/src/nicastel/renderscripttexturecompressor/etc1/java/JavaETC1.java:300-334 | the k-th pixel the loops visit lies inside the half named by flipped and second |
| Etc1.HalfPixelsUpToAt | WorldWindAndroid/src/nicastel/renderscripttexturecompressor/etc1/java/JavaETC1.java:300-334 | the visiting order's k-th element is HalfPixel(k) |
| Etc1.HalfPixelsOrder | WorldWindAndroid/src/nicastel/renderscripttexturecompressor/etc1/java/JavaETC1.java:300-334 | the visiting order is, flipped, two full rows starting at row 0 or 2, and, unflipped, four rows of two pixels starting at column 0 or 2, as the nested loops go (also lines 386-416) |
| Etc1.RowsOrderRun | WorldWindAndroid/src/nicastel/renderscripttexturecompressor/etc1/java/JavaETC1.java:300-316 | the four pixels of row y of a flipped half are visited one after the other (also lines 386-400) |
| Etc1.ColumnsOrderRun | WorldWindAndroid/src/nicastel/renderscripttexturecompressor/etc1/java/JavaETC1.java:317-334 | the two pixels of row y of an unflipped half are visited one after the other (also lines 401-416) |
| Etc1.HalfPixelsExact | WorldWindAndroid/src/nicastel/renderscripttexturecompressor/etc1/java/JavaETC1.java:300-334 | the eight visited pixels are distinct, each inside the half, and every pixel inside the half is visited |
| Etc1.HalfPixelInjective | WorldWindAndroid/src/nicastel/renderscripttexturecompressor/etc1/java/JavaETC1.java:300-334 | distinct steps of the loops visit distinct pixels |
| Etc1.HalfPixelPosition | WorldWindAndroid/src/nicastel/renderscripttexturecompressor/etc1/java/JavaETC1.java:300-334 | every pixel inside the half is visited at some step k < 8 |
| Etc1.ValidSum | WorldWindAndroid/src/nicastel/renderscripttexturecompressor/etc1/java/JavaETC1.java:300-334 | a channel sum over k visited pixels is between 0 and 255*k |
| Etc1.AverageHalf | WorldWindAndroid/src/nicastel/renderscripttexturecompressor/etc1/java/JavaETC1.java:293-338 | the stored average of a half is an RGB triple of bytes |
| Etc1.DifferentialBase | WorldWindAndroid/src/nicastel/renderscripttexturecompressor/etc1/java/JavaETC1.java:428-470 | both differential base colours are RGB triples of bytes |
| Etc1.IndividualBase | WorldWindAndroid/src/nicastel/renderscripttexturecompressor/etc1/java/JavaETC1.java:470-482 | both individual base colours are RGB triples of bytes |
| Etc1.EncodeBaseColors | WorldWindAndroid/src/nicastel/renderscripttexturecompressor/etc1/java/JavaETC1.java:428-482 | both chosen base colours are RGB triples of bytes |
| Etc1.CandidateScores | WorldWindAndroid/src/nicastel/renderscripttexturecompressor/etc1/java/JavaETC1.java:356-374 | the four scores of table row t are the clamped squared errors of the pixel against base + each modifier |
| Etc1.ArgMinUpToIsMin | WorldWindAndroid/src/nicastel/renderscripttexturecompressor/etc1/java/JavaETC1.java:356-374 | the kept choice has the least score of the first n candidates, and every earlier candidate scored strictly more |
| Etc1.BestModifier | WorldWindAndroid/src/nicastel/renderscripttexturecompressor/etc1/java/JavaETC1.java:345-379 | the chosen modifier index is one of the four of the row |
| Etc1.BestModifierIsBest | WorldWindAndroid/src/nicastel/renderscripttexturecompressor/etc1/java/JavaETC1.java:345-379 | the chosen modifier's score is the least of the four and the first to reach it: later equal scores do not replace it |
| Etc1.BitIndex | WorldWindAndroid/src/nicastel/renderscripttexturecompressor/etc1/java/JavaETC1.java:391-415 | the index bit of a pixel lies below 16 |
| Etc1.BitIndexPlacement | WorldWindAndroid/src/nicastel/renderscripttexturecompressor/etc1/java/JavaETC1.java:391-415 | pixel x + 4y gets index bit y + 4x, and the transposition is its own inverse |
| Etc1.BitIndexInjective | WorldWindAndroid/src/nicastel/renderscripttexturecompressor/etc1/java/JavaETC1.java:391-415 | two pixels never share an index bit, neither in the low nor in the high half of the word |
| Etc1.LowBits | WorldWindAndroid/src/nicastel/renderscripttexturecompressor/etc1/java/JavaETC1.java:375-377 | the two-bit pattern only uses bits 0 and 16 |
| Etc1.LowMaskShift | WorldWindAndroid/src/nicastel/renderscripttexturecompressor/etc1/java/JavaETC1.java:375-377 | the index mask of a pixel is the two-bit pattern shifted left by the pixel's index bit |
| Etc1.LowBitsIndex | WorldWindAndroid/src/nicastel/renderscripttexturecompressor/etc1/java/JavaETC1.java:375-377 | the modifier index can be read back from its two-bit pattern |
| Etc1.LowMaskIndex | WorldWindAndroid/src/nicastel/renderscripttexturecompressor/etc1/java/JavaETC1.java:375-377 | reading position pos of one pixel's mask gives its index at its own bit and 0 elsewhere |
| Etc1.Chosen | WorldWindAndroid/src/nicastel/renderscripttexturecompressor/etc1/java/JavaETC1.java:345-379 | each pixel's chosen modifier is BestModifier of its colour (also lines 381-418) |
| Etc1.PixelScore | WorldWindAndroid/src/nicastel/renderscripttexturecompressor/etc1/java/JavaETC1.java:356-379 | one pixel adds at most 650250 = 10*255*255 to the score, the green, red and blue squared errors weighted 6, 3 and 1 |
| Etc1.HalfScoreUpTo | WorldWindAndroid/src/nicastel/renderscripttexturecompressor/etc1/java/JavaETC1.java:381-418 | k pixels add at most 650250*k |
| Etc1.HalfIndicesUpToAt | WorldWindAndroid/src/nicastel/renderscripttexturecompressor/etc1/java/JavaETC1.java:381-418 | after k steps the index at a pixel's bit is its chosen modifier if the pixel was visited and valid, else 0 |
| Etc1.HalfIndices | WorldWindAndroid/src/nicastel/renderscripttexturecompressor/etc1/java/JavaETC1.java:381-418 | after the whole half the index at a pixel's bit is its chosen modifier exactly when it lies in the half and is valid |
| Etc1.HalfSearch | WorldWindAndroid/src/nicastel/renderscripttexturecompressor/etc1/java/JavaETC1.java:381-418 | the half's score is at most 650250*8 |
| Etc1.SearchedHalf | WorldWindAndroid/src/nicastel/renderscripttexturecompressor/etc1/java/JavaETC1.java:381-418 | gives the HalfSearch result with its bound, for the methods that use it |
| Etc1.LowWordUpToSame | WorldWindAndroid/src/nicastel/renderscripttexturecompressor/etc1/java/JavaETC1.java:375-377 | the packed low word depends only on the indices it packs |
| Etc1.LowWordUpToUpdate | WorldWindAndroid/src/nicastel/renderscripttexturecompressor/etc1/java/JavaETC1.java:375-377 | setting one index that was 0 ORs its mask into the packed word |
| Etc1.LowWordUpToZero | WorldWindAndroid/src/nicastel/renderscripttexturecompressor/etc1/java/JavaETC1.java:375-377 | all indices 0 give the low word 0 |
| Etc1.HalfIndicesStepValid | WorldWindAndroid/src/nicastel/renderscripttexturecompressor/etc1/java/JavaETC1.java:381-418 | one more valid pixel ORs its mask into the packed low word |
| Etc1.StoredLowWord | WorldWindAndroid/src/nicastel/renderscripttexturecompressor/etc1/java/JavaETC1.java:345-379 | ORing the chosen masks into the low word pixel by pixel, as chooseModifier does, equals the start value OR the packed indices (also lines 381-418) |
| Etc1.StoredHalfSearch | WorldWindAndroid/src/nicastel/renderscripttexturecompressor/etc1/java/JavaETC1.java:345-379 | after the eight pixels of a half the accumulated score and low word are exactly HalfSearch's (also lines 381-418) |
| Etc1.TakeBest | WorldWindAndroid/src/nicastel/renderscripttexturecompressor/etc1/java/JavaETC1.java:285-291 | the result is a or b, scores no more than either, and is a whenever a's score is not greater |
| Etc1.BestIndex | WorldWindAndroid/src/nicastel/renderscripttexturecompressor/etc1/java/JavaETC1.java:497-521 | the candidate the loop keeps has the least score, and every earlier candidate scored strictly more |
| Etc1.BestIndexStep | WorldWindAndroid/src/nicastel/renderscripttexturecompressor/etc1/java/JavaETC1.java:497-521 | the best of one more candidate is take_best of the previous best and the new one, which is the loop's step |
| Etc1.FirstCandidateFields | WorldWindAndroid/src/nicastel/renderscripttexturecompressor/etc1/java/JavaETC1.java:497-506 | first-pass candidate t has high word originalHigh OR t << 5, the first half's index word and its score |
| Etc1.FirstCandidates | WorldWindAndroid/src/nicastel/renderscripttexturecompressor/etc1/java/JavaETC1.java:497-506 | the eight first-pass candidates, one per table |
| Etc1.FirstCandidateAt | WorldWindAndroid/src/nicastel/renderscripttexturecompressor/etc1/java/JavaETC1.java:497-506 | the fields of candidate t read off a list known to be the first pass, with its score bound |
| Etc1.SecondCandidateFields | WorldWindAndroid/src/nicastel/renderscripttexturecompressor/etc1/java/JavaETC1.java:507-521 | second-pass candidate t has the first pass's high word OR t << 2, its low word OR the second half's indices, and the sum of the scores |
| Etc1.SecondCandidates | WorldWindAndroid/src/nicastel/renderscripttexturecompressor/etc1/java/JavaETC1.java:507-521 | the eight second-pass candidates, one per table |
| Etc1.SecondCandidateAt | WorldWindAndroid/src/nicastel/renderscripttexturecompressor/etc1/java/JavaETC1.java:507-521 | the fields of candidate t read off a list known to be the second pass |
| Etc1.BigEndian | WorldWindAndroid/src/nicastel/renderscripttexturecompressor/etc1/java/JavaETC1.java:525-530 | four bytes |
| Etc1.EncodeBlockWordsOf | WorldWindAndroid/src/nicastel/renderscripttexturecompressor/etc1/java/JavaETC1.java:538-556 | take_best of the two orientations' block helpers, on the four half averages, is the block's pair of words |
| Etc1.EncodeBlockOf | WorldWindAndroid/src/nicastel/renderscripttexturecompressor/etc1/java/JavaETC1.java:538-556 | the eight bytes of a block are its high word then its low word, big-endian |
| Etc1.EncodeBlock | WorldWindAndroid/src/nicastel/renderscripttexturecompressor/etc1/java/JavaETC1.java:538-556 | a block always encodes to eight bytes |
| Etc1.ScoreBound | WorldWindAndroid/src/nicastel/renderscripttexturecompressor/etc1/java/JavaETC1.java:356-374 | a candidate score is between 0 and 650250 = 10*255*255, the 6/3/1-weighted sum of three squared errors of at most 255*255 |
| Etc1.Channels565 | WorldWindAndroid/src/nicastel/renderscripttexturecompressor/etc1/java/JavaETC1.java:612-625 | expanding the 5-6-5 fields of a 16-bit pixel keeps each field in the expanded byte's high bits |
| Etc1.Pixel565Fields | WorldWindAndroid/src/nicastel/renderscripttexturecompressor/etc1/java/JavaETC1.java:612-625 | the red, green and blue fields of a little-endian 565 pixel are hi/8, (hi%8)*8 + lo/32 and lo%32 |
| Etc1Props.PackDifferential | WorldWindAndroid/src/nicastel/renderscripttexturecompressor/etc1/java/JavaETC1.java:460-469 | each field ORed into a differential high word can be read back at its offset; the low byte is 2 |
| Etc1Props.PackIndividual | WorldWindAndroid/src/nicastel/renderscripttexturecompressor/etc1/java/JavaETC1.java:470-481 | each field ORed into an individual high word can be read back at its offset; the low byte is 0 |
| Etc1Props.DifferentialFields | WorldWindAndroid/src/nicastel/renderscripttexturecompressor/etc1/java/JavaETC1.java:428-470 | a differential word holds the three 5-bit bases at bits 27, 19, 11 and the deltas at 24, 16, 8, low byte 2 |
| Etc1Props.DifferentialSecond | WorldWindAndroid/src/nicastel/renderscripttexturecompressor/etc1/java/JavaETC1.java:206-209 | a decoder's convertDiff of the stored base and delta gives exactly the second base colour the encoder scores against (also lines 428-470) |
| Etc1Props.ChannelDiff | WorldWindAndroid/src/nicastel/renderscripttexturecompressor/etc1/java/JavaETC1.java:206-209 | convertDiff of a base and an in-range delta is the expansion of base + delta |
| Etc1Props.LookupDelta | WorldWindAndroid/src/nicastel/renderscripttexturecompressor/etc1/java/JavaETC1.java:147 | kLookup maps the low three bits of every delta in -4..3 back to it |
| Etc1Props.IndividualFields | WorldWindAndroid/src/nicastel/renderscripttexturecompressor/etc1/java/JavaETC1.java:470-482 | an individual word holds the six 4-bit bases at bits 28, 24, 20, 16, 12, 8, low byte 0 |
| Etc1Props.DifferentialBit | WorldWindAndroid/src/nicastel/renderscripttexturecompressor/etc1/java/JavaETC1.java:428-482 | bit 1 of the base word is set exactly when every channel's difference fits in -4..3; the other control bits stay clear |
| Etc1Props.PackControl | WorldWindAndroid/src/nicastel/renderscripttexturecompressor/etc1/java/JavaETC1.java:487-506 | the flip bit and the two table indices land at bits 0, 5-7 and 2-4 without touching the colour bits |
| Etc1Props.FirstHigh | WorldWindAndroid/src/nicastel/renderscripttexturecompressor/etc1/java/JavaETC1.java:497-506 | first-pass candidate t's high word is the start word OR t << 5 |
| Etc1Props.SecondHigh | WorldWindAndroid/src/nicastel/renderscripttexturecompressor/etc1/java/JavaETC1.java:507-521 | second-pass candidate t's high word is the first best's high word OR t << 2 |
| Etc1Props.CandidateControl | WorldWindAndroid/src/nicastel/renderscripttexturecompressor/etc1/java/JavaETC1.java:484-523 | the block helper's high word has the flip bit, the first best table in bits 5-7, the second in bits 2-4 and keeps the base colour bits |
| Etc1Props.CandidateScore | WorldWindAndroid/src/nicastel/renderscripttexturecompressor/etc1/java/JavaETC1.java:484-523 | the block helper's score is the sum of its two halves' scores |
| Etc1Props.FromBigEndianRoundTrip | WorldWindAndroid/src/nicastel/renderscripttexturecompressor/etc1/java/JavaETC1.java:525-530 | writing back the word read from four bytes gives the bytes |
| Etc1Props.BigEndianRoundTrip | WorldWindAndroid/src/nicastel/renderscripttexturecompressor/etc1/java/JavaETC1.java:525-530 | reading back the four bytes written for a word gives the word |
| Etc1Props.ZeroMaskNoneValid | WorldWindAndroid/src/nicastel/renderscripttexturecompressor/etc1/java/JavaETC1.java:538-556 | mask 0 marks no pixel valid |
| Etc1Props.NoneValidAverage | WorldWindAndroid/src/nicastel/renderscripttexturecompressor/etc1/java/JavaETC1.java:293-338 | with no valid pixel the averages are black |
| Etc1Props.BlackBase | WorldWindAndroid/src/nicastel/renderscripttexturecompressor/etc1/java/JavaETC1.java:428-482 | two black averages are stored differentially with zero colour bits |
| Etc1Props.NoneValidHalf | WorldWindAndroid/src/nicastel/renderscripttexturecompressor/etc1/java/JavaETC1.java:381-418 | with no valid pixel a half scores 0 and stores no index |
| Etc1Props.NoneValidFirst | WorldWindAndroid/src/nicastel/renderscripttexturecompressor/etc1/java/JavaETC1.java:497-506 | with no valid pixel the first table wins the first pass with score 0 |
| Etc1Props.NoneValidSecond | WorldWindAndroid/src/nicastel/renderscripttexturecompressor/etc1/java/JavaETC1.java:507-521 | with no valid pixel the first table wins the second pass with score 0 |
| Etc1Props.NoneValidBlockHelper | WorldWindAndroid/src/nicastel/renderscripttexturecompressor/etc1/java/JavaETC1.java:484-523 | with no valid pixel an orientation encodes to high word 2 (or 3 flipped), low word 0, score 0 |
| Etc1Props.ZeroMaskWords | WorldWindAndroid/src/nicastel/renderscripttexturecompressor/etc1/java/JavaETC1.java:538-556 | with mask 0 the block's words are high 2, low 0, whatever its pixels |
| Etc1Props.ZeroMaskBlock | WorldWindAndroid/src/nicastel/renderscripttexturecompressor/etc1/java/JavaETC1.java:538-556 | with mask 0 every block encodes to the bytes 0,0,0,2,0,0,0,0 |
| JavaEtc1.Unsigned | WorldWindAndroid/src/nicastel/renderscripttexturecompressor/etc1/java/JavaETC1.java:302-359 | a Java byte masked with 0xff is 0..255 and congruent to the byte modulo 256 |
| JavaEtc1.ToJByte | WorldWindAndroid/src/nicastel/renderscripttexturecompressor/etc1/java/JavaETC1.java:335-337 | the cast to byte keeps the value modulo 256: Unsigned of it gives the stored value's low eight bits (also lines 476-481) |
| JavaEtc1.UnsignedBytes | WorldWindAndroid/src/nicastel/renderscripttexturecompressor/etc1/java/JavaETC1.java:293-338 | element-wise Unsigned |
| JavaEtc1.EtcCompressed.constructor | WorldWindAndroid/src/nicastel/renderscripttexturecompressor/etc1/java/JavaETC1.java:279-283 | a new etc_compressed has zero words and score |
| JavaEtc1.TakeBestObj | WorldWindAndroid/src/nicastel/renderscripttexturecompressor/etc1/java/JavaETC1.java:285-291 | returns b exactly when a's score is greater, and then the returned object's fields are TakeBest of the two |
| JavaEtc1.LowBitsFormula | WorldWindAndroid/src/nicastel/renderscripttexturecompressor/etc1/java/JavaETC1.java:375-377 | ((bestIndex >> 1) << 16) OR (bestIndex & 1) is the two-bit pattern |
| JavaEtc1.JavaLowMask | WorldWindAndroid/src/nicastel/renderscripttexturecompressor/etc1/java/JavaETC1.java:375-377 | the mask the code ORs in, bit 1 of the index moved up by 15 and OR-ed with bit 0, then shifted by the pixel's bit index, is the index mask of the pixel |
| JavaEtc1.TryModifier | WorldWindAndroid/src/nicastel/renderscripttexturecompressor/etc1/java/JavaETC1.java:357-373 | one pass of the loop replaces the best choice by (i, score) exactly when the new score is strictly lower |
| JavaEtc1.SearchModifiers | WorldWindAndroid/src/nicastel/renderscripttexturecompressor/etc1/java/JavaETC1.java:356-374 | the loop ends with BestModifier of the pixel against the table row: its index and score |
| JavaEtc1.ChooseModifier | WorldWindAndroid/src/nicastel/renderscripttexturecompressor/etc1/java/JavaETC1.java:345-379 | returns the best modifier's score and ORs its index mask at bitIndex into low; only low changes |
| JavaEtc1.BlockOf | WorldWindAndroid/src/nicastel/renderscripttexturecompressor/etc1/java/JavaETC1.java:293-338 | the block the code reads is the unsigned value of each byte of pIn |
| JavaEtc1.AddPixel | WorldWindAndroid/src/nicastel/renderscripttexturecompressor/etc1/java/JavaETC1.java:302-315 | one iteration adds the pixel's channels when its mask bit is set and keeps the sums of the pixels visited so far |
| JavaEtc1.SumHalfRows | WorldWindAndroid/src/nicastel/renderscripttexturecompressor/etc1/java/JavaETC1.java:300-316 | the flipped nest ends with the sums of the valid pixels of the half |
| JavaEtc1.SumHalfColumns | WorldWindAndroid/src/nicastel/renderscripttexturecompressor/etc1/java/JavaETC1.java:317-334 | the unflipped nest ends with the sums of the valid pixels of the half |
| JavaEtc1.SumHalf | WorldWindAndroid/src/nicastel/renderscripttexturecompressor/etc1/java/JavaETC1.java:300-334 | either nest ends with the sums of the valid pixels of the half |
| JavaEtc1.AverageColorsSubblock | WorldWindAndroid/src/nicastel/renderscripttexturecompressor/etc1/java/JavaETC1.java:293-338 | pColors[icolor..icolor+3] become AverageHalf of the block and mask; every other element of pColors keeps its value |
| JavaEtc1.PixelFromBlock | WorldWindAndroid/src/nicastel/renderscripttexturecompressor/etc1/java/JavaETC1.java:357-359 | the pixel read at byte 3i of pIn is pixel i of the block |
| JavaEtc1.ChoosePixel | WorldWindAndroid/src/nicastel/renderscripttexturecompressor/etc1/java/JavaETC1.java:391-415 | one pixel step keeps the score and the low word equal to the specification's after k + 1 pixels |
| JavaEtc1.SearchRow | WorldWindAndroid/src/nicastel/renderscripttexturecompressor/etc1/java/JavaETC1.java:391-399 | one row of a flipped half advances score and low word by its four pixels |
| JavaEtc1.SearchHalfRows | WorldWindAndroid/src/nicastel/renderscripttexturecompressor/etc1/java/JavaETC1.java:386-400 | the flipped loops end with the half's score added and its indices stored |
| JavaEtc1.SearchRowPair | WorldWindAndroid/src/nicastel/renderscripttexturecompressor/etc1/java/JavaETC1.java:406-415 | one row of an unflipped half advances score and low word by its two pixels |
| JavaEtc1.SearchHalfColumns | WorldWindAndroid/src/nicastel/renderscripttexturecompressor/etc1/java/JavaETC1.java:401-416 | the unflipped loops end with the half's score added and its indices stored |
| JavaEtc1.SearchHalf | WorldWindAndroid/src/nicastel/renderscripttexturecompressor/etc1/java/JavaETC1.java:381-418 | the score grows by the half's score and the low word gains exactly the half's indices |
| JavaEtc1.EncodeSubblockHelper | WorldWindAndroid/src/nicastel/renderscripttexturecompressor/etc1/java/JavaETC1.java:381-418 | score and low word afterwards are the old values plus HalfSearch's score and OR its index word; high is untouched |
| JavaEtc1Block.StoreBaseColors | WorldWindAndroid/src/nicastel/renderscripttexturecompressor/etc1/java/JavaETC1.java:476-481 | the six bytes stored are the two base colours |
| JavaEtc1Block.EncodeBaseColorsInto | WorldWindAndroid/src/nicastel/renderscripttexturecompressor/etc1/java/JavaETC1.java:428-482 | ORs the colour and mode bits of EncodeBaseColors into high and stores both base colours in pBaseColors |
| JavaEtc1Block.SubblockSearch | WorldWindAndroid/src/nicastel/renderscripttexturecompressor/etc1/java/JavaETC1.java:466-478 | one helper call adds HalfSearch's score and ORs its index word into the temporary |
| JavaEtc1Block.SubblockResult | WorldWindAndroid/src/nicastel/renderscripttexturecompressor/etc1/java/JavaETC1.java:381-418 | the loop-level statement of a half search, turned into its score and low word |
| JavaEtc1Block.FirstHalfCandidate | WorldWindAndroid/src/nicastel/renderscripttexturecompressor/etc1/java/JavaETC1.java:497-506 | a fresh temp with high OR t << 5, the first half's index word and its score |
| JavaEtc1Block.SecondHalfCandidate | WorldWindAndroid/src/nicastel/renderscripttexturecompressor/etc1/java/JavaETC1.java:507-521 | a fresh temp from the first pass's best with t << 2 ORed in, the second half's indices ORed in and its score added |
| JavaEtc1Block.FirstHalfPass | WorldWindAndroid/src/nicastel/renderscripttexturecompressor/etc1/java/JavaETC1.java:497-506 | the fresh temp of iteration t is first-pass candidate t, field by field |
| JavaEtc1Block.SearchFirstHalves | WorldWindAndroid/src/nicastel/renderscripttexturecompressor/etc1/java/JavaETC1.java:497-506 | starting from score LongMax the loop ends holding the least-score first candidate, BestIndex of the eight |
| JavaEtc1Block.SecondHalfPass | WorldWindAndroid/src/nicastel/renderscripttexturecompressor/etc1/java/JavaETC1.java:507-521 | the fresh temp of iteration t is second-pass candidate t, field by field |
| JavaEtc1Block.SearchSecondHalves | WorldWindAndroid/src/nicastel/renderscripttexturecompressor/etc1/java/JavaETC1.java:507-521 | the loop (which takes candidate 0 outright and take_best after) ends holding BestIndex of the eight second candidates |
| JavaEtc1Block.StartBlockHelper | WorldWindAndroid/src/nicastel/renderscripttexturecompressor/etc1/java/JavaETC1.java:487-495 | score is Long.MAX_VALUE, originalHigh is the flip bit OR the base colour bits and both base colours are stored |
| JavaEtc1Block.EncodeBlockHelper | WorldWindAndroid/src/nicastel/renderscripttexturecompressor/etc1/java/JavaETC1.java:484-523 | the returned candidate is BlockHelper of the block, mask and averages for that orientation |
| JavaEtc1Block.ByteOf | WorldWindAndroid/src/nicastel/renderscripttexturecompressor/etc1/java/JavaETC1.java:525-530 | the byte written is the word's low eight bits |
| JavaEtc1Block.WriteBigEndian | WorldWindAndroid/src/nicastel/renderscripttexturecompressor/etc1/java/JavaETC1.java:525-530 | the four bytes at i read unsigned are the word big-endian; every other byte keeps its value |
| JavaEtc1Block.AverageSubblocks | WorldWindAndroid/src/nicastel/renderscripttexturecompressor/etc1/java/JavaETC1.java:540-545 | the array holds the averages of the two halves of one orientation |
| JavaEtc1Block.EncodeOrientation | WorldWindAndroid/src/nicastel/renderscripttexturecompressor/etc1/java/JavaETC1.java:547-549 | an orientation encodes to BlockHelper over its own half averages |
| JavaEtc1Block.EncodeBest | WorldWindAndroid/src/nicastel/renderscripttexturecompressor/etc1/java/JavaETC1.java:550 | take_best of the two orientations is the block's pair of words |
| JavaEtc1Block.WriteWords | WorldWindAndroid/src/nicastel/renderscripttexturecompressor/etc1/java/JavaETC1.java:554-555 | the first eight bytes are high then low big-endian; the rest of pOut keeps its values |
| JavaEtc1Block.EncodeBlock | WorldWindAndroid/src/nicastel/renderscripttexturecompressor/etc1/java/JavaETC1.java:538-556 | pOut[0..8] read unsigned is Etc1.EncodeBlock of the block and mask; the rest of pOut keeps its values |
| JavaEtc1Image.BlockCount | WorldWindAndroid/src/nicastel/renderscripttexturecompressor/etc1/java/JavaETC1.java:580-581 | the number of 4-pixel blocks: (size + 3)/4 covering the size when (size + 3) & ~3 is positive, 0 when it is 0 or wrapped negative |
| JavaEtc1Image.EncodedDataSizeBlocks | WorldWindAndroid/src/nicastel/renderscripttexturecompressor/etc1/java/JavaETC1.java:561-563 | getEncodedDataSize is eight bytes per block of the whole grid |
| JavaEtc1Image.EncodedDataSize | WorldWindAndroid/src/nicastel/renderscripttexturecompressor/etc1/java/JavaETC1.java:561-563 | getEncodedDataSize is half the wrapped int product of the padded sides, so twice it is an int; EncodedDataSizeBlocks gives its value without overflow |
| JavaEtc1Image.KYMaskRows | WorldWindAndroid/src/nicastel/renderscripttexturecompressor/etc1/java/JavaETC1.java:575-590 | kYMask[yEnd] marks the first yEnd rows of the block: its low 4*yEnd bits |
| JavaEtc1Image.KXMaskColumns | WorldWindAndroid/src/nicastel/renderscripttexturecompressor/etc1/java/JavaETC1.java:576-596 | kXMask[xEnd] marks the first xEnd columns: the low xEnd bits of each row's nibble |
| JavaEtc1Image.BlockMask | WorldWindAndroid/src/nicastel/renderscripttexturecompressor/etc1/java/JavaETC1.java:590-596 | ymask & kXMask[xEnd] sets no bit above 15, is 0xffff for a full block and 0 for an empty one; MaskBit gives each pixel's bit |
| JavaEtc1Image.EdgeEnd | WorldWindAndroid/src/nicastel/renderscripttexturecompressor/etc1/java/JavaETC1.java:586-595 | xEnd (yEnd) is 4, or what remains of the image when that is less |
| JavaEtc1Image.MaskBit | WorldWindAndroid/src/nicastel/renderscripttexturecompressor/etc1/java/JavaETC1.java:575-596 | bit i of the block mask is set exactly when column i%4 is below xEnd and row i/4 is below yEnd |
| JavaEtc1Image.BlockMaskValid | WorldWindAndroid/src/nicastel/renderscripttexturecompressor/etc1/java/JavaETC1.java:575-596 | pixel i of a block counts as valid exactly when it lies inside the image |
| JavaEtc1Image.Expand565 | WorldWindAndroid/src/nicastel/renderscripttexturecompressor/etc1/java/JavaETC1.java:614-620 | the three bytes stored from a 565 pixel keep its red, green and blue fields in their high bits |
| JavaEtc1Image.StoredByte | WorldWindAndroid/src/nicastel/renderscripttexturecompressor/etc1/java/JavaETC1.java:612-625 | the byte stored for a value 0..255 reads back as it |
| JavaEtc1Image.PixelBytes | WorldWindAndroid/src/nicastel/renderscripttexturecompressor/etc1/java/JavaETC1.java:612-625 | three bytes per pixel |
| JavaEtc1Image.GatheredUpTo | WorldWindAndroid/src/nicastel/renderscripttexturecompressor/etc1/java/JavaETC1.java:597-627 | the block buffer is 48 bytes |
| JavaEtc1Image.GatherStep | WorldWindAndroid/src/nicastel/renderscripttexturecompressor/etc1/java/JavaETC1.java:612-625 | storing one pixel's three bytes advances the gathered block by one cell |
| JavaEtc1Image.GatheredCell | WorldWindAndroid/src/nicastel/renderscripttexturecompressor/etc1/java/JavaETC1.java:612-625 | the byte of the cell just written is the pixel's byte |
| JavaEtc1Image.GatheredOther | WorldWindAndroid/src/nicastel/renderscripttexturecompressor/etc1/java/JavaETC1.java:612-625 | bytes outside the cell just written keep their values |
| JavaEtc1Image.GatherRowEnd | WorldWindAndroid/src/nicastel/renderscripttexturecompressor/etc1/java/JavaETC1.java:597-627 | the end of one row is the start of the next |
| JavaEtc1Image.StorePixel | WorldWindAndroid/src/nicastel/renderscripttexturecompressor/etc1/java/JavaETC1.java:612-625 | the block buffer afterwards is the gathered block one cell further |
| JavaEtc1Image.GatherRow | WorldWindAndroid/src/nicastel/renderscripttexturecompressor/etc1/java/JavaETC1.java:597-627 | the block buffer afterwards holds one more gathered row |
| JavaEtc1Image.GatherBlock | WorldWindAndroid/src/nicastel/renderscripttexturecompressor/etc1/java/JavaETC1.java:597-627 | the block buffer afterwards is the gathered block: the yEnd by xEnd pixels from the image, and every other byte kept from the previous block |
| JavaEtc1Image.GatheredNothing | WorldWindAndroid/src/nicastel/renderscripttexturecompressor/etc1/java/JavaETC1.java:597-627 | before the first pixel the block is the previous buffer |
| JavaEtc1Image.LastBlock | WorldWindAndroid/src/nicastel/renderscripttexturecompressor/etc1/java/JavaETC1.java:585-629 | the buffer the next block starts from is 48 bytes |
| JavaEtc1Image.BlockAt | WorldWindAndroid/src/nicastel/renderscripttexturecompressor/etc1/java/JavaETC1.java:585-629 | the block at (x, y) with its mask is a valid encoder input |
| JavaEtc1Image.RowBlocks | WorldWindAndroid/src/nicastel/renderscripttexturecompressor/etc1/java/JavaETC1.java:591-629 | a row adds n blocks |
| JavaEtc1Image.ImageBlocksCount | WorldWindAndroid/src/nicastel/renderscripttexturecompressor/etc1/java/JavaETC1.java:585-629 | m block rows hold m * BlockCount(width) blocks |
| JavaEtc1Image.ImageCodeLength | WorldWindAndroid/src/nicastel/renderscripttexturecompressor/etc1/java/JavaETC1.java:561-563 | eight bytes per block of the grid is getEncodedDataSize (also lines 585-629) |
| JavaEtc1Image.ImageCodeStart | WorldWindAndroid/src/nicastel/renderscripttexturecompressor/etc1/java/JavaETC1.java:585-629 | no blocks, no bytes |
| JavaEtc1Image.ImageCodeStep | WorldWindAndroid/src/nicastel/renderscripttexturecompressor/etc1/java/JavaETC1.java:628-629 | appending a block's eight-byte code extends the image code by that block |
| JavaEtc1Image.UnsignedConcat | WorldWindAndroid/src/nicastel/renderscripttexturecompressor/etc1/java/JavaETC1.java:628-629 | reading bytes unsigned commutes with concatenation |
| JavaEtc1Image.EmitBlock | WorldWindAndroid/src/nicastel/renderscripttexturecompressor/etc1/java/JavaETC1.java:628-629 | the eight bytes put are the encoding of the block under its mask |
| JavaEtc1Image.Zeros | WorldWindAndroid/src/nicastel/renderscripttexturecompressor/etc1/java/JavaETC1.java:577-579 | a new byte array of n zeros |
| JavaEtc1Image.BlockStart | WorldWindAndroid/src/nicastel/renderscripttexturecompressor/etc1/java/JavaETC1.java:585-596 | a block starts inside the padded size exactly when its number is below BlockCount, and then inside the image |
| JavaEtc1Image.RowLoopStart | WorldWindAndroid/src/nicastel/renderscripttexturecompressor/etc1/java/JavaETC1.java:585 | the row loop starts with a zero block buffer and no output |
| JavaEtc1Image.RowToBlocks | WorldWindAndroid/src/nicastel/renderscripttexturecompressor/etc1/java/JavaETC1.java:591 | the block loop starts where the row loop is |
| JavaEtc1Image.BlocksToRow | WorldWindAndroid/src/nicastel/renderscripttexturecompressor/etc1/java/JavaETC1.java:591-630 | a finished block loop is one more finished row |
| JavaEtc1Image.RowLoopDone | WorldWindAndroid/src/nicastel/renderscripttexturecompressor/etc1/java/JavaETC1.java:585-631 | the finished row loop's output is the code of all the image's blocks |
| JavaEtc1Image.BlockLoopStep | WorldWindAndroid/src/nicastel/renderscripttexturecompressor/etc1/java/JavaETC1.java:592-629 | one more block encoded extends the loop invariant by one block |
| JavaEtc1Image.EncodeBlockAt | WorldWindAndroid/src/nicastel/renderscripttexturecompressor/etc1/java/JavaETC1.java:591-629 | xEnd is EdgeEnd, the buffer is the gathered block and the eight bytes encode it under BlockMask(xEnd, yEnd) |
| JavaEtc1Image.EncodeRowStep | WorldWindAndroid/src/nicastel/renderscripttexturecompressor/etc1/java/JavaETC1.java:592-629 | one iteration of the x loop keeps the block-loop invariant |
| JavaEtc1Image.EncodeRowBlocks | WorldWindAndroid/src/nicastel/renderscripttexturecompressor/etc1/java/JavaETC1.java:591-630 | the x loop ends with every block of the row encoded |
| JavaEtc1Image.EncodeRow | WorldWindAndroid/src/nicastel/renderscripttexturecompressor/etc1/java/JavaETC1.java:585-630 | one iteration of the y loop adds one row of blocks |
| JavaEtc1Image.NewBytes | WorldWindAndroid/src/nicastel/renderscripttexturecompressor/etc1/java/JavaETC1.java:577-579 | a fresh zeroed array |
| JavaEtc1Image.EncodeRows | WorldWindAndroid/src/nicastel/renderscripttexturecompressor/etc1/java/JavaETC1.java:585-631 | the output is, block by block, the code of every block of the image in row order |
| JavaEtc1Image.EncodeImage | WorldWindAndroid/src/nicastel/renderscripttexturecompressor/etc1/java/JavaETC1.java:571-634 | pixel size other than 2 or 3 is refused; pixel size 3 fails at the arraycopy as soon as there is a block; pixel size 2 returns the row-order code of every block, of getEncodedDataSize bytes when the padded sizes do not overflow |
| JavaEtc1Pkm.ByteBuffer.constructor | WorldWindAndroid/src/nicastel/renderscripttexturecompressor/etc1/java/JavaETC1.java:710 | a fresh buffer of n zero bytes at position 0 |
| JavaEtc1Pkm.ByteBuffer.Put | WorldWindAndroid/src/nicastel/renderscripttexturecompressor/etc1/java/JavaETC1.java:700-701 | put(b) writes b at the position and advances it by one; nothing else changes |
| JavaEtc1Pkm.ByteBuffer.PutAll | WorldWindAndroid/src/nicastel/renderscripttexturecompressor/etc1/java/JavaETC1.java:711 | put(bytes) writes the bytes from the position on and advances it by their count |
| JavaEtc1Pkm.ByteBuffer.SetPosition | WorldWindAndroid/src/nicastel/renderscripttexturecompressor/etc1/java/JavaETC1.java:699 | position(p) moves the position only |
| JavaEtc1Pkm.Splice | WorldWindAndroid/src/nicastel/renderscripttexturecompressor/etc1/java/JavaETC1.java:698-702 | the sequence with t written over it from i, same length, every other element kept |
| JavaEtc1Pkm.SpliceStep | WorldWindAndroid/src/nicastel/renderscripttexturecompressor/etc1/java/JavaETC1.java:711 | writing one more byte extends the splice by one |
| JavaEtc1Pkm.BEBytes | WorldWindAndroid/src/nicastel/renderscripttexturecompressor/etc1/java/JavaETC1.java:700-701 | the two bytes written for data are, unsigned, (data >> 8) & 0xff and data & 0xff |
| JavaEtc1Pkm.WriteBEUint16 | WorldWindAndroid/src/nicastel/renderscripttexturecompressor/etc1/java/JavaETC1.java:698-702 | the two bytes at iOut become data big-endian, the position ends at iOut + 2, every other byte kept |
| JavaEtc1Pkm.HeaderFields | WorldWindAndroid/src/nicastel/renderscripttexturecompressor/etc1/java/JavaETC1.java:714-718 | the ten bytes after the magic |
| JavaEtc1Pkm.FormattedHeader | WorldWindAndroid/src/nicastel/renderscripttexturecompressor/etc1/java/JavaETC1.java:710-719 | the header keeps the buffer's length |
| JavaEtc1Pkm.FormatHeader | WorldWindAndroid/src/nicastel/renderscripttexturecompressor/etc1/java/JavaETC1.java:710-719 | the buffer holds the magic at the old position and then the five fields big-endian at offsets 6..15: format 0, padded width, padded height, width, height; the position ends at 16 |
| JavaEtc1Pkm.FieldsWritten | WorldWindAndroid/src/nicastel/renderscripttexturecompressor/etc1/java/JavaETC1.java:714-718 | the five writeBEUint16 calls together write the ten field bytes from offset 6 |
| JavaEtc1Pkm.BitsInt | WorldWindAndroid/src/nicastel/renderscripttexturecompressor/etc1/java/JavaETC1.java:705 | the int whose 32 bits are the word |
| JavaEtc1Pkm.ByteOr | WorldWindAndroid/src/nicastel/renderscripttexturecompressor/etc1/java/JavaETC1.java:705 | (hi << 8) OR lo on sign-extended bytes: lo itself when lo is negative, else hi*256 + lo |
| JavaEtc1Pkm.ByteOrBits | WorldWindAndroid/src/nicastel/renderscripttexturecompressor/etc1/java/JavaETC1.java:705 | the sign-extended 32-bit OR agrees with ByteOr on inputs covering each sign case |
| JavaEtc1Pkm.ReadBEUint16AsWritten | WorldWindAndroid/src/nicastel/renderscripttexturecompressor/etc1/java/JavaETC1.java:704-706 | readBEUint16 as written is a signed 16-bit value |
| JavaEtc1Pkm.ReadBEUint16 | WorldWindAndroid/src/nicastel/renderscripttexturecompressor/etc1/java/JavaETC1.java:704-706 | the intended read: an unsigned 16-bit value whose high and low bytes are the two bytes read unsigned |
| JavaEtc1Pkm.AsWrittenReadExact | WorldWindAndroid/src/nicastel/renderscripttexturecompressor/etc1/java/JavaETC1.java:704-706 | the as-written read equals the intended one exactly when both bytes are below 0x80, and is negative exactly when one of them is not |
| JavaEtc1Pkm.Memcmp | WorldWindAndroid/src/nicastel/renderscripttexturecompressor/etc1/java/JavaETC1.java:736-743 | true exactly when the first length bytes differ |
| JavaEtc1Pkm.IsValid | WorldWindAndroid/src/nicastel/renderscripttexturecompressor/etc1/java/JavaETC1.java:722-734 | true exactly when the magic matches, format is 0 and each padded size is the size or up to 3 more, all read as written |
| JavaEtc1Pkm.GetWidth | WorldWindAndroid/src/nicastel/renderscripttexturecompressor/etc1/java/JavaETC1.java:747-749 | negative exactly when a width byte is 0x80 or more, and otherwise the stored width |
| JavaEtc1Pkm.GetHeight | WorldWindAndroid/src/nicastel/renderscripttexturecompressor/etc1/java/JavaETC1.java:753-755 | negative exactly when a height byte is 0x80 or more, and otherwise the stored height |
| JavaEtc1Pkm.GetWidthIntended | WorldWindAndroid/src/nicastel/renderscripttexturecompressor/etc1/java/JavaETC1.java:704-749 | the width read unsigned: a 16-bit value from the two bytes at offset 12 |
| JavaEtc1Pkm.GetHeightIntended | WorldWindAndroid/src/nicastel/renderscripttexturecompressor/etc1/java/JavaETC1.java:704-755 | the height read unsigned: a 16-bit value from the two bytes at offset 14 |
| JavaEtc1Pkm.BERoundTrip | WorldWindAndroid/src/nicastel/renderscripttexturecompressor/etc1/java/JavaETC1.java:698-706 | reading back two bytes written for data gives data modulo 2^16 |
| JavaEtc1Pkm.BERoundTripSmall | WorldWindAndroid/src/nicastel/renderscripttexturecompressor/etc1/java/JavaETC1.java:698-706 | for data in 0..0xffff the read gives data |
| JavaEtc1Pkm.FormattedStart | WorldWindAndroid/src/nicastel/renderscripttexturecompressor/etc1/java/JavaETC1.java:710-719 | a header formatted at position 0 starts with the magic and the ten field bytes |
| JavaEtc1Pkm.FieldsAt | WorldWindAndroid/src/nicastel/renderscripttexturecompressor/etc1/java/JavaETC1.java:714-718 | each field sits big-endian at its offset |
| JavaEtc1Pkm.FormattedHeaderValid | WorldWindAndroid/src/nicastel/renderscripttexturecompressor/etc1/java/JavaETC1.java:710-755 | for sizes up to 0xfffc a formatted header is valid under the intended reads and gives back width and height |
| JavaEtc1Pkm.FormattedHeaderValidAsWritten | WorldWindAndroid/src/nicastel/renderscripttexturecompressor/etc1/java/JavaETC1.java:710-755 | as written the round trip holds only while every field's bytes stay below 0x80 |
| JavaEtc1Pkm.Fields126 | WorldWindAndroid/src/nicastel/renderscripttexturecompressor/etc1/java/JavaETC1.java:714-718 | the field bytes for width 126, height 4: the padded width 128 is stored as 0, -128 |
| JavaEtc1Pkm.AsWrittenRejectsWidth126 | WorldWindAndroid/src/nicastel/renderscripttexturecompressor/etc1/java/JavaETC1.java:704-734 | isValid as written rejects the header formatHeader writes for 126 by 4, which the intended reading accepts |
| JavaEtc1Pkm.AsWrittenWidth200 | WorldWindAndroid/src/nicastel/renderscripttexturecompressor/etc1/java/JavaETC1.java:704-749 | getWidth as written returns -56 for a header formatted for width 200; the intended read gives 200 |
| JavaInt.Wrap | WorldWindAndroid/src/nicastel/renderscripttexturecompressor/etc1/java/JavaETC1.java:580-581 | the int congruent to x modulo 2^32; x itself when x is an int (also lines 712-713) |
| JavaInt.RoundUp4 | WorldWindAndroid/src/nicastel/renderscripttexturecompressor/etc1/java/JavaETC1.java:580-581 | (x + 3) & ~3: a multiple of 4, the least one not below x when x + 3 does not overflow, negative when it does (also lines 712-713) |
| RsEtc1.EtcCompressed.constructor | WorldWindAndroid/src/nicastel/renderscripttexturecompressor/etc1/rs/etc1compressor.rs:98-102 | a new etc_compressed has zero words and score |
| RsEtc1.TakeBestInto | WorldWindAndroid/src/nicastel/renderscripttexturecompressor/etc1/rs/etc1compressor.rs:251-256 | *a becomes TakeBest of the old a and b: b's fields exactly when a's score is greater |
| RsEtc1.LowBitsFormula | WorldWindAndroid/src/nicastel/renderscripttexturecompressor/etc1/rs/etc1compressor.rs:405-406 | ((bestIndex >> 1) << 16) OR (bestIndex & 1) is the two-bit pattern |
| RsEtc1.RsLowMask | WorldWindAndroid/src/nicastel/renderscripttexturecompressor/etc1/rs/etc1compressor.rs:405-406 | lowMask, the pattern shifted by bitIndex, is the index mask of the pixel |
| RsEtc1.TryModifier | WorldWindAndroid/src/nicastel/renderscripttexturecompressor/etc1/rs/etc1compressor.rs:387-403 | one pass of the loop, with its two early continues, replaces the best choice by (i, score) exactly when the full score is strictly lower |
| RsEtc1.SearchModifiers | WorldWindAndroid/src/nicastel/renderscripttexturecompressor/etc1/rs/etc1compressor.rs:378-404 | starting from ~0 the loop ends with BestModifier of the pixel against the table row |
| RsEtc1.ChooseModifier | WorldWindAndroid/src/nicastel/renderscripttexturecompressor/etc1/rs/etc1compressor.rs:375-409 | returns the best modifier's score and ORs its index mask at bitIndex into *pLow; only low changes |
| RsEtc1.Ints | WorldWindAndroid/src/nicastel/renderscripttexturecompressor/etc1/rs/etc1compressor.rs:94 | element-wise value of the unsigned bytes |
| RsEtc1.BlockOf | WorldWindAndroid/src/nicastel/renderscripttexturecompressor/etc1/rs/etc1compressor.rs:274-318 | the block the code reads is pIn's bytes |
| RsEtc1.AddPixel | WorldWindAndroid/src/nicastel/renderscripttexturecompressor/etc1/rs/etc1compressor.rs:288-311 | one iteration adds the pixel's channels when its mask bit is set and keeps the sums of the pixels visited so far |
| RsEtc1.SumHalfRows | WorldWindAndroid/src/nicastel/renderscripttexturecompressor/etc1/rs/etc1compressor.rs:280-296 | the flipped nest ends with the sums of the valid pixels of the half |
| RsEtc1.SumHalfColumns | WorldWindAndroid/src/nicastel/renderscripttexturecompressor/etc1/rs/etc1compressor.rs:297-314 | the unflipped nest ends with the sums of the valid pixels of the half |
| RsEtc1.SumHalf | WorldWindAndroid/src/nicastel/renderscripttexturecompressor/etc1/rs/etc1compressor.rs:280-314 | either nest ends with the sums of the valid pixels of the half |
| RsEtc1.AverageColorsSubblock | WorldWindAndroid/src/nicastel/renderscripttexturecompressor/etc1/rs/etc1compressor.rs:274-318 | pColors[icolor..icolor+3] become AverageHalf of the block and mask; every other byte of the array keeps its value |
| RsEtc1.PixelFromBlock | WorldWindAndroid/src/nicastel/renderscripttexturecompressor/etc1/rs/etc1compressor.rs:424-439 | the pixel at pIn + 3i is pixel i of the block |
| RsEtc1.ChoosePixel | WorldWindAndroid/src/nicastel/renderscripttexturecompressor/etc1/rs/etc1compressor.rs:422-441 | one pixel step keeps the score and the low word equal to the specification's after k + 1 pixels |
| RsEtc1.SearchRow | WorldWindAndroid/src/nicastel/renderscripttexturecompressor/etc1/rs/etc1compressor.rs:420-427 | one row of a flipped half advances score and low word by its four pixels |
| RsEtc1.SearchHalfRows | WorldWindAndroid/src/nicastel/renderscripttexturecompressor/etc1/rs/etc1compressor.rs:414-428 | the flipped loops end with the half's score added and its indices stored |
| RsEtc1.SearchRowPair | WorldWindAndroid/src/nicastel/renderscripttexturecompressor/etc1/rs/etc1compressor.rs:435-442 | one row of an unflipped half advances score and low word by its two pixels |
| RsEtc1.SearchHalfColumns | WorldWindAndroid/src/nicastel/renderscripttexturecompressor/etc1/rs/etc1compressor.rs:429-444 | the unflipped loops end with the half's score added and its indices stored |
| RsEtc1.SearchHalf | WorldWindAndroid/src/nicastel/renderscripttexturecompressor/etc1/rs/etc1compressor.rs:411-446 | the score grows by the half's score and the low word gains exactly the half's indices |
| RsEtc1.EncodeSubblockHelper | WorldWindAndroid/src/nicastel/renderscripttexturecompressor/etc1/rs/etc1compressor.rs:411-446 | score and low word afterwards are the old values plus HalfSearch's score and OR its index word; high is untouched |
| RsEtc1Block.Assign | WorldWindAndroid/src/nicastel/renderscripttexturecompressor/etc1/rs/etc1compressor.rs:471-480 | struct assignment copies all three fields |
| RsEtc1Block.StoreBaseColors | WorldWindAndroid/src/nicastel/renderscripttexturecompressor/etc1/rs/etc1compressor.rs:367-372 | the six bytes stored are the two base colours |
| RsEtc1Block.EncodeBaseColorsInto | WorldWindAndroid/src/nicastel/renderscripttexturecompressor/etc1/rs/etc1compressor.rs:320-373 | ORs the colour and mode bits of EncodeBaseColors into high and stores both base colours |
| RsEtc1Block.SubblockSearch | WorldWindAndroid/src/nicastel/renderscripttexturecompressor/etc1/rs/etc1compressor.rs:466-478 | one helper call adds HalfSearch's score and ORs its index word into the temporary |
| RsEtc1Block.SubblockResult | WorldWindAndroid/src/nicastel/renderscripttexturecompressor/etc1/rs/etc1compressor.rs:411-446 | the loop-level statement of a half search, turned into its score and low word |
| RsEtc1Block.FirstHalfCandidate | WorldWindAndroid/src/nicastel/renderscripttexturecompressor/etc1/rs/etc1compressor.rs:462-467 | a fresh temp with originalHigh OR i << 5, the first half's index word and its score |
| RsEtc1Block.SecondHalfCandidate | WorldWindAndroid/src/nicastel/renderscripttexturecompressor/etc1/rs/etc1compressor.rs:473-478 | a fresh temp from firstHalf with i << 2 ORed in, the second half's indices ORed in and its score added |
| RsEtc1Block.FirstHalfPass | WorldWindAndroid/src/nicastel/renderscripttexturecompressor/etc1/rs/etc1compressor.rs:462-467 | the temp of iteration i is first-pass candidate i, field by field |
| RsEtc1Block.SearchFirstHalves | WorldWindAndroid/src/nicastel/renderscripttexturecompressor/etc1/rs/etc1compressor.rs:460-469 | from score ~0 the loop ends with *pCompressed the least-score first candidate, BestIndex of the eight |
| RsEtc1Block.SecondHalfPass | WorldWindAndroid/src/nicastel/renderscripttexturecompressor/etc1/rs/etc1compressor.rs:473-478 | the temp of iteration i is second-pass candidate i, field by field |
| RsEtc1Block.SearchSecondHalves | WorldWindAndroid/src/nicastel/renderscripttexturecompressor/etc1/rs/etc1compressor.rs:470-484 | taking candidate 0 outright and take_best after, the loop ends with BestIndex of the eight second candidates |
| RsEtc1Block.StartBlockHelper | WorldWindAndroid/src/nicastel/renderscripttexturecompressor/etc1/rs/etc1compressor.rs:450-458 | score is ~0 (2^32 - 1), originalHigh is the flip bit OR the base colour bits and both base colours are stored |
| RsEtc1Block.EncodeBlockHelper | WorldWindAndroid/src/nicastel/renderscripttexturecompressor/etc1/rs/etc1compressor.rs:448-485 | *pCompressed afterwards is BlockHelper of the block, mask and averages for that orientation |
| RsEtc1Block.ByteOf | WorldWindAndroid/src/nicastel/renderscripttexturecompressor/etc1/rs/etc1compressor.rs:258-263 | the byte written is the word's low eight bits |
| RsEtc1Block.WriteBigEndian | WorldWindAndroid/src/nicastel/renderscripttexturecompressor/etc1/rs/etc1compressor.rs:258-263 | the four bytes at i are the word big-endian; every other byte keeps its value |
| RsEtc1Block.AverageSubblocks | WorldWindAndroid/src/nicastel/renderscripttexturecompressor/etc1/rs/etc1compressor.rs:496-499 | the array holds the averages of the two halves of one orientation |
| RsEtc1Block.AverageAll | WorldWindAndroid/src/nicastel/renderscripttexturecompressor/etc1/rs/etc1compressor.rs:494-499 | colors holds the unflipped halves' averages and flippedColors the flipped ones |
| RsEtc1Block.NewBlockHelper | WorldWindAndroid/src/nicastel/renderscripttexturecompressor/etc1/rs/etc1compressor.rs:501-503 | an orientation's etc_compressed is BlockHelper over its averages |
| RsEtc1Block.EncodeBest | WorldWindAndroid/src/nicastel/renderscripttexturecompressor/etc1/rs/etc1compressor.rs:501-504 | take_best of the two orientations is the block's pair of words |
| RsEtc1Block.WriteWords | WorldWindAndroid/src/nicastel/renderscripttexturecompressor/etc1/rs/etc1compressor.rs:510-511 | the first eight bytes are high then low big-endian; the rest of pOut keeps its values |
| RsEtc1Block.EncodeBlock | WorldWindAndroid/src/nicastel/renderscripttexturecompressor/etc1/rs/etc1compressor.rs:492-512 | pOut[0..8] is Etc1.EncodeBlock of the block and mask, the same bytes the Java encoder writes; the rest of pOut keeps its values |
| RsEtc1Raster.DescendAsWritten | WorldWindAndroid/src/nicastel/renderscripttexturecompressor/etc1/rs/etc1compressor.rs:532-541 | the loop as written (bnMP > level blocks) stops with the index inside the level or exactly one past its end, and keeps the blocks still ahead in the chain |
| RsEtc1Raster.Descend | WorldWindAndroid/src/nicastel/renderscripttexturecompressor/etc1/rs/etc1compressor.rs:532-541 | the intended descent (>=) stops with the index strictly inside a non-empty level, keeping the blocks still ahead in the chain |
| RsEtc1Raster.AsWrittenStaysPastLevel | WorldWindAndroid/src/nicastel/renderscripttexturecompressor/etc1/rs/etc1compressor.rs:534 | for index = the level's block count the as-written loop stays on that level, where the intended one moves to block 0 of the next level |
| RsEtc1Raster.AsWrittenMipIndex4 | WorldWindAndroid/src/nicastel/renderscripttexturecompressor/etc1/rs/etc1compressor.rs:532-566 | for an 8 by 8 image with mip-maps, block 4 stays at (4, 8, 8) as written, on block row 2 with yEnd 0 and mask 0, but is block 0 of the 4 by 4 level at byte offset 128 as intended |
| RsEtc1Raster.FindLevel | WorldWindAndroid/src/nicastel/renderscripttexturecompressor/etc1/rs/etc1compressor.rs:527-541 | with mip-maps the intended descent, else the base level unchanged |
| RsEtc1Raster.RoundUp4 | WorldWindAndroid/src/nicastel/renderscripttexturecompressor/etc1/rs/etc1compressor.rs:543-544 | (v + 3) & ~3: the least multiple of 4 not below v |
| RsEtc1Raster.LocateAsWritten | WorldWindAndroid/src/nicastel/renderscripttexturecompressor/etc1/rs/etc1compressor.rs:543-566 | block index = by * (encodedWidth / 4) + bx with bx inside the row; xEnd is always 4, because bx never equals encodedWidth / 4 |
| RsEtc1Raster.Locate | WorldWindAndroid/src/nicastel/renderscripttexturecompressor/etc1/rs/etc1compressor.rs:543-566 | the same decomposition with encodedHeight from the height, as intended; xEnd is 4 |
| RsEtc1Raster.AsWrittenHeightFromWidth | WorldWindAndroid/src/nicastel/renderscripttexturecompressor/etc1/rs/etc1compressor.rs:544-560 | a 4 by 8 level, block 1: as written yEnd = 4 - 8 = -4, an index below kYMask; intended, block (0, 1) with yEnd 4 |
| RsEtc1Raster.LevelFitsPadded | WorldWindAndroid/src/nicastel/renderscripttexturecompressor/etc1/rs/etc1compressor.rs:543-550 | the level's blocks fit in the padded grid |
| RsEtc1Raster.LocateInside | WorldWindAndroid/src/nicastel/renderscripttexturecompressor/etc1/rs/etc1compressor.rs:549-566 | for a block inside its level the intended location is inside the padded grid with xEnd = yEnd = 4 and mask 0xffff |
| RsEtc1Raster.Expand565 | WorldWindAndroid/src/nicastel/renderscripttexturecompressor/etc1/rs/etc1compressor.rs:579-582 | the three bytes of a 565 pixel keep its red, green and blue fields in their high bits |
| RsEtc1Raster.PixelBytes | WorldWindAndroid/src/nicastel/renderscripttexturecompressor/etc1/rs/etc1compressor.rs:577-591 | three bytes per pixel: expanded 565, or the first three bytes of the pixel otherwise |
| RsEtc1Raster.PulledUpTo | WorldWindAndroid/src/nicastel/renderscripttexturecompressor/etc1/rs/etc1compressor.rs:573-593 | the block buffer is 48 bytes |
| RsEtc1Raster.PulledNothing | WorldWindAndroid/src/nicastel/renderscripttexturecompressor/etc1/rs/etc1compressor.rs:573 | before the first pixel the block is the previous buffer |
| RsEtc1Raster.PullStep | WorldWindAndroid/src/nicastel/renderscripttexturecompressor/etc1/rs/etc1compressor.rs:576-591 | storing one pixel's bytes advances the pulled block by one cell |
| RsEtc1Raster.PullRowEnd | WorldWindAndroid/src/nicastel/renderscripttexturecompressor/etc1/rs/etc1compressor.rs:573-593 | the end of one row is the start of the next |
| RsEtc1Raster.StorePixel | WorldWindAndroid/src/nicastel/renderscripttexturecompressor/etc1/rs/etc1compressor.rs:577-591 | the block buffer is the pulled block one cell further |
| RsEtc1Raster.PullRow | WorldWindAndroid/src/nicastel/renderscripttexturecompressor/etc1/rs/etc1compressor.rs:574-592 | the block buffer holds one more pulled row |
| RsEtc1Raster.PullPixels | WorldWindAndroid/src/nicastel/renderscripttexturecompressor/etc1/rs/etc1compressor.rs:573-593 | the block buffer is the yEnd by xEnd pixels of the level, other bytes kept |
| RsEtc1Raster.LevelOf | WorldWindAndroid/src/nicastel/renderscripttexturecompressor/etc1/rs/etc1compressor.rs:527-541 | with the intended descent, the level a kernel index lands on is non-empty and holds the index |
| RsEtc1Raster.SourceOf | WorldWindAndroid/src/nicastel/renderscripttexturecompressor/etc1/rs/etc1compressor.rs:543-571 | with the intended location every block is read as a full 4 by 4 block |
| RsEtc1Raster.PullBlockAndMask | WorldWindAndroid/src/nicastel/renderscripttexturecompressor/etc1/rs/etc1compressor.rs:520-596 | returns mask 0xffff and fills the block with the pixels found by the intended descent and location |
| RsEtc1Raster.PullMaskFromDxt3 | WorldWindAndroid/src/nicastel/renderscripttexturecompressor/etc1/rs/etc1compressor.rs:598-604 | every pixel is valid |
| RsEtc1Raster.FullMaskValid | WorldWindAndroid/src/nicastel/renderscripttexturecompressor/etc1/rs/etc1compressor.rs:603 | mask 0xffff marks all 16 pixels valid |
| RsEtc1Raster.Lane | WorldWindAndroid/src/nicastel/renderscripttexturecompressor/etc1/rs/etc1compressor.rs:635-638 | a lane is lo OR (hi << 8): a 16-bit value with those bytes |
| RsEtc1Raster.PackLanes | WorldWindAndroid/src/nicastel/renderscripttexturecompressor/etc1/rs/etc1compressor.rs:634-638 | the four lanes hold the eight bytes in order, low byte first |
| RsEtc1Raster.EncodeToLanes | WorldWindAndroid/src/nicastel/renderscripttexturecompressor/etc1/rs/etc1compressor.rs:623-638 | the lanes hold Etc1.EncodeBlock of the block and mask |
| RsEtc1Raster.Root | WorldWindAndroid/src/nicastel/renderscripttexturecompressor/etc1/rs/etc1compressor.rs:607-643 | the kernel's output for index x is Etc1.EncodeBlock of the block pulled for x by the intended descent and location, with mask 0xffff |
| RsEtc1Raster.FullBlockIgnoresStale | WorldWindAndroid/src/nicastel/renderscripttexturecompressor/etc1/rs/etc1compressor.rs:610-616 | a block pulled in full does not depend on what the uninitialised buffer held |
| Colors.LowByte | WorldWindAndroid/src/gov/nasa/worldwind/render/Color.java:496-537 | the value & 0xff: a byte congruent to the value modulo 256 |
| Colors.MakeColorInt3 | WorldWindAndroid/src/gov/nasa/worldwind/render/Color.java:441-443 | the packed RGB int lies in 0..0xffffff: alpha is 0 |
| Colors.MakeColorInt | WorldWindAndroid/src/gov/nasa/worldwind/render/Color.java:461-463 | the packed ARGB int is an int, negative exactly when the alpha byte is 0x80 or more |
| Colors.ColorIntRed | WorldWindAndroid/src/gov/nasa/worldwind/render/Color.java:496-498 | (colorInt >> 16) & 0xff is a byte |
| Colors.ColorIntGreen | WorldWindAndroid/src/gov/nasa/worldwind/render/Color.java:509-511 | (colorInt >> 8) & 0xff is a byte |
| Colors.ColorIntBlue | WorldWindAndroid/src/gov/nasa/worldwind/render/Color.java:522-524 | colorInt & 0xff is a byte |
| Colors.ColorIntAlpha | WorldWindAndroid/src/gov/nasa/worldwind/render/Color.java:535-537 | (colorInt >>> 24) & 0xff is a byte |
| Colors.MakeColorIntFields | WorldWindAndroid/src/gov/nasa/worldwind/render/Color.java:461-463 | the four getters read back the low byte of each component packed by makeColorInt (also lines 496-537) |
| Colors.MakeColorInt3Fields | WorldWindAndroid/src/gov/nasa/worldwind/render/Color.java:441-443 | the three-component int is the four-component one with alpha 0, and the getters read back each component's low byte (also lines 496-537) |
| Colors.RgbRoundTrip | WorldWindAndroid/src/gov/nasa/worldwind/render/Color.java:441-443 | an int in 0..0xffffff is rebuilt exactly from its red, green and blue bytes (also lines 496-524) |
| Colors.ColorIntRoundTrip | WorldWindAndroid/src/gov/nasa/worldwind/render/Color.java:461-463 | every int is rebuilt exactly from its four component bytes (also lines 496-537) |
| Colors.HexDigit | WorldWindAndroid/src/gov/nasa/worldwind/render/Color.java:210-240 | a digit value in 0..15, present exactly for 0-9, a-f, A-F |
| Colors.HexValue | WorldWindAndroid/src/gov/nasa/worldwind/render/Color.java:210-240 | the value of n hexadecimal digits is below 16^n |
| Colors.HexValueAppend | WorldWindAndroid/src/gov/nasa/worldwind/render/Color.java:210-240 | the value of a concatenation is the first part shifted by the second part's digits plus the second part |
| Colors.ParseLong16 | WorldWindAndroid/src/gov/nasa/worldwind/render/Color.java:210-240 | Long.parseLong(s, 16) yields a value in the long range when it succeeds |
| Colors.ColorStringBody | WorldWindAndroid/src/gov/nasa/worldwind/render/Color.java:217-223 | a leading # is stripped, else a leading 0x or 0X, else nothing |
| Colors.ParseColorString | WorldWindAndroid/src/gov/nasa/worldwind/render/Color.java:210-240 | the constructor succeeds exactly when the stripped body parses as a hexadecimal long, and otherwise fails with the unrecognised-colour error |
| Colors.AbgrIsReversed | WorldWindAndroid/src/gov/nasa/worldwind/render/Color.java:228-236 | the parsed int is read with red from its low byte and alpha from its high byte: ABGR order |
| Colors.ParseEightDigits | WorldWindAndroid/src/gov/nasa/worldwind/render/Color.java:210-240 | the body with no prefix, with # and with 0x parse alike, to the ABGR components of the value's low 32 bits |
| Colors.HexValueBytes | WorldWindAndroid/src/gov/nasa/worldwind/render/Color.java:210-240 | eight hex digits are four bytes, most significant first |
| Colors.ColorStringAbgr | WorldWindAndroid/src/gov/nasa/worldwind/render/Color.java:210-240 | "AABBGGRR", with or without a prefix, gives red RR, green GG, blue BB, alpha AA, each divided by 255 |
| Colors.AbgrOfBytes | WorldWindAndroid/src/gov/nasa/worldwind/render/Color.java:228-236 | the int built from the bytes a, b, g, r has components r, g, b, a over 255 |
| Colors.ColorStringRejects | WorldWindAndroid/src/gov/nasa/worldwind/render/Color.java:210-240 | a string whose body has a non-hexadecimal digit is refused |
| Colors.EmptyColorStrings | WorldWindAndroid/src/gov/nasa/worldwind/render/Color.java:210-240 | "", "#" and "0X" are refused |
| Colors.Color.constructor | WorldWindAndroid/src/gov/nasa/worldwind/render/Color.java:96-97 | the new colour is opaque black |
| Colors.Color.FromRgb | WorldWindAndroid/src/gov/nasa/worldwind/render/Color.java:134-139 | the components given, alpha 1 |
| Colors.Color.FromRgba | WorldWindAndroid/src/gov/nasa/worldwind/render/Color.java:155-160 | the four components given |
| Colors.Color.FromColorInt | WorldWindAndroid/src/gov/nasa/worldwind/render/Color.java:170-175 | each component is its byte of the int over 255 |
| Colors.Color.FromColorIntAlpha | WorldWindAndroid/src/gov/nasa/worldwind/render/Color.java:191-196 | as from the int, except alpha is 1 when hasAlpha is false |
| Colors.Color.Copy | WorldWindAndroid/src/gov/nasa/worldwind/render/Color.java:109-120 | a null colour is an illegal argument; otherwise a fresh colour with the same components |
| Colors.Color.FromString | WorldWindAndroid/src/gov/nasa/worldwind/render/Color.java:210-240 | a null string is an illegal argument, an unparsable one is the parse error, otherwise a fresh colour with the parsed components |
| Colors.Color.Set | WorldWindAndroid/src/gov/nasa/worldwind/render/Color.java:603-616 | a null colour is an illegal argument and changes nothing; otherwise this takes the other colour's components |
| Colors.Color.SetRgb | WorldWindAndroid/src/gov/nasa/worldwind/render/Color.java:631-637 | sets red, green and blue and keeps alpha |
| Colors.Color.SetRgba | WorldWindAndroid/src/gov/nasa/worldwind/render/Color.java:654-661 | sets all four components |
| Colors.Color.SetColorInt | WorldWindAndroid/src/gov/nasa/worldwind/render/Color.java:672-679 | sets every component from the int's bytes |
| Colors.Color.SetColorIntAlpha | WorldWindAndroid/src/gov/nasa/worldwind/render/Color.java:697-707 | as set(int), except alpha keeps its value when hasAlpha is false |
| Picking.PickedObject.constructor | WorldWindAndroid/src/gov/nasa/worldwind/pick/PickSupport.java:61-71 | a picked object holds its colour code, user object, position and terrain flag, is not on top and has no parent layer |
| Picking.PickedObject.SetOnTop | WorldWindAndroid/src/gov/nasa/worldwind/SceneController.java:445-452 | marks the object on top and keeps its parent layer |
| Picking.PickedObject.SetParentLayer | WorldWindAndroid/src/gov/nasa/worldwind/pick/PickSupport.java:97 | sets the parent layer and keeps the on-top mark |
| Picking.FirstTerrainFrom | WorldWindAndroid/src/gov/nasa/worldwind/pick/PickedObjectList.java:53-59 | the first terrain object from i on, or none exactly when there is none |
| Picking.FirstOnTopFrom | WorldWindAndroid/src/gov/nasa/worldwind/pick/PickedObjectList.java:37-51 | the first object marked on top from i on, or none exactly when there is none |
| Picking.TopOf | WorldWindAndroid/src/gov/nasa/worldwind/pick/PickedObjectList.java:37-51 | null exactly for an empty list; the only object of a one-element list; with more, the first object marked on top, or the first object when none is |
| Picking.PickedObjectList.constructor | WorldWindAndroid/src/gov/nasa/worldwind/pick/PickedObjectList.java:20-21 | a new list is empty |
| Picking.PickedObjectList.Add | WorldWindAndroid/src/gov/nasa/worldwind/pick/PickedObjectList.java:14 | add appends |
| Picking.PickedObjectList.Clear | WorldWindAndroid/src/gov/nasa/worldwind/pick/PickedObjectList.java:23-26 | clear empties the list |
| Picking.PickedObjectList.Set | WorldWindAndroid/src/gov/nasa/worldwind/pick/PickedObjectList.java:23-26 | the list becomes a copy of the other list; set(this) clears it first and so ends empty |
| Picking.PickedObjectList.GetTerrainObject | WorldWindAndroid/src/gov/nasa/worldwind/pick/PickedObjectList.java:53-59 | the first terrain object, or null when there is none |
| Picking.PickedObjectList.HasNonTerrainObjects | WorldWindAndroid/src/gov/nasa/worldwind/pick/PickedObjectList.java:28-30 | true exactly when there are two or more objects or a single non-terrain one |
| Picking.PickedObjectList.GetTopPickedObject | WorldWindAndroid/src/gov/nasa/worldwind/pick/PickedObjectList.java:37-51 | returns TopOf of the list |
| Picking.PickedObjectList.GetTopObject | WorldWindAndroid/src/gov/nasa/worldwind/pick/PickedObjectList.java:32-35 | the user object of the top picked object, or null when there is none |
| Picking.PickedObjectList.GetMostRecentPickedObject | WorldWindAndroid/src/gov/nasa/worldwind/pick/PickedObjectList.java:61-63 | the last object added, null exactly for an empty list |
| DrawContexts.CompareTo | WorldWindAndroid/src/gov/nasa/worldwind/render/DrawContext.java:47-52 | -1, 0 or 1; 0 exactly for equal distance and time; negative exactly when this entry is farther, or as far and inserted earlier |
| DrawContexts.CompareToAntisymmetric | WorldWindAndroid/src/gov/nasa/worldwind/render/DrawContext.java:47-52 | swapping the entries negates the comparison |
| DrawContexts.CompareToTransitive | WorldWindAndroid/src/gov/nasa/worldwind/render/DrawContext.java:47-52 | the order is transitive, so the priority queue's order is well defined |
| DrawContexts.ToBackSortsFirst | WorldWindAndroid/src/gov/nasa/worldwind/render/DrawContext.java:388-399 | an entry with the largest distance sorts before any nearer entry (also lines 47-52) |
| DrawContexts.ToBackInInsertionOrder | WorldWindAndroid/src/gov/nasa/worldwind/render/DrawContext.java:388-399 | two entries sent to the back sort in insertion order, given that the later one has the strictly larger nanoTime (also lines 47-52) |
| DrawContexts.NextPickNumber | WorldWindAndroid/src/gov/nasa/worldwind/render/DrawContext.java:452-466 | never the clear colour; from a number in range a number in 1..0xfffffe; larger than before unless it wrapped to 1 or 2; n + 1 when that is in range and not the clear colour |
| DrawContexts.PickNumbersWrap | WorldWindAndroid/src/gov/nasa/worldwind/render/DrawContext.java:458-463 | after 0xfffffd comes 0xfffffe, and then 1 (or 2 when 1 is the clear colour) |
| DrawContexts.PickNumberIsRgb | WorldWindAndroid/src/gov/nasa/worldwind/render/DrawContext.java:443-466 | every pick number is a packed RGB int with alpha 0, rebuilt exactly from its three bytes |
| DrawContexts.PickColorOf | WorldWindAndroid/src/gov/nasa/worldwind/render/DrawContext.java:500-501 | 0 exactly when the read RGB is 0 or the clear colour; otherwise the packed RGB of the three bytes, never the clear colour |
| DrawContexts.PickNumberReadBack | WorldWindAndroid/src/gov/nasa/worldwind/render/DrawContext.java:452-502 | reading back the colour of a pick number gives the number: unique pick colours identify their objects |
| DrawContexts.DrawContext.constructor | WorldWindAndroid/src/gov/nasa/worldwind/render/DrawContext.java:57-81 | empty picked-object list and ordered renderables, pick number 0, vertical exaggeration 1, not picking |
| DrawContexts.DrawContext.Initialize | WorldWindAndroid/src/gov/nasa/worldwind/render/DrawContext.java:87-118 | a negative viewport size is an illegal argument and changes nothing; otherwise the frame state is reset: sizes stored, exaggeration 1, queues and picked objects cleared, pick number 0, no pick point |
| DrawContexts.DrawContext.GetUniquePickColor | WorldWindAndroid/src/gov/nasa/worldwind/render/DrawContext.java:452-466 | the pick number advances to NextPickNumber and is returned; no other field changes |
| DrawContexts.DrawContext.GetPickColor | WorldWindAndroid/src/gov/nasa/worldwind/render/DrawContext.java:485-502 | a null point is an illegal argument; otherwise PickColorOf the pixel read |
| DrawContexts.DrawContext.AddOrderedRenderable | WorldWindAndroid/src/gov/nasa/worldwind/render/DrawContext.java:378-386 | a null renderable is ignored; otherwise an entry with its distance and the insertion time is added; no other field changes |
| DrawContexts.DrawContext.AddOrderedRenderableToBack | WorldWindAndroid/src/gov/nasa/worldwind/render/DrawContext.java:388-399 | a null renderable is ignored; otherwise an entry with distance Double.MAX_VALUE is added; no other field changes |
| DrawContexts.DrawContext.SetVerticalExaggeration | WorldWindAndroid/src/gov/nasa/worldwind/render/DrawContext.java:219-221 | stores the exaggeration and changes nothing else |
| DrawContexts.DrawContext.SetFrameTimeStamp | WorldWindAndroid/src/gov/nasa/worldwind/render/DrawContext.java:267-269 | stores the time stamp and changes nothing else |
| DrawContexts.DrawContext.SetPickPoint | WorldWindAndroid/src/gov/nasa/worldwind/render/DrawContext.java:519-521 | stores the pick point, or none for null, and changes nothing else |
| DrawContexts.DrawContext.AddPickedObject | WorldWindAndroid/src/gov/nasa/worldwind/render/DrawContext.java:555-563 | a null object is an illegal argument and changes nothing; otherwise it is appended to the objects at the pick point |
| PickSupports.PickSupport.constructor | WorldWindAndroid/src/gov/nasa/worldwind/pick/PickSupport.java:39-55 | no pickable objects |
| PickSupports.PickSupport.AddPickableObject | WorldWindAndroid/src/gov/nasa/worldwind/pick/PickSupport.java:57-59 | the object is stored under its colour code, replacing any other with that code |
| PickSupports.PickSupport.AddPickableTerrainObject | WorldWindAndroid/src/gov/nasa/worldwind/pick/PickSupport.java:69-71 | a fresh picked object with the given code, object, position and terrain flag is stored under its code |
| PickSupports.PickSupport.AddPickablePositionedObject | WorldWindAndroid/src/gov/nasa/worldwind/pick/PickSupport.java:65-67 | a fresh non-terrain picked object with the given position is stored under its code |
| PickSupports.PickSupport.AddPickableCodedObject | WorldWindAndroid/src/gov/nasa/worldwind/pick/PickSupport.java:61-63 | a fresh non-terrain picked object with no position is stored under its code |
| PickSupports.PickSupport.ClearPickList | WorldWindAndroid/src/gov/nasa/worldwind/pick/PickSupport.java:73-75 | no pickable objects remain |
| PickSupports.PickSupport.GetTopObject | WorldWindAndroid/src/gov/nasa/worldwind/pick/PickSupport.java:81-92 | null when nothing is pickable; an illegal argument for a missing pick point; otherwise the object stored under the colour read back, or null for 0 or an unknown colour |
| PickSupports.PickSupport.ResolvePick | WorldWindAndroid/src/gov/nasa/worldwind/pick/PickSupport.java:94-105 | a failed lookup changes nothing; otherwise the pick list is cleared and a found object, with its parent layer set when a layer is given, is added to the draw context's picked objects; nothing is added when none is found |
| SceneControllers.MergeKeepsPrefix | WorldWindAndroid/src/gov/nasa/worldwind/SceneController.java:502-522 | the merged list starts with list A unchanged |
| SceneControllers.MergeAppendsFromB | WorldWindAndroid/src/gov/nasa/worldwind/SceneController.java:502-522 | everything merged in after A is a non-terrain object of list B |
| SceneControllers.MergeAppendsNewObjects | WorldWindAndroid/src/gov/nasa/worldwind/SceneController.java:502-522 | no merged-in object duplicates a user object already in the list before it |
| SceneControllers.MergeHoldsB | WorldWindAndroid/src/gov/nasa/worldwind/SceneController.java:502-522 | every non-terrain user object of B is held by the merged list |
| SceneControllers.HoldsGrows | WorldWindAndroid/src/gov/nasa/worldwind/SceneController.java:502-522 | a longer list holds every user object of its prefix |
| SceneControllers.MergeWithItself | WorldWindAndroid/src/gov/nasa/worldwind/SceneController.java:502-522 | merging a prefix of a list into the list gives the list back |
| SceneControllers.MergeSelf | WorldWindAndroid/src/gov/nasa/worldwind/SceneController.java:502-522 | merging a list into itself gives it back |
| SceneControllers.SceneController.constructor | WorldWindAndroid/src/gov/nasa/worldwind/SceneController.java:30-41 | the controller draws with the draw context it was given, has the configured vertical exaggeration and no pick point |
| SceneControllers.SceneController.DrawFrame | WorldWindAndroid/src/gov/nasa/worldwind/SceneController.java:202-246 | a negative viewport size is an illegal argument and changes nothing; otherwise the draw context is reset for a frame of that size and holds the controller's vertical exaggeration, the clock reading as time stamp and the controller's pick point |
| SceneControllers.SceneController.SetVerticalExaggeration | WorldWindAndroid/src/gov/nasa/worldwind/SceneController.java:112-116 | stores the exaggeration and changes nothing else |
| SceneControllers.SceneController.SetPickPoint | WorldWindAndroid/src/gov/nasa/worldwind/SceneController.java:176-178 | stores the pick point, or none for null, and changes nothing else |
| SceneControllers.FirstWithCode | WorldWindAndroid/src/gov/nasa/worldwind/SceneController.java:441-458 | the first object with the colour code, or none exactly when there is none |
| SceneControllers.SceneController.ResolveTopPick | WorldWindAndroid/src/gov/nasa/worldwind/SceneController.java:441-458 | no objects: nothing; one object: it is marked on top; several without a pick point: an illegal argument; several with a pick point: the first object with the colour read back is marked on top and the others are unchanged, or nothing changes when the colour is 0; no parent layer changes |
| SceneControllers.MergePickedObjectLists | WorldWindAndroid/src/gov/nasa/worldwind/SceneController.java:502-522 | returns list A; A changes only when both lists exist and have non-terrain objects, and then B's new non-terrain objects are appended to it |
| MemoryCaches.MemoryCache.constructor | WorldWindAndroid/src/gov/nasa/worldwind/cache/BasicMemoryCacheSet.java:18 | MemoryCache is not part of this model: a cache is a map that starts empty |
| MemoryCaches.MemoryCache.Clear | WorldWindAndroid/src/gov/nasa/worldwind/cache/BasicMemoryCacheSet.java:75 | MemoryCache is not part of this model: clearing empties its map |
| MemoryCaches.BasicMemoryCacheSet.constructor | WorldWindAndroid/src/gov/nasa/worldwind/cache/BasicMemoryCacheSet.java:18-22 | no caches |
| MemoryCaches.BasicMemoryCacheSet.Get | WorldWindAndroid/src/gov/nasa/worldwind/cache/BasicMemoryCacheSet.java:25-35 | a null key is an illegal argument; otherwise the cache under the key, null exactly when there is none |
| MemoryCaches.BasicMemoryCacheSet.Put | WorldWindAndroid/src/gov/nasa/worldwind/cache/BasicMemoryCacheSet.java:38-55 | a null key or cache is an illegal argument; otherwise putIfAbsent: a new key gets the cache and null is returned, a present key keeps its cache, which is returned |
| MemoryCaches.BasicMemoryCacheSet.Contains | WorldWindAndroid/src/gov/nasa/worldwind/cache/BasicMemoryCacheSet.java:58-68 | a null key is an illegal argument; otherwise whether the key has a cache |
| MemoryCaches.BasicMemoryCacheSet.Clear | WorldWindAndroid/src/gov/nasa/worldwind/cache/BasicMemoryCacheSet.java:71-79 | every held cache is cleared and the set is emptied |
| RenderableLayers.AVListsAppend | WorldWindAndroid/src/gov/nasa/worldwind/layers/RenderableLayer.java:121-144 | the listened-to renderables of a concatenation are those of both parts |
| RenderableLayers.AVListsSnoc | WorldWindAndroid/src/gov/nasa/worldwind/layers/RenderableLayer.java:99-105 | appending one renderable adds it to the listened-to multiset exactly when it is an AVList |
| RenderableLayers.AVListsMembers | WorldWindAndroid/src/gov/nasa/worldwind/layers/RenderableLayer.java:103-104 | a renderable is listened to exactly when it is in the list and is an AVList |
| RenderableLayers.RemoveFirstTakesOne | WorldWindAndroid/src/gov/nasa/worldwind/layers/RenderableLayer.java:167 | ConcurrentLinkedQueue.remove takes away exactly one occurrence when there is one |
| RenderableLayers.RemoveFirstAVLists | WorldWindAndroid/src/gov/nasa/worldwind/layers/RenderableLayer.java:167-173 | removing a renderable removes one listener registration exactly when it is an AVList |
| RenderableLayers.AddThenRemove | WorldWindAndroid/src/gov/nasa/worldwind/layers/RenderableLayer.java:90-106 | removing a renderable just added gives back the old list (also lines 158-174) |
| RenderableLayers.Unlisten | WorldWindAndroid/src/gov/nasa/worldwind/layers/RenderableLayer.java:188-192 | the loop removes the layer as listener from every AVList renderable of the list |
| RenderableLayers.RenderableLayer.constructor | WorldWindAndroid/src/gov/nasa/worldwind/layers/RenderableLayer.java:30-33 | no renderables and nothing listened to |
| RenderableLayers.RenderableLayer.GetNumRenderables | WorldWindAndroid/src/gov/nasa/worldwind/layers/RenderableLayer.java:63-66 | the number of renderables the layer holds |
| RenderableLayers.RenderableLayer.AddRenderable | WorldWindAndroid/src/gov/nasa/worldwind/layers/RenderableLayer.java:90-106 | null is an illegal argument and changes nothing; otherwise the renderable is appended and listened to when it is an AVList |
| RenderableLayers.RenderableLayer.AddAllRenderables | WorldWindAndroid/src/gov/nasa/worldwind/layers/RenderableLayer.java:121-144 | a null iterable is an illegal argument; otherwise the non-null items are appended in order and the AVLists among them listened to |
| RenderableLayers.RenderableLayer.RemoveRenderable | WorldWindAndroid/src/gov/nasa/worldwind/layers/RenderableLayer.java:158-174 | null is an illegal argument; otherwise its first occurrence is removed, and its listener registration with it when it was present and is an AVList |
| RenderableLayers.RenderableLayer.RemoveAllRenderables | WorldWindAndroid/src/gov/nasa/worldwind/layers/RenderableLayer.java:184-195 | the list is emptied and every listener registration for it is removed |
| RenderableLayers.RenderableLayer.Dispose | WorldWindAndroid/src/gov/nasa/worldwind/layers/RenderableLayer.java:290-308 | every disposable renderable is disposed, in order, then the list is emptied and no listener registration remains |
| DataConfigurations.Decimal | WorldWindAndroid/src/gov/nasa/worldwind/util/DataConfigurationUtils.java:949 | Integer.toString of a non-negative number: non-empty and without a comma |
| DataConfigurations.AVList.constructor | WorldWindAndroid/src/gov/nasa/worldwind/util/DataConfigurationUtils.java:82-107 | AVListImpl is not part of this model: a fresh list holds no values |
| DataConfigurations.AVList.SetIfAbsent | WorldWindAndroid/src/gov/nasa/worldwind/util/DataConfigurationUtils.java:806-929 | the value is stored exactly when the key is absent and a candidate exists |
| DataConfigurations.ConfigName | WorldWindAndroid/src/gov/nasa/worldwind/util/DataConfigurationUtils.java:94-102 | the dataset name when it has text, else the display name when it has text, else "DataConfiguration"; never empty |
| DataConfigurations.GetDataConfigFilename | WorldWindAndroid/src/gov/nasa/worldwind/util/DataConfigurationUtils.java:82-107 | null parameters are an illegal argument; no cache name gives null; otherwise cache name, separator, sanitised configuration name and suffix |
| DataConfigurations.TrimTrailingEmpty | WorldWindAndroid/src/gov/nasa/worldwind/util/DataConfigurationUtils.java:492-505 | String.split drops exactly the trailing empty pieces: the result is a prefix, ends with a non-empty piece, and every dropped piece is empty |
| DataConfigurations.PiecesOfJoin | WorldWindAndroid/src/gov/nasa/worldwind/util/DataConfigurationUtils.java:492-505 | cutting the comma-join of comma-free names at the commas gives the names back |
| DataConfigurations.SplitJoin | WorldWindAndroid/src/gov/nasa/worldwind/util/DataConfigurationUtils.java:492-505 | split(",") of the join of comma-free names whose last is non-empty gives the names back |
| DataConfigurations.GetOGCLayerNames | WorldWindAndroid/src/gov/nasa/worldwind/util/DataConfigurationUtils.java:492-505 | null parameters are an illegal argument; no or empty layer names give null; otherwise the names split at commas |
| DataConfigurations.LayerNamesRoundTrip | WorldWindAndroid/src/gov/nasa/worldwind/util/DataConfigurationUtils.java:492-505 | stored layer names are read back by getOGCLayerNames as they were joined |
| DataConfigurations.FirstMatch | WorldWindAndroid/src/gov/nasa/worldwind/util/DataConfigurationUtils.java:517-521 | the first format equal to the preference ignoring case, none exactly when no format matches |
| DataConfigurations.PreferredMatch | WorldWindAndroid/src/gov/nasa/worldwind/util/DataConfigurationUtils.java:516-523 | a match found is a format index |
| DataConfigurations.PreferredMatchIsEarliest | WorldWindAndroid/src/gov/nasa/worldwind/util/DataConfigurationUtils.java:516-523 | none exactly when no preference matches any format; otherwise the first match of the earliest preference that matches |
| DataConfigurations.ChooseImageFormat | WorldWindAndroid/src/gov/nasa/worldwind/util/DataConfigurationUtils.java:507-526 | null exactly for no formats; the first format when there are no preferences; otherwise the earliest-preferred match, falling back to the first format |
| DataConfigurations.EmptyPrefix | WorldWindAndroid/src/gov/nasa/worldwind/util/DataConfigurationUtils.java:931-940 | the length of the run of empty levels starting at a level: all empty, and the next one is not |
| DataConfigurations.GetNumEmptyLevels | WorldWindAndroid/src/gov/nasa/worldwind/util/DataConfigurationUtils.java:931-940 | the number of leading empty levels |
| DataConfigurations.InactiveBelow | WorldWindAndroid/src/gov/nasa/worldwind/util/DataConfigurationUtils.java:942-954 | the indices below n of inactive levels |
| DataConfigurations.InactiveBelowAscending | WorldWindAndroid/src/gov/nasa/worldwind/util/DataConfigurationUtils.java:942-954 | those indices are strictly ascending |
| DataConfigurations.InactiveBelowComplete | WorldWindAndroid/src/gov/nasa/worldwind/util/DataConfigurationUtils.java:942-954 | every inactive level below n is listed |
| DataConfigurations.BuiltPieces | WorldWindAndroid/src/gov/nasa/worldwind/util/DataConfigurationUtils.java:942-954 | the built text is non-empty exactly when some level is inactive, and then it is their indices in decimal, comma-separated |
| DataConfigurations.GetInactiveLevels | WorldWindAndroid/src/gov/nasa/worldwind/util/DataConfigurationUtils.java:942-954 | the loop builds exactly that text, or null when every level is active |
| DataConfigurations.InactiveLevelsRoundTrip | WorldWindAndroid/src/gov/nasa/worldwind/util/DataConfigurationUtils.java:942-954 | null exactly when every level is active; otherwise splitting the text gives the ascending inactive indices |
| DataConfigurations.TextCandidate | WorldWindAndroid/src/gov/nasa/worldwind/util/DataConfigurationUtils.java:819-833 | a candidate string value exists exactly when it has text |
| DataConfigurations.GetLevelSetConfigParams | WorldWindAndroid/src/gov/nasa/worldwind/util/DataConfigurationUtils.java:806-929 | a null level set is an illegal argument; a level set with levels fills every absent key of the given or a fresh list from the level set; one without levels behaves as FillWithoutLevels, so a fresh list throws NullPointerException |
| DataConfigurations.NoLevelsConfig | WorldWindAndroid/src/gov/nasa/worldwind/util/DataConfigurationUtils.java:864-903 | filling the level counts and the level set's own keys leaves tile width and height absent exactly when they were |
| DataConfigurations.FillWithoutLevels | WorldWindAndroid/src/gov/nasa/worldwind/util/DataConfigurationUtils.java:817-929 | with a null first level: NullPointerException with nothing changed when a first-level key before the tile structure is absent; else the level counts and the level set's keys are filled, then NullPointerException when a tile size is absent, else a normal return after the level-zero tile delta |
| DataConfigurations.LevelSetConfigAt | WorldWindAndroid/src/gov/nasa/worldwind/util/DataConfigurationUtils.java:806-929 | per key: a present key keeps its value; an absent key gets the level set's value for it, when there is one |
| DataConfigurations.LevelSetConfigKeepsPresent | WorldWindAndroid/src/gov/nasa/worldwind/util/DataConfigurationUtils.java:806-929 | no key is lost and no present value is overwritten |
| DataConfigurations.LevelSetConfigIdempotent | WorldWindAndroid/src/gov/nasa/worldwind/util/DataConfigurationUtils.java:806-929 | filling a second time changes nothing |
| KmlUtil.IsHighlightStyleState | WorldWindAndroid/src/gov/nasa/worldwind/kml/impl/KMLUtil.java:62-69 | true exactly for a sub-style whose state is highlight |
| KmlUtil.ConvertAltitudeMode | WorldWindAndroid/src/gov/nasa/worldwind/kml/impl/KMLUtil.java:71-81 | clampToGround and absolute map to their constants, anything else, null included, to relative-to-ground |
| KmlUtil.KmlUnitsToWWUnits | WorldWindAndroid/src/gov/nasa/worldwind/kml/impl/KMLUtil.java:91-101 | each of the three KML unit names maps to its WorldWind unit, anything else to null |
| KmlUtil.WWUnitsToKmlUnits | WorldWindAndroid/src/gov/nasa/worldwind/kml/impl/KMLUtil.java:111-121 | each of the three AVKey unit constants maps to its KML name, and exactly null and any other string give null |
| KmlUtil.KmlUnitsRoundTrip | WorldWindAndroid/src/gov/nasa/worldwind/kml/impl/KMLUtil.java:91-121 | a KML unit name survives the round trip; any other gives null |
| KmlUtil.WWUnitsRoundTrip | WorldWindAndroid/src/gov/nasa/worldwind/kml/impl/KMLUtil.java:91-121 | every WorldWind unit constant survives the round trip; null and any other string give null |
| KmlUtil.CreateSectorFromLatLonBox | WorldWindAndroid/src/gov/nasa/worldwind/kml/impl/KMLUtil.java:134-157 | null is an illegal argument; a missing side gives null; otherwise the sector spans the box sides, ordered |
| KmlUtil.ComputeAltitude | WorldWindAndroid/src/gov/nasa/worldwind/kml/impl/KMLUtil.java:243-258 | latitude and longitude kept; the elevation is the terrain's when clamped, the given one when absolute, their sum otherwise |
| KmlUtil.ComputeAltitudes | WorldWindAndroid/src/gov/nasa/worldwind/kml/impl/KMLUtil.java:223-232 | one result per position, each converted by computeAltitude |
| KmlUtil.AltitudesAt | WorldWindAndroid/src/gov/nasa/worldwind/kml/impl/KMLUtil.java:223-232 | the reference list function has the same length and elements |
| KmlUtil.PositionList.constructor | WorldWindAndroid/src/gov/nasa/worldwind/kml/impl/KMLUtil.java:167-212 | an empty position list |
| KmlUtil.PositionList.Add | WorldWindAndroid/src/gov/nasa/worldwind/kml/impl/KMLUtil.java:167-212 | appends one position |
| KmlUtil.PositionList.AddAll | WorldWindAndroid/src/gov/nasa/worldwind/kml/impl/KMLUtil.java:167-212 | appends the positions in order |
| KmlUtil.GetPositions | WorldWindAndroid/src/gov/nasa/worldwind/kml/impl/KMLUtil.java:167-212 | appends exactly the positions of the geometry, children of a multi-geometry in order |
| KmlUtil.MultiGeometryPositions | WorldWindAndroid/src/gov/nasa/worldwind/kml/impl/KMLUtil.java:201-209 | the positions of a multi-geometry of a + b are those of a followed by those of b |
| KmlUtil.ChildPrefix | WorldWindAndroid/src/gov/nasa/worldwind/kml/impl/KMLUtil.java:201-209 | the positions of the first children, as many as a has, are those of the multi-geometry of those children |
| ViewLimits.Clamp | WorldWindAndroid/src/gov/nasa/worldwind/view/BasicViewPropertyLimits.java:150-162 | the angle or value itself when within the limits, the lower limit below them, the upper one otherwise; within the limits whenever they are ordered |
| ViewLimits.ClampIdempotent | WorldWindAndroid/src/gov/nasa/worldwind/view/BasicViewPropertyLimits.java:150-162 | limiting a limited value changes nothing |
| ViewLimits.ClampMonotone | WorldWindAndroid/src/gov/nasa/worldwind/view/BasicViewPropertyLimits.java:150-162 | limiting keeps the order of two values |
| ViewLimits.InvertedLimits | WorldWindAndroid/src/gov/nasa/worldwind/view/BasicViewPropertyLimits.java:150-162 | with inverted limits every result lies outside them: the lower limit for small values, the upper one for the rest |
| ViewLimits.ClampToSector | WorldWindAndroid/src/gov/nasa/worldwind/view/BasicViewPropertyLimits.java:270-289 | latitude and longitude are limited independently to the sector's bounds |
| ViewLimits.ClampToSectorProperties | WorldWindAndroid/src/gov/nasa/worldwind/view/BasicViewPropertyLimits.java:252-290 | for an ordered sector the result lies in it, a location inside is kept, and limiting twice changes nothing |
| ViewLimits.BasicViewPropertyLimits.constructor | WorldWindAndroid/src/gov/nasa/worldwind/view/BasicViewPropertyLimits.java:30-41 | the default limits: the full sphere, headings and rolls within -180..180, pitches within 0..90, eye elevation within plus and minus Double.MAX_VALUE |
| ViewLimits.BasicViewPropertyLimits.SetEyeLocationLimits | WorldWindAndroid/src/gov/nasa/worldwind/view/BasicViewPropertyLimits.java:48-58 | null is an illegal argument and changes nothing; otherwise only the eye location limits change |
| ViewLimits.BasicViewPropertyLimits.SetEyeElevationLimits | WorldWindAndroid/src/gov/nasa/worldwind/view/BasicViewPropertyLimits.java:65-69 | only the two eye elevation limits change |
| ViewLimits.BasicViewPropertyLimits.SetHeadingLimits | WorldWindAndroid/src/gov/nasa/worldwind/view/BasicViewPropertyLimits.java:76-87 | a null angle is an illegal argument and changes nothing; otherwise only the heading limits change |
| ViewLimits.BasicViewPropertyLimits.SetPitchLimits | WorldWindAndroid/src/gov/nasa/worldwind/view/BasicViewPropertyLimits.java:94-105 | a null angle is an illegal argument and changes nothing; otherwise only the pitch limits change |
| ViewLimits.BasicViewPropertyLimits.SetRollLimits | WorldWindAndroid/src/gov/nasa/worldwind/view/BasicViewPropertyLimits.java:123-134 | a null angle is an illegal argument and changes nothing; otherwise only the roll limits change |
| ViewLimits.LimitHeading | WorldWindAndroid/src/gov/nasa/worldwind/view/BasicViewPropertyLimits.java:136-164 | null arguments are illegal; otherwise the heading limited to the heading limits, within them when ordered |
| ViewLimits.LimitPitch | WorldWindAndroid/src/gov/nasa/worldwind/view/BasicViewPropertyLimits.java:166-193 | null arguments are illegal; otherwise the pitch limited to the pitch limits, within them when ordered |
| ViewLimits.LimitRoll | WorldWindAndroid/src/gov/nasa/worldwind/view/BasicViewPropertyLimits.java:201-228 | null arguments are illegal; otherwise the roll limited to the roll limits, within them when ordered |
| ViewLimits.LimitEyeElevation | WorldWindAndroid/src/gov/nasa/worldwind/view/BasicViewPropertyLimits.java:230-250 | null limits are illegal; otherwise the elevation limited to the eye elevation limits |
| ViewLimits.LimitEyePositionLocation | WorldWindAndroid/src/gov/nasa/worldwind/view/BasicViewPropertyLimits.java:252-290 | null arguments are illegal; otherwise the location limited to the eye location sector, inside it when the sector is ordered |
| ViewLimits.BasicOrbitViewLimits.constructor | WorldWindAndroid/src/gov/nasa/worldwind/view/BasicOrbitViewLimits.java:27-38 | the inherited defaults plus the full sphere for the centre, centre elevation within plus and minus Double.MAX_VALUE and zoom from 0 to Double.MAX_VALUE |
| ViewLimits.BasicOrbitViewLimits.SetCenterLocationLimits | WorldWindAndroid/src/gov/nasa/worldwind/view/BasicOrbitViewLimits.java:45-55 | null is an illegal argument and changes nothing; otherwise only the centre location limits change |
| ViewLimits.BasicOrbitViewLimits.SetCenterElevationLimits | WorldWindAndroid/src/gov/nasa/worldwind/view/BasicOrbitViewLimits.java:62-66 | only the centre elevation limits change |
| ViewLimits.BasicOrbitViewLimits.SetZoomLimits | WorldWindAndroid/src/gov/nasa/worldwind/view/BasicOrbitViewLimits.java:73-77 | only the zoom limits change |
| ViewLimits.LimitCenterLocation | WorldWindAndroid/src/gov/nasa/worldwind/view/BasicOrbitViewLimits.java:121-159 | null arguments are illegal; otherwise the location limited to the centre sector, inside it when the sector is ordered |
| ViewLimits.LimitCenterElevation | WorldWindAndroid/src/gov/nasa/worldwind/view/BasicOrbitViewLimits.java:161-183 | null limits are illegal; otherwise the value limited to the centre elevation limits |
| ViewLimits.LimitZoom | WorldWindAndroid/src/gov/nasa/worldwind/view/BasicOrbitViewLimits.java:187-209 | null limits are illegal; otherwise the zoom limited to the zoom limits |
| ViewLimits.LimitLookAtPosition | WorldWindAndroid/src/gov/nasa/worldwind/view/BasicOrbitViewLimits.java:100-119 | null arguments are illegal; otherwise the location limited as a centre location and the elevation as a centre elevation |
| ViewLimits.LookAtPositionLimited | WorldWindAndroid/src/gov/nasa/worldwind/view/BasicOrbitViewLimits.java:100-119 | with ordered limits the result is within them, a position within them is kept, and limiting twice changes nothing |
| Shapes.BasicShapeAttributes.constructor | WorldWindAndroid/src/gov/nasa/worldwind/render/BasicShapeAttributes.java:40-50 | the documented defaults: resolved, lighting off, interior and outline on, a white interior and a black outline, width 1 |
| Shapes.BasicShapeAttributes.FromAttributes | WorldWindAndroid/src/gov/nasa/worldwind/render/BasicShapeAttributes.java:62-77 | a copy of every value but unresolved, with colours of its own |
| Shapes.BasicShapeAttributes.Copy | WorldWindAndroid/src/gov/nasa/worldwind/render/BasicShapeAttributes.java:62-77 | a null bundle is an illegal argument; otherwise a fresh copy as above |
| Shapes.BasicShapeAttributes.Set | WorldWindAndroid/src/gov/nasa/worldwind/render/BasicShapeAttributes.java:80-95 | null is an illegal argument and changes nothing; otherwise every value but unresolved is copied in |
| Shapes.BasicShapeAttributes.SetInteriorColor | WorldWindAndroid/src/gov/nasa/worldwind/render/BasicShapeAttributes.java:140-150 | null is an illegal argument and changes nothing; otherwise the interior colour takes the given components |
| Shapes.BasicShapeAttributes.SetOutlineColor | WorldWindAndroid/src/gov/nasa/worldwind/render/BasicShapeAttributes.java:171-181 | null is an illegal argument and changes nothing; otherwise the outline colour takes the given components |
| Shapes.BasicShapeAttributes.SetOutlineWidth | WorldWindAndroid/src/gov/nasa/worldwind/render/BasicShapeAttributes.java:190-200 | a width not above 0 is an illegal argument and changes nothing; otherwise only the width changes |
| Shapes.MakeDefaultAttributes | WorldWindAndroid/src/gov/nasa/worldwind/render/AbstractShape.java:58-65 | fresh defaults with the light grey interior and dark grey outline colours |
| Shapes.WrappedVerticesExact | WorldWindAndroid/src/gov/nasa/worldwind/render/AbstractShape.java:1265-1285 | the int sum of countTriangleVertices is the exact count wrapped to an int, and equal to it when it fits |
| Shapes.ExactVerticesNonNegative | WorldWindAndroid/src/gov/nasa/worldwind/render/AbstractShape.java:1270-1280 | the exact count is never negative when every fan and strip has at least two vertices |
| Shapes.AbstractShape.constructor | WorldWindAndroid/src/gov/nasa/worldwind/render/AbstractShape.java:174 | fresh default active attributes, no attributes, not highlighted, no altitude mode, pick width 10, no sector or cached data (also lines 182, lines 316-318) |
| Shapes.AbstractShape.Reset | WorldWindAndroid/src/gov/nasa/worldwind/render/AbstractShape.java:321-324 | the cached shape data and the sector are cleared and nothing else changes |
| Shapes.AbstractShape.SetAltitudeMode | WorldWindAndroid/src/gov/nasa/worldwind/render/AbstractShape.java:416-421 | an equal mode, null included, changes nothing; a different one is stored and resets the shape |
| Shapes.AbstractShape.SetOutlinePickWidth | WorldWindAndroid/src/gov/nasa/worldwind/render/AbstractShape.java:494-502 | a width below 1 is an illegal argument and changes nothing; otherwise only the pick width changes |
| Shapes.AbstractShape.IsTerrainDependent | WorldWindAndroid/src/gov/nasa/worldwind/render/AbstractShape.java:840-842 | true exactly when the altitude mode is set and is not absolute |
| Shapes.AbstractShape.DetermineActiveAttributes | WorldWindAndroid/src/gov/nasa/worldwind/render/AbstractShape.java:722-739 | the active attributes are the highlight ones, or the normal or default ones turned white when highlighted without highlight attributes, or the normal ones, or the defaults |
| Shapes.AbstractShape.CountTriangleVertices | WorldWindAndroid/src/gov/nasa/worldwind/render/AbstractShape.java:1265-1285 | a missing primitive type is an index error; otherwise the int-wrapped count: triangles by size, fans and strips by (size - 2) * 3, other types nothing |
| KmlMultiGeometries.KMLMultiGeometry.constructor | WorldWindAndroid/src/gov/nasa/worldwind/kml/KMLMultiGeometry.java:41-49 | no geometries |
| KmlMultiGeometries.KMLMultiGeometry.AddGeometry | WorldWindAndroid/src/gov/nasa/worldwind/kml/KMLMultiGeometry.java:41-44 | appends the geometry |
| KmlMultiGeometries.KMLMultiGeometry.DoAddEventContent | WorldWindAndroid/src/gov/nasa/worldwind/kml/KMLMultiGeometry.java:33-39 | a geometry is appended; other content leaves the geometries as they are |
| KmlMultiGeometries.KMLMultiGeometry.ReplaceAndAppend | WorldWindAndroid/src/gov/nasa/worldwind/kml/KMLMultiGeometry.java:81-97 | the merge loop over a copy of the list: the reference merge |
| KmlMultiGeometries.KMLMultiGeometry.MergeGeometriesAsWritten | WorldWindAndroid/src/gov/nasa/worldwind/kml/KMLMultiGeometry.java:75-98 | as written: Collections.copy into an empty list fails for any non-empty current list, changing nothing; an empty list takes the source geometries |
| KmlMultiGeometries.KMLMultiGeometry.MergeGeometries | WorldWindAndroid/src/gov/nasa/worldwind/kml/KMLMultiGeometry.java:75-98 | as intended: the merge over a copy of the current list |
| KmlMultiGeometries.KMLMultiGeometry.ApplyChangeAsWritten | WorldWindAndroid/src/gov/nasa/worldwind/kml/KMLMultiGeometry.java:52-79 | applyChange as written: a source that is no multi-geometry is an illegal argument and changes nothing; an empty one changes nothing; otherwise mergeGeometries throws IndexOutOfBoundsException and changes nothing when this multi-geometry has geometries, and takes the source's geometries when it has none |
| KmlMultiGeometries.KMLMultiGeometry.ApplyChange | WorldWindAndroid/src/gov/nasa/worldwind/kml/KMLMultiGeometry.java:52-67 | applyChange with the corrected merge of the Findings: a source that is no multi-geometry is an illegal argument and changes nothing; an empty one changes nothing; otherwise its geometries are merged in by id |
| KmlMultiGeometries.KeepMembers | WorldWindAndroid/src/gov/nasa/worldwind/kml/KMLMultiGeometry.java:86-93 | keeping the geometries outside a set keeps exactly those |
| KmlMultiGeometries.ReplacedMembers | WorldWindAndroid/src/gov/nasa/worldwind/kml/KMLMultiGeometry.java:84-92 | a geometry is replaced exactly when it has a non-empty id that some source geometry carries |
| KmlMultiGeometries.MergedKeep | WorldWindAndroid/src/gov/nasa/worldwind/kml/KMLMultiGeometry.java:81-97 | after n source geometries: the current ones not yet replaced, in order, then the first n source ones |
| KmlMultiGeometries.MergeReplacesById | WorldWindAndroid/src/gov/nasa/worldwind/kml/KMLMultiGeometry.java:69-98 | the merge keeps the existing geometries whose id no incoming one carries, in order, then appends every incoming one |
| KmlMultiGeometries.MergeIntoEmpty | WorldWindAndroid/src/gov/nasa/worldwind/kml/KMLMultiGeometry.java:81-97 | merging into an empty list gives the source geometries |
| KmlMultiGeometries.ReplaceOne | WorldWindAndroid/src/gov/nasa/worldwind/kml/KMLMultiGeometry.java:69-98 | an incoming geometry with the id of an existing one replaces it |
| JavaLang.IndexOf | WorldWindAndroid/src/gov/nasa/worldwind/layers/RenderableLayer.java:167 | the first position of the element |
| JavaLang.RemoveFirst | WorldWindAndroid/src/gov/nasa/worldwind/layers/RenderableLayer.java:167 | Collection.remove: no change when absent; otherwise one element shorter, the first occurrence cut out |
| OglUtil.Log2 | WorldWindAndroid/src/gov/nasa/worldwind/util/OGLUtil.java:95 | the int cast of the base-2 logarithm: the floor of the logarithm for 1 and up, the least int for 0 |
| OglUtil.MaxLevel | WorldWindAndroid/src/gov/nasa/worldwind/util/OGLUtil.java:95 | the larger of the two logarithms, at most 30 for int sizes |
| OglUtil.BytesPerPixel | WorldWindAndroid/src/gov/nasa/worldwind/util/OGLUtil.java:104-124 | 1 byte for alpha and luminance, 2 for luminance-alpha, 2 or 3 for RGB by pixel type, 2 or 4 for the rest by pixel type |
| OglUtil.WrappedPixels | WorldWindAndroid/src/gov/nasa/worldwind/util/OGLUtil.java:90-101 | the running pixel count stays an int: every product and sum wraps |
| OglUtil.EstimateMemorySize | WorldWindAndroid/src/gov/nasa/worldwind/util/OGLUtil.java:74-125 | a negative width or height is an illegal argument; otherwise the bytes per pixel times the int-wrapped pixel count of the texture and its mip levels, wrapped once more |
| OglUtil.MipmapsNotSmaller | WorldWindAndroid/src/gov/nasa/worldwind/util/OGLUtil.java:93-102 | the intended exact estimate with mip-maps is never below the one without |
| OglUtil.AsWrittenIsWrappedExact | WorldWindAndroid/src/gov/nasa/worldwind/util/OGLUtil.java:90-124 | the int result is the exact size wrapped to an int, so the two agree exactly when the size fits |
| OglUtil.AsWrittenOverflows | WorldWindAndroid/src/gov/nasa/worldwind/util/OGLUtil.java:90-123 | a 23171 by 23171 RGBA texture gets a negative estimate although its size is 2147580964 bytes |

## Left out

- JavaEtc1Image.RowStart: the pixel offset `pixelSize * x + stride * (y + cy)` and the `p += pixelSize` stepping are unbounded ints here; Java int arithmetic wraps at 32 bits. This only matters for images of more than 2^31 bytes.
- JavaEtc1Image.EmitBlock: `compressedImage.put` becomes the 8 bytes the method returns, which the caller appends to the output sequence, so the BufferOverflowException of an output buffer smaller than the encoded size is not modelled.
- JavaEtc1Image.EncodeImage: the BufferOverflowException is not modelled, and neither is the closing `position(0)`. The result is the byte sequence put, with its length proved equal to `getEncodedDataSize`.
- JavaEtc1Pkm.ByteBuffer.Put: the requires keep the position inside the buffer, so the BufferOverflowException is not modelled. Every call in `formatHeader` meets the requires.
- JavaEtc1Pkm.ByteBuffer.PutAll: the requires rule out the BufferOverflowException, for the same reason.
- JavaEtc1Pkm.ByteBuffer.SetPosition: the requires rule out the IllegalArgumentException for a position outside the buffer.
- JavaEtc1.EtcCompressed: the Java `long` words high and low are 32-bit bit-vectors. This is exact because every value OR-ed into them is below 2^32.
- RsEtc1Raster.PullBlockAndMask: the member uses the corrected descent and location of the Findings (Descend and Locate), not the code as written. As written, kernel index 4 of an 8 by 8 image with mip-maps stays on the 8 by 8 level on block row 2, where the edge test fires: yEnd is 0, the mask is 0, and the block encodes to 00 00 00 02 00 00 00 00 (AsWrittenMipIndex4 and Etc1Props.ZeroMaskBlock); and a 4 by 8 level gets yEnd -4, an index below kYMask (AsWrittenHeightFromWidth). The model does not follow those paths.
- RsEtc1Raster.PullBlockAndMask: the requires AllReadable asks that every pixel the loops read lies inside pIn. With the corrected location, the edge tests `by == encodedHeight / 4` and `bx == encodedWidth / 4` never hold for a block inside its level, so xEnd and yEnd are always 4 and the mask is always 0xffff. For a level whose height is not a multiple of 4, the last block row therefore reads past the level: for an 8 by 6 image without mip-maps and 2 bytes per pixel, block 2 reads row 7, bytes 112 to 119 of a 96-byte buffer. The requires excludes that input, so what such a read yields is not modelled.
- RsEtc1Raster.PullBlockAndMask: for a level whose width is not a multiple of 4, the last block column reads its missing pixels from the start of the next row, because the stride is the level's width. The model follows the code there and does not correct it.
- RsEtc1Raster.PullBlockAndMask: the mip step `pInMP + widthMP * heightMP * 2` counts 2 bytes per pixel whatever pixelSize is, so with 4 bytes per pixel every level after the first is read from half its offset. The model keeps the code's offsets and does not correct them.
- RsEtc1Raster.Root: the kernel inherits PullBlockAndMask's requires AllReadable and its notes above; in particular it uses the corrected descent and location, so the as-written zero-mask blocks are not among its outputs.
- RsEtc1Raster.LevelOf: the level is found by the corrected descent Descend; as written (DescendAsWritten) an index can stay one block past the end of its level.
- KmlMultiGeometries.KMLMultiGeometry.ApplyChange: models applyChange with the corrected mergeGeometries of the Findings. ApplyChangeAsWritten models the code as written, which throws IndexOutOfBoundsException for every update of a multi-geometry that already has geometries.
- HexDigit: only the ASCII digits and letters a to f and A to F are hex digits. Character.digit(ch, 16), which Long.parseLong uses, also accepts the fullwidth letters U+FF21 to U+FF26 and U+FF41 to U+FF46 and every Unicode decimal digit (general category Nd). The Unicode character tables are not modelled.
- ParseLong16: Long.parseLong(s, 16) parses the same sign and digits, but through HexDigit, so it refuses text with a non-ASCII digit that Java accepts.
- ParseColorString: it inherits HexDigit's ASCII-only digits, so a colour string with a fullwidth or other Unicode digit is refused although Java parses it.
- ColorStringRejects: it states that a body with a character HexDigit refuses is rejected. For a non-ASCII digit that Java accepts, this is the model's refusal, not Java's.
- FromString: Colors.Color.FromString inherits ParseColorString's ASCII-only digits.
- FirstMatch: EqualsIgnoreCase folds only the ASCII letters A to Z. String.equalsIgnoreCase compares Character.toUpperCase and toLowerCase of every character, so it also matches, say, "É" with "é". The Unicode case tables are not modelled.
- PreferredMatch: it uses the same ASCII-only EqualsIgnoreCase.
- PreferredMatchIsEarliest: it uses the same ASCII-only EqualsIgnoreCase.
- ChooseImageFormat: it uses the same ASCII-only EqualsIgnoreCase. The formats and preferences are strings, so a null element is not modelled. In Java a null format throws NullPointerException from `toString`, and a null preference matches nothing.
- WWUnitsToKmlUnits: the argument is one of the three AVKey unit constants or some other string. AVKey is not part of this model, so an other string is not related to the constants' text.
- SceneControllers.SceneController.DrawFrame: the model, the view and the GPU resource cache that initializeDrawContext gives the draw context are not modelled. Model, View and GpuResourceCache are not part of this model. The time stamp from System.currentTimeMillis is a parameter.
- SceneControllers.SceneController.SetVerticalExaggeration: the AVKey.VERTICAL_EXAGGERATION property-change event it fires is not modelled. The constructor's exaggeration, which comes from Configuration, is a parameter.
- The pixelSize 3 branch of `encodeImage` is not modelled beyond its failure. It passes a ByteBuffer to `System.arraycopy`, which throws ArrayStoreException on its first block. The model returns `Thrown` when there is a block and the empty result when there is none.
- The ETC1 decoders (`decode_subblock`, `etc1_decode_block`, `decodeImage`) are not modelled. The encoder's bit layout is proved directly: `Etc1.ModifierTableMatchesExtension`, `Etc1Props.LookupDelta` and the differential-field lemmas.
- The RenderScript DXT helpers and `AV_RL16/32/64` are not modelled; the kernel never calls them. The DXT3 mask stub is modelled.
- The RenderScript globals (pInA, width, height, pixelSize, containMipmaps) become parameters. Kernel dispatch, Allocations and the host-side wrappers are not modelled (RsETC1, RsETC1Util, the ETC1Compressor and DDS/PKM classes, JavaETC1Util), because they are parallel dispatch and stream I/O.
- OpenGL ES calls are not modelled. This covers PickSupport's frame buffers, the drawing in AbstractShape and SceneController, and `glReadPixels` behind `getPickColor`, whose result is a parameter.
- Doubles are Dafny reals, so rounding, NaN and infinities are not modelled. This matters for the view limits, `Color`'s components and `KMLUtil.computeAltitude`.
- OglUtil.Log2: `WWMath.logBase2` is a floating-point logarithm. Here it is the exact floor of the base-2 logarithm, with negative infinity cast to an int for 0.
- BasicOrbitViewLimits.applyLimits is not modelled; it drives a BasicView. BasicView is not part of this model.
- KMLUtil's `assembleInteriorAttributes` and `assembleLineAttributes` are not modelled; they copy fields of KML styles. The KML style classes are not part of this model.
- The DataConfigurationUtils methods that read XML, WMS capabilities or the file store are not modelled. The modelled ones are getDataConfigFilename, getOGCLayerNames, chooseImageFormat, getNumEmptyLevels, getInactiveLevels and getLevelSetConfigParams(LevelSet, AVList).
- Color's named colour constants, random colours, `interpolate`, `premultiply`, `toColorInt`, `toString`, `equals` and `hashCode` are not modelled: floating point and formatting.
- RenderableLayers.RenderableLayer: property-change listener registrations are a multiset of the renderables listened to. The listener objects themselves and the events they forward are not modelled.
- Shapes.BasicShapeAttributes.Set: the requires ask that the two bundles own different Color objects, or be the same bundle. Two bundles sharing one Color object, which the Java constructors never create, are not modelled.
- Shapes.AbstractShape.DetermineActiveAttributes: the same requires, for the active attributes against the normal, highlight and default ones.
- KMLMultiGeometry.applyChange's call to `super.applyChange` is not modelled. KMLAbstractObject is not part of this model.
- `WWUtil.isEmpty` on ids is modelled as "absent or the empty string". WWUtil is not part of this model.
- PickedObject.java is not part of this model. `Picking.PickedObject` models the fields the picking code uses: colour code, user object, position, terrain flag, on-top flag and parent layer.
- MemoryCache is not part of this model. `MemoryCaches.MemoryCache` is a map from keys to entries that is only created and cleared.
- AVListImpl and AVKey are not part of this model. `DataConfigurations.AVList` is a map from the modelled keys to values, and `getStringValue` gives the text of a value.
- DataConfigurations.GetLevelSetConfigParams: for a level set without levels, getFirstLevel is taken to return null, so each read of the first level throws NullPointerException (FillWithoutLevels). LevelSet is not part of this model, and a LevelSet whose getFirstLevel throws instead is not modelled.
- LevelSet and Level are not part of this model. Only the getters that getLevelSetConfigParams and the level counts call are modelled, as datatype fields.
- KML geometry classes are not part of this model. `KmlUtil.Geometry` stands for the five kinds getPositions distinguishes, and `KmlMultiGeometries.KmlGeometry` is a geometry identity with its id.
- Globe.getElevation is not part of this model. It is a function parameter of the altitude computations.
- WWIO.replaceIllegalFileNameCharacters is not part of this model. It is a function parameter of getDataConfigFilename.

## Findings

| source | as written | input that shows it | evidently intended | confidence | as-written member | corrected member |
|---|---|---|---|---|---|---|
| WorldWindAndroid/src/nicastel/renderscripttexturecompressor/etc1/java/JavaETC1.java:704-706 | readBEUint16 ORs two signed bytes, so a byte of 0x80 or more sign-extends | formatHeader for 126 by 4 stores the padded width 128 as 0x00 0x80, which is read back as -128, so isValid rejects the header it wrote; for width 200 getWidth returns -56 | read each byte with & 0xff, giving an unsigned 16-bit value | not executed; certain from the Java semantics of byte promotion | JavaEtc1Pkm.AsWrittenRejectsWidth126 | JavaEtc1Pkm.FormattedHeaderValid |
| WorldWindAndroid/src/nicastel/renderscripttexturecompressor/etc1/rs/etc1compressor.rs:544 | encodedHeight is rounded up from widthMP instead of heightMP | a 4 by 8 image, block 1: encodedHeight is 4, so by == encodedHeight / 4 holds and yEnd = 4 - 8 = -4 indexes kYMask out of bounds | encodedHeight = (heightMP + 3) & ~3 | not executed; the line is a copy of the one above with the variable not changed | RsEtc1Raster.AsWrittenHeightFromWidth | RsEtc1Raster.LocateInside |
| WorldWindAndroid/src/nicastel/renderscripttexturecompressor/etc1/rs/etc1compressor.rs:532-541 | the mip descent continues only while bnMP > widthMP * heightMP / 16 | an 8 by 8 image with mip-maps, kernel index 4: level 0 has 4 blocks, yet the index stays at level 0 as block 4, one past its last block, instead of block 0 of the 4 by 4 level | continue while bnMP >= widthMP * heightMP / 16 | not executed; plain off-by-one in the loop test | RsEtc1Raster.AsWrittenMipIndex4 | RsEtc1Raster.Descend |
| WorldWindAndroid/src/gov/nasa/worldwind/util/OGLUtil.java:90-124 | the pixel count and the byte count are computed in int and widened to long only on return | a 23171 by 23171 RGBA texture without mip-maps: 4 * 536895241 wraps to a negative estimate; the exact size is 2147580964 bytes | compute in long, giving the exact size | not executed; int overflow in Java is silent | OglUtil.AsWrittenOverflows | OglUtil.MipmapsNotSmaller |
| WorldWindAndroid/src/gov/nasa/worldwind/kml/KMLMultiGeometry.java:78-79 | the copy of the current list is made with new ArrayList(n), which has capacity n but size 0, and Collections.copy into it | any update while the multi-geometry already has a geometry: Collections.copy throws IndexOutOfBoundsException | copy the list, new ArrayList(this.getGeometries()), and then replace geometries by id | not executed; documented behaviour of Collections.copy | KmlMultiGeometries.KMLMultiGeometry.MergeGeometriesAsWritten | KmlMultiGeometries.MergeReplacesById |

The as-written and corrected members of each finding:

- readBEUint16:
  - as written: `JavaEtc1Pkm.ReadBEUint16AsWritten`, with `JavaEtc1Pkm.AsWrittenRejectsWidth126` and `JavaEtc1Pkm.AsWrittenWidth200`. `JavaEtc1Pkm.IsValid`, `GetWidth` and `GetHeight` read the header as written.
  - corrected: `JavaEtc1Pkm.ReadBEUint16`, `JavaEtc1Pkm.GetWidthIntended` and `JavaEtc1Pkm.GetHeightIntended`, with the round trip `JavaEtc1Pkm.FormattedHeaderValid`.
- encodedHeight:
  - as written: `RsEtc1Raster.LocateAsWritten`.
  - corrected: `RsEtc1Raster.Locate`, which the kernel model uses. `RsEtc1Raster.LocateInside` proves that every block of a level is inside the padded level and gets the full mask.
- The descent:
  - as written: `RsEtc1Raster.DescendAsWritten`, with `RsEtc1Raster.AsWrittenStaysPastLevel` for every level boundary.
  - corrected: `RsEtc1Raster.Descend`, which the kernel model uses through `RsEtc1Raster.FindLevel`. Its contract gives a block inside its level.
- estimateMemorySize:
  - as written: `OglUtil.EstimateMemorySize`.
  - corrected: `OglUtil.ExactMemorySize`. `OglUtil.AsWrittenIsWrappedExact` shows that the two agree exactly when the size fits an int.
- mergeGeometries:
  - as written: `KmlMultiGeometries.KMLMultiGeometry.MergeGeometriesAsWritten`.
  - as written, through applyChange: `KmlMultiGeometries.KMLMultiGeometry.ApplyChangeAsWritten`.
  - corrected: `KmlMultiGeometries.KMLMultiGeometry.MergeGeometries`, which `ApplyChange` uses, characterised by `KmlMultiGeometries.MergeReplacesById` and `KmlMultiGeometries.ReplaceOne`.
