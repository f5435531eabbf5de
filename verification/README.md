# Verified models of LZ4, LZ4 HC, xxHash and the DTLS handshake transport

The repository carries four pieces of code whose correctness is decided by arithmetic on buffers,
tables and counters rather than by the libraries around them. This project models them in Dafny and
proves what they are for.

- **LZ4 block codec** (`Lz4Format`, `Lz4Writer`, `Lz4Greedy`, `Lz4Compressor`, `Lz4Decoder`,
  `Lz4Renorm`): the greedy hash-table compressor with a sufficient destination and no dictionary, on fresh and reused
  contexts; the safe full-block decoder with its shortcut, over-wide copies and offset tables; table
  renormalisation of long streams. A list of sequences is the meaning of a block; the byte-by-byte
  decoder is an independent reading of the format.
- **LZ4 HC optimal parser** (`Lz4HcPrices`, `Lz4HcSearch`, `Lz4HcParse`, `Lz4HcOptimal`): the price
  table as a value and as an array filled in place, the search, its in-place reversal, the parse of a
  whole block, and the three output limits. The match finder is any function that returns a valid match or none.
- **xxHash** (`XxhBytes`, `Xxh32`, `Xxh32Sensitivity`, `Xxh64`, `Xxh64Sensitivity`, `XxhAnswers`):
  one-shot and streaming hashing on machine words, known answers, and the effect of a change inside one unit of the input.
- **DTLS handshake transport** (`Words`, `DtlsReplay`, `DtlsMessages`, `DtlsReassembly`,
  `DtlsReceiver`, `DtlsReader`, `DtlsFlight`, `DtlsTransport`): the replay window and read epochs
  (section 4.1.2.6 of RFC 6347), fragmentation and reassembly (section 4.2.3), the ring of incoming
  messages, flight packing under an MTU, and the three together over a network that loses, repeats
  and reorders.

Code that changes state in place is a class or an array method here too, proved against functions on
values; what the code promises is then proved about those functions, over all inputs and all runs.

Octets are integers from 0 to 255, or 8-bit vectors in the hashes, which are computed on 32- and
64-bit vectors. The 64-bit replay map and the octets of the reassembly map are naturals whose bits are
defined by halving; shifts drop what leaves the word. Counters that wrap in the code (`total_len_32`,
`total_len`, the sum in the renormalisation test, epochs, handshake numbers) wrap here. Lengths and
positions inside one buffer are naturals.

## What the proofs show about the code

- A match offset of 0 is accepted by the decoder and gives zero bytes, because of the four zeros it
  writes first (`Lz4Format.ZeroOffsetBlock`). The reference decoder therefore defines offset 0 as zero
  fill, and the refinement holds for every accepted block.
- The decoder's shortcut lets through sequences near the end of the block or of the output that the
  general path rejects; `Lz4Format.ShortcutIsLaxer` says exactly which, and `SafeDecode` states the
  rules as the code applies them.
- The format asks for five last literals; after a match of nineteen bytes or more the decoder is content
  with four, if the output has room to spare (`Lz4Format.OneSequenceAccepted`).
- A record number is protected from replay only while fewer than 65536 epoch changes pass.
  `DtlsReplay.RecordedExactly` says for every run which records are recorded;
  `DtlsReplay.ReplayAcrossEpochs` is an instance beyond the bound.
- A handshake fragment numbered exactly seven past the current message passes the check that ignores
  distant fragments and is then refused with an internal error, so it ends the connection
  (`DtlsReceiver.WhenRefused`).
- The ring stays consistent even when the 16-bit handshake number wraps; only the numbering of
  deliveries starts again.
- The streaming XXH64 decides between its short and long form by the wrapped length, so after 2^64
  bytes or more it takes the short form whenever the length has wrapped to less than 32;
  `Xxh64.Xxh64State.Digest` says what it computes in each case. XXH32 keeps a flag instead.
- After a failure to seal in the middle of a packet the position of the flight is past records that
  were never written, and only a failed write restores it: `DtlsFlight.FlightWriter.SendFlight` says
  exactly where it is. Before the write epoch wraps this takes a failure of the cipher, or an MTU above
  the largest record (`DtlsFlight.OnlySizeRefusesHalfway`, `DtlsFlight.RefusedHalfway`).
- A change inside one word of the 32-byte stripes need not change an XXH64 value, because the merge of
  the lanes reads each lane twice: `Xxh64Sensitivity.StripeUnitMayNotShow` has two inputs,
  `Xxh64Sensitivity.StripeUnitDecidedByMerge` the exact condition. Inside the tail it always does.
- In the optimal parser every cell's price is exact, whatever the match finder answers
  (`Lz4HcPrices.PathBytes`), and the step that relaxes the one to three literals after a position
  never changes a cell (`Lz4HcPrices.LiteralsNeverPay`).

## Model

| member | source | states |
|---|---|---|
| `Lz4Format.DecodeEncode` | app/jni/lz4/lz4.c:1595-1973 | Decoding inverts encoding for every list of sequences that obeys the end-of-block rules and every capacity that holds the result: no end check of the decoder rejects such a block. |
| `Lz4Format.DecodeFrom` | app/jni/lz4/lz4.c:1775-1961 | At each sequence boundary of an encoded block the decoder stands at the end of that prefix with exactly the prefix it expands to, and goes on to the whole. |
| `Lz4Format.AnyLastToken` | app/jni/lz4/lz4.c:1842-1857 | The same for every match half of the last token, which is not read; only an output without any room insists on the single byte 0. |
| `Lz4Format.OneSequenceAccepted` | app/jni/lz4/lz4.c:1822-1961 | A block of one sequence, with fifteen literals or more, and last literals is accepted if and only if the output holds everything, the match starts twelve and ends five bytes before the end of the output, and five last literals follow; four after a match of nineteen bytes or more. |
| `Lz4Format.SafeDecodeRefinesNaive` | app/jni/lz4/lz4.c:1595-1973 | Every block the bounds-checked decoder accepts, zero offsets included, has the output of a decoder that copies one byte at a time and knows no shortcut, table or margin. |
| `Lz4Format.SafeRunRefinesNaive` | app/jni/lz4/lz4.c:1775-1961 | The same from any position inside a block and any output so far. |
| `Lz4Format.MoreCapacity` | app/jni/lz4/lz4.c:1595-1973 | A block accepted at one capacity is accepted at every larger one with the same output, although a different capacity moves the shortcut and end-of-output branches. |
| `Lz4Format.ShortcutIsLaxer` | app/jni/lz4/lz4.c:1781-1820 | The shortcut lets through a sequence that the general rules reject if and only if its offset lies within the last eight bytes of the block, or it is a short match at offset 8 or more that comes within five bytes of the end of the output; on everything else both agree. |
| `Lz4Format.LaxBlocks` | app/jni/lz4/lz4.c:1781-1820 | A block of each kind: fourteen literals and a match right at the end, at offset 8 and at offset 1. |
| `Lz4Format.ZeroOffsetBlock` | app/jni/lz4/lz4.c:1867-1873 | A block with offset 0 that is accepted, and the zero bytes it gives. |
| `Lz4Format.CopyMatchAt` | app/jni/lz4/lz4.c:1867-1961 | Each byte of a match repeats the byte one offset before it (or is zero at offset 0). |
| `Lz4Format.CopyMatchUnique` | app/jni/lz4/lz4.c:1867-1961 | Only one continuation of the output repeats at the offset, so a copy may be checked byte by byte in any grouping. |
| `Lz4Format.CopyMatchMultiple` | app/jni/lz4/lz4.c:1867-1961 | The source of a match may be moved back by any multiple of the offset inside the period. |
| `Lz4Format.ReadExtensionOfExtension` | app/jni/lz4/lz4.c:1567-1586 | A length written as a run of 255s and a remainder reads back as that length. |
| `Lz4Decoder.TablesKeepPhase` | app/jni/lz4/lz4.c:313-314 | The two tables move the source of an offset 1 to 7 to a distance of at least 8 that is a multiple of the offset, and the middle group of four likewise. |
| `Lz4Decoder.WildCopy8In` | app/jni/lz4/lz4.c:303-310 | Copying eight bytes at a time from the input: what is written, overshoot included, is input, and it ends at the next multiple of eight from the start (at most seven bytes past the end asked for, if there was anything to copy); nothing else changes. |
| `Lz4Decoder.WildCopy8` | app/jni/lz4/lz4.c:303-310 | Inside the output: extends any agreement with a target that repeats at the copy distance, overshoot included, and leaves everything after the overshoot alone. |
| `Lz4Decoder.CopyFirstEight` | app/jni/lz4/lz4.c:1934-1946 | The first eight bytes of a match at an offset below 8, and the new source position. |
| `Lz4Decoder.CopyNearEnd` | app/jni/lz4/lz4.c:1947-1959 | The end-of-output path agrees with the target up to the end of the match. |
| `Lz4Decoder.CopyMatchWide` | app/jni/lz4/lz4.c:1934-1960 | The wide copies of a whole match equal the byte-by-byte match; refused exactly when the match would enter the last five bytes. |
| `Lz4Decoder.CopyShort` | app/jni/lz4/lz4.c:1804-1816 | The 18-byte copy of the shortcut, at offset 8 or more, equals the byte-by-byte match. |
| `Lz4Decoder.ReadVariableLength` | app/jni/lz4/lz4.c:1567-1586 | Which lengths are read, and exactly when the initial and the loop check fail. |
| `Lz4Decoder.DecodeMatch` | app/jni/lz4/lz4.c:1867-1961 | From the offset check to the end of the match: outcome, positions and output are those of the step specification. |
| `Lz4Decoder.DecodeShortcut` | app/jni/lz4/lz4.c:1789-1820 | A sequence through the two-stage shortcut does what the step specification says, with its laxer margins. |
| `Lz4Decoder.DecodeGeneral` | app/jni/lz4/lz4.c:1822-1961 | The same for a sequence outside the shortcut, the last literals included. |
| `Lz4Decoder.DecompressSafe` | app/jni/lz4/lz4.c:1595-1984 | For every input and every capacity: terminates, stays inside both buffers; non-negative exactly when the specification accepts, and then the output is exactly its output; otherwise minus one minus the number of bytes read until the error was noticed. |
| `Lz4Writer.SequencesSize` | app/jni/lz4/lz4.c:928-1129 | At every sequence boundary 255 * output <= 256 * consumed input. |
| `Lz4Writer.BlockSize` | app/jni/lz4/lz4.c:928-1129 | A block of any legal parse of n bytes has between 1 and n + n/255 + 16 bytes. |
| `Lz4Writer.AppendSequence` | app/jni/lz4/lz4.c:928-1031 | A legal match at a position extends the parse of the source by one sequence, whose expansion is again the source. |
| `Lz4Writer.PutExtension` | app/jni/lz4/lz4.c:942-945 | The length-extension loop writes exactly the 255s and remainder of the format. |
| `Lz4Writer.PutLiteralPart` | app/jni/lz4/lz4.c:928-952 | Token, extension and literals are exact although literals are copied eight bytes at a time, and the overshoot stays in the buffer. |
| `Lz4Writer.PutLastLiterals` | app/jni/lz4/lz4.c:1095-1122 | The last literals are exact and without overshoot. |
| `Lz4Compressor.NbCommonBytes` | app/jni/lz4/lz4.c:454-523 | The first differing byte of two different words. |
| `Lz4Compressor.Count` | app/jni/lz4/lz4.c:526-553 | The match length is maximal up to the limit, over word, 4-, 2- and 1-byte comparisons. |
| `Lz4Compressor.PutMatch` | app/jni/lz4/lz4.c:971-1031 | Offset, token and length completed in place give the encoding of the sequence, whatever the 4-byte filler writes of the length loop left behind. |
| `Lz4Greedy.ProbesSpread` | app/jni/lz4/lz4.c:867-876 | Probes 1 to 65 are one acceleration apart, and every 64 probes the step grows by one. |
| `Lz4Greedy.LastProbeIsHeld` | app/jni/lz4/lz4.c:888-917 | A probe sees in its cell the last probed position with its hash, |
| `Lz4Greedy.OldIndexIsHeld` | app/jni/lz4/lz4.c:888-917 | and what the table held before where there was none. |
| `Lz4Greedy.SearchedMisses` | app/jni/lz4/lz4.c:866-921 | What is said of a search determines where it ends. |
| `Lz4Greedy.ForwardsIsMaximal` | app/jni/lz4/lz4.c:526-553 | The number of agreeing bytes is the longest repetition: none is longer, and one that stops at a difference is it. |
| `Lz4Greedy.RunParse` | app/jni/lz4/lz4.c:834-1093 | Whatever the hash, the table and the acceleration, a run of one byte is parsed into one literal, one match at offset 1 and five last literals. |
| `Lz4Compressor.FindMatch` | app/jni/lz4/lz4.c:866-921 | For any hash function: positions are probed at growing steps, each against the table as the earlier probes left it; none with a usable candidate (of this block, within 65535, same four bytes) is passed over, the first one is taken, and the search ends without one only when the next probe would be beyond the margin. The table afterwards is exactly the old one with the probed positions entered. |
| `Lz4Compressor.CatchUp` | app/jni/lz4/lz4.c:925-926 | Backward extension keeps the distance and goes exactly as far as bytes agree and the anchor and the start of the source allow. |
| `Lz4Compressor.TestNextPosition` | app/jni/lz4/lz4.c:1048-1088 | Right after a match: the two positions are entered, and a match is reported if and only if the table then has a usable candidate. |
| `Lz4Compressor.FinishSequence` | app/jni/lz4/lz4.c:955-1031 | From a written literal part, one round of the match loop leaves the output equal to the encoding of a legal parse up to the new position, with a match that goes as far as bytes agree. |
| `Lz4Compressor.EncodeChain` | app/jni/lz4/lz4.c:955-1093 | The same for a whole chain of matches that follow one another without literals: the sequences written, and what the search goes on with, are those of the greedy parse. |
| `Lz4Compressor.CompressSequences` | app/jni/lz4/lz4.c:834-1093 | For every source, hash, table and acceleration the main loop terminates with the encoding of a legal parse of a prefix, which is the greedy parse. |
| `Lz4Compressor.ParsedBlockDecodes` | app/jni/lz4/lz4.c:1095-1129 | A legal parse closed with last literals meets every end rule: the block decodes to the source at any sufficient capacity and obeys the size bound. |
| `Lz4Compressor.StreamContext.PrepareTable` | app/jni/lz4/lz4.c:714-757 | The table is kept exactly if the context is clean and unused, or of the same type and within the 4 KB, 64 KB and 1 GB limits, and cleared otherwise; a kept wide table moves 64 KB on; either way it is safe for the next block. |
| `Lz4Compressor.StreamContext.CompressGeneric` | app/jni/lz4/lz4.c:764-1130 | With any valid or fresh table: 0 exactly on the size limits, with nothing changed; else the block is the encoding of the greedy parse, decodes to the source, and the state is left for the next call. |
| `Lz4Compressor.StreamContext.CompressFastReset` | app/jni/lz4/lz4.c:1164-1198 | A context reused for any number of blocks keeps producing blocks that are the greedy parse with the table kept or cleared, and decode to their own source; larger inputs than the maximum give 0 and leave the context usable. |
| `Lz4Compressor.CompressFast` | app/jni/lz4/lz4.c:1133-1153 | Every input up to the maximum size, every acceleration, any hash: the greedy parse with a new table, in a block within the bound that decodes to the input; larger inputs give 0. Of n equal bytes, 13 or more, the block has at most n/255 + 11. |
| `Lz4Compressor.RoundTrip` | app/jni/lz4/lz4.c:1133-1984 | Compressing and then decompressing into any sufficient capacity gives the input back, and the naive decoder agrees. |
| `Lz4Renorm.RescalingIsInvisible` | app/jni/lz4/lz4.c:1407-1424 | A rescaled entry passes or fails the distance test at every future position as before and keeps its distance where it passes; entries set to zero were and stay too far. |
| `Lz4Renorm.DictContext.RenormDictT` | app/jni/lz4/lz4.c:1407-1424 | The same for every cell of the table, with the 32-bit sum of the source; nothing changes up to 2^31, above it every cell is rescaled and the offset and the dictionary end at 64 KB; afterwards offset plus block stays at or below 2^31, and the dictionary ends where it ended. |
| `Lz4Renorm.DictContext.NextBlock` | app/jni/lz4/lz4.c:1407-1424 | Renormalising, entering any number of positions of a block and moving on keeps the invariant, so every run of blocks does; cells that are not written keep their answers for all positions to come, the others hold the last position entered. |
| `Lz4HcPrices.PriceIsExact` | app/jni/lz4/lz4hc.c:1162-1185 | For every literal length and match length of at least 4 the price is the size of the encoded sequence. |
| `Lz4HcPrices.RunPrice` | app/jni/lz4/lz4hc.c:1338-1351 | A cell after a run of literals costs the price before the run plus that of the run, and counts the run right. |
| `Lz4HcPrices.MatchPriceIs` | app/jni/lz4/lz4hc.c:1363-1372 | So the two branches that price a match agree: what its start costs, token, offset and length, with the literals before it counted once. |
| `Lz4HcPrices.AfterMatchChanges` | app/jni/lz4/lz4hc.c:1353-1396 | What one match does to the table: every length reconsidered, nothing else touched, three literals after the last match. |
| `Lz4HcPrices.LiteralsNeverPay` | app/jni/lz4/lz4hc.c:1338-1351 | In every sound table the literal relaxation changes nothing: no price it tests is below the one recorded. |
| `Lz4HcPrices.FirstIsSound` | app/jni/lz4/lz4hc.c:1266-1276 | The first four literal cells form a sound table. |
| `Lz4HcPrices.MatchKeepsSound` | app/jni/lz4/lz4hc.c:1282-1396 | A match worked in where the search does not pass over leaves a sound table: all prices exact, no position dearer than one literal more than the one before, none much cheaper than earlier ones. |
| `Lz4HcPrices.DearIsPassed` | app/jni/lz4/lz4hc.c:1309-1319 | The places where a literal costs more than the match that ends right after it are places both skip rules pass over. |
| `Lz4HcPrices.PathBytes` | app/jni/lz4/lz4hc.c:1266-1396 | In every sound table the price at every position is exactly the number of bytes the path to it encodes to, plus the literals waiting there. |
| `Lz4HcSearch.FoundIsGood` | app/jni/lz4/lz4hc.c:1194-1211 | Shortening a found match to 18 for the decoder leaves it valid; a finder is anything that returns a valid match or none. |
| `Lz4HcSearch.InitialPrices` | app/jni/lz4/lz4hc.c:1266-1300 | From a blank table, the first literals, every length of the first match and three trailing literals: exactly the table that working the match into the first literals gives. |
| `Lz4HcSearch.RelaxLiterals` | app/jni/lz4/lz4hc.c:1338-1351 | The loop does exactly the literal relaxation of the table, cell by cell. |
| `Lz4HcSearch.RelaxMatch` | app/jni/lz4/lz4hc.c:1353-1387 | The loop records the match at exactly the lengths where it is no dearer (by one less under the decoder option) or nothing is recorded, and moves the last match exactly when its last length is recorded past it. |
| `Lz4HcSearch.AddTrailingLiterals` | app/jni/lz4/lz4hc.c:1388-1396 | Exactly three literal cells after the last match, priced from it. |
| `Lz4HcSearch.CheckFurtherPositions` | app/jni/lz4/lz4hc.c:1302-1402 | The search in place is the search on values: table, selection and number of finder calls; every cell that is read was set in this round. |
| `Lz4HcSearch.ExploreFinds` | app/jni/lz4/lz4hc.c:1302-1402 | For every finder and option the search ends in a sound table with a selected match from which the back-pointers lead to position 0 by legal steps. |
| `Lz4HcSearch.ExploreExamines` | app/jni/lz4/lz4hc.c:1302-1396 | In terms of the final prices, and of the table, the finder call and the required length with which the search arrived at a position: if it passed over it, the next position costs no more; otherwise the finder had no match there, or no position up to the last match then costs more than the path through that match. |
| `Lz4HcSearch.SelectedBytes` | app/jni/lz4/lz4hc.c:1302-1402 | The selected path, the selected match included, encodes to exactly as many bytes as its price says. |
| `Lz4HcParse.ExploreReaches` | app/jni/lz4/lz4hc.c:1302-1402 | The selection ends at or beyond the last match recorded at the start, and a match that is encoded at once beyond every recorded one. |
| `Lz4HcParse.SearchSelects` | app/jni/lz4/lz4hc.c:1265-1422 | So a round goes at least as far as its first match, and takes no more bytes than that match alone if it goes no further. |
| `Lz4HcParse.TurnTakes` | app/jni/lz4/lz4hc.c:1239-1436 | Only positions where the finder has no match are passed over without sending anything; every other turn sends at least what the match found covers. |
| `Lz4HcParse.ParseCosts` | app/jni/lz4/lz4hc.c:1239-1436 | The sequences of all turns take the sum of what the turns cost: nothing, the price of one sequence, or the price of the selected path. |
| `Lz4HcParse.RunBytes` | app/jni/lz4/lz4hc.c:1239-1436 | A match finder that sees a run from the second byte on leads to one literal and one match, or what takes no more, and the last five literals. |
| `Lz4HcOptimal.EncodingParsesBack` | app/jni/lz4/lz4hc.c:403-471 | An encoded sequence parses back to its literal length, offset and match length, and the next token stands where the price says. |
| `Lz4HcOptimal.HcEncodeSequence` | app/jni/lz4/lz4hc.c:403-471 | The 510/255-step writer appends exactly this sequence and advances the output by exactly its price; it fails exactly on the two tests of the limit, leaves the output before it intact then, and otherwise leaves at least five bytes before it. |
| `Lz4HcOptimal.RoomInBound` | app/jni/lz4/lz4hc.c:427-456 | In a destination of the bound of the source neither test ever fails. |
| `Lz4HcOptimal.ReverseTraversal` | app/jni/lz4/lz4hc.c:1404-1422 | The in-place reversal: read forwards from 0, the cells hold exactly the steps of the back-pointer path followed by the selected step; contiguous, ending at its end, each step legal where it stands. |
| `Lz4HcOptimal.EncodeChosen` | app/jni/lz4/lz4hc.c:1424-1436 | The sequences appended are exactly those of the forward list, one for each match with the literals before it, to its end; or those before the first one there is no room for. |
| `Lz4HcOptimal.OneRound` | app/jni/lz4/lz4hc.c:1265-1436 | A whole round: it sends the selected path, at exactly its price, and the position moves to its end; or it stops before the first sequence there is no room for. |
| `Lz4HcOptimal.FilledRun` | app/jni/lz4/lz4hc.c:1448-1454 | The shortened last run is not negative, fits the room, and is at least 8 when 10 bytes are left. |
| `Lz4HcOptimal.HcLastLiterals` | app/jni/lz4/lz4hc.c:1439-1473 | The closing literals in all three limit modes: 0 exactly if the closed block does not fit under limitedOutput; when filling, all of the source if it fits, else as much as leaves one byte of the buffer, or one more for every 65025. |
| `Lz4HcOptimal.ParseTurns` | app/jni/lz4/lz4hc.c:1239-1436 | The main loop writes the sequences of the parse, turn by turn, and stops early only where there is no room for the next one, never in a destination of the bound. |
| `Lz4HcOptimal.CompressOptimal` | app/jni/lz4/lz4hc.c:1216-1476 | For any sound match finder, every option and all three limits: the block is the parse, closed with last literals, at exactly the cost of its turns, and decodes to the source; when the buffer is to be filled, a front part of the parse that stops where there is no room, and the consumed prefix; 0 only under limitedOutput, when a sequence or the last literals do not fit. |
| `Xxh32.FinalizeIsTail` | app/jni/lz4/xxhash.c:291-348 | Each of the sixteen fall-through cases is "words, then bytes, then avalanche". |
| `Xxh32.OneShot` | app/jni/lz4/xxhash.c:352-389 | The one-shot loop computes the hash of the input. |
| `Xxh32.LengthAdds` | app/jni/lz4/xxhash.c:464-465 | The wrapped counter of the parts, and that the sticky flag is set exactly when the true total reached 16, also after the counter wrapped. |
| `Xxh32.Xxh32State.Reset` | app/jni/lz4/xxhash.c:437-448 | Any state becomes that of an empty input under the new seed. |
| `Xxh32.Xxh32State.Update` | app/jni/lz4/xxhash.c:451-513 | Every chunk, buffered or not, appends to what has been hashed and keeps the invariant; a null pointer changes nothing. |
| `Xxh32.Xxh32State.Digest` | app/jni/lz4/xxhash.c:526-543 | The digest is the hash of everything fed. |
| `Xxh32.HashChunks` | app/jni/lz4/xxhash.c:437-543 | For every seed and every list of chunks, reset, updates and digest give the hash of the concatenation. |
| `Xxh32Answers.Nothing` | app/jni/lz4/xxhash.c:352-389 | The published value of the empty input, |
| `Xxh32Answers.Abc` | app/jni/lz4/xxhash.c:352-389 | of three single bytes, |
| `Xxh32Answers.Phrase` | app/jni/lz4/xxhash.c:352-389 | and of 39 bytes: two stripes, a word and three bytes. |
| `Xxh32Answers.Zeros` | app/jni/lz4/xxhash.c:352-389 | The value of exactly one stripe, |
| `Xxh32Answers.SeededAbc` | app/jni/lz4/xxhash.c:352-389 | and values of the same inputs under a seed: below one stripe |
| `Xxh32Answers.SeededPhrase` | app/jni/lz4/xxhash.c:352-389 | and above. |
| `Xxh32Sensitivity.RoundInjective` | app/jni/lz4/xxhash.c:269-276 | A round is injective in the lane and in the word. |
| `Xxh32Sensitivity.Process4Injective` | app/jni/lz4/xxhash.c:297-301 | So is the 4-byte tail step. |
| `Xxh32Sensitivity.Process1Injective` | app/jni/lz4/xxhash.c:294-296 | And the 1-byte tail step. |
| `Xxh32Sensitivity.AvalancheInjective` | app/jni/lz4/xxhash.c:278-286 | The avalanche is injective. |
| `Xxh32Sensitivity.AbsorbShowsDifference` | app/jni/lz4/xxhash.c:362-376 | A change inside one aligned word of the stripes leaves exactly one lane different after any number of further stripes. |
| `Xxh32Sensitivity.TailShowsDifference` | app/jni/lz4/xxhash.c:291-348 | A change inside one unit of the tail changes the value before the avalanche. |
| `Xxh32Sensitivity.SingleUnitChangesHash` | app/jni/lz4/xxhash.c:269-389 | Equal-length inputs that differ only inside one aligned 4-byte word, or in one of the final len % 4 bytes, have different hashes under every seed. |
| `Xxh64.ProgramIsGreedy` | app/jni/lz4/xxhash.c:723-801 | Each of the 32 cases of the tail switch is "8-byte steps, then one 4-byte step, then 1-byte steps". |
| `Xxh64.FinalizeIsTail` | app/jni/lz4/xxhash.c:701-808 | So finalization is that tail and the avalanche, for every length. |
| `Xxh64.OneShot` | app/jni/lz4/xxhash.c:810-852 | The one-shot loop computes the hash of the input. |
| `Xxh64.Xxh64State.Reset` | app/jni/lz4/xxhash.c:898-909 | Any state becomes that of an empty input under the new seed. |
| `Xxh64.Xxh64State.Update` | app/jni/lz4/xxhash.c:911-969 | Every chunk appends to what has been hashed and keeps the invariant. |
| `Xxh64.Xxh64State.Digest` | app/jni/lz4/xxhash.c:981-1003 | The digest is the hash of everything fed, unless a counter of at least 32 bytes has wrapped to less than 32; then it is the short form with the third lane for the seed. |
| `Xxh64.HashChunks` | app/jni/lz4/xxhash.c:898-1003 | For every seed and every list of chunks the digest is decided by the concatenation: its hash, or the short form when the total is at least one stripe and has wrapped to less than one. |
| `Xxh64Answers.Nothing` | app/jni/lz4/xxhash.c:810-852 | The published value of the empty input |
| `Xxh64Answers.Phrase` | app/jni/lz4/xxhash.c:810-852 | and of 39 bytes: one stripe, four bytes and three single ones. |
| `Xxh64Answers.Nobody` | app/jni/lz4/xxhash.c:810-852 | The value of 15 bytes: eight, four and three single ones, |
| `Xxh64Answers.Ramped` | app/jni/lz4/xxhash.c:810-852 | and of 79 bytes under a seed: two stripes and a tail of all three kinds. |
| `Xxh64Sensitivity.Mix8Injective` | app/jni/lz4/xxhash.c:716-721 | The 8-byte tail step is injective in the state and in the word. |
| `Xxh64Sensitivity.Mix4Injective` | app/jni/lz4/xxhash.c:711-714 | So is the 4-byte step. |
| `Xxh64Sensitivity.Mix1Injective` | app/jni/lz4/xxhash.c:707-709 | And the 1-byte step. |
| `Xxh64Sensitivity.AvalancheInjective` | app/jni/lz4/xxhash.c:688-696 | The avalanche is injective. |
| `Xxh64Sensitivity.TailUnitChangesHash` | app/jni/lz4/xxhash.c:701-852 | Equal-length inputs that differ only inside what one step of the tail reads (eight bytes, four, or one) have different XXH64 values under every seed. |
| `Xxh64Sensitivity.AbsorbShowsDifference` | app/jni/lz4/xxhash.c:811-839 | A change inside one aligned 8-byte word of the stripes leaves exactly one lane different after any number of further stripes. |
| `Xxh64Sensitivity.StripeUnitDecidedByMerge` | app/jni/lz4/xxhash.c:680-686 | For such inputs the hashes are equal if and only if the lanes, which differ in one place, merge to the same value. |
| `Xxh64Sensitivity.StripeUnitMayNotShow` | app/jni/lz4/xxhash.c:680-686 | They can: two inputs of one stripe that differ inside its first word only and have the same XXH64 value under seed 0. |
| `Words.ShlBits` | app/jni/boringssl/ssl/dtls_record.cc:160 | Which bits a shift inside a word sets. |
| `Words.OrBits` | app/jni/boringssl/ssl/dtls_record.cc:167 | Which bits a bitwise or sets. |
| `Words.TestBit` | app/jni/boringssl/ssl/dtls_record.cc:148 | Masking with one bit tests that bit. |
| `DtlsReplay.ToU64Be` | app/jni/boringssl/ssl/dtls_record.cc:128-136 | The loop of shifts and ors spells the big-endian number, without overflow. |
| `DtlsReplay.BigEndianInjective` | app/jni/boringssl/ssl/dtls_record.cc:128-136 | Different octet strings are different numbers. |
| `DtlsReplay.EpochIsTop` | app/jni/boringssl/ssl/dtls_record.cc:225 | The epoch of a record is the top sixteen bits of its 64-bit number. |
| `DtlsReplay.SlideIsExact` | app/jni/boringssl/ssl/dtls_record.cc:156-164 | Sliding the window, by less or more than its width, keeps bit i set exactly when the number i below the maximum was recorded. |
| `DtlsReplay.RecordIsExact` | app/jni/boringssl/ssl/dtls_record.cc:153-169 | So does recording any number, stale ones included. |
| `DtlsReplay.DiscardIsExact` | app/jni/boringssl/ssl/dtls_record.cc:140-149 | A number is discarded if and only if it was recorded or lies 64 or more below the maximum. |
| `DtlsReplay.RecordedExactly` | app/jni/boringssl/ssl/dtls_record.cc:225-259 | In every run, however many epochs have passed, a record is discarded if and only if it does not open, its epoch is not the number of changes modulo 65536, it was recorded since the last change, or it lies 64 or more below a number recorded since; of the others, those of up to 16384 octets are recorded. |
| `DtlsReplay.AtMostOnce` | app/jni/boringssl/ssl/dtls_record.cc:225-259 | Over every run with fewer than 65536 epoch changes, no sequence number is recorded twice and the recorded epochs never go back. |
| `DtlsReplay.NoneOfEarlierEpochs` | app/jni/boringssl/ssl/dtls_record.cc:225-259 | Whatever follows a run, what is recorded after it is of epochs no earlier than the one the run had reached. |
| `DtlsReplay.ReplayAcrossEpochs` | app/jni/boringssl/ssl/dtls_method.cc:89-90 | An instance beyond that bound: of a run that records one number of epoch 0, changes the epoch n times and receives the number again, it is recorded twice if and only if n is a positive multiple of 65536. |
| `DtlsReplay.Bitmap.Discards` | app/jni/boringssl/ssl/dtls_record.cc:140-149 | The test on the object is the test on the window. |
| `DtlsReplay.Bitmap.Receive` | app/jni/boringssl/ssl/dtls_record.cc:153-169 | The in-place update is the update of the window. |
| `DtlsReplay.ReadState.OpenRecord` | app/jni/boringssl/ssl/dtls_record.cc:225-259 | Outcome and new state are those of the step of the run; a plaintext that is too long is refused before it is recorded. |
| `DtlsReplay.ReadState.SetReadState` | app/jni/boringssl/ssl/dtls_method.cc:89-90 | The next epoch starts with a cleared window. |
| `DtlsMessages.HeaderRoundTrip` | app/jni/boringssl/ssl/d1_both.cc:459-472 | A header of in-range fields reads back. |
| `DtlsMessages.FieldsAreBigEndian` | app/jni/boringssl/ssl/d1_both.cc:459-472 | Any twelve octets are read as the numbers that they spell in network order, |
| `DtlsMessages.WireForm` | app/jni/boringssl/ssl/d1_both.cc:695-706 | and every well-formed fragment is written with its fields so spelled, each in its place. |
| `DtlsMessages.EmptyMessageOctets` | app/jni/boringssl/ssl/d1_both.cc:511-537 | The empty message of type 1 with number 1, octet for octet. |
| `DtlsMessages.ParseEncode` | app/jni/boringssl/ssl/d1_both.cc:459-472 | A written fragment parses back to itself and what follows it. |
| `DtlsMessages.EncodeParse` | app/jni/boringssl/ssl/d1_both.cc:459-472 | And whatever parses is the encoding of what it parsed to. |
| `DtlsMessages.FinishMessage` | app/jni/boringssl/ssl/d1_both.cc:525-537 | Copies the three length octets in place and nothing else; refuses less than a header. |
| `DtlsMessages.FinishedOctets` | app/jni/boringssl/ssl/d1_both.cc:511-537 | That makes the message under construction its own single whole fragment. |
| `DtlsReassembly.BitRangeBits` | app/jni/boringssl/ssl/d1_both.cc:203-205 | The mask has exactly the bits from start up to end. |
| `DtlsReassembly.MarkRange` | app/jni/boringssl/ssl/d1_both.cc:226-236 | Marking sets exactly the bits of the range, for every alignment of its ends, and keeps all others. |
| `DtlsReassembly.IsComplete` | app/jni/boringssl/ssl/d1_both.cc:238-248 | The scan over whole octets and a last mask tells exactly whether every position is marked. |
| `DtlsReassembly.HmFragment.constructor` | app/jni/boringssl/ssl/d1_both.cc:152-199 | A new message has its rebuilt header, nothing received, and is complete at once if it is empty. |
| `DtlsReassembly.HmFragment.Mark` | app/jni/boringssl/ssl/d1_both.cc:211-251 | Received positions become the union with the range; the map is released exactly when the union is everything; no bit past the end is ever set. |
| `DtlsReassembly.HmFragment.Store` | app/jni/boringssl/ssl/d1_both.cc:398-401 | Copying and marking adds exactly these octets at these positions, later ones replacing earlier ones. |
| `DtlsReassembly.HmFragment.CompleteWithoutMap` | app/jni/boringssl/ssl/d1_both.cc:255-259 | Having no map is having every octet. |
| `DtlsReassembly.HmFragment.RawIsData` | app/jni/boringssl/ssl/d1_both.cc:408-424 | The buffer of a complete message is the rebuilt header followed by the body. |
| `DtlsReceiver.FragmentKeepsRing` | app/jni/boringssl/ssl/d1_both.cc:350-402 | Whatever a fragment says, slot i afterwards holds only a message whose number is i modulo 7 and inside the window. |
| `DtlsReceiver.SameMessage` | app/jni/boringssl/ssl/d1_both.cc:275-276 | A used slot where a fragment belongs holds that fragment's own message: the assertion cannot fail. |
| `DtlsReceiver.WhenRefused` | app/jni/boringssl/ssl/d1_both.cc:358-386 | Exactly these fragments end the connection, with these alerts: impossible or excessive sizes, or a type or length that contradicts a message in progress (illegal parameter), in epoch 1 any number but the current one (unexpected message), and the number just past the window (internal error). |
| `DtlsReceiver.WhenNotDecodable` | app/jni/boringssl/ssl/d1_both.cc:342-357 | A record that is accepted consists of whole fragments, and only one that does not is refused as not decodable. |
| `DtlsReceiver.RecordKeepsRing` | app/jni/boringssl/ssl/d1_both.cc:342-405 | The same for a whole record, also when it fails half-way. |
| `DtlsReceiver.NextKeepsRing` | app/jni/boringssl/ssl/d1_both.cc:426-431 | Moving to the next message keeps the ring, across the 16-bit wrap as well. |
| `DtlsReceiver.DeliveredInOrder` | app/jni/boringssl/ssl/d1_both.cc:255-438 | In every run the k-th delivered message is complete and is number k modulo 2^16, and the read number counts deliveries. |
| `DtlsReceiver.FragmentCoverage` | app/jni/boringssl/ssl/d1_both.cc:350-402 | One accepted fragment adds exactly its range to exactly its message, with its octets in place of earlier ones unless the message was complete. |
| `DtlsReceiver.RunCoverage` | app/jni/boringssl/ssl/d1_both.cc:342-438 | Over a run before the wrap, a message in the window holds exactly the positions that arrived while it was not ahead of the window; nothing ahead of the window has left a trace. |
| `DtlsReceiver.AvailableWhenCovered` | app/jni/boringssl/ssl/d1_both.cc:255-259 | The current message is available if and only if it was heard of and each of its positions arrived. |
| `DtlsReader.HandshakeReader.GetIncomingMessage` | app/jni/boringssl/ssl/d1_both.cc:265-295 | The ring of pointers finds, creates or refuses as the value specification says, and touches one slot only. |
| `DtlsReader.HandshakeReader.OpenFragment` | app/jni/boringssl/ssl/d1_both.cc:350-402 | One turn of the loop on the heap is the step on values. |
| `DtlsReader.HandshakeReader.OpenHandshake` | app/jni/boringssl/ssl/d1_both.cc:342-405 | So is the whole loop, alerts and partial progress included. |
| `DtlsReader.HandshakeReader.GetMessage` | app/jni/boringssl/ssl/d1_both.cc:408-424 | Returns the raw message exactly when the current one is complete. |
| `DtlsReader.HandshakeReader.NextMessage` | app/jni/boringssl/ssl/d1_both.cc:426-438 | Frees the slot and advances the 16-bit number. |
| `DtlsFlight.PlanFits` | app/jni/boringssl/ssl/d1_both.cc:664-698 | What is planned for a room never seals to more than the room, for any cipher within its stated overhead. |
| `DtlsFlight.RoomForProgress` | app/jni/boringssl/ssl/d1_both.cc:664-694 | No room is reported exactly when the MTU is below one octet of body plus all headers plus the cipher's overhead. |
| `DtlsFlight.PackFits` | app/jni/boringssl/ssl/d1_both.cc:730-771 | A packet never exceeds the MTU. |
| `DtlsFlight.PlanFills` | app/jni/boringssl/ssl/d1_both.cc:688-694 | A message is given no room only if one octet of it needs more, and is cut only where the room ends. |
| `DtlsFlight.PacketIsFull` | app/jni/boringssl/ssl/d1_both.cc:730-771 | A packet that is not refused ends at the end of the flight, or where what is left of the MTU is too little for one more octet of the message to be sent next. |
| `DtlsFlight.PlanAdvances` | app/jni/boringssl/ssl/d1_both.cc:680-727 | The next record is the piece of the message that starts at the offset, and the position moves by exactly that piece, or to the next message. |
| `DtlsFlight.PackEmits` | app/jni/boringssl/ssl/d1_both.cc:730-771 | A packet is a run of such records; if it is not empty the position strictly advances. |
| `DtlsFlight.NothingRefused` | app/jni/boringssl/ssl/d1_both.cc:730-771 | When the messages from the position on have their ciphers, and the MTU has room for progress and is below 65548, no packet is empty and nothing is refused. |
| `DtlsFlight.LaterCiphered` | app/jni/boringssl/ssl/d1_both.cc:586-589 | Stored epochs never go down and never pass the write epoch before it wraps, so when one message still has its cipher, all after it have. |
| `DtlsFlight.OnlySizeRefusesHalfway` | app/jni/boringssl/ssl/d1_both.cc:730-771 | With epochs in order, a packet is refused after something was sealed into it only under an MTU of 65548 or more, for a record that is too large. |
| `DtlsFlight.EmitsCompose` | app/jni/boringssl/ssl/d1_both.cc:773-818 | Streams of consecutive packets, over any number of attempts, join. |
| `DtlsFlight.EmitsMovesOn` | app/jni/boringssl/ssl/d1_both.cc:773-818 | A stream that is not empty never comes back to where it started. |
| `DtlsFlight.StreamIsFlight` | app/jni/boringssl/ssl/d1_both.cc:635-818 | A stream that reaches the end of the flight, read by appending bodies in order, gives every message once, in order, whole. |
| `DtlsFlight.RefusedHalfway` | app/jni/boringssl/ssl/d1_both.cc:730-771 | And it may be: a ChangeCipherSpec followed by a message of 128 KB or more, under an MTU above the largest record. |
| `DtlsFlight.FlightWriter.AddOutgoing` | app/jni/boringssl/ssl/d1_both.cc:555-594 | The first message after a flush starts a new flight; a full flight refuses; messages and transcript grow together under consecutive numbers. |
| `DtlsFlight.FlightWriter.SetWriteState` | app/jni/boringssl/ssl/dtls_method.cc:97-108 | The next epoch uses the new cipher; the epoch before keeps its cipher unless the 16-bit epoch has just wrapped, and older epochs are refused. |
| `DtlsFlight.FlightWriter.SealNextMessage` | app/jni/boringssl/ssl/d1_both.cc:635-728 | On the object: result, record and offset are those of the plan; errors change nothing. |
| `DtlsFlight.FlightWriter.SealNextPacket` | app/jni/boringssl/ssl/d1_both.cc:730-771 | Packet and new position are those of the packing; it succeeds exactly if nothing is refused and something fits, and then the packet is full. |
| `DtlsFlight.FlightWriter.SendFlight` | app/jni/boringssl/ssl/d1_both.cc:773-818 | Terminates; every packet fits the MTU and is full; what was written is a stream from the old position to the new one; it ends early only for a packet the transport does not take, which restores the position and is what the next attempt packs, or when sealing fails, by the cipher or an unsuitable MTU, and then the position is past the records sealed but not written, hence where the written ones end if and only if there are none. |
| `DtlsFlight.FlightWriter.FlushFlight` | app/jni/boringssl/ssl/d1_both.cc:820-825 | Closes the flight, so that the next message starts a new one, and sends what is left of it, with the same reasons to end early. |
| `DtlsFlight.FlightWriter.Retransmit` | app/jni/boringssl/ssl/d1_both.cc:827-836 | A retransmission that completes carries the whole flight; what else it can come to has the same reasons. |
| `DtlsTransport.FragmentKeepsGenuine` | app/jni/boringssl/ssl/d1_both.cc:350-402 | A fragment cut from a sent message leaves every slot equal to a part of the message sent under its number, and cannot cause a mismatch or size alert. |
| `DtlsTransport.RunIsGenuine` | app/jni/boringssl/ssl/d1_both.cc:342-438 | So it is in every run over such fragments: any order, loss, repetition, overlap and grouping into records. |
| `DtlsTransport.ReceivedAsSent` | app/jni/boringssl/ssl/d1_both.cc:350-438 | The raw messages delivered are, octet for octet, the sender's finished messages, in order and each once, so both transcripts agree as far as they go. |
| `DtlsFlight.FinishedIsWhole` | app/jni/boringssl/ssl/d1_both.cc:674-683 | A finished message passes the sender's own check of what it stored. |
| `DtlsTransport.EmittedIsGenuine` | app/jni/boringssl/ssl/d1_both.cc:635-771 | Every handshake record of a flight, for whatever packet rooms, carries a fragment cut from a sent message. |
| `DtlsTransport.StreamCovers` | app/jni/boringssl/ssl/d1_both.cc:635-818 | A complete stream has, for every position of every message, a record that carries it. |
| `DtlsTransport.OctetsSuffice` | app/jni/boringssl/ssl/d1_both.cc:350-424 | Whatever sendings the records come from, and whatever the sizes of their packets were: once some record carried each octet of the message the receiver waits for, it is complete and equals the sender's finished message. |
| `DtlsTransport.FlightArrives` | app/jni/boringssl/ssl/d1_both.cc:350-424 | In particular once every record of some complete sending has arrived, in any order among any genuine traffic. |
| `DtlsTransport.OneRecordArrives` | app/jni/boringssl/ssl/d1_both.cc:350-424 | In particular any message sent as one record and received is available, whole, as it was finished. |
| `DtlsTransport.WriterTranscript` | app/jni/boringssl/ssl/d1_both.cc:555-594 | The transcript of a valid writer is that of a list of sendable messages, as long as its numbers have not wrapped. |
| `DtlsTransport.RetransmissionArrives` | app/jni/boringssl/ssl/d1_both.cc:350-424 | End to end from the writer: once the records of a completed retransmission have arrived, in any order and among any fragments of its messages, the receiver has the message it waits for, octet for octet; and those records carry such fragments only. |
| `DtlsTransport.WholeFlightDelivered` | app/jni/boringssl/ssl/d1_both.cc:350-438 | When every record of a complete sending has arrived while the next m messages were inside the window, m steps deliver them all without an alert. |
| `DtlsTransport.PacedNeverFails` | app/jni/boringssl/ssl/d1_both.cc:342-405 | Genuine traffic outside epoch 1 that never runs as far ahead as the window is wide never ends the connection. |

## Left out

- `Lz4Compressor.StreamContext.CompressGeneric`: only a sufficient destination (`notLimited`) without a dictionary; `limitedOutput` and `fillOutput` of lz4.c rest on estimated margins, and `byPtr` tables, prefix, external and attached dictionaries multiply cases without a new idea.
- `Lz4Compressor.CompressFast`: destinations below the bound (`limitedOutput`), negative sizes, a null source and the overflow of `acceleration << 6` are not modelled; the hash is any function into the table range.
- `Lz4Compressor.StreamContext.CompressFastReset`: destinations below the bound, which the source compresses under a limit.
- `Lz4Compressor.NbCommonBytes`: the compiler intrinsics are modelled by what they compute, the first differing byte.
- `Lz4Decoder.DecompressSafe`: partial decoding, `endOnOutputSize`, dictionaries and the fast loop (off on ARM) are not modelled; accumulated lengths are naturals, so the pointer-overflow checks never fire.
- `Lz4Renorm.DictContext.RenormDictT`: the stream's fields for renormalisation and those for compression are two classes, each with the fields it uses.
- `Lz4Renorm.DictContext.NextBlock`: the dictionary handling of the streaming entry points.
- `Lz4HcOptimal.CompressOptimal`: the hash-chain match finder is any function that returns a valid match or none, and its matches start inside the block (`off <= ip`), so matches into a prefix or dictionary, which the parser accepts as well, are excluded; the parse is not claimed to be the cheapest, since the search passes over positions; a table that is blank at the start of each round stands for one that holds leftovers, which are never read; the hash-chain parser of the lower levels is left out.
- `Xxh32.OneShot`: big-endian and alignment paths, canonical forms and allocation of states are left out; a null input is modelled for updates only.
- `DtlsReplay.ReadState.OpenRecord`: the record header's version and length checks come before the modelled part; whether the AEAD opens a record, and to how many octets, is an input.
- `DtlsReader.HandshakeReader.OpenHandshake`: only handshake records; ChangeCipherSpec, alerts and application data are other branches of the same switch. Allocation does not fail.
- `DtlsFlight.FlightWriter.AddOutgoing`: takes what finishing a message produces under the next number; the source stores any data and finds out when it seals it.
- `DtlsFlight.FlightWriter.SealRecord`: a sealed record is its plaintext and its size; a cipher may fail at any time, and record sequence numbers for writing are not modelled.
- `DtlsFlight.FlightWriter.SendFlight`: whether the cipher seals, and whether a write or the final flush succeeds, are inputs; shutdown, MTU queries, timers and message callbacks are left out.
- `DtlsTransport.ReceivedAsSent`: at most 65535 messages in one direction, since the handshake number has 16 bits; the connection may still end early on a fragment just past the window or, in epoch 1, on a number other than the current one.
- Key exchange, X.509, the TLS handshake state machines, and lz4frame.c.
- JNI glue, animation, networking and call code, command-line tools and threading.
