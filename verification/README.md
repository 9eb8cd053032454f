# Verified models of five components

A Dafny model of the parts of this framework that carry the most state and arithmetic, with proofs
of what each is for. `dafny verify dfyconfig.toml` checks everything.

Code that changes state step by step is modelled by methods on arrays and classes, each proved equal
to a function of its input or old state; what the component promises is then proved about those
functions, over all inputs or over all runs.

**QR codes** (`Fields` to `ReedSolomon`, `Qr*`). Error correction works
on arrays of bytes through the published logarithm tables. The algebra is done over an abstract field:
Massey's length bound and the invariant of the Berlekamp-Massey rounds (`Recurrences`, `Massey`),
roots of locators (`Locators`), Forney's formula (`Forney`), blocks as error patterns
(`ErrorPatterns`). `Galois` shows that the 256-entry tables really compute in such a field. Together
they give the correction theorem, `ReedSolomon.CorrectBlock`, with no hypothesis left about the field.
The payload parser is inverted on the bit encoding of ISO/IEC 18004:2000, section 8.4, with its errors, and the
zigzag over the grid is shown to meet each data cell once and in the right order (`QrOrder`); `QrCells` gives the
meaning of masks and reserved cells, `QrInterleave` that of the stream of codewords. `QrCode.CodeRoundTrip` joins all
of them: what was drawn is read, in spite of damage.

**KCP** (`Kcp*`). `KcpSpec` says what every call does to a control block, in wrapping 32-bit
arithmetic; the class `KcpBlock.Kcp` does it with loops and an output buffer. `KcpInvariant` is about one
block under any calls with any arguments, across wrap-around. `KcpNetwork`, `KcpLink` and `KcpRuns` put
two blocks and a network together: a datagram that was sent may arrive never, once or many times, in
any order, and a step is any call at either end. `KcpReceive`, `KcpRetransmit`, `KcpDatagrams`, `KcpAck` and
`KcpCalls` say what each call owes in terms of their own, and `KcpProgress` what keeps a connection moving.

**netx** (`NetxShape`, `Netx`, `NetxFired`). One array of items is threaded by a ring, by hash chains and by a free
list that shares the link of the chains; the links are indexes, -1 for none. `NetxShape.Ok` says what
the three structures have to do with each other and with a map from descriptor to event.

**osal** (`OsalQueue`, `OsalMq`). The ring as a class, and the message queue as a state machine in which
any thread takes the next step: acquiring and releasing two mutexes, copying one byte, publishing an index,
signalling, waking up for a signal, spuriously or by timeout.

**nanopb** (`Pb*`, with the shared `Common`). Descriptors and messages are trees; `PbModel` specifies both directions, the classes
`OStream`, `IStream` and `FieldIter` do what the C code does. The round trip returns the message with the
storage of absent optional fields and oneof members at their defaults, since nothing is sent for those. `PbRecords`
gives the meaning of any sequence of tagged values on trees of records and shows that the decoder computes it;
`PbPieces` lets arrays come in packed and unpacked pieces, `PbWritten` says which values are written and in which
order, `PbReject` what neither direction accepts, and `PbForward` what a reader with an older descriptor does.

Where the code does not do what one would expect, the model follows the code:

- `read_data` misses the first column of an odd grid smaller than 7; no real code is that small
  (`QrGrid.EachOnceFromSeven`).
- `codestream_ecc` takes the last data byte of a long block from the place of another byte, which costs it one of the
  errors that it could correct (`QrInterleave.GatheredRight`, `QrInterleave.StreamIsRestored`).
- `decode_eci` leaves the marker bits of a designator of two or three bytes in the number it stores
  (`QrPayload.EciRoundTrip`).
- `netx_wait` compares the largest watched descriptor with its initial value 0, so a table that watches only
  descriptor 0 never reaches `select` (`Netx.ZeroAloneIsNotPolled`; `Netx.Poll.Wait` has the exact
  condition).
- A message queue made for `msg_max` messages holds `msg_max - 1`; made for one it accepts none
  (`OsalQueue.Queue.Push`, `OsalMq.NoRoomForOne`).
- `netx_wait` does not rotate its ring when it fills the caller's array (`Netx.Poll.Report`).
- `pb_decode` keeps track of 64 required fields, so it notices every missing one exactly when the descriptor has no
  more (`PbRequired.RequiredGuarantee`, with failing bytes in `PbRequired.MissingFlagAccepted`). The generator says so:
  `nanopb_generator.py` (lines 2222-2230) makes the generated code refuse to compile when a message has more required
  fields than `PB_MAX_REQUIRED_FIELDS`.

## Model

| member | source | states |
|---|---|---|
| `ReedSolomon.CorrectBlock` | frameworks/elib/quirc/quirc-1.2/lib/decode.c:294-336 | main theorem of error correction: succeeds exactly when the block it leaves is a codeword, and when a received block differs from some codeword in at most half as many bytes as there are check bytes it succeeds and leaves exactly that codeword; bytes after the block are untouched |
| `ReedSolomon.BerlekampMassey` | frameworks/elib/quirc/quirc-1.2/lib/decode.c:178-228 | does the rounds of the algorithm on bytes and tables; the result generates all the syndromes given and no shorter recurrence does, whatever the syndromes |
| `ReedSolomon.PolyAdd` | frameworks/elib/quirc/quirc-1.2/lib/decode.c:130-150 | dst becomes dst + c * x^shift * src in the field, cut off at the buffer |
| `ReedSolomon.ReplaceOlder` | frameworks/elib/quirc/quirc-1.2/lib/decode.c:213-217 | repairs the recurrence with the older one, which then becomes the recurrence as it was |
| `ReedSolomon.PolyEval` | frameworks/elib/quirc/quirc-1.2/lib/decode.c:152-172 | the value of the polynomial at x, also for x = 0 |
| `ReedSolomon.ComputeDiscrepancy` | frameworks/elib/quirc/quirc-1.2/lib/decode.c:195-206 | the inner loop accumulates the discrepancy of the current recurrence at n |
| `ReedSolomon.BlockSyndromes` | frameworks/elib/quirc/quirc-1.2/lib/decode.c:236-261 | the values of the block at the powers of the generator; none is non-zero exactly when the block is a codeword |
| `ReedSolomon.ErrorEvaluator` | frameworks/elib/quirc/quirc-1.2/lib/decode.c:263-292 | omega is the product of the locator and the shifted syndromes, cut off at the number of check bytes less one |
| `ReedSolomon.Derivative` | frameworks/elib/quirc/quirc-1.2/lib/decode.c:310-313 | the formal derivative of the locator |
| `ReedSolomon.CorrectPositions` | frameworks/elib/quirc/quirc-1.2/lib/decode.c:318-330 | every byte of the block is changed by the correction of its own position, and by nothing else |
| `ReedSolomon.FixIsError` | frameworks/elib/quirc/quirc-1.2/lib/decode.c:320-326 | near a codeword the quotient applied at a position is the error at that position, and zero where there is none |
| `ReedSolomon.CorrectedIsCode` | frameworks/elib/quirc/quirc-1.2/lib/decode.c:319-330 | near a codeword every corrected byte is the byte of the codeword |
| `ReedSolomon.CleanBlock` | frameworks/elib/quirc/quirc-1.2/lib/decode.c:304-306 | a block without syndromes is left alone, and rightly: it is the only codeword near it |
| `ReedSolomon.DirtyBlock` | frameworks/elib/quirc/quirc-1.2/lib/decode.c:308-335 | any other block ends at the nearby codeword when there is one |
| `Massey.RoundsShortest` | frameworks/elib/quirc/quirc-1.2/lib/decode.c:178-228 | over any field and any sequence, after n rounds C[0] = 1, the degree is at most L, the recurrence generates the first n symbols, and no shorter one does |
| `Massey.RoundsInvariant` | frameworks/elib/quirc/quirc-1.2/lib/decode.c:194-225 | by induction over the rounds, all of their variables keep the invariant |
| `Massey.NextInvariant` | frameworks/elib/quirc/quirc-1.2/lib/decode.c:195-224 | one round with the multiple the code adds |
| `Massey.Start` | frameworks/elib/quirc/quirc-1.2/lib/decode.c:184-192 | the initial values establish the invariant of the rounds |
| `Massey.StepZero` | frameworks/elib/quirc/quirc-1.2/lib/decode.c:210-211 | a round with discrepancy zero keeps the invariant |
| `Massey.StepNonZero` | frameworks/elib/quirc/quirc-1.2/lib/decode.c:212-224 | both kinds of repairing round keep the invariant, with the length the code computes |
| `Massey.StepGenerates` | frameworks/elib/quirc/quirc-1.2/lib/decode.c:216-222 | adding the scaled, shifted older polynomial repairs the recurrence at n and breaks nothing before it |
| `Massey.StepNoShorter` | frameworks/elib/quirc/quirc-1.2/lib/decode.c:212-224 | no recurrence shorter than the new length covers one more syndrome |
| `Recurrences.LengthBound` | frameworks/elib/quirc/quirc-1.2/lib/decode.c:212-218 | over any field: when a recurrence of length L fails at n, every one that covers n has length at least n + 1 - L |
| `Recurrences.DiscrepancyCombines` | frameworks/elib/quirc/quirc-1.2/lib/decode.c:208-222 | the discrepancy is linear in the recurrence, for the combination the code forms |
| `Locators.RootBound` | frameworks/elib/quirc/quirc-1.2/lib/decode.c:319-322 | over any field: a locator has no more roots than its degree |
| `Locators.Division` | frameworks/elib/quirc/quirc-1.2/lib/decode.c:319-322 | over any field: division of a locator by the factor of one location, with remainder its value there |
| `Locators.Independent` | frameworks/elib/quirc/quirc-1.2/lib/decode.c:236-261 | over any field: power sums over distinct locations determine the values (the Vandermonde system) |
| `Forney.ShortestIsLocator` | frameworks/elib/quirc/quirc-1.2/lib/decode.c:308-322 | given at least two syndromes for each error, the shortest recurrence has the number of errors as its length and exactly the error locations as its roots |
| `Forney.EvaluatorIsQuotients` | frameworks/elib/quirc/quirc-1.2/lib/decode.c:315-316 | the evaluator is the weighted sum of the quotients of the locator |
| `Forney.DerivativeAtRoot` | frameworks/elib/quirc/quirc-1.2/lib/decode.c:310-313 | at a root the derivative of the locator is the location times the quotient there, in characteristic two |
| `Forney.ErrorValue` | frameworks/elib/quirc/quirc-1.2/lib/decode.c:322-326 | Forney's formula: at an error location the evaluator is the error times the derivative, which is not zero there |
| `Forney.ValueQuotient` | frameworks/elib/quirc/quirc-1.2/lib/decode.c:320-326 | the quotient taken at the inverse of a location is the one the formula needs |
| `ErrorPatterns.SyndromesArePattern` | frameworks/elib/quirc/quirc-1.2/lib/decode.c:236-261 | the syndromes of a block are the power sums of its difference from any codeword, with as many terms as bytes differ |
| `ErrorPatterns.LocatorOfPattern` | frameworks/elib/quirc/quirc-1.2/lib/decode.c:308-322 | the computed locator belongs to the differences from the nearby codeword |
| `ErrorPatterns.PositionCorrect` | frameworks/elib/quirc/quirc-1.2/lib/decode.c:319-326 | at every position of the block the three polynomials tell whether there is an error, and which |
| `ErrorPatterns.NoSyndromesNoErrors` | frameworks/elib/quirc/quirc-1.2/lib/decode.c:304-306 | two codewords no further apart than the number of check bytes are equal |
| `Galois.Gf256Implements` | frameworks/elib/quirc/quirc-1.2/lib/decode.c:50-124 | the published tables compute in a field of 256 elements, with exclusive or as addition, in which 2 has order 255 |
| `Galois.Field256IsField` | frameworks/elib/quirc/quirc-1.2/lib/decode.c:50-124 | the operations the tables define obey the field laws, for all elements |
| `Galois.TimesIsXtimePow` | frameworks/elib/quirc/quirc-1.2/lib/decode.c:230-234 | multiplication through the logarithms is repeated multiplication by x modulo x^8 + x^4 + x^3 + x^2 + 1 |
| `Galois.TablePowerIs` | frameworks/elib/quirc/quirc-1.2/lib/decode.c:168-168 | the look-up with i * log x multiplies by the i-th power, beyond one period too |
| `Galois.TableTimesIs` | frameworks/elib/quirc/quirc-1.2/lib/decode.c:203-205 | the look-up of a sum of logarithms multiplies |
| `Galois.TableDivideIs` | frameworks/elib/quirc/quirc-1.2/lib/decode.c:208-208 | the look-up of a difference of logarithms divides |
| `QrCode.CodeRoundTrip` | frameworks/elib/quirc/quirc-1.2/lib/decode.c:883-933 | end to end: the cells of a code drawn by ISO/IEC 18004:2000 from numeric, alphanumeric, byte and kanji segments and designators, under any mask and with any layout of blocks, are decoded to exactly their characters, although codewords were misread: up to half the number of check bytes in a short block and one fewer in a long one |
| `QrCode.Decode` | frameworks/elib/quirc/quirc-1.2/lib/decode.c:883-933 | behind the format bits: refuses impossible grid sizes and versions, reads the cells, corrects the blocks, fails when one cannot be corrected, and parses the data |
| `QrCode.VersionMeans` | frameworks/elib/quirc/quirc-1.2/lib/decode.c:889-902 | the sizes of the versions 1 to 40, and no others, are decoded |
| `QrCode.ShownIsRead` | frameworks/elib/quirc/quirc-1.2/lib/decode.c:409-601 | read_data finds the codewords that the grid shows, before any remainder bits |
| `QrInterleave.StreamIsRestored` | frameworks/elib/quirc/quirc-1.2/lib/decode.c:571-612 | codestream_ecc restores every block of a damaged stream in which every block is legible |
| `QrInterleave.CleanIsLegible` | frameworks/elib/quirc/quirc-1.2/lib/decode.c:571-612 | an undamaged stream is legible when there are two check bytes or no long block |
| `QrInterleave.GatheredRight` | frameworks/elib/quirc/quirc-1.2/lib/decode.c:596-600 | a block is picked out as the standard lays it out exactly when it is short, or the byte misread for its last data byte is the same |
| `QrInterleave.GatheredIsTaken` | frameworks/elib/quirc/quirc-1.2/lib/decode.c:596-600 | in a long block the last data byte, and nothing else, is taken from the place of another one |
| `QrInterleave.StreamAt` | frameworks/elib/quirc/quirc-1.2/lib/decode.c:596-600 | where each byte of a block stands in the stream that interleaves data and check bytes column by column |
| `QrBlocks.CodestreamEcc` | frameworks/elib/quirc/quirc-1.2/lib/decode.c:571-612 | corrects block after block to the codeword nearby, joins their data bytes, and fails at the first block that is no codeword then |
| `QrBlocks.Gather` | frameworks/elib/quirc/quirc-1.2/lib/decode.c:596-600 | the copying loops pick out a block |
| `QrBlocks.LayoutOf` | frameworks/elib/quirc/quirc-1.2/lib/decode.c:578-587 | there are as many long blocks as the bytes of the version leave room for beside the short ones |
| `QrPayload.PayloadRoundTrip` | frameworks/elib/quirc/quirc-1.2/lib/decode.c:835-881 | decode_payload of the bits of any numeric, alphanumeric, byte and kanji segments and ECI designators that fit succeeds and yields exactly their characters in order, the largest mode and the last designator, for every version (bit encoding of section 8.4 of ISO/IEC 18004:2000, with indicators, widths and characters given on their own) |
| `QrPayload.StandardFields` | frameworks/elib/quirc/quirc-1.2/lib/decode.c:659-788 | the decoder expects the mode indicators and the count widths of the standard |
| `QrPayload.AlphaIsStandard` | frameworks/elib/quirc/quirc-1.2/lib/decode.c:695-715 | its table gives every alphanumeric value the character of the standard |
| `QrPayload.EciRoundTrip` | frameworks/elib/quirc/quirc-1.2/lib/decode.c:812-833 | a designator of one, two or three bytes is read whole; the marker of the longer forms stays in the number |
| `QrPayload.TooLongOverflows` | frameworks/elib/quirc/quirc-1.2/lib/decode.c:659-810 | a segment that leaves no room for the final NUL is an overflow |
| `QrPayload.CutShortUnderflows` | frameworks/elib/quirc/quirc-1.2/lib/decode.c:659-810 | a stream that ends anywhere inside the characters of a segment is an underflow |
| `QrPayload.SegmentRoundTrip` | frameworks/elib/quirc/quirc-1.2/lib/decode.c:659-810 | one segment: its characters are appended and the bits after it are left, whatever they are |
| `QrPayload.NumericRoundTrip` | frameworks/elib/quirc/quirc-1.2/lib/decode.c:638-693 | numeric characters come back from their groups of three, two and one |
| `QrPayload.AlphaRoundTrip` | frameworks/elib/quirc/quirc-1.2/lib/decode.c:695-748 | alphanumeric characters come back from their pairs |
| `QrPayload.BytesRoundTrip` | frameworks/elib/quirc/quirc-1.2/lib/decode.c:750-770 | bytes come back |
| `QrPayload.KanjiRoundTrip` | frameworks/elib/quirc/quirc-1.2/lib/decode.c:772-810 | Shift-JIS codes of both ranges come back from thirteen bits |
| `QrPayload.KanjiNumberRoundTrip` | frameworks/elib/quirc/quirc-1.2/lib/decode.c:791-803 | the mapping of the two Shift-JIS ranges is inverted |
| `QrPayload.Field` | frameworks/elib/quirc/quirc-1.2/lib/decode.c:619-636 | a number comes back from its field of bits |
| `QrPayload.EndStep` | frameworks/elib/quirc/quirc-1.2/lib/decode.c:838-881 | fewer than four bits, the zero terminator and any indicator that is not in use end the payload successfully |
| `QrPayload.CutDesignatorUnderflows` | frameworks/elib/quirc/quirc-1.2/lib/decode.c:812-833 | a stream that ends inside a designator is an underflow |
| `QrDecoder.Datastream.TakeBits` | frameworks/elib/quirc/quirc-1.2/lib/decode.c:619-636 | the number the next bits stand for, highest first, of those there are |
| `QrDecoder.QrData.DecodeNumeric` | frameworks/elib/quirc/quirc-1.2/lib/decode.c:659-693 | does to the payload what the specified numeric decoder does, with its overflow and underflow errors |
| `QrDecoder.QrData.DecodeAlpha` | frameworks/elib/quirc/quirc-1.2/lib/decode.c:720-748 | the same for alphanumeric segments |
| `QrDecoder.QrData.DecodeByte` | frameworks/elib/quirc/quirc-1.2/lib/decode.c:750-770 | the same for byte segments |
| `QrDecoder.QrData.DecodeKanji` | frameworks/elib/quirc/quirc-1.2/lib/decode.c:772-810 | the same for kanji segments |
| `QrDecoder.QrData.DecodeEci` | frameworks/elib/quirc/quirc-1.2/lib/decode.c:812-833 | reads a designator of one, two or three bytes |
| `QrDecoder.QrData.Tuple` | frameworks/elib/quirc/quirc-1.2/lib/decode.c:638-718 | appends the characters of one group, or fails when too few bits are left |
| `QrDecoder.QrData.PutTuple` | frameworks/elib/quirc/quirc-1.2/lib/decode.c:650-656 | the digits of a number are stored in order although they are computed last one first |
| `QrDecoder.QrData.DecodePayload` | frameworks/elib/quirc/quirc-1.2/lib/decode.c:835-881 | does to the payload what the specified segment loop does, keeps the largest mode, and ends the payload with a NUL |
| `QrDecoder.NumericStep` | frameworks/elib/quirc/quirc-1.2/lib/decode.c:674-690 | one more group of digits, as the loop reads it |
| `QrDecoder.AlphaStep` | frameworks/elib/quirc/quirc-1.2/lib/decode.c:735-745 | one more pair of characters, as the loop reads it |
| `QrGrid.DataCellsOnce` | frameworks/elib/quirc/quirc-1.2/lib/decode.c:544-569 | with any reservation that covers column 6, every unreserved cell of an odd grid of at least 7 is read exactly once and no other cell is |
| `QrGrid.WalkVisitsOnce` | frameworks/elib/quirc/quirc-1.2/lib/decode.c:544-569 | the walk itself meets every cell outside column 6 exactly once |
| `QrGrid.EachOnceFromSeven` | frameworks/elib/quirc/quirc-1.2/lib/decode.c:544-569 | among odd sizes that holds exactly from 7 on: on a smaller grid the first column is missed |
| `QrGrid.TimingColumnReserved` | frameworks/elib/quirc/quirc-1.2/lib/decode.c:489-491 | reserved_cell covers column 6 for every version and alignment table |
| `QrGrid.WalkVisits` | frameworks/elib/quirc/quirc-1.2/lib/decode.c:552-568 | from any position of the walk, exactly the cells still ahead are met, once each |
| `QrGrid.WalkFits` | frameworks/elib/quirc/quirc-1.2/lib/decode.c:544-569 | the walk stays inside the grid and is no longer than the grid has cells |
| `QrOrder.WalkInOrder` | frameworks/elib/quirc/quirc-1.2/lib/decode.c:544-569 | of two cells the walk meets first the one in the column pair further right; in the same pair the lower one going up and the upper one going down, pairs taking turns from the right; in the same row the right one |
| `QrOrder.DataBitsInOrder` | frameworks/elib/quirc/quirc-1.2/lib/decode.c:544-569 | read_data reads the bits of the data cells in that order, however the ordered list of them is found |
| `QrCells.CarriedIsRead` | frameworks/elib/quirc/quirc-1.2/lib/decode.c:409-601 | read_data gives back, in order, the bits that were put into the data cells under any of the eight masks |
| `QrCells.ReservedMeans` | frameworks/elib/quirc/quirc-1.2/lib/decode.c:471-525 | for the alignment positions of any version, reserved_cell says of every cell whether it belongs to a finder with its format information, a timing pattern, the version blocks or an alignment pattern that exists |
| `QrCells.AlignIndexMeans` | frameworks/elib/quirc/quirc-1.2/lib/decode.c:503-511 | the search finds the alignment position within two cells, or there is none |
| `QrCells.MaskMeans` | frameworks/elib/quirc/quirc-1.2/lib/decode.c:455-469 | the eight masks are the conditions of table 20 of ISO/IEC 18004:2000 |
| `QrCells.GridBitIs` | frameworks/elib/quirc/quirc-1.2/lib/decode.c:409-413 | cells are stored row by row, eight to a byte, from the lowest bit up |
| `QrGrid.SetBit` | frameworks/elib/quirc/quirc-1.2/lib/decode.c:531-541 | setting a bit of the buffer appends it to the bits before it |
| `QrGrid.Reader.ReadBit` | frameworks/elib/quirc/quirc-1.2/lib/decode.c:527-542 | appends the colour of the cell under the mask |
| `QrGrid.Reader.ReadData` | frameworks/elib/quirc/quirc-1.2/lib/decode.c:544-569 | terminates, and the buffer then holds the bits of the unreserved cells in the order of the walk |
| `KcpBlock.Kcp.constructor` | application/examples/kcp_test/kcp/ikcp.c:234-295 | a new block with the settings ikcp_create installs |
| `KcpBlock.Kcp.Configured` | application/examples/kcp_test/kcp/ikcp.c:1230-1290 | a new block with other settings |
| `KcpBlock.Kcp.PeekSize` | application/examples/kcp_test/kcp/ikcp.c:441-463 | the size of the next message, or -1 when it is not complete |
| `KcpBlock.Kcp.MoveReady` | application/examples/kcp_test/kcp/ikcp.c:413-425 | moves what is next in order to the receive queue, while there is room |
| `KcpBlock.Kcp.Recv` | application/examples/kcp_test/kcp/ikcp.c:358-435 | the code, the data and the new block of ikcp_recv, with its three errors, peeking and window update |
| `KcpBlock.Kcp.MergeFragments` | application/examples/kcp_test/kcp/ikcp.c:383-409 | joins exactly the fragments of the first message and removes them unless peeking |
| `KcpBlock.Kcp.Send` | application/examples/kcp_test/kcp/ikcp.c:469-544 | the new send queue and the return value, in message and stream mode |
| `KcpBlock.Kcp.ExtendLast` | application/examples/kcp_test/kcp/ikcp.c:478-507 | stream mode fills up the last queued segment first |
| `KcpBlock.Kcp.AppendFragments` | application/examples/kcp_test/kcp/ikcp.c:520-541 | the fragments are appended with descending numbers and use up the data |
| `KcpBlock.Kcp.UpdateAck` | application/examples/kcp_test/kcp/ikcp.c:550-565 | the smoothed round trip and the retransmission timeout |
| `KcpBlock.Kcp.ShrinkBuf` | application/examples/kcp_test/kcp/ikcp.c:567-576 | snd_una is the head of the send buffer or snd_nxt |
| `KcpBlock.Kcp.ParseAck` | application/examples/kcp_test/kcp/ikcp.c:578-598 | removes the acknowledged segment when it is in flight |
| `KcpBlock.Kcp.ParseUna` | application/examples/kcp_test/kcp/ikcp.c:600-614 | removes every segment before una |
| `KcpBlock.Kcp.ParseFastAck` | application/examples/kcp_test/kcp/ikcp.c:616-638 | counts the acknowledgement against the earlier segments |
| `KcpBlock.Kcp.ParseData` | application/examples/kcp_test/kcp/ikcp.c:690-750 | inserts a segment of the window in order, once, and moves on what it completes |
| `KcpBlock.Kcp.InputSegment` | application/examples/kcp_test/kcp/ikcp.c:795-872 | what one segment of an input does, by its command |
| `KcpBlock.Kcp.InputLoop` | application/examples/kcp_test/kcp/ikcp.c:768-876 | the segments of a datagram up to the first error |
| `KcpBlock.Kcp.GrowWindow` | application/examples/kcp_test/kcp/ikcp.c:883-903 | the congestion window after new data was acknowledged, in 32-bit arithmetic |
| `KcpBlock.Kcp.Input` | application/examples/kcp_test/kcp/ikcp.c:756-907 | the new block and the code for any bytes at all |
| `KcpBlock.Kcp.EncodeSeg` | application/examples/kcp_test/kcp/ikcp.c:913-924 | writes the 24 bytes of the header |
| `KcpBlock.Kcp.PutSegment` | application/examples/kcp_test/kcp/ikcp.c:966-972 | appends a segment to the datagram being filled, sending that first when it would exceed the mtu |
| `KcpBlock.Kcp.FlushAcks` | application/examples/kcp_test/kcp/ikcp.c:963-973 | all pending acknowledgements, in order |
| `KcpBlock.Kcp.Probe` | application/examples/kcp_test/kcp/ikcp.c:977-997 | the window probe timer |
| `KcpBlock.Kcp.FlushProbes` | application/examples/kcp_test/kcp/ikcp.c:999-1019 | the probe commands that are due |
| `KcpBlock.Kcp.FillWindow` | application/examples/kcp_test/kcp/ikcp.c:1027-1049 | numbers queued segments while the window allows |
| `KcpBlock.Kcp.Retransmit` | application/examples/kcp_test/kcp/ikcp.c:1057-1094 | whether a segment is sent now, and its new timers and counts |
| `KcpBlock.Kcp.FlushSegment` | application/examples/kcp_test/kcp/ikcp.c:1056-1115 | one turn of the sending loop, the segment and the datagram together |
| `KcpBlock.Kcp.FlushData` | application/examples/kcp_test/kcp/ikcp.c:1055-1115 | the whole sending loop |
| `KcpBlock.Kcp.AdjustWindow` | application/examples/kcp_test/kcp/ikcp.c:1123-1144 | the congestion window after fast resends and losses |
| `KcpBlock.Kcp.Flush` | application/examples/kcp_test/kcp/ikcp.c:938-1145 | the new block and the bytes of the datagrams sent, none of which is empty or longer than the mtu |
| `KcpBlock.Kcp.Update` | application/examples/kcp_test/kcp/ikcp.c:1153-1178 | the new block and the datagrams of ikcp_update |
| `KcpBlock.Kcp.Check` | application/examples/kcp_test/kcp/ikcp.c:1190-1226 | the time ikcp_check returns |
| `KcpWire.HeaderLayout` | application/examples/kcp_test/kcp/ikcp.c:913-925 | where each field of the header stands in the 24 bytes, lowest byte first |
| `KcpWire.ReadEncoded` | application/examples/kcp_test/kcp/ikcp.c:776-785 | reading a header that was written gives back its fields, cut to their widths, and the data after it |
| `KcpOutput.InputEncoded` | application/examples/kcp_test/kcp/ikcp.c:768-876 | input of any encoded segments consumes every byte and handles exactly those segments, in order |
| `KcpOutput.InputStops` | application/examples/kcp_test/kcp/ikcp.c:770-793 | bytes that are no segment stop ikcp_input with 0, -1, -2 or -3, after the segments in front of them have been handled |
| `KcpOutput.PutOk` | application/examples/kcp_test/kcp/ikcp.c:1096-1109 | a datagram never exceeds the mtu and no segment is dropped or repeated when one is sent early |
| `KcpOutput.FlushDataOk` | application/examples/kcp_test/kcp/ikcp.c:1056-1115 | the sending loop sends exactly the due segments, in order |
| `KcpOutput.FlushDataBuffer` | application/examples/kcp_test/kcp/ikcp.c:1056-1115 | the loop replaces every buffered segment by what becomes of it, independently of the others |
| `KcpInvariant.EveryRunOk` | application/examples/kcp_test/kcp/ikcp.c:469-1178 | in every state any calls with any arguments can reach, across 32-bit wrap: the send buffer increases strictly inside [snd_una, snd_nxt), snd_una is its head or snd_nxt, at most 65535 are in flight, the receive buffer increases strictly inside its window, and the counters are the queue lengths |
| `KcpInvariant.ApplyKeeps` | application/examples/kcp_test/kcp/ikcp.c:358-1178 | every single call keeps that |
| `KcpInvariant.InputKeeps` | application/examples/kcp_test/kcp/ikcp.c:756-907 | ikcp_input keeps it for any bytes |
| `KcpInvariant.RecvKeeps` | application/examples/kcp_test/kcp/ikcp.c:358-435 | ikcp_recv keeps it |
| `KcpInvariant.SendKeeps` | application/examples/kcp_test/kcp/ikcp.c:469-544 | ikcp_send keeps it and numbers nothing |
| `KcpInvariant.ParseDataKeeps` | application/examples/kcp_test/kcp/ikcp.c:690-750 | inserting a segment keeps the receive buffer in order and without repeats |
| `KcpInvariant.InsertPositionRight` | application/examples/kcp_test/kcp/ikcp.c:702-712 | the search from the back finds the place of a number, or that it is already there |
| `KcpInvariant.ParseAckKeeps` | application/examples/kcp_test/kcp/ikcp.c:578-598 | removing an acknowledged segment keeps the order |
| `KcpInvariant.FillWindowKeeps` | application/examples/kcp_test/kcp/ikcp.c:1027-1049 | filling keeps the order and never more than the window in flight |
| `KcpInvariant.FlushKeeps` | application/examples/kcp_test/kcp/ikcp.c:938-1145 | ikcp_flush keeps the invariant |
| `KcpInvariant.UpdateKeeps` | application/examples/kcp_test/kcp/ikcp.c:1153-1178 | ikcp_update keeps it |
| `KcpTypes.SignedWords` | application/examples/kcp_test/kcp/ikcp.c:136-139 | signed differences and casts are the signed 32-bit numbers that wrap to the same word |
| `KcpTypes.HalfRounds` | application/examples/kcp_test/kcp/ikcp.c:1071-1074 | half of a signed number is rounded towards zero |
| `KcpInvariant.TimeDiffIsOrder` | application/examples/kcp_test/kcp/ikcp.c:136-139 | within half the number space the signed difference is the difference of the distances |
| `KcpInvariant.QueuedDifferences` | application/examples/kcp_test/kcp/ikcp.c:136-139 | so on queued segments of a reachable block every signed comparison agrees with their order |
| `KcpInvariant.FlushSends` | application/examples/kcp_test/kcp/ikcp.c:963-1121 | the datagrams fit the mtu and hold the acknowledgements, the probes and the due data: all of them, in that order, nothing else |
| `KcpInvariant.FlushIsUnderstood` | application/examples/kcp_test/kcp/ikcp.c:766-876 | input of any datagram a flush sends handles exactly its segments, leaving no byte |
| `KcpRuns.ReliableDelivery` | application/examples/kcp_test/kcp/ikcp.c:358-435 | over every run of two endpoints and a network that drops, duplicates and reorders: what one reader was given is a prefix of what the other application sent, byte for byte, and message by message when not streaming |
| `KcpRuns.NothingLost` | application/examples/kcp_test/kcp/ikcp.c:578-614 | over every such run each numbered segment is with its sender or held by its receiver, and every acknowledgement in flight names data that is held |
| `KcpRuns.NeverStuckFull` | application/examples/kcp_test/kcp/ikcp.c:690-739 | over every such run a full receive queue holds a complete message |
| `KcpRuns.StepKeeps` | application/examples/kcp_test/kcp/ikcp.c:358-1178 | every step of an endpoint keeps both directions of the connection in order |
| `KcpLink.DeliverSender` | application/examples/kcp_test/kcp/ikcp.c:756-880 | acknowledgements of held data only remove what is held |
| `KcpLink.DeliverReceiver` | application/examples/kcp_test/kcp/ikcp.c:829-854 | data of the peer is stored under its number, and acknowledgements only for data that is held |
| `KcpLink.ParseUnaStep` | application/examples/kcp_test/kcp/ikcp.c:600-614 | una of a receiver only removes segments that the receiver has |
| `KcpLink.FlushSender` | application/examples/kcp_test/kcp/ikcp.c:1023-1115 | a flush numbers and keeps segments without losing any |
| `KcpLink.FlushOutput` | application/examples/kcp_test/kcp/ikcp.c:963-1121 | everything a flush sends is accepted data, or names data this endpoint holds |
| `KcpLink.FullQueueReadable` | application/examples/kcp_test/kcp/ikcp.c:441-463 | a full queue can be read with exactly the size that peeking gives |
| `KcpLink.RecvHistory` | application/examples/kcp_test/kcp/ikcp.c:383-409 | a successful read gives the next message of the history |
| `KcpNetwork.FragmentsOk` | application/examples/kcp_test/kcp/ikcp.c:520-541 | the fragments of a message count down to zero and joined are the message |
| `KcpNetwork.SendHistory` | application/examples/kcp_test/kcp/ikcp.c:469-544 | ikcp_send extends what was accepted by exactly the bytes it reports, as one more message when not streaming |
| `KcpNetwork.MessagesAppend` | application/examples/kcp_test/kcp/ikcp.c:394-409 | messages never straddle the end of a run of whole messages |
| `KcpTiming.CheckIsQuiet` | application/examples/kcp_test/kcp/ikcp.c:1190-1226 | every ikcp_update strictly before the time ikcp_check returns changes nothing but the clock and sends nothing |
| `KcpTiming.CheckIsSoon` | application/examples/kcp_test/kcp/ikcp.c:1190-1226 | that time is no later than the interval, the next flush and every retransmission deadline |
| `KcpTiming.GrowOk` | application/examples/kcp_test/kcp/ikcp.c:882-904 | one input raises the window by at most one in slow start and at most two in congestion avoidance, never beyond the remote window, and keeps the byte credit within one segment of it |
| `KcpTiming.AdjustOk` | application/examples/kcp_test/kcp/ikcp.c:1123-1144 | a flush keeps the window and its credit in step and the threshold at its minimum |
| `KcpReceive.PushStores` | application/examples/kcp_test/kcp/ikcp.c:829-854 | a data segment inside the window is acknowledged and put where its number belongs unless it is there; what is next in order then moves to the receive queue while it has room; below the window it is only acknowledged, above it is dropped |
| `KcpReceive.StoredIsHeld` | application/examples/kcp_test/kcp/ikcp.c:690-749 | its number is then in the buffer or behind rcv_nxt |
| `KcpReceive.EveryRunDrained` | application/examples/kcp_test/kcp/ikcp.c:690-749 | in every run no segment in the receive buffer is the next in order unless the receive queue is full |
| `KcpReceive.RecvDrains` | application/examples/kcp_test/kcp/ikcp.c:411-423 | ikcp_recv moves on what can follow |
| `KcpRetransmit.FlushSendsDue` | application/examples/kcp_test/kcp/ikcp.c:1057-1115 | of the buffered segments a flush sends exactly those never sent, past their deadline or skipped often enough, each once more with the next deadline; the others are unchanged and in no datagram |
| `KcpRetransmit.FlushLosses` | application/examples/kcp_test/kcp/ikcp.c:1057-1146 | a missed deadline takes cwnd to one segment and ssthresh to half the window; early resends alone set them from what is in flight; otherwise both stay; missed deadlines are counted and the link is dead after deadLink transmissions |
| `KcpRetransmit.FlushFills` | application/examples/kcp_test/kcp/ikcp.c:1023-1049 | a flush numbers exactly as many queued segments as the window has room for, in order, with their data |
| `KcpRetransmit.FlushAcknowledges` | application/examples/kcp_test/kcp/ikcp.c:960-1019 | a flush sends one acknowledgement for every pending one and no other, a window request when the probe timer is due and a window answer when one was asked for, and has nothing left to say |
| `KcpDatagrams.FlushOrder` | application/examples/kcp_test/kcp/ikcp.c:962-1113 | a flush sends the acknowledgements in the order in which they were earned, then what it asks and tells about windows, then data in the order of its numbers, each segment at most once |
| `KcpDatagrams.FlushPacks` | application/examples/kcp_test/kcp/ikcp.c:965-1105 | it starts a new datagram only when the next segment has no room in the last one |
| `KcpDatagrams.ProbesBackOff` | application/examples/kcp_test/kcp/ikcp.c:977-997 | while the remote window is zero, the time between questions about it starts at seven seconds and grows by half up to two minutes |
| `KcpRetransmit.FlagsMean` | application/examples/kcp_test/kcp/ikcp.c:1057-1115 | what the sending loop reports is what it met: timeouts, early resends, their number, and worn out segments |
| `KcpAck.UnaRemoves` | application/examples/kcp_test/kcp/ikcp.c:600-614 | a cumulative acknowledgement takes exactly the segments it covers off the front of the send buffer |
| `KcpAck.AckRemoves` | application/examples/kcp_test/kcp/ikcp.c:578-598 | an acknowledgement of a buffered segment removes that segment alone, any other removes nothing |
| `KcpAck.FastAckCounts` | application/examples/kcp_test/kcp/ikcp.c:616-640 | the acknowledgement is counted once against exactly the earlier segments sent no later |
| `KcpAck.LatestIsNewest` | application/examples/kcp_test/kcp/ikcp.c:805-821 | the acknowledgement that a datagram counts is one of its own, and none of them is newer in both number and time |
| `KcpAck.NothingCoveredStays` | application/examples/kcp_test/kcp/ikcp.c:795-804 | after any segment no buffered one is covered by what the peer says it has |
| `KcpAck.SegmentEffects` | application/examples/kcp_test/kcp/ikcp.c:795-873 | every segment brings the peer's window; only a window request asks for an answer, only data reaches the receiver, only acknowledgements give round-trip samples |
| `KcpAck.InputMeans` | application/examples/kcp_test/kcp/ikcp.c:756-907 | ikcp_input of a datagram handles its segments, counts the newest acknowledgement, and lets the window grow once exactly when snd_una has moved |
| `KcpAck.SampleSmooths` | application/examples/kcp_test/kcp/ikcp.c:550-565 | a sample moves the smoothed round trip by an eighth and the deviation by a quarter, and the timeout is their sum within its bounds |
| `KcpAck.SlowStartGrows` | application/examples/kcp_test/kcp/ikcp.c:885-887 | in slow start window and credit grow by one segment |
| `KcpAck.AvoidanceGrows` | application/examples/kcp_test/kcp/ikcp.c:888-898 | after that the credit grows by mss * mss / incr and mss / 16, and the window follows when it pays for one more segment |
| `KcpCalls.SendTakes` | application/examples/kcp_test/kcp/ikcp.c:469-544 | ikcp_send takes everything unless what is left after filling up the last segment is more than 127 segments; then only the filling, or nothing |
| `KcpCalls.FragmentsFull` | application/examples/kcp_test/kcp/ikcp.c:519-541 | only the last fragment of a message is short |
| `KcpCalls.RecvReturns` | application/examples/kcp_test/kcp/ikcp.c:358-438 | ikcp_recv returns -1, -2 and -3 for an empty queue, an incomplete message and a short buffer, and otherwise the size and the data of the first message |
| `KcpCalls.RecvDoes` | application/examples/kcp_test/kcp/ikcp.c:358-438 | a successful one takes the message off unless it peeks, moves on what can follow and asks to tell the window when the queue stops being full; any other call changes nothing |
| `KcpCalls.UpdateFlushes` | application/examples/kcp_test/kcp/ikcp.c:1153-1188 | ikcp_update flushes at the first call, when the flush time has come and when the clock jumped back, and the next flush is at most an interval ahead; otherwise it only moves the clock |
| `KcpCalls.CheckIsExact` | application/examples/kcp_test/kcp/ikcp.c:1190-1226 | ikcp_check says now exactly when a flush or a retransmission is due, and otherwise a time that is not early |
| `KcpProgress.NextIsWithSender` | application/examples/kcp_test/kcp/ikcp.c:690-749 | in every run, while a receive queue has room, the next segment in order is not held by the receiver and is in the send buffer of its peer once numbered |
| `KcpProgress.RetransmissionHelps` | application/examples/kcp_test/kcp/ikcp.c:1057-1115 | in every reachable state, when that segment was never sent or has missed its deadline, the sender's flush puts it in a datagram whose arrival moves rcv_nxt beyond it |
| `KcpCongestion.EveryRunCredit` | application/examples/kcp_test/kcp/ikcp.c:882-904 | for a configuration whose mss * mss and (largest window + 3) * mss stay below 2^32: over every run the credit stays strictly within one segment of the window and ssthresh stays at least 2 |
| `KcpCongestion.InputCredit` | application/examples/kcp_test/kcp/ikcp.c:882-904 | with such a configuration one ikcp_input raises the window by at most one or two |
| `KcpCongestion.FlushCredit` | application/examples/kcp_test/kcp/ikcp.c:1123-1144 | and one flush keeps the bounds |
| `KcpCongestion.AdjustWraps` | application/examples/kcp_test/kcp/ikcp.c:1051-1133 | also when fast resend is off and a skip count reaches 0xffffffff: the window then wraps to one less than the threshold, and the credit follows it |
| `KcpTimers.EveryRunTimers` | application/examples/kcp_test/kcp/ikcp.c:550-1178 | over every run with any settings the retransmission timeout is the initial one or between the configured minimum and RTO_MAX, and the probe wait is 0 or between 7 and 120 seconds |
| `KcpTimers.UpdateAckBounds` | application/examples/kcp_test/kcp/ikcp.c:550-565 | every round-trip sample brings the timeout within its bounds |
| `KcpTimers.SmoothingFits` | application/examples/kcp_test/kcp/ikcp.c:553-564 | a sample below 2^28 milliseconds keeps averages below that, and no intermediate value of its smoothing leaves 32 signed bits |
| `KcpTimers.EveryRunSmooth` | application/examples/kcp_test/kcp/ikcp.c:550-803 | over every run whose round-trip samples are below 2^28 milliseconds the averages are below 2^28 in every state, and no smoothing step of any handled acknowledgement leaves 32 signed bits |
| `KcpTimers.ProbeBounds` | application/examples/kcp_test/kcp/ikcp.c:977-997 | the probe timer keeps its bounds |
| `Netx.Poll.constructor` | frameworks/mlib/netx/netx.c:154-166 | every item free, every chain empty, and the limit cut to FD_SETSIZE |
| `Netx.Create` | frameworks/mlib/netx/netx.c:112-122 | refuses a poll for no descriptors, and only that |
| `Netx.Poll.Ctl` | frameworks/mlib/netx/netx.c:219-336 | refines a finite map: the new map and the return code of add, mod and del, including every error, for any arguments |
| `Netx.CtlAll` | frameworks/mlib/netx/netx.c:219-336 | so does any sequence of calls |
| `Netx.Poll.Find` | frameworks/mlib/netx/netx.c:238-243 | finds the item of a descriptor exactly when it is registered, and the link that leads there |
| `Netx.Poll.Walk` | frameworks/mlib/netx/netx.c:239-243 | follows a chain to the first item of the descriptor or to its end |
| `Netx.Poll.Mod` | frameworks/mlib/netx/netx.c:248-258 | replaces the event of one entry |
| `Netx.Poll.Del` | frameworks/mlib/netx/netx.c:259-286 | removes one entry from the map |
| `Netx.Poll.Unlink` | frameworks/mlib/netx/netx.c:270-284 | the links after taking an item out of the ring and its chain and onto the free list |
| `Netx.Poll.Add` | frameworks/mlib/netx/netx.c:287-325 | adds one entry to the map |
| `Netx.Poll.Link` | frameworks/mlib/netx/netx.c:301-321 | the links after taking a free item to the end of its chain and of the ring |
| `Netx.Partition` | frameworks/mlib/netx/netx.c:238-325 | ring and free list partition the items, the chain of each used item is the one of its descriptor, and counts is the size of the map |
| `Netx.Registered` | frameworks/mlib/netx/netx.c:238-243 | a descriptor is in the map exactly when its chain holds a used item for it |
| `Netx.ControlAllKeeps` | frameworks/mlib/netx/netx.c:287-300 | over any calls at most max_counts descriptors are registered, and a descriptor no call names keeps its entry |
| `Netx.ControlReturns` | frameworks/mlib/netx/netx.c:218-334 | netx_ctl returns 0 for an addition of a new descriptor to a table with room and for a change or a deletion of a registered one, and a code of its own for each way to fail |
| `Netx.ControlDoes` | frameworks/mlib/netx/netx.c:218-334 | when it returns 0 the entry is there with its event, or gone, and every other entry is as before; otherwise nothing changes |
| `Netx.DeleteUndoesAdd` | frameworks/mlib/netx/netx.c:218-334 | a descriptor that is added and deleted leaves no trace |
| `NetxShape.AddOk` | frameworks/mlib/netx/netx.c:301-324 | adding keeps all three structures, and the map gains the entry |
| `NetxShape.DelOk` | frameworks/mlib/netx/netx.c:267-284 | deleting keeps all three structures, and the map loses the entry |
| `NetxShape.RotateOk` | frameworks/mlib/netx/netx.c:480-481 | rotating the ring keeps everything |
| `Netx.Poll.Interest` | frameworks/mlib/netx/netx.c:376-406 | the walk gathers exactly the registered interest of each kind, and its largest descriptor |
| `Netx.GatheredIsWatched` | frameworks/mlib/netx/netx.c:376-406 | a walk over the ring sees exactly the entries of the map |
| `Netx.Poll.Collect` | frameworks/mlib/netx/netx.c:439-478 | the fired events in ring order, until the array of the caller is full |
| `Netx.Poll.Report` | frameworks/mlib/netx/netx.c:439-484 | and the ring moves on by one exactly when the array was not filled |
| `Netx.Poll.Wait` | frameworks/mlib/netx/netx.c:338-490 | the whole call: its codes, the events reported, the table unchanged; select is asked exactly when some watched descriptor is not 0 |
| `Netx.ZeroAloneIsNotPolled` | frameworks/mlib/netx/netx.c:410-414 | for every table: something is watched and select is still not asked exactly when 0 is the only watched descriptor |
| `Netx.ZeroAlone` | frameworks/mlib/netx/netx.c:410-414 | and such tables exist: descriptor 0 alone with any interest |
| `NetxFired.FiredIsWatchedAndReady` | frameworks/mlib/netx/netx.c:439-484 | whatever select answers: one event for each registered descriptor that is ready for something it is watched for and for no other, in ring order, each with its own data and exactly the bits of those kinds |
| `NetxFired.CutIs` | frameworks/mlib/netx/netx.c:465-469 | as many of them as the array of the caller holds, from the front on |
| `NetxFired.EveryTurn` | frameworks/mlib/netx/netx.c:480-481 | as the ring moves on every registered descriptor comes first in its turn |
| `OsalQueue.Queue.constructor` | frameworks/mlib/osal/src/osal_lock_free_queue.c:7-26 | an empty queue |
| `OsalQueue.Queue.Push` | frameworks/mlib/osal/src/osal_lock_free_queue.c:58-83 | appends a message, or fails exactly when all slots but one are in use |
| `OsalQueue.Queue.Pop` | frameworks/mlib/osal/src/osal_lock_free_queue.c:85-110 | removes the oldest message, or fails exactly when there is none |
| `OsalQueue.Queue.IsFull` | frameworks/mlib/osal/src/osal_lock_free_queue.c:28-41 | full means that all slots but one are in use |
| `OsalQueue.Queue.IsEmpty` | frameworks/mlib/osal/src/osal_lock_free_queue.c:43-56 | empty means that no message is queued |
| `OsalQueue.FullMeans` | frameworks/mlib/osal/src/osal_lock_free_queue.c:35-38 | the test on byte indexes says how many messages are queued |
| `OsalQueue.EmptyMeans` | frameworks/mlib/osal/src/osal_lock_free_queue.c:50-53 | and so does the other one |
| `OsalQueue.SlotNext` | frameworks/mlib/osal/src/osal_lock_free_queue.c:80-80 | advancing an index by a message leads to the next slot, round the end |
| `OsalQueue.SlotFits` | frameworks/mlib/osal/src/osal_lock_free_queue.c:70-78 | a slot never crosses the end of the buffer |
| `OsalQueue.SlotsApart` | frameworks/mlib/osal/src/osal_lock_free_queue.c:58-110 | messages less than a lap apart never share a byte |
| `OsalMq.FirstInFirstOut` | frameworks/mlib/osal/src/osal_posix.c:657-770 | under every interleaving of any number of senders and receivers, byte by byte: the messages received are a prefix of those sent, whole and in order, and both indexes stay multiples of the message size |
| `OsalMq.NoLostWakeup` | frameworks/mlib/osal/src/osal_posix.c:668-704 | in every reachable state in which a receiver is blocked, the queued messages are at most the senders that still owe a signal plus the signalled receivers that have not retried |
| `OsalMq.SlotBeingReadIsStable` | frameworks/mlib/osal/src/osal_lock_free_queue.c:97-107 | no step of another thread writes a byte of the slot a receiver is copying |
| `OsalMq.NoSplit` | frameworks/mlib/osal/src/osal_lock_free_queue.c:70-78 | the split copy is never taken |
| `OsalMq.NoRoomForOne` | frameworks/mlib/osal/src/osal_lock_free_queue.c:35-38 | a queue made for one message never accepts any |
| `OsalMq.StepKept` | frameworks/mlib/osal/src/osal_posix.c:657-770 | every step of every thread keeps mutual exclusion, the contents of the ring, the copies in progress and the wake-up accounting |
| `OsalMq.OwnersKept` | frameworks/mlib/osal/src/osal_posix.c:668-704 | each mutex is held by exactly the thread inside it |
| `OsalMq.WokenSend` | frameworks/mlib/osal/src/osal_posix.c:674-704 | a step of a sender keeps the wake-up accounting |
| `OsalMq.WokenRecv` | frameworks/mlib/osal/src/osal_posix.c:721-769 | a step of a receiver, with spurious wake-ups and timeouts, keeps it |
| `OsalMq.SignalSomebody` | frameworks/mlib/osal/src/osal_posix.c:693-693 | a signal hands the debt of the sender over to the receiver it wakes |
| `OsalMq.SignalNobody` | frameworks/mlib/osal/src/osal_posix.c:693-693 | a signal that finds nobody blocked loses nothing |
| `OsalMq.WriteKept` | frameworks/mlib/osal/src/osal_lock_free_queue.c:70-78 | a byte copied in disturbs no queued message |
| `OsalMq.PushKept` | frameworks/mlib/osal/src/osal_lock_free_queue.c:80-80 | publishing the write index adds the copied message to the queue |
| `OsalMq.PopKept` | frameworks/mlib/osal/src/osal_lock_free_queue.c:107-107 | publishing the read index removes the message that was copied out |
| `OsalMq.SenderDecides` | frameworks/mlib/osal/src/osal_lock_free_queue.c:28-41 | a sender goes on to copy exactly when fewer than max - 1 messages are queued |
| `OsalMq.CallStarts` | frameworks/mlib/osal/src/osal_posix.c:657-715 | a thread that is in no call can start either |
| `OsalMq.WakesWithoutSignal` | frameworks/mlib/osal/src/osal_posix.c:728-738 | without a signal a receiver wakes up only spuriously or at its timeout |
| `OsalMq.CountIs` | frameworks/mlib/osal/src/osal_posix.c:668-704 | the numbers in the wake-up accounting are numbers of threads |
| `OsalMq.ReceiverDecides` | frameworks/mlib/osal/src/osal_lock_free_queue.c:43-56 | a receiver goes on to copy exactly when a message is queued |
| `OsalMq.EmptyLeavesOrWaits` | frameworks/mlib/osal/src/osal_posix.c:722-738 | and otherwise leaves at once when its timeout is zero, and waits when it is not |
| `OsalMq.CopyInMoves` | frameworks/mlib/osal/src/osal_lock_free_queue.c:58-83 | a sender in its copy moves on byte by byte and ends by queueing its message |
| `OsalMq.CopyOutMoves` | frameworks/mlib/osal/src/osal_lock_free_queue.c:85-110 | a receiver in its copy moves on byte by byte and ends by taking the oldest message |
| `OsalMq.NoDeadlock` | frameworks/mlib/osal/src/osal_posix.c:657-770 | in every reachable state, if some thread is in the middle of a call and not blocked, some thread can take a step |
| `PbVarint.VarintRoundTrip` | frameworks/elib/nanopb/pb_decode.c:242-262 | pb_decode_varint inverts the base-128 form of every 64-bit value and leaves what follows |
| `PbVarint.SvarintRoundTrip` | frameworks/elib/nanopb/pb_decode.c:1355-1367 | zig-zag and pb_decode_svarint invert each other on all signed 64-bit values |
| `PbVarint.Varint32RoundTrip` | frameworks/elib/nanopb/pb_decode.c:170-239 | pb_decode_varint32 inverts it on all 32-bit values |
| `PbVarint.Varint32Agrees` | frameworks/elib/nanopb/pb_decode.c:170-262 | whatever the 32-bit decoder accepts, the 64-bit decoder accepts with the same value modulo 2^32 |
| `PbWide.WideVarint32` | frameworks/elib/nanopb/pb_decode.c:170-233 | the 32-bit decoder reads a number of 32 bits from up to ten bytes, padded with zeros or sign-extended to 64 bits |
| `PbWide.NegativeVarint32` | frameworks/elib/nanopb/pb_decode.c:196-205 | so it reads what pb_encode writes for a negative number of 32 bits |
| `PbWide.WideIsRefused` | frameworks/elib/nanopb/pb_decode.c:194-224 | of the numbers below 2^63 it refuses exactly those beyond 32 bits, but for those below 2^35 whose bits above the lowest 31 are all ones |
| `PbVarint.ReadVarintBounds` | frameworks/elib/nanopb/pb_decode.c:242-262 | at most ten bytes are read, and the value fits 64 bits |
| `PbVarint.Base128Minimal` | frameworks/elib/nanopb/pb_encode.c:572-604 | the base-128 form is minimal: no bytes that decode to the same value are fewer |
| `PbVarint.LittleEndianRoundTrip` | frameworks/elib/nanopb/pb_encode.c:636-671 | fixed-width numbers come back |
| `PbEncode.OStream.Write` | frameworks/elib/nanopb/pb_encode.c:83-104 | appends or counts the bytes, and fails exactly when they do not fit |
| `PbEncode.SplitBase128` | frameworks/elib/nanopb/pb_encode.c:572-604 | the two loops over 32-bit halves produce the base-128 form of the 64-bit value |
| `PbEncode.EncodeVarint` | frameworks/elib/nanopb/pb_encode.c:606-622 | writes that form |
| `PbEncode.EncodeNum` | frameworks/elib/nanopb/pb_encode.c:775-853 | the number fields |
| `PbEncode.EncodeBlob` | frameworks/elib/nanopb/pb_encode.c:855-951 | the bytes, string and fixed-length fields, with their length errors |
| `PbEncode.EncodeString` | frameworks/elib/nanopb/pb_encode.c:715-721 | a length and the bytes |
| `PbEncode.PackedSize` | frameworks/elib/nanopb/pb_encode.c:150-171 | the counting pass over a packed array finds the size of its bytes |
| `PbEncode.EncodePacked` | frameworks/elib/nanopb/pb_encode.c:144-195 | a packed array, for counting and writing streams alike |
| `PbEncode.EncodeUnpacked` | frameworks/elib/nanopb/pb_encode.c:196-236 | an unpacked array |
| `PbEncode.EncodeArray` | frameworks/elib/nanopb/pb_encode.c:127-239 | an array, with its length error |
| `PbEncode.EncodeSubmessage` | frameworks/elib/nanopb/pb_encode.c:723-771 | two passes: the second always writes what the first counted, so the size never changes between them |
| `PbEncode.EncodeField` | frameworks/elib/nanopb/pb_encode.c:417-468 | nothing for an absent or default field, the value otherwise |
| `PbEncode.Encode` | frameworks/elib/nanopb/pb_encode.c:511-533 | succeeds exactly when the message can be encoded and its bytes fit the stream, and then leaves exactly those bytes, counted or written |
| `PbEncode.GetEncodedSize` | frameworks/elib/nanopb/pb_encode.c:556-565 | exactly the number of bytes encoding writes |
| `PbIter.FieldIter.Find` | frameworks/elib/nanopb/pb_common.c:195-244 | from any position finds the field of a tag exactly when there is one |
| `PbIter.FieldIter.Advance` | frameworks/elib/nanopb/pb_common.c:122-154 | the next field, and from the last one back to the first with all counts reset |
| `PbIter.FieldIter.Next` | frameworks/elib/nanopb/pb_common.c:188-193 | whether there was another field |
| `PbDecode.IStream.Read` | frameworks/elib/nanopb/pb_decode.c:81-120 | takes the next bytes, or fails and takes none |
| `PbDecode.DecodeVarint` | frameworks/elib/nanopb/pb_decode.c:242-262 | the loop reads what the specified decoder reads |
| `PbDecode.DecodeVarint32` | frameworks/elib/nanopb/pb_decode.c:170-239 | so does the 32-bit loop, with its overflow checks |
| `PbDecode.Step32` | frameworks/elib/nanopb/pb_decode.c:199-229 | one turn of it |
| `PbDecode.SkipField` | frameworks/elib/nanopb/pb_decode.c:307-317 | skips one value of wire type 0, 1, 2 or 5 and rejects any other |
| `PbDecode.MakeSubstream` | frameworks/elib/nanopb/pb_decode.c:361-374 | a stream over exactly the next length-delimited piece |
| `PbDecode.CloseSubstream` | frameworks/elib/nanopb/pb_decode.c:376-389 | the parent goes on after the piece |
| `PbDecode.DecodeNum` | frameworks/elib/nanopb/pb_decode.c:1419-1494 | number fields, with their range errors |
| `PbDecode.DecodeBlob` | frameworks/elib/nanopb/pb_decode.c:1496-1659 | bytes, strings and fixed-length bytes, with their length errors |
| `PbDecode.DecodeSubmessage` | frameworks/elib/nanopb/pb_decode.c:1586-1636 | a submessage merged into what is there |
| `PbDecode.DecodePacked` | frameworks/elib/nanopb/pb_decode.c:482-507 | the packed loop, with its overflow error |
| `PbDecode.DecodeArray` | frameworks/elib/nanopb/pb_decode.c:478-519 | an array element or a packed array |
| `PbDecode.DecodeField` | frameworks/elib/nanopb/pb_decode.c:466-554 | a field by its rule, with a oneof taking over the storage of its group |
| `PbDecode.RequiredSeen` | frameworks/elib/nanopb/pb_decode.c:1120-1148 | whether every tracked required field was seen |
| `PbDecode.DecodeInner` | frameworks/elib/nanopb/pb_decode.c:989-1151 | does what the specified decoder does, on success up to the end of the stream |
| `PbDecode.DecodeMessage` | frameworks/elib/nanopb/pb_decode.c:1181-1193 | pb_decode of a whole buffer |
| `PbRoundTrip.MessageRoundTrip` | frameworks/elib/nanopb/pb_decode.c:989-1151 | for every static descriptor with ascending tags and every well-typed message, nested to any depth: when pb_encode succeeds, pb_decode of its bytes succeeds, consumes all of them and rebuilds the message |
| `PbRoundTrip.FieldStep` | frameworks/elib/nanopb/pb_decode.c:1015-1111 | decoding the bytes of one field restores that field, whatever its rule and type |
| `PbRoundTrip.SingularStep` | frameworks/elib/nanopb/pb_decode.c:470-476 | required and optional fields |
| `PbRoundTrip.ChoiceStep` | frameworks/elib/nanopb/pb_decode.c:521-549 | members of a oneof |
| `PbRoundTrip.PackedStep` | frameworks/elib/nanopb/pb_decode.c:479-508 | packed arrays |
| `PbRoundTrip.UnpackedStep` | frameworks/elib/nanopb/pb_decode.c:509-519 | unpacked arrays, of a fixed count or not, whether or not their type could be packed |
| `PbRoundTrip.AllDefaultIsDefault` | frameworks/elib/nanopb/pb_encode.c:243-357 | what pb_encode leaves out as a proto3 default is what pb_decode starts from, nested messages included |
| `PbRoundTrip.NumRoundTrip` | frameworks/elib/nanopb/pb_decode.c:1424-1494 | number fields of every width |
| `PbRoundTrip.SignedRoundTrip` | frameworks/elib/nanopb/pb_decode.c:1449-1494 | a negative number of fewer than 64 bits survives being sent as 64 |
| `PbRoundTrip.ElemRoundTrip` | frameworks/elib/nanopb/pb_decode.c:395-464 | one value of any type, submessages included |
| `PbCompose.DecodeConcatenation` | frameworks/elib/nanopb/pb_decode.c:1015-1111 | without required and fixed-count fields, decoding b1 and b2 in a row is decoding b1 and then b2 into the result without initialising it |
| `PbCompose.LoopAppend` | frameworks/elib/nanopb/pb_decode.c:1015-1111 | for any descriptor, the loop over two pieces is the loop over one and then the other |
| `PbCompose.UnknownIsSkipped` | frameworks/elib/nanopb/pb_decode.c:1072-1075 | an unknown field of wire type 0, 1, 2 or 5 at a field boundary changes nothing |
| `PbCompose.RecordLocal` | frameworks/elib/nanopb/pb_decode.c:1015-1111 | a tagged value is read the same whatever follows it, and what follows is left |
| `PbForward.NewFieldIsIgnored` | frameworks/elib/nanopb/pb_decode.c:307-320 | whatever a newer encoder writes for a field that the reader does not have changes nothing, wherever it stands |
| `PbForward.RecordIsUnknown` | frameworks/elib/nanopb/pb_decode.c:307-320 | an encoded field is a well-formed unknown one to a descriptor without its tag |
| `PbForward.ElemSkips` | frameworks/elib/nanopb/pb_decode.c:307-320 | the wire type of any value tells where it ends |
| `PbForward.Examples` | frameworks/elib/nanopb/pb_encode.c:572-640 | the encoding gives the bytes that its documentation shows for varints, zig-zag, words and tags |
| `PbWritten.MessageWritten` | frameworks/elib/nanopb/pb_encode.c:417-533 | pb_encode writes exactly these tagged values: arrays that are not empty, packed if they can be, the fields and oneof members that are there, required fields always, and proto3 fields that are not silent; submessages likewise |
| `PbWritten.WrittenInOrder` | frameworks/elib/nanopb/pb_encode.c:511-533 | fields are written in the ascending order of their tags |
| `PbWritten.MessageIsDefault` | frameworks/elib/nanopb/pb_encode.c:243-357 | a message counts as a proto3 default exactly when nothing of it is written |
| `PbReject.EncodesExactly` | frameworks/elib/nanopb/pb_encode.c:127-533 | pb_encode can encode a message exactly when everything it sends of it fits its field: lengths of bytes and strings and numbers of elements, in submessages too |
| `PbReject.BadRecordFails` | frameworks/elib/nanopb/pb_decode.c:1015-1111 | one tagged value that cannot be read makes the whole input invalid |
| `PbReject.CutRecordFails` | frameworks/elib/nanopb/pb_decode.c:81-120 | input that ends inside a tagged value is refused, wherever it ends |
| `PbReject.WrongWireTypeFails` | frameworks/elib/nanopb/pb_decode.c:395-464 | a value whose wire type is not that of its field is refused, unless it is a packed array |
| `PbReject.BadTagFails` | frameworks/elib/nanopb/pb_decode.c:1028-1075 | so are field number zero and unknown fields of a wire type that nothing has |
| `PbDefault.DefaultSendsNothing` | frameworks/elib/nanopb/pb_decode.c:868-987 | a message into which nothing has been decoded has nothing to send: no optional field is there, no array has elements and no member of a oneof is chosen |
| `PbPieces.CutRoundTrip` | frameworks/elib/nanopb/pb_decode.c:476-519 | however the arrays of a message, of a fixed count or not, are cut into packed and unpacked pieces, decoding rebuilds the message |
| `PbPieces.UnpackedIsPacked` | frameworks/elib/nanopb/pb_decode.c:476-519 | a message that can be encoded decodes to the same whichever of its arrays are sent unpacked |
| `PbPieces.EncodedIsPacked` | frameworks/elib/nanopb/pb_encode.c:133-234 | pb_encode packs whatever can be packed |
| `PbRecords.DecodeRecords` | frameworks/elib/nanopb/pb_decode.c:989-1151 | pb_decode of any tagged values, in any order, repeated, nested, packed or not, with numbers the field cannot hold, arrays that are too long and required fields that do not come: it succeeds exactly when they mean something, and the result is their meaning, given without bytes |
| `PbRecords.UnpackedDecodesSame` | frameworks/elib/nanopb/pb_decode.c:476-519 | the same values decode to the same whether arrays arrive packed or one by one, in submessages too |
| `PbRecords.NumMeans` | frameworks/elib/nanopb/pb_decode.c:1419-1494 | a number that the wire can say is stored as it is, cut to 32 bits when a smaller signed field asks for it, or refused |
| `PbRecords.PackedLoop` | frameworks/elib/nanopb/pb_decode.c:479-508 | a packed piece appends its numbers while there is room |
| `PbRecords.OnesArePacked` | frameworks/elib/nanopb/pb_decode.c:476-519 | numbers one by one do what they do in one packed piece |
| `PbRequired.RequiredGuarantee` | frameworks/elib/nanopb/pb_decode.c:1102-1148 | for every descriptor that accepts any input: no accepted input lacks a required field exactly when there are at most 64 of them |
| `PbRequired.RequiredGuaranteeSized` | frameworks/elib/nanopb/pb_decode.c:1102-1148 | so it is for every descriptor whose size bound is below 2^32 |
| `PbRequired.DecodeChecks` | frameworks/elib/nanopb/pb_decode.c:1113-1148 | decoding succeeds exactly when the loop does, the last fixed-count array is complete, and each of the first 64 required fields was decoded |
| `PbRequired.SeenIsDecoded` | frameworks/elib/nanopb/pb_decode.c:1102-1107 | the set of seen fields holds exactly those of the first 64 required fields that the loop has decoded |
| `PbRequired.MissingAccepted` | frameworks/elib/nanopb/pb_decode.c:1102-1148 | any accepted input is accepted without its values of a required field beyond the 64th |
| `PbRequired.MissingFlagAccepted` | frameworks/elib/nanopb/pb_decode.c:1102-1148 | with more than 64 required booleans, bytes that hold the first 64 alone are accepted |
| `PbSize.MessageFits` | frameworks/elib/nanopb/generator/nanopb_generator.py:1574-1585 | the bound of the generator holds for every message with declared enumeration values, although it assumes unpacked arrays and the encoder packs them |
| `PbSize.ArrayFits` | frameworks/elib/nanopb/generator/nanopb_generator.py:1046-1055 | arrays fit their bound, packed or not |
| `PbSize.PrefixPays` | frameworks/elib/nanopb/generator/nanopb_generator.py:1046-1055 | the length prefix of a packed array costs no more than the tags it saves, but for arrays of one element |
| `PbSize.SlotFits` | frameworks/elib/nanopb/generator/nanopb_generator.py:985-1057 | whatever the value of a field, its bytes fit its bound |
| `PbSize.FieldsFit` | frameworks/elib/nanopb/generator/nanopb_generator.py:1225-1240 | a oneof counted once covers whichever member is present |
| `PbSize.NumFits` | frameworks/elib/nanopb/generator/nanopb_generator.py:1030-1042 | numbers fit the size of their type, enumerations the largest declared value |
| `PbSize.SignedEnumFits` | frameworks/elib/nanopb/generator/nanopb_generator.py:253-260 | a negative enumeration value counts as ten bytes, and takes them |
| `PbSize.TenBytes` | frameworks/elib/nanopb/pb_encode.c:572-604 | no 64-bit value takes more than ten bytes |
| `PbTight.MessageReaches` | frameworks/elib/nanopb/generator/nanopb_generator.py:1574-1585 | for messages of singular fields, oneofs, unpacked arrays and packed arrays of one element the bound is the best one: some message needs every byte of it |

## Left out

QR codes:

- Format bits (`correct_format`, the 16-element field) and perspective: a domain of 15 bits, and image processing.
- The version table: block sizes, alignment positions and data lengths are parameters.
- QrBlocks.CodestreamEcc: corrects each block in an array of its own and copies it to its place, where C passes a pointer into the output.
- QrCode.Decode: has arrays of its own for raw bits and payload, which C keeps in one buffer one after the other.
- QrCode.CodeRoundTrip: takes one misread byte of a long block as the decoder's own; whether a block can still be corrected with half its check bytes damaged depends on that byte (QrInterleave.GatheredRight).
- QrGrid.Reader.ReadData: asks for odd sizes from 7 on, which is what every version has.
- ReedSolomon.CorrectBlock: says nothing of a block further from every codeword than half the check bytes, except that success means a codeword.

KCP:

- KcpRuns.ReliableDelivery: is about connections with fewer than 2^31 fragments each way, because sequence numbers are reused after that; KcpInvariant.EveryRunOk has no such bound.
- KcpCongestion.EveryRunCredit: asks that the products of mss with itself and with the largest window fit 32 bits, conditions on the configuration alone.
- `ikcp_setmtu`, `ikcp_nodelay`, `ikcp_wndsize` after creation: the settings are given to the constructor and stay.
- KcpBlock.Kcp.UpdateAck: the smoothed round trip is computed in unbounded integers; KcpTimers.EveryRunSmooth says when 32 signed bits hold it, beyond that C leaves the overflow undefined.
- KcpCalls.UpdateFlushes: asks for an interval from 1 to below 2^31; `ikcp_nodelay` and `ikcp_interval` keep it from 10 to 5000.
- KcpRetransmit.FlushSendsDue: says what the wait after a timeout is while it is below 2^30 milliseconds; later ones wrap at 32 bits.
- KcpAck.AvoidanceGrows: asks that the credit fits 32 bits, which KcpCongestion.EveryRunCredit derives from the configuration.
- KcpTimers.EveryRunSmooth: asks for an interval of at most 0x70000000; `ikcp_nodelay` and `ikcp_interval` cut it to 5000.
- KcpBlock.Kcp.Send: takes the data itself, so a null buffer and a negative length do not occur.
- Queues are sequences: the list cells, their allocation and its failure, and the growth of the acknowledgement array are not modelled.
- Liveness: that a fair network delivers everything in the end.
- Logging and the user pointer.

netx:

- Handles, locks, logging, `netx_destroy` and the growing table of polls: one poll is an object.
- Netx.Poll.constructor: makes the poll itself; entering it in the table of handles is left out.
- Netx.Create: has neither the registration of a handle nor the codes for allocation failure.
- Netx.Poll.Ctl: has no code for an invalid handle, as the poll is an object.
- Netx.Poll.Wait: has no code for an invalid handle either; `select` is an oracle for the code and the ready sets, and the table does not change while it runs.
- `netx_wait` when `select` fails with EBADF on two platforms.
- Fairness of `netx_wait`: it does not rotate the ring on the early return.
- Sockets and addresses.
- The item array and the hash table are two arrays, and pointers into them are indexes, so aliasing with other memory is not modelled.

osal:

- Errors of the pthread calls, allocation failure, destruction with `exit_flag`, and the clock: a timed wait may expire at any time.
- Weak memory: steps are interleaved, one byte or one index at a time.
- OsalQueue.Queue.constructor: the product of message size and count is not cut to 32 bits.
- Receiving with another size than the queue's: the size argument is ignored by the source.

nanopb:

- Callbacks, extensions, pointer fields with `malloc`, UTF-8 validation, conversion between float and double: optional configurations.
- Delimited and null-terminated messages: a length or a zero around the same loop.
- PbIter.FieldIter.Find: the packed words of a descriptor and their index are not modelled, its fields are.
- PbIter.FieldIter.Advance: likewise.
- PbDecode.IStream.Read: streams over a callback are left out, those over a buffer are modelled.
- PbEncode.OStream.Write: likewise, and sizes do not overflow.
- Default values are given by the descriptor; decoding them from their encoded form is left out. Elements of a fixed array and members of a oneof that were not decoded count as zero.
- PbEncode.Encode: sizes are unbounded, so the overflow check of `pb_write` never fires.
- PbRoundTrip.MessageRoundTrip: asks that every length prefix, of a submessage or a packed array, fits 32 bits, which is what the decoder reads; the whole message may be longer.
- PbCompose.DecodeConcatenation: leaves out descriptors with required or fixed-count fields, whose presence and count checks run once at the end of every decode.
- PbRecords.DecodeRecords: leaves out descriptors with fixed-count arrays, which PbPieces.CutRoundTrip has.
- PbTight.MessageReaches: leaves out longer packed arrays and proto3 singular fields, where the bound is not always reached.
- PbSize.MessageFits: sizes that the generator only knows as symbols, and enumerations it cannot find, have no number to compare with.
