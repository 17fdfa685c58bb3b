# A verified model of the Vortex reader

This project models three parts of a Go reader for Vortex columnar files and proves
properties of them in Dafny. Verify with `dafny verify dfyconfig.toml`.

**The Pco stream decoder** (`internal/pco/decode.go`). A page is a bit stream: a header with
initial values and four coder states per latent variable, then rounds of 256 values, each a
run of tANS-coded bins followed by the bins' offset bits, then one of three delta inversions
and one of five modes. The model follows the reader bit by bit (`PcoReader`), parses chunk metadata
with its float64 overflow check (`PcoChunks`, `Float64`), builds the tANS table (`AnsTable`,
`PcoLatents`), decodes batches (`PcoBatches`), undoes the deltas (`PcoDelta`), joins latents
into words (`PcoModes`, `PcoPage`) and decodes whole columns (`PcoStream`). What these compute
is also said without them: where every field of the metadata is (`PcoFields`), which bin every
slot of the table belongs to (`AnsTable.SpreadBySteps`), and what every delta predicts
(`PcoPredictions`). The repository has no encoder, so the project has a ghost one
(`PcoPageRoundTrip`, `PcoChunkRoundTrip`): what it writes decodes to what was written, and
`PcoExpressible` says exactly which words have a page.

**The recursive array decoder** (`internal/encoding`). A tree of encodings is decoded into
vectors of values and validity. Its hard kernels have modules of their own: the FastLanes
permutations (`FastLanes`), transposed delta (`LaneDelta`), bit-packing (`BitPacking`,
`BitPackRoundTrip`), where the rows of a chunk are stored, digit by digit (`ChunkLayouts`),
dictionary and run-end (`RowCopies`), patches (`Overrides`), run-length, frame of reference,
zigzag and ALPRD (`NumberColumns`), sequences (`Sequences`), FSST and OnPair (`Tokens`), null
expansion of Zstd and Pco columns (`NullExpansion`), and the protobuf reader for their metadata
(`Proto`). `Readings` says, one function per encoding and without
budgets or buffers to fill, which rows a tree of encodings stands for, if any. `Decoding` is
the recursive decoder itself, method by method, on top of `Arrays`, `Decoders` and `Constants`.
Its main theorem is exactness: the result is well typed at every nested field and is the
reading of the tree, and decoding fails only when there is no reading, or when the byte budget
or the depth limit refuses something (`Decoder.refused`), which cannot happen while the bytes
and levels that `Budgets` computes for the tree are left; `Memory` shows that the budget pays
for exactly the bytes that are allocated. For every modelled encoding there is a theorem that a node
reads as the rows it was written for, over any encoding of its children: numbers
(`StoredNodes`, `NodeRoundTrips`), scalars, constants and flags (`ScalarNodes`), dictionaries,
runs, structs and masks (`RowNodes`), exceptions and ALPRD (`PatchedNodes`), strings
(`StringNodes`), tokens (`TokenNodes`), Zstd and Pco (`PagedNodes`). `NodeShapes` says what
every accepted node looks like, `Slices` that a slice of a node reads as a slice of its rows,
and `WordRanges` that decoded words fit into their types.

**The scan** (`scan.go`, `prune.go`). A layout tree is compiled into row pieces and zone maps
(`Plans`, `PlanBuilder`), zone maps are evaluated lazily (`Zones`), cursors cache decoded
pieces (`Cursors`), and `Next` steps through the rows (`Scan`). `Runs` proves what a whole run
guarantees: batches in order and without overlap, every row emitted unless a zone map excludes
it, no matching row ever excluded as long as the file's zone maps tell the truth (`ZoneTruth`,
in terms of the names in the metadata), an error only where a column cannot be decoded, and
equality with the recursive reader `decodeLayout`, column by column. `ScanOptions` opens a scan
by column names.

Words are natural numbers below a power of two, with wrap-around and masks written out
(`Words`), and bit strings are sequences of booleans, least significant first (`BitStrings`).
Objects that the Go code updates in place are classes (`Reader`, `Decoder`, `ColumnPlan`,
`ZoneRef`, `ColumnCursor`, `RecordReader`), loops over buffers are loops over arrays, and each
is proved against a specification function or predicate about which the theorems are stated.
Error returns are options or results; error texts are not modelled. Other libraries enter as
functions: flat-array decoding and zone schemas (a zone length, a type and the names of the
statistics) as fields of `Layouts.File`; UTF-8 validation, the ALP multiplications, Zstd headers
and decompression, and Arrow type support as fields of `Readings.Libraries`; and the products of
the Pco mode FloatMult as `PcoChunks.Floats`.

## Model

| member | source | states |
|---|---|---|
| PcoReader.Reader.Read | internal/pco/decode.go:82-99 | takes exactly the next `n` bits of the data, least significant first, across byte boundaries; fails, without moving, past the end or after an earlier failure |
| PcoReader.Reader.Gather | internal/pco/decode.go:90-98 | the byte-by-byte loop collects the number that the `n` bits spell and advances by `n` |
| PcoReader.Reader.PartOfByte | internal/pco/decode.go:92-94 | shift and byte mask yield exactly the wanted bits of one byte |
| PcoReader.Reader.Align | internal/pco/decode.go:100-104 | moves to the next byte boundary and fails on nonzero padding |
| PcoReader.Reader.Finish | internal/pco/decode.go:105-114 | succeeds only if nothing failed, the padding is zero and all bytes are consumed |
| PcoReader.TakeWritten | internal/pco/decode.go:82-99 | bits written for a number are read back as that number, at any position |
| PcoReader.AlignWritten | internal/pco/decode.go:100-104 | written zero padding is accepted and ends at a byte boundary |
| PcoFields.AlignTaken | internal/pco/decode.go:100-104 | alignment skips fewer than eight bits, all of them zero, to the next byte |
| PcoFields.ModeFields | internal/pco/decode.go:150-170 | where the mode is: four bits of mode, then a base of the width of a value, eight bits of quantization, or 25 bits of dictionary size, zero padding and the entries |
| PcoFields.OldDeltaFields | internal/pco/decode.go:185-187 | before version 3 the delta is three bits of order |
| PcoFields.DeltaFields | internal/pco/decode.go:188-220 | where the delta is from version 3 on: four bits of kind, then order, exponents of window and order, or quantization, bias, number of weights and weights less 2^31, and the bit for the secondary latent, each at its position and of its width |
| PcoFields.LatentFields | internal/pco/decode.go:282-300 | four bits of the logarithm of the table size, 15 bits of the number of bins, and bins of equal size, each a weight less one, a lower bound and an offset width |
| PcoFields.ChunkOrder | internal/pco/decode.go:148-280 | the metadata of a chunk are mode, delta, the latent of the lookbacks if there are any, the primary and the secondary latent in this order, and nothing more |
| PcoFields.HeaderFields | internal/pco/decode.go:346-361 | a variable's part of a page header: its initial values, and then four lane states of as many bits as the logarithm of its table size |
| PcoFields.OffsetFields | internal/pco/decode.go:448-450 | the values of a batch are the lower bounds of their bins plus offsets that follow one another after the bits of all states |
| AnsTable.SlotsDistinct | internal/pco/decode.go:312-321 | the odd stride visits different slots at different steps, so stepping is a permutation of the table |
| AnsTable.PlaceCounts | internal/pco/decode.go:316-322 | after any number of steps each bin owns the slots of its steps and the other slots are unassigned |
| AnsTable.SpreadOwnership | internal/pco/decode.go:311-322 | every slot is assigned to one bin and each bin owns exactly `weight` slots |
| AnsTable.StrideIs | internal/pco/decode.go:312-312 | the stride is the odd number whose fivefold is nearest to three table sizes |
| AnsTable.PlacedStays | internal/pco/decode.go:316-322 | a slot keeps the bin of the step that filled it |
| AnsTable.SpreadBySteps | internal/pco/decode.go:311-322 | the finished table, slot by slot: for the odd t with 3 * size - 5 < 5t <= 3 * size + 5, slot step * t modulo the size belongs to the bin whose range of cumulative weights contains the step |
| AnsTable.SlotsInOrder | internal/pco/decode.go:323-333 | of two neighbouring slots of one bin, the later covers the multiple after that of the earlier |
| AnsTable.FirstSlot | internal/pco/decode.go:323-333 | the first slot of a bin covers the multiple of the bin's weight |
| AnsTable.LocateFinds | internal/pco/decode.go:328-332 | bit-length arithmetic: every shifted state lies in the interval of some multiplier between weight and twice the weight |
| AnsTable.LocateUnique | internal/pco/decode.go:328-332 | and in the interval of no other |
| AnsTable.SlotCovers | internal/pco/decode.go:328-332 | a slot's interval [next, next + 2^read) contains exactly the states that locate its turn |
| AnsTable.StatePartition | internal/pco/decode.go:323-333 | for every bin the intervals of its slots partition [0, 2^log): each state lies in the interval of exactly one slot |
| AnsTable.TableClosed | internal/pco/decode.go:438-447 | whatever bits follow, the next state is inside the table, so the out-of-bounds branch is dead |
| PcoLatents.ParseAccepts | internal/pco/decode.go:282-310 | on any input, accepted metadata has a table size up to 2^14, weights summing to it, bounds and offsets within the width |
| PcoLatents.ParseWritten | internal/pco/decode.go:282-310 | every acceptable bin list is read back from its written form |
| PcoLatents.ReadBins | internal/pco/decode.go:291-300 | the bin loop parses the bins of the specification, or stops at an invalid offset width |
| PcoLatents.SpreadBins | internal/pco/decode.go:311-322 | the in-place spreading loop produces the assignment whose ownership is proved |
| PcoLatents.BuildTable | internal/pco/decode.go:323-333 | the counting loop produces the table whose partition is proved |
| PcoLatents.ParseLatent | internal/pco/decode.go:282-335 | accepts exactly what the metadata specification accepts and returns a latent with the specified table |
| PcoBatches.NextNode | internal/pco/decode.go:439-446 | one lane's transition looks up its node, reads the node's bits and stays inside the table |
| PcoBatches.DecodeStates | internal/pco/decode.go:438-447 | the interleaved loop visits the specified nodes in the specified lanes |
| PcoBatches.AddExtras | internal/pco/decode.go:448-450 | the second loop adds each node's offset bits modulo the width |
| PcoBatches.ReadLatents | internal/pco/decode.go:432-452 | values, lane states and position after a batch are those of the specification; no bins for a nonempty batch is an error |
| PcoBatches.LanesInTurn | internal/pco/decode.go:438-447 | value k is decoded in lane k modulo 4: from the lane's first state, or from the state that the value four before it led to |
| PcoBatches.StepBack | internal/pco/decode.go:323-333 | every state can be reached from a slot of any wanted bin by reading the stated bits |
| PcoBatches.StatesRoundTrip | internal/pco/decode.go:438-447 | symbols encoded backwards through four interleaved states are decoded forwards in order |
| PcoBatches.BatchRoundTrip | internal/pco/decode.go:432-452 | a written batch is decoded to its values, the encoder's final states and the bit after it |
| PcoDelta.IntegrateInvertsDiff | internal/pco/decode.go:463-469 | integrating k times undoes k-fold differencing modulo 2^w, and nothing after the first n-k differences reaches the output |
| PcoDelta.ConsecutiveRoundTrip | internal/pco/decode.go:457-470 | order-k restore inverts k-fold differencing for every page length, pages shorter than k included |
| PcoDelta.LookbackRoundTrip | internal/pco/decode.go:471-488 | lookback restore returns the values for every valid lookback choice and rejects exactly the invalid ones; short pages keep their values right-aligned |
| PcoDelta.ConvolutionRoundTrip | internal/pco/decode.go:489-503 | convolution restore returns the values for all weights, bias and quantization |
| PcoDelta.DiffInvertsIntegrate | internal/pco/decode.go:457-470 | differencing undoes integration: the stored differences follow from the restored values |
| PcoDelta.RebuiltStored | internal/pco/decode.go:471-503 | the stored residuals of a lookback or convolution follow from the restored values |
| PcoPredictions.ConsecutiveClosedForm | internal/pco/decode.go:457-470 | the consecutive delta without loops: value i is the polynomial with the initial moments as its differences at 0, plus every stored difference less 2^(w-1) times a binomial, modulo 2^w; stored 2^(w-1) at order 1 restores a constant |
| PcoPredictions.LookbackValue | internal/pco/decode.go:471-488 | each value is the one its lookback names, or 0 before the page, plus the residual less 2^(w-1); so the residual 2^(w-1) copies |
| PcoPredictions.PredictedValue | internal/pco/decode.go:489-503 | every rebuilt value is its prediction plus the residual less 2^(w-1), modulo 2^w |
| PcoPredictions.DotLinear | internal/pco/decode.go:493-497 | the weighted sum is linear in the weights |
| PcoPredictions.DotUnit | internal/pco/decode.go:493-497 | weight j belongs to the value at place j among the last values: with a single 1 at j the sum is out[|out| - |weights| + j] |
| PcoPredictions.ConvolutionClamped | internal/pco/decode.go:493-501 | the prediction is 0 for a negative sum of bias and weighted values, and else the sum without its lowest quantized bits |
| PcoPredictions.ConvolutionCopies | internal/pco/decode.go:489-503 | with a single weight of 1 at j each value is the one |weights| - j before it plus the residual |
| PcoPredictions.ConvolutionRepeats | internal/pco/decode.go:489-503 | with the first weight alone and residuals 2^(w-1) the values repeat with the number of weights as their period |
| PcoDelta.ConvolutionInRange | internal/pco/decode.go:257-263 | a bound below the limit keeps every partial sum inside a signed accumulator of twice the width |
| Float64.OverflowIsSeen | internal/pco/decode.go:257-263 | rounding cannot hide an overflow: a bound that is too large in exact integers is too large when every sum is rounded to float64 |
| Float64.BoundExact | internal/pco/decode.go:257-263 | below 2^53 the float64 bound is the exact bound |
| Float64.NarrowTestExact | internal/pco/decode.go:257-263 | for latents of at most 27 bits, so for 8 and 16, the float64 bound is below the limit if and only if the exact bound is, for all biases and weights |
| Float64.WideTest | internal/pco/decode.go:257-263 | for 32 bits, in whatever order the weights come: an exact bound of at most 2^63 - 768 always passes, and one of at least 2^63 - 512 never does |
| Float64.BetweenPasses | internal/pco/decode.go:257-263 | for every exact bound strictly between, storable parameters with that bound that pass |
| Float64.BetweenFails | internal/pco/decode.go:257-263 | and storable parameters with the same bound that are rejected although they cannot overflow |
| Float64.ZeroWeights | internal/pco/decode.go:257-263 | with all weights zero the test passes if and only if the bias is less than 2^63 - 512 away from zero |
| PcoDelta.IntegrateInPlace | internal/pco/decode.go:463-469 | one in-place pass replaces every difference by the moment before it |
| PcoDelta.ConsecutiveLoop | internal/pco/decode.go:457-470 | the loops compute the consecutive restore |
| PcoDelta.LookbackLoop | internal/pco/decode.go:471-488 | the loop computes the lookback restore, with all history indexing in range |
| PcoDelta.ConvolutionSum | internal/pco/decode.go:493-500 | the inner loop is the weighted sum of the last values, and stays in range |
| PcoDelta.ConvolutionLoop | internal/pco/decode.go:489-503 | the loop computes the convolution restore, with all history indexing in range |
| PcoModes.WordRoundTrip | internal/pco/decode.go:422-427 | the maps between latents and words of every kind invert each other |
| PcoModes.WordOrder | internal/pco/decode.go:507-513 | a larger latent is a larger number, a larger two's-complement number or a larger float in IEEE order, by its kind |
| PcoModes.SplitJoin | internal/pco/decode.go:398-421 | in every mode any word of the width splits into latents that join to it; in dictionary mode exactly the dictionary's words |
| PcoModes.MultiplesOf | internal/pco/decode.go:402-403 | with integer multiples the next primary latent is `base` more, and the secondary latent counts up from the multiple |
| PcoModes.ProductsOf | internal/pco/decode.go:404-406 | with float multiples the secondary latent less 2^(w-1) counts the representable numbers from the product on |
| PcoModes.QuantizedBits | internal/pco/decode.go:407-415 | with quantized floats the primary latent is the ordered float without its lowest bits and the secondary latent is these bits of the float itself, whatever its sign; a latent with more bits is rejected |
| PcoModes.EntriesOf | internal/pco/decode.go:416-420 | a dictionary gives the entry of the index, and fails beyond the last |
| PcoPage.Chunk.LimitsAddUp | internal/pco/decode.go:362-367 | round by round the batch limits add up to min(start + 256, count) values of each variable |
| PcoPage.Chunk.StoredValues | internal/pco/decode.go:363-368 | variables with a delta and the lookbacks store a value for every row after the initial ones, the others one for every row |
| PcoPage.RoundsOf256 | internal/pco/decode.go:362-374 | a page of at most 256 values has one round, a longer one goes on with the next 256 |
| PcoPage.JoinedRow | internal/pco/decode.go:398-430 | row by row the mode joins the primary and secondary latent of the same row, and the kind says what the result means |
| PcoPage.ReadHeader | internal/pco/decode.go:346-357 | the header loop reads the initial values and lane states of every variable |
| PcoPage.ReadBatch | internal/pco/decode.go:363-372 | one variable's batch extends its values by exactly its limit |
| PcoPage.ReadRounds | internal/pco/decode.go:362-374 | after all rounds every variable has max(0, n - order) or n values |
| PcoPage.Restore | internal/pco/decode.go:384-392 | the switch on the delta kind yields exactly n latents, or the lookback error |
| PcoPage.JoinLoop | internal/pco/decode.go:398-430 | the output loop yields one word per row or fails on the first bad residual or index |
| PcoPage.Page | internal/pco/decode.go:343-431 | a decoded page has exactly n words, each below 2^width |
| PcoPage.DecodePage | internal/pco/decode.go:343-431 | the whole page loop computes that page and rejects exactly when it does |
| PcoChunks.ParsedChunkValid | internal/pco/decode.go:148-281 | whatever the bytes are, an accepted chunk satisfies every condition that decoding a page relies on: mode, windows, bins, widths and the convolution bound |
| PcoChunks.CheckedFits | internal/pco/decode.go:239-263 | an accepted convolution, narrowed as the code narrows it, satisfies the exact overflow bound |
| PcoChunks.NarrowAccepted | internal/pco/decode.go:239-264 | for 8 and 16 bits a convolution is accepted if and only if its quantization is below 2w and the exact bound on the narrowed parameters is below 2^(2w-1) |
| PcoChunks.NarrowKeeps | internal/pco/decode.go:244-253 | a narrowed parameter is in the range of its width and the same modulo 2^width |
| PcoChunks.WideAccepted | internal/pco/decode.go:239-264 | for 32 bits every convolution with a bound of at most 2^63 - 768 is accepted as it is, every one from 2^63 - 512 on is rejected, and without weights the limit on the bias is exactly 2^63 - 512 |
| PcoChunks.BoundDecides | internal/pco/decode.go:239-264 | of the exact bounds that cannot overflow, precisely those up to 2^63 - 768 are accepted for all storable parameters, and precisely those from 2^63 - 512 on are rejected for all |
| PcoChunks.ParsedDelta | internal/pco/decode.go:185-220 | parsed deltas have orders, windows and weight counts within their limits and convolution parameters of the stored ranges |
| PcoChunks.ReadMode | internal/pco/decode.go:151-170 | reads the fields of the mode as specified |
| PcoChunks.ReadDelta | internal/pco/decode.go:185-220 | reads the fields of the delta as specified, in the old and the new version |
| PcoChunks.CheckDelta | internal/pco/decode.go:235-264 | the narrowing and bounding loops decide as specified |
| PcoChunks.ReadChunk | internal/pco/decode.go:148-281 | returns the chunk of the specification, and rejects exactly when it does |
| PcoChunkRoundTrip.DeltaWritten | internal/pco/decode.go:185-220 | every delta with its parameters is read back from its written form |
| PcoChunkRoundTrip.ChunkWritten | internal/pco/decode.go:148-281 | metadata of any mode, delta and bins that passes the checks is parsed back into the chunk it describes |
| PcoPageRoundTrip.HeaderWritten | internal/pco/decode.go:346-357 | a written header is read back variable by variable |
| PcoPageRoundTrip.RoundsWritten | internal/pco/decode.go:362-374 | the written rounds, interleaved over the variables, are read back into complete variables |
| PcoPageRoundTrip.StreamRoundTrip | internal/pco/decode.go:343-377 | for any chunk, plan and length the decoder reads back exactly the written initial and coded values, padding and trailing bytes included |
| PcoExpressible.RestoreRaw | internal/pco/decode.go:453-506 | each delta kind restores the latents from the stored values, for every length |
| PcoExpressible.RawOfRestored | internal/pco/decode.go:453-506 | and the stored values follow from the restored latents |
| PcoExpressible.BatchReaches | internal/pco/decode.go:432-452 | whatever the bits are, a bin reaches every value of a batch |
| PcoExpressible.JoinLatents | internal/pco/decode.go:398-430 | joining the latents of output words gives the words |
| PcoExpressible.PageRoundTrip | internal/pco/decode.go:343-431 | the page written for any latents and lookbacks of words x decodes to x, through bits, tANS, deltas and modes |
| PcoExpressible.PagesAreExpressible | internal/pco/decode.go:343-431 | some page decodes to x if and only if some latents and lookbacks join to x and store only values that the chunk's bins reach |
| PcoExpressible.ClassicPages | internal/pco/decode.go:343-431 | in classic mode without lookbacks: if and only if the bins reach the differences of x itself |
| PcoExpressible.EveryPageCanBeWritten | internal/pco/decode.go:343-431 | with the obvious split of words into latents and any lookbacks inside the window, it is enough that the bins reach the values to store |
| PcoStream.CountPages | internal/pco/decode.go:33-45 | rejects exactly an oversized page, and counts pages and values |
| PcoStream.DecodePages | internal/pco/decode.go:53-71 | the inner loop yields the words of the pages of a chunk in order |
| PcoStream.DecodeChunks | internal/pco/decode.go:47-72 | the outer loop gives every chunk its own pages, in order |
| PcoStream.ShapeIs | internal/pco/decode.go:22-26 | the width of a kind in bits, and whether its words are unsigned, signed or floating |
| PcoStream.PageValues | internal/pco/decode.go:53-71 | every page has its own values, after those of the pages before it |
| PcoStream.ChunkValues | internal/pco/decode.go:47-72 | every chunk has as many of the pages as it has counts, in order, and its values come before those of the later chunks |
| PcoStream.Decode | internal/pco/decode.go:21-74 | returns the little-endian words of the specified column, and rejects exactly when there is none |
| PcoStream.ColumnRoundTrip | internal/pco/decode.go:21-74 | for any chunks, modes, deltas and bins, words that the chunks can express have pages from which the column decodes to exactly these words |
| FastLanes.TransposeInverse | internal/encoding/temporal_delta.go:116-119 | the transpose of a chunk is a permutation of 0..1023 |
| FastLanes.IndexInverse | internal/encoding/numeric.go:179-183 | row and lane are recovered from the position of (row, lane), for all four widths |
| FastLanes.RowLaneInverse | internal/encoding/numeric.go:179-183 | every position is the position of its row and lane, so the map is a bijection |
| FastLanes.OrderInDigits | internal/encoding/numeric.go:174-174 | the order of the row groups reverses three bits: group 4a + 2b + c is 4c + 2b + a |
| FastLanes.PositionInDigits | internal/encoding/numeric.go:175-183 | row and lane of position 128s + 16(4a + 2b + c) + m for all four widths, in digits: for 64 bits row 8(4c + 2b + a) + s of lane m |
| FastLanes.TransposeInDigits | internal/encoding/temporal_delta.go:113-121 | the transposed position of the same digits is 64m + 8(4c + 2b + a) + s |
| ChunkLayouts.BitOfValue | internal/encoding/numeric.go:172-195 | every bit of every unpacked value, for all widths and bit widths, is the bit of the buffer that its digits give: byte and bit in plain arithmetic |
| ChunkLayouts.RowOfBuffer | internal/encoding/numeric.go:172-195 | row off + i of a buffer is the value at its position in its chunk |
| ChunkLayouts.RunsAreLanes | internal/encoding/temporal_delta.go:109-121 | in row order a chunk is a sequence of runs, each of which is one lane |
| ChunkLayouts.RowAddsDifference | internal/encoding/temporal_delta.go:109-121 | delta in row order: a row is the previous row of its run, or the base of its lane, plus the difference at the position with its digits, modulo the width |
| ChunkLayouts.RowsOfDelta | internal/encoding/temporal_delta.go:109-146 | rows of whole chunks come from the blocks, and rows of the last, incomplete chunk add plain differences to the row before |
| ChunkLayouts.RowValidity | internal/encoding/temporal_delta.go:124-133 | the validity of a row of a whole chunk stands at the transposed position, that of a row of the tail at its own |
| LaneDelta.FillBlock | internal/encoding/temporal_delta.go:113-121 | the lane and row loops overwrite every element of the reused block with the chunk's own value |
| LaneDelta.CopyBlock | internal/encoding/temporal_delta.go:122-133 | the rows of a chunk inside the slice get their value and, through the transpose, their validity |
| LaneDelta.DecodeTail | internal/encoding/temporal_delta.go:135-146 | the tail loop gives the running sums of the plain differences |
| LaneDelta.Decode | internal/encoding/temporal_delta.go:109-147 | values and validity of rows [off, off + n) are those of the per-row specification |
| LaneDelta.Encoded.SliceLaw | internal/encoding/temporal_delta.go:82-147 | a slice of an accepted array is accepted and equals the slice of the decoded rows, for values and nulls |
| LaneDelta.RoundTrip | internal/encoding/temporal_delta.go:109-147 | for every width, bases, words and validity, decoding the differences and the scattered validity gives back every row |
| BitPacking.WordsExist | internal/encoding/numeric.go:184-191 | only words of the lane are read: that of the start bit, and the next one when the value straddles it |
| BitPacking.Packed.WordInChunk | internal/encoding/numeric.go:186-190 | every word read lies inside the chunk's bw * 128 bytes and inside the buffer |
| BitPacking.Extract | internal/encoding/numeric.go:185-191 | shifting, or-ing the next word and masking take exactly the value's bits out of the lane's stream |
| BitPacking.ExtractField | internal/encoding/numeric.go:184-191 | the code for one value returns the field of its start bit |
| BitPacking.Unpack | internal/encoding/numeric.go:173-194 | the loop returns the specified value of every row of the slice |
| BitPacking.SliceLaw | internal/encoding/numeric.go:150-193 | a slice of an accepted buffer is accepted and its values are the slice of the values |
| BitPackRoundTrip.Plain.StreamIsLane | internal/encoding/numeric.go:184-191 | the stream the decoder reads for a lane is the stream that was packed |
| BitPackRoundTrip.RoundTrip | internal/encoding/numeric.go:164-193 | for every width and bit width, unpacking any row of any slice of a packed buffer gives the packed value |
| Decoding.IntegerConstant | internal/encoding/decode.go:509-639 | the word of a one-row constant is the in-range, non-null integer scalar; fails only without one or by a limit |
| Sequences.DenoteInRange | internal/encoding/decode.go:231-231 | a word denotes an integer in the range of its type, and is the word of that integer |
| Sequences.EndpointsSuffice | internal/encoding/numeric.go:228-250 | with the base in range, all elements are in range exactly when the last one is |
| Sequences.MaskedIsElement | internal/encoding/numeric.go:251-254 | the masked wrap-around word is the word of base + i * step over the integers, whichever signedness the step was stored with |
| Sequences.Fill | internal/encoding/numeric.go:228-255 | accepted exactly when every element is in range, and then row i is the word of base + i * step and denotes it |
| Sequences.StepRead | internal/encoding/numeric.go:268-283 | a step written signed or unsigned is read back as the same integer |
| Sequences.RoundTrip | internal/encoding/numeric.go:206-283 | metadata written for base and step stands for base, base + step, base + 2 step, ... |
| Sequences.SameResidues | internal/encoding/decode.go:225-231 | words and the integers they denote agree modulo 2^width |
| Sequences.ZigZagCounts | internal/encoding/decode.go:463-469 | zigzag counts 0, -1, 1, -2, 2, and so on |
| NumberColumns.ExpandRle | internal/encoding/numeric.go:380-418 | accepted exactly when every non-null row finds its value inside its chunk's values; the row is that value |
| NumberColumns.Rle.SliceLaw | internal/encoding/numeric.go:380-418 | a slice of decodable rows is decodable and its rows are the rows of the whole, nulls included |
| NumberColumns.AddReference | internal/encoding/decode.go:462-469 | every word plus the reference modulo the width |
| NumberColumns.ReferenceRoundTrip | internal/encoding/decode.go:462-469 | adding the reference undoes subtracting it |
| NumberColumns.UndoZigZag | internal/encoding/decode.go:462-469 | every word becomes the word of its zigzag integer |
| NumberColumns.ZigZagRoundTrip | internal/encoding/decode.go:462-469 | zigzag is a bijection between unsigned words and signed integers of the width |
| NumberColumns.PatchNumbers | internal/encoding/numeric.go:133-147 | accepted exactly for strictly sorted indices inside the slice; the result is the map override of the words |
| NumberColumns.LookupLeft | internal/encoding/numeric.go:505-513 | every valid code becomes its dictionary entry; an unknown code is an error, null rows are left alone |
| NumberColumns.CombineParts | internal/encoding/numeric.go:523-533 | accepted exactly when the parts of every valid row fit, which are then combined |
| NumberColumns.SplitRoundTrip | internal/encoding/numeric.go:505-533 | for any dictionary and any patched rows, the parts of a word combine to the word |
| RowCopies.CopyRow | internal/encoding/decode.go:135-152 | copying one row changes that row only, keeps shape and nested nullability |
| RowCopies.Allocate | internal/encoding/numeric.go:40-51 | an array to copy into is allocated exactly when its cost fits the budget, with validity wherever the source has it |
| RowCopies.TakeRows | internal/encoding/numeric.go:40-63 | accepted exactly when the budget suffices and every valid code is in range; each row is the dictionary row its code names, a blank null for a null code |
| RowCopies.CheckIncreasing | internal/encoding/numeric.go:319-323 | accepts exactly positive, strictly increasing ends |
| RowCopies.ExpandRuns | internal/encoding/numeric.go:308-335 | accepted exactly when the budget suffices and the runs cover the slice; each row is the value of the first run that ends beyond it |
| RowCopies.RunSliceLaw | internal/encoding/numeric.go:315-334 | runs that cover a whole cover its slices, rows agree, and a budget that allows the whole allows the slice |
| RowCopies.Patch | internal/encoding/numeric.go:122-147 | accepted exactly for strictly sorted indices inside the slice within budget; the rows are the map override of the old rows |
| Overrides.PatchOrderIrrelevant | internal/encoding/numeric.go:127-147 | distinct patches, in whatever order they are listed, override the same rows |
| Arrays.AtRow | internal/encoding/decode.go:135-152 | a copied row equals the source row with the nullness of every nested field, and no other row changes |
| Arrays.AtWhole | internal/encoding/decode.go:135-152 | copying keeps the type's shape and the nullability of every nested field |
| Arrays.CoveringRows | internal/encoding/decode.go:106-134 | adding validity vectors changes no row and makes room for every null of the source |
| Arrays.CoveringWhole | internal/encoding/decode.go:121-134 | and keeps shape and nested nullability |
| Arrays.EmptyWhole | internal/encoding/decode.go:51-104 | an empty array has the shape of its type and no null except in the null type |
| Arrays.EmptyRow | internal/encoding/decode.go:51-104 | every row of an empty array is the blank row of its type, at every nested field |
| Decoders.Decoder.Reserve | internal/encoding/decode.go:44-50 | succeeds exactly when the budget suffices; the budget is never negative and never grows, and a refusal is remembered |
| Decoders.Decoder.Empty | internal/encoding/decode.go:51-104 | succeeds exactly for supported types within the row limit and the budget, at exactly the stated cost |
| Decoders.Decoder.Mask | internal/encoding/decode.go:106-117 | adds an all-valid vector for one byte a row, if there was none |
| Decoders.Decoder.CopyValidityShape | internal/encoding/decode.go:119-134 | adds validity vectors wherever the source has them, exactly when their total cost fits |
| Readings.Reading | internal/encoding/decode.go:233-507 | the rows that a tree of encodings stands for, if any: of the asked number, within the row limit, and without nulls in a non-nullable type |
| Readings.PrimitiveKinds | internal/encoding/types.go:164-170 | the numbers of the primitive types: unsigned and signed integers of 1, 2, 4 and 8 bytes and floats of 2, 4 and 8 |
| Readings.UnsignedIs | internal/encoding/types.go:188-193 | the unsigned type of the same width |
| NodeShapes.AcceptedShape | internal/encoding/decode.go:233-507 | whatever is accepted has the types, children, buffers and metadata limits of its encoding, at most 2^25 rows, and no null where the type forbids it |
| Budgets.EmptyCovering | internal/encoding/decode.go:51-134 | an allocation with all its validity vectors costs at most a fixed number of bytes a row, at every nested field |
| Budgets.ConstantWeight | internal/encoding/decode.go:509-639 | and so does a constant, although a struct and its fields are allocated one after the other |
| Memory.EmptyCostsItsBytes | internal/encoding/decode.go:51-104 | the budget pays exactly the bytes of the vectors of an empty array: one a flag, eight a word, 24 a string header, at every nested field |
| Memory.MaskCostsItsBytes | internal/encoding/decode.go:106-117 | and those of a new validity vector |
| Memory.CoveringCostsItsBytes | internal/encoding/decode.go:119-134 | and those of all validity vectors that the nulls of a source need |
| Constants.DecodeConstant | internal/encoding/decode.go:509-639 | succeeds exactly when the scalar stands for a cell of the type, unless the budget refuses; every row is that cell, nested fields admit their nulls, and so does the array for a consistent type |
| Constants.InconsistentExtension | internal/encoding/decode.go:509-531 | why types must be consistent: over a non-nullable extension with nullable storage the scalar that `constant` accepts is null; a file cannot declare such a type, since dtype.go:98 copies the nullability of the storage |
| Tokens.ExpandRow | internal/encoding/binary.go:177-202 | accepts exactly the code strings that expand to the declared length, and returns the expansion |
| Tokens.CodeMeans | internal/encoding/binary.go:178-199 | what one code stands for: 255 for the byte after it, a code of the table for its first bytes, and any other for an error |
| Tokens.ExpandRows | internal/encoding/binary.go:166-208 | accepted exactly when every valid row is good and the declared bytes fit; the budget pays for exactly those bytes |
| Tokens.CoverDecodes | internal/encoding/binary.go:178-199 | any cover of a string by symbols and escapes decodes to the string |
| Tokens.ExpandsIffCovered | internal/encoding/binary.go:178-199 | a row decodes to a string exactly when it is such a cover |
| Tokens.Resolve | internal/encoding/binary.go:525-540 | accepts exactly strictly increasing offsets inside the blob and returns the non-empty ranges |
| Tokens.DictionaryRoundTrip | internal/encoding/binary.go:525-540 | any dictionary of non-empty tokens is resolved from its blob and offsets |
| Tokens.NamedLength | internal/encoding/binary.go:550-555 | a string of non-empty tokens has at least as many bytes as codes |
| Tokens.DecodeRow | internal/encoding/binary.go:545-579 | accepted exactly when the named tokens make a string of the declared length within budget; the code-count test rejects no such row |
| Tokens.NameRows | internal/encoding/binary.go:541-581 | accepted exactly when all valid rows are good and the bytes fit; the codes looked at never exceed the bytes taken from the budget, on success and on failure |
| NullExpansion.ProjectAt | internal/encoding/binary.go:272-304 | the k-th valid row holds the k-th projected value |
| NullExpansion.ValueBytes | internal/encoding/binary.go:287-300 | a byte string of a frame follows its length in four bytes, the lowest first |
| NullExpansion.ScatterFrame | internal/encoding/binary.go:272-304 | a frame is accepted exactly when it parses and enough valid rows are left; its values follow those before |
| NullExpansion.ScatterFrames | internal/encoding/binary.go:249-315 | accepted exactly when all frames parse, counts are as declared and there is one value per valid row; projecting the output gives the stored values |
| NullExpansion.ExpandPages | internal/encoding/binary.go:382-388 | the words of the valid rows, in order, are the decoded words |
| NullExpansion.RoundTrip | internal/encoding/binary.go:249-315 | however the values are cut into frames, every valid row gets its original value |
| Proto.ParseProto | internal/encoding/proto.go:20-69 | the loop computes the fields of the specification |
| Proto.UvarintDigits | internal/encoding/proto.go:24-60 | a varint has at most ten bytes, all but the last with the top bit set, whose low seven bits are the digits of the number |
| Proto.FieldKey | internal/encoding/proto.go:24-32 | a field begins with a varint of eight times its tag, which is not 0, plus its wire type |
| Proto.PayloadBytes | internal/encoding/proto.go:33-66 | after it come a varint, eight bytes, a length and as many bytes, or four bytes, by the wire type, and nothing else is accepted |
| Proto.Defaults | internal/encoding/proto.go:70-80 | a missing field counts as the number 0 and as no bytes |
| Proto.RoundTrip | internal/encoding/proto.go:20-69 | a serialized message is accepted exactly when it has at most 2^18 fields, and parses to them |
| Proto.ParseThenSerialize | internal/encoding/proto.go:20-69 | whatever is accepted consists of at most 2^18 valid fields, whose canonical form parses to the same fields |
| Proto.ParseConcat | internal/encoding/proto.go:20-69 | the fields of a concatenation are the fields of the parts in order; it is accepted exactly when the second part is, after the fields of the first |
| Proto.FindLast | internal/encoding/proto.go:70-77 | returns the last field with the tag, if there is one |
| Proto.GetConcat | internal/encoding/proto.go:70-80 | last one wins: an appended message overrides exactly the tags it has |
| Proto.RepeatedNumbers | internal/encoding/proto.go:81-104 | the nested loops collect the numbers of the specification |
| Proto.PackedOrUnpacked | internal/encoding/proto.go:81-104 | however numbers are cut into packed and unpacked fields, the same list is read |
| Decoding.ValidityOf | internal/encoding/decode.go:159-181 | the flags of the validity child, or all valid without one; an error exactly for another child count, a child without a reading, or a refusal by a limit |
| Decoding.ApplyPatches | internal/encoding/numeric.go:67-148 | the patched array keeps its type; the rows are the map override by the patch children, and it fails only without such a reading or by a limit |
| Decoding.PatchWords | internal/encoding/numeric.go:72-148 | numeric patches override words and leave validity alone; it fails only without a reading of the patches or by a limit |
| Decoding.DecodePrimitive | internal/encoding/decode.go:274-294 | the buffer's words with the child's validity; fails exactly for a wrong type, buffer or child, or by a limit |
| Decoding.DecodeBoolean | internal/encoding/decode.go:295-331 | the buffer's bits from the offset on, with the child's validity; fails only when there is no such reading or by a limit |
| Decoding.DecodeByteBool | internal/encoding/decode.go:295-331 | the buffer's bytes, each 0 or 1, with the child's validity; fails only when there is no such reading or by a limit |
| Decoding.DecodeStruct | internal/encoding/decode.go:341-366 | the child columns, with the optional first child's flags; fails only when a child has no reading or by a limit |
| Decoding.DecodeMasked | internal/encoding/decode.go:371-380 | the rows of the non-nullable child with the mask's validity; fails only without these readings or by a limit |
| Decoding.DecodeExtension | internal/encoding/decode.go:381-396 | the rows of the storage child; fails only without a reading or by a limit |
| Decoding.DecodeVarBin | internal/encoding/binary.go:14-56 | the ranges between consecutive offsets; fails only if a range lies outside, a valid text row is not UTF-8, a child has no reading, or by a limit |
| Decoding.DecodeView | internal/encoding/binary.go:57-95 | inline strings or buffer ranges with matching prefix; fails only if a valid row has none, is not UTF-8, or by a limit |
| Decoding.DecodeDictionary | internal/encoding/numeric.go:13-63 | the rows of the dictionary child that the code child names; fails only if a code is out of range, a child has no reading, or by a limit |
| Decoding.DecodeBitPacked | internal/encoding/numeric.go:150-205 | the unpacked values, patched, with the child's validity; fails only when there is no such reading or by a limit |
| Decoding.DecodeReference | internal/encoding/decode.go:432-470 | the child's words plus the non-null reference; fails only when there is no such reading or by a limit |
| Decoding.DecodeZigZag | internal/encoding/decode.go:432-470 | the zigzag integers of the unsigned child; fails only when there is no such reading or by a limit |
| Decoding.DecodeSequence | internal/encoding/numeric.go:206-256 | the words of the elements of the arithmetic sequence; fails only if the metadata is no sequence, an element is out of range, or by a limit |
| Decoding.DecodeRunEnd | internal/encoding/numeric.go:285-335 | the values of their runs; fails only if the runs do not cover the slice, a child has no reading, or by a limit |
| Decoding.DecodeRunLength | internal/encoding/numeric.go:336-418 | the chunk values that the indices name; fails only if an index names none, a child has no reading, or by a limit |
| Decoding.DecodeSparse | internal/encoding/decode.go:477-487 | the constant overridden by the patches; fails only without these readings or by a limit |
| Decoding.DecodeAlp | internal/encoding/numeric.go:423-462 | the images of the child's words, overridden by the patches; fails only when there is no such reading or by a limit |
| Decoding.DecodeAlpRd | internal/encoding/numeric.go:463-534 | valid rows combine the patched dictionary entry and the right part; fails only if parts do not fit, a code is unknown, a child has no reading, or by a limit |
| Decoding.ResolveTokens | internal/encoding/binary.go:513-540 | the tokens between the offsets, rejected exactly when the dictionary is larger than the code width can address or an offset is bad; its slices are paid for |
| Decoding.DecodeFsst | internal/encoding/binary.go:97-209 | valid rows are the expansions of their codes; fails only if a row does not expand to the declared length, or is not UTF-8, a child has no reading, or by a limit |
| Decoding.DecodeOnPair | internal/encoding/binary.go:453-582 | valid rows are the tokens their codes name; fails only if a row names no string of the declared length, the tokens are bad, a child has no reading, or by a limit |
| Decoding.DecodeZstd | internal/encoding/binary.go:210-316 | the values of the frames in the valid rows, in order; fails only if a frame is bad or its header states another size, the values do not match the valid rows, or by a limit |
| Decoding.DecodePco | internal/encoding/binary.go:317-390 | the words of the modelled Pco column in the valid rows, in order; fails only if the column does not decode, its counts do not match the valid rows, or by a limit |
| Decoding.DecodeDelta | internal/encoding/temporal_delta.go:71-148 | the delta rows of the children, sliced; fails only when the children have no such reading or by a limit |
| Decoding.Dispatch | internal/encoding/decode.go:264-506 | every encoding's result has its type's shape and nested nullability and is the encoding's reading; it fails only without a reading or by a limit, and pays at most what the encoding needs |
| Decoding.Decode | internal/encoding/decode.go:233-507 | type soundness at every nested field, and exactness: the result is the reading of the tree, and there is a result exactly when there is a reading, unless the byte budget or the depth limit refuses; it spends at most `Need` bytes and is never refused when that much budget and `Height` levels are left; depth restored |
| Decoding.DecodeArray | internal/encoding/decode.go:36-43 | the same for types as a file declares them: a tree that needs at most 512 MiB and 64 levels decodes if and only if it has a reading |
| NodeRoundTrips.BitPackedNodeReads | internal/encoding/numeric.go:150-205 | end to end, every slice of a written bit-packed node has a reading, and it is the packed values |
| StoredNodes.NumbersNodeReads | internal/encoding/decode.go:274-294 | end to end, words and flags written as a buffer with a validity child read as these words and nulls |
| StoredNodes.DeltaNodeReads | internal/encoding/temporal_delta.go:71-148 | end to end, over any children that read as the bases and as the differences with the scattered validity, every slice of a delta node reads as the words and nulls |
| StoredNodes.DeltaTreeReads | internal/encoding/temporal_delta.go:71-148 | the same for a whole written tree, for all words, nulls, bases and slices |
| StoredNodes.ReferenceNodeReads | internal/encoding/decode.go:432-470 | end to end, over any child that reads as the differences from a base, a frame of reference reads as the words |
| StoredNodes.PackedTreeReads | internal/encoding/decode.go:430-470 | end to end, a frame of reference over bit-packed differences reads as the words |
| StoredNodes.ZigZagNodeReads | internal/encoding/decode.go:432-470 | end to end, over any child that reads as zigzag words, a zigzag node reads as the signed integers |
| StoredNodes.RunEndNodeReads | internal/encoding/numeric.go:285-335 | end to end, over any children that read as the strictly increasing ends and as the values of runs, every slice of a run-end node reads as the rows, each the value of the run that contains it |
| TokenNodes.FsstNodeReads | internal/encoding/binary.go:97-209 | end to end, for any cover of some strings by symbols and escapes, over any children that read as its codes, or as the offsets and validity of codes in a third buffer, and as the lengths, an FSST node reads as the strings |
| TokenNodes.NamedIsPicked | internal/encoding/binary.go:565-573 | codes spell the tokens at their indices, one after the other |
| TokenNodes.OnPairNodeReads | internal/encoding/binary.go:453-582 | end to end, over any children that read as its five columns, an OnPair node reads as the strings that the codes of each row spell |
| StringNodes.VarBinNodeReads | internal/encoding/binary.go:14-48 | end to end, over any children that read as offsets and validity, the node reads as the strings between the offsets |
| StringNodes.ViewRead | internal/encoding/binary.go:61-86 | a view written as length and string, or as length, prefix, buffer index and offset, each little-endian in four bytes, is read as the string |
| StringNodes.ViewNodeReads | internal/encoding/binary.go:57-95 | end to end, for any strings, those of at most 12 bytes inline and the others anywhere in any data buffers, the node with their written views reads as the strings and nulls |
| StringNodes.WhichTextsAllowed | internal/encoding/binary.go:87-93 | UTF-8 is asked of the valid rows of text columns and of no others |
| RowNodes.DictionaryNodeReads | internal/encoding/numeric.go:13-66 | end to end, over any children that read as codes and as values, each valid row of a dictionary node is the value that its code names |
| RowNodes.RunLengthNodeReads | internal/encoding/numeric.go:336-422 | end to end, over any children that read as values, indices and chunk offsets, every slice of a run-length node reads as the rows, each the value at its index in its chunk of 1024 |
| RowNodes.StructNodeReads | internal/encoding/decode.go:341-366 | end to end, over any children that read as the columns, after an optional validity child, the node reads as the rows |
| RowNodes.MaskedNodeReads | internal/encoding/decode.go:371-380 | end to end, the values of the first child under the flags of the second |
| RowNodes.StorageReads | internal/encoding/decode.go:381-396 | end to end, an extension reads as the rows of its storage |
| PatchedNodes.PatchesRead | internal/encoding/numeric.go:76-149 | end to end, patches are accepted exactly when their indices ascend inside the slice, and then each indexed row has its patch and every other row its old value |
| PatchedNodes.BitPackedPatchedReads | internal/encoding/numeric.go:150-205 | end to end, a bit-packed node reads as the unpacked values with the patches in their places |
| PatchedNodes.SparseNodeReads | internal/encoding/decode.go:477-487 | end to end, a sparse node reads as the constant with the patches in their places |
| PatchedNodes.AlpNodeReads | internal/encoding/numeric.go:423-462 | end to end, an ALP node reads as the products of the child's words with the patches in their places |
| PatchedNodes.DictionaryIs | internal/encoding/numeric.go:471-483 | the dictionary of left parts is the first of the repeated numbers of field 3, as many as field 2 says, each of at most 16 bits |
| PatchedNodes.PartsCombine | internal/encoding/numeric.go:523-532 | the parts of a word, at any bit, fit and combine to the word |
| PatchedNodes.AlpRdNodeReads | internal/encoding/numeric.go:463-534 | end to end, over any children that read as the codes and right parts of some words, with patches for the left parts that the dictionary lacks, an ALPRD node reads as the words |
| ScalarNodes.ScalarRoundTrip | internal/encoding/decode.go:509-639 | whatever cell is written as a scalar, nested structs and nulls included, is read back |
| ScalarNodes.ConstantNodeReads | internal/encoding/decode.go:332-340 | end to end, every row of a constant node is the written cell |
| ScalarNodes.BooleanNodeReads | internal/encoding/decode.go:295-331 | end to end, a boolean node reads as the bits of its buffer from the slice offset on |
| ScalarNodes.ByteBoolNodeReads | internal/encoding/decode.go:319-331 | end to end, a node of byte booleans reads as its bytes of 0 and 1, and with any other byte it has no reading |
| PagedNodes.PcoNodeReads | internal/encoding/binary.go:317-390 | end to end, however the values of the valid rows are cut into chunks and pages that express them, there is a Pco node, with nested metadata, that reads as the values and nulls |
| PagedNodes.ZstdNodeReads | internal/encoding/binary.go:210-316 | end to end, however the values of the valid rows are cut into frames, buffers that decompress to the frames, after a dictionary if there is one, make a node that reads as the values and nulls |
| PagedNodes.PcoFieldsRead | internal/encoding/binary.go:330-360 | nested chunk and page messages parse back to the header and the page counts |
| WordRanges.ReadingInRange | internal/encoding/decode.go:233-507 | whatever a tree of encodings holds, every word it decodes to, at every nested field, fits into the bytes of its type, unless the tree has an ALPRD node and the type a 32-bit float |
| WordRanges.SplitInRange | internal/encoding/numeric.go:523-533 | an ALPRD node's words are in range if and only if the type is a 64-bit float or every valid row's left part is below 2^(32 - bw) |
| WordRanges.CombineFits | internal/encoding/numeric.go:523-533 | one pair of parts combines to a word in range under the same condition |
| NodeRoundTrips.SequenceNodeReads | internal/encoding/numeric.go:206-256 | end to end, a written sequence node has a reading exactly when all elements are in range, and then it is base, base + step, base + 2 step, ... |
| Slices.SliceReads | internal/encoding/numeric.go:150-418 | for delta, run-length, run-end and plain bit-packed nodes: whenever the node with offset 0 reads for off + n rows, the node with offset off reads for n rows, and they are the rows from off on |
| Slices.DeltaSlice | internal/encoding/temporal_delta.go:71-148 | the same for the children and the slice of a delta node |
| Slices.RunLengthSlice | internal/encoding/numeric.go:336-418 | the same for a run-length node, nulls included |
| Slices.RunEndSlice | internal/encoding/numeric.go:285-335 | the same for a run-end node, the 64-bit bound on its offset included |
| Layouts.DecodeLayout | scan.go:456-548 | a decoded layout has as many rows as the layout says |
| Layouts.DictionaryRows | scan.go:526-561 | row by row, a dictionary layout decodes to the values that the codes name, and exactly when every code names one and no non-nullable row is null |
| Layouts.StructRows | scan.go:471-493 | the cells of a row come from the columns, in order |
| Layouts.ChunkRows | scan.go:494-525 | every chunk has its own rows, after those of the chunks before it, and nothing is left over |
| Layouts.TakeConcat | scan.go:551-561 | looking up concatenated codes is concatenating the lookups, errors included |
| Layouts.ProjectConcat | scan.go:304-314 | projecting concatenated struct rows is concatenating the projections |
| Plans.NewZone | prune.go:35-65 | a zone map is kept only if it has exactly one statistics row per zone of its rows; `ZoneTruth.ZoneKept` says when it is |
| ZoneTruth.ZoneKept | prune.go:35-65 | a zone map is kept, with the last columns that its metadata names as minimum, maximum, null count and truncation flags, exactly when it has a zone length and its table has the rows to cover the layout |
| ZoneTruth.StatisticNames | prune.go:50-63 | the names that files have for these statistics |
| ZoneTruth.FieldPlanInherits | scan.go:347-433 | if the file's zone maps of a column tell the truth, as their names say it, every zone map that the column's plan keeps is truthful |
| ZoneTruth.SkipsAllItCan | prune.go:93-141 | with usable bounds a zone is skipped exactly when no content of which the named statistics are true has a matching row |
| PlanBuilder.OneStatistic | prune.go:50-63 | no name stands for two statistics, so the order of the cases does not matter |
| PlanBuilder.FindStatistics | prune.go:50-63 | the loop finds the last column of each name |
| PlanBuilder.NewZoneRef | prune.go:35-65 | makes the zone map of the specification |
| Plans.ScalarPlanTiles | scan.go:381-433 | accepted pieces tile the layout's rows without gap or overlap, and zones lie inside |
| Plans.FieldPlanTiles | scan.go:347-380 | the same for a column of the root layout |
| Plans.DictionaryPieces | scan.go:320-340 | looking up codes piece by piece is looking up all codes at once |
| Plans.ScalarPlanRefines | scan.go:381-433 | whenever plan and recursive reader both accept, the pieces' values are the decoded layout |
| Plans.ScalarPlanAccepts | scan.go:381-561 | and the recursive reader accepts a planned column exactly when the pieces decode, no auxiliary array exceeds 2^25 rows, and its dictionaries decode even where no code uses them |
| Plans.FieldPlanRefines | scan.go:347-380 | the pieces of column k are that column as the recursive reader decodes it on its own, even if other columns of the file do not decode |
| Plans.ColumnOfWhole | scan.go:456-548 | when the whole file decodes, a column on its own is that column of the file |
| PlanBuilder.ColumnPlan.constructor | scan.go:137-137 | a new plan has no pieces and no zones |
| PlanBuilder.BuildScalarPlan | scan.go:381-433 | appends the pieces and zones of the specified plan to the plan object, or fails as it does |
| PlanBuilder.BuildDictionary | scan.go:407-429 | appends the code pieces with their dictionary, drops the codes' zones, rejects nested dictionaries |
| PlanBuilder.BuildFieldPlan | scan.go:347-380 | the same for a column of the root layout |
| Zones.SameDecision | prune.go:66-98 | all rows of a zone share one decision |
| Zones.DecisionEnds | prune.go:66-98 | a decision reaches to the next zone or to the end of the zone map, and is that of the statistics row of the zone, for the rows that the zone has |
| Zones.DecideSound | prune.go:93-141 | if the statistics are truthful and the zone is skipped, no row of it matches; null matches only NEQ |
| Zones.DecideExact | prune.go:99-141 | for every statistics row: no content that agrees with it has a matching row if and only if the zone is skipped, the null count exceeds the rows, or there are no usable bounds and no 64-bit integer ever matches |
| Zones.SkipWithoutBounds | prune.go:99-121 | with missing, malformed, reversed or truncated bounds a zone is skipped if and only if its null count equals its rows and the predicate is not NEQ |
| Zones.TruncatedRowSkips | prune.go:99-121 | an input that is skipped although its bounds are missing and flagged as truncated |
| Zones.SkipSound | prune.go:66-142 | the same for `evaluate` at any position of a column |
| Zones.ZoneRef.Evaluate | prune.go:66-142 | the lazily loaded evaluation gives the specified range and decision; it never skips without a statistics table, and without usable bounds it skips only a zone whose rows are all counted as null |
| Zones.DecideLoop | prune.go:93-141 | the checks in order decide as specified |
| Cursors.ColumnCursor.At | scan.go:77-86 | finds the piece that contains the row; for a tiling plan there is no row gap |
| Cursors.ColumnCursor.Read | scan.go:294-345 | returns the slice of the piece's value whatever is cached, and keeps the caches right |
| Cursors.ColumnCursor.Take | scan.go:320-340 | looks codes up in the piece's own dictionary, cached or not |
| Cursors.RowOfPlan | scan.go:294-345 | the value of a row is its entry in the decoded column |
| Cursors.OnePiece | scan.go:77-86 | no row is in two pieces of a column |
| Cursors.ValueReadable | scan.go:294-345 | a row has a value only if its piece decodes |
| Scan.SkippedRowFails | scan.go:231-251 | with truthful statistics a skipped row does not satisfy the predicate |
| Scan.SkipIsDecidedHere | scan.go:241-249 | a row's exclusion is decided at any position of its zone |
| Scan.RecordReader.VisitZone | scan.go:234-249 | one zone bounds the batch and skips only rows it excludes |
| Scan.RecordReader.Prune | scan.go:230-251 | skipped rows are excluded, and if nothing is skipped no row of the batch is; the batch ends at the batch size, at the last row or where a zone begins or its decision ends |
| Scan.RecordReader.FindPieces | scan.go:256-269 | every column has a piece at the position and the batch ends inside all of them, so the scan always advances |
| Scan.RecordReader.ReadColumns | scan.go:270-283 | every column of the batch holds its own rows [pos, end); fails exactly when some column's piece at the position does not decode, with the error of the first such column |
| Scan.RecordReader.Emit | scan.go:256-291 | emits a non-empty batch, up to the limit or to the end of a piece, and advances past it exactly when every column decodes at the position; otherwise stops there with the error of the first column that does not |
| Scan.RecordReader.Next | scan.go:199-293 | the next batch is non-empty, within the batch size, equal-ranged across columns, and ends at the batch size, at the last row or at the edge of a zone or a piece; skips only excluded rows; row gap and no advance never happen; an error is that of the first broken column at a row that is not excluded, and it stays |
| Runs.NewRecordReader | scan.go:111-171 | for columns and predicates whose names are resolved: opens a valid scan at row 0 over their plans, keeping the integer predicates; fails exactly for a negative batch size or a field that is missing or cannot be planned |
| Runs.KeptExactly | scan.go:156-169 | exactly the predicates on signed integers are kept, as often as they are given |
| ScanOptions.Comparisons | scan.go:16-26 | the six comparisons by their numbers; a null only differs from a value |
| ScanOptions.Open | scan.go:111-171 | opens the scan of the named columns, or of all of them; fails exactly for a negative batch size, an unknown or ambiguous name, an invalid comparison, or a column that cannot be planned |
| ScanOptions.FindField | scan.go:129-133 | finds the field that alone has the name |
| Runs.ReadAll | scan.go:199-293 | calling `Next` until it stops yields a chain of batches; it finishes without error and reaches the last row if and only if all columns decode at every row that no zone map excludes |
| Runs.DecodableColumnsReadable | scan.go:294-345 | columns that the recursive reader decodes, each on its own, are readable at every row, so a scan of them always finishes |
| Runs.ChainCovers | scan.go:226-291 | every row is in a batch or excluded |
| Runs.ChainOrdered | scan.go:226-291 | batches are in strictly increasing row order, so no row is emitted twice |
| Runs.EmittedUnlessExcluded | scan.go:226-291 | a finished scan emits exactly the rows that no zone map excludes |
| Runs.MatchingRowsSurvive | scan.go:226-256 | if the file's zone maps tell the truth about a column, in the columns that their metadata names, every row that satisfies all predicates is in exactly one batch, whatever the batch size, nesting and chunking |
| Runs.StreamingRefinesColumn | scan.go:294-345 | without predicates the concatenated slices of a column are that column as decoded on its own, whatever the chunking and whatever becomes of other columns |
| Runs.StreamingRefinesChild | scan.go:347-360 | in a struct file, what the recursive reader makes of the column's own layout |
| Runs.StreamingRefinesDecoding | scan.go:294-345 | and when the whole file decodes, that column of the recursively decoded file |

## Left out

- Floating-point arithmetic: the products of the Pco mode FloatMult (`floatProduct`, `intFloat`, `floatValue`) with the test that its multiplier is finite and not zero, and the ALP multiplications, are uninterpreted functions; everything around them is modelled.
- PcoChunks.WideAccepted: says nothing of bounds strictly between 2^63 - 768 and 2^63 - 512; by `BoundDecides` no condition on the bound can, since for each of them some parameters are accepted and others rejected, by the order of the roundings.
- PcoStream.Decode: collects the words of all pages and writes them as bytes afterwards.
- Decoding.DecodeZstd: decompression is a function, and all frames are decompressed before the first is spread over the rows.
- Decoding.Decode: the encodings that `Decoding.Dispatch` leaves out; decoded arrays are values, so sharing of buffers between arrays and updates in place of vectors inside nested arrays are not captured; `decoder` itself is a class. `Need` is an upper bound of the bytes charged, not the exact sum.
- Decoding.Dispatch: decimals, decimal byte parts and datetime parts are not modelled and count as unsupported encodings.
- Decoding.DecodeArray: the same, for the whole tree.
- Slices.BitPackedSlice: nodes without patches and validity, whose children would be sliced themselves.
- Zones.ZoneRef.Evaluate: `zoneSchema` is a function of the layout that yields the zone length and the type and column names of the statistics; which of the columns are used is modelled by their names.
- Cursors.ColumnCursor.Read: cache keys are compared by value, not by address.
- Arrow arrays, builders, reference counts, allocators, context cancellation, panics and recovery, and reading through `ReaderAt`.
- Field names: a file's column names belong to `ScanOptions` alone; struct fields are addressed by index elsewhere.
- Runs.NewRecordReader: takes indices in place of names; `ScanOptions.Open` resolves the names before it builds any plan, so which of several errors is reported is not captured.
- WordRanges.ReadingInRange: that an ALP multiplication gives a word of its kind is an assumption on the uninterpreted product, which the conversion to bits guarantees.
- File footers, the encoding registry and the generated protobuf and FlatBuffers accessors.
