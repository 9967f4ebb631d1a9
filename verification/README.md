# A Dafny model of Open-Transactions' hard core

This project models the parts of Open-Transactions whose correctness rests on an argument rather than on
reading one function, and proves that argument:

* **Argon2** (`external/argon2`): the memory geometry, the reference window of `index_alpha`, the segment
  fillers (scalar and SSE), the single- and multi-threaded schedules, the first blocks, the final tag.
  The whole of `argon2_ctx` is a method whose result equals one functional definition of the tag.
* **BLAKE2b and H'** (`external/argon2/blake2b.c`): the buffered hash state as a class, against the
  whole-message definition of section 3.3 of RFC 7693, and the variable-length hash of section 3.3 of RFC 9106.
* **Encoded strings** (`external/argon2/encoding.c`): branch-free base64, canonical decimals, and the
  `$argon2..$v=..$m=..,t=..,p=..$salt$hash` grammar, printed and parsed.
* **Two concurrent protocols** (`src/core/StateMachine.cpp`, `src/core/Worker.hpp`) as interleaved steps, one
  atomic operation to a step.
* **Three algorithms**: the bit stream of `src/blockchain/Blockchain.cpp`, the heapsort and growing array of
  irrXML, and the choice of session keys in `src/crypto/Envelope.cpp`.

## How the proofs are arranged

*Memory.* `Fill` says what filling means: block by block, `NewBlock` is a function of the blocks before it, and
`Segment`, `Slice`, `Slices` and `Filled` repeat it in the order of the single-threaded loop. The compression
function is a parameter everywhere except in `FillBlock` to `Compressions`. `FillSegment`, `OptSegment` and
`FillMemory` are the source's loops over one flat array, with its offset arithmetic in 32 bits, and each is
proved equal to that definition. `Interleaving` proves that steps of different lanes may be taken in any order;
`Threads` models creating and joining threads, and proves that a slice filled by threads has exactly one
outcome, the sequential one; `Argon2.ThreadedTag` carries that to the tag.

*Vector code.* `BlaMka` treats a 128-bit register as a pair of lanes and proves the shuffling generically, for
any lane operations; `WordOps` proves that the SSE2 and SSSE3 operations are those lane operations on 64-bit
words. `Compressions` puts both together, and the register filler that carries its `state` from block to block
leaves the same memory as the scalar one.

*Standards.* What the definitions say is stated a second time without their names: `FillLaws` gives the fill
as a row of single steps, `ReferenceLaws` and `CompressionLaws` the reference block and the compression as
sections 3.4 and 3.5 of RFC 9106 do, `PrehashLaws` the layout of the first hash, the first blocks and the tag,
`HashLaws` BLAKE2b and H' byte by byte, `StringLaws` the whole text of an encoded string, `WordLaws` and
`LibraryWords` the words and constants.

*Hashing.* `Blake2b.State` holds the fields of the C structure. Its ghost field `data` is everything absorbed so
far; `Live()` says that the chaining value, the counter and the buffer are functions of `data` alone. The
compression function and the word operations are parameters (`Core`); `Argon2Words` supplies real 64-bit words.

*Strings.* `EncodedStrings` is the grammar, independent of both directions; the decoder is proved to accept
exactly the strings of the grammar whose fields fit and validate, the encoder to print exactly one of them. All this
is proved for any alphabet; `LibraryStrings` states it of the one that the macros compute.

*Protocols.* A run is any sequence of states joined by steps. Every statement is about every state of every
run. Liveness of the state machine is a rank that every internal step lowers after shutdown, with a lemma that some
such step is enabled; that of the worker is stated over infinite fair runs. `StateMachineCalls` says what a trigger
achieves in every run, and `StateMachineAlone` and `WorkerAgain` what each call does to the whole state when nobody
else moves.

## What was found

* `b64_char_to_byte` takes a `char`, which may be negative. The comparison macro `EQ` shifts a 32-bit value by
  eight bits and looks at eight bits only, so for a negative character both `EQ(c, '+')` and `EQ(c, '/')` hold
  and the character is decoded as 63, the same as `/` (`Base64Chars.CharToByteIsValue`). A base64 text with such
  a character is accepted and does not encode back to itself (`LibraryStrings.NegativeCharacterIsAccepted`). Unpadded
  base64 is a bijection exactly on texts without them (`LibraryStrings.AcceptedIsEncodingIff`), and a whole encoded
  string re-encodes to itself exactly when it has none in its two binary fields and states its version
  (`LibraryStrings.AcceptedReencodesIff`).
* `validate_inputs` compares the memory cost with `8 * lanes` in 32 bits. The product can wrap only for lane
  counts that a later test refuses, so the whole check is exact (`Contexts.ValidateInputsIsExact`). Only the code may
  differ: 2^29 lanes with little memory are refused as too many lanes, not as too little memory
  (`Contexts.FirstComplaintIsExactIff`).
* `argon2_encodedlen` counts two digits for the version. It is exact for versions 0x10 and 0x13 and off by the
  difference in digits otherwise (`EncodedRoundTrip.EncodedLenIsExact`).

## Model

| member | source | states |
|---|---|---|
| Contexts.ValidateInputsIsExact | external/argon2/core.c:437-563 | the checks, with their 32-bit product and their order, accept a context exactly when it meets the plain list of demands stated over unbounded integers |
| Contexts.FirstComplaint | external/argon2/core.c:437-563 | a refused context gets the code of the first thing wrong with it, with every bound written out and the memory bound taken modulo 2^32 |
| Contexts.FirstComplaintIsExactIff | external/argon2/core.c:514-525 | in exact arithmetic it is the first thing wrong if and only if it is not the case that nothing before the memory is wrong, 8 * lanes exceeds the memory cost and its remainder modulo 2^32 does not |
| Contexts.GeometryIsValid | external/argon2/argon2.c:57-81 | an accepted context gives four equal segments of at least two blocks per lane, as many whole lanes as asked for, as many passes as the time cost, the version and type asked for, and as many threads as asked for but no more than lanes; rounding the memory down loses less than four blocks per lane |
| ReferenceWindow.MappingDoesNotWrap | external/argon2/core.c:278-283 | squaring and scaling the 32-bit random value never wraps and gives the index of section 3.4.2 of RFC 9106, which lies inside the window |
| ReferenceWindow.AreaIsWindowSize | external/argon2/core.c:233-276 | the six-way case analysis on pass, slice, lane and index gives exactly the number of blocks in the window, never zero and never a whole lane |
| ReferenceWindow.IndexAlphaSelectsFromWindow | external/argon2/core.c:227-298 | counted from the first block of the lane over all passes, the column returned belongs to exactly the block that the window of section 3.4.2 of RFC 9106 prescribes |
| ReferenceWindow.OwnLaneIsSafe | external/argon2/core.c:247-276 | a reference into the lane itself is neither the block being built nor the one before it |
| ReferenceWindow.OtherLaneIsSafe | external/argon2/core.c:259-275 | a reference into another lane is never in the slice being filled |
| ReferenceWindow.FirstPassRefersBack | external/argon2/core.c:247-264 | in the first pass only blocks of finished slices, or earlier blocks of the own lane, are referred to |
| Fill.ReferencesIgnoreMemory | external/argon2/ref.c:118-189 | in the definition, along a whole data-independent segment the sequence of reference blocks used is the same for any two contents of memory, although the memory changes from block to block |
| FillSegment.SameReferences | external/argon2/ref.c:118-208 | two runs of `fill_segment` in a data-independent segment, on any two memories, use the same reference blocks in the same order |
| FillSegment.FillOne | external/argon2/ref.c:154-208 | one turn of the loop, with its lazily generated addresses and its two running offsets, is one step of the definition and uses exactly the reference block that the definition names |
| FillSegment.NextAddresses | external/argon2/ref.c:87-95 | one call advances the counter by one and returns the address block of that counter (section 3.4.1.2 of RFC 9106) |
| FillSegment.TakeAddress | external/argon2/ref.c:132-168 | although address blocks are generated lazily, block i uses word i mod 128 of the address block with counter i / 128 + 1, also where the first one was generated ahead |
| FillSegment.RotatedPrev | external/argon2/ref.c:142-159 | through all increments `prev_offset` is the cyclic predecessor of `curr_offset` in its lane and both are offsets of existing blocks |
| FillSegment.FillSegment | external/argon2/ref.c:97-209 | the loop over the flat array leaves the memory that the block-by-block definition gives for this lane and slice, and uses exactly the sequence of reference blocks that the definition names |
| ReferenceLaws.ReferenceOfRfc | external/argon2/ref.c:161-189 | for every J1 and J2 that make up the random word, taken from the previous block or from the block of addresses, the lane is J2 modulo the lanes (its own in the first slice) and the column is that of the block of the window that J1 selects (section 3.4 of RFC 9106) |
| ReferenceLaws.AddressBlockOfRfc | external/argon2/ref.c:87-128 | a block of addresses is the block of pass, lane, slice, memory, passes, type number, counter and zeros, compressed twice with a zero block |
| ReferenceLaws.IndependentSegments | external/argon2/ref.c:113-116 | Argon2d never takes addresses from a counter, Argon2i always, Argon2id in the first two slices of the first pass |
| ReferenceLaws.NewBlockOfRfc | external/argon2/ref.c:191-208 | a new block is the compression of the cyclic predecessor and the reference block; in later passes of every version but 0x10 the block that is there is XORed over |
| CompressionLaws.CompressionOfRfc | external/argon2/ref.c:39-85 | although the rounds work in place one after the other, every row of Q is the permutation of that row of R, every column of Z that of the column of Q, and the result is R XOR Z, XOR the present block if there is an overlay (section 3.5 of RFC 9106) |
| CompressionLaws.RoundOfRfc | external/argon2/blamka-round-ref.h:44-55 | the eight calls of G act on the four columns and then on the four diagonals of the matrix of sixteen words, each on words no other call of its half touches |
| FlatMemory.OffsetsInjective | external/argon2/ref.c:142-144 | lane and column give an offset below `memory_blocks`, and different places give different offsets |
| FlatMemory.WriteAt | external/argon2/ref.c:192-194 | storing at an offset changes that place of the lanes-by-columns view and no other |
| Interleaving.NewBlockIsLocal | external/argon2/ref.c:161-207 | a new block depends only on its own lane and on other slices of the other lanes |
| Interleaving.StepKeepsRowsAsIfAlone | external/argon2/core.c:301-319 | whichever lane goes on, every lane stays as if it had been filled alone from the memory before the slice |
| Interleaving.AnyInterleavingIsSequential | external/argon2/core.c:336-404 | for every compression function and every memory, any schedule of single block steps that finishes every lane leaves the memory of the single-threaded order |
| Threads.ThreadedSliceIsSequential | external/argon2/core.c:358-403 | in every run of the create-and-join pattern with at most `lanes` threads, the memory after the last join is the sequential one and every lane's thread was joined |
| Threads.RunKeepsInvariant | external/argon2/core.c:358-403 | in every reachable state exactly the threads created and not yet joined exist, and memory is as if each lane had been filled alone |
| Threads.ThreadLimit | external/argon2/core.c:364-370 | at no time are more than `threads` threads running |
| Threads.NoDeadlock | external/argon2/core.c:358-403 | until the last join some thread or the main thread can go on |
| Threads.StepDecreasesLeft | external/argon2/core.c:358-403 | every step of every run leaves less work, so every run ends |
| Threads.ThreadedSliceOutcome | external/argon2/core.c:356-403 | a slice has an outcome under threads, and only one: that of the sequential order |
| Threads.ThreadedFillIsSequential | external/argon2/core.c:336-421 | from every memory a whole fill by threads, slice after slice, has an outcome, and only one: the memory of the single-threaded fill |
| FillMemory.FillMemoryBlocks | external/argon2/core.c:301-319 | the triple loop over passes, slices and lanes computes the defined fill from the memory it starts with |
| FillLaws.NextFinds | external/argon2/core.c:301-319 | along the segment, then the lanes, the slices and the passes, each position finds the memory that the position before it found with that one's block put in its place |
| FillLaws.FirstFinds | external/argon2/ref.c:130-140 | the first position is behind the two blocks of lane 0, or in the second slice if segments have only two, and finds the memory as it was given |
| FillLaws.LastLeaves | external/argon2/core.c:301-319 | the last position is the last block of the last lane and pass, and what it leaves is the memory after all passes |
| FillLaws.FilledIsLast | external/argon2/core.c:301-319 | that memory is the fill, with each block the new block of its position |
| Coverage.ConstructedExactlyOnce | external/argon2/ref.c:130-208 | in each pass the loops come to each block at exactly one position, except the two per lane in pass 0 that they leave alone |
| Coverage.EachBlockWrittenOnce | external/argon2/ref.c:130-208 | after each pass every block is what was constructed at its one position, from the memory as it was at that moment: nothing overwrites it later in the pass; the first two blocks of each lane survive pass 0 |
| Coverage.FirstBlocksDetermineTheFill | external/argon2/core.c:301-319 | the final memory depends on the first two blocks of every lane only: nothing unwritten is ever read |
| BlaMka.RegisterRoundRefinesRound | external/argon2/blamka-round-opt.h:170-181 | for any lane-wise register operations, G1, G2, diagonalise, G1, G2, undiagonalise on packed words is the packed result of the eight scalar G |
| BlaMka.ShufflesAgree | external/argon2/blamka-round-opt.h:107-168 | the SSE2 and SSSE3 diagonalisations are the same permutation and undiagonalise is its inverse |
| BlaMka.RegisterGIsFourGs | external/argon2/blamka-round-opt.h:65-105 | G1 then G2 performs the scalar G on the four columns at once |
| WordOps.RotiByLanes | external/argon2/blamka-round-opt.h:35-57 | byte shuffles, swapped halves, shift-and-xor and shift-and-add rotate both 64-bit words for each of the four amounts |
| WordOps.SseOpsLift | external/argon2/blamka-round-opt.h:35-63 | multiply-add, xor and rotate on registers are the scalar ones on each half, for all 64-bit words |
| WordLaws.LowProductOf | external/argon2/blamka-round-ref.h:25-30 | the product is that of the low halves: it commutes and does not see the high halves |
| WordLaws.Rotations | external/argon2/blake2-impl.h:158-162 | the shifts and the or rotate by 16, 24, 32 and 63 bits |
| FillBlockInPlace.FillBlockReference | external/argon2/ref.c:39-85 | the in-place rounds over local blocks compute the compression of previous, reference and, with xor, present block |
| FillBlockInPlace.FillBlockRegisters | external/argon2/opt.c:118-157 | the in-place register version leaves the register compression in `state` and the same words in the next block |
| FillBlock.CompressRegistersRefines | external/argon2/opt.c:118-157 | unpacked, the register compression is the scalar compression of the unpacked state |
| FillBlock.ColumnsDoubled | external/argon2/opt.c:141-145 | the registers of column round i hold exactly the words of scalar column round i |
| FillBlock.RowsDoubled | external/argon2/opt.c:147-151 | the registers of row round i hold exactly the words of scalar row round i |
| Compressions.SseSimulatesReference | external/argon2/opt.c:118-157 | on memory blocks, loading, filling and storing registers is the reference compression, with SSE2 and with SSSE3 |
| OptSegment.FillOneOpt | external/argon2/opt.c:246-300 | after every block the running `state` is the block at the next `prev_offset` |
| OptSegment.FillSegmentOpt | external/argon2/opt.c:189-303 | the filler with a running state leaves the same memory as the reference definition for every compression that the registers simulate |
| Compressions.FillSegmentSse | external/argon2/opt.c:189-303 | with SSE2 or SSSE3 registers the optimised filler leaves the memory of the scalar reference filler |
| Argon2.InitialHash | external/argon2/core.c:597-684 | the sequence of updates, with null fields skipped, amounts to the 64-byte hash of one input; what that input is, PrehashLaws states |
| PrehashLaws.PrehashLayout | external/argon2/core.c:609-684 | the input begins with lanes, output length, memory cost, time cost, version and type number in four little-endian bytes each, then come password, salt, secret and associated data, each behind its length, and nothing else |
| PrehashLaws.PrehashIsInjective | external/argon2/core.c:597-684 | two accepted contexts have the same input if and only if they agree in all of these numbers, the type and the contents of the four fields |
| PrehashLaws.LibraryStoresNumbers | external/argon2/blake2-impl.h:84-98 | with the library's words every 32-bit number takes four bytes from which it can be read back |
| PrehashLaws.FirstBlockOfRfc | external/argon2/core.c:565-595 | a first block is H' of 1024 bytes of the 72 bytes H0, column, lane |
| Argon2.FillFirstBlocks | external/argon2/core.c:565-595 | the first two blocks of every lane are H' of the prehash, column and lane number |
| Argon2.Finalize | external/argon2/core.c:181-225 | the output is H' of the xor of all lanes' last blocks |
| PrehashLaws.TagOfRfc | external/argon2/core.c:181-225 | the tag is H' of the stored last block of the column that is folded by xor from lane 0 on, over the memory filled from any that begins as it should |
| Argon2.BegunIsEnough | external/argon2/core.c:565-595 | the fill after `fill_first_blocks` does not depend on what the allocated memory held |
| Argon2.Argon2Ctx | external/argon2/argon2.c:40-102 | the result code is that of the validation; on success, filling single-threaded, the output is the tag, a function of context and type only; on failure nothing is written |
| Argon2.ThreadedTag | external/argon2/core.c:423-435 | whatever number of threads fills the memory that `fill_first_blocks` began, and however they are scheduled, finalising gives the same tag |
| Argon2Words.Argon2PrimitivesAreValid | external/argon2/core.c:71-103 | with real 64-bit words the digests are those of BLAKE2b, blocks and their 1024 bytes determine each other, and xor of blocks commutes and undoes itself |
| Argon2Words.FirstParametersWord | external/argon2/blake2b.c:119-133 | the packed parameter block enters the state as the word 0x01010000 xor key length times 256 xor digest length of section 3.3 of RFC 7693 |
| Argon2Words.LoadOfStoredBlock | external/argon2/core.c:86-103 | loading the stored bytes of a block gives the block back |
| Argon2Words.StoreOfLoadedBlock | external/argon2/core.c:86-103 | storing a block loaded from 1024 bytes gives the bytes back |
| LibraryWords.XorOfWords | external/argon2/core.c:71-79 | each word of the xor of two blocks has the exclusive or of their bits |
| LibraryWords.EightBytes | external/argon2/blake2-impl.h:64-82 | eight bytes are the number whose lower half is the first four bytes |
| LibraryWords.StoredBytesOf | external/argon2/blake2-impl.h:100-117 | byte i of a stored word are its bits 8 * i to 8 * i + 7 |
| LibraryWords.FirstRoots | external/argon2/blake2b.c:25-29 | the first four words of the initial value are the fractions of the square roots of 2, 3, 5 and 7 |
| LibraryWords.LastRoots | external/argon2/blake2b.c:29-33 | the last four are those of 11, 13, 17 and 19 |
| WordBytes.StoreOfLoad | external/argon2/blake2-impl.h:64-82 | storing a word loaded from eight bytes gives the bytes back |
| WordBytes.LoadOfStore | external/argon2/blake2-impl.h:100-117 | loading a stored 64-bit word gives the word back |
| Blake2bSpec.CounterStep | external/argon2/blake2b.c:63-69 | the two-word counter with its carry test is the 128-bit count, for every count |
| Blake2b.ParametersOfRfc | external/argon2/blake2b.c:85-103 | xoring the eight words of the parameter block changes the first word only, as section 2.5 of RFC 7693 says |
| Blake2b.State.Init | external/argon2/blake2b.c:106-133 | succeeds exactly for 1 to 64 bytes, into the unkeyed start state with nothing absorbed |
| Blake2b.State.InitKey | external/argon2/blake2b.c:135-184 | succeeds exactly for valid lengths and a key, into the keyed start state with the padded key block absorbed |
| Blake2b.State.Update | external/argon2/blake2b.c:247-289 | on a live state the data absorbed grows by the input, whatever was buffered; a finished state refuses and stays unchanged |
| Blake2b.State.Final | external/argon2/blake2b.c:291-323 | the digest is the whole-message hash of everything absorbed, and byte p of it is byte p mod 8 of word p / 8 of the last chaining value; the state is then finished, so no later call absorbs or compresses anything; a refusal changes nothing |
| Blake2bSpec.WordIsStored | external/argon2/blake2b.c:314-316 | word i of the chaining value takes the eight bytes from 8 * i on |
| HashLaws.HashOfRfc | external/argon2/blake2b.c:105-363 | the digest of any key and message comes from a row of chaining values: from the initial value with the parameters in its first word, over the blocks of key, zeros, message and zeros, byte by byte and no more than needed, each counted, the last one marked, to the leading bytes of the last value (section 3.3 of RFC 7693) |
| Blake2b.SameDataSameState | external/argon2/blake2b.c:247-289 | two states that absorbed the same data from the same start agree in chaining value, counter and buffer, however the data was cut |
| Blake2bSpec.FinishedGivesHash | external/argon2/blake2b.c:309-318 | compressing lazily and padding the held-back rest gives the digest of section 3.3 of RFC 7693 |
| Blake2bSpec.HeldBack | external/argon2/blake2b.c:268-283 | the number of blocks compressed early is one less than the number of blocks of the padded message |
| Blake2bLong.HashOnce | external/argon2/blake2b.c:325-363 | the one-call hash succeeds exactly for valid arguments and gives the definition of section 3.3 of RFC 7693 |
| Blake2bLong.LastDigestLength | external/argon2/blake2b.c:410-429 | for more than 64 bytes the last digest has between 33 and 64 bytes |
| Blake2bLong.HashLong | external/argon2/blake2b.c:366-435 | for every length from 1 to 2^32 - 1 the loop fills the output with H' as section 3.3 of RFC 9106 defines it recursively; other lengths are refused |
| HashLaws.LongHashOfRfc | external/argon2/blake2b.c:387-429 | above 64 bytes H' consists of the first 32 bytes of each of a row of digests, each the digest of the one before, and a last digest of the 33 to 64 bytes missing |
| Base64Chars.ByteToCharIsLetter | external/argon2/encoding.c:83-89 | the masked comparisons give the letter of the standard alphabet for each of the 64 values |
| Base64Chars.CharToByteIsValue | external/argon2/encoding.c:95-104 | for every non-negative character the masks give its value or 0xFF; every negative one gives 63 |
| Base64Chars.C64ReadsByTable | external/argon2/encoding.c:74-104 | the alphabet the macros compute is the table of RFC 4648, except that negative characters are read as 63 |
| Base64Chars.ValidByTable | external/argon2/encoding.c:74-104 | the two conversions of that table are inverse on the 64 values |
| LibraryStrings.AcceptedIsEncodingIff | external/argon2/encoding.c:169-212 | with the alphabet the macros compute, an accepted text is the encoding of what it decodes to if and only if none of its characters is negative |
| LibraryStrings.NegativeCharacterIsAccepted | external/argon2/encoding.c:95-104 | with the alphabet the macros compute, a negative character followed by `w` decodes to the byte 0xFF and is not its encoding |
| Base64.ToBase64 | external/argon2/encoding.c:114-154 | succeeds exactly when text and terminator fit, and then writes the padded-with-zero-bits encoding in spite of the wrapping accumulator; otherwise writes nothing |
| Base64.FromBase64 | external/argon2/encoding.c:169-212 | takes the longest run of base64 characters, returns the one byte string it means, and refuses exactly when there is none that fits |
| Base64.EncodingReadsBack | external/argon2/encoding.c:114-212 | an encoding embedded anywhere before a foreign character is the run taken there, and means the encoded bytes and no others |
| Base64.EncodingUnique | external/argon2/encoding.c:114-154 | a byte string has one encoding only |
| Base64.MeaningUnique | external/argon2/encoding.c:169-212 | a text means at most one byte string |
| Base64.AcceptedIsEncoding | external/argon2/encoding.c:169-212 | for any alphabet, an accepted text is the encoding of its meaning if and only if all its characters are canonical |
| Base64.EncodedLengthIsCeiling | external/argon2/encoding.c:457-471 | the length computed by cases is the least number of characters that hold the bits |
| Decimals.DecodeDecimal | external/argon2/encoding.c:221-251 | accepts exactly the minimal decimals of numbers up to `ULONG_MAX`, with the value and the end of the digits |
| Decimals.NumLen | external/argon2/encoding.c:473-481 | the division loop counts the digits of the decimal |
| Decimals.DecimalIsMinimal | external/argon2/encoding.c:405-410 | the decimal printed has no extra zero and reads back as the number |
| Decimals.MinimalIsDecimal | external/argon2/encoding.c:221-251 | every minimal digit text is the decimal of its value |
| EncodedStrings.Unambiguous | external/argon2/encoding.c:253-386 | a string has at most one reading: type, optional version, costs, salt and hash |
| StringDecoder.DecodeString | external/argon2/encoding.c:273-386 | succeeds exactly on a string of the grammar whose fields fit the buffers and whose filled context validates, and fills in its reading; the code returned for a readable string is that of the validation |
| StringLaws.AcceptedSays | external/argon2/encoding.c:273-386 | an accepted string reads, character by character, as the type, an optional version, the three costs, salt and hash that it fills in; threads are as many as lanes, nothing else is set, and without a version it is 0x10 |
| StringEncoder.EncodeString | external/argon2/encoding.c:388-455 | succeeds exactly when the context validates and the whole string with its terminator fits, and then the buffer holds exactly that string |
| StringLaws.EncodedSays | external/argon2/encoding.c:388-455 | the string of a context written out in one line: type, version, memory, time, lanes, salt, hash |
| StringEncoder.EncodedStringLength | external/argon2/encoding.c:388-455 | the length of the encoded string, field by field |
| StringEncoder.Argon2EncodedLen | external/argon2/argon2.c:604-618 | the sum returned is the length of the fixed text, the decimals, the two base64 fields and the terminator |
| EncodedRoundTrip.EncodedIsAccepted | external/argon2/encoding.c:273-455 | the encoding of a valid context decodes, into buffers large enough, to its type, version, costs, lanes, salt and hash |
| EncodedRoundTrip.AcceptedIsEncodedIff | external/argon2/encoding.c:273-455 | an accepted string is the encoding of the context it fills if and only if it states its version and its base64 fields are canonical |
| LibraryStrings.AcceptedReencodesIff | external/argon2/encoding.c:273-455 | the same condition as a caller can test it, with the alphabet the macros compute: an explicit version and no negative character in either field |
| LibraryStrings.AcceptedUnderOneType | external/argon2/encoding.c:273-386 | with the alphabet the macros compute, no string is accepted under two types, or with two readings |
| LibraryStrings.C64IsSuitable | external/argon2/encoding.c:74-104 | the alphabet the macros compute meets what the round trips demand of one: it reads by the table, has no separator in it, and only its negative characters stray |
| EncodedRoundTrip.EncodedLenIsExact | external/argon2/argon2.c:604-618 | string plus terminator is exactly `argon2_encodedlen` for versions 0x10 and 0x13, and differs by the digits of the version beyond two otherwise |
| EncodedRoundTrip.Print | external/argon2/argon2.c:604-618 | for versions 0x10 and 0x13 a valid context is printed exactly if the buffer has at least the characters that `argon2_encodedlen` predicts, and string and terminator have exactly that length |
| LibraryStrings.PrintAndRead | external/argon2/encoding.c:273-455 | with the alphabet the macros compute, a valid context printed into a buffer of the predicted length reads back as the same version, costs, lanes, salt and hash |
| StateMachineRuns.RunKeepsInvariant | src/core/StateMachine.cpp:24-101 | in every interleaving of Trigger, Stop, Wait, the workers and the destructor the invariant on lock, flags, promises and threads holds |
| StateMachineCalls.TriggerLeavesWorker | src/core/StateMachine.cpp:71-92 | in every run, whoever returns from Trigger leaves a worker that still has `running_`, unless the machine is shutting down |
| StateMachineCalls.StartedIsCalled | src/core/StateMachine.cpp:30-35 | in every run, a worker that is past its start has called the callback |
| StateMachineCalls.AskedIsCalledAgain | src/core/StateMachine.cpp:34-38 | in every run, if the callback returned true and the machine is not shutting down, the worker has called it again as soon as it is past that |
| StateMachineCalls.RefusalIsFinal | src/core/StateMachine.cpp:34-45 | in every run, once the callback has returned false this worker never calls it again |
| StateMachineRuns.OneCallback | src/core/StateMachine.cpp:30-45 | never two workers inside the callback |
| StateMachineRuns.PromisesSetOnce | src/core/StateMachine.cpp:24-56 | the stop promise and every wait promise are set at most once, and none is replaced while a future of it is pending |
| StateMachineRuns.WaitFutures | src/core/StateMachine.cpp:94-101 | a client leaving Wait gets a pending future if a worker has `running_` and a ready one if nobody has |
| StateMachineRuns.NobodyWaitsWhenIdle | src/core/StateMachine.hpp:54-60 | whenever `running_` has been given back and the lock is free, every wait future ever handed out is ready |
| StateMachineRuns.OneLateStart | src/core/StateMachine.cpp:34-38 | after `shutdown_` is set the callback starts at most once more |
| StateMachineRuns.StoppedForGood | src/core/StateMachine.cpp:58-69 | once the stop future is ready no callback runs and none starts, in the rest of every run |
| StateMachineRuns.JoinNeverDeadlocks | src/core/StateMachine.cpp:71-85 | where `trigger` waits in join with the lock held, the thread it waits for has let go of the lock and can end |
| StateMachineRuns.NoDeadlock | src/core/StateMachine.cpp:24-101 | whenever a client, a worker or the destructor has something left to do, one of them can |
| StateMachineRuns.ShutdownTerminates | src/core/StateMachine.cpp:30-45 | after shutdown every step other than a new call lowers a rank, so the machine comes to rest |
| StateMachineRuns.ShutdownEndsStopped | src/core/StateMachine.cpp:30-69 | at rest after shutdown the stop future is ready, the last thread is over and no wait future is pending |
| StateMachineRuns.DestroyedIsStopped | src/core/StateMachine.hpp:67-72 | when the destructor is done the stop promise is set and every thread is over and joined |
| StateMachineAlone.TriggerAlone | src/core/StateMachine.cpp:71-92 | undisturbed and on a machine at rest, Trigger ends with a new worker before its callback, `running_` set and a new pending wait future, all else unchanged |
| StateMachineAlone.TriggerInVain | src/core/StateMachine.cpp:71-77 | with a worker that has `running_`, or after shutdown, Trigger changes nothing |
| StateMachineAlone.WaitAlone | src/core/StateMachine.cpp:94-101 | undisturbed and on a machine at rest, Wait hands out a ready future |
| StateMachineAlone.WaitWhileRunning | src/core/StateMachine.cpp:94-101 | with a worker that has `running_`, Wait hands out the future there is |
| StateMachineAlone.StopAlone | src/core/StateMachine.cpp:58-69 | undisturbed and on a machine at rest, Stop shuts down and makes the stop future ready |
| StateMachineAlone.StopWhileRunning | src/core/StateMachine.cpp:58-69 | with a worker that has `running_`, Stop only tells it to shut down |
| StateMachineAlone.WorkerGoesOn | src/core/StateMachine.cpp:34-38 | an undisturbed worker whose callback returns true calls it again and again |
| StateMachineAlone.WorkerEnds | src/core/StateMachine.cpp:30-45 | an undisturbed worker whose callback returns false, or that finds the machine shutting down, calls it once, gives `running_` back, makes the wait future ready and ends; on shutdown it makes the stop future ready too |
| StateMachineAlone.DestructorAlone | src/core/StateMachine.hpp:67-72 | destroying a machine at rest stops it and joins its last thread |
| StateMachineAlone.DestructorAfterStop | src/core/StateMachine.hpp:67-72 | after a Stop that is over, destroying only joins |
| WorkerSignals.OneSignalOnTheWay | src/core/Worker.hpp:62-82 | in every run, signals pending plus callers about to push plus a worker about to reset are one if the flag is set and none otherwise |
| WorkerSignals.TriggerIsNotLost | src/core/Worker.hpp:62-82 | after a trigger taken while running, a later call of `state_machine()` has begun, or is next, or its signal is on the way |
| WorkerSignals.TriggerIsFollowedAtRest | src/core/Worker.hpp:62-82 | when the pipeline is empty and idle again, a call that began after the trigger has been made |
| WorkerSignals.TriggerIsFollowed | src/core/Worker.hpp:62-82 | in every infinite run that is fair to the pushing callers and to the pipeline thread, a trigger made while running is followed by a call of `state_machine()` that begins after it |
| WorkerSignals.CallApproaches | src/core/Worker.hpp:77-82 | no step of anyone takes the owed call further away, and the same thread stays the one that can bring it nearer |
| WorkerSignals.HelpfulHelps | src/core/Worker.hpp:143-148 | the next step of the caller or of the pipeline thread is enabled and brings the owed call nearer |
| WorkerAgain.TriggerAlone | src/core/Worker.hpp:62-71 | an undisturbed trigger queues one signal if the worker runs and none is queued, and otherwise leaves everything as it was |
| WorkerAgain.TurnRepeats | src/core/Worker.hpp:143-148 | after a call that returned true, an undisturbed pipeline thread queues one more signal, unless one is queued or the worker is closed |
| WorkerAgain.AskedIsCalledAgain | src/core/Worker.hpp:77-82 | in every infinite fair run, a call of `state_machine()` that returned true while the worker stays open is followed by another |
| WorkerAgain.FairRunExists | src/core/Worker.hpp:62-82 | the premises of the liveness theorems can be met together: there is an infinite fair run with a trigger and its call |
| WorkerAgain.ClosedEnds | src/core/Worker.hpp:62-71 | a closed worker stays closed, and no more calls follow than there were callers past their look at `running_` and signals under way |
| BitStream.BitWriter.Write | src/blockchain/Blockchain.cpp:178-257 | for widths below 64 exactly the low bits of the value are appended to the bits written, with fewer than 8 pending afterwards |
| BitStream.BitWriter.Flush | src/blockchain/Blockchain.cpp:158-176 | the output holds the bits written and zeros up to the next byte |
| BitStream.BitReader.Read | src/blockchain/Blockchain.cpp:69-148 | for widths below 32 the next bits are taken from what remains; with too few left the result is 0 and nothing remains |
| BitStream.BitReader.EofMeansEmpty | src/blockchain/Blockchain.cpp:67 | end of file is reported exactly when no bit remains |
| BitStreamRoundTrip.WriteAll | src/blockchain/Blockchain.cpp:158-257 | writing any list of widths and values and flushing gives the concatenated bits in exactly the least number of bytes |
| BitStreamRoundTrip.RoundTrip | src/blockchain/Blockchain.cpp:58-257 | reading the widths back returns every value modulo 2 to the power of its width |
| BitOps.AndMask | src/blockchain/Blockchain.cpp:40-45 | masking with (1 << n) - 1 keeps the low n bits, that is, the remainder by 2 to the power n |
| Heapsort.HeapSink | external/irrxml/heapsort.hpp:17-36 | sinking restores the heap below an element, permutes, and leaves the rest of the array alone |
| Heapsort.RootIsLargest | external/irrxml/heapsort.hpp:59-64 | the root of a heap is at least every element |
| Heapsort.HeapSort | external/irrxml/heapsort.hpp:41-65 | the first `size` elements become a sorted permutation of themselves and the others stay |
| IrrArray.GrowingArray.Reallocate | external/irrxml/irrArray.hpp:63-78 | contents are kept up to the new size, and a true sortedness flag stays true of them |
| IrrArray.GrowingArray.PushBack | external/irrxml/irrArray.hpp:83-102 | the element is appended and the flag cleared |
| IrrArray.GrowingArray.PushFront | external/irrxml/irrArray.hpp:109-120 | the element is put in front and the flag cleared |
| IrrArray.GrowingArray.Insert | external/irrxml/irrArray.hpp:128-140 | the element is put at its place, the others move up, and the flag is cleared |
| IrrArray.GrowingArray.Clear | external/irrxml/irrArray.hpp:146-153 | the array is empty and marked sorted |
| IrrArray.GrowingArray.Erase | external/irrxml/irrArray.hpp:396-419 | the range is cut out and the flag, unchanged, stays true of what is left |
| IrrArray.GrowingArray.Sort | external/irrxml/irrArray.hpp:298-305 | the contents become a sorted permutation, whether or not the flag let the work be skipped |
| IrrArray.GrowingArray.LinearSearch | external/irrxml/irrArray.hpp:367-374 | an equivalent element is found exactly when there is one |
| IrrArray.GrowingArray.BinarySearchIn | external/irrxml/irrArray.hpp:330-359 | after sorting, a range is searched correctly in both directions |
| IrrArray.GrowingArray.BinarySearch | external/irrxml/irrArray.hpp:315-328 | over the whole array a match is found exactly when the contents before the call have one |
| KeySelection.CalculateSolutions | src/crypto/Envelope.cpp:222-250 | the table holds every non-empty supported set of keys, once, under its own weight |
| KeySelection.WeightDetermines | src/crypto/Envelope.cpp:115-119 | the weights 1, 2 and 4 make the weight of a sorted key list determine the list |
| KeySelection.IntersectionCovers | src/crypto/Envelope.cpp:567-591 | the size test on the sorted intersection holds exactly when one list is contained in the other |
| KeySelection.TestSolution | src/crypto/Envelope.cpp:567-591 | a solution passes exactly when it has every key of every credential and no list is empty; then every credential has an entry, and every entry is the first key of a credential with its two ids |
| KeySelection.MappedToOwnKey | src/crypto/Envelope.cpp:567-591 | if no two credentials share both ids, each is mapped to its own first key |
| KeySelection.AcceptsIsCovers | src/crypto/Envelope.cpp:567-591 | passing means containing the union of all required keys with no credential empty |
| KeySelection.FindSolution | src/crypto/Envelope.cpp:279-294 | the result is empty exactly when a recipient has no credentials, a credential has no keys, the union of required keys is not supported, or nothing is supported; otherwise it covers all required keys, no lighter supported set does, and the map is that of a passing test |
| KeySelection.LightestIsRequired | src/crypto/Envelope.cpp:279-294 | for at least one recipient the solution found is exactly the union of all required keys |
| KeySelection.Solve | src/crypto/Envelope.cpp:93-120 | with the key types the library was built for, the result is the sorted list of exactly the required keys with each credential mapped to its own first key, and it is empty exactly when a recipient or credential is empty or a required type is not built in |

## Left out

- The failure path of `fill_memory_blocks_mt`, allocation, and wiping of memory: the schedule is modelled, the thread library is not. (In this tree the threaded variant names identifiers that are not declared; its schedule is nevertheless clear.)
- The AVX2, AVX-512 and XOP variants of the round: the same argument with wider registers.
- The compression function of BLAKE2b is a parameter; cryptographic strength of any kind is not stated.
- Clearing of password and secret after hashing (`ARGON2_FLAG_CLEAR_PASSWORD` and its sibling), and the other wrappers of `argon2.c` around `argon2_ctx`.
- `last_node` and the second finalisation word of BLAKE2b, which nothing here sets.
- Platforms with 32-bit pointers or a 32-bit `unsigned long`; `ARGON2_MAX_MEMORY` is taken to be 2^32 - 1.
- Strings are sequences without the terminating zero character; a zero inside a string cannot occur in the source and is not excluded in the model.
- LibraryStrings.AcceptedReencodesIff: strings without `$v=` decode as version 0x10 and are encoded with an explicit version, so they never re-encode to themselves; the lemma says so.
- Memory blocks are sequences of 128 numbers below 2^64 and memory is an array of such values: pointers into a block and aliasing between two blocks are not modelled. Where the source compresses a block into itself, no xor is involved.
- Blake2bLong.HashLong: a null output with a length above 64 is outside the model, since the source then copies to it.
- OptSegment.FillSegmentOpt: the temporary zero registers of `next_addresses` are modelled as a compression from a zero block.
- The state machine's callback is any function that returns true or false; exceptions and the callback calling back into its own machine are not modelled. That every true Trigger is followed by a callback is not stated, because the code does not give it: a worker may have seen false from the callback and not yet taken the lock. What holds of every Trigger is `StateMachineCalls.TriggerLeavesWorker`.
- The worker's pipeline is a counter of signals; closing the pipeline, rate limiting and other messages are not modelled.
- BitStream.BitReader.Read: widths of 32 and more are not modelled, and of a short read only that it gives 0 and leaves nothing.
- BitStream.BitWriter.Write: a width of 64 is not modelled, since the source shifts by the width.
- Array sizes are unbounded; the signed and unsigned 32-bit counters of the array class are not modelled. Neither are `set_used`, `set_pointer`, `set_sorted`, copying, the non-constant index operator (these bypass the flag by design) and `linear_reverse_search`.
- IrrArray.GrowingArray.Insert: elements are values, so an element that is a reference into the array itself is not modelled.
- KeySelection.FindSolution: that the key lists are sorted without duplicates, as `Authority::EncryptionTargets` builds them, is a premise. With no recipients at all the lightest set is returned.
- What `seal`, `get_dh_key` and `attach_session_keys` do with a solution, and everything else in the repository: protobuf, sockets, storage and user-facing layers.
