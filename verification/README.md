# Verified models of the codec, the modem tools and the configuration reader

A Dafny 4.11 project beside the repository.  It models the parts whose correctness is not visible from
one function body, and proves for all inputs, all runs or all reachable states what they are for.

* **FIFO** (`Fifo`, `FifoProtocol`, `FifoCompletion`): the ring buffer as a queue, and as a protocol between one
  writer and one reader thread in which every pointer load, sample copy and publication is a step of its own.
* **Golay code** (`Bits`, `FiniteSets`, `GolayAlgebra`, `Combinations`, `Golay`): table construction, encoding and
  decoding of the (23,12) code, from polynomial algebra up to correction of every pattern of three errors.
* **Modem tools** (`BitPacking`, `Interleaver`, `Acquisition`, `Complex`, `Dqpsk`, `Modem`, `ModemLink`):
  the interleaver and its inverse, the sync state machines, and a file sent from tool to tool over a channel.
* **FFT** (`RootsOfUnity`, `FourierTransform`, `Butterflies`, `FftStages`, `KissFft`, `FftFactors`, `Fft`):
  the mixed-radix kiss_fft equals the discrete Fourier transform for every length, and the inverse undoes it.
* **Fixed point** (`FixedPoint`, `FixedButterflies`, `FixedCircle`, `FixedAccuracy`): range and error bounds of
  the Qn macros, exactly when the radix-2 butterfly overflows, which butterflies keep samples inside a circle,
  and how close they come to the exact transform.
* **Configuration reader** (`ConfigText`, `ConfigReader`): the in-place parser refines a pure lookup that
  undoes a printer.
* **Codec frames** (`FieldPacking`, `FrameLayout`, `SpeechWindow`): Gray-coded fields, the six bit layouts,
  the spare bit and the analysis window.
* **Amplitude quantisers** (`VectorQuantiser`, `AmplitudeMemory`): searches, optimal gain, residual
  conservation and the three-frame memory.
* **Codebook odometer** (`Odometer`) and **bit error injector** (`ErrorInjector`).

`dafny verify dfyconfig.toml` checks everything.  Code that updates buffers or fields in place is modelled
by methods over arrays and classes, each tied to a specification function whose properties are lemmas.

Conventions.  C integers are mathematical integers with their ranges written out where they matter
(`FixedPoint`, `FifoQueue.UsedOf`, the 8-bit stores of `FieldPacking`, the 23-bit words of `Golay`).
`float` is `real`.  Random draws, file contents, what libm returns and what uninitialised memory holds
are parameters.

Where the code and its comments differ, the model follows the code:

* `golay23_decode` is described as returning 12 data bits; it returns the corrected 23-bit codeword.
* `pack.c` speaks of fields of at most 8 bits; its decoding is right for exactly the values below 2^16.
* `file_getprop` promises "" for an undefined key; a file without any line makes the code follow a null
  pointer, which the model returns as an outcome of its own.
* The spare-bit index of mode 1600 is 15; the third voicing bit is at 14.
* `c2dec` counts a bit error for a bit number from -7 to -1, which its start-bit argument allows, although
  the mask is then 0 and no bit changes.
* The gain in `gain_shape_vq_amp` ignores the weights its error metric uses.

## Model

| member | source | states |
|---|---|---|
| `FifoQueue.UsedIsDistanceModulo` | app/src/main/jni/codec2/fifo.c:128-141 | the unsigned wrap-around of fifo_used computes (pin - pout) modulo the buffer size, for every pair of in-range pointers |
| `FifoQueue.Fifo.constructor` | app/src/main/jni/codec2/fifo.c:44-57 | a new FIFO is an empty queue of capacity nshort - 1 |
| `FifoQueue.Fifo.Used` | app/src/main/jni/codec2/fifo.c:128-141 | returns the length of the queue the ring stands for |
| `FifoQueue.Fifo.Write` | app/src/main/jni/codec2/fifo.c:65-97 | succeeds if and only if n samples fit and then appends exactly them; on failure, and for n <= 0, nothing changes |
| `FifoQueue.Fifo.Read` | app/src/main/jni/codec2/fifo.c:99-126 | succeeds if and only if n samples are queued, then removes that prefix and copies it out; otherwise nothing changes |
| `FifoQueue.QueueConserves` | app/src/main/jni/codec2/fifo.c:65-126 | over any sequence of calls, accepted or refused, what was accepted is what was delivered followed by what is queued |
| `FifoQueue.ChunkingIrrelevant` | app/src/main/jni/codec2/fifo.c:65-126 | splitting a write or a read that would succeed into two leaves the same queue and the same stream |
| `FifoProtocol.StepKeepsInv` | app/src/main/jni/codec2/fifo.c:65-126 | every single step of either thread (load a pointer, copy one sample, publish a pointer, start a call) keeps the protocol invariant |
| `FifoProtocol.RunKeepsInv` | app/src/main/jni/codec2/fifo.c:65-126 | the invariant holds after every interleaving of any length |
| `FifoProtocol.ReaderSeesPrefixOfWrites` | app/src/main/jni/codec2/fifo.c:65-126 | in every interleaving the samples the reader holds are a prefix of the samples the writer has published: none lost, duplicated, reordered or read early |
| `FifoProtocol.WriterNeverTouchesUnread` | app/src/main/jni/codec2/fifo.c:69-93 | in every reachable state one slot is free and the slots the writer may store into are disjoint from the published unread ones |
| `FifoProtocol.StaleViewsAreConservative` | app/src/main/jni/codec2/fifo.c:103-141 | however old the loaded pointer is, the writer never sees more room and the reader never more data than there is |
| `FifoProtocol.OccupancyIsExactWhenLoaded` | app/src/main/jni/codec2/fifo.c:128-141 | the occupancy a thread computes is the true one at the moment it loads the other thread's pointer |
| `FifoProtocol.StepRefinesQueue` | app/src/main/jni/codec2/fifo.c:65-126 | each step is one call on the sequential queue with the answer the queue gives, or invisible to it |
| `FifoProtocol.RunsAreLinearisable` | app/src/main/jni/codec2/fifo.c:65-126 | every concurrent run is a sequential run of the queue: accepted calls placed at their publication and refused ones at their pointer load get the same answers and leave the same queue |
| `FifoProtocol.ReturnsMatchEffects` | app/src/main/jni/codec2/fifo.c:73-124 | in every run each thread's calls return exactly those answers, in order; at most its last refusal is still on the way back |
| `FifoCompletion.EveryCallAnswered` | app/src/main/jni/codec2/fifo.c:65-126 | in every run the calls a thread started are exactly those answered, in order, followed by the one in progress |
| `FifoCompletion.WriteCompletes` | app/src/main/jni/codec2/fifo.c:65-97 | a call of fifo_write has returned after 4 + n writer steps, whatever the reader does in between: 0 with its n samples committed if they fitted when pout was loaded, otherwise -1 with nothing committed |
| `FifoCompletion.ReadCompletes` | app/src/main/jni/codec2/fifo.c:99-126 | a call of fifo_read has returned after 4 + n reader steps, whatever the writer does in between: 0 with the oldest n undelivered samples if they were there when pin was loaded, otherwise -1 with nothing delivered |
| `GolayAlgebra.Division` | app/src/main/jni/codec2/golay23.c:134-154 | division by the generator polynomial: p = quotient times generator plus remainder, over GF(2) |
| `GolayAlgebra.RemXor` | app/src/main/jni/codec2/golay23.c:134-154 | the syndrome is linear |
| `GolayAlgebra.CodewordIffNoRemainder` | app/src/main/jni/codec2/golay23.c:134-154 | a 23-bit word is a multiple of the generator if and only if its syndrome is zero |
| `GolayAlgebra.TimesBit` | app/src/main/jni/codec2/golay23.c:67-70 | every bit of a multiple of 0xc75 is the parity of seven bits of the multiplier |
| `GolayAlgebra.MinimumWeight` | app/src/main/jni/codec2/golay23.c:19-33 | every non-zero multiple of the generator by twelve coefficients has at least seven ones |
| `GolayAlgebra.MinimumDistance` | app/src/main/jni/codec2/golay23.c:19-33 | any two different codewords differ in at least seven bits |
| `GolayAlgebra.LightPatternsSeparated` | app/src/main/jni/codec2/golay23.c:19-33 | two patterns of at most three errors with the same syndrome are equal |
| `Combinations.AdvancedRank` | app/src/main/jni/codec2/golay23.c:116-132 | the combination nextcomb produces has the next rank in lexicographic order |
| `Combinations.RankInjective` | app/src/main/jni/codec2/golay23.c:116-132 | two combinations of equal rank are equal |
| `Combinations.RankOfLast` | app/src/main/jni/codec2/golay23.c:116-132 | the last combination has rank C(n, k) - 1 |
| `Combinations.NextComb` | app/src/main/jni/codec2/golay23.c:116-132 | in place, any combination but the last becomes its successor |
| `Golay.Arr2Int` | app/src/main/jni/codec2/golay23.c:97-114 | the word with ones exactly at the listed positions |
| `Golay.GetSyndrome` | app/src/main/jni/codec2/golay23.c:134-154 | the shift-and-xor loop computes the remainder modulo the generator, for every 23-bit word |
| `Golay.StoreKeepsFilled` | app/src/main/jni/codec2/golay23.c:201-229 | storing a new pattern under its syndrome overwrites no earlier pattern |
| `Golay.FilledIsComplete` | app/src/main/jni/codec2/golay23.c:19-33 | the code is perfect: the 2048 stored patterns use up all 2048 syndromes |
| `Golay.Golay23.FillEncodingTable` | app/src/main/jni/codec2/golay23.c:184-187 | every entry is the systematic codeword of its index |
| `Golay.Golay23.FillDecodingTable` | app/src/main/jni/codec2/golay23.c:201-229 | every syndrome gets the one pattern of at most three errors that has it; the fixed loop counts 253 and 1771 visit every combination once |
| `Golay.Golay23.Init` | app/src/main/jni/codec2/golay23.c:166-232 | both tables are complete and correct |
| `Golay.Golay23.Encode` | app/src/main/jni/codec2/golay23.c:245-251 | the result is a codeword whose top twelve bits are the data |
| `Golay.Golay23.Decode` | app/src/main/jni/codec2/golay23.c:263-268 | every 23-bit word decodes to a codeword within distance three, and no other codeword is that near |
| `Golay.CountErrors` | app/src/main/jni/codec2/golay23.c:270-283 | returns the Hamming distance of the two words |
| `Golay.EncodedIsCodeword` | app/src/main/jni/codec2/golay23.c:184-187 | encoding gives a multiple of the generator that carries the data in its top bits |
| `Golay.CodewordsAreEncodings` | app/src/main/jni/codec2/golay23.c:245-251 | conversely every codeword is the encoding of its top twelve bits |
| `Golay.CorrectsThreeErrors` | app/src/main/jni/codec2/golay23.c:287-316 | for every data word and every pattern of at most three bit errors, decoding restores the codeword |
| `Golay.PatternCountIsChoose` | app/src/main/jni/codec2/golay23.c:214-225 | the loop counts of the table fill are the binomial coefficients |
| `BitPacking.UnpackedPacked` | app/src/main/jni/codec2/fdmdv_interleave.c:115-145 | unpacking after packing is the identity on bits |
| `BitPacking.PackedUnpacked` | app/src/main/jni/codec2/fdmdv_interleave.c:115-145 | packing after unpacking is the identity on bytes |
| `BitPacking.UnpackBits` | app/src/main/jni/codec2/fdmdv_interleave.c:115-126 | the loop yields the bits of all bytes, most significant first |
| `BitPacking.PackBits` | app/src/main/jni/codec2/fdmdv_interleave.c:133-145 | the or-ing loop yields the bytes with those bits, whatever the buffer held before |
| `Interleaver.Pigeonhole` | app/src/main/jni/codec2/fdmdv_interleave.c:83-98 | a table of m distinct entries below m leaves no position out |
| `Interleaver.Load` | app/src/main/jni/codec2/fdmdv_interleave.c:83-98 | the plain load keeps the table, the scattered load stores its inverse; tables that are too long are refused |
| `Interleaver.ProcessBlock` | app/src/main/jni/codec2/fdmdv_interleave.c:112-147 | in place, bit i of the block becomes what bit interleaver[i] was, for every i |
| `Interleaver.ProcessBits` | app/src/main/jni/codec2/fdmdv_interleave.c:112-147 | the same law for the specification of a whole file |
| `Interleaver.BlockBack` | app/src/main/jni/codec2/fdmdv_interleave.c:112-147 | the inverse table undoes a block |
| `Interleaver.Run` | app/src/main/jni/codec2/fdmdv_interleave.c:112-147 | bit k of the output is bit interleaver[k mod m] of the same block of the file, for every k; exactly a trailing partial block is dropped |
| `Interleaver.ProcessBack` | app/src/main/jni/codec2/fdmdv_interleave.c:112-147 | over any number of blocks, the inverse table restores every byte |
| `Interleaver.RoundTrip` | app/src/main/jni/codec2/fdmdv_interleave.c:83-147 | running the tool without and then with the fourth argument restores every whole block of every file, for every permutation table |
| `Acquisition.FreqState.Update` | app/src/main/jni/codec2/fdmdv.c:1198-1259 | one step of freq_state refines the transition function on (state, timer, sync memory) |
| `Acquisition.ReliableIffUniqueWord` | app/src/main/jni/codec2/fdmdv.c:1204-1213 | the correlation reaches its maximum if and only if the memory is the unique word, so the newest pilot bit is 1 |
| `Acquisition.TentativeCountsStreak` | app/src/main/jni/codec2/fdmdv.c:1217-1233 | while acquiring, the timer counts the current streak of unique words |
| `Acquisition.GoodSyncIff26` | app/src/main/jni/codec2/fdmdv.c:1217-1233 | good sync is reached in a run if and only if 26 unique words arrive in a row |
| `Acquisition.FadeCountsStreak` | app/src/main/jni/codec2/fdmdv.c:1234-1248 | while holding, the timer counts the current streak of misses |
| `Acquisition.SyncLostIff51` | app/src/main/jni/codec2/fdmdv.c:1234-1248 | good sync is lost in a run if and only if 51 unique words in a row are missed |
| `Acquisition.GoodSyncAfter32` | app/src/main/jni/codec2/fdmdv.c:1198-1259 | on an alternating pilot the machine is in good sync after 32 frames and every later one, from any state with timers in range and any memory |
| `Dqpsk.TxSymbolTurns` | app/src/main/jni/codec2/fdmdv.c:340-359 | each dibit turns the previous symbol by its own multiple of a quarter turn, in both mappings |
| `Dqpsk.ChannelCancels` | app/src/main/jni/codec2/fdmdv.c:1014-1017 | a complex channel gain leaves the phase difference a positive multiple of the transmitted turn |
| `Dqpsk.DibitRecovered` | app/src/main/jni/codec2/fdmdv.c:1014-1045 | for every non-zero gain and symbol, both mappings and all four dibits, the decision returns the dibit sent |
| `Dqpsk.PilotRecovered` | app/src/main/jni/codec2/fdmdv.c:1049-1058 | the pilot decision returns the pilot bit sent |
| `Modem.AlignedPairs` | app/src/main/jni/codec2/fdmdv_demod.c:181-208 | from a clear sync flag, with reliable bits only on second halves, the receiver emits exactly the pairs, in order |
| `Modem.ResyncAfterReliable` | app/src/main/jni/codec2/fdmdv_demod.c:181-208 | from any state, once a reliable frame has arrived and later reliable bits keep its parity, what follows is exactly the pairs after it |
| `Modem.FramesAccounted` | app/src/main/jni/codec2/fdmdv_demod.c:181-208 | in every run, emitted = stored + initial sync - final sync + reliable bits that came with sync clear |
| `Modem.OneFrame` | app/src/main/jni/codec2/fdmdv_demod.c:181-208 | in any run a frame that comes with sync set or is reliable, also when a first half is expected, sends out the stored half and itself, and any other frame is stored |
| `Modem.Demodulator.Receive` | app/src/main/jni/codec2/fdmdv_demod.c:181-208 | one pass of the loop: the bits written are the stored half and the new frame if sync was set or the frame is reliable, and otherwise nothing is written and the frame stored; it refines the pairing function |
| `Modem.HalvesRestoreFile` | app/src/main/jni/codec2/fdmdv_mod.c:105-127 | joining and packing the half frames of any file gives its whole codec frames back |
| `Modem.DemodulationUndoesModulation` | app/src/main/jni/codec2/fdmdv_demod.c:181-208 | demodulating what was modulated gives every whole codec frame back, for any number of frames |
| `Modem.ModulateFrame` | app/src/main/jni/codec2/fdmdv_mod.c:105-127 | a codec frame is unpacked and split into two modem frames of equal length, in order |
| `ModemLink.BitsToSymbols` | app/src/main/jni/codec2/fdmdv.c:332-373 | the carrier loop refines the per-carrier differential mapping and toggles the pilot |
| `ModemLink.SymbolsToBits` | app/src/main/jni/codec2/fdmdv.c:997-1067 | the carrier loops refine the per-carrier decisions and the sync decision |
| `ModemLink.FrameRecovered` | app/src/main/jni/codec2/fdmdv.c:997-1067 | a frame whose carriers and pilot arrive with constant non-zero gains, one per carrier, is received bit for bit, with its pilot bit |
| `ModemLink.Tracking` | app/src/main/jni/codec2/fdmdv.c:1316-1323 | with one constant non-zero gain per carrier, over any number of frames the receiver sees the frames sent and the alternating pilot in its sync memory |
| `ModemLink.SixPilotsLock` | app/src/main/jni/codec2/fdmdv.c:1198-1213 | six received pilots are enough for a reliable sync bit, whatever the memory held |
| `ModemLink.LateJoin` | app/src/main/jni/codec2/fdmdv.c:1316-1323 | with one constant non-zero gain per carrier, a receiver that starts at any moment in any state locks within eight modem frames and from then on emits exactly the pairs sent |
| `ModemLink.GoodSyncOverTheAir` | app/src/main/jni/codec2/fdmdv.c:1316-1323 | with one constant non-zero gain per carrier and whatever was heard before, the sync machine is in good sync after 33 frames and never leaves it |
| `ModemLink.FileOverTheAir` | app/src/main/jni/codec2/fdmdv_demod.c:181-208 | both tools and the modem end to end, with one constant non-zero gain per carrier: the rest of the file after start-up comes out byte for byte |
| `RootsOfUnity.SumInterleaved` | app/src/main/jni/codec2/kiss_fft.c:282-289 | a sum of p m terms is the sum of its p interleaved subsequences |
| `RootsOfUnity.ThirdTurn` | app/src/main/jni/codec2/kiss_fft.c:104-130 | the halving in the radix-3 butterfly is right: a primitive cube root of unity has real part -1/2 |
| `FourierTransform.Decimation` | app/src/main/jni/codec2/kiss_fft.c:282-301 | decimation in time: the transform of p m samples recombines p transforms of m samples with the stage's twiddles |
| `FourierTransform.InverseUndoesForward` | app/src/main/jni/codec2/kiss_fft.c:357-363 | the inverse transform of the forward transform is the input times its length, for every length |
| `FourierTransform.ConjIsRoot` | app/src/main/jni/codec2/kiss_fft.c:357-363 | the conjugate twiddle is a root for the inverse transform |
| `Butterflies.Bfly2` | app/src/main/jni/codec2/kiss_fft.c:32-41 | the two stored values become the 2-point transform of the twiddled inputs |
| `Butterflies.Bfly3` | app/src/main/jni/codec2/kiss_fft.c:108-133 | the three stored values become the 3-point transform of the twiddled inputs |
| `Butterflies.Bfly4` | app/src/main/jni/codec2/kiss_fft.c:60-89 | the four stored values become the 4-point transform of the twiddled inputs, in either direction |
| `Butterflies.Bfly5` | app/src/main/jni/codec2/kiss_fft.c:159-194 | the five stored values become the 5-point transform of the twiddled inputs |
| `FftStages.TargetIsSmall` | app/src/main/jni/codec2/kiss_fft.c:237-302 | recombining at u + q1 m is a p-point transform of twiddled values |
| `FftStages.Radix2Stage` | app/src/main/jni/codec2/kiss_fft.c:21-42 | a radix-2 stage recombines every column in place and changes nothing else |
| `FftStages.Radix3Stage` | app/src/main/jni/codec2/kiss_fft.c:92-134 | a radix-3 stage recombines every column in place and changes nothing else |
| `FftStages.Radix4Stage` | app/src/main/jni/codec2/kiss_fft.c:44-90 | a radix-4 stage recombines every column in place and changes nothing else |
| `FftStages.Radix5Stage` | app/src/main/jni/codec2/kiss_fft.c:136-195 | a radix-5 stage recombines every column in place and changes nothing else |
| `FftStages.GenericPoint` | app/src/main/jni/codec2/kiss_fft.c:221-231 | the running, reduced twiddle index always selects the right power |
| `FftStages.GenericStage` | app/src/main/jni/codec2/kiss_fft.c:198-235 | the stage for any other radix recombines every column in place and changes nothing else |
| `FftStages.Recombine` | app/src/main/jni/codec2/kiss_fft.c:294-301 | whichever radix is chosen, the stage recombines |
| `KissFft.WholeFromParts` | app/src/main/jni/codec2/kiss_fft.c:282-301 | short transforms in place plus one recombination are the long transform |
| `KissFft.Work` | app/src/main/jni/codec2/kiss_fft.c:237-302 | the recursion computes the discrete Fourier transform of the strided samples and writes nowhere else |
| `FftFactors.FindRadix` | app/src/main/jni/codec2/kiss_fft.c:317-325 | the search always ends, on a divisor that is 4 or prime (1 when only 1 is left) |
| `FftFactors.Factor` | app/src/main/jni/codec2/kiss_fft.c:304-330 | for every length the stages multiply out to it, end at 1, use only 4 and primes (1 for length 1), and are at most log2 of it in number |
| `Fft.Alloc` | app/src/main/jni/codec2/kiss_fft.c:339-368 | the state holds the powers of the root and a complete factorisation that fits the 32 reserved stages for every int length |
| `Fft.FftStride` | app/src/main/jni/codec2/kiss_fft.c:371-383 | the output is the discrete Fourier transform of the input, for every length, stride and direction, also in place |
| `Fft.Fft` | app/src/main/jni/codec2/kiss_fft.c:385-388 | kiss_fft computes the discrete Fourier transform |
| `Fft.RoundTrip` | app/src/main/jni/codec2/kiss_fft.c:371-388 | a forward then an inverse kiss_fft multiplies every sample by nfft |
| `FixedPoint.RoundingError` | app/src/main/jni/codec2/_kiss_fft_guts.h:65-65 | rounding is off by at most half a unit |
| `FixedPoint.MulError` | app/src/main/jni/codec2/_kiss_fft_guts.h:64-67 | 2^F S_MUL(a, b) is within 2^(F-1) of a b, for every F and all in-range factors |
| `FixedPoint.RoundInRangeIff` | app/src/main/jni/codec2/_kiss_fft_guts.h:65-65 | a rounded value fits the sample type if and only if the unrounded one is within half a unit of the range |
| `FixedPoint.ComplexProductFits` | app/src/main/jni/codec2/_kiss_fft_guts.h:69-71 | every intermediate of C_MUL with its rounding constant fits in 2F + 2 signed bits |
| `FixedPoint.ComplexProductCanOverflow` | app/src/main/jni/codec2/_kiss_fft_guts.h:69-71 | without division C_MUL of in-range samples can leave the range, for every F |
| `FixedPoint.DividedBound` | app/src/main/jni/codec2/_kiss_fft_guts.h:73-78 | a divided sample is at most SAMP_MAX / k |
| `FixedPoint.DivisionError` | app/src/main/jni/codec2/_kiss_fft_guts.h:73-78 | 2 |k DIVSCALAR(x, k) - x| < 3 k, for every in-range x and every k >= 1 |
| `FixedPoint.DividedSumInRange` | app/src/main/jni/codec2/_kiss_fft_guts.h:100-124 | any signed sum of k samples divided by k, before they are multiplied by twiddles, stays in range |
| `FixedPoint.DividedProductInRange` | app/src/main/jni/codec2/_kiss_fft_guts.h:69-78 | C_MUL of a sample divided by k >= 2 with any in-range factor stays in range |
| `FixedButterflies.TwiddledSumInRangeIff` | app/src/main/jni/codec2/_kiss_fft_guts.h:65-71 | a sample plus a rounded product fits if and only if the unrounded product is within half a unit of the room the sample leaves |
| `FixedButterflies.TwiddledDifferenceInRangeIff` | app/src/main/jni/codec2/kiss_fft.c:35-37 | the same for a sample minus a rounded product |
| `FixedButterflies.Butterfly2InRangeIff` | app/src/main/jni/codec2/kiss_fft.c:33-38 | for every F and all samples, both outputs of the radix-2 butterfly are in range if and only if both components of the unrounded product lie within half a unit of the room the divided first sample leaves on its smaller side |
| `FixedButterflies.Butterfly2CanOverflow` | app/src/main/jni/codec2/kiss_fft.c:33-38 | in-range 16-bit samples and a rounded eighth-turn twiddle for which the radix-2 butterfly leaves the range |
| `FixedButterflies.TwiddledBound` | app/src/main/jni/codec2/kiss_fft.c:33-35 | a sample inside the circle of radius SAMP_MAX, divided by 2, 3 or 4 and multiplied by any twiddle no longer than 2^F, stays within the divided range |
| `FixedButterflies.Butterfly2InRange` | app/src/main/jni/codec2/kiss_fft.c:33-38 | on samples inside that circle the radix-2 butterfly never overflows, for every F >= 5 |
| `FixedButterflies.Butterfly4InRange` | app/src/main/jni/codec2/kiss_fft.c:61-87 | nor does any output of the radix-4 butterfly, in either direction |
| `FixedButterflies.Butterfly4ScratchInRange` | app/src/main/jni/codec2/kiss_fft.c:61-71 | nor any product, sum or difference it keeps in between |
| `FixedCircle.DividedInside` | app/src/main/jni/codec2/_kiss_fft_guts.h:73-78 | a divided sample is at most D SAMP_MAX / 2^F + 577 / 816 long, D = SAMP_MAX / k, stated without the divisions |
| `FixedCircle.TurnedWithin` | app/src/main/jni/codec2/kiss_fft.c:33-35 | the same for a divided sample multiplied by a twiddle within 577 / 816 of the circle, as kf_cexp rounds them, with the second rounding |
| `FixedCircle.Butterfly2StaysInside` | app/src/main/jni/codec2/kiss_fft.c:33-38 | a radix-2 butterfly takes samples inside the circle of radius SAMP_MAX to samples inside it, for every F >= 7 |
| `FixedCircle.EightPointInRange` | app/src/main/jni/codec2/kiss_fft.c:275-300 | so the transform of length 8, radix 2 then radix 4, never overflows on such samples, in either direction |
| `FixedCircle.Butterfly4NearlyInside` | app/src/main/jni/codec2/kiss_fft.c:61-87 | a radix-4 butterfly takes them to samples inside the circle of radius SAMP_MAX + 1, in either direction, for every F >= 5 |
| `FixedCircle.Butterfly4CanLeaveCircle` | app/src/main/jni/codec2/kiss_fft.c:61-87 | 16-bit samples inside the circle of radius SAMP_MAX whose radix-4 butterfly leaves it |
| `FixedAccuracy.TwiddledError` | app/src/main/jni/codec2/kiss_fft.c:33-35 | a divided and twiddled sample is within one and a half units of SAMP_MAX / k / 2^F times the exact product |
| `FixedAccuracy.Combine4IsTransform` | app/src/main/jni/codec2/kiss_fft.c:67-87 | the radix-4 recombination is exactly the 4-point transform, forward or inverse |
| `FixedAccuracy.Butterfly2Accuracy` | app/src/main/jni/codec2/kiss_fft.c:33-38 | each output of the radix-2 butterfly is within 2 units of SAMP_MAX / 2 / 2^F times the exact 2-point transform of the twiddled samples |
| `FixedAccuracy.Butterfly4Accuracy` | app/src/main/jni/codec2/kiss_fft.c:61-87 | each output of the radix-4 butterfly is within 5 units of SAMP_MAX / 4 / 2^F times the exact 4-point transform, in either direction |
| `ConfigText.SpacesAre` | app/src/main/jni/adhoc-edify/install.c:490-516 | blanks are exactly the six characters of isspace |
| `ConfigText.NoLinesIffOnlyNewlines` | app/src/main/jni/adhoc-edify/install.c:487-490 | strtok finds no line, and the code follows a null pointer, if and only if the text consists of newlines only |
| `ConfigText.FindAnswersIff` | app/src/main/jni/adhoc-edify/install.c:435-439 | a value is returned if and only if every malformed line comes after a line that binds the key |
| `ConfigText.FirstDecides` | app/src/main/jni/adhoc-edify/install.c:488-520 | the first line that binds the key or is malformed decides: its trimmed value is returned, or the lookup aborts on its text |
| `ConfigText.NoneDecides` | app/src/main/jni/adhoc-edify/install.c:522-524 | without such a line the value is the empty string |
| `ConfigText.LookupIff` | app/src/main/jni/adhoc-edify/install.c:456-524 | for every file and key, exactly when the answer is too large, a null dereference, malformed with a given text, or a given value |
| `ConfigText.EmptyFileFollowsNull` | app/src/main/jni/adhoc-edify/install.c:487-490 | the empty file makes the code follow a null pointer |
| `ConfigText.BindingParses` | app/src/main/jni/adhoc-edify/install.c:489-519 | a printed binding with any blanks around key and value parses back to its key and value |
| `ConfigText.LookupUndoesPrint` | app/src/main/jni/adhoc-edify/install.c:435-439 | looking a key up in any printed list of bindings, comments and blank lines returns its first value, or the empty string |
| `ConfigReader.NextLine` | app/src/main/jni/adhoc-edify/install.c:487-522 | strtok on the partly overwritten buffer returns the next line of the untouched text |
| `ConfigReader.TrimEnd` | app/src/main/jni/adhoc-edify/install.c:502-505 | the backward scan and the NUL it writes trim the trailing blanks |
| `ConfigReader.HandleLine` | app/src/main/jni/adhoc-edify/install.c:489-520 | one line is handled as the specification says, and only bytes of that line are overwritten |
| `ConfigReader.GetCfg` | app/src/main/jni/adhoc-edify/install.c:456-524 | the in-place parser refines the pure first-match lookup on every file and key, including the too-large, malformed and no-line cases |
| `FieldPacking.UngrayGray` | app/src/main/jni/codec2/pack.c:99-104 | the four folding steps invert the Gray code of every 16-bit value |
| `FieldPacking.GrayRoundTripIff` | app/src/main/jni/codec2/pack.c:99-104 | they invert it if and only if the value is below 2^16 |
| `FieldPacking.Pack` | app/src/main/jni/codec2/pack.c:47-72 | or-s the Gray-coded field into the bits so that its last bits lie at the cursor, across byte borders, and advances it; bits of a value too wide reach back to the start of the byte and no further |
| `FieldPacking.Unpack` | app/src/main/jni/codec2/pack.c:77-105 | reads exactly the bits at the cursor, decodes them and advances it |
| `FieldPacking.ValueOfField` | app/src/main/jni/codec2/pack.c:47-105 | the bits written for a field read back as its Gray code |
| `FrameLayout.LayoutRoundTrip` | app/src/main/jni/codec2/pack.c:47-105 | any schedule of fields laid end to end reads back every field that fits its width |
| `FrameLayout.Encode` | app/src/main/jni/codec2/codec2.c:304-340 | a mode's fields are packed in order into a cleared frame and the cursor ends at the sum of the widths |
| `FrameLayout.Decode` | app/src/main/jni/codec2/codec2.c:353-391 | the same schedule reads back the fields the bits stand for |
| `FrameLayout.LayoutFillsFrame` | app/src/main/jni/codec2/codec2.c:180-195 | in all six modes the widths add up to bits per frame |
| `FrameLayout.Layout3200` | app/src/main/jni/codec2/codec2.c:317-339 | every field lies at its literal bit position and width, as the exclusive or of neighbouring bits, top bit first |
| `FrameLayout.Layout2400` | app/src/main/jni/codec2/codec2.c:465-487 | every field lies at its literal bit position and width, as the exclusive or of neighbouring bits, top bit first |
| `FrameLayout.Layout1600` | app/src/main/jni/codec2/codec2.c:613-655 | every field lies at its literal bit position and width, as the exclusive or of neighbouring bits, top bit first |
| `FrameLayout.Layout1400` | app/src/main/jni/codec2/codec2.c:799-836 | every field lies at its literal bit position and width, as the exclusive or of neighbouring bits, top bit first |
| `FrameLayout.Layout1300` | app/src/main/jni/codec2/codec2.c:976-1016 | every field lies at its literal bit position and width, as the exclusive or of neighbouring bits, top bit first |
| `FrameLayout.Layout1200` | app/src/main/jni/codec2/codec2.c:1156-1194 | every field lies at its literal bit position and width, as the exclusive or of neighbouring bits, top bit first |
| `FrameLayout.Transport` | app/src/main/jni/codec2/codec2.c:600-717 | the frame holds the packed fields and zeros; decoding returns all fields in modes 3200, 1600, 1400 and 1300, and all but the closing spare field in 2400 and 1200 |
| `FrameLayout.RebuildSpareBit` | app/src/main/jni/codec2/codec2.c:1468-1514 | changes at most the bit codec2_get_spare_bit_index names, in the modes that have one, and fails in the others, where that index is -1 |
| `FrameLayout.SpareBitRestoresThirdVoicing` | app/src/main/jni/codec2/codec2.c:1444-1514 | in modes 1300 and 1400 the rebuilt frame is the frame with its third voicing field set to v1 or v3 |
| `FrameLayout.SpareBit1600HitsFourthVoicing` | app/src/main/jni/codec2/codec2.c:1444-1514 | in mode 1600 the third voicing bit is at 14: the rebuild leaves it alone and overwrites the fourth voicing field with v1 or the top pitch bit |
| `FrameLayout.SpareBit1600WorksIff` | app/src/main/jni/codec2/codec2.c:1444-1514 | the 1600 rebuild gives the intended frame if and only if the third voicing field already is v1 or v3 and the fourth already is v1 or the top pitch bit |
| `FrameLayout.SpareBit1600Witness` | app/src/main/jni/codec2/codec2.c:1501-1508 | a frame that the 1600 rebuild turns into the wrong one |
| `SpeechWindow.Encoder.AnalyseOneFrame` | app/src/main/jni/codec2/codec2.c:1347-1361 | the overlapping in-place shift: entry k becomes what entry k + 80 was, and the last 80 the new samples |
| `SpeechWindow.Encoder.Encode` | app/src/main/jni/codec2/codec2.c:304-340 | one call moves every entry down by the number of its samples and ends with exactly them, in two or four sub-frames |
| `SpeechWindow.EncodeAll` | app/src/main/jni/codec2/codec2.c:110-111 | after any calls in any modes the window is the last 320 samples of 320 ones followed by all speech so far |
| `SpeechWindow.ModeRates` | app/src/main/jni/codec2/codec2.c:180-225 | at 8000 samples a second each mode has the bit rate it is named after |
| `VectorQuantiser.ErrorShift` | app/src/main/jni/codec2/ampexp.c:629-675 | the weighted error as a function of the gain is a parabola around any gain |
| `VectorQuantiser.ErrorOneWeight` | app/src/main/jni/codec2/ampexp.c:403-432 | changing one weight changes the metric by that much of the squared difference at that entry, if the target is not zero there |
| `VectorQuantiser.ErrorNoWeights` | app/src/main/jni/codec2/ampexp.c:403-432 | without weights the metric is zero, so the two laws determine it for all weights |
| `VectorQuantiser.RowsAt` | app/src/main/jni/codec2/ampexp.c:403-432 | entry i of codeword j is cb[j d + i] |
| `VectorQuantiser.GainOptimalIff` | app/src/main/jni/codec2/ampexp.c:629-675 | a gain minimises the weighted error over all real gains if and only if the weighted deviation vanishes and the weights do not sum to less than zero |
| `VectorQuantiser.BestGainIsOptimal` | app/src/main/jni/codec2/ampexp.c:629-675 | the closed-form gain minimises the unweighted error over all real gains |
| `VectorQuantiser.BestGainWeightedOptimalIff` | app/src/main/jni/codec2/ampexp.c:629-675 | the closed-form gain minimises the weighted metric it is used in if and only if the weighted sum of the differences times their number equals the sum of the weights times the plain sum of the differences |
| `VectorQuantiser.VqAmp` | app/src/main/jni/codec2/ampexp.c:403-432 | if some weighted error is below 1E32 the row returned has the least one of all rows, strictly less than every earlier row, and its plain error is added; otherwise row 0 and 1E32 |
| `VectorQuantiser.GainShapeVqAmp` | app/src/main/jni/codec2/ampexp.c:629-675 | the same with each row raised by its own closed-form gain, and that gain |
| `VectorQuantiser.GainShapeJointlyOptimal` | app/src/main/jni/codec2/ampexp.c:629-675 | with equal positive weights, a row least with its own gain is optimal together with it over all rows and all gains |
| `VectorQuantiser.WeightedGainCounterexample` | app/src/main/jni/codec2/ampexp.c:629-675 | with unequal weights the closed-form gain need not be optimal |
| `VectorQuantiser.SplitVq` | app/src/main/jni/codec2/ampexp.c:435-454 | the row taken off the non-zero entries of its part is the first of least weighted error; residual plus output stays the same in every entry |
| `VectorQuantiser.ResidualEnergyIsError` | app/src/main/jni/codec2/ampexp.c:435-454 | what one stage leaves behind has exactly the energy of the chosen row's error |
| `VectorQuantiser.SplitStages` | app/src/main/jni/codec2/ampexp.c:574-579 | any sequence of stages conserves residual plus output, and every stage takes the nearest row off what the stage before left |
| `AmplitudeMemory.InterpSplitVq` | app/src/main/jni/codec2/ampexp.c:748-760 | twice a covered, non-empty entry becomes the sum of the quantised levels before and after; the rest is untouched |
| `AmplitudeMemory.LevelIsMidpoint` | app/src/main/jni/codec2/ampexp.c:748-760 | the last book that covers a position decides: twice its level is the sum of what both frames were quantised to |
| `AmplitudeMemory.LevelUncovered` | app/src/main/jni/codec2/ampexp.c:788-819 | a position no book covers has level 0 |
| `AmplitudeMemory.SmoothedIs` | app/src/main/jni/codec2/ampexp.c:788-819 | a harmonic is played at the interpolated level of its bin, or at 0 dB if the highest harmonic of the bin is at 0 dB |
| `AmplitudeMemory.AnswerIs` | app/src/main/jni/codec2/ampexp.c:788-851 | even calls with the flag set replace the amplitudes of the harmonics and nothing else; all others return the previous frame untouched |
| `AmplitudeMemory.Interpolate` | app/src/main/jni/codec2/ampexp.c:788-819 | every harmonic gets the midpoint level of its bin whatever the uninitialised scratch held; everything else is the previous frame's |
| `AmplitudeMemory.Aexp.VqInterp` | app/src/main/jni/codec2/ampexp.c:763-851 | answers for the previous frame and shifts the three-frame memory by one |
| `AmplitudeMemory.Play` | app/src/main/jni/codec2/ampexp.c:1041-1055 | over any run, call t returns frame t - 1, on even calls with the flag set with its amplitudes interpolated between frames t - 2 and t |
| `Odometer.CarryKeepsNum` | app/src/main/jni/codec2/genlspdtcb.c:82-86 | a carry keeps the number the digits stand for |
| `Odometer.Advance` | app/src/main/jni/codec2/genlspdtcb.c:81-86 | the single ascending carry pass counts up by one and restores all digits, except at the final stop |
| `Odometer.CreateCodebook` | app/src/main/jni/codec2/genlspdtcb.c:60-90 | terminates after exactly cols^rows lines, matching the header; entry i of line k is the table entry of row i at digit i of k in base cols |
| `Odometer.DigitsOfNum` | app/src/main/jni/codec2/genlspdtcb.c:72-87 | digit vectors and the line numbers correspond one to one, so every vector is written exactly once |
| `ErrorInjector.XorFlipsBit` | app/src/main/jni/codec2/c2dec.c:147-150 | the byte and mask arithmetic flips exactly bit i of the frame |
| `ErrorInjector.DistanceCountsHits` | app/src/main/jni/codec2/c2dec.c:144-155 | for every start bit, the Hamming distance of the two frames is the number of draws below the threshold for bits of the frame |
| `ErrorInjector.FlippingTwice` | app/src/main/jni/codec2/c2dec.c:144-155 | the same flips a second time restore the frame |
| `ErrorInjector.Inject` | app/src/main/jni/codec2/c2dec.c:143-156 | for every start and end bit: exactly the bits whose draw is below the rate are flipped and exactly those draws are counted, up to the first flip outside the buffer, if there is one |
| `ErrorInjector.CountedErrors` | app/src/main/jni/codec2/c2dec.c:143-156 | bit_errors grows by the Hamming distance of the frames plus the hits on bit numbers below 0 |
| `ErrorInjector.CountIsDistanceIff` | app/src/main/jni/codec2/c2dec.c:143-156 | it grows by the Hamming distance if and only if no draw for a bit number below 0 is below the rate |
| `ErrorInjector.NegativeStartCounts` | app/src/main/jni/codec2/c2dec.c:129-156 | a start bit of -1 for which an error is counted and no bit changes |
| `ErrorInjector.TwoStateFrame` | app/src/main/jni/codec2/c2dec.c:158-195 | no bit changes in the clear state; in the burst state every bit whose draw is below one half does; the clock advances by one tick |
| `ErrorInjector.Trajectory` | app/src/main/jni/codec2/c2dec.c:158-195 | with j the first frame that ends after period - length and e the first later one that ends after the period, the channel repeats j clear and e - j burst frames for ever, and its timer is the time in the cycle |
| `ErrorInjector.HitFramesAre` | app/src/main/jni/codec2/c2dec.c:158-195 | no frame is hit in the first j, and all but j in every cycle |
| `ErrorInjector.TwoStateRun` | app/src/main/jni/codec2/c2dec.c:138-195 | over any number of frames exactly the frames past the clear ones of their cycle are flipped where their draw is below one half, and bit_errors and bits_proc count exactly that |
| `ErrorInjector.TimerBounded` | app/src/main/jni/codec2/c2dec.c:158-195 | in every run, between frames, the timer passes the period by at most one frame time and the clear state ends when the burst is due |
| `ErrorInjector.PeakBoundedIff` | app/src/main/jni/codec2/c2dec.c:159-190 | inside a frame the timer stays within one frame time of the period if and only if the last whole frame of a period, number floor(period / frame time), ends inside the burst |
| `ErrorInjector.PeakCounterexample` | app/src/main/jni/codec2/c2dec.c:159-190 | a burst shorter than a frame for which it does not |

## Left out

- FifoProtocol assumes sequentially consistent memory and that only the two threads call into the FIFO; compiler and hardware reordering are not modelled.
- Golay.GetSyndrome: takes 23-bit words only, because the source's loop does not end for wider ones.
- Golay.Golay23.Encode: takes 12-bit data and an initialised table, as the source asserts.
- Interleaver.Run: takes a table of at least one entry, because with m = 0 the source reads empty blocks for ever; m is a multiple of 8 as the source asserts.
- ModemLink.Tracking: what reaches qpsk_to_bits is the transmitted symbols times one constant non-zero complex gain per carrier; tx_filter, rx_filter, rx_est_timing and the frequency estimate are not modelled, because they are numerical filters without an exact law.
- ModemLink.LateJoin: over the same channel as ModemLink.Tracking.
- ModemLink.GoodSyncOverTheAir: over the same channel as ModemLink.Tracking.
- ModemLink.FileOverTheAir: filters, timing and frequency estimation are replaced by one constant non-zero complex gain per carrier, without noise.
- Dqpsk.DibitRecovered: the normalisation factor and cos(pi/4) are arbitrary positive reals.
- Modem.Demodulator.constructor: the flag the source leaves uninitialised may start either way.
- FftStages, KissFft and Fft work over exact reals with exact roots of unity; rounding of twiddles and the OpenMP branch of kf_work are not modelled, and partly overlapping buffers are not.
- FftFactors.Factor: what floor(sqrt(n)) returns is a parameter assumed exact.
- FixedButterflies: radix 3, 5 and the generic radix in fixed point, and kiss_fftr.
- FixedCircle: transforms with more than one radix-4 stage, where radius SAMP_MAX is not kept.
- FixedPoint: `C_MUL` whose target is one of its own operands is not modelled.
- ConfigReader.GetCfg: opening, sizing and reading the file are not modelled; the key holds no NUL.
- FrameLayout: quantisation of pitch, energy and LSPs is not modelled, only the field values.
- SpeechWindow.Encoder.Encode: the analysis routines are taken not to write the window.
- VectorQuantiser.VqAmp: the 1E32 start value is a condition of the minimality clause, as the code never looks at larger metrics.
- VectorQuantiser.GainShapeVqAmp: takes targets with some non-zero entry, because the source otherwise divides by zero.
- VectorQuantiser.SplitVq: the running error sum starts uninitialised in the source and is dropped.
- AmplitudeMemory.Interpolate: log10, pow and the bin of a harmonic are arbitrary functions; the bin is within the table as the source asserts.
- AmplitudeMemory.Play: sparse_vq_amp is represented by the magnitude and rows it stores.
- ErrorInjector.Inject: stops where the source would write outside its buffer.
- Pitch estimation, LPC/LSP conversion, phase synthesis, ear protection and post filters of codec2: numerical code without a stated law.
- JNI, network, installer and logging code: input and output only.
