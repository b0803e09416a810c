# OpenPRLX receive path: a verified model

OpenPRLX receives a wfb-ng video link over a monitor-mode USB adapter. This project models the parts of it whose correctness is
least obvious and proves them with Dafny. `dafny verify dfyconfig.toml` checks everything.

**The erasure codec** (`src/wifi/fec.c`). `Gf` is the field of 256 elements, built from multiplication by x and proved to be a
field without any assumption; `GfTables` fills the four tables in place as the code does and shows that they hold the field
operations. `Vectors` and `Polynomials` are the algebra. `Exchange` gives the invariant of in-place Gauss-Jordan elimination
(which inputs and outputs a partly pivoted matrix relates) and `GaussJordan` is the routine on its array. `Vandermonde` and
`VdmInverse` do the same for the Lagrange inverse. `ErasureCode` defines the code without matrices: fragment i is the value at
point i of the polynomial through the data bytes. `FecNew` proves that the matrix the code builds computes this, and `FecCodec`
that encoding and decoding do, through strides, unrolled loops and shortcuts.

**The receiver** (`src/wifi/WFBProcessor.cpp`). `ReceiveWindow` is the receiver as a state machine on values, a FIFO of
unfinished blocks. `ReceiveTheorems`, `ReceiveInterleaved`, `ReceiveConservation`, `ReceiveDelivery` and `LossMeter`
prove what it guarantees over whole runs; `ReceiveDelivery` also says of one step, without naming how it is computed, which
blocks are live after it and which packets it sends.
`WfbProcessor` is the `Aggregator` with its fields, its ring of 40 slots and its buffers updated in place; each fragment it
processes is one step of the window, and each codec call is a call of the proved codec. So the run theorems hold of the
aggregator itself, which its `Session` lemmas state.

**The lifecycle** (`src/wifi/WFBReceiver.cpp`, `src/openprlx_main.cpp`, `src/Context.h`, `src/ControlServer.h`). `Lifecycle`
interleaves supervisor, capture threads and control server. `Stop`'s load and store of the state are two steps, and so are a
handler's check and its staging, since other threads can come in between. Single steps are: the two flag resets of `Start`,
during which there is no other thread that uses them; a join; and a handler's check of the state with the parsing of its request.
`LifecycleOutcomes` proves what becomes of failures and requests.

**Two parsers and a table interpreter** of the vendored driver. `Efuse` replays the efuse log, `FrameParser` splits a USB transfer,
`ConditionalTable` runs flat register tables with IF / ELSE IF / ELSE / ENDIF markers; each is a loop proved against a writer or
a structured program.

## Where the code and its promises differ

- `_invert_vdm` is documented for any Vandermonde matrix, but its coefficient loop starts one position late. It computes the
  inverse exactly when there are at most two points or one of the first two is zero (`Vandermonde.CodeInverseIff`); `fec_new`
  always passes 0 first.
- `_invert_mat` is documented to return non-zero for a singular matrix but returns nothing. All its rounds find a pivot exactly if
  the matrix is nonsingular (`GaussJordan.InvertMat`); a round without one goes on with the pivot of the round before, and the
  assertions do not notice every singular matrix (`GaussJordan.SingularUnnoticed`). If only the last round finds none,
  `GaussJordan.LastAssertion` says when they do.
- The loss counter leaves out a gap that straddles a multiple of 2^32, and no other (`LossMeter.GapCountedIff`).
- `recvbuf2recvframe` logs "skip!" for a frame with a CRC or ICV error but leaves the loop: everything behind that frame in the
  transfer is lost (`FrameParser.DamagedEnds`).
- `fec_new` accepts k = 256, but `build_decode_matrix_into_space` and `fec_decode` count to k with an `unsigned char`, and such a
  loop ends exactly if k <= 255 (`FecCodec.CounterEnds`). `fec_encode` has no such limit: with k = 256 there is no secondary
  packet and its loop over k is never entered.
- `Stop` may store `Stopping` over the final state of a thread that has already ended. From then on, until the daemon is shut
  down, the thread is not joined and no session starts (`Lifecycle.LateIsFinal`); it happens exactly when the store is late
  (`Lifecycle.ReapableIff`).
- `handleTune` promises that a retune never reaches a later session. It can, if a session starts between the handler's check
  and its staging, and only then (`Lifecycle.TunesBelong`); such runs exist (`Lifecycle.StraddleHappens`), and
  whenever a handler still holds such a retune while the later session runs, the device can receive it
  (`Lifecycle.ForeignTuneApplies`).
- A blank efuse leaves the caller's buffer as it was instead of filling it with 0xFF (`Efuse.ReadEFuse`). A packet for a section
  outside the map is skipped by the wrong length unless it updates all four words, or it updates the first one and ends with the
  last cell (`Efuse.SkipExact`); then later packets can be lost (`Efuse.MisreadLog`).

## Model

| member | source | states |
|---|---|---|
| Gf.XorBit | src/wifi/fec.c:73-74 | addition is XOR: bit i of the sum is set exactly when one of the two bits is, for numbers of any size |
| Gf.XorIsBitwise | src/wifi/fec.c:73-74 | the number-theoretic XOR of the model is the machine's `^` on bytes |
| Gf.XtimeAdd | src/wifi/fec.c:133-140 | multiplying by x modulo the polynomial is linear over XOR |
| Gf.MulPolynomial | src/wifi/fec.c:20 | x^8 times b is 29 times b: multiplication is modulo the polynomial of line 20 |
| Gf.MulByX | src/wifi/fec.c:133-140 | multiplying by 2 shifts and reduces by 29; x^0, x^1, x^7 and x^8 are 1, 2, 128 and 29 |
| Gf.MulAddLeft | src/wifi/fec.c:68 | multiplication distributes over XOR on the left |
| Gf.MulAddRight | src/wifi/fec.c:68 | multiplication distributes over XOR on the right |
| Gf.MulComm | src/wifi/fec.c:68 | multiplication is commutative |
| Gf.MulAssoc | src/wifi/fec.c:68 | multiplication is associative |
| Gf.FullPeriod | src/wifi/fec.c:31 | x^255 = 1 |
| Gf.NoShortPeriod | src/wifi/fec.c:31 | no smaller positive power of x is 1: x is primitive |
| Gf.ExpInjective | src/wifi/fec.c:31-32 | the first 255 powers of x are distinct, so the logarithm table is well defined |
| Gf.ExpSurjective | src/wifi/fec.c:31-32 | every nonzero byte is one of the first 255 powers of x |
| Gf.LogExp | src/wifi/fec.c:31-32 | the logarithm undoes the exponential below 255 |
| Gf.MulLog | src/wifi/fec.c:85-93 | the product of nonzero bytes is the power at the sum of their logarithms modulo 255 |
| Gf.MulInv | src/wifi/fec.c:33-34 | every nonzero byte times its inverse is 1, on either side |
| Gf.MulNonZero | src/wifi/fec.c:68 | there are no zero divisors |
| GfTables.Modnn | src/wifi/fec.c:40-46 | the loop terminates and returns x % 255 for every x >= 0 |
| GfTables.Tables.FirstPowersLoop | src/wifi/fec.c:104-126 | exp and log hold the first nine powers, the ninth assembled from the polynomial string |
| GfTables.Tables.RemainingPowersLoop | src/wifi/fec.c:127-140 | exp and log hold all 255 powers, each from its predecessor by a shift and a conditional reduction |
| GfTables.Tables.ExtendPowersLoop | src/wifi/fec.c:141-147 | exp is complete for indices up to 509 and log is its inverse, with 255 at 0 |
| GfTables.Tables.InverseLoop | src/wifi/fec.c:149-157 | inverse[v] is the field inverse for every v, with 0 at 0 |
| GfTables.Tables.InitMulTable | src/wifi/fec.c:85-93 | mul[a, b] is the field product for all 65536 pairs |
| GfTables.Tables.InitFec | src/wifi/fec.c:397-402 | after initialisation all four tables hold the field operations, and say so |
| Layout.AddMul1 | src/wifi/fec.c:171-209 | dst[d..d+sz] gains c times src[s..s+sz] byte by byte and no other byte changes, through the sixteen-fold unrolled rounds and the final bytes, for every sz |
| Layout.AddMul | src/wifi/fec.c:171-173 | the same with the c = 0 shortcut: skipping is adding zero |
| Layout.RowUpdate | src/wifi/fec.c:300-316 | writing inside one row's cells changes that row of the matrix and no other |
| Polynomials.DivisionIdentity | src/wifi/fec.c:381-387 | synthetic division: p(y) = (y - x) q(y) + p(x) for every y |
| Polynomials.TooManyRoots | src/wifi/fec.c:343-395 | a polynomial with as many distinct roots as coefficients is zero |
| Vectors.NonsingularInjective | src/wifi/fec.c:235-330 | a nonsingular matrix maps different vectors to different vectors |
| Vectors.RightInverse | src/wifi/fec.c:235-330 | an inverse is an inverse on both sides: multiplying the matrix by the inverse's columns gives the unit columns |
| Exchange.SwapStep | src/wifi/fec.c:284-286 | swapping two unpivoted rows keeps the relation between inputs and outputs the matrix stands for, up to swapping those outputs |
| Exchange.PivotStep | src/wifi/fec.c:289-319 | one normalise-and-eliminate round in place keeps, in both directions, which inputs and outputs are related |
| Exchange.EliminateUnit | src/wifi/fec.c:310 | the shortcut for a pivot row that already is a unit row changes nothing |
| Exchange.NormalizeOne | src/wifi/fec.c:292 | the shortcut for a pivot of one changes nothing |
| Exchange.ExchangedRound | src/wifi/fec.c:252-321 | a whole round, swap and pivot, keeps the invariant that ties the matrix to the original one through all swaps so far |
| Exchange.PivotExists | src/wifi/fec.c:258-276 | a nonsingular matrix has a nonzero entry outside the pivoted rows and columns as long as a column is left |
| Exchange.AllPivoted | src/wifi/fec.c:252-321 | conversely, once every column has been pivoted on, the original matrix was nonsingular |
| Exchange.UnscrambleStep | src/wifi/fec.c:322-325 | undoing the last recorded swap on the columns takes one swap out of the remaining relation |
| Exchange.UnscrambleEnd | src/wifi/fec.c:322-325 | with all swaps undone the matrix is the two-sided inverse |
| GaussJordan.FindPivot | src/wifi/fec.c:254-277 | the search ends as the search order says: with a pivot, with the assertion at 273 failed, or with none, and then the row and column of the round before stay |
| GaussJordan.Round | src/wifi/fec.c:279-320 | the assertion at 291 holds exactly if the pivot is nonzero; then the round is the abstract swap and pivot, and the unit row is clean again |
| GaussJordan.EliminateColumns | src/wifi/fec.c:252-321 | every round finds a pivot if and only if the matrix is nonsingular; then both assertions hold in every round and the array is the inverse up to the recorded row swaps |
| GaussJordan.Unscramble | src/wifi/fec.c:322-325 | the column swaps, last first, turn it into the inverse if every round found a pivot |
| GaussJordan.SearchMeans | src/wifi/fec.c:258-276 | as long as no place has been pivoted on twice, the assertion at 273 holds and the search finds a nonzero entry in an unpivoted row and column exactly if there is one |
| GaussJordan.SearchOrder | src/wifi/fec.c:258-276 | the search takes the diagonal entry if it can, else the first entry by rows and columns at which the scan ends, for every state of the pivot counts |
| GaussJordan.InvertMat | src/wifi/fec.c:235-330 | on every k x k matrix: each round finds a pivot if and only if it is nonsingular, and then the assertions hold and it is replaced by its two-sided inverse; on a singular one the assertions hold exactly if the k rounds, with the pivots of earlier rounds where none is found, go through |
| GaussJordan.SingularUnnoticed | src/wifi/fec.c:252-321 | on the singular matrix with rows 1 0 and 0 0 both rounds go through, the second with the first one's pivot, and the matrix stays |
| GaussJordan.PivotAfterwards | src/wifi/fec.c:279-320 | after a round its pivot's place holds a nonzero entry exactly if the pivot was on the diagonal or the diagonal entry of its column was nonzero |
| GaussJordan.LastAssertion | src/wifi/fec.c:252-321 | when only the last round finds no pivot, an assertion fails if and only if the last pivot was taken off the diagonal while the diagonal entry of its column was zero |
| GaussJordan.SingleEntry | src/wifi/fec.c:252-321 | for k = 1 an assertion fails if and only if the entry is zero |
| Vandermonde.VdmNonsingular | src/wifi/fec.c:343-395 | a Vandermonde matrix on distinct points is nonsingular |
| Vandermonde.MasterRoot | src/wifi/fec.c:363-375 | the product of (x - p[i]) vanishes at every p[i] |
| Vandermonde.CodeMasterZero | src/wifi/fec.c:369-375 | with a zero among the first two points the coefficient updates the loop leaves out would add zero |
| Vandermonde.HarmfulSkip | src/wifi/fec.c:372-374 | otherwise, for three or more points, the third coefficient from the top comes out wrong |
| Vandermonde.BasisDivisor | src/wifi/fec.c:382-389 | the number t inverted for each point is never zero, and the quotient vanishes at the other points |
| Vandermonde.LagrangeIsInverse | src/wifi/fec.c:343-395 | the matrix whose columns are the Lagrange coefficients is the two-sided inverse of the Vandermonde matrix |
| Vandermonde.CodeInverseIff | src/wifi/fec.c:332-395 | for distinct points the routine computes the inverse if and only if k <= 2 or one of the first two points is zero; the comment promises it for any Vandermonde matrix |
| Vandermonde.CodeInverseCounterexample | src/wifi/fec.c:372 | on the points 1, 2, 3 it does not |
| VdmInverse.MasterLoop | src/wifi/fec.c:369-375 | the in-place loop leaves exactly the coefficients the code computes, leading one implied |
| VdmInverse.DivideLoop | src/wifi/fec.c:381-387 | the loop leaves the quotient by (x - xx) and its value at xx |
| VdmInverse.InvertVdm | src/wifi/fec.c:343-395 | on a Vandermonde matrix the in-place routine leaves the matrix of CodeInverse, the inverse exactly under that condition, and nothing below the top k rows changes |
| ErasureCode.PointsDistinct | src/wifi/fec.c:438-447 | different fragments stand for different points 0, x^0, ..., x^254 |
| ErasureCode.PointIs | src/wifi/fec.c:438-447 | the points are 0 and then the powers of x from x^0 on |
| ErasureCode.Systematic | src/wifi/fec.c:456-461 | fragment i < k of the polynomial code is data byte i |
| ErasureCode.AnyKRecover | src/wifi/fec.c:404-408 | for any k different fragments, the recovered data are the only data that have these fragments |
| ErasureCode.FragmentValues | src/wifi/fec.c:438-465 | fragment f >= 1 is the value at x^(f-1) of every polynomial of degree below k whose values at 0, x^0, ..., x^(k-2) are the data |
| ErasureCode.DataPolynomial | src/wifi/fec.c:438-465 | there is such a polynomial for all data |
| ErasureCode.RecoveredValues | src/wifi/fec.c:404-408 | the recovered data are the values at 0, x^0, ..., x^(k-2) of every polynomial of degree below k through the received bytes |
| ErasureCode.TwoPackets | src/wifi/fec.c:438-465 | for k = 2, fragment f is d0 + x^(f-1) (d0 + d1) |
| ErasureCode.KnownFragments | src/wifi/fec.c:438-465 | the data bytes 0 and 1 have the fragments 2, 128 and 29 at 2, 8 and 9 |
| FecNew.AnyRowsNonsingular | src/wifi/fec.c:418-465 | any k different rows of the encoding matrix form a nonsingular matrix, for every 1 <= k <= n <= 256 |
| FecNew.TopIdentity | src/wifi/fec.c:456-461 | the top k rows of the encoding matrix are the identity |
| FecNew.FillVandermonde | src/wifi/fec.c:438-447 | the temporary matrix is the Vandermonde matrix on 0, x^0, ..., x^(n-2): entry (i, j) is (x^(i-1))^j, and the first row is 1, 0, ..., 0 |
| FecNew.MatMul | src/wifi/fec.c:211-227 | the rows written are the matrix product, the rows above them stay |
| FecNew.BuildMatrix | src/wifi/fec.c:438-461 | the matrix built maps every data vector to the n fragments of its polynomial code, the values that ErasureCode.FragmentValues fixes |
| FecNew.Fec.constructor | src/wifi/fec.c:418-465 | a new codec is valid for every 1 <= k <= n <= 256, filling the tables first if that was not done, and leaving them alone if it was |
| FecCodec.EncodeStride | src/wifi/fec.c:480-487 | one stride fills its byte range of every secondary packet with the code's fragments |
| FecCodec.FecEncode | src/wifi/fec.c:473-489 | for every size, byte b of secondary packet i is fragment k+i of the data bytes at b, that is the value at x^(k+i-1) of every polynomial of degree below k through them; no byte outside the size changes and the sources stay |
| FecCodec.EncodedIsCodeword | src/wifi/fec.c:473-489 | what encoding leaves in a secondary packet is the codeword's packet |
| FecCodec.CounterEnds | src/wifi/fec.c:496-529 | a loop whose counter is kept modulo 256 and runs while it is below k ends if and only if k <= 255 |
| FecCodec.BuildDecodeRow | src/wifi/fec.c:502-507 | row i is the encoding matrix's row of the fragment used there, written out as a unit row for a primary one |
| FecCodec.BuildDecodeMatrix | src/wifi/fec.c:496-510 | the inverted matrix turns received bytes into data bytes, row by row |
| FecCodec.FecDecode | src/wifi/fec.c:512-529 | exactly the missing primaries are written, in ascending order, each byte being the value at the missing place of every polynomial of degree below k through the received bytes; inputs, index and further output packets stay |
| FecCodec.MissingExact | src/wifi/fec.c:518-527 | the rows written are exactly those whose entry is not a primary packet, each once and in ascending order |
| FecCodec.AnyKPackets | src/wifi/fec.c:512-529 | if the received packets are k different packets of a codeword, each recovered packet is the transmitter's, for every size |
| FecCodec.EncodeDecode | src/wifi/fec.c:473-529 | encode, keep any k of the n packets, decode: every source packet comes back, for every size |
| FecCodec.CodewordPrimary | src/wifi/fec.c:456-461 | the first k packets of a codeword are the data packets |
| RxRing.ModN | src/wifi/WFBDefine.h:119-121 | C's truncating remainders, combined this way, give the non-negative remainder for every argument |
| RxRing.PushAppends | src/wifi/WFBProcessor.cpp:158-162 | a push into a ring with room appends to the FIFO of live slots |
| RxRing.PushOverrides | src/wifi/WFBProcessor.cpp:185-188 | a push into a full ring drops the oldest live slot and appends |
| RxRing.PopDrops | src/wifi/WFBProcessor.cpp:379-381 | advancing the front drops the oldest live slot |
| ReceiveWindow.FecIndexValid | src/wifi/WFBProcessor.cpp:467-485 | the index array built for decoding is k different fragments that have arrived, each present primary at its own slot |
| ReceiveWindow.AdmitValid | src/wifi/WFBProcessor.cpp:203-217 | admitting a newer block, over any gap, keeps the live blocks consecutive up to it and makes it the newest, empty |
| ReceiveWindow.AdmitExact | src/wifi/WFBProcessor.cpp:202-217 | afterwards the live blocks are the newest ones up to the ring size among those that were live and all that were passed over, the former as they were, the latter empty |
| ReceiveWindow.EvictedExact | src/wifi/WFBProcessor.cpp:158-188 | the blocks flushed to make room are those at least a ring behind the new one |
| ReceiveWindow.StoreValid | src/wifi/WFBProcessor.cpp:361-431 | storing a fragment keeps every block at rest undecodable, every flag before its next fragment set, and the next fragment 0 except in the oldest block |
| ReceiveWindow.StepValid | src/wifi/WFBProcessor.cpp:349-431 | the same for one whole step, so every assert on the ring holds |
| ReceiveWindow.RunConcat | src/wifi/WFBProcessor.cpp:349-431 | runs compose: windows and emissions of a longer run are those of its parts |
| ReceiveWindow.InOrderAtMostOnce | src/wifi/WFBProcessor.cpp:370-430 | over every run the emitted (block, fragment) pairs strictly increase lexicographically |
| ReceiveTheorems.CompletedFaithful | src/wifi/WFBProcessor.cpp:406-425 | a primary packet completed by FEC from authentic fragments is the transmitter's |
| ReceiveTheorems.StepFaithful | src/wifi/WFBProcessor.cpp:349-431 | one step on an authentic fragment keeps the window authentic and emits only the transmitter's packets |
| ReceiveTheorems.EndToEnd | src/wifi/WFBProcessor.cpp:333-431 | for every code, transmitter and run of authentic fragments, lost, repeated, reordered or overflowing the ring, each emission is the transmitter's primary packet at its place |
| ReceiveTheorems.BlockSent | src/wifi/WFBProcessor.cpp:349-431 | at least k different fragments of the next block, in any order with any repetitions, make exactly its k primaries be sent and leave the window empty |
| ReceiveTheorems.NothingMissing | src/wifi/WFBProcessor.cpp:349-431 | for any number of consecutive such blocks everything is sent, in order, with nothing missing |
| ReceiveInterleaved.StepTracked | src/wifi/WFBProcessor.cpp:349-431 | in an orderly run one fragment keeps the live blocks those from the oldest unfinished one on, each holding exactly what came of it, and sends the next stretch of primaries |
| ReceiveInterleaved.InterleavedSent | src/wifi/WFBProcessor.cpp:349-431 | however the fragments of different blocks interleave: if they stay within the ring and blocks get their k-th fragment in ascending order, everything sent is the finished blocks' primaries, complete and in order, and a beginning of the next block |
| ReceiveConservation.StepTakes | src/wifi/WFBProcessor.cpp:349-431 | a primary packet that is neither late nor a duplicate is sent in that step or waits in a live block |
| ReceiveConservation.NothingWithheld | src/wifi/WFBProcessor.cpp:173-189 | over every run no primary packet taken in is dropped, not even by overflow: it was sent or still waits |
| ReceiveDelivery.StoreCompletes | src/wifi/WFBProcessor.cpp:388-431 | the k-th different fragment of a live block, at whatever place in the ring: what waits in the older blocks is sent and they leave, and the block sends every primary it has not sent and leaves |
| ReceiveDelivery.StoreWaits | src/wifi/WFBProcessor.cpp:361-387 | a fragment short of k: the oldest block sends its primaries up to the first gap, another block nothing |
| ReceiveDelivery.StepLives | src/wifi/WFBProcessor.cpp:190-431 | which blocks are live after a step: a live block leaves exactly if a block a whole ring ahead arrives, or its own k-th fragment or that of a newer block |
| ReceiveDelivery.StepFlushes | src/wifi/WFBProcessor.cpp:349-431 | of another block a step sends exactly what waits in it if that block leaves |
| ReceiveDelivery.StepSends | src/wifi/WFBProcessor.cpp:361-431 | of its own block a timely new fragment sends, as the k-th, every primary not yet sent, else the run up to the first gap if the block is then the oldest |
| ReceiveDelivery.StepKeepsOthers | src/wifi/WFBProcessor.cpp:190-217 | the other blocks that stay live stay as they are, and those that become live are empty |
| ReceiveDelivery.StepIgnores | src/wifi/WFBProcessor.cpp:351-358 | a late or repeated fragment changes and sends nothing |
| ReceiveDelivery.DeliveredWhole | src/wifi/WFBProcessor.cpp:220-431 | over any run of authentic fragments, with loss, repetition, reordering and overflow: a block of which k different fragments arrived before it had left has all its primaries sent |
| LossMeter.GapsCounted | src/wifi/WFBProcessor.cpp:439-445 | while numbers stay below 2^32, the counter grows by exactly the numbers skipped |
| LossMeter.LossAccounting | src/wifi/WFBProcessor.cpp:434-445 | from the first nonzero number s sent on, packets counted lost plus packets sent equal last - s + 1 |
| LossMeter.RunLoss | src/wifi/WFBProcessor.cpp:434-445 | the same for every run of the receiver from a fresh session |
| LossMeter.GapCountedIff | src/wifi/WFBProcessor.cpp:441-445 | anywhere in a session, the numbers between two sent ones are counted as lost exactly if they do not straddle a multiple of 2^32 |
| WfbProcessor.Aggregator.constructor | src/wifi/WFBProcessor.cpp:77-99 | a new aggregator has no codec, no session key, an empty ring and no known block |
| WfbProcessor.Aggregator.InitFec | src/wifi/WFBProcessor.cpp:114-136 | a session starts with a valid codec, fresh distinct buffers in all 40 slots, an empty window and sequence number 0 |
| WfbProcessor.Aggregator.RxRingPush | src/wifi/WFBProcessor.cpp:157-189 | the slot given out is the one after the newest, or the oldest after its arrived unsent packets were sent |
| WfbProcessor.Aggregator.FindLive | src/wifi/WFBProcessor.cpp:192-196 | the search returns the slot of the live block, or -1 exactly if the block is not live |
| WfbProcessor.Aggregator.GetBlockRingIdx | src/wifi/WFBProcessor.cpp:191-218 | the slot of a live block, nothing for a block no longer live, else every block up to the new one is brought in: with gap g and a live ones, min(40, a + g) are live afterwards |
| WfbProcessor.Aggregator.SendPacket | src/wifi/WFBProcessor.cpp:434-455 | one emission: the slot's block and fragment with the buffer's bytes, counted and delivered accordingly |
| WfbProcessor.Unwraps | src/wifi/WFBProcessor.cpp:434-455 | a packet of flags, big-endian size, payload and zeros delivers exactly the payload, or nothing if it is marked as filler, for every payload of up to 1445 bytes |
| WfbProcessor.Corrupted | src/wifi/WFBProcessor.cpp:447-449 | a packet that states more than 1445 bytes delivers nothing |
| WfbProcessor.PayloadsOriginal | src/wifi/WFBProcessor.cpp:434-455 | the payloads delivered for the transmitter's packets are the ones it wrapped, in order |
| WfbProcessor.Aggregator.CountGap | src/wifi/WFBProcessor.cpp:439-445 | the sequence number and the loss counter advance as in LossMeter, modulo 2^32 |
| WfbProcessor.ChooseInputs | src/wifi/WFBProcessor.cpp:467-485 | the selection loop builds the index array of the model, the buffers it names as inputs and the missing primaries' buffers as outputs, at most n - k of them |
| WfbProcessor.InputsReady | src/wifi/WFBProcessor.cpp:463-487 | the chosen buffers meet everything fec_decode needs: no output is an input or another output, and the inputs hold the chosen fragments |
| WfbProcessor.Aggregator.ApplyFec | src/wifi/WFBProcessor.cpp:457-493 | the slot's first k buffers hold the completed primary packets and nothing else in the ring changes |
| WfbProcessor.Aggregator.SendRun | src/wifi/WFBProcessor.cpp:370-375 | the oldest block sends its run of arrived packets and stops at the first gap |
| WfbProcessor.Aggregator.FlushOlder | src/wifi/WFBProcessor.cpp:389-401 | the older blocks' arrived packets are sent in order and the blocks removed, for any distance around the ring |
| WfbProcessor.Aggregator.FinishBlock | src/wifi/WFBProcessor.cpp:388-431 | a decodable block gives up the older ones, is completed, sent to its end and removed |
| WfbProcessor.Aggregator.StoreFragment | src/wifi/WFBProcessor.cpp:361-365 | the buffer holds the zero-padded fragment, its flag and the count are set, all other slots stay |
| WfbProcessor.Aggregator.ProcessFragment | src/wifi/WFBProcessor.cpp:349-431 | one decrypted fragment is exactly one step of the receive window, with the same emissions, on the ring of slots and buffers |
| WfbProcessor.Aggregator.StartSession | src/wifi/WFBProcessor.cpp:296-306 | a new session key replaces the session and keeps the loss counter and what was delivered |
| WfbProcessor.Aggregator.ProcessPacket | src/wifi/WFBProcessor.cpp:220-431 | by size, type, session data and nonce, field by field: a data packet with nonce 256 * block + fragment is one step with that fragment, an acceptable session packet with a new key restarts the session, and any other packet changes nothing |
| WfbProcessor.Aggregator.SessionFaithful | src/wifi/WFBProcessor.cpp:220-455 | after any packets, if those taken in are authentic, everything sent is the transmitter's, in order and at most once, and what is delivered are the payloads it wrapped into them |
| WfbProcessor.Aggregator.SessionComplete | src/wifi/WFBProcessor.cpp:220-455 | after complete consecutive blocks the aggregator has sent exactly their primaries and no slot is live |
| WfbProcessor.Aggregator.SessionInterleaved | src/wifi/WFBProcessor.cpp:220-455 | the same for orderly interleaved blocks |
| WfbProcessor.Aggregator.SessionKeeps | src/wifi/WFBProcessor.cpp:220-455 | a primary packet the aggregator took in neither late nor twice has been sent or still waits in a live slot |
| WfbProcessor.Aggregator.SessionDelivers | src/wifi/WFBProcessor.cpp:220-431 | a block of which k different fragments arrived in time has been sent whole by the aggregator |
| WfbProcessor.Aggregator.SessionLoss | src/wifi/WFBProcessor.cpp:434-445 | the aggregator's own counter and sequence number: lost plus sent is last - first + 1 in numbers block * k + fragment |
| Lifecycle.NextInv | src/openprlx_main.cpp:221-254 | every step of supervisor, capture threads and server keeps the lifecycle invariant |
| Lifecycle.OneThread | src/wifi/WFBReceiver.cpp:77-90 | in every interleaving there is at most one capture thread, and captureFinished means it has made its last write |
| Lifecycle.StopEnds | src/wifi/WFBReceiver.cpp:182-228 | one step: a thread told to stop stays told, whoever moves, and a move of its own brings it nearer to its end |
| Lifecycle.StopsInSeven | src/wifi/WFBReceiver.cpp:182-228 | in every interleaving, a thread told to stop is over at some moment of any run with seven moves of its own |
| Lifecycle.StoppingIsTold | src/wifi/WFBReceiver.cpp:382-387 | in every reachable state that reads Stopping the thread has been told to stop, or is by the supervisor's next move |
| Lifecycle.SettledStep | src/wifi/WFBReceiver.cpp:382-388 | a step breaks "a finished thread leaves Idle or Error" exactly if it is a late store of Stop |
| Lifecycle.ReapableIff | src/openprlx_main.cpp:223-231 | a run keeps the supervisor able to reap at every moment if and only if Stop is never late in it |
| Lifecycle.Reaps | src/openprlx_main.cpp:224-231 | in every interleaving with four supervisor moves from the loop head, and no order to quit, a settled finished thread is joined and the flag cleared |
| Lifecycle.LateIsFinal | src/wifi/WFBReceiver.cpp:382-388 | after one late store the state reads Stopping for ever, no session starts again, and the thread stays unjoined until the daemon is down |
| Lifecycle.LateHappens | src/wifi/WFBReceiver.cpp:209-228 | a concrete interleaving with an adapter fault between the load and the store of Stop reaches that |
| Lifecycle.CheckedStep | src/ControlServer.h:421-440 | a step makes a held, staged or applied retune foreign to its session if and only if a session begins while its handler is between check and staging |
| Lifecycle.TunesBelong | src/ControlServer.h:421-440 | every retune applied is in range and was staged in the session it is applied to; no retune is ever held, staged or applied outside the session that accepted it if and only if no session begins between a handler's check and its staging |
| Lifecycle.ForeignTuneApplies | src/ControlServer.h:421-440 | from every state in which a handler holds a retune of an earlier session and the new session has cleared its mailbox, staging and the session's own moves apply it |
| Lifecycle.StraddleHappens | src/Context.h:172-177 | a concrete interleaving in which a retune accepted in one session is applied in the next |
| LifecycleOutcomes.FailureShows | src/wifi/WFBReceiver.cpp:186-213 | an adapter that fails while brought up or read from makes the state Error with the thread's next move, whoever moves in between |
| LifecycleOutcomes.LeavesQuietly | src/wifi/WFBReceiver.cpp:223-228 | a thread that has left its loop makes its last write of the state within two moves of its own, in every interleaving |
| LifecycleOutcomes.ErrorStays | src/wifi/WFBReceiver.cpp:223-226 | over every run the state reads Error until, and only until, Stop stores over it or a new session begins |
| LifecycleOutcomes.OpenFails | src/wifi/WFBReceiver.cpp:108-114 | a device that does not open leaves Error and no thread |
| LifecycleOutcomes.KeyFails | src/wifi/WFBReceiver.cpp:291-297 | a key that cannot be loaded leaves Error, and the thread goes on reading |
| LifecycleOutcomes.JoinWaits | src/wifi/WFBReceiver.cpp:394-400 | the supervisor does not get past a join while the thread runs |
| LifecycleOutcomes.StopObeyed | src/openprlx_main.cpp:232-235 | in every interleaving, a stop request is followed within seventeen supervisor moves by the order to the thread |
| LifecycleOutcomes.StopMarks | src/wifi/WFBReceiver.cpp:382-388 | Stop on a session it sees active stores Stopping, whoever moves in between |
| LifecycleOutcomes.StopEndsIdle | src/wifi/WFBReceiver.cpp:182-228 | a thread told to stop at its loop head ends in Idle with captureFinished set, if there was no error and the supervisor waits |
| LifecycleOutcomes.TuneAccepted | src/ControlServer.h:421-440 | a retune is accepted exactly while streaming, for channels 1 to 177 and widths -1 to 2 |
| LifecycleOutcomes.StartAccepted | src/ControlServer.h:398-419 | a start is accepted exactly if it is valid and the state is Idle or Error |
| LifecycleOutcomes.RequestKept | src/openprlx_main.cpp:236-250 | a start request is kept until a session begins, the missing adapter shows, or the joinable guard drops it |
| LifecycleOutcomes.StartWaits | src/openprlx_main.cpp:238-242 | while a session runs, stops or is not yet reaped, the request goes back |
| LifecycleOutcomes.StartOutcome | src/wifi/WFBReceiver.cpp:77-157 | the whole new state after a pending start: streaming with one thread, cleared flags and mailbox; Error if the device does not open; Error and no session without an adapter |
| LifecycleOutcomes.ShutsDown | src/openprlx_main.cpp:255-262 | in every interleaving, once told to quit, twenty supervisor moves, seven of a thread and one more of the supervisor leave the daemon down with no thread |
| ConditionalTable.EntriesWords | 3rd/rtl8812au-monitor-pcap/src/HalModule.cpp:443-445 | the word pairs of a table are its entries again |
| ConditionalTable.Markers | 3rd/rtl8812au-monitor-pcap/src/HalModule.cpp:447-461 | which first words are writes, negative conditions, IF, ELSE and ENDIF markers, by number |
| ConditionalTable.InterpretBranch | 3rd/rtl8812au-monitor-pcap/src/HalModule.cpp:457-473 | a branch's writes are done exactly if its condition holds and no earlier branch was taken |
| ConditionalTable.InterpretChain | 3rd/rtl8812au-monitor-pcap/src/HalModule.cpp:447-475 | a chain does the writes of its first branch that holds, else those of ELSE, and leaves the flags at rest |
| ConditionalTable.FlatMeans | 3rd/rtl8812au-monitor-pcap/src/HalModule.cpp:1357-1404 | the loop over any flattened program does exactly the writes the program means, in order |
| ConditionalTable.NestingFails | 3rd/rtl8812au-monitor-pcap/src/HalModule.cpp:1787-1821 | an inner chain in a branch that is not taken is evaluated and writes: chains do not nest |
| ConditionalTable.SmallTable | 3rd/rtl8812au-monitor-pcap/src/HalModule.cpp:441-484 | a table of ten entries with an IF, an ELSE IF, an ELSE and a plain write, for all its words: which are written, and what the condition is asked with |
| ConditionalTable.FlatMarked | 3rd/rtl8812au-monitor-pcap/src/HalModule.cpp:1357-1404 | every flattened program has its markers in order: IF with its condition, ELSE once and last, ENDIF, no nesting |
| ConditionalTable.Structured | 3rd/rtl8812au-monitor-pcap/src/HalModule.cpp:1357-1404 | conversely, every table whose markers are in order is the flattening of a program, which is built |
| ConditionalTable.MarkedIff | 3rd/rtl8812au-monitor-pcap/src/HalModule.cpp:1357-1404 | a table stands for a program if and only if its markers are in order |
| ConditionalTable.ReadAndConfig | 3rd/rtl8812au-monitor-pcap/src/HalModule.cpp:433-481 | the loop with its six variables computes that interpretation: on every table whose markers are in order, the meaning of the program it stands for |
| Efuse.ReplayLast | 3rd/rtl8812au-monitor-pcap/src/EepromManager.cpp:387-470 | replaying a log leaves in each word the last value written to it, 0xFFFF if there is none |
| Efuse.ReadPacketAdvances | 3rd/rtl8812au-monitor-pcap/src/EepromManager.cpp:380-468 | whatever the cells hold, each round ends the loop or moves the address forward |
| Efuse.PacketRead | 3rd/rtl8812au-monitor-pcap/src/EepromManager.cpp:384-467 | one round reads one packet, with a short or an extended header |
| Efuse.LogRead | 3rd/rtl8812au-monitor-pcap/src/EepromManager.cpp:380-468 | from a packet's header on the reader replays the rest of the log |
| Efuse.RoundTrip | 3rd/rtl8812au-monitor-pcap/src/EepromManager.cpp:336-486 | for every non-empty log that fits, with a blank cell after it if there is room, whose packets outside the map are skipped right, the reader returns each word's last write |
| Efuse.SkipExact | 3rd/rtl8812au-monitor-pcap/src/EepromManager.cpp:444-458 | for a section outside the map the unshifted enable bits pass over exactly the data if and only if all four words are updated, or the first one is and the data ends with the last cell |
| Efuse.MisreadLog | 3rd/rtl8812au-monitor-pcap/src/EepromManager.cpp:444-458 | a log that updates one word of section 64 and then the first word of the map is read as if the second update had not been made |
| Efuse.ShortHeader | 3rd/rtl8812au-monitor-pcap/src/EepromManager.cpp:411-414 | by its bytes: a short header, one word and a blank cell set that word of that section |
| Efuse.ExtendedHeader | 3rd/rtl8812au-monitor-pcap/src/EepromManager.cpp:385-410 | the same for an extended header of two bytes |
| Efuse.FourWords | 3rd/rtl8812au-monitor-pcap/src/EepromManager.cpp:416-443 | four words follow in ascending order, each with its low byte first |
| Efuse.EmptyExtended | 3rd/rtl8812au-monitor-pcap/src/EepromManager.cpp:399-406 | an extended header that enables no word is passed over |
| Efuse.CutShort | 3rd/rtl8812au-monitor-pcap/src/EepromManager.cpp:424-440 | a word cut off by the end of the cells keeps a zero high byte and ends the reading |
| Efuse.MapWord | 3rd/rtl8812au-monitor-pcap/src/EepromManager.cpp:473-480 | the map holds each word with its low byte first |
| Efuse.ReadOnePacket | 3rd/rtl8812au-monitor-pcap/src/EepromManager.cpp:384-467 | one round of the loop as it runs, on the word array |
| Efuse.ReadEFuse | 3rd/rtl8812au-monitor-pcap/src/EepromManager.cpp:336-486 | a range outside the map or a blank efuse leaves the buffer; otherwise the requested bytes are those of the replayed log, each word's last write with its low byte first, the rest of the buffer stays, and any contents are read within bounds |
| FrameParser.SeesFrame | 3rd/rtl8812au-monitor-pcap/src/FrameParser.cpp:74-109 | at a well-formed frame the parser finds its lengths, its kind and its payload |
| FrameParser.DescriptorBits | 3rd/rtl8812au-monitor-pcap/src/FrameParser.cpp:14-58 | the fields used are the bits 0-13, 14, 15, 16-19 and 24-25 of the first word and bit 28 of the third, little-endian |
| FrameParser.FirstFrame | 3rd/rtl8812au-monitor-pcap/src/FrameParser.cpp:81-153 | by the descriptor's bytes: what ends the transfer, what is returned, and where parsing goes on |
| FrameParser.RoundTrip | 3rd/rtl8812au-monitor-pcap/src/FrameParser.cpp:74-158 | for every list of well-formed frames on eight-byte boundaries the parser returns the payloads of the received ones, in order, whether the transfer ends there or goes on with a descriptor it rejects |
| FrameParser.DamagedEnds | 3rd/rtl8812au-monitor-pcap/src/FrameParser.cpp:83-89 | a descriptor with an error bit ends the transfer: the frames before it are returned, neither it nor anything behind it is |
| FrameParser.ShortTail | 3rd/rtl8812au-monitor-pcap/src/FrameParser.cpp:92-99 | fewer bytes than a descriptor end the transfer whatever lies behind them |
| FrameParser.Round8 | 3rd/rtl8812au-monitor-pcap/src/FrameParser.cpp:66-72 | the shifts round up to the next multiple of eight |
| FrameParser.ReceiveFrames | 3rd/rtl8812au-monitor-pcap/src/FrameParser.cpp:74-158 | the loop terminates on every transfer and computes that |

## Left out

- Cryptography (session boxes, packet decryption, key vault): a packet carries what its decryption yields, if it succeeds; the end-to-end statements assume that what decrypts is what the transmitter sent.
- Devices, USB calls, sockets, HTTP and logging: outcomes are inputs of the model (`opens`, `ok`, `hasVidpid`), and cells are functions from addresses to bytes.
- The counters of packets received, decrypted, bad, overridden and recovered: only the loss counter feeds a promise.
- Memory management (`malloc`, `free`, `fec_free`, the magic word, `deinit_fec`): a new session simply gets new buffers.
- `fragment_map` and the per-slot counters live in a slot value that is overwritten as a whole; the fragment buffers themselves are arrays shared and updated in place.
- The C pointers into matrices are an array with a start index; whether a pointer one past the end may be formed is not modelled.
- GaussJordan.InvertMat: a failed assertion ends the routine with `ok` false, as in a build with assertions; what a build without them goes on to compute for a singular matrix is not modelled.
- FecCodec.FecDecode: is stated for k <= 255, because with k = 256 its loops do not end (`FecCodec.CounterEnds`); session packets cannot ask for it.
- Codec detection, SDP, stream description and key reseeding beyond its effect on the session state.
- `check_positive` is an arbitrary predicate of the three words, and the five register tables are not copied; the device write for a plain entry is recorded as the entry, before the address and data truncation of the mac table.
- Efuse packets that update no word at all, which some headers cannot express.
- Reading of the fields of a received descriptor other than lengths, error bits and the report flag.
- That a start request is never lost: one taken between a thread's last state write and `captureFinished` is refused by the joinable guard and dropped.
- That the oldest block always has sent its arrived prefix: a block that becomes the oldest waits for its next fragment.
- The lifecycle is a step function on one value rather than classes with fields: each shared access is a step, in one global order, as the default atomics and the mutexes give it; weaker memory orders are not modelled.
- Liveness and timing: how soon a request is served, sleeps, and the driver's read timeout.
