# A Reed-Solomon code and three simulation kernels, verified

The project models two groups of components.

**The Reed-Solomon encoder and decoder** of `spec/src/general_RS.c`: a code over GF(2^8) with
p(X) = 1 + X^2 + X^3 + X^4 + X^8, systematic shift-register encoding and errors-only decoding by syndromes,
Berlekamp's table, Chien search and Forney's formula. The number of parity symbols `n`, the number of correctable
errors `tt` (with `n == 2 * tt`) and the first root `b0` are parameters; the source's constants are `tt = 8`,
`n = 16`, `b0 = 0`, the outer code of section 8.3.3.2.1 of IEEE Std 802.16-2004. The code length is 255. The main result is
the promise at the head of `decode_rs`: a word that differs from a codeword in at most `tt` symbols is turned into
that codeword. `DecodeRs` is proved against the predicate `Decoded`, which says for *every* received word what
each of the four return values means; `Guarantees` and `Session` draw the consequences.

**Three containers of the bundled SystemC headers** (IEEE Std 1666-2011): the scheduler's ready-to-run queues
(section 4.2.1), the primitive channel `sc_fifo` (section 6.23) and the time-ordered list of the payload event
queue (section 16.3), the latter with the loop that delivers timed events.

The imperative code is kept imperative: arrays that change between *index form* (the exponent of the primitive
element, -1 for zero) and *polynomial form* (the symbol), a two-dimensional table whose last row alone is in
polynomial form, and linked nodes whose `next` fields are rewritten. Every method is proved against mathematical
definitions, and the theorems are about those.

| file | contents |
|---|---|
| `BitMultiplier`, `GF256` | the bit-level multiplier and the field laws, by way of powers of 2 |
| `Sums`, `Polynomials`, `PowerSums` | finite sums, roots and locators, weighted power sums |
| `Berlekamp`, `Forney` | shortest recurrences; from recurrences to locators and weights |
| `Words` | words, syndromes, corrections, distance, the distance bound |
| `Tables`, `Generator`, `Encoder` | `generate_gf`, `gen_poly`, `encode_rs` |
| `SyndromeStep`, `KeyEquation`, `Correction`, `Decoder` | the stages of `decode_rs` and their composition |
| `Guarantees`, `Session` | what encoder and decoder guarantee together; a whole transmission |
| `Fifo`, `Scheduling` and `Runnable`, `EventList` and `EventRuns` | the three SystemC containers |

## How the proof of decoding goes

1. `Add` and `Mul` are exclusive or and `galois`, known to all later proofs by their laws alone. `galois` is proved to
   commute with doubling in its first factor. Hence products of powers of 2 are powers of 2, and since 2 has order exactly
   255 every nonzero symbol is a power. The field laws follow.
2. Weights at `w` distinct locators cannot have `w` consecutive power sums equal to zero. This gives the minimum
   distance, and also that no coefficient of the generator polynomial is zero.
3. If a recurrence first fails at place `u`, then any recurrence that holds up to `u` is long. With it the table
   invariant `Table` says that every row is a *shortest* recurrence for its prefix of the syndromes.
4. A shortest recurrence is never longer than the number of errors, and if there are few enough errors it has a
   root for each of them. So neither the early exit nor the root count can fail within reach.
5. Conversely, when the roots are as many as the degree, error values that satisfy Forney's equation reproduce all
   `n` syndromes, because the difference of two evaluator polynomials vanishes at more points than its degree. So
   a return of 1 always leaves a codeword.

## Where the code differs from its comments, or from itself

- `decode_rs` gives the rows of `elp` `nn-kk` columns, but line 323 can write column `nn-kk` of the last row. In the
  model the rows have one more column, and a ghost result `wide` records whether a column beyond the source's was
  written. `DecodeRs` proves of every run that this happens if and only if the last syndrome of the received word is
  the only nonzero one, and that the return value is then 3. `WithinReachNoOverflow` shows that no word within `tt`
  symbols of a codeword is of that kind; `OverflowHappens` and `DecodeOverflowing` give a word that is.
- The comment above `is_empty` speaks of the push queue; the code checks push and pop lists. The model follows
  the code.
- The layout documented above `encode_rs` puts the parity symbols low, `main` puts them high. `Rotation` shows that
  one is a codeword exactly when the other is.

## Model

| member | source | states |
|---|---|---|
| GF256.MulTwo | spec/src/general_RS.c:168-177 | galois by 2 is the shift with conditional reduction by which generate_gf steps from one power to the next |
| GF256.MulShift | spec/src/general_RS.c:104-152 | the bit equations, of 11 to 24 terms, commute with doubling of the first factor |
| GF256.ExpAdd | spec/src/general_RS.c:104-152 | galois of two powers of 2 is the power whose exponent is the sum |
| GF256.Order | spec/src/general_RS.c:58-64 | no smaller positive power than nn of the primitive element is 1: p(X) is primitive |
| GF256.ExpOnto | spec/src/general_RS.c:87-95 | every nonzero symbol is a power of the primitive element with exponent below nn |
| GF256.ExpPeriod | spec/src/general_RS.c:76-77 | for every natural e the e-fold power equals the table entry at e mod nn |
| GF256.LogExp | spec/src/general_RS.c:73-75 | logarithm and power are mutually inverse on nonzero symbols |
| GF256.MulComm | spec/src/general_RS.c:104-152 | galois is commutative on all symbols |
| GF256.MulAssoc | spec/src/general_RS.c:104-152 | galois is associative on all symbols |
| GF256.Distribute | spec/src/general_RS.c:104-152 | galois distributes over exclusive or |
| GF256.NoZeroDivisors | spec/src/general_RS.c:104-152 | a product is zero exactly when a factor is |
| Tables.GenerateGf | spec/src/general_RS.c:154-179 | alpha_to holds the powers of 2 under galois and index_of the exponent of every symbol, -1 for zero |
| Tables.IndexSum | spec/src/general_RS.c:195-201 | looking up a sum of indices mod nn multiplies the symbols |
| Tables.IndexChain | spec/src/general_RS.c:73-100 | any chain of index sums mod nn is the galois product of its factors |
| Generator.GenPoly | spec/src/general_RS.c:182-205 | gg holds, in index form, the coefficients of the product of X + @^(b0+m) for m = 0..n-1 |
| Generator.GenRoots | spec/src/general_RS.c:184-187 | the generator vanishes at each of its n roots |
| Generator.GenConstant | spec/src/general_RS.c:201 | the constant coefficient is never zero, after any number of outer steps |
| Generator.GenMonic | spec/src/general_RS.c:194-196 | the leading coefficient is 1 |
| Generator.GenNonzero | spec/src/general_RS.c:223-225 | no coefficient of the generator is zero, so no index of it is -1 |
| Encoder.DivisionStep | spec/src/general_RS.c:220-232 | feeding one message symbol into the register keeps, coefficient by coefficient, message times X^n plus register equal to g times a quotient, whatever the feedback |
| Encoder.EvalProduct | spec/src/general_RS.c:208-214 | the value of such a product at any symbol is the product of the values |
| Encoder.EncodeRs | spec/src/general_RS.c:208-233 | parity followed by data is, coefficient by coefficient, g times a quotient with as many coefficients as there are message symbols, and vanishes at all n roots |
| Encoder.GenLookup | spec/src/general_RS.c:224-225 | the encoder's lookups alpha_to[gg[j]] are inside the table and give the coefficients of g |
| SyndromeStep.ToIndexForm | spec/src/general_RS.c:249 | recd becomes the index form of the received word |
| SyndromeStep.ToPolynomialForm | spec/src/general_RS.c:417-422 | converting back restores the word exactly |
| SyndromeStep.ComputeSyndromes | spec/src/general_RS.c:251-261 | s[1..n] are the values of the word at the roots, in index form, and the flag says exactly whether the word is not a codeword |
| Words.DiffExact | spec/src/general_RS.c:236-239 | the list of differences that defines the distance contains exactly the places where the words differ |
| Words.EvalCorrected | spec/src/general_RS.c:411 | adding error values at distinct places adds value times locator power to every evaluation |
| Words.MinimumDistance | spec/src/general_RS.c:184 | two different words that vanish at n consecutive roots differ in more than n symbols |
| Words.SyndromesOfErrors | spec/src/general_RS.c:251-252 | the syndromes of a received word are the power sums of the difference from any codeword |
| PowerSums.VanishingPowerSums | spec/src/general_RS.c:251-252 | weights at w distinct locators whose first w power sums vanish are all zero |
| Berlekamp.LengthBound | spec/src/general_RS.c:290-343 | if one recurrence first fails at u and another holds up to u, their lengths add up to at least u |
| Berlekamp.BestGap | spec/src/general_RS.c:300-314 | the greatest u_lu[q] among earlier rows with nonzero discrepancy always equals the current length, less one |
| Berlekamp.StepZero | spec/src/general_RS.c:293-299 | carrying a row over when its discrepancy is zero keeps every row a shortest recurrence |
| Berlekamp.StepNonzero | spec/src/general_RS.c:315-327 | combining with the best earlier row keeps every row a shortest recurrence, and the new length is max(l[u], u-l[u]) |
| KeyEquation.FindBest | spec/src/general_RS.c:300-312 | the two search loops find an earlier row of nonzero discrepancy with greatest u_lu |
| KeyEquation.CopyRow | spec/src/general_RS.c:293-299 | row u+1 is row u in polynomial form, row u goes to index form, earlier rows stay |
| KeyEquation.FormRow | spec/src/general_RS.c:315-327 | the new row is row u plus the ratio of discrepancies times X^(u-q) times row q, with the stored length; row u goes to index form; a column beyond the source's n is written exactly at u = n when only s[n] is nonzero |
| KeyEquation.RatioCancels | spec/src/general_RS.c:323 | the factor alpha_to[d[u]+nn-d[q]] times discrepancy q is discrepancy u |
| KeyEquation.FormDiscrepancy | spec/src/general_RS.c:332-342 | d[u+1] is the index form of the sum of elp[u+1][i]*s[u+1-i] over the whole row |
| KeyEquation.BerlekampStep | spec/src/general_RS.c:291-343 | one pass keeps the table: lengths, gaps, discrepancies and mixed-form rows all describe shortest recurrences; it writes beyond the source's columns exactly at u = n when only s[n] is nonzero |
| KeyEquation.BerlekampIteration | spec/src/general_RS.c:275-346 | at the end row u is a shortest recurrence for s[1..u-1] with constant term 1, and covers all n syndromes unless l[u] exceeds tt; the run writes beyond the source's columns if and only if only the last syndrome is nonzero |
| KeyEquation.ColumnOverflow | spec/src/general_RS.c:320-323 | in any table, forming a row reaches column n exactly when u is n and s[n] is the only nonzero syndrome |
| Guarantees.WithinReachNoOverflow | spec/src/general_RS.c:320-323 | that pattern of syndromes, for which decode_rs writes beyond a row, never occurs within tt symbols of a codeword |
| Guarantees.OverflowHappens | spec/src/general_RS.c:320-323 | the product of the first n-1 factors of the generator has that pattern of syndromes, for every b0 and n |
| Guarantees.DecodeOverflowing | spec/src/general_RS.c:242-445 | on that word decode_rs does write beyond a row, returns 3 and leaves the word as it is |
| Correction.ChienRound | spec/src/general_RS.c:357-362 | the registers advance by one exponent and q is the value of the locator polynomial there |
| Correction.ChienSearch | spec/src/general_RS.c:352-368 | root lists exactly the exponents 1..nn of roots, in order, loc their complements, and count never exceeds l[u] |
| Correction.RootsLocate | spec/src/general_RS.c:363-367 | the places found are distinct, are inverse to the roots, and are fewer than the coefficients |
| Correction.FormZ | spec/src/general_RS.c:371-385 | z is the index form of the locator polynomial plus X times the error evaluator of the syndromes |
| Correction.ErrorValue | spec/src/general_RS.c:394-410 | the computed value, as a weight, solves Forney's equation at its root |
| Correction.DenominatorIndex | spec/src/general_RS.c:405-409 | the sum of indices is the exponent of the product over the other locators |
| Correction.Numerator | spec/src/general_RS.c:395-399 | the numerator is the value of z(X) at the root |
| Forney.LocatorGenerates | spec/src/general_RS.c:270-273 | the polynomial of the true error locators is a recurrence for all syndromes |
| Forney.ErrorsLocated | spec/src/general_RS.c:352-369 | a recurrence for n syndromes has a root for every error if its length plus the number of errors is at most n |
| Forney.WeightsReproduce | spec/src/general_RS.c:387-413 | weights that solve Forney's equation at all roots of a fully split recurrence reproduce all n syndromes |
| Forney.Denominator | spec/src/general_RS.c:405-409 | the locator polynomial divided by one factor is, at its root, the product over the other locators |
| Decoder.CorrectErrors | spec/src/general_RS.c:387-413 | recd becomes the received word with Forney's values added at the located places and nowhere else |
| Decoder.CorrectionIsCodeword | spec/src/general_RS.c:369-415 | that correction is a codeword within l[u] places of the received word |
| Decoder.LengthWithinErrors | spec/src/general_RS.c:343-347 | at every step the length is at most the distance to any codeword, so few errors never end the loop early |
| Decoder.RootsCoverErrors | spec/src/general_RS.c:369 | with few errors there are at least as many roots as errors |
| Decoder.DecodeRs | spec/src/general_RS.c:242-445 | for every received word: 0 exactly for codewords, 3 exactly when no recurrence of length at most tt exists, 1 only with a codeword within tt places, 2 and 3 only when there is none, and recd unchanged unless 1; the run writes beyond a row of elp if and only if the last syndrome alone is nonzero, and then returns 3 |
| Decoder.LastOnlyOutOfReach | spec/src/general_RS.c:426-434 | when only the last syndrome is nonzero no recurrence of length tt or less exists, so the return value is 3 |
| Guarantees.FullCorrection | spec/src/general_RS.c:236-239 | with at most tt errors recd is the sent codeword and the result is 0 or 1 by whether there were errors |
| Guarantees.SuccessExactly | spec/src/general_RS.c:236-239 | the result is 0 or 1 if and only if some codeword lies within tt places |
| Guarantees.Deterministic | spec/src/general_RS.c:236-239 | result and final word are determined by the received word through that specification |
| Guarantees.Stable | spec/src/general_RS.c:413-444 | decoding again after 0 or 1 returns 0 and changes nothing |
| Guarantees.Rotation | spec/src/general_RS.c:501-509 | parity-then-data is a codeword if and only if data-then-parity is |
| Guarantees.ParityUnique | spec/src/general_RS.c:209-214 | no other parity symbols complete the message to a codeword |
| Guarantees.MessagesApart | spec/src/general_RS.c:209-214 | codewords of different messages differ in at least n+1 places |
| Session.LayOut | spec/src/general_RS.c:501-509 | recd is data followed by parity |
| Session.Transmit | spec/src/general_RS.c:459-532 | tables, generator, encoding, layout, noise and decoding: noise on at most tt symbols is removed, for every message |
| Fifo.ReadsInOrder | SystemC/include/sysc/communication/sc_fifo.h:244-286 | over any run what is read is the next stretch of what was written, in order |
| Fifo.AcceptedAreKept | SystemC/include/sysc/communication/sc_fifo.h:274-286 | over any run the channel keeps exactly the values of the writes that found room, in order |
| Fifo.PrefixOfWrites | SystemC/include/sysc/communication/sc_fifo.h:244-286 | from a new channel the values read are a prefix of the values of the writes that found room |
| Fifo.DeltaVisibility | SystemC/include/sysc/communication/sc_fifo.h:337-353 | without an update, reads come only from values visible at the start and writes fit the space free at the start |
| Fifo.NoInterference | SystemC/include/sysc/communication/sc_fifo.h:94-115 | within a delta cycle reader and writer each get what they would get alone, under any interleaving |
| Fifo.UpdateSettles | SystemC/include/sysc/communication/sc_fifo.h:350-352 | after an update everything unread is available and all other slots are free |
| Fifo.FillAndDrain | SystemC/include/sysc/communication/sc_fifo.h:242-286 | values that fit are returned by as many reads after an update, all of them and in order, and after another update the channel is free again |
| Fifo.FillTwice | SystemC/include/sysc/communication/sc_fifo.h:242-353 | a new channel takes up to size values, returns exactly these after an update, and after another update takes as many again |
| Fifo.ScFifo.constructor | SystemC/include/sysc/communication/sc_fifo.h:358-389 | a new channel is empty, with nothing visible |
| Fifo.ScFifo.Create | SystemC/include/sysc/communication/sc_fifo.h:375-389 | a size that is not positive yields the error and no channel |
| Fifo.ScFifo.NbRead | SystemC/include/sysc/communication/sc_fifo.h:242-253 | takes the oldest unread value that is visible and advances by one, or fails and changes nothing |
| Fifo.ScFifo.NbWrite | SystemC/include/sysc/communication/sc_fifo.h:274-286 | appends the given value if there is room counted from the last update, or fails and changes nothing |
| Fifo.ScFifo.BufRead | SystemC/include/sysc/communication/sc_fifo.h:403-416 | takes and clears the cell at the read index, or fails when the buffer is empty |
| Fifo.ScFifo.BufWrite | SystemC/include/sysc/communication/sc_fifo.h:389-401 | fills the cell at the write index, or fails when the buffer is full |
| Fifo.ScFifo.Update | SystemC/include/sysc/communication/sc_fifo.h:337-353 | keeps the values, makes everything written available and every other slot free, and tells which events are notified |
| Fifo.ScFifo.CountersAgree | SystemC/include/sysc/communication/sc_fifo.h:95-115 | used slots are m_num_readable - m_num_read + m_num_written, so the ignored results of buf_read and buf_write are true |
| Scheduling.Conservation | SystemC/include/sysc/kernel/sc_runnable_int.h:104-480 | over any run, processes queued plus handed out plus removed are those queued at first plus inserted, for each process |
| Scheduling.NeverTwice | SystemC/include/sysc/kernel/sc_runnable_int.h:61-67 | if processes are queued only when not queued already, none is ever in the queues twice |
| Scheduling.FirstInFirstOut | SystemC/include/sysc/kernel/sc_runnable_int.h:184-197 | with pushes to the back, pops and toggles, processes run in the order pushed |
| Scheduling.DeltaCycle | SystemC/include/sysc/kernel/sc_runnable_int.h:184-197 | processes pushed to the back are handed out, all of them and in order, after one toggle |
| Scheduling.FrontRunsFirst | SystemC/include/sysc/kernel/sc_runnable_int.h:219-239 | after a push to the front and a toggle that process is handed out first, then the earlier ones in their order |
| Scheduling.NextRunsNext | SystemC/include/sysc/kernel/sc_runnable_int.h:104-109 | a process to be executed next is the one handed out next, and the lists are then as before |
| Scheduling.ToggleAndPops | SystemC/include/sysc/kernel/sc_runnable_int.h:451-465 | with nothing left to run, a toggle makes the whole push list run, in order |
| Scheduling.ToggleWaits | SystemC/include/sysc/kernel/sc_runnable_int.h:451-465 | while something is left to run, a toggle changes nothing |
| Runnable.RunQueue.constructor | SystemC/include/sysc/kernel/sc_runnable_int.h:132-156 | both lists start empty, tail at the head |
| Runnable.RunQueue.Admit | SystemC/include/sysc/kernel/sc_process.h:509-518 | a process that is not queued, in particular one created later, may be queued from now on |
| Runnable.ScRunnable.constructor | SystemC/include/sysc/kernel/sc_runnable_int.h:132-156 | the lists of methods and of threads all start empty and share no process |
| Runnable.RunQueue.QueuedFlag | SystemC/include/sysc/kernel/sc_process.h:509-518 | a process has a nonzero link exactly when it is in one of the two lists |
| Runnable.RunQueue.PushBack | SystemC/include/sysc/kernel/sc_runnable_int.h:190-197 | appends the process to the push list |
| Runnable.RunQueue.PushFront | SystemC/include/sysc/kernel/sc_runnable_int.h:225-239 | puts the process in front of the push list; it becomes the tail of an empty list |
| Runnable.RunQueue.ExecuteNext | SystemC/include/sysc/kernel/sc_runnable_int.h:104-109 | puts the process in front of the pop list |
| Runnable.RunQueue.Pop | SystemC/include/sysc/kernel/sc_runnable_int.h:272-289 | takes the first process of the pop list and clears its link, or returns null exactly when that list is empty |
| Runnable.RunQueue.RemoveFromPush | SystemC/include/sysc/kernel/sc_runnable_int.h:333-351 | finds the process in the push list exactly if it is there, takes it out and keeps order and tail |
| Runnable.RunQueue.RemoveFromPop | SystemC/include/sysc/kernel/sc_runnable_int.h:353-370 | takes the process out of the pop list if it is there and keeps the order |
| Runnable.RunQueue.Remove | SystemC/include/sysc/kernel/sc_runnable_int.h:324-371 | the process is in neither list afterwards, and all others keep their order |
| Runnable.RunQueue.Toggle | SystemC/include/sysc/kernel/sc_runnable_int.h:457-465 | if the pop list is empty it becomes the push list, which becomes empty; otherwise both stay |
| Runnable.ScRunnable.IsEmpty | SystemC/include/sysc/kernel/sc_runnable_int.h:163-169 | true exactly when the push and pop lists of methods and of threads are all empty |
| EventList.InsertKeepsSorted | SystemC/include/tlm_utils/peq_with_cb_and_phase.h:90-103 | insertion keeps the list in order of time |
| EventList.InsertIsStable | SystemC/include/tlm_utils/peq_with_cb_and_phase.h:92-95 | a new event comes after all of equal time, and the order at every other time is unchanged |
| EventList.RunKeepsSorted | SystemC/include/tlm_utils/peq_with_cb_and_phase.h:78-115 | the list stays sorted over any run of insertions and deletions |
| EventList.FirstInFirstOut | SystemC/include/tlm_utils/peq_with_cb_and_phase.h:78-115 | over any run, the events pending for a time are the most recent of those inserted for it, in order of insertion |
| EventList.TimeOrderedList.constructor | SystemC/include/tlm_utils/peq_with_cb_and_phase.h:54-60 | no live nodes, no spare nodes |
| EventList.TimeOrderedList.Acquire | SystemC/include/tlm_utils/peq_with_cb_and_phase.h:79-85 | the first spare node, or a new one only when there is none spare |
| EventList.TimeOrderedList.FindPlace | SystemC/include/tlm_utils/peq_with_cb_and_phase.h:90-95 | the walk stops behind every event due no later |
| EventList.TimeOrderedList.Link | SystemC/include/tlm_utils/peq_with_cb_and_phase.h:96-104 | the node is linked in at that place and no event changes |
| EventList.TimeOrderedList.Insert | SystemC/include/tlm_utils/peq_with_cb_and_phase.h:78-105 | exactly the given event is added, at its place; live and spare nodes still partition the allocated ones |
| EventList.TimeOrderedList.DeleteTop | SystemC/include/tlm_utils/peq_with_cb_and_phase.h:107-115 | the first event goes and its node becomes the first spare one; nothing happens to an empty list |
| EventList.TimeOrderedList.Reset | SystemC/include/tlm_utils/peq_with_cb_and_phase.h:72-76 | the list is empty and every node is kept for reuse |
| EventList.TimeOrderedList.Notify | SystemC/include/tlm_utils/peq_with_cb_and_phase.h:221-234 | a notice with a delay adds exactly one event with its payload, due after that delay; one without adds none |
| EventList.TimeOrderedList.Deliver | SystemC/include/tlm_utils/peq_with_cb_and_phase.h:268-282 | delivers exactly the events at the front due now, in order, even when callbacks, which may answer each delivery differently, schedule more; the wake-up is for the next event |
| EventList.ReadyIsDue | SystemC/include/tlm_utils/peq_with_cb_and_phase.h:270-279 | if none has been missed, what is delivered is every event due now, in order of insertion |
| EventList.DeliveryMissesNothing | SystemC/include/tlm_utils/peq_with_cb_and_phase.h:270-282 | if none has been missed, the list after a delivery is sorted and lies strictly in the future |
| EventRuns.RunOnTime | SystemC/include/tlm_utils/peq_with_cb_and_phase.h:221-285 | over any run of notifications, passing time and wake-ups the alarm is set no later than the first event is due, so none is ever missed |
| EventRuns.RunPunctual | SystemC/include/tlm_utils/peq_with_cb_and_phase.h:270-279 | over any run every delivery is made at the time of its event |
| EventRuns.RunAccounted | SystemC/include/tlm_utils/peq_with_cb_and_phase.h:221-285 | over any run, for every time, the events delivered then followed by those still listed are the events booked for it, in order of booking |
| EventRuns.EveryNoticeOnce | SystemC/include/tlm_utils/peq_with_cb_and_phase.h:221-285 | over any run from a new queue, the events delivered at a past time are exactly those ever booked for it, each once and in order of booking; those for a future time are all still listed |
| EventRuns.WakeDeliversAll | SystemC/include/tlm_utils/peq_with_cb_and_phase.h:252-285 | after a wake-up everything booked for the present time has been delivered |
| EventRuns.DeliveredAsAsked | SystemC/include/tlm_utils/peq_with_cb_and_phase.h:221-285 | over any run from a new queue, what is delivered at a past time is, in order, the payload of every notice, from outside or from a callback, whose time of giving and delay add up to it |
| EventRuns.FrontDelivered | SystemC/include/tlm_utils/peq_with_cb_and_phase.h:268-282 | if the alarm is set for the first event, time may move there and a wake-up then delivers that event |
| EventRuns.RungSoonest | SystemC/include/tlm_utils/peq_with_cb_and_phase.h:221-234 | of the notifications given, the soonest is the one that remains pending |
| EventRuns.AlarmExact | SystemC/include/tlm_utils/peq_with_cb_and_phase.h:280-282 | after a wake-up with nothing due the alarm is set for exactly the first event, if there is one |

## Left out

- The random test harness and printing of `main`, and its choice of error positions (which can be 255, one past the
  end of `recd`): noise is a parameter of `Session.Transmit`.
- `impl/src/RSEncoder.h` and the other SystemC headers of the application: declarations whose bodies are not there.
- The width of C `int`: all indices and sums of logarithms are small, so mathematical integers are used.
- The order of the exclusive ors inside each line of `galois` is by bit of the second factor; exclusive or is
  associative and commutative.
- The rows of `elp` have one more column than in the source, as said above; what the write past the end does to
  other memory is not modelled.
- Blocking `read` and `write` of `sc_fifo`, and the notification of `sc_event`: the event code is not part of this
  model. `Update` returns which events are notified.
- Fifo.ScFifo.NbRead: on failure the source leaves the caller's variable as it was; the model returns a blank value.
- `sc_runnable` before `init`, when its heads are null and `remove` does nothing; the model's constructor does what
  `init` does. One class, `RunQueue`, stands for the queues of methods and for those of threads, whose code is the same.
- Queueing a process that is already queued, which the commented-out assertions in the push functions exclude.
- The payloads of immediate and delta notifications, `cancel_all`, and the code of `sc_event`. In `EventRuns` a
  notification of the event stays pending unless an earlier one replaces it, and time does not pass a pending one; an
  immediate notification is a wake-up. A callback is a function from the number of a delivery and its payload to the
  notices that it gives; simulation time is counted in ticks.
- Destructors, dumps, tracing, ports, processes and coroutines.
