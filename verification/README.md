# Libera beam-position monitor: verified models

This project models the algorithms of the Libera device stack and proves what they promise: the
kernel driver's history-buffer transfer and timekeeping, the signal arithmetic of the CSPI library,
the SPI protocol of the MSP430 voltage monitor, and the two heap structures of the CSPI side.
`dafny verify dfyconfig.toml` checks everything.

| file | what it models |
|---|---|
| `DmaProtocol.dfy` | the DMA transfer as an interleaved step system: FPGA, DMA controller, end interrupt, reader |
| `DmaStale.dfy` | a transfer that starts while the block of an aborted reader is still in flight |
| `DmaDriver.dfy` | the driver code on the shared transfer structure; each locked region is one step of the protocol |
| `Cordic.dfy` | the integer CORDIC, its accuracy, its 32-bit range and its zeros |
| `Transform.dfy` | raw atoms to positions, in place |
| `SpikeSafety.dfy` | when the spike-removal pass ends, stays in bounds and never divides by zero |
| `Spikes.dfy` | the spike-removal pass, in place |
| `Msp.dfy` | SPI master and slave, and the voltages |
| `Decimation.dfy` | the BBFP decimating copy over any split into chunks, and trigger positions |
| `BunchRead.dfy` | the BBFP read loop over the ring: which rounds deliver what is due |
| `Hunting.dfy` | the HBPP atom hunting |
| `Timestamps.dfy` | 64-bit stamps from 26-bit counters, trigger dispatch |
| `TimeBase.dfy` | setting the time, ring slots, waiting for data |
| `Clocks.dfy` | conversions between system and machine time |
| `TimePairs.dfy` | the stamp FIFOs and the joining of LST and LMT |
| `Listeners.dfy` | the event daemon's listener list and device mask |
| `Pool.dfy` | the memory pool's free list |
| `Arithmetic.dfy`, `Wrapping.dfy` | facts about products and quotients, and about 32-bit and 64-bit words |

Registers, ioctls, sleeping and signals are abstract steps or nondeterministic choices. Integers are
unbounded except where width matters: the CORDIC and the atoms use 32-bit and 64-bit types, the time
arithmetic wraps at 2^64 and its limits at 2^32. Masking with a power of two is written as a
remainder, an event mask as the set of its bit numbers.

## Where the code does not do what it is for

Each of these is stated with the exact condition under which the code does it all the same, or with
an input at which it does not; most with both.

- Averaging in spike removal (`cspi/ebpp.c:1706`): the loop advances the input pointer and keeps
  reading the atom at the start of the interval, so a hold window carries that atom, not the
  average. `AverageAmplitudes` follows the code; `AveragingHoldsOnlyForOneSample` says when the held
  atom is the mean all the same.
- Spike removal is safe for all data exactly for the parameters called `Usable`
  (`SafeForAllDataIff`). Of those the validators let pass, a window of 0 divides by zero
  (`EmptyWindowFaults`), an `averaging_stop` of `average_window` or more reads behind the data
  (`LateAveragingFaults`), and a positive `start + averaging_stop - average_window + 1` makes the
  unsigned search for the first edge run forever (`PositiveLeadHangs`) or end between two spikes
  (`PositiveLeadMisplaces`). `WellBehavedIff` gives the exact condition on parameters, edges and
  count together.
- After a read of 0 bytes the caller (`cspi.c:1226`) passes a count of 0: an atom outside the data is
  transformed, both edges come out as 1 (`EmptyRead`), and the search for the first edge ends exactly
  if that is at most 1 (`EmptyReadHangs`).
- An empty hold window that starts at the first sample wraps the unsigned stop index and fills the
  buffer with one atom: `FillsBuffer`, reached by all the parameters of `WindowAtFirstSample`.
  `OutsideIsKeptIff` says that nothing else disturbs an atom outside the windows.
- The CORDIC overflows 32 bits above a certain input energy. `CordicAmp` covers every input;
  `EnergyDecidesRange` bounds the threshold from both sides to 3 parts in ten million.
- The coordinates divide by the sum of the amplitudes, which is zero exactly for the atoms of
  `DivisorIsZeroIff`; `ZeroDivisors` shows two.
- A decimating copy whose next sample is the first one after its chunk delivers a sample from
  outside the chunk (`bbfp.c:728`). `ChunkingIsIrrelevantIff` says for which chunk lengths the copies
  join up; `AtomsHitTheBoundary` shows a stream on which they do not.
- A wrapped round of the BBFP read subtracts the decimation offset twice (`bbfp.c:984`), which loses
  samples (`OffsetIsLost`) or makes the size negative and the copy run away (`OffsetRunsAway`); the
  wrap test (`bbfp.c:979`) misses a partial atom right behind the ring (`ForeignSample`).
  `RoundIsRightIff` gives the exact condition.
- A reader aborted in its sleep leaves a block in flight (`AbortLeavesBlock`), and post-mortem
  acquisition starts its own transfer on the same structure. Until the controller is programmed anew
  (`libera_main.c:1051`), the old block draws atoms meant for the new transfer, and its end interrupt
  is taken for one of the new transfer. `ConservedIff` says that every atom is accounted for exactly
  if neither happens. After the one the transfer starves (`StaleBeatsStarve`, `TwoAtomsOneLost`);
  after the other it delivers old ring slots (`OldAtomsAreDelivered`), with an I/O error or, if both
  happen, with none (`OneOldAtom`).
- A caller of `libera_get_CTIME` that is interrupted after its trigger leaves its stamps behind, so
  that every later call returns the time of an earlier trigger: `GetMany`, `AnswerIsOwnIff` and
  `SecondCallerGetsFirstTime`. After 4095 of them the two FIFOs lose step: `FullFifosLoseStep`.
- The two ring-slot functions agree only if the origin of the buffer is at most half an atom past an
  atom boundary (`SlotFormsAgreeIff`), and a first read in LMT tiles with the next only under the
  condition of `FirstReadTilesIff`.
- `wait_lmt` ignores the length of the request: one that is served at once finds all its atoms in
  their slots exactly if the last one has been written by then (`RequestIsFreshIff`), and a request of
  two atoms more than the margin is served too early (`LongRequestIsServed`). That the read gets the
  right atoms all the same rests on the FPGA, which is said to wait for its own writing
  (`ebpp.c:1104`).
- Leaving unlinks the event FIFO that all connections of a process share: `LeavingSilencesSiblings`.
- The MSP430 protocol relies on the woken main loop running before the first poll: `WakeLate` says
  what comes of every later moment, `TornRead` and `TornWithoutPromptWake` what the worst can mix.

## Model

| member | source | states |
|---|---|---|
| DmaProtocol.Conservation | models/Libera/driver/libera-driver-2-04-ebpp/ebpp.c:1339-1639 | in every reachable state of every interleaving the request equals atoms remaining + atoms in the ring + atoms taken; the destination is a prefix of the source, and without overrun destination followed by ring contents is exactly the part of the source accounted for |
| DmaProtocol.RunIsAccounted | models/Libera/driver/libera-driver-2-04-ebpp/ebpp.c:1339-1639 | in every reachable state what is delivered, what is in the ring, what has arrived with the block in flight and what is still to come out of the OB FIFO add up, in this order, to the source |
| DmaProtocol.DeliveredIs | models/Libera/driver/libera-driver-2-04-ebpp/ebpp.c:1444-1473 | over every run the destination is the source up to the atoms taken, and from the first state that knows of an overrun on exactly the atoms taken till then |
| DmaProtocol.DeliveryGrows | models/Libera/driver/libera-driver-2-04-ebpp/ebpp.c:1444-1473 | what a state of a run has delivered no later state takes back |
| DmaProtocol.StatusTellsOverrun | models/Libera/driver/libera-driver-2-04-ebpp/libera_main.c:1125-1141 | every step that reads the status of the OB FIFO learns of every overrun raised before it and of every atom that has come |
| DmaProtocol.WaitsWithoutData | models/Libera/driver/libera-driver-2-04-ebpp/ebpp.c:1092-1137 | the reader goes on waiting, or gives up, exactly while atoms are still to be moved, none is known to have come, and no overrun is known |
| DmaProtocol.EndGoesOn | models/Libera/driver/libera-driver-2-04-ebpp/libera_main.c:1147-1163 | after a block end the next block is in flight at once if and only if atoms remain, some are in the OB FIFO, and the ring is not full |
| DmaProtocol.NoBlockAfterOverrun | models/Libera/driver/libera-driver-2-04-ebpp/ebpp.c:1507-1588 | the reader starts no block once it knows of an overrun |
| DmaProtocol.FinishTells | models/Libera/driver/libera-driver-2-04-ebpp/ebpp.c:1607-1639 | without an overrun the transfer completes if and only if the OB FIFO is empty and as many atoms were taken as were asked for; with one it always does |
| DmaProtocol.TimeoutIsEarned | models/Libera/driver/libera-driver-2-04-ebpp/ebpp.c:1092-1137 | over every run the I/O error of the synchronisation comes after exactly HZ + 2 polls in a row without data or overrun |
| DmaProtocol.BlockIsLargest | models/Libera/driver/libera-driver-2-04-ebpp/libera_main.c:1070-1106 | a block is the largest that the free ring, the request, the controller, the linear tail and the OB FIFO all allow |
| DmaProtocol.BlockIsSafe | models/Libera/driver/libera-driver-2-04-ebpp/libera_main.c:1070-1106 | a block in flight lies in the linear tail of the ring, touches no unread slot, asks for no more than the OB FIFO holds, and never makes the ring look empty when it ends |
| DmaProtocol.NoOverflowAtEnd | models/Libera/driver/libera-driver-2-04-ebpp/libera_event.h:167-180 | the put index always moves at a block end: the overflow branch is dead |
| DmaProtocol.Outcome | models/Libera/driver/libera-driver-2-04-ebpp/ebpp.c:1544-1548 | after synchronisation the next block is empty only when the ring is full; the residual-data, size-mismatch and empty-ring exits are never taken; completion without overrun means the whole source was delivered, and the I/O error that atoms are still to come |
| DmaProtocol.UnreadIsSource | models/Libera/driver/libera-driver-2-04-ebpp/libera_event.h:126-135 | the unread ring slots, read with wrap-around from the get index, are the source atoms from the first one not yet taken |
| DmaProtocol.NoDeadlock | models/Libera/driver/libera-driver-2-04-ebpp/ebpp.c:1384-1426 | no reachable state has a sleeping reader without a block in flight, and some non-FPGA party can always step |
| DmaProtocol.RunIsBounded | models/Libera/driver/libera-driver-2-04-ebpp/ebpp.c:1507-1604 | every run is finite: at most 204 steps an atom plus a constant, whatever the interleaving |
| DmaProtocol.RunInv | models/Libera/driver/libera-driver-2-04-ebpp/libera_main.c:1110-1168 | the ring, flight, destination and program-counter invariants hold in every state of every run |
| DmaProtocol.StartBlockInv | models/Libera/driver/libera-driver-2-04-ebpp/libera_main.c:1087-1097 | a block of the computed size can be started from any state in which the ring invariant holds and the status is not ahead of the FIFO |
| DmaStale.AbortLeavesBlock | models/Libera/driver/libera-driver-2-04-ebpp/ebpp.c:1399-1434 | a reader aborted in its sleep always leaves a block in flight |
| DmaStale.ConservedIff | models/Libera/driver/libera-driver-2-04-ebpp/ebpp.c:1867-1940 | in the next transfer on the same structure every state accounts for every atom if and only if the old block neither draws an atom nor ends inside it |
| DmaStale.StaleBeatIsFelt | models/Libera/driver/libera-driver-2-04-ebpp/libera_main.c:1042-1066 | until the controller is programmed the atoms add up if and only if the old block has drawn none |
| DmaStale.StaleBeatsStarve | models/Libera/driver/libera-driver-2-04-ebpp/libera_main.c:1042-1066 | once the old block has drawn atoms and its end does not come in between, as many atoms stay outstanding for ever: the transfer completes with an overrun or not at all |
| DmaStale.TwoAtomsOneLost | models/Libera/driver/libera-driver-2-04-ebpp/libera_main.c:1042-1106 | two atoms wanted and in the FIFO, the first drawn by the old block: the new block asks for two where one is left, the second atom lands in the first slot, and only an abort can follow |
| DmaStale.StaleEndIsHarmlessIff | models/Libera/driver/libera-driver-2-04-ebpp/libera_main.c:1143-1147 | at a stale end the atoms add up if and only if the old block drew exactly as many as the end counts and, without an overrun, the first slots hold them |
| DmaStale.AfterStaleEnd | models/Libera/driver/libera-driver-2-04-ebpp/libera_main.c:1143-1147 | the stale end takes the size of the first block off the count and moves the put index over as many old slots, with no atom moved |
| DmaStale.OldAtomsAreDelivered | models/Libera/driver/libera-driver-2-04-ebpp/ebpp.c:1436-1473 | after a stale end the reader, left to itself, delivers the first slots of the ring, whatever they hold, as the first atoms of its request |
| DmaStale.OneOldAtom | models/Libera/driver/libera-driver-2-04-ebpp/ebpp.c:1544-1639 | one atom wanted and an old one delivered: with an I/O error, or, if the old block also drew the atom wanted, with none |
| DmaDriver.Dma.Transfer | models/Libera/driver/libera-driver-2-04-ebpp/ebpp.c:1339-1639 | whatever an earlier transfer left in the structure, if it has drawn nothing of this request, the reader program ends under every interference, and the buffer of the reader holds the source as far as it was taken before an overrun was known, all that was taken if none was, and all of the source when the transfer also completes; nothing delivered on the way is taken back; it is interrupted only by a signal and fails only while atoms are still to come; its execution is a run of the state machine |
| DmaDriver.Dma.AnyEnd | models/Libera/driver/libera-driver-2-04-ebpp/libera_main.c:1110-1168 | the interrupt handler accounts for the current block size whichever block has ended: the stale end of `DmaStale` is this code |
| DmaDriver.Dma.DmaInterrupt | models/Libera/driver/libera-driver-2-04-ebpp/libera_main.c:1110-1168 | the end interrupt is exactly one end step of the state machine |
| DmaDriver.Dma.GetCsize | models/Libera/driver/libera-driver-2-04-ebpp/libera_main.c:1070-1106 | only the block size changes, to the least of the five limits |
| DmaDriver.Dma.ObFifoSync | models/Libera/driver/libera-driver-2-04-ebpp/ebpp.c:1092-1137 | ends with data or an overrun, or with an I/O error after the wait limit |
| DmaDriver.Dma.RestartIfNeeded | models/Libera/driver/libera-driver-2-04-ebpp/ebpp.c:1507-1588 | a restart leads to the loop test, or stops with the outcome of the state machine |
| Cordic.AmpIsMagnitude | models/Libera/cspi/cordic.c:85-128 | for every input the square of the result is I^2 + Q^2 up to a relative 10^-10 and 17 S + 180 above, and up to a relative 2^-22 and 21 S + 250 below, where S = abs(I) + abs(Q) |
| Cordic.CordicAmp | models/Libera/cspi/cordic.c:85-128 | for every pair of 32-bit inputs some operation overflows if and only if the last I leaves 32 bits; otherwise the program returns that magnitude |
| Cordic.FoldKeeps | models/Libera/cspi/cordic.c:97-109 | folding keeps I^2 + Q^2 and abs(I) + abs(Q) exactly and makes I non-negative |
| Cordic.Grows | models/Libera/cspi/cordic.c:111-125 | I never decreases and is at least abs(I) + abs(Q) from the first step on |
| Cordic.Residual | models/Libera/cspi/cordic.c:111-125 | after step L the quadrature part is at most (I >> L) + L |
| Cordic.TurnEnergy | models/Libera/cspi/cordic.c:113-124 | step L multiplies I^2 + Q^2 by 1 + 4^-L up to an error linear in the new vector |
| Cordic.TotalEnergy | models/Libera/cspi/cordic.c:70-80 | with the squared gain correction the energy after twelve steps is the input energy up to a linear error |
| Cordic.Growth | models/Libera/cspi/cordic.c:111-125 | I never exceeds 9/5 of abs(I) + abs(Q) plus 13 |
| Cordic.FitsIff | models/Libera/cspi/cordic.c:111-125 | no intermediate vector leaves 32 bits if and only if the last I does not |
| Cordic.EnergyDecidesRange | models/Libera/cspi/cordic.c:85-128 | every input with I^2 + Q^2 up to 1.700587579e18 keeps within 32 bits and every input from 1.700588052e18 on overflows |
| Cordic.AmpIsZeroIff | models/Libera/cspi/cordic.c:85-128 | the magnitude is zero exactly for (0, 0) and (0, 1) |
| Transform.PositionFits | models/Libera/cspi/ebpp.c:1590-1605 | each coordinate plus its offset is bounded by its coefficient, so validated coefficients and offsets keep X, Y, Q and the sum within 32 bits |
| Transform.Mirror | models/Libera/cspi/ebpp.c:1592-1602 | exchanging left and right electrodes negates X and Q and keeps Y and the sum |
| Transform.MirrorTop | models/Libera/cspi/ebpp.c:1590-1602 | exchanging top and bottom negates Y and Q and keeps X and the sum |
| Transform.Corners | models/Libera/cspi/ebpp.c:1590-1605 | all signal on one electrode puts the beam at its corner: (+kx, +ky, +kx) for A, (-kx, +ky, -kx) for B, (-kx, -ky, +kx) for C and (+kx, -ky, -kx) for D, before offsets, with that amplitude in its own field |
| Transform.CoordinatesFollow | models/Libera/cspi/ebpp.c:1590-1602 | each coordinate grows when the electrodes it points to grow together and the other two fall together |
| Transform.AmplitudesAreLengths | models/Libera/cspi/ebpp.c:1585-1588 | each of the four amplitudes is the length of its own pair of halved raw words, up to the errors of the CORDIC |
| Transform.SignalOnOne | models/Libera/cspi/ebpp.c:1585-1605 | from raw words to position: a signal on the pair of one electrode and silence on the others gives that corner |
| Transform.DivisorIsZeroIff | models/Libera/cspi/ebpp.c:1585-1598 | the divisor of the coordinates is zero if and only if all four pairs of raw words halve to (0, 0) or (0, 1) |
| Transform.ZeroDivisors | models/Libera/cspi/ebpp.c:1585-1598 | two atoms that divide by zero, one of them with low bits set |
| Transform.RawAmpsAreValid | models/Libera/cspi/ebpp.c:1585-1590 | raw atoms of safe energies that are not all silent give non-negative 32-bit amplitudes with a positive sum |
| Transform.StoreAmplitudes | models/Libera/cspi/ebpp.c:1585-1588 | storing an amplitude over raw words never disturbs a word that a later amplitude still needs |
| Transform.TransformDd | models/Libera/cspi/ebpp.c:1616-1627 | the in-place loop over any number of atoms equals the map of the transform over the original buffer |
| SpikeSafety.WellBehavedIff | models/Libera/cspi/ebpp.c:1638-1751 | with its two edges given, the pass ends, stays in bounds and divides by no empty sum if and only if the search for the first edge ends and the windows from there on pass a test on numbers |
| SpikeSafety.EndsIff | models/Libera/cspi/ebpp.c:1689-1691 | the 32-bit search for the first edge ends if and only if there is no lead past the edge, or the largest power of two in the period leaves a residue that reaches the lead |
| SpikeSafety.RoundsSafeIff | models/Libera/cspi/ebpp.c:1699-1748 | no window reads outside the data or divides by zero if and only if there is something to average and the last window keeps its distance from the end |
| SpikeSafety.UsableIsWellBehaved | models/Libera/cspi/ebpp.c:557-603 | usable parameters are safe for all edges and counts |
| Spikes.SafeForAllDataIff | models/Libera/cspi/ebpp.c:557-603 | validated parameters are safe for all data if and only if they are usable |
| SpikeSafety.EdgeIsNatural | models/Libera/cspi/ebpp.c:1689-1691 | without a lead past the edge the search is never touched by the wrap-around |
| SpikeSafety.EmptyWindowFaults | models/Libera/cspi/ebpp.c:1719-1724 | a window of 0 divides by zero |
| SpikeSafety.LateAveragingFaults | models/Libera/cspi/ebpp.c:1704-1717 | averaging that starts behind the start of its window leaves the data |
| SpikeSafety.PositiveLeadHangs | models/Libera/cspi/ebpp.c:1689-1691 | for every lead past the edge there are edges for which the search never ends |
| SpikeSafety.PositiveLeadMisplaces | models/Libera/cspi/ebpp.c:1689-1697 | where it does end, the windows may start between the spikes |
| SpikeSafety.EmptyReadHangs | models/Libera/cspi/cspi.c:1218-1235 | after an empty read the search ends if and only if the first edge is at most 1 |
| Spikes.EmptyRead | models/Libera/cspi/cspi.c:1218-1235 | the first half of the pass with a count of 0: an atom outside the data is transformed, nothing else, and both edges are 1 |
| Spikes.EmptySearch | models/Libera/cspi/ebpp.c:1681-1691 | and the search for the first edge, when it ends, stays at 1 |
| Spikes.RemoveSpikes | models/Libera/cspi/ebpp.c:1638-1751 | whenever the pass is well-behaved, it returns code and buffer as specified by the first two trigger-bit changes of the raw data, although output overwrites input |
| Spikes.SpikesAreHeld | models/Libera/cspi/ebpp.c:1699-1748 | closed form: outside the hold windows the plain transform; inside window k, if the windows are spaced, the plain transform at the start of its averaging interval; and where the stop index wraps, one transform everywhere |
| Spikes.WindowsFollowChanges | models/Libera/cspi/ebpp.c:1681-1748 | when the trigger bit changes at regular distances, every hold window starts `start` behind a change, every later change has a window, and the first window belongs to the first change with room for averaging before it |
| Spikes.OutsideIsKeptIff | models/Libera/cspi/ebpp.c:1694-1737 | for usable parameters nothing outside the windows changes if and only if it is not so that the window is empty and the first edge accepted is at minus the start |
| Spikes.FillsBuffer | models/Libera/cspi/ebpp.c:1694-1737 | an empty window at the first sample fills the buffer with the start of its averaging interval |
| Spikes.WindowAtFirstSample | models/Libera/cspi/ebpp.c:1694-1737 | usable parameters and edges with which that happens |
| Spikes.OutsideIsKept | models/Libera/cspi/ebpp.c:1727-1737 | no window touches an atom outside the hold windows, however they overlap, unless the stop index wraps |
| Spikes.TransformAndFindEdges | models/Libera/cspi/ebpp.c:1660-1679 | for every count the atoms counted, but at least one, become their plain transform and no other changes; the edges are the first two changes of the raw trigger bit, and 1 for a count of 0 |
| Spikes.HoldAll | models/Libera/cspi/ebpp.c:1699-1748 | the window loop composes the single windows into one map of indices |
| Spikes.AverageAmplitudes | models/Libera/cspi/ebpp.c:1704-1717 | the averaging loop yields the amplitudes of the first atom of its interval |
| Spikes.AveragingHoldsOnlyForOneSample | models/Libera/cspi/ebpp.c:1706-1717 | the four amplitudes held are the floors of the means over the interval for all transformed atoms if and only if the interval is one sample long |
| Spikes.CountShifts | models/Libera/cspi/ebpp.c:1681-1684 | a window is accepted if and only if it is zero or a power of two, with its exponent |
| Spikes.IsValidAverageWindow | models/Libera/cspi/ebpp.c:572-590 | the validator accepts exactly 0, 1, 2, 4, 8 and 16 |
| Spikes.TriggerBitIsSilent | models/Libera/cspi/ebpp.c:1655-1679 | the trigger bit is the lowest bit of the first raw word, and setting it does not change the transform |
| Spikes.AveragingEnds | models/Libera/cspi/ebpp.c:1699-1706 | an averaging interval ends averaging_stop behind the start of its window and is average_window long |
| Spikes.WindowLength | models/Libera/cspi/ebpp.c:1694-1748 | a hold window covers as many atoms as it says, and one if it says none |
| Spikes.FirstUsableEdge | models/Libera/cspi/ebpp.c:1689-1691 | the edge moved to is the first, in steps of the period modulo 2^32, that is not before the first edge |
| Msp.Master.Transfer | models/Libera/msp/src/msp_main.c:210-240 | whatever the duration of conversions, the check never fails and the sixteen bytes are those of one completed conversion, a new one unless the slave was about to go to sleep |
| Msp.Master.AwaitConversion | models/Libera/msp/src/msp_main.c:220-226 | polling ends, with the slave stable and exactly one more conversion completed |
| Msp.Master.ReadData | models/Libera/msp/src/msp_main.c:236-240 | byte j comes back with request j + 1, and no byte of the table changes meanwhile |
| Msp.Master.SspExchange | models/Libera/msp/src/msp_main.c:190-205 | what comes back was loaded before the byte sent arrived |
| Msp.Slave.RxIsr | models/Libera/msp/src/msp_adc/msp_adc.c:188-205 | loads the reply and wakes the main loop only on a start request while asleep |
| Msp.Slave.MainStep | models/Libera/msp/src/msp_adc/msp_adc.c:165-182 | the table is written only between a start request and the end of a conversion |
| Msp.ReadVoltages | models/Libera/msp/src/msp_main.c:210-268 | the eight voltages delivered are those of one conversion, as the four rows below tell them |
| Msp.VoltageDependsOn | models/Libera/msp/src/msp_main.c:137-156 | each voltage depends on its own count alone, that of the supply measured against another also on count 5 |
| Msp.VoltageFollows | models/Libera/msp/src/msp_main.c:137-156 | each voltage grows with its own count, and that one falls as count 5 rises |
| Msp.ScalesBack | models/Libera/msp/src/msp_main.c:78-146 | for every channel a voltage through its divider and the converter is scaled back to within the rounding of the channel, never above it |
| Msp.SuppliesAreRecovered | models/Libera/msp/src/msp_main.c:78-156 | all eight supplies are recovered from the counts that the dividers make of them, the two negative ones among them, up to the stated rounding |
| Msp.WordsComeBack | models/Libera/msp/src/msp_main.c:139-141 | master and slave agree on the byte order |
| Msp.ScalingIsMonotone | models/Libera/msp/src/msp_main.c:142-146 | two-step scaling stays within 32 bits and never reverses two readings |
| Msp.PollWithoutMainLoop | models/Libera/msp/src/msp_main.c:220-234 | while the woken main loop stands still, the second poll ends the polling, the check passes, and the old data is offered as if it were new |
| Msp.WakeLate | models/Libera/msp/src/msp_main.c:220-234 | with the woken main loop behind by no exchange the master polls on, by one its check fails, by two or more the check passes on no data or on old data |
| Msp.TornRead | models/Libera/msp/src/msp_main.c:220-240 | then the first byte can be of the old conversion and the second of the new one, for any readings |
| Msp.TornWithoutPromptWake | models/Libera/msp/src/msp_adc/msp_adc.c:193-202 | readings with which the two bytes do not go together |
| Decimation.ChunkingIsIrrelevantIff | models/Libera/driver/libera-driver-2-04-ebpp/bbfp.c:715-770 | for chunks of given lengths the joined outputs of the copies, as the program makes them, are every dec-th sample of the stream for all streams and all memory behind the chunks if and only if no chunk ends right before the next sample due |
| Decimation.AtomsHitTheBoundary | models/Libera/driver/libera-driver-2-04-ebpp/bbfp.c:715-770 | every fifth sample of atoms that come one at a time: the fifth copy goes wrong |
| Decimation.ChunkingIsIrrelevant | models/Libera/driver/libera-driver-2-04-ebpp/bbfp.c:715-770 | decimation itself does not care how the stream is split, offsets carried over |
| Decimation.CopyIsDecimation | models/Libera/driver/libera-driver-2-04-ebpp/bbfp.c:715-770 | one copy is the decimation of its chunk except at the boundary, and its offset depends on sizes alone |
| Decimation.DecimateAt | models/Libera/driver/libera-driver-2-04-ebpp/bbfp.c:739-751 | the k-th sample of a decimated chunk is the one k decimation steps after the offset |
| Decimation.DecimateCount | models/Libera/driver/libera-driver-2-04-ebpp/bbfp.c:1056-1058 | samples passed plus samples to skip are the decimation times the samples delivered |
| Decimation.CopyBufferToUser | models/Libera/driver/libera-driver-2-04-ebpp/bbfp.c:715-770 | the copy delivers the decimated chunk and the next offset, except when the next sample due is the first after the chunk: then it delivers that sample from outside |
| Decimation.Compact | models/Libera/driver/libera-driver-2-04-ebpp/bbfp.c:739-751 | in-place compaction loses and reorders nothing |
| Decimation.RequestYields | models/Libera/driver/libera-driver-2-04-ebpp/bbfp.c:865-895 | (c - 1) * dec + 1 samples yield exactly c |
| BunchRead.AtomsCoverRequest | models/Libera/driver/libera-driver-2-04-ebpp/bbfp.c:875-916 | the atoms fetched cover the samples requested and waste less than one atom at either end |
| BunchRead.LinearCopyInBounds | models/Libera/driver/libera-driver-2-04-ebpp/bbfp.c:979-979 | a copy taken for linear stays in the ring if and only if it does not end in a partial atom right behind the ring |
| BunchRead.RoundIsRightIff | models/Libera/driver/libera-driver-2-04-ebpp/bbfp.c:965-1026 | a round, as the program makes it, delivers what is due and leaves the right offset for all contents of the ring and of the memory behind it if and only if it is sound, a condition on position, length, decimation and offset |
| BunchRead.SoundIsRight | models/Libera/driver/libera-driver-2-04-ebpp/bbfp.c:965-1026 | a sound round delivers every sample due, wrapped or not, in spite of its compaction in place |
| BunchRead.UnsoundIsWrong | models/Libera/driver/libera-driver-2-04-ebpp/bbfp.c:965-1026 | for every other round there are contents on which it delivers something else or runs away |
| BunchRead.OffsetIsLost | models/Libera/driver/libera-driver-2-04-ebpp/bbfp.c:983-1005 | a wrapped round with an offset of 1 that is not sound |
| BunchRead.OffsetRunsAway | models/Libera/driver/libera-driver-2-04-ebpp/bbfp.c:983-992 | an offset past the end of the ring makes the size negative |
| BunchRead.ForeignSample | models/Libera/driver/libera-driver-2-04-ebpp/bbfp.c:979-979 | seventeen samples from four atoms before the end of the ring: the last one is foreign |
| BunchRead.EndsBeforeDue | models/Libera/driver/libera-driver-2-04-ebpp/bbfp.c:728-734 | a linear round that ends right before the next sample due |
| BunchRead.OffsetKept | models/Libera/driver/libera-driver-2-04-ebpp/bbfp.c:983-1005 | a wrapped round with an offset that is sound all the same |
| BunchRead.Reader.CopyRound | models/Libera/driver/libera-driver-2-04-ebpp/bbfp.c:959-1044 | one round of the loop does to ring, output and offset exactly what the round as specified does, and frees its atoms; right or wrong, the samples passed and to skip are the decimation times the samples delivered |
| BunchRead.RoundCounts | models/Libera/driver/libera-driver-2-04-ebpp/bbfp.c:959-1044 | that equation for every round that does not run away |
| BunchRead.Reader.Read | models/Libera/driver/libera-driver-2-04-ebpp/bbfp.c:949-1058 | the whole read, in batches of any size: if every round is sound, the reader gets the decimation of the samples requested, one for every decimation step begun, and the position ends as many steps on |
| BunchRead.Reader.DeliverRound | models/Libera/driver/libera-driver-2-04-ebpp/bbfp.c:959-1044 | over a request loaded into the ring a sound round keeps the output the decimation of what has been processed |
| BunchRead.Reader.CopyTail | models/Libera/driver/libera-driver-2-04-ebpp/bbfp.c:979-1008 | the first copy of a wrapped round and what it leaves for the second |
| BunchRead.Reader.PositionIsNextDue | models/Libera/driver/libera-driver-2-04-ebpp/bbfp.c:1056-1058 | the stored file position is a decimation step on for every sample delivered, and if all rounds were right what is due from there is the rest of the decimation |
| Decimation.TriggerIsFirstBoundary | models/Libera/driver/libera-driver-2-04-ebpp/bbfp.c:559-578 | the trigger position is the first logical atom boundary at or after the memory atom of the trigger |
| Decimation.EarlyTriggerIsRefused | models/Libera/driver/libera-driver-2-04-ebpp/bbfp.c:559-578 | a trigger is refused if and only if it came before the arming |
| Decimation.SeekWindow | models/Libera/driver/libera-driver-2-04-ebpp/bbfp.c:651-664 | a seek ends within half a buffer of the trigger, is unclamped if and only if it asks for that, and past either end it stops at that end |
| Timestamps.StampsAreCounters | models/Libera/driver/libera-driver-2-04-ebpp/libera_main.c:539-560 | along every run with forward counters the assembled stamps equal the true counters if and only if each epoch, and nothing else, opens with a self-increment |
| Timestamps.StampsAreMonotone | models/Libera/driver/libera-driver-2-04-ebpp/libera_main.c:661-692 | stamps never run backwards on such a run |
| Timestamps.LogIsTrue | models/Libera/driver/libera-driver-2-04-ebpp/libera_main.c:661-758 | on such a run the handler dispatches every set trigger of every event once, in ascending order, with the true time plus the offset that holds for the event |
| Timestamps.SetSplitsLog | models/Libera/driver/libera-driver-2-04-ebpp/libera_main.c:722-739 | a SET trigger changes the offset once, for the events behind it |
| Timestamps.GetLeavesTime | models/Libera/driver/libera-driver-2-04-ebpp/libera_main.c:722-748 | over every run without a trigger in SET mode, whatever the triggers in GET mode, each dispatch carries its raw stamp plus the offset of the start, and the settings at the end are those of the start |
| Timestamps.SetOnce | models/Libera/driver/libera-driver-2-04-ebpp/libera_main.c:722-748 | in SET mode the settings at the end of a run are those its first trigger leaves, whatever triggers follow |
| Timestamps.SetChanges | models/Libera/driver/libera-driver-2-04-ebpp/libera_main.c:449-498 | a trigger in SET mode without an update changes only the mode; with one the driver takes a whole number of periods and the PLL less than one, together the whole offset |
| Timestamps.OnlyTriggerEight | models/Libera/driver/libera-driver-2-04-ebpp/libera_main.c:695-748 | an event without trigger 8 leaves the settings alone |
| Timestamps.DispatchesAre | models/Libera/driver/libera-driver-2-04-ebpp/libera_main.c:695-758 | the k-th dispatch of an event is its k-th set trigger with the stamp and the raw stamp of the event |
| Timestamps.TimeRunsOn | models/Libera/driver/libera-driver-2-04-ebpp/libera_main.c:449-482 | and behind it the time runs on from the reference, counting the share that the PLL takes over |
| Timestamps.EventModule.HandleFifo | models/Libera/driver/libera-driver-2-04-ebpp/libera_main.c:656-785 | the handler empties the FIFO and logs the specified dispatches, with the offset and mode that each SET trigger leaves; if none comes in SET mode, every dispatch carries its raw stamp plus the offset of the start, and the settings stay |
| Timestamps.EventModule.Demux | models/Libera/driver/libera-driver-2-04-ebpp/libera_main.c:695-758 | the nested loop ends and dispatches each set bit once in ascending order, and a trigger in SET mode sets the time |
| Timestamps.SetBitsSound | models/Libera/driver/libera-driver-2-04-ebpp/libera_main.c:566-573 | the dispatch order holds exactly the set bits, ascending |
| TimeBase.SetTime.SetLmt | models/Libera/driver/libera-driver-2-04-ebpp/libera_main.c:449-482 | the offset splits into a whole number of periods for the driver and less than one period for the PLL |
| TimeBase.SetTime.ApplyAll | models/Libera/driver/libera-driver-2-04-ebpp/libera_main.c:449-482 | after any series of set-time operations the reported time runs on from the last reference, whatever was set before |
| TimeBase.SetTime.ReportedIsShift | models/Libera/driver/libera-driver-2-04-ebpp/libera_main.c:687-692 | the reported time is the machine clock shifted by the whole offset, modulo 2^64 |
| TimeBase.SetTime.SlotDependsOnRaw | models/Libera/driver/libera-driver-2-04-ebpp/libera_dd.h:79-93 | setting the time never moves data: the slot of an event depends on its raw stamp alone, whatever the driver offset, modulo 2^64 |
| TimeBase.ReadsTile | models/Libera/driver/libera-driver-2-04-ebpp/ebpp.c:1828-1834 | after a read of n atoms with decimation dec the position stands exactly n * dec slots further modulo the ring |
| TimeBase.FirstReadTilesIff | models/Libera/driver/libera-driver-2-04-ebpp/ebpp.c:1828-1834 | rounding a request down to atoms stays in its slot if and only if the offset within the atom does not exceed the one of the rounded distance |
| TimeBase.SlotFormsAgreeIff | models/Libera/driver/libera-driver-2-04-ebpp/libera_dd.h:96-114 | the slot from machine time equals the one from local machine time if and only if the buffer origin is at most half an atom past a boundary |
| TimeBase.Clock.WaitLmt | models/Libera/driver/libera-driver-2-04-ebpp/ebpp.c:1150-1218 | a request is too late if and only if its age, less a tick, is nine tenths of the ring or more, as 32 bits hold it, and too early exactly beyond the other limit; it is served at once if and only if it started 64 atoms ago or more and is not too late, and otherwise, unless refused, after a wait that only a signal can end |
| TimeBase.LateIsNineTenths | models/Libera/driver/libera-driver-2-04-ebpp/ebpp.c:1163-1170 | the late limit, ring less its safety share, is nine tenths of the ring as 32 bits hold it, up to a tick |
| TimeBase.LateInAtoms | models/Libera/driver/libera-driver-2-04-ebpp/ebpp.c:1163-1170 | while the ring fits 32 bits, a request whose first atom is among the newest nine tenths is not too late, and one two atoms or more beyond them is |
| TimeBase.ServedIsFresh | models/Libera/driver/libera-driver-2-04-ebpp/ebpp.c:1163-1172 | when a request is served at once, the slot computed for it, with origin and rounding, still holds its first atom, however many atoms have been written up to the present |
| TimeBase.RequestIsFreshIff | models/Libera/driver/libera-driver-2-04-ebpp/ebpp.c:1150-1218 | it finds all its atoms in their slots if and only if the last one has been written by then |
| TimeBase.LongRequestIsServed | models/Libera/driver/libera-driver-2-04-ebpp/ebpp.c:1150-1218 | two atoms more than the margin, served at once: the last is not there |
| TimeBase.SlotHoldsIff | models/Libera/driver/libera-driver-2-04-ebpp/libera_dd.h:79-93 | a slot holds an atom if and only if fewer than a full ring of newer ones exists |
| TimeBase.NearestAtom | models/Libera/driver/libera-driver-2-04-ebpp/libera_dd.h:79-93 | the atom found for a time is the nearest: at most half an atom away |
| Clocks.ClockRoundTrip | models/Libera/driver/libera-driver-2-04-ebpp/libera_dd.h:121-219 | machine clock to system clock and back returns the input, or one tick nearer to the sync point if and only if there was a remainder |
| Clocks.AnswersIff | models/Libera/driver/libera-driver-2-04-ebpp/libera_dd.h:121-219 | a conversion answers if and only if the moment is within the stated distance of the sync point |
| Clocks.LstRate | models/Libera/driver/libera-driver-2-04-ebpp/libera_dd.h:121-165 | the distance from the sync point on the machine clock is that on the system clock times the ratio of the frequencies, cut to the tick below, on both sides |
| Clocks.LmtRate | models/Libera/driver/libera-driver-2-04-ebpp/libera_dd.h:168-219 | the same from machine clock to system clock |
| Clocks.LstGuardIsTight | models/Libera/driver/libera-driver-2-04-ebpp/libera_dd.h:144-159 | the product fits 64 bits for all distances the guard lets pass if and only if the frequency is at most 117.44 MHz |
| Clocks.LmtGuardIsTight | models/Libera/driver/libera-driver-2-04-ebpp/libera_dd.h:197-212 | the product fits 64 bits exactly up to 18 ticks beyond the guard, for any frequency |
| Clocks.ThereAndBack | models/Libera/driver/libera-driver-2-04-ebpp/libera_dd.h:159-212 | dividing and multiplying back loses a tick exactly when there was a remainder |
| Clocks.LstRoundTrip | models/Libera/driver/libera-driver-2-04-ebpp/libera_dd.h:30-54 | system clock counts survive the way to system time and back |
| Clocks.LstIsEightNs | models/Libera/driver/libera-driver-2-04-ebpp/libera_dd.h:30-42 | a tick of the system clock is 8 ns |
| Clocks.AtomIsClocks | models/Libera/driver/libera-driver-2-04-ebpp/libera_dd.h:57-72 | an atom of machine time is one decimation of machine clocks, and a count of clocks is that of the whole atoms passed |
| Clocks.StRoundTrip | models/Libera/driver/libera-driver-2-04-ebpp/libera_dd.h:30-54 | system time is cut to the 8 ns below |
| Clocks.MtRoundTrip | models/Libera/driver/libera-driver-2-04-ebpp/libera_dd.h:57-72 | machine time survives the way to local machine time and back |
| Clocks.LmtRoundTrip | models/Libera/driver/libera-driver-2-04-ebpp/libera_dd.h:57-72 | local machine time is cut to the atom below |
| TimePairs.TimeSource.GetCtime | models/Libera/driver/libera-driver-2-04-ebpp/libera_main.c:261-308 | an answered call returns both stamps of the oldest unanswered trigger and the non-blocking read never fails; a call interrupted at the first lock issues nothing, and one interrupted later leaves its stamps behind |
| TimePairs.TimeSource.GetMany | models/Libera/driver/libera-driver-2-04-ebpp/libera_main.c:261-308 | over every series of calls each answer lies behind its own trigger by what was left over at first plus the calls interrupted after their triggers before it |
| TimePairs.AnswerIsOwnIff | models/Libera/driver/libera-driver-2-04-ebpp/libera_main.c:261-308 | an answer is the time of its own trigger if and only if nothing was left over at first and no call before it was interrupted after its trigger |
| TimePairs.LagLasts | models/Libera/driver/libera-driver-2-04-ebpp/libera_main.c:261-308 | the lag never shrinks |
| TimePairs.SecondCallerGetsFirstTime | models/Libera/driver/libera-driver-2-04-ebpp/libera_event.c:224-226 | one caller interrupted at the second lock, and the next caller gets the time of the first trigger |
| TimePairs.FullFifosLoseStep | models/Libera/driver/libera-driver-2-04-ebpp/libera_event.h:52-78 | with both FIFOs full a stamp of one module is lost while its partner is kept, and the FIFOs stay out of step |
| TimePairs.TimeSource.GetBlockedMc | models/Libera/driver/libera-driver-2-04-ebpp/libera_event.c:214-264 | the wait ends with the next machine-clock stamp, which interrupts cannot overwrite before it is read, or with a signal and nothing taken |
| TimePairs.TimeFifo.Put | models/Libera/driver/libera-driver-2-04-ebpp/libera_event.h:52-65 | appends unless 4095 stamps wait, and leaves the slot handed out last alone |
| TimePairs.TimeFifo.Get | models/Libera/driver/libera-driver-2-04-ebpp/libera_event.h:67-78 | hands out the slot of the oldest stamp |
| TimePairs.PutMany | models/Libera/driver/libera-driver-2-04-ebpp/libera_event.h:52-78 | a slot handed out keeps its stamp through any number of puts |
| TimePairs.OutOfOrderServiceMispairs | models/Libera/driver/libera-driver-2-04-ebpp/libera_main.c:285-303 | serving the machine-clock module first once causes a fault and pairs stamps of different triggers from then on |
| Hunting.Reader.Hunt | models/Libera/driver/libera-driver-2-04-ebpp/hbpp.c:604-648 | the copied samples are exactly those at slmt, slmt + step, ... as far as the atoms reach |
| Hunting.RequestIsCovered | models/Libera/driver/libera-driver-2-04-ebpp/hbpp.c:879-885 | the atoms fetched for a request of single steps yield all its samples |
| Hunting.WantedAt | models/Libera/driver/libera-driver-2-04-ebpp/hbpp.c:617-634 | the k-th sample delivered is the one k steps on |
| Hunting.WantedAll | models/Libera/driver/libera-driver-2-04-ebpp/hbpp.c:617-634 | when the positions end inside the atoms all samples are delivered |
| Hunting.Reader.HitIff | models/Libera/driver/libera-driver-2-04-ebpp/hbpp.c:617-618 | while samples are missing the modular atom test finds exactly the atom of the next wanted sample |
| Listeners.RunInv | models/Libera/cspi/eventd.c:406-453 | over every series of requests and events connections stay unique and the device mask covers the initial mask and every listener, as long as no mask that asks for something new is refused |
| Listeners.RunCoversIff | models/Libera/cspi/eventd.c:406-504 | over a whole run the device mask covers the listeners in every state if and only if no such mask is refused |
| Listeners.StepCovers | models/Libera/cspi/eventd.c:500-503 | a step keeps the device mask covering the listeners if and only if it is not a request for something new that the device refuses |
| Listeners.StepInv | models/Libera/cspi/eventd.c:476-504 | a request that gets through leaves the device with the union and no more |
| Listeners.RequestIsLocal | models/Libera/cspi/eventd.c:486-498 | a request sets the mask of its own connection and of no other |
| Listeners.UnionIsLeast | models/Libera/cspi/eventd.c:500-501 | the union is the least mask that holds the mask of every listener |
| Listeners.WantedIsLeast | models/Libera/cspi/eventd.c:500-501 | the mask asked of the device is the least that holds interlock, post mortem and the mask of every listener |
| Listeners.ToldInOrder | models/Libera/cspi/eventd.c:528-562 | those told of an event are exactly the listeners whose mask it meets, each once, in list order |
| Listeners.NextFrames | models/Libera/cspi/eventd.c:406-504 | only an accepted request of a living process changes the device mask, and only the process itself opens or closes its FIFO, or closes it by leaving |
| Listeners.KeptIs | models/Libera/cspi/eventd.c:528-562 | exactly the ghosts go |
| Listeners.KeptInOrder | models/Libera/cspi/eventd.c:528-562 | the rest keeps its order |
| Listeners.AfterRaise | models/Libera/cspi/eventd.c:545-562 | a connection loses its mask at an event if and only if the event is for it and its FIFO has no reader; device mask and FIFOs stay |
| Listeners.LeavingSilencesSiblings | models/Libera/cspi/eventd.c:607-609 | when one connection of a process leaves, the next event for another of them removes that one too, unless the FIFO was opened again |
| Listeners.Daemon.HandleRequest | models/Libera/cspi/eventd.c:476-504 | on the doubly linked list one request has the specified effect on members, device mask and FIFOs, and a request of a missing process none |
| Listeners.Daemon.HandleEvent | models/Libera/cspi/eventd.c:508-565 | the walk writes to each matching listener once, in order, and removes the ghosts without losing its place |
| Listeners.Daemon.RemoveListener | models/Libera/cspi/eventd.c:593-618 | unlinking keeps the list well formed, the order of the rest and the count |
| Listeners.Daemon.InsertListener | models/Libera/cspi/eventd.c:569-589 | a new listener goes in front |
| Listeners.Daemon.FindListener | models/Libera/cspi/eventd.c:622-628 | finds the first listener of a connection, or nothing |
| Listeners.Daemon.RemoveAll | models/Libera/cspi/eventd.c:372-372 | shutting down empties the list and unlinks the FIFO of every listener |
| Pool.FreeList.Malloc | models/Libera/cspi/pool.c:68-103 | hands out a block nobody holds, keeps the free list acyclic and apart from the live blocks, and fails only without memory; free and live blocks are four times the refills, and no refill exceeds what the peak demand made necessary |
| Pool.FreeList.Free | models/Libera/cspi/pool.c:107-124 | puts the block on top of the free list and touches nothing else |
| Pool.Refill | models/Libera/cspi/pool.c:81-97 | the new blocks but the first form a terminated chain |
| Pool.FreeThenMalloc | models/Libera/cspi/pool.c:68-124 | a block given back is handed out next and leaves the pool as it was |

## Left out

- DmaDriver.Dma.Transfer: assumes that no block of an earlier transfer draws atoms of this one or ends inside it (`DmaStale` says what happens otherwise), that the FPGA supplies exactly the atoms requested, and that it raises overrun only with data in the OB FIFO, as the comment at `ebpp.c:1104` says; copying an atom and freeing its slot are one step.
- DmaStale.ConservedIff: the controller never draws from an empty OB FIFO, and an end interrupt that comes in the very moment the controller is programmed anew is not modelled. The second transfer needs data in the OB FIFO at the start, as the comment at `ebpp.c:1351` says.
- Cordic.CordicAmp: which inputs between the two energies overflow depends on the rounding of the twelve steps; the contract gives it by the last vector.
- Spikes.RemoveSpikes: fewer than 2^27 atoms, which is all 32-bit addresses reach; the debug branches and the copy of the parameters into the cache are not modelled.
- Spikes.EmptyRead: two atoms of memory outside the data are taken to be readable, and the first to be writable.
- Spikes.SpikesAreHeld: inside the windows it needs averaging intervals that keep clear of the previous hold window; without that, `Despiked` still gives the result window after window.
- Transform.TransformDd: raw atoms must satisfy `ValidRaw`; a zero divisor and an overflow are undefined in the original, and the three parts in ten million between the two energies count as overflow here.
- Msp.Master.Transfer: one atom of the loop; the first boot of the slave, before its interrupts are enabled, and the interrupt-driven variant `msp_transfer_irq` are not modelled.
- BunchRead.Reader.CopyRound: a copy of negative size has no result (`RunsAway`). The copy to user memory never fails.
- BunchRead.Reader.Read: the atoms come in batches, in the order the DMA delivers them; the DMA restart of BBFP and HBPP repeats the EBPP protocol and is not modelled again. Signals and a new trigger during the read are left out.
- Hunting.Reader.Hunt: the atoms come as a sequence, in the order the DMA ring delivers them; the change of `L.lmt` after a read is not modelled.
- TimeBase.Clock.WaitLmt: the debug-only limit on wait cycles is not modelled; the clock read after a wait, which only a signal can make fail, is part of the sleep.
- TimeBase.SetTime.SetLmt: the PLL is taken to shift the counter by its share of the offset; scheduling of the slow-acquisition start is left out. `libera_set_LST` is the same without the split.
- TimePairs.TimeSource.GetCtime: assumes that the system-clock module is served before the machine-clock module (`OutOfOrderServiceMispairs` shows why) and fewer than 4095 stamps left over (`FullFifosLoseStep` shows why).
- Timestamps.EventModule.Demux: the trigger vector is a sequence of nine bits; what the other triggers do, the validity check of GET triggers, and the shift of the counters while the PLL takes over its share are left out.
- Listeners.Daemon.HandleRequest: running out of memory ends the daemon and is left out, as is the acknowledgement of post-mortem events.
- Listeners.Daemon.RemoveListener: the memory is not reused, so that a use after `free` shows only as a broken link.
- Listeners.Daemon.HandleEvent: a FIFO that has a reader but is full loses the event; this is not modelled, as it never removes a listener.
- Reassembly of partly read requests (`readsome`): its buffer does not outlive one turn of the daemon loop, so nothing rests on it.
- Pool.FreeList.Malloc: mutual exclusion is left out; the calls are atomic.
- The end-of-file clamp of the BBFP read (`bbfp.c:871-873`) and the flush loop for enabling triggers (`libera_event.c:375-385`) do not compute what they are evidently for.
- The Chaos control-unit classes, register access, ioctl decoding, module set-up, `/proc`, the PLL and DSC messaging, and the programming of the MSP430 are plumbing.
- The ADC transforms use floating-point square roots and trigonometry.
- `llrf.c`, `dpp.c` and the CSPI `bbfp.c` and `hbpp.c` repeat what is modelled here.
