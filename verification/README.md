# Proofs about DobieStation

This project models the parts of the emulator whose correctness is hardest to see from the code: the
bit reader and CRC of the bundled FLAC decoder and its predictors, the video memory of the Graphics
Synthesizer (GS) and its transfers, the GIF that feeds the GS, the queue and the register copies
between the emulator's thread and the GS thread, vertex assembly, and the event scheduler with its
timers. Classes of the source that update their fields are classes here, its loops are loops, and
each method is proved against a function that says what it is for.

| files | what they model |
|---|---|
| `Bits`, `Words`, `Hex`, `Division`, `Wrappers` | bit strings, machine words, hexadecimal digits, quotients |
| `Crc16` | the table-driven CRC-16 of FLAC frames |
| `RiceCode`, `WordBuffer`, `ReaderState`, `Arrival`, `BitReader` | the bit reader: refills, raw and unary reads, Rice codes, running CRC |
| `Lpc`, `FixedPredictor` | FLAC's linear and fixed predictors, residual and restoration |
| `GsTables`, `GsSwizzle`, `GsMemory`, `GsPixels` | swizzled addresses and pixels of all formats |
| `GsRaster`, `GsUpload`, `GsDownload`, `GsCopy`, `GsTransfer` | transfers into, out of and inside video memory |
| `GifTag`, `Gif` | GIF packets and the arbitration of the three paths |
| `CircularFifo`, `GsRegisters`, `VertexKick` | the message queue, the two register copies, vertex assembly |
| `Scheduler`, `Timers` | the run loop's events and clocks, the hardware timers |

Bits come most significant first. Unsigned 32-bit arithmetic of the source is written `Wrap32`, signed
arithmetic `Int32` and `Int64`; video memory is an array of bytes and, in statements, of nibbles,
because a nibble is the smallest thing a pixel format can own. Whatever the source does not decide is
a parameter or a free choice: when a read callback delivers how many bytes, what an event handler or
a component schedules, which of two threads takes the next step.

## Model

| member | source | states |
|---|---|---|
| Crc16.TableMeaning | ext/libFLAC/src/crc.c:345-363 | the recurrence that generates the tables gives, in table j at index i, the byte i times x^(8(j+2)) reduced by the CRC polynomial, for every j |
| Crc16.CrcIsRemainder | ext/libFLAC/src/crc.c:392-393 | shifting a message bit by bit through a register computes the remainder of seed * x^n + message * x^16 by long division, for every seed and message of n bits |
| Crc16.UpdateIsCrc | ext/libFLAC/src/crc.c:392-393 | the table step for one byte is eight steps of the bit-serial register, for every register and byte |
| Crc16.SlicingStep | ext/libFLAC/src/crc.c:380-390 | adding the register to the first two bytes and looking every byte up in the table of its own distance from the end is the bit-serial CRC of all of them, for any number of bytes |
| Crc16.Crc16 | ext/libFLAC/src/crc.c:376-396 | the eight-byte loop with its one-byte tail returns the polynomial remainder of the message, for every length |
| Crc16.UpdateWords32 | ext/libFLAC/src/crc.c:398-420 | two words at a time and a last odd one: the remainder of the words' bits with the seed added to their top |
| Crc16.UpdateWords64 | ext/libFLAC/src/crc.c:422-436 | the same for 64-bit words |
| RiceCode.DecodeEncodeMany | ext/libFLAC/src/bitreader.c:716-741 | decoding is a left inverse of the zig-zag Rice code: any list of 32-bit values comes back, for every parameter |
| BitReaders.BitReader.ReadFromClient | ext/libFLAC/src/bitreader.c:148-223 | compaction, the CRC of consumed words, the partial word and the read callback leave the stream (unread bits, then what the client still holds) and the tracked CRC as they were; a success brings at least a byte, a failure is one failure of the client or a full buffer and loses nothing |
| BitReaders.BitReader.ReadRawUint32 | ext/libFLAC/src/bitreader.c:374-450 | a field of up to 32 bits is the value of the next bits of the stream and those are taken off it, however words and refills cut it; it fails only on a failure of the client with fewer bits unread than were wanted, and the client is not asked while enough are |
| BitReaders.BitReader.ReadUnaryUnsigned | ext/libFLAC/src/bitreader.c:637-713 | the result is the number of zeros before the next one bit, in 32 bits, and both are taken off the stream; it fails only when all that has arrived is zeros, and does not ask the client while a one bit is unread |
| BitReaders.BitReader.ReadRiceSigned | ext/libFLAC/src/bitreader.c:716-741 | the value and the rest of the stream are those of the reference decoder; it fails only when the code has not arrived, and does not ask the client while a whole code is unread |
| BitReaders.BitReader.ReadRiceSignedBlock | ext/libFLAC/src/bitreader.c:744-881 | the register-held loop with its three entries into the tail decodes exactly the values the reference decoder reads one after the other, leaves the rest of the array alone and the cursor behind the last code; the number is nvals, but 1 for an empty block that finds no complete word; it fails only when that many codes have not arrived, and does not ask the client while they are all unread |
| Arrival.NotArrived | ext/libFLAC/src/bitreader.c:744-881 | when the code after the first few is incomplete in what has arrived, so is every longer list of codes |
| Arrival.LowBitsMissing | ext/libFLAC/src/bitreader.c:716-741 | a code whose low bits have not all arrived cannot be decoded from what has, wherever a refill cut it |
| ReaderState.BlockAgreesIff | ext/libFLAC/src/bitreader.c:744-881 | the block decoder does what nvals single decodes do if and only if nvals is positive, the parameter is 0, or a complete word is buffered |
| BitReaders.BitReader.ResetReadCrc16 | ext/libFLAC/src/bitreader.c:328-337 | tracking starts at a byte boundary inside a word with the whole stream ahead |
| BitReaders.BitReader.GetReadCrc16 | ext/libFLAC/src/bitreader.c:339-357 | the value is the CRC, from the seed, of exactly the bits consumed since the reset |
| BitReaders.BitReader.ReadTracked | ext/libFLAC/src/bitreader.c:118-357 | after a reset, any sequence of raw, unary, Rice and Rice block reads, whatever refills they need and whether or not they succeed, then a query on a byte boundary: the CRC of exactly what was consumed, and nothing of the stream is lost or repeated |
| Lpc.SameTerms | ext/libFLAC/src/lpc.c:308-524 | summing the oldest term first, as the unrolled statements do, gives the sum of the plain loop |
| Lpc.ComputeResidual | ext/libFLAC/src/lpc.c:267-779 | every residual is the sample minus a prediction: the sum over j of c[j] times the sample j + 1 places back, kept in 32 bits or in 64, divided by 2^shift and rounded down, in either order of summation |
| Lpc.AsrIsFloor | ext/libFLAC/src/lpc.c:818-997 | the arithmetic shift is division by the power of two, rounded down, for every sign |
| Lpc.PredictedIs | ext/libFLAC/src/lpc.c:784-1296 | the prediction is that floor of the inner product written out with its indices |
| Lpc.RestoreSignal | ext/libFLAC/src/lpc.c:784-1296 | in place, the history stays and each later sample is its residual plus that prediction from the restored samples before it |
| Lpc.RestoreResidual | ext/libFLAC/src/lpc.c:267-1296 | restoring from the computed residual gives back every 32-bit signal, for all coefficients, orders and shifts, in both widths, overflow included |
| FixedPredictor.DifferenceIs | ext/libFLAC/src/fixed.c:336-365 | the residual formulas of orders 0 to 4 are the iterated differences of the samples |
| FixedPredictor.ComputeResidual | ext/libFLAC/src/fixed.c:336-365 | the residual array holds the differences of the chosen order, in 32 bits |
| FixedPredictor.RestoreSignal | ext/libFLAC/src/fixed.c:367-395 | in place, each sample is the residual plus the guess from the samples before it |
| FixedPredictor.RestoreResidual | ext/libFLAC/src/fixed.c:336-395 | restoring from the residual gives back every 32-bit signal, for every order |
| FixedPredictor.ComputeBestPredictor | ext/libFLAC/src/fixed.c:217-334 | the running last errors give the sums of absolute differences of all five orders, in 32 or 64 bits, and the order is the highest among the best |
| FixedPredictor.ComputeBestPredictorLanes | ext/libFLAC/src/fixed_intrin_sse2.c:58-152 | the four-lane form with its rotations finds the same sums and the same order as the scalar search |
| GsSwizzle.TableIsDirect | src/core/gsthread.cpp:83-119 | the page tables give every pixel the address that its block and column tables give directly, for every base, width, x and y, in all eight layouts |
| GsSwizzle.AddressInjective | src/core/gsthread.cpp:1222-1277 | different pixels of a buffer that does not wrap around memory have different addresses, in all eight layouts |
| GsPixels.FetchIsPixel | src/core/gsthread.cpp:1279-1325 | what a read function returns is the pixel's own nibbles, the low 24 bits of the word for 24-bit formats |
| GsPixels.StoreIsSetPixel | src/core/gsthread.cpp:1327-1392 | every write, masks and merges included, replaces exactly the pixel's nibbles |
| GsPixels.PixelWritten | src/core/gsthread.cpp:1279-1392 | a pixel reads back as written, in all thirteen formats |
| GsPixels.PixelKept | src/core/gsthread.cpp:1279-1392 | a write changes no other pixel of the buffer, and no other field packed into the same word |
| GsPixels.FormatBlocks | src/core/gsthread.cpp:1182-1220 | by format code, the block of a pixel is a fixed arrangement of bits of its coordinates; depth formats invert the two highest |
| GsPixels.FormatSizes | src/core/gsthread.cpp:2882-3064 | by format code, how many bits a pixel has and where in its word they begin |
| GsTransfer.Transfer.WriteHwReg | src/core/gsthread.cpp:2882-3064 | after any number of doublewords memory is what writing the stream's pixels one by one to their rows and columns makes of it, and the transfer ends with the doubleword that completes the rectangle |
| GsTransfer.Transfer.UnpackPSMCT24 | src/core/gsthread.cpp:3223-3245 | pixels cut by doubleword borders are put together from the bytes of both, and the rest is kept for the next third |
| GsRaster.UploadedReads | src/core/gsthread.cpp:2882-3064 | every pixel of an upload that keeps to its rows and columns reads back as sent |
| GsRaster.UploadedKeeps | src/core/gsthread.cpp:2882-3064 | an upload changes no nibble outside the pixels it writes |
| GsRaster.UploadPlacedIff | src/core/gsthread.cpp:2882-3064 | an upload puts every pixel in its own row and column if and only if no row end is met twice |
| GsRaster.UploadStraightIff | src/core/gsthread.cpp:3045-3054 | no row of a 24-bit upload of n pixels ends twice if and only if the width is a multiple of four or n stops before a row number given by the width modulo eight |
| GsRaster.NibblesPlacedIff | src/core/gsthread.cpp:2882-3064 | 4-bit pixels go to the columns they came for if and only if all rows start at even columns |
| GsTransfer.Transfer.PackPSMCT24 | src/core/gsthread.cpp:3247-3310 | each doubleword of a 24-bit download is the next sixteen nibbles of the packed pixels, the left-over of a cut pixel first; after the last pixel of the rectangle the packing stops |
| GsTransfer.Transfer.LocalToHost | src/core/gsthread.cpp:3066-3221 | the stream holds every pixel of the rectangle without gaps, in the fewest quadwords, padded with zeros after the last 24-bit pixel; it ends the transfer, and dies on just the formats it does not know |
| GsRaster.DownloadTakenIff | src/core/gsthread.cpp:3066-3310 | a download takes every pixel from its own row and column if and only if no row begins inside a pixel that a doubleword border cuts |
| GsRaster.DownloadStraightIff | src/core/gsthread.cpp:3247-3310 | for 24-bit pixels that is so if and only if the width is a multiple of four or the download ends before a row number given by the width modulo eight |
| GsRaster.TwoPixelsWide | src/core/gsthread.cpp:3045-3310 | a 24-bit rectangle two pixels wide meets both failures: its second row goes to row 2, and comes from row 2 |
| GsRaster.StreamReturns | src/core/gsthread.cpp:2882-3310 | the nibbles of a download after an upload to the same place are those that were sent |
| GsTransfer.Transfer.RoundTrip | src/core/gsthread.cpp:2882-3310 | uploading a rectangle and downloading it through the registers gives back all nibbles of its pixels, for every format both directions know; all doublewords, unless 24-bit pixels end inside one |
| GsTransfer.Transfer.LocalToLocal | src/core/gsthread.cpp:3312-3500 | the copy moves pixel after pixel in the scan order TRXPOS chose, for every pair of formats it knows, and dies without a write on the others |
| GsTransfer.FormatsKnown | src/core/gsthread.cpp:2882-3500 | which format codes an upload, a download and the two ends of a copy know |
| GsTransfer.Transfer.WriteTrxDir | src/core/gsthread.cpp:1097-1130 | a write to TRXDIR starts an upload or a download at the rectangle's corner, or runs a copy to its end |
| GsCopy.SafeCopyCarries | src/core/gsthread.cpp:3312-3500 | a copy inside a buffer whose destination does not come after its source in the scan order, or does not overlap it, leaves the old source in the destination |
| GsCopy.UnsafeCopyRepeats | src/core/gsthread.cpp:3312-3500 | in any other copy some destination pixel gets the old value of a different source pixel, whatever memory holds |
| GsCopy.CopyCarriesIff | src/core/gsthread.cpp:3312-3500 | for every content of memory the destination ends up with the old source, pixel (i, j) from pixel (i, j), if and only if the rectangles do not overlap or the destination is not ahead: below, or right of it in the same row, for order 0; above or right for 1; below or left for 2; above or left for 3 |
| GsCopy.ScanOf | src/core/gsthread.cpp:3332-3374 | at its p-th pixel the walk is p modulo the width along and p divided by the width across, from the top left, bottom left, top right or bottom right corner for orders 0 to 3 |
| GsCopy.ScanWraps | src/core/gsthread.cpp:3476-3496 | off the 2048 by 2048 grid the same up to multiples of 2048 |
| GsCopy.CopyKeeps | src/core/gsthread.cpp:3312-3500 | a copy changes no nibble outside the pixels it writes |
| GifTag.BodyItems | src/core/gif.cpp:90-209 | item k of a packet's body goes to register descriptor k modulo the number of descriptors, and the packet is over after exactly NLOOP * NREG quadwords (PACKED), half as many rounded up (REGLIST) or NLOOP (IMAGE) |
| GifTag.PacketItems | src/core/gif.cpp:211-301 | the same for a packet that follows others in the stream of a path: its items follow theirs, and the next quadword is a tag exactly after its body |
| GifTag.TagIsRead | src/core/gif.cpp:217-232 | a tag laid out field by field, unused bits and all, is read back as those fields, and NREG 0 as 16 |
| GifTag.TagHandsOn | src/core/gif.cpp:250-259 | reading a tag hands on its PRIM exactly when it has PRE, is PACKED and has data |
| Gif.GraphicsInterface.Interleaved | src/core/gif.cpp:211-301 | the same for each path of the interface, however quadwords of the paths were interleaved |
| Gif.GraphicsInterface.FeedGif | src/core/gif.cpp:211-301 | a quadword changes the active path's parser and status only; the last one of a packet with EOP takes away that path's claim and no other, the lowest waiting path takes over, and the output flag drops if none waits |
| Gif.GraphicsInterface.ArbitratePaths | src/core/gif.cpp:417-442 | no claim is lost or made; the lowest waiting path takes over from nobody or from a higher path, which then waits |
| Gif.GraphicsInterface.DeactivatePath | src/core/gif.cpp:390-415 | only an idle path gives its claim up, and only its own |
| Gif.GraphicsInterface.RequestPath | src/core/gif.cpp:368-388 | afterwards the claims are the old ones and the new one, but for PATH3's when it is found masked while idle; and who is active, in every case |
| Gif.GraphicsInterface.PathActive | src/core/gif.hpp:109-116 | asking costs no claim but PATH3's when it is found masked while idle |
| Gif.GraphicsInterface.ResumePath3 | src/core/gif.hpp:118-128 | PATH3 claims the interface again if and only if it is unmasked and idle and has data waiting |
| Gif.GraphicsInterface.WriteMode | src/core/gif.cpp:72-80 | the mask and the mode are the bits written, and lifting the mask resumes PATH3 and nothing else |
| Gif.GraphicsInterface.FlushPath3Fifo | src/core/gif.cpp:502-518 | the oldest quadword of the FIFO goes to PATH3's parser; other paths keep their claims |
| Gif.GraphicsInterface.MayFlush | src/core/gif.cpp:303-315 | the FIFO may be flushed exactly when PATH3 is active, not blocked and not masked while idle; only in the last case does asking cost its claim |
| Gif.GraphicsInterface.Run | src/core/gif.cpp:303-315 | what leaves the FIFO goes to PATH3's stream in order, other paths' claims stay, and PATH3 loses its own only masked while idle or at the end of a packet; something leaves if and only if there are cycles and data, nothing blocks, PATH3 is not masked while idle and no other path is active; and it stops only when cycles or data run out or one of those conditions fails |
| Gif.GraphicsInterface.SendPath3 | src/core/gif.cpp:467-495 | a quadword goes on if and only if no other path is active, nothing blocks and PATH3 is not masked while idle, else it is queued, up to sixteen; the same of the claims |
| CircularFifo.FullIff | src/core/circularFIFO.hpp:38-52 | the slot after the tail is the head's if and only if the queue holds its size |
| CircularFifo.StepKeeps | src/core/circularFIFO.hpp:38-66 | every atomic step of either thread keeps the invariant that ties slots and indices to what was pushed and popped |
| CircularFifo.EveryInterleaving | src/core/circularFIFO.hpp:38-66 | in every interleaving of a producer and a consumer the popped items are a prefix of the pushed ones; the items whose push found room are, in order, those pushed and the one in the producer's hands, and likewise for pops, so none is lost; `full` is said exactly when the queue is full and `empty` exactly when it is empty; no slot is written while it is read |
| CircularFifo.BothGoOn | src/core/circularFIFO.hpp:38-66 | in every reachable state each side can take its next step without the other |
| GsRegisters.MessageAgrees | src/core/gsthread.cpp:245-345 | whatever a message does to the thread's registers it does to the manager's, reset through CSR included, up to the two fields only the manager keeps |
| GsRegisters.ResetTwice | src/core/gsregisters.cpp:374-447 | resetting through the register write and again by the thread's own reset is resetting once |
| GsRegisters.EventsSet | src/core/gsregisters.cpp:508-537 | HBLANK, VSYNC and FINISH each set their own flag and nothing else, and interrupt when it was clear and their own mask bit is; FINISH only once one was requested |
| GsRegisters.CsrWritten | src/core/gsregisters.cpp:168-200 | which flags a write to CSR acknowledges, by the bits of the value; a held-up SIGNAL comes on with its own id and its interrupt pending |
| GsRegisters.CsrResets | src/core/gsregisters.cpp:168-200 | with bit 9 all flags are gone and all interrupts masked, whatever the other bits, and the field stays |
| GsRegisters.ImrWritten | src/core/gsregisters.cpp:202-209 | the five mask bits, at every mirror of IMR |
| GsRegisters.SignalProtocol | src/core/gsregisters.cpp:330-355 | of two SIGNALs in a row the first keeps its id until acknowledged, then the second comes on with its own, and acknowledging that one ends it |
| GsRegisters.MaskedBits | src/core/gsregisters.cpp:330-372 | SIGNAL and LABEL replace exactly the bits under their mask |
| GsRegisters.FieldSwaps | src/core/gsregisters.cpp:500-506 | the field alternates with an odd front porch and is the odd one otherwise |
| GsRegisters.Manager.Write64 | src/core/gs.cpp:223-244 | the write goes out once, the manager's copy is what the thread's will be, and a SIGNAL interrupts if and only if it is generated, not stalled and not masked, and is left pending if it is masked |
| GsRegisters.Manager.Write64Privileged | src/core/gs.cpp:246-265 | the same for privileged registers; unmasking brings on a pending SIGNAL exactly once, and turning the bus around leaves both copies in agreement with nothing queued |
| GsRegisters.Manager.AssertEvent | src/core/gs.cpp:136-167 | HBLANK, VSYNC and FINISH reach both copies, set their own flag, and interrupt only when newly raised and not masked by their own bit |
| GsRegisters.Manager.Drain | src/core/gsthread.cpp:239-263 | once the thread has taken every message, the two copies agree |
| VertexKick.VertexQueue.Kick | src/core/gsthread.cpp:1396-1467 | the three-entry queue draws, on each kick, with exactly the vertices of the whole history that the primitive type prescribes, oldest first, and dies on the reserved type only |
| VertexKick.VertexQueue.WritePrim | src/core/gsthread.cpp:779-804 | writing PRIM forgets the history |
| VertexKick.ListsTile | src/core/gsthread.cpp:1396-1467 | the primitives of a list use up the vertices in order, each exactly once, and the incomplete rest waits |
| VertexKick.StripsDraw | src/core/gsthread.cpp:1396-1467 | a strip or a fan draws once for every vertex but the first ones |
| Scheduler.Emulator.AddEvent | src/core/scheduler.cpp:86-103 | the event is appended with a fresh id and its wrapped time, and the cached bound covers it |
| Scheduler.Emulator.RestartTimer | src/core/scheduler.cpp:238-243 | adding the event at the end of time, which wraps around, and moving it leaves it pending at its deadline; the cached bound may stay too low but never too high |
| Scheduler.Emulator.CalculateRunCycles | src/core/scheduler.cpp:35-52 | up to the cached bound or 32 cycles, so that no pending event is passed over; zero if and only if the bound has been reached |
| Scheduler.Emulator.ProcessEvents | src/core/scheduler.cpp:328-349 | a pass fires what is due, handlers that add events during it included, and each pass leaves fewer events due or a better bound |
| Scheduler.Emulator.UpdateCycleCounts | src/core/scheduler.cpp:307-326 | the bus and IOP clocks are always the EE clock divided by two and by eight |
| Scheduler.Emulator.Run | src/core/emulator.cpp:124-152 | a frame terminates, takes exactly 4920115 cycles, and gives the bus and the IOP exactly their share; the vertical blank starts once in it, after exactly 4489019 cycles, and ends once, with the frame; whatever events components and handlers add or re-time |
| Scheduler.Emulator.HandlersFollow | src/core/emulator.cpp:236-286 | every HBLANK has scheduled the next 18742 cycles on, every sound sample the next after 6144, every start of a vertical blank that of the GS after 65622 |
| Scheduler.Emulator.HblankTrain | src/core/emulator.cpp:236-240 | from the first one scheduled, HBLANKs fire at exactly every multiple of 18742 cycles after it |
| Scheduler.Emulator.SampleTrain | src/core/emulator.cpp:276-286 | sound samples fire at exactly every multiple of 6144 cycles |
| Scheduler.Emulator.ScheduleFirst | src/core/emulator.cpp:218-226 | a reset schedules the first of each and nothing of a frame |
| Scheduler.Emulator.FiresOnTime | src/core/scheduler.cpp:328-349 | over any run every event but a timer's fires at exactly its time |
| Scheduler.Emulator.TimersFire | src/core/scheduler.cpp:148-154 | a timer's event whose time has passed has fired or was moved to a time still ahead; no id is lost |
| Scheduler.Emulator.FiresInOrder | src/core/scheduler.cpp:328-349 | firings are in order of time and, within one instant, in the order in which the events were added |
| Timers.TimeConserved | src/core/scheduler.cpp:156-176 | counter and remainder together grow by exactly the time that passed |
| Timers.PathIndependent | src/core/scheduler.cpp:156-176 | however often and whenever a timer is looked at, it ends up where a single look would take it |
| Timers.PausedStands | src/core/scheduler.cpp:156-159 | a paused timer stands still |
| Timers.PauseNotCounted | src/core/scheduler.cpp:253-271 | the cycles of a pause do not count, and the part of a tick before it does |
| Timers.DeadlineExactIff | src/core/scheduler.cpp:119-146 | for clock rates that divide the EE's, the deadline is the first cycle at which the counter reaches its next stop, or 8 cycles away, if and only if the target can be reached, or the masked way to it is no shorter than the way to overflow, or all is within 8 cycles |
| Timers.DeadlineClose | src/core/scheduler.cpp:119-146 | for every clock rate the deadline is at most one cycle early, and late by at most one cycle and one more for every 256 ticks, but for the least delay |
| Timers.UnsetTargetWakesEarly | src/core/scheduler.cpp:124-146 | a timer whose target was never set wakes one tick before its first overflow |
| Timers.UnpausedOversleeps | src/core/scheduler.cpp:253-271 | a timer that goes on after a pause is re-timed more than 2^60 cycles beyond its next stop, for every mask of up to 32 bits |
| Timers.Timer.UpdateCounter | src/core/scheduler.cpp:156-176 | whole ticks first, then those the remainders make up: quotient and remainder of all the time that passed |
| Timers.Timer.SetTarget | src/core/scheduler.cpp:288-295 | time up to now is counted against the old settings, and the event is re-timed by the new deadline, unless the timer is paused |
| Timers.Timer.SetCounter | src/core/scheduler.cpp:279-286 | the new counter keeps the fraction of a tick, and the event is re-timed, unless the timer is paused |
| Timers.Timer.SetClockrate | src/core/scheduler.cpp:297-305 | the fraction of a tick is dropped with the old rate, and the event is re-timed, unless the timer is paused |
| Timers.Timer.SetPause | src/core/scheduler.cpp:253-271 | pausing counts the time so far and puts the event off; going on counts from now, with the event set to 2^62 - 1 cycles ahead; setting what is set changes nothing |

## Findings

Properties one would expect that the code does not have, each with an input and the exact condition
under which it holds.

| expected | input that fails | holds exactly when |
|---|---|---|
| a Rice block of no values reads nothing (`ext/libFLAC/src/bitreader.c:744-881`; a first partition no longer than the predictor order asks for it at `ext/libFLAC/src/stream_decoder.c:2772-2773`) | nvals 0, a positive parameter and no complete word in the buffer: one code is read | `ReaderState.BlockAgreesIff`: nvals is positive, or the parameter is 0, or a complete word is buffered |
| a 24-bit upload puts row r of its data in row r (`src/core/gsthread.cpp:3045-3054`) | width 2: the row check after the third of a doubleword that completes no pixel runs again, and row 1 is written to row 2 (`GsRaster.TwoPixelsWide`) | `GsRaster.UploadPlacedIff` and `GsRaster.UploadStraightIff`: the width is a multiple of four, or the data ends before the first bad row |
| a 24-bit download takes row r from row r (`src/core/gsthread.cpp:3247-3310`) | width 2: the check between two doublewords runs inside a cut pixel (`GsRaster.TwoPixelsWide`) | `GsRaster.DownloadTakenIff` and `GsRaster.DownloadStraightIff` |
| 4-bit pixels go to the column they were sent for (`src/core/gsthread.cpp:2882-3064`) | an odd first column: the nibble is chosen by the column's parity | `GsRaster.NibblesPlacedIff`: rows start at even columns |
| a copy inside memory moves the old rectangle (`src/core/gsthread.cpp:3312-3500`) | an overlapping destination that comes after its source in the scan order (`GsCopy.UnsafeCopyRepeats`) | `GsCopy.CopyCarriesIff`: no overlap, or a destination not after the source |
| a timer sleeps until its counter stops (`src/core/scheduler.cpp:124-146`) | a target above the mask, as every timer has until one is set (`Timers.UnsetTargetWakesEarly`) | `Timers.DeadlineExactIff` |
| a timer that goes on after a pause wakes at its next stop (`src/core/scheduler.cpp:253-271`; it is the last call at `src/core/iop/iop_timers.cpp:193-195` and `src/core/ee/timers.cpp:101`) | any paused timer with a mask of up to 32 bits: its deadline is computed while it still counts as paused (`Timers.UnpausedOversleeps`) | never by this call alone; a later change of target, counter or clock rate re-times it (`Timers.Timer.SetTarget`, `SetCounter`, `SetClockrate`) |

## Left out

- BitReaders.BitReader.ReadTracked: ends with the first query of the CRC, because querying it forgets how far the buffered words were covered.
- GsTransfer.Transfer.RoundTrip: asks for rows that begin where the conditions above want them, and for a buffer that does not wrap around memory; it does not say what comes back otherwise.
- GsTransfer.Transfer.LocalToHost: a quadword's second half that begins after the last 24-bit pixel holds one pixel from beyond the rectangle, of which only the size is stated.
- GsTransfer.Transfer.LocalToLocal: copies between two buffers or formats are equal to the pixel-by-pixel copy, but what they carry over is stated for one buffer and format only.
- GsPixels.StoreIsSetPixel: a value above 15 written as PSMT4HL spills into its neighbour and is excluded; only a copy from a wider format passes one, and `GsCopy.Copied` has it as the code does.
- Lpc.ComputeResidual: the twelve unrolled variants for orders 1 to 12 are represented by one descending sum.
- CircularFifo.EveryInterleaving: atomics are sequentially consistent; acquire and release orderings are not modelled.
- Scheduler.Emulator.Run: cycle counts stay below 2^61, components and timers add only events of their own kinds (CDVD, interrupt checks, timers), as in the code, and `vblank_start`'s gating of timers, which re-times other timers in the middle of a pass, is not among the handlers' effects.
- Timers.DeadlineExactIff: clock rates that do not divide the EE's are covered by `DeadlineClose` instead, as rounding of the scale moves their deadlines.
- Timers.Timer.SetTarget: the counter is no larger than its mask, which the timer's event restores; that event's target and overflow checks and `create_timer` are not modelled.
- Gif.GraphicsInterface.Interleaved: says which data reaches which register; decoding PACKED fields and the effects on the GS are not modelled.
- Gif.GraphicsInterface.SendPath3: the order of FIFO data and data sent past it is the caller's to keep.
- Gif.GraphicsInterface.PathActive: what the GS and the stop bit say is one boolean parameter, and in `Run` one for every quadword.
- GsRegisters.Manager.Write64Privileged: 64-bit writes only; the 32-bit ones are not modelled, and the bit layouts of the picture registers are the code's, with no statement of their own.
- Functions of the bit reader that skip the CRC (`_no_crc`), `FLAC__bitreader_clear` and Golomb codes.
- FLAC frame parsing, the encoder, estimation of coefficients and expected bits in floating point.
- Rasterisation, texturing, the JIT compilers and everything in floating point.
- The return queue, condition variables, rendering messages, GS dumps and save states.
- Writes to BITBLTBUF, TRXPOS and TRXREG, and changing them while a transfer runs; their fields are the state a transfer starts from.
- Processors, DMA, IPU, VIF, SPU2, CDVD, the user interface: independent of the parts above.
