# A verified model of the FPGA board library

The library drives FPGA boards over PCI Express or a serial port.  This project models the parts of it
that compute something, in Dafny, and proves what they are for.  Nothing here drives hardware.

| file | models |
|---|---|
| `Words.dfy`, `Bits.dfy` | 32-bit words; inserting and extracting bit fields under a contiguous mask (`util/util-bits.h`) |
| `FixedPoint.dfy` | conversion between doubles and fixed point (`util/util.cc`) |
| `Decoders.dfy` | the field table a decoder records and later writes through (`util/decoders.cc`) |
| `Controllers.dfy` | controllers that write through a decoder's table, and their commands (`util/controllers.cc`, `util/controllers.h`) |
| `Sdram.dfy` | reading the SDRAM through a window of 1 MiB, with a vector copy (`util/pcie.c`) |
| `Wishbone.dfy`, `SerialProtocol.dfy`, `SerialDevice.dfy` | the Wishbone bus through BAR4 or the serial port, one thread, and the device that answers on the serial port (`util/pcie.c`) |
| `Bar4Concurrency.dfy` | the same calls by any number of threads, in small steps (`util/pcie.c`) |
| `RamAllocator.dfy`, `AcqParams.dfy`, `AcqRing.dfy`, `AcqReadout.dfy`, `AcqController.dfy`, `AcqRuns.dfy` | acquisitions: RAM ranges, sample counts, the ring buffer and its readout, the controller and its runs (`modules/acq.cc`) |
| `Si57xSearch.dfy`, `Si57xProtocol.dfy`, `Si57xController.dfy`, `Si57xRuns.dfy` | the oscillator: divider search, register protocol, controller and its runs (`util/si57x_util.cc`, `modules/si57x_ctrl.cc`) |
| `TimingCore.dfy` | the reference clocks of the timing core (`modules/afc_timing.cc`) |
| `Discovery.dfy` | locating the SPI core that belongs to a chip (`modules/isla216p.cc`, `modules/ad9510.cc`, `util/sdb.cc`) |
| `ShaperFilter.dfy` | the filter coefficient table (`modules/fofb_shaper_filt.cc`) |

`dafny verify dfyconfig.toml` checks everything.

## How it is modelled

* What the source updates in place is a class with the same fields: the BARs with their page registers
  and locks, the allocator, the decoder, the controllers.  Their methods have the loops and branches of the
  source and are proved against specification functions or relations, about which the lemmas then speak.
* Registers are 32-bit words with wrapping and truncation written out; a register structure is an array
  (or sequence) of words.  A `uint32_t &` is an array and an index.
* Exceptions, failed assertions and faults are results.
* The hardware is as small as it can be: page registers select windows of flat memories, and status words
  are chosen by the environment and appear as parameters.
* The concurrent model is a step function on (threads, locks, page registers, cached page, memories); a
  schedule picks any thread at every step, so the theorems quantify over all interleavings.
* The acquisition and Si57x controllers carry a ghost history of what they did.  A `Run` method makes any
  sequence of public calls; it ends in a state that the calls, their answers and the answers of the device lead to
  step by step, and with what holds of every such sequence.
* Behind the serial port is a bus memory.  It carries out the write commands it confirms; what it answers is chosen
  by the environment, and reads are stated for devices that answer each command from that memory.

## Where the code departs from its comments or from what one would expect

* The ring buffer read reduces its start index with C's `%`.  It returns the requested window if and only if
  the pre-trigger samples do not reach back before slot 0 (`AcqRing.PlanIsWindow`); otherwise it is one
  linear read that starts before the region (`AcqRing.PlanBeforeRegion`).  With a modulus that is never negative
  it would always be right (`AcqRing.EuclideanPlanIsWindow`).
* In builds with the SSE4.1 copy, `get_result` faults exactly when the result vector and the first sample read are
  differently placed within 16 bytes and a read is long enough for that copy (`AcqReadout.FaultIff`).  A 16-byte
  aligned vector does not avoid it: 2048 samples of 4 bytes from slot 1 on fault (`AcqReadout.AlignedResultFaults`);
  samples of whole 16-byte vectors into an aligned result, and results
  under 4096 bytes, never do.
* The RAM allocator counts before it checks, so a board gets seven ranges, not the eight of its message
  (`RamAllocator.SevenRanges`).
* Rounding sample counts up wraps around within one alignment of 2^32.  Below that the accepted counts are right,
  and exactly there (`AcqParams.AcceptedMeaning`); a request for 2^32 - 1 one-byte samples passes with an aligned
  count of zero (`AcqParams.WrappedRequestPasses`).
* A fixed-point field narrower than 32 bits that is extracted unsigned loses the sign
  (`Decoders.FixedReadsBackIff` is exact; `Decoders.NarrowFixedLosesSign` is KSUM, -1/4 becomes 7/4).
* The multiplier the divider search finds fits its 38 bits for every frequency exactly when the crystal is faster
  than the top oscillator frequency divided by 2^10; at that boundary it does not (`Si57xSearch.RfreqFitsIff`).
* A startup multiplier of zero is divided by: `read_startup_regs` returns true with a crystal frequency that is not
  finite, and every later search fails (`Si57xController.Controller.ReadStartupRegs`, `Si57xController.Controller.SetFreq`).
* Values of recorded register fields are not normalised to 0 and 1 even when their name is that of a boolean,
  because they arrive as a variant and not as an integer.

## Model

| member | source | states |
|---|---|---|
| Bits.GetAfterSet | util/util-bits.h:13-52 | a field reads back the low bits of what was put into it, at any position and width |
| Bits.GetOtherAfterSet | util/util-bits.h:13-52 | writing one field leaves every field that shares no bit with it |
| Bits.SetsCommute | util/util-bits.h:13-52 | writes to fields that share no bit commute |
| Bits.ContiguousIffRun | util/util-bits.h:90-107 | the mask test of the code accepts exactly the masks that are one run of ones |
| Bits.InsertIsSetField | util/util-bits.h:50-51 | clearing and or-ing under a mask replaces exactly the bits of the run |
| Bits.ClearAndInsertUnsigned | util/util-bits.h:13-52 | accepts exactly 0 to 2^w - 1; then the field holds the value and no other bit changed; otherwise nothing changed |
| Bits.ClearAndInsertSigned | util/util-bits.h:13-52 | accepts exactly -2^(w-1) to 2^(w-1) - 1; then the field holds the value modulo 2^w and no other bit changed; otherwise nothing changed |
| Bits.InsertBit | util/util-bits.h:54-61 | sets or clears the one bit of the mask and no other |
| Bits.GetBitIsField | util/util-bits.h:63-67 | the bit test is the field of width one |
| Bits.ExtractIsSelected | util/util-bits.h:90-107 | masking and shifting gives the bits under the mask |
| Bits.ExtractMeaning | util/util-bits.h:75-107 | extraction gives the bits under the mask, and with a sign their two's complement for widths 8, 16 and 32; it throws for a sign at any other width |
| Bits.UnsignedRoundTrip | util/util-bits.h:13-107 | an unsigned insert followed by an extraction gives the value back |
| Bits.SignedRoundTrip | util/util-bits.h:13-107 | the same for a signed insert and signed extraction |
| Bits.PutFrame | util/util-bits.h:13-52 | an insert leaves the field of every mask without common bits, and two such inserts commute |
| Bits.DisjointIffAndZero | util/util-bits.h:13-52 | two contiguous masks are apart exactly when their bitwise and is zero |
| FixedPoint.FixedRoundTrip | util/util.cc:27-65 | every 32-bit word survives the trip through a double, in both modes |
| FixedPoint.PointMeaning | util/util.cc:62-65 | what a word is worth: the integer with the point at 0, half of it with every position more |
| FixedPoint.SaturatingMeaning | util/util.cc:27-60 | the saturating form clamps outside the range; inside, it truncates toward zero with an error below one step |
| FixedPoint.SaturatingMonotone | util/util.cc:27-60 | larger inputs never give smaller stored numbers |
| FixedPoint.CheckedMeaning | util/util.cc:43-56 | the checked form throws exactly out of range, except for the negated minimum, and otherwise agrees with the saturating one |
| Decoders.RegisterDecoder.AddDataInternal | util/decoders.cc:67-84 | the channel check, and the value stored under its key and no other |
| Decoders.RegisterDecoder.AddInteger | util/decoders.cc:60-97 | integers stored under a boolean name are normalised |
| Decoders.RegisterDecoder.RfAddDataInternal | util/decoders.cc:153-158 | a field is recorded with its offset, mask and format, and its value stored |
| Decoders.RegisterDecoder.Decode | util/decoders.cc:105-158 | after decoding a layout every field is recorded with what the registers hold, or decoding throws exactly when some field cannot be decoded |
| Decoders.RegisterDecoder.WriteInternal | util/decoders.cc:233-250 | a write through the recorded field succeeds or throws as specified, and a throwing write leaves the registers |
| Decoders.WrittenIff | util/decoders.cc:233-250 | a write succeeds exactly if the value has the type of the field and, in a field of several bits, fits its signed or unsigned range; which exception it throws otherwise |
| Decoders.RecordedFieldIsValid | util/decoders.cc:105-158 | whatever decoding records can be written through |
| Decoders.DecodesUnsigned | util/decoders.cc:105-158 | the value of a bit, an unsigned field or a fixed-point field extracted unsigned, by the bits under its mask |
| Decoders.DecodesSigned | util/decoders.cc:105-158 | the value of a signed field is their two's complement; decoding it throws exactly at widths other than 8, 16 and 32 |
| Decoders.WriteFrame | util/decoders.cc:233-250 | a write changes the decoded value of no field that shares no bit with it |
| Decoders.WriteReadsBack | util/decoders.cc:120-158 | what a written value decodes to, for every kind of field |
| Decoders.WriteThenDecode | util/decoders.cc:233-250 | on a layout of disjoint fields, a write changes what a decode gives for that field, to the value read back, and for no other |
| Decoders.FixedReadsBackIff | util/decoders.cc:143-151 | a fixed-point field reads back the truncated number exactly when it has 32 bits, is signed, or the number is greater than minus one step |
| Decoders.NarrowFixedLosesSign | modules/pos_calc.cc:168-170 | the KSUM field gives 7/4 for -1/4 |
| Controllers.WriteThroughTable | util/controllers.h:56-64 | a write through a record made from another set of registers succeeds exactly for the values in the range of the field, changes that field to the value read back, and no other |
| Controllers.Controller.SetDevinfo | util/controllers.h:47-52 | the decoder holds the device's registers; it throws exactly if some field cannot be decoded, and otherwise every field can be written from then on |
| Controllers.Controller.Write | util/controllers.h:56-64 | throws exactly if the value has not the type of the field or is out of its range, and then no register changes; otherwise the named field takes it and no other field changes |
| Controllers.Controller.UnsetCommands | util/controllers.h:19-21 | every command is cleared and no other field changes |
| Controllers.Controller.WriteParams | util/controllers.cc:18-26 | the device receives the registers with the commands still set, and nothing else; afterwards every command is clear and every other field is as before, so the next call sends no command again |
| Sdram.FlatIndexIsIdentity | util/pcie.c:118-122 | below 2^52, page and offset address the SDRAM word of the address |
| Sdram.PcieBars.LoadBlock | util/pcie.c:157-174 | a block of 1024 words goes into the scratch buffer in order, every 16-byte load being aligned |
| Sdram.PcieBars.StoreBlock | util/pcie.c:176-189 | the scratch buffer goes to the destination in order, in aligned stores |
| Sdram.PcieBars.ReadPass | util/pcie.c:143-193 | head, blocks through the scratch buffer and tail of one page together copy exactly its words |
| Sdram.UsesVectorsClosedForm | util/pcie.c:136-154 | which reads reach the vector copy at all, in plain numbers |
| Sdram.PassFacts | util/pcie.c:136-198 | every pass reads at least one byte, stays in its page, keeps addresses aligned, and keeps destination and source congruent modulo 16 |
| Sdram.PcieBars.Bar2ReadV | util/pcie.c:124-202 | the destination receives exactly the flat SDRAM words of the range and nothing else changes; a vector access is misaligned exactly when the vector copy is reached with destination and address not congruent modulo 16 |
| Sdram.IndicesAre | util/pcie.c:118-122 | word k of a read is the one at its address plus 4k, of which 52 bits are kept |
| SerialProtocol.PrintHexRoundTrip | util/pcie.c:232-235 | a number printed in a fixed width is read back |
| SerialProtocol.ReadCommandDecodes | util/pcie.c:297-306 | a read command has one length and determines address and count |
| SerialProtocol.WriteCommandDecodes | util/pcie.c:232-233 | a write command determines address and value |
| SerialProtocol.CommandsPartition | util/pcie.c:347-365 | the commands of a read ask for exactly its words, each once and in order |
| SerialProtocol.CommandsAre | util/pcie.c:347-365 | every command but the last asks for 256 words, and where each starts |
| SerialProtocol.CommandsCount | util/pcie.c:347-365 | so they are as few as can be |
| SerialDevice.AnswerAnswers | util/pcie.c:304-318 | a device that prints the words a read command asks for, in eight digits each, answers it |
| SerialDevice.AnswersCarryRange | util/pcie.c:349-363 | answers to the commands of one read carry exactly the device's words of its range, in order |
| SerialDevice.ExecuteWrite | util/pcie.c:232-233 | executing a write command changes the word it was made for |
| SerialProtocol.ReplyScans | util/pcie.c:321-334 | each word of a well-formed reply is scanned as the device sent it |
| Wishbone.PcieBars.AccessOffset | util/pcie.c:204-226 | afterwards the returned offset in BAR4 is the requested bus word, and cache and page register agree |
| Wishbone.PcieBars.Bar4Write | util/pcie.c:228-263 | one bus word changes, directly or when the device confirms the command; when the answer fails the assertion; locks balance |
| Wishbone.PcieBars.Bar4WriteV | util/pcie.c:265-276 | the bus words of the range change in order, directly or by commands that the device confirms |
| Wishbone.PcieBars.Bar4Read | util/pcie.c:278-295 | the requested bus word, read directly or answered by the device to the command sent; a misaligned address, an error or a short reply over the serial port aborts |
| Wishbone.PcieBars.BarGenericReadV | util/pcie.c:80-91 | the words of the range, and the two alignment assertions |
| Wishbone.PcieBars.UartReadCmd | util/pcie.c:297-337 | a well-formed reply is stored word by word; what is sent; nothing else is touched |
| Wishbone.PcieBars.Bar4ReadV | util/pcie.c:339-372 | the words of the range in the device's memory, read directly or answered to the commands sent; over the serial port it succeeds only if every command was accepted with a long enough reply; the calls between it and `bar4_read` end |
| Bar4Concurrency.StepKeepsInv | util/pcie.c:204-295 | every step of every thread keeps the invariant on locks, cache, page registers and partial results |
| Bar4Concurrency.RunKeepsInv | util/pcie.c:204-372 | the invariant holds in every state of every run |
| Bar4Concurrency.AccessHitsRequest | util/pcie.c:204-226 | at the moment of access the page registers make the window address the address the thread asked for, on both BARs |
| Bar4Concurrency.CacheAgreesWhenFree | util/pcie.c:204-219 | when the lock is free, the cached page is the register's or the initial mark |
| Bar4Concurrency.InterleavingsAreSerial | util/pcie.c:228-372 | all interleavings are equivalent to running the finished calls whole, in the order they finished: there are memories between the calls such that each call returned the words of the one before it, address by address, and the next one has exactly its words stored; vector calls are atomic |
| Bar4Concurrency.CallsAreDone | util/pcie.c:228-372 | the calls a thread has finished, and the one it is in, are those it made, in its order |
| Bar4Concurrency.ValidIff | util/pcie.c:204-226 | which addresses and counts the model lets a thread call with |
| Bar4Concurrency.CallsEnd | util/pcie.c:204-372 | in every reachable state each step of a thread that can move brings it nearer to the end of its call, within a bound fixed by the number of words |
| Bar4Concurrency.LocksBalance | util/pcie.c:228-372 | with every thread outside the calls, both locks are free |
| Bar4Concurrency.NoDeadlock | util/pcie.c:228-372 | while a thread is inside a call, some thread can go on |
| RamAllocator.MemoryAllocator.GetRange | modules/acq.cc:27-38 | the answer is a function of how many calls the board made before |
| RamAllocator.FirstRange | modules/acq.cc:27-38 | the first call of a board is given the first 2^28 bytes |
| RamAllocator.NextRange | modules/acq.cc:27-38 | its next call is given the 2^28 bytes that follow, up to the seventh, and nothing after that |
| RamAllocator.RangesDisjoint | modules/acq.cc:17-38 | ranges of a board never overlap, have 2^28 bytes and lie within 2^31 |
| RamAllocator.SevenRanges | modules/acq.cc:29-35 | a board gets seven ranges and no more, whatever other boards do |
| AcqParams.HalvesAreFields | modules/acq.cc:308-313 | the halves of the description register are the fields of its masks |
| AcqParams.SampleSizeShape | modules/acq.cc:306-322 | an accepted sample size is a power of two, at most 2^27, that divides the region |
| AcqParams.PowerOfTwoIff | modules/acq.cc:314-319 | the bit count accepts exactly the powers of two |
| AcqParams.AlignmentShape | modules/acq.cc:320-322 | the alignment is the least number of samples that fill whole bursts of 32 bytes, and divides 2^32 |
| AcqParams.AlignExtendMeaning | modules/acq.cc:345-359 | the result is the least multiple that covers the request if and only if the request is at most 2^32 - alignment |
| AcqParams.AlignExtendRounds | modules/acq.cc:345-359 | the result for every count: zero or one alignment for none, the next multiple below the wrap-around, zero beyond it |
| AcqParams.AcceptedMeaning | modules/acq.cc:361-377 | accepted counts cover the request exactly when neither is within one alignment of 2^32; then they fill whole bursts and leave a slot free |
| AcqParams.LastSlot | modules/acq.cc:408-410 | the end address is the start of the last whole slot |
| AcqParams.WrappedRequestPasses | modules/acq.cc:345-374 | a request of 2^32 - 1 samples is accepted with an aligned count of zero |
| AcqRing.PlanIsWindow | modules/acq.cc:520-551 | the reads return the requested circular window if and only if it does not reach back before slot 0; their sizes always add up |
| AcqRing.EuclideanPlanIsWindow | modules/acq.cc:530-551 | with a modulus that is never negative they would return it always |
| AcqRing.PlanBeforeRegion | modules/acq.cc:530-541 | otherwise there is one read, from before the region |
| AcqRing.WindowInjective | modules/acq.cc:530-551 | the window holds every byte at most once |
| AcqReadout.WholeIff | modules/acq.cc:536-551 | when every read of a result starts at a word and has whole words |
| AcqReadout.FaultIff | modules/acq.cc:536-551 | the reads fault exactly when the vector copy is compiled in, the result and the first sample are differently placed within 16 bytes, and some read is long enough, by plain arithmetic on its offset and length |
| AcqReadout.LongIff | util/pcie.c:136-154 | that arithmetic says whether a read reaches the vector copy |
| AcqReadout.VectorSamplesNeverFault | modules/acq.cc:536-551 | samples of whole vectors into an aligned result never fault |
| AcqReadout.ShortResultsNeverFault | util/pcie.c:146-154 | results under 4096 bytes never fault |
| AcqReadout.AlignedResultFaults | util/pcie.c:184-188 | 2048 samples of 4 bytes from slot 1 on do fault in any region, whatever aligned address the result has |
| AcqReadout.ResultIsWindow | modules/acq.cc:527-551 | joined with the SDRAM read: the words of a result are those of the circular window if and only if it does not reach back before slot 0 |
| AcqReadout.ReadWindow | modules/acq.cc:536-551 | the two branches return exactly the words of the plan, or throw exactly what its reads throw |
| AcqRuns.Run | modules/acq.cc:413-629 | over every sequence of starts, stops, polls, fetches and edits of the settings: each call answers and acts as its step, settings, latched parameters and status word say; results are at most as many as successful starts, which are as many as device writes with the start bit, and each follows its own start and a complete poll with the parameters latched then |
| AcqRuns.Attach | modules/acq.cc:258-266 | a new controller owns the next region its board is given |
| AcqRuns.CoresShareNoWord | modules/acq.cc:17-38 | the windows of two controllers of one board share no SDRAM word |
| AcqController.KnownMasks | modules/acq.cc:336-410 | the masks of the register map are runs of the widths the encoding relies on |
| AcqController.CompleteFields | modules/acq.cc:455-461 | a complete status has the state machine idle and the three done bits set, under the masks of the register map |
| AcqController.CompleteIff | modules/acq.cc:456-467 | the comparison with two constants tests exactly those fields |
| AcqController.InvAfterStart | modules/acq.cc:432-442 | a successful start sends exactly one write with the start bit, after a block that carries no command |
| AcqController.InvAfterEvent | modules/acq.cc:413-430 | refused starts, polls and results send no start bit and keep the history proper |
| AcqController.Controller.StopAcquisition | modules/acq.cc:444-454 | the step is stop, and one control write carries the stop bit and no start bit |
| AcqController.Controller.AcquisitionReady | modules/acq.cc:463-467 | ready exactly when the state machine is idle and the acquisition, FIFO and memory transfers are done |
| AcqController.Controller.GetAcqStatus | modules/acq.cc:613-629 | polls only when started, and goes to done exactly on a complete status |
| AcqController.Controller.GetInternalValues | modules/acq.cc:306-334 | accepts exactly power-of-two sizes with 8, 16 or 32-bit atoms, and the values latched |
| AcqController.Controller.EncodeParams | modules/acq.cc:336-411 | which error is thrown, if any; otherwise the registers hold the whole request, by register number and bit, and the request is latched |
| AcqController.Controller.StartAcquisition | modules/acq.cc:413-442 | a failed start changes neither step nor device; a successful one writes the request, by register number and bit, and then the same control word plus the start bit, and latches the request with the fields of the description registers |
| AcqController.EncodesMeans | modules/acq.cc:379-410 | name by name which trigger type sets which of the four trigger bits, and which register and bits hold every other setting |
| AcqController.StartErrorMeaning | modules/acq.cc:336-402 | in plain numbers, when a start fails and with which error: unknown channel, no samples, post-trigger samples of an immediate start, too many samples, then a trigger type that is none of the four or a setting too wide for its field |
| AcqController.LatchMeans | modules/acq.cc:306-341 | which bits of the description registers and which settings are latched |
| AcqController.Controller.GetResult | modules/acq.cc:470-575 | only in step done; leaves step stop; exactly which exception, if any; otherwise the words from the slot of the trigger less the pre-trigger samples on, around the ring of the region, or from before the region if that slot is negative, and as many as the latched counts say |
| AcqController.Controller.FetchErrorMeaning | modules/acq.cc:477-551 | in plain numbers, when it throws which exception |
| AcqController.Controller.Result | modules/acq.cc:576-599 | gets to the fetch exactly when the start is accepted and one of the polled status words is complete, and then behaves as the fetch, words included |
| Si57xSearch.ErrorBound | util/si57x_util.cc:50-55 | the output error of any divider pair is at most the crystal over 2^29 times the dividers |
| Si57xSearch.FeasibleErrorSmall | util/si57x_util.cc:44-56 | every feasible pair beats the initial best error, so it is never passed over |
| Si57xSearch.BestUnique | util/si57x_util.cc:46-66 | the first best pair is unique |
| Si57xSearch.Parameters.SetFreq | util/si57x_util.cc:40-76 | over all dividers in {4, 5, 6, 7, 9, 11} and even ones from 2 to 128: fails exactly when none keeps the oscillator in its range with the nearest multiplier, or the crystal frequency is not finite, and then changes nothing; otherwise stores dividers and multiplier with the least error, the first of equals |
| Si57xSearch.GridHolds | util/si57x_util.cc:11-15 | the scan tries exactly those dividers |
| Si57xSearch.GridOrder | util/si57x_util.cc:46-47 | each pair once, larger first dividers and then smaller second ones first |
| Si57xSearch.NearestIsRounded | util/si57x_util.cc:50-51 | the multiplier is the nearest integer, the even one of two equally near |
| Si57xSearch.BestIsChosen | util/si57x_util.cc:44-66 | the best pair of the scan has the least error of all dividers, and is the first of equals |
| Si57xSearch.Parameters.OutputClose | util/si57x_util.cc:78-82 | afterwards the output frequency differs from the wanted one by at most half a step of the multiplier |
| Si57xSearch.Parameters.CalcFxtal | util/si57x_util.cc:33-38 | throws exactly for an unknown divider; the crystal it computes outputs the startup frequency, and is not finite exactly for a multiplier of zero |
| Si57xSearch.CrystalRoundTrip | util/si57x_util.cc:33-38 | the crystal formula inverts the output formula |
| Si57xSearch.RfreqFitsIff | util/si57x_util.cc:50-54 | the found multipliers fit 38 bits for every frequency exactly when the crystal is faster than fdco_max over 2^10 |
| Si57xController.Controller.GetBusy | modules/si57x_ctrl.cc:105-109 | one read of the core, and its busy bit |
| Si57xController.Controller.StillBusy | modules/si57x_ctrl.cc:111-121 | the reads of the polling function, at most 201, the last of which decides |
| Si57xProtocol.PollShape | modules/si57x_ctrl.cc:111-121 | all reads of a wait but the last were busy, and a wait that ends busy made all its reads |
| Si57xController.Controller.WriteParams | modules/si57x_ctrl.cc:123-134 | reads the device once and writes the registers exactly if it is not busy, and throws otherwise; the control register is zero afterwards in both cases |
| Si57xController.Controller.ApplyConfig | modules/si57x_ctrl.cc:166-178 | its outcome, reads and writes for any answers of the device (`Si57xProtocol.ApplyIs`); it throws exactly if the device is busy at one of the two writes; otherwise succeeds exactly if it ends up not busy and in sync |
| Si57xController.Controller.ReadStartupRegs | modules/si57x_ctrl.cc:136-164 | its outcome, reads and writes for any answers of the device (`Si57xProtocol.StartupIs`); success means that the computed crystal outputs the startup frequency with the values read, or is not finite because their multiplier is zero |
| Si57xProtocol.StartupIs | modules/si57x_ctrl.cc:136-164 | read by read: nothing is read or written without a startup frequency or if the values are there; otherwise one read, and unless it is busy one write with the action bit and then reads up to the first that is not busy or the 201st; which outcome follows |
| Si57xProtocol.ApplyIs | modules/si57x_ctrl.cc:166-178 | read by read: each of the two writes after a read that is not busy, then reads up to the first that is not busy or the 201st; which outcome follows |
| Si57xProtocol.StatusBits | modules/si57x_ctrl.cc:60-66 | where the three status bits are |
| Si57xProtocol.StartupFields | modules/si57x_ctrl.cc:68-79 | where the startup values are, and which dividers are known |
| Si57xController.Controller.SetFreq | modules/si57x_ctrl.cc:180-198 | the registers hold the dividers and the multiplier of the least error, or it throws before any change exactly when the multiplier needs more than 38 bits; the nominal crystal stands in for one not measured |
| Si57xProtocol.SendKeeps | modules/si57x_ctrl.cc:123-134 | a block write directly follows a read of the device that was not busy, carries its action bits once, and prepares its configuration |
| Si57xProtocol.ApplyKeeps | modules/si57x_ctrl.cc:166-178 | an apply sends the apply bit exactly once unless it throws, after the same configuration without it, and asks for no startup values |
| Si57xProtocol.StartupKeeps | modules/si57x_ctrl.cc:136-147 | reading the startup values sends their action bit exactly once if there is a startup frequency, the last read has no startup values and the next one is not busy, and not otherwise; it sends no apply bit |
| Si57xProtocol.CrystalMatches | modules/si57x_ctrl.cc:149-161 | the computed crystal makes the startup values output the startup frequency |
| Si57xRuns.RunsAreSafe | modules/si57x_ctrl.cc:105-198 | over every sequence of public calls and register edits, whatever the device answers: every write directly follows a read of the device that was not busy, the apply bit only follows the same configuration without it and is sent exactly once for each apply that does not throw, and the other action exactly once for each call that finds it needed |
| Si57xRuns.Run | modules/si57x_ctrl.cc:105-198 | the controller makes exactly such runs: its state and outcomes are those the calls and the device's answers lead to |
| Si57xProtocol.KnownMasks | modules/si57x_ctrl.cc:55-92 | the masks of the register map are runs of the widths the protocol relies on |
| Si57xProtocol.JoinSplit | modules/si57x_ctrl.cc:152-155 | joining the two parts of the multiplier gives it back, and the upper one fits 6 bits exactly below 2^38 |
| TimingCore.SplitJoins | modules/afc_timing.cc:273-274 | joining the two parts gives the low 52 bits of the multiplier, so it is lossless exactly below 2^52 |
| TimingCore.Controller.SetupClock | modules/afc_timing.cc:272-280 | throws exactly when a divider does not fit its field; otherwise the registers decode to both dividers and the low 52 bits of the multiplier |
| TimingCore.Controller.Search | modules/afc_timing.cc:256-268 | fails exactly when no dividers are possible and then keeps the clock; a clock it finds has the least error and fits the registers |
| TimingCore.Controller.SetRtmFreq | modules/afc_timing.cc:254-268 | the same for the clock of the RTM |
| TimingCore.Controller.SetAfcFreq | modules/afc_timing.cc:255-268 | the same for the clock of the AFC |
| TimingCore.Controller.EncodeParams | modules/afc_timing.cc:270-283 | never throws, and its registers decode to both clocks exactly |
| Si57xProtocol.FastCrystalNeverThrows | modules/si57x_ctrl.cc:187-195 | with a fast enough crystal no field write throws |
| Discovery.IslaController.MatchDevinfo | modules/isla216p.cc:13-44 | the three optional fields move through the phases of the pattern |
| Discovery.Ad9510Controller.MatchDevinfo | modules/ad9510.cc:13-30 | the same for its one field |
| Discovery.ReadSdb | util/sdb.cc:74-107 | the loop finds the device of the search and leaves the matcher in its phase |
| Discovery.PhaseStep | modules/isla216p.cc:13-44 | from any phase, a device matches exactly when it is the third (for the AD9510 the first) SPI core after the first board core |
| Discovery.FindIsKthTarget | util/sdb.cc:82-106 | with a fresh matcher the search yields exactly the requested core of the declarative pattern, or nothing exactly when there is none, and leaves the matcher fresh |
| Discovery.KthTargetUnique | util/sdb.cc:82-106 | the pattern determines that core |
| ShaperFilter.TableIsTriples | modules/fofb_shaper_filt.cc:129-139 | the table words are exactly those of the (channel, biquad, coefficient) triples, each of one triple |
| ShaperFilter.Controller.SetDevinfo | modules/fofb_shaper_filt.cc:116-127 | the number of biquads and the position of the point are those the device reports |
| ShaperFilter.PointField | modules/fofb_shaper_filt.cc:119-122 | the position of the point is 32 minus the field under the mask of the register map |
| ShaperFilter.Controller.EncodeParams | modules/fofb_shaper_filt.cc:129-140 | every table word holds its coefficient in fixed point; every other word is as before |
| ShaperFilter.Controller.WriteParams | modules/fofb_shaper_filt.cc:142-156 | the bus receives the table and nothing else, never the padding; over the serial port, the commands of the table |
| ShaperFilter.CommandAtTurn | modules/fofb_shaper_filt.cc:146-155 | each coefficient is written once, at its turn, to its own register |
| ShaperFilter.Core.Decode | modules/fofb_shaper_filt.cc:56-84 | every value is that of its register, in vectors of five values a biquad |
| ShaperFilter.DecodeOfEncode | modules/fofb_shaper_filt.cc:70-82 | decoding an encoded table gives each coefficient clamped, or within one step of it |
| ShaperFilter.EncodeOfDecode | modules/fofb_shaper_filt.cc:129-140 | encoding decoded values gives the same registers |
| ShaperFilter.ConfigureAndRead | modules/fofb_shaper_filt.cc:142-156 | configuring over BAR4 and reading back yields the fixed-point image of every coefficient |

## Left out

- Opening devices, memory maps, file locks, terminal settings: operating system plumbing.
- Printing, CSV output and the command line.
- The other register modules (interlocks, triggers, clocks and so on): instances of the codec theorems.
- `device_reset`: what it does to the page registers is not decided by the code.
- Memory fences, write combining and byte order; words are the smallest unit of every transfer.
- Sleeps and timeouts: polls are counted instead.
- Doubles are real numbers.  Powers of two scale exactly, so the fixed-point code loses nothing; in the divider search this leaves out rounding of doubles, and rounding to the nearest integer stands for the current rounding mode.
- Sdram.PcieBars.Bar2ReadV: requires an address that is a multiple of 4; other addresses are not modelled.
- AcqController.Controller.GetResult: returns words and not elements of 8, 16 or 32 bits, reports reads from an address that is not a multiple of 4 as `Unaligned` without modelling them, and reports latched counts of a whole ring or more, which its contract confines to within one alignment of 2^32, as `Oversized`.
- AcqController.Controller.Result: the time limit is a number of polls.
- AcqRuns.Run: block writes of the inherited `write_params` called directly by the user, outside the start, are not part of the runs.
- Bits.ClearAndInsertSigned: for 32-bit values only, and only for contiguous masks; the register maps have no others.
- Bits.ClearAndInsertUnsigned: the same.
- SerialProtocol.ReplyScans: replies with blanks or a `0x` prefix, which `sscanf` would also accept, are not described.
- Wishbone.PcieBars.Bar4WriteV: takes whole words; a size that is not a multiple of 4 is not modelled.
- Wishbone.PcieBars.UartReadCmd: what a malformed reply stores before it fails is not described.
- RamAllocator.MemoryAllocator.GetRange: the overflow of its call counter after 2^31 calls is not modelled.
- Controllers.Controller.SetDevinfo: on boards with BAR4; `encode_params` of the cores modelled here is empty, and the commands are single bits, as in `modules/lamp.cc:200-204`.
- Controllers.Controller.WriteParams: the same.
- Si57xSearch.Parameters.CalcFxtal: infinities and results that are not a number are one value.
- Si57xSearch.Parameters.SetFreq: negative frequencies are not modelled.
- Si57xRuns.Run: a user who writes action bits by name, outside the controller's own calls, is not part of the runs.
- TimingCore.Controller.Search: the trigger channels of the timing core are not modelled.
- ShaperFilter.Controller.EncodeParams: needs at most 10 biquads and vectors that are long enough; the code relies on the same without checking it.
- Discovery.ReadSdb: the list of records is given; how the bus is scanned, and printing without a matcher, are not part of this model.
- The exception for a core whose address was never set.
- The name tables of `clear_and_insert_index` and `list_of_keys`.
