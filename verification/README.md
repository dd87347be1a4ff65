# Verification of the SPEC driver's engines

A Dafny model of the parts of this repository that talk to hardware bit by bit, word by
word or event by event, with proofs of what those conversations achieve. Each driver
engine is written in its own form (methods that update registers, buffers and fields in
loops) beside a small model of the hardware at the other end, and is tied to a
specification whose properties are proved over every input, script or run.

| module | part of the repository | in short |
|---|---|---|
| `I2cWire`, `SpecI2c`, `I2cRuns` | `kernel/spec-i2c.c` | bit-banged I2C and the EEPROM driver, against an EEPROM driven only by line edges and a listener that decodes the wire; chip and shadow over whole lives |
| `Timespec`, `Ppsg` | `kernel/wr_nic/pps.c`, clock reads of `kernel/wr-nic-dio.c` | reads of a clock that moves between register accesses |
| `WrNicDio`, `DioRuns` | `kernel/wr-nic-dio.c` | timestamp rings, pulse trains, I/O modes, and what holds over whole runs |
| `WrDioCmd`, `WrDioRuler`, `ParseTs` | `tools/wr-dio-cmd.c`, `tools/wr-dio-ruler.c` | the clients: draining stamps, mode strings, delayed pulses, decimal times |
| `NicMem`, `NicRx`, `NicTx` | `kernel/wr_nic/` | word copies, the descriptor rings, recovery of full times, frame ids |
| `SpecVic`, `VicRuns` | `kernel/spec-vic.c`, `kernel/spec-fmc.c` | the vectored interrupt controller over every history of requests and releases |
| `LoaderLl` | `kernel/loader-ll.c` | the FPGA loader, against a record of its register traffic |

`Common` holds what several of them share. `dafny verify dfyconfig.toml` checks everything.

## How the hardware is modelled

- **EEPROM.** A state machine that sees rising and falling edges of SCL and the START
  and STOP conditions, and drives its half of a wired-AND SDA. Whether it acknowledges
  a byte that is meant for it, be it device, memory address or data, is a finite list of
  answers, followed by "yes" for ever: this covers a refusal at any place and every finite
  busy time. A refused byte has no effect, and the address counter moves once both address
  bytes are there. It auto-increments over 8 kB and commits what it was sent at STOP. An
  independent listener (`Hear`) turns edges into transfers; it gives up on SDA changes
  during a high period that are not START or STOP, and on bytes of other than nine clocks.
- **Clock.** Register accesses happen at any non-decreasing sequence of instants.
- **DIO.** Five FIFOs of raw tags, trigger registers that take effect when latched, and
  the IOMODE word. One interrupt and one command are one step each.
- **Receiver and transmitter.** The hardware fills EMPTY descriptors in circular order, at any time
  between two turns of the driver's loop (`HwReceive` and `RingPush` are this environment,
  not driver code), and gives a transmit descriptor back at any time (`HwSent`).
- **VIC and PCI line.** What the world grants (a VIC in the gateware, memory, the PCI
  line) is an input of each request.
- **FPGA loader.** FCL_IRQ shows a finite script of states and is then idle with room in
  the FIFO, so that the busy-wait ends. What the FPGA receives, and how full its FIFO
  can be, is computed from the recorded traffic alone: a reset forgets every register, a
  loader takes words only once it is out of reset, set up and then started, and words
  stored before that are lost.

## Where the code does less than one might expect

Each of these is proved, with the exact condition under which things go well.

- The driver looks at the answer to the first device byte of a transaction only
  (`kernel/spec-i2c.c:175-176`, `:179`, `:214-216`). A read whose address is refused
  returns the memory from the old address counter on, one whose second device byte is
  refused returns all ones, and both report success (`FetchedIsMemory`; exactly when that
  is still what was asked for, `FetchedIsRightIff`; a failing input, `RefusedAddressByte`).
  A write counts a
  byte as written although its address or data was refused: shadow and chip stay equal if
  and only if no transaction the driver saw through had such a refusal, or the byte was
  there already (`WriteKeepsCoherence`; a failing input, `RefusedDataByte`; over whole
  lives, `AlwaysCoherentIff`).
- A read of no bytes can leave the EEPROM holding SDA low (`EepromRead`, `ReadEnds`).
- In fake-EEPROM mode a write moves the shadow and not the chip (`WriteKeepsCoherence`).
- A loop command with value 0 still fires its first pulse, although
  `doc/spec-sw.in:1005` says that 0 stops the pulses; values above 2^31, such as -1, are
  endless (`TrainIsExact`).
- The second of an event is recovered modulo 2^31 and only if the clock is read within
  one second of it (or of a multiple of 2^31 seconds later) (`SecondRecovered`).
- Frame ids repeat every 65535 attempts, not 65536 (`FrameIdsCollide`).
- A first VIC request for an id that is not in the table leaves the table in place; the
  next request then succeeds with nobody listening on the PCI line. A request whose PCI
  line is refused leaves the same state (`RequestKeepsWired`, `UnknownFirstIdLosesInterrupts`).
- `parse_ts` accepts anything after the seconds that cannot be taken for a fraction
  (`AcceptedIff`). A minus sign in front goes to the seconds and not to what is behind the
  dot, so that "-1.5" is read as -0.5 s (`MinusMeansSeconds`); it does what it says if and
  only if the fraction is zero (`MinusIsExactIff`). Behind the dot a sign is taken as well:
  "1.-5" is one second and -50,000,000 ns (`MinusInFraction`). The result is a normal time
  if and only if the part behind the dot is not negative (`NormalIff`).
- The test at `kernel/wr-nic-dio.c:222` uses a logical "or" of two flag bits and so
  rejects requests with the "now" bit, whatever else they ask for. A request that waits on
  several channels gets through and sleeps on the queue of the last one (`CmdStamp`).
- A pulse command ORs one bit into the mode of its channel: it does not enable the output,
  and a channel connected to the WR core ends in the undefined mode (`PulseMode`).

## Model

| member | source | states |
|---|---|---|
| `I2cWire.ChipKeepsDataValid` | kernel/spec-i2c.c:48-69 | The EEPROM model never moves SDA while SCL is high (UM10204 section 3.1.3), so any change in a high period is the carrier's. |
| `I2cWire.Bus.SetSda` | kernel/spec-i2c.c:48-55 | Moving the carrier's half of SDA is seen by the EEPROM only if the wired-AND line moves during a high period, as START or STOP. |
| `I2cWire.Bus.SetScl` | kernel/spec-i2c.c:57-64 | Moving SCL gives the EEPROM exactly one edge, with the level of the wired-AND line at that moment. |
| `I2cWire.SessionIsHeard` | kernel/spec-i2c.c:48-151 | Decoding the edges of any session gives back exactly its transfers, bytes and acknowledgements: nine clocks a byte, most significant bit first, SDA still during high periods except at START and STOP, and a free bus at the end. |
| `SpecI2c.Mi2cStart` | kernel/spec-i2c.c:71-75 | From an idle bus: one START, then SCL low, and nothing else on the wire. |
| `SpecI2c.Mi2cStop` | kernel/spec-i2c.c:77-82 | Ends with both lines released; the STOP reaches the EEPROM exactly if it is not holding SDA low. |
| `SpecI2c.ShiftedBit` | kernel/spec-i2c.c:88-93 | Bit 7 after i left shifts is bit 7-i of the byte. |
| `SpecI2c.Mi2cPutByte` | kernel/spec-i2c.c:84-104 | Nine clocks carry the low byte to the EEPROM, which takes it as a byte; the result is its acknowledgement. |
| `SpecI2c.Mi2cGetByte` | kernel/spec-i2c.c:106-129 | Nine clocks bring back the byte the EEPROM offers, and tell it whether to go on. |
| `SpecI2c.Fmc.SendAddress` | kernel/spec-i2c.c:170-176 | The opening of a transaction: refused at its first byte, it leaves the bus idle and the memory untouched; otherwise all three bytes are sent, and the address counter is set if and only if all three were acknowledged. |
| `SpecI2c.OpeningBytes` | kernel/spec-i2c.c:170-176 | What the three bytes do to the EEPROM, for every list of answers. |
| `SpecI2c.Fmc.ReadBytes` | kernel/spec-i2c.c:178-184 | Every byte of the buffer is the memory's, from the address counter on; the last one alone is not acknowledged; all ones if the device byte was refused. |
| `SpecI2c.Fmc.EepromRead` | kernel/spec-i2c.c:153-187 | For every offset, length and list of answers: the error cases change nothing or stop at once; otherwise the buffer is `Fetched`, memory is unchanged, the exact state of the EEPROM and the exact wire are given for both endings, and the bus is idle except in the one stated case of an empty read. |
| `SpecI2c.FetchedIsMemory` | kernel/spec-i2c.c:169-184 | What a successful read returns: memory[offset..] if address and second device byte were acknowledged, memory from the old address counter on if the address was not, all ones if the device byte was not. |
| `SpecI2c.FetchedIsRightIff` | kernel/spec-i2c.c:169-184 | A successful read returns memory[offset..] if and only if address and second device byte were acknowledged or the memory has the same bytes there as what came back instead. |
| `SpecI2c.RefusedAddressByte` | kernel/spec-i2c.c:171-184 | The failing family: one refused address byte, success reported, and the byte at the old address counter is returned. |
| `SpecI2c.ReadEnds` | kernel/spec-i2c.c:178-185 | After a read the EEPROM lets go of SDA if and only if something was read, or the device byte was refused, or the next byte starts with a 1. |
| `SpecI2c.ReadIsHeard` | kernel/spec-i2c.c:170-185 | The wire of a read decodes to its two transfers, for every buffer and whatever was refused. |
| `SpecI2c.Fmc.Poll` | kernel/spec-i2c.c:219-223 | One START, device byte, STOP changes no memory and reports the EEPROM's answer. |
| `SpecI2c.Fmc.WaitReady` | kernel/spec-i2c.c:219-223 | The ready poll ends for every finite busy time, changes no memory, and puts exactly the refused polls and one accepted poll on the wire. |
| `SpecI2c.Fmc.WriteOne` | kernel/spec-i2c.c:201-225 | One turn of the write loop: refused at the first byte, chip and shadow keep theirs; otherwise the shadow takes the byte, and the chip takes it if all four bytes were acknowledged. |
| `SpecI2c.Fmc.SendByte` | kernel/spec-i2c.c:208-217 | The four bytes of one write and the STOP: the memory changes at the offset if and only if all four are acknowledged. |
| `SpecI2c.Fmc.EepromWrite` | kernel/spec-i2c.c:189-227 | For every list of answers: how many bytes the driver sees through, the shadow with exactly those, the chip as `WriteRun` leaves it, the result (the length exactly if that is all of them), and the exact wire. |
| `SpecI2c.WriteRunStores` | kernel/spec-i2c.c:201-225 | The memory after a write has those bytes, and only those, whose four bytes on the wire were all acknowledged. |
| `SpecI2c.WriteKeepsCoherence` | kernel/spec-i2c.c:189-227 | A shadow equal to the chip before a write, complete or aborted, is equal after it if and only if every byte the driver saw through was acknowledged to the end or was there already; with a fake EEPROM, if and only if the data was there already. |
| `SpecI2c.RefusedDataByte` | kernel/spec-i2c.c:214-224 | The failing family: one refused data byte, success reported, and shadow and chip differ. |
| `SpecI2c.WriteThenRead` | kernel/spec-i2c.c:153-227 | A write and a read of the same range, one after the other: if the write was acknowledged to the end and so was the opening of the read, the buffer holds the data written. |
| `SpecI2c.WriteReplays` | kernel/spec-i2c.c:201-225 | A bystander who replays the decoded write session on a copy of the memory, taking the transfers that were acknowledged to the end, gets exactly the memory of the chip. |
| `SpecI2c.WriteSessionShape` | kernel/spec-i2c.c:201-227 | Whatever is refused: one transfer for each byte that is seen through, in order and to its own address, each followed by polls until the EEPROM is ready again; the session ends with the answer to a poll if that is all of them, and with the refused device byte otherwise. |
| `SpecI2c.WriteIsHeard` | kernel/spec-i2c.c:201-225 | The wire of any write session, polls and refusals included, decodes to that session and leaves the bus free. |
| `SpecI2c.Fmc.Mi2cScan` | kernel/spec-i2c.c:137-151 | Finds the EEPROM exactly if it acknowledges, and leaves memory and bus as they were. |
| `SpecI2c.Fmc.I2cInit` | kernel/spec-i2c.c:229-280 | Leaves the bus idle and sets up a shadow with what a read of the whole chip returns, or with the zero-padded image of a fake EEPROM, or reports which step failed. |
| `I2cRuns.CallKeepsCoherence` | kernel/spec-i2c.c:153-227 | One read or write on a coherent pair leaves it coherent if and only if the call meets its condition. |
| `I2cRuns.AlwaysCoherentIff` | kernel/spec-i2c.c:153-227 | Over any sequence of reads and writes the shadow is the chip's memory at every moment if and only if every call meets its condition when its turn comes. |
| `I2cRuns.SetUpCoherentIff` | kernel/spec-i2c.c:265-274 | The shadow set up by reading the whole chip is its memory if and only if that read was acknowledged, so far as it matters. |
| `I2cRuns.Live` | kernel/spec-i2c.c:153-227 | Any sequence of calls, made as long as each one leaves the bus free, has the effect on chip and shadow that the run says. |
| `I2cRuns.FromTheStart` | kernel/spec-i2c.c:229-280 | From the scan on: the shadow is the chip's memory from the set-up to the last call if and only if the set-up was right and every call met its condition. |
| `Ppsg.ReadTime` | kernel/wr_nic/pps.c:18-31 | However the clock moves between the three or four accesses (by less than 2^32 s), the pair returned was on the clock at one instant of the read. |
| `Ppsg.ReadSecond` | kernel/wr-nic-dio.c:183-195 | The high-low-high read returns a 40-bit second that the clock held at one instant of the read. |
| `WrNicDio.RingPush` | kernel/wr-nic-dio.c:473-477 | Advancing the head, and the tail if they meet, around storing a stamp appends it to the queue and keeps the newest 511. |
| `WrNicDio.RingPop` | kernel/wr-nic-dio.c:245-248 | Head equals tail exactly if the queue is empty; taking a slot removes its oldest entry. |
| `WrNicDio.NewestTwice` | kernel/wr-nic-dio.c:469-488 | Dropping old entries early or late leaves the same queue. |
| `WrNicDio.StampOf` | kernel/wr-nic-dio.c:482-487 | A stored stamp is normal and exactly 40 ns before its raw tag. |
| `WrNicDio.Dio.DrainFifo` | kernel/wr-nic-dio.c:469-488 | Pulling a FIFO empties it and appends its stamps in order to the channel's queue; no other channel or FIFO is touched. |
| `WrNicDio.Dio.NewPulse` | kernel/wr-nic-dio.c:133-148 | The latched trigger is the tick before the time, its second modulo 2^40. |
| `WrNicDio.Dio.TrigNextPulse` | kernel/wr-nic-dio.c:392-408 | A looping channel goes on from its own setpoint and counts down; another one's is triggered relative to the stamp. |
| `WrNicDio.Dio.Interrupt` | kernel/wr-nic-dio.c:410-497 | The handler is the fold, in ascending order over the channels with their bit set, of the one-channel step; modes, GPIO, widths and the enable mask stay; without a mezzanine it only masks interrupts. |
| `WrNicDio.Dio.CmdPulse` | kernel/wr-nic-dio.c:150-210 | The whole effect of a pulse command. One that is not immediate arms exactly one trigger, for the time given, from the second on that the clock held during the read if it is relative; with "loop" the channel goes on from that time, with the period and one pulse less to go; other channels keep their state. The width is the nanoseconds divided by 8, rounded down; an immediate pulse arms nothing. |
| `WrNicDio.PulseAtNs` | kernel/wr-nic-dio.c:133-148 | The trigger for a time depends on its nanoseconds since the epoch alone, however they are split. |
| `WrNicDio.PulseMode` | kernel/wr-nic-dio.c:170-172 | What the command does to the mode of its channel, and that other channels keep theirs: the source becomes the DIO core if it was that or GPIO, and undefined otherwise; output enable and termination stay. |
| `WrNicDio.Dio.CmdStamp` | kernel/wr-nic-dio.c:212-280 | The first selected channel that has stamps gives sixteen of them, or all it has if there are fewer, oldest first; they are removed and returned with its number, and nothing else changes. There is no stamp in the answer only if no selected channel has one: then -EAGAIN, or sleep on the stated queue if the request waits. |
| `WrNicDio.FirstReady` | kernel/wr-nic-dio.c:238-256 | The channel served is the first selected one with a stamp. |
| `WrNicDio.SelectionMeans` | kernel/wr-nic-dio.c:227-241 | A mask is the sum of the powers of two of the channels it selects; without one, the single channel is. |
| `WrNicDio.RequestTakes` | kernel/wr-nic-dio.c:238-258 | What one request takes and what it leaves, channel by channel. |
| `WrNicDio.IoModeRight` | kernel/wr-nic-dio.c:311-329 | The nibble computed from four request bits means what they ask for: source, output enable, termination. |
| `WrNicDio.NibbleReplaced` | kernel/wr-nic-dio.c:308-330 | Rewriting one nibble of IOMODE leaves the four others and the upper bits alone. |
| `WrNicDio.Dio.CmdInout` | kernel/wr-nic-dio.c:282-333 | Every selected channel ends in the mode its own request bits ask for, with its GPIO level if it is a GPIO output; all other channels and bits keep their state. |
| `DioRuns.ServedEach` | kernel/wr-nic-dio.c:456-494 | An interrupt treats the state of each channel independently of the order. |
| `DioRuns.AlwaysTame` | kernel/wr-nic-dio.c:197-208 | In every reachable state a channel with a nonzero count targets itself. |
| `DioRuns.TriggerTick` | kernel/wr-nic-dio.c:142-145 | A trigger encodes tick floor((t - 8 ns) / 8 ns), with fewer than 125,000,000 cycles. |
| `DioRuns.TrainIsExact` | kernel/wr-nic-dio.c:181-208 | For every count, time, period and later run without another pulse command on the channel: the first pulse is at the time of the command (from the current second on if relative), the others exactly at start + j * period, as many as stamp-bearing interrupts and count allow, independent of the stamps; and what is left of the count. |
| `DioRuns.PulseNumber` | kernel/wr-nic-dio.c:392-408 | Pulse number j of a train is armed at the time of the command, from the current second on if relative, plus j periods, for every j up to the exact last one. |
| `DioRuns.TrainStep` | kernel/wr-nic-dio.c:490-492 | Every step of the device, on this channel or another, keeps the train on its grid. |
| `DioRuns.OnePulseEach` | kernel/wr-nic-dio.c:392-408 | A stamp-bearing interrupt of a looping channel arms one pulse: a period after the setpoint, or after the last raw tag less 40 ns if another channel is the target; a positive count goes down by one. |
| `DioRuns.BooksBalance` | kernel/wr-nic-dio.c:469-488 | After every run each ring is the tail of what was pulled; nothing is handed out twice or out of order; what was lost had 511 younger stamps behind it. |
| `DioRuns.NothingInvented` | kernel/wr-nic-dio.c:469-488 | What was pulled and what waits in the FIFO is exactly what the hardware stamped. |
| `DioRuns.ReturnedAsBooked` | kernel/wr-nic-dio.c:242-256 | What stamp requests returned, over a whole run, is what the books say was handed out. |
| `DioRuns.RingsAreQueues` | kernel/wr-nic-dio.c:469-488 | The three together: ring buffers are bounded drop-oldest queues over every sequence of arrivals, interrupts and commands. |
| `WrDioCmd.ReplyIsNext` | tools/wr-dio-cmd.c:183-197 | Each reply is the front of what remains to be printed, and is not empty. |
| `WrDioCmd.ScanStamp` | tools/wr-dio-cmd.c:145-199 | The drain loop ends, prints every buffered stamp of the selected channels once, by channel and in order of arrival, in replies of which all but the last of a channel have sixteen stamps, and leaves the other channels alone. |
| `WrDioCmd.LetterMeans` | doc/spec-sw.in:1020-1060 | The request bits of each mode letter ask for the mode the manual describes. |
| `WrDioCmd.AcceptedLetters` | tools/wr-dio-cmd.c:201-257 | The letters accepted on channel 0, and on the others. |
| `WrDioCmd.ModeCmd.OneMode` | tools/wr-dio-cmd.c:201-257 | A letter adds its own channel's bits to the request and no others; it is refused exactly if it is unknown or a plain output mode on channel 0. |
| `WrDioCmd.BitAdded` | tools/wr-dio-cmd.c:214-250 | OR-ing a request bit shifted to a channel changes the field of that channel alone. |
| `WrDioCmd.ScanInout` | tools/wr-dio-cmd.c:260-278 | From five letters to the IOMODE register: every channel is in its letter's documented mode, '-' changes nothing, a refused string changes nothing at all. |
| `WrDioRuler.ActionTrigger` | tools/wr-dio-ruler.c:264-273 | Executing the command of an action arms the tick before event + delay, even if the carry leaves 10^9 ns. |
| `WrDioRuler.RunActions` | tools/wr-dio-ruler.c:244-294 | All local actions are armed and all remote ones sent, in order, up to the first that cannot be sent; the channels used are prepared for pulses of a millisecond, the others keep mode and width. |
| `WrDioRuler.EachActionOnce` | tools/wr-dio-ruler.c:244-294 | Every action of the list is carried out once, as a trigger here or a command sent there, each side in the order of the list. |
| `WrDioRuler.EdgeToPulse` | tools/wr-dio-ruler.c:264-273 | From the raw tag of an edge to the trigger it causes: tick - 6 + delay / 8, for delays of whole ticks. |
| `ParseTs.Parse` | tools/wr-dio-cmd.c:48-70 | For every string that is not blank, the conversions (blanks, signs and all) and the scaling loop compute its stated meaning. |
| `ParseTs.DecimalIsExact` | tools/wr-dio-cmd.c:48-70 | Digits, dot and one to nine digits give exactly that decimal number in nanoseconds, as a normal time. |
| `ParseTs.MinusMeansSeconds` | tools/wr-dio-cmd.c:48-70 | A minus sign in front of a decimal number negates the seconds and not the fraction. |
| `ParseTs.MinusIsExactIff` | tools/wr-dio-cmd.c:48-70 | A decimal number with a minus sign in front is read as its negative if and only if its fraction is zero. |
| `ParseTs.MinusInFraction` | tools/wr-dio-cmd.c:52-68 | A minus sign behind the dot is accepted, counts as a decimal, and gives negative nanoseconds. |
| `ParseTs.AcceptedIff` | tools/wr-dio-cmd.c:52-63 | The accepted strings are exactly seconds followed by anything that is no fraction, and decimal numbers with at most nine characters behind the dot. |
| `ParseTs.NormalIff` | tools/wr-dio-cmd.c:48-70 | Every result has between -10^8 and 10^9 nanoseconds, and is a normal time if and only if no part behind the dot is negative. |
| `ParseTs.PrintThenParse` | tools/wr-dio-ruler.c:216-220 | Parsing what "%li.%09li" prints gives the same time back, for any seconds and all nanoseconds that fit in nine characters. |
| `ParseTs.ReportedDelay` | tools/wr-dio-ruler.c:200-220 | For every argument that is accepted, the delay that is printed reads back as the delay that was parsed. |
| `NicMem.WindowsDisjoint` | kernel/wr_nic/nic-mem.h:21-34 | The sixteen descriptor windows lie in the RAM and have no byte in common. |
| `NicMem.CopyFitsWindow` | kernel/wr_nic/nic-mem.h:37-63 | A copy stays in its window if and only if it has at most 2046 bytes. |
| `NicMem.CopyOut` | kernel/wr_nic/nic-mem.h:37-49 | The words written are the little-endian words of the frame and the two bytes before it; nothing else is. |
| `NicMem.CopyIn` | kernel/wr_nic/nic-mem.h:51-63 | The bytes written are those of the words read, from two bytes before the target to at most three after the frame; nothing else is. |
| `NicMem.OutAndIn` | kernel/wr_nic/nic-mem.h:37-63 | Copying out and in again is the identity on the frame, for every length. |
| `NicMem.UnpackPacked` | kernel/wr_nic/nic-mem.h:37-63 | Splitting packed words gives the bytes back. |
| `NicRx.SecondRecovered` | kernel/wr_nic/nic-core.c:415-420 | The "counter below ticks" rule gives the event's second modulo 2^31 if and only if the read comes less than a second later, modulo 2^31 s. |
| `NicRx.FrameTimeIsExact` | kernel/wr_nic/nic-core.c:415-436 | A frame whose clock read ends within a second of its arrival is stamped with its arrival time, through the 32-bit wrap. |
| `NicRx.RxTime` | kernel/wr_nic/nic-core.c:413-436 | The stamp is the rule applied at one instant of the clock read; the "ahead" bit leaves no trace. |
| `NicRx.Receiver.constructor` | kernel/wr_nic/device.c:200-215 | The initial ring has every descriptor EMPTY with its own window and length 2000. |
| `NicRx.RingPop` | kernel/wr_nic/nic-core.c:470-478 | Handing over the first frame and freeing its descriptor gives the ring of the remaining frames. |
| `NicRx.RingPush` | kernel/wr_nic/nic-core.c:370-411 | Environment step, as the driver relies on it: a frame the hardware stores in the first free window leaves all pending frames intact. |
| `NicRx.RingEnds` | kernel/wr_nic/nic-core.c:470-475 | The EMPTY bits at the two ends tell exactly whether the ring is empty or full. |
| `NicRx.Receiver.RxDescriptor` | kernel/wr_nic/nic-core.c:355-460 | One descriptor: a frame with the error flag, or without a timestamp, is counted as an error and not delivered; any other is delivered with its bytes and its time, which is that of its arrival if the clock read ends less than a second later, and without a time exactly if the hardware disowned it; the descriptor is EMPTY again, with its window and room for 2000 bytes. |
| `NicRx.GoodOrRejected` | kernel/wr_nic/nic-core.c:379-392 | Of any frames, those with neither the error flag nor a missing timestamp are the good ones, and the others are the rejected ones. |
| `NicRx.Receiver.RxInterrupt` | kernel/wr_nic/nic-core.c:463-480 | Everything that has arrived is handled, the n-th pending frame in the n-th turn of the loop, each good one with the clock read of its own turn; errors grow by the number of pending frames with the error flag or without a timestamp, and packets by the rest; what `Valid` says of all arrivals is kept. |
| `NicRx.Receiver.Live` | kernel/wr_nic/nic-core.c:463-480 | For every interleaving of frames coming in and turns of the loop: the journal of arrivals, handled frames and clock reads is exactly that of a bounded queue fed with the same turns; earlier packets and reads stay; errors are the handled frames with the error flag or without a timestamp, packets are the others, once each and in order, with their own bytes, each stamped by its own clock read, or not at all if the hardware disowned the stamp. |
| `NicRx.ReadsOfTheRun` | kernel/wr_nic/nic-core.c:463-480 | Every clock read that a run adds is that of the very turn that handled its frame, which was then the first one waiting. |
| `NicRx.Receiver.DeliveredOnTime` | kernel/wr_nic/nic-core.c:413-441 | In any such run a packet whose clock read, the one of its own turn, ended within a second of its arrival has its own arrival time. |
| `NicTx.FrameIdsCollide` | kernel/wr_nic/nic-core.c:212-214 | Ids are never 0, and two attempts share one if and only if they are a multiple of 65535 apart. |
| `NicTx.CounterStep` | kernel/wr_nic/nic-core.c:212-214 | The counter with its second increment gives the n-th attempt its id, through the 32-bit wrap. |
| `NicTx.MatchIsUnique` | kernel/wr_nic/timestamp.c:63-72 | If all waiting frames are among the last 65535 attempts, an id matches at most one. |
| `NicTx.RecentIfFewRefused` | kernel/wr_nic/nic-core.c:144-158 | Since descriptors are used in turn, all waiting frames are recent as soon as the last eight accepted attempts are among the last 65535. |
| `NicTx.Transmitter.AllocTxDesc` | kernel/wr_nic/nic-core.c:144-158 | The head moves on exactly if its descriptor is not in use by the hardware. |
| `NicTx.Transmitter.StartXmit` | kernel/wr_nic/nic-core.c:161-250 | The frame is in its window, its descriptor and slot carry its id, the packet counter moves, no other window changes, and every descriptor still to be sent keeps its frame; or it is refused and only the id counter or the error counter moved. |
| `NicTx.Transmitter.RecordTstamp` | kernel/wr_nic/timestamp.c:53-93 | The frame found has the id and gets the time of the rule, exact within a second, unless the hardware disowns it; it is released, and it is the only candidate if the waiting frames are recent, which they are if the last eight accepted attempts are among the last 65535. |
| `SpecVic.Spec.Init` | kernel/spec-vic.c:59-103 | The table is copied from the IVT RAM, all lines are off and the controller runs; or an error, and nothing changes. |
| `SpecVic.Spec.VicRequest` | kernel/spec-vic.c:154-185 | The first line with the id is given the handler, its own index in the IVT, and is enabled; otherwise -EINVAL. |
| `SpecVic.Spec.IsManaged` | kernel/spec-vic.c:187-203 | True exactly if the first line with the id is enabled. |
| `SpecVic.Spec.CountHandlers` | kernel/spec-vic.c:209-218 | Counts the lines with a handler. |
| `SpecVic.Spec.VicFree` | kernel/spec-vic.c:221-242 | The releasing loop and the shutdown after the last handler. |
| `SpecVic.Spec.Dispatch` | kernel/spec-vic.c:117-151 | The handler of the line shown by the vector address register, with its saved id, or none. |
| `SpecVic.Spec.IrqRequest` | kernel/spec-fmc.c:183-224 | A request in either mode: state, answer, and the flag that is set on success. The first one answers 0 exactly if there are a VIC, memory, a line with the id and the PCI line, and -EBUSY exactly if the PCI line alone is missing. |
| `SpecVic.FirstAnswer` | kernel/spec-fmc.c:183-224 | Every answer to the request that creates the table, with the exact condition for it. |
| `SpecVic.Spec.IrqFree` | kernel/spec-fmc.c:256-277 | A release, with the PCI line given back exactly if there is no table (any more). |
| `SpecVic.WordAndBack` | kernel/spec-vic.c:89-92 | An id read as a signed int and written back is the same 32-bit word. |
| `VicRuns.AlwaysAgrees` | kernel/spec-vic.c:154-242 | After every history of requests and releases, of any ids and with any failures: a line has a handler iff it is enabled, its IVT entry is then its own index and otherwise the gateware's id, and only the first line of an id is used. |
| `VicRuns.LastFreeRestores` | kernel/spec-vic.c:221-242 | The table goes away exactly with the last handler; the IVT is then the original one, every line is off and the controller stopped. |
| `VicRuns.RunsWithItsTable` | kernel/spec-vic.c:94-115 | After every history from a stopped controller, whatever ids it names and whatever fails, the controller runs if and only if there is a table. |
| `VicRuns.OwnerIsServed` | kernel/spec-fmc.c:183-224 | The handler of an id is the one of the last request that placed one, unless released since, as read off the calls and their answers alone. |
| `VicRuns.PendingLineFindsItsOwner` | kernel/spec-vic.c:117-151 | A pending enabled line is dispatched to the owner of its id, with that id. |
| `VicRuns.OnlyOwnersAreCalled` | kernel/spec-vic.c:117-151 | Whatever the vector address register shows, a handler is called only if its line is enabled and it owns the id it is called with. |
| `VicRuns.OwnedIffEnabled` | kernel/spec-vic.c:187-203 | An id has an owner if and only if the first line with that id is enabled. |
| `VicRuns.RequestKeepsWired` | kernel/spec-fmc.c:195-213 | A request keeps "master handler on the PCI line iff table with a handler" if and only if the table was there, or cannot be made, or the id is known and the line granted. |
| `VicRuns.FreeKeepsWired` | kernel/spec-fmc.c:256-277 | Every release keeps it. |
| `VicRuns.AlwaysWired` | kernel/spec-fmc.c:183-277 | It holds after every history whose requests name ids of the table and get the line. |
| `VicRuns.AnswerMeans` | kernel/spec-fmc.c:195-209 | With or without a table: exactly when a request answers 0, -EBUSY or -EINVAL. |
| `VicRuns.GrantedIsServed` | kernel/spec-fmc.c:183-224 | After an answer of 0 in any orderly history the controller runs, the master handler is on the PCI line, and the line of the id, once pending, calls the handler with that id. |
| `VicRuns.UnknownFirstIdLosesInterrupts` | kernel/spec-vic.c:160-184 | The failing family: an unknown first id, then a known one, gives answer 0, a handler in the table, and no one on the PCI line. |
| `LoaderLl.ReverseBits8Bits` | kernel/loader-ll.c:21-28 | Bit k of the result is bit 7-k of the argument. |
| `LoaderLl.FlipTwice` | kernel/loader-ll.c:21-44 | Reversing the bits of every byte again recovers the image. |
| `LoaderLl.UnalignedBitswapLe32` | kernel/loader-ll.c:30-44 | The bytes of the word are the reversed bytes of memory, in order. |
| `LoaderLl.Fcl.Start` | kernel/loader-ll.c:81-116 | The start-up writes, stopped after the reset exactly if that does not read back; otherwise timers, interrupts and outputs are set up after the reset, and the state machine is then started with CTRL 0x107 and, in bits 4 and 5, the number of bytes to drop from the last word. |
| `LoaderLl.PrologueIsFed` | kernel/loader-ll.c:81-116 | The start-up writes leave a loader that has been reset, set up and started, with nothing stored. |
| `LoaderLl.Fcl.WaitForRoom` | kernel/loader-ll.c:132-134 | The busy-wait ends after the FIFO was seen half empty, and stores nothing. |
| `LoaderLl.Fcl.Fill` | kernel/loader-ll.c:136-141 | The next words of the image, 32 or what is left. |
| `LoaderLl.Fcl.Load` | kernel/loader-ll.c:65-148 | On success the FPGA receives exactly the first size8 bytes, each bit-reversed, in order, where it receives only what is stored after a reset, with all registers set up and the state machine started, and no word is stored otherwise; 4 * words - ((ctrl >> 4) & 3) is size8; an error is returned exactly if the reset does not read back or a look shows one before completion, and then only a prefix was stored; there is a look for errors before every 32 words. |
| `LoaderLl.AlarmMeans` | kernel/loader-ll.c:120-130 | An error counts if and only if some look shows one and neither it nor an earlier one, made after a word was stored, shows completion. |
| `LoaderLl.NeverOverflows` | kernel/loader-ll.c:118-142 | A FIFO of 63 words or more never overflows, at any moment and however slowly it drains. |
| `LoaderLl.ShallowFifoOverflows` | kernel/loader-ll.c:118-142 | 63 is sharp: the traffic of loading any image of 256 bytes, at a loader that is idle at every look, overflows any smaller FIFO that drains no more than it must. |

## Left out

- Scheduling: one interrupt, one ioctl, one descriptor are atomic steps; locks and tasklets are not part of this model, nor is what wakes a sleeper.
- Delays, electrical timing, and the interrupt-rate limiter of `kernel/wr-nic-dio.c:433-454`.
- I2C: no page boundary, as the driver sends one data byte per write; an EEPROM that moves its address counter on half an address, clock stretching and other masters are not modelled.
- SpecI2c.Fmc.EepromRead: offset + size is not reduced modulo 2^64, because no buffer that fits in memory reaches it.
- SpecI2c.Fmc.EepromWrite: the data is a value, so a caller that passes a part of the shadow itself is not covered.
- SpecI2c.Fmc.I2cInit: firmware loading and the module parameter are inputs; the EEPROM dump and the identification that follow are not part of this model.
- WrNicDio.Dio.CmdStamp: without a mask the channel has to be below 5, because the driver does not check it and reads beyond its array otherwise; the user-space tools do check it.
- WrNicDio.Dio.CmdInout: the same precondition on an unmasked channel; the GPIO set and clear registers are modelled as one output level per channel.
- WrNicDio.Dio.CmdPulse: the command is not copied back to user space; seconds are unbounded integers, not 64-bit ones.
- WrNicDio.Dio.DrainFifo: the hardware FIFOs are unbounded; what they drop when full is not modelled.
- WrDioCmd.ScanInout: the form with one letter per channel; the form with channel and letter pairs is not modelled.
- WrDioCmd.ScanStamp: argument scanning is left out, its range checks are the precondition.
- ParseTs.Parse: numbers that fit in 64 bits; for an empty or blank string the code adds 1 to a null pointer and has no result to model.
- Ppsg.ReadTime: no statement if 2^32 seconds or more pass during the read.
- Ppsg.ReadSecond: no statement if 255 * 2^32 seconds or more pass during the read.
- NicRx.Receiver.RxDescriptor: a failing buffer allocation, link-layer details of the socket buffer and the protocol field are not part of this model.
- NicTx.Transmitter.RecordTstamp: matching a timestamp that arrives before its frame is released, `wrn_tx_interrupt` and the `valid` flag, which nothing sets, are not modelled, nor is who frees a transmitted buffer.
- SpecVic.Spec.Init: of the control register only the enable bit is modelled, not the polarity and width of the output.
- SpecVic.Spec.IrqRequest: GPIO and interrupt-mask registers of the bridge are left out; handlers are non-null numbers; all interrupts of a carrier belong to one mezzanine, so releases of the PCI line take its first handler.
- LoaderLl.Fcl.Load: the GPIO writes that select the configuration mode are left out; the machine is little-endian; the final CTRL word, which clears the byte-count field, is taken to come after the count was used.
- PCI probing, sockets, PHY and link handling, ethtool, LM32 loading, MAC addresses, `speclib.c`, `specmem.c` and `spec-vuart.c`: plumbing without an algorithm that would give a hard property.
