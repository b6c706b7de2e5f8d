# Verified models of the netacademia drivers and tools

This project models the parts of the repository that keep state in place and
share it: the ESP8266 peripheral drivers under
`esp8266_nonos_dev/development/driver`, the tail queues of `queue.h`, the
firmware image script `gen_appbin.py`, and the length-prefixed framing of the
Python socket lesson.

Where the source updates state, the model does too (classes, arrays, loops).
The methods are proved against functions and predicates on values, and the
promises are then proved about those over every run. Arithmetic is tied to an
independent definition: the CRC to polynomial division, the checksum to a count
of set bits, the I2C waves to a bus decoder, the image to a loader's walk.

| file | models |
|---|---|
| `SdioSpec.dfy`, `SdioDriver.dfy` | `sdio_slv.c`: four heap buffers moving between two linked lists |
| `Ring.dfy`, `UartDriver.dfy`, `TxProtocol.dfy`, `RxProtocol.dfy` (with `Sizes`) | `uart.c` with `UART_BUFF_EN` 1: both rings, the interrupt handlers, every interleaving of the transmit side |
| `I2cBus.dfy`, `I2cMaster.dfy` | `i2c_master.c` and a bus decoder after UM10204 sections 3.1.3 to 3.1.6 |
| `Hspi.dfy`, `FlashRead.dfy` | `spi_overlap.c`: the device selector and the chunked flash read |
| `Stailq.dfy` | the STAILQ macros of `queue.h` |
| `Key.dfy` | `key.c`: debouncing, long and short presses, any number of keys on the shared GPIO registers |
| `AppBin.dfy`, `Crc.dfy`, `Gf2.dfy` | `gen_appbin.py`: layout, checksum, the loader's walk, the file CRC as a remainder of polynomials over GF(2) |
| `Framing.dfy` | `server.py` and `client.py`: the decimal length line and partial receives |
| `Bits.dfy` | bytes and the C bit operators on natural numbers |

What the proofs found where the code does not do what it is for, each with its
exact condition and an input:

- A load of 0 bytes, or of 512 and more, made while nothing is queued strands
  the SDIO slave for good. A run stays live exactly when every idle load
  carries 1 to 511 bytes (`SdioSpec.StrandedIffIdleLoadMissized`; input:
  `SdioSpec.MissizedFirstLoadStrands`). No byte is lost or reordered in either
  case.
- `sdio_load_data` returns the count it accepted exactly when the call ends on
  a buffer boundary or takes nothing (`SdioSpec.ReturnedCountExact`; input:
  `SdioSpec.FirstLoadUncounted`, 100 bytes reported as 0).
- `tx_buff_enq` masks and unmasks by reading the whole enable register and
  writing it back. A call returns with the receive bits other than the
  interrupts left them exactly when they were set, a receive interrupt came,
  and every one that came fell between one of these reads and its write
  (`TxProtocol.CallLosesReceiveMask`; inputs: `TxProtocol.LostWhileMasking`,
  `TxProtocol.LostWhileUnmasking`).
- A call that creates the transmit ring does not look at the ring's size, and
  the test of the free heap does not count the ring's struct. Left alone, a call
  overruns the ring exactly when it finds none, the heap has room for struct and
  bytes, and it carries more than 256 bytes; it copies through a null pointer
  exactly when it carries bytes and the ring it makes, or finds with room for
  them, is the hollow one a heap of 257 to 283 bytes gives
  (`TxProtocol.FinishedCall`; inputs: `TxProtocol.OversizedCallOverruns`,
  `TxProtocol.TightHeapCopiesToNull`).
- From `key_init` on, a settled key has its pin's level exactly when its
  interrupt is not armed for an edge the pin has already made. There are three
  ways to that: the pin is low at `key_init`, the handler takes a fall whose pin
  has risen again, or the pin moves between the debounce callback's read and its
  re-arming (`Key.LevelIsPinIffNotMissed`; inputs: `Key.LowAtInitMissed`,
  `Key.ShortBounceMissed`, `Key.MovedWhileDebouncing`). From a high pin, with a
  handler that runs at each edge and a pin that keeps still during the callback,
  it never happens (`Key.PromptNeverMisses`).
- Bit 5 of SPI_USER (`SPI_CS_SETUP`, which the overlap switch also drives)
  depends on the selection history for device 0, and for no other device
  (`Hspi.HistoryIndependent`; input: `Hspi.SetupBitRemembers`). A later
  `hspi_master_dev_init` keeps the selected device's configuration exactly when
  `Hspi.Harmless` holds (`Hspi.Selector.DevInit`; input:
  `Hspi.ReinitGoesStale`).
- The range check of the flash read is the intended one exactly where the
  32-bit sum does not wrap back into the chip (`FlashRead.RangeCheckExact`). A
  wrapped request of 2^31 bytes and more is reported as read, and nothing is
  written (`FlashRead.Read`; input: `FlashRead.WrappedRangePasses`).
- The firmware header always announces three sections, so a loader that trusts
  it finds them exactly when none is empty (`AppBin.LoaderFindsSections`;
  input: `AppBin.EmptyDataMisread`, where padding becomes a segment).
- The server does not look at what `send` took of the length line. The client
  gets a JSON answer exactly when it took all of it; after a short send it gets
  none at all, whatever follows (`Framing.Answer`, `Framing.ShortSend`). A
  stream that ends inside a frame, and only such a one, leaves it in its receive
  loop, forever if the connection is closed there (`Framing.CutFrameWaits`).
- `i2c_master_init` clocks 28 times and then signals STOP while SCL is still
  high from the last clock, so it frees the bus exactly when no slave holds SDA
  down in that clock (`I2cBus.InitFrees`). A slave caught in a byte it sends
  always lets go (`I2cBus.SenderFreed`); one that acknowledges what it is sent
  does so exactly unless its acknowledge is due at the first clock
  (`I2cBus.ReceiverFreed`; inputs: `I2cBus.SlavesThatHoldOn`).

Modelling choices. Registers are fields, waits finish at once, and debug
printing is dropped. `sdio_load_data` and the SDIO interrupt are atomic steps,
and an end-of-read interrupt arrives only while the receive link runs. Interrupt
handlers of the UART run to completion and tasks do not preempt each other; in
`TxProtocol` an interrupt may come between any two memory accesses of
`tx_buff_enq` or `uart_rx_intr_enable`, while in `RxProtocol` each task call is
one step. The free heap is given as the bytes `os_malloc` would hand out, and a
request succeeds exactly when as many bytes are free. A key's edge latches its
status bit; the handler runs at any later time, as one step at its re-arming,
and a timer on time or late; the debounce callback is two steps, its read of the
pin and its re-arming with the report. Pointers into a buffer are offsets. Lengths are
unbounded naturals; the 8-, 16- and 32-bit variables of the source never leave
their ranges in the states the invariants allow, and where they can (the flash
range check, the packed header words) the width is written out.

## Model

| member | source | states |
|---|---|---|
| SdioDriver.SdioSlave.SlaveInit | esp8266_nonos_dev/development/driver/sdio_slv.c:122-181 | from zeroed globals, four distinct empty nodes on the spare list, correct head and tail pointers, an idle status word |
| SdioDriver.SdioSlave.LoadData | esp8266_nonos_dev/development/driver/sdio_slv.c:340-399 | for every input and every reachable state the pointer code does the load of the protocol and keeps both lists well formed; a transfer in flight keeps its descriptor and the bytes under it |
| SdioDriver.SdioSlave.FillFromData | esp8266_nonos_dev/development/driver/sdio_slv.c:350-385 | the copy loop with its early break fills and queues buffers as specified and only appends to the send queue |
| SdioDriver.SdioSlave.LinkSpareToQueue | esp8266_nonos_dev/development/driver/sdio_slv.c:368-377 | moving a node to the send queue keeps both lists acyclic, disjoint and correctly ended |
| SdioDriver.SdioSlave.LinkQueueToSpare | esp8266_nonos_dev/development/driver/sdio_slv.c:419-427 | recycling the head node does the same, for a spare list that may be empty |
| SdioDriver.SdioSlave.RxBuffLoadDone | esp8266_nonos_dev/development/driver/sdio_slv.c:304-338 | announces the length and starts the link, or does nothing for a length of 0 |
| SdioDriver.SdioSlave.TryToLoad | esp8266_nonos_dev/development/driver/sdio_slv.c:401-412 | starts the head of the queue when the last transfer is done, with the descriptor on that head |
| SdioDriver.SdioSlave.ReadDoneInterrupt | esp8266_nonos_dev/development/driver/sdio_slv.c:214-222 | what the host reads through the descriptor is the head buffer; the interrupt then does the protocol's step and keeps every list invariant |
| SdioDriver.SdioSlave.ReadDoneProcess | esp8266_nonos_dev/development/driver/sdio_slv.c:414-449 | recycles the head and announces the next buffer, promoting a partly filled spare one |
| SdioDriver.SdioSlave.ListsHoldAllNodes | esp8266_nonos_dev/development/driver/sdio_slv.c:125-139 | in every valid state the two lists together hold exactly the four allocated nodes, each once |
| SdioDriver.SdioSlave.ServeAll | esp8266_nonos_dev/development/driver/sdio_slv.c:214-222 | any sequence of loads and interrupts on the pointer code is a run of the protocol, with the same bytes for the host |
| SdioSpec.FillCounts | esp8266_nonos_dev/development/driver/sdio_slv.c:350-385 | a load is cut short only by an exhausted pool; the returned count stops at the last buffer boundary |
| SdioSpec.FillConserves | esp8266_nonos_dev/development/driver/sdio_slv.c:350-385 | the loop takes a prefix of its input and puts it behind the bytes already held, in order |
| SdioSpec.ReturnedCountExact | esp8266_nonos_dev/development/driver/sdio_slv.c:353-359 | the returned count is the accepted count if and only if the call ended on a buffer boundary or took nothing |
| SdioSpec.LoadKeeps | esp8266_nonos_dev/development/driver/sdio_slv.c:340-399 | one load accepts exactly min(input, free space) bytes and keeps every held byte in order |
| SdioSpec.LoadPhase | esp8266_nonos_dev/development/driver/sdio_slv.c:387-399 | a load keeps the invariant, leaves a transfer in flight and its status alone, and from idle starts a transfer exactly for 1 to 511 bytes |
| SdioSpec.ReadDonePhase | esp8266_nonos_dev/development/driver/sdio_slv.c:429-446 | after an interrupt the link runs for a non-empty head with its true length, unless nothing at all waits; one buffer fewer waits |
| SdioSpec.ReadDoneKeeps | esp8266_nonos_dev/development/driver/sdio_slv.c:414-449 | one interrupt takes exactly the head buffer's bytes out of what is held |
| SdioSpec.RunConserves | esp8266_nonos_dev/development/driver/sdio_slv.c:340-449 | over every run, read bytes then queued bytes then the spare head's fill are exactly the accepted bytes in order |
| SdioSpec.HostReadsPrefix | esp8266_nonos_dev/development/driver/sdio_slv.c:340-449 | from power-up, over every run, the host has read a prefix of the accepted bytes |
| SdioSpec.CommCounts | esp8266_nonos_dev/development/driver/sdio_slv.c:260-271 | over every run the 3-bit communication count goes up by one, modulo 8, with each read of the host and with nothing else |
| SdioSpec.StrandedForever | esp8266_nonos_dev/development/driver/sdio_slv.c:389-397 | once buffers are queued without a started link, no later run delivers another byte |
| SdioSpec.StrandedIffIdleLoadMissized | esp8266_nonos_dev/development/driver/sdio_slv.c:389-412 | a run ends with its queued data announced and in transfer if and only if every load made while idle had 1 to 511 bytes |
| SdioSpec.MissizedFirstLoadStrands | esp8266_nonos_dev/development/driver/sdio_slv.c:361-397 | the failing inputs: a first load of 0 bytes, or of 512 and more, is never delivered |
| SdioSpec.FirstLoadUncounted | esp8266_nonos_dev/development/driver/sdio_slv.c:353-359 | the failing input: a first load of 100 bytes is accepted whole and reported as 0 |
| SdioSpec.Drains | esp8266_nonos_dev/development/driver/sdio_slv.c:414-449 | without further loads a live run delivers everything accepted, in one interrupt per waiting buffer |
| Ring.CpyAppends | esp8266_nonos_dev/development/driver/uart.c:431-452 | the copy into the ring, in one chunk or two, appends the data whole and leaves the in position right |
| Ring.TakeOutFront | esp8266_nonos_dev/development/driver/uart.c:568-579 | advancing the out position takes exactly the front of the ring |
| UartDriver.UartBuffer.constructor | esp8266_nonos_dev/development/driver/uart.c:408-427 | an empty ring on the bytes the heap hands out behind the struct, or a hollow one where they are not left |
| UartDriver.UartBuffer.Cpy | esp8266_nonos_dev/development/driver/uart.c:431-452 | is the ring's copy function, wrapped or not, and appends the data whole, also when it fills the ring completely |
| UartDriver.UartBuffer.FifoInsert | esp8266_nonos_dev/development/driver/uart.c:568-579 | sends the first bytes of the ring, in order, and advances the ring past them; a hollow ring sends nothing |
| UartDriver.UartBuffer.TakeStraight | esp8266_nonos_dev/development/driver/uart.c:476-479 | the branch that does not wrap stays inside the buffer because the ring is never completely full |
| UartDriver.UartBuffer.Take | esp8266_nonos_dev/development/driver/uart.c:470-498 | all three dequeue branches split the same bytes off the front |
| UartDriver.UartBuffer.Receive | esp8266_nonos_dev/development/driver/uart.c:516-525 | the whole FIFO is appended in order and the ring is still not full |
| UartDriver.Uart.constructor | esp8266_nonos_dev/development/driver/uart.c:318-332 | for every free heap, a reset state of the protocol; each ring is missing or hollow exactly when the heap is too small, the receive ring taking what the transmit ring leaves |
| UartDriver.Uart.TxBuffEnq | esp8266_nonos_dev/development/driver/uart.c:537-563 | is the protocol's whole call as one operation: creates the ring if it can, appends the data or leaves the ring, ends enabled; an overrun and a copy through null are exactly told apart |
| UartDriver.Uart.TxEmptyInterrupt | esp8266_nonos_dev/development/driver/uart.c:588-609 | is the protocol's interrupt step: moves as many bytes as fit the hardware FIFO, in order, and stays enabled exactly while bytes remain, with a ring or without |
| UartDriver.Uart.RxBuffEnq | esp8266_nonos_dev/development/driver/uart.c:507-532 | moves the whole FIFO behind the ring if both together hold fewer than 256 bytes, with the interrupts back on at 128 bytes or fewer; otherwise changes nothing; the step of the receive protocol |
| UartDriver.Uart.RxBuffDeq | esp8266_nonos_dev/development/driver/uart.c:470-503 | hands over the first min(length, ring) bytes of the ring, with the interrupts back on at 128 bytes or fewer left; the step of the receive protocol |
| UartDriver.Uart.ServeRxAll | esp8266_nonos_dev/development/driver/uart.c:470-532 | any sequence of arrivals, interrupts, task events and reads on the driver is a run of the receive protocol, with the same bytes delivered |
| RxProtocol.RunKeeps | esp8266_nonos_dev/development/driver/uart.c:470-532 | over every run of arrivals, interrupts, tasks and reads every arrived byte is delivered once and in order, and the ring is never full |
| RxProtocol.RunFromReset | esp8266_nonos_dev/development/driver/uart.c:470-532 | the same from reset; with interrupts off and no event waiting the ring is at least half full |
| RxProtocol.OneEventPosted | esp8266_nonos_dev/development/driver/uart.c:240-250 | as long as neither task nor read runs, any number of receive interrupts post exactly one event if they are enabled and one finds bytes, and stay off from then on; otherwise none |
| RxProtocol.TaskMovesAll | esp8266_nonos_dev/development/driver/uart.c:507-532 | in every run a task event moves all of the FIFO, and leaves it exactly where ring and FIFO together hold 256 bytes or more |
| RxProtocol.ReadDelivers | esp8266_nonos_dev/development/driver/uart.c:470-503 | in every run a read of n bytes delivers exactly the first min(n, ring) bytes |
| RxProtocol.CatchesUp | esp8266_nonos_dev/development/driver/uart.c:470-532 | from any reachable state a fixed sequence of read, interrupt, task and read delivers everything that has arrived |
| TxProtocol.StepKeeps | esp8266_nonos_dev/development/driver/uart.c:537-609 | every single memory access of the task, creating the ring included, and every interrupt keeps the ring, mask and ledger invariant |
| TxProtocol.TxIntrTakes | esp8266_nonos_dev/development/driver/uart.c:250-262 | the interrupt can run only outside the task's critical section and takes the front of the ring |
| TxProtocol.StepRefines | esp8266_nonos_dev/development/driver/uart.c:537-563 | each step is one operation of an atomic bounded FIFO that may first have to be made, or none |
| TxProtocol.AllowedRunsBounded | esp8266_nonos_dev/development/driver/uart.c:537-563 | every run of the atomic FIFO holds at most 256 bytes, is made once, and refuses exactly the calls it cannot take whole |
| TxProtocol.RunRefines | esp8266_nonos_dev/development/driver/uart.c:537-609 | every interleaving is a run of the atomic FIFO |
| TxProtocol.HardwareSeesCallOrder | esp8266_nonos_dev/development/driver/uart.c:537-609 | from reset, with or without a ring, bytes reach the hardware in exactly the order of the accepted calls |
| TxProtocol.CallsTakeEffectOnce | esp8266_nonos_dev/development/driver/uart.c:537-563 | each call is enqueued, or refused for want of space or of memory, exactly once and in call order |
| TxProtocol.FinishedCall | esp8266_nonos_dev/development/driver/uart.c:408-563 | a call left alone overruns in exactly one case and copies through null in exactly two; otherwise it terminates, appends its data exactly when it fits, and ends with the interrupt enabled |
| TxProtocol.CallIsEnqueued | esp8266_nonos_dev/development/driver/uart.c:537-563 | a whole call that returns is, access by access, one atomic operation on the ring |
| TxProtocol.OversizedCallOverruns | esp8266_nonos_dev/development/driver/uart.c:431-452 | the failing input: a first call of 257 bytes overruns the ring it makes |
| TxProtocol.TightHeapCopiesToNull | esp8266_nonos_dev/development/driver/uart.c:410-418 | the failing input: with 257 bytes free a first call of one byte copies through a null pointer |
| TxProtocol.Drains | esp8266_nonos_dev/development/driver/uart.c:588-609 | no byte is stranded: without further calls one useful interrupt per byte empties the ring and everything accepted has reached the hardware |
| TxProtocol.ReceiveMaskAtReturn | esp8266_nonos_dev/development/driver/uart.c:539-562 | from anywhere in a call to its return, exactly the receive interrupts outside the two read-to-write windows keep their effect |
| TxProtocol.CallLosesReceiveMask | esp8266_nonos_dev/development/driver/uart.c:539-562 | over a whole call the receive bits end wrong if and only if they were set, an interrupt came, and every one fell in a window |
| TxProtocol.LostWhileMasking | esp8266_nonos_dev/development/driver/uart.c:539-539 | the failing input: an interrupt in the masking window of an empty call |
| TxProtocol.LostWhileUnmasking | esp8266_nonos_dev/development/driver/uart.c:562-562 | the failing input: an interrupt in the unmasking window of an empty call |
| TxProtocol.EnableKeepsTransmitMask | esp8266_nonos_dev/development/driver/uart.c:623-630 | re-enabling the receive bits writes the transmit bit back too, and a ring with bytes stays enabled whatever interrupts came in between |
| TxProtocol.EnableCall | esp8266_nonos_dev/development/driver/uart.c:623-630 | a whole call of uart_rx_intr_enable ends with the receive interrupts on and a ring with bytes enabled, whatever interrupts and sent bytes come around its read and its write |
| I2cMaster.Master.SetDC | esp8266_nonos_dev/development/driver/i2c_master.c:43-59 | the last levels are remembered and the wired-AND bus follows them |
| I2cMaster.Master.Init | esp8266_nonos_dev/development/driver/i2c_master.c:83-107 | the initialisation wave with a slave caught in a transfer, ending with both lines released |
| I2cMaster.Master.StartCondition | esp8266_nonos_dev/development/driver/i2c_master.c:145-153 | the START wave from the remembered level of SCL |
| I2cMaster.Master.StopCondition | esp8266_nonos_dev/development/driver/i2c_master.c:162-172 | the STOP wave from the remembered level of SCL |
| I2cMaster.Master.SetAck | esp8266_nonos_dev/development/driver/i2c_master.c:181-193 | the ninth clock with the master's level |
| I2cMaster.Master.GetAck | esp8266_nonos_dev/development/driver/i2c_master.c:202-218 | returns the level the slave holds during the ninth clock |
| I2cMaster.Master.WriteByte | esp8266_nonos_dev/development/driver/i2c_master.c:306-330 | the eight bits, most significant first, on the bus |
| I2cMaster.Master.ReadByte | esp8266_nonos_dev/development/driver/i2c_master.c:266-297 | returns the slave's eight bits, most significant first |
| I2cMaster.Master.PerformAll | esp8266_nonos_dev/development/driver/i2c_master.c:145-330 | any sequence of operations produces the wave the decoder theorems are about |
| I2cBus.WriteDecoded | esp8266_nonos_dev/development/driver/i2c_master.c:306-330 | the decoder reads the written byte and the slave's acknowledge back |
| I2cBus.ReadDecoded | esp8266_nonos_dev/development/driver/i2c_master.c:266-297 | the decoder reads the slave's byte and the master's acknowledge back |
| I2cBus.OpDecoded | esp8266_nonos_dev/development/driver/i2c_master.c:145-330 | what the decoder makes of one operation from any bus phase, well-formed or not |
| I2cBus.RecoveredIffWellFormed | esp8266_nonos_dev/development/driver/i2c_master.c:145-330 | the decoder recovers exactly the issued START, byte, acknowledge and STOP events if and only if the sequence is well-formed |
| I2cBus.LowPhasesIgnored | esp8266_nonos_dev/development/driver/i2c_master.c:145-330 | the result does not depend on anything the slave does while SCL is low |
| I2cBus.StableExceptSignals | esp8266_nonos_dev/development/driver/i2c_master.c:43-59 | in a well-formed run SDA changes under a high SCL exactly once per START and STOP |
| I2cBus.InitFrees | esp8266_nonos_dev/development/driver/i2c_master.c:83-107 | whatever the bus was doing, initialisation frees it if and only if the slave, by the bits it has to send or the acknowledges it has to give, does not hold SDA down in the last clock |
| I2cBus.SenderFreed | esp8266_nonos_dev/development/driver/i2c_master.c:97-105 | a slave caught anywhere in a byte it sends and its acknowledge is always freed |
| I2cBus.ReceiverFreed | esp8266_nonos_dev/development/driver/i2c_master.c:97-105 | a slave caught anywhere in a byte it is sent is freed if and only if its acknowledge is not due at the first clock |
| I2cBus.SlavesThatHoldOn | esp8266_nonos_dev/development/driver/i2c_master.c:97-105 | the failing inputs: a slave about to acknowledge, and one with 28 zeros to send |
| Hspi.Selector.constructor | esp8266_nonos_dev/development/driver/spi_overlap.c:43-43 | power-up with any register contents is consistent |
| Hspi.Selector.OverlapInit | esp8266_nonos_dev/development/driver/spi_overlap.c:49-58 | sets the overlap and priority bits and bit 5 of SPI_USER, nothing else |
| Hspi.Selector.OverlapDeinit | esp8266_nonos_dev/development/driver/spi_overlap.c:64-73 | clears them, nothing else |
| Hspi.Selector.FirstInit | esp8266_nonos_dev/development/driver/spi_overlap.c:126-148 | the two snapshots differ only as the master set-up makes them |
| Hspi.Selector.DevInit | esp8266_nonos_dev/development/driver/spi_overlap.c:117-179 | a later initialisation keeps the selected device's configuration if and only if it is harmless to it; bad arguments change nothing |
| Hspi.Selector.DevSel | esp8266_nonos_dev/development/driver/spi_overlap.c:182-352 | each of the edges leaves the target's own configuration, stated register field by register field: chip selects, pin function, clock, edge; an invalid or inactive device changes nothing |
| Hspi.Selector.SelectAll | esp8266_nonos_dev/development/driver/spi_overlap.c:182-352 | any sequence of selections is a run of the selection relation |
| Hspi.InitConsistency | esp8266_nonos_dev/development/driver/spi_overlap.c:150-179 | the exact condition under which re-initialising leaves no stale register |
| Hspi.ConsistentServes | esp8266_nonos_dev/development/driver/spi_overlap.c:28-43 | in every consistent state the selected device finds its own chip select active and no other, the pin and register fields of its own snapshot, its edge and its divider |
| Hspi.ClkDivDivides | esp8266_nonos_dev/development/driver/spi_overlap.c:28-28 | the clock register holds the period, high and low counts of the divider, with no pre-divider |
| Hspi.RunReachesTarget | esp8266_nonos_dev/development/driver/spi_overlap.c:182-352 | after any run the configuration is that of the last selected device by the snapshots and its own settings alone: its chip select and no other, its edge, its divider, and every other field of its snapshot |
| Hspi.ReinitGoesStale | esp8266_nonos_dev/development/driver/spi_overlap.c:150-179 | the failing input: the selected device re-initialised with the other edge keeps its old one |
| Hspi.HistoryIndependent | esp8266_nonos_dev/development/driver/spi_overlap.c:182-352 | two runs ending on one device leave equal configurations; with bit 5 of SPI_USER too if and only if the runs leave that bit alike, and always except for device 0 |
| Hspi.SetupBitRemembers | esp8266_nonos_dev/development/driver/spi_overlap.c:225-306 | the failing input: two runs of selections that leave device 0 with bit 5 set (from the flash) and clear (from CS1) |
| FlashRead.CommandFields | esp8266_nonos_dev/development/driver/spi_overlap.c:386-387 | address and length never overlap in the command word |
| FlashRead.RangeCheckExact | esp8266_nonos_dev/development/driver/spi_overlap.c:373-376 | the range check is the intended one except exactly where the 32-bit sum wraps into the chip |
| FlashRead.WrappedRangePasses | esp8266_nonos_dev/development/driver/spi_overlap.c:373-381 | the failing input: almost 4 GiB from address 16 pass the check of a 4 MiB chip and count as negative |
| FlashRead.ReadChunk | esp8266_nonos_dev/development/driver/spi_overlap.c:381-411 | one transfer writes exactly the words its bytes need |
| FlashRead.ReadLoop | esp8266_nonos_dev/development/driver/spi_overlap.c:381-411 | the loop reads exactly the flash slice and changes no word past the last needed one |
| FlashRead.Read | esp8266_nonos_dev/development/driver/spi_overlap.c:363-414 | up to 2^31 - 1 bytes it is refused exactly when out of range and otherwise the destination starts with the flash slice; a longer request writes nothing and succeeds exactly where its sum wraps into the chip |
| Stailq.Queue.constructor | esp8266_nonos_dev/include/queue.h:159-162 | an empty queue whose tail pointer addresses its own head |
| Stailq.Queue.InsertHead | esp8266_nonos_dev/include/queue.h:170-174 | prepends one element, tail pointer right also when it was empty |
| Stailq.Queue.InsertTail | esp8266_nonos_dev/include/queue.h:176-180 | appends one element through the tail pointer |
| Stailq.Queue.InsertAfter | esp8266_nonos_dev/include/queue.h:164-168 | inserts behind a given element |
| Stailq.Queue.RemoveHead | esp8266_nonos_dev/include/queue.h:204-208 | drops the first element |
| Stailq.Queue.RemoveAfter | esp8266_nonos_dev/include/queue.h:210-214 | drops the element behind a given one, the last one included |
| Stailq.Queue.Remove | esp8266_nonos_dev/include/queue.h:190-202 | terminates and removes exactly the given element when it is present |
| Stailq.Queue.Concat | esp8266_nonos_dev/include/queue.h:136-142 | appends the other queue's elements and empties it |
| Stailq.Queue.Swap | esp8266_nonos_dev/include/queue.h:216-227 | exchanges the elements, for empty queues and for a queue with itself too |
| Stailq.Queue.InsertChainHead | esp8266_nonos_dev/include/queue.h:229-234 | prepends a linked chain |
| Stailq.Queue.InsertThenRemove | esp8266_nonos_dev/include/queue.h:164-214 | inserting behind an element and removing again restores queue and tail pointer |
| Stailq.Queue.TakeAll | esp8266_nonos_dev/include/queue.h:176-208 | moving the elements by remove-head and insert-tail gives the concatenation, each step leaving the other queue intact |
| Key.StepKeeps | esp8266_nonos_dev/development/driver/key.c:102-176 | every pin change, handler pass (at once or late), timer event and step of the debounce callback keeps the invariant between level, interrupt mode, both timers, status bit and log |
| Key.RunKeeps | esp8266_nonos_dev/development/driver/key.c:102-176 | over every run the log makes sense |
| Key.RunFromInit | esp8266_nonos_dev/development/driver/key.c:67-176 | from initialisation every log is falls taken, each with at most one long press, 5000 ms after it at least, and then one short press, 50 ms after the last rise taken at least |
| Key.DebounceFifty | esp8266_nonos_dev/development/driver/key.c:121-173 | over every run from a rise the handler takes, nothing reads the pin or reports a short press for 50 ms; from then on, and no sooner, the debounce callback reads the pin |
| Key.LongFive | esp8266_nonos_dev/development/driver/key.c:102-166 | over every run from a fall the handler takes, as long as no short press is reported, the 5 s timer does nothing for 5000 ms, and then reports a long press exactly when the pin is low |
| Key.LevelIsPinIffNotMissed | esp8266_nonos_dev/development/driver/key.c:67-176 | over every run from initialisation, with the pin high or low, a settled key has its pin's level if and only if no edge was missed |
| Key.PromptNeverMisses | esp8266_nonos_dev/development/driver/key.c:122-176 | from a high pin, with a handler at each edge and a pin that keeps still during the debounce callback, no edge is missed and a settled key always has its pin's level |
| Key.LowAtInitMissed | esp8266_nonos_dev/development/driver/key.c:79-91 | the failing input: a pin low at initialisation leaves the key up with nothing pending |
| Key.ShortBounceMissed | esp8266_nonos_dev/development/driver/key.c:156-168 | the failing input: a pin that rises before the rising edge is armed leaves the key down with nothing pending |
| Key.MovedWhileDebouncing | esp8266_nonos_dev/development/driver/key.c:127-130 | the failing input: a pin that falls between the debounce callback's read and its re-arming leaves the key up with nothing pending |
| Key.HeldThenReleased | esp8266_nonos_dev/development/driver/key.c:102-176 | a held and released press is reported as one long and one short press at the right times |
| Key.BounceIgnored | esp8266_nonos_dev/development/driver/key.c:122-138 | over every run from a press, the press goes on unreported since the same fall, its 5 s timer running unless it was due, if and only if every debounce callback finds the pin low |
| Key.Keys.Init | esp8266_nonos_dev/development/driver/key.c:67-94 | every key starts at level 1 on its falling edge with its status bit clear, in a state the single-key theorems apply to |
| Key.Keys.Handle | esp8266_nonos_dev/development/driver/key.c:147-176 | one pass equals the single-key step on exactly the keys whose bit was set, for distinct pins; every other key and pin is untouched |
| Key.Keys.SamplePin | esp8266_nonos_dev/development/driver/key.c:122-127 | the 50 ms callback's read of the pin, on its own key only |
| Key.Keys.RearmEdge | esp8266_nonos_dev/development/driver/key.c:128-137 | the rest of the callback on its own key only, calling short_press exactly for a pin that was high at the read |
| Key.Keys.Debounced | esp8266_nonos_dev/development/driver/key.c:122-138 | the whole 50 ms callback with nothing in between |
| Key.Keys.LongElapsed | esp8266_nonos_dev/development/driver/key.c:103-113 | the 5 s callback on its own key only, calling long_press exactly for a low pin |
| Key.Keys.ServeAll | esp8266_nonos_dev/development/driver/key.c:102-176 | over every run of pin changes, handler passes and timers, every one of the keys on the shared registers has run exactly as it would alone, with a log that makes sense |
| AppBin.UnpackPack | esp8266_nonos_dev/tools/gen_appbin.py:85-85 | the little-endian header words read back |
| AppBin.PackOrder | esp8266_nonos_dev/tools/gen_appbin.py:85-85 | a header word stands with its least significant byte first |
| AppBin.BlockLayout | esp8266_nonos_dev/tools/gen_appbin.py:78-101 | a block is the address, the padded length, the data and zeros, both words least significant byte first, padded to the least multiple of 4 or 16 |
| AppBin.Builder.CombineBin | esp8266_nonos_dev/tools/gen_appbin.py:67-105 | appends one padded block and folds its bytes into the checksum, or nothing for an empty file |
| AppBin.Builder.GenAppbin | esp8266_nonos_dev/tools/gen_appbin.py:221-271 | the file is the image of the inputs in each boot mode, or the script stops where a word does not fit |
| AppBin.ImageLayout | esp8266_nonos_dev/tools/gen_appbin.py:221-271 | where the parts stand in each boot mode: the fields of each header, the irom code at 0x10000 behind the rest, or in front as a block of its own with address 0 and its padded length |
| AppBin.LoaderFindsSections | esp8266_nonos_dev/tools/gen_appbin.py:233-248 | a walk by the header's count of three visits exactly the padded sections if and only if none is empty |
| AppBin.LoaderFindsAll | esp8266_nonos_dev/tools/gen_appbin.py:240-248 | with no section empty the walk finds text at 0x40100000, then data, then rodata, each at its own address |
| AppBin.EmptyDataMisread | esp8266_nonos_dev/tools/gen_appbin.py:233-255 | the failing input: with an empty data section the third segment a loader finds is made of padding |
| AppBin.ChecksumCloses | esp8266_nonos_dev/tools/gen_appbin.py:250-257 | after 1 to 16 zeros the checksum is the last byte of a 16-byte-aligned file; each of its bits is that of 0xEF plus the number of visited bytes with the bit set, modulo 2 |
| AppBin.ChecksumOfBit | esp8266_nonos_dev/tools/gen_appbin.py:91-101 | bit by bit the checksum loop counts the set bits of the bytes it visits, modulo 2 |
| AppBin.ChecksumPadded | esp8266_nonos_dev/tools/gen_appbin.py:94-101 | zero padding and empty sections change no checksum |
| Crc.FileCrc | esp8266_nonos_dev/tools/gen_appbin.py:108-121 | folding 64 KiB blocks gives the CRC-32 of the whole file, empty and exact multiples included: the complemented, reflected remainder of polynomial division over GF(2) |
| Crc.UpdateIsCrc | esp8266_nonos_dev/tools/gen_appbin.py:113-116 | for every file the byte-wise register computes the remainder of the file's bits, first 32 complemented, times x^32, by the generator polynomial |
| Crc.OneCrc | esp8266_nonos_dev/tools/gen_appbin.py:108-121 | a file has one such remainder only, so the CRC is determined by the division alone |
| Crc.UpdateAppend | esp8266_nonos_dev/tools/gen_appbin.py:114-116 | continuing a CRC is the CRC of the concatenation |
| Framing.ParseDecimal | python-beginner/3.ora/client.py:21-28 | the decimal parse undoes the print, and a printed length holds no newline |
| Framing.DecimalMeans | python-beginner/3.ora/server.py:54-54 | the printed length is the ASCII decimal of its value, without leading zeros |
| Framing.EmptyObjectFramed | python-beginner/3.ora/server.py:54-55 | the empty object goes out as "2", a newline and two braces |
| Framing.FrameReceived | python-beginner/3.ora/client.py:18-37 | a frame is received whole and nothing behind it is read |
| Framing.CutFrameWaits | python-beginner/3.ora/client.py:21-35 | the client is left waiting by a stream that ends inside a frame, and by no other cut |
| Framing.ShortSend | python-beginner/3.ora/server.py:54-55 | after a short send of the length line no later stream lets the client have that payload or any other |
| Framing.Answer | python-beginner/3.ora/server.py:54-55 | the client gets a JSON answer, whatever follows it, if and only if `send` took the whole length line |
| Framing.Socket.ReadLine | python-beginner/3.ora/client.py:21-27 | stops at the first newline with exactly the length line, for every stream |
| Framing.Socket.ReadBody | python-beginner/3.ora/client.py:30-35 | terminates and fills the buffer with exactly the body, however the receives are cut |
| Framing.Socket.Receive | python-beginner/3.ora/client.py:18-37 | for every stream whose length line is digits, one receive gives the payload or the wait that the stream calls for, and leaves the rest of it |
| Framing.Socket.ReceiveAll | python-beginner/3.ora/client.py:18-37 | repeated receives return every payload exactly and in order |

## Left out

- SDIO reception from the host (`tx_que` and its callback): register plumbing around one fixed buffer.
- Preemption of `sdio_load_data` by the SDIO interrupt: the source takes no lock there, so the two are atomic steps here.
- Calling `sdio_slave_init` twice: the source would follow a null pointer; the model starts from zeroed globals.
- SdioDriver.SdioSlave.ReadDoneInterrupt: the host reads the whole announced buffer before the interrupt; partial host reads are not modelled.
- UartDriver.Uart.TxBuffEnq: a call that overruns the ring or copies through null is followed up to that copy only; what the source overwrites is not modelled.
- UartDriver.Uart.RxBuffEnq: calls without a usable receive ring, where the source follows a null pointer; `UartDriver.Uart.RxBuffDeq` likewise.
- The unbuffered UART configuration the header ships (`UART_BUFF_EN` 0), UART configuration and the receive overflow interrupt.
- RxProtocol: the ten-entry task queue is unbounded here, each task call is one step, and bytes lost by the hardware FIFO itself never arrive.
- I2cMaster.Master.SetDC: half-clock delays and slave clock stretching are not modelled; each call is one sample of the bus.
- Hspi: other code that writes the HSPI registers between selections, and the pin functions other than MTDO.
- FlashRead.Read: a request of less than 2^31 bytes whose end wraps the 32-bit sum; its address is beyond the 24 bits of the command word.
- FlashRead.Port.Transfer: the flash chip is assumed to answer each read command with the addressed bytes.
- The SLIST macros of `queue.h`: the same loops as STAILQ without a tail pointer.
- Key.Keys.Handle: duplicate pins among the keys, and the array of callbacks being null, are not modelled; both callbacks count as installed.
- The adjusted CRC trailer, the ELF symbol scan and the shell commands of `gen_appbin.py`; Python's signed CRC values are taken as unsigned.
- Framing.Socket.Receive: `int` also accepts signs, blanks and underscores, where the model raises; the server never sends them, and `Framing.ShortSend` does not depend on it.
- JSON, sockets and threads in `client.py` and `server.py`.
- The other drivers, SDK headers, sensors and Python lessons: prototypes, hardware timing, or library calls.
