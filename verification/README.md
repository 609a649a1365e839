# FBOSS board drivers, modelled in Dafny

This project models the parts of the FBOSS kernel modules that move data or keep state between calls, and proves what
they promise, against small explicit devices:

- the I2C and SPI transfer engines of the IOB FPGA, down to the word copies of their MMIO windows;
- the MDIO Clause 45 controller, whose writes are posted (Clause 45 of IEEE Std 802.3);
- the MAX31790 fan controller, with its timed cache, sticky faults and speed arithmetic;
- register bits as sysfs files, and the dynamic attribute table of the CPLD driver;
- the list of auxiliary devices, and who owns what when any step of setting up sysfs files fails;
- the limits of the TMP401 and the averaging of the ADM1275.

`dafny verify dfyconfig.toml` checks all of it.

## How the pieces fit

Each driver that the C code writes as steps is a class whose methods take the same steps; each device is a class too,
with a `World` that fixes, for every command and every status read, what the hardware or the bus does. Nothing is assumed
of a world beyond its type unless a `requires` says so: any transfer may fail, be late, or answer anything. Beside the
classes stand value-level specifications (`I2cPlan`, `I2cTransfer`, `SpiPlan`, `MdioSpec`, `MdioTiming`, `FanFaults`,
`RegisterFields`, `TempCodec`), which say what a caller should see without mentioning how the driver gets there. The
methods are proved to meet them, and lemmas prove what the specifications amount to.

| file | part |
|---|---|
| `Bits`, `BitMasks` | bit-fields of registers on naturals, and the proof that the masks and shifts of the C code compute them |
| `Mmio` | word-wise copies between buffers and device memory |
| `I2cController`, `I2cPlan`, `I2cTransfer`, `I2cMaster` | I2C device, commands of a message, whole transfers, driver |
| `SpiController`, `SpiPlan`, `SpiMaster` | the same for SPI |
| `MdioSpec`, `MdioTiming`, `MdioLosses` | synchronous memory, behaviour in any world, what becomes of accepted writes |
| `MdioController`, `MdioBus` | MDIO device, driver |
| `FanSpeed`, `FanFaults`, `FanController`, `FanRuns` | arithmetic, fault bookkeeping, chip and driver, targets over runs |
| `SysfsText`, `RegisterFields`, `RegbitSysfs`, `RegbitRaces` | numbers as text, runs of field stores, files, interleaved stores |
| `RegbitInit`, `AuxBus`, `Ownership` | set-up and tear-down |
| `Options` | optional values |
| `CpldAttrs` | dynamic attribute table |
| `TempCodec`, `Tmp401` | conversions, register map and driver |
| `Adm1275` | sample counts and the configuration sequence |

What the device classes stand for:

- **I2C**: START takes the command that CMD_STS and BUF_CTRL describe, and lowers the done bits, since the driver clears
  the status only once per message (kmods/fboss_iob_i2c.c:533). The 256-byte transmit and receive buffers are seen through
  a 128-byte window; BUF_CTRL selects the page. Reset leaves the page selection alone.
- **SPI**: a store to DESC_CMD with VALID set starts one transfer, which clocks out the MOSI window and fills the MISO one.
- **MDIO**: a command runs for `latency` status reads and then raises DONE or ERR; a second command started meanwhile is
  recorded as `overlap` and takes its place.
- **MAX31790**: in RPM mode the chip keeps the tachometer input on. A transaction that fails changes nothing. What its
  volatile registers return is the world's choice, by transaction and register address.
- **Register maps and SMBus clients**: each access fails or does exactly what it says; failed writes change nothing.

## Where the code does not do what one might expect

- A read that follows a write whose last chunk fills more than 127 bytes goes out with the write address: the read
  stores its address before it selects the low page. It may even go out with the address of another slave, when it begins
  a transfer and the one before left the high page selected. `I2cTransfer.AddressedIff` says exactly when within a
  transfer, `I2cTransfer.SessionAddressedIff` and `I2cTransfer.RecordedAddressedIff` over any sequence of transfers, that
  succeed or fail; `I2cTransfer.ReadAfterLongWrite` and `I2cTransfer.ReadOfWrongSlave` show transfers that do it.
- An SMBus block read fetches 32 bytes but copies out count, data and checksum: what does not fit comes from an
  uninitialised local buffer. `I2cPlan.BlockReadIsAnswerIff` gives the condition; section 5.5.7 of the SMBus Specification
  2.0 allows blocks of 32 bytes, which are outside it.
- An SPI send of 2 GiB or more sends nothing and reports success (`SpiMaster.CoveredIff`), and the status of a send is
  overwritten when the transfer also receives: status 0 means that everything was done exactly when a buffer is missing
  or nothing is sent (`SpiMaster.StatusHonestIff`, `SpiPlan.SendErrorHiddenIff`).
- A word count of 32 bits truncates copies of 16 GiB and more (`Mmio.MovedAll`).
- After a timeout the MDIO driver is READY with a command in flight, and the next command may run into it. In any run
  that happens exactly when a call finds such a command still busy (`MdioTiming.OverlapIff`), and no run at all does it
  exactly when no command takes more than 52 status reads (`MdioTiming.SafeIff`).
- An MDIO write that was answered 0 may still be lost, or its error. Calls alone do it exactly when some command takes
  more than 52 status reads, or fails after 51 or more (`MdioLosses.CarefulIff`); on a prompt device a reset does it,
  exactly to a write that it finds in flight or failed and unreported (`MdioLosses.PromptLostIff`).
- Reading a fan's fault attribute writes the cached high byte of its target back to the chip. After a target write whose
  second transfer failed, that sets a speed nobody asked for (`FanRuns.FaultAfterFailedWrite`,
  `FanRuns.MixedTargetIsNeither`); `FanController.Driver.TakeFault` says exactly when the chip's target stays.
- Switching a fan's tachometer input off in RPM mode leaves the cache out of step with the chip
  (`FanController.EnableAgreesIff`), and the speed range is cached before it is known to be written.
- The register-bit layer accepts widths that no register has (`RegbitSysfs.AcceptedWithinIff`,
  `RegbitSysfs.AcceptedOutside`); its files do not round-trip when they negate or print notes
  (`RegbitSysfs.ShowThenStoreIff`); and concurrent stores to a set of them are safe exactly when those that share a
  register are the same bits of it (`RegbitRaces.SafeIff`, `RegbitRaces.LostUpdate`).
- A store to a write-only CPLD attribute clears the rest of its register (`CpldAttrs.WriteOnlyIff`,
  `CpldAttrs.StoreKeepsRestIff`).
- A TMP401 hysteresis is clamped to the range of the sensor before it is clamped below the critical limit, so values below
  the range do not read back near the second clamp alone (`TempCodec.HystIff`, `TempCodec.HystAfterCritIff`).

## Model

| member | source | states |
|---|---|---|
| `BitMasks.MaskedStoreIsPut` | kmods/lib/regbit-sysfs.c:158-169 | for every word, field and value, the masks and shifts of the read-modify-write replace exactly the bits of the field by the low bits of the value |
| `BitMasks.MaskedLoadIsGet` | kmods/lib/regbit-sysfs.c:116-120 | shifting and masking a word extracts exactly its field |
| `BitMasks.ApartIff` | kmods/lib/fbcpld-cdev.c:154-157 | two fields of a register share no bit exactly when the masks the driver computes for them are disjoint |
| `Bits.GetIs` | kmods/lib/regbit-sysfs.c:116-120 | a field of a register is its value shifted down, modulo a power of two |
| `Bits.GetPutOther` | kmods/lib/regbit-sysfs.c:160-168 | a stored field leaves every disjoint field as it was |
| `Mmio.BytesOfWord` | kmods/fboss_iob_mmio.h:26-30 | a word read from memory and stored byte by byte is the same four bytes |
| `Mmio.BulkWrite` | kmods/fboss_iob_mmio.h:38-57 | device memory is as before except for the first 4*ceil(size/4) bytes, which hold the buffer followed by zeros |
| `Mmio.BulkRead` | kmods/fboss_iob_mmio.h:19-36 | the buffer receives exactly `size` device bytes; nothing beside them changes |
| `Mmio.OverwrittenAt` | kmods/fboss_iob_mmio.h:38-57 | what a bulk write stored reads back, and every byte outside its words keeps its value |
| `Mmio.MovedAll` | kmods/fboss_iob_mmio.h:23-24 | the 32-bit word count moves everything exactly when size is below 16 GiB |
| `I2cController.DecodeEncode` | kmods/fboss_iob_i2c.c:72-82 | page and the two sizes of BUF_CTRL share no bit: decoding what was encoded gives them back |
| `I2cController.BufBits` | kmods/fboss_iob_i2c.c:72-82 | the page is bit 6 and the sizes are bytes 1 and 2 of BUF_CTRL |
| `I2cMaster.SizeCtrlIs` | kmods/fboss_iob_i2c.c:72-82 | the size the driver stores stands in byte 1 or 2 of the word with bit 6 down, and the controller reads it back with the low page selected and nothing in the other field |
| `I2cMaster.Bus.FillTxBuf` | kmods/fboss_iob_i2c.c:424-459 | after loading a chunk of up to 255 bytes the transmit buffer starts with the address and the chunk, contiguous over the two pages; a chunk that fits the low page leaves the high one as it was |
| `I2cMaster.Bus.SendPage` | kmods/fboss_iob_i2c.c:133-138 | a copy of up to 128 bytes, its last word padded, changes nothing outside the selected page |
| `I2cMaster.Bus.SendChunk` | kmods/fboss_iob_i2c.c:476-497 | one command with exactly this address and chunk is started and polled; 0 exactly when its TX_DONE rose in the window with no NACK up to then |
| `I2cMaster.Bus.WriteMsg` | kmods/fboss_iob_i2c.c:464-501 | a write message of any length runs its plan on the controller up to the first command that fails; 0 exactly when TX_DONE rose for each of its max(1, ceil(len/255)) commands |
| `I2cPlan.WritePlanIsData` | kmods/fboss_iob_i2c.c:464-501 | the plan of a write is max(1, ceil(len/255)) commands, all but the last of 255 bytes, whose payloads joined are the message, once and in order |
| `I2cMaster.Bus.FetchChunk` | kmods/fboss_iob_i2c.c:381-405 | a received chunk of up to 256 bytes reaches the caller's buffer, 128 from the low page and the rest from the high one, and nothing else in the buffer changes |
| `I2cMaster.Bus.ReadPlain` | kmods/fboss_iob_i2c.c:346-419 | a plain read runs its plan, and returns 0 exactly when RX_DONE rose for each of its ceil(len/256) commands; on success the buffer holds the controller's answers one after the other and is unchanged past the length, on failure it holds those of the chunks before the one that failed and is otherwise unchanged |
| `I2cPlan.ReadPlanIsLength` | kmods/fboss_iob_i2c.c:346-419 | the commands of a read ask for exactly `len` bytes, send the one address byte and receive; last-byte and stop marks are on the final command only |
| `I2cPlan.ReceivedAt` | kmods/fboss_iob_i2c.c:381-405 | byte i of a read is byte i mod 256 of the answer to its command i/256 |
| `I2cMaster.Bus.ReadBlock` | kmods/fboss_iob_i2c.c:336-419 | a block read is one command of 32 bytes; after RX_DONE a count above 32 is refused with -EINVAL, and any other makes the message one byte longer than it, two with a checksum |
| `I2cPlan.BlockReadIsAnswerIff` | kmods/fboss_iob_i2c.c:338-341 | a block read hands over device data only, whatever the stack held, exactly when count, data and checksum fit in 32 bytes |
| `I2cMaster.Bus.WaitTillXferDone` | kmods/fboss_iob_i2c.c:286-322 | at most 351 polls; a write returns 0 exactly when TX_DONE, and a read exactly when RX_DONE, rose within them with no NACK up to then; -EIO exactly when a NACK rose with that bit not up before, which is answered with a stop |
| `I2cPlan.SettleDone` | kmods/fboss_iob_i2c.c:286-322 | a write command is done exactly when TX_DONE, and a read command exactly when RX_DONE, rose within the window with no NACK up to then |
| `I2cPlan.SettleNack` | kmods/fboss_iob_i2c.c:286-322 | a command ends with a NACK exactly when one rose within the window and the bit waited for had not risen in an earlier read |
| `I2cPlan.RunIs` | kmods/fboss_iob_i2c.c:530-544 | of the commands started all but the last succeeded; the last decides, and after success none is missing |
| `I2cPlan.SuccessIff` | kmods/fboss_iob_i2c.c:530-544 | a plan succeeds exactly when each command saw its own done bit, TX_DONE for sends and RX_DONE for receives, and each block read a count of at most 32 |
| `I2cPlan.TraceConcat` | kmods/fboss_iob_i2c.c:530-544 | what the controller sees of two messages is the first one's commands and then the second's, or the first one's alone if it fails |
| `I2cTransfer.PlanOfMessage` | kmods/fboss_iob_i2c.c:530-544 | the commands of message i stand together in the plan of the transfer, after those of the messages before |
| `I2cTransfer.TransferPlanSize` | kmods/fboss_iob_i2c.c:503-545 | a whole transfer is as many commands as its messages have chunks, which bounds its status polls by 351 a chunk |
| `I2cTransfer.TransferDoneIff` | kmods/fboss_iob_i2c.c:530-544 | a whole transfer succeeds exactly when every command of every message saw the done bit of its direction and every block count is legal |
| `I2cTransfer.AddressedIff` | kmods/fboss_iob_i2c.c:327-362 | whatever pages a transfer finds, a message of it carries its own address exactly when it is no read that finds the high page selected with another address byte in the buffer, said by the lengths of the messages before it |
| `I2cTransfer.SessionAddressedIff` | kmods/fboss_iob_i2c.c:327-362 | over any sequence of transfers to any slaves, all messages carry their own address exactly when none is a read that finds the high page selected after a message with another address byte, of its own transfer or an earlier one |
| `I2cTransfer.PagesLeft` | kmods/fboss_iob_i2c.c:381-457 | the page and address byte a transfer leaves are those of the messages it carried out: all of them if it succeeds; otherwise the messages before the one that failed, and that one up to its last started chunk, as the return code and the number of commands tell |
| `I2cTransfer.RecordedAddressedIff` | kmods/fboss_iob_i2c.c:327-362 | over any sequence of transfers as they came out, each failing at any command or not: every message of which a command was started carries its own address exactly when none of those carried out is misled |
| `I2cTransfer.ReadOfWrongSlave` | kmods/fboss_iob_i2c.c:344-391 | after a write of 128 bytes to one slave, or a read of 129 from it, the read of another slave in the next transfer carries the first one's address byte |
| `I2cTransfer.ReadAfterLongWrite` | kmods/fboss_iob_i2c.c:344-361 | a read after a write of 128 bytes carries the write address |
| `I2cMaster.Bus.CheckMsgParams` | kmods/fboss_iob_i2c.c:145-164 | accepts exactly the non-empty lists of messages with buffers and one 7-bit address |
| `I2cMaster.Bus.AcquireBus` | kmods/fboss_iob_i2c.c:256-269 | -EBUSY exactly when the bus is busy for 351 reads and once more after the reset |
| `I2cMaster.Bus.TransferAll` | kmods/fboss_iob_i2c.c:530-544 | the message loop runs the plan of all messages up to the first command that fails, within 351 polls a command, and returns 0 exactly when every command saw its done bit; on success every message is delivered; on failure the earlier messages are, the failed one holds the chunks before its failed command, and the later ones are untouched; and which page is left selected |
| `I2cMaster.Bus.MasterXfer` | kmods/fboss_iob_i2c.c:503-545 | the same for the entry point: the number of messages exactly when every command of them saw its done bit, else an error; at most 352 reads to get the bus, and nothing issued when messages are refused or the bus stays busy |
| `SpiMaster.DescBits` | kmods/fboss_iob_spi.c:205-223 | the flags of DESC_CMD are its bits 31, 30, 29, 1 and 0, and the length is in bits 8 to 16 |
| `SpiMaster.SendWordIs` | kmods/fboss_iob_spi.c:205-223 | the 9-bit length field decodes to every length from 1 to 512, and the chip-select bits stay |
| `SpiMaster.SelectWordIs` | kmods/fboss_iob_spi.c:171-184 | moving the chip select changes no other field |
| `SpiMaster.Bus.SetCs` | kmods/fboss_iob_spi.c:171-184 | the chip select is moved, nothing else in the descriptor changes and no transfer is started |
| `SpiMaster.Bus.WaitTillXferDone` | kmods/fboss_iob_spi.c:186-203 | at most 31 polls; 0 exactly when the done bit rose within them with no error bit up to then, -EIO exactly when the error bit rose with no done bit before it |
| `SpiPlan.SettleDone` | kmods/fboss_iob_spi.c:186-203 | a transfer is done exactly when its done bit rose in the window with no error bit up to then |
| `SpiPlan.SettleError` | kmods/fboss_iob_spi.c:186-203 | it failed exactly when its error bit rose in the window with no done bit in an earlier read: the error beats a done bit of the same read |
| `SpiMaster.Bus.XferTx` | kmods/fboss_iob_spi.c:225-262 | a send of any length runs its plan up to the first chunk that fails, with the chip select unchanged; 0 exactly when all of its ceil(len/512) chunks were done |
| `SpiPlan.TxPlanIsData` | kmods/fboss_iob_spi.c:225-262 | the plan of a send is ceil(len/512) transfers of 512 bytes and a rest whose bytes joined are the caller's, under one chip select |
| `SpiMaster.Bus.XferRx` | kmods/fboss_iob_spi.c:289-308 | a receive of any length fills exactly its bytes with what the transfers brought in, and leaves the rest of the buffer; 0 exactly when all of its ceil(len/512) chunks were done |
| `SpiPlan.RxPlanIsLength` | kmods/fboss_iob_spi.c:264-308 | the plan of a receive asks for exactly its length |
| `SpiPlan.ReceivedAt` | kmods/fboss_iob_spi.c:264-308 | byte i of a receive is byte i mod 512 of its transfer i/512 |
| `SpiMaster.Bus.XferOne` | kmods/fboss_iob_spi.c:310-324 | first the send runs, then the receive, and the code is that of the last one; with only one of them, or nothing to send, 0 means that every chunk was done |
| `SpiPlan.SuccessIff` | kmods/fboss_iob_spi.c:225-308 | success exactly when the done bit of every chunk rose in its window with no error bit up to then |
| `SpiMaster.CoveredIff` | kmods/fboss_iob_spi.c:230-233 | a send covers the caller's bytes exactly when the length fits a signed 32-bit integer |
| `SpiPlan.SendErrorHiddenIff` | kmods/fboss_iob_spi.c:317-323 | for every two plans: a failed send can be reported as success, in some world, exactly when there is something to send |
| `SpiMaster.StatusHonestIff` | kmods/fboss_iob_spi.c:310-324 | status 0 means, in every world, that every chunk of both directions was done exactly when there is no receive buffer, no send buffer, or a send that covers no byte |
| `MdioBus.CmdWordIs` | kmods/fboss_iob_mdio_aux.c:73-83 | after the four bit-field assignments the device address is in bits 0 to 4, the direction in bit 7, the PHY address in bits 8 to 12 and the register in bits 16 to 31, each cut to its field, and the controller decodes that call |
| `MdioBus.Bus.WaitBusReady` | kmods/fboss_iob_mdio_aux.c:140-159 | the bits consumed are those of the last command: its error or completion if it ends in 51 polls, busy otherwise |
| `MdioBus.Bus.ReadC45` | kmods/fboss_iob_mdio_aux.c:185-221 | from every state the driver can be in, a forgotten command in flight included, and in every world, a read of this PHY, device and register takes the step of the timing model and gives its answer, and the command word carries these three |
| `MdioBus.Bus.WriteC45` | kmods/fboss_iob_mdio_aux.c:223-251 | the same for a posted write |
| `MdioBus.Bus.Reset` | kmods/fboss_iob_mdio_aux.c:161-183 | from any state, a reset that works leaves nothing outstanding and nothing owed; one that does not changes nothing |
| `MdioBus.Bus.Run` | kmods/fboss_iob_mdio_aux.c:140-266 | any run of calls and resets, with any pauses, in any world: answers and states of the timing model, and an overlap exactly when some call found a forgotten command still busy; for calls alone on a prompt device, the replies and the memory of the synchronous model; each call goes to its own PHY, device and register |
| `MdioTiming.OverlapIff` | kmods/fboss_iob_mdio_aux.c:161-251 | in any run of calls and resets and any world a command is started on top of another exactly when a call finds a forgotten command whose latency exceeds the 52 status reads already made of it |
| `MdioTiming.SafeIff` | kmods/fboss_iob_mdio_aux.c:161-251 | from an idle driver, no run of calls and resets starts a command on top of another exactly when no command the device is given takes more than 52 status reads |
| `MdioTiming.CallIsSync` | kmods/fboss_iob_mdio_aux.c:185-251 | a call whose commands end within the window is a step of the synchronous memory, whatever other commands take |
| `MdioTiming.RunIsSync` | kmods/fboss_iob_mdio_aux.c:185-251 | a run of calls that waits for no command beyond the window gives the replies and the state of the synchronous memory, whatever its pauses, and nothing overlaps |
| `MdioTiming.SynchronousIff` | kmods/fboss_iob_mdio_aux.c:140-251 | from any state with nothing forgotten in flight: every run of calls gets the replies of the synchronous memory exactly when the write in flight, if any, and every command to come end within the window |
| `MdioLosses.Accounts` | kmods/fboss_iob_mdio_aux.c:161-251 | after any run of calls and resets in any world, memory is that of the accepted writes that neither failed nor were lost, in order; and every accepted write that failed is lost, was reported or is still owed, and only one of these |
| `MdioLosses.LostIff` | kmods/fboss_iob_mdio_aux.c:161-251 | a write is lost exactly when a working reset takes it or its error, a call polls it for 51 reads without seeing it fail, or a call overruns it |
| `MdioLosses.PromptLostIff` | kmods/fboss_iob_mdio_aux.c:161-251 | on a prompt device an accepted write is lost exactly when a working reset finds it in flight, or failed and unreported |
| `MdioLosses.CarefulIff` | kmods/fboss_iob_mdio_aux.c:140-251 | from an idle driver, no run of calls loses an accepted write exactly when no command to come takes more than 52 status reads, and none that fails takes 51 or more |
| `MdioSpec.ReadSeesWrites` | kmods/fboss_iob_mdio_aux.c:185-251 | in every run a read that returns a value returns the last one written to its key without error |
| `MdioSpec.ErrorIff` | kmods/fboss_iob_mdio_aux.c:194-249 | a call reports an error exactly when the write just before it failed, or it is a read that fails itself |
| `MdioSpec.ErrorsConserved` | kmods/fboss_iob_mdio_aux.c:194-249 | write errors are reported once each: failures are the reports made and the one still owed |
| `MdioSpec.IssuedCount` | kmods/fboss_iob_mdio_aux.c:194-249 | a call that reports an earlier write's error issues no command; every other call issues one |
| `FanSpeed.TargetBounds` | kmods/backports/bp4f_max31790.c:235-257 | for every request, clamped to c: stored count tc in 1..0x7FF, readback r >= c and r*tc <= N <= c*(tc+1), N = 245760 times the tach period sr, the power of two up to 32 with 250*sr <= c < 500*sr as far as there is one |
| `FanSpeed.PeriodIs` | kmods/backports/bp4f_max31790.c:147-152 | the tach period each value of the three high bits stands for |
| `FanSpeed.PeriodForIs` | kmods/backports/bp4f_max31790.c:154-172 | which period a requested speed gets, for every speed |
| `FanSpeed.RpmBounds` | kmods/backports/bp4f_max31790.c:51-53 | the speed of a count is 491520 periods over its high 12 bits, rounded down, and the maximum if they are zero |
| `FanSpeed.TargetIsBest` | kmods/backports/bp4f_max31790.c:235-257 | of the speeds settable with the same tach period, the one set is the slowest that is not below the request |
| `FanSpeed.ReadbackIdempotent` | kmods/backports/bp4f_max31790.c:147-172 | writing the speed read back reads the same again, even when it falls into a range with another tach period |
| `FanSpeed.PwmRoundTrip` | kmods/backports/bp4f_max31790.c:350-361 | each of the 256 duty cycles reads back as written from a register that follows the output, and the output register holds the nearest of its 512 steps |
| `FanSpeed.WithRangeIs` | kmods/backports/bp4f_max31790.c:237-240 | a new speed range leaves the other bits of the dynamics register alone |
| `FanFaults.NoLostFault` | kmods/backports/bp4f_max31790.c:89-139 | a fault once read from the chip is reported by the next read of its channel's fault attribute, over every run with bus failures anywhere |
| `FanFaults.ReportedOnce` | kmods/backports/bp4f_max31790.c:197-213 | no fault is invented or reported twice |
| `FanFaults.OwedIff` | kmods/backports/bp4f_max31790.c:197-213 | a fault is owed exactly when it was raised and not reported since |
| `FanFaults.RaisedIs` | kmods/backports/bp4f_max31790.c:94-100 | a fault of a channel is its own bit of the register of its half |
| `FanController.Driver.UpdateDevice` | kmods/backports/bp4f_max31790.c:79-145 | a refresh reads fault register 0x11 and then 0x10, and keeps what it read even if a later transfer fails; failed or not, it keeps the sticky bits equal to what is owed; a failed one drops the cache; a complete one holds the chip's targets, and every tachometer and duty reading from its own channel's register |
| `FanController.Driver.StaleIff` | kmods/backports/bp4f_max31790.c:89 | the cache is refreshed exactly when it is not valid or older than HZ jiffies, also when the jiffies have wrapped |
| `FanController.Driver.ReadFan` | kmods/backports/bp4f_max31790.c:174-220 | both fault registers are read before a stale cache is used; every fault read reports what is owed, and the other attributes what the cache says after the refresh; only a fault that is reported can change the chip, which keeps its target exactly when that write fails or the cached high byte is the chip's |
| `FanController.Driver.TakeFault` | kmods/backports/bp4f_max31790.c:197-213 | reports a fault exactly when one is owed, clears that one alone, and keeps the chip's target exactly when none is reported, the write fails or the cached high byte is the chip's |
| `FanRuns.FreshFault` | kmods/backports/bp4f_max31790.c:89-213 | with nothing owed and a stale cache, a fault attribute reads bit `channel % 6` of register 0x11 for channels 0 to 5 and of 0x10 for channels 6 to 11 |
| `FanRuns.FaultAfterFailedWrite` | kmods/backports/bp4f_max31790.c:197-257 | a target write that fails in its second transfer and a fault read within the cache second leave the chip with the new high byte and the old low one |
| `FanRuns.MixedTargetIsNeither` | kmods/backports/bp4f_max31790.c:206-211 | from 1000 to 600 revolutions per minute, that target is neither the old one nor the new one |
| `FanController.Driver.ReadPwm` | kmods/backports/bp4f_max31790.c:311-337 | the duty cycle as last refreshed, no older than the cache allows, and the mode the cached configuration stands for |
| `FanController.Driver.WriteFan` | kmods/backports/bp4f_max31790.c:222-283 | target and enable writes, with either bus transaction failing: what cache and chip hold afterwards, and when they agree |
| `FanController.Driver.WriteTarget` | kmods/backports/bp4f_max31790.c:231-257 | which of range and count reached cache and chip when either transfer fails |
| `FanRuns.Run` | kmods/backports/bp4f_max31790.c:174-402 | without bus failures, any run of attribute reads and writes, fault reads included, at any times, leaves each channel set to the last target written to it, in cache and chip, and otherwise as it was |
| `FanRuns.TargetAfterRun` | kmods/backports/bp4f_max31790.c:174-402 | after such a run a target reads, at any time, as the readback of the last one written |
| `FanRuns.TargetRoundTrip` | kmods/backports/bp4f_max31790.c:174-257 | without bus failures, target written, read, written back and read again gives the same speed at any times |
| `FanController.Driver.WritePwm` | kmods/backports/bp4f_max31790.c:339-402 | mode and duty writes keep cache and chip in agreement; refused values change nothing |
| `FanController.ModeRoundTrip` | kmods/backports/bp4f_max31790.c:363-392 | a pwm mode reads back as written, sets and clears its own two bits, touches no other but the tachometer input, and the chip keeps it as cached |
| `FanController.EnableAgreesIff` | kmods/backports/bp4f_max31790.c:258-274 | cache and chip agree after an enable write exactly when it does not switch the input off in RPM mode |
| `SysfsText.ParseShown` | kmods/lib/regbit-sysfs.c:121-135 | the printer and the parser undo each other: any 32-bit number printed in decimal or hex parses as itself, and as nothing if more text follows its line |
| `SysfsText.ShownIs` | kmods/lib/regbit-sysfs.c:121-135 | decimal figures, or 0x and lower-case hexadecimal ones, without leading zeros |
| `SysfsText.ParseAccepts` | kmods/lib/regbit-sysfs.c:153-154 | with or without a plus and a newline, decimal, octal after 0 and hexadecimal after 0x parse as the number they write, or as nothing if it exceeds 32 bits |
| `RegbitSysfs.StoreThenShow` | kmods/lib/regbit-sysfs.c:97-184 | a stored number shows cut to the field, or its complement if the file negates, and no bit outside the field changes |
| `RegbitSysfs.ShowThenStoreIff` | kmods/lib/regbit-sysfs.c:97-174 | storing the shown text leaves the register unchanged exactly when the file neither negates nor prints notes |
| `RegbitSysfs.CheckIff` | kmods/lib/regbit-sysfs.c:186-202 | accepted exactly when the owner can read or write the file, the register exists, and the field starts in it and ends in it as far as 32 bits tell |
| `RegbitSysfs.AcceptedWithinIff` | kmods/lib/regbit-sysfs.c:186-202 | an accepted field lies in its register exactly when its width is between 1 and the register's |
| `RegbitSysfs.AcceptedOutside` | kmods/lib/regbit-sysfs.c:197-199 | a width of 0 and one that wraps around are accepted |
| `RegbitSysfs.SysfsStore` | kmods/lib/regbit-sysfs.c:138-184 | a text that is no number is refused on any file; a store reads and writes once each, and changes the register only if both work |
| `RegbitSysfs.SysfsShow` | kmods/lib/regbit-sysfs.c:97-136 | a show gives the text of the register's value or the error of its read |
| `RegbitSysfs.NotesIs` | kmods/lib/regbit-sysfs.c:127-133 | the notes name the register, the last bit and the first bit of the field |
| `RegisterFields.LastStoreWins` | kmods/lib/fbcpld-cdev.c:150-158 | a run of atomic stores to disjoint fields leaves each field at its last value and every other bit unchanged |
| `RegbitRaces.OneAtATime` | kmods/lib/regbit-sysfs.c:154-174 | in every interleaving at most one store to a file is between its read and its write |
| `RegbitRaces.InterleavingIsSerial` | kmods/lib/regbit-sysfs.c:154-174 | for every set of stores and every interleaving of their read and write steps, with any of them failing, the registers are those of the serial order in which the tasks wrote, each once, when files of one register are the same bits of it |
| `RegbitRaces.LostUpdate` | kmods/lib/regbit-sysfs.c:156-174 | for any two files of one register, one with a bit the other has not, and any store that changes that bit, there is an interleaving that loses it and matches no serial order |
| `RegbitRaces.SafeIff` | kmods/lib/regbit-sysfs.c:138-184 | for every table of files: every interleaving of any stores to them, from any registers, ends as some serial order exactly when files that share a register are the same bits of it |
| `RegbitRaces.SafeWhenApartIff` | kmods/lib/regbit-sysfs.c:138-184 | for files whose fields share no bit: exactly when no two of them share a register |
| `RegbitInit.Device.HandleAlloc` | kmods/lib/regbit-sysfs.c:213-243 | three live blocks in one handle, or none left, for each allocation that may fail |
| `RegbitInit.Device.AttrInit` | kmods/lib/regbit-sysfs.c:257-297 | every file ready from its own configuration with a lock of its own, shown if the owner may read it and stored to if the owner may write it, or, at the first refusal, every lock made so far destroyed |
| `RegbitInit.Device.AttrUninit` | kmods/lib/regbit-sysfs.c:245-255 | destroys exactly the locks that were initialised, in order |
| `RegbitInit.Device.SysfsInitCommon` | kmods/lib/regbit-sysfs.c:308-336 | any number of configurations, any failure: the code of the first failure, and every block and lock ever made either given back once or owned by exactly one action |
| `RegbitInit.Device.Gone` | kmods/lib/regbit-sysfs.c:299-306 | after the device is gone each block was freed exactly once and each lock destroyed exactly once |
| `RegbitInit.AcceptedIff` | kmods/lib/regbit-sysfs.c:264-273 | a set of files is accepted exactly when each configuration is |
| `AuxBus.Bus.AuxdevAdd` | kmods/lib/fbiob-auxdev.c:43-80 | the new adapter is registered and first on the list, or freed once, whichever step fails |
| `AuxBus.Bus.AuxdevRemove` | kmods/lib/fbiob-auxdev.c:23-41 | the first adapter with the id goes and is freed once; the others keep their order |
| `AuxBus.Bus.AuxbusDestroy` | kmods/lib/fbiob-auxdev.c:82-95 | the list is empty and every adapter ever allocated has been freed exactly once |
| `AuxBus.Lifetime` | kmods/lib/fbiob-auxdev.c:23-104 | over any run of adds and removes, with any failures, and the final destroy |
| `CpldAttrs.ValidIff` | kmods/lib/fbcpld-cdev.c:190-213 | an attribute is accepted exactly when it is named, its owner may read or write it, and its field lies within an 8-bit register |
| `CpldAttrs.Descriptor.EntryExists` | kmods/lib/fbcpld-cdev.c:75-84 | finds a name exactly when an entry has it |
| `CpldAttrs.WantedIff` | kmods/lib/fbcpld-cdev.c:240-257 | the duplicate check of the loop drops exactly the requests whose name is in the table or was an earlier valid request's |
| `CpldAttrs.Descriptor.SysfsCreate` | kmods/lib/fbcpld-cdev.c:218-285 | appends the valid, new requests in order up to the first for which there is no room or no file, whose code it returns; names stay distinct, fields fit, live files are the table's names, at most 64 |
| `CpldAttrs.Descriptor.SysfsDestroyAll` | kmods/lib/fbcpld-cdev.c:290-309 | no entry and no file is left |
| `CpldAttrs.DynRunFields` | kmods/lib/fbcpld-cdev.c:132-167 | any interleaving of stores of texts to disjoint attributes with the owner's read bit leaves each field at its last parsed value and every other bit unchanged |
| `CpldAttrs.DynStoreFile` | kmods/lib/fbcpld-cdev.c:132-167 | a text that is no number or a failed access changes nothing and returns that error; otherwise the field holds the input, a file with the owner's read bit leaves every other field as it was, and any file every other register |
| `CpldAttrs.DynShowIs` | kmods/lib/fbcpld-cdev.c:107-126 | flag bit 2 selects decimal figures in place of 0x, and flag bit 1 adds notes after the line of the number |
| `CpldAttrs.DynShowFile` | kmods/lib/fbcpld-cdev.c:89-127 | the text of the register's value, or the error of its read |
| `CpldAttrs.WriteOnlyIff` | kmods/lib/fbcpld-cdev.c:150-158 | a store to a write-only attribute keeps the rest of its register exactly when the rest is zero |
| `CpldAttrs.StoreKeepsRestIff` | kmods/lib/fbcpld-cdev.c:150-158 | for a table entry: its stores keep the other bits, for every register value and input, exactly when its mode has the owner's read bit or it is the whole register |
| `CpldAttrs.StoreThenShow` | kmods/lib/fbcpld-cdev.c:89-167 | a number stored to a readable table entry shows cut to its field, or complemented |
| `CpldAttrs.ShowThenStoreIff` | kmods/lib/fbcpld-cdev.c:89-167 | storing the shown text is accepted and changes nothing exactly when the entry neither negates nor prints notes |
| `TempCodec.InRangeIs` | kmods/backports/bp4f_tmp401.c:281-286 | the range a limit is clamped to, 0 to 127 degrees or -64 to 191 |
| `TempCodec.ReadbackError` | kmods/backports/bp4f_tmp401.c:269-289 | for every `long` and both ranges, min and max read back within 31 millidegrees of the clamped value, crit within 500 |
| `TempCodec.ReadbackNearest` | kmods/backports/bp4f_tmp401.c:279-289 | no register value of that resolution is closer to the clamped value |
| `TempCodec.FineStable` | kmods/backports/bp4f_tmp401.c:269-289 | writing back what a min or max limit reads stores the same register value |
| `TempCodec.CoarseStable` | kmods/backports/bp4f_tmp401.c:269-289 | the same for a critical limit |
| `TempCodec.HystError` | kmods/backports/bp4f_tmp401.c:375-391 | a hysteresis reads back within 500 of the value clamped to the range and then to [crit-255000, crit] |
| `TempCodec.HystIff` | kmods/backports/bp4f_tmp401.c:375-391 | within 500 of the value clamped to [crit-255000, crit] alone exactly when the value is at most 500 outside the range or that interval ends inside the range on its side |
| `TempCodec.HystAfterCritIff` | kmods/backports/bp4f_tmp401.c:361-400 | after the driver wrote crit: exactly when the value is at most 500 below the range, or crit is the top of the extended range |
| `TempCodec.IntervalNearest` | kmods/backports/bp4f_tmp401.c:425-440 | a written update interval reads back as a nearest member of 125*2^n, n = 0..7, whatever was asked for |
| `TempCodec.IntervalStable` | kmods/backports/bp4f_tmp401.c:425-440 | each of the eight intervals is stored exactly |
| `TempCodec.IntervalIs` | kmods/backports/bp4f_tmp401.c:408-413 | the interval times two to the rate is 16 seconds |
| `Tmp401.WriteThenRead` | kmods/backports/bp4f_tmp401.c:145-256 | a setting written at its write address reads as written at its read address, cut to its width, and no other register the driver reads changes |
| `Tmp401.LimitRegs` | kmods/backports/bp4f_tmp401.c:52-59 | the nine limits are in nine registers, each low one beside its high one |
| `Tmp401.LimitWritten` | kmods/backports/bp4f_tmp401.c:361-374 | a limit write reads back within its error and disturbs no other limit, hysteresis distance, interval, configuration or measurement |
| `Tmp401.HystWritten` | kmods/backports/bp4f_tmp401.c:375-391 | a hysteresis write reads back within 500 and moves the distance of every channel, which share the register, and nothing else |
| `Tmp401.IntervalWritten` | kmods/backports/bp4f_tmp401.c:402-440 | an interval write reads back as a nearest one and disturbs nothing else |
| `Tmp401.Driver.WriteLimit` | kmods/backports/bp4f_tmp401.c:361-374 | one register access, which decides; on failure the chip is as before |
| `Tmp401.Driver.ReadLimit` | kmods/backports/bp4f_tmp401.c:317-328 | one register access, which decides; a limit reads as what the chip holds |
| `Tmp401.Driver.WriteHyst` | kmods/backports/bp4f_tmp401.c:375-391 | a read and a write, the first failure decides; the stored distance is to the critical limit the chip holds |
| `Tmp401.Driver.ReadHyst` | kmods/backports/bp4f_tmp401.c:329-344 | two reads, the first failure decides; the value is the critical limit less the common distance |
| `Tmp401.Driver.SetConvrate` | kmods/backports/bp4f_tmp401.c:425-440 | the rate stays one the driver can read back |
| `Tmp401.Driver.ReadInterval` | kmods/backports/bp4f_tmp401.c:408-413 | the interval of the rate the chip holds, or the error of the read |
| `Adm1275.SamplesIs` | kmods/backports/bp4f_adm1275.c:406-416 | the count a request asks for is the largest power of two not above the request clamped to 1..128 |
| `Adm1275.AvgFieldIs` | kmods/backports/bp4f_adm1275.c:180-204 | the count of each kind is in bits 11 to 13, 8 to 10 or 0 to 2 of PMON_CONFIG |
| `Adm1275.OneWrite` | kmods/backports/bp4f_adm1275.c:234-256 | a write stores its own count and disturbs neither the other count nor any other configuration bit |
| `Adm1275.Client.WritePmonConfig` | kmods/backports/bp4f_adm1275.c:206-232 | the configuration is only written while conversions are stopped, and after every successful stop a start is attempted, whatever fails; which error is returned and what the registers hold |
| `Adm1275.Client.WriteSamples` | kmods/backports/bp4f_adm1275.c:406-416 | the first error of the four transfers, and the count stored exactly when the first three worked; power samples are refused on chips without them |
| `Adm1275.Client.ReadSamples` | kmods/backports/bp4f_adm1275.c:347-361 | reads two to the power of the field, or the error |
| `Adm1275.Client.Run` | kmods/backports/bp4f_adm1275.c:180-256 | over any run of writes, whichever fail, each count reads back as the last request for it that got through, and no other bit changes |

## Left out

- Probe and remove, hwmon, LED, watchdog and character-device registration, `copy_from_user`, logging: kernel calls outside this repository. A create request arrives as a sequence of attributes.
- Time: a delay between polls is one step, except for the fan cache, which takes the jiffies of each call as a parameter.
- Bus timing, clock divisors and controller initialisation: register values whose meaning is electrical.
- Locks, except where stated: MDIO calls, table ioctls and auxiliary-device calls are taken one at a time. A reset of the MDIO bus that comes in the middle of a call, and destroy-all racing with create, are not covered; files are removed after the table's lock is dropped (kmods/lib/fbcpld-cdev.c:297-306).
- I2cMaster.Bus.MasterXfer: messages are distinct objects, and a buffer that is read into is shared with no other message; what overlapping buffers would hold is not modelled.
- I2cMaster.Bus.ReadBlock: a count byte is unsigned, as `char` is in kernels built with `-funsigned-char`; with a signed `char` counts of 128 and more would pass the check of kmods/fboss_iob_i2c.c:407. The buffer has room for a block message, 34 bytes, as the I2C core asks of its callers.
- MdioController: a command that another one is started on top of is taken to be dropped; what a real controller makes of it is not modelled.
- FanController: `is_visible`, the pulse divisor and the temperature of the chip's own sensors. Fan and pwm values of volatile registers are whatever the world returns.
- FanController.Driver.constructor: initialisation without a bus failure; the driver is not probed otherwise.
- RegbitSysfs.SysfsStore: a text that parses is stored to a field that lies within the register; for the other accepted configurations the shifts of the C code are undefined.
- RegbitInit: custom show and store callbacks, the kernel's own attribute group, and null checks of the register map.
- CpldAttrs: the device has a register map; the absence of one (-ENODEV) is not modelled, and the firmware version file is not.
- AuxBus: references to a device held by others than the bus, which would only delay the release.
- Tmp401: the register cache of regmap (reads go to the chip), the alarm registers simulated for chips other than the TMP432, and measured temperatures beyond the fact that writes do not disturb them.
- Adm1275: coefficients, limits, peak registers and status of the chip.
- The fan CPLD drivers, `fbfancpld_i2c`, the SCM, SMB and MCB CPLD files: short register accessors and attribute tables that would only add easy members.
- The other PMBus backports: single scalings of 16-bit words.
- `fboss_iob_gpio`: its direction query is not meaningful (kmods/fboss_iob_gpio.c:56), so neither are claims about it.
