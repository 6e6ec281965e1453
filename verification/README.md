# Verified models of the Quark microcontroller drivers and bootloader data

Dafny models of the parts of the board support package whose correctness spans
several functions and several parties: a power failure in the middle of a flash
update, a controller that works on while its driver looks at it, two cores that
share a mailbox, a DMA engine that follows a chain the driver is still building.

| file | models |
|---|---|
| `Bits.dfy` | bytes, half words and words as bit vectors; powers of two |
| `Crc16.dfy` | the CRC-16 of the firmware manager, against long division of polynomials |
| `Flash.dfy` | the flash driver: page write, page erase, read-modify-write; the requests it issues |
| `BlData.dfy` | the bootloader data: record, checksum, provisioning, writeback, repair |
| `BlDataLayout.dfy` | what the checksum, the partition descriptors and the compiled-in table are in terms of the words of a record |
| `BlDataCrash.dfy` | power failures at any flash request, or inside one, and the boots that follow |
| `I2cMaster.dfy` | interrupt-driven I2C master transfers, with the controller running in between |
| `DmaMultiblock.dfy` | descriptor chains built one buffer at a time, and the handler that counts blocks |
| `Mailbox.dfy` | one mailbox channel under every interleaving of writer, reader and interrupt handler |
| `SpiMaster.dfy` | interrupt-driven full-duplex SPI master transfers |
| `UsbControl.dfy` | the data stage of control transfers on endpoint 0 |
| `TrimSearch.dfy` | the successive approximation of the oscillator trim code |

`dafny verify dfyconfig.toml` checks everything.

How the models are made:

- An object the source updates in place is a class. Where hardware works
  concurrently (I2C, SPI), every register access of a driver method is preceded
  by `HardwareRuns`, which lets the controller take any number of steps; the
  state of both is viewed as one `State` value, and each kind of step is proved
  to keep its invariant by a lemma. `Work` is the measure that makes every fair
  run end.
- Flash requests are logged. What an operation does is stated as the list of
  requests it issues, so that a power failure is a cut of that list: after any
  number of requests, or inside one. A torn program has cleared any of the bits
  it was to clear. A torn erase of one of the two record pages leaves the page
  unchanged or leaves something that is not an intact record; a torn erase of
  any other page leaves anything.
- The mailbox is a state machine over single register accesses; the driver's
  calls are methods that let the other parties run before each of theirs.
- The parameter checks of the drivers are taken to be compiled in and to return
  an error code.

What the code does that its comments or its callers may not expect; the model
follows the code:

- The comment of the checksum function says that the register starts at 0xffff
  (`bsp/bootloader/fw-manager/fw-manager_utils.h:44`); the code starts it at zero
  (`bsp/bootloader/fw-manager/fw-manager_utils.c:37`). The theorems are about zero.
- A contiguous DMA transfer is accepted for any number of blocks. Asked for one
  block, the counter wraps round and 65537 are moved; `ContiguousIsExact` gives the
  exact condition. The same transfer leaves the reload bits clear, so that the
  channel reads as a single-block one until it is configured again.
- A rejected call of the multiblock configuration has already changed the block
  counter (`bsp/drivers/dma/qm_dma.c:496`), and the transfer can still be started.
  The runs therefore start from any counter: `CircularReports` and
  `LinearReportsExact` say with which ones the client is called once for each buffer.
- The length reported for a buffer is computed in 32 bits. With items of 256 bits it
  can wrap round; `LengthCanWrap` is such a transfer, and `LengthIsExact` says when
  the length is right, for every width.
- An I2C transfer without a transmit buffer and without bytes to read is accepted
  but never reported; every other transfer is (`Reportable`).
- The number of SPI frames to write is computed from two FIFO levels read in one
  expression, `SPI_FIFOS_DEPTH - txflr - rxflr - 1`. C leaves the order of the two
  reads open, so the order is a constant of the model. `OverflowsIff`: the RX FIFO can
  overflow exactly if the RX level is read first and the transfer has more than 8
  frames; an overflowing run is constructed for every such transfer. In all other
  cases the handlers keep the invariant and every fair run ends.
- The two data callbacks of the USB endpoint look at no stage. An OUT packet in an
  IN stage is read over the answer being sent, and an IN completion in an OUT stage
  sends bytes of the store. `OutSpares` and `InSpares` say exactly when no harm is
  done; the contracts say what is written and sent in every case.
- A failed write to the USB endpoint goes unnoticed and its bytes are skipped;
  `CompleteIff` says when the host gets everything.
- First provisioning is not power-safe; `ProvisioningCut` and `ProvisioningCutAt` say
  exactly which cuts stop the next boot for good.
- The read-modify-write of a flash page does not check that the data ends inside the
  page; what lies past the end stays in the RAM buffer and is never programmed.

## Model

| member | source | states |
|---|---|---|
| Crc16.Crc16Ccitt | bsp/bootloader/fw-manager/fw-manager_utils.c:35-47 | the loop computes `CrcOf`, for byte strings of every length |
| Crc16.ByteStepIsFeed | bsp/bootloader/fw-manager/fw-manager_utils.c:40-43 | one turn of the branch-free loop is eight steps of the bit-serial shift register, and stays within 16 bits |
| Crc16.CrcIsDivision | bsp/bootloader/fw-manager/fw-manager_utils.c:35-47 | the checksum is the remainder of the message, with 16 zero bits appended, on division by x^16 + x^12 + x^5 + 1 |
| Crc16.CrcLinear | bsp/bootloader/fw-manager/fw-manager_utils.c:35-47 | the checksum of the XOR of two strings of one length is the XOR of their checksums |
| Crc16.BurstDetected | bsp/bootloader/fw-manager/fw-manager_utils.c:35-47 | two different strings that differ only within 16 consecutive bits have different checksums |
| Crc16.CrcResidue | bsp/bootloader/fw-manager/fw-manager_utils.c:35-47 | a message followed by two bytes has checksum zero exactly if they are its checksum, high byte first |
| Flash.WritePrefix | bsp/drivers/flash/qm_flash.c:173-189 | a page write cut after n words leaves exactly those words, the rest blank, and nothing of the old content |
| Flash.WriteWhole | bsp/drivers/flash/qm_flash.c:125-191 | the erase and the programs of a page write make the page the data followed by blank words, and touch no other page |
| Flash.FlashDevice.PageErase | bsp/drivers/flash/qm_flash.c:296-337 | one erase request for an accepted page, none and an error otherwise |
| Flash.FlashDevice.PageWrite | bsp/drivers/flash/qm_flash.c:125-191 | the requests issued, the page that results, and the error cases |
| Flash.FlashDevice.PageUpdate | bsp/drivers/flash/qm_flash.c:193-294 | the read-modify-write cycle is a plain overlay of the data on the page, cut off at its end; other pages are untouched, and data past the end stays in the buffer |
| BlData.MarkedAt | bsp/bootloader/fw-manager/bl_data.c:164-171 | repairing the flags sets those that were clear, and changes no other word |
| BlData.BlDataStore.ErasePages | bsp/bootloader/fw-manager/bl_data.c:131-135 | the page loop issues one erase for each page of the range, in order |
| BlData.BlDataStore.ErasePartition | bsp/bootloader/fw-manager/bl_data.c:126-140 | the erase requests for a partition, with the 32-bit end of its range |
| BlData.BlDataStore.SanitizePartitions | bsp/bootloader/fw-manager/bl_data.c:156-174 | which partitions are erased, what the RAM copy becomes, and when a writeback is wanted |
| BlData.BlDataStore.LoopIfNotBlank | bsp/bootloader/fw-manager/bl_data.c:184-199 | execution stops exactly if some word of the two pages is not blank |
| BlData.BlDataStore.ShadowWriteback | bsp/bootloader/fw-manager/bl_data.c:279-287 | the RAM copy is sealed, then main is written, then backup, and all three agree |
| BlData.BlDataStore.Init | bsp/bootloader/fw-manager/bl_data.c:92-104 | first provisioning: the fields filled in, sealed, and stored twice |
| BlData.BlDataStore.Sanitize | bsp/bootloader/fw-manager/bl_data.c:207-271 | the whole boot-time check: when it stops for good, the requests it issues otherwise, and the RAM copy it ends with |
| BlDataLayout.IntactIs | bsp/bootloader/fw-manager/bl_data.c:209-214 | a record is intact exactly if its last word is the remainder of the 1216 bytes before it, as they lie in memory |
| BlDataLayout.TwoBytesDetected | bsp/bootloader/fw-manager/bl_data.c:209-214 | an intact record in which two neighbouring bytes before the checksum are damaged is not intact |
| BlDataLayout.HalfWordDetected | bsp/bootloader/fw-manager/bl_data.c:209-214 | the same for any damage to one half of one word |
| BlDataLayout.ErasesItsPages | bsp/bootloader/fw-manager/bl_data.c:126-135 | the erases for a partition are those of the pages of its descriptor, read field by field, and its flag is the sixth field |
| BlDataLayout.RepairsTable | bsp/bootloader/fw-manager/bl_data.c:164-171 | a repair sets the flags of the descriptors that were clear and changes no other word but the checksum |
| BlDataLayout.DefaultGeometry | bsp/bootloader/bootstrap/soc/quark_se/include/soc_flash_partitions.h:116-165 | the partitions of the table compiled in for two banks are disjoint, keep away from both copies, and are marked consistent |
| BlDataLayout.ProvisionsDefaults | bsp/bootloader/fw-manager/bl_data.c:92-104 | a first boot with that table provisions a record with this geometry |
| BlDataCrash.ProperPrefixNeverIntact | bsp/drivers/flash/qm_flash.c:173-189 | a record write stopped before its last word is complete is never intact, for any contents, even inside a word, and with no assumption on checksum collisions |
| BlDataCrash.EveryCutCounts | bsp/drivers/flash/qm_flash.c:173-189 | what a power failure may leave: cuts between any two requests, and torn programs and erases |
| BlDataCrash.TornCopy | bsp/bootloader/fw-manager/bl_data.c:112-117 | a copy cut anywhere leaves the old page, a page that is not intact, or the complete new record |
| BlDataCrash.CutWriteback | bsp/bootloader/fw-manager/bl_data.c:279-287 | a writeback cut anywhere leaves the old record or the new one as the surviving one |
| BlDataCrash.SanitizeCompletes | bsp/bootloader/fw-manager/bl_data.c:207-271 | a complete repair leaves both copies equal and intact, all flags set, every inconsistent partition blank and every other page unchanged |
| BlDataCrash.SanitizeCut | bsp/bootloader/fw-manager/bl_data.c:207-271 | a repair cut anywhere leaves the surviving record as it was, or repaired after all erases have finished |
| BlDataCrash.FlagFollowsErase | bsp/bootloader/fw-manager/bl_data.c:164-171 | in neither copy is there an intact record in which a flag has turned consistent before every page of its partition is blank |
| BlDataCrash.EventIsAtomic | bsp/bootloader/fw-manager/bl_data.c:207-287 | the two pages behave as one record that every writeback or repair, complete or cut, changes atomically |
| BlDataCrash.EverythingHappens | bsp/bootloader/fw-manager/bl_data.c:207-287 | the runs spoken of have every boot, every writeback by a live device and every cut of them in them |
| BlDataCrash.NeverLost | bsp/bootloader/fw-manager/bl_data.c:184-271 | once one copy is complete, at every later instant of every run some copy is intact and the endless loop is out of reach |
| BlDataCrash.CrashAtomic | bsp/bootloader/fw-manager/bl_data.c:207-287 | writeback cut anywhere, then any number of boots each cut anywhere, then one complete boot: both copies hold exactly the old or the new record, flags repaired; the partitions which that record had marked inconsistent are blank and no other page has changed |
| BlDataCrash.Provisions | bsp/bootloader/fw-manager/bl_data.c:92-104 | an undisturbed first boot provisions both copies |
| BlDataCrash.ProvisioningCut | bsp/bootloader/fw-manager/bl_data.c:215-230 | a first boot cut anywhere makes the next boot stop for good exactly if the main page has been touched and is not complete |
| BlDataCrash.ProvisioningCutAt | bsp/bootloader/fw-manager/bl_data.c:215-230 | the same by the place of the cut: never after the last word of main, always after a word that is not all ones and before that |
| BlDataCrash.ProvisioningCanHalt | bsp/bootloader/fw-manager/bl_data.c:215-230 | such a cut exists |
| I2cMaster.HardwareKeeps | bsp/drivers/i2c/qm_i2c.c:472-605 | no step of the controller breaks the invariant: order, flow control, no overflow of either FIFO; and each makes progress |
| I2cMaster.FetchedKeeps | bsp/drivers/i2c/qm_i2c.c:556-590 | there is room in the RX FIFO for every byte a read command brings |
| I2cMaster.NoMoreThanMissing | bsp/drivers/i2c/qm_i2c.c:560-567 | the assertion of the driver on the RX level holds in every reachable state |
| I2cMaster.NeverStalls | bsp/drivers/i2c/qm_i2c.c:472-605 | with the transfer unfinished and the controller at rest, an unmasked interrupt is raised whose handler has something to do |
| I2cMaster.DriverIsWoken | bsp/drivers/i2c/qm_i2c.c:472-605 | from any state under way, however the slave answers, the controller comes to rest with such an interrupt raised |
| I2cMaster.StopIsLast | bsp/drivers/i2c/qm_i2c.c:430-470 | the commands of a transfer are its bytes and then its reads, with STOP on the last only, and only if asked for |
| I2cMaster.DeliversAll | bsp/drivers/i2c/qm_i2c.c:430-605 | a concluded transfer has pushed exactly those commands in order, and byte i received is at position i |
| I2cMaster.Master.MasterFillTxFifo | bsp/drivers/i2c/qm_i2c.c:430-470 | how many data words are written, in order, without overflow |
| I2cMaster.Master.ReadRxFifo | bsp/drivers/i2c/qm_i2c.c:482-526 | the RX half of the handler: bytes stored in order, the end reported, the threshold kept below the bytes left |
| I2cMaster.Master.RequestBytes | bsp/drivers/i2c/qm_i2c.c:556-597 | how many reads are issued, and that they never outrun the room in the RX FIFO |
| I2cMaster.Master.IsrMasterHandler | bsp/drivers/i2c/qm_i2c.c:472-605 | the handler keeps the invariant, makes progress when the controller rests, never reports twice or an unreportable transfer, and lowers the TX threshold at the end of one that only writes |
| I2cMaster.Master.MasterIrqTransfer | bsp/drivers/i2c/qm_i2c.c:1098-1146 | a transfer starts with its thresholds set and the invariant established, even while the last byte of an earlier one is still being sent; the error case |
| I2cMaster.Master.FairRun | bsp/drivers/i2c/qm_i2c.c:472-605 | without bus errors, every fair run of a reportable transfer ends with exactly one report, all commands pushed and all bytes stored, and the next transfer can start |
| DmaMultiblock.VisitLinear | bsp/drivers/dma/qm_dma.c:440-455 | a linear chain, followed from its first item, yields its blocks once and ends |
| DmaMultiblock.VisitCircular | bsp/drivers/dma/qm_dma.c:440-455 | a circular chain yields its blocks in order again and again |
| DmaMultiblock.BlocksTile | bsp/drivers/dma/qm_dma.c:421-452 | blocks on a side that steps tile the buffer, each side by its own item width; on a side that does not they are at one address |
| DmaMultiblock.LengthIsExact | bsp/drivers/dma/dma.h:104-140 | for every item width the length reported is a buffer's own number of bytes exactly if its block size is that of the last buffer configured and the product fits 32 bits |
| DmaMultiblock.LengthCanWrap | bsp/drivers/dma/dma.h:104-140 | a transfer of 256-bit items whose length is reported wrong |
| DmaMultiblock.CircularReports | bsp/drivers/dma/qm_dma.c:94-105 | a circular list reports after every buffer's worth of blocks, and only then, exactly if the counter starts at the blocks of a buffer |
| DmaMultiblock.LinearReportsExact | bsp/drivers/dma/qm_dma.c:48-131 | a linear list reports at the ends of its buffers, and only there, exactly if the counter starts at the blocks of a buffer, or does not run out in the only buffer |
| DmaMultiblock.ContiguousIsExact | bsp/drivers/dma/qm_dma.c:106-129 | a contiguous transfer moves the number of blocks asked for exactly if that is at least two |
| DmaMultiblock.Channel.ChannelSetConfig | bsp/drivers/dma/qm_dma.c:279-368 | the channel's type, increments and widths; contiguous memory to memory is refused |
| DmaMultiblock.Channel.SetTransferType | bsp/drivers/dma/dma.h:242-309 | reload and list bits for each transfer type and direction |
| DmaMultiblock.Channel.LinkedListInit | bsp/drivers/dma/qm_dma.c:397-460 | the items of one buffer hold its blocks with stepped 32-bit addresses, each linked to the next and the last to the tail; nothing else in memory changes |
| DmaMultiblock.Channel.AppendToList | bsp/drivers/dma/qm_dma.c:559-592 | a further buffer goes behind the ones configured before, and the list still ends, or closes, where it did |
| DmaMultiblock.Channel.MultiTransferSetConfig | bsp/drivers/dma/qm_dma.c:462-605 | each accepted call adds one buffer to the list and sets the counter; which calls are refused, and what each refused call leaves behind, the counter included |
| DmaMultiblock.Channel.FollowingLinks | bsp/drivers/dma/qm_dma.c:528-592 | after any calls, the links from the LLP register visit the blocks of all buffers in call order, once or round and round, each with an interrupt |
| DmaMultiblock.Channel.TransferStart | bsp/drivers/dma/qm_dma.c:607-641 | block interrupts are let in exactly if blocks are counted |
| DmaMultiblock.Channel.IsrHandler | bsp/drivers/dma/qm_dma.c:48-131 | the new counter, masks, reload bits and callbacks in every case |
| DmaMultiblock.Channel.RunLinear | bsp/drivers/dma/qm_dma.c:48-131 | whatever the counter starts at, a linear list moves every block once; how often the client is called, and that it is once for each buffer if the counter is right |
| DmaMultiblock.Channel.RunCircular | bsp/drivers/dma/qm_dma.c:48-131 | whatever the counter starts at, the blocks moved after any number of them and how often the client was called: that number divided by the blocks of a buffer, rounded down, if the counter is right |
| DmaMultiblock.Channel.RunContiguous | bsp/drivers/dma/qm_dma.c:106-129 | the blocks a contiguous transfer moves, its one callback, and that the channel has to be configured again |
| Mailbox.StepKeeps | bsp/drivers/mailbox/qm_mailbox_se.c:97-271 | every register access of every party keeps the invariant |
| Mailbox.DeliveredExactlyOnce | bsp/drivers/mailbox/qm_mailbox_se.c:196-271 | at every instant of every interleaving message i read has the data of message i accepted, and its control word but for the top bit; at most one is accepted and not yet read |
| Mailbox.ClearsItsOwn | bsp/drivers/mailbox/qm_mailbox_se.c:112-119 | clearing the interrupt bit never erases the notification of a newer message |
| Mailbox.NotificationNotLost | bsp/drivers/mailbox/qm_mailbox_se.c:112-119 | a message not notified yet has its interrupt pending |
| Mailbox.FreeWhenConsumed | bsp/drivers/mailbox/qm_mailbox_se.c:196-221 | a write finds the slot free exactly if everything before has been read and its callback is over |
| Mailbox.NeverWedged | bsp/drivers/mailbox/qm_mailbox_se.c:97-271 | while a slot is not free there is always an access of the receiving side that does some of the work left |
| Mailbox.CanBeFreed | bsp/drivers/mailbox/qm_mailbox_se.c:97-271 | such accesses alone free the slot, in ten steps at most |
| Mailbox.FreedInTen | bsp/drivers/mailbox/qm_mailbox_se.c:97-271 | in any run of the receiving side in which ten such accesses are done, the slot becomes free |
| Mailbox.Scan | bsp/drivers/mailbox/qm_mailbox_se.c:97-111 | the shifting loop looks at exactly the channels pending and not masked, in ascending order |
| Mailbox.Channel.Write | bsp/drivers/mailbox/qm_mailbox_se.c:196-221 | a write among interfering parties: accepted once, or refused without effect |
| Mailbox.Channel.Read | bsp/drivers/mailbox/qm_mailbox_se.c:223-271 | a read among interfering parties: the next message whole, as it was written, or an error |
| Mailbox.Channel.Serve | bsp/drivers/mailbox/qm_mailbox_se.c:112-119 | one callback for one notification |
| SpiMaster.ShiftedKeeps | bsp/drivers/spi/qm_spi.c:210-236 | there is room in the RX FIFO for every frame that comes in |
| SpiMaster.StartedAtMost | bsp/drivers/spi/qm_spi.c:157-236 | frames in both FIFOs and the shift register are the frames written and not yet read |
| SpiMaster.HardwareKeeps | bsp/drivers/spi/qm_spi.c:157-402 | no step of the controller breaks the invariant, and each makes progress |
| SpiMaster.OverflowsIff | bsp/drivers/spi/qm_spi.c:222-223 | some run of a transfer overflows the RX FIFO exactly if the RX level is read before the TX level and there are more frames than the FIFO holds |
| SpiMaster.RxFirstOverflows | bsp/drivers/spi/qm_spi.c:222-223 | such a run from the start of every such transfer, for any frames |
| SpiMaster.DoAllKeepsSound | bsp/drivers/spi/qm_spi.c:157-236 | otherwise no interleaving of the driver's accesses with the controller's steps breaks the invariant |
| SpiMaster.FramesMove | bsp/drivers/spi/qm_spi.c:157-236 | an access moves a frame from the RX FIFO to the buffer, or from the buffer to the TX FIFO, in order, and the TX threshold falls with the last |
| SpiMaster.PutOrLeave | bsp/drivers/spi/qm_spi.c:218-236 | the writing loop either goes on or ends, as the frames computed and the frames left say |
| SpiMaster.NeverStalls | bsp/drivers/spi/qm_spi.c:364-402 | with the transfer unfinished and the controller at rest, an interrupt is raised whose handler has something to do |
| SpiMaster.DriverIsWoken | bsp/drivers/spi/qm_spi.c:364-402 | from any state under way, whatever the slave sends, the controller comes to rest with such an interrupt raised |
| SpiMaster.DeliversAll | bsp/drivers/spi/qm_spi.c:157-202 | when the transfer is over, frame i received is at position i |
| SpiMaster.Master.HandleRx | bsp/drivers/spi/qm_spi.c:157-202 | frames stored in order, the interrupt masked after the last, the threshold kept below the frames left |
| SpiMaster.Master.FramesToWrite | bsp/drivers/spi/qm_spi.c:222-223 | the number computed from the two levels, in the order compiled in, is one that fits |
| SpiMaster.Master.HandleTx | bsp/drivers/spi/qm_spi.c:210-236 | how many frames are written, in order and never more than fit; the threshold lowered after the last |
| SpiMaster.Master.Isr | bsp/drivers/spi/qm_spi.c:364-402 | the handler keeps the invariant and makes progress when the controller rests |
| SpiMaster.Master.IrqTransfer | bsp/drivers/spi/qm_spi.c:664-739 | a transfer starts with its thresholds set; buffers of different lengths are refused |
| SpiMaster.Master.FairRun | bsp/drivers/spi/qm_spi.c:364-402 | in full-duplex mode, with the TX level read first or no more than 8 frames, every fair run ends with exactly one report and a full buffer |
| UsbControl.ControlEndpoint.TransmitData | bsp/usb/usb_device.c:166-176 | the new state in full: the next packet, its size, bytes skipped when the write fails |
| UsbControl.TransmittedKeeps | bsp/usb/usb_device.c:166-176 | packets sent, bytes skipped and bytes left stay what is due, and with room for whole packets the packets stay those the answer divides into |
| UsbControl.ControlEndpoint.HandleSetupPacket | bsp/usb/usb_device.c:181-220 | the new state in full, also when the packet cannot be read or the handler refuses |
| UsbControl.SetupStarts | bsp/usb/usb_device.c:181-220 | a SETUP packet opens a stage of its own direction, in a state given in full; the answer due is the first min(offered, wLength) bytes |
| UsbControl.SetupForgets | bsp/usb/usb_device.c:181-220 | and nothing that went on before has any effect on what follows, but that a stall stays |
| UsbControl.ControlEndpoint.HandleOutControlTransfer | bsp/usb/usb_device.c:225-270 | the new state in full, in every stage: what is written where, and when the handler is called |
| UsbControl.OutFills | bsp/usb/usb_device.c:225-270 | in an OUT stage packets fill the store contiguously and never past its size; the handler is called exactly when the count reaches zero |
| UsbControl.OutSpares | bsp/usb/usb_device.c:238-260 | in an IN stage an OUT packet leaves the answer what is due exactly if it carries no data, cannot be read, or comes when nothing is left |
| UsbControl.OutIgnored | bsp/usb/usb_device.c:238-268 | in every stage, an OUT packet that nothing awaits has no effect, and one that cannot be read stalls the endpoint and does nothing else |
| UsbControl.WholeDataOut | bsp/usb/usb_device.c:238-260 | however the data is divided, the handler runs once and is shown it in order |
| UsbControl.PartOfDataOut | bsp/usb/usb_device.c:238-260 | while bytes are missing the handler is not called, and what has come is in the store |
| UsbControl.ControlEndpoint.HandleInControlTransfer | bsp/usb/usb_device.c:275-288 | the new state in full, in every stage: the next packet if bytes are left, nothing otherwise |
| UsbControl.InSpares | bsp/usb/usb_device.c:275-288 | an IN completion keeps the answer of an IN stage what is due; an OUT stage goes on filling its store exactly if it waits for no data |
| UsbControl.WholeDataIn | bsp/usb/usb_device.c:275-288 | with no failed write the IN packets concatenate to what is due, each at most the packet size; with room for whole packets they are those the answer divides into, and the last is short exactly if its length is not a positive multiple of the packet size |
| UsbControl.CompleteIff | bsp/usb/usb_device.c:166-176 | the packets come to what is due exactly if no write that carried bytes failed |
| UsbControl.EndsShort | bsp/usb/usb_device.c:284-287 | the packets of an answer, as `WholeDataIn` sends them, end with a short one exactly if its length is not a positive multiple of the packet size |
| TrimSearch.TrimCompute | bsp/bootloader/bootstrap/boot_clk.c:101-135 | for any measured speed the search ends where the code is not too fast and the next one is |
| TrimSearch.Targets | bsp/bootloader/bootstrap/boot_clk.c:46-49 | the speed looked for in each of the four modes |
| TrimSearch.GreatestCode | bsp/bootloader/bootstrap/boot_clk.c:90-135 | for a non-decreasing speed that is the greatest code not too fast, or zero if there is none |
| TrimSearch.OneCrossing | bsp/bootloader/bootstrap/boot_clk.c:90-135 | and there is only one such code |

## Left out

- BlDataCrash.ProvisioningCut: for flags compiled in that are all consistent, as those of `DefaultGeometry` are; provisioning with an inconsistent partition would also erase.
- BlDataCrash.NeverLost: an erase torn by a power failure is assumed to leave a record page unchanged or not intact; half-erased bits that read as another intact record are not modelled.
- I2cMaster.Master.FairRun: aborts by the slave, arbitration loss and the error callbacks they make are not modelled; the two overflow branches are shown to be out of reach instead.
- I2cMaster.Master.MasterIrqTransfer: a transfer started before the one before has been reported is not modelled.
- SpiMaster.Master.IrqTransfer: a transfer started on a controller that is not at rest is not modelled.
- SpiMaster.Master.FairRun: only the full-duplex mode; transmit-only, receive-only and EEPROM-read modes, 3-byte frames and the byte layout of frames are not modelled.
- DmaMultiblock.Channel.RunLinear: all buffers are configured before the start, and an interrupt is serviced for every block before the next one ends.
- One-time-programmable flash, the D2000 and single-bank layouts, prefetch flushing and busy-waiting.
- Flash page numbers past the last page, which the driver's check lets through by one, are requests without effect.
- The bounded polling while the I2C controller shuts down: it is taken to shut down after the byte in flight.
- Client callbacks that call back into the driver they come from.
- The tx and rx buffers of a transfer are taken not to overlap.
- DMA error interrupts, termination of a running channel, and single-block transfers.
- Reconfiguring a mailbox channel while messages are on their way, and a read nested in another read of the same channel.
- USB descriptors, standard requests, class handlers and the stalling of other endpoints; handlers are parameters.
- Trim registers and timestamp reading: the measured speed is a function of the trim code.
- Firmware image verification (HMAC), the sensor subsystem drivers, UART, GPIO and the other peripherals.
