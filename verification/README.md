# Remote FPGA flash server: verified model

The firmware in `Project/` turns an STM32F107 into a TCP server that writes and reads the configuration flash of an
FPGA board. It takes command frames from lwIP, drives an SPI NOR flash by bit-banging, keeps its own configuration
and the length of the uploaded file in on-chip flash, and exchanges Ethernet frames with the DMA through a ring of
descriptors. The repository also carries lwIP's sequential and socket API, which is the concurrent part of the code.
This project models both and proves what they promise, or where a promise does not hold, exactly when it does.

| file | what it models |
|---|---|
| `Bits.dfy` | bytes, bitwise AND, 16-bit storage, little-endian words, byte sums |
| `NorDevice.dfy` | the SPI NOR device: AND-on-program, page latch wrapping at 256 bytes, WEL, WIP; and flat memory |
| `SpiFlash.dfy` | `stm32f107.c` pins and bytes, `drvflash.c` commands, page and sector splitting |
| `ChipFlash.dfy` | `flash.c` records under power loss, the parameter setters, start-up |
| `XvcSession.dfy`, `XvcServer.dfy` | the sessions of `XVC_Interface` as functions, and the handler that implements them |
| `XvcClient.dfy` | what a client can rely on: accepted frames, answers on the wire, erase + upload + download |
| `Pbufs.dfy` | lwIP's reference-counted pbuf chains |
| `TcpConnection.dfy` | the connection callbacks of `tcpserver.c`, their record `es` and the pbufs it holds |
| `TcpLifetime.dfy` | how such a connection ends, and what it hands over and acknowledges |
| `RxRing.dfy` | the receive descriptor ring of `ethernetif.c` against the DMA |
| `SelectProtocol.dfy`, `SelectMachine.dfy` | `lwip_select` against `event_callback`: the critical sections, and all their interleavings |
| `SelectCounters.dfy` | what `rcvevent` and `sendevent` are worth over those interleavings, and that reported events wake |
| `AcceptEvents.dfy` | `lwip_accept` against early events |
| `NetconnRequests.dfy` | blocking netconn requests against TCP callbacks |
| `NetconnReports.dfy` | the error codes and events those requests report |
| `RecvStream.dfy` | `lwip_recvfrom` |
| `I2sClock.dfy` | the prescaler of `I2S_Init` |

Code that changes state step by step is a class whose methods are proved equal to a specification function; the
results below are about those functions and about runs that interleave them in any order. Everything another thread,
the TCP core, the hardware or the peer decides is a parameter or an action of the run: send-buffer space, results of
`tcp_write`, `tcp_output`, `tcp_close` and `tcp_connect`, `rcvevent` as seen by a reader, busy times of the flash,
status polls of the on-chip controller, the moment the power fails, success of `pbuf_alloc`, and every DMA write.

One guarantee turned out stronger than needed: that a stored record is never a mix of old and new does not depend on
the checksum word being programmed last, but holds for every subset of programmed half-words (`ChipFlash.NeverAMix`).

## Where the code does not do what is expected of it

- A file whose length is a positive multiple of 896 can be uploaded but its download never ends: with 896 bytes left
  neither branch is taken (`XvcSession.DownloadEnds`, `XvcSession.StuckForever`). Every other stored word ends, also
  the 0xFFFFFFFF of a length that was never written, which announces 4793492 responses.
- A read request that takes no data branch is not refused: the server repeats the data of its last answer, in a good
  frame (`XvcClient.StaleAnswer`). While more than 896 bytes are left the request's number is not looked at
  (`XvcClient.NumberUnchecked`).
- `tcp_server_deal` calls `XVC_Interface` even when it has taken nothing. With length 0 the handler still runs the old
  frame in the buffer exactly when its head is intact and the four bytes in front of the buffer are zero
  (`XvcSession.EmptyFrameAccepted`).
- `tcp_server_deal` copies into 2048 bytes without a check. Its copies stay inside exactly when what it deals with at
  once is at most 2048 bytes (`TcpConnection.CopiesStayInsideExactly`), and two full segments that waited for
  send-buffer space are more (`TcpConnection.OverrunIsReachable`).
- `alloc_socket` raises `sendevent`, and `lwip_accept` adds to `rcvevent`, without `event_callback`. A select that
  already waits on that descriptor is not woken. `SelectMachine.AllocExactly` and `MergeExactly` say exactly when this
  matters; `AllocCanLoseAWakeup` is a run of two steps.
- `event_callback` re-checks `conn->socket` under the lock but goes on with the copy read before, so an event is
  dropped exactly when `lwip_accept` assigns the descriptor between the two reads (`AcceptEvents.DroppedExactly`). The
  comment there says the counter goes "down (or up)"; the code only ever counts down.
- An erroneous receive frame is skipped without returning its descriptor. At most one more round of the ring is ever
  received after it (`RxRing.BadFrameStalls`). A frame length of 4 counts as an error, since `ETH_ERROR` is 0.
- A failed write leaves `write_msg` set, so the "already writing" assertion of `do_write` fails on the next write if
  the error has been cleared in between, as by writing before connecting (`NetconnRequests.AlreadyWritingExactly`,
  `AlreadyWritingCanFail`).
- An immediate error from `tcp_connect` is reported to nobody; the caller waits for `err_tcp` or `do_connected`
  (`NetconnRequests.ConnectWaitsExactly`). After `ERR_VAL` and `ERR_ISCONN` only `err_tcp` can come
  (`RefusedConnectNeedsErr`). After `ERR_MEM`, `tcp_connect` has registered `do_connected` but queued no SYN; that the
  TCP core therefore never calls it is an assumption about the core, which the model does not make.
- `lwip_recvfrom` counts in 16 bits: its result can be trusted exactly when the length passed is below 65536
  (`RecvStream.CountIsExact`); from there on a call can hand out 65536 bytes and return 0 (`RecvStream.CountCanWrap`).
- `I2S_Init` cuts off the scaled clock before it rounds. Against the clock itself its divider is the nearest one except
  exactly when what was cut off reaches the middle between two dividers (`I2sClock.NearestToTheClockExactly`), as for
  11025 Hz from 15523300 Hz (`I2sClock.NextDividerCanBeNearer`).
- The connection callbacks lose track of pbufs when an error, or data after the end, meets an unfinished chain
  (`TcpConnection.LeaksExactly`).

## Model

| member | source | states |
|---|---|---|
| `Bits.SumMonotone` | Project/src/flash.c:136-149 | the byte sum grows with the bytes, strictly unless they are equal |
| `Bits.ErasedTakesData` | Project/src/drvflash.c:65-80 | an erased cell takes any byte exactly |
| `NorDevice.AddressRoundTrip` | Project/src/drvflash.c:55-57 | the three address bytes sent decode to the address modulo 2^24 |
| `NorDevice.PageIsFlat` | Project/src/drvflash.c:65-80 | a page program that stays in its 256-byte page is a write to flat memory; the device itself wraps |
| `NorDevice.FlatSplit` | Project/src/drvflash.c:104-106 | writing two adjacent pieces is writing their concatenation |
| `NorDevice.FlatCells` | Project/src/drvflash.c:90-113 | a write leaves old AND data inside its range and everything else unchanged |
| `NorDevice.ReadWhatWasWritten` | Project/src/drvflash.c:49-63 | data written to erased cells reads back unchanged, for every address and length |
| `SpiFlash.BitsMakeByte` | Project/src/stm32f107.c:349-367 | eight bits, most significant first, are the byte |
| `SpiFlash.PrefixStep` | Project/src/stm32f107.c:369-385 | shifting in the next bit extends the received prefix without loss |
| `SpiFlash.NeverCrossesPage` | Project/src/drvflash.c:90-113 | no page program of a split write crosses a 256-byte boundary |
| `SpiFlash.PagesSplit` | Project/src/drvflash.c:115-144 | cutting a write at any page boundary first gives the same page programs |
| `SpiFlash.FirstPage` | Project/src/drvflash.c:93-111 | the page programs of a write are its first page and those of the rest |
| `SpiFlash.PagesAreTheData` | Project/src/drvflash.c:90-113 | the page programs of any write are its data from the first address on without gap, every one but the first on a page boundary, none above 256 bytes or empty next to others |
| `SpiFlash.Board.SckLow` | Project/src/stm32f107.c:374 | on a falling clock the device presents its next output bit |
| `SpiFlash.Board.SckHigh` | Project/src/stm32f107.c:365 | on a rising clock the device samples MOSI; the eighth edge completes a byte |
| `SpiFlash.Board.SpiSoftInit` | Project/src/stm32f107.c:343-348 | leaves the bus idle and the device untouched |
| `SpiFlash.Board.SpiWriteByte` | Project/src/stm32f107.c:349-367 | eight clocks hand exactly the byte to the device |
| `SpiFlash.Board.SpiReadByte` | Project/src/stm32f107.c:369-385 | eight clocks return exactly the byte the device presents |
| `SpiFlash.Board.FlashWriteEnable` | Project/src/drvflash.c:18-23 | the device executes exactly one write-enable command |
| `SpiFlash.Board.FlashReadSR` | Project/src/drvflash.c:32-40 | one status poll; the low bit says whether the device is busy |
| `SpiFlash.Board.FlashWaitBusy` | Project/src/drvflash.c:84-88 | terminates with the device idle and nothing else changed |
| `SpiFlash.Board.FlashReadSomeByte` | Project/src/drvflash.c:49-63 | byte i is the array at (address + i) mod 2^24, the rest of the buffer and the device are unchanged |
| `SpiFlash.Board.ReadPhase` | Project/src/drvflash.c:54-61 | the k-th byte shifted out after the address is the k-th byte behind it |
| `SpiFlash.Board.FlashWritePage` | Project/src/drvflash.c:65-80 | the device sees write enable, then opcode, 24-bit address and data, accepted; inside a page this is a flat write |
| `SpiFlash.Board.PageExecuted` | Project/src/drvflash.c:68-78 | a page program reaching an idle, write-enabled device is executed on the modulo address |
| `SpiFlash.Board.FlashWriteNoCheck` | Project/src/drvflash.c:90-113 | terminates for every address and length, writes flat memory, and issues exactly the page programs of Pages |
| `SpiFlash.Board.FlashWrite` | Project/src/drvflash.c:115-144 | the sector-wise writer issues exactly the same page programs and leaves the same memory |
| `SpiFlash.Board.SectorStep` | Project/src/drvflash.c:121-142 | a cut at a sector boundary is a cut at a page boundary, so the page programs of a sector come first |
| `SpiFlash.Board.FlashEraseChip` | Project/src/drvflash.c:175-182 | write enable, the wait, then an accepted chip erase |
| `ChipFlash.NeverAMix` | Project/src/flash.c:187-246 | whatever subset of half-words of a sealed record is programmed, reading yields the whole record exactly when all are, else FLASH_CHK_ERR |
| `ChipFlash.ChecksumHalves` | Project/src/flash.c:230-235 | a checksum word with an unprogrammed half exceeds every possible sum |
| `ChipFlash.OnlyWholeRecords` | Project/src/flash.c:187-246 | after any history of interrupted or complete stores only the first record or a stored one, whole, can be read |
| `ChipFlash.ReadableExactly` | Project/src/flash.c:230-241 | a page is read as a record if and only if the checksum word is the byte sum and the head and tail bytes are those of a record |
| `ChipFlash.RebootShowsParameters` | Project/src/stm32f107.c:510-532 | after a completed PARA_SET a reboot configures exactly the commanded address, MAC and port |
| `ChipFlash.SyncedFields` | Project/src/stm32f107.c:510-532 | each field is taken over if and only if its own validity word is set, else the built-in value stays |
| `ChipFlash.StoppedEarly` | Project/src/tcpserver.c:468-486 | a PARA_SET that stops behind its first or second record leaves the later fields as the old record or the built-in values have them |
| `ChipFlash.OneFieldOnly` | Project/src/tcpserver.c:594-638 | a setter changes its field, its validity word, head, tail and checksum, and no other byte |
| `ChipFlash.CntRoundTrip` | Project/src/flash.c:155-177 | a stored file length reads back, for every 32-bit value |
| `ChipFlash.Store.ProgramWord` | Project/src/flash.c:91-93 | a word is two half-words; any part may be missing when power or the controller fails |
| `ChipFlash.Store.WaitFlags` | Project/src/flash.c:36-57 | BSY must clear and then EOP appear within 0x50000 polls each |
| `ChipFlash.Store.FmcEraseBlk1Pages` | Project/src/flash.c:21-70 | the page is blank if the erase ran, else untouched; success exactly when both flags come in time |
| `ChipFlash.Store.FmcProgramBlk1Pages` | Project/src/flash.c:79-128 | from a blank page every half-word is the image's or blank, all are programmed if nothing fails; success exactly when every word's flags come in time, and nothing is written behind the first word whose flags do not; other pages are untouched |
| `ChipFlash.Store.WriteIpInfo` | Project/src/flash.c:187-207 | the page is untouched or torn towards the new sealed record, untouched or blank if the erase is not seen to end; success exactly when all flags of the erase and the 28 words come in time |
| `ChipFlash.Store.IpaddrSet` | Project/src/tcpserver.c:594-609 | address field and validity word updated, record sealed and stored |
| `ChipFlash.Store.MacaddrSet` | Project/src/tcpserver.c:611-624 | the same for the MAC field |
| `ChipFlash.Store.PortSet` | Project/src/tcpserver.c:625-638 | the same for the port field |
| `ChipFlash.Store.ParaSet` | Project/src/tcpserver.c:468-486 | succeeds exactly when all three stores do, and the RAM image says which were begun; wherever it stops, a later read gives the old record, an error, or one of the three records it passes through; success with power left leaves the last record or an error, undisturbed success the record; the next start-up then runs with the commanded values, or after an error with the built-in ones |
| `ChipFlash.Store.CheckSumFun` | Project/src/flash.c:136-149 | computes the byte sum |
| `ChipFlash.Store.ReadIpInfo` | Project/src/flash.c:214-246 | returns the page's record exactly if checksum, head and tail hold |
| `ChipFlash.Store.SyncIpInfo` | Project/src/stm32f107.c:510-532 | valid fields of a readable record are taken over, an unreadable one leaves the built-in values |
| `ChipFlash.Store.WriteCntInfo` | Project/src/flash.c:155-166 | stores the length word, or leaves it untouched or torn; success exactly when all flags come in time |
| `ChipFlash.Store.ReadCntInfo` | Project/src/flash.c:172-177 | returns the one 32-bit number whose bytes the page holds: what was stored last, and 0xFFFFFFFF from a blank page |
| `XvcSession.UploadWritesFlat` | Project/src/tcpserver.c:393-398 | uploading chunks of 1 to 888 bytes writes their concatenation to consecutive addresses |
| `XvcSession.AnnouncedCount` | Project/src/tcpserver.c:424-427 | the announced number of responses is T/896 + 2, and 1 for T = 0, unless T is a positive multiple of 896 |
| `XvcSession.DownloadRest` | Project/src/tcpserver.c:431-449 | that many requests deliver exactly the remaining bytes and close the session, for every length and address |
| `XvcSession.DownloadStaysOpen` | Project/src/tcpserver.c:431-449 | fewer requests leave it open |
| `XvcSession.StuckForever` | Project/src/tcpserver.c:431-449 | from a positive multiple of 896 every sequence of requests stays in the session, and reaches and keeps 896 |
| `XvcSession.DownloadEnds` | Project/src/tcpserver.c:415-449 | for every stored word, a session can end if and only if it is 0 or not a multiple of 896, and then after exactly the announced number |
| `XvcSession.RspPayload` | Project/src/tcpserver.c:450-455 | the client finds in a response exactly the data put into the buffer |
| `XvcSession.StepReadData` | Project/src/tcpserver.c:429-455 | a request that takes a data branch is answered with exactly that piece |
| `XvcSession.FrameFields` | Project/src/tcpserver.c:363-371 | a client frame is accepted and its fields decode to what was put in |
| `XvcSession.HandleWrite` | Project/src/tcpserver.c:383-414 | a write frame is decoded to exactly its chunk and answered |
| `XvcSession.HandleRead` | Project/src/tcpserver.c:415-456 | a read frame is decoded to exactly its request number |
| `XvcSession.HandleAtFrame` | Project/src/tcpserver.c:365-371 | a complete frame is handled the same whatever else is in the buffer and in front of it |
| `XvcSession.EmptyFrameAccepted` | Project/src/tcpserver.c:365-371 | exactly when a call with length 0 is taken for a frame |
| `XvcSession.HandleValid` | Project/src/tcpserver.c:354-502 | every handled frame leaves a usable session |
| `XvcSession.ServeIsUploaded` | Project/src/tcpserver.c:383-414 | serving upload frames is uploading their chunks |
| `XvcSession.ServeIsDownload` | Project/src/tcpserver.c:415-456 | serving read frames is the download, with the same data |
| `XvcSession.UploadLeaves` | Project/src/tcpserver.c:383-405 | upload and terminator leave the file in the array, its length stored and the session at rest |
| `XvcSession.DownloadReturns` | Project/src/tcpserver.c:415-456 | the announced number of read frames returns the stored bytes and restores the session |
| `XvcSession.UploadThenDownload` | Project/src/tcpserver.c:383-456 | on erased flash, upload in any chunks then download is the identity, for every length that is 0 or not a multiple of 896 |
| `XvcServer.Server.CheckSum` | Project/src/tcpserver.c:570-579 | computes the byte sum of the buffer |
| `XvcServer.Server.HandleWriteCmd` | Project/src/tcpserver.c:383-414 | the handler does what Written says to session, flash and store |
| `XvcServer.Server.StartRead` | Project/src/tcpserver.c:416-428 | the first read fetches the length and announces the responses |
| `XvcServer.Server.FillResponse` | Project/src/tcpserver.c:431-449 | the data branches, in place in the send buffer |
| `XvcServer.Server.CloseResponse` | Project/src/tcpserver.c:450-454 | tail word and checksum land behind the data |
| `XvcServer.Server.HandleReadCmd` | Project/src/tcpserver.c:415-456 | the response and the new state are those of StepRead |
| `XvcServer.Server.XvcInterface` | Project/src/tcpserver.c:354-502 | for every buffer content and every length, 0 included, the handler does, down to the pins, what HandleAt says; what is rejected changes nothing; an accepted erase leaves every cell at 255 |
| `XvcClient.OnlyFlashCommandsAct` | Project/src/tcpserver.c:368-383 | a wrong head or checksum has no effect and no answer; only erase, write and read change the session |
| `XvcClient.DamageIsNoticed` | Project/src/tcpserver.c:368-371 | changing any single byte of an accepted frame makes it rejected |
| `XvcClient.ReadAnswer` | Project/src/tcpserver.c:429-455 | every answer to a read is a good frame: head, command, a size that fits, tail, and the byte sum of all before it |
| `XvcClient.WriteAnswer` | Project/src/tcpserver.c:407-414 | so is the answer to a write, and it says 1 |
| `XvcClient.StaleAnswer` | Project/src/tcpserver.c:431-455 | a request that takes no data branch changes nothing and is answered with the data of the last answer |
| `XvcClient.NumberUnchecked` | Project/src/tcpserver.c:431-437 | with more than 896 bytes left the request's number makes no difference |
| `XvcClient.Announcement` | Project/src/tcpserver.c:416-428 | the first read announces one answer per piece of up to 896 bytes and one more, for every length |
| `XvcClient.EraseErases` | Project/src/tcpserver.c:373-382 | an erase frame leaves every cell at 255 and the rest of the session as it was, without an answer |
| `XvcClient.EraseUploadDownload` | Project/src/tcpserver.c:354-456 | from any array, erase, upload in any chunks and download give the file back, and leave the file and 255 everywhere else |
| `Pbufs.FreedRefsAt` | Utilities/lwip-1.3.1/src/core/pbuf.c:520-556 | pbuf_free deallocates the leading pbufs with one reference, takes one off the next, and leaves the rest |
| `TcpConnection.InvStep` | Project/src/tcpserver.c:77-293 | a registered callback always finds an es that has not been freed, and every callback keeps it so |
| `TcpConnection.FreedAtMostOnce` | Project/src/tcpserver.c:77-293 | in every run of registered callbacks each is given its es, none gets one that has been freed, es is freed at most once, and every pbuf is held, freed or leaked |
| `TcpConnection.ClosingIsFinal` | Project/src/tcpserver.c:120-198 | a connection never leaves ES_CLOSING |
| `TcpConnection.ClosedOnlyWhenEmpty` | Project/src/tcpserver.c:226-293 | exactly which callback frees es; except for an error only with no pbuf waiting and in ES_CLOSING |
| `TcpConnection.LeaksExactly` | Project/src/tcpserver.c:145-198 | a callback loses pbufs if and only if it is an error, or data with an error or after the end, while a chain is waiting |
| `TcpConnection.DealtKeepsBytes` | Project/src/tcpserver.c:295-334 | bytes handed on and bytes still in the chain are together what they were, and bytes handed on are acknowledged |
| `TcpConnection.StreamReachesServer` | Project/src/tcpserver.c:120-334 | over any run without error or overrun everything that arrives reaches XVC_Interface in order or waits in the chain, and exactly that is acknowledged |
| `TcpConnection.CopiesStayInsideExactly` | Project/src/tcpserver.c:295-305 | the copies of a call stay inside tcp_recvbuf if and only if what it deals with is at most 2048 bytes |
| `TcpConnection.OverrunIsReachable` | Project/src/tcpserver.c:295-305 | a run after which the next callback copies 2920 bytes |
| `TcpLifetime.ClosingExactly` | Project/src/tcpserver.c:120-198 | in every run the state is ES_CLOSING if and only if the peer has closed |
| `TcpLifetime.ClosesWhenEmpty` | Project/src/tcpserver.c:126-144 | after the peer has closed, a callback frees es and clears all registrations if and only if it finds no pbuf waiting |
| `TcpLifetime.DrainsThenCloses` | Project/src/tcpserver.c:201-271 | a closing connection is gone two callbacks after the send buffer has room |
| `TcpLifetime.HandsOverExactly` | Project/src/tcpserver.c:295-334 | a callback that deals hands over one frame, the maximal run of pbufs that fit, and acknowledges it; the others hand over nothing |
| `TcpLifetime.AcknowledgedExactly` | Project/src/tcpserver.c:120-334 | over every run, failures included, acknowledged are exactly the bytes handed over and those trashed after the end |
| `Pbufs.PbufFree` | Utilities/lwip-1.3.1/src/core/pbuf.c:497-563 | the loop computes those counts, deallocates each pbuf once, and counts in eight bits |
| `Pbufs.PbufRef` | Utilities/lwip-1.3.1/src/core/pbuf.c:591-601 | one more reference |
| `Pbufs.PbufCat` | Utilities/lwip-1.3.1/src/core/pbuf.c:613-635 | the second chain follows the first, whose 16-bit lengths grow by its length |
| `Pbufs.PbufChain` | Utilities/lwip-1.3.1/src/core/pbuf.c:654-662 | its head has one more reference, and every length is that of the chain from there on |
| `Pbufs.FreeUntilGone` | Project/src/tcpserver.c:324-327 | the do-while deallocates the first pbuf once whatever its count, and takes one reference off the next |
| `Pbufs.FreeFirst` | Project/src/tcpserver.c:315-327 | the rest of the chain keeps its original counts |
| `TcpConnection.DealRound` | Project/src/tcpserver.c:299-332 | a turn of the loop consumes the next pbuf of the maximal prefix that fits |
| `TcpConnection.Connection.DealOne` | Project/src/tcpserver.c:300-331 | copies the first pbuf, deallocates it once, and acknowledges exactly its length |
| `TcpConnection.Connection.TcpServerDeal` | Project/src/tcpserver.c:295-334 | consumes exactly the maximal prefix, each pbuf once, the rest alive, acknowledges its bytes and hands them on in order; says exactly when they exceed the buffer |
| `TcpConnection.Connection.TcpServerAccept` | Project/src/tcpserver.c:77-119 | registers es and all callbacks, or none without memory |
| `TcpConnection.Connection.TcpServerConnectionClose` | Project/src/tcpserver.c:273-293 | all five registrations removed and es freed, which requires that it had not been |
| `TcpConnection.Connection.TcpServerReceive` | Project/src/tcpserver.c:145-198 | data, data with an error and data after the end, as the specification says, the last acknowledged by tot_len |
| `TcpConnection.Connection.TcpServerReceiveNull` | Project/src/tcpserver.c:126-144 | the state is ES_CLOSING whatever waits; es is freed and deregistered exactly when nothing does, else the chain is dealt with |
| `TcpConnection.Connection.TcpServerSent` | Project/src/tcpserver.c:201-224 | resumes or closes |
| `TcpConnection.Connection.TcpServerPoll` | Project/src/tcpserver.c:239-271 | resumes or closes; aborts without an es |
| `TcpConnection.Connection.TcpServerError` | Project/src/tcpserver.c:226-238 | frees es and nothing attached to it |
| `TcpConnection.Connection.Discard` | Project/src/tcpserver.c:145-151 | a new chain is freed whole, each pbuf once, and the old one forgotten |
| `RxRing.SameSlot` | Utilities/lwip-1.3.1/port/ethernetif.c:415-419 | two frames less than n apart never share a descriptor |
| `RxRing.AtDma` | Utilities/lwip-1.3.1/port/ethernetif.c:262-274 | the descriptor the DMA comes to was last used n frames ago |
| `RxRing.AtCpu` | Utilities/lwip-1.3.1/port/ethernetif.c:380-420 | a filled descriptor holds the awaited frame, or an erroneous one met before |
| `RxRing.InvStep` | Utilities/lwip-1.3.1/port/ethernetif.c:231-278 | every step of DMA or driver keeps ownership, contents and order |
| `RxRing.RunInv` | Utilities/lwip-1.3.1/port/ethernetif.c:231-278 | so does every run, good and erroneous frames alike |
| `RxRing.GoodRunIsFifo` | Utilities/lwip-1.3.1/port/ethernetif.c:231-310 | with good frames the ring is a FIFO: DMA order, each once, only frames without a pbuf missing, any ring size |
| `RxRing.DriverOwnsWhatItReads` | Utilities/lwip-1.3.1/port/ethernetif.c:247-259 | the driver reads a buffer only while OWN is clear, and it holds the frame |
| `RxRing.NothingIsOverlooked` | Utilities/lwip-1.3.1/port/ethernetif.c:374-424 | a driver that is behind finds the next frame |
| `RxRing.DmaCanGoOnExactly` | Utilities/lwip-1.3.1/port/ethernetif.c:241-263 | once the driver has caught up, reception can go on if and only if the frame n places back was good |
| `RxRing.BadFrameStalls` | Utilities/lwip-1.3.1/port/ethernetif.c:241-244 | after an erroneous frame at most n - 1 more are ever received |
| `RxRing.SkippedExactly` | Utilities/lwip-1.3.1/port/ethernetif.c:398-411 | over every run a frame is skipped if and only if ES is set, FS or LS is missing, or its length is 4 |
| `RxRing.FetchTakesNext` | Utilities/lwip-1.3.1/port/ethernetif.c:374-424 | a driver that is behind takes the next frame, without its CRC if it is acceptable |
| `RxRing.ReleaseDelivers` | Utilities/lwip-1.3.1/port/ethernetif.c:247-275 | exactly the frame's data without CRC are delivered, OWN goes back to the DMA and reception is not suspended |
| `RxRing.GoodRunGoesOn` | Utilities/lwip-1.3.1/port/ethernetif.c:380-394 | with acceptable frames the DMA can always go on after a poll that finds nothing |
| `RxRing.ChainHoldsFrame` | Utilities/lwip-1.3.1/port/ethernetif.c:252-259 | the pbufs of any chain hold the frame's bytes in order |
| `RxRing.EthDriver.constructor` | Utilities/lwip-1.3.1/port/ethernetif.c:163 | a closed ring, all of it the DMA's |
| `RxRing.EthDriver.EthRxPktChainMode` | Utilities/lwip-1.3.1/port/ethernetif.c:374-424 | the fetch of the specification; length 0 for nothing or an error |
| `RxRing.EthDriver.LowLevelInput` | Utilities/lwip-1.3.1/port/ethernetif.c:231-278 | on the status bits: nothing for an owned descriptor, no release after an error, and else the frame without its CRC, the descriptor given back even without a pbuf, and reception resumed |
| `SelectProtocol.WithoutMembers` | Utilities/lwip-1.3.1/src/api/sockets.c:973-981 | unlinking removes exactly that select and keeps the others |
| `SelectProtocol.UnlinkedList` | Utilities/lwip-1.3.1/src/api/sockets.c:976-980 | bypassing an entry leaves a well-formed linked list |
| `SelectProtocol.SocketLayer.LwipSelscan` | Utilities/lwip-1.3.1/src/api/sockets.c:842-880 | the sets become exactly the ready descriptors, and their number is returned |
| `SelectProtocol.SocketLayer.SelectEnter` | Utilities/lwip-1.3.1/src/api/sockets.c:908-957 | joins the list exactly when nothing is ready and blocking is allowed |
| `SelectProtocol.SocketLayer.SelectLeave` | Utilities/lwip-1.3.1/src/api/sockets.c:971-983 | takes exactly this select off the list, wherever it is |
| `SelectProtocol.SocketLayer.SelectResult` | Utilities/lwip-1.3.1/src/api/sockets.c:986-1027 | nothing after a timeout, and after a signal exactly the ready descriptors |
| `SelectProtocol.SocketLayer.AllocSocket` | Utilities/lwip-1.3.1/src/api/sockets.c:215-240 | takes the lowest free descriptor, or fails when there is none |
| `SelectProtocol.SocketLayer.EventUpdate` | Utilities/lwip-1.3.1/src/api/sockets.c:1073-1092 | RCVPLUS adds one to rcvevent and RCVMINUS takes one off, in 16 bits; SENDPLUS sets and SENDMINUS clears sendevent; nothing else changes |
| `SelectProtocol.SocketLayer.EventPass` | Utilities/lwip-1.3.1/src/api/sockets.c:1102-1121 | one pass signals the first eligible select or ends the loop |
| `SelectProtocol.SocketLayer.EventCallback` | Utilities/lwip-1.3.1/src/api/sockets.c:1073-1123 | undisturbed, it terminates and signals every eligible select exactly once |
| `SelectProtocol.DrainStep` | Utilities/lwip-1.3.1/src/api/sockets.c:1101-1122 | signalling the first eligible select again and again is signalling all of them |
| `SelectMachine.IntegrityStep` | Utilities/lwip-1.3.1/src/api/sockets.c:945-985 | every step keeps the list free of duplicates, holding exactly the selects between enqueue and unlink, each signalled at most once |
| `SelectMachine.SignalIsSafe` | Utilities/lwip-1.3.1/src/api/sockets.c:1101-1122 | a signal goes to a listed select whose semaphore exists and has not been signalled, and which waits for what the socket has |
| `SelectMachine.NoLostWakeupStep` | Utilities/lwip-1.3.1/src/api/sockets.c:908-983 | every harmless step keeps: a select that is due has a callback still scanning for its socket |
| `SelectMachine.RunIntegrity` | Utilities/lwip-1.3.1/src/api/sockets.c:945-985 | list integrity at every point of every run |
| `SelectMachine.RunLosesNoWakeup` | Utilities/lwip-1.3.1/src/api/sockets.c:1073-1122 | no wake-up is lost at any point of any run of harmless steps |
| `SelectMachine.QuietMeansSignalled` | Utilities/lwip-1.3.1/src/api/sockets.c:1101-1122 | when no callback is scanning, every listed select with an event has its one signal and can wake |
| `SelectMachine.AllocExactly` | Utilities/lwip-1.3.1/src/api/sockets.c:224-236 | setting up a socket keeps the guarantee if and only if a callback is scanning or nobody waits to write there |
| `SelectMachine.MergeExactly` | Utilities/lwip-1.3.1/src/api/sockets.c:312-320 | adding early events keeps it if and only if a callback is scanning, none result, or nobody waits to read there |
| `SelectMachine.AllocCanLoseAWakeup` | Utilities/lwip-1.3.1/src/api/sockets.c:224-236 | a two-step run that loses a wake-up |
| `SelectCounters.CountersExact` | Utilities/lwip-1.3.1/src/api/sockets.c:1073-1092 | over every run rcvevent is, in 16 bits, RCVPLUS minus RCVMINUS since the descriptor was set up plus the early events moved in, and sendevent the latest of set-up, SENDPLUS and SENDMINUS |
| `SelectCounters.LoopLeavesNone` | Utilities/lwip-1.3.1/src/api/sockets.c:1101-1122 | a callback leaves its loop only when every listed select the socket has something for has had its one signal |
| `SelectCounters.ReceivedDataWakes` | Utilities/lwip-1.3.1/src/api/sockets.c:1073-1122 | when the callback of a RCVPLUS is over, and the counter was not negative, did not overflow and was not lowered meanwhile, every select listed for reading the socket has been signalled, once |
| `SelectCounters.SendSpaceWakes` | Utilities/lwip-1.3.1/src/api/sockets.c:1073-1122 | likewise for SENDPLUS, if no SENDMINUS came meanwhile, and selects listed for writing |
| `AcceptEvents.InvStep` | Utilities/lwip-1.3.1/src/api/sockets.c:1046-1092 | every step keeps the accounting of events below |
| `AcceptEvents.EventsSurviveAccept` | Utilities/lwip-1.3.1/src/api/sockets.c:312-320 | before the descriptor exists conn->socket is -1 minus the RCVPLUS events; afterwards rcvevent is the balance of all traced events |
| `AcceptEvents.AcceptedCountExact` | Utilities/lwip-1.3.1/src/api/sockets.c:1046-1092 | it is the balance of all events if and only if the untraced ones cancel modulo 65536 |
| `AcceptEvents.FinishedOnceAssigned` | Utilities/lwip-1.3.1/src/api/sockets.c:319 | conn->socket is non-negative exactly once lwip_accept has assigned it |
| `AcceptEvents.DroppedExactly` | Utilities/lwip-1.3.1/src/api/sockets.c:1047-1068 | an event is dropped if and only if the assignment falls between the unlocked read and the re-check |
| `AcceptEvents.AnEventCanBeDropped` | Utilities/lwip-1.3.1/src/api/sockets.c:1047-1068 | a run that drops its only event |
| `AcceptEvents.AcceptInOneGo` | Utilities/lwip-1.3.1/src/api/sockets.c:303-320 | the steps of lwip_accept together move the count into rcvevent and set the descriptor |
| `AcceptEvents.Netconn.constructor` | Utilities/lwip-1.3.1/src/api/api_msg.c:538-540 | a new netconn has socket -1 |
| `AcceptEvents.CountEarly` | Utilities/lwip-1.3.1/src/api/sockets.c:1054-1062 | counts an early RCVPLUS, or finds the descriptor assigned |
| `AcceptEvents.AcceptTail` | Utilities/lwip-1.3.1/src/api/sockets.c:303-320 | lowest free descriptor, early events moved into its rcvevent; -1 and no change when all are taken |
| `NetconnRequests.WriteMoreKeeps` | Utilities/lwip-1.3.1/src/api/api_msg.c:960-1041 | the bytes accepted are the data up to the offset; a write ends only complete or with an error |
| `NetconnRequests.CountedStep` | Utilities/lwip-1.3.1/src/api/api_msg.c:291-323 | requests issued equal signals plus the one in progress, and a waiting request keeps its callbacks |
| `NetconnRequests.ReleasedExactly` | Utilities/lwip-1.3.1/src/api/api_msg.c:236-323 | exactly which callback releases a waiting request, and that it is then in NETCONN_NONE |
| `NetconnRequests.InvStep` | Utilities/lwip-1.3.1/src/api/api_msg.c:236-323 | every request and callback keeps all of this |
| `NetconnRequests.RunInv` | Utilities/lwip-1.3.1/src/api/api_msg.c:960-1041 | at every point of every run the stream is the ended writes in order and the current one up to its offset |
| `NetconnRequests.OneReleasePerRequest` | Utilities/lwip-1.3.1/src/api/api_msg.c:606-1084 | between two requests op_completed is signalled at most once, and exactly when the state is NETCONN_NONE again |
| `NetconnRequests.WritesLoseNothing` | Utilities/lwip-1.3.1/src/api/api_msg.c:960-1041 | without errors the bytes accepted by tcp_write are exactly all data of all writes, in order |
| `NetconnRequests.WriteCompletes` | Utilities/lwip-1.3.1/src/api/api_msg.c:960-1041 | with buffer space a write of n bytes is complete and released after at most n callbacks |
| `NetconnRequests.DeletedIsUnreachable` | Utilities/lwip-1.3.1/src/api/api_msg.c:606-696 | after netconn_delete is released the pcb is gone and no callback can come |
| `NetconnRequests.ConnectWaitsExactly` | Utilities/lwip-1.3.1/src/api/api_msg.c:748-812 | whatever tcp_connect answers, the request is unreleased exactly as long as neither err_tcp nor do_connected is called |
| `NetconnRequests.RefusedConnectNeedsErr` | Utilities/lwip-1.3.1/src/core/tcp.c:505-512 | after ERR_VAL or ERR_ISCONN it is unreleased exactly as long as err_tcp is not called |
| `NetconnRequests.AlreadyWritingExactly` | Utilities/lwip-1.3.1/src/api/api_msg.c:1056-1060 | the assertion in do_write holds if and only if tcp_write did not answer the last attempt of the last write with an error |
| `NetconnRequests.AlreadyWritingCanFail` | Utilities/lwip-1.3.1/src/api/api_msg.c:1056-1060 | a run in which it fails: write, connect, write |
| `NetconnReports.ReleaseReports` | Utilities/lwip-1.3.1/src/api/api_msg.c:606-1155 | over every run, the step that releases the caller leaves in err the code of err_tcp or do_connected, tcp_write's error, tcp_output's answer to a complete write, ERR_OK after a close, or ERR_VAL without a connection |
| `NetconnReports.ErrOtherwise` | Utilities/lwip-1.3.1/src/api/api_msg.c:960-1041 | a step that releases nobody changes err only for a code it was handed |
| `NetconnReports.WriteReportsExactly` | Utilities/lwip-1.3.1/src/api/api_msg.c:960-1084 | a write reports ERR_OK if and only if all its data were accepted and the last tcp_output succeeded |
| `NetconnReports.EventsExact` | Utilities/lwip-1.3.1/src/api/api_msg.c:236-323 | over every run exactly when SENDMINUS, SENDPLUS and RCVPLUS are raised, and in which order |
| `NetconnRequests.Netconn.SetupTcp` | Utilities/lwip-1.3.1/src/api/api_msg.c:331-343 | registers the callbacks |
| `NetconnRequests.Netconn.DoWriteMore` | Utilities/lwip-1.3.1/src/api/api_msg.c:960-1041 | offers min(left, 65535, send buffer) bytes; err becomes the answer of tcp_output, stays after ERR_MEM, and else is the error of tcp_write; signals exactly when the write is over |
| `NetconnRequests.Netconn.DoCloseInternal` | Utilities/lwip-1.3.1/src/api/api_msg.c:606-653 | closes and releases, or restores all callbacks but recv |
| `NetconnRequests.Netconn.DoWrite` | Utilities/lwip-1.3.1/src/api/api_msg.c:1050-1084 | starts a write, or acknowledges at once |
| `NetconnRequests.Netconn.TcpConnect` | Utilities/lwip-1.3.1/src/core/tcp.c:499-552 | registers do_connected unless it refuses, also when it then runs out of memory |
| `NetconnRequests.Netconn.DoConnect` | Utilities/lwip-1.3.1/src/api/api_msg.c:778-812 | starts a connect, whatever tcp_connect answers |
| `NetconnRequests.Netconn.DoConnected` | Utilities/lwip-1.3.1/src/api/api_msg.c:748-768 | releases the connect |
| `NetconnRequests.Netconn.DoClose` | Utilities/lwip-1.3.1/src/api/api_msg.c:1140-1155 | starts a close, or acknowledges with ERR_VAL |
| `NetconnRequests.Netconn.DoDelconn` | Utilities/lwip-1.3.1/src/api/api_msg.c:662-696 | starts the final close, or acknowledges |
| `NetconnRequests.Netconn.PollTcp` | Utilities/lwip-1.3.1/src/api/api_msg.c:236-250 | resumes the request in progress |
| `NetconnRequests.Netconn.SentTcp` | Utilities/lwip-1.3.1/src/api/api_msg.c:260-280 | resumes it and reports space |
| `NetconnRequests.Netconn.RecvTcp` | Utilities/lwip-1.3.1/src/api/api_msg.c:191-222 | stores the error code, and reports the packet if it could be posted |
| `NetconnRequests.Netconn.ErrTcp` | Utilities/lwip-1.3.1/src/api/api_msg.c:291-323 | releases the request in progress, once |
| `RecvStream.ReadSplits` | Utilities/lwip-1.3.1/src/api/sockets.c:490-622 | a TCP read splits the unread remainder exactly into what it hands out and the new remainder |
| `RecvStream.PeekConsumesNothing` | Utilities/lwip-1.3.1/src/api/sockets.c:598-618 | a peek hands out a prefix and leaves the remainder as it is |
| `RecvStream.CountIsExact` | Utilities/lwip-1.3.1/src/api/sockets.c:474-622 | every call with this length reports exactly the bytes it hands out, whatever its flags, data and timing, if and only if the length is below 65536 |
| `RecvStream.CountCanWrap` | Utilities/lwip-1.3.1/src/api/sockets.c:545-547 | for every larger length, a call that hands out 65536 bytes and returns 0 |
| `RecvStream.DatagramRead` | Utilities/lwip-1.3.1/src/api/sockets.c:555-616 | on a datagram socket a read takes one packet, saved or posted, and discards what does not fit |
| `RecvStream.TcpRound` | Utilities/lwip-1.3.1/src/api/sockets.c:529-559 | a round takes what fits of the next packet and is the last exactly when the length is complete, the packet had PUSH, or rcvevent is not positive |
| `RecvStream.ReadGathers` | Utilities/lwip-1.3.1/src/api/sockets.c:490-622 | a read returns the packets up to the first that completes the length, has PUSH or is announced as the last, and leaves the rest of it |
| `RecvStream.ReadEndsEarly` | Utilities/lwip-1.3.1/src/api/sockets.c:498-526 | when packets run out first it returns what it has; with nothing it fails with EWOULDBLOCK or the error, or blocks |
| `RecvStream.PeekShows` | Utilities/lwip-1.3.1/src/api/sockets.c:555-618 | a peek shows the start of one packet and leaves every packet |
| `RecvStream.CallEnds` | Utilities/lwip-1.3.1/src/api/sockets.c:490-622 | a call is over or blocked after at most one round more than there are packets |
| `RecvStream.NonBlockingReturns` | Utilities/lwip-1.3.1/src/api/sockets.c:497-508 | a non-blocking call always returns, if rcvevent is positive only while something is left to fetch |
| `RecvStream.WouldBlockAtOnce` | Utilities/lwip-1.3.1/src/api/sockets.c:497-508 | with nothing saved and rcvevent not positive it answers EWOULDBLOCK at once and changes nothing |
| `RecvStream.WouldBlockExactly` | Utilities/lwip-1.3.1/src/api/sockets.c:497-508 | below 65536 bytes and with no empty packets, a call answers EWOULDBLOCK if and only if that is so |
| `RecvStream.SelectTellsReaders` | Utilities/lwip-1.3.1/src/api/sockets.c:842-857 | select reports a descriptor readable if and only if a non-blocking read of it does not answer EWOULDBLOCK |
| `RecvStream.ReadsDeliverTheStream` | Utilities/lwip-1.3.1/src/api/sockets.c:490-622 | over any calls, lengths, flags and timing, what was read followed by what remains is what there was |
| `RecvStream.PeekedIsReadNext` | Utilities/lwip-1.3.1/src/api/sockets.c:598-618 | what a peek shows is what the next read starts with |
| `RecvStream.CopyPartial` | Utilities/lwip-1.3.1/src/core/pbuf.c:786-822 | copies exactly the asked range of the whole chain, wherever the pbuf borders lie |
| `RecvStream.SocketReader.NetconnRecv` | Utilities/lwip-1.3.1/src/api/api_lib.c:292-360 | the oldest packet, None for a failure or the end, blocked when empty |
| `RecvStream.SocketReader.NextBuffer` | Utilities/lwip-1.3.1/src/api/sockets.c:490-527 | the saved buffer first; without one EWOULDBLOCK or the count so far when not allowed to wait, else the oldest packet, the end, or blocked on the empty mailbox |
| `RecvStream.SocketReader.KeepRest` | Utilities/lwip-1.3.1/src/api/sockets.c:598-617 | lastdata and lastoffset denote exactly what is left |
| `RecvStream.SocketReader.OneRound` | Utilities/lwip-1.3.1/src/api/sockets.c:490-618 | one turn of the loop, with the bytes in the caller's memory |
| `RecvStream.SocketReader.RecvFrom` | Utilities/lwip-1.3.1/src/api/sockets.c:474-622 | the whole call is Receive, and the caller's memory holds the bytes handed out and is otherwise unchanged |
| `I2sClock.RoundedIsNearest` | Libraries/STM32F10x_StdPeriph_Driver/src/stm32f10x_spi.c:320-333 | the scaled integer division rounds to the nearest divider, halves upwards |
| `I2sClock.NearestIsUnique` | Libraries/STM32F10x_StdPeriph_Driver/src/stm32f10x_spi.c:320-333 | at most one divider is nearest |
| `I2sClock.DividerIsNearestExactly` | Libraries/STM32F10x_StdPeriph_Driver/src/stm32f10x_spi.c:320-350 | for every 32-bit clock and every frequency the programmed divider is nearest if and only if the nearest lies in 4 to 511 |
| `I2sClock.NearestToTheClockExactly` | Libraries/STM32F10x_StdPeriph_Driver/src/stm32f10x_spi.c:320-350 | against the clock itself, at 256 clocks a frame or 32 or 64 a packet, the frequency is within half a step and one unit, and the divider is nearest except exactly when what was cut off reaches the middle |
| `I2sClock.NextDividerCanBeNearer` | Libraries/STM32F10x_StdPeriph_Driver/src/stm32f10x_spi.c:320-333 | a clock and a standard frequency for which it is not |
| `I2sClock.OutOfRangeIsDefault` | Libraries/STM32F10x_StdPeriph_Driver/src/stm32f10x_spi.c:241-350 | the default frequency, a nearest divider below 4, and one from 512 to 6552 give divider 4; beyond that the 16-bit value wraps |
| `I2sClock.Pll3Clock` | Libraries/STM32F10x_StdPeriph_Driver/src/stm32f10x_spi.c:273-297 | the clock for every PREDIV2 and multiplier field |
| `I2sClock.PackedDecodes` | Libraries/STM32F10x_StdPeriph_Driver/src/stm32f10x_spi.c:341-353 | divider, odd bit and MCLK bit decode from the register word |
| `I2sClock.SelectClock` | Libraries/STM32F10x_StdPeriph_Driver/src/stm32f10x_spi.c:262-311 | PLL3 or system clock; no register setting overflows 32 bits |
| `I2sClock.I2SInit` | Libraries/STM32F10x_StdPeriph_Driver/src/stm32f10x_spi.c:237-353 | writes the word for that clock, with a divider field of at least 2 |

## Left out

- XvcServer.Server.XvcInterface: the data of an accepted write is assumed to lie inside the receive buffer and its size field to be at least 8, and the flash to be idle; PARA_GET and STATE_GET answer with plain copies, PARA_SET is ChipFlash.Store.ParaSet, and selecting the FPGA slot through GPIO is not modelled.
- SpiFlash.Board.FlashWaitBusy: terminates because the device finishes every operation after finitely many polls; a dead chip, which the code would poll for ever, is not modelled.
- XvcClient.EraseUploadDownload: the upload is taken to start when the chip has finished the erase, which the server itself does not wait for.
- SpiFlash.Board.FlashEraseChip: the later detection of the end of the erase in the main loop is not modelled.
- ChipFlash.Store.IpaddrSet: called with fields of the right length; the textual parsers strToIp, strToMac and strToPort are not modelled.
- TcpConnection.Connection.TcpServerDeal: what a copy past the end of tcp_recvbuf overwrites is not modelled, only when it happens.
- Pbufs.PbufRef: reference counts are not limited to 16 bits.
- RxRing.EthDriver.LowLevelInput: ethernetif_input, which calls it until it returns NULL, is not modelled as a loop; every sequence of calls is a run.
- RxRing.Enabled: a frame reported whole and without error is taken to have a plausible length, as the hardware guarantees; the checks of the IP stack above are not modelled.
- SelectMachine.Do: a callback's event parameter len, exception sets and the conversion of the timeout are not modelled; netconn events enter as Start actions.
- AcceptEvents.Do: the connection is not closed during the run, and conn->socket is an unbounded integer (the code would need 2^31 early events to wrap it).
- NetconnRequests.Netconn.RecvTcp: the branch for a netconn without a receive mailbox, which stores nothing, is not modelled.
- NetconnRequests.Issued: listening netconns, UDP and RAW, and the core-locking variant are not modelled; bind, recv, getaddr and the like appear as requests that only acknowledge; accept_function is not modelled.
- RecvStream.SocketReader.RecvFrom: the sender's address, recv_avail and the window update of do_recv are not modelled; rcvevent is whatever the environment says at each use.
- I2sClock.I2SInit: the I2SCFGR bits are not modelled.
- The transmit path of the Ethernet driver, which fills its buffer before it looks at OWN, gives no delivery guarantee to prove.
- The lwIP core (TCP, memory pools, mailboxes) enters only through what its functions promise.
- Interrupts in the middle of an SPI transaction or of a callback, board bring-up, the PHY, LEDs, the serial console, FPGA register polling, the option tables of getsockopt and setsockopt, and the StdPeriph bit accessors.
