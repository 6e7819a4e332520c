# Verified model of the Snap7 stack, the message bus and the HTTP parser

The project models the parts of the repository in which several pieces of code have to agree, and proves that they do:

- **Area transfer** (`S7Types`, `S7Server`, `S7Items`, `S7Telegrams`, `S7Worker`, `AreaTransfer`, `MultiVars`, `PduBudget`, `S7Client`, `RegisteredAreas`). The client's read, write, multi-variable and listing operations run against the server's own functions on registered byte arrays, through telegrams of bytes. A job cut into PDU-sized telegrams is one slice read or slice update; many variables in one telegram are the variables one after the other.
- **Block listing** (`BlockList`). Paged listing of the data-block table.
- **BSend/BRecv** (`BlockTransfer`, `S7Partner`). Cutting a block into frames, the receiver as a state machine over frames, timeouts, negotiations, connection requests and losses, and the partner object proved against both.
- **ISO-on-TCP** (`IsoTcp`). Packets and the gathering of fragments from a byte stream (RFC 1006, section 6; X.224, section 13.7).
- **Threads** (`AsyncJob`, `WorkerTable`, `EventQueue`, `EventRace`, `Bus`). The hand-off of a job to the client's thread, the listener and its workers, the event ring and the message bus, as atomic steps in any interleaving.
- **Text and numbers** (`HttpParser`, `Checksum`, `TextNumbers`). The HTTP request parser (RFC 9112, sections 2.1, 3 and 5), the Internet checksum (RFC 1071, section 1) and integer printing.

Objects that the sources update in place are classes with the same fields; their methods are proved against functions on values, and the properties are lemmas about those functions. What the functions say of protocol codes, header fields, sizes and errors is stated a second time on bytes and numbers alone, in the lemmas whose names end in `OnBytes`, `OnNumbers`, `OnValues` or `Bytes`.

## Where the code does less than it seems to promise

Where a lemma is named, it gives the exact condition under which the code does, or does not, meet the expectation:

- The count of elements per telegram is kept in 16 bits, so a read or write of 65536 elements or more comes to telegrams without elements; it never ends exactly when these are reached and accepted (`AreaTransfer.WriteEndsIff`, `AreaTransfer.ReadEndsIff`).
- A start byte of 2^21 or more means another byte, because bit addresses have 24 bits (`AreaTransfer.AddressMeantIff`). The outcomes of `OpWriteArea` and `OpReadArea` are stated for the byte really addressed.
- With a negotiated PDU of 4090 to 4096 bytes a full telegram exceeds what the packet check lets through (`IsoTcp.SinglePacketIff`); the outcomes of the client operations say what happens then.
- The space a read item may take is compared unsigned, so the sum of the items may exceed the PDU: an item is refused for it only when it takes exactly the space left (`PduBudget.OverPduIff`, `PduBudget.NoneOverPduIff`, `PduBudget.OversizedItemsAreAnswered`; `PduBudget.FullAnswerWithinIff` says when an answer stays within the PDU). The client then reports a refused function, for only the low byte of the swapped code is sent (`PduBudget.OverPduIff`), and an answer that does not fit an ISO packet is never sent (`S7Client.TSnap7MicroClient.OpReadMultiVars`).
- Client and server address timers and counters in different units (`AreaTransfer.TimerPlaceIff`).
- In a multi-variable write the server steps over a non-last, non-empty Real or Char item by the wrong length (`S7Telegrams.WriteLayoutAgrees`).
- A block listing fails at the client when the page size divides the number of blocks, zero included (`BlockList.ListLoopResult`).
- A frame that follows an abort of its block is taken for a first frame, so the block completes broken (`BlockTransfer.DeliveryIsWholeIff`, `BlockTransfer.TimeoutBetweenFramesBreaksBlock`), and a block of 65536 bytes announces size 0 (`BlockTransfer.FullBufferIsLost`). A reader woken with success gets the last completed block exactly when the last data frame completed one (`BlockTransfer.ReadsLastBlockIff`): a receive timeout, or the first frame of the next block, wakes it or leaves it with success and no data (`BlockTransfer.TimeoutReadsAsEmptyBlock`, `BlockTransfer.NextBlockHidesLast`).
- The gathering of fragments advances a pointer that already carries the offset, so the drawing in the source holds exactly when no two non-empty fragments have another fragment between them (`IsoTcp.ContiguousIff`); two non-empty fragments are not enough when an empty one separates them.
- AsWriteArea, AsCopyRamToRom and AsCompress check arguments after setting Pending, and leave the client refusing every later call exactly when a check fails (`AsyncJob.UsableIff`, `AsyncJob.AcceptedCallUsableIff`). A wait can return before its job has ended exactly when the worker has not yet signalled the job before (`AsyncJob.WaitEarlyIff`, `AsyncJob.LateSignal`).
- An event can be picked before it is copied into the event ring, which hands out an old block instead, exactly when the only entry is still to be copied (`EventRace.ReadsDueEntryIff`, `EventRace.StaleBlock`).
- The HTTP parser drops the last header line and refuses requests without headers (`HttpParser.RoundTrip`, `HttpParser.HeaderlessIsRefused`, `HttpParser.HeaderlessNeverRoundTrips`).
- Zero padding in front of a negative number destroys its value (`TextNumbers.PaddingKeepsValueIff`).

## Model

| member | source | states |
|---|---|---|
| S7Client.TSnap7MicroClient.OpWriteArea | snap7/src/core/s7_micro_client.cpp:159-305 | A write job of any number of byte-addressed elements whose telegrams come to an end, executed by the server, comes to its verdict; for 1 to 65535 elements, of any word length, it is the telegram loop, and for byte-addressed ones a slice update: on success exactly the job's bytes are replaced and every other byte and area keeps its value; a range outside the area changes nothing when the first telegram already leaves it, and otherwise leaves exactly the whole telegrams that fit and reports partial data. `AreaTransfer.WriteJobOnBytes`, `WriteCountersOnBytes` and `WriteBitOnBytes` say it on area codes and bytes. No telegram exceeds the negotiated PDU |
| S7Client.TSnap7MicroClient.OpReadArea | snap7/src/core/s7_micro_client.cpp:51-157 | A read job comes to its verdict: one slice of the area, or the whole telegrams of it that lie inside and an error; `AreaTransfer.ReadJobOnBytes`, `ReadCountersOnBytes` and `ReadBitOnBytes` say it on area codes and bytes; server memory is unchanged and no request or answer exceeds the negotiated PDU |
| RegisteredAreas.RegisterThenWrite | snap7/src/core/s7_server.cpp:310-322 | A buffer registered as system area 0, 1 or 2 is what a write to area 0x81, 0x82 or 0x83 changes: afterwards it holds the user's bytes at the start byte, and its other bytes and all other areas are as before |
| RegisteredAreas.RegisterThenRead | snap7/src/core/s7_server.cpp:310-322 | And it is what a read from that area delivers: the buffer's bytes from the start byte on |
| RegisteredAreas.RegisterDBThenWrite | snap7/src/core/s7_server.cpp:310-322 | A buffer registered as data block n is what a write to area 0x84 with number n changes |
| RegisteredAreas.RegisterDBThenRead | snap7/src/core/s7_server.cpp:310-322 | And what a read from it delivers |
| RegisteredAreas.RegisterThenReadCounters | snap7/src/core/s7_server.cpp:317-318 | Counters are system area 3 and read as 0x1C, timers system area 4 and read as 0x1D; element k is read from byte k / 2 on |
| S7Client.TSnap7MicroClient.WriteSlices | snap7/src/core/s7_micro_client.cpp:206-303 | The loop on TotElements, Start and Offset, with its 16-bit count per telegram, performs the rounds of `AreaTransfer.WriteMany` on the server's arrays up to the one that ends it |
| S7Client.TSnap7MicroClient.ReadSlices | snap7/src/core/s7_micro_client.cpp:85-155 | The same for reading, into the user's array |
| S7Client.TSnap7MicroClient.WriteTelegram | snap7/src/core/s7_micro_client.cpp:214-295 | One write telegram, with elements or without, does to the server exactly what its one variable does alone, or is not answered when it exceeds an ISO packet |
| S7Client.TSnap7MicroClient.ReadTelegram | snap7/src/core/s7_micro_client.cpp:95-150 | One read telegram returns the item's own result and data, decoded from the answer's bytes; an answer of more than 4089 bytes is refused, and one of more than 4096 is never sent |
| AreaTransfer.WriteLoopIsOutcome | snap7/src/core/s7_micro_client.cpp:206-303 | For fewer than 65536 elements the telegram-by-telegram write equals the one-step outcome, for every job, memory and negotiated PDU length, failures included |
| AreaTransfer.ReadLoopIsOutcome | snap7/src/core/s7_micro_client.cpp:85-155 | For fewer than 65536 elements the telegram-by-telegram read equals the one-step outcome |
| AreaTransfer.WriteRunIsVerdict | snap7/src/core/s7_micro_client.cpp:206-303 | For any number of elements the rounds of the loop, with the count per telegram cut to 16 bits, end exactly as the verdict says, or never when there is none |
| AreaTransfer.WriteEndsIff | snap7/src/core/s7_micro_client.cpp:206-210 | A write never ends if and only if at least 65536 elements are asked for, the first Amount % 65536 of them and the position behind them lie in an available area, and their telegrams fit a packet: telegrams without elements are then accepted for ever |
| AreaTransfer.ReadRunIsVerdict | snap7/src/core/s7_micro_client.cpp:85-155 | The same for the rounds of the read loop and the user's buffer |
| AreaTransfer.ReadEndsIff | snap7/src/core/s7_micro_client.cpp:94-97 | A read never ends under the same condition |
| AreaTransfer.WriteThenRead | snap7/src/core/s7_micro_client.cpp:51-305 | Reading back a completed write yields what was written, over any PDU length whose telegrams for the job fit a packet |
| AreaTransfer.WriteJobOnBytes | snap7/src/core/s7_micro_client.cpp:159-305 | For every area code, word length 2 to 8, start below 2^21 and 1 to 65535 elements: which memory a write leaves and which result it reports, on bytes and numbers, a range that leaves the area part-way included |
| AreaTransfer.ReadJobOnBytes | snap7/src/core/s7_micro_client.cpp:51-157 | The same for a read and what it delivers |
| AreaTransfer.WriteCountersOnBytes | snap7/src/core/s7_server.cpp:645-660 | One telegram of timers or counters: stored from byte start / 2 on, or refused with which error |
| AreaTransfer.ReadCountersOnBytes | snap7/src/core/s7_server.cpp:405-412 | The same for reading |
| AreaTransfer.WriteBitOnBytes | snap7/src/core/s7_server.cpp:695-702 | A bit job sets the binary digit start % 8 of byte start / 8 and keeps the other seven, or which error it reports |
| AreaTransfer.ReadBitOnBytes | snap7/src/core/s7_server.cpp:440-470 | A bit read delivers that digit |
| AreaTransfer.CheckJobOnValues | snap7/src/core/s7_micro_client.cpp:62-83 | Which jobs are refused before any telegram, and how |
| AreaTransfer.AddressMeantIff | snap7/src/core/s7_micro_client.cpp:120-130 | The server works on the byte the caller named if and only if it lies below 2^21, because bit addresses have 24 bits |
| AreaTransfer.WriteOnePiece | snap7/src/core/s7_server.cpp:587-713 | One write telegram is refused as a whole, with the right code, or stored as a whole at its byte address |
| AreaTransfer.ReadOnePiece | snap7/src/core/s7_server.cpp:324-495 | One read telegram is refused as a whole, with the right code, or returns the bytes at its address |
| AreaTransfer.BitWriteThenRead | snap7/src/core/s7_server.cpp:695-702 | A written bit reads back, and no other bit of the area has changed |
| AreaTransfer.WriteOneBit | snap7/src/core/s7_server.cpp:695-702 | A bit job changes one bit of one byte or is refused |
| AreaTransfer.TimerPlaceIff | snap7/src/core/s7_server.cpp:405-408 | Client and server mean the same place of a timer or counter area if and only if it is element 0: the two sides count in different units |
| S7Items.ItemRoundTrip | snap7/src/core/s7_micro_client.cpp:113-130 | An encoded item decodes to the same word length, amount, DB number and area, each modulo its width, and its address modulo 2^24 |
| S7Items.LengthRoundTrip | snap7/src/core/s7_micro_client.cpp:273-276 | The length field, in bits or bytes by transport size, reads back as the size in bytes |
| S7Items.BitAfterSet | snap7/src/core/s7_server.cpp:697-701 | Setting a bit through the mask changes that bit and no other |
| S7Items.ItemBytes | snap7/src/core/s7_micro_client.cpp:113-130 | The twelve bytes of an item, one by one |
| S7Items.ReadItemOnBytes | snap7/src/core/s7_server.cpp:324-495 | What the server answers to any read item, in its order of checks: code, transport size, length field, data and the space left, on bytes and numbers |
| S7Items.WriteItemOnBytes | snap7/src/core/s7_server.cpp:587-713 | What the server does with any write item and its data item: code and memory, on bytes and numbers |
| S7Items.BitIsDigit | snap7/src/core/s7_server.cpp:697-701 | The bit a mask picks is that binary digit of the byte |
| S7Telegrams.ReadLayoutAgrees | snap7/src/core/s7_server.cpp:524-537 | For any list of answered items, good or refused, of any parity, the client's running offset points at the server's item, and each variable gets its own data or its own error |
| S7Telegrams.ReplyItemDecodes | snap7/src/core/s7_micro_client.cpp:403-429 | At the server's own offset the client decodes exactly that item |
| S7Telegrams.WriteLayoutAgrees | snap7/src/core/s7_server.cpp:732-749 | The server's data pointers agree with the client's offsets for all items if and only if no item but the last is a non-empty Real or Char |
| S7Telegrams.WriteManyIsWriteInTurn | snap7/src/core/s7_server.cpp:754-760 | Where the pointers agree, a write request with many variables is the fold of writing them one after the other, with each return code at its own index |
| S7Telegrams.SingleWrite | snap7/src/core/s7_server.cpp:715-778 | A write request with one variable does what the variable does alone and answers its code |
| S7Telegrams.SingleRead | snap7/src/core/s7_server.cpp:497-560 | A read request with one item answers exactly that item |
| S7Telegrams.HandledIff | snap7/src/core/s7_server.cpp:117-130 | Which telegrams the server handles: the two lengths of the header and its ten bytes add up to the telegram, and it is a request or user data |
| S7Telegrams.ReadRequestBytes | snap7/src/core/s7_micro_client.cpp:344-384 | A read request byte by byte: header, counts, and each item in its twelve bytes |
| S7Telegrams.WriteRequestBytes | snap7/src/core/s7_micro_client.cpp:485-556 | A write request byte by byte, its data section behind the items and its length in the header |
| S7Telegrams.DataItemBytes | snap7/src/core/s7_micro_client.cpp:520-556 | Each data item at its place in that section: transport size, length in bits or bytes, data, and one byte to make it even unless it is the last |
| S7Telegrams.ReadAnswerBytes | snap7/src/core/s7_server.cpp:497-560 | The answer to a read byte by byte, up to its items |
| S7Telegrams.ReplyItemBytes | snap7/src/core/s7_server.cpp:524-537 | Each answered item at its place |
| S7Telegrams.WriteAnswerBytes | snap7/src/core/s7_server.cpp:755-778 | The answer to a write byte by byte |
| S7Worker.TS7Worker.ReadArea | snap7/src/core/s7_server.cpp:324-495 | Bounds, alignment, word-length and PDU-budget checks in the server's order, then the bytes of the area, or one bit of them |
| S7Worker.TS7Worker.WriteArea | snap7/src/core/s7_server.cpp:587-713 | The same checks for writing, then the area array is updated in place and every other area is untouched |
| S7Worker.TS7Worker.CheckReadItem | snap7/src/core/s7_server.cpp:354-424 | The refusals of a read item and the PDU space left, which is compared unsigned |
| S7Worker.TS7Worker.CheckWriteItem | snap7/src/core/s7_server.cpp:613-686 | The refusals of a write item, the length agreement last |
| S7Worker.TS7Worker.StoreItem | snap7/src/core/s7_server.cpp:693-710 | The copy into the area: the payload or, for a bit, its byte with that bit changed |
| S7Worker.TS7Worker.PerformFunctionRead | snap7/src/core/s7_server.cpp:497-560 | At most 20 items are answered in order, odd ones padded except the last; memory is unchanged; an answer of more than 4096 bytes runs past the buffer it is built in |
| S7Worker.TS7Worker.PerformFunctionWrite | snap7/src/core/s7_server.cpp:715-778 | All data items are located first, then executed in order on the arrays; more than 20 of them run past the table of their positions |
| S7Worker.TS7Worker.PerformFunctionNegotiate | snap7/src/core/s7_server.cpp:781-830 | The PDU length granted is the one from 240 to 4096 nearest to the one asked for, or the forced one |
| S7Client.TSnap7MicroClient.OpReadMultiVars | snap7/src/core/s7_micro_client.cpp:307-431 | Up to 20 variables in one telegram: each entry receives its own bytes or its own error, as `MultiVars.ReadEntryOnBytes` says, the entries sharing the PDU budget, or the whole request is refused for a stated reason and the entries keep their values; an answer of 4090 to 4096 bytes is refused at the client, a longer one is never sent |
| S7Client.TSnap7MicroClient.OpWriteMultiVars | snap7/src/core/s7_micro_client.cpp:433-585 | Up to 20 variables in one telegram: the server executes the items with the data it finds at its own pointers and each entry gets the code at its index; with no non-last, non-empty Real or Char the entries are carried out one after the other, each as `MultiVars.WriteEntryOnBytes` says |
| MultiVars.WriteEntryOnBytes | snap7/src/core/s7_micro_client.cpp:485-584 | One entry carried out, on bytes: an area available and the range inside, its area holds the first Amount * size bytes of the entry's buffer at the start byte, size being 1, 2 or 4 by word length, and Result is 0; otherwise its own error and nothing changes; bits, timers and counters included |
| MultiVars.InTurnOnBytes | snap7/src/core/s7_micro_client.cpp:433-585 | The entries of such a list are carried out one after the other: a chain of memories from the first to the last, each step one entry |
| MultiVars.ReadEntryOnBytes | snap7/src/core/s7_micro_client.cpp:403-429 | One entry read, on bytes: its result and the first bytes of its buffer, timers, counters and bits included |
| MultiVars.ReadOnBytes | snap7/src/core/s7_micro_client.cpp:307-431 | All entries of a read so, each with the PDU space those before it left |
| S7Client.TSnap7MicroClient.ReadEntries | snap7/src/core/s7_micro_client.cpp:360-430 | The telegram of a multi-variable read and the distribution of its answer |
| S7Client.TSnap7MicroClient.ReadVars | snap7/src/core/s7_micro_client.cpp:386-402 | The exchange of that telegram: the items of the answer, or the reason there are none, told apart at 4089 and 4096 bytes |
| PduBudget.OverPduIff | snap7/src/core/s7_server.cpp:373-380 | A read item is refused for exceeding the PDU if and only if it passes the earlier checks and its size equals the space left modulo 2^32; the client reports a refused function for it, and never a size over the PDU |
| PduBudget.NoneOverPduIff | snap7/src/core/s7_server.cpp:376-380 | Over a whole request the check refuses something if and only if the sizes up to some charged item add up to exactly the PDU length |
| PduBudget.FullAnswerWithinIff | snap7/src/core/s7_server.cpp:376-380 | All items are answered and the answer stays within the PDU if and only if all are readable and heads, data and padding fit it |
| PduBudget.LoneAnswerWithinIff | snap7/src/core/s7_server.cpp:376-380 | A lone readable item is answered within the PDU if and only if its size is at most the PDU less 18, or exactly the PDU |
| PduBudget.AnswerLength | snap7/src/core/s7_server.cpp:497-560 | The length of any answer, from the sizes of its items alone |
| PduBudget.OversizedItemsAreAnswered | snap7/src/core/s7_server.cpp:376-380 | Items each larger than the PDU are all answered in full, in an answer that exceeds it |
| PduBudget.OversizedAnswer | snap7/src/core/s7_server.cpp:504-548 | A concrete request whose answer does not even fit an ISO packet |
| S7Client.TSnap7MicroClient.SendVars | snap7/src/core/s7_micro_client.cpp:557-573 | The exchange of a multi-variable write: return codes and memory are those of executing the telegram's items, and of writing the variables in turn where the pointers agree |
| S7Client.TSnap7MicroClient.WriteEntries | snap7/src/core/s7_micro_client.cpp:485-584 | The telegram of a multi-variable write and the collection of its return codes |
| MultiVars.MultiReadAnswer | snap7/src/core/s7_server.cpp:522-545 | The server's answer to the entries is their outcomes in order, with the PDU budget shared between them |
| MultiVars.MultiWriteAnswer | snap7/src/core/s7_server.cpp:732-778 | The server's answer to the variables is the list of codes of writing them in turn |
| MultiVars.DistributeAnswer | snap7/src/core/s7_micro_client.cpp:403-429 | The loop over the answer gives every entry its own outcome |
| MultiVars.BuildVars | snap7/src/core/s7_micro_client.cpp:485-556 | The loop over the entries builds the data section with its padding; `MultiVars.WriteEntryOnBytes` says which bytes of an entry's buffer it takes |
| MultiVars.AdjustItems | snap7/src/core/s7_micro_client.cpp:331-342 | Results are cleared and counter and timer entries get their word length, in place |
| MultiVars.TakeCodes | snap7/src/core/s7_micro_client.cpp:575-583 | Every entry gets the return code at its own index |
| S7Types.CpuErrorOnNumbers | snap7/src/core/s7_micro_client.cpp:2449-2469 | Which client error each code of the CPU becomes |
| S7Server.TSnap7Server.RegisterDB | snap7/src/core/s7_server.cpp:1810-1835 | Refines insertion into a finite map: fails exactly for a null pointer, a number already there, or a full table; DBCount counts occupied slots and no occupied slot lies above DBLimit; buffers stay apart if the new one is |
| S7Server.TSnap7Server.UnregisterDB | snap7/src/core/s7_server.cpp:1884-1901 | Refines removal; fails exactly when the number is not there |
| S7Server.TSnap7Server.RegisterSys | snap7/src/core/s7_server.cpp:1861-1882 | Registers a system area once |
| S7Server.TSnap7Server.FindDB | snap7/src/core/s7_server.cpp:1763-1779 | Scanning up to the high-water mark agrees with looking the number up in the map |
| S7Server.TSnap7Server.IndexOfDB | snap7/src/core/s7_server.cpp:1781-1797 | The slot of a number, or -1 exactly when it is not registered |
| S7Server.TSnap7Server.FindFirstFreeDB | snap7/src/core/s7_server.cpp:1799-1808 | The first free slot, or -1 exactly when the table is full |
| S7Server.TSnap7Server.GetArea | snap7/src/core/s7_server.cpp:310-322 | The area an item names, as the map has it: 0x81, 0x82 and 0x83 are system areas 0, 1 and 2, 0x1C is 3, 0x1D is 4, 0x84 is the data block of that number, and no other code names any |
| S7Server.TableInsert | snap7/src/core/s7_server.cpp:1825-1834 | Filling a free slot with a new number keeps table and map in step |
| S7Server.TableRemove | snap7/src/core/s7_server.cpp:1890-1900 | Emptying a slot keeps table and map in step |
| S7Server.NumbersInSlotOrder | snap7/src/core/s7_server.cpp:1050-1060 | The numbers listed are those of the slots in use, each once, from the first slot to the last |
| BlockList.PagesListEverything | snap7/src/core/s7_server.cpp:1016-1094 | A start request and its continuations list every DB number once and in slot order, no page exceeds its room, the sequence ends after n / room + 1 answers, and the last one says "no resource" if and only if room divides n; with the whole table in use, up to what lies behind it, a full last page may end the sequence |
| BlockList.ScanTakesNext | snap7/src/core/s7_server.cpp:1050-1060 | One scan takes exactly the next numbers, as many as fit |
| BlockList.PageOnNumbers | snap7/src/core/s7_server.cpp:1023-1085 | What one page says, on numbers: at most (PDU length - 32) / 4 of the numbers left, and the codes for more, done and nothing there |
| BlockList.ListLoopResult | snap7/src/core/s7_micro_client.cpp:670-816 | The client's listing is complete when the page size does not divide the number of blocks, and fails when it does, the whole-table case apart |
| S7Worker.TS7Worker.BLK_ListBoT | snap7/src/core/s7_server.cpp:1016-1094 | One page of the listing, of at most (PDU length - 32) / 4 numbers, and the scan position kept for the next request, for a full table too |
| S7Worker.TS7Worker.ScanPage | snap7/src/core/s7_server.cpp:1050-1060 | The loop over the slots is the scan |
| S7Client.TSnap7MicroClient.OpListBlocksOfType | snap7/src/core/s7_micro_client.cpp:670-816 | The client's result and list, as a function of the numbers in the table, what lies behind it, the page size (PDU length - 32) / 4 and the room in the user's buffer |
| S7Client.TSnap7MicroClient.CollectPages | snap7/src/core/s7_micro_client.cpp:700-798 | The request loop collects the pages of the listing |
| BlockTransfer.FrameFields | snap7/src/core/s7_partner.cpp:747-800 | A frame says what the receiver reads from it: kind, end of sequence, length, identity, announced size modulo 2^16 and the block's bytes at its offset |
| BlockTransfer.FrameBytes | snap7/src/core/s7_partner.cpp:747-800 | A frame byte by byte: header, parameter length 12, a data length that makes header and lengths add up to the frame, the numbers and echo it carries, end of sequence, data length, identity, announced size and the block's bytes |
| BlockTransfer.RoundTrip | snap7/src/core/s7_partner.cpp:728-897 | Feeding the frames of any block of 1 to 65535 bytes, for any PDU length above 36, to an idle receiver hands over that block once, and the reader gets the same bytes, size and identity |
| BlockTransfer.FrameCount | snap7/src/core/s7_partner.cpp:728-741 | A block takes one frame, or one and as many more as the rest needs; the first holds two bytes less |
| BlockTransfer.FrameFitsPdu | snap7/src/core/s7_partner.cpp:728-790 | No frame exceeds the negotiated PDU |
| BlockTransfer.StepKeepsRelated | snap7/src/core/s7_partner.cpp:899-1050 | Every data frame, timeout, negotiation, connection request and loss keeps sender and receiver related |
| BlockTransfer.RunKeepsRelated | snap7/src/core/s7_partner.cpp:899-1050 | So does every run of a conforming sender |
| BlockTransfer.DeliveryIsWholeIff | snap7/src/core/s7_partner.cpp:899-939 | At any point of any conforming run a completed delivery is the whole block if and only if its last frame did not follow an abort and the size fits 16 bits |
| BlockTransfer.CompletionIsWholeIff | snap7/src/core/s7_partner.cpp:850-868 | The same for one completing frame |
| BlockTransfer.TimeoutBetweenFramesBreaksBlock | snap7/src/core/s7_partner.cpp:850-868 | A concrete failing run: any block in two frames comes through broken when the receiver times out between them, for a continuation after an abort is read as a first frame |
| BlockTransfer.RunDeliversWholeBlocks | snap7/src/core/s7_partner.cpp:899-1050 | Over any conforming run in which no frame follows an abort of its block, what is delivered is exactly the sequence of completed blocks, each whole and once; aborted blocks contribute nothing |
| BlockTransfer.BytesRecvIsTotal | snap7/src/core/s7_partner.cpp:927 | The byte counter is the sum of delivered sizes modulo 2^32, over any run |
| BlockTransfer.FullBufferIsLost | snap7/src/core/s7_partner.cpp:780 | A block of 65536 bytes announces size 0 |
| BlockTransfer.TimeoutReadsAsEmptyBlock | snap7/src/core/s7_partner.cpp:1036-1047 | A run from an idle receiver: the first frame of any longer block, then a timeout, wakes the reader with success and an empty block |
| BlockTransfer.ReadsLastBlockIff | snap7/src/core/s7_partner.cpp:1124-1146 | After any conforming run in which no frame follows an abort of its block, readings included, a reader that is woken with success gets the last completed block, bytes, size and identity, if and only if the last data frame completed one, and an empty block otherwise |
| BlockTransfer.NextBlockHidesLast | snap7/src/core/s7_partner.cpp:902-911 | A second failing run, without a timeout: a block completes, the first frame of the next arrives before the reader does, and the reader gets success and nothing |
| BlockTransfer.NothingElseDelivers | snap7/src/core/s7_partner.cpp:922-937 | Only completing frames hand anything over |
| BlockTransfer.ReceiveOnBytes | snap7/src/core/s7_partner.cpp:826-939 | What any telegram does to a receiver, byte by byte of its header: stored where, which answer drops the sequence with which error, and what the frame that ends it hands over |
| BlockTransfer.TurnIsRun | snap7/src/core/s7_partner.cpp:977-1050 | One turn of the worker is a run of at most three events |
| S7Partner.TSnap7Partner.BlockSend | snap7/src/core/s7_partner.cpp:700-824 | The wire carries frame after frame of the queued block, numbered and within the PDU, up to and including the first the peer does not accept, each with header lengths that add up to it (`S7Partner.WireBytes` gives every byte); success is exactly all frames accepted, one or as many more as the block needs beyond PDU length - 36 bytes; otherwise the error tells a lost frame from a refused one, and BytesSent does not grow |
| S7Partner.WireBytes | snap7/src/core/s7_partner.cpp:728-800 | Every frame on the wire byte by byte: where its data lies in the block, its sequence number and identifier in closed form, and the number echoed from the reply before |
| S7Partner.TSnap7Partner.SendFrames | snap7/src/core/s7_partner.cpp:728-817 | The slicing loop |
| S7Partner.TSnap7Partner.SendSlice | snap7/src/core/s7_partner.cpp:744-800 | One frame built from the send buffer, whose bytes `BlockTransfer.FrameBytes` gives |
| S7Partner.TSnap7Partner.AsBSend | snap7/src/core/s7_partner.cpp:1063-1083 | A block is queued unless one is queued already or the partner is not linked |
| S7Partner.TSnap7Partner.PickData | snap7/src/core/s7_partner.cpp:826-897 | A frame's data is stored behind what is there, a first frame also setting size and identity |
| S7Partner.TSnap7Partner.BlockRecv | snap7/src/core/s7_partner.cpp:899-939 | One data frame is the receiver's step: open, store, complete or drop |
| S7Partner.TSnap7Partner.ClearRecv | snap7/src/core/s7_partner.cpp:610-614 | Dropping a sequence forgets offset, size and identity |
| S7Partner.TSnap7Partner.ConnectionConfirm | snap7/src/core/s7_partner.cpp:941-947 | A connection request drops a pending sequence |
| S7Partner.TSnap7Partner.ReadLine | snap7/src/core/s7_partner.cpp:998-1022 | What came in is handled as the state machine says |
| S7Partner.TSnap7Partner.Execute | snap7/src/core/s7_partner.cpp:977-1050 | One turn of the worker: send the queued block when nothing is being received, then read, then check the age of the sequence; a successful negotiation links a partner, and a failure unlinks it |
| S7Partner.TSnap7Partner.BRecv | snap7/src/core/s7_partner.cpp:1124-1146 | A reader gets what the last completion left, or a timeout error, or a refusal of a null buffer, and the event is taken |
| S7Partner.TSnap7Partner.GetNextByte | snap7/src/core/s7_partner.cpp:434-440 | The identifier that follows one below 255 is another one between 1 and 254 |
| S7Partner.SentBlockArrives | snap7/src/core/s7_partner.cpp:700-939 | The bytes the sending loop puts on the wire, when every frame is accepted, give any idle receiver exactly that block |
| S7Partner.LoneFrameIff | snap7/src/core/s7_partner.cpp:769-772 | A frame carries identifier 0 if and only if it is the only one of its block |
| S7Partner.IdentifiersAdvance | snap7/src/core/s7_partner.cpp:434-440 | Identifiers are never 0 and never repeat between neighbours |
| IsoTcp.AcceptedIff | snap7/src/core/s7_isotcp.cpp:440-490 | A telegram is accepted if and only if it has at most 64 fragments of at most 4089 bytes each, at most 4096 bytes, and room is left before its last fragment; then its fragments are gathered in order and the stream goes on behind it |
| IsoTcp.GatheredBounds | snap7/src/core/s7_isotcp.cpp:453-473 | Whatever the stream holds, an accepted telegram has 1 to 64 fragments and at most 4096 bytes |
| IsoTcp.ContiguousIff | snap7/src/core/s7_isotcp.cpp:419-457 | Fragments land one behind the other if and only if no two non-empty ones have another between them: the write pointer adds the whole offset every round |
| IsoTcp.ContiguousIsConcat | snap7/src/core/s7_isotcp.cpp:419-439 | Then the payload is the concatenation of the fragments |
| IsoTcp.IntactIff | snap7/src/core/s7_isotcp.cpp:440-490 | Fragments of given lengths arrive intact whatever they hold, if and only if no two non-empty ones have another between them |
| IsoTcp.SinglePacketIff | snap7/src/core/s7_isotcp.cpp:46-64 | One packet comes through unchanged if and only if its payload is at most 4089 bytes |
| IsoTcp.TakeOnBytes | snap7/src/core/s7_isotcp.cpp:368-415 | Which fragments are taken and which error the others give, byte by byte of the header |
| IsoTcp.PacketBytes | snap7/src/core/s7_isotcp.cpp:253-272 | A packet's seven header bytes and its payload |
| IsoTcp.TIsoTcpSocket.isoSendBuffer | snap7/src/core/s7_isotcp.cpp:248-282 | Puts one packet on the line, byte by byte, for up to 4096 bytes and refuses more |
| IsoTcp.TIsoTcpSocket.isoRecvBuffer | snap7/src/core/s7_isotcp.cpp:284-298 | Hands over the gathered payload, which is the concatenation of the fragments where they are contiguous, or the error |
| IsoTcp.TIsoTcpSocket.isoRecvPDU | snap7/src/core/s7_isotcp.cpp:440-490 | Gathers a telegram in place and rebuilds the length in its header, or reports the error and drops what is pending |
| IsoTcp.TIsoTcpSocket.isoRecvFragment | snap7/src/core/s7_isotcp.cpp:368-415 | Takes one fragment: types, lengths, overflow and missing bytes are told apart |
| AsyncJob.MutualExclusion | snap7/src/core/s7_client.cpp:489-502 | In every reachable interleaving at most one thread is inside an operation |
| AsyncJob.FieldsChangeSafely | snap7/src/core/s7_client.cpp:148-166 | Job fields change only in a submission while no job runs or waits, or inside the one running operation |
| AsyncJob.BegunOnceInOrder | snap7/src/core/s7_client.cpp:452-464 | Submitted jobs are begun in order, each once and with the fields as submitted, which `AsyncJob.BegunAsAsked` compares with the arguments; when none is pending all have ended |
| AsyncJob.BegunAsAsked | snap7/src/core/s7_client.cpp:148-440 | Over any run, the k-th job begun is that of the k-th accepted request, with the operation code of AsReadArea, AsWriteArea, AsDBGet, AsDownload, AsCopyRamToRom or AsCompress and every field equal to the argument it was given |
| AsyncJob.RefusedIff | snap7/src/core/s7_client.cpp:148-440 | After any run, a call is refused, leaving everything as it is, if and only if its first argument check fails, an earlier call was broken off by a late check, or a submitted job has not ended |
| AsyncJob.PollIsRight | snap7/src/core/s7_client.cpp:132-146 | Polling answers only when all submitted jobs have ended, with the result of the last |
| AsyncJob.WaitEarlyIff | snap7/src/core/s7_client.cpp:452-502 | A wait for a job can answer while it has not ended if and only if its submission resets the completion event while the worker has ended the job before and not yet signalled it |
| AsyncJob.WaitIsRight | snap7/src/core/s7_client.cpp:466-487 | When the worker is not between ending a job and signalling it, a wait for the job being submitted answers as polling does: only when all jobs have ended, with the result of the last |
| AsyncJob.LateSignal | snap7/src/core/s7_client.cpp:497-498 | A reachable run in which a wait returns the earlier job's result while the submitted one has not begun |
| AsyncJob.UsableIff | snap7/src/core/s7_client.cpp:168-354 | After any run the client can get back to taking jobs if and only if no accepted AsWriteArea had a word length without a size or a total size outside 1 to 65536, and no accepted AsCopyRamToRom or AsCompress a timeout that is not positive |
| AsyncJob.AcceptedCallUsableIff | snap7/src/core/s7_client.cpp:168-354 | One accepted call leaves the client unusable if and only if it has such an argument |
| AsyncJob.StuckForever | snap7/src/core/s7_client.cpp:174-185 | Once such a call has returned, no job is ever accepted, begun or ended again |
| AsyncJob.Finishes | snap7/src/core/s7_client.cpp:489-502 | Left alone, the threads end the pending job, or the call under way breaks off |
| AsyncJob.StepKeepsInv | snap7/src/core/s7_client.cpp:452-502 | Every step keeps: one owner of the pending job, fields as filled so far, and history |
| WorkerTable.TableIsRight | snap7/src/sys/snap_tcpsrvr.cpp:360-404 | In every state of every interleaving of listener and workers: with the lock free ClientsCount is the number of occupied slots and of live workers, and each worker's index names its own slot; always, the count respects MaxClients and every connection is accounted for |
| WorkerTable.NoRoomOnlyIf | snap7/src/sys/snap_tcpsrvr.cpp:392-396 | A connection is turned away for lack of room only with MaxClients 0 or above 1024, and a full table |
| WorkerTable.RejectedIff | snap7/src/sys/snap_tcpsrvr.cpp:312-315 | At the check a connection is rejected if and only if there is a limit and that many are served already; otherwise it passes |
| WorkerTable.RejectedOnArrival | snap7/src/sys/snap_tcpsrvr.cpp:368-404 | At no other moment is a connection rejected |
| WorkerTable.FillsFirstFree | snap7/src/sys/snap_tcpsrvr.cpp:376-390 | A worker that gets a slot gets the first free one, and learns its index |
| WorkerTable.ListenerKeepsInv | snap7/src/sys/snap_tcpsrvr.cpp:368-404 | Every step of the listener keeps the invariant, the check outside the lock included |
| WorkerTable.WorkerKeepsInv | snap7/src/sys/snap_tcpsrvr.cpp:360-366 | Every step of a worker removing itself keeps it |
| WorkerTable.TCustomMsgServer.FirstFree | snap7/src/sys/snap_tcpsrvr.cpp:221-230 | The first free slot, or -1 exactly when there is none |
| WorkerTable.TCustomMsgServer.Insert | snap7/src/sys/snap_tcpsrvr.cpp:376-396 | The locked part of an incoming connection |
| WorkerTable.TCustomMsgServer.Delete | snap7/src/sys/snap_tcpsrvr.cpp:360-366 | The locked removal |
| EventQueue.TMsgEventQueue.Insert | snap7/src/sys/snap_tcpsrvr.cpp:52-63 | Appends to the contents unless they have reached capacity minus one; then nothing changes |
| EventQueue.TMsgEventQueue.Extract | snap7/src/sys/snap_tcpsrvr.cpp:65-85 | Returns the oldest entry, and fails exactly when there is none |
| EventQueue.TMsgEventQueue.Flush | snap7/src/sys/snap_tcpsrvr.cpp:46-50 | Empties the queue |
| EventQueue.TMsgEventQueue.Full | snap7/src/sys/snap_tcpsrvr.cpp:92-96 | Full exactly at capacity minus one entries |
| EventQueue.ReplayOnRing | snap7/src/sys/snap_tcpsrvr.cpp:32-96 | Any sequence of operations on the ring hands out the same entries as on a bounded FIFO and leaves the same contents |
| EventQueue.FirstInFirstOut | snap7/src/sys/snap_tcpsrvr.cpp:52-85 | What came out followed by what is there is what was let in |
| EventQueue.Conserved | snap7/src/sys/snap_tcpsrvr.cpp:46-85 | With flushes, entries are let out, dropped or still there, none lost or made up |
| EventRace.ReadsDueEntryIff | snap7/src/sys/snap_tcpsrvr.cpp:52-85 | After any interleaving of insertions and an extraction in their own steps, the block read is the entry that is due if and only if that entry has been copied already, or its place holds the same |
| EventRace.PatientIsFirstInFirstOut | snap7/src/sys/snap_tcpsrvr.cpp:52-85 | When no block is read before it is copied, entries come out in order, each once and as they were let in |
| EventRace.StaleBlock | snap7/src/sys/snap_tcpsrvr.cpp:463-471 | A concrete run, possible because picking an event takes no lock: an old block is handed out and the entry is lost |
| Bus.ExactlyOnceInOrder | parser/src/bus.cpp:80-100 | At every point of every interleaving of senders, subscribers and the worker, messages popped followed by messages queued are the messages sent, and the one being delivered is the next: first in, first out, exactly once, though the lock is dropped for the delivery |
| Bus.DeliveryCounts | parser/src/bus.cpp:7-43 | A component hears a room message once per subscription in that room plus once per broadcast subscription, a broadcast message once per subscription in any room, and nothing when it is gone or carries the sender's name |
| Bus.DeliveredInTurn | parser/src/bus.cpp:7-43 | What one delivery of any run calls: in the message's room and the broadcast room, or in all for a broadcast message, in order of subscription, every member that exists and is not named like the sender, once per subscription and nobody else, with the text sent, through the callback given in that component's last subscription to that room |
| Bus.CallbackIsLastGiven | parser/inc/bus.hpp:88-96 | Over any run, whoever exists and is in a room has there the callback of its last subscription to that room |
| Bus.SubscriptionsAreJoined | parser/src/bus.cpp:103-115 | Over any run, the subscriptions of a component in a room are counted by the actions alone: one more for each subscription, one less, if there is one, for each leaving |
| Bus.AliveIff | parser/src/bus.cpp:11-12 | Over any run, a component exists until it vanishes |
| Bus.CallsAreThoseDue | parser/src/bus.cpp:7-100 | At every point of every interleaving, a component has been called in a room exactly as often as was due for the messages delivered so far, by the subscriptions of the moment of each delivery |
| Bus.HearsEachOnce | parser/src/bus.cpp:7-100 | A component that exists and has one subscription in the room at every delivery is called once for each message delivered that it hears there |
| Bus.LeaveUndoesJoin | parser/src/bus.cpp:103-115 | Unsubscribing undoes one subscription |
| Bus.LeaveTakesOne | parser/src/bus.cpp:103-115 | It takes one subscription away, if there is one, and none of anybody else |
| Bus.StepKeepsInv | parser/src/bus.cpp:70-115 | Every step of every thread keeps queue and history in step and every subscriber registered |
| Bus.myBus.SendOutMsgToRoomComponents | parser/src/bus.cpp:7-20 | The loop over a room makes the calls in order of subscription |
| Bus.myBus.sendMsg_ | parser/src/bus.cpp:26-43 | Delivers one message to its room and the broadcast room, or to all rooms |
| Bus.myBus.subscribe | parser/inc/bus.hpp:88-96 | Sets the callback and adds one subscription: the step of the same name |
| Bus.myBus.subscribe_broadcast | parser/inc/bus.hpp:103-110 | The same for the broadcast room |
| Bus.myBus.unsubscribe | parser/src/bus.cpp:103-115 | Removes the first subscription found: the step of the same name |
| Bus.myBus.worker_ | parser/src/bus.cpp:80-100 | One round of the worker: front, deliver, pop |
| HttpParser.RoundTrip | parser/src/parser.cpp:22-147 | Parsing the rendering of a well-formed request, its verb one of the four, with at least one header gives back verb, URL, version, body and all headers but the last, or the error of the length check |
| HttpParser.SucceedsIff | parser/src/parser.cpp:121-142 | It succeeds if and only if the first Content-Length kept, if any, reads as the body's length; `HttpParser.StoiReadsText` says how it reads |
| HttpParser.ContentLengthDecides | parser/src/parser.cpp:121-142 | A well-formed request whose first kept Content-Length is the decimal text of n parses if and only if n is the body's length and fits 32 bits, and which error it gives otherwise |
| HttpParser.StoiReadsText | parser/src/parser.cpp:135-136 | std::stoi reads spaces, an optional sign and the decimal text of any number up to what is no digit: that number, or out of range beyond 32 bits |
| HttpParser.StoiNeedsDigits | parser/src/parser.cpp:135-136 | Without a digit there it reads nothing |
| HttpParser.OtherVerbsAreRefused | parser/src/parser.cpp:22-60 | Any other verb is refused, whatever follows |
| HttpParser.OtherLines | parser/src/parser.cpp:95-115 | A header line without a colon is skipped, and one that ends in its first colon is an error |
| HttpParser.EndedLineIsKept | parser/src/parser.cpp:95-115 | A line that CRLF ends gives its key and value |
| HttpParser.HeaderlessIsRefused | parser/src/parser.cpp:88-92 | A request without headers is refused, unless its body brings a blank line of its own |
| HttpParser.HeaderlessNeverRoundTrips | parser/src/parser.cpp:88-92 | A request without headers never parses back to itself, whatever its body |
| HttpParser.AcceptedDecomposes | parser/src/parser.cpp:22-147 | Every accepted input is its parts put back together, with a known verb, a URL without spaces and a checked length |
| HttpParser.ParsedIsValid | parser/src/parser.cpp:153-207 | Every accepted input gives a tree that passes the check |
| HttpParser.HeadersRoundTrip | parser/src/parser.cpp:95-115 | The header loop keeps all headers but the last, whose line no CRLF ends any more |
| HttpParser.parseHTTPRequest | parser/src/parser.cpp:22-147 | The parser computes the tree of the request, or the kind of error; `HttpParser.ContentLengthDecides` says on texts which |
| HttpParser.ParseHeaderLines | parser/src/parser.cpp:95-115 | The header loop, a line ending in its colon being an error |
| HttpParser.CheckContentLength | parser/src/parser.cpp:122-141 | The first Content-Length header has to be the body's length, read as `HttpParser.StoiReadsText` says |
| HttpParser.isASTValid | parser/src/parser.cpp:153-207 | The check succeeds if and only if the root and its five children are there |
| Checksum.StoredChecksumVerifies | snap7/src/sys/snap_msgsock.cpp:725-753 | With the checksum in its zeroed field the recomputed checksum is 0 |
| Checksum.VerifiesIff | snap7/src/sys/snap_msgsock.cpp:741-753 | A packet verifies if and only if its sum is a positive multiple of 65535 |
| Checksum.FoldedIs | snap7/src/sys/snap_msgsock.cpp:750-752 | The two folds keep the sum modulo 65535, and only an all-zero packet folds to 0 |
| Checksum.ChecksumIs | snap7/src/sys/snap_msgsock.cpp:741-753 | The checksum in terms of the sum alone: what is missing to the next multiple of 65535, and 65535 for no sum at all |
| Checksum.ChangeUnnoticedIff | snap7/src/sys/snap_msgsock.cpp:741-753 | A changed word goes unnoticed if and only if 0 and 0xFFFF are exchanged |
| Checksum.ByteOrderIndependent | snap7/src/sys/snap_msgsock.cpp:741-753 | Summing the words in the other byte order gives the checksum in that order, so the packet is the same on every host |
| Checksum.SwapWordIsNetworkOrder | snap7/src/sys/snap_msgsock.cpp:42-48 | Swapping puts the high byte first in memory on either kind of host and undoes itself |
| Checksum.SwapDWordIsNetworkOrder | snap7/src/sys/snap_msgsock.cpp:50-56 | The same for 32 bits |
| Checksum.SwapDWordOnBytes | snap7/src/sys/snap_msgsock.cpp:50-56 | On a little-endian host the four bytes change places end to end; on the other they stay |
| Checksum.TRawSocketPinger.PacketChecksum | snap7/src/sys/snap_msgsock.cpp:741-753 | The loop computes the sum without overflow for up to 65536 words |
| Checksum.TRawSocketPinger.StoreChecksum | snap7/src/sys/snap_msgsock.cpp:725-738 | The packet with its checksum stored verifies |
| TextNumbers.TextReadsBack | snap7/src/core/s7_text.cpp:29-53 | What is printed reads back as the value in every base from 2 to 36, has a sign exactly when negative and a leading zero only for zero |
| TextNumbers.TextInjective | snap7/src/core/s7_text.cpp:29-53 | No two values print alike |
| TextNumbers.TextByDigits | snap7/src/core/s7_text.cpp:38-45 | Digit by digit from the table 0 to 9 and a to z: the last one stands for the remainder, those before it for the quotient, and a minus goes in front of a negative number |
| TextNumbers.itoa | snap7/src/core/s7_text.cpp:29-53 | The buffer holds the text, for every 32-bit value, the minimum included |
| TextNumbers.WriteDigits | snap7/src/core/s7_text.cpp:38-45 | The digit loop writes the digits backwards, for C division of negative values too |
| TextNumbers.ReverseStart | snap7/src/core/s7_text.cpp:47-51 | The in-place reversal |
| TextNumbers.NumToString | snap7/src/core/s7_text.cpp:56-78 | The buffer, of just the size written, holds the text behind its padding |
| TextNumbers.PaddedLength | snap7/src/core/s7_text.cpp:62-75 | Padding gives the larger of the wanted and the text's own length, up to 64 zeros |
| TextNumbers.PaddingKeepsValueIff | snap7/src/core/s7_text.cpp:62-75 | Padding keeps the value if and only if nothing is put in front of a minus sign |

## Left out

- OpWriteArea: requires that the telegrams come to an end, as a method has to; `AreaTransfer.WriteEndsIff` says for which jobs of byte-addressed elements they do not, and `AreaTransfer.WriteMany` is the loop for all of them. Its verdict is stated for byte-addressed word lengths, while bits and single telegrams of timers and counters are stated telegram by telegram; the user's buffer may not be one of the registered areas, and these may not share buffers.
- OpReadArea: the same, with `AreaTransfer.ReadEndsIff` and `AreaTransfer.ReadMany`.
- OpReadMultiVars: requires each entry's buffer to hold what the entry asks for, as the caller must ensure.
- PerformFunctionWrite: with more than 20 items the source writes past its table of pointers; the flag `wild` says so, and what the memory behind the table then holds is not modelled.
- PerformFunctionRead: with an answer of more than 4096 bytes the source writes past its buffer; the flag `wild` says so, and what lies behind the buffer is not modelled.
- BLK_ListBoT: with the last slot of the table in use the source looks one slot past the table; what it finds there is a parameter.
- PerformFunctionNegotiate: requires a forced PDU length within the limits its setter accepts.
- BlockSend: requires a PDU length of more than 36 bytes, below which a frame has no room for data.
- Execute: a negotiation is a parameter giving the resulting PDU length and whether the answer went out, for the source compares a field it has not filled in yet; error numbers are stated without the low-order ISO and TCP codes that are merged into them.
- BRecv: waiting is a flag; the callback variants and the elapsed-time fields are not modelled.
- isoRecvPDU: memory behind the payload buffer is part of the payload array, so that every position the write pointer takes exists; a timeout or an error drops all pending input; a lost connection is an end of input.
- isoRecvFragment: the type expected by the packet check is always the type found, as in the source, so the type mismatch it could report does not occur.
- Telegrams of the client and the server are built as values rather than in the shared PDU buffer; bytes past the end of a telegram read as 0.
- Client and server share the negotiated PDU length; after a refused packet the server's connection is not followed further.
- Addresses are unbounded integers before they are cut to 24 bits, which is where a 32-bit overflow would also leave them.
- A bit item of length 0, which no client operation sends, is modelled on the server only.
- Chunked transfers of timers and counters over several telegrams, because the two sides count in different units.
- ResourceLess mode, user callbacks, the event log's contents and block locks, which are foreign code or do not change results.
- UnregisterSys and disposal of all areas, which only clear slots.
- Upload, download, block info, SZL, clock, PLC control, security and diagnostic functions: single telegrams filled with constants.
- Connection set-up, sockets, select, timeouts as real time, ping and thread termination; the transport is a byte sequence and time is a nondeterministic step.
- AsyncJob: the shared fields are a value both threads step rather than an object, so that interleavings can be quantified over; Disconnect and Reset, which clear Pending and so free a client that a broken-off call has blocked, and destruction while a job runs; the completion callback's view of the job; one calling thread, as the source expects.
- WorkerTable: stopping the server and killing workers; MaxClients is fixed while the server runs, as its setter demands.
- EventQueue: blocks are values of a type rather than byte runs, and each operation is one step. The source holds its lock for insertions and flushes only; insertions and an extraction in their own steps are modelled in `EventRace`, a flush during an extraction is not.
- Bus: components are records in a table of the bus, so a shared component and the lifetime of its pointers are not modelled beyond whether it still exists; the room table does not change during a delivery, since changing it from a callback invalidates the loop's iterator; messages still queued at destruction are not delivered.
- HttpParser: strings are sequences of characters; error texts are kept only as their kind.
- itoa: the mirrored digit table is a function of the remainder's magnitude.
- Tables of error and event texts, the C interface wrappers, the observer template, the dynamic loader and the RSA server.
