# Passive discovery, DHCP and packet tools: a Dafny model

The model covers the parts of the Flipper Zero Ethernet application that keep state,
parse what comes from the wire or promise something about memory, and proves what they
are for. It has six parts.

* **Saved neighbours.** `Crc32`, `CrcDivision`, `HistoryPayload`, `HistoryCodec`, `HistoryFile`,
  `HistoryLayout`, `HistoryMerge`, `Storage`, `HistoryStore`, `HistoryCommit` and `HistoryRuns` model the versioned,
  CRC-protected file of discovered neighbours: payload codecs, index, load, merge,
  clear and the write-aside-and-rename commit over storage calls that may fail.
  `NeighborDb` and `LiveTable` model the live table of 32 entries and everything that
  fills it, and `TableMap` shows that it is a bounded map of the latest observations. The chain of main results: payloads round-trip; a file loads exactly when it
  is the image of a valid list; a merge is map override; the commit is atomic; every
  table that frames can produce has the invariant that keeps the file loadable; and so the
  file loads after any run of operations, whatever was there and whichever calls failed.
* **Receiving.** `RxDispatch` models the reader thread, registering clients, the mutex
  and the pause handshake as interleaved atomic steps; its theorems quantify over all
  runs. `NextHop` models next-hop resolution with its round-robin cache.
* **DHCP.** `Dhcp` (builders, validating parser, option walk) and `Dora` (the exchange,
  over every run).
* **Parsers and checksums.** `Lldp` with the test sender's builders in `LldpSender`,
  `Cdp`, `LldpEntry` and `CdpEntry` (what every frame means for the table), `Eapol`,
  `Texts`, `Checksum` and `PacketHeaders`.
* **Chip and memory.** `RxRing` composes the driver with a ring-buffer device and shows
  a FIFO; `RegisterBank` shows that the remembered bank refines flat register access;
  `StartupGuard` connects the heap preflight with a first-fit allocator.
* **Texts and captures.** `DetailsText` (pagination) and `Pcap` (capture file, index).

Bytes and machine words are integer subset types, so every truncation and wrap-around is
written out. Character arrays have their declared sizes; their text ends at the first
NUL. Code that updates state in place is a class or a method with loops, proved against
a specification function; the theorems are about those functions. Storage faults, frame
arrivals, thread schedules, clocks, cancel flags and random numbers are arbitrary.

## What the code does differently from its promises

Each of these is a proved statement, not an omission.

* A merge whose load failed on storage goes on as if nothing had been saved and reports
  success; what that leaves is stated exactly (`HistoryMerge.FailedLoadExact`,
  `LiveTable.ReachableFailedLoad`), and `HistoryRuns.FailedLoadForgets` is an instance
  that loses a record.
* A clear does the same with a worse effect: when its load failed on storage it puts an
  empty file in place of a good one and reports success, so a clear of one protocol erases
  the others too. That is right exactly when the filter takes every saved key
  (`HistoryMerge.FailedClearExact`); `HistoryRuns.FailedClearForgets` is an instance.
* A clear through an index that is older than the file forgets the records added since;
  that is right exactly when the filter takes all of them
  (`HistoryCommit.OlderIndexCopies`).
* A file with a NUL inside a stored string loads, and the first merge or clear cuts the
  string there; it leaves a record as it was exactly when there is none
  (`HistoryMerge.KeptExactly`).
* `history_presence_flags` sets bits for EAPOL that the loader refuses; the two agree
  exactly on plain entries (`HistoryMerge.FlagsStorable`), which the fill functions
  guarantee (`LiveTable.ReachableOk`).
* The pause counter is one byte; the handshake holds while at most 255 pauses are held
  at once, and `RxDispatch.CounterWraps` is a run with 256.
* An acknowledgement without an earlier OFFER is accepted; the router MAC then is that
  of an older run (`Dora.Client.ProcessDora` states which, `Dora.AckWithoutOffer` is such a
  run).
* An odd TCP option length would leave the last byte out of the checksum
  (`PacketHeaders.CalculateChecksumTcp` states when it matters, and
  `PacketHeaders.OddOptionSpoils` is an instance); the SYN builder's length is even.
* With more than 255 pages, page 255 can be fetched but is not counted
  (`DetailsText.CountAgrees`, `DetailsText.LongTextDisagrees`).
* An empty capture is scanned to one position, and an empty frame hides what follows it
  (`Pcap.NotedExact`).
* The preflight is sufficient exactly when the stack block is larger than the remainder
  the allocator declines to split off (`StartupGuard.PreflightExact`).

## Model

| member | source | states |
|---|---|---|
| `Crc32.UpdateCrc` | EthernetAppDemo/libraries/protocol_tools/passive_history.c:100-108 | the nested bit loop leaves the register that absorbing the bytes in order gives |
| `Crc32.CrcUpdateConcat` | EthernetAppDemo/libraries/protocol_tools/passive_history.c:461-473 | absorbing in pieces, however they are cut, is absorbing the whole: chunked reading and piecewise writing agree |
| `Crc32.CrcUpdateInjective` | EthernetAppDemo/libraries/protocol_tools/passive_history.c:100-108 | equal data never merge two register values: each step is injective on 32-bit states |
| `Crc32.BurstDetected` | EthernetAppDemo/libraries/protocol_tools/passive_history.c:100-112 | two blocks that differ only inside a window of at most four bytes have different checksums (section 8 of RFC 1952) |
| `CrcDivision.GeneratorPowers` | EthernetAppDemo/libraries/protocol_tools/passive_history.c:104 | the generator that belongs to the constant of the bit loop is the CRC-32 polynomial, power by power |
| `CrcDivision.RegisterIsRemainder` | EthernetAppDemo/libraries/protocol_tools/passive_history.c:100-108 | a value is the register after a block if and only if it is the remainder of the block, with the old register added to its first bits, on division by that generator over two elements |
| `CrcDivision.CrcIsRemainder` | EthernetAppDemo/libraries/protocol_tools/passive_history.c:100-112 | a value is the checksum of a block if and only if its complement is the remainder of the block with its first 32 bits complemented (section 8 of RFC 1952) |
| `HistoryPayload.ParseItemsExact` | EthernetAppDemo/libraries/protocol_tools/passive_history.c:146-170 | whatever the payload reader accepts is the encoding of what it read, with nothing left over |
| `HistoryPayload.ParseItemsOfEncoding` | EthernetAppDemo/libraries/protocol_tools/passive_history.c:121-170 | the reader reads back every item list that fits its shapes |
| `HistoryPayload.FlagsOfMarkTexts` | EthernetAppDemo/libraries/protocol_tools/passive_history.c:172-192 | the presence word has a text bit exactly where the text is not empty |
| `HistoryPayload.DecodeOfEncode` | EthernetAppDemo/libraries/protocol_tools/passive_history.c:228-395 | decoding what was encoded gives the neighbour restricted to the protocol's own fields, for every neighbour with terminated strings and each protocol |
| `HistoryPayload.EncodeOfDecode` | EthernetAppDemo/libraries/protocol_tools/passive_history.c:228-395 | encoding what was decoded reproduces payload and flags, for every accepted payload with valid flags and no NUL inside its strings |
| `HistoryPayload.PayloadFits` | EthernetAppDemo/libraries/protocol_tools/passive_history.c:12-15 | encoding terminated strings never needs more than 463, 308 or 68 bytes |
| `HistoryPayload.PayloadMaxReached` | EthernetAppDemo/libraries/protocol_tools/passive_history.c:12-15 | those three maxima are reached, so they are exact |
| `HistoryPayload.PayloadSize` | EthernetAppDemo/libraries/protocol_tools/passive_history.c:228-291 | the payload length as the protocol's fixed bytes plus the lengths of its texts |
| `HistoryLayout.PayloadLayout` | EthernetAppDemo/libraries/protocol_tools/passive_history.c:228-291 | the payload of each protocol byte by byte: which fields, in which order and width |
| `HistoryLayout.FlagLayout` | EthernetAppDemo/libraries/protocol_tools/passive_history.c:20-32 | the sixteen bits of the presence word, numbered: the texts that are there and, for LLDP, its optional parts |
| `HistoryCodec.StringLength` | EthernetAppDemo/libraries/protocol_tools/passive_history.c:114-119 | the length up to the first NUL, or the capacity when there is none |
| `HistoryCodec.PayloadWriter.PutU8` | EthernetAppDemo/libraries/protocol_tools/passive_history.c:121-125 | writes one more item exactly when there is room; otherwise nothing changes |
| `HistoryCodec.PayloadWriter.PutU16` | EthernetAppDemo/libraries/protocol_tools/passive_history.c:127-132 | likewise for a little-endian word |
| `HistoryCodec.PayloadWriter.PutString` | EthernetAppDemo/libraries/protocol_tools/passive_history.c:134-144 | appends a counted string exactly when it is terminated, shorter than 256 and fits |
| `HistoryCodec.PayloadReader.GetU8` | EthernetAppDemo/libraries/protocol_tools/passive_history.c:146-150 | takes the next item of the plan; on failure no parse of the whole payload exists |
| `HistoryCodec.PayloadReader.GetU16` | EthernetAppDemo/libraries/protocol_tools/passive_history.c:152-157 | likewise for a word |
| `HistoryCodec.PayloadReader.GetString` | EthernetAppDemo/libraries/protocol_tools/passive_history.c:159-170 | likewise for a string, which must be shorter than its array and present exactly when flagged |
| `HistoryCodec.EncodePayload` | EthernetAppDemo/libraries/protocol_tools/passive_history.c:228-291 | the buffer code writes exactly the specified items and flags, and fails exactly for an unterminated string |
| `HistoryCodec.DecodePayload` | EthernetAppDemo/libraries/protocol_tools/passive_history.c:293-395 | the cursor code accepts exactly what the specification decodes, and gives the same neighbour |
| `HistoryFile.LoadExact` | EthernetAppDemo/libraries/protocol_tools/passive_history.c:435-526 | a file loads to a record list if and only if it is the image of that list and the list is valid (fields, flags, keys distinct, at most 32) |
| `HistoryFile.LoadWritten` | EthernetAppDemo/libraries/protocol_tools/passive_history.c:617-670 | every valid list that is written loads back |
| `HistoryFile.LoadedIsWritten` | EthernetAppDemo/libraries/protocol_tools/passive_history.c:435-526 | whatever loads Ready is byte for byte the file written for the list it loads to |
| `HistoryFile.BodyBurstDetected` | EthernetAppDemo/libraries/protocol_tools/passive_history.c:461-475 | changing up to four consecutive bytes of the body of a loadable file makes it Invalid |
| `HistoryFile.OneByteDetected` | EthernetAppDemo/libraries/protocol_tools/passive_history.c:449-475 | changing any one byte of a loadable file, header or body, makes it Invalid |
| `HistoryLayout.FileLayout` | EthernetAppDemo/libraries/protocol_tools/passive_history.c:649-670 | the file header byte by byte: magic, version, header size, count, body size, body CRC and header CRC, each at its offset |
| `HistoryLayout.RecordLayout` | EthernetAppDemo/libraries/protocol_tools/passive_history.c:617-647 | record k lies behind the k records before it, with version, protocol code, flags, length, address, CRC and payload at their offsets |
| `HistoryMerge.FlagsStorable` | EthernetAppDemo/libraries/protocol_tools/passive_history.c:172-226 | the presence word has bits the loader refuses exactly for an EAPOL entry with a port, management address or description |
| `HistoryMerge.RecordOfValid` | EthernetAppDemo/libraries/protocol_tools/passive_history.c:617-647 | a written record loads back if and only if its neighbour is storable, and then gives the protocol's own fields |
| `HistoryMerge.DecodedStorable` | EthernetAppDemo/libraries/protocol_tools/passive_history.c:293-395 | whatever decodes can be encoded and stored again |
| `HistoryMerge.KeptExactly` | EthernetAppDemo/libraries/protocol_tools/passive_history.c:708-716 | a record that is carried over stays byte for byte the same if and only if its strings hold no NUL |
| `HistoryMerge.RewrittenReads` | EthernetAppDemo/libraries/protocol_tools/passive_history.c:708-716 | a carried-over record keeps its key and reads back as the saved neighbour with its texts cut at their NUL |
| `HistoryMerge.WrittenNulFree` | EthernetAppDemo/libraries/protocol_tools/passive_history.c:134-144 | every record this code writes has NUL-free strings |
| `HistoryMerge.FindLiveExact` | EthernetAppDemo/libraries/protocol_tools/passive_history.c:681-687 | the live lookup succeeds exactly for the keys the filtered table offers, with an entry of that key |
| `HistoryMerge.OldKeysKept` | EthernetAppDemo/libraries/protocol_tools/passive_history.c:708-716 | old keys keep their positions, each with its live entry or its old contents |
| `HistoryMerge.NewKeysFollow` | EthernetAppDemo/libraries/protocol_tools/passive_history.c:718-737 | after them come keys the old file did not have, each with the live entry that offers it |
| `HistoryMerge.NewAllOrdered` | EthernetAppDemo/libraries/protocol_tools/passive_history.c:718-737 | new records stand in slot order, and within a slot in protocol order |
| `HistoryMerge.NewAllComplete` | EthernetAppDemo/libraries/protocol_tools/passive_history.c:718-737 | every offered key that is new gets a record, before the limit of 32 is applied |
| `HistoryMerge.MergedReloads` | EthernetAppDemo/libraries/protocol_tools/passive_history.c:689-747 | the merged list has distinct keys and valid records and loads Ready |
| `HistoryMerge.MergedIsOverride` | EthernetAppDemo/libraries/protocol_tools/passive_history.c:689-747 | for every loadable old file: the merged file read back is the saved neighbours, texts cut at their NUL, overridden by the live ones; no wrong value, every saved key, and the size is that of the override or 32, whichever is smaller |
| `HistoryMerge.MergedIsExactOverride` | EthernetAppDemo/libraries/protocol_tools/passive_history.c:689-747 | from a file without NULs in its strings nothing saved is altered |
| `HistoryMerge.ClearedContents` | EthernetAppDemo/libraries/protocol_tools/passive_history.c:757-797 | for every loadable file: a clear removes exactly the filtered protocols; every other saved neighbour reads back with its texts cut at their NUL, and unchanged when there is none |
| `HistoryMerge.FailedLoadExact` | EthernetAppDemo/libraries/protocol_tools/passive_history.c:439-445 | what a merge writes when its load failed on storage: the live entries alone, which is the right contents if and only if every saved key is live |
| `HistoryMerge.FailedClearExact` | EthernetAppDemo/libraries/protocol_tools/passive_history.c:749-797 | a clear whose load failed on storage leaves nothing, which is the right contents if and only if the filter takes every saved key |
| `HistoryMerge.MergedNulFree` | EthernetAppDemo/libraries/protocol_tools/passive_history.c:689-747 | after a merge all stored strings are NUL-free, whatever the old file had |
| `HistoryStore.HasEntryKeys` | EthernetAppDemo/libraries/protocol_tools/passive_history.c:422-433 | a key is in the index if and only if it is the key of a record |
| `HistoryStore.RecordAtIndexed` | EthernetAppDemo/libraries/protocol_tools/passive_history.c:397-420 | reading through entry i of a file's index gives record i |
| `HistoryStore.RecordAtParse` | EthernetAppDemo/libraries/protocol_tools/passive_history.c:397-420 | reading through an entry is parsing the record at its offset |
| `HistoryStore.RecordRead` | EthernetAppDemo/libraries/protocol_tools/passive_history.c:397-420 | the file read gives exactly the record the entry leads to, or a storage fault occurred |
| `HistoryStore.PassiveHistory.KeyExists` | EthernetAppDemo/libraries/protocol_tools/passive_history.c:422-433 | true exactly when the index holds the key |
| `HistoryStore.PassiveHistory.CheckHeader` | EthernetAppDemo/libraries/protocol_tools/passive_history.c:447-459 | accepts exactly the headers that pass every field check and the header CRC, unless storage failed |
| `HistoryStore.PassiveHistory.CheckBody` | EthernetAppDemo/libraries/protocol_tools/passive_history.c:461-475 | the 128-byte chunks yield the CRC of the whole body |
| `HistoryStore.PassiveHistory.LoadRecords` | EthernetAppDemo/libraries/protocol_tools/passive_history.c:477-512 | the record loop accepts exactly the bodies the specification parses, and its index is that of the parsed list |
| `HistoryStore.PassiveHistory.Load` | EthernetAppDemo/libraries/protocol_tools/passive_history.c:435-526 | status and index are those of the specified load; a storage fault can only turn them into Missing or Invalid with an empty index |
| `HistoryStore.PassiveHistory.Count` | EthernetAppDemo/libraries/protocol_tools/passive_history.c:549-558 | the number of keys the filter selects, zero when Invalid |
| `HistoryStore.PassiveHistory.GetKey` | EthernetAppDemo/libraries/protocol_tools/passive_history.c:560-579 | the selected keys by position, and none at or past the count |
| `HistoryStore.KeysForIndexed` | EthernetAppDemo/libraries/protocol_tools/passive_history.c:560-579 | an index of a valid file enumerates its keys in file order |
| `HistoryStore.PassiveHistory.DecodeKey` | EthernetAppDemo/libraries/protocol_tools/passive_history.c:581-603 | the neighbour that the key's entry leads to in whatever the file holds now, so while file and index agree the saved neighbour of the key; nothing when there is none, or when storage failed |
| `HistoryCommit.HistoryWriter.Begin` | EthernetAppDemo/libraries/protocol_tools/passive_history.c:605-615 | opens the temporary file with a blank header; the history path is not touched |
| `HistoryCommit.HistoryWriter.Add` | EthernetAppDemo/libraries/protocol_tools/passive_history.c:617-647 | the temporary file and the running size, CRC and count gain exactly one record, or nothing is added for a full file, an unterminated string or a fault |
| `HistoryCommit.HistoryWriter.Finish` | EthernetAppDemo/libraries/protocol_tools/passive_history.c:649-670 | true: the history path holds the complete file of the records; false: it holds what it held before. It never holds anything else |
| `HistoryCommit.HistoryWriter.Abort` | EthernetAppDemo/libraries/protocol_tools/passive_history.c:672-679 | the history path keeps its contents |
| `HistoryCommit.FindLiveEntry` | EthernetAppDemo/libraries/protocol_tools/passive_history.c:681-687 | the live entry of a key when the filter admits the protocol |
| `HistoryCommit.CopyUpdated` | EthernetAppDemo/libraries/protocol_tools/passive_history.c:708-716 | the writer holds the old records, each replaced by its live entry; it stops only for a fault or an unterminated live string |
| `HistoryCommit.AddNew` | EthernetAppDemo/libraries/protocol_tools/passive_history.c:718-737 | the writer gains the new records up to 32 in all |
| `HistoryCommit.MergeLive` | EthernetAppDemo/libraries/protocol_tools/passive_history.c:689-747 | true: the disk holds exactly the merged file and it loads Ready with the merged list; false: the old file is there. At every storage step the path held the old contents or the final ones, with any storage call allowed to fail |
| `HistoryCommit.ReadRemainingFresh` | EthernetAppDemo/libraries/protocol_tools/passive_history.c:776-785 | with an up-to-date index, the records a clear copies are those of the protocols left alone |
| `HistoryCommit.ReadRemainingValid` | EthernetAppDemo/libraries/protocol_tools/passive_history.c:776-785 | whatever the file has become since the index was loaded, the records a clear copies through it are a list that a file can hold, with distinct keys and NUL-free strings |
| `HistoryCommit.Clear` | EthernetAppDemo/libraries/protocol_tools/passive_history.c:757-797 | the same atomicity for a clear, with an index that may be older than the file: true means a complete new file that loads Ready, false means the old contents; on success the index is reloaded |
| `HistoryCommit.OlderIndexCopies` | EthernetAppDemo/libraries/protocol_tools/passive_history.c:776-785 | a clear through an index from before records were added copies what remains of the earlier ones, which is right if and only if the filter takes every key that was added |
| `HistoryCommit.ClearStorage` | EthernetAppDemo/libraries/protocol_tools/passive_history.c:749-755 | load then clear: of the records that were loaded exactly those of the protocols left alone remain, and the new file loads Ready; a load that failed on storage loaded none, so then every saved record goes and the answer is still true |
| `HistoryRuns.WrittenReloads` | EthernetAppDemo/libraries/protocol_tools/passive_history.c:689-797 | every operation that can succeed leaves a complete, NUL-free file that loads: merges, clears with a fresh index and clears through an older one, also those whose load failed on storage |
| `HistoryRuns.RunReloads` | EthernetAppDemo/libraries/protocol_tools/passive_history.c:689-797 | after any run of at least one such operation the file loads Ready, whatever the path held at first: nothing, a valid file or garbage |
| `HistoryRuns.MergeStep` | EthernetAppDemo/libraries/protocol_tools/passive_history.c:689-747 | a merge that succeeds is a step of such a run; it is one that did not read the old file only after a storage fault |
| `HistoryRuns.ClearFreshStep` | EthernetAppDemo/libraries/protocol_tools/passive_history.c:749-755 | a clear with a fresh index likewise |
| `HistoryRuns.ClearThroughStep` | EthernetAppDemo/libraries/protocol_tools/passive_history.c:757-797 | a clear with whatever index is in memory likewise |
| `HistoryRuns.FailedLoadForgets` | EthernetAppDemo/libraries/protocol_tools/passive_history.c:439-445 | a saved neighbour and an empty table for which a merge that reads the file keeps the file as it is and one whose load failed forgets the neighbour |
| `HistoryRuns.FailedClearForgets` | EthernetAppDemo/libraries/protocol_tools/passive_history.c:749-797 | a saved EAPOL neighbour that a clear of CDP keeps when it reads the file, and erases while it reports success when its load failed |
| `HistoryRuns.ReachablePossible` | EthernetAppDemo/libraries/protocol_tools/passive_history.c:689-747 | a merge of every table that frames and table clears lead to is a step of such runs |
| `HistoryRuns.LivedFileLoads` | EthernetAppDemo/libraries/protocol_tools/passive_history.c:689-797 | from the wire to the file: however frames, table clears, merges of the table reached and clears follow one another, and whatever the path held at first, once an operation has succeeded the file loads |
| `Storage.Store.Rename` | EthernetAppDemo/libraries/protocol_tools/passive_history.c:664-668 | rename replaces the target in one step or changes nothing (the assumption the commit rests on) |
| `NeighborDb.SlotsExact` | EthernetAppDemo/libraries/protocol_tools/neighbor_db.c:96-184 | the enumeration visits exactly the selected slots, each once, in increasing order |
| `NeighborDb.TableServed` | EthernetAppDemo/libraries/protocol_tools/neighbor_db.c:18-38 | when the guard says Ready for the table, a first-fit allocator serves it and the reserve stays free, up to the slack |
| `NeighborDb.Database.Acquire` | EthernetAppDemo/libraries/protocol_tools/neighbor_db.c:40-65 | an existing table is kept; otherwise the guard decides on the table's block and the reserve, then the allocator, and a zeroed table of 32 entries results exactly on Ready; the diagnostic records the decision |
| `NeighborDb.Database.CountSelected` | EthernetAppDemo/libraries/protocol_tools/neighbor_db.c:96-110 | the length of the enumeration |
| `NeighborDb.Database.GetSelected` | EthernetAppDemo/libraries/protocol_tools/neighbor_db.c:112-130 | the slot at the position, valid if and only if the position is below the count |
| `NeighborDb.Database.FindBySource` | EthernetAppDemo/libraries/protocol_tools/neighbor_db.c:216-238 | the first occupied slot with the address and a common source bit |
| `NeighborDb.AddedExact` | EthernetAppDemo/libraries/protocol_tools/neighbor_db.c:240-264 | an entry is refused if and only if every slot is occupied and none has its address and a common source; otherwise exactly one slot changes: the first with that address and source, or else the lowest free one, which then holds the entry as occupied |
| `NeighborDb.Database.Add` | EthernetAppDemo/libraries/protocol_tools/neighbor_db.c:240-264 | the search and the loop over the free slots do exactly that, in place; without a table or room the answer is false and the table unchanged |
| `NeighborDb.Database.Update` | EthernetAppDemo/libraries/protocol_tools/neighbor_db.c:266-281 | replaces the entry found by address and source, else fails with the table unchanged |
| `NeighborDb.Database.ClearBySource` | EthernetAppDemo/libraries/protocol_tools/neighbor_db.c:132-146 | takes the masked source bits away; entries left without a source become blank slots |
| `LiveTable.TableOkStorable` | EthernetAppDemo/libraries/protocol_tools/passive_history.c:216-226 | one source bit per entry, no shared address and source, and plain EAPOL entries are what the saved history asks of the table |
| `LiveTable.ObserveKeepsOk` | EthernetAppDemo/libraries/protocol_tools/neighbor_db.c:240-281 | adding or updating an entry of one protocol keeps that |
| `LiveTable.ClearedExact` | EthernetAppDemo/libraries/protocol_tools/neighbor_db.c:132-146 | on such a table a clear empties exactly the entries of the masked sources |
| `LiveTable.LldpFresh` | EthernetAppDemo/libraries/protocol_tools/lldp.c:343-441 | the LLDP fill yields one source bit and terminated strings |
| `LiveTable.CdpFresh` | EthernetAppDemo/libraries/protocol_tools/cdp.c:301-326 | the CDP fill likewise |
| `LiveTable.EapolFresh` | EthernetAppDemo/libraries/protocol_tools/eapol.c:141-161 | the EAPOL fill likewise, with no port, management address or description |
| `LiveTable.CarriedFresh` | EthernetAppDemo/modules/eapol_module.c:15-36 | a blank identity takes over the name of the entry already there; the result is still storable |
| `LiveTable.ReachableOk` | EthernetAppDemo/modules/eapol_module.c:15-36 | every table reached by any run of LLDP, CDP and EAPOL frames and clears has the invariant |
| `LiveTable.LiveKeysBound` | EthernetAppDemo/libraries/protocol_tools/neighbor_db.c:240-281 | a table with that invariant has no more live keys than entries |
| `LiveTable.ReachableMerge` | EthernetAppDemo/libraries/protocol_tools/passive_history.c:689-747 | so for every table that can be reached and every valid saved list the merged file loads Ready, and its contents are the saved neighbours overridden by the live ones, up to 32 |
| `LiveTable.ReachableFailedLoad` | EthernetAppDemo/libraries/protocol_tools/passive_history.c:439-445 | for every table that can be reached: what a merge leaves when its load failed on storage, and exactly when that is the right contents |
| `LiveTable.NamesAreLastIdentities` | EthernetAppDemo/modules/eapol_module.c:15-36 | in every run an EAPOL entry's name is the last non-blank identity of its address since the entry was created |
| `TableMap.TableIsMap` | EthernetAppDemo/modules/eapol_module.c:15-36 | over every run of frames and clears the 32 slots hold exactly a bounded map: per address and protocol the latest neighbour seen since it was cleared, each in one slot, a new key being taken while there are fewer than 32 |
| `TableMap.RoomExact` | EthernetAppDemo/libraries/protocol_tools/neighbor_db.c:240-264 | the table takes an entry if and only if its key is in the map or the map has fewer than 32 keys |
| `TableMap.FrameIsEntered` | EthernetAppDemo/modules/eapol_module.c:15-36 | after an accepted frame whose address and protocol had an entry, or which found a free slot, the table has an entry of that address and protocol with the observed contents; an EAPOL entry may have kept its name |
| `TableMap.LiveMapIsSeen` | EthernetAppDemo/libraries/protocol_tools/passive_history.c:681-687 | over every run, what a merge takes from the table is exactly the latest neighbour seen for each key that its protocol filter admits |
| `TableMap.MergeKeepsSeen` | EthernetAppDemo/libraries/protocol_tools/passive_history.c:689-747 | from the wire to the file, for every run and every valid saved list: a merge leaves a file that loads Ready, with the saved neighbours overridden by the latest ones seen, up to 32 |
| `LiveTable.Enter` | EthernetAppDemo/modules/lldp_module.c:63-79 | the find, update-or-add sequence produces the observed table |
| `LiveTable.ProcessFrame` | EthernetAppDemo/modules/cdp_module.c:15-32 | a frame handler leaves the table of the specification, and answers whether there was room |
| `Lldp.Parse` | EthernetAppDemo/libraries/protocol_tools/lldp.c:453-528 | the cursor loop over the frame computes the specified parse |
| `Lldp.ReadHeader` | EthernetAppDemo/libraries/protocol_tools/lldp.c:466-473 | seven bits of type and nine bits of length |
| `Lldp.ParseBuilt` | EthernetAppDemo/libraries/protocol_tools/lldp.c:453-528 | any list of built TLVs closed by an End TLV parses to the fold of the handlers over what precedes its first End |
| `Lldp.ParseRejects` | EthernetAppDemo/libraries/protocol_tools/lldp.c:453-528 | a list without End, or cut inside a TLV, is rejected |
| `Lldp.ParseExact` | EthernetAppDemo/libraries/protocol_tools/lldp.c:453-528 | the parser accepts exactly the TLV lists closed by End, and yields exactly their fold |
| `LldpSender.AdvertBuildable` | tools/passive-discovery-testing/lldp_test_sender.py:319-344 | every TLV of an advertisement has a 7-bit type and a 9-bit length and none is an End |
| `LldpEntry.FrameShown` | EthernetAppDemo/libraries/protocol_tools/lldp.c:39-441 | a frame with any list of TLVs, in any order and number, is accepted if and only if a complete TLV of type 0 closes the list; then every field of the neighbour entry is that of the last TLV that announces it, with TLV types, organization codes, subtypes and lengths written out |
| `LldpEntry.FoldReads` | EthernetAppDemo/libraries/protocol_tools/lldp.c:39-341 | TLVs do not disturb one another: each field of the record is read from the last TLV that announces it, whatever stands around it |
| `LldpEntry.EveryFrame` | EthernetAppDemo/libraries/protocol_tools/lldp.c:453-528 | every frame of the EtherType is such a list followed by bytes that close it, end it or cut it short, so the statement above covers all frames |
| `LldpEntry.ShownIsBuilt` | EthernetAppDemo/libraries/protocol_tools/lldp.c:443-528 | and every accepted frame is such a list that is closed |
| `LldpSender.AdvertShown` | tools/passive-discovery-testing/lldp_test_sender.py:1181-1308 | the frame the sender makes puts an entry in the receiver's table with the advertised IDs, TTL, names, capabilities, management address, PVID, VLAN name, policy VLAN and MED power |
| `LldpSender.AdvertComesBack` | tools/passive-discovery-testing/lldp_test_sender.py:1181-1308 | parsing a built frame gives back the IDs, TTL, names, capabilities, management address, PVID, VLAN name, policy VLAN and MED power, texts cut to their fields |
| `Cdp.GetPduExact` | EthernetAppDemo/libraries/protocol_tools/cdp.c:22-60 | the envelope is accepted if and only if the frame begins with a PDU of 4 to 1492 bytes behind the CDP address, its length and the Cisco SNAP header, and yields that PDU |
| `Cdp.AddressesExact` | EthernetAppDemo/libraries/protocol_tools/cdp.c:103-162 | an address list is read back if and only if the data is its encoding and each IPv4 entry has four bytes |
| `Cdp.ParseAddresses` | EthernetAppDemo/libraries/protocol_tools/cdp.c:103-162 | the offset loop computes the specified management address |
| `Cdp.WalkEncoded` | EthernetAppDemo/libraries/protocol_tools/cdp.c:168-259 | walking encoded TLVs is folding the handlers over the list |
| `Cdp.WalkedIsEncoded` | EthernetAppDemo/libraries/protocol_tools/cdp.c:168-259 | and only encoded lists are walked to their end |
| `Cdp.Parse` | EthernetAppDemo/libraries/protocol_tools/cdp.c:168-259 | the loop with its checksum test computes the specified parse |
| `Cdp.BuiltFrameParses` | EthernetAppDemo/libraries/protocol_tools/cdp.c:168-259 | a frame with the right checksum is accepted exactly when version, every TLV and a non-blank device ID allow it, and yields the fold |
| `Cdp.DescriptionCuts` | EthernetAppDemo/libraries/protocol_tools/cdp.c:261-299 | platform, separator and software version never exceed the description |
| `CdpEntry.FrameShown` | EthernetAppDemo/libraries/protocol_tools/cdp.c:168-326 | a frame written out byte by byte, with any TLVs in any order and number, is accepted if and only if its PDU sums to all ones, its version is 1 or 2, its lists and capability words are well formed and the last device ID is not blank; then the entry's name, port, description, first IPv4 address, low 16 capability bits and TTL are those of the last TLVs of types 1, 3, 6 and 5, of all address TLVs, and of the last of type 4 |
| `CdpEntry.ShownIsBuilt` | EthernetAppDemo/libraries/protocol_tools/cdp.c:22-259 | every accepted frame is of that form |
| `CdpEntry.AddressListExact` | EthernetAppDemo/libraries/protocol_tools/cdp.c:103-162 | the value of an address TLV is read as a list if and only if it is the count and the encoding of that list |
| `Eapol.FilledName` | EthernetAppDemo/libraries/protocol_tools/eapol.c:51-161 | an accepted frame's entry is named by the printable identity of an EAP identity response, and is blank otherwise |
| `Eapol.FrameExact` | EthernetAppDemo/libraries/protocol_tools/eapol.c:18-161 | exactly the frames of EtherType 888E are accepted whose version is 1 to 3, whose body fits, and whose packet type allows the body; the entry holds their version, packet type, EAP code and type and nothing else but the name |
| `Texts.CopyPrintable` | EthernetAppDemo/libraries/protocol_tools/cdp.c:82-101 | the filtered copy with backwards trimming leaves the shown text, terminated |
| `Texts.ShownExact` | EthernetAppDemo/libraries/protocol_tools/cdp.c:82-101 | the shown text is the field as far as it fits, other bytes as spaces, with no space at its end and nothing printable dropped |
| `Texts.MacTextReads` | EthernetAppDemo/libraries/protocol_tools/lldp.c:5-18 | the printed address determines the address |
| `Texts.IpTextReads` | EthernetAppDemo/libraries/protocol_tools/lldp.c:20-24 | the dotted text determines the address |
| `RxDispatch.MutexKept` | EthernetAppDemo/libraries/chip/rx_dispatch.c:97-104 | the mutex is held by exactly the thread that is inside a critical section, after every step of any thread |
| `RxDispatch.SlotsKept` | EthernetAppDemo/libraries/chip/rx_dispatch.c:158-187 | slots in use and registered clients point at each other, after every step |
| `RxDispatch.NoDanglingCall` | EthernetAppDemo/libraries/chip/rx_dispatch.c:97-104 | every predicate or handler call goes through a slot in use, to a client that has not finished unregistering |
| `RxDispatch.ReturnedUntouched` | EthernetAppDemo/libraries/chip/rx_dispatch.c:179-187 | once rx_unregister has returned, no step of any thread runs that client's callbacks or changes its context |
| `RxDispatch.FinishedIsUntouched` | EthernetAppDemo/libraries/scanner/scanner_session.c:256-262 | the same over whole runs from the initial state, so the wait's stack and semaphore are never touched after it returns, whether it matched, timed out or was cancelled |
| `RxDispatch.NoReceiveWhilePaused` | EthernetAppDemo/libraries/chip/rx_dispatch.c:57-81 | while a pauser that saw the acknowledgement holds its pause, no interleaving contains a receive_packet |
| `RxDispatch.PauseHandshake` | EthernetAppDemo/libraries/chip/rx_dispatch.c:189-221 | the same over whole runs from the initial state, for nested pauses of any threads, while at most 255 are held at once |
| `RxDispatch.PauseCanEnd` | EthernetAppDemo/libraries/chip/rx_dispatch.c:189-221 | a run in which a pause is acknowledged and taken back and the reader receives again |
| `RxDispatch.PauseStopsReceipt` | EthernetAppDemo/libraries/chip/rx_dispatch.c:57-81 | while pauses are counted, at most one packet is received, whatever the interleaving: the one the reader was about to receive |
| `RxDispatch.StopEndsReceipt` | EthernetAppDemo/libraries/chip/rx_dispatch.c:57-81 | after a stop, from whatever state, at most one packet is received |
| `RxDispatch.ReachableAck` | EthernetAppDemo/libraries/chip/rx_dispatch.c:57-81 | in every reachable state, while an acknowledgement stands the reader is not draining the chip |
| `RxDispatch.CounterWraps` | EthernetAppDemo/libraries/chip/rx_dispatch.c:189-197 | the bound is exact: a run that never holds more than 256 pauses in which the counter turns to zero and the reader receives while an acknowledged pause is held |
| `RxDispatch.ReachableWaits` | EthernetAppDemo/libraries/scanner/scanner_session.c:167-185 | the one-shot invariants of every wait hold in every reachable state |
| `RxDispatch.WaitOutcome` | EthernetAppDemo/libraries/scanner/scanner_session.c:187-263 | a finished wait released its semaphore at most once; it reports success if and only if it took that release, and then with the length of the first frame accepted; its predicate was asked about every frame dispatched while it was registered, in order, up to that one |
| `RxDispatch.WaitCanSucceed` | EthernetAppDemo/libraries/scanner/scanner_session.c:187-263 | for every frame, a run in which a wait registers, the reader finds the frame accepted, and the wait returns with success and the frame's length |
| `RxDispatch.WaitCanGiveUp` | EthernetAppDemo/libraries/scanner/scanner_session.c:187-263 | a run in which a wait gives up and returns without success |
| `RxDispatch.ListenerServed` | EthernetAppDemo/libraries/chip/rx_dispatch.c:97-104 | any other client, in every reachable state with the reader outside its critical section: its predicate was asked about every frame dispatched while it was registered, in order, and its handler was run with exactly those that were accepted |
| `NextHop.InSubnet` | EthernetAppDemo/libraries/scanner/scanner_session.c:57-68 | byte-wise masked comparison |
| `NextHop.SubnetOfWords` | EthernetAppDemo/libraries/scanner/scanner_session.c:57-68 | which is the comparison of the network parts of the two 32-bit addresses |
| `NextHop.Session.Lookup` | EthernetAppDemo/libraries/scanner/scanner_session.c:70-78 | a hit exactly for the addresses among the last four answers, with their MAC |
| `NextHop.Session.Insert` | EthernetAppDemo/libraries/scanner/scanner_session.c:80-86 | the answer replaces the oldest; the slots again hold exactly the last four answers |
| `NextHop.FirstReplyExact` | EthernetAppDemo/libraries/scanner/scanner_session.c:130-143 | a reply counts exactly when it comes in one of the first ten attempts and no cancellation precedes it |
| `NextHop.Session.Resolve` | EthernetAppDemo/libraries/scanner/scanner_session.c:88-154 | target or gateway by subnet; a cache hit changes nothing; otherwise the first reply is returned and stored, and the gateway MAC follows exactly when the address resolved is the session's own gateway array |
| `NextHop.AnswerStays` | EthernetAppDemo/libraries/scanner/scanner_session.c:80-86 | an answer stays, and is the only one for its address, until four others have been stored |
| `Dhcp.OptionsAreValid` | EthernetAppDemo/libraries/protocol_tools/dhcp.c:13-26 | true exactly when a walk over the options reaches END inside the area |
| `Dhcp.ValidIsEncoded` | EthernetAppDemo/libraries/protocol_tools/dhcp.c:13-26 | the valid areas are exactly a list of options and pads, END, and anything after it |
| `Dhcp.GetOption` | EthernetAppDemo/libraries/protocol_tools/dhcp.c:191-215 | the cursor loop computes the specified lookup |
| `Dhcp.EncodedLookup` | EthernetAppDemo/libraries/protocol_tools/dhcp.c:191-215 | a lookup finds exactly the first option with the code before END (section 2 of RFC 2132) |
| `Dhcp.LookupExact` | EthernetAppDemo/libraries/protocol_tools/dhcp.c:191-215 | on every valid area the lookup is the first occurrence in the list that the area encodes |
| `Dhcp.FrameParses` | EthernetAppDemo/libraries/protocol_tools/dhcp.c:144-189 | a well-formed message is found again, exactly, in the frame built around it |
| `Dhcp.WireFound` | EthernetAppDemo/libraries/protocol_tools/dhcp.c:144-189 | a payload between the DHCP ports behind any IPv4 header, options included, is found whatever surrounds it |
| `Dhcp.WireOnly` | EthernetAppDemo/libraries/protocol_tools/dhcp.c:144-189 | and only in frames of that form is a payload found |
| `Dhcp.MessageShape` | EthernetAppDemo/libraries/protocol_tools/dhcp.c:28-142 | the fixed part of a client's message byte by byte, and behind it the options |
| `Dhcp.OptionBytes` | EthernetAppDemo/libraries/protocol_tools/dhcp.c:28-142 | the options of a DISCOVER and of a REQUEST byte for byte |
| `Dhcp.BuiltFrame` | EthernetAppDemo/libraries/protocol_tools/dhcp.c:144-189 | every frame built from a list of options is accepted, and every lookup in it is a lookup in the list |
| `Dhcp.DiscoverComesBack` | EthernetAppDemo/libraries/protocol_tools/dhcp.c:28-78 | a DISCOVER is accepted and classified as one, and type, client identifier, host name and request list come back intact |
| `Dhcp.RequestComesBack` | EthernetAppDemo/libraries/protocol_tools/dhcp.c:80-142 | a REQUEST likewise, with the requested address and the server identifier |
| `Dhcp.PutDiscover` | EthernetAppDemo/libraries/protocol_tools/dhcp.c:28-78 | the buffer code writes exactly the DISCOVER message |
| `Dhcp.PutRequest` | EthernetAppDemo/libraries/protocol_tools/dhcp.c:80-142 | the buffer code writes exactly the REQUEST message |
| `Dhcp.SetDiscoverFrame` | EthernetAppDemo/modules/dhcp_protocol.c:154-183 | the whole frame with its Ethernet, IPv4 and UDP headers |
| `Dhcp.SetRequestFrame` | EthernetAppDemo/modules/dhcp_protocol.c:186-216 | likewise for the REQUEST |
| `Dhcp.FrameHeaders` | EthernetAppDemo/modules/dhcp_protocol.c:154-216 | those headers byte for byte: broadcast from no address, from port 68 to port 67, lengths that fit, an IPv4 header that sums to all ones |
| `Dora.Client.DeconstructOffer` | EthernetAppDemo/modules/dhcp_protocol.c:56-82 | accepts exactly an OFFER of this run with a four-byte server identifier, and remembers that one |
| `Dora.Client.DeconstructAck` | EthernetAppDemo/modules/dhcp_protocol.c:88-138 | takes over address, mask, router, DNS and server from one acknowledgement of this run, or changes nothing |
| `Dora.Client.Listen` | EthernetAppDemo/modules/dhcp_protocol.c:286-309 | an OFFER is tried first, then an acknowledgement; anything else changes nothing |
| `Dora.Client.ProcessDora` | EthernetAppDemo/modules/dhcp_protocol.c:218-337 | what is sent and accepted in a run is exactly the talk that the turns determine, and the answer is true if and only if some turn heard while waiting carries an acknowledgement before the run ends; at most one DISCOVER is sent, and first; the caller's addresses change only on true and then come from one acknowledgement of this run; the broadcast filter is as at entry |
| `Dora.DiscoverIsSent` | EthernetAppDemo/modules/dhcp_protocol.c:262-273 | the first live turn sends the DISCOVER |
| `Dora.OfferIsAnswered` | EthernetAppDemo/modules/dhcp_protocol.c:274-284 | every accepted OFFER is followed at once by its REQUEST, unless the link, the cancel flag, the clock or the list of turns ended the run there |
| `Dora.LeasedExact` | EthernetAppDemo/modules/dhcp_protocol.c:286-309 | a run ends with a lease if and only if a turn that listens, before anything stops the run, carries one |
| `Dora.OfferReads` | EthernetAppDemo/modules/dhcp_protocol.c:56-82 | a server's message of type 2 in any frame is read as the offer of its address and its four-byte server identifier |
| `Dora.LeaseReads` | EthernetAppDemo/modules/dhcp_protocol.c:88-138 | a server's message of type 5 is read as a lease of its address, mask, router and server |
| `Dora.OfferExact` | EthernetAppDemo/modules/dhcp_protocol.c:56-82 | any frame at all is accepted as an OFFER if and only if it carries, in some IPv4 and UDP surroundings, a server message of this transaction with cookie, valid options, type 2 and a four-byte server identifier; the values are those in it |
| `Dora.LeaseExact` | EthernetAppDemo/modules/dhcp_protocol.c:88-138 | and brings a lease if and only if it carries one of type 5 with a four-byte mask and server, routers, and resolvers if any are named |
| `Dora.ExchangeSucceeds` | EthernetAppDemo/modules/dhcp_protocol.c:218-337 | a run of DISCOVER, OFFER, REQUEST and acknowledgement that ends with the lease, for all addresses |
| `Dora.RequestFollowsOffer` | EthernetAppDemo/modules/dhcp_protocol.c:274-284 | every REQUEST carries the address and the server identifier of the most recent accepted OFFER (section 3.1 of RFC 2131) |
| `Dora.AckWithoutOffer` | EthernetAppDemo/modules/dhcp_protocol.c:286-309 | a run in which a lease is taken without any OFFER, for every address, mask, router and server and every frame around them: the server MAC is then the one from before the run |
| `Checksum.CalculateChecksum` | EthernetAppDemo/libraries/protocol_tools/ipv4.c:6-25 | summing first and folding at the end gives the Internet checksum, with no 32-bit overflow and a fold that ends (section 1 of RFC 1071) |
| `Checksum.CalculateChecksumIpv4` | EthernetAppDemo/libraries/protocol_tools/ipv4.c:27-40 | adding the carry back after every word gives the Internet checksum |
| `Checksum.ChecksumsAgree` | EthernetAppDemo/libraries/protocol_tools/ipv4.c:6-40 | the two agree on every even-length buffer |
| `Checksum.ChecksumFills` | EthernetAppDemo/libraries/protocol_tools/ipv4.c:85-91 | a block whose field holds the checksum over a blank field sums to all ones |
| `Checksum.ChecksumUnique` | EthernetAppDemo/libraries/protocol_tools/ipv4.c:85-91 | and no other field value does, up to the two zeros of ones' complement |
| `Checksum.CdpChecksumIsValid` | EthernetAppDemo/libraries/protocol_tools/cdp.c:62-80 | accepts if and only if the padded word sum is positive and divisible by 65535 |
| `PacketHeaders.SetIpv4Header` | EthernetAppDemo/libraries/protocol_tools/ipv4.c:42-94 | writes the header fields in place, and the header sums to all ones (section 3.1 of RFC 791) |
| `PacketHeaders.Ipv4Fields` | EthernetAppDemo/libraries/protocol_tools/ipv4.c:42-94 | the offset of every field of that header |
| `PacketHeaders.TcpFields` | EthernetAppDemo/libraries/protocol_tools/tcp.c:7-41 | the offset of every field of the fixed TCP header |
| `PacketHeaders.IcmpCalculateChecksum` | EthernetAppDemo/libraries/protocol_tools/icmp.c:5-38 | the checksum over header with blank field and data |
| `PacketHeaders.SetIcmpHeader` | EthernetAppDemo/libraries/protocol_tools/icmp.c:40-75 | header and data sum to all ones |
| `PacketHeaders.CreateTcpHeader` | EthernetAppDemo/libraries/protocol_tools/tcp.c:7-41 | the fixed header fields in network order |
| `PacketHeaders.CalculateChecksumTcp` | EthernetAppDemo/libraries/protocol_tools/tcp.c:43-60 | pseudo header and segment sum to all ones if and only if the options have even length or end in a zero byte (section 3.1 of RFC 9293) |
| `PacketHeaders.OddOptionSpoils` | EthernetAppDemo/libraries/protocol_tools/tcp.c:43-60 | for one option byte, any but zero, the header that results does not sum to all ones |
| `PacketHeaders.SetTcpHeaderSyn` | EthernetAppDemo/libraries/protocol_tools/tcp.c:62-151 | a SYN with its five options, which sums to all ones |
| `PacketHeaders.SetTcpHeaderPlain` | EthernetAppDemo/libraries/protocol_tools/tcp.c:153-231 | FIN and ACK headers likewise |
| `RxRing.Chip.Arrive` | EthernetAppDemo/libraries/chip/enc28j60.c:474-490 | the chip stores a frame behind the others exactly when it fits before ERXRDPT and the counter is below 255 (section 7.2 of Microchip DS39662); the stored ones keep their bytes |
| `RxRing.Driver.Release` | EthernetAppDemo/libraries/chip/enc28j60.c:654-661 | after a delivery ERXRDPT moves to just below the next packet, also at next pointer zero: no undelivered byte is released, and with the stored packets all of the ring but two bytes is usable again |
| `RxRing.Driver.ReceivePacket` | EthernetAppDemo/libraries/chip/enc28j60.c:648-699 | accepted frames are delivered exactly once and in arrival order, cut to the caller's size, with arrivals between any two transfers; when none is delivered nothing is stored and everything is released |
| `RxRing.Driver.NextIsDelivered` | EthernetAppDemo/libraries/chip/enc28j60.c:648-699 | whatever went before: once nothing is stored, every frame that fits an empty ring is accepted when it comes next, and the next call delivers it |
| `RxRing.Driver.Deliver` | EthernetAppDemo/libraries/chip/enc28j60.c:663-690 | a stored packet is read whole and exact through the wrapping read pointer |
| `RxRing.KeptBeside` | EthernetAppDemo/libraries/chip/enc28j60.c:648-699 | bytes the chip writes behind the stored packets leave them alone |
| `RxRing.Driver.constructor` | EthernetAppDemo/libraries/chip/enc28j60.c:474-490 | the state a start leaves: an empty ring with nothing delivered |
| `RegisterBank.Driver.SetBank` | EthernetAppDemo/libraries/chip/enc28j60.c:308-323 | after it the chip and the remembered bank are the one the address asks for, and no register has changed otherwise |
| `RegisterBank.HomesAgree` | EthernetAppDemo/libraries/chip/enc28j60.c:308-347 | two addresses name one register if and only if their five number bits agree and their bank bits do, or the number is one of the five common ones |
| `RegisterBank.Driver.WriteByte` | EthernetAppDemo/libraries/chip/enc28j60.c:326-329 | a write reaches the named register and no other, whatever bank was selected; over the bank selection itself, chip and driver still agree exactly if it selects the same bank |
| `RegisterBank.Driver.ReadByte` | EthernetAppDemo/libraries/chip/enc28j60.c:338-341 | a read returns the named register, the bank selection included, and changes none |
| `RegisterBank.WordComesBack` | EthernetAppDemo/libraries/chip/enc28j60.c:332-347 | a written word is read back and any other register is as before |
| `StartupGuard.AddSaturating` | EthernetAppDemo/libraries/functions/startup_guard.c:6-8 | the sum, or SIZE_MAX when it does not fit |
| `StartupGuard.AlignUp` | EthernetAppDemo/libraries/functions/startup_guard.c:10-14 | the next multiple of eight, or SIZE_MAX |
| `StartupGuard.ReadyMeansEnough` | EthernetAppDemo/libraries/functions/startup_guard.c:21-38 | saturation never understates: Ready means the requirement in unbounded arithmetic is met |
| `StartupGuard.EnoughMeansReady` | EthernetAppDemo/libraries/functions/startup_guard.c:21-60 | and readings that meet it always get Ready |
| `StartupGuard.AnswerExact` | EthernetAppDemo/libraries/functions/startup_guard.c:21-60 | the whole answer in unbounded arithmetic: total first, then the largest block, else Ready |
| `StartupGuard.Snapshot.CheckCapture` | EthernetAppDemo/libraries/functions/startup_guard.c:69-89 | the answer and the numbers it was decided on |
| `StartupGuard.AllocateExact` | EthernetAppDemo/libraries/functions/startup_guard.c:40-51 | a first-fit allocation succeeds if and only if some block is large enough |
| `StartupGuard.AllocateLeaves` | EthernetAppDemo/libraries/functions/startup_guard.c:40-51 | a block that could serve a request and a later one still serves the later one afterwards |
| `StartupGuard.PreflightSufficient` | EthernetAppDemo/modules/passive_discovery_module.c:11-26 | Ready means first fit serves the metadata, however split, then the stack, and leaves the reserve and the additional bytes up to the slack, on every free list with those readings |
| `StartupGuard.SmallStackFails` | EthernetAppDemo/modules/passive_discovery_module.c:11-26 | for every stack block that is not larger than the slack, a free list on which the guard says Ready and the stack is refused |
| `StartupGuard.PreflightExact` | EthernetAppDemo/modules/passive_discovery_module.c:11-26 | Ready is enough on every free list and every cut of the metadata if and only if the stack block is larger than the slack, or no heap can hold the stack at all |
| `DetailsText.GlyphLength` | EthernetAppDemo/modules/passive_details_text.c:10-33 | between one and four bytes, never past the end of the text |
| `DetailsText.SequenceLength` | EthernetAppDemo/modules/passive_details_text.c:10-33 | the decoding branches compute that length |
| `DetailsText.Utf8Steps` | EthernetAppDemo/modules/passive_details_text.c:10-33 | a text that encodes code points in UTF-8 (section 3 of RFC 3629) has one glyph for each |
| `DetailsText.PageEndExact` | EthernetAppDemo/modules/passive_details_text.c:42-64 | a page ends between glyphs: at the end of the text if at most 45 are left, else at the last space among the 45 behind the first byte, else behind all 45 |
| `DetailsText.FindPageEnd` | EthernetAppDemo/modules/passive_details_text.c:42-64 | the loop computes the page end |
| `DetailsText.PagesExact` | EthernetAppDemo/modules/passive_details_text.c:66-125 | pages follow one another without overlap, offsets grow, and no page splits a decoded sequence of the whole text |
| `DetailsText.PagesKeepText` | EthernetAppDemo/modules/passive_details_text.c:66-125 | the pages in order keep every byte that is not a space, in order |
| `DetailsText.PageCount` | EthernetAppDemo/modules/passive_details_text.c:66-85 | the number of pages, one for a blank value, or 255 when there are more |
| `DetailsText.GetPage` | EthernetAppDemo/modules/passive_details_text.c:87-125 | succeeds exactly for the page numbers that exist, with that page trimmed and cut to the output; a blank value has one page that says so |
| `DetailsText.CountAgrees` | EthernetAppDemo/modules/passive_details_text.c:66-125 | count and fetch agree on every page number if and only if the value has at most 255 pages |
| `DetailsText.ShortTextAgrees` | EthernetAppDemo/modules/passive_details_text.c:66-125 | a test of the length before the call is enough: they agree on every text of fewer than 256 bytes |
| `DetailsText.LongTextDisagrees` | EthernetAppDemo/modules/passive_details_text.c:66-125 | for every number of pages past 255 a text with that many, whose page 255 is fetched and not counted |
| `Pcap.Capture.AddPacket` | EthernetAppDemo/modules/capture_module.c:71-104 | the file stays the image of all frames written, in order |
| `Pcap.RecordLies` | EthernetAppDemo/modules/capture_module.c:71-104 | each record lies at its offset, and the file ends behind the last |
| `Pcap.HeaderLayout` | EthernetAppDemo/modules/capture_module.c:50-58 | the 24 bytes of the global header |
| `Pcap.RecordPieces` | EthernetAppDemo/modules/capture_module.c:87-101 | a record holds seconds, microseconds, the length twice and the data |
| `Pcap.Scan` | EthernetAppDemo/modules/capture_module.c:171-242 | the cursor loop fills the positions of the specified scan and leaves the rest of the array |
| `Pcap.ScanWritten` | EthernetAppDemo/modules/capture_module.c:171-242 | after at least one frame, none empty, the scan notes min(n, limit) records and position i is the offset of record i |
| `Pcap.NotedExact` | EthernetAppDemo/modules/capture_module.c:224-226 | the count is the number of frames if and only if there is one and none but the last is empty; it is one for an empty capture |
| `Pcap.ScanExact` | EthernetAppDemo/modules/capture_module.c:171-242 | the positions noted for every capture, empty frames included |
| `Pcap.PacketWritten` | EthernetAppDemo/modules/capture_module.c:136-169 | reading at a noted position yields the frame, cut to the buffer |

## Left out

- The storage service itself: rename is taken as an atomic replacement, a write as a prefix that reached the file; directories and other applications' files are not modelled.
- A merge in which one protocol of an entry cannot be encoded and a later protocol of the same entry can: the code forgets the first failure, and the model follows it, but no reachable table has such an entry.
- What a storage fault during an append leaves in the temporary file, which is removed or overwritten anyway.
- Allocation and freeing of `PassiveHistory`, files and semaphores, and the two-second and ten-second clocks: when time runs out is arbitrary in the model.
- The ISR's thread flag and the fallback timeout of the reader: waking up is always possible in the model, so no time bound is claimed for an acknowledgement, only how many packets come before it.
- That a match always ends a wait with success: a timeout or a cancellation may win the race, in the code as in the model.
- What the handlers of long-lived clients do: only that they are asked and run, with which frames and in which order.
- `scanner_resolve_next_hop`'s ARP frames: a reply is a MAC given by the environment.
- The sender's raw IEEE 802.3 power class, which it raises by one while the parser keeps the raw value, and MED capabilities, which the parser ignores: neither is in the LLDP round trip.
- A CDP sender: the repository's is built on an external library, so the round trip is against encoders defined here.
- DHCP beyond the client's exchange: relays, leases' lifetimes, renewal, option overload.
- `set_tcp_header_tseq`, UDP checksums and the ARP, ping, port scan and OS detection modules.
- PHY, MAC and filter setup, transmission, and the chip's own register updates: `RegisterBank` models the addressing only, and `RxRing` the receive path only.
- An `enc28j60_start` without a preceding soft reset, which clears the remembered bank but not the chip's.
- Errata of the chip's receive pointer: ERXRDPT is written as one value.
- StartupGuard.PreflightExact: says nothing of a thread with a stack of zero bytes, which nobody asks for.
- The RTOS allocator: a first-fit free list with an arbitrary splitting slack stands for it, without interference from other threads during the preflight.
- Pcap.PacketWritten: speaks of records that begin below 4 GB, because the position argument has 32 bits; so does the scan, of captures below 4 GB.
- Capture files on a failing store, and time stamps, which are arbitrary in the model.
- Scenes, views, menus, settings, the address editor and all drawing.
