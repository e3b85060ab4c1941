# nm_memcached, modelled and proved in Dafny

nm_memcached answers memcached requests straight from network card rings. A binlog thread replays the row
events of a master database into an in-memory table while request threads read that table without a lock;
packets are answered in place and sent by exchanging buffer indices between netmap rings. This project models
the parts of it where that can go wrong, and proves what they promise.

Each component is written twice: as the methods of classes over arrays and mutable fields that follow the
C++ code statement by statement, and as plain functions on values that say what those methods do. The methods
are proved to compute the functions; the theorems about whole runs, logs, polls and interleavings are lemmas
about the functions.

| files | what they model |
|---|---|
| `SideBits`, `LookupTable`, `TableModel` | the double-buffered table: two records per key, a packed bit that selects the current one, notice bits, the virtual clock; and the per-key model it refines |
| `TableRace` | one writer and any number of readers on that table, one load or store per step |
| `Items`, `BinlogReplay` | the server's record and the thread that replays a binlog into the table |
| `Staleness` | the master database that writes the log, the rows the cache answers from, and when an answer is stale |
| `RingModel`, `PollModel`, `Netmap` | zero-copy forwarding: one packet, one `ProcessRing` call, a whole poll, any run of polls |
| `Dispatch` | `nm_dispatch` and `nm_nextpkt` on the same rings |
| `Checksum`, `Packets`, `IcmpReply`, `KeyRouting`, `HexText` | header offsets, the Internet checksum and the ICMP echo reply, the key hash and routing by it, hexadecimal text |
| `PortName`, `Decimals`, `Text` | the port name parser, the ring ranges it leads to, and the printer that feeds it |
| `Csb` | the cursor-sharing protocol of guest and host |
| `ProtocolHeader`, `Memcached`, `SetStatement` | header layout, request validation, request and reply framing, the GET and SET handlers, the statement a SET sends |
| `SetThenGet` | a value's whole way from a SET request through statement, log and table to a GET reply |

## The main results

* **The table refines a per-key model.** `LookupTable` methods on arrays and 64-bit words do to
  `TableModel.Table` exactly what the per-key functions say, for every key and every neighbour in the same word;
  over every run of all operations a key's two records are its last two versions, a notice bit is the parity of
  the changes, and checked writes never outnumber ticks.
* **Reads without a lock are not torn** until the second write to the same key after the pick begins, in every
  interleaving; with two writes they can be (`ReadCanBeTorn`). With the clock check on, reads between two ticks
  are never torn.
* **Whether a replayed cache is stale is decided exactly** for every log the master can write, with any number of
  kvs-named tables, updates that change keys and keys that are cut to 32 bits (`NeverStaleIff`). With one such
  table and keys in range the condition is that every row answered from has a length its 11-bit field can hold and
  has not been moved to another key by the first row of an update event (`OneTableIff`).
* **Forwarding is an in-order filter** of the arrivals for every wrap position of both rings and every handler;
  a poll ends, with every rx ring of the range empty or every tx ring full and every slot it passed released to the
  kernel; over any run no buffer is lost or duplicated. A dispatch delivers or leaves pending every packet, in order.
* **The checksum** stored in an even region makes it valid, and only that value (or its other ones' complement
  zero) does; echo replies carry valid checksums.
* **Printing then parsing a port name** is the identity exactly for names under 16 characters and affinities
  0 to 4094.
* **The cursor protocol** lets each side read, in every interleaving, one cursor of the last write finished before
  the read and the other of that or a later write (`HostReads`, `GuestReads`); it keeps
  `hwcur <= head <= cur <= hwtail` in every reachable state and every view, and fails with the stores of one side
  in the other order.
* **A SET, read by the database, followed by replay and a GET** returns the value exactly when every byte after
  its first is at least 0x10, because the hexadecimal text drops leading zeros of bytes.

## Where the code departs from what it seems meant to do

The model follows the code. Each of these has a lemma that says when the code does meet the intention.

* Updates: the record decoded from a row is zeroed and never marked, so the test at `src/nmmc_server.cc:333`
  always takes the delete branch. An update hides the entry and never refreshes it (`UpdateHides`).
* The table name test is a case-insensitive prefix test, so tables whose names start with "kvs" share the cache
  (`SecondTableMakesStale`).
* The first image of an update event is skipped, so a first row that is given another key stays in the cache under
  the old one (`MovedRowMakesStale`); keys of 2^32 and more show up under the cut key (`CutKeyMakesStale`).
  `NotStaleIff` is the exact condition for all three.
* On netmap rings a packet's length is that of the whole frame, but `OnUdp` and `validate_header` compare it with
  the length of the message alone. So no request that fills its frame is routed (`RoutedIff`) or accepted
  (`FrameNeverAccepted`); only a message that announces a body longer than it is, by exactly the length of the
  headers in front of it, gets through.
* `Bin2Hex` prints bytes below 0x10 with one digit (`HexReadsBackIff`, `SetThenGetIff`).
* `EnumerateForUpdate` copies keys from 1 on but flips the sides of all keys, key 0 included
  (`EnumerationEffect`).
* `CheckSum` on an odd length adds the byte behind the region instead of a zero (`OddLengthIff`).
* The frame type test of doubly tagged frames compares the inner tag's control word (`EtherTypeCheckedIff`).
* `nm_dispatch` started in the middle of its range revisits the first ring and skips those after it
  (`DispatchDrainsIff`).
* `nm_open` detects a second memory id only if the first, cut to 16 bits, is not zero (`DoubleMemidIff`), and
  names rings without checking that they exist (`RingsOf`).
* A read is protected against one concurrent write of its key, not two (`SecondWriteHitsPicked`,
  `ReadCanBeTorn`).

## Model

| member | source | states |
|---|---|---|
| SideBits.FlipOne | inc/nmmc_tpl.hh:139-146 | XOR with a key's mask changes that key's bit and no other key's bit of the word |
| SideBits.FlipInBitmap | inc/nmmc_tpl.hh:139-146 | in the whole packed bitmap, a flip changes one key's bit and no other |
| SideBits.FlipEvery | inc/nmmc_tpl.hh:163-166 | XOR with all ones flips every key's bit |
| TableModel.NoticeIsParity | inc/nmmc_tpl.hh:143-146 | in every run from a cleared table, a notice bit is the parity of the accepted changes of its key since its word was last cleared |
| TableModel.OtherKeysUntouched | inc/nmmc_tpl.hh:122-146 | Add, Del and operator[] leave every other key's two records and notice bit alone |
| TableModel.LookupSeesLastVersion | inc/nmmc_tpl.hh:84-209 | over every run of all seven operations, a key's two records are its last two versions, and a lookup sees the last one unless it is marked off |
| TableModel.LookupSeesLastWrite | inc/nmmc_tpl.hh:84-113 | over every run of Add, Del, ticks and notice clearing, a lookup sees the last accepted write of its key |
| TableModel.DelThenIndexRestores | inc/nmmc_tpl.hh:122-138 | Del followed by operator[] makes the deleted record current and valid again and touches no other key |
| TableModel.ClearedRecordsArePresent | inc/nmmc_tpl.hh:67-78 | in a cleared table every key in range is present with a zero record, as STAT_ON is 0 |
| TableModel.EnumerationEffect | inc/nmmc_tpl.hh:147-167 | an enumeration maps every key from 1 on from its old current record, kept as the spare; key 0 only changes sides, and back on a second enumeration |
| TableModel.UserDataInOrder | inc/nmmc_tpl.hh:150-162 | the enumeration hands over the current records of keys 1, 2, 3 and so on, each once, in this order |
| TableModel.ChecksWithinTicks | inc/nmmc_tpl.hh:168-176 | in every run, clock wrap-around included, checked writes that pass never outnumber ticks |
| TableModel.NoPassWithoutTick | inc/nmmc_tpl.hh:190-198 | after a passed check every further one is refused until a tick, whatever else happens |
| TableModel.PreviousNotAhead | inc/nmmc_tpl.hh:63-66 | fewer than 2^64 ticks keep the previous-write counter at or below the clock |
| TableModel.TickLetsWrite | inc/nmmc_tpl.hh:168-176 | after any run and one more tick, short of the counter wrapping, a checked write passes: done in range, thrown out of range |
| TableModel.TickKeepsOrder | inc/nmmc_tpl.hh:63-66 | a tick loses that order exactly when the 64-bit counter wraps after a checked write |
| LookupTables.LookupTable.constructor | inc/nmmc_tpl.hh:46-62 | a new table is the cleared per-key model |
| LookupTables.LookupTable.Clock | inc/nmmc_tpl.hh:63-66 | one tick of the model, modulo 2^64 |
| LookupTables.LookupTable.Clear | inc/nmmc_tpl.hh:67-78 | both bitmaps, both sides and both counters become the cleared model |
| LookupTables.LookupTable.ClearNoticeBmp64 | inc/nmmc_tpl.hh:79-83 | clears the notice bits of exactly the key's word; nothing for keys above the size |
| LookupTables.LookupTable.Find | inc/nmmc_tpl.hh:84-113 | the end marker or a pointer to the model's current record, if valid; with the flag always to the spare one |
| LookupTables.LookupTable.FindNoticeBmp64 | inc/nmmc_tpl.hh:114-119 | a word that holds the notice bit of every key of the word; 0 out of range |
| LookupTables.LookupTable.Index | inc/nmmc_tpl.hh:122-138 | operator[]: revives the spare record unless the current one is valid; throws exactly out of range; points at the now current record |
| LookupTables.LookupTable.SwapSide | inc/nmmc_tpl.hh:139-142 | exchanges current and spare of one key and of no other |
| LookupTables.LookupTable.NotifyChange | inc/nmmc_tpl.hh:143-146 | flips one key's notice and no other |
| LookupTables.LookupTable.UpdateHidden | inc/nmmc_tpl.hh:150-161 | one key's spare becomes the callback's rewriting of its current record; lookups do not see it yet |
| LookupTables.LookupTable.FlipAllWords | inc/nmmc_tpl.hh:163-166 | exchanges current and spare of every key |
| LookupTables.LookupTable.EnumerateForUpdate | inc/nmmc_tpl.hh:147-167 | the model's enumeration, user data threaded through the keys in order |
| LookupTables.LookupTable.Publish | inc/nmmc_tpl.hh:183-186 | fill, swap and notify together install a new current record, keep the old one as spare and flip the notice |
| LookupTables.LookupTable.Add | inc/nmmc_tpl.hh:168-189 | the model's Add: refused by the clock, thrown out of range (after the clock was stamped) or done; the caller's record is marked unless refused |
| LookupTables.LookupTable.Del | inc/nmmc_tpl.hh:190-209 | the model's Del with the same three outcomes; the old current record stays as the spare |
| TableRace.AlwaysInv | inc/nmmc_tpl.hh:84-113 | the writer's progress, the published history and every reader's pick stay consistent in every interleaving |
| TableRace.NoticeIsParity | inc/nmmc_tpl.hh:143-146 | in every interleaving a notice bit is the parity of the published and notified writes of its key |
| TableRace.FlipPublishes | inc/nmmc_tpl.hh:183-187 | a flip makes current exactly the stores of its write over the hidden record; a covering copy publishes the item whole |
| TableRace.ReadContinues | inc/nmmc_tpl.hh:84-113 | a read in progress stays on the side and version that were current at its pick |
| TableRace.UntornRead | inc/nmmc_tpl.hh:139-187 | until the second write to the key after the pick begins, the picked record is unchanged and all words copied come from the version current at the pick |
| TableRace.SecondWriteHitsPicked | inc/nmmc_tpl.hh:183-187 | every store of the second write lands in the record the reader is still copying |
| TableRace.ReadCanBeTorn | inc/nmmc_tpl.hh:84-187 | a concrete interleaving with two writes begun after the pick, in which the words read match no version ever published or on its way |
| TableRace.OneWritePerTick | inc/nmmc_tpl.hh:168-176 | with the clock check on, at most one write, over all keys together, begins between ticks, in every interleaving |
| TableRace.UntornBetweenTicks | inc/nmmc_tpl.hh:168-209 | with the clock check on, a read between two ticks, with no write in flight at the first, is never torn |
| Items.StoredReadsBack | src/nmmc_server.cc:313-325 | the record is valid and never expires; a stored blob reads back as itself or absent exactly when its length is at most 1024 or a multiple of 2048, and as itself for 1 to 1024 bytes |
| BinlogReplay.BinlogReader.OnRow | src/nmmc_server.cc:306-341 | one decoded row does to the replica what the row function says; the first image of an update event is skipped |
| BinlogReplay.BinlogReader.OnRows | src/nmmc_server.cc:300-343 | a rows event is its rows one after the other, ended by an exception on a key out of range |
| BinlogReplay.BinlogReader.OnEvent | src/nmmc_server.cc:287-347 | table maps select or deselect the cache, rows are replayed only when selected |
| BinlogReplay.BinlogReader.BinLogLoop | src/nmmc_server.cc:271-350 | replaying a log from its start leaves the replica that the replay function describes |
| BinlogReplay.ForeignRowsIgnored | src/nmmc_server.cc:288-300 | rows are replayed exactly when their table's name starts with k, v, s in either case; the rows of any other table change nothing |
| Staleness.SurvivesIff | src/nmmc_server.cc:329-341 | the thread survives a log exactly when every key it looks at is in range after the cut to 32 bits |
| Staleness.RowsAgree | src/nmmc_server.cc:329-341 | after any rows event, multi-row updates included, lookups answer from the merged rows |
| Staleness.ReplayAnswers | src/nmmc_server.cc:271-350 | over every log the master can write and the thread survives, with any number of kvs-named tables, GET answers exactly from the merged rows: those inserted into any of them and not seen changed since |
| Staleness.MergedHolds | src/nmmc_server.cc:288-341 | each merged row stands in its own table as inserted, or was moved by the first row of an update and its key is gone there |
| Staleness.NotStaleIff | src/nmmc_server.cc:104-107 | for every such log, table and key: the answer is absent or the table's value exactly when the merged row is missing or harmless (own row: storable, and hidden if moved; other row: hidden or equal to what the table holds); own unmoved rows of 1 to 1024 bytes are always found |
| Staleness.NeverStaleIff | src/nmmc_server.cc:271-350 | the cache is never stale about a table exactly when every merged row is harmless to it |
| Staleness.OneTableIff | src/nmmc_server.cc:271-350 | with one kvs-named table and keys in range: exactly when every merged row is storable, and hidden if moved |
| Staleness.ReplayNeverStale | src/nmmc_server.cc:271-350 | such logs keep the cache never stale if inserts have at most 1024 bytes and first rows of updates keep their keys |
| Staleness.UpdateHides | src/nmmc_server.cc:332-338 | right after an update GET answers "not found" for the row's key |
| Staleness.SecondTableMakesStale | src/nmmc_server.cc:292-292 | a log the master can have written, with a second kvs-named table, after which GET answers with the wrong table's row |
| Staleness.MovedRowMakesStale | src/nmmc_server.cc:332-333 | a log the master can have written, with one table, after which GET answers with a row the master has moved to another key |
| Staleness.CutKeyMakesStale | src/nmmc_server.cc:308-331 | a log the master can have written, with one table, after which GET answers for a key that only equals a row's key after the cut |
| RingModel.SpaceReachesTail | deps/netmap/sys/net/netmap_user.h:140-147 | walking as many slots as there is space leads from cur to tail at every wrap position; the space is zero exactly for an empty ring |
| RingModel.NextOfPos | deps/netmap/sys/net/netmap_user.h:122-126 | stepping the cursor walks the slots in circular order |
| RingModel.StepExchanges | src/nmmc_arch_impl_netmap.cc:160-189 | one packet: the handler gets the buffer and the length, 0 for more than 2048; sending exchanges the two buffers, sets both lengths to the low 16 bits and marks both slots; dropping leaves tx alone |
| RingModel.MarkedKeepsOthers | src/nmmc_arch_impl_netmap.cc:91-92 | marking sets bit 0 of the flags and keeps the others |
| RingModel.FilterStep | src/nmmc_arch_impl_netmap.cc:143-189 | one loop round extends the filter by one arrival, sent or dropped |
| RingModel.BatchIsFilter | src/nmmc_arch_impl_netmap.cc:143-191 | n rounds fill the tx slots, in arrival order, with exactly the sent packets' buffers, final lengths and contents; dropped packets leave no trace; all other slots and buffers are untouched |
| RingModel.OutgoingIsFilterList | src/nmmc_arch_impl_netmap.cc:143-189 | the filter is a plain list program: every arrival is handed over once, in order, with the state the one before left, and what is sent is listed |
| RingModel.SentInMemory | src/nmmc_arch_impl_netmap.cc:83-95 | reading a filled tx slot's buffer through memory gives the packet as the handler left it |
| PollModel.BatchEffect | src/nmmc_arch_impl_netmap.cc:143-191 | whatever the indices: buffers are conserved, exchanged slots marked, cursors advanced by packets and sends, other slots untouched |
| PollModel.ProcessedEffect | src/nmmc_arch_impl_netmap.cc:120-194 | a call consumes its count of rx space and as much tx space as it sends; head and cur of both rings move exactly so far, the ring flags are cleared, only owned slots are touched, and there is progress when neither ring is exhausted |
| PollModel.SearchEffect | src/nmmc_arch_impl_netmap.cc:97-117 | a poll ends; then every rx ring is empty or every tx ring full; its count is the drop in rx space, the sends the drop in tx space; buffers are conserved, only owned slots touched, and every ring it changed has released all slots it passed |
| PollModel.RunConserves | src/nmmc_arch_impl_netmap.cc:83-117 | over any run of polls and kernel synchronisations the multiset of buffers never changes, so distinct ones stay distinct |
| PollModel.DistinctGivesArrivals | src/nmmc_arch_impl_netmap.cc:143-149 | distinct buffers in a port give each ring pair distinct arrivals, so the filter theorem applies |
| PollModel.OnePairIsBatch | src/nmmc_arch_impl_netmap.cc:97-117 | a whole poll on one ring pair is a single batch of as many arrivals as it consumes |
| PollModel.OnePollIsFilter | src/nmmc_arch_impl_netmap.cc:97-194 | a whole poll on one ring pair is an in-order filter of the oldest arrivals, with head at cur and flags cleared on both rings unless it found nothing to do |
| NetmapLoop.NetmapRing.SpaceLeft | deps/netmap/sys/net/netmap_user.h:140-147 | on every well-formed ring the 32-bit difference, read back as signed and corrected, is the number of slots from cur to tail: in range, leading to tail, zero exactly for an empty ring |
| NetmapLoop.Netmap.Send | src/nmmc_arch_impl_netmap.cc:83-95 | exchanges the two buffer indices, sets both lengths, marks both slots, touches no other slot |
| NetmapLoop.Netmap.ProcessSlot | src/nmmc_arch_impl_netmap.cc:143-189 | one loop round on the shared rings is one model step, overlong lengths cleared |
| NetmapLoop.Netmap.BatchLimit | src/nmmc_arch_impl_netmap.cc:126-142 | the smaller of the two rings' spaces |
| NetmapLoop.Netmap.ProcessRing | src/nmmc_arch_impl_netmap.cc:120-194 | the loop leaves rings, memory, handler state and count as the batch says |
| NetmapLoop.Netmap.ProcessPair | src/nmmc_arch_impl_netmap.cc:114-114 | seen from the whole port, a call changes its two rings and no other |
| NetmapLoop.Netmap.SearchValidRing | src/nmmc_arch_impl_netmap.cc:97-117 | the nested search terminates and leaves the port and count that the search function describes |
| Dispatch.PacketsTaken | deps/netmap/sys/net/netmap_user.h:1052-1059 | the j-th packet taken from a ring is the slot j places after the cursor, modulo the ring, with that slot's buffer and length |
| Dispatch.DeliveredOrPending | deps/netmap/sys/net/netmap_user.h:1039-1061 | wherever it starts and whatever its limit: of every ring, what was delivered followed by what is still pending is what was pending |
| Dispatch.WalkReleases | deps/netmap/sys/net/netmap_user.h:1059-1059 | every ring a dispatch changes has head at cur; slots, tail and flags stay |
| Dispatch.DispatchEndsAt | deps/netmap/sys/net/netmap_user.h:1043-1066 | the current ring afterwards: that of the last packet if the limit stopped it, else the last one, or the first one after a start further on |
| Dispatch.UnlimitedDrains | deps/netmap/sys/net/netmap_user.h:1039-1061 | without a limit every visited ring is drained, head and cur at tail, and no other ring is touched |
| Dispatch.DispatchDrainsIff | deps/netmap/sys/net/netmap_user.h:1039-1061 | every ring ends empty exactly when the skipped ones, strictly between the first and the starting ring, were empty |
| Dispatch.CountIsPrefix | deps/netmap/sys/net/netmap_user.h:1033-1047 | a positive count only cuts the delivery to a prefix of what would be delivered without it |
| Dispatch.DispatchDeliversBacklog | deps/netmap/sys/net/netmap_user.h:1024-1068 | from the first ring, exactly the pending packets in ring order are delivered, the first cnt of them for a smaller positive cnt |
| Dispatch.Descriptor.CallAndTake | deps/netmap/sys/net/netmap_user.h:1047-1060 | one inner round calls back for the previous packet and holds the next |
| Dispatch.Descriptor.TakeFromRing | deps/netmap/sys/net/netmap_user.h:1047-1060 | takes what the ring and the count allow, each packet once, oldest first |
| Dispatch.Descriptor.NmDispatch | deps/netmap/sys/net/netmap_user.h:1024-1068 | one call per consumed slot, in order, each with that packet's buffer and length; all but the last say that more follow; got is their number |
| Dispatch.Descriptor.NmNextPkt | deps/netmap/sys/net/netmap_user.h:1070-1100 | the oldest packet of the first nonempty ring going round from the current one; none exactly when all rings are empty |
| Checksum.CheckSum | inc/nmmc.inl:43-60 | the 32-bit complement of the folded sum of the big-endian words |
| Checksum.FoldedComplement | inc/nmmc.inl:56-60 | the folding loop terminates with the fully folded sum |
| Checksum.FoldIsResidue | inc/nmmc.inl:56-58 | folding keeps the value modulo 65535: it yields the residue in 1 to 65535, and 0 only for 0 |
| Checksum.NoOverflow | inc/nmmc.inl:43-64 | for every length below 2^16 the accumulator never overflows, and Wrapsum yields the complement of the folded sum |
| Checksum.WordSumIsNumber | inc/nmmc.inl:48-55 | modulo 65535 the sum of a region's words is the number its bytes write, most significant first |
| Checksum.ValidIffMultiple | inc/nmmc.inl:43-60 | a region is valid exactly when that number is a positive multiple of 65535 |
| Checksum.WordSumStored | inc/nmmc.inl:43-55 | replacing an aligned word changes the sum by the difference of the words |
| Checksum.StoredChecksumIsValid | inc/nmmc.inl:43-64 | storing the checksum in an aligned zeroed field makes the whole region valid |
| Checksum.ValidChecksToZero | inc/nmmc.inl:43-64 | a region is valid exactly when the checksum over it comes out as 0 |
| Checksum.ValidFieldIff | inc/nmmc.inl:43-64 | exactly that value, or all ones for zero, makes the region valid |
| Checksum.OddLengthIff | inc/nmmc.inl:53-55 | on an odd length the result is RFC 1071's exactly when the byte behind the region is zero |
| Packets.Packet.FromDatagram | src/nmmc_packet.cc:10-25 | every header offset of a datagram is 0 and its type is UDP |
| Packets.Packet.FromFrame | src/nmmc_packet.cc:26-61 | headers follow each other without gap behind the tags and stay inside the buffer; the type is the classification's |
| Packets.HeaderOffsets | src/nmmc_packet.cc:28-44 | tags counted and header lengths read off the bytes: no, one or two tags by the word 0x8100, IP length from version and low four bits |
| Packets.EtherTypeCheckedIff | inc/nmmc.inl:29-31 | the type test is right for every type exactly for frames with at most one tag or whose inner control word is the protocol type |
| Packets.KindByProtocol | src/nmmc_packet.cc:45-60 | for every frame, its type by the compared type word, the next protocol and the hop count, as byte values |
| IcmpReply.SwapKeepsSum | src/nmmc_arch_impl_netmap.cc:226-228 | exchanging the addresses permutes the summed words |
| IcmpReply.ReplyHeaderChecksum | src/nmmc_arch_impl_netmap.cc:229-230 | the recomputed header checksum is valid, equals a valid old one modulo 65535, and is the same word unless that was all ones |
| IcmpReply.ReplyIsValid | src/nmmc_arch_impl_netmap.cc:217-234 | the reply's IP checksum is valid; the ICMP checksum of a message of at least 4 bytes is valid for even lengths and, for odd ones, exactly when the next byte is zero |
| IcmpReply.EchoReplyBytes | src/nmmc_arch_impl_netmap.cc:222-234 | byte by byte: MAC and IP addresses exchanged, ICMP type 0, and every other byte outside the two checksums the request's |
| IcmpReply.SwapMac | src/nmmc_arch_impl_netmap.cc:303-309 | the two MAC addresses are exchanged and nothing else |
| IcmpReply.OnIcmp | src/nmmc_arch_impl_netmap.cc:217-234 | the in-place rewriting yields exactly the echo reply of which validity is proved |
| KeyRouting.HashStepBijective | inc/nmmc.inl:69-69 | for a fixed byte a hash step is a bijection of 32-bit words with the given inverse |
| KeyRouting.HashStepByByte | inc/nmmc.inl:69-69 | from one hash value, different bytes lead to different ones |
| KeyRouting.Hash32 | inc/nmmc.inl:65-72 | the loop folds the key's bytes from last to first |
| KeyRouting.HashIsFold | inc/nmmc.inl:65-72 | the hash is the fold of multiply by 33 and exclusive or, from 5381, over the key's bytes in reverse |
| KeyRouting.XorBits | inc/nmmc.inl:69-69 | the exclusive or differs bit by bit exactly where its arguments do |
| KeyRouting.OneByteNeverCollides | inc/nmmc.inl:65-72 | keys of equal length that differ in exactly one byte never collide |
| KeyRouting.OnUdp | src/nmmc_arch_impl_netmap.cc:277-301 | the frame and the verdict become those that the handling function describes: routed by key hash exactly when the announced message is as long as the whole frame, else to the server or dropped with the MAC addresses exchanged |
| KeyRouting.RoutedIff | src/nmmc_arch_impl_netmap.cc:283-286 | a frame is routed exactly when the announced body exceeds the bytes behind the message header by the length of the headers before it; so no request that fills its frame is routed |
| KeyRouting.RoutedByKeyAlone | src/nmmc_arch_impl_netmap.cc:287-292 | the octet of a routed frame is 0x80 plus the key's hash modulo 12, so equal keys get equal octets, and different ones exactly when the hashes differ modulo 12; all else behind the MAC addresses stays |
| HexText.Bin2Hex | inc/nmmc.inl:89-98 | the loop yields the bytes' hexadecimal text; a negative length yields none |
| HexText.HexLength | inc/nmmc.inl:89-98 | twice the number of bytes less the number of bytes below 0x10 |
| HexText.HexReadsBackIff | src/nmmc_server.cc:150-157 | read as a hex literal the text gives the bytes back exactly when every byte after the first is at least 0x10 |
| PortName.ScanTurn | deps/netmap/sys/net/netmap_user.h:685-790 | one switch of the parser in the whole string is one turn on the rest |
| PortName.ScanSuffix | deps/netmap/sys/net/netmap_user.h:682-795 | the loop terminates on every string and computes the suffix function |
| PortName.NmIsIdentifier | deps/netmap/sys/net/netmap_user.h:602-612 | true exactly for letters, digits and underscores throughout |
| PortName.NmOpenName | deps/netmap/sys/net/netmap_user.h:642-795 | prefix, bridge and port checks, name length and suffix, with the errors in the code's order |
| PortName.ReadNumber | deps/netmap/sys/net/netmap_user.h:735-735 | strtol skips white space, takes a sign and reads a printed number back, clamped to a long, up to what follows |
| PortName.ReadNothing | deps/netmap/sys/net/netmap_user.h:735-735 | without digits strtol consumes nothing |
| PortName.SuffixMeans | deps/netmap/sys/net/netmap_user.h:307-323 | every suffix of an optional ring part, flag letters and a memory id is accepted, with the kind, ring id, flags and id its parts say |
| PortName.SuffixRefused | deps/netmap/sys/net/netmap_user.h:714-795 | what is refused in each state, and with which error |
| PortName.ValeName | deps/netmap/sys/net/netmap_user.h:648-675 | a VALE name: refused without a colon, with a bad bridge or a bad port, else parsed with its prefix kept |
| PortName.RingSuffix | deps/netmap/sys/net/netmap_user.h:734-743 | a printed ring suffix selects that one ring for 0 to 4094 and is refused otherwise |
| PortName.PrintThenParse | src/nmmc_arch_impl_netmap.cc:41-47 | the printed name is accepted exactly for names under 16 characters and affinities 0 to 4094, and yields that interface, ring id and ring range |
| PortName.LongNameRefused | deps/netmap/sys/net/netmap_user.h:677-681 | a name of 16 or more characters is refused however the print buffer cuts it |
| PortName.FlagOrderIrrelevant | deps/netmap/sys/net/netmap_user.h:744-776 | flag letters in any order and repetition give the same flags, behind any ring suffix |
| PortName.DoubleMemidIff | deps/netmap/sys/net/netmap_user.h:777-789 | a second memory id is refused exactly when the first is not a multiple of 65536 |
| PortName.RingsOf | deps/netmap/sys/net/netmap_user.h:873-893 | the range names existing rings exactly unless a direction without hardware rings is opened whole or a single ring id is beyond the rings |
| PortName.RingsSelected | deps/netmap/sys/net/netmap_user.h:873-893 | exactly which rings a port of each kind opens |
| CsbProtocol.AlwaysInv | deps/netmap/sys/net/netmap_virt.h:199-241 | which publication each shared cursor and each copy comes from, in every interleaving |
| CsbProtocol.NeverNewer | deps/netmap/sys/net/netmap_virt.h:203-226 | the host never pairs a head with an older cur, the guest never an hwtail with an older hwcur |
| CsbProtocol.AlwaysPublished | deps/netmap/sys/net/netmap_virt.h:223-225 | by the labels alone: a shared cursor of version v has the value of its side's v-th write, the first-stored one of the last write begun, the second of the last finished |
| CsbProtocol.HostReads | deps/netmap/sys/net/netmap_virt.h:287-301 | a host read returns the head of the last guest write finished before it began and the cur of the last one begun before it ended, which is that one or later |
| CsbProtocol.GuestReads | deps/netmap/sys/net/netmap_virt.h:230-241 | a guest read returns the hwtail of the last host write finished before it began and the hwcur of the last one begun before it ended |
| CsbProtocol.SeenStays | deps/netmap/sys/net/netmap_virt.h:230-301 | between its reads what a side has seen stays |
| CsbProtocol.AlwaysOrdered | deps/netmap/sys/net/netmap_virt.h:261-301 | if each side advances within what it last read, hwcur <= head <= cur <= hwtail within one turn of the ring, in every state and view |
| CsbProtocol.HeadFirstIsUnsafe | deps/netmap/sys/net/netmap_virt.h:211-213 | with the guest's stores in the other order the host can see head beyond cur |
| CsbProtocol.OrderedIndices | deps/netmap/sys/net/netmap_virt.h:208-211 | the ring indices of an ordered view determine all distances of the unwrapped cursors |
| ProtocolHeader.HeaderRoundTrip | inc/nmmc_def.h:9-22 | decoding an encoded 24-byte header gives it back, whatever follows |
| ProtocolHeader.HeaderLayout | inc/nmmc_def.h:9-22 | every field by its byte offsets, multi-byte fields most significant first |
| ProtocolHeader.HeaderInjective | inc/nmmc_def.h:9-22 | no two 24-byte strings decode to the same header, so decoding is one to one |
| Memcached.GetRequestReceived | test/nmmc_test.cc:124-133 | a GET request as the client builds it is accepted and yields its key modulo 2^20 |
| Memcached.SetRequestReceived | test/nmmc_test.cc:219-234 | a SET request as the client builds it is accepted and yields its key modulo 2^20 and exactly its value |
| Memcached.AcceptedIff | inc/nmmc_def.h:44-72 | exactly which bytes and length make an accepted request: magic 0x80, data type 0, key length 4, length of header and body, opcode 0 bare or opcode 1 with extras |
| Memcached.KeyIdBytes | src/nmmc_server.cc:78-88 | the table key is the low 20 bits of the four bytes behind the extras |
| Memcached.Le32Bytes | src/nmmc_server.cc:119-119 | the bytes of the expiry word as a little-endian host stores it |
| Memcached.HitReads | src/nmmc_server.cc:109-122 | a hit reply, byte by byte: its header, the expiry's bytes and the stored bytes; what lies behind stays |
| Memcached.MissReads | src/nmmc_server.cc:125-139 | a miss reply, byte by byte: its header and the text "not found"; what lies behind stays |
| Memcached.SetReplyReads | src/nmmc_server.cc:171-181 | the header of a SET reply, byte by byte: empty body, the request's opaque word, and the database's outcome as status |
| Memcached.SetReplyKeeps | src/nmmc_server.cc:171-181 | a SET reply changes nothing behind the header |
| Memcached.GetReplyReads | src/nmmc_server.cc:96-142 | every GET reply's length is 24 plus its body length, its status tells hit from miss, and its value read back is the table's answer |
| Memcached.Server.SetHeader | src/nmmc_server.cc:109-117 | the in-place assignments at any payload offset leave a well-formed header and the rest of the packet |
| Memcached.Server.OnRecieveGet | src/nmmc_server.cc:96-142 | the packet becomes the reply of which framing and contents are proved |
| SetStatement.StatementReads | src/nmmc_server.cc:150-157 | read left to right, the statement of any key and nonempty value inserts a row with that key and the value's hex digits, and updates with the same; that of an empty value has no literal |
| Memcached.Server.OnRecieveSet | src/nmmc_server.cc:143-184 | the statement sent is the one of which the reading is proved, for the key and the value's bytes; the packet becomes the SET reply |
| Memcached.Server.OnRecieve | src/nmmc_server.cc:75-94 | invalid requests are ignored unchanged; accepted ones are answered, the table untouched; key and value stay inside the packet |
| Memcached.FrameNeverAccepted | inc/nmmc_def.h:66-69 | behind the headers of a frame a request is accepted only if it announces a body longer than the frame holds, by the length of those headers; one that fills its frame never is |
| SetThenGet.ReplayServable | src/nmmc_server.cc:318-325 | after any log with storable inserts every record's length stays within its data area |
| SetThenGet.InsertAnswers | src/nmmc_server.cc:329-331 | after replaying the insert of a row of 1 to 1024 bytes into a kvs-named table, the table answers with exactly that value |
| SetThenGet.SetThenGetIff | src/nmmc_server.cc:96-184 | the statement of a SET of a new key is read, its row inserted, logged and replayed after any log that the thread survives and whose inserts are storable; any GET of that key is framed and carries the value that was set exactly when every byte after the first is at least 0x10 |
| SetThenGet.SetAgainHides | src/nmmc_server.cc:143-157 | the statement of a SET of a present key updates its row, and after the replay GET finds nothing for the key |

## Left out

- Sockets, libevent, `poll`, `ioctl`, `mmap`, the MySQL connection and binlog decoding: a database is a map, a binlog a list of typed events, a row an id, a key and an optional blob.
- Process and thread start-up, signals, CPU affinity, logging, counters and all `_WIN32` code.
- Memory ordering: loads and stores are sequentially consistent; the barriers are what justifies that in `netmap_virt.h`, while the table has none.
- `OnArp`, `nm_inject` and `nm_pkt_copy`: straight copies, easy.
- The IPv6 half of `OnIcmp`: its checksum omits the pseudo-header, so no validity holds for it.
- LookupTables.LookupTable.ClearNoticeBmp64: requires a key other than the table size, for which the code writes one word past its bitmap.
- LookupTables.LookupTable.constructor: requires a size that is a positive multiple of 64, as all instances have; other sizes would leave the last keys without a bitmap word.
- LookupTables.LookupTable.EnumerateForUpdate: the callback is a function of the record and the user data; a callback that itself calls the table is not modelled.
- Staleness.ReplayAnswers: a rows event belongs to the table of the last table map before it. Statements that change several tables at once announce all of them first, which the code does not tell apart; they are not modelled. Rows of tables that are not kvs-named are arbitrary.
- Staleness.NeverStaleIff: takes logs that the thread survives, `Staleness.SurvivesIff` says which; the exception of any other log ends the whole process, so nothing is answered after it.
- BinlogReplay.BinlogReader.OnRow: the branch that would refresh an entry cannot be reached, and is an `assert false`.
- NetmapLoop.Netmap.ProcessSlot: the handler is any function of its state and its own packet; warnings, prefetches and the pause on buffer indices below 2 are not modelled.
- NetmapLoop.Netmap.SearchValidRing: the count is not cut to 32 bits and ring indices not to 16; neither can be reached with rings that fit in memory and fewer than 65535 rings.
- Dispatch.Descriptor.NmDispatch: the callback is recorded, not run, so a callback that changes the rings is not modelled; time stamps are left out.
- IcmpReply.OnIcmp: takes the headers in order and inside the buffer, and a frame length that reaches the ICMP header; a shorter frame makes the code sum about 64 kB past it. Of a header with options only the first 20 bytes are summed, as in the code, so validity is stated for those.
- KeyRouting.OnUdp: takes the request header, and for a routed frame the key, inside the buffer; the code does not check the key length against the buffer.
- KeyRouting.Hash32: takes the key inside the buffer.
- Memcached.Server.OnRecieve: takes a buffer with room for the longest reply behind the payload offset, and the value of an accepted SET inside the buffer, which the code does not check; for datagrams it always is.
- Memcached.Server.OnRecieveGet: takes records whose length is within their data area; a longer one would be read past its end. `SetThenGet.ReplayServable` says for which logs this holds.
- Memcached.GetReplyReads: a little-endian host stores the status without conversion, so the error status goes out as 0x0001; a big-endian host is not modelled.
- SetStatement.StatementReads: the database's reading of the statement is a reader of exactly this form of statement, with hex literals as in section 9.1.4 of the MySQL 5.7 Reference Manual; the rest of its syntax is not modelled.
- PortName.NmOpenName: strings hold no zero character; the fields that `nm_open` takes over from its other arguments are left out.
- CsbProtocol.AlwaysOrdered: unwrapped cursors; `CsbProtocol.OrderedIndices` relates them to ring indices. The synchronisation flags read along are left out.
