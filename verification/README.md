# banker, verified

A Dafny model of the stateful parts of banker, a C++ networking library, with proofs about them.

- **Robin Hood map** (`Bits`, `RobinTable`, `RobinOverflow`, `RobinProbe`, `RobinMark`, `RobinHash`, `RobinRun`): an
  array of nodes with one-byte distances, a mask and a count, refining a mathematical map over every run. The only
  way an insertion can fail is the assertion on the step counter. It fails exactly when the key set is *overfull*:
  some arc of `len` slots is the home of at least `len + 255` keys. Arrival order does not matter, and 255 keys
  always fit.
- **Byte streams** (`Streams`, `Sockets`, `TransmitBuffers`, `TcpOperations`, `StreamSocketCore`, `StreamSockets`,
  `Links`): queues of buffers drained by arbitrary partial writes over first-in-first-out wires. Two sockets are
  joined both ways; runs mix enqueues, ticks and parsing in any order, and the operating system's decisions (how
  many bytes each call moves, would-block, close, error) are inputs of the run.
- **Packets** (`Bytes`, `PacketCodec`, `PacketLaws`, `Packets`, `Framing`): the typed encoding with nested vectors
  and embedded packets, reading any bytes at a cursor, and length-prefixed framing parsed as bytes arrive.
- **Stable-id storage** (`StableStorage`): dense vectors with swap-remove under 64-bit ids.
- **Text codecs** (`Base64`, `Hex`, `UrlCodec`): round trips, and the chunked hex writer against the plain one.

Objects that the source changes in place are classes whose methods are proved against functions of the old state;
the laws are lemmas about those functions. `Basics` holds what several modules share.

Where the code falls short of what one would expect of it, the model keeps the code and states exactly when it does
what it should:

- `receive` makes one more read after the byte limit is reached and drops what that read returns
  (`Streams.ReceiveKeepsAllIff`).
- `request_write_vectorized_auto` documents a partial offset into the first vector, but accounts from the front of
  that vector, so a nonzero offset on entry gives a wrong position (`TcpOperations.AutoAgreesWithFlushIff`).
- A flush of nothing but empty buffers reports a close, whatever the system would take (`Streams.FlushClosesIff`).
- An empty packet, once framed, blocks its stream (`Framing.FrameRoundTripIff`, `Framing.EmptyPacketBlocksStream`).
- The flag of `read` hides failures inside vectors of strings, vectors or packets (`PacketLaws.FlagIsExactIff`), and
  `clear` keeps the cursor (`PacketLaws.ReuseAfterClearIff`).
- A packet read leaves the cursor in front of the packet's data, so packets inside vectors or before other values
  do not come back. The model says for which types (`PacketLaws.TypeRoundTripsIff`), lists of types
  (`PacketLaws.ListReadsBackIff`) and values (`PacketLaws.ReadsIffSpelled`, `PacketLaws.PacketVectorReadsBackIff`)
  reading does undo writing.
- The chunked hex writer breaks lines longer than a chunk (`Hex.WritersAgreeIff`).
- Inserting the key that marks free slots raises the count and may put other keys out of reach of lookups. None is
  lost exactly when the probe displaces no entry (`RobinMark.MarkInsertedIff`, `RobinMark.UnopposedIff`), and no
  lookup answers wrongly.
- `url_decode` takes escapes that are not two hexadecimal digits (`UrlCodec.DecodeIsStrictIff`).
- Ids repeat after 2^64 additions (`StableStorage.IdIsReissuedIff`), the last of which issues the id set apart as
  invalid (`StableStorage.InvalidIdIsIssuedIff`); the tables stay inverse as long as no live id is issued
  (`StableStorage.Replay`).

Check it with `dafny verify dfyconfig.toml`.

## Model

| member | source | states |
|---|---|---|
| `Bits.MaskIsRemainder` | include/banker/common/hash/robin_hash.hpp:57 | bitwise `&` with a power of two less one is the remainder by that power, for every key |
| `RobinTable.RunBehind` | include/banker/common/hash/robin_hash.hpp:75-83 | behind an entry displaced by d every slot back to its home is taken, and distances fall by at most one per step, across the wrap |
| `RobinTable.ProbeIsComplete` | include/banker/common/hash/robin_hash.hpp:95-96 | a stored key further from home than the probe has walked lies ahead, behind a taken slot that is not poorer |
| `RobinTable.ProbeStops` | include/banker/common/hash/robin_hash.hpp:93-101 | stopping on a free slot or on `distance < dist` implies that the key is nowhere in the table |
| `RobinTable.ProbeGoesOn` | include/banker/common/hash/robin_hash.hpp:98-99 | going on keeps the search sound, gets nearer to a free slot, and the step count stays below 256 |
| `RobinTable.DistanceBelowCount` | include/banker/common/hash/robin_hash.hpp:30 | a stored distance is less than the number of entries |
| `RobinTable.PutKeepsPlaced` | include/banker/common/hash/robin_hash.hpp:62-80 | storing or swapping in the carried entry keeps the Robin Hood ordering |
| `RobinTable.InsertInFree` | include/banker/common/hash/robin_hash.hpp:62-67 | ending in a free slot leaves a sound table that holds exactly the wanted map, with one entry more |
| `RobinTable.InsertOver` | include/banker/common/hash/robin_hash.hpp:69-73 | meeting the key leaves a sound table with only that value changed |
| `RobinTable.InsertSwaps` | include/banker/common/hash/robin_hash.hpp:75-80 | a swap keeps the table sound, keeps what table and carried entry hold together, and the new carried key is not in the table |
| `RobinTable.InsertGoesOn` | include/banker/common/hash/robin_hash.hpp:82-83 | moving the carried entry on keeps the loop's state sound and gets nearer to a free slot |
| `RobinTable.EraseShifts` | include/banker/common/hash/robin_hash.hpp:114-120 | one backward shift keeps the ordering and the map without the erased key, and gets nearer to a free slot |
| `RobinTable.EraseEnds` | include/banker/common/hash/robin_hash.hpp:122-123 | freeing the last slot of the gap, in front of a free or home-positioned slot, leaves a sound table |
| `RobinTable.FreeSlotExists` | include/banker/common/hash/robin_hash.hpp:54-55 | a table with fewer entries than slots has a free slot |
| `RobinOverflow.PlacedFits` | include/banker/common/hash/robin_hash.hpp:84 | a table whose distances all passed the assertion holds no overfull key set |
| `RobinOverflow.OverflowIsOverfull` | include/banker/common/hash/robin_hash.hpp:83-84 | an entry about to reach distance 255 means that some arc of slots is home to 255 keys more than it has slots |
| `RobinOverflow.FewKeysFit` | include/banker/common/hash/robin_hash.hpp:84 | no set of at most 255 keys is overfull for any table size |
| `RobinOverflow.MultiplesOverflow` | include/banker/common/hash/robin_hash.hpp:84 | a concrete key set on each side of the limit: 256 multiples of 512 are overfull for 512 slots, 255 are not |
| `RobinProbe.LookFinds` | include/banker/common/hash/robin_hash.hpp:88-102 | a lookup finds the slot of a stored key and nothing for any other key |
| `RobinProbe.PlaceStores` | include/banker/common/hash/robin_hash.hpp:60-85 | an insertion that stores its entry leaves exactly the wanted map, and counts a new key exactly when there is one |
| `RobinProbe.PlaceFails` | include/banker/common/hash/robin_hash.hpp:84 | an insertion stopped by the assertion was asked for an overfull key set |
| `RobinProbe.PlaceStoresIff` | include/banker/common/hash/robin_hash.hpp:57-85 | insertion into a table with room stores the map with the key set to the value, and is stopped by the assertion if and only if the resulting key set is overfull; the key that marks free slots is counted but not stored |
| `RobinProbe.PlaceKeepsKeys` | include/banker/common/hash/robin_hash.hpp:57-85 | an insertion of a key not in the table keeps every stored key and adds that one, unless it is the one that marks free slots; distances need not be sound |
| `RobinProbe.CloseGapErases` | include/banker/common/hash/robin_hash.hpp:111-124 | the whole backward shift leaves the map without the erased key and nothing else changed |
| `RobinProbe.RemovedErases` | include/banker/common/hash/robin_hash.hpp:104-132 | deletion removes exactly the requested key, present or not |
| `RobinMark.MarkInsertedIff` | include/banker/common/hash/robin_hash.hpp:57-85 | inserting the key that marks free slots is stopped if and only if the keys with it are overfull; otherwise it is counted, the stored keys stay, each lookup answers as before or finds nothing, and none is lost if and only if the insertion was harmless |
| `RobinMark.KeysAreFoundIff` | include/banker/common/hash/robin_hash.hpp:62-84 | after that insertion every stored key is still found if and only if its probe reached a free slot without displacing an entry |
| `RobinMark.UnopposedIff` | include/banker/common/hash/robin_hash.hpp:75-83 | a probe displaces no entry if and only if, for some j, the j slots behind its home are the homes of no key and no arc of `len` slots ending there is the home of `len + j` keys: a condition on the keys, whatever their order of arrival |
| `RobinMark.MarkCanLoseAKey` | include/banker/common/hash/robin_hash.hpp:75-80 | with 8 slots marked by 15, inserting 15 loses one of the keys 0, 7 and 23, but neither of 7 and 23 alone |
| `RobinHash.RobinMap.constructor` | include/banker/common/hash/robin_hash.hpp:41-48 | the table size is the first power of two that reaches the capacity; the map is empty |
| `RobinHash.RobinMap.Size` | include/banker/common/hash/robin_hash.hpp:144 | the count is the number of keys of the map |
| `RobinHash.RobinMap.Slot` | include/banker/common/hash/robin_hash.hpp:57 | masking a key gives its home slot |
| `RobinHash.RobinMap.Find` | include/banker/common/hash/robin_hash.hpp:88-102 | the answer is the map's value for the key, or nothing; in a table that is not sound, what the probe meets |
| `RobinHash.RobinMap.ProbeInsert` | include/banker/common/hash/robin_hash.hpp:57-85 | the loop over the array does what the probe function says |
| `RobinHash.RobinMap.Insert` | include/banker/common/hash/robin_hash.hpp:52-86 | the map afterwards is the old one with the key set; the table grows exactly when the load limit asks for it; the assertion stops it if and only if the key set is overfull; after inserting the key that marks free slots the count is too high by one, lookups answer as before or find nothing, and all stored keys are found if and only if the insertion was harmless |
| `RobinHash.RobinMap.InsertWithRoom` | include/banker/common/hash/robin_hash.hpp:57-86 | the same for a table that need not grow |
| `RobinHash.RobinMap.Resize` | include/banker/common/hash/robin_hash.hpp:151-163 | rehashing keeps the whole map and ends below the load limit |
| `RobinHash.RobinMap.MoveEntries` | include/banker/common/hash/robin_hash.hpp:159-162 | the rehash loop moves every entry; no insertion in it asks for another rehash, which is the termination measure |
| `RobinHash.RobinMap.Erase` | include/banker/common/hash/robin_hash.hpp:104-132 | the map afterwards is the old one without the key |
| `RobinHash.RobinMap.ProbeErase` | include/banker/common/hash/robin_hash.hpp:104-132 | both deletion loops over the array do what the functions say |
| `RobinHash.RobinMap.ShiftBack` | include/banker/common/hash/robin_hash.hpp:113-123 | the inner loop does what the gap function says and ends |
| `RobinHash.RobinMap.Clear` | include/banker/common/hash/robin_hash.hpp:134-142 | the map is empty afterwards and the table is reusable |
| `RobinRun.Perform` | include/banker/common/hash/robin_hash.hpp:52-144 | each operation acts as on a mathematical map, or is stopped exactly when its key set does not fit; the key that marks free slots leaves what `RobinMap.Insert` says |
| `RobinRun.FewKeysRunFits` | include/banker/common/hash/robin_hash.hpp:84 | a run that uses at most 255 different keys is never stopped |
| `RobinRun.Replay` | include/banker/common/hash/robin_hash.hpp:52-144 | every run of insert, find, erase and clear, with rehashes in between, answers as a mathematical map up to the first operation that is stopped, which is one that does not fit, or that inserts the key that marks free slots, where the model of the run ends although the program goes on; without such an operation the run is completed and counts as the map |
| `RobinRun.MultiplesRunIsStopped` | include/banker/common/hash/robin_hash.hpp:52-86 | a concrete run on which the assertion fails: on a map made for 512 entries, 255 insertions of multiples of 512 fit and the 256th is stopped, while the load limit admits 358 entries and no more |
| `StableStorage.Storage.Add` | include/banker/core/networker/client_containers/stable_storage.hpp:29-38 | the item is stored at the end under the next id; the tables stay inverse if and only if that id is not live, which the first 2^64 additions ensure |
| `StableStorage.Storage.Remove` | include/banker/core/networker/client_containers/stable_storage.hpp:40-59 | the id is forgotten and every other id keeps its value; the last item takes the freed index and all others keep theirs |
| `StableStorage.Storage.Get` | include/banker/core/networker/client_containers/stable_storage.hpp:61-65 | the value of a live id, nothing for any other |
| `StableStorage.Storage.Walk` | include/banker/core/networker/client_containers/stable_storage.hpp:67-71 | walking the indices visits every live id exactly once, with its value |
| `StableStorage.Storage.Size` | include/banker/core/networker/client_containers/stable_storage.hpp:71 | the number of items is the number of live ids |
| `StableStorage.RemovedStaysRemoved` | include/banker/core/networker/client_containers/stable_storage.hpp:31-58 | the id of an earlier addition, once not live, does not resolve again before 2^64 additions later |
| `StableStorage.IdIsReissuedIff` | include/banker/core/networker/client_containers/stable_storage.hpp:31 | the 64-bit counter issues an id again exactly after 2^64 additions |
| `StableStorage.InvalidIdIsIssuedIff` | include/banker/core/networker/client_containers/stable_storage.hpp:15-31 | the id set apart as invalid is issued like any other once there are 2^64 additions, and not before |
| `StableStorage.ShortRunIsClean` | include/banker/core/networker/client_containers/stable_storage.hpp:31-35 | a run of at most 2^64 additions never issues a live id |
| `StableStorage.Replay` | include/banker/core/networker/client_containers/stable_storage.hpp:29-59 | every run keeps the tables inverse if and only if no addition issues an id that is live; it then ends with the contents of a plain id-to-value map; the ids issued are 0, 1, 2, ... modulo 2^64; the model of the run ends with the first addition that issues a live id |
| `Framing.FrameRoundTripIff` | include/banker/core/networker/core/packet/packet.hpp:70-87 | a framed packet comes back with the bytes behind it if and only if it has 1 to 2^32 - 1 bytes |
| `Framing.EmptyPacketBlocksStream` | include/banker/core/networker/core/packet/packet.hpp:75 | a framed empty packet is never taken off, so nothing behind it is delivered |
| `Framing.DrainIsIncremental` | include/banker/core/networker/core/packet/packet.hpp:70-87 | parsing does not depend on how the bytes were cut into arrivals |
| `Framing.FramesRoundTripIff` | include/banker/core/networker/core/packet/packet.hpp:296-309 | a sequence of packets comes back whole, with nothing left, if and only if each has 1 to 2^32 - 1 bytes |
| `Framing.ArrivedPacketsArePrefix` | include/banker/core/networker/core/packet/packet.hpp:70-87 | whatever part of the stream has arrived, the packets parsed are the first ones sent |
| `Framing.ParsingGoesOn` | include/banker/core/networker/core/packet/packet.hpp:70-87 | taking packets as bytes arrive gives what parsing all bytes at once gives |
| `Framing.Deserialize` | include/banker/core/networker/core/packet/packet.hpp:70-87 | one packet and the rest of the stream, or an empty packet and an untouched stream |
| `Framing.DeserializeHeader` | include/banker/core/networker/core/packet/packet.hpp:311-322 | the big-endian length, zero when four bytes are not there |
| `Framing.DeserializeAll` | include/banker/core/networker/core/packet/packet.hpp:68-87 | repeating until an invalid packet comes back parses the stream |
| `Framing.SerializeInto` | include/banker/core/networker/core/packet/packet.hpp:296-309 | a length cut to 32 bits in network order, then the data, is appended |
| `Bytes.BigEndianIsNetworkOrder` | include/banker/core/networker/core/packet/packet.hpp:149-153 | the first byte of a length on the wire counts most |
| `Bytes.BigEndianRoundTrip` | include/banker/core/networker/core/packet/packet.hpp:149-162 | the header conversions to and from network order undo each other |
| `PacketCodec.ReadStaysInside` | include/banker/core/networker/core/packet/packet.hpp:184-244 | for any bytes the cursor never goes back nor past the end, and the value has the requested type |
| `PacketCodec.ReadsBack` | include/banker/core/networker/core/packet/packet.hpp:184-244 | a value with lengths below 2^32 met at the cursor is read back, valid, the cursor moved by the encoded size; vectors nest to any depth |
| `PacketCodec.VectorHeadReadsBack` | include/banker/core/networker/core/packet/packet.hpp:205-210 | the size check in front of a vector never rejects an encoding |
| `PacketCodec.PacketReadsBack` | include/banker/core/networker/core/packet/packet.hpp:218-228 | an embedded packet is read back, the cursor passing only its length |
| `PacketCodec.CleanIsEncoded` | include/banker/core/networker/core/packet/packet.hpp:184-244 | a read in which no size check fails returns a value whose encoding is at the cursor |
| `PacketCodec.CleanIffComplete` | include/banker/core/networker/core/packet/packet.hpp:184-244 | all size checks pass if and only if a complete encoding of the type is at the cursor |
| `PacketLaws.RoundTripIff` | include/banker/core/networker/core/packet/packet.hpp:354-379 | a written value of any type is read back with no failed check if and only if it is spelled where the cursor meets it; for types with no packet inside a vector, if and only if all its lengths are below 2^32 |
| `PacketLaws.TypeRoundTripsIff` | include/banker/core/networker/core/packet/packet.hpp:184-244 | all values of a type with lengths below 2^32 are read back wherever they are met if and only if the type holds no packet inside a vector |
| `PacketLaws.ReadsIffSpelled` | include/banker/core/networker/core/packet/packet.hpp:184-244 | for every type, value and bytes: the value is read with no failed check, packets inside vectors included, if and only if each of its parts is spelled where the cursor, which passes only the length of a packet, meets it |
| `PacketLaws.PacketVectorReadsBackIff` | include/banker/core/networker/core/packet/packet.hpp:202-228 | a written vector of packets is read back with no failed check if and only if the data of each packet begins with the encoding of the next |
| `PacketLaws.FlagIsExactIff` | include/banker/core/networker/core/packet/packet.hpp:185-216 | the flag tells whether a complete encoding was there, for all bytes, if and only if the type is not a vector of something other than fixed-size elements |
| `PacketLaws.HiddenFailure` | include/banker/core/networker/core/packet/packet.hpp:213-214 | concrete bytes for which a vector of strings, vectors or packets reads as valid though none is there |
| `PacketLaws.FailedRead` | include/banker/core/networker/core/packet/packet.hpp:190-240 | what a read of each type yields when its own size check fails: the default value, a false flag, and the cursor where it was or behind the length |
| `PacketLaws.ListReadsBack` | include/banker/core/networker/core/packet/packet.hpp:93-102 | values written in turn are read back in turn, a packet being allowed in the last place and none inside a vector |
| `PacketLaws.ListReadsBackIff` | include/banker/core/networker/core/packet/packet.hpp:93-102 | all values matching a list of types are read back if and only if a packet stands at most in the last place and none inside a vector |
| `PacketLaws.PacketVectorMisreads` | include/banker/core/networker/core/packet/packet.hpp:218-228 | at any cursor a vector of two one-byte packets does not come back, because reading a packet leaves the cursor behind its length |
| `PacketLaws.ReuseAfterClearIff` | include/banker/core/networker/core/packet/packet.hpp:165-168 | after clearing, a value of a type that round-trips is read back if and only if the cursor was at the start |
| `Packets.Packet.WriteFixed` | include/banker/core/networker/core/packet/packet.hpp:93-102 | the bytes of a trivially copyable value are appended |
| `Packets.Packet.Write` | include/banker/core/networker/core/packet/packet.hpp:354-379 | the encoding of the value is appended and nothing else changes |
| `Packets.Packet.CanReadCheck` | include/banker/core/networker/core/packet/packet.hpp:335-342 | true exactly when that many bytes follow the cursor |
| `Packets.Packet.Read` | include/banker/core/networker/core/packet/packet.hpp:184-244 | value, flag and cursor are those of the read function; without a flag the program ends exactly when a size check fails |
| `Packets.Packet.ReadVector` | include/banker/core/networker/core/packet/packet.hpp:212-216 | the element loop, each element setting the flag anew |
| `Packets.Packet.Clear` | include/banker/core/networker/core/packet/packet.hpp:165-168 | the data is gone, the cursor stays |
| `Packets.SendValues` | include/banker/core/networker/core/packet/packet.hpp:53-102 | values written, framed, taken off a stream as a valid packet and read by type come back, all valid |
| `Streams.AdvanceDrops` | include/banker/core/networker/core/stream_socket/stream_socket_core.hpp:166-184 | accounting for n written bytes drops exactly the first n pending bytes, pops the buffers in front, and leaves the offset zero or inside the head |
| `Streams.FlushConserves` | include/banker/core/networker/core/stream_socket/stream_socket_core.hpp:130-187 | written and pending bytes afterwards are the pending bytes before, unless a failure is reported; then nothing was written and nothing is pending |
| `Streams.FlushReports` | include/banker/core/networker/core/stream_socket/stream_socket_core.hpp:130-164 | a flush is ok exactly if nothing is queued, the write would block, or it takes something of what there is; a failed write is an error, a write of nothing a close; would-block changes nothing; an accepted write takes what the system would take, up to all that is pending |
| `Streams.NothingPendingIff` | include/banker/core/networker/core/stream_socket/stream_socket_core.hpp:133-145 | no byte is left to send if and only if every queued buffer is empty |
| `Streams.FlushClosesIff` | include/banker/core/networker/core/stream_socket/stream_socket_core.hpp:159-164 | a flush that the system does not refuse reports a close whatever the system would take if and only if all queued buffers are empty; with a byte to send it does so only if the system takes nothing |
| `Streams.ReceiveConserves` | include/banker/core/networker/core/stream_socket/stream_socket_core.hpp:102-112 | appended, dropped and remaining bytes are the bytes that were on the wire, in order |
| `Streams.ReceiveReports` | include/banker/core/networker/core/stream_socket/stream_socket_core.hpp:114-127 | a receive reports a close if and only if its last read met the end of the stream, and an error if and only if its last read failed |
| `Streams.ReceiveKeepsAllIff` | include/banker/core/networker/core/stream_socket/stream_socket_core.hpp:103-111 | a receive keeps every byte it takes, whatever the system decides, if and only if no more than the limit is on the wire at the start |
| `Streams.KeepsAllIffEndsEmpty` | include/banker/core/networker/core/stream_socket/stream_socket_core.hpp:102-112 | given the system's decisions, a receive drops nothing if and only if it ends on a read that hands over nothing |
| `TransmitBuffers.TransmitBuffer.Consume` | include/banker/core/networker/core/stream_socket/stream_transmit_buffer.hpp:63-79 | the offset moves as far as the buffer allows and the rest is returned |
| `Sockets.Socket.Sendv` | include/banker/core/networker/core/socket/socket.hpp:312-367 | the offered bytes that the system takes go onto the wire in order; no vector or a failure is negative |
| `Sockets.Socket.Recv` | include/banker/core/networker/core/socket/socket.hpp:388-392 | the first bytes of the wire, at most the buffer's size; zero on close, negative otherwise |
| `TcpOperations.RequestWriteVectorized` | include/banker/core/networker/core/tcp/tcp_operations.hpp:112-141 | negative answers map to error, or to ok when the call would block; zero maps to close; otherwise the byte count |
| `TcpOperations.RequestWriteVectorizedAuto` | include/banker/core/networker/core/tcp/tcp_operations.hpp:152-214 | result, buffer count and partial offset of the accounting, ok and error told apart by the system's decision, with the vectors restored and exactly the written bytes sent |
| `TcpOperations.AutoReports` | include/banker/core/networker/core/tcp/tcp_operations.hpp:168-186 | the wrapper's result in every case of the system's decision; unless it is ok nothing is sent and the partial offset stays |
| `TcpOperations.AutoReportsAsFlush` | include/banker/core/networker/core/tcp/tcp_operations.hpp:168-186 | of queued buffers the wrapper reports what the flush reports, under every decision |
| `TcpOperations.AccountEndsAt` | include/banker/core/networker/core/tcp/tcp_operations.hpp:188-213 | whole vectors and partial offset add up to the bytes written, the offset zero or inside the next vector; no vector is counted before it is needed |
| `TcpOperations.AccountIsAdvance` | include/banker/core/networker/core/tcp/tcp_operations.hpp:193-213 | from the front, the accounting finds what the flush loop finds |
| `TcpOperations.AutoAgreesWithFlushIff` | include/banker/core/networker/core/tcp/tcp_operations.hpp:162-213 | the wrapper's answer is the place the flush reaches if and only if it was entered with offset zero |
| `TcpOperations.AdvanceEndsAt` | include/banker/core/networker/core/stream_socket/stream_socket_core.hpp:169-184 | the flush loop ends at the starting position plus the bytes written |
| `TcpOperations.AdvancePopsNoMore` | include/banker/core/networker/core/stream_socket/stream_socket_core.hpp:169-184 | the flush loop pops no buffer that the bytes written do not require |
| `StreamSocketCore.Enqueue` | include/banker/core/networker/core/stream_socket/stream_socket_core.hpp:76-88 | the buffer joins the end of the queue |
| `StreamSocketCore.ReceiveInto` | include/banker/core/networker/core/stream_socket/stream_socket_core.hpp:91-128 | receive buffer, wire and count are those of the receive function; close and error are reported exactly when the last read met the end or failed |
| `StreamSocketCore.ReceiveLoop` | include/banker/core/networker/core/stream_socket/stream_socket_core.hpp:99-112 | the loop appends every byte but those of a read made after the limit was reached |
| `StreamSocketCore.FlushOutBuffer` | include/banker/core/networker/core/stream_socket/stream_socket_core.hpp:130-187 | queue, offset, wire and count are those of the flush function; the result is told by the system's decision, and would-block leaves all as it was |
| `StreamSocketCore.GatherIovecs` | include/banker/core/networker/core/stream_socket/stream_socket_core.hpp:140-145 | the vectors offered are the pending bytes |
| `StreamSocketCore.PopWritten` | include/banker/core/networker/core/stream_socket/stream_socket_core.hpp:166-186 | the pop loop does what the accounting says and ends by queue length and bytes left |
| `StreamSockets.StreamSocket.Enqueue` | include/banker/core/networker/core/stream_socket/stream_socket.hpp:60-68 | the buffer joins the end of the send queue |
| `StreamSockets.StreamSocket.Tick` | include/banker/core/networker/core/stream_socket/stream_socket.hpp:70-94 | receive if readable, then flush if writable unless the last read failed or met the end, which is reported; nothing else changes; the result is unset when neither is asked for |
| `StreamSockets.Connection.Perform` | include/banker/core/networker/core/stream_socket/stream_socket.hpp:60-94 | one event on two joined sockets is one step of the run |
| `StreamSockets.Converse` | include/banker/core/networker/core/stream_socket/stream_socket.hpp:60-94 | any run carried out on the objects delivers the packets that the run delivers |
| `Links.FlushBalances` | include/banker/core/networker/core/stream_socket/stream_socket_core.hpp:130-187 | a flush keeps every byte accounted for |
| `Links.ReceiveBalances` | include/banker/core/networker/core/stream_socket/stream_socket_core.hpp:91-128 | a receive keeps every byte accounted for |
| `Links.RunAccounts` | include/banker/core/networker/core/stream_socket/stream_socket.hpp:60-94 | every run keeps both directions accounted for |
| `Links.StepAccounts` | include/banker/core/networker/core/stream_socket/stream_socket.hpp:60-94 | every event keeps both directions accounted for, bytes and packets |
| `Links.BytesConservedIff` | include/banker/core/networker/core/stream_socket/stream_socket_core.hpp:76-187 | in every run, enqueued = received, in flight, still to be sent, if and only if every event is careful |
| `Links.CarefulRunIff` | include/banker/core/networker/core/stream_socket/stream_socket_core.hpp:103-164 | a run drops and throws away nothing if and only if each receive ends on a read that hands over nothing and each flush writes something, would block or has nothing to send |
| `Links.GentleRunIsCareful` | include/banker/core/networker/core/stream_socket/stream_socket_core.hpp:103-164 | runs whose receives start with at most 16384 bytes in flight and whose flushes find nothing queued, would block or take something are careful in both directions |
| `Links.PacketsArriveInOrder` | include/banker/core/networker/core/packet/packet.hpp:53-87 | in a careful run, packets delivered are the first of those sent, and all of them once the link is empty |
| `Links.DrainedLinkDeliversAll` | include/banker/core/networker/core/stream_socket/stream_socket.hpp:55-94 | in a careful run, parsing the buffer after everything has arrived delivers exactly the packets sent |
| `Base64.ToBase64` | include/banker/core/crypto/format_bytes.hpp:148-172 | the loop writes the groups' text |
| `Base64.DecodeEncode` | include/banker/core/crypto/format_bytes.hpp:148-172 | a decoder recovers the bytes for every length, padded or not |
| `Base64.EncodedLength` | include/banker/core/crypto/format_bytes.hpp:155-169 | padded text has 4 characters per 3 bytes begun, unpadded text as many as the bits need |
| `Base64.StandardIsSpelled` | include/banker/core/crypto/format_bytes.hpp:215-217 | the standard alphabet, character by character |
| `Base64.StandardIsProper` | include/banker/core/crypto/format_bytes.hpp:215-217 | the standard alphabet has 64 different characters and no padding sign |
| `Hex.MakeHexTable` | include/banker/core/crypto/format_bytes.hpp:21-31 | entry i is the two digits of i |
| `Hex.ToHexBytes` | include/banker/core/crypto/format_bytes.hpp:35-53 | two digits a byte, a separator after each full line but the last byte |
| `Hex.ToHexBytesStream` | include/banker/core/crypto/format_bytes.hpp:55-95 | the chunk loop writes the chunks' text |
| `Hex.TextIsRead` | include/banker/core/crypto/format_bytes.hpp:21-95 | a reader with digit values of its own recovers the bytes from either writer's text, for every width, if the separator has no digit |
| `Hex.WritersAgreeIff` | include/banker/core/crypto/format_bytes.hpp:35-95 | for a length, separator and width of at least one, both writers give the same text for all bytes if and only if width or length is at most 65536 or the separator is empty |
| `Hex.WidthZeroIsOneLineIff` | include/banker/core/crypto/format_bytes.hpp:60-69 | a width of zero writes one line without separators, for all bytes of a length, if and only if the length is at most 65536 or the separator is empty |
| `UrlCodec.UrlEncode` | src/http_server.hpp:56-73 | kept characters and lower-case escapes, character by character |
| `UrlCodec.EncodesAs` | src/http_server.hpp:63-69 | the characters spelled out stand for themselves, every other byte becomes a percent sign and its two lower-case digits |
| `UrlCodec.UrlDecode` | src/http_server.hpp:263-292 | escapes, plus signs and broken escapes, as the decoder treats them |
| `UrlCodec.EscapeDecodes` | src/http_server.hpp:268-280 | what any two characters behind a percent sign decode to, by a spelled table of digits in both cases: two digits, white space or a sign and a digit, a lone digit, or no escape |
| `UrlCodec.OtherDecodes` | src/http_server.hpp:282-289 | a plus sign decodes to a space, any other character and a percent sign near the end to itself |
| `UrlCodec.DecodeEncode` | src/http_server.hpp:56-73 | decoding undoes encoding for every byte string |
| `UrlCodec.SpellingDecodes` | src/http_server.hpp:263-292 | decoding undoes every percent-encoding of a byte string, whichever characters it escapes and in whatever case its digits are |
| `UrlCodec.EncodeIsInjective` | src/http_server.hpp:56-73 | different byte strings never share an encoding |
| `UrlCodec.EncodingIsWellFormed` | src/http_server.hpp:61-71 | the encoder writes only kept characters and complete escapes, and no plus sign |
| `UrlCodec.DecodeIsStrictIff` | src/http_server.hpp:263-292 | for every text, decoding agrees with a decoder that takes two-digit escapes only, if and only if no percent sign stands before white space or a sign with a digit, or before a lone digit that is not the 0 of a prefix 0x |

## Left out

- The load factor as a float: the test is the exact integer one, `10 * (count + 1) > 7 * size`.
- Builds without assertions, in which the one-byte distance would wrap instead of stopping the program.
- RobinHash.RobinMap.Insert: says nothing about the table after a failed assertion. After an insertion of the key
  that marks free slots it says what lookups find; what further changes do to such a map is not modelled.
- RobinRun.Replay: ends the run where that key is inserted, although the program goes on.
- RobinHash.RobinMap.Find: returns the value instead of a pointer through which it could be changed in place.
- StableStorage.Storage.Get: likewise returns the value; so does `RawAt`.
- StableStorage.Replay: ends the run with the first addition that issues a live id, although the program goes on.
- The default constructor of the map, which leaves it without a table; template parameters other than 0.7.
- Capacities so large that doubling overflows `size_t`; allocation failure everywhere.
- Concurrency of the two ends inside one call: calls are atomic. A peer's write during a receive is the same as the
  write coming first, since the system may hold back any bytes.
- `recv` returning zero is a decision of the system and is not tied to the peer's actions.
- `request_read` and `request_write`: the same mapping as the vectored write.
- The host's byte order of numbers inside packets: least significant byte first; only that encoding and decoding
  undo each other is used.
- `write_to_front`, `insert_bytes`, combined headers, packet copies: direct byte-vector operations.
- Sockets, polling, address handling and connection set-up; cryptography; timers; the test framework.
- `to_base32_impl`, which nothing calls; `span_to_binary` and `to_binary`.
- HTML, MIME types, directory listing and the server loops.
- Locale-dependent character classes: letters and digits are the ASCII ones.
