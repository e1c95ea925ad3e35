# Chat server core, modelled in Dafny

This project models the sequential core of a small threaded TCP chat server.
It covers each client's handler thread, the connection directory, the event
queue between handler threads and the server, and the server's dispatch step:

- The handler thread reads from a client socket, sanitises each read and
  hands OPEN / RECEIVED / CLOSE records to a POSIX message queue.
- The server thread takes each record off the queue and updates its directory
  of connections, an open-addressing hash table keyed by the client's file
  descriptor. It formats a chat announcement and broadcasts it.

The modules follow the repository's directories:

| module | file | models |
|---|---|---|
| `Common` | common.dfy | bytes, C strings (`strlen`, the text before the NUL, a `sprintf` into a buffer) |
| `Djb2` | hash.dfy | `hash` in hash_table/hash.c |
| `Directory` | table.dfy | `init_table`, `set_table`, `clear_table`, `get_table` in hash_table/table.c |
| `History` | recent_messages.dfy | the recent-messages ring in circular_buffer/recent_messages.c |
| `Formatting` | formatting.dfy | misc/formatting.c: the allowed-character test, `sanitize_buffer`, the 4-argument `format_message` |
| `Misc` | misc.dfy | misc/misc.c: the same sanitiser over `ALLOWED_SYMBOLS` and the 3-argument, in-place `format_message` the server calls |
| `Connections` | connection.dfy | `populate_connection`, `empty_connection`, `close_connection` and the name formula |
| `Queues` | queue.dfy | `populate_message`, `populate_queue`, `init_queue`, and the frame that `send_queue` writes and `read_queue` parses |
| `Server` | server.dfy | `server_handle_queue` |
| `Handler` | handler.dfy | `handle_connection` as a producer of queue records over a sequence of reads |

How the C constructs become Dafny:

- Objects the C code changes in place become classes whose methods state their
  whole new state: the table, the ring, a connection, a queue handle and a
  queue record. The table's slots and the ring's storage are arrays.
- Everything the methods compute is specified by pure functions over
  sequences: `SetSlots` and `Lookup` for the table, `Sanitized`/`Kept` for the
  sanitiser, `Printed` for `sprintf`, and `Encode`/`Decode` for the queue frame.
  The properties are proved as lemmas about those functions.
- Integer widths are explicit. The hash wraps modulo 2^64, connection names are
  `bv64` and queue codes are 4-byte little-endian. The ring's `u_int16_t size`
  field keeps `size % 0x1_0000`.
- The compile-time constants from `definitions.h` are parameters:
  `QUEUE_PAYLOAD_SIZE`, `MESSAGE_BUFFER_SIZE`, `MESSAGE_FORMATTING_SIZE`,
  `MESSAGE_SIZE` and `MESSAGE_ALLOWED_SYMBOLS`. The `Misc` alphabet
  `ALLOWED_SYMBOLS` is fixed, as in misc/misc.h.
- Where the code and the header comments disagree:
  - The `format_message` newline fix-up is modelled as written, next to a
    corrected version (see Findings). The members the server runs
    (`Misc.FormatMessage`, and through it `Server.Announce`, `Open`, `Close`
    and `HandleQueue`) use the corrected version.
  - The header comment in misc/formatting.h promises an appended newline;
    the code does not append one.

## Model

| member | source | states |
|---|---|---|
| Djb2.Hash | hash_table/hash.c:4-10 | the hash is a 64-bit value |
| Djb2.HashBuffer | hash_table/hash.c:4-10 | the loop returns the hash of exactly the first `size` bytes, in order, below 2^64 |
| Djb2.HashOfEmpty | hash_table/hash.c:5 | hashing no bytes gives 5381 |
| Djb2.HashSnoc | hash_table/hash.c:6-8 | appending byte b gives `(h * 33 + b) mod 2^64` |
| Djb2.HashAppend | hash_table/hash.c:6-9 | hashing `d1 + d2` is folding `d2` from the hash of `d1` |
| Djb2.HashIsFold | hash_table/hash.c:4-10 | the hash is the fold of the step from 5381 |
| Directory.Home | hash_table/table.c:19 | the home slot `hash(key) % size` lies inside the table |
| Directory.ProbeWrap | hash_table/table.c:23 | the probe `(home + i) % size` is `home + i`, wrapped once |
| Directory.FindFrom | hash_table/table.c:22-31 | set's probe stops at the first slot that is empty or holds the key; no earlier probe fits |
| Directory.ScanFrom | hash_table/table.c:50-55 | get's scan finds the first probe whose key matches, or proves no probe matches |
| Directory.EmptyIsWellFormed | hash_table/table.c:8-13 | a table of empty slots has no duplicate keys and closed probe paths |
| Directory.LookupStored | hash_table/table.c:41-59 | in a well-formed table, get of a stored key returns true with that slot's value |
| Directory.LookupMissing | hash_table/table.c:45-58 | get of a key held by no slot returns false with a NULL result |
| Directory.LookupCorrect | hash_table/table.c:41-59 | in a well-formed table, get finds a key exactly when some slot holds it |
| Directory.FindReachesStored | hash_table/table.c:22-31 | set's probe for a stored key stops at that key's slot |
| Directory.FindEmptyMeansAbsent | hash_table/table.c:24-27 | when set's probe stops at an empty slot, the key is nowhere in the table |
| Directory.SetPreservesWellFormed | hash_table/table.c:22-31 | set keeps keys unique and keeps every occupied slot's probe path occupied |
| Directory.SetFailsIffFull | hash_table/table.c:22-34 | set fails exactly when every slot holds some other key, and then changes nothing |
| Directory.SetChangesOneSlot | hash_table/table.c:22-31 | a successful set writes key and value into one fitting slot and leaves every other slot as it was |
| Directory.SetThenLookup | hash_table/table.c:24-55 | after a successful set of (k, v), get(k) returns true with v |
| Directory.ClearThenLookup | hash_table/table.c:37-54 | after a successful clear of k, get(k) returns true with a NULL value |
| Directory.SetKeepsKeys | hash_table/table.c:25-29 | no set or clear ever removes a stored key; the size is unchanged |
| Directory.SetKeepsOtherLookups | hash_table/table.c:18-59 | in a well-formed table, a set of k does not change get of any other key |
| Directory.Table.constructor | hash_table/table.c:8-13 | `size` slots, all with NULL key and value |
| Directory.Table.Init | hash_table/table.c:4-16 | NULL exactly when an allocation fails; otherwise a fresh, well-formed, empty table of `size` slots |
| Directory.Table.Set | hash_table/table.c:18-35 | result and new slots are those of the probing set; the table stays well-formed |
| Directory.Table.Clear | hash_table/table.c:37-39 | clear is set with a NULL value; the table stays well-formed |
| Directory.Table.Get | hash_table/table.c:41-59 | returns the probing lookup; found exactly when some slot holds the key; NULL result when not found |
| History.Back | circular_buffer/recent_messages.c:54 | the slot `d` steps back from the head is inside the ring |
| History.HeadIndex | circular_buffer/recent_messages.c:54 | `(head + size - index) % size` is the slot `index` steps back from the head |
| History.TailIndex | circular_buffer/recent_messages.c:63 | `(tail + index) % size` is the slot of the `index`-th oldest kept item |
| History.BackInjective | circular_buffer/recent_messages.c:54 | different distances from the head are different slots |
| History.Next | circular_buffer/recent_messages.c:40 | the next cursor position is inside the ring |
| History.NextIsMod | circular_buffer/recent_messages.c:40-42 | `(i + 1) % size` is the next cursor position |
| History.HeadAfterPush | circular_buffer/recent_messages.c:40 | if head is `(k - 1) % size` then after a push it is `k % size` |
| History.AdvanceCursors | circular_buffer/recent_messages.c:40-45 | head lands on tail exactly when the ring was already full; the tail then follows the oldest kept item |
| History.PushKeepsInv | circular_buffer/recent_messages.c:36-46 | a push keeps the ring holding the latest `min(pushed, size)` items, newest at head |
| History.RecentMessages.constructor | circular_buffer/recent_messages.c:14-29 | head and tail are -1, size is recorded (as a 16-bit field), nothing pushed |
| History.RecentMessages.Init | circular_buffer/recent_messages.c:4-31 | NULL exactly when one of the `size + 2` allocations fails; otherwise an empty ring |
| History.RecentMessages.Push | circular_buffer/recent_messages.c:33-48 | first push sets head = tail = 0 and reports no eviction; later pushes advance head mod size, and tail too exactly when head lands on it; the flag is true exactly when the ring was full; only `storage[head]` changes |
| History.RecentMessages.GetHead | circular_buffer/recent_messages.c:50-57 | fails, leaving the result, when empty or index >= size; otherwise reads `storage[(head - index) mod size]`, the index-th newest item |
| History.RecentMessages.GetTail | circular_buffer/recent_messages.c:59-66 | fails, leaving the result, when empty or index >= size; otherwise reads `storage[(tail + index) mod size]`, the index-th oldest kept item |
| History.ReplayAfterOverflow | circular_buffer/recent_messages.c:33-66 | with capacity 2, three pushes evict once; the tail then reads the second item and the head the third |
| Formatting.Kept | misc/formatting.c:12-15 | the allowed bytes of the input, in order, never longer than it |
| Formatting.Sanitized | misc/formatting.c:12-16 | the compacted buffer has the input's length and holds only allowed bytes |
| Formatting.KeptAppend | misc/formatting.c:12-13 | compaction distributes over concatenation |
| Formatting.KeptSingle | misc/formatting.c:13 | one byte is kept exactly when it is allowed |
| Formatting.KeptMembers | misc/formatting.c:12-14 | a byte survives exactly when it was in the input and is allowed |
| Formatting.KeptAllIff | misc/formatting.c:9-15 | every byte is allowed exactly when compaction keeps them all |
| Formatting.SanitizedUnchangedIff | misc/formatting.c:8-19 | sanitising leaves the buffer unchanged exactly when every byte is allowed |
| Formatting.SanitizedIdempotent | misc/formatting.c:8-19 | a second pass finds every byte allowed and changes nothing |
| Formatting.KeptOfZeros | misc/formatting.c:4-6 | NUL bytes are always kept, since `strchr` matches the terminator |
| Formatting.KeptOfPadded | misc/formatting.c:12-16 | trailing NULs survive compaction and stay at the end |
| Formatting.SanitizedOfPadded | misc/formatting.c:12-16 | sanitising text followed by NULs gives the allowed text followed by NULs |
| Formatting.TextOfSanitized | misc/formatting.c:12-16 | the C string of a sanitised NUL-free read is exactly its allowed bytes |
| Formatting.KeptStep | misc/formatting.c:12-14 | one more byte is appended to the compacted text exactly when it is allowed, and all bytes stay allowed exactly when it is |
| Formatting.Compact | misc/formatting.c:12-15 | the loop leaves the allowed bytes of the first `size` at the front, in order, reports whether all were allowed, and touches nothing past `size` |
| Formatting.SanitizeBuffer | misc/formatting.c:8-19 | returns true exactly when all `size` bytes are allowed; the first `size` bytes become the compacted text and NULs; bytes past `size` are untouched |
| Formatting.Hex | misc/formatting.c:24 | `%lx` prints at least one lowercase hex digit, with no leading zero |
| Formatting.ParseHexOfHex | misc/formatting.c:24 | the printed hex reads back as the same number |
| Formatting.HexInjective | misc/formatting.c:24 | different names print differently |
| Formatting.HexLength | misc/formatting.c:24 | a 64-bit name prints in at most 16 digits |
| Formatting.Printed | misc/formatting.c:22-34 | the unlisted type prints the text verbatim; every other type starts with the hex name |
| Formatting.AnnouncementTexts | misc/formatting.c:24-30 | the `" connected!\n"`, `" disconnected!\n"` and `": "` literals, and that they end in a newline |
| Formatting.PrintedDeterminesName | misc/formatting.c:22-31 | a printed line determines the name; a chat line also determines its text |
| Formatting.SentDeterminesText | misc/formatting.c:29-30 | a chat line determines both the sender's name and the text |
| Formatting.AnnouncementsDiffer | misc/formatting.c:24-27 | a connected announcement never equals a disconnected one |
| Formatting.FixupIndex | misc/formatting.c:35 | the fix-up's index is 0 or 1, and 0 only for an 11-character result |
| Formatting.FormatMessage | misc/formatting.c:21-36 | as written: the printed line, with at most its last character replaced by a newline |
| Formatting.FormatMessageIntended | misc/formatting.h:113-126 | the printed line, ending in exactly one added newline when it lacked one |
| Formatting.AnnouncementsUnaffected | misc/formatting.c:23-35 | the connected and disconnected lines come out exactly as printed, and as intended |
| Formatting.DisconnectedOfZero | misc/formatting.c:25-26 | the disconnect line for name 0 is `"0 disconnected!\n"` |
| Formatting.SentDropsLastChar | misc/formatting.c:29-35 | as written, `"Hello, world!"` becomes `"1: Hello, world\n"`, not `"1: Hello, world!\n"` |
| Misc.AllowedCharacters | misc/misc.h:13 | the allowed bytes are ASCII letters, digits, `?!,.-_`, CR, LF, space and NUL |
| Misc.SanitizeMessage | misc/misc.c:8-19 | true exactly when all `size` bytes are allowed; compaction plus NUL fill; bytes past `size` untouched |
| Misc.FixedCopy | misc/misc.c:22-24 | as written, the copy's last character becomes a newline exactly when the text has at least two characters |
| Misc.Formatted | misc/misc.c:21-38 | as written: announcements as printed; a chat line is the hex name, `": "`, then the fixed copy |
| Misc.WithNewline | misc/misc.c:24 | the text with a newline appended unless it already ends with one |
| Misc.FormattedIntended | misc/misc.c:21-38 | announcements as printed; a chat line keeps its whole text and ends in a newline; no NUL inside |
| Misc.AnnouncementsAgree | misc/misc.c:26-31 | for announcement payloads whose text is non-empty or whose byte 1 is NUL, the code as written and as intended agree |
| Misc.FixupTarget | misc/misc.c:24 | the fix-up writes at `strlen - 1` in 64-bit `size_t`: one below the length, or 2^64 - 1 for an empty text |
| Misc.FixupOverrunsIff | misc/misc.c:22-24 | the fix-up writes outside `temp_buffer` exactly when the text is empty and byte 1 of the buffer is not NUL |
| Misc.AnnouncementFits | misc/misc.c:27-30 | an announcement for a 64-bit name is under 32 bytes |
| Misc.ShortSentLineAsWritten | misc/misc.c:24-33 | as written, the one-character chat line `"a"` gets no newline |
| Misc.LongSentLineAsWritten | misc/misc.c:24-33 | as written, `"Hi!"` becomes `"1: Hi\n"` instead of `"1: Hi!\n"` |
| Misc.FormatMessage | misc/misc.c:21-38 | the buffer holds the formatted line and its NUL; the bytes after the NUL are left as they were |
| Connections.NamePort | connection/connection.c:12 | the low 16 bits of the unmasked name are the port |
| Connections.NameAddress | connection/connection.c:12 | the 32 bits above them are the address |
| Connections.NameInjective | connection/connection.c:6-12 | distinct endpoints get distinct names |
| Connections.Connection.Populate | connection/connection.c:8-13 | fd, address and port are stored verbatim; the name is `((address << 16) + port) ^ 0x4C5A3F2C1B8D` |
| Connections.Connection.Empty | connection/connection.c:15-20 | all four fields become zero, and nothing else changes |
| Connections.Connection.Close | connection/connection.c:73-76 | after closing, all four fields are zero |
| Connections.EmptiedIsNotNamed | connection/connection.c:12-19 | an emptied record does not carry a valid name |
| Queues.Code | queue/queue.h:36-45 | the enum's eight values are the codes 0 to 7 |
| Queues.TypeOf | queue/queue.h:36-45 | a code names a type exactly when it is below 8, and names the type with that code |
| Queues.CodeRoundTrip | queue/queue.h:36-45 | each type's code reads back as that type |
| Queues.OpenMode | queue/queue.c:38-48 | READ opens O_RDONLY, WRITE O_WRONLY, any other type O_RDWR, each in both directions |
| Queues.LittleEndian | queue/queue.c:76-77 | a field written in memory order is `k` bytes long |
| Queues.FromLittleEndian | queue/queue.c:99-100 | a `k`-byte field reads back as a number below 256^k |
| Queues.LittleEndianRoundTrip | queue/queue.c:76-100 | a field written in memory order reads back as the same number |
| Queues.Encode | queue/queue.c:74-78 | the frame is T + C + P + 1 bytes: type at offset 0, connection pointer at T, payload at T + C |
| Queues.Decode | queue/queue.c:91-101 | reading a frame gives a payload of P bytes, a 32-bit type and a 64-bit pointer |
| Queues.DecodeEncode | queue/queue.c:76-101 | reading back a frame restores the type, the connection reference and the payload |
| Queues.EncodeInjective | queue/queue.c:74-78 | different records give different frames |
| Queues.Queue.Populate | queue/queue.c:11-14 | sets exactly the type and the descriptor |
| Queues.Queue.Send | queue/queue.c:71-85 | a READ queue refuses and hands nothing over; otherwise it hands over the encoded frame and reports whether the OS accepted it |
| Queues.Queue.Read | queue/queue.c:88-104 | succeeds exactly when the queue is not WRITE and a frame arrives; then the record is the decoded frame, otherwise it is unchanged |
| Queues.InitQueue | queue/queue.c:36-59 | opens with the mode of the type; NULL exactly when the open or the allocation fails; else a queue with that type and descriptor |
| Queues.Relay | queue/queue.c:71-104 | a record sent on a WRITE queue and read on a READ queue arrives unchanged |
| Queues.QMessage.Populate | queue/queue.c:4-8 | sets type and connection; copies exactly the payload size from a source, or leaves the payload when there is none |
| Server.FdKey | server/server.c:17 | the key is the 4 bytes of the descriptor, little-endian, reading back as the descriptor modulo 2^32 (two's complement) |
| Server.FdKeyInjective | server/server.c:17 | different descriptors give different keys |
| Server.Announced | server/server.c:19 | the payload, now holding the announcement for the connection's name with its NUL |
| Server.Announce | server/server.c:19 | the payload becomes the connected or disconnected line for the name, NUL-terminated |
| Server.Open | server/server.c:15-21 | the directory becomes `set_table` of the fd key to the connection (so, when the set succeeds, `SetThenLookup` finds it there); the payload becomes the connected line, broadcast with no exclusion; the connection is untouched |
| Server.Close | server/server.c:22-29 | the directory becomes `table_clear` of the old fd key (so, when the clear succeeds, `ClearThenLookup` finds the key with no value); the payload becomes the disconnected line for the old name, broadcast with no exclusion; the connection is zeroed |
| Server.DisconnectNamesZero | server/server.c:25 | for a connection the handler has emptied (handler/handler.c:21), the disconnect line is `"0 disconnected!\n"` |
| Server.DisconnectNamesClient | server/server.c:25 | two disconnect lines agree only for the same name, so a connection that keeps its name is named by its line |
| Server.HandleQueue | server/server.c:8-40 | OPEN and CLOSE as above; RECEIVED broadcasts the raw payload excluding the sender; every other type changes nothing and broadcasts nothing |
| Handler.ReceivedPayload | handler/handler.c:14-17 | a received payload has the payload size |
| Handler.ReceivedAllowed | handler/handler.c:15-17 | whatever was read, a received payload holds only allowed bytes |
| Handler.ReceivedText | handler/handler.c:14-17 | for a read shorter than the payload, the text of the payload is the read's allowed bytes up to the first NUL among them; for a read with no NUL, exactly the read's allowed bytes, in order |
| Handler.PayloadOfKept | handler/handler.c:14-16 | a received payload is the read's allowed bytes, then zeros, cut to the payload size |
| Handler.PayloadStartsWithKept | handler/handler.c:14-16 | for a read shorter than the payload, the payload starts with the read's allowed bytes and a NUL |
| Handler.KeptOfNulFirst | misc/misc.c:8-19 | a leading NUL and an allowed byte after it both survive sanitising, in place |
| Handler.NulFirstReadOverruns | handler/handler.c:14-17 | a read starting with NUL and then an allowed byte gives a payload with an empty text, byte 1 not NUL, on which `format_message` writes out of bounds |
| Handler.CloseRepeatsOverrun | handler/handler.c:14-22 | when the last read starts that way, the last RECEIVED payload, which CLOSE repeats, makes `format_message` write out of bounds |
| Handler.ReceivedEvents | handler/handler.c:14-20 | one RECEIVED record per read, each for the client's connection |
| Handler.ReceivedEventsAt | handler/handler.c:14-18 | the record for the `j`-th read carries that read's sanitised payload |
| Handler.ReceivedEventsSnoc | handler/handler.c:14-20 | one more read appends exactly one record, for that read |
| Handler.TraceOfParts | handler/handler.c:12-23 | OPEN, the RECEIVED records and CLOSE for one connection, in that order, form a producer trace |
| Handler.ProducerTraceKinds | handler/handler.c:12-23 | one OPEN, first; one CLOSE, last; never a STRIKE or a BAN |
| Handler.RelayRead | handler/handler.c:14-19 | one loop turn sends the sanitised read as RECEIVED and leaves the buffer zeroed for the next read |
| Handler.LoadRead | handler/handler.c:14-15 | after the read and the sanitising pass the buffer holds the sanitised read, then zeros |
| Handler.RelayAll | handler/handler.c:14-20 | the read loop produces exactly `ReceivedEvents` for the reads, and the record's payload ends as the last one sent |
| Handler.HandleConnectionIntended | handler/handler.c:4-26 | with `close_connection` reduced to closing the socket: the same records as `HandleConnection`, and the connection keeps its name |
| Handler.HandleConnection | handler/handler.c:4-26 | OPEN with the untouched payload, then `ReceivedEvents` (one RECEIVED per read, in read order), then CLOSE repeating the last payload, all for the same connection; the connection ends zeroed |

## Left out

- Socket I/O is not modelled: `bind_connection`, `accept_connection`,
  `listen_on_connection`, `read_connection`, `send_connection` and the
  `close()` system call. Reads become a sequence of byte strings. A sequence
  ends where the first read fails.
- The POSIX message-queue calls (`mq_open`, `mq_send`, `mq_receive`,
  `mq_close`, `mq_unlink`) and `create_queues` are operating-system services.
  `InitQueue` takes the descriptor `mq_open` returns, and `Send`/`Read` take
  whether the queue accepted or delivered a frame.
- Queues.Queue.Read: `read_queue` lets `mq_receive` write one byte more than
  its buffer holds. The model reads the frame as a value and does not capture
  that overrun.
- Queues.Encode: `send_queue` copies `sizeof(Connection)` bytes from an
  8-byte pointer field. The 16 bytes past the pointer are the first 16 bytes
  of the payload, which the record's layout puts at offset 16. Only the last
  frame byte, which `send_queue` never writes, is an input (`trailing`).
- Queues.Encodable requires a payload of at least those 16 bytes, so that the
  copy's source is the record itself.
- Threads, `server_serve`, the listener and `pthread_create` are not modelled.
  Their point is concurrency and I/O. So `HandleQueue` is one dispatch step
  and `HandleConnection` is one handler's output.
- `broadcast_message`: its body is not part of this model. A broadcast is
  recorded as the payload and the excluded connection, if any.
- `printf` logging in `server_handle_queue` is left out.
- Server.Dispatchable requires an announcement record's payload to hold at
  least 32 bytes. That is a lower bound on `QUEUE_PAYLOAD_SIZE`, which is not
  part of this model. The bound makes room for the longest announcement
  (`Misc.AnnouncementFits`).
- `free` and allocation failure are left out, except that the `Init` methods
  take the number of allocations that succeed.
- Directory.Table.Set: `set_table` stores the caller's key pointer, not a
  copy, and the server passes `&connection->fd`. `close_connection` zeroes
  that fd before CLOSE is handled, so a stored key can change under the
  table. The model keeps keys as immutable byte strings and does not
  capture that aliasing. The CLOSE step clears the key of the fd the record
  holds when it is handled, which is 0.
- Directory.Table.Get: `memcmp` over `size` bytes is modelled as equality of
  equal-length keys. All keys in the server are 4-byte descriptors.
- The queue record's `connection` is an object reference in the server and
  handler, and a 64-bit number in the frame. The frame codec does not relate
  a number back to an object.
- circular_buffer/circular_buffer.c is not part of this model. It is an
  earlier ring that reads an uninitialised `tail`.
- connection_handler/connection_handler.c and main.c are not part of this
  model; they are stale snapshots that use types the headers do not define.
- server/context.c and misc/secrets.c are not part of this model. The first
  only wires allocations together; the second depends on `rand`, `time` and
  `getpid`.
- `send_recent_messages` and `free_recent_messages` are not modelled. The
  ring stores one message value per slot, and `memcpy` of `MESSAGE_SIZE`
  bytes is an assignment.
- History.RecentMessages.Push requires `size > 0`. With size 0 the C code
  divides by zero.
- Queues.TypeOf: codes outside the enum are reported as no type. The C
  `switch` in `server_handle_queue` ignores them as well.
- Misc.FormatMessage: the server links this function, and the model gives
  it the corrected fix-up (see Findings). As written it differs on chat
  lines, which the server never formats. It also differs on a text that is
  empty while byte 1 of the buffer is not NUL: there the C code writes a
  newline outside `temp_buffer` (`Misc.FixupOverruns`), and the model
  formats the line instead.
- AnnouncementsAgree: covers only payloads whose text is non-empty or whose
  byte 1 is NUL. On other payloads the code as written writes out of bounds
  (`Misc.FixupOverrunsIff`), so there is no as-written result to compare.
- Server.Announced, Server.Announce, Server.Open and Server.Close format with
  the corrected definition. They do not capture the out-of-bounds write that
  the code as written makes on a payload with an empty text and a non-NUL
  byte 1. `Handler.CloseRepeatsOverrun` shows that CLOSE can carry such a
  payload.
- HandleQueue: inherits the gaps of `Server.Open` and `Server.Close`. Its
  OPEN and CLOSE results are the corrected announcements, including for
  payloads on which the C code writes out of bounds.
- Server.Open: `Dispatchable` requires a NUL within the record's payload.
  The handler never writes the OPEN payload: `QMessage message;` is
  uninitialised (handler/handler.c:10), and `populate_message` with NULL
  leaves it alone. So `strlen` in `format_message` reads indeterminate bytes,
  possibly past the array. The model takes those bytes as the `stale` input
  of `Handler.HandleConnection` and does not capture a read past the array.
- ReceivedText: says nothing about reads of the payload size or longer.
  Their payload may hold no NUL at all. What `broadcast_message` does with
  such a payload is not part of this model.
- Directory.Table.Set, Directory.Table.Clear and Directory.Table.Get require
  `size > 0`. With size 0, `hash % size` in hash_table/table.c divides by
  zero.

## Findings

| source | as written | input that shows it | evidently intended | confidence | as-written member | corrected member |
|---|---|---|---|---|---|---|
| misc/formatting.c:35 | `message[strlen(result) - 1 != '\n']` indexes the message at 0 or 1 (a misplaced bracket), then overwrites the last character of the result with a newline | a chat line `"Hello, world!"` from a connection named 1 gives `"1: Hello, world\n"` | append a newline only when the result lacks one, giving `"1: Hello, world!\n"` as the header comment in misc/formatting.h shows | high, not executed | Formatting.SentDropsLastChar | Formatting.FormatMessageIntended |
| misc/misc.c:24 | the same misplaced bracket, `message[strlen(message) - 1 != '\n']`: any text of two or more characters loses its last character to a newline, and a one-character text gets none | `"Hi!"` gives `"1: Hi\n"`; `"a"` gives `"1: a"` | keep the whole text and end it with exactly one newline: `"1: Hi!\n"` and `"1: a\n"` | high, not executed | Misc.LongSentLineAsWritten | Misc.FormattedIntended |
| misc/misc.c:24 | for an empty text, `strlen(message) - 1` wraps to the largest `size_t`. The test reads byte 1 of the buffer and, when it is not NUL, writes a newline at `temp_buffer[SIZE_MAX]`, outside the array. This runs for every message type, announcements included | a client whose last read starts with NUL and then an allowed byte (`"\0hi"`), then disconnects: the CLOSE record repeats that payload, whose text is empty and whose byte 1 is `h` | leave an empty text alone and format the announcement: the hex name followed by `" disconnected!\n"` | high, not executed | Handler.CloseRepeatsOverrun | Misc.FormattedIntended |
| handler/handler.c:21-23 | `close_connection` zeroes the connection, name included (connection/connection.c:15-19), before the CLOSE record is sent; the server then formats `connection->name` (server/server.c:25) | any client, say one named `a1b2`, that disconnects: every client receives `"0 disconnected!\n"` | the disconnect line names the client, `"a1b2 disconnected!\n"`; the server empties the record itself at server/server.c:27 | high, not executed | Server.DisconnectNamesZero | Handler.HandleConnectionIntended |
