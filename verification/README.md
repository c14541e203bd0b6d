# A verified model of libmsgexchange

libmsgexchange is the C++ library with which the video recorder's clients and server exchange
messages. This project models its three layers in Dafny and proves what they are for:

- **Packets and the wire.** A packet is a growable buffer with a 32-byte big-endian header, a write
  end, a read cursor and two CRC-32 checksums. `MsgPacket.dfy` has the object with its array and
  loops; every method is tied to a function on the abstract packet of `Packet.dfy`. `Crc.dfy` and
  `CrcTable.dfy` prove the table-driven checksum equal to bit-by-bit division and prove what it
  detects, `ByteOrder.dfy` that swapped words in memory are big-endian. `Wire.dfy` models a socket as
  a byte stream with a script of events, one for every poll, send or receive, so that a statement about
  all scripts is one about all ways to split, delay or cut the stream. `Framing.dfy` proves what a reader
  makes of a stream, `ConnectionEnd.dfy` what failed reads say of the connection, and `Receiver.dfy` what
  becomes of a reader that reads on after them. `TypedFields.dfy` proves the round trip of values,
  `PacketRuns.dfy` invariants of runs and the cost of growing, `Compression.dfy` the round trip through a
  codec, `Uids.dfy` the numbering of packets.
- **Requests and responses.** `Session.dfy` is a transition system of the caller, the receiver thread
  and the connection, whose steps interleave freely. `Connection.dfy` has the connection object and
  the record of what it shows to the outside. `Delivery.dfy` takes messages from one program to the
  other: constructed, filled, sent, read and taken apart.
- **The server.** `Notifications.dfy` has the bounded queue of a handler, `ThreadQueue.dfy` the set
  of threads and its sweep, `Server.dfy` the choice of a handler for each connection.
  `UrlCodec.dfy` has the URL coding of the JSON handler.

`dafny verify dfyconfig.toml` checks all of it.

## Where code and documentation differ

The model follows the code.

- The sync word is 0x00AAAAAA (src/msgpacket.cpp:120, 492); the comment in include/msgpacket.h:25
  says 0xAAAAAA00.
- The notification queue has size 0 at first (src/msghandler.cpp:10) and may hold one entry more than
  its size (line 109); include/msghandler.h:54-57 calls the size a maximum, 50 by default.
- `put_Blob` and `reserve` refuse length 0 (src/msgpacket.cpp:368), so that reading a packet with an
  empty payload depends on the early return at line 524.
- `StopAll` stops every thread before it returns (src/msgthreadqueue.cpp:27-42); the header says that
  it only schedules this.

## Properties that do not hold as one might wish

Each comes with the exact condition under which it holds, or with an input that breaks it, or both:

- Reading: a header that announces 0xFFFFFFE0 bytes or more makes the 32-bit sum in `checkPacketSize` wrap around
  (`Framing.ReadGoesWrongIff`, `Framing.WrappingLengthIsReadAsSuccess`).
- `reserve`, `consume` and `get_Blob` with such lengths (`PacketRuns.StepIsSoundIff`, `PacketRuns.ConsumeMovesBack`).
- `copy` without memory, and onto itself (`PacketRuns.StepIsSoundIff`, `MsgPackets.MsgPacket.Copy`).
- A receiver that reads on after a failed read, as session and handler do, can get packets that were never sent
  (`Receivers.TimeOutInjects`, `Receivers.LackOfRoomInjects`); the stream stays aligned if and only if the failed read
  took nothing (`Receivers.FailedReadKeepsBoundaryIff`).
- Puts after freezing are sent but not framed (`Framing.LatePutIsFramedIffEmpty`).
- Relaying a payload checksum stored with an empty payload (`Framing.RelayIsIdentityIff`).
- Payload checksum 0 means none (`Framing.PayloadBurstIsRefusedIffChecked`).
- Compressing an empty payload succeeds, uncompressing it fails (`Compression.CompressionIsTransparent`).
- A failed compression or uncompression can lose the payload: if the codec returns no bytes, which zlib does when
  it unpacks a stream of nothing, or if memory is short (`Compression.FailedCompressIff`,
  `Compression.FailedUncompressIff`, `Compression.UncompressLosesPayload`).
- The response to a request with serial number 0, which the counter reaches when it wraps around, is not recognized
  (`Deliveries.ReplyAnswersIff`).
- An automatic serial number can be taken already (`Uids.NextIsFreshIffNotTaken`, `Uids.DuplicateAtStart`).
- A condition can be deleted on time-out while the receiver is about to signal it (`Sessions.ExposedIffPremature`,
  `Sessions.TimeOutCanRaceSignal`), and then a later request can succeed with the wrong response
  (`Sessions.LaterRequestGetsOldResponse`).
- A session that is opened again after a loss, without `Close`, is deaf (`Sessions.ReopenedIsDeaf`).
- A newer notification can be written before an older one (`Notifications.StepKeepsOrderedIff`,
  `Notifications.NewerIsWrittenFirst`).
- A notification queue holds one entry more than its size (`Notifications.SizeIsKeptIff`).
- A connection whose address cannot be found out can block the server (`Servers.MsgServer.Accept`).
- Decoding and encoding a URL again changes what is not canonical (`UrlCodec.RestoredIffCanonical`).

## Assumptions

- No object in memory has 2^31 bytes or more: the types `Size`, `Chunk` and `HeapLimit` say so where it is used. An
  allocation beyond the constant `heap` of a packet fails. Lengths that come from outside, in a header or as an
  argument of `reserve`, `consume` and `get_Blob`, are any 32-bit numbers, and their sums wrap around.
- Where the code leaves its buffer, nothing is said of what follows.
- A script of socket events is finite; when it has run out, polls time out. Statements that promise
  success ask for a script without time-outs and errors that moves enough bytes.
- The code holds the locks it takes: each action of `Session.dfy` and `Notifications.dfy` is one
  critical section or one access to shared data.
- A claimed condition is not deleted before it is signalled: `Sessions.Careful`, a hypothesis of the two main results
  on responses and dispatch. The code does not ensure it. An address is free for a new condition as soon as the old one
  is deleted.
- Characters are classified as in the C locale, and byte arithmetic wraps.
- Only the server assigns ids to its handlers, and only the queue stops and deletes its threads.

## Model

| member | source | states |
|---|---|---|
| `CrcTable.TableEntry` | msgexchange/src/main/cpp/msgexchange/src/msgpacket.cpp:43-87 | all 256 table words: entry `i` is what eight division steps by the reflected polynomial 0xEDB88320 make of `i` |
| `Crc.UpdatedIsByteStep` | msgexchange/src/main/cpp/msgexchange/src/msgpacket.cpp:403 | one turn of the table loop does to the register what xoring in the byte and eight single-bit steps do |
| `Crc.Checksum` | msgexchange/src/main/cpp/msgexchange/src/msgpacket.cpp:398-407 | the loop over a buffer returns CRC-32 in its reference form: bit-by-bit division of the bytes, least significant bit first, with all-ones start and complement (section 8 of RFC 1952) |
| `Crc.CheckValue` | msgexchange/src/main/cpp/msgexchange/src/msgpacket.cpp:398-407 | the checksum of the digits 1 to 9 is 0xCBF43926, the check value of CRC-32, and that of nothing is 0 |
| `Crc.BurstChangesCrc` | msgexchange/src/main/cpp/msgexchange/src/msgpacket.cpp:398-407 | two strings of equal length that differ only inside a window of at most 32 bits, anywhere and at any bit offset, have different checksums |
| `Crc.FourByteWindowChangesCrc` | msgexchange/src/main/cpp/msgexchange/src/msgpacket.cpp:398-407 | in particular: strings that differ only within 4 consecutive bytes |
| `Crc.ThirtyThreeBitBurstEscapes` | msgexchange/src/main/cpp/msgexchange/src/msgpacket.cpp:398-407 | 32 is the limit: two strings that differ only within 33 bits have the same checksum |
| `Bytes.WordBytesInjective` | msgexchange/src/main/cpp/msgexchange/src/msgpacket.cpp:511-546 | comparing the four stored bytes is comparing the checksums |
| `ByteOrder.Swap16` | msgexchange/src/main/cpp/msgexchange/src/os-config.cpp:25-39 | what the 16-bit swap leaves in a little-endian memory is the word with its high byte first, and swapping back restores it |
| `ByteOrder.Swap32` | msgexchange/src/main/cpp/msgexchange/src/os-config.cpp:17-31 | the same for 32 bits |
| `ByteOrder.Swap64` | msgexchange/src/main/cpp/msgexchange/src/os-config.cpp:21-35 | the same for 64 bits, which are swapped by halves |
| `ByteOrder.Stored16IsBigEndian` | msgexchange/src/main/cpp/msgexchange/src/os-config.cpp:25-27 | swapping and storing a 16-bit word makes the big-endian bytes of its number, which is how the model puts it |
| `ByteOrder.Stored32IsBigEndian` | msgexchange/src/main/cpp/msgexchange/src/os-config.cpp:17-19 | the same for 32 bits |
| `ByteOrder.Stored64IsBigEndian` | msgexchange/src/main/cpp/msgexchange/src/os-config.cpp:21-23 | the same for 64 bits |
| `ByteOrder.ByteIsItself` | msgexchange/src/main/cpp/msgexchange/src/msgpacket.cpp:167-169 | a byte is put and got as itself |
| `ByteOrder.PutsSwapped16` | msgexchange/src/main/cpp/msgexchange/src/msgpacket.cpp:171-177 | what `put_U16` and `put_S16` append is the word after `htobe16`, as a little-endian machine stores it: for the signed kind the word that is the number's two's complement; and it is got back as that number |
| `ByteOrder.PutsSwapped32` | msgexchange/src/main/cpp/msgexchange/src/msgpacket.cpp:179-185 | the same for `put_U32` and `put_S32` and `htobe32` |
| `ByteOrder.PutsSwapped64` | msgexchange/src/main/cpp/msgexchange/src/msgpacket.cpp:187-193 | the same for `put_U64` and `put_S64` and `htobe64` |
| `Bytes.ValueOfBigEndian` | msgexchange/src/main/cpp/msgexchange/src/msgpacket.cpp:23-37 | the big-endian bytes of a number that fits denote that number |
| `Bytes.BigEndianOfValue` | msgexchange/src/main/cpp/msgexchange/src/msgpacket.cpp:23-37 | and every byte string is the big-endian form of what it denotes |
| `Wire.ReceiveSplits` | msgexchange/src/main/cpp/msgexchange/src/os-config.cpp:123-152 | however `recv` splits the stream, what is got plus what is left is the stream; the result is 0 if and only if exactly the bytes asked for were got |
| `Wire.ReceiveBenign` | msgexchange/src/main/cpp/msgexchange/src/os-config.cpp:123-152 | without time-outs and errors, and with enough data, the loop succeeds and uses no more transfers than it has bytes |
| `Wire.ReceiveInFull` | msgexchange/src/main/cpp/msgexchange/src/os-config.cpp:123-152 | under any script: what is received is the front of the stream, as much as was asked for, is there and the calls before the first time-out, closure or error can move; short of that the result is the code of that event |
| `Wire.ReceiveUsed` | msgexchange/src/main/cpp/msgexchange/src/os-config.cpp:123-152 | the events are used up in order, and the code is `ECONNRESET` if and only if the last one used says that the peer is gone |
| `Wire.SocketRead` | msgexchange/src/main/cpp/msgexchange/src/os-config.cpp:123-152 | the loop fills the buffer from `pos` with what it got, leaves every other byte alone, and returns the code of the first poll or `recv` that ends it |
| `Wire.SendsPrefix` | msgexchange/src/main/cpp/msgexchange/src/msgpacket.cpp:412-436 | a send puts a prefix of the data on the wire, all of it if and only if it reports success |
| `Wire.SendBenign` | msgexchange/src/main/cpp/msgexchange/src/msgpacket.cpp:412-436 | without time-outs and errors everything is sent |
| `Wire.SendInFull` | msgexchange/src/main/cpp/msgexchange/src/msgpacket.cpp:412-436 | under any script: what is sent is the front of the data, as much as the calls before the first time-out, closure or error can move, and success means that this is all of it |
| `Wire.SocketWrite` | msgexchange/src/main/cpp/msgexchange/src/msgpacket.cpp:412-436 | the loop sends exactly what that description says, whatever the partial results of `send` |
| `Packets.SealedFields` | msgexchange/src/main/cpp/msgexchange/src/msgpacket.cpp:349-365 | freezing changes the two checksums and the payload length, to the right values, and no other header byte; the header checksum covers the other two |
| `Packets.FrozenFields` | msgexchange/src/main/cpp/msgexchange/src/msgpacket.cpp:349-365 | the image of a frozen packet, by position: bytes 16 to 19 hold the CRC-32 of the payload, or 0 if there is none or the checksum is switched off, bytes 20 to 23 its length, bytes 28 to 31 the CRC-32 of the 28 bytes before; everything else is as it was, and freezing again changes nothing |
| `Packets.FrozenIsAccepted` | msgexchange/src/main/cpp/msgexchange/src/msgpacket.cpp:349-365 | a frozen packet passes every test of the receiver, and an empty payload carries checksum 0 |
| `MsgPackets.MsgPacket.View` | msgexchange/src/main/cpp/msgexchange/include/msgpacket.h:494-506 | the abstract packet of an object: header, payload, cursor in bounds (at most one past the end), usage within capacity, capacity within the heap |
| `Packets.NewFields` | msgexchange/src/main/cpp/msgexchange/src/msgpacket.cpp:118-123 | the header of a new packet, by position: 00 AA AA AA, the serial number at 4, the message id at 8, the type at 10, and zeros behind them |
| `Packets.NewIsEmpty` | msgexchange/src/main/cpp/msgexchange/src/msgpacket.cpp:90-96 | a new packet has no payload, 128 bytes of room, the cursor behind the header, and is not frozen |
| `MsgPackets.MsgPacket.constructor` | msgexchange/src/main/cpp/msgexchange/src/msgpacket.cpp:90-124 | the object is a new packet (`Packets.NewFields`) with the serial number asked for, or the counter's; the shared counter moves on as the requested serial number demands |
| `MsgPackets.MsgPacket.CreateUid` | msgexchange/src/main/cpp/msgexchange/src/msgpacket.cpp:126-132 | a new serial number, an emptied and thawed packet, nothing else |
| `Packets.WithUidFields` | msgexchange/src/main/cpp/msgexchange/src/msgpacket.cpp:126-132 | the new number stands at bytes 4 to 7, the other header bytes are as they were, the payload is gone, and the packet can be frozen again |
| `MsgPackets.MsgPacket.Clear` | msgexchange/src/main/cpp/msgexchange/src/msgpacket.cpp:206-209 | empties the payload and keeps header, capacity and the frozen mark |
| `MsgPackets.MsgPacket.Rewind` | msgexchange/src/main/cpp/msgexchange/src/msgpacket.cpp:211-213 | moves the cursor to the start and nothing else |
| `MsgPackets.MsgPacket.CheckPacketSize` | msgexchange/src/main/cpp/msgexchange/src/msgpacket.cpp:367-396 | for any 32-bit length: succeeds if and only if the sum with the write end wraps around, or something is asked for and fits or can be allocated; contents survive the reallocation; the new capacity is usage plus at least 512 |
| `MsgPackets.MsgPacket.PutNumber` | msgexchange/src/main/cpp/msgexchange/src/msgpacket.cpp:31-37 | appends the bytes of the number, which `ByteOrder.PutsSwapped16` and its neighbours give, or fails and changes nothing (the put methods of lines 167-193) |
| `MsgPackets.MsgPacket.PutString` | msgexchange/src/main/cpp/msgexchange/src/msgpacket.cpp:154-165 | appends the characters and one zero byte, or fails and changes nothing |
| `MsgPackets.MsgPacket.PutBlob` | msgexchange/src/main/cpp/msgexchange/src/msgpacket.cpp:195-204 | appends the bytes, or fails and changes nothing; an empty blob always fails |
| `MsgPackets.MsgPacket.Reserve` | msgexchange/src/main/cpp/msgexchange/src/msgpacket.cpp:215-228 | appends a region, at the old write end, filled if asked for; a length whose sum wraps around is granted too and moves the write end back |
| `MsgPackets.MsgPacket.GetNumber` | msgexchange/src/main/cpp/msgexchange/src/msgpacket.cpp:23-29 | the number at the cursor, which moves behind it; 0 and no move if too few bytes are left |
| `MsgPackets.MsgPacket.GetString` | msgexchange/src/main/cpp/msgexchange/src/msgpacket.cpp:240-256 | the bytes up to the zero byte; an unterminated string gives the empty one and leaves the cursor one past the end |
| `MsgPackets.MsgPacket.GetBlob` | msgexchange/src/main/cpp/msgexchange/src/msgpacket.cpp:286-295 | the next bytes, or failure without a move; a length whose sum wraps around passes the check |
| `MsgPackets.MsgPacket.Consume` | msgexchange/src/main/cpp/msgexchange/src/msgpacket.cpp:229-238 | the position of the next bytes, or failure without a move; a length whose sum wraps around moves the cursor back, and out of bounds if and only if into the header |
| `MsgPackets.MsgPacket.Eop` | msgexchange/src/main/cpp/msgexchange/src/msgpacket.cpp:345-347 | true if and only if nothing is left behind the cursor |
| `Packets.EopIff` | msgexchange/src/main/cpp/msgexchange/src/msgpacket.cpp:345-347 | the end is reached if and only if no unread byte is left |
| `MsgPackets.MsgPacket.Freeze` | msgexchange/src/main/cpp/msgexchange/src/msgpacket.cpp:349-365 | stores the checksums and the length computed by the two loops; a second call does nothing |
| `MsgPackets.MsgPacket.Write` | msgexchange/src/main/cpp/msgexchange/src/msgpacket.cpp:409-437 | freezes, then sends the image; success means the whole image and nothing else went out |
| `MsgPackets.MsgPacket.ReadSync` | msgexchange/src/main/cpp/msgexchange/src/msgpacket.cpp:486-495 | terminates on every stream; skips whole words up to and including the first sync word |
| `MsgPackets.MsgPacket.Read` | msgexchange/src/main/cpp/msgexchange/src/msgpacket.cpp:470-550 | the object ends up, and the stream is consumed, as `Framing.Read` says: a packet, each kind of failure, the `closed` flag (`ConnectionEnds.ClosedIff`), and what a wrapping length does |
| `MsgPackets.MsgPacket.Copy` | msgexchange/src/main/cpp/msgexchange/src/msgpacket.cpp:439-447 | if there is room, header and payload of the other packet, both cursors at the start, own flags kept; copied onto itself, a packet is emptied |
| `Packets.CopyIsTheOther` | msgexchange/src/main/cpp/msgexchange/src/msgpacket.cpp:439-447 | a copy has the image of the other packet, header and payload byte by byte, its cursor at the start, and the flags of this one |
| `MsgPackets.MsgPacket.Compress` | msgexchange/src/main/cpp/msgexchange/src/msgpacket.cpp:630-674 | the payload replaced by its compressed form, its length noted, sealed again; refused for bad levels and frozen packets |
| `MsgPackets.MsgPacket.Uncompress` | msgexchange/src/main/cpp/msgexchange/src/msgpacket.cpp:680-710 | the payload replaced by its uncompressed form, the noted length reset, sealed again |
| `TypedFields.DecodeEncode` | msgexchange/src/main/cpp/msgexchange/src/msgpacket.cpp:167-193 | every number of every width and sign is read back as it was put |
| `TypedFields.KindRanges` | msgexchange/src/main/cpp/msgexchange/src/msgpacket.cpp:167-193 | how many bytes each of the seven kinds takes, and the numbers it has |
| `TypedFields.EncodeIsTwosComplement` | msgexchange/src/main/cpp/msgexchange/src/msgpacket.cpp:167-193 | the bytes of a number denote it, or its two's complement if it is negative |
| `TypedFields.EncodeDecode` | msgexchange/src/main/cpp/msgexchange/src/msgpacket.cpp:258-284 | whatever bytes are got make the number that is put as these bytes |
| `TypedFields.GetNumberTakes` | msgexchange/src/main/cpp/msgexchange/src/msgpacket.cpp:23-29 | a number is got if and only if enough bytes are left, and then they are its bytes; otherwise it is 0 and nothing moves |
| `TypedFields.GetStringTakes` | msgexchange/src/main/cpp/msgexchange/src/msgpacket.cpp:240-256 | a string is what lies before the next zero byte, which goes with it; without one the string is empty and the cursor ends up past the end |
| `TypedFields.GetBlobTakes` | msgexchange/src/main/cpp/msgexchange/src/msgpacket.cpp:286-295 | a blob is got, and success reported, if and only if so many bytes are left; otherwise nothing is copied and nothing moves |
| `TypedFields.PutItemsAppends` | msgexchange/src/main/cpp/msgexchange/src/msgpacket.cpp:154-204 | any list of puts appends the encodings in order, across all reallocations, and changes nothing else |
| `TypedFields.GetItemReadsBack` | msgexchange/src/main/cpp/msgexchange/src/msgpacket.cpp:240-295 | a value at the cursor is read back whatever follows it, and the cursor ends right behind it |
| `TypedFields.GetItemsReadsBack` | msgexchange/src/main/cpp/msgexchange/src/msgpacket.cpp:240-295 | so is every list of values |
| `TypedFields.PutRewindGet` | msgexchange/src/main/cpp/msgexchange/src/msgpacket.cpp:154-295 | any list of numbers, zero-free strings and non-empty blobs, put into an empty packet, rewound and got in the same order, comes back unchanged and ends at `eop` |
| `PacketRuns.StepIsSoundIff` | msgexchange/src/main/cpp/msgexchange/src/msgpacket.cpp:126-710 | each operation, reading and compressing included, keeps cursor and usage in bounds if and only if it is safe: no length that wraps around to a position out of bounds, no copy without room, no stream that announces a wrapping length; capacity never shrinks |
| `PacketRuns.RunIsSoundIff` | msgexchange/src/main/cpp/msgexchange/src/msgpacket.cpp:126-710 | so a run of any operations keeps them in bounds if and only if each is safe where it is called |
| `PacketRuns.ReadIsSafeIff` | msgexchange/src/main/cpp/msgexchange/src/msgpacket.cpp:470-550 | whether a read is safe can be told from the stream: it is if no wrapping length is announced, and without time-outs and errors only then |
| `PacketRuns.ConsumeMovesBack` | msgexchange/src/main/cpp/msgexchange/src/msgpacket.cpp:229-238 | an input at which it fails: consuming 0xFFFFFFF0 bytes succeeds and moves the cursor into the header |
| `PacketRuns.GetsOnlyMoveTheCursor` | msgexchange/src/main/cpp/msgexchange/src/msgpacket.cpp:229-295 | no get changes header, payload or flags; a failed number or blob moves nothing; the cursor passes the end if and only if a string without a zero byte was read |
| `PacketRuns.GrowthIsPaidFor` | msgexchange/src/main/cpp/msgexchange/src/msgpacket.cpp:367-396 | for any puts into a fresh packet, failing ones included: at most 511 unused bytes at all times, and `k` reallocations need a payload of at least 513 * (k / 2) bytes, plus 97 for odd `k` |
| `PacketRuns.GrowthBoundIsTight` | msgexchange/src/main/cpp/msgexchange/src/msgpacket.cpp:367-396 | for every `k` that memory allows there are `k` puts that reallocate every time with exactly that payload |
| `Uids.UidCounter.Assign` | msgexchange/src/main/cpp/msgexchange/src/msgpacket.cpp:111-116 | which number is assigned and how the shared 32-bit counter moves, wrap-around included |
| `Uids.IssuedUpToCounter` | msgexchange/src/main/cpp/msgexchange/src/msgpacket.cpp:102-132 | until the counter wraps, no number above it has been issued, and it has been issued itself if and only if somebody asked for it by name when the counter stood at it |
| `Uids.NextIsFreshIffNotTaken` | msgexchange/src/main/cpp/msgexchange/src/msgpacket.cpp:102-132 | so the next automatic number is new if and only if that has not happened |
| `Uids.AutomaticNumbersIncrease` | msgexchange/src/main/cpp/msgexchange/src/msgpacket.cpp:102-132 | until the counter wraps, automatic numbers strictly increase and are never below any number issued before |
| `Uids.AutomaticNumbersCount` | msgexchange/src/main/cpp/msgexchange/src/msgpacket.cpp:111-113 | automatic numbers count up by one from where the counter stands |
| `Uids.NamedNumberIsGiven` | msgexchange/src/main/cpp/msgexchange/src/msgpacket.cpp:111-116 | a number asked for by name is given, and the next automatic one lies right behind it if it was above the counter, after 0xFFFFFFFF at 0, and otherwise is the one that was due |
| `Uids.DuplicateAtStart` | msgexchange/src/main/cpp/msgexchange/src/msgpacket.cpp:459-460 | a process that first receives a packet (which asks for number 1) and then creates one uses number 1 twice |
| `Framing.HuntSkipsJunk` | msgexchange/src/main/cpp/msgexchange/src/msgpacket.cpp:486-501 | what the synchronisation loop skipped is whole words, none of them the sync word |
| `Framing.HuntFindsSync` | msgexchange/src/main/cpp/msgexchange/src/msgpacket.cpp:486-501 | and it finds the sync word behind any such words |
| `Framing.ReadIsSound` | msgexchange/src/main/cpp/msgexchange/src/msgpacket.cpp:470-550 | a packet that is read is a valid image, taken byte for byte from the stream directly behind skipped words, and exactly that is consumed |
| `Framing.ReadIsComplete` | msgexchange/src/main/cpp/msgexchange/src/msgpacket.cpp:470-550 | a valid image behind skipped words is returned, and nothing behind it is consumed, however the stream is split |
| `Framing.ReadSucceedsIffOffered` | msgexchange/src/main/cpp/msgexchange/src/msgpacket.cpp:470-550 | without time-outs and errors a read yields a packet if and only if the stream starts with such words and such an image for which there is memory |
| `Framing.WrapIsSound` | msgexchange/src/main/cpp/msgexchange/src/msgpacket.cpp:511-549 | a read reports success without a packet, or leaves the buffer, only at an intact header whose length makes the 32-bit sum wrap around; the first without, the second with a stored payload checksum |
| `Framing.WrapIsComplete` | msgexchange/src/main/cpp/msgexchange/src/msgpacket.cpp:511-549 | and at every such header it does, however the stream is split |
| `Framing.ReadGoesWrongIff` | msgexchange/src/main/cpp/msgexchange/src/msgpacket.cpp:511-549 | so, without time-outs and errors, it does if and only if the stream starts with skipped words and such a header |
| `Framing.WrappingLengthIsReadAsSuccess` | msgexchange/src/main/cpp/msgexchange/src/msgpacket.cpp:529-549 | an input at which it happens: 0xFFFFFFE0 bytes announced, success reported, nothing read, the write end at 0 |
| `ConnectionEnds.ClosedIff` | msgexchange/src/main/cpp/msgexchange/src/msgpacket.cpp:497-501 | a failed read sets `closed` if and only if, with the sync word not found in what it took, the last answer it had from the socket was that the peer is gone; otherwise `closed` is as before. What it leaves of stream and script are their last parts |
| `ConnectionEnds.HasSyncIff` | msgexchange/src/main/cpp/msgexchange/src/msgpacket.cpp:486-495 | the sync word is found in what was taken if and only if that is skipped words, the sync word and something more |
| `ConnectionEnds.OnlyGoneCloses` | msgexchange/src/main/cpp/msgexchange/src/msgpacket.cpp:497-501 | so time-outs and other errors alone never close a connection |
| `ConnectionEnds.GoneAtOnceCloses` | msgexchange/src/main/cpp/msgexchange/src/msgpacket.cpp:475-501 | and a peer that is found gone at once closes it, with nothing consumed |
| `ConnectionEnds.RefusedPacketIsTaken` | msgexchange/src/main/cpp/msgexchange/src/msgpacket.cpp:511-546 | a packet with a bad header checksum, or without room for its payload, is consumed up to the end of its header, one with a bad payload checksum as a whole |
| `Framing.OfferIsUnique` | msgexchange/src/main/cpp/msgexchange/src/msgpacket.cpp:486-509 | a stream can be read in one way only: skipped words, image and rest are determined |
| `Framing.ChunkingIsInvisible` | msgexchange/src/main/cpp/msgexchange/src/os-config.cpp:123-152 | two successful reads of one stream, under any two ways of splitting it and into any two packets, give the same image and leave the same rest |
| `Framing.StreamIsFramed` | msgexchange/src/main/cpp/msgexchange/src/msgpacket.cpp:470-550 | valid images written back to back come out one by one, byte for byte, and nothing more is consumed |
| `Framing.SendManySendsAll` | msgexchange/src/main/cpp/msgexchange/src/msgpacket.cpp:409-437 | a sender that reports success for each packet has put the images on the wire in order, complete, and nothing between them |
| `Framing.EndToEnd` | msgexchange/src/main/cpp/msgexchange/src/msgpacket.cpp:349-550 | any list of packets frozen and written under any partial sends, and read under any splitting, arrives with the same images and payloads in the same order, nothing left over |
| `Framing.PrefixIsFramed` | msgexchange/src/main/cpp/msgexchange/src/msgpacket.cpp:470-550 | from any part of a stream of valid images, under any script whatever, a receiver that stops at the first failed read gets the first of those images in order, and no read goes wrong |
| `Framing.OnlySentPacketsArrive` | msgexchange/src/main/cpp/msgexchange/src/msgpacket.cpp:349-550 | so, whatever happens to sender, network and receiver, what arrives up to the first failed read is the first packets sent, unchanged and in order |
| `Receivers.CleanReceiverIsFramed` | msgexchange/src/main/cpp/msgexchange/src/msgsession.cpp:66-80 | a receiver that reads on after failures, as the loops of session and handler do, still gets nothing but the images of the stream, in order, as long as no failed read takes anything off the stream |
| `Receivers.CleanReceiverGetsSentPackets` | msgexchange/src/main/cpp/msgexchange/src/msghandler.cpp:27-47 | the same from sender to receiver: only packets that were sent arrive, in order, if no failed read takes anything |
| `Receivers.IdleReadIsClean` | msgexchange/src/main/cpp/msgexchange/src/msgpacket.cpp:475-477 | a read for which nothing comes in time is such a read |
| `Receivers.FailedReadStaysInPacket` | msgexchange/src/main/cpp/msgexchange/src/msgpacket.cpp:486-546 | a failed read of a packet takes less than the packet |
| `Receivers.FailedReadKeepsBoundaryIff` | msgexchange/src/main/cpp/msgexchange/src/msgpacket.cpp:486-546 | so after a failed read the stream still starts with a packet if and only if nothing was taken |
| `Receivers.TimeOutInjects` | msgexchange/src/main/cpp/msgexchange/src/msgsession.cpp:66-80 | an input at which it fails: a time-out behind the header of a packet whose payload looks like a packet; the receiver gets the inner packet, which was never sent, and not the outer one |
| `Receivers.LackOfRoomInjects` | msgexchange/src/main/cpp/msgexchange/src/msgpacket.cpp:529-533 | the same without any time-out, if there is no memory for the payload |
| `Framing.HeaderBurstIsRefused` | msgexchange/src/main/cpp/msgexchange/src/msgpacket.cpp:511-521 | a burst of up to 32 bits in header bytes 4 to 27 is refused, whatever follows and however it arrives |
| `Framing.PayloadBurstIsRefusedIffChecked` | msgexchange/src/main/cpp/msgexchange/src/msgpacket.cpp:539-546 | an image with a burst of up to 32 bits in its payload is invalid if and only if its stored payload checksum is not 0 |
| `Framing.UnacceptableIsRefused` | msgexchange/src/main/cpp/msgexchange/src/msgpacket.cpp:511-546 | an invalid image with a truthful length field is never read as a packet, and nothing else comes of it below 4 GB |
| `Framing.DamagedPayloadIsReadIffUnchecked` | msgexchange/src/main/cpp/msgexchange/src/msgpacket.cpp:539-546 | so a receiver takes the damaged packet if and only if the stored checksum is 0 |
| `Framing.SentPayloadIsGuardedIff` | msgexchange/src/main/cpp/msgexchange/src/msgpacket.cpp:356-357 | from the sender's side: a payload that a burst of up to 32 bits damages on its way is delivered if and only if the sender had switched its checksum off or the checksum is 0 |
| `Framing.LatePutIsFramedIffEmpty` | msgexchange/src/main/cpp/msgexchange/src/msgpacket.cpp:349-352 | what is put after freezing is sent but not framed: the receiver gets the packet as it was frozen, and the late bytes stay in the stream; all is well if and only if there are none |
| `Framing.RelayIsIdentityIff` | msgexchange/src/main/cpp/msgexchange/src/msgpacket.cpp:523-549 | freezing a received packet again restores its image if and only if the receiving packet was frozen, or the payload is not empty, or the stored payload checksum is 0 |
| `Framing.FrozenPacketRelaysUnchanged` | msgexchange/src/main/cpp/msgexchange/src/msgpacket.cpp:349-365 | a packet from a frozen sender always is restored, without checksum and with a payload whose checksum is 0 as well |
| `Framing.RelaysKeepFrozenPacket` | msgexchange/src/main/cpp/msgexchange/src/msgpacket.cpp:349-365 | through any number of relays, too: what comes out is the image that went in |
| `Framing.RelaysPassFrozenPacket` | msgexchange/src/main/cpp/msgexchange/src/msgpacket.cpp:349-365 | and it does come out if every relay has room for it and no network times out or fails |
| `Compression.FailedCompressIff` | msgexchange/src/main/cpp/msgexchange/src/msgpacket.cpp:635-663 | a failed compression leaves the packet as it was, except if and only if the codec returns no bytes at all, when the payload is lost |
| `Compression.FailedUncompressIff` | msgexchange/src/main/cpp/msgexchange/src/msgpacket.cpp:687-698 | a failed uncompression changes the packet if and only if the codec succeeded and there was no room for its result, because memory was short or the result is empty; then the packet is emptied |
| `Compression.CompressIff` | msgexchange/src/main/cpp/msgexchange/src/msgpacket.cpp:635-674 | a compression succeeds if and only if the level is 1 to 9, the packet is not frozen, and there is no payload or the codec makes of it something that is not empty and no longer; then that is the payload, the old length stands at 24, and the packet is sealed |
| `Compression.UncompressIff` | msgexchange/src/main/cpp/msgexchange/src/msgpacket.cpp:680-710 | an uncompression succeeds if and only if the codec does within the length at 24 and there is room for the result; then that is the payload, 0 stands at 24, and the packet is sealed |
| `Compression.UncompressLosesPayload` | msgexchange/src/main/cpp/msgexchange/src/msgpacket.cpp:687-698 | an input at which it happens, with a lossless codec: a peer sends the packed form of nothing |
| `Compression.SealedIgnoresSums` | msgexchange/src/main/cpp/msgexchange/src/msgpacket.cpp:349-365 | sealing depends on no field that it overwrites |
| `Compression.CompressionIsTransparent` | msgexchange/src/main/cpp/msgexchange/src/msgpacket.cpp:630-710 | over any codec that can undo itself, a successful compression followed by uncompression succeeds and gives the image that plain freezing would have given, if and only if there is a payload: an empty one is compressed with success and then not uncompressed |
| `Sessions.KeyInjective` | msgexchange/src/main/cpp/msgexchange/src/msgsession.cpp:121 | two packets have the same 64-bit key if and only if they have the same serial number and type |
| `Sessions.NewRequestIsKeyed` | msgexchange/src/main/cpp/msgexchange/src/msgpacket.cpp:102-124 | the key of a new packet is the serial number and the type it was constructed with |
| `Sessions.CopyIsKeyed` | msgexchange/src/main/cpp/msgexchange/src/msgsession.cpp:20-22 | and the copy that a caller gets has the key of the packet that arrived |
| `Sessions.StepKeepsInv` | msgexchange/src/main/cpp/msgexchange/src/msgsession.cpp:64-147 | every atomic step of the caller, the receiver or the connection, except one that deletes a claimed condition before it is signalled, keeps the invariant: the map holds nothing but the entry of the one request under way, under its own key; a claimed condition is alive and out of the map; packets leave the receiver in order; answers match |
| `Sessions.RunKeepsInv` | msgexchange/src/main/cpp/msgexchange/src/msgsession.cpp:64-147 | so the invariant holds in every state of every interleaving without such a deletion |
| `Sessions.ResponseMatchesRequest` | msgexchange/src/main/cpp/msgexchange/src/msgsession.cpp:82-147 | if no claimed condition was deleted before it was signalled: whenever a transmission succeeds, its response is a copy of a received packet with the serial number and type of the request, and that packet went to this request only, and no other packet did |
| `Sessions.DispatchConservesPackets` | msgexchange/src/main/cpp/msgexchange/src/msgsession.cpp:64-107 | under the same condition: every packet read while the connection is not lost goes, in order of arrival, to exactly one place, one live waiter or the notification handler (which of them, `Sessions.FindClaimsIff` says); at most one is in hand; requests are answered at most once and in order |
| `Sessions.FindClaimsIff` | msgexchange/src/main/cpp/msgexchange/src/msgsession.cpp:87-97 | a packet is claimed for the pending request if and only if it has its serial number and its type, whatever else it holds |
| `Sessions.ResponseIsReturned` | msgexchange/src/main/cpp/msgexchange/src/msgsession.cpp:64-147 | from any state with a caller waiting and the receiver reading: reading any such packet, finding, copying and signalling it, waking and returning hand exactly that packet to the caller as a success, and leave map and conditions empty |
| `Sessions.OtherPacketIsNotified` | msgexchange/src/main/cpp/msgexchange/src/msgsession.cpp:99-102 | any other packet goes to the notification handler, and the caller goes on waiting |
| `Sessions.UnaskedPacketIsNotified` | msgexchange/src/main/cpp/msgexchange/src/msgsession.cpp:99-102 | so does every packet whose key is not in the map |
| `Sessions.WaitingIsPending` | msgexchange/src/main/cpp/msgexchange/src/msgsession.cpp:112-147 | every state of a run, without an early deletion, in which a caller waits, its entry is in the map and the receiver reads, is such a state |
| `Sessions.SentRequestIsPending` | msgexchange/src/main/cpp/msgexchange/src/msgsession.cpp:112-137 | entering, registering and sending lead there |
| `Sessions.UnsentRequestFails` | msgexchange/src/main/cpp/msgexchange/src/msgsession.cpp:129-134 | a request that cannot be sent fails and leaves nothing in the map |
| `Sessions.UnansweredRequestFails` | msgexchange/src/main/cpp/msgexchange/src/msgsession.cpp:137-147 | so does one whose wait times out |
| `Sessions.SignalledRequestSucceeds` | msgexchange/src/main/cpp/msgexchange/src/msgsession.cpp:137-147 | in any run: a caller that was signalled before its wait ran out returns success, whatever happens after that |
| `Sessions.ReceiverStaysForRequest` | msgexchange/src/main/cpp/msgexchange/src/msgsession.cpp:67-79 | the receiver does not leave its loop while a request is in the map, unless the connection is lost |
| `Sessions.LossEndsReceiver` | msgexchange/src/main/cpp/msgexchange/src/msgsession.cpp:72-76 | once the connection is lost, what is read goes nowhere: the receiver leaves its loop and clears the map |
| `Sessions.NobodyAsksUnconnected` | msgexchange/src/main/cpp/msgexchange/src/msgsession.cpp:112-117 | before the connection was opened, and after it became unusable, no request is made, unless it is lost |
| `Sessions.OneRequestPending` | msgexchange/src/main/cpp/msgexchange/src/msgsession.cpp:112-147 | the map never has more than one entry, and none while no transmission is in progress |
| `Sessions.ReopenedIsDeaf` | msgexchange/src/main/cpp/msgexchange/src/msgsession.cpp:38-50 | a session that was lost and is opened again without `Close` has no receiver, because the old thread was not stopped: until then no packet is taken up and every request fails |
| `Sessions.ClosedSessionReopens` | msgexchange/src/main/cpp/msgexchange/src/msgsession.cpp:38-62 | its partner: a receiver with nothing in the map can be stopped and waited for, and opening then starts another one on a connection that is not lost |
| `Sessions.StepExposesIff` | msgexchange/src/main/cpp/msgexchange/src/msgsession.cpp:84-97 | a step makes the receiver hold a deleted condition if and only if it deletes a condition that is claimed but not yet signalled |
| `Sessions.ExposedIffPremature` | msgexchange/src/main/cpp/msgexchange/src/msgsession.cpp:84-144 | so a run touches, or is bound to touch, a deleted condition if and only if such a deletion happens in it |
| `Sessions.TimeOutCanRaceSignal` | msgexchange/src/main/cpp/msgexchange/src/msgsession.cpp:137-144 | the code does not prevent it: a run in which the response is claimed just as the wait times out |
| `Sessions.LaterRequestGetsOldResponse` | msgexchange/src/main/cpp/msgexchange/src/msgsession.cpp:119-147 | what comes of it when memory is used again: a run in which the next request succeeds with the response to the one before |
| `Deliveries.MessagesArrive` | msgexchange/src/main/cpp/msgexchange/src/msgpacket.cpp:94-550 | from program to program: any list of messages that could be constructed, filled by any puts, frozen and written arrives under any splitting with the id, type, serial number and values of each, in order, and nothing left over |
| `Deliveries.ImageCarries` | msgexchange/src/main/cpp/msgexchange/src/msgpacket.cpp:94-365 | any packet with the frozen image of a message yields its header fields and, by the same gets, its values up to the end |
| `Deliveries.ResponseArrives` | msgexchange/src/main/cpp/msgexchange/src/msghandler.cpp:54-58 | a response that is built with the serial number and type of a request, sent and read is taken for the answer to it, with everything that was put |
| `Deliveries.ReplyAnswersIff` | msgexchange/src/main/cpp/msgexchange/src/msghandler.cpp:54 | the packet that a handler constructs as a response answers the request if and only if the serial number of the request is not 0, or the counter of the handler's process stands at 0 |
| `Connections.OneLossPerOpen` | msgexchange/src/main/cpp/msgexchange/src/msgconnection.cpp:140-150 | over any run of calls: between two calls of `OnDisconnect`, and between one and the next use of the socket, lies a successful `Open` |
| `Connections.MsgConnection.constructor` | msgexchange/src/main/cpp/msgexchange/src/msgconnection.cpp:16-17 | a new connection is closed, not lost and not aborting |
| `Connections.MsgConnection.Open` | msgexchange/src/main/cpp/msgexchange/src/msgconnection.cpp:22-108 | succeeds if and only if there was no socket and a connection could be made; then loss and abort are forgotten, otherwise nothing changes |
| `Connections.MsgConnection.Abort` | msgexchange/src/main/cpp/msgexchange/src/msgconnection.cpp:110-113 | marks the connection as aborting |
| `Connections.MsgConnection.Close` | msgexchange/src/main/cpp/msgexchange/src/msgconnection.cpp:115-130 | succeeds if and only if there was a socket; only then the abort mark is taken back |
| `Connections.MsgConnection.SetConnectionLost` | msgexchange/src/main/cpp/msgexchange/src/msgconnection.cpp:140-150 | does nothing if the loss is known or the connection is aborting; otherwise it drops the socket and calls `OnDisconnect` once |
| `Connections.MsgConnection.SendRequest` | msgexchange/src/main/cpp/msgexchange/src/msgconnection.cpp:164-180 | fails without touching anything while lost or aborting; otherwise success means that the whole sealed image went out, and a failed write counts as loss and calls `OnDisconnect` |
| `Connections.MsgConnection.ReadResponse` | msgexchange/src/main/cpp/msgexchange/src/msgconnection.cpp:182-202 | fails without touching anything while lost or aborting; otherwise the result and the packet are what `Framing.Read` makes of the stream; a peer that is found gone at once makes it a loss and calls `OnDisconnect`, and as long as the peer is not found gone, nothing does |
| `Notifications.StepKeepsConserved` | msgexchange/src/main/cpp/msgexchange/src/msghandler.cpp:68-122 | every step keeps the balance of notifications handed over, held, queued, written, dropped and freed |
| `Notifications.OneFateEach` | msgexchange/src/main/cpp/msgexchange/src/msghandler.cpp:68-122 | however threads interleave, each notification is in exactly one place: with its caller, queued, written or dropped; it is freed exactly once, if and only if it is neither with its caller nor queued |
| `Notifications.QueueIsLatest` | msgexchange/src/main/cpp/msgexchange/src/msghandler.cpp:106-119 | the queue is always the last part of everything that ever entered it, and entries leave in order of entry |
| `Notifications.StepKeepsOrderedIff` | msgexchange/src/main/cpp/msgexchange/src/msghandler.cpp:68-119 | a step keeps written notifications older than queued ones, and those older than what callers still hold, if and only if it neither writes one directly past a waiting one nor queues one past an older one |
| `Notifications.WrittenInOrder` | msgexchange/src/main/cpp/msgexchange/src/msghandler.cpp:68-119 | so in a run without such a step notifications are written in the order they were handed over |
| `Notifications.NewerIsWrittenFirst` | msgexchange/src/main/cpp/msgexchange/src/msghandler.cpp:99-104 | an input at which it fails: a client that is back gets a new notification before the one queued while it was gone |
| `Notifications.QueueIsBounded` | msgexchange/src/main/cpp/msgexchange/src/msghandler.cpp:108-119 | if no queue size above `q` is ever set, the queue never holds more than `q` + 1 entries (a negative size counts as its `size_t` value) |
| `Notifications.SizeIsKeptIff` | msgexchange/src/main/cpp/msgexchange/src/msghandler.cpp:108-119 | the length after queueing; it is within the size if and only if the queue was shorter than that before |
| `Notifications.BoundIsReached` | msgexchange/src/main/cpp/msgexchange/src/msghandler.cpp:108-119 | for every size the `q` + 1 entries are reached, and none of them was dropped |
| `Notifications.SizeTakesEffect` | msgexchange/src/main/cpp/msgexchange/src/msghandler.cpp:108-130 | setting a size drops nothing; the next entry that is queued finds at most that many of the latest entries left |
| `Notifications.ExcessOverSize` | msgexchange/src/main/cpp/msgexchange/src/msghandler.cpp:108-116 | what is dropped when one is queued: the entries beyond the size, and nothing at all if the size is negative |
| `Notifications.AttemptsWriteOldest` | msgexchange/src/main/cpp/msgexchange/src/msghandler.cpp:68-89 | a run of write attempts writes as many of the oldest entries, in order, as attempts succeed, and none while the client is gone; a failed attempt loses nothing |
| `Notifications.NothingIsWrittenMeanwhile` | msgexchange/src/main/cpp/msgexchange/src/msghandler.cpp:68-119 | from the loss of the client until it is back, nothing is written, whatever any thread does |
| `Notifications.BackAgain` | msgexchange/src/main/cpp/msgexchange/src/msghandler.cpp:68-104 | what is in the queue when the client is back is written then, oldest first, one entry for each successful attempt |
| `Notifications.DestroyedUnsent` | msgexchange/src/main/cpp/msgexchange/src/msghandler.cpp:13-22 | what is still queued in the end is dropped, not written |
| `Notifications.MsgHandler.constructor` | msgexchange/src/main/cpp/msgexchange/src/msghandler.cpp:10-11 | a handler starts with an empty queue of size 0 |
| `Notifications.MsgHandler.QueueNotification` | msgexchange/src/main/cpp/msgexchange/src/msghandler.cpp:99-122 | sends directly if connected and the write succeeds, otherwise drops the oldest entries beyond the size and appends |
| `Notifications.MsgHandler.SetQueueSize` | msgexchange/src/main/cpp/msgexchange/src/msghandler.cpp:128-130 | changes the size and drops nothing yet |
| `Notifications.MsgHandler.SetDisconnected` | msgexchange/src/main/cpp/msgexchange/src/msghandler.cpp:34-51 | the client is gone, or back; the queue stays |
| `Notifications.MsgHandler.Flush` | msgexchange/src/main/cpp/msgexchange/src/msghandler.cpp:68-89 | the loop does what a run of single attempts does: it writes the oldest entries, in order, one for each successful attempt, until the queue is empty or the handler is stopped; nothing while disconnected |
| `Notifications.MsgHandler.Destroy` | msgexchange/src/main/cpp/msgexchange/src/msghandler.cpp:13-22 | frees everything still queued, unsent |
| `ThreadQueues.MsgThread.Start` | msgexchange/src/main/cpp/msgexchange/src/msgthread.cpp:32-45 | succeeds if and only if the thread was stopped |
| `ThreadQueues.MsgThread.Stop` | msgexchange/src/main/cpp/msgexchange/src/msgthread.cpp:47-62 | succeeds if and only if the thread was not stopped; then its function has returned |
| `ThreadQueues.MsgThread.Delete` | msgexchange/src/main/cpp/msgexchange/src/msgthread.cpp:25-26 | only a thread that is not deleted yet and was stopped may be deleted; afterwards nothing may start or stop it |
| `ThreadQueues.OnceAndInOrder` | msgexchange/src/main/cpp/msgexchange/src/msgthreadqueue.cpp:13-86 | over any run of the queue no thread is added, stopped, deleted or removed twice, or out of that order |
| `ThreadQueues.NoStepSkipped` | msgexchange/src/main/cpp/msgexchange/src/msgthreadqueue.cpp:13-86 | and whatever happens to a thread, all earlier steps have happened to it before |
| `ThreadQueues.KeptAreTheLive` | msgexchange/src/main/cpp/msgexchange/src/msgthreadqueue.cpp:68-84 | what a sweep keeps is exactly the live threads |
| `ThreadQueues.KeptInOrder` | msgexchange/src/main/cpp/msgexchange/src/msgthreadqueue.cpp:68-84 | and two threads that are kept stay in the order in which they were |
| `ThreadQueues.MsgThreadQueue.Run` | msgexchange/src/main/cpp/msgexchange/src/msgthreadqueue.cpp:44-51 | adds the thread if and only if it could be started |
| `ThreadQueues.MsgThreadQueue.Retire` | msgexchange/src/main/cpp/msgexchange/src/msgthreadqueue.cpp:76-78 | stopping, deleting and erasing, each recorded where it is done, come in the order that the record demands; the thread is dead afterwards |
| `ThreadQueues.MsgThreadQueue.Sweep` | msgexchange/src/main/cpp/msgexchange/src/msgthreadqueue.cpp:68-84 | the in-place erase loop terminates and removes exactly the threads that have ended when it comes to them, each stopped, deleted and removed in that order; the others keep their order |
| `ThreadQueues.MsgThreadQueue.StopAll` | msgexchange/src/main/cpp/msgexchange/src/msgthreadqueue.cpp:27-42 | every thread is stopped, deleted and removed; nothing is left |
| `ThreadQueues.MsgThreadQueue.FindByID` | msgexchange/src/main/cpp/msgexchange/src/msgthreadqueue.cpp:88-98 | the first thread with the id, never a deleted one, or none if and only if there is none |
| `Servers.MsgServer.constructor` | msgexchange/src/main/cpp/msgexchange/src/msgserver.cpp:16-17 | a new server has no handlers and keeps none of lost connections |
| `Servers.MsgServer.Accept` | msgexchange/src/main/cpp/msgexchange/src/msgserver.cpp:114-182 | which handler serves a connection: a new one, a clone of the first with the client's id if that is connected and persistent, else that one, reused; the ids of the new ones; every other handler keeps its socket and its state; the server gets stuck if and only if the one found is not persistent, which cannot happen for a client with an id |
| `Servers.MsgServer.OneHandlerPerClient` | msgexchange/src/main/cpp/msgexchange/src/msgserver.cpp:114-182 | at any time at most one handler has a given non-zero client id, and it is the one that is found |
| `Servers.MsgServer.ChoiceForClient` | msgexchange/src/main/cpp/msgexchange/src/msgserver.cpp:128-182 | for a client with an id, the handler found is connected if and only if a connected handler of that client exists, disconnected if and only if a disconnected one does, and none if and only if there is none |
| `Servers.MsgServer.Disconnect` | msgexchange/src/main/cpp/msgexchange/src/msghandler.cpp:34-36 | a handler that loses its client keeps its id, and ids stay unique |
| `Servers.MsgServer.Nap` | msgexchange/src/main/cpp/msgexchange/src/msghandler.cpp:40-43 | a persistent handler may fall asleep |
| `Servers.MsgServer.Resume` | msgexchange/src/main/cpp/msgexchange/src/msghandler.cpp:49-51 | a woken handler counts as connected |
| `Servers.MsgServer.Finish` | msgexchange/src/main/cpp/msgexchange/src/msgthread.cpp:72-79 | a handler whose function returns stays in the set until it is reaped |
| `Servers.MsgServer.SetPersistance` | msgexchange/src/main/cpp/msgexchange/src/msgserver.cpp:220-222 | changes what becomes of new handlers, not of existing ones |
| `Servers.MsgServer.Reap` | msgexchange/src/main/cpp/msgexchange/src/msgthreadqueue.cpp:68-84 | reaping removes ended handlers only and keeps ids unique |
| `Servers.MsgServer.Stop` | msgexchange/src/main/cpp/msgexchange/src/msgserver.cpp:47-49 | stopping the server leaves no handler |
| `UrlCodec.HexPairReadsBack` | msgexchange/src/main/cpp/msgexchange/src/msghandlerjson.cpp:22-30 | two hexadecimal digits of a byte give the byte back |
| `UrlCodec.HexDigitsOf` | msgexchange/src/main/cpp/msgexchange/src/msghandlerjson.cpp:22-30 | the encoder writes the digits 0-9 and a-f; the decoder reads these, and A-F as well |
| `UrlCodec.EscapeIsWritten` | msgexchange/src/main/cpp/msgexchange/src/msghandlerjson.cpp:44-46 | a byte that must be escaped is written as `%` and its two lower-case digits, the high one first |
| `UrlCodec.EitherCaseIsRead` | msgexchange/src/main/cpp/msgexchange/src/msghandlerjson.cpp:62-66 | `%` and two hexadecimal digits in either case are read as the byte they spell |
| `UrlCodec.CharacterIsRead` | msgexchange/src/main/cpp/msgexchange/src/msghandlerjson.cpp:68-73 | `+` is read as a space, and every other character but `%` as itself, reserved ones included |
| `UrlCodec.CutEscapeVanishes` | msgexchange/src/main/cpp/msgexchange/src/msghandlerjson.cpp:62-67 | a `%` with fewer than two characters behind it vanishes, and they are read as if it were not there |
| `UrlCodec.UnreservedIff` | msgexchange/src/main/cpp/msgexchange/src/msghandlerjson.cpp:38-43 | the encoder leaves exactly letters, digits and -._~ as they are, and makes a space a `+` |
| `UrlCodec.UrlEncode` | msgexchange/src/main/cpp/msgexchange/src/msghandlerjson.cpp:34-53 | the loop writes the encoding into a buffer of three times the length plus one, never beyond it, and ends it with the only zero byte |
| `UrlCodec.UrlDecode` | msgexchange/src/main/cpp/msgexchange/src/msghandlerjson.cpp:57-80 | the loop writes the decoding into a buffer of the length plus one, never beyond it, a truncated `%` included |
| `UrlCodec.Encode` | msgexchange/src/main/cpp/msgexchange/src/msghandlerjson.cpp:34-53 | the encoding is at most three times as long as the string |
| `UrlCodec.Decode` | msgexchange/src/main/cpp/msgexchange/src/msghandlerjson.cpp:57-80 | the decoding of any string is at most as long as the string |
| `UrlCodec.DecodeOfEncode` | msgexchange/src/main/cpp/msgexchange/src/msghandlerjson.cpp:34-80 | decoding what was encoded gives the string back, for all byte strings |
| `UrlCodec.RestoredIffCanonical` | msgexchange/src/main/cpp/msgexchange/src/msghandlerjson.cpp:34-80 | encoding what was decoded gives the string back if and only if it is in canonical form: unreserved characters literal, `+` for space, lower-case hexadecimal digits, nothing escaped needlessly |
| `UrlCodec.EncodedIsSafe` | msgexchange/src/main/cpp/msgexchange/src/msghandlerjson.cpp:38-46 | an encoding holds nothing but unreserved characters, `%` and `+` (section 2.3 of RFC 3986) |

## Left out

- `readstream`: reads from a C++ stream with rules of its own (no clearing, no empty payloads).
- Real sockets, name lookup, keep-alive, time, `usleep`; a time-out is an event of the script.
- zlib: compression is proved over any codec that can undo itself. The builds without zlib, where both
  calls just fail, are not modelled.
- What a packet holds after a failed read is not specified, except for its invariant and its frozen mark.
- MsgPackets.MsgPacket.Read: models a packet that exists; the null packet of lines 471 and 482 is not modelled.
- MsgPackets.MsgPacket.Copy: promises nothing of the packet if there is no room, when the code writes beyond its buffer.
- MsgPackets.MsgPacket.GetBlob: promises nothing of what is copied for a wrapping length, when the code reads beyond its
  buffer; likewise `Reserve` of the bytes it fills, and `Read` after an undefined outcome.
- Sessions.StepKeepsInv: takes the unlocked clearing of the map as one step; that it may collide with an insertion is
  not modelled.
- PacketRuns.StepIsSoundIff: refers to the outcome of a read as such, which `PacketRuns.ReadIsSafeIff` tells from the
  stream; under a script with time-outs and errors an announced length may also fail to arrive. It takes
  what a failed read leaves of the packet as any packet the object may hold then.
- The setters and getters of single header fields, which the constructor's and `freeze`'s use stands for.
- CrcTable.TableEntry: the table is written as rows of eight words, in the order of the source.
- ByteOrder.Stored32IsBigEndian: takes the number of a word to be that of its halves; for 16 bits it is Dafny's own
  conversion.
- ByteOrder.Stored64IsBigEndian: likewise.
- Wire.SocketRead: does not model `ENOTSOCK` and the fallback to plain `read`.
- Wire.SocketWrite: does not model `ENOTSOCK`, nor an error number left over from earlier when `send` returns 0.
- Sessions: a transition system on values, not an object with locks, because its properties are about
  interleavings; `Close` appears as loss of usability and waiting for the receiver. The response variant without a
  packet, which would keep the receiver's own packet, is not modelled.
- Connections.MsgConnection.Abort: does not model the shutdown of the socket, which the socket's events stand for.
- Connections.MsgConnection.SetConnectionLost: models the method as one step; two threads that both pass
  its test at the same time would both call `OnDisconnect`.
- Connections.MsgConnection.Open: whether a connection can be made is a parameter; the host, the port and
  the socket options are not modelled.
- Connections.MsgConnection.ReadResponse: reading without a socket is modelled as failing at once, instead of
  after the time-out of a poll on no descriptor.
- Notifications.MsgHandler.QueueNotification: whether the direct write succeeds is a parameter; two threads may write at
  the same time, and what their bytes then look like on the wire is not modelled.
- Notifications.MsgHandler.Flush: whether a write succeeds is a parameter; the bytes of a write that fails
  half-way, and are sent again in full, are the matter of `Write`. Null entries are not modelled.
- Notifications: a notification is a number, and `freed` records what becomes of the object.
- ThreadQueues.MsgThread.Start: start-up of the operating system's thread is modelled as done when it returns,
  with the function still running or already over.
- ThreadQueues.MsgThread.Stop: waking and joining the operating system's thread is modelled as its function being over.
- Progress: that a sleeping thread is woken, that `Stop` and `Sleep` do not wait for each other for ever, that
  the queue's own thread ends. The code gives no such guarantee.
- ThreadQueues.MsgThreadQueue: `RunFunction`, `foreach`, and the loop that sweeps every 100 ms.
- ThreadQueues.MsgThreadQueue.StopAll: null entries of the set are not modelled; nothing inserts any.
- Servers.MsgServer.Accept: `accept` failing, and waiting for a handler to fall asleep, are parameters;
  there is no bound on that wait in the code either. The lock of the queue is released once the handler is found, so
  that a sweep may delete it while the server waits for it or before it is looked at; this is not modelled.
- Closing each descriptor exactly once.
- UrlCodec: `URLDecode`, which cuts the result at a decoded zero byte.
- JSON, HTTP, logging, printing, the Java side and the bundled codec headers.
