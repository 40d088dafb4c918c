# Verified model of the ThemeSrv gatekeeper

A Dafny 4.11 model of the lobby daemon's gatekeeper connection: the resumable, decrypting message
reader and the encrypting writer of `client_base`, the handlers that turn a connection into an
encrypted request/reply session, the dispatcher's registry, the key agreement, and the
configuration file. `dafny verify dfyconfig.toml` checks everything.

## How it is built

| file | what it holds |
|---|---|
| `options.dfy`, `bytes.dfy`, `cipher.dfy` | optional values; bytes, little-endian integers, exclusive or; a stream cipher as a keystream and a position |
| `net_struct.dfy` | message descriptors, the declared tables, memory offsets |
| `reader.dfy` | the reader as values: `Absorb`, `Run` and `Drive` follow the code, `Feed` is the reader it is meant to be |
| `resumption.dfy` | what a read that stops inside a field does; termination |
| `framing.dfy` | message boundaries straight from the bytes; serialising; announced sizes; the two-stage parse |
| `schedules.dfy` | how a call goes, told before it from the table, the bytes and the socket's schedule |
| `client_base.dfy` | class `ClientBase`: the server's read and write methods, statement by statement, over an array buffer |
| `uru_crypt.dfy` | modular exponentiation and key agreement |
| `conversation.dfy` | the reference: what the gatekeeper answers, as a function of the raw input |
| `dialogue.dfy` | the same seen by a client that keeps to the protocol |
| `gatekeeper_messages.dfy`, `gatekeeper.dfy` | building replies; class `Client`: handlers, flags, pumps, dispatch |
| `synchrony.dfy` | the state of a connection against the reference, as values |
| `progress.dfy` | schedules that hand out a whole stream between fields, and that everything is then heard |
| `service.dfy` | server and client together, over a whole connection |
| `registry.dfy` | callback map, client list and descriptors across accept, hang-up and descriptor reuse |
| `config_text.dfy`, `config_parser.dfy` | lines and patterns of the configuration file; class `ConfigParser` |

The socket is a script: each read delivers some number of bytes (at least one unless the stream has
ended, then none), or would block, or fails; each write takes any prefix, would block, or fails.
The keystream (RC4), the server's secret and modulus, and the seven random bytes of the seed are
parameters. Sizes are 64-bit: the redundant size that wraps around, the product of element size and
count, and the sum of sizes are reduced explicitly.

## What is proved

* **End to end** (`Gatekeeper.Serve`, `Service.ServeCaller`). For any input, any socket behaviour and
  any dispatcher events: as long as no read stops inside a field, the bytes sent plus the bytes still
  queued are the reference conversation's output for the bytes taken so far. A connection is refused
  exactly when the reference closes; a message overruns its buffer exactly when the reference breaks
  off; the read loop fails to end only when the stream has ended. If the stream arrives in reads that
  end between fields (`Gatekeeper.Arrives`, said of the bytes and the schedule alone), all of it is
  heard; for a client that keeps to the protocol the output is then the clear 9-byte reply and one
  reply per request, in order, readable with the key the client derived. With enough write events
  behind that (`Gatekeeper.Departs`), and a socket that goes on taking bytes, all of it is sent.
* **In every state**, also after a read that stopped inside a field: what was sent and what is queued
  is nothing, or the clear reply followed by the replies to the requests served, under one keystream
  that was set up once, each position used once.
* **Configuration** (`ConfigParsing.ConfigParser.Read`, `ConfigParsing.RoundTrip`). Reading any text gives
  every entry the value of the last line that assigns to it under a header of its section; reading
  what was printed gives back every value.
* **Draining** (`Reading.RunDrains`, `Gatekeeper.Client.PumpRead`). The read pump returns only when the
  last step of the socket said would-block, or failed, or a message was refused.
* **Mid-field resumption.** The code compares a field's whole size with what a read brought even when
  part of the field is there already, and steps on by that part too. So a read that ends inside a
  field is not resumed as its comments promise. `Schedules.ExactIffCutsBetweenFields` gives the exact
  condition, which can be told before the call: a completed message is the right one, with exactly its
  bytes taken, if and only if none of the reads ends inside a field. `Resumption.StopInsideAField` is a
  concrete two-byte case in which the reader loops for ever. `Feed` is the repaired reader;
  `Resumption.AnyFragmentation` proves it for every fragmentation, and `Reading.AbsorbIsFeed` that the
  code is that reader on field boundaries.
* **End of the stream.** A read of zero bytes counts as a success, so the read loop does not end on a
  stream that stops early: `Schedules.SpinsIffCutShort` says exactly when, `Schedules.ClosedInFront`
  gives the case of a peer that closes in front of a message.
* **Buffer capacity.** A trailing buffer adds nothing to the allocation, so it has only the slack
  that rounding leaves. `Schedules.OverrunIffAboveSlack` says exactly when a call writes behind its
  buffer, `Schedules.PingOverruns` is a ping that does; `Framing.PlainBufferSizes` and
  `Framing.RedundantBufferSizes` say which announced sizes are accepted. A write that does not fit is
  undefined behaviour in C++; the model stops there with the outcome `Fault`.

Where the code and its comments differ the model follows the code: besides the resumption, an
auth-server request is answered with the file server's message type.

## Model

| member | source | states |
|---|---|---|
| NetStructs.NetStructCalcSz | src/protocol/net_struct.cpp:26-32 | the loop returns the memory offset of field `idx`, of the end when `idx` is large |
| NetStructs.HandshakeTables | src/protocol/common.inl:17-45 | connection header, encryption header, seed and server reply are well-formed, with only the last field variable, and take 35, 2, n and 9 bytes |
| NetStructs.RequestTables | src/protocol/gatekeeper.inl:17-48 | the same for message header, requests and the address reply; ping reply and ping request have one layout |
| NetStructs.FieldOffsets | src/protocol/common.inl:17-45 | the byte at which each field of each message begins, and the end of the message |
| Bytes.ToLEDigit | src/protocol/protocol_structs_begin.inl:60-69 | integers go out byte by byte as their digits to base 256, the lowest first |
| Bytes.FromLEDigit | src/io/client_base.cpp:160-180 | and are read back as the number with those digits |
| Bytes.SpliceAt | src/io/client_base.cpp:287-289 | the bytes written are where they were written, and no other byte changes |
| Bytes.XorAt | src/io/uru_crypt.cpp:160-161 | a bit of a masked byte is set exactly if it is set in one of byte and mask |
| Reading.CapacitySlack | src/io/client_base.cpp:74-75 | a buffer for n bytes has n+25 to n+32 |
| Reading.OversizedWire | src/io/client_base.cpp:229-234 | the mark for too many elements survives the multiplication by the element size, and so is refused, exactly for single-byte elements |
| Reading.FeedSplit | src/io/client_base.cpp:299-317 | intended reader: feeding a+b is feeding a, then b, for every cut, also inside a field, also with embedded strings |
| Reading.AbsorbKeepsShape | src/io/client_base.cpp:268-318 | the field loop as written never touches bytes in front of the field it starts at and keeps the reader well formed, whatever was torn before |
| Reading.CompletionTakesAll | src/io/client_base.cpp:311-314 | when the last field is complete no byte of the read is left over: the assertion at line 312 holds on every schedule |
| Reading.AbsorbIsFeed | src/io/client_base.cpp:268-318 | from a field boundary one read as written is the intended reader on the same bytes |
| Reading.RunDrains | src/io/client_base.cpp:249-266 | a call that waits was told would-block by the socket's last step; one that shuts met a failure or a refused size; one that loops for ever asks for nothing or is at the end of the stream |
| Reading.RunAligned | src/io/client_base.cpp:207-321 | a whole call that never stops inside a field ends as the intended reader says: message, waiting, refusal or overrun |
| Reading.DriveAligned | src/io/client_base.cpp:323-353 | the same for any number of calls separated by would-blocks |
| Reading.SchedulesAgree | src/io/client_base.cpp:207-353 | two aligned schedules on the same input take the same bytes and deliver the same message |
| Resumption.AbsorbBalance | src/io/client_base.cpp:274-317 | bytes taken by one read equal the advance of the position, plus the old offset if the field was left behind |
| Resumption.LaidOut | src/io/client_base.cpp:272-316 | where a read leaves its bytes, whatever was torn: in one piece from where the reader stands, so everything behind a stop inside a field is off by that stop |
| Resumption.DriveBalance | src/io/client_base.cpp:282-316 | a message completed after a stop inside a field has taken more bytes than its wire length |
| Resumption.ExactIffAligned | src/io/client_base.cpp:282-316 | a completed message is the intended one with exactly its bytes taken, if and only if no read stopped inside a field |
| Resumption.StopInsideAField | src/io/client_base.cpp:249-320 | a two-byte type delivered one byte at a time: the intended reader has it, the code loops without asking the socket for anything |
| Resumption.FinishedInside | src/io/client_base.cpp:299-314 | a completed message took at least a byte and announces no more than its buffer holds, even after torn reads |
| Resumption.FrontKept | src/io/client_base.cpp:207-321 | a call leaves the bytes in front of its first field alone, so a carried-over type survives reallocation and reading |
| Resumption.RunEnds | src/io/client_base.cpp:209-320 | termination while the stream lasts: an aligned call with byte buffers makes at most one read more than it takes bytes, and loops only when all bytes are taken (`Schedules.SpinsIffCutShort` has the converse) |
| Resumption.AnyFragmentation | src/io/client_base.cpp:299-317 | repaired reader: any list of chunks gives what their concatenation gives |
| Framing.FeedFrames | src/io/client_base.cpp:207-321 | the intended reader, from any state, finds exactly the boundaries computed straight from the bytes, and its memory form is the wire bytes followed by zeros |
| Framing.TwoStageParse | src/daemon/gatekeeper.cpp:150-175 | reading the type header and resuming at field 1 of the chosen struct in the same buffer gives what reading the whole struct gives |
| Framing.SerializeIsPrefix | src/io/client_base.cpp:400-415 | with only the last field variable, the field-by-field wire form is the front of the memory form |
| Framing.SerializeAfterRead | src/io/client_base.cpp:377-415 | serialising what was read gives back the bytes that were taken |
| Framing.ReadAfterSerialize | src/io/client_base.cpp:377-415 | reading what was serialised restores every fixed field and the counted part of the last, and takes nothing else |
| Framing.PlainBufferSizes | src/io/client_base.cpp:133-158 | a plain buffer passes the size check exactly for 0 to 1024 bytes, and is delivered exactly if it fits the slack |
| Framing.RedundantBufferSizes | src/io/client_base.cpp:145-150 | a redundant size passes exactly for 4 to 1028; smaller ones wrap around and are refused |
| Framing.RedundantElements | src/io/client_base.cpp:145-150 | a redundant size counts, in elements, the bytes of the size itself and those of the buffer |
| Framing.StringSizes | src/io/client_base.cpp:225-242 | a string is taken as long as it is announced up to 1024 characters; a longer one is never refused, as the doubled mark is not recognised |
| Schedules.RequestIsAsk | src/io/client_base.cpp:211-249 | on a field boundary the reader asks for exactly the rest of the fixed fields, or the whole variable field |
| Schedules.ReadFramed | src/io/client_base.cpp:268-318 | one read from a field boundary completes, overruns, is refused, or stops inside a field, exactly as the boundaries of the message say |
| Schedules.RunFollows | src/io/client_base.cpp:207-321 | a call stops inside a field exactly if its course, told beforehand without a reader, does; if not, it ends as its course does, with the same bytes and steps used |
| Schedules.DriveFollows | src/io/client_base.cpp:323-353 | the same for any number of calls |
| Schedules.ExactIffCutsBetweenFields | src/io/client_base.cpp:282-316 | a completed message is the intended one with exactly its bytes, if and only if no read of the schedule ends inside a field |
| Schedules.FullReadsNeverTear | src/io/client_base.cpp:299-317 | reads that return all that was asked for never stop inside a field of a message that is all there |
| Schedules.SpinsIffCutShort | src/io/socket.cpp:139-141 | when reads go on to succeed at the end of the stream, an aligned call loops for ever if and only if the stream ends before the message is decided |
| Schedules.SpinsAtEnd | src/io/client_base.cpp:250-320 | with no bytes left, a call loops for ever exactly if the message is unfinished and the next read succeeds |
| Schedules.ClosedInFront | src/io/socket.cpp:139-141 | a peer that closes in front of a message, and the next read: the call loops for ever |
| Schedules.OverrunIffAboveSlack | src/io/client_base.cpp:284-289 | a call that takes a byte of the trailing buffer without stopping inside it writes out of bounds if and only if the announced size is accepted and above the slack |
| Schedules.OverrunHappens | src/io/client_base.cpp:74-75 | every accepted size above the slack does overrun, read as fixed fields and then the whole buffer |
| Schedules.PingOverruns | src/io/client_base.cpp:284-289 | a ping with 27 bytes does |
| Ciphers.CryptSplit | src/io/client_base.cpp:287-289 | processing chunk after chunk is processing the whole |
| Ciphers.ZerosShowKeystream | src/io/client_base.cpp:287-289 | n zero bytes come out as the n bytes of the keystream from the context's position on; without a key nothing changes |
| Ciphers.OneByteEach | src/io/client_base.cpp:404-414 | a place of the keystream decides one byte, the one that many bytes behind the position, and no other |
| Ciphers.NoPlaceTwice | src/io/client_base.cpp:404-414 | of two messages, one behind the other, no place of the keystream decides a byte of both |
| Ciphers.CryptInvolution | src/io/client_base.cpp:48-64 | the peer's context at the same position restores the bytes |
| ClientIo.AllocBuf | src/io/client_base.cpp:68-90 | the new buffer has the computed size and begins with the old contents, zeros behind; the copy is in bounds |
| ClientIo.ClientBase.SetCryptKey | src/io/client_base.cpp:48-64 | both contexts start at position 0 of the key's stream; what was handed over before is closed off |
| ClientIo.ClientBase.Read | src/io/client_base.h:150-153 | only the descriptor changes; with nothing pending, the read starts at the first field of an empty buffer |
| ClientIo.ClientBase.ReadInto | src/io/client_base.h:161-168 | field and buffer change only if given; with nothing pending, a carried-over buffer is read on at the given field, with its contents kept |
| ClientIo.ClientBase.MeasureFields | src/io/client_base.cpp:211-218 | the first loop yields the memory offset of the current field |
| ClientIo.ClientBase.PlanRead | src/io/client_base.cpp:220-242 | the second loop refuses exactly an oversized current field, allocates the whole declared size, and asks for the fixed run |
| ClientIo.ClientBase.AbsorbField | src/io/client_base.cpp:275-317 | one turn of the field loop, decrypting into the array, is one turn of `Absorb` |
| ClientIo.ClientBase.AbsorbRead | src/io/client_base.cpp:268-318 | the field loop over one read is `Absorb` on the decrypted bytes; the decrypt position advances by the read |
| ClientIo.ClientBase.ResumeRead | src/io/client_base.cpp:207-321 | outcome, reader, socket and cipher after a call are those of `Run` |
| ClientIo.ClientBase.HandleRead | src/io/client_base.cpp:323-353 | a complete message is released and the reader reset; otherwise the reader waits as `Run` says |
| ClientIo.ClientBase.ResumeWrite | src/io/client_base.cpp:357-375 | what was sent plus what is left of the message does not change; done exactly if all is gone |
| ClientIo.ClientBase.MeasureMessage | src/io/client_base.cpp:384-389 | the sizing pass, stepping by wire size, gives the length of the wire form |
| ClientIo.ClientBase.EncodeMessage | src/io/client_base.cpp:400-415 | the encoding pass fills the buffer exactly with the encrypted wire form and advances the cipher by it |
| ClientIo.ClientBase.SendOrQueue | src/io/client_base.cpp:421-429 | sent plus queued grows by the message, whatever the socket takes; what is queued where nothing was has been offered to the socket |
| ClientIo.ClientBase.EnqueueWrite | src/io/client_base.cpp:377-430 | write conservation: what is added to sent and queued is, byte by byte, the wire form masked with the next bytes of the keystream, and the cipher stands behind them; queued bytes mean a stalled write |
| ClientIo.ClientBase.OnePlaceOneByte | src/io/client_base.cpp:377-430 | over any number of messages under one key, in any state: a place of the keystream decides one byte of the output, and no other |
| ClientIo.ClientBase.HandleWrite | src/io/client_base.cpp:432-443 | sent plus queued stays; the front message goes only when all of it is sent |
| UruCrypt.PowMod | src/io/uru_crypt.cpp:90-93 | reducing the base first does not change the residue of a power |
| UruCrypt.ModExpSteps | src/io/uru_crypt.cpp:90-93 | x to the power 0 is 1, and each further factor multiplies and reduces |
| UruCrypt.ModExpCommutes | src/io/uru_crypt.cpp:90-93 | (g^b mod n)^k mod n = (g^k mod n)^b mod n for all g, b, k, n |
| UruCrypt.KeyAgreement | src/io/uru_crypt.cpp:142-163 | with the client's value sent as 64 bytes, server and client derive the same key; the 64-byte form loses nothing |
| UruCrypt.Unmasked | src/io/uru_crypt.cpp:160-161 | unmasked with the seed, the key is the front of the shared value, the lowest byte first |
| UruCrypt.MakeServerKey | src/io/uru_crypt.cpp:142-163 | fails exactly when the client's seed is shorter than the key; else fills the seed with the given random bytes, and the key so that unmasked with that seed it is the client's value to the power k, modulo n, reduced to the key's length |
| Conversation.ConverseSplit | src/daemon/client_common.cpp:96-114 | answering a, then b behind what a left unfinished, is answering a+b: messages tile the stream, also across the key change |
| Conversation.OneKeystream | src/daemon/gatekeeper.cpp:124-194 | while requests are served the ciphers are never set up again: output is the replies under one keystream without gap, input likewise |
| Dialogue.OneRequest | src/daemon/gatekeeper.cpp:92-120 | an encoded request in front of anything is the next message, and its reply is the ping itself or the reply with the address of the server asked for |
| Conversation.AddressReplyAnnounces | src/daemon/gatekeeper.cpp:100-120 | read as a client reads it, an address reply has type 1, the transaction id of the request, the number of characters and each character of the address |
| Dialogue.RepliesAreRead | src/daemon/gatekeeper.cpp:92-120 | a client that takes the replies apart finds, for each request in order, its ping with time, id and payload, or the address of the server asked for under its id |
| Dialogue.ConnectionDecides | src/daemon/client_common.cpp:30-43 | a complete connection header of type 0x16 goes on with what is behind it; any other type is closed without output |
| Dialogue.EncryptionDecides | src/daemon/client_common.cpp:136-168 | an encryption header goes on exactly if it is 0 and 66; any other is closed without output |
| Dialogue.OthersRefused | src/daemon/client_common.cpp:30-43 | over the whole input: a connection of another kind, or another handshake, ends closed and nothing is sent |
| Dialogue.UnknownRequestRefused | src/daemon/gatekeeper.cpp:166-169 | a message of an unknown type ends the conversation; the requests in front of it are answered and nothing else |
| Dialogue.RequestsAnswered | src/daemon/gatekeeper.cpp:132-194 | any list of requests is answered one by one, in order, and used up entirely |
| Dialogue.ClientGetsItsReplies | src/daemon/client_common.cpp:136-194 | a client that opens with its public value and encrypts requests under its own derived key gets the clear 9-byte reply and then exactly its replies, which it can decrypt |
| GatekeeperMessages.SetAddress | src/protocol/protocol_structs_begin.inl:71-82 | any address string: at most 24 characters, the 24th replaced by the terminator, the size counting them, all inside the struct; a shorter string has the terminator behind it and nothing else changes |
| GatekeeperMessages.BuildAddressReply | src/daemon/gatekeeper.cpp:100-120 | the wire form, read as a client reads it, is type 1, this transaction id, the count and the characters of the address, whatever the memory held before |
| Gatekeeper.Client.IncomingRead | src/daemon/client_common.cpp:30-43 | accepts if and only if the first byte is 0x16, and then reads the encryption header |
| Gatekeeper.Client.HandleHandshake | src/daemon/client_common.cpp:136-168 | accepts if and only if the bytes are 0 and 66, and then reads a 64-byte seed |
| Gatekeeper.Client.SendSeed | src/daemon/client_common.cpp:189-191 | the reply goes out in the clear before both ciphers are keyed at position 0 |
| Gatekeeper.Client.HandleYData | src/daemon/client_common.cpp:170-194 | 1, 9 and the seed go out in the clear, then both ciphers are keyed with the shared value masked by that seed, then a message header is read |
| Gatekeeper.Client.ReadMsg | src/daemon/gatekeeper.cpp:150-175 | accepts exactly the known types, and resumes at field 1 of that request in the same buffer |
| Gatekeeper.Client.DispatchMsg | src/daemon/gatekeeper.cpp:132-148 | replies by type; the default branch is unreachable because the type was checked before the body was read |
| Gatekeeper.Client.GateRead | src/daemon/gatekeeper.cpp:177-194 | the flags lead to the handler of the stage, which reacts as the reference does |
| Gatekeeper.Client.TakeMessage | src/io/client_base.cpp:323-353 | a delivered message is of the descriptor the flags call for and is encodable, in every state, torn or not |
| Gatekeeper.Client.Deliver | src/daemon/client_common.cpp:99-112 | an accepting handler has always registered the next read, a refusal shuts the socket down |
| Gatekeeper.Client.TakeAndDeliver | src/daemon/client_common.cpp:98-112 | one call of the reader and the reaction to it: keeps `Valid` on every schedule, `InSync` while no read stops inside a field, the key and the log of what was issued always |
| Gatekeeper.Client.PumpOnce | src/daemon/client_common.cpp:98-112 | on a gentle schedule a turn of the pump waits, or ends with a message that is accepted |
| Gatekeeper.Client.PumpRead | src/daemon/client_common.cpp:96-114 | terminates; returns only after the socket's last step said would-block or failed, or a message was refused, or the read loop would not end (edge-triggered draining) |
| Gatekeeper.Client.PumpWrite | src/daemon/client_common.cpp:116-122 | returns with an empty queue, or when the socket's last step did not take all it was offered; nothing sent is lost or repeated |
| Gatekeeper.Client.HandleDispatch | src/daemon/client_common.cpp:76-94 | hang-ups first; a read event drains the socket, a write event the queue; a read is only ever resumed with a descriptor pending |
| Gatekeeper.ServeEvent | src/daemon/client_common.cpp:76-94 | one dispatcher event: on a stream that arrives a read event uses up a pause or nothing is left to read; with the output complete a write event uses up a short step of the socket or all is sent |
| Gatekeeper.Serve | src/daemon/client_common.cpp:53-122 | end to end: over any run, sent plus queued bytes are the reference output for the bytes taken; a stream that arrives between fields is heard to its end, and with enough write events behind it all of its output is sent unless the socket takes nothing any more; in any state the output is clear reply and replies under one keystream |
| Progress.GentleCall | src/io/client_base.cpp:207-353 | on a schedule whose reads end between fields no call stops inside a field, is refused, overruns or loops, and the rest of the schedule is of that kind too |
| Progress.FullReadsGentle | src/io/client_base.cpp:220-249 | reads that return all that was asked for end between fields, over any whole conversation |
| Progress.PauseUsed | src/daemon/client_common.cpp:96-114 | a call that drained the socket has used up one of its pauses, or all of its schedule |
| Service.ServeCaller | src/daemon/client_common.cpp:53-194 | a client that keeps to the protocol, and whose bytes arrive between fields with any pauses, gets the clear reply and one reply per request, in order, readable with its key, and taken apart finds its requests answered one by one; with enough write events, and a socket that takes a byte often enough, the queue is empty and all of it sent |
| Service.FullReadsServe | src/daemon/client_common.cpp:96-122 | every such client is so served by one read event and one write event, if reads return all that was asked for and writes take all |
| Synchrony.CallHeard | src/io/client_base.cpp:207-353 | one aligned call on a connection in step with the reference, in terms of the message at hand |
| Synchrony.CallDelivers | src/daemon/client_common.cpp:96-114 | a delivered message and the reference's reaction keep the connection in step, across the key change |
| Synchrony.CallTypes | src/daemon/gatekeeper.cpp:177-187 | taking up a type changes nothing for the reference; an unknown type closes it |
| Synchrony.CallOverruns | src/io/client_base.cpp:284-289 | an aligned call writes out of bounds only where the reference breaks off |
| Registry.Server.AddFd | src/io/epoll.cpp:111-133 | adds exactly one entry, or leaves the map as it was |
| Registry.Server.AcceptOne | src/io/socket.cpp:105-120 | a connection that waits becomes a client exactly if the kernel hands it over; any failure is one answer, whether nothing waits, the kernel cannot, or the peer has given up |
| Registry.Server.AddClient | src/daemon/client_common.cpp:53-66 | the new client's descriptor meets no entry; it polls exactly if the kernel registers it |
| Registry.Server.AcceptCb | src/daemon/server.cpp:145-160 | accepts until an accept fails: nothing waits then, or the kernel failed and connections may be left waiting; each is a client, waits, or was given up by its peer, and no entry is lost |
| Registry.Server.HangUp | src/daemon/client_common.cpp:76-88 | removes one client, its descriptor and its entry, and nothing else |
| Registry.Server.HandleEvent | src/io/epoll.cpp:160-184 | one event: a listener called accepts until an accept fails, a client that hung up goes with its entry, everything else stays |
| Registry.Server.Dispatch | src/io/epoll.cpp:148-187 | the map is exactly listener plus polling clients after every batch; every pointer is live when used, also when a closed descriptor is reused in the batch; entries and clients that did not hang up stay, and if the listener was called nothing waits unless its last accept failed |
| ConfigText.SplitText | src/core/config_parser.cpp:181 | the lines of any text are those that end with a newline, and a last one that lacks it |
| ConfigText.IgnoredLine | src/core/config_parser.cpp:182-186 | blank lines and lines that begin with a semicolon, a hash or two slashes, behind any white space, are passed over |
| ConfigText.AssignedLine | src/core/config_parser.cpp:196-199 | key, equals sign and value, with any white space in front, around and behind, assign the value to the key |
| ConfigText.AssignedEmpty | src/core/config_parser.cpp:200-202 | without a value they assign the empty one |
| ConfigText.AssignedSpace | src/core/config_parser.cpp:176 | a value of white space that trimming leaves is its last character |
| ConfigText.AssignedLater | src/core/config_parser.cpp:196-199 | other words in front of the key are passed over |
| ConfigText.FirstBrackets | src/core/config_parser.cpp:175-190 | the section named is the part in the first brackets, wherever they are |
| ConfigText.NoBrackets | src/core/config_parser.cpp:175-190 | without brackets none is named |
| ConfigText.HeaderAnywhere | src/core/config_parser.cpp:189-195 | a line with brackets is a header whatever else is on it, unless it is a comment |
| ConfigText.OddLine | src/core/config_parser.cpp:203-205 | a line with neither brackets nor an equals sign does nothing |
| ConfigText.CStringCut | src/core/config_parser.cpp:189-200 | nothing behind a terminator is seen |
| ConfigText.HeaderLine | src/core/config_parser.cpp:175-195 | a printed section header is recognised as that section |
| ConfigText.AssignLine | src/core/config_parser.cpp:176-203 | a printed assignment gives back key and value, also when the value is empty or holds equals signs |
| ConfigParsing.DefaultsPresent | src/core/config_parser.h:85-92 | each definition not overridden by a later one is found under its names, with its default |
| ConfigParsing.OnlyDefined | src/core/config_parser.h:85-92 | an entry exists exactly if some definition has its names |
| ConfigParsing.FirstSpelled | src/core/config_parser.h:88-91 | section and key keep the spelling they had first |
| ConfigParsing.FoldedAlike | src/core/config_parser.h:70-73 | names are the same exactly if they differ in nothing but the case of letters |
| ConfigParsing.ReadMeans | src/core/config_parser.cpp:179-206 | after any lines every entry has the value of the last line that assigns to it under a header of its section, and its old value if there is none |
| ConfigParsing.NothingOutside | src/core/config_parser.cpp:148-152 | in front of any header nothing changes |
| ConfigParsing.UnknownSection | src/core/config_parser.cpp:191-195 | behind the header of an unknown section nothing changes up to the next header |
| ConfigParsing.PrintedEntry | src/core/config_parser.cpp:225-230 | an entry is printed as a comment for each line of its description, then its value; a blank line comes first if it has a description and is not the first |
| ConfigParsing.PrintedSection | src/core/config_parser.cpp:222-232 | a section is printed as its header, its entries in order, and a blank line |
| ConfigParsing.PrintedConfig | src/core/config_parser.cpp:220-234 | the sections are printed one after the other, and nothing else |
| ConfigParsing.DefinedIsPrintable | src/core/config_parser.h:85-92 | a configuration built from proper definitions can be printed and read back |
| ConfigParsing.RoundTrip | src/core/config_parser.cpp:167-234 | reading what was printed, in any map order, restores every value; comments and blank lines count for nothing |
| ConfigParsing.ConfigParser.constructor | src/core/config_parser.h:85-92 | the loop builds the table of the definitions |
| ConfigParsing.ConfigParser.Set | src/core/config_parser.cpp:146-164 | unknown names change nothing; a known entry has the value afterwards, or 0 for an empty one that is not a string; every other entry keeps its value, and all keep name and definition |
| ConfigParsing.ConfigParser.Read | src/core/config_parser.cpp:167-208 | for any text: every entry ends with the value of the last line that assigns to it under a header of its section, and all else stays |
| ConfigParsing.ConfigParser.Write | src/core/config_parser.cpp:220-234 | the printed text is the lines of the sections in the given order |

## Left out

- Serve: once a read stopped inside a field it does not say which requests were served, as the code is wrong there (see above); that the output is the replies to those served, under one keystream, it says even then.
- EnqueueWrite: requires that only the last field is variable, which holds for every declared message (for others the sizing and the encoding pass can disagree), and that the announced elements are there and at most 1024; both callers provide this.
- SocketRead: goes on to deliver after the server shut its own socket down (a handler's write failed, and the read pump goes on); there, reads return what the kernel still holds and then no bytes. That is the run on the stream cut at that point, so the statements that hold for every stream cover it; by SpinsIffCutShort the read loop then does not end if the cut leaves a message undecided.
- MeasureMessage: requires the same as EnqueueWrite.
- EncodeMessage: requires that the announced elements are there, as EnqueueWrite does.
- RunEnds: is the bound on reads; when exactly a call does not end is stated by SpinsIffCutShort.
- MakeServerKey: primes, random bytes and the base64 form of keys are parameters or left out; nothing is claimed about the stored public value x, which can be shorter than 64 bytes.
- StopInsideAField: is one instance; the exact condition for all inputs is ExactIffAligned.
- Dispatch: the kernel's promises are preconditions (registered callbacks, each once per batch, no hang-up of the listener); failing to remove a hung-up descriptor from the kernel is only logged and not modelled.
- AssignLine: the three line patterns are specified directly instead of through a regular-expression engine; letters are ASCII, and trimming removes space, tab, carriage return and newline.
- Allocation failure, which the code turns into a shutdown.
- Undefined behaviour after a write outside a buffer: the model stops with the outcome `Fault`.
- System calls, socket addresses, RC4 and big-number internals, which are parameters.
- Builds with decrypted connections, big-endian builds and protocol debugging output.
- Logging, build information, command line, client configuration output, UUID and event-mask translation, number conversion in the configuration getters and setters.
- Inheritance: a client holds its `ClientBase` instead of deriving from it, and the handler object is a field of the client.
- Teardown of the server other than the hang-up of a client.
