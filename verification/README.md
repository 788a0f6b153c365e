# A verified model of tcpover's transports

This project models the parts of the repository's `transport` tree that hold
state, loops or arithmetic, and proves what they promise. `dafny verify
dfyconfig.toml` checks all of it.

**Skip list and idle-session pool.** `SkipListChain` and `SkipList` are the
linked list of `transport/anytls/skiplist`: node objects with a `next` array per
tower, the predecessor cache, the level search loops. A ghost sequence of nodes
gives every link its meaning; a sorted list of entries (`SortedEntries`) is the
abstract value, and that refines a map. `Pool` is the anytls client: sessions
and streams as objects, the pool in a skip list, every public call, received
frame or session death as one atomic step. Its invariant splits the open
sessions into those in the pool and those owned by exactly one live stream; a
client whose context was cancelled is dead with its sessions still open.
`CleanupSpec` says what one idle sweep keeps.

**anytls session.** `Frames` and `Padding` are the frame format and the padding
scheme's record sizes, `SessionWriter` is `writeConn` with its buffering and
padding on a connection whose writes may fail half-way, `Demux` is `recvLoop`;
`DemuxFlags` tells from the events alone which streams open and what ends it.
The wire is a byte sequence; ghost lists of frames say what is on it. What other
goroutines do to the session comes into the loop as events: streams opened and
closed, the session closed, replies that fail. `Pipe` and `Deadline` are state
machines over every interleaving of the synchronous pipe and of its deadline
timers; `PipeCalls` says what single calls get, and `StreamReads` joins pipe and
loop.

**IP addresses.** `IpBits`, `IpAddr` and `IpPrefix` are 128-bit words, addresses
and prefixes against integer arithmetic; `Bits` defines the bit operations on
natural numbers. `IpFormat` and `IpParse` are the printing and parsing loops,
each proved against a recursive description. `IpDotted` and `IpGrammar` give the
grammar of address texts with their values, without reference to how they are
scanned, and `IpExactly` proves that these texts are accepted and no others;
`IpRoundTrip` and `IpPrefixText` prove that parsing undoes printing. `Intern` is
weak interning under a collector that may act late on what it concluded.

**ShadowsocksR.** `SsrFrames` and `SsrStream` are the padded, checksummed frames
of `auth_aes128` and `auth_sha1_v4` and the connection that drives them. Both
protocols are one codec here, with byte order, checksums and padding rule as
parameters. `XorShift`, `ChainPadding`, `ChainFrames` and `ChainStream` are the
hash-chained frames of `auth_chain_a` and `auth_chain_b`: what holds for any
padding rule, the two rules, and the codec. `SsrChecks` and `ChainChecks` say
what the decoders let through on any input. `TlsTicket` is the ticket
obfuscation. HMAC, CRC, Adler and the key stream are arbitrary functions; random
draws and the clock are parameters.

**AEAD stream and LRU cache.** `Aead` is the chunked stream with its counter
nonce over an abstract pair of seal and open. `LruCache` is the cache over
shared entry objects, `LruSpec` what its operations do to the entries,
`LruExpiry` when an entry expires, and `LruSurvival` how long it stays over a
run.

`Streams` holds the two ends of a connection, where a write may fall short and a
read may return any part of what is there, and `bytes.Buffer`. `Bytes`, `Ints`,
`Powers`, `Options`, `Seqs` and `SsrBase` are shared vocabulary. Where a Go slice
expression or index would panic, the model has an outcome for it.

Some statements hold only under a condition, and the model gives that condition
exactly:

- A new entry of the skip list gets a level above the maximum, and `Insert`
  fails, exactly for a draw that is a multiple of 2^40 - 1 on a list of 2^38
  entries or more; a session given back to the pool then makes the client panic.
- A frame is read back exactly when its data is below 65536 bytes and its
  command may carry data; a padding frame keeps the stream aligned exactly when
  its length overflows 16 bits a multiple of seven times.
- A ticket record is read back exactly when it is not empty and below 65536
  bytes. `Write` keeps to that after the handshake, and before it for arguments
  of that size.
- Seeding the generator from a key panics exactly when the key is shorter than
  16 bytes: the padded copy is stored in a variable that shadows the one read.
- The slope -0.3 fails the source's own test for a positive slope, so the
  padding of `auth_aes128` is drawn uniformly; the length bounds do not depend
  on it.
- When the connection of an AEAD writer fails, the count returned is the length
  of all chunks sealed, and so includes the one that was cut.
- An unexpired entry of the LRU cache is still there after a run exactly when it
  was not deleted and at no time maxSize other keys had been used since its own
  last use and not given up again, by deletion or by a Get that found nothing.
  Without deletions and expiry that is a matter of counting the other keys used;
  with deletions it is not.
- A frame of `auth_chain` numbered 1 loses its first two bytes, and panics with
  fewer. One with neither data nor padding is taken only once a fifth byte has
  come.

## Model

| member | source | states |
|---|---|---|
| `SkipLists.SkipList.constructor` | transport/anytls/skiplist/skiplist.go:30-36 | an empty list of level 1, with all cells its own |
| `SkipLists.SkipList.DoFindNode` | transport/anytls/skiplist/skiplist.go:256-278 | the node with the key, or the first node not below it, whatever the towers look like |
| `SkipLists.SkipList.FindNode` | transport/anytls/skiplist/skiplist.go:252-254 | the node with the key, or null when no node has it |
| `SkipLists.SkipList.LowerBoundNode` | transport/anytls/skiplist/skiplist.go:280-282 | the first node whose key is not below the given one |
| `SkipLists.SkipList.UpperBoundNode` | transport/anytls/skiplist/skiplist.go:284-292 | the first node whose key is above the given one |
| `SkipLists.SkipList.FindInsertPoint` | transport/anytls/skiplist/skiplist.go:294-315 | the node with the key, or null with prevsCache holding the predecessor on every level |
| `SkipLists.SkipList.FindRemovePoint` | transport/anytls/skiplist/skiplist.go:317-324 | the node with the key or null, and prevsCache holding the predecessor on every level |
| `SkipLists.SkipList.FindPrevNodes` | transport/anytls/skiplist/skiplist.go:326-340 | on every level, the last node whose key is below the given one |
| `SkipLists.SkipList.RandomLevel` | transport/anytls/skiplist/skiplist.go:232-243 | a level in 1..40, except exactly for a zero draw on a list of 2^38 entries or more, where it is 41; and the geometric law with its clamp at the length |
| `SkipLists.SkipList.LinkNode` | transport/anytls/skiplist/skiplist.go:92-108 | splicing a new tower at the cached predecessors keeps every level the chain of exactly the nodes that reach it |
| `SkipLists.SkipList.Insert` | transport/anytls/skiplist/skiplist.go:81-111 | the contents become those of a sorted map after an update; it fails exactly when a new key meets a level of 41; a new entry gets a tower of the level drawn, and no other tower changes |
| `SkipLists.SkipList.UnlinkNode` | transport/anytls/skiplist/skiplist.go:153-155 | bypassing a node on each level of its tower leaves the chains of the other nodes |
| `SkipLists.SkipList.LowerLevel` | transport/anytls/skiplist/skiplist.go:156-158 | level goes down until some node reaches it again, so it bounds all heights and is minimal |
| `SkipLists.SkipList.Remove` | transport/anytls/skiplist/skiplist.go:148-161 | true exactly when the key was there; the contents lose that key and nothing else, and no value changes |
| `SkipLists.SkipList.Clear` | transport/anytls/skiplist/skiplist.go:66-73 | an empty, valid list |
| `SkipLists.SkipList.IsEmpty` | transport/anytls/skiplist/skiplist.go:56-58 | true exactly when there is no entry |
| `SkipLists.SkipList.Find` | transport/anytls/skiplist/skiplist.go:114-120 | the value the abstract map holds for the key |
| `SkipLists.SkipList.Has` | transport/anytls/skiplist/skiplist.go:123-125 | membership in the abstract map |
| `SkipLists.SkipList.LowerBound` | transport/anytls/skiplist/skiplist.go:130-132 | an iterator at the first entry not below the key, by its rank in the sorted contents |
| `SkipLists.SkipList.UpperBound` | transport/anytls/skiplist/skiplist.go:137-139 | an iterator at the first entry above the key |
| `SkipLists.SkipList.Iterate` | transport/anytls/skiplist/skiplist.go:75-77 | an iterator at the smallest key |
| `SkipLists.SkipList.LevelChain` | transport/anytls/skiplist/skiplist.go:13-28 | following next[i] from the sentinel visits exactly the nodes taller than i, in increasing key order |
| `SkipLists.SkipList.LevelIsTallest` | transport/anytls/skiplist/skiplist.go:22-28 | level is the height of the tallest node, or 1 |
| `SkipLists.SkipList.EntryAt` | transport/anytls/skiplist/skiplist.go:164-210 | reading the node at a position gives the entry at that position of the sorted contents |
| `SkipLists.Iterator.MoveToNext` | transport/anytls/skiplist/skiplist.go:198-200 | from the entry at one position of the sorted contents to the next, and behind the last one to the end |
| `SkipListChains.SplicedLinks` | transport/anytls/skiplist/skiplist.go:92-108 | after all levels are spliced, the links are those of the list with the node inserted in key order |
| `SkipListChains.BypassedLinks` | transport/anytls/skiplist/skiplist.go:153-155 | after all levels are bypassed, the links are those of the list without the node |
| `SkipListChains.WalkVisitsTaller` | transport/anytls/skiplist/skiplist.go:13-28 | walking one level of well-formed links collects exactly the nodes that have it |
| `SortedEntries.RunRefinesMap` | transport/anytls/skiplist/skiplist.go:66-161 | any run of insert, remove and clear on the sorted entries is the same run on a finite map, and keeps them sorted |
| `SessionPool.Client.GetIdleSession` | transport/anytls/session/client.go:100-109 | takes the newest idle session out of the pool and nothing else; none exactly when the pool is empty |
| `SessionPool.Client.CreateSession` | transport/anytls/session/client.go:111-135 | registers a fresh session under the next number, owned by nobody yet; a failed dial changes nothing |
| `SessionPool.Client.NextNumberFree` | transport/anytls/session/client.go:118 | the next session number is not in use, whatever was opened and closed, until 2^64 - 1 sessions have been made |
| `SessionPool.Client.CreateStream` | transport/anytls/session/client.go:57-98 | a fresh stream that alone owns its session: the newest idle one, or a new one when the pool is empty; fails exactly when the client is closed, the dial or the SYN fails, and after a failed SYN just the session it took is closed and gone |
| `SessionPool.Client.Cancel` | transport/anytls/session/client.go:51 | a cancelled parent context makes the client dead with its sessions still open, and every other step is proved for such a client too |
| `SessionPool.Client.OpenStream` | transport/anytls/session/session.go:132-166 | the session then carries just this live stream; a failed SYN closes the session |
| `SessionPool.Client.SessionDied` | transport/anytls/session/client.go:119-127 | a dying session leaves the pool and the table of sessions, and only it |
| `SessionPool.Client.CloseSession` | transport/anytls/session/session.go:108-129 | the first close kills every stream and runs the hook; later ones change nothing |
| `SessionPool.Client.Die` | transport/anytls/session/stream.go:69-100 | the first death of a live stream hands its session back to the pool, exactly once and idle since now, or closes it when the client is dead |
| `SessionPool.Client.Repool` | transport/anytls/session/client.go:81-95 | a session given back is pooled under MaxUint64 minus its number without disturbing another entry; it panics exactly for a zero draw on a list of 2^38 sessions, with the books unchanged |
| `SessionPool.Client.StreamDied` | transport/anytls/session/client.go:81-95 | given back while the client is open; closed, with its streams, and struck from the table when the client is dead |
| `SessionPool.Client.CloseStream` | transport/anytls/session/stream.go:64-100 | closing keeps the ownership invariant: the session is pooled as idle since now, or closed when its FIN fails or the client is dead; no other pooled session changes its time; a second close changes nothing |
| `SessionPool.Client.FinishClose` | transport/anytls/session/session.go:359-368 | the stream is forgotten; a failed FIN closes the session |
| `SessionPool.Client.ReceiveFin` | transport/anytls/session/session.go:245-252 | the stream dies without a reply, and its session is pooled as idle since now, or closed when the client is dead; no other pooled session changes its time |
| `SessionPool.Client.FailSession` | transport/anytls/session/session.go:108-129 | when a receive loop ends, its session leaves the books and its stream dies |
| `SessionPool.Client.Close` | transport/anytls/session/client.go:137-153 | afterwards no session is open, none is pooled or listed, and every stream in use is dead |
| `SessionPool.Client.IdleCleanup` | transport/anytls/session/client.go:159-184 | the pool keeps, newest first, exactly the survivors; the removed ones are closed; survivors that had expired are refreshed, unexpired ones stay with their time; streams in use are untouched |
| `SessionPool.Client.Sweep` | transport/anytls/session/client.go:163-180 | the iteration visits every pooled session once although it removes entries on the way |
| `SessionPool.Client.CloseThenCleanup` | transport/anytls/session/client.go:79-184 | a session given back at some time is still idle after a cleanup of the sessions idle since before any time up to that one |
| `SessionPool.PoolUnique` | transport/anytls/session/client.go:87-92 | the pooled sessions determine the entries: keys are derived from numbers and never collide |
| `CleanupSpec.EnoughKept` | transport/anytls/session/client.go:159-184 | at least minIdleSession entries survive, unless there were fewer |
| `CleanupSpec.RemovedExpired` | transport/anytls/session/client.go:159-184 | a removed session had expired and stood behind at least minIdleSession survivors |
| `CleanupSpec.UnexpiredKept` | transport/anytls/session/client.go:159-184 | no unexpired session is removed |
| `CleanupSpec.StaysExactly` | transport/anytls/session/client.go:159-184 | a session stays exactly when it has not expired, or fewer than minIdleSession before it stay |
| `CleanupSpec.KeptOrRemoved` | transport/anytls/session/client.go:159-184 | survivors and removed ones together are the entries, none lost or doubled |
| `Frames.EncodeParses` | transport/anytls/session/session.go:370-409 | a frame comes back whole exactly when its data fits 16 bits and its command may carry data |
| `Frames.BodylessMisread` | transport/anytls/session/session.go:168-357 | a frame with data comes back whole for the seven commands that have a body; for SYN, FIN, the two heartbeats and unknown ones the data is read as frames of its own |
| `Bytes.ByteOrder` | transport/anytls/session/session.go:370-398 | the integers of the wire formats are the big-endian and little-endian numbers of their bytes |
| `Frames.ParseEncodeAll` | transport/anytls/session/session.go:168-357 | a wire of sound frames parses into exactly those frames, with any rest behind them |
| `Frames.HeaderFields` | transport/anytls/session/frame.go:34-46 | the header accessors read back what was written |
| `Frames.WasteAligned` | transport/anytls/session/session.go:437-475 | a padding frame keeps the stream aligned exactly when its length overflows 16 bits a multiple of seven times |
| `Padding.GenerateRecordPayloadSizes` | transport/anytls/padding/padding.go:60-92 | the sizes are those of the scheme line, in order; each is the check mark or positive and within its range |
| `Padding.SizesFollowItems` | transport/anytls/padding/padding.go:60-92 | one size for every readable item, in order: a check mark for each c, and for each range a size it may ask for |
| `Padding.RangeReach` | transport/anytls/padding/padding.go:74-84 | over all draws a range comes to every size from its lower end to below its upper one, and to no other |
| `SessionWriter.Writer.WriteConn` | transport/anytls/session/session.go:411-485 | for frames and record sizes of any length: the non-padding frames on the wire followed by the buffered ones are the frames submitted, in order; the records handed to the connection are those the scheme asks for; the count returned includes what was flushed; no length is cut while frames and sizes fit 16 bits |
| `SessionWriter.Writer.SendRecord` | transport/anytls/session/session.go:438-471 | one record of any positive size: payload, payload with a padding frame behind it, or a padding frame, none of the payload lost |
| `SessionWriter.RecordSize` | transport/anytls/session/session.go:438-471 | a record with payload never exceeds its size and falls short only when no padding frame fits; one of padding alone is seven bytes longer |
| `SessionWriter.MarkEnds` | transport/anytls/session/session.go:430-480 | a record for every size up to a check mark and one for payload left over; at the mark the packet ends if its payload is out, and otherwise the mark makes no difference |
| `SessionWriter.Writer.WriteRecords` | transport/anytls/session/session.go:424-475 | the payload goes out once, in order, in the records of the size list, and every padding frame starts on a frame boundary |
| `SessionWriter.Writer.WriteFrame` | transport/anytls/session/session.go:387-409 | a frame is submitted whole; while buffering nothing reaches the connection, afterwards nothing stays behind |
| `SessionWriter.Writer.WriteDataFrame` | transport/anytls/session/session.go:370-385 | one PSH frame with the data is submitted; the count is that of the data alone |
| `SessionWriter.Writer.OpenStream` | transport/anytls/session/session.go:132-166 | one SYN is submitted, still under the buffering there was, and from then on writes go out |
| `SessionWriter.Writer.constructor` | transport/anytls/session/session.go:55-95 | a client session starts padding and buffering; a server session does neither |
| `Demux.RunBytesIsRun` | transport/anytls/session/session.go:168-357 | the receive loop stays on frame boundaries: on bytes it does what it would do on the frames they parse into |
| `Demux.OpenedSilent` | transport/anytls/session/session.go:132-222 | an event opens at most one stream, and only OpenStream or a SYN for an unknown id does, on a server after the settings; it starts in the table and with nothing |
| `Demux.HandleAgrees` | transport/anytls/session/session.go:186-352 | every frame keeps the table and the streams in agreement |
| `Demux.HandleLog` | transport/anytls/session/session.go:186-352 | what one frame does to one stream: payload for its own id only, closed by FIN or an error reply |
| `Demux.StreamHears` | transport/anytls/session/session.go:131-357 | over any run of events, local or received, a stream hears exactly the PSH payloads sent to it until it is closed by either side, and is open exactly until then |
| `Demux.OpenedHears` | transport/anytls/session/session.go:131-357 | every stream opened in a run, by OpenStream or by a SYN, has a log of its own with exactly what came for it from there on |
| `Demux.EveryLogIsBorn` | transport/anytls/session/session.go:131-222 | there are no other streams than those there at the start and those opened so |
| `Demux.PlayHeard` | transport/anytls/session/session.go:108-357 | after any run of events and the shutdown behind it every stream has heard its own, all of it and nothing else |
| `Demux.RunIsPlay` | transport/anytls/session/session.go:168-357 | the loop acts on the frames in order, with what is done locally in between, and leaves before the last one only when the session has ended |
| `DemuxFlags.SettingsExactly` | transport/anytls/session/session.go:262-298 | after any run of events the settings are known exactly when they were at the start, or when a server got a settings frame with text |
| `DemuxFlags.ListedExactly` | transport/anytls/session/session.go:132-257 | after any run of events the table holds exactly the ids that the events say: the last one about an id opened it |
| `DemuxFlags.OpensExactly` | transport/anytls/session/session.go:203-222 | a received SYN opens a stream exactly when this is a client or settings had come before, and the id was not listed by the events before |
| `DemuxFlags.StoppedExactly` | transport/anytls/session/session.go:168-357 | the session has stopped exactly when it had at the start, or when one of the events ended it: a SYN to a server before any settings, an alert with text, or a reply that could not be sent |
| `DemuxFlags.StopEndsLoop` | transport/anytls/session/session.go:168-357 | nothing behind what ended the session is acted on |
| `DemuxFlags.NoneAfterClose` | transport/anytls/session/session.go:168-175 | no frame is acted on in a round that finds the session closed, or in a later one |
| `Demux.ShutClosesAll` | transport/anytls/session/session.go:108-129 | after the shutdown no stream is listed or open |
| `Demux.Receiver.ApplyLocals` | transport/anytls/session/session.go:132-166 | opening and closing streams from outside between two rounds keeps the table and the streams in agreement |
| `Demux.Receiver.Receive` | transport/anytls/session/session.go:186-352 | the switch does what the frame handler says |
| `Demux.Receiver.RecvLoop` | transport/anytls/session/session.go:168-357 | the loop over the connection does what the description of it does, and leaves no stream open |
| `Demux.WasteIsInvisible` | transport/anytls/session/session.go:253-261 | removing the padding frames from any run of events changes nothing |
| `Demux.EndToEnd` | transport/anytls/session/session.go:108-485 | wherever a wire of sound frames is cut and whatever happens around the loop, the frames acted on are the first of those submitted to the writer, in order, and every stream has heard exactly what they bring it from its opening to its end |
| `Demux.AllArrives` | transport/anytls/session/session.go:168-485 | when all of the wire arrives and the session does not end early, the frames acted on and those still buffered are all that were submitted |
| `Demux.ParsesBack` | transport/anytls/session/session.go:168-485 | a wire parses back into the frames on it, with nothing left, exactly when every frame is sound |
| `Demux.ParseCut` | transport/anytls/session/session.go:168-185 | a wire cut anywhere parses into the frames that are whole |
| `Pipe.PipeIsFifo` | transport/anytls/pipe/io_pipe.go:45-108 | in every reachable state the bytes read, in rendezvous order, are the consumed prefixes of the writes, in lock order |
| `Pipe.FinishedWrite` | transport/anytls/pipe/io_pipe.go:75-99 | a finished write reports exactly what was read from it, all of it without an error, and no reader still refers to its slice |
| `Pipe.FinishedRead` | transport/anytls/pipe/io_pipe.go:45-64 | a finished read returns its own rendezvous, or an error and nothing |
| `Pipe.KeepInv` | transport/anytls/pipe/io_pipe.go:45-124 | every step of every interleaving keeps the invariant behind these |
| `Pipe.RunKeepsInv` | transport/anytls/pipe/io_pipe.go:45-124 | so does every run |
| `PipeCalls.ReadIsFull` | transport/anytls/pipe/io_pipe.go:53-57 | a successful read fills its buffer, or takes all that was left of one write |
| `PipeCalls.ReadError` | transport/anytls/pipe/io_pipe.go:45-118 | a read that fails does so past its deadline, or with the error the writer closed with first, EOF if none was given; and with ErrClosedPipe when the read side had been closed |
| `PipeCalls.WriteError` | transport/anytls/pipe/io_pipe.go:75-127 | a write that fails does so past its deadline, or with the error the reader closed with first, ErrClosedPipe if none was given; and with ErrClosedPipe when the write side had been closed |
| `PipeCalls.NeverStuck` | transport/anytls/pipe/io_pipe.go:45-99 | while a read and a write are both unfinished some call can go on, in every reachable state |
| `StreamReads.ReadsArePrefix` | transport/anytls/pipe/io_pipe.go:45-124 | when writes come one after the other, then in every interleaving of reads, closes and read deadlines the bytes read are the front of the bytes written, and all of them when every write has succeeded |
| `StreamReads.ReaderGets` | transport/anytls/session/session.go:108-485 | from the writer of a session to the reader of a stream: what is read from its pipe is the front of what the submitted frames bring that stream |
| `Deadline.KeepInv` | transport/anytls/pipe/deadline.go:25-59 | every interleaving of Set, timer firings and callbacks keeps the invariant |
| `Deadline.CloseOnce` | transport/anytls/pipe/deadline.go:43-58 | no channel is closed twice, and a callback closes only the channel its own Set left |
| `Deadline.OtherwiseUnclosed` | transport/anytls/pipe/deadline.go:25-59 | all other steps close nothing |
| `Deadline.WaitIsExact` | transport/anytls/pipe/deadline.go:61-65 | between Sets, Wait's channel is closed exactly when the deadline in force has fired or was past |
| `Deadline.WaitingProgresses` | transport/anytls/pipe/deadline.go:29-31 | a Set that waits for a callback is never stuck |
| `IpBits.MaskedValue` | transport/common/netip/uint128.go:20-34 | masking with the top n bits is integer division followed by multiplication by 2^(128-n) |
| `IpBits.MaskHalves` | transport/common/netip/uint128.go:20-22 | the two halves of the mask, for every n |
| `IpBits.MaskedDiffer` | transport/common/netip/uint128.go:29-39 | xor, mask and compare with zero decides agreement after integer division |
| `IpBits.OneMoreOneLess` | transport/common/netip/uint128.go:52-61 | the carry and the borrow between the halves are right: plus and minus one, wrapping around |
| `IpAddr.NextIsSuccessor` | transport/common/netip/netip.go:722-736 | Next is the following number of the same family, and runs out exactly at the last one |
| `IpAddr.PrevIsPredecessor` | transport/common/netip/netip.go:740-751 | Prev is the preceding number, and runs out exactly at zero |
| `IpAddr.NextPrev` | transport/common/netip/netip.go:722-751 | stepping forth and back returns to the same address |
| `IpAddr.WordsRebuild` | transport/common/netip/netip.go:98-106 | the sixteen bytes of the eight words rebuild the address |
| `IpAddr.BytesRebuild4` | transport/common/netip/netip.go:88-93 | the four bytes of an IPv4 address rebuild it |
| `IpAddr.BytesSpellNumber` | transport/common/netip/netip.go:88-106 | the bytes of an address, most significant first, are its number, in both families |
| `IpAddr.Mapped` | transport/common/netip/netip.go:471-490 | the mapped test and the IPv4 representation agree, so Unmap gives a valid IPv4 address |
| `IpPrefix.PrefixFromMade` | transport/common/netip/netip.go:1262-1271 | valid exactly for a valid address and a length in range, with the zone dropped |
| `IpPrefix.KeepNumber` | transport/common/netip/netip.go:656-676 | rounds the number down to a multiple of 2^(BitLen-b); fails exactly for a length out of range |
| `IpPrefix.ContainsIff` | transport/common/netip/netip.go:1386-1407 | membership holds exactly when the families match, there is no zone, and the numbers agree after division by 2^(BitLen-bits) |
| `IpPrefix.OverlapsIff` | transport/common/netip/netip.go:1416-1447 | two prefixes overlap exactly when some address is in both |
| `IpPrefix.OverlapNests` | transport/common/netip/netip.go:1416-1447 | of two overlapping prefixes the longer lies within the shorter |
| `IpPrefix.MaskedSameMembers` | transport/common/netip/netip.go:1374-1377 | masking keeps exactly the members and is idempotent |
| `IpPrefix.MaskedIsCanonical` | transport/common/netip/netip.go:1370-1377 | two valid prefixes mask to the same value exactly when they hold the same addresses |
| `IpPrefix.SingleIP` | transport/common/netip/netip.go:1289 | a prefix has full length exactly when it contains one address only |
| `IpFormat.AppendDecimal` | transport/common/netip/netip.go:800-811 | appends the decimal numeral without leading zeros |
| `IpFormat.AppendHex` | transport/common/netip/netip.go:814-828 | appends the lower-case hex numeral without leading zeros |
| `IpFormat.NoLeadingZero` | transport/common/netip/netip.go:800-828 | a numeral starts with 0 only for zero itself |
| `IpFormat.RunIsCanonical` | transport/common/netip/netip.go:889-899 | section 4.2 of RFC 5952: the run compressed is the leftmost longest one, whole, of two words or more, if there is any |
| `IpFormat.FindRun` | transport/common/netip/netip.go:889-899 | the search loop with its 255 sentinel finds that run |
| `IpFormat.AppendWords` | transport/common/netip/netip.go:901-913 | the printing loop writes every other word once, in order, with "::" for the run |
| `IpFormat.AppendTo4` | transport/common/netip/netip.go:842-851 | four decimal octets with dots |
| `IpFormat.AppendTo4In6` | transport/common/netip/netip.go:860-868 | "::ffff:", the dotted form, and the zone |
| `IpFormat.AppendTo6` | transport/common/netip/netip.go:889-920 | the compressed form and the zone |
| `IpFormat.AddrString` | transport/common/netip/netip.go:764-776 | the text of an address of any kind |
| `IpFormat.Uitoa` | transport/common/netip/itoa.go:12-28 | the decimal numeral; twenty bytes are enough |
| `IpParse.ParseIPv4Fields` | transport/common/netip/netip.go:151-189 | accepts and rejects as the grammar of dotted octets says, with the same error, and writes only its four bytes |
| `IpParse.ScanGroup` | transport/common/netip/netip.go:237-262 | at most four hex digits and their value, or the error |
| `IpParse.ReadGroups` | transport/common/netip/netip.go:232-320 | the group loop reads what the recursive description of addresses reads |
| `IpParse.ExpandEllipsis` | transport/common/netip/netip.go:327-340 | in place, what follows the ellipsis moves to the end and zeros fill the gap |
| `IpParse.ParseIPv6` | transport/common/netip/netip.go:202-344 | the whole parser agrees with the recursive description, zone and errors included |
| `IpParse.ParseAddr` | transport/common/netip/netip.go:111-125 | the first of dot, colon and percent decides the form |
| `IpGrammar.ScanShape` | transport/common/netip/netip.go:234-263 | whatever the digit loop accepts is at most four hex digits, in either case, with the number they stand for |
| `IpGrammar.LeadingZero` | transport/common/netip/netip.go:234-263 | leading zeros of a group do not count |
| `IpGrammar.BodyReads` | transport/common/netip/netip.go:202-344 | every text of the grammar is read: groups in any spelling, a dotted ending behind any prefix, an ellipsis for one group or more; with the value it spells |
| `IpDotted.FieldsExactly` | transport/common/netip/netip.go:151-189 | a dotted text is accepted exactly when it is the canonical text of four octets, which are then the result |
| `IpExactly.BodyExactly` | transport/common/netip/netip.go:202-344 | the texts read as IPv6 addresses are those of the grammar and no others, each with the value it spells |
| `IpExactly.ParseExactly` | transport/common/netip/netip.go:111-344 | ParseAddr accepts the canonical dotted texts and the texts of the IPv6 grammar with an optional zone; nothing else; and gives the address the text spells |
| `IpExactly.CaseIsFree` | transport/common/netip/netip.go:234-263 | writing the letters in front of a zone in lower case changes neither the address nor the error |
| `IpExactly.RefusedAsWhole` | transport/common/netip/netip.go:111-127 | a text without a mark, one whose first mark is the percent sign, and a zone without a name are refused, each with its error |
| `IpRoundTrip.ParseUndoesText` | transport/common/netip/netip.go:111-344 | ParseAddr(ip.String()) is ip, for every valid address of either family and any zone |
| `IpRoundTrip.TextIsInjective` | transport/common/netip/netip.go:764-776 | different addresses have different texts |
| `IpRoundTrip.TextIsNormalForm` | transport/common/netip/netip.go:111-344 | whatever text was accepted, printing the result parses to the same address |
| `IpRoundTrip.ParsedIsValid` | transport/common/netip/netip.go:111-344 | only valid addresses come out of the parser |
| `IpPrefixText.Itoa` | transport/common/netip/itoa.go:4-9 | the signed decimal numeral |
| `IpPrefixText.PrefixString` | transport/common/netip/netip.go:1532-1537 | the address, a slash and the length |
| `IpPrefixText.AppendTo` | transport/common/netip/netip.go:1452-1475 | appends the same text as String, and nothing for the zero prefix |
| `IpPrefixText.ParseUndoesText` | transport/common/netip/netip.go:1325-1358 | ParsePrefix(p.String()) is p, for every valid prefix |
| `IpPrefixText.ParsePrefixExactly` | transport/common/netip/netip.go:1325-1360 | accepted is an address without a zone, a slash, and the canonical numeral of a length that fits; nothing else |
| `IpPrefixText.ParsedPrefixIsValid` | transport/common/netip/netip.go:1325-1358 | whatever ParsePrefix accepts is a valid prefix |
| `Intern.KeyForInjective` | transport/common/netip/itern.go:36-58 | string keys are told apart from all others, and a value gives back what its key was made from |
| `Intern.KeepInv` | transport/common/netip/itern.go:95-132 | every interleaving of Get, references, collector and finalizers keeps the invariant |
| `Intern.GetIsSafe` | transport/common/netip/itern.go:95-119 | Get never returns a freed value; its value compares as asked, and the next Get returns the same pointer |
| `Intern.HeldIsInterned` | transport/common/netip/itern.go:95-132 | a held value is alive and is the one in valMap for its key |
| `Intern.PointersCompareLikeValues` | transport/common/netip/itern.go:75-81 | two held pointers are equal exactly when their values are |
| `Intern.HeldIsResurrected` | transport/common/netip/itern.go:121-132 | a held value that the collector has condemned carries the resurrected flag |
| `Intern.HeldStays` | transport/common/netip/itern.go:121-132 | no step frees a held value or interns another for it |
| `Intern.Collectable` | transport/common/netip/itern.go:134-163 | a value nobody holds can always be freed, in at most eight collector steps |
| `SsrFrames.LengthInRange` | transport/ssr/protocol/auth_aes128_sha1.go:201-229 | for every padding choice and chunks up to 8100 bytes the frame length is within 7..8191 |
| `SsrFrames.PadReach` | transport/ssr/protocol/auth_aes128_sha1.go:201-229 | the lengths that padding can have are exactly those below a bound that falls with the length of the data |
| `SsrFrames.DecodeHonest` | transport/ssr/protocol/auth_aes128_sha1.go:94-137 | decoding any initial part of a run of frames gives the data of the whole ones in order and keeps the cut one |
| `SsrFrames.Resume` | transport/ssr/protocol/auth_aes128_sha1.go:94-137 | stopping for lack of bytes and going on later is the same as having had all bytes, on any input |
| `SsrFrames.AesDecodesAll` | transport/ssr/protocol/auth_aes128_sha1.go:94-137 | auth_aes128: all frames of a peer with the same key and numbering come back as their data |
| `SsrFrames.Sha1DecodesAll` | transport/ssr/protocol/auth_sha1_v4.go:41-78 | auth_sha1_v4: all frames come back as their data, whatever the numbers kept at the two ends |
| `SsrFrames.StartOfData` | transport/ssr/protocol/auth_aes128_sha1.go:272-281 | the padding prefix, of one byte or three, leads to the data |
| `SsrChecks.DecodedIsGenuine` | transport/ssr/protocol/auth_aes128_sha1.go:94-137 | on any input: just the data of frames with both checksums right, from the front on, is passed on |
| `SsrChecks.TamperedRun` | transport/ssr/protocol/auth_aes128_sha1.go:100-124 | behind the frames of a peer, a wrong checksum of the length, a length out of range or a wrong checksum of the frame each end decoding with their error; the good frames are passed on and the rest is dropped |
| `SsrStream.Protocol.PackData` | transport/ssr/protocol/auth_aes128_sha1.go:174-199 | one frame under the current number, and the number moves on |
| `SsrStream.Protocol.PackRandData` | transport/ssr/protocol/auth_sha1_v4.go:163-172 | the padding with its one- or three-byte prefix |
| `SsrStream.Protocol.Decode` | transport/ssr/protocol/auth_aes128_sha1.go:94-137 | the loop does to the buffers what the description of decoding says, errors, raw mode and the panic on a bad offset included |
| `SsrStream.Protocol.DecodeOne` | transport/ssr/protocol/auth_sha1_v4.go:41-78 | one frame is taken, or waited for, or refused |
| `SsrStream.Protocol.Encode` | transport/ssr/protocol/auth_aes128_sha1.go:139-155 | after the head, the data goes out in frames of 8100 bytes and a shorter last one, each with the padding drawn for it, consecutively numbered |
| `SsrStream.Protocol.SendHead` | transport/ssr/protocol/auth_sha1_v4.go:80-98 | the first write splits off the head as getDataLength says |
| `SsrBase.HeadIsAddress` | transport/ssr/protocol/protocol.go:53-67 | the head is the address the data starts with: IPv4, IPv6 or a host name with its length, and a port |
| `SsrBase.HeadReach` | transport/ssr/protocol/protocol.go:69-76 | the first packet goes beyond the head, or beyond 30 bytes where there is no address, by any number below 32, and by no other |
| `SsrStream.StreamConn.Read` | transport/ssr/protocol/stream.go:17-35 | on any wire: what is decoded is handed out first, else some bytes are taken and decoded, and an error of the decoder is returned; on a peer's frames, for any fragmentation, what was decoded is the data of the frames taken, in order, and it fails only at the end of the wire, with nothing decoded left |
| `SsrStream.StreamConn.InOrder` | transport/ssr/protocol/stream.go:17-35 | at any time what was delivered is the front of the peer's data |
| `SsrStream.StreamConn.NothingHeldBack` | transport/ssr/protocol/stream.go:17-35 | at the end of the wire exactly the data of the frames that came whole has been delivered |
| `SsrStream.StreamConn.Write` | transport/ssr/protocol/stream.go:37-49 | all data written is in the head and the frames behind it, in order and consecutively numbered; a failed write leaves an initial part of that on the wire; the reading side is not touched |
| `SsrStream.ReaderGetsWritten` | transport/ssr/protocol/stream.go:17-49 | from one end to the other: what a reader has delivered is the front of the data written behind the head, and all of it once all frames have come and been read |
| `SsrStream.StreamConn.Refill` | transport/ssr/protocol/stream.go:22-33 | newly arrived bytes move every frame that is now whole from framed to decoded |
| `XorShift.XorShift128Plus.InitFromBin` | transport/ssr/tools/random.go:24-38 | seeds from 16 bytes; a shorter seed panics |
| `XorShift.XorShift128Plus.InitFromBinAndLength` | transport/ssr/tools/random.go:40-57 | seeds from the length and the bytes 3 to 16, and leaves the length in the first two; with fewer than 16 bytes it panics, after the length was written |
| `XorShift.SeedingTwice` | transport/ssr/tools/random.go:40-57 | seeding again with the same length changes nothing |
| `XorShift.SeedOrder` | transport/ssr/tools/random.go:36-37 | a word of the seed is its eight bytes, least significant first |
| `XorShift.StepInjective` | transport/ssr/tools/random.go:14-22 | one step of the generator loses nothing: states that agree after it agreed before |
| `XorShift.StepBits` | transport/ssr/tools/random.go:14-22 | bit by bit, the new word is the parity of the bits that shifts by 23, 17 and 26 bring together; the number drawn is the sum of the two words as they stand afterwards |
| `XorShift.Lockstep` | transport/ssr/tools/random.go:14-22 | two generators are in lockstep after any number of steps exactly when they started so, and only the zero state ever leads to the zero state |
| `ChainPadding.PaddingBounds` | transport/ssr/protocol/auth_chain_a.go:283-298 | padding is never negative, and data of at most 2800 bytes with its padding stays below 4096 |
| `ChainPadding.TierIsRemainder` | transport/ssr/protocol/auth_chain_a.go:283-298 | the remainder of the number drawn by 1021, 521, 127 or 31, by the length of the data |
| `ChainPadding.ListedSize` | transport/ssr/protocol/auth_chain_b.go:73-97 | data, overhead and padding add up to the drawn size in the first list, else in the second, else the padding is zero or as in auth_chain_a |
| `ChainPadding.StartIsRemainder` | transport/ssr/protocol/auth_chain_a.go:276-281 | the data starts at a remainder of the number drawn, within the padding |
| `ChainPadding.GetRandLength` | transport/ssr/protocol/auth_chain_b.go:68-97 | the padding length is a function of the data length and of the digest's last 14 bytes, which stay as they are |
| `ChainPadding.DrawFromLists` | transport/ssr/protocol/auth_chain_b.go:73-97 | the two looks into the sorted lists and the fallbacks |
| `ChainPadding.Search` | transport/ssr/protocol/auth_chain_b.go:73 | binary search finds the first size that is large enough |
| `ChainPadding.InitDataSize` | transport/ssr/protocol/auth_chain_b.go:50-66 | the two sorted lists are a function of the key and nothing else, so two ends with one key have the same; a key shorter than 16 bytes panics |
| `ChainPadding.RuleIsWellFormed` | transport/ssr/protocol/auth_chain_b.go:50-66 | 4 to 11 and 8 to 23 sizes below 1440, sorted |
| `ChainPadding.SortIsTheOnlyOne` | transport/ssr/protocol/auth_chain_b.go:58 | whatever way the drawn sizes are sorted, the list is the same |
| `ChainStream.LayoutFits` | transport/ssr/protocol/auth_chain_a.go:145-160 | so every frame Encode makes is within the bound the decoder checks |
| `ChainFrames.Resume` | transport/ssr/protocol/auth_chain_a.go:95-143 | stopping for lack of bytes and going on later is the same as having had all bytes: fragmentation has no effect, on any input |
| `ChainFrames.LookAtWhole` | transport/ssr/protocol/auth_chain_a.go:100-140 | a whole frame packed in lockstep gives back its data and the next state; one without data and padding waits for a fifth byte, and one numbered 1 with less than two bytes of data panics |
| `ChainFrames.LookAtCut` | transport/ssr/protocol/auth_chain_a.go:111-117 | an incomplete frame is waited for |
| `ChainChecks.TakenExactly` | transport/ssr/protocol/auth_chain_a.go:100-140 | on any input: a frame is taken exactly when a peer in lockstep could have packed it from some piece, and a byte follows a bare one |
| `ChainChecks.TakenIsPacked` | transport/ssr/protocol/auth_chain_a.go:100-140 | what is taken is that frame, its data and the state behind it |
| `ChainChecks.DecodedIsGenuine` | transport/ssr/protocol/auth_chain_a.go:95-143 | on any input: just the data of frames that a peer in lockstep could have packed, from the front on, is passed on |
| `ChainChecks.TamperedRun` | transport/ssr/protocol/auth_chain_a.go:119-125 | behind the frames of a peer, a frame with either digest byte changed ends decoding with the checksum error; the good frames are passed on and the rest is dropped |
| `ChainChecks.TooLongStops` | transport/ssr/protocol/auth_chain_a.go:110-114 | a length field that announces 4096 bytes or more is refused |
| `ChainFrames.DecodeHonest` | transport/ssr/protocol/auth_chain_a.go:95-143 | decoding any initial part of the frames of a peer in lockstep gives the whole ones and stays in lockstep |
| `ChainFrames.DecodeAll` | transport/ssr/protocol/auth_chain_a.go:95-143 | once all frames have come all data is out, and digest, number and key stream position agree again, exactly unless the last frame has neither data nor padding |
| `ChainFrames.PassedIsData` | transport/ssr/protocol/auth_chain_a.go:133-137 | frames numbered 2 and up pass on their data unchanged |
| `ChainFrames.PassedButTwo` | transport/ssr/protocol/auth_chain_a.go:133-137 | of a run numbered from 1 all data but the first two bytes is passed on |
| `ChainFrames.CryptTwice` | transport/ssr/protocol/auth_chain_a.go:131-132 | applying the key stream twice gives the data back |
| `ChainStream.AuthChain.PackData` | transport/ssr/protocol/auth_chain_a.go:242-258 | a frame in lockstep: masked length, mixed padding, digest, and the state for the next one |
| `ChainStream.AuthChain.PutMixed` | transport/ssr/protocol/auth_chain_a.go:260-274 | padding around the data at the drawn place |
| `ChainStream.AuthChain.Encode` | transport/ssr/protocol/auth_chain_a.go:145-160 | all the data, in order, in chained frames: the head's part first, then 2800 bytes each and what is left |
| `ChainStream.AuthChain.Decode` | transport/ssr/protocol/auth_chain_a.go:95-143 | the loop does what the description of decoding says |
| `ChainStream.AuthChain.DecodeOne` | transport/ssr/protocol/auth_chain_a.go:100-140 | a try on an incomplete frame changes nothing but the first two bytes of the digest and the generator |
| `ChainStream.ChainConn.Read` | transport/ssr/protocol/stream.go:17-35 | on any wire: what is decoded is handed out first, else some bytes are taken and decoded, and an error of the decoder is returned; on the frames of a peer in lockstep, for any fragmentation, what was decoded is the data of the frames taken, and it fails only at the end of the wire, with nothing decoded left |
| `ChainStream.ChainConn.InOrder` | transport/ssr/protocol/stream.go:17-35 | at any time what was delivered is the front of what the peer's frames pass on |
| `ChainStream.ChainConn.NothingHeldBack` | transport/ssr/protocol/stream.go:17-35 | at the end of the wire exactly the data of the frames that came whole has been delivered, but for a frame without data and padding at its very end |
| `ChainStream.ChainConn.Write` | transport/ssr/protocol/stream.go:37-49 | all data written is in the frames behind the head, in order and in lockstep; a failed write leaves an initial part of that on the wire; the reading side is not touched |
| `ChainStream.ReaderGetsWritten` | transport/ssr/protocol/stream.go:17-49 | from one end to the other: what a reader in lockstep has delivered is the front of the data written, but for two bytes, and all of that once all frames have come and been read |
| `Aead.Increment` | transport/shadowsocks/shadowaead/stream.go:200-207 | the little-endian counter goes up by one in place, wrapping around |
| `Aead.NonceValue` | transport/shadowsocks/shadowaead/stream.go:200-207 | the nonce after k steps has the value k mod 256^n |
| `Aead.NonceRepeats` | transport/shadowsocks/shadowaead/stream.go:200-207 | two nonces are equal exactly when their counts agree modulo 256^n |
| `Aead.Writer.SealChunk` | transport/shadowsocks/shadowaead/stream.go:50-58 | length and payload are sealed under consecutive nonces; a zero chunk uses one |
| `Aead.Writer.Write` | transport/shadowsocks/shadowaead/stream.go:31-62 | the wire holds the chunks, cut at 16383 bytes and sealed under the nonces 0, 1, 2 and so on; an empty write is a zero chunk; on failure only the last record is cut, and the count is that of all chunks sealed, the cut one included |
| `Bytes.CutFlattens` | transport/shadowsocks/shadowaead/stream.go:49-60 | cutting loses nothing and makes no empty chunk and none above the size |
| `Aead.HonestRecord` | transport/shadowsocks/shadowaead/stream.go:106-137 | the k-th open undoes the k-th seal |
| `Aead.HonestNext` | transport/shadowsocks/shadowaead/stream.go:106-137 | on an honest wire the next record is the next chunk; else the wire ended within it, or the chunk is a zero chunk |
| `Aead.OnlySealed` | transport/shadowsocks/shadowaead/stream.go:106-137 | with an authentic cipher, on any wire: a payload that is accepted stands there sealed under its nonce, behind its length sealed under the one before |
| `Aead.ChangedIsRefused` | transport/shadowsocks/shadowaead/stream.go:106-137 | with an authentic cipher, a length or a payload not sealed under its nonce gives an authentication error |
| `Aead.Reader.ReadRecord` | transport/shadowsocks/shadowaead/stream.go:106-137 | one record, whatever the fragmentation, and the nonces move on in lockstep |
| `Aead.Reader.Read` | transport/shadowsocks/shadowaead/stream.go:140-160 | on any wire: what is buffered comes first, else the next record, whose error is returned; on an honest one the reads concatenate to a prefix of the plaintext; ErrZeroChunk only for a zero chunk, and never an authentication error |
| `LruSpec.RunSound` | transport/common/cache/lrucache.go:83-217 | after any run the entries are in order of last touch, distinct, hold the last values set, and stay within a positive maxSize |
| `LruSpec.AnswerIsLastSet` | transport/common/cache/lrucache.go:83-92 | Get returns the last value set, and never an expired one unless stale return is on or maxAge is not positive |
| `LruExpiry.RunDated` | transport/common/cache/lrucache.go:116-188 | after any run each entry expires when its key was last told: by the caller, or maxAge after it was set or, with updateAgeOnGet, read |
| `LruExpiry.AnswerExactly` | transport/common/cache/lrucache.go:83-188 | after any run Get returns an entry that is there exactly until that time, or always where nothing expires |
| `LruExpiry.ApplyExpiries` | transport/common/cache/lrucache.go:116-188 | one operation gives its own key the expiry it asks for, and leaves all others theirs |
| `LruExpiry.HitRefreshes` | transport/common/cache/lrucache.go:184-186 | with updateAgeOnGet a hit makes its value last exactly maxAge longer from then on |
| `LruExpiry.HitKeepsAge` | transport/common/cache/lrucache.go:182-187 | without it a hit changes no later answer about its key |
| `LruSpec.PurgeIsLongestPrefix` | transport/common/cache/lrucache.go:201-208 | exactly the longest expired prefix is deleted |
| `LruSpec.OthersStay` | transport/common/cache/lrucache.go:126-147 | another entry goes only when expired, or as the least recently touched one of a full cache |
| `LruSpec.EveryLossIsReported` | transport/common/cache/lrucache.go:210-217 | every entry is kept, replaced or reported to the callback |
| `LruSurvival.SurvivesExactly` | transport/common/cache/lrucache.go:83-217 | over any run, an unexpired entry left alone since its last use is still there exactly when it was not deleted and at no time maxSize other keys had been used since and not given up again |
| `LruSurvival.CountDecides` | transport/common/cache/lrucache.go:83-217 | without deletions and expiry: exactly when fewer than maxSize other keys were set or found since its last use |
| `LruSurvival.CountAloneFails` | transport/common/cache/lrucache.go:191-199 | with deletions that count does not decide: a run in which the entry outlives two others in a cache of two |
| `LruSurvival.UsedGoesLast` | transport/common/cache/lrucache.go:126-188 | a key that was set, or found, is the last one used |
| `LruCaches.LruCache.SetWithExpire` | transport/common/cache/lrucache.go:126-147 | the map and the list stay in agreement and do what the specification of Set does |
| `LruCaches.LruCache.Set` | transport/common/cache/lrucache.go:116-122 | as SetWithExpire, with the expiry from maxAge |
| `LruCaches.LruCache.Lookup` | transport/common/cache/lrucache.go:166-188 | a hit moves the entry to the back, with its expiry refreshed or as it was; an expired one is deleted with the expired prefix |
| `LruCaches.LruCache.Get` | transport/common/cache/lrucache.go:83-92 | the value of a hit |
| `LruCaches.LruCache.GetWithExpire` | transport/common/cache/lrucache.go:97-104 | the value, and the expiry as it stands afterwards: refreshed, or as it was |
| `LruCaches.LruCache.Exist` | transport/common/cache/lrucache.go:107-113 | membership, expired or not, touching nothing |
| `LruCaches.LruCache.Delete` | transport/common/cache/lrucache.go:191-199 | the entry goes and the callback hears of it |
| `LruCaches.LruCache.MaybeDeleteOldest` | transport/common/cache/lrucache.go:201-208 | the loop from the front does what the specification of purging does |
| `LruCaches.LruCache.DeleteElement` | transport/common/cache/lrucache.go:210-217 | one entry leaves both the map and the list |
| `TlsTicket.RecordReadsBack` | transport/ssr/obfs/tls1.2_ticket_auth.go:177-181 | a record is read back exactly when it is not empty and shorter than 65536 bytes |
| `TlsTicket.DecodeHonest` | transport/ssr/obfs/tls1.2_ticket_auth.go:60-71 | reading any initial part of a run of records gives the whole ones in order and keeps the cut one |
| `TlsTicket.Resume` | transport/ssr/obfs/tls1.2_ticket_auth.go:60-71 | stopping for lack of bytes and going on later is the same as having had all bytes, on any input |
| `TlsTicket.DecodedIsRecords` | transport/ssr/obfs/tls1.2_ticket_auth.go:60-71 | on any input: just what came in records, from the front on, is read |
| `TlsTicket.TamperedRun` | transport/ssr/obfs/tls1.2_ticket_auth.go:60-64 | behind the records of a peer a wrong magic number ends reading with an error; the good records are read and the rest is dropped |
| `TlsTicket.TicketConn.GreetsExactly` | transport/ssr/obfs/tls1.2_ticket_auth.go:76-82 | the handshake is over just for a message of 76 bytes or more with a digest behind its random bytes and one behind all of it |
| `TlsTicket.TicketConn.Write` | transport/ssr/obfs/tls1.2_ticket_auth.go:88-175 | the records, waiting or sent, carry exactly the concatenation of all writes, across the handshake; all sound if the early writes are below 65536 bytes |
| `TlsTicket.TicketConn.WriteRecords` | transport/ssr/obfs/tls1.2_ticket_auth.go:90-109 | after the handshake no record is empty or too long, and the order is kept |
| `TlsTicket.CutSizes` | transport/ssr/obfs/tls1.2_ticket_auth.go:93-103 | all records but the last have 100 to 4195 bytes, none more, and nothing is cut off the last 2048 |
| `TlsTicket.TicketConn.DecodeRecords` | transport/ssr/obfs/tls1.2_ticket_auth.go:60-71 | the loop over the records that have come whole |
| `TlsTicket.TicketConn.Read` | transport/ssr/obfs/tls1.2_ticket_auth.go:46-85 | on any wire: during the handshake just the peer's message is accepted; after it, what is decoded is handed out first, else some bytes are taken and decoded, and an error is returned; on a peer's records, for any fragmentation, what was decoded is the data of the records taken, in order, and it fails only at the end of the wire, with nothing decoded left |
| `TlsTicket.TicketConn.Begins` | transport/ssr/obfs/tls1.2_ticket_auth.go:46-85 | when the handshake is over reading starts in step with the peer's records |
| `TlsTicket.TicketConn.InOrder` | transport/ssr/obfs/tls1.2_ticket_auth.go:46-85 | at any time what was delivered is the front of the peer's data |
| `TlsTicket.TicketConn.NothingHeldBack` | transport/ssr/obfs/tls1.2_ticket_auth.go:46-85 | at the end of the wire exactly the data of the records that came whole has been delivered |

## Left out

- SessionPool.Client.CreateSession: requires that the next session number is not in use, which `NextNumberFree` shows for the first 2^64 - 1 sessions; after that the source overwrites the older session.
- SessionPool.Client.CreateStream: the same requirement on the next session number.
- SessionPool.Client.CloseStream: when the skip list panics nothing is claimed about the stream that was closing.
- SessionPool.Client.StreamDied: the goroutine that closes the session of a dead client is taken as part of the step.
- SessionPool.Client.ReceiveFin: a peer that opens streams towards the client with SYN is outside the ownership invariant, as are steps finer than a public call or a frame, such as the time between a check for closedness and the insertion into the pool.
- Padding.GenerateRecordPayloadSizes: takes the scheme line as a list of items; splitting the text at commas and dashes and reading the numbers is not modelled.
- Demux.Receiver.RecvLoop: the contents of settings and of new padding schemes, the peer's version and the timer that waits for a SYNACK are not modelled; a failing reply, a session closed from outside and streams opened or closed from outside are inputs, which take effect between two rounds. A write to a pipe is one step here; `StreamReads` has its steps and failures.
- Pipe, Deadline and Intern are state machines over values, because their steps interleave; that their fields are updated in place is not captured.
- Pipe.KeepInv: the two loads in readCloseError and writeCloseError are one step.
- Deadline.KeepInv: memory ordering of the unlocked callback; its read of the channel field and its close are two separate steps.
- Intern.KeepInv: reuse of a freed address by a later value; addresses are never reused here. The collector may not free what is reachable at the moment it decides.
- IpFormat.AddrString: text as bytes; a zone is any sequence of characters.
- StreamReads.ReadsArePrefix: a write deadline on the pipe itself, which the session never sets; after one, a later write could succeed behind a gap.
- SsrStream.Protocol.SendHead: as for Encode, the bytes of the head.
- SsrStream.Protocol.Encode: the bytes of the authenticated head, which nothing in the repository decodes; they are a parameter. The frame number of auth_aes128 is kept for auth_sha1_v4 too, where the checksums ignore it (`SsrFrames.Sha1IgnoresNumbers`).
- ChainStream.AuthChain.Encode: the head is a parameter, and so are the digests and the key stream it sets up; the encryption of the caller's slice in place is on a copy.
- ChainFrames.PassedIsData: stated up to frame number 2^32 - 1, where the counter wraps around and number 1 comes again.
- TlsTicket.TicketConn.Write: the bytes of the two handshake messages, which are parameters. A failed write leaves no claim about the wire.
- XorShift.XorShift128Plus.InitFromBinAndLength: a slice whose capacity exceeds its length, which the source reads beyond its length.
- TlsTicket.TicketConn.Read: the two calls that may run at once, a user's Write and the empty Write of the handshake, are taken one after the other.
- LruCaches.LruCache.SetWithExpire: the container/list cells; the list is a sequence of shared entries. CloneTo, which shares entries between two caches.
- Aead.Writer.Write: the salt exchange of shadowaead.Conn, ReadFrom, which sends a zero chunk at the end of its input, and WriteTo.
- SkipLists.SkipList.UpperBound: FindRange, whose comment excludes the last key while the code includes it, and the variant with a comparison function.
- Compare, Less, the IsX classifications, binary marshalling and AddrPort of netip; packets of the SSR protocols (PacketConn).
- Sockets, WebSocket, TLS, HTTP, mux, rules, the other address codecs, and the server scripts.
- Strength of ciphers and digests, and the distribution of random numbers.
