# Verified model of the sober_project event service and file cache core

This project is a Dafny model of the sequential core of the `vzes` event
service and of the file-cache server built on it. It covers:

- **The segmented byte buffer.** A `MemBuffer` holds a list of 768-byte
  `Block`s and a cached size. `BlockManager` is the pool of free blocks.
- **Packet framing.** An 8-byte `'V','Z',flag,length` header is put in front
  of each payload. `AnalysisPacket` reassembles frames from a stream that
  arrives in pieces.
- **The asynchronous socket.** `AsyncSocketImpl` is the write queue and the
  read/write/error/close event handling on top of a non-blocking socket.
- **The reactor.** `NetworkService` keeps the dispatcher list, classifies
  select readiness into events and dispatches one-shot events.
  `PhysicalSocket` holds connection states, event masks and the
  `Send`/`Recv` accounting loops.
- **The HTTP helpers.** These are URL decoding and the path rules of the
  file handler, query-string splitting, reply serialisation (the status line
  of section 6.1 of RFC 1945), MIME lookup and handler routing.
- **Publish/subscribe routing** between dp clients.
- **The KVDB record cache.** It keeps tiers of fixed-size records, with a
  free-or-oldest eviction rule.
- **The file-cache stanza deque and the stanza pool.**
- **Base62 key rendering and ASCII lower-casing.**

Each source file is one module and one `.dfy` file:

| module | file | models |
|---|---|---|
| `Bytes` | bytes.dfy | the byte type |
| `Lists` | lists.dfy | duplicate-free lists and concatenation facts shared by several modules |
| `SocketEvents` | events.dfy | the five dispatcher events, their bits, and the result of one system call |
| `MemBuffers` | membuffer.dfy | src/lib/eventservice/mem/membuffer.cpp, membuffer.h |
| `PacketSockets` | packetsocket.dfy | src/lib/eventservice/net/asyncpacketsocket.cpp |
| `AsyncSockets` | asyncsocket.dfy | src/lib/eventservice/net/networktinterfaceimpl.cpp |
| `NetworkServices` | networkservice.dfy | src/lib/eventservice/net/networkservice.cpp |
| `FileHandler` | filehandler.dfy | src/lib/eventservice/http/file_handler.cpp |
| `HttpQuery` | httpquery.dfy | `ParserRequestURL` in src/lib/eventservice/net/asynchttpsocket.cpp |
| `Replies` | reply.dfy | src/lib/eventservice/http/reply.cpp |
| `MimeTypes` | mimetypes.dfy | src/lib/eventservice/http/mime_types.cpp |
| `HandlerManagers` | handlermanager.dfy | src/lib/eventservice/http/handlermanager.cpp |
| `DpClients` | dpclient.dfy | src/lib/eventservice/dp/dpclient.cpp |
| `Kvdb` | kvdb.dfy | src/lib/filecache/server/kvdbservice.cpp |
| `CacheServices` | cacheservice.dfy | src/lib/filecache/server/cacheservice.cpp |
| `StanzaPools` | stanzapool.dfy | src/lib/filecache/server/cachestanzapool.cpp |
| `PrimeKey` | primekey.dfy | src/third_part/encrypt/prime/prime_key.cpp |

The model keeps the form of the source:

- Objects whose fields the C++ updates in place are classes with
  `modifies` frames: `MemBuffer`, `BlockManager`, `AsyncPacketSocket`,
  `AsyncSocketImpl`, `PhysicalSocket`, `EventDispatcher`, `NetworkService`,
  the dp clients, `KvdbService`, `CachedService` and the stanza pool.
- Pure rules are functions.
- Each loop of the source is a `while` loop proved against a specification
  function, for example `Flatten`, `Deframe`, `Dispatch`, `UrlDecode` or
  `Pairs`.
- System calls, clocks and file contents are parameters of the methods
  that use them. Subscriber callbacks such as `OnEvent` are not run: each
  call is recorded, with its arguments, in a list the methods extend.
- Integer widths are written out where the source relies on them: the
  `size_t` wrap in `MemBuffer::CopyBytes`, the `uint32` differences in
  `AnalysisPacket`, and the `unsigned char` wrap in `ToLowercase`.

## Model

| member | source | states |
|---|---|---|
| SocketEvents.WordFaithful | src/lib/eventservice/event/signalevent.h:45-51 | the event word of a mask is below 0x20 and is 0 exactly for the empty mask: the five bits are distinct |
| MemBuffers.RemainSize | src/lib/eventservice/mem/membuffer.h:35-46 | free room of a block is between 0 and 768 and is 0 exactly when the block holds 768 bytes |
| MemBuffers.BlockWriteBytes | src/lib/eventservice/mem/membuffer.cpp:384-393 | writes min(free room, len) bytes after the stored ones, keeps the encode flag, never overfills the block |
| MemBuffers.BlockReadBytes | src/lib/eventservice/mem/membuffer.cpp:395-408 | removes min(stored, len) bytes from the front; what it returns followed by what stays is the old content |
| MemBuffers.BlockReadString | src/lib/eventservice/mem/membuffer.cpp:411-422 | leaves the block as BlockReadBytes does and appends the same bytes to the string |
| MemBuffers.BlockCopyBytes | src/lib/eventservice/mem/membuffer.cpp:425-433 | copies min(stored - pos, len) bytes from offset pos without changing the block; nothing when pos is past the end |
| MemBuffers.BlockCopyString | src/lib/eventservice/mem/membuffer.cpp:435-443 | appends exactly the bytes BlockCopyBytes copies and returns their count |
| MemBuffers.BlockManager.constructor | src/lib/eventservice/mem/membuffer.cpp:58-59 | the pool starts with an empty free list |
| MemBuffers.BlockManager.TakeBlock | src/lib/eventservice/mem/membuffer.cpp:38-48 | pops the front of a non-empty free list, allocates only when it is empty; the block handed out is empty with the flag clear (membuffer.h:39-43) |
| MemBuffers.BlockManager.InternalRecyleBlock | src/lib/eventservice/mem/membuffer.cpp:51-57 | resets the block to length 0 and flag false and appends it at the back of the free list |
| MemBuffers.AppendFreshBlocks | src/lib/eventservice/mem/membuffer.cpp:364-375 | the contents become old ++ val; old blocks unchanged, new blocks unflagged and each but the last filled to 768 |
| MemBuffers.WriteBlocks | src/lib/eventservice/mem/membuffer.cpp:346-362 | the contents become old ++ val; only the last old block grows, and it is full before any new block is used |
| MemBuffers.MemBuffer.constructor | src/lib/eventservice/mem/membuffer.cpp:87-92 | a new buffer has no blocks, size 0 and empty contents |
| MemBuffers.MemBuffer.BlocksSize | src/lib/eventservice/mem/membuffer.h:78-80 | the number of blocks; a valid buffer with no blocks holds no bytes |
| MemBuffers.MemBuffer.ReduceSize | src/lib/eventservice/mem/membuffer.h:90-92 | subtracts n from the size and leaves the blocks untouched |
| MemBuffers.MemBuffer.WriteNewBytes | src/lib/eventservice/mem/membuffer.cpp:364-375 | appends val in fresh blocks, each filled before the next is taken, without touching the size |
| MemBuffers.MemBuffer.WriteBytes | src/lib/eventservice/mem/membuffer.cpp:346-362 | contents become old ++ val and the size grows by len, filling the last block's free room before new blocks |
| MemBuffers.ReadFrontBlocks | src/lib/eventservice/mem/membuffer.cpp:128-144 | takes the first len bytes off a block list; what remains is a trimmed suffix holding the rest |
| MemBuffers.MemBuffer.ReadBytes | src/lib/eventservice/mem/membuffer.cpp:123-147 | fails, changing nothing, iff fewer than len bytes are held; otherwise returns the first len bytes, keeps the rest, shrinks the size by len and drops drained blocks |
| MemBuffers.CopyBlocksInto | src/lib/eventservice/mem/membuffer.cpp:153-172 | appends the first len bytes of the blocks to the destination and reports how many leading blocks were read in full |
| MemBuffers.MemBuffer.ReadBuffer | src/lib/eventservice/mem/membuffer.cpp:149-174 | fails iff fewer than len bytes are held; otherwise the destination gains the first len bytes, only fully read blocks are dropped, the size is not updated, and the cached size stays consistent iff the dropped blocks held no bytes |
| MemBuffers.MemBuffer.GetPostion | src/lib/eventservice/mem/membuffer.cpp:305-321 | finds the first block whose end reaches pos and the offset inside it; past the end gives the end position |
| MemBuffers.MemBuffer.CopyFrom | src/lib/eventservice/mem/membuffer.cpp:269-281 | the copy loop returns bytes [pos, pos+len) of the contents |
| MemBuffers.MemBuffer.CopyBytes | src/lib/eventservice/mem/membuffer.cpp:265-282 | with pos <= size: fails iff size - pos < len, else returns bytes [pos, pos+len), and changes nothing; with pos > size the 64-bit wrap decides the result and nothing is copied |
| MemBuffers.MemBuffer.AppendBuffer | src/lib/eventservice/mem/membuffer.cpp:219-223 | appends the source's blocks: contents dest ++ src, size the sum; the source is not emptied |
| MemBuffers.MemBuffer.AppendBlock | src/lib/eventservice/mem/membuffer.cpp:225-228 | appends one block and adds its length to the size |
| MemBuffers.MemBuffer.Clear | src/lib/eventservice/mem/membuffer.cpp:230-233 | no blocks and size 0 |
| MemBuffers.MemBuffer.EnableEncode | src/lib/eventservice/mem/membuffer.cpp:235-245 | false with no blocks, changing nothing; otherwise every block gets the flag and the bytes are unchanged |
| MemBuffers.MemBuffer.ToString | src/lib/eventservice/mem/membuffer.cpp:200-207 | the concatenation of all blocks' bytes, which is the contents |
| MemBuffers.WriteThenRead | src/test/membuffertest/membuffer_main.cpp:35-53 | bytes written to a new buffer and read back whole come back unchanged and leave size 0 |
| MemBuffers.WriteAllReadAll | src/test/membuffertest/membuffer_main.cpp:55-87 | chunks written one after another come back in order from reads of the same lengths, leaving size 0 |
| PacketSockets.Be16RoundTrip | src/lib/eventservice/net/asyncpacketsocket.cpp:148 | htons then ntohs gives the flag back |
| PacketSockets.Be16Exact | src/lib/eventservice/net/asyncpacketsocket.cpp:148 | any two bytes are the big-endian encoding of the number they decode to |
| PacketSockets.Be32RoundTrip | src/lib/eventservice/net/asyncpacketsocket.cpp:149 | htonl then ntohl gives the length back |
| PacketSockets.Be32Exact | src/lib/eventservice/net/asyncpacketsocket.cpp:149 | any four bytes are the big-endian encoding of the number they decode to |
| PacketSockets.HeaderBytes | src/lib/eventservice/net/asyncpacketsocket.cpp:83-87 | a header is 8 bytes starting with 'V','Z' |
| PacketSockets.ParseHeader | src/lib/eventservice/net/asyncpacketsocket.cpp:148-150 | the magic is accepted iff the first two bytes are 'V','Z'; flag and length are in range |
| PacketSockets.HeaderRoundTrip | src/lib/eventservice/net/asyncpacketsocket.cpp:148-150 | parsing an encoded header gives its flag and length with the magic accepted |
| PacketSockets.ParseHeaderExact | src/lib/eventservice/net/asyncpacketsocket.cpp:148-150 | a header with the right magic is the encoding of what it parses to |
| PacketSockets.EncodeFrame | src/lib/eventservice/net/asyncpacketsocket.cpp:83-95 | a frame is the header for (flag, payload length) followed by the payload, 8 + size bytes |
| PacketSockets.DeframeRest | src/lib/eventservice/net/asyncpacketsocket.cpp:125-158 | what reassembly leaves is a suffix of the stream: an unfinished frame, or a header with bad magic |
| PacketSockets.DeframeStep | src/lib/eventservice/net/asyncpacketsocket.cpp:159-207 | a stream that starts with a complete frame yields that frame's flag and payload, then the packets of the rest |
| PacketSockets.DeframeEncodable | src/lib/eventservice/net/asyncpacketsocket.cpp:148-149 | every reassembled packet has a 16-bit flag and a 32-bit length |
| PacketSockets.DeframeFrame | src/lib/eventservice/net/asyncpacketsocket.cpp:159-207 | a frame in front of a stream is reassembled first and the rest as before |
| PacketSockets.DeframeEncodeAll | src/lib/eventservice/net/asyncpacketsocket.cpp:124-212 | reassembling the encoding of packets gives exactly those packets, in order, with nothing left |
| PacketSockets.DeframeAppend | src/lib/eventservice/net/asyncpacketsocket.cpp:125-158 | a stream fed in two pieces, keeping the first piece's remainder, reassembles as the whole stream does |
| PacketSockets.NextStepDeframe | src/lib/eventservice/net/asyncpacketsocket.cpp:126-158 | one pass of the loop: fewer than 8 bytes or a short payload keeps everything, bad magic stops, a complete frame is one reassembly step |
| PacketSockets.DeliveredPrefix | src/lib/eventservice/net/asyncpacketsocket.cpp:200-204 | subscribers receive all packets, or, when one closes the socket, those up to and including that one |
| PacketSockets.StepCorrectedSplitsInside | src/lib/eventservice/net/asyncpacketsocket.cpp:174-195 | with mathematical integers the walk goes on, stops or splits strictly inside the block exactly as the frame end dictates |
| PacketSockets.StepsAgree | src/lib/eventservice/net/asyncpacketsocket.cpp:174-195 | once 8 bytes have been walked the uint32/size_t/int arithmetic of the walk agrees with the mathematical one |
| PacketSockets.StepAsWrittenOverrunsBlock | src/lib/eventservice/net/asyncpacketsocket.cpp:174-190 | a 4-byte block with 'V','Z',flag and a 1-byte payload in the next block: the wrapped walk asks for 9 bytes of a 4-byte block where it should move on |
| PacketSockets.StraddlingFrameParses | src/lib/eventservice/net/asyncpacketsocket.cpp:134-146 | a header split 4 + 4 across two pieces still reassembles to its packet |
| PacketSockets.CollectFrame | src/lib/eventservice/net/asyncpacketsocket.cpp:161-196 | collects exactly 8 + length bytes of accumulated ++ new blocks, splitting the last block, and leaves the rest |
| PacketSockets.FrameFromBlocks | src/lib/eventservice/net/asyncpacketsocket.cpp:161-199 | the collected frame less its 8 header bytes is the payload; the rest stays |
| PacketSockets.ReadHeader | src/lib/eventservice/net/asyncpacketsocket.cpp:134-146 | the header is the first 8 bytes of accumulated ++ new, from the accumulation, the new buffer, or both |
| PacketSockets.AsyncPacketSocket.constructor | src/lib/eventservice/net/asyncpacketsocket.cpp:15-26 | a socket with an empty receive buffer and every subscriber connected |
| PacketSockets.AsyncPacketSocket.AsyncWritePacket | src/lib/eventservice/net/asyncpacketsocket.cpp:69-97 | writes one frame iff the socket is open and size <= 65528; otherwise writes nothing and returns false |
| PacketSockets.AsyncPacketSocket.AsyncWriteBuffer | src/lib/eventservice/net/asyncpacketsocket.cpp:99-114 | writes a header block carrying the buffer size cut to 32 bits, then the buffer's bytes; always true |
| PacketSockets.AsyncPacketSocket.AsyncRead | src/lib/eventservice/net/asyncpacketsocket.cpp:116-122 | false when the socket is gone or closed, else one read request and the socket's answer |
| PacketSockets.AsyncPacketSocket.SignalClose | src/lib/eventservice/net/asyncpacketsocket.cpp:214-231 | closes and drops the socket, reports the error only when signalled and listened to, disconnects all subscribers |
| PacketSockets.AsyncPacketSocket.Close | src/lib/eventservice/net/asyncpacketsocket.cpp:33-35 | closes without reporting an error |
| PacketSockets.AsyncPacketSocket.ParseStep | src/lib/eventservice/net/asyncpacketsocket.cpp:126-199 | one pass of the loop on accumulated ++ new equals NextStep, and moves the bytes as that step says |
| PacketSockets.AsyncPacketSocket.TakeFrame | src/lib/eventservice/net/asyncpacketsocket.cpp:159-199 | returns bytes [8, 8+length) of accumulated ++ new with the header's flag, empties the accumulation and leaves the rest in the new buffer |
| PacketSockets.AsyncPacketSocket.Deliver | src/lib/eventservice/net/asyncpacketsocket.cpp:200-204 | hands the packet to the subscribers, if any; a subscriber may close the socket |
| PacketSockets.AsyncPacketSocket.DeliverFrames | src/lib/eventservice/net/asyncpacketsocket.cpp:124-212 | the loop: the packets met and what is left are exactly the reassembly of accumulated ++ new, up to a close by a subscriber |
| PacketSockets.AsyncPacketSocket.AnalysisPacket | src/lib/eventservice/net/asyncpacketsocket.cpp:124-212 | emits the reassembled packets in order; bad magic gives false with the bytes kept; otherwise the accumulation becomes the unfinished frame; a close during emission returns true at once |
| PacketSockets.AsyncPacketSocket.OnAsyncSocketReadEvent | src/lib/eventservice/net/asyncpacketsocket.cpp:242-254 | nothing on a closed socket; bad magic closes with error 1; otherwise one more read is requested unless a subscriber closed the socket |
| PacketSockets.AsyncPacketSocket.OnAsyncSocketErrorEvent | src/lib/eventservice/net/asyncpacketsocket.cpp:256-259 | closes and reports the error code to the error subscribers |
| AsyncSockets.Wires | src/lib/eventservice/net/networktinterfaceimpl.cpp:240-253 | one wire string per queued block, in order: the Base64 form when the block is flagged and the mode is not none, else its bytes |
| AsyncSockets.SendFull | src/lib/eventservice/net/networktinterfaceimpl.cpp:258-261 | a send that takes the whole staging clears it and the loop goes on with the next block |
| AsyncSockets.DrainLoop | src/lib/eventservice/net/networktinterfaceimpl.cpp:221-289 | the send loop, with send results as inputs, ends exactly as the specification Drain says |
| AsyncSockets.DrainOffersInOrder | src/lib/eventservice/net/networktinterfaceimpl.cpp:240-256 | the strings handed to send are the staging, if any, then the popped blocks in queue order and wire form; the queue left is what is behind them |
| AsyncSockets.DrainConserves | src/lib/eventservice/net/networktinterfaceimpl.cpp:256-271 | nothing is lost or reordered: accepted bytes ++ staging left ++ queue left is the old staging ++ old queue |
| AsyncSockets.DrainStops | src/lib/eventservice/net/networktinterfaceimpl.cpp:256-287 | a drained loop leaves nothing; a partial send stages the unsent tail; zero, would-block or a hard error keep the string staged whole |
| AsyncSockets.SendOffersInOrder | src/lib/eventservice/net/networktinterfaceimpl.cpp:256-288 | from a staged string on, the strings sent are it and then the popped blocks in queue order, in wire form |
| AsyncSockets.SendConserves | src/lib/eventservice/net/networktinterfaceimpl.cpp:256-288 | from a staged string on, nothing is lost or reordered |
| AsyncSockets.SendStops | src/lib/eventservice/net/networktinterfaceimpl.cpp:256-288 | from a staged string on, the pass stops as DrainStops says |
| AsyncSockets.AsyncSocketImpl.constructor | src/lib/eventservice/net/networktinterfaceimpl.cpp:19-26 | a new wrapper is writeable, in mode none, with no dispatcher and nothing queued |
| AsyncSockets.AsyncSocketImpl.Init | src/lib/eventservice/net/networktinterfaceimpl.cpp:32-42 | follows AfterInit: a dispatcher watching READ and CLOSE, refused without a socket or with one already |
| AsyncSockets.AsyncSocketImpl.AsyncWrite | src/lib/eventservice/net/networktinterfaceimpl.cpp:44-59 | follows AfterAsyncWrite: queue the blocks and try to write, refused unless connected (see AsyncWriteNeedsConnection) |
| AsyncSockets.AsyncSocketImpl.AsyncRead | src/lib/eventservice/net/networktinterfaceimpl.cpp:61-69 | follows AfterAsyncRead: enable READ and hand the dispatcher to the event service |
| AsyncSockets.AsyncSocketImpl.Close | src/lib/eventservice/net/networktinterfaceimpl.cpp:81-96 | follows AfterClose: drop socket and dispatcher, empty the queue, stop writing (see CloseIdempotent) |
| AsyncSockets.AsyncSocketImpl.SetEncodeType | src/lib/eventservice/net/networktinterfaceimpl.cpp:98-100 | sets the mode and nothing else |
| AsyncSockets.AsyncSocketImpl.IsConnected | src/lib/eventservice/net/networktinterfaceimpl.cpp:112-115 | true iff a socket is held and it is connected |
| AsyncSockets.AsyncSocketImpl.OnSocketEvent | src/lib/eventservice/net/networktinterfaceimpl.cpp:134-165 | follows AfterSocketEvent: an error closes; otherwise WRITE, READ, CLOSE in that order, then re-arm |
| AsyncSockets.AsyncSocketImpl.SocketReadEvent | src/lib/eventservice/net/networktinterfaceimpl.cpp:167-195 | follows AfterReadEvent (see ReadOutcomes) |
| AsyncSockets.AsyncSocketImpl.SocketWriteEvent | src/lib/eventservice/net/networktinterfaceimpl.cpp:197-200 | a WRITE event makes the socket writeable and resumes the write with the close event emitted on error |
| AsyncSockets.AsyncSocketImpl.SocketErrorEvent | src/lib/eventservice/net/networktinterfaceimpl.cpp:202-206 | signals the error, then closes |
| AsyncSockets.AsyncSocketImpl.TryToWriteData | src/lib/eventservice/net/networktinterfaceimpl.cpp:208-292 | follows AfterTryWrite (see NotWriteableRefuses, WriteCompleteWhenEmpty, TryWriteKeepsOrder) |
| AsyncSockets.AsyncSocketImpl.SettleRun | src/lib/eventservice/net/networktinterfaceimpl.cpp:256-288 | after the loop: wait for writability, or signal the error and close on a hard error with the close event wanted |
| AsyncSockets.AsyncSocketImpl.WaitToWriteData | src/lib/eventservice/net/networktinterfaceimpl.cpp:294-298 | not writeable, WRITE enabled, dispatcher re-added |
| AsyncSockets.AsyncSocketImpl.SocketReadComplete | src/lib/eventservice/net/networktinterfaceimpl.cpp:302-308 | emits the read-complete event with the data |
| AsyncSockets.AsyncSocketImpl.SocketWriteComplete | src/lib/eventservice/net/networktinterfaceimpl.cpp:310-316 | emits the write-complete event |
| AsyncSockets.CloseIdempotent | src/lib/eventservice/net/networktinterfaceimpl.cpp:81-96 | Close leaves the socket closed, not writeable, with an empty queue; a second Close changes nothing |
| AsyncSockets.AsyncWriteNeedsConnection | src/lib/eventservice/net/networktinterfaceimpl.cpp:44-51 | a write is accepted iff the socket is connected with a dispatcher; a refused one changes nothing |
| AsyncSockets.ClosedRefuses | src/lib/eventservice/net/networktinterfaceimpl.cpp:44-69 | after Close, AsyncWrite and AsyncRead fail and TryToWriteData returns -1, all changing nothing |
| AsyncSockets.NotWriteableRefuses | src/lib/eventservice/net/networktinterfaceimpl.cpp:209-212 | a socket that is not writeable returns -1 and changes nothing |
| AsyncSockets.WriteCompleteWhenEmpty | src/lib/eventservice/net/networktinterfaceimpl.cpp:215-219 | write completion is emitted iff the socket is writeable with nothing queued or staged |
| AsyncSockets.TryWriteKeepsOrder | src/lib/eventservice/net/networktinterfaceimpl.cpp:221-292 | the bytes offered are staging then queued blocks in order and wire form; no byte is lost; the socket ends not writeable with WRITE re-registered, or closed with the error emitted on a hard error with the close event wanted |
| AsyncSockets.SettleKeepsOrder | src/lib/eventservice/net/networktinterfaceimpl.cpp:256-298 | whatever the loop did, what follows it waits for WRITE or closes with the error, keeping READ and CLOSE interest |
| AsyncSockets.ValidKept | src/lib/eventservice/net/networktinterfaceimpl.cpp:32-165 | every operation keeps a dispatcher only together with the socket it watches |
| AsyncSockets.ErrorOnlySignalsError | src/lib/eventservice/net/networktinterfaceimpl.cpp:140-145 | a nonzero error code emits only the error event, closes, and sends nothing |
| AsyncSockets.WriteBeforeRead | src/lib/eventservice/net/networktinterfaceimpl.cpp:147-156 | WRITE is handled before READ: write completion is emitted before the data read |
| AsyncSockets.CloseBitCloses | src/lib/eventservice/net/networktinterfaceimpl.cpp:157-161 | a delivered CLOSE bit always leaves the socket closed |
| AsyncSockets.ReadBitCleared | src/lib/eventservice/net/networktinterfaceimpl.cpp:152-156 | a delivered READ bit is cleared from the enabled events |
| AsyncSockets.RearmIffEnabled | src/lib/eventservice/net/networktinterfaceimpl.cpp:162-164 | the dispatcher is re-added iff it is still held with some event enabled |
| AsyncSockets.ReadOutcomes | src/lib/eventservice/net/networktinterfaceimpl.cpp:167-195 | data read emits read-complete; EOF or a hard error emits the error and closes; would-block does nothing |
| AsyncSockets.OnAcceptEvent | src/lib/eventservice/net/networktinterfaceimpl.cpp:372-385 | at most one notice per event |
| AsyncSockets.AcceptHandling | src/lib/eventservice/net/networktinterfaceimpl.cpp:372-385 | an error or CLOSE gives one null notice; an error-free ACCEPT hands the accepted socket on and re-arms, and only then |
| AsyncSockets.OnConnectEvent | src/lib/eventservice/net/networktinterfaceimpl.cpp:442-454 | at most one notice and never a re-arm |
| AsyncSockets.ConnectHandling | src/lib/eventservice/net/networktinterfaceimpl.cpp:442-454 | a non-null socket is reported iff the event is an error-free CONNECT without CLOSE |
| NetworkServices.NewSocketState | src/lib/eventservice/net/networkservice.cpp:111-130 | a valid descriptor starts connected with READ and WRITE enabled; an invalid one starts closed with no events |
| NetworkServices.CloseIdempotent | src/lib/eventservice/net/networkservice.cpp:494-507 | Close on a valid socket gives closed, invalid, no events; a second Close returns 0 and changes nothing |
| NetworkServices.ConnectWhenNotClosed | src/lib/eventservice/net/networkservice.cpp:214-221 | Connect on a socket that is not closed fails with EALREADY and changes nothing else |
| NetworkServices.ConnectOutcomes | src/lib/eventservice/net/networkservice.cpp:224-246 | from closed: success iff a descriptor exists or can be created and the connect succeeds or would block; success gives connected, or connecting with CONNECT enabled, and READ and WRITE |
| NetworkServices.ListenOutcomes | src/lib/eventservice/net/networkservice.cpp:461-473 | a successful listen gives connecting with ACCEPT added; a failed one only records the error |
| NetworkServices.OnEventOrder | src/lib/eventservice/net/networkservice.cpp:569-596 | raises the CONNECT, ACCEPT, READ, WRITE signals in that order, clears exactly those bits, and a CLOSE bit closes the socket |
| NetworkServices.DeliveredEvents | src/lib/eventservice/net/networkservice.cpp:569-593 | the enabled events lose exactly the fired bits other than CLOSE |
| NetworkServices.DeliverClears | src/lib/eventservice/net/networkservice.cpp:571-592 | one fired bit is cleared from the enabled events; validity and state are kept |
| NetworkServices.RecvRearms | src/lib/eventservice/net/networkservice.cpp:361-387 | READ is enabled again after data or a would-block error (always for datagrams), not after end of stream |
| NetworkServices.SendBlocks | src/lib/eventservice/net/networkservice.cpp:305-336 | the send loop makes at most one call per block |
| NetworkServices.SendBlocksDrops | src/lib/eventservice/net/networkservice.cpp:305-336 | the bytes sent are the front of the contents and the blocks left hold exactly the rest |
| NetworkServices.SendBlocksStops | src/lib/eventservice/net/networkservice.cpp:309-330 | erased blocks were each sent whole; the loop stops at the first short send, trimming that block only by the bytes sent |
| NetworkServices.SendBufferKept | src/lib/eventservice/net/networkservice.cpp:305-336 | a consistent buffer stays consistent after the send loop and loses exactly the bytes sent |
| NetworkServices.SendsRearm | src/lib/eventservice/net/networkservice.cpp:283-303 | any send call enables WRITE and records the last error; no call changes nothing |
| NetworkServices.RecvOutcomes | src/lib/eventservice/net/networkservice.cpp:389-426 | the result is positive iff the last read got data or would block after data, and is then the bytes appended; 0 iff end of stream; -1 iff a hard error or would-block with nothing read |
| NetworkServices.PhysicalSocket.constructor | src/lib/eventservice/net/networkservice.cpp:111-130 | follows NewSocket (see NewSocketState) |
| NetworkServices.PhysicalSocket.Create | src/lib/eventservice/net/networkservice.cpp:137-151 | closes the old descriptor, creates one; a datagram socket is connected with READ and WRITE at once |
| NetworkServices.PhysicalSocket.Connect | src/lib/eventservice/net/networkservice.cpp:214-222 | follows AfterConnect (see ConnectWhenNotClosed, ConnectOutcomes) |
| NetworkServices.PhysicalSocket.DoConnect | src/lib/eventservice/net/networkservice.cpp:224-246 | follows AfterDoConnect (see ConnectOutcomes) |
| NetworkServices.PhysicalSocket.Listen | src/lib/eventservice/net/networkservice.cpp:461-473 | follows AfterListen (see ListenOutcomes) |
| NetworkServices.PhysicalSocket.Close | src/lib/eventservice/net/networkservice.cpp:494-507 | follows AfterClose (see CloseIdempotent) |
| NetworkServices.PhysicalSocket.Send | src/lib/eventservice/net/networkservice.cpp:283-303 | returns the send result and enables WRITE |
| NetworkServices.PhysicalSocket.Recv | src/lib/eventservice/net/networkservice.cpp:361-387 | returns the recv result and re-enables READ as RecvRearms states |
| NetworkServices.PhysicalSocket.CheckSignalClose | src/lib/eventservice/net/networkservice.cpp:562-567 | true iff the descriptor is invalid or the state is closed |
| NetworkServices.PhysicalSocket.OnEvent | src/lib/eventservice/net/networkservice.cpp:569-596 | follows AfterOnEvent (see OnEventOrder) |
| NetworkServices.PhysicalSocket.SendBuffer | src/lib/eventservice/net/networkservice.cpp:305-336 | returns the bytes sent; the contents lose exactly those front bytes and the size drops by them; the send calls made are those the loop reaches |
| NetworkServices.PhysicalSocket.SendBlocksLoop | src/lib/eventservice/net/networkservice.cpp:307-330 | the loop over the blocks computes SendBlocks, leaving the size to the caller |
| NetworkServices.PhysicalSocket.SendFront | src/lib/eventservice/net/networkservice.cpp:310-329 | one pass: the front block is erased when sent whole, trimmed by a partial send, kept otherwise |
| NetworkServices.PhysicalSocket.RecvBuffer | src/lib/eventservice/net/networkservice.cpp:389-426 | appends a fresh block per read that got data, keeps the buffer consistent, and returns RecvSize (see RecvOutcomes) |
| NetworkServices.PhysicalSocket.Raise | src/lib/eventservice/net/networkservice.cpp:571-592 | one stage of OnEvent: a delivered bit is cleared and its signal raised |
| NetworkServices.EventDispatcher.constructor | src/lib/eventservice/net/networkservice.cpp:614-618 | a dispatcher for the socket with the given events, not closing |
| NetworkServices.EventDispatcher.Close | src/lib/eventservice/net/networkservice.cpp:624-630 | marks closing, disconnects subscribers, releases the socket |
| NetworkServices.EventDispatcher.RemoveEvent | src/lib/eventservice/net/networkservice.cpp:633-635 | clears exactly the given bits |
| NetworkServices.EventDispatcher.AddEvent | src/lib/eventservice/net/networkservice.cpp:637-639 | sets exactly the given bits |
| NetworkServices.EventDispatcher.DisableEvent | src/lib/eventservice/net/networkservice.cpp:645-647 | marks the dispatcher closing, so CheckEventClose holds |
| NetworkServices.EventDispatcher.EnableEvent | src/lib/eventservice/net/networkservice.cpp:649-651 | clears the mark; the dispatcher is then closing iff its socket reports itself closed |
| NetworkServices.EventDispatcher.OnEvent | src/lib/eventservice/net/networkservice.cpp:660-680 | emits (ff, err) to subscribers if still connected, then hands ff to the socket if there still is one |
| NetworkServices.PruneKeeps | src/lib/eventservice/net/networkservice.cpp:996-1003 | exactly the entries with a valid socket that are not closing survive pruning, in order |
| NetworkServices.PruneAppend | src/lib/eventservice/net/networkservice.cpp:996-1003 | pruning treats each entry on its own: it distributes over concatenation |
| NetworkServices.ClassifyCases | src/lib/eventservice/net/networkservice.cpp:1079-1103 | ACCEPT iff read-ready and accepting; READ iff read-ready, not accepting, no error, not closing; CONNECT iff write-ready, connecting, no error; WRITE iff write-ready and not connecting; CLOSE in the remaining ready cases; nothing iff not ready |
| NetworkServices.DispatchConserves | src/lib/eventservice/net/networkservice.cpp:1055-1113 | every registered entry is either kept or called back, exactly once |
| NetworkServices.DispatchBound | src/lib/eventservice/net/networkservice.cpp:1055-1056 | no more callbacks than select counted beyond the wakeup |
| NetworkServices.DispatchCalls | src/lib/eventservice/net/networkservice.cpp:1064-1108 | each callback goes to a registered entry that is not skipped and carries its non-empty classification and error code |
| NetworkServices.DispatchOnce | src/lib/eventservice/net/networkservice.cpp:1106-1112 | with no duplicates, a dispatcher is called back at most once per cycle and is then no longer registered |
| NetworkServices.DispatchKeptFrom | src/lib/eventservice/net/networkservice.cpp:1055-1113 | the kept entries are among the registered ones |
| NetworkServices.WaitOutcomeCases | src/lib/eventservice/net/networkservice.cpp:1021-1053 | Wait returns false iff the first stopping pass had a select error other than EINTR, true iff it timed out or was woken, and goes on while no pass stops it |
| NetworkServices.FirstStop | src/lib/eventservice/net/networkservice.cpp:1021-1053 | the index of the first pass that stops Wait: none before it stops, it does |
| NetworkServices.NetworkService.constructor | src/lib/eventservice/net/networkservice.cpp:684-705 | no dispatchers, not waiting, no callbacks |
| NetworkServices.NetworkService.Add | src/lib/eventservice/net/networkservice.cpp:746-784 | appends the dispatcher unless already registered, so no duplicate is ever created |
| NetworkServices.NetworkService.Remove | src/lib/eventservice/net/networkservice.cpp:786-802 | only marks a registered dispatcher closing; the list is unchanged |
| NetworkServices.NetworkService.PruneDispatchers | src/lib/eventservice/net/networkservice.cpp:996-1003 | erases the dispatchers without a valid socket or closing, keeping the others in order |
| NetworkServices.NetworkService.DispatchReady | src/lib/eventservice/net/networkservice.cpp:1055-1113 | erases each dispatcher with events before recording its OnEvent call, as Dispatch says |
| NetworkServices.NetworkService.DispatchCounted | src/lib/eventservice/net/networkservice.cpp:1037-1113 | a reported wakeup stops the waiting and counts as one descriptor, then the ready dispatchers are dispatched as Dispatch says |
| NetworkServices.NetworkService.Cycle | src/lib/eventservice/net/networkservice.cpp:973-1114 | one pass of the loop: prune, then on a positive count account for the wakeup and dispatch |
| NetworkServices.NetworkService.Wait | src/lib/eventservice/net/networkservice.cpp:945-1137 | returns WaitOutcome of the select outcomes; the registrations and callbacks are those of the passes made; stops waiting after a wakeup |
| NetworkServices.PruneEntries | src/lib/eventservice/net/networkservice.cpp:996-1003 | the pruning loop computes Prune |
| NetworkServices.DispatchEntries | src/lib/eventservice/net/networkservice.cpp:1055-1113 | the dispatch loop computes Dispatch |
| FileHandler.HexValue | src/lib/eventservice/http/file_handler.cpp:97-98 | a hex digit of either case has a value below 16 |
| FileHandler.HexPair | src/lib/eventservice/http/file_handler.cpp:97-98 | what a hex extraction from the two characters after '%' yields, always below 256: leading whitespace is skipped and a '+' or '-' sign is taken, the negative value wrapping to a byte; "0x" alone fails; otherwise the value of the leading one or two hex digits, nothing when the first is not one |
| FileHandler.HexPairFails | src/lib/eventservice/http/file_handler.cpp:97-98 | the extraction fails exactly for whitespace or a sign before a non-digit, for "0x" or "0X", and for a first character that is neither whitespace, a sign nor a hex digit |
| FileHandler.SignedEscapes | src/lib/eventservice/http/file_handler.cpp:97-99 | "%" then whitespace and a digit decodes to the digit's byte, "%+h" too, "%-h" to the byte of minus the digit; "% 5" is byte 5 and "%-1" byte 255 |
| FileHandler.HexDigit | src/lib/eventservice/http/file_handler.cpp:97-98 | the upper-case digit of n reads back as n |
| FileHandler.UrlDecode | src/lib/eventservice/http/file_handler.cpp:90-116 | the decoding loop returns false exactly when UrlDecoded fails, and otherwise its output, escapes decoded as HexPair says |
| FileHandler.DecodeAppend | src/lib/eventservice/http/file_handler.cpp:93-114 | decoding a text that ran to its end, then more text, decodes the two pieces in turn |
| FileHandler.QueryNeverDecoded | src/lib/eventservice/http/file_handler.cpp:109-110 | after a path that decodes to its end, a '?' stops decoding: the query never reaches the output |
| FileHandler.ShortEscapeFails | src/lib/eventservice/http/file_handler.cpp:94-106 | a '%' with fewer than two characters after it makes decoding fail |
| FileHandler.BadEscapeFails | src/lib/eventservice/http/file_handler.cpp:97-103 | a '%' followed by a pair the hex extraction rejects (whitespace or a sign before a non-digit, "0x", or a first character that is neither whitespace, sign nor digit) makes decoding fail |
| FileHandler.SingleSteps | src/lib/eventservice/http/file_handler.cpp:94-113 | a character other than '%', '+', '?' decodes to itself, '+' to a space, "%hh" to the byte hh |
| FileHandler.EncodeCharDecodes | src/lib/eventservice/http/file_handler.cpp:94-113 | one percent-encoded character (section 2.1 of RFC 3986) decodes back to itself |
| FileHandler.DecodeEncode | src/lib/eventservice/http/file_handler.cpp:90-116 | decoding inverts percent-encoding for every octet string |
| FileHandler.LastIndexOf | src/lib/eventservice/http/file_handler.cpp:56-57 | the last position of the character, with none after it, or none at all |
| FileHandler.LastIndexOfAt | src/lib/eventservice/http/file_handler.cpp:56-57 | a position holding c with no c after it is what LastIndexOf finds |
| FileHandler.ExtensionIsLastComponent | src/lib/eventservice/http/file_handler.cpp:55-61 | an extension holds neither '.' nor '/', and a non-empty one follows a '.' at the end of the path |
| FileHandler.BadRequestExactly | src/lib/eventservice/http/file_handler.cpp:36-48 | a request is refused iff its URL fails to decode or the path is empty, relative or holds ".." |
| FileHandler.ServedPathSafe | src/lib/eventservice/http/file_handler.cpp:43-53 | a served path is absolute and holds no "..", even after "index.html" is added |
| FileHandler.DirectoryServesIndex | src/lib/eventservice/http/file_handler.cpp:50-61 | a path ending in '/' is served as its index.html with extension html and type text/html |
| FileHandler.IndexExtension | src/lib/eventservice/http/file_handler.cpp:50-61 | a directory path with index.html added has the extension html, whose type is text/html |
| FileHandler.ServedHeaders | src/lib/eventservice/http/file_handler.cpp:77-83 | three headers: Content-Length the decimal content size (it parses back), Cache-Control max-age=3600, Content-Type from the extension |
| FileHandler.HandleRequest | src/lib/eventservice/http/file_handler.cpp:28-88 | a bad URL or path gives the 400 stock reply, a missing file the 404 stock reply, and otherwise status ok, the file appended to the content, and the three served headers |
| HttpQuery.Find | src/lib/eventservice/net/asynchttpsocket.cpp:309-316 | the first position at or after i holding c, or the end |
| HttpQuery.FindFacts | src/lib/eventservice/net/asynchttpsocket.cpp:309-316 | nothing before the position found holds c, and c is at it unless it is the end |
| HttpQuery.FindUnique | src/lib/eventservice/net/asynchttpsocket.cpp:309-316 | any position with those facts is the one found |
| HttpQuery.ParserRequestURL | src/lib/eventservice/net/asynchttpsocket.cpp:301-321 | inserts the pairs of the query, left to right, into the map, an existing key keeping its value |
| HttpQuery.ScanPair | src/lib/eventservice/net/asynchttpsocket.cpp:306-318 | one round reads the key up to '=', skips it, reads the value up to '&', skips it |
| HttpQuery.ScanKey | src/lib/eventservice/net/asynchttpsocket.cpp:309-312 | the key is the text from i up to the next '=' or the end |
| HttpQuery.ScanValue | src/lib/eventservice/net/asynchttpsocket.cpp:314-317 | the value is the text from i up to the next '&' or the end; nothing once past the end |
| HttpQuery.SplitFromStep | src/lib/eventservice/net/asynchttpsocket.cpp:305-320 | one round of the split: the pair at i, then the pairs after its '&' |
| HttpQuery.EmptyQuery | src/lib/eventservice/net/asynchttpsocket.cpp:305 | an empty query gives no pairs and no entries |
| HttpQuery.HeadSeparated | src/lib/eventservice/net/asynchttpsocket.cpp:309-317 | the pair read at a position has no '=' in its key and no '&' in its value |
| HttpQuery.PairsSeparated | src/lib/eventservice/net/asynchttpsocket.cpp:305-320 | no key contains '=' and no value contains '&' |
| HttpQuery.NoEqualsIsOneKey | src/lib/eventservice/net/asynchttpsocket.cpp:309-318 | a segment with no '=' after it becomes one key, the rest of the input, with an empty value |
| HttpQuery.HeadAt | src/lib/eventservice/net/asynchttpsocket.cpp:309-317 | text reading key '=' value then '&' or the end is read as exactly that pair |
| HttpQuery.PairInText | src/lib/eventservice/net/asynchttpsocket.cpp:309-317 | a pair written after a prefix and before nothing or an '&' sits at that prefix's length |
| HttpQuery.TwoPairsText | src/lib/eventservice/net/asynchttpsocket.cpp:305-320 | the text "k1=v1&k2=v2" holds its two pairs where they are written |
| HttpQuery.TwoPairsHeads | src/lib/eventservice/net/asynchttpsocket.cpp:305-320 | the two pairs of "k1=v1&k2=v2" start and end where written |
| HttpQuery.TwoPairsSplit | src/lib/eventservice/net/asynchttpsocket.cpp:305-320 | a text whose two pairs end where it ends splits into exactly those |
| HttpQuery.TwoPairs | src/lib/eventservice/net/asynchttpsocket.cpp:301-321 | "k1=v1&k2=v2" with distinct keys gives exactly the entries k1:v1 and k2:v2 |
| HttpQuery.FirstWith | src/lib/eventservice/net/asynchttpsocket.cpp:319 | the first pair with the key, with no earlier one |
| HttpQuery.InsertAllFirstWins | src/lib/eventservice/net/asynchttpsocket.cpp:319 | map::insert keeps an existing key's value and adds the first value for a new key: the first value wins |
| HttpQuery.ParamIsFirstValue | src/lib/eventservice/net/asynchttpsocket.cpp:319 | a parameter read from a parsed query is the value of the key's first pair, or empty when it never occurs |
| Replies.NatToString | src/lib/eventservice/http/reply.cpp:259 | the Content-Length value is a numeral of decimal digits without a leading zero |
| Replies.DecimalRoundTrip | src/lib/eventservice/http/reply.cpp:259 | reading the Content-Length numeral back gives the content size |
| Replies.DecimalInjective | src/lib/eventservice/http/reply.cpp:259 | different sizes give different Content-Length values |
| Replies.StatusOfKnown | src/lib/eventservice/http/reply.cpp:54-87 | each listed status enumerator selects its own code and reason phrase |
| Replies.StatusOfUnknown | src/lib/eventservice/http/reply.cpp:88-89 | any other status value falls through to the 500 entry |
| Replies.CodesThreeDigits | src/lib/eventservice/http/reply.h:50-67 | every status code in the enumeration has three decimal digits |
| Replies.StatusLineParses | src/lib/eventservice/http/reply.cpp:21-91 | the status line reads back as "HTTP/1.0 ", the code (500 for an unknown status), a space, the reason of that code, CRLF |
| Replies.LineShape | src/lib/eventservice/http/reply.cpp:21-52 | where version, code, reason and CRLF sit in a line with a three-digit code |
| Replies.UnknownStatusLine | src/lib/eventservice/http/reply.cpp:88-89 | every unknown status gets the same line as 500 |
| Replies.StockBodyShape | src/lib/eventservice/http/reply.cpp:135-249 | the stock body is empty exactly for 200 and is otherwise an HTML page |
| Replies.StatusOfOk | src/lib/eventservice/http/reply.cpp:56-57 | only the ok status selects the 200 entry |
| Replies.StockPageShape | src/lib/eventservice/http/reply.cpp:136-210 | every stock page opens with its html tag |
| Replies.UnknownStockBody | src/lib/eventservice/http/reply.cpp:246-247 | an unknown status gets the 500 page |
| Replies.NoContentBodyDeparts | src/lib/eventservice/http/reply.cpp:146-150 | the 204 page's heading is not the code and reason its title names |
| Replies.WithPublicHeaders | src/lib/eventservice/http/reply.cpp:108-119 | after the public-header step some header carries a public header's name |
| Replies.PublicHeadersIdempotent | src/lib/eventservice/http/reply.cpp:108-119 | the step adds two headers exactly when neither name is present, so repeating it changes nothing |
| Replies.HeaderLinesAppend | src/lib/eventservice/http/reply.cpp:123-127 | the header lines of a concatenation are the lines of each part in turn |
| Replies.PublicHeaderLines | src/lib/eventservice/http/reply.cpp:116-127 | added public headers are serialised last, origin then connection |
| Replies.FindPublicHeader | src/lib/eventservice/http/reply.cpp:108-115 | the scan finds a header exactly when one is named like a public header |
| Replies.Render | src/lib/eventservice/http/reply.cpp:121-130 | the output is the status line, each header as name, ": ", value and CRLF, an empty line, then the content |
| Replies.Reply.constructor | src/lib/eventservice/http/reply.h:48-72 | a reply holds the given status, headers and content |
| Replies.Reply.ToString | src/lib/eventservice/http/reply.cpp:107-131 | adds the public headers when missing, keeps status and content, and returns the serialised reply |
| Replies.Reply.StockReply | src/lib/eventservice/http/reply.cpp:253-263 | a fresh reply with the status, its stock body and the stock headers |
| Replies.StockHeaders | src/lib/eventservice/http/reply.cpp:257-261 | three headers: Content-Length whose value parses to the body length, Content-Type text/html, and an empty third |
| Replies.StockReplyGetsPublicHeaders | src/lib/eventservice/http/reply.cpp:108-119 | serialising a stock reply appends both public headers after its three |
| Replies.GetReqParam | src/lib/eventservice/http/reply.cpp:265-271 | the value stored under the key, or the empty string when the key is absent |
| MimeTypes.FindType | src/lib/eventservice/http/mime_types.cpp:37-45 | the type of the first mapping whose extension equals the argument, else text/plain |
| MimeTypes.ExtensionsDistinct | src/lib/eventservice/http/mime_types.cpp:19-35 | no extension appears twice in the table |
| MimeTypes.TableEntriesMap | src/lib/eventservice/http/mime_types.cpp:19-45 | each listed extension maps to its own type |
| MimeTypes.UnknownIsPlain | src/lib/eventservice/http/mime_types.cpp:44 | an extension outside the table maps to text/plain |
| MimeTypes.ResultIsKnownType | src/lib/eventservice/http/mime_types.cpp:37-45 | the result is one of the table's types or text/plain |
| MimeTypes.CaseSensitive | src/lib/eventservice/http/mime_types.cpp:39 | matching is exact: "JPG" and "" are unknown while "jpg" is image/jpeg |
| MimeTypes.NotListed | src/lib/eventservice/http/mime_types.cpp:20-33 | an empty string, or one not starting with a lower-case letter, is not in the table |
| MimeTypes.LowerCaseExtensions | src/lib/eventservice/http/mime_types.cpp:20-33 | every extension in the table is non-empty and starts with a lower-case letter |
| HandlerManagers.SetDefault | src/lib/eventservice/http/handlermanager.cpp:23-30 | setting succeeds exactly when no default is set yet, and an existing default is kept |
| HandlerManagers.HandlerManager.constructor | src/lib/eventservice/http/handlermanager.cpp:16-17 | a new manager has no default and no registered paths |
| HandlerManagers.HandlerManager.SetDefualtHandler | src/lib/eventservice/http/handlermanager.cpp:23-30 | the default and the result follow SetDefault; the routing table is untouched |
| HandlerManagers.HandlerManager.AddRequestHandler | src/lib/eventservice/http/handlermanager.cpp:32-42 | succeeds exactly when the path was unregistered; the table becomes AddHandler of the old one |
| HandlerManagers.HandlerManager.OnNewRequest | src/lib/eventservice/http/handlermanager.cpp:44-53 | the request goes to the handler registered under exactly its URL, else to the default |
| HandlerManagers.DefaultSetOnce | src/lib/eventservice/http/handlermanager.cpp:23-30 | once a default is set, later attempts fail and keep it |
| HandlerManagers.AddNewPath | src/lib/eventservice/http/handlermanager.cpp:39-41 | registering a new path adds exactly that key with the handler and keeps the rest |
| HandlerManagers.AddExistingPath | src/lib/eventservice/http/handlermanager.cpp:34-38 | registering a taken path changes nothing |
| HandlerManagers.RegisteredPathDispatches | src/lib/eventservice/http/handlermanager.cpp:32-53 | after a registration the registered URL reaches the first handler registered for it, others dispatch as before |
| HandlerManagers.OnlyExactMatch | src/lib/eventservice/http/handlermanager.cpp:44-53 | registrations under other paths never change where a URL dispatches |
| DpClients.RemovedFacts | src/lib/eventservice/dp/dpclient.cpp:137-146 | erasing a client that is absent changes nothing; erasing a present one shortens the list by one and adds nothing |
| DpClients.RemovedMultiset | src/lib/eventservice/dp/dpclient.cpp:145 | erasing a present client takes exactly one occurrence out of the list |
| DpClients.RemovedNoDuplicates | src/lib/eventservice/dp/dpclient.cpp:126-146 | in a duplicate-free list, erasure leaves no trace of the client and no duplicates |
| DpClients.RemoveUndoesAdd | src/lib/eventservice/dp/dpclient.cpp:126-146 | removing a client just added restores the list |
| DpClients.DpMessage.constructor | src/lib/eventservice/dp/dpclient.h:53-58 | a message holds its type, method name, session id and request buffer |
| DpClients.DpClientImpl.constructor | src/lib/eventservice/dp/dpclient.cpp:50-55 | a new client listens for no method and has nothing posted |
| DpClients.DpClientImpl.ListenMessage | src/lib/eventservice/dp/dpclient.cpp:86-89 | the method name joins the listened set; nothing is posted |
| DpClients.DpClientImpl.RemoveMessage | src/lib/eventservice/dp/dpclient.cpp:91-94 | the method name leaves the listened set; nothing is posted |
| DpClients.DpClientImpl.HandleDpMessage | src/lib/eventservice/dp/dpclient.cpp:101-110 | the message is posted to this client exactly when it listens for the message's method |
| DpClients.DpClientImpl.SendDpMessage | src/lib/eventservice/dp/dpclient.cpp:223-235 | a fresh MESSAGE with the name, session and data is posted to every other client listening for the name, and the send reports success |
| DpClients.DpClientImpl.SendDpRequest | src/lib/eventservice/dp/dpclient.cpp:237-260 | a fresh REQUEST is posted to the first other listening client only; success exactly when one exists and the reply signal arrived |
| DpClients.DpClientImpl.SendDpReply | src/lib/eventservice/dp/dpclient.cpp:79-84 | the message becomes a REPLY with its other fields kept, and the call succeeds |
| DpClients.FirstAccepting | src/lib/eventservice/dp/dpclient.cpp:162-171 | the position of the first client other than the sender that listens for the name, every earlier one refusing, or the list length when none does |
| DpClients.DpClientManager.constructor | src/lib/eventservice/dp/dpclient.cpp:121-122 | a new manager has no clients |
| DpClients.DpClientManager.AddDpClient | src/lib/eventservice/dp/dpclient.cpp:126-135 | the client is appended unless already registered; the list stays duplicate-free |
| DpClients.DpClientManager.RemoveDpClient | src/lib/eventservice/dp/dpclient.cpp:137-146 | the client's one occurrence is erased; it is no longer registered |
| DpClients.DpClientManager.ProcessDpMessage | src/lib/eventservice/dp/dpclient.cpp:148-158 | every client except the sender is offered the message once, and listeners receive it |
| DpClients.DpClientManager.ProcessDpRequest | src/lib/eventservice/dp/dpclient.cpp:160-172 | only the first listening client other than the sender receives the request; delivered exactly when there is one |
| DpClients.FirstAcceptingAt | src/lib/eventservice/dp/dpclient.cpp:162-171 | the first accepting position is where the scan stops: every client before it refuses and the one at it accepts |
| DpClients.EraseFirst | src/lib/eventservice/dp/dpclient.cpp:138-145 | the search-and-erase yields the list with the first occurrence of the client removed |
| DpClients.RemovedEnd | src/lib/eventservice/dp/dpclient.cpp:141-145 | where the search for the client ends: at the end nothing is erased, at a match exactly that position is |
| DpClients.RemovedStep | src/lib/eventservice/dp/dpclient.cpp:138-140 | a client that does not match stays in front of the rest of the erasure |
| Kvdb.SetAt | src/lib/filecache/server/kvdbservice.cpp:216-238 | changing one record keeps every tier's capacity and record count |
| Kvdb.AtSetAt | src/lib/filecache/server/kvdbservice.cpp:216-238 | changing the record at one position leaves every other position's record as it was |
| Kvdb.BuildTiers | src/lib/filecache/server/kvdbservice.cpp:87-121 | the tier-building loop yields each tier from its definition, all records free |
| Kvdb.InitialCache | src/lib/filecache/server/kvdbservice.cpp:76-121 | a new cache has at most four tiers of at most 1000 records, all free, and satisfies the cache invariant |
| Kvdb.Find | src/lib/filecache/server/kvdbservice.cpp:127-144 | a found position holds a valid record with the key |
| Kvdb.FindInTierFacts | src/lib/filecache/server/kvdbservice.cpp:134-141 | the scan of one tier's list stops at its first valid record with the key, or finds none |
| Kvdb.FindFromFacts | src/lib/filecache/server/kvdbservice.cpp:132-143 | the scan from a tier on stops at the first valid record with the key in scan order |
| Kvdb.FindFirst | src/lib/filecache/server/kvdbservice.cpp:127-144 | NodeFind returns the first valid record holding the key in scan order, and nothing exactly when no valid record holds it |
| Kvdb.FindUnique | src/lib/filecache/server/kvdbservice.cpp:127-144 | in a valid cache the record found is the only one holding the key |
| Kvdb.NodeFind | src/lib/filecache/server/kvdbservice.cpp:127-144 | the nested loop returns what Find specifies |
| Kvdb.Oldest | src/lib/filecache/server/kvdbservice.cpp:146-170 | a returned record lies in a tier whose capacity is at least the length |
| Kvdb.OldestInTierFacts | src/lib/filecache/server/kvdbservice.cpp:156-166 | what walking one tier's list yields: a free record ends the scan, otherwise the earliest strictly older valid record is kept |
| Kvdb.OldestFromFacts | src/lib/filecache/server/kvdbservice.cpp:153-169 | what the scan over the tiers from one on yields |
| Kvdb.SkipTier | src/lib/filecache/server/kvdbservice.cpp:154 | a tier whose capacity is below the length contributes nothing |
| Kvdb.FreeInTier | src/lib/filecache/server/kvdbservice.cpp:162-164 | a free record in an eligible tier ends the scan there |
| Kvdb.JoinTier | src/lib/filecache/server/kvdbservice.cpp:153-169 | the result of one tier followed by the later tiers is the result of the scan from that tier |
| Kvdb.OldestChoice | src/lib/filecache/server/kvdbservice.cpp:146-170 | NodeOldest returns the first free record of a large-enough tier when there is one; else the first valid record with the smallest access time, when that time is before now; else nothing |
| Kvdb.NodeOldest | src/lib/filecache/server/kvdbservice.cpp:146-170 | the nested loop returns what Oldest specifies |
| Kvdb.ForgetFacts | src/lib/filecache/server/kvdbservice.cpp:215-217 | invalidating the found record keeps the cache valid, leaves no valid record with the key and touches no other record |
| Kvdb.StoreFacts | src/lib/filecache/server/kvdbservice.cpp:233-239 | storing a key that no valid record holds, in a record large enough, keeps the cache valid and makes that record the one found |
| Kvdb.TouchFacts | src/lib/filecache/server/kvdbservice.cpp:191 | refreshing a record's access time keeps the cache valid and changes nothing else |
| Kvdb.FirstFit | src/lib/filecache/server/kvdbservice.cpp:222-226 | the index found is a tier large enough for the length, or past the last tier |
| Kvdb.FirstFitShape | src/lib/filecache/server/kvdbservice.cpp:222-226 | caches of the same shape have the same first large-enough tier, and past the end no tier is large enough |
| Kvdb.Target | src/lib/filecache/server/kvdbservice.cpp:219-232 | where Replace stores a value lies in a tier large enough for it |
| Kvdb.PlaceFacts | src/lib/filecache/server/kvdbservice.cpp:214-240 | after forgetting the key and storing the value where Target says, the cache is valid and the key is found with that value exactly when there was a target |
| Kvdb.ReplaceKeepsValid | src/lib/filecache/server/kvdbservice.cpp:172-266 | every Replace keeps the cache invariant, so at most one valid record holds any key, and keeps the shape |
| Kvdb.ReplaceSameRefreshes | src/lib/filecache/server/kvdbservice.cpp:187-193 | replacing a cached record with identical bytes succeeds, refreshes its time and changes no file and no other record |
| Kvdb.ReplaceCaches | src/lib/filecache/server/kvdbservice.cpp:214-240 | after a Replace with a non-empty value the key is cached with that value or not at all: never when no tier is large enough, always when the first large-enough tier has a record |
| Kvdb.ReplaceCachesSame | src/lib/filecache/server/kvdbservice.cpp:187-193 | a refreshed record is still the one found, with the same value, in a tier large enough |
| Kvdb.ReplaceCachesPlaced | src/lib/filecache/server/kvdbservice.cpp:214-240 | the caching half of ReplaceCaches for the path that invalidates and stores |
| Kvdb.ReplaceWritesFile | src/lib/filecache/server/kvdbservice.cpp:195-262 | a non-empty Replace succeeds exactly when the key's file already held the value uncached, or the file opens and the whole value is written; on success the file holds exactly the value; a failed open returns the open error and leaves the file alone; a short write returns the write error and leaves a strict prefix of the value in the file; other files are unchanged |
| Kvdb.ReplaceEmptyDeletes | src/lib/filecache/server/kvdbservice.cpp:242-249 | an empty value forgets the key and deletes its file, failing with the write error exactly when there was no file |
| Kvdb.RemoveForgets | src/lib/filecache/server/kvdbservice.cpp:273-292 | after Remove the key is neither cached nor on file, other records stay, the cache stays valid, and it fails exactly when there was no file |
| Kvdb.RemoveAfterReplace | src/lib/filecache/server/kvdbservice.cpp:172-292 | removing right after a Replace forgets the key again |
| Kvdb.CacheFacts | src/lib/filecache/server/kvdbservice.cpp:402-422 | after a missed lookup the file is cached where NodeOldest says and the cache stays valid |
| Kvdb.SeekBytesMeaning | src/lib/filecache/server/kvdbservice.cpp:359-425 | a successful lookup returns at most the buffer's capacity, a prefix of the cached value or of the file; a hit leaves the cache untouched; a miss caches the whole file |
| Kvdb.CString | src/lib/filecache/server/kvdbservice.cpp:444 | appending a buffer as a C string keeps a prefix of it, all of it when it has no zero byte |
| Kvdb.ChunksWithoutZero | src/lib/filecache/server/kvdbservice.cpp:462-473 | a file without zero bytes is appended whole |
| Kvdb.SeekStringMeaning | src/lib/filecache/server/kvdbservice.cpp:427-482 | a value without zero bytes comes back whole, from the cache (left untouched) or from the file; a miss fails exactly when there is no file |
| Kvdb.ClearForgetsAll | src/lib/filecache/server/kvdbservice.cpp:302-307 | after clearing no key is found, the shape is kept and the cache is valid |
| Kvdb.CompareChunks | src/lib/filecache/server/kvdbservice.cpp:202-210 | the chunked comparison reports equal exactly when file and value are equal |
| Kvdb.FirstFitIndex | src/lib/filecache/server/kvdbservice.cpp:222-226 | the loop stops at the first tier large enough, or at the tier count |
| Kvdb.ReadFile | src/lib/filecache/server/kvdbservice.cpp:404-415 | the chunked read yields the first n bytes for the caller and the whole file for the cache |
| Kvdb.ReadChunks | src/lib/filecache/server/kvdbservice.cpp:462-473 | the chunked read appends the file's chunks as C strings |
| Kvdb.ClearRecords | src/lib/filecache/server/kvdbservice.cpp:302-307 | the nested loop invalidates every record and nothing else |
| Kvdb.KvdbService.constructor | src/lib/filecache/server/kvdbservice.cpp:50-122 | clamps the tier count to 0..4 and each tier to at most 1000 free records; the cache is valid |
| Kvdb.KvdbService.Replace | src/lib/filecache/server/kvdbservice.cpp:172-266 | the result and the new cache and files are those of Replaced, including the open-failure and short-write paths, and the cache stays valid |
| Kvdb.KvdbService.Remove | src/lib/filecache/server/kvdbservice.cpp:273-292 | the result and the new cache and files are those of RemovedFrom, and the cache stays valid |
| Kvdb.KvdbService.Seek | src/lib/filecache/server/kvdbservice.cpp:359-425 | the result, data and new cache are those of SeekBytes; files are unchanged |
| Kvdb.KvdbService.SeekToString | src/lib/filecache/server/kvdbservice.cpp:427-482 | the result, string and new cache are those of SeekString; files are unchanged |
| Kvdb.KvdbService.ClearCache | src/lib/filecache/server/kvdbservice.cpp:294-307 | every record is invalidated, files are unchanged and the cache stays valid |
| Kvdb.Place | src/lib/filecache/server/kvdbservice.cpp:219-240 | stores the value where Target says |
| Kvdb.SeekStringValid | src/lib/filecache/server/kvdbservice.cpp:427-482 | a string lookup keeps the cache valid |
| Kvdb.StaleFileKept | src/lib/filecache/server/kvdbservice.cpp:204-209 | as written, a 1025-byte value differing from its file only in the last byte passes the comparison, so the stale file is kept |
| Kvdb.SeekOverrunsBuffer | src/lib/filecache/server/kvdbservice.cpp:398-423 | as written, a one-byte buffer receives two bytes from a two-byte file, and a 2048-byte file is cached as its first 1024 bytes |
| CacheServices.Dedup | src/lib/filecache/server/cacheservice.cpp:274-278 | the deduplication loop only erases stanzas: every stanza left was in the deque |
| CacheServices.EraseAt | src/lib/filecache/server/cacheservice.cpp:276 | erasing at an index shortens the deque by one, keeps the stanzas before it and shifts those after it down |
| CacheServices.FirstWithPath | src/lib/filecache/server/cacheservice.cpp:304-310 | the index of the first stanza caching the path, every earlier one caching another, or the deque length |
| CacheServices.FirstRecyclable | src/lib/filecache/server/cacheservice.cpp:505-516 | the index of the first saved stanza nobody else holds, every earlier one not recyclable, or the deque length |
| CacheServices.CachedService.constructor | src/lib/filecache/server/cacheservice.cpp:58-67 | a new service has an empty deque, no file-limit entries, index 0, and the pool gains cacheSize fresh stanzas |
| CacheServices.CachedService.ReplaceCachedFile | src/lib/filecache/server/cacheservice.cpp:272-280 | the deque becomes the index loop's deduplication of the path, then the new stanza at the back; the erased stanza goes to the back of the pool exactly when no caller, posted message or the new stanza still holds it |
| CacheServices.CachedService.AddFile | src/lib/filecache/server/cacheservice.cpp:229-258 | after deduplicating and appending, with an erased stanza nobody holds back in the pool, the stanza is posted for writing when cached and below the threshold, and otherwise marked saved; the call succeeds |
| CacheServices.CachedService.RemoveOutOfDataStanza | src/lib/filecache/server/cacheservice.cpp:484-517 | below capacity nothing changes; otherwise the first saved, unused stanza is dropped and, unless a posted message holds it, appended to the pool |
| CacheServices.CachedService.RemoveFile | src/lib/filecache/server/cacheservice.cpp:282-297 | the file is deleted; the first stanza with the path is dropped only when saved and unused, and then goes back to the pool unless a posted message holds it; the call succeeds |
| CacheServices.CachedService.SaveFile | src/lib/filecache/server/cacheservice.cpp:260-270 | fails exactly when the pool is empty even after the trim has handed back its stanza, changing nothing else; otherwise the front stanza of that pool gets the path and data and is added, the pool losing it and gaining any stanza the deduplication frees |
| CacheServices.CachedService.GetFile | src/lib/filecache/server/cacheservice.cpp:303-337 | a hit returns the first cached stanza's data and changes neither deque nor pool; a miss loads the file into a pooled stanza as ReadIntoCache says |
| CacheServices.CachedService.ReadIntoCache | src/lib/filecache/server/cacheservice.cpp:312-336 | a miss trims the deque, handing its stanza back, and takes the pool's front stanza: the file's data is returned and cached in it, saved, exactly when a stanza was free and the file exists; when the file is missing the stanza returns to the back of the pool and the deque is the trimmed one |
| CacheServices.CachedService.CheckFileLimit | src/lib/filecache/server/cacheservice.cpp:136-159 | the index wraps to 0 past the end and advances; the checked entry's file is removed when its uint32 size exceeds the limit |
| CacheServices.CachedService.InitFileLimitCheck | src/lib/filecache/server/cacheservice.cpp:161-223 | the parsed items with both fields are appended as entries, halved on 128M flash; the call succeeds exactly when the file opened and there is an entry |
| CacheServices.DedupLoop | src/lib/filecache/server/cacheservice.cpp:274-278 | the index loop computes Dedup |
| CacheServices.FindRecyclable | src/lib/filecache/server/cacheservice.cpp:505-516 | the scan stops at the first recyclable stanza |
| CacheServices.FindPath | src/lib/filecache/server/cacheservice.cpp:304-310 | the scan stops at the first stanza caching the path |
| CacheServices.LimitEntries | src/lib/filecache/server/cacheservice.cpp:199-213 | the loop over limit_checks yields FlcEntries |
| CacheServices.FirstRecyclableAt | src/lib/filecache/server/cacheservice.cpp:505-516 | the first recyclable index is where every earlier stanza is not recyclable and the one there is |
| CacheServices.FirstWithPathAt | src/lib/filecache/server/cacheservice.cpp:304-310 | the first index with the path is where every earlier stanza caches another path and the one there caches it |
| CacheServices.FlcEntriesStep | src/lib/filecache/server/cacheservice.cpp:199-213 | each item contributes its own entry before those of the later items |
| CacheServices.DedupNoMatch | src/lib/filecache/server/cacheservice.cpp:274-278 | with no stanza of the path left, deduplication changes nothing |
| CacheServices.DedupSingle | src/lib/filecache/server/cacheservice.cpp:274-278 | a single stanza with the path is erased at its index |
| CacheServices.ReplaceLeavesOne | src/lib/filecache/server/cacheservice.cpp:272-280 | with at most one stanza of the path beforehand, exactly one is left, the new one at the back, and no stanza of another path is lost |
| CacheServices.EraseKeepsUnique | src/lib/filecache/server/cacheservice.cpp:276 | erasing a stanza keeps the paths unique |
| CacheServices.ReplaceKeepsUnique | src/lib/filecache/server/cacheservice.cpp:272-280 | ReplaceCachedFile keeps the deque's paths unique |
| CacheServices.DedupSkipsAdjacent | src/lib/filecache/server/cacheservice.cpp:274-277 | of two adjacent stanzas with the path, the loop erases the first and skips the one that moves into its slot |
| CacheServices.DedupShorter | src/lib/filecache/server/cacheservice.cpp:274-278 | deduplication never lengthens the deque |
| CacheServices.SaveKeepsBound | src/lib/filecache/server/cacheservice.cpp:260-270 | while a recyclable stanza exists, SaveFile keeps the deque within cacheSize stanzas |
| CacheServices.TrimmedDropsRecyclable | src/lib/filecache/server/cacheservice.cpp:484-517 | trimming drops at most one stanza, nothing below capacity, and only a recyclable one |
| CacheServices.IndexAfterStep | src/lib/filecache/server/cacheservice.cpp:137-143 | the index after one more call is one CheckFileLimit step further |
| CacheServices.IndexAfterCompose | src/lib/filecache/server/cacheservice.cpp:137-143 | a + b calls are a calls followed by b calls |
| CacheServices.RotationFirstRound | src/lib/filecache/server/cacheservice.cpp:137-143 | from index 0 the first n calls check entries 0 to n - 1 in order |
| CacheServices.RotationPeriodic | src/lib/filecache/server/cacheservice.cpp:137-143 | after the first call the rotation repeats with period n, so each entry is checked once per n calls |
| CacheServices.FlcEntriesAppend | src/lib/filecache/server/cacheservice.cpp:199-213 | the entries of a concatenation are the entries of each part |
| CacheServices.FlcEntriesComplete | src/lib/filecache/server/cacheservice.cpp:199-213 | items with both fields map one to one onto entries, a positive limit halved on 128M flash |
| CacheServices.FlcEntriesSkipIncomplete | src/lib/filecache/server/cacheservice.cpp:200-204 | an item missing a field contributes no entry |
| CacheServices.CheckedRemovesOnlyLarge | src/lib/filecache/server/cacheservice.cpp:144-158 | one check removes at most the entry's file, exactly when its size truncated to uint32 exceeds the limit |
| CacheServices.CachedService.ReleaseDropped | src/lib/filecache/server/cachestanzapool.cpp:66-82 | a stanza that has left the deque is appended to the pool exactly when no caller and none of the given holders still shares it, as the deleter installed by TakeStanza does on the last release |
| CacheServices.CachedService.SaveTaken | src/lib/filecache/server/cacheservice.cpp:262-269 | after the trim: fails exactly when the pool is empty; otherwise the pool's front stanza, filled with the path and data, replaces any stanza of the path at the back of the deque |
| CacheServices.CachedService.FillAndAdd | src/lib/filecache/server/cacheservice.cpp:264-266 | the taken stanza gets the path and data and goes to the back of the deque, replacing the stanza of that path, which returns to the pool unless held; it is posted for writing below the threshold and marked saved otherwise |
| CacheServices.CachedService.LoadTaken | src/lib/filecache/server/cacheservice.cpp:320-336 | after the trim: the pool's front stanza receives the file when it exists and joins the deque; otherwise it goes to the back of the pool, the last owner having let go |
| CacheServices.CachedService.CacheRead | src/lib/filecache/server/cacheservice.cpp:322-331 | the file's bytes are read into the taken stanza, which is appended to the deque as saved with the pool unchanged |
| CacheServices.EraseDistinct | src/lib/filecache/server/cacheservice.cpp:276 | with unique paths, erasing a stanza removes exactly that stanza from the deque |
| CacheServices.DedupAccounts | src/lib/filecache/server/cacheservice.cpp:272-280 | deduplication loses no stanza: each is kept, handed back to the pool, or still held; with nothing held elsewhere the kept and handed-back counts add up to the old count |
| CacheServices.TrimAccounts | src/lib/filecache/server/cacheservice.cpp:484-517 | trimming loses no stanza: each is kept, handed back, or held by a posted message; with nothing posted the counts add up |
| CacheServices.FileAccounts | src/lib/filecache/server/cacheservice.cpp:282-297 | RemoveFile loses no stanza: each is kept, handed back, or held by a posted message; with nothing posted the counts add up |
| CacheServices.TrimRefillsPool | src/lib/filecache/server/cacheservice.cpp:497-516 | a full deque with a recyclable stanza no posted message holds hands exactly that stanza back to the pool |
| CacheServices.MissStaysMiss | src/lib/filecache/server/cacheservice.cpp:312-331 | a path no stanza caches stays uncached after the trim, so adding its stanza frees nothing |
| StanzaPools.CachedStanza.constructor | src/lib/filecache/server/cachestanzapool.cpp:88-93 | a fresh stanza has an empty path and data, is not saved and is held by nobody |
| StanzaPools.CachedStanza.SetPath | src/lib/filecache/server/cachestanzapool.h:56-58 | the path becomes the argument; data and flags are kept |
| StanzaPools.CachedStanza.SetData | src/lib/filecache/server/cachestanzapool.cpp:105-107 | the data becomes the argument; path and flags are kept |
| StanzaPools.CachedStanza.IsSaved | src/lib/filecache/server/cachestanzapool.cpp:100-103 | reports the saved flag |
| StanzaPools.CachedStanza.SaveConfimation | src/lib/filecache/server/cachestanzapool.cpp:109-113 | demands an unsaved stanza and leaves it saved, all else kept |
| StanzaPools.CachedStanza.ResetDefualtState | src/lib/filecache/server/cachestanzapool.cpp:115-122 | data cleared, path empty, not saved |
| StanzaPools.CachedStanzaPool.constructor | src/lib/filecache/server/cachestanzapool.cpp:43-44 | a new pool is empty |
| StanzaPools.CachedStanzaPool.TakeStanza | src/lib/filecache/server/cachestanzapool.cpp:50-64 | an empty pool yields null; otherwise the front stanza, reset and held by nobody, is removed and returned, first in first out |
| StanzaPools.CachedStanzaPool.RecyleStanza | src/lib/filecache/server/cachestanzapool.cpp:66-71 | a stanza outside the pool that nobody holds is reset and appended at the back; the pool stays a list of distinct free stanzas |
| StanzaPools.CachedStanzaPool.SetDefaultCachedSize | src/lib/filecache/server/cachestanzapool.cpp:73-78 | exactly n fresh, unsaved stanzas are appended after the existing ones |
| PrimeKey.Base62Position | src/third_part/encrypt/prime/prime_key.cpp:77-80 | the alphabet is 'A' to 'Z', '1' to '9', '0', then 'a' to 'z' |
| PrimeKey.Base62Char | src/third_part/encrypt/prime/prime_key.cpp:86 | each digest word gives the ASCII letter or digit at its residue modulo 62 |
| PrimeKey.ShortDigestToPrimeKey | src/third_part/encrypt/prime/prime_key.cpp:82-89 | exactly eight characters, character i the alphabet entry at digest word i modulo 62, all ASCII alphanumeric |
| PrimeKey.KeyDependsOnResidues | src/third_part/encrypt/prime/prime_key.cpp:82-89 | two digests give the same key exactly when their words agree modulo 62 |
| PrimeKey.Base62Injective | src/third_part/encrypt/prime/prime_key.cpp:77-79 | distinct positions of the alphabet hold distinct characters |
| PrimeKey.LowerByteMeaning | src/third_part/encrypt/prime/prime_key.cpp:93-103 | upper-case ASCII letters move up by 32 through the unsigned-char wrap of 'Z' - 'z'; every other byte stays; the result is never upper-case, so the map is idempotent |
| PrimeKey.ToLowercase | src/third_part/encrypt/prime/prime_key.cpp:91-111 | the first in_size output bytes are the lowered input bytes, even when input and output are the same array; the rest of the output is untouched |
| PrimeKey.LowercaseIdempotent | src/third_part/encrypt/prime/prime_key.cpp:91-103 | lowering twice is lowering once, and the length is kept |
| PrimeKey.Lowered | src/third_part/encrypt/prime/prime_key.cpp:94-103 | the lowered bytes have the input's length, each the byte map of its input byte |

## Left out

- System calls (`socket`, `bind`, `connect`, `send`, `recv`, `select`, `getsockopt`, `setsockopt`, address conversion) are not executed. Their results are inputs of type `SysResult`. `IsBlockingError` becomes the `blocking` flag of that input, because the header that defines it is not part of this model.
- The Windows code paths (`WSAEventSelect` waits, `FlagsToEvents`, `AsyncSocketImpl::OnMessage` posting) and the disabled epoll code in networkservice.cpp are not modelled. Only the POSIX `select` path is.
- Threads, `CritScope` mutexes and cross-thread wake-ups are not modelled: the model is single-threaded. The reply wait in `SendDpRequest` is the `signalled` input.
- `Base64::EncodeFromArray` is not part of this model. It is an uninterpreted `Encoder` function value.
- The `http_parser` callbacks in asynchttpsocket.cpp are not modelled; only `ParserRequestURL` is.
- The JSON parsing in `InitFileLimitCheck` is not part of this model. The parsed `limit_checks` array is the `parsed` input, and `None` means an empty or unparsable file. The flash size is the `flash128` input.
- MD5, `HmacMd5` and `GenerateVzenithPrimeKey` are not modelled. The digest comes from MD5, which is not part of this model; `GenerateVzenithPrimeKey` only composes `ToLowercase`, `HmacMd5` and `ShortDigestToPrimeKey`.
- Files are a map from name to bytes, and failures to open a file are inputs (`openFails`, `configOpens`), and so is the number of bytes a write stores (`written`). After a short write the file is taken to hold the first `written` bytes of the value; what a real C library has flushed by then may differ. Folder creation and copying (`FoldCreate`, `FoldCopy`, `FileCopy`, `Backup`, `Restore`), the directory-removal half of `KvdbService::Clear`, `iMakeDirRecursive`, `OnAsyncSaveFile` and the write-speed statistics of `CachedService::OnMessage` are not modelled.
- Clocks (`time(NULL)`) are the `now` parameter.
- Kvdb.KvdbService.constructor: the folder path and the `malloc` failure branches are not modelled, so every tier gets all its records.
- `shared_ptr` lifetimes are modelled by explicit state. `use_count() == 1` is the `inUse` flag, and a stanza posted for writing is held by the `posted` list. When the deque drops a stanza that neither a caller nor a posted message holds, the stanza is recycled into the pool at once, as the deleter would be on the last release. Stanzas that other owners release later (a caller letting go, or the message once `OnMessage` has written the file) are not modelled as coming back to the pool. Blocks are values, so the sharing of block handles that `AppendBuffer` and `AppendBlock` create is not captured.
- `MemBuffer::ReadString` and `MemBuffer::CopyString` (membuffer.cpp:178-197, 286-303) are not modelled. The block-level `ReadString` and `CopyString` are.
- `AsyncPacketSocket::OnAsyncSocketWriteEvent` is not modelled.
- `AsyncSocketImpl` error and option accessors (`GetError`, `SetError`, `SetOption`, `GetOption`) are not modelled.
- `DpClientManager::ProcessDpReply` is not modelled: it falls off its end without returning a value. The singleton and the client factory and registration wrappers are not modelled either.
- `KvdbService::DebugCacheShow`, `CachedService::Start` and `StartFileLimitCheckTimer` only log or post timers, and are not modelled.
- Logging is not modelled.
- NetworkServices.PhysicalSocket.SendBuffer: demands, through `SendsInRange`, that each `send` returns -1 or at most the block's length, as `send(2)` promises. On any other result the source loop would retry the same block forever.
- NetworkServices.SendBlocks: the same `SendsInRange` demand as `SendBuffer`.
- HttpQuery.ParserRequestURL: the source tests `req[i]` before `i < size` in both inner loops (asynchttpsocket.cpp:309, 314). It therefore reads `req[size]` and, when the last segment has no `'='`, `req[size + 1]`, past the end of the buffer. The model reads only inside the query. The pairs are the same, because the bound test stops either loop whatever those bytes hold, but the out-of-bounds read itself is not captured.
- HandlerManagers.HandlerManager.OnNewRequest: when no handler is registered under the URL and no default was set, the source calls `HandleRequest` through a null default handler (handlermanager.cpp:50-51), which is undefined behaviour. The model returns `Null` as the handler invoked and does not capture the crash.
- MemBuffers.MemBuffer.ReduceSize: the size is an unbounded integer, so subtracting more than it holds gives a negative size, where the source's `size_t` subtraction (membuffer.h:90-92) would wrap. Its only caller, `SendBuffer`, subtracts the bytes sent, which on a valid buffer never exceed the size.
- PacketSockets.AsyncPacketSocket.OnAsyncSocketReadEvent: demands that the buffered and arriving bytes together fit the `uint32` total, because it calls `AnalysisPacket`, which keeps that total. The source does not check this; past 4 GiB its total would wrap.
- NetworkServices.NetworkService.DispatchReady: callbacks are recorded rather than run, so the pass works on the registrations as they stood when it began. In the source, `OnEvent` runs during the pass and may remove, close or add dispatchers; the next entry is then examined as it stands at that moment (networkservice.cpp:1058-1066). The model takes callbacks never to change the registrations during a pass.
- NetworkServices.NetworkService.Cycle: dispatches through `DispatchReady`, under the same assumption that callbacks do not change the registrations during a pass.
- NetworkServices.NetworkService.Wait: repeats `Cycle`, under the same assumption. Changes a callback makes are not seen by the later passes either.
- PacketSockets.AsyncPacketSocket.AnalysisPacket: demands that the socket is still attached, which its only caller checks. It also demands that the buffered and arriving bytes together fit the `uint32` total the source keeps.

## Findings

| source | as written | input that shows it | evidently intended | confidence | as-written member | corrected member |
|---|---|---|---|---|---|---|
| src/lib/eventservice/net/asyncpacketsocket.cpp:172-190 | the running total less the 8-byte header is a `uint32` difference, so a total still below 8 wraps to about 4 billion. The frame is then taken as ending inside the current block, with a tail length larger than the block | nothing buffered, and an arriving buffer whose first block holds `'V','Z',0,1` and whose second holds `0,0,0,1,42`: after the first block the step splits with a tail of 9 bytes from a 4-byte block | keep walking blocks until the total reaches the header plus the payload, so the frame yields flag 1 and payload `[42]` | medium, not executed | PacketSockets.StepAsWrittenOverrunsBlock | PacketSockets.StepCorrectedSplitsInside |
| src/lib/filecache/server/kvdbservice.cpp:204-205 | every 1024-byte chunk read back from the file is compared with the first bytes of the value, not with the bytes at the chunk's offset | a 1025-byte value of 1024 zero bytes then a 1, against a file of 1025 zero bytes: the comparison passes and the stale file is kept | compare each chunk with the value at the same offset, and write the file unless the two are equal | high, not executed | Kvdb.StaleFileKept | Kvdb.CompareChunks |
| src/lib/filecache/server/kvdbservice.cpp:398-423 | the read loop copies whole 1024-byte chunks while fewer than `*length` bytes have been read. The caller's buffer receives the whole chunk, and the cached record is marked valid holding only the bytes read | a 1-byte buffer and a 2-byte file: 2 bytes are written and `*length` becomes 2. A 2048-byte file with a 1-byte buffer: the cache holds 1024 bytes as the key's value | give the caller at most its capacity and cache the whole file | high, not executed | Kvdb.SeekOverrunsBuffer | Kvdb.ReadFile |
