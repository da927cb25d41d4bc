# Verified model of jujube

jujube is a small C network library: a FastLZ codec, a pooled allocator over intrusive lists, a
growable byte buffer, a length-prefixed transport over non-blocking sockets, and a timeout sweep.
This project models those parts in Dafny and proves what they are for.

Where the C code updates something in place, so does the model: the codec writes output arrays and
back-patches its count byte, the lists rewire heap nodes, the allocator, the buffers, the streams and
the event table are classes. Each such method is proved equal to a function of its inputs, and the
promises of the library are then proved about those functions, for all inputs and all runs.

| file | models |
|---|---|
| `Bytes.dfy`, `LZ.dfy` | bytes, and what a list of literals and self-overlapping copies means |
| `FastlzFormat.dfy`, `FastlzRoundTrip.dfy` | the two block formats, the decoder over values, reading undoes writing |
| `FastlzParse.dfy`, `FastlzParseProofs.dfy` | which instructions the compressor chooses; their meaning and their size |
| `FastlzCompress.dfy`, `FastlzDecompress.dfy` | both directions in place, against the two above |
| `Fastlz.dfy` | the public functions and the theorems about them |
| `FastlzLayout.dfy`, `FastlzChoice.dfy` | the block format in plain numbers and whole decoder runs; what every round chooses and whole compressor runs, each without the functions proved against |
| `List.dfy` | circular lists on the heap, alone and in disjoint families |
| `MemState.dfy`, `MemRuns.dfy` | the allocator over values, and whole runs of it |
| `Mem.dfy` | the allocator in place, which keeps the run that led to its state |
| `Buf.dfy`, `Stream.dfy`, `Frame.dfy` | the byte queue, the socket loops, the frame |
| `Receive.dfy`, `Schedule.dfy` | frame reassembly over values, and what a schedule of events on a socket makes of it |
| `Client.dfy`, `Server.dfy` | the sending and the receiving callbacks, event after event |
| `Transport.dfy` | both ends and the network between them, from the queued body to do_work |
| `Event.dfy` | the timeout sweep |

How outside things appear:

- One compressor serves both levels, as in `fastlz.c`, which includes itself twice; the hash function is
  a parameter, so every theorem holds for any hash. `Fastlz.HashFunction` is the one the source uses.
- Input buffers are `const` and may not overlap the output; they are sequences. Pointers are indices.
- The decoder does not test its read pointer inside a match. Its memory is therefore the block followed
  by arbitrary bytes, and a read behind all of them is the outcome `RanOff`. As the bytes behind are of
  any number, this covers every execution that comes to an end.
- `uint32_t` wrap-around is modelled where it can occur, in the length chain of the level-2 decoder.
- A socket is any finite script of results of `read` and `write`; when it is over, the socket blocks. Every
  stream has a socket of its own. The network is any way to cut what was sent into such a script.
- `assert` in the source is a precondition where it checks the caller (`mem_alloc`, `buf_pick`), a proved
  assertion where it checks the allocator, and the outcome `Crashed` at `server.c:166`, where ordinary
  network traffic can trip it.

Where the code and its documentation differ, the code is followed: `fastlz.h` asks for at least 16 input
bytes, the code takes any number; `fastlz.h` calls decompression memory safe, which holds for all writes
but not for reads (`Fastlz.ReadsBehindBlock`; `Fastlz.ReadSafety` says exactly which bytes must follow a
block); the level-2 compressor, too, can hash one byte behind its input (`Fastlz.OverReads`, and
`Fastlz.LeavesOne` says exactly when).

## Model

| member | source | states |
|---|---|---|
| Fastlz.RoundTrip | fastlz.c:146-413 | for every input of 1 to 2^31-1 bytes, both levels, any hash, any bytes behind the block: decompression gives back exactly the input if it fits in maxout, and otherwise returns 0 having written only a prefix of it |
| Fastlz.DocumentedBuffer | fastlz.h:47-51 | a block is at most n + ceil(n/32) bytes, all writes stay below n + n/32 + 1, and the documented buffer (5% larger, at least 66 bytes) always holds that |
| Fastlz.Dispatch | fastlz.c:147-159 | the top three bits of a block name the decoder that undoes it; short level-2 blocks are unmarked and go to the level-1 decoder |
| Fastlz.BeyondIrrelevant | fastlz.c:369-373 | the block depends on the input alone, although level 2 may hash the byte behind it |
| Fastlz.StepBeyond | fastlz.c:369-373 | level 1 never looks behind the input, level 2 not on fewer than 8204 bytes; the byte behind decides a table entry in exactly the rounds of LooksBehind, and every other round is the same whatever that byte is |
| Fastlz.LeavesOne | fastlz.c:231-300 | a match leaves a single input byte, so that the hash behind it takes in the byte beyond, if and only if it is a far level-2 match that starts 13 bytes before the end, where no run starts, and still agrees twelve bytes on |
| Fastlz.OverReads | fastlz.c:369-373 | the bound is sharp: for a concrete input of 8204 bytes the level-2 compressor, with its real hash function, hashes the byte behind it in its second round |
| Fastlz.CompressAuto | fastlz.c:135-144 | inputs of fewer than 65536 bytes get the level-1 block, others the level-2 block, visible in the top bits of the first byte; in place, nothing touched beyond the bound |
| Fastlz.MixLow | fastlz.c:102-107 | for all bytes, the low eight bits of the hash are the first two bytes and their shifts combined |
| Fastlz.MixHigh | fastlz.c:102-107 | the high five are the last two bytes and the second shifted |
| FastlzLayout.Codes | fastlz.c:90-126 | which instructions have a code at each level, in numbers |
| FastlzLayout.LiteralLayout | fastlz.c:302-308 | a literal run is written as its length less one and its bytes |
| FastlzLayout.MatchLayout | fastlz.c:317-367 | every byte of every match code at both levels: three length bits and five distance bits, the further length, and the low distance byte or, from distance 8192 on, the escape 31, 255 and sixteen bits, high byte first |
| FastlzLayout.CodeRead | fastlz.c:427-455 | bytes laid out as a match of distance d and length n are read as just that, for all codes, canonical or not |
| FastlzLayout.CodeFound | fastlz.c:427-455 | what is read as a match is laid out as one, and the decoder leaves memory only where no code is |
| FastlzLayout.DecodeRun | fastlz.c:415-533 | decoding is a run of literal runs and copies in the plain layout, from the empty output to the end of the block, to the first instruction that writes or reads too much or reaches before the output, or out of memory |
| FastlzLayout.LevelRead | fastlz.c:146-159 | a first byte below 32 means level 1, below 64 level 2, any other is rejected without output |
| FastlzChoice.StepExact | fastlz.c:212-388 | a round takes a match if and only if a run starts or the candidate of the hash table is acceptable; the match goes on exactly as long as the bytes repeat, up to the stated cap near the end; literals, pieces and all table entries are given |
| FastlzChoice.ParseRun | fastlz.c:174-413 | the instructions of a whole input come from a run of such rounds, from two pending literals and a table of zeros to the last byte |
| FastlzChoice.SplitExact | fastlz.c:351-366 | level 2 writes any match whole; level 1 cuts off as many pieces of 262 as leave 3 to 264 |
| FastlzChoice.EqualBytes | fastlz.c:174-413 | the compressor compresses: n equal bytes take at most 10 bytes and three per 262 at level 1, exactly 10 and one per 255 at level 2, for any hash |
| Fastlz.CompressLevel | fastlz.c:161-170 | levels 1 and 2 write their block and return its size as an int; any other level writes nothing and returns 0 |
| Fastlz.IntSize | fastlz.c:412 | the int returned is the size if and only if the size fits one, which it does for every input of up to 2082408384 bytes |
| Fastlz.DecompressSafe | fastlz.h:58-68 | on arbitrary memory: never more than maxout bytes written, every copy starts within the bytes already written, 0 is returned exactly on rejection, and no byte outside memory is read when safe bytes follow the block |
| Fastlz.DecodeFromSafe | fastlz.c:425-530 | the same from any instruction on: what has been written is the meaning of a list of instructions that only reach back, and a finished decoding has grown |
| Fastlz.ReadSafety | fastlz.c:430-455 | the decoder stays in memory for every block and every output size if and only if the bytes behind the block are safe: any two at level 1; at level 2 any run of 255, then a byte other than 255 and one more, and two more still if that one is 255 |
| Fastlz.PublicReadSafety | fastlz.c:146-159 | the same for the public entry, over all blocks whose first byte names the level |
| Fastlz.UnsafeOpening | fastlz.c:430-455 | at both levels one block of three bytes runs off every memory that is not safe |
| Fastlz.ReadsBehindBlock | fastlz.c:436-439 | concrete blocks for which it does read both bytes behind, and what it then answers |
| LZ.CopyMatchReproduces | fastlz.c:470-511 | a match of distance d reproduces x[p..q] if and only if x[p..q] repeats with period d |
| LZ.CopyMatchPeriodic | fastlz.c:484-510 | the self-overlapping copy keeps what was there and continues it with period d |
| LZ.CopyMatchCompose | fastlz.c:351-357 | copying in two pieces is copying once, so a match may be split |
| FastlzFormat.MatchCodeRoundTrip | fastlz.c:317-367 | for every length and legal distance, the decoder reads the written code back as that distance and byte count and stops right behind it; no near match reads as the far escape |
| FastlzFormat.ChainRoundTrip | fastlz.c:325-327 | a 255-chain reads back as the length it was written from, as long as the sum fits 32 bits |
| FastlzRoundTrip.DecodeStep | fastlz.c:425-530 | on an encoded list the decoder either applies the next instruction and moves to its successor or stops before writing too much |
| FastlzRoundTrip.DecodeSuffix | fastlz.c:425-530 | from any instruction of an encoded list on, the decoder finishes with the meaning of the list exactly when it fits |
| FastlzRoundTrip.DecompressEncoded | fastlz.c:146-159 | the same for whole blocks through the public entry, marker included |
| FastlzParse.AddMatch | fastlz.c:263-373 | after a match the cursor has advanced by at least 3, at least one input byte is left, and the table names only positions already passed |
| FastlzParse.Step | fastlz.c:212-388 | every round of the main loop advances, leaves at least one byte, and keeps every table entry below the cursor |
| FastlzParseProofs.MatchEndExact | fastlz.c:269-300 | extension covers only bytes that repeat, and ends at the first that does not unless the bound ends it |
| FastlzParseProofs.ProbeExact | fastlz.c:236-258 | a candidate is taken if and only if it lies in the window and its first 3 (far: 5) bytes agree |
| FastlzParseProofs.SplitMatchMeaning | fastlz.c:351-366 | the pieces of a match of any length mean the whole match, are all expressible, and cost at least one byte less than they cover |
| FastlzParseProofs.StepGood | fastlz.c:212-388 | each round keeps the back-patching invariant: all but the pending literals is encoded, starts with a literal run, means the input so far, and is at most one byte per 32 ahead |
| FastlzParseProofs.ParseCorrect | fastlz.c:174-413 | the instructions chosen for a whole input mean that input, refer only backwards, begin with a literal run, and take at most n + ceil(n/32) bytes |
| FastlzCompress.ExtendRun | fastlz.c:269-276 | the run loop, which compares one place behind the cursor, finds the same end as plain match extension |
| FastlzCompress.ExtendCopy | fastlz.c:277-300 | eight unrolled comparisons and a bounded tail find the same end as plain match extension |
| FastlzCompress.WriteMatch | fastlz.c:317-367 | the bytes written for a match are the code of its pieces, appended to the output, nothing behind them touched |
| FastlzCompress.CloseLiterals | fastlz.c:302-308 | patching the count, or dropping the empty slot, turns the open run into a complete instruction |
| FastlzCompress.EmitLiteral | fastlz.c:380-387 | one more pending literal in place; a full run needs no patch because its slot already says 32 |
| FastlzCompress.EmitMatch | fastlz.c:260-378 | a whole match round in place: output, table and cursor become those of the chosen match |
| FastlzCompress.Round | fastlz.c:212-388 | one round on output buffer and hash table equals one step of the choice |
| FastlzCompress.Compress | fastlz.c:174-413 | the output is exactly the block of the input, and nothing at or beyond n + n/32 + 1 is touched |
| FastlzDecompress.CopyRun | fastlz.c:470-477 | the run fill is the copy of distance 1 |
| FastlzDecompress.CopyBytes | fastlz.c:483-510 | the byte loop is the self-overlapping copy |
| FastlzDecompress.CopyWords | fastlz.c:489-507 | the odd byte and the 16-bit moves, four at a time, are the same copy for every distance of at least 2 |
| FastlzDecompress.ReadMatch | fastlz.c:434-455 | the match fields are read as the format says, or the memory ends |
| FastlzDecompress.DecompressLevel | fastlz.c:415-533 | on any memory the return value, the bytes written and the bytes left alone are those of the decoder over values, with or without 16-bit copies, never at or beyond maxout |
| FastlzDecompress.DecompressBlock | fastlz.c:146-159 | the same for the public entry; unknown levels are rejected |
| List.Insert | list.h:23-31 | a node put between two neighbours of a ring gives the ring with the node in that place |
| List.Add | list.h:34-37 | list_add prepends |
| List.AddTail | list.h:40-43 | list_add_tail appends |
| List.Del | list.h:53-65 | list_del removes just that node and clears its links |
| List.DelFrom | list.h:60-65 | deleting from one ring of a disjoint family leaves all the others as they were |
| List.AddTo | list.h:34-37 | the same for list_add |
| List.AddTailTo | list.h:40-43 | the same for list_add_tail |
| List.NeighboursUnique | list.h:18-31 | on a ring the two nodes around a gap occur nowhere else, so rewiring them breaks no other link |
| List.IsEmpty | list.h:83-86 | the head points to itself if and only if the ring holds no node |
| MemState.SizeClassExact | mem.c:95-99 | the class search succeeds exactly up to one megabyte, and the class found holds the size |
| MemState.FirstFitLeast | mem.c:95-98 | it finds the least class that fits |
| MemState.Capacities | mem.c:11-29 | the seventeen capacities are the powers of two from 16 to 1048576 |
| MemState.TightFit | mem.c:95-105 | every request up to a megabyte gets a block that holds it and, above 16 bytes, is smaller than twice its size |
| Mem.MemPools.constructor | mem.c:65-85 | seventeen empty pools, an empty used list, all counters 0 |
| Mem.MemPools.Alloc | mem.c:88-146 | a block not live before, cleared, with room for the size asked but, above 16 bytes, for less than twice of it, the fence 0xf behind that, comes to the front of the used list: fresh from malloc when its pool is empty, else the first of the pool; the counters of its class alone change, by one; no other block's bytes change; all invariants are kept and the move is one more of the run |
| Mem.MemPools.Free | mem.c:149-179 | the block leaves the used list for the end of the pool of its own class, found from the possibly stale obj_size; the counters of that class alone change, by one; fence and refcount assertions hold; no block's bytes change; all invariants are kept and the move is one more of the run |
| Mem.MemPools.ClientWrite | mem.c:163 | a client that writes within its capacity breaks neither the fence nor another block |
| Mem.MemPools.Regrow | buf.c:40-49 | the steps of buf_realloc on the pools: the queue is copied into a larger block, the old one is freed, no other block changes, all invariants are kept |
| Mem.MemPools.BlocksDisjoint | mem.c:88-146 | no block is live twice and no two live blocks share bytes |
| Mem.MemPools.CheckModCount | mem.c:226-249 | the count is the number of live blocks that carry the owner's name; the size reported is the first one other than 0 among them in list order, unless the caller passed one in |
| MemState.GrownAccounts | mem.c:103-125 | malloc keeps blocks_free and blocks_used equal to the pool length and the live count of each class, and their sum equal to the mallocs |
| MemState.ReusedAccounts | mem.c:127-145 | so does reuse |
| MemState.FreedAccounts | mem.c:170-177 | so does free, wherever in the used list the block was |
| Mem.MemPools.NoBlockLost | mem.c:65-179 | after any execution of alloc and free since mem_module_init, every block ever malloc'ed is on exactly one list exactly once, none has changed its class |
| MemRuns.RunConserves | mem.c:88-179 | the same between any two states of a run, and the malloc counts never fall |
| MemRuns.MoveConserves | mem.c:88-179 | each move keeps the multiset of all listed blocks equal to the blocks ever malloc'ed |
| MemRuns.WaitsItsTurn | mem.c:127-174 | over any run, however frees, mallocs and reuses of all classes interleave, a pooled block moves up one place with each reuse of its class and with nothing else |
| MemRuns.FirstFreedFirstReused | mem.c:127-174 | so blocks of a class come out in the order in which they were freed |
| Buf.Buffer.Pick | buf.c:30-38 | the oldest bytes leave the queue, by an overlapping move in place |
| Buf.Buffer.Realloc | buf.c:40-49 | a larger block with the same queue |
| Buf.Buffer.Put | buf.c:51-61 | the bytes join the end of the queue; the buffer grows exactly when they do not fit |
| Stream.TcpStream.constructor | stream.c:91-101 | what is queued is the length prefix followed by the body, whether or not the buffer had to grow |
| Stream.TcpStream.Create | stream.c:3-31 | a stream with two empty buffers of the configured sizes |
| Stream.DrainExact | stream.c:43-60 | one flush moves exactly the smaller of what is wanted and what the socket takes before it first blocks or fails, fails exactly when a hard error comes first, and stops right behind what stopped it |
| Stream.FeedExact | stream.c:68-86 | the first answer that is not an interruption decides: nothing yet, an error, the end of the connection, or as many bytes as fit; everything behind it is left |
| Stream.DrainLoop | stream.c:43-60 | the write loop does what the script says and neither loses, repeats nor reorders a byte |
| Stream.TcpStream.FlushOut | stream.c:33-61 | bytes sent followed by bytes queued stays the concatenation of everything ever queued, even when the flush fails |
| Stream.FeedLoop | stream.c:68-86 | the bytes of one successful read join the end of the buffer, interruptions are retried, nothing changes otherwise; what did not fit or comes later is still to be read |
| Stream.TcpStream.FeedOut | stream.c:63-89 | returns that number, 0 or -1, records a peer that closed, leaves the rest of the socket's data alone and never changes data_in |
| Frame.LoadStored | server.c:211-212 | a machine word read from eight bytes is the one that was stored |
| Frame.FrameLayout | client.c:98-139 | a frame byte by byte: eight of the length, least significant first, then the body |
| Receive.OnReadSound | server.c:113-130 | after every read event received plus missing equals announced and the work buffer is as long as what was received; the mismatch branch of collect_data is never taken; the process dies exactly when the read buffer was not empty |
| Receive.CallExact | server.c:148-232 | one call on an open stream, case by case in plain numbers: idle, failed flush, crash, failed or ended read, waiting for 8 bytes, illegal length, body short of the end, at it or past it |
| Receive.StillOpen | server.c:152-171 | a stream still open after any calls has seen no idle call, no failed flush and no failed or ended read |
| Receive.BadCallCloses | server.c:152-171 | whatever came before, such a call closes the stream, unless a non-empty read buffer stops the process first |
| Receive.BodyContents | server.c:113-130 | while the body is incomplete, the work buffer is what it was followed by everything read since, in order, and the counters follow |
| Receive.HitsIsBoundary | server.c:120-127 | "some reads end exactly there" is the length of a non-empty prefix of the reads |
| Receive.BodyExact | server.c:189-198 | once the header is in, the work is done if and only if some reads end on the last byte of the body, and then on exactly those bytes |
| Receive.ConnectionExact | server.c:165-228 | over any reads whatever, the work is done if and only if the first read holds the header, the length is legal, and some reads end exactly on the frame |
| Receive.ShortFirstRead | server.c:166 | a first read without a whole header leaves the stream waiting and the next read event trips the assertion |
| Receive.FrameDelivered | server.c:189-226 | one frame of 1 to 32768 bytes, cut in any way: the work is done once, by the last read, on exactly the body, if and only if the first read has at least 8 bytes; otherwise the process dies |
| Receive.CallsAreReads | server.c:148-232 | write events and read events that find nothing, however interleaved, decide neither whether the work is done nor on what |
| Receive.DeliveredByReads | server.c:148-232 | whatever the calls, failing ones included, a body they deliver is the one the reads among them deliver |
| Receive.FrameDeliveredByCalls | server.c:148-232 | under any schedule of successful calls whose reads bring one frame, the first of them holding the header, the work is done on exactly the body |
| Schedule.OneFeed | stream.c:68-86 | one read event takes exactly the next bytes off what the peer sends, a whole piece if the pieces fit |
| Schedule.TraceReads | server.c:165-229 | what the events of a schedule read is a prefix of what the peer sends; with enough read events it is every piece, in order |
| Server.Session.CollectData | server.c:113-130 | the read buffer moves to the body, the counters follow, the result says complete, incomplete or mismatch, and the work buffer is not replaced while the body fits |
| Server.Session.TakeHeader | server.c:204-226 | an illegal length drops the stream; a legal one starts the body with the bytes behind it |
| Server.Session.DataTransfer | server.c:148-232 | one event changes the stream exactly as the event function says (close, crash, or one read step); an event in neither direction, a write that breaks and a read that breaks close the stream and its descriptor, said of the socket's answers; what is queued is conserved, both directions of the socket advance by just what the event moves, the work is counted exactly when it is done |
| Server.Session.Serve | server.c:91-95 | over any schedule of events the stream ends as the calls of the schedule say, work counted at most once |
| Client.NewTransaction | client.c:98-139 | the sender queues the frame of the body in a stream of its own |
| Client.DataTransfer | client.c:206-245 | one event sends what the socket takes, conserves what is queued, and releases the transaction when all is sent, when something fails, or on any read event |
| Client.Serve | client.c:191-200 | over any schedule of events what has left is a prefix of what was queued, exactly as long as the schedule says |
| Client.SendsExact | client.c:206-245 | nothing is sent after the release, a read event always releases, and until then every event was a write that took less than what was left |
| Client.FirstEvent | client.c:206-245 | an event that is no write sends nothing and releases; a write sends what the socket takes and releases when that is all, when it breaks, or when there was a read as well |
| Client.AllSent | stream.c:43-60 | under any mix of partial writes, blocking and interruption without hard errors, as many write events as the socket's script is long send all that is queued or all the socket ever takes, and release the transaction exactly in the first case |
| Transport.CarryDelivers | stream.c:68-86 | the network of the model loses, repeats and reorders nothing |
| Transport.CarryIsAny | stream.c:68-86 | and there is no script of reads it cannot produce |
| Transport.NeverWrong | server.c:148-232 | on any part of a frame, any network and any events, do_work is given exactly the body or nothing, and only when the whole frame was sent |
| Transport.Verdict | server.c:148-232 | when nothing fails and there are enough read events, the work is done if and only if the length is legal, the whole frame was sent, and the first piece holds the header |
| Transport.Transaction | client.c:98-245 | both ends in one run, over any sockets, network and events: what leaves is a prefix of the frame, as much as the socket ever takes; do_work is given exactly the body at most once, qps rises by one exactly then, and Verdict says when |
| Transport.CompressedTransaction | client.c:104-139 | the same with a compressed message as the body: what do_work is given decompresses to the message. The running client does not compress: its call of the compressor is under `#if 0` |
| Event.EventTable.CloseStream | event.c:109-140 | an open descriptor is closed and the five or seven blocks of the stream freed, a connection without a stream is left alone |
| Event.EventTable.ExpiresHouseKeeping | event.c:176-195 | from any cursor position, of the 1024 connection slots those active, idle for at least 10 and not of the excepted descriptor are taken out, their descriptors closed and the five or seven blocks of their streams freed once, never a second time, although one slot is visited twice; every other slot and the listener are unchanged; the cursor moves on by one |
| Event.EventTable.EventDel | event.c:73-88 | an active slot becomes free; any other stays as it is |

## Left out

- Client.DataTransfer: says whether the transaction is released; what the release frees is not modelled.
- Buf.Buffer.Realloc: the buffers of the streams are arrays of their own, not blocks out of the pools; that the steps of `buf_realloc` work on the pools is Mem.MemPools.Regrow.
- Client.NewTransaction: the connection pool around it is not part of it.
- Server.Session.DataTransfer: `server.c` is written against an older event interface and is not in the Makefile; its logic is modelled, not the lookup of stream and descriptor (server.c:149-151). It ends before the change of the epoll registration; the frees of `close_stream` are seen there as the end of the stream; Event.EventTable.CloseStream counts them.
- An unending run of EINTR: a script is finite.
- Endianness: both ends store and load the length least significant byte first.
- `mem_realloc` and `statistics_mem_info`: the first relies on a debug-only field and on the stale `obj_size`; the second only formats numbers.
- `connection.c`, `ip.c`, `comm.c` and the rest of `client.c`: socket and epoll plumbing.
- Mutexes, clocks, and the programs under `bench/`.
