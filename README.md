# netstream in Dafny

netstream copies one input stream to several outputs. The input and each output
is an endpoint: a file, a TCP or UDP socket, or standard input/output. One reader
thread reads the input in 1024-byte chunks and inserts every chunk into a
per-output ring buffer. One writer thread per output takes chunks out of its
buffer and writes them to its sink. Both kinds of thread run a retry cycle that
ends in a decision on the endpoint's `Retry` setting. The endpoints come from a
YAML configuration file, and the program's own options from the command line.

This project models four parts of it and proves their properties:

- `Common.dfy` holds the constants and enumerations of `netstream.h` and
  `buffer.h`, and the endpoint record `struct endpt_cfg` as a datatype.
- `Buffer.dfy` models the ring buffer of `buffer.c`. It is a class over a byte
  array and a length-tag array, with a producer index and a consumer index. A
  ghost sequence of queued items is tied to the arrays by the class invariant.
  The pure function `Enqueue` states what an insert does to that sequence.
- `Endpts.dfy` models the reader and writer of `endpts.c`. The system calls are
  oracles: a cycle receives the outcomes of open, getaddrinfo, socket, bind or
  connect, listen and accept, plus a script of read or write results.
  - The chunking is stated by the function `ReadPhase`.
  - The drain of a buffer is stated by `DrainOf`.
  - One whole reader cycle is stated by `ReaderCycleOf`.
  - The driver classes `InputDriver` and `OutputDriver` run the loops over the
    real buffers and are proved against those functions.
- `Conffile.dfy` models the configuration side of `conffile.c`:
  - setting one key/value pair on an endpoint record (`SetItem`);
  - applying a node's pairs in order (`ApplyPairs`);
  - building the endpoint list from the YAML nodes, which are given as an
    abstract list of mappings;
  - taking the first input out of that list by shifting the array in place;
  - the validator.
- `Netstream.dfy` models four parts of `netstream.c`:
  - `parse_args`, over the options getopt hands back;
  - the verbosity gate of `dprint`;
  - the marking of every endpoint with the test-only flag;
  - the exit code `main` computes at the end.

**Queue capacity.** A buffer is empty when `(cons_pos+1) % nitems == prod_pos`
and full when `(prod_pos+1) % nitems == cons_pos`. Two slots are therefore never
queued: the one at `prod_pos`, which is written next, and the one at `cons_pos`,
which holds the chunk the writer is sending (the slot `buffer_cons_data_pointer`
hands to the writer). The capacity is `nitems - 2` = 126: `Buffer.Capacity` is
126, and `CapacityFromEmpty` proves that exactly the first 126 inserts into an
empty buffer succeed.

Other behaviours of the code that the model keeps:

- **`KILL` retries.** A retry setting of `KILL` has no case in either driver's
  switch. It falls through to the delay and the next cycle, like `YES`. No
  configuration value can set `KILL`, which `SetItem` and
  `ApplyPairsKeepsRanges` prove.
- **A writer with `YES` reopens its sink.** It retries even after it has seen
  the end tag. A file sink is reopened with `O_TRUNC`.
- **A failed `listen` keeps the socket.** It leaves `listenfd` set, so the next
  reader cycle goes straight to `accept` (`ListenFailureKeepsSocket`).
- **UDP input.** It still goes through `listen` and `accept`, and the writer has
  no separate UDP path. The oracles decide what those calls return.
- **The reader's join result.** It is ignored by the exit code. Only the
  writers' joins count.
- **A `-v` level outside 0..7 means DEBUG.** The verbosity field has the type
  `enum verbosity`, whose values are all non-negative, so the compiler makes it
  an `unsigned int`. `-v -1` stores 2^32 - 1, which the `> 7` test cuts down to
  7, and every message is then printed (`VerbosityOutOfRange`, `DprintGate`).
- **Keepalive.** A parsed keepalive is never negative, so the keepalive test in
  `check_endpt` never rejects a parsed record (`ParsedKeepaliveNeverRejected`).

## Model

| member | source | states |
|---|---|---|
| Buffer.EnqueueAllKeepsPrefix | buffer.c:9-33 | a run of inserts into a queue of at most capacity keeps exactly the first `Capacity - |q|` new items in order after the old ones; insert i returns 0 iff fewer than capacity items were queued before it, -1 otherwise |
| Buffer.CapacityFromEmpty | buffer.c:12-16 | from an empty buffer exactly the first 126 (`nitems - 2`) inserts succeed and are kept in order; every later one returns -1 |
| Buffer.EmptyFullTests | buffer.c:12-12 | the source's full test on the two indices holds iff 126 items are queued, its empty test iff none is, and the count is always between 0 and 126 |
| Buffer.InsertAppends | buffer.c:17-31 | writing an item into slot `prod_pos` only and advancing `prod_pos` appends it to the queue, keeps the invariant and leaves the consumer's slot as it was |
| Buffer.DeleteRemoves | buffer.c:46-53 | advancing `cons_pos` past the oldest item removes exactly that item from the front of the queue, and the new consumer slot holds it (FIFO) |
| Buffer.Memcpy | buffer.c:18-19 | the n destination bytes from `lo` are the first n source bytes, and every other byte is unchanged |
| Buffer.OutputBuffer.constructor | buffer.c:81-84 | a new buffer is empty, with 128 slots of 1024 bytes, `prod_pos` 0 and `cons_pos` `nitems-1` |
| Buffer.OutputBuffer.Insert | buffer.c:9-33 | the queue becomes `Enqueue(old, item)`; returns 0 iff it was not full, and on -1 no index, length or byte changes; a successful insert advances `prod_pos` mod `nitems`, keeps `cons_pos`, writes only the first `ndata` bytes of slot `prod_pos` and its length (or -1, so -2 is never stored); every other byte keeps its value; the consumer is woken iff the queue was empty before |
| Buffer.OutputBuffer.InsertNonFull | buffer.c:17-31 | on a queue that is not full the item is appended, the slot write and index move are as for Insert, and the wake-up is sent iff the queue was empty |
| Buffer.OutputBuffer.StoreSlot | buffer.c:17-24 | copies exactly `ndata` bytes into slot p and records `ndata`, or records -1 and copies nothing; no other length and no other byte, the rest of slot p included, changes and the slot now holds `ItemOf(data, ndata)` |
| Buffer.OutputBuffer.AfterDelete | buffer.c:44-55 | on a non-empty queue `cons_pos` advances mod `nitems`, the oldest item leaves the queue and becomes the consumer's item, and its length tag (-1 for the end tag) is returned |
| Buffer.OutputBuffer.ConsDataPointer | buffer.c:35-42 | the offset of the consumer's slot, whose first bytes are exactly the chunk the matching insert stored |
| Buffer.OutputBuffer.IsEmpty | buffer.c:46-46 | the source's empty test holds iff no item is queued |
| Buffer.CreateBuffers | buffer.c:57-104 | n buffers that share no memory, each empty with `prod_pos` 0 and `cons_pos` `nitems-1` |
| Conffile.StrtolReadsDecimal | conffile.c:106-106 | strtol reads back any integer written in decimal, whatever non-digit follows |
| Conffile.KeyOfName | conffile.c:45-116 | the strcmp chain recognises a key string exactly when it is the spelling of one of the seven keys, and each key's spelling maps back to that key |
| Conffile.SetItem | conffile.c:45-118 | returns 0 or -1; on -1 the record is unchanged; an unknown key returns 0 and changes nothing; the exit status and test flag are never touched, and retry never becomes KILL |
| Conffile.SetItemOtherFields | conffile.c:45-118 | setting a pair changes no field other than its own key's |
| Conffile.SetItemAccepts | conffile.c:47-111 | returns 0 iff the value is admitted for its key (Direction input/output, Type socket/file/std, Retry yes/no/ignore, Protocol TCP/UDP, a non-negative Keepalive, any Name or Port) and then the field holds that value |
| Conffile.SetItemLastWins | conffile.c:189-203 | of two pairs for the same key the later admitted one decides the record |
| Conffile.ApplyPairsAdmitted | conffile.c:189-203 | a node whose pairs all apply has every value admitted for its key |
| Conffile.AdmittedApplies | conffile.c:189-203 | a node whose values are all admitted applies without a -1 |
| Conffile.ApplyPairsSucceeds | conffile.c:189-203 | a node's pairs apply iff every value is admitted for its key |
| Conffile.ApplyPairsLastWins | conffile.c:189-203 | each known key's field is the value of its last pair, or the default when the key does not occur |
| Conffile.ApplyPairsKeepsRanges | conffile.c:8-17 | a record parsed from the defaults never has retry KILL or a negative keepalive, its protocol is -1, TCP or UDP, and its exit status is still -255 |
| Conffile.ParseEndpoints | conffile.c:178-206 | a successful parse yields one record per node |
| Conffile.ParseEndpointsSucceeds | conffile.c:178-206 | the node list parses iff every node is a mapping whose pairs apply, and then record i is node i's pairs applied to the defaults |
| Conffile.FirstInput | conffile.c:125-132 | the index of an input record with no input before it, or none when no record is an input |
| Conffile.FirstInputIsFirst | conffile.c:125-132 | an input with no input before it is the one get_read_endpt finds |
| Conffile.SplitInputShape | conffile.c:208-220 | the input is the first input record; the outputs are all other records in their original order, one fewer, as a multiset exactly the list minus the input |
| Conffile.ParseConfigSplitsInput | conffile.c:208-222 | after a successful parse there are `|nodes| - 1` outputs and the input has direction input |
| Conffile.ParseConfigNeedsInput | conffile.c:208-213 | without an input record the parse fails |
| Conffile.InitEndptRejected | conffile.c:8-17 | the defaults (undefined direction and type, retry NO, exit status -255) do not pass check_endpt |
| Conffile.ParsedKeepaliveNeverRejected | conffile.c:390-393 | for a parsed socket record the keepalive test is dead: it passes iff direction, name, port and protocol are defined |
| Conffile.SecondInputRejected | conffile.c:414-418 | a list with two input records parses, but check_config rejects it |
| Conffile.SplitInputRejectsSecond | conffile.c:414-418 | taking the first input out of a list with two leaves an input among the outputs, which check_config rejects |
| Conffile.ParseNode | conffile.c:187-203 | the pair loop for one node succeeds iff its pairs apply to the defaults, and then yields that record |
| Conffile.IoConfig.GetReadEndpt | conffile.c:125-132 | the index of the first record with direction input, or -1 iff there is none |
| Conffile.IoConfig.ShiftDown | conffile.c:215-219 | the first `n_outs - 1` records become the old ones with the record at idx removed, order kept |
| Conffile.IoConfig.Parse | conffile.c:178-222 | returns 0 iff the node list parses and has an input; then `input`, `n_outs` and the used part of `outs` are exactly the split of the parsed list |
| Conffile.IoConfig.ReadEndpoints | conffile.c:178-206 | succeeds iff the node list parses, and then the array holds the parsed records |
| Conffile.IoConfig.CheckConfig | conffile.c:407-424 | returns true iff there are at most MAX_OUTPUTS outputs, the input passes check_endpt and every output has direction output and passes check_endpt |
| Conffile.IoConfig.ExtractInput | conffile.c:208-222 | returns 0 iff some record is an input; then the input is copied out, removed from the outputs by the shift and `n_outs` drops by one |
| Endpts.ReadCall | endpts.c:101-117 | a read returns between 1 and `want` bytes, or end of file, or an error; the bytes returned and the rest of the script together are what the script delivers |
| Endpts.WriteCall | endpts.c:213-220 | a write takes between 0 and `want` bytes, or fails with -1 exactly for a failing result |
| Endpts.ReadPhaseShape | endpts.c:94-122 | a read phase ends with status 0 or -1, -1 exactly when the reads end in an error; every chunk but a last one is 1024 bytes; at end of file the last chunk is the short one, possibly empty; after an error every chunk is full |
| Endpts.ReadPhaseContent | endpts.c:99-121 | at end of file the chunks put together are exactly the bytes read; after an error they are a prefix of them, short by less than one chunk |
| Endpts.FirstOk | endpts.c:55-64 | the first address on which socket and bind/connect both succeed, or none when no address does |
| Endpts.SetupInput | endpts.c:26-90 | a reader's set-up never gives up a listening socket, and only a socket input changes whether one exists |
| Endpts.ReaderCycleEnd | endpts.c:123-139 | a cycle ends the reader iff retry is NO or IGNORE, and then exactly one end tag is inserted, as the last item; YES and KILL insert none; the status is 0 or -1 |
| Endpts.ReaderSetupFailure | endpts.c:29-84 | a failed open, resolve, bind, listen or accept records -1 and inserts no data |
| Endpts.ListenerReused | endpts.c:36-77 | with a listening socket the cycle does not depend on resolve, socket, bind or listen, and keeps the socket |
| Endpts.ListenFailureKeepsSocket | endpts.c:72-76 | a failed listen records -1 but leaves the bound socket as the listener |
| Endpts.ReaderCycleDelivers | endpts.c:99-121 | a cycle that reaches end of file records 0, and the chunks each output receives, put together, are exactly the bytes the reads delivered |
| Endpts.WriteOut | endpts.c:211-221 | the bytes written only grow and never pass the chunk; success means the whole chunk went out, failure that part of it did not |
| Endpts.WriteOutSucceeds | endpts.c:211-221 | with no failing write the whole chunk goes out, however the writes split it |
| Endpts.DrainOf | endpts.c:199-222 | a drain takes at most the queued items; stopping on an empty queue it took them all and they were all chunks; otherwise it took at least one |
| Endpts.DrainStops | endpts.c:199-222 | every item before the last one taken is a chunk; the last one is the end tag when the drain stops there, and a chunk on a write error |
| Endpts.DrainSendsPayload | endpts.c:199-222 | stopping at the end tag or on an empty queue, exactly the payload of the items taken has been written, in order |
| Endpts.DrainErrorSends | endpts.c:211-219 | on a write error, what was written includes every earlier chunk and is a proper prefix of the payload taken |
| Endpts.WriterReturnStatus | endpts.c:223-238 | a writer returns only for NO or IGNORE; IGNORE leaves exit status 0, NO the recorded 0 or -1; nothing else in the record changes |
| Endpts.EndToEnd | endpts.c:94-222 | a reader cycle with retry NO that reaches end of file fills an empty buffer with its chunks and the end tag; a writer whose writes all succeed then writes exactly the bytes read and stops at the end tag |
| Endpts.DrainChunks | endpts.c:199-222 | chunks followed by the end tag, written by writes that all succeed, come out whole and the drain stops at the end tag |
| Endpts.FirstUsable | endpts.c:55-64 | -1 iff no address takes socket and bind/connect, otherwise the first one that does |
| Endpts.FillBuffer | endpts.c:95-118 | fills the 1024-byte buffer from successive short reads; a full buffer is the next chunk of the read phase, end of file gives the partial buffer as the last chunk with status 0, an error gives status -1 and no chunk |
| Endpts.InputDriver.constructor | endpts.c:18-20 | a reader starts with no listening socket over separate, valid buffers |
| Endpts.InputDriver.FanOut | endpts.c:119-121 | the same item is inserted into every output buffer |
| Endpts.InputDriver.InsertAt | endpts.c:120-120 | an insert into output i leaves every other buffer's items as they were |
| Endpts.InputDriver.Setup | endpts.c:26-90 | the set-up succeeds and keeps or creates the listening socket exactly as `SetupInput` says |
| Endpts.InputDriver.Deliver | endpts.c:119-121 | every buffer's items grow by the new chunk, inserted after the earlier chunks |
| Endpts.InputDriver.ReadRound | endpts.c:94-121 | one fill of the read buffer extends the inserted chunks by the next chunk of the read phase (none after an error) and says whether the phase ended |
| Endpts.InputDriver.ReadAll | endpts.c:92-122 | the read loops insert exactly the chunks of the read phase into every buffer, in order, and return its status |
| Endpts.InputDriver.Cycle | endpts.c:21-139 | one retry cycle does what `ReaderCycleOf` says: it sets the exit status, keeps or drops the listener, inserts the chunks and, for NO and IGNORE, the end tag |
| Endpts.InputDriver.Repeat | endpts.c:123-139 | NO and IGNORE insert one end tag into every buffer and end the reader; YES and KILL insert nothing and retry |
| Endpts.OutputDriver.constructor | endpts.c:144-148 | a writer starts over a valid buffer with no sink open |
| Endpts.OutputDriver.Open | endpts.c:150-196 | when the file opens or some address connects, the sink is open and nothing else changes; otherwise the status is -1 and the retry decision follows |
| Endpts.OutputDriver.Drain | endpts.c:198-235 | the writer takes the items `DrainOf` takes and writes exactly its bytes; an empty queue leaves it waiting; the end tag records 0, a failed write -1, then the retry decision |
| Endpts.OutputDriver.DrainQueue | endpts.c:199-222 | the item loop removes exactly the items the drain takes, and writes exactly its bytes |
| Endpts.OutputDriver.WriteChunk | endpts.c:209-221 | the write loop on the consumer's slot writes what `WriteOut` says: the whole chunk, or the part before the failing write |
| Endpts.OutputDriver.TakeOne | endpts.c:200-221 | takes the oldest item out; the end tag writes nothing; a chunk is written out as `WriteOut` says |
| Netstream.VerbosityOf | netstream.c:106-114 | -v alone gives WARN (4); -v N gives atoi(N) when it is in 0..7, and DEBUG (7) for any other int, a negative one included, because the enum field is unsigned; the result is always a level from QUIET to DEBUG |
| Netstream.ParseArgs | netstream.c:89-125 | returns 0 or -1, -1 iff some option is unknown; the fields are the defaults with each option up to the first unknown one applied in turn |
| Netstream.FoldStopsAtUnknown | netstream.c:118-121 | options after the first unknown one are never looked at |
| Netstream.FoldFlags | netstream.c:103-117 | daemonize and testonly are set iff -d or -t occurs (or was set before), and never cleared |
| Netstream.FoldConfigFileLastWins | netstream.c:100-102 | the config file is the argument of the last -c, or the earlier value when there is none |
| Netstream.FoldVerbosityLastWins | netstream.c:106-114 | the verbosity is that of the last -v, or the earlier value when there is none |
| Netstream.FoldVerbosityCapped | netstream.c:106-114 | whatever the options, the verbosity stays a level from QUIET to DEBUG |
| Netstream.ParseArgsNoOptions | netstream.c:93-96 | with no options parse_args succeeds with config file "netstream.conf", verbosity ERR (3), no daemon and no test mode |
| Netstream.VerbosityReadsLevel | netstream.c:109-110 | "-v N" stores the level N itself for every N from 0 to 7 |
| Netstream.VerbosityOutOfRange | netstream.c:110-112 | "-v N" for any int N outside 0..7, negative N included, gives DEBUG |
| Netstream.DprintGate | netstream.c:26-33 | after parse_args, dprint prints a message of level `verb` (and otherwise returns 0) iff `verb` is at most ERR with no -v, at most WARN after a bare -v, at most N after -v N with N in 0..7, and at every level after -v N with any other int N |
| Netstream.MarkTestOnly | netstream.c:191-194 | every output in use and the input get the command line's test-only flag, and nothing else changes |
| Netstream.ExitCode | netstream.c:262-301 | the exit code is 1 iff some registered endpoint failed, some writer join failed or some writer's final status is non-zero, and 0 otherwise |

## Left out

- Threads, mutexes, condition variables and `pthread_cancel` are not modelled. Every operation is modelled as one sequential step under its lock.
- The dead-list wait loop of `main` is abstracted. `ExitCode` receives the exit statuses that loop saw. No code in the core ever appends to the dead list.
- Buffer.OutputBuffer.AfterDelete: requires a non-empty queue. The source waits on the condition variable when the queue is empty, and it does so with an `if` rather than a `while`. A wake-up without an insert is therefore not covered.
- Endpts.OutputDriver.Drain: models the wait on an empty queue as returning `Waiting`. The caller goes on once the reader has inserted more.
- The signal handler and the signal pipe are asynchronous. Nothing in the core reads the pipe.
- The system calls are oracles given to each cycle: open, getaddrinfo, socket, bind, connect, listen, accept, read, write and close. `sleep(RETRY_DELAY)` is dropped. File descriptors and their closing are not modelled.
- Endpts.WriteCall: a write result larger than the bytes offered counts as all of them. A script that runs out takes everything. A read script that runs out reads as end of file.
- Endpts.InputDriver.constructor: requires a defined endpoint type, because `check_config` rejects anything else before `main` starts the threads. The same holds for `Endpts.OutputDriver.constructor`, `SetupInput` and `ReaderCycleOf`.
- The infinite retry loop of each driver is one cycle per call, returning `Continue` or `Terminate`.
- libyaml's loading and node walking are left out. The configuration is given as a list of nodes, each a mapping of key/value strings or some other node. Opening the file and the root-node check are left out with it.
- Conffile.Strtol: reads optional white space, a sign and decimal digits. It does not model `long` overflow or the truncation to `int` when keepalive is stored.
- Netstream.Atoi: is that same decimal reading, without overflow. `VerbosityOf` promises DEBUG for an out-of-range level only for numbers that fit in an int.
- The strings stored for Name and Port are values. The `malloc` and `strcpy` copies are not modelled, and neither are their failures.
- Allocation failures are left out: `io_config_init`, `create_buffers`, the read buffer, and the allocations in `main`. The clean-up loop of `create_buffers` after a failed allocation decrements its index before freeing. It ends by freeing `buffers[-1]`.
- `free_buffers` only releases memory and is not modelled.
- `create_buffers` assigns `nlast_data`, a field `struct buffer` does not declare. That assignment is not modelled.
- The contents of freshly allocated arrays are not modelled. The model zero-fills the length tags and the byte array.
- Printing is left out: `print_config`, `print_args`, `usage`, `help`, `tdprint` and the text of every `dprint`. `Dprint` receives the printer's result as a parameter.
- Daemonising is left out.
- The test-only flag is set on every endpoint (`MarkTestOnly`), but no driver reads it, so test-only mode has no further behaviour.
- The keepalive interval is stored and validated but never applied to a socket.
