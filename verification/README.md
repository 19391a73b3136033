# A small C server and its worker pools, modelled in Dafny

The repository holds a multi-protocol server written in C: it accepts TCP clients that exchange
length-prefixed packets, HTTP clients, and heartbeat datagrams, all from one `select` loop that hands the
work to a pool of threads. A course version of the same thread pool stands beside it. This project models
the parts whose correctness needs an argument over several functions or over whole runs:

- **The bounded worker pool** (`worker_pool.dfy`, `pool_protocol.dfy`). The ring buffer is a class whose
  methods are the regions between lock and unlock, each proved to act as a plain queue. On top of it every
  interleaving of submitters, workers, spurious wake-ups and one shutdown is a run of a transition system:
  no wake-up is ever lost, tasks run exactly once and in order, and both shutdown modes end.
- **The server's pool with results** (`result_pool.dfy`, `handshake.dfy`, `slot_reuse.dfy`). A submission hands
  out a pointer into the ring, and a worker runs the task from that slot. With the server's habit of waiting for
  each submission a wait returns its own result. For every other producer it is proved over every run, any ring
  and any number of workers, exactly when each call runs the task it is for, and what a shutdown leaves undone.
- **HTTP/1.1 messages** (`header_table.dfy`, `c_text.dfy`, `header_codec.dfy`, `http_messages.dfy`,
  `http_stream.dfy`; the message syntax of sections 3, 4, 5 and 6.2 of RFC 9112, in the narrower form the
  code accepts). The growing header array, the two-pass printer, the in-place `strtok` parser, the search for
  the end of the header section in a stream that arrives in arbitrary pieces, and bodies by Content-Length,
  up to an end-to-end statement for requests and responses.
- **The binary serializer** (`powers.dfy`, `bytes.dfy`, `ieee754.dfy`, `pack_format.dfy`) with its
  floating-point converter, whose patterns differ from section 3.4 of IEEE 754-2019 in that the all-zero and
  all-one exponents are ordinary ones, and **length-prefixed packets** (`sockets.dfy`, `packets.dfy`).
- **The select loop** (`descriptor_log.dfy`, `loop_log.dfy`, `select_loop.dfy`): the watched descriptor set, the
  two client tables, and what every visit, every pass and every run does, including the cleanup.
- **Replies** (`substrings.dfy`, `ping_pong.dfy`, `heartbeats.dfy`): who gets a PONG and who gets an ACK.

Code that the source writes as loops over buffers and fields is a method here, proved equal to a function
of the same inputs; the theorems are lemmas about those functions.

## Where the code does not do what it seems to

Each of these is a proved statement, with the exact condition under which the code does meet the expectation.

- A worker reads its task from the ring slot after it has released the lock, and by then a later submission may
  have been given that slot. Each call runs the task of its own submission exactly if no submission is ever
  accepted into a slot that some worker has dequeued but not yet run (`SlotReuse.OwnTasksIffNoneOverwritten`);
  `SlotReuse.UnwaitedTaskIsLost` is a run in which one submission never runs and another runs twice. A submission
  reuses the slot of the one a whole ring before it, so it is enough to see that one done first
  (`SlotReuse.LookingIsEnough`), also for reading its result there (`SlotReuse.LookingReadsOwnResult`), and a
  producer that waits for each submission is safe too (`SlotReuse.WaitingIsEnough`).
- `THREADPOOL_GRACEFUL` in `src/shared/threadpool.h` is 1, which workers take for an immediate shutdown:
  queued work is dropped. Every accepted submission gets a call of its own exactly if the queue was empty at
  destroy and no slot was taken in that way before (`SlotReuse.DrainsIff`).
- The server's workers decrement `started` after releasing the lock. The counter is sure to reach zero, and
  `threadpool_free` to proceed, exactly for a pool of one worker (`Handshake.FreeProceedsIffOneWorker`).
- The header parser also sees the start line: headers come back exactly if it has no colon
  (`HeaderCodec.SectionParses`, `HttpMessages.RequestRoundTripIff`, `HttpMessages.ResponseRoundTripIff`).
- A response is sized with `sizeof(int)` for its status, so surplus bytes follow the body. They fit the
  receiver's body buffer, however the stream is split, exactly without a body, or for a body of at most 2147483646
  bytes with three digits or more, or with section and body and one byte more filling the receive buffer
  (`HttpStream.SurplusFitsIff`). Five digits or more overrun the sender's own buffer, and sizes above 2147483647 its
  int (`HttpMessages.SerializeResponse`).
- The receive functions use a head that did not parse and copy what was read behind it without a look at their
  arrays. No split of a stream leads there exactly if it ends before its section does, or its section parses, its
  Content-Length and the size of the body's buffer are ints and what follows fits (`HttpStream.ResponseArrivesIff`,
  `HttpStream.RequestArrivesIff`). The buffer has one byte more than the body, so a peer that announces 2147483647
  bytes is past that limit (`HttpStream.TooLongToReceive`, `HttpStream.LongestLength`).
- A body cut short by a close counts as received unless nothing at all arrived behind the read that found the
  header section; which of the two it is depends on how the stream was split (`HttpStream.ReceiveBody`).
- `pack754` loses a carry into an odd exponent, and its smallest positive number has the pattern of zero; in
  all other cases, and only in those, it is off by less than one unit in the last place
  (`Ieee754.ErrorBoundIff`). The order of two positive numbers is kept exactly unless such a carry drops the
  larger one behind the smaller one of the same exponent (`Ieee754.PackMonotoneIff`). 1.9999 in 16 bits and the
  smallest number of every shape are such inputs (`Ieee754.CarryIsLost`, `Ieee754.SmallestLooksZero`); from 23
  significand bits on no carry is ever lost (`Ieee754.WideNeverCarries`).
- The string length prefix has 16 bits: anywhere in a format, a string comes back with the cursor behind it
  exactly if it is shorter than 65536 bytes, or so long that the unsigned int count of its bytes has wrapped to less
  than that, with a limit that cuts both lengths alike (`PackFormat.StringComesBackIff`).
- A receive that ends right after a packet's length reports 0, as if the peer had closed between packets
  (`Packets.CutAnywhere`).
- A listening socket reported as writable is served as a client without a record, which ends the loop
  (`LoopLog.ServedAsReported` has no such descriptor in a complete pass).

## Assumptions

- Memory allocation and the pthread calls succeed; a mutex-protected region is one step. A signal wakes at
  least one sleeper if there is any, a broadcast wakes all, and any sleeper may wake by itself.
- `send` takes 1 to n bytes or fails; `recv` gives 1 to n bytes, 0 at a close, or fails. A connection is the
  stream still to arrive, the way it ends, and the room left for sending. Every choice of sizes is allowed.
- A buffer that receives a terminating NUL has one place to spare for it. The code has none for the request that
  `sprintf` and `strcat` build (src/shared/http.c:397-406), for a full receive buffer (src/shared/http.c:986) and
  for a packet's length (src/shared/common.c:242-248): the assumption repairs these three.
- A `long` has 32 bits. Where it has 64, src/shared/common.c:218 passes an int for one, and the `unpack` call of
  src/shared/common.c:261 writes eight bytes into an `int32_t`; the assumption repairs this too.
- The int is modelled where the size of a message or a body is concerned. Numbers of headers, workers and queued
  elements, and the texts given to the parsers, are taken to be short enough to be counted by one.
- `accept` returns a descriptor that is not open and is below MAX_CLIENTS; so are the three listening sockets.
- Handlers given a record return a result; handlers given NULL return NULL.
- A `long double` is an exact real. `(1LL << s) + 0.5f` is single precision, so the half survives only for the
  10-bit significand of the 16-bit form.
- One destroy per pool. A task's argument and result are integers, a routine is a number and 0 is NULL.
- A message body is its first `body_length` characters, whatever the text behind the pointer.

## Model

| member | source | states |
|---|---|---|
| WorkerPool.Create | class_repo/thread-pool/threadpool.c:96-147 | null exactly for argument values out of range; otherwise an empty open pool with all workers started |
| WorkerPool.ThreadPool.constructor | class_repo/thread-pool/threadpool.c:110-138 | the ring starts empty and the start counter equals the number of workers |
| WorkerPool.ThreadPool.Add | class_repo/thread-pool/threadpool.c:149-197 | accepted and appended exactly with a routine, a free place in the ring and the pool open; refused as full exactly if all places are taken, as shutting down exactly otherwise, with nothing changed |
| WorkerPool.ThreadPool.Turn | class_repo/thread-pool/threadpool.c:271-305 | a worker sleeps exactly if the ring is empty and the pool open, leaves exactly if it is closed at once or closed and empty, and otherwise takes the oldest element off the ring |
| WorkerPool.ThreadPool.BeginShutdown | class_repo/thread-pool/threadpool.c:207-226 | the first shutdown sets the mode and keeps the queue, a later one changes nothing |
| WorkerPool.ThreadPool.Free | class_repo/thread-pool/threadpool.c:243-263 | freeing proceeds exactly if no started worker is left |
| WorkerPool.WindowFirst | class_repo/thread-pool/threadpool.c:288-291 | moving the head round the ring takes the first element off the queue |
| WorkerPool.WindowLast | class_repo/thread-pool/threadpool.c:180-183 | storing at the tail appends to the queue, also where the ring wraps |
| PoolProtocol.WakeKeeps | class_repo/thread-pool/threadpool.c:164-197 | submissions and shutdown keep the wake-up invariant: nobody sleeps, or as many workers are on the way as elements are queued |
| PoolProtocol.WorkerKeeps | class_repo/thread-pool/threadpool.c:271-305 | worker steps and spurious wake-ups keep it too |
| PoolProtocol.TicketsKeep | class_repo/thread-pool/threadpool.c:271-297 | every step keeps that each dequeued element is with one worker or called once, never both |
| PoolProtocol.StepKeepsInv | class_repo/thread-pool/threadpool.c:149-305 | every enabled step keeps the whole invariant |
| PoolProtocol.ReachableInv | class_repo/thread-pool/threadpool.c:96-305 | it holds in every state of every run of every pool |
| PoolProtocol.NoLostWakeupEver | class_repo/thread-pool/threadpool.c:164-197 | in every reachable open state with a non-empty queue somebody is awake, and if anyone sleeps at least as many workers are heading for the lock as elements are queued |
| PoolProtocol.FifoExactlyOnceEver | class_repo/thread-pool/threadpool.c:164-190 | accepted equals taken followed by queued, and each taken element runs exactly once with its own routine and argument |
| PoolProtocol.AcceptedIff | class_repo/thread-pool/threadpool.c:156-183 | in every reachable state a submission is accepted exactly if it has a routine, the pool is open and a place is free; it changes nothing otherwise |
| PoolProtocol.RejectedChangesNothing | class_repo/thread-pool/threadpool.c:166-176 | a refused submission leaves the whole system as it was |
| PoolProtocol.ClosedStep | class_repo/thread-pool/threadpool.c:277-305 | after shutdown no submission succeeds, nobody sleeps, an immediate pool dequeues nothing, and each worker step lowers the measure by exactly one |
| PoolProtocol.ClosedRun | class_repo/thread-pool/threadpool.c:277-305 | over any run after shutdown, worker steps taken and steps left add up to a constant |
| PoolProtocol.StuckMeansGone | class_repo/thread-pool/threadpool.c:277-305 | after shutdown no worker can move exactly if all have exited: no deadlock |
| PoolProtocol.ShutdownEver | class_repo/thread-pool/threadpool.c:199-247 | from any reachable state and over any run: a bounded and exact number of worker steps, then all exited and started is 0; graceful has called everything accepted, immediate leaves the queue as it was |
| ResultPool.Pool.constructor | src/shared/threadpool.c:32-62 | the state in which the runs of the protocol start: head, tail, count and shutdown are 0 and all workers are counted |
| ResultPool.Pool.Add | src/shared/threadpool.c:65-124 | accepted exactly with a routine, a free slot and no shutdown: the slot at the tail holds it without a result and is handed out; each refusal exactly in its case and with nothing changed |
| ResultPool.Pool.Turn | src/shared/threadpool.c:225-244 | the slot at the head is marked not done and handed to the worker in place, without a copy |
| ResultPool.Pool.BeginShutdown | src/shared/threadpool.c:157-172 | both kinds of shutdown set the same value |
| Handshake.StepKeepsInv | src/shared/threadpool.c:65-258 | with a waiting producer, the one outstanding submission is queued, in one worker's hands, or finished in its slot |
| Handshake.WaitReturnsOwnResult | src/shared/threadpool.c:126-141 | a wait returns what the single call of its own submission computed, as did every wait before it |
| Handshake.SlotStays | src/shared/threadpool.c:239-253 | until the wait returns nothing rewrites the slot, and once done it does not change at all |
| Handshake.WaitProgresses | src/shared/threadpool.c:126-141 | while a wait is not over, some worker step brings it strictly closer |
| Handshake.NoStepSetsBack | src/shared/threadpool.c:217-258 | no step of anyone takes it further away |
| Handshake.NothingLostAtDestroy | src/server/server.c:535-543 | with the loop's add-then-wait habit everything submitted has been run and collected when the pool is destroyed |
| SlotReuse.StepKeepsBooks | src/shared/threadpool.c:65-258 | every step keeps that each dequeued submission is with one worker or was called once, and which submission each slot holds; calls stay their own exactly unless the step overwrites |
| SlotReuse.OwnTasksIffNoneOverwritten | src/shared/threadpool.c:239-248 | over every run, ring size and number of workers: one call per dequeued submission, which runs its own task if and only if no submission was accepted into a slot that a worker had yet to run |
| SlotReuse.AcceptedIff | src/shared/threadpool.c:69-109 | in a run a submission is accepted exactly with a routine, no shutdown and a free slot, into the slot at the tail |
| SlotReuse.TailReuses | src/shared/threadpool.c:79-109 | the slot of a submission is that of the one a whole ring before it |
| SlotReuse.LookingIsEnough | src/shared/threadpool.c:126-141 | if each submission finds the one a whole ring before it done, or there is none, every call runs the task it is for |
| SlotReuse.LookingReadsOwnResult | src/shared/threadpool.c:239-253 | with several submissions outstanding, a slot that is done holds the value that the one call made for its submission, with its own task, computed |
| SlotReuse.WaitingIsEnough | src/server/server.c:535-543 | a producer that waits for each submission never overwrites |
| SlotReuse.DrainsIff | src/shared/threadpool.c:157-182 | over every run with a shutdown, every accepted submission has a call of its own if and only if none was queued at destroy and none was overwritten; without overwriting, tasks called and tasks queued make up the tasks accepted |
| SlotReuse.UnwaitedTaskIsLost | src/shared/threadpool.c:239-248 | two different submissions, an empty queue at the end, and yet the first never ran and the second ran twice |
| Handshake.LostDecrement | src/shared/threadpool.c:232-257 | for two workers or more there is a run that leaves the start counter at 1 with every worker gone |
| Handshake.FreeProceedsIffOneWorker | src/shared/threadpool.c:192-197 | the counter is 0 after every complete run if and only if the pool has one worker |
| HeaderTable.Headers.constructor | src/shared/http.c:26-37 | an empty table of the given size |
| HeaderTable.Headers.Add | src/shared/http.c:70-102 | the filled slots get the header at their end; the array grows by one slot exactly if it was full |
| HeaderTable.Headers.Remove | src/shared/http.c:104-138 | the filled slots lose the first header of the key and keep their order, or nothing changes; the array halves exactly if what is left is neither nothing nor half of it |
| HeaderTable.Headers.Find | src/shared/http.c:108-111 | the first slot with the key, or the index behind the last header |
| HeaderTable.RemoveFirstAt | src/shared/http.c:114-118 | removing is closing the gap at the first match |
| HeaderTable.EveryHeaderHasSlot | src/shared/http.c:70-138 | under any mix of additions and removals header_index stays within header_count |
| HeaderTable.AddsFillEverySlot | src/server/server.c:1248-1257 | from one slot, a run of additions fills every slot, so printing header_count headers prints the list |
| HeaderTable.RemovalLeavesSlot | src/shared/http.c:120-132 | after a removal some counted slot is always unfilled |
| HeaderTable.FilledAgainIff | src/shared/http.c:70-138 | after any run, every counted slot is filled again exactly after as many additions as there are empty slots |
| HeaderCodec.SerializeHeaders | src/shared/http.c:140-176 | the first pass computes exactly the length the second pass writes, and the text is the printed list, if and only if that length is an int |
| HeaderCodec.PrintedLine | src/shared/http.c:165-172 | every header is printed in a line of its own, key and value with a colon and a space between |
| HeaderCodec.CountRuns | src/shared/http.c:185-200 | the number of runs of line endings |
| HeaderCodec.RunsAreStarts | src/shared/http.c:185-200 | that is, of the line endings at the start or behind another character |
| HeaderCodec.StrTok | src/shared/http.c:220-241 | the next token, ended in place by a NUL, with the unread rest still the original text |
| HeaderCodec.DeserializeHeaders | src/shared/http.c:178-246 | for every text within the copy's bounds, in-place tokenizing yields exactly the headers of its lines; the table has the estimated size or the number of headers |
| HeaderCodec.LineWithoutColon | src/shared/http.c:226-227 | a line of any text without a colon gives no header |
| HeaderCodec.LineWithColon | src/shared/http.c:226-233 | a line with a colon gives one: the key before the first colon, the value two characters behind it |
| HeaderCodec.LineEndsWithColon | src/shared/http.c:231 | a line that ends with its only colon gets the text of the next lines as its value |
| HeaderCodec.NoLine | src/shared/http.c:221 | line endings between lines are skipped |
| HeaderCodec.EstimateBounds | src/shared/http.c:185-204 | the estimate bounds the parsed headers of any terminated text, so the table never grows |
| HeaderCodec.HeadersRoundTrip | src/shared/http.c:140-246 | printing and parsing any headers without colon or line ending in keys and without line ending in values gives the same list |
| HeaderCodec.SectionParses | src/shared/http.c:483-487 | a section with its start line parses to its headers if and only if that line has no colon; otherwise one spurious header leads the list |
| CText.FindBlankFirst | src/shared/http.c:989 | the search for CRLFCRLF misses none and finds the first |
| CText.FindBlankPrefix | src/shared/http.c:989 | what is found stays found as more text arrives |
| CText.AtoiDecimal | src/shared/http.c:564 | atoi inverts decimal printing, whatever follows that is not a digit |
| CText.AtoiSigned | src/shared/http.c:564 | atoi reads white space, a sign and digits, and zero without digits |
| CText.DigitsLast | src/shared/http.c:564 | each further digit adds ten times what was read before |
| CText.DecimalLeads | src/shared/http.c:735 | numbers are printed without leading zeros |
| CText.NextWordIff | src/shared/http.c:447 | a scanned word is exactly what stands between white space, and none is found exactly in white space alone |
| CText.SpaceCodes | src/shared/http.c:447 | white space is the characters 9 to 13 and 32 |
| HttpMessages.SerializeRequest | src/shared/http.c:376-409 | verb, uri and version with one space between, a line ending, the headers and a line ending, at their places in the buffer; the returned size is their sum, if and only if that is an int |
| HttpMessages.TwoSpaces | src/shared/http.c:404 | the printed first line of a valid request has just two white-space characters, at the two places between |
| HttpMessages.SerializeResponse | src/shared/http.c:701-749 | version, number and reason, the headers and the body at their places in the buffer; the returned size is the printed length plus four minus the digits of the status; the text fits if and only if the status has four digits or fewer and that size is an int |
| HttpMessages.DeserializeRequest | src/shared/http.c:411-499 | the parse of any text that fits the fixed arrays, with each of its three failures |
| HttpMessages.DeserializeResponse | src/shared/http.c:751-861 | the same for responses |
| HttpMessages.RequestParsedIff | src/shared/http.c:438-487 | a request is parsed exactly from three words of the first line, in this order, and the headers up to the first blank line |
| HttpMessages.ResponseParsedIff | src/shared/http.c:778-845 | a response exactly from a word and a number of the first line, what is behind its second space, and the headers |
| HttpMessages.FirstLineBetween | src/shared/http.c:438 | the first line is what stands between line endings, none in line endings alone |
| HttpMessages.NextIntSigned | src/shared/http.c:785 | the number is white space, a sign and digits, of which there must be one |
| HttpMessages.ReasonIff | src/shared/http.c:794-801 | the reason is what is behind two spaces, and none without them |
| HttpMessages.RequestFitsIff | src/shared/http.c:413 | no word overruns its array exactly below 16, 256 and 16 characters |
| HttpMessages.ResponseFitsIff | src/shared/http.c:753 | the same for version, number and reason |
| HttpMessages.BlankOfSection | src/shared/http.c:465-474 | the first CRLFCRLF of a printed section is its end, whatever follows |
| HttpMessages.RequestRoundTripIff | src/shared/http.c:376-499 | every valid request comes back from its printed form with anything behind it, if and only if its request line has no colon |
| HttpMessages.ResponseRoundTripIff | src/shared/http.c:701-861 | the same for every valid response, whatever the digits of its status |
| HttpStream.SectionEndOfPrefix | src/shared/http.c:982-995 | part of a stream shows the end of the header section exactly if it reaches that far, and then the same end |
| HttpStream.ReadUntilDoubleEndLine | src/shared/http.c:961-999 | for every stream and every split: the buffer is a prefix of the stream, the section ends at size minus extra at the stream's own first blank line, the rest is still to come; full buffer, close and error as the code returns them |
| HttpStream.FindHeaderValue | src/shared/http.c:248-259 | the value of the first header of a key |
| HttpStream.HeaderValueIs | src/shared/http.c:251-258 | it is the value at the first index with that key |
| HttpStream.ReceiveBody | src/shared/http.c:567-603 | extra and received bytes join to the stream's body whatever the split; a short stream is refused exactly on error or when nothing follows the read that found the section |
| HttpStream.ReceiveRequest | src/shared/http.c:535-607 | for every stream and split: nothing at an early end, what C leaves undefined exactly in the stated cases, and otherwise head and body, where only a truncated body depends on the split |
| HttpStream.ReceiveResponse | src/shared/http.c:887-959 | the same for responses |
| HttpStream.SectionDecides | src/shared/http.c:557 | what the parser makes of the buffer depends on the header section alone, not on what was read behind it |
| HttpStream.ResponseArrivesIff | src/shared/http.c:887-959 | no split of a stream leads to anything undefined if and only if it ends early or has a section that parses, a body length that leaves an int for its buffer, and nothing behind the body that overruns |
| HttpStream.RequestArrivesIff | src/shared/http.c:535-607 | the same for requests |
| HttpStream.BodyFitsIff | src/shared/http.c:570-583 | what is read behind the section fits the body buffer wherever the read stops, if and only if stream or receive buffer end in time |
| HttpStream.OverrunSplit | src/shared/http.c:579-583 | otherwise there is a split that overruns it |
| HttpStream.SendRequest | src/shared/http.c:501-533 | all of header section and body goes out, or as much as there is room for and -1; nothing does if and only if the section's size is no int |
| HttpStream.SendResponse | src/shared/http.c:863-885 | the printed response and the surplus bytes go out, or as much as there is room for and -1; nothing does if and only if the status overruns the buffer or the size is no int |
| HttpStream.ResponseDelivered | src/shared/http.c:701-959 | a sent response that announces its body, of any size that can be received, has its head at the front of the stream and its body behind it, and the surplus fits |
| HttpStream.RequestDelivered | src/shared/http.c:376-607 | the same for requests |
| HttpStream.SurplusFitsIff | src/shared/http.c:704-712 | the surplus fits the receiver's buffer if and only if there is no body, or it can be allocated and the status has three digits or more or section and body leave the surplus unread |
| HttpStream.TooLongToReceive | src/shared/http.c:911-922 | behind a head that announces 2147483647 bytes or more, every split of every stream overflows the size of the body's buffer |
| HttpStream.RequestTooLongToReceive | src/shared/http.c:559-570 | the same for requests |
| HttpStream.LongestLength | src/shared/http.c:911-922 | a valid response head within the receive buffer announces just that |
| HttpStream.ExchangeResponse | src/shared/http.c:863-959 | end to end: serialized, sent, split anyhow and received, a response whose size is an int comes back with version, status, reason, headers and body |
| HttpStream.ExchangeRequest | src/shared/http.c:501-607 | end to end for requests, with nothing left in the stream |
| Ieee754.NormalForm | src/shared/pack.c:39-50 | the two loops find the one mantissa in [1, 2) and its exponent, and end |
| Ieee754.Pack | src/shared/pack.c:17-61 | the loops and shifts compute the specified pattern |
| Ieee754.Unpack | src/shared/pack.c:66-99 | the loops compute the specified value |
| Ieee754.NormalizeUnique | src/shared/pack.c:39-50 | any number written as m times 2 to the k with 1 <= m < 2 normalizes to that m and k |
| Ieee754.NormalizeExact | src/shared/pack.c:39-50 | the normal form is exact |
| Ieee754.PatternIdentity | src/shared/pack.c:17-99 | every bit pattern of every supported shape survives unpacking and packing |
| Ieee754.ErrorBoundIff | src/shared/pack.c:41-98 | for every number in range the round trip is off by less than one unit in the last place if and only if no carry is lost and the pattern is not that of zero |
| Ieee754.SignKept | src/shared/pack.c:27-60 | the top bit is the sign and the pattern fits its width |
| Ieee754.RepresentableIff | src/shared/pack.c:17-99 | a number comes back exactly if and only if it is the value of some pattern |
| Ieee754.PackMonotoneIff | src/shared/pack.c:41-60 | packing keeps the order of two positive numbers if and only if the larger loses no carry, has the larger exponent, or the smaller has a zero significand field |
| Ieee754.PatternMeans | src/shared/pack.c:76-98 | a pattern stands for its sign, one and its significand over 2 to the n, and 2 to the exponent less 2 to the expbits - 1 plus 1 |
| Ieee754.Ones | src/shared/pack.c:17-61 | 1.0 is 0x3c00, 0x3f800000 and 0x3ff0000000000000 |
| Ieee754.HalfFitsIff | src/shared/pack.c:54 | the half is kept exactly where it fits a single precision significand |
| Ieee754.WideNeverCarries | src/shared/pack.c:54 | from 23 significand bits on the half is rounded away and no number loses a carry |
| Ieee754.WideMonotone | src/shared/pack.c:17-61 | so packing keeps the order of all positive numbers in the 32- and 64-bit shapes |
| Ieee754.CarryIsLost | src/shared/pack.c:54-60 | 1.9999 loses its carry in 16 bits and gets a smaller pattern than 1.5 |
| Ieee754.SmallestLooksZero | src/shared/pack.c:60-74 | the smallest positive number of every shape gets pattern 0 and comes back as 0 |
| Bytes.FromBigEndian | src/shared/pack.c:104-134 | reading back n bytes of a stored integer gives it modulo 256 to the n |
| Bytes.ToBigEndian | src/shared/pack.c:160-237 | storing what was read gives the same bytes |
| Bytes.BigEndianAt | src/shared/pack.c:104-134 | byte k of n is the value over 256 to the n - 1 - k, modulo 256 |
| Bytes.SignedWrapMeans | src/shared/pack.c:139-155 | two's complement is the number of the range that differs by a multiple of 256 to the n |
| Bytes.ResignWraps | src/shared/pack.c:139-155 | the sign test turns an n-byte value into the two's complement integer congruent to the original |
| PackFormat.Pack | src/shared/pack.c:257-383 | the buffer gets exactly the bytes of the arguments in format order and nothing else changes; the size wraps like an unsigned int |
| PackFormat.Unpack | src/shared/pack.c:399-530 | the values and the final cursor that the format determines |
| PackFormat.UnpackUnsignedIsFromBytes | src/shared/pack.c:160-237 | the byte expressions of unpacku16, unpacku32 and unpacku64 are big-endian values |
| PackFormat.RoundTrip | src/shared/pack.c:257-530 | unpacking with the same format gives each integer reduced to width and sign, each string cut to its limit, and consumes exactly what was produced, whatever follows |
| PackFormat.RepresentableReal | src/shared/pack.c:340-366 | a real that a pattern of the width stands for comes back unchanged |
| PackFormat.AllOnes | src/shared/pack.c:432-480 | bytes of all ones come back as -1 for c, h, l, q and as the largest number for C, H, L, Q, of 1, 2, 4 and 8 bytes |
| PackFormat.OneInF | src/shared/pack.c:344-350 | the bytes of 1.0 in 16 bits |
| PackFormat.OneInD | src/shared/pack.c:352-358 | in 32 bits |
| PackFormat.OneInG | src/shared/pack.c:360-366 | in 64 bits |
| PackFormat.LimitedString | src/shared/pack.c:505-526 | a decimal number n in front of s lets n - 1 bytes of a longer string through |
| PackFormat.LimitAppend | src/shared/pack.c:518-526 | each digit adds to the number, anything else ends it |
| PackFormat.IntegerComesBackIff | src/shared/pack.c:139-226 | an integer comes back unchanged if and only if it fits its width and signedness |
| PackFormat.StringReadBackIff | src/shared/pack.c:505-516 | the 16-bit prefix finds the end of a string if and only if what was copied of it is short; its value is right also where both lengths are cut alike |
| PackFormat.StringComesBackIff | src/shared/pack.c:368-376 | anywhere in a format, with its limit and anything behind it, a string and the cursor come back if and only if it is shorter than 65536 bytes, or wraps to that and is cut alike |
| Sockets.RecvAll | src/shared/common.c:64-95 | for every pattern of partial receives: exactly the first len elements and a terminator, or what arrived before a close, or -1 |
| Sockets.SendAll | src/shared/common.c:107-128 | for every pattern of partial sends: all of the data, or as much as there was room for and -1 |
| Packets.SendPacket | src/shared/common.c:203-236 | one frame goes out and takes its room, or what there is room for and -1 |
| Packets.ReceivePacket | src/shared/common.c:238-287 | the first frame of the stream, or the return value for each way it can be missing or malformed |
| Packets.FrameBytes | src/shared/common.c:213-220 | a frame is the four bytes of its length, highest first, and its data |
| Packets.NoSuchLength | src/shared/common.c:261-270 | a length of zero or with its first bit set is refused with -1 |
| Packets.TooShort | src/shared/common.c:247-279 | a stream that ends in a frame gives 0 exactly if closed at its start or right behind the length, else -1 |
| Packets.WholeFrame | src/shared/common.c:203-287 | a stream that starts with a frame yields its data and leaves the rest |
| Packets.FrameTaken | src/shared/common.c:238-287 | what is reported as received was framed at the front of the stream |
| Packets.CutAnywhere | src/shared/common.c:64-287 | cut at any byte, repeated receives report exactly the packets delivered whole; the last one says 0 if and only if the peer closed between packets or right behind a length |
| Packets.NothingLost | src/shared/common.c:203-287 | every list of non-empty packets comes back uncut |
| Packets.ExchangePackets | src/shared/common.c:64-287 | a list sent over partial sends and received over partial receives comes back as the packets there was room for, all of them if there was room |
| SelectLoop.Table.Create | src/server/server.c:1470-1492 | a record for the descriptor exactly if descriptor and port are positive |
| SelectLoop.Table.Free | src/server/server.c:1522-1534 | the record is gone and its own descriptor is the one closed |
| SelectLoop.AcceptKeeps | src/server/server.c:458-490 | accepting keeps the watched set equal to listeners and both tables, also when the record is refused |
| SelectLoop.DropKeeps | src/server/server.c:580-592 | closing a client keeps it too |
| SelectLoop.Server.constructor | src/server/server.c:391-402 | the loop starts watching the three listeners, with max_fd their maximum |
| SelectLoop.Server.NewClient | src/server/server.c:455-491 | one new descriptor in the watched set, the table and the log, or -1 and nothing kept |
| SelectLoop.Server.ServeClient | src/server/server.c:561-601 | a client is let go exactly if its work was refused, failed or found the connection closed; a missing record ends the loop |
| SelectLoop.Server.Visit | src/server/server.c:451-789 | one visit, settled as its kind of descriptor demands, with its call and the states before and after in the log |
| LoopLog.ClientStaysIff | src/server/server.c:561-641 | in every run a visited client stays watched and in its table exactly if its task was run and neither failed nor found the connection closed, and is closed exactly if not; all else is as it was |
| LoopLog.AcceptAddsOne | src/server/server.c:455-529 | in every run a connection adds exactly one descriptor to the table of its listener, or ends the loop and adds none |
| LoopLog.EveryCloseHasReason | src/server/server.c:451-789 | in every run each close is that of a client whose task was refused, failed or found the connection closed, of a client with an exception, or of a connection without a record |
| LoopLog.OthersStay | src/server/server.c:451-789 | a visit leaves every other descriptor watched and in its table as it was |
| LoopLog.CountOutlastsPass | src/server/server.c:444-453 | select's count, decremented once per visit, cannot reach 0 while a ready descriptor is unvisited |
| LoopLog.ServedAsReported | src/server/server.c:449-790 | in a complete pass each ready descriptor is visited once: read or accepted exactly if readable, written exactly if writable only, failed exactly if neither, and by the handlers of its own kind |
| SelectLoop.Server.HandlePass | src/server/server.c:447-791 | a pass that does not end the loop is complete; one that ends it has visited an initial part, in order |
| SelectLoop.Server.FreeAll | src/server/server.c:1514-1520 | every descriptor left in a table is closed, once |
| SelectLoop.Server.Round | src/server/server.c:433-802 | a select and its pass: complete unless the loop ends with -1, and the descriptor invariant holds again |
| SelectLoop.Server.HandleConnections | src/server/server.c:432-814 | over any run the visits of the passes are its history, one pass for each report of select, every pass but a failing last one is complete; from where the loop ends on there are only closes, the log is proper, and nothing stays open |
| DescriptorLog.ClosedExactlyOnce | src/server/server.c:805-813 | in such a log every accepted descriptor is closed, by exactly one close, even if its number is given out again |
| DescriptorLog.CloseHasOpening | src/server/server.c:1522-1534 | and every close ends an opening of its own: none is closed twice |
| Substrings.ContainsAt | src/server/server.c:890 | the search answers true exactly if the word lies somewhere in the text |
| PingPong.SimpleClient.constructor | src/server/server.c:1470-1492 | no packet is stored at first |
| PingPong.SimpleClient.HandleRead | src/server/server.c:816-864 | the first packet of the stream is stored, or the client is reported closed or failed; what arrived is always what was read and what is to come |
| PingPong.SimpleClient.HandleWrite | src/server/server.c:866-938 | directly behind a packet with PING the four letters PONG go out behind their length, otherwise the greeting does, or the client fails |
| PingPong.PongExactlyAfterPing | src/server/server.c:889-931 | over any run a write answers PONG if and only if what came just before it was a read of a packet with PING |
| PingPong.WriteOnTheWire | src/server/server.c:889-931 | in any run each write puts exactly the bytes of PONG or of the greeting on the wire, as the operation before it was a read of a packet with PING or not; reads put nothing there |
| PingPong.PongsConserved | src/server/server.c:839-931 | over any run, PING packets read equal PONGs plus the one pending plus those replaced by another read |
| PingPong.ReadsArePrefix | src/server/server.c:839-856 | what is read of a stream of packets is the first of them, in order |
| PingPong.RepliesArrive | src/shared/common.c:203-287 | the other end receives exactly the replies, in order |
| Heartbeats.HeartbeatData.constructor | src/shared/common.c:352-378 | no packet is stored at first |
| Heartbeats.HeartbeatData.HandleRead | src/server/server.c:967-1010 | the packet and sender of a datagram are stored over the last ones, or the packet is dropped |
| Heartbeats.HeartbeatData.HandleWrite | src/server/server.c:1036-1084 | a packet ACK to the stored sender for a stored HEARTBEAT, after which nothing is stored; otherwise nothing |
| Heartbeats.AckIff | src/server/server.c:1036-1084 | in any run an operation sends ACK exactly if it is a write directly behind a datagram with HEARTBEAT, to its sender |
| Heartbeats.AcksAnswerHeartbeats | src/server/server.c:967-1084 | over any run, ACKs go to the senders of exactly those heartbeats that a write follows, one each and in order |
| Heartbeats.AcksConserved | src/server/server.c:967-1084 | heartbeats received equal ACKs plus the one pending plus those something else was received over |

## Left out

- Socket setup, address resolution, argument parsing, logging and the client programs: plumbing around calls
  that cannot be seen here. The heartbeat client's retry counter has three values and no more to it.
- Files, directories, MIME types and the paths of the HTTP write handler: foreign calls and table lookups.
- Failures of allocation and of pthread calls, memory leaks and pointer ownership.
- A second `threadpool_destroy` on a pool that is already shutting down: it leaves the lock held.
- A ring of no slots in the server's pool, which would divide by zero.
- A `float` argument of the 16-bit format is first rounded to single precision on the way out; values are
  kept exact here. Rounding of `long double` itself is not modelled.
- Reuse of one reply packet's memory, buffer pointers and aliasing: packets and messages are values.
- What happens after something undefined, which the receive and send functions of `HttpStream` report as such.
- Numbers whose exponent is out of range: `pack754` shifts them into the sign, and nothing is claimed.
- The sequence of handler results in the loop is arbitrary: `SelectLoop` does not run the handlers of `PingPong`
  and `Heartbeats` itself, and the pool between them is only a refusal or a result.
- SelectLoop.Server.HandleConnections: runs any given number of passes and then cleans up, so it covers every
  finite run and says nothing about how long a run takes.
- PoolProtocol.ShutdownEver: counts worker steps and shows that some worker can move while one is left; that the
  scheduler lets it move is an assumption about the system.
- Handshake.WaitProgresses: the same holds for the wait, which ends if the workers are scheduled.
- HttpMessages.SerializeResponse: a negative status, which is refused where responses are made, is excluded.
- `remove_header` has no caller in the source; what it leaves for later additions is stated all the same.
- HeaderCodec.DeserializeHeaders: a text that ends right behind the only colon of its last line is read past its
  end and is excluded; a header section with its blank line never is such a text.
- The server's two copies of the simple and HTTP client tables are one class, `SelectLoop.Table`.
