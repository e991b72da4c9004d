# Verified model of Anakin's storage, containers and protocols

A Dafny model of the parts of Anakin and its libraries that carry the most logic,
with proofs. `dafny verify dfyconfig.toml` verifies every file.

- **QuickLZ level 3** (`QuickLzFormat`, `QuickLzHistory`, `QuickLzCompress`,
  `QuickLzDecompress`, `QuickLz`, `QuickLzWords`, `QuickLzRun`). Every pattern, scene
  and index is stored through this codec. Between the two programs stands a list of
  tokens (a literal byte, or a copy from earlier output) and its layout in bytes: groups
  of 31 tokens behind a control word. The compressor is proved to leave a layout that
  expands to its input, within a size bound, or to give up exactly when its source does;
  the decompressor to restore what any layout expands to. Its hash history is proved to
  hold the positions read, so that the tokens, and with them the output, are those the
  input alone decides: the longest, then nearest, match among the recent positions.
  Pointers are indices; words are integers below 2^32, and `QuickLzWords` proves that
  the shifts and masks of the source, on 32-bit words, compute what the model says of
  the numbers they hold (`Words` has what that needs).
- **TBB containers**. `Aggregator` is the mailbox protocol as a state machine over the
  steps of any number of threads; `AggregatorReturn` shows that the calls under way can
  be completed from every state, and `ConcurrentReturn` the same of the next.
  `PriorityQueue` is the batch executor of the priority queue; `ConcurrentQueue` puts it
  behind the queue's own mailbox, and every run of any number of threads is linearizable
  in real-time order. `HashTable` is the lazily split hash map as a state machine over
  critical sections, proved to refine a plain map; `HashSubtree` and `HashMap` add the
  program itself, with the serial rehash. `LruCache` is the reference-counted cache, and
  `LruReuse` says how often a value is computed.
- **JSON** (`JsonGrammar`, `JsonRoundTrip`, `JsonParsed`, `JsonTruncated`, `Json`):
  printer and parser, which undo each other. `JsonScan` says exactly what the parser
  accepts and where it does not end, `JsonSyntax` relates that to syntax trees of the
  grammar, `JsonMeaning` that every such tree is read as what it means, and
  `JsonPrinted` that what is printed is one and means the value. `Doubles` says what a
  double holds of an integer.
- **Edit distance** (`EditDistance`): the two-row program against shortest edit paths.
- **Mongoose** (`StreamHash`, `Sha1`, `Md5`, `WebSocket`, `WebSocketBuffer`): hashing in
  pieces with the compression function as a parameter, and frames over a byte stream,
  through a buffer that grows by doubling.
- **Anakin's own state machines**: `MatcherCache`, `FlagGrammar` with `Flags`, and
  `WorkerPool`.

`Arithmetic` holds what several of them need of powers of two, division and exclusive or.

Programs that update fields and arrays are classes and methods, proved against
functions on values; what the source promises is then proved about those functions,
or about every run of a state machine. Locks are taken at their word: one critical
section is one step, and steps of different threads interleave freely.

## What the code does not promise

Where the model meets a case in which the source does not do what one would expect,
the case is stated exactly:

- `concurrent_lru_cache` with a history size of 0 evicts from an empty list on the
  last release of a key, the first time it comes to that (`LruCache.ReleaseDefined`,
  `LruCache.NoHistory`).
- `SHA1Update`, taken by itself, keeps its promise exactly if buffered and new bytes
  together stay below 2^32; one buffered byte and 2^32 - 1 new ones break it
  (`Sha1.Context.Update`, `Sha1.Context.WrapsAt`). The function is static and the program
  calls it with short lengths only. `MD5Update` always keeps it (`Md5.Context.Update`).
- The JSON parser does not end exactly on the texts in which, outside strings and before
  the first error, an exponent above 2^53 + 1 is written, because it counts to it with a
  double (`JsonScan.ParseHangs`, `JsonScan.ExponentLimit`).
- It accepts a member name whose opening quote is any character, literals in any case,
  and raw tabs (`JsonScan.OpeningQuote`, `JsonScan.Capitals`, `JsonScan.RawTab`); what it
  accepts without one of these is exactly the grammar of RFC 8259
  (`JsonScan.StrictDocuments`, `JsonSyntax.AcceptedTexts`).
- A JSON string comes back exactly if its units are not negative: below zero only
  sixteen bits are printed (`JsonRoundTrip.StringRoundTrip`).
- A WebSocket frame that is in the buffer is delivered exactly if an int can count all
  its bytes, header included (`WebSocket.ParseEncoded`). Its length is read right exactly
  below 2^31, since the upper half of the 64-bit form is shifted out of an int
  (`WebSocket.LengthRead`); a payload of 2^31 - 5 bytes is read right and never delivered
  (`WebSocket.NeverDelivered`).
- Into the buffer gets only what finds room, or whose doubled length is an int: what
  `iobuf_append` returns is not looked at, and other chunks are lost. Unmasked frames
  arrive exactly if an int can count the bytes of each and no chunk is lost
  (`WebSocketBuffer.PlainFramesArrive`); behind a masking key up to four lost bytes a frame
  can go unnoticed, and never more (`WebSocketBuffer.LossShows`,
  `WebSocketBuffer.HiddenLoss`). Frames of at most 2^30 - 2048 bytes always arrive while
  memory is granted (`WebSocketBuffer.ShortFramesArrive`). A frame of 2^30 bytes or more in
  full reads into an empty buffer never does, although an int can count its bytes
  (`WebSocketBuffer.OneFrame`, `WebSocketBuffer.GrowthFails`). For other frames of that
  size it depends on the capacity reached when their bytes come in.
- With unknown flags passed over, a flag that needs values is accepted without one if an
  unknown flag follows it at the end, and with a value that goes nowhere if that stands
  behind an unknown flag (`FlagGrammar.ValueMissing`, `Flags.StoredOrSkipped`); otherwise
  it always has its own (`FlagGrammar.ValuesPresent`).
- The matcher cache with a capacity of 0 still holds one matcher, which its size does
  not count (`MatcherCache.SizeCounts`, `MatcherCache.LoadIntoNothing`).
- Without workers a shutdown ends with the requests unserved, or the server waits for ever
  with one more than the queue can hold; with a queue of capacity 0 it cannot push its
  nulls (`WorkerPool.ReachableSafe`,
  `WorkerPool.StuckIffNoRoom`, `WorkerPool.NobodyServes`, `WorkerPool.NoRoomForNull`,
  `WorkerPool.FullForEver`).

## Model

| member | source | states |
|---|---|---|
| QuickLzFormat.CopyBackUnique | lib/quicklz.c:196-206 | a match copies bytes that may be its own output; the result is the one extension in which every new byte equals the byte `offset` before it |
| QuickLzFormat.MatchCodeRoundTrip | lib/quicklz.c:429-450 | whatever bytes follow, the decoder's case split on the first four bytes gives back offset, length and code size of the encoder's five forms |
| QuickLzFormat.DecodeValue | lib/quicklz.c:612-632 | the five forms are told apart by their low bits, for every offset from 3 to 131070 and every length from 3 to 255 |
| QuickLzFormat.MatchCodeRange | lib/quicklz.c:429-450 | every code fits the bytes it is written in |
| QuickLzFormat.LayoutAppend | lib/quicklz.c:264-277 | a stream grows by whole groups of 31 tokens behind their control word |
| QuickLzFormat.LayoutInjective | lib/quicklz.c:550-689 | two token lists over the same size with a common byte prefix are the same list |
| QuickLzFormat.LayoutSize | lib/quicklz.c:264-277 | the size of a stream is its payload and four bytes for each started group |
| QuickLzFormat.PayloadBound | lib/quicklz.c:429-456 | a token never takes more bytes than it covers, so the payload of a whole input is no longer than the input |
| QuickLzFormat.ExpandLength | lib/quicklz.c:645-646 | a token list that covers an input expands to exactly that many bytes |
| QuickLzFormat.HeaderRoundTrip | lib/quicklz.c:175-194 | the three size functions and the compressed bit read back what either header form was written with |
| QuickLzFormat.HeaderFlags | lib/quicklz.c:748-763 | the bits of the flag byte: compressed, sizes of four bytes, level 3, no streaming buffer, and bit 6 set |
| QuickLzFormat.EncodesUnique | lib/quicklz.c:772-809 | one stream is the encoding of at most one byte string |
| QuickLzHistory.CompressState.Reset | lib/quicklz.c:71-80 | after the reset the history holds no position, of whatever input |
| QuickLzHistory.CompressState.Record | lib/quicklz.c:410-413 | the position is put into the slot of its counter, the counter goes up modulo 256, and all other slots and counters are unchanged |
| QuickLzHistory.CompressState.Enter | lib/quicklz.c:410-424 | one more position: afterwards, for every hash, the counter is the number of positions so far with that hash modulo 256, and the slots hold the last 16 of them |
| QuickLzHistory.EnteredIs | lib/quicklz.c:410-424 | the positions entered for a hash are exactly those whose three bytes have it, in order |
| QuickLzHistory.SlotsAreRecent | lib/quicklz.c:368-380 | the slots the search looks at hold exactly the last positions with the hash of the bytes here: 16, or fewer after the counter has wrapped |
| QuickLzHistory.Fetch3Equal | lib/quicklz.c:102-116 | two fetches are equal exactly if the three bytes are |
| QuickLzHistory.CommonLen | lib/quicklz.c:395-397 | the length found is the longest common stretch up to the limit |
| QuickLzHistory.SlotLenIs | lib/quicklz.c:375-397 | what a slot offers is the longest stretch in common, up to the limit, if that is at least three bytes and not too near |
| QuickLzHistory.TrySlot | lib/quicklz.c:375-397 | a history slot gives the length of its match, or 0 if its three bytes differ or it is too near |
| QuickLzHistory.FindMatch | lib/quicklz.c:368-413 | the match returned shares its bytes with the input here, and no other recent position offers a longer one, nor one as long and nearer; 0 exactly if none offers any |
| QuickLzHistory.GreedyTokenUnique | lib/quicklz.c:368-456 | the input alone decides which token is met at a position |
| QuickLzHistory.GreedyUnique | lib/quicklz.c:264-518 | the tokens of an input are one list, and every list of its first tokens is a beginning of it |
| QuickLzCompress.FastWrite | lib/quicklz.c:132-156 | writes the low bytes of a word, least significant first, and nothing else |
| QuickLzCompress.WriteToken | lib/quicklz.c:429-456 | writes exactly the code of the token and says how long it is |
| QuickLzCompress.CwordStep | lib/quicklz.c:426-455 | shifting in a flag keeps the control word the image of the group so far |
| QuickLzCompress.CwordFull | lib/quicklz.c:265-276 | the sentinel reaches bit 0 exactly after 31 flags, and the stored word is then the group's |
| QuickLzCompress.FillWord | lib/quicklz.c:271 | the four bytes kept free for the control word are filled in, all other written bytes stay |
| QuickLzCompress.CloseGroup | lib/quicklz.c:265-277 | closing a group leaves the layout of all tokens so far and four free bytes |
| QuickLzCompress.PutToken | lib/quicklz.c:415-456 | a token adds its code and its flag; it takes at most min(4, covered) bytes |
| QuickLzCompress.PickToken | lib/quicklz.c:359-428 | the token is the one the input asks for here: the best match among the recent positions, if nearer than 131071, and one literal otherwise; it is right for the input, and all positions it covers are entered in the history |
| QuickLzCompress.CompressStep | lib/quicklz.c:264-487 | one more token of the input, whose written form stays a layout that expands to the input read, with every position read in the history; or giving up, exactly if the tokens so far are hopeless |
| QuickLzCompress.HopelessIs | lib/quicklz.c:265-269 | hopeless is: a group just filled, more than half read, and the layout of the tokens longer than 31/32 of what they expand to; the cursors say exactly that |
| QuickLzCompress.RoomBound | lib/quicklz.c:265-277 | with that bail-out the output never runs more than 128 bytes ahead of the input size |
| QuickLzCompress.CompressMain | lib/quicklz.c:264-487 | the main loop ends within ten bytes of the end, or gives up at the first point where the tokens so far are hopeless, and only there |
| QuickLzCompress.CompressTail | lib/quicklz.c:488-519 | the last bytes become literals; nothing is given up here |
| QuickLzCompress.LowerSentinel | lib/quicklz.c:521-522 | shifting until the sentinel drops out leaves exactly the flags of the last, partial group |
| QuickLzCompress.WriteLastWord | lib/quicklz.c:521-524 | what has been written is the layout of the whole token list |
| QuickLzCompress.CompressCore | lib/quicklz.c:247-528 | 0 exactly if the tokens of the input come to a hopeless group boundary; otherwise the size (at least 9) of the layout of all its tokens, which cover and expand to the input; nothing is written beyond size + 142 |
| QuickLzCompress.WriteHeader | lib/quicklz.c:748-763 | writes the flag byte and the two sizes, nothing else |
| QuickLzCompress.StreamFits | lib/quicklz.c:701-704 | below 216 bytes of input the stream with its header fits the one-byte size field |
| QuickLzCompress.Compress | lib/quicklz.c:692-770 | 0 exactly for an empty or too long input; otherwise the buffer starts with an encoding of the input of at most size + 151 bytes: the layout of the input's tokens, or the input itself if they come to a hopeless point; nothing beyond that is touched |
| QuickLzCompress.CompressedUnique | lib/quicklz.c:692-770 | one input has one compressed form, whatever buffer and history held before, but for the filling of streams below nine bytes |
| QuickLzRun.EqualBytes | lib/quicklz.c:368-456 | 14 to 262 equal bytes are three literals, one match at distance 3 up to seven bytes before the end, and four literals |
| QuickLzRun.ShortInput | lib/quicklz.c:264-518 | up to thirteen bytes are literals only |
| QuickLzRun.RunSize | lib/quicklz.c:692-770 | 41 to 262 equal bytes take fifteen bytes and the header |
| QuickLzDecompress.MemcpyUpStrided | lib/quicklz.c:208-213 | four bytes at a time in steps of three: for an offset of at least 3 the first n bytes are those of the bytewise copy, and at most three bytes more are overwritten |
| QuickLzDecompress.MemcpyUp | lib/quicklz.c:199-206 | the bytewise copy, overlap included |
| QuickLzDecompress.NextGroup | lib/quicklz.c:553-560 | at a spent control word the next group starts here |
| QuickLzDecompress.HasToken | lib/quicklz.c:569-571 | bit 0 of the control word is the kind of the next token |
| QuickLzDecompress.TakeToken | lib/quicklz.c:569-662 | taking a token off the group keeps the reader in step with the layout |
| QuickLzDecompress.TakeLiterals | lib/quicklz.c:653-662 | several literals can be taken at once, shifting the control word by as many bits |
| QuickLzDecompress.BitlutIsLiteralRun | lib/quicklz.c:542-543 | the lookup table is the number of leading literal flags, at most four |
| QuickLzDecompress.EnoughSource | lib/quicklz.c:567 | while a match or an early literal is left, four more source bytes can be fetched |
| QuickLzDecompress.NoFlags | lib/quicklz.c:666-680 | from the point where the tail loop starts all tokens are literals |
| QuickLzDecompress.PlanMatch | lib/quicklz.c:612-646 | the decoded match is the token, it starts inside the output, and its overrun stays inside |
| QuickLzDecompress.TakeMatch | lib/quicklz.c:610-647 | copying a decoded match extends the output as the token says |
| QuickLzDecompress.TakeBatch | lib/quicklz.c:653-665 | copying four bytes and keeping n of them extends the output by n literals |
| QuickLzDecompress.TakeTail | lib/quicklz.c:667-685 | the tail loop, with its control words skipped, completes the output |
| QuickLzDecompress.DecompressCore | lib/quicklz.c:530-690 | restores the bytes the token list expands to, for every layout |
| QuickLzDecompress.Decompress | lib/quicklz.c:772-809 | restores the input of any encoding, stored or compressed |
| QuickLz.CompressText | src/utils/files/QuickLZ.cpp:24-28 | 400 spare bytes are enough; the result is an encoding of the text, at least nine bytes long |
| QuickLz.DecompressText | src/utils/files/QuickLZ.cpp:30-35 | a buffer of the recorded size is enough, and the text comes back |
| QuickLz.RoundTrip | src/utils/files/QuickLZ.cpp:24-35 | decompressing what was compressed gives the text back, for every text of 1 to 2^32 - 401 bytes and every previous state of the history |
| QuickLzWords.MaskForms | lib/quicklz.c:612-630 | for every 32-bit word fetched, the source's shifts and masks give the distance, length and code size that DecodeMatch gives of its number |
| QuickLzWords.ShiftForms | lib/quicklz.c:429-450 | for every match the compressor may write, its shifts and ors give the code and size that MatchCode gives |
| QuickLzWords.ControlWordForms | lib/quicklz.c:265-275 | shifting a flag into a word that holds the control word of the tokens so far gives that of one token more; bit 0 is set exactly when the group is full, and what is stored then holds the group's flags |
| QuickLzWords.CwordValues | lib/quicklz.c:426-455 | on all control words, the shift halves, the or adds 2^31, bit 0 is the remainder by 2, the mask 15 that by 16 |
| QuickLzWords.ReadForms | lib/quicklz.c:101-113 | four bytes put together by shifts and ors spell the number that FromLe4 gives |
| QuickLzWords.WriteForms | lib/quicklz.c:132-147 | the shifts and casts that write a word out give the bytes that Le gives of its number |
| QuickLzWords.HashForms | lib/quicklz.c:94-100 | on every 32-bit word the source's shift, exclusive or and mask give the hash the model computes of its number |
| QuickLzWords.FetchForms | lib/quicklz.c:389 | masking the exclusive or of two fetches to 24 bits compares their numbers below 2^24 |
| Words.DigitsOrder | lib/quicklz.c:429-445 | words are ordered as the numbers they hold, so the comparisons of the source are those of the model |
| Words.MaskDigits | lib/quicklz.c:612-630 | a mask of k ones is the remainder by 2^k |
| Words.DifferDigits | lib/quicklz.c:94-100 | the exclusive or of words is that of the numbers they hold |
| Words.OrDigits | lib/quicklz.c:429-450 | the or of words without common digits is the sum |
| PriorityQueue.TopIsGreatest | lib/tbb42_20131118oss/include/tbb/concurrent_priority_queue.h:316-356 | nothing in a heap is greater than its top |
| PriorityQueue.PopsGreatest | lib/tbb42_20131118oss/include/tbb/concurrent_priority_queue.h:186-195 | what a sequential pop may give: an element with the greatest key, or nothing exactly if the queue is empty |
| PriorityQueue.Queue.SiftUp | lib/tbb42_20131118oss/include/tbb/concurrent_priority_queue.h:374-383 | placing one more element keeps the heap and the elements |
| PriorityQueue.Queue.Heapify | lib/tbb42_20131118oss/include/tbb/concurrent_priority_queue.h:369-385 | all of the vector becomes a heap of the same elements |
| PriorityQueue.Queue.Sink | lib/tbb42_20131118oss/include/tbb/concurrent_priority_queue.h:389-402 | the hole moves down to a place where the last element may stand |
| PriorityQueue.Queue.Reheap | lib/tbb42_20131118oss/include/tbb/concurrent_priority_queue.h:389-407 | exactly the top is removed and the heap is kept, whether the moved last element was inside or outside it |
| PriorityQueue.Queue.PopLast | lib/tbb42_20131118oss/include/tbb/concurrent_priority_queue.h:316-325 | taking the last unsorted element is a correct pop at some point of the batch |
| PriorityQueue.Queue.PopFirst | lib/tbb42_20131118oss/include/tbb/concurrent_priority_queue.h:351-357 | taking the top is a correct pop at some point of the batch |
| PriorityQueue.Queue.FirstPass | lib/tbb42_20131118oss/include/tbb/concurrent_priority_queue.h:292-331 | the first pass keeps the batch explainable |
| PriorityQueue.Queue.ArrivingPop | lib/tbb42_20131118oss/include/tbb/concurrent_priority_queue.h:314-330 | a pop is served at once if the last element is unsorted and greater than the top, and postponed otherwise |
| PriorityQueue.Queue.ServePop | lib/tbb42_20131118oss/include/tbb/concurrent_priority_queue.h:334-359 | a postponed pop is served or fails as a sequential queue would |
| PriorityQueue.Queue.HandleOperations | lib/tbb42_20131118oss/include/tbb/concurrent_priority_queue.h:287-366 | for every batch there is one order of exactly its operations in which a sequential priority queue gives every result reported and ends with the vector's elements; afterwards the vector is a heap and the size is published |
| PriorityQueue.LastTaken | lib/tbb42_20131118oss/include/tbb/concurrent_priority_queue.h:316-325 | a pop that takes the last element, while a larger unsorted one is present, is right before the others are pushed |
| PriorityQueue.TopTaken | lib/tbb42_20131118oss/include/tbb/concurrent_priority_queue.h:351-357 | a pop that takes the top is right before the unsorted elements are pushed |
| PriorityQueue.FirstTaken | lib/tbb42_20131118oss/include/tbb/concurrent_priority_queue.h:351-357 | with no heap yet, taking element 0 is right directly after its own push |
| PriorityQueue.NothingThere | lib/tbb42_20131118oss/include/tbb/concurrent_priority_queue.h:338-339 | a pop that fails is right at the end of everything taken so far |
| PriorityQueue.BatchEnd | lib/tbb42_20131118oss/include/tbb/concurrent_priority_queue.h:361-366 | at the end every operation has its place in the order |
| PriorityQueue.ExplainsAppend | lib/tbb42_20131118oss/include/tbb/concurrent_priority_queue.h:287-366 | batches one after the other are explained by one history |
| PriorityQueue.Conservation | lib/tbb42_20131118oss/include/tbb/concurrent_priority_queue.h:287-366 | contents and elements handed out are the old contents and the elements put in |
| Aggregator.StepKeepsInv | lib/tbb42_20131118oss/include/tbb/aggregator.h:143-211 | every step of every thread keeps the shape of the mailbox, the handler's chain and all records; a record may come back to the mailbox between another thread's read and its swap |
| Aggregator.KeepSwapHit | lib/tbb42_20131118oss/include/tbb/aggregator.h:153-157 | a swap that succeeds puts exactly one operation in front of the chain |
| Aggregator.KeepGrab | lib/tbb42_20131118oss/include/tbb/aggregator.h:204 | the fetch-and-store takes over the whole chain |
| Aggregator.KeepApply | lib/tbb42_20131118oss/include/tbb/aggregator.h:110-115 | the operation applied is pending, once |
| Aggregator.KeepFinish | lib/tbb42_20131118oss/include/tbb/aggregator.h:112-116 | the link is read before the owner is released |
| Aggregator.KeepRelease | lib/tbb42_20131118oss/include/tbb/aggregator.h:206-210 | the flag is released with nothing left to apply |
| Aggregator.RunKeepsInv | lib/tbb42_20131118oss/include/tbb/aggregator.h:143-211 | over any interleaving of any number of threads |
| Aggregator.ReachableSafe | lib/tbb42_20131118oss/include/tbb/aggregator.h:143-211 | at most one thread is between its swap over NULL and its grab, at most one handles, no operation is applied twice, and outside execute_impl every operation has been applied exactly once |
| Aggregator.ReturnsAfterApplied | lib/tbb42_20131118oss/include/tbb/aggregator.h:158-170 | execute_impl returns only after its own operation was applied and reported |
| Aggregator.BatchOverlaps | lib/tbb42_20131118oss/include/tbb/aggregator.h:164-170 | the operations of a batch belong to calls that are still waiting |
| Aggregator.LaterBatch | lib/tbb42_20131118oss/include/tbb/aggregator.h:153-204 | an operation still in the mailbox when others have been applied comes in a batch with a higher number than each of these, so the order of batches respects the order of calls |
| Aggregator.NeverStuck | lib/tbb42_20131118oss/include/tbb/aggregator.h:158-211 | while a thread is inside execute_impl some thread can move |
| ConcurrentQueue.StepKeepsInv | lib/tbb42_20131118oss/include/tbb/internal/_aggregator_impl.h:77-143 | every step of every thread keeps mailbox, records and history in step |
| ConcurrentQueue.KeepCall | lib/tbb42_20131118oss/include/tbb/concurrent_priority_queue.h:180-195 | a call begins with a number of its own, and all that have returned by now come before it |
| ConcurrentQueue.KeepSwap | lib/tbb42_20131118oss/include/tbb/internal/_aggregator_impl.h:88-93 | a swap that succeeds puts one operation in front of the mailbox, and the first one into an empty mailbox becomes the handler |
| ConcurrentQueue.KeepGrab | lib/tbb42_20131118oss/include/tbb/internal/_aggregator_impl.h:136-139 | taking over the mailbox puts the whole batch into effect: each of its calls once, after every call that had returned before it began |
| ConcurrentQueue.KeepReport | lib/tbb42_20131118oss/include/tbb/concurrent_priority_queue.h:292-359 | the result reported to a caller is the one its operation has in the order |
| ConcurrentQueue.KeepReturn | lib/tbb42_20131118oss/include/tbb/internal/_aggregator_impl.h:94-105 | a call returns with the result its operation has in the order |
| ConcurrentQueue.SomeOutcome | lib/tbb42_20131118oss/include/tbb/concurrent_priority_queue.h:287-366 | every batch, of any pushes and pops, has an outcome a sequential queue allows |
| ConcurrentQueue.NeverStuck | lib/tbb42_20131118oss/include/tbb/internal/_aggregator_impl.h:77-143 | while a call is under way some thread can take a step |
| ConcurrentReturn.CanComplete | lib/tbb42_20131118oss/include/tbb/internal/_aggregator_impl.h:77-143 | from every state all calls under way can be completed without another call being made |
| ConcurrentReturn.AskedAre | lib/tbb42_20131118oss/include/tbb/concurrent_priority_queue.h:178-195 | the operations that the order of calls is about are those of the calls of the run, none lost, and every return leaves a result |
| ConcurrentQueue.RunKeepsInv | lib/tbb42_20131118oss/include/tbb/internal/_aggregator_impl.h:77-143 | over any interleaving of any number of threads |
| ConcurrentQueue.Linearizable | lib/tbb42_20131118oss/include/tbb/concurrent_priority_queue.h:178-195 | after any run there is one order of calls, each as it was asked for and none twice, in which a sequential priority queue that starts empty gives every result returned and holds what the queue holds; a call that had returned before another began comes before it; at most one thread executes a batch |
| AggregatorReturn.CanComplete | lib/tbb42_20131118oss/include/tbb/aggregator.h:143-211 | from every state all calls under way can be completed without another call being made |
| AggregatorReturn.CallsMade | lib/tbb42_20131118oss/include/tbb/aggregator.h:143-157 | every call a thread makes in a run has its operation submitted, or is on its way to the mailbox |
| LruCache.Store.RetrieveSerial | lib/tbb42_20131118oss/include/tbb/concurrent_lru_cache.h:241-264 | the record is made or taken out of the history, and counted |
| LruCache.Store.SetValue | lib/tbb42_20131118oss/include/tbb/concurrent_lru_cache.h:103-105 | only the value of the key changes |
| LruCache.Store.SignalEnd | lib/tbb42_20131118oss/include/tbb/concurrent_lru_cache.h:266-295 | the count goes down; at zero the key goes to the front of the history and the oldest ones beyond the limit are evicted |
| LruCache.ReleaseIs | lib/tbb42_20131118oss/include/tbb/concurrent_lru_cache.h:277-294 | with room for at least one entry, at most the oldest one is evicted |
| LruCache.ReleaseDefined | lib/tbb42_20131118oss/include/tbb/concurrent_lru_cache.h:279-291 | a release is defined exactly if it is not the last one or the history size is not 0: with 0 the source evicts from an empty list |
| LruCache.NoHistory | lib/tbb42_20131118oss/include/tbb/concurrent_lru_cache.h:279-291 | with history size 0 one get and one computation lead to a release that is undefined |
| LruCache.StepKeepsInv | lib/tbb42_20131118oss/include/tbb/concurrent_lru_cache.h:100-111 | every get, computation, wake-up and release keeps the invariant and is defined |
| LruCache.RunKeepsInv | lib/tbb42_20131118oss/include/tbb/concurrent_lru_cache.h:100-111 | over any interleaving |
| LruCache.ReachableSafe | lib/tbb42_20131118oss/include/tbb/concurrent_lru_cache.h:100-295 | with history size at least 1: a key is in the history exactly if its count is 0; the history has no duplicates, is ordered by latest release and within the limit; counts are numbers of live handles; an entry with a handle is never evicted; a live handle sees the value of its key |
| LruReuse.Reused | lib/tbb42_20131118oss/include/tbb/concurrent_lru_cache.h:241-264 | a value is asked to be computed exactly if there is no record; a record that is there, in the history or not, keeps its value and whether it is ready, leaves the history and gains one reference, and no other record changes |
| LruReuse.StepCounts | lib/tbb42_20131118oss/include/tbb/concurrent_lru_cache.h:100-111 | every step: what is there afterwards and evicted in it is what was there before and computed in it |
| LruReuse.ComputedPerEviction | lib/tbb42_20131118oss/include/tbb/concurrent_lru_cache.h:100-295 | in every run a key is computed as often as it is evicted, and once more if it was not there before and is afterwards: between two computations it was evicted |
| LruReuse.ComputedOnce | lib/tbb42_20131118oss/include/tbb/concurrent_lru_cache.h:100-295 | from an empty cache on |
| LruReuse.OnlyOldestEvicted | lib/tbb42_20131118oss/include/tbb/concurrent_lru_cache.h:277-294 | only the release of another key evicts one, and only the key unused for longest, when the history is full and nobody holds it |
| LruReuse.HadAtOnce | lib/tbb42_20131118oss/include/tbb/concurrent_lru_cache.h:100-111 | who asks for a value that is there can go on at once and sees it |
| LruReuse.HandlesAsked | lib/tbb42_20131118oss/include/tbb/concurrent_lru_cache.h:100-151 | the handles of any state are exactly the gets of the run not dropped yet, each with its key, and the live ones are those that were given their value |
| HashTable.LowLow | lib/tbb42_20131118oss/include/tbb/concurrent_hash_map.h:1079-1087 | cutting a code to fewer bits can be done in two steps |
| HashTable.PathStep | lib/tbb42_20131118oss/include/tbb/concurrent_hash_map.h:699-706 | with one more bit of the mask a code stays in its bucket or moves to the child of that bucket |
| HashTable.FoundAnywhere | lib/tbb42_20131118oss/include/tbb/concurrent_hash_map.h:652-659 | a key found in any bucket is what the table holds for it |
| HashTable.FirstChildIs | lib/tbb42_20131118oss/include/tbb/concurrent_hash_map.h:275-286 | the first set bit above the old mask gives the one child its nodes can have gone to first |
| HashTable.PendingAbove | lib/tbb42_20131118oss/include/tbb/concurrent_hash_map.h:694-706 | above a pending bucket of a path nothing is rehashed |
| HashTable.StaleBucketIsHome | lib/tbb42_20131118oss/include/tbb/concurrent_hash_map.h:265-297 | if the collision check does not ask for a restart, the bucket of the old mask is where the code lives |
| HashTable.LookupCorrect | lib/tbb42_20131118oss/include/tbb/concurrent_hash_map.h:1083-1124 | a search with a mask of any age answers as the table does, or restarts |
| HashTable.SplitMembers | lib/tbb42_20131118oss/include/tbb/concurrent_hash_map.h:708-727 | splitting a list puts every node on exactly one side |
| HashTable.KeepInsert | lib/tbb42_20131118oss/include/tbb/concurrent_hash_map.h:1091-1115 | inserting keeps the invariant, adds the pair and changes no other |
| HashTable.KeepErase | lib/tbb42_20131118oss/include/tbb/concurrent_hash_map.h:1216-1238 | erasing keeps the invariant and removes only this key |
| HashTable.KeepStartSplit | lib/tbb42_20131118oss/include/tbb/concurrent_hash_map.h:694-698 | marking a bucket rehashed before its nodes are there changes no answer |
| HashTable.KeepFinishSplit | lib/tbb42_20131118oss/include/tbb/concurrent_hash_map.h:704-727 | moving the nodes of a bucket over from its parent changes no answer |
| HashTable.SplitFinal | lib/tbb42_20131118oss/include/tbb/concurrent_hash_map.h:704-727 | nodes in the bucket of their full index stay there |
| HashTable.KeepGrow | lib/tbb42_20131118oss/include/tbb/concurrent_hash_map.h:220-243 | publishing pending buckets changes no answer |
| HashTable.KeepGrowEmpty | lib/tbb42_20131118oss/include/tbb/concurrent_hash_map.h:317-323 | nor does publishing rehashed buckets while the table is empty, provided no older mask is in use |
| HashTable.StepRefines | lib/tbb42_20131118oss/include/tbb/concurrent_hash_map.h:200-314 | every critical section is a step of a plain map, or none |
| HashTable.RunRefines | lib/tbb42_20131118oss/include/tbb/concurrent_hash_map.h:200-314 | over any interleaving of operations, splits and growth the table is the plain map |
| HashTable.ReachableAnswers | lib/tbb42_20131118oss/include/tbb/concurrent_hash_map.h:1075-1158 | in every reachable table a search with any mask loaded since the last growth of an empty table gives the plain map's answer or restarts |
| HashSubtree.SegmentStart | lib/tbb42_20131118oss/include/tbb/concurrent_hash_map.h:175-182 | segment k starts where the segments before it end, and ends where a table of k + 1 bits does |
| HashSubtree.NewSegments | lib/tbb42_20131118oss/include/tbb/concurrent_hash_map.h:220-243 | the table grows by exactly the buckets allocated: one segment, or all of the first block but the two embedded buckets |
| HashSubtree.BucketAddress | lib/tbb42_20131118oss/include/tbb/concurrent_hash_map.h:246-254 | get_bucket: the bucket lies in the segment that the logarithm of the index names, at an offset inside it |
| HashSubtree.AddressBucket | lib/tbb42_20131118oss/include/tbb/concurrent_hash_map.h:246-254 | every offset of a segment addresses a bucket of that segment and of no other, and a table of n bits consists of the segments below n: each bucket has exactly one address |
| HashSubtree.ChildAddress | lib/tbb42_20131118oss/include/tbb/concurrent_hash_map.h:256-263 | the child at level k of a bucket lies in segment k, at the bucket's own index |
| HashSubtree.UnderIffHome | lib/tbb42_20131118oss/include/tbb/concurrent_hash_map.h:1270-1277 | a pending bucket is under a rehashed root exactly if codes that end there live in this root |
| HashSubtree.HomeAfterMark | lib/tbb42_20131118oss/include/tbb/concurrent_hash_map.h:256-263 | marking everything under a root gives its codes their final buckets and moves no others |
| HashSubtree.MarkedChild | lib/tbb42_20131118oss/include/tbb/concurrent_hash_map.h:256-263 | one branch of the recursion marks exactly the buckets under that child |
| HashSubtree.FinalUnder | lib/tbb42_20131118oss/include/tbb/concurrent_hash_map.h:1281-1290 | the final bucket of a node of the root is the root or a marked bucket under it |
| HashSubtree.SpreadKeeps | lib/tbb42_20131118oss/include/tbb/concurrent_hash_map.h:1269-1292 | after a root's subtree is rehashed the invariant and all answers are the same |
| HashSubtree.LastSegmentReady | lib/tbb42_20131118oss/include/tbb/concurrent_hash_map.h:1259-1293 | once the last segment is rehashed every node is in the bucket of its full index; and every bucket is rehashed, unless the table last grew while empty |
| HashSubtree.OlderMaskMisses | lib/tbb42_20131118oss/include/tbb/concurrent_hash_map.h:317-323 | why reserve must not be concurrent with searches: a mask older than the growth of an empty table misses a key inserted afterwards |
| HashMap.ConcurrentHashMap.SplitList | lib/tbb42_20131118oss/include/tbb/concurrent_hash_map.h:708-727 | the walk over the parent's list keeps and moves exactly what the split says, in the order of unlinking and pushing |
| HashMap.ConcurrentHashMap.Acquire | lib/tbb42_20131118oss/include/tbb/concurrent_hash_map.h:670-728 | the bucket and all its ancestors are split as far as needed; answers and the number of nodes are unchanged |
| HashMap.ConcurrentHashMap.Find | lib/tbb42_20131118oss/include/tbb/concurrent_hash_map.h:1116-1124 | the answer is the table's, whatever the age of the mask |
| HashMap.ConcurrentHashMap.EnableSegment | lib/tbb42_20131118oss/include/tbb/concurrent_hash_map.h:220-243 | the table grows to the next size, by pending buckets or, if empty, by rehashed ones, without changing an answer |
| HashMap.ConcurrentHashMap.Reserve | lib/tbb42_20131118oss/include/tbb/concurrent_hash_map.h:317-323 | grows to the first size with n buckets without changing an answer |
| HashMap.ConcurrentHashMap.Insert | lib/tbb42_20131118oss/include/tbb/concurrent_hash_map.h:1091-1115 | true exactly if the key was absent; then the pair is added; the size is counted; the table grows exactly when it holds as many nodes as the mask says |
| HashMap.ConcurrentHashMap.Erase | lib/tbb42_20131118oss/include/tbb/concurrent_hash_map.h:1212-1245 | true exactly if the key was present; then exactly it is removed and the size goes down |
| HashMap.ConcurrentHashMap.MarkRehashedLevels | lib/tbb42_20131118oss/include/tbb/concurrent_hash_map.h:256-263 | marks exactly the pending buckets reached from the root through pending buckets |
| HashMap.ConcurrentHashMap.SpreadNodes | lib/tbb42_20131118oss/include/tbb/concurrent_hash_map.h:1279-1291 | every node of the root goes to its final bucket; none is lost or duplicated |
| HashMap.ConcurrentHashMap.FindRoot | lib/tbb42_20131118oss/include/tbb/concurrent_hash_map.h:1270-1277 | climbs to the nearest rehashed ancestor |
| HashMap.ConcurrentHashMap.Rehash | lib/tbb42_20131118oss/include/tbb/concurrent_hash_map.h:1256-1293 | grows to n buckets; afterwards every node is in the bucket of its full index, all answers are the same, and every bucket is rehashed unless the table last grew while empty |
| JsonRoundTrip.ExtractEscaped | src/output/JSONValue.cpp:673-712 | a printed string is read back with units below zero cut to sixteen bits |
| JsonRoundTrip.StringRoundTrip | src/output/JSON.cpp:147-242 | a string comes back as it was exactly if none of its units is negative; zeros, quotes and control characters are no obstacle |
| JsonRoundTrip.NumberRoundTrip | src/output/JSONValue.cpp:77-135 | a printed integer is read back as the double its digits add up to, itself up to 2^53, whatever follows that does not continue a number |
| JsonRoundTrip.DecimalMeaning | src/output/JSON.cpp:270-279 | the digits behind the point are their integer divided by ten to their number |
| JsonRoundTrip.LessIs | src/output/JSONValue.cpp:188-191 | names are ordered by the first unit in which they differ, or by length, as std::map orders them |
| JsonRoundTrip.PutIsUpdate | src/output/JSONValue.cpp:188-191 | object[name] = value is the update of a map |
| JsonRoundTrip.PutSorted | src/output/JSONValue.cpp:188-191 | the members stay in strictly increasing order |
| JsonRoundTrip.PutLast | src/output/JSONValue.cpp:188-191 | a name beyond all others goes to the end |
| JsonRoundTrip.ParsePrinted | src/output/JSONValue.cpp:49-279 | parsing a printed value followed by anything gives the value and stops right behind it |
| JsonRoundTrip.ItemsPrinted | src/output/JSONValue.cpp:221-270 | the array loop reads back a printed list |
| JsonRoundTrip.MembersPrinted | src/output/JSONValue.cpp:139-217 | the object loop reads back printed members |
| JsonRoundTrip.RoundTrip | src/output/JSON.cpp:82-100 | Parse(Stringify(v)) = v for every tree whose strings are non-negative units and whose numbers are integers below 10^15 |
| JsonParsed.ValueForward | src/output/JSONValue.cpp:49-279 | parsing only moves forward: what is left is a suffix of the text; or it does not end |
| Doubles.NearestIs | src/output/JSON.cpp:253-262 | the multiple chosen is at most half a unit off, and the even one if it is exactly half |
| Doubles.RoundNearest | src/output/JSON.cpp:253-262 | rounding gives a number of 53 significant bits, and none is nearer |
| Doubles.RoundAs | src/output/JSON.cpp:253-259 | a double holds integers up to 2^53; the next one is rounded down to it, and all others stay above 2^53 + 1 |
| Doubles.AccumulateHolds | src/output/JSON.cpp:253-259 | the same for an integer read digit by digit, with two roundings a digit |
| Doubles.CounterIs | src/output/JSONValue.cpp:125-128 | a double counted up by one reaches 2^53 and stays there |
| Doubles.LoopEndsIff | src/output/JSONValue.cpp:125-128 | so a loop that counts to a double ends exactly if that is at most 2^53 |
| JsonScan.IntAgrees | src/output/JSON.cpp:253-259 | what ParseInt holds of the integer its digits spell |
| JsonScan.ExponentAgrees | src/output/JSONValue.cpp:111-129 | the exponent loop does not end exactly if the exponent written is above 2^53 + 1 |
| JsonScan.NumberAgrees | src/output/JSONValue.cpp:77-135 | the parser of numbers fails, does not end, or stops exactly where the scanner of the written number says |
| JsonScan.ValueAgrees | src/output/JSONValue.cpp:49-279 | so does the parser of values: a scanner that computes nothing foretells failure, endlessness and the rest |
| JsonScan.ParseHangs | src/output/JSON.cpp:82-100 | the parser does not end exactly on the texts in which, outside strings and before the first error, an exponent above 2^53 + 1 is written |
| JsonScan.ParseAccepts | src/output/JSON.cpp:82-100 | it accepts exactly the documents of the lenient grammar without such an exponent |
| JsonScan.StrictDocuments | src/output/JSON.cpp:82-100 | these are documents of the strict grammar exactly if they have no raw tab, no name without an opening quote, and no literal with capitals |
| JsonSyntax.BodyRead | src/output/JSON.cpp:147-242 | every string of the grammar is read to its end |
| JsonSyntax.BodyOf | src/output/JSON.cpp:147-242 | every string read without raw tabs is one of the grammar |
| JsonSyntax.FigureRead | src/output/JSONValue.cpp:77-135 | every number of the grammar is read to its end |
| JsonSyntax.FigureOf | src/output/JSONValue.cpp:77-135 | every number read is one of the grammar |
| JsonSyntax.ValueRead | src/output/JSONValue.cpp:49-279 | every value of the grammar is scanned to its end, whatever white space it contains |
| JsonSyntax.SyntaxOf | src/output/JSONValue.cpp:49-279 | every value scanned strictly is spelled by a syntax tree |
| JsonSyntax.StrictIsGrammar | src/output/JSON.cpp:82-100 | the strict scanner accepts exactly the documents of the grammar of RFC 8259 |
| JsonSyntax.AcceptedTexts | src/output/JSON.cpp:82-100 | what the parser accepts without the three departures is exactly that grammar, but for exponents above 2^53 + 1 |
| JsonMeaning.HexDigitsRead | src/output/JSON.cpp:198-211 | a unit is read as the value v exactly if it is the v-th hexadecimal digit, small or capital |
| JsonMeaning.BodyMeans | src/output/JSON.cpp:147-249 | every string of the grammar is read as the characters its pieces stand for |
| JsonMeaning.FigureReadAs | src/output/JSONValue.cpp:81-146 | every number of the grammar is read as its sign times whole part and decimals, times or by ten to its exponent; whole part and exponent as doubles hold them |
| JsonMeaning.HeldIs | src/output/JSON.cpp:253-262 | that is the integer itself up to 2^53 |
| JsonMeaning.ValueReadAs | src/output/JSONValue.cpp:49-238 | every value of the grammar whose exponents can be counted to is read as what it means, of equal names the last one |
| JsonMeaning.DocumentReadAs | src/output/JSON.cpp:80-107 | and every document |
| JsonPrinted.TreeSpelt | src/output/JSONValue.cpp:601-712 | a value whose numbers are whole is printed as the spelling of a syntax tree |
| JsonPrinted.PrintedConforms | src/output/JSONValue.cpp:601-712 | so it is printed as a document of RFC 8259, whatever its strings and names |
| JsonPrinted.PrintedMeans | src/output/JSONValue.cpp:601-712 | which means the value |
| JsonScan.ExponentLimit | src/output/JSONValue.cpp:111-129 | 1e9007199254740993 is read; on 1e9007199254740994 the parser does not end |
| JsonScan.OpeningQuote | src/output/JSONValue.cpp:157-161 | {x":0} is accepted and not a strict document |
| JsonScan.AnyOpening | src/output/JSONValue.cpp:157-161 | what stands in place of a name's opening quote makes no difference |
| JsonScan.Capitals | src/output/JSONValue.cpp:58-74 | TRUE is accepted and not a strict document |
| JsonScan.RawTab | src/output/JSON.cpp:227-237 | a raw tab in a string is accepted and not a strict document |
| JsonParsed.ValueWellFormed | src/output/JSONValue.cpp:49-279 | every value read has sorted, distinct names and no negative units |
| JsonParsed.Reparse | src/output/JSON.cpp:82-100 | what was read from any text and has integer numbers is read back from its printed form |
| JsonTruncated.ExtractMore | src/output/JSON.cpp:147-242 | a complete string is read the same whatever follows |
| JsonTruncated.NumberMore | src/output/JSONValue.cpp:77-135 | so is a number with something behind it |
| JsonTruncated.ValueMore | src/output/JSONValue.cpp:49-279 | so is every value; only a number at the very end could have gone on |
| JsonTruncated.PrefixFree | src/output/JSONValue.cpp:49-279 | a text that is a value other than a number has no proper beginning that is one |
| JsonTruncated.TruncationRejected | src/output/JSON.cpp:82-100 | a printed document that is cut off anywhere is not accepted, unless it was a mere number |
| Json.SkipWhitespace | src/output/JSON.cpp:127-134 | skips white space and says whether there is more |
| Json.ReadHex | src/output/JSON.cpp:187-210 | four hex digits, or failure |
| Json.ReadEscape | src/output/JSON.cpp:160-217 | one escape sequence, or failure |
| Json.ExtractString | src/output/JSON.cpp:147-242 | the string grammar of the reader, with tabs allowed |
| Json.ParseInt | src/output/JSON.cpp:253-259 | the digits added up in a double, and the rest |
| Json.ParseDecimal | src/output/JSON.cpp:270-279 | the sum of digits times falling powers of ten |
| Json.ApplyExponent | src/output/JSONValue.cpp:125-128 | the loop with its double counter scales by the power of ten wherever it ends |
| Json.ParseNumber | src/output/JSONValue.cpp:77-135 | sign, whole part, decimals and exponent, with the failures in between |
| Json.Parse | src/output/JSONValue.cpp:49-279 | one value of any kind |
| Json.ParseArray | src/output/JSONValue.cpp:221-270 | the array loop |
| Json.ParseObject | src/output/JSONValue.cpp:139-217 | the object loop; a name's opening quote is not looked at, and the last of equal names wins |
| Json.ParseDocument | src/output/JSON.cpp:82-100 | one value with only white space around it |
| Json.StringifyString | src/output/JSONValue.cpp:673-712 | writes the escaped string |
| Json.StringifyHex | src/output/JSONValue.cpp:696-704 | four digits of the low sixteen bits |
| Json.Stringify | src/output/JSONValue.cpp:601-662 | writes the value |
| Json.WriteAndRead | src/output/JSON.cpp:82-116 | the two programs undo each other |
| EditDistance.Reached | includes/utils/StringUtils.hpp:123-157 | some path of single edits is as long as the table says |
| EditDistance.NotBeaten | includes/utils/StringUtils.hpp:123-157 | no path of single edits is shorter |
| EditDistance.EditNear | includes/utils/StringUtils.hpp:123-157 | one edit changes every distance by at most one |
| EditDistance.Shortest | includes/utils/StringUtils.hpp:116-122 | the table's entry is the one number that is reached and not beaten |
| EditDistance.Symmetric | includes/utils/StringUtils.hpp:123-157 | the distance is symmetric |
| EditDistance.ZeroIffEqual | includes/utils/StringUtils.hpp:125-126 | it is zero exactly on equal words |
| EditDistance.Triangle | includes/utils/StringUtils.hpp:116-122 | it satisfies the triangle inequality |
| EditDistance.TableBound | includes/utils/StringUtils.hpp:133-134 | no entry exceeds the longer length |
| EditDistance.FillRow | includes/utils/StringUtils.hpp:148-151 | computes the next row from the last one |
| EditDistance.LevenshteinDistance | includes/utils/StringUtils.hpp:123-157 | the two-row program returns the length of a shortest path of edits |
| StreamHash.FewestZeros | lib/mongoose.c:2588-2591 | the padding has the fewest zeros that leave eight bytes of the last block |
| StreamHash.CounterStep | lib/mongoose.c:2561-2564 | two 32-bit counters with a carry hold the number of bits modulo 2^64 |
| StreamHash.BufferedCount | lib/mongoose.c:2565 | the low counter tells how many bytes are buffered |
| StreamHash.FoldAppend | lib/mongoose.c:2566-2572 | folding blocks can be cut at any block boundary |
| StreamHash.FillBlock | lib/mongoose.c:2567-2568 | a buffer filled up from the data is the next block of the message |
| StreamHash.KeepRest | lib/mongoose.c:2576 | less than a block stays in the buffer |
| StreamHash.KeepAll | lib/mongoose.c:2574-2576 | data that fits the buffer is only kept |
| StreamHash.CopyInto | lib/mongoose.c:2567 | memcpy |
| Sha1.Context.Update | lib/mongoose.c:2557-2577 | a context holding m holds m + data afterwards, exactly if the buffered and new bytes together are below 2^32; otherwise the 32-bit sum wraps, and the copy the source then makes is not followed |
| Sha1.Context.Wraps | lib/mongoose.c:2566-2576 | where the 32-bit sum is below 64, the copy stays inside the buffer exactly if the sum did not wrap |
| Sha1.Context.WrapsAt | lib/mongoose.c:2566-2576 | one buffered byte and 2^32 - 1 new ones: it does not |
| Sha1.Context.Blocks | lib/mongoose.c:2566-2576 | blocks out of the buffer and the data are compressed in order |
| Sha1.Context.AddCount | lib/mongoose.c:2561-2565 | the counters take in the new bytes |
| Sha1.Context.Final | lib/mongoose.c:2578-2598 | the digest is the compression function folded over the padded message |
| Sha1.Context.PaddingLeft | lib/mongoose.c:2588-2591 | zeros are added one by one up to the first length that is 56 modulo 64 |
| Sha1.LengthBytes | lib/mongoose.c:2582-2585 | the last eight bytes of the padding spell the number of bits modulo 2^64, the most significant byte first |
| Md5.Context.Update | lib/mongoose.c:3631-3664 | a context holding m holds m + data afterwards, for every length |
| Md5.Context.MoreBlocks | lib/mongoose.c:3656-3663 | whole blocks of the data are compressed in order |
| Md5.Context.Pad | lib/mongoose.c:3670-3689 | the padding is written in place, over a second block if the length does not fit |
| Md5.Context.LastBlocks | lib/mongoose.c:3667-3690 | these blocks are the end of the padded message |
| Md5.Context.Final | lib/mongoose.c:3667-3693 | the digest is the compression function folded over the padded message |
| Md5.LengthBytes | lib/mongoose.c:3685-3688 | the last eight bytes of the padding spell the number of bits modulo 2^64, the least significant byte first |
| Md5.HashStrings | lib/mongoose.c:3711-3728 | the hash of a list of strings is the hash of what they spell together, wherever the cuts are |
| Arithmetic.XorDigit | lib/mongoose.c:2677-2681 | every binary digit of an exclusive or is the sum of the two digits modulo 2 |
| Arithmetic.XorTwice | lib/mongoose.c:2677-2681 | exclusive or undoes itself |
| WebSocket.MaskDigit | lib/mongoose.c:2677-2681 | masking flips exactly the binary digits in which the key byte has a 1 |
| WebSocket.MaskZero | lib/mongoose.c:2677-2681 | a key of zeros changes nothing |
| WebSocket.Examples | lib/mongoose.c:2693-2733 | examples of section 5.7 of RFC 6455, with all three length forms |
| WebSocket.MaskTwice | lib/mongoose.c:2677-2681 | unmasking is masking |
| WebSocket.IntSumIs | lib/mongoose.c:2652-2671 | sums of ints and conversions to int are taken modulo 2^32 |
| WebSocket.LengthRead | lib/mongoose.c:2652-2668 | the length seen is the low half of the one written as an int: the right one exactly below 2^31 |
| WebSocket.ParseEncoded | lib/mongoose.c:2646-2691 | a complete frame is delivered as it was sent, masked or not, and exactly its bytes are taken, if and only if an int can count its bytes |
| WebSocket.OverflowWaits | lib/mongoose.c:2668-2671 | where only header and payload together overflow, the frame is never delivered |
| WebSocket.NeverDelivered | lib/mongoose.c:2668-2671 | for instance a payload of 2^31 - 5 bytes, although its length is read right |
| WebSocket.PrefixWaits | lib/mongoose.c:2670-2671 | for payloads below 2^31 nothing is delivered before the frame is complete |
| WebSocket.Stable | lib/mongoose.c:2646-2671 | bytes that come later do not change what is delivered |
| WebSocket.DrainAppend | lib/mongoose.c:2997-3000 | for all bytes, well-formed or not, receiving in two parts is receiving at once |
| WebSocket.SplitIndependent | lib/mongoose.c:2993-3001 | the messages do not depend on how the bytes are split |
| WebSocket.DrainFrames | lib/mongoose.c:2993-3001 | a row of frames is delivered frame by frame, if and only if an int can count the bytes of each |
| WebSocket.FramesArrive | lib/mongoose.c:2993-3001 | if every chunk gets into the buffer, the frames sent are the messages received, whatever the receives cut, if and only if an int can count the bytes of each |
| WebSocket.NothingLost | lib/mongoose.c:747-749 | while no chunk is dropped, what is handed on through the buffer, and what is left in it, is what receiving the chunks as a sequence gives |
| WebSocket.MgWebsocketWrite | lib/mongoose.c:2693-2733 | writes the frame with the shortest length form |
| WebSocket.IoBuf.Append | lib/mongoose.c:276-299 | for every length and capacity: all of the data is appended exactly if there is none, it fits below the capacity, or twice the new length is an int and memory is granted; otherwise nothing; the new capacity; and whether the conversion to int is defined |
| WebSocket.IoBuf.Remove | lib/mongoose.c:301-306 | drops the first n bytes, and nothing if there are not as many |
| WebSocket.IoBuf.DeliverFrame | lib/mongoose.c:2646-2691 | unmasks in place, hands on and removes exactly the frame the buffer starts with |
| WebSocket.IoBuf.Unmask | lib/mongoose.c:2677-2681 | the payload is masked in place, nothing else changes |
| WebSocket.IoBuf.DeliverAll | lib/mongoose.c:2996-2999 | the loop delivers every complete frame and leaves the rest |
| WebSocket.IoBuf.ReceiveAll | lib/mongoose.c:668-752 | chunk after chunk, of any length and number, through the buffer: messages, what is left, the capacity, and how many bytes were dropped, as the function Through says |
| WebSocketBuffer.KeptFramesArrive | lib/mongoose.c:668-752 | through the buffer, in a run that drops no byte, the handler gets the frames sent if and only if an int can count the bytes of each |
| WebSocketBuffer.LossShows | lib/mongoose.c:747-749 | if the handler gets the messages of the frames sent although bytes were dropped, then those bytes and what is left are at most the masking keys, four for each masked frame |
| WebSocketBuffer.PlainFramesArrive | lib/mongoose.c:668-752 | unmasked frames arrive through the buffer, with nothing left, if and only if an int can count the bytes of each and no chunk is dropped |
| WebSocketBuffer.HiddenLoss | lib/mongoose.c:747-749 | for masked frames a loss can go unnoticed: with four bytes of an empty frame's key dropped the message is the same |
| WebSocketBuffer.ThroughTakes | lib/mongoose.c:668-752 | messages, what is left and what is dropped take up no more bytes than were received |
| WebSocketBuffer.DrainPrefix | lib/mongoose.c:2993-3001 | of any part of a row of frames, what is left in the buffer is shorter than the longest frame |
| WebSocketBuffer.ShortFramesArrive | lib/mongoose.c:668-752 | frames of at most 2^30 - 2048 bytes always arrive while memory is granted: any number of them, whatever their sum and however recv cuts them |
| WebSocketBuffer.GrowthFails | lib/mongoose.c:276-299 | at 2^30 - 2048 bytes and a capacity of 2^30 a full read of 2048 bytes does not get into the buffer, one of 2047 does |
| WebSocketBuffer.Filling | lib/mongoose.c:276-299 | full reads into an empty buffer bring its capacity to 2^30 exactly, by doubling |
| WebSocketBuffer.OneFrame | lib/mongoose.c:668-752 | a frame that an int can count, read in full reads of 2048 bytes into an empty buffer, arrives if and only if it has less than 2^30 bytes |
| MatcherCache.SFBMCache.Tic | src/processing/SFBMCache.cpp:244-269 | every other matcher ages by one down to 0, and the first of the weakest is noted |
| MatcherCache.SFBMCache.UpdateLife | src/processing/SFBMCache.cpp:388-407 | adds to a life; if bounded, not below 0 and not above the configured life |
| MatcherCache.SFBMCache.FreeCacheSlot | src/processing/SFBMCache.cpp:271-280 | the noted matcher and its patterns go |
| MatcherCache.SFBMCache.StoreMatcher | src/processing/SFBMCache.cpp:287-295 | makes room if the cache is full, then stores |
| MatcherCache.SFBMCache.LoadFromDatabase | src/processing/SFBMCache.cpp:330-345 | the load counts stay the multiset of all misses |
| MatcherCache.SFBMCache.LoadMatcher | src/processing/SFBMCache.cpp:55-92 | hits and misses add up; a hit gives what the database last returned and ages the others; a miss gives what it returns now and stores it unless the cache is full of better ones; the whole new state is stated |
| MatcherCache.SFBMCache.Admit | src/processing/SFBMCache.cpp:75-88 | which matcher is left out, which one makes room, and what is noted afterwards |
| MatcherCache.SFBMCache.UnloadMatcher | src/processing/SFBMCache.cpp:94-107 | exactly this matcher goes |
| MatcherCache.SFBMCache.UpdateMatcher | src/processing/SFBMCache.cpp:109-116 | afterwards the cache never has the old matcher |
| MatcherCache.LifeFalls | src/processing/SFBMCache.cpp:244-269 | over n accesses to others a life falls by n and stays at 0 |
| MatcherCache.SFBMCache.DiscardsWhat | src/processing/SFBMCache.cpp:75-82 | only a full cache leaves a matcher out, and only one worth no more than any cached one has left; if it is taken in, the one that makes room has no more left than the new one is worth, and at most one more than any other |
| MatcherCache.TicNext | src/processing/SFBMCache.cpp:256-268 | one round of the ageing loop |
| MatcherCache.Stored | src/processing/SFBMCache.cpp:287-295 | storing keeps keys, lives and size in step |
| MatcherCache.TickFits | src/processing/SFBMCache.cpp:244-269 | whenever the cache is full the noted matcher is cached, with a life at most one above the least |
| MatcherCache.SizeCounts | src/processing/SFBMCache.cpp:271-295 | the size is the number of cached matchers and within the capacity for every capacity of at least 1; with 0 it is 0 while one matcher is cached |
| MatcherCache.LoadAgain | src/processing/SFBMCache.cpp:55-92 | a matcher that was taken in is there the next time, as it was read, whatever the database has then |
| MatcherCache.LoadIntoNothing | src/processing/SFBMCache.cpp:271-295 | one load with a capacity of 0: the size is 0 and the matcher is cached |
| FlagGrammar.ReadingRendered | src/processing/Flags.cpp:280-348 | the groups read, with what is passed over, spell the input |
| FlagGrammar.OnlyReading | src/processing/Flags.cpp:280-348 | an input has one reading as groups |
| FlagGrammar.OneReading | src/processing/Flags.cpp:273-375 | some reading is good exactly if the one reading is |
| FlagGrammar.OrderIsFree | includes/processing/Flags.hpp:26 | without overriding flags valid groups are valid in any order; if unknown flags are passed over, given that the last group would do elsewhere |
| FlagGrammar.ValuesPresent | src/processing/Flags.cpp:367-371 | unless unknown flags are passed over, every flag that needs values has its own |
| FlagGrammar.ValueMissing | src/processing/Flags.cpp:367-371 | if they are, a required flag with nothing but an unknown flag behind it is accepted |
| Flags.StepFlag | src/processing/Flags.cpp:288-314 | a known flag is accepted exactly if the groups with it can still become good |
| Flags.StepLead | src/processing/Flags.cpp:315-327 | before the first known flag only unknown ones are accepted, and only if they are passed over |
| Flags.FitsUnknown | src/processing/Flags.cpp:315-320 | an unknown flag behind a known one is accepted exactly if it is passed over and that one is not overriding |
| Flags.FitsValue | src/processing/Flags.cpp:321-346 | a value is accepted exactly if it stands behind a flag that takes values, or behind an unknown one |
| Flags.StoredOrSkipped | src/processing/Flags.cpp:328-335 | only a value behind a known flag is stored |
| Flags.ScanGroups | src/processing/Flags.cpp:280-348 | after any part of the input the tables are those of its groups, or no good input begins like this |
| Flags.AcceptsGood | src/processing/Flags.cpp:349-374 | the checks after the loop ask for exactly what is missing |
| Flags.Validates | src/processing/Flags.cpp:273-375 | an input is accepted exactly if it is a sequence of good groups |
| Flags.Validator.ValidateInput | src/processing/Flags.cpp:273-375 | the program accepts exactly those inputs, and then the found flags with their values are those of the one good reading; where unknown flags are not passed over, the found flags in order, each followed by the values in its table, spell the input |
| Flags.RespelledIs | src/processing/Flags.cpp:280-348 | in a good reading without skipped tokens the flags and the values found for them spell the input |
| Flags.Validator.ReadToken | src/processing/Flags.cpp:280-346 | one round of the loop |
| Flags.Validator.CheckDependencies | src/processing/Flags.cpp:143-160 | true exactly if every dependency of every flag is among the flags |
| Flags.Validator.CheckLooseDependencies | src/processing/Flags.cpp:162-191 | true exactly if every flag with alternatives has one of them |
| Flags.Validator.CheckIncompatibilities | src/processing/Flags.cpp:193-211 | true exactly if no flag is there with one it excludes |
| Flags.Validator.Clean | src/processing/Flags.cpp:258-271 | all values and findings are cleared, the declarations stay |
| Flags.Validator.SetRequiredFlag | src/processing/Flags.cpp:54-60 | declared exactly if the name is new, so no name is declared twice |
| Flags.Validator.SetOptionalFlag | src/processing/Flags.cpp:62-68 | as SetRequiredFlag, for optional flags |
| Flags.Validator.SetOverridingFlag | src/processing/Flags.cpp:70-76 | as SetRequiredFlag, for overriding flags |
| Flags.Validator.SetNoValuesFlag | src/processing/Flags.cpp:78-84 | as SetRequiredFlag, for flags without values |
| WorkerPool.StepKeepsInv | includes/connection/RequestServer.hpp:113-169 | every push, pop, end of a request and join keeps requests and nulls in step |
| WorkerPool.KeepPopNull | src/processing/Worker.cpp:17-29 | a worker that takes a null stops, and no request is behind that null |
| WorkerPool.RunKeepsInv | includes/connection/RequestServer.hpp:113-169 | over any interleaving |
| WorkerPool.ArrivalsKept | includes/connection/RequestServer.hpp:112-116 | in every run the requests that arrived, in order, are those submitted and the one being pushed; and as many are finished as were brought to their end |
| WorkerPool.ReachableSafe | includes/connection/RequestServer.hpp:113-169 | every request that arrived is being pushed, queued, running or finished, and only one of these; they start in the order of arrival; nulls to push, nulls queued and workers stopped add up to the threads; at the end every request that arrived has been run exactly if there was a worker or none arrived |
| WorkerPool.StepDecreases | src/processing/Worker.cpp:17-29 | every step but the arrival of a request uses up what is left to do |
| WorkerPool.ShutdownBounded | includes/connection/Server.hpp:161-191 | a shutdown takes a bounded number of steps under every schedule |
| WorkerPool.StuckIffNoRoom | includes/connection/RequestServer.hpp:112-169 | a server that pushes a request is stuck exactly if the queue is full, no worker is busy, and there are no workers or no room at all; no state of a shutdown before its end is stuck if the queue has room for a null; with room for none and idle workers it is |
| WorkerPool.NobodyServes | includes/connection/RequestServer.hpp:163-169 | without workers a request that arrives and is pushed, the end of serving and the last push lead to the end with that request unserved |
| WorkerPool.FullForEver | includes/connection/RequestServer.hpp:112-116 | with a queue of capacity 0 and no workers the push of the first request never ends |
| WorkerPool.NoRoomForNull | includes/connection/RequestServer.hpp:163-169 | with a queue of capacity 0 the end of serving leads to a state that is stuck |
| WorkerPool.ShutdownCompletes | includes/connection/RequestServer.hpp:113-118 | a shutdown that has come to rest has joined all workers and run every request that arrived |

## Left out

- QuickLZ levels 1 and 2, streaming buffers and the memory-safe checks, which are
  compiled out; the bytewise `fast_read` and `fast_write` are modelled, not the
  unaligned word accesses of x86, except for the strided copy of `memcpy_up`.
- HashMap.ConcurrentHashMap.SpreadNodes: node lists are values, so relinking through
  pointers and node reuse are not captured; the order of nodes in a list is.
- HashMap.ConcurrentHashMap.Find: accessors, per-node locks, upgrades and the restarts
  they cause are not modelled, nor are iteration, `swap`, `clear` and copying. Erasing
  through an accessor, which compares nodes by address, is left out with them.
- HashMap.ConcurrentHashMap.Insert: claiming a segment before it is enabled is one step
  with the insertion; allocation failures and exceptions are not modelled.
- HashTable.ReachableAnswers: masks loaded before an empty table grew by `reserve` are
  excluded. `reserve` runs in constructors and in the serial rehash only, when no search is
  under way; the field `floor`, which the source does not have, records that.
- PriorityQueue.Queue.HandleOperations: copying an element does not fail, so a push
  always succeeds; the list of operations is a sequence.
- Weak memory: all steps are sequentially consistent. The waiting loops of the
  aggregator are steps that become possible, not loops.
- ConcurrentQueue.Linearizable: the execution of a batch is one step with any outcome that
  `HandleOperations` guarantees, and results are reported one by one afterwards; `size` and
  `empty`, which read while a batch is executed, and the unsynchronised `clear`, `swap` and
  copying are not modelled.
- LruCache.Store.SignalEnd: with a history size of 0 nothing is stated beyond
  `ReleaseDefined`.
- JsonGrammar.Print: how the library prints fractions and integers from 10^15 on is a
  parameter; infinities, NaN and the negative zero are not among the numbers. Integers
  are rounded to 53 bits as they are read, with no greatest exponent; decimals and
  scaling by powers of ten are exact where the source rounds to double.
- JsonSyntax.StrictIsGrammar: a text ends at its first zero, as the source's strings do;
  units beyond the range of Unicode are taken for characters.
- The conversion of multibyte text to wide characters, and the accessors and
  destructors of JSONValue: library calls and easy members.
- EditDistance.LevenshteinDistance: the rows are heap arrays instead of stack arrays,
  and the conversion from UTF-8 is left out.
- The rounds of SHA-1 and MD5, base64 and hex output, and wiping the context after
  the digest: the compression function is a parameter and the digest is its state.
- WebSocket.IoBuf.Append: where the doubled length is no int its conversion is undefined in
  the source; here nothing is appended then, and `fits` reports it.
- WebSocketBuffer.OneFrame: for frames between 2^30 - 2048 and 2^31 bytes in reads that are
  not full, or into a buffer that has grown before, nothing is stated beyond
  `PlainFramesArrive` and `KeptFramesArrive`.
- WebSocket.IoBuf.DeliverFrame: a negative length is `Misread`; what the handler does
  with it, like the handler itself, is not part of this model.
- MatcherCache.SFBMCache.LoadMatcher: lives and counters are unbounded integers; the
  database, the clock and the error flag are parameters; the life read for a matcher
  that is not cached any more is taken as -1, which has no effect because the cache is
  not full then. The matcher's construction leaves `lowestLifeKey` unset; -1 is the
  value its own test expects.
- The scene cache and the pattern cache, which repeat the matcher cache with less, and
  the formatting of the last operation's result.
- The setters of dependencies, alternatives and incompatibilities, which only fill
  their tables, and all console output.
- WorkerPool.ReachableSafe: a request ends in a step of its own; what it runs, and the
  threads' start-up, are not modelled. The queue is TBB's bounded queue as an atomic
  FIFO.
- Sockets, HTTP, CGI, file serving, the database driver, OpenCV and the daemons' main
  programs: foreign code or plumbing.
- `BlockingMap` with several waiting readers, the order of `WordBox` and date parsing,
  for which the code gives no clean guarantee.
