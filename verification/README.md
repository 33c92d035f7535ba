# OKWS verification

A Dafny model of the parts of OKWS, a C++ web server for dynamic content, in which a simple specification is sped up,
split across calls, or spread over several actors, with proofs that each meets its specification. Run
`dafny verify dfyconfig.toml` to check everything.

## What is modelled

* **Worker dispatcher** (`DispatchModel`, `DispatchSafety`, `DispatchRuns`, `DispatchSteps`, `Dispatcher`,
  `LoadAverage`). An event loop, N workers, one shared cell and one pipe to each, one pipe back. `DispatchModel` is the
  step system; `DispatchSafety` its invariant; `DispatchRuns` the theorems over all runs; `DispatchSteps` who is
  rejected and who is served; `Dispatcher` the code that updates the queues, cells and counters in place, proved to take
  exactly those steps. Pipes are queues of whole messages. A worker's `dispatch` calls exactly one reply function.
  Workers are scheduled cooperatively, so announcing READY and the first look at the cell
  are one step; `SplitStartServesTwice` shows what a preemptive schedule could do between them. The time, what
  `async_serv` answers and what a worker answers are inputs of the events.
* **Ring buffer and reader** (`RingBuffer`, `Abuf`, `AbufSession`). The two-region ring is an array with offsets; its
  meaning is a queue of bytes. The reader holds offsets into the ring, one pushed-back character, and tells the ring
  late what it has read; its meaning is the queue of pending characters. Bytes are numbers below 256.
* **Multipart boundaries** (`Kmp`, `Multipart`). The failure-table matcher, and the resumable search for a boundary with
  a mirror of what was read.
* **URL-encoded forms** (`FormCodec`, `FormMeaning`, `FormEncode`, `FormParser`). `FormCodec` is the parser as a byte
  machine, `FormMeaning` what it makes of a text, by splitting and decoding, `FormParser` the resumable code over a
  reader, `FormEncode` the encoder and the round trips.
* **Pair table** (`PairSpec`, `PairHistory`, `PairTable`). A linked list on the heap threaded through the nodes of a
  hash; `PairHistory` says what a run of operations leaves, from the run alone.
* **XDR and JSON** (`XdrModel`, `XdrMeaning`, `XdrCreator`, `XdrReader`, `XdrRoundTrip`, `XdrExchange`). The two
  translations as recursive functions over types, what the trees stand for without them, and the cursor-stack creator
  and reader that compute them.
* **Scopes** (`PubScope`, `PubEnv`). Layers over shared mutable tables, barriers, closures, reading and writing by name.
* **Upgrade script** (`Pub2`). Lexer with its mode stack, grammar and printer.

## Where the code does not keep the simple promise

Each of these is a theorem with the exact condition, and where it helps a run that shows the failure.

* A form cut inside a final unfinished escape loses its last field when the end of input comes before the escape is
  resumed (`FormCodec.ChunkIndependence`, `FormCodec.CutLosesLastField`); on a connection, where the end is an event
  of its own, cuts never matter.
* A field that reaches the size its buffer may grow to is dropped and the rest of it read as a new field: encoding and
  decoding return a field, or a table, exactly when nothing in it does (`FormEncode.CgiRoundTrip`,
  `FormEncode.FormRoundTrip`, `FormCodec.OverflowRestarts`).
* A malformed escape near the end of the buffer loses its digit (`FormCodec.MalformedEscape`, `FormCodec.LostDigit`).
* The encoder can be one byte short of room for a terminating NUL (`FormEncode.CgiEncode`).
* An unget after a dump delivers a character twice (`Abuf.Abuf.Unget`, `AbufSession.UngetAfterDump`).
* A connection that ends, or exceeds its limit, loses what the reader has not mapped (`Abuf.Abuf.Close`,
  `AbufSession.OverLimit`).
* A mirror too small for part and boundary cuts the part (`Multipart.MirrorExact`).
* `append_list` leaves the other list's header with a wrong count unless one list was empty
  (`PairTable.CList.AppendList`).
* Reading a null pointer leaves an allocated one in place (`XdrRoundTrip.OverlayExact`), and a string with a NUL byte is
  written but not read back (`XdrRoundTrip.RoundTrip`).
* Under a weak barrier a closure loses the locals outside it (`PubScope.LexicalScope`, `PubScope.BarrierHides`).
* `grow` forgets the space callback (`RingBuffer.Suiolite.Grow`).

## Model

| member | source | states |
|---|---|---|
| `DispatchRuns.OnePlace` | libamt/mtdispatch.C:92-141 | After any run from any number of workers, each request is as often answered or waiting (queue or cell) as dispatch was called with it; so a request that came once is in exactly one place and answered at most once. |
| `DispatchRuns.AnswersAreOwn` | libamt/mtdispatch.C:237-294 | After any run the answers given out are, in order, a prefix of the answers the workers computed for the very requests they were dispatched with: replies are never crossed. |
| `DispatchRuns.FirstComeFirstServed` | libamt/mtdispatch.C:92-141 | After any run the accepted requests are those that left the dispatcher followed by the queue, in arrival order; the queue is within the maxq the run began with, and queue and ready list are never both non-empty. |
| `DispatchRuns.CountersBalance` | libamt/amt.h:118-126 | From any starting counters, calls = rejects + async + in + queued, and in + queued = out + timeouts + queue length + occupied cells, after every event. |
| `DispatchRuns.NoneIdles` | libamt/mtdispatch.C:172-186 | While a request is queued, each of the n workers has not started, holds a request, or has an unread READY message. |
| `DispatchRuns.RunExtends` | libamt/mtdispatch.C:195-221 | Any enabled event can follow any run: the tid in a message is a worker and a REPLY always finds its request, so no NULL request is ever answered. |
| `DispatchRuns.AllAnswered` | libamt/mtdispatch.C:297-313 | Where only arrivals and worker starts are still possible and one worker has started, every request has been answered exactly as often as it came. |
| `DispatchRuns.QuietDone` | libamt/mtdispatch.C:376-402 | In such a state the queue and all cells are empty. |
| `DispatchRuns.WorkEnds` | libamt/mtdispatch.C:376-402 | A run without arrivals is no longer than 3 x queue + unread messages + the workers' weights: the system cannot run on without finishing work. |
| `DispatchRuns.SplitStartServesTwice` | libamt/mtdispatch.C:391-395 | If announcing READY and the first look at the cell were two steps, one request would be answered twice and the second REPLY would find no request: why the cooperative schedule matters. |
| `DispatchSteps.RejectedExactly` | libamt/mtdispatch.C:296-313 | Over every run: the requests rejected by timeout are exactly those that left the queue after waiting longer than the timeout, and those refused exactly those that came when the queue was at its limit; each in order. |
| `DispatchSteps.QueueTimes` | libamt/amt.h:339-342 | Over every run: the time a queued request carries is the time it came. |
| `DispatchSteps.ReadSays` | libamt/mtdispatch.C:195-313 | Reading a message frees its worker; a REPLY answers the request in that worker's cell; the requests at the front of the queue that waited longer than the timeout are rejected, the first that did not goes to the worker with one CONTINUE, and the rest stay; each in its counter. |
| `DispatchSteps.DispatchSays` | libamt/mtdispatch.C:92-141 | A request is rejected when the queue is at its limit, else answered asynchronously if it can be, else given to the first ready worker, else queued with the time; each in its counter. |
| `DispatchSafety.StepKeeps` | libamt/mtdispatch.C:92-141 | Every event keeps the invariant: five joint states of worker and cell, one announcement per idle worker, the three ledgers, the counters and the order of replies; and is safe to take. |
| `DispatchSafety.DispatchKeeps` | libamt/mtdispatch.C:92-141 | dispatch keeps it, through all four branches. |
| `DispatchSafety.SendTokens` | libamt/mtdispatch.C:172-186 | send_svccb keeps the bookkeeping of idle workers; the worker it takes from the ready list has status READY. |
| `DispatchSafety.DrainKeeps` | libamt/mtdispatch.C:297-313 | The loop of chld_ready keeps the invariant and re-establishes that queue or ready list is empty. Which requests it rejects and which it serves, DispatchSteps says. |
| `DispatchSafety.ReadKeeps` | libamt/mtdispatch.C:195-221 | Reading one message keeps the invariant. |
| `DispatchSafety.BeforeDrainBooks` | libamt/mtdispatch.C:237-294 | chld_reply moves exactly one request from its cell to the answered ones, with the oldest computed answer. |
| `DispatchSafety.StartKeeps` | libamt/mtdispatch.C:376-397 | A worker's start keeps the invariant. |
| `DispatchSafety.FinishKeeps` | libamt/mtdispatch.C:442-449 | A worker's reply keeps it. |
| `DispatchSafety.ContinueKeeps` | libamt/mtdispatch.C:394-431 | Reading a CONTINUE keeps it, and the worker then serves the request in its cell. |
| `DispatchSafety.InitHolds` | libamt/mtdispatch.C:72-75 | It holds at the beginning. |
| `Dispatcher.MtDispatch.Perform` | libamt/mtdispatch.C:195-221 | The methods that update the shared state in place take, for every event, exactly the step of the step system. |
| `Dispatcher.MtDispatch.SendSvccb` | libamt/mtdispatch.C:172-186 | Succeeds exactly when a worker is ready, and then gives it the request and one CONTINUE; the assertion inside holds. |
| `Dispatcher.MtDispatch.OnRequest` | libamt/mtdispatch.C:92-141 | dispatch takes exactly the step of the step system and keeps the invariant. |
| `Dispatcher.MtDispatch.ChldReady` | libamt/mtdispatch.C:296-313 | The in-place loop takes the drain of the step system, of which DispatchSteps.ReadSays says whom it rejects and whom it serves. |
| `Dispatcher.MtDispatch.ChldReply` | libamt/mtdispatch.C:237-294 | Answers the request in the cell, frees the worker, drains, and counts. |
| `Dispatcher.MtDispatch.ChldMsg` | libamt/mtdispatch.C:195-221 | One message read in place is the step of the step system. |
| `Dispatcher.MtDispatch.RunWorker` | libamt/mtdispatch.C:376-397 | From become_ready to the first msg_recv in place. |
| `Dispatcher.MtDispatch.ReplyFrom` | libamt/mtdispatch.C:442-449 | A reply function in place. |
| `Dispatcher.MtDispatch.RecvContinue` | libamt/mtdispatch.C:392-431 | The loop of run in place. |
| `LoadAverage.TsDiff` | libamt/mtdispatch.C:682-687 | On normalised timestamps, exactly whether the second is more than diff seconds after the first. |
| `LoadAverage.ReqTimes.ReqMade` | libamt/mtdispatch.C:700-708 | For a clock that does not go back, the load average is the number of all requests ever made that are no older than the interval, which are also what the list still holds, in order. |
| `LoadAverage.RecentLater` | libamt/mtdispatch.C:704-706 | Forgetting at an earlier time never changes what is remembered later. |
| `RingBuffer.Suiolite.constructor` | libahttp/suiolite.h:102-108 | An empty ring of the given size, capped; also of size zero. |
| `RingBuffer.Suiolite.Clear` | libahttp/suiolite.C:26-37 | Empties the ring and drops the callback. |
| `RingBuffer.Suiolite.Resid` | libahttp/suiolite.C:161-167 | The number of unread bytes. |
| `RingBuffer.Suiolite.Capacity` | libahttp/suiolite.C:169-175 | resid + capacity = len. |
| `RingBuffer.Suiolite.GetData` | libahttp/suiolite.h:120-120 | A window that is a prefix of the unread bytes, empty only when there are none. |
| `RingBuffer.Suiolite.AccountForNewBytes` | libahttp/suiolite.C:48-73 | The unread bytes grow at the end by what lies in the far region and then in the near one. |
| `RingBuffer.Suiolite.Input` | libahttp/suiolite.C:103-132 | Input appends what it takes and moves neither the read pointer nor the bytes the reader can see. |
| `RingBuffer.Suiolite.LoadFromBuffer` | libahttp/suiolite.C:75-101 | Appends a prefix of the given bytes as long as there is room, growing an unused ring first when it is too small. |
| `RingBuffer.Suiolite.RemBytes` | libahttp/suiolite.C:134-151 | Drops exactly the first n unread bytes, across the wrap, and says when the space callback runs. |
| `RingBuffer.Suiolite.Grow` | libahttp/suiolite.C:177-186 | Replaces an empty, unused ring; the space callback is lost with it. |
| `AbufSession.Session` | libahttp/abuf.h:233-263 | For every sequence of get, unget, peek, can_read, finish, dump and input in which each unget follows a get or peek with no dump between: what was delivered and not put back, with what is pending, is what it was before followed by the input; nothing lost, repeated or overwritten. |
| `AbufSession.UngetAfterDump` | libahttp/abuf.C:157-178 | For every text, an unget after a dump puts the character of the last get back, and the next get delivers it a second time. |
| `AbufSession.OverLimit` | libahttp/ahttp.C:441-455 | Whatever comes in while the reader waits and exceeds the limit on input is never delivered: the next get is the end of input. |
| `Abuf.AbufSrc.GetData` | libahttp/abuf.C:81-103 | A source hands out the next stretch of what it has; WAIT from a ring that has nothing, EOF at the end. |
| `Abuf.AbufSrc.Close` | libahttp/abuf.C:72-79 | The end of a connection loses nothing if and only if it had ended before or the ring holds nothing past the window that was handed out. |
| `Abuf.Abuf.Close` | libahttp/abuf.C:72-86 | For the reader: what is pending stays the same if and only if the connection had ended before or the ring holds nothing past the reader's window; pushback and window are kept in any case. |
| `Abuf.Abuf.MoreData` | libahttp/abuf.C:29-42 | Dropping the old window and mapping the next changes nothing that is pending. |
| `Abuf.Abuf.Get` | libahttp/abuf.h:227-255 | Delivers exactly the next pending character; after a fresh probe WAIT means nothing is pending and the source is open, and EOF always means the end; only fresh characters are mirrored. |
| `Abuf.Abuf.Unget` | libahttp/abuf.h:113-113 | Undoes the last get, except of a WAIT: what was delivered with what is pending stays the same if and only if nothing is put back or the character put back is the last that was handed out. |
| `Abuf.Abuf.Peek` | libahttp/abuf.h:258-264 | Shows the next pending character and changes nothing that is pending. |
| `Abuf.Abuf.CanRead` | libahttp/abuf.h:121-121 | Makes the next get probe again. |
| `Abuf.Abuf.Finish` | libahttp/abuf.C:44-63 | Releases what was read; the rest of the window stays readable. |
| `Abuf.Abuf.Arrive` | libahttp/abuf.C:81-92 | Input while the reader holds a window appends to what is pending. |
| `Abuf.Abuf.WaitingIsEmpty` | libahttp/abuf.C:88-92 | A reader that waits with nothing pending has released the whole ring. |
| `Abuf.Abuf.Flush` | libahttp/abuf.C:157-178 | Copies pending characters out in order, a pushed-back one first. |
| `Abuf.Abuf.Dump` | libahttp/abuf.C:196-217 | Delivers in order until the target is full or the source has no more. |
| `Abuf.Abuf.EndMirror2` | libahttp/abuf.C:144-155 | What was mirrored, less the last sublen bytes (none by default) and less one CRLF then at the end. |
| `Abuf.StripCrlfIs` | libahttp/abuf.C:150-151 | One CR LF at the very end is cut off, and nothing else. |
| `Kmp.Preproc` | libahttp/kmp.C:26-38 | Every entry of the table is the length of the longest proper prefix that is a suffix; at most as many failure links are followed as the pattern has characters. |
| `Kmp.KmpMatcher.Match` | libahttp/kmp.h:53-60 | True exactly when the characters since the last reset end with the pattern, overlaps included; the failure links followed since then are at most as many as the characters. |
| `Kmp.EndsMeans` | libahttp/kmp.h:53-60 | What "ends with" means in the bytes themselves: the last characters are those of the pattern, one by one, or for a caseless matcher the same letters in either case. |
| `Kmp.KmpMatcher.constructor` | libahttp/kmp.h:42-47 | A matcher for the folded pattern with nothing read. |
| `Kmp.KmpMatcher.Reset` | libahttp/kmp.h:51-51 | Forgets what was read. |
| `Kmp.Advance` | libahttp/kmp.h:56-57 | After the fallback loop the state is again the longest prefix that the text ends with. |
| `Multipart.Mpfd.ReceivePart` | libahttp/mpfd.C:299-336 | For every input and every way of cutting it into chunks, the search resumed after each chunk returns the part before the first case-insensitive occurrence of the boundary as the mirror kept it, and otherwise waits. |
| `Multipart.Mpfd.MatchBoundary` | libahttp/mpfd.C:299-336 | Found means that the characters since the search began end in the boundary's first occurrence; WAIT and EOF mean that it did not occur; an unfinished search goes on where it stopped. |
| `Multipart.PartIsExpected` | libahttp/mpfd.C:320-326 | With a mirror large enough the part is the bytes before the boundary less one CRLF just before it. |
| `Multipart.PartIs` | libahttp/mpfd.C:315-329 | Whatever follows the first occurrence does not change the part. |
| `Multipart.PartMissing` | libahttp/mpfd.C:330-335 | There is no part exactly when the boundary does not occur. |
| `Multipart.MirrorExact` | libahttp/abuf.C:144-155 | A mirror of cap bytes gives the right part if and only if part and boundary fit in it, or they are two bytes over, these two are the CRLF to be stripped, and no CRLF stands before it. |
| `Multipart.FirstAtUnique` | libahttp/mpfd.C:320-326 | There is at most one first occurrence. |
| `Multipart.Mpfd.AddBoundary` | libahttp/mpfd.C:291-297 | Pushes a matcher for "--" and the boundary. |
| `Multipart.Mpfd.RemoveBoundary` | libahttp/mpfd.C:338-344 | Pops the last boundary, if any, and forgets the running search. |
| `FormCodec.ChunkIndependence` | libahttp/cgi.C:400-559 | For every input and chunking with a WAIT at each cut, the inserted pairs are those of the uncut text if and only if no cut falls inside a final unfinished escape. |
| `FormMeaning.ParsesPairs` | libahttp/cgi.C:363-522 | For every text whose fields fit the buffer, however it is cut outside a final unfinished escape: the inserts are, for each piece between ampersands in order, the decoded piece with NULL if it holds no "=", and otherwise the decoded text before the first "=" with the decoded rest. Decoding is byte by byte: "+" a space, "%xx" its byte, everything else itself; only an unfinished escape at the very end is dropped. |
| `FormMeaning.DecodesText` | libahttp/cgi.C:400-559 | One field without separators decodes byte by byte in the same way. |
| `FormCodec.CutLosesLastField` | libahttp/cgi.C:526-559 | What such a cut does: every insert but the last stays as it is, and the last loses the field that was being read. |
| `FormCodec.OverflowRestarts` | libahttp/cgi.C:506-521 | A plain field as long as the buffer may grow is dropped, and what follows is read as if the text began there. |
| `FormCodec.ConnectionChunksIrrelevant` | libahttp/cgi.C:400-559 | Where the end of input comes as an event of its own, as on a connection, every chunking of every input inserts the same pairs. |
| `FormCodec.HexDigits` | libahttp/cgi.C:170-176 | The hexadecimal digits of either case, each with its value, and nothing else. |
| `FormCodec.MalformedEscape` | libahttp/cgi.C:548-551 | A malformed escape reads as itself if and only if the buffer has room for it and one byte more (without a digit: has or can get it). |
| `FormCodec.LostDigit` | libahttp/cgi.C:548-551 | "%4z" read into a buffer of two bytes loses its digit, into one of nine it does not. |
| `FormCodec.HexBySuffix` | libahttp/cgi.C:526-559 | Whether the machine is inside an escape is decided by the last two bytes. |
| `FormEncode.CgiEncode` | libahttp/cgi.C:115-168 | The encoder's loop writes the escaped form of every byte; the NUL of its last sprintf falls past the buffer if and only if every byte is escaped and the buffer is exactly three times as long. |
| `FormEncode.EncodeByteIs` | libahttp/cgi.C:40-50 | Letters, digits, "-", "." and "_" stand for themselves, a space becomes "+", and every other byte "%" and its two lower-case hexadecimal digits; with the flag off only ";" is escaped. |
| `FormEncode.CgiRoundTrip` | libahttp/cgi.C:115-168 | Decoding the encoding of any bytes drops nothing and gives them back if and only if they are shorter than the buffer is or may grow. |
| `FormEncode.DecodeOverflow` | libahttp/cgi.C:426-435 | A field that does not fit the buffer is always dropped in part. |
| `FormEncode.EncodeTable` | libahttp/cgi.C:178-197 | Encodes a table in the hash's order: pairs with data only, one key=value for each value, with separators between. |
| `FormEncode.ParseEncoding` | libahttp/cgi.C:178-197 | Parsing an encoding, however it is cut, inserts exactly the encoded pairs. |
| `FormEncode.FormRoundTrip` | libahttp/cgi.C:363-396 | Parsing the encoding of a table gives back every key that has data with exactly its values, for every traversal order and every chunking, if and only if none of these strings reaches the size the buffer has or may grow to. |
| `FormEncode.OutcomeShort` | libahttp/cgi.C:506-521 | No parse of any input in any chunks inserts a string that reaches that size. |
| `FormEncode.FlattenApplies` | libahttp/cgi.C:363-396 | Inserting a table's pairs one by one into an empty table rebuilds it. |
| `FormParser.CgiParser.ParseConnection` | libahttp/cgi.C:304-344 | The resumable parser over a connection inserts what the byte machine says for the chunks and the end of input, and its table is the result of those inserts; if the fields fit, these are the pairs of the split text. |
| `FormParser.CgiParser.ParseGuts` | libahttp/cgi.C:304-396 | One run of the driver consumes what is pending, inserts what the byte machine inserts, and stops only to wait or at the end. |
| `FormParser.CgiParser.ParseKeyOrVal` | libahttp/cgi.C:400-522 | One field, resumed inside an escape where it had stopped: separator, end, overflow or wait exactly as the byte machine says. |
| `FormParser.CgiParser.ParseHexchar` | libahttp/cgi.C:526-559 | An escape, resumable after any of its characters, with the malformed and the buffer-end cases. |
| `FormParser.CgiParser.ExtendScratch` | libahttp/cgi.C:239-261 | Doubles the buffer up to the limit, keeping its contents; fails exactly at the limit. |
| `FormParser.CgiParser.Process` | libahttp/cgi.C:363-396 | Which pair a finished field inserts, and which state follows, as in the byte machine, whose inserts FormMeaning.ParsesPairs gives by splitting. |
| `FormParser.StrParse` | libahttp/cgi.C:563-571 | The table of a whole text: if the fields fit, the pairs of the split text inserted one by one. |
| `FormParser.CgiDecode` | libahttp/cgi.C:400-522 | Decoding one field with the parser's state machine and no separators, byte by byte if it fits; NULL exactly when the field overflows. |
| `FormParser.EncodeThenDecode` | libahttp/cgi.C:115-168 | Encoder and decoder run one after the other return their argument if it is shorter than the buffer is or may grow, and else NULL. |
| `FormParser.EncodeThenParse` | libahttp/cgi.C:563-571 | Encoder and parser of whole tables run one after the other give back every key that has data with its values if and only if none of these strings is too long. |
| `PairHistory.RunIsHistory` | libahttp/pair.h:289-328 | After every run of inserts and removals the table holds the keys inserted since they were last removed, in the order of that first insertion, each with the values given since the last overwrite or removal. |
| `PairHistory.NeverEmptyKey` | libahttp/pair.h:303-308 | After every run there is no empty key. |
| `PairTable.PairTab.Perform` | libahttp/pair.h:289-328 | The same run on the hash and the linked list in place. |
| `PairHistory.ValuesSnoc` | libahttp/pair.h:310-320 | What one more operation does to the values of a key. |
| `PairHistory.BornSnoc` | libahttp/pair.h:317-327 | What it does to the place of a key in the order. |
| `PairTable.PairTab.Insert` | libahttp/pair.h:303-328 | The table after insert: values appended or overwritten, a new key last in order, empty and NULL keys ignored; hash and list hold the same nodes, keys are unique and all in the order. |
| `PairTable.PairTab.Remove` | libahttp/pair.h:289-301 | Removes the key from hash and list and nothing else, and says whether it was there. |
| `PairTable.PairTab.Lookup` | libahttp/pair.h:214-222 | The first value, if the key has one. |
| `PairSpec.InsertedWellFormed` | libahttp/pair.h:303-321 | Insertion keeps keys distinct and the order list exact. |
| `PairSpec.RemovedWellFormed` | libahttp/pair.h:289-301 | So does removal. |
| `PairTable.CList.InsertHead` | libpub/clist.h:62-70 | Puts the node in front; the list is well formed in both directions with the right count. |
| `PairTable.CList.InsertTail` | libpub/clist.h:72-81 | Puts it at the end. |
| `PairTable.CList.Remove` | libpub/clist.h:95-106 | Takes out exactly that node, at either end or between. |
| `PairTable.CList.PopFront` | libpub/clist.h:108-116 | Takes the first node, or NULL from an empty list. |
| `PairTable.CList.PopTail` | libpub/clist.h:118-126 | Takes the last node, or NULL from an empty list. |
| `PairTable.CList.Replace` | libpub/clist.h:128-142 | Puts a node in the place of another. |
| `PairTable.CList.AppendList` | libpub/clist.h:145-162 | Appends all nodes of the other list; that list's own header stays usable if and only if one of the two was empty. |
| `XdrExchange.Exchange` | libokxml/xdr_as_json.h:106-124 | Writing any well-typed value with the creator and reading it into a new object gives it back if and only if no bounded string in it holds a NUL byte; otherwise the reader fails. |
| `XdrMeaning.EncodeStandsFor` | libokxml/xdr_as_json.C:94-205 | What the tree of a value is, without the translation: a number of the same value, that truth value, the same bytes, a list of the same length with each element's tree in its place, a list of no element or one for a pointer, a dictionary of exactly the field names with each field's tree. |
| `XdrExchange.Xdr2Json` | libokxml/xdr_as_json.h:115-124 | The creator run on any value returns a tree that stands for it in that sense. |
| `XdrMeaning.DecodeReadsAs` | libokxml/xdr_as_json.C:219-428 | Which trees can be read and as what, for arbitrary JSON, without the translation: numbers up to wrap-around of 32 bits, truth values of every kind of tree, bytes within their bound, lists within theirs, dictionaries with at least the fields; and what stays from before in a pointer or fixed opaque. |
| `XdrExchange.Json2Xdr` | libokxml/xdr_as_json.h:106-111 | The reader run on any tree and any object succeeds exactly on the readable trees, and the object then holds what the tree reads as. |
| `XdrRoundTrip.RoundTrip` | libokxml/xdr_as_json.C:219-428 | The same of the two translations as functions. |
| `XdrRoundTrip.DecodeEncode` | libokxml/okxmlxlate.h:246-398 | Into an object that already holds something, reading fails exactly on a NUL and otherwise overlays the value. |
| `XdrRoundTrip.OverlayExact` | libokxml/okxmlxlate.h:339-354 | The overlay is the value itself if and only if no null pointer in it meets an allocated one: reading never frees a pointer. |
| `XdrModel.DefaultHasType` | libokxml/okxmlxlate.h:339-354 | A fresh object of any well-formed type is a value of that type. |
| `XdrModel.EncodeFieldsNext` | libokxml/xdr_as_json.C:74-90 | A struct's dictionary grows by exactly its next field. |
| `XdrCreator.JsonCreator.Run` | libokxml/xdr_as_json.C:6-205 | The creator ends with its cursors at the root and builds exactly the tree of the value, which stands for it part by part. |
| `XdrCreator.JsonCreator.Out` | libokxml/okxmlxlate.h:246-398 | A traversal builds the tree of its value at the cursor (what that tree is, XdrMeaning.EncodeStandsFor says), restores both stacks, and changes nothing else that was built. |
| `XdrCreator.JsonCreator.OutArray` | libokxml/okxmlxlate.h:269-293 | An array becomes a list of its elements in order, also when it is empty. |
| `XdrCreator.JsonCreator.OutSlot` | libokxml/xdr_as_json.C:154-160 | One element is added at its index. |
| `XdrCreator.JsonCreator.OutPtr` | libokxml/xdr_as_json.C:182-195 | A pointer becomes a list of no element or one. |
| `XdrCreator.JsonCreator.OutField` | libokxml/xdr_as_json.C:74-90 | One field is added under its name. |
| `XdrCreator.JsonCreator.OutStruct` | libokxml/xdr_as_json.C:36-52 | A struct becomes a dictionary of its fields. |
| `XdrCreator.JsonCreator.SetTop` | libokxml/xdr_as_json.C:29-34 | The value goes to the cursor and to the place its reference names. |
| `XdrCreator.ShowsStable` | libokxml/xdr_as_json.C:29-34 | What was built for earlier elements is not touched by later ones. |
| `XdrCreator.ShowsTree` | libokxml/xdr_as_json.h:38-39 | A handle reads as the one tree it was built to show. |
| `XdrReader.JsonReader.In` | libokxml/okxmlxlate.h:246-398 | A read succeeds exactly when the tree at the cursor decodes, with that value and the cursors restored; a failed one leaves the object filled in up to the failure, and may leave frames on top but takes none away. |
| `XdrReader.Leaves` | libokxml/okxmlxlate.h:246-398 | What a read leaves in the object, failed or not, is of its type, and for a successful one the decoded value. |
| `XdrReader.JsonReader.InElems` | libokxml/okxmlxlate.h:282-287 | The loop over slots decodes each in place. |
| `XdrReader.JsonReader.InPtr` | libokxml/okxmlxlate.h:339-354 | Null is read as no change, otherwise the pointee is allocated if needed and read into. |
| `XdrReader.JsonReader.InFields` | libokxml/okxmlxlate.h:246-261 | The fields are read in turn; a missing one or a tree that is no dictionary fails. |
| `XdrReader.JsonReader.InLeaf` | libokxml/xdr_as_json.C:271-325 | Scalars, strings and opaque data, with the length and NUL checks and the truncation to 32 bits. |
| `XdrReader.JsonReader.PushArray` | libokxml/xdr_as_json.C:329-347 | Accepts a list of at most capac elements, or exactly so many for a fixed array. |
| `XdrReader.JsonReader.EnterField` | libokxml/xdr_as_json.C:229-244 | Moves to the field, or to a NULL cursor if it is missing; fails outside a dictionary. |
| `XdrReader.JsonReader.PushPtr` | libokxml/xdr_as_json.C:370-397 | Accepts a list of no element or one. |
| `PubEnv.RunClosure` | libpub/pub3env.C:147-161 | A closure captured in one environment and run in another over the same base: each name its arguments do not bind means what it means to the definer if and only if a captured layer binds it, or it was cut off by a strong barrier or left no layer out, or the layers left out agree with the base. |
| `PubEnv.RunLater` | libpub/pub3env.C:147-161 | A closure run at any later time, the definer's layers popped and tables changed: as long as the same captured layers bind a name, the layer that bound it at the capture answers, with its present value. |
| `PubScope.LexicalScope` | libpub/pub3env.C:308-344 | The same on layers as values, for all stacks, closures, arguments and names. |
| `PubScope.BarrierHides` | libpub/pub3env.C:319-344 | Names that only layers outside the innermost barrier, of either strength, bind mean in the body what the base says. |
| `PubScope.CapturesAll` | libpub/pub3env.C:319-344 | Where only locals and declared names lie above the base, every name keeps its meaning in the body. |
| `PubScope.InsideClosure` | libpub/pub3env.C:147-161 | In a body the arguments answer, else the innermost captured layer, else the base; never the caller's layers. |
| `PubScope.SearchSegment` | libpub/pub3env.C:200-207 | A stretch of layers answers alike wherever it lies on a stack, and is left through its barrier or its lower end. |
| `PubEnv.Env.Assign` | libpub/pub3env.C:259-280 | A value written through lookup_ref is what the next lookup returns, and every other name means what it meant, however layers share tables. |
| `PubScope.AssignedLookups` | libpub/pub3env.C:259-280 | The same on layers as values, including names found nowhere and names declared universal. |
| `PubEnv.Env.LookupVal` | libpub/pub3env.C:348-362 | The search loop ends and returns what the name means, which PubScope.MeaningByPosition gives by positions. |
| `PubEnv.Env.LookupRef` | libpub/pub3env.C:259-280 | The search loop ends at the table that binds the name, the universals for a declared name, the globals for an unbound one; by positions in PubEnv.Env.FindByPosition. |
| `PubScope.MeaningByPosition` | libpub/pub3env.C:200-207 | By positions: a search from the top passes a layer if and only if the layer is at or below the global frame or no strong barrier lies above it; the topmost passed layer that binds a name, be it a local, the globals, the universals or a library, gives its value. |
| `PubScope.MeaninglessByPosition` | libpub/pub3env.C:348-362 | A name has no meaning if and only if no passed layer binds it. |
| `PubEnv.Env.FindByPosition` | libpub/pub3env.C:259-280 | The same of the tables: what lookup_val returns and which table lookup_ref leads to, for the topmost passed layer that binds the name. |
| `PubEnv.Env.FindNothing` | libpub/pub3env.C:259-280 | And where no passed layer binds it: no value, and the globals. |
| `PubEnv.Env.BindGlobals` | libpub/pub3env.C:117-133 | With or without the replacement shortcut, the base layers give every new name its value, no other name changes meaning, and the stack's global layer is the globals. |
| `PubScope.ResolveFirst` | libpub/pub3env.C:348-360 | The search answers with a layer if and only if that is the first on its way to bind the name, and with none if and only if no layer on its way does; which layers are on its way, PubScope.MeaningByPosition says. |
| `PubScope.KeepsLayer` | libpub/pub3env.C:308-315 | Layers that change between two times but bind the same names answer through the same layer. |
| `PubScope.AgreeLookup` | libpub/pub3env.C:348-362 | A name's meaning depends only on the bindings of that name. |
| `PubEnv.Env.DescendToBarrier` | libpub/pub3env.C:319-344 | A closure begins at the innermost barrier of either strength, or just above the global frame or an empty layer. |
| `PubEnv.Env.CaptureClosure` | libpub/pub3env.C:308-315 | The captured layers, in order. |
| `PubEnv.Env.PushLambda` | libpub/pub3env.C:147-161 | For a closure: a barrier unless it brings one, the closure, the arguments; for none, the arguments alone; every barrier stays above the global frame. |
| `PubEnv.Env.PushLocals` | libpub/pub3env.C:105-113 | A layer, or none for no table. |
| `PubEnv.Env.PushBarrier` | libpub/pub3env.C:137-143 | A barrier. |
| `PubEnv.Env.PushBindings` | libpub/pub3env.C:165-182 | The table a section binds in: fresh locals on a new layer, or the existing globals or universals, which for configuration are the globals. |
| `PubEnv.Env.PushReferences` | libpub/pub3env.C:186-192 | For a universals section a layer of exactly the declared names, otherwise nothing. |
| `PubEnv.Env.PopTo` | libpub/pub3env.C:196-196 | Cuts the stack back or grows it by empty layers; the environment stays sound if and only if the globals are left. |
| `PubEnv.Env.constructor` | libpub/pub3env.C:25-37 | Libraries, universals, globals, in that order; globals are made if none are given. |
| `Pub2.Lossless` | contrib/pub2-upgrade.py:164-174 | For every text the script accepts, printing the tree gives back the text, and the lexer's mode stack ends where it began. |
| `Pub2.ModeIs` | contrib/pub2-upgrade.py:95-122 | After any prefix of the tokens of a text, the lexer is in the pub mode if the innermost unclosed two-character delimiter is "{%", and in the initial mode if that is "{{" or there is none. |
| `Pub2.PubSectionAccepted` | contrib/pub2-upgrade.py:258-297 | Text with a pub section in it, none of the three parts with a brace or percent sign, is accepted as code, a block holding the section's code, and code. |
| `Pub2.HtmlInPubAccepted` | contrib/pub2-upgrade.py:258-297 | So is a pub section with an HTML section inside it, as a block in a block. |
| `Pub2.AcceptsExactly` | contrib/pub2-upgrade.py:258-297 | The parser accepts exactly the token sequences some tree of the grammar stands for, and builds that tree and no other. |
| `Pub2.AcceptsBalanced` | contrib/pub2-upgrade.py:258-297 | The parser accepts a sequence of tokens if and only if its delimiters, of all three kinds, are closed each by its own kind, innermost first. |
| `Pub2.LexIsLossless` | contrib/pub2-upgrade.py:95-130 | The tokens of a text, joined, are the text. |
| `Pub2.NextTok` | contrib/pub2-upgrade.py:95-130 | The two-character delimiters of the mode come first, then the longest run without a stopping character, then that one character; a token is a non-empty prefix of the rest. |
| `Pub2.InnerKeepsModes` | contrib/pub2-upgrade.py:95-122 | Whatever the grammar derives leaves the mode stack as it was. |
| `Pub2.PubLexer.Token` | contrib/pub2-upgrade.py:95-130 | One rule of the lexer, with its push or pop; the mode it leaves, Pub2.ModeIs says by the unclosed delimiters. |
| `Pub2.PubLexer.Tokenize` | contrib/pub2-upgrade.py:147-154 | The loop over tokens, to the end of the text or the first close without a mode to go back to. |

## Left out

- Dispatcher: shutdown and exit, launching threads and pipes, failing pipe writes, RPC reply encoding, logging, the
  periodic report and its epochs. A worker whose initialisation fails is one that never starts. `set_max_q` during a run
  is left out: maxq is fixed. Counters and times do not wrap around.
- Preemptive (pthread) scheduling beyond the run that shows it unsafe.
- Load average: one reading of the clock per call, although the loop may read it again.
- Ring: `readv` and friends are any number of bytes up to the room; MSG_PEEK, `load_into_xdr`, `getlen`, statistics.
  Growing a ring while a reader holds a window of it is outside the reader's model.
- Reader: the character limit `lim`, `stream`, `skip_ws` and the other helpers, pipes as sources, the `const char *`
  constructor of a text source.
- Matcher: `match` with an empty pattern, which reads before its table.
- Multipart: headers, content disposition, files, nesting beyond the stack of boundaries.
- Multipart.Mpfd.MatchBoundary: when data is wanted, the caller must not have put a character back, which the mirror
  would miss, and the mirror must hold the boundary, as the assertion in `end_mirror2` demands.
- Forms: cookie mode, URI mode, the XSS filter, `encflag` off in tables, outgoing cookies; the hash's traversal order is
  any order.
- Pair table: integer and floating-point values and their caches, `reset`, `traverse`, `deleteall`.
- XDR: enums, unions, doubles, big integers, the XML reader and creator, JSON text. Numbers given as text and other
  trees printed as strings count as failed reads. `rpc_ptr::alloc` and `rpc_vec::setsize` are taken to keep what is
  there; their library is not part of this model. Expressions that the creator builds are handles into a store it owns,
  without reference counts.
- XdrReader.JsonReader.In: does not say how many frames a failed read leaves on top of the old cursors, because the
  reader ends with the read.
- XdrReader.JsonReader.InLeaf: counts numbers given as text, and trees printed as strings, as failed reads, because the
  library that parses and prints them is not part of this model.
- Scopes: copy-on-write library tables (a table is a mutable map), the singleton, `lookup_layer`, `clone` and
  dumping. A closure's layers come from a capture.
- Upgrade script: rewriting of for-loops, files and directories, line numbers; ply's parser is taken to accept the
  grammar's language. The second upgrade script.
- Other code of the repository: the HTTP header machine, the service launcher, logging, MySQL, compression, the pub
  evaluator, the JSON-RPC server.
