# Verified models of the server's state machines

This project models the parts of a World of Warcraft server, and of the Discord library bundled
with it, whose correctness depends on long runs, re-entrant calls or exact bytes. Each part is a
model of its own:

- the codec for Erlang's external term format: an encoder over a growable buffer, a
  recursive decoder over a cursor, exactly which values come back, and exactly which bytes are
  accepted and as what (`EtfFormat`, `EtfCodec`, `EtfRoundTrip`, `EtfExact`, `EtfTerms`, `EtfAccepted`);
- the scheduler of REST requests: a pool of workers with rate-limit buckets, and a thread that
  completes and deletes requests, as one interleaved step system in which reading a deleted
  request is a failure (`RequestQueue`, `RequestRuns`, `RequestLifetimes`, `RequestThreads`);
- two readers that get their bytes in pieces: the HTTP response body, after section 7.1 of
  RFC 9112 (`HttpChunked`, `HttpChunkedRuns`), and WebSocket frames, after section 5.2 of RFC 6455
  (`WebSocket`, `WebSocketRuns`);
- received voice: the order of parked payloads and the flush to the decoder (`VoicePayloads`);
- game events: the arithmetic of their windows, and the active set, spawn slots, status table and
  mails over every run with restarts (`GameEventSchedule`, `GameEvents`, `GameEventRuns`,
  `GameEventMgr`);
- creature groups, whose scripts call back into them and change the list being walked
  (`GroupWalks`, `CreatureGroups`), and cameras on viewpoints whose lists change while they are
  walked (`Cameras`);
- two limiters: instances per hour (`InstanceLimit`) and guard posts (`GuardPosts`);
- conditions of the world database, their evaluation and their loading (`Conditions`,
  `ConditionLoading`);
- Discord's channel permissions (`Permissions`) and markdown escaping (`Markdown`).

An object whose methods change its fields is a class here, and each of its methods is proved to
change the object as a function on values says; the theorems are about those functions and about
runs of them. Bytes are integers from 0 to 255; machine widths are written out where the code
wraps or truncates. Where the code falls short of what it is for, one lemma has the input and
another the exact condition, here with the input first: `NestedEmptyArrayIsLost` and
`EtfExact.ReadsBackExactly`; `SlowPassFails` and `UnsafeRuns`; `LessCanCircle` and `OrdersExactly`;
`VisitedMemberLeaves` and `IteratorHolds`; `OriginalLeaderActsTwice`, `QuietCascade` and
`CascadeVisits`; `EnabledLaterHasNoSlot` and `SettledExactly`; `StoppedAndResumed` and
`CommandAnnounces`; `NegationOfItselfLoads`, `LoadedIsClosedExactly` and `GroundedExactly`;
`ZeroLimitLetsOneIn` and `HourlyLimit`; `LiftedByAnother` and `GlobalLimitExactly`;
`NegativeSizeSwallows` and `SizesExactly`. `WaitKeptExactly`, `MakeFrame`, `SpinsExactly`,
`ReliableWithinReach`, `StartedAgain`, `FlipsAtNextCheck` and `EventRestoresReach` are conditions
that speak for themselves. Helpers shared by the models are in `Bytes`, `Sequences` and `Wrappers`.

`dafny verify dfyconfig.toml` checks the whole project.

## Model

| member | source | states |
|---|---|---|
| EtfCodec.EtfBuffer.Write | dep/dpp/etf.cpp:46-55 | the doubling buffer then holds exactly what it held followed by the new bytes |
| EtfCodec.EtfBuffer.AppendInteger | dep/dpp/etf.cpp:82-87 | appends the tag and the four low bytes of the number, most significant first |
| EtfCodec.EtfBuffer.AppendUnsignedLongLong | dep/dpp/etf.cpp:89-103 | the shifting loop appends the base-256 digits of the number, least significant first, with their count and sign |
| EtfCodec.EtfBuffer.AppendBinary | dep/dpp/etf.cpp:167-174 | appends tag, length modulo 2^32 and the bytes |
| EtfCodec.EtfBuffer.InnerBuild | dep/dpp/etf.cpp:640-710 | appends exactly the encoding of the value, or refuses it when an array or object in it is too large |
| EtfCodec.EtfBuffer.BuildArray | dep/dpp/etf.cpp:680-696 | an array is its header, elements and end; an empty one has an end marker in front as well |
| EtfCodec.EtfBuffer.BuildObject | dep/dpp/etf.cpp:697-709 | an object is its header and its keys and values in turn |
| EtfCodec.Build | dep/dpp/etf.cpp:712-717 | a message is the version byte and the encoding of its value, whatever its size next to the first allocation |
| EtfFormat.Read | dep/dpp/etf.cpp:225-259 | a read consumes its width and gives a number of that width, or fails with the cursor in bounds |
| EtfCodec.EtfParser.ReadBits | dep/dpp/etf.cpp:225-259 | the fixed-width reads agree with their specification, cursor included |
| EtfCodec.EtfParser.ReadString | dep/dpp/etf.cpp:261-269 | text past the end gives nothing and leaves the cursor alone |
| EtfCodec.EtfParser.DecodeAtom | dep/dpp/etf.cpp:275-311 | atoms null, nil, true and false are values, all others text |
| EtfCodec.EtfParser.DecodeList | dep/dpp/etf.cpp:333-343 | a list without its end marker is null |
| EtfCodec.EtfParser.DecodeMap | dep/dpp/etf.cpp:353-365 | keys become text, an earlier entry wins, and no entries give null |
| EtfCodec.EtfParser.DecodeBigint | dep/dpp/etf.cpp:401-437 | big integers become decimal text with the width rules of each branch; more than eight digits fail |
| EtfCodec.EtfParser.ReadDigits | dep/dpp/etf.cpp:408-414 | the weighted sum of the digit loop is the number they spell in base 256 |
| EtfCodec.EtfParser.DecodeStringAsList | dep/dpp/etf.cpp:469-479 | a list of octets is checked against the end before any is read |
| EtfCodec.EtfParser.DecodeReference | dep/dpp/etf.cpp:514-526 | fields of a reference in the order they are read |
| EtfCodec.EtfParser.DecodeNewReference | dep/dpp/etf.cpp:528-542 | fields of a new reference, with as many words as announced |
| EtfCodec.EtfParser.DecodeExport | dep/dpp/etf.cpp:561-567 | the three values of an export |
| EtfCodec.EtfParser.InnerParse | dep/dpp/etf.cpp:569-625 | on any bytes the recursive decoder ends and gives what the specification gives, whose own meaning is that of `EtfTerms`: a value and an offset in bounds, or an error |
| EtfCodec.EtfParser.ParseIn | dep/dpp/etf.cpp:627-638 | a whole message, its version checked first |
| EtfFormat.Parse | dep/dpp/etf.cpp:569-625 | a value consumes at least one byte and never reads past the end; `EtfTerms.TermRead` and `EtfAccepted.AcceptsExactly` say which value |
| EtfFormat.ParseAll | dep/dpp/etf.cpp:325-331 | as many values as announced, or an error, whatever number is announced |
| EtfTerms.TermRead | dep/dpp/etf.cpp:301-625 | a term of any of the twenty forms, written with its tag, widths and bytes, is read as what it means in any surroundings, and exactly its bytes are consumed; a term without a meaning gives its error |
| EtfAccepted.TermWritten | dep/dpp/etf.cpp:569-625 | whatever is read successfully is such a term, and its bytes are those consumed |
| EtfAccepted.AcceptsExactly | dep/dpp/etf.cpp:569-625 | bytes are accepted if and only if they begin with a term that has a meaning |
| EtfAccepted.MessageAccepted | dep/dpp/etf.cpp:627-638 | a message is accepted if and only if it is version 131 and then such a term |
| EtfAccepted.TagsRefused | dep/dpp/etf.cpp:569-624 | every other tag has its error, and so has the end of the message |
| EtfTerms.AtomNames | dep/dpp/etf.cpp:275-299 | the atoms nil, null, true and false, letter by letter, are null and the truth values, and all others text |
| EtfTerms.DigitsRead | dep/dpp/etf.cpp:401-437 | up to eight digits, the last the most significant, are their number's text; any sign but 0 gives a minus, up to 2^63 |
| EtfAccepted.GatheredIs | dep/dpp/etf.cpp:353-365 | an object decoded has its members in key order, and for each key just the first value given for it |
| EtfAccepted.BeforeIs | dep/dpp/etf.cpp:353-365 | keys are ordered by the byte where they first differ, a proper front first |
| EtfAccepted.EncodedAs | dep/dpp/etf.cpp:640-710 | what the encoder writes for a value without empty arrays is the bytes of one term: each number in the form its size asks for, text and keys as binaries, arrays as proper lists |
| EtfAccepted.RefusedExactly | dep/dpp/etf.cpp:680-702 | the encoder refuses a value if and only if some array or object in it has 2^32 - 1 entries or more |
| EtfRoundTrip.ParseEncode | dep/dpp/etf.cpp:569-710 | decoding what was encoded, in any surroundings, gives the decoded value and consumes exactly the encoding |
| EtfExact.ReadsBackExactly | dep/dpp/etf.cpp:569-710 | a value comes back whole, with exactly its bytes consumed, in every context, if and only if it holds no empty array anywhere and no text of 2^32 bytes |
| EtfExact.BadValue | dep/dpp/etf.cpp:325-365 | any other value gives an error, another value, or bytes left unread, whatever surrounds it |
| EtfExact.LagAll | dep/dpp/etf.cpp:325-343 | what an empty array leaves unread is read as more empty arrays, and the values after it stay out of step to the end |
| EtfRoundTrip.EmptyArrayLeavesBytes | dep/dpp/etf.cpp:683-695 | an empty array leaves six bytes unread |
| EtfRoundTrip.NestedEmptyArrayIsLost | dep/dpp/etf.cpp:333-343 | an array that holds an empty array comes back as null |
| EtfExact.BadText | dep/dpp/etf.cpp:167-174 | text of 2^32 bytes or more comes back as another value |
| EtfRoundTrip.DecodedUnchanged | dep/dpp/etf.cpp:640-660 | the decoded value is the value itself if and only if its numbers fit 32 bits and it holds no empty object |
| EtfRoundTrip.LargeNumberIsText | dep/dpp/etf.cpp:401-437 | a number from 2^32 - 2 to 2^63 comes back as the text of its decimal digits |
| EtfRoundTrip.MessageRoundTrip | dep/dpp/etf.cpp:627-638 | a message followed by anything reads back, and as itself when it holds nothing the format changes |
| EtfRoundTrip.SizeBound | dep/dpp/etf.cpp:325-365 | a decoded value holds no more values than bytes were consumed, even when a far larger count was announced |
| RequestThreads.Hash | dep/dpp/queues.cpp:401-407 | the hash of an endpoint up to its first zero byte, with signed characters, modulo 2^32 |
| RequestThreads.HashIsPolynomial | dep/dpp/queues.cpp:401-407 | the hash is the polynomial of the signed characters in 31, begun with 17, modulo 2^32 |
| RequestQueue.Route | dep/dpp/queues.cpp:410-414 | an endpoint always goes to one worker of the pool |
| RequestThreads.RouteIsHash | dep/dpp/queues.cpp:401-414 | that worker is the hash modulo the size of the pool |
| RequestThreads.InThread.PostRequest | dep/dpp/queues.cpp:383-390 | the request joins the end of its endpoint's vector, which is made when missing; the others stay |
| RequestThreads.InThread.BucketAllows | dep/dpp/queues.cpp:268-293 | a request is held back exactly if its endpoint has a bucket with nothing remaining and the clock is not past its time plus retry-after, or plus reset-after when that is 0, in 64 bits |
| RequestThreads.InThread.KeepReply | dep/dpp/queues.cpp:295-305 | a reply becomes the bucket of its endpoint and of no other |
| RequestThreads.InThread.EraseCompleted | dep/dpp/queues.cpp:318-334 | erasing one completed request and starting over ends; it fails exactly if it holds a request whose memory has been freed, and otherwise leaves every vector without its completed requests, in order |
| RequestThreads.OutThread.Turn | dep/dpp/queues.cpp:347-380 | one turn completes at most one request, calls its handler if it has run, and deletes what is due |
| RequestThreads.OutThread.DeleteDue | dep/dpp/queues.cpp:373-378 | deletes exactly the entries that are due |
| RequestQueue.DueCount | dep/dpp/queues.cpp:373-378 | the entries in front that are due, and the next one is not |
| RequestRuns.StepKeeps | dep/dpp/queues.cpp:242-380 | every step of posters, workers, replies and the completion thread that reads no deleted request keeps the invariant of the scheduler |
| RequestRuns.RunKeeps | dep/dpp/queues.cpp:242-380 | so does every interleaving, up to the first read of a deleted request, where it stops |
| RequestRuns.SentInPostingOrder | dep/dpp/queues.cpp:264-315 | in every reachable state, also one that has just failed, per endpoint, what was sent followed by what is pending is what was posted, in order |
| RequestRuns.HandledInPostingOrder | dep/dpp/queues.cpp:357-371 | handlers fire in posting order per endpoint, and only for requests that have run |
| RequestRuns.AtMostOnce | dep/dpp/queues.cpp:264-378 | no request is sent twice, no handler fires twice, only what was posted is sent, and deletion follows the handler |
| RequestRuns.SendsRespectLimits | dep/dpp/queues.cpp:270-305 | after a reply with nothing remaining the next send on the endpoint is strictly later than the time of the reply plus its retry-after, or plus its reset-after when that is 0, while that sum fits 64 bits |
| RequestRuns.WaitKeptExactly | dep/dpp/queues.cpp:275-278 | a reply with nothing remaining holds back every send until its wait is over if and only if time and wait add up to less than 2^64 |
| RequestRuns.TakesUnlessHeldBack | dep/dpp/queues.cpp:264-293 | in every reachable state a pass sends its next request if and only if the last reply on the endpoint does not hold it back: one with nothing remaining whose wait is not over; otherwise the endpoint's other requests wait too |
| RequestRuns.HeldBackExactly | dep/dpp/queues.cpp:273-289 | the bucket a reply leaves holds back sends exactly so, in the reply's own fields |
| RequestRuns.GlobalLimitExactly | dep/dpp/queues.cpp:251-341 | in every run all workers are held off if and only if the last reply of any worker was global and no worker has slept since |
| RequestRuns.GlobalLimitNext | dep/dpp/queues.cpp:251-341 | no pass begins under the global limit, whose length is that of the reply that set it |
| RequestRuns.LiftedByAnother | dep/dpp/queues.cpp:301-304 | a reply another worker was waiting for lifts a global limit at once, with no sleep |
| RequestRuns.NeverStuck | dep/dpp/queues.cpp:242-346 | as long as nothing has failed a worker can go on, unless it is idle with no requests and no limit to sleep off |
| RequestLifetimes.ReachableLife | dep/dpp/queues.cpp:242-380 | in every reachable state a worker holds what it has sent until its pass is cleaned up, deletions wait in order for a minute after their handlers, and what is deleted was due |
| RequestLifetimes.OutPassAges | dep/dpp/queues.cpp:367-378 | after a turn of the completion thread exactly the requests whose handler was called 60 seconds ago or more are deleted |
| RequestLifetimes.DeletedWhileHeld | dep/dpp/queues.cpp:318-378 | a turn leaves a worker holding a deleted request if and only if that worker's pass sent it and has not come to its cleaning since, and its 60 seconds are over |
| RequestLifetimes.OnlyCleanFails | dep/dpp/queues.cpp:318-334 | nothing but a cleaning reads a deleted request, and it does exactly when its worker holds one |
| RequestLifetimes.UnsafeNext | dep/dpp/queues.cpp:242-380 | a step makes a safe queue unsafe if and only if it is a turn of the completion thread that finds a request whose minute is over in a pass that is not |
| RequestLifetimes.UnsafeRuns | dep/dpp/queues.cpp:242-380 | so a run comes to hold or read a deleted request if and only if it has such a turn |
| RequestLifetimes.PromptRunsAreOrderly | dep/dpp/queues.cpp:264-378 | a run without one never fails, and sends and handles everything once and in posting order |
| RequestLifetimes.SlowPassFails | dep/dpp/queues.cpp:264-378 | the run in which a pass's second request takes 61 seconds reads the deleted first one |
| HttpChunked.FindCrLf | dep/dpp/httpsclient.cpp:235-238 | the first line end, or that there is none |
| HttpChunked.Stoi16 | dep/dpp/httpsclient.cpp:239-246 | a chunk size is a base-16 int or a failure |
| HttpChunked.TurnProgress | dep/dpp/httpsclient.cpp:131-269 | each pass of the loop that goes on leaves less to do, so it ends |
| HttpChunked.HttpsClient.HandleState | dep/dpp/httpsclient.cpp:204-267 | one pass over the switch on the state |
| HttpChunked.HttpsClient.HandleBuffer | dep/dpp/httpsclient.cpp:128-271 | the loop leaves the fields, the buffer and the answer that draining the input gives |
| HttpChunkedRuns.DrainBehind | dep/dpp/httpsclient.cpp:204-269 | draining and then draining more is draining both at once |
| HttpChunkedRuns.AnyFragmentation | dep/dpp/httpsclient.cpp:128-271 | bytes fed in any pieces leave the state, body and unconsumed bytes they leave when fed at once |
| HttpChunkedRuns.SplitsAgree | dep/dpp/httpsclient.cpp:128-271 | two ways of splitting the same bytes end in the same state and body |
| HttpChunkedRuns.WholeStream | dep/dpp/httpsclient.cpp:204-254 | a stream of chunks in any pieces ends done, with the chunks' data as the body |
| HttpChunkedRuns.PartialStream | dep/dpp/httpsclient.cpp:204-254 | any front of a stream leaves a prefix of that data as the body, and done is reached only with all of it |
| HttpChunkedRuns.WholeBody | dep/dpp/httpsclient.cpp:255-262 | pieces that add up to exactly the announced number of bytes, at least one, leave the reader done and closed with those bytes as the body |
| HttpChunkedRuns.PartialBody | dep/dpp/httpsclient.cpp:255-262 | pieces that add up to fewer leave it open, waiting for content, with exactly those bytes |
| HttpChunkedRuns.OverfullBody | dep/dpp/httpsclient.cpp:255-262 | of more, all pieces up to the one that reaches the announced number are the body, what is over included |
| HttpChunkedRuns.HexLine | dep/dpp/httpsclient.cpp:239-247 | a size below 2^31 in hexadecimal digits is a valid size line for that much data |
| HttpChunkedRuns.NumeralRead | dep/dpp/httpsclient.cpp:239-247 | white space, sign, 0x, hexadecimal digits of either case and anything else are read as the digits' number, if it fits an int |
| HttpChunkedRuns.SizesExactly | dep/dpp/httpsclient.cpp:239-247 | a size line is accepted if and only if it is such a number |
| HttpChunkedRuns.NegativeSizeSwallows | dep/dpp/httpsclient.cpp:239-247 | a negative size becomes one near 2^64, for which all that follows is taken |
| HttpChunkedRuns.UnreadableSizeCloses | dep/dpp/httpsclient.cpp:239-251 | any other size line closes the connection and gives up keeping it |
| WebSocket.FillHeader | dep/dpp/wsclient.cpp:72-105 | writes the header into the array and nothing else, in 6, 8 or 14 bytes, or runs past the end of an array too short |
| WebSocket.MakeFrame | dep/dpp/wsclient.cpp:108-120 | with the 10 bytes every sender sets aside a frame is its header and its data if and only if there are at most 65535 bytes of it |
| WebSocketRuns.HeaderDecodes | dep/dpp/wsclient.cpp:72-105 | a reader of frame headers gets back final, masked with a zero key, the opcode and every 64-bit length |
| WebSocketRuns.HeaderMinimal | dep/dpp/wsclient.cpp:77-93 | no masked header of the same length is shorter |
| WebSocket.WebSocketClient.ParseHead | dep/dpp/wsclient.cpp:172-242 | takes one frame off the front, waits for more, fails, or, for a masked frame, changes nothing and asks to be called again |
| WebSocket.WebSocketClient.HugeLength | dep/dpp/wsclient.cpp:218-222 | the eight shifted bytes make the big-endian number |
| WebSocket.WebSocketClient.HandleBuffer | dep/dpp/wsclient.cpp:159-161 | the loop ends with the frames handed on and the leftover that draining gives, unless a masked frame makes it spin |
| WebSocketRuns.DrainBehind | dep/dpp/wsclient.cpp:172-242 | draining more behind a leftover continues as if all had been there |
| WebSocketRuns.AnyFragmentation | dep/dpp/wsclient.cpp:159-161 | any split of the bytes hands on the same payloads and leaves the same buffer |
| WebSocketRuns.FrameRead | dep/dpp/wsclient.cpp:174-242 | an unmasked frame of any of the three length forms is read as sent |
| WebSocketRuns.SpinsExactly | dep/dpp/wsclient.cpp:159-242 | the loop never ends if and only if the bytes are whole frames, their lengths in any form, and then a masked one of which four bytes are there |
| WebSocketRuns.MaskedSpins | dep/dpp/wsclient.cpp:196-200 | the frames before it are handed on |
| WebSocketRuns.StreamDelivered | dep/dpp/wsclient.cpp:174-242 | a stream of frames is handed on in order, save a last frame of under four bytes |
| WebSocketRuns.PartialStreamDelivered | dep/dpp/wsclient.cpp:159-242 | any front of a stream in any pieces hands on a front of its frames and waits |
| WebSocketRuns.EventsAre | dep/dpp/wsclient.cpp:231-235 | number 9 goes to the ping handler, 10 to the pong handler and what else is read to the message handler, each frame's payload in order |
| WebSocketRuns.StopsThere | dep/dpp/wsclient.cpp:179-255 | behind whole frames the loop ends with a close's code for number 8 and with 0 for a number it does not know, and stays at a masked one |
| WebSocketRuns.FramesBefore | dep/dpp/wsclient.cpp:167-255 | any bytes at all are whole frames, handed on in order, and then where the loop ends, or an unfinished frame for which it waits |
| WebSocketRuns.UnfinishedWaits | dep/dpp/wsclient.cpp:174-228 | nothing is taken of under four bytes, of a length that is not all there, or of a payload that is not |
| VoicePayloads.LessIsLater | dep/dpp/discordvoiceclient.cpp:77-114 | in a window within the reach of its first number, whose times do not go back, the comparison is the order of the numbers counted from the first |
| VoicePayloads.ReliableWithinReach | dep/dpp/discordvoiceclient.cpp:82-113 | for numbers up to a width after the first the comparison is the order of the numbers if and only if the width is within the first's reach, which is at least 5000 |
| VoicePayloads.OrdersExactly | dep/dpp/discordvoiceclient.cpp:77-114 | it is a strict total order on a queue if and only if no three payloads of one time have numbers below 5000, from 5000 to 60535, and above |
| VoicePayloads.WindowIsOrdered | dep/dpp/discordvoiceclient.cpp:77-114 | on such a window it is a strict total order |
| VoicePayloads.LessCanCircle | dep/dpp/discordvoiceclient.cpp:82-113 | three such payloads go in a circle |
| VoicePayloads.Top | dep/dpp/discordvoiceclient.cpp:211-226 | the front of the queue is a greatest element where the comparison is an order |
| VoicePayloads.Flush | dep/dpp/discordvoiceclient.cpp:209-245 | on any contents it ends within 65536 steps a payload, goes through the numbers in turn and delivers each payload once; in a window payloads come in order with one concealment for each missing number |
| GameEventSchedule.Rem | src/game/GameEventMgr.cpp:46 | the remainder that truncates toward zero |
| GameEventSchedule.OnExactly | src/game/GameEventMgr.cpp:42-47 | an event is on if and only if the calendar has it so: between start and end, in a round begun every `occurence` minutes from start and leap days on that has not lasted `length` minutes; ahead of the first round all the time |
| GameEventSchedule.OnInRounds | src/game/GameEventMgr.cpp:42-47 | where no minutes wrap, the rounds in plain numbers |
| GameEventSchedule.LeastDelayIsAttained | src/game/GameEventMgr.cpp:633-668 | the least delay is the starting value or some regular event's |
| GameEventSchedule.CheckStable | src/game/GameEventMgr.cpp:42-73 | whether an event is on does not change before its next check |
| GameEventSchedule.StartsAtNextCheck | src/game/GameEventMgr.cpp:57-59 | an event still to start is off and starts at its next check |
| GameEventSchedule.FlipsAtNextCheck | src/game/GameEventMgr.cpp:61-72 | at the next check inside its lifetime an event is switched if and only if its window is shorter than its period and its leap days leave it within a period of its start |
| GameEventSchedule.LeastDelayIsLeast | src/game/GameEventMgr.cpp:662-664 | the loop's delay is at most that of every regular event |
| GameEventSchedule.NothingMissed | src/game/GameEventMgr.cpp:631-668 | no regular event starts or stops before the second the next update aims at |
| GameEventManager.GameEventMgr.ApplyNewEvent | src/game/GameEventMgr.cpp:689-711 | the event joins the active set and the status table, its slot goes up and its negative slot down, and a mail goes out unless it resumes |
| GameEventManager.GameEventMgr.UnApplyEvent | src/game/GameEventMgr.cpp:671-687 | the reverse, always with a mail |
| GameEventManager.GameEventMgr.GameEventSpawn | src/game/GameEventMgr.cpp:713-721 | the slot of a signed id goes up; an id out of range changes nothing |
| GameEventManager.GameEventMgr.GameEventUnspawn | src/game/GameEventMgr.cpp:790-798 | the slot of a signed id goes down; an id out of range changes nothing |
| GameEventManager.GameEventMgr.StartEvent | src/game/GameEventMgr.cpp:75-103 | starts an existing event; overwriting moves its start, and an end already passed by its minutes counted as seconds |
| GameEventManager.GameEventMgr.StopEvent | src/game/GameEventMgr.cpp:105-122 | stops an existing event, likewise |
| GameEventManager.GameEventMgr.EnableEvent | src/game/GameEventMgr.cpp:124-162 | a change of the flag, either way, stops an event that is active and not on the hardcoded list |
| GameEventManager.GameEventMgr.UpdateHardcoded | src/game/GameEventMgr.cpp:618-629 | the calls hardcoded events make are carried out one after the other before the loop |
| GameEventManager.GameEventMgr.Update | src/game/GameEventMgr.cpp:614-669 | those calls and the loop do what their specification does to the state; the result is a second more than the least delay, in milliseconds |
| GameEventManager.GameEventMgr.InitializeAll | src/game/GameEventMgr.cpp:578-602 | the first update, with the status table read and emptied before the calls of its hardcoded events |
| GameEventManager.GameEventMgr.GetGameEventId | src/game/GameEventMgr.cpp:964-972 | the event of the first slot that lists a creature, 0 if none does |
| GameEventRuns.SlotsDiffer | src/game/GameEventMgr.cpp:715 | signed ids and slots correspond one to one, and the slot gives back the id |
| GameEvents.VisitAllIs | src/game/GameEventMgr.cpp:631-665 | after the loop a regular existing event is active if and only if the schedule says so, others are as before, and the mails are those of the state it began in |
| GameEvents.MailsExactly | src/game/GameEventMgr.cpp:637-650 | a start mail goes out exactly for an event found on, neither active nor active at shutdown; a stop mail exactly for one found off and active |
| GameEvents.MailsAscend | src/game/GameEventMgr.cpp:631-665 | at most one mail about each event, in the order of the ids |
| GameEvents.StartedIsOn | src/game/GameEventMgr.cpp:97-102 | an event started by overwriting begins now, and the schedule has it on at once |
| GameEvents.StoppedIsOff | src/game/GameEventMgr.cpp:116-121 | one stopped by overwriting began its length ago, and the schedule has it off just when it lasts less than a round or its end has passed |
| GameEvents.EnableIs | src/game/GameEventMgr.cpp:124-162 | a changed flag stops an active event that is not on the hardcoded list, even when it is being enabled, and nothing else |
| GameEvents.DelayIsLeast | src/game/GameEventMgr.cpp:614-669 | the delay is a second more than the least of a day, what hardcoded events want and each regular event's next check |
| GameEventRuns.DoKeeps | src/game/GameEventMgr.cpp:75-162 | every command, update and restart, whatever hardcoded events call in them, keeps the invariant |
| GameEventRuns.RunKeeps | src/game/GameEventMgr.cpp:578-711 | after every run the status table is the active set, and a positive slot is up if and only if its event is active, never with the negative one |
| GameEventRuns.CommandAnnounces | src/game/GameEventMgr.cpp:578-711 | a command keeps the last mail about each active event its start, unless it is a restart whose calls stopped an event that was on and whose loop then resumes it without mail, and then it does not |
| GameEventRuns.RunAnnounces | src/game/GameEventMgr.cpp:578-711 | so in every run without such a restart the last mail about an active event is its start |
| GameEventRuns.StoppedAndResumed | src/game/GameEventMgr.cpp:618-647 | the run with such a restart: the event is on and the last mail says it stopped |
| GameEventRuns.UpdateMails | src/game/GameEventMgr.cpp:637-647 | what an update mails after the calls of its hardcoded events, exactly |
| GameEventRuns.RestartResumes | src/game/GameEventMgr.cpp:578-665 | a restart turns on what the schedule says, leaves other events as its calls left them, and mails exactly the starts and stops due from there, none for events that were on when the server went down |
| GameEventRuns.RestartResumesOthers | src/game/GameEventMgr.cpp:578-665 | an event that none of its calls names is on by the schedule alone, and mailed only as started and only if it was off before |
| GameEventRuns.OnSchedule | src/game/GameEventMgr.cpp:614-669 | from an update until the second the next is due the active set agrees with the schedule its calls left |
| GameEventRuns.FollowsCalendar | src/game/GameEventMgr.cpp:614-669 | an update or a restart leaves an event it decides active if and only if the calendar has it on then |
| GameEventRuns.VisitAllDown | src/game/GameEventMgr.cpp:649-658 | which negative slots are up after the loop |
| GameEventRuns.RestartSettles | src/game/GameEventMgr.cpp:618-658 | after a start exactly one slot of an event is up if and only if a call of the first update starts or stops it, or it is regular, and either existing or off |
| GameEventRuns.SettledExactly | src/game/GameEventMgr.cpp:614-711 | between restarts exactly one slot is up if and only if one was, or the event exists and a call starts or stops it, or an update finds it on |
| GameEventRuns.EnabledLaterHasNoSlot | src/game/GameEventMgr.cpp:649-658 | an event enabled after the start and found off has neither slot up |
| GameEventRuns.StartedAgain | src/game/GameEventMgr.cpp:75-711 | an active event is mailed as started once more if and only if a call starts it, or the calls of an update stop it and the update finds it on |
| GroupWalks.EntryStays | src/game/CreatureGroups.cpp:250-258 | a guid's entry is the same one exactly as long as nothing takes the guid out, joining again or not |
| GroupWalks.IteratorHolds | src/game/CreatureGroups.cpp:49-51 | an iterator taken earlier still has its entry if and only if its guid has not been erased nor the group disbanded since |
| GroupWalks.WalkAscends | src/game/CreatureGroups.cpp:49-51 | whatever callbacks do to the list, a walk goes up the guids and visits nobody twice |
| GroupWalks.WalkMissesNobody | src/game/CreatureGroups.cpp:49-51 | it visits every other member that is there throughout, and nobody who never is |
| GroupWalks.WalkStep | src/game/CreatureGroups.cpp:49-51 | a turn of the loop goes on to the least guid above, unless its visit took the entry from under it |
| GroupWalks.VisitedExactly | src/game/CreatureGroups.cpp:49-51 | it visits a guid if and only if that is in the list as the walk comes to its place |
| GroupWalks.QuietWalk | src/game/CreatureGroups.cpp:49-51 | while nothing changes a walk visits the other members in order |
| CreatureGroups.CreatureGroup.Script | src/game/Maps/ScriptCommands.cpp:2239-2253 | a script that calls every entry point of the group at will, those that add and remove members or disband it too, ends, gives both guards back and adds nothing to a cascade whose guard is set |
| CreatureGroups.CreatureGroup.MemberAssist | src/game/CreatureGroups.cpp:212-236 | with the guard free the creature is turned to, and attacks exactly if it is in the world, alive, idle and has a script; when that has deleted the group, freed memory is used |
| CreatureGroups.CreatureGroup.MoveOn | src/game/CreatureGroups.cpp:49-51 | a loop's iterator moves to the entry after its own, and uses freed memory if its own is gone |
| CreatureGroups.CreatureGroup.AssistWalk | src/game/CreatureGroups.cpp:49-51 | the loop asks the least guid above the last one each time, in the list as the scripts leave it; it uses freed memory if and only if a visited member was removed during its visit or the group disbanded |
| CreatureGroups.CreatureGroup.OnMemberAttackStart | src/game/CreatureGroups.cpp:44-55 | one cascade is such a walk and then the original leader; nobody attacks twice unless the walk meets the original leader in the list |
| CreatureGroups.CreatureGroup.Respawn | src/game/CreatureGroups.cpp:175-210 | with the guard free the creature is respawned exactly if it is in the world, waiting and allowed to |
| CreatureGroups.CreatureGroup.RespawnAll | src/game/CreatureGroups.cpp:163-173 | a respawn cascade is such a walk and then the original leader; nobody respawns twice unless the walk meets the original leader in the list |
| CreatureGroups.CreatureGroup.OnRespawn | src/game/CreatureGroups.cpp:143-161 | the original leader leads again, and unless a respawned creature's script changes that stays so; the others respawn if the group respawns together |
| CreatureGroups.CreatureGroup.OnLeaveCombat | src/game/CreatureGroups.cpp:115-141 | who is made to evade; the others respawn if the options say so for any evade, or for the master's, which a fighting leader's counts as |
| CreatureGroups.CreatureGroup.NotifyLeader | src/game/CreatureGroups.cpp:59-65 | the original leader hears of another's death if the options say so and it is in the world, alive and has a script |
| CreatureGroups.CreatureGroup.NotifyMembers | src/game/CreatureGroups.cpp:67-74 | the other members hear of it in a walk over the list as their scripts leave it |
| CreatureGroups.CreatureGroup.Elect | src/game/CreatureGroups.cpp:76-112 | a formation on waypoints whose leader dies follows the first fit member, or the original leader if none is |
| CreatureGroups.CreatureGroup.OnMemberDied | src/game/CreatureGroups.cpp:57-113 | the leader is told, then the members in a walk, as far as the options say so by then, and then the group as their scripts leave it elects a leader |
| CreatureGroups.CreatureGroup.AddMember | src/game/CreatureGroups.cpp:26-42 | adds or rewrites one member and its options unless the guid leads now; the original leader gets in exactly while another leads |
| CreatureGroups.CreatureGroup.RemoveMember | src/game/CreatureGroups.cpp:250-258 | exactly that member is gone |
| CreatureGroups.CreatureGroup.RemoveTemporaryLeader | src/game/CreatureGroups.cpp:238-248 | the original leader leads and the temporary one is gone |
| CreatureGroups.CreatureGroup.DisbandGroup | src/game/Objects/Creature.cpp:4006-4025 | the list is empty and the group deleted |
| CreatureGroups.CascadeVisits | src/game/CreatureGroups.cpp:44-55 | a cascade visits the original leader and exactly those in the list as the walk comes to their places, and nobody twice if and only if the original leader started it or is not in the list as the walk comes to its place |
| CreatureGroups.QuietCascade | src/game/CreatureGroups.cpp:44-55 | while nothing changes the list, it visits nobody twice if and only if the original leader started it or is no member |
| CreatureGroups.CascadeActsOnce | src/game/CreatureGroups.cpp:163-236 | somebody acts twice if and only if the original leader did not start it, is met in the list, and passes the test both times |
| CreatureGroups.OriginalLeaderActsTwice | src/game/CreatureGroups.cpp:28-29 | with the original leader among the members it acts twice |
| CreatureGroups.VisitedMemberLeaves | src/game/Objects/Creature.cpp:4006-4025 | a member that leaves the group while it is visited takes the iterator's entry with it |
| CreatureGroups.JoiningAgainIsTooLate | src/game/CreatureGroups.cpp:31-34 | joining again before the visit ends does not bring it back |
| Cameras.MovedIsGood | src/game/Camera.cpp:77-87 | a change of view keeps every camera in exactly the list of its source, once, and the maps' active lists in step |
| Cameras.World.Detach | src/game/Camera.h:93 | all places of the camera in the list go, the rest keep their order |
| Cameras.World.NewCamera | src/game/Camera.cpp:29-32 | a new camera begins at the end of its player's list |
| Cameras.World.SetView | src/game/Camera.cpp:58-98 | moves the camera if the object is another one, in the owner's map and viewable, and otherwise changes nothing |
| Cameras.World.Handle | src/game/Camera.cpp:100-135 | what each event does to one camera |
| Cameras.World.CameraCall | src/game/Camera.h:95-105 | with the place saved before each call, every camera present at the start is told once and in order, although those told leave the list |
| Cameras.AllToldIs | src/game/Camera.h:95-105 | the list keeps those that stay in order, owners' lists gain those that come home in order, and each camera is as one telling leaves it |
| Cameras.OnlyOwnRemain | src/game/Camera.cpp:120-129 | after an object left the world only its own cameras are on it and those whose owner is out of the world; the others look through their owners |
| Cameras.EachCameraAfter | src/game/Camera.cpp:100-135 | where each camera looks and which cell it hears of after every kind of event of any object |
| Cameras.World.EventRemovedFromWorld | src/game/Camera.h:121-125 | the same of the event itself |
| Cameras.World.EventAddedToWorld | src/game/Camera.h:115-119 | cameras in reach of their sources stay so |
| Cameras.World.EventGridChanged | src/game/Camera.h:127-131 | cameras in reach of their sources stay so |
| Cameras.EventRestoresReach | src/game/Camera.cpp:111-135 | after the event every camera gets the broadcasts of its source's cell; when the object left the world, if and only if no stranger's camera was stuck on it with a cell |
| InstanceLimit.AccountMgr.CheckInstanceCount | src/game/AccountMgr.cpp:659-686 | the answer, and the one expired entry forgotten for it; other accounts are untouched |
| InstanceLimit.AccountMgr.AddInstanceEnterTime | src/game/AccountMgr.cpp:688-701 | the instance has the new time, all others their old ones, in order |
| InstanceLimit.CheckKeeps | src/game/AccountMgr.cpp:667-685 | a check forgets only what is over an hour old and leaves room for what it allows |
| InstanceLimit.HourlyLimit | src/game/AccountMgr.cpp:659-701 | in every run and every hour of it no more instances are entered than a limit of one or more |
| InstanceLimit.RefusedExactly | src/game/AccountMgr.cpp:659-686 | in every run a check refuses if and only if in the hour up to it as many instances as the limit were entered, and this is none of them |
| InstanceLimit.ZeroLimitLetsOneIn | src/game/AccountMgr.cpp:661-663 | with a limit of zero one instance is entered |
| GuardPosts.GuardMgr.Update | src/game/GuardMgr.cpp:240-264 | every post's cooldown runs down, and charges go up once when the timer runs out |
| GuardPosts.GuardMgr.SummonGuard | src/game/GuardMgr.cpp:413-437 | a post is used exactly if it is ready, and no other post changes |
| GuardPosts.RunKeeps | src/game/GuardMgr.cpp:240-264 | charges spent and left are those there were and those recharged; recharges and calls are spaced |
| GuardPosts.CallsAreLimited | src/game/GuardMgr.cpp:240-437 | over any stretch of any run, for any timer, calls are at most eleven and one for each full minute, ten seconds apart, with at most ten charges held |
| GuardPosts.AnswersExactly | src/game/GuardMgr.cpp:413-437 | in every run a call is answered if and only if a charge is left and ten seconds have passed since the last answer, or the first rest |
| GuardPosts.ChargedAgain | src/game/GuardMgr.cpp:240-264 | a post nobody calls has one charge more, up to ten, once the time the timer showed has passed |
| Conditions.EvaluateIs | src/game/Conditions.cpp:144-180 | the order in which operands are tried does not matter |
| Conditions.MoreFuel | src/game/Conditions.cpp:120-180 | an answer found within some number of calls inside each other is the answer within any more |
| Conditions.GroundedExactly | src/game/Conditions.cpp:120-180 | an entry can be evaluated all the way down if and only if every way from operand to operand stays in the table and never comes back to where it was |
| Conditions.MeetsIsValue | src/game/Conditions.cpp:120-180 | such an entry, whatever numbers its operands have, evaluates to the value of the Boolean tree it denotes, with its swaps and reversals |
| Conditions.NeededExactly | src/game/Conditions.cpp:49-117 | which of the 59 tests needs which of target, source and map, and of what kind, by their numbers |
| Conditions.TestAnswers | src/game/Conditions.cpp:120-144 | a test is met if it has what it needs and turns out as its reverse flag wants, with target and source exchanged by a swap |
| Conditions.CombinationAnswers | src/game/Conditions.cpp:147-180 | the answer of a negation, disjunction or conjunction from those of its two to four operands, the optional ones only where given |
| ConditionLoading.ConditionStorage.DisableCondition | src/game/Conditions.h:327 | the entry becomes empty with its result turned round |
| ConditionLoading.ConditionStorage.IsValid | src/game/Conditions.cpp:747-818 | operands must have lower numbers and exist; a test may be refused or disabled |
| ConditionLoading.ConditionStorage.LoadConditions | src/game/ObjectMgr.cpp:9146-9163 | the ascending loop leaves exactly the entries that survive, tests about removed content disabled |
| Conditions.ClosedIsGrounded | src/game/Conditions.cpp:120-180 | when all operands exist and have lower numbers evaluation goes no deeper than the entry's number |
| ConditionLoading.LoadedIsClosedExactly | src/game/Conditions.cpp:747-820 | after loading every operand that evaluation looks up exists and is lower if and only if the third and fourth operands of the surviving negations survive and are lower |
| ConditionLoading.DisablingIsFailing | src/game/Conditions.h:327 | disabling tests is making them fail, with acceptable parameters, in every tree around them |
| ConditionLoading.LoadedAnswers | src/game/Conditions.cpp:747-820 | then every loaded condition can be evaluated |
| ConditionLoading.LoadedMeaning | src/game/ObjectMgr.cpp:9146-9163 | a loaded condition that can be evaluated holds if and only if the tree of its unloaded entries does with the disabled tests failing |
| ConditionLoading.NegationOfItselfLoads | src/game/Conditions.cpp:751-765 | a negation whose third operand is itself is loaded, and no number of calls is enough to evaluate it |
| Permissions.MemberBasePermissions | dep/dpp/guild.cpp:590-614 | the owner has all bits, others those of everyone and of their cached roles, and an administrator all |
| Permissions.BaseBits | dep/dpp/guild.cpp:590-614 | a member has a bit exactly if it owns the guild, or the role for everyone is cached and that or a cached role of the member has the bit or is an administrator's |
| Permissions.UserBasePermissions | dep/dpp/guild.cpp:578-588 | nothing for nobody and for a user who is no member |
| Permissions.CollectRoles | dep/dpp/guild.cpp:640-659 | the bits allowed and denied by the first overwrite of each role but that of everyone |
| Permissions.UserOverwrites | dep/dpp/guild.cpp:616-674 | the layered result for a cached member, nothing for others, all bits for an administrator |
| Permissions.MemberOverwrites | dep/dpp/guild.cpp:676-729 | the layered result from the member's own base |
| Permissions.BothAgree | dep/dpp/guild.cpp:616-729 | for a cached member both ways of asking give the same bits |
| Permissions.Layers | dep/dpp/guild.cpp:686-728 | each bit is decided by the member's overwrite, else by the roles', else by everyone's, else by the base, allowing before denying in each; the overwrite for an id and kind is the one at the least index of the channel's list that has them, and a layer with none changes nothing |
| Permissions.RolesAreASet | dep/dpp/guild.cpp:590-729 | neither the order nor the repetition of a member's roles matters |
| Permissions.AllForAdministrators | dep/dpp/guild.cpp:594-611 | the owner and whoever has an administrator's role have all bits in every channel |
| Markdown.MarkdownEscape | dep/dpp/utility.cpp:464-504 | the loop over the text is the three-state machine applied to it |
| Markdown.EscapeIsEach | dep/dpp/utility.cpp:484-501 | with code blocks escaped every character is escaped by itself, ticks in threes included |
| Markdown.EscapeDistributes | dep/dpp/utility.cpp:484-501 | there the parts of a text can be escaped apart |
| Markdown.BlockUntouched | dep/dpp/utility.cpp:482-487 | otherwise a block of code between three ticks stays as it is |
| Markdown.InlineUntouched | dep/dpp/utility.cpp:488-491 | and so does code between single ticks |
| Markdown.ThreeTicksEndInline | dep/dpp/utility.cpp:482-491 | which three ticks end as well |
| Markdown.PlainMarked | dep/dpp/utility.cpp:492-501 | while outside code the marks, and nothing else, get a backslash |
| Markdown.ReadsBack | dep/dpp/utility.cpp:464-504 | a reader with the same machine recovers every text in both modes |
| Markdown.EscapeIsInjective | dep/dpp/utility.cpp:464-504 | no two texts look the same escaped |

## Left out

- EtfFormat.Parse: does not model compressed terms; their tag gives an error here, because inflating them is zlib's.
- EtfCodec.EtfParser.DecodeFloat: does not model the C library's reading of float text, nor a double cast to an unsigned integer for a map key; both are parameters. Doubles are 64-bit words.
- EtfCodec.EtfParser.DecodeMap: a value that fails after a key that is no text gives the key's error; the library leaves the order of the two open.
- EtfRoundTrip.SizeBound: counts the values decoded, not the depth of the stack.
- The atom, tuple and string writers that building never calls.
- RequestRuns.RunKeeps: does not model requests added to the pool size later, objects posted twice, or the queue's destruction; waiting, waking and locks are the order of the steps, and each locked section is one step, so a deletion comes before a cleaning or after it. After a read of a deleted request nothing is promised.
- RequestRuns.SendsRespectLimits: does not model the global limit's sleep, only that no pass begins while the limit is set.
- HttpChunked.HttpsClient.HandleBuffer: does not model the headers state, which returns before draining the rest of its buffer, nor trailer fields; a negative chunk size wraps at 64 bits, and the sum of received and buffered bytes does not wrap.
- WebSocket.WebSocketClient.HandleBuffer: does not model the upgrade that precedes framing; a masked frame, on which the library loops for ever, gives the answer that it does; a 64-bit length so close to 2^64 that adding the header's size wraps is taken as it is. Handlers only record.
- VoicePayloads.Flush: does not model decoding, mixing, the handlers or the ranges kept for the next batch; samples the decoder refuses still count as delivered.
- GameEventManager.GameEventMgr.Update: reads the clock once, where the server reads it again for each delay; which calls hardcoded events make, and the delay they ask for, are parameters.
- GameEventManager.GameEventMgr.StartEvent: does not call the Enable hook of a listed hardcoded event, which is code outside the group of files modelled.
- GameEventManager.GameEventMgr.EnableEvent: likewise, with the Enable and Disable hooks.
- GameEventRuns.RunKeeps: an event table has at most 32768 ids, as slots are numbered by signed 16-bit ids, and no valid event's period wraps to zero, on which the server divides; pools, creature templates, quests and announcements are not modelled.
- CreatureGroups.CreatureGroup.Script: how often creatures still die in the course of one call is a number given beforehand, as death notices have no guard; a script stops calling the group once it is deleted. Once freed memory has been used nothing is promised.
- CreatureGroups.CreatureGroup.Respawn: does not model the teleport into formation before a member respawns; movement is left out throughout.
- Cameras.World.CameraCall: objects and cameras go by number and live in two maps of one class, so aliasing of the server's pointers is not modelled; visibility updates change nothing here.
- InstanceLimit.HourlyLimit: entries are made only after the check said yes, by the same account, at times that do not go back; game masters, who skip the check, are not modelled.
- GuardPosts.CallsAreLimited: the text spoken and the guard summoned are not modelled, nor is the call to nearby guards in an area without a post beyond that it is made.
- Conditions.MeetsIsValue: tests are left open functions of entry, target, source and map; the two tests that look up another condition without comparing numbers, 47 and 50, are not modelled as such. The nesting of calls is counted, not limited.
- ConditionLoading.LoadConditions: how a test's own values are checked is a parameter.
- Permissions.Layers: masks are sets of bit numbers; the role cache is a map.
- The text helpers for UTF-8 lengths and for URL encoding.
- SQL, packets, localisation, sockets, TLS and the rest of the game's rules.
