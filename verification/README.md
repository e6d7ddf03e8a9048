# Verification of papper

papper is an asynchronous logger. Each producer thread encodes its log events into a lock-free byte queue of its own.
One backend thread walks a list of thread contexts, takes one event of every non-empty queue per pass, decodes it,
renders it through a pattern and writes a line; it also retires the contexts of dead threads. This project models that
behaviour and proves what the design relies on.

The modules follow the program:

| module | what it models |
|---|---|
| `Words` | 64-bit positions that wrap, the index mask, `std::bit_ceil`, the little-endian bytes of a word |
| `Framing` | the argument codec, the event header, whole events and streams of events |
| `Spsc` | the byte queue as a transition system of one producer and one consumer |
| `Ring`, `EventIO` | the queue as an object over an array, and writing and reading events in place |
| `NodeList`, `Logger` | the context list as a heap of nodes; the whole logger as a transition system |
| `Registry`, `Delivery`, `Retirement`, `BoundedWait`, `Progress`, `Shutdown`, `LostEvent`, `Threads` | what every run of the logger keeps, and what some run does |
| `Drain` | the backend's list operations, poll pass and drain loop as an object |
| `Digits`, `Fmt`, `Pattern`, `PatternParser`, `TimeText`, `Formatter` | decimal text, fmt's replacement fields, the pattern language, its compiler, the cached time text, rendering |
| `PatternLaws` | what the pattern language means, in written-out names: which field each name is, what is refused, what each item prints |
| `UtcOffset` | the Gregorian calendar and the recovery of the UTC offset |
| `Handover` | handing sinks and formatters over to the backend |
| `Wrappers`, `Sequences`, `TimeUnits` | what several modules share |

How the concurrency is modelled. In `Spsc` the admission check, the reload of the other side's position, every copied
byte and the commit are steps of their own. An atomic position is its whole modification order; an acquire load may
return any entry that is not older than the one the thread saw last. Positions are wrapping 64-bit words throughout.
`Logger` contains one `Spsc` state for each thread and adds the steps of registration (with a weak compare-and-swap that
may fail at any time), of the poll pass, of the liveness load (which may be stale) and of the removal of a node, whose
address may then be allocated again. A run is any sequence of such steps from the initial state, and the main results
are about every state of every run. What is called history in the state (`committed`, `consumed`, `log`, `load`,
`visited`, `passes`) is recorded for the statements and read by no step.

## Where the code and its comments differ

`poll_threads` loads the write position of a queue before it loads the thread's liveness flag
(include/papper/detail/core.h:278-286), while the comment at core.h:288-290 says that a context is deleted when no events
are left. `LostEvent.SomeRunLosesAnEvent` gives a run, with fresh loads throughout, in which an event is committed between
the two loads and deleted with its context; `LostEvent.EventCanBeLost` shows that in every run that reaches that window,
wherever the context is in the list, any event that fits the queue can be lost. `Retirement.RetirementGuarantee` is the exact guarantee that does hold: the events behind the publication that
the emptiness load observed are lost and no others, so nothing is lost if and only if that load observed the last one.

The time text is right for times from the epoch on, but not for all times: `TimeText.CacheAgrees`,
`TimeText.MicrosecondTextReadsBack` and `TimeText.NanosecondTextReadsBack` state exactly when it is. The offset
computation is right for all offsets below a day; `UtcOffset.OffsetIsExact` states exactly when it is right in general.

## Model

| member | source | states |
|---|---|---|
| `Words.BitCeil` | include/papper/detail/queue.h:17-22 | the capacity is the smallest power of two that is not below the requested one |
| `Words.MaskOfWrapped` | include/papper/detail/queue.h:57 | masking a position that wrapped at 2^64 gives the logical position modulo the capacity |
| `Words.BytesDisjoint` | include/papper/detail/queue.h:24-29 | bytes less than a capacity apart in logical position never share a physical index, although blocks are not wrapped and spill into the upper half |
| `Words.FreeSpaceWord` | include/papper/detail/queue.h:46-51 | cached read position plus capacity minus write position, in wrapping arithmetic, is the exact free space |
| `Words.WordRoundTrip` | include/papper/detail/codec.h:47-57 | the eight bytes of a word read back as that word |
| `Words.WordInverse` | include/papper/detail/codec.h:47-57 | any eight bytes are the bytes of the word they read as |
| `Framing.EncodeAllSize` | include/papper/detail/core.h:434-440 | the sum of the encoded sizes is exactly the number of bytes the encoders write |
| `Framing.DecodeEncode` | include/papper/detail/codec.h:38-96 | decoding an encoded value gives the value back and stops exactly behind it, whatever follows |
| `Framing.DecodeAllEncodeAll` | include/papper/detail/core.h:33-51 | the same for every heterogeneous argument list |
| `Framing.EncodeAllDecodeAll` | include/papper/detail/core.h:33-51 | the decoder accepts nothing but encodings: its input is the encoding of its result followed by the rest |
| `Framing.StructMatchesFields` | include/papper/detail/core.h:72-84 | the four fields written one by one are read back as one struct |
| `Framing.EventIsFramed` | include/papper/detail/core.h:434-458 | the bytes written for an event equal the reserved size, and the header announces exactly that size |
| `Framing.DecodeEventEncodeEvent` | include/papper/detail/core.h:231-240 | an event reads back as itself, and the skip computed from its header is its exact size, whatever bytes follow |
| `Framing.EventSurvives` | include/papper/detail/core.h:231-240 | the backend decodes exactly the event that was logged |
| `Framing.ReadStreamEncodeStream` | include/papper/detail/core.h:279-283 | a reader that skips by the announced size stays on event boundaries over every sequence of events and reads them all |
| `Framing.EventLayout` | include/papper/detail/core.h:72-78 | an event is the call site, the thread name, the timestamp and the payload size as little-endian words of eight bytes at offsets 0, 8, 16 and 24, then the encoded arguments |
| `Framing.ArgsLayout` | include/papper/detail/core.h:455-456 | the arguments follow each other in order with nothing between them |
| `Framing.ArgLayout` | include/papper/detail/codec.h:38-96 | a scalar is its object representation; a string is its length as a word and then its characters one after the other |
| `Spsc.FreeIsExact` | include/papper/detail/queue.h:46-51 | for every read position a load may return, the producer's expression is the exact free space against it |
| `Spsc.OffsetIsSlot` | include/papper/detail/queue.h:57 | the physical offset of a wrapped position is the slot of its logical position |
| `Spsc.EmptyTestIsExact` | include/papper/detail/queue.h:93-105 | the comparison of wrapped words never claims a message that is not there, and a reloaded word equals the read position only at the consumer's own boundary |
| `Spsc.WholeMessage` | include/papper/detail/queue.h:72-83 | when the consumer has what the header announced, it holds one whole committed message |
| `Spsc.NextInv` | include/papper/detail/queue.h:44-105 | every step of either thread keeps the invariant: seen read <= read <= seen write <= written <= seen read + capacity in logical positions, and every unread message intact in the buffer |
| `Spsc.RunInv` | include/papper/detail/queue.h:44-105 | the invariant holds in every state of every run |
| `Spsc.ReadsArePrefixOfCommits` | include/papper/detail/queue.h:44-105 | in every interleaving the messages read are, byte for byte, a prefix of the messages committed, and no uncommitted byte is ever copied out |
| `Spsc.ReservationIsDisjoint` | include/papper/detail/queue.h:44-58 | in every reachable state a granted reservation lies in the buffer and is disjoint from every unread message, spilled ones and the one being read included |
| `Spsc.CopiesStayInBounds` | include/papper/detail/queue.h:24-29 | in every reachable state the next byte to copy, in or out, lies in the buffer of twice the capacity |
| `Spsc.AdmissionIsExact` | include/papper/detail/queue.h:44-58 | after a reload a reservation is refused if and only if used + size exceeds the capacity against the position loaded, and a refusal changes no published position and no data |
| `Spsc.WriteGrantedIffItFits` | include/papper/detail/queue.h:44-58 | with the newest read position in view a write is granted if and only if used + size fits the capacity |
| `Spsc.EmptyPollIsExact` | include/papper/detail/queue.h:93-105 | a poll reports nothing to read exactly when every message up to the publication it loaded has been read |
| `Spsc.CachedPositionSuffices` | include/papper/detail/queue.h:93-105 | a poll goes on without a reload exactly if it has already seen an unread message, as long as positions have not wrapped |
| `Spsc.InitIsEmpty` | include/papper/detail/queue.h:17-30 | a queue starts empty at position 0, with the least power of two that holds the requested capacity and a buffer of twice that |
| `Ring.Queue.constructor` | include/papper/detail/queue.h:17-30 | an empty queue of the rounded capacity |
| `Ring.Queue.ReserveWrite` | include/papper/detail/queue.h:44-58 | granted if and only if used + size fits the capacity, however stale the cached position was; the range granted lies right behind the last message, inside the buffer |
| `Ring.Queue.ReservationIsFree` | include/papper/detail/queue.h:44-58 | writing anything into a granted range leaves every message of the queue as it is |
| `Ring.Queue.CommitWrite` | include/papper/detail/queue.h:60-64 | the bytes in the range become the newest message |
| `Ring.Queue.IsEmpty` | include/papper/detail/queue.h:93-105 | true if and only if no message is unread, although positions wrap |
| `Ring.Queue.ReserveRead` | include/papper/detail/queue.h:73-83 | nothing if and only if the queue is empty, else the oldest message as one contiguous block |
| `Ring.Queue.CommitRead` | include/papper/detail/queue.h:87-91 | takes exactly the oldest message out |
| `Ring.FreeRangeIsDisjoint` | include/papper/detail/queue.h:24-29 | bytes changed only in the free range behind the messages change none of them |
| `EventIO.EncodeArg` | include/papper/detail/codec.h:47-51 | one argument is written at the buffer position, which advances by its encoded size, and nothing else changes |
| `EventIO.EncodeArgs` | include/papper/detail/core.h:455-456 | the fold over the arguments writes the encoding of the list |
| `EventIO.EncodeHeader` | include/papper/detail/core.h:451-454 | the four separate encodes write the header |
| `EventIO.PushLogEvent` | include/papper/detail/core.h:424-459 | the event becomes the newest message if and only if it fits; otherwise it is dropped and the queue keeps its messages |
| `EventIO.DecodeArg` | include/papper/detail/codec.h:53-94 | one argument is decoded in place and the position advances exactly behind it |
| `EventIO.DecodeArgs` | include/papper/detail/core.h:38-43 | the fold over the argument types decodes the whole list |
| `EventIO.FrontEvent` | include/papper/detail/core.h:231-240 | the message at the front of the data decodes to its event whatever bytes lie behind it in the buffer |
| `EventIO.DecodeInPlace` | include/papper/detail/core.h:231-240 | yields the event that was written there and its exact size |
| `EventIO.ReadEvent` | include/papper/detail/core.h:278-285 | nothing if the queue is empty, else the oldest event, and exactly its message is taken out |
| `NodeList.LinkedIsAcyclic` | include/papper/detail/core.h:129-133 | a list that ends in null never meets a node twice |
| `NodeList.LinkedIsUnique` | include/papper/detail/core.h:129-133 | the heap determines the list behind a pointer |
| `NodeList.UnlinkMiddle` | include/papper/detail/core.h:222 | redirecting the predecessor takes out exactly that node |
| `NodeList.WalkSurvivesPush` | include/papper/detail/core.h:209-217 | a walk towards a node is not disturbed by a concurrent push at the front |
| `NodeList.WalkArrives` | include/papper/detail/core.h:209-222 | when the walk stands on the node, the previous pointer is its predecessor |
| `Registry.PushInv` | include/papper/detail/core.h:163-174 | a successful swap puts the context at the front, once |
| `Registry.PushFailsInv` | include/papper/detail/core.h:167-173 | a failed swap, real or spurious, leaves the list as it is |
| `Registry.NextAttemptCanSucceed` | include/papper/detail/core.h:167-173 | after a failed swap the next pointer is the current head, so that the next swap of this thread can succeed and make it Running |
| `Registry.FirstAttemptCanSucceed` | include/papper/detail/core.h:163-168 | the first swap can succeed if the head is still the one loaded |
| `Registry.RegistrationCanFinish` | include/papper/detail/core.h:163-174 | from every state of every run a registering thread can become Running by its own steps alone, with at most one failed swap before the successful one |
| `Registry.StepInv` | include/papper/detail/core.h:163-297 | every step of any thread keeps the list well formed and moves it only by one push at the front or one removal of the backend's current node |
| `Registry.ListIsCorrect` | include/papper/detail/core.h:163-227 | in every reachable state the registry is an acyclic list that holds each registered and not yet removed context exactly once, and nothing else |
| `Registry.NoDanglingPointer` | include/papper/detail/core.h:194-297 | in every reachable state each pointer about to be followed, the saved next included, is an allocated node, and a removal always finds its node with a predecessor |
| `Registry.RemovalTakesOutOneNode` | include/papper/detail/core.h:194-227 | a removal takes out exactly the given node, at the head or displaced by newer pushes, and keeps the order of the others |
| `Threads.LogCallGoesOn` | include/papper/detail/core.h:424-459 | in every state of every run a running thread that is in a log call has a next step of it to take |
| `Threads.LogCallIsBounded` | include/papper/detail/core.h:424-459 | a log call is wait-free: it is over after at most as many of its own steps as its event has bytes, plus the reload and the commit, whatever the other threads do meanwhile |
| `Threads.AnyThreadCanRegister` | include/papper/detail/core.h:163-168 | a new thread can register at any time and at any address not in use, a freed one included |
| `Threads.AnySwapCanFail` | include/papper/detail/core.h:169-173 | the weak compare-and-swap can fail spuriously |
| `Threads.AnyEventCanBeLogged` | include/papper/detail/core.h:424-459 | a running thread that is not in a log call can log any event of any call site |
| `Threads.AnyThreadCanDie` | include/papper/detail/core.h:118-121 | or it can die |
| `Threads.AnyReadPositionCanBeSeen` | include/papper/detail/queue.h:44-58 | the producer's reload can see any read position not older than the last one it saw |
| `Threads.AnyWritePositionCanBeSeen` | include/papper/detail/queue.h:93-105 | the backend's reload can see any write position not older than the last one it saw |
| `Threads.FlagCanBeStale` | include/papper/detail/core.h:286 | the liveness load can still see a dead thread as alive |
| `Delivery.KindOf` | include/papper/detail/core.h:163-298 | every step of the logger affects at most one queue, and only as that queue's protocol allows |
| `Delivery.AcceptedAreEvents` | include/papper/detail/core.h:424-459 | in every run each committed message is the encoding of a well-typed event |
| `Delivery.Delivered` | include/papper/detail/core.h:231-264 | end to end: in every run the output is the lines of the processed events in processing order; for each thread these are exactly the images, in order, of a prefix of the events its queue accepted, minus those below the minimum level when processed |
| `Delivery.LinesPerThread` | include/papper/detail/core.h:242-261 | the output restricted to a thread is the images of that thread's entries, so the output is an interleaving of the per-thread sequences |
| `Delivery.OneEventAtATime` | include/papper/detail/core.h:231-264 | in every run each step leaves log and output alone, or takes the next accepted event of one thread into the log with the level and the formatter in force at that moment, and adds its rendering to the output if and only if the level of its call site is not below the minimum |
| `Delivery.LevelCanBeSet` | include/papper/detail/core.h:187-190 | the level can be set to anything at any time, and the formatter between two passes |
| `Delivery.LevelIsKept` | include/papper/detail/core.h:187-190 | nothing but these steps changes level or formatter, and they change nothing else |
| `Delivery.ProcessingNeverFails` | include/papper/detail/core.h:231-240 | in every reachable state a completely copied event decodes, to the next accepted event and with its exact size |
| `Retirement.RetirementGuarantee` | include/papper/detail/core.h:278-292 | for every deleted context: everything up to the publication seen by the last emptiness load was processed, exactly the events behind it are lost, all committed before the liveness load; nothing is lost if the thread was dead at a fresh emptiness load |
| `Retirement.ReloadsAreRecorded` | include/papper/detail/core.h:278-286 | the record this speaks of is made by every reload of the write position, of the publication it observed, and by nothing else |
| `Retirement.LivenessIsRecorded` | include/papper/detail/core.h:286 | how much was committed is recorded by the liveness load and by nothing else |
| `Retirement.OnlyDeadThreadsAreDeleted` | include/papper/detail/core.h:118-121 | a context is deleted only after its thread has been killed |
| `LostEvent.EventCanBeLost` | include/papper/detail/core.h:278-292 | every run that comes to a state in which the queue of an idle, running thread looked empty and the liveness load is next, wherever its context is in the list, can go on so that any event that fits the space really free is accepted and deleted unprocessed, with whatever the emptiness load had not seen |
| `LostEvent.SomeRunLosesAnEvent` | include/papper/detail/core.h:286-292 | a run from the initial state, in which every load of a write position sees the newest one, that loses an event |
| `BoundedWait.PassVisitsEachOnce` | include/papper/detail/core.h:268-298 | a pass visits exactly the contexts present at its head load, each once and in list order, whatever is pushed, removed or reallocated meanwhile |
| `BoundedWait.EventWaitsAtMost` | include/papper/detail/core.h:268-298 | with loads that see the newest publications, an event behind k unread ones is read within k + 1 passes, whatever other threads do |
| `Progress.BackendNeverStuck` | include/papper/detail/core.h:194-298 | in every state of every run the backend has a step it can take, with loads that see the newest values: no missing node, no undecodable event, no index out of range |
| `Progress.PassMakesProgress` | include/papper/detail/core.h:268-298 | no pass goes on for ever: nodes still to visit, stage at the current node and bytes to copy or nodes to walk fall lexicographically with every step of the backend, and no step of any other thread changes them |
| `Progress.PassCanEnd` | include/papper/detail/core.h:268-298 | from every state of every run the backend can finish its pass by its own steps, with loads that see the newest values |
| `Shutdown.ThreadDrains` | include/papper/detail/core.h:361-367 | in every run, once all threads are dead, none registers and loads are fresh, a thread with u unread events loses exactly one of them in each of the next u passes and its context in the pass after them |
| `Shutdown.ListEmptyAfterLongest` | include/papper/detail/core.h:361-367 | hence between passes the list is empty if and only if at least (longest queue + 1) passes are over |
| `Shutdown.AllProcessedWhenEmpty` | include/papper/detail/core.h:359-367 | and by then the processed events of each thread are exactly the events its queue ever accepted, in order |
| `Shutdown.DrainCanFinish` | include/papper/detail/core.h:359-367 | every run in which all threads are dead can be continued by the backend alone, to an empty list after exactly (longest queue + 1) passes |
| `Drain.Backend.RegisterThread` | include/papper/detail/core.h:163-174 | the context becomes the first of the list, with an empty queue |
| `Drain.Backend.Search` | include/papper/detail/core.h:209-220 | finds the node with its predecessor if and only if it is in the list |
| `Drain.Backend.RemoveAndDeleteNode` | include/papper/detail/core.h:194-227 | takes exactly the given node out of the list and deletes it with its context, and changes nothing for null and unknown nodes |
| `Drain.Backend.PollNode` | include/papper/detail/core.h:278-292 | processes the oldest event of the node's queue and keeps every context, or, if the queue is empty, keeps everything for a live thread and removes exactly this context for a dead one |
| `Drain.Backend.PollThreads` | include/papper/detail/core.h:268-298 | one event of every non-empty queue is processed in list order; a context stays exactly if its queue was not empty or its thread is alive, those that stay keep their order, exactly the queues of the removed ones are gone, and the result tells whether there was an event |
| `Drain.SurvivorsLaw` | include/papper/detail/core.h:286-292 | the contexts a pass keeps are those with an event left or a live thread, in their order |
| `Drain.FirstsLaw` | include/papper/detail/core.h:274-285 | the events a pass processes are the first ones of the non-empty queues, in list order |
| `Drain.Backend.DrainAll` | include/papper/detail/core.h:361-367 | with all threads dead the loop ends after exactly (longest queue + 1) passes with an empty list, and every remaining event has been processed, in order |
| `Drain.PassDecreases` | include/papper/detail/core.h:361-367 | each pass decreases unread events plus contexts by exactly the number of contexts in the list |
| `Drain.FirstsOfThread` | include/papper/detail/core.h:274-285 | a pass processes exactly the oldest event of each of its contexts |
| `Digits.PaddedValue` | include/papper/detail/pattern.h:190-195 | zero-padding does not change the number a text denotes |
| `Digits.PaddedWidth` | include/papper/detail/pattern.h:190-195 | a number that fits is padded to exactly the width |
| `Pattern.ParserDecidesGrammar` | include/papper/detail/pattern.h:204-318 | the parser returns these items and this error exactly when the pattern starts with these items and then ends, or goes on with something that is no item for this reason |
| `Pattern.NoErrorExactlyForPatterns` | include/papper/detail/pattern.h:204-318 | no error exactly for sequences of literals, doubled braces and known fields in valid combinations, at most the maximum in number |
| `Pattern.ReadingIsUnique` | include/papper/detail/pattern.h:204-318 | the grammar is unambiguous and a pattern has at most one leftmost error |
| `Pattern.BadFieldFails` | include/papper/detail/pattern.h:241-287 | each complaint about a field is made exactly when it is the first that applies |
| `Pattern.FmtFitsPattern` | include/papper/detail/pattern.h:173-202 | the generated format string is never longer than the pattern, also when parsing stops at an error |
| `Pattern.PlaceholdersMatchArguments` | include/papper/detail/pattern.h:173-202 | the format string has as many placeholders as the recorded specifications have arguments |
| `PatternLaws.FieldOfName` | include/papper/detail/pattern.h:60-85 | each of the eight names means its field and no other text means any |
| `PatternLaws.SpecOfName` | include/papper/detail/pattern.h:93-121 | each of the six specifications means its format and no other text means any |
| `PatternLaws.NamedField` | include/papper/detail/pattern.h:241-293 | the parser on any one name in braces: the field the name means, or that the name is unknown or there is no room |
| `PatternLaws.NamedFieldWithSpec` | include/papper/detail/pattern.h:117-293 | the parser on any name and specification in braces: the first complaint that applies, or the field and the format the two mean |
| `PatternLaws.OpenWithoutClose` | include/papper/detail/pattern.h:231-242 | a brace that is never closed is that error, whatever stands behind it |
| `PatternLaws.NothingBetween` | include/papper/detail/pattern.h:247-251 | nothing between braces is an empty name |
| `PatternLaws.CloseWithoutOpen` | include/papper/detail/pattern.h:299-311 | a single closing brace is that error |
| `PatternLaws.ReadInTurn` | include/papper/detail/pattern.h:204-318 | what follows a pattern without an error is read as it is read alone, with the room that is left, so the error of the whole is that of the first part that has one |
| `PatternParser.NameToEnum` | include/papper/detail/pattern.h:60-121 | the loop over a name table finds the first entry with the name |
| `PatternParser.FindClosingBrace` | include/papper/detail/pattern.h:232-237 | the loop finds the first closing brace from a position on |
| `PatternParser.ParsedPattern.PushAll` | include/papper/detail/pattern.h:198-201 | appends the text, and fails exactly if it does not fit the array |
| `PatternParser.ParsedPattern.ExpandSpec` | include/papper/detail/pattern.h:173-202 | appends the expansion of the specification |
| `PatternParser.ReadFieldInto` | include/papper/detail/pattern.h:241-293 | records and expands a field, or reports the first complaint and leaves the arrays as they are |
| `PatternParser.ParsePattern` | include/papper/detail/pattern.h:204-318 | the imperative parser fills its arrays with what the items before the first error compile to and reports that error; it overruns the format array exactly if the generated string is too long, which is never so for a pattern of at most the array's length |
| `TimeText.TimeCache.ProcessTimeArg` | include/papper/detail/pattern.h:365-402 | refreshes the cached text for a new second and expands with it; the text is the right one if and only if the cache was not initial or the second is not -1 |
| `TimeText.CacheAgrees` | include/papper/detail/pattern.h:369-381 | over a sequence of calls the cache gives the uncached texts if and only if the first call is not for second -1 |
| `TimeText.CacheAgreesFromTheEpochOn` | include/papper/detail/pattern.h:369-381 | over every sequence of times from the epoch on the cache gives the uncached texts |
| `TimeText.ClockTextReads` | include/papper/detail/pattern.h:375-381 | the clock text is HH:MM:SS with hours below 24 and minutes and seconds below 60, and denotes exactly the second of the day |
| `TimeText.MicrosecondTextReadsBack` | include/papper/detail/pattern.h:387-394 | the HMSf text reads back as the time of day truncated to microseconds if and only if the time is at or after the epoch or a whole second |
| `TimeText.NanosecondTextReadsBack` | include/papper/detail/pattern.h:395-401 | the HMSF text reads back as the exact time of day for exactly the same times |
| `TimeText.SubSecondIsExact` | include/papper/detail/pattern.h:389-399 | the part below a second is exact for these times and wraps to a huge number for all others |
| `Formatter.FileNameIsLastPart` | include/papper/detail/pattern.h:427-431 | the file name is the longest end of the path without a separator |
| `Formatter.FormatFieldItem` | include/papper/detail/pattern.h:406-432 | the placeholders of a field consume exactly its arguments and give its text |
| `Formatter.CompiledPatternMeansPattern` | include/papper/detail/pattern.h:476-490 | for every sequence of items, every record and whatever HH:MM:SS texts the caches hold, fmt with the generated string and the expanded arguments neither fails nor runs out of arguments nor leaves any, and gives the direct rendering; braces in values are not interpreted |
| `Formatter.PatternTextMeaning` | include/papper/detail/pattern.h:173-318 | the same from the pattern text on: the text parses to its only reading and formats as that reading renders |
| `PatternLaws.PrintsInTurn` | include/papper/detail/pattern.h:476-490 | two patterns one behind the other print what they print alone, one behind the other |
| `PatternLaws.CharPrints` | include/papper/detail/pattern.h:313-314 | any other character prints itself |
| `PatternLaws.DoubledBracePrints` | include/papper/detail/pattern.h:219-308 | doubled braces print one |
| `PatternLaws.MessagePrints` | include/papper/detail/pattern.h:343-363 | `{message}` prints the message |
| `PatternLaws.ShortMessagePrints` | include/papper/detail/pattern.h:343-363 | so does `{m}` |
| `PatternLaws.ThreadPrints` | include/papper/detail/pattern.h:343-363 | `{thread}` prints the thread name |
| `PatternLaws.FunctionPrints` | include/papper/detail/pattern.h:343-363 | `{function}` prints the function name |
| `PatternLaws.FilePrints` | include/papper/detail/pattern.h:343-363 | `{file}` prints the path |
| `PatternLaws.LinePrints` | include/papper/detail/pattern.h:343-363 | `{line}` prints the line number in decimal |
| `PatternLaws.LevelPrints` | include/papper/detail/pattern.h:322-337 | `{level}` prints the name of the level, each of the five written out |
| `PatternLaws.TimePrints` | include/papper/detail/pattern.h:343-363 | `{time}` prints the time point as fmt does |
| `PatternLaws.FilePathPrints` | include/papper/detail/pattern.h:408-412 | `{file:path}` prints the path |
| `PatternLaws.FileNamePrints` | include/papper/detail/pattern.h:425-431 | `{file:nameonly}` prints the path behind its last slash or backslash |
| `PatternLaws.ClockPrints` | include/papper/detail/pattern.h:365-386 | `{time:HMS}` prints the clock text of the second the time lies in |
| `PatternLaws.MicrosecondsPrint` | include/papper/detail/pattern.h:387-394 | `{time:HMSf}` prints the clock text, a point and, for times from the epoch on and whole seconds, the microseconds below the second in exactly six digits; for the others the number is too large |
| `PatternLaws.NanosecondsPrint` | include/papper/detail/pattern.h:395-401 | `{time:HMSF}` likewise with the nanoseconds in nine digits |
| `Formatter.TimeCaches.ExpandArg` | include/papper/detail/pattern.h:406-432 | expansion through the caches gives the arguments of the field with the texts the caches hold for that time, and leaves these texts the same for the rest of the call |
| `Formatter.TimeCaches.TextsAreTrue` | include/papper/detail/pattern.h:369-381 | these texts are the right ones exactly if the second is not -1 or no cache is empty |
| `Formatter.PatternFormatter.constructor` | include/papper/detail/pattern.h:451-474 | a pattern that passes the static assertions yields a formatter for its items |
| `Formatter.PatternFormatter.FormatImpl` | include/papper/detail/pattern.h:476-490 | every record comes out as the pattern's rendering with the texts of the caches, so as its direct rendering for every second but -1 |
| `UtcOffset.BrokenDownIsExact` | include/papper/detail/time.h:318-320 | a broken-down date denotes the time it was made from |
| `UtcOffset.YearStartInClosedForm` | include/papper/detail/time.h:318-320 | the calendar is the Gregorian one: 365 days for each year before, one more for each fourth but not hundredth and again each four hundredth, and 1970 starts on day 0 |
| `UtcOffset.DateIsUnique` | include/papper/detail/time.h:318-320 | and it is the only valid date that does, over all Gregorian years |
| `UtcOffset.OffsetIsExact` | include/papper/detail/time.h:322-332 | the formula returns the true offset if and only if both dates lie in the same year or on adjacent days |
| `UtcOffset.EveryRealOffsetIsExact` | include/papper/detail/time.h:316-333 | hence for every time and every offset below a day, across year ends too, and the result fits 64 bits |
| `UtcOffset.Clock.RecalculateUtcOffset` | include/papper/detail/time.h:316-333 | sets the field to the true offset for every offset below a day, and in general exactly under that condition |
| `Handover.StepConserves` | include/papper/detail/sink.h:13-73 | every step, of any queueing thread, the backend or the destructor, keeps every resource in some place, none twice |
| `Handover.InExactlyOnePlace` | include/papper/detail/sink.h:13-73 | in every reachable state a resource handed over once is in exactly one of pending, taken, in use, displaced and released |
| `Handover.NeverUsedAfterRelease` | include/papper/detail/sink.h:44-60 | a resource handed over once is never used after it has been released |
| `Handover.DestructorReleasesAll` | include/papper/detail/sink.h:13-23 | at the end of the destructor every resource has been closed exactly as often as it was handed over, the standard streams never |
| `Handover.NeverClosedTooOften` | include/papper/detail/sink.h:75-82 | at no time is anything closed more often than it was handed over, nor a standard stream at all |
| `Handover.HandedIsQueued` | include/papper/detail/pattern.h:505-525 | what counts as handed over is the initial resource and exactly what was queued |
| `Handover.SomeRunUsesAClosedResource` | include/papper/detail/sink.h:26-73 | why a resource must be handed over only once: queued twice, it is closed and then used |
| `Handover.Handler.QueueNew` | include/papper/detail/pattern.h:524-532 | ignores null; anything else becomes pending, and exactly what was pending before is closed unless it is exempt; what is in use stays |
| `Handover.Handler.PollForPendingSwitch` | include/papper/detail/pattern.h:534-543 | with a resource pending, installs it and closes exactly the one in use before unless it is exempt; else changes nothing |
| `Handover.Handler.Destroy` | include/papper/detail/pattern.h:509-517 | closes the pending and the current resource unless they are exempt, and nothing else |

## Left out

Assumptions of the step systems:

- The registry head, the next pointers and the minimum level are read and written sequentially consistently; only queue positions and the liveness flag may be read stale. In particular the relaxed load after a failed compare-and-swap is taken as current.
- Words are stored in little-endian order; a scalar's own bytes are its object representation, whatever that is.
- Data races and the C++ memory model below these steps; a byte copied after an acquire load is the byte stored before the matching release store.
- Logging and registering after the backend is destroyed, and the lifetime of the singleton and of thread-local objects. A thread is killed only between two log calls.
- Zero-size reservations, and reads that do not end on a message boundary: every message is at least one event header long.
- Capacities whose double does not fit 64 bits, and events whose encoded size does not fit 64 bits.

Parts of the program that are parameters or absent:

- What fmt does with user messages and with a whole time point for the empty specification, which are functions given to the model; of fmt itself only the replacement fields that compiled patterns use are interpreted.
- The conversion of time stamp counter values to system time in floating point, the measurement and detection of the counter, and the schedule of clock synchronisation. The converted timestamp is an input.
- Files: opening, buffering modes, flushing and errors. A sink is the sequence of lines written to it, and in `Handover` a resource with a count of its closings.
- The backoff of the idle backend, thread names, macros and source locations; a call site is its level and its argument types.
- Leap seconds and changes of the offset between the two calls of the time functions.
- `Drain.Backend`: is the sequential form, in which every load sees the newest value and no other thread takes part, as at shutdown; interference is the subject of `Registry`, `Delivery`, `Retirement`, `BoundedWait` and `Shutdown`. Its queues are sequences of messages; the bytes are the subject of `Ring` and `EventIO`.
- `Ring.Queue`: is the queue used sequentially; its two-thread form is `Spsc`.
- `EventIO.EncodeArgs` and `EventIO.DecodeArgs`: the fold expressions over argument packs are recursive methods.
- `Formatter.PatternFormatter.FormatImpl`: expands the fields in index order, while the order is unspecified in C++; the result does not depend on it.
- `PatternParser.ParsePattern`: the body of the loop is split into methods; `find_first_of` is the function `Fmt.IndexOf`.
- A poll that loads the liveness flag before it looks into the queue is not modelled; `Retirement.RetirementGuarantee` says what a thread that was already dead at the emptiness load can rely on.
- The `UNKNOWN` name of levels outside the enumeration.
