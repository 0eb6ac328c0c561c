# Verified models of Flexisip

Flexisip is a SIP proxy. This project models seven of its components in Dafny 4.11 and proves what they are for.
`dafny verify dfyconfig.toml` checks the whole project.

| component | files | what is proved |
|---|---|---|
| JSON text (sections 2 to 7 of RFC 8259) | `JsonText`, `JsonRoundTrip`, `JsonGrammar`, `JsonAcceptance`, `JsonLayout`, `JsonParser`, `JsonPrinter`, `JsonList` | print and parse are inverse at every depth and in both formats; the parser reads exactly the texts of a grammar and reads them as what they mean; the layout of the print; the buffers that are measured first are large enough; child lists stay lists |
| reentrant mutex | `ReentrantMutex` | mutual exclusion, nesting, no deadlock, refinement of an abstract lock on which every call takes effect once and in order, for any number of threads |
| media relay | `MediaChannel`, `PollTable`, `RelayThread`, `RelayRounds`, `EarlyMedia`, `EarlyMediaEvents`, `EarlyMediaAnswers`, `EarlyMediaCap`, `RelayedCalls` | exactly where packets go over histories; the poll table under every interleaving of two threads, with every socket in it and every session examined; one sender of early media; the cap on early media; the winner of a fork |
| module chain | `ModuleChain` | the greedy placement is a least fixpoint, does not depend on registration order, and finds an order whenever there is one |
| configuration file | `LpConfigText`, `LpConfigLines`, `ConfigDump`, `ConfigRoundTrip`, `LpConfigFile` | exactly what every line and every file means; what is dumped reads back, and exactly when it does not |
| fork groups and contact records | `ForkGroups`, `RecordSerializer` | grouping is a partition by last route, and the destinations call everybody once; the record text round trip holds exactly on separator-free records |
| event pipeline | `EventPipeline` | no module sees an event twice and none is skipped, whatever modules do |

`Collections` holds what several of them share.

Each component is written in two layers. Functions on values say what an operation computes, or what one atomic step
of a protocol does; lemmas prove the properties about them. Methods and classes follow the loops, buffers and fields of
the program and are proved to compute those functions. The mutex and the relay threads are state machines whose runs
are schedules of steps.

Six statements that one might expect are false of the code. For each of them lemmas give an input or a failing family,
and the exact condition:

- A surrogate pair decodes to its code point (`SurrogateExample`, `CombineExact`).
- Hints that name unregistered modules are ignored, as a comment in the code says (`UnknownHintsAlone`,
  `IgnoredExactly`, `HintsIgnoredExactly`).
- A module comes after all modules that it names (`RepeatedName`, `AllFirstExactly`, `ChainFirstExactly`).
- A destination is not replaced while packets from it arrive (`EarlierPacketExample`, `EarlierPacketsDoNotCount`,
  `StrongerReading`).
- With early-media-relay-single one branch sends, and the cap on early media holds (`GapExample`, `UnfairBreaks`,
  `AnswerExactly`, `EventsExactly`; `CapFails`, `CapExactly`).
- A dumped configuration reads back: values with outer blanks change, and a value that was set by an old name is lost
  when entries at their default are commented out (`OldNameExample`, `DumpReload`).

## Model

| member | source | states |
|---|---|---|
| `JsonRoundTrip.PrintParse` | src/cJSON.c:257-302 | For every tree of nulls, booleans, whole 32-bit numbers, NUL-free strings, arrays and objects, the formatted and the unformatted print both parse to that very tree, with nothing left over. |
| `JsonRoundTrip.PrintInjective` | src/cJSON.c:268-302 | Two trees whose prints agree, in whichever formats, are the same tree. |
| `JsonRoundTrip.ValueRoundTrip` | src/cJSON.c:272-302 | The round trip at every depth, in both formats and in front of any following text; only a number asks that the text does not continue it. |
| `JsonRoundTrip.NumberRoundTrip` | src/cJSON.c:98-141 | Every whole 32-bit number, the smallest included, is read back from its decimal print in front of any text that does not continue it. |
| `JsonRoundTrip.StringRoundTrip` | src/cJSON.c:145-241 | Escaping and unescaping are inverse on every NUL-free string, in front of any text. |
| `JsonRoundTrip.ArrayRoundTrip` | src/cJSON.c:305-381 | A printed array, with the separators of either format, parses to the same items in order. |
| `JsonRoundTrip.ObjectRoundTrip` | src/cJSON.c:384-476 | A printed object, with the indentation of its depth, parses to the same names and values in order. |
| `JsonRoundTrip.CombineExact` | src/cJSON.c:173-180 | A surrogate pair decodes to its code point if and only if bit 16 of the payload is clear; the bitwise or loses the carry otherwise. |
| `JsonRoundTrip.PairRead` | src/cJSON.c:169-194 | Two escapes that are a surrogate pair are read as the UTF-8 encoding of the code point that the halves are put together to. |
| `JsonRoundTrip.SurrogateExample` | src/cJSON.c:169-194 | The escapes of U+20000 are read as U+10000, so the failing family is not empty. |
| `JsonRoundTrip.SurrogateText` | src/cJSON.c:169-194 | The same at the text with the halves d840 and dc00. |
| `JsonAcceptance.ReadsExactly` | src/cJSON.c:98-416 | For every text, value and rest: the parser returns that value and stops before that rest if and only if the text is, after any blanks, one of the texts of the value that the grammar gives, followed by the rest. |
| `JsonGrammar.ReadsEveryText` | src/cJSON.c:98-416 | Every text of a value, with any blanks around its parts, any escapes, hexadecimal digits in either case and a zero in front of numbers, is read as that value up to where it ends. |
| `JsonAcceptance.ValueOf` | src/cJSON.c:272-284 | Whatever the parser accepts is a text of the grammar, and its parts are found again. |
| `JsonGrammar.Utf8Decodes` | src/cJSON.c:182-193 | What is written for a code point is its UTF-8 encoding: a decoder by lead byte ranges, continuation bytes and shortest form, as in section 3 of RFC 3629, reads it back in front of any text. |
| `JsonGrammar.EscapeDecodes` | src/cJSON.c:168-193 | The escape of any code unit that is neither zero nor half a surrogate pair, its digits in either case, is read as a string that decodes to that code unit and nothing else. |
| `JsonGrammar.PiecesRead` | src/cJSON.c:145-205 | A string of plain characters, short escapes, code units and pairs is read as what they stand for, in order; zero and half a pair stand for nothing; the end of the text closes a string. |
| `JsonGrammar.NumberReads` | src/cJSON.c:98-118 | Sign, an optional zero and digits are read as the number that the digits denote in base ten, up to the first character that does not carry it on. |
| `JsonLayout.ObjectLayout` | src/cJSON.c:420-476 | A printed object is its members on lines of their own, indented one deeper than the object and separated by commas, the closing brace on a line indented like the object; unformatted there are no blanks. |
| `JsonLayout.ArrayLayout` | src/cJSON.c:333-381 | A printed array is its items on one line, separated by a comma and, when formatted, a blank. |
| `JsonLayout.StringLayout` | src/cJSON.c:208-241 | A printed string is its characters in order between quotes: seven of them by a short escape, other control characters by four digits, all others as they are. |
| `JsonLayout.WordLayout` | src/cJSON.c:121-141 | A printed number has a sign exactly when it is negative and no leading zero; null, true and false are words. |
| `JsonParser.ParseText` | src/cJSON.c:257-265 | The parser over positions in the text returns the value and the end, the error position, or undefined behaviour, exactly as the grammar specifies; it never reads past the terminator and it terminates. |
| `JsonParser.ParseValueAt` | src/cJSON.c:272-284 | Value dispatch agrees with the specified grammar from every position. |
| `JsonParser.ParseNumberAt` | src/cJSON.c:98-118 | The digit loop accumulates the specified whole number and stops where it ends. |
| `JsonParser.ParseStringAt` | src/cJSON.c:145-205 | Measuring and then writing yields the unescaped text of the specification and the position after the closing quote. |
| `JsonParser.MeasureString` | src/cJSON.c:150 | The first pass counts what the specification of the measure says, skipping the character after a backslash. |
| `JsonParser.MeasureCovers` | src/cJSON.c:150-200 | On every text whose unescaping is defined, the count of the first pass is at least the length of what the second pass writes. |
| `JsonParser.WriteString` | src/cJSON.c:155-200 | The second pass stays inside a buffer of the measured length plus one and writes the unescaped text. |
| `JsonParser.WriteUtf8` | src/cJSON.c:182-193 | The bytes written last to first are the UTF-8 encoding of the code point, and what was written before is untouched. |
| `JsonParser.ParseItemsAt` | src/cJSON.c:314-329 | The item loop of an array agrees with the specified list grammar, errors included. |
| `JsonParser.ParseMembersAt` | src/cJSON.c:393-416 | The member loop of an object agrees with the specified list grammar, errors included. |
| `JsonPrinter.PrintStringBuffer` | src/cJSON.c:208-241 | The measured length is exact: quotes, escaped text and terminator fill the buffer to the last character. |
| `JsonPrinter.MeasureEscaped` | src/cJSON.c:213 | The measuring loop returns the length of the escaped text. |
| `JsonPrinter.PrintNumberBuffer` | src/cJSON.c:121-141 | Twenty-one characters hold the decimal print of every whole 32-bit number and its terminator. |
| `JsonPrinter.ItemsFit` | src/cJSON.c:333-381 | The length that is summed up for an array bounds the joined items and separators, for any entries and both formats. |
| `JsonPrinter.ComposeArray` | src/cJSON.c:351-380 | The array text is written inside the measured buffer, character for character, followed by a terminator. |
| `JsonPrinter.MembersFit` | src/cJSON.c:420-476 | The length that is summed up for an object bounds the joined members, for any names, entries and depth and both formats. |
| `JsonPrinter.ComposeObject` | src/cJSON.c:445-475 | The object text is written inside the measured buffer, character for character, followed by a terminator. |
| `JsonPrinter.PrintValueBuffer` | src/cJSON.c:287-302 | At every depth and in both formats the returned buffer holds the specified print of the tree. |
| `JsonList.ListUnique` | src/cJSON.c:479-484 | The links of a well-formed child list determine the sequence of children: next and prev are inverse and there is no cycle. |
| `JsonList.GetArraySize` | src/cJSON.c:479 | The walk counts the children. |
| `JsonList.GetArrayItem` | src/cJSON.c:480 | The walk ends at the child of the position, at the first for a negative one, and at null past the end. |
| `JsonList.AddItemToArray` | src/cJSON.c:484-489 | The list stays well formed and becomes the old one with the item appended. |
| `JsonList.DetachItemFromArray` | src/cJSON.c:494-501 | The child of the position is unlinked and returned, and the list stays well formed and becomes the old one without it; past the end nothing changes. |
| `JsonList.ReplaceItemInArray` | src/cJSON.c:507-509 | The list stays well formed and becomes the old one with the item in the place of the position, and the replaced child is no longer linked, so that deleting it leaves the list alone; past the end nothing changes. |
| `JsonList.AddThenDetach` | src/cJSON.c:484-501 | Detaching what was just appended restores the list and frees the item of links. |
| `ReentrantMutex.Reachable` | src/common.cc:77-131 | The invariant that ties the two mutexes, the owner, the count and every thread's position together holds in every state of every interleaving of any number of threads. |
| `ReentrantMutex.StepKeepsInv` | src/common.cc:77-131 | Every atomic step of lock and unlock keeps that invariant. |
| `ReentrantMutex.MutualExclusion` | src/common.cc:77-131 | At most one thread has completed locks outstanding; it owns mMutex, mCount is its nesting depth, and its nested locks never go near mMutex. |
| `ReentrantMutex.ReleaseExactlyAtZero` | src/common.cc:109-122 | mMutex is released exactly when the depth of its owner has returned to zero. |
| `ReentrantMutex.ForeignUnlock` | src/common.cc:109-126 | An unlock by a thread that is not the owner changes neither owner, count, depth nor mMutex. |
| `ReentrantMutex.NeverHoldAndWait` | src/common.cc:79-94 | A thread that waits for mMutex does not hold mInternalMutex. |
| `ReentrantMutex.DeadlockFree` | src/common.cc:77-131 | Whenever a thread is inside lock or unlock, some such thread can step, or all of them wait for an owner that is outside both. |
| `ReentrantMutex.StepRefines` | src/common.cc:77-131 | Seen by its callers, a step is either nothing or one call on an abstract lock with an owner and a depth, which allows it. |
| `ReentrantMutex.RunRefines` | src/common.cc:77-131 | Every interleaving behaves like its calls made one at a time on the abstract lock. |
| `ReentrantMutex.CallsTakeEffect` | src/common.cc:77-131 | In every run the calls that a thread has begun are its calls that took effect on the abstract lock, each once and in order, and then the one it is in if that has not taken effect yet. |
| `ReentrantMutex.DepthIsOwn` | src/common.cc:77-131 | In every run a thread's depth is what its own calls that took effect make it, whatever the other threads do. |
| `ReentrantMutex.HeldExactly` | src/common.cc:77-131 | A thread that is outside holds mMutex if and only if its locks outnumber the unlocks that undo them. |
| `ReentrantMutex.FreeExactly` | src/common.cc:77-131 | When all threads are outside, mMutex is free if and only if every thread has undone its locks; mThread names its holder and mInternalMutex is free. |
| `ReentrantMutex.StepsAdvance` | src/common.cc:77-131 | Every step inside lock or unlock brings the call nearer to its end and moves nobody else. |
| `MediaChannel.RelayChannel.SetRemoteAddr` | src/mediarelay.cc:112-168 | Ports and direction are taken over; a usable address opens the channel and replaces the destinations unless one was learned; an unusable one closes it and forgets what was learned. |
| `MediaChannel.RelayChannel.Recv` | src/mediarelay.cc:193-240 | A packet refreshes or, after the timeout, replaces the destination of its component, and is handed on exactly when the channel is open and may send and receive. |
| `MediaChannel.RelayChannel.Send` | src/mediarelay.cc:242-262 | A packet goes where the specified target of the channel is, or nowhere; what that target is over histories is stated in the next two rows. |
| `MediaChannel.SendsExactly` | src/mediarelay.cc:112-262 | Over every history, a packet handed to the channel is sent to an address if and only if a usable SDP address came and none was declined or refused since, the port given last is positive, the direction given last is not inactive, fewer than fifty packets were refused since the other side was heard of, and that address stands. |
| `MediaChannel.DestinationExactly` | src/mediarelay.cc:112-223 | Over every history, the address that stands is the one that the last deciding event made it: SDP that named it while no address was taught, or a packet from it after more than five quiet seconds. |
| `MediaChannel.RelaysExactly` | src/mediarelay.cc:225-240 | Over every history, a packet that arrives is handed on if and only if a usable SDP address came and none was declined or refused since, and the direction given last is both ways. |
| `MediaChannel.SendsWhereTold` | src/mediarelay.cc:112-262 | Over every history, whatever is sent goes to an address that SDP or a packet named and that has not been declined or refused since, and nothing is sent before a usable SDP address or after it was declined or refused. |
| `MediaChannel.OpenExactly` | src/mediarelay.cc:112-168 | A channel is open if and only if a usable SDP address came and none has been declined or refused since. |
| `MediaChannel.LastUseCovers` | src/mediarelay.cc:193-223 | Over every history under a clock that does not go back, the last use time of a component is not before any packet heard from its destination. |
| `MediaChannel.LastUseIsHeard` | src/mediarelay.cc:193-223 | And it is the time of one of those packets, or zero. |
| `MediaChannel.SwitchesExactly` | src/mediarelay.cc:193-223 | Over every history, a packet replaces the destination of its component if and only if it comes from elsewhere, the clock shows more than five seconds, and no packet that was heard is five seconds old or less. |
| `MediaChannel.EarlierPacketsDoNotCount` | src/mediarelay.cc:112-223 | The stronger reading, in which packets from the current destination count even if they came before it was the destination, fails for this whole family of histories. |
| `MediaChannel.StrongerReading` | src/mediarelay.cc:112-223 | After a history that stronger reading holds for every packet that may come next if and only if every packet of the component from the current destination is no later than its last use time, or outdated by a packet more than five seconds younger. |
| `MediaChannel.EarlierPacketExample` | src/mediarelay.cc:112-223 | A history in which this happens. |
| `MediaChannel.LearnedExactly` | src/mediarelay.cc:112-223 | A channel treats its address as learned if and only if some packet taught it one and no declined or refused stream has come since. |
| `MediaChannel.SdpDoesNotOverride` | src/mediarelay.cc:112-168 | While an address is learned, a usable SDP address never changes where packets go. |
| `PollTable.PollFd.AddFd` | src/mediarelay.cc:45-54 | The entry is appended, the table doubles when it is full and keeps its contents, and the index is the place of the entry. |
| `PollTable.PollFd.GetREvents` | src/mediarelay.cc:56-61 | Reading throws exactly past the allocated size, and gives the events of the entry inside the filled part. |
| `PollTable.RelaySession.FillChannelIn` | src/mediarelay.cc:177-184 | The two sockets of a channel take the next two slots and the channel remembers the first, or nothing is added and it has no place. |
| `PollTable.RelaySession.FillPollFd` | src/mediarelay.cc:339-350 | The front channel and the winner, or else all branches, take their slots in order. |
| `PollTable.RelaySession.CheckChannel` | src/mediarelay.cc:186-191 | On any memory of the table: a channel without a place is not ready, a place outside the table throws, and otherwise the slot there decides. |
| `PollTable.RelaySession.CheckPollFd` | src/mediarelay.cc:352-367 | On any memory of the table, the lookups are made component by component, front channel first and then the winner or all branches, packets are read from those that are ready, and the first lookup outside the table throws. |
| `PollTable.RelaySession.GetBackChannel` | src/mediarelay.cc:275-288 | For a party other than the caller: the winner, or else the branch of the transaction, if there is one. |
| `PollTable.RelaySession.CreateBranch` | src/mediarelay.cc:290-300 | The branch takes its place among the others, unless the transaction has one already, which then stays. |
| `PollTable.RelaySession.RemoveBranch` | src/mediarelay.cc:302-314 | The branch of the transaction goes, the others stay in order. |
| `PollTable.RelaySession.SetEstablished` | src/mediarelay.cc:327-337 | A known branch becomes the winner and all branches go; nothing changes if there is a winner or the branch is unknown. |
| `PollTable.RelaySession.Unuse` | src/mediarelay.cc:389-412 | The session is out of use and has no channels. |
| `PollTable.RelaySession.Transfer` | src/mediarelay.cc:441-462 | A packet from the caller goes to the winner, or else to each branch once and in order; a packet from anyone else goes to the caller. |
| `PollTable.FillSeats` | src/mediarelay.cc:177-184 | For every table, session and watched place: a fill keeps the channel there; if it has sockets, its index names a slot for its RTP socket and the next one is for its RTCP socket; if not, it has no place. |
| `PollTable.FillGood` | src/mediarelay.cc:339-350 | After a fill every watched channel with sockets has two slots of this round for them, and every other one has no place, whatever the table grew to. |
| `PollTable.BranchAdded` | src/mediarelay.cc:290-300 | A created branch is found under its transaction, unless that had one; every other transaction finds what it found. |
| `PollTable.BranchRemoved` | src/mediarelay.cc:302-314 | A removed branch is not found any more; every other transaction finds what it found. |
| `PollTable.BranchesServed` | src/mediarelay.cc:441-462 | While there is no winner, a packet of the caller goes to a channel if and only if some transaction finds it, and a packet of anyone else goes to the caller alone. |
| `PollTable.TransfersExactly` | src/mediarelay.cc:352-367 | A component of a channel is read if and only if the channel is watched and its slot has events. |
| `PollTable.ScanGood` | src/mediarelay.cc:352-367 | When channels are well placed no lookup throws, and what the memory behind the filled slots holds makes no difference. |
| `PollTable.SlotsDisjoint` | src/mediarelay.cc:177-184 | Two different channels never share a slot. |
| `RelayThread.Reachable` | src/mediarelay.cc:562-603 | In every interleaving of the relay thread with session creation, branch creation and removal, establishment and unuse, sessions that had their turn have well-placed channels and sessions out of use have none. |
| `RelayThread.SipKeepsInv` | src/mediarelay.cc:291-337 | Every step of the SIP thread keeps this, wherever the relay thread is. |
| `RelayThread.RelayKeepsInv` | src/mediarelay.cc:562-603 | Every step of the relay thread keeps this, table growth and session removal included. |
| `RelayThread.ReadsOwnSlots` | src/mediarelay.cc:352-367 | In every run, each slot that is looked at for a component was filled in this very round for that channel's own socket; no lookup is out of bounds or stale, and a new channel is not looked up. |
| `RelayThread.ReadsExactlyReported` | src/mediarelay.cc:562-603 | In every run, the components that are read are exactly those whose own slot poll reported in this round. |
| `RelayThread.NothingThrown` | src/mediarelay.cc:562-603 | In every run, examining a session throws nothing and reads what poll reported, whatever earlier rounds left in the table. |
| `RelayThread.PlacesApart` | src/mediarelay.cc:177-184 | In every run, the slots of the channels in two different places, of one session or of two, are apart. |
| `RelayThread.PlacesHoldDifferent` | src/mediarelay.cc:275-337 | In every run no two places (front, winner, or a branch, of any sessions) hold the same channel. |
| `RelayThread.FreshIdentity` | src/mediarelay.cc:291-300 | In every run, a new channel is different from all existing ones. |
| `RelayThread.FirstEstablishedWins` | src/mediarelay.cc:327-337 | The first establishment of a known branch makes it the winner. |
| `RelayThread.WinnerStays` | src/mediarelay.cc:275-337 | Once there is a winner, over every later run until unuse the back channel stays, every lookup for a party other than the caller gives it, and every packet read goes from the caller to the winner alone or from the winner to the caller alone. |
| `RelayRounds.SocketsPolled` | src/mediarelay.cc:562-603 | In every run, from the moment when the table is filled from a session until the round ends, every channel that it held then and still holds has the two slots of its own sockets, whatever the SIP thread does meanwhile, or has no sockets. |
| `RelayRounds.AllServed` | src/mediarelay.cc:568-577 | Between the start of a round and poll, the table is filled from every session of the list, but for those found out of use. |
| `RelayRounds.AllExamined` | src/mediarelay.cc:579-601 | When poll has reported something, every session of the list that is still in use at the end is examined before the next round, whatever is erased meanwhile. |
| `RelayRounds.ReadsWhatWasReported` | src/mediarelay.cc:562-603 | In every run, the components that are read from a session are exactly those for whose slots this round's poll reported something. |
| `RelayRounds.NoSocketTwice` | src/mediarelay.cc:352-367 | In every run, examining a session reads no socket twice. |
| `RelayRounds.RoundEnds` | src/mediarelay.cc:562-603 | Every step of the relay thread brings the end of the round nearer or begins the next one, and the SIP thread does not put it off. |
| `RelayRounds.ControlPolled` | src/mediarelay.cc:577 | In every run the last slot that is polled is that of the control pipe, which no channel has. |
| `RelayRounds.EveryBranchServed` | src/mediarelay.cc:441-462 | In every run, while a call has no winner, a packet of the caller goes to the channel of every branch, to each once, and to nobody else. |
| `RelayRounds.SessionCreated` | src/mediarelay.cc:512-525 | A created session is in use and in the list and has the caller's channel and no branches; other sessions stay as they are. |
| `RelayRounds.BranchCalls` | src/mediarelay.cc:290-337 | What creating, removing and establishing a branch change about what every transaction finds; the caller's channel and other sessions stay as they are. |
| `RelayRounds.SessionEnds` | src/mediarelay.cc:389-412 | After unuse nothing is left of the session in any run, and by the end of the next examination it is gone from the list. |
| `EarlyMedia.OneSender` | src/callcontext-mediarelay.cc:203-270 | With early-media-relay-single on, in every state of every run of offers, early answers and failures, with packets between any two of their writes, the back channels that may pass media on belong to the leading transaction, provided that every answer that begins is fair: if it reaches session 0, whoever else passes media on does so before the first missing session, and if not, its transaction has the lead or links no branch. |
| `EarlyMedia.PacketsComeFromLeader` | src/mediarelay.cc:193-240 | In every such run, a packet that is handed on to the caller, whenever it comes, is from the leading transaction. |
| `EarlyMedia.ProceedKeeps` | src/callcontext-mediarelay.cc:220-268 | Every single write of an offer, an answer or a failure keeps this, in the middle of taking the lead away too. |
| `EarlyMedia.OrderlyIsFair` | src/callcontext-mediarelay.cc:220-238 | Answers are fair when sessions form a prefix and the answer has its first line. |
| `EarlyMediaEvents.OthersKept` | src/callcontext-mediarelay.cc:84-140 | An offer adds a new closed branch of its transaction, with its number of targets and its local port, exactly on the accepted lines that have none, a failure removes exactly the branches of its transaction, and every other branch and the lead stay as they are. |
| `EarlyMediaEvents.ConnectsExactly` | src/callcontext-mediarelay.cc:237-270 | A line gives its branch the ports, and the branch may pass media on from then on if and only if the address is usable and there is no cap, or it has several targets, or fewer branches than the cap have a remote port; nothing else changes. |
| `EarlyMediaEvents.EventDone` | src/callcontext-mediarelay.cc:65-292 | The writes of an event, one after another, do what the event as a whole does. |
| `EarlyMediaEvents.Undisturbed` | src/callcontext-mediarelay.cc:65-292 | Every sequence of events is a run. |
| `EarlyMediaAnswers.AnswerExactly` | src/callcontext-mediarelay.cc:220-268 | From any call in which the senders are those of the leader, with any lines and any cap, they still are after an answer if and only if the answer was fair. |
| `EarlyMediaAnswers.EventsExactly` | src/callcontext-mediarelay.cc:203-292 | The senders are those of the leader after every event of a sequence if and only if every answer in it is fair. |
| `EarlyMediaAnswers.UnfairBreaks` | src/callcontext-mediarelay.cc:220-268 | Wherever a run begins an answer that is not fair, it can go on to a state in which a branch without the lead passes media on. |
| `EarlyMediaAnswers.TwoAnswers` | src/callcontext-mediarelay.cc:220-268 | When two branches answer in turn from a call in which nobody sends, one at most passes media on afterwards if and only if the second answer links no branch, or the first branch had the lead, the second answer reaches session 0, and the first was linked only in sessions before the first missing one. |
| `EarlyMediaAnswers.GapExample` | src/callcontext-mediarelay.cc:220-238 | From the initial call, an offer whose first line is declined and two answers: both branches pass media on. |
| `EarlyMediaCap.CapHolds` | src/callcontext-mediarelay.cc:244-258 | With early-media-relay-single off and a cap above zero, in every state of every run, packets included, each session has at most that many single-target branches with a remote port and a direction other than Inactive, and a packet of the caller is copied to no more single targets. |
| `EarlyMediaCap.CapExactly` | src/callcontext-mediarelay.cc:227-258 | With either setting, a run stays within the cap if and only if no step takes the lead away in a session that is full and whose leader is a single-target branch with a remote port that the cap had made Inactive. |
| `EarlyMediaCap.DemotionExactly` | src/callcontext-mediarelay.cc:227-232 | Taking the lead away keeps a session within the cap if and only if the session has room or the leader was not one that the cap had made Inactive. |
| `EarlyMediaCap.CapFails` | src/callcontext-mediarelay.cc:227-258 | With both features on there is no bound: for every cap and every larger number of branches offered and answering in turn there is a run in which all of them but the last are counted and are sent what the caller sends. |
| `RelayedCalls.RelayedCall.InitChannels` | src/callcontext-mediarelay.cc:84-140 | Every media line that is not declined, up to the fourth, gets a session and in it a new branch for the transaction unless it has one. |
| `RelayedCalls.RelayedCall.SetChannelDestinations` | src/callcontext-mediarelay.cc:203-270 | An early answer on one line has the specified effect: on the first line the lead is taken away and given, then the remote address is set with the direction that the cap allows. |
| `RelayedCalls.RelayedCall.PassLead` | src/callcontext-mediarelay.cc:227-235 | The leader is set to SendOnly in all sessions before the first missing one, and the transaction gets the lead. |
| `RelayedCalls.RelayedCall.GetActiveBranchesCount` | src/mediarelay.cc:316-325 | The loop counts the branches with a positive remote RTP port. |
| `RelayedCalls.RelayedCall.RemoveBranch` | src/callcontext-mediarelay.cc:283-292 | The branch goes from every session. |
| `RelayedCalls.RelayedCall.IterateInAnswer` | src/sdp-modifier.cc:545-567 | The lines of an answer are dealt with in order, those marked as not to be relayed are skipped. |
| `ModuleChain.ModuleDependenciesPresent` | src/module.cc:236-265 | The test with its early exits is readiness: no dependency, or the single empty one, or every registered dependency placed and at least one placed. |
| `ModuleChain.ReadyMonotone` | src/module.cc:236-265 | A module that is ready stays ready when more modules are placed. |
| `ModuleChain.Partition` | src/module.cc:309-315 | Modules are divided into those that replace another and those that do not, each in registration order. |
| `ModuleChain.PlaceRound` | src/module.cc:318-332 | A round moves modules without loss, keeps every placed module behind what it needs, strictly shrinks the pending list or finds that nothing is ready, and places pending modules in their order when that order suits them all. |
| `ModuleChain.PlaceAll` | src/module.cc:318-341 | The loop terminates with a placement: a rearrangement of the non-replacing modules into placed ones and pending ones of which none is ready. |
| `ModuleChain.BuildModuleChain` | src/module.cc:306-347 | It returns a complete placement after replacement, or throws because modules are left over; modules registered in an order that suits them all are placed in that order. |
| `ModuleChain.DependenciesFirst` | src/module.cc:306-341 | In a placement every module comes after the first module of each registered name that it gives. |
| `ModuleChain.AllFirstExactly` | src/module.cc:306-341 | In every order in which the modules can be placed each comes after all modules that it names if and only if no placed module names what two placed modules are called. |
| `ModuleChain.ChainFirstExactly` | src/module.cc:306-341 | When all modules can be placed, that is so if and only if no non-replacing registered module names what two of them are called. |
| `ModuleChain.RepeatedName` | src/module.cc:306-341 | Three modules that can be registered, of which the middle one is placed between the two of the name that it gives. |
| `ModuleChain.ClosureIsLeast` | src/module.cc:306-341 | The closure of readiness is closed and lies in every closed set. |
| `ModuleChain.PlacesTheClosure` | src/module.cc:306-341 | The set that is placed is that closure, in which registration order has no part. |
| `ModuleChain.SucceedsExactly` | src/module.cc:334-341 | The construction throws exactly when the closure misses a non-replacing module. |
| `ModuleChain.FindsAnOrder` | src/module.cc:306-341 | All non-replacing modules are placed if and only if there is some order of them in which each names nothing, or comes after a module of every registered name it gives and after one at least. |
| `ModuleChain.OrderIndependent` | src/module.cc:306-341 | Two registration orders of the same modules place the same set, and both succeed or both throw. |
| `ModuleChain.UnknownHintsAlone` | src/module.cc:236-265 | A module all of whose hints name unregistered modules is never placed, although a comment in the code says that such hints can be ignored. |
| `ModuleChain.IgnoredExactly` | src/module.cc:236-265 | Whether a module is ready is the same with its unregistered hints struck out, whatever is placed, if and only if it names nothing or something registered. |
| `ModuleChain.HintsIgnoredExactly` | src/module.cc:306-341 | Striking the unregistered hints out of all modules changes nothing about which modules are placed if and only if every non-replacing module names nothing or something registered. |
| `ModuleChain.ReplaceModules` | src/module.cc:279-295 | Each replacing module in turn takes the slot of the first module that has the name it replaces, if there is one. |
| `ModuleChain.ReplacesExactly` | src/module.cc:279-295 | At its turn a replacing module stands in a slot afterwards exactly where the first module of the name that it gives stood, and every other slot is as before. |
| `ModuleChain.ReplacementKeepsSlots` | src/module.cc:279-295 | What stands in a slot afterwards came by a line of replacements from what stood there before. |
| `ConfigDump.FileConfigDumper.PrintHelp` | src/configdumper.cc:76-112 | The character loop writes the specified comment lines, with the indentation of bullets. |
| `ConfigDump.HelpPreserved` | src/configdumper.cc:76-111 | For every help text the lines, put together with the characters they were cut at, give the text back; no line holds a newline, and a line is cut only at a newline or at a blank past the width. |
| `ConfigDump.LinesAreShort` | src/configdumper.cc:96-102 | For every help text, no line goes on past a blank that is more than sixty characters in. |
| `ConfigDump.IndentedExactly` | src/configdumper.cc:84-111 | For every help text, exactly those lines are indented that go on with a paragraph that begins with a bullet, and the last one if it is empty and follows such a paragraph. |
| `ConfigDump.FileConfigDumper.DumpModuleValue` | src/configdumper.cc:114-134 | Help, default, unit and assignment of an entry are appended, the assignment as a comment when the mode and the entry ask for it, and nothing for deprecated or non-exported entries. |
| `ConfigDump.FileConfigDumper.DumpModuleHead` | src/configdumper.cc:136-154 | The blank lines, the help banner and the section header are appended. |
| `ConfigDump.FileConfigDumper.Dump` | src/configdumper.cc:32-54 | The walk over sections and entries appends the lines of the whole dump. |
| `LpConfigFile.ParseLine` | src/lpconfig.cc:116-166 | On its line buffer, which it cuts with terminators, the parser finds what the line means: nothing, a section, or a key and its value. |
| `LpConfigFile.ParseValue` | src/lpconfig.cc:143-155 | The value is what follows the equals sign up to the newline, without trailing blanks but never shorter than one character; an empty value before a newline is none. |
| `LpConfigFile.IsAComment` | src/lpconfig.cc:44-50 | A line is a comment exactly when its first non-blank character is the number sign. |
| `LpConfigFile.LpConfig.AddItem` | src/lpconfig.cc:62-71 | The item is appended to its section, or the section has the key already, whatever the case, and the error names it. |
| `LpConfigFile.LpConfig.ParseFile` | src/lpconfig.cc:107-169 | The sections read are those that the chunks of the text, as fgets delivers them, specify; a key given twice ends the parse with an error. |
| `LpConfigFile.LpConfig.GetStringIn` | src/lpconfig.cc:196-206 | The lookup ignores case and drops leading blanks. |
| `LpConfigLines.LineExactly` | src/lpconfig.cc:116-166 | For every line: it is a header of a name, or sets a key to a value, if and only if it has that form, told by its parts: what it opens with, the first word before the bracket or equals sign, and the value without trailing blanks. |
| `LpConfigLines.FileExactly` | src/lpconfig.cc:107-206 | For every text: the file is refused if and only if some key is set twice in a section, and otherwise a lookup gives the value that some line sets in that section, without leading blanks, and nothing if no line does. |
| `LpConfigLines.RefusedExactly` | src/lpconfig.cc:62-71 | The same for every sequence of lines; sections may be left and taken up again. |
| `LpConfigLines.HeldExactly` | src/lpconfig.cc:107-206 | After every sequence of lines that is not refused, a value is held for a key if and only if some line set the key to it under that header. |
| `LpConfigLines.SameExactly` | src/lpconfig.cc:62-71 | Names are the same exactly when they differ in the case of letters at most. |
| `LpConfigFile.ConfigValue.Set` | src/configmanager.cc:283-299 | The value is set and no longer the default, or it does not suit the type and nothing changes. |
| `LpConfigFile.ConfigValue.Get` | src/configmanager.cc:321-329 | The value, or what the old name is set to while the entry has its default. |
| `LpConfigFile.ConfigValue.RestoreDefault` | src/configmanager.cc:301-305 | The value is the default again. |
| `LpConfigFile.ReadValues` | src/configmanager.cc:1324-1355 | Every entry of a section gets what the file says or its default; the first unsuitable value ends the reading, and that entry and those after it stay as they were. |
| `ConfigRoundTrip.HelpIsComment` | src/configdumper.cc:76-111 | Whatever the help text, the parser takes every line that is written for it as a comment. |
| `ConfigRoundTrip.TextTaken` | src/lpconfig.cc:107-169 | Reading a text of short lines is reading its lines one after the other. |
| `ConfigRoundTrip.DumpRead` | src/lpconfig.cc:107-206 | A dumped configuration parses without error, and each entry of each section is found with what the dump kept of it, and only then. |
| `ConfigRoundTrip.ValueBack` | src/lpconfig.cc:143-206 | A non-empty value survives writing and reading if and only if it neither starts nor ends with a blank. |
| `ConfigRoundTrip.DumpReload` | src/configmanager.cc:1324-1355 | In every mode, each entry of a dumped configuration has the value it had after reading if and only if it was written, is not empty and has no outer blanks, or it was not written or is empty and that value is the default; in the latter case it reads back as its default. |
| `ConfigRoundTrip.ReloadByMode` | src/configdumper.cc:114-134 | Mode by mode, which entries are written; those without outer blanks read back as they were and no longer default, all that are not written read back as their default. |
| `ConfigRoundTrip.EntryShown` | src/configdumper.cc:114-134 | The documentation of an entry, its default, its unit if it has one, and its setting or the commented default stand together, in this order, in the dump. |
| `ConfigRoundTrip.SectionShown` | src/configdumper.cc:136-154 | The dump begins with the documentation of the whole, and a section that is dumped is five empty lines, its documentation, its name in brackets, an empty line and its entries in order. |
| `ConfigRoundTrip.OldNameLost` | src/configdumper.cc:126-130 | When entries at their default are commented out, an entry whose value comes from its old name reads back as its default, although that is not the value it had. |
| `ConfigRoundTrip.OldNameExample` | src/configdumper.cc:126-130 | One section with one such entry, for any names and values that can be written. |
| `ConfigRoundTrip.LongHelpIsRead` | src/lpconfig.cc:107-116 | Any help word that fills the line buffer: whatever setting follows it in the text is read as a setting, so lines must be short. |
| `ForkGroups.ForkGroupSorter.MakeGroups` | src/module-router.cc:611-647 | All contacts are taken: direct ones first, each alone, then one group per last route in order of appearance; the loop that starts over terminates. |
| `ForkGroups.ForkGroupSorter.TakeDirects` | src/module-router.cc:613-620 | Contacts with fewer than two path entries become destinations and are erased, the others stay in order. |
| `ForkGroups.ForkGroupSorter.MakeGroup` | src/module-router.cc:622-646 | The first contact and all that share its last route form one destination and are erased. |
| `ForkGroups.ForkGroupSorter.FindDestination` | src/module-router.cc:660-669 | The first contact with the given last route, or the end. |
| `ForkGroups.ForkGroupSorter.MakeDestinations` | src/module-router.cc:648-652 | Without grouping, every contact is a destination. |
| `ForkGroups.Partition` | src/module-router.cc:611-647 | Every contact is in exactly one destination: together they are the contacts, rearranged. |
| `ForkGroups.EverybodyCalled` | src/module-router.cc:611-652 | Read back from the destinations, the uris called are those of the contacts, each once and nobody else's, with grouping and without. |
| `ForkGroups.DestinationExactly` | src/module-router.cc:611-647 | Every destination: contacts of fewer than two routes alone and first; then one that calls, in order, all contacts of the same last route, and whose target uris are empty exactly when that is one contact. |
| `ForkGroups.TargetsReadBack` | src/module-router.cc:629-642 | The target uris of a group read as a list give the uris of its members in order if and only if no uri has a closing bracket in it. |
| `ForkGroups.ByAppearance` | src/module-router.cc:611-647 | The destinations stand for the direct contacts in order and then for the first contact of each last route, in order of appearance. |
| `ForkGroups.GroupsByRoute` | src/module-router.cc:622-646 | The members of a group share their last route and no two groups share theirs. |
| `ForkGroups.CountDestinations` | src/module-router.cc:611-647 | There are as many destinations as direct contacts and distinct last routes of the others. |
| `ForkGroups.DirectsStandAlone` | src/module-router.cc:613-620 | A direct contact always stands alone. |
| `RecordSerializer.Scanner.StrSep` | src/recordserializer-c.cc:53-73 | The next token is cut out of the buffer and the tokens left are the others. |
| `RecordSerializer.Parse` | src/recordserializer-c.cc:45-96 | The token loop returns the contacts, the refusal at the first incomplete contact, or undefined behaviour for a missing alias, as specified on the split text. |
| `RecordSerializer.Serialize` | src/recordserializer-c.cc:99-134 | The nested loops write the tokens of all contacts, joined. |
| `RecordSerializer.OneContactText` | src/recordserializer-c.cc:99-134 | The text of a contact: its fields after number signs, in this order, the route empty. |
| `RecordSerializer.LineRead` | src/recordserializer-c.cc:45-96 | A line with all its fields is read as those fields in order, the route in front of the path if there is one; it is refused if and only if a mandatory field is empty. |
| `RecordSerializer.SplitJoin` | src/recordserializer-c.cc:45-134 | For every list of parts, the empty one included, splitting what was joined gives the parts back if and only if there is one at least and none holds the separator. |
| `RecordSerializer.RoundTripExactly` | src/recordserializer-c.cc:45-134 | Parsing recovers exactly the fields that were written, in order, if and only if there is a contact, mandatory fields and lists are not empty, and no field holds a separator of its level. |
| `EventPipeline.SipEvent.TerminateProcessing` | src/event.cc:109-121 | The event is terminated, from whatever state. |
| `EventPipeline.SipEvent.SuspendProcessing` | src/event.cc:123-130 | A started event is suspended; otherwise an exception, and no change. |
| `EventPipeline.SipEvent.RestartProcessing` | src/event.cc:132-139 | A suspended event is started; otherwise an exception, and no change. |
| `EventPipeline.SipEvent.Process` | src/module.cc:109-162 | A module's reaction, exceptions included, has the specified effect on the state of the event and on who keeps it. |
| `EventPipeline.ReactExactly` | src/module.cc:109-162 | What a module's calls leave the event in, and who keeps it, by the first call that throws. |
| `EventPipeline.DoSendEvent` | src/agent.cc:1005-1020 | The loop over the modules is the specified walk. |
| `EventPipeline.InjectEvent` | src/agent.cc:1149-1170 | Injection resumes the walk after the module where the event stands. |
| `EventPipeline.WalkRises` | src/agent.cc:1005-1020 | A walk visits rising positions, and an event that it hands back is no longer started. |
| `EventPipeline.WalkExactly` | src/agent.cc:1005-1020 | A walk visits every position from where it begins to where it ends; every module before the end handed a started event back, and the end is the first that kept or stopped it, or the last module. |
| `EventPipeline.SeenAtMostOnce` | src/agent.cc:1005-1170 | Over every life of suspensions and injections with arbitrary modules, the positions visited strictly rise, so that each module sees the event at most once, and an event that is handed back is terminated or suspended. |
| `EventPipeline.NoneSkipped` | src/agent.cc:1005-1170 | Over every life, the positions visited have no gap: no module between two that saw the event is skipped. |
| `EventPipeline.NeverRestarted` | src/event.cc:109-139 | Whatever its holders do with a terminated event, no module sees it again. |

## Left out

- JSON numbers with a fraction or an exponent, and whole numbers outside 32 bits: floating-point formatting; parsing one is a separate outcome of the model.
- JsonAcceptance.ReadsExactly: the grammar is that of the code, which accepts more than RFC 8259: every control character is a blank, a backslash may stand before any character, a sign alone is zero, and the end of the text closes a string.
- The place at which the parser reports an error is specified and computed, but it is not shown to be the first at which no text could go on.
- JSON objects with unnamed members, type flags for references, deletion and duplication: no part in the round trip.
- The tree that the parser builds is a value; the linked child lists have their own model, and the two are not joined.
- Allocation failure, and overflow of the int lengths and counters: lengths are unbounded.
- The mutex without the reentrant flag: it is the plain mutex that the model builds on.
- ReentrantMutex.Reachable: does not model errors returned by the pthread calls, which the program only logs.
- Sockets, filters, statistics and address resolution of the relay: results of poll, addresses and filters are inputs.
- The relay thread and the SIP thread are steps on values; what one of them does under a lock is one step. Reading the winner outside the lock is part of the step, since only the SIP thread writes it.
- PollTable.RelaySession.Transfer: asks for a front channel; the program follows the pointer without a test.
- EarlyMedia.OneSender: leaves out offers of the callee and what happens after establishment; creating or removing a branch, connecting a channel and receiving a packet are one step each.
- A party whose tag is empty, for which a lookup by the empty tag would give the caller's channel.
- ForkGroups.Partition: takes the comparison of routes as equality of last path entries.
- ForkGroups.EverybodyCalled: asks that no uri has a closing bracket in it; a uri is the text that is written for it.
- RecordSerializer.RoundTripExactly: expiry, q value, times and sequence numbers are kept as the text that is written; turning them into numbers is not modelled, and neither is the contact id, which is written and checked but not given to the record.
- EventPipeline.SeenAtMostOnce: a response that a fork context forwards is sent as a new walk from the first module; that is outside the life of one event.
- Old names that themselves have old names, read flags and the report of unread items, sections inside sections, and commit of changes at run time.
- ConfigRoundTrip.DumpReload: asks for names that are one word, differ by more than case and do not start with a comment or section sign, text without NUL, and lines shorter than the parser's buffer.
- ModuleChain.HintsIgnoredExactly: asks that no module is registered under the empty name, which also stands for no dependency.
- LpConfigFile.ReadValues: reads the values of one section; the walk over sections is the same loop again.
- The JSON record serializer: its parser asks for a field that its writer does not write, so there is no round trip to state.
- SDP and ICE parsing: they are done by Sofia-SIP and mediastreamer; the model takes ports, addresses and the ICE state as given.
- TLS, authentication and transcoding: their work is in libraries, and what is left is the order of calls.
- The TeX and wiki dumpers: nothing reads their output back.
- Statistics counters and the command line: they report on the other components and decide nothing.
