# libevent: a verified model of its core data structures and protocols

libevent multiplexes file descriptors, timers and signals, buffers bytes, limits
bandwidth and resolves names. This project models the parts of it that are hardest to
get right and proves what they are for. Source paths below are relative to the
repository that contains `LibEvent/`.

Run `dafny verify dfyconfig.toml` here to check everything.

## The parts

- **DNS names** (`DnsNames`, `DnsReader`, `DnsWriter`, `DnsResponse`). The writer cuts a
  name into labels and replaces suffixes it has written before by pointers; the reader
  follows them (sections 3.1 and 4.1.4 of RFC 1035). A relation says which labels a
  message spells at an offset; the reader computes it and the writer establishes it, over
  whole replies that share one compression table.
- **Byte buffers** (`EvChain`, `EvRun`, `Evbuffer`, `EvbufferMove`, `EvbufferPullup`,
  `EvbufferRuns`, `EvbufferSpace`, `EvbufferGaps`, `EvbufferSearch`). Chains of memory are heap objects;
  a buffer caches its last chain, its length and a pointer to the pointer to the last
  chain with data (`Slot`). Every operation is proved against plain byte strings, over any
  number of buffers that hand chains to each other; reserving and committing room, and
  searching across chains, start from any state that meets the documented invariant.
- **Event map, change list and epoll** (`EventMap`). Changes wanted of a descriptor are
  coalesced until the next dispatch or applied at once; both give the same interest set.
- **Condition variable for Windows threads** (`CondVar`). Critical sections and system
  calls are the steps of a state machine over any number of threads.
- **Common timeouts** (`CommonTimeout`). Sorted queues of events with the same timeout,
  each driven by one timer in the heap; queue numbers travel in the upper bits of the
  microseconds.
- **Priorities** (`EventLoop`). Callbacks, and other threads meanwhile, may activate and
  delete events of any priority.
- **Hash table** (`HashTable`, `Bags`). Chained, intrusive, with two ways to rehash.
- **Rate limits** (`RateLimit`, `RateGroup`). Token buckets on a wrapping tick counter,
  suspension and refill timers, and groups whose members can only be try-locked.
- **DNS requests** (`DnsRings`, `DnsRequests`). Circular lists hashed by transaction id and
  a queue of waiting requests.
- **IPv6 text** (`Ipv6`) and **tagged data** (`Tagging`), two codecs; the second works on
  the byte buffers above.

## What does not hold

Each item names the member that says exactly when it fails, and one with an input.

- `dnsname_to_labels` joins and splits names only up to a trailing dot and inner empty
  labels: `DnsNames.JoinLabels`, `DnsResponse.TrailingDot`.
- `dnsname_to_labels` writes its final zero byte without comparing with the buffer's
  length: `DnsWriter.ZeroOneTooFar`, `DnsWriter.ZeroPastTheEnd`. The array of the model is
  one byte longer than the length it is given, to hold that byte.
- `evbuffer_commit_space` accepts a single extent that is the last chain's even when
  chains before it stay empty. `advance_last_with_data` then stops early and the cached
  slot no longer leads to the last chain with data: `EvbufferSpace.CommitLast`,
  `EvbufferGaps.SkippedChain`.
- `evbuffer_add` fills the last chain without moving the cached slot to it, which goes wrong
  behind a chain that was reserved; with more data than fits there it may run into an assertion
  of `evbuffer_chain_insert`: `Evbuffer.Evbuffer.Add`, `EvbufferGaps.AddedBehind` and
  `EvbufferGaps.AddAborts`. That function does not move the slot to a chain that takes the
  place of empty ones behind data: `Evbuffer.Evbuffer.ChainInsert`,
  `EvbufferGaps.InsertedBehind`.
- `evbuffer_remove_buffer` moves the cached slot of the source off empty chains that it leaves
  in the list when it hands nothing over, and leaves that of the destination before an empty
  chain it hands over: `EvbufferMove.RemoveBuffer`, `EvbufferGaps.MovedBehindEmpty` and
  `EvbufferGaps.MovedWithEmpty`. The bytes are right all the same,
  unless `evbuffer_add` runs into that assertion.
- `evbuffer_reserve_space` with one extent may give out room in the chain behind the first with
  room, which `evbuffer_commit_space` refuses unless it is the last:
  `EvbufferSpace.ReserveThenCommit`, `EvbufferGaps.ReservedInVain`.
- `ev_token_bucket_update` does not cap a limit that is above its maximum already (refunds
  can lift it there): `RateLimit.RefillIsCapped`, `RateLimit.AboveMaximumGrows`.
- A rate-limit group whose minimal share is 0 is resumed with an empty bucket:
  `RateGroup.Perform` and `RateGroup.Run`, `RateGroup.NoShareNoTokens`.
- The search of `HT_GROW` reads past its table of primes for sizes that no prime is enough
  for; inserting never asks for one: `HashTable.Table.Grow`, `HashTable.PastThePrimes`.
- `transaction_id_pick` does not end with 65535 requests in flight:
  `DnsRequests.FreeIdLeft`, `DnsRequests.AllIdsTaken`. Operations that would not end say so
  in their result here.
- `evutil_inet_pton` reads more than section 2.2 of RFC 4291 allows: `Ipv6.Pton6` and
  `Ipv6.RfcText`, `Ipv6.PrefixRead`.
- `evutil_inet_ntop` cuts off the last character when the buffer is exactly as long as the
  text: `Ipv6.Ntop6` and `Ipv6.RoundTrip`, `Ipv6.CutToZero`.
- `decode_tag_internal` pulls up five bytes but reads on while tag bytes say that another
  follows: `Tagging.DecodeTag`, `Tagging.SixByteTag`.

## Model

| member | source | states |
|---|---|---|
| DnsNames.JoinLabels | LibEvent/Source/evdns.c:1586-1649 | Cutting a name at its dots and joining the pieces gives the name back exactly when it has no empty label inside; so a round trip through labels loses at most a trailing dot |
| DnsNames.SpellsUnique | LibEvent/Source/evdns.c:944-997 | At one offset, with one number of pointers followed, a message spells at most one name |
| DnsNames.SpellsStable | LibEvent/Source/evdns.c:1586-1649 | Bytes written outside the offsets a name uses leave that name as it was |
| DnsReader.WalkIsSpells | LibEvent/Source/evdns.c:944-997 | The recursive reading of a name agrees, both ways, with the relation that says which labels a message spells at an offset |
| DnsReader.SpelledDecodes | LibEvent/Source/evdns.c:944-997 | A spelled name whose text fits the output decodes to that text and to the index behind its first run of labels, whatever pointers it goes through |
| DnsReader.ParseIsWalk | LibEvent/Source/evdns.c:944-997 | Reading into a bounded text with early exit equals reading all labels first and then fitting them |
| DnsReader.NameParse | LibEvent/Source/evdns.c:944-997 | The loop terminates on every packet, also with pointer cycles, succeeds exactly when the name decodes within the packet and the output, and then has written the decoded text with its zero inside the output and moved the index just past the name |
| DnsWriter.LabelTable.GetPos | LibEvent/Source/evdns.c:1546-1554 | The first entry with the suffix, or none |
| DnsWriter.LabelTable.Add | LibEvent/Source/evdns.c:1558-1572 | A suffix is remembered with its offset unless the table is full; earlier entries stay |
| DnsWriter.TryPointer | LibEvent/Source/evdns.c:1586-1649 | If the suffix is in the table, the two bytes of a pointer to the offset remembered for it are written, or nothing and -2 without room for them |
| DnsWriter.PutNext | LibEvent/Source/evdns.c:1586-1649 | One turn of the writing loop keeps the invariant: what is written so far, continued, spells the name, and each table entry leads to the suffix it names |
| DnsWriter.DnsnameToLabels | LibEvent/Source/evdns.c:1586-1649 | On success the message spells exactly the labels of the name at the start offset, bytes before it are untouched and the table stays truthful; the result, error codes included, and what the table has learned are those of Ended and Learned, and the byte at the buffer's length is written just when the name ends one past it |
| DnsResponse.AppendName | LibEvent/Source/evdns.c:1877-1971 | A further name decodes at its offset and all earlier names still do, or the code that refuses it |
| DnsResponse.AppendItem | LibEvent/Source/evdns.c:1877-1971 | A record is laid out as name, type, class, time to live and the true length of its data, in front of which nothing changes; whether it fits is that of AfterItem |
| DnsResponse.FormatResponse | LibEvent/Source/evdns.c:1877-1971 | An untruncated reply is the header and then, each starting where the one before ends, all questions and records in order: each name is read back by the name reader as given, type, class, time to live and data are there, and the length field leads just to the end of the data; it is refused exactly for a bad code or a question whose name cannot be written, and truncated, to 512 bytes with the header kept, exactly when writing stops short or goes past 512 |
| EvChain.AllocSize | LibEvent/Source/buffer.c:155-189 | The block is the least doubling of the minimum that holds header and data, or just as long as they are once that is half of the most a chain may be |
| EvRun.RunSplit | LibEvent/Source/evbuffer-internal.h:78-96 | A linked run of chains falls at any place into two runs with disjoint cells |
| EvRun.RunJoin | LibEvent/Source/evbuffer-internal.h:78-96 | Two runs with disjoint cells, the first leading to the second, are one run |
| EvRun.InsertParts | LibEvent/Source/buffer.c:291-319 | What replacing trailing empty chains does to the bytes and to the last chain with data, for data and for an empty chain |
| Evbuffer.Evbuffer.FindTail | LibEvent/Source/buffer.c:273-286 | From whatever chain the cached slot leads to, the walk ends at the first empty one or at the end |
| Evbuffer.Evbuffer.ChainInsert | LibEvent/Source/buffer.c:291-319 | A chain added at the end, in place of trailing empty ones, appends its bytes, from whatever chain the cached slot leads to; the source's assertion fails if and only if the walk meets an empty chain before data. From a state that meets the documented invariant it does not, and the invariant holds again if and only if the chain is empty or takes the place of no empty chains behind other data |
| Evbuffer.Evbuffer.Add | LibEvent/Source/buffer.c:1544-1634 | From any state that meets the documented invariant the content grows by exactly the data at its end, unless the end is frozen, whether room was found, made by moving data, or allocated. An assertion of the source fails if and only if the data does not fit into the last chain, that has some room, and is neither the chain with the last data nor directly behind it. Otherwise the invariant holds again if and only if nothing was added, or the last chain had the last data, or the data did not fit while there was some room or no data at all |
| Evbuffer.Evbuffer.AddAt | LibEvent/Source/buffer.c:1544-1634 | The same from whatever chain the cached slot leads to: which data is added where, and the conditions for the assertion and for the slot to be right afterwards, in terms of where empty chains are |
| Evbuffer.Evbuffer.AddChain | LibEvent/Source/buffer.c:1603-1627 | Data for which the last chain has too little room is split over that and a new chain; the assertion fails if and only if, from the cached slot on, an empty chain precedes data |
| Evbuffer.Evbuffer.ChainsAllEmpty | LibEvent/Source/buffer.c:248-257 | True exactly when no data is in the chains from there on |
| EvRun.WalkCases | LibEvent/Source/buffer.c:304-316 | Where the walk from the cached slot ends, and whether data lies behind, in terms of the chains alone |
| Evbuffer.Evbuffer.SlottedValid | LibEvent/Source/evbuffer-internal.h:78-110 | With all else right the documented invariant holds if and only if the cached slot leads to the last chain with data |
| Evbuffer.Evbuffer.Prepend | LibEvent/Source/buffer.c:1637-1716 | From any state that meets the documented invariant the content grows by exactly the data at its front, unless the front is frozen, also when the data is split between slack and a new chain |
| Evbuffer.Evbuffer.SkipChains | LibEvent/Source/buffer.c:984-1014 | Walking past whole chains, empty ones too, stops in the chain that holds the next byte, with the cached slot moved off the dropped ones |
| Evbuffer.Evbuffer.Drain | LibEvent/Source/buffer.c:959-1026 | From any state that meets the documented invariant just the first bytes, or all, are dropped; frozen and empty buffers behave as coded |
| Evbuffer.Evbuffer.Copyout | LibEvent/Source/buffer.c:1044-1088 | Gives the first bytes in order, across chains, and leaves the buffer as it is |
| Evbuffer.Evbuffer.Remove | LibEvent/Source/buffer.c:1030-1041 | What is returned followed by what is left is the old content |
| EvbufferMove.AddBuffer | LibEvent/Source/buffer.c:820-910 | All bytes of one buffer move to the end of another by relinking: contents, both invariants and disjoint ownership of chains, with the frozen, empty and same-buffer cases |
| EvbufferMove.PrependBuffer | LibEvent/Source/buffer.c:849-956 | The same at the front |
| EvbufferMove.AdvanceLastWithData | LibEvent/Source/buffer.c:654-667 | The cached slot moves over chains with data and stops before the first empty one or at the end |
| EvbufferMove.SpliceChains | LibEvent/Source/buffer.c:1139-1157 | The first chains of one buffer, empty ones among them or not, end up behind the data of another; its cached slot goes on over chains with data and stops before the first empty one |
| EvbufferMove.RemoveBuffer | LibEvent/Source/buffer.c:1094-1181 | From any states that meet the documented invariant a prefix moves from one buffer to the end of another, whole chains by relinking and the rest by copying: old content is prefix plus rest, nothing lost, doubled or out of order, unless the assertion of evbuffer_add fails, for which there is an if-and-only-if condition. The source's invariant holds afterwards if and only if all its bytes were moved, or its data was not all in one chain with empty ones in front; the destination's if and only if no empty chain comes between the chains with data that were handed over, up to the one that the rest is copied to |
| EvbufferMove.MovePrefix | LibEvent/Source/buffer.c:1126-1170 | Fewer bytes than there are: the same conditions, with the bytes of both buffers exact |
| EvbufferMove.JoinReach | LibEvent/Source/buffer.c:654-667 | The cached slot gets up to a chain that was handed over if and only if no chain handed over before it, but for one where the slot starts, is empty |
| EvbufferMove.Handing | LibEvent/Source/buffer.c:1139-1163 | After the hand-over the conditions of evbuffer_add, at the chain that the cached slot has got to, are those on the chains that were handed over |
| EvbufferMove.WholeIs | LibEvent/Source/buffer.c:1126-1138 | How many chains a number of bytes covers whole |
| EvbufferMove.AloneCases | LibEvent/Source/buffer.c:1126-1138 | The cached slot that has been moved off the chains covered whole is right for what is left if these are handed over, and for all chains exactly unless the only data is behind empty chains |
| EvbufferPullup.Gather | LibEvent/Source/buffer.c:1250-1265 | Chains covered whole are appended to the target, and the two flags tell truly whether the last chain with data and the owner of the cached slot were among them |
| EvbufferPullup.Pullup | LibEvent/Source/buffer.c:1184-1293 | From any state that meets the documented invariant: content is unchanged, and the bytes asked for lie one after the other in the chain given, which is the first; null exactly when none or too many are asked for |
| EvbufferRuns.Perform | LibEvent/Source/buffer.c:821-1293 | Each operation on one buffer is its counterpart on a byte string |
| EvbufferRuns.PerformMove | LibEvent/Source/buffer.c:821-1181 | Each transfer is its counterpart on two byte strings |
| EvbufferRuns.PerformAll | LibEvent/Source/buffer.c:291-1716 | After any run of operations over any number of buffers every buffer is well formed, no chain belongs to two, and the contents are those that the same run makes of byte strings |
| EvbufferRuns.BytesConserved | LibEvent/Source/buffer.c:821-1181 | Over any run of transfers, pull-ups and freezes the bag of all bytes in all buffers stays the same |
| EvbufferSpace.KeepAndAppend | LibEvent/Source/buffer.c:1913-1964 | An empty chain behind those with data leaves content, cached slot and length right |
| EvbufferSpace.Survey | LibEvent/Source/buffer.c:1874-1903 | The room counted at the end is the sum over the first chains with room, and running off the end means all were counted |
| EvbufferSpace.ExpandFast | LibEvent/Source/buffer.c:1858-1965 | From any state that meets the documented invariant there is afterwards room for the bytes asked for in at most n chains, the content is as before, no byte of memory is written and the invariant holds; when all memory is too little and chains are fewer than n there is just one chain more |
| EvbufferSpace.ReadSetupVecs | LibEvent/Source/buffer.c:2032-2065 | The extents are the free space of successive chains, at most n of them, and together enough (just enough when exact); no chain beyond the last is looked at |
| EvbufferSpace.ReserveSpace | LibEvent/Source/buffer.c:621-651 | With any number of extents: -1 exactly when the end is frozen or none is wanted; else their lengths sum to the size or more, they are the free space of successive chains and the content is unchanged. They start at the first chain with room, except that a single extent may be in the chain behind it, and that is not the last chain if and only if the first was passed over |
| EvbufferSpace.ExpandSingle | LibEvent/Source/buffer.c:1740-1853 | Room for the bytes in one chain, by using, aligning or passing over the first with room or by a new one in place of empty ones; content and invariant stay, and which chain it is |
| EvbufferSpace.Committable | LibEvent/Source/buffer.c:685-716 | Extents are in bounds for committing if and only if they start at the first chain with room or are one in the last chain |
| EvbufferSpace.AlignAt | LibEvent/Source/buffer.c:1718-1726 | A chain's data moves to its front and all else of the buffer stays |
| EvbufferSpace.CommitLast | LibEvent/Source/buffer.c:685-696 | Committing into the last chain alone appends the bytes; the invariant survives if and only if nothing is committed or no chain that stays empty comes between it and the last data |
| EvbufferGaps.SkippedChain | LibEvent/Source/buffer.c:685-696 | A buffer of three reserved, empty chains where that goes wrong: a byte is committed to the last, and the cached slot stays at the first |
| EvbufferGaps.Built | LibEvent/Source/buffer.c:621-737 | Reserving and committing make buffers that meet the documented invariant with any given numbers of bytes in their chains |
| EvbufferGaps.EmptyChains | LibEvent/Source/buffer.c:1856-1966 | Reserving ever more makes a buffer of any number of empty chains, all with room |
| EvbufferGaps.ReservedInVain | LibEvent/Source/buffer.c:1803-1811 | A single extent given out by evbuffer_reserve_space that evbuffer_commit_space refuses |
| EvbufferGaps.InsertedBehind | LibEvent/Source/buffer.c:308-316 | A chain with data that takes the place of an empty one behind data, after which the cached slot is wrong |
| EvbufferGaps.AddAborts | LibEvent/Source/buffer.c:291-319 | More bytes than the second of two empty chains has room for: the assertion that the chains to be replaced are empty fails |
| EvbufferGaps.MovedBehindEmpty | LibEvent/Source/buffer.c:1126-1138 | A byte moved from behind an empty chain, after which the cached slot of the source is wrong |
| EvbufferGaps.MovedWithEmpty | LibEvent/Source/buffer.c:1139-1157 | Chains of 1, 0, 1 and 1 bytes of which two bytes are moved, after which the cached slot of the destination is wrong |
| EvbufferSpace.CommitSpace | LibEvent/Source/buffer.c:670-737 | Succeeds exactly when every extent is where the free space starts and not longer; then each chain has grown by what lies in its extent, the content by all of it in order, and the invariant holds exactly unless a chain was skipped; otherwise nothing changes |
| EvbufferSpace.ReserveThenCommit | LibEvent/Source/buffer.c:621-737 | Reserving, filling a prefix of the extents and committing it appends exactly the data written and restores the invariant; it succeeds if and only if the end is not frozen and an extent is wanted, unless it is a single one for which the first chain with room was passed over |
| EvbufferSearch.PtrSet | LibEvent/Source/buffer.c:2450-2494 | A position is reached exactly when it is inside the content, and the pointer given stands for that byte |
| EvbufferSearch.SetThenAdd | LibEvent/Source/buffer.c:2450-2494 | Going to a and then b further gives the very pointer, or failure, that going to a + b gives |
| EvbufferSearch.OnePtr | LibEvent/Source/buffer.c:2450-2494 | A byte has exactly one pointer |
| EvbufferSearch.FindEolChar | LibEvent/Source/buffer.c:1328-1352 | The scan in pieces of 128 bytes finds the first CR or LF that a plain scan finds |
| EvbufferSearch.FindByte | LibEvent/Source/buffer.c:1306-1374 | Across chains, the first hit at or after the pointer, or none if there is none |
| EvbufferSearch.StrSpn | LibEvent/Source/buffer.c:1377-1413 | Exactly how many of the next bytes are in the set, across chains, and the pointer behind them; at the end of the buffer that stands at the start of the last chain |
| EvbufferSearch.PtrMemcmp | LibEvent/Source/buffer.c:2501-2534 | 0 exactly when the bytes from the pointer on are those given, across chains; -1 when there are too few; else the sign of the first difference |
| EvbufferSearch.SearchRange | LibEvent/Source/buffer.c:2543-2605 | The least match at or after the start that ends by the end, or none exactly when there is no such match; the pointer given stands for it |
| EvbufferSearch.SearchEol | LibEvent/Source/buffer.c:1426-1498 | For each of the four styles: the first place where a line ends, the length of its terminator, and no line ends before |
| EvbufferSearch.Readln | LibEvent/Source/buffer.c:1501-1537 | Line, terminator and rest make up the old content, the line holds no line end; nothing happens when no line is complete |
| EventMap.CountsTell | LibEvent/Source/evmap.c:263-331 | The counters nread and nwrite are positive exactly when some registered event wants that direction |
| EventMap.Base.ApplyOneChange | LibEvent/Source/epoll.c:174-330 | Kernel and change agreeing, the interest set becomes what the change means; an add takes effect whatever the kernel remembers, through the retries; an empty change does nothing |
| EventMap.Base.ChangelistAdd | LibEvent/Source/evmap.c:647-675 | The pending change, new or old, leads to the old wish plus the new events |
| EventMap.Base.ChangelistDel | LibEvent/Source/evmap.c:678-726 | The pending change leads to the old wish minus the events, an add of something not enabled before being cancelled |
| EventMap.Base.NochangelistAdd | LibEvent/Source/epoll.c:352-367 | Applied at once, the kernel's set is the old wish plus the events |
| EventMap.Base.NochangelistDel | LibEvent/Source/epoll.c:370-383 | Applied at once, the kernel's set is the old wish minus the events |
| EventMap.Base.IoAdd | LibEvent/Source/evmap.c:263-331 | The event is registered and only there, the result tells whether the wish for the descriptor changed or there were too many, and counters, index, pending changes and kernel stay consistent |
| EventMap.Base.IoDel | LibEvent/Source/evmap.c:336-387 | The event is gone and the result tells whether the wish changed |
| EventMap.Base.ApplyChanges | LibEvent/Source/epoll.c:333-349 | Each descriptor with a pending change has what that means, all others what they had |
| EventMap.Base.RemoveAll | LibEvent/Source/evmap.c:560-578 | All indices are reset and nothing else changes |
| EventMap.Base.Dispatch | LibEvent/Source/epoll.c:402-403 | Then the kernel watches each descriptor for exactly what its events want |
| EventMap.PutIndexed | LibEvent/Source/evmap.c:616-644 | idxplus1 and the change array stay inverse to each other |
| EventMap.Run | LibEvent/Source/evmap.c:263-387 | In every run, in either mode, with descriptors closed and reopened in between: registered events are as asked, and after each dispatch, or always in immediate mode, the interest set is read iff nread > 0, write iff nwrite > 0 |
| EventMap.Coalesced | LibEvent/Source/evmap.c:616-726 | For every sequence of calls between dispatches the coalesced changes leave the same interest set as applying each at once |
| CondVar.Cond.Enter | LibEvent/Source/evthread_win32.c:242-245 | One waiter more, its generation the current one |
| CondVar.Cond.Check | LibEvent/Source/evthread_win32.c:250-285 | 0 exactly when a wake-up is left and a signal came since the wait began; else 1 when the system call timed out or the deadline has passed, -1 when it failed, and otherwise the wait goes on; the event is reset only when nobody is due |
| CondVar.Cond.Leave | LibEvent/Source/evthread_win32.c:289-292 | The event is reset exactly when no one waits |
| CondVar.Cond.Signal | LibEvent/Source/evthread_win32.c:216-228 | One wake-up more, or as many as there are waiters, a new generation, the event set |
| CondVar.Cond.NoLostWakeup | LibEvent/Source/evthread_win32.c:216-295 | In every reachable state with a wake-up left and a waiter whose generation is old the event is set |
| CondVar.Cond.BroadcastServesAll | LibEvent/Source/evthread_win32.c:216-295 | After a broadcast, until the next single signal, each thread that waited then and still waits has a wake-up left for it |
| CondVar.WakesUp | LibEvent/Source/evthread_win32.c:250-259 | Such a waiter can go on at once and returns 0 |
| CondVar.SignalBetween | LibEvent/Source/evthread_win32.c:254-259 | A generation that differs means a signal in between |
| CondVar.Run | LibEvent/Source/evthread_win32.c:188-295 | For any number of threads and any interleaving: n_waiting counts the threads inside, a wait ends with 0 only if a signal came during that very wait, and no more waits are served than signals granted |
| CommonTimeout.SameTagCompares | LibEvent/Source/event.c:1116-1120 | Comparing two times with the same tag in their microseconds compares the times |
| CommonTimeout.TimesAdded | LibEvent/Source/event.c:2151-2162 | The deadline computed with masks and tags is now plus the interval and keeps its queue |
| CommonTimeout.TimerBase.InsertionPoint | LibEvent/Source/event.c:2561-2588 | Behind all that are no later, before the first that is later |
| CommonTimeout.TimerBase.AddInternal | LibEvent/Source/event.c:2045-2192 | The event is pending at now plus the interval or at the absolute time, in the place its timeout tells, taken off the active queue if it had timed out; the first of a queue moves the queue's driver; other events are as before |
| CommonTimeout.TimerBase.DelInternal | LibEvent/Source/event.c:2215-2286 | The event is neither pending nor active, all others are as before, and every queue stays driven |
| CommonTimeout.TimerBase.ActiveNolock | LibEvent/Source/event.c:2307-2345 | Active, and the reasons are those given, with those it had if it was active already |
| CommonTimeout.TimerBase.TimeoutProcess | LibEvent/Source/event.c:2494-2517 | Exactly what is due in the heap becomes active, and nothing due is left there |
| CommonTimeout.TimerBase.CommonTimeoutCallback | LibEvent/Source/event.c:1157-1177 | Exactly the due events at the front of the queue become active and the driver is scheduled for what is left |
| CommonTimeout.TimerBase.TimeoutCorrect | LibEvent/Source/event.c:2441-2490 | When the clock went back every pending deadline goes back as far, in heap and queues, and order, tags and drivers stay right |
| CommonTimeout.TimerBase.PersistClosure | LibEvent/Source/event.c:1257-1309 | The next deadline is an interval after the last one or after now, and never in the past |
| CommonTimeout.TimerBase.InitCommonTimeout | LibEvent/Source/event.c:1182-1253 | A tagged time for the duration, the same queue for the same duration, at most 256 |
| CommonTimeout.TimerBase.WakesInTime | LibEvent/Source/event.c:2398-2432 | As long as no driver is away, the heap's first timer is no later than any pending event of any queue |
| CommonTimeout.TimerBase.DueIsServed | LibEvent/Source/event.c:1157-1177 | After the heap has been processed, the driver of every queue with a due event is active or running |
| CommonTimeout.Run | LibEvent/Source/event.c:1145-2630 | In every run of adds, deletes, activations, callbacks and clock corrections: queues are sorted, each pending event is where its timeout tells, and each non-empty queue has its driver active, running, or in the heap no later than its head |
| HashTable.SegRetarget | LibEvent/Source/ht-internal.h:203-214 | Redirecting the last link of a chain |
| HashTable.Unlink | LibEvent/Source/ht-internal.h:203-214 | Redirecting the slot before an entry takes just that entry out of the chains |
| HashTable.Push | LibEvent/Source/ht-internal.h:167-177 | A new entry at the front of a bucket adds just that entry |
| HashTable.Table.FindP | LibEvent/Source/ht-internal.h:140-152 | The slot of the first entry with the key in its bucket, or the last slot |
| HashTable.Table.Find | LibEvent/Source/ht-internal.h:156-163 | An entry of the table with the key, or none exactly when there is none |
| HashTable.Table.Insert | LibEvent/Source/ht-internal.h:167-177 | The contents grow by the entry, through a rehash or not |
| HashTable.Table.Remove | LibEvent/Source/ht-internal.h:203-215 | The entry with the key is gone and returned, all others stay |
| HashTable.Table.NextPrime | LibEvent/Source/ht-internal.h:318-327 | The first prime after the one in use whose limit exceeds the size; the search leaves the table of primes if and only if the size reaches the last prime's limit |
| HashTable.Table.RehashFresh | LibEvent/Source/ht-internal.h:328-345 | All entries, and no other, in new memory, each in the bucket of its hash |
| HashTable.Table.RehashBucket | LibEvent/Source/ht-internal.h:352-364 | The walk over one bucket sends away what does not belong, whether forwards or backwards, and ends |
| HashTable.Table.RehashInPlace | LibEvent/Source/ht-internal.h:346-366 | The same entries in the lengthened table, each in the bucket of its hash |
| HashTable.Table.Grow | LibEvent/Source/ht-internal.h:313-371 | Either way of rehashing keeps the bag of entries, puts each in its bucket and leaves more than the asked-for load; a size that reaches the last prime's limit leaves the table of primes, exactly unless the last one is in use or there is room already |
| HashTable.Table.NextRmv | LibEvent/Source/ht-internal.h:278-294 | Takes the entry out and gives the next one, skipping empty buckets only |
| HashTable.Table.Clear | LibEvent/Source/evmap.c:144-155 | Removing while iterating meets every entry exactly once and empties the table |
| HashTable.Run | LibEvent/Source/ht-internal.h:139-371 | Any run of insertions, removals and rehashes of both kinds refines a finite map |
| RateLimit.RefillIsCapped | LibEvent/Source/bufferevent_ratelim.c:73-109 | The update without overflow computes min(maximum, limit + n * rate) if and only if the limit is not above the maximum, or so far that the unsigned difference is below n * rate |
| RateLimit.AboveMaximumGrows | LibEvent/Source/bufferevent_ratelim.c:73-109 | A limit above its maximum for which it does not |
| RateLimit.RefillInRange | LibEvent/Source/bufferevent_ratelim.c:73-109 | Within the maximum no step leaves the range of a signed word |
| RateLimit.UpdatesCompose | LibEvent/Source/bufferevent_ratelim.c:73-109 | Two updates in a row equal one, across the wrap-around of the 32-bit tick counter |
| RateLimit.BandwidthBound | LibEvent/Source/bufferevent_ratelim.c:49-139 | Over any run of updates and charges the bytes charged are at most the first limit plus rate times ticks less the last limit |
| RateLimit.Bufferevent.Suspend | LibEvent/Source/bufferevent.c:66-99 | The reason is noted and the transport is off |
| RateLimit.Bufferevent.Unsuspend | LibEvent/Source/bufferevent.c:78-111 | The reason is gone, and the transport is on again when none is left and the program wants it |
| RateLimit.Bufferevent.DecrementBuckets | LibEvent/Source/bufferevent_ratelim.c:275-333 | The limit is charged or refunded, and the direction is suspended for bandwidth exactly when it has no tokens |
| RateLimit.Bufferevent.DecrementLimit | LibEvent/Source/bufferevent_ratelim.c:901-954 | The limit is charged; suspension and timer change on crossing zero and are as they were otherwise |
| RateLimit.Bufferevent.GetMax | LibEvent/Source/bufferevent_ratelim.c:200-260 | No more than the tokens there are after the update |
| RateLimit.Bufferevent.RefillCallback | LibEvent/Source/bufferevent_ratelim.c:396-441 | Directions with tokens are resumed, and the timer stays armed just while one has none |
| RateLimit.Bufferevent.SetRateLimit | LibEvent/Source/bufferevent_ratelim.c:559-635 | Limits as after initialization or clipping, suspended exactly without tokens |
| RateLimit.Run | LibEvent/Source/bufferevent_ratelim.c:275-635 | In every run a direction without tokens is suspended, whoever is suspended for bandwidth has the refill timer armed, and the transport is on just where nothing is in the way |
| RateGroup.Group.SuspendAll | LibEvent/Source/bufferevent_ratelim.c:352-371 | Every member that can be locked is suspended |
| RateGroup.SameMembers | LibEvent/Source/bufferevent_ratelim.c:445-483 | Going round the members from a random one meets each exactly once |
| RateGroup.Group.UnsuspendAll | LibEvent/Source/bufferevent_ratelim.c:487-503 | Every member that can be locked is resumed, and the pending flag is set exactly if some cannot |
| RateGroup.Group.Charge | LibEvent/Source/bufferevent_ratelim.c:298-307 | The group is suspended exactly when it has no tokens, and which members carry it |
| RateGroup.Group.Decrement | LibEvent/Source/bufferevent_ratelim.c:957-974 | The same on crossing zero only |
| RateGroup.Group.Share | LibEvent/Source/bufferevent_ratelim.c:230-255 | A late suspension and nothing while the group is suspended, else at least the fair and the minimal share |
| RateGroup.Group.RefillCallback | LibEvent/Source/bufferevent_ratelim.c:528-556 | Afterwards limits are those of the update, a suspension is kept exactly for lack of the minimal share, and lifting one is put off only for members that could not be locked; a side still without tokens is let go if and only if it is at 0 and so is the minimal share |
| RateGroup.Group.JoinSuspend | LibEvent/Source/bufferevent_ratelim.c:732-776 | The second half of joining carries out what the first half saw |
| RateGroup.Run | LibEvent/Source/bufferevent_ratelim.c:352-806 | With locks failing arbitrarily: a group that is not suspended while some member still carries its suspension has the pending flag set; a side without tokens is suspended at every moment of the run if and only if no refill finds one just at 0 with a minimal share of 0 |
| RateGroup.NoShareNoTokens | LibEvent/Source/bufferevent_ratelim.c:541-544 | With a minimal share of nothing a group with no token is let go |
| DnsRings.RingInsert | LibEvent/Source/evdns.c:2671-2684 | The links of a ring with one more at its tail |
| DnsRings.RingRemove | LibEvent/Source/evdns.c:2633-2667 | The links of a ring with one less, the head moved if it was that |
| DnsRequests.Base.Find | LibEvent/Source/evdns.c:479-493 | The request in flight with the id, or none exactly when there is none |
| DnsRequests.FreeId | LibEvent/Source/evdns.c:1304-1315 | With fewer requests in flight than ids one is free |
| DnsRequests.Base.TransactionIdPick | LibEvent/Source/evdns.c:1304-1315 | An id other than 0xffff that no request in flight has; it never ends, and no id is free, exactly with 65535 requests in flight |
| DnsRequests.Base.Submit | LibEvent/Source/evdns.c:2774-2788 | Into flight with a nameserver, else to the end of the queue |
| DnsRequests.Base.Pump | LibEvent/Source/evdns.c:734-759 | The first of the queue move into flight, the total is kept, the limit never passed by it; it stops when full, empty or without nameservers, and does not end exactly when there are nameservers, a limit above 65535 and more requests than that in all |
| DnsRequests.Base.Promote | LibEvent/Source/evdns.c:742-755 | One request moves from the queue into flight: it is the first one, it gets the id and the nameserver, and no other changes; it ends exactly with an id left |
| DnsRequests.Base.Finish | LibEvent/Source/evdns.c:648-697 | The request is gone and others may have taken its place; the same condition for not ending |
| DnsRequests.Base.Resolve | LibEvent/Source/evdns.c:2697-2788 | In flight exactly when there is room and a nameserver; does not end exactly with all ids taken and room left |
| DnsRequests.Base.Probe | LibEvent/Source/evdns.c:2293-2317 | In flight no matter how many are, as long as an id is left |
| DnsRequests.Base.SetMaxInflight | LibEvent/Source/evdns.c:3330-3358 | All requests in flight, and no others, in the buckets their ids lead to now |
| DnsRequests.FindsIt | LibEvent/Source/evdns.c:479-493 | The id of a request in flight finds that request |
| DnsRequests.Run | LibEvent/Source/evdns.c:479-3358 | In every run, whatever the limit, each live request is in exactly one ring, both counters count, requests in flight, at most 65535, sit in bucket id mod n with distinct ids and those waiting have no nameserver; an operation that does not end had all ids taken |
| EventLoop.Base.ActiveNolock | LibEvent/Source/event.c:2307-2345 | Activating something more urgent than what runs tells the loop to start over |
| EventLoop.Base.ProcessSingleQueue | LibEvent/Source/event.c:1330-1388 | Every callback starts with all more urgent queues empty, whatever earlier ones activate; the count is that of the program's callbacks |
| EventLoop.Base.ProcessActive | LibEvent/Source/event.c:1428-1453 | 0 only when nothing is left to do and no callback of the program ran |
| EventLoop.Loop | LibEvent/Source/event.c:1330-1453 | In every run, with internal events at priority 0, a callback of the program starts only when all queues before its own are empty, and as the first of its own |
| Ipv6.StrToL | LibEvent/Source/evutil.c:1741-1747 | The value of all hexadecimal digits there are |
| Ipv6.ScanQuad | LibEvent/Source/evutil.c:1713-1730 | Succeeds if and only if four bytes with dots between are there and nothing more, each perhaps behind blanks and a sign, and gives their two words |
| Ipv6.ScanInt | LibEvent/Source/evutil.c:1720-1722 | The number behind blanks and a sign, found if and only if one is there, and all its digits |
| Ipv6.ReadGroup | LibEvent/Source/evutil.c:1739-1754 | A group is read if and only if one is there, with a colon or the end behind it, and its value is that of its digits, an 0x left out |
| Ipv6.ParseGroups | LibEvent/Source/evutil.c:1735-1764 | Given the groups of any text the loop reads just these, and what it reads are the groups of a text, each with its value and the double colon in its place |
| Ipv6.Assembled | LibEvent/Source/evutil.c:1766-1780 | Opening the gap makes the groups the words of the address |
| Ipv6.Pton6 | LibEvent/Source/evutil.c:1701-1786 | A text is read if and only if it is one of groups, double colon and dotted quad as they are read, with a colon more or less behind its last group, and then as the address that text stands for; a text in which groups or the last byte of an IPv4 address are missing is refused |
| Ipv6.RfcText | LibEvent/Source/evutil.c:1701-1786 | The texts of section 2.2 of RFC 4291 are among these, with the values of their digits |
| Ipv6.PrefixRead | LibEvent/Source/evutil.c:1739-1741 | The text ::0x1, which is not one of that section and is read as the address ::1 |
| Ipv6.NumeralBack | LibEvent/Source/evutil.c:1606-1674 | A printed number has the value printed |
| Ipv6.LongestGap | LibEvent/Source/evutil.c:1634-1651 | The first of the longest runs of zeros, if longer than one, as section 4.2 of RFC 5952 asks |
| Ipv6.PrintGroups | LibEvent/Source/evutil.c:1653-1669 | The loop prints the text with the gap left out |
| Ipv6.Ntop6 | LibEvent/Source/evutil.c:1606-1674 | A well-formed text of the address that leaves out the first longest run; NULL when longer than the room, whole exactly when shorter, and cut by a character when just as long |
| Ipv6.RoundTrip | LibEvent/Source/evutil.c:1606-1786 | Every 128-bit address comes back from its text printed into any number of bytes if and only if that is more than the text is long |
| Tagging.EncodeInt | LibEvent/Source/event_tagging.c:115-148 | The bytes written are the code of the number |
| Tagging.NibblesLeft | LibEvent/Source/event_tagging.c:115-148 | Shifting nibbles out of a number leaves nothing exactly from its number of nibbles on |
| Tagging.IntBack | LibEvent/Source/event_tagging.c:306-341 | A 32-bit or 64-bit number is read back with its length in front of any bytes |
| Tagging.TagBack | LibEvent/Source/event_tagging.c:172-254 | A tag is read back with its length in front of any bytes |
| Tagging.DecodeTag | LibEvent/Source/event_tagging.c:195-233 | The tag at the front of the buffer and its length, drained if asked; -1 exactly when none of its bytes within the first five ends it, and whether the source would then read on past what it pulled up |
| Tagging.DecodeInt | LibEvent/Source/event_tagging.c:306-364 | The number at an offset and its length; -1 exactly when it is too long or cut off |
| Tagging.Marshal | LibEvent/Source/event_tagging.c:248-254 | The buffer grows by tag, length and payload |
| Tagging.UnmarshalHeader | LibEvent/Source/event_tagging.c:429-442 | Tag and payload length, as a signed 32-bit number, with the header drained; -1 exactly when the record is malformed or incomplete, or for the length 2^32 - 1 |
| Tagging.Unmarshal | LibEvent/Source/event_tagging.c:458-471 | The payload of the record at the front moves to the other buffer; -1 for a malformed or incomplete record and for a payload of 2^31 bytes or more |
| Tagging.RecordBack | LibEvent/Source/event_tagging.c:248-471 | A marshalled record is read back as it was, whatever follows |
| Tagging.StreamRoundTrip | LibEvent/Source/event_tagging.c:248-471 | Any list of records marshalled in order is unmarshalled as it was, with nothing left over |
| Tagging.UnmarshalInt | LibEvent/Source/event_tagging.c:476-525 | The integer in a record with the tag wanted, or -1 with the conditions |
| Tagging.IntRoundTrip | LibEvent/Source/event_tagging.c:268-288 | A 32-bit or 64-bit integer comes back from its record |
| DnsResponse.TrailingDot | LibEvent/Source/evdns.c:1586-1649 | A name with a trailing dot, which is written and read back without it |
| DnsResponse.WriteThenRead | LibEvent/Source/evdns.c:944-1649 | A name written and read again comes back as its labels up to the first empty one; it does come back when its labels and all of it are short enough |
| DnsWriter.PointerSpelled | LibEvent/Source/evdns.c:1612-1615 | A pointer to an offset below 0x4000 spells what is spelled there |
| DnsWriter.EndedMeans | LibEvent/Source/evdns.c:1607-1648 | Where a name ends or why it is refused, from its labels alone: -1 for a label over 63 bytes where there is still room, success exactly when every label is short and all but the final zero byte fits, up to a pointer in place of the first suffix the table knows |
| DnsWriter.ZeroOneTooFar | LibEvent/Source/evdns.c:1642-1646 | The final zero byte lies one past the buffer if and only if the table knows no suffix of the name, no label is too long, the last is not empty, and everything before that byte just fits |
| DnsWriter.ZeroPastTheEnd | LibEvent/Source/evdns.c:1642-1646 | The name a in a buffer of two bytes, of which a third is written |
| DnsResponse.AppendQuestion | LibEvent/Source/evdns.c:1904-1913 | A question is laid out as name, type and class, or the code that refuses its name, or no room |
| DnsResponse.SmallReplies | LibEvent/Source/evdns.c:1954-1958 | A reply whose names can be written and whose uncompressed form fits in 512 bytes is not truncated |
| Evbuffer.Evbuffer.AppendToLast | LibEvent/Source/buffer.c:1579-1588 | The last chain grows and the cached slot stays, wherever it leads; the invariant holds then if and only if it leads to that chain, or nothing is added and it held before |
| EvbufferGaps.AddedBehind | LibEvent/Source/buffer.c:1579-1588 | A byte added behind a reserved chain, for which the cached slot is wrong then |
| HashTable.PastThePrimes | LibEvent/Source/ht-internal.h:323-327 | An empty table asked for room for 805306370 entries, for which no prime is left |
| RateGroup.Group.RefillSide | LibEvent/Source/bufferevent_ratelim.c:541-548 | One side stays suspended exactly while it has less than the minimal share; who is resumed, and whether some could not be |
| RateGroup.Perform | LibEvent/Source/bufferevent_ratelim.c:352-806 | Any call keeps a side without tokens suspended unless it is a refill that finds it at 0 with a minimal share of 0, and then it does not |
| DnsRequests.FreeIdLeft | LibEvent/Source/evdns.c:1304-1316 | There is a free id if and only if fewer than 65535 requests are in flight, and there never are more |
| DnsRequests.AllIdsTaken | LibEvent/Source/evdns.c:1304-1316 | Probes alone lead to a state with no free id |
| Ipv6.CutIsOther | LibEvent/Source/evutil.c:1606-1786 | A printed text without its last character is a colon, or refused, or the text of another address |
| Ipv6.CutToZero | LibEvent/Source/evutil.c:1670-1673 | The address ::1 printed into three bytes, which is read as the address of all zeros |
| Tagging.UnfinishedTag | LibEvent/Source/event_tagging.c:213-224 | A tag does not end exactly when every byte says that another follows |
| Tagging.SixByteTag | LibEvent/Source/event_tagging.c:205-224 | A tag of six bytes, found in the whole but not in what is pulled up |
| DnsReader.LabelTurn | LibEvent/Source/evdns.c:978-986 | A label, and the dot before it, is copied behind the text so far, or the name does not fit |
| DnsReader.ParseTurn | LibEvent/Source/evdns.c:961-987 | One turn of the loop leaves what remains to be read the same, and the measure of pointers and bytes left goes down |
| EvChain.Chain.constructor | LibEvent/Source/buffer.c:155-189 | An empty chain with room for the size |
| EvChain.Chain.Append | LibEvent/Source/buffer.c:1561-1585 | The data held grows at its end |
| EvChain.Chain.Prepend | LibEvent/Source/buffer.c:1668-1692 | The data held grows at its front, out of the slack there |
| EvChain.Chain.Align | LibEvent/Source/buffer.c:1718-1726 | The data held is the same and starts at the front of the memory |
| EvbufferMove.AppendChain | LibEvent/Source/buffer.c:834-846 | Two runs of chains become one, with the cached fields of the joint list |
| EvbufferMove.PrependChain | LibEvent/Source/buffer.c:848-864 | The same at the front |
| EvbufferMove.TakeChains | LibEvent/Source/buffer.c:1126-1138 | From any state that meets the documented invariant: the chains that are covered whole, their total, and the cached slot moved off them; none of them is the last one with data, as the source asserts |
| EvbufferPullup.PullInto | LibEvent/Source/buffer.c:1248-1286 | The content stays, the target is first and holds what was asked for, and all cached fields are right, whichever flags were set |
| EvbufferSpace.InBounds | LibEvent/Source/buffer.c:707-716 | True exactly when the extents are the free space of successive chains |
| EvbufferSpace.CommitAll | LibEvent/Source/buffer.c:717-727 | Each chain grows by what lies in its extent, the content by all of it in order, and the cached slot follows |
| EvbufferSearch.SearchCrlf | LibEvent/Source/buffer.c:1467-1485 | The first LF, alone or behind a CR |
| EventMap.Base.GetOrConstruct | LibEvent/Source/evmap.c:616-644 | The place of the descriptor's change, a new empty one if there was none |
| EventMap.Base.MakeEntry | LibEvent/Source/evmap.c:202-223 | There is an entry for the descriptor, and no events come or go |
| EventMap.CloseKeeps | LibEvent/Source/changelist-internal.h:28-60 | A descriptor closed after all its events were deleted may vanish from the kernel's set between the changes |
| CondVar.Cond.Poll | LibEvent/Source/evthread_win32.c:252-252 | A thread comes out of its system call, with success only while the event is set |
| CommonTimeout.TagKeeps | LibEvent/Source/event.c:1091-1128 | Tagging and masking keep the time, and the tag names the queue |
| CommonTimeout.TimerBase.RemoveTimed | LibEvent/Source/event.c:2521-2557 | The event leaves the heap or the queue its timeout tells, and only that |
| CommonTimeout.TimerBase.InsertTimed | LibEvent/Source/event.c:2591-2630 | The event is where its timeout tells, and its queue driven unless it is the new head |
| CommonTimeout.TimerBase.Dequeue | LibEvent/Source/event.c:1338-1342 | The event that was first is no longer active and its callback is about to run |
| HashTable.Table.Detach | LibEvent/Source/ht-internal.h:210-213 | The contents without the entry, in both kinds of slot |
| RateLimit.Bufferevent.UpdateBucket | LibEvent/Source/bufferevent_ratelim.c:73-109 | Both limits refilled for the ticks gone by, or nothing when none or too many did |
| RateLimit.Bufferevent.InitBucket | LibEvent/Source/bufferevent_ratelim.c:49-70 | One tick's worth, or only clipped |
| RateLimit.Bufferevent.Enable | LibEvent/Source/bufferevent.c:407-427 | On at once only when nothing suspends the direction |
| RateLimit.Bufferevent.Disable | LibEvent/Source/bufferevent.c:498-510 | Off |
| RateGroup.Group.JoinList | LibEvent/Source/bufferevent_ratelim.c:754-763 | A member more, which has seen whether the group is suspended |
| RateGroup.Group.Leave | LibEvent/Source/bufferevent_ratelim.c:785-806 | A member less, with the group's suspension lifted from it |
| RateGroup.Group.SetCfg | LibEvent/Source/bufferevent_ratelim.c:669-697 | Limits clipped, the minimal share adjusted |
| DnsRequests.Base.RequestInsert | LibEvent/Source/evdns.c:2671-2684 | The links after insertion at the tail |
| DnsRequests.Base.RequestRemove | LibEvent/Source/evdns.c:2633-2667 | The links after removal |
| DnsRequests.Base.Reassign | LibEvent/Source/evdns.c:2171-2178 | Another nameserver, the same id and place |
| EventLoop.Base.Remove | LibEvent/Source/event.c:2521-2541 | The event is no longer active |
| Ipv6.FindQuad | LibEvent/Source/evutil.c:1705-1733 | Where the groups end: at the end, or at the digits of the dotted quad found there, and its words |
| Tagging.AddInt | LibEvent/Source/event_tagging.c:151-164 | The buffer grows by the code of the number |
| Tagging.AddTag | LibEvent/Source/event_tagging.c:172-192 | The buffer grows by the code of the tag |
| Tagging.MarshalInt | LibEvent/Source/event_tagging.c:268-288 | The buffer grows by a record of the number's code |

## Left out

- AllocSize: does not model allocation failure, also of chains longer than the most there can be, or the overflow of size_t; lengths are mathematical integers throughout.
- Chain memory is a sequence held in a field, zero when fresh; addresses of single bytes are pairs of chain and offset.
- Pinned, immutable, referenced and file-backed chains, evbuffer callbacks and their counters, locking of buffers, socket and file input and output.
- EvbufferRuns.PerformAll: its runs do not reserve space, as adding and moving may leave a cached slot wrong behind reserved chains; what each operation does there is said by itself, from any state that meets the documented invariant.
- ExpandSingle: does not model copying a chain into a larger one, which the source does only when the bytes would be more than a chain can hold.
- The library's assertions are on; without them (NDEBUG) the chains of which they demand to be empty are not looked at.
- `evbuffer_add_reference`, `evbuffer_add_printf`, `evbuffer_peek`, `evbuffer_readline`: plumbing over the members above.
- NameParse: bytes of a label past the end of the packet are arbitrary, as the source copies them before it looks; the packet has room for one label behind its length.
- Parsing of whole DNS messages, resolv.conf and hosts files, search lists (which pick an id before the queue is pumped), suspension and teardown of a base.
- DnsRequests.Base.Probe: the nameserver and id that `request_new` chooses first are overwritten at once and not modelled; round robin among nameservers is any choice among them.
- The random source of transaction ids is a stream of numbers in which every 16-bit value occurs.
- The interest set of the kernel is a map; descriptors are open and accept epoll; signals, edge-triggered events (which the delete by MOD drops) and debug mode.
- The hash-table form of the event map, `evmap_io_active`, epoll_wait itself.
- The minimum heap is a set with a least element; the order of active events with one priority is that of activation, and priorities are the subject of `EventLoop` alone.
- CommonTimeout.TimerBase.AddInternal: does not model the registration of descriptors and signals, the notification of other threads, or waiting for a running callback.
- Time is read where the source reads it and is a parameter there; the clock of `timeout_correct` may run backwards.
- CondVar.Cond.Check: does not model the shortened timeout of a further round, as the system decides when a wait times out; the generation counter is not bounded.
- HashTable: links are kept in a map from entry to entry, `HT_REPLACE` (which leaves the link of a fresh entry as it was) and `HT_FOREACH_FN` are not modelled, memory for the in-place way is always found, and the load factor is the 0.5 of the event map.
- RateLimit.Bufferevent.DecrementBuckets: the addition in an update is mathematical, so a limit that refunds lift near the end of the word does not wrap here; `event_add` succeeds.
- RateGroup: one group at a time; members of other groups join after they have left those.
- Ticks are given to the bucket as numbers; their computation from the time of day is not modelled.
- EventLoop: deferred callbacks, signals' repeated calls and the timers' part of the loop; internal events have priority 0, as the library sets them up.
- Ipv6.Pton6: numbers of a dotted quad are mathematical integers where `sscanf` has an int; IPv4 alone is not modelled.
- Tagging.DecodeTag: what the source finds past the bytes it pulled up stands as -1 here.
- Tagging: strings, time values and fixed-length records.
- OpenSSL, IOCP and filtering bufferevents, evrpc, HTTP, devpoll and event ports, logging.
