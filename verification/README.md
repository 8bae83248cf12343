# Verified model of the Matter-LwM2M bridge

The bridge translates between Matter (clusters, attributes, commands) and LwM2M (objects and
resources over CoAP). This project models the parts of it that decide whether a translation is
right, in Dafny 4.11, and proves properties of them for all inputs and all runs.

| file | what it models |
|---|---|
| `Strings.dfy` | splitting and joining strings, the section name of an sdf-mapping key |
| `Decimal.dfy`, `Uris.dfy` | `std::to_string`, `std::stoi`, resource URIs and CoAP targets |
| `Hex.dfy`, `Ip6.dfy`, `Rfc4291.dfy` | hexadecimal text, the text of an IPv6 address, and the text forms of section 2.2 of RFC 4291 |
| `Matching.dfy`, `BiMaps.dfy` | the bidirectional id tables and the mapping built from an sdf-mapping |
| `EndpointIds.dfy`, `EndpointTable.dfy`, `Endpoints.dfy` | the circular id search, the table of dynamic endpoints as a state machine, and the two functions on the heap |
| `Bindings.dfy`, `CoapServer.dfy`, `Translation.dfy` | work items and their dispatch, the CoAP resources and request handlers, and a Matter interaction end to end |
| `Mailbox.dfy`, `ReadHandler.dfy`, `ReadRuns.dfy` | the read protocol between the CoAP task and the Matter task, the handler that waits, and that the two agree |
| `ResponseWait.dfy` | the CoAP client's wait for a response |
| `Common.dfy`, `Sets.dfy` | machine integers, result types, sizes of sets |

`dafny verify dfyconfig.toml` checks everything.

## Assumptions about code that is not modelled

- The SDK's `emberAfSetDynamicEndpoint` answers "duplicate" exactly when the id is in use: by a
  registered dynamic endpoint, or among a fixed set of other ids. Otherwise it records the id at the
  index or answers with another error; which ids it refuses is a parameter of each call.
  `emberAfClearDynamicEndpoint` forgets the index.
- libcoap keeps one resource a path; adding a second one deletes the first. The path it hands to a
  handler is the text after the authority of the target.
- `esp_netif_htonl` reverses the bytes of a word (the ESP32 targets are little-endian), and `size_t`
  has 32 bits there.
- A `uint32_t` id passed as `int`, and back, is converted in two's complement.
- One assignment to `result_ptr`, one test of it, and one use of its value are each one step; nothing
  is assumed about their order across the two tasks. In the protocol of `Mailbox.dfy`, responses to a
  read have the type it asked for.

## What the model found

- With fewer than sixteen dynamic ids not taken by other endpoints, some run of adds never returns;
  with sixteen or more, every add returns (`NoRunHangsIff`).
- An add that finds a free slot changes the device's id even when the SDK refuses the new one. So the
  devices' reports go wrong exactly when a device that holds a registered slot is added while a slot
  is free (`EventKeepsReports`, `RunsReportTrulyIff`); two adds of one device do it
  (`AddedTwiceMisreports`). With no free slot the add changes nothing.
- After a refusal the counter stays on the refused id. Whatever other ids are free and whatever is
  removed, nothing more is registered exactly until the SDK accepts that very id in an add that finds
  a free slot; every add before that burns a slot until the table is full (`RefusedIdBlocks`,
  `RefusedAddsFillTable`). The first add of a run can bring this about (`FirstAddRefused`).
- A response that comes after its read has timed out is returned by the next read, and one of the
  other type can end that read in `std::bad_variant_access`; both happen in runs from the start
  (`LateAnswersHappen`, `CrashesHappen`), and in the handler's own loop (`LateAnswersReachHandler`,
  `CrashesReachHandler`), which can end a read exactly as the protocol can (`LoopIsProtocol`). They
  are excluded exactly when nothing is left over (`OwnAnswersIffClean`, `CrashIffOtherKindLeft`, and
  for the loop `WaitAnswersItselfIffClean`, `WaitThrowsIffOtherKindLeft`).
- A read from a clean start is sure to leave nothing over exactly when it has at most one binding, if it answers, and
  none, if it times out (`AnswerLeavesCleanIff`, `TimeoutLeavesCleanIff`). So a caller is safe that
  uses one binding a read and starts none after a timeout of a read with a binding
  (`CarefulRunsAnswerThemselves`).
- A resource that combines "E" with "R" or "W" offers execution alone (`DeclaredOperationsOffered`).
- A PUT on a resource of any type but "Boolean" and "Unsigned Integer" writes 0 whatever its payload
  (`RegisteredWrites`, `PayloadLostIff`).
- Because 0 prints as an empty field, `Ip6ToStr` writes a standard text form only for some sets of
  zero blocks; positions count from 0 (`TextIsStandardExactlyWhenPrintable`).
- While only responses of the requested type are about, a read leaves the size of its answer unset
  exactly when none arrives before its last sleep is over (`EndingOfOneKind`). With both types about,
  it does so exactly when up to some turn none is there after the sleep and from that turn on a bool
  found at the second look always gives way to a uint16_t before the third (`NoAnswerIff`,
  `AwaitResponse`). So a read can be left without an answer though every one of its turns finds a
  response; a run from the start ends so (`MixedTypesCanMissAll`).
- The comment of `ExtractBetweenSlashes` says it returns the last string between two slashes; for a
  key whose only slash comes first, the code returns everything after that slash, and the model
  follows the code (`ExtractIsSectionName`).

## Model

| member | source | states |
|---|---|---|
| `Strings.SplitString` | main/CoapServer.cpp:26-39 | the loop ends and returns the fields between the delimiters, in order |
| `Strings.JoinOfSplit` | main/CoapServer.cpp:26-39 | the fields hold no delimiter and join to the input |
| `Strings.FieldCount` | main/CoapServer.cpp:26-39 | one field more than delimiters |
| `Strings.SplitOfJoin` | main/CoapServer.cpp:26-39 | splitting the join of delimiter-free fields returns them |
| `Strings.SplitIsUnique` | main/CoapServer.cpp:26-39 | the result is the only list of delimiter-free fields that joins to the input |
| `Strings.ExtractIsSectionName` | main/include/BridgeUtils.h:128-146 | for every key: the second-to-last field if there are two slashes or more; with one slash nothing, unless it comes first, then all that follows (unsigned wrap); with none nothing |
| `Strings.SectionOfKey` | main/include/BridgeUtils.h:128-146 | a key made of a path, a section and a name names that section |
| `Decimal.StoiOfToString` | main/CoapServer.cpp:52-53 | reading a printed integer gives it back, or overflows exactly outside the range of int |
| `Decimal.StoiReads` | main/CoapServer.cpp:52-53 | white space, a sign, digits and then anything else reads as the number the digits stand for, or overflows |
| `Decimal.ToStringIsDecimal` | main/main.cpp:388-390 | the printed form is the one decimal writing of the number: digits only, no zero in front, a minus if negative |
| `Decimal.ToStringInjective` | main/main.cpp:552 | different integers print differently |
| `Uris.ParseOfUri` | main/CoapServer.cpp:51-53 | the ids in a printed URI are read back, for all ints |
| `Uris.UriFields` | main/main.cpp:552 | a URI has exactly three fields: the object id, 0 and the resource id |
| `Uris.UriInjective` | main/main.cpp:542-552 | different resources have different URIs |
| `Uris.PathOfTarget` | main/main.cpp:387-391 | the path of the target built for an interaction is the resource URI |
| `Uris.TargetIs` | main/main.cpp:387-391 | the whole text of a target, with scheme and authority |
| `Hex.DecToHexa` | main/BridgeUtils.cpp:6-42 | digit loop and in-place reversal, for odd, even and zero lengths, give the digits most significant first |
| `Hex.ReverseInPlace` | main/BridgeUtils.cpp:33-40 | the second loop of decToHexa, swapping from both ends, leaves the reversed text |
| `Hex.HexTextValue` | main/BridgeUtils.cpp:11-31 | for every int the digits evaluate to it, without leading zero; 0 is empty |
| `Hex.HexTextChars` | main/BridgeUtils.cpp:18-26 | only 0-9 and A-F occur exactly when the number is not negative |
| `Hex.HexTextLength` | main/BridgeUtils.cpp:11-31 | the length is the least k with the absolute value below 16^k |
| `Ip6.Ip6ToStr` | main/BridgeUtils.cpp:47-65 | the result is the eight blocks in hexadecimal, joined by colons |
| `Ip6.BlocksAreBytePairs` | main/BridgeUtils.cpp:49-56 | block k is made of bytes 2k and 2k+1 of the address in memory order |
| `Ip6.TextReadsBack` | main/BridgeUtils.cpp:47-65 | the text has eight fields and they recombine to the four words, for every address |
| `Ip6.Ip6TextInjective` | main/BridgeUtils.cpp:47-65 | different addresses have different texts |
| `Ip6.TextLength` | main/BridgeUtils.cpp:57-64 | between 7 and 39 characters |
| `Rfc4291.BlocksAreStandardExactlyWhenPrintable` | main/BridgeUtils.cpp:57-64 | eight printed blocks are a text form of section 2.2 of RFC 4291 exactly for the listed sets of zero blocks, and then of those blocks only |
| `Rfc4291.TextIsStandardExactlyWhenPrintable` | main/BridgeUtils.cpp:11-64 | the same for every address: which ones are printed in a form that reads back, and that none reads as another |
| `BiMaps.BiMap.Insert` | main/include/BridgeUtils.h:24-31 | the pair is added unless one of its ids is taken; the two maps stay exact inverses |
| `BiMaps.BiMap.GetIpsoId` | main/include/BridgeUtils.h:34-41 | the LwM2M id paired with the Matter id, -1 if there is none |
| `BiMaps.BiMap.GetMatterId` | main/include/BridgeUtils.h:44-51 | the Matter id paired with the LwM2M id, -1 if there is none |
| `BiMaps.BiMap.ValidIsMatching` | main/include/BridgeUtils.h:53-55 | a table is a partial bijection and its two maps have the same size |
| `Matching.GreedyIsFirstComeFirstServed` | main/include/BridgeUtils.h:24-31 | the table left by a list of pairs is the one matching among them in which every refused pair conflicts with an accepted pair before it |
| `Matching.AcceptedStays` | main/include/BridgeUtils.h:24-31 | later insertions never drop or alter an accepted pair |
| `Matching.GreedyIsMaximal` | main/include/BridgeUtils.h:24-31 | every offered pair shares an id with an accepted one |
| `Matching.GreedyIsHalfOptimal` | main/include/BridgeUtils.h:24-31 | no matching among the offered pairs has more than twice as many pairs as the table |
| `Matching.HalfIsReached` | main/include/BridgeUtils.h:24-31 | at every size some list of pairs reaches the factor two |
| `Matching.NothingRefused` | main/include/BridgeUtils.h:24-31 | every pair is kept exactly when the pairs are a partial bijection |
| `Matching.OrderIrrelevant` | main/include/BridgeUtils.h:24-31 | all orders of the pairs give the same table exactly when they are a partial bijection; then repetition does not matter either |
| `BiMaps.MatterIpsoMapping.Enter` | main/main.cpp:513-528 | an entry changes at most the table of its section, and only if it has both ids |
| `BiMaps.GenerateMatterIpsoMapping` | main/main.cpp:505-533 | the single loop leaves in each of the four tables what inserting the pairs of its own section alone, in order, leaves; sdfThing, unknown sections and incomplete entries change nothing |
| `BiMaps.PairsOfConcat` | main/main.cpp:510-527 | the entries of a section offer their pairs in the order of the entries |
| `BiMaps.SectionOrderIrrelevant` | main/main.cpp:510-527 | a section whose pairs are a partial bijection gives exactly those pairs, however the entries are ordered or repeated |
| `Common.ConversionsAreModular` | main/CoapServer.cpp:57-65 | the conversions between int and uint32_t keep the number modulo 2^32 and undo each other |
| `Bindings.DispatchSends` | main/BindingHandler.cpp:147-193 | all that a work item leads to: a write, a read, or exactly for cluster 6 and commands 0, 1 and 2 an invoke over a binding of its own sort |
| `EndpointIds.NextIsNextAt` | main/main.cpp:211-215 | the wrapping increment is one step around the circle of dynamic ids, for every counter value |
| `EndpointIds.SearchTakesNearestFree` | main/main.cpp:196-216 | the search ends exactly when a dynamic id is free, at the free id nearest in circular order, after at most one attempt more than there are used dynamic ids |
| `EndpointIds.FullRangeNeverEnds` | main/main.cpp:196-216 | with every dynamic id in use no attempt, however many are made, finds a free one |
| `EndpointTable.StepKeepsInv` | main/main.cpp:186-243 | every add and remove keeps: registered slots are occupied; registered ids are dynamic, not otherwise used and pairwise distinct; the counter is at least the first dynamic id |
| `EndpointTable.RunsKeepInv` | main/main.cpp:186-243 | the same after every run, refused adds included |
| `EndpointTable.SlotsTellHistory` | main/main.cpp:192-210 | in every run a slot is occupied exactly when the last event to touch it was an add, and registered exactly when that add succeeded, under the id it was given then |
| `EndpointTable.IdsTellHistory` | main/main.cpp:186-243 | in every run the counter is the id given by the last add to take a slot, registered or refused, and the first dynamic id if there was none; every device reports the id it was given last; nothing else changes them |
| `EndpointTable.AddTakesLowestSlot` | main/main.cpp:190-206 | a successful add takes the lowest free slot and changes no other slot or registration |
| `EndpointTable.AddTakesNearestId` | main/main.cpp:196-216 | an add that takes a slot gives the lowest free id from the counter on, or else the lowest free one; counter and device show it, and it is registered unless refused |
| `EndpointTable.EventKeepsReports` | main/main.cpp:190-243 | if every registered slot's device reports its id, this survives an event that returns exactly when the event does not add a device that holds a registered slot while a slot is free |
| `EndpointTable.RunsReportTrulyIff` | main/main.cpp:190-243 | the reports are true after every prefix of a run exactly when no event of it does that |
| `EndpointTable.AddedTwiceMisreports` | main/main.cpp:194-206 | a run from the start in which they are not: the same device added twice |
| `EndpointTable.RefusalWaits` | main/main.cpp:207-210 | a refusal leaves the counter on the refused id, which stays unused |
| `EndpointTable.FirstAddRefused` | main/main.cpp:190-210 | from the start a refusal can happen: the first add of a run, if the first dynamic id is free |
| `EndpointTable.WaitingAddFails` | main/main.cpp:196-210 | while that id is refused, an add fails at its first attempt and takes the lowest free slot without registering it |
| `EndpointTable.WaitingEvent` | main/main.cpp:186-243 | while that id waits, an event registers a slot exactly when it is an add that finds a free slot and is not refused the id; no event hangs |
| `EndpointTable.RefusedIdBlocks` | main/main.cpp:186-243 | no event of a continuation of the run registers a slot exactly when no add of it that finds a free slot is accepted at that id; until one is, the id waits on |
| `EndpointTable.RefusedAddsFillTable` | main/main.cpp:186-222 | each add of such a continuation burns a slot until the table is full |
| `EndpointTable.AddThenRemove` | main/main.cpp:186-243 | removing a device right after adding it restores slots and registry exactly when it held no lower slot |
| `EndpointTable.SearchEndsIff` | main/main.cpp:196-216 | in every reachable table the search ends exactly when fewer ids are registered than there are available |
| `EndpointTable.NoRunHangsIff` | main/main.cpp:186-222 | no add of any run hangs exactly when at least sixteen dynamic ids are available |
| `Endpoints.BridgeEndpoints.constructor` | main/main.cpp:694-696 | the start-up state: empty table, counter at the first dynamic id |
| `Endpoints.BridgeEndpoints.AddDeviceEndpoint` | main/main.cpp:186-222 | the nested loops take the table to the state the machine prescribes, and return the index at which the device is then registered under its id, or -1 and leave the registry; defined whenever the search ends |
| `Endpoints.BridgeEndpoints.Place` | main/main.cpp:190-216 | putting the device into the lowest free slot takes the table to the state the machine prescribes, refused or not |
| `Endpoints.BridgeEndpoints.Register` | main/main.cpp:194-216 | the inner loop ends at the first free id in circular order; a refusal leaves slot, counter and device id set |
| `Endpoints.BridgeEndpoints.RemoveDeviceEndpoint` | main/main.cpp:227-243 | the same for removal, with the error for a device that holds no slot; the counter stays |
| `CoapServer.Server.RegisterResource` | main/main.cpp:541-577 | the branches on R, W and E leave the handlers and the type of the definition at its URI |
| `CoapServer.Server.GenerateCoapResource` | main/main.cpp:538-578 | every path has the handlers of the last definition that registered it and the type of the last that declared it readable or writable; other paths are untouched |
| `CoapServer.LastDefiningIsLast` | main/main.cpp:541-577 | of the definitions that register a path, the one after which none does is the one that counts |
| `CoapServer.DeclaredOperationsOffered` | main/main.cpp:545-576 | with distinct ids, GET, attribute PUT and command PUT are offered iff R, W and E are declared, exactly when E is not combined with R or W; otherwise execution alone is offered |
| `CoapServer.DeclaredTypeRecorded` | main/CoapServer.cpp:243-275 | with distinct ids, an attribute's path has its declared type and a command's has none |
| `CoapServer.AttributeRequestsResolve` | main/CoapServer.cpp:45-73 | for every object, any request an attribute handler receives finds its type and recovers the ids of the definition that installed the handler: no lookup or conversion throws |
| `CoapServer.CommandRequestsResolve` | main/CoapServer.cpp:145-157 | the same for command handlers |
| `CoapServer.RegisteredSends` | main/CoapServer.cpp:45-114 | on the path of a registered object, what is sent depends on the ids and the type of the definition that installed the handler |
| `CoapServer.RegisteredWrites` | main/CoapServer.cpp:62-73 | the value a PUT on a registered path writes, for every payload: the bool for "Boolean", the uint16_t for "Unsigned Integer", and 0 for every other type |
| `CoapServer.CommandInvokesIff` | main/BindingHandler.cpp:97-113 | a command request invokes c exactly over a unicast binding, for cluster 6 and c = 0, 1 or 2, and sends nothing else |
| `CoapServer.PayloadLostIff` | main/CoapServer.cpp:67-73 | what a PUT on a registered path sends ignores its payload exactly when that definition has neither of the two known types |
| `CoapServer.Server.ForwardAttributeWriteMessage` | main/CoapServer.cpp:45-77 | succeeds exactly when the path reads as ids and has a type; the work item then writes to the translated cluster and attribute the payload as a bool, as a uint16_t, or 0, by the type |
| `CoapServer.Server.ScheduleAttributeRead` | main/CoapServer.cpp:83-114 | the same for a read, of the type recorded for the path |
| `CoapServer.Server.ForwardCommandMessage` | main/CoapServer.cpp:145-167 | succeeds exactly when the path reads as ids; sends command 0, 1 or 2 (Off, On, Toggle) of cluster 6 (OnOff) over a unicast binding and nothing else |
| `Translation.BuildAttributeTarget` | main/main.cpp:383-391 | the path of the target of a read or write reads as the translated ids |
| `Translation.BuildCommandTarget` | main/main.cpp:473-483 | the path of the target of a command reads as the translated ids |
| `Translation.MappedIdReturns` | main/include/BridgeUtils.h:34-51 | a mapped id translated there and back is itself, over all uint32_t ids |
| `Translation.UnmappedIdIsMinusOne` | main/include/BridgeUtils.h:34-51 | an unmapped id arrives as the uint32_t of -1 exactly when -1 is not an LwM2M id of another Matter id |
| `Translation.AttributeRoundTrip` | main/main.cpp:381-393 | translating, printing, taking the path, splitting, parsing, translating back and dispatching reads or writes the same cluster and attribute, with the value the type makes of the payload |
| `Translation.CommandRoundTrip` | main/main.cpp:470-487 | the same for commands; an invoke follows exactly for commands 0, 1 and 2 of cluster 6 over a unicast binding |
| `Translation.RegisteredAttributeRoundTrip` | main/CoapServer.cpp:45-114 | with an object's resources registered, a read or write of a mapped cluster and attribute is sent on to them as the type declared by the definition that installed the handler |
| `Translation.ListedAttributeRoundTrip` | main/main.cpp:505-533 | from the two mapping files, listing the same entries in any order with one-to-one pairs, every listed cluster and attribute is addressed by its own LwM2M ids and comes back as itself |
| `Translation.ListedCommandRoundTrip` | main/main.cpp:505-533 | the same for every listed cluster and command |
| `Translation.ListedToggleArrives` | main/main.cpp:470-487 | a listed OnOff cluster and a listed Toggle arrive as the invoke of command 2 |
| `Mailbox.RunsKeepInv` | main/CoapServer.cpp:113-138 | in every interleaving the mailbox and the responses under way belong to started reads and have their types |
| `Mailbox.NeverReadsNull` | main/CoapServer.cpp:123-132 | in every interleaving the value of result_ptr is never taken while it is null |
| `Mailbox.ReadEnds` | main/CoapServer.cpp:117-138 | polls and steps taken plus those left never exceed those left before, and the step that ends a read empties the mailbox |
| `Mailbox.EveryReadEnds` | main/CoapServer.cpp:117-138 | at most 10 polls and 32 steps a read, after which it is over; one that gives up has polled exactly 10 times |
| `Mailbox.OwnAnswersIffClean` | main/CoapServer.cpp:113-138 | the next read is sure to answer with a response of its own exactly when nothing of an earlier read is in result_ptr or under way |
| `Mailbox.CrashIffOtherKindLeft` | main/CoapServer.cpp:125-130 | the next read can end in bad_variant_access exactly when something of the other type is left |
| `Mailbox.EarlyResponseIsAnswered` | main/CoapServer.cpp:117-138 | in a read of one type, a response that is there before the tenth poll keeps it from giving up and from crashing, however it goes on |
| `Mailbox.LateAnswersHappen` | main/CoapServer.cpp:113-138 | from the start, for any two types: a run whose second read answers with the response to the first, which timed out |
| `Mailbox.CrashesHappen` | main/CoapServer.cpp:125-130 | from the start, for two different types: a run whose second read ends in bad_variant_access |
| `Mailbox.CarefulRunsAnswerThemselves` | main/CoapServer.cpp:113-138 | in every run from the start with at most one binding a read and no read after a timeout of one with a binding, reads answer with their own responses and nothing is left between them |
| `Mailbox.AnswerLeavesCleanIff` | main/CoapServer.cpp:116-138 | a read from a clean start that ends with an answer is sure to leave nothing behind exactly when it has at most one binding |
| `Mailbox.TimeoutLeavesCleanIff` | main/CoapServer.cpp:116-138 | a read from a clean start that times out is sure to leave nothing behind exactly when it has no binding |
| `ReadHandler.TextFitsAndReadsBack` | main/CoapServer.cpp:125-131 | a uint16_t is answered by its decimal writing, digits only and none to spare, of at most 5 characters; a bool by "0" or "1"; both fit the 40-byte buffer and read back as the value |
| `ReadHandler.Snprintf` | main/CoapServer.cpp:127-130 | stores what fits and a NUL, leaves the rest, returns the full length |
| `ReadHandler.EndingOfOneKind` | main/CoapServer.cpp:117-136 | with responses of one type about, the loop throws nothing, answers with that type, and ends without an answer exactly when none arrives before the last sleep is over |
| `ReadHandler.NoneSeenNoAnswer` | main/CoapServer.cpp:117-136 | whatever the types, it ends without an answer if none arrives by then |
| `ReadHandler.NoAnswerIff` | main/CoapServer.cpp:117-136 | whatever the types, it ends without an answer exactly when up to some turn nothing is there after the sleep and in every later turn a bool at the second look is replaced by a uint16_t before the third |
| `ReadHandler.ReadTask.Poll` | main/CoapServer.cpp:121-133 | one turn, with responses arriving before any of its looks at the pointer: answer, exception or neither, and what the buffer holds |
| `ReadHandler.ReadTask.AwaitResponse` | main/CoapServer.cpp:116-138 | ten turns at most; the answer fills the buffer and the size and the pointer is reset; a mismatch throws and leaves the pointer; the size is unset exactly when every turn misses, which with one type about means that no response arrives in time |
| `ReadHandler.ReadTask.ForwardAttributeReadMessage` | main/CoapServer.cpp:83-139 | the whole handler; an exception of the lookups comes before any wait and changes nothing; the size is unset exactly when every turn misses; while only responses of the requested type are about nothing is thrown later |
| `ReadHandler.TypedRead` | main/BindingHandler.cpp:163-169 | from a clean start, in every interleaving, "Boolean" is answered as 0 or 1 and every other type as the decimal writing of its uint16_t value |
| `ReadHandler.RegisteredRead` | main/CoapServer.cpp:83-138 | the same for a GET on a path of a registered object: the read is of the type its work item asks for, and the answer of the type its installing definition declares |
| `ReadRuns.AwaitIsARun` | main/CoapServer.cpp:116-138 | how the loop ends, with responses arriving before any of its looks, is an outcome of a run of the read protocol |
| `ReadRuns.LoopIsProtocol` | main/CoapServer.cpp:116-138 | and conversely: a read of the protocol can come to an answer, the end without one, or the exception exactly when the loop can end so with the same responses on their way |
| `ReadRuns.WaitAnswersItselfIffClean` | main/CoapServer.cpp:116-138 | the loop is sure to throw nothing and answer with the read's own responses exactly when nothing of an earlier read is left |
| `ReadRuns.WaitThrowsIffOtherKindLeft` | main/CoapServer.cpp:125-130 | the loop of a read of a given type can throw exactly when something of the other type is left |
| `ReadRuns.LateAnswersReachHandler` | main/CoapServer.cpp:113-138 | from the start, for any two types: arrivals with which the loop of the second read answers with the response to the first |
| `ReadRuns.CrashesReachHandler` | main/CoapServer.cpp:125-130 | from the start, for two different types: arrivals with which the loop of the second read throws |
| `ReadRuns.MixedTypesCanMissAll` | main/CoapServer.cpp:117-136 | from the start, for two different types and ten bindings each: arrivals with which the loop of the second read finds a response in every turn and yet ends without an answer |
| `ResponseWait.Client.WaitForResponse` | main/CoapClient.cpp:135-152 | the loop stops at the first call that brings the response or uses up the budget; with calls of a second each it times out at call number leisure, counted from 0, exactly when no earlier call brings the response |
| `ResponseWait.ConstantCalls` | main/CoapClient.cpp:139-147 | calls that all return the same use up that much each, and nothing if it is negative |
| `ResponseWait.ProgressEnds` | main/CoapClient.cpp:137-149 | if every call without a response returns at least 1, the wait ends, within as many calls as the budget has milliseconds |
| `ResponseWait.SilentWaitEndsIff` | main/CoapClient.cpp:137-149 | without a response the wait ends exactly when the returns add up to the budget |

## Left out

- CoAP sessions, PDUs, options, payload transfer and address resolution: calls into libcoap.
- The Matter SDK's binding table, sessions and interaction clients: a read is answered by any number of responses at any time; which bindings exist is not modelled.
- JSON and XML parsing, `ParseObjectDefinition` and the SDF/Matter converter: entries and definitions are given sequences.
- `CreateCustomDevice` and the endpoint macros; of `Device`, only the endpoint id is kept.
- The guards on the endpoint index in the attribute callbacks, and what a null `peer_device` does in `StateChangedHandler`.
- Data races below the level of one access to `result_ptr`, and lifetimes of C++ objects.
- Reinterpreting payload bytes: the two values a payload stands for are parameters.
- `Endpoints.BridgeEndpoints.AddDeviceEndpoint`: defined only when the inner loop ends; that it otherwise never ends is `EndpointIds.FullRangeNeverEnds`.
- `ResponseWait.Client.WaitForResponse`: defined only when the wait ends; when it does is stated by the two lemmas beside it.
- Buttons, LEDs, start-up order, delays, logging and generated configuration.
