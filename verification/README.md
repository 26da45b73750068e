# Verified models of the Telepresence core

Telepresence connects a developer's machine to a Kubernetes cluster. This project models the parts of it whose
correctness rests on state that is kept over many calls, on bit and byte arithmetic, or on text that is written by one
function and read by another, and proves what they promise for every input, every run and every interleaving.

| part | modules | what is proved |
|---|---|---|
| change notification (`pkg/cache`) | `CacheDelta`, `CacheProtocol`, `CacheEffects`, `CacheMap` | what each step does to entries, marks and channels; a client that follows the deltas converges to the filtered map in every run, exactly for filters that look at keys only; merging deltas is composition, and when it is not |
| shell quoting (`pkg/shellquote`) | `ShellQuote`, `ShellGrammar`, `ShellInert` | splitting a quoted command line gives back the arguments, for all strings; every line is split into the words that its writing stands for; a shell interprets nothing in a quoted argument |
| prefixes (`pkg/subnet`) | `IpPrefix`, `Bitfield`, `Covering`, `Subnets`, `FreeSubnet` | covering prefixes are tight, disjoint and complete; in-place removal of covered subnets; a found private subnet is free |
| routes and addresses (`pkg/vif`) | `Router`, `RouterState`, `RouterPaths`, `RouterObject`, `OwnedAddress` | after every run of updates the route table is exact, and through which device and gateway each route leads; addresses that devices own are distinct and in range |
| tunnel (`pkg/tunnel`) | `HalfClose`, `ConnId`, `Varint`, `Handshake`, `WireFormat`, `StreamConn`, `StreamReads` | each side is closed once at most in every interleaving, and which `Stop` disconnects; identifiers are keys; the handshake round trips, and which truncated messages are accepted; for which calls no byte is ever lost, repeated or reordered |
| sidecar configuration (`pkg/agentmap`, `pkg/agentconfig`) | `AgentConfig`, `AgentGenerator`, `AgentPorts`, `AgentOrigins`, `Base26`, `Interpolation`, `EnvValues` | which intercepts each container gets, and what they say; agent ports are shared exactly when container ports are; when they, and the proxy ports, are free; environment names never clash; the `$(NAME)` automaton agrees with a grammar, and for which texts a regular expression agrees with the automaton |
| intercept conflicts (`pkg/icept`, `pkg/matcher`) | `Matcher`, `Conflicts` | the syntactic conflict test against the requests that are matched, both ways |

Objects that the source updates in place are classes, and their methods are proved equal to functions on values
(`Abs`, `View`). The theorems are about those functions. A panic or a nil reference is a value of the result (`None`,
`NilContainer`, `Panicked`), except that the accessors of a connection id and `GetVersion` require an input that is long
enough for them. Bytes and port numbers are bounded integers, and wrap-around is written out as `% 65536` or a case
distinction. `Arithmetic` holds facts about division and powers, and `Wrappers` the optional value.

## Where the code does not do what it seems to promise

Each of these is a lemma below, together with the condition under which the promise holds: an if-and-only-if, but for
two regular expressions against each other.

- A subscription whose filter looks at the value does not converge: a value that leaves the filter is not reported
  (`LeavingTheFilterDiverges`, `ConvergesExactlyForKeyFilters`).
- `Delta.Merge` composes deltas unless the later one both stores and removes a key and there are removals already
  (`MergeComposesExactly`).
- `Router.Close` forgets the routes but not the routed subnets, so a later update does not add them again
  (`UpdateAfterCloseExactly`, `UpdateAfterClose`).
- Two prefixes of one network that are not masked share a route, and dropping one of them takes it from the other
  (`SameNetworkTwice`, `UpdateIsExactly`, `RunIsExactly`).
- `Stop` on a dialer that stays connecting closes nothing, it only cancels (`ConnectingIgnoresStop`,
  `EveryStopCancels`). When the dialer becomes connected in the middle of a `Stop`, that `Stop` can return with one side
  closed (`StraddlingStopClosesHalf`), unless it has its first swap still ahead (`StopInTimeExactly`).
- The handshake encoder has room for 56 bits and panics for a negative duration (`EncodableExactly`).
- The handshake decoder compares the length of a field with bytes that include the length itself. A message that lost
  the end of its session is then completed from the spare capacity of the slice, and accepted (`LastByteIsReplaced`,
  `TruncatedExactly`).
- A received connection id that holds two mapped addresses is not the reply to its own reply (`ReplyTwiceExactly`).
- A read that is cancelled leaves a receiver behind, and the message that it takes is lost
  (`CancelledReadLosesAMessage`, `DeliveredExactly`).
- A numeric port annotation that no container declares ends in a nil container (`FirstUndeclaredDecides`).
- The generator rejects a container that exposes the first agent port, but not the ports after it, so the agent can be
  told to listen to a port of the application (`NextPortClashes`, `AgentPortsAreFreeExactly`,
  `ProxyPortsAreFreeExactly`).
- The values of copied variables are rewritten by a regular expression that, unlike `prefixInterpolated`, also rewrites
  the escaped `$$(NAME)` and names with special characters (`EscapedIsRewritten`, `AgreeExactly`,
  `CopiedValueExactly`).
- The literal prefix of a regular expression such as `^/ab?` is not a prefix of everything that it matches, and
  overlaps are missed (`OptionalLiteralIsMissed`, `LiteralFiltersNotMissedExactly`, `NoOverlapIsMissed`).
- More than that is reported than can be contested: an expression that is not anchored is against everything, and every
  expression is against an empty equal filter, which no expression matches (`ReportedAgainstEqualExactly`,
  `UnanchoredIsReported`).
- Intercepts whose header names are not nested are never reported (`UnrelatedHeadersAreNotReported`,
  `ConflictExactly`).

## Model

| member | source | states |
|---|---|---|
| CacheDelta.Merge | pkg/cache/map.go:18-39 | the in-place merge of two deltas equals the specification `Merged`, with both key-at-a-time loops and both shortcuts for empty sides |
| CacheDelta.StoreAll | pkg/cache/map.go:22-24 | storing an entry at a time gives the union in which the later value wins |
| CacheDelta.DeleteAll | pkg/cache/map.go:25-27 | deleting a key at a time removes exactly the given keys |
| CacheDelta.MergeIsComposition | pkg/cache/map.go:18-39 | applying a merged delta is applying the two deltas one after the other, on every map, when the later one is disjoint |
| CacheDelta.MergeComposesExactly | pkg/cache/map.go:18-39 | that holds for all maps if and only if the later delta is disjoint or the earlier one removes nothing |
| CacheDelta.MergeKeepsDisjoint | pkg/cache/map.go:18-39 | merging deltas in which no key is both stored and removed gives such a delta |
| CacheDelta.MergeIsAssociative | pkg/cache/map.go:18-39 | a chain of unread deltas can be merged in any grouping |
| CacheProtocol.ComputeKeepsConsistent | pkg/cache/map.go:116-140 | a compute step keeps what relates every subscriber's replica to the snapshot, marked or not |
| CacheProtocol.DiffAdvances | pkg/cache/map.go:329-358 | replaying the filtered difference of two snapshots turns a copy of the first into a copy of the second |
| CacheProtocol.NotifyKeepsConsistent | pkg/cache/map.go:263-276 | serving the marked subscribers keeps that relation for every subscriber |
| CacheProtocol.StepKeepsConsistent | pkg/cache/map.go:83-140 | so does every step of server and client, for every subscriber with a key filter |
| CacheProtocol.SubscribeEstablishesConsistent | pkg/cache/map.go:83-105 | a new subscriber starts consistent, whatever the state |
| CacheProtocol.RunKeepsConsistent | pkg/cache/map.go:83-140 | and stays so in every run |
| CacheProtocol.EveryRunConverges | pkg/cache/map.go:252-327 | after any run before and after the subscription, once notified and drained the client holds the filtered map, up to equal values |
| CacheProtocol.LeavingTheFilterDiverges | pkg/cache/map.go:116-140 | a run in which a value leaves the filter and the client keeps it |
| CacheProtocol.EqualValuesDiverge | pkg/cache/map.go:116-140 | the same for two values that the comparison cannot tell apart |
| CacheProtocol.ConvergesExactlyForKeyFilters | pkg/cache/map.go:252-358 | every run converges if and only if the filter looks at keys only |
| CacheEffects.ComputeExactly | pkg/cache/map.go:116-140 | the function is given what the map holds for the key; the entry is deleted or replaced as it says, and a cancel or an equal value changes nothing at all |
| CacheEffects.ComputeMarksExactly | pkg/cache/map.go:116-140 | a change marks the subscribers whose filter includes the new or the deleted value, and no others |
| CacheEffects.SubscribeSendsAll | pkg/cache/map.go:83-105 | a new subscriber gets the entries that its filter includes, even if there are none |
| CacheEffects.NotifySendsTheChanges | pkg/cache/map.go:263-276 | a marked subscriber gets the included entries that are new, changed or gone since the snapshot, or nothing if there are none |
| CacheEffects.NotifyLeavesAlone | pkg/cache/map.go:263-276 | subscribers without a mark, entries and clients stay, and no mark is left |
| CacheMap.FilteredMap | pkg/cache/map.go:284-295 | the loop keeps exactly the entries that the filter includes |
| CacheMap.MakeFilteredDelta | pkg/cache/map.go:297-308 | the first delta is the whole snapshot without removals, later ones the difference, both filtered |
| CacheMap.Send | pkg/cache/map.go:310-327 | the subscriber's new state is that of the protocol: nothing for an empty delta, a merge with an unread one |
| CacheMap.FindUpserts | pkg/cache/map.go:334-342 | the entries that are new or changed between two snapshots |
| CacheMap.FindRemovals | pkg/cache/map.go:343-351 | the entries whose key is gone |
| CacheMap.Map.MarkSubscribers | pkg/cache/map.go:252-260 | exactly the subscribers whose filter includes the new entry are marked |
| CacheMap.Map.Compute | pkg/cache/map.go:116-140 | store, delete, cancel and the update to an equal value have the effect of the protocol step, and what that is for the entries |
| CacheMap.Map.CompareAndSwap | pkg/cache/map.go:145-154 | whether it swaps, and the entries afterwards |
| CacheMap.Map.LoadAndDelete | pkg/cache/map.go:157-200 | the entry is gone and was returned; a missing one changes nothing |
| CacheMap.Map.LoadAndStore | pkg/cache/map.go:204-249 | the value is stored, unless it is equal to the one that is there, which is returned |
| CacheMap.Map.LoadOrStore | pkg/cache/map.go:222-244 | an entry that is there stays and is returned, otherwise the value is stored |
| CacheMap.Map.MakeDelta | pkg/cache/map.go:329-358 | the difference to the previous snapshot, which is replaced |
| CacheMap.Map.Notify | pkg/cache/map.go:263-276 | sweeping until no mark is left has the effect of the protocol step |
| CacheMap.Map.Subscribe | pkg/cache/map.go:83-105 | a subscription is added and served, unless it is done already |
| CacheMap.ClientMap.Receive | pkg/cache/client.go:16-39 | a client applies the pending delta: upserts, then removals |
| ShellQuote.Unix | pkg/shellquote/shellstring.go:34-69 | the recursive quoting loop writes the specified quoted form |
| ShellQuote.ShellArgsString | pkg/shellquote/shellstring.go:135-144 | the quoted arguments, separated by single spaces |
| ShellQuote.ParseDQSegment | pkg/shellquote/shellstring_unix.go:21-47 | where a double-quoted segment ends and what it stands for, as a one-character-at-a-time lexer reads it |
| ShellQuote.ParseSQSegment | pkg/shellquote/shellstring_unix.go:48-56 | the same for a single-quoted segment |
| ShellQuote.ParseUQSegment | pkg/shellquote/shellstring_unix.go:58-80 | the same for an unquoted segment |
| ShellQuote.Split | pkg/shellquote/shellstring_unix.go:15-116 | segment-wise splitting equals the lexer's words, and fails exactly when the lexer ends inside quotes |
| ShellQuote.QuotedIsRead | pkg/shellquote/shellstring.go:34-69 | a quoted argument adds itself, and nothing else, to the word being read |
| ShellQuote.JoinedIsRead | pkg/shellquote/shellstring.go:135-144 | a joined command line is read as its arguments, the last one still open |
| ShellQuote.SplitUndoesShellArgsString | pkg/shellquote/shellstring_unix.go:15-116 | the words of a joined line are exactly the arguments, for all lists of strings |
| ShellQuote.RoundTrip | pkg/shellquote/shellstring.go:135-144 | the same of the two procedures run one after the other |
| ShellGrammar.LineIsRead | pkg/shellquote/shellstring_unix.go:15-116 | a line that is written as blanks, plain and escaped characters and quotations is split into the words that these stand for, and it is an error if and only if the last quotation has no end |
| ShellGrammar.EveryLineIsWritten | pkg/shellquote/shellstring_unix.go:15-116 | there is no other line |
| ShellGrammar.SplitAsWritten | pkg/shellquote/shellstring_unix.go:15-116 | the same of the procedure |
| ShellGrammar.DoubleQuotingIsUndone | pkg/shellquote/shellstring_unix.go:21-47 | any string between double quotes, with backslashes in front of double quotes, dollars and backslashes, is split into that string |
| ShellInert.QuotedIsInert | pkg/shellquote/shellstring.go:28-69 | outside of single quotes and escaped single quotes a quoted argument has no character that means something to a shell (section 2.2 of the POSIX shell command language) |
| IpPrefix.CoversExactly | pkg/subnet/subnet.go:119-143 | the comparison of bits and leading bytes means that every address of one prefix is in the other, and when it does not |
| IpPrefix.CoversIsSound | pkg/subnet/subnet.go:119-143 | a prefix that is covered has no address outside |
| IpPrefix.OverlapsMeansCommonAddress | pkg/subnet/subnet.go:198-200 | two prefixes overlap if and only if they share an address |
| Subnets.FindCover | pkg/subnet/subnet.go:91-92 | the inner loop finds a covering prefix at another position, if there is one |
| Subnets.DropKeeps | pkg/subnet/subnet.go:93-98 | dropping a covered prefix loses no address and keeps the checked part free of covered prefixes |
| Subnets.Unique | pkg/subnet/subnet.go:88-103 | the swap-with-last loop ends; what is kept is a sub-multiset, no kept prefix is covered by one at another position, and every input prefix lies inside a kept one |
| Bitfield.Mask | pkg/subnet/bitfield256.go:74-100 | the number of leading bits that all members share, their value, and two members that differ in the next bit |
| Bitfield.CommonBit | pkg/subnet/bitfield256.go:76-94 | whether all members agree on a bit, and on which value |
| Bitfield.ByteSets.SetBits | pkg/subnet/bitfield256.go:12-14 | each byte set gains exactly the given byte |
| Covering.Collect | pkg/subnet/subnet.go:34-57 | for every key the sets hold exactly the bytes that its addresses have at each position |
| Covering.TightPrefix | pkg/subnet/subnet.go:61-80 | the prefix that the byte sets give is the longest, up to the limit, that contains the whole group |
| Covering.TightPrefixes | pkg/subnet/subnet.go:59-82 | the prefixes are in order, one such prefix for each /16 or /64 group of the valid input addresses |
| Covering.CoveringPrefixes | pkg/subnet/subnet.go:17-83 | the result is in order, every valid input address lies in exactly one prefix, and every prefix of 16 to 24 or 64 to 120 bits contains exactly the inputs that share their first half with one of them, and could not be longer |
| Covering.BeforeExactly | pkg/subnet/subnet.go:78-81 | the order of two addresses is that of the first byte in which they differ |
| Covering.PrefixesAreDisjoint | pkg/subnet/subnet.go:17-83 | no address lies in two prefixes of the result |
| Covering.EveryAddressIsCovered | pkg/subnet/subnet.go:17-83 | every valid input address lies in a prefix of the result |
| Covering.EveryPrefixIsNeeded | pkg/subnet/subnet.go:17-83 | every prefix contains an input address |
| Covering.LengthIsGreatest | pkg/subnet/subnet.go:61-80 | every longer prefix, up to /24 or /120, misses an input address of the group |
| Covering.Insert | pkg/subnet/subnet.go:81-81 | insertion keeps the address order of the sort |
| FreeSubnet.IncIP4 | pkg/subnet/subnet.go:147-163 | the first address of the next block of 256, or the zero address at the end |
| FreeSubnet.CandidateIsPrivateExactly | pkg/subnet/subnet.go:184-197 | a candidate lies in its RFC 1918 range (section 3) if and only if it has at least as many bits as the range |
| FreeSubnet.KeptBlockSame | pkg/subnet/subnet.go:182-182 | checking the subset that `Unique` keeps is as good as checking all avoided prefixes |
| FreeSubnet.SearchRange | pkg/subnet/subnet.go:191-205 | the search ends; it finds the first free candidate, or all are blocked |
| FreeSubnet.RandomIPv4Prefix | pkg/subnet/subnet.go:171-207 | the first free candidate over all ranges, which is the first host of a private block of 256 addresses with the given bits, and an error only when every candidate overlaps an avoided prefix |
| FreeSubnet.FoundSubnetIsFree | pkg/subnet/subnet.go:171-207 | with 16 to 32 bits a found subnet is private and shares no address with any of the original avoided prefixes |
| OwnedAddress.AddrMinus | pkg/vif/owned_address.go:73-87 | byte-wise subtraction with borrow is subtraction modulo 2 to the number of bits |
| OwnedAddress.BroadcastAddr | pkg/vif/owned_address.go:60-70 | the value is the base of the prefix plus 2 to the number of host bits, minus one |
| OwnedAddress.MaskRoundsDown | pkg/vif/owned_address.go:60-70 | masking an address rounds its value down to a multiple of the size of the prefix |
| OwnedAddress.OwnedAddress | pkg/vif/owned_address.go:27-56 | from which range the address comes, when there is none, and that it lies in the upper half of the range, below the broadcast address, counted down by the interface index |
| OwnedAddress.OwnedAddressesDiffer | pkg/vif/owned_address.go:27-56 | two interfaces own the same address if and only if their indexes agree modulo one less than the upper half |
| OwnedAddress.OwnedCountDown | pkg/vif/owned_address.go:46-56 | index 0 owns the address below the broadcast address, and every next one the address below, until the index wraps around |
| OwnedAddress.UpperHalfIsOwned | pkg/vif/owned_address.go:46-56 | up to 63 host bits, every address of the upper half except the broadcast address is owned for some index |
| Router.MostSpecificRoute | pkg/vif/router.go:318-332 | the first of the longest routes of other devices that contain the address |
| Router.StaticRoutesGoWhereAsked | pkg/vif/router.go:230-241 | whatever path a static route takes, its destination is a subnet of the request |
| RouterState.UpdateKeepsInv | pkg/vif/router.go:154-258 | for masked subnets and exceptions that are not routed, after an update, with or without a default route, the table is one route for each requested subnet plus the static routes |
| RouterState.RunKeepsInv | pkg/vif/router.go:154-258 | for those, the same after every run of updates |
| RouterState.TableIsExact | pkg/vif/router.go:154-258 | for those, from an empty table, after every run the table is exact, the routed set is the last requested one, and `Close` leaves nothing |
| RouterState.RunRoutesTheLast | pkg/vif/router.go:162-184 | for any subnets the routed set is the last requested one |
| RouterState.SharedRouteExactly | pkg/vif/router.go:264-270 | two subnets have the same route if and only if they are spellings of one network |
| RouterState.UpdateIsExactly | pkg/vif/router.go:154-258 | for any subnets and exceptions, masked or not, an update of an exact table gives an exact table if and only if no subnet that stays is dropped under another spelling or has an old static route in its place, unless another spelling or a static route renews it |
| RouterState.RunIsExactly | pkg/vif/router.go:154-258 | the same for every run: the table is exact after each update if and only if each update meets that condition |
| RouterState.SameNetworkTwice | pkg/vif/router.go:162-196 | two spellings of one network: dropping one takes the route of the other |
| RouterState.UpdateAfterCloseExactly | pkg/vif/router.go:379-394 | for any subnets, an update after `Close` gives an exact table if and only if it renews, under another spelling or as a static route, every subnet that was routed and is requested again |
| RouterState.UpdateAfterClose | pkg/vif/router.go:379-394 | for masked subnets that is so if and only if it asks for none of the subnets that were routed |
| RouterPaths.NeverProxiedTakesItsWay | pkg/vif/router.go:223-236 | after an update every subnet that is not to be proxied has a route with the device, gateway and local address of its way: the default route, or for a local DNS server what the system answers, the most specific other route, or the default route |
| RouterPaths.OverrideGoesThroughDevice | pkg/vif/router.go:238-241 | every exception has a route through the own device |
| RouterPaths.EveryStaticIsAsked | pkg/vif/router.go:230-241 | there is no other static route |
| RouterPaths.FoundIsBest | pkg/vif/router.go:318-332 | what the search finds is a route of the table, not a default route or half of one, on another device, and none such is more specific |
| RouterPaths.NeverProxiedAvoidsDevice | pkg/vif/router.go:154-255 | in the whole table no route to a subnet that is not to be proxied leads through the own device, if the default route does not and it is no exception |
| RouterPaths.RequestedGoesThroughDevice | pkg/vif/router.go:264-270 | every requested subnet has a route through the own device, from the owned address of its family |
| RouterObject.Table.Add | pkg/routing/routing_linux.go:176-182 | the route is in the table |
| RouterObject.Table.Remove | pkg/routing/routing_linux.go:184-190 | the route, and no other, is gone |
| RouterObject.Partition | pkg/subnet/subnet.go:107-116 | both parts in order, by membership |
| RouterObject.RouterObject.CreateRoutesDelta | pkg/vif/router.go:353-365 | what to add and what to remove to get from the current static routes to the new ones |
| RouterObject.RouterObject.DropStaticOverrides | pkg/vif/router.go:367-377 | the table loses the static routes and they are forgotten |
| RouterObject.RouterObject.MakeStaticRoutes | pkg/vif/router.go:230-241 | the static routes of a request, in order |
| RouterObject.RouterObject.UpdateRoutes | pkg/vif/router.go:154-258 | the object's new state is that of the specification, on every path |
| RouterObject.RouterObject.Close | pkg/vif/router.go:379-394 | the routes of the routed subnets and the static routes are removed; the list of routed subnets stays |
| HalfClose.StepKeepsInv | pkg/tunnel/dialer.go:232-273 | one step of any goroutine keeps the relation between the state, the claims and the closes |
| HalfClose.ExecuteKeepsInv | pkg/tunnel/dialer.go:216-273 | so does every interleaving of any number of calls and of the store that makes the dialer connected |
| HalfClose.ClosedOnceAtMost | pkg/tunnel/dialer.go:216-273 | in every interleaving, from a dialer that is connecting or connected, each side is closed once at most, or the connection once without half-close |
| HalfClose.AgreementStays | pkg/tunnel/dialer.go:216-273 | once there is a connection, a goroutine that is past its dealings with a side has that side closed, in every interleaving |
| HalfClose.StopDisconnects | pkg/tunnel/dialer.go:216-236 | once a `Stop` that was started after the dialer became connected has returned, the dialer is not connected, whatever else is going on |
| HalfClose.StopInTimeExactly | pkg/tunnel/dialer.go:216-273 | when the dialer becomes connected in the middle of a `Stop`, every interleaving that follows ends disconnected if and only if the `Stop` has not gone past the first swap of the reader, or of the writer without half-close |
| HalfClose.StraddlingStopClosesHalf | pkg/tunnel/dialer.go:216-273 | a run in which a `Stop` returns, has called `CloseRead` only, and leaves the connection half closed |
| HalfClose.ClaimsAreHonoured | pkg/tunnel/dialer.go:238-273 | once all calls have returned, every side that was claimed has been closed |
| HalfClose.ConnectingIgnoresStop | pkg/tunnel/dialer.go:232-273 | as long as the dialer is connecting, every run of calls leaves state and connection alone |
| HalfClose.EveryStopCancels | pkg/tunnel/dialer.go:232-236 | in every interleaving, from every state, the cancel function has been called once for each `Stop` that has returned |
| HalfClose.SoloDisconnect | pkg/tunnel/dialer.go:253-273 | what an undisturbed disconnect makes of each state |
| HalfClose.Dialer.StartReaderDisconnect | pkg/tunnel/dialer.go:253-261 | the two swaps, and one `CloseWrite` if one of them succeeds |
| HalfClose.Dialer.StartWriterDisconnect | pkg/tunnel/dialer.go:263-273 | the two swaps, and one `CloseRead` if one of them succeeds |
| HalfClose.Dialer.StartDisconnect | pkg/tunnel/dialer.go:238-251 | one swap and a full close without half-close |
| HalfClose.Dialer.Stop | pkg/tunnel/dialer.go:232-236 | by itself it ends in not connected from every state but connecting, and it always cancels |
| ConnId.FamilyIsOneFamily | pkg/tunnel/connid.go:24-42 | the switch puts both addresses into one family, four bytes exactly when both are IPv4 in some form |
| ConnId.NewConnID | pkg/tunnel/connid.go:21-62 | filling the buffer at a moving offset gives the specified layout, nothing for an invalid address |
| ConnId.LayoutParts | pkg/tunnel/connid.go:46-61 | at which offsets of the id the addresses, the bytes of the ports and the protocol are |
| ConnId.IdRoundTrip | pkg/tunnel/connid.go:21-130 | there is an id exactly for valid addresses; it has 13 or 37 bytes, and the accessors return the unmapped input |
| ConnId.IdsAreKeys | pkg/tunnel/connid.go:21-62 | two ids are equal if and only if protocol, ports and unmapped addresses are |
| ConnId.CanonicalExactly | pkg/tunnel/connid.go:21-62 | which byte strings are the id of something |
| ConnId.CanonicalIsReencoded | pkg/tunnel/connid.go:69-130 | those are the ids of what the accessors read from them |
| ConnId.Reply | pkg/tunnel/connid.go:193-195 | the id of the exchanged parts, which always exists |
| ConnId.ReplyIsSwapped | pkg/tunnel/connid.go:193-195 | the reply of an id is the id of the connection seen from the other side |
| ConnId.ReplyTwiceExactly | pkg/tunnel/connid.go:193-195 | the reply to a reply is the id itself if and only if the id is canonical |
| Varint.PutUvarint | pkg/tunnel/message.go:126-128 | the buffer starts with the encoded number, and is too small exactly when the encoding is longer |
| Varint.Uvarint | pkg/tunnel/message.go:180-183 | the loop returns what the recursive decoder does, including its two errors |
| Varint.LengthExactly | pkg/tunnel/message.go:126-128 | a number needs at most n bytes if and only if it is below 128 to the n |
| Varint.IsRead | pkg/tunnel/message.go:180-183 | every 64-bit number is read back, with its length, whatever follows |
| Varint.Fits | pkg/tunnel/message.go:180-183 | whatever is read is a 64-bit number |
| WireFormat.DigitsExactly | pkg/tunnel/message.go:126-128 | byte i of a number is its digit of weight 128 to the i, with the high bit set in all but the last |
| WireFormat.BytesTakenExactly | pkg/tunnel/message.go:180-183 | how many bytes a number takes, when it is not complete and when it is too large, by the first byte without the high bit |
| Handshake.StreamInfoMessage | pkg/tunnel/message.go:122-146 | the message is its five fields in order, or nothing when one does not fit the buffer |
| WireFormat.OpeningMessage | pkg/tunnel/message.go:122-146 | the bytes of a message whose numbers are below 128 |
| Handshake.EncodableExactly | pkg/tunnel/message.go:126-145 | that is so if and only if a duration is negative or something needs more than 56 bits |
| Handshake.Stream.SetConnectInfo | pkg/tunnel/message.go:177-216 | the fields that are set and the outcome, also when decoding stops half way, for every content of the capacity behind the payload |
| Handshake.HandshakeRoundTrip | pkg/tunnel/message.go:177-216 | whatever can be encoded is read back exactly, into any stream and whatever is behind the payload |
| Handshake.MessagesDiffer | pkg/tunnel/message.go:122-146 | different contents have different messages |
| Handshake.TruncatedExactly | pkg/tunnel/message.go:177-216 | a proper prefix of a message is accepted if and only if the cut takes session bytes only, at most as many as the encoding of the session length has, and the spare capacity has that many, which then replace them |
| Handshake.LastByteIsReplaced | pkg/tunnel/message.go:209-214 | a message without its last byte and one spare byte: accepted, with that byte in the session |
| Handshake.StreamOKMessage | pkg/tunnel/message.go:148-152 | the encoded version always fits the four bytes |
| Handshake.GetVersion | pkg/tunnel/message.go:169-172 | the decoded number, cut to 16 bits |
| Handshake.AnswerRoundTrip | pkg/tunnel/message.go:148-172 | the version that is answered is the version that is read, for all 16-bit versions |
| StreamConn.Conn.ReadMore | pkg/tunnel/stream_conn.go:48-85 | the new state after a message, an error, a passed deadline or a cancelled wait |
| StreamConn.Conn.Read | pkg/tunnel/stream_conn.go:87-118 | the bytes in the buffer, the rest of the buffer untouched, and the new state |
| StreamReads.ReadInHand | pkg/tunnel/stream_conn.go:87-118 | bytes in hand are returned without a wait, as many as the buffer takes |
| StreamReads.ReadNothing | pkg/tunnel/stream_conn.go:87-118 | a wait that fails returns nothing but the error and takes nothing, and only a cancelled one leaves a receiver behind |
| StreamReads.ReadNext | pkg/tunnel/stream_conn.go:87-118 | of the next message as much is returned as the buffer takes |
| StreamReads.ReadBehindEmpty | pkg/tunnel/stream_conn.go:87-118 | one message without a payload is skipped |
| StreamConn.ReadKeeps | pkg/tunnel/stream_conn.go:87-118 | what a read returns is what disappears from the front of the unread bytes, however it ends |
| StreamConn.RunConserves | pkg/tunnel/stream_conn.go:48-118 | over every run, bytes returned, swallowed and unread add up, and keep their order when nothing is swallowed |
| StreamConn.DeliveredExactly | pkg/tunnel/stream_conn.go:48-118 | for a list of calls, every interleaving with the abandoned receivers delivers all bytes in order, or still has them, if and only if at no point of the undisturbed calls one of the first messages of the queue, as many as receivers were abandoned, has a payload |
| StreamConn.SafeLosesNothing | pkg/tunnel/stream_conn.go:66-80 | a disturbed run stays in step with the undisturbed one, or has nothing left to lose |
| StreamConn.UnsafeLoses | pkg/tunnel/stream_conn.go:66-80 | otherwise there is an interleaving that loses a payload |
| StreamConn.NeverCancelledIsSafe | pkg/tunnel/stream_conn.go:66-80 | calls that are not cancelled meet the condition |
| StreamConn.CancelledReadLosesAMessage | pkg/tunnel/stream_conn.go:66-80 | a cancelled read and the next message, which is lost |
| StreamConn.EverythingIsRead | pkg/tunnel/stream_conn.go:87-118 | enough calls with any non-empty buffers return the whole stream |
| Interpolation.PrefixInterpolated | pkg/agentconfig/container.go:376-437 | the automaton's result is that of the grammar, for all strings |
| Interpolation.NoPrefixNoChange | pkg/agentconfig/container.go:376-437 | the empty prefix changes nothing |
| Interpolation.PrefixesCompose | pkg/agentconfig/container.go:376-437 | prefixing with p and then q is prefixing with q + p when p has none of the three special characters |
| Base26.AddBase26 | pkg/agentmap/capsbase26.go:14-27 | filling the buffer backwards gives the base-26 digits and never leaves it, for all 64-bit numbers |
| Base26.FourteenDigits | pkg/agentmap/capsbase26.go:15-15 | the 14 bytes are needed |
| Base26.DigitsAreInjective | pkg/agentmap/capsbase26.go:4-27 | different numbers have different digits |
| EnvValues.MatchesExactly | pkg/agentconfig/container.go:439-439 | the expression matches at a place if and only if a `$(`, a name that is not empty and has no `)`, and a `)` stand there |
| EnvValues.LeftmostIsReplaced | pkg/agentconfig/container.go:439-446 | the leftmost match gets the prefix, and the search goes on behind it |
| EnvValues.NoMatchNoChange | pkg/agentconfig/container.go:439-446 | a text without a match stays as it is |
| EnvValues.AgreeExactly | pkg/agentconfig/container.go:376-446 | with a prefix that is not empty and has no special characters, the expression makes of a text what the automaton does, if and only if no match is escaped by a `$` and every name in a match is free of special characters |
| EnvValues.EscapedIsRewritten | pkg/agentconfig/container.go:376-446 | an escaped reference is left alone by the automaton and rewritten by the expression |
| Base26.AppendAppContainerEnv | pkg/agentconfig/container.go:441-450 | each name gets the container's prefix and each value is rewritten with it, in order, behind what is there |
| Base26.CopiedValueExactly | pkg/agentconfig/container.go:376-450 | the value of a copied variable is the automaton's if and only if no match in it is escaped or has a name with special characters |
| Base26.CopiedNamesDiffer | pkg/agentconfig/container.go:441-458 | two copied names are equal if and only if container and original name are |
| Base26.PrefixIsClean | pkg/agentconfig/container.go:441-443 | a container's prefix can be composed with others by the rewriting |
| AgentConfig.FindContainerMatchingPort | pkg/agentmap/discorvery.go:259-306 | the first port that a service port targets, the first container without ports as a last resort, otherwise there is none |
| AgentConfig.FindContainerPort | pkg/agentmap/generator.go:301-316 | the first port with the name or number and protocol, never in the traffic-agent |
| AgentGenerator.FilterServicePorts | pkg/agentmap/generator.go:391-421 | all ports, or those that the annotations select, in the order of the annotations |
| AgentGenerator.Generator.AgentPortNumber | pkg/agentmap/generator.go:125-134 | a known container port keeps its agent port, a new one gets the next |
| AgentGenerator.Generator.AppendAgentContainerConfigs | pkg/agentmap/generator.go:212-263 | the intercepts of a service are placed as specified |
| AgentGenerator.Generator.AppendServiceLess | pkg/agentmap/generator.go:318-373 | the intercepts without a service; the status that is returned tells both ways to fail apart |
| AgentGenerator.Generator.AppendOthers | pkg/agentmap/generator.go:167-175 | containers that have no configuration yet get one |
| AgentGenerator.Generator.Generate | pkg/agentmap/generator.go:92-201 | the generated configuration and the returned status are the specified ones, on every path |
| AgentGenerator.Exposes | pkg/agentmap/generator.go:104-117 | whether a container exposes the agent's port |
| AgentPorts.GeneratedKeepsInv | pkg/agentmap/generator.go:125-175 | in every generated sidecar agent ports are consecutive, agree with the intercepts and belong to one, prefixes follow the position, and names are distinct |
| AgentPorts.GeneratedExactly | pkg/agentmap/generator.go:104-163 | there is a sidecar if and only if no container exposes the agent's port and every annotated container port is declared |
| AgentPorts.FirstUndeclaredDecides | pkg/agentmap/generator.go:328-344 | the first undeclared port decides how it fails |
| AgentPorts.SharedExactly | pkg/agentmap/generator.go:125-134 | two intercepts share an agent port if and only if they share a container port, even when port numbers wrap around |
| AgentPorts.InterceptTarget | pkg/agentconfig/sidecar.go:236-254 | all intercepts of the port and protocol in the first container that has one, in order, and no container before has any |
| AgentPorts.NewInterceptTarget | pkg/agentconfig/intercepttarget.go:23-39 | when the parameter assertion holds |
| AgentPorts.LookupIsTarget | pkg/agentconfig/sidecar.go:236-254 | on a generated sidecar it holds for whatever a lookup finds |
| AgentPorts.PortUniqueIntercepts | pkg/agentconfig/util.go:35-46 | the loop with its set of keys keeps the first intercept of each |
| AgentPorts.UniqueRepresents | pkg/agentconfig/util.go:35-46 | no agent port and protocol is dropped |
| AgentPorts.UniqueIsUnique | pkg/agentconfig/util.go:35-46 | none is repeated |
| AgentPorts.UniqueIsFirst | pkg/agentconfig/util.go:35-46 | what is kept is the first intercept of its agent port and protocol |
| AgentPorts.UniqueByContainerPort | pkg/agentconfig/util.go:31-46 | on a generated sidecar no container port and protocol is repeated either |
| AgentPorts.NumberOfPossibleIntercepts | pkg/agentconfig/util.go:55-60 | the sum over the containers |
| AgentPorts.AgentPortsAreCounted | pkg/agentconfig/util.go:48-60 | a generated sidecar has not more agent ports than intercepts |
| AgentPorts.ProxyPortsDiffer | pkg/agentconfig/util.go:51-53 | proxy ports are equal if and only if the agent ports are |
| AgentPorts.ProxiesAreDisjointExactly | pkg/agentconfig/util.go:48-60 | no proxy port is an agent port if and only if the two blocks do not meet around the end of the port range |
| AgentPorts.ProxiesAreDisjoint | pkg/agentconfig/util.go:48-60 | in particular when no port number overflows |
| AgentPorts.InterceptorInactivePort | pkg/agentconfig/sidecar.go:266-272 | the proxy port when a target is numeric, else the container port |
| AgentPorts.NoRedirectLoop | pkg/agentconfig/sidecar.go:256-272 | then it is no agent port, and each container port has its own |
| AgentPorts.FilteredExactly | pkg/agentmap/generator.go:391-421 | a service port passes the filter if and only if the service has it and an annotation selects it, or there are none |
| AgentPorts.WantedIsMapped | pkg/agentmap/generator.go:119-163 | the generator maps exactly the container ports that the selected service ports lead to and the annotations ask for, for every pod |
| AgentPorts.AgentPortsAreFreeExactly | pkg/agentmap/generator.go:104-163 | for every accepted pod, no agent port is a port that the application exposes if and only if those ports are as far above the first agent port, around the port range, as the pod wants ports to be intercepted |
| AgentPorts.ProxyPortsAreFreeExactly | pkg/agentconfig/util.go:48-60 | the same for the proxy ports, which start where the number of intercepts of the sidecar puts them |
| AgentPorts.NextPortClashes | pkg/agentmap/generator.go:104-134 | a pod that is accepted, and whose second agent port is a port of its container |
| AgentPorts.VariablesNeverClash | pkg/agentmap/generator.go:265-299 | variables of two containers of a generated sidecar never get the same name, whatever the names were |
| AgentPorts.EveryContainerIsConfigured | pkg/agentmap/generator.go:165-175 | every container except the traffic-agent has exactly one configuration |
| AgentOrigins.ConfiguredExactly | pkg/agentmap/generator.go:165-175 | a container is configured if and only if it is one of the pod and not the traffic-agent |
| AgentOrigins.TargetedExactly | pkg/agentmap/discorvery.go:259-306 | which container port a service port means, by the kind of its target |
| AgentOrigins.SelectionExactly | pkg/agentmap/generator.go:391-421 | which service ports an annotation selects |
| AgentOrigins.IdentifiedExactly | pkg/agentmap/generator.go:301-316 | which container port an annotation means |
| AgentOrigins.InterceptsFollowOrigins | pkg/agentmap/generator.go:212-373 | in every generated sidecar the intercepts of a container are, one for one and in order, those of the service ports and annotations that lead to it, with the service, the names, the numbers and the protocol of these |
| AgentOrigins.ServiceOriginExactly | pkg/agentmap/generator.go:212-263 | a service port is among these if and only if the service has it, the annotations admit it, and it leads to a container of this name, which is not the traffic-agent |
| AgentOrigins.AnnotationOriginExactly | pkg/agentmap/generator.go:318-373 | an annotation is if and only if it leads to the container, no service port leads to the same port of it, and no annotation before does |
| AgentOrigins.InactivePortExactly | pkg/agentconfig/sidecar.go:256-272 | where traffic that is not intercepted goes, from the pod alone |
| Matcher.SplitPath | pkg/matcher/paths.go:16-25 | marker and rest make up the filter if it starts with two colons around something without a colon; otherwise it is taken whole |
| Matcher.MarkersAreRead | pkg/matcher/paths.go:27-38 | the three markers give the three kinds of matcher, what follows is taken as it is, and an expression that does not compile is a text |
| Matcher.HeaderFilterIsRead | pkg/matcher/value.go:71-100 | a header filter is an expression if and only if it compiles and has a character with a meaning |
| Matcher.NewHeaders | pkg/matcher/headers.go:32-38 | every canonical name is there, with the value of one of its filters |
| Matcher.ResolutionIsUnique | pkg/matcher/headers.go:27-38 | with distinct canonical names the order of iteration does not matter |
| Conflicts.RegexLiteralPrefix | pkg/icept/conflicts.go:132-153 | what is in front of the first character with a meaning |
| Conflicts.ValuesAreSymmetric | pkg/icept/conflicts.go:39-90 | the test of two values does not depend on their order |
| Conflicts.LiteralOverlapExactly | pkg/icept/conflicts.go:45-60 | two values without regular expressions pass if and only if something matches both |
| Conflicts.NoOverlapIsMissed | pkg/icept/conflicts.go:39-128 | no overlap of two values is missed when nothing that they match departs from their literal prefixes and one of them matches nothing shorter |
| Conflicts.LiteralFiltersNotMissedExactly | pkg/icept/conflicts.go:81-128 | for one regular expression, no overlap with an equal or prefix filter, or with an expression whose matches start with its literal prefix, is missed if and only if nothing that it matches departs from its own |
| Conflicts.OptionalLiteralIsMissed | pkg/icept/conflicts.go:62-79 | a family of expressions for which that is not so, and whose overlap is missed |
| Conflicts.ReportedAgainstEqualExactly | pkg/icept/conflicts.go:94-112 | an expression against an equal filter is reported if and only if something matches both, or the filter is empty, or the expression is not anchored |
| Conflicts.DecidedExactly | pkg/icept/conflicts.go:39-112 | two values pass if and only if something matches both, without expressions and for an anchored one against a non-empty equal filter |
| Conflicts.ReportedAgainstPrefixExactly | pkg/icept/conflicts.go:62-128 | anchored expressions are reported against prefixes, and against each other, if and only if something starts with both literal texts |
| Conflicts.UnanchoredIsReported | pkg/icept/conflicts.go:62-128 | an expression that is not anchored is reported against everything |
| Conflicts.LiteralPrefixExactly | pkg/icept/conflicts.go:132-153 | the literal text of an anchored expression ends in front of the first character with a meaning |
| Conflicts.PathFiltersOverlap | pkg/icept/conflicts.go:17-26 | whether some pair of path filters passes the test |
| Conflicts.IsHeaderSubset | pkg/icept/conflicts.go:198-206 | whether every header of one is in the other with a value that passes |
| Conflicts.IsInConflict | pkg/icept/conflicts.go:227-273 | the rules in their order give the specified decision |
| Conflicts.ConflictIsSymmetric | pkg/icept/conflicts.go:227-273 | it does not matter which intercept came first, for all filters |
| Conflicts.CommonPathExactly | pkg/icept/conflicts.go:17-112 | for filters that the test decides, some path is matched by both lists if and only if they overlap or one is empty |
| Conflicts.ContestedIsReported | pkg/icept/conflicts.go:208-273 | a request that two compared intercepts match is reported, with regular expressions too if all that they match starts with their literal prefixes |
| Conflicts.ReportedIsContested | pkg/icept/conflicts.go:227-273 | a reported conflict of such filters, each of which matches something, has a request that both match |
| Conflicts.PlainIsDecided | pkg/icept/conflicts.go:39-60 | filters without regular expressions are of this kind |
| Conflicts.ConflictExactly | pkg/icept/conflicts.go:208-273 | for such filters a conflict is reported if and only if the intercepts are compared at all and some request is matched by both |
| Conflicts.PathConflictExactly | pkg/icept/conflicts.go:226-273 | with paths only, if and only if some path is matched by both |
| Conflicts.UnrelatedHeadersAreNotReported | pkg/icept/conflicts.go:249-260 | two literal headers of different names: a request carries both, and nothing is reported |

## Left out

- Cache: unsubscribing, closing of channels, the delay of notifications, races below the level of one `Compute`, `notify` or receive, and the sharing of Go maps between snapshots. `LoadAll` and `LoadMatching` are easy members.
- CacheMap.Map.Notify: sweeps run without interruption, so a `Compute` between two sweeps is a step after the call.
- Shell quoting for Windows. Positions count characters, where the source counts bytes.
- `ClearBit`, `GetBit`, `Equals`, `OnesCount` and `ToSlice` of the bitfield, and `IsHalfOfDefault`: easy members.
- Covering.CoveringPrefixes: the two loops over IPv4 and IPv6 bytes share one model, and `sort.Slice` is modelled as repeated insertion.
- FreeSubnet.RandomIPv4Prefix: the prefixes of the network interfaces are a parameter.
- OwnedAddress.OwnedAddress: the configured subnets are parameters.
- Routers of other systems than Linux, route table operations that fail, `ValidateRoutes` and `Routes`.
- RouterState.UpdateKeepsInv: for masked subnets and exceptions that are not routed as well; `UpdateIsExactly` is the statement for all.
- RouterState.RunKeepsInv: the same; `RunIsExactly` is the statement for all.
- RouterState.TableIsExact: the same; `RunIsExactly` is the statement for all.
- RouterState.UpdateAfterClose: the same; `UpdateAfterCloseExactly` is the statement for all.
- RouterPaths.NeverProxiedAvoidsDevice: for masked subnets, too; the own device is told by its name, as the search of the table does.
- RouterObject.Table.Add: the kernel's refusal of a route that exists is not modelled; the source logs it and goes on.
- RouterObject.Table.Remove: neither is the error for a route that is missing.
- Dialer loops, timeouts and the network; HalfClose starts its interleavings from a dialer that is connected, or connecting with a connection that is known to support half-close or not, and a dial that fails is no step.
- Zones of IPv6 addresses, and the textual forms of connection ids.
- StreamConn.Conn.Read: deadlines, cancellation and errors are parameters that say how a wait ends; writing is not modelled.
- EnvValues.AgreeExactly: for prefixes without special characters, as those of all containers are; the replacement template would expand a `$` in a prefix.
- AgentGenerator.Generator.Generate: mount policies, replace policies, service identifiers and application protocols of a sidecar are not modelled, annotations are given parsed, and container ports are 16-bit numbers as Kubernetes validates them.
- Conflicts.ConflictExactly: for filters that the test decides; for other regular expressions what is reported is stated value by value, because what they match is not known.
- Conflicts.NoOverlapIsMissed: regular expressions are an opaque engine; for two of them against each other the condition goes one way, because what else they match is not known.
- Matcher: the request given as a map, the textual forms of matchers; header names in a request are canonical.
- Commands, gRPC services, Kubernetes watches, DNS, mounts, Helm charts and configuration merging: outside the scope of these models.
