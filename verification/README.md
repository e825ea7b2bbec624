# SPR presence: a verified model

This project models the two halves of the SPR integration for Home Assistant and proves what they promise.

On the router, a Go plugin polls SPR, merges who is connected from the topology endpoint or from station lists and
the ARP table, keeps the time each device was last seen, publishes a snapshot, and pushes connect and disconnect
events to subscribers. Bus handlers record sightings and wake the poll loop at any moment. In Home Assistant, a
coordinator polls the plugin, keeps a device home for a grace period, drops deleted devices, and creates one entity
per address.

| file | what it holds |
|---|---|
| `Common.dfy`, `Text.dfy` | options, map reads, last-writer maps, trimming, string order, hardware addresses |
| `Version.dfy` | release versions, the newest tag, the hourly cache |
| `Presence.dfy` | the presence loops and what being connected means |
| `Devices.dfy`, `Orders.dfy` | the device loop, sorting, when the order of a map shows |
| `Traffic.dfy` | byte accounting, conservation, rates |
| `Store.dfy`, `Fetch.dfy`, `Refresh.dfy` | the locked state, the fetching half, one refresh, the bus handler, a turn of the poll loop |
| `Protocol.dfy` | the interleaved system: steps, runs, recorded and published times |
| `Turns.dfy` | the sequential methods as runs of that system |
| `Wakeup.dfy` | wake-ups, the rate floor, liveness |
| `Replay.dfy` | events against snapshots, causality, traffic over runs |
| `EndToEnd.dfy` | published snapshots against the data fetched for them, over runs |
| `LateMark.dfy`, `Twins.dfy` | runs in which a published time falls, and in which a change is announced twice |
| `FairRun.dfy` | a run that meets the liveness hypotheses |
| `Hub.dfy`, `Sse.dfy` | the event hub, stream framing and parsing |
| `Grace.dfy`, `Coordinator.dfy` | the grace period, the shared device table, entities |
| `Backoff.dfy` | the wait between reconnects |

`dafny verify dfyconfig.toml` checks everything.

## Reading the model

A refresh touches shared state in two locked sections with unlocked work between them. `Store` gives each section as a
function and proves the methods of the `StateStore` class against those functions; `Protocol` uses the same functions
as the atomic steps of a transition system, so its theorems hold for every interleaving of the poll loop, any number of
bus handlers and the clock. `Refresh` has the same code as sequential methods, and `Turns` shows that what they do is
what sequences of those steps do. The order in which a Go map or a Python set is visited, the answers of the network,
clock readings and the JSON parser are arguments or nondeterministic choices.

Hypotheses are stated where they are used:

- There is one router clock and it does not go back.
- A handler reads the clock before it takes the lock, so an old time can be written over a newer one and a published
  time can go back (`LateMark.LateWriteMovesPublishedTimeBack`). When that happens is stated without any hypothesis on
  handlers (`Protocol.PublishedTimeFallsExactly`); that it does not happen to an address is concluded where none of
  that address's handlers is overtaken (`Protocol.LastSeenNeverDecreases`).
- Two rows of the device table can normalise to one address. What that does to the published list and to the events is
  stated as an exact condition (`Orders.PublishedDeterminedExactly`, `Replay.EventsAlternateExactly`), each with an
  example that fails (`Twins`).
- Byte totals are modulo 2^64 throughout; the two comparisons with `<=` ask that nothing wrapped.
- Liveness asks that a loop that can move does so, that handlers run and that time passes; it asks nothing of the ticker.
- Home Assistant's `format_mac` is an arbitrary function, idempotent where entities are concerned.

Where comments and code differ the model follows the code. The comment on `lastSeen` (code/state.go:68-69) says that
a device missing from one station list does not flap to away; in the code the connected flag of a snapshot depends on
the current fetch alone (`Presence.ConnectedIsExact`), and only Home Assistant's grace period smooths it. The header of
`refreshState` (code/refresh.go:11-13) describes the fallback; topology, when available, decides alone.

## Model

| member | source | states |
|---|---|---|
| Text.NormalizeIdempotent | code/spr.go:62-68 | normalising an address twice gives what normalising once gives, so keys built from keys are stable |
| Text.NormalizeMeans | code/spr.go:62-64 | a key means the same as the text between its margins, in lower case and with colons |
| Text.SpellingsShareKeyExactly | code/spr.go:62-64 | two spellings share a key exactly when, between their margins, they differ only in letter case and in hyphens for colons |
| Text.IsMacExactly | code/spr.go:60-68 | a text is an address exactly when it is six pairs of hexadecimal digits in either case between colons or hyphens, with any margins |
| Text.LeqIsLexicographic | code/refresh.go:217 | the order of the published list compares addresses as Go compares strings |
| Common.UnixIsWholeSeconds | code/state.go:86 | recorded times are whole seconds, rounded down |
| Version.ParseComplete | code/version.go:11-23 | every text the version pattern matches, after trimming, parses to its three saturating decimal groups |
| Version.ParseSound | code/version.go:11-23 | whatever parses matches the pattern, so a text that does not match is rejected |
| Version.DigitsReadExactly | code/version.go:17-21 | reading digits is the inverse of printing, leading zeros apart |
| Version.RoundTrip | code/version.go:11-23 | printing any triple and parsing it gives it back, with or without `v` and white space around, each number capped at the largest `int` |
| Version.LessIsLexicographic | code/version.go:25-37 | the comparison is by major, then minor, then patch, and false when either side does not parse |
| Version.LessIsStrict | code/version.go:25-37 | the comparison is irreflexive, asymmetric and transitive on all strings |
| Version.LessIsWeakExactlyWhenParseable | code/version.go:25-37 | ties carry over through a string exactly when that string parses; an unparseable one ties 1.0.0 with 2.0.0 |
| Version.SelectNewest | code/version.go:63-71 | the selection loop returns the first of the maximal parseable tags, or nothing when none parses |
| Version.FirstNewestIsUnique | code/version.go:63-71 | that tag is unique |
| Version.UpdateIsExact | code/refresh.go:224 | an update is announced exactly when some offered tag is strictly newer than the installed version |
| Version.VersionCheck.LatestAvailableVersion | code/version.go:46-75 | one call's answer and effect on the cache, for every combination of parseable version, fresh cache and failed fetch |
| Version.CacheHoldsLatestFetch | code/version.go:39-75 | after any run of calls the cache holds the newest tag of the most recent successful fetch and when that was |
| Version.FetchesAnHourApart | code/version.go:54-56 | any two successful fetches of a run are at least an hour apart |
| Version.AnswerIsLatestOffer | code/version.go:46-75 | a call about a parseable version answers with the newest tag of the latest successful fetch, and uses one older than an hour only if its own fetch failed; any other call answers nothing and fetches nothing |
| Version.UpdateFollowsLatestFetch | code/refresh.go:133 | over any run an update is announced exactly when the latest successful fetch offered something strictly newer |
| Presence.ScanInterfaces | code/refresh.go:29-42 | the interface loop finds whether some access point has an extra network, and the uplink it settles on |
| Presence.UplinkIsLastEnabled | code/refresh.go:33-36 | that uplink is the last enabled one, or the first one when none is enabled |
| Presence.FetchTopologyPresence | code/topology.go:43-72 | the topology is available exactly when the response is there and has nodes, and the map is that of the node loop's assignments |
| Presence.TopologyIsLastNode | code/topology.go:52-71 | the map holds an address exactly when it is well formed and some node of kind `device` has it, with the fields of the last such node |
| Presence.AddStations | code/refresh.go:67-77 | the innermost station loop adds the assignments of one list |
| Presence.AddAccessPoint | code/refresh.go:62-78 | the middle station loop adds those of every name of one access point |
| Presence.CollectStations | code/refresh.go:58-79 | the three nested station loops leave the last-writer map of all their assignments |
| Presence.StationNamesAre | code/refresh.go:59-65 | an enabled access point is asked for by its name, and after that by its name with `.ap0` when it has an extra network |
| Presence.StationsListed | code/refresh.go:58-79 | a well-formed address is assigned some station data exactly when an enabled access point lists it with that data under one of those names |
| Presence.CollectArp | code/refresh.go:81-96 | the ARP loop leaves the last-writer map of the learned entries |
| Presence.LearnedExactly | code/refresh.go:82-93 | an ARP entry counts exactly when it is off the uplink, its address is well formed, and its flags have 0x2 and not 0x4 |
| Presence.ArpLearned | code/refresh.go:81-96 | a well-formed address is assigned a device exactly when an entry off the uplink has it with flag 0x2 set and 0x4 clear |
| Presence.GatherPresence | code/refresh.go:44-97 | presence is gathered from topology when available and from stations and ARP otherwise |
| Presence.LegacyMapsAreExact | code/refresh.go:54-97 | what the station and ARP maps hold for an address, in terms of the fetched lists |
| Presence.ConnectedIsExact | code/refresh.go:178-195 | a device counts as connected exactly when its last device node is online, or, without topology, an access point lists it or ARP has learned it |
| Presence.LinkIsExact | code/refresh.go:178-195 | wired flag, interface, signal and counters come from the source that decided, stations before ARP; an absent device has none |
| Devices.Describe | code/refresh.go:158-205 | one record's fields other than its time, through the precedence chain and the counters that override |
| Devices.StampedBefore | code/refresh.go:207-210 | an absent device reads back the copied time although the loop has been writing to the same map |
| Devices.BuildRecords | code/refresh.go:147-216 | the device loop's records, local times and client count, the records as functions of their own row alone |
| Devices.PublishedAreTheRows | code/refresh.go:147-217 | the published list has exactly one record of each row of the device table whose own address is well formed, and no others, with the row's name, IP, tags, blocked and guest flags and byte counters |
| Devices.CountIsCardinality | code/refresh.go:212-214 | the client count is the number of connected records |
| Devices.SortDeterminedExactly | code/refresh.go:217 | sorting by address leaves a single possible list exactly when no two different records share an address |
| Devices.RowOrderDecidesExactly | code/refresh.go:147-217 | for given presence the sorted list is the same for every order of the device table and every sorting algorithm exactly when no two different records share an address |
| Orders.LastListDecides | code/refresh.go:58-79 | an address has the station data of the last list, over all access points and names, that has it |
| Orders.CandidateIsPossible | code/refresh.go:67-76 | every entry of that list for the address is what some order of visiting it leaves |
| Orders.PublishedDeterminedExactly | code/refresh.go:58-217 | the published list is the same for every order of the device table and of every station list, and every sorting algorithm, exactly when no two different records share an address and the entries of the deciding list would give the same record |
| Orders.DistinctAddressesDetermine | code/refresh.go:58-217 | which is so when the tracked rows have distinct normalised addresses and no station list repeats one |
| Twins.TwinListsDiffer | code/refresh.go:147-217 | a device table with two rows of one address for which two different lists may be published |
| Devices.PublishedIsWellFormed | code/refresh.go:147-217 | every published address is well formed, its flag and time follow the rules, and the list is in address order |
| Devices.PublishedPresenceIsExact | code/refresh.go:54-217 | from fetched data to snapshot: connected exactly when the data says so, and only then wired or with a signal or interface |
| Traffic.Account | code/refresh.go:100-110 | the accounting loop's per-address counters and total, modulo 2^64 |
| Traffic.BytesAreSums | code/refresh.go:104-110 | the bytes of elements, in all and of one address, are sums over the elements |
| Traffic.CountersSumToTotal | code/refresh.go:99-110 | the counters add up to the total for any element list, modulo 2^64, and exactly when nothing wrapped |
| Traffic.CreditsWithinTotal | code/refresh.go:197-205 | bytes credited to devices with distinct addresses never exceed the total, if nothing wrapped |
| Traffic.RatesBetweenExactly | code/refresh.go:247-252 | if time has passed and neither counter went back, rate times seconds is eight times the bytes counted in each direction; in every other case both rates are 0 |
| Traffic.RatesAreExact | code/refresh.go:247-255 | rate times elapsed time adds up to exactly the bits the counters advanced by between readings, none across a reset |
| Traffic.RatesTelescope | code/refresh.go:247-255 | when time always passes and no counter goes back that sum is eight times the last total minus the first |
| Store.MergeIsPointwiseMax | code/refresh.go:241-246 | merging leaves the pointwise maximum, an absent entry counting as zero, and removes nothing |
| Store.LocalSightingsLookup | code/refresh.go:207-210 | the local time of an address is this refresh's clock or the copied one, and is what its records show |
| Store.PublishKeepsSightings | code/refresh.go:240-246 | whatever landed in the shared times since the copy, publishing moves none back and publishes none above the shared entry |
| Store.ClientsConnectedIsExact | code/refresh.go:233 | the client count is the number of connected devices in the published list |
| Store.DeviceBytesWithinTotals | code/refresh.go:197-205 | in topology mode with distinct device addresses and no wrap-around the devices' bytes sum to at most the WAN totals |
| Store.TransitionsAreExact | code/refresh.go:259-270 | the transitions are one for each record whose address was known with the other flag, in list order, with that record's flag, address, name and IP |
| Store.StateStore.constructor | code/state.go:76 | the store starts empty |
| Store.StateStore.ReadSnapshot | code/state.go:78-82 | a read returns the current snapshot |
| Store.StateStore.MarkSeen | code/state.go:84-88 | marking replaces the time under the normalised address and changes nothing else |
| Store.StateStore.CopyForRefresh | code/refresh.go:136-145 | the first locked section copies the times and the connected flags and changes nothing |
| Store.StateStore.MergeSightings | code/refresh.go:241-246 | the merge loop computes the merge in whatever order the local map is visited |
| Store.StateStore.Publish | code/refresh.go:240-257 | the whole new state after the second locked section, rates included |
| Fetch.FetchReading | code/refresh.go:17-133 | the fetching half runs all its loops and the version check: presence, counters, totals and router data as functions of the answers |
| Refresh.RefreshState | code/refresh.go:14-271 | a refresh on its own, from the answers to the store, the version cache and every subscriber's queue, which gains the first of the transitions that fit into 16; nothing changes when the device fetch fails |
| Refresh.Announce | code/refresh.go:259-270 | the announcing loop puts the transitions into every subscriber's queue in order, as many as fit |
| Refresh.PollLoop.RequestRefresh | code/state.go:133-138 | afterwards a token is in the channel |
| Refresh.PollLoop.HandleBusEvent | code/events.go:41-53 | the time is recorded under the normalised address exactly when that is well formed and the topic is `wifi:auth:success` or `dhcp:request`; a refresh is requested in every case; nothing else changes |
| Refresh.PollLoop.RunRefresh | code/state.go:99-107 | a refresh of the loop, as at its start: the state, every subscriber's queue, and the time the next interval is measured from |
| Refresh.PollLoop.Turn | code/state.go:108-126 | one turn of the loop: the sleep it computes, the tokens it takes, its refresh and queues, and that an event-driven refresh starts two seconds or more after the last one ended |
| Turns.TurnIsARun | code/state.go:108-126 | a turn is a sequence of the interleaved system's steps from one select to the next, sending exactly its events |
| Turns.BeginIsARun | code/state.go:99-107 | so is the start of the loop, from the initial state |
| Turns.BusEventIsARun | code/events.go:41-53 | and so is the handling of a bus event |
| Protocol.UndisturbedRefresh | code/refresh.go:14-271 | four uninterrupted steps of the protocol do to the store what the sequential refresh does |
| Protocol.ArrivalExactly | code/events.go:41-53 | an arriving bus event starts a sighting at that moment exactly when its address is well formed and its topic is `wifi:auth:success` or `dhcp:request`, and otherwise only a request |
| Protocol.WriteComesFromArrival | code/events.go:41-53 | in every run, every handler write records such an event's address at the time it arrived |
| Protocol.ClockAt | code/state.go:84-88 | in every reachable state no recorded time lies in the future |
| Protocol.BehindPublication | code/refresh.go:14-271 | behind every publication of a run are the start, fetch and copy of its own refresh, and it uses exactly what they read |
| Protocol.SightingBelowExactly | code/state.go:84-88 | over any run a recorded time that was at some value is below it later exactly when an older time was written over it and nothing has raised it since |
| Protocol.ShownBelowExactly | code/refresh.go:135-210 | a refresh publishes a time below one recorded before its start exactly when it finds the device absent and the record had been lowered by the time of its copy |
| Protocol.PublishedTimeFallsExactly | code/refresh.go:135-246 | between any two publications of any run a device's published time falls exactly when the later one finds it absent and a handler wrote an older time in between, with nothing to raise it again before the copy |
| Protocol.NextTimeFallsExactly | code/refresh.go:135-246 | from one publication to the next it falls exactly when the device is found absent and the last handler write before the copy is older than the time shown |
| Protocol.SightingMissedExactly | code/events.go:41-53 | a refresh starting after a handler's write publishes an earlier time exactly when it finds the device absent and the record was lowered in between |
| Protocol.PromptHandlersAreTimely | code/events.go:48 | handlers of an address that write in the second in which they read the clock are never overtaken |
| Protocol.SightingReachesSnapshots | code/refresh.go:207-210 | once a refresh that starts after a handler's write publishes, that and every later snapshot show the device at that time or later, if no handler of that address is overtaken |
| Protocol.LastSeenNeverDecreases | code/refresh.go:135-246 | over any run in which no handler of the address is overtaken its published time never decreases between any two snapshots |
| LateMark.LateWriteMovesPublishedTimeBack | code/events.go:48 | a concrete run with one overtaken write in which a published time falls from 5 s to 0 s |
| Wakeup.NoLostWakeup | code/state.go:98-138 | in every reachable state an unserved request is held by the channel or the loop, and accepted requests equal starts, collapsed and held ones |
| Wakeup.PendingRequestIsHeld | code/state.go:129-138 | from a request until the next refresh starts, a token is in the channel or the loop is committed to a refresh |
| Wakeup.EventRefreshesAreSpread | code/state.go:104-126 | event-driven refreshes start two seconds after the previous refresh ended, n of them span 2(n-1) seconds, and they are no more than the accepted requests |
| Wakeup.EventRefreshWaits | code/state.go:104-126 | in every run a refresh a token started begins two seconds or more after the last one ended |
| Wakeup.RequestIsServed | code/state.go:98-138 | in every fair run, even one whose ticker never fires, a refresh starts after each request |
| Wakeup.ArrivalIsHandled | code/events.go:41-53 | in every run that lets handlers run, a sighting event leads to a write of its address at its time of arrival and then a request, and any other event to the request |
| Wakeup.ArrivalIsServed | code/events.go:41-53 | in a fair run every bus event is followed by a refresh start |
| Wakeup.BusSightingIsReflected | code/events.go:41-53 | in a fair run the arrival of a sighting event is followed by a refresh start, and every publication by that or a later refresh shows the time of arrival or a later one from then on, if no handler of its address is overtaken |
| FairRun.FairRunExists | code/state.go:98-127 | the hypotheses of the liveness results are met by a run in which a sighting event arrives, is written and requests the refresh that publishes it |
| Replay.ReadAfterEvent | code/refresh.go:240-270 | a state read after an event was sent is the snapshot of the refresh that announced it or of a later one |
| Replay.AnnouncedExactly | code/refresh.go:259-270 | in every run a publication announces, in list order, one event for each record whose address the snapshot before showed with the other flag, and the first announces nothing |
| Replay.EventsReplaySnapshots | code/refresh.go:259-270 | applying the events sent since an earlier snapshot to its flags gives the current flag of every address listed throughout |
| Replay.TransitionsOfMac | code/refresh.go:260-264 | a refresh announces a changed, known address once per record of it, and nothing of one that is new, re-added, unchanged or gone |
| Replay.RefreshAlternatesExactly | code/refresh.go:260-269 | one refresh keeps an address's events alternating exactly when it did not change or has a single record |
| Replay.EventsAlternateExactly | code/refresh.go:259-270 | over any run the events of an address listed throughout strictly alternate exactly when every snapshot that changes its flag has a single record of it |
| Twins.TwinsAnnounceTwice | code/refresh.go:259-270 | a run with two rows of one address that announces the same disconnection twice |
| Replay.NoPublicationNoEvents | code/refresh.go:17-21 | without a publication in between, as when the device fetch fails, nothing is announced |
| Replay.PublishedRatesAreExact | code/refresh.go:247-255 | over any run the published rates account for exactly the bits passed between comparable refreshes |
| EndToEnd.PresenceIsPublished | code/refresh.go:44-233 | in every run every published device is connected exactly when the data fetched for that snapshot says so, and the client count is the number connected |
| EndToEnd.RowsArePublished | code/refresh.go:147-217 | in every run every publication has exactly one record of each fetched row whose own address is well formed, in address order, with the row's fields, the link the presence data calls for and the bytes counted for its IP |
| EndToEnd.RouterIsPublished | code/refresh.go:219-238 | in every run a snapshot shows the fetched host name, the installed version or else the release's, the uplink, the guest network and the time of its refresh's start |
| EndToEnd.RatesArePublished | code/refresh.go:247-255 | in every run a published rate times the time since the refresh before is eight times the growth of the totals, or 0 when no time passed or a total fell, and at first |
| EndToEnd.SampleIsPublished | code/refresh.go:254-256 | the totals and the time behind those rates are those the snapshot shows |
| EndToEnd.BytesArePublished | code/refresh.go:99-205 | in every run the published totals are the fetched bytes modulo 2^64, and bound the devices' bytes in topology mode |
| EndToEnd.CheckIsPublished | code/refresh.go:128-133 | in every run the version check behind a publication asks about the version it shows, with the answers of its own fetch |
| EndToEnd.UpdatesArePublished | code/refresh.go:128-224 | in every run a snapshot announces an update exactly when the latest successful registry fetch offered something newer than the version it shows, and shows that fetch's newest tag, or nothing when its own version does not parse |
| EndToEnd.RegistryIsSpared | code/version.go:54-56 | in every run successful registry fetches are at least an hour apart |
| Hub.Channel.Receive | code/api.go:173-175 | receiving takes the oldest message |
| Hub.SseHub.Subscribe | code/api.go:34-40 | a new empty queue joins the subscribers |
| Hub.SseHub.Unsubscribe | code/api.go:42-46 | the queue leaves the subscribers and the others stay |
| Hub.SseHub.Broadcast | code/api.go:48-61 | every subscriber is offered the message once, in whatever order they are visited, and a full queue drops it |
| Hub.KnownExactly | code/api.go:34-46 | a subscriber is live exactly from when it joins until it leaves |
| Hub.BroadcastsFill | code/api.go:48-61 | broadcasts one after the other leave a queue with as many of them, from the first on, as fit into 16 |
| Hub.ReadingDrains | code/api.go:173-175 | reading on gives a subscriber what waits for it, in order |
| Hub.Delivery | code/api.go:34-61 | what a subscriber has read and has waiting are, in order, the messages of an increasing choice of the broadcasts, at most 16 waiting |
| Hub.MissingOnlyWhenFull | code/api.go:54-58 | a broadcast made while subscribed is missing exactly when 16 messages were waiting |
| Hub.SubscribersAgreeOnOrder | code/api.go:48-61 | two subscribers got any two common messages in the same order |
| Hub.Isolation | code/api.go:48-61 | a subscriber's messages are the same as if no other subscriber had done anything |
| Hub.NothingIsLost | code/api.go:48-61 | a subscriber whose queue never fills up has got, or has waiting, everything broadcast since it joined |
| EndToEnd.SubscriberFollows | code/refresh.go:259-270 | such a subscriber, applying its messages to an earlier snapshot's flags, gets the current flag of every address listed throughout |
| Sse.StreamIsOnTheWire | code/api.go:166-177 | the stream is the frames one after the other, a comment line for a keepalive and a data field for a message, each with a blank line |
| Sse.HandleEvents | code/api.go:166-177 | the write loop produces the stream of what it chose to send |
| Sse.LinesCutTheStream | custom_components/spr/api.py:134 | the client's lines are the stream cut after each newline |
| Sse.LineEventExactly | custom_components/spr/api.py:135-141 | a line carries an event exactly when it starts, margins apart, with the data field's name and the parser accepts the trimmed rest |
| Sse.ListenEvents | custom_components/spr/api.py:134-142 | the line loop calls back with the events of the stream's lines |
| Sse.StreamRoundTrip | custom_components/spr/api.py:134-142 | through any keepalives the client gets exactly the messages sent, in order |
| Sse.CutStream | custom_components/spr/api.py:134-144 | wherever a connection drops, the client has got the first few messages and nothing else |
| Sse.ClientGetsBroadcasts | code/api.go:150-178 | hub, framing and parsing together give the client the first of the broadcasts its subscription accepted, in order |
| Grace.PollsFold | custom_components/spr/coordinator.py:111-152 | after any run of polls the table holds exactly the last poll's valid addresses, each with the fold of its rows since it was last missing |
| Grace.LastSeenIsLatestSighting | custom_components/spr/coordinator.py:135-140 | `last_seen` is the time of the latest connected poll or a later non-zero reported time if newer; only reported ones if never connected |
| Grace.FieldsAreLatest | custom_components/spr/coordinator.py:122-132 | a device's name and IP are the last non-empty ones since it was last missing, its other attributes those of its last row |
| Grace.HomeExactly | custom_components/spr/coordinator.py:142-146 | a device is home exactly when its last row says so or some sighting lies within the grace period |
| Grace.StaysHome | custom_components/spr/coordinator.py:135-146 | a device found connected and never missing since stays home at every poll within the grace period |
| Coordinator.SprDevice.Update | custom_components/spr/coordinator.py:122-146 | one row's effect on its device |
| Coordinator.DeviceDict.ProcessRaws | custom_components/spr/coordinator.py:108-146 | all rows update the table in place, keeping the objects of known addresses, and yield the seen and the new addresses |
| Coordinator.DeviceDict.Evict | custom_components/spr/coordinator.py:150-152 | exactly the devices not seen are dropped |
| Coordinator.SprCoordinator.UpdateDevices | custom_components/spr/coordinator.py:107-152 | the table after a poll, whose keys are exactly the poll's valid addresses |
| Coordinator.DeviceTracker.AddNewDevices | custom_components/spr/device_tracker.py:29-38 | one entity is created for each address of the published table that has none |
| Coordinator.DeviceTracker.IsConnected | custom_components/spr/device_tracker.py:69-72 | an entity is home exactly when the published table has its device and says connected |
| Coordinator.SprEntry.UpdateData | custom_components/spr/coordinator.py:98-163 | announcing before publishing still creates the new entities, because the previous state shares the table |
| Coordinator.SprEntry.Refresh | custom_components/spr/coordinator.py:98-163 | a refresh is one step of the run model, a failed one no step at all |
| Coordinator.SprEntry.SetUpTracker | custom_components/spr/device_tracker.py:20-43 | setting the platform up creates an entity for every address of the table |
| Backoff.EventLoop | custom_components/spr/coordinator.py:178-190 | the first wait and that after a stream that ended is five seconds, that after a failure twice the wait before up to five minutes, stopping at a rejected token |
| Coordinator.EachAddressHasOneEntity | custom_components/spr/device_tracker.py:27-43 | over any run every address listed since set-up has exactly one entity, through deletion and re-adding, and every current address has one |
| Coordinator.TableFollowsPolls | custom_components/spr/coordinator.py:98-163 | over any run the table is that of the answered polls |

## Left out

- HTTP requests, JSON encoding and decoding, the unix socket, mDNS, gateway detection, configuration files and UDP: input and output, taken as arbitrary answers or failures.
- WAN address and link state, uptime and load averages: values passed through to the snapshot.
- Parsing of station counters and of the hexadecimal ARP flags word: values are taken already parsed, with a parse failure of the flags kept as a case.
- Lower-casing outside ASCII and UTF-8 decoding: addresses are ASCII once they pass the pattern, and stream text is taken decoded.
- Floating-point rounding of rates: real numbers are used.
- `pollLoop` as a non-terminating loop: one turn is a method, and the loop with everything concurrent to it is the transition system of `Protocol`.
- `sort.Slice` itself: the model sorts by insertion, and `Orders.PublishedDeterminedExactly` says when every other sorting algorithm publishes the same list; how ties between different records of one address fall otherwise is not modelled.
- Devices.BuildRecords: the device loop is modelled on values with the iteration order as an argument, because Go leaves that order open.
- Two access points of one name: their stations are asked for twice, and the model gives both requests the same answer.
- The time a version check takes within a refresh: its two clock readings are arguments, and the fetches of a refresh are one step of `Protocol`.
- Sse.CutStream: asks that no proper prefix of a message parses, which holds of JSON objects but is not derived from a JSON grammar.
- Grace.LastSeenIsLatestSighting: reported times outside the range of Python's `datetime`, which raise there, are not modelled.
- Backoff.EventLoop: the endless reconnect loop is run over any finite sequence of outcomes.
- Home Assistant's own classes, sensors, buttons, update and binary sensor entities, diagnostics and the configuration flow: thin wrappers over an unseen library.
- Wake-on-LAN, the route table, token scoping and discovery: no state that the results above depend on.
