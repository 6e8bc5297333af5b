# Verification of the federation relay engine

A federation node takes in events from its peers, decides which local groups they may enter, hands them to the local
TAK server, and fans local and relayed events out to other peers. This project models that engine in Dafny and proves
what it keeps: how far an event can travel, along which routes it gets through and what it carries when it arrives, whose
policy a connection is bound to, that every cache and filter does what an ideal one would (or exactly when it does not),
and that no wakeup, link or publication is lost.

| file | models |
|---|---|
| `Wrappers.dfy`, `Text.dfy` | results and options; the string operations the configuration parsers rest on |
| `Groups.dfy` | the group-policy registry, its lookups, re-keying, and the text form of group maps |
| `CertIdentity.dfy` | certificate fingerprints: canonical form, normalisation, the configured list |
| `PeerPolicy.dfy` | from peer stanzas and defaults to a filled registry, and what that registry then means |
| `Codec.dfy` | events, envelopes, hop budgets, and the decision whether an event may be sent to a peer |
| `Relay.dfy`, `RelayRoutes.dfy`, `RelayLaws.dfy` | a mesh of servers flooding one event, as a step system over messages in flight |
| `LoopFilter.dfy`, `Dedup.dfy` | provenance stamps in the event tree; the bounded duplicate memory |
| `EudGroupCache.dfy` | the expiring cache of a device's groups |
| `OtsBus.dfy` | the broker side: injecting peers' events, and relaying the local firehose |
| `Bridge.dfy` | the queue and wakeup bytes between network threads and the engine |
| `Intake.dfy`, `Client.dfy`, `PeerLink.dfy`, `FedServer.dfy`, `Manager.dfy` | the two ends of a peering, the session thread, and the fan-out |
| `Federation.dfy` | results across all of these |

The main results:

* **Flooding ends.** In any mesh - cycles, duplicate links and self links included - every flood takes at most
  `d * (d + 1)^(n - 1)` deliveries for `n` server ids and at most `d` links a server, and it delivers the same events to the
  same servers whatever the order messages arrive in: one delivery per route that gets through.
* **Routes are exact.** An event gets through along a route if and only if every link of it lets it pass and the composed
  image of the origin's groups is not empty; it then has exactly that image as its groups, the senders as its chain, and
  one hop per link. A positive budget is never exceeded on the wire, and a ceiling of `c` at any relaying server lets an
  event visit at most `c + 1` servers.
* **Configuration means what it says.** Without key or fingerprint collisions, each certificate, however its digest is
  spelled in the file, resolves to its stanza's key, and that stanza's policy is what it would be alone, for every text
  the maps may be, mistyped ones included; from one operator's file to another's, an event crosses a certified link - is
  sent and gets in - if and only if its envelope may pass and the two lists lead some group of it across, into exactly the
  groups they name.
* **Identity comes from certificates.** While a session is ACTIVE, its policy key belongs to the one certificate seen before the
  first call and again after the streams were open, under every interleaving with a stop request; what a peer calls
  itself can get it refused and decides nothing else.
* **Bounded is as good as unbounded, exactly when.** The duplicate memory agrees with an unbounded one if and only if no
  duplicate comes after 2048 other uids were accepted, over any run of calls of the filter. The expiring cache stores what
  its writes from one definite write on add up to. Run beside a cache that forgets at the tick of expiry, it answers at
  the same times, and the same groups exactly when nothing that was carried over shows.
* **Relayed with evidence, and then for certain.** Over every run of broker messages, cache sweeps and database answers, in
  any interleaving, whatever is relayed carries a non-empty set of groups, each backed by a message before it or by the
  database's answer to a lookup the cache could not serve, and an injected event never comes back out. And an event that
  passes the filter is relayed, once, to exactly the groups known for it; a group announced for its device counts, unless
  the database contradicts it in the middle of a lookup.
* **No wakeup is lost** in any interleaving of producers and drainer, short of a socket error; which errors strand what is
  queued, and which do not, is stated exactly.
* **A stop either ends the session thread or leaves it to the peer.** At any moment after the request, the thread can come
  to wait for a silent peer if and only if it waits already or is past its last look at the stop flag and its certificate
  can be bound; otherwise it ends by itself, whatever happens, within fifteen steps.

Thirteen promises or expectations are false of the code. For each there is a run or an input that shows it and the exact
condition under which it holds or fails:

| expectation | shown to fail by | exactly when |
|---|---|---|
| expired groups are gone | `EudGroupCache.ExpiredGroupsCanReturn` | `EudGroupCache.LazyIsEagerExactly` |
| the bounded duplicate memory refuses what an unbounded one would | `Dedup.DuplicateSlipsThrough` | `Dedup.BoundedRefinesExactly` |
| stripping undoes stamping | `LoopFilter.StampLeavesDetail` | `LoopFilter.CleanCancelsStamp` |
| a chain is read back as written | `LoopFilter.CommaSplitsChain` | `LoopFilter.ChainRoundTrip` |
| a queued event has a wakeup to come | `Bridge.ReadErrorStrands`, `Bridge.SendErrorStrands` | `Bridge.StrandedExactly` |
| after a stop request the state stays DRAINING | `Client.DrainingIsNotFinal`, `Client.ReconnectingOverwritesDraining` | `Client.DrainingIsFinalExactly` |
| a thread that has exited does not leave its link ACTIVE | `Client.StopCanLeaveActive` | `Client.LeavesActiveExactly` |
| a stop request ends the session thread | `Client.StopCanHang` | `Client.StopEndsThreadExactly` |
| after a good session the back-off starts over | `Client.PauseAfterService` | `Client.BackoffSchedule` |
| an empty right side in a group map blocks the group | `Groups.EmptyRightSide` | `PeerPolicy.SharedAsEmptyExactly` |
| a quarantined connection's stand-in id is no configured peer's key | `Federation.QuarantineIdCanCollide` | `Federation.QuarantineIdCollidesExactly` |
| a group announced for a device counts until its lifetime is over | `OtsBus.AnnouncementCanBeLost` | `OtsBus.AnnouncedGroup` |
| a publish channel that closed for good has asked for a stop | `OtsBus.StopCanBeMissed` | `OtsBus.ClosedMeansStopExactly` |

Where a class updates its fields in the program it is a class here, and each method is proved against a function of the
old state; the lemmas are about those functions and about runs of them.

## Model

| member | source | states |
|---|---|---|
| `Groups.FederateGroupRegistry.constructor` | ots_federation/groups.py:102-124 | a new registry has no entry, no default and no fingerprint |
| `Groups.FederateGroupRegistry.AddPeerMap` | ots_federation/groups.py:126-147 | an entry changes its peer's row for its remote group, its local group, or both, and nothing else; a block fills no outbound row |
| `Groups.AddedEntryInbound` | ots_federation/groups.py:139-147 | unless it is outbound only, an entry makes its remote group map to its local group, or to a block; no other peer's inbound lookups change, nor this peer's of other groups if it had a table and the entry is no wildcard |
| `Groups.AddedEntryOutbound` | ots_federation/groups.py:139-147 | unless it is inbound only or a block, it makes its local group map to its remote one; nothing else changes but that a first entry hides the default table |
| `Groups.FederateGroupRegistry.SetFallbackAllow` | ots_federation/groups.py:149-170 | only that peer's fallback flag changes |
| `Groups.FederateGroupRegistry.SetDefaultInMap` | ots_federation/groups.py:172-191 | the default inbound table becomes that of the list |
| `Groups.FederateGroupRegistry.SetDefaultOutMap` | ots_federation/groups.py:193-211 | the default outbound table becomes that of the list |
| `Groups.InTableIsLastWriter` | ots_federation/groups.py:139-147 | an inbound table has a row for a group iff some entry names it, and the last such entry decides it |
| `Groups.OutTableIsLastWriter` | ots_federation/groups.py:139-147 | the same for outbound tables |
| `Groups.FederateGroupRegistry.RegisterFingerprint` | ots_federation/groups.py:213-235 | a non-empty fingerprint is bound to the peer, an empty one to nothing |
| `Groups.FederateGroupRegistry.RekeyPeer` | ots_federation/groups.py:262-323 | moves all three tables of a peer or changes nothing |
| `Groups.RekeyMovesOrRefuses` | ots_federation/groups.py:301-323 | re-keying is all or nothing, when it is refused, the new key maps every group as the old one did, and no third peer's mapping of any group changes |
| `Groups.RekeyRoundTrip` | ots_federation/groups.py:301-323 | re-keying back restores the registry |
| `Groups.FederateGroupRegistry.MapInbound` | ots_federation/groups.py:325-385 | own table or default, exact before wildcard, then the fallback, else a block |
| `Groups.FederateGroupRegistry.MapInboundGroups` | ots_federation/groups.py:387-431 | the set of local groups of all tags that map, none meaning drop; untagged events through the wildcard alone |
| `Groups.FederateGroupRegistry.MapOutbound` | ots_federation/groups.py:433-465 | own table or default, exact match only |
| `Groups.FederateGroupRegistry.MapOutboundGroups` | ots_federation/groups.py:467-493 | the list of the names that are shared, in order |
| `Groups.SharedListElements` | ots_federation/groups.py:467-493 | the list and the set of groups give the same tags whatever the list's order, and nothing exactly when no group is shared |
| `Groups.SharedInOrder` | ots_federation/groups.py:485-493 | each group of the list in turn adds its shared name, if it has one |
| `Groups.ParseGroupMap` | ots_federation/groups.py:569-673 | the parsing loop computes the entries of the tokens, or the first token without a colon |
| `Groups.ParseFailsExactly` | ots_federation/groups.py:611-640 | parsing is refused iff some non-blank token has no colon |
| `Text.BlanksExactly` | ots_federation/groups.py:613-622 | which characters stripping removes: the 29 blanks of the language |
| `Groups.PieceParses` | ots_federation/groups.py:641-673 | one laid-out pair is read as the entry of its two names, in each direction |
| `Groups.ParseInvertsRendering` | ots_federation/groups.py:611-673 | for every list of pairs, with any blanks and empty items, parsing the joined text returns exactly its entries in order |
| `Groups.PlainPairsRoundTrip` | ots_federation/groups.py:641-673 | plain pairs are read back as those very pairs |
| `Groups.EveryTextReads` | ots_federation/groups.py:611-673 | whatever the text, it either has an item without its colon or is some layout of pairs, blanks and empty items |
| `Groups.TwoPairs` | ots_federation/groups.py:611-673 | `Red:Red, Blue:Blue` is read as the two pairs |
| `Groups.Stars` | ots_federation/groups.py:626-640 | `Red:*,*:Red` blocks Red inbound and maps every other group to it |
| `Groups.EmptyRightSide` | ots_federation/groups.py:663-671 | `White:` blocks White inbound, and outbound shares it under the empty name |
| `CertIdentity.FormatAt` | ots_federation/cert_identity.py:89-98 | where each byte's two digits, out of `0123456789ABCDEF`, and the colons stand in a fingerprint |
| `CertIdentity.FormatShape` | ots_federation/cert_identity.py:89-98 | the printed form is canonical, upper case, and free of commas and outer blanks |
| `CertIdentity.FormatInjective` | ots_federation/cert_identity.py:89-98 | two canonical forms are equal iff the digests are |
| `CertIdentity.NormalizeAcceptsExactly` | ots_federation/cert_identity.py:71-78 | a value is accepted iff, blanks and lower-case letters aside, it is the canonical form of a digest, and becomes that form |
| `CertIdentity.ParseFingerprintSetting` | ots_federation/config.py:459-481 | the loop over the list computes the joined canonical forms, or the first bad item's error |
| `CertIdentity.SettingFailsExactly` | ots_federation/config.py:463-479 | the setting is refused iff some item is neither blank nor a digest in some spelling |
| `CertIdentity.ResplitConfigured` | ots_federation/manager.py:229-235 | splitting the configured value again gives back the normalised list |
| `CertIdentity.FingerprintListRoundTrip` | ots_federation/config.py:463-479 | any layout and spelling of a list of digests ends as exactly their canonical forms |
| `PeerPolicy.ParseOrWarn` | ots_federation/manager.py:249-256 | a map that does not parse counts as empty |
| `PeerPolicy.RegisterFingerprints` | ots_federation/manager.py:228-235 | every non-blank item is bound to the stanza's key |
| `PeerPolicy.AddPeer` | ots_federation/manager.py:202-282 | one enabled stanza files its fingerprints, fallback and both maps under both of its keys |
| `PeerPolicy.SetDefaults` | ots_federation/manager.py:168-199 | the defaults are set when their maps yield any entry |
| `PeerPolicy.BuildGroupRegistry` | ots_federation/manager.py:135-290 | the registry built by the loops is the one the specification makes of the configuration |
| `PeerPolicy.WithPeerRow` | ots_federation/manager.py:202-282 | a stanza touches only its own keys and fingerprints, and where its keys are new leaves the row it makes alone |
| `PeerPolicy.PolicyIsTheStanzas` | ots_federation/manager.py:202-290 | without collisions, every key of a stanza maps every group, both ways, as if the stanza were the only one, and all its keys agree |
| `PeerPolicy.FingerprintsResolve` | ots_federation/manager.py:228-240 | without collisions, a listed certificate resolves to its stanza's declared id, or to `address:port` where none is declared; one resolves to nothing iff no enabled stanza lists it |
| `PeerPolicy.WrittenCertificates` | ots_federation/config.py:463-479 | for every list of digests, in any spelling and layout: a stanza's certificates are exactly those whose digests it lists, and each resolves to the stanza's key |
| `PeerPolicy.PolicyKeysNonEmpty` | ots_federation/manager.py:230-235 | whatever a certificate resolves to is never the empty key |
| `PeerPolicy.UnconfiguredGetsDefaults` | ots_federation/manager.py:168-206 | a key no stanza is filed under is governed by the defaults alone |
| `PeerPolicy.InboundMeaning` | ots_federation/groups.py:357-385 | the inbound lookup for every text of the maps, in terms of what they read as: last pair, last wildcard, default list, fallback, block; a map with a mistyped item names nothing |
| `PeerPolicy.ForgottenColon` | ots_federation/manager.py:249-259 | a stanza whose inbound map is `White`, with no defaults and no fallback, lets nothing in |
| `PeerPolicy.OutboundMeaning` | ots_federation/groups.py:457-465 | the outbound lookup likewise: a stanza that shares any group by name is decided by its own list, else the default list decides |
| `PeerPolicy.SharedAsEmptyExactly` | ots_federation/groups.py:457-465 | a group is blocked outbound iff the deciding list has no pair for it, and goes out under the empty name iff the last such pair has an empty right side |
| `Codec.ResolveNeverLoosens` | ots_federation/codec.py:348-352 | a peer may tighten a ceiling and never loosen it: the result is one of the two, within each positive one; two ceilings bind the same in either order |
| `Codec.DecodedExactly` | ots_federation/codec.py:394-407 | what arrives of a sidecar: chain and hop count unchanged, the clamped budget, and per-group limits iff they are switched on and not empty |
| `Codec.EncodeFederatedEvent` | ots_federation/codec.py:296-313 | the message carries the event, chain, hops and limits unchanged; it fails exactly when a number does not fit 32 bits |
| `Codec.LimitReached` | ots_federation/codec.py:623-637 | the loop over per-group limits decides by the first one for the group |
| `Codec.PrepareOutboundEvent` | ots_federation/codec.py:523-700 | sends what the send decision says, for the group the iteration happens to yield first |
| `Codec.PrepareExact` | ots_federation/codec.py:586-700 | exactly when an event is sent to a governed peer - our id not in its chain, budget and first limit for the group not used up, 32-bit numbers, some group shared - and exactly what leaves: chain, hops, budget, no per-group limits, the shared names |
| `Codec.PrepareUngoverned` | ots_federation/codec.py:586-700 | the same without a registry or a key: no group is asked for, and the message is untagged |
| `Codec.SentThenDecoded` | ots_federation/codec.py:396-407 | what one of our servers receives from another: chain and hop count grown by the sender, clamped budget, no per-group limits; the sender would not send it on again, to any peer, for any groups |
| `Relay.SendChain` | ots_federation/codec.py:588-595 | a message a server sends has the server's id appended to a chain that did not have it |
| `Relay.SendCoversOneMore` | ots_federation/codec.py:588-691 | every message sent covers one more server id than the event it came from |
| `Relay.StepLightens` | ots_federation/bus.py:85-89 | each delivery strictly lowers the weight of what is in flight |
| `Relay.FloodTerminates` | ots_federation/manager.py:360-378 | every run of a flood from any server has at most d * (d + 1)^(n - 1) deliveries |
| `Relay.CanComplete` | ots_federation/bus.py:85-89 | every run can be carried on to one with nothing left in flight |
| `RelayRoutes.StepConserves` | ots_federation/bus.py:85-89 | delivered plus still to be delivered never changes in total |
| `RelayRoutes.RunConserves` | ots_federation/bus.py:85-89 | that total is fixed by the mesh and the origin, over every run |
| `RelayRoutes.ScheduleIndependent` | ots_federation/bus.py:85-89 | any two complete floods of an event deliver the same events to the same servers equally often |
| `RelayRoutes.FloodDeliversEachRouteOnce` | ots_federation/manager.py:360-378 | a complete flood delivers once per route that gets through, and nothing else |
| `RelayLaws.HopExact` | ots_federation/codec.py:586-700 | one link, sender and receiver together: when the event crosses it and as what |
| `RelayLaws.RouteExact` | ots_federation/codec.py:650-698 | an event gets through along a route iff every link is open and the composed image of its groups is not empty, and what it then carries |
| `RelayLaws.ImageIsTraceable` | ots_federation/groups.py:411-431 | a group is attached at the end iff it can be traced back, mapping by mapping, to a group of the origin |
| `RelayLaws.ImageMonotone` | ots_federation/groups.py:467-493 | more groups at the origin never mean fewer at the end |
| `RelayLaws.ArrivalsMonotone` | ots_federation/codec.py:650-698 | an event with more groups arrives wherever the smaller one does, in at least its groups |
| `RelayLaws.ClearNeverRepeats` | ots_federation/codec.py:588-595 | no server sends an event twice along a route that gets through |
| `RelayLaws.BudgetEffective` | ots_federation/codec.py:348-352 | the budget at the end of a route is within every positive declaration on it, is one of them, and is the last when none is positive |
| `RelayLaws.RelayHopsExact` | ots_federation/codec.py:597-606 | a server may relay, as far as hops go, iff the links taken are fewer than every positive declaration, or none is positive and its own ceiling is unlimited |
| `RelayLaws.HopCeiling` | ots_federation/codec.py:598-606 | a route that gets through has no more links than any positive ceiling on it, the last server's aside |
| `RelayLaws.ServersVisited` | ots_federation/codec.py:348-352 | an event that arrives has visited at most c + 1 servers if any server that relayed it has a ceiling within 1 and c |
| `RelayLaws.RunRouted` | ots_federation/bus.py:85-89 | in every reachable state each message in flight is what the last link of its route carries |
| `RelayLaws.HopLaw` | ots_federation/codec.py:680-691 | in every reachable state hop count, chain length and route length agree, chains have no repeats, and no positive budget is exceeded |
| `LoopFilter.LoopFilter.StampInbound` | ots_federation/loop_filter.py:103-171 | the tree with the two stamps appended to its first detail, one being made if there is none |
| `LoopFilter.LoopFilter.ShouldRelayOutbound` | ots_federation/loop_filter.py:202-300 | the decision and the new duplicate memory: duplicates are refused without being renewed, accepted ones remembered even if a stamp then refuses them |
| `LoopFilter.LoopFilter.CleanForRelay` | ots_federation/loop_filter.py:302-344 | the tree with all stamps of its first detail removed |
| `LoopFilter.LoopFilter.RemoveAll` | ots_federation/loop_filter.py:340-342 | the removal loop leaves exactly the children of other tags, in order |
| `LoopFilter.CleanedExactly` | ots_federation/loop_filter.py:335-344 | stripping keeps every other child in order and changes nothing else |
| `LoopFilter.CleanedIsClean` | ots_federation/loop_filter.py:335-344 | stripping is idempotent, and a stripped event passes the filter of every server |
| `LoopFilter.CleanCancelsStamp` | ots_federation/loop_filter.py:142-171 | stripping a stamped event is stripping the event iff there was a detail to stamp into, or nothing to stamp |
| `LoopFilter.StampLeavesDetail` | ots_federation/loop_filter.py:142-145 | a concrete event without a detail that does not come back as it was |
| `LoopFilter.StampIsRecognised` | ots_federation/loop_filter.py:272-298 | a stamped event that keeps its detail children is refused by its stamper and by every server in its chain whose own id is listable, whatever the other ids are |
| `LoopFilter.RefusedExactly` | ots_federation/loop_filter.py:272-300 | an event stripped, stamped with a listable chain and come back is refused by its stamper and the servers of the chain, and by nobody else |
| `LoopFilter.LoopsExactly` | ots_federation/loop_filter.py:272-300 | whatever stamps an event comes with, a server refuses it iff some `_fedprov` child of its detail has the server's id as its own, or in its comma-separated chain with any blanks around it |
| `LoopFilter.StampByExample` | ots_federation/loop_filter.py:143-170 | one stamped event in full: tags, attributes, chain and numbers as text |
| `LoopFilter.MemberSurvives` | ots_federation/loop_filter.py:288-291 | an id without a comma comes out of a joined chain, whatever else is in it |
| `LoopFilter.ChainRoundTrip` | ots_federation/loop_filter.py:383-385 | a chain is read back as written iff every id is non-empty, comma-free and trimmed |
| `LoopFilter.CommaSplitsChain` | ots_federation/loop_filter.py:385 | a concrete chain that is not read back |
| `LoopFilter.CallsFollowTrace` | ots_federation/loop_filter.py:254-270 | after any run of calls the filter remembers what the bounded memory keeps, and calls an event a duplicate just when that memory rejects it |
| `LoopFilter.CallsRefineExactly` | ots_federation/loop_filter.py:254-270 | a run of calls checks duplicates as an unbounded memory would iff no looked-up duplicate comes after 2048 other accepted uids |
| `LoopFilter.StampRoundTrip` | ots_federation/loop_filter.py:350-394 | stripping, stamping and reading gives our id, both hop numbers with 0 read as -1, and the chain exactly when it is listable |
| `LoopFilter.BareStamps` | ots_federation/loop_filter.py:371-394 | how incomplete stamps read: no budget as -1, no hop count as 0, a budget that is no number hides both |
| `Dedup.BoundedIsMostRecent` | ots_federation/loop_filter.py:266-270 | the bounded memory is always the 2048 most recently accepted uids |
| `Dedup.RecencyOrdered` | ots_federation/loop_filter.py:266-268 | under a clock that never runs back, entries stay in order of acceptance time |
| `Dedup.BoundedForgetsExactly` | ots_federation/loop_filter.py:266-270 | a uid's last acceptance is known iff fewer than 2048 other uids were accepted since |
| `Dedup.BoundedRefinesExactly` | ots_federation/loop_filter.py:254-270 | on any trace and clock, every decision equals the unbounded memory's iff no duplicate comes after 2048 other uids |
| `Dedup.RejectedExactly` | ots_federation/loop_filter.py:255-270 | what the unbounded memory amounts to: an event is rejected iff the latest event of its uid that was not rejected itself is less than a window before it |
| `Dedup.BoundInvisible` | ots_federation/loop_filter.py:254-270 | so it does when the clock never runs back and no window-length stretch accepts more than 2048 uids |
| `Dedup.DuplicateSlipsThrough` | ots_federation/loop_filter.py:266-270 | after n uids at once the first passes again, where the unbounded memory refuses it, iff n > 2048 |
| `EudGroupCache.EudGroupCache.UpdateGroup` | ots_federation/eud_group_cache.py:50-67 | adds the group to whatever the entry holds, expired or not, and renews it |
| `EudGroupCache.EudGroupCache.ReplaceGroups` | ots_federation/eud_group_cache.py:69-79 | replaces the entry and renews it |
| `EudGroupCache.EudGroupCache.GetGroups` | ots_federation/eud_group_cache.py:85-112 | answers an unexpired entry and removes an expired one |
| `EudGroupCache.EudGroupCache.EvictExpired` | ots_federation/eud_group_cache.py:118-140 | removes exactly the expired entries and counts them |
| `EudGroupCache.TraceLaw` | ots_federation/eud_group_cache.py:65-112 | after any operations a lookup answers iff the uid was written within the lifetime, with what its writes since the last one that found no entry add up to, which is the first or comes after a gap |
| `EudGroupCache.StoredExactly` | ots_federation/eud_group_cache.py:65-79 | under any clock, what is stored is what those writes add up to |
| `EudGroupCache.KeptStartsStretch` | ots_federation/eud_group_cache.py:104-140 | that write is the first one or comes after a gap, so not after the start of the last stretch |
| `EudGroupCache.NoGapNoLoss` | ots_federation/eud_group_cache.py:65-112 | without gaps the answer is what all the writes add up to |
| `EudGroupCache.AnswersWereWritten` | ots_federation/eud_group_cache.py:65-112 | no group is answered that was not written for that uid |
| `EudGroupCache.ExpiredGroupsCanReturn` | ots_federation/eud_group_cache.py:65-67 | a concrete run in which a group last written more than a lifetime ago is answered, which a cache that forgets at the tick of expiry does not answer |
| `EudGroupCache.AbsentExactly` | ots_federation/eud_group_cache.py:104-140 | both dictionaries always have the same keys, and a uid has an entry iff it was written and not purged since |
| `EudGroupCache.EagerAnswers` | ots_federation/eud_group_cache.py:65-112 | a cache that removes whatever is expired before each operation answers iff the uid was written within the lifetime, with what its writes since the last gap add up to |
| `EudGroupCache.LazyIsEagerExactly` | ots_federation/eud_group_cache.py:65-112 | over the same operations this cache and that one answer at the same times, and the same groups iff the last stretch replaces everything at some point or contains whatever was carried over |
| `EudGroupCache.SweptIsEager` | ots_federation/eud_group_cache.py:104-140 | so they do whenever every write after a gap finds the entry swept |
| `OtsBus.OtsRmqBus.Connect` | ots_federation/ots_bus.py:191-262 | connecting opens the publish channel |
| `OtsBus.OtsRmqBus.WireStop` | ots_federation/ots_bus.py:783-784 | consuming hands over the stop signal |
| `OtsBus.OtsRmqBus.DmReachable` | ots_federation/ots_bus.py:522-557 | reachable iff the database answers and shares a group; no database or an error means not |
| `OtsBus.OtsRmqBus.SendDirect` | ots_federation/ots_bus.py:433-453 | publishes the direct plan up to the failing publication |
| `OtsBus.OtsRmqBus.SendToGroups` | ots_federation/ots_bus.py:461-470 | publishes one message per group topic up to the failing publication |
| `OtsBus.OtsRmqBus.PublishPlan` | ots_federation/ots_bus.py:402-497 | publishes the whole plan or the prefix before the failure |
| `OtsBus.OtsRmqBus.InjectEvent` | ots_federation/ots_bus.py:335-520 | the channel afterwards is that of one injection of the event's plan, failures, reconnect and stop included |
| `OtsBus.DirectPlanExact` | ots_federation/ots_bus.py:433-453 | direct messages go to exactly the reachable callsigns, each as often as it is named |
| `OtsBus.DirectPlanInOrder` | ots_federation/ots_bus.py:433-453 | and in the order they are named in |
| `OtsBus.BodyIsTheEvent` | ots_federation/ots_bus.py:389-396 | what is published is the event: its attributes, point and detail, and with a sidecar the two stamps at the end of the detail |
| `OtsBus.PlanExact` | ots_federation/ots_bus.py:403-497 | multiplicities, in terms of the event's tree: a reachable callsign gets the event once for each `dest` of the first `marti` that names it; the topic of each group gets it once iff there is no `dest`; the parser once if asked for or if there are no groups; nobody else |
| `OtsBus.ParserComesLast` | ots_federation/ots_bus.py:478-497 | the parser is last in the plan, so a failure before it keeps the event from it |
| `OtsBus.InjectionRuns` | ots_federation/ots_bus.py:191-520 | over any run of connecting once, wiring the stop, stop requests and injections, the channel is closed or below its failure threshold, and the broker has exactly the injections' outputs, each whole or cut at its failure |
| `OtsBus.ClosedMeansStopExactly` | ots_federation/ots_bus.py:511-520 | over any such run, once wired a closed channel means a stop was requested, except iff an unset signal was wired to a channel closed before |
| `OtsBus.StopCanBeMissed` | ots_federation/engine_main.py:253-265 | a concrete run in which failures before the wiring close the channel and no stop is requested |
| `OtsBus.MissedStopIsFinal` | ots_federation/ots_bus.py:399-401 | then no injection gets anything out any more, nor ends it |
| `OtsBus.CleanRuns` | ots_federation/ots_bus.py:398-499 | while no publish fails, an opened channel stays open and every plan is published |
| `OtsBus.ClosesOnlyAfter` | ots_federation/ots_bus.py:499-520 | an open channel closes only when the last injections, as many as the threshold says and one at least, all failed and the reconnect fails; a wired stop is then requested |
| `OtsBus.FailingStretch` | ots_federation/ots_bus.py:499-520 | and so many failures in a row, and no fewer, do close it, or leave it as good as new if the reconnect succeeds |
| `OtsBus.OtsRmqBus.OnGroupsMessage` | ots_federation/ots_bus.py:563-599 | a `<g>.OUT` message with a uid adds g to that uid's entry; any other changes nothing |
| `OtsBus.OtsRmqBus.OnFirehoseMessage` | ots_federation/ots_bus.py:662-760 | filter, strip, parse and look up, then settle what the cache could not answer, in that order |
| `OtsBus.OtsRmqBus.RelayToGroups` | ots_federation/ots_bus.py:724-760 | the cache's groups, else the database's non-empty answer, else nothing |
| `OtsBus.RelayedExactly` | ots_federation/ots_bus.py:694-760 | what each operation relays: an event that passes goes, stripped, to the groups the cache has for its uid; failing that it waits and goes to the groups the database then names, if any; nothing else is relayed |
| `OtsBus.RememberedExactly` | ots_federation/ots_bus.py:694-744 | and what it does to the duplicate memory and the cache |
| `OtsBus.MessagesExactly` | ots_federation/ots_bus.py:580-597 | a message adds a group for a uid iff its key is that group and `.OUT` and it names the uid; any other changes nothing |
| `OtsBus.AnnouncedGroup` | ots_federation/ots_bus.py:580-760 | in every run, an event that passes within the lifetime of an announcement is relayed at once, to the announced group among others, except iff a lookup was under way at the announcement and its answer, coming later, lacks the group |
| `OtsBus.AnnouncementCanBeLost` | ots_federation/ots_bus.py:724-744 | a concrete run in which it is lost so |
| `OtsBus.FailClosed` | ots_federation/ots_bus.py:580-760 | in every run, whatever an operation relays has no stamp and a non-empty group set, each group backed by an operation up to then: a `<g>.OUT` message for that uid, or the database's answer to a lookup the cache missed |
| `OtsBus.EchoesAreNotRelayed` | ots_federation/ots_bus.py:386-396 | an injected event that returns with its detail children intact changes nothing but the duplicate memory, at its injector and at every server in its chain whose id is listable |
| `Bridge.FederationBridge.Enqueue` | ots_federation/bridge.py:67-84 | the item is queued even when the wakeup byte does not fit |
| `Bridge.FederationBridge.Drain` | ots_federation/bridge.py:86-129 | hands over everything in order, or nothing when reading the wakeups fails |
| `Bridge.NoLostWakeup` | ots_federation/bridge.py:80-129 | in every interleaving, puts are handed over plus queued, in order and once, and a non-empty queue always has somebody about to see to it unless an error destroyed a wakeup or the drainer stopped |
| `Bridge.RestMeansDelivered` | ots_federation/bridge.py:100-129 | when no thread can move, everything put has been handed over |
| `Bridge.FinishingProgress` | ots_federation/engine_main.py:78-84 | each step that finishes begun work leaves strictly less to do |
| `Bridge.FinishingEnds` | ots_federation/engine_main.py:78-84 | such steps come to an end, and can go on until everything rests |
| `Bridge.EverythingGetsThrough` | ots_federation/bridge.py:100-129 | when they cannot go on, every event put has been handed over iff nothing was stranded when they set out |
| `Bridge.ActionStrandsExactly` | ots_federation/bridge.py:80-109 | which action leaves a queued item with no wakeup: a failed read with no byte or send left, or the last send failing with no byte left while the drainer waits |
| `Bridge.StrandedExactly` | ots_federation/bridge.py:80-109 | after any run something is stranded iff the last action was one of those, and only another enqueue or the end can follow |
| `Bridge.ReadErrorStrands` | ots_federation/bridge.py:107-109 | a concrete run in which one read error leaves an item queued with no wakeup to come |
| `Bridge.SendErrorStrands` | ots_federation/bridge.py:81-84 | a concrete run in which one send error does |
| `Intake.AcceptedExact` | ots_federation/fed_server.py:258-314 | exactly when a governed peer's message is let in, into which groups, and with which provenance |
| `Intake.UngovernedExact` | ots_federation/client.py:671-740 | without a registry or a key, a message is let in iff it carries a well-formed event that is no forbidden deletion, into no groups |
| `Intake.PolicyOnlyRefuses` | ots_federation/fed_server.py:280-303 | quarantine lets nothing in, and policy changes nothing but groups and refusals |
| `PeerLink.InboundPeerLink.SendEvent` | ots_federation/fed_server.py:80-113 | the queue grows by the message the send decision makes, or not at all |
| `PeerLink.InboundPeerLink.RequestStop` | ots_federation/fed_server.py:130-132 | the stop flag alone is set |
| `FedServer.CertificateDecides` | ots_federation/fed_server.py:670-693 | with a certificate and a registry, address, earlier registrations and claimed id have no say |
| `FedServer.WithoutCertificate` | ots_federation/fed_server.py:586-604 | without a certificate or a registry a connection is what it calls itself, else the id last registered for its address, else its address, and is not quarantined |
| `FedServer.StandingExact` | ots_federation/fed_server.py:280-303 | without a registry its messages are ungoverned, in quarantine refused, and otherwise under its key's policy |
| `FedServer.StreamGrows` | ots_federation/fed_server.py:254-314 | a stream puts on the bridge, in order, the event of each message that is accepted, and nothing else |
| `FedServer.FederatedChannelServicer.RegisterPeerAddr` | ots_federation/fed_server.py:566-584 | a non-empty id is remembered for a non-empty address |
| `FedServer.FederatedChannelServicer.ResolvePeerId` | ots_federation/fed_server.py:586-604 | the id remembered for the address, or the address |
| `FedServer.FederatedChannelServicer.ResolveAuthenticatedPeer` | ots_federation/fed_server.py:606-693 | who a connection is, quarantined exactly when its certificate is not configured |
| `FedServer.FederatedChannelServicer.HandleEvent` | ots_federation/fed_server.py:254-314 | one event of a stream puts what is accepted of it on the bridge, under an identity resolved anew |
| `FedServer.FederatedChannelServicer.ServerEventStream` | ots_federation/fed_server.py:211-318 | a stream puts exactly its accepted events on the bridge in order; an empty one ends in an error |
| `FedServer.FederatedChannelServicer.OpenClientEventStream` | ots_federation/fed_server.py:335-359 | a fresh link, registered for fan-out unless quarantined, and the address remembered |
| `FedServer.FederatedChannelServicer.CloseClientEventStream` | ots_federation/fed_server.py:361-371 | the link is stopped and deregistered unless quarantined |
| `Client.FederateClient.SendEvent` | ots_federation/client.py:229-268 | nothing unless ACTIVE; otherwise the queue grows as the send decision says for the key the session is bound to |
| `Client.FederateClient.HandleInbound` | ots_federation/client.py:671-740 | puts on the bridge exactly what is accepted under the policy of the key the session is bound to |
| `Client.FederateClient.RequestStop` | ots_federation/client.py:270-273 | sets the stop flag and DRAINING |
| `Client.ActiveMeansConfirmed` | ots_federation/client.py:402-473 | in every interleaving, ACTIVE means the key is the configured one of the single certificate seen both before the first call and after the streams were open |
| `Client.ReportsDoNotMatter` | ots_federation/client.py:415-454 | with a registry, runs that differ only in what the peer reports, and not in where that is the expected id, go through the same states; with no expected id configured they may differ in any way |
| `Client.ExpectedIdIsReported` | ots_federation/client.py:434-448 | with an expected id configured, only a session in which the peer reported it gets past the check |
| `Client.KeysAreOfTheSession` | ots_federation/client.py:316-454 | in every run, the link has no key and no reported id outside a session, and without a registry its key is the id the peer reported |
| `Client.BackoffSchedule` | ots_federation/client.py:284-320 | the pauses are set to 30, 60, 120, 240 and then always 300 seconds, however the sessions between went, and last that long unless a stop cuts them short |
| `Client.PauseAfterService` | ots_federation/client.py:284-320 | a session that served and then ended by itself is followed by the next pause in line, the shortest one only if it is the first |
| `Client.StopEndsThreadExactly` | ots_federation/client.py:286-655 | at any moment after a stop request, the thread can come to await the peer iff it does already or its setup is past the last look at the stop flag and leads there; otherwise it always has a step of its own to take until it has exited |
| `Client.StopCanHang` | ots_federation/client.py:286-655 | from the start, a stop request can leave the thread hanging on a silent peer iff the configuration lets any session get to its first call |
| `Client.StoppedThreadExits` | ots_federation/client.py:286-322 | after a stop request the thread takes at most fifteen more steps and starts no session; it can move on its own iff it has not exited and is not in a call that awaits the peer |
| `Client.SilentPeerHoldsThread` | ots_federation/client.py:653-655 | a thread that awaits a silent peer stays where it is, stop or no stop, so the hang is for good |
| `Client.DrainingIsFinalExactly` | ots_federation/client.py:270-316 | DRAINING stays for good iff the thread is not going to write the state once more: setting a session up, unless its last look at the stop flag or its certificate is bound to end it first, or about to set RECONNECTING |
| `Client.DrainingIsNotFinal` | ots_federation/client.py:286-386 | a concrete run in which a session being set up overwrites DRAINING |
| `Client.ReconnectingOverwritesDraining` | ots_federation/client.py:305-316 | a concrete run in which RECONNECTING overwrites DRAINING after the session is over, and the thread exits so marked |
| `Client.LeavesActiveExactly` | ots_federation/client.py:286-498 | after any run with a stop requested, the thread can still exit and leave the link ACTIVE iff its setup is past the last look at the stop flag and can be bound, or ACTIVE is set and the session is served or has failed |
| `Client.StopCanLeaveActive` | ots_federation/client.py:286-307 | from the start, a stop request can end so iff the configuration lets any session go ACTIVE |
| `Manager.FederationManager.constructor` | ots_federation/manager.py:77-132 | one client per enabled peer's name, with that peer's hop budget, our ceiling and the one registry |
| `Manager.NamedExactly` | ots_federation/manager.py:110-132 | there is a client for a name iff some enabled peer has it, and it is the last such peer's |
| `Manager.FederationManager.RegisterInboundLink` | ots_federation/manager.py:305-315 | the link is appended to its peer's row |
| `Manager.FederationManager.DeregisterInboundLink` | ots_federation/manager.py:317-329 | its first occurrence is removed, and the row with it when empty |
| `Manager.FederationManager.InboundLinksSnapshot` | ots_federation/manager.py:331-338 | a flat list with every row whole and in order, and nothing else |
| `Manager.TableHoldsLiveLinks` | ots_federation/manager.py:313-328 | after any history the table holds each link exactly as often as it is live |
| `Manager.NoEmptyRow` | ots_federation/manager.py:323-328 | no history leaves an empty row |
| `Manager.AllGone` | ots_federation/manager.py:323-328 | when no link of a peer is live its row is gone |
| `Manager.FederationManager.OnOutbound` | ots_federation/manager.py:340-378 | every ACTIVE client but the source is offered the event once; an inbound link filed under one peer is offered it as often as it is filed, and never if it is the source or the source - link or client - is that peer's; nothing else changes |
| `Manager.OfferedAsFiled` | ots_federation/manager.py:371-378 | a link filed under one peer is offered the event as often as it is filed, and never if it or its peer is the source |
| `Manager.OfferedOnce` | ots_federation/manager.py:313-378 | after any history of connections, each live link is offered the event exactly once, unless it or its peer is the source, and no other link at all |
| `Manager.RouterFakeBus.Inject` | ots_federation/bus.py:85-89 | the event is delivered and then fanned out |
| `Federation.ReceiveIsIntake` | ots_federation/fed_server.py:288-314 | what a server accepts of a message is what a server of the mesh receives |
| `Federation.SendIsAppend` | ots_federation/codec.py:586-700 | what it leaves in a link's queue is what a server of the mesh sends on that link |
| `Federation.SkipsIsFanOut` | ots_federation/manager.py:371-378 | the inbound links fan-out passes over are those a server of the mesh does not send back on, and of the dialed ones just the source |
| `Federation.LimitsEndAtTheFirstHop` | ots_federation/codec.py:680-691 | per-group limits never outlive a hop |
| `Federation.BothDirectionsAgree` | ots_federation/client.py:519-586 | a certificate binds a dialed server to a key iff it binds a connecting peer to it, and a dial is refused iff that peer would be quarantined |
| `Federation.ListedCertificate` | ots_federation/fed_server.py:681-693 | a configured certificate gets its stanza's policy as if no other existed, whatever the peer claims |
| `Federation.UnlistedCertificate` | ots_federation/fed_server.py:681-691 | any other gets nothing, whatever the defaults allow, in either direction |
| `Federation.ActiveSession` | ots_federation/client.py:402-473 | a dialed session that is ACTIVE under a configuration belongs to an enabled stanza: the one certificate seen at both looks is listed there, and the session's key is that stanza's |
| `Federation.BoundSession` | ots_federation/client.py:245-268 | what a client bound to a listed certificate's key sends and lets in is governed by that stanza as if no other existed |
| `Federation.QuarantineIdCollidesExactly` | ots_federation/fed_server.py:681-691 | without collisions, the stand-in id of a quarantined connection is the key some certificate resolves to iff an enabled stanza with a certificate goes by that very text |
| `Federation.QuarantineIdCanCollide` | ots_federation/fed_server.py:621-625 | a configuration in which it is |
| `Federation.CertifiedHop` | ots_federation/groups.py:357-493 | from one operator's file to another's: an offered event is sent over a certified link and gets in iff its envelope may pass, its type is let in, and some group of it is named by the one's outbound list and admitted by the other's inbound list; it enters exactly the groups so reached |
| `Federation.SentExactly` | ots_federation/codec.py:586-700 | what leaves for a governed peer: the one message, iff the envelope may pass and a group is shared |

## Left out

- Transport, broker, TLS, database and channelz: their answers (certificates seen, ids reported, publish and reconnect
  outcomes, database answers, failures) are parameters or steps; clocks are parameters, and times are integers.
- XML text: events are trees of elements with attributes and ordered children, and text that does not parse is a case of its
  own; tail text, character data, namespaces, comments and serialisation are not represented.
- Event bodies: timestamps, coordinates, TAK user and chat fields are not represented; an event is its uid, type and detail.
- `int()` on Unicode digits and underscores, and `upper()` outside ASCII: only plain decimal text and ASCII letters are read
  as the program reads them. The text functions otherwise use Python's set of blanks.
- Contact entries and the events synthesized from them, `SendOneEvent`, the announced-groups table, logs, health checks,
  blob and ROL streams: these add no decision that is not made elsewhere in the model.
- OtsBus.OtsRmqBus.OnFirehoseMessage: one call runs both halves of a message without interference; that other threads may
  come in between is in the runs `OtsBus.FailClosed` speaks of.
- Codec.PrepareOutboundEvent: the first group of a set is any of its elements, so with per-group limits the outcome is
  stated for some choice; the mesh fixes one choice per set.
- Relay.FloodTerminates: links are established and lossless, and configuration does not change, while an event floods;
  queue limits and reconnects are not part of the mesh. Every server is one of ours with a registry, and events start
  without provenance, as locally originated ones do.
- Federation.CertifiedHop: stated for events none of whose groups is over a per-group limit (what our servers relay carries
  none), and for the listening side of the receiver; `Federation.BothDirectionsAgree` carries it to the dialing side.
- Client.ActiveMeansConfirmed: the session thread is a step system and its link object a class beside it; streams inside an ACTIVE
  session are not steps of their own, and an error may end any call.
- FedServer.FederatedChannelServicer.ServerEventStream: one call runs without interference, so the identity it resolves for
  each event is the same one; `HandleEvent` is the step between which other streams may register addresses.
- Bridge.FederationBridge.Drain: one call at a time; the interleavings are the step system of the same module. Items are
  handed over whether or not the bus then raises.
- PeerPolicy.PolicyIsTheStanzas: says nothing of stanzas that share a key or a fingerprint; those overwrite each other row by
  row.
- Manager.FederationManager.OnOutbound: runs without interference from registrations and other fan-outs; iteration order
  of the client table is arbitrary.
- Command line, process supervision, certificate generation and the rest of the configuration: not modelled.
- Disagreements of code and comments, where the model follows the code, are in the table of promises above; besides those,
  the reconnect delay does not use the configured interval (ots_federation/client.py:284-320).
- Federation.QuarantineIdCollidesExactly: stated without key or fingerprint collisions. No event of such a connection is
  accepted, whatever its stand-in id equals (`Federation.UnlistedCertificate`).
