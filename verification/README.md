# Verified model of the node's reconciliation core

A Dafny model of the parts of the node that keep several copies of one state in step, with proofs
of what they promise. `dafny verify dfyconfig.toml` checks all of it.

**WireGuard reconciliation.** User lists become a map of wanted peers, which is compared with a
two-index store (public key to peer, email to public key); the difference or a full snapshot goes to
the kernel; then the store is committed. The kernel is a map from key to a set of prefixes, with
add, replace and remove entries in a batch, and *with* the rule of the kernel's allowed-IPs trie that
a prefix configured on one peer is taken from every other. A configure call may be refused as a whole.

| file | holds |
|---|---|
| `Base64.dfy`, `WgKeys.dfy`, `Cidr.dfy` | base64, key texts, prefixes and the pool check |
| `PeerStore.dfy`, `DesiredPeers.dfy`, `Kernel.dfy`, `SyncDiff.dfy`, `WireGuard.dfy` | the code: classes and loops, each proved against functions and step relations |
| `WantedUsers.dfy` | which users get which peers, in terms of list and interface configuration only |
| `SyncSteps.dfy` | startup, full sync, partial sync and restart as relations between states |
| `SyncTheorems.dfy`, `PartialSyncTheorems.dfy`, `NodeTheorems.dfy` | store and device after one step, for any key texts |
| `CallOutcomes.dfy` | when a call returns nil, and that it leaves everything alone when it does not |
| `Refinement.dfy` | the partial sync as a fast form of the full one |
| `Lifecycle.dfy`, `Interleaving.dfy` | whole runs, with a shutdown between any two steps of a sync; each sync in them is one step of the relations, and the other way round |
| `ForeignPrefix.dfy`, `KeySpelling.dfy`, `Examples.dfy` | the inputs on which agreement is lost |
| `StaleIndex.dfy` | a run whose email index leads astray, and what that costs |

**Traffic accounting.** `Tracker.dfy` has the per-key counters with baselines; `TrafficLedger.dfy`
compares them, over arbitrary runs, with plain bookkeeping that has neither baselines nor saved
deltas. `TrafficReports.dfy` has what reads hand out, under which name. `InterfaceCounters.dfy` is the
companion for the whole interface.

**Xray clients and configuration.** `XrayClients.dfy` and `XrayConfig.dfy` have the three ways of
updating client maps, `XrayAccounts.dfy` the accounts in them protocol by protocol, `Password.dfy` the
password normalisation they rest on, `XrayTransaction.dfy` the clone, restart, restore transaction,
`ApplyApi.dfy` and `ApplyApiMeaning.dfy` the normalisation of inbounds and rules.

**Two data structures.** `LogRing.dfy` is the ring of startup log lines, `Chunks.dfy` the
reassembly of chunked user lists.

## Where the code keeps less than one would expect

The model follows the code. Where a natural property fails, there is a concrete family of inputs and
the exact condition under which the property holds.

- The wanted map is filed under the key text of the request, the store under the text the parsed key
  prints as (`backend/wireguard/user_common.go:279`), and Go's base64 decoder skips line breaks, so
  every key has other spellings (`KeysHaveOtherSpellings`). Partial sync looks up the one text in the
  other and does not look at prefixes (`backend/wireguard/user_partial_sync.go:36-45`). From an agreeing
  state whose email index is right about the users of the request, and for any key texts, device and
  store agree after it exactly when (`PartialSyncAgreesIff`) no two texts of the request spell one key,
  no stored key of its users is spelled in another way, a key stored for a user outside it is wanted
  only together with all its prefixes, and no other user outside it holds one of its prefixes. Without
  the last part the device still gives no peer more than the store, again exactly
  (`PartialSyncWithinIff`). Each part has its failing family: `KeySpelledTwice`, `RespelledKeyIsLost`,
  `ForeignKeyIsTaken` (a user outside the request loses its entry) and `ForeignPrefixIsLetThrough`. The
  smallest inputs are `LostPeer`, `TakenKey` and `TakenPrefix`, and for the first part `StaleStart`.
- The statistics a partial sync drops are those of the keys that left the store exactly when the request
  spells no stored key of its users only in another way (`DroppedAreGoneIff`).
- When two texts of a startup list or of a full sync spell one key, the email index files two users under
  it (`CommitBijectiveIff`, `StaleStart`). A full sync repairs that only when it finds something to
  change (`FullSyncShape`, `StaleKept`), a restart never does (`StaleRestarts`). A later partial sync then
  drops peers of users it does not mention, exactly when the index files an email of the request under the
  key of such a user and the request does not name that key (`DroppedOwnersIff`, `StaleRemoves`). And a
  diff with nothing for the kernel can lose a wanted peer from the store, exactly when an upsert takes a key
  away that no later one brings back (`OtherCommitsOnlyRename`, `StaleGrows`, `StaleDisplaces`); so that
  commits follow their configure call (`CommitsFollowTheirConfigure`) needs an index that is right about
  the users of each partial sync.
- A full snapshot leaves agreement exactly when no two texts spell one key (`CommitAgreesIff`,
  `FullSyncShape`, `StartupShape`). A full sync that finds nothing to change returns before it talks to
  the kernel (`backend/wireguard/user_full_sync.go:23-25`), so it leaves a disagreeing device as it is
  (`FullSyncShape`; reached in `NotRepaired`). A restart repairs it, exactly when no prefix is stored
  twice (`RestartShape`).
- The partial sync gives the store of the full sync exactly when no two texts of the combined list
  spell one key and the full sync does not return early from such an index (`PartialRefinesFullIff`). Which
  of them accepts what is exact for any texts (`AcceptanceIff`): the full sync compares texts and prefix
  claims, the partial one compares texts of the request with texts of stored keys. Where peers are wanted
  under their keys' own texts, the full sync refuses what the partial one accepts exactly when a prefix
  is claimed by a user that stays (`FullAcceptsIff`).
- A bulk update stores accounts first and removes emails afterwards. For every request, repeated
  emails included, it differs from the same users one by one exactly when some email is inactive in
  one entry and active in its last (`BulkEqualsEachIff`, `InactiveThenActive`). Either differs from a
  rebuild exactly as `BulkEqualsRebuildIff` and `EachEqualsRebuildIff` say; a 2022 password is
  normalised twice on those paths, which on a method that names none of the known ciphers changes an
  account exactly when the hash tells the two passwords apart (`UnsettledKeptIff`).
- The loop of `ApplyAPI` deletes from the slice it walks. It removes all API inbounds exactly when no
  two of them are neighbours and the last inbound is not one of several (`RemovalCorrectIff`);
  neighbours leave one behind (`NeighboursLeaveOne`), the other case is a slice panic (`LastOfTwoPanics`).
- A list of interface counter calls loses traffic exactly when at some call the counters fall below the
  baseline after having moved off it (`NothingLostIff`).
- A late sample of a key that a resetting read, cleanup or clearing made the tracker forget is credited
  from zero (`pkg/stats/tracker.go:63-114`), so a peer is credited with more than the kernel counted exactly
  there, unless its counters started again (`OvercreditedIff`, `BilledTwice`); without such samples nobody
  is billed more than the kernel counted (`BilledAtMostCounted`).

## Model

| member | source | states |
|---|---|---|
| `Base64.DecodeOfEncode` | `common/helper.go:39-65` | decoding what was encoded gives back every byte sequence, by Go's StdEncoding (section 4 of RFC 4648) |
| `Base64.EncodeLength` | `common/helper.go:39-65` | four characters per started group of three bytes |
| `Base64.Alphabet` | `common/helper.go:39-65` | the sixty-four characters (table 1 of RFC 4648) |
| `Base64.QuantumIsNumber` | `common/helper.go:39-65` | three bytes and their four characters are one number read from the left; shorter rests end in pads |
| `Base64.DecodesIff` | `common/helper.go:39-65` | a text without line breaks decodes iff it is characters of the alphabet with at most two pads to a multiple of four |
| `Base64.BreaksAreSkipped` | `backend/wireguard/user_common.go:236-240` | a carriage return or line feed anywhere makes no difference to decoding |
| `WgKeys.ParseOfText` | `backend/wireguard/user_common.go:236-240` | the text a key prints as parses to that key and is canonical |
| `WgKeys.KeyTextInjective` | `backend/wireguard/user_full_sync.go:58-66` | two keys that print alike are one key, so filing peers by text merges none |
| `WgKeys.KeysHaveOtherSpellings` | `backend/wireguard/user_common.go:236-240` | every key has a second text that ParseKey accepts |
| `Cidr.PeerIPAllowedIff` | `backend/wireguard/user_common.go:198-219` | for masked prefixes and a nonempty pool list, a prefix is let through iff one pool prefix of its family holds each of its addresses (section 3.1 of RFC 4632, section 2.3 of RFC 4291); an empty list lets all through |
| `Cidr.PoolCoversIffCovers` | `backend/wireguard/user_common.go:206-216` | comparing network address and mask length decides containment of the whole run of addresses |
| `Cidr.HeldByHalves` | `backend/wireguard/user_common.go:206-216` | the addresses a prefix stands for: one for full length, otherwise those of its two halves |
| `DesiredPeers.InterfaceNetworks` | `backend/wireguard/config.go:141-158` | the parsed addresses in order, the others left out |
| `DesiredPeers.NormalizeUsers` | `backend/wireguard/user_common.go:317-339` | returns, in some order, the last usable user of each email, each once |
| `DesiredPeers.CollectDesiredPeers` | `backend/wireguard/user_common.go:221-288` | the loop computes the function the lemmas below are about, errors included |
| `DesiredPeers.CollectShape` | `backend/wireguard/user_common.go:221-288` | for distinct emails it succeeds iff no two users claim one prefix or want one key text, and then returns exactly what each user asks for on its own |
| `DesiredPeers.CollectConfluent` | `backend/wireguard/user_common.go:317-339` | under every permutation of the users it fails or succeeds alike and returns the same map, so map iteration order has no effect |
| `DesiredPeers.ScanIpsShape` | `backend/wireguard/user_common.go:244-272` | the scan of one user's addresses clashes iff one it gets to belongs to someone else, and otherwise claims those up to the first invalid one |
| `WantedUsers.CollectMeaning` | `backend/wireguard/user_common.go:221-288` | for users of distinct emails, in terms of users and configuration only: it succeeds iff no two users conflict (a prefix both claim, a key text both would get a peer under), and then text t is in the result iff some user has the interface among its inbounds, key text t that parses, only addresses that parse, and one of them inside an address of the interface (anywhere, if none parses); the peer has that user's email and key and exactly those of its addresses, in order |
| `WantedUsers.CollectErrorMeaning` | `backend/wireguard/user_common.go:258-276` | when it fails, it names the first user in conflict with one before it, that one as the owner, and the prefix or key text |
| `WantedUsers.OnInterfaceIff` | `backend/wireguard/config.go:141-158` | which prefixes pass, in terms of the address texts of the interface |
| `WantedUsers.NormalizedIff` | `backend/wireguard/user_common.go:317-339` | a user is kept iff it has an email, a key text and addresses, and no such user with its email comes later |
| `PeerStores.PeerStore.Init` | `backend/wireguard/peer_store.go:25-38` | both maps after inserting a list |
| `PeerStores.PeerStore.ApplyChanges` | `backend/wireguard/peer_store.go:42-76` | both maps after the remove and the upsert loop, and the keys the remove loop took out |
| `PeerStores.ApplyChangesShape` | `backend/wireguard/peer_store.go:42-76` | for upserts with distinct keys and emails, and an email index that is right about those emails, it stays so, inverse indexes stay inverse, and the entries are the old ones minus removed keys, minus those sharing key or email with an upsert, plus the upserts; key swaps and chains included |
| `PeerStores.ApplyChangesOrderFree` | `backend/wireguard/peer_store.go:42-76` | the whole store is the same for every order of the keys and of the upserts |
| `PeerStores.EntriesDetermineStore` | `backend/wireguard/peer_store.go:9-21` | two one-to-one stores with the same entries are equal in both indexes |
| `PeerStores.PeerStore.ReplaceAll` | `backend/wireguard/peer_store.go:80-108` | the new contents, and as removed exactly the keys that are gone, each once |
| `PeerStores.InsertAllShape` | `backend/wireguard/peer_store.go:80-108` | for peers with distinct keys and emails the rebuilt store is one-to-one and holds exactly them |
| `PeerStores.UpsertAllKeeps` | `backend/wireguard/peer_store.go:57-73` | whatever keys the upserts share, the email index stays right about their emails, inverse indexes stay inverse, and every key upserted ends up with one of the upserts |
| `PeerStores.UpsertedKeysIff` | `backend/wireguard/peer_store.go:57-73` | with such an index, the keys stored after upserts of distinct emails: those upserted, and of the others those whose peer had none of the emails |
| `PeerStores.KeyLostIff` | `backend/wireguard/peer_store.go:57-73` | from any store, right index or not, a key is lost iff some upsert finds its email filed under it and no later upsert has the key |
| `PeerStores.PeerStore.GetAll` | `backend/wireguard/peer_store.go:130-139` | lists every stored peer once |
| `Kernel.Manager.ApplyPeers` | `backend/wireguard/manager.go:257-270` | a batch is applied as a whole or, refused or closed, not at all |
| `Kernel.Manager.ApplyPeersReplaceAll` | `backend/wireguard/manager.go:273-285` | the same, from an empty device |
| `Kernel.Manager.InitializeWithPeers` | `backend/wireguard/manager.go:177-254` | the device for every way the set-up ends: as before, empty, left over from a failed clean-up, or up with the peers of the batch only |
| `Kernel.Manager.Close` | `backend/wireguard/manager.go:316-341` | the client is gone for good, whatever closing it and deleting the link report |
| `Kernel.BatchKeepsExclusive` | `backend/wireguard/manager.go:257-301` | no batch leaves a prefix on two peers |
| `Kernel.SettersShape` | `backend/wireguard/manager.go:257-301` | after a batch of settings with disjoint prefixes and keys, each peer named has its list and, without replacement, what it had and the batch does not give away; every other lost exactly what the batch gives away |
| `Kernel.SettersAccumulate` | `backend/wireguard/manager.go:257-301` | in a batch that names a key twice without replacement, the lists of that key add up, and nobody loses more than the batch configures |
| `Kernel.RemoversShape` | `backend/wireguard/user_common.go:290-311` | a batch of removals takes out the named keys and touches nothing else |
| `SyncDiffs.BuildSyncDiff` | `backend/wireguard/user_common.go:58-145` | the removals, upserts and configs are those of the set difference of the two maps, removals and upserts sorted, and changed says whether there are any |
| `SyncDiffs.DiffUnique` | `backend/wireguard/user_common.go:58-145` | for every order of the two map walks: the same removals and upserts in the same order, the same flag, the same set of configs |
| `SyncDiffs.ConfigsMeaning` | `backend/wireguard/user_common.go:58-145` | whatever a diff configures is a wanted peer under its own key with its own list, never an empty one; whatever it removes is a stored key that is not wanted |
| `SyncDiffs.ConfigsInOrder` | `backend/wireguard/user_common.go:69-138` | a batch first replaces the lists of known peers, then adds the new ones, then removes, in the order of the key texts |
| `SyncDiffs.BuildTargetPeerConfigs` | `backend/wireguard/user_common.go:152-172` | a key-sorted snapshot of the peers that have an address, and their keys |
| `SyncDiffs.FilterUpsertsByAppliedKeys` | `backend/wireguard/user_common.go:177-188` | with or without the fast path, what is left is what was applied |
| `SyncDiffs.AppliedFilters` | `backend/wireguard/user_common.go:177-188` | the slow path keeps exactly the upserts with an applied key, as often as they occur and in order |
| `SyncDiffs.BuildRemoveConfigsForPeers` | `backend/wireguard/user_common.go:290-311` | a sorted removal for each key that parses |
| `SyncDiffs.BuildPeerConfigsForRestart` | `backend/wireguard/wireguard.go:309-325` | fails iff a stored peer has no address; else the key-sorted snapshot |
| `Enumerations.LessIff` | `backend/wireguard/user_common.go:129-157` | the order of sorted keys: by the first difference, a prefix first |
| `SyncDiffs.SnapshotUnique` | `backend/wireguard/wireguard.go:309-325` | a store has one key-sorted snapshot, so every enumeration of it gives the same batch |
| `WireGuards.WireGuard.New` | `backend/wireguard/wireguard.go:126-212` | a backend comes into being iff key, collection, manager and interface all work out, and then in the startup state |
| `WireGuards.WireGuard.SyncUsers` | `backend/wireguard/user_full_sync.go:9-56` | one full sync step of store, device and statistics; an error leaves all three as they were |
| `WireGuards.WireGuard.UpdateUsers` | `backend/wireguard/user_partial_sync.go:22-72` | one partial sync step of store, device and statistics; an error leaves all three as they were |
| `WireGuards.WireGuard.SyncUser` | `backend/wireguard/user.go:12-21` | refuses nil, else is a partial sync of one user |
| `WireGuards.WireGuard.RestartPeers` | `backend/wireguard/wireguard.go:246-296` | one restart step; the store and the statistics stay |
| `WireGuards.WireGuard.UpdateUsersAndRestart` | `backend/wireguard/user.go:41-50` | a partial sync and, if it went through, a restart |
| `WireGuards.WireGuard.Shutdown` | `backend/wireguard/wireguard.go:327-362` | stopped, without manager, client closed, store kept, the device gone if the interface was deleted |
| `WireGuards.WireGuard.PushSnapshot` | `backend/wireguard/user_full_sync.go:27-53` | succeeds iff running and accepted; then device, store and dropped statistics are those of one commit |
| `WireGuards.WireGuard.PushDiff` | `backend/wireguard/user_partial_sync.go:52-69` | nil iff there is nothing to configure or the kernel was reached and took it; only then is the store committed, and otherwise nothing changes |
| `WireGuards.WireGuard.AnyKeyOwnedByOther` | `backend/wireguard/user_partial_sync.go:36-45` | whether a wanted key is stored for a user outside the request |
| `WireGuards.WireGuard.ExistingPeersSubset` | `backend/wireguard/user_partial_sync.go:12-20` | the stored peers the email index gives for the touched emails |
| `WireGuards.WireGuard.ExistingPeersByKey` | `backend/wireguard/user_full_sync.go:58-66` | the whole store by key |
| `CallOutcomes.FullSyncOutcome` | `backend/wireguard/user_full_sync.go:9-56` | SyncUsers returns nil iff no two users conflict and the stored peers are the wanted ones or the kernel was reached and took the snapshot; otherwise store, device and statistics are as before |
| `CallOutcomes.PartialSyncOutcome` | `backend/wireguard/user_partial_sync.go:22-72` | UpdateUsers returns nil iff no two users conflict, no wanted text is stored for somebody else, and there is nothing for the kernel or it was reached and took the batch; otherwise nothing changes |
| `CallOutcomes.RestartOutcome` | `backend/wireguard/wireguard.go:246-296` | a restart returns nil iff every stored peer has an address and the kernel was reached and took it; the store never changes, nor the device on an error |
| `CallOutcomes.TargetMeaning` | `backend/wireguard/user_common.go:221-288` | what a request asks for, in terms of the request: the peers of exactly the users that are kept and get one |
| `CallOutcomes.ConflictMeaning` | `backend/wireguard/user_common.go:264-277` | a request is free of clashes iff no two users it keeps conflict |
| `SyncTheorems.TargetIsWellFormed` | `backend/wireguard/user_common.go:62-69` | wanted peers have addresses, distinct emails and disjoint prefixes, because normalisation leaves one user per email |
| `SyncTheorems.ChangedIffDifferent` | `backend/wireguard/user_common.go:75-136` | a full diff is empty iff the store already is the target |
| `SyncTheorems.SnapshotAgreesIff` | `backend/wireguard/wireguard.go:309-325` | pushing a snapshot of a map makes the device agree with it iff no prefix occurs twice in it |
| `PartialSyncTheorems.PartialEntries` | `backend/wireguard/user_partial_sync.go:66-69` | as long as no two texts spell one key, the store has the wanted peers and, of the other users, the entries whose key nobody in the request wants |
| `PartialSyncTheorems.DeviceAfterSetters` | `backend/wireguard/user_partial_sync.go:47-64` | the device after the setting part of the batch, key by key, keys stored under other texts included |
| `PartialSyncTheorems.WantedListsKept` | `backend/wireguard/user_partial_sync.go:47-64` | whatever the texts, every wanted key then has at least every list wanted for it |
| `NodeTheorems.StartupShape` | `backend/wireguard/wireguard.go:126-212` | a new backend has agreeing, one-to-one state iff no two texts of its users spell one key, then with exactly the wanted peers; its peers keep to the interface networks in any case |
| `NodeTheorems.FullSyncShape` | `backend/wireguard/user_full_sync.go:9-56` | after nil, from any store and for any texts: nothing happened, to the email index either, if the stored peers were the wanted map; otherwise device and store agree, and the indexes are inverse, iff no two texts spell one key; then, early return or not, the store has exactly the wanted peers with no prefix twice; exactly the keys that left are dropped |
| `NodeTheorems.CommitAgreesIff` | `backend/wireguard/user_full_sync.go:27-50` | a full commit leaves device and store in agreement iff no two key texts spell one key |
| `NodeTheorems.CommitBijectiveIff` | `backend/wireguard/peer_store.go:80-108` | the indexes are inverse after it in the same cases |
| `NodeTheorems.RestartShape` | `backend/wireguard/wireguard.go:246-296` | from any store and device a restart restores agreement iff no prefix is stored twice, and it fails only if the kernel or the state does, when every stored peer has an address |
| `NodeTheorems.PartialSyncShape` | `backend/wireguard/user_partial_sync.go:22-72` | after nil, for any texts, with an email index that is right about the users of the request: it stays so, inverse indexes stay inverse, the request got past the ownership check, and dropped are exactly the stored keys of its users that are not among its texts; with no two texts of one key the store is as in PartialEntries |
| `NodeTheorems.DroppedAreGoneIff` | `backend/wireguard/user_partial_sync.go:66-69` | after nil, for any texts, with such an index: the keys dropped are exactly those that left the store iff no stored key of the request's users is spelled in another way by the request and not as it is stored |
| `NodeTheorems.DroppedOwnersIff` | `backend/wireguard/user_partial_sync.go:12-20` | from any store: every key dropped belonged to a user of the request iff the index files no email of the request under the key of another user, unless the request wants that key |
| `NodeTheorems.KeySpelledTwice` | `backend/wireguard/user_common.go:274-284` | two texts that spell one key leave one peer in the store, and the device gives it both lists, more than the store, or does not have it |
| `NodeTheorems.PartialSyncAgreesIff` | `backend/wireguard/user_partial_sync.go:22-72` | from an agreeing state with an index that is right about the users of the request, and for any texts, device and store agree afterwards iff no two texts spell one key, no stored key of the request's users is respelled, a key of a user outside it is wanted only with all its prefixes, and no other user outside it holds a prefix of it |
| `NodeTheorems.PartialSyncWithinIff` | `backend/wireguard/user_partial_sync.go:22-72` | in the same situation both have the same keys and the device gives no peer more than the store iff the first three hold |
| `NodeTheorems.PartialSyncShadowsIff` | `backend/wireguard/user_partial_sync.go:22-72` | the same from any state in which the device has no more than the store, for requests with no two texts of one key |
| `NodeTheorems.PlainShape` | `backend/wireguard/user_partial_sync.go:36-45` | a request that spells no stored key in another way leaves every untouched user its entry; canonical texts are such a case (CanonicalIsPlain) |
| `Refinement.PartialRefinesFullIff` | `backend/wireguard/user_partial_sync.go:22-72` | if the store is what SyncUsers(U) leaves, UpdateUsers(D) leaves the store that SyncUsers(U followed by D) leaves from any other store iff no two texts of the combined list spell one key and that store was not the wanted map with an index that leads astray |
| `Refinement.AcceptanceIff` | `backend/wireguard/user_partial_sync.go:28-45` | for any texts, when the store has what U asks for: the partial sync of D is accepted iff D has no clash and none of its texts is that of a key a user that stays has; the full sync of both iff D has no clash, no prefix is claimed and no text wanted both by a user that stays and one of D |
| `Refinement.FullAcceptsIff` | `backend/wireguard/user_full_sync.go:13-16` | where U uses the texts its keys print as: the full sync of the combined list is accepted iff the partial one is and no prefix is claimed both by a user that stays and one of the request |
| `Refinement.OwnershipChecksIff` | `backend/wireguard/user_partial_sync.go:36-45` | the check of the partial sync finds an owner iff a text of the request is that of a key that a user who stays has, the check of the full sync iff such a user wants the very text |
| `Refinement.OverlayIsTarget` | `backend/wireguard/user_partial_sync.go:22-72` | laying the peers wanted by D over those wanted by U gives what the combined list asks for |
| `Refinement.CompatibleConcatIff` | `backend/wireguard/user_common.go:264-277` | when a combined list is free of clashes, in terms of the two lists |
| `Refinement.NormalizedConcat` | `backend/wireguard/user_common.go:317-339` | in a combined list, later users replace earlier ones of equal email, and no others |
| `Lifecycles.StoreAndDeviceAgree` | `backend/wireguard/user_partial_sync.go:52-66` | in every state with the client open of every run whose full lists spell no key twice and whose partial syncs are safe, whatever the kernel refused, the device agrees with the store, or between configure and commit with the store to come |
| `Lifecycles.StoreShadowsDevice` | `backend/wireguard/user_partial_sync.go:36-66` | in runs of plain requests, foreign prefixes taken or not, both have the same keys and the device no more prefixes than the store |
| `Lifecycles.StoreIsRebuildable` | `backend/wireguard/user.go:12-50` | in runs of plain requests the store has the peers that the successful requests since the last full sync ask for as one list, and a full sync of that list that returns nil leaves this very store; the list is refused when users of it claim one prefix |
| `Lifecycles.FullSyncRebuildsIff` | `backend/wireguard/user_full_sync.go:9-56` | from any other store, such a full sync leaves this very store iff it does not return early with an index that leads astray |
| `Lifecycles.RestartAlwaysPossible` | `backend/wireguard/wireguard.go:309-325` | in every reachable state, whatever was sent, every stored peer has addresses inside the networks, there is a batch for a restart, and a restart the kernel takes has exactly one outcome |
| `Lifecycles.NoConfigureAfterClose` | `backend/wireguard/manager.go:288-341` | in every run, whatever was sent, no configure call follows the closing of the client |
| `Lifecycles.DeviceAfterClose` | `backend/wireguard/manager.go:314-341` | in every run, closing the client leaves the device empty, or as it was when deleting the interface failed, and nothing touches it afterwards |
| `Lifecycles.CommitsFollowTheirConfigure` | `backend/wireguard/user_partial_sync.go:52-66` | in runs in which the email index is right about the users of each partial sync, whatever it sends, as it is when no full list spells a key twice, every commit that changes which key has which prefixes comes after a successful configure of that change, with at most the closing in between |
| `Lifecycles.OtherCommitsOnlyRename` | `backend/wireguard/user_partial_sync.go:52-69` | in every run, whatever was sent, any other commit only renames owners of stored keys, and it changes which key has which prefixes iff an upsert takes a key away that no later one brings back |
| `Lifecycles.StoppedForGood` | `backend/wireguard/wireguard.go:299-307` | in every run the stopped state is never left |
| `Lifecycles.StepInv` | `backend/wireguard/wireguard.go:246-362` | every step, shutdown steps in between included, keeps the invariant behind the theorems on runs, at every level of care |
| `Lifecycles.FullSyncUninterrupted` | `backend/wireguard/user_full_sync.go:9-56` | the steps of a full sync, uninterrupted and the kernel taking the call or not, have the effect of the relation the methods are proved against |
| `Lifecycles.PartialSyncUninterrupted` | `backend/wireguard/user_partial_sync.go:22-72` | so have those of a partial sync |
| `Lifecycles.RestartUninterrupted` | `backend/wireguard/wireguard.go:246-296` | and those of a restart |
| `Interleavings.FullSyncIsAtomic` | `backend/wireguard/user_full_sync.go:9-56` | from any idle state, the manager gone or the client closed too, and with the steps of a shutdown anywhere in between: a full sync has the effect of one step of the relation, reachable being what it was at its beginning |
| `Interleavings.PartialSyncIsAtomic` | `backend/wireguard/user_partial_sync.go:22-72` | so has a partial sync |
| `Interleavings.RestartIsAtomic` | `backend/wireguard/wireguard.go:246-296` | and a restart |
| `Interleavings.FullSyncHappens` | `backend/wireguard/user_full_sync.go:9-56` | conversely, from any state in which a sync may begin, stopped or closed too, every outcome the relation allows comes about in steps |
| `Interleavings.PartialSyncHappens` | `backend/wireguard/user_partial_sync.go:22-72` | the same for a partial sync |
| `Interleavings.RestartHappens` | `backend/wireguard/wireguard.go:246-296` | and for a restart |
| `Interleavings.ShutdownHappens` | `backend/wireguard/wireguard.go:335-362` | a shutdown can take its steps at any moment of a sync, and leaves the sync's task to it |
| `ForeignPrefix.ForeignPrefixIsLetThrough` | `backend/wireguard/user_partial_sync.go:36-45` | for every agreeing state, stored peer and new user asking for one of its prefixes under a new key, the call returns nil and leaves disagreement |
| `Examples.TakenPrefix` | `backend/wireguard/user_partial_sync.go:36-45` | the smallest such call: one stored user, one new user, one prefix |
| `KeySpelling.RespelledKeyIsLost` | `backend/wireguard/user_common.go:279-284` | a stored key that its user, among any others, spells in another way stays stored, is dropped from the statistics and leaves the device |
| `KeySpelling.ForeignKeyIsTaken` | `backend/wireguard/user_partial_sync.go:36-45` | a stored key that somebody else spells in another way changes hands although its owner is not in the request: nothing is dropped, and the device keeps the old prefixes that are not given away |
| `KeySpelling.ForeignOwnerIsGone` | `backend/wireguard/peer_store.go:57-73` | the owner is then gone from both indexes, if the email index was right about it |
| `Examples.LostPeer` | `backend/wireguard/user_common.go:279-284` | the smallest such request: one stored user, whose key comes with a line break behind it, and the whole effect |
| `Examples.TakenKey` | `backend/wireguard/user_partial_sync.go:36-45` | one stored user, another user with its key and a line break behind it: the whole effect |
| `Examples.NotRepaired` | `backend/wireguard/user_full_sync.go:23-25` | after LostPeer a full sync with the canonical text returns nil and leaves the device empty |
| `StaleIndex.StaleStart` | `backend/wireguard/wireguard.go:126-212` | two users, one key, once with a line break behind it: the email index files both under the key, and the device gives it both prefixes |
| `StaleIndex.StaleKept` | `backend/wireguard/user_full_sync.go:23-25` | a full sync of the second user returns nil and leaves the index and the device |
| `StaleIndex.StaleRestarts` | `backend/wireguard/wireguard.go:246-296` | a restart makes the device agree and leaves the index |
| `StaleIndex.StaleRemoves` | `backend/wireguard/user_partial_sync.go:12-20` | the first user without inbounds: the peer of the second is gone from store and device and its statistics are dropped |
| `StaleIndex.StaleGrows` | `backend/wireguard/user.go:12-21` | SyncUser of a third user from there, with the whole effect |
| `StaleIndex.StaleDisplaces` | `backend/wireguard/user_partial_sync.go:52-69` | then a request for which the kernel is not asked loses the peer of the second user from the store although the request wants it |
| `Examples.NodeWithStarts` | `backend/wireguard/wireguard.go:126-212` | the state these examples begin in is a startup state |
| `Trackers.Tracker.ApplySample` | `pkg/stats/tracker.go:63-114` | the entry after one sample: creation, re-add, rollback |
| `Trackers.Tracker.UpdateStatsBatch` | `pkg/stats/tracker.go:49-61` | samples in order |
| `Trackers.Tracker.GetStats` | `pkg/stats/tracker.go:117-153` | what a read reports and, when resetting, leaves, for repeated and unknown keys too |
| `Trackers.Tracker.GetUsersStats` | `pkg/stats/tracker.go:156-187` | the same over the whole map in some order, deleting while walking |
| `Trackers.Tracker.RemoveStats` | `pkg/stats/tracker.go:261-277` | the delta is saved and the entry marked |
| `Trackers.Tracker.ClearAllStats` | `pkg/stats/tracker.go:280-284` | an empty map |
| `Trackers.Tracker.CleanupDeletedEntries` | `pkg/stats/tracker.go:287-296` | exactly the deleted entries with nothing pending go |
| `TrafficLedger.SampleLinked` | `pkg/stats/tracker.go:63-114` | a sample moves baseline, counters and saved delta so that pending is credited growth minus what was reported |
| `TrafficLedger.StepLinked` | `pkg/stats/tracker.go:63-296` | so does every other operation, and a resetting read hands out what it settles |
| `TrafficLedger.EventHappens` | `pkg/stats/tracker.go:49-296` | every operation can happen in every state, with one result |
| `TrafficLedger.TrafficConserved` | `pkg/stats/tracker.go:63-296` | for every run and key: reported by resetting reads plus pending plus cleared equals credited growth, none of them negative; baselines fit 64 bits when credited growth and counters do |
| `TrafficLedger.ResettingReadReports` | `pkg/stats/tracker.go:117-153` | a resetting read reports what is pending for each key it names, once |
| `TrafficLedger.DeltaStatsReportAll` | `pkg/stats/interface_counters.go:51-75` | the filter on positive values loses nothing when amounts are not negative |
| `TrafficLedger.CleanupLosesNothing` | `pkg/stats/tracker.go:287-296` | an entry that cleanup forgets was handed out in full |
| `TrafficLedger.SteadyPeerBilledExactly` | `pkg/stats/tracker.go:63-187` | a peer never removed whose counters never fell is billed exactly its counters |
| `TrafficReports.ReportsAreNamed` | `pkg/stats/tracker.go:117-187` | in every run and every read, resetting or not, each statistic has the email of the last sample of its key as name, and a positive value |
| `TrafficReports.ReadInOrder` | `pkg/stats/interface_counters.go:51-75` | a read reports on its keys in the order in which they are named, for each key at most one statistic of each kind, the uplink first |
| `TrafficReports.ReadsReportPending` | `pkg/stats/tracker.go:117-187` | in every run, what a read reports for a key is what is pending by the bookkeeping of the events before it, once, or without a reset as often as the key is named |
| `TrafficReports.BatchIsSamples` | `pkg/stats/tracker.go:49-61` | a batch is its samples one after the other |
| `TrafficReports.DroppedAreMarked` | `pkg/stats/tracker.go:261-277` | dropping statistics marks exactly the known keys named and saves what is pending for them |
| `TrafficLedger.OvercreditedIff` | `pkg/stats/tracker.go:63-114` | in every run a sample is credited with more than the kernel counted since the last one iff the tracker does not know the key any more and its counters go on from where they were |
| `TrafficLedger.BilledAtMostCounted` | `pkg/stats/tracker.go:63-296` | without such samples, what is credited and what resetting reads report is at most what the kernel counted over the peer's lifetimes |
| `TrafficLedger.BilledTwice` | `backend/wireguard/jobs.go:57-100` | sample, removal, resetting read, late sample with the same counters, read: every byte is billed twice |
| `InterfaceCounters.InterfaceCountersTracker.Delta` | `pkg/stats/interface_counters.go:25-49` | the delta from the rebased baseline, never negative, and the new baseline |
| `InterfaceCounters.CountersConserved` | `pkg/stats/interface_counters.go:25-49` | for every list of calls, falling counters included: returned by resetting calls plus pending plus lost equals growth, none of the first three negative |
| `InterfaceCounters.NothingLostIff` | `pkg/stats/interface_counters.go:25-49` | a list of calls loses nothing iff at no call a counter falls below the baseline its predecessors left, after they had moved off it |
| `InterfaceCounters.RisingCountersConserved` | `pkg/stats/interface_counters.go:25-49` | while counters rise nothing is lost and what resetting calls returned is the growth from the first call to the present baseline |
| `Passwords.KeyOfPassword` | `common/helper.go:39-65` | a password that decodes to a length the method takes is returned; any other gives the base64 of the first 16 bytes of its hash for a method naming aes-128-gcm, else of all 32 |
| `Passwords.MadeKeysEqualIff` | `common/helper.go:53-65` | two passwords that are not keys get one key iff their hashes share that much |
| `Passwords.ResultFits` | `common/helper.go:39-65` | for every password and method naming a known cipher the result decodes to the 16 or 32 bytes required |
| `Passwords.Idempotent` | `common/helper.go:39-65` | normalising twice is normalising once, for those methods |
| `Passwords.UnsupportedIdempotentIff` | `common/helper.go:39-65` | for any other method iff both passwords have one hash |
| `XrayConfigs.Inbound.SyncUsers` | `backend/xray/config.go:121-203` | the rebuilt client map, protocol by protocol |
| `XrayConfigs.Inbound.UpdateUser` | `backend/xray/config.go:205-239` | the map after storing one account |
| `XrayConfigs.Inbound.UpdateUsers` | `backend/xray/config.go:241-299` | the map after a delta, in whatever order emails are removed |
| `XrayConfigs.Inbound.RemoveUser` | `backend/xray/config.go:301-308` | the map without that email |
| `XrayConfigs.Config.SyncUsers` | `backend/xray/config.go:60-67` | every inbound not excluded is rebuilt, the others keep their map |
| `XrayConfigs.Config.SyncUser` | `backend/xray/user.go:122-161` | every inbound not excluded gets or loses that user |
| `XrayConfigs.Config.BuildInboundUpdates` | `backend/xray/config.go:74-107` | per tag the accounts and removals of the request, for the last inbound of that tag |
| `XrayConfigs.Config.ChosenIsLast` | `backend/xray/config.go:74-81` | the tag of an inbound that is not excluded leads to exactly one inbound, that one or a later one |
| `XrayConfigs.Config.UpdateUsers` | `backend/xray/config.go:109-119` | those inbounds get their delta, the others keep their map |
| `XrayClients.RebuiltAt` | `backend/xray/config.go:121-203` | after a rebuild each email has its last active account |
| `XrayClients.SyncedEachAt` | `backend/xray/user.go:122-161` | one by one, the last user of an email decides |
| `XrayClients.UpdatedAt` | `backend/xray/config.go:241-299` | in bulk, an email inactive anywhere goes |
| `XrayClients.ActiveShape` | `backend/xray/user.go:76-120` | what isActiveInbound grants is what a rebuild and a delta store, in three separate pieces of code |
| `XrayAccounts.ActiveIffGranted` | `backend/xray/api/account.go:40-200` | an account is active iff the inbound is one of the user's and the account is that of its protocol with the user's own email, id, flow, password, cipher or secret; for a 2022 method with the key of the password |
| `XrayAccounts.RebuiltIffGranted` | `backend/xray/config.go:121-203` | after a rebuild an email has the account granted to the last of its users that is granted one |
| `XrayAccounts.UpsertedByKind` | `backend/xray/config.go:241-290` | a bulk update stores accounts of the inbound's own kind under their emails and passes over the others |
| `XrayClients.KeptIsActive` | `backend/xray/config.go:270-282` | the second normalisation of a 2022 password is invisible for known ciphers |
| `XrayClients.UnsettledKeptIff` | `backend/xray/config.go:270-282` | for other ciphers iff the two passwords have one hash |
| `XrayClients.BulkEqualsEachIff` | `backend/xray/config.go:74-119` | for every request, bulk and one by one leave the same clients iff no email is inactive somewhere and active where it occurs last |
| `XrayClients.InactiveThenActive` | `backend/xray/config.go:74-119` | the shortest failing request: a bulk update drops the client, one by one keeps it |
| `XrayClients.BulkEqualsRebuildIff` | `backend/xray/config.go:60-299` | for every delta, emails repeated and any cipher: rebuild then bulk delta leaves the clients of one rebuild of the overridden list iff every email active in the delta is inactive nowhere in it and a second normalisation leaves its account alone |
| `XrayClients.EachEqualsRebuildIff` | `backend/xray/user.go:122-161` | the same one by one, iff for every email of the delta its last entry is active with such an account, or none is active |
| `XrayClients.DeltaEqualsRebuild` | `backend/xray/config.go:60-299` | distinct emails and known ciphers are such a case: all three leave the same clients |
| `XrayConfigs.RebuildThenDelta` | `backend/xray/config.go:60-119` | the bulk condition for configurations of several inbounds, on the objects; an inbound hidden behind another of its tag gets no delta |
| `XrayConfigs.OrdinaryDeltasAgree` | `backend/xray/config.go:60-119` | unique tags, distinct emails and known ciphers meet both conditions on every inbound |
| `XrayConfigs.RebuildThenEach` | `backend/xray/user.go:122-161` | the condition one by one for configurations, tags unique or not |
| `XrayTransactions.Clone` | `backend/xray/config_clone.go:47-87` | new inbound objects with the clients and exclusion of the last inbound of the same tag; nothing shared that can change |
| `XrayTransactions.CopyMeaning` | `backend/xray/config_clone.go:47-87` | a copied inbound keeps its own tag, protocol and cipher and takes exclusion and clients from the last inbound of its tag |
| `XrayTransactions.Xray.RestartCoreWithConfig` | `backend/xray/xray.go:129-136` | the core runs the configuration, nothing, or what it ran before |
| `XrayTransactions.Xray.RestorePreviousConfig` | `backend/xray/user.go:197-215` | the old configuration is set and running iff restart and status check went through |
| `XrayTransactions.Xray.ApplyConfigWithRestart` | `backend/xray/user.go:176-195` | nil iff the candidate is set; nil or a successful restore means the core last started with the set configuration |
| `XrayTransactions.Xray.SyncUsers` | `backend/xray/user.go:163-174` | all or nothing: new objects with rebuilt maps, or for excluded inbounds the map of the last of their tag, running; or the same object with its maps untouched |
| `XrayTransactions.Xray.UpdateUsersAndRestart` | `backend/xray/user.go:254-265` | the same for a delta, with the exact maps for any tags: the last inbound of a tag has its delta, the others of that tag a copy of what it had |
| `ApplyApis.RemoveApiInbounds` | `backend/xray/config.go:785-790` | the range loop over a shrinking slice, with the elements it leaves behind, or its panic |
| `ApplyApis.RangedFromStart` | `backend/xray/config.go:785-790` | what it comes to: the neighbour of a deleted inbound is kept unseen; it panics iff the last inbound is one of several API ones |
| `ApplyApis.RemovalCorrectIff` | `backend/xray/config.go:785-790` | it removes all API inbounds and keeps the others in order iff no two are neighbours and the last is not one of several |
| `ApplyApis.OneApiIsRemoved` | `backend/xray/config.go:785-790` | at most one API inbound is such a case |
| `ApplyApis.NeighboursLeaveOne` | `backend/xray/config.go:785-790` | of two neighbours one stays |
| `ApplyApis.LastOfTwoPanics` | `backend/xray/config.go:785-790` | when the last inbound is one of two, the loop slices out of range |
| `ApplyApis.ReplaceGeoIPPrivate` | `backend/xray/config.go:459-484` | the expanded list, and unchanged when it says so |
| `ApplyApis.NormalizeGeoIPPrivateRules` | `backend/xray/config.go:486-528` | every rule expanded, or an error for a rule that is not JSON |
| `ApplyApis.FilterRules` | `backend/xray/config.go:415-439` | the rules ApplyAPI did not write, in order |
| `ApplyApiMeaning.ForeignRulesSurvive` | `backend/xray/config.go:415-439` | the filter keeps exactly the rules that do not go to "API" and are not the guard, as often as they occur and in order |
| `ApplyApiMeaning.OtherInboundsSurvive` | `backend/xray/config.go:785-790` | what correct removal leaves: exactly the inbounds with another tag, as often as they occur and in order |
| `ApplyApiMeaning.ExpandsInPlace` | `backend/xray/config.go:459-484` | expansion works on each entry where it stands |
| `ApplyApiMeaning.EntryExpanded` | `backend/xray/config.go:459-484` | an entry that is "geoip:private" in any capitals gives way to the networks, any other stays |
| `ApplyApiMeaning.TheFifteenNetworks` | `backend/xray/config.go:441-457` | these are the fifteen |
| `ApplyApiMeaning.RulesExpandedIff` | `backend/xray/config.go:486-528` | rule by rule, only lists under ip and source change; it fails iff some rule is not JSON |
| `ApplyApiMeaning.ApplyOutcome` | `backend/xray/config.go:784-875` | for all inbounds and rules: panic, bad rule or success, each iff; on success the API inbound and what the loop left, the API rule with the node's addresses in order, the guard iff there is a blackhole outbound, then the foreign rules |
| `ApplyApis.Config.ApplyAPI` | `backend/xray/config.go:784-875` | inbounds and rules afterwards; on a bad rule the inbounds are changed already |
| `ApplyApis.NormalForm` | `backend/xray/config.go:784-875` | exactly one API inbound, first, others in order; the API rule, at most one guard, then the surviving expanded rules in order |
| `ApplyApis.ApplyTwice` | `backend/xray/config.go:784-875` | applying it twice is applying it once |
| `LogRings.StartupLogRing.Add` | `backend/xray/startup_diagnostics.go:37-47` | the ring stands for the history with that line at its end |
| `LogRings.StartupLogRing.Reset` | `backend/xray/startup_diagnostics.go:29-35` | the history starts over |
| `LogRings.StartupLogRing.Tail` | `backend/xray/startup_diagnostics.go:49-75` | the last min(n, count) lines of the history in order, all readable ones for n <= 0, count being min(size, lines added) |
| `LogRings.StartupDiagnostics.Enable` | `backend/xray/startup_diagnostics.go:87-107` | a fresh session, reusing the ring only if its size fits |
| `LogRings.StartupDiagnostics.Disable` | `backend/xray/startup_diagnostics.go:109-116` | neither ring nor failure is kept |
| `LogRings.StartupDiagnostics.Record` | `backend/xray/startup_diagnostics.go:131-145` | lines count only while enabled, the last failure is kept |
| `LogRings.StartupDiagnostics.StartupLogTail` | `backend/xray/startup_diagnostics.go:158-167` | the last lines of the session, nothing when disabled |
| `Chunks.BuildUsersFromChunks` | `controller/users_chunk.go:12-31` | the result, within one iteration more than there are chunks even when the uint64 counter could wrap |
| `Chunks.Receive` | `controller/rpc/user.go:62-78` | the chunk buffers after the receive loop |
| `Chunks.SyncUsersChunked` | `controller/rest/user.go:92-124` | the list handed on, or the error |
| `Chunks.AssembledIff` | `controller/users_chunk.go:12-31` | for a readable stream ending in a last frame, success iff all indices up to it occur and some user came; the result is the concatenation by index; a missing index is reported iff there is one, the first; no users iff all occur without any |
| `Chunks.StreamOutcome` | `controller/rpc/user.go:62-85` | for every stream: no final chunk when nothing stops it; else the first broken or last frame decides, unreadable or as if the stream ended there |
| `Chunks.StreamErrorsIff` | `controller/users_chunk.go:12-31` | for every stream: no final chunk iff it has neither a broken nor a last frame, unreadable iff a broken one comes first, success only if a last one does |
| `Chunks.AssemblyOrderFree` | `controller/rpc/user.go:62-78` | only the order of frames within one index matters |
| `Chunks.NeighboursMayBeExchanged` | `controller/rest/user.go:92-124` | neighbouring frames of different indices may be exchanged |

## Left out

- The text syntax of ParseCIDR, and IPv4-mapped IPv6 prefixes: addresses are parsed, masked prefixes or None.
- Nil peers in peer lists, preshared keys, keepalive and AdvancedSecurity in peer configs: constant or absent in every config the model compares.
- Netlink, `nft`, `ip`, host routing and the link's addresses: only whether the interface comes up.
- HTTP, gRPC, TLS, protobuf and JSON text, process spawning: their outcomes are parameters.
- LastActiveTime, endpoints and online statistics: they depend on wall-clock time.
- 64-bit wrap-around of counters: the model counts in unbounded integers; `TrafficConserved` says when the baselines fit, counters past that are not modelled.
- The interleaving of tracker calls with syncs: each tracker operation holds its own lock, so a run of them is a sequence.
- `checkXrayHealth` in `backend/xray/jobs.go`: it can restart the set configuration in the middle of a transaction, so the transaction is stated without it.
- The handler API of the running core in Xray.SyncUser and UpdateUsers, and accountForAPI: remote state.
- sanitizeAPIServices, observatory, policy and metrics in ApplyAPI: independent of inbounds and rules.
- The keywords of isStartupFailureLog: a parameter; the runtime log phase: a second ring of the same type.
- SHA-256: any function to 32 bytes.
- NodeTheorems.PartialSyncShape: for requests about whose users the email index is right; what an index that leads astray costs is in `KeyLostIff` and `DroppedOwnersIff`, and which device such a request leaves is not stated.
