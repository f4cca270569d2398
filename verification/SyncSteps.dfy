// user_full_sync.go, user_partial_sync.go and the restart of wireguard.go, as relations between
// the node before and the node after. The orders in which Go walks its maps are left open.
module SyncSteps {
  import opened Wrappers
  import opened Enumerations
  import opened PeerStores
  import opened DesiredPeers
  import opened Kernel
  import opened SyncDiffs

  datatype Node = Node(store: Store, device: Device)

  // What a call leaves behind: the node, whether it returned nil, and the keys whose traffic
  // statistics it marked as removed.
  datatype Effect = Effect(node: Node, ok: bool, dropped: seq<string>)

  function Refused(n: Node): Effect {
    Effect(n, false, [])
  }

  function Touched(us: set<User>): set<string> {
    set u | u in us :: u.email
  }

  // buildExistingPeersSubsetForTouched: the stored peers of the given emails.
  function TouchedPeers(s: Store, touched: set<string>): Peers {
    map t | t in (set e | e in touched && e in s.emailToKey :: s.emailToKey[e]) && t in s.peers :: s.peers[t]
  }

  // A wanted key that is stored for a user the request does not mention.
  ghost predicate OwnedByOther(s: Store, desired: Desired, touched: set<string>) {
    exists t :: t in desired && t in s.peers && s.peers[t].email != desired[t].email && s.peers[t].email !in touched
  }

  // reachable: running, with a manager whose client is open. accepted: the kernel takes the call.
  ghost predicate FullSyncBy(n: Node, diff: SyncDiff, reachable: bool, accepted: bool, e: Effect) {
    if !diff.changed then
      e == Effect(n, true, [])
    else if !reachable || !accepted then
      e == Refused(n)
    else
      exists configs, ts :: FullCommit(n, diff.targetPeers, configs, ts, e)
  }

  ghost predicate FullCommit(n: Node, target: Peers, configs: seq<PeerConfig>, ts: seq<string>, e: Effect) {
    && IsSnapshot(WithIPs(target), configs)
    && Enumerates(ts, WithIPs(target).Keys)
    && e.ok
    && e.node.device == ApplyBatch(map[], configs)
    && e.node.store == InsertAll(EMPTY_STORE, PeersAt(WithIPs(target), ts))
    && Enumerates(e.dropped, n.store.peers.Keys - e.node.store.peers.Keys)
  }

  // syncUsersFull
  ghost predicate FullSync(n: Node, users: seq<Option<User>>, cfg: Config, reachable: bool, accepted: bool, e: Effect) {
    var us := NormalizedSet(users);
    if !Compatible(us, cfg) then
      e == Refused(n)
    else
      exists desired, diff ::
        && IsDesired(desired, us, cfg)
        && IsSyncDiff(n.store.peers, desired, diff)
        && FullSyncBy(n, diff, reachable, accepted, e)
  }

  ghost predicate PartialSyncBy(n: Node, diff: SyncDiff, reachable: bool, accepted: bool, e: Effect) {
    if diff.peerConfigs != [] && (!reachable || !accepted) then
      e == Refused(n)
    else
      && e.ok
      && e.node.device == ApplyBatch(n.device, diff.peerConfigs)
      && e.node.store == AfterChanges(n.store, diff.removeKeys, diff.upsertPeers)
      && e.dropped == RemovedBy(n.store, diff.removeKeys)
  }

  // syncUsersPartialReconcile
  ghost predicate PartialSync(n: Node, users: seq<Option<User>>, cfg: Config, reachable: bool, accepted: bool, e: Effect) {
    var us := NormalizedSet(users);
    if !Compatible(us, cfg) then
      e == Refused(n)
    else
      exists desired, diff :: IsDesired(desired, us, cfg) && PartialSyncWith(n, us, desired, diff, reachable, accepted, e)
  }

  ghost predicate PartialSyncWith(n: Node, us: set<User>, desired: Desired, diff: SyncDiff,
                                  reachable: bool, accepted: bool, e: Effect)
  {
    if OwnedByOther(n.store, desired, Touched(us)) then
      e == Refused(n)
    else
      && IsSyncDiff(TouchedPeers(n.store, Touched(us)), desired, diff)
      && PartialSyncBy(n, diff, reachable, accepted, e)
  }

  // restartLocked
  ghost predicate Restart(n: Node, reachable: bool, accepted: bool, e: Effect) {
    if !reachable || !accepted || exists t :: t in n.store.peers && n.store.peers[t].allowed == [] then
      e == Refused(n)
    else
      && e.ok && e.dropped == []
      && e.node.store == n.store
      && exists configs :: IsSnapshot(n.store.peers, configs) && e.node.device == ApplyBatch(map[], configs)
  }

  // newWithManagerFactory, once the manager exists and the interface came up.
  ghost predicate Startup(users: seq<Option<User>>, cfg: Config, n: Node) {
    var us := NormalizedSet(users);
    && Compatible(us, cfg)
    && exists desired, ts, configs :: IsDesired(desired, us, cfg) && StartupWith(desired, ts, configs, n)
  }

  ghost predicate StartupWith(desired: Desired, ts: seq<string>, configs: seq<PeerConfig>, n: Node) {
    var target := TargetPeers(desired);
    && SortedEnumeration(ts, target.Keys)
    && IsSnapshot(target, configs)
    && n.device == ApplyBatch(map[], configs)
    && n.store == InsertAll(EMPTY_STORE, PeersAt(target, ts))
  }
}
