// backend/wireguard/wireguard.go, user.go, user_full_sync.go, user_partial_sync.go: the backend
// object and its operations. Every operation runs under syncMu, one at a time; Lifecycle.dfy
// covers a Shutdown, which does not take syncMu, in the middle of one.
module WireGuards {
  import opened Wrappers
  import opened Enumerations
  import opened PeerStores
  import opened DesiredPeers
  import opened Kernel
  import opened SyncDiffs
  import opened SyncSteps
  import opened SyncTheorems
  import opened Trackers

  datatype Lifecycle = Stopped | Starting | Running

  class WireGuard {
    const cfg: Config
    const store: PeerStore
    const tracker: Tracker
    var manager: Manager?
    var state: Lifecycle

    // Holds from construction on, whatever is synced.
    ghost predicate Valid()
      reads this, store
    {
      WellKeyed(store.State())
    }

    // Without a manager there is no device to speak of.
    ghost function Snapshot(): Node
      reads this, store, manager
    {
      Node(store.State(), if manager == null then map[] else manager.device)
    }

    ghost predicate Reachable()
      reads this, manager
    {
      state == Running && manager != null && manager.clientOpen
    }

    ghost function Footprint(): set<object>
      reads this
    {
      {store, tracker} + if manager == null then {} else {manager}
    }

    predicate EnsureRunningWithManager()
      reads this
    {
      state == Running && manager != null
    }

    constructor Assembled(cfg: Config, store: PeerStore, tracker: Tracker, manager: Manager)
      requires WellKeyed(store.State())
      ensures this.cfg == cfg && this.store == store && this.tracker == tracker && this.manager == manager
      ensures state == Running && Valid()
    {
      this.cfg, this.store, this.tracker, this.manager := cfg, store, tracker, manager;
      state := Running;
    }

    // newWithManagerFactory. Whether the private key parses, a manager can be made and the
    // interface comes up is decided outside.
    static method New(cfg: Config, users: seq<Option<User>>, keyParses: bool, managerMade: bool, setUp: SetUp)
      returns (r: Option<WireGuard>)
      ensures r.Some? <==> keyParses && Compatible(NormalizedSet(users), cfg) && managerMade && setUp == Up
      ensures r.Some? ==> fresh(r.value) && fresh(r.value.Footprint()) && r.value.cfg == cfg
      ensures r.Some? ==> r.value.Valid() && r.value.Reachable() && Startup(users, cfg, r.value.Snapshot())
    {
      if !keyParses { return None; }
      var normalized, collected := CollectNormalized(users, cfg);
      if collected.Err? { return None; }
      WantedHaveIPs(collected.value, NormalizedSet(users), cfg);
      ghost var ts, configs;
      r, ts, configs := Launch(cfg, collected.value, managerMade, setUp);
    }

    // The rest of it, once the wanted peers are known.
    static method Launch(cfg: Config, desired: Desired, managerMade: bool, setUp: SetUp)
      returns (r: Option<WireGuard>, ghost ts: seq<string>, ghost configs: seq<PeerConfig>)
      requires forall t :: t in desired ==> desired[t].allowed != []
      ensures r.Some? <==> managerMade && setUp == Up
      ensures r.Some? ==> fresh(r.value) && fresh(r.value.Footprint()) && r.value.cfg == cfg
      ensures r.Some? ==> r.value.Valid() && r.value.Reachable()
      ensures r.Some? ==> StartupWith(desired, ts, configs, r.value.Snapshot())
    {
      var upserts, batch, applied;
      upserts, batch, applied, ts := StartupBatch(desired);
      configs := batch;
      r := None;
      if !managerMade { return; }
      var manager := new Manager();
      var ok := manager.InitializeWithPeers(batch, setUp);
      if !ok {
        var closed := manager.Close(true, true);
        return;
      }

      var wg := Assemble(cfg, manager, upserts, applied);
      r := Some(wg);
      StartupAssembled(desired, ts, configs, wg.Snapshot());
    }

    static method StartupBatch(desired: Desired)
      returns (upserts: seq<PeerInfo>, configs: seq<PeerConfig>, applied: set<string>, ghost ts: seq<string>)
      requires forall t :: t in desired ==> desired[t].allowed != []
      ensures SortedEnumeration(ts, TargetPeers(desired).Keys) && IsSnapshot(TargetPeers(desired), configs)
      ensures upserts == PeersAt(TargetPeers(desired), ts) && |applied| == |upserts|
    {
      var diff := BuildSyncDiff(map[], desired);
      configs, applied := BuildTargetPeerConfigs(diff.targetPeers);
      ts := StartupUpserts(desired, diff, applied);
      upserts := diff.upsertPeers;
    }

    static method Assemble(cfg: Config, manager: Manager, upserts: seq<PeerInfo>, applied: set<string>) returns (wg: WireGuard)
      requires |applied| == |upserts|
      ensures fresh(wg) && fresh(wg.store) && fresh(wg.tracker) && wg.manager == manager && wg.cfg == cfg
      ensures wg.Valid() && wg.state == Running && wg.store.State() == InsertAll(EMPTY_STORE, upserts)
    {
      var kept := FilterUpsertsByAppliedKeys(upserts, applied);
      var store := new PeerStore();
      store.Init(kept);
      InsertedFrom(kept);
      var tracker := new Tracker();
      wg := new WireGuard.Assembled(cfg, store, tracker, manager);
    }

    // syncUsersFull; accepted: the kernel takes the configure call, if one is made.
    method SyncUsers(users: seq<Option<User>>, accepted: bool) returns (ok: bool, ghost dropped: seq<string>)
      requires Valid()
      modifies Footprint()
      ensures Valid() && Reachable() == old(Reachable())
      ensures FullSync(old(Snapshot()), users, cfg, old(Reachable()), accepted, Effect(Snapshot(), ok, dropped))
      ensures tracker.stats == RemovedAll(old(tracker.stats), dropped)
      ensures !ok ==> Snapshot() == old(Snapshot()) && tracker.stats == old(tracker.stats)
    {
      var existing := ExistingPeersByKey();
      var normalized, collected := CollectNormalized(users, cfg);
      if collected.Err? { return false, []; }
      var diff := BuildSyncDiff(existing, collected.value);
      if !diff.changed {
        ok, dropped := true, [];
      } else {
        ok, dropped := PushSnapshot(diff.targetPeers, accepted);
      }
      assert FullSyncBy(old(Snapshot()), diff, old(Reachable()), accepted, Effect(Snapshot(), ok, dropped));
    }

    // The rest of syncUsersFull, once something changed.
    method PushSnapshot(target: Peers, accepted: bool) returns (ok: bool, ghost dropped: seq<string>)
      requires Valid()
      modifies Footprint()
      ensures Valid() && Reachable() == old(Reachable())
      ensures ok <==> accepted && old(state == Running && manager != null && manager.clientOpen)
      ensures !ok ==> Effect(Snapshot(), ok, dropped) == Refused(old(Snapshot()))
      ensures ok ==> exists configs, ts :: FullCommit(old(Snapshot()), target, configs, ts, Effect(Snapshot(), ok, dropped))
      ensures tracker.stats == RemovedAll(old(tracker.stats), dropped)
      ensures !ok ==> Snapshot() == old(Snapshot()) && tracker.stats == old(tracker.stats)
    {
      var configs, applied := BuildTargetPeerConfigs(target);
      ok := EnsureRunningWithManager();
      if ok {
        ok := manager.ApplyPeersReplaceAll(configs, accepted);
      }
      if !ok { return false, []; }
      var peers, ts := AppliedPeers(target, applied);
      var removed := store.ReplaceAll(peers);
      InsertedFrom(peers);
      DropStats(removed);
      dropped := removed;
      assert FullCommit(old(Snapshot()), target, configs, ts, Effect(Snapshot(), ok, dropped));
    }

    // syncUsersPartialReconcile, behind UpdateUsers.
    method UpdateUsers(users: seq<Option<User>>, accepted: bool) returns (ok: bool, ghost dropped: seq<string>)
      requires Valid()
      modifies Footprint()
      ensures Valid() && Reachable() == old(Reachable())
      ensures PartialSync(old(Snapshot()), users, cfg, old(Reachable()), accepted, Effect(Snapshot(), ok, dropped))
      ensures tracker.stats == RemovedAll(old(tracker.stats), dropped)
      ensures !ok ==> Snapshot() == old(Snapshot()) && tracker.stats == old(tracker.stats)
    {
      var normalized, collected := CollectNormalized(users, cfg);
      var touched := TouchedEmails(normalized);
      var existing := ExistingPeersSubset(touched);
      if collected.Err? { return false, []; }
      ghost var diff;
      ok, diff, dropped := Reconcile(collected.value, touched, existing, NormalizedSet(users), accepted);
      assert PartialSyncWith(old(Snapshot()), NormalizedSet(users), collected.value, diff,
                             old(Reachable()), accepted, Effect(Snapshot(), ok, dropped));
    }

    // The ownership check, then the difference.
    method Reconcile(desired: Desired, touched: set<string>, existing: Peers, ghost us: set<User>, accepted: bool)
      returns (ok: bool, ghost diff: SyncDiff, ghost dropped: seq<string>)
      requires Valid() && touched == Touched(us) && existing == TouchedPeers(store.State(), touched)
      modifies Footprint()
      ensures Valid() && Reachable() == old(Reachable())
      ensures PartialSyncWith(old(Snapshot()), us, desired, diff, old(Reachable()), accepted, Effect(Snapshot(), ok, dropped))
      ensures tracker.stats == RemovedAll(old(tracker.stats), dropped)
      ensures !ok ==> Snapshot() == old(Snapshot()) && tracker.stats == old(tracker.stats)
    {
      diff := SyncDiff([], [], [], map[], false);
      var foreign := AnyKeyOwnedByOther(desired, touched);
      if foreign { return false, diff, []; }
      var changes := BuildSyncDiff(existing, desired);
      diff := changes;
      ok, dropped := PushDiff(changes, accepted);
    }

    // Configure, then commit.
    method PushDiff(diff: SyncDiff, accepted: bool) returns (ok: bool, ghost dropped: seq<string>)
      requires Valid()
      modifies Footprint()
      ensures Valid() && Reachable() == old(Reachable())
      ensures PartialSyncBy(old(Snapshot()), diff, old(Reachable()), accepted, Effect(Snapshot(), ok, dropped))
      ensures ok <==> diff.peerConfigs == [] || (accepted && old(state == Running && manager != null && manager.clientOpen))
      ensures tracker.stats == RemovedAll(old(tracker.stats), dropped)
      ensures !ok ==> Snapshot() == old(Snapshot()) && tracker.stats == old(tracker.stats)
    {
      ok := true;
      if |diff.peerConfigs| > 0 {
        ok := EnsureRunningWithManager();
        if ok {
          ok := manager.ApplyPeers(diff.peerConfigs, accepted);
        }
      }
      if !ok { return false, []; }
      ChangedFrom(store.State(), diff.removeKeys, diff.upsertPeers);
      var removed := store.ApplyChanges(diff.removeKeys, diff.upsertPeers);
      DropStats(removed);
      dropped := removed;
    }

    method SyncUser(user: Option<User>, accepted: bool) returns (ok: bool, ghost dropped: seq<string>)
      requires Valid()
      modifies Footprint()
      ensures Valid() && Reachable() == old(Reachable())
      ensures if user.None? then Effect(Snapshot(), ok, dropped) == Refused(old(Snapshot()))
              else PartialSync(old(Snapshot()), [user], cfg, old(Reachable()), accepted, Effect(Snapshot(), ok, dropped))
      ensures tracker.stats == RemovedAll(old(tracker.stats), dropped)
      ensures !ok ==> Snapshot() == old(Snapshot()) && tracker.stats == old(tracker.stats)
    {
      if user.None? { return false, []; }
      ok, dropped := UpdateUsers([user], accepted);
    }

    // restartLocked, behind Restart.
    method RestartPeers(accepted: bool) returns (ok: bool)
      requires Valid()
      modifies Footprint()
      ensures Valid() && Reachable() == old(Reachable())
      ensures Restart(old(Snapshot()), old(Reachable()), accepted, Effect(Snapshot(), ok, []))
      ensures tracker.stats == old(tracker.stats) && (!ok ==> Snapshot() == old(Snapshot()))
    {
      var all := store.GetAll();
      var built := BuildPeerConfigsForRestart(all, store.State());
      if built.Err? { return false; }
      ok := EnsureRunningWithManager();
      if ok {
        ok := manager.ApplyPeersReplaceAll(built.value, accepted);
      }
    }

    method UpdateUsersAndRestart(users: seq<Option<User>>, accepted: bool, acceptedRestart: bool)
      returns (ok: bool, ghost mid: Node, ghost updated: bool, ghost dropped: seq<string>)
      requires Valid()
      modifies Footprint()
      ensures Valid() && Reachable() == old(Reachable())
      ensures PartialSync(old(Snapshot()), users, cfg, old(Reachable()), accepted, Effect(mid, updated, dropped))
      ensures if updated then Restart(mid, old(Reachable()), acceptedRestart, Effect(Snapshot(), ok, []))
              else !ok && Snapshot() == mid == old(Snapshot()) && tracker.stats == old(tracker.stats)
      ensures tracker.stats == RemovedAll(old(tracker.stats), dropped)
    {
      ok, dropped := UpdateUsers(users, accepted);
      mid, updated := Snapshot(), ok;
      if !ok { return; }
      ok := RestartPeers(acceptedRestart);
    }

    method Shutdown(closes: bool, removed: bool)
      requires Valid()
      modifies this, manager
      ensures Valid() && state == Stopped && manager == null && !Reachable()
      ensures store.State() == old(store.State())
      ensures old(manager) != null ==>
                !old(manager).clientOpen && old(manager).device == if removed then map[] else old(manager.device)
    {
      if manager != null {
        var closed := manager.Close(closes, removed);
        manager := null;
      }
      state := Stopped;
    }

    // ----- steps

    // normalizeUsers, then collectDesiredPeers.
    static method CollectNormalized(users: seq<Option<User>>, cfg: Config)
      returns (normalized: seq<User>, collected: Result<Desired, CollectError>)
      ensures SetOf(normalized) == NormalizedSet(users)
      ensures collected.Ok? <==> Compatible(NormalizedSet(users), cfg)
      ensures collected.Ok? ==> IsDesired(collected.value, NormalizedSet(users), cfg)
    {
      normalized := NormalizeUsers(users);
      collected := CollectDesiredPeers(normalized, cfg);
      CollectShape(normalized, cfg);
    }

    // buildExistingPeersByKeySnapshot
    method ExistingPeersByKey() returns (existing: Peers)
      requires Valid()
      ensures existing == store.peers
    {
      var all := store.GetAll();
      existing := map[];
      for i := 0 to |all|
        invariant forall t :: t in existing ==> t in store.peers && existing[t] == store.peers[t]
        invariant forall j :: 0 <= j < i ==> all[j].Text() in existing
      {
        assert all[i] in Entries(store.State());
        existing := existing[all[i].Text() := all[i]];
      }
      forall t | t in store.peers ensures t in existing {
        assert store.peers[t] in Entries(store.State());
        var j :| 0 <= j < |all| && all[j] == store.peers[t];
      }
    }

    method TouchedEmails(users: seq<User>) returns (touched: set<string>)
      ensures touched == Touched(SetOf(users))
    {
      touched := {};
      for i := 0 to |users|
        invariant touched == set u | u in users[..i] :: u.email
      {
        assert users[..i + 1] == users[..i] + [users[i]];
        touched := touched + {users[i].email};
      }
      assert users[..|users|] == users;
      forall e ensures e in touched <==> e in Touched(SetOf(users)) {
        if e in touched { var u :| u in users && u.email == e; assert u in SetOf(users); }
        if e in Touched(SetOf(users)) { var u :| u in SetOf(users) && u.email == e; assert u in users; }
      }
    }

    // buildExistingPeersSubsetForTouched
    method ExistingPeersSubset(touched: set<string>) returns (result: Peers)
      requires Valid()
      ensures result == TouchedPeers(store.State(), touched)
    {
      result := map[];
      var rest := touched;
      while rest != {}
        invariant rest <= touched
        invariant result == TouchedPeers(store.State(), touched - rest)
        decreases rest
      {
        var e :| e in rest;
        SubsetExtended(store.State(), touched - rest, e);
        rest := rest - {e};
        assert touched - rest == touched - (rest + {e}) + {e};
        var p := store.GetByEmail(e);
        if p.Some? {
          result := result[p.value.Text() := p.value];
        }
      }
      assert touched - rest == touched;
    }

    // The ownership check of syncUsersPartialReconcile.
    method AnyKeyOwnedByOther(desired: Desired, touched: set<string>) returns (found: bool)
      ensures found == OwnedByOther(store.State(), desired, touched)
    {
      var owners := store.GetEmailMap();
      var rest := desired.Keys;
      while rest != {}
        invariant rest <= desired.Keys
        invariant forall t :: t in desired && t !in rest && t in store.peers ==>
                    store.peers[t].email == desired[t].email || store.peers[t].email in touched
        decreases rest
      {
        var t :| t in rest;
        rest := rest - {t};
        if t !in owners || owners[t] == desired[t].email { continue; }
        if owners[t] !in touched { return true; }
      }
      found := false;
    }

    // The peers of the target that made it into the snapshot.
    method AppliedPeers(target: Peers, applied: set<string>) returns (peers: seq<PeerInfo>, ghost ts: seq<string>)
      requires applied == WithIPs(target).Keys
      ensures Enumerates(ts, applied)
      ensures peers == PeersAt(WithIPs(target), ts)
    {
      peers, ts := [], [];
      var rest := target.Keys;
      while rest != {}
        invariant rest <= target.Keys
        invariant Enumerates(ts, applied - rest)
        invariant peers == PeersAt(WithIPs(target), ts)
        decreases rest
      {
        var t :| t in rest;
        if t in applied {
          EnumerationExtended(ts, applied - rest, t);
          assert applied - (rest - {t}) == applied - rest + {t};
          peers, ts := peers + [target[t]], ts + [t];
        } else {
          assert applied - (rest - {t}) == applied - rest;
        }
        rest := rest - {t};
      }
      assert applied - rest == applied;
    }

    method DropStats(keys: seq<string>)
      modifies tracker
      ensures tracker.stats == RemovedAll(old(tracker.stats), keys)
    {
      for i := 0 to |keys|
        invariant tracker.stats == RemovedAll(old(tracker.stats), keys[..i])
      {
        assert keys[..i + 1][..i] == keys[..i];
        tracker.RemoveStats(keys[i]);
      }
      assert keys[..|keys|] == keys;
    }
  }

  lemma SubsetExtended(s: Store, touched: set<string>, e: string)
    requires WellKeyed(s)
    ensures TouchedPeers(s, touched + {e})
         == match LookupEmail(s, e)
            case None => TouchedPeers(s, touched)
            case Some(p) => TouchedPeers(s, touched)[p.Text() := p]
  {
  }

  lemma EnumerationSize(ts: seq<string>, all: set<string>)
    requires Enumerates(ts, all)
    ensures |ts| == |all|
  {
    if ts == [] {
      assert all == {};
    } else {
      var front, last := ts[..|ts| - 1], ts[|ts| - 1];
      assert ts == front + [last];
      EnumerationSize(front, all - {last});
    }
  }

  lemma WantedHaveIPs(desired: Desired, us: set<User>, cfg: Config)
    requires IsDesired(desired, us, cfg)
    ensures forall t :: t in desired ==> desired[t].allowed != []
  {
    forall t | t in desired ensures desired[t].allowed != [] {
      var u := Bidder(desired, us, cfg, t);
    }
  }

  lemma StartupAssembled(desired: Desired, ts: seq<string>, configs: seq<PeerConfig>, n: Node)
    requires SortedEnumeration(ts, TargetPeers(desired).Keys) && IsSnapshot(TargetPeers(desired), configs)
    requires n.device == ApplyBatch(map[], configs)
    requires n.store == InsertAll(EMPTY_STORE, PeersAt(TargetPeers(desired), ts))
    ensures StartupWith(desired, ts, configs, n)
  {
  }

  // Nobody is quarantined at startup: the sorted upserts are all the wanted peers.
  lemma StartupUpserts(desired: Desired, diff: SyncDiff, applied: set<string>) returns (ts: seq<string>)
    requires forall t :: t in desired ==> desired[t].allowed != []
    requires IsSyncDiff(map[], desired, diff) && applied == WithIPs(diff.targetPeers).Keys
    ensures WithIPs(diff.targetPeers) == TargetPeers(desired)
    ensures SortedEnumeration(ts, TargetPeers(desired).Keys)
    ensures diff.upsertPeers == PeersAt(TargetPeers(desired), ts)
    ensures |applied| == |diff.upsertPeers|
  {
    var target := TargetPeers(desired);
    var updates, adds;
    updates, adds, ts :| IsSyncDiffBy(map[], desired, diff, updates, adds, ts);
    assert WithIPs(target) == target;
    AllAdded(target);
    SortedIsEnumeration(ts, target.Keys);
    EnumerationSize(ts, target.Keys);
  }

  lemma AllAdded(target: Peers)
    requires forall t :: t in target ==> target[t].allowed != []
    ensures Upserted(map[], target) == target.Keys
  {
  }
}
