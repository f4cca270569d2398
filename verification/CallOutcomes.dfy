// When a call returns nil, and what it leaves behind when it does not.
module CallOutcomes {
  import opened Wrappers
  import opened WgKeys
  import opened Enumerations
  import opened PeerStores
  import opened DesiredPeers
  import opened SyncDiffs
  import opened SyncSteps
  import opened SyncTheorems
  import opened PartialSyncTheorems
  import opened NodeTheorems
  import opened WantedUsers

  // Neither store nor device is touched, and no statistics are dropped.
  ghost predicate LeavesAlone(n: Node, e: Effect) {
    e.node.store == n.store && e.node.device == n.device && e.dropped == []
  }

  // ----- full sync

  // SyncUsers returns nil exactly when no two of its users are in conflict and either the stored peers are
  // the wanted ones already or the kernel was reached and took the snapshot. Otherwise nothing happened.
  lemma FullSyncOutcome(n: Node, users: seq<Option<User>>, cfg: Config, reachable: bool, accepted: bool, e: Effect, target: Peers)
    requires WellKeyed(n.store) && IsTarget(target, users, cfg)
    requires FullSync(n, users, cfg, reachable, accepted, e)
    ensures e.ok <==> Compatible(NormalizedSet(users), cfg) && (n.store.peers == target || (reachable && accepted))
    ensures !e.ok ==> LeavesAlone(n, e)
  {
    var us := NormalizedSet(users);
    if Compatible(us, cfg) {
      var desired, diff :| IsDesired(desired, us, cfg) && IsSyncDiff(n.store.peers, desired, diff)
                           && FullSyncBy(n, diff, reachable, accepted, e);
      DesiredIsTarget(desired, users, cfg);
      TargetUnique(target, TargetPeers(desired), users, cfg);
      TargetShape(target, users, cfg);
      ChangedIffDifferent(n.store.peers, desired, diff);
    }
  }

  // ----- partial sync

  // The index files one of these emails under the key, and the key is stored.
  ghost predicate Filed(s: Store, emails: set<string>, t: string) {
    t in s.peers && exists m :: m in emails && m in s.emailToKey && s.emailToKey[m] == t
  }

  // Every wanted key and every key filed for the users of the request is both, with the allowed IPs it has.
  ghost predicate NothingForKernel(s: Store, touched: set<string>, target: Peers) {
    forall t :: t in target || Filed(s, touched, t) ==>
      t in target && Filed(s, touched, t) && s.peers[t].allowed == target[t].allowed
  }

  // A wanted key text is stored for a user the request does not mention.
  ghost predicate TakenByOther(s: Store, touched: set<string>, target: Peers) {
    exists t :: t in target && t in s.peers && s.peers[t].email !in touched
  }

  // UpdateUsers returns nil exactly when no two of its users are in conflict, no wanted text is taken by
  // somebody else, and either there is nothing for the kernel or it was reached and took the batch.
  // Otherwise nothing happened.
  lemma PartialSyncOutcome(n: Node, users: seq<Option<User>>, cfg: Config, reachable: bool, accepted: bool, e: Effect, target: Peers)
    requires WellKeyed(n.store) && IsTarget(target, users, cfg)
    requires PartialSync(n, users, cfg, reachable, accepted, e)
    ensures e.ok <==>
              && Compatible(NormalizedSet(users), cfg) && !TakenByOther(n.store, Touched(NormalizedSet(users)), target)
              && (NothingForKernel(n.store, Touched(NormalizedSet(users)), target) || (reachable && accepted))
    ensures !e.ok ==> LeavesAlone(n, e)
  {
    var us := NormalizedSet(users);
    if Compatible(us, cfg) {
      var desired, diff :| IsDesired(desired, us, cfg) && PartialSyncWith(n, us, desired, diff, reachable, accepted, e);
      DesiredIsTarget(desired, users, cfg);
      TargetUnique(target, TargetPeers(desired), users, cfg);
      TargetShape(target, users, cfg);
      OwnedIffTaken(n.store, Touched(us), desired);
      ReconciledOutcome(n, us, desired, diff, reachable, accepted, e);
    }
  }

  lemma OwnedIffTaken(s: Store, touched: set<string>, desired: Desired)
    requires forall t :: t in TargetPeers(desired) ==> TargetPeers(desired)[t].email in touched
    ensures OwnedByOther(s, desired, touched) <==> TakenByOther(s, touched, TargetPeers(desired))
  {
    forall t | t in desired ensures desired[t].email in touched { assert t in TargetPeers(desired); }
    if OwnedByOther(s, desired, touched) {
      var t :| t in desired && t in s.peers && s.peers[t].email != desired[t].email && s.peers[t].email !in touched;
      assert t in TargetPeers(desired);
    }
  }

  lemma ReconciledOutcome(n: Node, us: set<User>, desired: Desired, diff: SyncDiff, reachable: bool, accepted: bool, e: Effect)
    requires WellKeyed(n.store) && WellFormed(TargetPeers(desired))
    requires PartialSyncWith(n, us, desired, diff, reachable, accepted, e)
    ensures e.ok <==>
              && !OwnedByOther(n.store, desired, Touched(us))
              && (NothingForKernel(n.store, Touched(us), TargetPeers(desired)) || (reachable && accepted))
    ensures !e.ok ==> LeavesAlone(n, e)
  {
    if !OwnedByOther(n.store, desired, Touched(us)) {
      EmptyBatchIff(TouchedPeers(n.store, Touched(us)), desired, diff);
      NothingIff(n.store, Touched(us), TargetPeers(desired), TouchedPeers(n.store, Touched(us)));
    }
  }

  lemma FiledIff(s: Store, touched: set<string>, t: string)
    ensures t in TouchedPeers(s, touched) <==> Filed(s, touched, t)
    ensures Filed(s, touched, t) ==> TouchedPeers(s, touched)[t] == s.peers[t]
  {
  }

  lemma NothingIff(s: Store, touched: set<string>, target: Peers, existing: Peers)
    requires WellKeyed(s) && WellFormed(target) && existing == TouchedPeers(s, touched)
    ensures Updated(existing, target) == {} && Added(existing, target) == {} && Removable(existing, target) == {}
       <==> NothingForKernel(s, touched, target)
  {
    StoredKeysParse(s.peers);
    forall t ensures t in Updated(existing, target) || t in Added(existing, target) || t in Removable(existing, target)
                <==> (t in target || Filed(s, touched, t))
                     && !(t in target && Filed(s, touched, t) && s.peers[t].allowed == target[t].allowed)
    {
      FiledIff(s, touched, t);
    }
  }

  lemma EmptyBatchIff(existing: Peers, desired: Desired, diff: SyncDiff)
    requires IsSyncDiff(existing, desired, diff) && WellFormed(TargetPeers(desired))
    ensures diff.peerConfigs == [] <==>
              && Updated(existing, TargetPeers(desired)) == {} && Added(existing, TargetPeers(desired)) == {}
              && Removable(existing, TargetPeers(desired)) == {}
  {
    var target := TargetPeers(desired);
    var updates, adds, upserts :| IsSyncDiffBy(existing, desired, diff, updates, adds, upserts);
    SortedIsEnumeration(diff.removeKeys, Removable(existing, target));
    EmptyIff(updates, Updated(existing, target));
    EmptyIff(adds, Added(existing, target));
    EmptyIff(diff.removeKeys, Removable(existing, target));
  }

  lemma EmptyIff(s: seq<string>, all: set<string>)
    requires Enumerates(s, all)
    ensures s == [] <==> all == {}
  {
    FirstIsElement(s);
  }

  // ----- restart

  // A restart returns nil exactly when every stored peer has an allowed IP and the kernel was reached and
  // took the snapshot. It never touches the store, and otherwise not the device either.
  lemma RestartOutcome(n: Node, reachable: bool, accepted: bool, e: Effect)
    requires Restart(n, reachable, accepted, e)
    ensures e.ok <==> reachable && accepted && forall t :: t in n.store.peers ==> n.store.peers[t].allowed != []
    ensures e.node.store == n.store && e.dropped == []
    ensures !e.ok ==> LeavesAlone(n, e)
  {
  }

  // ----- the wanted peers in terms of the request

  // What a list of users asks for: for exactly those users that normalisation keeps and that get a peer, the
  // peer described, under the text of its key.
  ghost predicate AsksFor(m: Peers, users: seq<Option<User>>, cfg: Config) {
    && (forall u :: KeptFrom(users, u) && GetsPeer(u, cfg) ==>
          && u.wireguard.value.publicKey in m
          && var p := m[u.wireguard.value.publicKey]; IsPeerOf(DesiredPeer(p.email, p.key, p.allowed), u, cfg))
    && (forall t :: t in m ==> exists u :: KeptFrom(users, u) && GetsPeer(u, cfg) && u.wireguard.value.publicKey == t)
  }

  ghost predicate MaskedList(users: seq<Option<User>>) {
    forall u :: Some(u) in users ==> MaskedUser(u)
  }

  lemma KeptAreMasked(users: seq<Option<User>>)
    requires MaskedList(users)
    ensures MaskedUsers(NormalizedSet(users))
    ensures forall u :: u in NormalizedSet(users) <==> KeptFrom(users, u)
  {
    forall u ensures u in NormalizedSet(users) <==> KeptFrom(users, u) { NormalizedIff(users, u); }
    forall u | u in NormalizedSet(users) ensures MaskedUser(u) {
      var i :| 0 <= i < |users| && IsLastAt(users, u, i);
      assert Some(u) in users;
    }
  }

  lemma TargetMeaning(m: Peers, users: seq<Option<User>>, cfg: Config)
    requires IsTarget(m, users, cfg) && Masked(cfg.addresses) && MaskedList(users)
    ensures AsksFor(m, users, cfg)
  {
    var us := NormalizedSet(users);
    KeptAreMasked(users);
    var desired: Desired :| IsDesired(desired, us, cfg) && m == TargetPeers(desired);
    WantedMeaning(desired, us, cfg);
    forall u | u in us && GetsPeer(u, cfg)
      ensures u.wireguard.value.publicKey in m
      ensures var p := m[u.wireguard.value.publicKey]; IsPeerOf(DesiredPeer(p.email, p.key, p.allowed), u, cfg)
    {
      var d := desired[u.wireguard.value.publicKey];
      assert DesiredPeer(d.email, d.key, d.allowed) == d;
    }
    forall t | t in m ensures exists u :: u in us && GetsPeer(u, cfg) && u.wireguard.value.publicKey == t {
      assert t in desired;
    }
  }

  // Such a list has no conflict exactly when no two users that normalisation keeps have one.
  lemma ConflictMeaning(users: seq<Option<User>>, cfg: Config)
    requires Masked(cfg.addresses) && MaskedList(users)
    ensures Compatible(NormalizedSet(users), cfg)
       <==> forall u, v :: KeptFrom(users, u) && KeptFrom(users, v) ==> !Conflict(u, v, cfg)
  {
    KeptAreMasked(users);
    CompatibleMeaning(NormalizedSet(users), cfg);
  }
}
