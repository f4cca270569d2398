// Store and device after startup, full sync, partial sync and restart.
module NodeTheorems {
  import opened Wrappers
  import opened Cidr
  import opened WgKeys
  import opened Enumerations
  import opened PeerStores
  import opened DesiredPeers
  import opened Kernel
  import opened SyncDiffs
  import opened SyncSteps
  import opened SyncTheorems
  import opened PartialSyncTheorems

  // The peers a list of users asks for.
  ghost predicate IsTarget(m: Peers, users: seq<Option<User>>, cfg: Config) {
    exists desired :: IsDesired(desired, NormalizedSet(users), cfg) && m == TargetPeers(desired)
  }

  ghost predicate Canonicals(users: seq<Option<User>>) {
    CanonicalKeys(NormalizedSet(users))
  }

  // Store and device agree, and the store is one-to-one.
  ghost predicate Sound(n: Node) {
    Bijective(n.store) && Exclusive(n.device) && Agrees(n.device, n.store.peers)
  }

  // Store and device agree, and the email index is right about these emails.
  ghost predicate SoundFor(n: Node, emails: set<string>) {
    IndexRight(n.store, emails) && Exclusive(n.device) && Agrees(n.device, n.store.peers)
  }

  // The device has the peers of m and no others, none with a prefix that m does not give it.
  ghost predicate Within(d: Device, m: Peers) {
    SameKeys(d, m) && forall t :: t in m ==> d[m[t].key] <= SetOf(m[t].allowed)
  }

  // What is left of soundness once a prefix was taken.
  ghost predicate Shadowed(n: Node) {
    Bijective(n.store) && Exclusive(n.device) && Within(n.device, n.store.peers)
  }

  ghost predicate ShadowedFor(n: Node, emails: set<string>) {
    IndexRight(n.store, emails) && Exclusive(n.device) && Within(n.device, n.store.peers)
  }

  lemma TargetShape(m: Peers, users: seq<Option<User>>, cfg: Config)
    requires Compatible(NormalizedSet(users), cfg) && IsTarget(m, users, cfg)
    ensures WellFormed(m)
    ensures forall t :: t in m ==> m[t].email in Touched(NormalizedSet(users))
    ensures Canonicals(users) ==> FiledByKey(m)
    ensures InNetworks(m, cfg)
  {
    NormalizedEmailsIdentify(users);
    var us := NormalizedSet(users);
    var desired :| IsDesired(desired, us, cfg) && m == TargetPeers(desired);
    TargetIsWellFormed(desired, us, cfg);
    TargetKeepsToNetworks(m, users, cfg);
  }

  // Every peer has an allowed IP, and all of them lie inside the interface networks.
  ghost predicate InNetworks(m: Peers, cfg: Config) {
    forall t :: t in m ==> m[t].allowed != [] && forall p :: p in m[t].allowed ==> PeerIPAllowed(p, Networks(cfg.addresses))
  }

  lemma TargetKeepsToNetworks(m: Peers, users: seq<Option<User>>, cfg: Config)
    requires IsTarget(m, users, cfg)
    ensures InNetworks(m, cfg)
  {
  }

  lemma TargetUnique(a: Peers, b: Peers, users: seq<Option<User>>, cfg: Config)
    requires IsTarget(a, users, cfg) && IsTarget(b, users, cfg)
    ensures a == b
  {
    var us := NormalizedSet(users);
    var x :| IsDesired(x, us, cfg) && a == TargetPeers(x);
    var y :| IsDesired(y, us, cfg) && b == TargetPeers(y);
    ServesUnique(x, y, AsksOf(us, cfg));
  }

  // ----- full snapshots of wanted peers

  lemma WithAllIPs(target: Peers)
    requires WellFormed(target)
    ensures WithIPs(target) == target
  {
  }

  lemma PeersAtDistinct(target: Peers, ts: seq<string>)
    requires WellFormed(target) && KeysApart(target) && Enumerates(ts, target.Keys)
    ensures DistinctPeers(PeersAt(target, ts))
    ensures SetOf(PeersAt(target, ts)) == target.Values
  {
    var ps := PeersAt(target, ts);
    forall i, j | 0 <= i < j < |ps| ensures ps[i].Text() != ps[j].Text() && ps[i].email != ps[j].email {
      assert ts[i] in target && ts[j] in target && ts[i] != ts[j];
      if ps[i].Text() == ps[j].Text() { KeyTextInjective(ps[i].key, ps[j].key); }
    }
    forall p ensures p in SetOf(ps) <==> p in target.Values {
      if p in ps {
        var i :| 0 <= i < |ps| && ps[i] == p;
        assert ts[i] in target;
      }
      if p in target.Values {
        var t :| t in target && target[t] == p;
        var i :| 0 <= i < |ts| && ts[i] == t;
        assert ps[i] == p;
      }
    }
  }

  lemma SnapshotConfigs(target: Peers, configs: seq<PeerConfig>)
    requires WellFormed(target) && IsSnapshot(target, configs)
    ensures AllSet(configs) && DisjointAllowed(configs)
    ensures forall i :: 0 <= i < |configs| ==> !configs[i].replaceAllowedIPs
    ensures forall c :: c in configs <==> exists t :: t in target && c == SetConfig(target[t], false)
    ensures KeysApart(target) ==> DistinctKeys(configs)
  {
    var ts :| SortedEnumeration(ts, target.Keys) && configs == ConfigsAt(target, ts, false);
    SortedIsEnumeration(ts, target.Keys);
    ConfigsOfTexts(target, ts, false);
    forall i, j | 0 <= i < j < |configs| ensures KeysApart(target) ==> configs[i].key != configs[j].key {
      assert ts[i] != ts[j] && ts[i] in target && ts[j] in target;
    }
    forall c ensures c in configs <==> exists t :: t in target && c == SetConfig(target[t], false) {
      if t :| t in target && c == SetConfig(target[t], false) { assert t in ts; }
    }
  }

  lemma CommitAgreesWhenApart(target: Peers, configs: seq<PeerConfig>, ts: seq<string>)
    requires WellFormed(target) && IsSnapshot(target, configs) && Enumerates(ts, target.Keys) && KeysApart(target)
    ensures var s := InsertAll(EMPTY_STORE, PeersAt(target, ts));
            Bijective(s) && Agrees(ApplyBatch(map[], configs), s.peers) && Entries(s) == target.Values
  {
    var d, s := ApplyBatch(map[], configs), InsertAll(EMPTY_STORE, PeersAt(target, ts));
    PeersAtDistinct(target, ts);
    InsertAllShape(PeersAt(target, ts));
    SnapshotConfigs(target, configs);
    SettersOnEmpty(configs);
    forall t | t in s.peers ensures s.peers[t].key in d && d[s.peers[t].key] == SetOf(s.peers[t].allowed) {
      assert s.peers[t] in Entries(s);
      var u :| u in target && target[u] == s.peers[t];
      assert SetConfig(target[u], false) in configs;
    }
    forall k | k in d ensures KeyText(k) in s.peers {
      var c :| c in configs && c.key == k;
      var u :| u in target && c == SetConfig(target[u], false);
      assert target[u] in Entries(s);
    }
  }

  // A set that holds the lists of two wanted peers fits into the list of neither, nor of a third.
  lemma TwoListsAreNoList(target: Peers, t: string, u: string, x: string, both: set<Prefix>)
    requires WellFormed(target) && t in target && u in target && x in target && t != u
    requires SetOf(target[t].allowed) <= both && SetOf(target[u].allowed) <= both
    ensures !(both <= SetOf(target[x].allowed))
  {
    var other := if x == t then u else t;
    FirstIsElement(target[other].allowed);
    var p := target[other].allowed[0];
    assert p in SetOf(target[other].allowed) && p in both;
    assert SetOf(target[other].allowed) !! SetOf(target[x].allowed);
    assert p !in SetOf(target[x].allowed);
  }

  // Where the stored peer under a key text came from.
  lemma StoredFrom(target: Peers, ts: seq<string>, text: string) returns (x: string)
    requires Enumerates(ts, target.Keys) && text in InsertAll(EMPTY_STORE, PeersAt(target, ts)).peers
    ensures x in target && InsertAll(EMPTY_STORE, PeersAt(target, ts)).peers[text] == target[x]
    ensures target[x].Text() == text
  {
    InsertedFrom(PeersAt(target, ts));
    var p := InsertAll(EMPTY_STORE, PeersAt(target, ts)).peers[text];
    assert p in Entries(InsertAll(EMPTY_STORE, PeersAt(target, ts)));
    var i :| 0 <= i < |ts| && PeersAt(target, ts)[i] == p;
    x := ts[i];
  }

  lemma ListsConfigured(target: Peers, configs: seq<PeerConfig>)
    requires WellFormed(target) && IsSnapshot(target, configs)
    ensures forall t :: t in target ==>
              target[t].key in ApplyBatch(map[], configs) && SetOf(target[t].allowed) <= ApplyBatch(map[], configs)[target[t].key]
  {
    SnapshotConfigs(target, configs);
    SettersAccumulate(map[], configs);
    forall t | t in target
      ensures target[t].key in ApplyBatch(map[], configs) && SetOf(target[t].allowed) <= ApplyBatch(map[], configs)[target[t].key]
    {
      assert SetConfig(target[t], false) in configs;
    }
  }

  lemma AgreementNeedsApart(target: Peers, configs: seq<PeerConfig>, ts: seq<string>)
    requires WellFormed(target) && IsSnapshot(target, configs) && Enumerates(ts, target.Keys)
    requires Agrees(ApplyBatch(map[], configs), InsertAll(EMPTY_STORE, PeersAt(target, ts)).peers)
    ensures KeysApart(target)
  {
    ListsConfigured(target, configs);
    forall t, u | t in target && u in target && t != u ensures target[t].key != target[u].key {
      if target[t].key == target[u].key {
        var x := StoredFrom(target, ts, KeyText(target[t].key));
        KeyTextInjective(target[x].key, target[t].key);
        TwoListsAreNoList(target, t, u, x, ApplyBatch(map[], configs)[target[t].key]);
      }
    }
  }

  // Committing a full snapshot of wanted peers leaves device and store in agreement exactly when
  // no two key texts of the request are spellings of one key.
  lemma CommitAgreesIff(target: Peers, configs: seq<PeerConfig>, ts: seq<string>)
    requires WellFormed(target) && IsSnapshot(target, configs) && Enumerates(ts, target.Keys)
    ensures Agrees(ApplyBatch(map[], configs), InsertAll(EMPTY_STORE, PeersAt(target, ts)).peers) <==> KeysApart(target)
  {
    if KeysApart(target) {
      CommitAgreesWhenApart(target, configs, ts);
    }
    if Agrees(ApplyBatch(map[], configs), InsertAll(EMPTY_STORE, PeersAt(target, ts)).peers) {
      AgreementNeedsApart(target, configs, ts);
    }
  }

  // The indexes are inverse after such a commit in the same cases.
  lemma CommitBijectiveIff(target: Peers, ts: seq<string>)
    requires WellFormed(target) && Enumerates(ts, target.Keys)
    ensures Bijective(InsertAll(EMPTY_STORE, PeersAt(target, ts))) <==> KeysApart(target)
  {
    var s, ps := InsertAll(EMPTY_STORE, PeersAt(target, ts)), PeersAt(target, ts);
    if KeysApart(target) {
      PeersAtDistinct(target, ts);
      InsertAllShape(ps);
    }
    UpsertEmailsApart(target, ts);
    InsertedEmails(ps);
    if Bijective(s) {
      forall t, u | t in target && u in target && t != u ensures target[t].key != target[u].key {
        assert target[t] in ps && target[u] in ps;
        assert s.emailToKey[target[t].email] == target[t].Text() && s.emailToKey[target[u].email] == target[u].Text();
      }
    }
  }

  // ----- full sync

  // The store has exactly these peers.
  ghost predicate HasPeers(s: Store, m: Peers) {
    Bijective(s) && Entries(s) == m.Values
  }

  lemma HeldPeers(s: Store, m: Peers)
    requires HasPeers(s, m)
    ensures PrefixesDisjoint(m) ==> PrefixesDisjoint(s.peers)
    ensures FiledByKey(m) ==> s.peers == m
  {
    forall t | t in s.peers ensures exists u :: u in m && m[u] == s.peers[t] {
      assert s.peers[t] in Entries(s);
    }
    if FiledByKey(m) { ValuesDetermine(s.peers, m); }
  }

  lemma ValuesDetermine(m1: Peers, m2: Peers)
    requires FiledByKey(m1) && FiledByKey(m2) && m1.Values == m2.Values
    ensures m1 == m2
  {
    forall t | t in m1 ensures t in m2 && m2[t] == m1[t] { assert m1[t] in m2.Values; }
    forall t | t in m2 ensures t in m1 { assert m2[t] in m1.Values; }
  }

  // A full sync that returned nil, from any store and for any key texts. When the store already has the
  // wanted peers under these very texts, nothing happens, so a device that disagreed still does, and so
  // does an email index that led astray. Otherwise device and store agree, and the indexes are inverse,
  // exactly when no two texts spell one key; then the store has the wanted peers, with no prefix on two
  // of them. The statistics dropped are those of the keys that left the store.
  lemma FullSyncShape(n: Node, users: seq<Option<User>>, cfg: Config, reachable: bool, accepted: bool, e: Effect, target: Peers)
    requires WellKeyed(n.store) && IsTarget(target, users, cfg)
    requires FullSync(n, users, cfg, reachable, accepted, e) && e.ok
    ensures n.store.peers == target ==> e.node == n && KeysApart(target)
    ensures Agrees(e.node.device, e.node.store.peers)
       <==> if n.store.peers == target then Agrees(n.device, n.store.peers) else KeysApart(target)
    ensures Bijective(e.node.store) <==> if n.store.peers == target then Bijective(n.store) else KeysApart(target)
    ensures KeysApart(target) ==> Entries(e.node.store) == target.Values && PrefixesDisjoint(e.node.store.peers)
    ensures WellKeyed(e.node.store)
    ensures Enumerates(e.dropped, n.store.peers.Keys - e.node.store.peers.Keys)
    ensures Exclusive(n.device) ==> Exclusive(e.node.device)
  {
    FullSyncOpened(n, users, cfg, reachable, accepted, e, target);
    if n.store.peers == target {
      UnchangedShape(n.store, target);
    } else {
      FullCommitShape(n, target, e);
    }
  }

  lemma UnchangedShape(s: Store, target: Peers)
    requires WellKeyed(s) && s.peers == target && WellFormed(target)
    ensures KeysApart(target) && Entries(s) == target.Values && PrefixesDisjoint(s.peers)
  {
    FiledPeersApart(target);
  }

  lemma FullSyncOpened(n: Node, users: seq<Option<User>>, cfg: Config, reachable: bool, accepted: bool, e: Effect, target: Peers)
    requires WellKeyed(n.store) && IsTarget(target, users, cfg)
    requires FullSync(n, users, cfg, reachable, accepted, e) && e.ok
    ensures WellFormed(target)
    ensures if n.store.peers == target then e.node == n && e.dropped == []
            else exists configs, ts :: FullCommit(n, target, configs, ts, e)
  {
    var us := NormalizedSet(users);
    var desired, diff :| IsDesired(desired, us, cfg) && IsSyncDiff(n.store.peers, desired, diff)
                         && FullSyncBy(n, diff, reachable, accepted, e);
    DesiredIsTarget(desired, users, cfg);
    TargetUnique(target, TargetPeers(desired), users, cfg);
    TargetShape(target, users, cfg);
    ChangedIffDifferent(n.store.peers, desired, diff);
  }

  // The early return.
  lemma FullSyncIdles(n: Node, users: seq<Option<User>>, cfg: Config, accepted: bool)
    requires Compatible(NormalizedSet(users), cfg) && IsTarget(n.store.peers, users, cfg)
    ensures FullSync(n, users, cfg, true, accepted, Effect(n, true, []))
  {
    var desired :| IsDesired(desired, NormalizedSet(users), cfg) && n.store.peers == TargetPeers(desired);
    var diff := SyncDiff([], [], [], n.store.peers, false);
    SameIsNoDiff(n.store.peers, desired);
    assert FullSyncBy(n, diff, true, accepted, Effect(n, true, []));
  }

  lemma SameIsNoDiff(existing: Peers, desired: Desired)
    requires existing == TargetPeers(desired)
    ensures IsSyncDiff(existing, desired, SyncDiff([], [], [], existing, false))
  {
    assert Removable(existing, existing) == {} && Updated(existing, existing) == {};
    assert Renamed(existing, existing) == {} && Added(existing, existing) == {};
    assert Upserted(existing, existing) == {};
    assert IsSyncDiffBy(existing, desired, SyncDiff([], [], [], existing, false), [], [], []);
  }

  lemma DesiredIsTarget(d: Desired, us: seq<Option<User>>, cfg: Config)
    requires IsDesired(d, NormalizedSet(us), cfg)
    ensures IsTarget(TargetPeers(d), us, cfg)
  {
  }

  lemma FullCommitShape(n: Node, target: Peers, e: Effect)
    requires WellFormed(target)
    requires exists configs, ts :: FullCommit(n, target, configs, ts, e)
    ensures Agrees(e.node.device, e.node.store.peers) <==> KeysApart(target)
    ensures Bijective(e.node.store) <==> KeysApart(target)
    ensures KeysApart(target) ==> Entries(e.node.store) == target.Values && PrefixesDisjoint(e.node.store.peers)
    ensures Exclusive(e.node.device) && Enumerates(e.dropped, n.store.peers.Keys - e.node.store.peers.Keys)
    ensures WellKeyed(e.node.store)
  {
    var configs, ts :| FullCommit(n, target, configs, ts, e);
    InsertedFrom(PeersAt(target, ts));
    WithAllIPs(target);
    CommitAgreesIff(target, configs, ts);
    CommitBijectiveIff(target, ts);
    if KeysApart(target) {
      CommitAgreesWhenApart(target, configs, ts);
      HeldPeers(e.node.store, target);
    }
    BatchKeepsExclusive(map[], configs);
  }

  // ----- startup

  // A new backend is sound exactly when no two key texts of its users spell one key; its peers keep
  // to the interface networks in any case.
  lemma StartupShape(users: seq<Option<User>>, cfg: Config, n: Node, target: Peers)
    requires Startup(users, cfg, n) && IsTarget(target, users, cfg)
    ensures Sound(n) <==> KeysApart(target)
    ensures KeysApart(target) ==> HasPeers(n.store, target)
    ensures WellKeyed(n.store) && InNetworks(n.store.peers, cfg)
  {
    var us := NormalizedSet(users);
    var desired, ts, configs :| IsDesired(desired, us, cfg) && StartupWith(desired, ts, configs, n);
    DesiredIsTarget(desired, users, cfg);
    TargetUnique(target, TargetPeers(desired), users, cfg);
    TargetShape(target, users, cfg);
    SortedIsEnumeration(ts, target.Keys);
    CommitAgreesIff(target, configs, ts);
    CommitBijectiveIff(target, ts);
    if KeysApart(target) { CommitAgreesWhenApart(target, configs, ts); }
    BatchKeepsExclusive(map[], configs);
    InsertedInNetworks(target, ts, cfg);
  }

  lemma InsertedInNetworks(target: Peers, ts: seq<string>, cfg: Config)
    requires InNetworks(target, cfg) && Enumerates(ts, target.Keys)
    ensures WellKeyed(InsertAll(EMPTY_STORE, PeersAt(target, ts)))
    ensures InNetworks(InsertAll(EMPTY_STORE, PeersAt(target, ts)).peers, cfg)
  {
    var s := InsertAll(EMPTY_STORE, PeersAt(target, ts));
    InsertedFrom(PeersAt(target, ts));
    forall t | t in s.peers
      ensures s.peers[t].allowed != [] && forall p :: p in s.peers[t].allowed ==> PeerIPAllowed(p, Networks(cfg.addresses))
    {
      var x := StoredFrom(target, ts, t);
    }
  }

  // ----- restart

  // A restart never fails on its own account when every stored peer has an allowed IP. From any
  // device it restores agreement exactly when no prefix is stored for two peers.
  lemma RestartShape(n: Node, reachable: bool, accepted: bool, e: Effect)
    requires WellKeyed(n.store) && Restart(n, reachable, accepted, e)
    ensures (forall t :: t in n.store.peers ==> n.store.peers[t].allowed != []) ==> (e.ok <==> reachable && accepted)
    ensures e.node.store == n.store
    ensures e.ok ==> (Agrees(e.node.device, e.node.store.peers) <==> PrefixesDisjoint(n.store.peers))
    ensures e.ok ==> Exclusive(e.node.device)
  {
    if e.ok {
      var configs :| IsSnapshot(n.store.peers, configs) && e.node.device == ApplyBatch(map[], configs);
      SnapshotAgreesIff(n.store.peers, configs);
      BatchKeepsExclusive(map[], configs);
    }
  }

  // ----- partial sync

  // What PartialSync says when the call returned nil.
  ghost predicate PartialCommit(n: Node, touched: set<string>, target: Peers, e: Effect,
                                updates: seq<string>, adds: seq<string>, ts: seq<string>, removeKeys: seq<string>)
  {
    && Admitted(n.store, target, touched)
    && DevicePlan(n.store, target, updates, adds) && StorePlan(n.store, touched, target, ts, removeKeys)
    && (forall t :: t in updates ==> t in target) && (forall t :: t in adds ==> t in target)
    && (forall t :: t in ts ==> t in target) && (forall t :: t in removeKeys ==> ParseKey(t).Some?)
    && e.node.device == ApplyBatch(n.device, SettersAt(target, updates, adds) + RemovesAt(removeKeys))
    && e.node.store == AfterChanges(n.store, removeKeys, PeersAt(target, ts))
    && e.dropped == RemovedBy(n.store, removeKeys)
  }

  lemma PartialSyncOpened(n: Node, users: seq<Option<User>>, cfg: Config, reachable: bool, accepted: bool, e: Effect, target: Peers)
    returns (updates: seq<string>, adds: seq<string>, ts: seq<string>, removeKeys: seq<string>)
    requires IndexRight(n.store, Touched(NormalizedSet(users))) && IsTarget(target, users, cfg)
    requires PartialSync(n, users, cfg, reachable, accepted, e) && e.ok
    ensures PartialCommit(n, Touched(NormalizedSet(users)), target, e, updates, adds, ts, removeKeys)
  {
    var us := NormalizedSet(users);
    var desired, diff :| IsDesired(desired, us, cfg) && PartialSyncWith(n, us, desired, diff, reachable, accepted, e);
    DesiredIsTarget(desired, users, cfg);
    TargetUnique(target, TargetPeers(desired), users, cfg);
    removeKeys := diff.removeKeys;
    NormalizedEmailsIdentify(users);
    RequestIsAdmitted(n.store, us, cfg, desired);
    updates, adds, ts := CommitOpened(n, us, desired, diff, reachable, accepted, e);
  }

  lemma CommitOpened(n: Node, us: set<User>, desired: Desired, diff: SyncDiff, reachable: bool, accepted: bool, e: Effect)
    returns (updates: seq<string>, adds: seq<string>, ts: seq<string>)
    requires Admitted(n.store, TargetPeers(desired), Touched(us))
    requires PartialSyncWith(n, us, desired, diff, reachable, accepted, e) && e.ok
    ensures PartialCommit(n, Touched(us), TargetPeers(desired), e, updates, adds, ts, diff.removeKeys)
  {
    var existing := TouchedPeers(n.store, Touched(us));
    updates, adds, ts :| IsSyncDiffBy(existing, desired, diff, updates, adds, ts);
    PlanOpened(n.store, Touched(us), existing, desired, diff, updates, adds, ts);
  }

  lemma PlanOpened(s: Store, touched: set<string>, existing: Peers, desired: Desired, diff: SyncDiff,
                   updates: seq<string>, adds: seq<string>, ts: seq<string>)
    requires Admitted(s, TargetPeers(desired), touched) && existing == TouchedPeers(s, touched)
    requires IsSyncDiffBy(existing, desired, diff, updates, adds, ts)
    ensures DevicePlan(s, TargetPeers(desired), updates, adds) && StorePlan(s, touched, TargetPeers(desired), ts, diff.removeKeys)
    ensures (forall t :: t in updates ==> t in desired) && (forall t :: t in adds ==> t in desired)
    ensures (forall t :: t in ts ==> t in desired) && (forall t :: t in diff.removeKeys ==> ParseKey(t).Some?)
    ensures diff.peerConfigs == SettersAt(TargetPeers(desired), updates, adds) + RemovesAt(diff.removeKeys)
    ensures diff.upsertPeers == PeersAt(TargetPeers(desired), ts)
  {
    DiffIsPlanned(s, touched, TargetPeers(desired), updates, adds, ts, diff.removeKeys);
  }

  // The wanted peers, and the entries that stay.
  ghost predicate StoreOverlaid(s: Store, touched: set<string>, target: Peers, after: Store) {
    WellKeyed(after) && forall q :: q in Entries(after) <==> q in target.Values || Stays(s, touched, target, q)
  }

  // The store after a partial sync that returned nil, for any key texts, when the email index is right
  // about the users of the request: it stays so, and inverse indexes stay inverse. As long as no two texts
  // spell one key, the store has exactly the wanted peers and, of the users outside the request, the
  // entries whose key nobody in the request wants. The statistics dropped are those of the stored keys
  // of the request's users that are not among its texts.
  lemma PartialSyncShape(n: Node, users: seq<Option<User>>, cfg: Config, reachable: bool, accepted: bool, e: Effect, target: Peers)
    requires IndexRight(n.store, Touched(NormalizedSet(users))) && IsTarget(target, users, cfg)
    requires PartialSync(n, users, cfg, reachable, accepted, e) && e.ok
    ensures IndexRight(e.node.store, Touched(NormalizedSet(users))) && (Bijective(n.store) ==> Bijective(e.node.store))
    ensures Admitted(n.store, target, Touched(NormalizedSet(users)))
    ensures KeysApart(target) ==> StoreOverlaid(n.store, Touched(NormalizedSet(users)), target, e.node.store)
    ensures Enumerates(e.dropped, set t | t in n.store.peers && Dropped(n.store, Touched(NormalizedSet(users)), target, t))
  {
    var touched := Touched(NormalizedSet(users));
    var updates, adds, ts, removeKeys := PartialSyncOpened(n, users, cfg, reachable, accepted, e, target);
    PartialStoreKeeps(n.store, touched, target, ts, removeKeys, touched);
    DroppedKeys(n.store, touched, target, ts, removeKeys);
    if KeysApart(target) { PartialEntries(n.store, touched, target, ts, removeKeys); }
  }

  // An email index that was right about more users than those of the request stays right about them.
  lemma PartialSyncKeepsIndex(n: Node, users: seq<Option<User>>, cfg: Config, reachable: bool, accepted: bool,
          e: Effect, target: Peers, emails: set<string>)
    requires IndexRight(n.store, emails) && Touched(NormalizedSet(users)) <= emails && IsTarget(target, users, cfg)
    requires PartialSync(n, users, cfg, reachable, accepted, e) && e.ok
    ensures IndexRight(e.node.store, emails)
  {
    var updates, adds, ts, removeKeys := PartialSyncOpened(n, users, cfg, reachable, accepted, e, target);
    PartialStoreKeeps(n.store, Touched(NormalizedSet(users)), target, ts, removeKeys, emails);
  }

  // Some user of the request has a stored key that the request spells in another way.
  ghost predicate Respells(s: Store, touched: set<string>, target: Peers) {
    exists x :: x in target && RespelledAs(s, touched, target, x)
  }

  lemma RespelledIffDropped(s: Store, touched: set<string>, target: Peers, x: string)
    requires Admitted(s, target, touched) && KeysApart(target) && x in target
    ensures RespelledAs(s, touched, target, x) <==> Dropped(s, touched, target, target[x].Text())
  {
    var c := target[x].Text();
    ParseOfText(target[x].key);
    assert c in target ==> ParseKey(c) == Some(target[c].key);
  }

  // The statistics dropped by a partial sync that returned nil are exactly those of the keys that left the
  // store, for any key texts, unless the request spells a stored key of one of its users in another way
  // and not the way it is stored.
  lemma DroppedAreGoneIff(n: Node, users: seq<Option<User>>, cfg: Config, reachable: bool, accepted: bool, e: Effect, target: Peers)
    requires IndexRight(n.store, Touched(NormalizedSet(users))) && IsTarget(target, users, cfg)
    requires PartialSync(n, users, cfg, reachable, accepted, e) && e.ok
    ensures Enumerates(e.dropped, n.store.peers.Keys - e.node.store.peers.Keys)
       <==> forall x :: x in target ==> !RespelledAway(n.store, Touched(NormalizedSet(users)), target, x)
  {
    var updates, adds, ts, removeKeys := PartialSyncOpened(n, users, cfg, reachable, accepted, e, target);
    DroppedIffGone(n, Touched(NormalizedSet(users)), target, e, updates, adds, ts, removeKeys);
  }

  // Whatever the email index says: the peers a partial sync drops are those of its users exactly when the
  // index files no email of the request under the key of somebody else, unless the request names that key.
  lemma DroppedOwnersIff(n: Node, users: seq<Option<User>>, cfg: Config, reachable: bool, accepted: bool, e: Effect, target: Peers)
    requires WellKeyed(n.store) && IsTarget(target, users, cfg)
    requires PartialSync(n, users, cfg, reachable, accepted, e) && e.ok
    ensures (forall t :: t in e.dropped ==> t in n.store.peers && n.store.peers[t].email in Touched(NormalizedSet(users)))
       <==> !FilesForeignKey(n.store, Touched(NormalizedSet(users)), target)
  {
    var us := NormalizedSet(users);
    var desired, diff :| IsDesired(desired, us, cfg) && PartialSyncWith(n, us, desired, diff, reachable, accepted, e);
    DesiredIsTarget(desired, users, cfg);
    TargetUnique(target, TargetPeers(desired), users, cfg);
    DropsOpened(n, us, desired, diff, reachable, accepted, e);
    FiledKeysDropped(n.store, Touched(us), target, e.dropped);
  }

  lemma DropsOpened(n: Node, us: set<User>, desired: Desired, diff: SyncDiff, reachable: bool, accepted: bool, e: Effect)
    requires PartialSyncWith(n, us, desired, diff, reachable, accepted, e) && e.ok
    ensures forall t :: t in e.dropped <==>
              t in n.store.peers && t in Removable(TouchedPeers(n.store, Touched(us)), TargetPeers(desired))
  {
    var updates, adds, ts :| IsSyncDiffBy(TouchedPeers(n.store, Touched(us)), desired, diff, updates, adds, ts);
    RemovedByShape(n.store, diff.removeKeys);
  }

  // An email of the request is filed under a key that belongs to nobody in the request and that it does
  // not name.
  ghost predicate FilesForeignKey(s: Store, touched: set<string>, target: Peers) {
    exists m :: m in touched && m in s.emailToKey && s.emailToKey[m] in s.peers && s.emailToKey[m] !in target
                && s.peers[s.emailToKey[m]].email !in touched
  }

  lemma FiledKeysDropped(s: Store, touched: set<string>, target: Peers, dropped: seq<string>)
    requires WellKeyed(s)
    requires forall t :: t in dropped <==> t in s.peers && t in Removable(TouchedPeers(s, touched), target)
    ensures (forall t :: t in dropped ==> t in s.peers && s.peers[t].email in touched) <==> !FilesForeignKey(s, touched, target)
  {
    StoredKeysParse(s.peers);
    if m :| m in touched && m in s.emailToKey && s.emailToKey[m] in s.peers && s.emailToKey[m] !in target
            && s.peers[s.emailToKey[m]].email !in touched {
      assert s.emailToKey[m] in TouchedPeers(s, touched);
    }
    forall t | t in dropped && !FilesForeignKey(s, touched, target) ensures s.peers[t].email in touched {
      var m :| m in touched && m in s.emailToKey && s.emailToKey[m] == t;
    }
  }

  lemma DroppedIffGone(n: Node, touched: set<string>, target: Peers, e: Effect,
                       updates: seq<string>, adds: seq<string>, ts: seq<string>, removeKeys: seq<string>)
    requires PartialCommit(n, touched, target, e, updates, adds, ts, removeKeys)
    ensures Enumerates(e.dropped, n.store.peers.Keys - e.node.store.peers.Keys)
       <==> forall x :: x in target ==> !RespelledAway(n.store, touched, target, x)
  {
    var dropped := set t | t in n.store.peers && Dropped(n.store, touched, target, t);
    DroppedKeys(n.store, touched, target, ts, removeKeys);
    EnumeratesOne(e.dropped, dropped, n.store.peers.Keys - e.node.store.peers.Keys);
    if x :| x in target && RespelledAway(n.store, touched, target, x) {
      DroppedButStored(n.store, touched, target, ts, removeKeys, x);
      assert target[x].Text() in dropped;
    } else {
      forall t | t in n.store.peers ensures t in dropped <==> t !in e.node.store.peers {
        DroppedAndGone(n.store, touched, target, ts, removeKeys, t);
      }
    }
  }

  lemma EnumeratesOne(xs: seq<string>, a: set<string>, b: set<string>)
    requires Enumerates(xs, a)
    ensures Enumerates(xs, b) <==> a == b
  {
    if Enumerates(xs, b) {
      assert forall x :: x in a <==> x in b;
    }
  }

  lemma DroppedButStored(s: Store, touched: set<string>, target: Peers, ts: seq<string>, removeKeys: seq<string>, x: string)
    requires Admitted(s, target, touched) && StorePlan(s, touched, target, ts, removeKeys)
    requires (forall y :: y in ts ==> y in target) && x in target && RespelledAway(s, touched, target, x)
    ensures Dropped(s, touched, target, target[x].Text())
    ensures target[x].Text() in AfterChanges(s, removeKeys, PeersAt(target, ts)).peers
  {
    RespelledIsUpserted(s, touched, target, ts, x);
    KeyAfterIff(s, touched, target, ts, removeKeys, target[x].Text());
  }

  // ----- the device after a partial sync

  // A partial sync that returned nil, with no two texts of the request spelling one key. mid: the
  // device between the setting and the removing part of the batch.
  ghost predicate Overlaid(n: Node, touched: set<string>, target: Peers, mid: Device, e: Node) {
    && Admitted(n.store, target, touched) && KeysApart(target)
    && Exclusive(n.device) && SameKeys(n.device, n.store.peers)
    && StoreOverlaid(n.store, touched, target, e.store)
    && DeviceSet(n.device, n.store, target, mid)
    && (forall k :: k in e.device <==> k in mid && !Dropped(n.store, touched, target, KeyText(k)))
    && (forall k :: k in e.device ==> e.device[k] == mid[k])
  }

  lemma PartialSyncOverlays(n: Node, users: seq<Option<User>>, cfg: Config, reachable: bool, accepted: bool, e: Effect, target: Peers)
    returns (mid: Device)
    requires IndexRight(n.store, Touched(NormalizedSet(users))) && Exclusive(n.device) && SameKeys(n.device, n.store.peers)
    requires IsTarget(target, users, cfg) && KeysApart(target)
    requires PartialSync(n, users, cfg, reachable, accepted, e) && e.ok
    ensures Overlaid(n, Touched(NormalizedSet(users)), target, mid, e.node)
  {
    var touched := Touched(NormalizedSet(users));
    var updates, adds, ts, removeKeys := PartialSyncOpened(n, users, cfg, reachable, accepted, e, target);
    mid := ApplyBatch(n.device, SettersAt(target, updates, adds));
    PartialEntries(n.store, touched, target, ts, removeKeys);
    DeviceAfterSetters(n.device, n.store, touched, target, updates, adds);
    BatchSplits(n.device, SettersAt(target, updates, adds), RemovesAt(removeKeys));
    RemovalsOnly(mid, n.store, touched, target, ts, removeKeys);
  }

  lemma PartialSyncKeepsExclusive(n: Node, users: seq<Option<User>>, cfg: Config, reachable: bool,
          accepted: bool, e: Effect, target: Peers)
    requires IndexRight(n.store, Touched(NormalizedSet(users))) && Exclusive(n.device) && IsTarget(target, users, cfg)
    requires PartialSync(n, users, cfg, reachable, accepted, e) && e.ok
    ensures Exclusive(e.node.device)
  {
    var updates, adds, ts, removeKeys := PartialSyncOpened(n, users, cfg, reachable, accepted, e, target);
    BatchKeepsExclusive(n.device, SettersAt(target, updates, adds) + RemovesAt(removeKeys));
  }

  // Same peers on both sides exactly when no stored key of the request's users is respelled.
  lemma SameKeysIff(n: Node, touched: set<string>, target: Peers, mid: Device, e: Node)
    requires Overlaid(n, touched, target, mid, e)
    ensures SameKeys(e.device, e.store.peers) <==> !Respells(n.store, touched, target)
  {
    if x :| x in target && RespelledAs(n.store, touched, target, x) {
      RespelledIffDropped(n.store, touched, target, x);
      assert target[x] in Entries(e.store) && target[x].key !in e.device;
      var t :| t in e.store.peers && e.store.peers[t] == target[x];
    }
    if !Respells(n.store, touched, target) {
      forall t | t in e.store.peers ensures e.store.peers[t].key in e.device {
        EntryOnDevice(n, touched, target, mid, e, e.store.peers[t]);
      }
      forall k | k in e.device ensures KeyText(k) in e.store.peers {
        DeviceKeyStored(n, touched, target, mid, e, k);
      }
    }
  }

  lemma EntryOnDevice(n: Node, touched: set<string>, target: Peers, mid: Device, e: Node, q: PeerInfo)
    requires Overlaid(n, touched, target, mid, e) && !Respells(n.store, touched, target) && q in Entries(e.store)
    ensures q.key in e.device
  {
    if q in target.Values {
      var x :| x in target && target[x] == q;
      RespelledIffDropped(n.store, touched, target, x);
      assert !RespelledAs(n.store, touched, target, x);
    } else {
      assert n.store.peers[q.Text()] == q;
    }
  }

  lemma DeviceKeyStored(n: Node, touched: set<string>, target: Peers, mid: Device, e: Node, k: Key)
    requires Overlaid(n, touched, target, mid, e) && k in e.device
    ensures KeyText(k) in e.store.peers
  {
    if k in WantedKeys(target) {
      var x :| x in target && target[x].key == k;
      assert target[x] in Entries(e.store);
    } else {
      var c := KeyText(k);
      var q := n.store.peers[c];
      KeyTextInjective(q.key, k);
      assert c in target ==> ParseKey(c) == Some(target[c].key);
      ParseOfText(k);
      assert q in Entries(n.store);
      assert Stays(n.store, touched, target, q);
    }
  }

  // Stored keys of users outside the request that the request wants as well, in another spelling:
  // what their old owners had is given to the wanted peers.
  ghost predicate GivesForeignLists(s: Store, touched: set<string>, target: Peers, given: set<Prefix>) {
    forall t :: t in s.peers && s.peers[t].email !in touched && s.peers[t].key in WantedKeys(target) ==>
      SetOf(s.peers[t].allowed) <= given
  }

  // The other users outside the request share no prefix with it.
  ghost predicate SparesOthers(s: Store, touched: set<string>, target: Peers, given: set<Prefix>) {
    forall t :: t in s.peers && s.peers[t].email !in touched && s.peers[t].key !in WantedKeys(target) ==>
      SetOf(s.peers[t].allowed) !! given
  }

  // In a store without a prefix on two peers it makes no difference whether the prefixes of the
  // request are meant or only those the kernel has to hear of.
  lemma WantedOrPushed(s: Store, touched: set<string>, target: Peers)
    requires Admitted(s, target, touched) && PrefixesDisjoint(s.peers)
    ensures GivesForeignLists(s, touched, target, WantedPrefixes(target))
       <==> GivesForeignLists(s, touched, target, PushedPrefixes(s, target))
    ensures SparesOthers(s, touched, target, WantedPrefixes(target))
       <==> SparesOthers(s, touched, target, PushedPrefixes(s, target))
  {
    forall t, p | t in s.peers && s.peers[t].email !in touched && p in SetOf(s.peers[t].allowed)
      ensures p in WantedPrefixes(target) <==> p in PushedPrefixes(s, target)
    {
      if p in WantedPrefixes(target) {
        var v :| v in target && p in target[v].allowed;
        assert !Pushed(s, target, v) ==> v in s.peers && v != t && p in SetOf(s.peers[v].allowed);
      }
    }
  }

  // What a wanted peer has on the device, compared with its list.
  lemma WantedValue(n: Node, touched: set<string>, target: Peers, mid: Device, e: Node, x: string)
    requires Overlaid(n, touched, target, mid, e) && Within(n.device, n.store.peers) && x in target
    ensures var k, given := target[x].key, PushedPrefixes(n.store, target);
            k in mid && (mid[k] <= SetOf(target[x].allowed) <==> (x !in n.store.peers && k in n.device ==> n.device[k] <= given))
    ensures (x in n.store.peers ==> n.device[n.store.peers[x].key] == SetOf(n.store.peers[x].allowed)) ==>
              SetOf(target[x].allowed) <= mid[target[x].key]
  {
    var given := PushedPrefixes(n.store, target);
    if Pushed(n.store, target, x) {
      assert SetOf(target[x].allowed) <= given;
      assert mid[target[x].key] == PushedTo(n.device, n.store, target, x);
    } else {
      StoredKeysParse(n.store.peers);
      assert n.store.peers[x].key == target[x].key;
      UnpushedListKept(n.store, target, x);
    }
  }

  lemma UnpushedListKept(s: Store, target: Peers, x: string)
    requires PrefixesDisjoint(target) && x in target && !Pushed(s, target, x)
    ensures SetOf(target[x].allowed) !! PushedPrefixes(s, target)
  {
    forall p | p in PushedPrefixes(s, target) ensures p !in SetOf(target[x].allowed) {
      var t :| t in target && Pushed(s, target, t) && p in target[t].allowed;
      assert t != x && p in SetOf(target[t].allowed);
    }
  }

  // A key that is wanted and stored for a user outside the request is wanted in another spelling.
  lemma ForeignKeyRespelled(s: Store, touched: set<string>, target: Peers, t: string, x: string)
    requires Admitted(s, target, touched) && t in s.peers && s.peers[t].email !in touched
    requires x in target && target[x].key == s.peers[t].key
    ensures x !in s.peers && x != t
  {
    StoredKeysParse(s.peers);
    assert t !in target;
  }

  // What those owners have on the device is given away.
  ghost predicate GivesForeignHeld(n: Node, touched: set<string>, target: Peers, given: set<Prefix>) {
    forall t :: t in n.store.peers && n.store.peers[t].email !in touched && n.store.peers[t].key in WantedKeys(target) ==>
      n.store.peers[t].key in n.device && n.device[n.store.peers[t].key] <= given
  }

  // The wanted peers fit their lists exactly when what was there under their keys is given away.
  lemma WantedFitIff(n: Node, touched: set<string>, target: Peers, mid: Device, e: Node)
    requires Overlaid(n, touched, target, mid, e) && Within(n.device, n.store.peers) && !Respells(n.store, touched, target)
    ensures (forall x :: x in target ==> target[x].key in mid && mid[target[x].key] <= SetOf(target[x].allowed))
       <==> GivesForeignHeld(n, touched, target, PushedPrefixes(n.store, target))
  {
    var s, given := n.store, PushedPrefixes(n.store, target);
    forall x | x in target
      ensures target[x].key in mid
      ensures mid[target[x].key] <= SetOf(target[x].allowed) <==>
                (x !in s.peers && target[x].key in n.device ==> n.device[target[x].key] <= given)
    {
      WantedValue(n, touched, target, mid, e, x);
    }
    HeldUnderWantedIff(n, touched, target, given);
  }

  // Keys wanted under a text that is not stored, by key and by owner.
  lemma HeldUnderWantedIff(n: Node, touched: set<string>, target: Peers, given: set<Prefix>)
    requires Admitted(n.store, target, touched) && SameKeys(n.device, n.store.peers) && !Respells(n.store, touched, target)
    ensures (forall x :: x in target ==> (x !in n.store.peers && target[x].key in n.device ==> n.device[target[x].key] <= given))
       <==> GivesForeignHeld(n, touched, target, given)
  {
    if GivesForeignHeld(n, touched, target, given) {
      forall x | x in target && x !in n.store.peers && target[x].key in n.device ensures n.device[target[x].key] <= given {
        assert !RespelledAs(n.store, touched, target, x);
        KeyTextInjective(n.store.peers[target[x].Text()].key, target[x].key);
      }
    }
    forall t, x | t in n.store.peers && n.store.peers[t].email !in touched && x in target && target[x].key == n.store.peers[t].key
      ensures x !in n.store.peers
    {
      ForeignKeyRespelled(n.store, touched, target, t, x);
    }
  }

  // The entries that stay keep what was not given away.
  lemma StayingValue(n: Node, touched: set<string>, target: Peers, mid: Device, e: Node, q: PeerInfo)
    requires Overlaid(n, touched, target, mid, e) && Stays(n.store, touched, target, q)
    ensures q.key in n.device && q.key in e.device
    ensures e.device[q.key] == n.device[q.key] - PushedPrefixes(n.store, target)
  {
    assert n.store.peers[q.Text()] == q;
  }

  // From a state in which the device has no more than the store, and no two texts spelling one key:
  // this is kept exactly when no stored key of the request's users is respelled, and whatever was on
  // the device for other users under a wanted key is given away.
  lemma OverlayShadowsIff(n: Node, touched: set<string>, target: Peers, mid: Device, e: Node)
    requires Overlaid(n, touched, target, mid, e) && Within(n.device, n.store.peers)
    ensures Within(e.device, e.store.peers)
       <==> !Respells(n.store, touched, target) && GivesForeignHeld(n, touched, target, PushedPrefixes(n.store, target))
  {
    SameKeysIff(n, touched, target, mid, e);
    if !Respells(n.store, touched, target) {
      WantedFitIff(n, touched, target, mid, e);
      if GivesForeignHeld(n, touched, target, PushedPrefixes(n.store, target)) {
        forall t | t in e.store.peers ensures e.device[e.store.peers[t].key] <= SetOf(e.store.peers[t].allowed) {
          EntryWithin(n, touched, target, mid, e, e.store.peers[t]);
        }
      }
      if Within(e.device, e.store.peers) {
        forall x | x in target ensures target[x].key in mid && mid[target[x].key] <= SetOf(target[x].allowed) {
          assert target[x] in Entries(e.store);
          var t :| t in e.store.peers && e.store.peers[t] == target[x];
        }
      }
    }
  }

  lemma EntryWithin(n: Node, touched: set<string>, target: Peers, mid: Device, e: Node, q: PeerInfo)
    requires Overlaid(n, touched, target, mid, e) && Within(n.device, n.store.peers) && SameKeys(e.device, e.store.peers)
    requires forall x :: x in target ==> target[x].key in mid && mid[target[x].key] <= SetOf(target[x].allowed)
    requires q in Entries(e.store)
    ensures q.key in e.device && e.device[q.key] <= SetOf(q.allowed)
  {
    var t :| t in e.store.peers && e.store.peers[t] == q;
    if !(q in target.Values) {
      StayingValue(n, touched, target, mid, e, q);
      assert n.store.peers[q.Text()] == q;
    }
  }

  // From an agreeing state: agreement is kept exactly when, besides, the users outside the request
  // whose keys nobody wants share no prefix with it.
  lemma OverlayAgreesIff(n: Node, touched: set<string>, target: Peers, mid: Device, e: Node)
    requires Overlaid(n, touched, target, mid, e) && Agrees(n.device, n.store.peers)
    ensures Agrees(e.device, e.store.peers)
       <==> Within(e.device, e.store.peers) && SparesOthers(n.store, touched, target, PushedPrefixes(n.store, target))
  {
    if Within(e.device, e.store.peers) && SparesOthers(n.store, touched, target, PushedPrefixes(n.store, target)) {
      SparedAgrees(n, touched, target, mid, e);
    }
    if Agrees(e.device, e.store.peers) {
      AgreesWithin(e.device, e.store.peers);
      forall t | t in n.store.peers && n.store.peers[t].email !in touched && n.store.peers[t].key !in WantedKeys(target)
        ensures SetOf(n.store.peers[t].allowed) !! PushedPrefixes(n.store, target)
      {
        OtherSpared(n, touched, target, mid, e, t);
      }
    }
  }

  lemma SparedAgrees(n: Node, touched: set<string>, target: Peers, mid: Device, e: Node)
    requires Overlaid(n, touched, target, mid, e) && Agrees(n.device, n.store.peers)
    requires Within(e.device, e.store.peers) && SparesOthers(n.store, touched, target, PushedPrefixes(n.store, target))
    ensures Agrees(e.device, e.store.peers)
  {
    forall t | t in e.store.peers ensures SetOf(e.store.peers[t].allowed) <= e.device[e.store.peers[t].key] {
      EntryComplete(n, touched, target, mid, e, e.store.peers[t]);
    }
    CompleteAgrees(e.device, e.store.peers);
  }

  lemma CompleteAgrees(d: Device, m: Peers)
    requires Within(d, m) && forall t :: t in m ==> SetOf(m[t].allowed) <= d[m[t].key]
    ensures Agrees(d, m)
  {
  }

  lemma OtherSpared(n: Node, touched: set<string>, target: Peers, mid: Device, e: Node, t: string)
    requires Overlaid(n, touched, target, mid, e) && Agrees(n.device, n.store.peers) && Agrees(e.device, e.store.peers)
    requires t in n.store.peers && n.store.peers[t].email !in touched && n.store.peers[t].key !in WantedKeys(target)
    ensures SetOf(n.store.peers[t].allowed) !! PushedPrefixes(n.store, target)
  {
    var q := n.store.peers[t];
    assert q in Entries(n.store);
    assert Stays(n.store, touched, target, q);
    StayingValue(n, touched, target, mid, e, q);
    assert q in Entries(e.store);
    var u :| u in e.store.peers && e.store.peers[u] == q;
  }

  lemma EntryComplete(n: Node, touched: set<string>, target: Peers, mid: Device, e: Node, q: PeerInfo)
    requires Overlaid(n, touched, target, mid, e) && Agrees(n.device, n.store.peers) && SameKeys(e.device, e.store.peers)
    requires SparesOthers(n.store, touched, target, PushedPrefixes(n.store, target)) && q in Entries(e.store)
    ensures q.key in e.device && SetOf(q.allowed) <= e.device[q.key]
  {
    var t :| t in e.store.peers && e.store.peers[t] == q;
    if q in target.Values {
      var x :| x in target && target[x] == q;
      WantedValue(n, touched, target, mid, e, x);
    } else {
      StayingValue(n, touched, target, mid, e, q);
      assert n.store.peers[q.Text()] == q;
    }
  }

  // ----- two texts of the request that spell one key

  // From an agreeing state, they leave one peer in the store, and the device gives that peer more than
  // the store does, or does not have it.
  lemma KeySpelledTwice(n: Node, users: seq<Option<User>>, cfg: Config, reachable: bool, accepted: bool, e: Effect, target: Peers,
                        t: string, u: string)
    requires SoundFor(n, Touched(NormalizedSet(users))) && IsTarget(target, users, cfg)
    requires PartialSync(n, users, cfg, reachable, accepted, e) && e.ok
    requires t in target && u in target && t != u && target[t].key == target[u].key
    ensures target[t].Text() in e.node.store.peers
    ensures target[t].key in e.node.device ==>
              && SetOf(target[t].allowed) + SetOf(target[u].allowed) <= e.node.device[target[t].key]
              && !(e.node.device[target[t].key] <= SetOf(e.node.store.peers[target[t].Text()].allowed))
  {
    var updates, adds, ts, removeKeys := PartialSyncOpened(n, users, cfg, reachable, accepted, e, target);
    SpelledTwice(n, Touched(NormalizedSet(users)), target, e, updates, adds, ts, removeKeys, t, u);
  }

  lemma SpelledTwice(n: Node, touched: set<string>, target: Peers, e: Effect,
                     updates: seq<string>, adds: seq<string>, ts: seq<string>, removeKeys: seq<string>, t: string, u: string)
    requires Agrees(n.device, n.store.peers) && PartialCommit(n, touched, target, e, updates, adds, ts, removeKeys)
    requires t in target && u in target && t != u && target[t].key == target[u].key
    ensures target[t].Text() in e.node.store.peers
    ensures target[t].key in e.node.device ==>
              && SetOf(target[t].allowed) + SetOf(target[u].allowed) <= e.node.device[target[t].key]
              && !(e.node.device[target[t].key] <= SetOf(e.node.store.peers[target[t].Text()].allowed))
  {
    var mid := ApplyBatch(n.device, SettersAt(target, updates, adds));
    WantedListsKept(n.device, n.store, touched, target, updates, adds);
    PartialStoreKeeps(n.store, touched, target, ts, removeKeys, touched);
    BatchSplits(n.device, SettersAt(target, updates, adds), RemovesAt(removeKeys));
    RemovalsOnly(mid, n.store, touched, target, ts, removeKeys);
    var x := if target[t].Text() == t then u else t;
    RespelledIsUpserted(n.store, touched, target, ts, x);
    TwoSpellings(target, t, u, x, mid, e.node);
  }

  lemma TwoSpellings(target: Peers, t: string, u: string, x: string, mid: Device, e: Node)
    requires WellFormed(target) && t in target && u in target && x in target && t != u
    requires target[t].key == target[u].key == target[x].key
    requires forall y :: y in target ==> target[y].key in mid && SetOf(target[y].allowed) <= mid[target[y].key]
    requires forall k :: k in e.device ==> k in mid && e.device[k] == mid[k]
    requires WellKeyed(e.store) && target[x].Text() in e.store.peers && e.store.peers[target[x].Text()] in target.Values
    ensures target[t].key in e.device ==>
              && SetOf(target[t].allowed) + SetOf(target[u].allowed) <= e.device[target[t].key]
              && !(e.device[target[t].key] <= SetOf(e.store.peers[target[t].Text()].allowed))
  {
    var v := e.store.peers[target[x].Text()];
    var z :| z in target && target[z] == v;
    KeyTextInjective(v.key, target[x].key);
    TwoListsAreNoList(target, t, u, z, mid[v.key]);
  }

  lemma WithinNeedsApart(n: Node, users: seq<Option<User>>, cfg: Config, reachable: bool, accepted: bool, e: Effect, target: Peers)
    requires SoundFor(n, Touched(NormalizedSet(users))) && IsTarget(target, users, cfg)
    requires PartialSync(n, users, cfg, reachable, accepted, e) && e.ok
    requires WellKeyed(e.node.store) && Within(e.node.device, e.node.store.peers)
    ensures KeysApart(target)
  {
    forall t, u | t in target && u in target && t != u ensures target[t].key != target[u].key {
      if target[t].key == target[u].key {
        KeySpelledTwice(n, users, cfg, reachable, accepted, e, target, t, u);
        KeyTextInjective(e.node.store.peers[target[t].Text()].key, target[t].key);
      }
    }
  }

  // ----- the exact conditions

  // Nothing in the request gets in the way of what is stored, judged from the store alone.
  ghost predicate SafeRequest(s: Store, touched: set<string>, target: Peers) {
    && KeysApart(target)
    && !Respells(s, touched, target)
    && GivesForeignLists(s, touched, target, WantedPrefixes(target))
    && SparesOthers(s, touched, target, WantedPrefixes(target))
  }

  // Partial sync from an agreeing node whose email index is right about the users of the request, for any
  // key texts: device and store agree afterwards exactly when no two texts spell one key, no stored key of
  // the request's users is respelled, a key stored for a user outside the request is wanted only together
  // with all its prefixes, and no other user outside the request holds a prefix of the request. The code
  // checks none of this but equal texts.
  lemma PartialSyncAgreesIff(n: Node, users: seq<Option<User>>, cfg: Config, reachable: bool, accepted: bool,
          e: Effect, target: Peers)
    requires SoundFor(n, Touched(NormalizedSet(users))) && IsTarget(target, users, cfg)
    requires PartialSync(n, users, cfg, reachable, accepted, e) && e.ok
    ensures Agrees(e.node.device, e.node.store.peers) <==> SafeRequest(n.store, Touched(NormalizedSet(users)), target)
    ensures SoundFor(e.node, Touched(NormalizedSet(users))) <==> Agrees(e.node.device, e.node.store.peers)
    ensures Sound(n) ==> (Sound(e.node) <==> Agrees(e.node.device, e.node.store.peers))
  {
    PartialSyncShape(n, users, cfg, reachable, accepted, e, target);
    PartialSyncKeepsExclusive(n, users, cfg, reachable, accepted, e, target);
    if Agrees(e.node.device, e.node.store.peers) {
      AgreesWithin(e.node.device, e.node.store.peers);
      WithinNeedsApart(n, users, cfg, reachable, accepted, e, target);
    }
    if KeysApart(target) {
      AgreesWithin(n.device, n.store.peers);
      var mid := PartialSyncOverlays(n, users, cfg, reachable, accepted, e, target);
      OverlayOfSafeIff(n, Touched(NormalizedSet(users)), target, mid, e.node);
    }
  }

  lemma OverlayOfSafeIff(n: Node, touched: set<string>, target: Peers, mid: Device, e: Node)
    requires Overlaid(n, touched, target, mid, e) && SoundFor(n, touched)
    ensures Agrees(e.device, e.store.peers) <==> SafeRequest(n.store, touched, target)
  {
    AgreesWithin(n.device, n.store.peers);
    OverlayAgreesIff(n, touched, target, mid, e);
    OverlayShadowsIff(n, touched, target, mid, e);
    HeldIsStored(n, touched, target);
  }

  lemma AgreesWithin(d: Device, m: Peers)
    requires Agrees(d, m)
    ensures Within(d, m)
  {
  }

  // In an agreeing state, held and stored are the same.
  lemma HeldIsStored(n: Node, touched: set<string>, target: Peers)
    requires SoundFor(n, touched) && Admitted(n.store, target, touched)
    ensures GivesForeignHeld(n, touched, target, PushedPrefixes(n.store, target))
       <==> GivesForeignLists(n.store, touched, target, WantedPrefixes(target))
    ensures SparesOthers(n.store, touched, target, PushedPrefixes(n.store, target))
       <==> SparesOthers(n.store, touched, target, WantedPrefixes(target))
  {
    AgreementNeedsDisjoint(n.device, n.store.peers);
    WantedOrPushed(n.store, touched, target);
    HeldIffStored(n, touched, target, PushedPrefixes(n.store, target));
  }

  lemma HeldIffStored(n: Node, touched: set<string>, target: Peers, given: set<Prefix>)
    requires Agrees(n.device, n.store.peers)
    ensures GivesForeignHeld(n, touched, target, given) <==> GivesForeignLists(n.store, touched, target, given)
  {
  }

  // In the same situation, the device gives no peer more than the store exactly without the last
  // condition.
  lemma PartialSyncWithinIff(n: Node, users: seq<Option<User>>, cfg: Config, reachable: bool, accepted: bool,
          e: Effect, target: Peers)
    requires SoundFor(n, Touched(NormalizedSet(users))) && IsTarget(target, users, cfg)
    requires PartialSync(n, users, cfg, reachable, accepted, e) && e.ok
    ensures Within(e.node.device, e.node.store.peers)
       <==> KeysApart(target) && !Respells(n.store, Touched(NormalizedSet(users)), target)
            && GivesForeignLists(n.store, Touched(NormalizedSet(users)), target, WantedPrefixes(target))
    ensures Sound(n) ==> (Shadowed(e.node) <==> Within(e.node.device, e.node.store.peers))
  {
    PartialSyncShape(n, users, cfg, reachable, accepted, e, target);
    PartialSyncKeepsExclusive(n, users, cfg, reachable, accepted, e, target);
    AgreesWithin(n.device, n.store.peers);
    if Within(e.node.device, e.node.store.peers) {
      WithinNeedsApart(n, users, cfg, reachable, accepted, e, target);
    }
    if KeysApart(target) {
      PartialSyncShadowsIff(n, users, cfg, reachable, accepted, e, target);
      HeldIsStored(n, Touched(NormalizedSet(users)), target);
    }
  }

  // From a state in which the device has no more than the store, whatever was taken before.
  lemma PartialSyncShadowsIff(n: Node, users: seq<Option<User>>, cfg: Config, reachable: bool, accepted: bool,
          e: Effect, target: Peers)
    requires ShadowedFor(n, Touched(NormalizedSet(users))) && IsTarget(target, users, cfg) && KeysApart(target)
    requires PartialSync(n, users, cfg, reachable, accepted, e) && e.ok
    ensures Within(e.node.device, e.node.store.peers)
       <==> !Respells(n.store, Touched(NormalizedSet(users)), target)
            && GivesForeignHeld(n, Touched(NormalizedSet(users)), target, PushedPrefixes(n.store, target))
    ensures Shadowed(n) ==> (Shadowed(e.node) <==> Within(e.node.device, e.node.store.peers))
  {
    PartialSyncShape(n, users, cfg, reachable, accepted, e, target);
    PartialSyncKeepsExclusive(n, users, cfg, reachable, accepted, e, target);
    var mid := PartialSyncOverlays(n, users, cfg, reachable, accepted, e, target);
    OverlayShadowsIff(n, Touched(NormalizedSet(users)), target, mid, e.node);
  }

  // ----- ordinary requests

  // No two texts spell one key, and no text spells a stored key in another way. Canonical texts are
  // such a case.
  ghost predicate PlainRequest(s: Store, target: Peers) {
    KeysApart(target) && forall x :: x in target && target[x].Text() != x ==> target[x].Text() !in s.peers
  }

  lemma CanonicalIsPlain(s: Store, target: Peers)
    requires FiledByKey(target)
    ensures PlainRequest(s, target)
  {
    FiledPeersApart(target);
  }

  // Then nobody outside the request loses a key, nothing is respelled, and untouched entries stay.
  lemma PlainShape(s: Store, touched: set<string>, target: Peers)
    requires Admitted(s, target, touched) && PlainRequest(s, target)
    ensures !Respells(s, touched, target)
    ensures forall t :: t in s.peers && s.peers[t].email !in touched ==> s.peers[t].key !in WantedKeys(target)
    ensures forall q :: Stays(s, touched, target, q) <==> q in Entries(s) && q.email !in touched
  {
    forall t, x | t in s.peers && s.peers[t].email !in touched && x in target ensures target[x].key != s.peers[t].key {
      if target[x].key == s.peers[t].key { ForeignKeyRespelled(s, touched, target, t, x); }
    }
    forall q | q in Entries(s) ensures q.Text() in s.peers && s.peers[q.Text()] == q {}
  }
}
