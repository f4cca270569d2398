// Runs of the backend in which a Shutdown may fall between any two steps of a sync. Syncs exclude
// each other (syncMu); a shutdown holds the state lock from its first step to its last, and a sync
// needs that lock only to read the manager.
module Lifecycles {
  import opened Wrappers
  import opened Cidr
  import opened WgKeys
  import opened Enumerations
  import opened PeerStores
  import opened DesiredPeers
  import opened Kernel
  import opened SyncDiffs
  import opened SyncSteps
  import opened SyncTheorems
  import opened PartialSyncTheorems
  import opened NodeTheorems
  import opened Refinement

  // A change worked out and not yet finished. history: the request lists that one full sync would
  // have to be given for the store to come out as after.
  datatype Plan = Plan(configs: seq<PeerConfig>, replacePeers: bool, after: Store, history: seq<Option<User>>)

  datatype Task = Idle | Planned(plan: Plan) | Holding(plan: Plan) | Applied(plan: Plan)

  datatype Closing = NotYet | Locked | ClientGone | Done

  datatype Event =
    | Configured(plan: Plan)
    | Committed(before: Store, plan: Plan)
    | ClientClosed

  datatype System = System(
    store: Store, device: Device,
    clientOpen: bool, managerSet: bool, running: bool, closing: Closing,
    task: Task, history: seq<Option<User>>, log: seq<Event>)
  {
    function AsNode(): Node { Node(store, device) }
  }

  datatype Action =
    | BeginFull(users: seq<Option<User>>)
    | BeginPartial(users: seq<Option<User>>)
    | BeginRestart
    | ReadManager
    | Configure(accepted: bool)
    | Commit
    | ShutdownLock
    | ShutdownClose(removed: bool)
    | ShutdownFinish

  function ApplyPlan(d: Device, p: Plan): Device {
    ApplyBatch(if p.replacePeers then map[] else d, p.configs)
  }

  // ----- beginnings of the three kinds of sync: what they decide to do

  ghost predicate FullPlan(s: System, users: seq<Option<User>>, desired: Desired, diff: SyncDiff,
                           ts: seq<string>, cfg: Config, p: Plan)
  {
    && IsDesired(desired, NormalizedSet(users), cfg)
    && IsSyncDiff(s.store.peers, desired, diff)
    && diff.changed
    && IsSnapshot(WithIPs(diff.targetPeers), p.configs)
    && Enumerates(ts, WithIPs(diff.targetPeers).Keys)
    && p.replacePeers
    && p.after == InsertAll(EMPTY_STORE, PeersAt(WithIPs(diff.targetPeers), ts))
    && p.history == users
  }

  ghost predicate PartialPlan(s: System, users: seq<Option<User>>, desired: Desired, diff: SyncDiff, cfg: Config, p: Plan) {
    var touched := Touched(NormalizedSet(users));
    && IsDesired(desired, NormalizedSet(users), cfg)
    && !OwnedByOther(s.store, desired, touched)
    && IsSyncDiff(TouchedPeers(s.store, touched), desired, diff)
    && p == Plan(diff.peerConfigs, false, AfterChanges(s.store, diff.removeKeys, diff.upsertPeers), s.history + users)
  }

  ghost predicate Begun(s: System, a: Action, cfg: Config, s': System) {
    match a
    case BeginFull(users) =>
      if !Compatible(NormalizedSet(users), cfg) then s' == s
      else if IsTarget(s.store.peers, users, cfg) then s' == s.(history := users)
      else exists desired, diff, ts, p :: FullPlan(s, users, desired, diff, ts, cfg, p) && s' == s.(task := Planned(p))
    case BeginPartial(users) =>
      if !Compatible(NormalizedSet(users), cfg) then s' == s
      else exists desired, diff, p :: PartialBegun(s, users, desired, diff, cfg, p, s')
    case BeginRestart =>
      if exists t :: t in s.store.peers && s.store.peers[t].allowed == [] then s' == s
      else exists configs :: IsSnapshot(s.store.peers, configs)
                             && s' == s.(task := Planned(Plan(configs, true, s.store, s.history)))
    case _ => false
  }

  // A partial sync that has nothing for the kernel skips straight to the commit.
  ghost predicate PartialBegun(s: System, users: seq<Option<User>>, desired: Desired, diff: SyncDiff,
                               cfg: Config, p: Plan, s': System)
  {
    if OwnedByOther(s.store, desired, Touched(NormalizedSet(users))) then
      IsDesired(desired, NormalizedSet(users), cfg) && s' == s
    else
      && PartialPlan(s, users, desired, diff, cfg, p)
      && s' == s.(task := if p.configs == [] then Applied(p) else Planned(p))
  }

  ghost predicate Next(s: System, a: Action, cfg: Config, s': System) {
    match a
    case ReadManager =>
      && s.task.Planned? && s.closing in {NotYet, Done}
      && s' == s.(task := if s.running && s.managerSet then Holding(s.task.plan) else Idle)
    case Configure(accepted) =>
      && s.task.Holding?
      && s' == if s.clientOpen && accepted
               then s.(device := ApplyPlan(s.device, s.task.plan), task := Applied(s.task.plan),
                       log := s.log + [Configured(s.task.plan)])
               else s.(task := Idle)
    case Commit =>
      && s.task.Applied?
      && s' == s.(store := s.task.plan.after, history := s.task.plan.history, task := Idle,
                  log := s.log + [Committed(s.store, s.task.plan)])
    case ShutdownLock =>
      s.closing == NotYet && s' == s.(closing := Locked)
    case ShutdownClose(removed) =>
      && s.closing == Locked
      && s' == s.(closing := ClientGone, clientOpen := false, log := s.log + [ClientClosed],
                  device := if removed then map[] else s.device)
    case ShutdownFinish =>
      s.closing == ClientGone && s' == s.(closing := Done, managerSet := false, running := false)
    case _ =>
      s.task == Idle && Begun(s, a, cfg, s')
  }

  // How careful the requests of a run are. Any: not at all. Indexed: whenever an UpdateUsers arrives, the
  // email index is right about its users. Apart: no two key texts of the startup list or of one SyncUsers
  // spell one key, which keeps the indexes inverse. Plain: besides, no UpdateUsers spells a stored key in
  // another way or one key in two. Agreeing: besides Apart, every UpdateUsers is safe.
  datatype Care = Any | Indexed | Apart | Plain | Agreeing {
    predicate Inverse() { this in {Apart, Plain, Agreeing} }
  }

  ghost predicate Admissible(s: System, a: Action, cfg: Config, care: Care) {
    match a
    case BeginFull(users) =>
      care.Inverse() ==> forall target :: Wanted(users, cfg, target) ==> KeysApart(target)
    case BeginPartial(users) =>
      && (care == Indexed ==> IndexRight(s.store, Touched(NormalizedSet(users))))
      && (care == Plain ==> forall target :: Wanted(users, cfg, target) ==> PlainRequest(s.store, target))
      && (care == Agreeing ==>
            forall target :: Wanted(users, cfg, target) ==> SafeRequest(s.store, Touched(NormalizedSet(users)), target))
    case _ => true
  }

  // The peers an accepted request asks for.
  ghost predicate Wanted(users: seq<Option<User>>, cfg: Config, target: Peers) {
    Compatible(NormalizedSet(users), cfg) && IsTarget(target, users, cfg)
  }

  ghost predicate Initial(s: System, cfg: Config) {
    && Startup(s.history, cfg, s.AsNode())
    && s.clientOpen && s.managerSet && s.running && s.closing == NotYet
    && s.task == Idle && s.log == []
  }

  ghost predicate IsRun(states: seq<System>, actions: seq<Action>, cfg: Config, care: Care) {
    && |states| == |actions| + 1
    && Initial(states[0], cfg)
    && Admissible(states[0], BeginFull(states[0].history), cfg, care)
    && forall i :: 0 <= i < |actions| ==>
         Next(states[i], actions[i], cfg, states[i + 1]) && Admissible(states[i], actions[i], cfg, care)
  }

  // ----- the invariant

  // In a plain run the device has the peers of m, none with more than m gives it; in an agreeing one
  // each has all of it.
  ghost predicate Fits(d: Device, m: Peers, care: Care) {
    && Exclusive(d)
    && (care == Plain ==> Within(d, m))
    && (care == Agreeing ==> Agrees(d, m))
  }

  // The store has the peers a list of users asks for, clashes between them left aside.
  ghost predicate Rebuildable(s: Store, history: seq<Option<User>>, cfg: Config) {
    exists m :: IsTarget(m, history, cfg) && HasPeers(s, m)
  }

  ghost predicate Grounded(s: Store, history: seq<Option<User>>, cfg: Config, care: Care) {
    && WellKeyed(s) && InNetworks(s.peers, cfg)
    && (care.Inverse() ==> Bijective(s))
    && (care == Plain ==> Rebuildable(s, history, cfg))
  }

  ghost predicate DeviceInvariant(s: System, care: Care) {
    && (!s.task.Applied? ==> Fits(s.device, s.store.peers, care))
    && (s.task.Planned? || s.task.Holding? ==> Fits(ApplyPlan(s.device, s.task.plan), s.task.plan.after.peers, care))
    && (s.task.Applied? ==> Fits(s.device, s.task.plan.after.peers, care))
  }

  function KeyIPs(s: Store): map<string, seq<Prefix>> {
    map t | t in s.peers :: s.peers[t].allowed
  }

  // The last event that is not the closing of the client.
  function LastSyncEvent(log: seq<Event>): Option<Event> {
    if log == [] then None
    else if log[|log| - 1].ClientClosed? then LastSyncEvent(log[..|log| - 1])
    else Some(log[|log| - 1])
  }

  // Nothing but upserts of stored keys with their allowed IPs, that is, of keys with a new owner.
  ghost predicate Renames(before: Store, ps: seq<PeerInfo>, after: Store) {
    && after == UpsertAll(before, ps)
    && forall p :: p in ps ==> p.Text() in before.peers && before.peers[p.Text()].allowed == p.allowed
  }

  ghost predicate Quiet(before: Store, after: Store, care: Care) {
    && (exists ps :: Renames(before, ps, after))
    && (care != Any ==> KeyIPs(after) == KeyIPs(before))
  }

  // A commit comes after a configure call of the same plan, or only renames owners; with a right email
  // index that changes no key and no allowed IP.
  ghost predicate Covered(log: seq<Event>, before: Store, plan: Plan, care: Care) {
    LastSyncEvent(log) == Some(Configured(plan)) || Quiet(before, plan.after, care)
  }

  ghost predicate LogInvariant(log: seq<Event>, care: Care) {
    && (forall i, j :: 0 <= i < j < |log| && log[i].ClientClosed? ==> !log[j].Configured?)
    && (forall j :: 0 <= j < |log| && log[j].Committed? ==>
          WellKeyed(log[j].before) && Covered(log[..j], log[j].before, log[j].plan, care))
  }

  ghost predicate Inv(s: System, cfg: Config, care: Care) {
    && Grounded(s.store, s.history, cfg, care)
    && (s.task != Idle ==> Grounded(s.task.plan.after, s.task.plan.history, cfg, care))
    && (s.clientOpen <==> s.closing in {NotYet, Locked})
    && (s.clientOpen <==> ClientClosed !in s.log)
    && (s.running <==> s.closing != Done) && (s.managerSet <==> s.closing != Done)
    && (s.clientOpen ==> DeviceInvariant(s, care))
    && LogInvariant(s.log, care)
    && (s.task.Applied? ==> Covered(s.log, s.store, s.task.plan, care))
  }

  // ----- each step keeps it

  lemma AgreementFits(d: Device, m: Peers, care: Care)
    requires Exclusive(d) && (care in {Plain, Agreeing} ==> Agrees(d, m))
    ensures Fits(d, m, care)
  {
    if care == Plain { AgreesWithin(d, m); }
  }

  lemma WantedExists(users: seq<Option<User>>, desired: Desired, cfg: Config)
    requires Compatible(NormalizedSet(users), cfg) && IsDesired(desired, NormalizedSet(users), cfg)
    ensures Wanted(users, cfg, TargetPeers(desired))
  {
    DesiredIsTarget(desired, users, cfg);
  }

  lemma InitialInv(s: System, cfg: Config, care: Care)
    requires Initial(s, cfg) && Admissible(s, BeginFull(s.history), cfg, care)
    ensures Inv(s, cfg, care)
  {
    var us := NormalizedSet(s.history);
    var desired, ts, configs :| IsDesired(desired, us, cfg) && StartupWith(desired, ts, configs, s.AsNode());
    WantedExists(s.history, desired, cfg);
    StartupShape(s.history, cfg, s.AsNode(), TargetPeers(desired));
    BatchKeepsExclusive(map[], configs);
    AgreementFits(s.device, s.store.peers, care);
  }

  lemma SnapshotShadows(m: Peers, configs: seq<PeerConfig>)
    requires FiledByKey(m) && IsSnapshot(m, configs)
    ensures Exclusive(ApplyBatch(map[], configs)) && Within(ApplyBatch(map[], configs), m)
  {
    var ts :| SortedEnumeration(ts, m.Keys) && configs == ConfigsAt(m, ts, false);
    FiledPeersApart(m);
    SortedIsEnumeration(ts, m.Keys);
    ConfigsOfTexts(m, ts, false);
    BatchKeepsExclusive(map[], configs);
    PlainBatchBounded(configs);
    BoundedFits(m, ts, configs, ApplyBatch(map[], configs));
  }

  lemma BoundedFits(m: Peers, ts: seq<string>, configs: seq<PeerConfig>, d: Device)
    requires FiledByKey(m) && (forall t :: t in ts <==> t in m)
    requires forall t :: t in m ==> SetConfig(m[t], false) in configs
    requires KeysOf(configs) == set t | t in ts :: m[t].key
    requires d.Keys == KeysOf(configs) && forall c :: c in configs ==> d[c.key] <= SetOf(c.allowed)
    ensures Within(d, m)
  {
  }

  lemma {:induction false} PlainBatchBounded(cs: seq<PeerConfig>)
    requires AllSet(cs) && DistinctKeys(cs)
    ensures ApplyBatch(map[], cs).Keys == KeysOf(cs)
    ensures forall c :: c in cs ==> ApplyBatch(map[], cs)[c.key] <= SetOf(c.allowed)
  {
    if cs != [] {
      var front, last := cs[..|cs| - 1], cs[|cs| - 1];
      assert cs == front + [last];
      PlainBatchBounded(front);
      KeysExtended(front, last);
      var mid, d := ApplyBatch(map[], front), ApplyBatch(map[], cs);
      LastKeyIsNew(front, last);
      SetterOnNewKey(mid, last);
      forall c | c in cs ensures d[c.key] <= SetOf(c.allowed) {
        if c != last {
          assert c in front;
          assert mid[c.key] <= SetOf(c.allowed);
        }
      }
    }
  }

  lemma LastKeyIsNew(front: seq<PeerConfig>, last: PeerConfig)
    requires DistinctKeys(front + [last])
    ensures last.key !in KeysOf(front)
    ensures forall c :: c in front ==> c.key != last.key
  {
    var cs := front + [last];
    forall c | c in front ensures c.key != last.key {
      var i :| 0 <= i < |front| && front[i] == c;
      assert cs[i].key != cs[|front|].key;
    }
  }

  lemma SetterOnNewKey(d: Device, c: PeerConfig)
    requires !c.remove && c.key !in d
    ensures ApplyOne(d, c).Keys == d.Keys + {c.key}
    ensures ApplyOne(d, c)[c.key] == SetOf(c.allowed)
    ensures forall k :: k in d ==> k != c.key && ApplyOne(d, c)[k] <= d[k]
  {
  }

  lemma BeginFullInv(s: System, users: seq<Option<User>>, cfg: Config, care: Care, s': System)
    requires Inv(s, cfg, care) && s.task == Idle && Admissible(s, BeginFull(users), cfg, care)
    requires Begun(s, BeginFull(users), cfg, s')
    ensures Inv(s', cfg, care)
  {
    if Compatible(NormalizedSet(users), cfg) && IsTarget(s.store.peers, users, cfg) {
      UnchangedIsGrounded(s.store, s.history, users, cfg, care);
    } else if Compatible(NormalizedSet(users), cfg) {
      var desired, diff, ts, p :| FullPlan(s, users, desired, diff, ts, cfg, p) && s' == s.(task := Planned(p));
      FullPlanFits(s, users, desired, diff, ts, cfg, p, care);
    }
  }

  lemma UnchangedIsGrounded(store: Store, history: seq<Option<User>>, users: seq<Option<User>>, cfg: Config, care: Care)
    requires Grounded(store, history, cfg, care) && IsTarget(store.peers, users, cfg)
    ensures Grounded(store, users, cfg, care)
  {
    assert care == Plain ==> HasPeers(store, store.peers);
  }

  lemma FullPlanFits(s: System, users: seq<Option<User>>, desired: Desired, diff: SyncDiff, ts: seq<string>, cfg: Config,
                     p: Plan, care: Care)
    requires Compatible(NormalizedSet(users), cfg) && FullPlan(s, users, desired, diff, ts, cfg, p)
    requires Admissible(s, BeginFull(users), cfg, care)
    ensures Grounded(p.after, p.history, cfg, care) && Fits(ApplyPlan(s.device, p), p.after.peers, care)
  {
    var target := TargetPeers(desired);
    WantedExists(users, desired, cfg);
    TargetShape(target, users, cfg);
    WithAllIPs(target);
    InsertedInNetworks(target, ts, cfg);
    if care.Inverse() { CommitAgreesWhenApart(target, p.configs, ts); }
    BatchKeepsExclusive(map[], p.configs);
    AgreementFits(ApplyPlan(s.device, p), p.after.peers, care);
  }

  lemma BeginRestartInv(s: System, cfg: Config, care: Care, s': System)
    requires Inv(s, cfg, care) && s.task == Idle
    requires Begun(s, BeginRestart, cfg, s')
    ensures Inv(s', cfg, care) && s'.task.Planned?
  {
    var configs :| IsSnapshot(s.store.peers, configs) && s' == s.(task := Planned(Plan(configs, true, s.store, s.history)));
    SnapshotFits(s.store, s.device, configs, care, s.clientOpen);
  }

  // The device a restart puts in place fits the store.
  lemma SnapshotFits(store: Store, d: Device, configs: seq<PeerConfig>, care: Care, open: bool)
    requires WellKeyed(store) && IsSnapshot(store.peers, configs)
    requires open ==> Fits(d, store.peers, care)
    ensures open ==> Fits(ApplyBatch(map[], configs), store.peers, care)
  {
    SnapshotShadows(store.peers, configs);
    if care == Agreeing && open {
      AgreementNeedsDisjoint(d, store.peers);
      SnapshotAgrees(store.peers, configs);
    }
  }

  lemma PartialPlanIsSync(s: System, users: seq<Option<User>>, desired: Desired, diff: SyncDiff, cfg: Config, p: Plan)
    requires Compatible(NormalizedSet(users), cfg) && PartialPlan(s, users, desired, diff, cfg, p)
    ensures PartialSync(s.AsNode(), users, cfg, true, true,
                        Effect(Node(p.after, ApplyPlan(s.device, p)), true, RemovedBy(s.store, diff.removeKeys)))
  {
    var e := Effect(Node(p.after, ApplyPlan(s.device, p)), true, RemovedBy(s.store, diff.removeKeys));
    assert PartialSyncWith(s.AsNode(), NormalizedSet(users), desired, diff, true, true, e);
  }

  // In any run: the peers keep to the networks.
  lemma PartialPlanInNetworks(s: Store, existing: Peers, desired: Desired, diff: SyncDiff, cfg: Config)
    requires WellKeyed(s) && InNetworks(s.peers, cfg) && InNetworks(TargetPeers(desired), cfg)
    requires IsSyncDiff(existing, desired, diff)
    ensures WellKeyed(AfterChanges(s, diff.removeKeys, diff.upsertPeers))
    ensures InNetworks(AfterChanges(s, diff.removeKeys, diff.upsertPeers).peers, cfg)
  {
    ChangedFrom(s, diff.removeKeys, diff.upsertPeers);
    forall p | p in diff.upsertPeers ensures p in TargetPeers(desired).Values {
      UpsertIsWanted(existing, desired, diff, p);
    }
    EntriesInNetworks(s.peers, TargetPeers(desired), AfterChanges(s, diff.removeKeys, diff.upsertPeers).peers, cfg);
  }

  lemma UpsertIsWanted(existing: Peers, desired: Desired, diff: SyncDiff, p: PeerInfo)
    requires IsSyncDiff(existing, desired, diff) && p in diff.upsertPeers
    ensures p in TargetPeers(desired).Values
  {
    var updates, adds, ts :| IsSyncDiffBy(existing, desired, diff, updates, adds, ts);
    var i :| 0 <= i < |ts| && PeersAt(TargetPeers(desired), ts)[i] == p;
    assert ts[i] in ts;
  }

  lemma EntriesInNetworks(a: Peers, b: Peers, m: Peers, cfg: Config)
    requires InNetworks(a, cfg) && InNetworks(b, cfg) && m.Values <= a.Values + b.Values
    ensures InNetworks(m, cfg)
  {
    forall t | t in m
      ensures m[t].allowed != [] && forall p :: p in m[t].allowed ==> PeerIPAllowed(p, Networks(cfg.addresses))
    {
      assert m[t] in m.Values;
    }
  }

  lemma PartialPlanRebuildable(s: System, users: seq<Option<User>>, cfg: Config, target: Peers, after: Store)
    requires Rebuildable(s.store, s.history, cfg) && Wanted(users, cfg, target) && PlainRequest(s.store, target)
    requires Admitted(s.store, target, Touched(NormalizedSet(users)))
    requires StoreOverlaid(s.store, Touched(NormalizedSet(users)), target, after) && Bijective(after)
    ensures Rebuildable(after, s.history + users, cfg)
  {
    var touched := Touched(NormalizedSet(users));
    var m :| IsTarget(m, s.history, cfg) && HasPeers(s.store, m);
    TargetTexts(m, s.history, cfg);
    TargetTexts(target, users, cfg);
    PlainOverlayApart(s.store, touched, m, target);
    OverlaidHolds(s.store, touched, m, target, after);
    OverlayIsTarget(m, s.history, users, cfg, target);
  }

  lemma PartialPlanFits(s: System, users: seq<Option<User>>, desired: Desired, diff: SyncDiff, cfg: Config, p: Plan, care: Care)
    requires Inv(s, cfg, care) && s.task == Idle && Admissible(s, BeginPartial(users), cfg, care)
    requires Compatible(NormalizedSet(users), cfg) && PartialPlan(s, users, desired, diff, cfg, p)
    ensures Grounded(p.after, p.history, cfg, care)
    ensures s.clientOpen ==> Fits(ApplyPlan(s.device, p), p.after.peers, care)
  {
    WantedExists(users, desired, cfg);
    TargetKeepsToNetworks(TargetPeers(desired), users, cfg);
    PartialPlanInNetworks(s.store, TouchedPeers(s.store, Touched(NormalizedSet(users))), desired, diff, cfg);
    if s.clientOpen { BatchKeepsExclusive(s.device, p.configs); }
    if care.Inverse() {
      PartialPlanCareful(s, users, desired, diff, cfg, p, care, TargetPeers(desired));
    }
  }

  lemma PartialPlanCareful(s: System, users: seq<Option<User>>, desired: Desired, diff: SyncDiff, cfg: Config, p: Plan, care: Care,
                           target: Peers)
    requires Bijective(s.store) && care.Inverse() && Wanted(users, cfg, target) && target == TargetPeers(desired)
    requires PartialPlan(s, users, desired, diff, cfg, p)
    requires care == Plain ==> PlainRequest(s.store, target) && Rebuildable(s.store, s.history, cfg)
    requires care == Agreeing ==> SafeRequest(s.store, Touched(NormalizedSet(users)), target)
    requires s.clientOpen ==> Fits(s.device, s.store.peers, care)
    ensures Bijective(p.after) && (care == Plain ==> Rebuildable(p.after, p.history, cfg))
    ensures s.clientOpen ==> Fits(ApplyPlan(s.device, p), p.after.peers, care)
  {
    var n := s.AsNode();
    var e := Effect(Node(p.after, ApplyPlan(s.device, p)), true, RemovedBy(s.store, diff.removeKeys));
    PartialPlanIsSync(s, users, desired, diff, cfg, p);
    PartialSyncShape(n, users, cfg, true, true, e, target);
    if care == Plain { PartialPlanRebuildable(s, users, cfg, target, p.after); }
    if s.clientOpen { CarefulSyncFits(n, users, cfg, e, care, target); }
  }

  lemma CarefulSyncFits(n: Node, users: seq<Option<User>>, cfg: Config, e: Effect, care: Care, target: Peers)
    requires Bijective(n.store) && care.Inverse() && Wanted(users, cfg, target) && Fits(n.device, n.store.peers, care)
    requires PartialSync(n, users, cfg, true, true, e) && e.ok
    requires care == Plain ==> PlainRequest(n.store, target)
    requires care == Agreeing ==> SafeRequest(n.store, Touched(NormalizedSet(users)), target)
    ensures Fits(e.node.device, e.node.store.peers, care)
  {
    PartialSyncKeepsExclusive(n, users, cfg, true, true, e, target);
    if care == Plain {
      PlainSyncFits(n, users, cfg, e, target);
    } else if care == Agreeing {
      AgreeingSyncFits(n, users, cfg, e, target);
    }
  }

  lemma AgreeingSyncFits(n: Node, users: seq<Option<User>>, cfg: Config, e: Effect, target: Peers)
    requires Sound(n) && IsTarget(target, users, cfg)
    requires PartialSync(n, users, cfg, true, true, e) && e.ok
    requires SafeRequest(n.store, Touched(NormalizedSet(users)), target)
    ensures Agrees(e.node.device, e.node.store.peers)
  {
    SoundForAll(n, Touched(NormalizedSet(users)));
    PartialSyncAgreesIff(n, users, cfg, true, true, e, target);
  }

  lemma SoundForAll(n: Node, emails: set<string>)
    requires Sound(n)
    ensures SoundFor(n, emails)
  {
  }

  lemma PlainSyncFits(n: Node, users: seq<Option<User>>, cfg: Config, e: Effect, target: Peers)
    requires Shadowed(n) && Wanted(users, cfg, target) && PlainRequest(n.store, target)
    requires PartialSync(n, users, cfg, true, true, e) && e.ok
    ensures Within(e.node.device, e.node.store.peers)
  {
    PartialSyncShape(n, users, cfg, true, true, e, target);
    PlainShape(n.store, Touched(NormalizedSet(users)), target);
    PartialSyncShadowsIff(n, users, cfg, true, true, e, target);
  }

  // ----- a diff with nothing for the kernel

  // It leaves every touched key where it is, and ts are the keys that get another owner.
  ghost predicate QuietDiff(s: Store, touched: set<string>, target: Peers, ts: seq<string>) {
    && (forall t :: t in target ==> t in s.peers && s.peers[t].allowed == target[t].allowed && target[t].Text() == t)
    && (forall t :: t in TouchedPeers(s, touched) ==> t in target)
    && NoDuplicates(ts)
    && (forall t :: t in ts ==> t in target)
    && (forall t :: t in target && s.peers[t].email != target[t].email ==> t in ts)
  }

  lemma QuietDiffOpened(s: Store, touched: set<string>, desired: Desired, diff: SyncDiff) returns (ts: seq<string>)
    requires WellKeyed(s) && WellFormed(TargetPeers(desired))
    requires IsSyncDiff(TouchedPeers(s, touched), desired, diff) && diff.peerConfigs == []
    ensures QuietDiff(s, touched, TargetPeers(desired), ts)
    ensures diff.removeKeys == [] && diff.upsertPeers == PeersAt(TargetPeers(desired), ts)
  {
    var existing, target := TouchedPeers(s, touched), TargetPeers(desired);
    var updates, adds, upserts :| IsSyncDiffBy(existing, desired, diff, updates, adds, upserts);
    ts := upserts;
    SortedIsEnumeration(ts, Upserted(existing, target));
    SortedIsEnumeration(diff.removeKeys, Removable(existing, target));
    assert updates == [] && adds == [] && diff.removeKeys == [];
    StoredKeysParse(s.peers);
    QuietSets(s, existing, target);
  }

  lemma QuietSets(s: Store, existing: Peers, target: Peers)
    requires WellKeyed(s) && WellFormed(target)
    requires forall t :: t in existing ==> t in s.peers && existing[t] == s.peers[t] && ParseKey(t) == Some(s.peers[t].key)
    requires Updated(existing, target) == {} && Added(existing, target) == {} && Removable(existing, target) == {}
    ensures forall t :: t in target ==> t in existing && s.peers[t].allowed == target[t].allowed && target[t].Text() == t
    ensures forall t :: t in existing ==> t in target
  {
    forall t | t in existing ensures t in target { assert t !in Removable(existing, target); }
    forall t | t in target ensures t in existing && s.peers[t].allowed == target[t].allowed && target[t].Text() == t {
      assert t !in Added(existing, target);
      assert t !in Updated(existing, target);
    }
  }

  lemma QuietDiffRenames(s: Store, touched: set<string>, target: Peers, ts: seq<string>)
    requires QuietDiff(s, touched, target, ts) && EmailsDistinct(target)
    ensures Renames(s, PeersAt(target, ts), UpsertAll(s, PeersAt(target, ts)))
  {
    UpsertEmailsApart(target, ts);
  }

  // Owners are renamed and keys may get lost, but none is added and no allowed IP changes.
  lemma RenamesBound(before: Store, ps: seq<PeerInfo>, after: Store)
    requires WellKeyed(before) && Renames(before, ps, after)
    ensures forall t :: t in after.peers ==> t in before.peers && after.peers[t].allowed == before.peers[t].allowed
  {
    UpsertedFrom(before, ps);
    forall t | t in after.peers ensures t in before.peers && after.peers[t].allowed == before.peers[t].allowed {
      assert after.peers[t] in Entries(after);
    }
  }

  // Whatever the email index says: renaming owners changes no key and no allowed IP exactly when no key
  // gets lost on the way.
  lemma RenamesKeepIff(before: Store, ps: seq<PeerInfo>, after: Store)
    requires WellKeyed(before) && Renames(before, ps, after)
    ensures KeyIPs(after) == KeyIPs(before) <==> forall t :: t in before.peers ==> !Lost(before, ps, t)
  {
    RenamesBound(before, ps, after);
    forall t | t in before.peers ensures t in after.peers <==> !Lost(before, ps, t) { KeyLostIff(before, ps, t); }
    KeyIPsIff(before, after);
  }

  lemma KeyIPsIff(before: Store, after: Store)
    requires forall t :: t in after.peers ==> t in before.peers && after.peers[t].allowed == before.peers[t].allowed
    ensures KeyIPs(after) == KeyIPs(before) <==> forall t :: t in before.peers ==> t in after.peers
  {
    if KeyIPs(after) == KeyIPs(before) {
      forall t | t in before.peers ensures t in after.peers { assert t in KeyIPs(after); }
    }
  }

  // A right email index loses none.
  lemma RightIndexKeepsIPs(s: Store, touched: set<string>, target: Peers, ts: seq<string>)
    requires IndexRight(s, touched) && EmailsDistinct(target) && forall t :: t in target ==> target[t].email in touched
    requires QuietDiff(s, touched, target, ts)
    ensures KeyIPs(UpsertAll(s, PeersAt(target, ts))) == KeyIPs(s)
  {
    var ps := PeersAt(target, ts);
    QuietDiffRenames(s, touched, target, ts);
    RenamesBound(s, ps, UpsertAll(s, ps));
    TouchedPeersShape(s, touched);
    UpsertEmailsApart(target, ts);
    forall t | t in s.peers ensures t in UpsertAll(s, ps).peers {
      UpsertedKeysIff(s, ps, touched, t);
      forall x | x in ts && target[x].email == s.peers[t].email ensures t in ts && target[t].Text() == t {
        assert t in TouchedPeers(s, touched);
        assert x != t ==> target[x].email != target[t].email;
      }
    }
    KeyIPsIff(s, UpsertAll(s, ps));
  }

  lemma QuietPlanCovered(s: Store, users: seq<Option<User>>, desired: Desired, diff: SyncDiff, cfg: Config, p: Plan, care: Care)
    requires WellKeyed(s) && Wanted(users, cfg, TargetPeers(desired))
    requires IsSyncDiff(TouchedPeers(s, Touched(NormalizedSet(users))), desired, diff) && diff.peerConfigs == []
    requires p.after == AfterChanges(s, diff.removeKeys, diff.upsertPeers)
    requires care != Any ==> IndexRight(s, Touched(NormalizedSet(users)))
    ensures Quiet(s, p.after, care)
  {
    var touched, target := Touched(NormalizedSet(users)), TargetPeers(desired);
    TargetShape(target, users, cfg);
    var ts := QuietDiffOpened(s, touched, desired, diff);
    assert RemoveAll(s, []) == s;
    QuietDiffRenames(s, touched, target, ts);
    if care != Any { RightIndexKeepsIPs(s, touched, target, ts); }
  }

  lemma BeginPartialInv(s: System, users: seq<Option<User>>, cfg: Config, care: Care, s': System)
    requires Inv(s, cfg, care) && s.task == Idle && Admissible(s, BeginPartial(users), cfg, care)
    requires Begun(s, BeginPartial(users), cfg, s')
    ensures Inv(s', cfg, care)
  {
    if Compatible(NormalizedSet(users), cfg) {
      var desired, diff, p :| PartialBegun(s, users, desired, diff, cfg, p, s');
      if !OwnedByOther(s.store, desired, Touched(NormalizedSet(users))) {
        PartialPlanInv(s, users, desired, diff, cfg, care, p, s');
      }
    }
  }

  lemma PartialPlanInv(s: System, users: seq<Option<User>>, desired: Desired, diff: SyncDiff, cfg: Config,
          care: Care, p: Plan, s': System)
    requires Inv(s, cfg, care) && s.task == Idle && Admissible(s, BeginPartial(users), cfg, care)
    requires Compatible(NormalizedSet(users), cfg) && PartialPlan(s, users, desired, diff, cfg, p)
    requires s' == s.(task := if p.configs == [] then Applied(p) else Planned(p))
    ensures Inv(s', cfg, care)
  {
    PartialPlanFits(s, users, desired, diff, cfg, p, care);
    if p.configs == [] {
      WantedExists(users, desired, cfg);
      QuietPlanCovered(s.store, users, desired, diff, cfg, p, care);
      assert ApplyPlan(s.device, p) == s.device;
    }
  }

  lemma LogExtended(log: seq<Event>, ev: Event, care: Care)
    requires LogInvariant(log, care)
    requires ev.Configured? ==> ClientClosed !in log
    requires ev.Committed? ==> WellKeyed(ev.before) && Covered(log, ev.before, ev.plan, care)
    ensures LogInvariant(log + [ev], care)
    ensures ev.ClientClosed? ==> LastSyncEvent(log + [ev]) == LastSyncEvent(log)
    ensures !ev.ClientClosed? ==> LastSyncEvent(log + [ev]) == Some(ev)
  {
    var log' := log + [ev];
    assert log'[..|log'| - 1] == log;
    forall j | 0 <= j < |log| ensures log'[..j] == log[..j] {}
    assert log'[..|log|] == log;
  }

  lemma ConfigureInv(s: System, accepted: bool, cfg: Config, care: Care, s': System)
    requires Inv(s, cfg, care) && Next(s, Configure(accepted), cfg, s')
    ensures Inv(s', cfg, care)
  {
    if s.clientOpen && accepted { LogExtended(s.log, Configured(s.task.plan), care); }
  }

  lemma CommitInv(s: System, cfg: Config, care: Care, s': System)
    requires Inv(s, cfg, care) && Next(s, Commit, cfg, s')
    ensures Inv(s', cfg, care)
  {
    LogExtended(s.log, Committed(s.store, s.task.plan), care);
  }

  lemma CloseInv(s: System, removed: bool, cfg: Config, care: Care, s': System)
    requires Inv(s, cfg, care) && Next(s, ShutdownClose(removed), cfg, s')
    ensures Inv(s', cfg, care)
  {
    LogExtended(s.log, ClientClosed, care);
  }

  lemma StepInv(s: System, a: Action, cfg: Config, care: Care, s': System)
    requires Inv(s, cfg, care) && Next(s, a, cfg, s') && Admissible(s, a, cfg, care)
    ensures Inv(s', cfg, care)
  {
    match a
    case BeginFull(users) => BeginFullInv(s, users, cfg, care, s');
    case BeginPartial(users) => BeginPartialInv(s, users, cfg, care, s');
    case BeginRestart => BeginRestartInv(s, cfg, care, s');
    case Configure(accepted) => ConfigureInv(s, accepted, cfg, care, s');
    case Commit => CommitInv(s, cfg, care, s');
    case ShutdownClose(removed) => CloseInv(s, removed, cfg, care, s');
    case _ =>
  }

  // ----- what every run guarantees

  lemma {:induction false} RunInv(states: seq<System>, actions: seq<Action>, cfg: Config, care: Care, i: nat)
    requires IsRun(states, actions, cfg, care) && i < |states|
    ensures Inv(states[i], cfg, care)
  {
    if i == 0 {
      InitialInv(states[0], cfg, care);
    } else {
      RunInv(states, actions, cfg, care, i - 1);
      StepInv(states[i - 1], actions[i - 1], cfg, care, states[i]);
    }
  }

  // Between syncs, until the client is closed, the device agrees with the store in every state of
  // every agreeing run, whatever the kernel refused on the way; during a sync it agrees with the store
  // before the kernel call and with the store to come after it. That an UpdateUsers is safe is exactly
  // what agreement after it needs.
  lemma StoreAndDeviceAgree(states: seq<System>, actions: seq<Action>, cfg: Config, i: nat)
    requires IsRun(states, actions, cfg, Agreeing) && i < |states| && states[i].clientOpen
    ensures var s := states[i];
            if s.task.Applied? then Agrees(s.device, s.task.plan.after.peers) else Agrees(s.device, s.store.peers)
  {
    RunInv(states, actions, cfg, Agreeing, i);
  }

  // In every plain run, prefixes of others taken or not, both have the same peers, and the device
  // gives no peer more than the store.
  lemma StoreShadowsDevice(states: seq<System>, actions: seq<Action>, cfg: Config, i: nat)
    requires IsRun(states, actions, cfg, Plain) && i < |states| && states[i].clientOpen && !states[i].task.Applied?
    ensures Shadowed(states[i].AsNode())
  {
    RunInv(states, actions, cfg, Plain, i);
  }

  // In every plain run the store has at all times the peers that the requests since the last full sync that
  // succeeded ask for, taken as one list. A SyncUsers of that list that returns nil leaves this very store; it
  // is refused when two of its users claim one prefix, as after a request that took the prefix of another.
  lemma StoreIsRebuildable(states: seq<System>, actions: seq<Action>, cfg: Config, i: nat)
    requires IsRun(states, actions, cfg, Plain) && i < |states|
    ensures Rebuildable(states[i].store, states[i].history, cfg)
    ensures forall n: Node, reachable, accepted, e: Effect ::
              Bijective(n.store) && FullSync(n, states[i].history, cfg, reachable, accepted, e) && e.ok ==>
                e.node.store == states[i].store
  {
    RunInv(states, actions, cfg, Plain, i);
    var s, history := states[i].store, states[i].history;
    forall n: Node, reachable, accepted, e: Effect | Bijective(n.store) && FullSync(n, history, cfg, reachable, accepted, e) && e.ok
      ensures e.node.store == s
    {
      FullSyncRebuildsIff(s, history, cfg, n, reachable, accepted, e);
    }
  }

  // From any store: unless it finds its peers stored already, with an email index that leads astray.
  lemma FullSyncRebuildsIff(s: Store, history: seq<Option<User>>, cfg: Config, n: Node, reachable: bool, accepted: bool, e: Effect)
    requires Rebuildable(s, history, cfg) && WellKeyed(n.store)
    requires FullSync(n, history, cfg, reachable, accepted, e) && e.ok
    ensures e.node.store.peers == s.peers
    ensures e.node.store == s <==> (IsTarget(n.store.peers, history, cfg) ==> Bijective(n.store))
  {
    var m :| IsTarget(m, history, cfg) && HasPeers(s, m);
    TargetTexts(m, history, cfg);
    HeldApart(s, m);
    FullSyncShape(n, history, cfg, reachable, accepted, e, m);
    ValuesDetermine(e.node.store.peers, s.peers);
    if IsTarget(n.store.peers, history, cfg) { TargetUnique(m, n.store.peers, history, cfg); }
    if Bijective(e.node.store) { EntriesDetermineStore(e.node.store, s); }
  }

  lemma SnapshotExists(m: Peers) returns (configs: seq<PeerConfig>)
    ensures IsSnapshot(m, configs)
  {
    var ts := SortedExists(m.Keys);
    configs := ConfigsAt(m, ts, false);
  }

  // In every run, whatever is sent: every stored peer has an allowed IP and keeps to the interface
  // networks, so a restart finds a batch, only one, and succeeds with it if the kernel takes it.
  lemma RestartAlwaysPossible(states: seq<System>, actions: seq<Action>, cfg: Config, i: nat) returns (configs: seq<PeerConfig>)
    requires IsRun(states, actions, cfg, Any) && i < |states|
    ensures InNetworks(states[i].store.peers, cfg)
    ensures IsSnapshot(states[i].store.peers, configs)
    ensures forall e :: Restart(states[i].AsNode(), true, true, e)
              <==> e == Effect(Node(states[i].store, ApplyBatch(map[], configs)), true, [])
  {
    RunInv(states, actions, cfg, Any, i);
    configs := SnapshotExists(states[i].store.peers);
    forall other | IsSnapshot(states[i].store.peers, other) ensures other == configs {
      SnapshotUnique(states[i].store.peers, other, configs);
    }
  }

  // In every run: no configure call is made after the client was closed.
  lemma NoConfigureAfterClose(states: seq<System>, actions: seq<Action>, cfg: Config, n: nat, i: nat, j: nat)
    requires IsRun(states, actions, cfg, Any) && n < |states| && i < j < |states[n].log|
    requires states[n].log[i].ClientClosed?
    ensures !states[n].log[j].Configured?
  {
    RunInv(states, actions, cfg, Any, n);
  }

  // A commit that changes which key has which allowed IPs comes right after the kernel took exactly
  // that change; only the closing of the client may come between. UpdateUsers may send any texts, as long
  // as the email index is right about its users, which it always is when no full list spells a key twice.
  lemma CommitsFollowTheirConfigure(states: seq<System>, actions: seq<Action>, cfg: Config, care: Care, n: nat, j: nat)
    requires IsRun(states, actions, cfg, care) && care in {Indexed, Apart} && n < |states| && j < |states[n].log|
    requires states[n].log[j].Committed?
    requires KeyIPs(states[n].log[j].plan.after) != KeyIPs(states[n].log[j].before)
    ensures LastSyncEvent(states[n].log[..j]) == Some(Configured(states[n].log[j].plan))
  {
    RunInv(states, actions, cfg, care, n);
  }

  // In every run, whatever is sent: a commit that does not follow its configure call only renames the owners
  // of stored keys, and it changes which key has which allowed IPs exactly when an upsert takes a key away,
  // filed under its email, that no later one brings back.
  lemma OtherCommitsOnlyRename(states: seq<System>, actions: seq<Action>, cfg: Config, n: nat, j: nat) returns (ps: seq<PeerInfo>)
    requires IsRun(states, actions, cfg, Any) && n < |states| && j < |states[n].log|
    requires states[n].log[j].Committed? && LastSyncEvent(states[n].log[..j]) != Some(Configured(states[n].log[j].plan))
    ensures var before, after := states[n].log[j].before, states[n].log[j].plan.after;
            && Renames(before, ps, after)
            && (KeyIPs(after) == KeyIPs(before) <==> forall t :: t in before.peers ==> !Lost(before, ps, t))
  {
    RunInv(states, actions, cfg, Any, n);
    var before, after := states[n].log[j].before, states[n].log[j].plan.after;
    assert Quiet(before, after, Any);
    ps :| Renames(before, ps, after);
    RenamesKeepIff(before, ps, after);
  }

  // In every run: stopped is for good.
  lemma StoppedForGood(states: seq<System>, actions: seq<Action>, cfg: Config, i: nat, j: nat)
    requires IsRun(states, actions, cfg, Any) && i <= j < |states| && !states[i].running
    ensures !states[j].running && !states[j].managerSet && !states[j].clientOpen
  {
    RunsUntilDone(states, actions, cfg, i);
    var closings := seq(|states|, k requires 0 <= k < |states| => states[k].closing);
    forall k | i <= k < j && closings[k] == Done ensures closings[k + 1] == Done {
      StepKeepsDone(states[k], actions[k], cfg, states[k + 1]);
    }
    Stays(closings, i, j);
    RunsUntilDone(states, actions, cfg, j);
  }

  lemma RunsUntilDone(states: seq<System>, actions: seq<Action>, cfg: Config, i: nat)
    requires IsRun(states, actions, cfg, Any) && i < |states|
    ensures states[i].running == states[i].managerSet == (states[i].closing != Done)
    ensures states[i].closing == Done ==> !states[i].clientOpen
  {
    RunInv(states, actions, cfg, Any, i);
  }

  lemma {:induction false} Stays<T>(xs: seq<T>, i: nat, j: nat)
    requires i <= j < |xs|
    requires forall k :: i <= k < j && xs[k] == xs[i] ==> xs[k + 1] == xs[i]
    ensures xs[j] == xs[i]
    decreases j - i
  {
    if i < j { Stays(xs, i, j - 1); }
  }

  // In every run: closing the client leaves the device empty or, if deleting the interface failed, as it was, and
  // nothing touches it afterwards.
  lemma DeviceAfterClose(states: seq<System>, actions: seq<Action>, cfg: Config, i: nat, j: nat)
    requires IsRun(states, actions, cfg, Any) && i < |actions| && actions[i].ShutdownClose? && i < j < |states|
    ensures states[j].device == if actions[i].removed then map[] else states[i].device
    ensures !states[j].clientOpen && states[j].closing in {ClientGone, Done}
  {
    ClosingEmpties(states[i], actions[i], cfg, states[i + 1]);
    var closed := seq(|states|, k requires 0 <= k < |states| => ClosedDevice(states[k]));
    forall k | i + 1 <= k < j && closed[k] == closed[i + 1] ensures closed[k + 1] == closed[i + 1] {
      ClosedDeviceStays(states[k], actions[k], cfg, states[k + 1]);
    }
    Stays(closed, i + 1, j);
  }

  function ClosedDevice(s: System): Option<Device> {
    if !s.clientOpen && s.closing in {ClientGone, Done} then Some(s.device) else None
  }

  lemma ClosingEmpties(s: System, a: Action, cfg: Config, s': System)
    requires Next(s, a, cfg, s') && a.ShutdownClose?
    ensures s'.device == if a.removed then map[] else s.device
    ensures !s'.clientOpen && s'.closing == ClientGone
  {
  }

  lemma ClosedDeviceStays(s: System, a: Action, cfg: Config, s': System)
    requires Next(s, a, cfg, s') && ClosedDevice(s).Some?
    ensures ClosedDevice(s') == ClosedDevice(s)
  {
    if a.BeginFull? || a.BeginPartial? || a.BeginRestart? { BeginKeepsDevice(s, a, cfg, s'); }
  }

  lemma BeginKeepsDevice(s: System, a: Action, cfg: Config, s': System)
    requires Begun(s, a, cfg, s')
    ensures s'.device == s.device && s'.clientOpen == s.clientOpen && s'.closing == s.closing
  {
  }

  lemma StepKeepsDone(s: System, a: Action, cfg: Config, s': System)
    requires Next(s, a, cfg, s') && s.closing == Done
    ensures s'.closing == Done
  {
    if a.BeginFull? || a.BeginPartial? || a.BeginRestart? { BeginKeepsClosing(s, a, cfg, s'); }
  }

  lemma BeginKeepsClosing(s: System, a: Action, cfg: Config, s': System)
    requires Begun(s, a, cfg, s')
    ensures s'.closing == s.closing
  {
  }

  // ----- an uninterrupted sync is one of the step relations

  // Nothing is under way and the backend runs.
  ghost predicate Ready(s: System) {
    s.task == Idle && s.closing == NotYet && s.clientOpen && s.running && s.managerSet
  }

  // From the beginning of a sync to its end, the kernel taking the call or not, nobody else in between.
  ghost predicate Finished(s1: System, accepted: bool, cfg: Config, s': System) {
    match s1.task
    case Planned(_) => exists s2, s3 :: Next(s1, ReadManager, cfg, s2) && Next(s2, Configure(accepted), cfg, s3)
                                        && if accepted then Next(s3, Commit, cfg, s') else s' == s3
    case Applied(_) => Next(s1, Commit, cfg, s')
    case _ => s' == s1
  }

  lemma PlannedFinishes(s: System, p: Plan, accepted: bool, cfg: Config, s': System)
    requires Ready(s) && Finished(s.(task := Planned(p)), accepted, cfg, s')
    ensures s'.task == Idle
    ensures s'.AsNode() == if accepted then Node(p.after, ApplyPlan(s.device, p)) else s.AsNode()
  {
  }

  lemma FullSyncUninterrupted(s: System, users: seq<Option<User>>, accepted: bool, cfg: Config, s1: System, s': System)
    returns (e: Effect)
    requires Ready(s) && WellKeyed(s.store)
    requires Next(s, BeginFull(users), cfg, s1) && Finished(s1, accepted, cfg, s')
    ensures FullSync(s.AsNode(), users, cfg, true, accepted, e) && e.node == s'.AsNode() && s'.task == Idle
  {
    var us := NormalizedSet(users);
    if !Compatible(us, cfg) {
      e := Refused(s.AsNode());
    } else if IsTarget(s.store.peers, users, cfg) {
      e := Effect(s.AsNode(), true, []);
      FullSyncIdles(s.AsNode(), users, cfg, accepted);
    } else {
      var desired, diff, ts, p :| FullPlan(s, users, desired, diff, ts, cfg, p) && s1 == s.(task := Planned(p));
      PlannedFinishes(s, p, accepted, cfg, s');
      e := PlannedFullSync(s, users, desired, diff, ts, accepted, cfg, p);
    }
  }

  lemma PlannedFullSync(s: System, users: seq<Option<User>>, desired: Desired, diff: SyncDiff, ts: seq<string>, accepted: bool,
                        cfg: Config, p: Plan) returns (e: Effect)
    requires Compatible(NormalizedSet(users), cfg) && FullPlan(s, users, desired, diff, ts, cfg, p)
    ensures FullSync(s.AsNode(), users, cfg, true, accepted, e)
    ensures e.node == if accepted then Node(p.after, ApplyPlan(s.device, p)) else s.AsNode()
  {
    var n := s.AsNode();
    if accepted {
      var dropped := SortedExists(n.store.peers.Keys - p.after.peers.Keys);
      SortedIsEnumeration(dropped, n.store.peers.Keys - p.after.peers.Keys);
      e := Effect(Node(p.after, ApplyPlan(s.device, p)), true, dropped);
      assert FullCommit(n, diff.targetPeers, p.configs, ts, e);
    } else {
      e := Refused(n);
    }
    assert FullSyncBy(n, diff, true, accepted, e);
  }

  lemma PartialSyncUninterrupted(s: System, users: seq<Option<User>>, accepted: bool, cfg: Config, s1: System, s': System)
    returns (e: Effect)
    requires Ready(s)
    requires Next(s, BeginPartial(users), cfg, s1) && Finished(s1, accepted, cfg, s')
    ensures PartialSync(s.AsNode(), users, cfg, true, accepted, e) && e.node == s'.AsNode() && s'.task == Idle
  {
    var n, us := s.AsNode(), NormalizedSet(users);
    if !Compatible(us, cfg) {
      e := Refused(n);
    } else {
      var desired, diff, p :| PartialBegun(s, users, desired, diff, cfg, p, s1);
      if OwnedByOther(s.store, desired, Touched(us)) {
        e := Refused(n);
      } else {
        var done := p.configs == [] || accepted;
        if p.configs != [] { PlannedFinishes(s, p, accepted, cfg, s'); }
        e := if done then Effect(Node(p.after, ApplyPlan(s.device, p)), true, RemovedBy(s.store, diff.removeKeys)) else Refused(n);
      }
      assert PartialSyncWith(n, us, desired, diff, true, accepted, e);
    }
  }

  lemma RestartUninterrupted(s: System, accepted: bool, cfg: Config, s1: System, s': System) returns (e: Effect)
    requires Ready(s)
    requires Next(s, BeginRestart, cfg, s1) && Finished(s1, accepted, cfg, s')
    ensures Restart(s.AsNode(), true, accepted, e) && e.node == s'.AsNode() && s'.task == Idle
  {
    var n := s.AsNode();
    e := Refused(n);
    if !(exists t :: t in s.store.peers && s.store.peers[t].allowed == []) {
      var configs :| IsSnapshot(s.store.peers, configs)
                     && s1 == s.(task := Planned(Plan(configs, true, s.store, s.history)));
      PlannedFinishes(s, Plan(configs, true, s.store, s.history), accepted, cfg, s');
      if accepted { e := Effect(Node(s.store, ApplyBatch(map[], configs)), true, []); }
    }
  }
}
