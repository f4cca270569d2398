// A sync, from its beginning to its end, with the steps of a shutdown anywhere in between and from any state,
// the manager gone or the client closed included: it has the effect of one step relation.
module Interleavings {
  import opened Wrappers
  import opened Enumerations
  import opened PeerStores
  import opened DesiredPeers
  import opened Kernel
  import opened SyncDiffs
  import opened SyncSteps
  import opened SyncTheorems
  import opened NodeTheorems
  import opened Lifecycles

  // The kernel can be asked.
  ghost predicate Reachable(s: System) {
    s.running && s.managerSet && s.clientOpen
  }

  // From s on: steps of the sync that has begun and of a shutdown, but no other sync.
  ghost predicate Continues(states: seq<System>, actions: seq<Action>, cfg: Config) {
    && |states| == |actions| + 1
    && forall i :: 0 <= i < |actions| ==>
         Next(states[i], actions[i], cfg, states[i + 1])
         && !actions[i].BeginFull? && !actions[i].BeginPartial? && !actions[i].BeginRestart?
  }

  // Nothing to ask the kernel for.
  ghost predicate Silent(p: Plan) {
    !p.replacePeers && p.configs == []
  }

  // What can have become of s0, in which a sync with plan p began.
  ghost predicate Along(s0: System, p: Plan, s: System) {
    && (s.running ==> s0.running) && (s.managerSet ==> s0.managerSet) && (s.clientOpen ==> s0.clientOpen)
    && (s.task != Idle ==> s.task.plan == p && s.store == s0.store && s.history == s0.history)
    && (s.task.Planned? || s.task.Holding? ==> !Silent(p) && (s.clientOpen ==> s.device == s0.device))
    && (s.task.Holding? ==> s0.running && s0.managerSet)
    && (s.task.Applied? ==> (Silent(p) || Reachable(s0)) && (s.clientOpen ==> s.device == ApplyPlan(s0.device, p)))
    && (s.task == Idle ==> Undone(s0, p, s) || Carried(s0, p, s))
  }

  ghost predicate Undone(s0: System, p: Plan, s: System) {
    !Silent(p) && s.store == s0.store && s.history == s0.history && (s.clientOpen ==> s.device == s0.device)
  }

  ghost predicate Carried(s0: System, p: Plan, s: System) {
    && (Silent(p) || Reachable(s0))
    && s.store == p.after && s.history == p.history && (s.clientOpen ==> s.device == ApplyPlan(s0.device, p))
  }

  lemma StepAlong(s0: System, p: Plan, s: System, a: Action, cfg: Config, s': System)
    requires Along(s0, p, s) && Next(s, a, cfg, s')
    requires !a.BeginFull? && !a.BeginPartial? && !a.BeginRestart?
    ensures Along(s0, p, s')
  {
  }

  lemma {:induction false} ContinuedAlong(s0: System, p: Plan, states: seq<System>, actions: seq<Action>, cfg: Config, i: nat)
    requires Continues(states, actions, cfg) && Along(s0, p, states[0]) && i < |states|
    ensures Along(s0, p, states[i])
  {
    if i > 0 {
      ContinuedAlong(s0, p, states, actions, cfg, i - 1);
      StepAlong(s0, p, states[i - 1], actions[i - 1], cfg, states[i]);
    }
  }

  // Whether a sync whose plan was under way in the first state was carried out in the end.
  lemma EndOfPlan(s0: System, p: Plan, states: seq<System>, actions: seq<Action>, cfg: Config) returns (carried: bool)
    requires Continues(states, actions, cfg) && Along(s0, p, states[0]) && states[|actions|].task == Idle
    ensures if carried then Silent(p) || Reachable(s0) else !Silent(p)
    ensures states[|actions|].store == if carried then p.after else s0.store
    ensures states[|actions|].clientOpen ==> states[|actions|].device == if carried then ApplyPlan(s0.device, p) else s0.device
  {
    ContinuedAlong(s0, p, states, actions, cfg, |actions|);
    carried := Carried(s0, p, states[|actions|]);
  }

  // The end of a run of steps that began idle and never got a plan.
  lemma {:induction false} IdleContinued(s0: System, states: seq<System>, actions: seq<Action>, cfg: Config, i: nat)
    requires Continues(states, actions, cfg) && i < |states| && Resting(s0, states[0])
    ensures Resting(s0, states[i])
  {
    if i > 0 { IdleContinued(s0, states, actions, cfg, i - 1); }
  }

  ghost predicate Resting(s0: System, s: System) {
    && s.task == Idle && s.store == s0.store && (s.clientOpen ==> s0.clientOpen && s.device == s0.device)
  }

  // The node is that of e, the device as far as a shutdown has not closed the client.
  ghost predicate EndsAs(s: System, e: Effect) {
    s.task == Idle && s.store == e.node.store && (s.clientOpen ==> s.device == e.node.device)
  }

  // ----- the three kinds of sync

  lemma FullSyncIsAtomic(s0: System, users: seq<Option<User>>, cfg: Config, states: seq<System>, actions: seq<Action>)
    returns (accepted: bool, e: Effect)
    requires s0.task == Idle && WellKeyed(s0.store)
    requires Continues(states, actions, cfg) && Next(s0, BeginFull(users), cfg, states[0]) && states[|actions|].task == Idle
    ensures FullSync(s0.AsNode(), users, cfg, Reachable(s0), accepted, e) && EndsAs(states[|actions|], e)
  {
    accepted := false;
    if !Compatible(NormalizedSet(users), cfg) || IsTarget(s0.store.peers, users, cfg) {
      IdleContinued(s0, states, actions, cfg, |actions|);
      e := FullSyncRests(s0.AsNode(), users, cfg, Reachable(s0), accepted);
    } else {
      var desired, diff, ts, p :| FullPlan(s0, users, desired, diff, ts, cfg, p) && states[0] == s0.(task := Planned(p));
      PlanBegins(s0, p);
      accepted := EndOfPlan(s0, p, states, actions, cfg);
      e := PlannedFull(s0, users, desired, diff, ts, accepted, cfg, p);
    }
  }

  lemma PlanBegins(s0: System, p: Plan)
    requires s0.task == Idle
    ensures !Silent(p) ==> Along(s0, p, s0.(task := Planned(p)))
    ensures Silent(p) ==> Along(s0, p, s0.(task := Applied(p)))
  {
  }

  lemma FullSyncRests(n: Node, users: seq<Option<User>>, cfg: Config, reachable: bool, accepted: bool) returns (e: Effect)
    requires !Compatible(NormalizedSet(users), cfg) || IsTarget(n.store.peers, users, cfg)
    ensures FullSync(n, users, cfg, reachable, accepted, e) && e.node == n
  {
    e := Refused(n);
    if Compatible(NormalizedSet(users), cfg) {
      e := Effect(n, true, []);
      var desired :| IsDesired(desired, NormalizedSet(users), cfg) && n.store.peers == TargetPeers(desired);
      SameIsNoDiff(n.store.peers, desired);
      assert FullSyncBy(n, SyncDiff([], [], [], n.store.peers, false), reachable, accepted, e);
    }
  }

  lemma PlannedFull(s: System, users: seq<Option<User>>, desired: Desired, diff: SyncDiff, ts: seq<string>, carried: bool,
                    cfg: Config, p: Plan) returns (e: Effect)
    requires Compatible(NormalizedSet(users), cfg) && FullPlan(s, users, desired, diff, ts, cfg, p)
    requires carried ==> Reachable(s)
    ensures FullSync(s.AsNode(), users, cfg, Reachable(s), carried, e)
    ensures e.node == if carried then Node(p.after, ApplyPlan(s.device, p)) else s.AsNode()
  {
    var n := s.AsNode();
    e := Refused(n);
    if carried {
      var dropped := SortedExists(n.store.peers.Keys - p.after.peers.Keys);
      SortedIsEnumeration(dropped, n.store.peers.Keys - p.after.peers.Keys);
      e := Effect(Node(p.after, ApplyPlan(s.device, p)), true, dropped);
      assert FullCommit(n, diff.targetPeers, p.configs, ts, e);
    }
    assert FullSyncBy(n, diff, Reachable(s), carried, e);
  }

  lemma PartialSyncIsAtomic(s0: System, users: seq<Option<User>>, cfg: Config, states: seq<System>, actions: seq<Action>)
    returns (accepted: bool, e: Effect)
    requires s0.task == Idle
    requires Continues(states, actions, cfg) && Next(s0, BeginPartial(users), cfg, states[0]) && states[|actions|].task == Idle
    ensures PartialSync(s0.AsNode(), users, cfg, Reachable(s0), accepted, e) && EndsAs(states[|actions|], e)
  {
    var s1, us := states[0], NormalizedSet(users);
    accepted, e := false, Refused(s0.AsNode());
    if !Compatible(us, cfg) {
      IdleContinued(s0, states, actions, cfg, |actions|);
    } else {
      var desired, diff, p :| PartialBegun(s0, users, desired, diff, cfg, p, s1);
      if OwnedByOther(s0.store, desired, Touched(us)) {
        IdleContinued(s0, states, actions, cfg, |actions|);
        assert PartialSyncWith(s0.AsNode(), us, desired, diff, Reachable(s0), accepted, e);
      } else {
        PlanBegins(s0, p);
        accepted := EndOfPlan(s0, p, states, actions, cfg);
        e := PlannedPartial(s0, users, desired, diff, accepted, cfg, p);
      }
    }
  }

  lemma PlannedPartial(s: System, users: seq<Option<User>>, desired: Desired, diff: SyncDiff, carried: bool, cfg: Config, p: Plan)
    returns (e: Effect)
    requires Compatible(NormalizedSet(users), cfg) && PartialPlan(s, users, desired, diff, cfg, p)
    requires if carried then Silent(p) || Reachable(s) else !Silent(p)
    ensures PartialSync(s.AsNode(), users, cfg, Reachable(s), carried, e)
    ensures e.node == if carried then Node(p.after, ApplyPlan(s.device, p)) else s.AsNode()
  {
    var n := s.AsNode();
    e := if carried then Effect(Node(p.after, ApplyPlan(s.device, p)), true, RemovedBy(s.store, diff.removeKeys)) else Refused(n);
    assert PartialSyncWith(n, NormalizedSet(users), desired, diff, Reachable(s), carried, e);
  }

  lemma RestartIsAtomic(s0: System, cfg: Config, states: seq<System>, actions: seq<Action>) returns (accepted: bool, e: Effect)
    requires s0.task == Idle
    requires Continues(states, actions, cfg) && Next(s0, BeginRestart, cfg, states[0]) && states[|actions|].task == Idle
    ensures Restart(s0.AsNode(), Reachable(s0), accepted, e) && EndsAs(states[|actions|], e)
  {
    var s1, n := states[0], s0.AsNode();
    accepted, e := false, Refused(n);
    if exists t :: t in s0.store.peers && s0.store.peers[t].allowed == [] {
      IdleContinued(s0, states, actions, cfg, |actions|);
    } else {
      var configs :| IsSnapshot(s0.store.peers, configs) && s1 == s0.(task := Planned(Plan(configs, true, s0.store, s0.history)));
      var p := Plan(configs, true, s0.store, s0.history);
      PlanBegins(s0, p);
      accepted := EndOfPlan(s0, p, states, actions, cfg);
      if accepted { e := Effect(Node(s0.store, ApplyBatch(map[], configs)), true, []); }
    }
  }

  // ----- the other way round: whatever a step relation allows comes about in steps

  // A sync may begin, and would find the manager's mutex free.
  ghost predicate AtRest(s: System) {
    s.task == Idle && s.closing in {NotYet, Done}
  }

  // From the first state on a sync runs to its end and leaves store and device as in n.
  ghost predicate RunsTo(states: seq<System>, actions: seq<Action>, cfg: Config, n: Node) {
    Continues(states, actions, cfg) && states[|actions|].task == Idle && states[|actions|].AsNode() == n
  }

  lemma PlanHappens(s0: System, p: Plan, accepted: bool, cfg: Config) returns (states: seq<System>, actions: seq<Action>)
    requires AtRest(s0)
    ensures RunsTo(states, actions, cfg, if Reachable(s0) && accepted then Node(p.after, ApplyPlan(s0.device, p)) else s0.AsNode())
    ensures states[0] == s0.(task := Planned(p))
  {
    var s1 := s0.(task := Planned(p));
    var s2 := s1.(task := if s0.running && s0.managerSet then Holding(p) else Idle);
    states, actions := [s1, s2], [ReadManager];
    if s2.task.Holding? {
      var s3 := s2.(task := Idle);
      if s0.clientOpen && accepted {
        s3 := s2.(device := ApplyPlan(s0.device, p), task := Applied(p), log := s0.log + [Configured(p)]);
        var s4 := s3.(store := p.after, history := p.history, task := Idle, log := s3.log + [Committed(s0.store, p)]);
        states, actions := [s1, s2, s3, s4], [ReadManager, Configure(accepted), Commit];
      } else {
        states, actions := [s1, s2, s3], [ReadManager, Configure(accepted)];
      }
    }
  }

  lemma CommitHappens(s0: System, p: Plan, cfg: Config) returns (states: seq<System>, actions: seq<Action>)
    requires s0.task == Idle && Silent(p)
    ensures RunsTo(states, actions, cfg, Node(p.after, s0.device)) && states[0] == s0.(task := Applied(p))
  {
    var s1 := s0.(task := Applied(p));
    states := [s1, s1.(store := p.after, history := p.history, task := Idle, log := s0.log + [Committed(s0.store, p)])];
    actions := [Commit];
  }

  lemma FullSyncHappens(s0: System, users: seq<Option<User>>, accepted: bool, cfg: Config, e: Effect)
    returns (states: seq<System>, actions: seq<Action>)
    requires AtRest(s0) && WellKeyed(s0.store) && FullSync(s0.AsNode(), users, cfg, Reachable(s0), accepted, e)
    ensures RunsTo(states, actions, cfg, e.node) && Next(s0, BeginFull(users), cfg, states[0])
  {
    if !Compatible(NormalizedSet(users), cfg) {
      states, actions := [s0], [];
    } else {
      var desired, diff :| IsDesired(desired, NormalizedSet(users), cfg) && IsSyncDiff(s0.store.peers, desired, diff)
                           && FullSyncBy(s0.AsNode(), diff, Reachable(s0), accepted, e);
      var p := FullPlanOf(s0, users, desired, diff, accepted, cfg, e);
      if diff.changed {
        states, actions := PlanHappens(s0, p, accepted, cfg);
      } else {
        states, actions := [s0.(history := users)], [];
      }
    }
  }

  lemma FullPlanOf(s0: System, users: seq<Option<User>>, desired: Desired, diff: SyncDiff, accepted: bool, cfg: Config, e: Effect)
    returns (p: Plan)
    requires WellKeyed(s0.store) && Compatible(NormalizedSet(users), cfg)
    requires IsDesired(desired, NormalizedSet(users), cfg) && IsSyncDiff(s0.store.peers, desired, diff)
    requires FullSyncBy(s0.AsNode(), diff, Reachable(s0), accepted, e)
    ensures IsTarget(s0.store.peers, users, cfg) <==> !diff.changed
    ensures !diff.changed ==> e.node == s0.AsNode()
    ensures diff.changed ==> exists ts :: FullPlan(s0, users, desired, diff, ts, cfg, p)
    ensures diff.changed ==>
              e.node == if Reachable(s0) && accepted then Node(p.after, ApplyPlan(s0.device, p)) else s0.AsNode()
  {
    DesiredIsTarget(desired, users, cfg);
    TargetShape(TargetPeers(desired), users, cfg);
    ChangedIffDifferent(s0.store.peers, desired, diff);
    if IsTarget(s0.store.peers, users, cfg) { TargetUnique(s0.store.peers, TargetPeers(desired), users, cfg); }
    var kept := WithIPs(diff.targetPeers);
    var configs := SnapshotExists(kept);
    var ts := SortedExists(kept.Keys);
    SortedIsEnumeration(ts, kept.Keys);
    if diff.changed && Reachable(s0) && accepted {
      configs, ts :| FullCommit(s0.AsNode(), diff.targetPeers, configs, ts, e);
    }
    p := Plan(configs, true, InsertAll(EMPTY_STORE, PeersAt(kept, ts)), users);
    if diff.changed { assert FullPlan(s0, users, desired, diff, ts, cfg, p); }
  }

  lemma PartialSyncHappens(s0: System, users: seq<Option<User>>, accepted: bool, cfg: Config, e: Effect)
    returns (states: seq<System>, actions: seq<Action>)
    requires AtRest(s0) && PartialSync(s0.AsNode(), users, cfg, Reachable(s0), accepted, e)
    ensures RunsTo(states, actions, cfg, e.node) && Next(s0, BeginPartial(users), cfg, states[0])
  {
    var us := NormalizedSet(users);
    if !Compatible(us, cfg) {
      states, actions := [s0], [];
    } else {
      var desired, diff :| IsDesired(desired, us, cfg)
                           && PartialSyncWith(s0.AsNode(), us, desired, diff, Reachable(s0), accepted, e);
      var p := Plan(diff.peerConfigs, false, AfterChanges(s0.store, diff.removeKeys, diff.upsertPeers), s0.history + users);
      states, actions := PartialHappens(s0, users, desired, diff, accepted, cfg, p, e);
      assert PartialBegun(s0, users, desired, diff, cfg, p, states[0]);
    }
  }

  lemma PartialHappens(s0: System, users: seq<Option<User>>, desired: Desired, diff: SyncDiff, accepted: bool, cfg: Config,
                       p: Plan, e: Effect) returns (states: seq<System>, actions: seq<Action>)
    requires AtRest(s0) && IsDesired(desired, NormalizedSet(users), cfg)
    requires PartialSyncWith(s0.AsNode(), NormalizedSet(users), desired, diff, Reachable(s0), accepted, e)
    requires p == Plan(diff.peerConfigs, false, AfterChanges(s0.store, diff.removeKeys, diff.upsertPeers), s0.history + users)
    ensures RunsTo(states, actions, cfg, e.node) && PartialBegun(s0, users, desired, diff, cfg, p, states[0])
  {
    if OwnedByOther(s0.store, desired, Touched(NormalizedSet(users))) {
      states, actions := [s0], [];
    } else if Silent(p) {
      states, actions := CommitHappens(s0, p, cfg);
    } else {
      states, actions := PlanHappens(s0, p, accepted, cfg);
    }
  }

  lemma RestartHappens(s0: System, accepted: bool, cfg: Config, e: Effect) returns (states: seq<System>, actions: seq<Action>)
    requires AtRest(s0) && Restart(s0.AsNode(), Reachable(s0), accepted, e)
    ensures RunsTo(states, actions, cfg, e.node) && Next(s0, BeginRestart, cfg, states[0])
  {
    if exists t :: t in s0.store.peers && s0.store.peers[t].allowed == [] {
      states, actions := [s0], [];
    } else {
      var configs := SnapshotExists(s0.store.peers);
      if Reachable(s0) && accepted {
        configs :| IsSnapshot(s0.store.peers, configs) && e.node.device == ApplyBatch(map[], configs);
      }
      states, actions := PlanHappens(s0, Plan(configs, true, s0.store, s0.history), accepted, cfg);
    }
  }

  // A shutdown takes its three steps whatever a sync is doing, and leaves the sync's task to it.
  lemma ShutdownHappens(s: System, removed: bool, cfg: Config) returns (s1: System, s2: System, s3: System)
    requires s.closing == NotYet
    ensures Next(s, ShutdownLock, cfg, s1) && Next(s1, ShutdownClose(removed), cfg, s2) && Next(s2, ShutdownFinish, cfg, s3)
    ensures !s3.clientOpen && !s3.managerSet && !s3.running && s3.closing == Done
    ensures s3.task == s.task && s3.store == s.store && s3.device == if removed then map[] else s.device
  {
    s1 := s.(closing := Locked);
    s2 := s1.(closing := ClientGone, clientOpen := false, log := s.log + [ClientClosed],
              device := if removed then map[] else s.device);
    s3 := s2.(closing := Done, managerSet := false, running := false);
  }
}
