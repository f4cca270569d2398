// What the four ways of reaching a state guarantee.
module SyncTheorems {
  import opened Wrappers
  import opened WgKeys
  import opened Enumerations
  import opened DesiredPeers
  import opened Kernel
  import opened SyncDiffs
  import opened SyncSteps

  // The device has the stored peers, each with the stored prefixes, and no other peer.
  ghost predicate Agrees(d: Device, peers: Peers) {
    && (forall t :: t in peers ==> peers[t].key in d && d[peers[t].key] == SetOf(peers[t].allowed))
    && (forall k :: k in d ==> KeyText(k) in peers)
  }

  ghost predicate FiledByKey(m: Peers) {
    forall t :: t in m ==> m[t].Text() == t
  }

  ghost predicate PrefixesDisjoint(m: Peers) {
    forall t, u :: t in m && u in m && t != u ==> SetOf(m[t].allowed) !! SetOf(m[u].allowed)
  }

  ghost predicate EmailsDistinct(m: Peers) {
    forall t, u :: t in m && u in m && t != u ==> m[t].email != m[u].email
  }

  // What collectDesiredPeers guarantees of the peers it wants.
  ghost predicate WellFormed(target: Peers) {
    && (forall t :: t in target ==> target[t].allowed != [] && ParseKey(t) == Some(target[t].key))
    && PrefixesDisjoint(target)
    && EmailsDistinct(target)
  }

  // No two wanted peers have one key: no two key texts of the request spell one key.
  ghost predicate KeysApart(target: Peers) {
    forall t, u :: t in target && u in target && t != u ==> target[t].key != target[u].key
  }

  lemma FiledPeersApart(target: Peers)
    requires FiledByKey(target)
    ensures KeysApart(target)
  {
  }

  // Every parseable key text in the request is the canonical one.
  ghost predicate CanonicalKeys(us: set<User>) {
    forall u :: u in us && ParseKey(u.PublicKey()).Some? ==> Canonical(u.PublicKey())
  }

  // The user behind a wanted peer.
  lemma Bidder(desired: Desired, us: set<User>, cfg: Config, t: string) returns (u: User)
    requires IsDesired(desired, us, cfg) && t in desired
    ensures u in us && u.PublicKey() == t && AskOf(u, cfg).bid == Some(Bid(t, desired[t]))
    ensures u.email == desired[t].email
  {
    var a :| a in AsksOf(us, cfg) && a.bid.Some? && a.bid.value.text == t;
    u :| u in us && AskOf(u, cfg) == a;
  }

  lemma BiddersApart(u: User, v: User, us: set<User>, cfg: Config)
    requires u in us && v in us && u.email != v.email && Compatible(us, cfg)
    requires AskOf(u, cfg).bid.Some? && AskOf(v, cfg).bid.Some?
    ensures SetOf(AskOf(u, cfg).bid.value.peer.allowed) !! SetOf(AskOf(v, cfg).bid.value.peer.allowed)
  {
    var a, b := AskOf(u, cfg), AskOf(v, cfg);
    assert a in AsksOf(us, cfg) && b in AsksOf(us, cfg);
    assert !Clashing(a, b);
    forall p | p in a.claims ensures p !in b.claims { assert p !in a.claims * b.claims; }
  }

  lemma TargetIsWellFormed(desired: Desired, us: set<User>, cfg: Config)
    requires EmailsIdentify(us) && Compatible(us, cfg) && IsDesired(desired, us, cfg)
    ensures WellFormed(TargetPeers(desired))
    ensures forall t :: t in desired ==> desired[t].email in Touched(us)
    ensures CanonicalKeys(us) ==> FiledByKey(TargetPeers(desired))
  {
    var target := TargetPeers(desired);
    forall t | t in target
      ensures target[t].allowed != [] && ParseKey(t) == Some(target[t].key) && target[t].email in Touched(us)
      ensures CanonicalKeys(us) ==> target[t].Text() == t
    {
      var u := Bidder(desired, us, cfg, t);
    }
    forall t, v | t in target && v in target && t != v
      ensures target[t].email != target[v].email
      ensures SetOf(target[t].allowed) !! SetOf(target[v].allowed)
    {
      var x := Bidder(desired, us, cfg, t);
      var y := Bidder(desired, us, cfg, v);
      BiddersApart(x, y, us, cfg);
    }
  }

  // ----- the diff

  // A full diff is empty exactly when the store already is the target.
  lemma ChangedIffDifferent(existing: Peers, desired: Desired, diff: SyncDiff)
    requires IsSyncDiff(existing, desired, diff)
    requires FiledByKey(existing) && WellFormed(TargetPeers(desired))
    ensures diff.changed <==> existing != TargetPeers(desired)
  {
    var target := TargetPeers(desired);
    var updates, adds, upserts :| IsSyncDiffBy(existing, desired, diff, updates, adds, upserts);
    forall t | t in existing ensures ParseKey(t) == Some(existing[t].key) { ParseOfText(existing[t].key); }
    if !diff.changed {
      assert upserts == [];
      assert forall t :: t in Removable(existing, target) ==> t in diff.removeKeys;
      assert forall t :: t in Upserted(existing, target) ==> t in upserts;
      NothingToDo(existing, target);
    } else if existing == target {
      FirstIsElement(diff.removeKeys);
      FirstIsElement(upserts);
    }
  }

  lemma NothingToDo(existing: Peers, target: Peers)
    requires forall t :: t in existing ==> ParseKey(t) == Some(existing[t].key)
    requires WellFormed(target) && Removable(existing, target) == {} && Upserted(existing, target) == {}
    ensures existing == target
  {
    assert forall t :: t in existing && t !in target ==> t in Removable(existing, target);
    forall t | t in target ensures t in existing && existing[t] == target[t] {
      assert t !in Upserted(existing, target);
      assert t !in Added(existing, target) && t !in Updated(existing, target) && t !in Renamed(existing, target);
    }
  }

  // ----- snapshots: startup, full sync, restart

  lemma ConfigsOfTexts(m: Peers, ts: seq<string>, replace: bool)
    requires Enumerates(ts, SetOf(ts)) && (forall t :: t in ts ==> t in m)
    ensures AllSet(ConfigsAt(m, ts, replace))
    ensures forall c :: c in ConfigsAt(m, ts, replace) <==> exists t :: t in ts && c == SetConfig(m[t], replace)
    ensures KeysOf(ConfigsAt(m, ts, replace)) == set t | t in ts :: m[t].key
    ensures PrefixesDisjoint(m) ==> DisjointAllowed(ConfigsAt(m, ts, replace))
    ensures KeysApart(m) ==> DistinctKeys(ConfigsAt(m, ts, replace))
  {
    var cs := ConfigsAt(m, ts, replace);
    forall t | t in ts ensures SetConfig(m[t], replace) in cs {
      var i :| 0 <= i < |ts| && ts[i] == t;
      assert cs[i] == SetConfig(m[t], replace);
    }
    forall c | c in cs ensures exists t :: t in ts && c == SetConfig(m[t], replace) {
      var i :| 0 <= i < |cs| && cs[i] == c;
      assert ts[i] in ts;
    }
    forall k ensures k in KeysOf(cs) <==> k in set t | t in ts :: m[t].key {
      if k in KeysOf(cs) { var c :| c in cs && c.key == k; }
      if k in set t | t in ts :: m[t].key {
        var t :| t in ts && m[t].key == k;
        assert SetConfig(m[t], replace) in cs;
      }
    }
    forall i, j | 0 <= i < j < |cs|
      ensures PrefixesDisjoint(m) ==> SetOf(cs[i].allowed) !! SetOf(cs[j].allowed)
      ensures KeysApart(m) ==> cs[i].key != cs[j].key
    {
      assert ts[i] != ts[j] && ts[i] in m && ts[j] in m;
    }
  }

  // Pushing a store's peers as a full snapshot makes the device agree with it, whatever the
  // device held before, exactly when no two stored peers share a prefix.
  lemma SnapshotAgreesIff(m: Peers, configs: seq<PeerConfig>)
    requires FiledByKey(m) && IsSnapshot(m, configs)
    ensures Agrees(ApplyBatch(map[], configs), m) <==> PrefixesDisjoint(m)
  {
    BatchKeepsExclusive(map[], configs);
    if Agrees(ApplyBatch(map[], configs), m) {
      AgreementNeedsDisjoint(ApplyBatch(map[], configs), m);
    }
    if PrefixesDisjoint(m) {
      SnapshotAgrees(m, configs);
    }
  }

  lemma AgreementNeedsDisjoint(d: Device, m: Peers)
    requires FiledByKey(m) && Exclusive(d) && Agrees(d, m)
    ensures PrefixesDisjoint(m)
  {
  }

  lemma SnapshotAgrees(m: Peers, configs: seq<PeerConfig>)
    requires FiledByKey(m) && IsSnapshot(m, configs) && PrefixesDisjoint(m)
    ensures Agrees(ApplyBatch(map[], configs), m)
  {
    var d := ApplyBatch(map[], configs);
    FiledPeersApart(m);
    var ts :| SortedEnumeration(ts, m.Keys) && configs == ConfigsAt(m, ts, false);
    SortedIsEnumeration(ts, m.Keys);
    ConfigsOfTexts(m, ts, false);
    SettersOnEmpty(configs);
    forall t | t in m ensures m[t].key in d && d[m[t].key] == SetOf(m[t].allowed) {
      assert t in ts;
      assert SetConfig(m[t], false) in configs;
    }
    forall k | k in d ensures KeyText(k) in m {
      assert k in KeysOf(configs);
      var t :| t in ts && m[t].key == k;
    }
  }
}
