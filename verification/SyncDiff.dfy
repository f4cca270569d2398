// backend/wireguard/user_common.go, wireguard.go: peer batches and the difference between the
// peers there are and the peers there should be.
module SyncDiffs {
  import opened Wrappers
  import opened WgKeys
  import opened Enumerations
  import opened PeerStores
  import opened DesiredPeers
  import opened Kernel

  type Peers = map<string, PeerInfo>

  datatype SyncDiff = SyncDiff(
    removeKeys: seq<string>,
    upsertPeers: seq<PeerInfo>,
    peerConfigs: seq<PeerConfig>,
    targetPeers: Peers,
    changed: bool)

  function TargetOf(d: DesiredPeer): PeerInfo {
    PeerInfo(d.email, d.key, d.allowed)
  }

  function TargetPeers(desired: Desired): Peers {
    map t | t in desired :: TargetOf(desired[t])
  }

  function SetConfig(p: PeerInfo, replace: bool): PeerConfig {
    PeerConfig(p.key, false, replace, p.allowed)
  }

  function RemoveConfig(k: Key): PeerConfig {
    PeerConfig(k, true, false, [])
  }

  // ----- lists read off a map

  function PeersAt(m: Peers, ts: seq<string>): seq<PeerInfo>
    requires forall t :: t in ts ==> t in m
  {
    seq(|ts|, i requires 0 <= i < |ts| => m[ts[i]])
  }

  function ConfigsAt(m: Peers, ts: seq<string>, replace: bool): seq<PeerConfig>
    requires forall t :: t in ts ==> t in m
  {
    seq(|ts|, i requires 0 <= i < |ts| => SetConfig(m[ts[i]], replace))
  }

  function RemovesAt(ts: seq<string>): seq<PeerConfig>
    requires forall t :: t in ts ==> ParseKey(t).Some?
  {
    seq(|ts|, i requires 0 <= i < |ts| => RemoveConfig(ParseKey(ts[i]).value))
  }

  // ----- buildSyncDiff

  function Removable(existing: Peers, target: Peers): set<string> {
    set t | t in existing && t !in target && ParseKey(t).Some?
  }

  // Known keys whose allowed IPs change: the kernel is told to replace them.
  function Updated(existing: Peers, target: Peers): set<string> {
    set t | t in existing && t in target && existing[t].allowed != target[t].allowed && target[t].allowed != []
  }

  // Known keys that only change owner: the kernel already has them.
  function Renamed(existing: Peers, target: Peers): set<string> {
    set t | t in existing && t in target && existing[t].allowed == target[t].allowed
            && existing[t].email != target[t].email
  }

  function Added(existing: Peers, target: Peers): set<string> {
    set t | t in target && t !in existing && target[t].allowed != []
  }

  function Upserted(existing: Peers, target: Peers): set<string> {
    Updated(existing, target) + Renamed(existing, target) + Added(existing, target)
  }

  // What one run of buildSyncDiff returns when its two map loops visit the updated keys in the
  // order of updates and the added keys in the order of adds.
  ghost predicate IsSyncDiffBy(existing: Peers, desired: Desired, diff: SyncDiff,
                               updates: seq<string>, adds: seq<string>, upserts: seq<string>)
  {
    var target := TargetPeers(desired);
    && Enumerates(updates, Updated(existing, target))
    && Enumerates(adds, Added(existing, target))
    && SortedEnumeration(upserts, Upserted(existing, target))
    && SortedEnumeration(diff.removeKeys, Removable(existing, target))
    && diff.targetPeers == target
    && diff.upsertPeers == PeersAt(target, upserts)
    && diff.peerConfigs == ConfigsAt(target, updates, true) + ConfigsAt(target, adds, false) + RemovesAt(diff.removeKeys)
    && diff.changed == (diff.removeKeys != [] || diff.upsertPeers != [])
  }

  ghost predicate IsSyncDiff(existing: Peers, desired: Desired, diff: SyncDiff) {
    exists updates, adds, upserts :: IsSyncDiffBy(existing, desired, diff, updates, adds, upserts)
  }

  function BuildAddConfig(p: PeerInfo): Option<PeerConfig> {
    if p.allowed == [] then None else Some(SetConfig(p, false))
  }

  method BuildSyncDiff(existing: Peers, desired: Desired) returns (diff: SyncDiff)
    ensures IsSyncDiff(existing, desired, diff)
  {
    var target := TargetPeers(desired);
    var removeSet, upsertKeys, configs, updates := DiffExisting(existing, target);
    var addKeys, addConfigs, adds := DiffAdded(existing, target);
    upsertKeys := upsertKeys + addKeys;
    configs := configs + addConfigs;

    var removeKeys, removeConfigs := BuildRemoveConfigsForPeers(removeSet);
    assert (set t | t in removeSet && ParseKey(t).Some?) == Removable(existing, target);
    configs := configs + removeConfigs;

    var upserts := SortKeys(upsertKeys);
    var upsertPeers := PeersAt(target, upserts);
    diff := SyncDiff(removeKeys, upsertPeers, configs, target, |removeKeys| > 0 || |upsertPeers| > 0);
    assert IsSyncDiffBy(existing, desired, diff, updates, adds, upserts);
  }

  // The first loop of buildSyncDiff, over the existing peers.
  method DiffExisting(existing: Peers, target: Peers)
    returns (removeSet: set<string>, upsertKeys: set<string>, configs: seq<PeerConfig>, ghost updates: seq<string>)
    ensures removeSet == existing.Keys - target.Keys
    ensures upsertKeys == Updated(existing, target) + Renamed(existing, target)
    ensures Enumerates(updates, Updated(existing, target))
    ensures configs == ConfigsAt(target, updates, true)
  {
    removeSet, upsertKeys, configs, updates := {}, {}, [], [];
    var rest := existing.Keys;
    ghost var updated, renamed := Updated(existing, target), Renamed(existing, target);
    while rest != {}
      invariant rest <= existing.Keys
      invariant removeSet == existing.Keys - target.Keys - rest
      invariant Enumerates(updates, updated - rest)
      invariant upsertKeys == (updated + renamed) - rest
      invariant configs == ConfigsAt(target, updates, true)
      decreases rest
    {
      var t :| t in rest;
      ghost var before := rest;
      rest := rest - {t};
      if t !in target {
        removeSet := removeSet + {t};
      } else {
        var same := existing[t].allowed == target[t].allowed;
        if existing[t].email != target[t].email || !same {
          if !same {
            var config := BuildAddConfig(target[t]);
            if config.None? { continue; }
            configs := configs + [config.value.(replaceAllowedIPs := true)];
            EnumerationExtended(updates, updated - before, t);
            updates := updates + [t];
            assert updated - rest == updated - before + {t};
          }
          upsertKeys := upsertKeys + {t};
        }
      }
    }
    assert updated - rest == updated;
  }

  // The second loop of buildSyncDiff, over the target peers.
  method DiffAdded(existing: Peers, target: Peers)
    returns (addKeys: set<string>, configs: seq<PeerConfig>, ghost adds: seq<string>)
    ensures addKeys == Added(existing, target)
    ensures Enumerates(adds, Added(existing, target))
    ensures configs == ConfigsAt(target, adds, false)
  {
    addKeys, configs, adds := {}, [], [];
    var rest := target.Keys;
    ghost var added := Added(existing, target);
    while rest != {}
      invariant rest <= target.Keys
      invariant Enumerates(adds, added - rest)
      invariant addKeys == added - rest
      invariant configs == ConfigsAt(target, adds, false)
      decreases rest
    {
      var t :| t in rest;
      ghost var before := rest;
      rest := rest - {t};
      if t !in existing {
        var config := BuildAddConfig(target[t]);
        if config.None? { continue; }
        addKeys := addKeys + {t};
        configs := configs + [config.value];
        EnumerationExtended(adds, added - before, t);
        adds := adds + [t];
        assert added - rest == added - before + {t};
      }
    }
    assert added - rest == added;
  }

  method BuildRemoveConfigsForPeers(removeSet: set<string>) returns (valid: seq<string>, configs: seq<PeerConfig>)
    ensures SortedEnumeration(valid, set t | t in removeSet && ParseKey(t).Some?)
    ensures configs == RemovesAt(valid)
  {
    var keys := SortKeys(removeSet);
    valid, configs := [], [];
    for i := 0 to |keys|
      invariant Sorted(valid)
      invariant forall t :: t in valid <==> t in keys[..i] && ParseKey(t).Some?
      invariant configs == RemovesAt(valid)
    {
      assert forall x :: x in keys[..i] ==> Less(x, keys[i]);
      assert keys[..i + 1] == keys[..i] + [keys[i]];
      var key := ParseKey(keys[i]);
      if key.None? { continue; }
      configs := configs + [RemoveConfig(key.value)];
      valid := valid + [keys[i]];
    }
    assert keys[..|keys|] == keys;
  }

  // ----- key-sorted snapshots

  // The snapshot of m in key order; there is only one.
  ghost predicate IsSnapshot(m: Peers, configs: seq<PeerConfig>) {
    exists ts :: SortedEnumeration(ts, m.Keys) && configs == ConfigsAt(m, ts, false)
  }

  lemma SnapshotUnique(m: Peers, a: seq<PeerConfig>, b: seq<PeerConfig>)
    requires IsSnapshot(m, a) && IsSnapshot(m, b)
    ensures a == b
  {
    var s :| SortedEnumeration(s, m.Keys) && a == ConfigsAt(m, s, false);
    var t :| SortedEnumeration(t, m.Keys) && b == ConfigsAt(m, t, false);
    SortedUnique(s, t, m.Keys);
  }

  function WithIPs(m: Peers): Peers {
    map t | t in m && m[t].allowed != [] :: m[t]
  }

  // Peers without allowed IPs are skipped.
  method BuildTargetPeerConfigs(target: Peers) returns (configs: seq<PeerConfig>, applied: set<string>)
    ensures IsSnapshot(WithIPs(target), configs)
    ensures applied == WithIPs(target).Keys
    ensures (forall t :: t in applied <==> t in target && target[t].allowed != []) && forall c :: c in configs ==> c.allowed != []
  {
    var keys := SortKeys(target.Keys);
    configs, applied := [], {};
    ghost var m, used: seq<string> := WithIPs(target), [];
    for i := 0 to |keys|
      invariant Sorted(used)
      invariant forall t :: t in used <==> t in keys[..i] && t in m
      invariant configs == ConfigsAt(m, used, false)
      invariant applied == SetOf(used)
    {
      assert keys[..i + 1] == keys[..i] + [keys[i]];
      var config := BuildAddConfig(target[keys[i]]);
      if config.None? { continue; }
      SnapshotExtended(m, used, keys[i]);
      configs := configs + [config.value];
      applied := applied + {keys[i]};
      used := used + [keys[i]];
    }
    assert keys[..|keys|] == keys;
    assert SortedEnumeration(used, m.Keys);
    forall c | c in configs ensures c.allowed != [] {
      var i :| 0 <= i < |configs| && configs[i] == c;
      assert used[i] in used;
    }
  }

  lemma SnapshotExtended(m: Peers, used: seq<string>, t: string)
    requires Sorted(used) && (forall u :: u in used ==> u in m && Less(u, t)) && t in m
    ensures Sorted(used + [t]) && SetOf(used + [t]) == SetOf(used) + {t}
    ensures ConfigsAt(m, used + [t], false) == ConfigsAt(m, used, false) + [SetConfig(m[t], false)]
  {
  }

  method FilterUpsertsByAppliedKeys(upserts: seq<PeerInfo>, applied: set<string>) returns (filtered: seq<PeerInfo>)
    ensures |applied| == |upserts| ==> filtered == upserts
    ensures |applied| != |upserts| ==> filtered == AppliedOnly(upserts, applied)
  {
    if |applied| == |upserts| { return upserts; }
    filtered := [];
    for i := 0 to |upserts|
      invariant filtered == AppliedOnly(upserts[..i], applied)
    {
      assert upserts[..i + 1][..i] == upserts[..i];
      if upserts[i].Text() in applied {
        filtered := filtered + [upserts[i]];
      }
    }
    assert upserts[..|upserts|] == upserts;
  }

  function AppliedOnly(ps: seq<PeerInfo>, applied: set<string>): seq<PeerInfo> {
    if ps == [] then []
    else AppliedOnly(ps[..|ps| - 1], applied) + if ps[|ps| - 1].Text() in applied then [ps[|ps| - 1]] else []
  }

  // buildPeerConfigsForRestart, on the peers of a store in whatever order GetAll returned them.
  method BuildPeerConfigsForRestart(peers: seq<PeerInfo>, ghost s: Store) returns (r: Result<seq<PeerConfig>, string>)
    requires WellKeyed(s) && Enumerates(peers, Entries(s))
    ensures r.Ok? <==> forall t :: t in s.peers ==> s.peers[t].allowed != []
    ensures r.Ok? ==> IsSnapshot(s.peers, r.value)
  {
    var ordered, ts := SortByKey(peers, s);
    r := ConfigsOrFirstBare(ordered);
    assert forall j :: 0 <= j < |ts| ==> ordered[j] == s.peers[ts[j]] && ts[j] in s.peers;
    if r.Ok? {
      forall t | t in s.peers ensures s.peers[t].allowed != [] {
        var j :| 0 <= j < |ts| && ts[j] == t;
        assert ordered[j].allowed != [];
      }
      assert r.value == ConfigsAt(s.peers, ts, false);
    }
  }

  // The loop of buildPeerConfigsForRestart: one config a peer, or the email of a peer without IPs.
  method ConfigsOrFirstBare(ordered: seq<PeerInfo>) returns (r: Result<seq<PeerConfig>, string>)
    ensures r.Ok? <==> forall j :: 0 <= j < |ordered| ==> ordered[j].allowed != []
    ensures r.Ok? ==> |r.value| == |ordered| && forall j :: 0 <= j < |ordered| ==> r.value[j] == SetConfig(ordered[j], false)
  {
    var configs: seq<PeerConfig> := [];
    for i := 0 to |ordered|
      invariant forall j :: 0 <= j < i ==> ordered[j].allowed != []
      invariant |configs| == i && forall j :: 0 <= j < i ==> configs[j] == SetConfig(ordered[j], false)
    {
      if ordered[i].allowed == [] {
        return Err(ordered[i].email);
      }
      configs := configs + [SetConfig(ordered[i], false)];
    }
    r := Ok(configs);
  }

  // sort.Slice by key text.
  method SortByKey(peers: seq<PeerInfo>, ghost s: Store) returns (ordered: seq<PeerInfo>, ghost ts: seq<string>)
    requires WellKeyed(s) && Enumerates(peers, Entries(s))
    ensures SortedEnumeration(ts, s.peers.Keys)
    ensures ordered == PeersAt(s.peers, ts)
  {
    var byKey := ByKey(peers, s);
    var keys := SortKeys(byKey.Keys);
    ts := keys;
    ordered := PeersAt(byKey, keys);
  }

  method ByKey(peers: seq<PeerInfo>, ghost s: Store) returns (byKey: Peers)
    requires WellKeyed(s) && Enumerates(peers, Entries(s))
    ensures byKey == s.peers
  {
    byKey := map[];
    for i := 0 to |peers|
      invariant forall t :: t in byKey ==> t in s.peers && byKey[t] == s.peers[t]
      invariant forall j :: 0 <= j < i ==> peers[j].Text() in byKey
    {
      FiledUnderText(s, peers[i]);
      byKey := byKey[peers[i].Text() := peers[i]];
    }
    AllListed(peers, s, byKey);
  }

  lemma FiledUnderText(s: Store, p: PeerInfo)
    requires WellKeyed(s) && p in Entries(s)
    ensures p.Text() in s.peers && s.peers[p.Text()] == p
  {
  }

  lemma AllListed(peers: seq<PeerInfo>, s: Store, byKey: Peers)
    requires WellKeyed(s) && Enumerates(peers, Entries(s))
    requires forall t :: t in byKey ==> t in s.peers && byKey[t] == s.peers[t]
    requires forall j :: 0 <= j < |peers| ==> peers[j].Text() in byKey
    ensures byKey == s.peers
  {
    forall t | t in s.peers ensures t in byKey {
      assert s.peers[t] in Entries(s);
      var j :| 0 <= j < |peers| && peers[j] == s.peers[t];
    }
  }

  // ----- what does not depend on the order of a map

  lemma ConfigsOfSet(m: Peers, ts: seq<string>, us: seq<string>, all: set<string>, replace: bool)
    requires Enumerates(ts, all) && Enumerates(us, all) && forall t :: t in all ==> t in m
    ensures SetOf(ConfigsAt(m, ts, replace)) == SetOf(ConfigsAt(m, us, replace))
  {
    ConfigsWithin(m, ts, us, replace);
    ConfigsWithin(m, us, ts, replace);
  }

  lemma ConfigsWithin(m: Peers, ts: seq<string>, us: seq<string>, replace: bool)
    requires (forall t :: t in ts ==> t in us) && forall u :: u in us ==> u in m
    ensures SetOf(ConfigsAt(m, ts, replace)) <= SetOf(ConfigsAt(m, us, replace))
  {
    forall c | c in ConfigsAt(m, ts, replace) ensures c in ConfigsAt(m, us, replace) {
      var i :| 0 <= i < |ts| && ConfigsAt(m, ts, replace)[i] == c;
      assert ts[i] in ts;
      var j :| 0 <= j < |us| && us[j] == ts[i];
      assert ConfigsAt(m, us, replace)[j] == c;
    }
  }

  // For every order in which Go walks the two maps, a diff has the same removals and upserts in the same order,
  // the same flag and the same set of configs.
  lemma DiffUnique(existing: Peers, desired: Desired, a: SyncDiff, b: SyncDiff)
    requires IsSyncDiff(existing, desired, a) && IsSyncDiff(existing, desired, b)
    ensures a.removeKeys == b.removeKeys && a.upsertPeers == b.upsertPeers && a.targetPeers == b.targetPeers && a.changed == b.changed
    ensures SetOf(a.peerConfigs) == SetOf(b.peerConfigs)
  {
    var target := TargetPeers(desired);
    var us1, as1, ts1 :| IsSyncDiffBy(existing, desired, a, us1, as1, ts1);
    var us2, as2, ts2 :| IsSyncDiffBy(existing, desired, b, us2, as2, ts2);
    SortedUnique(ts1, ts2, Upserted(existing, target));
    SortedUnique(a.removeKeys, b.removeKeys, Removable(existing, target));
    ConfigsOfSet(target, us1, us2, Updated(existing, target), true);
    ConfigsOfSet(target, as1, as2, Added(existing, target), false);
    ThreeParts(ConfigsAt(target, us1, true), ConfigsAt(target, as1, false), RemovesAt(a.removeKeys));
    ThreeParts(ConfigsAt(target, us2, true), ConfigsAt(target, as2, false), RemovesAt(b.removeKeys));
  }

  // A diff configures no peer without addresses; what it configures is wanted, and what it removes is not.
  lemma ConfigsMeaning(existing: Peers, desired: Desired, diff: SyncDiff, c: PeerConfig)
    requires IsSyncDiff(existing, desired, diff) && c in diff.peerConfigs
    ensures if c.remove then exists t :: t in existing && t !in desired && ParseKey(t) == Some(c.key)
            else c.allowed != [] && exists t :: t in desired && desired[t].key == c.key && desired[t].allowed == c.allowed
  {
    var target := TargetPeers(desired);
    var updates, adds, upserts :| IsSyncDiffBy(existing, desired, diff, updates, adds, upserts);
    var first, second, third := ConfigsAt(target, updates, true), ConfigsAt(target, adds, false), RemovesAt(diff.removeKeys);
    assert diff.peerConfigs == first + second + third;
    if c in first {
      var i :| 0 <= i < |first| && first[i] == c;
      assert updates[i] in updates && updates[i] in desired;
    } else if c in second {
      var i :| 0 <= i < |second| && second[i] == c;
      assert adds[i] in adds && adds[i] in desired;
    } else {
      var i :| 0 <= i < |third| && third[i] == c;
      assert diff.removeKeys[i] in diff.removeKeys;
    }
  }

  // A batch has first the k peers whose allowed IPs are replaced, then the new ones, then the removals, which are
  // in the order of their key texts.
  lemma ConfigsInOrder(existing: Peers, desired: Desired, diff: SyncDiff) returns (k: nat)
    requires IsSyncDiff(existing, desired, diff)
    ensures var cs, n := diff.peerConfigs, |diff.peerConfigs| - |diff.removeKeys|;
            && k <= n && Setting(cs[..k], true) && Setting(cs[k..n], false) && Removing(cs[n..], diff.removeKeys)
  {
    var target := TargetPeers(desired);
    var updates, adds, upserts :| IsSyncDiffBy(existing, desired, diff, updates, adds, upserts);
    var first, second, third := ConfigsAt(target, updates, true), ConfigsAt(target, adds, false), RemovesAt(diff.removeKeys);
    k := |first|;
    SlicesOfParts(first, second, third);
  }

  ghost predicate Setting(cs: seq<PeerConfig>, replace: bool) {
    forall i :: 0 <= i < |cs| ==> !cs[i].remove && cs[i].replaceAllowedIPs == replace
  }

  ghost predicate Removing(cs: seq<PeerConfig>, keys: seq<string>) {
    |cs| == |keys| && forall i :: 0 <= i < |cs| ==> cs[i].remove && ParseKey(keys[i]) == Some(cs[i].key)
  }

  lemma SlicesOfParts(x: seq<PeerConfig>, y: seq<PeerConfig>, z: seq<PeerConfig>)
    ensures var cs := x + y + z;
            cs[..|x|] == x && cs[|x|..|cs| - |z|] == y && cs[|cs| - |z|..] == z
  {
  }

  lemma ThreeParts(x: seq<PeerConfig>, y: seq<PeerConfig>, z: seq<PeerConfig>)
    ensures SetOf(x + y + z) == SetOf(x) + SetOf(y) + SetOf(z)
  {
  }

  function KeyIn(applied: set<string>): PeerInfo -> bool {
    (p: PeerInfo) => p.Text() in applied
  }

  // The slow path keeps exactly the upserts whose key was applied, in order.
  lemma AppliedFilters(ps: seq<PeerInfo>, applied: set<string>)
    ensures Filters(ps, KeyIn(applied), AppliedOnly(ps, applied))
  {
    AppliedFiltersBy(ps, applied, KeyIn(applied));
  }

  lemma {:induction false} AppliedFiltersBy(ps: seq<PeerInfo>, applied: set<string>, keep: PeerInfo -> bool)
    requires forall p :: keep(p) == (p.Text() in applied)
    ensures Filters(ps, keep, AppliedOnly(ps, applied))
  {
    if ps == [] {
      FiltersNothing(keep);
    } else {
      var front, last := ps[..|ps| - 1], ps[|ps| - 1];
      var kept := AppliedOnly(front, applied);
      assert ps == front + [last];
      AppliedUnfolds(ps, applied);
      assert AppliedOnly(ps, applied) == if keep(last) then kept + [last] else kept;
      AppliedFiltersBy(front, applied, keep);
      FiltersSnoc(front, last, keep, kept, ps, AppliedOnly(ps, applied));
    }
  }

  lemma AppliedUnfolds(ps: seq<PeerInfo>, applied: set<string>)
    requires ps != []
    ensures var front, last := AppliedOnly(ps[..|ps| - 1], applied), ps[|ps| - 1];
            AppliedOnly(ps, applied) == if last.Text() in applied then front + [last] else front
  {
  }
}
