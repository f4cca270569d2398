// What one partial reconciliation does to the store and to the device, whatever key texts the
// request uses.
module PartialSyncTheorems {
  import opened Wrappers
  import opened Cidr
  import opened WgKeys
  import opened Enumerations
  import opened PeerStores
  import opened DesiredPeers
  import opened Kernel
  import opened SyncDiffs
  import opened SyncSteps
  import opened SyncTheorems

  // A request that got past collection and the ownership check, with an email index that is right
  // about its users.
  ghost predicate Admitted(s: Store, target: Peers, touched: set<string>) {
    && IndexRight(s, touched)
    && WellFormed(target)
    && (forall t :: t in target ==> target[t].email in touched)
    && (forall t :: t in target && t in s.peers ==> s.peers[t].email in touched)
  }

  lemma RequestIsAdmitted(s: Store, us: set<User>, cfg: Config, desired: Desired)
    requires IndexRight(s, Touched(us)) && EmailsIdentify(us) && Compatible(us, cfg) && IsDesired(desired, us, cfg)
    requires !OwnedByOther(s, desired, Touched(us))
    ensures Admitted(s, TargetPeers(desired), Touched(us))
  {
    TargetIsWellFormed(desired, us, cfg);
    forall t | t in desired && t in s.peers ensures s.peers[t].email in Touched(us) {
      if s.peers[t].email == desired[t].email {
        assert desired[t].email in Touched(us);
      }
    }
  }

  function WantedKeys(target: Peers): set<Key> {
    set t | t in target :: target[t].key
  }

  function WantedPrefixes(target: Peers): set<Prefix> {
    set t, p | t in target && p in target[t].allowed :: p
  }

  // ----- what the diff consists of

  // A wanted peer the kernel has to hear of.
  predicate Pushed(s: Store, target: Peers, t: string)
    requires t in target
  {
    !(t in s.peers && s.peers[t].allowed == target[t].allowed)
  }

  // A stored key the diff removes.
  predicate Dropped(s: Store, touched: set<string>, target: Peers, t: string) {
    t in s.peers && s.peers[t].email in touched && t !in target
  }

  ghost predicate StorePlan(s: Store, touched: set<string>, target: Peers, ts: seq<string>, removeKeys: seq<string>) {
    && NoDuplicates(ts)
    && (forall t :: t in ts <==> t in target && !(t in s.peers && s.peers[t] == target[t]))
    && (forall t :: t in removeKeys <==> Dropped(s, touched, target, t))
  }

  ghost predicate DevicePlan(s: Store, target: Peers, updates: seq<string>, adds: seq<string>) {
    && NoDuplicates(updates) && NoDuplicates(adds)
    && (forall t :: t in updates <==> t in target && t in s.peers && Pushed(s, target, t))
    && (forall t :: t in adds <==> t in target && t !in s.peers)
  }

  lemma TouchedPeersShape(s: Store, touched: set<string>)
    requires IndexRight(s, touched)
    ensures forall t :: t in TouchedPeers(s, touched) <==> t in s.peers && s.peers[t].email in touched
    ensures forall t :: t in TouchedPeers(s, touched) ==> TouchedPeers(s, touched)[t] == s.peers[t]
  {
  }

  lemma StoredKeysParse(m: Peers)
    requires FiledByKey(m)
    ensures forall t :: t in m ==> ParseKey(t) == Some(m[t].key)
  {
    forall t | t in m ensures ParseKey(t) == Some(m[t].key) { ParseOfText(m[t].key); }
  }

  ghost predicate IsTouchedPart(s: Store, touched: set<string>, existing: Peers) {
    && (forall t :: t in existing <==> t in s.peers && s.peers[t].email in touched)
    && (forall t :: t in existing ==> existing[t] == s.peers[t] && ParseKey(t) == Some(existing[t].key))
  }

  lemma DiffSets(s: Store, touched: set<string>, target: Peers, existing: Peers, t: string)
    requires Admitted(s, target, touched) && IsTouchedPart(s, touched, existing)
    ensures t in Updated(existing, target) <==> t in target && t in s.peers && Pushed(s, target, t)
    ensures t in Added(existing, target) <==> t in target && t !in s.peers
    ensures t in Removable(existing, target) <==> Dropped(s, touched, target, t)
    ensures t in Upserted(existing, target) <==> t in target && !(t in s.peers && s.peers[t] == target[t])
  {
    if t in target && t in s.peers {
      assert ParseKey(t) == Some(target[t].key) && t in existing;
    }
  }

  lemma DiffIsPlanned(s: Store, touched: set<string>, target: Peers,
                      updates: seq<string>, adds: seq<string>, ts: seq<string>, removeKeys: seq<string>)
    requires Admitted(s, target, touched)
    requires Enumerates(updates, Updated(TouchedPeers(s, touched), target))
    requires Enumerates(adds, Added(TouchedPeers(s, touched), target))
    requires SortedEnumeration(ts, Upserted(TouchedPeers(s, touched), target))
    requires SortedEnumeration(removeKeys, Removable(TouchedPeers(s, touched), target))
    ensures DevicePlan(s, target, updates, adds) && StorePlan(s, touched, target, ts, removeKeys)
  {
    var existing := TouchedPeers(s, touched);
    TouchedPeersShape(s, touched);
    StoredKeysParse(s.peers);
    SortedIsEnumeration(ts, Upserted(existing, target));
    SortedIsEnumeration(removeKeys, Removable(existing, target));
    forall t { DiffSets(s, touched, target, existing, t); }
  }

  // ----- the store

  lemma UpsertEmailsApart(target: Peers, ts: seq<string>)
    requires EmailsDistinct(target) && NoDuplicates(ts) && forall t :: t in ts ==> t in target
    ensures EmailsApart(PeersAt(target, ts))
    ensures forall p :: p in PeersAt(target, ts) <==> exists t :: t in ts && target[t] == p
  {
    var ps := PeersAt(target, ts);
    forall i, j | 0 <= i < j < |ps| ensures ps[i].email != ps[j].email {
      assert ts[i] in target && ts[j] in target && ts[i] != ts[j];
    }
    forall p | p in ps ensures exists t :: t in ts && target[t] == p {
      var i :| 0 <= i < |ps| && ps[i] == p;
      assert ts[i] in ts;
    }
    forall t | t in ts ensures target[t] in ps {
      var i :| 0 <= i < |ts| && ts[i] == t;
      assert ps[i] == target[t];
    }
  }

  lemma UpsertsApart(target: Peers, ts: seq<string>)
    requires EmailsDistinct(target) && KeysApart(target) && NoDuplicates(ts) && forall t :: t in ts ==> t in target
    ensures DistinctPeers(PeersAt(target, ts))
  {
    var ps := PeersAt(target, ts);
    forall i, j | 0 <= i < j < |ps| ensures ps[i].Text() != ps[j].Text() && ps[i].email != ps[j].email {
      assert ts[i] in target && ts[j] in target && ts[i] != ts[j];
      if ps[i].Text() == ps[j].Text() { KeyTextInjective(ps[i].key, ps[j].key); }
    }
  }

  // An entry of the old store that is still there: its user is not in the request, and nobody in
  // the request wants its key.
  ghost predicate Stays(s: Store, touched: set<string>, target: Peers, q: PeerInfo) {
    q in Entries(s) && q.email !in touched && q.key !in WantedKeys(target)
  }

  // Whether the upserts of ts displace an entry.
  ghost predicate Displaced(target: Peers, ts: seq<string>, q: PeerInfo)
    requires forall t :: t in ts ==> t in target
  {
    exists t :: t in ts && (target[t].Text() == q.Text() || target[t].email == q.email)
  }

  // A key that is wanted and stored for a user outside the request is upserted.
  lemma ForeignKeyUpserted(s: Store, touched: set<string>, target: Peers, ts: seq<string>, q: PeerInfo, x: string)
    requires Admitted(s, target, touched) && q in Entries(s) && q.email !in touched
    requires forall t :: t in ts <==> t in target && !(t in s.peers && s.peers[t] == target[t])
    requires x in target && target[x].key == q.key
    ensures x in ts
  {
    assert q.Text() in s.peers && s.peers[q.Text()] == q;
    assert x in s.peers ==> s.peers[x].Text() == x;
  }

  lemma SurvivorIff(s: Store, touched: set<string>, target: Peers, ts: seq<string>, removeKeys: seq<string>, q: PeerInfo)
    requires Admitted(s, target, touched) && KeysApart(target) && StorePlan(s, touched, target, ts, removeKeys)
    requires q in Entries(s) && forall t :: t in ts ==> t in target
    ensures q.Text() !in removeKeys && !Displaced(target, ts, q)
       <==> Stays(s, touched, target, q) || (q.Text() in target && q.Text() !in ts)
  {
    var t := q.Text();
    assert t in s.peers && s.peers[t] == q;
    StoredKeysParse(s.peers);
    if q.email in touched {
      if t in target && t in ts {
        assert target[t].Text() == t;
      } else if t in target {
        forall u | u in ts ensures target[u].Text() != t && target[u].email != q.email {
          assert u != t && target[t] == q;
          if target[u].Text() == t { KeyTextInjective(target[u].key, q.key); }
        }
      }
    } else {
      assert t !in target;
      forall x | x in target && target[x].key == q.key ensures x in ts {
        ForeignKeyUpserted(s, touched, target, ts, q, x);
      }
      forall x | x in ts && target[x].Text() == t ensures target[x].key == q.key {
        KeyTextInjective(target[x].key, q.key);
      }
    }
  }

  lemma EntryAfter(s: Store, touched: set<string>, target: Peers, ts: seq<string>, removeKeys: seq<string>, q: PeerInfo)
    requires Admitted(s, target, touched) && KeysApart(target) && StorePlan(s, touched, target, ts, removeKeys)
    requires forall t :: t in ts ==> t in target
    ensures (exists t :: t in ts && target[t] == q) || (q in Entries(s) && q.Text() !in removeKeys && !Displaced(target, ts, q))
       <==> q in target.Values || Stays(s, touched, target, q)
  {
    if q in target.Values {
      var x :| x in target && target[x] == q;
      if x !in ts {
        assert s.peers[x] == q && q.Text() == x;
        SurvivorIff(s, touched, target, ts, removeKeys, q);
      }
    } else if q in Entries(s) {
      SurvivorIff(s, touched, target, ts, removeKeys, q);
      assert q.Text() in s.peers && s.peers[q.Text()] == q;
    }
  }

  // As long as no two texts of the request spell one key: the store has the wanted peers, and of the
  // other users the entries whose key nobody in the request wants.
  lemma PartialEntries(s: Store, touched: set<string>, target: Peers, ts: seq<string>, removeKeys: seq<string>)
    requires Admitted(s, target, touched) && KeysApart(target) && StorePlan(s, touched, target, ts, removeKeys)
    requires forall t :: t in ts ==> t in target
    ensures WellKeyed(AfterChanges(s, removeKeys, PeersAt(target, ts)))
    ensures forall q :: q in Entries(AfterChanges(s, removeKeys, PeersAt(target, ts)))
              <==> q in target.Values || Stays(s, touched, target, q)
  {
    var ups := PeersAt(target, ts);
    UpsertsApart(target, ts);
    ApplyChangesShape(s, removeKeys, ups, touched);
    forall q ensures q in Entries(AfterChanges(s, removeKeys, ups)) <==> q in target.Values || Stays(s, touched, target, q) {
      EntryAfter(s, touched, target, ts, removeKeys, q);
      MergedIff((set p | p in Entries(s) && p.Text() !in removeKeys), target, ts, q);
    }
  }

  lemma MergedIff(entries: set<PeerInfo>, target: Peers, ts: seq<string>, q: PeerInfo)
    requires EmailsDistinct(target) && NoDuplicates(ts) && forall t :: t in ts ==> t in target
    ensures q in Merged(entries, PeersAt(target, ts))
       <==> (exists t :: t in ts && target[t] == q) || (q in entries && !Displaced(target, ts, q))
  {
    UpsertEmailsApart(target, ts);
    if t :| t in ts && (target[t].Text() == q.Text() || target[t].email == q.email) {
      assert target[t] in PeersAt(target, ts);
    }
  }

  // Whatever the texts: the email index stays right about the users of the request and about any others
  // it was right about, inverse indexes stay inverse, and a wanted key that was not stored under the
  // text of the request ends up with one of the wanted peers.
  lemma PartialStoreKeeps(s: Store, touched: set<string>, target: Peers, ts: seq<string>, removeKeys: seq<string>,
                          emails: set<string>)
    requires Admitted(s, target, touched) && StorePlan(s, touched, target, ts, removeKeys)
    requires IndexRight(s, emails) && touched <= emails
    requires forall t :: t in ts ==> t in target
    ensures var after := AfterChanges(s, removeKeys, PeersAt(target, ts));
            && IndexRight(after, emails) && (Bijective(s) ==> Bijective(after))
            && forall t :: t in ts ==> target[t].Text() in after.peers && after.peers[target[t].Text()] in target.Values
  {
    RemoveAllShape(s, removeKeys, emails);
    UpsertEmailsApart(target, ts);
    UpsertAllKeeps(RemoveAll(s, removeKeys), PeersAt(target, ts), emails);
    var after := AfterChanges(s, removeKeys, PeersAt(target, ts));
    forall t | t in ts ensures target[t].Text() in after.peers && after.peers[target[t].Text()] in target.Values {
      assert target[t] in PeersAt(target, ts);
      var u :| u in ts && target[u] == after.peers[target[t].Text()];
    }
  }

  lemma DroppedKeys(s: Store, touched: set<string>, target: Peers, ts: seq<string>, removeKeys: seq<string>)
    requires StorePlan(s, touched, target, ts, removeKeys)
    ensures Enumerates(RemovedBy(s, removeKeys), set t | t in s.peers && Dropped(s, touched, target, t))
  {
    RemovedByShape(s, removeKeys);
  }

  // Which keys are stored afterwards, whatever the texts.
  lemma KeyAfterIff(s: Store, touched: set<string>, target: Peers, ts: seq<string>, removeKeys: seq<string>, t: string)
    requires Admitted(s, target, touched) && StorePlan(s, touched, target, ts, removeKeys)
    requires forall x :: x in ts ==> x in target
    ensures t in AfterChanges(s, removeKeys, PeersAt(target, ts)).peers
       <==> (exists x :: x in ts && target[x].Text() == t)
            || (t in s.peers && !Dropped(s, touched, target, t) && forall x :: x in ts ==> target[x].email != s.peers[t].email)
  {
    var mid, ps := RemoveAll(s, removeKeys), PeersAt(target, ts);
    RemoveAllShape(s, removeKeys, touched);
    UpsertEmailsApart(target, ts);
    UpsertedKeysIff(mid, ps, touched, t);
    assert forall x :: x in ts ==> target[x] in ps;
  }

  // A user of the request has a stored key that the text x of the request spells in another way.
  ghost predicate RespelledAs(s: Store, touched: set<string>, target: Peers, x: string)
    requires x in target
  {
    target[x].Text() != x && target[x].Text() in s.peers && s.peers[target[x].Text()].email in touched
  }

  // And no text of the request spells it as it is stored.
  ghost predicate RespelledAway(s: Store, touched: set<string>, target: Peers, x: string)
    requires x in target
  {
    RespelledAs(s, touched, target, x) && target[x].Text() !in target
  }

  lemma RespelledIsUpserted(s: Store, touched: set<string>, target: Peers, ts: seq<string>, x: string)
    requires Admitted(s, target, touched) && x in target && target[x].Text() != x
    requires forall t :: t in ts <==> t in target && !(t in s.peers && s.peers[t] == target[t])
    ensures x in ts
  {
    StoredKeysParse(s.peers);
    assert x in s.peers ==> s.peers[x].Text() == x;
  }

  lemma DroppedAndGone(s: Store, touched: set<string>, target: Peers, ts: seq<string>, removeKeys: seq<string>, t: string)
    requires Admitted(s, target, touched) && StorePlan(s, touched, target, ts, removeKeys)
    requires (forall x :: x in ts ==> x in target) && t in s.peers
    requires forall x :: x in target ==> !RespelledAway(s, touched, target, x)
    ensures Dropped(s, touched, target, t) <==> t !in AfterChanges(s, removeKeys, PeersAt(target, ts)).peers
  {
    KeyAfterIff(s, touched, target, ts, removeKeys, t);
    StoredKeysParse(s.peers);
    if Dropped(s, touched, target, t) {
      forall x | x in ts ensures target[x].Text() != t { assert !RespelledAway(s, touched, target, x); }
    } else {
      forall x | x in ts && target[x].email == s.peers[t].email ensures t in ts && target[t].Text() == t {
        assert t in target && target[t].key == s.peers[t].key;
        assert x != t ==> target[x].email != target[t].email;
      }
    }
  }

  // ----- the device

  ghost predicate SameKeys(d: Device, m: Peers) {
    && (forall t :: t in m ==> m[t].key in d)
    && (forall k :: k in d ==> KeyText(k) in m)
  }

  // Prefixes the batch configures on some peer.
  ghost function PushedPrefixes(s: Store, target: Peers): set<Prefix> {
    set t, p | t in target && Pushed(s, target, t) && p in target[t].allowed :: p
  }

  function SettersAt(target: Peers, updates: seq<string>, adds: seq<string>): seq<PeerConfig>
    requires (forall t :: t in updates ==> t in target) && (forall t :: t in adds ==> t in target)
  {
    ConfigsAt(target, updates, true) + ConfigsAt(target, adds, false)
  }

  // Where a setter comes from.
  lemma SetterAt(target: Peers, updates: seq<string>, adds: seq<string>, i: nat)
    requires (forall t :: t in updates ==> t in target) && (forall t :: t in adds ==> t in target)
    requires i < |updates| + |adds|
    ensures var t := (updates + adds)[i];
            t in target && t in updates + adds && SettersAt(target, updates, adds)[i] == SetConfig(target[t], i < |updates|)
  {
  }

  lemma SetterContents(s: Store, target: Peers, updates: seq<string>, adds: seq<string>)
    requires DevicePlan(s, target, updates, adds)
    ensures (forall t :: t in updates ==> t in target) && (forall t :: t in adds ==> t in target)
    ensures forall t :: t in target && Pushed(s, target, t) ==> SetConfig(target[t], t in s.peers) in SettersAt(target, updates, adds)
    ensures forall c :: c in SettersAt(target, updates, adds) ==>
              exists t :: t in target && Pushed(s, target, t) && c == SetConfig(target[t], t in s.peers)
  {
    var cs := SettersAt(target, updates, adds);
    forall t | t in target && Pushed(s, target, t) ensures SetConfig(target[t], t in s.peers) in cs {
      if t in s.peers {
        var i :| 0 <= i < |updates| && updates[i] == t;
        assert cs[i] == SetConfig(target[t], true);
      } else {
        var i :| 0 <= i < |adds| && adds[i] == t;
        assert cs[|updates| + i] == SetConfig(target[t], false);
      }
    }
    forall c | c in cs ensures exists t :: t in target && Pushed(s, target, t) && c == SetConfig(target[t], t in s.peers) {
      var i :| 0 <= i < |cs| && cs[i] == c;
      SetterAt(target, updates, adds, i);
      if i < |updates| { assert updates[i] in updates; } else { assert adds[i - |updates|] in adds; }
    }
  }

  lemma SettersDisjoint(s: Store, target: Peers, updates: seq<string>, adds: seq<string>)
    requires DevicePlan(s, target, updates, adds) && PrefixesDisjoint(target)
    requires (forall t :: t in updates ==> t in target) && (forall t :: t in adds ==> t in target)
    ensures AllSet(SettersAt(target, updates, adds)) && DisjointAllowed(SettersAt(target, updates, adds))
    ensures KeysApart(target) ==> DistinctKeys(SettersAt(target, updates, adds))
  {
    var ts, cs := updates + adds, SettersAt(target, updates, adds);
    forall i, j | 0 <= i < j < |cs|
      ensures SetOf(cs[i].allowed) !! SetOf(cs[j].allowed) && (KeysApart(target) ==> cs[i].key != cs[j].key)
    {
      SetterAt(target, updates, adds, i);
      SetterAt(target, updates, adds, j);
      assert ts[i] != ts[j] by {
        if i < |updates| <= j { assert updates[i] in updates && adds[j - |updates|] in adds; }
      }
    }
  }

  lemma SetterPrefixes(s: Store, target: Peers, updates: seq<string>, adds: seq<string>)
    requires DevicePlan(s, target, updates, adds)
    requires (forall t :: t in updates ==> t in target) && (forall t :: t in adds ==> t in target)
    ensures PrefixesOf(SettersAt(target, updates, adds)) == PushedPrefixes(s, target)
  {
    var cs := SettersAt(target, updates, adds);
    SetterContents(s, target, updates, adds);
    forall p ensures p in PrefixesOf(cs) <==> p in PushedPrefixes(s, target) {
      if p in PrefixesOf(cs) {
        var c :| c in cs && p in c.allowed;
        var t :| t in target && Pushed(s, target, t) && c == SetConfig(target[t], t in s.peers);
      }
      if p in PushedPrefixes(s, target) {
        var t :| t in target && Pushed(s, target, t) && p in target[t].allowed;
        assert SetConfig(target[t], t in s.peers) in cs;
      }
    }
  }

  // What a pushed peer has afterwards: its list, and if its key was on the device under a text the
  // request does not use, what that peer had and the batch did not give away.
  ghost function PushedTo(d: Device, s: Store, target: Peers, t: string): set<Prefix>
    requires t in target
  {
    SetTo(d, SetConfig(target[t], t in s.peers), PushedPrefixes(s, target))
  }

  // The device after the setting part of the batch.
  ghost predicate DeviceSet(d: Device, s: Store, target: Peers, r: Device) {
    && (forall k :: k in r <==> k in d || k in WantedKeys(target))
    && (forall t :: t in target && Pushed(s, target, t) ==> r[target[t].key] == PushedTo(d, s, target, t))
    && (forall t :: t in target && !Pushed(s, target, t) ==>
          target[t].key in d && r[target[t].key] == d[target[t].key] - PushedPrefixes(s, target))
    && (forall k :: k in d && k !in WantedKeys(target) ==> r[k] == d[k] - PushedPrefixes(s, target))
  }

  lemma DeviceAfterSetters(d: Device, s: Store, touched: set<string>, target: Peers, updates: seq<string>, adds: seq<string>)
    requires Admitted(s, target, touched) && KeysApart(target) && DevicePlan(s, target, updates, adds)
    requires SameKeys(d, s.peers)
    requires (forall t :: t in updates ==> t in target) && (forall t :: t in adds ==> t in target)
    ensures DeviceSet(d, s, target, ApplyBatch(d, SettersAt(target, updates, adds)))
  {
    var cs := SettersAt(target, updates, adds);
    SettersDisjoint(s, target, updates, adds);
    SettersShape(d, cs);
    SetterContents(s, target, updates, adds);
    SetterPrefixes(s, target, updates, adds);
    SettersSet(d, s, touched, target, cs, ApplyBatch(d, cs));
  }

  // cs names exactly the pushed peers.
  ghost predicate NamesPushed(s: Store, target: Peers, cs: seq<PeerConfig>) {
    && PrefixesOf(cs) == PushedPrefixes(s, target)
    && (forall t :: t in target && Pushed(s, target, t) ==> SetConfig(target[t], t in s.peers) in cs)
    && (forall c :: c in cs ==> exists t :: t in target && Pushed(s, target, t) && c == SetConfig(target[t], t in s.peers))
  }

  lemma NamedKeys(s: Store, target: Peers, cs: seq<PeerConfig>)
    requires NamesPushed(s, target, cs) && KeysApart(target)
    ensures forall t :: t in target ==> (target[t].key in KeysOf(cs) <==> Pushed(s, target, t))
    ensures KeysOf(cs) <= WantedKeys(target)
  {
    forall t | t in target && Pushed(s, target, t) ensures target[t].key in KeysOf(cs) {
      assert SetConfig(target[t], t in s.peers) in cs;
    }
    forall c | c in cs ensures exists t :: t in target && Pushed(s, target, t) && c.key == target[t].key {
    }
  }

  lemma SettersSet(d: Device, s: Store, touched: set<string>, target: Peers, cs: seq<PeerConfig>, r: Device)
    requires Admitted(s, target, touched) && KeysApart(target) && SameKeys(d, s.peers)
    requires SetterResult(d, cs, r) && NamesPushed(s, target, cs)
    ensures DeviceSet(d, s, target, r)
  {
    NamedKeys(s, target, cs);
    StoredKeysParse(s.peers);
    forall t | t in target && Pushed(s, target, t) ensures target[t].key in r && r[target[t].key] == PushedTo(d, s, target, t) {
      assert SetConfig(target[t], t in s.peers) in cs;
    }
    forall t | t in target && !Pushed(s, target, t) ensures target[t].key in d {
      assert s.peers[t].key == target[t].key;
    }
    forall k ensures k in r <==> k in d || k in WantedKeys(target) {
      if k in WantedKeys(target) {
        var t :| t in target && target[t].key == k;
      }
    }
  }

  lemma RemovedKeyTexts(ts: seq<string>)
    requires forall t :: t in ts ==> ParseKey(t).Some? && Canonical(t)
    ensures AllRemove(RemovesAt(ts))
    ensures forall k :: k in KeysOf(RemovesAt(ts)) <==> KeyText(k) in ts
  {
    var cs := RemovesAt(ts);
    forall k ensures k in KeysOf(cs) <==> KeyText(k) in ts {
      if k in KeysOf(cs) {
        var c :| c in cs && c.key == k;
        var i :| 0 <= i < |cs| && cs[i] == c;
        assert ts[i] in ts;
      }
      if KeyText(k) in ts {
        ParseOfText(k);
        var i :| 0 <= i < |ts| && ts[i] == KeyText(k);
        assert cs[i] in cs && cs[i].key == k;
      }
    }
  }

  // The removing part of the batch takes out exactly the dropped keys.
  lemma RemovalsOnly(d: Device, s: Store, touched: set<string>, target: Peers, ts: seq<string>, removeKeys: seq<string>)
    requires WellKeyed(s) && StorePlan(s, touched, target, ts, removeKeys)
    requires forall t :: t in removeKeys ==> ParseKey(t).Some?
    ensures forall k :: k in ApplyBatch(d, RemovesAt(removeKeys)) <==> k in d && !Dropped(s, touched, target, KeyText(k))
    ensures forall k :: k in ApplyBatch(d, RemovesAt(removeKeys)) ==> ApplyBatch(d, RemovesAt(removeKeys))[k] == d[k]
  {
    StoredKeysParse(s.peers);
    forall t | t in removeKeys ensures ParseKey(t).Some? && Canonical(t) { assert s.peers[t].Text() == t; }
    RemovedKeyTexts(removeKeys);
    RemoversShape(d, RemovesAt(removeKeys));
  }

  // Whatever the texts, from a device that agrees with the store: after the setting part every
  // wanted key has at least the lists wanted for it.
  lemma WantedListsKept(d: Device, s: Store, touched: set<string>, target: Peers, updates: seq<string>, adds: seq<string>)
    requires Admitted(s, target, touched) && DevicePlan(s, target, updates, adds) && Agrees(d, s.peers)
    requires (forall t :: t in updates ==> t in target) && (forall t :: t in adds ==> t in target)
    ensures forall t :: t in target ==>
              && target[t].key in ApplyBatch(d, SettersAt(target, updates, adds))
              && SetOf(target[t].allowed) <= ApplyBatch(d, SettersAt(target, updates, adds))[target[t].key]
  {
    var first, second := ConfigsAt(target, updates, true), ConfigsAt(target, adds, false);
    BatchSplits(d, first, second);
    UpdatesApart(s, touched, target, updates, adds);
    SettersShape(d, first);
    SettersAccumulate(ApplyBatch(d, first), second);
    forall t | t in target
      ensures target[t].key in ApplyBatch(ApplyBatch(d, first), second)
      ensures SetOf(target[t].allowed) <= ApplyBatch(ApplyBatch(d, first), second)[target[t].key]
    {
      WantedListKept(d, s, touched, target, updates, adds, t, ApplyBatch(d, first), ApplyBatch(ApplyBatch(d, first), second));
    }
  }

  lemma UpdatesApart(s: Store, touched: set<string>, target: Peers, updates: seq<string>, adds: seq<string>)
    requires Admitted(s, target, touched) && DevicePlan(s, target, updates, adds)
    requires (forall t :: t in updates ==> t in target) && (forall t :: t in adds ==> t in target)
    ensures AllSet(ConfigsAt(target, updates, true)) && DisjointAllowed(ConfigsAt(target, updates, true))
    ensures DistinctKeys(ConfigsAt(target, updates, true))
    ensures AllSet(ConfigsAt(target, adds, false)) && DisjointAllowed(ConfigsAt(target, adds, false))
  {
    StoredKeysParse(s.peers);
    var first, second := ConfigsAt(target, updates, true), ConfigsAt(target, adds, false);
    forall i, j | 0 <= i < j < |first|
      ensures first[i].key != first[j].key && SetOf(first[i].allowed) !! SetOf(first[j].allowed)
    {
      var t, u := updates[i], updates[j];
      assert t in updates && u in updates && t != u;
      assert s.peers[t].key == target[t].key && s.peers[u].key == target[u].key;
      assert s.peers[t].Text() != s.peers[u].Text();
    }
    forall i, j | 0 <= i < j < |second| ensures SetOf(second[i].allowed) !! SetOf(second[j].allowed) {
      assert adds[i] in adds && adds[j] in adds && adds[i] != adds[j];
    }
  }

  lemma WantedListKept(d: Device, s: Store, touched: set<string>, target: Peers, updates: seq<string>, adds: seq<string>,
                       t: string, mid: Device, r: Device)
    requires Admitted(s, target, touched) && DevicePlan(s, target, updates, adds) && Agrees(d, s.peers) && t in target
    requires (forall u :: u in updates ==> u in target) && (forall u :: u in adds ==> u in target)
    requires SetterResult(d, ConfigsAt(target, updates, true), mid)
    requires forall c :: c in ConfigsAt(target, adds, false) ==> c.key in r && SetOf(c.allowed) <= r[c.key]
    requires forall k :: k in mid ==> k in r && mid[k] - PrefixesOf(ConfigsAt(target, adds, false)) <= r[k]
    ensures target[t].key in r && SetOf(target[t].allowed) <= r[target[t].key]
  {
    StoredKeysParse(s.peers);
    if t !in s.peers {
      ConfigListed(target, adds, false, t);
    } else {
      assert s.peers[t].key == target[t].key;
      ListApart(s, target, adds, false, t);
      if t in updates {
        ConfigListed(target, updates, true, t);
      } else {
        ListApart(s, target, updates, true, t);
        UpdatedKeyIsStored(s, target, updates, t);
      }
    }
  }

  lemma ConfigListed(target: Peers, ts: seq<string>, replace: bool, t: string)
    requires (forall u :: u in ts ==> u in target) && t in ts
    ensures SetConfig(target[t], replace) in ConfigsAt(target, ts, replace)
  {
    var i :| 0 <= i < |ts| && ts[i] == t;
    assert ConfigsAt(target, ts, replace)[i] == SetConfig(target[t], replace);
  }

  // The list of a wanted peer that is not among ts shares nothing with theirs.
  lemma ListApart(s: Store, target: Peers, ts: seq<string>, replace: bool, t: string)
    requires PrefixesDisjoint(target) && (forall u :: u in ts ==> u in target) && t in target && t !in ts
    ensures SetOf(target[t].allowed) !! PrefixesOf(ConfigsAt(target, ts, replace))
  {
    var cs := ConfigsAt(target, ts, replace);
    forall p | p in PrefixesOf(cs) ensures p !in SetOf(target[t].allowed) {
      var c :| c in cs && p in c.allowed;
      var i :| 0 <= i < |cs| && cs[i] == c;
      assert ts[i] in ts && p in SetOf(target[ts[i]].allowed);
    }
  }

  lemma UpdatedKeyIsStored(s: Store, target: Peers, updates: seq<string>, t: string)
    requires WellKeyed(s) && WellFormed(target) && (forall u :: u in updates ==> u in target && u in s.peers)
    requires t in s.peers && t in target && t !in updates
    ensures target[t].key !in KeysOf(ConfigsAt(target, updates, true))
  {
    StoredKeysParse(s.peers);
    var cs := ConfigsAt(target, updates, true);
    forall c | c in cs ensures c.key != target[t].key {
      var i :| 0 <= i < |cs| && cs[i] == c;
      assert updates[i] in updates && c.key == s.peers[updates[i]].key;
      assert s.peers[updates[i]].Text() != s.peers[t].Text();
    }
  }
}
