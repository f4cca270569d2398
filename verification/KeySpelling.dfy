// What becomes of a stored key that a request spells in another way. The wanted map is filed under
// the text the request uses, the store under the text the parsed key prints as, and the ownership
// check looks up the one in the other.
module KeySpelling {
  import opened Wrappers
  import opened Enumerations
  import opened PeerStores
  import opened DesiredPeers
  import opened Kernel
  import opened SyncDiffs
  import opened SyncSteps
  import opened SyncTheorems
  import opened PartialSyncTheorems
  import opened NodeTheorems

  // Spelled by a user of the request: the peer is added and then removed again in one batch. The
  // store has it, its statistics count as removed, and the device does not know it.
  lemma RespelledKeyIsLost(n: Node, users: seq<Option<User>>, cfg: Config, reachable: bool, accepted: bool, e: Effect,
                           target: Peers, x: string)
    requires IndexRight(n.store, Touched(NormalizedSet(users))) && Exclusive(n.device) && SameKeys(n.device, n.store.peers)
    requires IsTarget(target, users, cfg) && KeysApart(target)
    requires PartialSync(n, users, cfg, reachable, accepted, e) && e.ok
    requires x in target && RespelledAs(n.store, Touched(NormalizedSet(users)), target, x)
    ensures var c := target[x].Text();
            && c in e.node.store.peers && e.node.store.peers[c] == target[x]
            && c in e.dropped && target[x].key !in e.node.device
  {
    var touched := Touched(NormalizedSet(users));
    PartialSyncShape(n, users, cfg, reachable, accepted, e, target);
    var mid := PartialSyncOverlays(n, users, cfg, reachable, accepted, e, target);
    RespelledIffDropped(n.store, touched, target, x);
    assert target[x] in Entries(e.node.store);
    var t :| t in e.node.store.peers && e.node.store.peers[t] == target[x];
  }

  // Spelled by somebody else: the ownership check does not find the owner. The owner's entry is gone
  // from the store although the request does not mention the owner, no statistics are dropped, and
  // the device lets the peer keep what the batch does not give away.
  lemma ForeignKeyIsTaken(n: Node, users: seq<Option<User>>, cfg: Config, reachable: bool, accepted: bool, e: Effect,
                          target: Peers, t: string, x: string)
    requires IndexRight(n.store, Touched(NormalizedSet(users))) && Exclusive(n.device) && SameKeys(n.device, n.store.peers)
    requires IsTarget(target, users, cfg) && KeysApart(target)
    requires PartialSync(n, users, cfg, reachable, accepted, e) && e.ok
    requires t in n.store.peers && n.store.peers[t].email !in Touched(NormalizedSet(users))
    requires x in target && target[x].key == n.store.peers[t].key
    ensures t in e.node.store.peers && e.node.store.peers[t] == target[x] && t !in e.dropped
    ensures target[x].key in e.node.device
    ensures e.node.device[target[x].key]
         == SetOf(target[x].allowed) + (n.device[target[x].key] - PushedPrefixes(n.store, target))
  {
    var touched := Touched(NormalizedSet(users));
    PartialSyncShape(n, users, cfg, reachable, accepted, e, target);
    var mid := PartialSyncOverlays(n, users, cfg, reachable, accepted, e, target);
    ForeignKeyRespelled(n.store, touched, target, t, x);
    assert target[x] in Entries(e.node.store);
    assert Pushed(n.store, target, x) && mid[target[x].key] == PushedTo(n.device, n.store, target, x);
  }

  // When the email index was right about the owner as well, the owner is gone from both indexes.
  lemma ForeignOwnerIsGone(n: Node, users: seq<Option<User>>, cfg: Config, reachable: bool, accepted: bool, e: Effect,
                           target: Peers, t: string, emails: set<string>)
    requires IndexRight(n.store, emails) && Touched(NormalizedSet(users)) <= emails
    requires IsTarget(target, users, cfg) && KeysApart(target)
    requires PartialSync(n, users, cfg, reachable, accepted, e) && e.ok
    requires t in n.store.peers && n.store.peers[t].email in emails - Touched(NormalizedSet(users))
    requires n.store.peers[t].key in WantedKeys(target)
    ensures n.store.peers[t].email !in e.node.store.emailToKey
    ensures forall u :: u in e.node.store.peers ==> e.node.store.peers[u].email != n.store.peers[t].email
  {
    PartialSyncShape(n, users, cfg, reachable, accepted, e, target);
    PartialSyncKeepsIndex(n, users, cfg, reachable, accepted, e, target, emails);
    OwnerIsGone(n.store, Touched(NormalizedSet(users)), target, e.node.store, t, emails);
  }

  lemma OwnerIsGone(s: Store, touched: set<string>, target: Peers, after: Store, t: string, emails: set<string>)
    requires Admitted(s, target, touched) && StoreOverlaid(s, touched, target, after)
    requires IndexRight(s, emails) && IndexRight(after, emails)
    requires t in s.peers && s.peers[t].email in emails - touched && s.peers[t].key in WantedKeys(target)
    ensures s.peers[t].email !in after.emailToKey
    ensures forall u :: u in after.peers ==> after.peers[u].email != s.peers[t].email
  {
    forall u | u in after.peers ensures after.peers[u].email != s.peers[t].email {
      var q := after.peers[u];
      assert q in Entries(after);
      if Stays(s, touched, target, q) { assert s.peers[q.Text()] == q; }
    }
  }
}
