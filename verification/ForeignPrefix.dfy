// The case the partial sync lets through: a new user with a prefix that a user outside the
// request already holds.
module ForeignPrefix {
  import opened Wrappers
  import opened Cidr
  import opened WgKeys
  import opened Enumerations
  import opened PeerStores
  import opened DesiredPeers
  import opened Kernel
  import opened SyncDiffs
  import opened SyncSteps
  import opened SyncTheorems
  import opened PartialSyncTheorems
  import opened NodeTheorems

  function NewPeerDiff(text: string, p: PeerInfo): SyncDiff {
    SyncDiff([], [p], [SetConfig(p, false)], map[text := p], true)
  }

  lemma NewPeerDiffIsDiff(text: string, peer: DesiredPeer)
    requires peer.allowed != []
    ensures IsSyncDiff(map[], map[text := peer], NewPeerDiff(text, TargetOf(peer)))
  {
    var desired: Desired := map[text := peer];
    var target := TargetPeers(desired);
    assert target == map[text := TargetOf(peer)];
    assert Added(map[], target) == {text};
    assert Upserted(map[], target) == {text};
    assert PeersAt(target, [text]) == [TargetOf(peer)];
    assert ConfigsAt(target, [], true) + ConfigsAt(target, [text], false) + RemovesAt([]) == [SetConfig(TargetOf(peer), false)];
    assert IsSyncDiffBy(map[], desired, NewPeerDiff(text, TargetOf(peer)), [], [text], [text]);
  }

  lemma OneUserCompatible(u: User, cfg: Config)
    ensures Compatible({u}, cfg)
  {
  }

  lemma OneUserServed(u: User, cfg: Config, b: Bid)
    requires AskOf(u, cfg).bid == Some(b)
    ensures IsDesired(map[b.text := b.peer], {u}, cfg)
  {
  }

  // The effect of adding one new user.
  function Addition(n: Node, text: string, p: PeerInfo): Effect {
    Effect(Node(AfterChanges(n.store, [], [p]), ApplyBatch(n.device, [SetConfig(p, false)])), true, [])
  }

  lemma AdditionIsPartialSync(n: Node, users: seq<Option<User>>, us: set<User>, email: string, text: string,
                              peer: DesiredPeer, cfg: Config)
    requires peer.allowed != [] && us == NormalizedSet(users) && Touched(us) == {email}
    requires Compatible(us, cfg) && IsDesired(map[text := peer], us, cfg)
    requires email !in n.store.emailToKey && text !in n.store.peers
    ensures PartialSync(n, users, cfg, true, true, Addition(n, text, TargetOf(peer)))
  {
    var diff, e := NewPeerDiff(text, TargetOf(peer)), Addition(n, text, TargetOf(peer));
    NewPeerDiffIsDiff(text, peer);
    assert TouchedPeers(n.store, {email}) == map[];
    assert PartialSyncWith(n, us, map[text := peer], diff, true, true, e);
    SyncFromParts(n, users, us, cfg, map[text := peer], diff, e);
  }

  lemma SyncFromParts(n: Node, users: seq<Option<User>>, us: set<User>, cfg: Config, desired: Desired, diff: SyncDiff, e: Effect)
    requires us == NormalizedSet(users) && Compatible(us, cfg) && IsDesired(desired, us, cfg)
    requires PartialSyncWith(n, us, desired, diff, true, true, e)
    ensures PartialSync(n, users, cfg, true, true, e)
  {
  }

  lemma OneUser(u: User)
    requires Usable(u)
    ensures NormalizedSet([Some(u)]) == {u}
  {
    assert [Some(u)][..0] == [];
    assert LastByEmail([Some(u)][..0]) == map[];
    var m := LastByEmail([Some(u)]);
    assert m == map[u.email := u];
    forall v ensures v in m.Values <==> v == u {
      if v in m.Values { var x :| x in m && m[x] == v; }
      assert m[u.email] == u;
    }
  }

  lemma OneTouched(u: User)
    ensures Touched({u}) == {u.email}
  {
  }

  // For every agreeing node, every stored peer t and every new user that asks for one of its prefixes
  // under a key that is not stored: SyncUser returns nil, and device and store disagree afterwards.
  lemma ForeignPrefixIsLetThrough(n: Node, t: string, p: Prefix, u: User, b: Bid, cfg: Config)
    requires SoundFor(n, {u.email}) && t in n.store.peers && p in n.store.peers[t].allowed
    requires Usable(u) && AskOf(u, cfg).bid == Some(b) && p in b.peer.allowed
    requires u.email !in n.store.emailToKey && KeyText(b.peer.key) !in n.store.peers
    ensures exists e :: PartialSync(n, [Some(u)], cfg, true, true, e) && e.ok && !Agrees(e.node.device, e.node.store.peers)
  {
    var target, e := NewUserIsAdded(n, u, b, cfg);
    AdditionTakes(n, [Some(u)], {u.email}, cfg, target, e, t, b.text, p);
  }

  lemma NewUserIsAdded(n: Node, u: User, b: Bid, cfg: Config) returns (target: Peers, e: Effect)
    requires WellKeyed(n.store) && Usable(u) && AskOf(u, cfg).bid == Some(b)
    requires u.email !in n.store.emailToKey && KeyText(b.peer.key) !in n.store.peers
    ensures PartialSync(n, [Some(u)], cfg, true, true, e) && e.ok
    ensures IsTarget(target, [Some(u)], cfg) && target.Keys == {b.text} && target[b.text] == TargetOf(b.peer)
    ensures Touched(NormalizedSet([Some(u)])) == {u.email}
  {
    AdditionIsAccepted(n, u, b, cfg);
    e := NamedEffect(n, [Some(u)], cfg, Addition(n, b.text, TargetOf(b.peer)));
    target := NamedTarget([Some(u)], cfg, b);
  }

  lemma NamedEffect(n: Node, users: seq<Option<User>>, cfg: Config, added: Effect) returns (e: Effect)
    requires PartialSync(n, users, cfg, true, true, added) && added.ok
    ensures PartialSync(n, users, cfg, true, true, e) && e.ok
  {
    e := added;
  }

  lemma NamedTarget(users: seq<Option<User>>, cfg: Config, b: Bid) returns (target: Peers)
    requires IsTarget(map[b.text := TargetOf(b.peer)], users, cfg)
    ensures IsTarget(target, users, cfg) && target.Keys == {b.text} && target[b.text] == TargetOf(b.peer)
  {
    target := map[b.text := TargetOf(b.peer)];
  }

  lemma AdditionIsAccepted(n: Node, u: User, b: Bid, cfg: Config)
    requires WellKeyed(n.store) && Usable(u) && AskOf(u, cfg).bid == Some(b)
    requires u.email !in n.store.emailToKey && KeyText(b.peer.key) !in n.store.peers
    ensures PartialSync(n, [Some(u)], cfg, true, true, Addition(n, b.text, TargetOf(b.peer)))
    ensures IsTarget(map[b.text := TargetOf(b.peer)], [Some(u)], cfg)
    ensures Touched(NormalizedSet([Some(u)])) == {u.email}
  {
    OneUser(u);
    OneUserCompatible(u, cfg);
    OneUserServed(u, cfg, b);
    OneTouched(u);
    NewText(n.store, b.text, b.peer.key);
    AdditionIsPartialSync(n, [Some(u)], {u}, u.email, b.text, b.peer, cfg);
    NewTarget([Some(u)], {u}, cfg, b);
  }

  lemma NewTarget(users: seq<Option<User>>, us: set<User>, cfg: Config, b: Bid)
    requires us == NormalizedSet(users) && IsDesired(map[b.text := b.peer], us, cfg)
    ensures IsTarget(map[b.text := TargetOf(b.peer)], users, cfg)
  {
    var desired: Desired := map[b.text := b.peer];
    DesiredIsTarget(desired, users, cfg);
    assert TargetPeers(desired) == map[b.text := TargetOf(b.peer)];
  }

  // A spelling of a key that is not stored is not a stored text.
  lemma NewText(s: Store, text: string, k: Key)
    requires WellKeyed(s) && ParseKey(text) == Some(k) && KeyText(k) !in s.peers
    ensures text !in s.peers
  {
    if text in s.peers { ParseOfText(s.peers[text].key); }
  }

  lemma AdditionTakes(n: Node, users: seq<Option<User>>, touched: set<string>, cfg: Config, target: Peers, e: Effect,
                      t: string, v: string, p: Prefix)
    requires SoundFor(n, touched) && touched == Touched(NormalizedSet(users)) && IsTarget(target, users, cfg)
    requires PartialSync(n, users, cfg, true, true, e) && e.ok
    requires target.Keys == {v} && t in n.store.peers && forall m :: m in touched ==> m !in n.store.emailToKey
    requires p in n.store.peers[t].allowed && p in target[v].allowed && target[v].Text() !in n.store.peers
    ensures !Agrees(e.node.device, e.node.store.peers)
  {
    OtherNotSpared(n.store, touched, target, t, v, p);
    UnsafeBreaks(n, users, touched, cfg, e, target);
  }

  lemma UnsafeBreaks(n: Node, users: seq<Option<User>>, touched: set<string>, cfg: Config, e: Effect, target: Peers)
    requires SoundFor(n, touched) && touched == Touched(NormalizedSet(users)) && IsTarget(target, users, cfg)
    requires PartialSync(n, users, cfg, true, true, e) && e.ok
    requires !SafeRequest(n.store, touched, target)
    ensures !Agrees(e.node.device, e.node.store.peers)
  {
    PartialSyncAgreesIff(n, users, cfg, true, true, e, target);
  }

  lemma OtherNotSpared(s: Store, touched: set<string>, target: Peers, t: string, v: string, p: Prefix)
    requires IndexRight(s, touched) && target.Keys == {v} && t in s.peers
    requires forall m :: m in touched ==> m !in s.emailToKey
    requires p in s.peers[t].allowed && p in target[v].allowed && target[v].Text() !in s.peers
    ensures !SafeRequest(s, touched, target)
  {
    assert p in SetOf(s.peers[t].allowed) && p in WantedPrefixes(target);
    assert s.peers[t].Text() == t && s.peers[t].key !in WantedKeys(target);
  }
}
