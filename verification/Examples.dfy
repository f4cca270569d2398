// The smallest inputs on which device and store part ways: one stored peer, one user, an interface
// without address ranges.
module Examples {
  import opened Wrappers
  import opened Cidr
  import opened WgKeys
  import opened Enumerations
  import opened PeerStores
  import opened DesiredPeers
  import opened Kernel
  import opened SyncDiffs
  import opened SyncSteps
  import opened SyncTheorems
  import opened NodeTheorems
  import opened ForeignPrefix

  const ONE_INTERFACE := Config("wg0", [])

  function UserWith(email: string, text: string, p: Prefix): User {
    User(email, ["wg0"], Some(WireguardProxy(text, [Some(p)])))
  }

  function StoreWith(email: string, k: Key, p: Prefix): Store {
    Store(map[KeyText(k) := PeerInfo(email, k, [p])], map[email := KeyText(k)])
  }

  // User "a" is stored with key k and prefix p, and the device has just that.
  function NodeWith(k: Key, p: Prefix): Node {
    Node(StoreWith("a", k, p), map[k := {p}])
  }

  lemma NodeWithIsSound(k: Key, p: Prefix)
    ensures Sound(NodeWith(k, p))
  {
    assert SetOf([p]) == {p};
  }

  // A backend started with that user is in that state.
  lemma NodeWithStarts(k: Key, p: Prefix)
    ensures Startup([Some(UserWith("a", KeyText(k), p))], ONE_INTERFACE, NodeWith(k, p))
  {
    var u, t, peer := UserWith("a", KeyText(k), p), KeyText(k), DesiredPeer("a", k, [p]);
    ParseOfText(k);
    AskOfUserWith("a", t, k, p);
    OneUser(u);
    OneUserCompatible(u, ONE_INTERFACE);
    OneUserServed(u, ONE_INTERFACE, Bid(t, peer));
    StartedWith(k, p, map[t := peer]);
  }

  lemma StartedWith(k: Key, p: Prefix, desired: Desired)
    requires desired == map[KeyText(k) := DesiredPeer("a", k, [p])]
    ensures StartupWith(desired, [KeyText(k)], [SetConfig(PeerInfo("a", k, [p]), false)], NodeWith(k, p))
  {
    var target, t := TargetPeers(desired), KeyText(k);
    var configs := [SetConfig(PeerInfo("a", k, [p]), false)];
    assert target == map[t := PeerInfo("a", k, [p])];
    assert ConfigsAt(target, [t], false) == configs && SortedEnumeration([t], target.Keys);
    assert SetOf([p]) == {p};
    OneBatch(map[], configs[0]);
    SetOnEmpty(configs[0]);
    assert PeersAt(target, [t]) == [PeerInfo("a", k, [p])];
    OneInsertion(PeerInfo("a", k, [p]));
  }

  lemma OneBatch(d: Device, c: PeerConfig)
    ensures ApplyBatch(d, [c]) == ApplyOne(d, c)
  {
    assert [c][..0] == [];
  }

  lemma SetOnEmpty(c: PeerConfig)
    requires !c.remove
    ensures ApplyOne(map[], c) == map[c.key := SetOf(c.allowed)]
  {
    assert {} + SetOf(c.allowed) == SetOf(c.allowed);
  }

  lemma SetOnOne(k: Key, held: set<Prefix>, c: PeerConfig)
    requires !c.remove && !c.replaceAllowedIPs && c.key == k
    ensures ApplyOne(map[k := held], c) == map[k := held + SetOf(c.allowed)]
  {
  }

  lemma OneInsertion(p: PeerInfo)
    ensures InsertAll(EMPTY_STORE, [p]) == Store(map[p.Text() := p], map[p.email := p.Text()])
  {
    assert [p][..0] == [];
  }

  lemma OneUpsert(s: Store, p: PeerInfo)
    ensures UpsertAll(s, [p]) == UpsertOne(s, p)
  {
    assert [p][..0] == [];
  }

  lemma OneRemoval(s: Store, t: string)
    ensures RemoveAll(s, [t]) == RemoveOne(s, t)
    ensures RemovedBy(s, [t]) == if t in s.peers then [t] else []
  {
    assert [t][..0] == [];
    assert RemovedBy(s, [t][..0]) == [] && RemoveAll(s, [t][..0]) == s;
  }

  lemma AskOfUserWith(email: string, text: string, k: Key, p: Prefix)
    requires ParseKey(text) == Some(k)
    ensures AskOf(UserWith(email, text, p), ONE_INTERFACE).bid == Some(Bid(text, DesiredPeer(email, k, [p])))
  {
    var u := UserWith(email, text, p);
    assert u.inbounds[0] == "wg0";
    OneClaim(p);
  }

  lemma OneClaim(p: Prefix)
    ensures ClaimList([Some(p)], Networks([])) == [p] && AllParse([Some(p)])
  {
    var ips: seq<IpText> := [Some(p)];
    assert ips[1..] == [];
    assert AllParse(ips[1..]) && ClaimList(ips[1..], Networks([])) == [];
  }

  // User "b" is added with the prefix of user "a".
  lemma TakenPrefix(a: Key, b: Key, p: Prefix)
    requires a != b
    ensures exists e :: PartialSync(NodeWith(a, p), [Some(UserWith("b", KeyText(b), p))], ONE_INTERFACE, true, true, e)
                        && e.ok && !Agrees(e.node.device, e.node.store.peers)
  {
    ParseOfText(b);
    NodeWithIsSound(a, p);
    AskOfUserWith("b", KeyText(b), b, p);
    if KeyText(a) == KeyText(b) { KeyTextInjective(a, b); }
    ForeignPrefixIsLetThrough(NodeWith(a, p), KeyText(a), p, UserWith("b", KeyText(b), p),
                              Bid(KeyText(b), DesiredPeer("b", b, [p])), ONE_INTERFACE);
  }

  // User "b" is added with the key of user "a", with a line break behind it, and a prefix of its own.
  // "a" is gone from the store, no statistics are dropped, and the device gives the peer both prefixes.
  lemma TakenKey(k: Key, p: Prefix, q: Prefix)
    ensures PartialSync(NodeWith(k, p), [Some(UserWith("b", KeyText(k) + "\n", q))], ONE_INTERFACE, true, true,
                        Effect(Node(StoreWith("b", k, q), map[k := {p, q}]), true, []))
  {
    var text := KeyText(k) + "\n";
    var u, n, peer := UserWith("b", text, q), NodeWith(k, p), DesiredPeer("b", k, [q]);
    KeysHaveOtherSpellings(k);
    NodeWithIsSound(k, p);
    AskOfUserWith("b", text, k, q);
    OneUser(u);
    OneTouched(u);
    OneUserCompatible(u, ONE_INTERFACE);
    OneUserServed(u, ONE_INTERFACE, Bid(text, peer));
    AdditionIsPartialSync(n, [Some(u)], {u}, "b", text, peer, ONE_INTERFACE);
    TakenKeyAddition(k, p, q, text);
  }

  lemma TakenKeyAddition(k: Key, p: Prefix, q: Prefix, text: string)
    ensures Addition(NodeWith(k, p), text, PeerInfo("b", k, [q])) == Effect(Node(StoreWith("b", k, q), map[k := {p, q}]), true, [])
  {
    var n, b := NodeWith(k, p), PeerInfo("b", k, [q]);
    assert SetOf([q]) == {q};
    assert RemoveAll(n.store, []) == n.store;
    OneUpsert(n.store, b);
    OneBatch(n.device, SetConfig(b, false));
    SetOnOne(k, {p}, SetConfig(b, false));
    assert {p} + {q} == {p, q};
    assert UpsertOne(n.store, b) == StoreWith("b", k, q);
  }

  function RespelledDiff(k: Key, text: string, peer: DesiredPeer): SyncDiff {
    var p := TargetOf(peer);
    SyncDiff([KeyText(k)], [p], [SetConfig(p, false), RemoveConfig(k)], map[text := p], true)
  }

  lemma RespelledDiffIsDiff(existing: Peers, k: Key, text: string, peer: DesiredPeer)
    requires existing.Keys == {KeyText(k)} && text != KeyText(k) && peer.allowed != []
    ensures IsSyncDiff(existing, map[text := peer], RespelledDiff(k, text, peer))
  {
    var desired: Desired := map[text := peer];
    var target, diff := TargetPeers(desired), RespelledDiff(k, text, peer);
    ParseOfText(k);
    assert target == map[text := TargetOf(peer)];
    assert Removable(existing, target) == {KeyText(k)};
    assert Updated(existing, target) == {};
    assert Added(existing, target) == {text};
    assert Upserted(existing, target) == {text};
    assert PeersAt(target, [text]) == diff.upsertPeers;
    assert ConfigsAt(target, [], true) + ConfigsAt(target, [text], false) + RemovesAt([KeyText(k)]) == diff.peerConfigs;
    assert IsSyncDiffBy(existing, desired, diff, [], [text], [text]);
  }

  // The same store, an empty device, and statistics dropped for the stored key.
  function Respelling(k: Key, p: Prefix): Effect {
    Effect(Node(StoreWith("a", k, p), map[]), true, [KeyText(k)])
  }

  lemma RespellingCommits(k: Key, p: Prefix, text: string)
    ensures var n, diff := NodeWith(k, p), RespelledDiff(k, text, DesiredPeer("a", k, [p]));
            PartialSyncBy(n, diff, true, true, Respelling(k, p))
  {
    var n, peer := NodeWith(k, p), PeerInfo("a", k, [p]);
    var setter, remove := SetConfig(peer, false), RemoveConfig(k);
    OneRemoval(n.store, KeyText(k));
    OneUpsert(RemoveOne(n.store, KeyText(k)), peer);
    BatchSplits(n.device, [setter], [remove]);
    OneBatch(n.device, setter);
    OneBatch(ApplyOne(n.device, setter), remove);
    assert [setter] + [remove] == [setter, remove];
    assert SetOf([p]) == {p};
    assert ApplyOne(ApplyOne(n.device, setter), remove) == map[];
  }

  lemma RespellingIsPartialSync(us: set<User>, k: Key, p: Prefix, text: string)
    requires text != KeyText(k) && Touched(us) == {"a"}
    ensures var peer := DesiredPeer("a", k, [p]);
            PartialSyncWith(NodeWith(k, p), us, map[text := peer], RespelledDiff(k, text, peer), true, true, Respelling(k, p))
  {
    var n, peer := NodeWith(k, p), DesiredPeer("a", k, [p]);
    TouchedPart(k, p);
    RespelledDiffIsDiff(TouchedPeers(n.store, {"a"}), k, text, peer);
    NotOwned(n.store, map[text := peer], {"a"});
    RespellingCommits(k, p, text);
  }

  lemma NotOwned(s: Store, desired: Desired, touched: set<string>)
    requires desired.Keys !! s.peers.Keys
    ensures !OwnedByOther(s, desired, touched)
  {
  }

  lemma TouchedPart(k: Key, p: Prefix)
    ensures TouchedPeers(NodeWith(k, p).store, {"a"}).Keys == {KeyText(k)}
  {
    var s := NodeWith(k, p).store;
    assert s.emailToKey["a"] == KeyText(k);
  }

  // User "a" sends its own key again, with a line break behind it.
  lemma LostPeer(k: Key, p: Prefix)
    ensures PartialSync(NodeWith(k, p), [Some(UserWith("a", KeyText(k) + "\n", p))], ONE_INTERFACE, true, true, Respelling(k, p))
    ensures !Agrees(Respelling(k, p).node.device, Respelling(k, p).node.store.peers)
  {
    var text := KeyText(k) + "\n";
    var u, peer := UserWith("a", text, p), DesiredPeer("a", k, [p]);
    KeysHaveOtherSpellings(k);
    AskOfUserWith("a", text, k, p);
    OneUser(u);
    OneTouched(u);
    OneUserCompatible(u, ONE_INTERFACE);
    OneUserServed(u, ONE_INTERFACE, Bid(text, peer));
    RespellingIsPartialSync({u}, k, p, text);
    SyncFromParts(NodeWith(k, p), [Some(u)], {u}, ONE_INTERFACE, map[text := peer], RespelledDiff(k, text, peer), Respelling(k, p));
    assert KeyText(k) in StoreWith("a", k, p).peers;
  }

  // A full sync with the canonical text then finds nothing to change and leaves the device empty.
  lemma NotRepaired(k: Key, p: Prefix)
    ensures var lost := Respelling(k, p).node;
            && FullSync(lost, [Some(UserWith("a", KeyText(k), p))], ONE_INTERFACE, true, true, Effect(lost, true, []))
            && !Agrees(lost.device, lost.store.peers)
  {
    var u, t, peer := UserWith("a", KeyText(k), p), KeyText(k), DesiredPeer("a", k, [p]);
    ParseOfText(k);
    AskOfUserWith("a", t, k, p);
    OneUser(u);
    OneUserCompatible(u, ONE_INTERFACE);
    OneUserServed(u, ONE_INTERFACE, Bid(t, peer));
    StoredIsTarget(StoreWith("a", k, p).peers, [Some(u)], {u}, map[t := peer]);
    FullSyncIdles(Respelling(k, p).node, [Some(u)], ONE_INTERFACE, true);
    LostPeer(k, p);
  }

  lemma StoredIsTarget(m: Peers, users: seq<Option<User>>, us: set<User>, desired: Desired)
    requires us == NormalizedSet(users) && IsDesired(desired, us, ONE_INTERFACE) && m == TargetPeers(desired)
    ensures IsTarget(m, users, ONE_INTERFACE)
  {
    DesiredIsTarget(desired, users, ONE_INTERFACE);
  }
}
