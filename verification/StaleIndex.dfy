// How the email index comes to lead astray, and what that costs: a startup list in which two texts spell
// one key, and ordinary requests after it.
module StaleIndex {
  import opened Wrappers
  import opened Cidr
  import opened WgKeys
  import opened Enumerations
  import opened PeerStores
  import opened DesiredPeers
  import opened Kernel
  import opened SyncDiffs
  import opened SyncSteps
  import opened NodeTheorems
  import opened ForeignPrefix
  import opened Examples

  // The key belongs to "c", and the email index files "b" under it as well.
  function StaleStore(k: Key, y: Prefix): Store {
    Store(map[KeyText(k) := PeerInfo("c", k, [y])], map["b" := KeyText(k), "c" := KeyText(k)])
  }

  // A user without inbounds, who gets no peer.
  function UserWithout(email: string, text: string, p: Prefix): User {
    User(email, [], Some(WireguardProxy(text, [Some(p)])))
  }

  lemma StaleStoreIsStale(k: Key, y: Prefix)
    ensures WellKeyed(StaleStore(k, y)) && !IndexRight(StaleStore(k, y), {"b"}) && IndexRight(StaleStore(k, y), {"c"})
  {
    assert StaleStore(k, y).emailToKey["b"] == KeyText(k);
  }

  // ----- short lists

  lemma OneMore(users: seq<Option<User>>, u: User)
    requires Usable(u) && u.email !in LastByEmail(users)
    ensures NormalizedSet(users + [Some(u)]) == NormalizedSet(users) + {u}
    ensures LastByEmail(users + [Some(u)]).Keys == LastByEmail(users).Keys + {u.email}
  {
    var all := users + [Some(u)];
    assert all[..|all| - 1] == users;
    NewValue(LastByEmail(users), u.email, u);
  }

  lemma NewValue(m: map<string, User>, e: string, u: User)
    requires e !in m
    ensures m[e := u].Values == m.Values + {u} && m[e := u].Keys == m.Keys + {e}
  {
    var m' := m[e := u];
    forall v ensures v in m'.Values <==> v in m.Values || v == u {
      if v in m.Values {
        var d :| d in m && m[d] == v;
        assert m'[d] == v;
      }
      if v == u { assert m'[e] == v; }
    }
  }

  lemma TwoUsers(u: User, v: User)
    requires Usable(u) && Usable(v) && u.email != v.email
    ensures NormalizedSet([Some(u), Some(v)]) == {u, v}
    ensures LastByEmail([Some(u), Some(v)]).Keys == {u.email, v.email}
  {
    assert LastByEmail([]) == map[] && NormalizedSet([]) == {};
    OneMore([], u);
    OneMore([Some(u)], v);
    assert [] + [Some(u)] == [Some(u)] && [Some(u)] + [Some(v)] == [Some(u), Some(v)];
  }

  lemma ThreeUsers(u: User, v: User, w: User)
    requires Usable(u) && Usable(v) && Usable(w) && u.email != v.email && u.email != w.email && v.email != w.email
    ensures NormalizedSet([Some(u), Some(v), Some(w)]) == {u, v, w}
  {
    TwoUsers(u, v);
    OneMore([Some(u), Some(v)], w);
    assert [Some(u), Some(v)] + [Some(w)] == [Some(u), Some(v), Some(w)];
    assert {u, v} + {w} == {u, v, w};
  }

  lemma TwoServed(u: User, v: User, cfg: Config, a: Bid, b: Bid)
    requires AskOf(u, cfg).bid == Some(a) && AskOf(v, cfg).bid == Some(b) && a.text != b.text
    requires SetOf(a.peer.allowed) !! SetOf(b.peer.allowed)
    ensures Compatible({u, v}, cfg) && IsDesired(map[a.text := a.peer, b.text := b.peer], {u, v}, cfg)
  {
    var x, y := AskOf(u, cfg), AskOf(v, cfg);
    assert AsksOf({u, v}, cfg) == {x, y};
    TwoAsks(x, y, a, b);
  }

  lemma TwoAsks(x: Ask, y: Ask, a: Bid, b: Bid)
    requires x.bid == Some(a) && y.bid == Some(b) && a.text != b.text && x.claims !! y.claims
    ensures NoClash({x, y}) && Serves(map[a.text := a.peer, b.text := b.peer], {x, y})
  {
    assert x.claims * y.claims == {} && y.claims * x.claims == {};
    assert x in {x, y} && y in {x, y};
  }

  // ----- the start

  lemma LineBreakSortsLater(t: string)
    ensures Less(t, t + "\n")
  {
    if t != "" {
      LineBreakSortsLater(t[1..]);
      assert (t + "\n")[1..] == t[1..] + "\n";
    }
  }

  // Users "b" and "c" start with one key, "c" with a line break behind it. The email index files both under
  // the key, the store has the peer of "c", and the device gives it both prefixes.
  lemma StaleStart(k: Key, x: Prefix, y: Prefix)
    requires x != y
    ensures Startup([Some(UserWith("b", KeyText(k), x)), Some(UserWith("c", KeyText(k) + "\n", y))], ONE_INTERFACE,
                    Node(StaleStore(k, y), map[k := {x, y}]))
  {
    var t, b, c := KeyText(k), UserWith("b", KeyText(k), x), UserWith("c", KeyText(k) + "\n", y);
    ParseOfText(k);
    KeysHaveOtherSpellings(k);
    AskOfUserWith("b", t, k, x);
    AskOfUserWith("c", t + "\n", k, y);
    TwoUsers(b, c);
    TwoServed(b, c, ONE_INTERFACE, Bid(t, DesiredPeer("b", k, [x])), Bid(t + "\n", DesiredPeer("c", k, [y])));
    var desired: Desired := map[t := DesiredPeer("b", k, [x]), t + "\n" := DesiredPeer("c", k, [y])];
    BothStart(k, x, y, desired);
    StartupFrom([Some(b), Some(c)], {b, c}, desired, Node(StaleStore(k, y), map[k := {x, y}]));
  }

  lemma StartupFrom(users: seq<Option<User>>, us: set<User>, desired: Desired, n: Node)
    requires us == NormalizedSet(users) && Compatible(us, ONE_INTERFACE) && IsDesired(desired, us, ONE_INTERFACE)
    requires exists ts, configs :: StartupWith(desired, ts, configs, n)
    ensures Startup(users, ONE_INTERFACE, n)
  {
  }

  lemma BothStart(k: Key, x: Prefix, y: Prefix, desired: Desired)
    requires x != y && desired == map[KeyText(k) := DesiredPeer("b", k, [x]), KeyText(k) + "\n" := DesiredPeer("c", k, [y])]
    ensures exists ts, configs :: StartupWith(desired, ts, configs, Node(StaleStore(k, y), map[k := {x, y}]))
  {
    var target, t := TargetPeers(desired), KeyText(k);
    var b, c := PeerInfo("b", k, [x]), PeerInfo("c", k, [y]);
    var ts, configs := [t, t + "\n"], [SetConfig(b, false), SetConfig(c, false)];
    assert t != t + "\n";
    assert target == map[t := b, t + "\n" := c];
    LineBreakSortsLater(t);
    assert SortedEnumeration(ts, target.Keys) && ConfigsAt(target, ts, false) == configs && PeersAt(target, ts) == [b, c];
    BothConfigured(k, x, y);
    BothInserted(k, x, y);
    assert StartupWith(desired, ts, configs, Node(StaleStore(k, y), map[k := {x, y}]));
  }

  lemma BothConfigured(k: Key, x: Prefix, y: Prefix)
    requires x != y
    ensures ApplyBatch(map[], [SetConfig(PeerInfo("b", k, [x]), false), SetConfig(PeerInfo("c", k, [y]), false)]) == map[k := {x, y}]
  {
    var first, second := SetConfig(PeerInfo("b", k, [x]), false), SetConfig(PeerInfo("c", k, [y]), false);
    assert [first, second][..1] == [first];
    OneBatch(map[], first);
    SetOnEmpty(first);
    assert SetOf([x]) == {x} && SetOf([y]) == {y};
    SetOnOne(k, {x}, second);
    assert {x} + {y} == {x, y};
  }

  lemma BothInserted(k: Key, x: Prefix, y: Prefix)
    ensures InsertAll(EMPTY_STORE, [PeerInfo("b", k, [x]), PeerInfo("c", k, [y])]) == StaleStore(k, y)
  {
    var b, c := PeerInfo("b", k, [x]), PeerInfo("c", k, [y]);
    assert [b, c][..1] == [b];
    OneInsertion(b);
  }

  // ----- what does not repair it

  // A full sync of "c" alone, with the canonical text, finds its peer stored and returns nil.
  lemma StaleKept(k: Key, y: Prefix, d: Device)
    ensures var n := Node(StaleStore(k, y), d);
            FullSync(n, [Some(UserWith("c", KeyText(k), y))], ONE_INTERFACE, true, true, Effect(n, true, []))
  {
    var u, t, peer := UserWith("c", KeyText(k), y), KeyText(k), DesiredPeer("c", k, [y]);
    ParseOfText(k);
    AskOfUserWith("c", t, k, y);
    OneUser(u);
    OneUserCompatible(u, ONE_INTERFACE);
    OneUserServed(u, ONE_INTERFACE, Bid(t, peer));
    StoredIsTarget(StaleStore(k, y).peers, [Some(u)], {u}, map[t := peer]);
    FullSyncIdles(Node(StaleStore(k, y), d), [Some(u)], ONE_INTERFACE, true);
  }

  // A restart makes the device agree, and leaves the index as it is.
  lemma StaleRestarts(k: Key, y: Prefix, d: Device)
    ensures var n := Node(StaleStore(k, y), map[k := {y}]);
            && Restart(Node(StaleStore(k, y), d), true, true, Effect(n, true, []))
            && SoundFor(n, {"c"})
  {
    OneSnapshot(PeerInfo("c", k, [y]));
    StaleStoreIsStale(k, y);
    assert SetOf([y]) == {y};
  }

  lemma OneSnapshot(p: PeerInfo)
    ensures IsSnapshot(map[p.Text() := p], [SetConfig(p, false)])
    ensures ApplyBatch(map[], [SetConfig(p, false)]) == map[p.key := SetOf(p.allowed)]
  {
    var m := map[p.Text() := p];
    assert ConfigsAt(m, [p.Text()], false) == [SetConfig(p, false)] && SortedEnumeration([p.Text()], m.Keys);
    OneBatch(map[], SetConfig(p, false));
    SetOnEmpty(SetConfig(p, false));
  }

  // ----- what it costs

  // "b" is to have no peer, and loses its statistics and its peer: those of "c", of whom the request says
  // nothing. Nothing is left of "c" in store and device.
  lemma StaleRemoves(k: Key, x: Prefix, y: Prefix, held: set<Prefix>)
    ensures PartialSync(Node(StaleStore(k, y), map[k := held]), [Some(UserWithout("b", KeyText(k), x))], ONE_INTERFACE, true, true,
                        Effect(Node(Store(map[], map["b" := KeyText(k)]), map[]), true, [KeyText(k)]))
  {
    var u, t, n := UserWithout("b", KeyText(k), x), KeyText(k), Node(StaleStore(k, y), map[k := held]);
    var e := Effect(Node(Store(map[], map["b" := t]), map[]), true, [t]);
    var diff := SyncDiff([t], [], [RemoveConfig(k)], map[], true);
    OneUser(u);
    OneTouched(u);
    OneUserCompatible(u, ONE_INTERFACE);
    OneUserWithout(u);
    RemovalIsDiff(n.store, k);
    RemovalCommits(k, y, held);
    NotOwned(n.store, map[], {"b"});
    assert PartialSyncWith(n, {u}, map[], diff, true, true, e);
    SyncFromParts(n, [Some(u)], {u}, ONE_INTERFACE, map[], diff, e);
  }

  lemma OneUserWithout(u: User)
    requires u.inbounds == []
    ensures IsDesired(map[], {u}, ONE_INTERFACE)
  {
  }

  lemma RemovalIsDiff(s: Store, k: Key)
    requires s.emailToKey.Keys >= {"b"} && s.emailToKey["b"] == KeyText(k) && KeyText(k) in s.peers
    ensures IsSyncDiff(TouchedPeers(s, {"b"}), map[], SyncDiff([KeyText(k)], [], [RemoveConfig(k)], map[], true))
  {
    var existing, none: Desired, diff := TouchedPeers(s, {"b"}), map[], SyncDiff([KeyText(k)], [], [RemoveConfig(k)], map[], true);
    ParseOfText(k);
    var target := TargetPeers(none);
    assert target == map[];
    assert existing.Keys == {KeyText(k)};
    assert Removable(existing, target) == {KeyText(k)};
    assert Upserted(existing, target) == {};
    assert ConfigsAt(target, [], true) + ConfigsAt(target, [], false) + RemovesAt([KeyText(k)]) == diff.peerConfigs;
    assert IsSyncDiffBy(existing, none, diff, [], [], []);
  }

  lemma RemovalCommits(k: Key, y: Prefix, held: set<Prefix>)
    ensures AfterChanges(StaleStore(k, y), [KeyText(k)], []) == Store(map[], map["b" := KeyText(k)])
    ensures RemovedBy(StaleStore(k, y), [KeyText(k)]) == [KeyText(k)]
    ensures ApplyBatch(map[k := held], [RemoveConfig(k)]) == map[]
  {
    OneRemoval(StaleStore(k, y), KeyText(k));
    OneBatch(map[k := held], RemoveConfig(k));
    assert RemoveOne(StaleStore(k, y), KeyText(k)) == Store(map[], map["b" := KeyText(k)]);
  }

  // The same store after SyncUser of another user, "d".
  function GrownStore(k: Key, y: Prefix, j: Key, z: Prefix): Store {
    Store(map[KeyText(k) := PeerInfo("c", k, [y]), KeyText(j) := PeerInfo("d", j, [z])],
          map["b" := KeyText(k), "c" := KeyText(k), "d" := KeyText(j)])
  }

  lemma StaleGrows(k: Key, y: Prefix, j: Key, z: Prefix)
    requires j != k && y != z
    ensures PartialSync(Node(StaleStore(k, y), map[k := {y}]), [Some(UserWith("d", KeyText(j), z))], ONE_INTERFACE, true, true,
                        Effect(Node(GrownStore(k, y, j, z), map[k := {y}, j := {z}]), true, []))
  {
    var t, n, peer := KeyText(j), Node(StaleStore(k, y), map[k := {y}]), DesiredPeer("d", j, [z]);
    ParseOfText(j);
    if KeyText(j) == KeyText(k) { KeyTextInjective(j, k); }
    GrownFrom(k, y, j, z);
    AskOfUserWith("d", t, j, z);
    AdditionIsAccepted(n, UserWith("d", t, z), Bid(t, peer), ONE_INTERFACE);
  }

  lemma GrownFrom(k: Key, y: Prefix, j: Key, z: Prefix)
    requires j != k && y != z && KeyText(j) != KeyText(k)
    ensures Addition(Node(StaleStore(k, y), map[k := {y}]), KeyText(j), PeerInfo("d", j, [z]))
         == Effect(Node(GrownStore(k, y, j, z), map[k := {y}, j := {z}]), true, [])
  {
    var s, d := StaleStore(k, y), PeerInfo("d", j, [z]);
    assert RemoveAll(s, []) == s;
    OneUpsert(s, d);
    assert UpsertOne(s, d) == GrownStore(k, y, j, z);
    OneBatch(map[k := {y}], SetConfig(d, false));
    SetBeside(k, {y}, SetConfig(d, false));
    assert SetOf([z]) == {z} && {y} - {z} == {y};
  }

  lemma SetBeside(k: Key, held: set<Prefix>, c: PeerConfig)
    requires !c.remove && c.key != k
    ensures ApplyOne(map[k := held], c) == map[k := held - SetOf(c.allowed), c.key := SetOf(c.allowed)]
  {
    assert {} + SetOf(c.allowed) == SetOf(c.allowed);
  }

  // Then "b" takes over the key of "d", who is to have none, and "c" sends what it has. The kernel has to
  // hear of nothing, so it is not asked; yet the peer of "c" is gone from the store. The device keeps it.
  lemma StaleDisplaces(k: Key, y: Prefix, j: Key, z: Prefix, d: Device)
    requires j != k && y != z
    ensures PartialSync(Node(GrownStore(k, y, j, z), d),
                        [Some(UserWith("b", KeyText(j), z)), Some(UserWith("c", KeyText(k), y)),
                         Some(UserWithout("d", KeyText(j), z))],
                        ONE_INTERFACE, false, false,
                        Effect(Node(Store(map[KeyText(j) := PeerInfo("b", j, [z])], map["b" := KeyText(j), "c" := KeyText(k)]), d),
                               true, []))
  {
    var b, c, w := UserWith("b", KeyText(j), z), UserWith("c", KeyText(k), y), UserWithout("d", KeyText(j), z);
    var desired: Desired := map[KeyText(j) := DesiredPeer("b", j, [z]), KeyText(k) := DesiredPeer("c", k, [y])];
    if KeyText(j) == KeyText(k) { KeyTextInjective(j, k); }
    ThreeUsers(b, c, w);
    ParseOfText(j);
    ParseOfText(k);
    AskOfUserWith("b", KeyText(j), j, z);
    AskOfUserWith("c", KeyText(k), k, y);
    TwoServedOneWithout(b, c, w, Bid(KeyText(j), DesiredPeer("b", j, [z])), Bid(KeyText(k), DesiredPeer("c", k, [y])));
    ThreeTouched(b, c, w);
    Displaced(k, y, j, z, d, [Some(b), Some(c), Some(w)], {b, c, w}, desired);
  }

  lemma Displaced(k: Key, y: Prefix, j: Key, z: Prefix, d: Device, users: seq<Option<User>>, us: set<User>, desired: Desired)
    requires KeyText(j) != KeyText(k) && us == NormalizedSet(users) && Touched(us) == {"b", "c", "d"}
    requires desired == map[KeyText(j) := DesiredPeer("b", j, [z]), KeyText(k) := DesiredPeer("c", k, [y])]
    requires Compatible(us, ONE_INTERFACE) && IsDesired(desired, us, ONE_INTERFACE)
    ensures PartialSync(Node(GrownStore(k, y, j, z), d), users, ONE_INTERFACE, false, false,
                        Effect(Node(Store(map[KeyText(j) := PeerInfo("b", j, [z])], map["b" := KeyText(j), "c" := KeyText(k)]), d),
                               true, []))
  {
    var n, diff := Node(GrownStore(k, y, j, z), d), SyncDiff([], [PeerInfo("b", j, [z])], [], TargetPeers(desired), true);
    var after := Store(map[KeyText(j) := PeerInfo("b", j, [z])], map["b" := KeyText(j), "c" := KeyText(k)]);
    RenameIsDiff(k, y, j, z, desired);
    RenameCommits(k, y, j, z);
    TouchedSet(n, us, desired, diff, Effect(Node(after, d), true, []));
    SyncUnreached(n, users, us, desired, diff, Effect(Node(after, d), true, []));
  }

  lemma ThreeTouched(u: User, v: User, w: User)
    ensures Touched({u, v, w}) == {u.email, v.email, w.email}
  {
    assert u in {u, v, w} && v in {u, v, w} && w in {u, v, w};
  }

  lemma TwoServedOneWithout(u: User, v: User, w: User, a: Bid, b: Bid)
    requires AskOf(u, ONE_INTERFACE).bid == Some(a) && AskOf(v, ONE_INTERFACE).bid == Some(b) && a.text != b.text
    requires SetOf(a.peer.allowed) !! SetOf(b.peer.allowed) && w.inbounds == []
    ensures Compatible({u, v, w}, ONE_INTERFACE) && IsDesired(map[a.text := a.peer, b.text := b.peer], {u, v, w}, ONE_INTERFACE)
  {
    var x, y, o := AskOf(u, ONE_INTERFACE), AskOf(v, ONE_INTERFACE), AskOf(w, ONE_INTERFACE);
    assert AsksOf({u, v, w}, ONE_INTERFACE) == {x, y, o};
    TwoAsks(x, y, a, b);
    IdleAsk(x, y, o, map[a.text := a.peer, b.text := b.peer]);
  }

  lemma IdleAsk(x: Ask, y: Ask, o: Ask, desired: Desired)
    requires NoClash({x, y}) && Serves(desired, {x, y}) && o.bid == None && o.claims == {}
    ensures NoClash({x, y, o}) && Serves(desired, {x, y, o})
  {
    assert {x, y, o} == {x, y} + {o};
    forall a, b | a in {x, y, o} && b in {x, y, o} ensures !Clashing(a, b) {
      if a == o || b == o { assert a.claims * b.claims == {}; }
    }
  }

  lemma RenameIsDiff(k: Key, y: Prefix, j: Key, z: Prefix, desired: Desired)
    requires KeyText(j) != KeyText(k)
    requires desired == map[KeyText(j) := DesiredPeer("b", j, [z]), KeyText(k) := DesiredPeer("c", k, [y])]
    ensures IsSyncDiff(TouchedPeers(GrownStore(k, y, j, z), {"b", "c", "d"}), desired,
                       SyncDiff([], [PeerInfo("b", j, [z])], [], TargetPeers(desired), true))
  {
    var s, target := GrownStore(k, y, j, z), TargetPeers(desired);
    GrownPart(k, y, j, z);
    RenamedTarget(k, y, j, z, desired);
    OneRenamed(s.peers, target, KeyText(j), desired);
  }

  lemma RenamedTarget(k: Key, y: Prefix, j: Key, z: Prefix, desired: Desired)
    requires KeyText(j) != KeyText(k)
    requires desired == map[KeyText(j) := DesiredPeer("b", j, [z]), KeyText(k) := DesiredPeer("c", k, [y])]
    ensures TargetPeers(desired).Keys == GrownStore(k, y, j, z).peers.Keys
    ensures TargetPeers(desired)[KeyText(j)] == PeerInfo("b", j, [z]) && TargetPeers(desired)[KeyText(k)] == PeerInfo("c", k, [y])
  {
    assert TargetPeers(desired) == map[KeyText(j) := PeerInfo("b", j, [z]), KeyText(k) := PeerInfo("c", k, [y])];
  }

  lemma GrownPart(k: Key, y: Prefix, j: Key, z: Prefix)
    ensures TouchedPeers(GrownStore(k, y, j, z), {"b", "c", "d"}) == GrownStore(k, y, j, z).peers
  {
    var s := GrownStore(k, y, j, z);
    assert s.emailToKey["b"] == KeyText(k) && s.emailToKey["d"] == KeyText(j);
  }

  lemma OneRenamed(existing: Peers, target: Peers, t: string, desired: Desired)
    requires target == TargetPeers(desired) && existing.Keys == target.Keys && t in target
    requires forall u :: u in target ==> existing[u].allowed == target[u].allowed
    requires forall u :: u in target ==> (existing[u].email != target[u].email <==> u == t)
    ensures IsSyncDiff(existing, desired, SyncDiff([], [target[t]], [], target, true))
  {
    assert Removable(existing, target) == {} && Updated(existing, target) == {} && Added(existing, target) == {};
    assert Upserted(existing, target) == {t};
    assert PeersAt(target, [t]) == [target[t]];
    assert IsSyncDiffBy(existing, desired, SyncDiff([], [target[t]], [], target, true), [], [], [t]);
  }

  lemma RenameCommits(k: Key, y: Prefix, j: Key, z: Prefix)
    requires KeyText(j) != KeyText(k)
    ensures AfterChanges(GrownStore(k, y, j, z), [], [PeerInfo("b", j, [z])])
         == Store(map[KeyText(j) := PeerInfo("b", j, [z])], map["b" := KeyText(j), "c" := KeyText(k)])
  {
    var s, b := GrownStore(k, y, j, z), PeerInfo("b", j, [z]);
    assert RemoveAll(s, []) == s;
    OneUpsert(s, b);
    RenameUpserts(k, y, j, z);
  }

  lemma RenameUpserts(k: Key, y: Prefix, j: Key, z: Prefix)
    requires KeyText(j) != KeyText(k)
    ensures UpsertOne(GrownStore(k, y, j, z), PeerInfo("b", j, [z]))
         == Store(map[KeyText(j) := PeerInfo("b", j, [z])], map["b" := KeyText(j), "c" := KeyText(k)])
  {
    var s := GrownStore(k, y, j, z);
    var peers1, emails1 := map[KeyText(j) := PeerInfo("d", j, [z])], map["b" := KeyText(k), "c" := KeyText(k)];
    assert s.emailToKey["b"] == KeyText(k) && s.peers - {KeyText(k)} == peers1;
    assert s.emailToKey - {"d"} == emails1;
    assert emails1["b" := KeyText(j)] == map["b" := KeyText(j), "c" := KeyText(k)];
  }

  lemma TouchedSet(n: Node, us: set<User>, desired: Desired, diff: SyncDiff, e: Effect)
    requires Touched(us) == {"b", "c", "d"} && !OwnedByOther(n.store, desired, {"b", "c", "d"})
    requires IsSyncDiff(TouchedPeers(n.store, {"b", "c", "d"}), desired, diff) && PartialSyncBy(n, diff, false, false, e)
    ensures PartialSyncWith(n, us, desired, diff, false, false, e)
  {
  }

  lemma SyncUnreached(n: Node, users: seq<Option<User>>, us: set<User>, desired: Desired, diff: SyncDiff, e: Effect)
    requires us == NormalizedSet(users) && Compatible(us, ONE_INTERFACE) && IsDesired(desired, us, ONE_INTERFACE)
    requires PartialSyncWith(n, us, desired, diff, false, false, e)
    ensures PartialSync(n, users, ONE_INTERFACE, false, false, e)
  {
  }
}
