// Partial sync is the fast form of full sync.
module Refinement {
  import opened Wrappers
  import opened WgKeys
  import opened PeerStores
  import opened DesiredPeers
  import opened SyncDiffs
  import opened SyncSteps
  import opened SyncTheorems
  import opened PartialSyncTheorems
  import opened NodeTheorems

  // In a longer list, later usable users replace earlier ones of equal email.
  lemma {:induction false} LastByEmailOfConcat(us: seq<Option<User>>, ds: seq<Option<User>>)
    ensures LastByEmail(us + ds) == LastByEmail(us) + LastByEmail(ds)
  {
    if ds == [] {
      assert us + ds == us;
    } else {
      var front := ds[..|ds| - 1];
      assert (us + ds)[..|us + ds| - 1] == us + front;
      LastByEmailOfConcat(us, front);
    }
  }

  lemma NormalizedConcat(us: seq<Option<User>>, ds: seq<Option<User>>, u: User)
    ensures u in NormalizedSet(us + ds)
       <==> u in NormalizedSet(ds) || (u in NormalizedSet(us) && u.email !in Touched(NormalizedSet(ds)))
    ensures u in NormalizedSet(us) <==> u.email in LastByEmail(us) && LastByEmail(us)[u.email] == u
  {
    LastByEmailOfConcat(us, ds);
    InNormalized(us, u);
    InNormalized(ds, u);
    InNormalized(us + ds, u);
    TouchedIsDomain(ds);
  }

  lemma InNormalized(us: seq<Option<User>>, u: User)
    ensures u in NormalizedSet(us) <==> u.email in LastByEmail(us) && LastByEmail(us)[u.email] == u
  {
  }

  lemma TouchedIsDomain(us: seq<Option<User>>)
    ensures Touched(NormalizedSet(us)) == LastByEmail(us).Keys
  {
  }

  // The wanted peers of users outside a request, and those of the request.
  function Overlay(m: Peers, touched: set<string>, target: Peers): Peers {
    (map t | t in m && m[t].email !in touched :: m[t]) + target
  }

  // No text of the request is wanted for a user outside it.
  ghost predicate TextsApart(m: Peers, touched: set<string>, target: Peers) {
    forall t :: t in target && t in m ==> m[t].email in touched
  }

  // Laying what ds asks for over what us asks for gives what us + ds ask for.
  lemma OverlayIsTarget(m: Peers, us: seq<Option<User>>, ds: seq<Option<User>>, cfg: Config, target: Peers)
    requires IsTarget(m, us, cfg) && IsTarget(target, ds, cfg)
    requires TextsApart(m, Touched(NormalizedSet(ds)), target)
    ensures IsTarget(Overlay(m, Touched(NormalizedSet(ds)), target), us + ds, cfg)
  {
    var touched := Touched(NormalizedSet(ds));
    var du: Desired :| IsDesired(du, NormalizedSet(us), cfg) && m == TargetPeers(du);
    var dd: Desired :| IsDesired(dd, NormalizedSet(ds), cfg) && target == TargetPeers(dd);
    OverlayOfTargets(du, touched, dd);
    assert forall t :: t in dd && t in du ==> t in target && t in m && m[t].email == du[t].email;
    var both := OverlayDesired(du, touched, dd);
    assert IsDesired(both, NormalizedSet(us + ds), cfg) by {
      OverlayIsDesired(us, ds, cfg, du, dd);
    }
    DesiredIsTarget(both, us + ds, cfg);
  }

  lemma OverlayOfTargets(du: Desired, touched: set<string>, dd: Desired)
    ensures Overlay(TargetPeers(du), touched, TargetPeers(dd)) == TargetPeers(OverlayDesired(du, touched, dd))
  {
    var o, o' := Overlay(TargetPeers(du), touched, TargetPeers(dd)), TargetPeers(OverlayDesired(du, touched, dd));
    assert forall t :: t in o <==> t in o';
    forall t | t in o ensures o[t] == o'[t] {}
  }

  function OverlayDesired(du: Desired, touched: set<string>, dd: Desired): Desired {
    (map t | t in du && du[t].email !in touched :: du[t]) + dd
  }

  lemma OverlayIsDesired(us: seq<Option<User>>, ds: seq<Option<User>>, cfg: Config, du: Desired, dd: Desired)
    requires IsDesired(du, NormalizedSet(us), cfg) && IsDesired(dd, NormalizedSet(ds), cfg)
    requires forall t :: t in dd && t in du ==> du[t].email in Touched(NormalizedSet(ds))
    ensures IsDesired(OverlayDesired(du, Touched(NormalizedSet(ds)), dd), NormalizedSet(us + ds), cfg)
  {
    var both := OverlayDesired(du, Touched(NormalizedSet(ds)), dd);
    forall a | a in AsksOf(NormalizedSet(us + ds), cfg) && a.bid.Some?
      ensures a.bid.value.text in both && both[a.bid.value.text] == a.bid.value.peer
    {
      BidIsServed(us, ds, cfg, du, dd, a);
    }
    forall t | t in both ensures exists a :: a in AsksOf(NormalizedSet(us + ds), cfg) && a.bid.Some? && a.bid.value.text == t {
      var a := ServedBid(us, ds, cfg, du, dd, t);
    }
  }

  lemma ServedBid(us: seq<Option<User>>, ds: seq<Option<User>>, cfg: Config, du: Desired, dd: Desired, t: string)
    returns (a: Ask)
    requires IsDesired(du, NormalizedSet(us), cfg) && IsDesired(dd, NormalizedSet(ds), cfg)
    requires t in dd || (t in du && du[t].email !in Touched(NormalizedSet(ds)))
    ensures a in AsksOf(NormalizedSet(us + ds), cfg) && a.bid.Some? && a.bid.value.text == t
  {
    var u: User;
    if t in dd {
      u := Bidder(dd, NormalizedSet(ds), cfg, t);
    } else {
      u := Bidder(du, NormalizedSet(us), cfg, t);
    }
    NormalizedConcat(us, ds, u);
    a := AskOf(u, cfg);
    assert a in AsksOf(NormalizedSet(us + ds), cfg);
  }

  lemma BidIsServed(us: seq<Option<User>>, ds: seq<Option<User>>, cfg: Config, du: Desired, dd: Desired, a: Ask)
    requires IsDesired(du, NormalizedSet(us), cfg) && IsDesired(dd, NormalizedSet(ds), cfg)
    requires forall t :: t in dd && t in du ==> du[t].email in Touched(NormalizedSet(ds))
    requires a in AsksOf(NormalizedSet(us + ds), cfg) && a.bid.Some?
    ensures var t := a.bid.value.text;
            if t in dd then dd[t] == a.bid.value.peer
            else t in du && du[t].email !in Touched(NormalizedSet(ds)) && du[t] == a.bid.value.peer
  {
    var u :| u in NormalizedSet(us + ds) && AskOf(u, cfg) == a;
    NormalizedConcat(us, ds, u);
    if u in NormalizedSet(ds) {
      assert a in AsksOf(NormalizedSet(ds), cfg);
    } else {
      assert a in AsksOf(NormalizedSet(us), cfg);
    }
  }

  // What every wanted map guarantees, clashes or not.
  lemma TargetTexts(m: Peers, us: seq<Option<User>>, cfg: Config)
    requires IsTarget(m, us, cfg)
    ensures forall t :: t in m ==> ParseKey(t) == Some(m[t].key)
    ensures EmailsDistinct(m)
  {
    NormalizedEmailsIdentify(us);
    var d: Desired :| IsDesired(d, NormalizedSet(us), cfg) && m == TargetPeers(d);
    forall t | t in m ensures ParseKey(t) == Some(m[t].key) {
      var u := Bidder(d, NormalizedSet(us), cfg, t);
    }
    forall t, v | t in m && v in m && m[t].email == m[v].email ensures t == v {
      var x := Bidder(d, NormalizedSet(us), cfg, t);
      var y := Bidder(d, NormalizedSet(us), cfg, v);
    }
  }

  lemma HeldApart(s: Store, m: Peers)
    requires HasPeers(s, m) && EmailsDistinct(m)
    ensures KeysApart(m)
  {
    forall t, u | t in m && u in m && t != u ensures m[t].key != m[u].key {
      assert m[t] in Entries(s) && m[u] in Entries(s);
    }
  }

  // If the store holds what us asks for, the overlaid store holds what both ask for together, as long
  // as no two texts of either spell one key.
  lemma OverlaidHolds(s: Store, touched: set<string>, m: Peers, target: Peers, after: Store)
    requires HasPeers(s, m) && StoreOverlaid(s, touched, target, after) && Bijective(after)
    requires (forall t :: t in m ==> ParseKey(t) == Some(m[t].key))
             && (forall t :: t in target ==> ParseKey(t) == Some(target[t].key))
    requires KeysApart(Overlay(m, touched, target))
    ensures HasPeers(after, Overlay(m, touched, target))
  {
    var both := Overlay(m, touched, target);
    forall q ensures q in Entries(after) <==> q in both.Values {
      OverlaidEntry(s, touched, m, target, q);
    }
  }

  lemma OverlaidEntry(s: Store, touched: set<string>, m: Peers, target: Peers, q: PeerInfo)
    requires HasPeers(s, m)
    requires (forall t :: t in m ==> ParseKey(t) == Some(m[t].key))
             && (forall t :: t in target ==> ParseKey(t) == Some(target[t].key))
    requires KeysApart(Overlay(m, touched, target))
    ensures q in target.Values || Stays(s, touched, target, q) <==> q in Overlay(m, touched, target).Values
  {
    var both := Overlay(m, touched, target);
    if q in target.Values {
      var t :| t in target && target[t] == q;
      assert both[t] == q;
    }
    if Stays(s, touched, target, q) {
      var t :| t in m && m[t] == q;
      assert both[t] == q;
    }
    if q in both.Values && q !in target.Values {
      var t :| t in both && both[t] == q;
      assert t in m && m[t] == q && q in Entries(s) && q.email !in touched;
      forall x | x in target ensures target[x].key != q.key {
        assert both[x] == target[x] && x != t;
      }
    }
  }

  // Users that want one text clash, so a list that is accepted as a whole keeps the texts apart.
  lemma AcceptedTextsApart(us: seq<Option<User>>, ds: seq<Option<User>>, cfg: Config, m: Peers, target: Peers)
    requires IsTarget(m, us, cfg) && IsTarget(target, ds, cfg) && Compatible(NormalizedSet(us + ds), cfg)
    ensures TextsApart(m, Touched(NormalizedSet(ds)), target)
  {
    var a, b := NormalizedSet(us), NormalizedSet(ds);
    var du: Desired :| IsDesired(du, a, cfg) && m == TargetPeers(du);
    var dd: Desired :| IsDesired(dd, b, cfg) && target == TargetPeers(dd);
    CompatibleIff(NormalizedSet(us + ds), cfg);
    forall t | t in target && t in m ensures m[t].email in Touched(b) {
      var u := Bidder(du, a, cfg, t);
      var v := Bidder(dd, b, cfg, t);
      NormalizedConcat(us, ds, u);
      NormalizedConcat(us, ds, v);
      assert v.email in Touched(b);
      assert u.email !in Touched(b) ==> !Clashing(AskOf(u, cfg), AskOf(v, cfg));
    }
  }

  // If the store is what SyncUsers(us) leaves and UpdateUsers(ds) returns nil, the store becomes what
  // SyncUsers(us + ds) leaves, in which ds' users replace those of equal email, exactly when no two
  // texts of the combined list spell one key and the full sync does not find its peers stored already
  // with an email index that leads astray.
  lemma PartialRefinesFullIff(n: Node, us: seq<Option<User>>, ds: seq<Option<User>>, cfg: Config, m: Peers,
          target: Peers, both: Peers, reachable: bool, accepted: bool, e: Effect,
          n2: Node, reachable2: bool, accepted2: bool, full: Effect)
    requires IsTarget(m, us, cfg) && IsTarget(target, ds, cfg) && IsTarget(both, us + ds, cfg)
    requires HasPeers(n.store, m) && WellKeyed(n2.store)
    requires PartialSync(n, ds, cfg, reachable, accepted, e) && e.ok
    requires FullSync(n2, us + ds, cfg, reachable2, accepted2, full) && full.ok
    ensures e.node.store == full.node.store <==> KeysApart(both) && (n2.store.peers == both ==> Bijective(n2.store))
  {
    var touched := Touched(NormalizedSet(ds));
    PartialSyncShape(n, ds, cfg, reachable, accepted, e, target);
    FullSyncShape(n2, us + ds, cfg, reachable2, accepted2, full, both);
    BothIsOverlay(us, ds, cfg, m, target, both);
    if KeysApart(both) && Bijective(full.node.store) {
      RefinesWhenApart(n.store, touched, m, target, e.node.store, full.node.store);
    }
  }

  lemma BothIsOverlay(us: seq<Option<User>>, ds: seq<Option<User>>, cfg: Config, m: Peers, target: Peers, both: Peers)
    requires IsTarget(m, us, cfg) && IsTarget(target, ds, cfg) && IsTarget(both, us + ds, cfg)
    requires Compatible(NormalizedSet(us + ds), cfg)
    ensures both == Overlay(m, Touched(NormalizedSet(ds)), target)
    ensures (forall t :: t in m ==> ParseKey(t) == Some(m[t].key)) && (forall t :: t in target ==> ParseKey(t) == Some(target[t].key))
  {
    AcceptedTextsApart(us, ds, cfg, m, target);
    OverlayIsTarget(m, us, ds, cfg, target);
    TargetUnique(both, Overlay(m, Touched(NormalizedSet(ds)), target), us + ds, cfg);
    TargetTexts(m, us, cfg);
    TargetTexts(target, ds, cfg);
  }

  lemma RefinesWhenApart(s: Store, touched: set<string>, m: Peers, target: Peers, fast: Store, slow: Store)
    requires HasPeers(s, m) && KeysApart(Overlay(m, touched, target))
    requires (forall t :: t in m ==> ParseKey(t) == Some(m[t].key))
             && (forall t :: t in target ==> ParseKey(t) == Some(target[t].key))
    requires KeysApart(target) ==> StoreOverlaid(s, touched, target, fast)
    requires Bijective(fast) && HasPeers(slow, Overlay(m, touched, target))
    ensures fast == slow
  {
    OverlayApart(m, touched, target);
    OverlaidHolds(s, touched, m, target, fast);
    EntriesDetermineStore(fast, slow);
  }

  lemma OverlayApart(m: Peers, touched: set<string>, target: Peers)
    requires KeysApart(Overlay(m, touched, target))
    ensures KeysApart(target)
  {
    var both := Overlay(m, touched, target);
    forall t, u | t in target && u in target && t != u ensures target[t].key != target[u].key {
      assert both[t] == target[t] && both[u] == target[u];
    }
  }

  // A plain request keeps it so.
  lemma PlainOverlayApart(s: Store, touched: set<string>, m: Peers, target: Peers)
    requires HasPeers(s, m) && EmailsDistinct(m) && Admitted(s, target, touched) && PlainRequest(s, target)
    requires forall t :: t in m ==> ParseKey(t) == Some(m[t].key)
    ensures TextsApart(m, touched, target) && KeysApart(Overlay(m, touched, target))
  {
    var both := Overlay(m, touched, target);
    HeldApart(s, m);
    PlainShape(s, touched, target);
    forall t, x | t in m && m[t].email !in touched && x in target ensures target[x].key != m[t].key {
      assert m[t] in Entries(s);
      assert s.peers[m[t].Text()] == m[t];
    }
    forall t | t in target && t in m ensures m[t].email in touched {
      assert target[t].key == m[t].key;
    }
  }

  // ----- when the slow form accepts what the fast form accepts

  // A prefix claimed both by a user that stays and by a user of the request.
  ghost predicate ClaimsOverlap(us: seq<Option<User>>, ds: seq<Option<User>>, cfg: Config) {
    exists u, v :: u in NormalizedSet(us) && u.email !in Touched(NormalizedSet(ds)) && v in NormalizedSet(ds)
                   && AskOf(u, cfg).claims * AskOf(v, cfg).claims != {}
  }

  // A key text wanted both by a user that stays and by a user of the request.
  ghost predicate KeysOverlap(us: seq<Option<User>>, ds: seq<Option<User>>, cfg: Config) {
    exists u, v :: u in NormalizedSet(us) && u.email !in Touched(NormalizedSet(ds)) && v in NormalizedSet(ds)
                   && AskOf(u, cfg).bid.Some? && AskOf(v, cfg).bid.Some?
                   && AskOf(u, cfg).bid.value.text == AskOf(v, cfg).bid.value.text
  }

  lemma CompatibleIff(us: set<User>, cfg: Config)
    ensures Compatible(us, cfg) <==> forall u, v :: u in us && v in us ==> !Clashing(AskOf(u, cfg), AskOf(v, cfg))
  {
  }

  lemma CompatibleConcatIff(us: seq<Option<User>>, ds: seq<Option<User>>, cfg: Config)
    requires Compatible(NormalizedSet(us), cfg)
    ensures Compatible(NormalizedSet(us + ds), cfg)
       <==> Compatible(NormalizedSet(ds), cfg) && !ClaimsOverlap(us, ds, cfg) && !KeysOverlap(us, ds, cfg)
  {
    var a, b, all := NormalizedSet(us), NormalizedSet(ds), NormalizedSet(us + ds);
    CompatibleIff(a, cfg);
    CompatibleIff(b, cfg);
    CompatibleIff(all, cfg);
    forall u ensures u in all <==> u in b || (u in a && u.email !in Touched(b)) { NormalizedConcat(us, ds, u); }
    if Compatible(all, cfg) {
      forall u, v | u in a && u.email !in Touched(b) && v in b
        ensures AskOf(u, cfg).claims * AskOf(v, cfg).claims == {}
        ensures !(AskOf(u, cfg).bid.Some? && AskOf(v, cfg).bid.Some? && AskOf(u, cfg).bid.value.text == AskOf(v, cfg).bid.value.text)
      {
        assert !Clashing(AskOf(u, cfg), AskOf(v, cfg));
        assert v.email in Touched(b);
      }
    }
    if Compatible(b, cfg) && !ClaimsOverlap(us, ds, cfg) && !KeysOverlap(us, ds, cfg) {
      forall u, v | u in all && v in all ensures !Clashing(AskOf(u, cfg), AskOf(v, cfg)) {
        if u in b && v !in b {
          assert AskOf(v, cfg).claims * AskOf(u, cfg).claims == AskOf(u, cfg).claims * AskOf(v, cfg).claims;
        }
      }
    }
  }

  // A text of the request under which a user outside it wants a peer, given what that list wants.
  ghost predicate TextShared(m: Peers, touched: set<string>, target: Peers) {
    exists t :: t in target && t in m && m[t].email !in touched
  }

  // The text of a key that a user outside the request has, however that user spelled it.
  ghost predicate KeyShared(m: Peers, touched: set<string>, target: Peers) {
    exists t, x :: t in target && x in m && m[x].Text() == t && m[x].email !in touched
  }

  // The ownership check of full sync compares texts, that of partial sync compares the texts of the request
  // with the texts the stored keys print as.
  lemma OwnershipChecksIff(s: Store, us: seq<Option<User>>, ds: seq<Option<User>>, cfg: Config, m: Peers, dd: Desired)
    requires IsTarget(m, us, cfg) && HasPeers(s, m) && IsDesired(dd, NormalizedSet(ds), cfg)
    ensures KeysOverlap(us, ds, cfg) <==> TextShared(m, Touched(NormalizedSet(ds)), TargetPeers(dd))
    ensures OwnedByOther(s, dd, Touched(NormalizedSet(ds))) <==> KeyShared(m, Touched(NormalizedSet(ds)), TargetPeers(dd))
  {
    var touched := Touched(NormalizedSet(ds));
    if TextShared(m, touched, TargetPeers(dd)) { SharedMeansOverlap(m, us, ds, cfg, dd); }
    if KeysOverlap(us, ds, cfg) { OverlapMeansShared(m, us, ds, cfg, dd); }
    DesiredTouched(dd, ds, cfg);
    OwnedIffShared(s, touched, m, dd);
  }

  lemma DesiredTouched(dd: Desired, ds: seq<Option<User>>, cfg: Config)
    requires IsDesired(dd, NormalizedSet(ds), cfg)
    ensures forall t :: t in dd ==> dd[t].email in Touched(NormalizedSet(ds))
  {
    forall t | t in dd ensures dd[t].email in Touched(NormalizedSet(ds)) {
      var u := Bidder(dd, NormalizedSet(ds), cfg, t);
    }
  }

  lemma OwnedIffShared(s: Store, touched: set<string>, m: Peers, dd: Desired)
    requires HasPeers(s, m) && forall t :: t in dd ==> dd[t].email in touched
    ensures OwnedByOther(s, dd, touched) <==> KeyShared(m, touched, TargetPeers(dd))
  {
    if t :| t in dd && t in s.peers && s.peers[t].email != dd[t].email && s.peers[t].email !in touched {
      assert s.peers[t] in Entries(s);
      var x :| x in m && m[x] == s.peers[t];
      assert t in TargetPeers(dd) && m[x].Text() == t;
    }
    if t, x :| t in TargetPeers(dd) && x in m && m[x].Text() == t && m[x].email !in touched {
      assert m[x] in Entries(s);
      assert t in s.peers && s.peers[t] == m[x] && t in dd;
    }
  }

  lemma SharedMeansOverlap(m: Peers, us: seq<Option<User>>, ds: seq<Option<User>>, cfg: Config, dd: Desired)
    requires IsTarget(m, us, cfg) && IsDesired(dd, NormalizedSet(ds), cfg)
    requires TextShared(m, Touched(NormalizedSet(ds)), TargetPeers(dd))
    ensures KeysOverlap(us, ds, cfg)
  {
    var a, b := NormalizedSet(us), NormalizedSet(ds);
    var du: Desired :| IsDesired(du, a, cfg) && m == TargetPeers(du);
    var t :| t in dd && t in m && m[t].email !in Touched(b);
    var u := Bidder(du, a, cfg, t);
    var v := Bidder(dd, b, cfg, t);
  }

  lemma Served(d: Desired, us: set<User>, cfg: Config, u: User)
    requires IsDesired(d, us, cfg) && u in us && AskOf(u, cfg).bid.Some?
    ensures AskOf(u, cfg).bid.value.text in d && d[AskOf(u, cfg).bid.value.text].email == u.email
  {
    var a := AskOf(u, cfg);
    assert a in AsksOf(us, cfg);
  }

  lemma OverlapMeansShared(m: Peers, us: seq<Option<User>>, ds: seq<Option<User>>, cfg: Config, dd: Desired)
    requires IsTarget(m, us, cfg) && IsDesired(dd, NormalizedSet(ds), cfg)
    requires KeysOverlap(us, ds, cfg)
    ensures TextShared(m, Touched(NormalizedSet(ds)), TargetPeers(dd))
  {
    var a, b := NormalizedSet(us), NormalizedSet(ds);
    var du: Desired :| IsDesired(du, a, cfg) && m == TargetPeers(du);
    var u, v :| u in a && u.email !in Touched(b) && v in b && AskOf(u, cfg).bid.Some? && AskOf(v, cfg).bid.Some?
                && AskOf(u, cfg).bid.value.text == AskOf(v, cfg).bid.value.text;
    Served(du, a, cfg, u);
    Served(dd, b, cfg, v);
    SharedText(du, dd, Touched(b), AskOf(u, cfg).bid.value.text);
  }

  lemma SharedText(du: Desired, dd: Desired, touched: set<string>, t: string)
    requires t in du && t in dd && du[t].email !in touched
    ensures TextShared(TargetPeers(du), touched, TargetPeers(dd))
  {
    assert t in TargetPeers(dd) && t in TargetPeers(du);
  }

  // With the kernel reachable and willing, and any key texts: what SyncUsers(us + ds) accepts and what
  // UpdateUsers(ds) accepts when the store has what us asks for. The first refuses claims shared with a user
  // that stays and shared texts; the second does not look at claims, and refuses texts of stored keys.
  lemma AcceptanceIff(n: Node, us: seq<Option<User>>, ds: seq<Option<User>>, cfg: Config, m: Peers, target: Peers, e: Effect)
    requires IsTarget(m, us, cfg) && HasPeers(n.store, m) && Compatible(NormalizedSet(us), cfg)
    requires IsTarget(target, ds, cfg) && PartialSync(n, ds, cfg, true, true, e)
    ensures e.ok <==> Compatible(NormalizedSet(ds), cfg) && !KeyShared(m, Touched(NormalizedSet(ds)), target)
    ensures Compatible(NormalizedSet(us + ds), cfg)
       <==> Compatible(NormalizedSet(ds), cfg) && !ClaimsOverlap(us, ds, cfg) && !TextShared(m, Touched(NormalizedSet(ds)), target)
  {
    var dd: Desired :| IsDesired(dd, NormalizedSet(ds), cfg) && target == TargetPeers(dd);
    CompatibleConcatIff(us, ds, cfg);
    OwnershipChecksIff(n.store, us, ds, cfg, m, dd);
    if Compatible(NormalizedSet(ds), cfg) { AcceptedIffNotOwned(n, ds, cfg, dd, e); }
  }

  lemma AcceptedIffNotOwned(n: Node, ds: seq<Option<User>>, cfg: Config, dd: Desired, e: Effect)
    requires Compatible(NormalizedSet(ds), cfg) && IsDesired(dd, NormalizedSet(ds), cfg) && PartialSync(n, ds, cfg, true, true, e)
    ensures e.ok <==> !OwnedByOther(n.store, dd, Touched(NormalizedSet(ds)))
  {
    var b := NormalizedSet(ds);
    var d: Desired, diff :| IsDesired(d, b, cfg) && PartialSyncWith(n, b, d, diff, true, true, e);
    ServesUnique(d, dd, AsksOf(b, cfg));
  }

  // When the peers of us are filed under their own texts, UpdateUsers(ds) is accepted whenever
  // SyncUsers(us + ds) is; it also accepts, and SyncUsers refuses, exactly the requests in which a prefix
  // is claimed by a user that stays.
  lemma FullAcceptsIff(n: Node, us: seq<Option<User>>, ds: seq<Option<User>>, cfg: Config, m: Peers, target: Peers, e: Effect)
    requires IsTarget(m, us, cfg) && HasPeers(n.store, m) && Compatible(NormalizedSet(us), cfg) && FiledByKey(m)
    requires IsTarget(target, ds, cfg) && PartialSync(n, ds, cfg, true, true, e)
    ensures Compatible(NormalizedSet(us + ds), cfg) <==> e.ok && !ClaimsOverlap(us, ds, cfg)
  {
    AcceptanceIff(n, us, ds, cfg, m, target, e);
    FiledTextsAreKeys(m, Touched(NormalizedSet(ds)), target);
  }

  lemma FiledTextsAreKeys(m: Peers, touched: set<string>, target: Peers)
    requires FiledByKey(m)
    ensures TextShared(m, touched, target) <==> KeyShared(m, touched, target)
  {
    if t :| t in target && t in m && m[t].email !in touched { assert m[t].Text() == t; }
  }
}
