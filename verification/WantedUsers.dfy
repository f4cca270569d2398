// Which users get a peer, and which one, in terms of the user list and the interface configuration only.
module WantedUsers {
  import opened Wrappers
  import opened Cidr
  import opened WgKeys
  import opened Enumerations
  import opened DesiredPeers

  // ----- addresses

  // Every address of p is one of q.
  ghost predicate Inside(p: Prefix, q: Prefix) {
    p.width == q.width && forall addr: nat :: Holds(p, addr) ==> Holds(q, addr)
  }

  // Inside an address of the interface, or anywhere when the interface has no address that parses.
  ghost predicate OnInterface(p: Prefix, addresses: seq<IpText>) {
    || (forall i :: 0 <= i < |addresses| ==> addresses[i].None?)
    || exists i :: 0 <= i < |addresses| && addresses[i].Some? && Inside(p, addresses[i].value)
  }

  // What ParseCIDR returns is masked.
  ghost predicate Masked(texts: seq<IpText>) {
    forall i :: 0 <= i < |texts| && texts[i].Some? ==> texts[i].value.Masked()
  }

  lemma {:induction false} NetworkIff(addresses: seq<IpText>, q: Prefix)
    ensures q in Networks(addresses) <==> exists i :: 0 <= i < |addresses| && addresses[i] == Some(q)
  {
    if addresses != [] {
      var front := addresses[..|addresses| - 1];
      NetworkIff(front, q);
      if i :| 0 <= i < |front| && front[i] == Some(q) { assert addresses[i] == Some(q); }
      if i :| 0 <= i < |addresses| && addresses[i] == Some(q) { assert i < |front| ==> front[i] == Some(q); }
    }
  }

  lemma NoNetworkIff(addresses: seq<IpText>)
    ensures Networks(addresses) == [] <==> forall i :: 0 <= i < |addresses| ==> addresses[i].None?
  {
    if Networks(addresses) != [] {
      NetworkIff(addresses, Networks(addresses)[0]);
    }
    if i :| 0 <= i < |addresses| && addresses[i].Some? {
      NetworkIff(addresses, addresses[i].value);
    }
  }

  lemma OnInterfaceIff(p: Prefix, addresses: seq<IpText>)
    requires p.Masked() && Masked(addresses)
    ensures PeerIPAllowed(p, Networks(addresses)) <==> OnInterface(p, addresses)
  {
    var nets := Networks(addresses);
    NoNetworkIff(addresses);
    forall i | 0 <= i < |nets| ensures nets[i].Masked() { NetworkIff(addresses, nets[i]); }
    PeerIPAllowedIff(p, nets);
    if i :| 0 <= i < |nets| && Inside(p, nets[i]) {
      NetworkIff(addresses, nets[i]);
    }
    if i :| 0 <= i < |addresses| && addresses[i].Some? && Inside(p, addresses[i].value) {
      NetworkIff(addresses, addresses[i].value);
      var j :| 0 <= j < |nets| && nets[j] == addresses[i].value;
      assert Inside(p, nets[j]);
    }
  }

  // ----- one user

  ghost predicate Enrolled(u: User, cfg: Config) {
    && cfg.interfaceName in u.inbounds
    && u.wireguard.Some? && ParseKey(u.wireguard.value.publicKey).Some?
  }

  // All addresses of the user parse, and one of them is on the interface.
  ghost predicate GetsPeer(u: User, cfg: Config) {
    && Enrolled(u, cfg)
    && (forall i :: 0 <= i < |u.wireguard.value.peerIps| ==> u.wireguard.value.peerIps[i].Some?)
    && exists i :: 0 <= i < |u.wireguard.value.peerIps| && OnInterface(u.wireguard.value.peerIps[i].value, cfg.addresses)
  }

  // The user names the prefix, it is on the interface, and everything before it parses.
  ghost predicate ClaimsPrefix(u: User, cfg: Config, p: Prefix) {
    && Enrolled(u, cfg) && OnInterface(p, cfg.addresses)
    && exists i :: 0 <= i < |u.wireguard.value.peerIps| && u.wireguard.value.peerIps[i] == Some(p)
                   && forall j :: 0 <= j < i ==> u.wireguard.value.peerIps[j].Some?
  }

  function Texts(ps: seq<Prefix>): seq<IpText> {
    seq(|ps|, k requires 0 <= k < |ps| => Some(ps[k]))
  }

  ghost function KeptTexts(cfg: Config): IpText -> bool {
    (t: IpText) => t.Some? && OnInterface(t.value, cfg.addresses)
  }

  // The peer a user gets: its email, its key, and of its addresses those on the interface, in order.
  ghost predicate IsPeerOf(peer: DesiredPeer, u: User, cfg: Config)
    requires GetsPeer(u, cfg)
  {
    && peer.email == u.email && Some(peer.key) == ParseKey(u.wireguard.value.publicKey)
    && Filters(u.wireguard.value.peerIps, KeptTexts(cfg), Texts(peer.allowed))
  }

  ghost predicate MaskedUser(u: User) {
    u.wireguard.Some? ==> Masked(u.wireguard.value.peerIps)
  }

  lemma {:induction false} AllParseIff(ips: seq<IpText>)
    ensures AllParse(ips) <==> forall i :: 0 <= i < |ips| ==> ips[i].Some?
  {
    if ips != [] {
      AllParseIff(ips[1..]);
      if AllParse(ips) {
        forall i | 0 <= i < |ips| ensures ips[i].Some? { assert i > 0 ==> ips[1..][i - 1] == ips[i]; }
      }
    }
  }

  lemma {:induction false} ClaimedIff(ips: seq<IpText>, nets: seq<Prefix>, p: Prefix)
    ensures p in ClaimList(ips, nets) <==>
              PeerIPAllowed(p, nets)
              && exists i :: 0 <= i < |ips| && ips[i] == Some(p) && forall j :: 0 <= j < i ==> ips[j].Some?
  {
    if ips != [] && ips[0].Some? {
      var rest := ips[1..];
      ClaimedIff(rest, nets, p);
      if i :| 0 <= i < |rest| && rest[i] == Some(p) && forall j :: 0 <= j < i ==> rest[j].Some? {
        forall j | 0 <= j < i + 1 ensures ips[j].Some? { assert j > 0 ==> ips[j] == rest[j - 1]; }
        assert ips[i + 1] == Some(p);
      }
      if i :| 0 <= i < |ips| && ips[i] == Some(p) && forall j :: 0 <= j < i ==> ips[j].Some? {
        assert i > 0 ==> rest[i - 1] == Some(p) && forall j :: 0 <= j < i - 1 ==> rest[j] == ips[j + 1];
      }
    }
  }

  lemma TextsExtended(p: Prefix, ps: seq<Prefix>)
    ensures Texts([p] + ps) == [Some(p)] + Texts(ps)
  {
  }

  lemma ClaimListUnfolds(ips: seq<IpText>, nets: seq<Prefix>)
    requires ips != [] && ips[0].Some?
    ensures ClaimList(ips, nets)
         == if PeerIPAllowed(ips[0].value, nets) then [ips[0].value] + ClaimList(ips[1..], nets) else ClaimList(ips[1..], nets)
  {
  }

  lemma {:induction false} ClaimListFilters(ips: seq<IpText>, nets: seq<Prefix>, keep: IpText -> bool)
    requires forall t :: t in ips ==> t.Some? && (keep(t) <==> PeerIPAllowed(t.value, nets))
    ensures Filters(ips, keep, Texts(ClaimList(ips, nets)))
  {
    if ips == [] {
      FiltersNothing(keep);
      assert Texts(ClaimList(ips, nets)) == [];
    } else {
      var head, rest := ips[0], ips[1..];
      var more := ClaimList(rest, nets);
      ClaimListFilters(rest, nets, keep);
      ClaimListUnfolds(ips, nets);
      TextsExtended(head.value, more);
      FiltersCons(head, rest, keep, Texts(more), ips, Texts(ClaimList(ips, nets)));
    }
  }

  lemma AskMeaning(u: User, cfg: Config)
    requires Masked(cfg.addresses) && MaskedUser(u)
    ensures AskOf(u, cfg).bid.Some? <==> GetsPeer(u, cfg)
    ensures forall p :: p in AskOf(u, cfg).claims <==> ClaimsPrefix(u, cfg, p)
    ensures GetsPeer(u, cfg) ==>
              AskOf(u, cfg).bid.value.text == u.wireguard.value.publicKey && IsPeerOf(AskOf(u, cfg).bid.value.peer, u, cfg)
  {
    if u.wireguard.Some? && Enrolled(u, cfg) {
      EnrolledClaims(u, cfg);
      EnrolledBid(u, cfg);
    } else {
      EmptyTextHasNoKey();
    }
  }

  lemma EmptyTextHasNoKey()
    ensures ParseKey("").None?
  {
  }

  lemma EnrolledClaims(u: User, cfg: Config)
    requires Enrolled(u, cfg) && Masked(cfg.addresses) && Masked(u.wireguard.value.peerIps)
    ensures forall p :: p in ClaimList(u.wireguard.value.peerIps, Networks(cfg.addresses)) <==> ClaimsPrefix(u, cfg, p)
  {
    var ips, nets := u.wireguard.value.peerIps, Networks(cfg.addresses);
    forall p ensures p in ClaimList(ips, nets) <==> ClaimsPrefix(u, cfg, p) {
      ClaimedIff(ips, nets, p);
      if exists i :: 0 <= i < |ips| && ips[i] == Some(p) { OnInterfaceIff(p, cfg.addresses); }
    }
  }

  lemma BidUnfolds(u: User, cfg: Config)
    requires Enrolled(u, cfg)
    ensures var text, claims := u.wireguard.value.publicKey, ClaimList(u.wireguard.value.peerIps, Networks(cfg.addresses));
            AskOf(u, cfg).bid == if AllParse(u.wireguard.value.peerIps) && claims != []
                                 then Some(Bid(text, DesiredPeer(u.email, ParseKey(text).value, claims))) else None
  {
  }

  lemma EnrolledBid(u: User, cfg: Config)
    requires Enrolled(u, cfg) && Masked(cfg.addresses) && Masked(u.wireguard.value.peerIps)
    ensures AskOf(u, cfg).bid.Some? <==> GetsPeer(u, cfg)
    ensures GetsPeer(u, cfg) ==> IsPeerOf(AskOf(u, cfg).bid.value.peer, u, cfg)
  {
    var ips := u.wireguard.value.peerIps;
    BidUnfolds(u, cfg);
    AllParseIff(ips);
    if AllParse(ips) { SomeAllowedIff(ips, cfg); }
    if GetsPeer(u, cfg) { BidIsPeer(u, cfg, AskOf(u, cfg).bid.value.peer); }
  }

  lemma BidIsPeer(u: User, cfg: Config, peer: DesiredPeer)
    requires GetsPeer(u, cfg) && Masked(cfg.addresses) && Masked(u.wireguard.value.peerIps)
    requires peer == DesiredPeer(u.email, ParseKey(u.wireguard.value.publicKey).value,
                                 ClaimList(u.wireguard.value.peerIps, Networks(cfg.addresses)))
    ensures IsPeerOf(peer, u, cfg)
  {
    AllowedFilter(u.wireguard.value.peerIps, cfg);
  }

  lemma SomeAllowedIff(ips: seq<IpText>, cfg: Config)
    requires Masked(cfg.addresses) && Masked(ips) && forall i :: 0 <= i < |ips| ==> ips[i].Some?
    ensures ClaimList(ips, Networks(cfg.addresses)) != [] <==> exists i :: 0 <= i < |ips| && OnInterface(ips[i].value, cfg.addresses)
  {
    var nets := Networks(cfg.addresses);
    var claims := ClaimList(ips, nets);
    if claims != [] {
      ClaimedIff(ips, nets, claims[0]);
      var i :| 0 <= i < |ips| && ips[i] == Some(claims[0]);
      OnInterfaceIff(claims[0], cfg.addresses);
    }
    if i :| 0 <= i < |ips| && OnInterface(ips[i].value, cfg.addresses) {
      OnInterfaceIff(ips[i].value, cfg.addresses);
      assert ips[i] == Some(ips[i].value);
      ClaimedIff(ips, nets, ips[i].value);
    }
  }

  lemma AllowedFilter(ips: seq<IpText>, cfg: Config)
    requires Masked(cfg.addresses) && Masked(ips) && forall i :: 0 <= i < |ips| ==> ips[i].Some?
    ensures Filters(ips, KeptTexts(cfg), Texts(ClaimList(ips, Networks(cfg.addresses))))
  {
    forall t | t in ips ensures t.Some? && (KeptTexts(cfg)(t) <==> PeerIPAllowed(t.value, Networks(cfg.addresses))) {
      var i :| 0 <= i < |ips| && ips[i] == t;
      OnInterfaceIff(t.value, cfg.addresses);
    }
    ClaimListFilters(ips, Networks(cfg.addresses), KeptTexts(cfg));
  }

  // ----- the list

  // Two users that may not be in one list: they claim one prefix, or both get a peer under one key text.
  ghost predicate Conflict(u: User, v: User, cfg: Config) {
    && u.email != v.email
    && ((exists p :: ClaimsPrefix(u, cfg, p) && ClaimsPrefix(v, cfg, p))
        || (GetsPeer(u, cfg) && GetsPeer(v, cfg) && u.wireguard.value.publicKey == v.wireguard.value.publicKey))
  }

  lemma ConflictIff(u: User, v: User, cfg: Config)
    requires Masked(cfg.addresses) && MaskedUser(u) && MaskedUser(v)
    ensures Clashing(AskOf(u, cfg), AskOf(v, cfg)) <==> Conflict(u, v, cfg)
  {
    AskMeaning(u, cfg);
    AskMeaning(v, cfg);
    var a, b := AskOf(u, cfg).claims, AskOf(v, cfg).claims;
    if p :| p in a * b { assert ClaimsPrefix(u, cfg, p) && ClaimsPrefix(v, cfg, p); }
    if p :| ClaimsPrefix(u, cfg, p) && ClaimsPrefix(v, cfg, p) { assert p in a * b; }
  }

  // What is wanted for a set of users: exactly for those that get one, the peer under the text of its key.
  ghost predicate IsWanted(m: Desired, us: set<User>, cfg: Config) {
    && (forall u :: u in us && GetsPeer(u, cfg) ==>
          u.wireguard.value.publicKey in m && IsPeerOf(m[u.wireguard.value.publicKey], u, cfg))
    && (forall t :: t in m ==> exists u :: u in us && GetsPeer(u, cfg) && u.wireguard.value.publicKey == t)
  }

  ghost predicate MaskedUsers(us: set<User>) {
    forall u :: u in us ==> MaskedUser(u)
  }

  lemma WantedMeaning(m: Desired, us: set<User>, cfg: Config)
    requires Masked(cfg.addresses) && MaskedUsers(us) && IsDesired(m, us, cfg)
    ensures IsWanted(m, us, cfg)
  {
    forall u | u in us && GetsPeer(u, cfg)
      ensures u.wireguard.value.publicKey in m && IsPeerOf(m[u.wireguard.value.publicKey], u, cfg)
    {
      AskMeaning(u, cfg);
      assert AskOf(u, cfg) in AsksOf(us, cfg);
    }
    forall t | t in m ensures exists u :: u in us && GetsPeer(u, cfg) && u.wireguard.value.publicKey == t {
      var a :| a in AsksOf(us, cfg) && a.bid.Some? && a.bid.value.text == t;
      var u :| u in us && AskOf(u, cfg) == a;
      AskMeaning(u, cfg);
    }
  }

  lemma CompatibleMeaning(us: set<User>, cfg: Config)
    requires Masked(cfg.addresses) && MaskedUsers(us)
    ensures Compatible(us, cfg) <==> forall u, v :: u in us && v in us ==> !Conflict(u, v, cfg)
  {
    if Compatible(us, cfg) {
      forall u, v | u in us && v in us ensures !Conflict(u, v, cfg) {
        ConflictIff(u, v, cfg);
        assert AskOf(u, cfg) in AsksOf(us, cfg) && AskOf(v, cfg) in AsksOf(us, cfg);
      }
    } else {
      var a, b :| a in AsksOf(us, cfg) && b in AsksOf(us, cfg) && Clashing(a, b);
      var u :| u in us && AskOf(u, cfg) == a;
      var v :| v in us && AskOf(v, cfg) == b;
      ConflictIff(u, v, cfg);
    }
  }

  // collectDesiredPeers on users of distinct emails: it fails exactly when two of them conflict, and
  // otherwise returns for exactly the users that get one the peer described, under its key text.
  lemma CollectMeaning(users: seq<User>, cfg: Config)
    requires DistinctEmails(users) && Masked(cfg.addresses) && MaskedUsers(SetOf(users))
    ensures Collect(users, cfg).Ok? <==> forall u, v :: u in users && v in users ==> !Conflict(u, v, cfg)
    ensures Collect(users, cfg).Ok? ==> IsWanted(Collect(users, cfg).value, SetOf(users), cfg)
  {
    CollectShape(users, cfg);
    CompatibleMeaning(SetOf(users), cfg);
    if Collect(users, cfg).Ok? { WantedMeaning(Collect(users, cfg).value, SetOf(users), cfg); }
    assert forall u :: u in users <==> u in SetOf(users);
  }

  // ----- the error

  lemma {:induction false} ScanClash(ips: seq<IpText>, nets: seq<Prefix>, email: string,
                                     seen: map<Prefix, string>, allowed: seq<Prefix>)
    requires ScanIps(ips, nets, email, seen, allowed).Clash?
    ensures var clash := ScanIps(ips, nets, email, seen, allowed);
            clash.prefix in ClaimList(ips, nets) && clash.prefix in seen && seen[clash.prefix] == clash.owner != email
  {
    var p := ips[0].value;
    if !PeerIPAllowed(p, nets) {
      ScanClash(ips[1..], nets, email, seen, allowed);
    } else if !(p in seen && seen[p] != email) {
      ScanClash(ips[1..], nets, email, seen[p := email], allowed + [p]);
    }
  }

  // The error names a prefix or a key text, the earlier user that has it, and the later one that wants it.
  ghost predicate Names(e: CollectError, users: seq<User>, cfg: Config, i: nat, j: nat)
    requires i < j < |users|
  {
    && e.owner == users[i].email && e.claimant == users[j].email
    && match e
       case DuplicateIp(p, _, _) => ClaimsPrefix(users[i], cfg, p) && ClaimsPrefix(users[j], cfg, p)
       case DuplicateKey(t, _, _) =>
         && GetsPeer(users[i], cfg) && GetsPeer(users[j], cfg)
         && users[i].wireguard.value.publicKey == t == users[j].wireguard.value.publicKey
  }

  lemma StepError(users: seq<User>, cfg: Config, acc: Progress, u: User) returns (i: nat)
    requires Masked(cfg.addresses) && MaskedUsers(SetOf(users)) && MaskedUser(u)
    requires Tracks(acc, AsksOf(SetOf(users), cfg)) && StepUser(u, cfg, acc).Err?
    ensures i < |users| && Names(StepUser(u, cfg, acc).error, users + [u], cfg, i, |users|)
  {
    AskMeaning(u, cfg);
    var a := StepOwner(users, cfg, acc, u);
    var v :| v in SetOf(users) && AskOf(v, cfg) == a;
    i :| 0 <= i < |users| && users[i] == v;
    AskMeaning(v, cfg);
    assert (users + [u])[i] == v && (users + [u])[|users|] == u;
  }

  lemma ErrorShape(u: User, cfg: Config, acc: Progress)
    requires StepUser(u, cfg, acc).Err?
    ensures StepUser(u, cfg, acc).error.claimant == u.email
    ensures match StepUser(u, cfg, acc).error
            case DuplicateIp(p, owner, _) => p in AskOf(u, cfg).claims && p in acc.seen && acc.seen[p] == owner
            case DuplicateKey(t, owner, _) =>
              AskOf(u, cfg).bid.Some? && AskOf(u, cfg).bid.value.text == t && t in acc.desired && acc.desired[t].email == owner
  {
    var ips, nets := u.PeerIps(), Networks(cfg.addresses);
    ScanIpsShape(ips, nets, u.email, acc.seen, []);
    if ScanIps(ips, nets, u.email, acc.seen, []).Clash? { ScanClash(ips, nets, u.email, acc.seen, []); }
    assert [] + ClaimList(ips, nets) == ClaimList(ips, nets);
  }

  // The ask of the user in whose way the next one is.
  lemma StepOwner(users: seq<User>, cfg: Config, acc: Progress, u: User) returns (a: Ask)
    requires Tracks(acc, AsksOf(SetOf(users), cfg)) && StepUser(u, cfg, acc).Err?
    ensures a in AsksOf(SetOf(users), cfg)
    ensures var e, b := StepUser(u, cfg, acc).error, AskOf(u, cfg);
            && e.owner == a.email && e.claimant == u.email
            && match e
               case DuplicateIp(p, _, _) => p in a.claims && p in b.claims
               case DuplicateKey(t, _, _) => a.bid.Some? && b.bid.Some? && a.bid.value.text == t == b.bid.value.text
  {
    ErrorShape(u, cfg, acc);
    match StepUser(u, cfg, acc).error
    case DuplicateIp(p, _, _) => a := OwnerOfIp(AsksOf(SetOf(users), cfg), acc, p);
    case DuplicateKey(t, _, _) =>
      a := OwnerOfKey(AsksOf(SetOf(users), cfg), acc, t);
      BidOfOwner(users, cfg, a);
  }

  lemma OwnerOfIp(asks: set<Ask>, acc: Progress, p: Prefix) returns (a: Ask)
    requires Tracks(acc, asks) && p in acc.seen
    ensures a in asks && p in a.claims && a.email == acc.seen[p]
  {
    a :| a in asks && p in a.claims;
  }

  lemma OwnerOfKey(asks: set<Ask>, acc: Progress, t: string) returns (a: Ask)
    requires Tracks(acc, asks) && t in acc.desired
    ensures a in asks && a.bid.Some? && a.bid.value.text == t && a.bid.value.peer.email == acc.desired[t].email
  {
    a :| a in asks && a.bid.Some? && a.bid.value.text == t;
  }

  lemma BidOfOwner(users: seq<User>, cfg: Config, a: Ask)
    requires a in AsksOf(SetOf(users), cfg) && a.bid.Some?
    ensures a.bid.value.peer.email == a.email
  {
    var v :| v in SetOf(users) && AskOf(v, cfg) == a;
  }

  // When collection fails, it names the first user that is in conflict with one before it.
  lemma {:induction false} CollectErrorMeaning(users: seq<User>, cfg: Config) returns (i: nat, j: nat)
    requires DistinctEmails(users) && Masked(cfg.addresses) && MaskedUsers(SetOf(users))
    requires Collect(users, cfg).Err?
    ensures i < j < |users| && Names(Collect(users, cfg).error, users, cfg, i, j) && Collect(users[..j], cfg).Ok?
  {
    var front, last := users[..|users| - 1], users[|users| - 1];
    assert users == front + [last];
    if Collect(front, cfg).Err? {
      i, j := CollectErrorMeaning(front, cfg);
      assert users[..j] == front[..j] && users[i] == front[i] && users[j] == front[j];
    } else {
      CollectUpToShape(front, cfg);
      i := StepError(front, cfg, CollectUpTo(front, cfg).value, last);
      j := |front|;
    }
  }

  // ----- which users normalisation keeps

  // A user that can be handled at all.
  ghost predicate Complete(u: User) {
    u.email != "" && u.wireguard.Some? && u.wireguard.value.publicKey != "" && u.wireguard.value.peerIps != []
  }

  // A complete user of the list after which no complete user has that email.
  ghost predicate KeptFrom(users: seq<Option<User>>, u: User) {
    exists i :: 0 <= i < |users| && IsLastAt(users, u, i)
  }

  ghost predicate IsLastAt(users: seq<Option<User>>, u: User, i: nat)
    requires i < |users|
  {
    && users[i] == Some(u) && Complete(u)
    && forall j :: i < j < |users| && users[j].Some? && Complete(users[j].value) ==> users[j].value.email != u.email
  }

  // A complete user with that email.
  ghost predicate Replaces(last: Option<User>, u: User) {
    last.Some? && Complete(last.value) && last.value.email == u.email
  }

  lemma LastAtExtended(front: seq<Option<User>>, last: Option<User>, u: User, i: nat)
    requires i < |front|
    ensures IsLastAt(front + [last], u, i) <==> IsLastAt(front, u, i) && !Replaces(last, u)
  {
    var users := front + [last];
    assert users[|front|] == last && users[i] == front[i];
    assert forall j :: i < j < |front| ==> users[j] == front[j];
  }

  lemma KeptExtended(front: seq<Option<User>>, last: Option<User>, u: User)
    ensures KeptFrom(front + [last], u) <==> (last == Some(u) && Complete(u)) || (KeptFrom(front, u) && !Replaces(last, u))
  {
    var users := front + [last];
    assert IsLastAt(users, u, |front|) <==> last == Some(u) && Complete(u);
    if i :| 0 <= i < |users| && IsLastAt(users, u, i) {
      if i < |front| { LastAtExtended(front, last, u, i); }
    }
    if i :| 0 <= i < |front| && IsLastAt(front, u, i) {
      LastAtExtended(front, last, u, i);
    }
  }

  lemma LastByEmailUnfolds(front: seq<Option<User>>, last: Option<User>, u: User)
    ensures var m, m' := LastByEmail(front), LastByEmail(front + [last]);
            (u.email in m' && m'[u.email] == u) <==>
              (last == Some(u) && Complete(u)) || (u.email in m && m[u.email] == u && !Replaces(last, u))
  {
    assert (front + [last])[..|front|] == front;
  }

  lemma {:induction false} LastByEmailIff(users: seq<Option<User>>, u: User)
    ensures u.email in LastByEmail(users) && LastByEmail(users)[u.email] == u <==> KeptFrom(users, u)
  {
    if users != [] {
      var front, last := users[..|users| - 1], users[|users| - 1];
      assert users == front + [last];
      LastByEmailIff(front, u);
      LastByEmailUnfolds(front, last, u);
      KeptExtended(front, last, u);
    }
  }

  // normalizeUsers keeps exactly those.
  lemma NormalizedIff(users: seq<Option<User>>, u: User)
    ensures u in NormalizedSet(users) <==> KeptFrom(users, u)
  {
    LastByEmailIff(users, u);
  }
}
