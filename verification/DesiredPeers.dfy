// backend/wireguard/user_common.go: from a list of users to the peers an interface should have.
module DesiredPeers {
  import opened Wrappers
  import opened Cidr
  import opened WgKeys
  import opened Enumerations

  // One text of a user's peer_ips: None when ParseCIDR rejects it.
  type IpText = Option<Prefix>

  datatype WireguardProxy = WireguardProxy(publicKey: string, peerIps: seq<IpText>)

  // wireguard is None when the user has no proxies or no WireGuard proxy.
  datatype User = User(email: string, inbounds: seq<string>, wireguard: Option<WireguardProxy>) {
    function PublicKey(): string {
      if wireguard.Some? then wireguard.value.publicKey else ""
    }
    function PeerIps(): seq<IpText> {
      if wireguard.Some? then wireguard.value.peerIps else []
    }
  }

  // The parts of the interface configuration peers depend on. An address that is blank or that
  // ParseCIDR rejects is None.
  datatype Config = Config(interfaceName: string, addresses: seq<IpText>)

  // The addresses that parse, in order.
  function Networks(addresses: seq<IpText>): seq<Prefix> {
    if addresses == [] then []
    else
      var last := addresses[|addresses| - 1];
      Networks(addresses[..|addresses| - 1]) + if last.Some? then [last.value] else []
  }

  datatype DesiredPeer = DesiredPeer(email: string, key: Key, allowed: seq<Prefix>)

  type Desired = map<string, DesiredPeer>

  datatype CollectError =
    | DuplicateIp(prefix: Prefix, owner: string, claimant: string)
    | DuplicateKey(publicKey: string, owner: string, claimant: string)

  // ----- normalizeUsers

  predicate Usable(u: User) {
    && u.email != ""
    && u.wireguard.Some?
    && u.wireguard.value.publicKey != ""
    && |u.wireguard.value.peerIps| != 0
  }

  // The last usable user of each email; nil users are None.
  function LastByEmail(users: seq<Option<User>>): (m: map<string, User>)
    ensures forall e :: e in m ==> m[e].email == e && Usable(m[e])
  {
    if users == [] then map[]
    else
      var before := LastByEmail(users[..|users| - 1]);
      var last := users[|users| - 1];
      if last.Some? && Usable(last.value) then before[last.value.email := last.value] else before
  }

  ghost function NormalizedSet(users: seq<Option<User>>): set<User> {
    LastByEmail(users).Values
  }

  ghost predicate DistinctEmails(users: seq<User>) {
    forall i, j :: 0 <= i < j < |users| ==> users[i].email != users[j].email
  }

  // One email, one user.
  ghost predicate EmailsIdentify(us: set<User>) {
    forall u, v :: u in us && v in us && u.email == v.email ==> u == v
  }

  lemma NormalizedEmailsIdentify(users: seq<Option<User>>)
    ensures EmailsIdentify(NormalizedSet(users))
  {
  }

  method NormalizeUsers(users: seq<Option<User>>) returns (normalized: seq<User>)
    ensures SetOf(normalized) == NormalizedSet(users)
    ensures DistinctEmails(normalized)
  {
    var lastByEmail: map<string, User> := map[];
    for i := 0 to |users|
      invariant lastByEmail == LastByEmail(users[..i])
    {
      assert users[..i + 1][..i] == users[..i];
      if users[i].Some? && Usable(users[i].value) {
        lastByEmail := lastByEmail[users[i].value.email := users[i].value];
      }
    }
    assert users[..|users|] == users;

    normalized := [];
    var rest := lastByEmail.Keys;
    while rest != {}
      invariant rest <= lastByEmail.Keys
      invariant forall u :: u in normalized ==> u.email in lastByEmail && u.email !in rest && lastByEmail[u.email] == u
      invariant forall e :: e in lastByEmail && e !in rest ==> lastByEmail[e] in normalized
      invariant DistinctEmails(normalized)
      decreases rest
    {
      var e :| e in rest;
      normalized := normalized + [lastByEmail[e]];
      rest := rest - {e};
    }
    forall u ensures u in SetOf(normalized) <==> u in lastByEmail.Values {
      if u in lastByEmail.Values {
        var e :| e in lastByEmail && lastByEmail[e] == u;
      }
      if u in normalized {
        assert lastByEmail[u.email] in lastByEmail.Values;
      }
    }
  }

  // ----- collectDesiredPeers, one user at a time

  predicate Included(u: User, cfg: Config) {
    cfg.interfaceName in u.inbounds
  }

  datatype Scan =
    | Clash(prefix: Prefix, owner: string)
    | Broken(seen: map<Prefix, string>)
    | Scanned(seen: map<Prefix, string>, allowed: seq<Prefix>)

  // The loop over one user's peer IPs.
  function ScanIps(ips: seq<IpText>, nets: seq<Prefix>, email: string,
                   seen: map<Prefix, string>, allowed: seq<Prefix>): Scan
  {
    if ips == [] then Scanned(seen, allowed)
    else match ips[0]
      case None => Broken(seen)
      case Some(p) =>
        if !PeerIPAllowed(p, nets) then ScanIps(ips[1..], nets, email, seen, allowed)
        else if p in seen && seen[p] != email then Clash(p, seen[p])
        else ScanIps(ips[1..], nets, email, seen[p := email], allowed + [p])
  }

  datatype Progress = Progress(seen: map<Prefix, string>, desired: Desired)

  const START := Progress(map[], map[])

  function StepUser(u: User, cfg: Config, acc: Progress): Result<Progress, CollectError> {
    if !Included(u, cfg) then Ok(acc)
    else match ParseKey(u.PublicKey())
      case None => Ok(acc)
      case Some(key) =>
        match ScanIps(u.PeerIps(), Networks(cfg.addresses), u.email, acc.seen, [])
        case Clash(p, owner) => Err(DuplicateIp(p, owner, u.email))
        case Broken(seen) => Ok(acc.(seen := seen))
        case Scanned(seen, allowed) =>
          if allowed == [] then Ok(acc.(seen := seen))
          else if u.PublicKey() in acc.desired && acc.desired[u.PublicKey()].email != u.email then
            Err(DuplicateKey(u.PublicKey(), acc.desired[u.PublicKey()].email, u.email))
          else Ok(Progress(seen, acc.desired[u.PublicKey() := DesiredPeer(u.email, key, allowed)]))
  }

  function CollectUpTo(users: seq<User>, cfg: Config): Result<Progress, CollectError> {
    if users == [] then Ok(START)
    else match CollectUpTo(users[..|users| - 1], cfg)
      case Err(e) => Err(e)
      case Ok(acc) => StepUser(users[|users| - 1], cfg, acc)
  }

  function Collect(users: seq<User>, cfg: Config): Result<Desired, CollectError> {
    match CollectUpTo(users, cfg)
    case Err(e) => Err(e)
    case Ok(acc) => Ok(acc.desired)
  }

  lemma {:induction false} ErrorStays(users: seq<User>, cfg: Config, i: nat)
    requires i <= |users| && CollectUpTo(users[..i], cfg).Err?
    ensures CollectUpTo(users, cfg) == CollectUpTo(users[..i], cfg)
  {
    if i == |users| {
      assert users[..i] == users;
    } else {
      assert users[..|users| - 1][..i] == users[..i];
      ErrorStays(users[..|users| - 1], cfg, i);
    }
  }

  method InterfaceNetworks(addresses: seq<IpText>) returns (out: seq<Prefix>)
    ensures out == Networks(addresses)
  {
    out := [];
    for i := 0 to |addresses|
      invariant out == Networks(addresses[..i])
    {
      assert addresses[..i + 1][..i] == addresses[..i];
      if addresses[i].None? { continue; }
      out := out + [addresses[i].value];
    }
    assert addresses[..|addresses|] == addresses;
  }

  method CollectDesiredPeers(users: seq<User>, cfg: Config) returns (r: Result<Desired, CollectError>)
    ensures r == Collect(users, cfg)
  {
    var desired: Desired := map[];
    var seenIPs: map<Prefix, string> := map[];
    for i := 0 to |users|
      invariant CollectUpTo(users[..i], cfg) == Ok(Progress(seenIPs, desired))
    {
      var u := users[i];
      assert users[..i + 1][..i] == users[..i];
      assert CollectUpTo(users[..i + 1], cfg) == StepUser(u, cfg, Progress(seenIPs, desired));
      if !Included(u, cfg) { continue; }
      var key := ParseKey(u.PublicKey());
      if key.None? { continue; }

      var nets := InterfaceNetworks(cfg.addresses);
      var ips := u.PeerIps();
      var allowed: seq<Prefix> := [];
      var invalid := false;
      ghost var verdict := ScanIps(ips, nets, u.email, seenIPs, []);
      var j := 0;
      while j < |ips|
        invariant 0 <= j <= |ips| && !invalid
        invariant ScanIps(ips[j..], nets, u.email, seenIPs, allowed) == verdict
      {
        assert ips[j..][1..] == ips[j + 1..];
        if ips[j].None? {
          invalid := true;
          break;
        }
        var p := ips[j].value;
        j := j + 1;
        if !PeerIPAllowed(p, nets) { continue; }
        if p in seenIPs && seenIPs[p] != u.email {
          r := Err(DuplicateIp(p, seenIPs[p], u.email));
          ErrorStays(users, cfg, i + 1);
          return;
        }
        seenIPs := seenIPs[p := u.email];
        allowed := allowed + [p];
      }
      if invalid || |allowed| == 0 { continue; }
      var pk := u.PublicKey();
      if pk in desired && desired[pk].email != u.email {
        r := Err(DuplicateKey(pk, desired[pk].email, u.email));
        ErrorStays(users, cfg, i + 1);
        return;
      }
      desired := desired[pk := DesiredPeer(u.email, key.value, allowed)];
    }
    assert users[..|users|] == users;
    r := Ok(desired);
  }

  // ----- what one user asks for, seen apart from the others

  // The prefixes a user claims: those allowed on the interface, up to the first invalid text.
  function ClaimList(ips: seq<IpText>, nets: seq<Prefix>): (claims: seq<Prefix>)
    ensures forall p :: p in claims ==> PeerIPAllowed(p, nets)
  {
    if ips == [] || ips[0].None? then []
    else if PeerIPAllowed(ips[0].value, nets) then [ips[0].value] + ClaimList(ips[1..], nets)
    else ClaimList(ips[1..], nets)
  }

  predicate AllParse(ips: seq<IpText>) {
    ips == [] || (ips[0].Some? && AllParse(ips[1..]))
  }

  datatype Bid = Bid(text: string, peer: DesiredPeer)

  // claims: prefixes nobody else may claim, even if the user ends up quarantined.
  // bid: the peer the user gets when nobody clashes with it.
  datatype Ask = Ask(email: string, claims: set<Prefix>, bid: Option<Bid>)

  function AskOf(u: User, cfg: Config): (a: Ask)
    ensures a.email == u.email
    ensures a.bid.Some? ==>
              && a.bid.value.text == u.PublicKey()
              && a.bid.value.peer.email == u.email
              && ParseKey(a.bid.value.text) == Some(a.bid.value.peer.key)
              && a.bid.value.peer.allowed != []
              && SetOf(a.bid.value.peer.allowed) == a.claims
    ensures forall p :: p in a.claims ==> PeerIPAllowed(p, Networks(cfg.addresses))
  {
    if !Included(u, cfg) then Ask(u.email, {}, None)
    else match ParseKey(u.PublicKey())
      case None => Ask(u.email, {}, None)
      case Some(key) =>
        var claims := ClaimList(u.PeerIps(), Networks(cfg.addresses));
        Ask(u.email, set p | p in claims,
            if AllParse(u.PeerIps()) && claims != [] then Some(Bid(u.PublicKey(), DesiredPeer(u.email, key, claims)))
            else None)
  }

  // Two users may not claim one prefix, nor both get a peer under one key text.
  predicate Clashing(a: Ask, b: Ask) {
    && a.email != b.email
    && (a.claims * b.claims != {} || (a.bid.Some? && b.bid.Some? && a.bid.value.text == b.bid.value.text))
  }

  ghost function AsksOf(us: set<User>, cfg: Config): set<Ask> {
    set u | u in us :: AskOf(u, cfg)
  }

  ghost predicate NoClash(asks: set<Ask>) {
    forall a, b :: a in asks && b in asks ==> !Clashing(a, b)
  }

  ghost predicate Compatible(us: set<User>, cfg: Config) {
    NoClash(AsksOf(us, cfg))
  }

  // m holds every peer that is asked for, under its key text, and nothing else.
  ghost predicate Serves(m: Desired, asks: set<Ask>) {
    && (forall a :: a in asks && a.bid.Some? ==> a.bid.value.text in m && m[a.bid.value.text] == a.bid.value.peer)
    && (forall t :: t in m ==> exists a :: a in asks && a.bid.Some? && a.bid.value.text == t)
  }

  ghost predicate IsDesired(m: Desired, us: set<User>, cfg: Config) {
    Serves(m, AsksOf(us, cfg))
  }

  // ----- the loop in terms of asks

  ghost predicate Rejected(a: Ask, acc: Progress) {
    || (exists p :: p in a.claims && p in acc.seen && acc.seen[p] != a.email)
    || (a.bid.Some? && a.bid.value.text in acc.desired && acc.desired[a.bid.value.text].email != a.email)
  }

  ghost function Absorbed(a: Ask, acc: Progress): Progress {
    Progress(acc.seen + (map p | p in a.claims :: a.email),
             if a.bid.Some? then acc.desired[a.bid.value.text := a.bid.value.peer] else acc.desired)
  }

  ghost predicate Tracks(acc: Progress, asks: set<Ask>) {
    && (forall a, p :: a in asks && p in a.claims ==> p in acc.seen && acc.seen[p] == a.email)
    && (forall p :: p in acc.seen ==> exists a :: a in asks && p in a.claims)
    && Serves(acc.desired, asks)
  }

  // seen after the user has claimed those prefixes
  ghost function Claimed(seen: map<Prefix, string>, claims: seq<Prefix>, email: string): map<Prefix, string> {
    seen + map p | p in SetOf(claims) :: email
  }

  ghost predicate AnyTaken(seen: map<Prefix, string>, claims: seq<Prefix>, email: string) {
    exists p :: p in claims && p in seen && seen[p] != email
  }

  lemma ClaimedStep(seen: map<Prefix, string>, p: Prefix, more: seq<Prefix>, email: string)
    ensures Claimed(seen[p := email], more, email) == Claimed(seen, [p] + more, email)
  {
  }

  lemma TakenStep(seen: map<Prefix, string>, p: Prefix, more: seq<Prefix>, email: string)
    requires p in seen ==> seen[p] == email
    ensures AnyTaken(seen[p := email], more, email) <==> AnyTaken(seen, [p] + more, email)
  {
  }

  lemma {:induction false} ScanIpsShape(ips: seq<IpText>, nets: seq<Prefix>, email: string,
                                        seen: map<Prefix, string>, allowed: seq<Prefix>)
    ensures var claims := ClaimList(ips, nets);
            ScanIps(ips, nets, email, seen, allowed).Clash? <==> AnyTaken(seen, claims, email)
    ensures var scan := ScanIps(ips, nets, email, seen, allowed);
            && (!scan.Clash? ==> scan.seen == Claimed(seen, ClaimList(ips, nets), email) && (scan.Scanned? <==> AllParse(ips)))
            && (scan.Scanned? ==> scan.allowed == allowed + ClaimList(ips, nets))
  {
    if ips != [] && ips[0].Some? {
      var p, rest := ips[0].value, ips[1..];
      var more := ClaimList(rest, nets);
      if !PeerIPAllowed(p, nets) {
        ScanIpsShape(rest, nets, email, seen, allowed);
      } else if p in seen && seen[p] != email {
        assert p in [p] + more;
      } else {
        ClaimedStep(seen, p, more, email);
        TakenStep(seen, p, more, email);
        ScanIpsShape(rest, nets, email, seen[p := email], allowed + [p]);
        assert (allowed + [p]) + more == allowed + ([p] + more);
      }
    }
  }

  lemma StepIsAbsorbed(u: User, cfg: Config, acc: Progress)
    ensures StepUser(u, cfg, acc).Err? <==> Rejected(AskOf(u, cfg), acc)
    ensures StepUser(u, cfg, acc).Ok? ==> StepUser(u, cfg, acc).value == Absorbed(AskOf(u, cfg), acc)
  {
    if Included(u, cfg) && ParseKey(u.PublicKey()).Some? {
      var nets := Networks(cfg.addresses);
      ScanIpsShape(u.PeerIps(), nets, u.email, acc.seen, []);
      assert [] + ClaimList(u.PeerIps(), nets) == ClaimList(u.PeerIps(), nets);
      assert AskOf(u, cfg).claims == SetOf(ClaimList(u.PeerIps(), nets));
      assert Claimed(acc.seen, ClaimList(u.PeerIps(), nets), u.email)
          == acc.seen + (map p | p in AskOf(u, cfg).claims :: u.email);
    } else {
      assert acc.seen + (map p | p in AskOf(u, cfg).claims :: u.email) == acc.seen;
    }
  }

  lemma AbsorbTracks(a: Ask, acc: Progress, asks: set<Ask>)
    requires Tracks(acc, asks) && forall b :: b in asks ==> b.email != a.email
    requires forall b :: b in asks && b.bid.Some? ==> b.bid.value.peer.email == b.email
    ensures Rejected(a, acc) <==> exists b :: b in asks && Clashing(a, b)
    ensures !Rejected(a, acc) ==> Tracks(Absorbed(a, acc), asks + {a})
  {
    if Rejected(a, acc) {
      if p :| p in a.claims && p in acc.seen && acc.seen[p] != a.email {
        var b :| b in asks && p in b.claims;
        assert p in a.claims * b.claims;
        assert Clashing(a, b);
      } else {
        var b :| b in asks && b.bid.Some? && b.bid.value.text == a.bid.value.text;
        assert Clashing(a, b);
      }
    } else {
      forall b | b in asks ensures !Clashing(a, b) {
        forall p | p in b.claims ensures p !in a.claims {}
        assert a.claims * b.claims == {};
      }
      AbsorbedServes(a, acc, asks);
      var acc' := Absorbed(a, acc);
      forall b, p | b in asks + {a} && p in b.claims ensures p in acc'.seen && acc'.seen[p] == b.email {
        if b != a { assert !Clashing(a, b) && p !in a.claims * b.claims; }
      }
      forall p | p in acc'.seen ensures exists b :: b in asks + {a} && p in b.claims {
        if p in a.claims {
          assert a in asks + {a};
        } else {
          var b :| b in asks && p in b.claims;
          assert b in asks + {a};
        }
      }
    }
  }

  lemma AbsorbedServes(a: Ask, acc: Progress, asks: set<Ask>)
    requires Serves(acc.desired, asks) && forall b :: b in asks ==> b.email != a.email && !Clashing(a, b)
    ensures Serves(Absorbed(a, acc).desired, asks + {a})
  {
  }

  lemma {:induction false} CollectUpToShape(users: seq<User>, cfg: Config)
    requires DistinctEmails(users)
    ensures CollectUpTo(users, cfg).Ok? <==> Compatible(SetOf(users), cfg)
    ensures CollectUpTo(users, cfg).Ok? ==> Tracks(CollectUpTo(users, cfg).value, AsksOf(SetOf(users), cfg))
  {
    if users == [] {
      assert AsksOf(SetOf(users), cfg) == {};
    } else {
      var front, last := users[..|users| - 1], users[|users| - 1];
      assert users == front + [last];
      CollectUpToShape(front, cfg);
      AsksExtended(front, last, cfg);
      var asks, a := AsksOf(SetOf(front), cfg), AskOf(last, cfg);
      NoClashExtended(asks, a);
      if CollectUpTo(front, cfg).Ok? {
        var acc := CollectUpTo(front, cfg).value;
        StepIsAbsorbed(last, cfg, acc);
        AbsorbTracks(a, acc, asks);
      }
    }
  }

  lemma AsksExtended(front: seq<User>, last: User, cfg: Config)
    requires DistinctEmails(front + [last])
    ensures AsksOf(SetOf(front + [last]), cfg) == AsksOf(SetOf(front), cfg) + {AskOf(last, cfg)}
    ensures forall b :: b in AsksOf(SetOf(front), cfg) ==>
              b.email != last.email && (b.bid.Some? ==> b.bid.value.peer.email == b.email)
  {
    var users := front + [last];
    assert SetOf(users) == SetOf(front) + {last};
    forall b | b in AsksOf(SetOf(front), cfg)
      ensures b.email != last.email && (b.bid.Some? ==> b.bid.value.peer.email == b.email)
    {
      var v :| v in SetOf(front) && AskOf(v, cfg) == b;
      var i :| 0 <= i < |front| && front[i] == v;
      assert users[i] == v && users[|front|] == last;
    }
  }

  lemma NoClashExtended(asks: set<Ask>, a: Ask)
    ensures NoClash(asks + {a}) <==> NoClash(asks) && forall b :: b in asks ==> !Clashing(a, b)
  {
  }

  // For users of distinct emails: collection fails exactly when two of them clash, and otherwise
  // returns each user's own peer under its key text, and nothing else.
  lemma CollectShape(users: seq<User>, cfg: Config)
    requires DistinctEmails(users)
    ensures Collect(users, cfg).Ok? <==> Compatible(SetOf(users), cfg)
    ensures Collect(users, cfg).Ok? ==> IsDesired(Collect(users, cfg).value, SetOf(users), cfg)
  {
    CollectUpToShape(users, cfg);
  }

  lemma ServesUnique(m1: Desired, m2: Desired, asks: set<Ask>)
    requires Serves(m1, asks) && Serves(m2, asks)
    ensures m1 == m2
  {
  }

  // The order of the list, which normalizeUsers leaves to Go's map iteration, changes neither
  // whether collection fails nor what it returns.
  lemma CollectConfluent(us: seq<User>, vs: seq<User>, cfg: Config)
    requires DistinctEmails(us) && multiset(us) == multiset(vs)
    ensures DistinctEmails(vs)
    ensures Collect(us, cfg).Ok? <==> Collect(vs, cfg).Ok?
    ensures Collect(us, cfg).Ok? ==> Collect(us, cfg) == Collect(vs, cfg)
  {
    forall u ensures u in us <==> u in vs {
      assert u in us <==> u in multiset(us);
      assert u in vs <==> u in multiset(vs);
    }
    assert SetOf(us) == SetOf(vs);
    forall i, j | 0 <= i < j < |vs| ensures vs[i].email != vs[j].email {
      PermutedDistinct(us, vs, i, j);
    }
    CollectShape(us, cfg);
    CollectShape(vs, cfg);
    if Collect(us, cfg).Ok? {
      ServesUnique(Collect(us, cfg).value, Collect(vs, cfg).value, AsksOf(SetOf(us), cfg));
    }
  }

  lemma PermutedDistinct(us: seq<User>, vs: seq<User>, i: nat, j: nat)
    requires DistinctEmails(us) && multiset(us) == multiset(vs) && i < j < |vs|
    ensures vs[i].email != vs[j].email
  {
    assert vs[i] in multiset(us) && vs[j] in multiset(us);
    var a :| 0 <= a < |us| && us[a] == vs[i];
    var b :| 0 <= b < |us| && us[b] == vs[j];
    if vs[i].email == vs[j].email {
      assert a == b;
      var x := vs[i];
      assert vs == vs[..i] + [x] + vs[i + 1..j] + [x] + vs[j + 1..];
      assert multiset(vs)[x] >= 2;
      DistinctCountsOnce(us, a);
    }
  }

  lemma DistinctCountsOnce(us: seq<User>, a: nat)
    requires DistinctEmails(us) && a < |us|
    ensures multiset(us)[us[a]] == 1
  {
    var x := us[a];
    assert us == us[..a] + [x] + us[a + 1..];
    assert x !in us[..a] && x !in us[a + 1..];
    assert multiset(us[..a])[x] == 0 && multiset(us[a + 1..])[x] == 0;
  }
}
