// backend/xray/config.go, user.go, api/account.go: the client map of one inbound, and the three
// ways of bringing it up to date.
module XrayClients {
  import opened Wrappers
  import opened Passwords

  // A proxy id is None when uuid.Parse rejects it.
  type Uuid = Option<string>

  datatype VlessProxy = VlessProxy(id: Uuid, flow: string)
  datatype ShadowsocksProxy = ShadowsocksProxy(password: string, cipher: string)

  datatype User = User(
    email: string,
    inbounds: seq<string>,
    vmess: Option<Uuid>,
    vless: Option<VlessProxy>,
    trojan: Option<string>,
    shadowsocks: Option<ShadowsocksProxy>,
    hysteria: Option<string>)

  datatype Account =
    | VmessAccount(email: string, id: string)
    | VlessAccount(email: string, id: string, flow: string)
    | TrojanAccount(email: string, password: string)
    | ShadowsocksTcpAccount(email: string, password: string, cipher: string)
    | ShadowsocksAccount(email: string, password: string)
    | HysteriaAccount(email: string, auth: string)

  type Clients = map<string, Account>

  // What of an inbound its clients depend on. cipher is Settings["method"] when that is a string.
  datatype Spec = Spec(tag: string, protocol: string, cipher: Option<string>, exclude: bool) {
    predicate Is2022() {
      protocol == "shadowsocks" && cipher.Some? && "2022-blake3" <= cipher.value
    }

    // Normalising a 2022 password a second time changes nothing.
    predicate Settled() {
      Is2022() ==> Supported(cipher.value)
    }
  }

  const CIPHERS := {"aes-128-gcm", "aes-256-gcm", "chacha20-poly1305", "chacha20-ietf-poly1305",
                    "xchacha20-poly1305", "xchacha20-ietf-poly1305", "none"}

  // ----- account constructors

  function NewVmess(u: User): Option<Account> {
    if u.vmess.Some? && u.vmess.value.Some? then Some(VmessAccount(u.email, u.vmess.value.value)) else None
  }

  function NewVless(u: User): Option<Account> {
    if u.vless.Some? && u.vless.value.id.Some?
    then Some(VlessAccount(u.email, u.vless.value.id.value, u.vless.value.flow)) else None
  }

  function NewTrojan(u: User): Option<Account> {
    if u.trojan.Some? then Some(TrojanAccount(u.email, u.trojan.value)) else None
  }

  function NewShadowsocksTcp(u: User): Option<Account> {
    if u.shadowsocks.None? then None
    else Some(ShadowsocksTcpAccount(u.email, u.shadowsocks.value.password,
                                    if u.shadowsocks.value.cipher in CIPHERS then u.shadowsocks.value.cipher else "none"))
  }

  function NewShadowsocks(u: User): Option<Account> {
    if u.shadowsocks.None? then None else Some(ShadowsocksAccount(u.email, u.shadowsocks.value.password))
  }

  function NewHysteria(u: User): Option<Account> {
    if u.hysteria.Some? then Some(HysteriaAccount(u.email, u.hysteria.value)) else None
  }

  // setupUserAccount
  datatype ProxySettings = ProxySettings(
    vmess: Option<Account>, vless: Option<Account>, trojan: Option<Account>,
    shadowsocks: Option<Account>, shadowsocks2022: Option<Account>, hysteria: Option<Account>)

  function SetupUserAccount(u: User): ProxySettings {
    ProxySettings(NewVmess(u), NewVless(u), NewTrojan(u), NewShadowsocksTcp(u), NewShadowsocks(u), NewHysteria(u))
  }

  // checkShadowsocks2022
  function Normalized(cipher: string, a: Account, sha: Hash): Account {
    if a.ShadowsocksAccount? then a.(password := EnsureBase64Password(a.password, cipher, sha)) else a
  }

  // isActiveInbound: the account a user has on an inbound, if any.
  function ActiveAccount(ib: Spec, u: User, sha: Hash): Option<Account> {
    var settings := SetupUserAccount(u);
    if ib.tag !in u.inbounds then None
    else if ib.protocol == "vless" then settings.vless
    else if ib.protocol == "vmess" then settings.vmess
    else if ib.protocol == "trojan" then settings.trojan
    else if ib.protocol == "shadowsocks" then
      if ib.Is2022() then
        if settings.shadowsocks2022.None? then None
        else Some(Normalized(ib.cipher.value, settings.shadowsocks2022.value, sha))
      else settings.shadowsocks
    else if ib.protocol == "hysteria" then settings.hysteria
    else None
  }

  // ----- the three updates, as functions of the map before

  // One round of the loop of Inbound.syncUsers.
  function Synced(ib: Spec, clients: Clients, u: User, sha: Hash): Clients {
    if ib.protocol == "vmess" then
      if u.vmess.Some? && ib.tag in u.inbounds && NewVmess(u).Some? then clients[u.email := NewVmess(u).value] else clients
    else if ib.protocol == "vless" then
      if u.vless.Some? && ib.tag in u.inbounds && NewVless(u).Some? then clients[u.email := NewVless(u).value] else clients
    else if ib.protocol == "trojan" then
      if u.trojan.Some? && ib.tag in u.inbounds then clients[u.email := NewTrojan(u).value] else clients
    else if ib.protocol == "shadowsocks" then
      if u.shadowsocks.None? || ib.tag !in u.inbounds then clients
      else if ib.Is2022() then clients[u.email := Normalized(ib.cipher.value, NewShadowsocks(u).value, sha)]
      else clients[u.email := NewShadowsocksTcp(u).value]
    else if ib.protocol == "hysteria" then
      if u.hysteria.Some? && ib.tag in u.inbounds then clients[u.email := NewHysteria(u).value] else clients
    else clients
  }

  // Inbound.syncUsers
  function Rebuilt(ib: Spec, users: seq<User>, sha: Hash): Clients {
    if users == [] then map[] else Synced(ib, Rebuilt(ib, users[..|users| - 1], sha), users[|users| - 1], sha)
  }

  // Inbound.updateUser: a 2022 password is normalised again, whatever the method.
  function Stored(ib: Spec, clients: Clients, a: Account, sha: Hash): Clients {
    clients[a.email := if a.ShadowsocksAccount? && ib.cipher.Some? then Normalized(ib.cipher.value, a, sha) else a]
  }

  // One inbound of SyncUser.
  function SyncedOne(ib: Spec, clients: Clients, u: User, sha: Hash): Clients {
    match ActiveAccount(ib, u, sha)
    case Some(a) => Stored(ib, clients, a, sha)
    case None => clients - {u.email}
  }

  function SyncedEach(ib: Spec, clients: Clients, users: seq<User>, sha: Hash): Clients {
    if users == [] then clients else SyncedOne(ib, SyncedEach(ib, clients, users[..|users| - 1], sha), users[|users| - 1], sha)
  }

  // buildInboundUpdates, for one inbound.
  datatype Update = Update(accounts: seq<Account>, removeEmails: set<string>)

  function Extended(up: Update, ib: Spec, u: User, sha: Hash): Update {
    match ActiveAccount(ib, u, sha)
    case Some(a) => up.(accounts := up.accounts + [a])
    case None => up.(removeEmails := up.removeEmails + {u.email})
  }

  function UpdateFor(ib: Spec, users: seq<User>, sha: Hash): Update {
    if users == [] then Update([], {}) else Extended(UpdateFor(ib, users[..|users| - 1], sha), ib, users[|users| - 1], sha)
  }

  // One round of the account loop of Inbound.updateUsers: accounts of another protocol are passed over.
  function Upserted(ib: Spec, clients: Clients, a: Account, sha: Hash): Clients {
    if ib.protocol == "vmess" then if a.VmessAccount? then clients[a.email := a] else clients
    else if ib.protocol == "vless" then if a.VlessAccount? then clients[a.email := a] else clients
    else if ib.protocol == "trojan" then if a.TrojanAccount? then clients[a.email := a] else clients
    else if ib.protocol == "shadowsocks" then
      if ib.Is2022() then
        if a.ShadowsocksAccount? then clients[a.email := Normalized(ib.cipher.value, a, sha)] else clients
      else if a.ShadowsocksTcpAccount? then clients[a.email := a] else clients
    else if ib.protocol == "hysteria" then if a.HysteriaAccount? then clients[a.email := a] else clients
    else clients
  }

  function UpsertedAll(ib: Spec, clients: Clients, accounts: seq<Account>, sha: Hash): Clients {
    if accounts == [] then clients
    else Upserted(ib, UpsertedAll(ib, clients, accounts[..|accounts| - 1], sha), accounts[|accounts| - 1], sha)
  }

  // Inbound.updateUsers: first the accounts, then the removals.
  function Updated(ib: Spec, clients: Clients, up: Update, sha: Hash): Clients {
    UpsertedAll(ib, clients, up.accounts, sha) - up.removeEmails
  }

  // ----- email by email

  function At(clients: Clients, e: string): Option<Account> {
    if e in clients then Some(clients[e]) else None
  }

  // The entry an active account ends up as after a delta.
  function Kept(ib: Spec, a: Account, sha: Hash): Account {
    if ib.Is2022() then Normalized(ib.cipher.value, a, sha) else a
  }

  lemma ActiveShape(ib: Spec, u: User, sha: Hash, clients: Clients)
    ensures ActiveAccount(ib, u, sha).Some? ==>
              var a := ActiveAccount(ib, u, sha).value;
              && a.email == u.email
              && Upserted(ib, clients, a, sha) == clients[u.email := Kept(ib, a, sha)]
              && Stored(ib, clients, a, sha) == clients[u.email := Kept(ib, a, sha)]
    ensures Synced(ib, clients, u, sha)
         == match ActiveAccount(ib, u, sha)
            case Some(a) => clients[u.email := a]
            case None => clients
  {
  }

  // With a settled inbound the second normalisation is invisible.
  lemma KeptIsActive(ib: Spec, u: User, sha: Hash)
    requires ib.Settled() && ActiveAccount(ib, u, sha).Some?
    ensures Kept(ib, ActiveAccount(ib, u, sha).value, sha) == ActiveAccount(ib, u, sha).value
  {
    if ib.Is2022() {
      Idempotent(u.shadowsocks.value.password, ib.cipher.value, sha);
    }
  }

  // On an inbound whose cipher is not a known one, one delta keeps the client a rebuild would
  // make exactly when the hash of the normalised password is the hash of the password.
  lemma UnsettledKeptIff(ib: Spec, u: User, sha: Hash)
    requires ib.Is2022() && !Supported(ib.cipher.value) && ActiveAccount(ib, u, sha).Some?
    ensures var a, password := ActiveAccount(ib, u, sha).value, u.shadowsocks.value.password;
            Kept(ib, a, sha) == a <==> sha(a.password) == sha(password)
  {
    UnsupportedIdempotentIff(u.shadowsocks.value.password, ib.cipher.value, sha);
  }

  // The last user of that email, as an index; |users| when there is none.
  function LastIndex(users: seq<User>, e: string): (i: nat)
    ensures i <= |users|
    ensures i < |users| ==> users[i].email == e && forall j :: i < j < |users| ==> users[j].email != e
    ensures i == |users| ==> forall j :: 0 <= j < |users| ==> users[j].email != e
  {
    if users == [] then 0
    else if users[|users| - 1].email == e then |users| - 1
    else
      var k := LastIndex(users[..|users| - 1], e);
      if k == |users| - 1 then |users| else k
  }

  function LastUser(users: seq<User>, e: string): Option<User> {
    var i := LastIndex(users, e);
    if i < |users| then Some(users[i]) else None
  }

  // The last user of that email that is active on the inbound.
  function LastActive(ib: Spec, users: seq<User>, e: string, sha: Hash): Option<Account> {
    if users == [] then None
    else
      var u := users[|users| - 1];
      if u.email == e && ActiveAccount(ib, u, sha).Some? then ActiveAccount(ib, u, sha)
      else LastActive(ib, users[..|users| - 1], e, sha)
  }

  ghost predicate SomewhereInactive(ib: Spec, users: seq<User>, e: string, sha: Hash) {
    exists i :: 0 <= i < |users| && users[i].email == e && ActiveAccount(ib, users[i], sha).None?
  }

  // Rebuilding: an email has its last active account.
  lemma {:induction false} RebuiltAt(ib: Spec, users: seq<User>, e: string, sha: Hash)
    ensures At(Rebuilt(ib, users, sha), e) == LastActive(ib, users, e, sha)
  {
    if users != [] {
      var front, u := users[..|users| - 1], users[|users| - 1];
      RebuiltAt(ib, front, e, sha);
      ActiveShape(ib, u, sha, Rebuilt(ib, front, sha));
    }
  }

  // One by one: the last user of an email decides.
  lemma {:induction false} SyncedEachAt(ib: Spec, clients: Clients, users: seq<User>, e: string, sha: Hash)
    ensures At(SyncedEach(ib, clients, users, sha), e)
         == match LastUser(users, e)
            case None => At(clients, e)
            case Some(u) =>
              match ActiveAccount(ib, u, sha)
              case Some(a) => Some(Kept(ib, a, sha))
              case None => None
  {
    if users != [] {
      var front, u := users[..|users| - 1], users[|users| - 1];
      SyncedEachAt(ib, clients, front, e, sha);
      ActiveShape(ib, u, sha, SyncedEach(ib, clients, front, sha));
    }
  }

  lemma {:induction false} UpsertedAllAt(ib: Spec, clients: Clients, users: seq<User>, e: string, sha: Hash)
    ensures At(UpsertedAll(ib, clients, UpdateFor(ib, users, sha).accounts, sha), e)
         == match LastActive(ib, users, e, sha)
            case None => At(clients, e)
            case Some(a) => Some(Kept(ib, a, sha))
  {
    if users != [] {
      var front, u := users[..|users| - 1], users[|users| - 1];
      UpsertedAllAt(ib, clients, front, e, sha);
      var before := UpdateFor(ib, front, sha).accounts;
      ActiveShape(ib, u, sha, UpsertedAll(ib, clients, before, sha));
      if ActiveAccount(ib, u, sha).Some? {
        UpsertedAllExtended(ib, clients, before, ActiveAccount(ib, u, sha).value, sha);
      }
    }
  }

  lemma UpsertedAllExtended(ib: Spec, clients: Clients, front: seq<Account>, a: Account, sha: Hash)
    ensures UpsertedAll(ib, clients, front + [a], sha) == Upserted(ib, UpsertedAll(ib, clients, front, sha), a, sha)
  {
  }

  lemma {:induction false} RemovedIffSomewhereInactive(ib: Spec, users: seq<User>, e: string, sha: Hash)
    ensures e in UpdateFor(ib, users, sha).removeEmails <==> SomewhereInactive(ib, users, e, sha)
  {
    if users != [] {
      var front, u := users[..|users| - 1], users[|users| - 1];
      RemovedIffSomewhereInactive(ib, front, e, sha);
      if SomewhereInactive(ib, front, e, sha) {
        var i :| 0 <= i < |front| && front[i].email == e && ActiveAccount(ib, front[i], sha).None?;
        assert users[i] == front[i];
      }
      if SomewhereInactive(ib, users, e, sha) {
        var i :| 0 <= i < |users| && users[i].email == e && ActiveAccount(ib, users[i], sha).None?;
        assert i < |front| ==> front[i] == users[i];
      }
    }
  }

  // In bulk: an email that is inactive anywhere in the request goes, else its last account stays.
  lemma UpdatedAt(ib: Spec, clients: Clients, users: seq<User>, e: string, sha: Hash)
    ensures At(Updated(ib, clients, UpdateFor(ib, users, sha), sha), e)
         == if SomewhereInactive(ib, users, e, sha) then None
            else match LastActive(ib, users, e, sha)
              case None => At(clients, e)
              case Some(a) => Some(Kept(ib, a, sha))
  {
    UpsertedAllAt(ib, clients, users, e, sha);
    RemovedIffSomewhereInactive(ib, users, e, sha);
  }

  // ----- the three agree

  ghost predicate DistinctEmails(users: seq<User>) {
    forall i, j :: 0 <= i < j < |users| ==> users[i].email != users[j].email
  }

  lemma {:induction false} LastActiveShape(ib: Spec, users: seq<User>, e: string, sha: Hash)
    ensures LastActive(ib, users, e, sha).Some? ==>
              exists i :: 0 <= i < |users| && users[i].email == e && ActiveAccount(ib, users[i], sha) == LastActive(ib, users, e, sha)
    ensures LastActive(ib, users, e, sha).None? ==>
              forall i :: 0 <= i < |users| && users[i].email == e ==> ActiveAccount(ib, users[i], sha).None?
    ensures LastUser(users, e).Some? && ActiveAccount(ib, LastUser(users, e).value, sha).Some? ==>
              LastActive(ib, users, e, sha) == ActiveAccount(ib, LastUser(users, e).value, sha)
  {
    if users != [] {
      LastActiveShape(ib, users[..|users| - 1], e, sha);
    }
  }

  // A bulk update and the same users one by one leave the same clients exactly when no email of
  // the request is inactive somewhere and active where it occurs last.
  lemma BulkEqualsEachIff(ib: Spec, clients: Clients, users: seq<User>, sha: Hash)
    ensures Updated(ib, clients, UpdateFor(ib, users, sha), sha) == SyncedEach(ib, clients, users, sha)
       <==> forall e :: SomewhereInactive(ib, users, e, sha) ==>
                          ActiveAccount(ib, LastUser(users, e).value, sha).None?
  {
    var bulk, each := Updated(ib, clients, UpdateFor(ib, users, sha), sha), SyncedEach(ib, clients, users, sha);
    forall e
      ensures At(bulk, e) == At(each, e) <==>
              (SomewhereInactive(ib, users, e, sha) ==> ActiveAccount(ib, LastUser(users, e).value, sha).None?)
    {
      BulkEqualsEachAt(ib, clients, users, e, sha);
    }
    SameEverywhere(bulk, each);
  }

  // The shortest such request: a bulk update drops the client, one by one keeps it.
  lemma InactiveThenActive(ib: Spec, clients: Clients, u: User, v: User, sha: Hash)
    requires u.email == v.email && ActiveAccount(ib, u, sha).None? && ActiveAccount(ib, v, sha).Some?
    ensures u.email !in Updated(ib, clients, UpdateFor(ib, [u, v], sha), sha)
    ensures u.email in SyncedEach(ib, clients, [u, v], sha)
  {
    var users := [u, v];
    assert users[0] == u && users[1] == v;
    UpdatedAt(ib, clients, users, u.email, sha);
    SyncedEachAt(ib, clients, users, u.email, sha);
  }

  lemma SameEverywhere(a: Clients, b: Clients)
    ensures a == b <==> forall e :: At(a, e) == At(b, e)
  {
    if forall e :: At(a, e) == At(b, e) {
      forall e ensures e in a <==> e in b { assert At(a, e) == At(b, e); }
      forall e | e in a ensures a[e] == b[e] { assert At(a, e) == At(b, e); }
      assert a == b;
    }
  }

  lemma InactiveHasLast(ib: Spec, users: seq<User>, e: string, sha: Hash)
    ensures SomewhereInactive(ib, users, e, sha) ==> LastUser(users, e).Some?
  {
  }

  lemma BulkEqualsEachAt(ib: Spec, clients: Clients, users: seq<User>, e: string, sha: Hash)
    ensures SomewhereInactive(ib, users, e, sha) ==> LastUser(users, e).Some?
    ensures At(Updated(ib, clients, UpdateFor(ib, users, sha), sha), e) == At(SyncedEach(ib, clients, users, sha), e)
       <==> (SomewhereInactive(ib, users, e, sha) ==> ActiveAccount(ib, LastUser(users, e).value, sha).None?)
  {
    UpdatedAt(ib, clients, users, e, sha);
    SyncedEachAt(ib, clients, users, e, sha);
    LastActiveShape(ib, users, e, sha);
    InactiveHasLast(ib, users, e, sha);
    if !SomewhereInactive(ib, users, e, sha) && LastUser(users, e).Some? {
      assert users[LastIndex(users, e)].email == e;
    }
  }

  // users with those of ds taken out by email, then ds.
  function Overridden(users: seq<User>, ds: seq<User>): seq<User> {
    Without(users, ds) + ds
  }

  function Without(users: seq<User>, ds: seq<User>): seq<User> {
    if users == [] then []
    else
      var u := users[|users| - 1];
      Without(users[..|users| - 1], ds) + if LastUser(ds, u.email).None? then [u] else []
  }

  lemma {:induction false} LastActiveConcat(ib: Spec, us: seq<User>, ds: seq<User>, e: string, sha: Hash)
    ensures LastActive(ib, us + ds, e, sha)
         == if LastActive(ib, ds, e, sha).Some? then LastActive(ib, ds, e, sha) else LastActive(ib, us, e, sha)
  {
    if ds == [] {
      assert us + ds == us;
    } else {
      assert (us + ds)[..|us + ds| - 1] == us + ds[..|ds| - 1];
      LastActiveConcat(ib, us, ds[..|ds| - 1], e, sha);
    }
  }

  lemma {:induction false} LastActiveWithout(ib: Spec, us: seq<User>, ds: seq<User>, e: string, sha: Hash)
    ensures LastActive(ib, Without(us, ds), e, sha)
         == if LastUser(ds, e).Some? then None else LastActive(ib, us, e, sha)
  {
    if us != [] {
      var front, u := us[..|us| - 1], us[|us| - 1];
      LastActiveWithout(ib, front, ds, e, sha);
      if LastUser(ds, u.email).None? {
        assert (Without(front, ds) + [u])[..|Without(front, ds)|] == Without(front, ds);
      } else {
        assert Without(us, ds) == Without(front, ds);
      }
    }
  }

  // Where a bulk delta and a rebuild meet: every email that is active in the request is inactive
  // nowhere in it, and a second normalisation leaves its account alone.
  ghost predicate BulkAgrees(ib: Spec, ds: seq<User>, sha: Hash) {
    forall e :: LastActive(ib, ds, e, sha).Some? ==> BulkAgreesOn(ib, ds, e, sha)
  }

  ghost predicate BulkAgreesOn(ib: Spec, ds: seq<User>, e: string, sha: Hash)
    requires LastActive(ib, ds, e, sha).Some?
  {
    !SomewhereInactive(ib, ds, e, sha) && Kept(ib, LastActive(ib, ds, e, sha).value, sha) == LastActive(ib, ds, e, sha).value
  }

  // Where updates one by one and a rebuild meet: for every email of the request, its last entry is
  // active with an account that a second normalisation leaves alone, or no entry is active.
  ghost predicate EachAgrees(ib: Spec, ds: seq<User>, sha: Hash) {
    forall e :: LastUser(ds, e).Some? ==> EachAgreesOn(ib, ds, e, sha)
  }

  ghost predicate EachAgreesOn(ib: Spec, ds: seq<User>, e: string, sha: Hash)
    requires LastUser(ds, e).Some?
  {
    match ActiveAccount(ib, LastUser(ds, e).value, sha)
    case Some(a) => Kept(ib, a, sha) == a
    case None => LastActive(ib, ds, e, sha).None?
  }

  // A rebuild of the overridden list, email by email.
  lemma OverriddenAt(ib: Spec, us: seq<User>, ds: seq<User>, e: string, sha: Hash)
    ensures At(Rebuilt(ib, Overridden(us, ds), sha), e)
         == if LastUser(ds, e).Some? then LastActive(ib, ds, e, sha) else LastActive(ib, us, e, sha)
  {
    RebuiltAt(ib, Overridden(us, ds), e, sha);
    LastActiveConcat(ib, Without(us, ds), ds, e, sha);
    LastActiveWithout(ib, us, ds, e, sha);
    LastActiveShape(ib, ds, e, sha);
  }

  lemma BulkEqualsRebuildAt(ib: Spec, us: seq<User>, ds: seq<User>, e: string, sha: Hash)
    ensures At(Updated(ib, Rebuilt(ib, us, sha), UpdateFor(ib, ds, sha), sha), e) == At(Rebuilt(ib, Overridden(us, ds), sha), e)
       <==> (LastActive(ib, ds, e, sha).Some? ==> BulkAgreesOn(ib, ds, e, sha))
  {
    UpdatedAt(ib, Rebuilt(ib, us, sha), ds, e, sha);
    RebuiltAt(ib, us, e, sha);
    OverriddenAt(ib, us, ds, e, sha);
    LastActiveShape(ib, ds, e, sha);
    if LastUser(ds, e).Some? && LastActive(ib, ds, e, sha).None? {
      assert ds[LastIndex(ds, e)].email == e;
    }
    InactiveHasLast(ib, ds, e, sha);
  }

  lemma EachEqualsRebuildAt(ib: Spec, us: seq<User>, ds: seq<User>, e: string, sha: Hash)
    ensures At(SyncedEach(ib, Rebuilt(ib, us, sha), ds, sha), e) == At(Rebuilt(ib, Overridden(us, ds), sha), e)
       <==> (LastUser(ds, e).Some? ==> EachAgreesOn(ib, ds, e, sha))
  {
    SyncedEachAt(ib, Rebuilt(ib, us, sha), ds, e, sha);
    RebuiltAt(ib, us, e, sha);
    OverriddenAt(ib, us, ds, e, sha);
    LastActiveShape(ib, ds, e, sha);
  }

  // Rebuild, then a bulk delta, against one rebuild of the overridden list: for every request, with
  // repeated emails and any method, the clients are the same exactly when BulkAgrees says so.
  lemma BulkEqualsRebuildIff(ib: Spec, us: seq<User>, ds: seq<User>, sha: Hash)
    ensures Updated(ib, Rebuilt(ib, us, sha), UpdateFor(ib, ds, sha), sha) == Rebuilt(ib, Overridden(us, ds), sha)
       <==> BulkAgrees(ib, ds, sha)
  {
    var bulk, rebuilt := Updated(ib, Rebuilt(ib, us, sha), UpdateFor(ib, ds, sha), sha), Rebuilt(ib, Overridden(us, ds), sha);
    forall e ensures At(bulk, e) == At(rebuilt, e) <==> (LastActive(ib, ds, e, sha).Some? ==> BulkAgreesOn(ib, ds, e, sha)) {
      BulkEqualsRebuildAt(ib, us, ds, e, sha);
    }
    SameEverywhere(bulk, rebuilt);
  }

  // The same for updates one by one.
  lemma EachEqualsRebuildIff(ib: Spec, us: seq<User>, ds: seq<User>, sha: Hash)
    ensures SyncedEach(ib, Rebuilt(ib, us, sha), ds, sha) == Rebuilt(ib, Overridden(us, ds), sha)
       <==> EachAgrees(ib, ds, sha)
  {
    var each, rebuilt := SyncedEach(ib, Rebuilt(ib, us, sha), ds, sha), Rebuilt(ib, Overridden(us, ds), sha);
    forall e ensures At(each, e) == At(rebuilt, e) <==> (LastUser(ds, e).Some? ==> EachAgreesOn(ib, ds, e, sha)) {
      EachEqualsRebuildAt(ib, us, ds, e, sha);
    }
    SameEverywhere(each, rebuilt);
  }

  // Distinct emails and known ciphers are such a case: all three leave the same clients.
  lemma DeltaEqualsRebuild(ib: Spec, us: seq<User>, ds: seq<User>, sha: Hash)
    requires ib.Settled() && DistinctEmails(ds)
    ensures Updated(ib, Rebuilt(ib, us, sha), UpdateFor(ib, ds, sha), sha) == Rebuilt(ib, Overridden(us, ds), sha)
    ensures SyncedEach(ib, Rebuilt(ib, us, sha), ds, sha) == Rebuilt(ib, Overridden(us, ds), sha)
  {
    DistinctAgree(ib, ds, sha);
    BulkEqualsRebuildIff(ib, us, ds, sha);
    EachEqualsRebuildIff(ib, us, ds, sha);
  }

  lemma DistinctAgree(ib: Spec, ds: seq<User>, sha: Hash)
    requires ib.Settled() && DistinctEmails(ds)
    ensures BulkAgrees(ib, ds, sha) && EachAgrees(ib, ds, sha)
  {
    forall e | LastUser(ds, e).Some? ensures EachAgreesOn(ib, ds, e, sha) {
      DistinctAgreeOn(ib, ds, e, sha);
    }
    forall e | LastActive(ib, ds, e, sha).Some? ensures BulkAgreesOn(ib, ds, e, sha) {
      LastActiveShape(ib, ds, e, sha);
      DistinctAgreeOn(ib, ds, e, sha);
    }
  }

  lemma DistinctAgreeOn(ib: Spec, ds: seq<User>, e: string, sha: Hash)
    requires ib.Settled() && DistinctEmails(ds) && LastUser(ds, e).Some?
    ensures EachAgreesOn(ib, ds, e, sha)
    ensures LastActive(ib, ds, e, sha).Some? ==> BulkAgreesOn(ib, ds, e, sha)
  {
    var u := LastUser(ds, e).value;
    LastActiveShape(ib, ds, e, sha);
    assert ds[LastIndex(ds, e)].email == e;
    forall i | 0 <= i < |ds| && ds[i].email == e ensures i == LastIndex(ds, e) {}
    if ActiveAccount(ib, u, sha).Some? { KeptIsActive(ib, u, sha); }
  }
}
