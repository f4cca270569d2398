// Which account a user has on an inbound, protocol by protocol, in terms of user, inbound and hash only.
module XrayAccounts {
  import opened Wrappers
  import opened Base64
  import opened Passwords
  import opened XrayClients

  ghost predicate Starts2022(method_: string) {
    |method_| >= 11 && method_[..11] == "2022-blake3"
  }

  // The cipher of a plain Shadowsocks account: the user's own if it is one of the seven known, else none.
  ghost function CipherOf(cipher: string): string {
    if cipher == "aes-128-gcm" || cipher == "aes-256-gcm" || cipher == "chacha20-poly1305" || cipher == "chacha20-ietf-poly1305"
       || cipher == "xchacha20-poly1305" || cipher == "xchacha20-ietf-poly1305" || cipher == "none"
    then cipher else "none"
  }

  // The key of a 2022 account: the password itself if it is one, else base64 of as much of its hash.
  ghost predicate IsKeyOf(key: string, password: string, method_: string, sha: Hash) {
    if Keeps(password, method_) then key == password else key == Encode(sha(password)[..MadeLength(method_)])
  }

  // The inbound is one of the user's, and a is the account for its protocol, made of the user's own email, id,
  // flow, password, cipher or secret.
  ghost predicate Grants(ib: Spec, u: User, sha: Hash, a: Account) {
    ib.tag in u.inbounds &&
    if ib.protocol == "vmess" then
      u.vmess.Some? && u.vmess.value.Some? && a == VmessAccount(u.email, u.vmess.value.value)
    else if ib.protocol == "vless" then
      u.vless.Some? && u.vless.value.id.Some? && a == VlessAccount(u.email, u.vless.value.id.value, u.vless.value.flow)
    else if ib.protocol == "trojan" then
      u.trojan.Some? && a == TrojanAccount(u.email, u.trojan.value)
    else if ib.protocol == "hysteria" then
      u.hysteria.Some? && a == HysteriaAccount(u.email, u.hysteria.value)
    else
      && ib.protocol == "shadowsocks" && u.shadowsocks.Some?
      && if ib.cipher.Some? && Starts2022(ib.cipher.value) then
           a.ShadowsocksAccount? && a.email == u.email && IsKeyOf(a.password, u.shadowsocks.value.password, ib.cipher.value, sha)
         else
           a == ShadowsocksTcpAccount(u.email, u.shadowsocks.value.password, CipherOf(u.shadowsocks.value.cipher))
  }

  lemma ActiveIffGranted(ib: Spec, u: User, sha: Hash, a: Account)
    ensures ActiveAccount(ib, u, sha) == Some(a) <==> Grants(ib, u, sha, a)
  {
    if ib.protocol == "shadowsocks" { ShadowsocksIffGranted(ib, u, sha, a); }
  }

  lemma ShadowsocksIffGranted(ib: Spec, u: User, sha: Hash, a: Account)
    requires ib.protocol == "shadowsocks"
    ensures ActiveAccount(ib, u, sha) == Some(a) <==> Grants(ib, u, sha, a)
  {
    Is2022Iff(ib);
    if u.shadowsocks.Some? {
      if ib.Is2022() { KeyedIff(u, ib.cipher.value, sha, a); } else { CipherShape(u.shadowsocks.value.cipher); }
    }
  }

  lemma Is2022Iff(ib: Spec)
    requires ib.protocol == "shadowsocks"
    ensures ib.Is2022() <==> ib.cipher.Some? && Starts2022(ib.cipher.value)
  {
    if ib.cipher.Some? { PrefixIff("2022-blake3", ib.cipher.value); }
  }

  lemma KeyedIff(u: User, method_: string, sha: Hash, a: Account)
    requires u.shadowsocks.Some?
    ensures Normalized(method_, NewShadowsocks(u).value, sha) == a <==>
              && a.ShadowsocksAccount? && a.email == u.email
              && IsKeyOf(a.password, u.shadowsocks.value.password, method_, sha)
  {
    KeyOfPassword(u.shadowsocks.value.password, method_, sha);
  }

  lemma CipherShape(cipher: string)
    ensures CipherOf(cipher) == if cipher in CIPHERS then cipher else "none"
  {
  }

  lemma PrefixIff(p: string, s: string)
    ensures p <= s <==> |s| >= |p| && s[..|p|] == p
  {
  }

  // A rebuild leaves an email the account granted by the last of its users that is granted one.
  lemma {:induction false} RebuiltIffGranted(ib: Spec, users: seq<User>, e: string, sha: Hash, a: Account)
    ensures At(Rebuilt(ib, users, sha), e) == Some(a) <==> exists i :: 0 <= i < |users| && GrantedLastAt(ib, users, e, sha, a, i)
  {
    RebuiltAt(ib, users, e, sha);
    LastActiveIff(ib, users, e, sha, a);
  }

  ghost predicate GrantedLastAt(ib: Spec, users: seq<User>, e: string, sha: Hash, a: Account, i: nat)
    requires i < |users|
  {
    && users[i].email == e && Grants(ib, users[i], sha, a)
    && forall j, b :: i < j < |users| && users[j].email == e ==> !Grants(ib, users[j], sha, b)
  }

  lemma {:induction false} LastActiveIff(ib: Spec, users: seq<User>, e: string, sha: Hash, a: Account)
    ensures LastActive(ib, users, e, sha) == Some(a) <==> exists i :: 0 <= i < |users| && GrantedLastAt(ib, users, e, sha, a, i)
  {
    if users != [] {
      var front, u := users[..|users| - 1], users[|users| - 1];
      assert users == front + [u];
      LastActiveIff(ib, front, e, sha, a);
      GrantedLastExtended(ib, front, u, e, sha, a);
      if ActiveAccount(ib, u, sha).Some? { ActiveIffGranted(ib, u, sha, ActiveAccount(ib, u, sha).value); }
      ActiveIffGranted(ib, u, sha, a);
      forall b ensures Grants(ib, u, sha, b) ==> ActiveAccount(ib, u, sha) == Some(b) { ActiveIffGranted(ib, u, sha, b); }
    }
  }

  lemma GrantedLastExtended(ib: Spec, front: seq<User>, u: User, e: string, sha: Hash, a: Account)
    ensures var users := front + [u];
            (exists i :: 0 <= i < |users| && GrantedLastAt(ib, users, e, sha, a, i)) <==>
              || (u.email == e && Grants(ib, u, sha, a))
              || ((u.email == e ==> forall b :: !Grants(ib, u, sha, b))
                  && exists i :: 0 <= i < |front| && GrantedLastAt(ib, front, e, sha, a, i))
  {
    var users := front + [u];
    assert GrantedLastAt(ib, users, e, sha, a, |front|) <==> u.email == e && Grants(ib, u, sha, a);
    forall i: nat | i < |front|
      ensures GrantedLastAt(ib, users, e, sha, a, i) <==>
                GrantedLastAt(ib, front, e, sha, a, i) && (u.email == e ==> forall b :: !Grants(ib, u, sha, b))
    {
      assert users[|front|] == u;
      assert forall j :: i < j < |front| ==> users[j] == front[j];
    }
  }

  // ----- accounts handed to an inbound

  ghost predicate KindFits(ib: Spec, a: Account) {
    match a
    case VmessAccount(_, _) => ib.protocol == "vmess"
    case VlessAccount(_, _, _) => ib.protocol == "vless"
    case TrojanAccount(_, _) => ib.protocol == "trojan"
    case HysteriaAccount(_, _) => ib.protocol == "hysteria"
    case ShadowsocksAccount(_, _) => ib.protocol == "shadowsocks" && ib.cipher.Some? && Starts2022(ib.cipher.value)
    case ShadowsocksTcpAccount(_, _, _) => ib.protocol == "shadowsocks" && !(ib.cipher.Some? && Starts2022(ib.cipher.value))
  }

  // A bulk update stores an account of the inbound's own kind under its email, with the key of its password
  // where there is one to make, and passes over any other.
  lemma UpsertedByKind(ib: Spec, clients: Clients, a: Account, sha: Hash)
    ensures !KindFits(ib, a) ==> Upserted(ib, clients, a, sha) == clients
    ensures KindFits(ib, a) ==>
              && a.email in Upserted(ib, clients, a, sha)
              && (forall e :: e != a.email ==> At(Upserted(ib, clients, a, sha), e) == At(clients, e))
              && var b := Upserted(ib, clients, a, sha)[a.email];
                 if a.ShadowsocksAccount? then
                   b.ShadowsocksAccount? && b.email == a.email && IsKeyOf(b.password, a.password, ib.cipher.value, sha)
                 else b == a
  {
    if ib.cipher.Some? {
      PrefixIff("2022-blake3", ib.cipher.value);
      if a.ShadowsocksAccount? { KeyOfPassword(a.password, ib.cipher.value, sha); }
    }
  }
}
