// backend/xray/config.go, config_clone.go: inbounds and configurations as the objects they are.
module XrayConfigs {
  import opened Enumerations
  import opened Passwords
  import opened XrayClients

  class Inbound {
    const spec: Spec
    var clients: Clients

    constructor (spec: Spec, clients: Clients)
      ensures this.spec == spec && this.clients == clients
    {
      this.spec, this.clients := spec, clients;
    }

    method SyncUsers(users: seq<User>, sha: Hash)
      modifies this
      ensures clients == Rebuilt(spec, users, sha)
    {
      clients := map[];
      if spec.protocol == "vmess" {
        for i := 0 to |users|
          invariant clients == Rebuilt(spec, users[..i], sha)
        {
          assert users[..i + 1][..i] == users[..i];
          var u := users[i];
          if u.vmess.None? { continue; }
          if spec.tag in u.inbounds {
            var account := NewVmess(u);
            if account.None? { continue; }
            clients := clients[u.email := account.value];
          }
        }
      } else if spec.protocol == "vless" {
        for i := 0 to |users|
          invariant clients == Rebuilt(spec, users[..i], sha)
        {
          assert users[..i + 1][..i] == users[..i];
          var u := users[i];
          if u.vless.None? { continue; }
          if spec.tag in u.inbounds {
            var account := NewVless(u);
            if account.None? { continue; }
            clients := clients[u.email := account.value];
          }
        }
      } else if spec.protocol == "trojan" {
        for i := 0 to |users|
          invariant clients == Rebuilt(spec, users[..i], sha)
        {
          assert users[..i + 1][..i] == users[..i];
          var u := users[i];
          if u.trojan.None? { continue; }
          if spec.tag in u.inbounds {
            clients := clients[u.email := NewTrojan(u).value];
          }
        }
      } else if spec.protocol == "shadowsocks" {
        for i := 0 to |users|
          invariant clients == Rebuilt(spec, users[..i], sha)
        {
          assert users[..i + 1][..i] == users[..i];
          var u := users[i];
          if u.shadowsocks.None? { continue; }
          if spec.tag in u.inbounds {
            if spec.Is2022() {
              clients := clients[u.email := Normalized(spec.cipher.value, NewShadowsocks(u).value, sha)];
            } else {
              clients := clients[u.email := NewShadowsocksTcp(u).value];
            }
          }
        }
      } else if spec.protocol == "hysteria" {
        for i := 0 to |users|
          invariant clients == Rebuilt(spec, users[..i], sha)
        {
          assert users[..i + 1][..i] == users[..i];
          var u := users[i];
          if u.hysteria.None? { continue; }
          if spec.tag in u.inbounds {
            clients := clients[u.email := NewHysteria(u).value];
          }
        }
      } else {
        UnknownProtocolHasNoClients(spec, users, sha);
      }
      assert users[..|users|] == users;
    }

    method UpdateUser(account: Account, sha: Hash)
      modifies this
      ensures clients == Stored(spec, old(clients), account, sha)
    {
      if account.ShadowsocksAccount? && spec.cipher.Some? {
        clients := clients[account.email := Normalized(spec.cipher.value, account, sha)];
      } else {
        clients := clients[account.email := account];
      }
    }

    method UpdateUsers(accounts: seq<Account>, removeEmails: seq<string>, sha: Hash)
      modifies this
      ensures clients == Updated(spec, old(clients), Update(accounts, SetOf(removeEmails)), sha)
    {
      for i := 0 to |accounts|
        invariant clients == UpsertedAll(spec, old(clients), accounts[..i], sha)
      {
        assert accounts[..i + 1][..i] == accounts[..i];
        var a := accounts[i];
        if spec.protocol == "vmess" {
          if a.VmessAccount? { clients := clients[a.email := a]; }
        } else if spec.protocol == "vless" {
          if a.VlessAccount? { clients := clients[a.email := a]; }
        } else if spec.protocol == "trojan" {
          if a.TrojanAccount? { clients := clients[a.email := a]; }
        } else if spec.protocol == "shadowsocks" {
          if spec.Is2022() {
            if a.ShadowsocksAccount? { clients := clients[a.email := Normalized(spec.cipher.value, a, sha)]; }
          } else if a.ShadowsocksTcpAccount? {
            clients := clients[a.email := a];
          }
        } else if spec.protocol == "hysteria" {
          if a.HysteriaAccount? { clients := clients[a.email := a]; }
        }
      }
      assert accounts[..|accounts|] == accounts;
      ghost var upserted := clients;
      for i := 0 to |removeEmails|
        invariant clients == upserted - SetOf(removeEmails[..i])
      {
        assert removeEmails[..i + 1] == removeEmails[..i] + [removeEmails[i]];
        assert SetOf(removeEmails[..i + 1]) == SetOf(removeEmails[..i]) + {removeEmails[i]};
        clients := clients - {removeEmails[i]};
      }
      assert removeEmails[..|removeEmails|] == removeEmails;
    }

    method RemoveUser(email: string)
      modifies this
      ensures clients == old(clients) - {email}
    {
      clients := clients - {email};
    }
  }

  lemma {:induction false} UnknownProtocolHasNoClients(ib: Spec, users: seq<User>, sha: Hash)
    requires ib.protocol !in {"vmess", "vless", "trojan", "shadowsocks", "hysteria"}
    ensures Rebuilt(ib, users, sha) == map[]
  {
    if users != [] { UnknownProtocolHasNoClients(ib, users[..|users| - 1], sha); }
  }

  class Config {
    const inbounds: seq<Inbound>

    // The inbounds are different objects.
    ghost predicate Valid() {
      forall i, j :: 0 <= i < j < |inbounds| ==> inbounds[i] != inbounds[j]
    }

    constructor (inbounds: seq<Inbound>)
      ensures this.inbounds == inbounds
    {
      this.inbounds := inbounds;
    }

    method SyncUsers(users: seq<User>, sha: Hash)
      requires Valid()
      modifies inbounds
      ensures forall i :: 0 <= i < |inbounds| ==>
                inbounds[i].clients == if inbounds[i].spec.exclude then old(inbounds[i].clients)
                                       else Rebuilt(inbounds[i].spec, users, sha)
    {
      for n := 0 to |inbounds|
        invariant forall i :: 0 <= i < |inbounds| ==>
                    inbounds[i].clients == if n <= i || inbounds[i].spec.exclude then old(inbounds[i].clients)
                                           else Rebuilt(inbounds[i].spec, users, sha)
      {
        if inbounds[n].spec.exclude { continue; }
        inbounds[n].SyncUsers(users, sha);
      }
    }

    // The loop of Xray.SyncUser, without the calls to the running core.
    method SyncUser(user: User, sha: Hash)
      requires Valid()
      modifies inbounds
      ensures forall i :: 0 <= i < |inbounds| ==>
                inbounds[i].clients == if inbounds[i].spec.exclude then old(inbounds[i].clients)
                                       else SyncedOne(inbounds[i].spec, old(inbounds[i].clients), user, sha)
    {
      for n := 0 to |inbounds|
        invariant forall i :: 0 <= i < |inbounds| ==>
                    inbounds[i].clients == if n <= i || inbounds[i].spec.exclude then old(inbounds[i].clients)
                                           else SyncedOne(inbounds[i].spec, old(inbounds[i].clients), user, sha)
      {
        if inbounds[n].spec.exclude { continue; }
        var account := ActiveAccount(inbounds[n].spec, user, sha);
        if account.Some? {
          inbounds[n].UpdateUser(account.value, sha);
        } else {
          inbounds[n].RemoveUser(user.email);
        }
      }
    }

    // The inbound a tag leads to: the last one with that tag that is not excluded.
    ghost predicate Chosen(i: nat)
      requires i < |inbounds|
    {
      !inbounds[i].spec.exclude &&
      forall j :: i < j < |inbounds| && !inbounds[j].spec.exclude ==> inbounds[j].spec.tag != inbounds[i].spec.tag
    }

    // A tag leads somewhere exactly when an inbound that is not excluded has it, and to no earlier one.
    lemma ChosenIsLast(i: nat) returns (o: nat)
      requires i < |inbounds| && !inbounds[i].spec.exclude
      ensures i <= o < |inbounds| && inbounds[o].spec.tag == inbounds[i].spec.tag && Chosen(o)
      ensures forall p: nat :: p < |inbounds| && inbounds[p].spec.tag == inbounds[i].spec.tag && Chosen(p) ==> p == o
      decreases |inbounds| - i
    {
      o := i;
      if !Chosen(i) {
        var j :| i < j < |inbounds| && !inbounds[j].spec.exclude && inbounds[j].spec.tag == inbounds[i].spec.tag;
        o := ChosenIsLast(j);
      }
    }

    ghost predicate UniqueTags() {
      forall i, j :: 0 <= i < j < |inbounds| && !inbounds[i].spec.exclude && !inbounds[j].spec.exclude ==>
        inbounds[i].spec.tag != inbounds[j].spec.tag
    }

    method InboundsByTag() returns (byTag: map<string, nat>)
      ensures forall t :: t in byTag ==> byTag[t] < |inbounds| && inbounds[byTag[t]].spec.tag == t && Chosen(byTag[t])
      ensures forall i :: 0 <= i < |inbounds| && Chosen(i) ==> inbounds[i].spec.tag in byTag && byTag[inbounds[i].spec.tag] == i
    {
      byTag := map[];
      for n := 0 to |inbounds|
        invariant forall t :: t in byTag ==>
                    && byTag[t] < n && inbounds[byTag[t]].spec.tag == t && !inbounds[byTag[t]].spec.exclude
                    && forall j :: byTag[t] < j < n && !inbounds[j].spec.exclude ==> inbounds[j].spec.tag != t
        invariant forall i :: 0 <= i < n && !inbounds[i].spec.exclude ==>
                    inbounds[i].spec.tag in byTag && byTag[inbounds[i].spec.tag] >= i
      {
        if inbounds[n].spec.exclude { continue; }
        byTag := byTag[inbounds[n].spec.tag := n];
      }
    }

    method BuildInboundUpdates(users: seq<User>, sha: Hash)
      returns (byTag: map<string, nat>, updates: map<string, Update>)
      ensures forall t :: t in byTag ==> byTag[t] < |inbounds| && inbounds[byTag[t]].spec.tag == t && Chosen(byTag[t])
      ensures forall i :: 0 <= i < |inbounds| && Chosen(i) ==> inbounds[i].spec.tag in byTag && byTag[inbounds[i].spec.tag] == i
      ensures updates.Keys == byTag.Keys
      ensures forall t :: t in byTag ==> updates[t] == UpdateFor(inbounds[byTag[t]].spec, users, sha)
    {
      byTag := InboundsByTag();
      updates := map t | t in byTag :: Update([], {});
      for n := 0 to |users|
        invariant updates.Keys == byTag.Keys
        invariant forall t :: t in byTag ==> updates[t] == UpdateFor(inbounds[byTag[t]].spec, users[..n], sha)
      {
        assert users[..n + 1][..n] == users[..n];
        updates := ExtendAll(byTag, updates, users[n], sha);
      }
      assert users[..|users|] == users;
    }

    // The inner loop of buildInboundUpdates: one user, every inbound.
    method ExtendAll(byTag: map<string, nat>, before: map<string, Update>, u: User, sha: Hash)
      returns (updates: map<string, Update>)
      requires forall t :: t in byTag ==> byTag[t] < |inbounds|
      requires before.Keys == byTag.Keys
      ensures updates.Keys == byTag.Keys
      ensures forall t :: t in byTag ==> updates[t] == Extended(before[t], inbounds[byTag[t]].spec, u, sha)
    {
      updates := before;
      var rest := byTag.Keys;
      while rest != {}
        invariant rest <= byTag.Keys && updates.Keys == byTag.Keys
        invariant forall t :: t in byTag ==>
                    updates[t] == if t in rest then before[t] else Extended(before[t], inbounds[byTag[t]].spec, u, sha)
        decreases rest
      {
        var t :| t in rest;
        rest := rest - {t};
        var account := ActiveAccount(inbounds[byTag[t]].spec, u, sha);
        if account.Some? {
          updates := updates[t := updates[t].(accounts := updates[t].accounts + [account.value])];
        } else {
          updates := updates[t := updates[t].(removeEmails := updates[t].removeEmails + {u.email})];
        }
      }
    }

    method UpdateUsers(users: seq<User>, sha: Hash)
      requires Valid()
      modifies inbounds
      ensures forall i :: 0 <= i < |inbounds| ==>
                inbounds[i].clients ==
                if Chosen(i) then Updated(inbounds[i].spec, old(inbounds[i].clients), UpdateFor(inbounds[i].spec, users, sha), sha)
                else old(inbounds[i].clients)
    {
      var byTag, updates := BuildInboundUpdates(users, sha);
      var rest := byTag.Keys;
      while rest != {}
        invariant rest <= byTag.Keys
        invariant forall i :: 0 <= i < |inbounds| ==>
                    inbounds[i].clients ==
                    if Chosen(i) && inbounds[i].spec.tag !in rest
                    then Updated(inbounds[i].spec, old(inbounds[i].clients), UpdateFor(inbounds[i].spec, users, sha), sha)
                    else old(inbounds[i].clients)
        decreases rest
      {
        var t :| t in rest;
        rest := rest - {t};
        var emails := InSomeOrder(updates[t].removeEmails);
        inbounds[byTag[t]].UpdateUsers(updates[t].accounts, emails, sha);
        assert updates[t] == Update(updates[t].accounts, SetOf(emails));
      }
    }
  }

  method InSomeOrder(emails: set<string>) returns (s: seq<string>)
    ensures SetOf(s) == emails
  {
    s := [];
    var rest := emails;
    while rest != {}
      invariant rest <= emails && SetOf(s) == emails - rest
      decreases rest
    {
      var e :| e in rest;
      assert SetOf(s + [e]) == SetOf(s) + {e};
      s := s + [e];
      rest := rest - {e};
    }
  }

  // With unique tags every inbound that is not excluded is the one its tag leads to.
  lemma UniqueTagsChoose(c: Config, i: nat)
    requires c.UniqueTags() && i < |c.inbounds|
    ensures c.Chosen(i) <==> !c.inbounds[i].spec.exclude
  {
  }

  // Two configurations of one shape that share nothing.
  ghost predicate Alike(c: Config, d: Config) {
    && c.Valid() && d.Valid() && |c.inbounds| == |d.inbounds|
    && (forall i :: 0 <= i < |c.inbounds| ==> c.inbounds[i].spec == d.inbounds[i].spec)
    && (forall i, j :: 0 <= i < |c.inbounds| && 0 <= j < |d.inbounds| ==> c.inbounds[i] != d.inbounds[j])
  }

  // A full sync and a bulk delta on one configuration, a full sync of the overridden list on the
  // other: the inbound a tag leads to has the same clients in both exactly when BulkAgrees says so.
  // An inbound hidden behind another of its tag gets no delta.
  method RebuildThenDelta(c: Config, d: Config, us: seq<User>, ds: seq<User>, sha: Hash)
    requires Alike(c, d)
    modifies c.inbounds, d.inbounds
    ensures forall i :: 0 <= i < |c.inbounds| ==>
              var ib, jb := c.inbounds[i], d.inbounds[i];
              if ib.spec.exclude then ib.clients == old(ib.clients) && jb.clients == old(jb.clients)
              else if c.Chosen(i) then ib.clients == jb.clients <==> BulkAgrees(ib.spec, ds, sha)
              else ib.clients == Rebuilt(ib.spec, us, sha)
  {
    c.SyncUsers(us, sha);
    c.UpdateUsers(ds, sha);
    d.SyncUsers(Overridden(us, ds), sha);
    forall i | 0 <= i < |c.inbounds| && c.Chosen(i)
      ensures c.inbounds[i].clients == d.inbounds[i].clients <==> BulkAgrees(c.inbounds[i].spec, ds, sha)
    {
      BulkEqualsRebuildIff(c.inbounds[i].spec, us, ds, sha);
    }
  }

  // With unique tags, distinct emails and known methods nothing is left to chance.
  lemma OrdinaryDeltasAgree(c: Config, ds: seq<User>, sha: Hash, i: nat)
    requires c.UniqueTags() && DistinctEmails(ds)
    requires i < |c.inbounds| && !c.inbounds[i].spec.exclude && c.inbounds[i].spec.Settled()
    ensures c.Chosen(i) && BulkAgrees(c.inbounds[i].spec, ds, sha) && EachAgrees(c.inbounds[i].spec, ds, sha)
  {
    UniqueTagsChoose(c, i);
    DistinctAgree(c.inbounds[i].spec, ds, sha);
  }

  // The same for a full sync followed by SyncUser for each user of the delta, whatever the tags.
  method RebuildThenEach(c: Config, d: Config, us: seq<User>, ds: seq<User>, sha: Hash)
    requires Alike(c, d)
    modifies c.inbounds, d.inbounds
    ensures forall i :: 0 <= i < |c.inbounds| ==>
              var ib, jb := c.inbounds[i], d.inbounds[i];
              if ib.spec.exclude then ib.clients == old(ib.clients) && jb.clients == old(jb.clients)
              else ib.clients == jb.clients <==> EachAgrees(ib.spec, ds, sha)
  {
    c.SyncUsers(us, sha);
    for n := 0 to |ds|
      invariant forall i :: 0 <= i < |c.inbounds| ==>
                  c.inbounds[i].clients ==
                  if c.inbounds[i].spec.exclude then old(c.inbounds[i].clients)
                  else SyncedEach(c.inbounds[i].spec, Rebuilt(c.inbounds[i].spec, us, sha), ds[..n], sha)
      invariant forall i :: 0 <= i < |d.inbounds| ==> d.inbounds[i].clients == old(d.inbounds[i].clients)
    {
      assert ds[..n + 1][..n] == ds[..n];
      c.SyncUser(ds[n], sha);
    }
    assert ds[..|ds|] == ds;
    d.SyncUsers(Overridden(us, ds), sha);
    forall i | 0 <= i < |c.inbounds| && !c.inbounds[i].spec.exclude
      ensures c.inbounds[i].clients == d.inbounds[i].clients <==> EachAgrees(c.inbounds[i].spec, ds, sha)
    {
      EachEqualsRebuildIff(c.inbounds[i].spec, us, ds, sha);
    }
  }
}
