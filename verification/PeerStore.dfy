// backend/wireguard/peer_store.go: the two-index store of WireGuard peers.
module PeerStores {
  import opened Wrappers
  import opened Cidr
  import opened WgKeys
  import opened Enumerations

  datatype PeerInfo = PeerInfo(email: string, key: Key, allowed: seq<Prefix>) {
    function Text(): string { KeyText(key) }
  }

  // Both indexes as one value: key text -> peer, and email -> key text.
  datatype Store = Store(peers: map<string, PeerInfo>, emailToKey: map<string, string>)

  const EMPTY_STORE := Store(map[], map[])

  // Every peer is filed under the text of its own key.
  ghost predicate WellKeyed(s: Store) {
    forall t :: t in s.peers ==> s.peers[t].Text() == t
  }

  // The two indexes are inverse to each other.
  ghost predicate Bijective(s: Store) {
    && WellKeyed(s)
    && (forall t :: t in s.peers ==> s.peers[t].email in s.emailToKey && s.emailToKey[s.peers[t].email] == t)
    && (forall e :: e in s.emailToKey ==> s.emailToKey[e] in s.peers && s.peers[s.emailToKey[e]].email == e)
  }

  // The email index is right about these emails: it leads to their peers and to no others. A store
  // whose indexes are inverse is right about all emails.
  ghost predicate IndexRight(s: Store, emails: set<string>) {
    && WellKeyed(s)
    && (forall t :: t in s.peers && s.peers[t].email in emails ==>
          s.peers[t].email in s.emailToKey && s.emailToKey[s.peers[t].email] == t)
    && (forall e :: e in emails && e in s.emailToKey ==> s.emailToKey[e] in s.peers && s.peers[s.emailToKey[e]].email == e)
  }

  ghost function Entries(s: Store): set<PeerInfo> {
    s.peers.Values
  }

  ghost predicate DistinctPeers(ps: seq<PeerInfo>) {
    forall i, j :: 0 <= i < j < |ps| ==> ps[i].Text() != ps[j].Text() && ps[i].email != ps[j].email
  }

  // ----- one removal, one upsert, one insertion into fresh maps

  function RemoveOne(s: Store, key: string): Store {
    if key in s.peers then Store(s.peers - {key}, s.emailToKey - {s.peers[key].email}) else s
  }

  function UpsertOne(s: Store, p: PeerInfo): Store {
    var t := p.Text();
    var peers1 :=
      if p.email in s.emailToKey && s.emailToKey[p.email] != t then s.peers - {s.emailToKey[p.email]} else s.peers;
    var emails1 :=
      if t in peers1 && peers1[t].email != p.email then s.emailToKey - {peers1[t].email} else s.emailToKey;
    Store(peers1[t := p], emails1[p.email := t])
  }

  function InsertOne(s: Store, p: PeerInfo): Store {
    Store(s.peers[p.Text() := p], s.emailToKey[p.email := p.Text()])
  }

  // ----- the loops

  function RemoveAll(s: Store, keys: seq<string>): Store {
    if keys == [] then s else RemoveOne(RemoveAll(s, keys[..|keys| - 1]), keys[|keys| - 1])
  }

  // The keys RemoveAll really took out, in order.
  function RemovedBy(s: Store, keys: seq<string>): seq<string> {
    if keys == [] then []
    else
      var before := RemovedBy(s, keys[..|keys| - 1]);
      var key := keys[|keys| - 1];
      if key in RemoveAll(s, keys[..|keys| - 1]).peers then before + [key] else before
  }

  function UpsertAll(s: Store, ps: seq<PeerInfo>): Store {
    if ps == [] then s else UpsertOne(UpsertAll(s, ps[..|ps| - 1]), ps[|ps| - 1])
  }

  function InsertAll(s: Store, ps: seq<PeerInfo>): Store {
    if ps == [] then s else InsertOne(InsertAll(s, ps[..|ps| - 1]), ps[|ps| - 1])
  }

  function AfterChanges(s: Store, removeKeys: seq<string>, upserts: seq<PeerInfo>): Store {
    UpsertAll(RemoveAll(s, removeKeys), upserts)
  }

  function LookupEmail(s: Store, email: string): Option<PeerInfo> {
    if email in s.emailToKey && s.emailToKey[email] in s.peers then Some(s.peers[s.emailToKey[email]]) else None
  }

  class PeerStore {
    var peers: map<string, PeerInfo>
    var emailToKey: map<string, string>

    ghost function State(): Store
      reads this
    {
      Store(peers, emailToKey)
    }

    constructor ()
      ensures State() == EMPTY_STORE
    {
      peers, emailToKey := map[], map[];
    }

    method Init(ps: seq<PeerInfo>)
      modifies this
      ensures State() == InsertAll(old(State()), ps)
    {
      for i := 0 to |ps|
        invariant State() == InsertAll(old(State()), ps[..i])
      {
        assert ps[..i + 1][..i] == ps[..i];
        peers := peers[ps[i].Text() := ps[i]];
        emailToKey := emailToKey[ps[i].email := ps[i].Text()];
      }
      assert ps[..|ps|] == ps;
    }

    method ApplyChanges(removeKeys: seq<string>, upserts: seq<PeerInfo>) returns (removed: seq<string>)
      modifies this
      ensures State() == AfterChanges(old(State()), removeKeys, upserts)
      ensures removed == RemovedBy(old(State()), removeKeys)
    {
      removed := [];
      for i := 0 to |removeKeys|
        invariant State() == RemoveAll(old(State()), removeKeys[..i])
        invariant removed == RemovedBy(old(State()), removeKeys[..i])
      {
        assert removeKeys[..i + 1][..i] == removeKeys[..i];
        var key := removeKeys[i];
        if key in peers {
          emailToKey := emailToKey - {peers[key].email};
          peers := peers - {key};
          removed := removed + [key];
        }
      }
      assert removeKeys[..|removeKeys|] == removeKeys;
      ghost var mid := State();

      for i := 0 to |upserts|
        invariant State() == UpsertAll(mid, upserts[..i])
      {
        assert upserts[..i + 1][..i] == upserts[..i];
        var p := upserts[i];
        if p.email in emailToKey && emailToKey[p.email] != p.Text() {
          peers := peers - {emailToKey[p.email]};
        }
        if p.Text() in peers && peers[p.Text()].email != p.email {
          emailToKey := emailToKey - {peers[p.Text()].email};
        }
        peers := peers[p.Text() := p];
        emailToKey := emailToKey[p.email := p.Text()];
      }
      assert upserts[..|upserts|] == upserts;
    }

    method ReplaceAll(ps: seq<PeerInfo>) returns (removed: seq<string>)
      modifies this
      ensures State() == InsertAll(EMPTY_STORE, ps)
      ensures Enumerates(removed, old(peers).Keys - peers.Keys)
    {
      var newPeers, newEmails := map[], map[];
      for i := 0 to |ps|
        invariant Store(newPeers, newEmails) == InsertAll(EMPTY_STORE, ps[..i])
        invariant peers == old(peers)
      {
        assert ps[..i + 1][..i] == ps[..i];
        newPeers := newPeers[ps[i].Text() := ps[i]];
        newEmails := newEmails[ps[i].email := ps[i].Text()];
      }
      assert ps[..|ps|] == ps;

      removed := [];
      var rest := peers.Keys;
      while rest != {}
        invariant rest <= peers.Keys && peers == old(peers)
        invariant Enumerates(removed, peers.Keys - rest - newPeers.Keys)
        decreases rest
      {
        var key :| key in rest;
        ghost var done := peers.Keys - rest - newPeers.Keys;
        rest := rest - {key};
        if key !in newPeers {
          EnumerationExtended(removed, done, key);
          removed := removed + [key];
          assert peers.Keys - rest - newPeers.Keys == done + {key};
        } else {
          assert peers.Keys - rest - newPeers.Keys == done;
        }
      }
      assert peers.Keys - rest - newPeers.Keys == peers.Keys - newPeers.Keys;
      peers, emailToKey := newPeers, newEmails;
    }

    function GetByEmail(email: string): (p: Option<PeerInfo>)
      reads this
    {
      LookupEmail(Store(peers, emailToKey), email)
    }

    // All peers, in the order the map happens to be walked.
    method GetAll() returns (all: seq<PeerInfo>)
      requires WellKeyed(State())
      ensures Enumerates(all, Entries(State()))
    {
      all := [];
      var rest := peers.Keys;
      while rest != {}
        invariant rest <= peers.Keys
        invariant Enumerates(all, set t | t in peers.Keys - rest :: peers[t])
        decreases rest
      {
        var t :| t in rest;
        ghost var done := set u | u in peers.Keys - rest :: peers[u];
        EnumerationExtended(all, done, peers[t]);
        all := all + [peers[t]];
        rest := rest - {t};
        assert (set u | u in peers.Keys - rest :: peers[u]) == done + {peers[t]};
      }
      assert (set u | u in peers.Keys - rest :: peers[u]) == peers.Values;
    }

    function GetEmailMap(): map<string, string>
      reads this
    {
      map t | t in peers :: peers[t].email
    }
  }

  // ----- what the loops amount to

  lemma {:induction false} RemoveAllShape(s: Store, keys: seq<string>, emails: set<string>)
    ensures RemoveAll(s, keys).peers == s.peers - (set k | k in keys)
    ensures IndexRight(s, emails) ==> IndexRight(RemoveAll(s, keys), emails)
    ensures Bijective(s) ==> Bijective(RemoveAll(s, keys))
  {
    if keys != [] {
      var front, last := keys[..|keys| - 1], keys[|keys| - 1];
      assert keys == front + [last];
      RemoveAllShape(s, front, emails);
      RemoveOneKeeps(RemoveAll(s, front), last, emails);
      assert (set k | k in keys) == (set k | k in front) + {last};
    }
  }

  lemma {:induction false} RemovedByShape(s: Store, keys: seq<string>)
    ensures NoDuplicates(RemovedBy(s, keys))
    ensures forall k :: k in RemovedBy(s, keys) <==> k in keys && k in s.peers
  {
    if keys != [] {
      var front, last := keys[..|keys| - 1], keys[|keys| - 1];
      assert keys == front + [last];
      RemovedByShape(s, front);
      RemoveAllShape(s, front, {});
      assert last in RemoveAll(s, front).peers <==> last in s.peers && last !in front;
    }
  }

  lemma RemoveOneKeeps(s: Store, key: string, emails: set<string>)
    ensures RemoveOne(s, key).peers == s.peers - {key}
    ensures IndexRight(s, emails) ==> IndexRight(RemoveOne(s, key), emails)
    ensures Bijective(s) ==> Bijective(RemoveOne(s, key))
  {
  }

  // Entries of s that share neither key nor email with p, plus p.
  ghost function Displacing(entries: set<PeerInfo>, p: PeerInfo): set<PeerInfo> {
    (set q | q in entries && q.Text() != p.Text() && q.email != p.email) + {p}
  }

  lemma UpsertOneKeeps(s: Store, p: PeerInfo, emails: set<string>)
    requires IndexRight(s, emails) && p.email in emails
    ensures IndexRight(UpsertOne(s, p), emails)
  {
  }

  lemma UpsertOneBijective(s: Store, p: PeerInfo)
    requires Bijective(s)
    ensures Bijective(UpsertOne(s, p))
  {
  }

  lemma UpsertOneShape(s: Store, p: PeerInfo, emails: set<string>)
    requires IndexRight(s, emails) && p.email in emails
    ensures IndexRight(UpsertOne(s, p), emails)
    ensures Entries(UpsertOne(s, p)) == Displacing(Entries(s), p)
    ensures Bijective(s) ==> Bijective(UpsertOne(s, p))
  {
    UpsertOneKeeps(s, p, emails);
    UpsertOneEntries(s, p, emails);
    if Bijective(s) { UpsertOneBijective(s, p); }
  }

  lemma UpsertOneEntries(s: Store, p: PeerInfo, emails: set<string>)
    requires IndexRight(s, emails) && p.email in emails
    ensures Entries(UpsertOne(s, p)) == Displacing(Entries(s), p)
  {
    var s' := UpsertOne(s, p);
    var t := p.Text();
    forall q | q in Displacing(Entries(s), p) ensures q in Entries(s') {
      if q != p {
        var u :| u in s.peers && s.peers[u] == q;
        assert u in s'.peers && s'.peers[u] == q;
      } else {
        assert t in s'.peers && s'.peers[t] == p;
      }
    }
    forall q | q in Entries(s') ensures q in Displacing(Entries(s), p) {
      var u :| u in s'.peers && s'.peers[u] == q;
    }
  }

  ghost function Merged(entries: set<PeerInfo>, ps: seq<PeerInfo>): set<PeerInfo> {
    (set q | q in entries && forall p :: p in ps ==> q.Text() != p.Text() && q.email != p.email)
    + SetOf(ps)
  }

  lemma MergedExtended(entries: set<PeerInfo>, front: seq<PeerInfo>, last: PeerInfo)
    requires DistinctPeers(front + [last])
    ensures Displacing(Merged(entries, front), last) == Merged(entries, front + [last])
  {
    var ps := front + [last];
    forall p | p in front ensures p.Text() != last.Text() && p.email != last.email {
      var i :| 0 <= i < |front| && front[i] == p;
      assert ps[i] == p && ps[|front|] == last;
    }
    forall q ensures q in Displacing(Merged(entries, front), last) <==> q in Merged(entries, ps) {
      assert q in ps <==> q in front || q == last;
      assert (forall p :: p in ps ==> q.Text() != p.Text() && q.email != p.email)
        <==> (forall p :: p in front ==> q.Text() != p.Text() && q.email != p.email)
             && q.Text() != last.Text() && q.email != last.email;
    }
  }

  ghost predicate EmailsAmong(ps: seq<PeerInfo>, emails: set<string>) {
    forall p :: p in ps ==> p.email in emails
  }

  lemma {:induction false} UpsertAllShape(s: Store, ps: seq<PeerInfo>, emails: set<string>)
    requires IndexRight(s, emails) && EmailsAmong(ps, emails) && DistinctPeers(ps)
    ensures IndexRight(UpsertAll(s, ps), emails)
    ensures Entries(UpsertAll(s, ps)) == Merged(Entries(s), ps)
    ensures Bijective(s) ==> Bijective(UpsertAll(s, ps))
  {
    if ps == [] {
      assert Merged(Entries(s), ps) == Entries(s);
    } else {
      var front, last := ps[..|ps| - 1], ps[|ps| - 1];
      assert ps == front + [last];
      UpsertAllShape(s, front, emails);
      UpsertOneShape(UpsertAll(s, front), last, emails);
      MergedExtended(Entries(s), front, last);
    }
  }

  // The old store minus the removed keys, minus every entry that shares a key or an email with
  // an upsert, plus the upserts, as long as the email index is right about the upserted emails; it
  // then stays so, and inverse indexes stay inverse. Key swaps and chains included.
  lemma ApplyChangesShape(s: Store, removeKeys: seq<string>, upserts: seq<PeerInfo>, emails: set<string>)
    requires IndexRight(s, emails) && EmailsAmong(upserts, emails) && DistinctPeers(upserts)
    ensures IndexRight(AfterChanges(s, removeKeys, upserts), emails)
    ensures Entries(AfterChanges(s, removeKeys, upserts))
         == Merged((set q | q in Entries(s) && q.Text() !in removeKeys), upserts)
    ensures Bijective(s) ==> Bijective(AfterChanges(s, removeKeys, upserts))
  {
    RemoveAllShape(s, removeKeys, emails);
    EntriesLeft(s, removeKeys);
    UpsertAllShape(RemoveAll(s, removeKeys), upserts, emails);
  }

  lemma EntriesLeft(s: Store, removeKeys: seq<string>)
    requires WellKeyed(s)
    ensures Entries(RemoveAll(s, removeKeys)) == set q | q in Entries(s) && q.Text() !in removeKeys
  {
    RemoveAllShape(s, removeKeys, {});
    var mid := RemoveAll(s, removeKeys);
    forall q ensures q in Entries(mid) <==> q in Entries(s) && q.Text() !in removeKeys {
      if q in Entries(mid) {
        var t :| t in mid.peers && mid.peers[t] == q;
        assert s.peers[t] == q;
      }
      if q in Entries(s) && q.Text() !in removeKeys {
        var t :| t in s.peers && s.peers[t] == q;
        assert mid.peers[t] == q;
      }
    }
  }

  ghost predicate EmailsApart(ps: seq<PeerInfo>) {
    forall i, j :: 0 <= i < j < |ps| ==> ps[i].email != ps[j].email
  }

  // Whatever keys the upserts share, the email index stays right about their emails, inverse indexes
  // stay inverse, and every key upserted ends up with one of the upserts.
  lemma {:induction false} UpsertAllKeeps(s: Store, ps: seq<PeerInfo>, emails: set<string>)
    requires IndexRight(s, emails) && EmailsAmong(ps, emails) && EmailsApart(ps)
    ensures IndexRight(UpsertAll(s, ps), emails)
    ensures forall p :: p in ps ==> p.Text() in UpsertAll(s, ps).peers && UpsertAll(s, ps).peers[p.Text()] in ps
    ensures Bijective(s) ==> Bijective(UpsertAll(s, ps))
  {
    if ps != [] {
      var front, last := ps[..|ps| - 1], ps[|ps| - 1];
      assert ps == front + [last];
      UpsertAllKeeps(s, front, emails);
      var mid := UpsertAll(s, front);
      UpsertOneShape(mid, last, emails);
      forall p | p in ps ensures p.Text() in UpsertOne(mid, last).peers && UpsertOne(mid, last).peers[p.Text()] in ps {
        if p.Text() != last.Text() {
          var q := mid.peers[p.Text()];
          var i :| 0 <= i < |front| && front[i] == q;
          assert ps[i].email != ps[|front|].email;
        }
      }
    }
  }

  // Which keys are stored after upserts of distinct emails, whatever keys they share: those upserted,
  // and of the others those whose peer had none of the emails.
  lemma {:induction false} UpsertedKeysIff(s: Store, ps: seq<PeerInfo>, emails: set<string>, t: string)
    requires IndexRight(s, emails) && EmailsAmong(ps, emails) && EmailsApart(ps)
    ensures t in UpsertAll(s, ps).peers
       <==> (exists p :: p in ps && p.Text() == t) || (t in s.peers && forall p :: p in ps ==> p.email != s.peers[t].email)
  {
    if ps != [] {
      var front, last := ps[..|ps| - 1], ps[|ps| - 1];
      assert ps == front + [last];
      UpsertedKeysIff(s, front, emails, t);
      UpsertAllKeeps(s, front, emails);
      UpsertedFrom(s, front);
      UpsertedKey(UpsertAll(s, front), last, emails, t);
      if exists p :: p in front && p.Text() == t {
        KeyStays(UpsertAll(s, front), front, last, t);
      } else if t in UpsertAll(s, front).peers {
        assert UpsertAll(s, front).peers[t] in Entries(UpsertAll(s, front));
      }
    }
  }

  lemma UpsertedKey(s: Store, p: PeerInfo, emails: set<string>, t: string)
    requires IndexRight(s, emails) && p.email in emails
    ensures t in UpsertOne(s, p).peers <==> p.Text() == t || (t in s.peers && s.peers[t].email != p.email)
  {
  }

  lemma KeyStays(mid: Store, front: seq<PeerInfo>, last: PeerInfo, t: string)
    requires EmailsApart(front + [last]) && t in mid.peers && mid.peers[t] in front
    ensures mid.peers[t].email != last.email
  {
    var ps := front + [last];
    var i :| 0 <= i < |front| && front[i] == mid.peers[t];
    assert ps[i].email != ps[|front|].email;
  }

  // ----- upserts into any store

  // Upserting p takes the peer of another key away: the one the index files the email of p under.
  predicate Evicts(s: Store, p: PeerInfo, t: string) {
    p.email in s.emailToKey && s.emailToKey[p.email] == t && p.Text() != t
  }

  // The n-th upsert takes the peer of key t away, and no later one brings the key back.
  ghost predicate LostAt(s: Store, ps: seq<PeerInfo>, t: string, n: nat)
    requires n < |ps|
  {
    Evicts(UpsertAll(s, ps[..n]), ps[n], t) && forall m :: n < m < |ps| ==> ps[m].Text() != t
  }

  ghost predicate Lost(s: Store, ps: seq<PeerInfo>, t: string) {
    exists n: nat :: n < |ps| && LostAt(s, ps, t, n)
  }

  // Whatever the email index says: a stored key is lost exactly when some upsert loses it for good.
  lemma {:induction false} KeyLostIff(s: Store, ps: seq<PeerInfo>, t: string)
    requires t in s.peers
    ensures t !in UpsertAll(s, ps).peers <==> Lost(s, ps, t)
  {
    if ps != [] {
      var front, last := ps[..|ps| - 1], ps[|ps| - 1];
      assert ps == front + [last];
      KeyLostIff(s, front, t);
      LossExtended(s, front, last, t);
      KeptByOne(UpsertAll(s, front), last, t);
    }
  }

  lemma KeptByOne(s: Store, p: PeerInfo, t: string)
    ensures t in UpsertOne(s, p).peers <==> p.Text() == t || (t in s.peers && !Evicts(s, p, t))
  {
  }

  lemma LossExtended(s: Store, front: seq<PeerInfo>, last: PeerInfo, t: string)
    ensures Lost(s, front + [last], t) <==> Evicts(UpsertAll(s, front), last, t) || (Lost(s, front, t) && last.Text() != t)
  {
    var ps := front + [last];
    assert ps[..|front|] == front;
    if Evicts(UpsertAll(s, front), last, t) {
      assert LostAt(s, ps, t, |front|);
    } else if Lost(s, front, t) && last.Text() != t {
      var n: nat :| n < |front| && LostAt(s, front, t, n);
      LostEarlier(s, front, last, t, n);
    }
    if Lost(s, ps, t) {
      var n: nat :| n < |ps| && LostAt(s, ps, t, n);
      if n < |front| { LostEarlier(s, front, last, t, n); }
    }
  }

  lemma LostEarlier(s: Store, front: seq<PeerInfo>, last: PeerInfo, t: string, n: nat)
    requires n < |front|
    ensures LostAt(s, front + [last], t, n) <==> LostAt(s, front, t, n) && last.Text() != t
  {
    var ps := front + [last];
    assert ps[..n] == front[..n] && ps[n] == front[n] && ps[|front|] == last;
    assert forall m :: n < m < |front| ==> ps[m] == front[m];
  }

  // No entry comes out of nowhere.
  lemma {:induction false} UpsertedFrom(s: Store, ps: seq<PeerInfo>)
    requires WellKeyed(s)
    ensures WellKeyed(UpsertAll(s, ps))
    ensures Entries(UpsertAll(s, ps)) <= Entries(s) + SetOf(ps)
  {
    if ps != [] {
      UpsertedFrom(s, ps[..|ps| - 1]);
    }
  }

  lemma {:induction false} RemovalsLeave(s: Store, keys: seq<string>)
    requires WellKeyed(s)
    ensures WellKeyed(RemoveAll(s, keys)) && Entries(RemoveAll(s, keys)) <= Entries(s)
  {
    if keys != [] {
      RemovalsLeave(s, keys[..|keys| - 1]);
    }
  }

  lemma ChangedFrom(s: Store, removeKeys: seq<string>, upserts: seq<PeerInfo>)
    requires WellKeyed(s)
    ensures WellKeyed(AfterChanges(s, removeKeys, upserts))
    ensures Entries(AfterChanges(s, removeKeys, upserts)) <= Entries(s) + SetOf(upserts)
  {
    RemovalsLeave(s, removeKeys);
    UpsertedFrom(RemoveAll(s, removeKeys), upserts);
  }

  lemma {:induction false} InsertedFrom(ps: seq<PeerInfo>)
    ensures WellKeyed(InsertAll(EMPTY_STORE, ps)) && Entries(InsertAll(EMPTY_STORE, ps)) <= SetOf(ps)
  {
    if ps != [] {
      var front, last := ps[..|ps| - 1], ps[|ps| - 1];
      assert ps == front + [last];
      InsertedFrom(front);
      assert SetOf(ps) == SetOf(front) + {last};
    }
  }

  // Inserting peers of distinct emails files every email under its own key, shared or not.
  lemma {:induction false} InsertedEmails(ps: seq<PeerInfo>)
    requires EmailsApart(ps)
    ensures forall p :: p in ps ==>
              p.email in InsertAll(EMPTY_STORE, ps).emailToKey && InsertAll(EMPTY_STORE, ps).emailToKey[p.email] == p.Text()
  {
    if ps != [] {
      var front, last := ps[..|ps| - 1], ps[|ps| - 1];
      assert ps == front + [last];
      InsertedEmails(front);
      forall p | p in front ensures p.email != last.email {
        var i :| 0 <= i < |front| && front[i] == p;
        assert ps[i].email != ps[|front|].email;
      }
    }
  }

  // The entries determine a bijective store.
  lemma EntriesDetermineStore(s1: Store, s2: Store)
    requires Bijective(s1) && Bijective(s2) && Entries(s1) == Entries(s2)
    ensures s1 == s2
  {
    SubStore(s1, s2);
    SubStore(s2, s1);
    assert s1.peers == s2.peers;
    assert s1.emailToKey == s2.emailToKey;
  }

  lemma SubStore(s1: Store, s2: Store)
    requires Bijective(s1) && Bijective(s2) && Entries(s1) <= Entries(s2)
    ensures forall t :: t in s1.peers ==> t in s2.peers && s2.peers[t] == s1.peers[t]
    ensures forall e :: e in s1.emailToKey ==> e in s2.emailToKey && s2.emailToKey[e] == s1.emailToKey[e]
  {
    forall t | t in s1.peers ensures t in s2.peers && s2.peers[t] == s1.peers[t] {
      assert s1.peers[t] in Entries(s2);
    }
  }

  lemma ChangesToBijective(s: Store, removeKeys: seq<string>, upserts: seq<PeerInfo>)
    requires Bijective(s) && DistinctPeers(upserts)
    ensures Bijective(AfterChanges(s, removeKeys, upserts))
    ensures Entries(AfterChanges(s, removeKeys, upserts))
         == Merged((set q | q in Entries(s) && q.Text() !in removeKeys), upserts)
  {
    ApplyChangesShape(s, removeKeys, upserts, set p | p in upserts :: p.email);
  }

  // Upserts with distinct keys and emails, and removals, may come in any order.
  lemma ApplyChangesOrderFree(s: Store, rs1: seq<string>, ps1: seq<PeerInfo>, rs2: seq<string>, ps2: seq<PeerInfo>)
    requires Bijective(s) && DistinctPeers(ps1) && DistinctPeers(ps2)
    requires SetOf(rs1) == SetOf(rs2) && SetOf(ps1) == SetOf(ps2)
    ensures AfterChanges(s, rs1, ps1) == AfterChanges(s, rs2, ps2)
  {
    ChangesToBijective(s, rs1, ps1);
    ChangesToBijective(s, rs2, ps2);
    assert forall r :: r in rs1 <==> r in SetOf(rs1);
    assert forall r :: r in rs2 <==> r in SetOf(rs2);
    assert forall p :: p in ps1 <==> p in SetOf(ps1);
    assert forall p :: p in ps2 <==> p in SetOf(ps2);
    var kept := set q | q in Entries(s) && q.Text() !in rs1;
    assert kept == set q | q in Entries(s) && q.Text() !in rs2;
    assert Merged(kept, ps1) == Merged(kept, ps2);
    EntriesDetermineStore(AfterChanges(s, rs1, ps1), AfterChanges(s, rs2, ps2));
  }

  lemma {:induction false} InsertAllShape(ps: seq<PeerInfo>)
    requires DistinctPeers(ps)
    ensures Bijective(InsertAll(EMPTY_STORE, ps))
    ensures Entries(InsertAll(EMPTY_STORE, ps)) == SetOf(ps)
  {
    if ps != [] {
      var front, last := ps[..|ps| - 1], ps[|ps| - 1];
      assert ps == front + [last];
      InsertAllShape(front);
      var s := InsertAll(EMPTY_STORE, front);
      forall i | 0 <= i < |front| ensures front[i].Text() != last.Text() && front[i].email != last.email {
        assert ps[i] == front[i] && ps[|front|] == last;
      }
      InsertOneShape(s, last);
      assert SetOf(ps) == SetOf(front) + {last};
    }
  }

  lemma InsertOneShape(s: Store, p: PeerInfo)
    requires Bijective(s)
    requires forall q :: q in Entries(s) ==> q.Text() != p.Text() && q.email != p.email
    ensures Bijective(InsertOne(s, p))
    ensures Entries(InsertOne(s, p)) == Entries(s) + {p}
  {
    var s' := InsertOne(s, p);
    forall t | t in s.peers ensures t != p.Text() && s.peers[t].email != p.email {
      assert s.peers[t] in Entries(s);
    }
    ValuesExtended(s.peers, p.Text(), p);
  }

  lemma ValuesExtended(m: map<string, PeerInfo>, t: string, p: PeerInfo)
    requires t !in m
    ensures m[t := p].Values == m.Values + {p}
  {
    var m' := m[t := p];
    assert m'[t] == p;
    forall q | q in m.Values ensures q in m'.Values {
      var u :| u in m && m[u] == q;
      assert m'[u] == q;
    }
  }
}
