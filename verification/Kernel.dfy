// backend/wireguard/manager.go, and the peers of the kernel device behind it.
//
// The device maps each public key to its allowed prefixes. A prefix belongs to one peer at a
// time: configuring it on a peer takes it from whichever peer had it. A ConfigureDevice call is
// accepted or refused as a whole; which of the two is up to the kernel, hence a parameter.
module Kernel {
  import opened Cidr
  import opened WgKeys
  import opened Enumerations

  type Device = map<Key, set<Prefix>>

  datatype PeerConfig = PeerConfig(key: Key, remove: bool, replaceAllowedIPs: bool, allowed: seq<Prefix>)

  function ApplyOne(d: Device, c: PeerConfig): Device {
    if c.remove then d - {c.key}
    else
      var kept := if c.key in d && !c.replaceAllowedIPs then d[c.key] else {};
      (map k | k in d && k != c.key :: d[k] - SetOf(c.allowed))[c.key := kept + SetOf(c.allowed)]
  }

  function ApplyBatch(d: Device, cs: seq<PeerConfig>): Device {
    if cs == [] then d else ApplyOne(ApplyBatch(d, cs[..|cs| - 1]), cs[|cs| - 1])
  }

  // How setting up the interface ends: before the old one was removed, without a new link, with a
  // link the kernel would not configure, with one it would not bring up, or well. removed: the
  // clean-up on failure went through.
  datatype SetUp = TooEarly | NoLink | NotConfigured(removed: bool) | NotUp(removed: bool) | Up

  class Manager {
    var clientOpen: bool  // client is not nil
    var device: Device

    constructor ()
      ensures clientOpen && device == map[]
    {
      clientOpen, device := true, map[];
    }

    // Replaces the interface by a new one, configured with the startup peers in one call.
    method InitializeWithPeers(peers: seq<PeerConfig>, outcome: SetUp) returns (ok: bool)
      modifies this
      ensures clientOpen == old(clientOpen)
      ensures ok == (clientOpen && outcome == Up)
      ensures device == if !clientOpen then old(device) else match outcome
                case TooEarly => old(device)
                case NoLink => map[]
                case NotConfigured(_) => map[]
                case NotUp(removed) => if removed then map[] else ApplyBatch(map[], peers)
                case Up => ApplyBatch(map[], peers)
    {
      if !clientOpen || outcome.TooEarly? { return false; }
      device := map[];
      if outcome.NoLink? || outcome.NotConfigured? { return false; }
      if |peers| > 0 {
        device := ApplyBatch(map[], peers);
      }
      if outcome.NotUp? {
        if outcome.removed { device := map[]; }
        return false;
      }
      ok := true;
    }

    method ApplyPeers(peers: seq<PeerConfig>, accepted: bool) returns (ok: bool)
      modifies this
      ensures clientOpen == old(clientOpen)
      ensures ok == (peers == [] || (clientOpen && accepted))
      ensures device == if ok then ApplyBatch(old(device), peers) else old(device)
    {
      if |peers| == 0 { return true; }
      if !clientOpen || !accepted { return false; }
      device := ApplyBatch(device, peers);
      ok := true;
    }

    // ApplyPeersReplaceAll, and ApplyConfig with ReplacePeers set.
    method ApplyPeersReplaceAll(peers: seq<PeerConfig>, accepted: bool) returns (ok: bool)
      modifies this
      ensures clientOpen == old(clientOpen)
      ensures ok == (clientOpen && accepted)
      ensures device == if ok then ApplyBatch(map[], peers) else old(device)
    {
      if !clientOpen || !accepted { return false; }
      device := ApplyBatch(map[], peers);
      ok := true;
    }

    // The client is dropped first; closing it and removing the interface may fail, each on its own.
    method Close(closes: bool, removed: bool) returns (ok: bool)
      modifies this
      ensures !clientOpen
      ensures ok == ((!old(clientOpen) || closes) && removed)
      ensures device == if removed then map[] else old(device)
    {
      ok := !clientOpen || closes;
      clientOpen := false;
      if removed { device := map[]; } else { ok := false; }
    }
  }

  // ----- what a batch does

  ghost predicate Exclusive(d: Device) {
    forall a, b :: a in d && b in d && a != b ==> d[a] !! d[b]
  }

  // No batch can leave one prefix on two peers.
  lemma {:induction false} BatchKeepsExclusive(d: Device, cs: seq<PeerConfig>)
    requires Exclusive(d)
    ensures Exclusive(ApplyBatch(d, cs))
  {
    if cs != [] {
      BatchKeepsExclusive(d, cs[..|cs| - 1]);
    }
  }

  lemma {:induction false} BatchSplits(d: Device, front: seq<PeerConfig>, back: seq<PeerConfig>)
    ensures ApplyBatch(d, front + back) == ApplyBatch(ApplyBatch(d, front), back)
  {
    if back == [] {
      assert front + back == front;
    } else {
      var cs := front + back;
      assert cs[..|cs| - 1] == front + back[..|back| - 1];
      BatchSplits(d, front, back[..|back| - 1]);
    }
  }

  ghost predicate AllSet(cs: seq<PeerConfig>) {
    forall i :: 0 <= i < |cs| ==> !cs[i].remove
  }

  ghost predicate AllRemove(cs: seq<PeerConfig>) {
    forall i :: 0 <= i < |cs| ==> cs[i].remove
  }

  ghost predicate DistinctKeys(cs: seq<PeerConfig>) {
    forall i, j :: 0 <= i < j < |cs| ==> cs[i].key != cs[j].key
  }

  ghost predicate DisjointAllowed(cs: seq<PeerConfig>) {
    forall i, j :: 0 <= i < j < |cs| ==> SetOf(cs[i].allowed) !! SetOf(cs[j].allowed)
  }

  function KeysOf(cs: seq<PeerConfig>): set<Key> {
    set c | c in cs :: c.key
  }

  function PrefixesOf(cs: seq<PeerConfig>): set<Prefix> {
    set c, p | c in cs && p in c.allowed :: p
  }

  lemma KeysExtended(front: seq<PeerConfig>, last: PeerConfig)
    ensures KeysOf(front + [last]) == KeysOf(front) + {last.key}
    ensures PrefixesOf(front + [last]) == PrefixesOf(front) + SetOf(last.allowed)
  {
  }

  // What a peer set by c has after a batch: the list, and without replacement what it had before and
  // the batch did not give away.
  ghost function SetTo(d: Device, c: PeerConfig, given: set<Prefix>): set<Prefix> {
    SetOf(c.allowed) + if c.replaceAllowedIPs || c.key !in d then {} else d[c.key] - given
  }

  // r is d after cs.
  ghost predicate SetterResult(d: Device, cs: seq<PeerConfig>, r: Device) {
    && r.Keys == d.Keys + KeysOf(cs)
    && (forall c :: c in cs ==> r[c.key] == SetTo(d, c, PrefixesOf(cs)))
    && (forall k :: k in d && k !in KeysOf(cs) ==> r[k] == d[k] - PrefixesOf(cs))
  }

  lemma SetterStep(d: Device, front: seq<PeerConfig>, last: PeerConfig, mid: Device)
    requires SetterResult(d, front, mid)
    requires DistinctKeys(front + [last]) && DisjointAllowed(front + [last]) && !last.remove
    ensures SetterResult(d, front + [last], ApplyOne(mid, last))
  {
    KeysExtended(front, last);
    NotAmong(front, last);
    var cs, r := front + [last], ApplyOne(mid, last);
    forall k | k in d && k !in KeysOf(cs) ensures r[k] == d[k] - PrefixesOf(cs) {
      OtherPeerLoses(d, mid, last, PrefixesOf(front), k);
    }
    forall c | c in cs ensures r[c.key] == SetTo(d, c, PrefixesOf(cs)) {
      SetterEntry(d, front, last, mid, c);
    }
  }

  lemma SetterEntry(d: Device, front: seq<PeerConfig>, last: PeerConfig, mid: Device, c: PeerConfig)
    requires SetterResult(d, front, mid) && !last.remove && last.key !in KeysOf(front)
    requires c in front || c == last
    requires c in front ==> c.key != last.key && SetOf(c.allowed) !! SetOf(last.allowed)
    ensures c.key in ApplyOne(mid, last)
    ensures ApplyOne(mid, last)[c.key] == SetTo(d, c, PrefixesOf(front) + SetOf(last.allowed))
  {
    if c in front {
      assert c.key in KeysOf(front);
      EarlierSetterKept(d, mid, c, last, PrefixesOf(front));
    } else {
      LastSetter(d, mid, last, PrefixesOf(front));
    }
  }

  lemma OtherPeerLoses(d: Device, mid: Device, last: PeerConfig, given: set<Prefix>, k: Key)
    requires k in d && k in mid && mid[k] == d[k] - given && k != last.key && !last.remove
    ensures ApplyOne(mid, last)[k] == d[k] - (given + SetOf(last.allowed))
  {
  }

  lemma EarlierSetterKept(d: Device, mid: Device, c: PeerConfig, last: PeerConfig, given: set<Prefix>)
    requires c.key in mid && mid[c.key] == SetTo(d, c, given) && c.key != last.key
    requires !last.remove && SetOf(c.allowed) !! SetOf(last.allowed)
    ensures ApplyOne(mid, last)[c.key] == SetTo(d, c, given + SetOf(last.allowed))
  {
    assert ApplyOne(mid, last)[c.key] == mid[c.key] - SetOf(last.allowed);
  }

  lemma LastSetter(d: Device, mid: Device, last: PeerConfig, given: set<Prefix>)
    requires !last.remove && (last.key in mid <==> last.key in d)
    requires last.key in d ==> mid[last.key] == d[last.key] - given
    ensures ApplyOne(mid, last)[last.key] == SetTo(d, last, given + SetOf(last.allowed))
  {
  }

  lemma {:induction false} SettersShape(d: Device, cs: seq<PeerConfig>)
    requires AllSet(cs) && DistinctKeys(cs) && DisjointAllowed(cs)
    ensures SetterResult(d, cs, ApplyBatch(d, cs))
  {
    if cs == [] {
      assert forall k :: k in d ==> d[k] - PrefixesOf(cs) == d[k];
    } else {
      var front, last := cs[..|cs| - 1], cs[|cs| - 1];
      assert cs == front + [last];
      SettersShape(d, front);
      SetterStep(d, front, last, ApplyBatch(d, front));
    }
  }

  // A batch of settings on an empty device: every peer named has exactly its list.
  lemma SettersOnEmpty(cs: seq<PeerConfig>)
    requires AllSet(cs) && DistinctKeys(cs) && DisjointAllowed(cs)
    ensures ApplyBatch(map[], cs).Keys == KeysOf(cs)
    ensures forall c :: c in cs ==> ApplyBatch(map[], cs)[c.key] == SetOf(c.allowed)
  {
    SettersShape(map[], cs);
    forall c | c in cs ensures c.key in ApplyBatch(map[], cs) && ApplyBatch(map[], cs)[c.key] == SetOf(c.allowed) {
      assert SetTo(map[], c, PrefixesOf(cs)) == SetOf(c.allowed);
    }
  }

  lemma NotAmong(front: seq<PeerConfig>, last: PeerConfig)
    requires DistinctKeys(front + [last]) && DisjointAllowed(front + [last])
    ensures last.key !in KeysOf(front)
    ensures forall c :: c in front ==> c.key != last.key && SetOf(c.allowed) !! SetOf(last.allowed)
  {
    var cs := front + [last];
    forall c | c in front ensures c.key != last.key && SetOf(c.allowed) !! SetOf(last.allowed) {
      var i :| 0 <= i < |front| && front[i] == c;
      assert cs[i] == c && cs[|front|] == last;
    }
  }

  lemma {:induction false} RemoversShape(d: Device, cs: seq<PeerConfig>)
    requires AllRemove(cs)
    ensures ApplyBatch(d, cs) == d - KeysOf(cs)
  {
    if cs != [] {
      var front, last := cs[..|cs| - 1], cs[|cs| - 1];
      assert cs == front + [last];
      RemoversShape(d, front);
      KeysExtended(front, last);
    }
  }

  // Whatever keys repeat, a batch without removals and without replacement leaves every prefix it
  // configures where it was put, and takes from a peer only what it configures.
  lemma {:induction false} SettersAccumulate(d: Device, cs: seq<PeerConfig>)
    requires AllSet(cs) && DisjointAllowed(cs)
    requires forall i :: 0 <= i < |cs| ==> !cs[i].replaceAllowedIPs
    ensures forall c :: c in cs ==> c.key in ApplyBatch(d, cs) && SetOf(c.allowed) <= ApplyBatch(d, cs)[c.key]
    ensures forall k :: k in d ==> k in ApplyBatch(d, cs) && d[k] - PrefixesOf(cs) <= ApplyBatch(d, cs)[k]
  {
    if cs != [] {
      var front, last := cs[..|cs| - 1], cs[|cs| - 1];
      assert cs == front + [last];
      SettersAccumulate(d, front);
      KeysExtended(front, last);
      var mid := ApplyBatch(d, front);
      forall c | c in front ensures c.key in ApplyOne(mid, last) && SetOf(c.allowed) <= ApplyOne(mid, last)[c.key] {
        var i :| 0 <= i < |front| && front[i] == c;
        assert SetOf(cs[i].allowed) !! SetOf(cs[|front|].allowed);
        AdderTakes(mid, last, c.key);
      }
      forall k | k in d ensures k in ApplyOne(mid, last) && d[k] - PrefixesOf(cs) <= ApplyOne(mid, last)[k] {
        AdderTakes(mid, last, k);
      }
    }
  }

  lemma AdderTakes(d: Device, c: PeerConfig, k: Key)
    requires k in d && !c.remove && !c.replaceAllowedIPs
    ensures k in ApplyOne(d, c) && d[k] - SetOf(c.allowed) <= ApplyOne(d, c)[k]
    ensures SetOf(c.allowed) <= ApplyOne(d, c)[c.key]
  {
  }
}
