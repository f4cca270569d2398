// pkg/stats/tracker.go: traffic counters per public key.
module Trackers {
  import opened Wrappers
  import opened Enumerations

  datatype Entry = Entry(
    email: string,
    currentRx: int, currentTx: int,
    baseRx: int, baseTx: int,
    lastDeltaRx: int, lastDeltaTx: int,
    isDeleted: bool)

  // Kernel byte counters are never negative.
  datatype Sample = Sample(publicKey: string, email: string, rx: nat, tx: nat)

  datatype Kind = Uplink | Downlink
  datatype Stat = Stat(name: string, kind: Kind, link: string, value: int)

  type Stats = map<string, Entry>

  // ----- one entry

  function FreshEntry(email: string): Entry {
    Entry(email, 0, 0, 0, 0, 0, 0, false)
  }

  function ClampedAtZero(x: int): (r: int)
    ensures r >= 0 && r >= x && (r > 0 ==> r == x)
  {
    if x < 0 then 0 else x
  }

  // applySampleLocked on the entry of the sample's key
  function Sampled(known: Option<Entry>, s: Sample): Entry {
    var e0 := (if known.Some? then known.value else FreshEntry(s.email)).(email := s.email, isDeleted := false);
    var readded := e0.lastDeltaRx != 0 || e0.lastDeltaTx != 0;
    var e1 := if readded
              then e0.(baseRx := s.rx - e0.lastDeltaRx, baseTx := s.tx - e0.lastDeltaTx, lastDeltaRx := 0, lastDeltaTx := 0)
              else e0;
    if e1.currentRx == s.rx && e1.currentTx == s.tx then e1
    else
      var rolledBack := !readded && (s.rx < e1.currentRx || s.tx < e1.currentTx);
      var e2 := if rolledBack
                then e1.(baseRx := s.rx - ClampedAtZero(e1.currentRx - e1.baseRx),
                         baseTx := s.tx - ClampedAtZero(e1.currentTx - e1.baseTx))
                else e1;
      e2.(currentRx := s.rx, currentTx := s.tx)
  }

  function Removed(e: Entry): Entry {
    e.(lastDeltaRx := e.currentRx - e.baseRx, lastDeltaTx := e.currentTx - e.baseTx, isDeleted := true)
  }

  function DeltaStats(name: string, link: string, rx: int, tx: int): seq<Stat> {
    if rx == 0 && tx == 0 then []
    else (if tx > 0 then [Stat(name, Uplink, link, tx)] else [])
         + (if rx > 0 then [Stat(name, Downlink, link, rx)] else [])
  }

  function EntryStats(e: Entry, key: string): seq<Stat> {
    DeltaStats(e.email, key, e.currentRx - e.baseRx, e.currentTx - e.baseTx)
  }

  // What a resetting read leaves of an entry.
  function AfterReset(e: Entry): Option<Entry> {
    if e.isDeleted then None else Some(e.(baseRx := e.currentRx, baseTx := e.currentTx))
  }

  predicate Settled(e: Entry) {
    e.isDeleted && e.currentRx == e.baseRx && e.currentTx == e.baseTx
  }

  // ----- the map

  function At(m: Stats, key: string): Option<Entry> {
    if key in m then Some(m[key]) else None
  }

  function SampledMap(m: Stats, s: Sample): Stats {
    m[s.publicKey := Sampled(At(m, s.publicKey), s)]
  }

  function SampledAll(m: Stats, samples: seq<Sample>): Stats {
    if samples == [] then m else SampledMap(SampledAll(m, samples[..|samples| - 1]), samples[|samples| - 1])
  }

  function RemovedMap(m: Stats, key: string): Stats {
    if key in m then m[key := Removed(m[key])] else m
  }

  function RemovedAll(m: Stats, keys: seq<string>): Stats {
    if keys == [] then m else RemovedMap(RemovedAll(m, keys[..|keys| - 1]), keys[|keys| - 1])
  }

  function ResetKey(m: Stats, key: string, reset: bool): Stats {
    if key !in m || !reset then m
    else if AfterReset(m[key]).None? then m - {key} else m[key := AfterReset(m[key]).value]
  }

  function ResetKeys(m: Stats, keys: seq<string>, reset: bool): Stats {
    if keys == [] then m else ResetKey(ResetKeys(m, keys[..|keys| - 1], reset), keys[|keys| - 1], reset)
  }

  // The statistics a read of keys reports; an earlier occurrence of a key has already reset it.
  function ReadKeys(m: Stats, keys: seq<string>, reset: bool): seq<Stat> {
    if keys == [] then []
    else
      var front, key := keys[..|keys| - 1], keys[|keys| - 1];
      var now := ResetKeys(m, front, reset);
      ReadKeys(m, front, reset) + if key in now then EntryStats(now[key], key) else []
  }

  function Cleaned(m: Stats): Stats {
    map k | k in m && !Settled(m[k]) :: m[k]
  }

  class Tracker {
    var stats: Stats

    constructor ()
      ensures stats == map[]
    {
      stats := map[];
    }

    method UpdateStatsBatch(samples: seq<Sample>)
      modifies this
      ensures stats == SampledAll(old(stats), samples)
    {
      for i := 0 to |samples|
        invariant stats == SampledAll(old(stats), samples[..i])
      {
        assert samples[..i + 1][..i] == samples[..i];
        ApplySample(samples[i]);
      }
      assert samples[..|samples|] == samples;
    }

    method ApplySample(s: Sample)
      modifies this
      ensures stats == SampledMap(old(stats), s)
    {
      var key := s.publicKey;
      if key !in stats {
        stats := stats[key := FreshEntry(s.email)];
      }
      stats := stats[key := stats[key].(email := s.email, isDeleted := false)];

      var readded := false;
      if stats[key].lastDeltaRx != 0 || stats[key].lastDeltaTx != 0 {
        stats := stats[key := stats[key].(baseRx := s.rx - stats[key].lastDeltaRx)];
        stats := stats[key := stats[key].(baseTx := s.tx - stats[key].lastDeltaTx)];
        stats := stats[key := stats[key].(lastDeltaRx := 0, lastDeltaTx := 0)];
        readded := true;
      }
      if stats[key].currentRx == s.rx && stats[key].currentTx == s.tx {
        return;
      }
      if !readded && (s.rx < stats[key].currentRx || s.tx < stats[key].currentTx) {
        var pendingRx := ClampedAtZero(stats[key].currentRx - stats[key].baseRx);
        var pendingTx := ClampedAtZero(stats[key].currentTx - stats[key].baseTx);
        stats := stats[key := stats[key].(baseRx := s.rx - pendingRx, baseTx := s.tx - pendingTx)];
      }
      stats := stats[key := stats[key].(currentRx := s.rx, currentTx := s.tx)];
    }

    method GetStats(keys: seq<string>, reset: bool) returns (response: seq<Stat>)
      modifies this
      ensures stats == ResetKeys(old(stats), keys, reset)
      ensures response == ReadKeys(old(stats), keys, reset)
    {
      response := [];
      for i := 0 to |keys|
        invariant stats == ResetKeys(old(stats), keys[..i], reset)
        invariant response == ReadKeys(old(stats), keys[..i], reset)
      {
        assert keys[..i + 1][..i] == keys[..i];
        var key := keys[i];
        if key !in stats { continue; }
        response := response + EntryStats(stats[key], key);
        if reset { ResetEntry(key); }
      }
      assert keys[..|keys|] == keys;
    }

    // The resetting half of a read.
    method ResetEntry(key: string)
      requires key in stats
      modifies this
      ensures stats == ResetKey(old(stats), key, true)
    {
      stats := stats[key := stats[key].(baseRx := stats[key].currentRx, baseTx := stats[key].currentTx)];
      if stats[key].isDeleted {
        stats := stats - {key};
      }
    }

    // Walks the whole map, deleting from it as it goes; each key is met once, in some order.
    method GetUsersStats(reset: bool) returns (response: seq<Stat>, ghost order: seq<string>)
      modifies this
      ensures Enumerates(order, old(stats).Keys)
      ensures stats == ResetKeys(old(stats), order, reset)
      ensures response == ReadKeys(old(stats), order, reset)
    {
      response, order := [], [];
      var rest := stats.Keys;
      while rest != {}
        invariant rest <= stats.Keys && rest <= old(stats).Keys
        invariant Enumerates(order, old(stats).Keys - rest)
        invariant stats == ResetKeys(old(stats), order, reset)
        invariant response == ReadKeys(old(stats), order, reset)
        decreases rest
      {
        var key :| key in rest;
        EnumerationExtended(order, old(stats).Keys - rest, key);
        assert (order + [key])[..|order|] == order;
        assert old(stats).Keys - (rest - {key}) == (old(stats).Keys - rest) + {key};
        response := response + EntryStats(stats[key], key);
        order := order + [key];
        rest := rest - {key};
        if reset { ResetEntry(key); }
      }
      assert old(stats).Keys - rest == old(stats).Keys;
    }

    method RemoveStats(key: string)
      modifies this
      ensures stats == RemovedMap(old(stats), key)
    {
      if key !in stats { return; }
      stats := stats[key := stats[key].(lastDeltaRx := stats[key].currentRx - stats[key].baseRx)];
      stats := stats[key := stats[key].(lastDeltaTx := stats[key].currentTx - stats[key].baseTx)];
      stats := stats[key := stats[key].(isDeleted := true)];
    }

    method ClearAllStats()
      modifies this
      ensures stats == map[]
    {
      stats := map[];
    }

    method CleanupDeletedEntries()
      modifies this
      ensures stats == Cleaned(old(stats))
    {
      var rest := stats.Keys;
      while rest != {}
        invariant rest <= stats.Keys
        invariant stats == map k | k in old(stats) && (k in rest || !Settled(old(stats)[k])) :: old(stats)[k]
        decreases rest
      {
        var key :| key in rest;
        rest := rest - {key};
        if stats[key].isDeleted && stats[key].currentRx == stats[key].baseRx && stats[key].currentTx == stats[key].baseTx {
          stats := stats - {key};
        }
      }
    }
  }
}
