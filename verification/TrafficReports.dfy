// What reads of the tracker report: under which name, and how much; and what batches come to.
module TrafficReports {
  import opened Wrappers
  import opened Enumerations
  import opened Trackers
  import opened TrafficLedger

  // ----- names

  // The email of the last sample of a key.
  function LastEmail(evs: seq<Event>, key: string): string {
    if evs == [] then ""
    else
      var ev := evs[|evs| - 1];
      if IsSampleOf(ev, key) then ev.s.email else LastEmail(evs[..|evs| - 1], key)
  }

  lemma {:induction false} ResetKeepsEmail(m: Stats, keys: seq<string>, reset: bool, key: string)
    ensures key in ResetKeys(m, keys, reset) ==> key in m && ResetKeys(m, keys, reset)[key].email == m[key].email
  {
    if keys != [] { ResetKeepsEmail(m, keys[..|keys| - 1], reset, key); }
  }

  lemma StepNames(m: Stats, ev: Event, m': Stats, key: string, email: string)
    requires Step(m, ev, m') && (key in m ==> m[key].email == email)
    ensures key in m' ==> m'[key].email == if IsSampleOf(ev, key) then ev.s.email else email
  {
    match ev
    case Read(keys, reset, _) => ResetKeepsEmail(m, keys, reset, key);
    case ReadAll(reset, out) =>
      var order :| Enumerates(order, m.Keys) && m' == ResetKeys(m, order, reset) && out == ReadKeys(m, order, reset);
      ResetKeepsEmail(m, order, reset, key);
    case _ =>
  }

  lemma {:induction false} EntriesNamed(states: seq<Stats>, evs: seq<Event>, key: string)
    requires IsRun(states, evs)
    ensures key in states[|evs|] ==> states[|evs|][key].email == LastEmail(evs, key)
    decreases |evs|
  {
    if evs != [] {
      var n := |evs| - 1;
      PrefixIsRun(states, evs, n);
      EntriesNamed(states[..n + 1], evs[..n], key);
      StepNames(states[n], evs[n], states[n + 1], key, LastEmail(evs[..n], key));
    }
  }

  lemma PieceNames(now: Stats, key: string, st: Stat)
    requires st in Piece(now, key)
    ensures st.link == key && key in now && st.name == now[key].email && st.value > 0
  {
  }

  // Every statistic of a read belongs to a key that was asked for and is known, has the name of its
  // entry and a positive value.
  lemma {:induction false} ReadNames(m: Stats, keys: seq<string>, reset: bool, st: Stat)
    requires st in ReadKeys(m, keys, reset)
    ensures st.link in keys && st.link in m && st.name == m[st.link].email && st.value > 0
  {
    if keys != [] {
      var front, key := keys[..|keys| - 1], keys[|keys| - 1];
      assert keys == front + [key];
      ReadUnfolds(m, front, key, reset);
      if st in ReadKeys(m, front, reset) {
        ReadNames(m, front, reset, st);
      } else {
        PieceNames(ResetKeys(m, front, reset), key, st);
        ResetKeepsEmail(m, front, reset, key);
      }
    }
  }

  // The statistics a read of a run hands out.
  function Response(ev: Event): seq<Stat>
    requires ev.Read? || ev.ReadAll?
  {
    ev.out
  }

  // In every run and for every read, resetting or not: each statistic is reported under the email of the last
  // sample of its key before the read, and none with a value that is not positive.
  lemma ReportsAreNamed(states: seq<Stats>, evs: seq<Event>, n: nat, st: Stat)
    requires IsRun(states, evs) && n < |evs| && (evs[n].Read? || evs[n].ReadAll?) && st in Response(evs[n])
    ensures st.name == LastEmail(evs[..n], st.link) && st.value > 0
    ensures evs[n].Read? ==> st.link in evs[n].keys
  {
    PrefixIsRun(states, evs, n);
    EntriesNamed(states[..n + 1], evs[..n], st.link);
    assert Step(states[n], evs[n], states[n + 1]);
    match evs[n]
    case Read(keys, reset, _) => ReadNames(states[n], keys, reset, st);
    case ReadAll(reset, out) =>
      var order :| Enumerates(order, states[n].Keys) && out == ReadKeys(states[n], order, reset);
      ReadNames(states[n], order, reset, st);
  }

  // ----- order

  function Joined(pieces: seq<seq<Stat>>): seq<Stat> {
    if pieces == [] then [] else Joined(pieces[..|pieces| - 1]) + pieces[|pieces| - 1]
  }

  // At most one statistic of each kind, the uplink first.
  ghost predicate Presented(piece: seq<Stat>, key: string) {
    && |piece| <= 2
    && (forall i :: 0 <= i < |piece| ==> piece[i].link == key)
    && (|piece| == 2 ==> piece[0].kind == Uplink && piece[1].kind == Downlink)
  }

  // A read reports on its keys in the order in which they are named.
  lemma {:induction false} ReadInOrder(m: Stats, keys: seq<string>, reset: bool) returns (pieces: seq<seq<Stat>>)
    ensures ReadKeys(m, keys, reset) == Joined(pieces) && |pieces| == |keys|
    ensures forall i :: 0 <= i < |keys| ==> Presented(pieces[i], keys[i])
  {
    pieces := [];
    if keys != [] {
      var front, key := keys[..|keys| - 1], keys[|keys| - 1];
      assert keys == front + [key];
      var before := ReadInOrder(m, front, reset);
      ReadUnfolds(m, front, key, reset);
      pieces := before + [Piece(ResetKeys(m, front, reset), key)];
      assert pieces[..|pieces| - 1] == before;
    }
  }

  // ----- amounts

  // The sum of n times t.
  function Times(n: nat, t: Tally): Tally {
    if n == 0 then ZERO else Times(n - 1, t).Plus(t)
  }

  lemma PlainReadExtended(m: Stats, front: seq<string>, last: string, mt: Meter, key: string)
    requires Linked(At(m, key), mt)
    ensures Reported(ReadKeys(m, front + [last], false), key)
         == Reported(ReadKeys(m, front, false), key).Plus(if last == key then mt.Pending() else ZERO)
  {
    PlainReadChangesNothing(m, front);
    ReadUnfolds(m, front, last, false);
    ReportedConcat(ReadKeys(m, front, false), Piece(m, last), key);
    PieceReported(m, last, mt, key);
  }

  // How often x occurs in s.
  function Count(s: seq<string>, x: string): nat {
    if s == [] then 0 else Count(s[..|s| - 1], x) + if s[|s| - 1] == x then 1 else 0
  }

  lemma CountExtended(front: seq<string>, last: string, x: string)
    ensures Count(front + [last], x) == Count(front, x) + if last == x then 1 else 0
  {
  }

  lemma OnceMore(before: Tally, now: Tally, n: nat, n': nat, again: bool, t: Tally)
    requires before == Times(n, t) && now == before.Plus(if again then t else ZERO) && n' == n + if again then 1 else 0
    ensures now == Times(n', t)
  {
  }

  // A read that does not reset reports what is pending once for each time the key is named.
  lemma {:induction false} PlainReadReports(m: Stats, keys: seq<string>, mt: Meter, key: string)
    requires Linked(At(m, key), mt)
    ensures Reported(ReadKeys(m, keys, false), key) == Times(Count(keys, key), mt.Pending())
  {
    if keys != [] {
      var front, last := keys[..|keys| - 1], keys[|keys| - 1];
      assert keys == front + [last];
      PlainReadReports(m, front, mt, key);
      PlainReadExtended(m, front, last, mt, key);
      CountExtended(front, last, key);
      OnceMore(Reported(ReadKeys(m, front, false), key), Reported(ReadKeys(m, keys, false), key),
               Count(front, key), Count(keys, key), last == key, mt.Pending());
    }
  }

  lemma {:induction false} CountedOnce(s: seq<string>, x: string)
    requires NoDuplicates(s)
    ensures Count(s, x) == if x in s then 1 else 0
  {
    if s != [] {
      var front, last := s[..|s| - 1], s[|s| - 1];
      assert s == front + [last];
      CountedOnce(front, x);
      assert last !in front;
    }
  }

  // A walk over all keys reports what is pending for a key once.
  lemma FullReadReports(m: Stats, order: seq<string>, reset: bool, mt: Meter, key: string)
    requires Linked(At(m, key), mt) && Enumerates(order, m.Keys)
    ensures Reported(ReadKeys(m, order, reset), key) == mt.Pending()
  {
    if reset {
      ResettingReadReports(m, order, mt, key);
    } else {
      PlainReadReports(m, order, mt, key);
      CountedOnce(order, key);
    }
  }

  // Once if the read resets or walks over everything, and otherwise as often as the key is named.
  function ReportDue(ev: Event, key: string, pending: Tally): Tally
    requires ev.Read? || ev.ReadAll?
  {
    if ev.ReadAll? then pending
    else if !ev.reset then Times(Count(ev.keys, key), pending)
    else if key in ev.keys then pending
    else ZERO
  }

  // In every run: what a read reports for a key is what the bookkeeping of the events before it has pending.
  lemma ReadsReportPending(states: seq<Stats>, evs: seq<Event>, n: nat, key: string)
    requires IsRun(states, evs) && n < |evs| && (evs[n].Read? || evs[n].ReadAll?)
    ensures Reported(Response(evs[n]), key) == ReportDue(evs[n], key, MeterAfter(evs[..n], key).Pending())
  {
    PrefixIsRun(states, evs, n);
    RunLinked(states[..n + 1], evs[..n], key);
    assert Step(states[n], evs[n], states[n + 1]);
    var mt := MeterAfter(evs[..n], key);
    match evs[n]
    case Read(keys, reset, _) =>
      if reset { ResettingReadReports(states[n], keys, mt, key); } else { PlainReadReports(states[n], keys, mt, key); }
    case ReadAll(reset, out) =>
      var order :| Enumerates(order, states[n].Keys) && out == ReadKeys(states[n], order, reset);
      FullReadReports(states[n], order, reset, mt, key);
  }

  // ----- batches

  // A batch of samples is those samples one after the other.
  lemma {:induction false} BatchIsSamples(m: Stats, samples: seq<Sample>) returns (states: seq<Stats>)
    ensures |states| == |samples| + 1 && states[0] == m && states[|samples|] == SampledAll(m, samples)
    ensures forall i :: 0 <= i < |samples| ==> Step(states[i], SampleArrives(samples[i]), states[i + 1])
  {
    if samples == [] {
      states := [m];
    } else {
      var front, last := samples[..|samples| - 1], samples[|samples| - 1];
      var before := BatchIsSamples(m, front);
      states := before + [SampledAll(m, samples)];
    }
  }

  // Dropping statistics marks exactly the known ones of these keys and saves what is pending for them; a
  // key named twice is as good as one named once.
  lemma {:induction false} DroppedAreMarked(m: Stats, keys: seq<string>, key: string)
    ensures key in RemovedAll(m, keys) <==> key in m
    ensures key in m && key !in keys ==> RemovedAll(m, keys)[key] == m[key]
    ensures key in m && key in keys ==>
              RemovedAll(m, keys)[key] == m[key].(lastDeltaRx := m[key].currentRx - m[key].baseRx,
                                                  lastDeltaTx := m[key].currentTx - m[key].baseTx, isDeleted := true)
  {
    if keys != [] {
      var front, last := keys[..|keys| - 1], keys[|keys| - 1];
      assert keys == front + [last];
      DroppedAreMarked(m, front, key);
    }
  }
}
