// Traffic conservation: the tracker against plain bookkeeping of one peer's kernel counters.
module TrafficLedger {
  import opened Wrappers
  import opened Enumerations
  import opened Trackers

  datatype Tally = Tally(rx: int, tx: int) {
    function Plus(t: Tally): Tally { Tally(rx + t.rx, tx + t.tx) }
    function Minus(t: Tally): Tally { Tally(rx - t.rx, tx - t.tx) }
    predicate NonNegative() { rx >= 0 && tx >= 0 }
  }

  const ZERO := Tally(0, 0)

  // The bookkeeping: no baseline and no saved delta, only totals since the beginning. open: the
  // peer is known; last: the counters last seen; lost: traffic thrown away by ClearAllStats.
  datatype Meter = Meter(open: bool, removed: bool, last: Tally, credited: Tally, reported: Tally, lost: Tally) {
    function Pending(): Tally { credited.Minus(reported).Minus(lost) }

    // Counters that grow are credited with the growth, from zero for an unknown peer. Counters
    // that fall in either direction, and a peer that comes back with unreported traffic, are not.
    function Growth(s: Sample): Tally {
      var seen := if open then last else ZERO;
      if open && removed && Pending() != ZERO then ZERO
      else if s.rx < seen.rx || s.tx < seen.tx then ZERO
      else Tally(s.rx - seen.rx, s.tx - seen.tx)
    }

    function AfterSample(s: Sample): Meter {
      Meter(true, false, Tally(s.rx, s.tx), credited.Plus(Growth(s)), reported, lost)
    }

    function AfterRemoval(): Meter {
      this.(removed := open)
    }

    function AfterReset(): Meter {
      if open then this.(reported := reported.Plus(Pending()), open := !removed, removed := false) else this
    }

    function AfterCleanup(): Meter {
      if open && removed && Pending() == ZERO then this.(open := false, removed := false) else this
    }

    function AfterClear(): Meter {
      this.(lost := lost.Plus(Pending()), open := false, removed := false)
    }
  }

  const NEW_METER := Meter(false, false, ZERO, ZERO, ZERO, ZERO)

  // What a peer's tracker entry has to do with its meter.
  ghost predicate Linked(e: Option<Entry>, mt: Meter) {
    && mt.Pending().NonNegative() && mt.reported.NonNegative() && mt.lost.NonNegative()
    && e.Some? == mt.open
    && (mt.removed ==> mt.open)
    && (!mt.open ==> mt.Pending() == ZERO)
    && (mt.open ==>
         && mt.last.NonNegative()
         && Tally(e.value.currentRx, e.value.currentTx) == mt.last
         && Tally(e.value.currentRx - e.value.baseRx, e.value.currentTx - e.value.baseTx) == mt.Pending()
         && e.value.isDeleted == mt.removed
         && Tally(e.value.lastDeltaRx, e.value.lastDeltaTx) == if mt.removed then mt.Pending() else ZERO)
  }

  lemma SampleLinked(e: Option<Entry>, mt: Meter, s: Sample)
    requires Linked(e, mt)
    ensures Linked(Some(Sampled(e, s)), mt.AfterSample(s))
  {
  }

  // ----- what a response reports for one peer and direction

  function ReportedFor(out: seq<Stat>, key: string, kind: Kind): int {
    if out == [] then 0
    else ReportedFor(out[..|out| - 1], key, kind)
         + if out[|out| - 1].link == key && out[|out| - 1].kind == kind then out[|out| - 1].value else 0
  }

  lemma {:induction false} ReportedForConcat(a: seq<Stat>, b: seq<Stat>, key: string, kind: Kind)
    ensures ReportedFor(a + b, key, kind) == ReportedFor(a, key, kind) + ReportedFor(b, key, kind)
  {
    if b == [] {
      assert a + b == a;
    } else {
      assert (a + b)[..|a + b| - 1] == a + b[..|b| - 1];
      ReportedForConcat(a, b[..|b| - 1], key, kind);
    }
  }

  // Only positive values are emitted; nothing is dropped when the amounts are not negative.
  lemma DeltaStatsReportAll(name: string, link: string, rx: int, tx: int, key: string, kind: Kind)
    requires link == key ==> rx >= 0 && tx >= 0
    ensures ReportedFor(DeltaStats(name, link, rx, tx), key, kind)
         == if link != key then 0 else if kind == Downlink then rx else tx
  {
    var up, down := Stat(name, Uplink, link, tx), Stat(name, Downlink, link, rx);
    assert [up][..0] == [] && [down][..0] == [] && [up, down][..1] == [up];
    assert [up] + [down] == [up, down];
    assert ReportedFor([up], key, kind) == if link == key && kind == Uplink then tx else 0;
    assert ReportedFor([down], key, kind) == if link == key && kind == Downlink then rx else 0;
    ReportedForConcat([up], [down], key, kind);
  }

  function Reported(out: seq<Stat>, key: string): Tally {
    Tally(ReportedFor(out, key, Downlink), ReportedFor(out, key, Uplink))
  }

  lemma EntryReportsPending(e: Entry, key: string, mt: Meter)
    requires Linked(Some(e), mt)
    ensures Reported(EntryStats(e, key), key) == mt.Pending()
  {
    DeltaStatsReportAll(e.email, key, e.currentRx - e.baseRx, e.currentTx - e.baseTx, key, Downlink);
    DeltaStatsReportAll(e.email, key, e.currentRx - e.baseRx, e.currentTx - e.baseTx, key, Uplink);
  }

  lemma OtherEntriesReportNothing(e: Entry, key: string, other: string)
    requires key != other
    ensures Reported(EntryStats(e, key), other) == ZERO
  {
    DeltaStatsReportAll(e.email, key, e.currentRx - e.baseRx, e.currentTx - e.baseTx, other, Downlink);
    DeltaStatsReportAll(e.email, key, e.currentRx - e.baseRx, e.currentTx - e.baseTx, other, Uplink);
  }

  // ----- reads

  function Piece(now: Stats, key: string): seq<Stat> {
    if key in now then EntryStats(now[key], key) else []
  }

  lemma ReadUnfolds(m: Stats, front: seq<string>, last: string, reset: bool)
    ensures ReadKeys(m, front + [last], reset) == ReadKeys(m, front, reset) + Piece(ResetKeys(m, front, reset), last)
    ensures ResetKeys(m, front + [last], reset) == ResetKey(ResetKeys(m, front, reset), last, reset)
  {
  }

  lemma ReportedConcat(a: seq<Stat>, b: seq<Stat>, key: string)
    ensures Reported(a + b, key) == Reported(a, key).Plus(Reported(b, key))
  {
    ReportedForConcat(a, b, key, Downlink);
    ReportedForConcat(a, b, key, Uplink);
  }

  lemma PieceReported(now: Stats, last: string, mt: Meter, key: string)
    requires Linked(At(now, key), mt)
    ensures Reported(Piece(now, last), key) == if last == key then mt.Pending() else ZERO
  {
    if last in now {
      if last == key { EntryReportsPending(now[key], key, mt); } else { OtherEntriesReportNothing(now[last], last, key); }
    }
  }

  lemma ResetLinked(now: Stats, key: string, mt: Meter)
    requires Linked(At(now, key), mt)
    ensures Linked(At(ResetKey(now, key, true), key), mt.AfterReset())
  {
  }

  // An unknown peer has nothing to report.
  predicate ClosedIsSettled(mt: Meter) {
    mt.open || mt.Pending() == ZERO
  }

  // A peer's meter after a resetting read of keys.
  function MeterRead(mt: Meter, keys: seq<string>, key: string): Meter {
    if key in keys then mt.AfterReset() else mt
  }

  lemma MeterReadExtended(mt: Meter, front: seq<string>, last: string, key: string)
    requires ClosedIsSettled(mt)
    ensures MeterRead(mt, front + [last], key)
         == if key == last then MeterRead(mt, front, key).AfterReset() else MeterRead(mt, front, key)
  {
  }

  lemma {:induction false} ResettingReadLinked(m: Stats, keys: seq<string>, mt: Meter, key: string)
    requires Linked(At(m, key), mt)
    ensures Linked(At(ResetKeys(m, keys, true), key), MeterRead(mt, keys, key))
  {
    if keys != [] {
      var front, last := keys[..|keys| - 1], keys[|keys| - 1];
      assert keys == front + [last];
      ResettingReadLinked(m, front, mt, key);
      ReadUnfolds(m, front, last, true);
      MeterReadExtended(mt, front, last, key);
      if key == last {
        ResetLinked(ResetKeys(m, front, true), key, MeterRead(mt, front, key));
      } else {
        assert At(ResetKeys(m, keys, true), key) == At(ResetKeys(m, front, true), key);
      }
    }
  }

  // One more key is read.
  lemma ReadExtended(m: Stats, front: seq<string>, last: string, mt: Meter, key: string)
    requires Linked(At(m, key), mt)
    ensures Reported(ReadKeys(m, front + [last], true), key)
         == Reported(ReadKeys(m, front, true), key).Plus(if last == key then MeterRead(mt, front, key).Pending() else ZERO)
  {
    var now := ResetKeys(m, front, true);
    ReadUnfolds(m, front, last, true);
    ReportedConcat(ReadKeys(m, front, true), Piece(now, last), key);
    ResettingReadLinked(m, front, mt, key);
    PieceReported(now, last, MeterRead(mt, front, key), key);
  }

  // What a resetting read of keys owes to a key.
  function Due(mt: Meter, keys: seq<string>, key: string): Tally {
    if key in keys then mt.Pending() else ZERO
  }

  // named: the key was read before; again: it is read now.
  lemma NothingDueTwice(mt: Meter, named: bool, again: bool)
    requires ClosedIsSettled(mt)
    ensures (if named || again then mt.Pending() else ZERO)
         == (if named then mt.Pending() else ZERO).Plus(
              if again then (if named then mt.AfterReset() else mt).Pending() else ZERO)
  {
  }

  lemma InExtended(front: seq<string>, last: string, key: string)
    ensures key in front + [last] <==> key in front || last == key
  {
  }

  lemma DueExtended(mt: Meter, front: seq<string>, last: string, key: string)
    requires ClosedIsSettled(mt)
    ensures Due(mt, front + [last], key)
         == Due(mt, front, key).Plus(if last == key then MeterRead(mt, front, key).Pending() else ZERO)
  {
    InExtended(front, last, key);
    NothingDueTwice(mt, key in front, last == key);
  }

  // A resetting read hands out what was pending for each key it names, once.
  lemma {:induction false} ResettingReadReports(m: Stats, keys: seq<string>, mt: Meter, key: string)
    requires Linked(At(m, key), mt)
    ensures Reported(ReadKeys(m, keys, true), key) == Due(mt, keys, key)
  {
    if keys != [] {
      var front, last := keys[..|keys| - 1], keys[|keys| - 1];
      assert keys == front + [last];
      ResettingReadReports(m, front, mt, key);
      DueExtended(mt, front, last, key);
      ReadExtended(m, front, last, mt, key);
    }
  }

  lemma {:induction false} PlainReadChangesNothing(m: Stats, keys: seq<string>)
    ensures ResetKeys(m, keys, false) == m
  {
    if keys != [] {
      PlainReadChangesNothing(m, keys[..|keys| - 1]);
    }
  }

  // ----- runs

  datatype Event =
    | SampleArrives(s: Sample)
    | Read(keys: seq<string>, reset: bool, out: seq<Stat>)
    | ReadAll(reset: bool, out: seq<Stat>)
    | Remove(key: string)
    | Cleanup
    | Clear

  ghost predicate Step(m: Stats, ev: Event, m': Stats) {
    match ev
    case SampleArrives(s) => m' == SampledMap(m, s)
    case Read(keys, reset, out) => m' == ResetKeys(m, keys, reset) && out == ReadKeys(m, keys, reset)
    case ReadAll(reset, out) =>
      exists order :: Enumerates(order, m.Keys) && m' == ResetKeys(m, order, reset) && out == ReadKeys(m, order, reset)
    case Remove(key) => m' == RemovedMap(m, key)
    case Cleanup => m' == Cleaned(m)
    case Clear => m' == map[]
  }

  function MeterStep(mt: Meter, ev: Event, key: string): Meter {
    match ev
    case SampleArrives(s) => if s.publicKey == key then mt.AfterSample(s) else mt
    case Read(keys, reset, _) => if reset && key in keys then mt.AfterReset() else mt
    case ReadAll(reset, _) => if reset then mt.AfterReset() else mt
    case Remove(k) => if k == key then mt.AfterRemoval() else mt
    case Cleanup => mt.AfterCleanup()
    case Clear => mt.AfterClear()
  }

  // What a resetting read handed out for key; other events hand out nothing that counts.
  function Handed(ev: Event, key: string): Tally {
    match ev
    case Read(_, reset, out) => if reset then Reported(out, key) else ZERO
    case ReadAll(reset, out) => if reset then Reported(out, key) else ZERO
    case _ => ZERO
  }

  function MeterAfter(evs: seq<Event>, key: string): Meter {
    if evs == [] then NEW_METER else MeterStep(MeterAfter(evs[..|evs| - 1], key), evs[|evs| - 1], key)
  }

  function TotalHanded(evs: seq<Event>, key: string): Tally {
    if evs == [] then ZERO else TotalHanded(evs[..|evs| - 1], key).Plus(Handed(evs[|evs| - 1], key))
  }

  ghost predicate IsRun(states: seq<Stats>, evs: seq<Event>) {
    && |states| == |evs| + 1
    && states[0] == map[]
    && forall i :: 0 <= i < |evs| ==> Step(states[i], evs[i], states[i + 1])
  }

  // Every event can happen in every state; what a read reports follows from it.
  lemma EventHappens(m: Stats, ev: Event) returns (out: seq<Stat>, m': Stats)
    ensures Step(m, if ev.Read? || ev.ReadAll? then ev.(out := out) else ev, m')
  {
    var order := SortedExists(m.Keys);
    SortedIsEnumeration(order, m.Keys);
    out := [];
    match ev
    case SampleArrives(s) => m' := SampledMap(m, s);
    case Read(keys, reset, _) => out, m' := ReadKeys(m, keys, reset), ResetKeys(m, keys, reset);
    case ReadAll(reset, _) => out, m' := ReadKeys(m, order, reset), ResetKeys(m, order, reset);
    case Remove(key) => m' := RemovedMap(m, key);
    case Cleanup => m' := Cleaned(m);
    case Clear => m' := map[];
  }

  lemma StepLinked(m: Stats, ev: Event, m': Stats, mt: Meter, key: string)
    requires Linked(At(m, key), mt) && Step(m, ev, m')
    ensures Linked(At(m', key), MeterStep(mt, ev, key))
    ensures MeterStep(mt, ev, key).reported == mt.reported.Plus(Handed(ev, key))
  {
    match ev
    case SampleArrives(s) => if s.publicKey == key { SampleLinked(At(m, key), mt, s); }
    case Read(keys, reset, out) => ReadLinked(m, keys, reset, mt, key);
    case ReadAll(reset, out) =>
      var order :| Enumerates(order, m.Keys) && m' == ResetKeys(m, order, reset) && out == ReadKeys(m, order, reset);
      ReadLinked(m, order, reset, mt, key);
    case _ =>
  }

  lemma ReadLinked(m: Stats, keys: seq<string>, reset: bool, mt: Meter, key: string)
    requires Linked(At(m, key), mt)
    ensures Linked(At(ResetKeys(m, keys, reset), key), if reset then MeterRead(mt, keys, key) else mt)
    ensures reset ==> Reported(ReadKeys(m, keys, true), key) == Due(mt, keys, key)
    ensures MeterRead(mt, keys, key).reported == mt.reported.Plus(Due(mt, keys, key))
  {
    if reset {
      ResettingReadLinked(m, keys, mt, key);
      ResettingReadReports(m, keys, mt, key);
    } else {
      PlainReadChangesNothing(m, keys);
    }
  }

  lemma {:induction false} RunLinked(states: seq<Stats>, evs: seq<Event>, key: string)
    requires IsRun(states, evs)
    ensures Linked(At(states[|evs|], key), MeterAfter(evs, key))
    ensures MeterAfter(evs, key).reported == TotalHanded(evs, key)
    decreases |evs|
  {
    if evs != [] {
      var n := |evs| - 1;
      var front := evs[..n];
      assert IsRun(states[..n + 1], front);
      RunLinked(states[..n + 1], front, key);
      StepLinked(states[n], evs[n], states[n + 1], MeterAfter(front, key), key);
    }
  }

  const MAX_INT64 := 0x7fff_ffff_ffff_ffff

  // Conservation, for every run and every key: what resetting reads handed out, plus what is
  // pending, plus what ClearAllStats threw away, is exactly the credited growth. Pending is never
  // negative, so neither the clamp nor the filter drops anything. As long as the growth credited
  // and the counters fit in 64 bits, so does every baseline.
  lemma TrafficConserved(states: seq<Stats>, evs: seq<Event>, key: string)
    requires IsRun(states, evs)
    ensures var e := At(states[|evs|], key);
            var mt := MeterAfter(evs, key);
            var pending := if e.Some? then Tally(e.value.currentRx - e.value.baseRx, e.value.currentTx - e.value.baseTx) else ZERO;
            && TotalHanded(evs, key).Plus(pending).Plus(mt.lost) == mt.credited
            && pending.NonNegative()
            && TotalHanded(evs, key).NonNegative() && mt.lost.NonNegative()
            && (e.Some? && mt.credited.rx <= MAX_INT64 && e.value.currentRx <= MAX_INT64
                && mt.credited.tx <= MAX_INT64 && e.value.currentTx <= MAX_INT64 ==>
                  -MAX_INT64 <= e.value.baseRx <= MAX_INT64 && -MAX_INT64 <= e.value.baseTx <= MAX_INT64)
  {
    RunLinked(states, evs, key);
  }

  // Cleanup only forgets entries whose traffic was handed out in full.
  lemma CleanupLosesNothing(states: seq<Stats>, evs: seq<Event>, key: string)
    requires IsRun(states, evs)
    requires key in states[|evs|] && key !in Cleaned(states[|evs|])
    ensures MeterAfter(evs, key).credited == TotalHanded(evs, key).Plus(MeterAfter(evs, key).lost)
  {
    RunLinked(states, evs, key);
    var e := states[|evs|][key];
    assert At(states[|evs|], key) == Some(e);
    assert Settled(e);
    assert MeterAfter(evs, key).Pending() == ZERO;
  }

  // ----- the ordinary case

  // Counters of key that only rise, never removed and never cleared.
  ghost predicate Undisturbed(evs: seq<Event>, key: string) {
    && (forall i :: 0 <= i < |evs| ==> evs[i] != Remove(key) && evs[i] != Clear)
    && (forall i, j :: 0 <= i < j < |evs| && IsSampleOf(evs[i], key) && IsSampleOf(evs[j], key) ==>
          evs[i].s.rx <= evs[j].s.rx && evs[i].s.tx <= evs[j].s.tx)
  }

  predicate IsSampleOf(ev: Event, key: string) {
    ev.SampleArrives? && ev.s.publicKey == key
  }

  function LastSeen(evs: seq<Event>, key: string): Tally {
    if evs == [] then ZERO
    else
      var ev := evs[|evs| - 1];
      if IsSampleOf(ev, key) then Tally(ev.s.rx, ev.s.tx) else LastSeen(evs[..|evs| - 1], key)
  }

  // The meter of a peer whose counters only rose so far.
  ghost predicate Steady(mt: Meter, seen: Tally) {
    && !mt.removed && mt.lost == ZERO && mt.credited == seen
    && (if mt.open then mt.last == seen else seen == ZERO)
  }

  lemma SteadyStep(mt: Meter, seen: Tally, ev: Event, key: string)
    requires Steady(mt, seen) && ev != Remove(key) && ev != Clear
    requires IsSampleOf(ev, key) ==> seen.rx <= ev.s.rx && seen.tx <= ev.s.tx
    ensures Steady(MeterStep(mt, ev, key), if IsSampleOf(ev, key) then Tally(ev.s.rx, ev.s.tx) else seen)
  {
    match ev
    case SampleArrives(s) => if s.publicKey == key { SteadySample(mt, seen, s); }
    case Read(_, _, _) => SteadyRead(mt, seen);
    case ReadAll(_, _) => SteadyRead(mt, seen);
    case _ =>
  }

  lemma SteadySample(mt: Meter, seen: Tally, s: Sample)
    requires Steady(mt, seen) && seen.rx <= s.rx && seen.tx <= s.tx
    ensures Steady(mt.AfterSample(s), Tally(s.rx, s.tx))
  {
    assert mt.Growth(s) == Tally(s.rx - seen.rx, s.tx - seen.tx);
  }

  lemma SteadyRead(mt: Meter, seen: Tally)
    requires Steady(mt, seen)
    ensures Steady(mt.AfterReset(), seen)
  {
  }

  lemma {:induction false} LastSeenRises(evs: seq<Event>, ev: Event, key: string)
    requires Undisturbed(evs + [ev], key) && IsSampleOf(ev, key)
    ensures LastSeen(evs, key).rx <= ev.s.rx && LastSeen(evs, key).tx <= ev.s.tx
  {
    if evs != [] {
      var front, last, all := evs[..|evs| - 1], evs[|evs| - 1], evs + [ev];
      assert all[|evs| - 1] == last && all[|evs|] == ev;
      if !IsSampleOf(last, key) {
        var shorter := front + [ev];
        assert forall i :: 0 <= i < |front| ==> shorter[i] == all[i];
        assert shorter[|front|] == all[|evs|];
        assert Undisturbed(shorter, key);
        LastSeenRises(front, ev, key);
      }
    }
  }

  lemma {:induction false} UndisturbedMeter(evs: seq<Event>, key: string)
    requires Undisturbed(evs, key)
    ensures Steady(MeterAfter(evs, key), LastSeen(evs, key))
  {
    if evs != [] {
      var front, last := evs[..|evs| - 1], evs[|evs| - 1];
      assert evs == front + [last];
      assert Undisturbed(front, key);
      UndisturbedMeter(front, key);
      if IsSampleOf(last, key) { LastSeenRises(front, last, key); }
      assert last != Remove(key) && last != Clear;
      SteadyStep(MeterAfter(front, key), LastSeen(front, key), last, key);
    }
  }

  // A peer that was never removed and whose counters never fell is billed exactly its counters.
  lemma SteadyPeerBilledExactly(states: seq<Stats>, evs: seq<Event>, key: string)
    requires IsRun(states, evs) && Undisturbed(evs, key)
    ensures var e := At(states[|evs|], key);
            var pending := if e.Some? then Tally(e.value.currentRx - e.value.baseRx, e.value.currentTx - e.value.baseTx) else ZERO;
            TotalHanded(evs, key).Plus(pending) == LastSeen(evs, key)
  {
    RunLinked(states, evs, key);
    UndisturbedMeter(evs, key);
  }

  // ----- never more than the kernel counted

  // What the kernel counted between two samples, when counters that fell in either direction started again
  // from zero.
  function Counted(seen: Tally, s: Sample): Tally {
    if s.rx < seen.rx || s.tx < seen.tx then Tally(s.rx, s.tx) else Tally(s.rx - seen.rx, s.tx - seen.tx)
  }

  function TotalCounted(evs: seq<Event>, key: string): Tally {
    if evs == [] then ZERO
    else
      var front, ev := evs[..|evs| - 1], evs[|evs| - 1];
      if IsSampleOf(ev, key) then TotalCounted(front, key).Plus(Counted(LastSeen(front, key), ev.s)) else TotalCounted(front, key)
  }

  predicate AtMost(a: Tally, b: Tally) {
    a.rx <= b.rx && a.tx <= b.tx
  }

  // The n-th event is a sample of a key the tracker does not know any more, with counters that go on from
  // where they were when it did.
  predicate ResumesForgotten(states: seq<Stats>, evs: seq<Event>, key: string, n: nat)
    requires n < |evs| && n < |states|
  {
    && IsSampleOf(evs[n], key) && key !in states[n]
    && LastSeen(evs[..n], key) != ZERO && AtMost(LastSeen(evs[..n], key), Tally(evs[n].s.rx, evs[n].s.tx))
  }

  lemma {:induction false} MeterSeesLast(evs: seq<Event>, key: string)
    ensures MeterAfter(evs, key).last == LastSeen(evs, key) && LastSeen(evs, key).NonNegative()
  {
    if evs != [] { MeterSeesLast(evs[..|evs| - 1], key); }
  }

  lemma CreditBound(mt: Meter, s: Sample)
    requires mt.last.NonNegative()
    ensures AtMost(mt.Growth(s), Counted(mt.last, s)) <==> mt.open || mt.last == ZERO || !AtMost(mt.last, Tally(s.rx, s.tx))
  {
  }

  lemma PrefixIsRun(states: seq<Stats>, evs: seq<Event>, n: nat)
    requires IsRun(states, evs) && n <= |evs|
    ensures IsRun(states[..n + 1], evs[..n])
  {
  }

  // A sample is credited with more than the kernel counted since the last one exactly when it resumes a key
  // that was forgotten.
  lemma OvercreditedIff(states: seq<Stats>, evs: seq<Event>, key: string, n: nat)
    requires IsRun(states, evs) && n < |evs| && IsSampleOf(evs[n], key)
    ensures AtMost(MeterAfter(evs[..n], key).Growth(evs[n].s), Counted(LastSeen(evs[..n], key), evs[n].s))
       <==> !ResumesForgotten(states, evs, key, n)
  {
    PrefixIsRun(states, evs, n);
    RunLinked(states[..n + 1], evs[..n], key);
    MeterSeesLast(evs[..n], key);
    CreditBound(MeterAfter(evs[..n], key), evs[n].s);
  }

  // As long as no sample does, nobody is billed more than the kernel counted, whatever is removed, read,
  // cleaned up and cleared on the way.
  lemma {:induction false} BilledAtMostCounted(states: seq<Stats>, evs: seq<Event>, key: string)
    requires IsRun(states, evs)
    requires forall n: nat :: n < |evs| ==> !ResumesForgotten(states, evs, key, n)
    ensures AtMost(MeterAfter(evs, key).credited, TotalCounted(evs, key))
    ensures AtMost(TotalHanded(evs, key), TotalCounted(evs, key))
    decreases |evs|
  {
    RunLinked(states, evs, key);
    if evs != [] {
      var n := |evs| - 1;
      var front, before := evs[..n], states[..n + 1];
      PrefixIsRun(states, evs, n);
      forall k: nat | k < n ensures !ResumesForgotten(before, front, key, k) {
        assert front[..k] == evs[..k];
        assert !ResumesForgotten(states, evs, key, k);
      }
      BilledAtMostCounted(before, front, key);
      CreditStep(states, evs, key);
    }
  }

  lemma CreditStep(states: seq<Stats>, evs: seq<Event>, key: string)
    requires IsRun(states, evs) && evs != [] && !ResumesForgotten(states, evs, key, |evs| - 1)
    requires AtMost(MeterAfter(evs[..|evs| - 1], key).credited, TotalCounted(evs[..|evs| - 1], key))
    ensures AtMost(MeterAfter(evs, key).credited, TotalCounted(evs, key))
  {
    if IsSampleOf(evs[|evs| - 1], key) { OvercreditedIff(states, evs, key, |evs| - 1); }
  }

  // The shortest run that does: a sample, the removal of the peer, a resetting read, which forgets the key,
  // and a late sample with the same counters. They are billed twice.
  lemma BilledTwice(s: Sample) returns (states: seq<Stats>, evs: seq<Event>)
    requires s.rx > 0 || s.tx > 0
    ensures IsRun(states, evs)
    ensures TotalCounted(evs, s.publicKey) == Tally(s.rx, s.tx)
    ensures TotalHanded(evs, s.publicKey) == Tally(2 * s.rx, 2 * s.tx)
  {
    var key := s.publicKey;
    states, evs := [map[]], [];
    states, evs := Then(states, evs, SampleArrives(s), SampledMap(map[], s), key);
    var m1 := SampledMap(map[], s);
    states, evs := Then(states, evs, Remove(key), RemovedMap(m1, key), key);
    var m2 := RemovedMap(m1, key);
    states, evs := Then(states, evs, Read([key], true, ReadKeys(m2, [key], true)), ResetKeys(m2, [key], true), key);
    var m3 := ResetKeys(m2, [key], true);
    states, evs := Then(states, evs, SampleArrives(s), SampledMap(m3, s), key);
    var m4 := SampledMap(m3, s);
    states, evs := Then(states, evs, Read([key], true, ReadKeys(m4, [key], true)), ResetKeys(m4, [key], true), key);
    RunLinked(states, evs, key);
  }

  // A run and one event more.
  lemma Then(states: seq<Stats>, evs: seq<Event>, ev: Event, m: Stats, key: string)
    returns (states': seq<Stats>, evs': seq<Event>)
    requires IsRun(states, evs) && Step(states[|evs|], ev, m)
    ensures IsRun(states', evs') && states'[|evs'|] == m
    ensures MeterAfter(evs', key) == MeterStep(MeterAfter(evs, key), ev, key)
    ensures LastSeen(evs', key) == if IsSampleOf(ev, key) then Tally(ev.s.rx, ev.s.tx) else LastSeen(evs, key)
    ensures TotalCounted(evs', key) == if IsSampleOf(ev, key) then TotalCounted(evs, key).Plus(Counted(LastSeen(evs, key), ev.s))
                                       else TotalCounted(evs, key)
  {
    states', evs' := states + [m], evs + [ev];
    assert evs'[..|evs|] == evs;
  }
}
