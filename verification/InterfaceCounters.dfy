// pkg/stats/interface_counters.go: interface counters relative to a baseline.
module InterfaceCounters {
  import opened Wrappers

  datatype Call = Call(rx: int, tx: int, reset: bool)
  datatype Base = Base(rx: int, tx: int)

  // The baseline a call computes its delta from.
  function Rebased(base: Option<Base>, c: Call): Base {
    if base.None? || c.rx < base.value.rx || c.tx < base.value.tx then Base(c.rx, c.tx) else base.value
  }

  function BaseAfter(base: Option<Base>, c: Call): Base {
    if c.reset then Base(c.rx, c.tx) else Rebased(base, c)
  }

  class InterfaceCountersTracker {
    var baseRx: int
    var baseTx: int
    var baseSet: bool

    ghost function State(): Option<Base>
      reads this
    {
      if baseSet then Some(Base(baseRx, baseTx)) else None
    }

    constructor ()
      ensures State() == None
    {
      baseRx, baseTx, baseSet := 0, 0, false;
    }

    method Delta(c: Call) returns (deltaRx: int, deltaTx: int)
      modifies this
      ensures State() == Some(BaseAfter(old(State()), c))
      ensures deltaRx == c.rx - Rebased(old(State()), c).rx && deltaTx == c.tx - Rebased(old(State()), c).tx
      ensures deltaRx >= 0 && deltaTx >= 0
    {
      if !baseSet {
        baseRx, baseTx, baseSet := c.rx, c.tx, true;
      }
      if c.rx < baseRx || c.tx < baseTx {
        baseRx, baseTx := c.rx, c.tx;
      }
      deltaRx, deltaTx := c.rx - baseRx, c.tx - baseTx;
      if c.reset {
        baseRx, baseTx := c.rx, c.tx;
      }
    }
  }

  function BaseOf(calls: seq<Call>): Option<Base> {
    if calls == [] then None else Some(BaseAfter(BaseOf(calls[..|calls| - 1]), calls[|calls| - 1]))
  }

  datatype Volume = Volume(rx: int, tx: int) {
    function Plus(v: Volume): Volume { Volume(rx + v.rx, tx + v.tx) }
    predicate NonNegative() { rx >= 0 && tx >= 0 }
  }

  const NOTHING := Volume(0, 0)

  // The change from earlier counters to a call.
  function Since(base: Base, c: Call): Volume {
    Volume(c.rx - base.rx, c.tx - base.tx)
  }

  // The bookkeeping of a list of calls. last: the counters of the last call; handed: the deltas that
  // resetting calls returned; grown: the changes from call to call, leaving out the first call and
  // those that fell below the baseline; lost: what was pending whenever they fell.
  datatype Ledger = Ledger(base: Option<Base>, last: Base, handed: Volume, grown: Volume, lost: Volume) {
    // What the next call would return if the counters stood still.
    function Pending(): Volume {
      if base.None? then NOTHING else Volume(last.rx - base.value.rx, last.tx - base.value.tx)
    }

    predicate Fell(c: Call) {
      base.Some? && (c.rx < base.value.rx || c.tx < base.value.tx)
    }

    // A counter that goes back without reaching the baseline takes back what it had grown.
    function After(c: Call): Ledger {
      Ledger(
        Some(BaseAfter(base, c)),
        Base(c.rx, c.tx),
        if c.reset then handed.Plus(Since(Rebased(base, c), c)) else handed,
        if base.None? || Fell(c) then grown else grown.Plus(Since(last, c)),
        if Fell(c) then lost.Plus(Pending()) else lost)
    }

    // Every unit of growth is handed out, pending or lost.
    predicate Balanced() {
      && handed.rx + Pending().rx + lost.rx == grown.rx && handed.tx + Pending().tx + lost.tx == grown.tx
      && Pending().NonNegative() && handed.NonNegative() && lost.NonNegative()
    }
  }

  function LedgerOf(calls: seq<Call>): Ledger {
    if calls == [] then Ledger(None, Base(0, 0), NOTHING, NOTHING, NOTHING)
    else LedgerOf(calls[..|calls| - 1]).After(calls[|calls| - 1])
  }

  lemma BalanceKept(l: Ledger, c: Call)
    requires l.Balanced()
    ensures l.After(c).Balanced()
  {
  }

  // For every list of calls, falling counters included.
  lemma {:induction false} CountersConserved(calls: seq<Call>)
    ensures LedgerOf(calls).Balanced() && LedgerOf(calls).base == BaseOf(calls)
  {
    if calls != [] {
      CountersConserved(calls[..|calls| - 1]);
      BalanceKept(LedgerOf(calls[..|calls| - 1]), calls[|calls| - 1]);
    }
  }

  // At the n-th call a counter falls below the baseline the calls before it left, after the last of them had
  // moved off that baseline.
  predicate FallsWithPending(calls: seq<Call>, n: nat)
    requires n < |calls|
  {
    n > 0 &&
    var base := BaseOf(calls[..n]);
    base.Some? && (calls[n].rx < base.value.rx || calls[n].tx < base.value.tx)
    && Base(calls[n - 1].rx, calls[n - 1].tx) != base.value
  }

  lemma LossStep(l: Ledger, c: Call)
    requires l.Balanced()
    ensures l.After(c).lost == NOTHING <==> l.lost == NOTHING && !(l.Fell(c) && l.Pending() != NOTHING)
  {
  }

  lemma LastOfLedger(calls: seq<Call>)
    ensures calls != [] ==> LedgerOf(calls).last == Base(calls[|calls| - 1].rx, calls[|calls| - 1].tx)
  {
  }

  // The same from the ledger's side.
  lemma FallInLedger(front: seq<Call>, c: Call)
    ensures FallsWithPending(front + [c], |front|) <==> LedgerOf(front).Fell(c) && LedgerOf(front).Pending() != NOTHING
  {
    var calls := front + [c];
    assert calls[..|front|] == front;
    CountersConserved(front);
    LastOfLedger(front);
    if front != [] { assert calls[|front| - 1] == front[|front| - 1]; }
  }

  lemma FallsEarlier(front: seq<Call>, c: Call, n: nat)
    requires n < |front|
    ensures FallsWithPending(front + [c], n) <==> FallsWithPending(front, n)
  {
    assert (front + [c])[..n] == front[..n];
  }

  // A list of calls loses nothing exactly when at no call the counters fall like that: what was pending
  // then is lost, and nothing else ever is.
  lemma {:induction false} NothingLostIff(calls: seq<Call>)
    ensures LedgerOf(calls).lost == NOTHING <==> forall n: nat :: n < |calls| ==> !FallsWithPending(calls, n)
  {
    if calls != [] {
      var front, c := calls[..|calls| - 1], calls[|calls| - 1];
      assert calls == front + [c];
      NothingLostIff(front);
      CountersConserved(front);
      LossStep(LedgerOf(front), c);
      FallInLedger(front, c);
      forall n: nat | n < |front| ensures FallsWithPending(calls, n) <==> FallsWithPending(front, n) {
        FallsEarlier(front, c, n);
      }
    }
  }

  ghost predicate Rising(calls: seq<Call>) {
    forall i, j :: 0 <= i <= j < |calls| ==> calls[i].rx <= calls[j].rx && calls[i].tx <= calls[j].tx
  }

  // The ledger of counters that only rose since the first call.
  ghost predicate Risen(l: Ledger, first: Call) {
    && l.base.Some? && l.base.value.rx <= l.last.rx && l.base.value.tx <= l.last.tx
    && l.lost == NOTHING && l.grown == Volume(l.last.rx - first.rx, l.last.tx - first.tx)
    && l.handed == Volume(l.base.value.rx - first.rx, l.base.value.tx - first.tx)
  }

  lemma RisenKept(l: Ledger, first: Call, c: Call)
    requires Risen(l, first) && l.last.rx <= c.rx && l.last.tx <= c.tx
    ensures Risen(l.After(c), first)
  {
  }

  // While the counters do not fall, nothing is lost, and what resetting calls returned is the growth
  // from the first call to the baseline.
  lemma {:induction false} RisingCountersConserved(calls: seq<Call>)
    requires calls != [] && Rising(calls)
    ensures Risen(LedgerOf(calls), calls[0])
    ensures LedgerOf(calls).last == Base(calls[|calls| - 1].rx, calls[|calls| - 1].tx)
  {
    var front, c := calls[..|calls| - 1], calls[|calls| - 1];
    if front != [] {
      assert Rising(front);
      RisingCountersConserved(front);
      assert calls[|front| - 1].rx <= c.rx && calls[|front| - 1].tx <= c.tx;
      RisenKept(LedgerOf(front), calls[0], c);
    } else {
      assert LedgerOf(calls) == LedgerOf([]).After(c);
    }
  }
}
