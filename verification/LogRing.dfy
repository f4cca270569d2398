// backend/xray/startup_diagnostics.go: the bounded buffer of startup log lines.
module LogRings {

  // A buffer that has its place for the next line at next, and has been filled or not, still has
  // the last lines of history.
  ghost predicate Holds(lines: seq<string>, next: nat, full: bool, history: seq<string>) {
    && next < |lines|
    && (!full ==> lines[..next] == history)
    && (full ==> |history| >= |lines| && lines[next..] + lines[..next] == history[|history| - |lines|..])
  }

  lemma AddHolds(lines: seq<string>, next: nat, full: bool, history: seq<string>, line: string)
    requires Holds(lines, next, full, history)
    ensures next + 1 < |lines| ==> Holds(lines[next := line], next + 1, full, history + [line])
    ensures next + 1 == |lines| ==> Holds(lines[next := line], 0, true, history + [line])
  {
  }

  // Where the k-th readable line, oldest first, is kept.
  lemma ReadableAt(lines: seq<string>, next: nat, full: bool, history: seq<string>, k: nat)
    requires Holds(lines, next, full, history) && k < if full then |lines| else next
    ensures var count := if full then |lines| else next;
            var at := (if full then next else 0) + k;
            && count <= |history| && at < 2 * |lines|
            && history[|history| - count..][k] == lines[if at < |lines| then at else at - |lines|]
  {
  }

  class StartupLogRing {
    var lines: array<string>
    var next: nat
    var full: bool
    ghost var history: seq<string>  // every line added since the last reset

    ghost predicate Valid()
      reads this, lines
    {
      Holds(lines[..], next, full, history)
    }

    // Lines that can still be read back.
    ghost function Count(): nat
      requires Valid()
      reads this, lines
    {
      if |history| < lines.Length then |history| else lines.Length
    }

    constructor (size: int)
      ensures Valid() && fresh(lines) && history == []
      ensures lines.Length == if size <= 0 then 1 else size
    {
      lines := new string[if size <= 0 then 1 else size];
      next, full, history := 0, false, [];
    }

    method Reset()
      requires Valid()
      modifies this, lines
      ensures Valid() && history == [] && lines == old(lines)
    {
      next, full, history := 0, false, [];
      for i := 0 to lines.Length
        invariant next == 0 && !full && history == [] && lines == old(lines)
      {
        lines[i] := "";
      }
    }

    method Add(line: string)
      requires Valid()
      modifies this, lines
      ensures Valid() && history == old(history) + [line] && lines == old(lines)
    {
      if lines.Length == 0 { return; }
      AddHolds(lines[..], next, full, history, line);
      ghost var before := lines[..];
      SmallModulo(next + 1, lines.Length);
      lines[next] := line;
      assert lines[..] == before[next := line];
      next := (next + 1) % lines.Length;
      if next == 0 { full := true; }
      history := history + [line];
      assert Holds(lines[..], next, full, history);
    }

    // The last n lines added since the reset, as far as they are still there; all of those when n
    // is not positive.
    method Tail(n: int) returns (out: seq<string>)
      requires Valid()
      ensures var wanted := if n <= 0 || n > Count() then Count() else n;
              out == history[|history| - wanted..]
    {
      var count := if full then lines.Length else next;
      if count == 0 { return []; }
      var wanted := if n <= 0 || n > count then count else n;
      var oldest := if full then next else 0;
      var start := count - wanted;
      ghost var readable := history[|history| - count..];
      out := [];
      for i := 0 to wanted
        invariant |out| == i && forall k :: 0 <= k < i ==> out[k] == readable[start + k]
      {
        SmallModulo(oldest + start + i, lines.Length);
        var idx := (oldest + start + i) % lines.Length;
        ReadableAt(lines[..], next, full, history, start + i);
        out := out + [lines[idx]];
      }
      assert out == readable[start..];
    }
  }

  lemma SmallModulo(x: nat, m: nat)
    requires 0 < m && x < 2 * m
    ensures x % m == if x < m then x else x - m
  {
  }

  // The startup part of Core. Whether a line reports a failure is decided by isFailure.
  class StartupDiagnostics {
    var ring: StartupLogRing?
    var enabled: bool
    var failure: string
    var logSize: int
    ghost var session: seq<string>  // lines recorded since diagnostics were enabled

    ghost predicate Valid()
      reads this, ring, if ring == null then null else ring.lines
    {
      && (enabled ==> ring != null && ring.Valid() && ring.history == session && ring.lines.Length == logSize)
      && (!enabled ==> ring == null && failure == "")
    }

    ghost function Footprint(): set<object>
      reads this, ring
    {
      if ring == null then {this} else var r: StartupLogRing := ring; {this, r, r.lines}
    }

    constructor (logSize: int)
      ensures Valid() && !enabled && this.logSize == logSize
    {
      ring, enabled, failure, session := null, false, "", [];
      this.logSize := logSize;
    }

    method Enable(tailSize: int)
      requires Valid()
      modifies Footprint()
      ensures Valid() && enabled && session == [] && failure == ""
      ensures logSize == if tailSize > 0 then tailSize else if old(logSize) > 0 then old(logSize) else 200
      ensures fresh(Footprint() - old(Footprint()))
    {
      var size := tailSize;
      if size <= 0 { size := logSize; }
      if size <= 0 { size := 200; }
      logSize := size;
      if ring == null || ring.lines.Length != size {
        ring := new StartupLogRing(size);
      } else {
        ring.Reset();
      }
      session, failure, enabled := [], "", true;
    }

    method Disable()
      requires Valid()
      modifies this
      ensures Valid() && !enabled && ring == null && failure == "" && logSize == old(logSize)
    {
      enabled, failure, ring := false, "", null;
    }

    method Record(line: string, isFailure: string -> bool)
      requires Valid()
      modifies Footprint()
      ensures Valid() && enabled == old(enabled) && logSize == old(logSize) && Footprint() == old(Footprint())
      ensures session == if enabled then old(session) + [line] else old(session)
      ensures failure == if enabled && isFailure(line) then line else old(failure)
    {
      if !enabled { return; }
      ring.Add(line);
      session := session + [line];
      if isFailure(line) { failure := line; }
    }

    // What is left of the session's last lines; nothing when diagnostics are off.
    method StartupLogTail(n: int) returns (out: seq<string>)
      requires Valid()
      ensures !enabled ==> out == []
      ensures enabled ==>
                var count := if |session| < logSize then |session| else logSize;
                var wanted := if n <= 0 || n > count then count else n;
                out == session[|session| - wanted..]
    {
      if !enabled || ring == null { return []; }
      out := ring.Tail(n);
    }
  }
}
