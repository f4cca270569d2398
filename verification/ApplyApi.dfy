// backend/xray/config.go: ApplyAPI, for the inbound list and the routing rules.
module ApplyApis {
  import opened Wrappers

  // ----- the inbound list

  datatype Inbound = Inbound(tag: string, body: string)

  const API_TAG := "API_INBOUND"

  predicate IsApi(x: Inbound) { x.tag == API_TAG }

  // What the loop leaves: it deletes from the slice it ranges over, so the element right after a
  // deleted one is kept unseen.
  function Kept(s: seq<Inbound>): seq<Inbound> {
    if s == [] then []
    else if !IsApi(s[0]) then [s[0]] + Kept(s[1..])
    else if |s| == 1 then []
    else [s[1]] + Kept(s[2..])
  }

  function WithoutApi(s: seq<Inbound>): seq<Inbound> {
    if s == [] then [] else (if IsApi(s[0]) then [] else [s[0]]) + WithoutApi(s[1..])
  }

  ghost predicate NoAdjacentApis(s: seq<Inbound>) {
    forall i :: 0 <= i < |s| - 1 ==> !(IsApi(s[i]) && IsApi(s[i + 1]))
  }

  // The last inbound is an API one and not the only one: the loop slices out of range.
  ghost predicate Panics(s: seq<Inbound>) {
    s != [] && IsApi(s[|s| - 1]) && exists k :: 0 <= k < |s| - 1 && IsApi(s[k])
  }

  // ----- the range loop, step by step

  // The backing array after deleting element i of the slice arr[..len]: what follows moves down by
  // one, and the old last element stays behind it.
  function Shifted(arr: seq<Inbound>, i: nat, len: nat): (r: seq<Inbound>)
    requires i < len <= |arr|
    ensures |r| == |arr|
  {
    arr[..i] + arr[i + 1..len] + arr[len - 1..]
  }

  // The loop from position i on; None is the slice panic. It reads to the end of the original
  // slice, over elements left behind by earlier deletions too.
  function Ranged(arr: seq<Inbound>, i: nat, len: nat): Option<seq<Inbound>>
    requires i <= |arr| && len <= |arr|
    decreases |arr| - i
  {
    if i == |arr| then Some(arr[..len])
    else if !IsApi(arr[i]) then Ranged(arr, i + 1, len)
    else if i >= len then None
    else Ranged(Shifted(arr, i, len), i + 1, len - 1)
  }

  method RemoveApiInbounds(a: array<Inbound>) returns (len: nat, ok: bool)
    modifies a
    ensures len <= a.Length
    ensures Ranged(old(a[..]), 0, a.Length) == if ok then Some(a[..len]) else None
  {
    len := a.Length;
    var i := 0;
    while i < a.Length
      invariant 0 <= len <= a.Length && 0 <= i <= a.Length
      invariant Ranged(a[..], i, len) == Ranged(old(a[..]), 0, a.Length)
    {
      if IsApi(a[i]) {
        if i >= len { return len, false; }
        ghost var before := a[..];
        forall j | i <= j < len - 1 {
          a[j] := a[j + 1];
        }
        assert a[..] == Shifted(before, i, len);
        len := len - 1;
      }
      i := i + 1;
    }
    assert a[..][..len] == a[..len];
    ok := true;
  }

  lemma {:induction false} StaleReads(arr: seq<Inbound>, i: nat, len: nat, x: Inbound)
    requires len <= i <= |arr| && forall k :: i <= k < |arr| ==> arr[k] == x
    ensures Ranged(arr, i, len) == if i < |arr| && IsApi(x) then None else Some(arr[..len])
    decreases |arr| - i
  {
    if i < |arr| && !IsApi(x) {
      StaleReads(arr, i + 1, len, x);
    }
  }

  predicate AllEqual(s: seq<Inbound>, x: Inbound) {
    forall k :: 0 <= k < |s| ==> s[k] == x
  }

  // The loop still to come runs out of the slice.
  ghost predicate Doomed(rest: seq<Inbound>, stale: seq<Inbound>, last: Inbound) {
    IsApi(last) && (stale != [] || exists k :: 0 <= k < |rest| - 1 && IsApi(rest[k]))
  }

  lemma PlainStep(out: seq<Inbound>, rest: seq<Inbound>, stale: seq<Inbound>)
    requires rest != [] && !IsApi(rest[0])
    ensures Ranged(out + rest + stale, |out|, |out + rest|)
         == Ranged((out + [rest[0]]) + rest[1..] + stale, |out + [rest[0]]|, |(out + [rest[0]]) + rest[1..]|)
  {
    assert out + rest + stale == (out + [rest[0]]) + rest[1..] + stale;
    assert (out + rest + stale)[|out|] == rest[0];
  }

  lemma PlainStepDoomed(rest: seq<Inbound>, stale: seq<Inbound>, last: Inbound)
    requires rest != [] && !IsApi(rest[0]) && rest[|rest| - 1] == last
    ensures Doomed(rest, stale, last) <==> Doomed(rest[1..], stale, last)
  {
  }

  lemma DeleteStep(out: seq<Inbound>, rest: seq<Inbound>, stale: seq<Inbound>, last: Inbound)
    requires |rest| >= 2 && IsApi(rest[0]) && rest[|rest| - 1] == last
    ensures Ranged(out + rest + stale, |out|, |out + rest|)
         == Ranged((out + [rest[1]]) + rest[2..] + ([last] + stale), |out + [rest[1]]|, |(out + [rest[1]]) + rest[2..]|)
  {
    ShiftedShape(out, rest, stale, last);
    assert (out + rest + stale)[|out|] == rest[0];
  }

  lemma DeleteLast(out: seq<Inbound>, stale: seq<Inbound>, last: Inbound)
    requires IsApi(last) && AllEqual(stale, last)
    ensures Ranged(out + [last] + stale, |out|, |out + [last]|) == if stale != [] then None else Some(out)
  {
    var arr := out + [last] + stale;
    assert Shifted(arr, |out|, |out| + 1) == arr;
    assert arr[..|out|] == out;
    assert arr[|out|] == last;
    StaleReads(arr, |out| + 1, |out|, last);
  }

  // The verdict on a loop that has kept out, has rest to read and leaves stale behind.
  ghost function Verdict(out: seq<Inbound>, rest: seq<Inbound>, stale: seq<Inbound>, last: Inbound): Option<seq<Inbound>> {
    if Doomed(rest, stale, last) then None else Some(out + Kept(rest))
  }

  lemma VerdictOnPlain(out: seq<Inbound>, rest: seq<Inbound>, stale: seq<Inbound>, last: Inbound)
    requires rest != [] && !IsApi(rest[0]) && rest[|rest| - 1] == last
    ensures Verdict(out + [rest[0]], rest[1..], stale, last) == Verdict(out, rest, stale, last)
  {
    PlainStepDoomed(rest, stale, last);
    assert (out + [rest[0]]) + Kept(rest[1..]) == out + ([rest[0]] + Kept(rest[1..]));
  }

  lemma VerdictOnDeleted(out: seq<Inbound>, rest: seq<Inbound>, stale: seq<Inbound>, last: Inbound)
    requires |rest| >= 2 && IsApi(rest[0]) && rest[|rest| - 1] == last
    ensures Verdict(out + [rest[1]], rest[2..], [last] + stale, last) == Verdict(out, rest, stale, last)
  {
    assert (out + [rest[1]]) + Kept(rest[2..]) == out + ([rest[1]] + Kept(rest[2..]));
  }

  // out: kept so far; rest: not yet read; stale: left behind. Everything left behind is the last
  // element of the original list.
  lemma {:induction false} RangedShape(out: seq<Inbound>, rest: seq<Inbound>, stale: seq<Inbound>, last: Inbound)
    requires AllEqual(stale, last) && (rest != [] ==> rest[|rest| - 1] == last)
    ensures Ranged(out + rest + stale, |out|, |out + rest|) == Verdict(out, rest, stale, last)
    decreases |rest|
  {
    if rest == [] {
      NothingToRead(out, stale, last);
      assert out + [] + stale == out + stale && out + [] == out;
    } else if !IsApi(rest[0]) {
      RangedShape(out + [rest[0]], rest[1..], stale, last);
      VerdictOnPlain(out, rest, stale, last);
      PlainStep(out, rest, stale);
    } else if |rest| == 1 {
      assert rest == [last] && out + Kept(rest) == out;
      DeleteLast(out, stale, last);
    } else {
      RangedShape(out + [rest[1]], rest[2..], [last] + stale, last);
      VerdictOnDeleted(out, rest, stale, last);
      DeleteStep(out, rest, stale, last);
    }
  }

  lemma NothingToRead(out: seq<Inbound>, stale: seq<Inbound>, last: Inbound)
    requires AllEqual(stale, last)
    ensures Ranged(out + stale, |out|, |out|) == Verdict(out, [], stale, last)
  {
    assert (out + stale)[..|out|] == out + Kept([]);
    StaleReads(out + stale, |out|, |out|, last);
  }

  lemma ShiftedShape(out: seq<Inbound>, rest: seq<Inbound>, stale: seq<Inbound>, last: Inbound)
    requires |rest| >= 2 && rest[|rest| - 1] == last
    ensures Shifted(out + rest + stale, |out|, |out + rest|) == (out + [rest[1]]) + rest[2..] + ([last] + stale)
  {
  }

  lemma {:induction false} KeptIffNoAdjacent(s: seq<Inbound>)
    ensures Kept(s) == WithoutApi(s) <==> NoAdjacentApis(s)
  {
    if s == [] {
    } else if !IsApi(s[0]) {
      KeptIffNoAdjacent(s[1..]);
      AdjacencyOfTail(s, 1);
      assert Kept(s)[1..] == Kept(s[1..]) && WithoutApi(s)[1..] == WithoutApi(s[1..]);
    } else if |s| >= 2 && IsApi(s[1]) {
      NeighbourIsKept(s);
    } else if |s| >= 2 {
      KeptIffNoAdjacent(s[2..]);
      AdjacencyOfTail(s, 2);
      assert s[1..][1..] == s[2..];
      assert WithoutApi(s) == WithoutApi(s[1..]) == [s[1]] + WithoutApi(s[2..]);
      assert Kept(s)[1..] == Kept(s[2..]) && WithoutApi(s)[1..] == WithoutApi(s[2..]);
    }
  }

  lemma NeighbourIsKept(s: seq<Inbound>)
    requires |s| >= 2 && IsApi(s[0]) && IsApi(s[1])
    ensures Kept(s) != WithoutApi(s) && !NoAdjacentApis(s)
  {
    WithoutApiHasNone(s);
    assert Kept(s)[0] == s[1];
    FirstOf(WithoutApi(s));
  }

  lemma FirstOf(s: seq<Inbound>)
    ensures s != [] ==> s[0] in s
  {
  }

  lemma AdjacencyOfTail(s: seq<Inbound>, n: nat)
    requires 1 <= n <= |s| && n <= 2 && !IsApi(s[n - 1])
    ensures NoAdjacentApis(s) <==> NoAdjacentApis(s[n..])
  {
  }

  lemma {:induction false} WithoutApiHasNone(s: seq<Inbound>)
    ensures forall x :: x in WithoutApi(s) ==> !IsApi(x)
  {
    if s != [] { WithoutApiHasNone(s[1..]); }
  }

  // The loop removes every API inbound and keeps the others in order exactly when no two of them
  // stand next to each other and the last inbound is not one of several.
  lemma RemovalCorrectIff(s: seq<Inbound>)
    ensures Ranged(s, 0, |s|) == Some(WithoutApi(s)) <==> NoAdjacentApis(s) && !Panics(s)
  {
    RangedFromStart(s);
    KeptIffNoAdjacent(s);
  }

  lemma RangedFromStart(s: seq<Inbound>)
    ensures Ranged(s, 0, |s|) == if Panics(s) then None else Some(Kept(s))
  {
    if s != [] {
      var last := s[|s| - 1];
      var none: seq<Inbound> := [];
      RangedShape(none, s, none, last);
      assert none + s == s;
      assert s + none == s;
      assert none + Kept(s) == Kept(s);
      assert Doomed(s, none, last) <==> Panics(s);
    }
  }

  // At most one API inbound is such a case.
  lemma OneApiIsRemoved(s: seq<Inbound>)
    requires forall i, j :: 0 <= i < j < |s| ==> !(IsApi(s[i]) && IsApi(s[j]))
    ensures Ranged(s, 0, |s|) == Some(WithoutApi(s))
  {
    RemovalCorrectIff(s);
  }

  // Two neighbours: the second one stays, and the list ends up with two API inbounds.
  lemma NeighboursLeaveOne(x: Inbound, y: Inbound, z: Inbound)
    requires IsApi(x) && IsApi(y) && !IsApi(z)
    ensures Ranged([x, y, z], 0, 3) == Some([y, z])
  {
    var s := [x, y, z];
    RangedFromStart(s);
    assert s[2..] == [z] && [z][1..] == [];
    assert Kept([z]) == [z] + Kept([]) == [z];
    assert Kept(s) == [s[1]] + Kept(s[2..]) == [y, z];
    assert !Panics(s) && |s| == 3;
  }

  // The last inbound is one of two.
  lemma LastOfTwoPanics(x: Inbound, y: Inbound, z: Inbound)
    requires IsApi(x) && !IsApi(y) && IsApi(z)
    ensures Ranged([x, y, z], 0, 3) == None
  {
    var s := [x, y, z];
    RangedFromStart(s);
    assert IsApi(s[2]) && IsApi(s[0]);
  }

  // ----- the rules

  datatype Value = Text(s: string) | NotText(json: string)

  // An "ip" or "source" member: missing, a list, or something else.
  datatype Member = Missing | Values(list: seq<Value>) | Other(json: string)

  // A rule as far as ApplyAPI looks into it. Tags are None when missing or not strings.
  datatype Rule = Rule(outboundTag: Option<string>, ruleTag: Option<string>, ip: Member, source: Member, others: string)

  const PRIVATE_CIDRS: seq<string> := [
    "0.0.0.0/8", "10.0.0.0/8", "100.64.0.0/10", "127.0.0.0/8", "169.254.0.0/16", "172.16.0.0/12",
    "192.0.0.0/24", "192.168.0.0/16", "198.18.0.0/15", "224.0.0.0/4", "240.0.0.0/4",
    "::/128", "::1/128", "fc00::/7", "fe80::/10"]

  const GUARD_TAG := "PG_NODE_MALFORMED_DOMAIN_GUARD"
  const API_OUTBOUND := "API"

  function Lower(c: char): char {
    if 'A' <= c <= 'Z' then c - 'A' + 'a' else c
  }

  // strings.EqualFold against a text of ASCII letters without a non-ASCII fold
  predicate IsGeoIPPrivate(v: Value) {
    v.Text? && |v.s| == 13 && forall i :: 0 <= i < 13 ==> Lower(v.s[i]) == "geoip:private"[i]
  }

  function CidrValues(): seq<Value> {
    seq(|PRIVATE_CIDRS|, i requires 0 <= i < |PRIVATE_CIDRS| => Text(PRIVATE_CIDRS[i]))
  }

  function Expanded(list: seq<Value>): seq<Value> {
    if list == [] then []
    else (if IsGeoIPPrivate(list[0]) then CidrValues() else [list[0]]) + Expanded(list[1..])
  }

  function ExpandedMember(m: Member): Member {
    if m.Values? then Values(Expanded(m.list)) else m
  }

  function ExpandedRule(r: Rule): Rule {
    r.(ip := ExpandedMember(r.ip), source := ExpandedMember(r.source))
  }

  // A rule that is not JSON is None; one such rule spoils the list.
  function NormalizedRules(rules: seq<Option<Rule>>): Option<seq<Rule>> {
    if rules == [] then Some([])
    else if rules[0].None? || NormalizedRules(rules[1..]).None? then None
    else Some([ExpandedRule(rules[0].value)] + NormalizedRules(rules[1..]).value)
  }

  predicate Owned(r: Rule) {
    r.outboundTag == Some(API_OUTBOUND) || r.ruleTag == Some(GUARD_TAG)
  }

  function FilteredRules(rules: seq<Rule>): seq<Rule> {
    if rules == [] then [] else (if Owned(rules[0]) then [] else [rules[0]]) + FilteredRules(rules[1..])
  }

  function ApiRule(sources: seq<string>): Rule {
    Rule(Some(API_OUTBOUND), None, Missing, Values(seq(|sources|, i requires 0 <= i < |sources| => Text(sources[i]))),
         "inboundTag=API_INBOUND,type=field")
  }

  function GuardRule(blackhole: string): Rule {
    Rule(Some(blackhole), Some(GUARD_TAG), Missing, Missing, "domain=malformed,type=field")
  }

  function Guards(blackhole: string): seq<Rule> {
    if blackhole != "" then [GuardRule(blackhole)] else []
  }

  function Prefix(sources: seq<string>, blackhole: string): seq<Rule> {
    [ApiRule(sources)] + Guards(blackhole)
  }

  function Raw(rules: seq<Rule>): seq<Option<Rule>> {
    seq(|rules|, i requires 0 <= i < |rules| => Some(rules[i]))
  }

  // What ApplyAPI makes of inbounds and rules. sources: the node's own addresses; blackhole: the
  // tag of a blackhole outbound, or "".
  datatype Outcome = Panicked | BadRule | Applied(inbounds: seq<Inbound>, rules: seq<Rule>)

  function ApiApplied(inbounds: seq<Inbound>, rules: seq<Option<Rule>>, api: Inbound, sources: seq<string>,
          blackhole: string): Outcome {
    match Ranged(inbounds, 0, |inbounds|)
    case None => Panicked
    case Some(kept) =>
      match NormalizedRules(rules)
      case None => BadRule
      case Some(normal) => Applied([api] + kept, Prefix(sources, blackhole) + FilteredRules(normal))
  }

  // ----- the loops

  method ReplaceGeoIPPrivate(values: Member) returns (r: Member, changed: bool)
    ensures r == ExpandedMember(values)
    ensures !changed ==> r == values
  {
    if !values.Values? { return values, false; }
    var list, updated := values.list, [];
    changed := false;
    assert list[0..] == list;
    for i := 0 to |list|
      invariant updated + Expanded(list[i..]) == Expanded(list)
      invariant !changed ==> updated == list[..i]
    {
      ExpandedFrom(updated, list, i);
      if IsGeoIPPrivate(list[i]) {
        updated, changed := updated + CidrValues(), true;
      } else {
        updated := updated + [list[i]];
      }
    }
    assert list[..|list|] == list;
    r := if changed then Values(updated) else values;
  }

  lemma ExpandedFrom(front: seq<Value>, list: seq<Value>, i: nat)
    requires i < |list|
    ensures front + Expanded(list[i..])
         == (front + if IsGeoIPPrivate(list[i]) then CidrValues() else [list[i]]) + Expanded(list[i + 1..])
  {
  }

  method NormalizeGeoIPPrivateRules(rules: seq<Option<Rule>>) returns (r: Option<seq<Rule>>)
    ensures r == NormalizedRules(rules)
  {
    var normalized: seq<Rule> := [];
    NothingPrepended(normalized, NormalizedRules(rules));
    assert rules[0..] == rules;
    for i := 0 to |rules|
      invariant NormalizedRules(rules) == Prepended(normalized, NormalizedRules(rules[i..]))
    {
      NormalizedFrom(normalized, rules, i);
      if rules[i].None? { return None; }
      var rule := rules[i].value;
      var ip, ipChanged := ReplaceGeoIPPrivate(rule.ip);
      var source, sourceChanged := ReplaceGeoIPPrivate(rule.source);
      if ipChanged || sourceChanged {
        rule := rule.(ip := ip, source := source);
      }
      normalized := normalized + [rule];
    }
    assert normalized + [] == normalized;
    r := Some(normalized);
  }

  lemma NothingPrepended(none: seq<Rule>, back: Option<seq<Rule>>)
    requires none == []
    ensures Prepended(none, back) == back
  {
    if back.Some? { assert none + back.value == back.value; }
  }

  function Prepended(front: seq<Rule>, back: Option<seq<Rule>>): Option<seq<Rule>> {
    if back.None? then None else Some(front + back.value)
  }

  lemma NormalizedFrom(front: seq<Rule>, rules: seq<Option<Rule>>, i: nat)
    requires i < |rules|
    ensures Prepended(front, NormalizedRules(rules[i..]))
         == if rules[i].None? then None else Prepended(front + [ExpandedRule(rules[i].value)], NormalizedRules(rules[i + 1..]))
  {
    var t := rules[i..];
    assert t[0] == rules[i] && t[1..] == rules[i + 1..];
    if t[0].Some? && NormalizedRules(t[1..]).Some? {
      var r, back := ExpandedRule(rules[i].value), NormalizedRules(t[1..]).value;
      assert front + ([r] + back) == (front + [r]) + back;
    }
  }

  method FilterRules(rules: seq<Rule>) returns (filtered: seq<Rule>)
    ensures filtered == FilteredRules(rules)
  {
    filtered := [];
    for i := 0 to |rules|
      invariant filtered + FilteredRules(rules[i..]) == FilteredRules(rules)
    {
      assert rules[i..][1..] == rules[i + 1..];
      if rules[i].outboundTag == Some(API_OUTBOUND) { continue; }
      if rules[i].ruleTag == Some(GUARD_TAG) { continue; }
      filtered := filtered + [rules[i]];
    }
  }

  class Config {
    var inbounds: array<Inbound>
    var rules: seq<Option<Rule>>

    constructor (inbounds: array<Inbound>, rules: seq<Option<Rule>>)
      ensures this.inbounds == inbounds && this.rules == rules
    {
      this.inbounds, this.rules := inbounds, rules;
    }

    // The API inbounds are gone before the rules are looked at, so a rule that is not JSON leaves
    // the configuration half changed.
    method ApplyAPI(api: Inbound, sources: seq<string>, blackhole: string) returns (r: Outcome)
      modifies this, inbounds
      ensures r == ApiApplied(old(inbounds[..]), old(rules), api, sources, blackhole)
      ensures r.Applied? ==> inbounds[..] == r.inbounds && rules == Raw(r.rules)
      ensures r == BadRule ==> rules == old(rules) && Some(inbounds[..]) == Ranged(old(inbounds[..]), 0, old(inbounds.Length))
    {
      var len, ok := RemoveApiInbounds(inbounds);
      if !ok { return Panicked; }
      inbounds := ArrayOf(inbounds[..len]);
      var normalized := NormalizeGeoIPPrivateRules(rules);
      if normalized.None? { return BadRule; }
      var filtered := FilterRules(normalized.value);
      inbounds := ArrayOf([api] + inbounds[..]);
      var prepended := [ApiRule(sources)];
      if blackhole != "" {
        prepended := prepended + [GuardRule(blackhole)];
      }
      rules := Raw(prepended + filtered);
      r := Applied(inbounds[..], prepended + filtered);
    }
  }

  method ArrayOf(s: seq<Inbound>) returns (a: array<Inbound>)
    ensures fresh(a) && a[..] == s
  {
    a := new Inbound[|s|](i requires 0 <= i < |s| => s[i]);
  }

  // ----- normal form

  // The node's addresses are IP texts.
  ghost predicate NoKeyword(sources: seq<string>) {
    forall i :: 0 <= i < |sources| ==> !IsGeoIPPrivate(Text(sources[i]))
  }

  ghost predicate Plain(list: seq<Value>) {
    forall i :: 0 <= i < |list| ==> !IsGeoIPPrivate(list[i])
  }

  lemma CidrsArePlain()
    ensures Plain(CidrValues())
  {
    forall i | 0 <= i < |PRIVATE_CIDRS| ensures !IsGeoIPPrivate(Text(PRIVATE_CIDRS[i])) {
      var c := PRIVATE_CIDRS[i];
      assert |c| == 13 ==> Lower(c[0]) != 'g';
    }
  }

  lemma {:induction false} PlainStays(list: seq<Value>)
    requires Plain(list)
    ensures Expanded(list) == list
  {
    if list != [] {
      assert list == [list[0]] + list[1..];
      PlainStays(list[1..]);
    }
  }

  lemma {:induction false} ExpandedIsPlain(list: seq<Value>)
    ensures Plain(Expanded(list))
  {
    CidrsArePlain();
    if list != [] { ExpandedIsPlain(list[1..]); }
  }

  lemma ExpandedTwice(r: Rule)
    ensures ExpandedRule(ExpandedRule(r)) == ExpandedRule(r)
  {
    if r.ip.Values? { ExpandedIsPlain(r.ip.list); PlainStays(Expanded(r.ip.list)); }
    if r.source.Values? { ExpandedIsPlain(r.source.list); PlainStays(Expanded(r.source.list)); }
  }

  // A normal rule: nothing left to expand, not one of ApplyAPI's own.
  ghost predicate Surviving(rules: seq<Rule>) {
    forall i :: 0 <= i < |rules| ==> ExpandedRule(rules[i]) == rules[i] && !Owned(rules[i])
  }

  lemma {:induction false} FilteredSurvive(rules: seq<Option<Rule>>)
    requires NormalizedRules(rules).Some?
    ensures Surviving(FilteredRules(NormalizedRules(rules).value))
  {
    if rules != [] {
      var normal := NormalizedRules(rules).value;
      ExpandedTwice(rules[0].value);
      assert normal[1..] == NormalizedRules(rules[1..]).value;
      FilteredSurvive(rules[1..]);
    }
  }

  lemma {:induction false} SurvivingStay(rules: seq<Rule>)
    requires Surviving(rules)
    ensures NormalizedRules(Raw(rules)) == Some(rules) && FilteredRules(rules) == rules
  {
    if rules != [] {
      assert rules == [rules[0]] + rules[1..];
      assert Raw(rules)[1..] == Raw(rules[1..]);
      SurvivingStay(rules[1..]);
    }
  }

  lemma NormalCons(r: Rule, rules: seq<Rule>)
    requires ExpandedRule(r) == r && NormalizedRules(Raw(rules)) == Some(rules)
    ensures NormalizedRules(Raw([r] + rules)) == Some([r] + rules)
    ensures FilteredRules([r] + rules) == if Owned(r) then FilteredRules(rules) else [r] + FilteredRules(rules)
  {
    assert ([r] + rules)[1..] == rules;
    assert Raw([r] + rules)[1..] == Raw(rules);
  }

  lemma ApiRuleIsNormal(sources: seq<string>)
    requires NoKeyword(sources)
    ensures ExpandedRule(ApiRule(sources)) == ApiRule(sources) && Owned(ApiRule(sources))
  {
    PlainStays(ApiRule(sources).source.list);
  }

  // A rule of ApplyAPI's own in front: expansion leaves it, the filter takes it away.
  lemma OwnRuleStaysAndGoes(r: Rule, more: seq<Rule>, rules: seq<Rule>)
    requires ExpandedRule(r) == r && Owned(r)
    requires NormalizedRules(Raw(more)) == Some(more) && FilteredRules(more) == rules
    ensures NormalizedRules(Raw([r] + more)) == Some([r] + more) && FilteredRules([r] + more) == rules
  {
    NormalCons(r, more);
  }

  lemma GuardsStayAndGo(blackhole: string, rules: seq<Rule>)
    requires Surviving(rules)
    ensures NormalizedRules(Raw(Guards(blackhole) + rules)) == Some(Guards(blackhole) + rules)
    ensures FilteredRules(Guards(blackhole) + rules) == rules
  {
    SurvivingStay(rules);
    if blackhole != "" {
      OwnRuleStaysAndGoes(GuardRule(blackhole), rules, rules);
    } else {
      assert Guards(blackhole) + rules == rules;
    }
  }

  lemma PrefixSplits(sources: seq<string>, blackhole: string, rules: seq<Rule>)
    ensures Prefix(sources, blackhole) + rules == [ApiRule(sources)] + (Guards(blackhole) + rules)
  {
  }

  lemma PrefixStaysAndGoes(sources: seq<string>, blackhole: string, rules: seq<Rule>)
    requires NoKeyword(sources) && Surviving(rules)
    ensures NormalizedRules(Raw(Prefix(sources, blackhole) + rules)) == Some(Prefix(sources, blackhole) + rules)
    ensures FilteredRules(Prefix(sources, blackhole) + rules) == rules
  {
    GuardsStayAndGo(blackhole, rules);
    ApiRuleIsNormal(sources);
    OwnRuleStaysAndGoes(ApiRule(sources), Guards(blackhole) + rules, rules);
    PrefixSplits(sources, blackhole, rules);
  }

  // Normal form: the API inbound comes first, the other inbounds follow in order and none of them
  // is an API one; the API rule, at most one guard, then the surviving rules.
  lemma NormalForm(inbounds: seq<Inbound>, rules: seq<Option<Rule>>, api: Inbound, sources: seq<string>, blackhole: string)
    requires NoAdjacentApis(inbounds) && !Panics(inbounds) && NormalizedRules(rules).Some?
    ensures var r := ApiApplied(inbounds, rules, api, sources, blackhole);
            && r.Applied?
            && r.inbounds == [api] + WithoutApi(inbounds)
            && (forall x :: x in r.inbounds[1..] ==> !IsApi(x))
            && r.rules[0] == ApiRule(sources)
            && Surviving(r.rules[|Prefix(sources, blackhole)|..])
            && r.rules[|Prefix(sources, blackhole)|..] == FilteredRules(NormalizedRules(rules).value)
  {
    RemovalCorrectIff(inbounds);
    WithoutApiHasNone(inbounds);
    FilteredSurvive(rules);
    var p, f := Prefix(sources, blackhole), FilteredRules(NormalizedRules(rules).value);
    assert (p + f)[|p|..] == f;
    assert ([api] + WithoutApi(inbounds))[1..] == WithoutApi(inbounds);
  }

  lemma {:induction false} NoneToRemove(s: seq<Inbound>)
    requires forall x :: x in s ==> !IsApi(x)
    ensures WithoutApi(s) == s
  {
    if s != [] {
      assert s == [s[0]] + s[1..];
      NoneToRemove(s[1..]);
    }
  }

  // Applying it twice is applying it once.
  lemma ApplyTwice(inbounds: seq<Inbound>, rules: seq<Option<Rule>>, api: Inbound, sources: seq<string>, blackhole: string)
    requires IsApi(api) && NoKeyword(sources)
    requires NoAdjacentApis(inbounds) && !Panics(inbounds) && NormalizedRules(rules).Some?
    ensures var once := ApiApplied(inbounds, rules, api, sources, blackhole);
            once.Applied? && ApiApplied(once.inbounds, Raw(once.rules), api, sources, blackhole) == once
  {
    RemovalCorrectIff(inbounds);
    HeadRemovedAgain(api, inbounds);
    FilteredSurvive(rules);
    PrefixStaysAndGoes(sources, blackhole, FilteredRules(NormalizedRules(rules).value));
  }

  lemma HeadRemovedAgain(api: Inbound, inbounds: seq<Inbound>)
    requires IsApi(api)
    ensures Ranged([api] + WithoutApi(inbounds), 0, |[api] + WithoutApi(inbounds)|) == Some(WithoutApi(inbounds))
  {
    var others := WithoutApi(inbounds);
    var ins := [api] + others;
    WithoutApiHasNone(inbounds);
    assert forall i :: 1 <= i < |ins| ==> ins[i] in others;
    OneApiIsRemoved(ins);
    NoneToRemove(others);
    assert ins[1..] == others;
    assert WithoutApi(ins) == [] + WithoutApi(ins[1..]) == others;
  }
}
