// What ApplyAPI keeps, expands and adds, in terms of inbounds and rules only.
module ApplyApiMeaning {
  import opened Wrappers
  import opened Enumerations
  import opened ApplyApis

  // ----- what survives

  // Not routed to the API, and not the guard.
  function Foreign(): Rule -> bool {
    (r: Rule) => r.outboundTag != Some("API") && r.ruleTag != Some("PG_NODE_MALFORMED_DOMAIN_GUARD")
  }

  lemma FilterUnfolds(rules: seq<Rule>)
    requires rules != []
    ensures FilteredRules(rules)
         == if Foreign()(rules[0]) then [rules[0]] + FilteredRules(rules[1..]) else FilteredRules(rules[1..])
  {
  }

  // The filter keeps exactly the foreign rules, each as often as it is there, in order.
  lemma {:induction false} ForeignRulesSurvive(rules: seq<Rule>)
    ensures Filters(rules, Foreign(), FilteredRules(rules))
  {
    if rules == [] {
      FiltersNothing(Foreign());
    } else {
      var head, tail := rules[0], rules[1..];
      ForeignRulesSurvive(tail);
      FilterUnfolds(rules);
      FiltersCons(head, tail, Foreign(), FilteredRules(tail), rules, FilteredRules(rules));
    }
  }

  function NotApi(): Inbound -> bool {
    (x: Inbound) => x.tag != "API_INBOUND"
  }

  lemma WithoutUnfolds(s: seq<Inbound>)
    requires s != []
    ensures WithoutApi(s) == if NotApi()(s[0]) then [s[0]] + WithoutApi(s[1..]) else WithoutApi(s[1..])
  {
  }

  // So does taking out the API inbounds, with the others.
  lemma {:induction false} OtherInboundsSurvive(s: seq<Inbound>)
    ensures Filters(s, NotApi(), WithoutApi(s))
  {
    if s == [] {
      FiltersNothing(NotApi());
    } else {
      var head, tail := s[0], s[1..];
      OtherInboundsSurvive(tail);
      WithoutUnfolds(s);
      FiltersCons(head, tail, NotApi(), WithoutApi(tail), s, WithoutApi(s));
    }
  }

  // ----- what is expanded

  // The letter c, or its capital.
  predicate Folds(c: char, lower: char) {
    c == lower || ('a' <= lower <= 'z' && c as int == lower as int - 32)
  }

  ghost predicate IsKeyword(v: Value) {
    && v.Text? && |v.s| == |"geoip:private"|
    && forall i :: 0 <= i < |v.s| ==> Folds(v.s[i], "geoip:private"[i])
  }

  lemma KeywordIff(v: Value)
    ensures IsGeoIPPrivate(v) <==> IsKeyword(v)
  {
    if v.Text? && |v.s| == 13 {
      forall i | 0 <= i < 13 ensures Lower(v.s[i]) == "geoip:private"[i] <==> Folds(v.s[i], "geoip:private"[i]) {
        LowerFolds(v.s[i], "geoip:private"[i]);
      }
    }
  }

  lemma LowerFolds(c: char, lower: char)
    requires !('A' <= lower <= 'Z')
    ensures Lower(c) == lower <==> Folds(c, lower)
  {
  }

  lemma ExpandedCons(v: Value, after: seq<Value>)
    ensures Expanded([v] + after) == Expanded([v]) + Expanded(after)
  {
    assert [v][1..] == [] && Expanded([]) == [];
    assert ([v] + after)[1..] == after;
  }

  // Expansion works on each entry where it stands.
  lemma {:induction false} ExpandsInPlace(a: seq<Value>, b: seq<Value>)
    ensures Expanded(a + b) == Expanded(a) + Expanded(b) && Expanded([]) == []
  {
    if a == [] {
      assert a + b == b;
    } else {
      var head, tail := a[0], a[1..];
      ExpandsInPlace(tail, b);
      ExpandedCons(head, tail + b);
      ExpandedCons(head, tail);
      assert a == [head] + tail && a + b == [head] + (tail + b);
    }
  }

  // The keyword gives way to fifteen networks, anything else stays.
  lemma EntryExpanded(v: Value)
    ensures Expanded([v]) == if IsKeyword(v) then CidrValues() else [v]
  {
    KeywordIff(v);
    assert [v][1..] == [] && Expanded([]) == [];
  }

  lemma TheFifteenNetworks()
    ensures CidrValues() == [
        Text("0.0.0.0/8"), Text("10.0.0.0/8"), Text("100.64.0.0/10"), Text("127.0.0.0/8"), Text("169.254.0.0/16"),
        Text("172.16.0.0/12"), Text("192.0.0.0/24"), Text("192.168.0.0/16"), Text("198.18.0.0/15"), Text("224.0.0.0/4"),
        Text("240.0.0.0/4"), Text("::/128"), Text("::1/128"), Text("fc00::/7"), Text("fe80::/10")]
  {
  }

  // A rule and what becomes of it: only lists under "ip" and "source" are touched.
  ghost predicate IsExpansion(r: Rule, after: Rule) {
    && after.outboundTag == r.outboundTag && after.ruleTag == r.ruleTag && after.others == r.others
    && IsExpandedMember(r.ip, after.ip) && IsExpandedMember(r.source, after.source)
  }

  ghost predicate IsExpandedMember(m: Member, after: Member) {
    match m
    case Values(list) => after == Values(Expanded(list))
    case _ => after == m
  }

  // The list is expanded rule by rule, unless one of them is not JSON.
  lemma {:induction false} RulesExpandedIff(rules: seq<Option<Rule>>)
    ensures NormalizedRules(rules).Some? <==> None !in rules
    ensures NormalizedRules(rules).Some? ==>
              && |NormalizedRules(rules).value| == |rules|
              && forall i :: 0 <= i < |rules| ==> rules[i].Some? && IsExpansion(rules[i].value, NormalizedRules(rules).value[i])
  {
    if rules != [] {
      RulesExpandedIff(rules[1..]);
      if NormalizedRules(rules).Some? {
        forall i | 0 <= i < |rules| ensures rules[i].Some? && IsExpansion(rules[i].value, NormalizedRules(rules).value[i]) {
          assert i > 0 ==> rules[i] == rules[1..][i - 1];
        }
      }
    }
  }

  // ----- what is added

  // The rule for the API: to the outbound "API", from the node's own addresses, in order.
  ghost predicate IsApiRule(r: Rule, sources: seq<string>) {
    && r.outboundTag == Some("API") && r.ruleTag.None? && r.ip.Missing? && r.others == "inboundTag=API_INBOUND,type=field"
    && r.source.Values? && |r.source.list| == |sources|
    && forall i :: 0 <= i < |sources| ==> r.source.list[i] == Text(sources[i])
  }

  ghost predicate IsGuard(r: Rule, blackhole: string) {
    && r.outboundTag == Some(blackhole) && r.ruleTag == Some("PG_NODE_MALFORMED_DOMAIN_GUARD")
    && r.ip.Missing? && r.source.Missing? && r.others == "domain=malformed,type=field"
  }

  // For all inbounds and rules: the loop over the inbounds fails first, then a rule that is not JSON. Otherwise
  // the API inbound comes first, then what the loop left; the API rule, a guard if there is a blackhole
  // outbound, then the foreign ones among the expanded rules.
  lemma ApplyOutcome(inbounds: seq<Inbound>, rules: seq<Option<Rule>>, api: Inbound, sources: seq<string>, blackhole: string)
    ensures var r := ApiApplied(inbounds, rules, api, sources, blackhole);
            && (r.Panicked? <==> Panics(inbounds))
            && (r.BadRule? <==> !Panics(inbounds) && None in rules)
            && (r.Applied? ==> AppliedTo(inbounds, rules, api, sources, blackhole, r.inbounds, r.rules))
  {
    RangedFromStart(inbounds);
    RulesExpandedIff(rules);
    if !Panics(inbounds) && None !in rules {
      var normal := NormalizedRules(rules).value;
      ForeignRulesSurvive(normal);
      RulesAdded(sources, blackhole, FilteredRules(normal));
    }
  }

  ghost predicate AppliedTo(inbounds: seq<Inbound>, rules: seq<Option<Rule>>, api: Inbound, sources: seq<string>, blackhole: string,
                            ins: seq<Inbound>, outs: seq<Rule>)
  {
    && Ranged(inbounds, 0, |inbounds|).Some? && ins == [api] + Ranged(inbounds, 0, |inbounds|).value
    && NormalizedRules(rules).Some?
    && var own := if blackhole == "" then 1 else 2;
       && |outs| >= own && IsApiRule(outs[0], sources)
       && (blackhole != "" ==> IsGuard(outs[1], blackhole))
       && Filters(NormalizedRules(rules).value, Foreign(), outs[own..])
  }

  lemma RulesAdded(sources: seq<string>, blackhole: string, more: seq<Rule>)
    ensures var outs, own := Prefix(sources, blackhole) + more, if blackhole == "" then 1 else 2;
            && |outs| >= own && IsApiRule(outs[0], sources) && (blackhole != "" ==> IsGuard(outs[1], blackhole))
            && outs[own..] == more
  {
  }
}
