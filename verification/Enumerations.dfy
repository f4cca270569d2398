// Walking a Go map or set: some order without repetition, and the sorted order of strings.
module Enumerations {

  ghost predicate NoDuplicates<T>(s: seq<T>) {
    forall i, j :: 0 <= i < j < |s| ==> s[i] != s[j]
  }

  function SetOf<T(==)>(s: seq<T>): set<T> {
    set x | x in s
  }

  // s lists the elements of all, each once, in some order.
  ghost predicate Enumerates<T>(s: seq<T>, all: set<T>) {
    NoDuplicates(s) && (forall x :: x in s ==> x in all) && (forall x :: x in all ==> x in s)
  }

  lemma FirstIsElement<T>(s: seq<T>)
    ensures s != [] ==> s[0] in s
  {
  }

  lemma EnumerationExtended<T>(s: seq<T>, all: set<T>, x: T)
    requires Enumerates(s, all) && x !in all
    ensures Enumerates(s + [x], all + {x})
  {
  }

  // The order sort.Strings uses.
  predicate Less(a: string, b: string) {
    if b == "" then false
    else if a == "" then true
    else a[0] < b[0] || (a[0] == b[0] && Less(a[1..], b[1..]))
  }

  lemma {:induction false} LessTotal(a: string, b: string)
    ensures Less(a, b) || a == b || Less(b, a)
    ensures !(Less(a, b) && Less(b, a))
    ensures a == b ==> !Less(a, b)
  {
    if a != "" && b != "" && a[0] == b[0] {
      LessTotal(a[1..], b[1..]);
      assert a == [a[0]] + a[1..] && b == [b[0]] + b[1..];
    }
  }

  lemma {:induction false} LessTransitive(a: string, b: string, c: string)
    requires Less(a, b) && Less(b, c)
    ensures Less(a, c)
  {
    if a != "" && a[0] == b[0] && b[0] == c[0] {
      LessTransitive(a[1..], b[1..], c[1..]);
    }
  }

  ghost predicate Sorted(s: seq<string>) {
    forall i, j :: 0 <= i < j < |s| ==> Less(s[i], s[j])
  }

  // s is all in increasing order.
  ghost predicate SortedEnumeration(s: seq<string>, all: set<string>) {
    Sorted(s) && forall x :: x in s <==> x in all
  }

  lemma SortedIsEnumeration(s: seq<string>, all: set<string>)
    requires SortedEnumeration(s, all)
    ensures Enumerates(s, all)
  {
    forall i, j | 0 <= i < j < |s| ensures s[i] != s[j] {
      LessTotal(s[i], s[j]);
    }
  }

  lemma LeastComesFirst(s: seq<string>, t: seq<string>, all: set<string>)
    requires SortedEnumeration(s, all) && SortedEnumeration(t, all) && s != [] && t != []
    ensures s[0] == t[0]
  {
    assert s[0] in t && t[0] in s;
    var i :| 0 <= i < |t| && t[i] == s[0];
    var j :| 0 <= j < |s| && s[j] == t[0];
    LessTotal(s[0], t[0]);
  }

  lemma TailSorted(s: seq<string>, all: set<string>)
    requires SortedEnumeration(s, all) && s != []
    ensures SortedEnumeration(s[1..], all - {s[0]})
  {
    forall k | 0 < k < |s| ensures s[k] != s[0] { LessTotal(s[0], s[k]); }
    assert s == [s[0]] + s[1..];
  }

  // There is only one sorted order, so it does not matter in which order a map was walked.
  lemma {:induction false} SortedUnique(s: seq<string>, t: seq<string>, all: set<string>)
    requires SortedEnumeration(s, all) && SortedEnumeration(t, all)
    ensures s == t
    decreases |s|
  {
    FirstIsElement(s);
    FirstIsElement(t);
    if s != [] && t != [] {
      LeastComesFirst(s, t, all);
      TailSorted(s, all);
      TailSorted(t, all);
      SortedUnique(s[1..], t[1..], all - {s[0]});
      assert s == [s[0]] + s[1..] && t == [t[0]] + t[1..];
    }
  }

  lemma {:induction false} LeastExists(keys: set<string>) returns (least: string)
    requires keys != {}
    ensures least in keys && forall k :: k in keys ==> k == least || Less(least, k)
    decreases keys
  {
    least :| least in keys;
    if keys != {least} {
      var next := LeastExists(keys - {least});
      LessTotal(next, least);
      if Less(next, least) {
        least := next;
      } else {
        forall k | k in keys && k != least && k != next ensures Less(least, k) { LessTransitive(least, next, k); }
      }
    }
  }

  // Every set of strings has a sorted order.
  lemma {:induction false} SortedExists(keys: set<string>) returns (s: seq<string>)
    ensures SortedEnumeration(s, keys)
    decreases keys
  {
    s := [];
    if keys != {} {
      var least := LeastExists(keys);
      var rest := SortedExists(keys - {least});
      s := [least] + rest;
    }
  }

  method Least(keys: set<string>) returns (least: string)
    requires keys != {}
    ensures least in keys
    ensures forall k :: k in keys ==> k == least || Less(least, k)
  {
    least :| least in keys;
    var rest := keys - {least};
    while rest != {}
      invariant rest <= keys && least in keys
      invariant forall k :: k in keys - rest ==> k == least || Less(least, k)
      decreases rest
    {
      var k :| k in rest;
      LessTotal(k, least);
      if Less(k, least) {
        forall x | x in keys - rest && x != least ensures Less(k, x) { LessTransitive(k, least, x); }
        least := k;
      }
      rest := rest - {k};
    }
  }

  // Collecting the keys of a map and sorting them with sort.Strings.
  method SortKeys(keys: set<string>) returns (s: seq<string>)
    ensures SortedEnumeration(s, keys)
  {
    s := [];
    var rest := keys;
    while rest != {}
      invariant rest <= keys
      invariant SortedEnumeration(s, keys - rest)
      invariant forall x, y :: x in s && y in rest ==> Less(x, y)
      decreases rest
    {
      var least := Least(rest);
      s := s + [least];
      forall x, y | x in s && y in rest - {least} ensures Less(x, y) {
        if x == least { LessTotal(least, y); }
      }
      rest := rest - {least};
      assert forall x :: x in s <==> x in keys - rest;
    }
    assert keys - rest == keys;
  }

  // The order of sort.Strings, without recursion: up to the first difference the texts agree.
  lemma {:induction false} LessIff(a: string, b: string)
    ensures Less(a, b) <==> exists k: nat :: FirstDifferAt(a, b, k)
  {
    if a != "" && b != "" && a[0] == b[0] {
      LessIff(a[1..], b[1..]);
      if k: nat :| FirstDifferAt(a[1..], b[1..], k) {
        assert FirstDifferAt(a, b, k + 1);
      }
      if k: nat :| FirstDifferAt(a, b, k) {
        assert k > 0 && FirstDifferAt(a[1..], b[1..], k - 1);
      }
    } else if Less(a, b) {
      assert FirstDifferAt(a, b, 0);
    }
  }

  predicate FirstDifferAt(a: string, b: string, k: nat) {
    k <= |a| && k < |b| && (forall i :: 0 <= i < k ==> a[i] == b[i]) && (k == |a| || a[k] < b[k])
  }

  // ----- filtering a list

  // out has the elements of all at the positions at, in their order.
  ghost predicate PicksAt<T>(all: seq<T>, out: seq<T>, at: seq<nat>) {
    && |at| == |out|
    && (forall k :: 0 <= k < |at| ==> at[k] < |all| && out[k] == all[at[k]])
    && (forall j, k :: 0 <= j < k < |at| ==> at[j] < at[k])
  }

  // at are the positions of the elements with a property.
  ghost predicate Positions<T(!new)>(all: seq<T>, keep: T -> bool, at: seq<nat>) {
    forall i: nat :: i < |all| ==> (i in at <==> keep(all[i]))
  }

  // out has exactly the elements of all with a property, as often as all has them and in that order.
  ghost predicate Filters<T(!new)>(all: seq<T>, keep: T -> bool, out: seq<T>) {
    exists at :: PicksAt(all, out, at) && Positions(all, keep, at)
  }

  lemma FiltersNothing<T(!new)>(keep: T -> bool)
    ensures Filters([], keep, [])
  {
    assert PicksAt<T>([], [], []) && Positions([], keep, []);
  }

  function Shifted(at: seq<nat>): (later: seq<nat>) {
    seq(|at|, k requires 0 <= k < |at| => at[k] + 1)
  }

  lemma ShiftedHolds(at: seq<nat>, i: nat)
    ensures i in Shifted(at) <==> i > 0 && i - 1 in at
  {
    if i > 0 && i - 1 in at {
      var k :| 0 <= k < |at| && at[k] == i - 1;
      assert Shifted(at)[k] == i;
    }
  }

  lemma PicksShifted<T>(head: T, all: seq<T>, out: seq<T>, at: seq<nat>)
    requires PicksAt(all, out, at)
    ensures PicksAt([head] + all, out, Shifted(at)) && PicksAt([head] + all, [head] + out, [0] + Shifted(at))
  {
  }

  lemma PositionsShifted<T(!new)>(head: T, all: seq<T>, keep: T -> bool, at: seq<nat>)
    requires Positions(all, keep, at)
    ensures if keep(head) then Positions([head] + all, keep, [0] + Shifted(at)) else Positions([head] + all, keep, Shifted(at))
  {
    forall i: nat | i < |[head] + all| ensures i in Shifted(at) <==> i > 0 && keep(([head] + all)[i]) {
      ShiftedHolds(at, i);
    }
  }

  // One element more in front of all; out' is what then passes.
  lemma FiltersCons<T(!new)>(head: T, all: seq<T>, keep: T -> bool, out: seq<T>, all': seq<T>, out': seq<T>)
    requires Filters(all, keep, out)
    requires all' == [head] + all && out' == if keep(head) then [head] + out else out
    ensures Filters(all', keep, out')
  {
    var at :| PicksAt(all, out, at) && Positions(all, keep, at);
    PicksShifted(head, all, out, at);
    PositionsShifted(head, all, keep, at);
  }

  lemma PicksLast<T>(all: seq<T>, out: seq<T>, at: seq<nat>, last: T, at': seq<nat>)
    requires PicksAt(all, out, at) && at' == at + [|all|]
    ensures PicksAt(all + [last], out, at) && PicksAt(all + [last], out + [last], at')
  {
  }

  lemma PositionsLast<T(!new)>(all: seq<T>, out: seq<T>, keep: T -> bool, at: seq<nat>, last: T, at': seq<nat>)
    requires PicksAt(all, out, at) && Positions(all, keep, at) && at' == at + [|all|]
    ensures if keep(last) then Positions(all + [last], keep, at') else Positions(all + [last], keep, at)
  {
    forall i: nat | i < |all| ensures (i in at' <==> i in at) && (all + [last])[i] == all[i] {}
    assert |all| !in at && |all| in at';
  }

  // One element more behind all.
  lemma FiltersSnoc<T(!new)>(all: seq<T>, last: T, keep: T -> bool, out: seq<T>, all': seq<T>, out': seq<T>)
    requires Filters(all, keep, out)
    requires all' == all + [last] && out' == if keep(last) then out + [last] else out
    ensures Filters(all', keep, out')
  {
    var at :| PicksAt(all, out, at) && Positions(all, keep, at);
    var n: nat := |all|;
    PicksLast(all, out, at, last, at + [n]);
    PositionsLast(all, out, keep, at, last, at + [n]);
  }
}
