/** Ranking of probe results: the comparator handed to `sort.Slice`, the
    sort itself, and the reachable servers a ranking pass installs. */
module Ranking {

  /** One probe outcome: the resolver, the measured round trip (a
      `time.Duration`, here a count of ticks) and whether it answered. */
  datatype ProbeResult = ProbeResult(server: string, speed: nat, reachable: bool)

  /** The comparator of the ranking sort: reachable before unreachable, and
      otherwise (both reachable or both unreachable) the faster first. */
  predicate Less(a: ProbeResult, b: ProbeResult) {
    if !a.reachable && b.reachable then false
    else if a.reachable && !b.reachable then true
    else a.speed < b.speed
  }

  /** `Less` is a strict weak order, which `sort.Slice` needs of its
      comparator: irreflexive, transitive, and incomparability is transitive. */
  lemma LessIsStrictWeakOrder(a: ProbeResult, b: ProbeResult, c: ProbeResult)
    ensures !Less(a, a)
    ensures Less(a, b) && Less(b, c) ==> Less(a, c)
    ensures !Less(a, b) && !Less(b, a) && !Less(b, c) && !Less(c, b) ==> !Less(a, c) && !Less(c, a)
  {
  }

  /** No later result is `Less` than an earlier one: what `sort.Slice`
      guarantees once it returns. */
  predicate Ranked(s: seq<ProbeResult>) {
    forall i, j :: 0 <= i < j < |s| ==> !Less(s[j], s[i])
  }

  /** Ranked means: every reachable result precedes every unreachable one,
      and within each group speeds do not decrease. */
  lemma RankedMeaning(s: seq<ProbeResult>)
    ensures Ranked(s) <==>
      (forall i, j :: 0 <= i < j < |s| && s[j].reachable ==> s[i].reachable)
      && (forall i, j :: 0 <= i < j < |s| && s[i].reachable == s[j].reachable ==> s[i].speed <= s[j].speed)
  {
  }

  /** Sorts the probe results in place by `Less`; the results are permuted,
      never added or lost. Insertion sort stands in for Go's pattern-defeating
      quicksort: neither is stable, and only the two postconditions below are
      relied on. */
  method SortResults(a: array<ProbeResult>)
    modifies a
    ensures Ranked(a[..])
    ensures multiset(a[..]) == old(multiset(a[..]))
  {
    var i := 0;
    while i < a.Length
      invariant 0 <= i <= a.Length
      invariant Ranked(a[..i])
      invariant multiset(a[..]) == old(multiset(a[..]))
    {
      var j := i;
      while j > 0 && Less(a[j], a[j - 1])
        invariant 0 <= j <= i
        invariant forall k, l :: 0 <= k < l <= i && l != j ==> !Less(a[l], a[k])
        invariant multiset(a[..]) == old(multiset(a[..]))
      {
        Swap(a, j - 1, j);
        j := j - 1;
      }
      i := i + 1;
    }
  }

  method Swap(a: array<ProbeResult>, i: nat, j: nat)
    requires i < j < a.Length
    modifies a
    ensures a[i] == old(a[j]) && a[j] == old(a[i])
    ensures forall k :: 0 <= k < a.Length && k != i && k != j ==> a[k] == old(a[k])
    ensures multiset(a[..]) == old(multiset(a[..]))
  {
    a[i], a[j] := a[j], a[i];
  }

  /** Copies the probe results into a slice and sorts it, as the ranking pass
      does with the results its probes collected. */
  method RankProbes(probes: seq<ProbeResult>) returns (ranked: seq<ProbeResult>)
    ensures Ranked(ranked)
    ensures multiset(ranked) == multiset(probes)
  {
    var a := new ProbeResult[|probes|](i requires 0 <= i < |probes| => probes[i]);
    assert a[..] == probes;
    SortResults(a);
    ranked := a[..];
  }

  /** The servers of the reachable results, in their order: the list a
      ranking pass builds by appending. */
  function ReachableServers(results: seq<ProbeResult>): seq<string> {
    if results == [] then []
    else
      ReachableServers(results[..|results| - 1])
      + (if results[|results| - 1].reachable then [results[|results| - 1].server] else [])
  }

  /** Number of reachable results. */
  function CountReachable(results: seq<ProbeResult>): (n: nat)
    ensures n <= |results|
    ensures n == |ReachableServers(results)|
  {
    if results == [] then 0
    else CountReachable(results[..|results| - 1]) + (if results[|results| - 1].reachable then 1 else 0)
  }

  lemma {:induction false} ReachableServersAppend(a: seq<ProbeResult>, b: seq<ProbeResult>)
    ensures ReachableServers(a + b) == ReachableServers(a) + ReachableServers(b)
    decreases |b|
  {
    if b == [] {
      assert a + b == a;
    } else {
      var n := |b| - 1;
      var ab := a + b;
      assert ab[..|ab| - 1] == a + b[..n];
      assert ab[|ab| - 1] == b[n];
      ReachableServersAppend(a, b[..n]);
    }
  }

  /** The reachable servers depend only on which results there are, not on
      their order: permuting the results permutes the servers. */
  lemma {:induction false} ReachableServersPermutation(s: seq<ProbeResult>, t: seq<ProbeResult>)
    requires multiset(s) == multiset(t)
    ensures multiset(ReachableServers(s)) == multiset(ReachableServers(t))
    decreases |s|
  {
    if s != [] {
      var n := |s| - 1;
      var x := s[n];
      assert x in multiset(t);
      var k :| 0 <= k < |t| && t[k] == x;
      var rest := t[..k] + t[k + 1..];
      assert t == t[..k] + [x] + t[k + 1..];
      assert s == s[..n] + [x];
      assert multiset(s) == multiset(s[..n]) + multiset{x};
      assert multiset(t) == multiset(t[..k]) + multiset{x} + multiset(t[k + 1..]);
      assert multiset(rest) == multiset(t[..k]) + multiset(t[k + 1..]);
      assert multiset(s[..n]) == multiset(s) - multiset{x};
      assert multiset(rest) == multiset(t) - multiset{x};
      ReachableServersPermutation(s[..n], rest);
      ReachableServersAppend(t[..k] + [x], t[k + 1..]);
      ReachableServersAppend(t[..k], [x]);
      ReachableServersAppend(t[..k], t[k + 1..]);
      ReachableServersAppend(s[..n], [x]);
      assert ReachableServers([x]) == ReachableServers([]) + (if x.reachable then [x.server] else []);
    }
  }

  /** Dropping the last result of a ranked sequence leaves it ranked. */
  lemma RankedInit(s: seq<ProbeResult>)
    requires Ranked(s) && s != []
    ensures Ranked(s[..|s| - 1])
  {
    var init := s[..|s| - 1];
    forall i, j | 0 <= i < j < |init| ensures !Less(init[j], init[i]) {
      assert init[i] == s[i] && init[j] == s[j];
    }
  }

  /** In a ranked sequence the reachable results come first: as many of
      them as there are reachable results, and only unreachable ones
      after. */
  lemma {:induction false} ReachablePrefix(s: seq<ProbeResult>)
    requires Ranked(s)
    ensures CountReachable(s) <= |s|
    ensures forall i :: 0 <= i < CountReachable(s) ==> s[i].reachable
    ensures forall i :: CountReachable(s) <= i < |s| ==> !s[i].reachable
  {
    if s != [] {
      var n := |s| - 1;
      var init := s[..n];
      RankedInit(s);
      ReachablePrefix(init);
      var k := CountReachable(init);
      assert forall i :: 0 <= i < n ==> init[i] == s[i];
      assert k < n ==> !Less(s[n], s[k]);
    }
  }

  /** Results that are all reachable install all their servers, in order. */
  lemma {:induction false} AllReachableServers(t: seq<ProbeResult>)
    requires forall i :: 0 <= i < |t| ==> t[i].reachable
    ensures |ReachableServers(t)| == |t|
    ensures forall i :: 0 <= i < |t| ==> ReachableServers(t)[i] == t[i].server
  {
    if t != [] {
      AllReachableServers(t[..|t| - 1]);
    }
  }

  /** Results that are all unreachable install nothing. */
  lemma {:induction false} NoneReachableServers(t: seq<ProbeResult>)
    requires forall i :: 0 <= i < |t| ==> !t[i].reachable
    ensures ReachableServers(t) == []
  {
    if t != [] {
      NoneReachableServers(t[..|t| - 1]);
    }
  }

  /** In a ranked sequence the reachable results form a prefix, and the
      servers a pass installs are exactly the servers of that prefix, fastest
      first. */
  lemma RankedReachablePrefix(s: seq<ProbeResult>)
    requires Ranked(s)
    ensures var k := CountReachable(s);
      (forall i :: 0 <= i < k ==> s[i].reachable)
      && (forall i :: k <= i < |s| ==> !s[i].reachable)
      && |ReachableServers(s)| == k
      && (forall i :: 0 <= i < k ==> ReachableServers(s)[i] == s[i].server)
      && (forall i, j :: 0 <= i < j < k ==> s[i].speed <= s[j].speed)
  {
    ReachablePrefix(s);
    var k := CountReachable(s);
    var front, back := s[..k], s[k..];
    assert s == front + back;
    AllReachableServers(front);
    NoneReachableServers(back);
    ReachableServersAppend(front, back);
  }

  /** The position the cursor takes in a freshly built list: the last
      position holding `server`, or 0 when the list does not hold it. */
  function CursorFor(list: seq<string>, server: string): (cur: nat)
    ensures list != [] ==> cur < |list|
    ensures server in list ==> list[cur] == server && forall k :: cur < k < |list| ==> list[k] != server
    ensures server !in list ==> cur == 0
  {
    if list == [] then 0
    else if list[|list| - 1] == server then |list| - 1
    else CursorFor(list[..|list| - 1], server)
  }
}
