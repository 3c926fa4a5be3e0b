/** The upstream registry: the global `upstreamList` and `currentIndex` of
    the proxy, and every operation that reads or rewrites them — start-up
    configuration and ranking, the periodic re-ranking, the round-robin
    cursor, failover forwarding and the request handler around it. */
module Upstream {
  import opened Address
  import opened Ranking
  import opened DnsMessage

  datatype Option<T> = None | Some(value: T)

  /** What one exchange with one upstream gives: a response, or an error
      (timeout, refused, malformed reply). The network is not modelled:
      a forwarding call is handed the outcome each list position would give. */
  datatype Exchange = Replied(msg: Msg) | Failed(err: string)

  /** The cursor after one round-robin step over `n` servers. */
  function Advance(cur: nat, n: nat): (next: nat)
    requires cur < n
    ensures next < n
    ensures next == if cur + 1 == n then 0 else cur + 1
  {
    (cur + 1) % n
  }

  /** The servers returned by `k` successive round-robin calls starting at
      cursor `cur`. */
  function Visit(list: seq<string>, cur: nat, k: nat): (servers: seq<string>)
    requires cur < |list|
    ensures |servers| == k
    decreases k
  {
    if k == 0 then [] else [list[cur]] + Visit(list, Advance(cur, |list|), k - 1)
  }

  lemma ModWrap(x: nat, n: nat)
    requires 0 < n && x < 2 * n
    ensures x % n == if x < n then x else x - n
  {
    if x >= n {
      assert x == n * 1 + (x - n);
    }
  }

  /** The list position `j` steps after `cur`, wrapping around a list of `n`
      servers, as `(currentIndex + i) % len(upstreamList)` computes it. */
  function Pos(cur: nat, j: nat, n: nat): (p: nat)
    requires cur < n && j < n
    ensures p < n
    ensures p == if cur + j < n then cur + j else cur + j - n
  {
    ModWrap(cur + j, n);
    (cur + j) % n
  }

  /** The `j`-th of `k` successive round-robin calls returns the server `j`
      positions after the starting cursor. */
  lemma {:induction false} VisitAt(list: seq<string>, cur: nat, k: nat, j: nat)
    requires cur < |list| && j < k <= |list|
    ensures Visit(list, cur, k)[j] == list[Pos(cur, j, |list|)]
    decreases k
  {
    var n := |list|;
    if j > 0 {
      var next := Advance(cur, n);
      VisitAt(list, next, k - 1, j - 1);
      assert Pos(next, j - 1, n) == Pos(cur, j, n);
    }
  }

  /** Over one full cycle the round-robin cursor hands out every listed
      server exactly as often as it is listed. */
  lemma RoundRobinVisitsAll(list: seq<string>, cur: nat)
    requires cur < |list|
    ensures multiset(Visit(list, cur, |list|)) == multiset(list)
  {
    var n := |list|;
    var v := Visit(list, cur, n);
    forall j | 0 <= j < n ensures v[j] == (list[cur..] + list[..cur])[j] {
      VisitAt(list, cur, n, j);
    }
    assert v == list[cur..] + list[..cur];
    assert list == list[..cur] + list[cur..];
  }

  /** The list positions a forwarding call tries, in order: the cursor
      first, then the following positions, wrapping around. */
  function Candidates(cur: nat, n: nat, m: nat): (idx: seq<nat>)
    requires cur < n && m <= n
    ensures |idx| == m
    ensures forall i, j :: 0 <= i < j < m ==> idx[i] != idx[j]
  {
    seq(m, j requires 0 <= j < m => Pos(cur, j, n))
  }

  /** Every list position is the `j`-th candidate for some `j < n`. */
  lemma CandidatesCover(cur: nat, n: nat, i: nat) returns (j: nat)
    requires cur < n && i < n
    ensures j < n && Pos(cur, j, n) == i
  {
    j := if i >= cur then i - cur else i + n - cur;
  }

  /** The offset, from position `i` of the candidate order on, of the first
      upstream that replies, if any. */
  function FirstAnswer(replies: seq<Exchange>, cur: nat, i: nat): (k: Option<nat>)
    requires cur < |replies| && i <= |replies|
    ensures k.Some? ==> i <= k.value < |replies| && replies[Pos(cur, k.value, |replies|)].Replied?
    ensures k.Some? ==> forall j :: i <= j < k.value ==> replies[Pos(cur, j, |replies|)].Failed?
    ensures k.None? <==> forall j :: i <= j < |replies| ==> replies[Pos(cur, j, |replies|)].Failed?
    decreases |replies| - i
  {
    if i == |replies| then None
    else if replies[Pos(cur, i, |replies|)].Replied? then Some(i)
    else FirstAnswer(replies, cur, i + 1)
  }

  /** Some upstream replies exactly when some list position does. */
  lemma FirstAnswerExists(replies: seq<Exchange>, cur: nat)
    requires cur < |replies|
    ensures FirstAnswer(replies, cur, 0).Some? <==> exists i :: 0 <= i < |replies| && replies[i].Replied?
  {
    if i :| 0 <= i < |replies| && replies[i].Replied? {
      var j := CandidatesCover(cur, |replies|, i);
      assert replies[Pos(cur, j, |replies|)].Replied?;
    }
  }

  class Registry {
    /** `upstreamList`: the resolver addresses, best first. */
    var list: seq<string>
    /** `currentIndex`: the position of the preferred resolver. */
    var cur: nat

    ghost predicate Valid()
      reads this
    {
      list != [] ==> cur < |list|
    }

    /** The zero values the globals start with. */
    constructor ()
      ensures Valid() && list == [] && cur == 0
    {
      list := [];
      cur := 0;
    }

    /** Start-up (`main`): parse the configured upstreams (no valid one is
        fatal, reported as `ok == false`), put the cursor at 0 and, when more
        than one upstream is configured, rank them once and keep the
        reachable ones, fastest first; when none is reachable the parsed list
        stays. */
    method Start(upstream: string, probes: seq<ProbeResult>) returns (ok: bool, ranked: seq<ProbeResult>)
      modifies this
      ensures Valid() && cur == 0
      ensures var parsed := ParsePieces(Split(upstream));
        && ok == (parsed != [])
        && (|parsed| > 1 ==>
              Ranked(ranked) && multiset(ranked) == multiset(probes)
              && list == if ReachableServers(ranked) != [] then ReachableServers(ranked) else parsed)
        && (|parsed| <= 1 ==> ranked == [] && list == parsed)
    {
      list := ParseUpstreamServers(upstream);
      ranked := [];
      cur := 0;
      if list == [] {
        ok := false;
        return;
      }
      ok := true;
      if |list| > 1 {
        ranked := RankProbes(probes);
        if |ranked| > 0 {
          var newList := [];
          var i := 0;
          while i < |ranked|
            invariant 0 <= i <= |ranked|
            invariant newList == ReachableServers(ranked[..i])
          {
            assert ranked[..i + 1][..i] == ranked[..i];
            if ranked[i].reachable {
              newList := newList + [ranked[i].server];
            }
            i := i + 1;
          }
          assert ranked[..i] == ranked;
          if |newList| > 0 {
            list := newList;
          }
        }
      }
    }

    /** One periodic ranking pass (`startPeriodicSpeedTest`, one tick): rank
        the probe results, rebuild the list from the reachable ones and keep
        the cursor on the server that was current if it is still listed,
        else 0. Nothing reachable leaves list and cursor as they were. */
    method PeriodicRank(probes: seq<ProbeResult>) returns (ranked: seq<ProbeResult>)
      requires Valid() && list != []
      modifies this
      ensures Valid() && list != []
      ensures Ranked(ranked) && multiset(ranked) == multiset(probes)
      ensures var installed := ReachableServers(ranked);
        if installed == [] then list == old(list) && cur == old(cur)
        else list == installed && cur == CursorFor(installed, old(list)[old(cur)])
    {
      ranked := RankProbes(probes);
      if |ranked| > 0 {
        var newList := [];
        var newCur := 0;
        var i := 0;
        while i < |ranked|
          invariant 0 <= i <= |ranked|
          invariant newList == ReachableServers(ranked[..i])
          invariant newCur == CursorFor(newList, list[cur])
        {
          assert ranked[..i + 1][..i] == ranked[..i];
          if ranked[i].reachable {
            newList := newList + [ranked[i].server];
            if ranked[i].server == list[cur] {
              newCur := |newList| - 1;
            }
          }
          i := i + 1;
        }
        assert ranked[..i] == ranked;
        if |newList| > 0 {
          list := newList;
          cur := newCur;
        }
      }
    }

    /** `getNextUpstreamServer`: the current server, moving the cursor one
        step round the list; "" on an empty list. */
    method Next() returns (server: string)
      requires Valid()
      modifies this
      ensures Valid() && list == old(list)
      ensures old(list) == [] ==> server == "" && cur == old(cur)
      ensures old(list) != [] ==> server == list[old(cur)] && cur == Advance(old(cur), |list|)
    {
      if |list| == 0 {
        return "";
      }
      server := list[cur];
      cur := (cur + 1) % |list|;
    }

    /** `forwardToUpstream`: try the preferred server, then every other
        position in turn, wrapping around; the first reply wins. A reply from
        a backup moves the cursor to it; total failure leaves the cursor and
        reports the preferred server's error. `tried` is the sequence of
        positions exchanged with. */
    method Forward(replies: seq<Exchange>) returns (result: Forwarded, ghost tried: seq<nat>)
      requires Valid() && list != [] && |replies| == |list|
      modifies this
      ensures Valid() && list == old(list)
      ensures 1 <= |tried| <= |list| && tried == Candidates(old(cur), |list|, |tried|)
      ensures forall j :: 0 <= j < |tried| - 1 ==> replies[tried[j]].Failed?
      ensures match FirstAnswer(replies, old(cur), 0)
        case Some(k) =>
          && result == Answer(replies[Pos(old(cur), k, |list|)].msg)
          && cur == Pos(old(cur), k, |list|) && |tried| == k + 1
        case None =>
          && result == AllFailed(replies[old(cur)].err)
          && cur == old(cur) && |tried| == |list|
      ensures FirstAnswer(replies, old(cur), 0) == Some(0) ==> cur == old(cur)
    {
      var n := |list|;
      var preferred := cur;
      tried := [preferred];
      assert Pos(preferred, 0, n) == preferred;
      var first := replies[preferred];
      if first.Replied? {
        assert FirstAnswer(replies, preferred, 0) == Some(0);
        return Answer(first.msg), tried;
      }
      var i := 1;
      while i < n
        invariant 1 <= i <= n
        invariant cur == preferred && list == old(list)
        invariant tried == Candidates(preferred, n, i)
        invariant forall j :: 0 <= j < i ==> replies[Pos(preferred, j, n)].Failed?
      {
        var nextIndex := (cur + i) % n;
        assert nextIndex == Pos(preferred, i, n);
        tried := tried + [nextIndex];
        var backup := replies[nextIndex];
        if backup.Replied? {
          cur := nextIndex;
          assert FirstAnswer(replies, preferred, 0) == Some(i);
          return Answer(backup.msg), tried;
        }
        i := i + 1;
      }
      assert FirstAnswer(replies, preferred, 0) == None;
      result := AllFailed(first.err);
    }

    /** `handleDNSRequest`: forward the query; when every upstream failed,
        answer with a server failure, otherwise with the filtered response.
        A query without a question would stop the filter, so one is needed
        whenever some upstream replies. */
    method HandleDNSRequest(query: Msg, replies: seq<Exchange>) returns (reply: Msg)
      requires Valid() && list != [] && |replies| == |list|
      requires (exists i :: 0 <= i < |replies| && replies[i].Replied?) ==> |query.question| > 0
      modifies this
      ensures Valid() && list == old(list)
      ensures (forall i :: 0 <= i < |replies| ==> replies[i].Failed?) ==>
        reply.rcode == RcodeServerFailure && reply.answers == [] && reply.question == query.question
        && cur == old(cur)
      ensures (exists i :: 0 <= i < |replies| && replies[i].Replied?) ==>
        replies[cur].Replied? && reply == FilterIPv6Records(replies[cur].msg, query)
      ensures match FirstAnswer(replies, old(cur), 0)
        case Some(k) => cur == Pos(old(cur), k, |list|)
        case None => cur == old(cur) && reply == Respond(query, AllFailed(replies[old(cur)].err))
    {
      FirstAnswerExists(replies, cur);
      ghost var tried;
      var upstream;
      upstream, tried := Forward(replies);
      reply := Respond(query, upstream);
    }
  }

  /** Failover example: with three upstreams, the first timing out and the
      second answering, the second's response comes back and the second
      becomes the preferred upstream. */
  method FailoverScenario(r1: string, r2: string, r3: string, response: Msg)
  {
    var registry := new Registry();
    registry.list := [r1, r2, r3];
    var replies := [Failed("i/o timeout"), Replied(response), Failed("refused")];
    assert replies[Pos(0, 0, 3)].Failed? && replies[Pos(0, 1, 3)].Replied?;
    assert FirstAnswer(replies, 0, 1) == Some(1);
    var result, tried := registry.Forward(replies);
    assert result == Answer(response);
    assert registry.cur == 1 && registry.list[registry.cur] == r2;
  }
}
