/** The parts of a DNS message the proxy looks at, the IPv6 answer filter
    (`filterIPv6Records`) and the reply `handleDNSRequest` sends back. */
module DnsMessage {

  /** Resource record types and response codes used here (RFC 1035 section
      3.2.2, RFC 3596 section 2.1, RFC 1035 section 4.1.1). */
  const TypeA: nat := 1
  const TypeAAAA: nat := 28
  const RcodeSuccess: nat := 0
  const RcodeServerFailure: nat := 2
  const RcodeNameError: nat := 3

  /** A resource record, reduced to its type and an opaque rest. */
  datatype RR = RR(rrtype: nat, data: string)

  datatype Question = Question(name: string, qtype: nat)

  /** A DNS message: question, answer, authority (`ns`) and additional
      (`extra`) sections and the response code. */
  datatype Msg = Msg(question: seq<Question>, answers: seq<RR>, ns: seq<RR>, extra: seq<RR>, rcode: nat)

  /** The outcome of relaying a query upstream: the upstream's response, or
      the error reported once every upstream has failed. */
  datatype Forwarded = Answer(msg: Msg) | AllFailed(err: string)

  /** An empty reply to `query` (what `SetReply` leaves: the query's
      question, empty sections, success). */
  function ReplyTo(query: Msg): Msg {
    Msg(query.question, [], [], [], RcodeSuccess)
  }

  /** The answers that are not AAAA records, in their order. */
  function WithoutAAAA(answers: seq<RR>): seq<RR> {
    if answers == [] then []
    else
      WithoutAAAA(answers[..|answers| - 1])
      + (if answers[|answers| - 1].rrtype == TypeAAAA then [] else [answers[|answers| - 1]])
  }

  /** A record survives the filter exactly when it is an answer that is not
      an AAAA record. */
  lemma {:induction false} WithoutAAAAMembers(answers: seq<RR>, rr: RR)
    ensures rr in WithoutAAAA(answers) <==> rr in answers && rr.rrtype != TypeAAAA
  {
    if answers != [] {
      var init := answers[..|answers| - 1];
      WithoutAAAAMembers(init, rr);
      assert answers == init + [answers[|answers| - 1]];
    }
  }

  /** The filter works record by record, so the order of what it keeps is
      the order of the answers. */
  lemma {:induction false} WithoutAAAAAppend(a: seq<RR>, b: seq<RR>)
    ensures WithoutAAAA(a + b) == WithoutAAAA(a) + WithoutAAAA(b)
    decreases |b|
  {
    if b == [] {
      assert a + b == a;
    } else {
      var n := |b| - 1;
      var ab := a + b;
      assert ab[..|ab| - 1] == a + b[..n];
      assert ab[|ab| - 1] == b[n];
      WithoutAAAAAppend(a, b[..n]);
    }
  }

  /** Filtering what has no AAAA record changes nothing; in particular
      filtering twice is filtering once. */
  lemma {:induction false} WithoutAAAAKeepsClean(answers: seq<RR>)
    requires forall i :: 0 <= i < |answers| ==> answers[i].rrtype != TypeAAAA
    ensures WithoutAAAA(answers) == answers
  {
    if answers != [] {
      WithoutAAAAKeepsClean(answers[..|answers| - 1]);
      assert answers == answers[..|answers| - 1] + [answers[|answers| - 1]];
    }
  }

  lemma WithoutAAAAIdempotent(answers: seq<RR>)
    ensures WithoutAAAA(WithoutAAAA(answers)) == WithoutAAAA(answers)
  {
    var kept := WithoutAAAA(answers);
    forall i | 0 <= i < |kept| ensures kept[i].rrtype != TypeAAAA {
      WithoutAAAAMembers(answers, kept[i]);
    }
    WithoutAAAAKeepsClean(kept);
  }

  /** The filtering loop of `filterIPv6Records`: appends every non-AAAA
      answer to a fresh slice and counts the AAAA answers it skips. */
  method FilterAnswers(answers: seq<RR>) returns (kept: seq<RR>, ipv6Count: nat)
    ensures kept == WithoutAAAA(answers)
    ensures ipv6Count + |kept| == |answers|
    ensures ipv6Count == 0 <==> forall i :: 0 <= i < |answers| ==> answers[i].rrtype != TypeAAAA
  {
    kept := [];
    ipv6Count := 0;
    var i := 0;
    while i < |answers|
      invariant 0 <= i <= |answers|
      invariant kept == WithoutAAAA(answers[..i])
      invariant ipv6Count + |kept| == i
      invariant ipv6Count == 0 <==> forall k :: 0 <= k < i ==> answers[k].rrtype != TypeAAAA
    {
      assert answers[..i + 1][..i] == answers[..i];
      if answers[i].rrtype == TypeAAAA {
        ipv6Count := ipv6Count + 1;
      } else {
        kept := kept + [answers[i]];
      }
      i := i + 1;
    }
    assert answers[..i] == answers;
  }

  /** `filterIPv6Records`: drops the AAAA answers and keeps everything else;
      an AAAA query left without answers becomes a name error, any other
      response code is the upstream's. The query must carry a question. */
  function FilterIPv6Records(msg: Msg, query: Msg): (filtered: Msg)
    requires |query.question| > 0
    ensures filtered.question == query.question
    ensures filtered.ns == msg.ns && filtered.extra == msg.extra
    ensures filtered.answers == WithoutAAAA(msg.answers)
    ensures forall rr :: rr in filtered.answers <==> rr in msg.answers && rr.rrtype != TypeAAAA
    ensures filtered.rcode == RcodeNameError <==>
      (filtered.answers == [] && query.question[0].qtype == TypeAAAA) || msg.rcode == RcodeNameError
    ensures filtered.answers != [] || query.question[0].qtype != TypeAAAA ==> filtered.rcode == msg.rcode
  {
    var queryType := query.question[0].qtype;
    var answers := WithoutAAAA(msg.answers);
    forall rr ensures rr in answers <==> rr in msg.answers && rr.rrtype != TypeAAAA {
      WithoutAAAAMembers(msg.answers, rr);
    }
    var rcode := if answers == [] && queryType == TypeAAAA then RcodeNameError else msg.rcode;
    ReplyTo(query).(answers := answers, rcode := rcode, ns := msg.ns, extra := msg.extra)
  }

  /** Filtering a filtered response again gives the same response. */
  lemma FilterIPv6RecordsIdempotent(msg: Msg, query: Msg)
    requires |query.question| > 0
    ensures FilterIPv6Records(FilterIPv6Records(msg, query), query) == FilterIPv6Records(msg, query)
  {
    WithoutAAAAIdempotent(msg.answers);
  }

  /** Two filter examples: an A query answered with an A and an AAAA record
      keeps the A record and the response code; an AAAA query answered only
      with AAAA records turns into a name error. */
  lemma FilterScenarios(q: string, a: RR, aaaa: RR, rcode: nat)
    requires a.rrtype == TypeA && aaaa.rrtype == TypeAAAA
    ensures var query := Msg([Question(q, TypeA)], [], [], [], RcodeSuccess);
      var r := FilterIPv6Records(Msg(query.question, [a, aaaa], [], [], rcode), query);
      r.answers == [a] && r.rcode == rcode
    ensures var query := Msg([Question(q, TypeAAAA)], [], [], [], RcodeSuccess);
      var r := FilterIPv6Records(Msg(query.question, [aaaa], [], [], RcodeSuccess), query);
      r.answers == [] && r.rcode == RcodeNameError
  {
    assert [a, aaaa][..1] == [a] && [a][..0] == [] && [aaaa][..0] == [];
    assert WithoutAAAA([a]) == [a];
    assert WithoutAAAA([a, aaaa]) == [a];
    assert WithoutAAAA([aaaa]) == [];
  }

  /** The reply `handleDNSRequest` writes: a server failure when no upstream
      answered, the filtered upstream response otherwise. */
  function Respond(query: Msg, upstream: Forwarded): (reply: Msg)
    requires upstream.Answer? ==> |query.question| > 0
    ensures upstream.AllFailed? ==>
      reply.rcode == RcodeServerFailure && reply.answers == [] && reply.question == query.question
    ensures upstream.Answer? ==> reply == FilterIPv6Records(upstream.msg, query)
  {
    match upstream
    case AllFailed(_) => ReplyTo(query).(rcode := RcodeServerFailure)
    case Answer(msg) => FilterIPv6Records(msg, query)
  }
}
