/**
 * The JSON resolver client of services/dns/fetch-resolve.ts: a GET of
 * `https://<dns>/resolve?name=<domain>&type=<queryType>` whose `Answer` list
 * is mapped one to one onto records.  `fetch` and `response.json()` are a
 * parameter `send` that returns the status and the parsed body, or the error
 * a rejected promise carries.
 */
module FetchResolve {
  import opened JsText
  import opened Bytes
  import opened DnsTypes
  import opened FetchDnsQuery

  /** One element of `Answer`: `type` is numeric, `TTL` a number. */
  datatype ResolveAnswer = ResolveAnswer(name: string, code: int, ttl: int, data: string)

  /** The parsed body; `Answer` may be absent. */
  datatype ResolveBody = ResolveBody(answer: Option<seq<ResolveAnswer>>)

  /** What the client reads of the response: `ok`, `status`, and what
      `response.json()` resolves to or fails with. */
  datatype ResolveResponse = ResolveResponse(ok: bool, status: int, json: Result<ResolveBody>)

  /** The request URL; nothing in it is escaped. */
  function ResolveUrl(dns: string, domain: string, queryType: QueryType): string {
    "https://" + dns + "/resolve?name=" + domain + "&type=" + QueryTypeName(queryType)
  }

  /** The record built from one answer. */
  function AnswerRecord(answer: ResolveAnswer): DNSRecord {
    DNSRecord(answer.name, StringifyDNSType(answer.code), answer.ttl, answer.data)
  }

  /** `data.Answer.map(...)`: one record per answer, in the same order. */
  function AnswerRecords(answers: seq<ResolveAnswer>): (rs: seq<DNSRecord>)
    ensures |rs| == |answers|
    ensures forall i :: 0 <= i < |answers| ==> rs[i] == AnswerRecord(answers[i])
  {
    if answers == [] then [] else [AnswerRecord(answers[0])] + AnswerRecords(answers[1..])
  }

  /** `fetchDNSResolve(dns, domain, queryType)`: the argument guard, one
      request, the status check, then the mapping of `Answer`, which gives
      no records when it is absent. */
  function FetchDNSResolve(dns: string, domain: string, queryType: QueryType,
                           send: string -> Result<ResolveResponse>): Result<seq<DNSRecord>>
  {
    if dns == [] || domain == [] then Err(Thrown(MissingArguments))
    else
      var response :- send(ResolveUrl(dns, domain, queryType));
      if !response.ok then Err(Thrown("Failed: " + IntToString(response.status)))
      else
        var body :- response.json;
        match body.answer
        case None => Ok([])
        case Some(answers) => Ok(AnswerRecords(answers))
  }

  // ---------------------------------------------------------------------
  // Properties
  // ---------------------------------------------------------------------

  /** A missing argument is refused before any request: whatever `send`
      would answer, the call fails with the same message. */
  lemma ResolveNeedsArguments(dns: string, domain: string, queryType: QueryType,
                              send: string -> Result<ResolveResponse>)
    requires dns == [] || domain == []
    ensures FetchDNSResolve(dns, domain, queryType, send) == Err(Thrown("DNS and domain are required"))
  {
  }

  /** The one request made is to `ResolveUrl`: two transports that answer
      that URL alike give the same result. */
  lemma ResolveOnlyRequest(dns: string, domain: string, queryType: QueryType,
                           send1: string -> Result<ResolveResponse>, send2: string -> Result<ResolveResponse>)
    requires send1(ResolveUrl(dns, domain, queryType)) == send2(ResolveUrl(dns, domain, queryType))
    ensures FetchDNSResolve(dns, domain, queryType, send1) == FetchDNSResolve(dns, domain, queryType, send2)
  {
  }

  /** A response that is not ok fails with its status, whatever its body. */
  lemma ResolveFailedStatus(dns: string, domain: string, queryType: QueryType,
                            send: string -> Result<ResolveResponse>, status: int, json: Result<ResolveBody>)
    requires dns != [] && domain != []
    requires send(ResolveUrl(dns, domain, queryType)) == Ok(ResolveResponse(false, status, json))
    ensures FetchDNSResolve(dns, domain, queryType, send) == Err(Thrown("Failed: " + IntToString(status)))
  {
  }

  /** An ok response without `Answer` gives no records rather than an error. */
  lemma ResolveNoAnswer(dns: string, domain: string, queryType: QueryType,
                        send: string -> Result<ResolveResponse>, status: int)
    requires dns != [] && domain != []
    requires send(ResolveUrl(dns, domain, queryType)) == Ok(ResolveResponse(true, status, Ok(ResolveBody(None))))
    ensures FetchDNSResolve(dns, domain, queryType, send) == Ok([])
  {
  }

  /** An ok response with `Answer` gives one record per answer, in order,
      with name, TTL and data copied and the type rendered by
      `stringifyDNSType`. */
  lemma ResolveAnswers(dns: string, domain: string, queryType: QueryType,
                       send: string -> Result<ResolveResponse>, status: int, answers: seq<ResolveAnswer>)
    requires dns != [] && domain != []
    requires send(ResolveUrl(dns, domain, queryType)) == Ok(ResolveResponse(true, status, Ok(ResolveBody(Some(answers)))))
    ensures var r := FetchDNSResolve(dns, domain, queryType, send);
      r.Ok? && |r.value| == |answers| &&
      forall i :: 0 <= i < |answers| ==>
        r.value[i].name == answers[i].name && r.value[i].ttl == answers[i].ttl &&
        r.value[i].data == answers[i].data && r.value[i].rtype == StringifyDNSType(answers[i].code)
  {
  }

  /** The mapping loses nothing of an answer: two answers give the same
      record exactly when they are the same answer. */
  lemma AnswerRecordInjective(a: ResolveAnswer, b: ResolveAnswer)
    ensures AnswerRecord(a) == AnswerRecord(b) <==> a == b
  {
    StringifyDNSTypeInjective(a.code, b.code);
  }

  /** Mapping distributes over concatenation, so the order of the answers is
      the order of the records. */
  lemma {:induction false} AnswerRecordsAppend(a: seq<ResolveAnswer>, b: seq<ResolveAnswer>)
    ensures AnswerRecords(a + b) == AnswerRecords(a) + AnswerRecords(b)
    decreases |a|
  {
    if a != [] {
      assert (a + b)[1..] == a[1..] + b;
      AnswerRecordsAppend(a[1..], b);
    }
  }

  /** The URL determines the request when the server has no `/` and the
      domain no `&`: the server, the domain and the type can be read back. */
  lemma ResolveUrlInjective(dns1: string, domain1: string, q1: QueryType,
                            dns2: string, domain2: string, q2: QueryType)
    requires '/' !in dns1 && '/' !in dns2 && '&' !in domain1 && '&' !in domain2
    requires ResolveUrl(dns1, domain1, q1) == ResolveUrl(dns2, domain2, q2)
    ensures dns1 == dns2 && domain1 == domain2 && q1 == q2
  {
    var tail1 := "resolve?name=" + domain1 + "&type=" + QueryTypeName(q1);
    var tail2 := "resolve?name=" + domain2 + "&type=" + QueryTypeName(q2);
    UrlAfterScheme(dns1, domain1, q1, tail1);
    UrlAfterScheme(dns2, domain2, q2, tail2);
    SeparatedParts(dns1, tail1, dns2, tail2, '/');
    var rest1 := QueryAfterName(domain1, q1, tail1);
    var rest2 := QueryAfterName(domain2, q2, tail2);
    SeparatedParts(domain1, rest1, domain2, rest2, '&');
    assert QueryTypeName(q1) == rest1[5..] == QueryTypeName(q2);
  }

  lemma QueryAfterName(domain: string, queryType: QueryType, tail: string) returns (rest: string)
    requires tail == "resolve?name=" + domain + "&type=" + QueryTypeName(queryType)
    ensures rest == "type=" + QueryTypeName(queryType)
    ensures tail[13..] == domain + ['&'] + rest
  {
    rest := "type=" + QueryTypeName(queryType);
  }

  lemma UrlAfterScheme(dns: string, domain: string, queryType: QueryType, tail: string)
    requires tail == "resolve?name=" + domain + "&type=" + QueryTypeName(queryType)
    ensures ResolveUrl(dns, domain, queryType)[8..] == dns + ['/'] + tail
  {
    var rest := dns + ['/'] + tail;
    assert ResolveUrl(dns, domain, queryType) == "https://" + rest;
  }

  /** Text before the first separator, and the text after it, are fixed by
      the whole. */
  lemma SeparatedParts(a1: string, b1: string, a2: string, b2: string, sep: char)
    requires sep !in a1 && sep !in a2
    requires a1 + [sep] + b1 == a2 + [sep] + b2
    ensures a1 == a2 && b1 == b2
  {
    SplitAround(a1, b1, sep);
    SplitAround(a2, b2, sep);
    SplitNoSep(a1, sep);
    SplitNoSep(a2, sep);
    assert a1 == Split(a1 + [sep] + b1, sep)[0];
    assert b1 == (a1 + [sep] + b1)[|a1| + 1..];
    assert b2 == (a2 + [sep] + b2)[|a2| + 1..];
  }
}
