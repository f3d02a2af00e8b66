/**
 * The DoH endpoint of app/dns-query/route.ts: an authorised POST carries a
 * wire-format query; the answer is the hosts-file records with exactly that
 * name and type, followed by every record the upstream resolver 1.1.1.1
 * returns, written as one response message (RFC 8484 section 4.2, media type
 * `application/dns-message` of section 6).  The access check, the stored
 * hosts file and the upstream transport are inputs.
 */
module DnsQueryRoute {
  import opened JsText
  import opened Bytes
  import opened DnsTypes
  import opened DnsMessage
  import opened ResponseLayout
  import opened FetchDnsQuery
  import opened Hosts

  /** The resolver every query is forwarded to. */
  const UpstreamDns: string := "1.1.1.1"

  /** The media type of the response body. */
  const DnsMessageType: string := "application/dns-message"

  /** What the handler returns: the 401 JSON body, or a message body sent
      with its `Content-Type`. */
  datatype RouteResponse =
    | JsonError(status: int, error: string)
    | MessageResponse(contentType: string, body: seq<byte>)

  /** The filter of the handler: the record's name is the queried domain and
      its type token the query type, both compared exactly. */
  predicate Matches(query: DNSQuery, record: DNSRecord) {
    record.name == query.domain && record.rtype == QueryTypeName(query.queryType)
  }

  /** `hostsRecords.filter(...)`: the matching records, in their order. */
  function Overrides(records: seq<DNSRecord>, query: DNSQuery): (rs: seq<DNSRecord>)
    ensures |rs| <= |records|
    ensures forall r :: r in rs ==> r in records && Matches(query, r)
  {
    if records == [] then []
    else (if Matches(query, records[0]) then [records[0]] else []) + Overrides(records[1..], query)
  }

  /** `POST`: the access check first; then the query parsed from the body,
      the hosts file read and filtered, the upstream asked, and the
      overrides followed by the upstream records encoded.  Any error thrown
      on the way is passed on. */
  function Post(authorized: bool, body: seq<byte>, hostsContent: Result<string>,
                send: HttpRequest -> Result<HttpResponse>): Result<RouteResponse>
  {
    if !authorized then Ok(JsonError(401, "Unauthorized"))
    else
      var query :- ParseQuery(body);
      var content :- hostsContent;
      var overrides := Overrides(HostsRecords(content, DefaultTtl), query);
      var fallback :- FetchDNSQuery(UpstreamDns, query.domain, query.queryType, send);
      var message :- EncodeResponse(overrides + fallback);
      Ok(MessageResponse(DnsMessageType, message))
  }

  // ---------------------------------------------------------------------
  // Properties
  // ---------------------------------------------------------------------

  /** Every hosts record that matches is kept: with the contract of
      `Overrides`, a record is an override exactly when it is a matching
      hosts record. */
  lemma {:induction false} OverridesComplete(records: seq<DNSRecord>, query: DNSQuery, record: DNSRecord)
    requires record in records && Matches(query, record)
    ensures record in Overrides(records, query)
  {
    if record != records[0] {
      OverridesComplete(records[1..], query, record);
    }
  }

  /** The filter keeps the order of the records: it distributes over
      concatenation. */
  lemma {:induction false} OverridesAppend(a: seq<DNSRecord>, b: seq<DNSRecord>, query: DNSQuery)
    ensures Overrides(a + b, query) == Overrides(a, query) + Overrides(b, query)
    decreases |a|
  {
    if a != [] {
      assert (a + b)[0] == a[0];
      assert (a + b)[1..] == a[1..] + b;
      OverridesAppend(a[1..], b, query);
      var head := if Matches(query, a[0]) then [a[0]] else [];
      assert Overrides(a + b, query) == head + Overrides(a[1..] + b, query);
      assert Overrides(a, query) == head + Overrides(a[1..], query);
      AppendAssoc(head, Overrides(a[1..], query), Overrides(b, query));
    } else {
      assert a + b == b;
    }
  }

  /** Without access the answer is the 401 JSON error, and it depends on
      nothing else: the body, the store and the upstream are not used. */
  lemma PostUnauthorized(body: seq<byte>, hostsContent: Result<string>, send: HttpRequest -> Result<HttpResponse>)
    ensures Post(false, body, hostsContent, send) == Ok(JsonError(401, "Unauthorized"))
  {
  }

  /** The upstream is asked even when the hosts file answers the query: its
      failure is the handler's failure. */
  lemma PostUpstreamAlwaysAsked(body: seq<byte>, content: string, send: HttpRequest -> Result<HttpResponse>,
                                query: DNSQuery, e: Error)
    requires ParseQuery(body) == Ok(query) && query.domain != []
    requires send(QueryRequest(UpstreamDns, query.domain, query.queryType)) == Err(e)
    ensures Post(true, body, Ok(content), send) == Err(e)
  {
  }

  /** An answered query is the message encoding the overrides followed by
      the upstream records, without deduplication, under the
      `application/dns-message` media type. */
  lemma PostAnswer(body: seq<byte>, content: string, send: HttpRequest -> Result<HttpResponse>,
                   query: DNSQuery, overrides: seq<DNSRecord>, fallback: seq<DNSRecord>, message: seq<byte>)
    requires ParseQuery(body) == Ok(query)
    requires overrides == Overrides(HostsRecords(content, DefaultTtl), query)
    requires FetchDNSQuery(UpstreamDns, query.domain, query.queryType, send) == Ok(fallback)
    requires EncodeResponse(overrides + fallback) == Ok(message)
    ensures Post(true, body, Ok(content), send) == Ok(MessageResponse("application/dns-message", message))
  {
  }

  /** The header of that message counts the overrides and the upstream
      records together, modulo 2^16 as `setUint16` stores it. */
  lemma AnswerCount(overrides: seq<DNSRecord>, fallback: seq<DNSRecord>, message: seq<byte>)
    requires EncodeResponse(overrides + fallback) == Ok(message)
    ensures |message| >= 12 && Be16(message[6], message[7]) == (|overrides| + |fallback|) % 0x1_0000
  {
    ResponseHeaderFields(overrides + fallback);
  }

  /** Every upstream record has a dotted name. */
  lemma FallbackDotted(send: HttpRequest -> Result<HttpResponse>, query: DNSQuery, fallback: seq<DNSRecord>)
    requires FetchDNSQuery(UpstreamDns, query.domain, query.queryType, send) == Ok(fallback)
    ensures forall r :: r in fallback ==> Dotted(r.name)
  {
    DecodedNamesDotted(send(QueryRequest(UpstreamDns, query.domain, query.queryType)).value.body);
  }

  /** Upstream names come back dotted, so every non-empty upstream name is
      written again with an extra empty label: its labels, then two zero
      bytes. */
  lemma UpstreamNamesReencoded(send: HttpRequest -> Result<HttpResponse>, query: DNSQuery,
                               fallback: seq<DNSRecord>, record: DNSRecord)
    requires FetchDNSQuery(UpstreamDns, query.domain, query.queryType, send) == Ok(fallback)
    requires record in fallback && record.name != []
    ensures NameWrites(record.name) == ConcatMap(Split(DropLast(record.name), '.'), AnswerLabel) + [0, 0]
  {
    FallbackDotted(send, query, fallback);
    DottedName(record.name);
  }

  lemma DottedName(name: string)
    requires Dotted(name) && name != []
    ensures NameWrites(name) == ConcatMap(Split(DropLast(name), '.'), AnswerLabel) + [0, 0]
  {
    var stem := DropLast(name);
    assert name == stem + ".";
    TrailingDotName(stem);
  }
}
