/**
 * The DoH client of services/dns/fetch-dns-query.ts: the `dns-query` request
 * and the decoder `parseDNSResponse` that reads the answer section of an
 * RFC 1035 message back into records.  Names may use the compression pointers
 * of RFC 1035 section 4.1.4; RDATA is rendered as dotted decimal for type 1,
 * as colon-separated hex for type 28 (RFC 3596 section 2.1) and as one
 * character per byte otherwise.  The decoder does no bounds checks of its own:
 * every read past the end is the `RangeError` of the `DataView` or
 * `Uint8Array` access, and a pointer cycle recurses until the call stack
 * overflows, which the model bounds by a fuel count of nested pointer calls
 * (the buffer length); the engine's own, shallower stack limit is not modelled.
 */
module FetchDnsQuery {
  import opened JsText
  import opened Bytes
  import opened DnsTypes
  import opened DnsMessage

  // ---------------------------------------------------------------------
  // parseName
  // ---------------------------------------------------------------------

  /** `((length & 0x3f) << 8) | next` for a length byte with both top bits
      set: a 14-bit offset into the message. */
  function Pointer(length: byte, next: byte): (p: nat)
    requires length >= 0xC0
    ensures p < 0x4000
  {
    (length - 0xC0) * 0x100 + next
  }

  /** What `parseName(view, offset)` returns when at most `fuel` pointer calls
      may be nested: each inline label's characters followed by `.`; at a
      pointer, the name found there, and the cursor just past the two pointer
      bytes; at a zero byte, the cursor just past it.  A length byte with only
      one of the top two bits set is read as a label length. */
  function NameAt(buf: seq<byte>, offset: nat, fuel: nat): (r: Result<(string, nat)>)
    decreases fuel, |buf| - offset
  {
    if offset >= |buf| then Err(OutOfRange)
    else if buf[offset] == 0 then Ok(("", offset + 1))
    else if buf[offset] >= 0xC0 then
      if offset + 1 >= |buf| then Err(OutOfRange)
      else if fuel == 0 then Err(CallStackExceeded)
      else
        var pointed :- NameAt(buf, Pointer(buf[offset], buf[offset + 1]), fuel - 1);
        Ok((pointed.0, offset + 2))
    else if offset + 1 + buf[offset] > |buf| then Err(OutOfRange)
    else
      var length := buf[offset];
      Prepend(Latin1(buf[offset + 1..offset + 1 + length]) + ".", NameAt(buf, offset + 1 + length, fuel))
  }

  /** A name read successfully ends after where it starts and within the
      message. */
  lemma {:induction false} NameAtEnd(buf: seq<byte>, offset: nat, fuel: nat)
    requires NameAt(buf, offset, fuel).Ok?
    ensures offset < NameAt(buf, offset, fuel).value.1 <= |buf|
    decreases fuel, |buf| - offset
  {
    if buf[offset] != 0 && buf[offset] < 0xC0 {
      NameAtEnd(buf, offset + 1 + buf[offset], fuel);
    }
  }

  lemma PrependErr(prefix: string, e: Error)
    ensures Prepend(prefix, Err(e)) == Err(e)
  {
  }

  /** One inline label read at `at`, with the cursor moved to `next`. */
  lemma NameLabelStep(buf: seq<byte>, at: nat, next: nat, fuel: nat, prefix: string, text: string)
    requires at < |buf| && 0 < buf[at] < 0xC0 && next == at + 1 + buf[at] <= |buf|
    requires text == Latin1(buf[at + 1..next]) + "."
    ensures Prepend(prefix, NameAt(buf, at, fuel)) == Prepend(prefix + text, NameAt(buf, next, fuel))
  {
    PrependPrepend(prefix, text, NameAt(buf, next, fuel));
  }

  /** The terminating zero byte at `at`, with the cursor moved to `next`. */
  lemma NameEndStep(buf: seq<byte>, at: nat, next: nat, fuel: nat, prefix: string)
    requires at < |buf| && buf[at] == 0 && next == at + 1
    ensures Prepend(prefix, NameAt(buf, at, fuel)) == Ok((prefix, next))
  {
    assert prefix + "" == prefix;
  }

  /** A pointer at `at` to a name that reads as `pointed`, with the cursor
      moved to `next`, past the two pointer bytes. */
  lemma NamePointerStep(buf: seq<byte>, at: nat, next: nat, fuel: nat, prefix: string, pointed: (string, nat))
    requires at + 1 < |buf| && buf[at] >= 0xC0 && fuel > 0 && next == at + 2
    requires NameAt(buf, Pointer(buf[at], buf[at + 1]), fuel - 1) == Ok(pointed)
    ensures Prepend(prefix, NameAt(buf, at, fuel)) == Ok((prefix + pointed.0, next))
  {
  }

  /** `parseName(view, offset)`: a cursor over inline labels that accumulates
      the name, and a recursive call at a pointer, which ends the name. */
  method ParseName(view: seq<byte>, start: nat, fuel: nat) returns (r: Result<(string, nat)>)
    ensures r == NameAt(view, start, fuel)
    decreases fuel
  {
    var name := "";
    var offset := start;
    PrependEmpty(NameAt(view, start, fuel));
    while true
      invariant Prepend(name, NameAt(view, offset, fuel)) == NameAt(view, start, fuel)
      decreases |view| - offset
    {
      if offset >= |view| {
        PrependErr(name, OutOfRange);
        return Err(OutOfRange);
      }
      var length := view[offset];
      ghost var at, before := offset, name;
      if length == 0 {
        offset := offset + 1;
        NameEndStep(view, at, offset, fuel, name);
        break;
      }
      if length >= 0xC0 {
        if offset + 1 >= |view| {
          PrependErr(name, OutOfRange);
          return Err(OutOfRange);
        }
        if fuel == 0 {
          PrependErr(name, CallStackExceeded);
          return Err(CallStackExceeded);
        }
        var pointed := ParseName(view, Pointer(length, view[offset + 1]), fuel - 1);
        if pointed.Err? {
          PrependErr(name, pointed.error);
          return Err(pointed.error);
        }
        name := name + pointed.value.0;
        offset := offset + 2;
        NamePointerStep(view, at, offset, fuel, before, pointed.value);
        break;
      }
      offset := offset + 1;
      if offset + length > |view| {
        PrependErr(name, OutOfRange);
        return Err(OutOfRange);
      }
      var text := Latin1(view[offset..offset + length]) + ".";
      name := name + text;
      offset := offset + length;
      NameLabelStep(view, at, offset, fuel, before, text);
    }
    return Ok((name, offset));
  }

  // ---------------------------------------------------------------------
  // skipQuestionSection
  // ---------------------------------------------------------------------

  /** Where `skipQuestionSection(view, offset)` leaves the cursor: every
      non-zero byte is taken as a label length and skipped with its label,
      then the zero byte and four bytes of QTYPE and QCLASS, which are not
      read and so may lie past the end. */
  function QuestionEnd(buf: seq<byte>, offset: nat): (r: Result<nat>)
    ensures r.Ok? ==> offset + 5 <= r.value <= |buf| + 4
    decreases |buf| - offset
  {
    if offset >= |buf| then Err(OutOfRange)
    else if buf[offset] == 0 then Ok(offset + 5)
    else QuestionEnd(buf, offset + buf[offset] + 1)
  }

  method SkipQuestionSection(view: seq<byte>, start: nat) returns (r: Result<nat>)
    ensures r == QuestionEnd(view, start)
  {
    var offset := start;
    while true
      invariant QuestionEnd(view, offset) == QuestionEnd(view, start)
      decreases |view| - offset
    {
      if offset >= |view| {
        return Err(OutOfRange);
      }
      if view[offset] == 0 {
        break;
      }
      offset := offset + view[offset] + 1;
    }
    offset := offset + 1;
    return Ok(offset + 4);
  }

  // ---------------------------------------------------------------------
  // RDATA: parseIPv4, parseIPv6, parseRawData
  // ---------------------------------------------------------------------

  /** `parseIPv4`: the bytes in decimal, joined by `.`. */
  function ParseIPv4(bytes: seq<byte>): string {
    DottedDecimal(bytes)
  }

  /** The `reduce` of `parseIPv6`: each byte as two lower-case hex digits,
      with a `:` in front of every byte at an even index. */
  function Ipv6Acc(bytes: seq<byte>): string
    decreases |bytes|
  {
    if bytes == [] then []
    else
      var i := |bytes| - 1;
      Ipv6Acc(bytes[..i]) + (if i % 2 == 0 then ":" else "") + Hex2(bytes[i])
  }

  /** `parseIPv6`: the reduction without its first character. */
  function ParseIPv6(bytes: seq<byte>): string {
    var ip := Ipv6Acc(bytes);
    if ip == [] then [] else ip[1..]
  }

  /** `parseRawData`: one character per byte. */
  function ParseRawData(bytes: seq<byte>): string {
    Latin1(bytes)
  }

  /** The text of RDATA by numeric type. */
  function RDataText(code: nat, bytes: seq<byte>): string {
    if code == 1 then ParseIPv4(bytes)
    else if code == 28 then ParseIPv6(bytes)
    else ParseRawData(bytes)
  }

  // ---------------------------------------------------------------------
  // parseResourceRecord
  // ---------------------------------------------------------------------

  /** What `parseResourceRecord(view, offset)` returns: the owner name, TYPE
      as a token, TTL, the rendered RDATA, and the offset after RDATA.  CLASS
      is skipped without being read. */
  function RecordAt(buf: seq<byte>, offset: nat, fuel: nat): Result<(DNSRecord, nat)> {
    var name :- NameAt(buf, offset, fuel);
    var fields :- FieldsAt(buf, name.1);
    Ok((Render(name.0, fields.0, fields.1, fields.2), name.1 + 10 + |fields.2|))
  }

  /** A record read successfully spans at least a one-byte name and ten bytes
      of fixed fields, and ends within the message. */
  lemma RecordAtEnd(buf: seq<byte>, offset: nat, fuel: nat)
    requires RecordAt(buf, offset, fuel).Ok?
    ensures offset + 11 <= RecordAt(buf, offset, fuel).value.1 <= |buf|
  {
    NameAtEnd(buf, offset, fuel);
  }

  /** The record returned for a name, a numeric type, a TTL and RDATA. */
  function Render(name: string, code: nat, ttl: nat, rdata: seq<byte>): DNSRecord {
    DNSRecord(name, StringifyDNSType(code), ttl, RDataText(code, rdata))
  }

  /** TYPE, TTL and the RDATA bytes of the record whose name ends at `at`. */
  function FieldsAt(buf: seq<byte>, at: nat): (r: Result<(nat, nat, seq<byte>)>)
    ensures r.Ok? ==> at + 10 + |r.value.2| <= |buf|
  {
    var code :- GetU16(buf, at);
    var ttl :- GetU32(buf, at + 4);
    var rdLength :- GetU16(buf, at + 8);
    var bytes :- Slice(buf, at + 10, rdLength);
    Ok((code, ttl, bytes))
  }

  /** `parseResourceRecord(view, offset)`, each name read with the fuel of
      the whole message. */
  method ParseResourceRecord(view: seq<byte>, start: nat) returns (r: Result<(DNSRecord, nat)>)
    ensures r == RecordAt(view, start, |view|)
  {
    var parsed := ParseName(view, start, |view|);
    if parsed.Err? {
      return Err(parsed.error);
    }
    var name := parsed.value.0;
    var offset := parsed.value.1;
    var code := GetU16(view, offset);
    if code.Err? {
      return Err(code.error);
    }
    offset := offset + 2;
    offset := offset + 2;
    var ttl := GetU32(view, offset);
    if ttl.Err? {
      return Err(ttl.error);
    }
    offset := offset + 4;
    var rdLength := GetU16(view, offset);
    if rdLength.Err? {
      return Err(rdLength.error);
    }
    offset := offset + 2;
    var bytes := Slice(view, offset, rdLength.value);
    if bytes.Err? {
      return Err(bytes.error);
    }
    var data := RDataText(code.value, bytes.value);
    ghost var at := parsed.value.1;
    assert FieldsAt(view, at) == Ok((code.value, ttl.value, bytes.value));
    offset := offset + rdLength.value;
    return Ok((DNSRecord(name, StringifyDNSType(code.value), ttl.value, data), offset));
  }

  // ---------------------------------------------------------------------
  // parseDNSResponse
  // ---------------------------------------------------------------------

  /** The cursor after `count` questions from `offset`. */
  function SkipQuestions(buf: seq<byte>, offset: nat, count: nat): (r: Result<nat>)
    ensures r.Ok? ==> offset + 5 * count <= r.value
    decreases count
  {
    if count == 0 then Ok(offset)
    else
      var next :- QuestionEnd(buf, offset);
      SkipQuestions(buf, next, count - 1)
  }

  /** The records `done` already read, then more read one after another from
      `offset` until there are `count`. */
  function Answers(buf: seq<byte>, offset: nat, count: nat, fuel: nat, done: seq<DNSRecord>): (r: Result<seq<DNSRecord>>)
    requires |done| <= count
    ensures r.Ok? ==> |r.value| == count
    decreases count - |done|
  {
    if |done| == count then Ok(done)
    else
      var first :- RecordAt(buf, offset, fuel);
      Answers(buf, first.1, count, fuel, done + [first.0])
  }

  lemma AnswersStep(buf: seq<byte>, offset: nat, count: nat, fuel: nat, done: seq<DNSRecord>)
    requires |done| < count && RecordAt(buf, offset, fuel).Ok?
    ensures Answers(buf, offset, count, fuel, done)
         == Answers(buf, RecordAt(buf, offset, fuel).value.1, count, fuel, done + [RecordAt(buf, offset, fuel).value.0])
  {
  }

  lemma AnswersFail(buf: seq<byte>, offset: nat, count: nat, fuel: nat, done: seq<DNSRecord>)
    requires |done| < count && RecordAt(buf, offset, fuel).Err?
    ensures Answers(buf, offset, count, fuel, done) == Err(RecordAt(buf, offset, fuel).error)
  {
  }

  /** What `parseDNSResponse(buffer)` returns: QDCOUNT questions skipped from
      offset 12, then exactly ANCOUNT records in wire order. */
  function DecodeResponse(buf: seq<byte>): (r: Result<seq<DNSRecord>>)
    ensures r.Ok? ==> 8 <= |buf| && |r.value| == Be16(buf[6], buf[7])
  {
    var questionCount :- GetU16(buf, 4);
    var answerCount :- GetU16(buf, 6);
    var offset :- SkipQuestions(buf, 12, questionCount);
    Answers(buf, offset, answerCount, |buf|, [])
  }

  /** `parseDNSResponse(buffer)`: the header counts, one loop over the
      questions, then the loop over the answers. */
  method ParseDNSResponse(buffer: seq<byte>) returns (r: Result<seq<DNSRecord>>)
    ensures r == DecodeResponse(buffer)
  {
    if 8 > |buffer| {
      return Err(OutOfRange);
    }
    var questionCount := Be16(buffer[4], buffer[5]);
    var answerCount := Be16(buffer[6], buffer[7]);
    var offset := 12;
    for i := 0 to questionCount
      invariant SkipQuestions(buffer, offset, questionCount - i) == SkipQuestions(buffer, 12, questionCount)
    {
      var next := SkipQuestionSection(buffer, offset);
      if next.Err? {
        return Err(next.error);
      }
      offset := next.value;
    }
    assert SkipQuestions(buffer, 12, questionCount) == Ok(offset);
    r := ParseAnswers(buffer, offset, answerCount);
  }

  /** The answer loop of `parseDNSResponse`: `count` records from `start`,
      each pushed in turn. */
  method ParseAnswers(buffer: seq<byte>, start: nat, count: nat) returns (r: Result<seq<DNSRecord>>)
    ensures r == Answers(buffer, start, count, |buffer|, [])
  {
    var offset := start;
    var records: seq<DNSRecord> := [];
    for i := 0 to count
      invariant |records| == i
      invariant Answers(buffer, offset, count, |buffer|, records) == Answers(buffer, start, count, |buffer|, [])
    {
      var parsed := ParseResourceRecord(buffer, offset);
      if parsed.Err? {
        AnswersFail(buffer, offset, count, |buffer|, records);
        return Err(parsed.error);
      }
      AnswersStep(buffer, offset, count, |buffer|, records);
      records := records + [parsed.value.0];
      offset := parsed.value.1;
    }
    return Ok(records);
  }

  // ---------------------------------------------------------------------
  // fetchDNSQuery
  // ---------------------------------------------------------------------

  /** The parts of a `fetch` call the client sets. */
  datatype HttpRequest = HttpRequest(url: string, verb: string, contentType: string, body: seq<byte>)

  /** What the client reads of a `fetch` response. */
  datatype HttpResponse = HttpResponse(ok: bool, status: int, body: seq<byte>)

  const MissingArguments: string := "DNS and domain are required"

  /** The POST of a wire-format query to `https://<dns>/dns-query`
      (RFC 8484 section 4.1). */
  function QueryRequest(dns: string, domain: string, queryType: QueryType): HttpRequest {
    HttpRequest("https://" + dns + "/dns-query", "POST", "application/dns-message",
      GenerateDNSMessage(domain, queryType))
  }

  /** `fetchDNSQuery(dns, domain, queryType)`, with `fetch` as `send`: an
      error from `send` is the rejected promise, passed on unchanged. */
  function FetchDNSQuery(dns: string, domain: string, queryType: QueryType,
                         send: HttpRequest -> Result<HttpResponse>): (r: Result<seq<DNSRecord>>)
    ensures r.Ok? ==> dns != [] && domain != []
  {
    if dns == [] || domain == [] then Err(Thrown(MissingArguments))
    else
      var response :- send(QueryRequest(dns, domain, queryType));
      if !response.ok then Err(Thrown("Failed: " + IntToString(response.status)))
      else DecodeResponse(response.body)
  }

  /** A missing argument is refused before any request: whatever `send`
      would answer, the call fails with the same message. */
  lemma QueryNeedsArguments(dns: string, domain: string, queryType: QueryType,
                            send: HttpRequest -> Result<HttpResponse>)
    requires dns == [] || domain == []
    ensures FetchDNSQuery(dns, domain, queryType, send) == Err(Thrown("DNS and domain are required"))
  {
  }

  /** The one request made is `QueryRequest`: two transports that answer it
      alike give the same result. */
  lemma QueryOnlyRequest(dns: string, domain: string, queryType: QueryType,
                         send1: HttpRequest -> Result<HttpResponse>, send2: HttpRequest -> Result<HttpResponse>)
    requires send1(QueryRequest(dns, domain, queryType)) == send2(QueryRequest(dns, domain, queryType))
    ensures FetchDNSQuery(dns, domain, queryType, send1) == FetchDNSQuery(dns, domain, queryType, send2)
  {
  }

  /** A response that is not ok fails with its status, whatever its body. */
  lemma QueryFailedStatus(dns: string, domain: string, queryType: QueryType,
                          send: HttpRequest -> Result<HttpResponse>, status: int, body: seq<byte>)
    requires dns != [] && domain != []
    requires send(QueryRequest(dns, domain, queryType)) == Ok(HttpResponse(false, status, body))
    ensures FetchDNSQuery(dns, domain, queryType, send) == Err(Thrown("Failed: " + IntToString(status)))
  {
  }

  /** An ok response is decoded by `parseDNSResponse`. */
  lemma QueryDecodes(dns: string, domain: string, queryType: QueryType,
                     send: HttpRequest -> Result<HttpResponse>, status: int, body: seq<byte>)
    requires dns != [] && domain != []
    requires send(QueryRequest(dns, domain, queryType)) == Ok(HttpResponse(true, status, body))
    ensures FetchDNSQuery(dns, domain, queryType, send) == DecodeResponse(body)
  {
  }

  // ---------------------------------------------------------------------
  // Decoded names
  // ---------------------------------------------------------------------

  /** Empty, or ending in the `.` that `parseName` appends to every label. */
  predicate Dotted(name: string) {
    name == [] || name[|name| - 1] == '.'
  }

  /** Every name `parseName` returns is dotted: each inline label is followed
      by `.`, and a pointer appends a name that is dotted in turn. */
  lemma {:induction false} NameAtDotted(buf: seq<byte>, offset: nat, fuel: nat)
    requires NameAt(buf, offset, fuel).Ok?
    ensures Dotted(NameAt(buf, offset, fuel).value.0)
    decreases fuel, |buf| - offset
  {
    if buf[offset] >= 0xC0 {
      NameAtDotted(buf, Pointer(buf[offset], buf[offset + 1]), fuel - 1);
    } else if buf[offset] != 0 {
      var next := offset + 1 + buf[offset];
      NameAtDotted(buf, next, fuel);
      var text := Latin1(buf[offset + 1..next]) + ".";
      var rest := NameAt(buf, next, fuel).value.0;
      assert NameAt(buf, offset, fuel).value.0 == text + rest;
    }
  }

  /** Every record read after `done` has a dotted name when those in `done`
      have. */
  lemma {:induction false} AnswersDotted(buf: seq<byte>, offset: nat, count: nat, fuel: nat, done: seq<DNSRecord>)
    requires |done| <= count
    requires forall i :: 0 <= i < |done| ==> Dotted(done[i].name)
    requires Answers(buf, offset, count, fuel, done).Ok?
    ensures forall i :: 0 <= i < count ==> Dotted(Answers(buf, offset, count, fuel, done).value[i].name)
    decreases count - |done|
  {
    if |done| < count {
      var first := RecordAt(buf, offset, fuel).value;
      NameAtDotted(buf, offset, fuel);
      var more := done + [first.0];
      assert forall i :: 0 <= i < |more| ==> Dotted(more[i].name) by {
        forall i | 0 <= i < |more| ensures Dotted(more[i].name) {
          if i < |done| {
            assert more[i] == done[i];
          }
        }
      }
      AnswersDotted(buf, first.1, count, fuel, more);
    }
  }

  /** Every record `parseDNSResponse` returns has a dotted name, so upstream
      names come back with a trailing `.` (unless empty). */
  lemma DecodedNamesDotted(buf: seq<byte>)
    requires DecodeResponse(buf).Ok?
    ensures forall r :: r in DecodeResponse(buf).value ==> Dotted(r.name)
  {
    var offset := SkipQuestions(buf, 12, Be16(buf[4], buf[5])).value;
    AnswersDotted(buf, offset, Be16(buf[6], buf[7]), |buf|, []);
  }
}
