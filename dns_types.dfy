/**
 * The record shape shared by every transport, the two query types and the
 * rendering of numeric record types (services/dns/types.ts,
 * services/dns/utils.ts).
 */
module DnsTypes {
  import opened JsText

  /** One answer: `type` is a textual token and `data` the rendered RDATA. */
  datatype DNSRecord = DNSRecord(name: string, rtype: string, ttl: int, data: string)

  /** The `QueryType` union `'A' | 'AAAA'`. */
  datatype QueryType = A | AAAA

  function QueryTypeName(q: QueryType): string {
    match q
    case A => "A"
    case AAAA => "AAAA"
  }

  /** `isDNSQueryType`: membership in `['A', 'AAAA']`, exact and case-sensitive. */
  function IsDNSQueryType(value: string): (b: bool)
    ensures b <==> exists q: QueryType :: QueryTypeName(q) == value
  {
    assert QueryTypeName(A) == "A" && QueryTypeName(AAAA) == "AAAA";
    value in ["A", "AAAA"]
  }

  /** The record-type token for a numeric type code. */
  function StringifyDNSType(code: int): string {
    match code
    case 1 => "A"
    case 28 => "AAAA"
    case 5 => "CNAME"
    case 15 => "MX"
    case 16 => "TXT"
    case _ => "TYPE" + IntToString(code)
  }

  /** The five named codes and the `TYPE<n>` fallback. */
  lemma StringifyDNSTypeTable(code: int)
    ensures StringifyDNSType(code) == "A" <==> code == 1
    ensures StringifyDNSType(code) == "AAAA" <==> code == 28
    ensures StringifyDNSType(code) == "CNAME" <==> code == 5
    ensures StringifyDNSType(code) == "MX" <==> code == 15
    ensures StringifyDNSType(code) == "TXT" <==> code == 16
    ensures code !in {1, 28, 5, 15, 16} <==> "TYPE" <= StringifyDNSType(code)
  {
    var s := StringifyDNSType(code);
    if code !in {1, 28, 5, 15, 16} {
      assert s == "TYPE" + IntToString(code);
    } else if code == 16 {
      assert |s| < 4;
    } else {
      assert s[0] != 'T';
    }
  }

  /** Different codes never share a token: a named token never begins with
      `TYPE`, and decimal renderings are unique. */
  lemma StringifyDNSTypeInjective(a: int, b: int)
    ensures StringifyDNSType(a) == StringifyDNSType(b) ==> a == b
  {
    StringifyDNSTypeTable(a);
    StringifyDNSTypeTable(b);
    if a !in {1, 28, 5, 15, 16} && b !in {1, 28, 5, 15, 16} && StringifyDNSType(a) == StringifyDNSType(b) {
      assert ("TYPE" + IntToString(a))[4..] == IntToString(a);
      assert ("TYPE" + IntToString(b))[4..] == IntToString(b);
      IntToStringInjective(a, b);
    }
  }
}

/**
 * The two transports a test request can name (app/api/test/types.ts).
 */
module TestTypes {

  /** The `DNSType` union `'resolve' | 'dns-query'`. */
  datatype DNSType = Resolve | DnsQuery

  function DNSTypeName(t: DNSType): string {
    match t
    case Resolve => "resolve"
    case DnsQuery => "dns-query"
  }

  /** `isDNSType`: membership in `['resolve', 'dns-query']`, exact and case-sensitive. */
  function IsDNSType(value: string): (b: bool)
    ensures b <==> exists t: DNSType :: DNSTypeName(t) == value
  {
    assert DNSTypeName(Resolve) == "resolve" && DNSTypeName(DnsQuery) == "dns-query";
    value in ["resolve", "dns-query"]
  }
}
