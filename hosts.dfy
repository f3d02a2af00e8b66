/**
 * Hosts-file text to answer records (services/dns/hosts.ts): every line
 * `ip name1 name2 ...` gives one record per name, typed AAAA when the
 * address holds a `:` and A otherwise, with the caller's TTL.
 */
module Hosts {
  import opened JsText
  import opened Bytes
  import opened DnsTypes
  import opened DnsMessage
  import opened ResponseLayout

  /** The default `ttl` parameter. */
  const DefaultTtl: int := 300

  /** `line.split('#')[0].trim()`: the line without its comment. */
  function CleanLine(line: string): string {
    Trim(Split(line, '#')[0])
  }

  /** `ip.includes(':') ? 'AAAA' : 'A'`; the address is not validated. */
  function AddressType(ip: string): (t: string)
    ensures t == "AAAA" <==> ':' in ip
    ensures t == "A" <==> ':' !in ip
  {
    if ':' in ip then "AAAA" else "A"
  }

  /** One record per host name, in order, all carrying `ip`. */
  function HostRecords(ip: string, hostnames: seq<string>, ttl: int): (rs: seq<DNSRecord>)
    ensures |rs| == |hostnames|
    decreases |hostnames|
  {
    if hostnames == [] then []
    else HostRecords(ip, hostnames[..|hostnames| - 1], ttl)
         + [DNSRecord(hostnames[|hostnames| - 1], AddressType(ip), ttl, ip)]
  }

  /** The i-th record is the i-th host name with the line's address. */
  lemma {:induction false} HostRecordsAt(ip: string, hostnames: seq<string>, ttl: int, i: nat)
    requires i < |hostnames|
    ensures HostRecords(ip, hostnames, ttl)[i] == DNSRecord(hostnames[i], AddressType(ip), ttl, ip)
    decreases |hostnames|
  {
    if i < |hostnames| - 1 {
      HostRecordsAt(ip, hostnames[..|hostnames| - 1], ttl, i);
    }
  }

  /** The records one line contributes: none for a blank or comment-only
      line or for a line of fewer than two tokens. */
  function LineRecords(line: string, ttl: int): seq<DNSRecord> {
    var clean := CleanLine(line);
    if clean == [] then []
    else
      var parts := SplitSpaces(clean);
      if |parts| < 2 then [] else HostRecords(parts[0], parts[1..], ttl)
  }

  /** `xs.flatMap(f)`, built from the left. */
  function FlatMap<T, U>(xs: seq<T>, f: T -> seq<U>): seq<U>
    decreases |xs|
  {
    if xs == [] then [] else FlatMap(xs[..|xs| - 1], f) + f(xs[|xs| - 1])
  }

  /** The records of the lines, in line order. */
  function LinesRecords(lines: seq<string>, ttl: int): seq<DNSRecord> {
    FlatMap(lines, line => LineRecords(line, ttl))
  }

  /** What `hostsToDNSRecords(hostsContent, ttl)` returns. */
  function HostsRecords(content: string, ttl: int): seq<DNSRecord> {
    LinesRecords(Split(content, '\n'), ttl)
  }

  /** `hostsToDNSRecords`: the loop over lines; the loop over the host names
      of a line is `PushHosts`. */
  method HostsToDNSRecords(content: string, ttl: int) returns (records: seq<DNSRecord>)
    ensures records == HostsRecords(content, ttl)
  {
    records := [];
    var lines := Split(content, '\n');
    for i := 0 to |lines|
      invariant records == LinesRecords(lines[..i], ttl)
    {
      LinesRecordsStep(lines, i, ttl);
      var cleanLine := CleanLine(lines[i]);
      var parts := SplitSpaces(cleanLine);
      LineRecordsCases(lines[i], cleanLine, parts, ttl);
      if cleanLine == [] {
        continue;
      }
      if |parts| < 2 {
        continue;
      }
      var ip := parts[0];
      var hostnames := parts[1..];
      var rtype := if ':' in ip then "AAAA" else "A";
      records := PushHosts(records, ip, rtype, hostnames, ttl);
    }
    assert lines[..|lines|] == lines;
  }

  /** The inner loop of `hostsToDNSRecords`: one record pushed per host name. */
  method PushHosts(records: seq<DNSRecord>, ip: string, rtype: string, hostnames: seq<string>, ttl: int)
    returns (pushed: seq<DNSRecord>)
    requires rtype == AddressType(ip)
    ensures pushed == records + HostRecords(ip, hostnames, ttl)
  {
    pushed := records;
    for j := 0 to |hostnames|
      invariant pushed == records + HostRecords(ip, hostnames[..j], ttl)
    {
      HostRecordsStep(ip, hostnames, j, ttl);
      pushed := pushed + [DNSRecord(hostnames[j], rtype, ttl, ip)];
    }
    assert hostnames[..|hostnames|] == hostnames;
  }

  /** The records of one more line follow those of the lines before it. */
  lemma LinesRecordsStep(lines: seq<string>, i: nat, ttl: int)
    requires i < |lines|
    ensures LinesRecords(lines[..i + 1], ttl) == LinesRecords(lines[..i], ttl) + LineRecords(lines[i], ttl)
  {
    assert lines[..i + 1][..i] == lines[..i];
  }

  /** The cases of `LineRecords`, for a line already cleaned and split. */
  lemma LineRecordsCases(line: string, clean: string, parts: seq<string>, ttl: int)
    requires clean == CleanLine(line) && parts == SplitSpaces(clean)
    ensures clean == [] ==> LineRecords(line, ttl) == []
    ensures clean != [] && |parts| < 2 ==> LineRecords(line, ttl) == []
    ensures clean != [] && |parts| >= 2 ==> LineRecords(line, ttl) == HostRecords(parts[0], parts[1..], ttl)
  {
  }

  /** The record of one more host name follows those of the names before it. */
  lemma HostRecordsStep(ip: string, hostnames: seq<string>, j: nat, ttl: int)
    requires j < |hostnames|
    ensures HostRecords(ip, hostnames[..j + 1], ttl)
         == HostRecords(ip, hostnames[..j], ttl) + [DNSRecord(hostnames[j], AddressType(ip), ttl, ip)]
  {
    assert hostnames[..j + 1][..j] == hostnames[..j];
  }

  /** `hostsToDNSMessage`: the records written as a response message. */
  function HostsToDNSMessage(content: string, ttl: int): Result<seq<byte>> {
    EncodeResponse(HostsRecords(content, ttl))
  }

  // ---------------------------------------------------------------------
  // Properties
  // ---------------------------------------------------------------------

  /** Lines are processed independently and their records kept in order. */
  lemma LinesRecordsAppend(a: seq<string>, b: seq<string>, ttl: int)
    ensures LinesRecords(a + b, ttl) == LinesRecords(a, ttl) + LinesRecords(b, ttl)
  {
    FlatMapAppend(a, b, line => LineRecords(line, ttl));
  }

  lemma {:induction false} FlatMapAppend<T, U>(a: seq<T>, b: seq<T>, f: T -> seq<U>)
    ensures FlatMap(a + b, f) == FlatMap(a, f) + FlatMap(b, f)
    decreases |b|
  {
    if b == [] {
      assert a + b == a;
    } else {
      var init := b[..|b| - 1];
      assert (a + b)[..|a + b| - 1] == a + init;
      FlatMapAppend(a, init, f);
    }
  }

  /** The number of host names on the lines that give records. */
  function HostCount(lines: seq<string>): nat
    decreases |lines|
  {
    if lines == [] then 0
    else
      var clean := CleanLine(lines[|lines| - 1]);
      var parts := SplitSpaces(clean);
      HostCount(lines[..|lines| - 1]) + if clean == [] || |parts| < 2 then 0 else |parts| - 1
  }

  /** One record per host name: the output length is the sum over the lines
      of their token count less one. */
  lemma {:induction false} LinesRecordsCount(lines: seq<string>, ttl: int)
    ensures |LinesRecords(lines, ttl)| == HostCount(lines)
    decreases |lines|
  {
    if lines != [] {
      LinesRecordsCount(lines[..|lines| - 1], ttl);
    }
  }

  /** Every record carries the given TTL, and is AAAA exactly when its
      address holds a `:` and A otherwise. */
  lemma {:induction false} LinesRecordsShape(lines: seq<string>, ttl: int)
    ensures forall r :: r in LinesRecords(lines, ttl) ==>
      r.ttl == ttl && r.rtype == AddressType(r.data) && (r.rtype == "AAAA" <==> ':' in r.data)
    decreases |lines|
  {
    if lines != [] {
      LinesRecordsShape(lines[..|lines| - 1], ttl);
      var line := lines[|lines| - 1];
      forall r | r in LineRecords(line, ttl)
        ensures r.ttl == ttl && r.rtype == AddressType(r.data)
      {
        var parts := SplitSpaces(CleanLine(line));
        var k :| 0 <= k < |LineRecords(line, ttl)| && LineRecords(line, ttl)[k] == r;
        HostRecordsAt(parts[0], parts[1..], ttl, k);
      }
    }
  }

  /** Everything from the first `#` on is ignored. */
  lemma CommentIgnored(code: string, comment: string, ttl: int)
    requires '#' !in code
    ensures LineRecords(code + "#" + comment, ttl) == LineRecords(code, ttl)
  {
    SplitAround(code, comment, '#');
    SplitNoSep(code, '#');
  }

  /** Tokens without white space, joined by single spaces, split back. */
  lemma {:induction false} SplitSpacesJoin(tokens: seq<string>)
    requires |tokens| >= 1
    requires forall i :: 0 <= i < |tokens| ==> tokens[i] != [] && NoSpace(tokens[i])
    ensures SplitSpaces(Join(tokens, ' ')) == tokens
    decreases |tokens|
  {
    if |tokens| == 1 {
      SplitSpacesToken(tokens[0]);
    } else {
      var rest := tokens[1..];
      assert Join(tokens, ' ') == tokens[0] + " " + Join(rest, ' ');
      SplitSpacesJoin(rest);
      JoinFirst(rest, ' ');
      SplitSpacesAround(tokens[0], " ", Join(rest, ' '));
    }
  }

  /** A line `ip name1 ... namen` with n >= 1, every token free of white
      space and `#`, gives one record per name carrying `ip`. */
  lemma FormattedLine(ip: string, hostnames: seq<string>, ttl: int)
    requires |hostnames| >= 1
    requires ip != [] && NoSpace(ip) && '#' !in ip
    requires forall i :: 0 <= i < |hostnames| ==> hostnames[i] != [] && NoSpace(hostnames[i]) && '#' !in hostnames[i]
    ensures LineRecords(Join([ip] + hostnames, ' '), ttl) == HostRecords(ip, hostnames, ttl)
  {
    var tokens := [ip] + hostnames;
    var line := Join(tokens, ' ');
    forall i | 0 <= i < |tokens| ensures tokens[i] != [] && NoSpace(tokens[i]) && '#' !in tokens[i] {
      if i > 0 {
        assert tokens[i] == hostnames[i - 1];
      }
    }
    if '#' in line {
      JoinMembership(tokens, ' ', '#');
    }
    SplitNoSep(line, '#');
    JoinFirst(tokens, ' ');
    JoinLast(tokens);
    TrimUnchanged(line);
    SplitSpacesJoin(tokens);
    assert tokens[1..] == hostnames;
  }

  /** The last token of a join is its last character's source. */
  lemma {:induction false} JoinLast(tokens: seq<string>)
    requires |tokens| >= 1 && tokens[|tokens| - 1] != []
    ensures var s := Join(tokens, ' ');
      |s| > 0 && s[|s| - 1] == tokens[|tokens| - 1][|tokens[|tokens| - 1]| - 1]
    decreases |tokens|
  {
    if |tokens| > 1 {
      JoinLast(tokens[1..]);
    }
  }

  /** Empty content, or content of comments only, is the bare 12-byte
      header with no answers. */
  lemma NoRecordsMessage(content: string, ttl: int)
    requires HostsRecords(content, ttl) == []
    ensures HostsToDNSMessage(content, ttl) == Ok([0xAB, 0xCD, 0x81, 0x80, 0, 0, 0, 0, 0, 0, 0, 0])
  {
    EmptyResponse();
  }

  lemma EmptyContent(ttl: int)
    ensures HostsRecords("", ttl) == []
    ensures HostsToDNSMessage("", ttl) == Ok([0xAB, 0xCD, 0x81, 0x80, 0, 0, 0, 0, 0, 0, 0, 0])
  {
    var lines := Split("", '\n');
    assert lines == [""];
    assert LinesRecords(lines, ttl) == LinesRecords([], ttl) + LineRecords("", ttl);
    NoRecordsMessage("", ttl);
  }
}
