/**
 * The `application/dns-message` codec of services/dns/dns-message.ts: the
 * query a client sends (`generateDNSMessage`), the server's reading of it
 * (`parseDNSQuery`), and the synthetic response written into a pre-sized
 * buffer (`convertToDNSMessage`).  The layout is that of RFC 1035: a 12-byte
 * header (section 4.1.1), then the question (section 4.1.2) or the resource
 * records (section 4.1.3), names as length-prefixed labels ending in a zero
 * byte.
 */
module DnsMessage {
  import opened JsText
  import opened Bytes
  import opened DnsTypes

  // ---------------------------------------------------------------------
  // generateDNSMessage
  // ---------------------------------------------------------------------

  /** Transaction id AB CD, flags 01 00 (recursion desired), one question, no
      answer, authority or additional records. */
  const QueryHeader: seq<byte> := [0xAB, 0xCD, 0x01, 0x00, 0x00, 0x01, 0, 0, 0, 0, 0, 0]

  /** One label of the question name: its length, stored as a byte, then its
      UTF-8 bytes.  `|part|` counts code points where `part.length` counts
      UTF-16 units; the two differ only above U+FFFF. */
  function QuestionLabel(part: string): seq<byte> {
    [U8(|part|)] + Utf8(part)
  }

  function QueryTypeCode(queryType: QueryType): seq<byte> {
    if queryType == AAAA then [0x00, 0x1C] else [0x00, 0x01]
  }

  /** `generateDNSMessage(domain, queryType)`. */
  function GenerateDNSMessage(domain: string, queryType: QueryType): seq<byte> {
    QueryHeader + ConcatMap(Split(domain, '.'), QuestionLabel) + [0] + QueryTypeCode(queryType) + [0x00, 0x01]
  }

  /** The labels cost one byte each on top of the UTF-8 text of the name
      without its dots. */
  lemma {:induction false} QuestionLabelsLength(parts: seq<string>)
    requires |parts| >= 1
    ensures |ConcatMap(parts, QuestionLabel)| == |Utf8(Join(parts, '.'))| + 1
    decreases |parts|
  {
    ConcatMapCons(parts[0], parts[1..], QuestionLabel);
    assert [parts[0]] + parts[1..] == parts;
    if |parts| > 1 {
      QuestionLabelsLength(parts[1..]);
      ConcatMapAppend(parts[0] + ['.'], Join(parts[1..], '.'), Utf8Char);
      ConcatMapAppend(parts[0], ['.'], Utf8Char);
      assert ConcatMap(['.'], Utf8Char) == [0x2E] by {
        assert ['.'][..0] == [];
      }
    }
  }

  /** The message is the fixed header, the labels, the terminator, QTYPE and
      QCLASS; for an ASCII domain it is `|domain| + 18` bytes long. */
  lemma GenerateDNSMessageLayout(domain: string, queryType: QueryType)
    ensures var msg := GenerateDNSMessage(domain, queryType);
      |msg| == |Utf8(domain)| + 18 &&
      msg[..12] == [0xAB, 0xCD, 0x01, 0x00, 0x00, 0x01, 0, 0, 0, 0, 0, 0] &&
      msg[|msg| - 5..] == [0] + QueryTypeCode(queryType) + [0x00, 0x01]
    ensures IsAscii(domain) ==> |GenerateDNSMessage(domain, queryType)| == |domain| + 18
  {
    var parts := Split(domain, '.');
    var labels := ConcatMap(parts, QuestionLabel);
    var trailer := [0] + QueryTypeCode(queryType) + [0x00, 0x01];
    AppendAssoc(QueryHeader + labels, [0], QueryTypeCode(queryType));
    AppendAssoc(QueryHeader + labels, [0] + QueryTypeCode(queryType), [0x00, 0x01]);
    AppendAssoc(QueryHeader, labels, trailer);
    var msg := GenerateDNSMessage(domain, queryType);
    assert msg == QueryHeader + (labels + trailer);
    assert msg[..12] == QueryHeader;
    assert msg == (QueryHeader + labels) + trailer;
    assert msg[|msg| - 5..] == trailer;
    QuestionLabelsLength(parts);
    JoinSplit(domain, '.');
    if IsAscii(domain) {
      Utf8Ascii(domain);
    }
  }

  // ---------------------------------------------------------------------
  // parseDNSQuery
  // ---------------------------------------------------------------------

  datatype DNSQuery = DNSQuery(domain: string, queryType: QueryType)

  /** Prefixes the name text of a successful read. */
  function Prepend(prefix: string, r: Result<(string, nat)>): Result<(string, nat)> {
    match r
    case Ok((text, next)) => Ok((prefix + text, next))
    case Err(e) => Err(e)
  }

  /** The question name from `offset`: every label's characters followed by
      `.`, up to the zero byte, and the offset just past that byte.  Every
      non-zero length byte is a label length; a read past the end fails. */
  function QNameAt(msg: seq<byte>, offset: nat): (r: Result<(string, nat)>)
    ensures r.Ok? ==> offset < r.value.1 <= |msg|
    decreases |msg| - offset
  {
    if offset >= |msg| then Err(OutOfRange)
    else if msg[offset] == 0 then Ok(("", offset + 1))
    else if offset + 1 + msg[offset] > |msg| then Err(OutOfRange)
    else
      var length := msg[offset];
      Prepend(Latin1(msg[offset + 1..offset + 1 + length]) + ".", QNameAt(msg, offset + 1 + length))
  }

  /** `domain.slice(0, -1)`. */
  function DropLast(s: string): string {
    if s == [] then [] else s[..|s| - 1]
  }

  /** What `parseDNSQuery` returns: the name from offset 12 without its last
      character, and `AAAA` exactly when the next 16-bit field is 0x001C. */
  function ParseQuery(msg: seq<byte>): Result<DNSQuery> {
    var name :- QNameAt(msg, 12);
    var typeCode :- GetU16(msg, name.1);
    Ok(DNSQuery(DropLast(name.0), if typeCode == 0x1C then AAAA else A))
  }

  lemma PrependEmpty(r: Result<(string, nat)>)
    ensures Prepend("", r) == r
  {
    if r.Ok? {
      assert "" + r.value.0 == r.value.0;
    }
  }

  lemma PrependPrepend(a: string, b: string, r: Result<(string, nat)>)
    ensures Prepend(a, Prepend(b, r)) == Prepend(a + b, r)
  {
    if r.Ok? {
      assert a + (b + r.value.0) == (a + b) + r.value.0;
    }
  }

  /** `parseDNSQuery(message)`: a cursor over the labels, then QTYPE. */
  method ParseDNSQuery(message: seq<byte>) returns (r: Result<DNSQuery>)
    ensures r == ParseQuery(message)
  {
    var offset: nat := 4;
    offset := offset + 8;
    var domain := "";
    PrependEmpty(QNameAt(message, offset));
    while true
      invariant Prepend(domain, QNameAt(message, offset)) == QNameAt(message, 12)
      decreases |message| - offset
    {
      if offset >= |message| {
        return Err(OutOfRange);
      }
      ghost var at := offset;
      var length := message[offset];
      offset := offset + 1;
      if length == 0 {
        assert QNameAt(message, at) == Ok(("", offset));
        assert QNameAt(message, 12) == Ok((domain, offset)) by {
          assert domain + "" == domain;
        }
        break;
      }
      if offset + length > |message| {
        return Err(OutOfRange);
      }
      var text := Latin1(message[offset..offset + length]) + ".";
      PrependPrepend(domain, text, QNameAt(message, offset + length));
      domain := domain + text;
      offset := offset + length;
    }
    domain := DropLast(domain);
    if offset + 2 > |message| {
      return Err(OutOfRange);
    }
    var typeCode := Be16(message[offset], message[offset + 1]);
    var queryType := if typeCode == 0x1C then AAAA else A;
    return Ok(DNSQuery(domain, queryType));
  }

  /** Labels a question name can carry and be read back from: ASCII, none
      empty, none longer than a length byte can say. */
  predicate QueryableLabels(parts: seq<string>) {
    forall i :: 0 <= i < |parts| ==> 1 <= |parts[i]| <= 255 && IsAscii(parts[i])
  }

  /** Reading a question name back: the characters of each label come back,
      each followed by a dot, and the cursor ends just past the terminator. */
  lemma {:induction false} QNameAtLabels(msg: seq<byte>, offset: nat, parts: seq<string>)
    requires QueryableLabels(parts)
    requires offset + |ConcatMap(parts, QuestionLabel)| < |msg|
    requires msg[offset..offset + |ConcatMap(parts, QuestionLabel)| + 1] == ConcatMap(parts, QuestionLabel) + [0]
    ensures QNameAt(msg, offset) == Ok((DottedText(parts), offset + |ConcatMap(parts, QuestionLabel)| + 1))
    decreases |parts|
  {
    var end := offset + |ConcatMap(parts, QuestionLabel)| + 1;
    if parts == [] {
      assert msg[offset] == msg[offset..offset + 1][0];
      assert QNameAt(msg, offset) == Ok(("", offset + 1));
    } else {
      var p := parts[0];
      var rest := parts[1..];
      var next := offset + 1 + |p|;
      LabelsHead(msg, offset, parts);
      QNameAtLabels(msg, next, rest);
      assert QNameAt(msg, next) == Ok((DottedText(rest), end));
      QNameAtLabel(msg, offset, p);
      assert QNameAt(msg, offset) == Ok((p + "." + DottedText(rest), end));
      assert DottedText(parts) == p + "." + DottedText(rest);
    }
  }

  /** The first label of an encoded name sits at `offset` and the encoding
      of the remaining labels right after it. */
  lemma LabelsHead(msg: seq<byte>, offset: nat, parts: seq<string>)
    requires |parts| > 0 && QueryableLabels(parts)
    requires offset + |ConcatMap(parts, QuestionLabel)| < |msg|
    requires msg[offset..offset + |ConcatMap(parts, QuestionLabel)| + 1] == ConcatMap(parts, QuestionLabel) + [0]
    ensures |ConcatMap(parts, QuestionLabel)| == 1 + |parts[0]| + |ConcatMap(parts[1..], QuestionLabel)|
    ensures 1 <= |parts[0]| <= 255 && IsAscii(parts[0]) && QueryableLabels(parts[1..])
    ensures msg[offset] == |parts[0]|
    ensures msg[offset + 1..offset + 1 + |parts[0]|] == CharBytes(parts[0])
    ensures var next := offset + 1 + |parts[0]|;
      msg[next..next + |ConcatMap(parts[1..], QuestionLabel)| + 1] == ConcatMap(parts[1..], QuestionLabel) + [0]
  {
    var p := parts[0];
    var rest := parts[1..];
    LabelEncoding(parts);
    SliceThree(msg, offset, [|p|], CharBytes(p), ConcatMap(rest, QuestionLabel) + [0]);
    assert msg[offset] == msg[offset..offset + 1][0];
    assert QueryableLabels(rest) by {
      forall i | 0 <= i < |rest| ensures 1 <= |rest[i]| <= 255 && IsAscii(rest[i]) {
        assert rest[i] == parts[i + 1];
      }
    }
  }

  /** A short ASCII first label is its length byte and its character codes. */
  lemma LabelEncoding(parts: seq<string>)
    requires |parts| > 0 && |parts[0]| <= 255 && IsAscii(parts[0])
    ensures ConcatMap(parts, QuestionLabel) + [0] ==
      [|parts[0]|] + CharBytes(parts[0]) + (ConcatMap(parts[1..], QuestionLabel) + [0])
  {
    ConcatMapCons(parts[0], parts[1..], QuestionLabel);
    assert [parts[0]] + parts[1..] == parts;
    Utf8Ascii(parts[0]);
  }

  lemma QNameAtLabel(msg: seq<byte>, offset: nat, p: string)
    requires 1 <= |p| <= 255 && IsAscii(p)
    requires offset + 1 + |p| <= |msg| && msg[offset] == |p|
    requires msg[offset + 1..offset + 1 + |p|] == CharBytes(p)
    ensures QNameAt(msg, offset) == Prepend(p + ".", QNameAt(msg, offset + 1 + |p|))
  {
    Latin1CharBytes(p);
  }

  /** Each label followed by a dot. */
  function DottedText(parts: seq<string>): string {
    if parts == [] then [] else parts[0] + "." + DottedText(parts[1..])
  }

  lemma {:induction false} DottedTextJoin(parts: seq<string>)
    requires |parts| >= 1
    ensures DottedText(parts) == Join(parts, '.') + "."
    decreases |parts|
  {
    if |parts| > 1 {
      DottedTextJoin(parts[1..]);
    }
  }

  /** A domain whose labels can be read back. */
  predicate QueryableName(domain: string) {
    QueryableLabels(Split(domain, '.'))
  }

  /** A query whose question name is made of readable labels: the name comes
      back as the labels with their dots, and the type from the two bytes
      after the terminator. */
  lemma ParseQueryOfLabels(msg: seq<byte>, parts: seq<string>, trailer: seq<byte>)
    requires QueryableLabels(parts) && |trailer| >= 2
    requires msg == QueryHeader + (ConcatMap(parts, QuestionLabel) + [0]) + trailer
    ensures ParseQuery(msg) ==
      Ok(DNSQuery(DropLast(DottedText(parts)), if Be16(trailer[0], trailer[1]) == 0x1C then AAAA else A))
  {
    var name := ConcatMap(parts, QuestionLabel) + [0];
    SliceThree(msg, 0, QueryHeader, name, trailer);
    QNameAtLabels(msg, 12, parts);
    var end := 12 + |name|;
    assert msg[end] == trailer[0] && msg[end + 1] == trailer[1] by {
      assert msg[end..end + |trailer|][0] == trailer[0];
      assert msg[end..end + |trailer|][1] == trailer[1];
    }
  }

  /** The server reads back the domain and type the client wrote. */
  lemma ParseGeneratedQuery(domain: string, queryType: QueryType)
    requires QueryableName(domain)
    ensures ParseQuery(GenerateDNSMessage(domain, queryType)) == Ok(DNSQuery(domain, queryType))
  {
    var parts := Split(domain, '.');
    var labels := ConcatMap(parts, QuestionLabel);
    var trailer := QueryTypeCode(queryType) + [0x00, 0x01];
    AppendAssoc(QueryHeader + labels, [0], QueryTypeCode(queryType));
    AppendAssoc(QueryHeader + labels + [0] + QueryTypeCode(queryType), [0x00, 0x01], []);
    AppendAssoc(QueryHeader + labels + [0], QueryTypeCode(queryType), [0x00, 0x01]);
    AppendAssoc(QueryHeader, labels, [0]);
    ParseQueryOfLabels(GenerateDNSMessage(domain, queryType), parts, trailer);
    DottedTextJoin(parts);
    JoinSplit(domain, '.');
    assert DropLast(domain + ".") == domain;
  }

  /** An empty label writes a zero length byte, which ends the name: a name
      with a trailing dot is read back without it, and the query type is then
      read from the real terminator and the first QTYPE byte, so it is `A`. */
  lemma TrailingDotEndsName(domain: string, queryType: QueryType)
    requires QueryableName(domain)
    ensures ParseQuery(GenerateDNSMessage(domain + ".", queryType)) == Ok(DNSQuery(domain, A))
  {
    var parts := Split(domain, '.');
    SplitAround(domain, [], '.');
    assert domain + "." == domain + ['.'] + [];
    assert Split(domain + ".", '.') == parts + [""];
    ConcatMapSnoc(parts, "", QuestionLabel);
    var labels := ConcatMap(parts, QuestionLabel);
    assert QuestionLabel("") == [0] by {
      assert Utf8("") == [];
    }
    var trailer := [0] + QueryTypeCode(queryType) + [0x00, 0x01];
    var msg := GenerateDNSMessage(domain + ".", queryType);
    assert msg == QueryHeader + (labels + [0]) + trailer by {
      AppendAssoc(QueryHeader, labels, [0]);
      AppendAssoc(QueryHeader + labels + [0], [0], QueryTypeCode(queryType));
      AppendAssoc(QueryHeader + labels + [0], [0] + QueryTypeCode(queryType), [0x00, 0x01]);
    }
    ParseQueryOfLabels(msg, parts, trailer);
    DottedTextJoin(parts);
    JoinSplit(domain, '.');
    assert DropLast(domain + ".") == domain;
  }

  // ---------------------------------------------------------------------
  // convertToDNSMessage: the bytes it writes
  // ---------------------------------------------------------------------

  /** The TYPE written for a record's type token: 1 for `A`, 28 for `AAAA`,
      5 (CNAME) for anything else. */
  function TypeCode(rtype: string): nat {
    if rtype == "A" then 1 else if rtype == "AAAA" then 28 else 5
  }

  /** One label of an answer's owner name: its length, then one byte per
      character code.  `for…of` visits code points; above U+FFFF the source's
      `charCodeAt(0)` is the high surrogate, which this model does not split. */
  function AnswerLabel(part: string): seq<byte> {
    [U8(|part|)] + CharBytes(part)
  }

  function NameWrites(name: string): seq<byte> {
    ConcatMap(Split(name, '.'), AnswerLabel) + [0]
  }

  /** An A octet as `setUint8(offset, parseInt(part))` receives it: `NaN`
      converts to 0. */
  function OctetNumber(part: string): int {
    match ParseInt(part, 0)
    case None => 0
    case Some(v) => v
  }

  function OctetWrite(part: string): seq<byte> {
    [U8(OctetNumber(part))]
  }

  /** `ToInt32`: the signed 32-bit value the bitwise operators work on. */
  function ToInt32(v: int): int {
    var w := v % 0x1_0000_0000;
    if w >= 0x8000_0000 then w - 0x1_0000_0000 else w
  }

  /** An AAAA group as the bitwise operators see `parseInt(part || '0', 16)`:
      `NaN` converts to 0, any number to its `ToInt32`. */
  function GroupNumber(part: string): int {
    match ParseInt(if part == [] then "0" else part, 16)
    case None => 0
    case Some(v) => ToInt32(v)
  }

  /** The bytes `value >> 8` and `value & 0xff`: the signed shift is floor
      division by 256, which `/` is for a positive divisor, and `& 0xff`
      keeps the value modulo 256. */
  function GroupWrite(part: string): seq<byte> {
    var value := GroupNumber(part);
    [U8(value / 0x100), value % 0x100]
  }

  /** The octets of an A address. */
  function OctetsWrites(data: string): seq<byte> {
    ConcatMap(Split(data, '.'), OctetWrite)
  }

  /** The groups of an AAAA address. */
  function GroupsWrites(data: string): seq<byte> {
    ConcatMap(Split(data, ':'), GroupWrite)
  }

  /** RDATA by record type: the parsed octets of an A address, the parsed
      groups of an AAAA address, otherwise the UTF-8 bytes of the text. */
  function RDataBody(record: DNSRecord): seq<byte> {
    if record.rtype == "A" then OctetsWrites(record.data)
    else if record.rtype == "AAAA" then GroupsWrites(record.data)
    else Utf8(record.data)
  }

  /** RDLENGTH: fixed at 4 and 16 for the address types, whatever the text
      parses to, otherwise the UTF-8 length. */
  function RDLength(record: DNSRecord): nat {
    if record.rtype == "A" then 4
    else if record.rtype == "AAAA" then 16
    else |Utf8(record.data)|
  }

  /** RDLENGTH and RDATA. */
  function RDataWrites(record: DNSRecord): seq<byte> {
    U16(RDLength(record)) + RDataBody(record)
  }

  /** Everything the cursor writes for one record. */
  function RecordWrites(record: DNSRecord): seq<byte> {
    NameWrites(record.name) + FixedFields(record) + RDataWrites(record)
  }

  /** TYPE, CLASS 1 (IN) and TTL. */
  function FixedFields(record: DNSRecord): seq<byte> {
    U16(TypeCode(record.rtype)) + U16(1) + U32(record.ttl)
  }

  /** Id AB CD, flags 81 80 (response, recursion available), no question,
      `count` answers, no authority or additional records. */
  function ResponseHeader(count: int): seq<byte> {
    U16(0xABCD) + U16(0x8180) + U16(0) + U16(count) + U16(0) + U16(0)
  }

  /** Every byte the writes of `convertToDNSMessage` produce, in order. */
  function ResponseWrites(records: seq<DNSRecord>): seq<byte> {
    ResponseHeader(|records|) + ConcatMap(records, RecordWrites)
  }

  // ---------------------------------------------------------------------
  // convertToDNSMessage: the buffer it allocates
  // ---------------------------------------------------------------------

  /** `reduce((acc, part) => acc + part.length + 1, 1)` over the labels. */
  function LabelsSize(parts: seq<string>): nat {
    if parts == [] then 0 else |parts[0]| + 1 + LabelsSize(parts[1..])
  }

  function NameSize(name: string): nat {
    LabelsSize(Split(name, '.')) + 1
  }

  function DataSize(record: DNSRecord): nat {
    if record.rtype == "A" then 4 else if record.rtype == "AAAA" then 16 else |record.data|
  }

  function RecordSize(record: DNSRecord): nat {
    NameSize(record.name) + 10 + DataSize(record)
  }

  function RecordsSize(records: seq<DNSRecord>): nat {
    SumOf(records, RecordSize)
  }

  /** `totalSize`: the header and the precomputed record sizes. */
  function MessageSize(records: seq<DNSRecord>): nat {
    12 + RecordsSize(records)
  }

  /** What `convertToDNSMessage` returns: the written bytes in a zero-filled
      buffer of the precomputed size, or the `RangeError` of the first write
      past its end. */
  function EncodeResponse(records: seq<DNSRecord>): Result<seq<byte>> {
    var writes := ResponseWrites(records);
    var size := MessageSize(records);
    if |writes| <= size then Ok(writes + Zeros(size - |writes|)) else Err(OutOfRange)
  }

  // ---------------------------------------------------------------------
  // convertToDNSMessage: the writes in place
  // ---------------------------------------------------------------------

  /** Everything from `offset` on is still as allocated. */
  ghost predicate Zeroed(view: array<byte>, offset: nat)
    reads view
  {
    forall k :: offset <= k < view.Length ==> view[k] == 0
  }

  /** `view.setUint8(offset, value)`. */
  method SetUint8(view: array<byte>, offset: nat, value: int) returns (ok: bool)
    requires offset <= view.Length && Zeroed(view, offset)
    modifies view
    ensures ok <==> offset + 1 <= view.Length
    ensures ok ==> view[..offset + 1] == old(view[..offset]) + [U8(value)] && Zeroed(view, offset + 1)
  {
    if offset + 1 > view.Length {
      return false;
    }
    view[offset] := U8(value);
    assert view[..offset + 1] == old(view[..offset]) + [U8(value)];
    return true;
  }

  /** `view.setUint16(offset, value)`, big-endian. */
  method SetUint16(view: array<byte>, offset: nat, value: int) returns (ok: bool)
    requires offset <= view.Length && Zeroed(view, offset)
    modifies view
    ensures ok <==> offset + 2 <= view.Length
    ensures ok ==> view[..offset + 2] == old(view[..offset]) + U16(value) && Zeroed(view, offset + 2)
  {
    if offset + 2 > view.Length {
      return false;
    }
    var bs := U16(value);
    view[offset] := bs[0];
    view[offset + 1] := bs[1];
    assert view[..offset + 2] == old(view[..offset]) + bs;
    return true;
  }

  /** `view.setUint32(offset, value)`, big-endian. */
  method SetUint32(view: array<byte>, offset: nat, value: int) returns (ok: bool)
    requires offset <= view.Length && Zeroed(view, offset)
    modifies view
    ensures ok <==> offset + 4 <= view.Length
    ensures ok ==> view[..offset + 4] == old(view[..offset]) + U32(value) && Zeroed(view, offset + 4)
  {
    if offset + 4 > view.Length {
      return false;
    }
    var bs := U32(value);
    view[offset] := bs[0];
    view[offset + 1] := bs[1];
    view[offset + 2] := bs[2];
    view[offset + 3] := bs[3];
    assert view[..offset + 4] == old(view[..offset]) + bs;
    return true;
  }

  /** One label of the owner name: its length, then each character code. */
  method WriteLabel(view: array<byte>, start: nat, part: string) returns (ok: bool, offset: nat)
    requires start <= view.Length && Zeroed(view, start)
    modifies view
    ensures ok <==> start + |AnswerLabel(part)| <= view.Length
    ensures ok ==> (offset == start + |AnswerLabel(part)| &&
      view[..offset] == old(view[..start]) + AnswerLabel(part) && Zeroed(view, offset))
  {
    ghost var before := view[..start];
    offset := start;
    ok := SetUint8(view, offset, |part|);
    if !ok {
      return;
    }
    offset := offset + 1;
    for k := 0 to |part|
      invariant ok
      invariant offset == start + 1 + k <= view.Length
      invariant view[..offset] == before + [U8(|part|)] + CharBytes(part[..k])
      invariant Zeroed(view, offset)
    {
      ok := SetUint8(view, offset, part[k] as int);
      if !ok {
        return;
      }
      assert CharBytes(part[..k + 1]) == CharBytes(part[..k]) + [U8(part[k] as int)];
      AppendAssoc(before + [U8(|part|)], CharBytes(part[..k]), [U8(part[k] as int)]);
      offset := offset + 1;
    }
    assert part[..|part|] == part;
    AppendAssoc(before, [U8(|part|)], CharBytes(part));
  }

  /** The labels of the owner name, one after another. */
  method WriteLabels(view: array<byte>, start: nat, parts: seq<string>) returns (ok: bool, offset: nat)
    requires start <= view.Length && Zeroed(view, start)
    modifies view
    ensures ok <==> start + |ConcatMap(parts, AnswerLabel)| <= view.Length
    ensures ok ==> (offset == start + |ConcatMap(parts, AnswerLabel)| &&
      view[..offset] == old(view[..start]) + ConcatMap(parts, AnswerLabel) && Zeroed(view, offset))
  {
    ghost var before := view[..start];
    offset := start;
    ok := true;
    for j := 0 to |parts|
      invariant ok
      invariant offset == start + |ConcatMap(parts[..j], AnswerLabel)| <= view.Length
      invariant view[..offset] == before + ConcatMap(parts[..j], AnswerLabel)
      invariant Zeroed(view, offset)
    {
      ConcatMapStep(before, parts, j, AnswerLabel);
      ok, offset := WriteLabel(view, offset, parts[j]);
      if !ok {
        return;
      }
    }
    assert parts[..|parts|] == parts;
  }

  /** The owner name: every `.`-separated part as a label, then the
      terminator. */
  method WriteName(view: array<byte>, start: nat, name: string) returns (ok: bool, offset: nat)
    requires start <= view.Length && Zeroed(view, start)
    modifies view
    ensures ok <==> start + |NameWrites(name)| <= view.Length
    ensures ok ==> (offset == start + |NameWrites(name)| &&
      view[..offset] == old(view[..start]) + NameWrites(name) && Zeroed(view, offset))
  {
    ghost var before := view[..start];
    var parts := Split(name, '.');
    ok, offset := WriteLabels(view, start, parts);
    if !ok {
      return;
    }
    ok := SetUint8(view, offset, 0);
    if !ok {
      return;
    }
    offset := offset + 1;
    AppendAssoc(before, ConcatMap(parts, AnswerLabel), [0]);
  }

  /** The A address: one `setUint8(parseInt(part))` per part. */
  method WriteOctets(view: array<byte>, start: nat, parts: seq<string>) returns (ok: bool, offset: nat)
    requires start <= view.Length && Zeroed(view, start)
    modifies view
    ensures ok <==> start + |ConcatMap(parts, OctetWrite)| <= view.Length
    ensures ok ==> (offset == start + |ConcatMap(parts, OctetWrite)| &&
      view[..offset] == old(view[..start]) + ConcatMap(parts, OctetWrite) && Zeroed(view, offset))
  {
    ghost var before := view[..start];
    offset := start;
    ok := true;
    for j := 0 to |parts|
      invariant ok
      invariant offset == start + |ConcatMap(parts[..j], OctetWrite)| <= view.Length
      invariant view[..offset] == before + ConcatMap(parts[..j], OctetWrite)
      invariant Zeroed(view, offset)
    {
      ConcatMapStep(before, parts, j, OctetWrite);
      ok := SetUint8(view, offset, OctetNumber(parts[j]));
      if !ok {
        return;
      }
      offset := offset + 1;
    }
    assert parts[..|parts|] == parts;
  }

  /** One AAAA group: its high byte, then its low byte. */
  method WriteGroup(view: array<byte>, start: nat, part: string) returns (ok: bool, offset: nat)
    requires start <= view.Length && Zeroed(view, start)
    modifies view
    ensures ok <==> start + 2 <= view.Length
    ensures ok ==> (offset == start + 2 &&
      view[..offset] == old(view[..start]) + GroupWrite(part) && Zeroed(view, offset))
  {
    ghost var before := view[..start];
    offset := start;
    var value := GroupNumber(part);
    ok := SetUint8(view, offset, value / 0x100);
    if !ok {
      return;
    }
    offset := offset + 1;
    ok := SetUint8(view, offset, value % 0x100);
    if !ok {
      return;
    }
    offset := offset + 1;
    AppendAssoc(before, [U8(value / 0x100)], [U8(value % 0x100)]);
  }

  /** The AAAA address: every group. */
  method WriteGroups(view: array<byte>, start: nat, parts: seq<string>) returns (ok: bool, offset: nat)
    requires start <= view.Length && Zeroed(view, start)
    modifies view
    ensures ok <==> start + |ConcatMap(parts, GroupWrite)| <= view.Length
    ensures ok ==> (offset == start + |ConcatMap(parts, GroupWrite)| &&
      view[..offset] == old(view[..start]) + ConcatMap(parts, GroupWrite) && Zeroed(view, offset))
  {
    ghost var before := view[..start];
    offset := start;
    ok := true;
    for j := 0 to |parts|
      invariant ok
      invariant offset == start + |ConcatMap(parts[..j], GroupWrite)| <= view.Length
      invariant view[..offset] == before + ConcatMap(parts[..j], GroupWrite)
      invariant Zeroed(view, offset)
    {
      ConcatMapStep(before, parts, j, GroupWrite);
      ok, offset := WriteGroup(view, offset, parts[j]);
      if !ok {
        return;
      }
    }
    assert parts[..|parts|] == parts;
  }

  /** Any other RDATA: the bytes one at a time. */
  method WriteBytes(view: array<byte>, start: nat, data: seq<byte>) returns (ok: bool, offset: nat)
    requires start <= view.Length && Zeroed(view, start)
    modifies view
    ensures ok <==> start + |data| <= view.Length
    ensures ok ==> (offset == start + |data| && view[..offset] == old(view[..start]) + data && Zeroed(view, offset))
  {
    ghost var before := view[..start];
    offset := start;
    ok := true;
    for i := 0 to |data|
      invariant ok
      invariant offset == start + i <= view.Length
      invariant view[..offset] == before + data[..i]
      invariant Zeroed(view, offset)
    {
      ok := SetUint8(view, offset, data[i]);
      if !ok {
        return;
      }
      assert data[..i + 1] == data[..i] + [data[i]];
      AppendAssoc(before, data[..i], [data[i]]);
      offset := offset + 1;
    }
    assert data[..|data|] == data;
  }

  /** An A record's RDLENGTH, 4, then its octets. */
  method WriteAddress4(view: array<byte>, start: nat, data: string) returns (ok: bool, offset: nat)
    requires start <= view.Length && Zeroed(view, start)
    modifies view
    ensures ok <==> start + 2 + |OctetsWrites(data)| <= view.Length
    ensures ok ==> (offset == start + 2 + |OctetsWrites(data)| &&
      view[..offset] == old(view[..start]) + (U16(4) + OctetsWrites(data)) && Zeroed(view, offset))
  {
    ghost var before := view[..start];
    offset := start;
    ok := SetUint16(view, offset, 4);
    if !ok {
      return;
    }
    ok, offset := WriteOctets(view, offset + 2, Split(data, '.'));
    if ok {
      AppendAssoc(before, U16(4), OctetsWrites(data));
    }
  }

  /** An AAAA record's RDLENGTH, 16, then its groups. */
  method WriteAddress6(view: array<byte>, start: nat, data: string) returns (ok: bool, offset: nat)
    requires start <= view.Length && Zeroed(view, start)
    modifies view
    ensures ok <==> start + 2 + |GroupsWrites(data)| <= view.Length
    ensures ok ==> (offset == start + 2 + |GroupsWrites(data)| &&
      view[..offset] == old(view[..start]) + (U16(16) + GroupsWrites(data)) && Zeroed(view, offset))
  {
    ghost var before := view[..start];
    offset := start;
    ok := SetUint16(view, offset, 16);
    if !ok {
      return;
    }
    ok, offset := WriteGroups(view, offset + 2, Split(data, ':'));
    if ok {
      AppendAssoc(before, U16(16), GroupsWrites(data));
    }
  }

  /** Any other record: the UTF-8 length, then the UTF-8 bytes. */
  method WriteText(view: array<byte>, start: nat, text: string) returns (ok: bool, offset: nat)
    requires start <= view.Length && Zeroed(view, start)
    modifies view
    ensures ok <==> start + 2 + |Utf8(text)| <= view.Length
    ensures ok ==> (offset == start + 2 + |Utf8(text)| &&
      view[..offset] == old(view[..start]) + (U16(|Utf8(text)|) + Utf8(text)) && Zeroed(view, offset))
  {
    ghost var before := view[..start];
    offset := start;
    var data := Utf8(text);
    ok := SetUint16(view, offset, |data|);
    if !ok {
      return;
    }
    ok, offset := WriteBytes(view, offset + 2, data);
    if ok {
      AppendAssoc(before, U16(|data|), data);
    }
  }

  /** RDLENGTH and RDATA, by record type. */
  method WriteRData(view: array<byte>, start: nat, record: DNSRecord) returns (ok: bool, offset: nat)
    requires start <= view.Length && Zeroed(view, start)
    modifies view
    ensures ok <==> start + |RDataWrites(record)| <= view.Length
    ensures ok ==> (offset == start + |RDataWrites(record)| &&
      view[..offset] == old(view[..start]) + RDataWrites(record) && Zeroed(view, offset))
  {
    if record.rtype == "A" {
      ok, offset := WriteAddress4(view, start, record.data);
    } else if record.rtype == "AAAA" {
      ok, offset := WriteAddress6(view, start, record.data);
    } else {
      ok, offset := WriteText(view, start, record.data);
    }
  }

  /** TYPE, CLASS and TTL. */
  method WriteFixedFields(view: array<byte>, start: nat, record: DNSRecord) returns (ok: bool, offset: nat)
    requires start <= view.Length && Zeroed(view, start)
    modifies view
    ensures ok <==> start + 8 <= view.Length
    ensures ok ==> (offset == start + 8 &&
      view[..offset] == old(view[..start]) + FixedFields(record) && Zeroed(view, offset))
  {
    ghost var before := view[..start];
    offset := start;
    ok := SetUint16(view, offset, TypeCode(record.rtype));
    if !ok {
      return;
    }
    offset := offset + 2;
    ok := SetUint16(view, offset, 1);
    if !ok {
      return;
    }
    AppendAssoc(before, U16(TypeCode(record.rtype)), U16(1));
    offset := offset + 2;
    ok := SetUint32(view, offset, record.ttl);
    if !ok {
      return;
    }
    AppendAssoc(before, U16(TypeCode(record.rtype)) + U16(1), U32(record.ttl));
    offset := offset + 4;
  }

  /** One resource record: name, TYPE, CLASS 1, TTL, then RDLENGTH and RDATA. */
  method WriteRecord(view: array<byte>, start: nat, record: DNSRecord) returns (ok: bool, offset: nat)
    requires start <= view.Length && Zeroed(view, start)
    modifies view
    ensures ok <==> start + |RecordWrites(record)| <= view.Length
    ensures ok ==> (offset == start + |RecordWrites(record)| &&
      view[..offset] == old(view[..start]) + RecordWrites(record) && Zeroed(view, offset))
  {
    ghost var before := view[..start];
    ok, offset := WriteName(view, start, record.name);
    if !ok {
      return;
    }
    ok, offset := WriteFixedFields(view, offset, record);
    if !ok {
      return;
    }
    AppendAssoc(before, NameWrites(record.name), FixedFields(record));
    ghost var written := NameWrites(record.name) + FixedFields(record);
    ok, offset := WriteRData(view, offset, record);
    if !ok {
      return;
    }
    AppendAssoc(before, written, RDataWrites(record));
  }

  /** The 12-byte header. */
  method WriteHeader(view: array<byte>, count: int)
    requires 12 <= view.Length && Zeroed(view, 0)
    modifies view
    ensures view[..12] == ResponseHeader(count) && Zeroed(view, 12)
  {
    var ok := SetUint16(view, 0, 0xABCD);
    ok := SetUint16(view, 2, 0x8180);
    AppendAssoc(U16(0xABCD), U16(0x8180), []);
    ok := SetUint16(view, 4, 0);
    ok := SetUint16(view, 6, count);
    ok := SetUint16(view, 8, 0);
    ok := SetUint16(view, 10, 0);
  }

  /** `convertToDNSMessage(records)`: allocate the precomputed size, write the
      header, then every record through one cursor. */
  method ConvertToDNSMessage(records: seq<DNSRecord>) returns (r: Result<seq<byte>>)
    ensures r == EncodeResponse(records)
  {
    var totalSize := MessageSize(records);
    var view := new byte[totalSize](_ => 0);
    WriteHeader(view, |records|);
    ghost var header := ResponseHeader(|records|);
    var offset := 12;
    var i := 0;
    while i < |records|
      invariant i <= |records|
      invariant offset == 12 + |ConcatMap(records[..i], RecordWrites)| <= view.Length
      invariant view[..offset] == header + ConcatMap(records[..i], RecordWrites)
      invariant Zeroed(view, offset)
    {
      ghost var done := records[..i];
      ConcatMapPrefix(records, i, RecordWrites);
      var ok;
      ok, offset := WriteRecord(view, offset, records[i]);
      if !ok {
        return Err(OutOfRange);
      }
      i := i + 1;
      ConcatMapGrow(header, records, i, done, RecordWrites);
    }
    assert records[..i] == records;
    ZeroFilled(view[..], view[..offset]);
    return Ok(view[..]);
  }
}
