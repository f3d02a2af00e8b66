/**
 * What the response writer of services/dns/dns-message.ts promises about the
 * message it lays out: the fixed header, a buffer sized exactly for records
 * whose text has the expected shape, the empty message, and the type codes
 * and group values it writes.
 */
module ResponseLayout {
  import opened JsText
  import opened Bytes
  import opened DnsTypes
  import opened DnsMessage

  // ---------------------------------------------------------------------
  // The header
  // ---------------------------------------------------------------------

  lemma HeaderBytes(count: int)
    ensures ResponseHeader(count) == [0xAB, 0xCD, 0x81, 0x80, 0, 0] + U16(count) + [0, 0, 0, 0]
  {
    assert U16(0xABCD) == [0xAB, 0xCD] && U16(0x8180) == [0x81, 0x80] && U16(0) == [0, 0];
  }

  /** Writes that fill the buffer exactly are the whole message. */
  lemma NoPadding(records: seq<DNSRecord>)
    requires |ResponseWrites(records)| == MessageSize(records)
    ensures EncodeResponse(records) == Ok(ResponseWrites(records))
  {
    assert ResponseWrites(records) + Zeros(0) == ResponseWrites(records);
  }

  /** Without records the message is the bare 12-byte header. */
  lemma EmptyResponse()
    ensures EncodeResponse([]) == Ok([0xAB, 0xCD, 0x81, 0x80, 0, 0, 0, 0, 0, 0, 0, 0])
  {
    var none: seq<DNSRecord> := [];
    HeaderBytes(0);
    assert U16(0) == [0, 0];
    assert ConcatMap(none, RecordWrites) == [];
    assert ResponseWrites(none) == ResponseHeader(0) + [];
    assert ResponseWrites(none) == [0xAB, 0xCD, 0x81, 0x80, 0, 0, 0, 0, 0, 0, 0, 0];
    NoPadding(none);
  }

  /** Every message written starts with id AB CD, flags 81 80, no question,
      ANCOUNT the number of records modulo 2^16, and no authority or
      additional records. */
  lemma ResponseHeaderFields(records: seq<DNSRecord>)
    requires EncodeResponse(records).Ok?
    ensures var m := EncodeResponse(records).value;
      |m| >= 12 && m[..6] == [0xAB, 0xCD, 0x81, 0x80, 0, 0] &&
      Be16(m[6], m[7]) == |records| % 0x1_0000 && m[8..12] == [0, 0, 0, 0]
  {
    var m := EncodeResponse(records).value;
    var header := ResponseHeader(|records|);
    var rest := ConcatMap(records, RecordWrites) + Zeros(MessageSize(records) - |ResponseWrites(records)|);
    AppendAssoc(header, ConcatMap(records, RecordWrites), Zeros(MessageSize(records) - |ResponseWrites(records)|));
    assert m == header + rest;
    HeaderBytes(|records|);
    Be16OfU16(|records|);
    assert m[..6] == header[..6];
    assert m[6] == header[6] && m[7] == header[7];
    assert m[8..12] == header[8..12];
  }

  // ---------------------------------------------------------------------
  // The buffer size
  // ---------------------------------------------------------------------

  /** Pieces that all have length `k`. */
  lemma {:induction false} UniformLength<T>(xs: seq<T>, f: T -> seq<byte>, k: nat)
    requires forall i :: 0 <= i < |xs| ==> |f(xs[i])| == k
    ensures |ConcatMap(xs, f)| == |xs| * k
    decreases |xs|
  {
    if xs != [] {
      var init := xs[..|xs| - 1];
      UniformLength(init, f, k);
      assert |ConcatMap(xs, f)| == |init| * k + k;
      assert |init| * k + k == (|init| + 1) * k;
    }
  }

  /** The labels of a name take the bytes `LabelsSize` counts. */
  lemma {:induction false} LabelsLength(parts: seq<string>)
    ensures |ConcatMap(parts, AnswerLabel)| == LabelsSize(parts)
    decreases |parts|
  {
    if parts != [] {
      ConcatMapCons(parts[0], parts[1..], AnswerLabel);
      assert [parts[0]] + parts[1..] == parts;
      LabelsLength(parts[1..]);
    }
  }

  /** A record whose text has the shape the precomputed size expects: an A
      address of four dotted parts, an AAAA address of eight colon-separated
      groups, or ASCII data, which UTF-8 writes one byte per character. */
  predicate SizedRecord(record: DNSRecord) {
    if record.rtype == "A" then |Split(record.data, '.')| == 4
    else if record.rtype == "AAAA" then |Split(record.data, ':')| == 8
    else IsAscii(record.data)
  }

  lemma RecordLength(record: DNSRecord)
    requires SizedRecord(record)
    ensures |RecordWrites(record)| == RecordSize(record)
  {
    LabelsLength(Split(record.name, '.'));
    if record.rtype == "A" {
      UniformLength(Split(record.data, '.'), OctetWrite, 1);
    } else if record.rtype == "AAAA" {
      UniformLength(Split(record.data, ':'), GroupWrite, 2);
    } else {
      Utf8Ascii(record.data);
    }
  }

  lemma RecordsLength(records: seq<DNSRecord>)
    requires forall i :: 0 <= i < |records| ==> SizedRecord(records[i])
    ensures |ConcatMap(records, RecordWrites)| == RecordsSize(records)
  {
    forall i | 0 <= i < |records| ensures |RecordWrites(records[i])| == RecordSize(records[i]) {
      RecordLength(records[i]);
    }
    ConcatMapLength(records, RecordWrites, RecordSize);
  }

  /** For such records the write cursor ends exactly at `totalSize`: the
      message is the writes with no zero padding and no write out of range. */
  lemma ExactSize(records: seq<DNSRecord>)
    requires forall i :: 0 <= i < |records| ==> SizedRecord(records[i])
    ensures EncodeResponse(records) == Ok(ResponseWrites(records))
    ensures |ResponseWrites(records)| == MessageSize(records)
  {
    RecordsLength(records);
    NoPadding(records);
  }

  /** An A address with a fifth part writes one byte more than was sized
      for, so a single such record makes the write run out of the buffer. */
  lemma OverlongAddressOverflows(record: DNSRecord)
    requires record.rtype == "A" && |Split(record.data, '.')| == 5
    ensures EncodeResponse([record]) == Err(OutOfRange)
  {
    LabelsLength(Split(record.name, '.'));
    UniformLength(Split(record.data, '.'), OctetWrite, 1);
    assert |RecordWrites(record)| == RecordSize(record) + 1;
    ConcatMapSnoc([], record, RecordWrites);
    assert [] + [record] == [record];
    assert SumOf([record], RecordSize) == RecordSize(record) by {
      assert [record][1..] == [];
    }
  }

  // ---------------------------------------------------------------------
  // Names, types and AAAA groups
  // ---------------------------------------------------------------------

  /** A trailing dot leaves an empty last label, written as a zero length
      byte before the terminator. */
  lemma TrailingDotName(name: string)
    ensures NameWrites(name + ".") == ConcatMap(Split(name, '.'), AnswerLabel) + [0, 0]
  {
    SplitAround(name, [], '.');
    assert name + "." == name + ['.'] + [];
    ConcatMapSnoc(Split(name, '.'), "", AnswerLabel);
    assert AnswerLabel("") == [0];
  }

  /** Read back through `stringifyDNSType`, the written TYPE gives `A` and
      `AAAA` back and every other token becomes `CNAME`. */
  lemma TypeCodeName(rtype: string)
    ensures StringifyDNSType(TypeCode(rtype)) == if rtype in ["A", "AAAA"] then rtype else "CNAME"
  {
  }

  lemma MxAndTxtBecomeCname()
    ensures StringifyDNSType(TypeCode("MX")) == "CNAME"
    ensures StringifyDNSType(TypeCode("TXT")) == "CNAME"
  {
    TypeCodeName("MX");
    TypeCodeName("TXT");
  }

  /** An empty group (from `::`) is written as `parseInt('0', 16)`: two zero
      bytes. */
  lemma EmptyGroupIsZero()
    ensures GroupWrite("") == [0, 0]
  {
    assert ParseInt("0", 16) == Some(0) by {
      assert TrimStart("0") == "0";
      assert DigitPrefix("0", 16) == "0";
      assert DigitsValue("0", 16) == 0;
    }
  }
}
