/**
 * The client against the server: a response written by `convertToDNSMessage`
 * (services/dns/dns-message.ts) and read back by `parseDNSResponse`
 * (services/dns/fetch-dns-query.ts).  For records in the shape the hosts file
 * and the resolver produce (an owner name of short ASCII labels, a TTL that
 * fits in 32 bits, an A address in canonical dotted decimal, an AAAA address
 * of eight four-digit lower-case groups, ASCII data otherwise) every record
 * comes back with a trailing dot on its name, and with every type other than
 * A and AAAA turned into CNAME.
 */
module RoundTrip {
  import opened JsText
  import opened Bytes
  import opened DnsTypes
  import opened DnsMessage
  import opened Validators
  import opened ResponseLayout
  import opened FetchDnsQuery

  // ---------------------------------------------------------------------
  // AAAA groups
  // ---------------------------------------------------------------------

  /** The digits `toString(16)` produces. */
  predicate IsLowerHexDigit(c: char) {
    '0' <= c <= '9' || 'a' <= c <= 'f'
  }

  /** A group as `parseIPv6` prints it: four lower-case hex digits. */
  predicate IsFullGroup(g: string) {
    |g| == 4 && forall i :: 0 <= i < 4 ==> IsLowerHexDigit(g[i])
  }

  lemma HexDigitValue(c: char)
    requires IsLowerHexDigit(c)
    ensures DigitValue(c) < 16 && HexChar(DigitValue(c)) == c
    ensures !IsSpace(c) && c != '-' && c != '+' && c != 'x' && c != 'X'
  {
  }

  lemma DivModByte(hi: nat, lo: nat)
    requires lo < 0x100
    ensures (hi * 0x100 + lo) / 0x100 == hi && (hi * 0x100 + lo) % 0x100 == lo
    ensures hi < 0x100 ==> hi * 0x100 + lo < 0x1_0000
  {
  }

  lemma DivModNibble(hi: nat, lo: nat)
    requires lo < 16
    ensures (hi * 16 + lo) / 16 == hi && (hi * 16 + lo) % 16 == lo
  {
  }

  lemma ToInt32Small(v: int)
    requires 0 <= v < 0x8000_0000
    ensures ToInt32(v) == v
  {
  }

  /** Four hex digits read in base 16. */
  lemma FourDigitsValue(g: string)
    requires IsFullGroup(g)
    ensures DigitsValue(g, 16) ==
      (DigitValue(g[0]) * 16 + DigitValue(g[1])) * 0x100 + (DigitValue(g[2]) * 16 + DigitValue(g[3]))
  {
    var d0, d1, d2, d3 := DigitValue(g[0]), DigitValue(g[1]), DigitValue(g[2]), DigitValue(g[3]);
    var p1, p2, p3 := g[..1], g[..2], g[..3];
    assert p1[..0] == [] && p2[..1] == p1 && p3[..2] == p2 && g[..3] == p3;
    assert DigitsValue(p1, 16) == d0;
    assert DigitsValue(p2, 16) == d0 * 16 + d1;
    assert DigitsValue(p3, 16) == (d0 * 16 + d1) * 16 + d2;
    assert DigitsValue(g, 16) == ((d0 * 16 + d1) * 16 + d2) * 16 + d3;
    assert ((d0 * 16 + d1) * 16 + d2) * 16 + d3 == (d0 * 16 + d1) * 0x100 + (d2 * 16 + d3);
  }

  /** Two hex digits are the `Hex2` of their value. */
  lemma Hex2OfDigits(c0: char, c1: char)
    requires IsLowerHexDigit(c0) && IsLowerHexDigit(c1)
    ensures DigitValue(c0) * 16 + DigitValue(c1) < 0x100
    ensures Hex2(DigitValue(c0) * 16 + DigitValue(c1)) == [c0, c1]
  {
    HexDigitValue(c0);
    HexDigitValue(c1);
    DivModNibble(DigitValue(c0), DigitValue(c1));
  }

  /** `parseInt(group, 16)` of a full group, as two bytes. */
  lemma ParseFullGroup(g: string)
    requires IsFullGroup(g)
    ensures var hi, lo := DigitValue(g[0]) * 16 + DigitValue(g[1]), DigitValue(g[2]) * 16 + DigitValue(g[3]);
      hi < 0x100 && lo < 0x100 && ParseInt(g, 16) == Some(hi * 0x100 + lo)
  {
    HexDigitValue(g[0]);
    HexDigitValue(g[1]);
    Hex2OfDigits(g[0], g[1]);
    Hex2OfDigits(g[2], g[3]);
    assert TrimStart(g) == g;
    forall i | 0 <= i < |g| ensures DigitValue(g[i]) < 16 {
      HexDigitValue(g[i]);
    }
    AllDigitsPrefix(g, 16);
    FourDigitsValue(g);
  }

  /** The two bytes written for a full group print back as the group. */
  lemma GroupWriteOfFullGroup(g: string)
    requires IsFullGroup(g)
    ensures |GroupWrite(g)| == 2 && Hex2(GroupWrite(g)[0]) + Hex2(GroupWrite(g)[1]) == g
  {
    GroupWriteBytes(g);
    FullGroupHex(g);
  }

  /** A full group is written as the values of its two digit pairs. */
  lemma GroupWriteBytes(g: string)
    requires IsFullGroup(g)
    ensures GroupWrite(g) == [DigitValue(g[0]) * 16 + DigitValue(g[1]), DigitValue(g[2]) * 16 + DigitValue(g[3])]
  {
    var hi, lo := DigitValue(g[0]) * 16 + DigitValue(g[1]), DigitValue(g[2]) * 16 + DigitValue(g[3]);
    Hex2OfDigits(g[0], g[1]);
    Hex2OfDigits(g[2], g[3]);
    GroupValue(hi, lo);
    GroupNumberOfFullGroup(g);
  }

  /** A full group is the `Hex2` of its two digit pairs. */
  lemma FullGroupHex(g: string)
    requires IsFullGroup(g)
    ensures Hex2(DigitValue(g[0]) * 16 + DigitValue(g[1])) + Hex2(DigitValue(g[2]) * 16 + DigitValue(g[3])) == g
  {
    Hex2OfDigits(g[0], g[1]);
    Hex2OfDigits(g[2], g[3]);
    assert g == [g[0], g[1]] + [g[2], g[3]];
  }

  /** What the bitwise operators see of a full group. */
  lemma GroupNumberOfFullGroup(g: string)
    requires IsFullGroup(g)
    ensures GroupNumber(g) ==
      (DigitValue(g[0]) * 16 + DigitValue(g[1])) * 0x100 + (DigitValue(g[2]) * 16 + DigitValue(g[3]))
  {
    var hi, lo := DigitValue(g[0]) * 16 + DigitValue(g[1]), DigitValue(g[2]) * 16 + DigitValue(g[3]);
    Hex2OfDigits(g[0], g[1]);
    Hex2OfDigits(g[2], g[3]);
    GroupValue(hi, lo);
    ParseFullGroup(g);
    assert (if g == [] then "0" else g) == g;
  }

  /** `parseInt` gave `hi * 256 + lo`: the shift and the mask take the two
      bytes apart again. */
  lemma GroupValue(hi: nat, lo: nat)
    requires hi < 0x100 && lo < 0x100
    ensures var v := hi * 0x100 + lo; ToInt32(v) == v && U8(v / 0x100) == hi && v % 0x100 == lo
  {
    DivModByte(hi, lo);
    ToInt32Small(hi * 0x100 + lo);
  }

  // ---------------------------------------------------------------------
  // AAAA addresses
  // ---------------------------------------------------------------------

  /** An AAAA address as `parseIPv6` prints it: eight full groups. */
  predicate IsFullIPv6(data: string) {
    var gs := Split(data, ':');
    |gs| == 8 && forall i :: 0 <= i < |gs| ==> IsFullGroup(gs[i])
  }

  /** Each group with a `:` in front. */
  function ColonLed(gs: seq<string>): string
    decreases |gs|
  {
    if gs == [] then [] else ColonLed(gs[..|gs| - 1]) + ":" + gs[|gs| - 1]
  }

  lemma {:induction false} ColonLedJoin(gs: seq<string>)
    requires |gs| >= 1
    ensures ColonLed(gs) == ":" + Join(gs, ':')
    decreases |gs|
  {
    var init, last := gs[..|gs| - 1], gs[|gs| - 1];
    if |gs| > 1 {
      ColonLedJoin(init);
      JoinAppend(init, [last], ':');
      assert init + [last] == gs;
    } else {
      assert init == [];
    }
  }

  lemma Parity(n: nat)
    ensures (2 * n) % 2 == 0 && (2 * n + 1) % 2 == 1
  {
  }

  /** A byte at an even index: a `:` and its two digits. */
  lemma Ipv6AccEven(bs: seq<byte>, b: byte, n: nat)
    requires |bs| == 2 * n
    ensures Ipv6Acc(bs + [b]) == Ipv6Acc(bs) + ":" + Hex2(b)
  {
    Parity(n);
    assert (bs + [b])[..|bs|] == bs;
  }

  /** A byte at an odd index: its two digits. */
  lemma Ipv6AccOdd(bs: seq<byte>, b: byte, n: nat)
    requires |bs| == 2 * n + 1
    ensures Ipv6Acc(bs + [b]) == Ipv6Acc(bs) + Hex2(b)
  {
    Parity(n);
    assert (bs + [b])[..|bs|] == bs;
    assert Ipv6Acc(bs) + "" == Ipv6Acc(bs);
  }

  /** Two more bytes after `n` pairs: a `:` and four digits. */
  lemma Ipv6AccPair(bs: seq<byte>, hi: byte, lo: byte, n: nat)
    requires |bs| == 2 * n
    ensures Ipv6Acc(bs + [hi, lo]) == Ipv6Acc(bs) + ":" + Hex2(hi) + Hex2(lo)
    ensures Ipv6Acc(bs + [hi, lo]) == Ipv6Acc(bs) + ":" + (Hex2(hi) + Hex2(lo))
  {
    var c := bs + [hi];
    assert c + [lo] == bs + [hi, lo];
    Ipv6AccEven(bs, hi, n);
    Ipv6AccOdd(c, lo, n);
    AppendAssoc(Ipv6Acc(bs) + ":", Hex2(hi), Hex2(lo));
  }

  /** Groups that are each written as two bytes that print back as the
      group: the bytes print back as the groups, each led by a `:`. */
  lemma {:induction false} Ipv6AccGroups(gs: seq<string>, write: string -> seq<byte>)
    requires forall i :: 0 <= i < |gs| ==>
      |write(gs[i])| == 2 && Hex2(write(gs[i])[0]) + Hex2(write(gs[i])[1]) == gs[i]
    ensures |ConcatMap(gs, write)| == 2 * |gs|
    ensures Ipv6Acc(ConcatMap(gs, write)) == ColonLed(gs)
    decreases |gs|
  {
    if gs != [] {
      var init, last := gs[..|gs| - 1], gs[|gs| - 1];
      assert forall i :: 0 <= i < |init| ==> init[i] == gs[i];
      Ipv6AccGroups(init, write);
      var before, w := ConcatMap(init, write), write(last);
      assert w == [w[0], w[1]];
      assert ConcatMap(gs, write) == before + [w[0], w[1]];
      Ipv6AccPair(before, w[0], w[1], |init|);
    }
  }

  /** An address of eight full groups is written as sixteen bytes that
      `parseIPv6` prints back as the same text. */
  lemma FullIPv6RoundTrip(data: string)
    requires IsFullIPv6(data)
    ensures |GroupsWrites(data)| == 16 && ParseIPv6(GroupsWrites(data)) == data
  {
    var gs := Split(data, ':');
    forall i | 0 <= i < |gs|
      ensures |GroupWrite(gs[i])| == 2 && Hex2(GroupWrite(gs[i])[0]) + Hex2(GroupWrite(gs[i])[1]) == gs[i]
    {
      GroupWriteOfFullGroup(gs[i]);
    }
    Ipv6AccGroups(gs, GroupWrite);
    ColonLedJoin(gs);
    JoinSplit(data, ':');
  }

  /** The groups `parseIPv6` prints for `n` pairs of bytes. */
  function Groups(bs: seq<byte>, n: nat): (gs: seq<string>)
    requires |bs| == 2 * n
    ensures |gs| == n
    decreases n
  {
    if n == 0 then []
    else Groups(bs[..2 * n - 2], n - 1) + [Hex2(bs[2 * n - 2]) + Hex2(bs[2 * n - 1])]
  }

  lemma HexCharIsLower(d: nat)
    requires d < 16
    ensures IsLowerHexDigit(HexChar(d)) && IsHexDigit(HexChar(d)) && HexChar(d) != ':'
  {
  }

  /** The group printed for two bytes is a full group. */
  lemma Hex2Group(hi: byte, lo: byte)
    ensures IsFullGroup(Hex2(hi) + Hex2(lo))
  {
    HexCharIsLower(hi / 16);
    HexCharIsLower(hi % 16);
    HexCharIsLower(lo / 16);
    HexCharIsLower(lo % 16);
  }

  lemma {:induction false} Ipv6AccBytes(bs: seq<byte>, n: nat)
    requires |bs| == 2 * n
    ensures Ipv6Acc(bs) == ColonLed(Groups(bs, n))
    decreases n
  {
    if n > 0 {
      var init := bs[..2 * n - 2];
      var hi, lo := bs[2 * n - 2], bs[2 * n - 1];
      assert bs == init + [hi, lo];
      Ipv6AccBytes(init, n - 1);
      Ipv6AccPair(init, hi, lo, n - 1);
      GroupsSnoc(bs, n, Hex2(hi) + Hex2(lo));
    }
  }

  /** Every printed group is a full group. */
  lemma {:induction false} GroupsFull(bs: seq<byte>, n: nat)
    requires |bs| == 2 * n
    ensures forall i :: 0 <= i < n ==> IsFullGroup(Groups(bs, n)[i])
    decreases n
  {
    if n > 0 {
      var init := bs[..2 * n - 2];
      var hi, lo := bs[2 * n - 2], bs[2 * n - 1];
      GroupsFull(init, n - 1);
      Hex2Group(hi, lo);
      GroupsSnoc(bs, n, Hex2(hi) + Hex2(lo));
    }
  }

  /** The groups of `n` pairs are those of the first `n - 1` pairs and the
      group of the last pair. */
  lemma GroupsSnoc(bs: seq<byte>, n: nat, g: string)
    requires |bs| == 2 * n && n > 0
    requires g == Hex2(bs[2 * n - 2]) + Hex2(bs[2 * n - 1])
    ensures Groups(bs, n) == Groups(bs[..2 * n - 2], n - 1) + [g]
    ensures ColonLed(Groups(bs, n)) == ColonLed(Groups(bs[..2 * n - 2], n - 1)) + ":" + g
  {
    var gs := Groups(bs, n);
    assert gs[..n - 1] == Groups(bs[..2 * n - 2], n - 1);
  }

  /** Whatever sixteen bytes arrive as AAAA RDATA, `parseIPv6` prints eight
      full groups, which `isValidIPv6` accepts and the server writes back as
      the same sixteen bytes. */
  lemma DecodedIPv6(bs: seq<byte>)
    requires |bs| == 16
    ensures IsFullIPv6(ParseIPv6(bs)) && IsValidIPv6(ParseIPv6(bs))
    ensures GroupsWrites(ParseIPv6(bs)) == bs
  {
    var gs := Groups(bs, 8);
    Ipv6AccBytes(bs, 8);
    GroupsFull(bs, 8);
    ColonLedJoin(gs);
    var text := Join(gs, ':');
    assert ParseIPv6(bs) == text;
    forall i | 0 <= i < |gs| ensures ':' !in gs[i] && IsHexGroup(gs[i]) {
      assert IsFullGroup(gs[i]);
    }
    SplitJoin(gs, ':');
    ByteGroups(bs, 8);
  }

  /** Writing the printed groups of `n` pairs of bytes gives the bytes. */
  lemma {:induction false} ByteGroups(bs: seq<byte>, n: nat)
    requires |bs| == 2 * n
    ensures ConcatMap(Groups(bs, n), GroupWrite) == bs
    decreases n
  {
    if n > 0 {
      var init := bs[..2 * n - 2];
      var hi, lo := bs[2 * n - 2], bs[2 * n - 1];
      var g := Hex2(hi) + Hex2(lo);
      assert bs == init + [hi, lo];
      ByteGroups(init, n - 1);
      assert Groups(bs, n) == Groups(init, n - 1) + [g];
      ConcatMapSnoc(Groups(init, n - 1), g, GroupWrite);
      GroupWriteOfHex(hi, lo);
    }
  }

  /** The group printed for two bytes is written back as those bytes. */
  lemma GroupWriteOfHex(hi: byte, lo: byte)
    ensures GroupWrite(Hex2(hi) + Hex2(lo)) == [hi, lo]
  {
    var h, l := Hex2(hi), Hex2(lo);
    var g := h + l;
    Hex2Group(hi, lo);
    GroupWriteBytes(g);
    assert g[0] == h[0] && g[1] == h[1] && g[2] == l[0] && g[3] == l[1];
    Hex2Value(hi);
    Hex2Value(lo);
  }

  /** The two digits `Hex2` prints read back as the byte. */
  lemma Hex2Value(b: byte)
    ensures DigitValue(Hex2(b)[0]) * 16 + DigitValue(Hex2(b)[1]) == b
  {
    HexValueOf(b / 16);
    HexValueOf(b % 16);
  }

  lemma HexValueOf(d: nat)
    requires d < 16
    ensures DigitValue(HexChar(d)) == d
  {
  }

  // ---------------------------------------------------------------------
  // A addresses
  // ---------------------------------------------------------------------

  /** Pieces of one byte each concatenate to those bytes. */
  lemma {:induction false} SingleBytes<T>(xs: seq<T>, f: T -> seq<byte>, ys: seq<byte>)
    requires |ys| == |xs| && forall i :: 0 <= i < |xs| ==> f(xs[i]) == [ys[i]]
    ensures ConcatMap(xs, f) == ys
    decreases |xs|
  {
    if xs != [] {
      var k := |xs| - 1;
      SingleBytes(xs[..k], f, ys[..k]);
      assert ys == ys[..k] + [ys[k]];
    }
  }

  lemma OctetWriteOfDecimal(n: byte)
    ensures OctetWrite(NatToString(n)) == [n]
  {
    ParseIntNat(n);
  }

  /** An address `isValidIPv4` accepts is written as four bytes that
      `parseIPv4` prints back as the same text. */
  lemma ValidIPv4RoundTrip(data: string)
    requires IsValidIPv4(data)
    ensures |OctetsWrites(data)| == 4 && ParseIPv4(OctetsWrites(data)) == data
  {
    var parts := Split(data, '.');
    var octets: seq<byte> := seq(4, i requires 0 <= i < 4 => OctetValue(parts[i]));
    forall i | 0 <= i < 4 ensures OctetWrite(parts[i]) == [octets[i]] {
      OctetWriteOfDecimal(octets[i]);
    }
    SingleBytes(parts, OctetWrite, octets);
    assert Decimals(octets) == parts;
    JoinSplit(data, '.');
  }

  /** Whatever four bytes arrive as A RDATA, `parseIPv4` prints an address
      that `isValidIPv4` accepts and the server writes back as the same four
      bytes. */
  lemma DecodedIPv4(bs: seq<byte>)
    requires |bs| == 4
    ensures IsValidIPv4(ParseIPv4(bs)) && OctetsWrites(ParseIPv4(bs)) == bs
  {
    var parts := Decimals(bs);
    DottedDecimalIsValidIPv4(bs);
    forall i | 0 <= i < |parts| ensures '.' !in parts[i] && OctetWrite(parts[i]) == [bs[i]] {
      OctetWriteOfDecimal(bs[i]);
    }
    SplitJoin(parts, '.');
    SingleBytes(parts, OctetWrite, bs);
  }

  // ---------------------------------------------------------------------
  // Owner names
  // ---------------------------------------------------------------------

  /** Labels the decoder reads back as written: 1 to 191 ASCII characters,
      so that no length byte is the terminator or looks like a pointer. */
  predicate PlainLabels(parts: seq<string>) {
    forall i :: 0 <= i < |parts| ==> 1 <= |parts[i]| < 0xC0 && IsAscii(parts[i])
  }

  predicate IsPlainName(name: string) {
    PlainLabels(Split(name, '.'))
  }

  /** The first label of a written name sits at `offset`, the remaining
      labels and the terminator right after it. */
  lemma AnswerLabelsHead(msg: seq<byte>, offset: nat, parts: seq<string>)
    requires |parts| > 0 && PlainLabels(parts)
    requires offset + |ConcatMap(parts, AnswerLabel)| < |msg|
    requires msg[offset..offset + |ConcatMap(parts, AnswerLabel)| + 1] == ConcatMap(parts, AnswerLabel) + [0]
    ensures |ConcatMap(parts, AnswerLabel)| == 1 + |parts[0]| + |ConcatMap(parts[1..], AnswerLabel)|
    ensures PlainLabels(parts[1..])
    ensures msg[offset] == |parts[0]|
    ensures msg[offset + 1..offset + 1 + |parts[0]|] == CharBytes(parts[0])
    ensures var next := offset + 1 + |parts[0]|;
      msg[next..next + |ConcatMap(parts[1..], AnswerLabel)| + 1] == ConcatMap(parts[1..], AnswerLabel) + [0]
  {
    LabelsCons(parts);
    LabelSlices(msg, offset, |parts[0]|, CharBytes(parts[0]), ConcatMap(parts[1..], AnswerLabel) + [0]);
    PlainLabelsTail(parts);
  }

  /** A written name is its first label, length first, then the rest. */
  lemma LabelsCons(parts: seq<string>)
    requires |parts| > 0 && |parts[0]| < 0x100
    ensures ConcatMap(parts, AnswerLabel) + [0]
         == [|parts[0]|] + CharBytes(parts[0]) + (ConcatMap(parts[1..], AnswerLabel) + [0])
  {
    ConcatMapCons(parts[0], parts[1..], AnswerLabel);
    assert [parts[0]] + parts[1..] == parts;
  }

  lemma LabelSlices(msg: seq<byte>, offset: nat, length: byte, chars: seq<byte>, tail: seq<byte>)
    requires offset + 1 + |chars| + |tail| <= |msg|
    requires msg[offset..offset + 1 + |chars| + |tail|] == [length] + chars + tail
    ensures msg[offset] == length && msg[offset + 1..offset + 1 + |chars|] == chars
    ensures msg[offset + 1 + |chars|..offset + 1 + |chars| + |tail|] == tail
  {
    SliceThree(msg, offset, [length], chars, tail);
    assert msg[offset] == msg[offset..offset + 1][0];
  }

  lemma PlainLabelsTail(parts: seq<string>)
    requires |parts| > 0 && PlainLabels(parts)
    ensures PlainLabels(parts[1..])
  {
    var rest := parts[1..];
    forall i | 0 <= i < |rest| ensures 1 <= |rest[i]| < 0xC0 && IsAscii(rest[i]) {
      assert rest[i] == parts[i + 1];
    }
  }

  /** One label read by `parseName`. */
  lemma NameAtLabel(msg: seq<byte>, offset: nat, p: string, fuel: nat)
    requires 1 <= |p| < 0xC0 && IsAscii(p)
    requires offset + 1 + |p| <= |msg| && msg[offset] == |p|
    requires msg[offset + 1..offset + 1 + |p|] == CharBytes(p)
    ensures NameAt(msg, offset, fuel) == Prepend(p + ".", NameAt(msg, offset + 1 + |p|, fuel))
  {
    Latin1CharBytes(p);
  }

  /** A name written as plain labels and a terminator reads back as the
      labels, each followed by a dot, with the cursor just past the
      terminator; no pointer is followed, so the fuel plays no part. */
  lemma {:induction false} NameAtLabels(msg: seq<byte>, offset: nat, parts: seq<string>, fuel: nat)
    requires PlainLabels(parts)
    requires offset + |ConcatMap(parts, AnswerLabel)| < |msg|
    requires msg[offset..offset + |ConcatMap(parts, AnswerLabel)| + 1] == ConcatMap(parts, AnswerLabel) + [0]
    ensures NameAt(msg, offset, fuel) == Ok((DottedText(parts), offset + |ConcatMap(parts, AnswerLabel)| + 1))
    decreases |parts|
  {
    var end := offset + |ConcatMap(parts, AnswerLabel)| + 1;
    if parts == [] {
      assert msg[offset] == msg[offset..offset + 1][0];
    } else {
      var p, rest := parts[0], parts[1..];
      var next := offset + 1 + |p|;
      AnswerLabelsHead(msg, offset, parts);
      NameAtLabels(msg, next, rest, fuel);
      NameAtLabel(msg, offset, p, fuel);
      assert DottedText(parts) == p + "." + DottedText(rest);
    }
  }

  /** The labels of a plain name, with its terminator, read back as the name
      with a trailing dot. */
  lemma NameRoundTrip(msg: seq<byte>, offset: nat, name: string, fuel: nat)
    requires IsPlainName(name)
    requires offset + |NameWrites(name)| <= |msg|
    requires msg[offset..offset + |NameWrites(name)|] == NameWrites(name)
    ensures NameAt(msg, offset, fuel) == Ok((name + ".", offset + |NameWrites(name)|))
  {
    var parts := Split(name, '.');
    NameAtLabels(msg, offset, parts, fuel);
    DottedTextJoin(parts);
    JoinSplit(name, '.');
  }

  // ---------------------------------------------------------------------
  // Records
  // ---------------------------------------------------------------------

  /** A record in the shape the hosts file and the resolver give: a plain
      owner name, a TTL that fits the 32-bit field, and RDATA text in the form
      the decoder itself prints, short enough for the 16-bit RDLENGTH. */
  predicate IsPlainRecord(record: DNSRecord) {
    IsPlainName(record.name) && 0 <= record.ttl < 0x1_0000_0000 &&
    if record.rtype == "A" then IsValidIPv4(record.data)
    else if record.rtype == "AAAA" then IsFullIPv6(record.data)
    else IsAscii(record.data) && |record.data| < 0x1_0000
  }

  /** What the client reads for a record the server wrote. */
  function ReadBack(record: DNSRecord): DNSRecord {
    DNSRecord(record.name + ".", if record.rtype in ["A", "AAAA"] then record.rtype else "CNAME",
      record.ttl, record.data)
  }

  function ReadBacks(records: seq<DNSRecord>): (rs: seq<DNSRecord>)
    ensures |rs| == |records|
  {
    if records == [] then [] else [ReadBack(records[0])] + ReadBacks(records[1..])
  }

  /** RDATA is exactly RDLENGTH bytes long and prints back as the text. */
  lemma RDataRoundTrip(record: DNSRecord)
    requires IsPlainRecord(record)
    ensures |RDataBody(record)| == RDLength(record) < 0x1_0000
    ensures RDataText(TypeCode(record.rtype), RDataBody(record)) == record.data
  {
    if record.rtype == "A" {
      ValidIPv4RoundTrip(record.data);
    } else if record.rtype == "AAAA" {
      FullIPv6RoundTrip(record.data);
    } else {
      Utf8Ascii(record.data);
      Latin1CharBytes(record.data);
    }
  }

  /** Two bytes in the message that read as `v` big-endian. */
  lemma ReadBe16(msg: seq<byte>, at: nat, bs: seq<byte>, v: int)
    requires |bs| == 2 && Be16(bs[0], bs[1]) == v
    requires at + 2 <= |msg| && msg[at..at + 2] == bs
    ensures GetU16(msg, at) == Ok(v)
  {
    assert msg[at] == bs[0] && msg[at + 1] == bs[1];
  }

  /** Four bytes in the message that read as `v` big-endian. */
  lemma ReadBe32(msg: seq<byte>, at: nat, bs: seq<byte>, v: int)
    requires |bs| == 4 && Be32(bs[0], bs[1], bs[2], bs[3]) == v
    requires at + 4 <= |msg| && msg[at..at + 4] == bs
    ensures GetU32(msg, at) == Ok(v)
  {
    assert msg[at] == bs[0] && msg[at + 1] == bs[1] && msg[at + 2] == bs[2] && msg[at + 3] == bs[3];
  }

  /** A 16-bit field written at `at` reads back. */
  lemma ReadU16(msg: seq<byte>, at: nat, v: int)
    requires 0 <= v < 0x1_0000
    requires at + 2 <= |msg| && msg[at..at + 2] == U16(v)
    ensures GetU16(msg, at) == Ok(v)
  {
    U16Value(v);
    ReadBe16(msg, at, U16(v), v);
  }

  /** A 32-bit field written at `at` reads back. */
  lemma ReadU32(msg: seq<byte>, at: nat, v: int)
    requires 0 <= v < 0x1_0000_0000
    requires at + 4 <= |msg| && msg[at..at + 4] == U32(v)
    ensures GetU32(msg, at) == Ok(v)
  {
    U32Value(v);
    ReadBe32(msg, at, U32(v), v);
  }

  lemma U16Value(v: int)
    requires 0 <= v < 0x1_0000
    ensures Be16(U16(v)[0], U16(v)[1]) == v
  {
    Be16OfU16(v);
  }

  lemma U32Value(v: int)
    requires 0 <= v < 0x1_0000_0000
    ensures Be32(U32(v)[0], U32(v)[1], U32(v)[2], U32(v)[3]) == v
  {
    Be32OfU32(v);
  }

  /** Where TYPE, CLASS, TTL, RDLENGTH and RDATA sit after a name ending at
      `at`. */
  lemma FieldSlices(msg: seq<byte>, at: nat, rtype: seq<byte>, rclass: seq<byte>, ttl: seq<byte>,
                    length: seq<byte>, body: seq<byte>)
    requires |rtype| == 2 && |rclass| == 2 && |ttl| == 4 && |length| == 2
    requires at + 10 + |body| <= |msg|
    requires msg[at..at + 10 + |body|] == rtype + rclass + ttl + length + body
    ensures msg[at..at + 2] == rtype && msg[at + 4..at + 8] == ttl
    ensures msg[at + 8..at + 10] == length && msg[at + 10..at + 10 + |body|] == body
  {
    var run := rtype + rclass + ttl + length + body;
    SliceInSlice(msg, at, run, 0, 2, rtype);
    SliceInSlice(msg, at, run, 4, 8, ttl);
    SliceInSlice(msg, at, run, 8, 10, length);
    SliceInSlice(msg, at, run, 10, 10 + |body|, body);
  }

  /** TYPE, CLASS, TTL, RDLENGTH and RDATA written as values read back. */
  lemma FieldsRead(msg: seq<byte>, at: nat, code: int, ttl: int, body: seq<byte>)
    requires 0 <= code < 0x1_0000 && 0 <= ttl < 0x1_0000_0000 && |body| < 0x1_0000
    requires at + 10 + |body| <= |msg|
    requires msg[at..at + 10 + |body|] == U16(code) + U16(1) + U32(ttl) + U16(|body|) + body
    ensures FieldsAt(msg, at) == Ok((code, ttl, body))
  {
    FieldSlices(msg, at, U16(code), U16(1), U32(ttl), U16(|body|), body);
    ReadU16(msg, at, code);
    ReadU32(msg, at + 4, ttl);
    ReadU16(msg, at + 8, |body|);
    assert Slice(msg, at + 10, |body|) == Ok(body);
  }

  /** TYPE, CLASS, TTL, RDLENGTH and RDATA of a record read back. */
  lemma FieldsRoundTrip(msg: seq<byte>, at: nat, record: DNSRecord)
    requires IsPlainRecord(record)
    requires at + |FixedFields(record) + RDataWrites(record)| <= |msg|
    requires msg[at..at + |FixedFields(record) + RDataWrites(record)|] == FixedFields(record) + RDataWrites(record)
    ensures FieldsAt(msg, at) == Ok((TypeCode(record.rtype), record.ttl, RDataBody(record)))
  {
    var body := RDataBody(record);
    RDataRoundTrip(record);
    assert FixedFields(record) + RDataWrites(record)
        == U16(TypeCode(record.rtype)) + U16(1) + U32(record.ttl) + U16(|body|) + body;
    FieldsRead(msg, at, TypeCode(record.rtype), record.ttl, body);
  }

  /** One record the server wrote reads back as `ReadBack`, with the cursor
      just past it. */
  lemma RecordRoundTrip(msg: seq<byte>, offset: nat, record: DNSRecord, fuel: nat)
    requires IsPlainRecord(record)
    requires offset + |RecordWrites(record)| <= |msg|
    requires msg[offset..offset + |RecordWrites(record)|] == RecordWrites(record)
    ensures RecordAt(msg, offset, fuel) == Ok((ReadBack(record), offset + |RecordWrites(record)|))
  {
    var name := NameWrites(record.name);
    var fields := FixedFields(record) + RDataWrites(record);
    assert RecordWrites(record) == name + fields + [];
    SliceThree(msg, offset, name, fields, []);
    NameRoundTrip(msg, offset, record.name, fuel);
    FieldsRoundTrip(msg, offset + |name|, record);
    RenderReadBack(record);
    RecordAtOf(msg, offset, fuel, record.name + ".", offset + |name|,
      TypeCode(record.rtype), record.ttl, RDataBody(record));
  }

  /** A record is its name followed by its fields. */
  lemma RecordAtOf(msg: seq<byte>, offset: nat, fuel: nat, name: string, at: nat,
                   code: nat, ttl: nat, body: seq<byte>)
    requires NameAt(msg, offset, fuel) == Ok((name, at))
    requires FieldsAt(msg, at) == Ok((code, ttl, body))
    ensures RecordAt(msg, offset, fuel) == Ok((Render(name, code, ttl, body), at + 10 + |body|))
  {
  }

  /** What the decoder renders from a plain record's fields is its read-back
      form, and the record spans its name, ten fixed bytes and its RDATA. */
  lemma RenderReadBack(record: DNSRecord)
    requires IsPlainRecord(record)
    ensures Render(record.name + ".", TypeCode(record.rtype), record.ttl, RDataBody(record)) == ReadBack(record)
    ensures |RecordWrites(record)| == |NameWrites(record.name)| + 10 + |RDataBody(record)|
  {
    RDataRoundTrip(record);
    TypeCodeName(record.rtype);
  }

  /** `bytes` written anywhere in `msg` reads back as `ReadBack(record)`. */
  ghost predicate ReadsBackAt(msg: seq<byte>, fuel: nat, record: DNSRecord, bytes: seq<byte>) {
    forall k: nat {:trigger RecordAt(msg, k, fuel)} ::
      k + |bytes| <= |msg| && msg[k..k + |bytes|] == bytes ==>
        RecordAt(msg, k, fuel) == Ok((ReadBack(record), k + |bytes|))
  }

  lemma RecordReadsBack(msg: seq<byte>, fuel: nat, record: DNSRecord)
    requires IsPlainRecord(record)
    ensures ReadsBackAt(msg, fuel, record, RecordWrites(record))
  {
    forall k: nat | k + |RecordWrites(record)| <= |msg| && msg[k..k + |RecordWrites(record)|] == RecordWrites(record)
      ensures RecordAt(msg, k, fuel) == Ok((ReadBack(record), k + |RecordWrites(record)|))
    {
      RecordRoundTrip(msg, k, record, fuel);
    }
  }

  /** Every chunk reads back as its record. */
  ghost predicate ChunksReadBack(msg: seq<byte>, fuel: nat, records: seq<DNSRecord>, write: DNSRecord -> seq<byte>) {
    forall i :: 0 <= i < |records| ==> ReadsBackAt(msg, fuel, records[i], write(records[i]))
  }

  /** An answer section made of chunks that each read back as their record
      reads back record by record. */
  lemma {:induction false} AnswersOfChunks(msg: seq<byte>, offset: nat, records: seq<DNSRecord>,
                                           write: DNSRecord -> seq<byte>, count: nat, fuel: nat,
                                           done: seq<DNSRecord>)
    requires ChunksReadBack(msg, fuel, records, write)
    requires |done| + |records| == count
    requires offset + |ConcatMap(records, write)| <= |msg|
    requires msg[offset..offset + |ConcatMap(records, write)|] == ConcatMap(records, write)
    ensures Answers(msg, offset, count, fuel, done) == Ok(done + ReadBacks(records))
    decreases |records|
  {
    if records == [] {
      assert done + ReadBacks(records) == done;
    } else {
      var next := FirstChunk(msg, offset, records, write, fuel);
      var read := ReadBack(records[0]);
      ChunkStep(msg, offset, count, fuel, done, records[0], write(records[0]));
      AnswersOfChunks(msg, next, records[1..], write, count, fuel, done + [read]);
      ReadBacksCons(done, records);
    }
  }

  lemma ReadBacksCons(done: seq<DNSRecord>, records: seq<DNSRecord>)
    requires records != []
    ensures done + ReadBacks(records) == (done + [ReadBack(records[0])]) + ReadBacks(records[1..])
  {
    AppendAssoc(done, [ReadBack(records[0])], ReadBacks(records[1..]));
  }

  /** The first chunk of an answer section reads back, and the rest of the
      section follows it. */
  lemma FirstChunk(msg: seq<byte>, offset: nat, records: seq<DNSRecord>, write: DNSRecord -> seq<byte>,
                   fuel: nat) returns (next: nat)
    requires records != []
    requires ChunksReadBack(msg, fuel, records, write)
    requires offset + |ConcatMap(records, write)| <= |msg|
    requires msg[offset..offset + |ConcatMap(records, write)|] == ConcatMap(records, write)
    ensures next == offset + |write(records[0])|
    ensures next <= |msg| && msg[offset..next] == write(records[0])
    ensures ChunksReadBack(msg, fuel, records[1..], write)
    ensures next + |ConcatMap(records[1..], write)| <= |msg|
    ensures msg[next..next + |ConcatMap(records[1..], write)|] == ConcatMap(records[1..], write)
  {
    var first, rest := records[0], records[1..];
    var writes := write(first);
    var tail := ConcatMap(rest, write);
    next := offset + |writes|;
    ConcatMapCons(first, rest, write);
    assert [first] + rest == records;
    assert ConcatMap(records, write) == writes + tail + [];
    SliceThree(msg, offset, writes, tail, []);
  }

  /** A chunk that reads back as its record is one step of the answer loop. */
  lemma ChunkStep(msg: seq<byte>, offset: nat, count: nat, fuel: nat, done: seq<DNSRecord>,
                  record: DNSRecord, bytes: seq<byte>)
    requires |done| < count
    requires ReadsBackAt(msg, fuel, record, bytes)
    requires offset + |bytes| <= |msg| && msg[offset..offset + |bytes|] == bytes
    ensures Answers(msg, offset, count, fuel, done) == Answers(msg, offset + |bytes|, count, fuel, done + [ReadBack(record)])
  {
    ChunkReadsBack(msg, offset, record, bytes, fuel);
    AnswersStepOk(msg, offset, count, fuel, done, ReadBack(record), offset + |bytes|);
  }

  lemma ChunkReadsBack(msg: seq<byte>, offset: nat, record: DNSRecord, bytes: seq<byte>, fuel: nat)
    requires ReadsBackAt(msg, fuel, record, bytes)
    requires offset + |bytes| <= |msg| && msg[offset..offset + |bytes|] == bytes
    ensures RecordAt(msg, offset, fuel) == Ok((ReadBack(record), offset + |bytes|))
  {
  }

  lemma AnswersStepOk(msg: seq<byte>, offset: nat, count: nat, fuel: nat, done: seq<DNSRecord>,
                      read: DNSRecord, next: nat)
    requires |done| < count && RecordAt(msg, offset, fuel) == Ok((read, next))
    ensures Answers(msg, offset, count, fuel, done) == Answers(msg, next, count, fuel, done + [read])
  {
    AnswersStep(msg, offset, count, fuel, done);
  }

  /** QDCOUNT and ANCOUNT of the server's header read back, and the answers
      start at offset 12. */
  lemma HeaderCounts(msg: seq<byte>, n: int, answers: seq<byte>)
    requires 0 <= n < 0x1_0000
    requires msg == ResponseHeader(n) + answers
    ensures GetU16(msg, 4) == Ok(0) && GetU16(msg, 6) == Ok(n)
    ensures msg[12..12 + |answers|] == answers
  {
    HeaderBytes(n);
    U16Value(n);
    HeaderLayout(msg, ResponseHeader(n), U16(n), answers);
  }

  lemma HeaderLayout(msg: seq<byte>, header: seq<byte>, count: seq<byte>, answers: seq<byte>)
    requires |count| == 2 && header == [0xAB, 0xCD, 0x81, 0x80, 0, 0] + count + [0, 0, 0, 0]
    requires msg == header + answers
    ensures GetU16(msg, 4) == Ok(0) && GetU16(msg, 6) == Ok(Be16(count[0], count[1]))
    ensures msg[12..12 + |answers|] == answers
  {
    assert msg[4] == 0 && msg[5] == 0 && msg[6] == count[0] && msg[7] == count[1];
  }

  /** Every message the server writes for plain records, at most 65535 of
      them, is read by the client as those records in order, each with a
      trailing dot on its name and every type other than A and AAAA read as
      CNAME. */
  lemma ResponseRoundTrip(records: seq<DNSRecord>)
    requires forall i :: 0 <= i < |records| ==> IsPlainRecord(records[i])
    requires |records| < 0x1_0000
    ensures EncodeResponse(records).Ok?
    ensures DecodeResponse(EncodeResponse(records).value) == Ok(ReadBacks(records))
  {
    var n := |records|;
    PlainSized(records);
    ExactSize(records);
    var msg := ResponseWrites(records);
    forall i | 0 <= i < n ensures ReadsBackAt(msg, |msg|, records[i], RecordWrites(records[i])) {
      RecordReadsBack(msg, |msg|, records[i]);
    }
    ChunksDecode(msg, records, RecordWrites);
  }

  /** A header for `|records|` answers followed by chunks that each read back
      as their record decodes to those records read back. */
  lemma ChunksDecode(msg: seq<byte>, records: seq<DNSRecord>, write: DNSRecord -> seq<byte>)
    requires |records| < 0x1_0000
    requires msg == ResponseHeader(|records|) + ConcatMap(records, write)
    requires forall i :: 0 <= i < |records| ==> ReadsBackAt(msg, |msg|, records[i], write(records[i]))
    ensures DecodeResponse(msg) == Ok(ReadBacks(records))
  {
    var n := |records|;
    HeaderCounts(msg, n, ConcatMap(records, write));
    AnswersFrom12(msg, records, write);
    DecodeNoQuestions(msg, n, ReadBacks(records));
  }

  lemma AnswersFrom12(msg: seq<byte>, records: seq<DNSRecord>, write: DNSRecord -> seq<byte>)
    requires 12 + |ConcatMap(records, write)| <= |msg|
    requires msg[12..12 + |ConcatMap(records, write)|] == ConcatMap(records, write)
    requires forall i :: 0 <= i < |records| ==> ReadsBackAt(msg, |msg|, records[i], write(records[i]))
    ensures Answers(msg, 12, |records|, |msg|, []) == Ok(ReadBacks(records))
  {
    AnswersOfChunks(msg, 12, records, write, |records|, |msg|, []);
    assert [] + ReadBacks(records) == ReadBacks(records);
  }

  /** Plain records are sized exactly by the server's size estimate. */
  lemma PlainSized(records: seq<DNSRecord>)
    requires forall i :: 0 <= i < |records| ==> IsPlainRecord(records[i])
    ensures forall i :: 0 <= i < |records| ==> SizedRecord(records[i])
  {
    forall i | 0 <= i < |records| ensures SizedRecord(records[i]) {
      var r := records[i];
      if r.rtype == "A" {
        assert IsValidIPv4(r.data);
      } else if r.rtype == "AAAA" {
        assert IsFullIPv6(r.data);
      }
    }
  }

  /** A message with no questions decodes to its answers, read from offset 12. */
  lemma DecodeNoQuestions(msg: seq<byte>, n: nat, answers: seq<DNSRecord>)
    requires GetU16(msg, 4) == Ok(0) && GetU16(msg, 6) == Ok(n)
    requires Answers(msg, 12, n, |msg|, []) == Ok(answers)
    ensures DecodeResponse(msg) == Ok(answers)
  {
  }

  // ---------------------------------------------------------------------
  // skipQuestionSection over an echoed question
  // ---------------------------------------------------------------------

  /** A question written as labels, a terminator, QTYPE and QCLASS is skipped
      to exactly its end: past the labels, the zero byte and the four bytes. */
  lemma {:induction false} QuestionEndLabels(msg: seq<byte>, offset: nat, parts: seq<string>)
    requires QueryableLabels(parts)
    requires offset + |ConcatMap(parts, QuestionLabel)| < |msg|
    requires msg[offset..offset + |ConcatMap(parts, QuestionLabel)| + 1] == ConcatMap(parts, QuestionLabel) + [0]
    ensures QuestionEnd(msg, offset) == Ok(offset + |ConcatMap(parts, QuestionLabel)| + 5)
    decreases |parts|
  {
    if parts == [] {
      assert msg[offset] == msg[offset..offset + 1][0];
    } else {
      LabelsHead(msg, offset, parts);
      QuestionEndLabels(msg, offset + 1 + |parts[0]|, parts[1..]);
    }
  }

  /** The question of a query the client generates is skipped to the end of
      the message: the cursor lands where an echoing upstream's answers start. */
  lemma GeneratedQuestionEnd(domain: string, queryType: QueryType)
    requires QueryableName(domain)
    ensures QuestionEnd(GenerateDNSMessage(domain, queryType), 12) == Ok(|GenerateDNSMessage(domain, queryType)|)
  {
    var msg := GenerateDNSMessage(domain, queryType);
    var labels := ConcatMap(Split(domain, '.'), QuestionLabel);
    var trailer := QueryTypeCode(queryType) + [0x00, 0x01];
    AppendAssoc(QueryHeader + labels + [0], QueryTypeCode(queryType), [0x00, 0x01]);
    AppendAssoc(QueryHeader, labels, [0]);
    assert msg == QueryHeader + (labels + [0]) + trailer;
    SliceThree(msg, 0, QueryHeader, labels + [0], trailer);
    QuestionEndLabels(msg, 12, Split(domain, '.'));
  }

  // ---------------------------------------------------------------------
  // fetchDNSQuery against the server
  // ---------------------------------------------------------------------

  /** The body `fetchDNSQuery` posts is a query that `parseDNSQuery` reads
      back as the domain and type asked for. */
  lemma RequestRoundTrip(dns: string, domain: string, queryType: QueryType)
    requires QueryableName(domain)
    ensures ParseQuery(QueryRequest(dns, domain, queryType).body) == Ok(DNSQuery(domain, queryType))
  {
    ParseGeneratedQuery(domain, queryType);
  }

  /** With an upstream that answers with the message the server writes, the
      client returns the records read back. */
  lemma FetchRoundTrip(dns: string, domain: string, queryType: QueryType, records: seq<DNSRecord>,
                       send: HttpRequest -> Result<HttpResponse>, status: int, body: seq<byte>)
    requires dns != [] && domain != []
    requires forall i :: 0 <= i < |records| ==> IsPlainRecord(records[i])
    requires |records| < 0x1_0000
    requires EncodeResponse(records) == Ok(body)
    requires send(QueryRequest(dns, domain, queryType)) == Ok(HttpResponse(true, status, body))
    ensures FetchDNSQuery(dns, domain, queryType, send) == Ok(ReadBacks(records))
  {
    ResponseRoundTrip(records);
  }
}
