/**
 * The input validators of utils/validators.ts: dotted-quad IPv4, the IPv6
 * regular expression, `https://` URLs and the DNS-service field that accepts
 * any of them or nothing.  `new URL(...)` is a parameter: whether the URL
 * parser accepts a string is not modelled.
 */
module Validators {
  import opened JsText
  import opened Bytes

  // ---------------------------------------------------------------------
  // IPv4
  // ---------------------------------------------------------------------

  /** One part passes when `parseInt(part, 10)` is a number in 0..255 whose
      `toString()` is the part itself. */
  predicate IsOctetText(part: string) {
    var num := ParseInt(part, 10);
    num.Some? && 0 <= num.value <= 255 && part == IntToString(num.value)
  }

  /** `isValidIPv4`: exactly four `.`-separated parts, each an octet. */
  predicate IsValidIPv4(ip: string) {
    var parts := Split(ip, '.');
    |parts| == 4 && forall i :: 0 <= i < |parts| ==> IsOctetText(parts[i])
  }

  /** A part passes exactly when it is the canonical decimal text of a value in
      0..255: no sign, no leading zero, no white space, nothing after. */
  lemma OctetTextIsCanonical(part: string)
    ensures IsOctetText(part) <==> exists n: nat :: n < 256 && part == NatToString(n)
  {
    if IsOctetText(part) {
      var n: nat := ParseInt(part, 10).value;
      assert part == NatToString(n);
    } else if exists n: nat :: n < 256 && part == NatToString(n) {
      var n: nat :| n < 256 && part == NatToString(n);
      ParseIntNat(n);
    }
  }

  /** Any four bytes printed in decimal and joined by `.` are a valid IPv4
      address. */
  lemma DottedDecimalIsValidIPv4(octets: seq<byte>)
    requires |octets| == 4
    ensures IsValidIPv4(DottedDecimal(octets))
  {
    var parts := Decimals(octets);
    forall i | 0 <= i < |parts| ensures '.' !in parts[i] && IsOctetText(parts[i]) {
      ParseIntNat(octets[i]);
      assert parts[i] == NatToString(octets[i]);
    }
    SplitJoin(parts, '.');
  }

  /** Conversely, a valid IPv4 address is the dotted-decimal text of four
      bytes. */
  lemma ValidIPv4IsDottedDecimal(ip: string)
    requires IsValidIPv4(ip)
    ensures exists octets: seq<byte> :: |octets| == 4 && ip == DottedDecimal(octets)
  {
    var parts := Split(ip, '.');
    var octets: seq<byte> := seq(4, i requires 0 <= i < 4 => OctetValue(parts[i]));
    assert Decimals(octets) == parts;
    JoinSplit(ip, '.');
  }

  function OctetValue(part: string): (b: byte)
    requires IsOctetText(part)
    ensures part == NatToString(b)
  {
    ParseInt(part, 10).value
  }

  // ---------------------------------------------------------------------
  // IPv6
  // ---------------------------------------------------------------------

  /** The class `[0-9a-fA-F]`. */
  predicate IsHexDigit(c: char) {
    '0' <= c <= '9' || 'a' <= c <= 'f' || 'A' <= c <= 'F'
  }

  /** `[0-9a-fA-F]{1,4}`. */
  predicate IsHexGroup(g: string) {
    1 <= |g| <= 4 && forall i :: 0 <= i < |g| ==> IsHexDigit(g[i])
  }

  predicate AllHexGroups(gs: seq<string>) {
    forall i :: 0 <= i < |gs| ==> IsHexGroup(gs[i])
  }

  /** The `:`-separated fields contain two adjacent empty fields, not the last
      ones, with hex groups everywhere else. */
  predicate IsCompressedFields(fields: seq<string>) {
    exists i :: 0 <= i < |fields| - 2 && fields[i] == [] && fields[i + 1] == [] &&
      AllHexGroups(fields[..i]) && AllHexGroups(fields[i + 2..])
  }

  /** `isValidIPv6`, read on the `:`-separated fields of the input. */
  predicate IsValidIPv6(ip: string) {
    var fields := Split(ip, ':');
    (|fields| == 8 && AllHexGroups(fields)) || ip == "::1" || ip == "::" || IsCompressedFields(fields)
  }

  /** `([0-9a-fA-F]{1,4}:)*` matched by the groups `gs`. */
  function ColonTerminated(gs: seq<string>): string {
    if gs == [] then [] else gs[0] + ":" + ColonTerminated(gs[1..])
  }

  /** `^([0-9a-fA-F]{1,4}:){7}[0-9a-fA-F]{1,4}$` */
  ghost predicate MatchesFullForm(s: string) {
    exists gs: seq<string>, last: string ::
      |gs| == 7 && AllHexGroups(gs) && IsHexGroup(last) && s == ColonTerminated(gs) + last
  }

  /** `^([0-9a-fA-F]{1,4}:)*::([0-9a-fA-F]{1,4}:)*[0-9a-fA-F]{1,4}$` */
  ghost predicate MatchesCompressedForm(s: string) {
    exists head: seq<string>, tail: seq<string>, last: string ::
      AllHexGroups(head) && AllHexGroups(tail) && IsHexGroup(last) &&
      s == ColonTerminated(head) + "::" + ColonTerminated(tail) + last
  }

  /** The language of the whole expression, written as what it spells. */
  ghost predicate MatchesIPv6Regex(s: string) {
    MatchesFullForm(s) || s == "::1" || s == "::" || MatchesCompressedForm(s)
  }

  lemma {:induction false} ColonTerminatedJoin(gs: seq<string>, rest: seq<string>)
    requires |rest| >= 1
    ensures ColonTerminated(gs) + Join(rest, ':') == Join(gs + rest, ':')
    decreases |gs|
  {
    if gs != [] {
      ColonTerminatedJoin(gs[1..], rest);
      assert (gs + rest)[1..] == gs[1..] + rest;
      assert (gs + rest)[0] == gs[0];
    } else {
      assert gs + rest == rest;
    }
  }

  /** Two empty fields at the front of a list join to `::`. */
  lemma JoinTwoEmpty(r: seq<string>)
    requires |r| >= 1
    ensures Join(["", ""] + r, ':') == "::" + Join(r, ':')
  {
    assert (["", ""] + r)[1..] == [""] + r;
    assert ([""] + r)[1..] == r;
  }

  lemma CompressedJoin(head: seq<string>, tail: seq<string>, last: string)
    ensures ColonTerminated(head) + "::" + ColonTerminated(tail) + last ==
            Join(head + ["", ""] + tail + [last], ':')
  {
    var r := tail + [last];
    calc {
      ColonTerminated(head) + "::" + ColonTerminated(tail) + last;
      ColonTerminated(head) + ("::" + (ColonTerminated(tail) + last));
      { ColonTerminatedJoin(tail, [last]); }
      ColonTerminated(head) + ("::" + Join(r, ':'));
      { JoinTwoEmpty(r); }
      ColonTerminated(head) + Join(["", ""] + r, ':');
      { ColonTerminatedJoin(head, ["", ""] + r); }
      Join(head + (["", ""] + r), ':');
      { assert head + (["", ""] + r) == head + ["", ""] + tail + [last]; }
      Join(head + ["", ""] + tail + [last], ':');
    }
  }

  lemma GroupsHaveNoColon(gs: seq<string>)
    requires AllHexGroups(gs)
    ensures forall i :: 0 <= i < |gs| ==> ':' !in gs[i]
  {
    forall i, k | 0 <= i < |gs| && 0 <= k < |gs[i]| ensures gs[i][k] != ':' {
      assert IsHexDigit(gs[i][k]);
    }
  }

  lemma FullFieldsMatch(s: string)
    requires |Split(s, ':')| == 8 && AllHexGroups(Split(s, ':'))
    ensures MatchesFullForm(s)
  {
    var fields := Split(s, ':');
    JoinSplit(s, ':');
    var gs, last := fields[..7], fields[7];
    ColonTerminatedJoin(gs, [last]);
    assert gs + [last] == fields;
  }

  lemma CompressedFieldsMatch(s: string)
    requires IsCompressedFields(Split(s, ':'))
    ensures MatchesCompressedForm(s)
  {
    var fields := Split(s, ':');
    var i :| 0 <= i < |fields| - 2 && fields[i] == [] && fields[i + 1] == [] &&
      AllHexGroups(fields[..i]) && AllHexGroups(fields[i + 2..]);
    var head, rest := fields[..i], fields[i + 2..];
    var tail, last := rest[..|rest| - 1], rest[|rest| - 1];
    CompressedFieldsShape(fields, i);
    JoinSplit(s, ':');
    CompressedJoin(head, tail, last);
    assert s == ColonTerminated(head) + "::" + ColonTerminated(tail) + last;
  }

  /** The fields around the empty pair: hex groups before, hex groups and a
      last group after. */
  lemma CompressedFieldsShape(fields: seq<string>, i: nat)
    requires i < |fields| - 2 && fields[i] == [] && fields[i + 1] == []
    requires AllHexGroups(fields[..i]) && AllHexGroups(fields[i + 2..])
    ensures var rest := fields[i + 2..];
      fields == fields[..i] + ["", ""] + rest[..|rest| - 1] + [rest[|rest| - 1]] &&
      AllHexGroups(rest[..|rest| - 1]) && IsHexGroup(rest[|rest| - 1])
  {
    var rest := fields[i + 2..];
    var tail, last := rest[..|rest| - 1], rest[|rest| - 1];
    assert AllHexGroups(tail) by {
      forall k | 0 <= k < |tail| ensures IsHexGroup(tail[k]) {
        assert tail[k] == rest[k];
      }
    }
    assert rest == tail + [last];
    assert fields == fields[..i] + ["", ""] + rest;
  }

  lemma FullFormRecognised(gs: seq<string>, last: string)
    requires |gs| == 7 && AllHexGroups(gs) && IsHexGroup(last)
    ensures IsValidIPv6(ColonTerminated(gs) + last)
  {
    var parts := gs + [last];
    ColonTerminatedJoin(gs, [last]);
    assert AllHexGroups(parts);
    GroupsHaveNoColon(parts);
    SplitJoin(parts, ':');
  }

  lemma CompressedPartsNoColon(head: seq<string>, r: seq<string>)
    requires AllHexGroups(head) && AllHexGroups(r)
    ensures forall k :: 0 <= k < |head + ["", ""] + r| ==> ':' !in (head + ["", ""] + r)[k]
  {
    var parts := head + ["", ""] + r;
    GroupsHaveNoColon(head);
    GroupsHaveNoColon(r);
    forall k | 0 <= k < |parts| ensures ':' !in parts[k] {
      if k >= |head| + 2 {
        assert parts[k] == r[k - |head| - 2];
      } else if k < |head| {
        assert parts[k] == head[k];
      }
    }
  }

  lemma CompressedPartsFields(head: seq<string>, r: seq<string>)
    requires AllHexGroups(head) && AllHexGroups(r) && |r| >= 1
    ensures IsCompressedFields(head + ["", ""] + r)
  {
    var parts := head + ["", ""] + r;
    var i := |head|;
    assert parts[i] == [] && parts[i + 1] == [];
    assert parts[..i] == head;
    assert parts[i + 2..] == r;
  }

  lemma CompressedFormRecognised(head: seq<string>, tail: seq<string>, last: string)
    requires AllHexGroups(head) && AllHexGroups(tail) && IsHexGroup(last)
    ensures IsValidIPv6(ColonTerminated(head) + "::" + ColonTerminated(tail) + last)
  {
    var x := ColonTerminated(head) + "::" + ColonTerminated(tail) + last;
    var r := tail + [last];
    var parts := head + ["", ""] + r;
    assert AllHexGroups(r);
    CompressedPartsNoColon(head, r);
    CompressedPartsFields(head, r);
    CompressedJoin(head, tail, last);
    assert head + ["", ""] + tail + [last] == parts;
    SplitJoin(parts, ':');
    assert Split(x, ':') == parts;
  }

  /** The field recogniser accepts exactly the language of the regular
      expression. */
  lemma IsValidIPv6MatchesRegex(s: string)
    ensures IsValidIPv6(s) <==> MatchesIPv6Regex(s)
  {
    var fields := Split(s, ':');
    if |fields| == 8 && AllHexGroups(fields) {
      FullFieldsMatch(s);
    }
    if IsCompressedFields(fields) {
      CompressedFieldsMatch(s);
    }
    if MatchesFullForm(s) {
      var gs: seq<string>, last: string :|
        |gs| == 7 && AllHexGroups(gs) && IsHexGroup(last) && s == ColonTerminated(gs) + last;
      FullFormRecognised(gs, last);
    }
    if MatchesCompressedForm(s) {
      var head: seq<string>, tail: seq<string>, last: string :|
        AllHexGroups(head) && AllHexGroups(tail) && IsHexGroup(last) &&
        s == ColonTerminated(head) + "::" + ColonTerminated(tail) + last;
      CompressedFormRecognised(head, tail, last);
    }
  }

  /** Outside the eight-group form and the two literals, the expression only
      takes `::` at the very start or right after a group's own `:`, so the
      text begins with `:` or holds three colons in a row. */
  lemma CompressedFormNeedsThreeColons(s: string)
    requires IsValidIPv6(s) && |Split(s, ':')| != 8
    ensures |s| > 0
    ensures s[0] == ':' || exists k :: 0 <= k < |s| - 2 && s[k] == ':' && s[k + 1] == ':' && s[k + 2] == ':'
  {
    var fields := Split(s, ':');
    JoinSplit(s, ':');
    if s != "::1" && s != "::" {
      var i :| 0 <= i < |fields| - 2 && fields[i] == [] && fields[i + 1] == [] &&
        AllHexGroups(fields[..i]) && AllHexGroups(fields[i + 2..]);
      EmptyPairJoin(fields, i);
      if i == 0 {
        assert fields[0..] == fields;
      } else {
        ColonRunAt(fields, i);
      }
    }
  }

  /** Two empty fields in a row join to `::` before the rest. */
  lemma EmptyPairJoin(fields: seq<string>, i: nat)
    requires i < |fields| - 2 && fields[i] == [] && fields[i + 1] == []
    ensures Join(fields[i..], ':') == "::" + Join(fields[i + 2..], ':')
  {
    assert fields[i..] == ["", ""] + fields[i + 2..];
    JoinTwoEmpty(fields[i + 2..]);
  }

  /** Past a non-empty front, the separator before two empty fields makes a
      run of three colons. */
  lemma ColonRunAt(fields: seq<string>, i: nat)
    requires 0 < i < |fields| - 2
    requires Join(fields[i..], ':') == "::" + Join(fields[i + 2..], ':')
    ensures var s, k := Join(fields, ':'), |Join(fields[..i], ':')|;
      k + 2 < |s| && s[k] == ':' && s[k + 1] == ':' && s[k + 2] == ':'
  {
    var front := Join(fields[..i], ':');
    var back := Join(fields[i..], ':');
    JoinAppend(fields[..i], fields[i..], ':');
    assert fields[..i] + fields[i..] == fields;
    assert Join(fields, ':') == front + [':'] + back;
  }


  /** The usual compressed form with a non-empty head is rejected. */
  lemma RejectsDocumentationAddress()
    ensures !IsValidIPv6("2001:db8::1")
  {
    var fields := ["2001", "db8", "", "1"];
    assert Join(fields, ':') == "2001:db8::1";
    assert ':' !in fields[0] && ':' !in fields[1] && ':' !in fields[3];
    SplitJoin(fields, ':');
    assert !IsHexGroup("");
  }

  // ---------------------------------------------------------------------
  // IP, HTTPS and the service field
  // ---------------------------------------------------------------------

  /** `isValidIP`. */
  predicate IsValidIP(ip: string) {
    IsValidIPv4(ip) || IsValidIPv6(ip)
  }

  /** No text is both a valid IPv4 and a valid IPv6 address: the first has no
      colon, the second always has one. */
  lemma IPv4AndIPv6Disjoint(s: string)
    ensures !(IsValidIPv4(s) && IsValidIPv6(s))
  {
    if IsValidIPv4(s) && IsValidIPv6(s) {
      var parts := Split(s, '.');
      JoinSplit(s, '.');
      if ':' in s {
        JoinMembership(parts, '.', ':');
        var i :| 0 <= i < |parts| && ':' in parts[i];
        OctetTextIsCanonical(parts[i]);
        assert false;
      }
      SplitNoSep(s, ':');
      assert false;
    }
  }

  /** `isValidHTTPS`: the `https://` prefix, then whatever `new URL(url)`
      accepts (`urlParses`). */
  predicate IsValidHTTPS(url: string, urlParses: string -> bool) {
    "https://" <= url && urlParses(url)
  }

  /** A valid IP begins with a hexadecimal digit or a colon. */
  lemma IPFirstChar(s: string)
    requires IsValidIP(s)
    ensures |s| > 0 && (IsHexDigit(s[0]) || s[0] == ':')
  {
    if IsValidIPv4(s) {
      var parts := Split(s, '.');
      JoinSplit(s, '.');
      JoinFirst(parts, '.');
      OctetTextIsCanonical(parts[0]);
      assert s[0] == parts[0][0];
    } else if s != "::1" && s != "::" {
      var fields := Split(s, ':');
      JoinSplit(s, ':');
      JoinFirst(fields, ':');
      if fields[0] == [] {
        assert |fields| >= 2;
        assert s[0] == ([':'] + Join(fields[1..], ':'))[0];
      } else {
        if |fields| != 8 || !AllHexGroups(fields) {
          var i :| 0 <= i < |fields| - 2 && fields[i] == [] && fields[i + 1] == [] &&
            AllHexGroups(fields[..i]) && AllHexGroups(fields[i + 2..]);
          assert fields[..i][0] == fields[0];
        }
        assert s[0] == fields[0][0];
      }
    }
  }

  /** No valid IP begins with `https://`, so an IP and an HTTPS URL never
      compete in `validateDNSService`. */
  lemma IPIsNeverHTTPS(s: string, urlParses: string -> bool)
    requires IsValidIP(s)
    ensures !IsValidHTTPS(s, urlParses)
  {
    IPFirstChar(s);
  }

  /** `DNSServiceValidationResult`; the source always sets `message`. */
  datatype ValidationResult = ValidationResult(isValid: bool, message: string)

  const SystemDefaultMessage := "Using system default DNS (if available)"
  const HttpsMessage := "Using HTTPS URL - DNS Query endpoint"
  const InvalidMessage := "Please use an IP address (e.g., 1.1.1.1) or HTTPS URL (e.g., https://dns.google). Consider using system default DNS if available."

  function ResolveMessage(family: string): string {
    "Using IP address (" + family + ") - Resolve endpoint"
  }

  /** `validateDNSService`: the trimmed field is empty, an IP, an HTTPS URL or
      invalid, tried in that order. */
  function ValidateDNSService(value: string, urlParses: string -> bool): (r: ValidationResult)
    ensures var t := Trim(value);
      r.isValid <==> t == [] || IsValidIP(t) || IsValidHTTPS(t, urlParses)
    ensures var t := Trim(value);
      r.message == (if t == [] then SystemDefaultMessage
                    else if IsValidIPv4(t) then ResolveMessage("IPv4")
                    else if IsValidIPv6(t) then ResolveMessage("IPv6")
                    else if IsValidHTTPS(t, urlParses) then HttpsMessage
                    else InvalidMessage)
  {
    var trimmed := Trim(value);
    if trimmed == [] then ValidationResult(true, SystemDefaultMessage)
    else
      var isIPv4 := IsValidIPv4(trimmed);
      var isIPv6 := IsValidIPv6(trimmed);
      var isIP := isIPv4 || isIPv6;
      var isHTTPS := IsValidHTTPS(trimmed, urlParses);
      if isIP then ValidationResult(true, ResolveMessage(if isIPv4 then "IPv4" else "IPv6"))
      else if isHTTPS then ValidationResult(true, HttpsMessage)
      else ValidationResult(false, InvalidMessage)
  }

  /** The IP test and the HTTPS test never both pass, so the order in which
      the source tries them does not change the outcome. */
  lemma ValidateDNSServiceOrderIrrelevant(value: string, urlParses: string -> bool)
    ensures var t := Trim(value);
      t != [] && IsValidHTTPS(t, urlParses) ==>
        ValidateDNSService(value, urlParses) == ValidationResult(true, HttpsMessage)
  {
    var t := Trim(value);
    if t != [] && IsValidIP(t) {
      IPIsNeverHTTPS(t, urlParses);
    }
  }
}
