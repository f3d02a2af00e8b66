# DoH playground core in Dafny

This project models the DNS-over-HTTPS core of a small Next.js application:

- the `application/dns-message` codec: the query a client writes, the server's reading of it, and the synthetic response written into a pre-sized buffer (services/dns/dns-message.ts);
- the DoH client: its request, and the decoder that reads a response message back into records, with compression pointers (services/dns/fetch-dns-query.ts);
- the JSON resolver client (services/dns/fetch-resolve.ts);
- the hosts-file parser (services/dns/hosts.ts);
- the type guards and input validators (services/dns/utils.ts, services/dns/types.ts, app/api/test/types.ts, utils/validators.ts);
- the two route handlers: the DoH endpoint, which answers from the hosts file and then from the upstream 1.1.1.1 (app/dns-query/route.ts), and the hosts store's `PUT`/`DELETE` (app/api/hosts/route.ts).

The wire format is that of RFC 1035:

- a 12-byte header (section 4.1.1);
- question entries (section 4.1.2);
- resource records (section 4.1.3);
- names as length-prefixed labels, possibly compressed (section 4.1.4).

The request and response are those of RFC 8484 (sections 4.1 and 4.2), with its media type (section 6). AAAA text follows RFC 3596 section 2.1.

Code that walks a cursor or fills a buffer is written as methods with loops. Each such method is proved equal to a specification function:

- `ParseDNSQuery`, `ParseName`, `SkipQuestionSection`, `ParseResourceRecord` and `ParseDNSResponse`/`ParseAnswers`;
- `ConvertToDNSMessage` and its writers over an `array<byte>`;
- `HostsToDNSRecords` with `PushHosts`;
- the line loop of the hosts store.

The lemmas then state what the source promises about those functions:

- the layout of every message;
- exact buffer sizing;
- that the server reads back what a client asks, and a client reads back what the server writes;
- the hosts-file rules;
- the validators' languages;
- the handlers' pipelines;
- the store's table after `PUT` and `DELETE`, and that what it writes reads back.

JavaScript behaviour is written out where it matters:

- `setUint8`/`setUint16`/`setUint32` store values modulo 2^8, 2^16 and 2^32;
- `parseInt` gives `NaN`, which the setters store as 0;
- `>>` and `&` work on `ToInt32`;
- every `DataView` or `Uint8Array` access outside the buffer is a `RangeError` (`Err(OutOfRange)`);
- a pointer cycle in `parseName` recurses until the stack overflows (`Err(CallStackExceeded)`).

Files (one module each):

- `js_text.dfy` (`JsText`): string built-ins;
- `bytes.dfy` (`Bytes`): byte views and results;
- `dns_types.dfy` (`DnsTypes`, `TestTypes`);
- `dns_message.dfy` (`DnsMessage`);
- `response_layout.dfy` (`ResponseLayout`);
- `fetch_dns_query.dfy` (`FetchDnsQuery`);
- `round_trip.dfy` (`RoundTrip`): server and client together;
- `validators.dfy` (`Validators`);
- `hosts.dfy` (`Hosts`);
- `fetch_resolve.dfy` (`FetchResolve`);
- `dns_query_route.dfy` (`DnsQueryRoute`);
- `hosts_route.dfy` (`HostsRoute`).

## Model

| member | source | states |
|---|---|---|
| JsText.JoinSplit | services/dns/dns-message.ts:27 | joining the parts of `split(sep)` with `sep` gives the string back |
| JsText.SplitJoin | services/dns/dns-message.ts:27 | splitting a join of separator-free parts gives the parts back |
| JsText.SplitAround | services/dns/dns-message.ts:27 | `split` distributes over one separator occurrence |
| JsText.Split | services/dns/dns-message.ts:27 | `split` on one character gives at least one part and no part holds the separator |
| JsText.SplitSpaces | services/dns/hosts.ts:22 | `split(/\s+/)` gives at least one token |
| JsText.SplitSpacesToken | services/dns/hosts.ts:22 | a string without white space is one token |
| JsText.SplitSpacesAround | services/dns/hosts.ts:22 | a token, a run of white space and more text split into the token followed by the tokens of the rest |
| JsText.TrimUnchanged | utils/validators.ts:63 | `trim` leaves a string without white space at either end unchanged |
| JsText.ParseIntToString | utils/validators.ts:10-11 | `parseInt(String(n), 10)` is `n` for every integer |
| JsText.IntToStringInjective | services/dns/fetch-resolve.ts:21 | distinct statuses render as distinct decimal text |
| JsText.NatToString | utils/validators.ts:11 | `num.toString()` is non-empty, unsigned and all decimal digits |
| JsText.Hex2 | services/dns/fetch-dns-query.ts:247 | `toString(16).padStart(2, '0')` of a byte is two characters |
| Bytes.U16 | services/dns/dns-message.ts:108-113 | `setUint16` writes two bytes |
| Bytes.Be16OfU16 | services/dns/dns-message.ts:111 | a 16-bit field reads back as its value modulo 2^16 |
| Bytes.Be32OfU32 | services/dns/dns-message.ts:137 | a 32-bit field reads back as its value modulo 2^32 |
| Bytes.GetU8 | services/dns/fetch-dns-query.ts:202 | `getUint8` succeeds exactly inside the buffer |
| Bytes.GetU16 | services/dns/fetch-dns-query.ts:96-97 | `getUint16` succeeds exactly when two bytes are left, and gives a value below 2^16 |
| Bytes.GetU32 | services/dns/fetch-dns-query.ts:165 | `getUint32` succeeds exactly when four bytes are left |
| Bytes.Slice | services/dns/fetch-dns-query.ts:233 | `new Uint8Array(buffer, offset, length)` succeeds exactly inside the buffer, with `length` bytes |
| Bytes.Latin1CharBytes | services/dns/fetch-dns-query.ts:218 | `String.fromCharCode` of the character codes of ASCII text is the text |
| Bytes.Utf8Ascii | services/dns/dns-message.ts:30 | on ASCII text `Buffer.from` writes the character codes |
| Bytes.Utf8Char | services/dns/dns-message.ts:158 | UTF-8 writes one to four bytes per character, one exactly below 0x80 |
| Bytes.ConcatMapAppend | services/dns/dns-message.ts:28 | `flatMap` distributes over concatenation |
| Bytes.ConcatMapLength | services/dns/dns-message.ts:95-102 | pieces of known sizes take the sum of the sizes |
| DnsTypes.IsDNSQueryType | services/dns/types.ts:10-12 | `isDNSQueryType(s)` holds exactly when `s` names a `QueryType`; exact, case-sensitive |
| DnsTypes.StringifyDNSTypeTable | services/dns/utils.ts:1-16 | 1, 28, 5, 15, 16 give A, AAAA, CNAME, MX, TXT and only those codes do; every other code gives `TYPE` and its decimal value |
| DnsTypes.StringifyDNSTypeInjective | services/dns/utils.ts:1-16 | distinct codes give distinct tokens |
| TestTypes.IsDNSType | app/api/test/types.ts:1-5 | `isDNSType(s)` holds exactly when `s` names a `DNSType`; exact, case-sensitive |
| DnsMessage.GenerateDNSMessageLayout | services/dns/dns-message.ts:13-47 | the query is AB CD 01 00 00 01 and six zeros, the labels, a zero, QTYPE (00 1C for AAAA, else 00 01) and QCLASS 00 01; for ASCII text the length of the domain plus 18 bytes |
| DnsMessage.QuestionLabelsLength | services/dns/dns-message.ts:27-32 | the labels take one length byte each on top of the UTF-8 text of the name |
| DnsMessage.QNameAt | services/dns/dns-message.ts:65-72 | a name read ends past its start and within the message |
| DnsMessage.ParseDNSQuery | services/dns/dns-message.ts:54-82 | the cursor loop computes `ParseQuery`: each label's characters and a dot, the last dot dropped, QTYPE 0x1C as AAAA and any other as A; a read past the end fails |
| DnsMessage.QNameAtLabels | services/dns/dns-message.ts:65-72 | labels and a terminator read back as the labels each followed by a dot, the cursor past the terminator |
| DnsMessage.ParseQueryOfLabels | services/dns/dns-message.ts:75-79 | the name is read without its last dot and the type from the two bytes after the terminator |
| DnsMessage.ParseGeneratedQuery | services/dns/dns-message.ts:13-82 | the server reads back the domain and type the client wrote, for ASCII labels of 1 to 255 characters |
| DnsMessage.TrailingDotEndsName | services/dns/dns-message.ts:27-79 | a trailing dot writes an empty label that ends the name early; the type is then read from the terminator and the first QTYPE byte, which gives A |
| DnsMessage.SetUint8 | services/dns/dns-message.ts:120 | `setUint8` succeeds exactly inside the buffer and appends the value modulo 2^8 |
| DnsMessage.SetUint16 | services/dns/dns-message.ts:129 | `setUint16` succeeds exactly inside the buffer and appends the big-endian value modulo 2^16 |
| DnsMessage.SetUint32 | services/dns/dns-message.ts:137 | `setUint32` succeeds exactly inside the buffer and appends the big-endian value modulo 2^32 |
| DnsMessage.WriteLabel | services/dns/dns-message.ts:120-123 | a label is its length byte then one byte per character code |
| DnsMessage.WriteLabels | services/dns/dns-message.ts:119-124 | the labels of the name one after another |
| DnsMessage.WriteName | services/dns/dns-message.ts:119-125 | every `.`-separated part as a label, then a zero byte |
| DnsMessage.WriteOctets | services/dns/dns-message.ts:145-147 | one `parseInt(part)` byte per A part |
| DnsMessage.WriteGroup | services/dns/dns-message.ts:153-155 | a group's `value >> 8` and `value & 0xff` |
| DnsMessage.WriteGroups | services/dns/dns-message.ts:151-156 | two bytes per AAAA group |
| DnsMessage.WriteBytes | services/dns/dns-message.ts:161-163 | the bytes one at a time |
| DnsMessage.WriteAddress4 | services/dns/dns-message.ts:141-147 | RDLENGTH 4, whatever the text, then the octets |
| DnsMessage.WriteAddress6 | services/dns/dns-message.ts:148-156 | RDLENGTH 16, whatever the text, then the groups |
| DnsMessage.WriteText | services/dns/dns-message.ts:157-164 | RDLENGTH the UTF-8 length, then the UTF-8 bytes |
| DnsMessage.WriteRData | services/dns/dns-message.ts:140-164 | RDLENGTH and RDATA chosen by the type token |
| DnsMessage.WriteFixedFields | services/dns/dns-message.ts:127-138 | TYPE 1, 28 or 5, CLASS 1, then the TTL |
| DnsMessage.WriteRecord | services/dns/dns-message.ts:117-165 | a record is its name, fixed fields, RDLENGTH and RDATA; each writer fails exactly when its bytes pass the end of the buffer and otherwise leaves the rest zero |
| DnsMessage.WriteHeader | services/dns/dns-message.ts:107-114 | the header bytes for the record count |
| DnsMessage.ConvertToDNSMessage | services/dns/dns-message.ts:89-168 | the pre-sized buffer holds every write in order, zero-filled after them, and a write past `totalSize` is a `RangeError` |
| ResponseLayout.HeaderBytes | services/dns/dns-message.ts:107-113 | the header is AB CD 81 80 00 00, the count as 16 bits, then four zeros |
| ResponseLayout.ResponseHeaderFields | services/dns/dns-message.ts:107-113 | every message written starts with that header, ANCOUNT being the number of records modulo 2^16 |
| ResponseLayout.EmptyResponse | services/dns/dns-message.ts:89-114 | no records give exactly the 12 header bytes |
| ResponseLayout.NoPadding | services/dns/dns-message.ts:102-103 | writes that fill the allocated size exactly are the whole message |
| ResponseLayout.LabelsLength | services/dns/dns-message.ts:96 | the name size estimate counts exactly the bytes the name labels take |
| ResponseLayout.RecordLength | services/dns/dns-message.ts:95-100 | a record with 4 A octets, 8 AAAA groups or ASCII data takes exactly its size estimate |
| ResponseLayout.RecordsLength | services/dns/dns-message.ts:95-102 | such records take exactly the sum of the estimates |
| ResponseLayout.ExactSize | services/dns/dns-message.ts:95-165 | for such records the cursor ends exactly at `totalSize` and no zero padding is left |
| ResponseLayout.OverlongAddressOverflows | services/dns/dns-message.ts:141-147 | an A address with five parts writes past the buffer and fails |
| ResponseLayout.TrailingDotName | services/dns/dns-message.ts:119-125 | a name with a trailing dot writes an extra zero-length label before the terminator |
| ResponseLayout.TypeCodeName | services/dns/dns-message.ts:128 | the written TYPE reads back through `stringifyDNSType` as A, AAAA, or CNAME for every other token |
| ResponseLayout.MxAndTxtBecomeCname | services/dns/dns-message.ts:128 | MX and TXT records are written with type 5 and read back as CNAME |
| ResponseLayout.EmptyGroupIsZero | services/dns/dns-message.ts:153 | an empty AAAA group is written as two zero bytes |
| FetchDnsQuery.Pointer | services/dns/fetch-dns-query.ts:210 | a compression pointer is a 14-bit offset |
| FetchDnsQuery.NameAtEnd | services/dns/fetch-dns-query.ts:199-223 | a name read ends after where it starts and within the buffer |
| FetchDnsQuery.ParseName | services/dns/fetch-dns-query.ts:199-223 | the cursor loop computes `NameAt`: each inline label and a dot; a pointer appends the pointed name, moves the cursor by 2 and ends the name; a read past the end fails; a pointer cycle exhausts the stack |
| FetchDnsQuery.NameAtDotted | services/dns/fetch-dns-query.ts:218 | every name read is empty or ends in a dot |
| FetchDnsQuery.QuestionEnd | services/dns/fetch-dns-query.ts:126-135 | skipping a question moves past at least the terminator and the four QTYPE/QCLASS bytes |
| FetchDnsQuery.SkipQuestionSection | services/dns/fetch-dns-query.ts:126-135 | the loop computes `QuestionEnd`: labels skipped to the zero byte, then 1 + 4 further |
| FetchDnsQuery.RecordAtEnd | services/dns/fetch-dns-query.ts:151-187 | a record read spans at least a one-byte name and ten fixed bytes, within the buffer |
| FetchDnsQuery.FieldsAt | services/dns/fetch-dns-query.ts:157-185 | TYPE, TTL and RDLENGTH bytes of RDATA lie within the buffer |
| FetchDnsQuery.ParseResourceRecord | services/dns/fetch-dns-query.ts:151-187 | the record has the decoded name, `stringifyDNSType(TYPE)`, the TTL and RDATA rendered by type; `nextOffset` is the name end + 10 + RDLENGTH |
| FetchDnsQuery.SkipQuestions | services/dns/fetch-dns-query.ts:100-103 | each skipped question moves the cursor at least 5 bytes |
| FetchDnsQuery.Answers | services/dns/fetch-dns-query.ts:106-110 | the answer loop yields exactly `count` records |
| FetchDnsQuery.DecodeResponse | services/dns/fetch-dns-query.ts:89-113 | a decoded response has exactly ANCOUNT records |
| FetchDnsQuery.ParseDNSResponse | services/dns/fetch-dns-query.ts:89-113 | the method computes `DecodeResponse`: QDCOUNT questions skipped, then ANCOUNT records in wire order |
| FetchDnsQuery.ParseAnswers | services/dns/fetch-dns-query.ts:106-110 | the answer loop computes `Answers` |
| FetchDnsQuery.DecodedNamesDotted | services/dns/fetch-dns-query.ts:199-223 | every record name in a decoded response ends in a dot |
| FetchDnsQuery.FetchDNSQuery | services/dns/fetch-dns-query.ts:10-31 | a result is only produced for non-empty server and domain |
| FetchDnsQuery.QueryNeedsArguments | services/dns/fetch-dns-query.ts:11-13 | an empty server or domain throws `DNS and domain are required`, whatever the transport would answer |
| FetchDnsQuery.QueryOnlyRequest | services/dns/fetch-dns-query.ts:15-22 | the only request is the POST of the generated query to `https://<dns>/dns-query` |
| FetchDnsQuery.QueryFailedStatus | services/dns/fetch-dns-query.ts:24-26 | a response that is not ok throws `Failed: <status>` |
| FetchDnsQuery.QueryDecodes | services/dns/fetch-dns-query.ts:28-30 | an ok response is decoded by `parseDNSResponse` |
| RoundTrip.GroupWriteOfFullGroup | services/dns/dns-message.ts:153-155 | a four-digit lower-case group is written as two bytes that print back as the group |
| RoundTrip.GroupWriteOfHex | services/dns/fetch-dns-query.ts:247-248 | the group printed for two bytes is written back as those bytes |
| RoundTrip.Ipv6AccBytes | services/dns/fetch-dns-query.ts:246-249 | the `reduce` prints every byte pair as `:` and four hex digits |
| RoundTrip.GroupsFull | services/dns/fetch-dns-query.ts:247 | every printed group is four lower-case hex digits |
| RoundTrip.FullIPv6RoundTrip | services/dns/dns-message.ts:148-156 | eight full groups are written as sixteen bytes that `parseIPv6` prints back as the address |
| RoundTrip.DecodedIPv6 | services/dns/fetch-dns-query.ts:244-253 | any sixteen bytes print as eight full groups that `isValidIPv6` accepts and that write back as those bytes |
| RoundTrip.ValidIPv4RoundTrip | services/dns/dns-message.ts:141-147 | an address `isValidIPv4` accepts is written as four bytes that `parseIPv4` prints back as the address |
| RoundTrip.DecodedIPv4 | services/dns/fetch-dns-query.ts:232-235 | any four bytes print as an address `isValidIPv4` accepts and that writes back as those bytes |
| RoundTrip.NameRoundTrip | services/dns/fetch-dns-query.ts:199-223 | the labels of a name written by the server read back as the name plus a dot |
| RoundTrip.RDataRoundTrip | services/dns/fetch-dns-query.ts:174-183 | RDATA is exactly RDLENGTH bytes long and prints back as the record's text |
| RoundTrip.FieldsRoundTrip | services/dns/fetch-dns-query.ts:157-170 | TYPE, TTL and RDATA written by the server read back |
| RoundTrip.RecordRoundTrip | services/dns/fetch-dns-query.ts:151-187 | one written record reads back, with the cursor just past it |
| RoundTrip.AnswersOfChunks | services/dns/fetch-dns-query.ts:106-110 | an answer section of chunks that each read back reads back record by record, in order |
| RoundTrip.ResponseRoundTrip | services/dns/fetch-dns-query.ts:89-187 | every message written for plain records decodes to those records in order, names with a trailing dot, types other than A and AAAA as CNAME |
| RoundTrip.QuestionEndLabels | services/dns/fetch-dns-query.ts:126-135 | a question written as labels, a zero byte, QTYPE and QCLASS is skipped to exactly its end |
| RoundTrip.GeneratedQuestionEnd | services/dns/fetch-dns-query.ts:126-135 | the question of a query `generateDNSMessage` writes is skipped to the end of the message, where an echoing upstream's answers start |
| RoundTrip.RequestRoundTrip | services/dns/fetch-dns-query.ts:21 | the body the client posts is read by `parseDNSQuery` as the domain and type asked for |
| RoundTrip.FetchRoundTrip | services/dns/fetch-dns-query.ts:10-31 | against an upstream that answers with the server's message, the client returns the records read back |
| Validators.OctetTextIsCanonical | utils/validators.ts:9-12 | a part passes exactly when it is the canonical decimal text of a value in 0..255 |
| Validators.DottedDecimalIsValidIPv4 | utils/validators.ts:6-13 | any four bytes in decimal joined by `.` are a valid IPv4 address |
| Validators.ValidIPv4IsDottedDecimal | utils/validators.ts:6-13 | every valid IPv4 address is four bytes in decimal joined by `.` |
| Validators.OctetValue | utils/validators.ts:10-11 | a passing part is the decimal text of its byte value |
| Validators.IsValidIPv6MatchesRegex | utils/validators.ts:20-24 | the field recogniser accepts exactly the language of the three regular-expression alternatives |
| Validators.FullFormRecognised | utils/validators.ts:22 | eight groups of 1 to 4 hex digits are accepted |
| Validators.CompressedFormRecognised | utils/validators.ts:22 | `(group:)*`, `::`, `(group:)*` and a final group are accepted |
| Validators.CompressedFormNeedsThreeColons | utils/validators.ts:22 | outside the eight-group form, an accepted address starts with `:` or contains `:::` |
| Validators.RejectsDocumentationAddress | utils/validators.ts:22 | `2001:db8::1` is rejected |
| Validators.IPv4AndIPv6Disjoint | utils/validators.ts:6-24 | no text is both a valid IPv4 and a valid IPv6 address |
| Validators.IPIsNeverHTTPS | utils/validators.ts:31-50 | no valid IP passes `isValidHTTPS` |
| Validators.ValidateDNSService | utils/validators.ts:62-89 | valid exactly when the trimmed input is empty, an IP or an HTTPS URL; the message is the system default, the IPv4 or IPv6 resolve message, the HTTPS message or the invalid message, in that order |
| Validators.ValidateDNSServiceOrderIrrelevant | utils/validators.ts:76-82 | an HTTPS URL always gets the HTTPS message, since it is never an IP |
| Hosts.AddressType | services/dns/hosts.ts:29 | AAAA exactly when the address holds `:`, A exactly when it does not |
| Hosts.HostRecords | services/dns/hosts.ts:32-37 | one record per host name |
| Hosts.HostRecordsAt | services/dns/hosts.ts:32-37 | the i-th record is the i-th host name with the line's address, type and TTL |
| Hosts.HostsToDNSRecords | services/dns/hosts.ts:10-41 | the nested loops compute `HostsRecords`: lines in order, comments and blank lines skipped, lines of one token skipped |
| Hosts.PushHosts | services/dns/hosts.ts:32-37 | the inner loop appends the records of the host names after those already pushed |
| Hosts.LinesRecordsAppend | services/dns/hosts.ts:16-38 | lines are processed independently and their records kept in line order |
| Hosts.LinesRecordsCount | services/dns/hosts.ts:16-38 | the number of records is the sum of tokens minus one over the retained lines |
| Hosts.LinesRecordsShape | services/dns/hosts.ts:29-36 | every record carries the given TTL and is AAAA exactly when its address holds `:` |
| Hosts.CommentIgnored | services/dns/hosts.ts:18 | everything from the first `#` on is ignored |
| Hosts.FormattedLine | services/dns/hosts.ts:18-37 | a line `ip h1 ... hn` of plain tokens gives n records, in order, each with data `ip` |
| Hosts.NoRecordsMessage | services/dns/hosts.ts:49-52 | content without records gives the bare 12-byte header |
| Hosts.EmptyContent | services/dns/hosts.ts:10-52 | empty content gives no records and the 12-byte header |
| FetchResolve.AnswerRecords | services/dns/fetch-resolve.ts:29-34 | one record per answer, in order, each built from its answer |
| FetchResolve.ResolveNeedsArguments | services/dns/fetch-resolve.ts:14-16 | an empty server or domain throws `DNS and domain are required` before any request |
| FetchResolve.ResolveOnlyRequest | services/dns/fetch-resolve.ts:18-19 | the only request is the GET of `https://<dns>/resolve?name=<domain>&type=<type>` |
| FetchResolve.ResolveFailedStatus | services/dns/fetch-resolve.ts:20-22 | a response that is not ok throws `Failed: <status>` |
| FetchResolve.ResolveNoAnswer | services/dns/fetch-resolve.ts:24-27 | a body without `Answer` gives no records, not an error |
| FetchResolve.ResolveAnswers | services/dns/fetch-resolve.ts:29-36 | answers map one to one in order: name, TTL and data copied, type through `stringifyDNSType` |
| FetchResolve.AnswerRecordInjective | services/dns/fetch-resolve.ts:29-34 | two answers give the same record exactly when they are the same answer |
| FetchResolve.AnswerRecordsAppend | services/dns/fetch-resolve.ts:29-34 | the mapping distributes over concatenation |
| FetchResolve.ResolveUrlInjective | services/dns/fetch-resolve.ts:18 | without `/` in the server or `&` in the domain, the URL determines server, domain and type |
| DnsQueryRoute.Overrides | app/dns-query/route.ts:26 | the overrides are hosts records whose name is the domain and whose type is the query type |
| DnsQueryRoute.OverridesComplete | app/dns-query/route.ts:26 | every matching hosts record is an override |
| DnsQueryRoute.OverridesAppend | app/dns-query/route.ts:26 | the filter keeps the records' order |
| DnsQueryRoute.PostUnauthorized | app/dns-query/route.ts:15-17 | without access the answer is the 401 JSON error, whatever the body, the store and the upstream |
| DnsQueryRoute.PostUpstreamAlwaysAsked | app/dns-query/route.ts:28 | the upstream 1.1.1.1 is asked even when the hosts file matches, and its failure is the handler's |
| DnsQueryRoute.PostAnswer | app/dns-query/route.ts:19-36 | the answer encodes the overrides followed by the upstream records, without deduplication, as `application/dns-message` |
| DnsQueryRoute.AnswerCount | app/dns-query/route.ts:29-30 | ANCOUNT is the number of overrides plus upstream records, modulo 2^16 |
| DnsQueryRoute.FallbackDotted | app/dns-query/route.ts:28 | every upstream record name ends in a dot |
| DnsQueryRoute.UpstreamNamesReencoded | app/dns-query/route.ts:28-30 | every non-empty upstream name is re-encoded with an extra empty label before the terminator |
| HostsRoute.IndexOf | app/api/hosts/route.ts:21 | the first position holding the key, or the table's length when absent |
| HostsRoute.ReadExistingHosts | app/api/hosts/route.ts:16-24 | the line loop builds the table `ExistingHosts` |
| HostsRoute.AssignLookup | app/api/hosts/route.ts:21 | after `table[key] = value`, the key has the value and every other key its old value |
| HostsRoute.AssignWellFormed | app/api/hosts/route.ts:21 | assignment keeps keys unique, and a new key goes last |
| HostsRoute.MergeLookup | app/api/hosts/route.ts:26 | after the spread merge, a requested key has its requested value and any other key its old value |
| HostsRoute.MergeWellFormed | app/api/hosts/route.ts:26 | merging keeps keys unique |
| HostsRoute.StoredTableWellFormed | app/api/hosts/route.ts:17-23 | the table read from the store has unique keys and plain entries |
| HostsRoute.LaterLineWins | app/api/hosts/route.ts:21 | a later line for a domain overwrites an earlier one |
| HostsRoute.LineTokens | app/api/hosts/route.ts:19-20 | a line of two or more plain tokens stands for its first two as (address, domain); extra tokens and `#` are not special |
| HostsRoute.DeletedLookup | app/api/hosts/route.ts:49-54 | with `DELETE`'s list, a listed domain is absent and every other domain keeps its value |
| HostsRoute.EntryLineRoundTrip | app/api/hosts/route.ts:28 | one written `ip\tdomain` line reads back as its entry and holds no newline |
| HostsRoute.SerializeRoundTrip | app/api/hosts/route.ts:27-29 | the written text re-parsed with the same line rule gives back the same table |
| HostsRoute.Put | app/api/hosts/route.ts:7-34 | without access, unauthorized and nothing written; otherwise success and the merged table written |
| HostsRoute.Delete | app/api/hosts/route.ts:36-64 | without access, unauthorized and nothing written; otherwise success and the reduced table written |
| HostsRoute.PutStored | app/api/hosts/route.ts:12-31 | after `PUT` the stored file maps each requested domain to its requested address and every other stored domain to its old one |
| HostsRoute.DeleteStored | app/api/hosts/route.ts:41-61 | after `DELETE` the stored file lacks every listed domain and keeps every other stored domain |
| HostsRoute.StoredHostsAnswered | app/api/hosts/route.ts:27-29 | a stored file is read by the DoH endpoint's hosts parser as one record per entry, in order |

## Left out

- Real HTTP is not modelled. `fetch` in both clients and `response.json()` are a parameter `send` that returns the response or the error it fails with. `req.arrayBuffer()` is the body bytes. `req.json()` is a given value, and its parse failures are not modelled.
- The access checks (`checkDoHAccess`, `checkApiAccess`), cookies and tokens are a boolean input.
- Gist storage is not modelled:
  - `readGistFile` is a `Result<string>` input for the DoH endpoint and a string input for the store;
  - `writeGistFile` is the `written` out-parameter of `HostsRoute.Put`/`Delete`;
  - a read failure on the store is not modelled.
- `setHeaders` is modelled by the content type carried in the response value.
- `new URL(url)` in `isValidHTTPS` is an uninterpreted parameter `urlParses`.
- Strings are sequences of Unicode characters (code points up to U+10FFFF), not of UTF-16 units. The two agree for characters up to U+FFFF. A character above U+FFFF, such as U+1F600 "😀", is one element here but a surrogate pair of two units in JavaScript. This makes the following differences:
  - `part.length` (services/dns/dns-message.ts:29, 96 and 120) and `record.data.length` in the size estimate (line 98) count it once in the model and twice in the source. The question label for "😀" is therefore `[1, F0 9F 98 80]` in the model and `[2, F0 9F 98 80]` in the source. `Buffer.from` is UTF-8 over the code points in both.
  - The answer writer's `for (const char of part)` (line 121) visits code points, and `char.charCodeAt(0)` is the high surrogate. So the source writes one byte, the low byte of the high surrogate (0x3D for U+1F600). The model writes the low byte of the code point (0x00). The answer label for "😀" is `[2, 0x3D]` in the source and `[1, 0x00]` in the model.
  - `nameSize` reserves `part.length + 1` bytes for a label, one byte per UTF-16 unit, but the source writes one byte per code point. So the source leaves one zero byte unwritten at the end of the buffer for each such character, and the model does not.
  - The round-trip lemmas hold for ASCII only.
- FetchDnsQuery.ParseName: the recursion of `parseName` is bounded by a fuel count of nested pointer calls equal to the buffer length, and running out is reported as `CallStackExceeded`. This catches every pointer cycle. The JavaScript engine's call stack is finite and much shallower than 65535 frames, which is not modelled. A legal, acyclic chain of several thousand pointers, which a 65535-byte response can hold, throws a `RangeError` in the source. `NameAt` and `ParseName` accept it and return the name.
- JsText.ParseInt: `parseInt` returns an exact integer, not a double. Digit strings whose value is above 2^53 are not rounded the way a JavaScript number is before `setUint8`/`setUint16` truncate it. For example, the A part "18446744073709551617" (2^64 + 1) is stored as 1 by `DnsMessage.WriteOctets` (through `DnsMessage.OctetNumber`), but as 0 by the source, because the double is 2^64. The same holds for AAAA groups of 14 or more hex digits in `DnsMessage.WriteGroup` (through `DnsMessage.GroupNumber`). Addresses that pass the validators have at most three decimal or four hex digits per part, so they are not affected.
- HostsRoute: a `Record<string, string>` is an insertion-ordered list of pairs. JavaScript's rule that integer-like keys are listed first in `Object.entries` is not modelled, and neither is the special key `__proto__`.
- HostsRoute.PutStored: holds for requested entries whose domain and address are non-empty and free of white space. Others are written but do not read back as themselves.
- HostsRoute.StoredHostsAnswered: holds for entries without `#`. The hosts parser cuts a line at `#`.
- HostsRoute.ReadExistingHosts: `PUT` and `DELETE` have the same reading loop, modelled once. `PUT` passes an empty list of domains to delete.
- Hosts.HostsToDNSRecords: the inner loop over host names is the separate method `Hosts.PushHosts`.
- RoundTrip.ResponseRoundTrip: stated for plain records only. These are records whose:
  - labels are 1 to 191 ASCII characters, so that no length byte reads as a pointer;
  - TTL fits in 32 bits;
  - A address is canonical dotted decimal;
  - AAAA address is eight four-digit lower-case groups;
  - other data is ASCII, shorter than 65536 bytes.

  There are fewer than 65536 records. Outside these bounds the writer's wrap-around makes the decoder read something else, which the lemmas about the writer state separately.
- DnsMessage.ParseGeneratedQuery: stated for ASCII labels of 1 to 255 characters. An empty label ends the name early (DnsMessage.TrailingDotEndsName). Longer labels wrap the length byte.
- The duplicate `generateDNSMessage` and `convertToDNSMessage` in services/dns/fetch-dns-query.ts have bodies identical to those in services/dns/dns-message.ts (the first copy of `generateDNSMessage` is not exported) and are modelled once.
- Everything outside this DNS core is not part of this model:
  - the UI pages and components, hooks and timers;
  - the MCP tools, dispatch and error wrappers;
  - `extractDNSDomain`, `checkOptionsSupport` and header forwarding.
