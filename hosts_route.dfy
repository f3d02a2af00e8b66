/**
 * The hosts store of app/api/hosts/route.ts: `PUT` merges a domain-to-address
 * object into the stored hosts file and `DELETE` drops a list of domains
 * from it.  Both read the stored text line by line into an object
 * `existingHosts`, updated in place per line, and write it back as one
 * `ip<TAB>domain` line per entry.  The access check, the stored text and the
 * request body are inputs; what is written is an output.
 */
module HostsRoute {
  import opened JsText
  import opened DnsTypes
  import opened Hosts

  /** A `Record<string, string>`: its entries as (key, value) pairs in
      insertion order, the order `Object.entries` lists them in. */
  type Table = seq<(string, string)>

  /** The position of `key` in the table, or the table's length when absent. */
  function IndexOf(t: Table, key: string): (i: nat)
    ensures i <= |t|
    ensures i < |t| ==> t[i].0 == key
    ensures forall j :: 0 <= j < i ==> t[j].0 != key
  {
    if t == [] then 0
    else if t[0].0 == key then 0
    else 1 + IndexOf(t[1..], key)
  }

  /** `table[key]`, `undefined` being `None`. */
  function Lookup(t: Table, key: string): Option<string> {
    var i := IndexOf(t, key);
    if i < |t| then Some(t[i].1) else None
  }

  /** `table[key] = value`: the value of a present key is replaced where it
      stands; a new key is added last. */
  function Assign(t: Table, key: string, value: string): Table {
    var i := IndexOf(t, key);
    if i < |t| then t[i := (key, value)] else t + [(key, value)]
  }

  /** No key occurs twice, as in every object. */
  predicate UniqueKeys(t: Table) {
    forall i, j :: 0 <= i < j < |t| ==> t[i].0 != t[j].0
  }

  /** A domain and an address as one line of the store gives them: both
      non-empty, neither holding white space. */
  predicate PlainEntry(e: (string, string)) {
    e.0 != [] && e.1 != [] && NoSpace(e.0) && NoSpace(e.1)
  }

  predicate WellFormed(t: Table) {
    UniqueKeys(t) && forall i :: 0 <= i < |t| ==> PlainEntry(t[i])
  }

  // ---------------------------------------------------------------------
  // Reading the stored text
  // ---------------------------------------------------------------------

  /** `const [ip, domain] = line.trim().split(/\s+/)` and the test
      `ip && domain`: the first two tokens as (domain, address); a missing
      token is `undefined`, which fails the test as `""` does.  Further
      tokens are ignored and `#` is an ordinary character. */
  function LineEntry(line: string): Option<(string, string)> {
    var parts := SplitSpaces(Trim(line));
    var ip := parts[0];
    var domain := if |parts| >= 2 then parts[1] else "";
    if ip != [] && domain != [] then Some((domain, ip)) else None
  }

  /** One line of the loop: its entry assigned unless absent or, in
      `DELETE`, listed for deletion. */
  function LineUpdate(t: Table, line: string, deleted: seq<string>): Table {
    match LineEntry(line)
    case None => t
    case Some(e) => if e.0 in deleted then t else Assign(t, e.0, e.1)
  }

  /** The table after the loop has run over `lines`. */
  function StoredTable(lines: seq<string>, deleted: seq<string>): Table
    decreases |lines|
  {
    if lines == [] then []
    else LineUpdate(StoredTable(lines[..|lines| - 1], deleted), lines[|lines| - 1], deleted)
  }

  /** `existingHosts` once the stored text is read: empty text is skipped. */
  function ExistingHosts(content: string, deleted: seq<string>): Table {
    if content == [] then [] else StoredTable(Split(content, '\n'), deleted)
  }

  /** The reading loop of both handlers; `PUT` deletes nothing. */
  method ReadExistingHosts(existingContent: string, domainsToDelete: seq<string>) returns (existingHosts: Table)
    ensures existingHosts == ExistingHosts(existingContent, domainsToDelete)
  {
    existingHosts := [];
    if existingContent != [] {
      var lines := Split(existingContent, '\n');
      for i := 0 to |lines|
        invariant existingHosts == StoredTable(lines[..i], domainsToDelete)
      {
        var parts := SplitSpaces(Trim(lines[i]));
        var ip := parts[0];
        var domain := if |parts| >= 2 then parts[1] else "";
        assert lines[..i + 1] == lines[..i] + [lines[i]];
        ReadLineStep(lines[..i], lines[i], domainsToDelete, parts, ip, domain);
        if ip != [] && domain != [] && domain !in domainsToDelete {
          existingHosts := Assign(existingHosts, domain, ip);
        }
      }
      assert lines[..|lines|] == lines;
    }
  }

  /** One turn of the reading loop, on the tokens it destructures. */
  lemma ReadLineStep(read: seq<string>, line: string, deleted: seq<string>, parts: seq<string>, ip: string, domain: string)
    requires parts == SplitSpaces(Trim(line))
    requires ip == parts[0] && domain == if |parts| >= 2 then parts[1] else ""
    ensures StoredTable(read + [line], deleted)
         == if ip != [] && domain != [] && domain !in deleted
            then Assign(StoredTable(read, deleted), domain, ip)
            else StoredTable(read, deleted)
  {
    StoredTableSnoc(read, line, deleted);
    LineEntryOf(line, parts, ip, domain);
  }

  lemma LineEntryOf(line: string, parts: seq<string>, ip: string, domain: string)
    requires parts == SplitSpaces(Trim(line))
    requires ip == parts[0] && domain == if |parts| >= 2 then parts[1] else ""
    ensures LineEntry(line) == if ip != [] && domain != [] then Some((domain, ip)) else None
  {
  }

  // ---------------------------------------------------------------------
  // Merging and writing
  // ---------------------------------------------------------------------

  /** `{ ...existingHosts, ...newHosts }`: the entries of `newHosts`
      assigned in their order onto a copy of `existingHosts`. */
  function Merge(existing: Table, newHosts: Table): Table
    decreases |newHosts|
  {
    if newHosts == [] then existing
    else
      var last := newHosts[|newHosts| - 1];
      Assign(Merge(existing, newHosts[..|newHosts| - 1]), last.0, last.1)
  }

  /** `` `${ip}\t${domain}` `` for one entry. */
  function EntryLine(e: (string, string)): string {
    e.1 + "\t" + e.0
  }

  /** `Object.entries(t).map(...).join('\n')`. */
  function Serialize(t: Table): string {
    Join(EntryLines(t), '\n')
  }

  /** `Object.entries(t).map(...)`. */
  function EntryLines(t: Table): (lines: seq<string>)
    ensures |lines| == |t|
  {
    seq(|t|, i requires 0 <= i < |t| => EntryLine(t[i]))
  }

  datatype HandlerResponse = Unauthorized | Success

  /** The text `PUT` writes. */
  function PutContent(newHosts: Table, existingContent: string): string {
    Serialize(Merge(ExistingHosts(existingContent, []), newHosts))
  }

  /** The text `DELETE` writes. */
  function DeleteContent(domainsToDelete: seq<string>, existingContent: string): string {
    Serialize(ExistingHosts(existingContent, domainsToDelete))
  }

  /** `PUT`: without access, unauthorized and nothing written; otherwise the
      merged table written back. */
  method Put(authorized: bool, newHosts: Table, existingContent: string)
    returns (response: HandlerResponse, written: Option<string>)
    ensures !authorized ==> response == Unauthorized && written == None
    ensures authorized ==> response == Success && written == Some(PutContent(newHosts, existingContent))
  {
    if !authorized {
      return Unauthorized, None;
    }
    var existingHosts := ReadExistingHosts(existingContent, []);
    var mergedHosts := Merge(existingHosts, newHosts);
    var content := Serialize(mergedHosts);
    return Success, Some(content);
  }

  /** `DELETE`: without access, unauthorized and nothing written; otherwise
      the table read without the listed domains written back. */
  method Delete(authorized: bool, domainsToDelete: seq<string>, existingContent: string)
    returns (response: HandlerResponse, written: Option<string>)
    ensures !authorized ==> response == Unauthorized && written == None
    ensures authorized ==> response == Success && written == Some(DeleteContent(domainsToDelete, existingContent))
  {
    if !authorized {
      return Unauthorized, None;
    }
    var existingHosts := ReadExistingHosts(existingContent, domainsToDelete);
    var content := Serialize(existingHosts);
    return Success, Some(content);
  }

  // ---------------------------------------------------------------------
  // The table operations
  // ---------------------------------------------------------------------

  /** Two tables with the same keys in the same places find every key in
      the same place. */
  lemma IndexOfSameKeys(t: Table, u: Table, key: string)
    requires |t| == |u| && forall j :: 0 <= j < |t| ==> t[j].0 == u[j].0
    ensures IndexOf(t, key) == IndexOf(u, key)
  {
  }

  /** A key found in `t` is found in the same place after an entry is added;
      one not found is found only if it is the added key. */
  lemma IndexOfSnoc(t: Table, e: (string, string), key: string)
    ensures IndexOf(t + [e], key) == if IndexOf(t, key) < |t| || e.0 == key then IndexOf(t, key) else |t| + 1
  {
    var i := IndexOf(t, key);
    if i < |t| {
      assert (t + [e])[i].0 == key;
      assert forall j :: 0 <= j < i ==> (t + [e])[j].0 != key;
    } else if e.0 == key {
      assert (t + [e])[|t|].0 == key;
      assert forall j :: 0 <= j < |t| ==> (t + [e])[j].0 != key;
    } else {
      assert forall j :: 0 <= j < |t| + 1 ==> (t + [e])[j].0 != key;
    }
  }

  /** After `t[key] = value`, `key` has `value` and every other key its old
      value. */
  lemma AssignLookup(t: Table, key: string, value: string, other: string)
    ensures Lookup(Assign(t, key, value), other) == if other == key then Some(value) else Lookup(t, other)
  {
    var i := IndexOf(t, key);
    if i < |t| {
      IndexOfSameKeys(t, t[i := (key, value)], other);
    } else {
      IndexOfSnoc(t, (key, value), other);
    }
  }

  /** Assigning a plain entry keeps a table well formed; a new key goes last. */
  lemma AssignWellFormed(t: Table, key: string, value: string)
    requires WellFormed(t) && PlainEntry((key, value))
    ensures WellFormed(Assign(t, key, value))
    ensures Lookup(t, key).None? ==> Assign(t, key, value) == t + [(key, value)]
  {
  }

  /** Merging: a key of `newHosts` takes its new value; any other key keeps
      the value it had. */
  lemma {:induction false} MergeLookup(existing: Table, newHosts: Table, key: string)
    requires UniqueKeys(newHosts)
    ensures Lookup(Merge(existing, newHosts), key)
         == if Lookup(newHosts, key).Some? then Lookup(newHosts, key) else Lookup(existing, key)
    decreases |newHosts|
  {
    if newHosts != [] {
      var init := newHosts[..|newHosts| - 1];
      var last := newHosts[|newHosts| - 1];
      assert newHosts == init + [last];
      MergeLookup(existing, init, key);
      AssignLookup(Merge(existing, init), last.0, last.1, key);
      IndexOfSnoc(init, last, key);
      if IndexOf(init, key) < |init| {
        assert init[IndexOf(init, key)] == newHosts[IndexOf(init, key)];
      }
    }
  }

  lemma {:induction false} MergeWellFormed(existing: Table, newHosts: Table)
    requires WellFormed(existing) && WellFormed(newHosts)
    ensures WellFormed(Merge(existing, newHosts))
    decreases |newHosts|
  {
    if newHosts != [] {
      var init := newHosts[..|newHosts| - 1];
      MergeWellFormed(existing, init);
      AssignWellFormed(Merge(existing, init), newHosts[|newHosts| - 1].0, newHosts[|newHosts| - 1].1);
    }
  }

  // ---------------------------------------------------------------------
  // Reading lines
  // ---------------------------------------------------------------------

  /** A line read from the store gives a plain entry. */
  lemma LineEntryPlain(line: string)
    requires LineEntry(line).Some?
    ensures PlainEntry(LineEntry(line).value)
  {
    var parts := SplitSpaces(Trim(line));
    SplitSpacesNoSpace(Trim(line));
  }

  /** Every token of `split(/\s+/)` is free of white space. */
  lemma {:induction false} SplitSpacesNoSpace(s: string)
    ensures forall i :: 0 <= i < |SplitSpaces(s)| ==> NoSpace(SplitSpaces(s)[i])
    decreases |s|
  {
    if s != [] {
      if IsSpace(s[0]) {
        SplitSpacesNoSpace(TrimStart(s[1..]));
      } else {
        SplitSpacesNoSpace(s[1..]);
        var rest := SplitSpaces(s[1..]);
        assert forall k :: 0 <= k < |rest[0]| ==> !IsSpace(rest[0][k]);
        assert forall k :: 0 <= k < |[s[0]] + rest[0]| ==> !IsSpace(([s[0]] + rest[0])[k]);
      }
    }
  }

  /** The table read from the store is well formed. */
  lemma {:induction false} StoredTableWellFormed(lines: seq<string>, deleted: seq<string>)
    ensures WellFormed(StoredTable(lines, deleted))
    decreases |lines|
  {
    if lines != [] {
      var line := lines[|lines| - 1];
      StoredTableWellFormed(lines[..|lines| - 1], deleted);
      if LineEntry(line).Some? {
        LineEntryPlain(line);
        AssignWellFormed(StoredTable(lines[..|lines| - 1], deleted), LineEntry(line).value.0, LineEntry(line).value.1);
      }
    }
  }

  lemma ExistingHostsWellFormed(content: string, deleted: seq<string>)
    ensures WellFormed(ExistingHosts(content, deleted))
  {
    if content != [] {
      StoredTableWellFormed(Split(content, '\n'), deleted);
    }
  }

  /** A later line for a domain overrides an earlier one. */
  lemma LaterLineWins(lines: seq<string>, line: string, domain: string, ip: string)
    requires LineEntry(line) == Some((domain, ip))
    ensures Lookup(StoredTable(lines + [line], []), domain) == Some(ip)
  {
    assert (lines + [line])[..|lines|] == lines;
    AssignLookup(StoredTable(lines, []), domain, ip, domain);
  }

  /** A line of two or more plain tokens stands for its first two as
      (address, domain), whatever follows them and whatever `#` they hold. */
  lemma LineTokens(tokens: seq<string>)
    requires |tokens| >= 2
    requires forall i :: 0 <= i < |tokens| ==> tokens[i] != [] && NoSpace(tokens[i])
    ensures LineEntry(Join(tokens, ' ')) == Some((tokens[1], tokens[0]))
  {
    var line := Join(tokens, ' ');
    JoinFirst(tokens, ' ');
    JoinLast(tokens);
    TrimUnchanged(line);
    SplitSpacesJoin(tokens);
  }

  /** With `DELETE`'s list, a listed domain is absent and every other domain
      has the value it has without the list. */
  lemma {:induction false} DeletedLookup(lines: seq<string>, deleted: seq<string>, key: string)
    ensures Lookup(StoredTable(lines, deleted), key)
         == if key in deleted then None else Lookup(StoredTable(lines, []), key)
    decreases |lines|
  {
    if lines != [] {
      var init := lines[..|lines| - 1];
      var line := lines[|lines| - 1];
      DeletedLookup(init, deleted, key);
      if LineEntry(line).Some? {
        var e := LineEntry(line).value;
        AssignLookup(StoredTable(init, []), e.0, e.1, key);
        if e.0 !in deleted {
          AssignLookup(StoredTable(init, deleted), e.0, e.1, key);
        }
      }
    }
  }

  // ---------------------------------------------------------------------
  // Writing and reading back
  // ---------------------------------------------------------------------

  /** One written line reads back as its entry. */
  lemma EntryLineRoundTrip(e: (string, string))
    requires PlainEntry(e)
    ensures LineEntry(EntryLine(e)) == Some(e)
    ensures '\n' !in EntryLine(e)
  {
    TabLineTokens(e.1, e.0);
    TabLineOneLine(e.1, e.0);
  }

  lemma TabLineTokens(ip: string, domain: string)
    requires ip != [] && domain != [] && NoSpace(ip) && NoSpace(domain)
    ensures Trim(ip + "\t" + domain) == ip + "\t" + domain
    ensures SplitSpaces(Trim(ip + "\t" + domain)) == [ip, domain]
  {
    var line := ip + "\t" + domain;
    assert line[0] == ip[0] && line[|line| - 1] == domain[|domain| - 1];
    TrimUnchanged(line);
    SplitSpacesAround(ip, "\t", domain);
    SplitSpacesToken(domain);
  }

  lemma TabLineOneLine(ip: string, domain: string)
    requires NoSpace(ip) && NoSpace(domain)
    ensures '\n' !in ip + "\t" + domain
  {
    TabLineChars(ip, domain);
  }

  lemma TabLineChars(ip: string, domain: string)
    ensures forall c :: c in ip + "\t" + domain ==> c in ip || c == '\t' || c in domain
  {
  }

  /** Reading the written lines one by one rebuilds the table entry by entry. */
  lemma {:induction false} StoredTableOfEntries(t: Table)
    requires WellFormed(t)
    ensures StoredTable(EntryLines(t), []) == t
    decreases |t|
  {
    if t != [] {
      var init, last := t[..|t| - 1], t[|t| - 1];
      FreshLast(t, |t|);
      StoredTableOfEntries(init);
      EntriesStep(init, last);
      assert t == init + [last];
    }
  }

  lemma EntriesStep(init: Table, last: (string, string))
    requires WellFormed(init) && PlainEntry(last) && Lookup(init, last.0).None?
    requires StoredTable(EntryLines(init), []) == init
    ensures StoredTable(EntryLines(init + [last]), []) == init + [last]
  {
    EntryLinesSnoc(init, last);
    StoredTableSnoc(EntryLines(init), EntryLine(last), []);
    LineUpdateFresh(init, last);
  }

  lemma EntryLinesSnoc(t: Table, e: (string, string))
    ensures EntryLines(t + [e]) == EntryLines(t) + [EntryLine(e)]
  {
  }

  lemma StoredTableSnoc(lines: seq<string>, line: string, deleted: seq<string>)
    ensures StoredTable(lines + [line], deleted) == LineUpdate(StoredTable(lines, deleted), line, deleted)
  {
    assert (lines + [line])[..|lines|] == lines;
  }

  /** A written line for a new key appends its entry. */
  lemma LineUpdateFresh(t: Table, e: (string, string))
    requires WellFormed(t) && PlainEntry(e) && Lookup(t, e.0).None?
    ensures LineUpdate(t, EntryLine(e), []) == t + [e]
  {
    EntryLineRoundTrip(e);
    AssignWellFormed(t, e.0, e.1);
  }

  /** The entries before the n-th form a well-formed table without its key. */
  lemma FreshLast(t: Table, n: nat)
    requires WellFormed(t) && 0 < n <= |t|
    ensures WellFormed(t[..n - 1]) && PlainEntry(t[n - 1]) && Lookup(t[..n - 1], t[n - 1].0).None?
  {
    var before := t[..n - 1];
    assert forall j :: 0 <= j < |before| ==> before[j] == t[j];
  }

  /** The written text read back with the same line rule gives the same
      table, when no domain or address holds white space. */
  lemma SerializeRoundTrip(t: Table)
    requires WellFormed(t)
    ensures ExistingHosts(Serialize(t), []) == t
  {
    var lines := EntryLines(t);
    if t != [] {
      forall i | 0 <= i < |lines| ensures '\n' !in lines[i] {
        EntryLineRoundTrip(t[i]);
      }
      SplitJoin(lines, '\n');
      JoinFirst(lines, '\n');
      assert Serialize(t) != [] by {
        assert lines[0] == EntryLine(t[0]);
      }
      StoredTableOfEntries(t);
    }
  }

  // ---------------------------------------------------------------------
  // The handlers
  // ---------------------------------------------------------------------

  /** After `PUT`, the stored file maps every requested domain to its
      requested address and every other stored domain to its old address. */
  lemma PutStored(newHosts: Table, existingContent: string, key: string)
    requires WellFormed(newHosts)
    ensures Lookup(ExistingHosts(PutContent(newHosts, existingContent), []), key)
         == if Lookup(newHosts, key).Some? then Lookup(newHosts, key)
            else Lookup(ExistingHosts(existingContent, []), key)
  {
    var existing := ExistingHosts(existingContent, []);
    ExistingHostsWellFormed(existingContent, []);
    MergeWellFormed(existing, newHosts);
    SerializeRoundTrip(Merge(existing, newHosts));
    MergeLookup(existing, newHosts, key);
  }

  /** After `DELETE`, the stored file lacks every listed domain and maps
      every other stored domain to its old address. */
  lemma DeleteStored(domainsToDelete: seq<string>, existingContent: string, key: string)
    ensures Lookup(ExistingHosts(DeleteContent(domainsToDelete, existingContent), []), key)
         == if key in domainsToDelete then None else Lookup(ExistingHosts(existingContent, []), key)
  {
    ExistingHostsWellFormed(existingContent, domainsToDelete);
    SerializeRoundTrip(ExistingHosts(existingContent, domainsToDelete));
    if existingContent != [] {
      DeletedLookup(Split(existingContent, '\n'), domainsToDelete, key);
    }
  }

  // ---------------------------------------------------------------------
  // The stored file as the DoH endpoint reads it
  // ---------------------------------------------------------------------

  /** The records `hostsToDNSRecords` is expected to give for a table: one
      per entry, in order, named by the domain and carrying the address. */
  function TableRecords(t: Table, ttl: int): (rs: seq<DNSRecord>)
    ensures |rs| == |t|
  {
    seq(|t|, i requires 0 <= i < |t| => DNSRecord(t[i].0, AddressType(t[i].1), ttl, t[i].1))
  }

  predicate NoComment(t: Table) {
    forall i :: 0 <= i < |t| ==> '#' !in t[i].0 && '#' !in t[i].1
  }

  /** A file written by `PUT` or `DELETE` is read by the DoH endpoint as one
      record per entry, in order, when no domain or address holds `#`. */
  lemma StoredHostsAnswered(t: Table, ttl: int)
    requires WellFormed(t) && NoComment(t)
    ensures HostsRecords(Serialize(t), ttl) == TableRecords(t, ttl)
  {
    if t == [] {
      EmptyContent(ttl);
    } else {
      var lines := EntryLines(t);
      forall i | 0 <= i < |lines| ensures '\n' !in lines[i] {
        TabLineOneLine(t[i].1, t[i].0);
      }
      SplitJoin(lines, '\n');
      LinesOfTable(t, ttl);
    }
  }

  lemma {:induction false} LinesOfTable(t: Table, ttl: int)
    requires WellFormed(t) && NoComment(t)
    ensures LinesRecords(EntryLines(t), ttl) == TableRecords(t, ttl)
    decreases |t|
  {
    if t != [] {
      var init, last := t[..|t| - 1], t[|t| - 1];
      FreshLast(t, |t|);
      assert NoComment(init) by {
        assert forall i :: 0 <= i < |init| ==> init[i] == t[i];
      }
      LinesOfTable(init, ttl);
      EntryLinesSnoc(init, last);
      assert t == init + [last];
      LinesRecordsAppend(EntryLines(init), [EntryLine(last)], ttl);
      assert LinesRecords([EntryLine(last)], ttl) == LineRecords(EntryLine(last), ttl) by {
        assert [EntryLine(last)][..0] == [];
      }
      EntryLineRecords(last, ttl);
      TableRecordsSnoc(init, last, ttl);
    }
  }

  lemma TableRecordsSnoc(t: Table, e: (string, string), ttl: int)
    ensures TableRecords(t + [e], ttl) == TableRecords(t, ttl) + [DNSRecord(e.0, AddressType(e.1), ttl, e.1)]
  {
  }

  /** A written line is one host line naming one host. */
  lemma EntryLineRecords(e: (string, string), ttl: int)
    requires PlainEntry(e) && '#' !in e.0 && '#' !in e.1
    ensures LineRecords(EntryLine(e), ttl) == [DNSRecord(e.0, AddressType(e.1), ttl, e.1)]
  {
    var line := EntryLine(e);
    TabLineChars(e.1, e.0);
    SplitNoSep(line, '#');
    TabLineTokens(e.1, e.0);
    assert HostRecords(e.1, [e.0], ttl) == [DNSRecord(e.0, AddressType(e.1), ttl, e.1)] by {
      assert [e.0][..0] == [];
    }
  }
}
