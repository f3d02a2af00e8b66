/**
 * The JavaScript string built-ins the DNS code is written with: `split` on one
 * character, `join`, `trim`, `split(/\s+/)`, `parseInt` and the decimal
 * rendering of integers (`String(n)`, template literals).  Strings are
 * sequences of Unicode characters, which are JavaScript's UTF-16 units only up
 * to U+FFFF; `parseInt` yields exact integers, not doubles rounded above 2^53.
 */
module JsText {

  datatype Option<+T> = None | Some(value: T)

  /** The characters that `trim`, the class `\s` and `parseInt` treat as white
      space: ECMAScript's WhiteSpace and LineTerminator characters. */
  predicate IsSpace(c: char) {
    c == '\t' || c == '\n' || c == '\U{B}' || c == '\U{C}' || c == '\r' || c == ' ' ||
    c == '\U{A0}' || c == '\U{1680}' || ('\U{2000}' <= c <= '\U{200A}') ||
    c == '\U{2028}' || c == '\U{2029}' || c == '\U{202F}' || c == '\U{205F}' ||
    c == '\U{3000}' || c == '\U{FEFF}'
  }

  predicate NoSpace(s: string) {
    forall i :: 0 <= i < |s| ==> !IsSpace(s[i])
  }

  /** `s.trimStart()`: the suffix of `s` left after dropping leading white space. */
  function TrimStart(s: string): (r: string)
    ensures |r| <= |s|
    ensures r == [] || !IsSpace(r[0])
  {
    if |s| > 0 && IsSpace(s[0]) then TrimStart(s[1..]) else s
  }

  /** `s.trimEnd()`. */
  function TrimEnd(s: string): (r: string)
    ensures |r| <= |s| && r == s[..|r|]
    ensures r == [] || !IsSpace(r[|r| - 1])
  {
    if |s| > 0 && IsSpace(s[|s| - 1]) then TrimEnd(s[..|s| - 1]) else s
  }

  /** `s.trim()`. */
  function Trim(s: string): string {
    TrimEnd(TrimStart(s))
  }

  lemma TrimUnchanged(s: string)
    requires s == [] || (!IsSpace(s[0]) && !IsSpace(s[|s| - 1]))
    ensures Trim(s) == s
  {
  }

  /** `s.split(sep)` for a one-character separator: always at least one part,
      `""` splits into `[""]`, and no part contains the separator. */
  function Split(s: string, sep: char): (parts: seq<string>)
    ensures |parts| >= 1
    ensures forall i :: 0 <= i < |parts| ==> sep !in parts[i]
    decreases |s|
  {
    if s == [] then [[]]
    else
      var rest := Split(s[1..], sep);
      if s[0] == sep then [[]] + rest
      else [[s[0]] + rest[0]] + rest[1..]
  }

  /** `parts.join(sep)`; the empty list joins to `""`. */
  function Join(parts: seq<string>, sep: char): string {
    if |parts| == 0 then []
    else if |parts| == 1 then parts[0]
    else parts[0] + [sep] + Join(parts[1..], sep)
  }

  /** Joining the parts of a split gives the string back. */
  lemma {:induction false} JoinSplit(s: string, sep: char)
    ensures Join(Split(s, sep), sep) == s
    decreases |s|
  {
    if s != [] {
      JoinSplit(s[1..], sep);
      var rest := Split(s[1..], sep);
      if s[0] != sep && |rest| > 1 {
        assert Join(rest, sep) == rest[0] + [sep] + Join(rest[1..], sep);
        assert Split(s, sep)[1..] == rest[1..];
      }
    }
  }

  /** Splitting distributes over a separator occurrence. */
  lemma {:induction false} SplitAround(a: string, b: string, sep: char)
    ensures Split(a + [sep] + b, sep) == Split(a, sep) + Split(b, sep)
    decreases |a|
  {
    if a == [] {
      assert [sep] + b == a + [sep] + b;
      assert ([sep] + b)[1..] == b;
    } else {
      assert (a + [sep] + b)[1..] == a[1..] + [sep] + b;
      SplitAround(a[1..], b, sep);
    }
  }

  /** A string without the separator is a single part. */
  lemma {:induction false} SplitNoSep(s: string, sep: char)
    requires sep !in s
    ensures Split(s, sep) == [s]
    decreases |s|
  {
    if s != [] {
      assert sep !in s[1..];
      SplitNoSep(s[1..], sep);
      assert [s[0]] + s[1..] == s;
    }
  }

  /** Splitting a join gives the parts back when none contains the separator. */
  lemma {:induction false} SplitJoin(parts: seq<string>, sep: char)
    requires |parts| >= 1
    requires forall i :: 0 <= i < |parts| ==> sep !in parts[i]
    ensures Split(Join(parts, sep), sep) == parts
    decreases |parts|
  {
    if |parts| == 1 {
      SplitNoSep(parts[0], sep);
    } else {
      SplitJoin(parts[1..], sep);
      SplitAround(parts[0], Join(parts[1..], sep), sep);
      SplitNoSep(parts[0], sep);
      assert parts == [parts[0]] + parts[1..];
    }
  }

  /** Every character of a join is the separator or a character of a part. */
  lemma {:induction false} JoinMembership(parts: seq<string>, sep: char, c: char)
    requires c in Join(parts, sep)
    ensures c == sep || exists i :: 0 <= i < |parts| && c in parts[i]
    decreases |parts|
  {
    if |parts| > 1 && c !in parts[0] && c != sep {
      JoinMembership(parts[1..], sep, c);
      var i :| 0 <= i < |parts| - 1 && c in parts[1..][i];
      assert c in parts[i + 1];
    }
  }

  /** A join starts with its first part, followed by the separator when more
      parts come. */
  lemma JoinFirst(parts: seq<string>, sep: char)
    requires |parts| >= 1
    ensures parts[0] <= Join(parts, sep)
    ensures |parts| >= 2 ==> parts[0] + [sep] <= Join(parts, sep)
  {
  }

  /** Joining two non-empty lists puts one separator between their joins. */
  lemma {:induction false} JoinAppend(a: seq<string>, b: seq<string>, sep: char)
    requires |a| >= 1 && |b| >= 1
    ensures Join(a + b, sep) == Join(a, sep) + [sep] + Join(b, sep)
    decreases |a|
  {
    if |a| > 1 {
      JoinAppend(a[1..], b, sep);
      assert (a + b)[1..] == a[1..] + b;
    } else {
      assert (a + b)[1..] == b;
    }
  }

  /** `s.split(/\s+/)`: maximal runs of white space separate the tokens. */
  function SplitSpaces(s: string): (parts: seq<string>)
    ensures |parts| >= 1
    decreases |s|
  {
    if s == [] then [[]]
    else if IsSpace(s[0]) then [[]] + SplitSpaces(TrimStart(s[1..]))
    else
      var rest := SplitSpaces(s[1..]);
      [[s[0]] + rest[0]] + rest[1..]
  }

  /** A string without white space is one token. */
  lemma {:induction false} SplitSpacesToken(s: string)
    requires NoSpace(s)
    ensures SplitSpaces(s) == [s]
    decreases |s|
  {
    if s != [] {
      assert NoSpace(s[1..]) by {
        forall i | 0 <= i < |s| - 1 ensures !IsSpace(s[1..][i]) {
          assert s[1..][i] == s[i + 1];
        }
      }
      SplitSpacesToken(s[1..]);
      assert [s[0]] + s[1..] == s;
    }
  }

  /** A token, a run of white space, then more text: the token comes first. */
  lemma {:induction false} SplitSpacesAround(a: string, gap: string, b: string)
    requires NoSpace(a) && |gap| >= 1 && (forall i :: 0 <= i < |gap| ==> IsSpace(gap[i]))
    requires b == [] || !IsSpace(b[0])
    ensures SplitSpaces(a + gap + b) == [a] + SplitSpaces(b)
    decreases |a|
  {
    if a == [] {
      assert a + gap + b == gap + b;
      assert (gap + b)[1..] == gap[1..] + b;
      TrimStartRun(gap[1..], b);
    } else {
      assert (a + gap + b)[1..] == a[1..] + gap + b;
      assert NoSpace(a[1..]) by {
        forall i | 0 <= i < |a| - 1 ensures !IsSpace(a[1..][i]) {
          assert a[1..][i] == a[i + 1];
        }
      }
      SplitSpacesAround(a[1..], gap, b);
      assert (a + gap + b)[0] == a[0];
      assert [a[0]] + a[1..] == a;
    }
  }

  lemma {:induction false} TrimStartRun(gap: string, b: string)
    requires forall i :: 0 <= i < |gap| ==> IsSpace(gap[i])
    requires b == [] || !IsSpace(b[0])
    ensures TrimStart(gap + b) == b
    decreases |gap|
  {
    if gap != [] {
      assert (gap + b)[1..] == gap[1..] + b;
      TrimStartRun(gap[1..], b);
    }
  }

  // ---------------------------------------------------------------------
  // Numbers as text
  // ---------------------------------------------------------------------

  function DigitChar(d: nat): char
    requires d < 10
  {
    ('0' as int + d) as char
  }

  /** The decimal rendering of a natural number, without leading zeros. */
  function NatToString(n: nat): (s: string)
    ensures |s| >= 1 && s[0] != '-'
    ensures forall i :: 0 <= i < |s| ==> '0' <= s[i] <= '9'
    decreases n
  {
    if n < 10 then [DigitChar(n)] else NatToString(n / 10) + [DigitChar(n % 10)]
  }

  /** `String(n)` for an integer `n`. */
  function IntToString(n: int): string {
    if n < 0 then "-" + NatToString(-n) else NatToString(n)
  }

  /** The value of `c` as a digit in base 36, or 36 when it is none. */
  function DigitValue(c: char): nat {
    if '0' <= c <= '9' then c as nat - '0' as nat
    else if 'a' <= c <= 'z' then c as nat - 'a' as nat + 10
    else if 'A' <= c <= 'Z' then c as nat - 'A' as nat + 10
    else 36
  }

  /** The longest prefix of `s` made of digits of the given radix. */
  function DigitPrefix(s: string, radix: nat): (p: string)
    ensures |p| <= |s|
    ensures forall i :: 0 <= i < |p| ==> DigitValue(p[i]) < radix
  {
    if s != [] && DigitValue(s[0]) < radix then [s[0]] + DigitPrefix(s[1..], radix) else []
  }

  /** The value of a digit string, most significant digit first. */
  function DigitsValue(ds: string, radix: nat): nat {
    if ds == [] then 0
    else DigitsValue(ds[..|ds| - 1], radix) * radix + DigitValue(ds[|ds| - 1])
  }

  /** `parseInt(s, radix)` for radix 10 or 16, and `parseInt(s)` written as
      radix 0: leading white space, one optional sign, then the number;
      `None` stands for `NaN`. */
  function ParseInt(s: string, radix: nat): Option<int>
    requires radix == 0 || radix == 10 || radix == 16
  {
    var t := TrimStart(s);
    var u := if |t| > 0 && (t[0] == '-' || t[0] == '+') then t[1..] else t;
    match ParseMagnitude(u, radix)
    case None => None
    case Some(m) => if |t| > 0 && t[0] == '-' then Some(-(m as int)) else Some(m as int)
  }

  /** The unsigned part of `parseInt`: a `0x`/`0X` prefix switches to base 16
      (radix 0 or 16 only), then the longest run of digits of the base is read;
      no digit at all is `NaN`. */
  function ParseMagnitude(u: string, radix: nat): Option<nat>
    requires radix == 0 || radix == 10 || radix == 16
  {
    var hexPrefix := radix != 10 && |u| >= 2 && u[0] == '0' && (u[1] == 'x' || u[1] == 'X');
    var base := if hexPrefix then 16 else if radix == 0 then 10 else radix;
    var digits := DigitPrefix(if hexPrefix then u[2..] else u, base);
    if digits == [] then None else Some(DigitsValue(digits, base))
  }

  lemma {:induction false} NatToStringValue(n: nat)
    ensures DigitsValue(NatToString(n), 10) == n
    decreases n
  {
    if n >= 10 {
      NatToStringValue(n / 10);
      var s := NatToString(n);
      assert s[..|s| - 1] == NatToString(n / 10);
    }
  }

  lemma AllDigitsPrefix(s: string, radix: nat)
    requires forall i :: 0 <= i < |s| ==> DigitValue(s[i]) < radix
    ensures DigitPrefix(s, radix) == s
  {
    if s != [] {
      AllDigitsPrefix(s[1..], radix);
    }
  }

  lemma MagnitudeOfDecimal(m: nat, radix: nat)
    requires radix == 0 || radix == 10
    ensures ParseMagnitude(NatToString(m), radix) == Some(m)
  {
    var d := NatToString(m);
    assert !(|d| >= 2 && d[0] == '0' && (d[1] == 'x' || d[1] == 'X')) by {
      if |d| >= 2 {
        assert '0' <= d[1] <= '9';
      }
    }
    DecimalDigitsPrefix(d);
    NatToStringValue(m);
  }

  /** A run of decimal digits is read whole in base 10. */
  lemma DecimalDigitsPrefix(d: string)
    requires forall i :: 0 <= i < |d| ==> '0' <= d[i] <= '9'
    ensures DigitPrefix(d, 10) == d
  {
    forall i | 0 <= i < |d| ensures DigitValue(d[i]) < 10 {
      assert '0' <= d[i] <= '9';
    }
    AllDigitsPrefix(d, 10);
  }

  lemma ParseIntNat(m: nat)
    ensures ParseInt(NatToString(m), 10) == Some(m)
    ensures ParseInt(NatToString(m), 0) == Some(m)
  {
    var d := NatToString(m);
    MagnitudeOfDecimal(m, 10);
    MagnitudeOfDecimal(m, 0);
    assert TrimStart(d) == d;
  }

  lemma ParseIntNegative(m: nat)
    requires m > 0
    ensures ParseInt("-" + NatToString(m), 10) == Some(-(m as int))
  {
    var d := NatToString(m);
    var t := "-" + d;
    MagnitudeOfDecimal(m, 10);
    assert TrimStart(t) == t;
    assert t[1..] == d;
  }

  /** `parseInt` reads back what `String` wrote, for every integer. */
  lemma ParseIntToString(n: int)
    ensures ParseInt(IntToString(n), 10) == Some(n)
  {
    if n < 0 {
      var m: nat := -n;
      assert IntToString(n) == "-" + NatToString(m);
      ParseIntNegative(m);
    } else {
      assert IntToString(n) == NatToString(n);
      ParseIntNat(n);
    }
  }

  /** Distinct integers render to distinct text. */
  lemma IntToStringInjective(a: int, b: int)
    ensures IntToString(a) == IntToString(b) ==> a == b
  {
    ParseIntToString(a);
    ParseIntToString(b);
  }

  /** The lower-case hexadecimal digit of `d`. */
  function HexChar(d: nat): char
    requires d < 16
  {
    if d < 10 then DigitChar(d) else ('a' as int + d - 10) as char
  }

  /** `b.toString(16).padStart(2, '0')` for a byte value. */
  function Hex2(b: nat): (s: string)
    requires b < 256
    ensures |s| == 2
  {
    [HexChar(b / 16), HexChar(b % 16)]
  }
}
