/**
 * Byte buffers as the DNS code sees them through `Uint8Array` and `DataView`:
 * big-endian 16- and 32-bit fields, the modular conversions the setters apply
 * (`ToUint8`, `ToUint16`, `ToUint32`), and the `RangeError` every getter and
 * every `new Uint8Array(buffer, offset, length)` throws outside the buffer.
 */
module Bytes {
  import opened JsText

  type byte = x: int | 0 <= x < 256

  /** What a JavaScript call can fail with here. */
  datatype Error =
    | OutOfRange              // RangeError from a DataView or Uint8Array access
    | CallStackExceeded       // RangeError: unbounded recursion
    | Thrown(message: string) // new Error(message)

  datatype Result<+T> = Ok(value: T) | Err(error: Error) {
    predicate IsFailure() {
      Err?
    }

    function PropagateFailure<U>(): Result<U>
      requires Err?
    {
      Err(error)
    }

    function Extract(): T
      requires Ok?
    {
      value
    }
  }

  /** `ToUint8`: what a setter or a `Uint8Array` stores for an integer value. */
  function U8(v: int): (b: byte)
    ensures 0 <= v < 256 ==> b == v
  {
    v % 256
  }

  /** The two bytes `setUint16(offset, v)` writes. */
  function U16(v: int): (bs: seq<byte>)
    ensures |bs| == 2
  {
    var w := v % 0x1_0000;
    [w / 0x100, w % 0x100]
  }

  /** The four bytes `setUint32(offset, v)` writes. */
  function U32(v: int): (bs: seq<byte>)
    ensures |bs| == 4
  {
    var w := v % 0x1_0000_0000;
    [w / 0x100_0000, (w / 0x1_0000) % 0x100, (w / 0x100) % 0x100, w % 0x100]
  }

  function Be16(hi: byte, lo: byte): nat {
    hi * 0x100 + lo
  }

  function Be32(b0: byte, b1: byte, b2: byte, b3: byte): nat {
    ((b0 * 0x100 + b1) * 0x100 + b2) * 0x100 + b3
  }

  /** `view.getUint8(offset)`. */
  function GetU8(buf: seq<byte>, offset: nat): (r: Result<byte>)
    ensures r.Ok? <==> offset < |buf|
  {
    if offset < |buf| then Ok(buf[offset]) else Err(OutOfRange)
  }

  /** `view.getUint16(offset)`. */
  function GetU16(buf: seq<byte>, offset: nat): (r: Result<nat>)
    ensures r.Ok? <==> offset + 2 <= |buf|
    ensures r.Ok? ==> r.value < 0x1_0000
  {
    if offset + 2 <= |buf| then Ok(Be16(buf[offset], buf[offset + 1])) else Err(OutOfRange)
  }

  /** `view.getUint32(offset)`. */
  function GetU32(buf: seq<byte>, offset: nat): (r: Result<nat>)
    ensures r.Ok? <==> offset + 4 <= |buf|
  {
    if offset + 4 <= |buf|
    then Ok(Be32(buf[offset], buf[offset + 1], buf[offset + 2], buf[offset + 3]))
    else Err(OutOfRange)
  }

  /** `new Uint8Array(buffer, offset, length)`. */
  function Slice(buf: seq<byte>, offset: nat, length: nat): (r: Result<seq<byte>>)
    ensures r.Ok? <==> offset + length <= |buf|
    ensures r.Ok? ==> |r.value| == length
  {
    if offset + length <= |buf| then Ok(buf[offset..offset + length]) else Err(OutOfRange)
  }

  /** Reading back a 16-bit field gives the value modulo 2^16. */
  lemma Be16OfU16(v: int)
    ensures Be16(U16(v)[0], U16(v)[1]) == v % 0x1_0000
  {
  }

  /** Reading back a 32-bit field gives the value modulo 2^32. */
  lemma Be32OfU32(v: int)
    ensures Be32(U32(v)[0], U32(v)[1], U32(v)[2], U32(v)[3]) == v % 0x1_0000_0000
  {
    var w := v % 0x1_0000_0000;
    var b0, b1, b2, b3 := w / 0x100_0000, (w / 0x1_0000) % 0x100, (w / 0x100) % 0x100, w % 0x100;
    assert w == ((w / 0x1_0000) * 0x100 + (w / 0x100) % 0x100) * 0x100 + b3;
    assert w / 0x1_0000 == b0 * 0x100 + b1;
  }

  // ---------------------------------------------------------------------
  // Characters as bytes
  // ---------------------------------------------------------------------

  predicate IsAscii(s: string) {
    forall i :: 0 <= i < |s| ==> s[i] as int < 0x80
  }

  /** The bytes written for the characters of `s`, one per character
      (`charCodeAt` stored through `ToUint8`). */
  function CharBytes(s: string): (bs: seq<byte>)
    ensures |bs| == |s|
  {
    seq(|s|, i requires 0 <= i < |s| => U8(s[i] as int))
  }

  /** `String.fromCharCode(...bytes)`: one character per byte. */
  function Latin1(bs: seq<byte>): (s: string)
    ensures |s| == |bs|
  {
    seq(|bs|, i requires 0 <= i < |bs| => bs[i] as char)
  }

  lemma Latin1CharBytes(s: string)
    requires IsAscii(s)
    ensures Latin1(CharBytes(s)) == s
  {
  }

  lemma CharBytesAppend(a: string, b: string)
    ensures CharBytes(a + b) == CharBytes(a) + CharBytes(b)
  {
  }

  /** The decimal renderings of some bytes, in order. */
  function Decimals(bs: seq<byte>): (ds: seq<string>)
    ensures |ds| == |bs|
  {
    seq(|bs|, i requires 0 <= i < |bs| => NatToString(bs[i]))
  }

  /** `Array.from(bytes).join('.')`: bytes in decimal separated by dots. */
  function DottedDecimal(bs: seq<byte>): string {
    Join(Decimals(bs), '.')
  }

  /** The UTF-8 bytes of one character, as `Buffer.from` writes them. */
  function Utf8Char(c: char): (bs: seq<byte>)
    ensures 1 <= |bs| <= 4
    ensures |bs| == 1 <==> c as int < 0x80
  {
    var v := c as int;
    if v < 0x80 then [v]
    else if v < 0x800 then [0xC0 + v / 0x40, 0x80 + v % 0x40]
    else if v < 0x1_0000 then [0xE0 + v / 0x1000, 0x80 + (v / 0x40) % 0x40, 0x80 + v % 0x40]
    else [0xF0 + v / 0x4_0000, 0x80 + (v / 0x1000) % 0x40, 0x80 + (v / 0x40) % 0x40, 0x80 + v % 0x40]
  }

  /** `Buffer.from(s)`: the UTF-8 encoding of `s`. */
  function Utf8(s: string): seq<byte> {
    ConcatMap(s, Utf8Char)
  }

  /** On ASCII text, UTF-8 writes the same bytes as the character codes. */
  lemma {:induction false} Utf8Ascii(s: string)
    requires IsAscii(s)
    ensures Utf8(s) == CharBytes(s)
    decreases |s|
  {
    if s != [] {
      var init := s[..|s| - 1];
      Utf8Ascii(init);
      assert CharBytes(s) == CharBytes(init) + [U8(s[|s| - 1] as int)];
    }
  }

  // ---------------------------------------------------------------------
  // Concatenation of pieces, in the order a write cursor produces them
  // ---------------------------------------------------------------------

  /** `xs.flatMap(f)`, built from the left as a cursor appends. */
  function ConcatMap<T>(xs: seq<T>, f: T -> seq<byte>): seq<byte>
    decreases |xs|
  {
    if xs == [] then [] else ConcatMap(xs[..|xs| - 1], f) + f(xs[|xs| - 1])
  }

  lemma ConcatMapSnoc<T>(xs: seq<T>, x: T, f: T -> seq<byte>)
    ensures ConcatMap(xs + [x], f) == ConcatMap(xs, f) + f(x)
  {
    assert (xs + [x])[..|xs|] == xs;
  }

  lemma {:induction false} ConcatMapAppend<T>(xs: seq<T>, ys: seq<T>, f: T -> seq<byte>)
    ensures ConcatMap(xs + ys, f) == ConcatMap(xs, f) + ConcatMap(ys, f)
    decreases |ys|
  {
    if ys == [] {
      assert xs + ys == xs;
    } else {
      var init := ys[..|ys| - 1];
      var last := ys[|ys| - 1];
      ConcatMapAppend(xs, init, f);
      assert xs + ys == (xs + init) + [last];
      ConcatMapSnoc(xs + init, last, f);
      assert ys == init + [last];
      ConcatMapSnoc(init, last, f);
    }
  }

  lemma ConcatMapCons<T>(x: T, xs: seq<T>, f: T -> seq<byte>)
    ensures ConcatMap([x] + xs, f) == f(x) + ConcatMap(xs, f)
  {
    ConcatMapAppend([x], xs, f);
    assert [x][..0] == [];
  }

  /** The pieces of a prefix, plus the next piece, fit in the whole. */
  lemma ConcatMapPrefix<T>(xs: seq<T>, j: nat, f: T -> seq<byte>)
    requires j < |xs|
    ensures |ConcatMap(xs[..j], f)| + |f(xs[j])| <= |ConcatMap(xs, f)|
  {
    ConcatMapAppend(xs[..j + 1], xs[j + 1..], f);
    assert xs[..j + 1] + xs[j + 1..] == xs;
    assert xs[..j + 1] == xs[..j] + [xs[j]];
    ConcatMapSnoc(xs[..j], xs[j], f);
  }

  /** One more piece written after the pieces of a prefix, behind the bytes
      already there: the pieces of the next prefix, still within the whole. */
  lemma ConcatMapStep<T>(before: seq<byte>, xs: seq<T>, j: nat, f: T -> seq<byte>)
    requires j < |xs|
    ensures |ConcatMap(xs[..j], f)| + |f(xs[j])| <= |ConcatMap(xs, f)|
    ensures before + ConcatMap(xs[..j], f) + f(xs[j]) == before + ConcatMap(xs[..j + 1], f)
  {
    ConcatMapPrefix(xs, j, f);
    assert xs[..j + 1] == xs[..j] + [xs[j]];
    ConcatMapSnoc(xs[..j], xs[j], f);
    AppendAssoc(before, ConcatMap(xs[..j], f), f(xs[j]));
  }

  /** The bytes for the first `j - 1` elements of `xs`, then those for
      element `j - 1`, are the bytes for the first `j`. */
  lemma ConcatMapGrow<T>(before: seq<byte>, xs: seq<T>, j: nat, done: seq<T>, f: T -> seq<byte>)
    requires 0 < j <= |xs| && done == xs[..j - 1]
    ensures before + ConcatMap(done, f) + f(xs[j - 1]) == before + ConcatMap(xs[..j], f)
  {
    assert xs[..j] == done + [xs[j - 1]];
    ConcatMapSnoc(done, xs[j - 1], f);
    AppendAssoc(before, ConcatMap(done, f), f(xs[j - 1]));
  }

  /** `xs.map(size).reduce((a, b) => a + b, 0)`. */
  function SumOf<T>(xs: seq<T>, size: T -> nat): nat {
    if xs == [] then 0 else size(xs[0]) + SumOf(xs[1..], size)
  }

  /** Pieces whose lengths `size` gives take the sum of those lengths. */
  lemma {:induction false} ConcatMapLength<T>(xs: seq<T>, f: T -> seq<byte>, size: T -> nat)
    requires forall i :: 0 <= i < |xs| ==> |f(xs[i])| == size(xs[i])
    ensures |ConcatMap(xs, f)| == SumOf(xs, size)
    decreases |xs|
  {
    if xs != [] {
      ConcatMapCons(xs[0], xs[1..], f);
      assert [xs[0]] + xs[1..] == xs;
      ConcatMapLength(xs[1..], f, size);
    }
  }

  /** Three runs found one after another at `offset` of a buffer. */
  lemma SliceThree<T>(buf: seq<T>, offset: nat, a: seq<T>, b: seq<T>, c: seq<T>)
    requires offset + |a| + |b| + |c| <= |buf|
    requires buf[offset..offset + |a| + |b| + |c|] == a + b + c
    ensures buf[offset..offset + |a|] == a
    ensures buf[offset + |a|..offset + |a| + |b|] == b
    ensures buf[offset + |a| + |b|..offset + |a| + |b| + |c|] == c
  {
    var n := |a| + |b| + |c|;
    SliceInSlice(buf, offset, a + b + c, 0, |a|, a);
    SliceInSlice(buf, offset, a + b + c, |a|, |a| + |b|, b);
    SliceInSlice(buf, offset, a + b + c, |a| + |b|, n, c);
  }

  /** Where `run` sits at `offset` of `buf`, the part `piece` of `run` between
      `i` and `j` sits at `offset + i`. */
  lemma SliceInSlice<T>(buf: seq<T>, offset: nat, run: seq<T>, i: nat, j: nat, piece: seq<T>)
    requires offset + |run| <= |buf| && buf[offset..offset + |run|] == run
    requires i <= j <= |run| && |piece| == j - i
    requires forall k :: 0 <= k < |piece| ==> piece[k] == run[i + k]
    ensures buf[offset + i..offset + j] == piece
  {
    forall k | 0 <= k < |piece| ensures buf[offset + i..offset + j][k] == piece[k] {
      assert buf[offset + i + k] == buf[offset..offset + |run|][i + k];
    }
  }

  lemma AppendAssoc<T>(a: seq<T>, b: seq<T>, c: seq<T>)
    ensures a + b + c == a + (b + c)
  {
  }

  function Zeros(n: nat): (z: seq<byte>)
    ensures |z| == n
  {
    seq(n, _ => 0)
  }

  /** A buffer holding `prefix` and zeros after it. */
  lemma ZeroFilled(s: seq<byte>, prefix: seq<byte>)
    requires |prefix| <= |s| && s[..|prefix|] == prefix
    requires forall k :: |prefix| <= k < |s| ==> s[k] == 0
    ensures s == prefix + Zeros(|s| - |prefix|)
  {
    var z := prefix + Zeros(|s| - |prefix|);
    forall k | 0 <= k < |s| ensures s[k] == z[k] {
      if k < |prefix| {
        assert s[k] == s[..|prefix|][k];
      }
    }
  }
}
