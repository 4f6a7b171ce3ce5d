/** The browser `Buffer` stand-in: a `Uint8Array` built from a number, a hex
    string or a list of numbers, with hex rendering (Base16, section 8 of
    RFC 4648), `slice`, `alloc` and `concat`. The UTF-8 and Base64 text
    conversions are host functions passed in as parameters. */
module Buffers {
  import opened Wrappers
  import opened Text
  import opened Lists

  type Byte = b: int | 0 <= b < 256

  /** What the constructor receives: a number, a string, an `ArrayBuffer`,
      `Uint8Array` or array (its element values), or anything else. */
  datatype Data = Number(n: int) | Str(s: string) | Items(items: seq<int>) | Other

  /** `ToUint8`: a number taken modulo 256, `NaN` (`None`) as 0. */
  function ToUint8(v: Option<int>): Byte {
    if v.None? then 0 else if 0 <= v.value < 256 then v.value else v.value % 256
  }

  // ---- hex decoding ----

  /** Where `parseInt(s, 16)` reads its digits: after leading white space,
      one sign and then a `0x`/`0X` prefix; and whether the sign was `-`. */
  function HexBody(s: string): (string, bool) {
    var t := TrimStart(s);
    var neg := t != [] && t[0] == '-';
    var u := if t != [] && (t[0] == '-' || t[0] == '+') then t[1..] else t;
    (if |u| >= 2 && u[0] == '0' && (u[1] == 'x' || u[1] == 'X') then u[2..] else u, neg)
  }

  predicate IsHex(s: string) {
    forall i :: 0 <= i < |s| ==> IsDigitIn(s[i], 16)
  }

  /** `parseInt`'s digit loop: each hex digit read multiplies the value so far
      by 16 and adds its own; the first other character ends the number. */
  function ReadHex(v: string, acc: nat): nat
    decreases |v|
  {
    if v != [] && IsDigitIn(v[0], 16) then ReadHex(v[1..], 16 * acc + DigitValue(v[0], 16)) else acc
  }

  /** The digit loop reads the longest run of hex digits, `v[..k]`, as a
      base-16 numeral continuing the digits `p` read before it. */
  lemma {:induction false} ReadHexValue(v: string, k: nat, p: string)
    requires k <= |v| && IsHex(p) && IsHex(v[..k]) && (k < |v| ==> !IsDigitIn(v[k], 16))
    ensures IsHex(p + v[..k])
    ensures ReadHex(v, NumeralValue(p, 16)) == NumeralValue(p + v[..k], 16)
    decreases k
  {
    if k == 0 {
      assert v == [] || !IsDigitIn(v[0], 16);
      assert p + v[..0] == p;
    } else {
      assert v[0] == v[..k][0];
      var p' := p + [v[0]];
      assert p'[..|p'| - 1] == p;
      assert NumeralValue(p', 16) == 16 * NumeralValue(p, 16) + DigitValue(v[0], 16);
      assert v[1..][..k - 1] == v[..k][1..];
      ReadHexValue(v[1..], k - 1, p');
      assert p' + v[1..][..k - 1] == p + v[..k];
    }
  }

  /** `parseInt(s, 16)`: the longest run of hex digits after the skipped
      prefix is read, and without one the result is `NaN` (`None`). */
  function ParseHexInt(s: string): Option<int> {
    var (v, neg) := HexBody(s);
    if v == [] || !IsDigitIn(v[0], 16) then None
    else
      var n: int := ReadHex(v, 0);
      Some(if neg then -n else n)
  }

  /** Byte `k` of a hex string: `parseInt(data.substr(2k, 2), 16)` stored in a
      `Uint8Array`; the last pair of an odd-length string is a single
      character. */
  function PairByte(data: string, k: nat): Byte
    requires 2 * k < |data|
  {
    var end := if 2 * k + 2 <= |data| then 2 * k + 2 else |data|;
    ToUint8(ParseHexInt(data[2 * k..end]))
  }

  /** The first `n` bytes of the hex constructor, one per pair of characters. */
  function HexPrefix(data: string, n: nat): (bs: seq<Byte>)
    requires n <= (|data| + 1) / 2
    ensures |bs| == n
  {
    if n == 0 then [] else HexPrefix(data, n - 1) + [PairByte(data, n - 1)]
  }

  /** The bytes of the hex constructor. */
  function HexBytes(data: string): (bs: seq<Byte>)
    ensures |bs| == (|data| + 1) / 2
  {
    HexPrefix(data, (|data| + 1) / 2)
  }

  lemma {:induction false} HexPrefixAt(data: string, n: nat, k: nat)
    requires k < n <= (|data| + 1) / 2
    ensures HexPrefix(data, n)[k] == PairByte(data, k)
  {
    if k < n - 1 {
      HexPrefixAt(data, n - 1, k);
    }
  }

  /** Byte `k` is decoded from pair `k` alone. */
  lemma HexBytesAt(data: string, k: nat)
    requires k < (|data| + 1) / 2
    ensures HexBytes(data)[k] == PairByte(data, k)
  {
    HexPrefixAt(data, (|data| + 1) / 2, k);
  }

  /** The constructor's hex loop: a substring of two characters per step. */
  method DecodeHex(data: string) returns (bytes: seq<Byte>)
    ensures bytes == HexBytes(data)
  {
    bytes := [];
    var i := 0;
    while i < |data|
      invariant 0 <= i <= |data| + 1 && i == 2 * |bytes|
      invariant |bytes| <= (|data| + 1) / 2 && bytes == HexPrefix(data, |bytes|)
    {
      var end := if i + 2 <= |data| then i + 2 else |data|;
      var b := ToUint8(ParseHexInt(data[i..end]));
      assert b == PairByte(data, |bytes|);
      bytes := bytes + [b];
      i := i + 2;
    }
    assert |bytes| == (|data| + 1) / 2 by { HalfUp(|data|, |bytes|); }
  }

  lemma HalfUp(n: nat, m: nat)
    requires n <= 2 * m <= n + 1
    ensures m == (n + 1) / 2
  {
  }

  /** Two hex digits parse to their value: no white space, sign or `0x`
      prefix can be involved. */
  lemma ParseHexPair(c1: char, c2: char)
    requires IsDigitIn(c1, 16) && IsDigitIn(c2, 16)
    ensures ParseHexInt([c1, c2]) == Some(16 * DigitValue(c1, 16) + DigitValue(c2, 16))
  {
    var s := [c1, c2];
    assert !IsSpace(c1);
    TrimStartOfNoLeadingSpace(s);
    assert c1 != '-' && c1 != '+' && c2 != 'x' && c2 != 'X';
    assert HexBody(s) == (s, false);
    var d1, d2 := DigitValue(c1, 16), DigitValue(c2, 16);
    assert s[1..] == [c2] && [c2][1..] == [];
    assert ReadHex([], 16 * d1 + d2) == 16 * d1 + d2;
    assert ReadHex([c2], d1) == 16 * d1 + d2;
    assert ReadHex(s, 0) == ReadHex([c2], d1);
  }

  /** For valid hex, byte `k` is the value of characters `2k` and `2k+1`. */
  lemma HexBytesValid(data: string, k: nat)
    requires IsHex(data) && 2 * k + 1 < |data|
    ensures HexBytes(data)[k] == 16 * DigitValue(data[2 * k], 16) + DigitValue(data[2 * k + 1], 16)
  {
    var c1, c2 := data[2 * k], data[2 * k + 1];
    var pair := data[2 * k..2 * k + 2];
    assert pair == [c1, c2];
    ParseHexPair(c1, c2);
    var v := 16 * DigitValue(c1, 16) + DigitValue(c2, 16);
    assert 0 <= v < 256;
    ByteOfPair(data, k, v);
  }

  lemma ByteOfPair(data: string, k: nat, v: int)
    requires 2 * k + 1 < |data| && 0 <= v < 256
    requires ParseHexInt(data[2 * k..2 * k + 2]) == Some(v)
    ensures HexBytes(data)[k] == v
  {
    HexBytesAt(data, k);
    assert PairByte(data, k) == ToUint8(Some(v));
    assert ToUint8(Some(v)) == v;
  }

  // ---- hex encoding ----

  /** `b.toString(16).padStart(2, '0')`. */
  function Hex2(b: Byte): string {
    PadStart(Numeral(b, 16), 2, '0')
  }

  /** Two lower-case digits: high nibble, then low nibble. */
  lemma Hex2Digits(b: Byte)
    ensures Hex2(b) == [DigitChar(b / 16), DigitChar(b % 16)]
  {
    if b >= 16 {
      assert Numeral(b / 16, 16) == [DigitChar(b / 16)];
    }
  }

  /** `toString('hex')`: two digits per byte, joined. */
  function ToHex(bs: seq<Byte>): string {
    Join(Map(Hex2, bs), "")
  }

  /** Rendering one more byte appends its two digits. */
  lemma ToHexSnoc(bs: seq<Byte>, b: Byte)
    ensures ToHex(bs + [b]) == ToHex(bs) + [DigitChar(b / 16), DigitChar(b % 16)]
  {
    var pieces := Map(Hex2, bs);
    var last := Hex2(b);
    assert Map(Hex2, bs + [b]) == pieces + [last] by {
      MapAppend(Hex2, bs, [b]);
      assert Map(Hex2, [b]) == [last];
    }
    assert ToHex(bs + [b]) == ToHex(bs) + last by {
      if bs == [] {
        assert pieces + [last] == [last];
      } else {
        JoinAppend(pieces, last, "");
      }
    }
    assert last == [DigitChar(b / 16), DigitChar(b % 16)] by { Hex2Digits(b); }
  }

  /** Characters `2k` and `2k+1` of the rendering are the digits of byte `k`. */
  lemma {:induction false} ToHexAt(bs: seq<Byte>)
    ensures |ToHex(bs)| == 2 * |bs|
    ensures forall k :: 0 <= k < |bs| ==>
      ToHex(bs)[2 * k] == DigitChar(bs[k] / 16) && ToHex(bs)[2 * k + 1] == DigitChar(bs[k] % 16)
  {
    if bs != [] {
      var init := bs[..|bs| - 1];
      var last := bs[|bs| - 1];
      ToHexAt(init);
      assert init + [last] == bs;
      ToHexSnoc(init, last);
      var h := ToHex(bs);
      forall k | 0 <= k < |bs|
        ensures h[2 * k] == DigitChar(bs[k] / 16) && h[2 * k + 1] == DigitChar(bs[k] % 16)
      {
        if k < |init| {
          assert bs[k] == init[k];
        }
      }
    }
  }

  /** The rendering has exactly two lower-case hex digits per byte. */
  lemma ToHexShape(bs: seq<Byte>)
    ensures |ToHex(bs)| == 2 * |bs|
    ensures forall i :: 0 <= i < |ToHex(bs)| ==> IsDigitIn(ToHex(bs)[i], 16) && !IsAsciiUpper(ToHex(bs)[i])
  {
    ToHexAt(bs);
    var r := ToHex(bs);
    forall i | 0 <= i < |r|
      ensures IsDigitIn(r[i], 16) && !IsAsciiUpper(r[i])
    {
      var k := i / 2;
      HalfIndex(i, |bs|);
      var hi, lo := bs[k] / 16, bs[k] % 16;
      DigitRoundTrip(hi, 16);
      DigitRoundTrip(lo, 16);
      DigitCharLower(hi);
      DigitCharLower(lo);
      if i == 2 * k {
        assert r[i] == DigitChar(hi);
      } else {
        assert r[i] == DigitChar(lo);
      }
    }
  }

  /** Decoding the hex rendering gives the bytes back. */
  lemma HexRoundTrip(bs: seq<Byte>)
    ensures HexBytes(ToHex(bs)) == bs
  {
    var h := ToHex(bs);
    ToHexAt(bs);
    ToHexShape(bs);
    forall k | 0 <= k < |bs| ensures HexBytes(h)[k] == bs[k] {
      HexBytesValid(h, k);
      DigitRoundTrip(bs[k] / 16, 16);
      DigitRoundTrip(bs[k] % 16, 16);
    }
  }

  /** A hex digit rendered back from its value is its lower-case form. */
  lemma DigitLower(c: char)
    requires IsDigitIn(c, 16)
    ensures DigitChar(DigitValue(c, 16)) == LowerChar(c)
  {
  }

  lemma Nibbles(d1: nat, d2: nat)
    requires d1 < 16 && d2 < 16
    ensures (16 * d1 + d2) / 16 == d1 && (16 * d1 + d2) % 16 == d2
  {
  }

  lemma PairNibbles(h: string, k: nat)
    requires IsHex(h) && 2 * k + 1 < |h|
    ensures k < |HexBytes(h)|
    ensures HexBytes(h)[k] / 16 == DigitValue(h[2 * k], 16) && HexBytes(h)[k] % 16 == DigitValue(h[2 * k + 1], 16)
  {
    var d1, d2 := DigitValue(h[2 * k], 16), DigitValue(h[2 * k + 1], 16);
    HexBytesValid(h, k);
    Nibbles(d1, d2);
  }

  lemma LowerPair(h: string, k: nat)
    requires IsHex(h) && 2 * k + 1 < |h|
    ensures var r := ToHex(HexBytes(h));
      |r| == 2 * |HexBytes(h)| && r[2 * k] == LowerChar(h[2 * k]) && r[2 * k + 1] == LowerChar(h[2 * k + 1])
  {
    var bs := HexBytes(h);
    var r := ToHex(bs);
    PairNibbles(h, k);
    var d1, d2 := DigitValue(h[2 * k], 16), DigitValue(h[2 * k + 1], 16);
    assert bs[k] / 16 == d1;
    ToHexAt(bs);
    assert r[2 * k] == DigitChar(d1);
    assert r[2 * k + 1] == DigitChar(d2);
    DigitLower(h[2 * k]);
    DigitLower(h[2 * k + 1]);
  }

  lemma HalfIndex(i: nat, m: nat)
    requires i < 2 * m
    ensures i / 2 < m && 2 * (i / 2) + 1 < 2 * m && (i == 2 * (i / 2) || i == 2 * (i / 2) + 1)
  {
  }

  /** Character `i` of the rendering of an even-length hex string's decode. */
  lemma HexLowerAt(h: string, i: nat)
    requires IsHex(h) && |h| % 2 == 0 && i < |h|
    ensures |ToHex(HexBytes(h))| == |h| && ToHex(HexBytes(h))[i] == LowerChar(h[i])
  {
    var m := |h| / 2;
    assert |h| == 2 * m && (|h| + 1) / 2 == m by { EvenHalf(|h|); }
    var k := i / 2;
    assert k < m && 2 * k + 1 < |h| && (i == 2 * k || i == 2 * k + 1) by { HalfIndex(i, m); }
    LowerPair(h, k);
  }

  lemma EvenHalf(n: nat)
    requires n % 2 == 0
    ensures n == 2 * (n / 2) && (n + 1) / 2 == n / 2
  {
  }

  /** Rendering the decode of an even-length hex string gives it in lower case. */
  lemma HexLowerRoundTrip(h: string)
    requires IsHex(h) && |h| % 2 == 0
    ensures ToHex(HexBytes(h)) == ToLowerAscii(h)
  {
    if |h| == 0 {
      assert HexBytes(h) == [];
    } else {
      HexLowerAll(h);
    }
  }

  lemma HexLowerAll(h: string)
    requires IsHex(h) && |h| % 2 == 0 && |h| > 0
    ensures var r := ToHex(HexBytes(h));
      |r| == |h| && forall i :: 0 <= i < |h| ==> r[i] == LowerChar(h[i])
  {
    HexLowerAt(h, 0);
    forall i | 0 <= i < |h| ensures ToHex(HexBytes(h))[i] == LowerChar(h[i]) {
      HexLowerAt(h, i);
    }
  }

  // ---- construction ----

  /** The bytes a new buffer holds, or `None` for the `RangeError` of a negative
      length. `text(s, encoding)` is the host's UTF-8 or Base64 conversion. */
  function BufferOf(data: Data, encoding: string, text: (string, string) -> seq<Byte>): (r: Option<seq<Byte>>)
  {
    match data
    case Number(n) => if n < 0 then None else Some(seq(n, _ => 0))
    case Str(s) => Some(if encoding == "hex" then HexBytes(s) else text(s, encoding))
    case Items(items) => Some(seq(|items|, i requires 0 <= i < |items| => ToUint8(Some(items[i]))))
    case Other => Some([])
  }

  /** Construction fails only for a negative length; a length gives that many
      zero bytes, an array each element reduced modulo 256 (so an element
      that is already a byte is kept), and an unsupported value an empty
      buffer. */
  lemma BufferOfSpec(data: Data, encoding: string, text: (string, string) -> seq<Byte>)
    ensures BufferOf(data, encoding, text).None? <==> data.Number? && data.n < 0
    ensures data.Number? && data.n >= 0 ==>
      var b := BufferOf(data, encoding, text).value;
      |b| == data.n && forall i :: 0 <= i < |b| ==> b[i] == 0
    ensures data.Items? ==>
      var b := BufferOf(data, encoding, text).value;
      |b| == |data.items| && forall i :: 0 <= i < |b| ==> b[i] == data.items[i] % 256
    ensures data.Other? ==> BufferOf(data, encoding, text) == Some([])
  {
  }

  /** A buffer built from the hex rendering of some bytes holds those bytes. */
  lemma BufferOfHex(bs: seq<Byte>, text: (string, string) -> seq<Byte>)
    ensures BufferOf(Str(ToHex(bs)), "hex", text) == Some(bs)
  {
    HexRoundTrip(bs);
  }

  /** `new BufferPolyfill(data, encoding)` and `Buffer.from`: a fresh array, or
      `None` when the length is negative. */
  method New(data: Data, encoding: string, text: (string, string) -> seq<Byte>) returns (r: Option<array<Byte>>)
    ensures r.None? <==> BufferOf(data, encoding, text).None?
    ensures r.Some? ==> fresh(r.value) && r.value[..] == BufferOf(data, encoding, text).value
  {
    var bytes: seq<Byte>;
    match data {
      case Number(n) =>
        if n < 0 {
          return None;
        }
        bytes := seq(n, _ => 0);
      case Str(s) =>
        if encoding == "hex" {
          bytes := DecodeHex(s);
        } else {
          bytes := text(s, encoding);
        }
      case Items(items) =>
        bytes := seq(|items|, i requires 0 <= i < |items| => ToUint8(Some(items[i])));
      case Other =>
        bytes := [];
    }
    var a := new Byte[|bytes|](i requires 0 <= i < |bytes| => bytes[i]);
    return Some(a);
  }

  /** `fill(v)` in place: every byte becomes `ToUint8(v)`. */
  method Fill(a: array<Byte>, v: int)
    modifies a
    ensures forall i :: 0 <= i < a.Length ==> a[i] == v % 256
  {
    var i := 0;
    while i < a.Length
      invariant 0 <= i <= a.Length
      invariant forall j :: 0 <= j < i ==> a[j] == v % 256
    {
      a[i] := v % 256;
      i := i + 1;
    }
  }

  /** `alloc(size, fill)`: `size` bytes, every one `fill` taken modulo 256;
      `None` for a negative size. */
  method Alloc(size: int, fill: int) returns (r: Option<array<Byte>>)
    ensures r.None? <==> size < 0
    ensures r.Some? ==> (fresh(r.value) && r.value.Length == size
      && forall i :: 0 <= i < size ==> r.value[i] == fill % 256)
  {
    r := New(Number(size), "utf8", (_, _) => []);
    if r.Some? {
      Fill(r.value, fill);
    }
  }

  /** `allocUnsafe(size)`: as the number constructor, zero-filled. */
  method AllocUnsafe(size: int) returns (r: Option<array<Byte>>)
    ensures r.None? <==> size < 0
    ensures r.Some? ==> fresh(r.value) && r.value[..] == seq(size, _ => 0)
  {
    r := New(Number(size), "utf8", (_, _) => []);
  }

  /** What `isBuffer` is given. */
  datatype Value = BufferValue | Uint8ArrayValue | OtherValue

  /** `isBuffer`: a buffer is a `Uint8Array`, so both kinds qualify. */
  function IsBuffer(v: Value): (r: bool)
    ensures r <==> v != OtherValue
  {
    v.BufferValue? || v.Uint8ArrayValue?
  }

  // ---- slice ----

  /** A relative index of `slice`: negative counts from the end; both clamp
      to `[0, len]`. */
  function Relative(rel: int, len: nat): (k: nat)
    ensures k <= len
  {
    if rel < 0 then (if len + rel < 0 then 0 else len + rel) else if rel > len then len else rel
  }

  /** The bytes `slice(start, end)` keeps. */
  function SliceOf(bs: seq<Byte>, start: int, end: int): (r: seq<Byte>)
  {
    var lo := Relative(start, |bs|);
    var hi := Relative(end, |bs|);
    if hi <= lo then [] else bs[lo..hi]
  }

  /** With indices in range, `slice` keeps exactly bytes `[start, end)`;
      `slice()` copies everything. */
  lemma SliceInRange(bs: seq<Byte>, start: nat, end: nat)
    requires start <= end <= |bs|
    ensures SliceOf(bs, start, end) == bs[start..end]
    ensures SliceOf(bs, 0, |bs|) == bs
  {
  }

  /** `slice`: a fresh buffer holding the kept bytes; the original is not
      written. */
  method Slice(a: array<Byte>, start: int, end: int) returns (r: array<Byte>)
    ensures fresh(r) && r[..] == SliceOf(a[..], start, end)
  {
    var lo := Relative(start, a.Length);
    var hi := Relative(end, a.Length);
    var n := if hi <= lo then 0 else hi - lo;
    r := new Byte[n];
    forall i | 0 <= i < n {
      r[i] := a[lo + i];
    }
  }

  // ---- concat ----

  /** All byte strings, one after the other. */
  function Flatten(parts: seq<seq<Byte>>): seq<Byte> {
    if parts == [] then [] else Flatten(parts[..|parts| - 1]) + parts[|parts| - 1]
  }

  /** The sum of the lengths. */
  function TotalLength(parts: seq<seq<Byte>>): (n: nat)
    ensures n == |Flatten(parts)|
  {
    if parts == [] then 0 else TotalLength(parts[..|parts| - 1]) + |parts[|parts| - 1]|
  }

  /** The first `length` bytes of `s`, padded with zeros. */
  function Fit(s: seq<Byte>, length: nat): (r: seq<Byte>)
    ensures |r| == length
  {
    if |s| >= length then s[..length] else s + seq(length - |s|, _ => 0)
  }

  /** `concat`: a non-array gives an empty buffer; otherwise the concatenation
      fitted to `totalLength`, or to the sum of the lengths when it is not
      given; `None` for a negative `totalLength`. */
  function ConcatOf(list: Option<seq<seq<Byte>>>, totalLength: Option<int>): Option<seq<Byte>> {
    if list.None? then Some([])
    else
      var length := if totalLength.Some? then totalLength.value else TotalLength(list.value);
      if length < 0 then None else Some(Fit(Flatten(list.value), length))
  }

  /** Without `totalLength` the result is exactly the concatenation; with it,
      the result has that length, starts with the concatenation's bytes and
      is zero after them. */
  lemma ConcatSpec(list: seq<seq<Byte>>, totalLength: Option<int>)
    ensures ConcatOf(Some(list), None) == Some(Flatten(list))
    ensures totalLength.Some? && totalLength.value >= 0 ==>
      var r := ConcatOf(Some(list), totalLength).value;
      |r| == totalLength.value
      && (forall i :: 0 <= i < |r| && i < |Flatten(list)| ==> r[i] == Flatten(list)[i])
      && (forall i :: |Flatten(list)| <= i < |r| ==> r[i] == 0)
  {
    assert Flatten(list)[..|Flatten(list)|] == Flatten(list);
  }

  /** The contents of a list of arrays. */
  function Contents(list: seq<array<Byte>>): (r: seq<seq<Byte>>)
    reads set a | a in list
    ensures |r| == |list|
  {
    if list == [] then [] else Contents(list[..|list| - 1]) + [list[|list| - 1][..]]
  }

  lemma {:induction false} ContentsAt(list: seq<array<Byte>>, j: nat)
    requires j < |list|
    ensures Contents(list)[j] == list[j][..]
  {
    if j < |list| - 1 {
      ContentsAt(list[..|list| - 1], j);
    }
  }

  lemma ContentsTake(list: seq<array<Byte>>, i: nat)
    requires i <= |list|
    ensures Contents(list)[..i] == Contents(list[..i])
  {
    forall j | 0 <= j < i ensures Contents(list)[j] == Contents(list[..i])[j] {
      ContentsAt(list, j);
      ContentsAt(list[..i], j);
    }
  }

  lemma ContentsPrefix(list: seq<array<Byte>>, i: nat)
    requires i < |list|
    ensures Contents(list[..i + 1]) == Contents(list[..i]) + [list[i][..]]
  {
    assert list[..i + 1][..i] == list[..i];
  }

  lemma {:induction false} FlattenPrefix(parts: seq<seq<Byte>>, i: nat)
    requires i <= |parts|
    ensures |Flatten(parts[..i])| <= |Flatten(parts)|
    ensures Flatten(parts) == Flatten(parts[..i]) + Flatten(parts)[|Flatten(parts[..i])|..]
    decreases |parts| - i
  {
    if i == |parts| {
      assert parts[..i] == parts;
    } else {
      FlattenPrefix(parts, i + 1);
      assert parts[..i + 1][..i] == parts[..i];
    }
  }

  /** The part at index `i` sits right after the parts before it. */
  lemma FlattenAt(parts: seq<seq<Byte>>, i: nat, k: nat)
    requires i < |parts| && k < |parts[i]|
    ensures |Flatten(parts[..i])| + k < |Flatten(parts)|
    ensures Flatten(parts)[|Flatten(parts[..i])| + k] == parts[i][k]
  {
    FlattenPrefix(parts, i + 1);
    assert parts[..i + 1][..i] == parts[..i];
  }

  lemma TotalLengthStep(parts: seq<seq<Byte>>, j: nat)
    requires j < |parts|
    ensures TotalLength(parts[..j + 1]) == TotalLength(parts[..j]) + |parts[j]|
  {
    assert parts[..j + 1][..j] == parts[..j];
  }

  /** `s` holds the first `offset` bytes of `flat` and zeros after them. */
  predicate Copied(s: seq<Byte>, flat: seq<Byte>, offset: nat) {
    forall k :: 0 <= k < |s| ==> (k < offset ==> k < |flat| && s[k] == flat[k]) && (offset <= k ==> s[k] == 0)
  }

  /** Once the copy has filled the buffer or used up the bytes, the buffer
      is the concatenation fitted to its length. */
  lemma FitResult(s: seq<Byte>, flat: seq<Byte>, offset: nat)
    requires offset <= |flat| && (offset >= |s| || offset == |flat|)
    requires Copied(s, flat, offset)
    ensures s == Fit(flat, |s|)
  {
  }

  /** `list.reduce((acc, buf) => acc + buf.length, 0)`. */
  method SumLengths(bufs: seq<array<Byte>>) returns (n: nat)
    ensures n == TotalLength(Contents(bufs))
  {
    ghost var parts := Contents(bufs);
    n := 0;
    var j := 0;
    while j < |bufs|
      invariant 0 <= j <= |bufs| && n == TotalLength(parts[..j])
    {
      TotalLengthStep(parts, j);
      ContentsAt(bufs, j);
      n := n + bufs[j].Length;
      j := j + 1;
    }
    assert parts[..|bufs|] == parts;
  }

  /** `result.set(source, offset)` with the first `n` bytes of `buf`. */
  method SetAt(result: array<Byte>, buf: array<Byte>, n: nat, offset: nat)
    requires n <= buf.Length && offset + n <= result.Length && result != buf
    modifies result
    ensures result[..] == old(result[..offset]) + buf[..n] + old(result[offset + n..])
  {
    forall k | 0 <= k < n {
      result[offset + k] := buf[k];
    }
    assert result[..] == old(result[..offset]) + buf[..n] + old(result[offset + n..]);
  }

  /** Buffer `i` sits in the concatenation right after the buffers before it. */
  lemma PieceInFlat(bufs: seq<array<Byte>>, i: nat)
    requires i < |bufs|
    ensures var parts := Contents(bufs); var off := |Flatten(parts[..i])|;
      off + bufs[i].Length == |Flatten(parts[..i + 1])| <= |Flatten(parts)|
      && Flatten(parts)[off..off + bufs[i].Length] == bufs[i][..]
  {
    var parts := Contents(bufs);
    ContentsAt(bufs, i);
    FlattenPrefix(parts, i + 1);
    assert parts[..i + 1][..i] == parts[..i];
  }

  /** One step of the copy loop keeps its invariant: writing the next buffer
      (cut to the room left) after `offset` extends the copied prefix by the
      whole buffer. */
  lemma CopyStep(before: seq<Byte>, buf: seq<Byte>, flat: seq<Byte>, offset: nat, n: nat)
    requires offset < |before|
    requires n == if |buf| < |before| - offset then |buf| else |before| - offset
    requires offset + |buf| <= |flat| && flat[offset..offset + |buf|] == buf
    requires Copied(before, flat, offset)
    ensures Copied(before[..offset] + buf[..n] + before[offset + n..], flat, offset + |buf|)
  {
    var after := before[..offset] + buf[..n] + before[offset + n..];
    forall k | 0 <= k < |after|
      ensures (k < offset + |buf| ==> k < |flat| && after[k] == flat[k]) && (offset + |buf| <= k ==> after[k] == 0)
    {
      if k < offset {
        assert after[k] == before[k];
      } else if k < offset + n {
        assert after[k] == buf[k - offset] == flat[offset..offset + |buf|][k - offset];
      } else {
        assert after[k] == before[k];
      }
    }
  }

  /** One pass of the copy loop: the next buffer, cut to the room left, is
      written at `offset`, and the copied prefix grows by the whole buffer. */
  method CopyNext(result: array<Byte>, buf: array<Byte>, ghost flat: seq<Byte>, offset: nat)
    requires offset < result.Length && result != buf
    requires offset + buf.Length <= |flat| && flat[offset..offset + buf.Length] == buf[..]
    requires Copied(result[..], flat, offset)
    modifies result
    ensures Copied(result[..], flat, offset + buf.Length)
  {
    var length := result.Length;
    var n := if buf.Length < length - offset then buf.Length else length - offset;
    ghost var before := result[..];
    SetAt(result, buf, n, offset);
    CopyStep(before, buf[..], flat, offset, n);
  }

  /** The copy loop of `concat` over a zero-filled `result`:
      `result.set(buf.slice(0, length - offset), offset)` per buffer until
      `offset` reaches the length. */
  method CopyParts(bufs: seq<array<Byte>>, result: array<Byte>) returns (offset: nat)
    requires forall k :: 0 <= k < result.Length ==> result[k] == 0
    requires forall j :: 0 <= j < |bufs| ==> bufs[j] != result
    modifies result
    ensures offset <= |Flatten(Contents(bufs))|
    ensures offset >= result.Length || offset == |Flatten(Contents(bufs))|
    ensures Copied(result[..], Flatten(Contents(bufs)), offset)
  {
    ghost var parts := Contents(bufs);
    ghost var flat := Flatten(parts);
    var length := result.Length;
    offset := 0;
    var i := 0;
    while i < |bufs|
      invariant 0 <= i <= |bufs|
      invariant offset == |Flatten(parts[..i])| <= |flat|
      invariant Copied(result[..], flat, offset)
    {
      if offset >= length {
        break;
      }
      var buf := bufs[i];
      assert offset + buf.Length == |Flatten(parts[..i + 1])| <= |flat|
        && flat[offset..offset + buf.Length] == buf[..] by {
        PieceInFlat(bufs, i);
      }
      CopyNext(result, buf, flat, offset);
      offset := offset + buf.Length;
      i := i + 1;
    }
    assert offset >= length || offset == |flat| by {
      if i == |bufs| {
        assert parts[..i] == parts;
      }
    }
  }

  /** The result of `concat` for a list of arrays and a length. */
  method CopyAll(bufs: seq<array<Byte>>, length: nat) returns (result: array<Byte>)
    ensures fresh(result) && result[..] == Fit(Flatten(Contents(bufs)), length)
  {
    result := new Byte[length](_ => 0);
    var offset := CopyParts(bufs, result);
    FitResult(result[..], Flatten(Contents(bufs)), offset);
  }

  /** `concat`: a non-array gives an empty buffer; a negative length is refused. */
  method Concat(list: Option<seq<array<Byte>>>, totalLength: Option<int>) returns (r: Option<array<Byte>>)
    ensures r.None? <==> ConcatOf(if list.Some? then Some(Contents(list.value)) else None, totalLength).None?
    ensures r.Some? ==> (fresh(r.value)
      && r.value[..] == ConcatOf(if list.Some? then Some(Contents(list.value)) else None, totalLength).value)
  {
    if list.None? {
      var empty := new Byte[0];
      return Some(empty);
    }
    var length: int;
    if totalLength.Some? {
      length := totalLength.value;
    } else {
      length := SumLengths(list.value);
    }
    if length < 0 {
      return None;
    }
    var result := CopyAll(list.value, length);
    return Some(result);
  }
}
