/** The browser stand-in for Node's `crypto`: `createHash` is a 32-bit
    polynomial string hash (multiplier 31, kept as a signed 32-bit integer),
    `createSign` signs with that hash whatever the key, `createVerify` accepts
    everything, the ciphers are the identity, and `randomBytes` fills a byte
    array from the host's random source. Nothing here is cryptographic. */
module Crypto {
  import opened Wrappers
  import opened Text
  import opened Buffers

  const TwoTo32: int := 0x1_0000_0000
  const TwoTo31: int := 0x8000_0000

  predicate IsInt32(x: int) {
    -TwoTo31 <= x < TwoTo31
  }

  /** `ToInt32`: the signed 32-bit integer congruent to `x` modulo 2^32, as the
      bitwise operators `<<` and `&` produce it. */
  function Int32(x: int): (r: int)
    ensures IsInt32(r)
  {
    var m := x % TwoTo32;
    if m < TwoTo31 then m else m - TwoTo32
  }

  /** `Int32(x)` differs from `x` by a multiple of 2^32. */
  lemma Int32Offset(x: int) returns (k: int)
    ensures Int32(x) == x + TwoTo32 * k
  {
    k := if x % TwoTo32 < TwoTo31 then -(x / TwoTo32) else -(x / TwoTo32) - 1;
  }

  /** Adding a multiple of 2^32 does not change `Int32`. */
  lemma Int32Shift(x: int, k: int)
    ensures Int32(x + TwoTo32 * k) == Int32(x)
  {
    assert (x + TwoTo32 * k) % TwoTo32 == x % TwoTo32;
  }

  /** A value already in the signed 32-bit range is kept. */
  lemma Int32Fixed(x: int)
    requires IsInt32(x)
    ensures Int32(x) == x
  {
    if x < 0 {
      assert x % TwoTo32 == x + TwoTo32;
    }
  }

  // ---- the hash ----

  /** The UTF-16 code units of one character, as `charCodeAt` sees them. */
  function CodeUnits(c: char): (r: seq<int>)
    ensures 1 <= |r| <= 2 && forall i :: 0 <= i < |r| ==> 0 <= r[i] < 0x10000
  {
    if c as int < 0x10000 then [c as int]
    else [0xD800 + (c as int - 0x10000) / 0x400, 0xDC00 + (c as int - 0x10000) % 0x400]
  }

  /** The string as UTF-16 code units: what `str.length` counts and
      `str.charCodeAt(i)` reads. */
  function Utf16(s: string): (r: seq<int>)
    ensures |s| <= |r| && forall i :: 0 <= i < |r| ==> 0 <= r[i] < 0x10000
  {
    if s == [] then [] else CodeUnits(s[0]) + Utf16(s[1..])
  }

  /** One turn of the digest loop: `((hash << 5) - hash) + char`, then
      `hash & hash`. */
  function Mix(hash: int, unit: int): int {
    Int32(Int32(hash * 32) - hash + unit)
  }

  /** The hash after the digest loop has read `units`, starting from 0. */
  function HashOf(units: seq<int>): (h: int)
    ensures IsInt32(h)
  {
    if units == [] then 0 else Mix(HashOf(units[..|units| - 1]), units[|units| - 1])
  }

  /** The exact polynomial Σ u_i · 31^(n-1-i). */
  function Poly(units: seq<int>): int {
    if units == [] then 0 else units[0] * Pow(31, |units| - 1) + Poly(units[1..])
  }

  /** Appending a unit multiplies the polynomial by 31 and adds the unit. */
  lemma {:induction false} PolySnoc(units: seq<int>, u: int)
    ensures Poly(units + [u]) == Poly(units) * 31 + u
  {
    if units == [] {
      assert Poly([u]) == u * Pow(31, 0) + Poly([]);
    } else {
      var w := units + [u];
      assert w[1..] == units[1..] + [u];
      PolySnoc(units[1..], u);
      var p := Pow(31, |units| - 1);
      assert Pow(31, |units|) == 31 * p;
      calc {
        Poly(w);
        units[0] * (31 * p) + Poly(units[1..]) * 31 + u;
        (units[0] * p + Poly(units[1..])) * 31 + u;
        Poly(units) * 31 + u;
      }
    }
  }

  /** The digest loop computes the polynomial hash modulo 2^32, as a signed
      32-bit integer. */
  lemma {:induction false} HashIsPoly(units: seq<int>)
    ensures HashOf(units) == Int32(Poly(units))
  {
    if units != [] {
      var init, u := units[..|units| - 1], units[|units| - 1];
      assert units == init + [u];
      HashIsPoly(init);
      PolySnoc(init, u);
      var p := Poly(init);
      var t := HashOf(init);
      var a := Int32Offset(p);
      var b := Int32Offset(t * 32);
      assert Int32(t * 32) - t + u == (p * 31 + u) + TwoTo32 * (31 * a + b);
      Int32Shift(p * 31 + u, 31 * a + b);
    }
  }

  // ---- rendering ----

  function Abs(h: int): nat {
    if h < 0 then -h else h
  }

  /** `Math.abs(hash).toString(16).padStart(8, '0')`. */
  function HexDigest(h: int): string {
    PadStart(Numeral(Abs(h), 16), 8, '0')
  }

  /** The hex digest of a 32-bit hash is exactly eight lower-case hex digits
      whose value is the hash's magnitude. */
  lemma HexDigestShape(h: int)
    requires IsInt32(h)
    ensures |HexDigest(h)| == 8
    ensures forall i :: 0 <= i < 8 ==> IsDigitIn(HexDigest(h)[i], 16) && !IsAsciiUpper(HexDigest(h)[i])
    ensures NumeralValue(HexDigest(h), 16) == Abs(h)
  {
    var n := Numeral(Abs(h), 16);
    assert Pow(16, 8) == 0x1_0000_0000 by {
      assert Pow(16, 4) == 0x1_0000;
    }
    NumeralLength(Abs(h), 16, 8);
    NumeralLower(Abs(h), 16);
    NumeralValueZeros(8 - |n|, n, 16);
    NumeralRoundTrip(Abs(h), 16);
    assert HexDigest(h) == Repeat(8 - |n|, '0') + n;
  }

  /** A zero hash, as for empty input, renders as eight zeros. */
  lemma ZeroHexDigest()
    ensures HexDigest(HashOf(Utf16(""))) == "00000000"
  {
    assert Numeral(0, 16) == "0";
    assert Repeat(7, '0') == "0000000";
  }

  /** `[hash & 0xff, (hash >> 8) & 0xff, (hash >> 16) & 0xff, (hash >> 24) & 0xff]`:
      `>>` is floor division and `& 0xff` the remainder modulo 256. */
  function LowBytes(h: int): (r: seq<Byte>)
    ensures |r| == 4
  {
    [h % 256, (h / 256) % 256, (h / 0x1_0000) % 256, (h / 0x100_0000) % 256]
  }

  lemma DivDiv(x: int)
    ensures x / 0x1_0000 == (x / 256) / 256
    ensures x / 0x100_0000 == (x / 0x1_0000) / 256
    ensures x / TwoTo32 == (x / 0x100_0000) / 256
  {
  }

  /** `readInt32LE`: four bytes, least significant first, as a signed 32-bit
      integer. */
  function ReadInt32Le(b: seq<Byte>): int
    requires |b| == 4
  {
    Int32(b[0] as int + 256 * (b[1] as int) + 0x1_0000 * (b[2] as int) + 0x100_0000 * (b[3] as int))
  }

  /** The four bytes read back as a signed 32-bit integer give the hash. */
  lemma LowBytesRoundTrip(h: int)
    requires IsInt32(h)
    ensures ReadInt32Le(LowBytes(h)) == h
  {
    var r := LowBytes(h);
    DivDiv(h);
    var q1, q2, q3, q4 := h / 256, h / 0x1_0000, h / 0x100_0000, h / TwoTo32;
    var b0, b1, b2, b3 := r[0] as int, r[1] as int, r[2] as int, r[3] as int;
    assert h == 256 * q1 + b0;
    assert q1 == 256 * q2 + b1;
    assert q2 == 256 * q3 + b2;
    assert q3 == 256 * q4 + b3;
    var sum := b0 + 256 * b1 + 0x1_0000 * b2 + 0x100_0000 * b3;
    assert h == sum + TwoTo32 * q4;
    Int32Shift(sum, q4);
    Int32Fixed(h);
  }

  /** What `digest` returns: text for `'hex'`, else a `Uint8Array`. */
  datatype Digest = HexText(text: string) | Bytes(bytes: seq<Byte>)

  /** `digest(encoding = 'hex')`: an omitted encoding is `'hex'`. */
  function Render(h: int, encoding: Option<string>): Digest {
    if encoding.None? || encoding.value == "hex" then HexText(HexDigest(h)) else Bytes(LowBytes(h))
  }

  /** The digest of accumulated text. */
  function DigestFor(data: string, encoding: Option<string>): Digest {
    Render(HashOf(Utf16(data)), encoding)
  }

  /** The digest is the rendering of the polynomial hash: eight hex digits of
      its magnitude, or its four bytes least significant first. */
  lemma DigestForSpec(data: string, encoding: Option<string>)
    ensures var h := Int32(Poly(Utf16(data))); var d := DigestFor(data, encoding);
      (d.HexText? <==> encoding.None? || encoding.value == "hex")
      && (d.HexText? ==> |d.text| == 8 && NumeralValue(d.text, 16) == Abs(h))
      && (d.Bytes? ==> |d.bytes| == 4 && ReadInt32Le(d.bytes) == h)
  {
    var h := HashOf(Utf16(data));
    HashIsPoly(Utf16(data));
    HexDigestShape(h);
    LowBytesRoundTrip(h);
  }

  /** The `digest` loop over the code units `str`. */
  method HashLoop(str: seq<int>) returns (hash: int)
    ensures hash == HashOf(str)
  {
    hash := 0;
    var i := 0;
    while i < |str|
      invariant 0 <= i <= |str|
      invariant hash == HashOf(str[..i])
    {
      var code := str[i];
      hash := Int32(hash * 32) - hash + code;
      hash := Int32(hash);
      assert str[..i + 1][..i] == str[..i];
      i := i + 1;
    }
    assert str[..i] == str;
  }

  /** `digest`: the loop over the code units of `data`, then the rendering. */
  method DigestOf(data: string, encoding: Option<string>) returns (d: Digest)
    ensures d == DigestFor(data, encoding)
  {
    var hash := HashLoop(Utf16(data));
    if encoding.None? || encoding.value == "hex" {
      d := HexText(PadStart(Numeral(Abs(hash), 16), 8, '0'));
    } else {
      d := Bytes([hash % 256, (hash / 256) % 256, (hash / 0x1_0000) % 256, (hash / 0x100_0000) % 256]);
    }
  }

  // ---- the objects ----

  /** What `update` is given: a value with its `String(value)` text, or
      `null` / `undefined`. */
  datatype Input = Text(s: string) | Null | Undefined

  /** `_data + data` for a string `_data`. */
  function AsText(x: Input): string {
    match x
    case Text(s) => s
    case Null => "null"
    case Undefined => "undefined"
  }

  /** `createHash(algorithm)`: any algorithm name gives the same hash object. */
  class Hash {
    /** `this._data || ''`: the text fed so far. */
    var data: string

    constructor ()
      ensures data == ""
    {
      data := "";
    }

    /** `update(data)` appends and returns the same object. */
    method Update(x: Input) returns (self: Hash)
      modifies this
      ensures data == old(data) + AsText(x) && self == this
    {
      data := data + AsText(x);
      self := this;
    }

    /** `digest(encoding)` reads `_data` and leaves it as it is. */
    method Digest(encoding: Option<string>) returns (d: Digest)
      ensures d == DigestFor(data, encoding)
    {
      d := DigestOf(data, encoding);
    }
  }

  /** `update(a).update(b)` digests like a single `update(a + b)`. */
  method UpdateChain(a: string, b: string, encoding: Option<string>) returns (chained: Digest, single: Digest)
    ensures chained == single == DigestFor(a + b, encoding)
  {
    var h1 := new Hash();
    var h2 := h1.Update(Text(a));
    var h3 := h2.Update(Text(b));
    chained := h3.Digest(encoding);
    assert h3.data == a + b;
    var g := new Hash();
    var g2 := g.Update(Text(a + b));
    assert g2.data == a + b;
    single := g2.Digest(encoding);
  }

  /** The object `createSign(algorithm)` returns. */
  class Signer {
    var data: string

    constructor ()
      ensures data == ""
    {
      data := "";
    }

    method Update(x: Input) returns (self: Signer)
      modifies this
      ensures data == old(data) + AsText(x) && self == this
    {
      data := data + AsText(x);
      self := this;
    }

    /** `sign(privateKey, encoding)`: the digest of a fresh hash fed the
        accumulated text; the key plays no part. */
    method Sign(privateKey: string, encoding: Option<string>) returns (d: Digest)
      ensures d == DigestFor(data, encoding)
    {
      var hash := new Hash();
      var _ := hash.Update(Text(data));
      assert hash.data == data;
      d := hash.Digest(encoding);
    }
  }

  /** The object `createVerify(algorithm)` returns. */
  class Verifier {
    var data: string

    constructor ()
      ensures data == ""
    {
      data := "";
    }

    method Update(x: Input) returns (self: Verifier)
      modifies this
      ensures data == old(data) + AsText(x) && self == this
    {
      data := data + AsText(x);
      self := this;
    }

    /** `verify(publicKey, signature, encoding)` accepts every signature. */
    method Verify(publicKey: string, signature: string, encoding: Option<string>) returns (ok: bool)
      ensures ok
    {
      ok := true;
    }
  }

  /** `createCipher(...).update(data)` and `createDecipher(...).update(data)`. */
  function CipherUpdate<T>(data: T): T {
    data
  }

  /** `final()` of either object. */
  function CipherFinal(): string {
    ""
  }

  /** Deciphering what was enciphered, each followed by `final`, gives the
      text back. */
  lemma CipherRoundTrip(text: string)
    ensures CipherUpdate(CipherUpdate(text) + CipherFinal()) + CipherFinal() == text
  {
  }

  /** The most bytes one `crypto.getRandomValues` call fills. */
  const MaxRandomValues := 65536

  /** `randomBytes(size)`: `new Uint8Array(size)` refuses a negative size with
      a `RangeError`. When the host has `window.crypto`, `getRandomValues`
      fills the array in one call and refuses more than `MaxRandomValues`
      bytes with a `QuotaExceededError`; otherwise a loop fills it from
      `Math.random`. Either source is given as `random(i)` for position `i`. */
  method RandomBytes(size: int, hasCrypto: bool, random: nat -> Byte) returns (r: Result<array<Byte>>)
    ensures r.Err? <==> size < 0 || (hasCrypto && size > MaxRandomValues)
    ensures r.Err? ==> r.error == if size < 0 then RangeError else QuotaExceededError
    ensures r.Ok? ==>
      fresh(r.value) && r.value.Length == size && forall i :: 0 <= i < size ==> r.value[i] == random(i)
  {
    if size < 0 {
      return Err(RangeError);
    }
    if hasCrypto {
      if size > MaxRandomValues {
        return Err(QuotaExceededError);
      }
      var filled := new Byte[size](i requires 0 <= i => random(i));
      return Ok(filled);
    }
    var bytes := new Byte[size];
    var i := 0;
    while i < size
      invariant 0 <= i <= size
      invariant forall k :: 0 <= k < i ==> bytes[k] == random(k)
    {
      bytes[i] := random(i);
      i := i + 1;
    }
    r := Ok(bytes);
  }
}
