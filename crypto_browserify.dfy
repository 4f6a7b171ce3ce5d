/** The `crypto-browserify` stand-in: the same 31-multiplier hash as the
    `crypto` stand-in, but `update` calls `data.toString()` (so `null` and
    `undefined` throw), and the signer looks up `createHash` on itself, where
    there is none. */
module CryptoBrowserify {
  import opened Wrappers
  import opened Crypto

  /** `data.toString()`: the text of a value; `null` and `undefined` have no
      `toString` and throw a `TypeError`. */
  function ToStringOf(x: Input): (r: Result<string>)
    ensures r.Err? <==> !x.Text?
    ensures r.Ok? ==> r.value == AsText(x)
  {
    if x.Text? then Ok(x.s) else Err(TypeError)
  }

  /** The object `createHash(algorithm)` returns. */
  class Hash {
    var data: string

    constructor ()
      ensures data == ""
    {
      data := "";
    }

    /** `update(data)` appends `data.toString()` and returns the same object;
        a value without `toString` throws before anything changes. */
    method Update(x: Input) returns (r: Result<Hash>)
      modifies this
      ensures r.Ok? <==> x.Text?
      ensures r.Ok? ==> r.value == this && data == old(data) + x.s
      ensures r.Err? ==> r.error == TypeError && data == old(data)
    {
      var text := ToStringOf(x);
      if text.Err? {
        return Err(text.error);
      }
      data := data + text.value;
      r := Ok(this);
    }

    /** `digest(encoding)`: the same loop and rendering as the `crypto`
        stand-in. */
    method Digest(encoding: Option<string>) returns (d: Digest)
      ensures d == DigestFor(data, encoding)
    {
      d := DigestOf(data, encoding);
    }
  }

  /** The object `createSign(algorithm)` returns. */
  class Signer {
    var data: string

    constructor ()
      ensures data == ""
    {
      data := "";
    }

    method Update(x: Input) returns (r: Result<Signer>)
      modifies this
      ensures r.Ok? <==> x.Text?
      ensures r.Ok? ==> r.value == this && data == old(data) + x.s
      ensures r.Err? ==> r.error == TypeError && data == old(data)
    {
      var text := ToStringOf(x);
      if text.Err? {
        return Err(text.error);
      }
      data := data + text.value;
      r := Ok(this);
    }

    /** `sign(privateKey, encoding)` as written: `this.createHash` is
        `undefined` on the signer, so calling it throws a `TypeError` whatever
        the key and the data. */
    method Sign(privateKey: string, encoding: Option<string>) returns (r: Result<Digest>)
      ensures r == Err(TypeError)
    {
      r := Err(TypeError);
    }

    /** `sign` as evidently intended, with the module's own `createHash`: the
        digest of the accumulated text, as the `crypto` stand-in signs. */
    method SignIntended(privateKey: string, encoding: Option<string>) returns (r: Result<Digest>)
      ensures r == Ok(DigestFor(data, encoding))
    {
      var hash := new Hash();
      var _ := hash.Update(Text(data));
      assert hash.data == data;
      var d := hash.Digest(encoding);
      r := Ok(d);
    }
  }

  /** The intended signature of any text is eight hex digits by default, where
      the signer as written throws for every input. */
  method SignDiscrepancy(text: string) returns (written: Result<Digest>, intended: Result<Digest>)
    ensures written == Err(TypeError)
    ensures intended.Ok? && intended.value.HexText? && |intended.value.text| == 8
  {
    var s := new Signer();
    var _ := s.Update(Text(text));
    written := s.Sign("key", None);
    intended := s.SignIntended("key", None);
    DigestForSpec(s.data, None);
  }

  /** The object `createVerify(algorithm)` returns. */
  class Verifier {
    var data: string

    constructor ()
      ensures data == ""
    {
      data := "";
    }

    method Update(x: Input) returns (r: Result<Verifier>)
      modifies this
      ensures r.Ok? <==> x.Text?
      ensures r.Ok? ==> r.value == this && data == old(data) + x.s
      ensures r.Err? ==> r.error == TypeError && data == old(data)
    {
      var text := ToStringOf(x);
      if text.Err? {
        return Err(text.error);
      }
      data := data + text.value;
      r := Ok(this);
    }

    /** `verify(publicKey, signature, encoding)` accepts every signature. */
    method Verify(publicKey: string, signature: string, encoding: Option<string>) returns (ok: bool)
      ensures ok
    {
      ok := true;
    }
  }
}
