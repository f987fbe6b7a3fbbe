/**
  The hash entity of the ledger: an immutable byte buffer, produced by some
  external digest or signature step, together with the buffer length cached
  when the entity is built. It offers read-only views of the buffer: a text
  digest (lowercase hex, the default, or standard Base64), the bytes widened
  to integers, a copy of the buffer, and a debug view.
*/
module Hash {
  import opened Wrappers
  import Hex
  import Base64

  /** The failure the digest reports for an encoding other than "hex" and "base64". */
  datatype DigestError = UnsupportedEncoding(encoding: string)

  /** The two fields the debug rendering shows: the cached length and the hex digest. */
  datatype DebugFields = DebugFields(byteLength: nat, digest: string)

  datatype HashEntity = HashEntity(byteLength: nat, data: seq<byte>) {

    /** The cached length agrees with the buffer. */
    predicate Valid() {
      byteLength == |data|
    }

    /**
      The digest in the requested encoding: hex when no encoding or "hex" is
      given, Base64 for "base64", and a failure for any other name.
    */
    function Digest(encoding: Option<string>): (r: Result<string, DigestError>)
      ensures r.Success? <==> (encoding == None || encoding == Some("hex") || encoding == Some("base64"))
      ensures r.Failure? ==> r.error == UnsupportedEncoding(encoding.value)
    {
      match encoding
      case None => Success(Hex.Encode(data))
      case Some(name) =>
        if name == "hex" then Success(Hex.Encode(data))
        else if name == "base64" then Success(Base64.Encode(data))
        else Failure(UnsupportedEncoding(name))
    }

    /** Each byte of the buffer, in order, as a non-negative integer. */
    function Bytes(): (r: seq<nat>)
      ensures |r| == |data|
      ensures forall i :: 0 <= i < |r| ==> r[i] == data[i] as nat && r[i] < 256
    {
      seq(|data|, i requires 0 <= i < |data| => data[i] as nat)
    }

    /** A copy of the buffer: the same bytes in the same order. */
    function Buffer(): (r: seq<byte>)
      ensures r == data
    {
      data
    }

    /** What the debug rendering shows: the cached length and the hex digest, never the raw bytes. */
    function Debug(): (r: DebugFields)
      ensures r.byteLength == byteLength
      ensures Digest(Some("hex")) == Success(r.digest)
    {
      DebugFields(byteLength, Digest(Some("hex")).value)
    }
  }

  /** Builds an entity from a buffer, caching its length; any buffer is accepted, the empty one included. */
  function New(data: seq<byte>): (h: HashEntity)
    ensures h.Valid() && h.byteLength == |data|
    ensures h.Buffer() == data
  {
    HashEntity(|data|, data)
  }

  // ---------------------------------------------------------------------------
  // Properties of the views

  /** No encoding and "hex" give the same digest: hex is the default. */
  lemma DigestDefaultIsHex(h: HashEntity)
    ensures h.Digest(None) == h.Digest(Some("hex"))
    ensures h.Digest(None).Success?
  {
  }

  /** Any encoding name other than "hex" and "base64" never yields a digest. */
  lemma DigestUnsupported(h: HashEntity, name: string)
    requires name != "hex" && name != "base64"
    ensures h.Digest(Some(name)) == Failure(UnsupportedEncoding(name))
  {
  }

  /**
    The hex digest has two lowercase hex characters per byte, characters 2i
    and 2i+1 are the `{:02x}` form of byte i, and decoding it gives back the
    buffer; when the cached length is intact it is twice that length.
  */
  lemma DigestHex(h: HashEntity, encoding: Option<string>)
    requires encoding == None || encoding == Some("hex")
    ensures h.Digest(encoding).Success?
    ensures var d := h.Digest(encoding).value;
      && |d| == 2 * |h.data|
      && (h.Valid() ==> |d| == 2 * h.byteLength)
      && (forall i :: 0 <= i < |d| ==> Hex.IsLowerHexChar(d[i]))
      && (forall i :: 0 <= i < |h.data| ==> d[2 * i .. 2 * i + 2] == Hex.ByteHex(h.data[i]))
      && Hex.Decode(d) == Some(h.data)
  {
    var d := Hex.Encode(h.data);
    forall i | 0 <= i < |h.data| ensures d[2 * i .. 2 * i + 2] == Hex.ByteHex(h.data[i]) {
      Hex.EncodeAt(h.data, i);
    }
    Hex.DecodeEncode(h.data);
  }

  /**
    The Base64 digest follows section 4 of RFC 4648: 4 * ceil(n / 3)
    characters; alphabet characters followed by the prescribed `=` padding;
    characters 4k to 4k+3 encode the 24 bits of bytes 3k to 3k+2, and the
    last four characters a final group of one or two bytes; decoding it
    gives back the buffer.
  */
  lemma DigestBase64(h: HashEntity)
    ensures h.Digest(Some("base64")).Success?
    ensures var d, n := h.Digest(Some("base64")).value, |h.data|;
      |d| == 4 * ((n + 2) / 3) && (h.Valid() ==> |d| == 4 * ((h.byteLength + 2) / 3))
    ensures var d, pads := h.Digest(Some("base64")).value, Base64.PadCount(|h.data|);
      (forall i :: 0 <= i < |d| - pads ==> Base64.IsBase64Char(d[i]))
      && (forall i :: |d| - pads <= i < |d| ==> d[i] == Base64.Pad)
    ensures var d, n := h.Digest(Some("base64")).value, |h.data|;
      forall k :: 0 <= k && 3 * k + 3 <= n ==>
        4 * k + 4 <= |d| && Base64.EncodesTriple(d[4 * k .. 4 * k + 4], h.data[3 * k], h.data[3 * k + 1], h.data[3 * k + 2])
    ensures var d, n := h.Digest(Some("base64")).value, |h.data|;
      && (n % 3 == 2 ==> |d| >= 4 && Base64.EncodesPair(d[|d| - 4..], h.data[n - 2], h.data[n - 1]))
      && (n % 3 == 1 ==> |d| >= 4 && Base64.EncodesSingle(d[|d| - 4..], h.data[n - 1]))
    ensures Base64.Decode(h.Digest(Some("base64")).value) == Some(h.data)
  {
    var d := Base64.Encode(h.data);
    assert h.Digest(Some("base64")) == Success(d);
    forall k | 0 <= k && 3 * k + 3 <= |h.data|
      ensures 4 * k + 4 <= |d| && Base64.EncodesTriple(d[4 * k .. 4 * k + 4], h.data[3 * k], h.data[3 * k + 1], h.data[3 * k + 2])
    {
      Base64.EncodeTripleAt(h.data, k);
    }
    if |h.data| % 3 == 2 {
      Base64.EncodeTailPair(h.data);
    } else if |h.data| % 3 == 1 {
      Base64.EncodeTailSingle(h.data);
    }
    Base64.DecodeEncode(h.data);
  }

  /** Entities with the same buffer give the same digest, and different buffers give different digests. */
  lemma DigestDeterminesBuffer(h: HashEntity, g: HashEntity, encoding: Option<string>)
    requires h.Digest(encoding).Success?
    ensures g.Digest(encoding) == h.Digest(encoding) <==> g.data == h.data
  {
    if g.Digest(encoding) == h.Digest(encoding) {
      if encoding == Some("base64") {
        Base64.EncodeInjective(g.data, h.data);
      } else {
        Hex.EncodeInjective(g.data, h.data);
      }
    }
  }

  /** The integer view and the buffer view agree byte by byte. */
  lemma BytesMatchBuffer(h: HashEntity)
    requires h.Valid()
    ensures |h.Bytes()| == h.byteLength == |h.Buffer()|
    ensures forall i :: 0 <= i < h.byteLength ==> h.Bytes()[i] == h.Buffer()[i] as nat
  {
  }

  /** A valid entity is rebuilt exactly from its own buffer copy. */
  lemma NewOfBuffer(h: HashEntity)
    requires h.Valid()
    ensures New(h.Buffer()) == h
  {
  }

  /** The debug view's digest has two characters per cached byte and determines the buffer. */
  lemma DebugShowsHex(h: HashEntity)
    requires h.Valid()
    ensures |h.Debug().digest| == 2 * h.Debug().byteLength
    ensures Hex.Decode(h.Debug().digest) == Some(h.data)
  {
    DigestHex(h, Some("hex"));
  }

  // ---------------------------------------------------------------------------
  // Concrete cases

  /** The demonstration buffer 48 59 20 43 48 ("HY CH"). */
  lemma ExampleBuffer()
    ensures var h := New([0x48, 0x59, 0x20, 0x43, 0x48]);
      && h.byteLength == 5
      && h.Digest(None) == Success("4859204348")
      && h.Digest(Some("base64")) == Success("SFkgQ0g=")
      && h.Bytes() == [72, 89, 32, 67, 72]
      && h.Debug() == DebugFields(5, "4859204348")
  {
    ExampleHex();
    ExampleBase64();
  }

  /** The hex rendering of the demonstration buffer, two digits at a time. */
  lemma ExampleHex()
    ensures Hex.Encode([0x48, 0x59, 0x20, 0x43, 0x48]) == "4859204348"
  {
    var data: seq<byte> := [0x48, 0x59, 0x20, 0x43, 0x48];
    ExampleHexTail();
    assert Hex.ByteHex(0x48) == "48" && Hex.ByteHex(0x59) == "59";
    assert data[1..] == [0x59, 0x20, 0x43, 0x48];
    assert data[1..][1..] == [0x20, 0x43, 0x48];
    assert Hex.Encode([0x59, 0x20, 0x43, 0x48]) == "59204348";
  }

  /** The hex rendering of the last three bytes of the demonstration buffer. */
  lemma ExampleHexTail()
    ensures Hex.Encode([0x20, 0x43, 0x48]) == "204348"
  {
    var data: seq<byte> := [0x20, 0x43, 0x48];
    assert Hex.ByteHex(0x20) == "20" && Hex.ByteHex(0x43) == "43" && Hex.ByteHex(0x48) == "48";
    assert data[1..] == [0x43, 0x48];
    assert data[1..][1..] == [0x48];
    assert Hex.Encode([0x48]) == "48";
    assert Hex.Encode([0x43, 0x48]) == "4348";
  }

  /** The Base64 encoding of the demonstration buffer: one full group, then two bytes and one pad. */
  lemma ExampleBase64()
    ensures Base64.Encode([0x48, 0x59, 0x20, 0x43, 0x48]) == "SFkgQ0g="
  {
    var data: seq<byte> := [0x48, 0x59, 0x20, 0x43, 0x48];
    Base64.SextetsCons(data);
    assert data[3..] == [0x43, 0x48];
    assert Base64.GroupSextets(0x48, 0x59, 0x20) == [18, 5, 36, 32];
    assert Base64.Sextets([0x43, 0x48]) == [16, 52, 32];
    var v := Base64.Sextets(data);
    assert v == [18, 5, 36, 32, 16, 52, 32];
    assert Base64.Chars(v) == "SFkgQ0g";
    assert Base64.PadCount(5) == 1;
    assert Base64.Padding(1) == "=";
  }

  /** The empty buffer, as used for a genesis sentinel. */
  lemma EmptyBuffer()
    ensures var h := New([]);
      && h.byteLength == 0
      && h.Digest(Some("hex")) == Success("")
      && h.Digest(Some("base64")) == Success("")
      && h.Bytes() == []
  {
    Base64.EncodeLength([]);
  }
}
