/**
  Lowercase hexadecimal rendering of a byte buffer: every byte becomes the
  two characters of its zero-padded base-16 form, most significant digit
  first, and the pairs are concatenated in buffer order with no separator.
  The decoder is the exact inverse of that format: it accepts only even-length
  strings made of the characters 0-9 and a-f.
*/
module Hex {
  import opened Wrappers
  import Seqs

  predicate IsLowerHexChar(c: char) {
    ('0' <= c <= '9') || ('a' <= c <= 'f')
  }

  /** The character for one base-16 digit. */
  function DigitChar(d: nat): (c: char)
    requires d < 16
    ensures IsLowerHexChar(c)
  {
    if d < 10 then '0' + d as char else 'a' + (d - 10) as char
  }

  /** The digit a character stands for, or None outside 0-9 and a-f. */
  function DigitValue(c: char): (r: Option<nat>)
    ensures r.Some? <==> IsLowerHexChar(c)
    ensures r.Some? ==> r.value < 16 && DigitChar(r.value) == c
  {
    if '0' <= c <= '9' then Some(c as nat - '0' as nat)
    else if 'a' <= c <= 'f' then Some(c as nat - 'a' as nat + 10)
    else None
  }

  /** The two-character `{:02x}` form of one byte. */
  function ByteHex(b: byte): (r: string)
    ensures |r| == 2 && IsLowerHexChar(r[0]) && IsLowerHexChar(r[1])
    ensures DigitValue(r[0]).value * 16 + DigitValue(r[1]).value == b as nat
  {
    [DigitChar(b as nat / 16), DigitChar(b as nat % 16)]
  }

  /** Hex rendering of a whole buffer. */
  function Encode(s: seq<byte>): (r: string)
    ensures |r| == 2 * |s|
    ensures forall i :: 0 <= i < |r| ==> IsLowerHexChar(r[i])
  {
    if s == [] then "" else ByteHex(s[0]) + Encode(s[1..])
  }

  /** Characters 2i and 2i+1 of the rendering are the form of byte i. */
  lemma {:induction false} EncodeAt(s: seq<byte>, i: nat)
    requires i < |s|
    ensures Encode(s)[2 * i .. 2 * i + 2] == ByteHex(s[i])
  {
    if i > 0 {
      EncodeAt(s[1..], i - 1);
      assert Encode(s) == ByteHex(s[0]) + Encode(s[1..]);
      Seqs.SliceAfterPrefix(ByteHex(s[0]), Encode(s[1..]), 2 * i, 2 * i + 2);
    }
  }

  /** Rendering distributes over concatenation of buffers. */
  lemma {:induction false} EncodeAppend(s: seq<byte>, t: seq<byte>)
    ensures Encode(s + t) == Encode(s) + Encode(t)
  {
    if s == [] {
      assert s + t == t;
    } else {
      assert (s + t)[1..] == s[1..] + t;
      EncodeAppend(s[1..], t);
    }
  }

  /** The byte written as characters c0 c1, or None if either is not a lowercase hex digit. */
  function PairValue(c0: char, c1: char): (r: Option<byte>)
    ensures r.Some? <==> IsLowerHexChar(c0) && IsLowerHexChar(c1)
  {
    match (DigitValue(c0), DigitValue(c1))
    case (Some(hi), Some(lo)) => Some((hi * 16 + lo) as byte)
    case _ => None
  }

  /** Strict decoder: the inverse of Encode. */
  function Decode(t: string): (r: Option<seq<byte>>)
    ensures r.Some? <==> |t| % 2 == 0 && forall i :: 0 <= i < |t| ==> IsLowerHexChar(t[i])
    ensures r.Some? ==> 2 * |r.value| == |t|
    decreases |t|
  {
    if t == [] then Some([])
    else if |t| < 2 then None
    else match (PairValue(t[0], t[1]), Decode(t[2..]))
      case (Some(b), Some(rest)) => Some([b] + rest)
      case _ => None
  }

  /** Decoding the rendering of any buffer gives the buffer back. */
  lemma {:induction false} DecodeEncode(s: seq<byte>)
    ensures Decode(Encode(s)) == Some(s)
  {
    if s != [] {
      DecodeEncode(s[1..]);
      PairValueOfByteHex(s[0]);
      DecodePrepend(ByteHex(s[0]), Encode(s[1..]));
      Seqs.SplitHead(s);
    }
  }

  /** The two digits of a byte read back as that byte. */
  lemma PairValueOfByteHex(b: byte)
    ensures PairValue(ByteHex(b)[0], ByteHex(b)[1]) == Some(b)
  {
  }

  /** Decoding two digits followed by more text: their byte, then the decoding of the rest. */
  lemma DecodePrepend(h: string, u: string)
    requires |h| == 2 && PairValue(h[0], h[1]).Some?
    ensures Decode(h + u) == match Decode(u)
      case Some(rest) => Some([PairValue(h[0], h[1]).value] + rest)
      case None => None
  {
    Seqs.DropPrefix(h, u);
  }

  /** Every string the decoder accepts is the rendering of what it decodes to. */
  lemma {:induction false} EncodeDecode(t: string)
    requires Decode(t).Some?
    ensures Encode(Decode(t).value) == t
  {
    if t != [] {
      var b := PairValue(t[0], t[1]).value;
      var rest := Decode(t[2..]).value;
      EncodeDecode(t[2..]);
      var s := Decode(t).value;
      assert s == [b] + rest;
      assert s[1..] == rest;
      var hi := DigitValue(t[0]).value;
      var lo := DigitValue(t[1]).value;
      assert b as nat / 16 == hi && b as nat % 16 == lo;
      assert ByteHex(b) == t[..2];
      assert t == t[..2] + t[2..];
    }
  }

  /** Two buffers with the same rendering are equal. */
  lemma EncodeInjective(s: seq<byte>, u: seq<byte>)
    requires Encode(s) == Encode(u)
    ensures s == u
  {
    DecodeEncode(s);
    DecodeEncode(u);
  }
}
