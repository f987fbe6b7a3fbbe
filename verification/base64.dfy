/**
  Base 64 encoding with the standard alphabet and `=` padding, as defined in
  section 4 of RFC 4648. Every group of three bytes (24 bits) becomes four
  6-bit values, each written as one character of the alphabet of Table 1; a
  final group of two bytes becomes three characters and one `=`, a final
  group of one byte two characters and `==`.

  The model keeps the two steps of the standard apart: bytes to 6-bit values
  (Sextets / FromSextets), and 6-bit values to characters plus padding
  (Encode / Decode). The decoder is the strict inverse of the encoder: it
  accepts exactly the strings the encoder can produce (length a multiple of
  four, at most two `=` and only at the end, and the unused low bits of the
  last value before the padding equal to zero).
*/
module Base64 {
  import opened Wrappers
  import Seqs

  const Pad: char := '='

  /** Membership in the 64-character alphabet of Table 1 of RFC 4648. */
  predicate IsBase64Char(c: char) {
    ('A' <= c <= 'Z') || ('a' <= c <= 'z') || ('0' <= c <= '9') || c == '+' || c == '/'
  }

  /** The character for a 6-bit value, per Table 1 of RFC 4648. */
  function SextetChar(v: nat): (c: char)
    requires v < 64
    ensures IsBase64Char(c)
  {
    if v < 26 then 'A' + v as char
    else if v < 52 then 'a' + (v - 26) as char
    else if v < 62 then '0' + (v - 52) as char
    else if v == 62 then '+'
    else '/'
  }

  /** The 6-bit value an alphabet character stands for: the inverse of SextetChar. */
  function SextetIndex(c: char): (v: nat)
    requires IsBase64Char(c)
    ensures v < 64 && SextetChar(v) == c
  {
    if 'A' <= c <= 'Z' then c as nat - 'A' as nat
    else if 'a' <= c <= 'z' then c as nat - 'a' as nat + 26
    else if '0' <= c <= '9' then c as nat - '0' as nat + 52
    else if c == '+' then 62
    else 63
  }

  lemma SextetIndexOfChar(v: nat)
    requires v < 64
    ensures SextetIndex(SextetChar(v)) == v
  {
  }

  predicate AllSextets(v: seq<nat>) {
    forall i :: 0 <= i < |v| ==> v[i] < 64
  }

  /** Number of 6-bit values that n bytes occupy: 4 per full group, then 2 or 3 for a final group of 1 or 2 bytes. */
  function SextetCount(n: nat): nat {
    4 * (n / 3) + (if n % 3 == 0 then 0 else n % 3 + 1)
  }

  /** Number of `=` characters that close the encoding of n bytes. */
  function PadCount(n: nat): nat {
    (3 - n % 3) % 3
  }

  // ---------------------------------------------------------------------------
  // Bytes to 6-bit values and back

  /** The 6-bit values of a buffer, most significant bits first, the last one zero-filled on the right. */
  function Sextets(s: seq<byte>): (v: seq<nat>)
    ensures |v| == SextetCount(|s|) && AllSextets(v)
    decreases |s|
  {
    if |s| == 0 then []
    else if |s| == 1 then [s[0] as nat / 4, s[0] as nat % 4 * 16]
    else if |s| == 2 then [s[0] as nat / 4, s[0] as nat % 4 * 16 + s[1] as nat / 16, s[1] as nat % 16 * 4]
    else GroupSextets(s[0], s[1], s[2]) + Sextets(s[3..])
  }

  /** The four 6-bit values of a group of three bytes, most significant bits first. */
  function GroupSextets(b0: byte, b1: byte, b2: byte): (g: seq<nat>)
    ensures |g| == 4 && AllSextets(g)
  {
    [b0 as nat / 4, b0 as nat % 4 * 16 + b1 as nat / 16, b1 as nat % 16 * 4 + b2 as nat / 64, b2 as nat % 64]
  }

  /** The three bytes a full group of four 6-bit values stands for. */
  function GroupBytes(c0: nat, c1: nat, c2: nat, c3: nat): (b: seq<byte>)
    requires c0 < 64 && c1 < 64 && c2 < 64 && c3 < 64
    ensures |b| == 3
  {
    [(c0 * 4 + c1 / 16) as byte, (c1 % 16 * 16 + c2 / 4) as byte, (c2 % 4 * 64 + c3) as byte]
  }

  /**
    The bytes a sequence of 6-bit values stands for, or None when the count
    of values leaves a group of one, or when the bits a final partial group
    leaves over are not zero.
  */
  function FromSextets(v: seq<nat>): (r: Option<seq<byte>>)
    requires AllSextets(v)
    decreases |v|
  {
    if |v| == 0 then Some([])
    else if |v| == 1 then None
    else if |v| == 2 then
      if v[1] % 16 == 0 then Some([(v[0] * 4 + v[1] / 16) as byte]) else None
    else if |v| == 3 then
      if v[2] % 4 == 0 then Some([(v[0] * 4 + v[1] / 16) as byte, (v[1] % 16 * 16 + v[2] / 4) as byte]) else None
    else
      match FromSextets(v[4..])
      case None => None
      case Some(rest) => Some(GroupBytes(v[0], v[1], v[2], v[3]) + rest)
  }

  // Splitting bytes into 6-bit values and joining them back are inverse.

  lemma JoinFirst(b0: byte, x: nat)
    requires x < 16
    ensures (b0 as nat / 4) * 4 + (b0 as nat % 4 * 16 + x) / 16 == b0 as nat
  {
  }

  lemma JoinSecond(b0: byte, b1: byte, y: nat)
    requires y < 4
    ensures (b0 as nat % 4 * 16 + b1 as nat / 16) % 16 * 16 + (b1 as nat % 16 * 4 + y) / 4 == b1 as nat
  {
  }

  lemma JoinThird(b1: byte, b2: byte)
    ensures (b1 as nat % 16 * 4 + b2 as nat / 64) % 4 * 64 + b2 as nat % 64 == b2 as nat
  {
  }

  lemma SplitFirst(c0: nat, c1: nat)
    requires c0 < 64 && c1 < 64
    ensures (c0 * 4 + c1 / 16) / 4 == c0
    ensures (c0 * 4 + c1 / 16) % 4 == c1 / 16
  {
  }

  lemma SplitSecond(c1: nat, c2: nat)
    requires c1 < 64 && c2 < 64
    ensures (c1 % 16 * 16 + c2 / 4) / 16 == c1 % 16
    ensures (c1 % 16 * 16 + c2 / 4) % 16 == c2 / 4
  {
  }

  lemma SplitThird(c2: nat, c3: nat)
    requires c2 < 64 && c3 < 64
    ensures (c2 % 4 * 64 + c3) / 64 == c2 % 4
    ensures (c2 % 4 * 64 + c3) % 64 == c3
  {
  }

  /** A group of three bytes split into four values joins back to those bytes. */
  lemma GroupBytesOfSextets(b0: byte, b1: byte, b2: byte)
    ensures var g := GroupSextets(b0, b1, b2);
      GroupBytes(g[0], g[1], g[2], g[3]) == [b0, b1, b2]
  {
    JoinFirst(b0, b1 as nat / 16);
    JoinSecond(b0, b1, b2 as nat / 64);
    JoinThird(b1, b2);
  }

  /** Four values joined into three bytes split back into those values. */
  lemma SextetsOfGroupBytes(c0: nat, c1: nat, c2: nat, c3: nat)
    requires c0 < 64 && c1 < 64 && c2 < 64 && c3 < 64
    ensures var b := GroupBytes(c0, c1, c2, c3);
      GroupSextets(b[0], b[1], b[2]) == [c0, c1, c2, c3]
  {
    var b := GroupBytes(c0, c1, c2, c3);
    assert b[0] as nat == c0 * 4 + c1 / 16 && b[1] as nat == c1 % 16 * 16 + c2 / 4 && b[2] as nat == c2 % 4 * 64 + c3;
    SplitFirst(c0, c1);
    SplitSecond(c1, c2);
    SplitThird(c2, c3);
    assert b[0] as nat % 4 * 16 + b[1] as nat / 16 == c1 by {
      assert c1 == c1 / 16 * 16 + c1 % 16;
    }
    assert b[1] as nat % 16 * 4 + b[2] as nat / 64 == c2 by {
      assert c2 == c2 / 4 * 4 + c2 % 4;
    }
  }

  /** A buffer of three bytes or more splits into the values of its first group, then those of the rest. */
  lemma SextetsCons(s: seq<byte>)
    requires |s| >= 3
    ensures Sextets(s) == GroupSextets(s[0], s[1], s[2]) + Sextets(s[3..])
  {
  }

  /** The same, for a buffer written as three bytes followed by the rest. */
  lemma SextetsPrepend(b0: byte, b1: byte, b2: byte, rest: seq<byte>)
    ensures Sextets([b0, b1, b2] + rest) == GroupSextets(b0, b1, b2) + Sextets(rest)
  {
    Seqs.DropPrefix([b0, b1, b2], rest);
    SextetsCons([b0, b1, b2] + rest);
  }

  /** Joining a full group of four values followed by further values. */
  lemma FromSextetsCons(c0: nat, c1: nat, c2: nat, c3: nat, w: seq<nat>, rest: seq<byte>)
    requires c0 < 64 && c1 < 64 && c2 < 64 && c3 < 64
    requires AllSextets(w) && FromSextets(w) == Some(rest)
    ensures AllSextets([c0, c1, c2, c3] + w)
    ensures FromSextets([c0, c1, c2, c3] + w) == Some(GroupBytes(c0, c1, c2, c3) + rest)
  {
    Seqs.DropPrefix([c0, c1, c2, c3], w);
  }

  /** Joining the 6-bit values of a buffer gives the buffer back. */
  lemma {:induction false} FromSextetsOfSextets(s: seq<byte>)
    ensures FromSextets(Sextets(s)) == Some(s)
    decreases |s|
  {
    if |s| == 1 {
      JoinFirst(s[0], 0);
      Seqs.SingletonSeq(s);
    } else if |s| == 2 {
      JoinFirst(s[0], s[1] as nat / 16);
      JoinSecond(s[0], s[1], 0);
      Seqs.PairSeq(s);
    } else if |s| >= 3 {
      FromSextetsOfSextets(s[3..]);
      FromSextetsOfGroup(s);
    }
  }

  /** One step of the round trip: a full group in front of a buffer whose values already join back. */
  lemma FromSextetsOfGroup(s: seq<byte>)
    requires |s| >= 3 && FromSextets(Sextets(s[3..])) == Some(s[3..])
    ensures FromSextets(Sextets(s)) == Some(s)
  {
    var g := GroupSextets(s[0], s[1], s[2]);
    SextetsCons(s);
    Seqs.FourSeq(g);
    FromSextetsCons(g[0], g[1], g[2], g[3], Sextets(s[3..]), s[3..]);
    GroupBytesOfSextets(s[0], s[1], s[2]);
    Seqs.SplitGroup(s);
  }

  /** Every sequence of 6-bit values the joiner accepts is the split of what it joins to. */
  lemma {:induction false} SextetsOfFromSextets(v: seq<nat>)
    requires AllSextets(v) && FromSextets(v).Some?
    ensures Sextets(FromSextets(v).value) == v
    decreases |v|, 1
  {
    if |v| == 2 {
      SplitFirst(v[0], v[1]);
      assert v[1] == v[1] / 16 * 16;
    } else if |v| == 3 {
      SplitFirst(v[0], v[1]);
      SplitSecond(v[1], v[2]);
      assert v[1] == v[1] / 16 * 16 + v[1] % 16;
      assert v[2] == v[2] / 4 * 4;
    } else if |v| >= 4 {
      SextetsOfFromSextetsGroup(v);
    }
  }

  /** One step of the inverse round trip: a full group of values in front of values that join. */
  lemma {:induction false} SextetsOfFromSextetsGroup(v: seq<nat>)
    requires |v| >= 4 && AllSextets(v) && FromSextets(v).Some?
    ensures Sextets(FromSextets(v).value) == v
    decreases |v|, 0
  {
    var w := v[4..];
    Seqs.SplitFour(v);
    var rest := FromSextets(w).value;
    SextetsOfFromSextets(w);
    FromSextetsCons(v[0], v[1], v[2], v[3], w, rest);
    var b := GroupBytes(v[0], v[1], v[2], v[3]);
    Seqs.ThreeSeq(b);
    SextetsPrepend(b[0], b[1], b[2], rest);
    SextetsOfGroupBytes(v[0], v[1], v[2], v[3]);
  }

  /** The 24 bits of a group of three bytes are its four values read as base-64 digits. */
  lemma GroupLayout(b0: byte, b1: byte, b2: byte)
    ensures var g := GroupSextets(b0, b1, b2);
      g[0] * 262144 + g[1] * 4096 + g[2] * 64 + g[3] == b0 as nat * 65536 + b1 as nat * 256 + b2 as nat
  {
  }

  /**
    The bit layout of section 4 of RFC 4648: a group of three bytes, read as
    one 24-bit number, is the four 6-bit values read as base-64 digits, most
    significant first; a final group of one or two bytes is zero-filled on
    the right to a whole number of 6-bit values.
  */
  lemma SextetsLayout(s: seq<byte>)
    ensures var v := Sextets(s);
      && (|s| >= 3 ==>
            v[0] * 262144 + v[1] * 4096 + v[2] * 64 + v[3] == s[0] as nat * 65536 + s[1] as nat * 256 + s[2] as nat
            && v[4..] == Sextets(s[3..]))
      && (|s| == 2 ==> v[0] * 4096 + v[1] * 64 + v[2] == (s[0] as nat * 256 + s[1] as nat) * 4)
      && (|s| == 1 ==> v[0] * 64 + v[1] == s[0] as nat * 16)
  {
    if |s| >= 3 {
      SextetsCons(s);
      GroupLayout(s[0], s[1], s[2]);
      Seqs.DropPrefix(GroupSextets(s[0], s[1], s[2]), Sextets(s[3..]));
    }
  }

  /** Dropping k whole groups of bytes drops 4 * k values. */
  lemma {:induction false} SextetsDrop(s: seq<byte>, k: nat)
    requires 3 * k <= |s|
    ensures 4 * k <= |Sextets(s)| && Sextets(s)[4 * k..] == Sextets(s[3 * k..])
    decreases k
  {
    if k > 0 {
      SextetsLayout(s);
      SextetsDrop(s[3..], k - 1);
      Seqs.DropTwice(s, 3, 3 * (k - 1));
      Seqs.DropTwice(Sextets(s), 4, 4 * (k - 1));
    }
  }

  // ---------------------------------------------------------------------------
  // 6-bit values to characters and back

  /** Each 6-bit value written as its alphabet character. */
  function Chars(v: seq<nat>): (t: string)
    requires AllSextets(v)
    ensures |t| == |v|
    ensures forall i :: 0 <= i < |t| ==> IsBase64Char(t[i]) && t[i] == SextetChar(v[i])
  {
    seq(|v|, i requires 0 <= i < |v| => SextetChar(v[i]))
  }

  /** Each alphabet character read back as its 6-bit value. */
  function Indices(t: string): (v: seq<nat>)
    requires forall i :: 0 <= i < |t| ==> IsBase64Char(t[i])
    ensures |v| == |t| && AllSextets(v)
    ensures forall i :: 0 <= i < |v| ==> v[i] == SextetIndex(t[i])
  {
    seq(|t|, i requires 0 <= i < |t| => SextetIndex(t[i]))
  }

  function Padding(k: nat): (p: string)
    ensures |p| == k && forall i :: 0 <= i < k ==> p[i] == Pad
  {
    seq(k, _ => Pad)
  }

  /**
    The standard Base64 encoding of a buffer: 4 * ceil(n / 3) characters,
    alphabet characters followed by the `=` padding that fills the last group.
  */
  function Encode(s: seq<byte>): (r: string)
    ensures |r| == 4 * ((|s| + 2) / 3)
    ensures forall i :: 0 <= i < |r| - PadCount(|s|) ==> IsBase64Char(r[i])
    ensures forall i :: |r| - PadCount(|s|) <= i < |r| ==> r[i] == Pad
  {
    CountsFillGroups(|s|);
    Chars(Sextets(s)) + Padding(PadCount(|s|))
  }

  /** The text before the final `=` characters (at most two of them are removed). */
  function StripPadding(t: string): (b: string)
    ensures |b| <= |t| <= |b| + 2 && b == t[..|b|]
    ensures forall i :: |b| <= i < |t| ==> t[i] == Pad
  {
    if |t| >= 2 && t[|t| - 1] == Pad && t[|t| - 2] == Pad then t[..|t| - 2]
    else if |t| >= 1 && t[|t| - 1] == Pad then t[..|t| - 1]
    else t
  }

  /** Strict standard Base64 decoder: the inverse of Encode. */
  function Decode(t: string): (r: Option<seq<byte>>)
  {
    if |t| % 4 != 0 then None
    else
      var body := StripPadding(t);
      if forall i :: 0 <= i < |body| ==> IsBase64Char(body[i]) then FromSextets(Indices(body))
      else None
  }

  // ---------------------------------------------------------------------------
  // Properties

  /** Value count plus padding fills whole groups of four. */
  lemma CountsFillGroups(n: nat)
    ensures SextetCount(n) + PadCount(n) == 4 * ((n + 2) / 3)
    ensures (SextetCount(n) + PadCount(n)) % 4 == 0
    ensures PadCount(n) <= 2
  {
    var q := n / 3;
    if n % 3 == 0 {
      assert (n + 2) / 3 == q;
      assert SextetCount(n) + PadCount(n) == 4 * q;
    } else {
      assert (n + 2) / 3 == q + 1;
      assert SextetCount(n) + PadCount(n) == 4 * (q + 1);
    }
  }

  /** The padding is the only amount of at most two that completes the last group. */
  lemma PadCountDetermined(n: nat, k: nat)
    requires k <= 2 && (SextetCount(n) + k) % 4 == 0
    ensures k == PadCount(n)
  {
  }

  /** The encoding of n bytes is 4 * ceil(n / 3) characters long. */
  lemma EncodeLength(s: seq<byte>)
    ensures |Encode(s)| == 4 * ((|s| + 2) / 3)
    ensures |Encode(s)| % 4 == 0
  {
    CountsFillGroups(|s|);
  }

  /**
    The encoding is made of alphabet characters followed by the padding
    RFC 4648 prescribes: none when the length is a multiple of three, `==`
    when one byte is left over, `=` when two are.
  */
  lemma EncodeAlphabet(s: seq<byte>)
    ensures var r := Encode(s);
      && (forall i :: 0 <= i < |r| - PadCount(|s|) ==> IsBase64Char(r[i]))
      && (forall i :: |r| - PadCount(|s|) <= i < |r| ==> r[i] == Pad)
      && (|s| % 3 == 0 <==> PadCount(|s|) == 0)
      && (|s| % 3 == 1 <==> PadCount(|s|) == 2)
      && (|s| % 3 == 2 <==> PadCount(|s|) == 1)
  {
  }

  lemma IndicesOfChars(v: seq<nat>)
    requires AllSextets(v)
    ensures Indices(Chars(v)) == v
  {
    var t := Chars(v);
    forall i | 0 <= i < |v| ensures Indices(t)[i] == v[i] {
      SextetIndexOfChar(v[i]);
    }
  }

  /** Removing the padding of an encoding leaves the characters of the 6-bit values. */
  lemma StripEncoded(s: seq<byte>)
    ensures StripPadding(Encode(s)) == Chars(Sextets(s))
  {
    CountsFillGroups(|s|);
    StripPadded(Chars(Sextets(s)), PadCount(|s|));
  }

  /** Removing the padding from alphabet characters followed by at most two pads gives the characters back. */
  lemma StripPadded(body: string, k: nat)
    requires k <= 2 && forall i :: 0 <= i < |body| ==> IsBase64Char(body[i])
    ensures StripPadding(body + Padding(k)) == body
  {
    var t := body + Padding(k);
    assert t[..|body|] == body;
    assert !IsBase64Char(Pad);
    assert |body| > 0 ==> t[|body| - 1] == body[|body| - 1] != Pad;
    if k == 0 {
      assert t == body;
    } else if k == 1 {
      assert t[|t| - 1] == Pad;
    } else {
      assert t[|t| - 1] == Pad && t[|t| - 2] == Pad;
    }
  }

  /** A string is what StripPadding keeps, followed by as many pads as it removes. */
  lemma StripPaddingSplit(t: string)
    ensures t == StripPadding(t) + Padding(|t| - |StripPadding(t)|)
  {
  }

  /** Alphabet characters read as values and written back are unchanged. */
  lemma CharsOfIndices(t: string)
    requires forall i :: 0 <= i < |t| ==> IsBase64Char(t[i])
    ensures Chars(Indices(t)) == t
  {
  }

  /** A string of whole groups whose unpadded part spells values that join to s decodes to s. */
  lemma DecodeOfChars(t: string, v: seq<nat>, s: seq<byte>)
    requires AllSextets(v) && |t| % 4 == 0 && StripPadding(t) == Chars(v) && FromSextets(v) == Some(s)
    ensures Decode(t) == Some(s)
  {
    IndicesOfChars(v);
  }

  /** Decoding the encoding of any buffer gives the buffer back. */
  lemma DecodeEncode(s: seq<byte>)
    ensures Decode(Encode(s)) == Some(s)
  {
    EncodeLength(s);
    StripEncoded(s);
    FromSextetsOfSextets(s);
    DecodeOfChars(Encode(s), Sextets(s), s);
  }

  /** Every string the decoder accepts is the encoding of what it decodes to. */
  lemma EncodeDecode(t: string)
    requires Decode(t).Some?
    ensures Encode(Decode(t).value) == t
  {
    var body := StripPadding(t);
    var v := Indices(body);
    var s := Decode(t).value;
    assert FromSextets(v) == Some(s);
    SextetsOfFromSextets(v);
    CharsOfIndices(body);
    StripPaddingSplit(t);
    PadCountDetermined(|s|, |t| - |body|);
  }

  /** Four alphabet characters whose 6-bit values, as base-64 digits, give the 24-bit number of three bytes. */
  predicate EncodesTriple(q: string, b0: byte, b1: byte, b2: byte) {
    && |q| == 4
    && IsBase64Char(q[0]) && IsBase64Char(q[1]) && IsBase64Char(q[2]) && IsBase64Char(q[3])
    && SextetIndex(q[0]) * 262144 + SextetIndex(q[1]) * 4096 + SextetIndex(q[2]) * 64 + SextetIndex(q[3])
       == b0 as nat * 65536 + b1 as nat * 256 + b2 as nat
  }

  /** Three alphabet characters holding the 16 bits of two bytes followed by two zero bits, then one pad. */
  predicate EncodesPair(q: string, b0: byte, b1: byte) {
    && |q| == 4
    && IsBase64Char(q[0]) && IsBase64Char(q[1]) && IsBase64Char(q[2]) && q[3] == Pad
    && SextetIndex(q[0]) * 4096 + SextetIndex(q[1]) * 64 + SextetIndex(q[2]) == (b0 as nat * 256 + b1 as nat) * 4
  }

  /** Two alphabet characters holding the 8 bits of one byte followed by four zero bits, then two pads. */
  predicate EncodesSingle(q: string, b0: byte) {
    && |q| == 4
    && IsBase64Char(q[0]) && IsBase64Char(q[1]) && q[2] == Pad && q[3] == Pad
    && SextetIndex(q[0]) * 64 + SextetIndex(q[1]) == b0 as nat * 16
  }

  /** Characters 4k to 4k+3 of the encoding encode bytes 3k to 3k+2. */
  lemma EncodeTripleAt(s: seq<byte>, k: nat)
    requires 3 * k + 3 <= |s|
    ensures 4 * k + 4 <= |Encode(s)|
    ensures EncodesTriple(Encode(s)[4 * k .. 4 * k + 4], s[3 * k], s[3 * k + 1], s[3 * k + 2])
  {
    var t, v, w := Encode(s), Sextets(s), Sextets(s[3 * k..]);
    SextetsDrop(s, k);
    SextetsLayout(s[3 * k..]);
    GroupChars(s, 4 * k, 4);
    assert v[4 * k] == w[0] && v[4 * k + 1] == w[1] && v[4 * k + 2] == w[2] && v[4 * k + 3] == w[3];
    assert s[3 * k..][0] == s[3 * k] && s[3 * k..][1] == s[3 * k + 1] && s[3 * k..][2] == s[3 * k + 2];
    var q := t[4 * k .. 4 * k + 4];
    assert q[0] == t[4 * k] && q[1] == t[4 * k + 1] && q[2] == t[4 * k + 2] && q[3] == t[4 * k + 3];
  }

  /** With two bytes left over, the last three values hold their 16 bits followed by two zero bits. */
  lemma SextetsTailPair(s: seq<byte>)
    requires |s| % 3 == 2
    ensures var v, m := Sextets(s), |s| / 3;
      && |v| == 4 * m + 3
      && v[4 * m] * 4096 + v[4 * m + 1] * 64 + v[4 * m + 2] == (s[|s| - 2] as nat * 256 + s[|s| - 1] as nat) * 4
  {
    var m := |s| / 3;
    var w := Sextets(s[3 * m..]);
    SextetsDrop(s, m);
    SextetsLayout(s[3 * m..]);
    assert Sextets(s)[4 * m] == w[0] && Sextets(s)[4 * m + 1] == w[1] && Sextets(s)[4 * m + 2] == w[2];
    assert s[3 * m..][0] == s[|s| - 2] && s[3 * m..][1] == s[|s| - 1];
  }

  /** With one byte left over, the last two values hold its 8 bits followed by four zero bits. */
  lemma SextetsTailSingle(s: seq<byte>)
    requires |s| % 3 == 1
    ensures var v, m := Sextets(s), |s| / 3;
      && |v| == 4 * m + 2
      && v[4 * m] * 64 + v[4 * m + 1] == s[|s| - 1] as nat * 16
  {
    var m := |s| / 3;
    var w := Sextets(s[3 * m..]);
    SextetsDrop(s, m);
    SextetsLayout(s[3 * m..]);
    assert Sextets(s)[4 * m] == w[0] && Sextets(s)[4 * m + 1] == w[1];
    assert s[3 * m..][0] == s[|s| - 1];
  }

  /** With two bytes left over, the last four characters encode them and one pad. */
  lemma EncodeTailPair(s: seq<byte>)
    requires |s| % 3 == 2
    ensures |Encode(s)| >= 4 && EncodesPair(Encode(s)[|Encode(s)| - 4..], s[|s| - 2], s[|s| - 1])
  {
    var t, m := Encode(s), |s| / 3;
    SextetsTailPair(s);
    assert |t| == 4 * m + 4 && PadCount(|s|) == 1 by { CountsFillGroups(|s|); }
    GroupChars(s, 4 * m, 3);
    var q := t[4 * m..];
    assert q[0] == t[4 * m] && q[1] == t[4 * m + 1] && q[2] == t[4 * m + 2];
    var v := Sextets(s);
    assert SextetIndex(q[0]) == v[4 * m] && SextetIndex(q[1]) == v[4 * m + 1] && SextetIndex(q[2]) == v[4 * m + 2];
    assert q[3] == t[|t| - 1] == Pad;
  }

  /** With one byte left over, the last four characters encode it and two pads. */
  lemma EncodeTailSingle(s: seq<byte>)
    requires |s| % 3 == 1
    ensures |Encode(s)| >= 4 && EncodesSingle(Encode(s)[|Encode(s)| - 4..], s[|s| - 1])
  {
    var t, m := Encode(s), |s| / 3;
    SextetsTailSingle(s);
    assert |t| == 4 * m + 4 && PadCount(|s|) == 2 by { CountsFillGroups(|s|); }
    GroupChars(s, 4 * m, 2);
    var q := t[4 * m..];
    assert q[0] == t[4 * m] && q[1] == t[4 * m + 1];
    assert q[2] == t[|t| - 2] == Pad && q[3] == t[|t| - 1] == Pad;
  }

  /**
    Group by group, the encoding is what section 4 of RFC 4648 prescribes:
    characters 4k to 4k+3 encode bytes 3k to 3k+2, and the last four
    characters encode a final group of one or two bytes with its padding.
  */
  lemma EncodeGroups(s: seq<byte>)
    ensures forall k :: 0 <= k && 3 * k + 3 <= |s| ==>
      4 * k + 4 <= |Encode(s)| && EncodesTriple(Encode(s)[4 * k .. 4 * k + 4], s[3 * k], s[3 * k + 1], s[3 * k + 2])
    ensures |s| % 3 != 0 ==> |Encode(s)| >= 4
    ensures |s| % 3 == 2 ==> EncodesPair(Encode(s)[|Encode(s)| - 4..], s[|s| - 2], s[|s| - 1])
    ensures |s| % 3 == 1 ==> EncodesSingle(Encode(s)[|Encode(s)| - 4..], s[|s| - 1])
  {
    forall k | 0 <= k && 3 * k + 3 <= |s|
      ensures 4 * k + 4 <= |Encode(s)| && EncodesTriple(Encode(s)[4 * k .. 4 * k + 4], s[3 * k], s[3 * k + 1], s[3 * k + 2])
    {
      EncodeTripleAt(s, k);
    }
    if |s| % 3 == 2 {
      EncodeTailPair(s);
    } else if |s| % 3 == 1 {
      EncodeTailSingle(s);
    }
  }

  /** The characters at positions i to i+n-1 of the encoding stand for the values at the same positions. */
  lemma GroupChars(s: seq<byte>, i: nat, n: nat)
    requires i + n <= |Sextets(s)|
    ensures forall j :: i <= j < i + n ==>
      IsBase64Char(Encode(s)[j]) && SextetIndex(Encode(s)[j]) == Sextets(s)[j]
  {
    forall j | i <= j < i + n
      ensures IsBase64Char(Encode(s)[j]) && SextetIndex(Encode(s)[j]) == Sextets(s)[j]
    {
      SextetIndexOfChar(Sextets(s)[j]);
    }
  }

  /** Two buffers with the same encoding are equal. */
  lemma EncodeInjective(s: seq<byte>, u: seq<byte>)
    requires Encode(s) == Encode(u)
    ensures s == u
  {
    DecodeEncode(s);
    DecodeEncode(u);
  }
}
