# Hash entity of the hy-chain ledger, in Dafny

This project models `IHashEntity`, the hash value type of the hy-chain ledger
server. A hash entity owns a byte buffer produced elsewhere (by a digest or a
signature step) and caches the buffer length in `byte_length` when it is
built. It offers only read views of the buffer:

- the digest: lowercase two-digit hex per byte, the default, or standard
  Base64 with padding (section 4 of RFC 4648); any other encoding name is a
  fatal misuse;
- the bytes widened to integers;
- a copy of the buffer;
- a debug view showing the cached length and the hex digest.

The entity is a Dafny datatype (`Hash.HashEntity`). Each view is a function
on that value, so no view can change the buffer or the cached length. The
panic on an unsupported encoding becomes a `Failure(UnsupportedEncoding(name))`
result.

To state what the two digests mean, the model defines the digest formats
independently:

- `Hex.Encode` and `Base64.Encode` are the encoders.
- `Hex.Decode` and `Base64.Decode` are strict decoders that accept exactly
  the strings the encoders produce.
- Round-trips are proved in both directions, so each encoding is a bijection
  between buffers and well-formed digest strings.

The Base64 model keeps the two steps of the standard apart. First, bytes
become 6-bit values (`Sextets`, `FromSextets`). Then those values become
alphabet characters followed by `=` padding (`Encode`, `Decode`).

The block and transaction types that embed hash entities are declared as
plain datatypes in `Block`; the source gives them no operations.

Files:

- `wrappers.dfy`: `Option`, `Result` and the `byte` type (0..255, Rust `u8`)
- `seqs.dfy`: general facts about splitting and joining sequences, used by the codec proofs
- `hex.dfy`: the hex rendering and its decoder
- `base64.dfy`: RFC 4648 section 4 Base64 and its decoder
- `hash.dfy`: the hash entity, its views and their properties
- `block.dfy`: the chain data model

## Model

| member | source | states |
|---|---|---|
| `Hash.New` | server/src/types/hash.rs:13-16 | building from any buffer, the empty one included, gives a valid entity whose cached length is the buffer length and whose buffer is the given bytes |
| `Hash.HashEntity.Valid` | server/src/types/hash.rs:13-16 | the cached byte_length equals the buffer length: the relation `new` establishes |
| `Hash.HashEntity.Digest` | server/src/types/hash.rs:18-29 | a digest is produced exactly when the encoding is absent, "hex" or "base64"; every other name fails with that name |
| `Hash.DigestDefaultIsHex` | server/src/types/hash.rs:20 | no encoding and "hex" give the same, successful digest |
| `Hash.DigestHex` | server/src/types/hash.rs:20-24 | for every entity the hex digest has two characters per buffer byte (2 * byte_length when the cached length is intact), only 0-9a-f characters, characters 2i and 2i+1 the `{:02x}` form of byte i, and decodes back to the buffer |
| `Hash.DigestBase64` | server/src/types/hash.rs:26 | for every entity the Base64 digest has length 4 * ceil(n / 3), alphabet characters followed by exactly the RFC 4648 padding; characters 4k to 4k+3 spell the 24-bit value of bytes 3k to 3k+2 and the last four a final group of one or two bytes zero-filled on the right; it decodes back to the buffer |
| `Hash.DigestUnsupported` | server/src/types/hash.rs:27 | any encoding name other than "hex" and "base64" yields a failure, never a string |
| `Hash.DigestDeterminesBuffer` | server/src/types/hash.rs:18-28 | for a supported encoding, two entities have equal digests if and only if their buffers are equal |
| `Hash.HashEntity.Bytes` | server/src/types/hash.rs:31-33 | one integer per byte, in buffer order, each equal to the byte's value and below 256 |
| `Hash.HashEntity.Buffer` | server/src/types/hash.rs:35-37 | the copy holds the stored bytes in the stored order |
| `Hash.BytesMatchBuffer` | server/src/types/hash.rs:31-37 | the integer view and the buffer copy both have byte_length elements and agree position by position |
| `Hash.NewOfBuffer` | server/src/types/hash.rs:13-16 | rebuilding from a valid entity's buffer copy gives the same entity, so the copy loses nothing |
| `Hash.HashEntity.Debug` | server/src/types/hash.rs:40-46 | the debug view holds the byte_length field and the hex digest |
| `Hash.DebugShowsHex` | server/src/types/hash.rs:43-44 | the debug digest has two characters per cached byte and decodes to the buffer |
| `Hash.ExampleBuffer` | server/src/main.rs:7-8 | bytes 48 59 20 43 48 give byte_length 5, hex "4859204348", Base64 "SFkgQ0g=", integers [72, 89, 32, 67, 72] and debug fields (5, "4859204348") |
| `Hash.EmptyBuffer` | server/src/types/hash.rs:13-15 | the empty buffer gives byte_length 0, empty hex and Base64 digests and no integers |
| `Hex.ByteHex` | server/src/types/hash.rs:23 | one byte becomes two lowercase hex digits whose values, high digit times 16 plus low digit, give the byte |
| `Hex.Encode` | server/src/types/hash.rs:20-24 | the rendering has two characters per byte, all in 0-9a-f |
| `Hex.EncodeAt` | server/src/types/hash.rs:22-24 | characters 2i and 2i+1 of the rendering are the two-digit form of byte i, so bytes are rendered in buffer order |
| `Hex.EncodeAppend` | server/src/types/hash.rs:22-24 | the rendering of a concatenation is the concatenation of the renderings, with no separator |
| `Hex.DecodeEncode` | server/src/types/hash.rs:20-24 | reading the rendering back two characters at a time gives the buffer |
| `Hex.Decode` | server/src/types/hash.rs:20-24 | the decoder accepts exactly the even-length strings of 0-9a-f, and gives one byte per two characters |
| `Hex.EncodeDecode` | server/src/types/hash.rs:20-24 | every string the decoder accepts, so every even-length string of 0-9a-f, is the rendering of what it decodes to |
| `Hex.EncodeInjective` | server/src/types/hash.rs:20-24 | different buffers have different renderings |
| `Base64.SextetIndex` | server/src/types/hash.rs:26 | each alphabet character has exactly one 6-bit value, the one the RFC 4648 table gives it |
| `Base64.Sextets` | server/src/types/hash.rs:26 | n bytes give 4 values per full group of three, plus 2 or 3 for a final group of 1 or 2 bytes, each below 64 |
| `Base64.SextetsLayout` | server/src/types/hash.rs:26 | the four values of a full group, read as base-64 digits, equal the 24-bit number of its three bytes; a final group of two bytes gives 16 bits then two zero bits, of one byte 8 bits then four zero bits |
| `Base64.GroupLayout` | server/src/types/hash.rs:26 | the four values of a group of three bytes, read as base-64 digits, are the 24-bit number of those bytes |
| `Base64.GroupBytesOfSextets` | server/src/types/hash.rs:26 | a group of three bytes split into four values joins back to the same three bytes |
| `Base64.SextetsOfGroupBytes` | server/src/types/hash.rs:26 | any four 6-bit values joined into three bytes split back into the same four values |
| `Base64.SextetsTailPair` | server/src/types/hash.rs:26 | with two bytes left over, the last three values hold their 16 bits followed by two zero bits |
| `Base64.SextetsTailSingle` | server/src/types/hash.rs:26 | with one byte left over, the last two values hold its 8 bits followed by four zero bits |
| `Base64.SextetsDrop` | server/src/types/hash.rs:26 | the values after the first k groups are the values of the bytes after the first 3k, so each group is split on its own |
| `Base64.EncodeTripleAt` | server/src/types/hash.rs:26 | characters 4k to 4k+3 of the encoding are alphabet characters whose values spell the 24-bit number of bytes 3k to 3k+2 |
| `Base64.EncodeTailPair` | server/src/types/hash.rs:26 | with two bytes left over, the last four characters are three alphabet characters holding their 16 bits and two zero bits, then `=` |
| `Base64.EncodeTailSingle` | server/src/types/hash.rs:26 | with one byte left over, the last four characters are two alphabet characters holding its 8 bits and four zero bits, then `==` |
| `Base64.EncodeGroups` | server/src/types/hash.rs:26 | the whole encoding, group by group, is as section 4 of RFC 4648 prescribes: every full group and the final partial group with its padding |
| `Base64.FromSextetsOfSextets` | server/src/types/hash.rs:26 | joining the 6-bit values of a buffer gives the buffer back |
| `Base64.SextetsOfFromSextets` | server/src/types/hash.rs:26 | any 6-bit values that join successfully are the split of the bytes they join to |
| `Base64.Encode` | server/src/types/hash.rs:26 | the encoding of n bytes has 4 * ceil(n / 3) characters: alphabet characters, then exactly the `=` padding that fills the last group of four |
| `Base64.EncodeLength` | server/src/types/hash.rs:26 | the encoding of n bytes has 4 * ceil(n / 3) characters |
| `Base64.EncodeAlphabet` | server/src/types/hash.rs:26 | the encoding is alphabet characters followed by no padding, `==` or `=` for n mod 3 equal to 0, 1 or 2 |
| `Base64.StripPadded` | server/src/types/hash.rs:26 | removing the padding from alphabet characters followed by at most two `=` gives those characters back |
| `Base64.DecodeEncode` | server/src/types/hash.rs:26 | decoding the encoding of any buffer gives the buffer back |
| `Base64.EncodeDecode` | server/src/types/hash.rs:26 | every string the strict decoder accepts is the encoding of what it decodes to |
| `Base64.EncodeInjective` | server/src/types/hash.rs:26 | different buffers have different encodings |

## Left out

- The text layout of the debug rendering (`IHashEntity { byte_length: …, digest: … }`, server/src/types/hash.rs:41-45) is not modelled; `Hash.HashEntity.Debug` gives only the two fields it shows.
- The `base64` crate (server/src/types/hash.rs:2, 26) is foreign code. The model defines the encoding from section 4 of RFC 4648, which its standard engine implements.
- `u64` and `usize` are treated as exact naturals (server/src/types/hash.rs:14, 32): a buffer length and a byte always fit.
- The panic (server/src/types/hash.rs:27) is modelled as a failure result carrying the encoding name; the panic message text is not modelled.
- `buffer()` and the derived `Clone` return independent copies. Datatype values have no identity, so aliasing and copying are not modelled.
- `byte_length` is a public field, so callers can overwrite it. `Hash.HashEntity` admits any pair of length and buffer, as the source does. `Valid()` states the relation that `new` establishes. The views other than the debug view read only the buffer.
- server/src/types/block.rs:
  - the data aggregates are declared as datatypes without operations, since the source defines none;
  - the `f64` number is kept as its 64-bit IEEE 754 bit pattern, and floating-point arithmetic is not modelled;
  - the `HashMap` is a Dafny `map`, so its iteration order is not modelled;
  - JSON (de)serialisation exists in the source only as a comment and is not modelled.
- server/src/main.rs prints the debug view. The printing is I/O and is left out; its buffer is used in `Hash.ExampleBuffer`.
