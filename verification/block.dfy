/**
  The chain data model: plain aggregates with no operations of their own.
  A block refers to its predecessor through the hash entity `previousHash`
  and carries two further hash entities, the content and block signatures,
  all computed outside this model. Validation (linkage, ordering, merkle root,
  signatures) is not part of these types, so any combination of field values
  is a block.
*/
module Block {
  import Hash

  newtype u32 = x: int | 0 <= x < 0x1_0000_0000
  newtype u64 = x: int | 0 <= x < 0x1_0000_0000_0000_0000

  /** A JSON-like scalar; a number is kept as the bit pattern of its IEEE 754 double. */
  datatype JsonValue =
    | String(text: string)
    | Number(bits: bv64)
    | Bool(flag: bool)
    | Null

  datatype BlockHeaders = BlockHeaders(
    ts: u64,
    timestamp: string,
    contentLength: nat,
    merkleRoot: string,
    version: u32,
    nonce: u64)

  datatype Transaction<T> = Transaction(payload: T, sequence: u64)

  datatype Block<T> = Block(
    id: string,
    publicBlockId: string,
    previousHash: Hash.HashEntity,
    sequence: u64,
    transactions: seq<Transaction<T>>,
    headers: BlockHeaders,
    metadata: map<string, JsonValue>,
    contentSignature: Hash.HashEntity,
    blockSignature: Hash.HashEntity)
}
