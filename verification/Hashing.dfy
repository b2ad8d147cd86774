/** Hash values as free terms, and the hexadecimal texts that carry them. */
module Hashing {

  type Byte = b: nat | b < 0x100 witness 0
  type Bytes = seq<Byte>

  /** 32 bytes, named by what hashes to them. The first two constructors are the two prefixes 0x00 and 0x01 of
      section 2.1 of RFC 6962, the third stands for bytes that are the hash of neither; collision freedom is that
      distinct terms are distinct bytes. */
  datatype Hash =
    | LeafHash(data: Bytes)
    | NodeHash(left: Hash, right: Hash)
    | OtherBytes(name: nat)

  /** A text found where a hexadecimal digest is expected. */
  datatype HexText =
    | EmptyText
    | Digits(hash: Hash, lowerCase: bool)  // 64 hexadecimal digits
    | OtherDigits(text: string)            // hexadecimal digits of some other number of bytes
    | NotHex(text: string)

  function HexEncode(h: Hash): HexText {
    Digits(h, true)
  }

  /** Every entry is the hash of appended data, never an inner node. */
  ghost predicate AllData(leaves: seq<Hash>) {
    forall i :: 0 <= i < |leaves| ==> leaves[i].LeafHash?
  }
}
