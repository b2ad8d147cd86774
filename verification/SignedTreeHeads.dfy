/** The message that a tree head signature covers (services/merkle-engine/src/checkpoint.rs). */
module SignedTreeHeads {
  import opened Keys
  import opened Hashing
  import opened Powers

  /** A signature is known by its key and its message; this stands for any scheme that cannot be forged. */
  datatype Signature = Signature(key: Key, message: Bytes)

  predicate SignatureValid(key: Key, message: Bytes, signature: Signature) {
    signature == Signature(key, message)
  }

  function BigEndian(n: nat, width: nat): (bytes: Bytes)
    ensures |bytes| == width
  {
    if width == 0 then [] else BigEndian(n / 0x100, width - 1) + [n % 0x100]
  }

  lemma {:induction false} BigEndianInjective(a: nat, b: nat, width: nat)
    requires a < Pow2(8 * width) && b < Pow2(8 * width)
    ensures BigEndian(a, width) == BigEndian(b, width) <==> a == b
  {
    if width != 0 && BigEndian(a, width) == BigEndian(b, width) {
      var w := 8 * width;
      assert Pow2(w) == 4 * Pow2(w - 2) == 16 * Pow2(w - 4) == 64 * Pow2(w - 6) == 0x100 * Pow2(w - 8);
      var m := width - 1;
      assert BigEndian(a, width)[..m] == BigEndian(a / 0x100, m);
      assert BigEndian(b, width)[..m] == BigEndian(b / 0x100, m);
      assert BigEndian(a, width)[m] == a % 0x100 && BigEndian(b, width)[m] == b % 0x100;
      BigEndianInjective(a / 0x100, b / 0x100, m);
    }
  }

  lemma {:induction false} HalvedTwice(x: nat, a: nat, b: nat)
    ensures Halved(Halved(x, a), b) == Halved(x, a + b)
  {
    if b != 0 {
      HalvedTwice(x, a, b - 1);
    }
  }

  lemma HalvedByte(x: nat)
    ensures Halved(x, 8) == x / 0x100
  {
    assert Halved(x, 1) == x / 2;
    assert Halved(x, 2) == x / 4;
    assert Halved(x, 4) == Halved(x, 2) / 4;
    assert Halved(x, 6) == Halved(x, 4) / 4;
    assert Halved(x, 8) == Halved(x, 6) / 4;
  }

  /** Byte i carries the bits above the bytes that follow it: the most significant byte comes first. */
  lemma {:induction false} BigEndianByte(n: nat, width: nat, i: nat)
    requires i < width
    ensures BigEndian(n, width)[i] == Halved(n, 8 * (width - 1 - i)) % 0x100
  {
    if i < width - 1 {
      BigEndianByte(n / 0x100, width - 1, i);
      HalvedByte(n);
      HalvedTwice(n, 8, 8 * (width - 2 - i));
    }
  }

  function SthMessage(treeSize: nat, rootHash: Bytes): (m: Bytes)
    ensures |m| == 8 + |rootHash| && m[..8] == BigEndian(treeSize, 8) && m[8..] == rootHash
  {
    BigEndian(treeSize, 8) + rootHash
  }

  lemma SthMessageInjective(s: nat, r: Bytes, t: nat, q: Bytes)
    requires s < WORD && t < WORD
    ensures SthMessage(s, r) == SthMessage(t, q) <==> s == t && r == q
  {
    Pow2Word();
    assert SthMessage(s, r)[..8] == BigEndian(s, 8) && SthMessage(s, r)[8..] == r;
    assert SthMessage(t, q)[..8] == BigEndian(t, 8) && SthMessage(t, q)[8..] == q;
    BigEndianInjective(s, t, 8);
  }

  datatype SignedTreeHead = SignedTreeHead(treeSize: nat, rootHash: Bytes, signature: Signature, keyId: Key)

  /** The signature is valid under this key for the head it is returned with, and for no other key, size or root. */
  method SignSth(key: Key, treeSize: nat, rootHash: Bytes) returns (sth: SignedTreeHead)
    requires treeSize < WORD
    ensures sth.treeSize == treeSize && sth.rootHash == rootHash && sth.keyId == key
    ensures forall k, t: nat, r :: t < WORD ==>
      (SignatureValid(k, SthMessage(t, r), sth.signature) <==> k == key && t == treeSize && r == rootHash)
  {
    var ctx: Bytes := [];
    ctx := ctx + BigEndian(treeSize, 8);
    ctx := ctx + rootHash;
    sth := SignedTreeHead(treeSize, rootHash, Signature(key, ctx), key);
    forall t: nat, r | t < WORD ensures SthMessage(t, r) == ctx <==> t == treeSize && r == rootHash {
      SthMessageInjective(t, r, treeSize, rootHash);
    }
  }
}
