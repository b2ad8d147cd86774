/** The compiled inclusion-proof verifier of services/merkle-engine/src/proof.rs. */
module InclusionProofs {
  import opened Hashing
  import opened Powers
  import opened TreeHashing
  import opened MerkleTree
  import opened AuditPaths

  function BitSide(index: nat, i: nat): Side {
    if Halved(index, i) % 2 == 0 then OnLeft else OnRight
  }

  /** The sides that the lowest bits of an index name. */
  function IndexSides(index: nat, levels: nat): seq<Side> {
    seq(levels, i requires 0 <= i < levels => BitSide(index, i))
  }

  /** The join of a node with each sibling in turn, by the lowest bit of an index that is halved at every level. */
  function FoldUp(cur: Hash, index: nat, path: seq<Hash>): Hash
    decreases |path|
  {
    if path == [] then cur
    else FoldUp(if index % 2 == 0 then NodeHash(cur, path[0]) else NodeHash(path[0], cur), index / 2, path[1..])
  }

  lemma IndexSidesFront(index: nat, levels: nat)
    ensures IndexSides(index, levels + 1) == [BitSide(index, 0)] + IndexSides(index / 2, levels)
  {
    forall i | 0 <= i < levels ensures BitSide(index, i + 1) == BitSide(index / 2, i) {
      HalvedFront(index, i);
    }
  }

  /** Climbing by the index bits is that fold. */
  lemma {:induction false} FoldIsClimb(cur: Hash, index: nat, path: seq<Hash>)
    ensures FoldUp(cur, index, path) == Climb(cur, IndexSides(index, |path|), path)
    decreases |path|
  {
    if path != [] {
      IndexSidesFront(index, |path| - 1);
      ClimbFront(cur, IndexSides(index, |path|), path);
      FoldIsClimb(Join(cur, BitSide(index, 0), path[0]), index / 2, path[1..]);
    }
  }

  datatype InclusionProof = InclusionProof(leafIndex: nat, treeSize: nat, path: seq<Hash>) {

    /** Walks up the path, joining on the side that the current index bit names. The tree size is not read. */
    method Verify(leafData: Bytes, rootHex: HexText) returns (ok: bool)
      ensures ok <==> Verifies(this, leafData, rootHex)
      ensures ok <==> rootHex.Digits? && rootHex.lowerCase
                      && rootHex.hash == FoldUp(LeafHash(leafData), leafIndex, path)
    {
      FoldIsClimb(LeafHash(leafData), leafIndex, path);
      var cur := LeafHash(leafData);
      var index := leafIndex;
      for i := 0 to |path|
        invariant index == Halved(leafIndex, i)
        invariant cur == Climb(LeafHash(leafData), IndexSides(leafIndex, i), path[..i])
      {
        assert path[..i + 1][..i] == path[..i];
        assert IndexSides(leafIndex, i + 1)[..i] == IndexSides(leafIndex, i);
        if index % 2 == 0 {
          cur := NodeHash(cur, path[i]);
        } else {
          cur := NodeHash(path[i], cur);
        }
        index := index / 2;
      }
      assert path[..|path|] == path;
      ok := HexEncode(cur) == rootHex;
    }
  }

  ghost predicate Verifies(proof: InclusionProof, data: Bytes, rootHex: HexText) {
    rootHex == HexEncode(Climb(LeafHash(data), IndexSides(proof.leafIndex, |proof.path|), proof.path))
  }

  /** The proof that the generator writes for leaf idx of a tree. */
  function GeneratedProof(leaves: seq<Hash>, idx: nat): InclusionProof
    requires idx < |leaves|
  {
    InclusionProof(idx, |leaves|, InclusionPath(leaves, idx, 0, |leaves|))
  }

  lemma GeneratedPath(leaves: seq<Hash>, idx: nat)
    requires idx < |leaves|
    ensures GeneratedProof(leaves, idx).path == AuditPath(leaves, idx)
    ensures GeneratedProof(leaves, idx).leafIndex == idx && GeneratedProof(leaves, idx).treeSize == |leaves|
    ensures |AuditPath(leaves, idx)| == Depth(idx, |leaves|)
  {
    assert leaves[0..|leaves|] == leaves;
    InclusionIsAuditPath(leaves, idx, 0, |leaves|);
    PathLengthIsDepth(leaves, idx);
  }

  // ---- soundness ----

  /** Exactly what is accepted against the root of a tree, for every proof: the data of some leaf p, with the
      path of p, whenever the index bits spell the way of p. Nothing is accepted for an empty tree. */
  lemma AcceptedExactly(payloads: seq<Bytes>, proof: InclusionProof, data: Bytes)
    ensures Verifies(proof, data, RootText(LeavesOf(payloads)))
       <==> exists p :: ShowsLeaf(payloads, p, data, IndexSides(proof.leafIndex, |proof.path|), proof.path)
  {
    ClimbShowsLeaf(payloads, data, IndexSides(proof.leafIndex, |proof.path|), proof.path);
  }

  /** Membership: data accepted against the root of a tree was appended to that tree. */
  lemma AcceptedDataWasAppended(payloads: seq<Bytes>, proof: InclusionProof, data: Bytes)
    requires Verifies(proof, data, RootText(LeavesOf(payloads)))
    ensures data in payloads
  {
    AcceptedExactly(payloads, proof, data);
  }

  // ---- index bits against leaf positions ----

  lemma IndexSidesStep(index: nat, levels: nat)
    ensures IndexSides(index, levels + 1) == IndexSides(index, levels) + [BitSide(index, levels)]
  {
  }

  /** The first i sides depend only on the i lowest bits, so a leaf keeps them when 2^e leaves are put before it. */
  lemma IndexSidesOffset(y: nat, e: nat, levels: nat)
    requires levels <= e
    ensures IndexSides(Pow2(e) + y, levels) == IndexSides(y, levels)
  {
    forall i | 0 <= i < levels ensures BitSide(Pow2(e) + y, i) == BitSide(y, i) {
      HalvedOffset(y, e, i);
    }
  }

  /** The sides up to level d <= e of a leaf that stands right of a block of 2^e leaves. */
  lemma BesideBlock(y: nat, e: nat, d: nat)
    requires y < Pow2(e) && d <= e
    ensures IndexSides(Pow2(e) + y, d) == IndexSides(y, d)
    ensures BitSide(Pow2(e) + y, d) == if d == e then OnRight else BitSide(y, d)
  {
    IndexSidesOffset(y, e, d);
    HalvedOffset(y, e, d);
    HalvedSmall(y, e);
  }

  /** In a tree of 2^h leaves the way of a leaf is spelled by the bits of its index. */
  lemma {:induction false} PerfectSides(p: nat, h: nat)
    requires p < Pow2(h)
    ensures LeafSides(p, Pow2(h)) == IndexSides(p, h)
  {
    hide SplitPoint;
    if h != 0 {
      var k := Pow2(h - 1);
      SplitOfPow2(h);
      IndexSidesStep(p, h - 1);
      if p < k {
        PerfectSides(p, h - 1);
        HalvedSmall(p, h - 1);
      } else {
        PerfectSides(p - k, h - 1);
        BesideBlock(p - k, h - 1, h - 1);
      }
    }
  }

  lemma {:induction false} SameLowBitsSameSides(x: nat, y: nat, h: nat)
    requires LowBits(x, h) == LowBits(y, h)
    ensures IndexSides(x, h) == IndexSides(y, h)
  {
    if h != 0 {
      LowBitsSplit(x, h - 1);
      LowBitsSplit(y, h - 1);
      SameLowBitsSameSides(x, y, h - 1);
      IndexSidesStep(x, h - 1);
      IndexSidesStep(y, h - 1);
    }
  }

  lemma {:induction false} SameSidesSameLowBits(x: nat, y: nat, h: nat)
    requires IndexSides(x, h) == IndexSides(y, h)
    ensures LowBits(x, h) == LowBits(y, h)
  {
    if h != 0 {
      assert IndexSides(x, h)[h - 1] == IndexSides(y, h)[h - 1];
      assert IndexSides(x, h - 1) == IndexSides(x, h)[..h - 1] == IndexSides(y, h)[..h - 1] == IndexSides(y, h - 1);
      SameSidesSameLowBits(x, y, h - 1);
    }
  }

  lemma {:induction false} IndexSidesDetermineLowBits(x: nat, y: nat, h: nat)
    ensures IndexSides(x, h) == IndexSides(y, h) <==> x % Pow2(h) == y % Pow2(h)
  {
    LowBitsModulo(x, h);
    LowBitsModulo(y, h);
    if IndexSides(x, h) == IndexSides(y, h) {
      SameSidesSameLowBits(x, y, h);
    } else if LowBits(x, h) == LowBits(y, h) {
      SameLowBitsSameSides(x, y, h);
    }
  }

  lemma SmallModulo(x: nat, p: nat)
    requires x < p
    ensures x % p == x
  {
  }

  /** Full binding when the tree is perfect: the path has h nodes, the data is the leaf at the index modulo
      the size, and the path is the generated one. */
  lemma PerfectTreeBinding(payloads: seq<Bytes>, h: nat, proof: InclusionProof, data: Bytes)
    requires |payloads| == Pow2(h)
    ensures Verifies(proof, data, RootText(LeavesOf(payloads)))
       <==> (var p := proof.leafIndex % Pow2(h);
             |proof.path| == h && payloads[p] == data && proof.path == GeneratedProof(LeavesOf(payloads), p).path)
  {
    var leaves, p := LeavesOf(payloads), proof.leafIndex % Pow2(h);
    AcceptedExactly(payloads, proof, data);
    GeneratedPath(leaves, p);
    PerfectSides(p, h);
    SmallModulo(p, Pow2(h));
    IndexSidesDetermineLowBits(proof.leafIndex, p, h);
    var sides := IndexSides(proof.leafIndex, |proof.path|);
    if |proof.path| == h && payloads[p] == data && proof.path == AuditPath(leaves, p) {
      assert ShowsLeaf(payloads, p, data, sides, proof.path);
    }
    forall q | ShowsLeaf(payloads, q, data, sides, proof.path)
      ensures |proof.path| == h && q == p
    {
      PerfectSides(q, h);
      assert |sides| == |IndexSides(q, h)|;
      IndexSidesDetermineLowBits(proof.leafIndex, q, h);
      SmallModulo(q, Pow2(h));
    }
  }
}
