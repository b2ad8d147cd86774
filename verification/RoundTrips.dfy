/** For which leaves the compiled verifier accepts the path that the compiled generator builds. */
module RoundTrips {
  import opened Hashing
  import opened Powers
  import opened TreeHashing
  import opened MerkleTree
  import opened AuditPaths
  import opened InclusionProofs

  // ---- the sides that the index spells against the sides of the leaf ----

  lemma SameLast<T>(a: seq<T>, x: T, b: seq<T>, y: T)
    requires |a| == |b|
    ensures a + [x] == b + [y] <==> a == b && x == y
  {
    if a + [x] == b + [y] {
      assert a == (a + [x])[..|a|] == (b + [y])[..|b|] == b;
      assert x == (a + [x])[|a|] && y == (b + [y])[|b|];
    }
  }

  /** Right of a block of 2^e leaves: the way continues to be spelled iff it was spelled in the rest and the
      rest is as deep as the block. */
  lemma LastSideSpelled(y: nat, sides: seq<Side>, c: nat, e: nat)
    requires y < Pow2(c) && |sides| <= c <= e
    requires IndexSides(y, |sides|) == sides <==> |sides| == c
    ensures IndexSides(Pow2(e) + y, |sides| + 1) == sides + [OnRight] <==> |sides| == e
  {
    var d, idx := |sides|, Pow2(e) + y;
    IndexSidesStep(idx, d);
    SameLast(IndexSides(y, d), BitSide(idx, d), sides, OnRight);
    if c < e {
      Pow2Increasing(c, e);
    }
    BesideBlock(y, e, d);
    if d == c {
      HalvedSmall(y, d);
    }
  }

  lemma PerfectCeiling(e: nat)
    ensures CeilLog2(Pow2(e)) == e
  {
    CeilLog2Least(Pow2(e), e);
    if CeilLog2(Pow2(e)) < e {
      CeilLog2Least(Pow2(e), e - 1);
    }
  }

  /** The index bits spell the way of leaf idx exactly when it has the full depth of the tree. */
  lemma {:induction false} IndexSpellsWayIff(idx: nat, n: nat)
    requires idx < n
    ensures IndexSides(idx, Depth(idx, n)) == LeafSides(idx, n) <==> Depth(idx, n) == CeilLog2(n)
    decreases n
  {
    var e := FloorLog2(n);
    FloorLog2Bounds(n);
    if n == Pow2(e) {
      PerfectSides(idx, e);
      PerfectCeiling(e);
    } else {
      var k := Pow2(e);
      SplitIsLeadingBit(n);
      HalvesAreShallower(n);
      PerfectCeiling(e);
      if idx < k {
        PerfectSides(idx, e);
        HalvedSmall(idx, e);
        IndexSidesStep(idx, e);
      } else {
        IndexSpellsWayIff(idx - k, n - k);
        DepthBound(idx - k, n - k);
        CeilLog2Least(n - k, e);
        LastSideSpelled(idx - k, LeafSides(idx - k, n - k), CeilLog2(n - k), e);
      }
    }
  }

  // ---- a wrong side never reaches the root ----

  /** A path whose last side is wrong leads to the root only if both parts of the tree have equal hashes. */
  lemma LastSideRight(leaves: seq<Hash>, idx: nat, sides: seq<Side>, last: Side)
    requires idx < |leaves| && 2 <= |leaves| && |AuditPath(leaves, idx)| == |sides| + 1
    requires Climb(leaves[idx], sides + [last], AuditPath(leaves, idx)) == TreeHash(leaves)
    requires var k := SplitPoint(|leaves|); TreeHash(leaves[..k]) != TreeHash(leaves[k..])
    ensures var k := SplitPoint(|leaves|);
      if idx < k then
        last == OnLeft && Climb(leaves[idx], sides, AuditPath(leaves[..k], idx)) == TreeHash(leaves[..k])
      else
        last == OnRight && Climb(leaves[idx], sides, AuditPath(leaves[k..], idx - k)) == TreeHash(leaves[k..])
  {
    var path, m := AuditPath(leaves, idx), |sides|;
    assert (sides + [last])[..m] == sides;
    var lower := Climb(leaves[idx], sides, path[..m]);
    assert TreeHash(leaves) == Join(lower, last, path[m]);
  }

  ghost predicate ClimbsByIndex(leaves: seq<Hash>, idx: nat)
    requires idx < |leaves|
  {
    PathLengthIsDepth(leaves, idx);
    Climb(leaves[idx], IndexSides(idx, Depth(idx, |leaves|)), AuditPath(leaves, idx)) == TreeHash(leaves)
  }

  lemma DepthStep(idx: nat, n: nat)
    requires idx < n && 2 <= n
    ensures var k := SplitPoint(n);
      Depth(idx, n) == 1 + if idx < k then Depth(idx, k) else Depth(idx - k, n - k)
  {
  }

  /** In a tree that is not perfect, an index that leads to the root names the last side rightly and the same
      sides below it lead to the top of its own part. */
  lemma ClimbsByIndexBelow(leaves: seq<Hash>, idx: nat, e: nat, d: nat)
    requires idx < |leaves| && AllData(leaves) && Pow2(e) < |leaves| < 2 * Pow2(e)
    requires ClimbsByIndex(leaves, idx) && Depth(idx, |leaves|) == d + 1
    ensures BitSide(idx, d) == if idx < Pow2(e) then OnLeft else OnRight
    ensures idx < Pow2(e) ==>
      && |AuditPath(leaves[..Pow2(e)], idx)| == d
      && Climb(leaves[idx], IndexSides(idx, d), AuditPath(leaves[..Pow2(e)], idx)) == TreeHash(leaves[..Pow2(e)])
    ensures Pow2(e) <= idx ==>
      var rest, y := leaves[Pow2(e)..], idx - Pow2(e);
      |AuditPath(rest, y)| == d && Climb(leaves[idx], IndexSides(idx, d), AuditPath(rest, y)) == TreeHash(rest)
  {
    SplitPointUnique(|leaves|, e);
    PathLengthIsDepth(leaves, idx);
    TreeHashInjective(leaves[..Pow2(e)], leaves[Pow2(e)..]);
    IndexSidesStep(idx, d);
    hide TreeHash, Climb, IndexSides, BitSide, LeafSides, Pow2;
    LastSideRight(leaves, idx, IndexSides(idx, d), BitSide(idx, d));
  }

  lemma {:induction false} WrongSideMissesRoot(leaves: seq<Hash>, idx: nat)
    requires idx < |leaves| && AllData(leaves)
    requires ClimbsByIndex(leaves, idx)
    ensures IndexSides(idx, Depth(idx, |leaves|)) == LeafSides(idx, |leaves|)
    decreases |leaves|
  {
    hide TreeHash, AuditPath, Climb, Pow2, SplitPoint;
    var n, e := |leaves|, FloorLog2(|leaves|);
    FloorLog2Bounds(n);
    if n == Pow2(e) {
      PerfectSides(idx, e);
    } else {
      var k := Pow2(e);
      SplitIsLeadingBit(n);
      DepthStep(idx, n);
      var d := Depth(idx, n) - 1;
      ClimbsByIndexBelow(leaves, idx, e, d);
      IndexSidesStep(idx, d);
      if idx < k {
        WrongSideMissesRoot(leaves[..k], idx);
      } else {
        DepthBound(idx - k, n - k);
        CeilLog2Least(n - k, e);
        BesideBlock(idx - k, e, d);
        WrongSideMissesRoot(leaves[k..], idx - k);
      }
    }
  }

  // ---- the domain of the round trip ----

  /** The generated proof of leaf idx is accepted exactly when its path has the full length ceil(log2 n). */
  lemma RoundTripExactly(payloads: seq<Bytes>, idx: nat)
    requires idx < |payloads|
    ensures Verifies(GeneratedProof(LeavesOf(payloads), idx), payloads[idx], RootText(LeavesOf(payloads)))
       <==> |GeneratedProof(LeavesOf(payloads), idx).path| == CeilLog2(|payloads|)
  {
    hide TreeHash, AuditPath, Climb, LeafSides, InclusionPath;
    var leaves, n := LeavesOf(payloads), |payloads|;
    GeneratedPath(leaves, idx);
    IndexSpellsWayIff(idx, n);
    var proof := GeneratedProof(leaves, idx);
    if Depth(idx, n) == CeilLog2(n) {
      assert ShowsLeaf(payloads, idx, payloads[idx], IndexSides(idx, Depth(idx, n)), proof.path);
      AcceptedExactly(payloads, proof, payloads[idx]);
    } else if Verifies(proof, payloads[idx], RootText(leaves)) {
      WrongSideMissesRoot(leaves, idx);
    }
  }

  // ---- the same domain in terms of the binary digits of the size ----

  /** The exponents of the powers of two that add up to n, largest first: the perfect blocks of the tree. */
  function Blocks(n: nat): seq<nat> {
    if n == 0 then []
    else
      FloorLog2Bounds(n);
      [FloorLog2(n)] + Blocks(n - Pow2(FloorLog2(n)))
  }

  /** The block that holds leaf idx. */
  function BlockOf(idx: nat, n: nat): nat
    requires idx < n
    decreases n
  {
    var k := Pow2(FloorLog2(n));
    if idx < k then 0 else
    FloorLog2Bounds(n);
    1 + BlockOf(idx - k, n - k)
  }

  function Width(blocks: seq<nat>): nat {
    if blocks == [] then 0 else Pow2(blocks[0]) + Width(blocks[1..])
  }

  /** Blocks is the binary representation of n. */
  lemma {:induction false} BlocksOfSize(n: nat)
    ensures Width(Blocks(n)) == n
    ensures forall i, j :: 0 <= i < j < |Blocks(n)| ==> Blocks(n)[j] + (j - i) <= Blocks(n)[i]
  {
    if n != 0 {
      FloorLog2Bounds(n);
      var e, rest := FloorLog2(n), n - Pow2(FloorLog2(n));
      BlocksOfSize(rest);
      if rest != 0 {
        FloorLog2Bounds(rest);
        if e <= FloorLog2(rest) {
          if e < FloorLog2(rest) { Pow2Increasing(e, FloorLog2(rest)); }
          assert false;
        }
      }
    }
  }

  /** BlockOf finds the block whose range contains idx. */
  lemma {:induction false} BlockOfCovers(idx: nat, n: nat)
    requires idx < n
    ensures var i, b := BlockOf(idx, n), Blocks(n);
      i < |b| && Width(b[..i]) <= idx < Width(b[..i]) + Pow2(b[i])
    decreases n
  {
    FloorLog2Bounds(n);
    var k := Pow2(FloorLog2(n));
    if idx >= k {
      BlockOfCovers(idx - k, n - k);
      var i, b, rest := BlockOf(idx, n), Blocks(n), Blocks(n - k);
      assert b == [FloorLog2(n)] + rest;
      assert b[..i] == [FloorLog2(n)] + rest[..i - 1];
      assert Width(b[..i]) == k + Width(rest[..i - 1]) by { assert b[..i][1..] == rest[..i - 1]; }
    }
  }

  /** A leaf of block i stands below one join per earlier block and, unless its block is last, one more. */
  lemma {:induction false} DepthInBlock(idx: nat, n: nat)
    requires idx < n
    ensures var i, b := BlockOf(idx, n), Blocks(n);
      i < |b| && Depth(idx, n) == b[i] + i + if i + 1 < |b| then 1 else 0
    decreases n
  {
    var e := FloorLog2(n);
    FloorLog2Bounds(n);
    if n == Pow2(e) {
      PerfectSides(idx, e);
    } else {
      SplitIsLeadingBit(n);
      if idx < Pow2(e) {
        PerfectSides(idx, e);
      } else {
        DepthInBlock(idx - Pow2(e), n - Pow2(e));
      }
    }
  }

  /** The block is the only one, or it is not the last and no exponent is skipped down to it. */
  ghost predicate InRoundTripBlock(idx: nat, n: nat)
    requires idx < n
  {
    var i, b := BlockOf(idx, n), Blocks(n);
    |b| == 1 || (i + 1 < |b| && forall j :: 0 <= j < i ==> b[j] == b[i] + (i - j))
  }

  lemma CeilingOfBlocks(n: nat)
    requires 1 <= n
    ensures Blocks(n) != []
    ensures CeilLog2(n) == Blocks(n)[0] + if |Blocks(n)| == 1 then 0 else 1
  {
    var e := FloorLog2(n);
    FloorLog2Bounds(n);
    if n == Pow2(e) {
      PerfectCeiling(e);
    } else {
      assert Blocks(n - Pow2(e)) != [];
      SplitIsLeadingBit(n);
      HalvesAreShallower(n);
      PerfectCeiling(e);
    }
  }

  /** The round trip in terms of the size alone: which blocks of the tree round-trip. */
  lemma RoundTripBlocks(payloads: seq<Bytes>, idx: nat)
    requires idx < |payloads|
    ensures Verifies(GeneratedProof(LeavesOf(payloads), idx), payloads[idx], RootText(LeavesOf(payloads)))
       <==> InRoundTripBlock(idx, |payloads|)
  {
    var n := |payloads|;
    RoundTripExactly(payloads, idx);
    GeneratedPath(LeavesOf(payloads), idx);
    DepthInBlock(idx, n);
    CeilingOfBlocks(n);
    BlocksOfSize(n);
  }

  /** Every index below the split point round-trips. */
  lemma FirstBlockRoundTrips(payloads: seq<Bytes>, idx: nat)
    requires idx < SplitPoint(|payloads|)
    ensures Verifies(GeneratedProof(LeavesOf(payloads), idx), payloads[idx], RootText(LeavesOf(payloads)))
  {
    var n := |payloads|;
    RoundTripExactly(payloads, idx);
    GeneratedPath(LeavesOf(payloads), idx);
    HalvesAreShallower(n);
    var e := SplitExp(n);
    PerfectCeiling(e);
    PerfectSides(idx, e);
  }

  /** The last leaf is in the last block. */
  lemma {:induction false} LastLeafInLastBlock(n: nat)
    requires 1 <= n
    ensures BlockOf(n - 1, n) == |Blocks(n)| - 1
  {
    FloorLog2Bounds(n);
    var k := Pow2(FloorLog2(n));
    if n != k {
      LastLeafInLastBlock(n - k);
    }
  }

  lemma OneBlockIffPerfect(n: nat)
    requires 1 <= n
    ensures |Blocks(n)| == 1 <==> exists h :: n == Pow2(h)
  {
    FloorLog2Bounds(n);
    CeilingOfBlocks(n);
    if n == Pow2(FloorLog2(n)) {
      assert Blocks(0) == [];
    } else {
      assert Blocks(n - Pow2(FloorLog2(n))) != [];
      forall h ensures n != Pow2(h) {
        if n == Pow2(h) {
          FloorLog2Unique(n, h);
        }
      }
    }
  }

  /** The last leaf of a tree that is not perfect never round-trips. */
  lemma LastLeafRoundTripsIffPerfect(payloads: seq<Bytes>)
    requires payloads != []
    ensures Verifies(GeneratedProof(LeavesOf(payloads), |payloads| - 1), payloads[|payloads| - 1],
                     RootText(LeavesOf(payloads)))
       <==> exists h :: |payloads| == Pow2(h)
  {
    var n := |payloads|;
    RoundTripBlocks(payloads, n - 1);
    LastLeafInLastBlock(n);
    OneBlockIffPerfect(n);
  }

  /** The smallest failure: the generated proof for the last of three leaves is rejected. */
  lemma ThirdOfThreeIsRejected(a: Bytes, b: Bytes, c: Bytes)
    ensures var leaves := LeavesOf([a, b, c]); !Verifies(GeneratedProof(leaves, 2), c, RootText(leaves))
  {
    LastLeafRoundTripsIffPerfect([a, b, c]);
    forall h ensures 3 != Pow2(h) {
    }
  }

  /** All leaves round-trip exactly when the number of leaves is a power of two. */
  lemma AllRoundTripIffPerfect(payloads: seq<Bytes>)
    requires payloads != []
    ensures (forall idx: nat :: idx < |payloads| ==>
               Verifies(GeneratedProof(LeavesOf(payloads), idx), payloads[idx], RootText(LeavesOf(payloads))))
       <==> exists h :: |payloads| == Pow2(h)
  {
    LastLeafRoundTripsIffPerfect(payloads);
    OneBlockIffPerfect(|payloads|);
    if |Blocks(|payloads|)| == 1 {
      forall idx: nat | idx < |payloads|
        ensures Verifies(GeneratedProof(LeavesOf(payloads), idx), payloads[idx], RootText(LeavesOf(payloads)))
      {
        RoundTripBlocks(payloads, idx);
      }
    }
  }

  // ---- what an accepted proof says about the claimed index ----

  /** For every size, index and path: the leaf that an accepted proof shows is the one claimed exactly when the index
      is inside the tree and the path has the full length ceil(log2 n). */
  lemma ShownLeafIsClaimedIff(payloads: seq<Bytes>, proof: InclusionProof, data: Bytes, p: nat)
    requires ShowsLeaf(payloads, p, data, IndexSides(proof.leafIndex, |proof.path|), proof.path)
    ensures p == proof.leafIndex
       <==> proof.leafIndex < |payloads| && |proof.path| == CeilLog2(|payloads|)
  {
    var idx, n, c := proof.leafIndex, |payloads|, CeilLog2(|payloads|);
    assert |IndexSides(idx, |proof.path|)| == |proof.path| == Depth(p, n);
    IndexSpellsWayIff(p, n);
    if idx < n && |proof.path| == c {
      IndexSidesDetermineLowBits(idx, p, c);
      CeilLog2Least(n, c);
      SmallModulo(idx, Pow2(c));
      SmallModulo(p, Pow2(c));
    }
  }
}
