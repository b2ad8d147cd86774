/** Audit paths: how they are generated top-down, and which folds of them reach a root. */
module AuditPaths {
  import opened Hashing
  import opened Powers
  import opened TreeHashing
  import opened MerkleTree

  /** The side on which the current node stands when it is joined with a sibling. */
  datatype Side = OnLeft | OnRight

  function Join(cur: Hash, side: Side, sibling: Hash): Hash {
    match side
    case OnLeft => NodeHash(cur, sibling)
    case OnRight => NodeHash(sibling, cur)
  }

  /** Joins cur with every sibling in turn, the first one lowest in the tree. */
  function Climb(cur: Hash, sides: seq<Side>, path: seq<Hash>): Hash
    requires |sides| == |path|
    decreases |path|
  {
    if path == [] then cur
    else
      var m := |path| - 1;
      Join(Climb(cur, sides[..m], path[..m]), sides[m], path[m])
  }

  /** The lowest join comes first. */
  lemma {:induction false} ClimbFront(cur: Hash, sides: seq<Side>, path: seq<Hash>)
    requires |sides| == |path| && path != []
    ensures Climb(cur, sides, path) == Climb(Join(cur, sides[0], path[0]), sides[1..], path[1..])
    decreases |path|
  {
    var m := |path| - 1;
    if m != 0 {
      ClimbFront(cur, sides[..m], path[..m]);
      assert sides[..m][1..] == sides[1..][..m - 1] && path[..m][1..] == path[1..][..m - 1];
    }
  }

  // ---- generation ----

  /** The recursion that builds the path of leaf idx within the range [lo, hi): siblings, lowest first. */
  function InclusionPath(leaves: seq<Hash>, idx: nat, lo: nat, hi: nat): seq<Hash>
    requires lo <= idx < hi <= |leaves|
    decreases hi - lo
  {
    if hi - lo == 1 then []
    else
      var k := SplitPoint(hi - lo);
      if idx - lo < k then
        InclusionPath(leaves, idx, lo, lo + k) + [SubtreeHash(leaves, lo + k, hi)]
      else
        InclusionPath(leaves, idx, lo + k, hi) + [SubtreeHash(leaves, lo, lo + k)]
  }

  /** The audit path of section 2.1.1 of RFC 6962, on a whole list. */
  function AuditPath(leaves: seq<Hash>, idx: nat): seq<Hash>
    requires idx < |leaves|
    decreases |leaves|
  {
    if |leaves| == 1 then []
    else
      var k := SplitPoint(|leaves|);
      if idx < k then AuditPath(leaves[..k], idx) + [TreeHash(leaves[k..])]
      else AuditPath(leaves[k..], idx - k) + [TreeHash(leaves[..k])]
  }

  /** One step of the list recursion, with its two parts named. */
  lemma AuditPathStep(s: seq<Hash>, i: nat, left: seq<Hash>, right: seq<Hash>)
    requires i < |s| && 2 <= |s|
    requires left == s[..SplitPoint(|s|)] && right == s[SplitPoint(|s|)..]
    ensures AuditPath(s, i) == if i < |left| then AuditPath(left, i) + [TreeHash(right)]
                               else AuditPath(right, i - |left|) + [TreeHash(left)]
  {
  }

  /** One step of the list recursion, on ranges. */
  lemma AuditPathOfRange(leaves: seq<Hash>, idx: nat, lo: nat, hi: nat)
    requires lo <= idx < hi <= |leaves| && 2 <= hi - lo
    ensures var mid := lo + SplitPoint(hi - lo);
      AuditPath(leaves[lo..hi], idx - lo) ==
        if idx < mid then AuditPath(leaves[lo..mid], idx - lo) + [TreeHash(leaves[mid..hi])]
        else AuditPath(leaves[mid..hi], idx - mid) + [TreeHash(leaves[lo..mid])]
  {
    hide AuditPath, TreeHash;
    var mid := lo + SplitPoint(hi - lo);
    SliceOfSlice(leaves, lo, mid, hi);
    AuditPathStep(leaves[lo..hi], idx - lo, leaves[lo..mid], leaves[mid..hi]);
  }

  lemma InclusionStep(leaves: seq<Hash>, idx: nat, lo: nat, hi: nat)
    requires lo <= idx < hi <= |leaves| && 2 <= hi - lo
    ensures var mid := lo + SplitPoint(hi - lo);
      InclusionPath(leaves, idx, lo, hi) ==
        if idx < mid then InclusionPath(leaves, idx, lo, mid) + [SubtreeHash(leaves, mid, hi)]
        else InclusionPath(leaves, idx, mid, hi) + [SubtreeHash(leaves, lo, mid)]
  {
    hide SubtreeHash;
  }

  lemma SingleLeafPaths(leaves: seq<Hash>, idx: nat)
    requires idx < |leaves|
    ensures InclusionPath(leaves, idx, idx, idx + 1) == [] == AuditPath(leaves[idx..idx + 1], 0)
  {
  }

  lemma {:induction false} InclusionIsAuditPath(leaves: seq<Hash>, idx: nat, lo: nat, hi: nat)
    requires lo <= idx < hi <= |leaves|
    ensures InclusionPath(leaves, idx, lo, hi) == AuditPath(leaves[lo..hi], idx - lo)
    decreases hi - lo
  {
    hide AuditPath, TreeHash, SubtreeHash, InclusionPath, SplitPoint;
    if hi - lo == 1 {
      SingleLeafPaths(leaves, idx);
    } else {
      var mid := lo + SplitPoint(hi - lo);
      AuditPathOfRange(leaves, idx, lo, hi);
      InclusionStep(leaves, idx, lo, hi);
      SubtreeIsTreeOfSlice(leaves, lo, mid);
      SubtreeIsTreeOfSlice(leaves, mid, hi);
      if idx < mid {
        InclusionIsAuditPath(leaves, idx, lo, mid);
      } else {
        InclusionIsAuditPath(leaves, idx, mid, hi);
      }
    }
  }

  // ---- where a leaf stands ----

  /** The side on which leaf idx of n stands at each level, lowest first. */
  function LeafSides(idx: nat, n: nat): seq<Side>
    requires idx < n
    decreases n
  {
    if n == 1 then []
    else
      var k := SplitPoint(n);
      if idx < k then LeafSides(idx, k) + [OnLeft] else LeafSides(idx - k, n - k) + [OnRight]
  }

  function Depth(idx: nat, n: nat): nat
    requires idx < n
  {
    |LeafSides(idx, n)|
  }

  lemma {:induction false} PathLengthIsDepth(leaves: seq<Hash>, idx: nat)
    requires idx < |leaves|
    ensures |AuditPath(leaves, idx)| == Depth(idx, |leaves|)
    decreases |leaves|
  {
    if |leaves| != 1 {
      var k := SplitPoint(|leaves|);
      if idx < k {
        PathLengthIsDepth(leaves[..k], idx);
      } else {
        PathLengthIsDepth(leaves[k..], idx - k);
      }
    }
  }

  lemma {:induction false} DepthBound(idx: nat, n: nat)
    requires idx < n
    ensures Depth(idx, n) <= CeilLog2(n)
    decreases n
  {
    if n != 1 {
      var k := SplitPoint(n);
      HalvesAreShallower(n);
      if idx < k {
        DepthBound(idx, k);
      } else {
        DepthBound(idx - k, n - k);
      }
    }
  }

  lemma {:induction false} FirstLeafDepth(n: nat)
    requires 1 <= n
    ensures Depth(0, n) == CeilLog2(n)
  {
    if n != 1 {
      HalvesAreShallower(n);
      FirstLeafDepth(SplitPoint(n));
    }
  }

  /** A generated path has one sibling per level of its leaf, at most ceil(log2 n) of them; leaf 0 needs that many. */
  lemma PathLength(leaves: seq<Hash>, idx: nat)
    requires idx < |leaves|
    ensures |InclusionPath(leaves, idx, 0, |leaves|)| == Depth(idx, |leaves|) <= CeilLog2(|leaves|)
    ensures Depth(0, |leaves|) == CeilLog2(|leaves|)
  {
    InclusionIsAuditPath(leaves, idx, 0, |leaves|);
    assert leaves[0..|leaves|] == leaves;
    PathLengthIsDepth(leaves, idx);
    DepthBound(idx, |leaves|);
    FirstLeafDepth(|leaves|);
  }

  /** Different leaves stand in different places. */
  lemma {:induction false} LeafSidesInjective(p: nat, q: nat, n: nat)
    requires p < n && q < n
    ensures LeafSides(p, n) == LeafSides(q, n) <==> p == q
    decreases n
  {
    if n != 1 && LeafSides(p, n) == LeafSides(q, n) {
      var k := SplitPoint(n);
      var m := |LeafSides(p, n)| - 1;
      assert LeafSides(p, n)[m] == LeafSides(q, n)[m];
      assert LeafSides(p, n)[..m] == LeafSides(q, n)[..m];
      if p < k {
        assert LeafSides(p, k) == LeafSides(p, n)[..m] && LeafSides(q, k) == LeafSides(q, n)[..m];
        LeafSidesInjective(p, q, k);
      } else {
        assert LeafSides(p - k, n - k) == LeafSides(p, n)[..m] && LeafSides(q - k, n - k) == LeafSides(q, n)[..m];
        LeafSidesInjective(p - k, q - k, n - k);
      }
    }
  }

  // ---- what a climb proves ----

  /** Leaf p is the given data, it stands at the given sides, and the path is its own. */
  ghost predicate OpensAt(leaves: seq<Hash>, p: nat, data: Bytes, sides: seq<Side>, path: seq<Hash>) {
    && p < |leaves|
    && leaves[p] == LeafHash(data)
    && sides == LeafSides(p, |leaves|)
    && path == AuditPath(leaves, p)
  }

  /** A path together with the right sides leads from its leaf to the root. */
  lemma {:induction false} OpeningReachesRoot(
      leaves: seq<Hash>, p: nat, data: Bytes, sides: seq<Side>, path: seq<Hash>)
    requires OpensAt(leaves, p, data, sides, path)
    ensures |sides| == |path| && Climb(LeafHash(data), sides, path) == TreeHash(leaves)
    decreases |leaves|
  {
    PathLengthIsDepth(leaves, p);
    var n, m := |leaves|, |path| - 1;
    if n != 1 {
      var k := SplitPoint(n);
      var left := p < k;
      var part, at := if left then leaves[..k] else leaves[k..], if left then p else p - k;
      assert path[..m] == AuditPath(part, at) && sides[..m] == LeafSides(at, |part|);
      OpeningReachesRoot(part, at, data, sides[..m], path[..m]);
    }
  }

  lemma ClimbStep(cur: Hash, sides: seq<Side>, path: seq<Hash>)
    requires |sides| == |path| && path != []
    ensures var m := |path| - 1;
      Climb(cur, sides, path) == Join(Climb(cur, sides[..m], path[..m]), sides[m], path[m])
  {
  }

  /** The node below the last join, seen from the root. */
  lemma LastJoin(cur: Hash, sides: seq<Side>, path: seq<Hash>, left: seq<Hash>, right: seq<Hash>)
    requires |sides| == |path| && left != [] && right != [] && cur.LeafHash?
    requires Climb(cur, sides, path) == NodeHash(TreeHash(left), TreeHash(right))
    ensures path != []
    ensures var m := |path| - 1;
      if sides[m] == OnLeft then
        Climb(cur, sides[..m], path[..m]) == TreeHash(left) && path[m] == TreeHash(right)
      else
        Climb(cur, sides[..m], path[..m]) == TreeHash(right) && path[m] == TreeHash(left)
  {
    hide TreeHash;
    if path != [] {
      ClimbStep(cur, sides, path);
    }
  }

  /** An opening of one part, with its sibling added, is an opening of the whole. */
  lemma OpeningExtends(leaves: seq<Hash>, q: nat, data: Bytes, sides: seq<Side>, path: seq<Hash>) returns (p: nat)
    requires 2 <= |leaves| && |sides| == |path| && path != []
    requires var k, m := SplitPoint(|leaves|), |path| - 1;
      var cut := if sides[m] == OnLeft then (leaves[..k], leaves[k..]) else (leaves[k..], leaves[..k]);
      OpensAt(cut.0, q, data, sides[..m], path[..m]) && path[m] == TreeHash(cut.1)
    ensures OpensAt(leaves, p, data, sides, path)
  {
    hide TreeHash;
    var m := |path| - 1;
    assert sides == sides[..m] + [sides[m]] && path == path[..m] + [path[m]];
    p := if sides[m] == OnLeft then q else SplitPoint(|leaves|) + q;
  }

  /** Nothing else leads to the root: a climb that ends in it started at some leaf, went the way of that leaf
      and used exactly its path. */
  lemma {:induction false} RootHasOpening(
      leaves: seq<Hash>, data: Bytes, sides: seq<Side>, path: seq<Hash>) returns (p: nat)
    requires leaves != [] && AllData(leaves) && |sides| == |path|
    requires Climb(LeafHash(data), sides, path) == TreeHash(leaves)
    ensures OpensAt(leaves, p, data, sides, path)
    decreases |leaves|
  {
    if |leaves| == 1 {
      p := 0;
    } else {
      hide TreeHash, Climb, OpensAt;
      var k := SplitPoint(|leaves|);
      TreeHashStep(leaves, leaves[..k], leaves[k..]);
      LastJoin(LeafHash(data), sides, path, leaves[..k], leaves[k..]);
      var m := |path| - 1;
      var part := if sides[m] == OnLeft then leaves[..k] else leaves[k..];
      var q := RootHasOpening(part, data, sides[..m], path[..m]);
      p := OpeningExtends(leaves, q, data, sides, path);
    }
  }

  /** The two directions together, for every list of data leaves, every sequence of sides and every path. */
  lemma ClimbReachesRootIff(leaves: seq<Hash>, data: Bytes, sides: seq<Side>, path: seq<Hash>)
    requires leaves != [] && AllData(leaves) && |sides| == |path|
    ensures Climb(LeafHash(data), sides, path) == TreeHash(leaves)
       <==> exists p :: OpensAt(leaves, p, data, sides, path)
  {
    if Climb(LeafHash(data), sides, path) == TreeHash(leaves) {
      var p := RootHasOpening(leaves, data, sides, path);
    }
    forall p | OpensAt(leaves, p, data, sides, path)
      ensures Climb(LeafHash(data), sides, path) == TreeHash(leaves)
    {
      OpeningReachesRoot(leaves, p, data, sides, path);
    }
  }

  /** The proof shows data at leaf p: p holds it, the path is the one of p and the sides are those of p. */
  ghost predicate ShowsLeaf(payloads: seq<Bytes>, p: nat, data: Bytes, sides: seq<Side>, path: seq<Hash>) {
    && p < |payloads|
    && payloads[p] == data
    && sides == LeafSides(p, |payloads|)
    && path == AuditPath(LeavesOf(payloads), p)
  }

  lemma ShowsLeafOpens(payloads: seq<Bytes>, p: nat, data: Bytes, sides: seq<Side>, path: seq<Hash>)
    ensures OpensAt(LeavesOf(payloads), p, data, sides, path) <==> ShowsLeaf(payloads, p, data, sides, path)
  {
    if p < |payloads| {
      assert LeavesOf(payloads)[p] == LeafHash(payloads[p]);
    }
  }

  /** A climb ends in the root of a tree exactly when it starts from one of its leaves and follows its path. */
  lemma ClimbShowsLeaf(payloads: seq<Bytes>, data: Bytes, sides: seq<Side>, path: seq<Hash>)
    requires |sides| == |path|
    ensures HexEncode(Climb(LeafHash(data), sides, path)) == RootText(LeavesOf(payloads))
       <==> exists p :: ShowsLeaf(payloads, p, data, sides, path)
  {
    if payloads != [] {
      ClimbReachesRootIff(LeavesOf(payloads), data, sides, path);
      forall p
        ensures OpensAt(LeavesOf(payloads), p, data, sides, path) <==> ShowsLeaf(payloads, p, data, sides, path)
      {
        ShowsLeafOpens(payloads, p, data, sides, path);
      }
    }
  }

  lemma SecondOfTwo(a: Bytes, b: Bytes)
    ensures LeafSides(1, 2) == [OnRight]
    ensures AuditPath(LeavesOf([a, b]), 1) == [LeafHash(a)]
  {
    var leaves := LeavesOf([a, b]);
    assert leaves == [LeafHash(a), LeafHash(b)];
    assert SplitPoint(2) == 1;
    assert leaves[..1] == [LeafHash(a)] && leaves[1..] == [LeafHash(b)];
    AuditPathStep(leaves, 1, [LeafHash(a)], [LeafHash(b)]);
  }

  /** In a tree of three leaves the last one has a path of one node. */
  lemma ThirdOfThree(a: Bytes, b: Bytes, c: Bytes)
    ensures LeafSides(2, 3) == [OnRight]
    ensures AuditPath(LeavesOf([a, b, c]), 2) == [NodeHash(LeafHash(a), LeafHash(b))]
  {
    var leaves, pair := LeavesOf([a, b, c]), [LeafHash(a), LeafHash(b)];
    assert leaves == [LeafHash(a), LeafHash(b), LeafHash(c)];
    assert SplitPoint(3) == 2 && SplitPoint(2) == 1;
    assert leaves[..2] == pair && leaves[2..] == [LeafHash(c)];
    assert pair[..1] == [LeafHash(a)] && pair[1..] == [LeafHash(b)];
    assert TreeHash(pair) == NodeHash(LeafHash(a), LeafHash(b));
    AuditPathStep(leaves, 2, pair, [LeafHash(c)]);
  }
}
