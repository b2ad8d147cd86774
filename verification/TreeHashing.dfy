/** The tree hash of section 2.1 of RFC 6962 and the recursive form that the engine computes. */
module TreeHashing {
  import opened Hashing
  import opened Powers

  /** The tree hash of a whole list: the reference definition. */
  function TreeHash(leaves: seq<Hash>): Hash
    requires leaves != []
  {
    if |leaves| == 1 then leaves[0]
    else
      var k := SplitPoint(|leaves|);
      NodeHash(TreeHash(leaves[..k]), TreeHash(leaves[k..]))
  }

  /** The hash of the range [lo, hi), as the engine recurses. */
  function SubtreeHash(leaves: seq<Hash>, lo: nat, hi: nat): Hash
    requires lo < hi <= |leaves|
    decreases hi - lo
  {
    if hi - lo == 1 then leaves[lo]
    else
      var k := SplitPoint(hi - lo);
      NodeHash(SubtreeHash(leaves, lo, lo + k), SubtreeHash(leaves, lo + k, hi))
  }

  lemma SliceOfSlice<T>(s: seq<T>, lo: nat, mid: nat, hi: nat)
    requires lo <= mid <= hi <= |s|
    ensures s[lo..hi][..mid - lo] == s[lo..mid] && s[lo..hi][mid - lo..] == s[mid..hi]
  {
  }

  /** One step of the definition, with the two parts named. */
  lemma TreeHashStep(leaves: seq<Hash>, left: seq<Hash>, right: seq<Hash>)
    requires 2 <= |leaves|
    requires left == leaves[..SplitPoint(|leaves|)] && right == leaves[SplitPoint(|leaves|)..]
    ensures TreeHash(leaves) == NodeHash(TreeHash(left), TreeHash(right))
  {
  }

  lemma SingleLeafHash(leaves: seq<Hash>)
    requires |leaves| == 1
    ensures TreeHash(leaves) == leaves[0]
  {
  }

  lemma {:induction false} SubtreeIsTreeOfSlice(leaves: seq<Hash>, lo: nat, hi: nat)
    requires lo < hi <= |leaves|
    ensures SubtreeHash(leaves, lo, hi) == TreeHash(leaves[lo..hi])
    decreases hi - lo
  {
    hide TreeHash, SplitPoint;
    if hi - lo == 1 {
      SingleLeafHash(leaves[lo..hi]);
    } else {
      var mid := lo + SplitPoint(hi - lo);
      SubtreeIsTreeOfSlice(leaves, lo, mid);
      SubtreeIsTreeOfSlice(leaves, mid, hi);
      SliceOfSlice(leaves, lo, mid, hi);
      TreeHashStep(leaves[lo..hi], leaves[lo..mid], leaves[mid..hi]);
    }
  }

  /** Appending leaves the hash of every earlier range unchanged. */
  lemma PrefixStable(leaves: seq<Hash>, more: seq<Hash>, lo: nat, hi: nat)
    requires lo < hi <= |leaves|
    ensures SubtreeHash(leaves + more, lo, hi) == SubtreeHash(leaves, lo, hi)
    ensures SubtreeHash(leaves + more, 0, hi) == TreeHash(leaves[..hi])
  {
    SubtreeIsTreeOfSlice(leaves + more, lo, hi);
    SubtreeIsTreeOfSlice(leaves, lo, hi);
    SubtreeIsTreeOfSlice(leaves + more, 0, hi);
    assert (leaves + more)[lo..hi] == leaves[lo..hi];
    assert (leaves + more)[0..hi] == leaves[..hi];
  }

  /** The root names the whole list of leaves, its length included. */
  lemma {:induction false} TreeHashInjective(a: seq<Hash>, b: seq<Hash>)
    requires a != [] && b != [] && AllData(a) && AllData(b)
    ensures TreeHash(a) == TreeHash(b) <==> a == b
  {
    if TreeHash(a) == TreeHash(b) && |a| != 1 && |b| != 1 {
      var i, j := SplitPoint(|a|), SplitPoint(|b|);
      TreeHashInjective(a[..i], b[..j]);
      TreeHashInjective(a[i..], b[j..]);
      assert a == a[..i] + a[i..] && b == b[..j] + b[j..];
    }
  }

  /** Both parts of a split need at least one level less. */
  lemma HalvesAreShallower(n: nat)
    requires 2 <= n
    ensures CeilLog2(SplitPoint(n)) == CeilLog2(n) - 1
    ensures CeilLog2(n - SplitPoint(n)) <= CeilLog2(n) - 1
  {
    var k, e := SplitPoint(n), SplitExp(n);
    CeilLog2Least(n, e + 1);
    CeilLog2Least(n, e);
    CeilLog2Least(k, e);
    CeilLog2Least(n - k, e);
    if CeilLog2(k) < e {
      CeilLog2Least(k, e - 1);
      assert false;
    }
  }

  /** The computation itself, counting the node hashes it performs and how deep it recurses. */
  method ComputeSubtreeHash(leaves: seq<Hash>, lo: nat, hi: nat)
    returns (h: Hash, ghost nodes: nat, ghost depth: nat)
    requires lo < hi <= |leaves| <= WORD / 2
    ensures h == TreeHash(leaves[lo..hi])
    ensures h == SubtreeHash(leaves, lo, hi)
    ensures nodes == hi - lo - 1
    ensures depth == CeilLog2(hi - lo)
    decreases hi - lo
  {
    hide TreeHash, SplitPoint;
    SubtreeIsTreeOfSlice(leaves, lo, hi);
    if hi - lo == 1 {
      return leaves[lo], 0, 0;
    }
    var k := LargestPow2LessThan(hi - lo);
    var l, nl, dl := ComputeSubtreeHash(leaves, lo, lo + k);
    var r, nr, dr := ComputeSubtreeHash(leaves, lo + k, hi);
    h := NodeHash(l, r);
    nodes := nl + nr + 1;
    depth := 1 + if dl < dr then dr else dl;
    HalvesAreShallower(hi - lo);
  }
}
