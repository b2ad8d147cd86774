/** The append-only tree of services/merkle-engine/src/tree.rs. */
module MerkleTree {
  import opened Hashing
  import opened Powers
  import opened TreeHashing

  /** The root text of a list of leaf hashes: empty text for no leaves. */
  function RootText(leaves: seq<Hash>): HexText {
    if leaves == [] then EmptyText else HexEncode(TreeHash(leaves))
  }

  /** The leaf list that a sequence of appends produces. */
  function LeavesOf(payloads: seq<Bytes>): seq<Hash> {
    seq(|payloads|, i requires 0 <= i < |payloads| => LeafHash(payloads[i]))
  }

  class Tree {
    var leaves: seq<Hash>

    /** What was appended, in order. */
    ghost var payloads: seq<Bytes>

    ghost predicate Valid()
      reads this
    {
      leaves == LeavesOf(payloads)
    }

    constructor ()
      ensures Valid() && payloads == []
    {
      leaves, payloads := [], [];
    }

    method Append(data: Bytes) returns (index: nat)
      requires Valid()
      modifies this
      ensures Valid() && payloads == old(payloads) + [data]
      ensures index == |old(payloads)| && leaves == old(leaves) + [LeafHash(data)]
    {
      leaves := leaves + [LeafHash(data)];
      payloads := payloads + [data];
      index := |leaves| - 1;
    }

    /** The engine indexes its leaves with 64-bit words, so the split loop is only ever run up to 2^63. */
    method Root() returns (text: HexText)
      requires Valid() && |leaves| <= WORD / 2
      ensures text == RootText(LeavesOf(payloads))
      ensures payloads == [] ==> text == EmptyText
      ensures payloads != [] ==> text.Digits? && text.lowerCase && text.hash == TreeHash(LeavesOf(payloads))
    {
      if leaves == [] {
        return EmptyText;
      }
      var root, _, _ := ComputeSubtreeHash(leaves, 0, |leaves|);
      assert leaves[0..|leaves|] == leaves;
      text := HexEncode(root);
    }
  }

  lemma LeavesOfInjective(a: seq<Bytes>, b: seq<Bytes>)
    ensures AllData(LeavesOf(a))
    ensures LeavesOf(a) == LeavesOf(b) <==> a == b
  {
    if LeavesOf(a) == LeavesOf(b) {
      assert |a| == |LeavesOf(a)| == |b|;
      forall i | 0 <= i < |a| ensures a[i] == b[i] {
        assert LeavesOf(a)[i] == LeafHash(a[i]);
        assert LeavesOf(b)[i] == LeafHash(b[i]);
      }
    }
  }

  /** Two trees, empty ones included, show the same root text exactly when the same data was appended to them
      in the same order. Appending, dropping, changing or reordering data therefore always changes the root. */
  lemma RootTextInjective(a: seq<Bytes>, b: seq<Bytes>)
    ensures RootText(LeavesOf(a)) == RootText(LeavesOf(b)) <==> a == b
  {
    LeavesOfInjective(a, b);
    LeavesOfInjective(b, a);
    if a != [] && b != [] {
      TreeHashInjective(LeavesOf(a), LeavesOf(b));
    }
  }

  /** The data of the leaves below a hash, from left to right. */
  function Frontier(h: Hash): seq<Bytes> {
    match h
    case LeafHash(data) => [data]
    case NodeHash(left, right) => Frontier(left) + Frontier(right)
    case OtherBytes(_) => []
  }

  /** Every node has a perfect left part, which is no smaller than its right part. */
  ghost predicate IsMerkle(h: Hash) {
    match h
    case LeafHash(_) => true
    case NodeHash(left, right) =>
      && IsMerkle(left) && IsMerkle(right)
      && (exists e :: |Frontier(left)| == Pow2(e)) && |Frontier(right)| <= |Frontier(left)|
    case OtherBytes(_) => false
  }

  lemma LeavesOfParts(payloads: seq<Bytes>, k: nat)
    requires k <= |payloads|
    ensures LeavesOf(payloads)[..k] == LeavesOf(payloads[..k])
    ensures LeavesOf(payloads)[k..] == LeavesOf(payloads[k..])
  {
  }

  lemma SingleShape(payloads: seq<Bytes>)
    requires |payloads| == 1
    ensures var h := TreeHash(LeavesOf(payloads)); IsMerkle(h) && Frontier(h) == payloads
  {
    assert TreeHash(LeavesOf(payloads)) == LeafHash(payloads[0]);
  }

  lemma JoinedShape(l: Hash, r: Hash, n: nat)
    requires IsMerkle(l) && IsMerkle(r) && 2 <= n
    requires |Frontier(l)| == SplitPoint(n) && |Frontier(r)| == n - SplitPoint(n)
    ensures IsMerkle(NodeHash(l, r)) && Frontier(NodeHash(l, r)) == Frontier(l) + Frontier(r)
  {
    hide SplitPoint;
  }

  lemma {:induction false} TreeHashShape(payloads: seq<Bytes>)
    requires payloads != []
    ensures var h := TreeHash(LeavesOf(payloads)); IsMerkle(h) && Frontier(h) == payloads
    decreases |payloads|
  {
    hide IsMerkle, Frontier, TreeHash, SplitPoint;
    if |payloads| == 1 {
      SingleShape(payloads);
    } else {
      var k := SplitPoint(|payloads|);
      var left, right := payloads[..k], payloads[k..];
      LeavesOfParts(payloads, k);
      TreeHashShape(left);
      TreeHashShape(right);
      TreeHashStep(LeavesOf(payloads), LeavesOf(left), LeavesOf(right));
      JoinedShape(TreeHash(LeavesOf(left)), TreeHash(LeavesOf(right)), |payloads|);
      assert left + right == payloads;
    }
  }

  lemma {:induction false} ShapeIsTreeHash(h: Hash)
    requires IsMerkle(h)
    ensures Frontier(h) != [] && h == TreeHash(LeavesOf(Frontier(h)))
  {
    if h.NodeHash? {
      var l, r := Frontier(h.left), Frontier(h.right);
      ShapeIsTreeHash(h.left);
      ShapeIsTreeHash(h.right);
      var e :| |l| == Pow2(e);
      SplitPointUnique(|l + r|, e);
      LeavesOfParts(l + r, |l|);
      assert (l + r)[..|l|] == l && (l + r)[|l|..] == r;
      TreeHashStep(LeavesOf(l + r), LeavesOf(l), LeavesOf(r));
    }
  }

  /** What the tree hash is, without its recursion: the one term whose leaves are the payloads in order and whose every
      left part is perfect and at least as large as the right part. */
  lemma TreeHashIff(payloads: seq<Bytes>, h: Hash)
    requires payloads != []
    ensures h == TreeHash(LeavesOf(payloads)) <==> IsMerkle(h) && Frontier(h) == payloads
  {
    TreeHashShape(payloads);
    if IsMerkle(h) && Frontier(h) == payloads {
      ShapeIsTreeHash(h);
    }
  }

  /** Replaying any prefix of the payloads gives the hash of that range inside the larger tree. */
  lemma ReplayedPrefix(payloads: seq<Bytes>, n: nat)
    requires 0 < n <= |payloads|
    ensures RootText(LeavesOf(payloads[..n])) == HexEncode(SubtreeHash(LeavesOf(payloads), 0, n))
  {
    SubtreeIsTreeOfSlice(LeavesOf(payloads), 0, n);
    assert LeavesOf(payloads)[0..n] == LeavesOf(payloads[..n]);
  }
}
