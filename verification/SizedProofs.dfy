/** The inclusion-proof verifier of the design record (merkle.md), which follows the tree size while it climbs. */
module SizedProofs {
  import opened Hashing
  import opened Powers
  import opened TreeHashing
  import opened MerkleTree
  import opened AuditPaths

  type Word = x: nat | x < WORD witness 0

  datatype EngineError = LeafOutOfRange(index: nat, size: nat) | BadHex | ProofInvalid

  datatype Result<T> = Ok(value: T) | Err(error: EngineError)

  datatype Decoded = Digest(hash: Hash) | OtherLength | Undecodable

  function HexDecode(text: HexText): Decoded {
    match text
    case Digits(h, _) => Digest(h)
    case NotHex(_) => Undecodable
    case _ => OtherLength
  }

  function HexPath(path: seq<Hash>): seq<HexText> {
    seq(|path|, i requires 0 <= i < |path| => HexEncode(path[i]))
  }

  /** The digests of a path; the first text that is not one decides the error. */
  function DecodePath(texts: seq<HexText>): (r: Result<seq<Hash>>)
    ensures r.Ok? ==> |r.value| == |texts|
  {
    if texts == [] then Ok([])
    else
      var m := |texts| - 1;
      match DecodePath(texts[..m])
      case Err(e) => Err(e)
      case Ok(hashes) =>
        match HexDecode(texts[m])
        case Undecodable => Err(BadHex)
        case OtherLength => Err(ProofInvalid)
        case Digest(h) => Ok(hashes + [h])
  }

  lemma {:induction false} FirstErrorDecides(texts: seq<HexText>, i: nat)
    requires i <= |texts| && DecodePath(texts[..i]).Err?
    ensures DecodePath(texts) == DecodePath(texts[..i])
  {
    if i == |texts| {
      assert texts[..i] == texts;
    } else {
      assert texts[..|texts| - 1][..i] == texts[..i];
      FirstErrorDecides(texts[..|texts| - 1], i);
    }
  }

  lemma {:induction false} DecodeHexPath(path: seq<Hash>)
    ensures DecodePath(HexPath(path)) == Ok(path)
  {
    if path != [] {
      var m := |path| - 1;
      assert HexPath(path)[..m] == HexPath(path[..m]);
      DecodeHexPath(path[..m]);
      assert path == path[..m] + [path[m]];
    }
  }

  // ---- the sides that an index and a size name, on 64-bit words ----

  /** Addition of 1 on a 64-bit word wraps around. */
  function Next(x: Word): Word {
    if x == WORD - 1 then 0 else x + 1
  }

  function SizeAt(size: Word, i: nat): Word {
    if i == 0 then size else Next(SizeAt(size, i - 1)) / 2
  }

  function SizedSide(idx: Word, size: Word): Side {
    if idx % 2 == 1 || Next(idx) == size then OnRight else OnLeft
  }

  lemma HalvedInWord(idx: Word, i: nat)
    ensures Halved(idx, i) < WORD
  {
  }

  function SideAt(idx: Word, size: Word, i: nat): Side {
    HalvedInWord(idx, i);
    SizedSide(Halved(idx, i), SizeAt(size, i))
  }

  function SizedSides(idx: Word, size: Word, levels: nat): seq<Side> {
    seq(levels, i requires 0 <= i < levels => SideAt(idx, size, i))
  }

  ghost predicate AllDigits(path: seq<HexText>) {
    forall i :: 0 <= i < |path| ==> path[i].Digits?
  }

  /** The fold of the design record: index and size are halved at every level, size + 1 on a 64-bit word. */
  function SizedFold(cur: Hash, idx: Word, size: Word, path: seq<HexText>): Hash
    requires AllDigits(path)
    decreases |path|
  {
    if path == [] then cur
    else
      var sibling := path[0].hash;
      SizedFold(if idx % 2 == 1 || (idx + 1) % WORD == size then NodeHash(sibling, cur) else NodeHash(cur, sibling),
                idx / 2, (size + 1) % WORD / 2, path[1..])
  }

  lemma DecodeStep(path: seq<HexText>, i: nat, hashes: seq<Hash>)
    requires i < |path| && DecodePath(path[..i]) == Ok(hashes)
    ensures match HexDecode(path[i])
      case Undecodable => DecodePath(path) == Err(BadHex)
      case OtherLength => DecodePath(path) == Err(ProofInvalid)
      case Digest(h) => DecodePath(path[..i + 1]) == Ok(hashes + [h])
  {
    assert path[..i + 1][..i] == path[..i];
    if !HexDecode(path[i]).Digest? {
      FirstErrorDecides(path, i + 1);
    }
  }

  lemma SizedClimbStep(cur: Hash, idx: Word, size: Word, hashes: seq<Hash>, sibling: Hash)
    ensures var i := |hashes|;
      Climb(cur, SizedSides(idx, size, i + 1), hashes + [sibling])
        == Join(Climb(cur, SizedSides(idx, size, i), hashes), SideAt(idx, size, i), sibling)
  {
    var sides := SizedSides(idx, size, |hashes| + 1);
    assert sides[..|hashes|] == SizedSides(idx, size, |hashes|);
    assert (hashes + [sibling])[..|hashes|] == hashes;
  }

  /** Text i is the first that is not a digest. */
  ghost predicate FirstBad(path: seq<HexText>, i: nat) {
    i < |path| && !path[i].Digits? && forall j :: 0 <= j < i ==> path[j].Digits?
  }

  datatype SizedProof = SizedProof(leafIndex: Word, treeSize: Word, root: HexText, path: seq<HexText>) {

    method Verify(leafData: Bytes) returns (r: Result<()>)
      ensures r == VerifyOutcome(this, leafData)
      ensures r == Err(BadHex) <==> root.NotHex? || exists i: nat :: FirstBad(path, i) && path[i].NotHex?
      ensures r == Ok(()) <==> root.Digits? && AllDigits(path)
                               && root.hash == SizedFold(LeafHash(leafData), leafIndex, treeSize, path)
      ensures r == Ok(()) || r == Err(BadHex) || r == Err(ProofInvalid)
    {
      hide SizedFold, FirstBad;
      OutcomeIff(this, leafData);
      var expectedRoot := HexDecode(root);
      if expectedRoot == Undecodable {
        return Err(BadHex);
      }
      var hash := LeafHash(leafData);
      var idx: Word, size: Word := leafIndex, treeSize;
      ghost var hashes: seq<Hash> := [];
      for i := 0 to |path|
        invariant idx == Halved(leafIndex, i) && size == SizeAt(treeSize, i)
        invariant DecodePath(path[..i]) == Ok(hashes)
        invariant hash == Climb(LeafHash(leafData), SizedSides(leafIndex, treeSize, i), hashes)
      {
        DecodeStep(path, i, hashes);
        var sibling := HexDecode(path[i]);
        if sibling == Undecodable {
          return Err(BadHex);
        }
        if sibling == OtherLength {
          return Err(ProofInvalid);
        }
        SizedClimbStep(LeafHash(leafData), leafIndex, treeSize, hashes, sibling.hash);
        hashes := hashes + [sibling.hash];
        if idx % 2 == 1 || Next(idx) == size {
          hash := NodeHash(sibling.hash, hash);
        } else {
          hash := NodeHash(hash, sibling.hash);
        }
        idx := idx / 2;
        size := Next(size) / 2;
      }
      assert path[..|path|] == path;
      r := if Digest(hash) == expectedRoot then Ok(()) else Err(ProofInvalid);
    }
  }

  /** The verdict: an undecodable root, then the first bad text of the path, then the climb against the root. */
  function VerifyOutcome(proof: SizedProof, data: Bytes): Result<()> {
    if HexDecode(proof.root).Undecodable? then Err(BadHex)
    else
      match DecodePath(proof.path)
      case Err(e) => Err(e)
      case Ok(hashes) =>
        var sides := SizedSides(proof.leafIndex, proof.treeSize, |hashes|);
        if HexDecode(proof.root) == Digest(Climb(LeafHash(data), sides, hashes)) then Ok(()) else Err(ProofInvalid)
  }

  // ---- the verdict without the recursion over texts ----

  function Hashes(path: seq<HexText>): seq<Hash>
    requires AllDigits(path)
  {
    seq(|path|, i requires 0 <= i < |path| => path[i].hash)
  }

  lemma {:induction false} DigitsDecode(path: seq<HexText>)
    requires AllDigits(path)
    ensures DecodePath(path) == Ok(Hashes(path))
  {
    if path != [] {
      var m := |path| - 1;
      DigitsDecode(path[..m]);
      assert Hashes(path) == Hashes(path[..m]) + [path[m].hash];
    }
  }

  lemma {:induction false} SizeAtFront(size: Word, i: nat)
    ensures SizeAt(size, i + 1) == SizeAt(Next(size) / 2, i)
  {
    if i != 0 {
      SizeAtFront(size, i - 1);
    }
  }

  lemma SizedSidesFront(idx: Word, n: Word, levels: nat)
    ensures SizedSides(idx, n, levels + 1)
         == [SizedSide(idx, n)] + SizedSides(idx / 2, Next(n) / 2, levels)
  {
    var a, b := SizedSides(idx, n, levels + 1), SizedSides(idx / 2, Next(n) / 2, levels);
    forall i | 0 <= i < levels ensures a[i + 1] == b[i] {
      HalvedFront(idx, i);
      SizeAtFront(n, i);
    }
  }

  lemma {:induction false} SizedFoldIsClimb(cur: Hash, idx: Word, size: Word, path: seq<HexText>)
    requires AllDigits(path)
    ensures SizedFold(cur, idx, size, path) == Climb(cur, SizedSides(idx, size, |path|), Hashes(path))
    decreases |path|
  {
    if path != [] {
      var side := SizedSide(idx, size);
      assert Next(size) == (size + 1) % WORD && Next(idx) == (idx + 1) % WORD;
      SizedSidesFront(idx, size, |path| - 1);
      ClimbFront(cur, SizedSides(idx, size, |path|), Hashes(path));
      assert Hashes(path)[1..] == Hashes(path[1..]);
      SizedFoldIsClimb(Join(cur, side, path[0].hash), idx / 2, Next(size) / 2, path[1..]);
    }
  }

  lemma FirstBadDecides(path: seq<HexText>, i: nat)
    requires FirstBad(path, i)
    ensures DecodePath(path) == Err(if path[i].NotHex? then BadHex else ProofInvalid)
  {
    DigitsDecode(path[..i]);
    assert path[..i + 1][..i] == path[..i];
    FirstErrorDecides(path, i + 1);
  }

  lemma {:induction false} HasFirstBad(path: seq<HexText>) returns (i: nat)
    requires !AllDigits(path)
    ensures FirstBad(path, i)
  {
    var m := |path| - 1;
    if AllDigits(path[..m]) {
      i := m;
      assert forall j :: 0 <= j < m ==> path[..m][j] == path[j];
    } else {
      i := HasFirstBad(path[..m]);
      assert forall j :: 0 <= j <= i ==> path[..m][j] == path[j];
    }
  }

  /** Every verdict in terms of the texts: letter case does not matter, a text that is not hexadecimal is reported as
      such unless an earlier path text has another length, and the rest is decided by the fold. */
  lemma OutcomeIff(proof: SizedProof, data: Bytes)
    ensures VerifyOutcome(proof, data) == Err(BadHex)
       <==> proof.root.NotHex? || exists i: nat :: FirstBad(proof.path, i) && proof.path[i].NotHex?
    ensures VerifyOutcome(proof, data) == Ok(())
       <==> proof.root.Digits? && AllDigits(proof.path)
            && proof.root.hash == SizedFold(LeafHash(data), proof.leafIndex, proof.treeSize, proof.path)
    ensures VerifyOutcome(proof, data).Ok? || VerifyOutcome(proof, data).error in {BadHex, ProofInvalid}
  {
    if AllDigits(proof.path) {
      DigitsDecode(proof.path);
      SizedFoldIsClimb(LeafHash(data), proof.leafIndex, proof.treeSize, proof.path);
    } else {
      var i := HasFirstBad(proof.path);
      FirstBadDecides(proof.path, i);
      assert forall j: nat :: FirstBad(proof.path, j) ==> j == i;
    }
  }

  /** Generation of the proof for a leaf; an index outside the tree is refused. */
  function Generate(leaves: seq<Hash>, leafIndex: Word): Result<SizedProof>
    requires |leaves| < WORD
  {
    if |leaves| <= leafIndex then Err(LeafOutOfRange(leafIndex, |leaves|))
    else Ok(SizedProof(leafIndex, |leaves|, RootText(leaves),
                       HexPath(InclusionPath(leaves, leafIndex, 0, |leaves|))))
  }

  // ---- the way of a leaf, read from the bottom ----

  lemma {:induction false} LastLeafAlwaysRight(n: nat, i: nat)
    requires 1 <= n && i < Depth(n - 1, n)
    ensures LeafSides(n - 1, n)[i] == OnRight
  {
    var k := SplitPoint(n);
    if i < Depth(n - 1, n) - 1 {
      LastLeafAlwaysRight(n - k, i);
    }
  }

  lemma LeafSidesStep(idx: nat, n: nat)
    requires 2 <= n && idx < n
    ensures var k := SplitPoint(n);
      LeafSides(idx, n) ==
        if idx < k then LeafSides(idx, k) + [OnLeft] else LeafSides(idx - k, n - k) + [OnRight]
  {
  }

  /** The split of n leaves is the split of their pairs, on the same side of it. */
  lemma SplitOfPairs(idx: nat, n: nat)
    requires 3 <= n && idx < n
    ensures var k, j := SplitPoint(n), SplitPoint((n + 1) / 2);
      && k == 2 * j
      && (idx < k <==> idx / 2 < j)
      && (k + 1) / 2 == j && (n - k + 1) / 2 == (n + 1) / 2 - j
      && (k <= idx ==> (idx - k) / 2 == idx / 2 - j)
  {
  }

  lemma SplitIsEven(n: nat)
    requires 3 <= n
    ensures 2 <= SplitPoint(n) && SplitPoint(n) % 2 == 0
  {
    SplitOfPairs(0, n);
    hide SplitPoint;
  }

  lemma EvenRest(n: nat, k: nat)
    requires k < n && n % 2 == 0 && k % 2 == 0
    ensures (n - k) % 2 == 0 && 2 <= n - k
  {
  }

  /** A leaf with a neighbour keeps it in its own part of the split. */
  lemma NeighbourInPart(idx: nat, n: nat)
    requires 3 <= n && idx < n && (idx + 1 < n || n % 2 == 0)
    ensures var k := SplitPoint(n);
      && 2 <= k && k % 2 == 0
      && (k <= idx ==> 2 <= n - k && (idx - k + 1 < n - k || (n - k) % 2 == 0))
  {
    SplitIsEven(n);
    if n % 2 == 0 {
      EvenRest(n, SplitPoint(n));
    }
    hide SplitPoint;
  }

  function PairSide(idx: nat): Side {
    if idx % 2 == 1 then OnRight else OnLeft
  }

  lemma PairOfTwo(idx: nat)
    requires idx < 2
    ensures LeafSides(idx, 2) == [PairSide(idx)] + LeafSides(idx / 2, (2 + 1) / 2)
  {
  }

  lemma Regroup<T>(first: T, middle: seq<T>, last: T)
    ensures [first] + middle + [last] == [first] + (middle + [last])
  {
  }

  lemma PairUnderLeft(idx: nat, n: nat)
    requires 3 <= n && idx < SplitPoint(n)
    requires var k := SplitPoint(n); LeafSides(idx, k) == [PairSide(idx)] + LeafSides(idx / 2, (k + 1) / 2)
    ensures LeafSides(idx, n) == [PairSide(idx)] + LeafSides(idx / 2, (n + 1) / 2)
  {
    var k := SplitPoint(n);
    SplitOfPairs(idx, n);
    LeafSidesStep(idx, n);
    LeafSidesStep(idx / 2, (n + 1) / 2);
    hide LeafSides, SplitPoint;
    Regroup(PairSide(idx), LeafSides(idx / 2, (k + 1) / 2), OnLeft);
  }

  lemma PairUnderRight(idx: nat, n: nat)
    requires 3 <= n && SplitPoint(n) <= idx < n
    requires var y, rest := idx - SplitPoint(n), n - SplitPoint(n);
      LeafSides(y, rest) == [PairSide(y)] + LeafSides(y / 2, (rest + 1) / 2)
    ensures LeafSides(idx, n) == [PairSide(idx)] + LeafSides(idx / 2, (n + 1) / 2)
  {
    var y, rest := idx - SplitPoint(n), n - SplitPoint(n);
    hide LeafSides, SplitPoint;
    SplitOfPairs(idx, n);
    LeafSidesStep(idx, n);
    LeafSidesStep(idx / 2, (n + 1) / 2);
    assert PairSide(y) == PairSide(idx);
    Regroup(PairSide(idx), LeafSides(y / 2, (rest + 1) / 2), OnRight);
  }

  /** Pairing up neighbours turns a tree of n leaves into one of ceil(n / 2): a leaf that has a neighbour first
      joins it and then goes the way of the pair. */
  lemma {:induction false} PairFirst(idx: nat, n: nat)
    requires 2 <= n && idx < n && (idx + 1 < n || n % 2 == 0)
    ensures LeafSides(idx, n) == [PairSide(idx)] + LeafSides(idx / 2, (n + 1) / 2)
    decreases n
  {
    hide LeafSides, SplitPoint;
    if n == 2 {
      PairOfTwo(idx);
    } else {
      var k := SplitPoint(n);
      NeighbourInPart(idx, n);
      if idx < k {
        PairFirst(idx, k);
        PairUnderLeft(idx, n);
      } else {
        PairFirst(idx - k, n - k);
        PairUnderRight(idx, n);
      }
    }
  }

  /** Once idx + 1 == size, it stays so while both are halved. */
  lemma {:induction false} LastStaysLast(n: Word, i: nat)
    requires 1 <= n < WORD - 1
    ensures 1 <= SizeAt(n, i) <= n && Halved(n - 1, i) + 1 == SizeAt(n, i)
  {
    if i != 0 {
      LastStaysLast(n, i - 1);
    }
  }

  lemma LastLeafSides(n: nat)
    requires 1 <= n < WORD - 1
    ensures SizedSides(n - 1, n, Depth(n - 1, n)) == LeafSides(n - 1, n)
  {
    var d := Depth(n - 1, n);
    var named, taken := SizedSides(n - 1, n, d), LeafSides(n - 1, n);
    forall i | 0 <= i < d ensures named[i] == taken[i] {
      LastStaysLast(n, i);
      LastLeafAlwaysRight(n, i);
    }
  }

  /** For every size and every leaf, index and size together name the way of the leaf. */
  lemma {:induction false} SizedSidesAreLeafSides(idx: nat, n: nat)
    requires idx < n < WORD - 1
    ensures SizedSides(idx, n, Depth(idx, n)) == LeafSides(idx, n)
    decreases n
  {
    if idx + 1 == n {
      LastLeafSides(n);
    } else {
      PairFirst(idx, n);
      hide LeafSides, SizedSides;
      var half := (n + 1) / 2;
      SizedSidesAreLeafSides(idx / 2, half);
      SizedSidesFront(idx, n, Depth(idx / 2, half));
    }
  }

  // ---- round trip and binding ----

  ghost predicate Accepts(proof: SizedProof, data: Bytes) {
    VerifyOutcome(proof, data) == Ok(())
  }

  lemma GeneratedParts(leaves: seq<Hash>, idx: nat)
    requires idx < |leaves| < WORD
    ensures Generate(leaves, idx).Ok?
    ensures var proof := Generate(leaves, idx).value;
      && proof.leafIndex == idx && proof.treeSize == |leaves| && proof.root == RootText(leaves)
      && proof.path == HexPath(AuditPath(leaves, idx))
      && DecodePath(proof.path) == Ok(AuditPath(leaves, idx)) && |proof.path| == Depth(idx, |leaves|)
  {
    hide AuditPath, InclusionPath, TreeHash, DecodePath, LeafSides;
    assert leaves[0..|leaves|] == leaves;
    InclusionIsAuditPath(leaves, idx, 0, |leaves|);
    PathLengthIsDepth(leaves, idx);
    DecodeHexPath(AuditPath(leaves, idx));
  }

  /** Exactly what is accepted against the root of a tree, for every index, size and path. */
  lemma SizedAcceptedExactly(payloads: seq<Bytes>, proof: SizedProof, data: Bytes)
    requires proof.root == RootText(LeavesOf(payloads))
    ensures Accepts(proof, data)
       <==> DecodePath(proof.path).Ok? && exists p :: ShowsLeaf(payloads, p, data,
                                SizedSides(proof.leafIndex, proof.treeSize, |proof.path|), DecodePath(proof.path).value)
  {
    if DecodePath(proof.path).Ok? {
      ClimbShowsLeaf(payloads, data,
                     SizedSides(proof.leafIndex, proof.treeSize, |proof.path|), DecodePath(proof.path).value);
    }
  }

  lemma BindingAtDepth(payloads: seq<Bytes>, proof: SizedProof, data: Bytes)
    requires proof.root == RootText(LeavesOf(payloads)) && proof.treeSize == |payloads| < WORD - 1
    requires proof.leafIndex < |payloads| && |proof.path| == Depth(proof.leafIndex, |payloads|)
    ensures Accepts(proof, data)
       <==> payloads[proof.leafIndex] == data
            && DecodePath(proof.path) == Ok(AuditPath(LeavesOf(payloads), proof.leafIndex))
  {
    var idx, n := proof.leafIndex, |payloads|;
    SizedAcceptedExactly(payloads, proof, data);
    SizedSidesAreLeafSides(idx, n);
    if DecodePath(proof.path).Ok? {
      var hashes := DecodePath(proof.path).value;
      if payloads[idx] == data && hashes == AuditPath(LeavesOf(payloads), idx) {
        assert ShowsLeaf(payloads, idx, data, LeafSides(idx, n), hashes);
      }
      forall p | ShowsLeaf(payloads, p, data, LeafSides(idx, n), hashes) ensures p == idx {
        LeafSidesInjective(p, idx, n);
      }
    }
  }

  /** With the true size, whatever index is claimed: the proof is accepted with an index inside the tree and a path
      of the generated length exactly when it is for this data, at this index, by this path. */
  lemma SizedBinding(payloads: seq<Bytes>, proof: SizedProof, data: Bytes)
    requires proof.root == RootText(LeavesOf(payloads)) && proof.treeSize == |payloads| < WORD - 1
    ensures Accepts(proof, data)
            && proof.leafIndex < |payloads| && |proof.path| == Depth(proof.leafIndex, |payloads|)
       <==> proof.leafIndex < |payloads| && payloads[proof.leafIndex] == data
            && DecodePath(proof.path) == Ok(AuditPath(LeavesOf(payloads), proof.leafIndex))
  {
    if proof.leafIndex < |payloads| {
      PathLengthIsDepth(LeavesOf(payloads), proof.leafIndex);
      if |proof.path| == Depth(proof.leafIndex, |payloads|) {
        BindingAtDepth(payloads, proof, data);
      }
    }
  }

  /** Round trip for every tree size and every index: the generated proof is accepted for the data of its leaf
      and for no other data. */
  lemma SizedRoundTrip(payloads: seq<Bytes>, idx: Word, data: Bytes)
    requires |payloads| < WORD - 1
    ensures Generate(LeavesOf(payloads), idx).Ok? <==> idx < |payloads|
    ensures |payloads| <= idx ==> Generate(LeavesOf(payloads), idx) == Err(LeafOutOfRange(idx, |payloads|))
    ensures idx < |payloads| ==>
      var proof := Generate(LeavesOf(payloads), idx).value;
      && (Accepts(proof, data) <==> data == payloads[idx])
      && proof.leafIndex == idx && proof.treeSize == |payloads| && |proof.path| == Depth(idx, |payloads|)
      && proof.root == Digits(TreeHash(LeavesOf(payloads)), true)
      && forall i :: 0 <= i < |proof.path| ==> proof.path[i].Digits? && proof.path[i].lowerCase
  {
    if idx < |payloads| {
      GeneratedParts(LeavesOf(payloads), idx);
      SizedBinding(payloads, Generate(LeavesOf(payloads), idx).value, data);
    }
  }

  /** Neither the index nor the path length is checked, and together they decide what an accepted proof says about
      the index: the leaf that is shown is the one claimed exactly when the index is inside the tree and the path
      has the generated length. */
  lemma ShownLeafIsClaimedIff(payloads: seq<Bytes>, proof: SizedProof, data: Bytes, p: nat)
    requires proof.treeSize == |payloads| < WORD - 1 && DecodePath(proof.path).Ok?
    requires ShowsLeaf(payloads, p, data,
                       SizedSides(proof.leafIndex, proof.treeSize, |proof.path|), DecodePath(proof.path).value)
    ensures p == proof.leafIndex
       <==> proof.leafIndex < |payloads| && |proof.path| == Depth(proof.leafIndex, |payloads|)
  {
    var idx, n := proof.leafIndex, |payloads|;
    assert |SizedSides(idx, n, |proof.path|)| == |proof.path|;
    if idx < n && |proof.path| == Depth(idx, n) {
      SizedSidesAreLeafSides(idx, n);
      LeafSidesInjective(p, idx, n);
    }
  }

  /** Index 3 of a tree of two leaves is accepted, for the data of leaf 1. */
  lemma IndexOutsideIsAccepted(a: Bytes, b: Bytes)
    ensures Accepts(SizedProof(3, 2, RootText(LeavesOf([a, b])), [HexEncode(LeafHash(a))]), b)
  {
    var proof := SizedProof(3, 2, RootText(LeavesOf([a, b])), [HexEncode(LeafHash(a))]);
    hide AuditPath, LeafSides, DecodePath, Climb, TreeHash;
    SecondOfTwo(a, b);
    DecodeHexPath([LeafHash(a)]);
    assert HexPath([LeafHash(a)]) == proof.path;
    assert SizedSides(3, 2, 1) == [OnRight];
    assert ShowsLeaf([a, b], 1, b, SizedSides(3, 2, |proof.path|), [LeafHash(a)]);
    SizedAcceptedExactly([a, b], proof, b);
  }

  /** Such proofs exist: with three leaves, a one-node path claiming index 1 shows leaf 2. */
  lemma ShorterPathShowsOtherLeaf(a: Bytes, b: Bytes, c: Bytes)
    ensures var leaves := LeavesOf([a, b, c]);
      Accepts(SizedProof(1, 3, RootText(leaves), [HexEncode(NodeHash(LeafHash(a), LeafHash(b)))]), c)
  {
    var payloads, node := [a, b, c], NodeHash(LeafHash(a), LeafHash(b));
    var proof := SizedProof(1, 3, RootText(LeavesOf(payloads)), [HexEncode(node)]);
    hide AuditPath, LeafSides, DecodePath, Climb, TreeHash;
    ThirdOfThree(a, b, c);
    DecodeHexPath([node]);
    assert HexPath([node]) == proof.path;
    assert SizedSides(1, 3, 1) == [OnRight];
    assert ShowsLeaf(payloads, 2, c, SizedSides(1, 3, |proof.path|), [node]);
    SizedAcceptedExactly(payloads, proof, c);
  }
}
