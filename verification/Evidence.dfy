/** The bytes that an evidence record contributes to the tree (services/vault-api/domain/evidence/types.go). */
module Evidence {
  import opened Hashing
  import opened MerkleTree

  /** The content hash is written as 64 hexadecimal characters, whatever the payload. */
  type HashText = t: Bytes | |t| == 64 witness seq(64, _ => 0x30)

  datatype Evidence = Evidence(id: string, contentType: Bytes, contentHash: HashText)

  const COLON: Byte := 0x3a

  function LeafData(e: Evidence): (data: Bytes)
    ensures |data| == 65 + |e.contentType|
    ensures data[..64] == e.contentHash && data[64] == 0x3a && data[65..] == e.contentType
  {
    e.contentHash + [COLON] + e.contentType
  }

  function LeafDatas(es: seq<Evidence>): seq<Bytes> {
    seq(|es|, i requires 0 <= i < |es| => LeafData(es[i]))
  }

  /** The fields that the tree commits to. */
  function Committed(es: seq<Evidence>): seq<(HashText, Bytes)> {
    seq(|es|, i requires 0 <= i < |es| => (es[i].contentHash, es[i].contentType))
  }

  lemma LeafDataInjective(a: Evidence, b: Evidence)
    ensures LeafData(a) == LeafData(b) <==> a.contentHash == b.contentHash && a.contentType == b.contentType
  {
    assert LeafData(a)[..64] == a.contentHash && LeafData(b)[..64] == b.contentHash;
  }

  /** The root names the sequence of content hashes and content types, and nothing else of the records. */
  lemma RootNamesEvidence(a: seq<Evidence>, b: seq<Evidence>)
    ensures RootText(LeavesOf(LeafDatas(a))) == RootText(LeavesOf(LeafDatas(b))) <==> Committed(a) == Committed(b)
  {
    RootTextInjective(LeafDatas(a), LeafDatas(b));
    assert |LeafDatas(a)| == |a| == |Committed(a)| && |LeafDatas(b)| == |b| == |Committed(b)|;
    if |a| == |b| {
      forall i | 0 <= i < |a|
        ensures LeafDatas(a)[i] == LeafDatas(b)[i] <==> Committed(a)[i] == Committed(b)[i]
      {
        LeafDataInjective(a[i], b[i]);
      }
    }
  }
}
