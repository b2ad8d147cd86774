/** The vault's shared records and the critical sections that change them (services/vault-api/handler/ingest.go). */
module VaultModel {
  import opened Keys
  import opened Texts

  datatype Option<T> = None | Some(value: T)

  type Id = string

  datatype AuditEntry = AuditEntry(id: Id, actor: string, timestamp: int)

  /** A signature text: the built-in placeholder, a signature of a payload under a key, or anything else. */
  datatype SignatureText =
    | Placeholder
    | Signed(key: Key, treeSize: nat, rootHash: string)
    | Base64(text: string)
    | NotBase64(text: string)

  datatype Checkpoint = Checkpoint(treeSize: nat, rootHash: string, signature: SignatureText, keyRef: string)

  /** What the signing service answered; a missing or empty field, or no answer, leaves the default in place. */
  datatype Reply = Reply(signature: Option<SignatureText>, keyRef: Option<string>)

  const ZERO_ROOT: string := Repeated('0', 64)
  const DEFAULT_KEY_REF: string := "local:dev-default"

  function SignedCheckpoint(size: nat, reply: Reply): Checkpoint {
    Checkpoint(size, ZERO_ROOT,
               if reply.signature.Some? then reply.signature.value else Placeholder,
               if reply.keyRef.Some? then reply.keyRef.value else DEFAULT_KEY_REF)
  }

  /** Everything that the mutex guards. */
  datatype Shared = Shared(
    records: map<Id, Option<nat>>,
    next: nat,
    audits: seq<AuditEntry>,
    history: map<nat, Checkpoint>,
    order: seq<nat>)

  const EMPTY: Shared := Shared(map[], 0, [], map[], [])

  // ---- critical sections ----

  function AfterIngest(s: Shared, entry: AuditEntry): Shared {
    s.(records := s.records[entry.id := None], audits := s.audits + [entry])
  }

  function Pending(s: Shared): set<Id> {
    set id | id in s.records && s.records[id].None?
  }

  function Committed(s: Shared): set<Id> {
    set id | id in s.records && s.records[id].Some?
  }

  /** One pass of the committer takes any pending record, or nothing when there is none. */
  predicate MayCommit(s: Shared, choice: Option<Id>) {
    match choice
    case None => Pending(s) == {}
    case Some(id) => id in Pending(s)
  }

  function AfterCommit(s: Shared, choice: Option<Id>): Shared {
    match choice
    case None => s
    case Some(id) => s.(records := s.records[id := Some(s.next)], next := s.next + 1)
  }

  /** The result of the scan: one more than the largest assigned index, 0 when there is none. */
  ghost predicate ScansTo(s: Shared, size: nat) {
    && (forall id :: id in s.records && s.records[id].Some? ==> s.records[id].value < size)
    && (0 < size ==> exists id :: id in s.records && s.records[id] == Some(size - 1))
  }

  function AfterPublish(s: Shared, cp: Checkpoint): Shared {
    s.(history := s.history[cp.treeSize := cp],
       order := if cp.treeSize in s.history then s.order else s.order + [cp.treeSize])
  }

  /** Reading a missing key of a Go map gives the zero value. */
  function Recorded(s: Shared, size: nat): Checkpoint {
    if size in s.history then s.history[size] else Checkpoint(0, "", Base64(""), "")
  }

  /** The checkpoints, latest first. */
  function Entries(s: Shared): seq<Checkpoint> {
    seq(|s.order|, i requires 0 <= i < |s.order| => Recorded(s, s.order[|s.order| - 1 - i]))
  }

  /** Entry i is the stored checkpoint, whole. */
  lemma EntryIsStored(s: Shared, i: nat)
    requires i < |s.order| && s.order[|s.order| - 1 - i] in s.history
    ensures Entries(s)[i] == s.history[s.order[|s.order| - 1 - i]]
  {
    assert Entries(s)[i] == Recorded(s, s.order[|s.order| - 1 - i]);
  }

  // ---- what every section keeps ----

  ghost predicate Assigned(s: Shared, i: nat) {
    exists id :: id in s.records && s.records[id] == Some(i)
  }

  /** The assigned indices are exactly 0 .. next - 1, one per committed record. */
  ghost predicate IndicesDense(s: Shared) {
    && (forall id :: id in s.records && s.records[id].Some? ==> s.records[id].value < s.next)
    && (forall i: nat :: i < s.next ==> Assigned(s, i))
    && (forall a, b :: a in s.records && b in s.records && s.records[a].Some? && s.records[a] == s.records[b]
          ==> a == b)
    && |Committed(s)| == s.next
  }

  ghost predicate Audited(s: Shared) {
    && |s.audits| == |s.records|
    && (forall id :: id in s.records <==> exists k :: 0 <= k < |s.audits| && s.audits[k].id == id)
  }

  ghost predicate NoDuplicates(order: seq<nat>) {
    forall i, j :: 0 <= i < j < |order| ==> order[i] != order[j]
  }

  ghost predicate CheckpointsAgree(s: Shared) {
    && NoDuplicates(s.order)
    && (forall size :: size in s.order <==> size in s.history)
    && (forall size :: size in s.history ==>
          s.history[size].treeSize == size && 1 <= size <= s.next && s.history[size].rootHash == ZERO_ROOT)
  }

  /** The entries are the stored checkpoints, none left out and none changed. */
  lemma EntriesAreStored(s: Shared, cp: Checkpoint)
    requires CheckpointsAgree(s)
    ensures cp in Entries(s) <==> exists size :: size in s.history && cp == s.history[size]
  {
    var n := |s.order|;
    if cp in Entries(s) {
      var i :| 0 <= i < n && Entries(s)[i] == cp;
      assert s.order[n - 1 - i] in s.order;
      EntryIsStored(s, i);
    }
    if size :| size in s.history && cp == s.history[size] {
      assert size in s.order;
      var k :| 0 <= k < n && s.order[k] == size;
      EntryIsStored(s, n - 1 - k);
    }
  }

  ghost predicate Consistent(s: Shared) {
    IndicesDense(s) && Audited(s) && CheckpointsAgree(s)
  }

  /** What later states keep of earlier ones. */
  ghost predicate Extends(s: Shared, t: Shared) {
    && s.next <= t.next
    && (forall id :: id in s.records ==> id in t.records && (s.records[id].Some? ==> t.records[id] == s.records[id]))
    && s.audits <= t.audits && s.order <= t.order
    && (forall size :: size in s.history ==>
          && size in t.history && t.history[size].treeSize == s.history[size].treeSize
          && t.history[size].rootHash == s.history[size].rootHash)
  }

  lemma EmptyConsistent()
    ensures Consistent(EMPTY)
  {
  }

  lemma IngestKeepsDense(s: Shared, entry: AuditEntry)
    requires IndicesDense(s) && entry.id !in s.records
    ensures IndicesDense(AfterIngest(s, entry))
    ensures Pending(AfterIngest(s, entry)) == Pending(s) + {entry.id}
  {
    var t := AfterIngest(s, entry);
    assert Committed(t) == Committed(s);
    forall i: nat | i < t.next ensures Assigned(t, i) {
      assert Assigned(s, i);
      var id :| id in s.records && s.records[id] == Some(i);
      assert t.records[id] == Some(i);
    }
  }

  lemma AuditedAfter(audits: seq<AuditEntry>, entry: AuditEntry, id: Id)
    ensures var more := audits + [entry];
      (exists k :: 0 <= k < |more| && more[k].id == id)
        <==> id == entry.id || exists k :: 0 <= k < |audits| && audits[k].id == id
  {
    var more := audits + [entry];
    assert more[|audits|] == entry;
    forall k | 0 <= k < |audits| ensures more[k] == audits[k] {
    }
  }

  lemma IngestKeepsAudited(s: Shared, entry: AuditEntry)
    requires Audited(s) && entry.id !in s.records
    ensures Audited(AfterIngest(s, entry))
  {
    var t := AfterIngest(s, entry);
    assert t.records.Keys == s.records.Keys + {entry.id};
    forall id ensures id in t.records <==> exists k :: 0 <= k < |t.audits| && t.audits[k].id == id {
      AuditedAfter(s.audits, entry, id);
    }
  }

  lemma IngestExtends(s: Shared, entry: AuditEntry)
    requires entry.id !in s.records
    ensures Extends(s, AfterIngest(s, entry))
  {
  }

  lemma IngestKeeps(s: Shared, entry: AuditEntry)
    requires Consistent(s) && entry.id !in s.records
    ensures Consistent(AfterIngest(s, entry)) && Extends(s, AfterIngest(s, entry))
    ensures Pending(AfterIngest(s, entry)) == Pending(s) + {entry.id}
  {
    hide IndicesDense, Audited, Extends;
    IngestKeepsDense(s, entry);
    IngestKeepsAudited(s, entry);
    IngestExtends(s, entry);
  }

  lemma StillAssigned(s: Shared, id: Id, i: nat)
    requires id in Pending(s) && (i == s.next || Assigned(s, i))
    ensures Assigned(AfterCommit(s, Some(id)), i)
  {
    var t := AfterCommit(s, Some(id));
    if i == s.next {
      assert t.records[id] == Some(i);
    } else {
      var a :| a in s.records && s.records[a] == Some(i);
      assert t.records[a] == Some(i);
    }
  }

  lemma CommitKeepsDense(s: Shared, id: Id)
    requires IndicesDense(s) && id in Pending(s)
    ensures IndicesDense(AfterCommit(s, Some(id)))
  {
    var t := AfterCommit(s, Some(id));
    assert Committed(t) == Committed(s) + {id};
    assert t.records[id] == Some(s.next);
    forall i: nat | i < t.next ensures Assigned(t, i) {
      StillAssigned(s, id, i);
    }
  }

  lemma CommitKeepsRest(s: Shared, id: Id)
    requires Audited(s) && CheckpointsAgree(s) && id in Pending(s)
    ensures Audited(AfterCommit(s, Some(id))) && CheckpointsAgree(AfterCommit(s, Some(id)))
    ensures Pending(AfterCommit(s, Some(id))) == Pending(s) - {id}
  {
    assert AfterCommit(s, Some(id)).records.Keys == s.records.Keys;
  }

  lemma CommitExtends(s: Shared, choice: Option<Id>)
    requires MayCommit(s, choice)
    ensures Extends(s, AfterCommit(s, choice))
  {
  }

  lemma CommitKeeps(s: Shared, choice: Option<Id>)
    requires Consistent(s) && MayCommit(s, choice)
    ensures Consistent(AfterCommit(s, choice)) && Extends(s, AfterCommit(s, choice))
    ensures |Pending(AfterCommit(s, choice))| == if Pending(s) == {} then 0 else |Pending(s)| - 1
    ensures AfterCommit(s, choice).next == if Pending(s) == {} then s.next else s.next + 1
  {
    hide IndicesDense, Audited, CheckpointsAgree, Extends;
    CommitExtends(s, choice);
    if choice.Some? {
      CommitKeepsDense(s, choice.value);
      CommitKeepsRest(s, choice.value);
    }
  }

  lemma PublishKeeps(s: Shared, cp: Checkpoint)
    requires Consistent(s) && 1 <= cp.treeSize <= s.next && cp.rootHash == ZERO_ROOT
    ensures Consistent(AfterPublish(s, cp)) && Extends(s, AfterPublish(s, cp))
    ensures Pending(AfterPublish(s, cp)) == Pending(s)
  {
    var t := AfterPublish(s, cp);
    assert Committed(t) == Committed(s);
    forall i: nat | i < t.next ensures Assigned(t, i) {
      assert Assigned(s, i);
    }
  }

  /** The scan finds the commit counter. */
  lemma ScanFindsNext(s: Shared, size: nat)
    requires IndicesDense(s)
    ensures ScansTo(s, size) <==> size == s.next
  {
    if 0 < s.next {
      assert Assigned(s, s.next - 1);
    }
  }

  /** Every record is committed or pending, and each has its audit entry. */
  lemma Conservation(s: Shared)
    requires Consistent(s)
    ensures |Committed(s)| + |Pending(s)| == |s.records| == |s.audits|
    ensures |Committed(s)| == s.next
  {
    assert s.records.Keys == Committed(s) + Pending(s);
    assert Committed(s) !! Pending(s);
  }

  ghost predicate Increasing(order: seq<nat>) {
    forall i, j :: 0 <= i < j < |order| ==> order[i] < order[j]
  }

  /** Publishing keeps the order increasing exactly when the size is known or above the latest one. */
  lemma PublishKeepsIncreasingIff(s: Shared, cp: Checkpoint)
    requires CheckpointsAgree(s) && Increasing(s.order)
    ensures Increasing(AfterPublish(s, cp).order)
       <==> cp.treeSize in s.history || s.order == [] || s.order[|s.order| - 1] < cp.treeSize
  {
    var t := AfterPublish(s, cp);
    if cp.treeSize !in s.history && s.order != [] && cp.treeSize <= s.order[|s.order| - 1] {
      assert t.order[|s.order| - 1] >= t.order[|s.order|];
    }
  }

  // ---- verification of a stored checkpoint ----

  datatype VerifyKey = Missing | Invalid | PublicKey(key: Key)

  datatype Verdict = KeyMissing | KeyInvalid | BadSignatureText | Verified(ok: bool)

  function Verify(env: VerifyKey, cp: Checkpoint): Verdict {
    match env
    case Missing => KeyMissing
    case Invalid => KeyInvalid
    case PublicKey(k) =>
      if cp.signature.NotBase64? then BadSignatureText
      else Verified(cp.signature == Signed(k, cp.treeSize, cp.rootHash))
  }

  /** Without a usable key nothing is verified; with one the verdict is true exactly for the service's signature of this
      size and root. */
  ghost predicate IsVerdict(verdict: Verdict, env: VerifyKey, cp: Checkpoint) {
    && (verdict == KeyMissing <==> env == Missing)
    && (verdict == KeyInvalid <==> env == Invalid)
    && (verdict == BadSignatureText <==> env.PublicKey? && cp.signature.NotBase64?)
    && (verdict == Verified(true) <==> env.PublicKey? && cp.signature == Signed(env.key, cp.treeSize, cp.rootHash))
  }

  lemma VerdictIff(env: VerifyKey, cp: Checkpoint, verdict: Verdict)
    ensures verdict == Verify(env, cp) <==> IsVerdict(verdict, env, cp)
  {
  }

  /** A checkpoint verifies exactly when the service answered with a signature of its size and root; without an
      answer it carries the placeholder and the default key reference, and never verifies. */
  lemma ReplyDecidesVerdict(size: nat, reply: Reply, key: Key)
    ensures Verify(PublicKey(key), SignedCheckpoint(size, reply)) == Verified(true)
       <==> reply.signature == Some(Signed(key, size, ZERO_ROOT))
    ensures reply == Reply(None, None) ==>
      SignedCheckpoint(size, reply) == Checkpoint(size, ZERO_ROOT, Placeholder, DEFAULT_KEY_REF)
  {
  }
}
