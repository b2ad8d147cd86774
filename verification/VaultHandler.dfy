/** The handlers' critical sections on the shared variables, in memory-only mode. */
module VaultHandler {
  import opened Texts
  import opened VaultModel

  const ACCEPTED := 202
  const OK := 200
  const BAD_REQUEST := 400
  const FORBIDDEN := 403
  const NOT_FOUND := 404
  const UNAVAILABLE := 503

  // ---- the paths that name a checkpoint ----

  const CHECKPOINT_PREFIX: string := "/api/v1/checkpoints/"
  const VERIFY_SUFFIX: string := "/verify"

  datatype NamedSize = OtherPath | NoSize | Size(size: nat)

  function SizeOfPath(path: string): NamedSize {
    if !(CHECKPOINT_PREFIX <= path) || !HasSuffix(path, VERIFY_SUFFIX) then OtherPath
    else
      match ParseInt(Trim(TrimSuffix(TrimPrefix(path, CHECKPOINT_PREFIX), VERIFY_SUFFIX), '/'))
      case NotANumber => NoSize
      case Number(n) => if n <= 0 then NoSize else Size(n)
  }

  /** The path is the prefix, a positive number among any number of slashes, and the suffix. */
  ghost predicate PathNames(path: string, text: string, n: nat) {
    && 0 < n && Names(text, n)
    && exists padded :: Between(padded, '/', text) && path == "/api/v1/checkpoints/" + padded + "/verify"
  }

  lemma PositiveHasNoSlash(text: string, n: nat)
    requires 0 < n && Names(text, n)
    ensures text != [] && text[0] != '/' && text[|text| - 1] != '/'
  {
    var digits := if text[0] == '+' then text[1..] else text;
    WrittenIff(digits, n);
    assert digits[|digits| - 1] == text[|text| - 1];
  }

  lemma NamedPathHasSize(path: string, text: string, n: nat)
    requires PathNames(path, text, n)
    ensures SizeOfPath(path) == Size(n)
  {
    var padded :| Between(padded, '/', text) && path == CHECKPOINT_PREFIX + padded + VERIFY_SUFFIX;
    assert TrimPrefix(path, CHECKPOINT_PREFIX) == padded + VERIFY_SUFFIX;
    assert TrimSuffix(padded + VERIFY_SUFFIX, VERIFY_SUFFIX) == padded;
    var a: nat, b: nat :| padded == Repeated('/', a) + text + Repeated('/', b);
    PositiveHasNoSlash(text, n);
    TrimOfPadded('/', a, text, b);
    ParsedIff(text, n);
  }

  /** The one path whose slash serves both the prefix and the suffix. */
  lemma SharedSlash(path: string)
    requires CHECKPOINT_PREFIX <= path && HasSuffix(path, VERIFY_SUFFIX)
    requires !HasSuffix(TrimPrefix(path, CHECKPOINT_PREFIX), VERIFY_SUFFIX)
    ensures SizeOfPath(path) == NoSize
  {
    var p, n := |CHECKPOINT_PREFIX|, |path| - |VERIFY_SUFFIX|;
    var rest := TrimPrefix(path, CHECKPOINT_PREFIX);
    assert n < p;
    assert path[n] == '/' && path[n] == CHECKPOINT_PREFIX[n];
    assert n == p - 1;
    assert rest == path[n..][1..] == "verify";
    assert Trim(rest, '/') == rest;
    assert !IsDigit(rest[0]);
  }

  /** Which paths name which size. */
  lemma PathNamesSizeIff(path: string, n: nat)
    ensures SizeOfPath(path) == Size(n) <==> exists text :: PathNames(path, text, n)
    ensures SizeOfPath(path) == OtherPath
       <==> !("/api/v1/checkpoints/" <= path && exists stem :: path == stem + "/verify")
  {
    if HasSuffix(path, VERIFY_SUFFIX) {
      assert path == path[..|path| - |VERIFY_SUFFIX|] + VERIFY_SUFFIX;
    }
    if SizeOfPath(path) == Size(n) {
      var rest := TrimPrefix(path, CHECKPOINT_PREFIX);
      if !HasSuffix(rest, VERIFY_SUFFIX) {
        SharedSlash(path);
        assert false;
      }
      var padded := TrimSuffix(rest, VERIFY_SUFFIX);
      TrimmedBetween(padded, '/');
      ParsedIff(Trim(padded, '/'), n);
      assert path == CHECKPOINT_PREFIX + padded + VERIFY_SUFFIX;
      assert PathNames(path, Trim(padded, '/'), n);
    }
    forall text | PathNames(path, text, n) ensures SizeOfPath(path) == Size(n) {
      NamedPathHasSize(path, text, n);
    }
  }

  method HasCheckpointAccess(roles: seq<string>) returns (allowed: bool)
    ensures allowed <==> "auditor" in roles || "ingester" in roles
  {
    for i := 0 to |roles|
      invariant "auditor" !in roles[..i] && "ingester" !in roles[..i]
    {
      if roles[i] == "auditor" || roles[i] == "ingester" {
        return true;
      }
      assert roles[..i + 1] == roles[..i] + [roles[i]];
    }
    assert roles[..|roles|] == roles;
    return false;
  }

  /** Every field that the service answered is taken, and every other has its own default. */
  ghost predicate IsAnswered(cp: Checkpoint, reply: Reply) {
    && |cp.rootHash| == 64 && (forall i :: 0 <= i < 64 ==> cp.rootHash[i] == '0')
    && (reply.signature.Some? ==> cp.signature == reply.signature.value)
    && (reply.signature.None? ==> cp.signature == Placeholder)
    && (reply.keyRef.Some? ==> cp.keyRef == reply.keyRef.value)
    && (reply.keyRef.None? ==> cp.keyRef == "local:dev-default")
  }

  /** The made checkpoint is the only one that does so for this size. */
  lemma AnswerIsUsed(size: nat, reply: Reply)
    ensures forall cp :: cp == SignedCheckpoint(size, reply) <==> cp.treeSize == size && IsAnswered(cp, reply)
  {
    forall cp ensures cp == SignedCheckpoint(size, reply) <==> cp.treeSize == size && IsAnswered(cp, reply) {
      if cp.treeSize == size && IsAnswered(cp, reply) {
        assert cp.rootHash == ZERO_ROOT;
      }
    }
  }

  class Vault {
    var storeMap: map<Id, Option<nat>>
    var next: nat
    var audits: seq<AuditEntry>
    var checkpointHistory: map<nat, Checkpoint>
    var checkpointOrder: seq<nat>

    function Contents(): Shared
      reads this
    {
      Shared(storeMap, next, audits, checkpointHistory, checkpointOrder)
    }

    ghost predicate Valid()
      reads this
    {
      Consistent(Contents())
    }

    constructor ()
      ensures Contents() == EMPTY && Valid()
      ensures storeMap == map[] && next == 0 && audits == [] && checkpointHistory == map[] && checkpointOrder == []
    {
      storeMap, next, audits, checkpointHistory, checkpointOrder := map[], 0, [], map[], [];
      new;
      EmptyConsistent();
    }

    /** An undecodable body or an empty payload changes nothing; anything else is recorded as pending, with
        its audit entry, under an id that was never used before. */
    method Ingest(decoded: bool, payloadLength: nat, id: Id, actor: string, now: int) returns (status: int)
      requires Valid() && id !in storeMap
      modifies this
      ensures Valid()
      ensures status == if decoded && payloadLength != 0 then 202 else 400
      ensures status == 202 ==> Contents() == AfterIngest(old(Contents()), AuditEntry(id, actor, now))
      ensures status == 202 ==>
        && storeMap == old(storeMap)[id := None] && audits == old(audits) + [AuditEntry(id, actor, now)]
        && next == old(next)
        && checkpointHistory == old(checkpointHistory) && checkpointOrder == old(checkpointOrder)
      ensures status != 202 ==> Contents() == old(Contents())
    {
      if !decoded || payloadLength == 0 {
        return BAD_REQUEST;
      }
      IngestKeeps(Contents(), AuditEntry(id, actor, now));
      storeMap := storeMap[id := None];
      audits := audits + [AuditEntry(id, actor, now)];
      status := ACCEPTED;
    }

    /** One pass of the committer over the map, in any order: the first pending record found gets the next index. */
    method CommitNext() returns (choice: Option<Id>)
      requires Valid()
      modifies this
      ensures Valid()
      ensures MayCommit(old(Contents()), choice)
      ensures Contents() == AfterCommit(old(Contents()), choice)
      ensures choice == None ==> Contents() == old(Contents()) && forall id :: id in storeMap ==> storeMap[id].Some?
      ensures choice.Some? ==>
        && choice.value in old(storeMap) && old(storeMap)[choice.value] == None
        && storeMap == old(storeMap)[choice.value := Some(old(next))] && next == old(next) + 1
        && audits == old(audits)
        && checkpointHistory == old(checkpointHistory) && checkpointOrder == old(checkpointOrder)
    {
      hide Consistent;
      choice := None;
      var rest := storeMap.Keys;
      while rest != {}
        invariant rest <= storeMap.Keys
        invariant Contents() == old(Contents())
        invariant Pending(Contents()) <= rest
        invariant choice == None
        decreases rest
      {
        var id :| id in rest;
        if storeMap[id] == None {
          choice := Some(id);
          CommitKeeps(Contents(), choice);
          storeMap := storeMap[id := Some(next)];
          next := next + 1;
          return;
        }
        rest := rest - {id};
      }
      forall id | id in storeMap ensures storeMap[id].Some? {
        assert id !in Pending(Contents());
      }
    }

    /** The first critical section of a checkpoint build: one more than the largest assigned index. */
    method ScanTreeSize() returns (treeSize: nat)
      requires Valid()
      ensures ScansTo(Contents(), treeSize)
      ensures treeSize == next == |set id | id in storeMap && storeMap[id].Some?|
    {
      var maxLeaf: int := -1;
      var rest := storeMap.Keys;
      while rest != {}
        invariant -1 <= maxLeaf && rest <= storeMap.Keys
        invariant forall id :: id in storeMap && id !in rest && storeMap[id].Some? ==> storeMap[id].value <= maxLeaf
        invariant 0 <= maxLeaf ==> exists id :: id in storeMap && storeMap[id] == Some(maxLeaf)
        decreases rest
      {
        var id :| id in rest;
        if storeMap[id].Some? && storeMap[id].value > maxLeaf {
          maxLeaf := storeMap[id].value;
        }
        rest := rest - {id};
      }
      treeSize := if maxLeaf >= 0 then maxLeaf + 1 else 0;
      ScanFindsNext(Contents(), treeSize);
    }

    /** The last critical section of a checkpoint build. */
    method PublishCheckpoint(cp: Checkpoint)
      requires Valid() && 1 <= cp.treeSize <= next && cp.rootHash == ZERO_ROOT
      modifies this
      ensures Valid()
      ensures Contents() == AfterPublish(old(Contents()), cp)
      ensures checkpointHistory == old(checkpointHistory)[cp.treeSize := cp]
      ensures checkpointOrder == if cp.treeSize in old(checkpointHistory) then old(checkpointOrder)
                                 else old(checkpointOrder) + [cp.treeSize]
      ensures storeMap == old(storeMap) && next == old(next) && audits == old(audits)
    {
      PublishKeeps(Contents(), cp);
      if cp.treeSize !in checkpointHistory {
        checkpointOrder := checkpointOrder + [cp.treeSize];
      }
      checkpointHistory := checkpointHistory[cp.treeSize := cp];
    }

    /** A build that nothing interrupts: refused without the role, not found before the first commit, and otherwise
        the checkpoint of the current size, made once and found again afterwards. */
    method BuildLatestCheckpoint(roles: seq<string>, reply: Reply) returns (cp: Option<Checkpoint>, status: int)
      requires Valid()
      modifies this
      ensures Valid()
      ensures status == 403 <==> "auditor" !in roles && "ingester" !in roles
      ensures status == 404 <==> status != 403 && old(next) == 0
      ensures status == 403 || status == 404 || status == 200
      ensures cp.Some? <==> status == 200
      ensures status == 200 ==> cp.value.treeSize == old(next)
      ensures status == 200 && old(next) in old(checkpointHistory) ==>
        cp.value == old(checkpointHistory)[old(next)] && Contents() == old(Contents())
      ensures status == 200 && old(next) !in old(checkpointHistory) ==>
        && IsAnswered(cp.value, reply) && Contents() == AfterPublish(old(Contents()), cp.value)
        && checkpointHistory == old(checkpointHistory)[old(next) := cp.value]
        && checkpointOrder == old(checkpointOrder) + [old(next)]
        && storeMap == old(storeMap) && next == old(next) && audits == old(audits)
      ensures status != 200 ==> Contents() == old(Contents())
    {
      var allowed := HasCheckpointAccess(roles);
      if !allowed {
        return None, FORBIDDEN;
      }
      var treeSize := ScanTreeSize();
      if treeSize == 0 {
        return None, NOT_FOUND;
      }
      if treeSize in checkpointHistory {
        return Some(checkpointHistory[treeSize]), OK;
      }
      var made := SignedCheckpoint(treeSize, reply);
      AnswerIsUsed(treeSize, reply);
      PublishCheckpoint(made);
      return Some(made), OK;
    }

    /** The second critical section of a history request: the order is walked backwards. */
    method ReadHistory() returns (entries: seq<Checkpoint>)
      ensures entries == Entries(Contents()) && |entries| == |checkpointOrder|
      ensures forall i :: 0 <= i < |entries| && checkpointOrder[|entries| - 1 - i] in checkpointHistory ==>
        entries[i] == checkpointHistory[checkpointOrder[|entries| - 1 - i]]
    {
      entries := [];
      var i := |checkpointOrder|;
      while 0 < i
        invariant 0 <= i <= |checkpointOrder|
        invariant entries == Entries(Contents())[..|checkpointOrder| - i]
      {
        i := i - 1;
        entries := entries + [Recorded(Contents(), checkpointOrder[i])];
      }
      forall i | 0 <= i < |entries| && checkpointOrder[|entries| - 1 - i] in checkpointHistory
        ensures entries[i] == checkpointHistory[checkpointOrder[|entries| - 1 - i]]
      {
        EntryIsStored(Contents(), i);
      }
    }

    /** A stored checkpoint is looked up by the size that the path names. */
    method VerifyByTreeSize(roles: seq<string>, path: string, env: VerifyKey)
      returns (status: int, verdict: Option<Verdict>)
      ensures status == 403 <==> "auditor" !in roles && "ingester" !in roles
      ensures status == 400 <==> status != 403 && SizeOfPath(path) == NoSize
      ensures status == 404 <==>
        status != 403 && match SizeOfPath(path)
          case OtherPath => true
          case NoSize => false
          case Size(size) => size !in checkpointHistory
      ensures verdict == None ==> status == 403 || status == 400 || status == 404
      ensures verdict.Some? ==>
        && SizeOfPath(path).Size? && SizeOfPath(path).size in checkpointHistory
        && IsVerdict(verdict.value, env, checkpointHistory[SizeOfPath(path).size])
        && status == if env.PublicKey? then 200 else 503
    {
      var allowed := HasCheckpointAccess(roles);
      if !allowed {
        return FORBIDDEN, None;
      }
      if !(CHECKPOINT_PREFIX <= path) || !HasSuffix(path, VERIFY_SUFFIX) {
        return NOT_FOUND, None;
      }
      var part := TrimSuffix(TrimPrefix(path, CHECKPOINT_PREFIX), VERIFY_SUFFIX);
      part := Trim(part, '/');
      var treeSize := ParseInt(part);
      if treeSize == NotANumber || treeSize.value <= 0 {
        return BAD_REQUEST, None;
      }
      if treeSize.value !in checkpointHistory {
        return NOT_FOUND, None;
      }
      var v := Verify(env, checkpointHistory[treeSize.value]);
      VerdictIff(env, checkpointHistory[treeSize.value], v);
      return if v == KeyMissing || v == KeyInvalid then UNAVAILABLE else OK, Some(v);
    }

    /** The latest checkpoint is built first, and then verified. */
    method VerifyLatest(roles: seq<string>, reply: Reply, env: VerifyKey)
      returns (status: int, verdict: Option<Verdict>)
      requires Valid()
      modifies this
      ensures Valid() && storeMap == old(storeMap) && next == old(next) && audits == old(audits)
      ensures status == 403 <==> "auditor" !in roles && "ingester" !in roles
      ensures status == 404 <==> status != 403 && next == 0
      ensures verdict == None <==> status == 403 || status == 404
      ensures verdict.Some? ==>
        && next in checkpointHistory && IsVerdict(verdict.value, env, checkpointHistory[next])
        && status == if env.PublicKey? then 200 else 503
      ensures verdict.Some? && next !in old(checkpointHistory) ==>
        (verdict == Some(Verified(true)) <==>
          env.PublicKey? && reply.signature == Some(Signed(env.key, next, checkpointHistory[next].rootHash)))
    {
      var cp;
      cp, status := BuildLatestCheckpoint(roles, reply);
      if status != OK {
        return status, None;
      }
      var v := Verify(env, cp.value);
      VerdictIff(env, cp.value, v);
      return if v == KeyMissing || v == KeyInvalid then UNAVAILABLE else OK, Some(v);
    }
  }
}
