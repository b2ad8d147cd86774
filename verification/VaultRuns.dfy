/** Runs of the memory-only vault: ingests, committer passes and any number of checkpoint requests, interleaved
    at the points where the handlers release the mutex. */
module VaultRuns {
  import opened Keys
  import opened VaultModel

  /** Where an admitted checkpoint request stands between two critical sections. */
  datatype Phase =
    | Arrived
    | Scanned(size: nat)     // a nonzero size was scanned; the lookup comes next
    | Signing(size: nat)     // the lookup missed
    | Ready(cp: Checkpoint)  // the reply is in; publishing comes next
    | Reading(scanned: nat)  // a history request whose build has returned

  datatype Request = Request(forHistory: bool, phase: Phase)

  datatype System = System(shared: Shared, live: map<nat, Request>)

  const INITIAL: System := System(EMPTY, map[])

  datatype Action =
    | Ingest(entry: AuditEntry)
    | Commit(choice: Option<Id>)
    | Arrive(rid: nat, forHistory: bool)
    | Scan(rid: nat, size: nat)
    | Lookup(rid: nat)
    | Sign(rid: nat, reply: Reply)
    | Publish(rid: nat)
    | Read(rid: nat)

  ghost predicate Enabled(s: System, a: Action) {
    match a
    case Ingest(entry) => entry.id !in s.shared.records
    case Commit(choice) => MayCommit(s.shared, choice)
    case Arrive(rid, _) => rid !in s.live
    case Scan(rid, size) => rid in s.live && s.live[rid].phase.Arrived? && ScansTo(s.shared, size)
    case Lookup(rid) => rid in s.live && s.live[rid].phase.Scanned?
    case Sign(rid, _) => rid in s.live && s.live[rid].phase.Signing?
    case Publish(rid) => rid in s.live && s.live[rid].phase.Ready?
    case Read(rid) => rid in s.live && s.live[rid].phase.Reading?
  }

  function MoveTo(s: System, rid: nat, phase: Phase): System
    requires rid in s.live
  {
    s.(live := s.live[rid := s.live[rid].(phase := phase)])
  }

  /** The build has returned: a history request goes on to read, any other is answered. */
  function Built(s: System, rid: nat, scanned: nat): System
    requires rid in s.live
  {
    if s.live[rid].forHistory then MoveTo(s, rid, Reading(scanned)) else s.(live := s.live - {rid})
  }

  function Apply(s: System, a: Action): System
    requires Enabled(s, a)
  {
    match a
    case Ingest(entry) => s.(shared := AfterIngest(s.shared, entry))
    case Commit(choice) => s.(shared := AfterCommit(s.shared, choice))
    case Arrive(rid, forHistory) => s.(live := s.live[rid := Request(forHistory, Arrived)])
    case Scan(rid, size) => if size == 0 then Built(s, rid, 0) else MoveTo(s, rid, Scanned(size))
    case Lookup(rid) =>
      var size := s.live[rid].phase.size;
      if size in s.shared.history then Built(s, rid, size) else MoveTo(s, rid, Signing(size))
    case Sign(rid, reply) => MoveTo(s, rid, Ready(SignedCheckpoint(s.live[rid].phase.size, reply)))
    case Publish(rid) =>
      var cp := s.live[rid].phase.cp;
      Built(s.(shared := AfterPublish(s.shared, cp)), rid, cp.treeSize)
    case Read(rid) => s.(live := s.live - {rid})
  }

  ghost predicate Run(s: System, actions: seq<Action>, t: System)
    decreases |actions|
  {
    if actions == [] then t == s else Enabled(s, actions[0]) && Run(Apply(s, actions[0]), actions[1..], t)
  }

  // ---- what holds in every state of every run ----

  ghost predicate PhaseAgrees(s: Shared, phase: Phase) {
    match phase
    case Arrived => true
    case Scanned(size) => 1 <= size <= s.next
    case Signing(size) => 1 <= size <= s.next
    case Ready(cp) => 1 <= cp.treeSize <= s.next && cp.rootHash == ZERO_ROOT
    case Reading(scanned) => scanned <= s.next && (0 < scanned ==> scanned in s.history)
  }

  ghost predicate Invariant(s: System) {
    Consistent(s.shared) && forall rid :: rid in s.live ==> PhaseAgrees(s.shared, s.live[rid].phase)
  }

  lemma PhaseStillAgrees(s: Shared, t: Shared, phase: Phase)
    requires PhaseAgrees(s, phase) && Extends(s, t)
    ensures PhaseAgrees(t, phase)
  {
  }

  lemma ExtendsTransitive(s: Shared, t: Shared, u: Shared)
    requires Extends(s, t) && Extends(t, u)
    ensures Extends(s, u)
  {
  }

  lemma SharedStep(s: System, a: Action)
    requires Invariant(s) && Enabled(s, a)
    ensures Consistent(Apply(s, a).shared) && Extends(s.shared, Apply(s, a).shared)
  {
    match a {
      case Ingest(entry) => IngestKeeps(s.shared, entry);
      case Commit(choice) => CommitKeeps(s.shared, choice);
      case Publish(rid) =>
        assert PhaseAgrees(s.shared, s.live[rid].phase);
        PublishKeeps(s.shared, s.live[rid].phase.cp);
      case _ =>
        assert Apply(s, a).shared == s.shared;
    }
    hide Consistent;
  }

  /** The phase that a request moves to. */
  lemma MovedPhaseAgrees(s: System, a: Action, rid: nat)
    requires Invariant(s) && Enabled(s, a) && rid in Apply(s, a).live
    ensures (rid in s.live && Apply(s, a).live[rid] == s.live[rid])
         || PhaseAgrees(Apply(s, a).shared, Apply(s, a).live[rid].phase)
  {
    if rid in s.live {
      assert PhaseAgrees(s.shared, s.live[rid].phase);
    }
    if a.Scan? {
      ScanFindsNext(s.shared, a.size);
    }
    hide Consistent, ScansTo, MayCommit;
  }

  lemma StepKeepsInvariant(s: System, a: Action)
    requires Invariant(s) && Enabled(s, a)
    ensures Invariant(Apply(s, a)) && Extends(s.shared, Apply(s, a).shared)
  {
    SharedStep(s, a);
    var t := Apply(s, a);
    forall rid | rid in t.live ensures PhaseAgrees(t.shared, t.live[rid].phase) {
      MovedPhaseAgrees(s, a, rid);
      hide Consistent, Extends, Apply, Enabled, PhaseAgrees;
      if rid in s.live && t.live[rid] == s.live[rid] {
        PhaseStillAgrees(s.shared, t.shared, s.live[rid].phase);
      }
    }
  }

  /** Safety of every run, however its requests interleave; and what a state keeps of every earlier one. */
  lemma {:induction false} RunKeepsInvariant(s: System, actions: seq<Action>, t: System)
    requires Invariant(s) && Run(s, actions, t)
    ensures Invariant(t) && Extends(s.shared, t.shared)
    decreases |actions|
  {
    if actions != [] {
      var m := Apply(s, actions[0]);
      StepKeepsInvariant(s, actions[0]);
      RunKeepsInvariant(m, actions[1..], t);
      ExtendsTransitive(s.shared, m.shared, t.shared);
    }
  }

  ghost predicate Reachable(t: System) {
    exists actions :: Run(INITIAL, actions, t)
  }

  lemma ReachableInvariant(t: System)
    requires Reachable(t)
    ensures Invariant(t)
  {
    var actions :| Run(INITIAL, actions, t);
    EmptyConsistent();
    RunKeepsInvariant(INITIAL, actions, t);
  }

  /** Leaf indices of every reachable state: exactly 0 .. next - 1, one per committed record. Scans find next. */
  lemma IndicesInEveryState(t: System, size: nat)
    requires Reachable(t)
    ensures IndicesDense(t.shared)
    ensures ScansTo(t.shared, size) <==> size == t.shared.next
    ensures |Committed(t.shared)| + |Pending(t.shared)| == |t.shared.records| == |t.shared.audits|
  {
    ReachableInvariant(t);
    ScanFindsNext(t.shared, size);
    Conservation(t.shared);
  }

  /** Checkpoints of every reachable state: the order lists each key of the history once, every entry carries its
      key as tree size, and no published size is above the current one. */
  lemma CheckpointsInEveryState(t: System)
    requires Reachable(t)
    ensures NoDuplicates(t.shared.order)
    ensures forall size :: size in t.shared.order <==> size in t.shared.history
    ensures forall size :: size in t.shared.history ==>
      t.shared.history[size].treeSize == size && 1 <= size <= |Committed(t.shared)|
    ensures forall cp ::
      cp in Entries(t.shared) <==> exists size :: size in t.shared.history && cp == t.shared.history[size]
  {
    ReachableInvariant(t);
    forall cp
      ensures cp in Entries(t.shared) <==> exists size :: size in t.shared.history && cp == t.shared.history[size]
    {
      EntriesAreStored(t.shared, cp);
    }
  }

  /** Between two states of a run: assigned indices and checkpoint keys stay, with their tree size and root. */
  lemma NothingIsTakenBack(s: System, actions: seq<Action>, t: System)
    requires Reachable(s) && Run(s, actions, t)
    ensures s.shared.next <= t.shared.next && s.shared.order <= t.shared.order
    ensures forall id :: id in s.shared.records && s.shared.records[id].Some? ==>
      id in t.shared.records && t.shared.records[id] == s.shared.records[id]
    ensures forall size :: size in s.shared.history ==>
      && size in t.shared.history
      && t.shared.history[size].treeSize == s.shared.history[size].treeSize
      && t.shared.history[size].rootHash == s.shared.history[size].rootHash
  {
    ReachableInvariant(s);
    RunKeepsInvariant(s, actions, t);
  }

  // ---- draining ----

  function Commits(actions: seq<Action>): nat {
    if actions == [] then 0 else (if actions[0].Commit? then 1 else 0) + Commits(actions[1..])
  }

  lemma PendingStep(s: System, a: Action)
    requires Invariant(s) && Enabled(s, a) && !a.Ingest?
    ensures |Pending(Apply(s, a).shared)|
         == if a.Commit? && Pending(s.shared) != {} then |Pending(s.shared)| - 1 else |Pending(s.shared)|
  {
    match a
    case Commit(choice) => CommitKeeps(s.shared, choice);
    case Publish(rid) => PublishKeeps(s.shared, s.live[rid].phase.cp);
    case _ =>
  }

  /** Without ingests every committer pass lowers the number of pending records by one until none is left,
      whatever else runs; so p passes commit p pending records. */
  lemma {:induction false} Drains(s: System, actions: seq<Action>, t: System)
    requires Invariant(s) && Run(s, actions, t)
    requires forall k :: 0 <= k < |actions| ==> !actions[k].Ingest?
    ensures |Pending(t.shared)| == if |Pending(s.shared)| <= Commits(actions) then 0
                                   else |Pending(s.shared)| - Commits(actions)
    decreases |actions|
  {
    if actions != [] {
      var a, m := actions[0], Apply(s, actions[0]);
      StepKeepsInvariant(s, a);
      PendingStep(s, a);
      forall k | 0 <= k < |actions[1..]| ensures !actions[1..][k].Ingest? {
        assert actions[1..][k] == actions[k + 1];
      }
      Drains(m, actions[1..], t);
    }
  }

  // ---- every request gets through ----

  function Remaining(phase: Phase): nat {
    match phase
    case Arrived => 4
    case Scanned(_) => 3
    case Signing(_) => 2
    case Ready(_) => 1
    case Reading(_) => 0
  }

  /** What the request does next; the reply matters only if it is about to be signed for. */
  function NextAction(s: System, rid: nat, reply: Reply): Action
    requires rid in s.live
  {
    match s.live[rid].phase
    case Arrived => Scan(rid, s.shared.next)
    case Scanned(_) => Lookup(rid)
    case Signing(_) => Sign(rid, reply)
    case Ready(_) => Publish(rid)
    case Reading(_) => Read(rid)
  }

  lemma NextActionEnabled(s: System, rid: nat, reply: Reply)
    requires Invariant(s) && rid in s.live
    ensures Enabled(s, NextAction(s, rid, reply))
  {
    ScanFindsNext(s.shared, s.shared.next);
    hide Invariant, ScansTo, MayCommit;
  }

  lemma MovedOnly(s: System, rid: nat, phase: Phase)
    requires rid in s.live
    ensures var t := MoveTo(s, rid, phase);
      rid in t.live && t.live[rid].phase == phase && t.live - {rid} == s.live - {rid}
  {
  }

  lemma BuiltOnly(s: System, rid: nat, scanned: nat)
    requires rid in s.live
    ensures var t := Built(s, rid, scanned);
      t.live - {rid} == s.live - {rid} && (rid in t.live ==> t.live[rid].phase == Reading(scanned))
  {
  }

  lemma NextActionAdvances(s: System, rid: nat, reply: Reply)
    requires rid in s.live && Enabled(s, NextAction(s, rid, reply))
    ensures var t := Apply(s, NextAction(s, rid, reply));
      && t.live - {rid} == s.live - {rid}
      && (rid in t.live ==> Remaining(t.live[rid].phase) < Remaining(s.live[rid].phase))
  {
    hide MoveTo, Built, ScansTo, MayCommit, AfterPublish, SignedCheckpoint;
    match s.live[rid].phase
    case Arrived =>
      MovedOnly(s, rid, Scanned(s.shared.next));
      BuiltOnly(s, rid, 0);
    case Scanned(size) =>
      MovedOnly(s, rid, Signing(size));
      BuiltOnly(s, rid, size);
    case Signing(size) => MovedOnly(s, rid, Ready(SignedCheckpoint(size, reply)));
    case Ready(cp) => BuiltOnly(s.(shared := AfterPublish(s.shared, cp)), rid, cp.treeSize);
    case Reading(_) =>
  }

  /** From any state of any run, and without anyone else's help, a request in flight gets to its end in at most five
      critical sections; no other request is touched. */
  lemma {:induction false} RequestGetsThrough(s: System, rid: nat, reply: Reply)
    returns (actions: seq<Action>, t: System)
    requires Invariant(s) && rid in s.live
    ensures Run(s, actions, t) && t.live == s.live - {rid}
    ensures |actions| <= 1 + Remaining(s.live[rid].phase)
    decreases Remaining(s.live[rid].phase)
  {
    hide Invariant, Enabled, Apply, Remaining;
    var a := NextAction(s, rid, reply);
    NextActionEnabled(s, rid, reply);
    NextActionAdvances(s, rid, reply);
    StepKeepsInvariant(s, a);
    var m, rest := Apply(s, a), [];
    if rid in m.live {
      rest, t := RequestGetsThrough(m, rid, reply);
    } else {
      t := m;
    }
    actions := [a] + rest;
    assert actions[1..] == rest;
  }

  // ---- signatures ----

  /** Either every reply in the run is a signature, by the service's key, of the payload that was posted, or none is:
      the service answers something else, or nothing. */
  ghost predicate SignsAll(s: System, actions: seq<Action>, key: Key, signs: bool)
    decreases |actions|
  {
    actions != [] && Enabled(s, actions[0]) ==>
      && (actions[0].Sign? ==>
            (actions[0].reply.signature == Some(Signed(key, s.live[actions[0].rid].phase.size, ZERO_ROOT)) <==> signs))
      && SignsAll(Apply(s, actions[0]), actions[1..], key, signs)
  }

  ghost predicate VerdictsAre(s: System, key: Key, ok: bool) {
    && (forall size :: size in s.shared.history ==>
          (Verify(PublicKey(key), s.shared.history[size]) == Verified(true) <==> ok))
    && (forall rid :: rid in s.live && s.live[rid].phase.Ready? ==>
          (Verify(PublicKey(key), s.live[rid].phase.cp) == Verified(true) <==> ok))
  }

  lemma VerdictStep(s: System, a: Action, key: Key, ok: bool)
    requires VerdictsAre(s, key, ok) && Enabled(s, a) && SignsAll(s, [a], key, ok)
    ensures VerdictsAre(Apply(s, a), key, ok)
  {
    hide ScansTo, MayCommit;
    if a.Sign? {
      ReplyDecidesVerdict(s.live[a.rid].phase.size, a.reply, key);
    }
    hide Verify, SignedCheckpoint;
  }

  /** If the service always signs, every stored checkpoint verifies under its key at any time of any run; if it never
      does, none verifies. */
  lemma {:induction false} SignedRunVerifies(s: System, actions: seq<Action>, t: System, key: Key, signs: bool)
    requires VerdictsAre(s, key, signs) && Run(s, actions, t) && SignsAll(s, actions, key, signs)
    ensures VerdictsAre(t, key, signs)
    decreases |actions|
  {
    if actions != [] {
      VerdictStep(s, actions[0], key, signs);
      SignedRunVerifies(Apply(s, actions[0]), actions[1..], t, key, signs);
    }
    hide Enabled, Apply, VerdictsAre;
  }

  // ---- overlapping requests ----

  /** One more step at the end of a run. */
  lemma {:induction false} Extend(s: System, actions: seq<Action>, m: System, a: Action, t: System)
    requires Run(s, actions, m) && Enabled(m, a) && Apply(m, a) == t
    ensures Run(s, actions + [a], t)
    decreases |actions|
  {
    if actions == [] {
      assert Run(t, [], t);
    } else {
      Extend(Apply(s, actions[0]), actions[1..], m, a, t);
      assert (actions + [a])[0] == actions[0] && (actions + [a])[1..] == actions[1..] + [a];
    }
  }

  const NO_REPLY: Reply := Reply(None, None)

  function TwoRequests(shared: Shared, first: Phase, second: Phase): System {
    System(shared, map[0 := Request(false, first), 1 := Request(false, second)])
  }

  /** One record is committed, and size 1 can be scanned. */
  lemma OneCommit(ea: AuditEntry) returns (actions: seq<Action>, one: Shared)
    ensures one == Shared(map[ea.id := Some(0)], 1, [ea], map[], []) && ScansTo(one, 1)
    ensures Run(INITIAL, actions, System(one, map[]))
  {
    one := Shared(map[ea.id := Some(0)], 1, [ea], map[], []);
    assert one.records[ea.id] == Some(0);
    var s1 := System(Shared(map[ea.id := None], 0, [ea], map[], []), map[]);
    Extend(INITIAL, [], INITIAL, Ingest(ea), s1);
    Extend(INITIAL, [Ingest(ea)], s1, Commit(Some(ea.id)), System(one, map[]));
    actions := [Ingest(ea), Commit(Some(ea.id))];
  }

  /** Two records committed; one request has scanned after the first commit, another after the second. */
  lemma TwoScans(ea: AuditEntry, eb: AuditEntry) returns (actions: seq<Action>)
    requires ea.id != eb.id
    ensures var shared := Shared(map[ea.id := Some(0), eb.id := Some(1)], 2, [ea, eb], map[], []);
      Run(INITIAL, actions, TwoRequests(shared, Scanned(1), Scanned(2)))
  {
    var one;
    actions, one := OneCommit(ea);
    var two := Shared(map[ea.id := Some(0), eb.id := Some(1)], 2, [ea, eb], map[], []);
    assert ScansTo(two, 2) by { assert two.records[eb.id] == Some(1); }
    var s3 := System(one, map[0 := Request(false, Arrived)]);
    var s4 := System(one, map[0 := Request(false, Scanned(1))]);
    var s5 := s4.(shared := Shared(map[ea.id := Some(0), eb.id := None], 1, [ea, eb], map[], []));
    var s6 := s4.(shared := two);
    var s7 := TwoRequests(two, Scanned(1), Arrived);
    Extend(INITIAL, actions, System(one, map[]), Arrive(0, false), s3);
    actions := actions + [Arrive(0, false)];
    Extend(INITIAL, actions, s3, Scan(0, 1), s4);
    actions := actions + [Scan(0, 1)];
    Extend(INITIAL, actions, s4, Ingest(eb), s5);
    actions := actions + [Ingest(eb)];
    Extend(INITIAL, actions, s5, Commit(Some(eb.id)), s6);
    actions := actions + [Commit(Some(eb.id))];
    Extend(INITIAL, actions, s6, Arrive(1, false), s7);
    actions := actions + [Arrive(1, false)];
    Extend(INITIAL, actions, s7, Scan(1, 2), TwoRequests(two, Scanned(1), Scanned(2)));
    actions := actions + [Scan(1, 2)];
  }

  /** Both of those requests miss the lookup. */
  lemma TwoSignings(ea: AuditEntry, eb: AuditEntry) returns (actions: seq<Action>)
    requires ea.id != eb.id
    ensures var shared := Shared(map[ea.id := Some(0), eb.id := Some(1)], 2, [ea, eb], map[], []);
      Run(INITIAL, actions, TwoRequests(shared, Signing(1), Signing(2)))
  {
    actions := TwoScans(ea, eb);
    var shared := Shared(map[ea.id := Some(0), eb.id := Some(1)], 2, [ea, eb], map[], []);
    var s1 := TwoRequests(shared, Signing(1), Scanned(2));
    Extend(INITIAL, actions, TwoRequests(shared, Scanned(1), Scanned(2)), Lookup(0), s1);
    actions := actions + [Lookup(0)];
    Extend(INITIAL, actions, s1, Lookup(1), TwoRequests(shared, Signing(1), Signing(2)));
    actions := actions + [Lookup(1)];
  }

  /** A request that has missed gets its reply and publishes while another stays where it is. */
  lemma PublishBeside(
      actions: seq<Action>, s: System, rid: nat, size: nat, beside: map<nat, Request>)
    returns (more: seq<Action>, t: System)
    requires rid !in beside && s.live == beside[rid := Request(false, Signing(size))] && Run(INITIAL, actions, s)
    ensures Run(INITIAL, more, t) && t == System(AfterPublish(s.shared, SignedCheckpoint(size, NO_REPLY)), beside)
  {
    hide MayCommit, ScansTo, AfterPublish, SignedCheckpoint;
    var cp := SignedCheckpoint(size, NO_REPLY);
    var m := s.(live := beside[rid := Request(false, Ready(cp))]);
    t := System(AfterPublish(s.shared, cp), beside);
    Extend(INITIAL, actions, s, Sign(rid, NO_REPLY), m);
    assert m.live - {rid} == beside;
    Extend(INITIAL, actions + [Sign(rid, NO_REPLY)], m, Publish(rid), t);
    more := actions + [Sign(rid, NO_REPLY)] + [Publish(rid)];
  }

  /** Overlapping requests can publish out of order: the earlier scan is published after the later one. */
  lemma OverlapCanDisorder(ea: AuditEntry, eb: AuditEntry) returns (actions: seq<Action>, t: System)
    requires ea.id != eb.id
    ensures Run(INITIAL, actions, t) && t.shared.order == [2, 1]
  {
    actions := TwoSignings(ea, eb);
    var shared := Shared(map[ea.id := Some(0), eb.id := Some(1)], 2, [ea, eb], map[], []);
    actions, t := PublishBeside(
      actions, TwoRequests(shared, Signing(1), Signing(2)), 1, 2, map[0 := Request(false, Signing(1))]);
    actions, t := PublishBeside(actions, t, 0, 1, map[]);
  }

  /** Two requests can both miss the lookup of the same size. */
  lemma SecondMissIsReachable(ea: AuditEntry) returns (actions: seq<Action>, t: System)
    ensures Run(INITIAL, actions, t) && t.shared.history == map[]
    ensures 0 in t.live && 1 in t.live && t.live[0].phase == Signing(1) == t.live[1].phase
  {
    hide ScansTo, MayCommit;
    var one;
    actions, one := OneCommit(ea);
    var s3 := System(one, map[0 := Request(false, Arrived)]);
    var s4 := TwoRequests(one, Arrived, Arrived);
    var s5 := TwoRequests(one, Scanned(1), Arrived);
    var s6 := TwoRequests(one, Scanned(1), Scanned(1));
    var s7 := TwoRequests(one, Signing(1), Scanned(1));
    t := TwoRequests(one, Signing(1), Signing(1));
    Extend(INITIAL, actions, System(one, map[]), Arrive(0, false), s3);
    actions := actions + [Arrive(0, false)];
    Extend(INITIAL, actions, s3, Arrive(1, false), s4);
    actions := actions + [Arrive(1, false)];
    Extend(INITIAL, actions, s4, Scan(0, 1), s5);
    actions := actions + [Scan(0, 1)];
    Extend(INITIAL, actions, s5, Scan(1, 1), s6);
    actions := actions + [Scan(1, 1)];
    Extend(INITIAL, actions, s6, Lookup(0), s7);
    actions := actions + [Lookup(0)];
    Extend(INITIAL, actions, s7, Lookup(1), t);
    actions := actions + [Lookup(1)];
  }

  lemma TwoSteps(s: System, a: Action, b: Action) returns (t: System)
    requires Enabled(s, a) && Enabled(Apply(s, a), b)
    ensures t == Apply(Apply(s, a), b) && Run(s, [a, b], t)
  {
    t := Apply(Apply(s, a), b);
    assert Run(t, [], t);
    assert [a, b][1..] == [b] && [b][1..] == [];
    assert Run(Apply(s, a), [b], t);
  }

  /** Two requests that both missed the lookup of one size overwrite each other: the later reply replaces a
      checkpoint that was already stored and answered. */
  lemma OverlapCanRewrite(s: System, p: nat, q: nat, first: Reply, second: Reply) returns (m: System, t: System)
    requires p in s.live && q in s.live && p != q
    requires s.live[p].phase == s.live[q].phase && s.live[p].phase.Signing?
    ensures var size := s.live[p].phase.size;
      && Run(s, [Sign(p, first), Publish(p)], m) && Recorded(m.shared, size) == SignedCheckpoint(size, first)
      && Run(m, [Sign(q, second), Publish(q)], t) && Recorded(t.shared, size) == SignedCheckpoint(size, second)
  {
    m := TwoSteps(s, Sign(p, first), Publish(p));
    t := TwoSteps(m, Sign(q, second), Publish(q));
  }

  // ---- exactly when a stored checkpoint can change ----

  /** The request has missed the lookup of a size that has been stored since, and would store something else. */
  ghost predicate Overwrites(s: Shared, phase: Phase, size: nat)
    requires size in s.history
  {
    phase == Signing(size) || (phase.Ready? && phase.cp.treeSize == size && phase.cp != s.history[size])
  }

  ghost predicate MissedBefore(s: System, size: nat)
    requires size in s.shared.history
  {
    exists rid :: rid in s.live && Overwrites(s.shared, s.live[rid].phase, size)
  }

  /** Some run from here changes the checkpoint stored under this size. */
  ghost predicate CanChange(s: System, size: nat)
    requires size in s.shared.history
  {
    exists actions, t :: Run(s, actions, t) && Recorded(t.shared, size) != s.shared.history[size]
  }

  lemma StepWithoutMiss(s: System, a: Action, size: nat)
    requires size in s.shared.history && !MissedBefore(s, size) && Enabled(s, a)
    ensures var t := Apply(s, a);
      && size in t.shared.history && t.shared.history[size] == s.shared.history[size]
      && !MissedBefore(t, size)
  {
    hide ScansTo, MayCommit;
    var t := Apply(s, a);
    if a.Publish? {
      assert !Overwrites(s.shared, s.live[a.rid].phase, size);
    }
    forall rid | rid in t.live ensures !Overwrites(t.shared, t.live[rid].phase, size) {
      if rid in s.live {
        assert !Overwrites(s.shared, s.live[rid].phase, size);
      }
    }
  }

  lemma {:induction false} RunWithoutMiss(s: System, actions: seq<Action>, t: System, size: nat)
    requires size in s.shared.history && !MissedBefore(s, size) && Run(s, actions, t)
    ensures size in t.shared.history && t.shared.history[size] == s.shared.history[size]
    decreases |actions|
  {
    if actions != [] {
      StepWithoutMiss(s, actions[0], size);
      RunWithoutMiss(Apply(s, actions[0]), actions[1..], t, size);
    }
  }

  /** A request that has missed before can always change the stored checkpoint. */
  lemma MissChanges(s: System, rid: nat, size: nat) returns (actions: seq<Action>, t: System)
    requires size in s.shared.history && rid in s.live && Overwrites(s.shared, s.live[rid].phase, size)
    ensures Run(s, actions, t) && Recorded(t.shared, size) != s.shared.history[size]
  {
    if s.live[rid].phase.Ready? {
      actions, t := [Publish(rid)], Apply(s, Publish(rid));
      assert Run(t, [], t);
    } else {
      var other := if s.shared.history[size].signature == Placeholder then Some(NotBase64("")) else None;
      actions := [Sign(rid, Reply(other, None)), Publish(rid)];
      t := TwoSteps(s, actions[0], actions[1]);
    }
  }

  /** From any state, over all runs: the checkpoint stored under a size can still change exactly when some request
      in flight missed the lookup of that size before it was stored. */
  lemma CanChangeIff(s: System, size: nat)
    requires size in s.shared.history
    ensures CanChange(s, size) <==> MissedBefore(s, size)
  {
    if MissedBefore(s, size) {
      var rid :| rid in s.live && Overwrites(s.shared, s.live[rid].phase, size);
      var actions, t := MissChanges(s, rid, size);
    }
    if CanChange(s, size) && !MissedBefore(s, size) {
      var actions, t :| Run(s, actions, t) && Recorded(t.shared, size) != s.shared.history[size];
      RunWithoutMiss(s, actions, t, size);
      assert false;
    }
  }

  // ---- runs whose requests do not overlap ----

  /** A request arrives only when no other is in flight. */
  ghost predicate Serial(s: System, actions: seq<Action>)
    decreases |actions|
  {
    actions != [] && Enabled(s, actions[0]) ==>
      (actions[0].Arrive? ==> s.live == map[]) && Serial(Apply(s, actions[0]), actions[1..])
  }

  ghost predicate AllBelow(s: Shared, bound: int) {
    forall size :: size in s.history ==> size <= bound
  }

  ghost predicate SerialPhase(s: Shared, phase: Phase) {
    match phase
    case Arrived => true
    case Scanned(size) => AllBelow(s, size)
    case Signing(size) => AllBelow(s, size - 1)
    case Ready(cp) => AllBelow(s, cp.treeSize - 1)
    case Reading(scanned) => AllBelow(s, scanned)
  }

  ghost predicate OneLive(s: System) {
    forall p, q :: p in s.live && q in s.live ==> p == q
  }

  ghost predicate SerialPhases(s: System) {
    forall rid :: rid in s.live ==> SerialPhase(s.shared, s.live[rid].phase)
  }

  ghost predicate SerialInvariant(s: System) {
    Invariant(s) && Increasing(s.shared.order) && OneLive(s) && SerialPhases(s)
  }

  ghost predicate CheckpointsKept(s: Shared, t: Shared) {
    forall size :: size in s.history ==> size in t.history && t.history[size] == s.history[size]
  }

  lemma OneLiveStep(s: System, a: Action)
    requires OneLive(s) && Enabled(s, a) && (a.Arrive? ==> s.live == map[])
    ensures OneLive(Apply(s, a))
  {
    var t := Apply(s, a);
    forall p, q | p in t.live && q in t.live ensures p == q {
      assert a.Arrive? || (p in s.live && q in s.live);
    }
  }

  /** A request that did not overlap publishes a size that no key reaches. */
  lemma SerialPublish(s: Shared, cp: Checkpoint)
    requires CheckpointsAgree(s) && Increasing(s.order) && AllBelow(s, cp.treeSize - 1)
    ensures Increasing(AfterPublish(s, cp).order) && CheckpointsKept(s, AfterPublish(s, cp))
    ensures AllBelow(AfterPublish(s, cp), cp.treeSize)
  {
    PublishKeepsIncreasingIff(s, cp);
    if s.order != [] {
      assert s.order[|s.order| - 1] in s.order;
    }
  }

  lemma SerialPhaseMoves(s: System, a: Action, rid: nat)
    requires SerialInvariant(s) && Enabled(s, a) && !a.Publish? && rid in Apply(s, a).live
    ensures SerialPhase(Apply(s, a).shared, Apply(s, a).live[rid].phase)
  {
    if a.Scan? {
      ScanFindsNext(s.shared, a.size);
      assert AllBelow(s.shared, s.shared.next);
    }
    if rid in s.live {
      assert SerialPhase(s.shared, s.live[rid].phase);
    }
    hide Consistent, ScansTo, MayCommit;
  }

  lemma SerialPhasePublished(s: System, publisher: nat, rid: nat)
    requires SerialInvariant(s) && Enabled(s, Publish(publisher)) && rid in Apply(s, Publish(publisher)).live
    ensures SerialPhase(Apply(s, Publish(publisher)).shared, Apply(s, Publish(publisher)).live[rid].phase)
  {
    assert rid == publisher;
    assert SerialPhase(s.shared, s.live[publisher].phase);
    SerialPublish(s.shared, s.live[publisher].phase.cp);
    hide Increasing, CheckpointsKept, Invariant;
  }

  lemma SerialSharedStep(s: System, a: Action)
    requires SerialInvariant(s) && Enabled(s, a)
    ensures Increasing(Apply(s, a).shared.order) && CheckpointsKept(s.shared, Apply(s, a).shared)
  {
    if a.Publish? {
      assert SerialPhase(s.shared, s.live[a.rid].phase);
      SerialPublish(s.shared, s.live[a.rid].phase.cp);
    } else {
      hide Increasing, Invariant, OneLive, SerialPhases;
      assert Apply(s, a).shared.history == s.shared.history && Apply(s, a).shared.order == s.shared.order;
    }
  }

  lemma SerialStep(s: System, a: Action)
    requires SerialInvariant(s) && Enabled(s, a) && (a.Arrive? ==> s.live == map[])
    ensures SerialInvariant(Apply(s, a)) && CheckpointsKept(s.shared, Apply(s, a).shared)
  {
    StepKeepsInvariant(s, a);
    OneLiveStep(s, a);
    SerialSharedStep(s, a);
    forall rid | rid in Apply(s, a).live ensures SerialPhase(Apply(s, a).shared, Apply(s, a).live[rid].phase) {
      if a.Publish? {
        SerialPhasePublished(s, a.rid, rid);
      } else {
        SerialPhaseMoves(s, a, rid);
      }
    }
    hide Invariant, OneLive, Increasing, CheckpointsKept;
  }

  /** In a run whose requests do not overlap the order of the checkpoints is increasing and every checkpoint is
      written once, its signature included. */
  lemma {:induction false} SerialRunKeeps(s: System, actions: seq<Action>, t: System)
    requires SerialInvariant(s) && Run(s, actions, t) && Serial(s, actions)
    ensures SerialInvariant(t) && Increasing(t.shared.order)
    ensures CheckpointsKept(s.shared, t.shared)
    decreases |actions|
  {
    if actions != [] {
      SerialStep(s, actions[0]);
      SerialRunKeeps(Apply(s, actions[0]), actions[1..], t);
    }
  }

  /** What such a run has stored is final: no continuation changes it, overlapping requests included. */
  lemma SerialCheckpointsAreFinal(s: System, size: nat)
    requires SerialInvariant(s) && size in s.shared.history
    ensures !CanChange(s, size)
  {
    CanChangeIff(s, size);
    forall rid | rid in s.live ensures !Overwrites(s.shared, s.live[rid].phase, size) {
      assert SerialPhase(s.shared, s.live[rid].phase);
    }
  }

  lemma InitialIsSerial()
    ensures SerialInvariant(INITIAL)
  {
    EmptyConsistent();
  }

  lemma EntryAt(s: Shared, i: nat, bound: nat)
    requires CheckpointsAgree(s) && AllBelow(s, bound) && i < |s.order|
    ensures Entries(s)[i].treeSize == s.order[|s.order| - 1 - i]
    ensures 1 <= s.order[|s.order| - 1 - i] <= bound
  {
    var size := s.order[|s.order| - 1 - i];
    assert size in s.order;
    assert size in s.history;
    assert Entries(s)[i] == Recorded(s, size);
  }

  /** What a history request reads when requests do not overlap: tree sizes from the size it scanned downwards,
      each once, and nothing when nothing was committed. */
  lemma HistoryNewestFirst(s: System, rid: nat)
    requires SerialInvariant(s) && rid in s.live && s.live[rid].phase.Reading?
    ensures var scanned, entries := s.live[rid].phase.scanned, Entries(s.shared);
      && (scanned == 0 <==> entries == [])
      && (0 < scanned ==> entries[0].treeSize == scanned)
      && (forall i, j :: 0 <= i < j < |entries| ==> entries[j].treeSize < entries[i].treeSize)
      && (forall cp :: cp in entries <==> exists size :: size in s.shared.history && cp == s.shared.history[size])
  {
    var sh, scanned := s.shared, s.live[rid].phase.scanned;
    assert PhaseAgrees(sh, s.live[rid].phase) && SerialPhase(sh, s.live[rid].phase);
    var n := |sh.order|;
    forall i: nat | i < n
      ensures Entries(sh)[i].treeSize == sh.order[n - 1 - i] && 1 <= sh.order[n - 1 - i] <= scanned
    {
      EntryAt(sh, i, scanned);
    }
    if 0 < n {
      EntryAt(sh, 0, scanned);
    }
    forall cp ensures cp in Entries(sh) <==> exists size :: size in sh.history && cp == sh.history[size] {
      EntriesAreStored(sh, cp);
    }
    if 0 < scanned {
      assert scanned in sh.order;
      var i :| 0 <= i < n && sh.order[i] == scanned;
    }
  }

  /** From the start: without overlap, the order is increasing and a history request that is about to read gets
      the size it scanned first and smaller sizes after it. */
  lemma SerialHistory(actions: seq<Action>, t: System, rid: nat)
    requires Run(INITIAL, actions, t) && Serial(INITIAL, actions)
    requires rid in t.live && t.live[rid].phase.Reading?
    ensures Increasing(t.shared.order)
    ensures var scanned, entries := t.live[rid].phase.scanned, Entries(t.shared);
      && scanned <= t.shared.next
      && (scanned == 0 <==> entries == [])
      && (0 < scanned ==> entries[0].treeSize == scanned)
      && (forall i, j :: 0 <= i < j < |entries| ==> entries[j].treeSize < entries[i].treeSize)
  {
    InitialIsSerial();
    SerialRunKeeps(INITIAL, actions, t);
    assert PhaseAgrees(t.shared, t.live[rid].phase);
    HistoryNewestFirst(t, rid);
  }

  lemma SerialAdvance(s: System, actions: seq<Action>, m: System, a: Action) returns (more: seq<Action>, t: System)
    requires Run(s, actions, m) && SerialInvariant(m) && Enabled(m, a) && (a.Arrive? ==> m.live == map[])
    ensures more == actions + [a] && t == Apply(m, a) && Run(s, more, t) && SerialInvariant(t)
  {
    more, t := actions + [a], Apply(m, a);
    Extend(s, actions, m, a, t);
    SerialStep(m, a);
  }

  /** A history request that nothing disturbs gets through, and it reads the current tree size first; it reads
      nothing exactly when nothing was committed. */
  lemma UndisturbedHistory(s: System, rid: nat, reply: Reply) returns (actions: seq<Action>, t: System)
    requires SerialInvariant(s) && s.live == map[]
    ensures Run(s, actions, t) && t.shared.next == s.shared.next
    ensures rid in t.live && t.live[rid].phase == Reading(s.shared.next)
    ensures t.shared == if s.shared.next == 0 || s.shared.next in s.shared.history then s.shared
                        else AfterPublish(s.shared, SignedCheckpoint(s.shared.next, reply))
    ensures var size, entries := s.shared.next, Entries(t.shared);
      (size == 0 <==> entries == []) && (0 < size ==> entries[0].treeSize == size)
  {
    var size := s.shared.next;
    assert Run(s, [], s);
    actions, t := SerialAdvance(s, [], s, Arrive(rid, true));
    ScanFindsNext(t.shared, size);
    actions, t := SerialAdvance(s, actions, t, Scan(rid, size));
    if size != 0 {
      actions, t := SerialAdvance(s, actions, t, Lookup(rid));
      if size !in s.shared.history {
        actions, t := SerialAdvance(s, actions, t, Sign(rid, reply));
        actions, t := SerialAdvance(s, actions, t, Publish(rid));
      }
    }
    HistoryNewestFirst(t, rid);
  }
}
