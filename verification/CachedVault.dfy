/** The handler's own map beside an initialised store: ingests save in both, the committer asks the store first and
    falls back to the local counter when the store has nothing pending. */
module CachedVault {
  import opened VaultModel
  import opened Stores

  /** Where the single committer stands within a pass. */
  datatype Committer =
    | Idle
    | Holding(id: Id, leaf: nat)  // the store has assigned; the local record comes next
    | Drained(seen: set<Id>)      // the store, then holding these ids, had nothing pending; the local loop comes next

  datatype System = System(
    local: map<Id, Option<nat>>,
    localNext: nat,
    store: Table,
    saving: set<Id>,              // recorded locally, not yet saved in the store
    committer: Committer)

  const INITIAL: System := System(map[], 0, EMPTY_TABLE, {}, Idle)

  datatype Action =
    | Receive(id: Id)
    | SaveInStore(id: Id)
    | Ask(out: Output)
    | Record
    | Fallback(choice: Option<Id>)

  function StoreAfter(t: Table, out: Output): Table {
    if out.Assigned? then AfterAssign(t, out.id) else t
  }

  ghost predicate Enabled(s: System, a: Action) {
    match a
    case Receive(id) => id !in s.local && id !in s.store.ev
    case SaveInStore(id) => id in s.saving
    case Ask(out) => s.committer.Idle? && MemStep(s.store, Op.Assign, out, StoreAfter(s.store, out))
    case Record => s.committer.Holding?
    case Fallback(choice) => s.committer.Drained? && match choice
      case None => forall id :: id in s.local ==> s.local[id].Some?
      case Some(id) => id in s.local && s.local[id] == None
  }

  function Apply(s: System, a: Action): System
    requires Enabled(s, a)
  {
    match a
    case Receive(id) => s.(local := s.local[id := None], saving := s.saving + {id})
    case SaveInStore(id) => s.(store := s.store.(ev := s.store.ev[id := None]), saving := s.saving - {id})
    case Ask(out) =>
      s.(store := StoreAfter(s.store, out),
         committer := if out.Assigned? then Holding(out.id, out.leaf) else Drained(s.store.ev.Keys))
    case Record =>
      var c := s.committer;
      s.(local := if c.id in s.local then s.local[c.id := Some(c.leaf)] else s.local, committer := Idle)
    case Fallback(choice) =>
      if choice == None then s.(committer := Idle)
      else s.(local := s.local[choice.value := Some(s.localNext)], localNext := s.localNext + 1, committer := Idle)
  }

  ghost predicate Run(s: System, actions: seq<Action>, t: System)
    decreases |actions|
  {
    if actions == [] then t == s else Enabled(s, actions[0]) && Run(Apply(s, actions[0]), actions[1..], t)
  }

  // ---- agreement while the local counter was never used ----

  /** What the local map should show for an id that the store holds. */
  function Shown(s: System, id: Id): Option<nat>
    requires id in s.store.ev
  {
    if s.committer.Holding? && s.committer.id == id then None else s.store.ev[id]
  }

  ghost predicate Agrees(s: System) {
    && (forall id :: id in s.local <==> id in s.saving || id in s.store.ev)
    && (forall id :: id in s.saving ==> id !in s.store.ev && id in s.local && s.local[id] == None)
    && (forall id :: id in s.store.ev ==> id in s.local && s.local[id] == Shown(s, id))
    && (match s.committer
        case Idle => true
        case Holding(id, leaf) => id in s.store.ev && s.store.ev[id] == Some(leaf)
        case Drained(seen) => forall id :: id in s.store.ev ==> (s.store.ev[id] == None <==> id !in seen))
    && (s.committer.Drained? ==> s.committer.seen <= s.store.ev.Keys)
  }

  lemma AskKeeps(s: System, out: Output)
    requires Agrees(s) && Enabled(s, Ask(out))
    ensures Agrees(Apply(s, Ask(out)))
  {
    if !out.Assigned? {
      forall id | id in s.store.ev ensures s.store.ev[id].Some? {
        assert !IsPending(s.store, id);
      }
    }
  }

  /** The local index is neither the store's nor pending. */
  lemma FallbackBreaks(s: System, choice: Option<Id>)
    requires Agrees(s) && Enabled(s, Fallback(choice))
    ensures Agrees(Apply(s, Fallback(choice))) <==> choice == None
  {
    if choice.Some? {
      var t, id := Apply(s, Fallback(choice)), choice.value;
      if id in s.store.ev {
        assert s.local[id] == Shown(s, id);
        assert t.local[id] != Shown(t, id);
      } else {
        assert id in t.saving && t.local[id] != None;
      }
    }
  }

  lemma ReceiveKeeps(s: System, id: Id)
    requires Agrees(s) && Enabled(s, Receive(id))
    ensures Agrees(Apply(s, Receive(id)))
  {
  }

  lemma RecordKeeps(s: System)
    requires Agrees(s) && Enabled(s, Record)
    ensures Agrees(Apply(s, Record))
  {
  }

  lemma SaveKeeps(s: System, id: Id)
    requires Agrees(s) && Enabled(s, SaveInStore(id))
    ensures Agrees(Apply(s, SaveInStore(id)))
  {
  }

  /** A step loses the agreement exactly when it is an assigning fallback, whatever overlaps what. */
  lemma StepKeepsAgreement(s: System, a: Action)
    requires Agrees(s) && Enabled(s, a)
    ensures Apply(s, a).localNext == s.localNext <==> !(a.Fallback? && a.choice.Some?)
    ensures Agrees(Apply(s, a)) <==> !(a.Fallback? && a.choice.Some?)
  {
    match a {
      case Receive(id) => ReceiveKeeps(s, id);
      case SaveInStore(id) => SaveKeeps(s, id);
      case Ask(out) => AskKeeps(s, out);
      case Record => RecordKeeps(s);
      case Fallback(choice) => FallbackBreaks(s, choice);
    }
    hide Agrees;
  }

  lemma {:induction false} CounterGrows(s: System, actions: seq<Action>, t: System)
    requires Run(s, actions, t)
    ensures s.localNext <= t.localNext
    decreases |actions|
  {
    if actions != [] {
      CounterGrows(Apply(s, actions[0]), actions[1..], t);
    }
  }

  /** In every interleaving from the start: as long as the local counter was never used, the local map shows the
      store's index for every saved id, the one in the committer's hands excepted, and pending for the others. */
  lemma {:induction false} RunKeepsAgreement(s: System, actions: seq<Action>, t: System)
    requires Agrees(s) && Run(s, actions, t)
    ensures s.localNext <= t.localNext
    ensures t.localNext == s.localNext ==> Agrees(t)
    decreases |actions|
  {
    if actions != [] {
      var m := Apply(s, actions[0]);
      StepKeepsAgreement(s, actions[0]);
      if m.localNext == s.localNext {
        RunKeepsAgreement(m, actions[1..], t);
      } else {
        CounterGrows(m, actions[1..], t);
      }
    }
  }

  /** The first use of the local counter, in any interleaving: the local loop finds a pending record exactly when
      some ingest recorded its id locally although the store had not held it when asked. */
  lemma FallbackAssignsIff(actions: seq<Action>, t: System)
    requires Run(INITIAL, actions, t) && t.localNext == 0 && t.committer.Drained?
    ensures (exists id :: Enabled(t, Fallback(Some(id)))) <==> exists id :: id in t.local && id !in t.committer.seen
  {
    RunKeepsAgreement(INITIAL, actions, t);
    forall id ensures Enabled(t, Fallback(Some(id))) <==> id in t.local && id !in t.committer.seen {
      if id in t.store.ev {
        assert t.local[id] == Shown(t, id);
      }
    }
  }

  /** So the agreement, while it holds, can be lost in one step exactly there. */
  lemma AgreementCanBreakIff(actions: seq<Action>, t: System)
    requires Run(INITIAL, actions, t) && t.localNext == 0
    ensures (exists a :: Enabled(t, a) && !Agrees(Apply(t, a)))
       <==> t.committer.Drained? && exists id :: id in t.local && id !in t.committer.seen
  {
    RunKeepsAgreement(INITIAL, actions, t);
    forall a | Enabled(t, a) ensures Agrees(Apply(t, a)) <==> !(a.Fallback? && a.choice.Some?) {
      StepKeepsAgreement(t, a);
    }
    if t.committer.Drained? {
      FallbackAssignsIff(actions, t);
      if id :| id in t.local && id !in t.committer.seen {
        var x :| Enabled(t, Fallback(Some(x)));
        assert !Agrees(Apply(t, Fallback(Some(x))));
      }
    }
  }

  function Fallbacks(actions: seq<Action>): nat {
    if actions == [] then 0
    else (if actions[0].Fallback? && actions[0].choice.Some? then 1 else 0) + Fallbacks(actions[1..])
  }

  lemma {:induction false} FallbacksCounted(s: System, actions: seq<Action>, t: System)
    requires Run(s, actions, t)
    ensures t.localNext == s.localNext + Fallbacks(actions)
    decreases |actions|
  {
    if actions != [] {
      FallbacksCounted(Apply(s, actions[0]), actions[1..], t);
    }
  }

  /** In every run the assigning fallbacks hand out 0, 1, 2, ... in turn, whatever indices the store has assigned. */
  lemma FallbacksInTurn(actions: seq<Action>, t: System, id: Id)
    requires Run(INITIAL, actions, t) && Enabled(t, Fallback(Some(id)))
    ensures t.local[id] == None
    ensures Apply(t, Fallback(Some(id))) == t.(local := t.local[id := Some(Fallbacks(actions))],
                                               localNext := Fallbacks(actions) + 1, committer := Idle)
  {
    FallbacksCounted(INITIAL, actions, t);
  }

  // ---- no ingest overlaps a committer pass ----

  ghost predicate Quiet(s: System) {
    s.saving == {} && s.committer.Idle?
  }

  /** An ingest starts only between passes, and a pass starts only when every ingest has reached the store. */
  ghost predicate Serial(s: System, actions: seq<Action>)
    decreases |actions|
  {
    actions != [] && Enabled(s, actions[0]) ==>
      && (actions[0].Receive? ==> s.committer.Idle?)
      && (actions[0].Ask? ==> s.saving == {})
      && Serial(Apply(s, actions[0]), actions[1..])
  }

  ghost predicate SerialAgrees(s: System) {
    && Agrees(s) && s.localNext == 0
    && (s.saving == {} || s.committer.Idle?)
    && (s.committer.Drained? ==> s.committer.seen == s.store.ev.Keys)
  }

  lemma NothingToFallBackOn(s: System)
    requires SerialAgrees(s) && s.committer.Drained?
    ensures forall id :: id in s.local ==> s.local[id].Some?
  {
    forall id | id in s.local ensures s.local[id].Some? {
      assert s.local[id] == Shown(s, id);
    }
  }

  lemma SerialStep(s: System, a: Action)
    requires SerialAgrees(s) && Enabled(s, a)
    requires a.Receive? ==> s.committer.Idle?
    requires a.Ask? ==> s.saving == {}
    ensures SerialAgrees(Apply(s, a))
  {
    if s.committer.Drained? {
      NothingToFallBackOn(s);
    }
    StepKeepsAgreement(s, a);
    hide Agrees, MemStep;
  }

  /** Then the local counter is never used, and between passes the local map equals the store's. */
  lemma {:induction false} SerialRunsAgree(s: System, actions: seq<Action>, t: System)
    requires SerialAgrees(s) && Run(s, actions, t) && Serial(s, actions)
    ensures t.localNext == 0 && SerialAgrees(t)
    ensures Quiet(t) ==> t.local == t.store.ev
    decreases |actions|
  {
    if actions != [] {
      SerialStep(s, actions[0]);
      SerialRunsAgree(Apply(s, actions[0]), actions[1..], t);
    } else if Quiet(t) {
      assert t.local.Keys == t.store.ev.Keys;
      forall id | id in t.local ensures t.local[id] == t.store.ev[id] {
        assert t.local[id] == Shown(t, id);
      }
    }
  }

  lemma InitialAgrees()
    ensures SerialAgrees(INITIAL)
  {
  }

  /** Every run from the start in which no ingest overlaps a pass. */
  lemma SerialRunsFromStart(actions: seq<Action>, t: System)
    requires Run(INITIAL, actions, t) && Serial(INITIAL, actions)
    ensures t.localNext == 0
    ensures Quiet(t) ==> t.local == t.store.ev
  {
    InitialAgrees();
    SerialRunsAgree(INITIAL, actions, t);
  }

  // ---- an ingest that overlaps a pass ----

  lemma OneStep(s: System, a: Action, rest: seq<Action>, t: System)
    requires Enabled(s, a) && Run(Apply(s, a), rest, t)
    ensures Run(s, [a] + rest, t)
  {
    assert ([a] + rest)[1..] == rest;
  }

  lemma OverlapThenOverwrites(a: Id, b: Id, m: System) returns (second: seq<Action>, t: System)
    requires a != b
    requires m == System(map[a := Some(0), b := Some(0)], 1, Table(map[a := Some(0)], 1), {b}, Idle)
    ensures Run(m, second, t) && t.local == map[a := Some(0), b := Some(1)]
  {
    var s1 := m.(store := Table(map[a := Some(0), b := None], 1), saving := {});
    var s2 := m.(store := Table(map[a := Some(0), b := Some(1)], 2), saving := {}, committer := Holding(b, 1));
    t := s2.(local := map[a := Some(0), b := Some(1)], committer := Idle);
    assert IsPending(s1.store, b);
    assert Apply(m, SaveInStore(b)) == s1 && Apply(s1, Ask(Assigned(b, 1))) == s2 && Apply(s2, Record) == t;
    assert Run(t, [], t);
    OneStep(s2, Record, [], t);
    OneStep(s1, Ask(Assigned(b, 1)), [Record], t);
    second := [SaveInStore(b)] + ([Ask(Assigned(b, 1))] + [Record]);
    OneStep(m, SaveInStore(b), [Ask(Assigned(b, 1))] + [Record], t);
  }

  /** It can break the agreement: the second record gets index 0 from the local counter although the first one
      already has index 0 from the store, and after the next pass its index has changed to 1. */
  lemma OverlapCanDisagree(a: Id, b: Id)
    returns (first: seq<Action>, m: System, second: seq<Action>, t: System)
    requires a != b
    ensures Run(INITIAL, first, m) && m.local == map[a := Some(0), b := Some(0)]
    ensures Run(m, second, t) && t.local == map[a := Some(0), b := Some(1)]
  {
    var table := Table(map[a := Some(0)], 1);
    var s1 := INITIAL.(local := map[a := None], saving := {a});
    var s2 := System(map[a := None], 0, Table(map[a := None], 0), {}, Idle);
    var s3 := System(map[a := None], 0, table, {}, Holding(a, 0));
    var s4 := System(map[a := Some(0)], 0, table, {}, Idle);
    var s5 := System(map[a := Some(0), b := None], 0, table, {b}, Idle);
    var s6 := s5.(committer := Drained({a}));
    m := System(map[a := Some(0), b := Some(0)], 1, table, {b}, Idle);
    assert s2.store == Table(map[a := None], 0);
    assert IsPending(s2.store, a) && StoreAfter(s2.store, Assigned(a, 0)) == table;
    assert Apply(INITIAL, Receive(a)) == s1 && Apply(s1, SaveInStore(a)) == s2;
    assert Apply(s2, Ask(Assigned(a, 0))) == s3 && Apply(s3, Record) == s4 && Apply(s4, Receive(b)) == s5;
    assert table.ev.Keys == {a};
    assert Apply(s5, Ask(NonePending)) == s6 && Apply(s6, Fallback(Some(b))) == m;
    assert Run(m, [], m);
    OneStep(s6, Fallback(Some(b)), [], m);
    OneStep(s5, Ask(NonePending), [Fallback(Some(b))], m);
    var tail := [Ask(NonePending)] + [Fallback(Some(b))];
    OneStep(s4, Receive(b), tail, m);
    OneStep(s3, Record, [Receive(b)] + tail, m);
    OneStep(s2, Ask(Assigned(a, 0)), [Record] + ([Receive(b)] + tail), m);
    OneStep(s1, SaveInStore(a), [Ask(Assigned(a, 0))] + ([Record] + ([Receive(b)] + tail)), m);
    first := [Receive(a)] + ([SaveInStore(a)] + ([Ask(Assigned(a, 0))] + ([Record] + ([Receive(b)] + tail))));
    OneStep(INITIAL, Receive(a), [SaveInStore(a)] + ([Ask(Assigned(a, 0))] + ([Record] + ([Receive(b)] + tail))), m);
    second, t := OverlapThenOverwrites(a, b, m);
  }
}
