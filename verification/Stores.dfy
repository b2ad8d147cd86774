/** The two implementations of the evidence store (services/vault-api/store/store.go). */
module Stores {
  import opened VaultModel

  datatype Op = Save(id: Id, now: int) | Assign

  datatype Output = Saved | NonePending | Assigned(id: Id, leaf: nat)

  // ---- the memory store: a map and a counter ----

  datatype Table = Table(ev: map<Id, Option<nat>>, next: nat)

  const EMPTY_TABLE: Table := Table(map[], 0)

  predicate IsPending(t: Table, id: Id) {
    id in t.ev && t.ev[id] == None
  }

  function AfterAssign(t: Table, id: Id): Table {
    Table(t.ev[id := Some(t.next)], t.next + 1)
  }

  /** One call: any pending entry may be the one that gets the counter. */
  ghost predicate MemStep(t: Table, op: Op, out: Output, u: Table) {
    match op
    case Save(id, _) => out == Saved && u == t.(ev := t.ev[id := None])
    case Assign =>
      match out
      case Saved => false
      case NonePending => u == t && forall id :: !IsPending(t, id)
      case Assigned(id, leaf) => IsPending(t, id) && leaf == t.next && u == AfterAssign(t, id)
  }

  class MemStore {
    var ev: map<Id, Option<nat>>
    var next: nat

    function Contents(): Table
      reads this
    {
      Table(ev, next)
    }

    constructor ()
      ensures Contents() == EMPTY_TABLE && ev == map[] && next == 0
    {
      ev, next := map[], 0;
    }

    method SaveEvidence(id: Id, ghost now: int)
      modifies this
      ensures MemStep(old(Contents()), Save(id, now), Saved, Contents())
      ensures ev == old(ev)[id := None] && next == old(next)
    {
      ev := ev[id := None];
    }

    method AssignNextPendingLeaf() returns (out: Output)
      modifies this
      ensures MemStep(old(Contents()), Assign, out, Contents())
      ensures out == NonePending <==> forall id :: id in old(ev) ==> old(ev)[id].Some?
      ensures out == NonePending ==> ev == old(ev) && next == old(next)
      ensures out != NonePending ==>
        && out.Assigned? && out.leaf == old(next) && out.id in old(ev) && old(ev)[out.id] == None
        && ev == old(ev)[out.id := Some(old(next))] && next == old(next) + 1
    {
      var rest := ev.Keys;
      while rest != {}
        invariant Contents() == old(Contents()) && rest <= ev.Keys
        invariant forall id :: IsPending(Contents(), id) ==> id in rest
        decreases rest
      {
        var id :| id in rest;
        if ev[id] == None {
          out := Assigned(id, next);
          ev := ev[id := Some(next)];
          next := next + 1;
          return;
        }
        rest := rest - {id};
      }
      forall id | id in ev ensures ev[id].Some? {
        assert !IsPending(Contents(), id);
      }
      return NonePending;
    }

    method GetEvidence(id: Id) returns (found: Option<Option<nat>>)
      ensures found == None <==> id !in ev
      ensures found.Some? ==> ev[id] == found.value
    {
      found := if id in ev then Some(ev[id]) else None;
    }
  }

  // ---- the database store: rows in the order of their insertion ----

  datatype Row = Row(id: Id, leaf: Option<nat>, created: int)

  predicate HasId(rows: seq<Row>, id: Id) {
    exists k :: 0 <= k < |rows| && rows[k].id == id
  }

  /** INSERT with ON CONFLICT DO NOTHING. */
  function AfterInsert(rows: seq<Row>, id: Id, now: int): seq<Row> {
    if HasId(rows, id) then rows else rows + [Row(id, None, now)]
  }

  /** The row that the pending query may return: one without an index, created no later than any other such row. */
  predicate MayPick(rows: seq<Row>, k: nat) {
    && k < |rows| && rows[k].leaf == None
    && forall j :: 0 <= j < |rows| && rows[j].leaf == None ==> rows[k].created <= rows[j].created
  }

  /** One more than max(leaf_index), or 0 when no row has an index. */
  function NextLeaf(rows: seq<Row>): nat {
    if rows == [] then 0
    else
      var rest, last := NextLeaf(rows[..|rows| - 1]), rows[|rows| - 1].leaf;
      if last.Some? && rest <= last.value then last.value + 1 else rest
  }

  function AfterUpdate(rows: seq<Row>, k: nat): seq<Row>
    requires k < |rows|
  {
    rows[k := rows[k].(leaf := Some(NextLeaf(rows)))]
  }

  ghost predicate Picked(rows: seq<Row>, k: nat, id: Id, after: seq<Row>) {
    MayPick(rows, k) && rows[k].id == id && after == AfterUpdate(rows, k)
  }

  ghost predicate PgStep(rows: seq<Row>, op: Op, out: Output, after: seq<Row>) {
    match op
    case Save(id, now) => out == Saved && after == AfterInsert(rows, id, now)
    case Assign =>
      match out
      case Saved => false
      case NonePending => after == rows && forall k :: 0 <= k < |rows| ==> rows[k].leaf.Some?
      case Assigned(id, leaf) =>
        leaf == NextLeaf(rows) && exists k :: Picked(rows, k, id, after)
  }

  lemma {:induction false} EarliestPending(rows: seq<Row>)
    requires exists k :: 0 <= k < |rows| && rows[k].leaf == None
    ensures exists k :: 0 <= k < |rows| && MayPick(rows, k)
  {
    var m := |rows| - 1;
    if exists k :: 0 <= k < m && rows[..m][k].leaf == None {
      EarliestPending(rows[..m]);
      var k :| 0 <= k < m && MayPick(rows[..m], k);
      forall j | 0 <= j < m && rows[j].leaf == None ensures rows[k].created <= rows[j].created {
        assert rows[..m][j] == rows[j];
      }
      if rows[m].leaf == None && rows[m].created < rows[k].created {
        assert MayPick(rows, m);
      } else {
        assert MayPick(rows, k);
      }
    } else {
      forall j | 0 <= j < m ensures rows[j].leaf.Some? {
        assert rows[..m][j] == rows[j];
      }
      assert MayPick(rows, m);
    }
  }

  lemma {:induction false} NextLeafBounds(rows: seq<Row>)
    ensures forall k :: 0 <= k < |rows| && rows[k].leaf.Some? ==> rows[k].leaf.value < NextLeaf(rows)
    ensures 0 < NextLeaf(rows) ==> exists k :: 0 <= k < |rows| && rows[k].leaf == Some(NextLeaf(rows) - 1)
  {
    if rows != [] {
      var init := rows[..|rows| - 1];
      NextLeafBounds(init);
      forall k | 0 <= k < |rows| && rows[k].leaf.Some? ensures rows[k].leaf.value < NextLeaf(rows) {
        if k < |init| {
          assert rows[k] == init[k];
        }
      }
      if 0 < NextLeaf(rows) == NextLeaf(init) {
        var k :| 0 <= k < |init| && init[k].leaf == Some(NextLeaf(init) - 1);
        assert rows[k].leaf == Some(NextLeaf(rows) - 1);
      }
    }
  }

  class PgStore {
    var rows: seq<Row>

    constructor ()
      ensures rows == []
    {
      rows := [];
    }

    method SaveEvidence(id: Id, now: int)
      modifies this
      ensures PgStep(old(rows), Save(id, now), Saved, rows)
      ensures HasId(rows, id) && old(rows) <= rows
      ensures HasId(old(rows), id) ==> rows == old(rows)
      ensures !HasId(old(rows), id) ==> |rows| == |old(rows)| + 1 && rows[|old(rows)|] == Row(id, None, now)
    {
      if forall k :: 0 <= k < |rows| ==> rows[k].id != id {
        rows := rows + [Row(id, None, now)];
        assert rows[|rows| - 1].id == id;
      }
    }

    /** A serial transaction: pick, take the maximum, update, commit. */
    method AssignNextPendingLeaf() returns (out: Output)
      modifies this
      ensures PgStep(old(rows), Assign, out, rows)
      ensures out == NonePending <==> forall k :: 0 <= k < |old(rows)| ==> old(rows)[k].leaf.Some?
      ensures out == NonePending ==> rows == old(rows)
      ensures out != NonePending ==>
        && out.Assigned? && exists k ::
          && 0 <= k < |old(rows)| && old(rows)[k].id == out.id && old(rows)[k].leaf == None
          && rows == old(rows)[k := Row(out.id, Some(out.leaf), old(rows)[k].created)]
          && forall j :: 0 <= j < |rows| && old(rows)[j].leaf == None ==> old(rows)[k].created <= old(rows)[j].created
      ensures out != NonePending ==>
        && (forall j :: 0 <= j < |rows| && old(rows)[j].leaf.Some? ==> old(rows)[j].leaf.value < out.leaf)
        && (0 < out.leaf ==> exists j :: 0 <= j < |rows| && old(rows)[j].leaf == Some(out.leaf - 1))
    {
      if forall k :: 0 <= k < |rows| ==> rows[k].leaf.Some? {
        return NonePending;
      }
      EarliestPending(rows);
      var k :| 0 <= k < |rows| && MayPick(rows, k);
      var tmp := NextLeaf(rows);
      NextLeafBounds(rows);
      out := Assigned(rows[k].id, tmp);
      assert Picked(rows, k, rows[k].id, AfterUpdate(rows, k));
      rows := rows[k := rows[k].(leaf := Some(tmp))];
    }
  }

  // ---- the maximum ----

  lemma NextLeafUnique(rows: seq<Row>, n: nat)
    requires forall k :: 0 <= k < |rows| && rows[k].leaf.Some? ==> rows[k].leaf.value < n
    requires 0 < n ==> exists k :: 0 <= k < |rows| && rows[k].leaf == Some(n - 1)
    ensures NextLeaf(rows) == n
  {
    NextLeafBounds(rows);
  }

  lemma NextLeafAfterUpdate(rows: seq<Row>, k: nat)
    requires k < |rows|
    requires rows[k].leaf == None
    ensures NextLeaf(AfterUpdate(rows, k)) == NextLeaf(rows) + 1
  {
    NextLeafBounds(rows);
    assert AfterUpdate(rows, k)[k].leaf == Some(NextLeaf(rows));
    NextLeafUnique(AfterUpdate(rows, k), NextLeaf(rows) + 1);
  }

  // ---- refinement ----

  /** The rows hold the entries of the map, and the counter is one more than the maximum. */
  ghost predicate Represents(rows: seq<Row>, t: Table) {
    && (forall i, j :: 0 <= i < j < |rows| ==> rows[i].id != rows[j].id)
    && (forall id :: id in t.ev <==> HasId(rows, id))
    && (forall k :: 0 <= k < |rows| ==> rows[k].id in t.ev && t.ev[rows[k].id] == rows[k].leaf)
    && t.next == NextLeaf(rows)
  }

  lemma NextLeafAfterInsert(rows: seq<Row>, id: Id, now: int)
    requires !HasId(rows, id)
    ensures NextLeaf(AfterInsert(rows, id, now)) == NextLeaf(rows)
  {
    assert AfterInsert(rows, id, now)[..|rows|] == rows;
  }

  lemma HasIdAfterInsert(rows: seq<Row>, id: Id, now: int, x: Id)
    ensures HasId(AfterInsert(rows, id, now), x) <==> x == id || HasId(rows, x)
  {
    var more := AfterInsert(rows, id, now);
    if HasId(rows, x) {
      var k :| 0 <= k < |rows| && rows[k].id == x;
      assert more[k].id == x;
    } else if x == id {
      assert more[|rows|].id == x;
    }
  }

  lemma IdsAfterInsert(rows: seq<Row>, t: Table, id: Id, now: int)
    requires Represents(rows, t) && !HasId(rows, id)
    ensures var more, u := AfterInsert(rows, id, now), t.(ev := t.ev[id := None]);
      && (forall i, j :: 0 <= i < j < |more| ==> more[i].id != more[j].id)
      && (forall k :: 0 <= k < |more| ==> more[k].id in u.ev && u.ev[more[k].id] == more[k].leaf)
  {
    assert forall k :: 0 <= k < |rows| ==> rows[k].id != id;
    hide NextLeaf, HasId;
  }

  lemma InsertRefines(rows: seq<Row>, t: Table, id: Id, now: int)
    requires Represents(rows, t) && !HasId(rows, id)
    ensures Represents(AfterInsert(rows, id, now), t.(ev := t.ev[id := None]))
  {
    var more, u := AfterInsert(rows, id, now), t.(ev := t.ev[id := None]);
    NextLeafAfterInsert(rows, id, now);
    forall x ensures x in u.ev <==> HasId(more, x) {
      HasIdAfterInsert(rows, id, now, x);
    }
    IdsAfterInsert(rows, t, id, now);
    hide NextLeaf, HasId;
  }

  /** The two stores treat a save alike exactly when the id has no index yet: the table ignores a repeated save,
      the map forgets the index. */
  lemma SaveRefinesIff(rows: seq<Row>, t: Table, id: Id, now: int)
    requires Represents(rows, t)
    ensures Represents(AfterInsert(rows, id, now), t.(ev := t.ev[id := None]))
       <==> (id in t.ev ==> t.ev[id] == None)
  {
    if !HasId(rows, id) {
      InsertRefines(rows, t, id, now);
    } else {
      var k :| 0 <= k < |rows| && rows[k].id == id;
      if t.ev[id] == None {
        assert t.ev[id := None] == t.ev;
      } else {
        assert t.ev[id := None][rows[k].id] != rows[k].leaf;
      }
    }
  }

  lemma UpdateRefines(rows: seq<Row>, t: Table, k: nat)
    requires Represents(rows, t) && k < |rows|
    requires rows[k].leaf == None
    ensures IsPending(t, rows[k].id) && Represents(AfterUpdate(rows, k), AfterAssign(t, rows[k].id))
  {
    var more, u := AfterUpdate(rows, k), AfterAssign(t, rows[k].id);
    NextLeafAfterUpdate(rows, k);
    forall x ensures x in u.ev <==> HasId(more, x) {
      if HasId(rows, x) {
        var j :| 0 <= j < |rows| && rows[j].id == x;
        assert more[j].id == x;
      }
      if HasId(more, x) {
        var j :| 0 <= j < |more| && more[j].id == x;
        assert rows[j].id == x;
      }
    }
  }

  /** A row with this id already has an index. */
  ghost predicate HasIndex(rows: seq<Row>, id: Id) {
    exists k :: 0 <= k < |rows| && rows[k].id == id && rows[k].leaf.Some?
  }

  /** Each serial transaction that saves no committed id again is a call of the memory store, with the same answer. */
  lemma StepRefines(rows: seq<Row>, op: Op, out: Output, after: seq<Row>, t: Table) returns (u: Table)
    requires Represents(rows, t) && PgStep(rows, op, out, after)
    requires op.Save? ==> !HasIndex(rows, op.id)
    ensures MemStep(t, op, out, u) && Represents(after, u)
  {
    match op
    case Save(id, now) =>
      assert id in t.ev ==> t.ev[id] == None;
      SaveRefinesIff(rows, t, id, now);
      u := t.(ev := t.ev[id := None]);
    case Assign =>
      if out.Assigned? {
        var k :| Picked(rows, k, out.id, after);
        UpdateRefines(rows, t, k);
        u := AfterAssign(t, out.id);
      } else {
        u := t;
        forall id ensures !IsPending(t, id) {
          if id in t.ev {
            var k :| 0 <= k < |rows| && rows[k].id == id;
          }
        }
      }
  }

  ghost predicate PgRun(states: seq<seq<Row>>, ops: seq<Op>, outs: seq<Output>) {
    && |states| == |ops| + 1 && |outs| == |ops| && states[0] == []
    && forall i :: 0 <= i < |ops| ==> PgStep(states[i], ops[i], outs[i], states[i + 1])
  }

  ghost predicate MemRun(tables: seq<Table>, ops: seq<Op>, outs: seq<Output>) {
    && |tables| == |ops| + 1 && |outs| == |ops| && tables[0] == EMPTY_TABLE
    && forall i :: 0 <= i < |ops| ==> MemStep(tables[i], ops[i], outs[i], tables[i + 1])
  }

  ghost predicate NoneSavedAgain(states: seq<seq<Row>>, ops: seq<Op>)
    requires |states| == |ops| + 1
  {
    forall i :: 0 <= i < |ops| && ops[i].Save? ==> !HasIndex(states[i], ops[i].id)
  }

  lemma MemRunExtends(tables: seq<Table>, ops: seq<Op>, outs: seq<Output>, u: Table)
    requires ops != [] && |outs| == |ops| == |tables|
    requires var m := |ops| - 1;
      MemRun(tables, ops[..m], outs[..m]) && MemStep(tables[m], ops[m], outs[m], u)
    ensures MemRun(tables + [u], ops, outs)
  {
    var m := |ops| - 1;
    forall i | 0 <= i < |ops| ensures MemStep((tables + [u])[i], ops[i], outs[i], (tables + [u])[i + 1]) {
      if i < m {
        assert MemStep(tables[i], ops[..m][i], outs[..m][i], tables[i + 1]);
      }
    }
  }

  lemma PgRunPrefix(states: seq<seq<Row>>, ops: seq<Op>, outs: seq<Output>)
    requires PgRun(states, ops, outs) && NoneSavedAgain(states, ops) && ops != []
    ensures var m := |ops| - 1;
      && PgRun(states[..m + 1], ops[..m], outs[..m]) && NoneSavedAgain(states[..m + 1], ops[..m])
      && PgStep(states[m], ops[m], outs[m], states[m + 1])
      && (ops[m].Save? ==> !HasIndex(states[m], ops[m].id))
  {
    var m := |ops| - 1;
    forall i | 0 <= i < m ensures PgStep(states[..m + 1][i], ops[..m][i], outs[..m][i], states[..m + 1][i + 1]) {
      assert PgStep(states[i], ops[i], outs[i], states[i + 1]);
    }
  }

  /** Every serial run of the database store from an empty table that saves no committed id again (fresh ids never
      do) is a run of the memory store with the same answers; throughout, the counter is one more than the largest
      index in the table. */
  lemma {:induction false} PgRunIsMemRun(states: seq<seq<Row>>, ops: seq<Op>, outs: seq<Output>)
    returns (tables: seq<Table>)
    requires PgRun(states, ops, outs) && NoneSavedAgain(states, ops)
    ensures MemRun(tables, ops, outs)
    ensures forall i :: 0 <= i < |states| ==> Represents(states[i], tables[i])
    decreases |ops|
  {
    if ops == [] {
      tables := [EMPTY_TABLE];
    } else {
      var m := |ops| - 1;
      PgRunPrefix(states, ops, outs);
      var before := PgRunIsMemRun(states[..m + 1], ops[..m], outs[..m]);
      assert Represents(states[..m + 1][m], before[m]);
      var u := StepRefines(states[m], ops[m], outs[m], states[m + 1], before[m]);
      tables := before + [u];
      MemRunExtends(before, ops, outs, u);
      forall i | 0 <= i < |states| ensures Represents(states[i], tables[i]) {
        if i <= m {
          assert Represents(states[..m + 1][i], before[i]);
        }
      }
      hide Represents, MemRun, PgStep;
    }
  }

  // ---- commit order ----

  /** Rows were created in order, the first ones have their own position as index, the others are pending. */
  ghost predicate InOrder(rows: seq<Row>) {
    && (forall i, j :: 0 <= i < j < |rows| ==> rows[i].created < rows[j].created)
    && (forall k :: 0 <= k < |rows| ==> rows[k].leaf == if k < NextLeaf(rows) then Some(k) else None)
  }

  ghost predicate ClockAdvances(states: seq<seq<Row>>, ops: seq<Op>)
    requires |states| == |ops| + 1
  {
    forall i, k :: 0 <= i < |ops| && ops[i].Save? && 0 <= k < |states[i]| ==> states[i][k].created < ops[i].now
  }

  lemma NextLeafInOrder(rows: seq<Row>)
    requires InOrder(rows)
    ensures NextLeaf(rows) <= |rows|
  {
    NextLeafBounds(rows);
  }

  lemma InsertInOrder(rows: seq<Row>, id: Id, now: int)
    requires InOrder(rows)
    requires forall k :: 0 <= k < |rows| ==> rows[k].created < now
    ensures InOrder(AfterInsert(rows, id, now))
  {
    hide NextLeaf, HasId;
    NextLeafInOrder(rows);
    if !HasId(rows, id) {
      NextLeafAfterInsert(rows, id, now);
    }
  }

  /** Among rows in order the pending row that is picked is the one whose position is the next index. */
  lemma PickInOrder(rows: seq<Row>, k: nat)
    requires InOrder(rows) && MayPick(rows, k)
    ensures k == NextLeaf(rows) && InOrder(AfterUpdate(rows, k))
  {
    NextLeafAfterUpdate(rows, k);
    var n := NextLeaf(rows);
    assert n <= k;
    assert rows[n].leaf == None;
  }

  lemma StepInOrder(rows: seq<Row>, op: Op, out: Output, after: seq<Row>)
    requires InOrder(rows) && PgStep(rows, op, out, after)
    requires op.Save? ==> forall k :: 0 <= k < |rows| ==> rows[k].created < op.now
    ensures InOrder(after)
    ensures out.Assigned? ==> out.leaf < |after| && after[out.leaf].id == out.id
  {
    if op.Save? {
      InsertInOrder(rows, op.id, op.now);
    } else if out.Assigned? {
      var k :| Picked(rows, k, out.id, after);
      PickInOrder(rows, k);
    }
  }

  /** With a clock that advances at every save, records are committed first in, first out: in every state of every
      serial run row i has index i or none, and no later row is committed before it. */
  lemma {:induction false} FirstInFirstOut(states: seq<seq<Row>>, ops: seq<Op>, outs: seq<Output>, i: nat)
    requires PgRun(states, ops, outs) && ClockAdvances(states, ops) && i < |states|
    ensures InOrder(states[i])
    ensures 0 < i && outs[i - 1].Assigned? ==>
      outs[i - 1].leaf < |states[i]| && states[i][outs[i - 1].leaf].id == outs[i - 1].id
  {
    if i != 0 {
      FirstInFirstOut(states, ops, outs, i - 1);
      assert PgStep(states[i - 1], ops[i - 1], outs[i - 1], states[i]);
      StepInOrder(states[i - 1], ops[i - 1], outs[i - 1], states[i]);
    }
  }
}
