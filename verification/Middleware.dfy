/** The middleware object: one request recorded with nothing in between. */
module Middleware {
  import opened Texts
  import opened RequestMetrics

  method NewBucketCounters() returns (out: seq<nat>)
    ensures out == NO_OBSERVATIONS
    ensures |out| == |SECONDS| && forall i :: 0 <= i < |out| ==> out[i] == 0
  {
    out := [];
    for i := 0 to |BOUNDS|
      invariant out == NO_OBSERVATIONS[..i]
    {
      out := out + [0];
    }
  }

  function BucketsOf(buckets: map<Operation, seq<nat>>, op: Operation): seq<nat> {
    if op in buckets then buckets[op] else NO_OBSERVATIONS
  }

  /** The counters after the first ten updates of a request. */
  function Counted(c: Counters, r: Request): Counters {
    var key := (r.op, ClassifyStatusClass(r.status));
    c.(total := c.total + 1,
       durationMicros := c.durationMicros + r.micros,
       byStatus := Add(LoadOrStore(c.byStatus, r.status), r.status, 1),
       byOperationStatus := Add(LoadOrStore(c.byOperationStatus, key), key, 1),
       sumByOperation := Add(LoadOrStore(c.sumByOperation, r.op), r.op, r.micros),
       countByOperation := Add(LoadOrStore(c.countByOperation, r.op), r.op, 1))
  }

  /** All remaining updates of a request, with nothing in between. */
  ghost function Finish(c: Counters, r: Request): Counters
    decreases DONE - r.at
  {
    if r.at < DONE then Finish(Update(c, r), Advanced(r)) else c
  }

  lemma FinishObservation(c: Counters, r: Request, i: nat)
    requires r.at == BUCKETS + i < DONE
    ensures Finish(c, r) == Finish(Observe(c, r, i), r.(at := BUCKETS + i + 1))
  {
  }

  /** The buckets with a duration counted in the first n of them. */
  function Observed(buckets: seq<nat>, micros: nat, n: nat): seq<nat>
    requires |buckets| == |BOUNDS|
  {
    seq(|BOUNDS|, k requires 0 <= k < |BOUNDS| => buckets[k] + if k < n && micros <= BOUNDS[k] then 1 else 0)
  }

  lemma ObservedStep(buckets: seq<nat>, micros: nat, i: nat)
    requires |buckets| == |BOUNDS| && i < |BOUNDS|
    ensures var b := Observed(buckets, micros, i);
      Observed(buckets, micros, i + 1) == if micros <= BOUNDS[i] then b[i := b[i] + 1] else b
  {
  }

  lemma {:induction false} FinishObserved(c: Counters, r: Request, buckets: seq<nat>, i: nat)
    requires i <= |BOUNDS| && r.at == BUCKETS + i && |buckets| == |BOUNDS|
    requires r.op in c.bucketsByOperation && c.bucketsByOperation[r.op] == Observed(buckets, r.micros, i)
    ensures Finish(c, r)
         == c.(bucketsByOperation := c.bucketsByOperation[r.op := Observed(buckets, r.micros, |BOUNDS|)])
    decreases |BOUNDS| - i
  {
    if i == |BOUNDS| {
      assert c.bucketsByOperation == c.bucketsByOperation[r.op := Observed(buckets, r.micros, |BOUNDS|)];
    } else {
      FinishObservation(c, r, i);
      ObservedStep(buckets, r.micros, i);
      var d := Observe(c, r, i);
      FinishObserved(d, r.(at := r.at + 1), buckets, i + 1);
      hide Finish, Observed;
      var last := Observed(buckets, r.micros, |BOUNDS|);
      assert d.bucketsByOperation[r.op := last] == c.bucketsByOperation[r.op := last];
    }
  }

  lemma FinishBuckets(c: Counters, r: Request)
    requires r.at == AFTER_COUNT
    requires r.op in c.bucketsByOperation ==> |c.bucketsByOperation[r.op]| == |BOUNDS|
    ensures Finish(c, r) == c.(bucketsByOperation :=
      c.bucketsByOperation[r.op := Observed(BucketsOf(c.bucketsByOperation, r.op), r.micros, |BOUNDS|)])
  {
    var buckets := BucketsOf(c.bucketsByOperation, r.op);
    var d := Update(c, r);
    assert Observed(buckets, r.micros, 0) == buckets;
    FinishObserved(d, Advanced(r), buckets, 0);
    hide Observed;
    var last := Observed(buckets, r.micros, |BOUNDS|);
    assert d.bucketsByOperation[r.op := last] == c.bucketsByOperation[r.op := last];
  }

  lemma FinishTwo(c: Counters, r: Request) returns (d: Counters)
    requires r.at + 1 < DONE
    ensures d == Update(Update(c, r), Advanced(r))
    ensures Finish(c, r) == Finish(d, r.(at := r.at + 2))
  {
    d := Update(Update(c, r), Advanced(r));
  }

  lemma FinishCount(c: Counters, r: Request)
    requires r.at == AFTER_SUM
    ensures Finish(c, r) == Finish(
      c.(countByOperation := Add(LoadOrStore(c.countByOperation, r.op), r.op, 1)), r.(at := AFTER_COUNT))
  {
    var d := FinishTwo(c, r);
    hide Finish, Add, LoadOrStore;
  }

  lemma FinishOperation(c: Counters, r: Request)
    requires r.at == AFTER_STATUS
    ensures var key := (r.op, ClassifyStatusClass(r.status));
      Finish(c, r) == Finish(
        c.(byOperationStatus := Add(LoadOrStore(c.byOperationStatus, key), key, 1),
           sumByOperation := Add(LoadOrStore(c.sumByOperation, r.op), r.op, r.micros)), r.(at := AFTER_SUM))
  {
    var d := FinishTwo(c, r);
    var e := FinishTwo(d, r.(at := 6));
    hide Finish, Add, LoadOrStore;
  }

  lemma {:induction false} FinishReads(c: Counters, r: Request)
    requires Shaped(c) && r.at <= DONE && EntriesMade(c, r)
    ensures Shaped(Finish(c, r))
    ensures forall m ::
      Reading(Finish(c, r), m) + Contribution(m, r) == Reading(c, m) + Contribution(m, r.(at := DONE))
    decreases DONE - r.at
  {
    if r.at < DONE {
      UpdateKeepsShape(c, r);
      FinishReads(Update(c, r), Advanced(r));
      forall m
        ensures Reading(Finish(c, r), m) + Contribution(m, r) == Reading(c, m) + Contribution(m, r.(at := DONE))
      {
        UpdateReads(c, r, m);
      }
    }
  }

  lemma FinishStatus(c: Counters, r: Request)
    requires r.at == 0
    ensures Finish(c, r) == Finish(
      c.(total := c.total + 1, durationMicros := c.durationMicros + r.micros,
         byStatus := Add(LoadOrStore(c.byStatus, r.status), r.status, 1)), r.(at := AFTER_STATUS))
  {
    var d := FinishTwo(c, r);
    var e := FinishTwo(d, r.(at := 2));
    hide Finish, Add, LoadOrStore;
  }

  lemma FinishFromStart(c: Counters, r: Request)
    requires Shaped(c) && r.at == 0
    ensures Finish(c, r) == Finish(Counted(c, r), r.(at := AFTER_COUNT))
    ensures Shaped(Finish(c, r))
    ensures forall m :: Reading(Finish(c, r), m) == Reading(c, m) + Contribution(m, r.(at := DONE))
  {
    FinishReads(c, r);
    forall m ensures Reading(Finish(c, r), m) == Reading(c, m) + Contribution(m, r.(at := DONE)) {
      assert Contribution(m, r) == 0;
      hide Reading, Contribution, Finish;
    }
    FinishStatus(c, r);
    var key := (r.op, ClassifyStatusClass(r.status));
    var d := c.(total := c.total + 1, durationMicros := c.durationMicros + r.micros,
                byStatus := Add(LoadOrStore(c.byStatus, r.status), r.status, 1));
    FinishOperation(d, r.(at := AFTER_STATUS));
    var e := d.(byOperationStatus := Add(LoadOrStore(c.byOperationStatus, key), key, 1),
                sumByOperation := Add(LoadOrStore(c.sumByOperation, r.op), r.op, r.micros));
    FinishCount(e, r.(at := AFTER_SUM));
    hide Finish, Reading, Contribution, Add, LoadOrStore;
  }

  /** One bucket per bound for this operation, each raised by one when the duration in seconds does not exceed its
      bound; no other operation's buckets change. */
  ghost predicate BucketsRaised(
      before: map<Operation, seq<nat>>, after: map<Operation, seq<nat>>, op: Operation, micros: nat) {
    && op in after && |after[op]| == |SECONDS|
    && (op in before ==> |before[op]| == |SECONDS|)
    && (forall i :: 0 <= i < |SECONDS| ==>
          after[op][i] == (if op in before then before[op][i] else 0)
            + if InSeconds(micros) <= SECONDS[i] then 1 else 0)
    && (forall other :: other != op ==>
          (other in after <==> other in before) && (other in before ==> after[other] == before[other]))
  }

  lemma AddToStored<K>(m: map<K, nat>, k: K, amount: nat)
    ensures Add(LoadOrStore(m, k), k, amount) == m[k := (if k in m then m[k] else 0) + amount]
  {
  }

  class Metrics {
    var total: nat
    var durationMicros: nat
    var byStatus: map<int, nat>
    var byOperationStatus: map<(Operation, StatusClass), nat>
    var sumByOperation: map<Operation, nat>
    var countByOperation: map<Operation, nat>
    var bucketsByOperation: map<Operation, seq<nat>>

    function Contents(): Counters
      reads this
    {
      Counters(total, durationMicros, byStatus, byOperationStatus, sumByOperation, countByOperation, bucketsByOperation)
    }

    constructor ()
      ensures Contents() == NO_COUNTS && Shaped(Contents())
      ensures total == 0 && durationMicros == 0 && byStatus == map[] && byOperationStatus == map[]
      ensures sumByOperation == map[] && countByOperation == map[] && bucketsByOperation == map[]
    {
      total, durationMicros := 0, 0;
      byStatus, byOperationStatus := map[], map[];
      sumByOperation, countByOperation, bucketsByOperation := map[], map[], map[];
    }

    /** Records one handled request when no other request is being recorded: its updates in program order, and
        on each meter exactly the contribution of a finished request. */
    method Record(verb: string, path: string, status: int, micros: nat)
      requires Shaped(Contents())
      modifies this
      ensures Shaped(Contents())
      ensures var r := Request(ClassifyOperation(verb, path), status, micros, 0);
        && Contents() == Finish(old(Contents()), r)
        && forall m :: Reading(Contents(), m) == Reading(old(Contents()), m) + Contribution(m, r.(at := DONE))
      ensures total == old(total) + 1 && durationMicros == old(durationMicros) + micros
      ensures byStatus == old(byStatus)[status := (if status in old(byStatus) then old(byStatus)[status] else 0) + 1]
      ensures var op := ClassifyOperation(verb, path);
        var key := (op, ClassifyStatusClass(status));
        && byOperationStatus == old(byOperationStatus)[
             key := (if key in old(byOperationStatus) then old(byOperationStatus)[key] else 0) + 1]
        && sumByOperation == old(sumByOperation)[
             op := (if op in old(sumByOperation) then old(sumByOperation)[op] else 0) + micros]
        && countByOperation == old(countByOperation)[
             op := (if op in old(countByOperation) then old(countByOperation)[op] else 0) + 1]
        && BucketsRaised(old(bucketsByOperation), bucketsByOperation, op, micros)
    {
      hide Finish, Reading, Contribution, ClassifyOperation, ClassifyStatusClass, Add, LoadOrStore;
      ghost var r := Request(ClassifyOperation(verb, path), status, micros, 0);
      FinishFromStart(Contents(), r);
      total := total + 1;
      durationMicros := durationMicros + micros;
      byStatus := Add(LoadOrStore(byStatus, status), status, 1);
      var op := ClassifyOperation(verb, path);
      var key := (op, ClassifyStatusClass(status));
      byOperationStatus := Add(LoadOrStore(byOperationStatus, key), key, 1);
      sumByOperation := Add(LoadOrStore(sumByOperation, op), op, micros);
      countByOperation := Add(LoadOrStore(countByOperation, op), op, 1);
      assert Contents() == Counted(old(Contents()), r);
      AddToStored(old(byStatus), status, 1);
      AddToStored(old(byOperationStatus), key, 1);
      AddToStored(old(sumByOperation), op, micros);
      AddToStored(old(countByOperation), op, 1);
      ghost var c := Contents();
      ObserveDuration(op, micros);
      FinishBuckets(c, r.(at := AFTER_COUNT));
    }

    /** The bucket updates of a request: its operation gets buckets if it has none, and every bucket whose bound
        the duration does not exceed is raised by one. */
    method ObserveDuration(op: Operation, micros: nat)
      requires op in bucketsByOperation ==> |bucketsByOperation[op]| == |BOUNDS|
      modifies this`bucketsByOperation
      ensures bucketsByOperation
           == old(bucketsByOperation)[op := Observed(BucketsOf(old(bucketsByOperation), op), micros, |BOUNDS|)]
      ensures BucketsRaised(old(bucketsByOperation), bucketsByOperation, op, micros)
    {
      if op !in bucketsByOperation {
        var counters := NewBucketCounters();
        bucketsByOperation := bucketsByOperation[op := counters];
      }
      ghost var start := bucketsByOperation[op];
      assert Observed(start, micros, 0) == start;
      for i := 0 to |SECONDS|
        invariant bucketsByOperation == old(bucketsByOperation)[op := Observed(start, micros, i)]
      {
        ObservedStep(start, micros, i);
        BoundsAreSeconds(micros, i);
        if InSeconds(micros) <= SECONDS[i] {
          var b := bucketsByOperation[op];
          bucketsByOperation := bucketsByOperation[op := b[i := b[i] + 1]];
        }
      }
      forall i: nat | i < |SECONDS| ensures InSeconds(micros) <= SECONDS[i] <==> micros <= BOUNDS[i] {
        BoundsAreSeconds(micros, i);
      }
    }
  }
}
