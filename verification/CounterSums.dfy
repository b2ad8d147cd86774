/** What the counter families add up to, in every state and at rest. */
module CounterSums {
  import opened RequestMetrics

  // ---- sums over the keys of a family ----

  /** The requests that have made at least the given number of updates. */
  function Past(requests: seq<Request>, at: nat): nat {
    if requests == [] then 0
    else Past(requests[..|requests| - 1], at) + if at <= requests[|requests| - 1].at then 1 else 0
  }

  function MicrosPast(requests: seq<Request>, at: nat): nat {
    if requests == [] then 0
    else
      var r := requests[|requests| - 1];
      MicrosPast(requests[..|requests| - 1], at) + if at <= r.at then r.micros else 0
  }

  /** The requests that stand between two updates. */
  function InFlight(requests: seq<Request>, from: nat, to: nat): nat {
    if requests == [] then 0
    else
      InFlight(requests[..|requests| - 1], from, to) + if from <= requests[|requests| - 1].at < to then 1 else 0
  }

  /** Their durations. */
  function MicrosInFlight(requests: seq<Request>, from: nat, to: nat): nat {
    if requests == [] then 0
    else
      var r := requests[|requests| - 1];
      MicrosInFlight(requests[..|requests| - 1], from, to) + if from <= r.at < to then r.micros else 0
  }

  lemma {:induction false} PastSplits(requests: seq<Request>, from: nat, to: nat)
    requires from <= to
    ensures Past(requests, from) == Past(requests, to) + InFlight(requests, from, to)
    ensures MicrosPast(requests, from) == MicrosPast(requests, to) + MicrosInFlight(requests, from, to)
  {
    if requests != [] {
      PastSplits(requests[..|requests| - 1], from, to);
    }
  }

  ghost function SumOfValues<K>(m: map<K, nat>): nat
    decreases m.Keys
  {
    if m == map[] then 0
    else
      var k :| k in m;
      m[k] + SumOfValues(m - {k})
  }

  lemma {:induction false} SumWithout<K>(m: map<K, nat>, k: K)
    requires k in m
    ensures SumOfValues(m) == m[k] + SumOfValues(m - {k})
    decreases m.Keys
  {
    var x :| x in m && SumOfValues(m) == m[x] + SumOfValues(m - {x});
    if x != k {
      SumWithout(m - {x}, k);
      SumWithout(m - {k}, x);
      assert m - {x} - {k} == m - {k} - {x};
    }
  }

  /** The bookkeeping form of the sum: adding to one key adds to the sum. */
  lemma SumAfterAdd<K>(m: map<K, nat>, k: K, amount: nat)
    ensures SumOfValues(Add(m, k, amount)) == SumOfValues(m) + amount
    ensures SumOfValues(LoadOrStore(m, k)) == SumOfValues(m)
  {
    var more := Add(m, k, amount);
    SumWithout(more, k);
    assert more - {k} == m - {k};
    if k in m {
      SumWithout(m, k);
    } else {
      assert m - {k} == m;
      SumWithout(LoadOrStore(m, k), k);
      assert LoadOrStore(m, k) - {k} == m;
    }
  }

  ghost predicate SumsAgree(s: System) {
    && SumOfValues(s.counters.byStatus) == Past(s.requests, AFTER_STATUS)
    && SumOfValues(s.counters.byOperationStatus) == Past(s.requests, AFTER_OPERATION_STATUS)
    && SumOfValues(s.counters.sumByOperation) == MicrosPast(s.requests, AFTER_SUM)
    && SumOfValues(s.counters.countByOperation) == Past(s.requests, AFTER_COUNT)
  }

  lemma {:induction false} PastUpdate(requests: seq<Request>, j: nat, at: nat)
    requires j < |requests| && requests[j].at < DONE
    ensures var after := requests[j := Advanced(requests[j])];
      && Past(after, at) == Past(requests, at) + (if requests[j].at + 1 == at then 1 else 0)
      && MicrosPast(after, at)
         == MicrosPast(requests, at) + (if requests[j].at + 1 == at then requests[j].micros else 0)
  {
    var k, after := |requests| - 1, requests[j := Advanced(requests[j])];
    if j == k {
      assert after[..k] == requests[..k];
    } else {
      assert after[..k] == requests[..k][j := Advanced(requests[j])];
      PastUpdate(requests[..k], j, at);
    }
  }

  lemma UpdateAddsToStatus(c: Counters, r: Request)
    ensures SumOfValues(Update(c, r).byStatus)
         == SumOfValues(c.byStatus) + if r.at + 1 == AFTER_STATUS then 1 else 0
  {
    hide SumOfValues, Add, LoadOrStore;
    SumAfterAdd(c.byStatus, r.status, 1);
  }

  lemma UpdateAddsToOperationStatus(c: Counters, r: Request)
    ensures SumOfValues(Update(c, r).byOperationStatus)
         == SumOfValues(c.byOperationStatus) + if r.at + 1 == AFTER_OPERATION_STATUS then 1 else 0
  {
    hide SumOfValues, Add, LoadOrStore;
    SumAfterAdd(c.byOperationStatus, (r.op, ClassifyStatusClass(r.status)), 1);
  }

  lemma ObserveKeepsSum(c: Counters, r: Request, i: nat)
    ensures Observe(c, r, i).sumByOperation == c.sumByOperation
  {
  }

  lemma SumsElsewhere(c: Counters, r: Request)
    requires r.at < AFTER_OPERATION_STATUS || AFTER_SUM <= r.at
    ensures Update(c, r).sumByOperation == c.sumByOperation
  {
    hide Observe, Add, LoadOrStore;
    if BUCKETS <= r.at {
      ObserveKeepsSum(c, r, r.at - BUCKETS);
    }
  }

  lemma UpdateAddsToSum(c: Counters, r: Request)
    ensures SumOfValues(Update(c, r).sumByOperation)
         == SumOfValues(c.sumByOperation) + if r.at + 1 == AFTER_SUM then r.micros else 0
  {
    hide SumOfValues, Add, LoadOrStore;
    SumAfterAdd(c.sumByOperation, r.op, r.micros);
    if r.at < AFTER_OPERATION_STATUS || AFTER_SUM <= r.at {
      SumsElsewhere(c, r);
      hide Update;
    }
  }

  lemma UpdateAddsToCount(c: Counters, r: Request)
    ensures SumOfValues(Update(c, r).countByOperation)
         == SumOfValues(c.countByOperation) + if r.at + 1 == AFTER_COUNT then 1 else 0
  {
    hide SumOfValues, Add, LoadOrStore;
    SumAfterAdd(c.countByOperation, r.op, 1);
  }

  lemma StepKeepsSums(s: System, j: nat)
    requires SumsAgree(s) && Enabled(s, Step(j))
    ensures SumsAgree(Apply(s, Step(j)))
  {
    PastUpdate(s.requests, j, AFTER_STATUS);
    PastUpdate(s.requests, j, AFTER_OPERATION_STATUS);
    PastUpdate(s.requests, j, AFTER_SUM);
    PastUpdate(s.requests, j, AFTER_COUNT);
    UpdateAddsToStatus(s.counters, s.requests[j]);
    UpdateAddsToOperationStatus(s.counters, s.requests[j]);
    UpdateAddsToSum(s.counters, s.requests[j]);
    UpdateAddsToCount(s.counters, s.requests[j]);
    hide SumOfValues, Past, MicrosPast, Update, Advanced;
  }

  lemma {:induction false} RunKeepsSums(s: System, actions: seq<Action>, t: System)
    requires SumsAgree(s) && Run(s, actions, t)
    ensures SumsAgree(t)
    decreases |actions|
  {
    if actions != [] {
      if actions[0].Step? {
        StepKeepsSums(s, actions[0].j);
      } else {
        assert Apply(s, actions[0]).requests[..|s.requests|] == s.requests;
      }
      RunKeepsSums(Apply(s, actions[0]), actions[1..], t);
    }
  }

  /** A single-valued meter counts the requests past its update. */
  lemma {:induction false} TotalsArePast(requests: seq<Request>)
    ensures Contributed(Total, requests) == Past(requests, AFTER_TOTAL)
    ensures Contributed(Duration, requests) == MicrosPast(requests, AFTER_DURATION)
  {
    if requests != [] {
      TotalsArePast(requests[..|requests| - 1]);
    }
  }

  lemma ReachableSums(t: System)
    requires Reachable(t)
    ensures SumsAgree(t)
  {
    var actions :| Run(INITIAL, actions, t);
    RunKeepsSums(INITIAL, actions, t);
  }

  /** Conservation in every state of every interleaving: each counter family sums to the next one down the chain
      plus the requests that stand between the two updates, and the durations likewise. */
  lemma Conservation(t: System)
    requires Reachable(t)
    ensures var c, rs := t.counters, t.requests;
      && c.total == SumOfValues(c.byStatus) + InFlight(rs, AFTER_TOTAL, AFTER_STATUS)
      && SumOfValues(c.byStatus)
         == SumOfValues(c.byOperationStatus) + InFlight(rs, AFTER_STATUS, AFTER_OPERATION_STATUS)
      && SumOfValues(c.byOperationStatus)
         == SumOfValues(c.countByOperation) + InFlight(rs, AFTER_OPERATION_STATUS, AFTER_COUNT)
      && MicrosPast(rs, AFTER_TOTAL) == c.durationMicros + MicrosInFlight(rs, AFTER_TOTAL, AFTER_DURATION)
      && c.durationMicros == MicrosPast(rs, AFTER_STATUS) + MicrosInFlight(rs, AFTER_DURATION, AFTER_STATUS)
      && c.durationMicros == SumOfValues(c.sumByOperation) + MicrosInFlight(rs, AFTER_DURATION, AFTER_SUM)
      && MicrosPast(rs, AFTER_OPERATION_STATUS)
         == SumOfValues(c.sumByOperation) + MicrosInFlight(rs, AFTER_OPERATION_STATUS, AFTER_SUM)
      && SumOfValues(c.sumByOperation) == MicrosPast(rs, AFTER_COUNT) + MicrosInFlight(rs, AFTER_SUM, AFTER_COUNT)
  {
    ReachableSums(t);
    ReachableInvariant(t);
    assert Reading(t.counters, Total) == Contributed(Total, t.requests);
    assert Reading(t.counters, Duration) == Contributed(Duration, t.requests);
    TotalsArePast(t.requests);
    PastSplits(t.requests, AFTER_TOTAL, AFTER_STATUS);
    PastSplits(t.requests, AFTER_STATUS, AFTER_OPERATION_STATUS);
    PastSplits(t.requests, AFTER_OPERATION_STATUS, AFTER_COUNT);
    PastSplits(t.requests, AFTER_TOTAL, AFTER_DURATION);
    PastSplits(t.requests, AFTER_DURATION, AFTER_STATUS);
    PastSplits(t.requests, AFTER_DURATION, AFTER_SUM);
    PastSplits(t.requests, AFTER_OPERATION_STATUS, AFTER_SUM);
    PastSplits(t.requests, AFTER_SUM, AFTER_COUNT);
    hide Past, MicrosPast, InFlight, MicrosInFlight, SumOfValues, Contributed, Reading;
  }

  lemma {:induction false} AllPast(requests: seq<Request>, at: nat)
    requires at <= DONE && forall j :: 0 <= j < |requests| ==> requests[j].at == DONE
    ensures Past(requests, at) == |requests| && MicrosPast(requests, at) == MicrosPast(requests, 0)
  {
    if requests != [] {
      AllPast(requests[..|requests| - 1], at);
    }
  }

  /** When no request is in flight all four counts are the number of requests, and the durations by operation add
      up to the global duration. */
  lemma QuiescentSums(t: System)
    requires Reachable(t) && Quiescent(t)
    ensures var c, n := t.counters, |t.requests|;
      && c.total == SumOfValues(c.byStatus) == SumOfValues(c.byOperationStatus)
         == SumOfValues(c.countByOperation) == n
      && SumOfValues(c.sumByOperation) == c.durationMicros
  {
    ReachableSums(t);
    Conservation(t);
    AllPast(t.requests, AFTER_STATUS);
    AllPast(t.requests, AFTER_OPERATION_STATUS);
    AllPast(t.requests, AFTER_COUNT);
    AllPast(t.requests, AFTER_SUM);
    AllPast(t.requests, AFTER_DURATION);
    AllPast(t.requests, AFTER_TOTAL);
    PastSplits(t.requests, AFTER_TOTAL, AFTER_STATUS);
  }

  // ---- one operation ----

  function InFlightOf(requests: seq<Request>, op: Operation, from: nat, to: nat): nat {
    if requests == [] then 0
    else
      var r := requests[|requests| - 1];
      InFlightOf(requests[..|requests| - 1], op, from, to) + if r.op == op && from <= r.at < to then 1 else 0
  }

  lemma {:induction false} ClassesContribute(requests: seq<Request>, op: Operation)
    ensures Contributed(OperationStatus(op, Class2xx), requests) + Contributed(OperationStatus(op, Class3xx), requests)
          + Contributed(OperationStatus(op, Class4xx), requests) + Contributed(OperationStatus(op, Class5xx), requests)
         == Contributed(OperationCount(op), requests) + InFlightOf(requests, op, AFTER_OPERATION_STATUS, AFTER_COUNT)
  {
    if requests != [] {
      ClassesContribute(requests[..|requests| - 1], op);
    }
  }

  /** For each operation the status classes add up to its count plus the requests between the two updates. */
  lemma OperationConservation(t: System, op: Operation)
    requires Reachable(t)
    ensures var c := t.counters;
      Reading(c, OperationStatus(op, Class2xx)) + Reading(c, OperationStatus(op, Class3xx))
      + Reading(c, OperationStatus(op, Class4xx)) + Reading(c, OperationStatus(op, Class5xx))
        == Reading(c, OperationCount(op)) + InFlightOf(t.requests, op, AFTER_OPERATION_STATUS, AFTER_COUNT)
  {
    ReachableInvariant(t);
    ClassesContribute(t.requests, op);
    forall m ensures Reading(t.counters, m) == Contributed(m, t.requests) {
    }
    hide Reading, Contributed;
  }
}
