/** The buckets of the duration histogram against the count, against each other and at rest. */
module Histogram {
  import opened RequestMetrics

  lemma {:induction false} ContributedOrdered(lower: Meter, upper: Meter, requests: seq<Request>)
    requires forall r :: r in requests ==> Contribution(lower, r) <= Contribution(upper, r)
    ensures Contributed(lower, requests) <= Contributed(upper, requests)
  {
    if requests != [] {
      ContributedOrdered(lower, upper, requests[..|requests| - 1]);
    }
  }

  /** In every state: an operation with buckets has a count, and no bucket exceeds it. */
  lemma BucketsBelowCount(t: System, op: Operation, i: nat)
    requires Reachable(t)
    ensures op in t.counters.bucketsByOperation ==> op in t.counters.countByOperation
    ensures Reading(t.counters, Bucket(op, i)) <= Reading(t.counters, OperationCount(op))
  {
    ReachableInvariant(t);
    ContributedOrdered(Bucket(op, i), OperationCount(op), t.requests);
    assert Reading(t.counters, Bucket(op, i)) == Contributed(Bucket(op, i), t.requests);
    assert Reading(t.counters, OperationCount(op)) == Contributed(OperationCount(op), t.requests);
  }

  lemma ContributionGrows(m: Meter, r: Request)
    ensures Contribution(m, r) <= Contribution(m, Advanced(r))
  {
  }

  lemma UpdateKeepsCounts(c: Counters, r: Request)
    ensures forall op :: op in c.countByOperation ==> op in Update(c, r).countByOperation
  {
  }

  lemma {:induction false} ReadingsGrow(s: System, actions: seq<Action>, t: System, m: Meter)
    requires Invariant(s) && Run(s, actions, t)
    ensures Reading(s.counters, m) <= Reading(t.counters, m)
    ensures forall op :: op in s.counters.countByOperation ==> op in t.counters.countByOperation
    decreases |actions|
  {
    if actions != [] {
      var a := actions[0];
      StepKeepsInvariant(s, a);
      if a.Step? {
        assert EntriesMade(s.counters, s.requests[a.j]);
        UpdateReads(s.counters, s.requests[a.j], m);
        ContributionGrows(m, s.requests[a.j]);
        UpdateKeepsCounts(s.counters, s.requests[a.j]);
      }
      ReadingsGrow(Apply(s, a), actions[1..], t, m);
    }
  }

  /** A page that reads a bucket first and the count later, with any updates between, still finds the count and
      shows the bucket no larger than it. */
  lemma PageIsConsistent(s: System, between: seq<Action>, t: System, op: Operation, i: nat)
    requires Reachable(s) && Run(s, between, t)
    ensures op in s.counters.bucketsByOperation ==> op in t.counters.countByOperation
    ensures Reading(s.counters, Bucket(op, i)) <= Reading(t.counters, OperationCount(op))
  {
    ReachableInvariant(s);
    BucketsBelowCount(s, op, i);
    ReadingsGrow(s, between, t, OperationCount(op));
  }

  /** The durations of an operation up to this many seconds. */
  function Observations(requests: seq<Request>, op: Operation, seconds: real): nat {
    if requests == [] then 0
    else
      var r := requests[|requests| - 1];
      Observations(requests[..|requests| - 1], op, seconds)
        + if r.op == op && InSeconds(r.micros) <= seconds then 1 else 0
  }

  lemma {:induction false} FinishedBucket(requests: seq<Request>, op: Operation, i: nat)
    requires i < |SECONDS| && forall j :: 0 <= j < |requests| ==> requests[j].at == DONE
    ensures Contributed(Bucket(op, i), requests) == Observations(requests, op, SECONDS[i])
  {
    if requests != [] {
      BoundsAreSeconds(requests[|requests| - 1].micros, i);
      FinishedBucket(requests[..|requests| - 1], op, i);
    }
  }

  /** When no request is in flight each bucket is the number of durations up to its bound in seconds, and the
      buckets do not decrease. */
  lemma QuiescentHistogram(t: System, op: Operation, i: nat)
    requires Reachable(t) && Quiescent(t) && i < |SECONDS|
    ensures Reading(t.counters, Bucket(op, i)) == Observations(t.requests, op, SECONDS[i])
    ensures forall k: nat :: i <= k < |SECONDS| ==>
      Reading(t.counters, Bucket(op, i)) <= Reading(t.counters, Bucket(op, k))
  {
    ReachableInvariant(t);
    FinishedBucket(t.requests, op, i);
    assert Reading(t.counters, Bucket(op, i)) == Contributed(Bucket(op, i), t.requests);
    forall k: nat | i <= k < |BOUNDS|
      ensures Reading(t.counters, Bucket(op, i)) <= Reading(t.counters, Bucket(op, k))
    {
      assert BOUNDS[i] <= BOUNDS[k];
      ContributedOrdered(Bucket(op, i), Bucket(op, k), t.requests);
      assert Reading(t.counters, Bucket(op, k)) == Contributed(Bucket(op, k), t.requests);
    }
  }

  /** The requests that have counted into bucket i and not yet into the next one. */
  function BetweenBuckets(requests: seq<Request>, op: Operation, i: nat): nat
    requires i + 1 < |BOUNDS|
  {
    if requests == [] then 0
    else
      var r := requests[|requests| - 1];
      BetweenBuckets(requests[..|requests| - 1], op, i)
        + if r.op == op && r.at == BUCKETS + i + 1 && r.micros <= BOUNDS[i] then 1 else 0
  }

  /** The durations that fall between two bounds and are already in the upper bucket. */
  function OnlyInNext(requests: seq<Request>, op: Operation, i: nat): nat
    requires i + 1 < |BOUNDS|
  {
    if requests == [] then 0
    else
      var r := requests[|requests| - 1];
      OnlyInNext(requests[..|requests| - 1], op, i)
        + if r.op == op && BUCKETS + i + 1 < r.at && BOUNDS[i] < r.micros <= BOUNDS[i + 1] then 1 else 0
  }

  lemma {:induction false} NeighbourContributions(requests: seq<Request>, op: Operation, i: nat)
    requires i + 1 < |BOUNDS|
    ensures Contributed(Bucket(op, i), requests) + OnlyInNext(requests, op, i)
         == Contributed(Bucket(op, i + 1), requests) + BetweenBuckets(requests, op, i)
  {
    if requests != [] {
      assert BOUNDS[i] <= BOUNDS[i + 1];
      NeighbourContributions(requests[..|requests| - 1], op, i);
    }
  }

  /** While requests are in flight a bucket may exceed the next one: exactly when more requests stand between the
      two than have durations between their bounds. */
  lemma BucketExceedsNextIff(t: System, op: Operation, i: nat)
    requires Reachable(t) && i + 1 < |BOUNDS|
    ensures Reading(t.counters, Bucket(op, i)) > Reading(t.counters, Bucket(op, i + 1))
       <==> BetweenBuckets(t.requests, op, i) > OnlyInNext(t.requests, op, i)
  {
    ReachableInvariant(t);
    NeighbourContributions(t.requests, op, i);
    assert Reading(t.counters, Bucket(op, i)) == Contributed(Bucket(op, i), t.requests);
    assert Reading(t.counters, Bucket(op, i + 1)) == Contributed(Bucket(op, i + 1), t.requests);
  }

  // ---- a state in which a bucket exceeds the next one ----

  lemma {:induction false} Extend(s: System, actions: seq<Action>, m: System, a: Action)
    requires Run(s, actions, m) && Enabled(m, a)
    ensures Run(s, actions + [a], Apply(m, a))
    decreases |actions|
  {
    if actions == [] {
      assert Run(Apply(m, a), [], Apply(m, a));
    } else {
      Extend(Apply(s, actions[0]), actions[1..], m, a);
      assert (actions + [a])[0] == actions[0] && (actions + [a])[1..] == actions[1..] + [a];
    }
  }

  lemma {:induction false} SoloRun(op: Operation, status: int, micros: nat, at: nat)
    returns (actions: seq<Action>, t: System)
    requires at <= DONE
    ensures Run(INITIAL, actions, t) && t.requests == [Request(op, status, micros, at)]
  {
    if at == 0 {
      actions := [Arrive(op, status, micros)];
      t := Apply(INITIAL, actions[0]);
      assert Run(t, [], t);
    } else {
      var m;
      actions, m := SoloRun(op, status, micros, at - 1);
      Extend(INITIAL, actions, m, Step(0));
      actions, t := actions + [Step(0)], Apply(m, Step(0));
    }
  }

  /** So the buckets are not always cumulative: one fast request, halfway through its bucket updates, suffices. */
  lemma BucketsCanDecrease(op: Operation, status: int) returns (t: System)
    ensures Reachable(t)
    ensures Reading(t.counters, Bucket(op, 0)) > Reading(t.counters, Bucket(op, 1))
  {
    var actions;
    actions, t := SoloRun(op, status, 0, BUCKETS + 1);
    BucketExceedsNextIff(t, op, 0);
    assert t.requests[..0] == [];
  }
}
