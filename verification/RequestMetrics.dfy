/** The request counters and the duration histogram, updated by requests in any interleaving
    (services/vault-api/middleware/metrics.go). */
module RequestMetrics {
  import opened Texts

  datatype Operation = IngestOperation | ProofOperation | OtherOperation

  datatype StatusClass = Class2xx | Class3xx | Class4xx | Class5xx

  const EVIDENCE_PREFIX := "/api/v1/evidence/"
  const PROOF_SUFFIX := "/proof"

  function ClassifyOperation(verb: string, path: string): Operation {
    if verb == "POST" && path == "/api/v1/evidence" then IngestOperation
    else if verb == "GET" && EVIDENCE_PREFIX <= path && HasSuffix(path, PROOF_SUFFIX) then ProofOperation
    else OtherOperation
  }

  /** Proof requests are the GETs of some id's proof, and of the degenerate path whose slash serves both ends. */
  lemma ProofOperationIff(verb: string, path: string)
    ensures ClassifyOperation(verb, path) == ProofOperation
       <==> verb == "GET"
            && (path == "/api/v1/evidence/proof" || exists id :: path == "/api/v1/evidence/" + id + "/proof")
    ensures ClassifyOperation(verb, path) == IngestOperation <==> verb == "POST" && path == "/api/v1/evidence"
  {
    if EVIDENCE_PREFIX <= path && HasSuffix(path, PROOF_SUFFIX) {
      var p, n := |EVIDENCE_PREFIX|, |path| - |PROOF_SUFFIX|;
      assert path[n] == '/' && path[..p] == EVIDENCE_PREFIX;
      if p <= n {
        assert path == EVIDENCE_PREFIX + path[p..n] + PROOF_SUFFIX;
      } else {
        assert path[n] == EVIDENCE_PREFIX[n];
        assert n == p - 1;
        assert path == path[..p] + path[p..];
      }
    }
    forall id | path == EVIDENCE_PREFIX + id + PROOF_SUFFIX
      ensures EVIDENCE_PREFIX <= path && HasSuffix(path, PROOF_SUFFIX)
    {
    }
  }

  function FirstDigit(cls: StatusClass): int {
    match cls
    case Class2xx => 2
    case Class3xx => 3
    case Class4xx => 4
    case Class5xx => 5
  }

  /** The class names the first digit of a status from 200 to 599; others count with the nearest class. */
  function ClassifyStatusClass(status: int): (cls: StatusClass)
    ensures 200 <= status < 600 ==> FirstDigit(cls) == status / 100
    ensures status < 200 ==> cls == Class2xx
    ensures 600 <= status ==> cls == Class5xx
  {
    if status >= 500 then Class5xx
    else if status >= 400 then Class4xx
    else if status >= 300 then Class3xx
    else Class2xx
  }

  /** The bucket bounds in microseconds. */
  const BOUNDS: seq<nat> := [10_000, 25_000, 50_000, 100_000, 250_000, 500_000, 1_000_000, 2_500_000, 5_000_000]

  /** The same bounds in seconds. */
  const SECONDS: seq<real> := [0.01, 0.025, 0.05, 0.1, 0.25, 0.5, 1.0, 2.5, 5.0]

  function InSeconds(micros: nat): real {
    micros as real / 1_000_000.0
  }

  /** The comparison in seconds is the comparison in microseconds, for every duration and bound. */
  lemma BoundsAreSeconds(micros: nat, i: nat)
    requires i < |SECONDS|
    ensures |SECONDS| == |BOUNDS|
    ensures InSeconds(micros) <= SECONDS[i] <==> micros <= BOUNDS[i]
  {
  }

  const NO_OBSERVATIONS: seq<nat> := [0, 0, 0, 0, 0, 0, 0, 0, 0]

  datatype Counters = Counters(
    total: nat,
    durationMicros: nat,
    byStatus: map<int, nat>,
    byOperationStatus: map<(Operation, StatusClass), nat>,
    sumByOperation: map<Operation, nat>,
    countByOperation: map<Operation, nat>,
    bucketsByOperation: map<Operation, seq<nat>>)

  const NO_COUNTS: Counters := Counters(0, 0, map[], map[], map[], map[], map[])

  function Get<K>(m: map<K, nat>, k: K): nat {
    if k in m then m[k] else 0
  }

  /** LoadOrStore of a new zero counter. */
  function LoadOrStore<K>(m: map<K, nat>, k: K): map<K, nat> {
    if k in m then m else m[k := 0]
  }

  function Add<K>(m: map<K, nat>, k: K, amount: nat): map<K, nat> {
    m[k := Get(m, k) + amount]
  }

  /** A request after its handler has returned; at counts the atomic updates it has made. */
  datatype Request = Request(op: Operation, status: int, micros: nat, at: nat)

  const AFTER_TOTAL: nat := 1
  const AFTER_DURATION: nat := 2
  const AFTER_STATUS: nat := 4
  const AFTER_OPERATION_STATUS: nat := 6
  const AFTER_SUM: nat := 8
  const AFTER_COUNT: nat := 10
  const BUCKETS: nat := 11
  const DONE: nat := 20

  /** Bucket i counts the durations up to its bound. */
  function Observe(c: Counters, r: Request, i: nat): Counters {
    if i < |BOUNDS| && r.micros <= BOUNDS[i] && r.op in c.bucketsByOperation && i < |c.bucketsByOperation[r.op]| then
      var b := c.bucketsByOperation[r.op];
      c.(bucketsByOperation := c.bucketsByOperation[r.op := b[i := b[i] + 1]])
    else c
  }

  /** The next atomic update of a request, in program order. */
  function Update(c: Counters, r: Request): Counters {
    var key := (r.op, ClassifyStatusClass(r.status));
    match r.at
    case 0 => c.(total := c.total + 1)
    case 1 => c.(durationMicros := c.durationMicros + r.micros)
    case 2 => c.(byStatus := LoadOrStore(c.byStatus, r.status))
    case 3 => c.(byStatus := Add(c.byStatus, r.status, 1))
    case 4 => c.(byOperationStatus := LoadOrStore(c.byOperationStatus, key))
    case 5 => c.(byOperationStatus := Add(c.byOperationStatus, key, 1))
    case 6 => c.(sumByOperation := LoadOrStore(c.sumByOperation, r.op))
    case 7 => c.(sumByOperation := Add(c.sumByOperation, r.op, r.micros))
    case 8 => c.(countByOperation := LoadOrStore(c.countByOperation, r.op))
    case 9 => c.(countByOperation := Add(c.countByOperation, r.op, 1))
    case 10 => c.(bucketsByOperation := if r.op in c.bucketsByOperation then c.bucketsByOperation
                                        else c.bucketsByOperation[r.op := NO_OBSERVATIONS])
    case _ => if r.at < DONE then Observe(c, r, r.at - BUCKETS) else c
  }

  function Advanced(r: Request): Request {
    if r.at < DONE then r.(at := r.at + 1) else r
  }

  // ---- every counter as a sum over requests ----

  datatype Meter =
    | Total
    | Duration
    | Status(status: int)
    | OperationStatus(op: Operation, cls: StatusClass)
    | OperationSum(op: Operation)
    | OperationCount(op: Operation)
    | Bucket(op: Operation, i: nat)

  function Reading(c: Counters, m: Meter): nat {
    match m
    case Total => c.total
    case Duration => c.durationMicros
    case Status(s) => Get(c.byStatus, s)
    case OperationStatus(op, cls) => Get(c.byOperationStatus, (op, cls))
    case OperationSum(op) => Get(c.sumByOperation, op)
    case OperationCount(op) => Get(c.countByOperation, op)
    case Bucket(op, i) =>
      if op in c.bucketsByOperation && i < |c.bucketsByOperation[op]| then c.bucketsByOperation[op][i] else 0
  }

  /** What a request has added to a meter so far. */
  function Contribution(m: Meter, r: Request): nat {
    match m
    case Total => if AFTER_TOTAL <= r.at then 1 else 0
    case Duration => if AFTER_DURATION <= r.at then r.micros else 0
    case Status(s) => if AFTER_STATUS <= r.at && r.status == s then 1 else 0
    case OperationStatus(op, cls) =>
      if AFTER_OPERATION_STATUS <= r.at && r.op == op && ClassifyStatusClass(r.status) == cls then 1 else 0
    case OperationSum(op) => if AFTER_SUM <= r.at && r.op == op then r.micros else 0
    case OperationCount(op) => if AFTER_COUNT <= r.at && r.op == op then 1 else 0
    case Bucket(op, i) =>
      if i < |BOUNDS| && BUCKETS + i < r.at && r.op == op && r.micros <= BOUNDS[i] then 1 else 0
  }

  function Contributed(m: Meter, requests: seq<Request>): nat {
    if requests == [] then 0
    else Contributed(m, requests[..|requests| - 1]) + Contribution(m, requests[|requests| - 1])
  }

  /** The entries that a request has created are there. */
  ghost predicate EntriesMade(c: Counters, r: Request) {
    && (AFTER_COUNT - 1 <= r.at ==> r.op in c.countByOperation)
    && (BUCKETS <= r.at ==> r.op in c.bucketsByOperation)
  }

  ghost predicate Shaped(c: Counters) {
    forall op :: op in c.bucketsByOperation ==>
      |c.bucketsByOperation[op]| == |BOUNDS| && op in c.countByOperation
  }

  datatype System = System(counters: Counters, requests: seq<Request>)

  const INITIAL: System := System(NO_COUNTS, [])

  ghost predicate Invariant(s: System) {
    && Shaped(s.counters)
    && (forall j :: 0 <= j < |s.requests| ==> s.requests[j].at <= DONE && EntriesMade(s.counters, s.requests[j]))
    && (forall m :: Reading(s.counters, m) == Contributed(m, s.requests))
  }

  // ---- steps and runs: any number of requests, any interleaving of their updates ----

  datatype Action = Arrive(op: Operation, status: int, micros: nat) | Step(j: nat)

  predicate Enabled(s: System, a: Action) {
    a.Step? ==> a.j < |s.requests| && s.requests[a.j].at < DONE
  }

  function Apply(s: System, a: Action): System
    requires Enabled(s, a)
  {
    match a
    case Arrive(op, status, micros) => s.(requests := s.requests + [Request(op, status, micros, 0)])
    case Step(j) => System(Update(s.counters, s.requests[j]), s.requests[j := Advanced(s.requests[j])])
  }

  ghost predicate Run(s: System, actions: seq<Action>, t: System)
    decreases |actions|
  {
    if actions == [] then t == s else Enabled(s, actions[0]) && Run(Apply(s, actions[0]), actions[1..], t)
  }

  lemma {:induction false} ContributedUpdate(m: Meter, requests: seq<Request>, j: nat, r: Request)
    requires j < |requests|
    ensures Contributed(m, requests[j := r]) + Contribution(m, requests[j])
         == Contributed(m, requests) + Contribution(m, r)
  {
    var k := |requests| - 1;
    if j == k {
      assert requests[j := r][..k] == requests[..k];
    } else {
      assert requests[j := r][..k] == requests[..k][j := r];
      ContributedUpdate(m, requests[..k], j, r);
    }
  }

  lemma ObserveReads(c: Counters, r: Request, i: nat, m: Meter)
    requires Shaped(c) && r.at == BUCKETS + i < DONE && r.op in c.bucketsByOperation
    ensures Reading(Observe(c, r, i), m) + Contribution(m, r) == Reading(c, m) + Contribution(m, Advanced(r))
  {
  }

  lemma TotalReads(c: Counters, r: Request, m: Meter)
    requires r.at < AFTER_DURATION
    ensures Reading(Update(c, r), m) + Contribution(m, r) == Reading(c, m) + Contribution(m, Advanced(r))
  {
  }

  lemma StatusReads(c: Counters, r: Request, m: Meter)
    requires AFTER_DURATION <= r.at < AFTER_STATUS
    ensures Reading(Update(c, r), m) + Contribution(m, r) == Reading(c, m) + Contribution(m, Advanced(r))
  {
  }

  lemma OperationStatusReads(c: Counters, r: Request, m: Meter)
    requires AFTER_STATUS <= r.at < AFTER_OPERATION_STATUS
    ensures Reading(Update(c, r), m) + Contribution(m, r) == Reading(c, m) + Contribution(m, Advanced(r))
  {
  }

  lemma SumReads(c: Counters, r: Request, m: Meter)
    requires AFTER_OPERATION_STATUS <= r.at < AFTER_SUM
    ensures Reading(Update(c, r), m) + Contribution(m, r) == Reading(c, m) + Contribution(m, Advanced(r))
  {
  }

  lemma CountReads(c: Counters, r: Request, m: Meter)
    requires AFTER_SUM <= r.at < AFTER_COUNT
    ensures Reading(Update(c, r), m) + Contribution(m, r) == Reading(c, m) + Contribution(m, Advanced(r))
  {
  }

  lemma EntryReads(c: Counters, r: Request, m: Meter)
    requires AFTER_COUNT <= r.at < BUCKETS
    ensures Reading(Update(c, r), m) + Contribution(m, r) == Reading(c, m) + Contribution(m, Advanced(r))
  {
  }

  /** An update adds to each meter exactly what the request newly contributes to it. */
  lemma UpdateReads(c: Counters, r: Request, m: Meter)
    requires Shaped(c) && r.at < DONE && EntriesMade(c, r)
    ensures Reading(Update(c, r), m) + Contribution(m, r) == Reading(c, m) + Contribution(m, Advanced(r))
  {
    hide Reading, Contribution, Observe;
    if r.at < AFTER_DURATION {
      TotalReads(c, r, m);
    } else if r.at < AFTER_STATUS {
      StatusReads(c, r, m);
    } else if r.at < AFTER_OPERATION_STATUS {
      OperationStatusReads(c, r, m);
    } else if r.at < AFTER_SUM {
      SumReads(c, r, m);
    } else if r.at < AFTER_COUNT {
      CountReads(c, r, m);
    } else if r.at < BUCKETS {
      EntryReads(c, r, m);
    } else {
      ObserveReads(c, r, r.at - BUCKETS, m);
    }
  }

  lemma UpdateKeepsShape(c: Counters, r: Request)
    requires Shaped(c) && r.at < DONE && EntriesMade(c, r)
    ensures Shaped(Update(c, r)) && EntriesMade(Update(c, r), Advanced(r))
    ensures forall q :: EntriesMade(c, q) ==> EntriesMade(Update(c, r), q)
  {
  }

  lemma StepKeepsInvariant(s: System, a: Action)
    requires Invariant(s) && Enabled(s, a)
    ensures Invariant(Apply(s, a))
  {
    var t := Apply(s, a);
    match a
    case Arrive(op, status, micros) =>
      assert t.requests[..|s.requests|] == s.requests;
      forall m ensures Reading(t.counters, m) == Contributed(m, t.requests) {
        assert Reading(s.counters, m) == Contributed(m, s.requests);
      }
    case Step(j) =>
      var r := s.requests[j];
      assert EntriesMade(s.counters, r);
      UpdateKeepsShape(s.counters, r);
      hide Update, EntriesMade, Shaped;
      forall m ensures Reading(t.counters, m) == Contributed(m, t.requests) {
        assert Reading(s.counters, m) == Contributed(m, s.requests);
        UpdateReads(s.counters, r, m);
        ContributedUpdate(m, s.requests, j, Advanced(r));
      }
  }

  /** Every counter of every reachable state is the sum of what the requests have contributed. */
  lemma {:induction false} RunKeepsInvariant(s: System, actions: seq<Action>, t: System)
    requires Invariant(s) && Run(s, actions, t)
    ensures Invariant(t)
    decreases |actions|
  {
    if actions != [] {
      StepKeepsInvariant(s, actions[0]);
      RunKeepsInvariant(Apply(s, actions[0]), actions[1..], t);
    }
  }

  ghost predicate Reachable(t: System) {
    exists actions :: Run(INITIAL, actions, t)
  }

  lemma ReachableInvariant(t: System)
    requires Reachable(t)
    ensures Invariant(t)
  {
    var actions :| Run(INITIAL, actions, t);
    forall m ensures Reading(NO_COUNTS, m) == Contributed(m, []) {
    }
    RunKeepsInvariant(INITIAL, actions, t);
  }

  ghost predicate Quiescent(s: System) {
    forall j :: 0 <= j < |s.requests| ==> s.requests[j].at == DONE
  }
}
