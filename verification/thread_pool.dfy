/** The pool itself: construction, shutdown, worker selection and posting.
    Threads, the workers' queues and the work-stealing loop are not modelled;
    a worker is its queue size and where it is in its start/stop lifecycle. */
module ThreadPool {
  import opened Machine
  import opened PoolOptions
  import DonorRing

  /** How far the pool has driven a worker. */
  datatype WorkerState =
    | Constructed                          // queue allocated, thread not started
    | Running(id: nat, donor: nat)         // started with its id and steal donor
    | StopRequested(id: nat, donor: nat)   // running flag cleared, still draining

  datatype Worker = Worker(queueSize: SizeT, state: WorkerState)

  /** The workers in order, and the shared round-robin counter. */
  datatype Pool = Pool(workers: seq<Worker>, nextWorker: SizeT)

  /** Worker `i` of `n` was started as worker `i` with its ring donor. */
  predicate StartedAs(w: Worker, i: nat, n: nat)
    requires i < n
  {
    !w.state.Constructed? && w.state.id == i && w.state.donor == DonorRing.Donor(n, i)
  }

  /** Every worker was started with its own position and its ring donor. */
  predicate Wired(ws: seq<Worker>)
  {
    forall i :: 0 <= i < |ws| ==> StartedAs(ws[i], i, |ws|)
  }

  /** Builds and starts a pool: resolve the count, allocate every worker, then
      start worker `i` with id `i` and donor `(i + 1) mod n`. */
  method Create(options: Options, hardwareHint: UInt) returns (pool: Pool)
    ensures |pool.workers| == WorkerCount(options.threadsCount, hardwareHint)
    ensures 1 <= |pool.workers|
    ensures pool.nextWorker == 0
    ensures Wired(pool.workers)
    ensures forall i :: 0 <= i < |pool.workers| ==>
              pool.workers[i].state == Running(i, DonorRing.Donor(|pool.workers|, i))
    ensures forall i :: 0 <= i < |pool.workers| ==>
              pool.workers[i].queueSize == options.workerQueueSize
  {
    var n := WorkerCount(options.threadsCount, hardwareHint);
    var ws := seq(n, _ => Worker(options.workerQueueSize, Constructed));
    var i := 0;
    while i < n
      invariant 0 <= i <= n && |ws| == n
      invariant forall j :: 0 <= j < i ==>
                  ws[j] == Worker(options.workerQueueSize, Running(j, DonorRing.Donor(n, j)))
      invariant forall j :: i <= j < n ==> ws[j] == Worker(options.workerQueueSize, Constructed)
    {
      ws := ws[i := ws[i].(state := Running(i, DonorRing.Donor(n, i)))];
      i := i + 1;
    }
    pool := Pool(ws, 0);
  }

  /** `Worker::stop`: clears the running flag of a started worker. */
  function Stop(w: Worker): (r: Worker)
    ensures r.queueSize == w.queueSize
    ensures w.state.Running? ==> r.state == StopRequested(w.state.id, w.state.donor)
    ensures !w.state.Running? ==> r == w
  {
    match w.state
    case Running(id, donor) => w.(state := StopRequested(id, donor))
    case _ => w
  }

  /** The destructor: asks every worker, in order, to stop. */
  method Shutdown(pool: Pool) returns (stopped: Pool)
    requires Wired(pool.workers)
    ensures |stopped.workers| == |pool.workers|
    ensures stopped.nextWorker == pool.nextWorker
    ensures Wired(stopped.workers)
    ensures forall i :: 0 <= i < |stopped.workers| ==>
              && !stopped.workers[i].state.Running?
              && stopped.workers[i].queueSize == pool.workers[i].queueSize
  {
    var ws := pool.workers;
    var i := 0;
    while i < |ws|
      invariant 0 <= i <= |ws| && |ws| == |pool.workers|
      invariant forall j :: 0 <= j < i ==> ws[j] == Stop(pool.workers[j])
      invariant forall j :: i <= j < |ws| ==> ws[j] == pool.workers[j]
    {
      ws := ws[i := Stop(ws[i])];
      i := i + 1;
    }
    stopped := Pool(ws, pool.nextWorker);
  }

  /** The chosen worker's index and the pool after the choice. */
  datatype Pick = Pick(index: nat, pool: Pool)

  /** `getWorker`, with the guard corrected to `>=`: a caller whose thread-local
      id names a worker stays on that worker; anyone else takes the next
      round-robin slot. */
  function GetWorker(pool: Pool, callerId: SizeT): (p: Pick)
    requires 1 <= |pool.workers|
    ensures p.index < |pool.workers|
    ensures p.pool.workers == pool.workers
    ensures callerId < |pool.workers| ==> p.index == callerId && p.pool == pool
    ensures callerId >= |pool.workers| ==>
              && p.index == pool.nextWorker % |pool.workers|
              && p.pool.nextWorker == Increment(pool.nextWorker)
  {
    if callerId >= |pool.workers| then
      Pick(pool.nextWorker % |pool.workers|, pool.(nextWorker := Increment(pool.nextWorker)))
    else
      Pick(callerId, pool)
  }

  /** `getWorker` as the source writes it, with `>`: the id equal to the worker
      count is taken as a worker index. */
  function GetWorkerAsWritten(pool: Pool, callerId: SizeT): (p: Pick)
    requires 1 <= |pool.workers|
    ensures callerId <= |pool.workers| ==> p.index == callerId && p.pool == pool
    ensures callerId > |pool.workers| ==>
              && p.index == pool.nextWorker % |pool.workers|
              && p.pool.nextWorker == Increment(pool.nextWorker)
  {
    if callerId > |pool.workers| then
      Pick(pool.nextWorker % |pool.workers|, pool.(nextWorker := Increment(pool.nextWorker)))
    else
      Pick(callerId, pool)
  }

  /** The as-written guard lets the id `n` through, and `n` is one past the last worker. */
  lemma AsWrittenIndexesPastEnd(pool: Pool)
    requires 1 <= |pool.workers| < SizeModulus
    ensures GetWorkerAsWritten(pool, |pool.workers|).index == |pool.workers|
    ensures GetWorker(pool, |pool.workers|).index < |pool.workers|
  {
  }

  /** Apart from that one id, both guards choose alike. */
  lemma AsWrittenAgreesElsewhere(pool: Pool, callerId: SizeT)
    requires 1 <= |pool.workers|
    ensures GetWorkerAsWritten(pool, callerId) == GetWorker(pool, callerId)
            <==> callerId != |pool.workers|
  {
  }

  /** What `post` reports: the worker that took the task, or queue overflow. */
  datatype PostResult = Posted(worker: nat) | Overflow

  datatype Posting = Posting(result: PostResult, pool: Pool)

  /** `post`: choose a worker, hand it the task, and turn a refusal into an
      overflow. `accepts(i)` is what worker `i`'s own `post` answers; its
      queue is not part of this model. */
  function Post(pool: Pool, callerId: SizeT, accepts: nat -> bool): (r: Posting)
    requires 1 <= |pool.workers|
    ensures var p := GetWorker(pool, callerId);
            && r.pool == p.pool
            && (r.result.Posted? <==> accepts(p.index))
            && (r.result.Posted? ==> r.result.worker == p.index)
  {
    var p := GetWorker(pool, callerId);
    if accepts(p.index) then Posting(Posted(p.index), p.pool) else Posting(Overflow, p.pool)
  }

  /** An external post that overflows has still used up a round-robin slot. */
  lemma OverflowStillAdvancesCounter(pool: Pool, callerId: SizeT, accepts: nat -> bool)
    requires 1 <= |pool.workers| <= callerId
    requires !accepts(pool.nextWorker % |pool.workers|)
    ensures Post(pool, callerId, accepts).result == Overflow
    ensures Post(pool, callerId, accepts).pool.nextWorker == Increment(pool.nextWorker)
  {
  }

  /** The workers chosen for a sequence of callers, one `getWorker` after another. */
  function SelectAll(pool: Pool, callers: seq<SizeT>): (r: (seq<nat>, Pool))
    requires 1 <= |pool.workers|
    ensures |r.0| == |callers|
    ensures r.1.workers == pool.workers
    ensures forall j :: 0 <= j < |r.0| ==> r.0[j] < |pool.workers|
    decreases |callers|
  {
    if callers == [] then ([], pool)
    else
      var p := GetWorker(pool, callers[0]);
      var rest := SelectAll(p.pool, callers[1..]);
      ([p.index] + rest.0, rest.1)
  }

  /** Callers that are themselves workers are each routed to their own worker,
      and the round-robin counter is never touched. */
  lemma {:induction false} WorkersPostToThemselves(pool: Pool, callers: seq<SizeT>)
    requires 1 <= |pool.workers|
    requires forall j :: 0 <= j < |callers| ==> callers[j] < |pool.workers|
    ensures SelectAll(pool, callers).1 == pool
    ensures forall j :: 0 <= j < |callers| ==> SelectAll(pool, callers).0[j] == callers[j]
    decreases |callers|
  {
    if callers != [] {
      WorkersPostToThemselves(pool, callers[1..]);
    }
  }

  /** A positive multiple of `n` is at least `n`. */
  lemma {:induction false} MultipleAtLeast(d: int, n: int)
    requires d >= 1 && n > 0
    ensures d * n >= n
    decreases d
  {
    if d > 1 {
      MultipleAtLeast(d - 1, n);
      assert d * n == (d - 1) * n + n;
    }
  }

  /** `a mod n` is the unique remainder. */
  lemma ModUnique(a: int, n: int, q: int, r: int)
    requires 0 < n && 0 <= r < n && a == q * n + r
    ensures a % n == r
  {
    var q', r' := a / n, a % n;
    assert a == q' * n + r';
    assert (q - q') * n == q * n - q' * n;
    if q > q' {
      MultipleAtLeast(q - q', n);
    } else if q < q' {
      assert (q' - q) * n == q' * n - q * n;
      MultipleAtLeast(q' - q, n);
    }
  }

  /** Advancing the counter by one moves its slot to the donor of the old slot. */
  lemma NextSlotIsDonor(c: int, n: int)
    requires 0 < n && 0 <= c
    ensures (c + 1) % n == DonorRing.Donor(n, c % n)
  {
    var q, r := c / n, c % n;
    if r + 1 < n {
      ModUnique(c + 1, n, q, r + 1);
    } else {
      ModUnique(c + 1, n, q + 1, 0);
    }
  }

  /** External callers walk the same ring as the steal donors: the j-th of them
      gets the worker j steps along from the counter's current slot, as long as
      no selection but the last wraps the counter. */
  lemma {:induction false} ExternalCallersRotate(pool: Pool, callers: seq<SizeT>)
    requires 1 <= |pool.workers|
    requires forall j :: 0 <= j < |callers| ==> callers[j] >= |pool.workers|
    requires pool.nextWorker + |callers| <= SizeModulus
    ensures SelectAll(pool, callers).1.nextWorker
            == if pool.nextWorker + |callers| == SizeModulus then 0 else pool.nextWorker + |callers|
    ensures forall j :: 0 <= j < |callers| ==>
              SelectAll(pool, callers).0[j]
              == DonorRing.Walk(|pool.workers|, pool.nextWorker % |pool.workers|, j)
    decreases |callers|
  {
    if callers != [] {
      var n := |pool.workers|;
      var p := GetWorker(pool, callers[0]);
      ExternalCallersRotate(p.pool, callers[1..]);
      if |callers| > 1 {
        NextSlotIsDonor(pool.nextWorker, n);
      }
      var picks := SelectAll(pool, callers).0;
      var start := pool.nextWorker % n;
      forall j | 1 <= j < |callers|
        ensures picks[j] == DonorRing.Walk(n, start, j)
      {
        assert picks[j] == SelectAll(p.pool, callers[1..]).0[j - 1];
        WalkShift(n, start, j);
      }
    }
  }

  /** Away from the wrap the counter simply rises by the number of external
      callers, and they take consecutive places on the donor ring. */
  lemma {:induction false} ExternalCallersRotateNoWrap(pool: Pool, callers: seq<SizeT>)
    requires 1 <= |pool.workers|
    requires forall j :: 0 <= j < |callers| ==> callers[j] >= |pool.workers|
    requires pool.nextWorker + |callers| < SizeModulus
    ensures SelectAll(pool, callers).1.nextWorker == pool.nextWorker + |callers|
    ensures forall j :: 0 <= j < |callers| ==>
              SelectAll(pool, callers).0[j]
              == DonorRing.Walk(|pool.workers|, pool.nextWorker % |pool.workers|, j)
  {
    ExternalCallersRotate(pool, callers);
  }

  /** Walking `j` steps from `i` is walking `j - 1` steps from the donor of `i`. */
  lemma {:induction false} WalkShift(n: nat, i: nat, j: nat)
    requires i < n && 1 <= j
    ensures DonorRing.Walk(n, i, j) == DonorRing.Walk(n, DonorRing.Donor(n, i), j - 1)
    decreases j
  {
    if j > 1 {
      WalkShift(n, i, j - 1);
    }
  }

  /** Any `n` consecutive external selections choose every worker exactly once
      (while no selection but the last wraps the counter). */
  lemma RoundRobinChoosesEachOnce(pool: Pool, callers: seq<SizeT>)
    requires 1 <= |pool.workers| == |callers|
    requires forall j :: 0 <= j < |callers| ==> callers[j] >= |pool.workers|
    requires pool.nextWorker + |callers| <= SizeModulus
    ensures forall w :: 0 <= w < |pool.workers| ==> w in SelectAll(pool, callers).0
    ensures forall j, k :: 0 <= j < k < |callers| ==>
              SelectAll(pool, callers).0[j] != SelectAll(pool, callers).0[k]
  {
    var n := |pool.workers|;
    var start := pool.nextWorker % n;
    var picks := SelectAll(pool, callers).0;
    ExternalCallersRotate(pool, callers);
    DonorRing.DonorRingIsSingleCycle(n, start);
    forall w | 0 <= w < n
      ensures w in picks
    {
      assert picks[DonorRing.Distance(n, start, w)] == w;
    }
    DonorRing.FirstLapIsDistinct(n, start);
  }

  /** When the counter wraps and `n` does not divide 2^64 the rotation breaks:
      with three workers the last counter value and the wrapped zero both pick worker 0. */
  lemma CounterWrapRepeatsWorker(pool: Pool, callers: seq<SizeT>)
    requires |pool.workers| == 3 && pool.nextWorker == SizeModulus - 1
    requires |callers| == 2 && callers[0] >= 3 && callers[1] >= 3
    ensures SelectAll(pool, callers).0 == [0, 0]
  {
    var p := GetWorker(pool, callers[0]);
    assert p.pool.nextWorker == 0;
    assert SelectAll(p.pool, callers[1..]).0 == [0];
  }
}
