/**
 * The cooperative worker pool behind `mapConcurrent`. Workers take turns at awaits; an
 * action below runs one worker from one await (or its start) to the next, or settles one
 * pending operation, and any order of enabled actions is a run.
 */
module WorkerPool {

  datatype Worker = AtHead | Awaiting(index: nat) | Exited

  /** The shared counter, the workers, and the sparse results list. */
  datatype Pool<R> = Pool(next: nat, workers: seq<Worker>, results: map<nat, R>)

  /** A worker evaluates its loop head, or its pending operation settles. */
  datatype Action = Proceed(worker: nat) | Settle(worker: nat)

  function PoolSize(length: nat, jobs: int): nat {
    if jobs < 0 then 0 else if jobs < length then jobs else length
  }

  function Init<R>(length: nat, jobs: int): Pool<R> {
    Pool(0, seq(PoolSize(length, jobs), _ => AtHead), map[])
  }

  predicate Enabled<R>(s: Pool<R>, a: Action) {
    a.worker < |s.workers| && if a.Proceed? then s.workers[a.worker].AtHead? else s.workers[a.worker].Awaiting?
  }

  function Apply<T, R>(values: seq<T>, op: T -> R, s: Pool<R>, a: Action): Pool<R>
    requires Enabled(s, a)
    requires forall w :: 0 <= w < |s.workers| && s.workers[w].Awaiting? ==> s.workers[w].index < |values|
  {
    if a.Proceed? then
      if s.next < |values| then s.(next := s.next + 1, workers := s.workers[a.worker := Awaiting(s.next)])
      else s.(workers := s.workers[a.worker := Exited])
    else
      var i := s.workers[a.worker].index;
      s.(workers := s.workers[a.worker := AtHead], results := s.results[i := op(values[i])])
  }

  // ---------- What every action keeps ----------

  /** Some worker awaits the operation on index `i`. */
  ghost predicate InFlight<R>(s: Pool<R>, i: nat) {
    exists w :: 0 <= w < |s.workers| && s.workers[w] == Awaiting(i)
  }

  ghost predicate Inv<T, R>(values: seq<T>, op: T -> R, s: Pool<R>) {
    && s.next <= |values|
    && (forall w :: 0 <= w < |s.workers| && s.workers[w].Awaiting? ==>
          s.workers[w].index < s.next && s.workers[w].index !in s.results)
    && (forall v, w :: 0 <= v < w < |s.workers| && s.workers[v].Awaiting? ==> s.workers[v] != s.workers[w])
    && (forall i :: i in s.results ==> i < s.next && s.results[i] == op(values[i]))
    && (forall i: nat {:trigger InFlight(s, i)} :: i < s.next && i !in s.results ==> InFlight(s, i))
    && (forall w :: 0 <= w < |s.workers| && s.workers[w].Exited? ==> s.next == |values|)
  }

  lemma ApplyKeeps<T, R>(values: seq<T>, op: T -> R, s: Pool<R>, a: Action)
    requires Inv(values, op, s) && Enabled(s, a)
    ensures Inv(values, op, Apply(values, op, s, a))
  {
    var t := Apply(values, op, s, a);
    forall i: nat | i < t.next && i !in t.results ensures InFlight(t, i) {
      if a.Proceed? && i == s.next {
        assert t.workers[a.worker] == Awaiting(i);
      } else {
        assert InFlight(s, i);
        var w :| 0 <= w < |s.workers| && s.workers[w] == Awaiting(i);
        assert t.workers[w] == Awaiting(i);
      }
    }
  }

  // ---------- Runs ----------

  datatype Reached<R> = State(pool: Pool<R>) | Impossible

  /** Where a sequence of actions leads, when each is enabled in turn. */
  ghost function Run<T, R>(values: seq<T>, op: T -> R, jobs: int, trace: seq<Action>): (r: Reached<R>)
    ensures r.State? ==> Inv(values, op, r.pool) && |r.pool.workers| == PoolSize(|values|, jobs)
  {
    if trace == [] then State(Init(|values|, jobs))
    else
      var n := |trace| - 1;
      var before := Run(values, op, jobs, trace[..n]);
      if before.Impossible? || !Enabled(before.pool, trace[n]) then Impossible
      else
        ApplyKeeps(values, op, before.pool, trace[n]);
        State(Apply(values, op, before.pool, trace[n]))
  }

  // ---------- How many operations are in flight ----------

  ghost function Pending(workers: seq<Worker>): set<nat> {
    if workers == [] then {}
    else
      var n := |workers| - 1;
      Pending(workers[..n]) + if workers[n].Awaiting? then {workers[n].index} else {}
  }

  lemma {:induction false} PendingFacts(workers: seq<Worker>)
    ensures |Pending(workers)| <= |workers|
    ensures forall i: nat :: i in Pending(workers) <==> exists w :: 0 <= w < |workers| && workers[w] == Awaiting(i)
    decreases |workers|
  {
    if workers != [] {
      var n := |workers| - 1;
      PendingFacts(workers[..n]);
      forall i: nat ensures i in Pending(workers) <==> exists w :: 0 <= w < |workers| && workers[w] == Awaiting(i) {
        if i in Pending(workers[..n]) {
          var w :| 0 <= w < n && workers[..n][w] == Awaiting(i);
          assert workers[w] == Awaiting(i);
        }
        if w :| 0 <= w < |workers| && workers[w] == Awaiting(i) && w < n {
          assert workers[..n][w] == Awaiting(i);
        }
      }
    }
  }

  /** At every moment of every run, no more operations are in flight than jobs were asked for, or values given. */
  lemma BoundedInFlight<T, R>(values: seq<T>, op: T -> R, jobs: nat, trace: seq<Action>, flying: set<nat>)
    requires Run(values, op, jobs, trace).State?
    requires forall i: nat :: i in flying <==> InFlight(Run(values, op, jobs, trace).pool, i)
    ensures |flying| <= jobs && |flying| <= |values|
  {
    var s := Run(values, op, jobs, trace).pool;
    PendingFacts(s.workers);
    forall i: nat ensures i in flying <==> i in Pending(s.workers) {
      assert i in flying <==> InFlight(s, i);
    }
    assert flying == Pending(s.workers);
  }

  /** Each of the first `k` workers starts in turn. */
  ghost function Starts(k: nat): seq<Action> {
    if k == 0 then [] else Starts(k - 1) + [Proceed(k - 1)]
  }

  lemma {:induction false} StartsRun<T, R>(values: seq<T>, op: T -> R, jobs: int, k: nat)
    requires k <= PoolSize(|values|, jobs)
    ensures Run(values, op, jobs, Starts(k)).State?
    ensures var s := Run(values, op, jobs, Starts(k)).pool;
      s.next == k && forall w :: 0 <= w < |s.workers| ==> s.workers[w] == if w < k then Awaiting(w) else AtHead
  {
    if k > 0 {
      StartsRun(values, op, jobs, k - 1);
      assert Starts(k)[..|Starts(k)| - 1] == Starts(k - 1);
    }
  }

  /** The bound is met: in some run as many operations are in flight as there are jobs, or values if fewer. */
  lemma {:induction false} FullPool<T, R>(values: seq<T>, op: T -> R, jobs: nat) returns (trace: seq<Action>)
    ensures Run(values, op, jobs, trace).State?
    ensures forall i: nat :: i < jobs && i < |values| ==> InFlight(Run(values, op, jobs, trace).pool, i)
  {
    trace := Starts(PoolSize(|values|, jobs));
    StartsRun(values, op, jobs, PoolSize(|values|, jobs));
    var s := Run(values, op, jobs, trace).pool;
    forall i: nat | i < jobs && i < |values| ensures InFlight(s, i) {
      assert s.workers[i] == Awaiting(i);
    }
  }

  // ---------- Every run is short ----------

  ghost function Cost(w: Worker): nat {
    match w
    case AtHead => 1
    case Awaiting(_) => 2
    case Exited => 0
  }

  ghost function Unfinished(workers: seq<Worker>): nat {
    if workers == [] then 0
    else
      var n := |workers| - 1;
      Unfinished(workers[..n]) + Cost(workers[n])
  }

  lemma {:induction false} UnfinishedUpdate(workers: seq<Worker>, k: nat, w: Worker)
    requires k < |workers|
    ensures Unfinished(workers[k := w]) + Cost(workers[k]) == Unfinished(workers) + Cost(w)
    decreases |workers|
  {
    var n := |workers| - 1;
    if k == n {
      assert workers[k := w][..n] == workers[..n];
    } else {
      assert workers[k := w][..n] == workers[..n][k := w];
      UnfinishedUpdate(workers[..n], k, w);
    }
  }

  lemma {:induction false} InitUnfinished(n: nat)
    ensures Unfinished(seq(n, _ => AtHead)) == n
  {
    if n > 0 {
      InitUnfinished(n - 1);
      assert seq(n, _ => AtHead)[..n - 1] == seq(n - 1, _ => AtHead);
    }
  }

  ghost function Remaining<R>(length: nat, s: Pool<R>): int {
    2 * (length - s.next) + Unfinished(s.workers)
  }

  /** Each action uses up one unit of remaining work. */
  lemma ApplySpends<T, R>(values: seq<T>, op: T -> R, s: Pool<R>, a: Action)
    requires Inv(values, op, s) && Enabled(s, a)
    ensures Remaining(|values|, Apply(values, op, s, a)) == Remaining(|values|, s) - 1
  {
    var t := Apply(values, op, s, a);
    UnfinishedUpdate(s.workers, a.worker, t.workers[a.worker]);
  }

  /** Runs never exceed two actions a value and one a worker. */
  lemma {:induction false} RunIsShort<T, R>(values: seq<T>, op: T -> R, jobs: int, trace: seq<Action>)
    requires Run(values, op, jobs, trace).State?
    ensures var s := Run(values, op, jobs, trace).pool;
      |trace| + Remaining(|values|, s) == 2 * |values| + PoolSize(|values|, jobs) && Remaining(|values|, s) >= 0
    decreases |trace|
  {
    var n := |trace| - 1;
    if trace == [] {
      InitUnfinished(PoolSize(|values|, jobs));
    } else {
      RunIsShort(values, op, jobs, trace[..n]);
      ApplySpends(values, op, Run(values, op, jobs, trace[..n]).pool, trace[n]);
    }
  }

  // ---------- Where runs end ----------

  ghost predicate Stopped<R>(s: Pool<R>) {
    forall w :: 0 <= w < |s.workers| ==> s.workers[w].Exited?
  }

  /** A run stops only when every worker has left its loop. */
  lemma StoppedIff<R>(s: Pool<R>)
    ensures Stopped(s) <==> forall a :: !Enabled(s, a)
  {
    if !Stopped(s) {
      var w :| 0 <= w < |s.workers| && !s.workers[w].Exited?;
      assert Enabled(s, if s.workers[w].AtHead? then Proceed(w) else Settle(w));
    }
  }

  /** The results are those of the sequential map, in input order. */
  ghost predicate IsMap<T, R>(values: seq<T>, op: T -> R, results: map<nat, R>) {
    (forall i: nat :: i < |values| <==> i in results) && forall i :: i in results ==> results[i] == op(values[i])
  }

  /** Every stopped run holds the sequential map's results exactly when there was a worker or nothing to do. */
  lemma StoppedIsMap<T, R>(values: seq<T>, op: T -> R, jobs: int, trace: seq<Action>)
    requires Run(values, op, jobs, trace).State? && Stopped(Run(values, op, jobs, trace).pool)
    ensures IsMap(values, op, Run(values, op, jobs, trace).pool.results) <==> jobs >= 1 || values == []
  {
    var s := Run(values, op, jobs, trace).pool;
    if jobs >= 1 && values != [] {
      assert s.workers[0].Exited?;
      assert forall i: nat :: !InFlight(s, i);
      assert forall i: nat :: i < |values| ==> i in s.results || InFlight(s, i);
    } else if values != [] {
      assert trace == [];
      assert 0 !in s.results;
    }
  }

  // ---------- Claims ----------

  /** The indices claimed during a run, in claiming order. */
  ghost function Claims<T, R>(values: seq<T>, op: T -> R, jobs: int, trace: seq<Action>): seq<nat>
    requires Run(values, op, jobs, trace).State?
  {
    if trace == [] then []
    else
      var n := |trace| - 1;
      var before := Run(values, op, jobs, trace[..n]).pool;
      Claims(values, op, jobs, trace[..n])
        + if trace[n].Proceed? && before.next < |values| then [before.next] else []
  }

  ghost function UpTo(n: nat): seq<nat> {
    seq(n, i => i)
  }

  lemma CountNext(n: nat)
    ensures UpTo(n + 1) == UpTo(n) + [n]
  {
  }

  /** Indices are claimed once each, in input order, whichever workers claim them. */
  lemma {:induction false} ClaimedOnce<T, R>(values: seq<T>, op: T -> R, jobs: int, trace: seq<Action>)
    requires Run(values, op, jobs, trace).State?
    ensures Claims(values, op, jobs, trace) == UpTo(Run(values, op, jobs, trace).pool.next)
    decreases |trace|
  {
    if trace != [] {
      var n := |trace| - 1;
      ClaimedOnce(values, op, jobs, trace[..n]);
      CountNext(Run(values, op, jobs, trace[..n]).pool.next);
    }
  }

  /** The pool under a scheduler that picks any worker that has not left its loop. */
  method MapConcurrent<T, R>(values: seq<T>, jobs: int, op: T -> R) returns (results: map<nat, R>)
    ensures IsMap(values, op, results) <==> jobs >= 1 || values == []
  {
    var s: Pool<R> := Init(|values|, jobs);
    ghost var trace: seq<Action> := [];
    while exists w :: 0 <= w < |s.workers| && !s.workers[w].Exited?
      invariant Run(values, op, jobs, trace) == State(s)
      decreases 2 * |values| + PoolSize(|values|, jobs) - |trace|
    {
      var w :| 0 <= w < |s.workers| && !s.workers[w].Exited?;
      var a := if s.workers[w].AtHead? then Proceed(w) else Settle(w);
      RunIsShort(values, op, jobs, trace);
      assert (trace + [a])[..|trace|] == trace;
      s, trace := Apply(values, op, s, a), trace + [a];
      RunIsShort(values, op, jobs, trace);
    }
    StoppedIsMap(values, op, jobs, trace);
    results := s.results;
  }
}
