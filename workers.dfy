/**
 * The stale-worker reaper: lists the Concourse workers and prunes every one
 * that is stalled or landed, carries the configured name prefix and is not a
 * registered node. A failed prune is logged and the loop goes on.
 */
module Workers {
  import opened Wrappers
  import opened GoLib
  import Membership

  /** A Concourse worker as the CI service lists it; its name is its identity. */
  datatype Worker = Worker(name: string, state: string)

  /** One `PruneWorker(worker.Name)` call and what it returned (one log line). */
  datatype PruneAttempt = PruneAttempt(worker: Worker, outcome: Outcome<string>)

  /** The error `cleanupStaleWorkers` returns: only a failed listing. */
  datatype CleanupError = ListWorkersFailed(cause: string)

  /** The eligibility test of the reaper's loop, all three clauses conjoined. */
  predicate IsStale(w: Worker, prefix: string, nodes: seq<string>)
    ensures IsStale(w, prefix, nodes) <==> w.state in {"stalled", "landed"} && prefix <= w.name && w.name !in nodes
  {
    && (w.state == "stalled" || w.state == "landed")
    && HasPrefix(w.name, prefix)
    && w.name !in nodes
  }

  /** The listed workers that are eligible, in list order. */
  function StaleWorkers(ws: seq<Worker>, prefix: string, nodes: seq<string>): (r: seq<Worker>)
  {
    if ws == [] then []
    else (if IsStale(ws[0], prefix, nodes) then [ws[0]] else []) + StaleWorkers(ws[1..], prefix, nodes)
  }

  /** One prune call per worker of `stale`, in order, each with the service's answer. */
  function Prunes(stale: seq<Worker>, prune: string -> Outcome<string>): (log: seq<PruneAttempt>) {
    seq(|stale|, k requires 0 <= k < |stale| => PruneAttempt(stale[k], prune(stale[k].name)))
  }

  /** What one run of the reaper does, given what listing returned and how each prune answers. */
  function WorkerCleanup(listing: Result<seq<Worker>, string>, prefix: string, nodes: seq<string>,
                         prune: string -> Outcome<string>): Result<seq<PruneAttempt>, CleanupError>
  {
    match listing
    case Failure(e) => Failure(ListWorkersFailed(e))
    case Success(ws) => Success(Prunes(StaleWorkers(ws, prefix, nodes), prune))
  }

  /**
   * `cleanupStaleWorkers`: `listing` is what `ListWorkers` returned and
   * `prune` answers each `PruneWorker` call. The returned log holds every
   * prune attempted; an error comes back only for a failed listing.
   */
  method CleanupStaleWorkers(listing: Result<seq<Worker>, string>, prefix: string, nodes: seq<string>,
                             prune: string -> Outcome<string>)
    returns (r: Result<seq<PruneAttempt>, CleanupError>)
    ensures r == WorkerCleanup(listing, prefix, nodes, prune)
  {
    if listing.Failure? {
      return Failure(ListWorkersFailed(listing.error));
    }
    var workers := listing.value;
    var log: seq<PruneAttempt> := [];
    var i := 0;
    while i < |workers|
      invariant 0 <= i <= |workers|
      invariant log == Prunes(StaleWorkers(workers[..i], prefix, nodes), prune)
    {
      var worker := workers[i];
      if (worker.state == "stalled" || worker.state == "landed") && HasPrefix(worker.name, prefix) {
        ghost var examined: nat;
        var live;
        live, examined := Membership.InNodeList(nodes, worker.name);
        if !live {
          var outcome := prune(worker.name);
          log := log + [PruneAttempt(worker, outcome)];
        }
      }
      PrunesStep(workers, i, prefix, nodes, prune);
      i := i + 1;
    }
    assert workers[..i] == workers;
    return Success(log);
  }

  /** Selecting from a concatenation selects from each part, keeping their order. */
  lemma {:induction false} StaleWorkersAppend(a: seq<Worker>, b: seq<Worker>, prefix: string, nodes: seq<string>)
    ensures StaleWorkers(a + b, prefix, nodes) == StaleWorkers(a, prefix, nodes) + StaleWorkers(b, prefix, nodes)
  {
    if a == [] {
      assert a + b == b;
    } else {
      var head := if IsStale(a[0], prefix, nodes) then [a[0]] else [];
      assert (a + b)[0] == a[0] && (a + b)[1..] == a[1..] + b;
      assert StaleWorkers(a + b, prefix, nodes) == head + StaleWorkers(a[1..] + b, prefix, nodes);
      StaleWorkersAppend(a[1..], b, prefix, nodes);
      assert StaleWorkers(a, prefix, nodes) == head + StaleWorkers(a[1..], prefix, nodes);
    }
  }

  /** The log after examining one more listed worker. */
  lemma PrunesStep(ws: seq<Worker>, i: nat, prefix: string, nodes: seq<string>, prune: string -> Outcome<string>)
    requires i < |ws|
    ensures Prunes(StaleWorkers(ws[..i + 1], prefix, nodes), prune)
            == Prunes(StaleWorkers(ws[..i], prefix, nodes), prune)
               + if IsStale(ws[i], prefix, nodes) then [PruneAttempt(ws[i], prune(ws[i].name))] else []
  {
    assert ws[..i + 1] == ws[..i] + [ws[i]];
    assert StaleWorkers([ws[i]], prefix, nodes) == if IsStale(ws[i], prefix, nodes) then [ws[i]] else [];
    StaleWorkersAppend(ws[..i], [ws[i]], prefix, nodes);
    PrunesAppend(StaleWorkers(ws[..i], prefix, nodes), StaleWorkers([ws[i]], prefix, nodes), prune);
  }

  lemma PrunesAppend(a: seq<Worker>, b: seq<Worker>, prune: string -> Outcome<string>)
    ensures Prunes(a + b, prune) == Prunes(a, prune) + Prunes(b, prune)
  {
  }

  /** A listed worker is selected exactly when every clause of the predicate holds. */
  lemma {:induction false} StaleWorkerMember(ws: seq<Worker>, prefix: string, nodes: seq<string>, w: Worker)
    ensures w in StaleWorkers(ws, prefix, nodes) <==> w in ws && IsStale(w, prefix, nodes)
  {
    if ws != [] {
      StaleWorkerMember(ws[1..], prefix, nodes, w);
      assert ws == [ws[0]] + ws[1..];
    }
  }

  /**
   * After a successful listing, a prune of `w` (answered as the service
   * answers it) is attempted exactly when `w` is listed and stale: stalled or
   * landed, prefixed, and not a registered node name. Negating any clause means no prune.
   */
  lemma PrunedIffStale(ws: seq<Worker>, prefix: string, nodes: seq<string>, prune: string -> Outcome<string>, w: Worker)
    ensures WorkerCleanup(Success(ws), prefix, nodes, prune).Success?
    ensures PruneAttempt(w, prune(w.name)) in WorkerCleanup(Success(ws), prefix, nodes, prune).value
            <==> w in ws && IsStale(w, prefix, nodes)
  {
    var stale := StaleWorkers(ws, prefix, nodes);
    var log := Prunes(stale, prune);
    StaleWorkerMember(ws, prefix, nodes, w);
    if PruneAttempt(w, prune(w.name)) in log {
      var k :| 0 <= k < |log| && log[k] == PruneAttempt(w, prune(w.name));
      assert stale[k] == w;
    }
    if w in stale {
      var k :| 0 <= k < |stale| && stale[k] == w;
      assert log[k] == PruneAttempt(w, prune(w.name));
    }
  }

  /**
   * Failure isolation: the workers a run tries to prune, and their order, do
   * not depend on how any prune answers; each stale worker gets one attempt.
   */
  lemma AttemptsIgnoreOutcomes(ws: seq<Worker>, prefix: string, nodes: seq<string>,
                               prune1: string -> Outcome<string>, prune2: string -> Outcome<string>)
    ensures var log1 := WorkerCleanup(Success(ws), prefix, nodes, prune1).value;
            var log2 := WorkerCleanup(Success(ws), prefix, nodes, prune2).value;
            && |log1| == |log2| == |StaleWorkers(ws, prefix, nodes)|
            && forall k :: 0 <= k < |log1| ==> log1[k].worker == log2[k].worker == StaleWorkers(ws, prefix, nodes)[k]
  {
  }

  /** A failed listing is reported and no prune is attempted. */
  lemma ListingFailurePrunesNothing(e: string, prefix: string, nodes: seq<string>, prune: string -> Outcome<string>)
    ensures WorkerCleanup(Failure(e), prefix, nodes, prune) == Failure(ListWorkersFailed(e))
  {
  }

  /** The listing a second pass sees when nothing else changed: each worker pruned successfully is gone. */
  function Survivors(ws: seq<Worker>, log: seq<PruneAttempt>): (r: seq<Worker>)
    ensures forall w :: w in r <==> w in ws && PruneAttempt(w, Pass) !in log
  {
    if ws == [] then []
    else (if PruneAttempt(ws[0], Pass) in log then [] else [ws[0]]) + Survivors(ws[1..], log)
  }

  /**
   * Idempotence: on an unchanged listing a second pass selects only workers
   * whose first prune failed, so once every prune has succeeded it selects none.
   */
  lemma SecondPassSelectsOnlyFailedPrunes(ws: seq<Worker>, prefix: string, nodes: seq<string>, prune: string -> Outcome<string>)
    ensures var log := WorkerCleanup(Success(ws), prefix, nodes, prune).value;
            && (forall w :: w in StaleWorkers(Survivors(ws, log), prefix, nodes) ==> prune(w.name).Fail?)
            && ((forall a :: a in log ==> a.outcome.Pass?) ==> StaleWorkers(Survivors(ws, log), prefix, nodes) == [])
  {
    var log := WorkerCleanup(Success(ws), prefix, nodes, prune).value;
    var again := StaleWorkers(Survivors(ws, log), prefix, nodes);
    forall w | w in again
      ensures prune(w.name).Fail? && PruneAttempt(w, prune(w.name)) in log
    {
      StaleWorkerMember(Survivors(ws, log), prefix, nodes, w);
      PrunedIffStale(ws, prefix, nodes, prune, w);
    }
    if again != [] {
      assert again[0] in again;
    }
  }

  /** Scenario: a stalled, prefixed worker that is no node is pruned; a running one is not. */
  lemma PrunesStalledButNotRunning(prune: string -> Outcome<string>)
    ensures WorkerCleanup(Success([Worker("w-123", "stalled"), Worker("w-124", "running")]), "w-", [], prune)
            == Success([PruneAttempt(Worker("w-123", "stalled"), prune("w-123"))])
  {
    var ws := [Worker("w-123", "stalled"), Worker("w-124", "running")];
    assert IsStale(ws[0], "w-", []);
    assert !IsStale(ws[1], "w-", []);
    assert ws[1..][1..] == [];
    assert StaleWorkers(ws[1..], "w-", []) == [];
    assert StaleWorkers(ws, "w-", []) == [ws[0]];
    assert Prunes([ws[0]], prune) == [PruneAttempt(ws[0], prune("w-123"))];
  }
}
