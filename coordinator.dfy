/**
 * `main`: one reconciliation pass. Check the credentials, capture the node
 * list, run the worker reaper, then the volume reaper when it is enabled.
 */
module Coordinator {
  import opened Wrappers
  import opened Settings
  import Workers
  import Volumes

  /** The three ways capturing the node list can fail. */
  datatype ClusterError =
    | KubeConfigFailed(cause: string)
    | ClientSetFailed(cause: string)
    | NodeListFailed(cause: string)

  /**
   * Everything outside the program, as one run sees it: the node names, the
   * Concourse login, the worker listing, how each prune answers, the OpenStack
   * setup, the storage service and the clock (nanoseconds).
   */
  datatype World = World(
    cluster: Result<seq<string>, ClusterError>,
    login: Outcome<string>,
    workers: Result<seq<Workers.Worker>, string>,
    prune: string -> Outcome<string>,
    openstackSetup: Outcome<string>,
    storage: Volumes.StorageApi,
    now: int)

  /** The reasons `glog.Fatal` ends the process. */
  datatype FatalError =
    | MissingConcourseFlag
    | MissingOpenstackFlag
    | ClusterUnavailable(error: ClusterError)
    | OpenstackSetupFailed(cause: string)

  /**
   * How the process ends: after the whole sequence, by `glog.Fatal`, or by a
   * runtime panic (the nil Concourse client left by a failed login).
   */
  datatype Exit = Completed | Fatal(reason: FatalError) | Panicked

  /** What a run did: each reaper's result, or `None` if it never ran. */
  datatype RunReport = RunReport(
    exit: Exit,
    workers: Option<Result<seq<Workers.PruneAttempt>, Workers.CleanupError>>,
    volumes: Option<Result<seq<Volumes.DeleteAttempt>, Volumes.CleanupError>>)

  /** Every credential the configuration needs is present. */
  predicate CredentialsPresent(cfg: Config) {
    HasConcourseCredentials(cfg) && (cfg.runVolumeCleanup ==> HasOpenstackCredentials(cfg))
  }

  /** The run gets as far as the worker reaper. */
  predicate ReachesWorkerCleanup(cfg: Config, world: World) {
    CredentialsPresent(cfg) && world.cluster.Success? && world.login.Pass?
  }

  /**
   * One pass of `main`. The node list is captured once and both reapers use
   * that same snapshot. The volume reaper runs only when enabled, and then
   * whatever the worker reaper returned; no fatal stop comes after a deletion
   * except a failed OpenStack setup, which ends the process before the volume reaper.
   */
  method Run(cfg: Config, world: World) returns (r: RunReport)
    ensures !HasConcourseCredentials(cfg) ==> r == RunReport(Fatal(MissingConcourseFlag), None, None)
    ensures HasConcourseCredentials(cfg) && cfg.runVolumeCleanup && !HasOpenstackCredentials(cfg)
            ==> r == RunReport(Fatal(MissingOpenstackFlag), None, None)
    ensures CredentialsPresent(cfg) && world.cluster.Failure?
            ==> r == RunReport(Fatal(ClusterUnavailable(world.cluster.error)), None, None)
    ensures CredentialsPresent(cfg) && world.cluster.Success? && world.login.Fail?
            ==> r == RunReport(Panicked, None, None)
    ensures r.workers.Some? <==> ReachesWorkerCleanup(cfg, world)
    ensures r.workers.Some? ==>
              r.workers.value == Workers.WorkerCleanup(world.workers, cfg.workerPrefix, world.cluster.value, world.prune)
    ensures r.volumes.Some? <==> ReachesWorkerCleanup(cfg, world) && cfg.runVolumeCleanup && world.openstackSetup.Pass?
    ensures r.volumes.Some? ==>
              r.volumes.value == Volumes.VolumeCleanup(world.storage, cfg.volumePrefix, world.cluster.value, world.now)
    ensures ReachesWorkerCleanup(cfg, world) ==>
              r.exit == if cfg.runVolumeCleanup && world.openstackSetup.Fail?
                        then Fatal(OpenstackSetupFailed(world.openstackSetup.error))
                        else Completed
  {
    if cfg.concourseURL == "" || cfg.concourseUser == "" || cfg.concoursePassword == "" {
      return RunReport(Fatal(MissingConcourseFlag), None, None);
    }
    if cfg.runVolumeCleanup && (cfg.osAuthURL == "" || cfg.osCredentialID == "" || cfg.osCredentialSecret == "") {
      return RunReport(Fatal(MissingOpenstackFlag), None, None);
    }
    if world.cluster.Failure? {
      return RunReport(Fatal(ClusterUnavailable(world.cluster.error)), None, None);
    }
    var nodes := world.cluster.value;
    if world.login.Fail? {
      // The login error is only logged; the first call on the nil client panics.
      return RunReport(Panicked, None, None);
    }
    var workers := Workers.CleanupStaleWorkers(world.workers, cfg.workerPrefix, nodes, world.prune);
    if !cfg.runVolumeCleanup {
      return RunReport(Completed, Some(workers), None);
    }
    if world.openstackSetup.Fail? {
      return RunReport(Fatal(OpenstackSetupFailed(world.openstackSetup.error)), Some(workers), None);
    }
    var volumes := Volumes.CleanupVolumes(world.storage, cfg.volumePrefix, nodes, world.now);
    return RunReport(Completed, Some(workers), Some(volumes));
  }
}
