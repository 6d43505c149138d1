/**
 * The orphan-volume reaper: lists the block-storage volumes of the project
 * the OpenStack token is scoped to and deletes every one that carries the
 * configured name prefix, is "available", belongs to a Concourse team, is
 * more than one hour old and whose owning worker is not a registered node.
 */
module Volumes {
  import opened Wrappers
  import opened GoLib
  import Membership

  /** A block-storage volume; times are nanoseconds on one clock. */
  datatype Volume = Volume(id: string, name: string, status: string, createdAt: int, metadata: map<string, string>)

  /** One `volumes.Delete(vol.ID)` call and what it returned (one log line). */
  datatype DeleteAttempt = DeleteAttempt(volume: Volume, outcome: Outcome<string>)

  /**
   * The storage service as the reaper meets it: creating the block-storage
   * client, resolving the token's project, listing the volumes of a project
   * (all pages, extracted) and deleting a volume by id.
   */
  datatype StorageApi = StorageApi(
    client: Outcome<string>,
    project: Result<string, string>,
    list: string -> Result<seq<Volume>, string>,
    delete: string -> Outcome<string>)

  /** The errors `cleanupVolumes` returns, one per setup or listing step. */
  datatype CleanupError =
    | StorageClientFailed(cause: string)
    | ProjectFailed(cause: string)
    | ListVolumesFailed(cause: string)

  const DeletableStatus: string := "available"
  const TeamTag: string := "concourse-team"
  const WorkerTag: string := "concourse-worker"
  /** Volumes must be strictly older than this many nanoseconds. */
  const MinimumAge: int := Hour

  /**
   * The eligibility test of the reaper's loop, five clauses conjoined. A
   * missing worker tag reads as "", which matches a node only if one is named "".
   */
  predicate IsOrphaned(v: Volume, prefix: string, nodes: seq<string>, now: int)
    ensures IsOrphaned(v, prefix, nodes, now) <==>
              && prefix <= v.name
              && v.status == "available"
              && TeamTag in v.metadata && v.metadata[TeamTag] != ""
              && now - v.createdAt > Hour
              && (if WorkerTag in v.metadata then v.metadata[WorkerTag] !in nodes else "" !in nodes)
  {
    SubExceedsExactly(now, v.createdAt, Hour);
    && HasPrefix(v.name, prefix)
    && v.status == DeletableStatus
    && Lookup(v.metadata, TeamTag) != ""
    && Sub(now, v.createdAt) > MinimumAge
    && Lookup(v.metadata, WorkerTag) !in nodes
  }

  /** The listed volumes that are eligible, in list order. */
  function OrphanedVolumes(vs: seq<Volume>, prefix: string, nodes: seq<string>, now: int): (r: seq<Volume>)
  {
    if vs == [] then []
    else (if IsOrphaned(vs[0], prefix, nodes, now) then [vs[0]] else []) + OrphanedVolumes(vs[1..], prefix, nodes, now)
  }

  /** One delete call per volume of `orphans`, in order, each with the service's answer. */
  function Deletions(orphans: seq<Volume>, delete: string -> Outcome<string>): (log: seq<DeleteAttempt>) {
    seq(|orphans|, k requires 0 <= k < |orphans| => DeleteAttempt(orphans[k], delete(orphans[k].id)))
  }

  /** What one run of the reaper does against the storage service. */
  function VolumeCleanup(api: StorageApi, prefix: string, nodes: seq<string>, now: int)
    : Result<seq<DeleteAttempt>, CleanupError>
  {
    if api.client.Fail? then Failure(StorageClientFailed(api.client.error))
    else if api.project.Failure? then Failure(ProjectFailed(api.project.error))
    else match api.list(api.project.value)
      case Failure(e) => Failure(ListVolumesFailed(e))
      case Success(vs) => Success(Deletions(OrphanedVolumes(vs, prefix, nodes, now), api.delete))
  }

  /**
   * `cleanupVolumes`, with the clock read once as `now`. Every setup or
   * listing failure returns an error before any deletion; after a listing,
   * each delete failure is logged and the loop goes on.
   */
  method CleanupVolumes(api: StorageApi, prefix: string, nodes: seq<string>, now: int)
    returns (r: Result<seq<DeleteAttempt>, CleanupError>)
    ensures r == VolumeCleanup(api, prefix, nodes, now)
  {
    if api.client.Fail? {
      return Failure(StorageClientFailed(api.client.error));
    }
    if api.project.Failure? {
      return Failure(ProjectFailed(api.project.error));
    }
    var listing := api.list(api.project.value);
    if listing.Failure? {
      return Failure(ListVolumesFailed(listing.error));
    }
    var all := listing.value;
    var log: seq<DeleteAttempt> := [];
    var i := 0;
    while i < |all|
      invariant 0 <= i <= |all|
      invariant log == Deletions(OrphanedVolumes(all[..i], prefix, nodes, now), api.delete)
    {
      var vol := all[i];
      var node := Lookup(vol.metadata, WorkerTag);
      if && HasPrefix(vol.name, prefix)
         && vol.status == DeletableStatus
         && Lookup(vol.metadata, TeamTag) != ""
         && Sub(now, vol.createdAt) > MinimumAge
      {
        ghost var examined: nat;
        var live;
        live, examined := Membership.InNodeList(nodes, node);
        if !live {
          var outcome := api.delete(vol.id);
          log := log + [DeleteAttempt(vol, outcome)];
        }
      }
      DeletionsStep(all, i, prefix, nodes, now, api.delete);
      i := i + 1;
    }
    assert all[..i] == all;
    return Success(log);
  }

  /** Selecting from a concatenation selects from each part, keeping their order. */
  lemma {:induction false} OrphanedVolumesAppend(a: seq<Volume>, b: seq<Volume>, prefix: string, nodes: seq<string>, now: int)
    ensures OrphanedVolumes(a + b, prefix, nodes, now) == OrphanedVolumes(a, prefix, nodes, now) + OrphanedVolumes(b, prefix, nodes, now)
  {
    if a == [] {
      assert a + b == b;
    } else {
      var head := if IsOrphaned(a[0], prefix, nodes, now) then [a[0]] else [];
      assert (a + b)[0] == a[0] && (a + b)[1..] == a[1..] + b;
      assert OrphanedVolumes(a + b, prefix, nodes, now) == head + OrphanedVolumes(a[1..] + b, prefix, nodes, now);
      OrphanedVolumesAppend(a[1..], b, prefix, nodes, now);
      assert OrphanedVolumes(a, prefix, nodes, now) == head + OrphanedVolumes(a[1..], prefix, nodes, now);
    }
  }

  /** The log after examining one more listed volume. */
  lemma DeletionsStep(vs: seq<Volume>, i: nat, prefix: string, nodes: seq<string>, now: int, delete: string -> Outcome<string>)
    requires i < |vs|
    ensures Deletions(OrphanedVolumes(vs[..i + 1], prefix, nodes, now), delete)
            == Deletions(OrphanedVolumes(vs[..i], prefix, nodes, now), delete)
               + if IsOrphaned(vs[i], prefix, nodes, now) then [DeleteAttempt(vs[i], delete(vs[i].id))] else []
  {
    assert vs[..i + 1] == vs[..i] + [vs[i]];
    assert OrphanedVolumes([vs[i]], prefix, nodes, now) == if IsOrphaned(vs[i], prefix, nodes, now) then [vs[i]] else [];
    OrphanedVolumesAppend(vs[..i], [vs[i]], prefix, nodes, now);
    DeletionsAppend(OrphanedVolumes(vs[..i], prefix, nodes, now), OrphanedVolumes([vs[i]], prefix, nodes, now), delete);
  }

  lemma DeletionsAppend(a: seq<Volume>, b: seq<Volume>, delete: string -> Outcome<string>)
    ensures Deletions(a + b, delete) == Deletions(a, delete) + Deletions(b, delete)
  {
  }

  /** A listed volume is selected exactly when every clause of the predicate holds. */
  lemma {:induction false} OrphanedVolumeMember(vs: seq<Volume>, prefix: string, nodes: seq<string>, now: int, v: Volume)
    ensures v in OrphanedVolumes(vs, prefix, nodes, now) <==> v in vs && IsOrphaned(v, prefix, nodes, now)
  {
    if vs != [] {
      OrphanedVolumeMember(vs[1..], prefix, nodes, now, v);
      assert vs == [vs[0]] + vs[1..];
    }
  }

  /**
   * After a successful listing, a delete of `v` is attempted exactly when `v`
   * is listed, prefixed, available, team-tagged, strictly older than one hour
   * and owned by a worker that is not a registered node name.
   */
  lemma DeletedIffOrphaned(api: StorageApi, prefix: string, nodes: seq<string>, now: int, v: Volume)
    requires api.client.Pass? && api.project.Success? && api.list(api.project.value).Success?
    ensures VolumeCleanup(api, prefix, nodes, now).Success?
    ensures DeleteAttempt(v, api.delete(v.id)) in VolumeCleanup(api, prefix, nodes, now).value
            <==> && v in api.list(api.project.value).value
                 && HasPrefix(v.name, prefix)
                 && v.status == "available"
                 && Lookup(v.metadata, "concourse-team") != ""
                 && now - v.createdAt > Hour
                 && Lookup(v.metadata, "concourse-worker") !in nodes
  {
    var vs := api.list(api.project.value).value;
    var orphans := OrphanedVolumes(vs, prefix, nodes, now);
    var log := Deletions(orphans, api.delete);
    OrphanedVolumeMember(vs, prefix, nodes, now, v);
    SubExceedsExactly(now, v.createdAt, Hour);
    if DeleteAttempt(v, api.delete(v.id)) in log {
      var k :| 0 <= k < |log| && log[k] == DeleteAttempt(v, api.delete(v.id));
      assert orphans[k] == v;
    }
    if v in orphans {
      var k :| 0 <= k < |orphans| && orphans[k] == v;
      assert log[k] == DeleteAttempt(v, api.delete(v.id));
    }
  }

  /** Every setup or listing failure is reported as an error and nothing is deleted. */
  lemma SetupFailureDeletesNothing(api: StorageApi, prefix: string, nodes: seq<string>, now: int)
    ensures VolumeCleanup(api, prefix, nodes, now).Failure?
            <==> api.client.Fail? || api.project.Failure? || api.list(api.project.value).Failure?
  {
  }

  /**
   * Failure isolation: the volumes a run tries to delete, and their order, do
   * not depend on how any delete answers; each orphan gets one attempt.
   */
  lemma AttemptsIgnoreOutcomes(vs: seq<Volume>, prefix: string, nodes: seq<string>, now: int,
                               delete1: string -> Outcome<string>, delete2: string -> Outcome<string>)
    ensures var log1 := Deletions(OrphanedVolumes(vs, prefix, nodes, now), delete1);
            var log2 := Deletions(OrphanedVolumes(vs, prefix, nodes, now), delete2);
            && |log1| == |log2| == |OrphanedVolumes(vs, prefix, nodes, now)|
            && forall k :: 0 <= k < |log1| ==> log1[k].volume == log2[k].volume == OrphanedVolumes(vs, prefix, nodes, now)[k]
  {
  }

  /** The listing a second pass sees when nothing else changed: each volume deleted successfully is gone. */
  function Survivors(vs: seq<Volume>, log: seq<DeleteAttempt>): (r: seq<Volume>)
    ensures forall v :: v in r <==> v in vs && DeleteAttempt(v, Pass) !in log
  {
    if vs == [] then []
    else (if DeleteAttempt(vs[0], Pass) in log then [] else [vs[0]]) + Survivors(vs[1..], log)
  }

  /**
   * Idempotence: on an unchanged listing and clock, a second pass selects only
   * volumes whose first delete failed; once every delete succeeded it selects none.
   */
  lemma SecondPassSelectsOnlyFailedDeletes(vs: seq<Volume>, prefix: string, nodes: seq<string>, now: int,
                                           delete: string -> Outcome<string>)
    ensures var log := Deletions(OrphanedVolumes(vs, prefix, nodes, now), delete);
            && (forall v :: v in OrphanedVolumes(Survivors(vs, log), prefix, nodes, now) ==> delete(v.id).Fail?)
            && ((forall a :: a in log ==> a.outcome.Pass?) ==> OrphanedVolumes(Survivors(vs, log), prefix, nodes, now) == [])
  {
    var orphans := OrphanedVolumes(vs, prefix, nodes, now);
    var log := Deletions(orphans, delete);
    var again := OrphanedVolumes(Survivors(vs, log), prefix, nodes, now);
    forall v | v in again
      ensures delete(v.id).Fail? && DeleteAttempt(v, delete(v.id)) in log
    {
      OrphanedVolumeMember(Survivors(vs, log), prefix, nodes, now, v);
      OrphanedVolumeMember(vs, prefix, nodes, now, v);
      var k :| 0 <= k < |orphans| && orphans[k] == v;
      assert log[k] == DeleteAttempt(v, delete(v.id));
    }
    if again != [] {
      assert again[0] in again;
    }
  }

  /** Scenario: an orphan two hours old is deleted; the same volume ten minutes old is kept. */
  lemma DeletesOldOrphanButNotYoungOne(delete: string -> Outcome<string>)
    ensures var tags := map["concourse-team" := "ci", "concourse-worker" := "gone"];
            var now := 2 * Hour;
            var old1 := Volume("1", "vol-1", "available", 0, tags);
            var young := Volume("2", "vol-2", "available", now - Hour / 6, tags);
            && IsOrphaned(old1, "vol-", ["alive"], now)
            && !IsOrphaned(young, "vol-", ["alive"], now)
  {
  }

  /** A volume exactly one hour old is kept; one nanosecond older is deleted. */
  lemma AgeBoundIsStrict(v: Volume, prefix: string, nodes: seq<string>)
    requires IsOrphaned(v.(createdAt := 0), prefix, nodes, Hour + 1)
    ensures !IsOrphaned(v, prefix, nodes, v.createdAt + Hour)
    ensures IsOrphaned(v, prefix, nodes, v.createdAt + Hour + 1)
  {
  }
}
