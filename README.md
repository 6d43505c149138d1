# Concourse CI cleanup — a verified model of the reconciliation engine

The reconciler makes one pass over a Concourse CI installation and its
OpenStack project. It reads once the names of all nodes registered in the
Kubernetes cluster. It then prunes every Concourse worker that is `stalled` or
`landed`, carries the configured worker prefix and whose name is not one of
those node names. When volume cleanup is
enabled, it also deletes every block-storage volume that carries the volume
prefix, is `available`, has a non-empty `concourse-team` tag, is more than
one hour old, and whose `concourse-worker` tag names no registered node. A failed
prune or delete is logged and the pass goes on.

Modules (one file each):

- `Wrappers` — `Option`, `Result` and `Outcome`, for Go's `(T, error)` and `error` returns.
- `GoLib` — the library behaviour the decisions depend on: `strings.HasPrefix`,
  reading a missing map key (or environment variable) as `""`,
  `strconv.ParseBool`, and the saturating `Time.Sub` behind `time.Since`.
- `Membership` — `inNodeList` as a search loop over the captured node names.
- `Workers` — the stale-worker predicate, the reaper loop `CleanupStaleWorkers`,
  its specification `WorkerCleanup`, and lemmas about it.
- `Volumes` — the orphan-volume predicate, the reaper loop `CleanupVolumes`,
  its specification `VolumeCleanup`, and lemmas about it.
- `Settings` — `init` (environment) followed by `flag.Parse` (flags win), and the
  credential checks.
- `Coordinator` — `main` as the method `Run`.

The external services are parameters. The node listing, the Concourse login,
the worker listing, the OpenStack setup and the storage-client and project
steps are given as `Result`/`Outcome` values. A prune's answer is a function
of the worker name, and a delete's answer is a function of the volume id. The
log lines of a reaper are its returned sequence of attempts, one per prune or
delete call, each with its outcome. Package-level variables become values:
`Config` for the settings and a `seq<string>` for the node list. After `main`
captures the node list it only reads these values, and both reapers get the
same snapshot. Times are integer nanoseconds, as Go's `time.Duration` counts
them. The clock is read once, as `World.now`.

Behaviour of the code worth knowing:

- The deletable status (`"available"`) and the one-hour minimum age are the constants at main.go:26-29.
- A volume needs no `concourse-worker` tag. A missing tag reads as `""`,
  so such a volume is deleted unless some node is named `""`.
- A missing `concourse-team` tag reads as `""` and keeps the volume.
- Besides the error it returns, which `main` logs, each reaper's only output
  is one log line per prune or delete call; the model returns those lines as
  its sequence of attempts, beside that error.
- A failed Concourse login is only logged. The client is then nil, and the
  worker reaper's first call on it panics. That ends the process before any
  prune, and the volume reaper never runs. `Run` reports this as `Panicked`.
- `-concourse-password` and `-os-application-credential-secret` fall back to
  the environment only when the flag is absent. `init` runs the `== ""` test
  before flags are parsed, so a flag given as `""` still overrides the
  environment, as every other string flag does.
- The node list holds every node registered in the cluster; whether a node
  is up or ready is never looked at, so a registered node that is down still
  protects its workers and volumes.

## Model

| member | source | states |
|---|---|---|
| `Membership.InNodeList` | main.go:211-219 | returns true iff some captured node name equals the name exactly; on a hit it has looked at nodes only up to the first match, otherwise at all of them |
| `Workers.IsStale` | main.go:198 | a worker is eligible iff its state is `stalled` or `landed`, its name starts with the prefix, and its name is not a node name |
| `Workers.CleanupStaleWorkers` | main.go:191-209 | a failed listing returns `ListWorkersFailed` and attempts nothing; otherwise it returns nil with one prune attempt per stale worker, in list order, each carrying the service's answer, whatever earlier prunes answered |
| `Workers.StaleWorkerMember` | main.go:198 | a worker is selected iff it is listed, its state is `stalled` or `landed`, its name has the prefix, and its name is not a node name |
| `Workers.PrunedIffStale` | main.go:197-206 | after a successful listing, a prune of a worker is attempted iff it is listed and stale; negating any clause (for example state `running`) means no prune |
| `Workers.StaleWorkersAppend` | main.go:197 | the selection from a concatenated listing is the two selections concatenated, so attempts follow list order |
| `Workers.AttemptsIgnoreOutcomes` | main.go:199-204 | the workers attempted, their number and their order are the same whatever the prunes answer, so a failed prune stops nothing |
| `Workers.ListingFailurePrunesNothing` | main.go:192-195 | a failed worker listing yields the listing error and no prune |
| `Workers.SecondPassSelectsOnlyFailedPrunes` | main.go:197-206 | on an unchanged listing and node list, without the successfully pruned workers, a second pass selects only workers whose prune failed, and none if all prunes succeeded |
| `Workers.PrunesStalledButNotRunning` | main.go:198 | `w-123` stalled and not a node name is pruned; `w-124` running and not a node name is not |
| `Volumes.IsOrphaned` | main.go:173-178 | a volume is eligible iff its name starts with the prefix, its status is `available`, it has a non-empty `concourse-team` tag, it is strictly more than one hour old, and its `concourse-worker` tag is not a node name, where a missing tag counts as `""` |
| `Volumes.CleanupVolumes` | main.go:147-189 | a failed storage client, project lookup or volume listing returns its error before any delete; otherwise it returns nil with one delete per orphaned volume of that project's listing, in order, whatever earlier deletes answered |
| `Volumes.OrphanedVolumeMember` | main.go:173-178 | a volume is selected iff it is listed and all five clauses hold |
| `Volumes.DeletedIffOrphaned` | main.go:172-179 | after a successful listing, a delete of a volume is attempted iff it is listed, has the prefix, is `available`, has a non-empty `concourse-team` tag, is strictly more than one hour old, and its `concourse-worker` tag (`""` when absent) is not a node name |
| `Volumes.OrphanedVolumesAppend` | main.go:172 | the selection from a concatenated listing is the two selections concatenated, so deletes follow list order |
| `Volumes.SetupFailureDeletesNothing` | main.go:148-170 | the reaper returns an error iff creating the storage client, resolving the project or listing its volumes fails, and then it deletes nothing |
| `Volumes.AttemptsIgnoreOutcomes` | main.go:179-184 | the volumes attempted, their number and their order are the same whatever the deletes answer |
| `Volumes.SecondPassSelectsOnlyFailedDeletes` | main.go:172-186 | on an unchanged listing, node list and clock, without the successfully deleted volumes, a second pass selects only volumes whose delete failed, and none if all deletes succeeded |
| `Volumes.DeletesOldOrphanButNotYoungOne` | main.go:173-178 | an orphan created two hours ago is eligible; the same volume created ten minutes ago is not |
| `Volumes.AgeBoundIsStrict` | main.go:177 | a volume that otherwise qualifies is kept at exactly one hour old and eligible one nanosecond later |
| `GoLib.SubExceedsExactly` | main.go:177 | saturating the age to the Duration range never changes whether it exceeds the one-hour bound |
| `GoLib.HasPrefixIsSeqPrefix` | main.go:198 | the prefix test is the sequence-prefix relation, and the empty prefix matches every name |
| `GoLib.ParseBoolUnambiguous` | main.go:52-55 | a value parses as true iff it is a true spelling and as false iff it is a false spelling; the empty value does not parse |
| `Settings.Init` | main.go:45-81 | every string setting is its environment variable's value, `""` when unset (password and secret included, as their flag default is `""` when the fallback runs); volume cleanup is on iff `VOLUME_CLEANUP` is a true spelling |
| `Settings.ParseFlags` | main.go:62-72 | every string setting whose flag was given takes the flag's value, even `""`; the others keep their value; `-volume-cleanup` overrides cleanup when given |
| `Settings.Resolve` | main.go:45-98 | after `init` and `flag.Parse`, each string setting is its flag if given, else its environment variable, else `""`; volume cleanup is the flag if given, else whether `VOLUME_CLEANUP` is a true spelling |
| `Settings.HasConcourseCredentials` | main.go:100-102 | holds iff the Concourse URL, user and password are all non-empty |
| `Settings.HasOpenstackCredentials` | main.go:104-106 | holds iff the OpenStack auth URL, application credential id and secret are all non-empty |
| `Settings.FlagOverridesEnvironment` | main.go:48-80 | each string setting is the flag's value if the flag was given, otherwise the environment variable's value, otherwise `""` |
| `Settings.VolumeCleanupResolution` | main.go:52-55 | volume cleanup is the flag's value if given; otherwise it is on iff `VOLUME_CLEANUP` is a true spelling, so an unparseable value is off |
| `Coordinator.Run` | main.go:97-145 | a missing Concourse URL, user or password aborts first. With volume cleanup on, a missing OpenStack URL, credential id or secret aborts. A failed node listing aborts before any prune or delete. A failed login panics before any prune. Otherwise the worker reaper runs on the captured nodes. The volume reaper runs iff cleanup is enabled and OpenStack setup succeeds, whatever the worker reaper returned. A failed setup is fatal only after the worker reaper ran |

## Left out

- Building the Kubernetes client from kubeconfig and context (`kubeConfig`, `-kubeconfig`, `-context`) and listing the nodes: only the result, a node-name list or one of three errors, is modelled.
- `concourse.go` (the OAuth2 password-grant login and HTTP client) is not part of this model. Its success or failure is an input.
- `openstack.go` (`NewOpenstackClient`, `Setup`) is not part of this model. The setup's success or failure is an input.
- Paging and extracting volumes are one fallible listing of the project's volumes. The token project lookup is one fallible step.
- `sigHandler`: signal handling with a goroutine and channels. `main` never calls it.
- Log formatting and process exit: a fatal stop is modelled as "no later step runs".
- The wall clock: `time.Since` reads the clock; the model takes one `now` per run and uses Go's saturating subtraction.
- Flag syntax errors (for example `-volume-cleanup=maybe`), which make `flag.Parse` exit: the model takes the flags as already parsed.
- Go strings are byte sequences; the model's strings are character sequences. Prefix and equality tests agree on both.
- Services whose answers change between two calls for the same worker name or volume id: a prune or delete answer is a function of its argument. Each listed entry still gets exactly one call.
