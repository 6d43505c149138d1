/**
 * The reconciler's configuration: the package-level settings `init` fills
 * from the environment, which `flag.Parse` then overwrites for every flag
 * given on the command line, and the credential checks `main` makes first.
 */
module Settings {
  import opened Wrappers
  import opened GoLib

  datatype Config = Config(
    concourseURL: string,
    concourseUser: string,
    concoursePassword: string,
    workerPrefix: string,
    runVolumeCleanup: bool,
    volumePrefix: string,
    osAuthURL: string,
    osCredentialID: string,
    osCredentialSecret: string)

  /** The flags given on the command line: string flags by name, and `-volume-cleanup` if given. */
  datatype Flags = Flags(strings: map<string, string>, volumeCleanup: Option<bool>)

  /**
   * `init`: every setting from its environment variable; an absent variable
   * reads as "". An unparseable VOLUME_CLEANUP turns volume cleanup off. The
   * password and secret flags are registered with default "" before their
   * `== ""` fallback runs, so at this point both always take the environment.
   */
  function Init(env: map<string, string>): (c: Config)
    ensures forall s :: Value(c, s) == Lookup(env, EnvName(s))
    ensures c.runVolumeCleanup <==> Lookup(env, "VOLUME_CLEANUP") in TrueSpellings
  {
    ParseBoolUnambiguous(Lookup(env, "VOLUME_CLEANUP"));
    Config(
      concourseURL := Lookup(env, "CONCOURSE_URL"),
      concourseUser := Lookup(env, "CONCOURSE_USER"),
      concoursePassword := Lookup(env, "CONCOURSE_PASSWORD"),
      workerPrefix := Lookup(env, "WORKER_PREFIX"),
      runVolumeCleanup := match ParseBool(Lookup(env, "VOLUME_CLEANUP")) case Some(b) => b case None => false,
      volumePrefix := Lookup(env, "VOLUME_PREFIX"),
      osAuthURL := Lookup(env, "OS_AUTH_URL"),
      osCredentialID := Lookup(env, "OS_APPLICATION_CREDENTIAL_ID"),
      osCredentialSecret := Lookup(env, "OS_APPLICATION_CREDENTIAL_SECRET"))
  }

  /** A string flag overwrites its setting when it was given, even with "". */
  function StringFlag(flags: Flags, name: string, current: string): string {
    if name in flags.strings then flags.strings[name] else current
  }

  /** `flag.Parse`, which `main` runs after `init`: every given flag overwrites its setting. */
  function ParseFlags(c: Config, flags: Flags): (r: Config)
    ensures forall s :: Value(r, s) == if FlagName(s) in flags.strings then flags.strings[FlagName(s)] else Value(c, s)
    ensures r.runVolumeCleanup == if flags.volumeCleanup.Some? then flags.volumeCleanup.value else c.runVolumeCleanup
  {
    Config(
      concourseURL := StringFlag(flags, "concourse-url", c.concourseURL),
      concourseUser := StringFlag(flags, "concourse-user", c.concourseUser),
      concoursePassword := StringFlag(flags, "concourse-password", c.concoursePassword),
      workerPrefix := StringFlag(flags, "worker-prefix", c.workerPrefix),
      runVolumeCleanup := match flags.volumeCleanup case Some(b) => b case None => c.runVolumeCleanup,
      volumePrefix := StringFlag(flags, "volume-prefix", c.volumePrefix),
      osAuthURL := StringFlag(flags, "os-auth-url", c.osAuthURL),
      osCredentialID := StringFlag(flags, "os-application-credential-id", c.osCredentialID),
      osCredentialSecret := StringFlag(flags, "os-application-credential-secret", c.osCredentialSecret))
  }

  /** The settings `main` works with. */
  function Resolve(env: map<string, string>, flags: Flags): (c: Config)
    ensures forall s :: Value(c, s) == if FlagName(s) in flags.strings then flags.strings[FlagName(s)] else Lookup(env, EnvName(s))
    ensures c.runVolumeCleanup
            == if flags.volumeCleanup.Some? then flags.volumeCleanup.value else Lookup(env, "VOLUME_CLEANUP") in TrueSpellings
  {
    ParseFlags(Init(env), flags)
  }

  /** The string settings, with the flag and the environment variable that feed each. */
  datatype Setting =
    | ConcourseURL | ConcourseUser | ConcoursePassword | WorkerPrefix | VolumePrefix
    | OSAuthURL | OSCredentialID | OSCredentialSecret

  function FlagName(s: Setting): string {
    match s
    case ConcourseURL => "concourse-url"
    case ConcourseUser => "concourse-user"
    case ConcoursePassword => "concourse-password"
    case WorkerPrefix => "worker-prefix"
    case VolumePrefix => "volume-prefix"
    case OSAuthURL => "os-auth-url"
    case OSCredentialID => "os-application-credential-id"
    case OSCredentialSecret => "os-application-credential-secret"
  }

  function EnvName(s: Setting): string {
    match s
    case ConcourseURL => "CONCOURSE_URL"
    case ConcourseUser => "CONCOURSE_USER"
    case ConcoursePassword => "CONCOURSE_PASSWORD"
    case WorkerPrefix => "WORKER_PREFIX"
    case VolumePrefix => "VOLUME_PREFIX"
    case OSAuthURL => "OS_AUTH_URL"
    case OSCredentialID => "OS_APPLICATION_CREDENTIAL_ID"
    case OSCredentialSecret => "OS_APPLICATION_CREDENTIAL_SECRET"
  }

  function Value(c: Config, s: Setting): string {
    match s
    case ConcourseURL => c.concourseURL
    case ConcourseUser => c.concourseUser
    case ConcoursePassword => c.concoursePassword
    case WorkerPrefix => c.workerPrefix
    case VolumePrefix => c.volumePrefix
    case OSAuthURL => c.osAuthURL
    case OSCredentialID => c.osCredentialID
    case OSCredentialSecret => c.osCredentialSecret
  }

  /** Precedence for every string setting: the flag if given, otherwise the environment, otherwise "". */
  lemma FlagOverridesEnvironment(env: map<string, string>, flags: Flags, s: Setting)
    ensures Value(Resolve(env, flags), s)
            == if FlagName(s) in flags.strings then flags.strings[FlagName(s)] else Lookup(env, EnvName(s))
  {
  }

  /**
   * Volume cleanup: the flag if given; otherwise on exactly when VOLUME_CLEANUP
   * is one of ParseBool's true spellings, so an unparseable value is off.
   */
  lemma VolumeCleanupResolution(env: map<string, string>, flags: Flags)
    ensures flags.volumeCleanup.Some? ==> Resolve(env, flags).runVolumeCleanup == flags.volumeCleanup.value
    ensures flags.volumeCleanup.None? ==>
              (Resolve(env, flags).runVolumeCleanup <==> Lookup(env, "VOLUME_CLEANUP") in TrueSpellings)
    ensures flags.volumeCleanup.None? && ParseBool(Lookup(env, "VOLUME_CLEANUP")).None? ==>
              !Resolve(env, flags).runVolumeCleanup
  {
  }

  /** The Concourse URL, user and password must all be non-empty. */
  predicate HasConcourseCredentials(c: Config)
    ensures HasConcourseCredentials(c) <==> forall s :: s in {ConcourseURL, ConcourseUser, ConcoursePassword} ==> Value(c, s) != ""
  {
    assert Value(c, ConcourseURL) == c.concourseURL && Value(c, ConcourseUser) == c.concourseUser
           && Value(c, ConcoursePassword) == c.concoursePassword;
    !(c.concourseURL == "" || c.concourseUser == "" || c.concoursePassword == "")
  }

  /** The OpenStack auth URL, application credential id and secret must all be non-empty. */
  predicate HasOpenstackCredentials(c: Config)
    ensures HasOpenstackCredentials(c) <==> forall s :: s in {OSAuthURL, OSCredentialID, OSCredentialSecret} ==> Value(c, s) != ""
  {
    assert Value(c, OSAuthURL) == c.osAuthURL && Value(c, OSCredentialID) == c.osCredentialID
           && Value(c, OSCredentialSecret) == c.osCredentialSecret;
    !(c.osAuthURL == "" || c.osCredentialID == "" || c.osCredentialSecret == "")
  }
}
