/**
 * The few Go standard-library behaviours the reconciler's decisions depend on:
 * `strings.HasPrefix`, indexing a `map[string]string` (and `os.Getenv`),
 * `strconv.ParseBool` and the saturating `time.Time.Sub` behind `time.Since`.
 */
module GoLib {
  import opened Wrappers

  /** `strings.HasPrefix(s, prefix)`: the first |prefix| characters of `s` are `prefix`. */
  predicate HasPrefix(s: string, prefix: string) {
    |prefix| <= |s| && s[..|prefix|] == prefix
  }

  /** HasPrefix agrees with Dafny's own prefix relation on sequences; the empty prefix matches every name. */
  lemma HasPrefixIsSeqPrefix(s: string, prefix: string)
    ensures HasPrefix(s, prefix) <==> prefix <= s
    ensures HasPrefix(s, "")
  {
  }

  /**
   * Indexing a Go `map[string]string`: a missing key reads as the zero value "".
   * `os.Getenv` behaves the same on the process environment.
   */
  function Lookup(m: map<string, string>, key: string): (v: string)
    ensures key !in m ==> v == ""
    ensures key in m ==> v == m[key]
  {
    if key in m then m[key] else ""
  }

  /** The spellings `strconv.ParseBool` accepts for true and for false. */
  const TrueSpellings: set<string> := {"1", "t", "T", "TRUE", "true", "True"}
  const FalseSpellings: set<string> := {"0", "f", "F", "FALSE", "false", "False"}

  /** `strconv.ParseBool`; `None` stands for its syntax error. */
  function ParseBool(s: string): Option<bool> {
    if s in TrueSpellings then Some(true)
    else if s in FalseSpellings then Some(false)
    else None
  }

  /** ParseBool never accepts a string as both true and false, and rejects the empty string. */
  lemma ParseBoolUnambiguous(s: string)
    ensures ParseBool(s) == Some(true) <==> s in TrueSpellings
    ensures ParseBool(s) == Some(false) <==> s in FalseSpellings
    ensures ParseBool("").None?
  {
  }

  /** The range of a Go `time.Duration` (an int64 count of nanoseconds). */
  const MinDuration: int := -0x8000_0000_0000_0000
  const MaxDuration: int := 0x7fff_ffff_ffff_ffff

  /** `time.Hour` in nanoseconds. */
  const Hour: int := 3_600_000_000_000

  /**
   * `t.Sub(u)` for instants in nanoseconds: the difference, saturated to the
   * Duration range. `time.Since(u)` is `Sub(now, u)`.
   */
  function Sub(t: int, u: int): (d: int)
    ensures MinDuration <= d <= MaxDuration
    ensures MinDuration <= t - u <= MaxDuration ==> d == t - u
  {
    if t - u > MaxDuration then MaxDuration
    else if t - u < MinDuration then MinDuration
    else t - u
  }

  /** Saturation never changes whether an age exceeds a bound that is itself a Duration. */
  lemma SubExceedsExactly(t: int, u: int, bound: int)
    requires MinDuration <= bound < MaxDuration
    ensures Sub(t, u) > bound <==> t - u > bound
  {
  }
}
