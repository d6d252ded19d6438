/**
 * The Go modules latest-version finder: the candidate versions listed by the
 * module proxy are narrowed by the prerelease, vulnerability, ignore and
 * "higher than current" filters, and the latest or lowest fixing version is
 * picked. The list of available versions (the `go list -m -versions` output)
 * is an input; the version class is an abstract strict total order.
 */
module GoLatestVersionFinder {

  import opened Wrappers
  import opened Errors
  import opened Text
  import opened Versions

  /** What the finder reads of the dependency: its version text and the version it parses to, if any. */
  datatype Dependency<V> = Dependency(version: Option<string>, numericVersion: Option<V>)

  /** The scheme of versions: their order and which of them are prereleases. */
  datatype Scheme<!V> = Scheme(less: (V, V) -> bool, prerelease: V -> bool)

  ghost predicate ValidScheme<V(!new)>(scheme: Scheme<V>)
  {
    StrictTotalOrder(scheme.less)
  }

  /** `wants_prerelease?`: the current version is a prerelease. */
  predicate WantsPrerelease<V>(dep: Dependency<V>, scheme: Scheme<V>)
  {
    dep.numericVersion.Some? && scheme.prerelease(dep.numericVersion.value)
  }

  /** `filter_prerelease_versions`. */
  function FilterPrereleaseVersions<V(==,!new)>(vs: seq<V>, dep: Dependency<V>, scheme: Scheme<V>): (r: seq<V>)
    ensures WantsPrerelease(dep, scheme) ==> r == vs
    ensures !WantsPrerelease(dep, scheme) ==> forall v :: v in r <==> v in vs && !scheme.prerelease(v)
    ensures IsSubsequence(r, vs)
  {
    if WantsPrerelease(dep, scheme) then
      IsSubsequenceOfSelf(vs);
      vs
    else Filter(vs, v => !scheme.prerelease(v))
  }

  /** A version strictly above the current numeric version, or any version when there is none. */
  predicate AboveCurrent<V>(v: V, dep: Dependency<V>, scheme: Scheme<V>)
  {
    dep.numericVersion.None? || scheme.less(dep.numericVersion.value, v)
  }

  /** `filter_lower_versions`. */
  function FilterLowerVersions<V(==,!new)>(vs: seq<V>, dep: Dependency<V>, scheme: Scheme<V>): (r: seq<V>)
    ensures dep.numericVersion.None? ==> r == vs
    ensures forall v :: v in r <==> v in vs && AboveCurrent(v, dep, scheme)
    ensures IsSubsequence(r, vs)
  {
    if dep.numericVersion.None? then
      IsSubsequenceOfSelf(vs);
      vs
    else Filter(vs, v => scheme.less(dep.numericVersion.value, v))
  }

  /** The version satisfies one of the requirements the ignore conditions expand to. */
  predicate Ignored<V, R(==)>(v: V, ignoreReqs: seq<R>, satisfied: (R, V) -> bool)
  {
    exists req :: req in ignoreReqs && satisfied(req, v)
  }

  /**
   * `filter_ignored_versions`: drops every ignored version, and raises
   * `AllVersionsIgnored` when asked to and every higher version was ignored.
   */
  function FilterIgnoredVersions<V(==,!new), R(==)>(
    vs: seq<V>, dep: Dependency<V>, scheme: Scheme<V>,
    ignoreReqs: seq<R>, satisfied: (R, V) -> bool, raiseOnIgnored: bool): (r: Result<seq<V>, DependabotError>)
    ensures r.Raise? <==>
      && raiseOnIgnored
      && (exists v :: v in vs && AboveCurrent(v, dep, scheme))
      && (forall v :: v in vs && AboveCurrent(v, dep, scheme) ==> Ignored(v, ignoreReqs, satisfied))
    ensures r.Raise? ==> r.error == AllVersionsIgnored
    ensures r.Ok? ==> forall v :: v in r.value <==> v in vs && !Ignored(v, ignoreReqs, satisfied)
    ensures r.Ok? ==> IsSubsequence(r.value, vs)
  {
    var filtered := Filter(vs, v => !Ignored(v, ignoreReqs, satisfied));
    var higherKept := FilterLowerVersions(filtered, dep, scheme);
    var higher := FilterLowerVersions(vs, dep, scheme);
    if raiseOnIgnored && higherKept == [] && higher != [] then
      assert higher[0] in higher;
      assert forall v :: v in vs && AboveCurrent(v, dep, scheme) && !Ignored(v, ignoreReqs, satisfied) ==>
        v in higherKept;
      Raise(AllVersionsIgnored)
    else
      assert forall v :: v in vs && AboveCurrent(v, dep, scheme) ==> v in higher;
      assert higherKept != [] ==> higherKept[0] in filtered && AboveCurrent(higherKept[0], dep, scheme);
      Ok(filtered)
  }

  /** `PSEUDO_VERSION_REGEX` matches with the 14 digits starting at `i`. */
  predicate PseudoVersionAt(s: string, i: nat)
  {
    && i + 27 <= |s|
    && (i == 0 || !IsWordChar(s[i - 1]))
    && (forall k :: i <= k < i + 14 ==> IsDigit(s[k]))
    && s[i + 14] == '-'
    && (forall k :: i + 15 <= k < i + 27 ==> IsLowerHex(s[k]))
    && AtLineEnd(s, i + 27)
  }

  /** `PSEUDO_VERSION_REGEX.match?`: `\b\d{14}-[0-9a-f]{12}$`, anywhere in the text. */
  predicate IsPseudoVersion(s: string)
  {
    exists i :: 0 <= i <= |s| && PseudoVersionAt(s, i)
  }

  /**
   * `fetch_latest_version`. The current version text, when it is a
   * pseudo-version, takes part in `max` as the version it denotes.
   */
  method FetchLatestVersion<V(==,!new), R(==)>(
    available: seq<V>, dep: Dependency<V>, scheme: Scheme<V>, parse: string -> V,
    ignoreReqs: seq<R>, satisfied: (R, V) -> bool, raiseOnIgnored: bool)
    returns (r: Result<Option<V>, DependabotError>)
    requires ValidScheme(scheme)
    ensures r.Raise? <==>
      FilterIgnoredVersions(FilterPrereleaseVersions(available, dep, scheme), dep, scheme, ignoreReqs, satisfied, raiseOnIgnored).Raise?
    ensures r.Ok? && r.value.Some? ==>
      var m := r.value.value;
      && ((m in available && (WantsPrerelease(dep, scheme) || !scheme.prerelease(m)) && !Ignored(m, ignoreReqs, satisfied))
          || (dep.version.Some? && IsPseudoVersion(dep.version.value) && m == parse(dep.version.value)))
      && (forall v ::
            v in available && (WantsPrerelease(dep, scheme) || !scheme.prerelease(v)) && !Ignored(v, ignoreReqs, satisfied)
            ==> !scheme.less(m, v))
    ensures r.Ok? && dep.version.Some? && IsPseudoVersion(dep.version.value) ==>
      r.value.Some? && !scheme.less(r.value.value, parse(dep.version.value))
    ensures r.Ok? && r.value.None? ==>
      forall v :: v in available ==> (!WantsPrerelease(dep, scheme) && scheme.prerelease(v)) || Ignored(v, ignoreReqs, satisfied)
  {
    var candidates := available;
    candidates := FilterPrereleaseVersions(candidates, dep, scheme);
    var ignoredResult := FilterIgnoredVersions(candidates, dep, scheme, ignoreReqs, satisfied, raiseOnIgnored);
    if ignoredResult.Raise? {
      return Raise(ignoredResult.error);
    }
    candidates := ignoredResult.value;
    if dep.version.Some? && IsPseudoVersion(dep.version.value) {
      candidates := candidates + [parse(dep.version.value)];
    }
    r := Ok(Max(candidates, scheme.less));
  }

  /** `fetch_lowest_security_fix_version`. */
  method FetchLowestSecurityFixVersion<V(==,!new), R(==)>(
    available: seq<V>, dep: Dependency<V>, scheme: Scheme<V>, vulnerable: V -> bool,
    ignoreReqs: seq<R>, satisfied: (R, V) -> bool, raiseOnIgnored: bool)
    returns (r: Result<Option<V>, DependabotError>)
    requires ValidScheme(scheme)
    ensures r.Raise? <==>
      && raiseOnIgnored
      && (exists v :: SecurityCandidate(v, available, dep, scheme, vulnerable) && AboveCurrent(v, dep, scheme))
      && (forall v :: SecurityCandidate(v, available, dep, scheme, vulnerable) && AboveCurrent(v, dep, scheme) ==>
            Ignored(v, ignoreReqs, satisfied))
    ensures r.Ok? ==> (r.value.None? <==> forall v :: !SecurityFix(v, available, dep, scheme, vulnerable, ignoreReqs, satisfied))
    ensures r.Ok? && r.value.Some? ==>
      && SecurityFix(r.value.value, available, dep, scheme, vulnerable, ignoreReqs, satisfied)
      && forall v :: SecurityFix(v, available, dep, scheme, vulnerable, ignoreReqs, satisfied) ==> !scheme.less(v, r.value.value)
  {
    var relevant := available;
    relevant := FilterPrereleaseVersions(relevant, dep, scheme);
    relevant := Filter(relevant, v => !vulnerable(v));
    assert forall v :: v in relevant <==> SecurityCandidate(v, available, dep, scheme, vulnerable);
    var ignoredResult := FilterIgnoredVersions(relevant, dep, scheme, ignoreReqs, satisfied, raiseOnIgnored);
    if ignoredResult.Raise? {
      return Raise(ignoredResult.error);
    }
    relevant := ignoredResult.value;
    relevant := FilterLowerVersions(relevant, dep, scheme);
    assert forall v :: v in relevant <==> SecurityFix(v, available, dep, scheme, vulnerable, ignoreReqs, satisfied);
    assert relevant != [] ==> relevant[0] in relevant;
    r := Ok(Min(relevant, scheme.less));
  }

  /** An available version that survives the prerelease and vulnerability filters. */
  predicate SecurityCandidate<V(==)>(v: V, available: seq<V>, dep: Dependency<V>, scheme: Scheme<V>, vulnerable: V -> bool)
  {
    v in available && (WantsPrerelease(dep, scheme) || !scheme.prerelease(v)) && !vulnerable(v)
  }

  /** A version the security update may move to. */
  predicate SecurityFix<V(==), R(==)>(
    v: V, available: seq<V>, dep: Dependency<V>, scheme: Scheme<V>, vulnerable: V -> bool,
    ignoreReqs: seq<R>, satisfied: (R, V) -> bool)
  {
    SecurityCandidate(v, available, dep, scheme, vulnerable) && !Ignored(v, ignoreReqs, satisfied)
      && AboveCurrent(v, dep, scheme)
  }

  /** `transitory_failure?`: the error message mentions `EOF` or `Internal Server Error`. */
  predicate TransitoryFailure(message: string)
  {
    Contains(message, "EOF") || Contains(message, "Internal Server Error")
  }

  /** A message is transitory whatever text surrounds the `EOF` or `Internal Server Error` in it. */
  lemma TransitoryWherever(before: string, marker: string, after: string)
    requires marker == "EOF" || marker == "Internal Server Error"
    ensures TransitoryFailure(before + marker + after)
  {
    ContainsSelf(marker);
    ContainsInRight(before, marker, marker);
    ContainsInLeft(before + marker, after, marker);
  }
}
