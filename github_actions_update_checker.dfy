/**
 * The GitHub Actions update checker: which tag or commit an action pinned by
 * a git ref moves to, and how the requirement's `ref` is rewritten.
 *
 * The git commit checker (tag listing, branch lookup, cloning) is not part of
 * this model: what it answers is an input record. The version class is an
 * abstract strict total order, and its `to_s` is a parameter.
 */
module GithubActionsUpdateChecker {

  import opened Wrappers
  import opened Errors
  import opened Text
  import opened Versions

  /** A tag hash of the commit checker: `{tag:, version:, commit_sha:}`. */
  datatype Tag<V> = Tag(tag: string, version: V, commitSha: string)

  /** The source hash of a requirement; only `:ref` is ever replaced. */
  datatype Source = Source(sourceType: string, url: string, ref: Option<string>, branch: Option<string>)

  /** A requirement hash; `reqType` is its `:type` key. */
  datatype Requirement = Requirement(requirement: Option<string>, file: string, groups: seq<string>, reqType: Option<string>, source: Source)

  /** What the git commit checker for the dependency answers. */
  datatype GitFacts<V> = GitFacts(
    gitDependency: bool,
    pinned: bool,
    pinnedRefLooksLikeVersion: bool,
    pinnedRefLooksLikeCommitSha: bool,
    localTagForPinnedSha: Option<string>,
    headCommitForCurrentBranch: Option<string>,
    localTagForLatestVersion: Option<Tag<V>>,
    latestMatchingPrecision: Option<Tag<V>>,
    latestLowerPrecision: Option<Tag<V>>,
    tagsMatchingPrecision: seq<Tag<V>>,
    allowedTags: seq<Tag<V>>,
    latestCommitForPinnedRef: Option<string>)

  /**
   * The rest of the checker's context: the dependency's version text and
   * parsed version, `vulnerable?`, the advisories' verdict on a version, the
   * version order and `to_s`, and the commit checker's answers for another
   * requirement source (`git_commit_checker_for(source)`).
   */
  datatype Env<!V> = Env(
    git: GitFacts<V>,
    dependencyVersion: Option<string>,
    currentVersion: Option<V>,
    vulnerable: bool,
    vulnerableVersion: V -> bool,
    less: (V, V) -> bool,
    show: V -> string,
    sourceLooksLikeVersion: Source -> bool,
    sourceLooksLikeCommitSha: Source -> bool,
    refLooksLikeCommitSha: string -> bool)

  ghost predicate ValidEnv<V(!new)>(env: Env<V>)
  {
    StrictTotalOrder(env.less)
  }

  /** `a` is a prefix of `b`. */
  predicate IsPrefix<T(==)>(a: seq<T>, b: seq<T>)
  {
    |a| <= |b| && b[..|a|] == a
  }

  /**
   * `shortened_semver_eq?` as written: Ruby's `other_split[0..base_split.length - 1]`
   * is the whole of `other_split` when `base_split` is empty.
   */
  function ShortenedSemverEqAsWritten(base: Option<string>, other: string): (r: bool)
    ensures base.None? ==> !r
    ensures base.Some? && Split(base.value, '.') != [] ==> (r <==> IsPrefix(Split(base.value, '.'), Split(other, '.')))
  {
    if base.None? then false
    else
      var baseSplit := Split(base.value, '.');
      var otherSplit := Split(other, '.');
      if !(|baseSplit| <= |otherSplit|) then false
      else if baseSplit == [] then otherSplit == []
      else otherSplit[..|baseSplit|] == baseSplit
  }

  /** A base such as `""` has no dot-parts, and the slice then compares against all of the other's parts. */
  lemma ShortenedSemverEqAsWrittenEmptyBase()
    ensures !ShortenedSemverEqAsWritten(Some(""), "1")
    ensures IsPrefix(Split("", '.'), Split("1", '.'))
  {
    assert Fields("", [['.']]) == [[]];
    assert Split("", '.') == [];
    assert FirstTokenAt("1", [['.']]).None? by {
      assert "1"[..1] == ['1'] != ['.'];
    }
    assert Fields("1"[1..], [['.']]) == [[]];
    var fields := Fields("1", [['.']]);
    assert fields == [['1'] + []] + [];
    assert ['1'] + [] == "1";
    assert [['1'] + []] + [] == ["1"];
    assert fields[|fields| - 1] != [];
    assert DropTrailingEmpty(fields) == fields;
    assert Split("1", '.') == ["1"];
  }

  /** `shortened_semver_eq?` as its callers use it: the base's dot-parts lead the other's. */
  function ShortenedSemverEq(base: Option<string>, other: string): (r: bool)
    ensures r <==> base.Some? && IsPrefix(Split(base.value, '.'), Split(other, '.'))
    ensures base.Some? && Split(base.value, '.') != [] ==> r == ShortenedSemverEqAsWritten(base, other)
  {
    if base.None? then false
    else
      var baseSplit := Split(base.value, '.');
      var otherSplit := Split(other, '.');
      |baseSplit| <= |otherSplit| && otherSplit[..|baseSplit|] == baseSplit
  }

  /** Every version string is a shortened form of itself, and shortening is transitive. */
  lemma ShortenedSemverEqReflexiveTransitive(a: string, b: string, c: string)
    ensures ShortenedSemverEq(Some(a), a)
    ensures ShortenedSemverEq(Some(a), b) && ShortenedSemverEq(Some(b), c) ==> ShortenedSemverEq(Some(a), c)
  {
    var sa, sb, sc := Split(a, '.'), Split(b, '.'), Split(c, '.');
    assert sa[..|sa|] == sa;
    if IsPrefix(sa, sb) && IsPrefix(sb, sc) {
      assert sc[..|sa|] == sc[..|sb|][..|sa|];
    }
  }

  /** `filter_lower_tags`. */
  function FilterLowerTags<V(==,!new)>(tags: seq<Tag<V>>, env: Env<V>): (r: seq<Tag<V>>)
    ensures env.currentVersion.None? ==> r == tags
    ensures forall t :: t in r <==> t in tags && AboveCurrent(t.version, env)
    ensures IsSubsequence(r, tags)
  {
    if env.currentVersion.None? then
      IsSubsequenceOfSelf(tags);
      tags
    else Filter(tags, (t: Tag<V>) => env.less(env.currentVersion.value, t.version))
  }

  /** Strictly above the current version, or any version when there is none. */
  predicate AboveCurrent<V>(v: V, env: Env<V>)
  {
    env.currentVersion.None? || env.less(env.currentVersion.value, v)
  }

  /** A tag that fixes the advisories and moves the dependency forward. */
  predicate SecureTag<V>(t: Tag<V>, env: Env<V>)
  {
    !env.vulnerableVersion(t.version) && AboveCurrent(t.version, env)
  }

  /** `find_lowest_secure_version`: vulnerable and lower tags dropped, then `min_by` version. */
  function FindLowestSecureVersion<V(==,!new)>(tags: seq<Tag<V>>, env: Env<V>): (r: Option<Tag<V>>)
    requires ValidEnv(env)
    ensures r.None? <==> forall t :: t in tags ==> !SecureTag(t, env)
    ensures r.Some? ==> r.value in tags && SecureTag(r.value, env)
    ensures r.Some? ==> forall t :: t in tags && SecureTag(t, env) ==> !env.less(t.version, r.value.version)
  {
    var relevant := Filter(tags, (t: Tag<V>) => !env.vulnerableVersion(t.version));
    var higher := FilterLowerTags(relevant, env);
    assert forall t :: t in higher <==> t in tags && SecureTag(t, env);
    if higher == [] then None
    else
      var i := MinByIndex(higher, (t: Tag<V>) => t.version, env.less);
      assert forall t :: t in higher ==> exists j :: 0 <= j < |higher| && higher[j] == t;
      Some(higher[i])
  }

  /** `lowest_security_fix_version_tag`: the precision-matching tags first, all allowed tags as the fallback. */
  function LowestSecurityFixVersionTag<V(==,!new)>(env: Env<V>): (r: Option<Tag<V>>)
    requires ValidEnv(env)
    ensures (exists t :: t in env.git.tagsMatchingPrecision && SecureTag(t, env)) ==>
      r.Some? && r.value in env.git.tagsMatchingPrecision
    ensures r.Some? ==> SecureTag(r.value, env) && (r.value in env.git.tagsMatchingPrecision || r.value in env.git.allowedTags)
    ensures r.None? <==> forall t :: t in env.git.tagsMatchingPrecision + env.git.allowedTags ==> !SecureTag(t, env)
  {
    var matching := FindLowestSecureVersion(env.git.tagsMatchingPrecision, env);
    if matching.Some? then matching
    else FindLowestSecureVersion(env.git.allowedTags, env)
  }

  /** `fetch_lowest_security_fix_version`: `.fetch(:version)` on a missing tag raises. */
  function FetchLowestSecurityFixVersion<V(==,!new)>(env: Env<V>): (r: Result<Option<V>, DependabotError>)
    requires ValidEnv(env)
    ensures !env.git.gitDependency ==> r == Ok(None)
    ensures env.git.gitDependency && r.Ok? ==>
      && r.value.Some? && LowestSecurityFixVersionTag(env).Some?
      && SecureTag(LowestSecurityFixVersionTag(env).value, env) && r.value.value == LowestSecurityFixVersionTag(env).value.version
    ensures r.Raise? <==>
      && env.git.gitDependency
      && forall t :: t in env.git.tagsMatchingPrecision + env.git.allowedTags ==> !SecureTag(t, env)
  {
    if !env.git.gitDependency then Ok(None)
    else
      match LowestSecurityFixVersionTag(env)
      case None => Raise(NoMethodError)
      case Some(t) => Ok(Some(t.version))
  }

  /** `ref.fetch(:version) > current_version` when there is no current version. */
  const NilComparison: DependabotError := ArgumentError("comparison of version with nil failed")

  /**
   * `latest_version_tag`: the latest tag when the dependency has no version,
   * else the precision-matching ref when it is above the current version,
   * else the lower-precision ref. Comparing a precision-matching ref with a
   * missing current version raises.
   */
  function LatestVersionTag<V>(env: Env<V>): (r: Result<Option<Tag<V>>, DependabotError>)
    ensures env.dependencyVersion.None? ==> r == Ok(env.git.localTagForLatestVersion)
    ensures r.Raise? <==>
      env.dependencyVersion.Some? && env.git.latestMatchingPrecision.Some? && env.currentVersion.None?
    ensures r.Raise? ==> r.error == NilComparison
    ensures env.dependencyVersion.Some? && r.Ok? ==>
      r.value == env.git.latestMatchingPrecision || r.value == env.git.latestLowerPrecision
    ensures env.dependencyVersion.Some? && r.Ok? && r.value != env.git.latestLowerPrecision ==>
      r.value.Some? && env.currentVersion.Some? && env.less(env.currentVersion.value, r.value.value.version)
    ensures (env.dependencyVersion.Some? && env.currentVersion.Some? &&
             (env.git.latestMatchingPrecision.None? || !env.less(env.currentVersion.value, env.git.latestMatchingPrecision.value.version))) ==>
      r == Ok(env.git.latestLowerPrecision)
  {
    if env.dependencyVersion.None? then Ok(env.git.localTagForLatestVersion)
    else
      var ref := env.git.latestMatchingPrecision;
      if ref.Some? && env.currentVersion.None? then Raise(NilComparison)
      else if ref.Some? && env.less(env.currentVersion.value, ref.value.version) then Ok(ref)
      else Ok(env.git.latestLowerPrecision)
  }

  /** When the dependency has a version, a precision-matching ref above it is always preferred. */
  lemma LatestVersionTagPrefersPrecision<V>(env: Env<V>)
    requires env.dependencyVersion.Some? && env.currentVersion.Some?
    requires env.git.latestMatchingPrecision.Some?
    requires env.less(env.currentVersion.value, env.git.latestMatchingPrecision.value.version)
    ensures LatestVersionTag(env) == Ok(env.git.latestMatchingPrecision)
  {
  }

  /** `latest_commit_sha`: the latest tag's commit when the pinned SHA is tagged, else the head of its branch. */
  function LatestCommitSha<V>(env: Env<V>): (r: Result<Option<string>, DependabotError>)
    ensures LatestVersionTag(env).Raise? ==> r == Raise(LatestVersionTag(env).error)
    ensures LatestVersionTag(env) == Ok(None) ==> r == Ok(None)
    ensures LatestVersionTag(env).Ok? && LatestVersionTag(env).value.Some? && env.git.localTagForPinnedSha.Some? ==>
      r == Ok(Some(LatestVersionTag(env).value.value.commitSha))
    ensures LatestVersionTag(env).Ok? && LatestVersionTag(env).value.Some? && env.git.localTagForPinnedSha.None? ==>
      r == Ok(env.git.latestCommitForPinnedRef)
  {
    match LatestVersionTag(env)
    case Raise(e) => Raise(e)
    case Ok(None) => Ok(None)
    case Ok(Some(newTag)) =>
      if env.git.localTagForPinnedSha.Some? then Ok(Some(newTag.commitSha)) else Ok(env.git.latestCommitForPinnedRef)
  }

  /**
   * `updated_ref`: a security fix tag when vulnerable, then a version tag for
   * a version-like pin, then a commit SHA for a SHA pin, else nil.
   */
  function UpdatedRef<V(==,!new)>(source: Source, env: Env<V>): (r: Result<Option<string>, DependabotError>)
    requires ValidEnv(env)
    ensures !env.git.gitDependency ==> r == Ok(None)
    ensures env.git.gitDependency && env.vulnerable && LowestSecurityFixVersionTag(env).Some? ==>
      r == Ok(Some(LowestSecurityFixVersionTag(env).value.tag))
    ensures r.Raise? <==>
      && env.git.gitDependency
      && !(env.vulnerable && LowestSecurityFixVersionTag(env).Some?)
      && (env.sourceLooksLikeVersion(source) || env.sourceLooksLikeCommitSha(source))
      && LatestVersionTag(env).Raise?
    ensures r.Raise? ==> r.error == NilComparison
    ensures r.Ok? && r.value.Some? ==>
      || (env.vulnerable && LowestSecurityFixVersionTag(env).Some? && r.value.value == LowestSecurityFixVersionTag(env).value.tag)
      || (env.sourceLooksLikeVersion(source) && LatestVersionTag(env).Ok? && LatestVersionTag(env).value.Some?
          && r.value.value == LatestVersionTag(env).value.value.tag)
      || (env.sourceLooksLikeCommitSha(source) && LatestCommitSha(env) == r)
    ensures (&& env.git.gitDependency && !(env.vulnerable && LowestSecurityFixVersionTag(env).Some?)
             && env.sourceLooksLikeVersion(source) && LatestVersionTag(env).Ok? && LatestVersionTag(env).value.Some?) ==>
      r == Ok(Some(LatestVersionTag(env).value.value.tag))
    ensures env.git.gitDependency && !env.sourceLooksLikeVersion(source) && !env.sourceLooksLikeCommitSha(source) ==>
      (r.Ok? && (r.value.Some? <==> env.vulnerable && LowestSecurityFixVersionTag(env).Some?))
  {
    if !env.git.gitDependency then Ok(None)
    else if env.vulnerable && LowestSecurityFixVersionTag(env).Some? then
      Ok(Some(LowestSecurityFixVersionTag(env).value.tag))
    else if env.sourceLooksLikeVersion(source) && LatestVersionTag(env).Raise? then
      Raise(LatestVersionTag(env).error)
    else if env.sourceLooksLikeVersion(source) && LatestVersionTag(env).value.Some? then
      Ok(Some(LatestVersionTag(env).value.value.tag))
    else if env.sourceLooksLikeCommitSha(source) && LatestCommitSha(env).Raise? then
      Raise(LatestCommitSha(env).error)
    else if env.sourceLooksLikeCommitSha(source) && LatestCommitSha(env).value.Some? then
      LatestCommitSha(env)
    else Ok(None)
  }

  /** A short SHA that the updated SHA extends is kept as it is. */
  predicate KeepsShortSha<V>(req: Requirement, updated: string, env: Env<V>)
  {
    && req.reqType == Some("git")
    && env.refLooksLikeCommitSha(updated)
    && req.source.ref.Some?
    && env.refLooksLikeCommitSha(req.source.ref.value)
    && StartsWith(updated, req.source.ref.value)
  }

  /** One requirement of `updated_requirements`. */
  function UpdatedRequirement<V(==,!new)>(req: Requirement, env: Env<V>): (r: Result<Requirement, DependabotError>)
    requires ValidEnv(env)
    ensures r.Raise? <==> UpdatedRef(req.source, env).Raise?
    ensures r.Raise? ==> r.error == UpdatedRef(req.source, env).error
    ensures UpdatedRef(req.source, env) == Ok(None) ==> r == Ok(req)
    ensures var u := UpdatedRef(req.source, env);
      u.Ok? && u.value.Some? && KeepsShortSha(req, u.value.value, env) ==> r == Ok(req)
    ensures var u := UpdatedRef(req.source, env);
      u.Ok? && u.value.Some? && !KeepsShortSha(req, u.value.value, env) ==>
      r == Ok(req.(source := req.source.(ref := u.value)))
    ensures r.Ok? ==> r.value == req.(source := req.source.(ref := r.value.source.ref))
  {
    match UpdatedRef(req.source, env)
    case Raise(e) => Raise(e)
    case Ok(None) => Ok(req)
    case Ok(Some(updated)) =>
      if KeepsShortSha(req, updated, env) then Ok(req)
      else Ok(req.(source := req.source.(ref := Some(updated))))
  }

  /** `updated_requirements`: the requirements in order, each updated; the first raise escapes `map`. */
  function UpdatedRequirements<V(==,!new)>(reqs: seq<Requirement>, env: Env<V>): (r: Result<seq<Requirement>, DependabotError>)
    requires ValidEnv(env)
    ensures r.Ok? <==> forall i :: 0 <= i < |reqs| ==> UpdatedRequirement(reqs[i], env).Ok?
    ensures r.Ok? ==> |r.value| == |reqs|
    ensures r.Ok? ==> forall i :: 0 <= i < |reqs| ==> r.value[i] == UpdatedRequirement(reqs[i], env).value
    ensures r.Raise? ==>
      exists i :: 0 <= i < |reqs| && UpdatedRequirement(reqs[i], env) == Raise(r.error) &&
        (forall j :: 0 <= j < i ==> UpdatedRequirement(reqs[j], env).Ok?)
  {
    if reqs == [] then Ok([])
    else
      match UpdatedRequirement(reqs[0], env)
      case Raise(e) => Raise(e)
      case Ok(first) =>
        match UpdatedRequirements(reqs[1..], env)
        case Raise(e) =>
          ghost var k :| 0 <= k < |reqs[1..]| && UpdatedRequirement(reqs[1..][k], env) == Raise(e) &&
            (forall j :: 0 <= j < k ==> UpdatedRequirement(reqs[1..][j], env).Ok?);
          assert UpdatedRequirement(reqs[k + 1], env) == Raise(e);
          Raise(e)
        case Ok(rest) => Ok([first] + rest)
  }

  /** What `latest_version` reports: a commit SHA or a version. */
  datatype Latest<V> = Commit(sha: string) | Version(version: V)

  /**
   * `fetch_latest_version_for_git_dependency`: the head commit for an
   * unpinned ref; for a version-like pin the latest tag's version, or the
   * current version when that tag only spells it out in more parts; for a SHA
   * pin the latest tag's version when the SHA is tagged, else the head commit
   * of its branch; otherwise nil. A raise of `latest_version_tag` escapes.
   */
  function FetchLatestVersionForGitDependency<V>(env: Env<V>): (r: Result<Option<Latest<V>>, DependabotError>)
    ensures !env.git.pinned ==>
      r == Ok(if env.git.headCommitForCurrentBranch.Some? then Some(Commit(env.git.headCommitForCurrentBranch.value)) else None)
    ensures (env.git.pinned && (env.git.pinnedRefLooksLikeVersion || env.git.pinnedRefLooksLikeCommitSha) &&
             LatestVersionTag(env).Raise?) ==> r == Raise(LatestVersionTag(env).error)
    ensures env.git.pinned && !env.git.pinnedRefLooksLikeVersion && !env.git.pinnedRefLooksLikeCommitSha ==> r == Ok(None)
    ensures env.git.pinned && LatestVersionTag(env) == Ok(None) ==> r == Ok(None)
    ensures var t := LatestVersionTag(env);
      env.git.pinned && env.git.pinnedRefLooksLikeVersion && t.Ok? && t.value.Some? ==>
      r == Ok(if !ShortenedSemverEq(env.dependencyVersion, env.show(t.value.value.version)) then Some(Version(t.value.value.version))
              else if env.currentVersion.Some? then Some(Version(env.currentVersion.value))
              else None)
    ensures var t := LatestVersionTag(env);
      env.git.pinned && !env.git.pinnedRefLooksLikeVersion && env.git.pinnedRefLooksLikeCommitSha && t.Ok? && t.value.Some? ==>
      r == Ok(if env.git.localTagForPinnedSha.Some? then Some(Version(t.value.value.version))
              else if env.git.latestCommitForPinnedRef.Some? then Some(Commit(env.git.latestCommitForPinnedRef.value))
              else None)
  {
    if !env.git.pinned then
      match env.git.headCommitForCurrentBranch
      case None => Ok(None)
      case Some(sha) => Ok(Some(Commit(sha)))
    else if env.git.pinnedRefLooksLikeVersion && LatestVersionTag(env).Raise? then
      Raise(LatestVersionTag(env).error)
    else if env.git.pinnedRefLooksLikeVersion && LatestVersionTag(env).value.Some? then
      var latestVersion := LatestVersionTag(env).value.value.version;
      if ShortenedSemverEq(env.dependencyVersion, env.show(latestVersion)) then
        match env.currentVersion
        case None => Ok(None)
        case Some(v) => Ok(Some(Version(v)))
      else Ok(Some(Version(latestVersion)))
    else if env.git.pinnedRefLooksLikeCommitSha && LatestVersionTag(env).Raise? then
      Raise(LatestVersionTag(env).error)
    else if env.git.pinnedRefLooksLikeCommitSha && LatestVersionTag(env).value.Some? then
      var latestVersion := LatestVersionTag(env).value.value.version;
      if env.git.localTagForPinnedSha.None? then
        match env.git.latestCommitForPinnedRef
        case None => Ok(None)
        case Some(sha) => Ok(Some(Commit(sha)))
      else Ok(Some(Version(latestVersion)))
    else Ok(None)
  }

  /** `fetch_latest_version`: only git dependencies are looked up. */
  function FetchLatestVersion<V>(env: Env<V>): (r: Result<Option<Latest<V>>, DependabotError>)
    ensures !env.git.gitDependency ==> r == Ok(None)
    ensures env.git.gitDependency ==> r == FetchLatestVersionForGitDependency(env)
  {
    if !env.git.gitDependency then Ok(None) else FetchLatestVersionForGitDependency(env)
  }
}
