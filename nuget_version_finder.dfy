/**
 * The NuGet version finder: the versions listed by the v2 and v3 feeds are
 * narrowed by the prerelease, vulnerability, ignore and "higher than current"
 * filters, sorted, and the first target-framework-compatible one is chosen.
 *
 * The feed listings, the version class and the compatibility check are not
 * part of this model: the listings are an input, the version class is an
 * abstract order with prerelease and release projections, and `compatible?`
 * is a parameter.
 */
module NugetVersionFinder {

  import opened Wrappers
  import opened Errors
  import opened Text
  import opened Versions

  /** One listed version: the hash built from a feed entry. */
  datatype VersionDetails<V> = VersionDetails(version: V, nuspecUrl: Option<string>, sourceUrl: Option<string>, repoUrl: string)

  /** What the finder reads of the dependency. */
  datatype Dependency<V> = Dependency(
    version: Option<string>,
    numericVersion: Option<V>,
    requirements: seq<Option<string>>)

  /**
   * The version class: `<`, `prerelease?`, `release` and `to_s`.
   * `mentionsRelease(req, v)` says that a requirement of
   * `requirements_array(req)` names a version with the release of `v` (false
   * when the requirement text is rejected as malformed).
   */
  datatype Scheme<!V> = Scheme(
    less: (V, V) -> bool,
    prerelease: V -> bool,
    release: V -> V,
    show: V -> string,
    mentionsRelease: (string, V) -> bool)

  ghost predicate ValidScheme<V(!new)>(scheme: Scheme<V>)
  {
    StrictTotalOrder(scheme.less)
  }

  predicate IsRangeOpen(c: char) { c == '(' || c == '[' }

  predicate IsRangeClose(c: char) { c == ')' || c == ']' }

  /** `NUGET_RANGE_REGEX` (`[\(\[].*,.*[\)\]]`) matches somewhere in `s`; `.` does not cross a line break. */
  predicate IsNugetRange(s: string)
  {
    exists i, j, k ::
      0 <= i < j < k < |s| && IsRangeOpen(s[i]) && s[j] == ',' && IsRangeClose(s[k]) && '\n' !in s[i..k]
  }

  /** `parse_requirement_string`. */
  function ParseRequirementString(s: string): (r: seq<string>)
    ensures IsNugetRange(s) ==> r == [s]
    ensures !IsNugetRange(s) ==>
      |r| == |Split(s, ',')| && forall k :: 0 <= k < |r| ==> r[k] == Strip(Split(s, ',')[k])
  {
    if IsNugetRange(s) then [s]
    else
      var parts := Split(s, ',');
      seq(|parts|, k requires 0 <= k < |parts| => Strip(parts[k]))
  }

  /** A part with no comma and no blank or NUL at either end. */
  predicate CleanPart(p: string)
  {
    ',' !in p && (p == [] || (!IsStripped(p[0]) && !IsStripped(p[|p| - 1])))
  }

  /** Outside a bracketed range, the parts of a requirement string hold no comma and no surrounding blanks. */
  lemma ParsedPartsAreClean(s: string)
    requires !IsNugetRange(s)
    ensures forall p :: p in ParseRequirementString(s) ==> CleanPart(p)
  {
    var fields := Fields(s, [[',']]);
    var parts := Split(s, ',');
    var r := ParseRequirementString(s);
    FieldsHaveNoSeparator(s, ',');
    forall k | 0 <= k < |r|
      ensures CleanPart(r[k])
    {
      assert parts[k] == fields[k];
      assert parts[k] in fields;
      StripIsInside(parts[k]);
    }
  }

  /** No field cut at a one-character separator contains that separator. */
  lemma {:induction false} FieldsHaveNoSeparator(s: string, c: char)
    ensures forall f :: f in Fields(s, [[c]]) ==> c !in f
    decreases |s|
  {
    if s != [] {
      var t := FirstTokenAt(s, [[c]]);
      if t.Some? {
        FieldsHaveNoSeparator(s[1..], c);
        assert s[|[[c]][t.value]|..] == s[1..];
      } else {
        FieldsHaveNoSeparator(s[1..], c);
        assert s[0] != c by {
          assert !StartsWith(s, [[c]][0]);
          assert s[..1] == [s[0]];
        }
      }
    }
  }

  /** `related_to_current_pre?`. */
  predicate RelatedToCurrentPre<V(==)>(v: V, dep: Dependency<V>, scheme: Scheme<V>)
  {
    || (dep.numericVersion.Some? && scheme.prerelease(dep.numericVersion.value)
        && scheme.release(dep.numericVersion.value) == scheme.release(v))
    || exists i :: 0 <= i < |dep.requirements| && RequirementRelatesToPre(dep.requirements[i], v, scheme)
  }

  /** One requirement of the dependency allows prereleases near `v`. */
  predicate RequirementRelatesToPre<V>(req: Option<string>, v: V, scheme: Scheme<V>)
  {
    var parts := ParseRequirementString(if req.Some? then req.value else "");
    || "*-*" in parts
    || ((exists p :: p in parts && '-' in p) && req.Some? && scheme.mentionsRelease(req.value, v))
  }

  /** `filter_prereleases`: a prerelease stays only when it is related to the current one. */
  function FilterPrereleases<V(==,!new)>(possible: seq<VersionDetails<V>>, dep: Dependency<V>, scheme: Scheme<V>): (r: seq<VersionDetails<V>>)
    ensures forall d :: d in r <==> d in possible && (!scheme.prerelease(d.version) || RelatedToCurrentPre(d.version, dep, scheme))
    ensures forall d :: d in possible && !scheme.prerelease(d.version) ==> d in r
    ensures IsSubsequence(r, possible)
  {
    Filter(possible, (d: VersionDetails<V>) => !(scheme.prerelease(d.version) && !RelatedToCurrentPre(d.version, dep, scheme)))
  }

  /** A version strictly above the current numeric version, or any version when there is none. */
  predicate AboveCurrent<V>(v: V, dep: Dependency<V>, scheme: Scheme<V>)
  {
    dep.numericVersion.None? || scheme.less(dep.numericVersion.value, v)
  }

  /** `filter_lower_versions`. */
  function FilterLowerVersions<V(==,!new)>(possible: seq<VersionDetails<V>>, dep: Dependency<V>, scheme: Scheme<V>): (r: seq<VersionDetails<V>>)
    ensures dep.numericVersion.None? ==> r == possible
    ensures forall d :: d in r <==> d in possible && AboveCurrent(d.version, dep, scheme)
    ensures IsSubsequence(r, possible)
  {
    if dep.numericVersion.None? then
      IsSubsequenceOfSelf(possible);
      possible
    else Filter(possible, (d: VersionDetails<V>) => scheme.less(dep.numericVersion.value, d.version))
  }

  /** Some ignore condition in `ignored`, read by `parse_requirement_string`, is satisfied by `v`. */
  predicate IgnoredBy<V>(v: V, ignored: seq<string>, satisfied: (seq<string>, V) -> bool)
  {
    exists req :: req in ignored && satisfied(ParseRequirementString(req), v)
  }

  /**
   * `filter_ignored_versions`: one `reject` per ignore condition, then the
   * `AllVersionsIgnored` check.
   */
  method FilterIgnoredVersions<V(==,!new)>(
    possible: seq<VersionDetails<V>>, dep: Dependency<V>, scheme: Scheme<V>,
    ignoredVersions: seq<string>, satisfied: (seq<string>, V) -> bool, raiseOnIgnored: bool)
    returns (r: Result<seq<VersionDetails<V>>, DependabotError>)
    ensures r.Raise? <==>
      && raiseOnIgnored
      && (exists d :: d in possible && AboveCurrent(d.version, dep, scheme))
      && (forall d :: d in possible && AboveCurrent(d.version, dep, scheme) ==> IgnoredBy(d.version, ignoredVersions, satisfied))
    ensures r.Raise? ==> r.error == AllVersionsIgnored
    ensures r.Ok? ==> r.value == Filter(possible, (d: VersionDetails<V>) => !IgnoredBy(d.version, ignoredVersions, satisfied))
    ensures r.Ok? ==> forall d :: d in r.value <==> d in possible && !IgnoredBy(d.version, ignoredVersions, satisfied)
  {
    var filtered := possible;
    FilterAll(possible, (d: VersionDetails<V>) => !IgnoredBy(d.version, [], satisfied));
    var i := 0;
    while i < |ignoredVersions|
      invariant 0 <= i <= |ignoredVersions|
      invariant filtered == Filter(possible, (d: VersionDetails<V>) => !IgnoredBy(d.version, ignoredVersions[..i], satisfied))
    {
      var ignoreReq := ParseRequirementString(ignoredVersions[i]);
      FilterTwice(possible,
        (d: VersionDetails<V>) => !IgnoredBy(d.version, ignoredVersions[..i], satisfied),
        (d: VersionDetails<V>) => !satisfied(ignoreReq, d.version),
        (d: VersionDetails<V>) => !IgnoredBy(d.version, ignoredVersions[..i + 1], satisfied));
      filtered := Filter(filtered, (d: VersionDetails<V>) => !satisfied(ignoreReq, d.version));
      i := i + 1;
    }
    assert ignoredVersions[..i] == ignoredVersions;
    var higherKept := FilterLowerVersions(filtered, dep, scheme);
    var higher := FilterLowerVersions(possible, dep, scheme);
    if raiseOnIgnored && higherKept == [] && higher != [] {
      assert higher[0] in higher;
      assert forall d ::
        d in possible && AboveCurrent(d.version, dep, scheme) && !IgnoredBy(d.version, ignoredVersions, satisfied)
        ==> d in higherKept;
      return Raise(AllVersionsIgnored);
    }
    assert forall d :: d in possible && AboveCurrent(d.version, dep, scheme) ==> d in higher;
    assert higherKept != [] ==> higherKept[0] in filtered && AboveCurrent(higherKept[0].version, dep, scheme);
    r := Ok(filtered);
  }

  /** `version_compatible?` on the dependency's own version (`nil.to_s` is empty). */
  predicate CurrentCompatible<V>(dep: Dependency<V>, compatible: string -> bool)
  {
    compatible(if dep.version.Some? then dep.version.value else "")
  }

  /**
   * `find_compatible_version`: nil for no versions, the first when the current
   * version is itself incompatible, else the first compatible one.
   */
  function FindCompatibleVersion<V>(
    sorted: seq<VersionDetails<V>>, dep: Dependency<V>, scheme: Scheme<V>, compatible: string -> bool): (r: Option<VersionDetails<V>>)
    ensures sorted == [] ==> r.None?
    ensures sorted != [] && !CurrentCompatible(dep, compatible) ==> r == Some(sorted[0])
    ensures sorted != [] && CurrentCompatible(dep, compatible) ==>
      match FirstIndex(sorted, (d: VersionDetails<V>) => compatible(scheme.show(d.version)))
      case None => r.None?
      case Some(i) => r == Some(sorted[i])
  {
    if sorted == [] then None
    else if !CurrentCompatible(dep, compatible) then Some(sorted[0])
    else Find(sorted, (d: VersionDetails<V>) => compatible(scheme.show(d.version)))
  }

  /** The entry is acceptable to `find_compatible_version`. */
  predicate Acceptable<V>(d: VersionDetails<V>, dep: Dependency<V>, scheme: Scheme<V>, compatible: string -> bool)
  {
    !CurrentCompatible(dep, compatible) || compatible(scheme.show(d.version))
  }

  /** `find_highest_compatible_version`: `sort_by` version, `reverse`, then the first compatible entry. */
  function FindHighestCompatibleVersion<V(!new)>(
    possible: seq<VersionDetails<V>>, dep: Dependency<V>, scheme: Scheme<V>, compatible: string -> bool): (r: Option<VersionDetails<V>>)
    requires ValidScheme(scheme)
    ensures r.Some? ==> r.value in possible && Acceptable(r.value, dep, scheme, compatible)
    ensures r.Some? ==> forall d :: d in possible && Acceptable(d, dep, scheme, compatible) ==>
      !scheme.less(r.value.version, d.version)
    ensures r.None? ==> forall d :: d in possible ==> !Acceptable(d, dep, scheme, compatible)
  {
    var ascending := SortBy(possible, (d: VersionDetails<V>) => d.version, scheme.less);
    SortBySorted(possible, (d: VersionDetails<V>) => d.version, scheme.less);
    ReverseSorted(ascending, (d: VersionDetails<V>) => d.version, scheme.less);
    var sorted := Reverse(ascending);
    assert forall d :: d in possible <==> d in sorted by {
      assert multiset(sorted) == multiset(possible);
      forall d ensures d in possible <==> d in sorted {
        assert d in possible <==> d in multiset(possible);
        assert d in sorted <==> d in multiset(sorted);
      }
    }
    var r := FindCompatibleVersion(sorted, dep, scheme, compatible);
    FirstAcceptableIsExtreme(sorted, dep, scheme, compatible, true);
    r
  }

  /** `find_lowest_compatible_version`: `sort_by` version, then the first compatible entry. */
  function FindLowestCompatibleVersion<V(!new)>(
    possible: seq<VersionDetails<V>>, dep: Dependency<V>, scheme: Scheme<V>, compatible: string -> bool): (r: Option<VersionDetails<V>>)
    requires ValidScheme(scheme)
    ensures r.Some? ==> r.value in possible && Acceptable(r.value, dep, scheme, compatible)
    ensures r.Some? ==> forall d :: d in possible && Acceptable(d, dep, scheme, compatible) ==>
      !scheme.less(d.version, r.value.version)
    ensures r.None? ==> forall d :: d in possible ==> !Acceptable(d, dep, scheme, compatible)
  {
    var sorted := SortBy(possible, (d: VersionDetails<V>) => d.version, scheme.less);
    SortBySorted(possible, (d: VersionDetails<V>) => d.version, scheme.less);
    assert forall d :: d in possible <==> d in sorted by {
      forall d ensures d in possible <==> d in sorted {
        assert d in possible <==> d in multiset(possible);
        assert d in sorted <==> d in multiset(sorted);
      }
    }
    var r := FindCompatibleVersion(sorted, dep, scheme, compatible);
    FirstAcceptableIsExtreme(sorted, dep, scheme, compatible, false);
    r
  }

  /**
   * In a list sorted by version (descending when `descending`), what
   * `find_compatible_version` returns is acceptable and no acceptable entry
   * lies beyond it in the sort order.
   */
  lemma FirstAcceptableIsExtreme<V(!new)>(
    sorted: seq<VersionDetails<V>>, dep: Dependency<V>, scheme: Scheme<V>, compatible: string -> bool, descending: bool)
    requires ValidScheme(scheme)
    requires descending ==> SortedDescendingBy(sorted, (d: VersionDetails<V>) => d.version, scheme.less)
    requires !descending ==> SortedBy(sorted, (d: VersionDetails<V>) => d.version, scheme.less)
    ensures var r := FindCompatibleVersion(sorted, dep, scheme, compatible);
      && (r.Some? ==> r.value in sorted && Acceptable(r.value, dep, scheme, compatible))
      && (r.Some? && descending ==> forall d :: d in sorted && Acceptable(d, dep, scheme, compatible) ==>
            !scheme.less(r.value.version, d.version))
      && (r.Some? && !descending ==> forall d :: d in sorted && Acceptable(d, dep, scheme, compatible) ==>
            !scheme.less(d.version, r.value.version))
      && (r.None? ==> forall d :: d in sorted ==> !Acceptable(d, dep, scheme, compatible))
  {
    var key := (d: VersionDetails<V>) => d.version;
    if sorted != [] {
      if !CurrentCompatible(dep, compatible) {
        forall d | d in sorted
          ensures descending ==> !scheme.less(sorted[0].version, d.version)
          ensures !descending ==> !scheme.less(d.version, sorted[0].version)
        {
          var j :| 0 <= j < |sorted| && sorted[j] == d;
          if j > 0 {
            assert key(sorted[j]) == d.version;
          }
        }
      } else {
        var compatibleEntry := (d: VersionDetails<V>) => compatible(scheme.show(d.version));
        match FirstIndex(sorted, compatibleEntry)
        case None =>
        case Some(i) =>
          forall d | d in sorted && Acceptable(d, dep, scheme, compatible)
            ensures descending ==> !scheme.less(sorted[i].version, d.version)
            ensures !descending ==> !scheme.less(d.version, sorted[i].version)
          {
            var j :| 0 <= j < |sorted| && sorted[j] == d;
            assert compatibleEntry(sorted[j]);
            assert i <= j;
            if i < j {
              assert key(sorted[j]) == d.version;
            }
          }
      }
    }
  }

  /** A listed version that survives the prerelease filter and lies above the current version. */
  predicate HigherListed<V(==)>(d: VersionDetails<V>, versions: seq<VersionDetails<V>>, dep: Dependency<V>, scheme: Scheme<V>)
  {
    && d in versions
    && (!scheme.prerelease(d.version) || RelatedToCurrentPre(d.version, dep, scheme))
    && AboveCurrent(d.version, dep, scheme)
  }

  /** A listed version the latest-version pipeline may return. */
  predicate LatestCandidate<V(==)>(
    d: VersionDetails<V>, versions: seq<VersionDetails<V>>, dep: Dependency<V>, scheme: Scheme<V>,
    ignoredVersions: seq<string>, satisfied: (seq<string>, V) -> bool)
  {
    && d in versions
    && (!scheme.prerelease(d.version) || RelatedToCurrentPre(d.version, dep, scheme))
    && !IgnoredBy(d.version, ignoredVersions, satisfied)
  }

  /** `latest_version_details`: prerelease filter, ignore filter, highest compatible. */
  method LatestVersionDetails<V(==,!new)>(
    versions: seq<VersionDetails<V>>, dep: Dependency<V>, scheme: Scheme<V>,
    ignoredVersions: seq<string>, satisfied: (seq<string>, V) -> bool, raiseOnIgnored: bool,
    compatible: string -> bool)
    returns (r: Result<Option<VersionDetails<V>>, DependabotError>)
    requires ValidScheme(scheme)
    ensures r.Ok? && r.value.Some? ==>
      && LatestCandidate(r.value.value, versions, dep, scheme, ignoredVersions, satisfied)
      && Acceptable(r.value.value, dep, scheme, compatible)
      && forall d :: LatestCandidate(d, versions, dep, scheme, ignoredVersions, satisfied) && Acceptable(d, dep, scheme, compatible) ==>
           !scheme.less(r.value.value.version, d.version)
    ensures r.Ok? && r.value.None? ==>
      forall d :: LatestCandidate(d, versions, dep, scheme, ignoredVersions, satisfied) ==> !Acceptable(d, dep, scheme, compatible)
    ensures r.Raise? ==> r.error == AllVersionsIgnored
    ensures r.Raise? <==>
      && raiseOnIgnored
      && (exists d :: HigherListed(d, versions, dep, scheme))
      && (forall d :: HigherListed(d, versions, dep, scheme) ==> IgnoredBy(d.version, ignoredVersions, satisfied))
  {
    var possible := versions;
    possible := FilterPrereleases(possible, dep, scheme);
    assert forall d :: d in possible && AboveCurrent(d.version, dep, scheme) <==> HigherListed(d, versions, dep, scheme);
    var ignoredResult := FilterIgnoredVersions(possible, dep, scheme, ignoredVersions, satisfied, raiseOnIgnored);
    if ignoredResult.Raise? {
      return Raise(ignoredResult.error);
    }
    possible := ignoredResult.value;
    assert forall d :: d in possible <==> LatestCandidate(d, versions, dep, scheme, ignoredVersions, satisfied);
    r := Ok(FindHighestCompatibleVersion(possible, dep, scheme, compatible));
  }

  /** A listed version the security pipeline may return. */
  predicate SecurityCandidate<V(==)>(
    d: VersionDetails<V>, versions: seq<VersionDetails<V>>, dep: Dependency<V>, scheme: Scheme<V>,
    vulnerable: V -> bool, ignoredVersions: seq<string>, satisfied: (seq<string>, V) -> bool)
  {
    && LatestCandidate(d, versions, dep, scheme, ignoredVersions, satisfied)
    && !vulnerable(d.version)
    && AboveCurrent(d.version, dep, scheme)
  }

  /** `lowest_security_fix_version_details`: prerelease, vulnerable, ignore and lower filters, lowest compatible. */
  method LowestSecurityFixVersionDetails<V(==,!new)>(
    versions: seq<VersionDetails<V>>, dep: Dependency<V>, scheme: Scheme<V>, vulnerable: V -> bool,
    ignoredVersions: seq<string>, satisfied: (seq<string>, V) -> bool, raiseOnIgnored: bool,
    compatible: string -> bool)
    returns (r: Result<Option<VersionDetails<V>>, DependabotError>)
    requires ValidScheme(scheme)
    ensures r.Ok? && r.value.Some? ==>
      && SecurityCandidate(r.value.value, versions, dep, scheme, vulnerable, ignoredVersions, satisfied)
      && Acceptable(r.value.value, dep, scheme, compatible)
      && forall d ::
           SecurityCandidate(d, versions, dep, scheme, vulnerable, ignoredVersions, satisfied) && Acceptable(d, dep, scheme, compatible)
           ==> !scheme.less(d.version, r.value.value.version)
    ensures r.Ok? && r.value.None? ==>
      forall d :: SecurityCandidate(d, versions, dep, scheme, vulnerable, ignoredVersions, satisfied) ==>
        !Acceptable(d, dep, scheme, compatible)
    ensures r.Raise? ==> r.error == AllVersionsIgnored
    ensures r.Raise? <==>
      && raiseOnIgnored
      && (exists d :: HigherListed(d, versions, dep, scheme) && !vulnerable(d.version))
      && (forall d :: HigherListed(d, versions, dep, scheme) && !vulnerable(d.version) ==>
            IgnoredBy(d.version, ignoredVersions, satisfied))
  {
    var possible := versions;
    possible := FilterPrereleases(possible, dep, scheme);
    possible := Filter(possible, (d: VersionDetails<V>) => !vulnerable(d.version));
    assert forall d :: d in possible && AboveCurrent(d.version, dep, scheme) <==>
      HigherListed(d, versions, dep, scheme) && !vulnerable(d.version);
    var ignoredResult := FilterIgnoredVersions(possible, dep, scheme, ignoredVersions, satisfied, raiseOnIgnored);
    if ignoredResult.Raise? {
      return Raise(ignoredResult.error);
    }
    possible := ignoredResult.value;
    possible := FilterLowerVersions(possible, dep, scheme);
    assert forall d :: d in possible <==> SecurityCandidate(d, versions, dep, scheme, vulnerable, ignoredVersions, satisfied);
    r := Ok(FindLowestCompatibleVersion(possible, dep, scheme, compatible));
  }
}
