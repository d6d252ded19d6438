/**
 * The Pub update checker. The `dependency_services` report of the Dart tool
 * is an input; the checker picks versions out of it, drops ignored ones
 * (unless they are git revisions or the current version), and chooses the
 * requirements update strategy from the pubspec.
 *
 * `Pub::Version.new`, the ignore requirements and
 * `parse_updated_dependency` are not part of this model; they are
 * parameters.
 */
module PubUpdateChecker {

  import opened Wrappers
  import opened Errors
  import opened Text
  import opened Versions

  /** One entry of a report section (`compatible`, `singleBreaking`, `multiBreaking`, the smallest update). */
  datatype Update = Update(
    name: string,
    version: string,
    kind: string,
    previousConstraint: Option<string>,
    constraintBumpedIfNeeded: Option<string>)

  /** One package of the `dependency_services report` output. */
  datatype Report = Report(
    name: string,
    latest: string,
    compatible: seq<Update>,
    singleBreaking: seq<Update>,
    multiBreaking: seq<Update>)

  datatype Requirement = Requirement(requirement: Option<string>, file: string, groups: seq<string>, source: Option<string>)

  datatype Dependency = Dependency(name: string, version: Option<string>, requirements: seq<Requirement>)

  datatype Strategy = WidenRanges | BumpVersions | BumpVersionsIfNecessary | LockfileOnly

  /**
   * What `YAML.safe_load` makes of `pubspec.yaml`, as far as `parsed_pubspec[...]` can tell:
   * a syntax error; a document with no `[]` method (empty, `true`, `false`, a float); a string,
   * whose `[]` finds substrings; a list or an integer, whose `[]` wants an integer; or a
   * mapping, of which the two keys read.
   */
  datatype Pubspec =
    | Malformed
    | NoIndex
    | Text(text: string)
    | IntegerIndexed
    | Parsed(version: Option<string>, publishTo: Option<string>)

  /** A version the checker reports: a git revision as it is, or a parsed version. */
  datatype Found<V> = Revision(revision: string) | Version(version: V)

  /**
   * The checker's inputs: the report, the smallest security update (nil when
   * the tool found none), `vulnerable?`, `Pub::Version.new`, whether an
   * ignore requirement is satisfied by a version, the configured strategy,
   * the parsed pubspec (nil when there is no `pubspec.yaml`), and the
   * requirements `parse_updated_dependency` builds from an update entry.
   */
  datatype Env<!V> = Env(
    dependency: Dependency,
    report: seq<Report>,
    smallestUpdate: Option<seq<Update>>,
    vulnerable: bool,
    parse: string -> V,
    ignored: V -> bool,
    raiseOnIgnored: bool,
    strategy: Option<Strategy>,
    pubspec: Option<Pubspec>,
    updatedRequirementsFor: (Update, Strategy) -> seq<Requirement>)

  /** The length of the run of `[0-9a-f]` starting at `i`. */
  function HexRun(s: string, i: nat): (n: nat)
    requires i <= |s|
    ensures i + n <= |s|
    decreases |s| - i
  {
    if i < |s| && IsLowerHex(s[i]) then 1 + HexRun(s, i + 1) else 0
  }

  /** The run found by `HexRun` is made of hex digits and ends at another character or at the end. */
  lemma {:induction false} HexRunHex(s: string, i: nat)
    requires i <= |s|
    ensures forall k :: i <= k < i + HexRun(s, i) ==> IsLowerHex(s[k])
    ensures i + HexRun(s, i) < |s| ==> !IsLowerHex(s[i + HexRun(s, i)])
    decreases |s| - i
  {
    if i < |s| && IsLowerHex(s[i]) {
      HexRunHex(s, i + 1);
    }
  }

  /** A text made only of hex digits is one hex run. */
  lemma {:induction false} HexRunAll(s: string, i: nat)
    requires i <= |s|
    requires forall k :: i <= k < |s| ==> IsLowerHex(s[k])
    ensures HexRun(s, i) == |s| - i
    decreases |s| - i
  {
    if i < |s| {
      HexRunAll(s, i + 1);
    }
  }

  /** `[0-9a-f]{6,}$` matches at a line start `i`: greedy, so the whole hex run must reach the line end. */
  predicate GitRevisionAt(s: string, i: nat)
    requires i <= |s|
  {
    AtLineStart(s, i) && HexRun(s, i) >= 6 && AtLineEnd(s, i + HexRun(s, i))
  }

  /** `git_revision?`: `/^[0-9a-f]{6,}$/` matches some line of the text. */
  predicate GitRevision(s: string)
  {
    exists i :: 0 <= i <= |s| && GitRevisionAt(s, i)
  }

  /** Six or more lowercase hex digits are a git revision. */
  lemma GitRevisionOfHex(s: string)
    requires |s| >= 6 && forall k :: 0 <= k < |s| ==> IsLowerHex(s[k])
    ensures GitRevision(s)
  {
    HexRunAll(s, 0);
    assert GitRevisionAt(s, 0);
  }

  /** A one-line git revision is six or more lowercase hex digits and nothing else. */
  lemma GitRevisionOneLine(s: string)
    requires '\n' !in s && GitRevision(s)
    ensures |s| >= 6 && forall k :: 0 <= k < |s| ==> IsLowerHex(s[k])
  {
    var i :| 0 <= i <= |s| && GitRevisionAt(s, i);
    assert i == 0;
    HexRunHex(s, 0);
  }

  /**
   * `version_unless_ignored`: a git revision passes through; a version equal
   * to the (non-revision) current version is kept even when ignored; any
   * other ignored version gives nil.
   */
  function VersionUnlessIgnored<V(==)>(unparsed: string, currentVersion: Option<string>, env: Env<V>): (r: Option<Found<V>>)
    ensures GitRevision(unparsed) ==> r == Some(Revision(unparsed))
    ensures IsCurrent(unparsed, currentVersion, env) ==> r == Some(Version(env.parse(unparsed)))
    ensures r.None? <==>
      !GitRevision(unparsed) && env.ignored(env.parse(unparsed)) && !IsCurrent(unparsed, currentVersion, env)
    ensures r.Some? && !GitRevision(unparsed) ==> r == Some(Version(env.parse(unparsed)))
  {
    if GitRevision(unparsed) then Some(Revision(unparsed))
    else
      var newVersion := env.parse(unparsed);
      if currentVersion.Some? && !GitRevision(currentVersion.value) && env.parse(currentVersion.value) == newVersion then
        Some(Version(newVersion))
      else if env.ignored(newVersion) then None
      else Some(Version(newVersion))
  }

  /** `unparsed` is not a git revision and parses to the same version as a current version that is not one either. */
  predicate IsCurrent<V(==)>(unparsed: string, currentVersion: Option<string>, env: Env<V>)
  {
    && !GitRevision(unparsed)
    && currentVersion.Some?
    && !GitRevision(currentVersion.value)
    && env.parse(currentVersion.value) == env.parse(unparsed)
  }

  /** `current_report`: the report entry for the dependency, if any. */
  function CurrentReport<V>(env: Env<V>): (r: Option<Report>)
    ensures r.Some? ==> r.value in env.report && r.value.name == env.dependency.name
    ensures r.None? ==> forall e :: e in env.report ==> e.name != env.dependency.name
  {
    var i := FirstIndex(env.report, (e: Report) => e.name == env.dependency.name);
    if i.Some? then Some(env.report[i.value]) else None
  }

  /** `find { |d| d["name"] == name }`: the first entry of a section for the dependency. */
  function EntryFor(section: seq<Update>, name: string): (r: Option<Update>)
    ensures r.Some? ==> r.value in section && r.value.name == name
    ensures r.Some? ==>
      exists i :: (0 <= i < |section| && section[i] == r.value &&
                   forall j :: 0 <= j < i ==> section[j].name != name)
    ensures r.None? ==> forall u :: u in section ==> u.name != name
  {
    var i := FirstIndex(section, (u: Update) => u.name == name);
    if i.Some? then Some(section[i.value]) else None
  }

  /**
   * `latest_version`: the report's latest version unless ignored, raising
   * `AllVersionsIgnored` when that is nil and raising is on. A dependency
   * missing from the report makes `nil["latest"]` raise.
   */
  function LatestVersion<V(==)>(env: Env<V>): (r: Result<Option<Found<V>>, DependabotError>)
    ensures CurrentReport(env).None? ==> r == Raise(NoMethodError)
    ensures CurrentReport(env).Some? ==>
      var v := VersionUnlessIgnored(CurrentReport(env).value.latest, env.dependency.version, env);
      (r.Raise? <==> v.None? && env.raiseOnIgnored) && (r.Ok? ==> r.value == v)
    ensures r.Raise? && CurrentReport(env).Some? ==> r.error == AllVersionsIgnored
  {
    match CurrentReport(env)
    case None => Raise(NoMethodError)
    case Some(current) =>
      var version := VersionUnlessIgnored(current.latest, env.dependency.version, env);
      if version.None? && env.raiseOnIgnored then Raise(AllVersionsIgnored) else Ok(version)
  }

  /** The latest version is never dropped when it is the current version, so raising needs a version other than the current one. */
  lemma LatestVersionKeepsCurrent<V>(env: Env<V>)
    requires CurrentReport(env).Some?
    requires env.dependency.version == Some(CurrentReport(env).value.latest)
    ensures LatestVersion(env).Ok? && LatestVersion(env).value.Some?
  {
  }

  /** `latest_resolvable_version_with_no_unlock`: the `compatible` entry, unless ignored. */
  function LatestResolvableVersionWithNoUnlock<V(==)>(env: Env<V>): (r: Result<Option<Found<V>>, DependabotError>)
    ensures CurrentReport(env).None? <==> r.Raise?
    ensures r.Raise? ==> r.error == NoMethodError
    ensures CurrentReport(env).Some? && EntryFor(CurrentReport(env).value.compatible, env.dependency.name).None? ==>
      r == Ok(None)
    ensures CurrentReport(env).Some? && EntryFor(CurrentReport(env).value.compatible, env.dependency.name).Some? ==>
      r == Ok(VersionUnlessIgnored(EntryFor(CurrentReport(env).value.compatible, env.dependency.name).value.version, None, env))
    ensures r.Ok? && r.value.Some? ==>
      exists u :: u in CurrentReport(env).value.compatible && u.name == env.dependency.name
        && r.value == VersionUnlessIgnored(u.version, None, env)
  {
    match CurrentReport(env)
    case None => Raise(NoMethodError)
    case Some(current) =>
      match EntryFor(current.compatible, env.dependency.name)
      case None => Ok(None)
      case Some(entry) => Ok(VersionUnlessIgnored(entry.version, None, env))
  }

  /** `latest_resolvable_version`: the `singleBreaking` entry, unless ignored. */
  function LatestResolvableVersion<V(==)>(env: Env<V>): (r: Result<Option<Found<V>>, DependabotError>)
    ensures CurrentReport(env).None? <==> r.Raise?
    ensures r.Raise? ==> r.error == NoMethodError
    ensures CurrentReport(env).Some? && EntryFor(CurrentReport(env).value.singleBreaking, env.dependency.name).None? ==>
      r == Ok(None)
    ensures CurrentReport(env).Some? && EntryFor(CurrentReport(env).value.singleBreaking, env.dependency.name).Some? ==>
      r == Ok(VersionUnlessIgnored(EntryFor(CurrentReport(env).value.singleBreaking, env.dependency.name).value.version, None, env))
    ensures r.Ok? && r.value.Some? ==>
      exists u :: u in CurrentReport(env).value.singleBreaking && u.name == env.dependency.name
        && r.value == VersionUnlessIgnored(u.version, None, env)
  {
    match CurrentReport(env)
    case None => Raise(NoMethodError)
    case Some(current) =>
      match EntryFor(current.singleBreaking, env.dependency.name)
      case None => Ok(None)
      case Some(entry) => Ok(VersionUnlessIgnored(entry.version, None, env))
  }

  /**
   * `lowest_security_fix_version`: nil for a git revision; the current
   * version (unless ignored) when it is not vulnerable; else the smallest
   * update's entry for the dependency, unless ignored.
   */
  function LowestSecurityFixVersion<V(==)>(env: Env<V>): (r: Result<Option<Found<V>>, DependabotError>)
    ensures env.dependency.version.None? ==> r == Raise(NoMethodError)
    ensures env.dependency.version.Some? && GitRevision(env.dependency.version.value) ==> r == Ok(None)
    ensures env.dependency.version.Some? && !GitRevision(env.dependency.version.value) && !env.vulnerable ==>
      r == Ok(VersionUnlessIgnored(env.dependency.version.value, None, env))
    ensures (env.dependency.version.Some? && !GitRevision(env.dependency.version.value) && env.vulnerable &&
             env.smallestUpdate.None?) ==> r == Ok(None)
    ensures (env.dependency.version.Some? && !GitRevision(env.dependency.version.value) && env.vulnerable &&
             env.smallestUpdate.Some?) ==>
      r == match EntryFor(env.smallestUpdate.value, env.dependency.name)
           case None => Raise(NoMethodError)
           case Some(u) => Ok(VersionUnlessIgnored(u.version, None, env))
    ensures env.vulnerable && r.Ok? && r.value.Some? ==>
      && env.smallestUpdate.Some?
      && exists u :: u in env.smallestUpdate.value && u.name == env.dependency.name
           && r.value == VersionUnlessIgnored(u.version, None, env)
  {
    match env.dependency.version
    case None => Raise(NoMethodError)
    case Some(current) =>
      if GitRevision(current) then Ok(None)
      else if !env.vulnerable then Ok(VersionUnlessIgnored(current, None, env))
      else
        match env.smallestUpdate
        case None => Ok(None)
        case Some(updates) =>
          match EntryFor(updates, env.dependency.name)
          case None => Raise(NoMethodError)
          case Some(upgrade) => Ok(VersionUnlessIgnored(upgrade.version, None, env))
  }

  /** `lowest_resolvable_security_fix_version`: only for a vulnerable dependency. */
  function LowestResolvableSecurityFixVersion<V(==)>(env: Env<V>): (r: Result<Option<Found<V>>, DependabotError>)
    ensures !env.vulnerable ==> r == Raise(RuntimeError("Dependency not vulnerable!"))
    ensures env.vulnerable ==> r == LowestSecurityFixVersion(env)
  {
    if !env.vulnerable then Raise(RuntimeError("Dependency not vulnerable!"))
    else LowestSecurityFixVersion(env)
  }

  /** A not-vulnerable, non-revision current version is its own security fix unless it is ignored. */
  lemma SecurityFixStaysOnCurrent<V>(env: Env<V>, current: string)
    requires env.dependency.version == Some(current) && !GitRevision(current) && !env.vulnerable
    ensures LowestSecurityFixVersion(env) == Ok(if env.ignored(env.parse(current)) then None else Some(Version(env.parse(current))))
  {
  }

  /**
   * `resolve_requirements_update_strategy` as written: `rescue ScriptError`
   * does not catch the syntax errors of `YAML.safe_load`, so a malformed
   * pubspec raises instead of falling back to `BumpVersions`.
   */
  function ResolveRequirementsUpdateStrategyAsWritten(strategy: Option<Strategy>, pubspec: Option<Pubspec>): (r: Result<Strategy, DependabotError>)
    ensures strategy == Some(LockfileOnly) ==> r.Raise?
    ensures strategy.Some? && strategy != Some(LockfileOnly) ==> r == Ok(strategy.value)
    ensures strategy.None? ==>
      (r.Raise? <==> pubspec.None? || pubspec == Some(Malformed) || pubspec == Some(NoIndex) || pubspec == Some(IntegerIndexed))
    ensures strategy.None? && pubspec.Some? && pubspec.value.Parsed? ==>
      r == Ok(if pubspec.value.version.Some? && pubspec.value.publishTo != Some("none") then WidenRanges else BumpVersions)
    ensures strategy.None? && pubspec.Some? && pubspec.value.Text? ==>
      r == Ok(if Contains(pubspec.value.text, "version") then WidenRanges else BumpVersions)
  {
    if strategy == Some(LockfileOnly) then Raise(RuntimeError("Unexpected requirements_update_strategy"))
    else if strategy.Some? then Ok(strategy.value)
    else
      match pubspec
      case None => Raise(TypeError("Passed `nil` into T.must"))
      case Some(Malformed) => Raise(YamlSyntaxError)
      case Some(NoIndex) => Raise(NoMethodError)
      case Some(Text(text)) =>
        // `text["version"]` is `"version"` when the text contains it, and `text["publish_to"]` is never `"none"`
        if Contains(text, "version") then Ok(WidenRanges) else Ok(BumpVersions)
      case Some(IntegerIndexed) => Raise(TypeError("no implicit conversion of String into Integer"))
      case Some(Parsed(version, publishTo)) =>
        if version.None? || publishTo == Some("none") then Ok(BumpVersions) else Ok(WidenRanges)
  }

  /** A malformed pubspec makes the strategy resolution raise. */
  lemma MalformedPubspecRaises()
    ensures ResolveRequirementsUpdateStrategyAsWritten(None, Some(Malformed)) == Raise(YamlSyntaxError)
  {
  }

  /**
   * `resolve_requirements_update_strategy`: an unsupported strategy raises,
   * a given one is kept, and without one an application (no `version`, or
   * `publish_to: none`) bumps versions while a library widens ranges; a
   * pubspec that cannot be parsed counts as an application.
   */
  function ResolveRequirementsUpdateStrategy(strategy: Option<Strategy>, pubspec: Option<Pubspec>): (r: Result<Strategy, DependabotError>)
    ensures r.Raise? <==>
      || strategy == Some(LockfileOnly)
      || (strategy.None? && (pubspec.None? || pubspec == Some(NoIndex) || pubspec == Some(IntegerIndexed)))
    ensures strategy.Some? && r.Ok? ==> r.value == strategy.value
    ensures strategy.None? && pubspec.Some? && pubspec.value.Parsed? ==>
      r == Ok(if pubspec.value.version.Some? && pubspec.value.publishTo != Some("none") then WidenRanges else BumpVersions)
    ensures strategy.None? && pubspec == Some(Malformed) ==> r == Ok(BumpVersions)
    ensures pubspec != Some(Malformed) ==> r == ResolveRequirementsUpdateStrategyAsWritten(strategy, pubspec)
  {
    if strategy.None? && pubspec == Some(Malformed) then Ok(BumpVersions)
    else ResolveRequirementsUpdateStrategyAsWritten(strategy, pubspec)
  }

  /** An update entry whose constraint must change. */
  predicate IsBreaking(u: Update)
  {
    u.previousConstraint != u.constraintBumpedIfNeeded
  }

  /**
   * The entry `updated_requirements` works from: the smallest update's entry
   * for the dependency when vulnerable, the `singleBreaking` one otherwise
   * (nil when the section is missing).
   */
  function ChosenEntry<V>(env: Env<V>): Option<Update>
  {
    if env.vulnerable then
      if env.smallestUpdate.Some? then EntryFor(env.smallestUpdate.value, env.dependency.name) else None
    else
      if CurrentReport(env).Some? then EntryFor(CurrentReport(env).value.singleBreaking, env.dependency.name) else None
  }

  /** The smallest security update changes the constraints of more than one package. */
  predicate SeveralBreaking<V>(env: Env<V>)
  {
    env.smallestUpdate.Some? && |Filter(env.smallestUpdate.value, IsBreaking)| > 1
  }

  /**
   * `updated_requirements`: when vulnerable, the original requirements if
   * more than one package's constraint must change, else the smallest
   * update's entry; when not vulnerable, the `singleBreaking` entry; nil
   * without an entry.
   */
  function UpdatedRequirements<V(==)>(env: Env<V>): (r: Result<Option<seq<Requirement>>, DependabotError>)
    ensures env.vulnerable && SeveralBreaking(env) ==> r == Ok(Some(env.dependency.requirements))
    ensures env.vulnerable && env.smallestUpdate.None? ==> r == Raise(NoMethodError)
    ensures !env.vulnerable && CurrentReport(env).None? ==> r == Raise(NoMethodError)
    ensures (env.vulnerable ==> env.smallestUpdate.Some? && !SeveralBreaking(env)) &&
            (!env.vulnerable ==> CurrentReport(env).Some?) ==>
      match ChosenEntry(env)
      case None => r == Ok(None)
      case Some(u) =>
        match ResolveRequirementsUpdateStrategy(env.strategy, env.pubspec)
        case Raise(e) => r == Raise(e)
        case Ok(strategy) => r == Ok(Some(env.updatedRequirementsFor(u, strategy)))
  {
    var entry: Result<Option<Update>, DependabotError> :=
      if env.vulnerable then
        match env.smallestUpdate
        case None => Raise(NoMethodError)
        case Some(updates) =>
          if |Filter(updates, IsBreaking)| > 1 then Ok(None)
          else Ok(EntryFor(updates, env.dependency.name))
      else
        match CurrentReport(env)
        case None => Raise(NoMethodError)
        case Some(current) => Ok(EntryFor(current.singleBreaking, env.dependency.name));
    if env.vulnerable && SeveralBreaking(env) then
      Ok(Some(env.dependency.requirements))
    else
      match entry
      case Raise(e) => Raise(e)
      case Ok(None) => Ok(None)
      case Ok(Some(u)) =>
        match ResolveRequirementsUpdateStrategy(env.strategy, env.pubspec)
        case Raise(e) => Raise(e)
        case Ok(s) => Ok(Some(env.updatedRequirementsFor(u, s)))
  }

  /**
   * A security update never changes the requirements through another
   * package's entry: whatever it returns besides the original requirements
   * is built from the dependency's own first entry in the smallest update.
   */
  lemma SecurityUpdateUsesOwnEntry<V>(env: Env<V>)
    requires env.vulnerable
    requires UpdatedRequirements(env).Ok? && UpdatedRequirements(env).value.Some?
    requires UpdatedRequirements(env).value.value != env.dependency.requirements
    ensures env.smallestUpdate.Some? && !SeveralBreaking(env)
    ensures var u := EntryFor(env.smallestUpdate.value, env.dependency.name);
      && u.Some? && u.value.name == env.dependency.name && u.value in env.smallestUpdate.value
      && ResolveRequirementsUpdateStrategy(env.strategy, env.pubspec).Ok?
      && UpdatedRequirements(env).value.value ==
           env.updatedRequirementsFor(u.value, ResolveRequirementsUpdateStrategy(env.strategy, env.pubspec).value)
  {
  }

  /**
   * `latest_version_resolvable_with_full_unlock?`: false without a
   * `multiBreaking` entry; otherwise whether `latest_version` is that
   * entry's version.
   */
  function LatestVersionResolvableWithFullUnlock<V(==)>(env: Env<V>): (r: Result<bool, DependabotError>)
    ensures CurrentReport(env).None? ==> r == Raise(NoMethodError)
    ensures CurrentReport(env).Some? && EntryFor(CurrentReport(env).value.multiBreaking, env.dependency.name).None? ==>
      r == Ok(false)
    ensures CurrentReport(env).Some? && EntryFor(CurrentReport(env).value.multiBreaking, env.dependency.name).Some? ==>
      var entry := EntryFor(CurrentReport(env).value.multiBreaking, env.dependency.name).value;
      && (r.Raise? <==> LatestVersion(env).Raise?)
      && (r.Ok? ==>
            (r.value <==>
               || LatestVersion(env).value == Some(Revision(entry.version))
               || (!GitRevision(entry.version) && LatestVersion(env).value == Some(Version(env.parse(entry.version))))))
  {
    match CurrentReport(env)
    case None => Raise(NoMethodError)
    case Some(current) =>
      match EntryFor(current.multiBreaking, env.dependency.name)
      case None => Ok(false)
      case Some(entry) =>
        match LatestVersion(env)
        case Raise(e) => Raise(e)
        case Ok(latest) =>
          Ok((!GitRevision(entry.version) && latest == Some(Version(env.parse(entry.version))))
             || latest == Some(Revision(entry.version)))
  }

  /** A dependency built by `parse_updated_dependency`: the entry's name and version, and its requirements. */
  datatype UpdatedDependency = UpdatedDependency(name: string, version: string, requirements: seq<Requirement>)

  /**
   * `updated_dependencies_after_full_unlock`: a dependency for each
   * non-transitive entry of the relevant section, built under the resolved
   * strategy (resolved only when there is an entry to build).
   */
  function FullUnlockEntries<V>(env: Env<V>): (r: Result<seq<UpdatedDependency>, DependabotError>)
    ensures env.vulnerable && env.smallestUpdate.None? ==> r == Raise(NoMethodError)
    ensures !env.vulnerable && CurrentReport(env).None? ==> r == Raise(NoMethodError)
    ensures (env.vulnerable ==> env.smallestUpdate.Some?) && (!env.vulnerable ==> CurrentReport(env).Some?) ==>
      var section := if env.vulnerable then env.smallestUpdate.value else CurrentReport(env).value.multiBreaking;
      var direct := Filter(section, (u: Update) => u.kind != "transitive");
      && (forall u :: u in direct <==> u in section && u.kind != "transitive")
      && (direct == [] ==> r == Ok([]))
      && (direct != [] && ResolveRequirementsUpdateStrategy(env.strategy, env.pubspec).Raise? ==>
            r == Raise(ResolveRequirementsUpdateStrategy(env.strategy, env.pubspec).error))
      && (direct != [] && ResolveRequirementsUpdateStrategy(env.strategy, env.pubspec).Ok? ==>
            var strategy := ResolveRequirementsUpdateStrategy(env.strategy, env.pubspec).value;
            && r.Ok? && |r.value| == |direct|
            && forall i :: 0 <= i < |direct| ==>
                 r.value[i] == UpdatedDependency(direct[i].name, direct[i].version, env.updatedRequirementsFor(direct[i], strategy)))
  {
    var section: Result<seq<Update>, DependabotError> :=
      if env.vulnerable then
        (if env.smallestUpdate.Some? then Ok(env.smallestUpdate.value) else Raise(NoMethodError))
      else
        (if CurrentReport(env).Some? then Ok(CurrentReport(env).value.multiBreaking) else Raise(NoMethodError));
    match section
    case Raise(e) => Raise(e)
    case Ok(s) =>
      var direct := Filter(s, (u: Update) => u.kind != "transitive");
      if direct == [] then Ok([])
      else
        match ResolveRequirementsUpdateStrategy(env.strategy, env.pubspec)
        case Raise(e) => Raise(e)
        case Ok(strategy) =>
          Ok(seq(|direct|, i requires 0 <= i < |direct| =>
            UpdatedDependency(direct[i].name, direct[i].version, env.updatedRequirementsFor(direct[i], strategy))))
  }
}
