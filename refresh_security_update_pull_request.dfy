/**
 * The updater's `RefreshSecurityUpdatePullRequest` operation: for a security-only job that
 * refreshes an existing pull request, it decides whether to close that pull request, update it
 * in place or supersede it with a new one, and reports the decision to the backend service.
 *
 * The update checker, the dependency-change builder and the backend are outside the model: the
 * checker's answers and the builder's result are inputs, and the service and the error handler
 * are objects that record the calls they receive.
 */
module RefreshSecurityUpdatePullRequest {
  import opened Wrappers
  import opened Errors
  import opened Text
  import opened Versions

  /** A parsed dependency: its name, its version (`nil` when unknown) and whether it is removed. */
  datatype Dependency = Dependency(name: string, version: Option<string>, removed: bool)

  /** A value inside one entry of an existing pull request's description. */
  datatype JsonValue = JString(s: string) | JBool(b: bool)

  /** One hash of an existing pull request: `dependency-name`, `dependency-version`, `dependency-removed`. */
  type PrEntry = map<string, JsonValue>

  /** The parts of the job this operation reads. */
  datatype Job = Job(
    securityUpdatesOnly: bool,
    dependencies: Option<seq<string>>,
    updatingAPullRequest: bool,
    existingPullRequests: seq<seq<PrEntry>>,
    allowedUpdate: Dependency -> bool)

  /** The dependency snapshot: the parsed dependencies the job names, and the base commit. */
  datatype Snapshot = Snapshot(jobDependencies: seq<Dependency>, baseCommitSha: string)

  /** The values `requirements_to_unlock` chooses between. */
  datatype Unlock = UnlockNone | UnlockOwn | UnlockAll | UpdateNotPossible

  /**
   * The answers of the update checker built for the lead dependency: whether asking for the
   * latest version raises (for instance `AllVersionsIgnored`, since the checker is built with
   * `raise_on_ignored`), whether the dependency is up to date, whether its requirements are
   * unlocked or can be, whether it can be updated at each unlock level, and the updated
   * dependencies at each level.
   */
  datatype Checker = Checker(
    latestVersionRaises: Option<DependabotError>,
    upToDate: bool,
    requirementsUnlockedOrCanBe: bool,
    canUpdate: Unlock -> bool,
    updatedDependencies: Unlock -> seq<Dependency>)

  /** The reasons a pull request is closed for. */
  datatype CloseReason = DependencyRemoved | UpToDate | UpdateNoLongerPossible | DependenciesChanged

  /** The calls made on the backend service. */
  datatype Action =
    | ClosePullRequest(dependencies: seq<string>, reason: CloseReason)
    | CreatePullRequest(updated: seq<Dependency>, baseCommitSha: string)
    | UpdatePullRequest(updated: seq<Dependency>, baseCommitSha: string)

  // ---------------------------------------------------------------------
  // applies_to?
  // ---------------------------------------------------------------------

  /**
   * `applies_to?`: a security-only job updating a pull request, unless the job's dependency list
   * is present and empty. `job.dependencies&.none?` is `nil` for a missing list, so a missing list
   * does not stop the operation.
   */
  predicate AppliesTo(job: Job): (r: bool)
    ensures job.dependencies == Some([]) ==> !r
    ensures job.dependencies.None? ==> (r <==> job.securityUpdatesOnly && job.updatingAPullRequest)
  {
    && job.securityUpdatesOnly
    && !(job.dependencies.Some? && job.dependencies.value == [])
    && job.updatingAPullRequest
  }

  /** The conditions `applies_to?` checks, each one necessary. */
  lemma AppliesToConditions(job: Job)
    ensures AppliesTo(job) ==> job.securityUpdatesOnly && job.updatingAPullRequest
    ensures job.dependencies == Some([]) ==> !AppliesTo(job)
    ensures job.securityUpdatesOnly && job.updatingAPullRequest && job.dependencies != Some([]) ==> AppliesTo(job)
  {
  }

  // ---------------------------------------------------------------------
  // requirements_to_unlock
  // ---------------------------------------------------------------------

  /**
   * `requirements_to_unlock`: `:none` when the requirements stay locked, otherwise the first of
   * `:own` and `:all` the checker can update with; `:update_not_possible` when there is none.
   */
  function RequirementsToUnlock(checker: Checker): (r: Unlock)
    ensures r != UpdateNotPossible ==> checker.canUpdate(r)
    ensures r == UnlockNone ==> !checker.requirementsUnlockedOrCanBe
    ensures (r == UnlockOwn || r == UnlockAll) ==> checker.requirementsUnlockedOrCanBe
    ensures r == UnlockAll ==> !checker.canUpdate(UnlockOwn)
    ensures r == UpdateNotPossible <==>
      (if checker.requirementsUnlockedOrCanBe
       then !checker.canUpdate(UnlockOwn) && !checker.canUpdate(UnlockAll)
       else !checker.canUpdate(UnlockNone))
  {
    if !checker.requirementsUnlockedOrCanBe then
      if checker.canUpdate(UnlockNone) then UnlockNone else UpdateNotPossible
    else if checker.canUpdate(UnlockOwn) then UnlockOwn
    else if checker.canUpdate(UnlockAll) then UnlockAll
    else UpdateNotPossible
  }

  // ---------------------------------------------------------------------
  // existing_pull_request
  // ---------------------------------------------------------------------

  const NameKey := "dependency-name"
  const VersionKey := "dependency-version"
  const RemovedKey := "dependency-removed"

  /**
   * The compacted hash for one updated dependency: the version key only when there is a
   * version, the removed key (always `true`) only for a removed dependency.
   */
  function EntryFor(d: Dependency): (e: PrEntry)
    ensures NameKey in e && e[NameKey] == JString(d.name)
    ensures VersionKey in e <==> d.version.Some?
    ensures d.version.Some? ==> e[VersionKey] == JString(d.version.value)
    ensures RemovedKey in e <==> d.removed
    ensures RemovedKey in e ==> e[RemovedKey] == JBool(true)
    ensures forall k :: k in e ==> k == NameKey || k == VersionKey || k == RemovedKey
  {
    var named := map[NameKey := JString(d.name)];
    var versioned := if d.version.Some? then named[VersionKey := JString(d.version.value)] else named;
    if d.removed then versioned[RemovedKey := JBool(true)] else versioned
  }

  /** `Set.new` of the entries of the updated dependencies. */
  function NewPrSet(updated: seq<Dependency>): set<PrEntry>
  {
    set d | d in updated :: EntryFor(d)
  }

  /** `Set.new(pr)`. */
  function EntrySet(pr: seq<PrEntry>): set<PrEntry>
  {
    set e | e in pr
  }

  /** `existing_pull_request`: the first existing pull request whose entries, as a set, are the new ones. */
  function ExistingPullRequest(prs: seq<seq<PrEntry>>, updated: seq<Dependency>): (r: Option<seq<PrEntry>>)
  {
    Find(prs, (pr: seq<PrEntry>) => EntrySet(pr) == NewPrSet(updated))
  }

  /**
   * The found pull request lists exactly the updated dependencies, in any order and with any
   * repetition; when none is found, no existing pull request does.
   */
  lemma ExistingPullRequestMatches(prs: seq<seq<PrEntry>>, updated: seq<Dependency>)
    ensures var r := ExistingPullRequest(prs, updated);
      && (r.Some? ==> r.value in prs && forall e :: e in r.value <==> exists d :: d in updated && e == EntryFor(d))
      && (r.None? <==> forall k :: 0 <= k < |prs| ==> EntrySet(prs[k]) != NewPrSet(updated))
  {
    var i := FirstIndex(prs, (pr: seq<PrEntry>) => EntrySet(pr) == NewPrSet(updated));
    if i.Some? {
      var pr := prs[i.value];
      assert ExistingPullRequest(prs, updated) == Some(pr);
      forall e ensures e in pr <==> exists d :: d in updated && e == EntryFor(d) {
        assert e in pr <==> e in EntrySet(pr);
      }
    }
  }

  /** The order and repetition of the updated dependencies do not matter. */
  lemma ExistingPullRequestIgnoresOrder(prs: seq<seq<PrEntry>>, a: seq<Dependency>, b: seq<Dependency>)
    requires forall d :: d in a <==> d in b
    ensures ExistingPullRequest(prs, a) == ExistingPullRequest(prs, b)
  {
    assert NewPrSet(a) == NewPrSet(b);
  }

  /**
   * A matched pull request never carries `dependency-removed => false`: the key is omitted for a
   * dependency that is not removed, so such an entry matches nothing.
   */
  lemma MatchedEntriesAreCompact(prs: seq<seq<PrEntry>>, updated: seq<Dependency>)
    ensures var r := ExistingPullRequest(prs, updated);
      r.Some? ==> forall e :: e in r.value && RemovedKey in e ==> e[RemovedKey] == JBool(true)
  {
    ExistingPullRequestMatches(prs, updated);
  }

  // ---------------------------------------------------------------------
  // close_pull_request's reason
  // ---------------------------------------------------------------------

  /** The symbol's name sent to the backend. */
  function ReasonSymbol(reason: CloseReason): string
  {
    match reason
    case DependencyRemoved => "dependency_removed"
    case UpToDate => "up_to_date"
    case UpdateNoLongerPossible => "update_no_longer_possible"
    case DependenciesChanged => "dependencies_changed"
  }

  /** `String#tr(from, to)` for one character. */
  function Tr(s: string, from: char, to: char): (r: string)
    ensures |r| == |s|
    ensures forall i :: 0 <= i < |s| ==> r[i] == (if s[i] == from then to else s[i])
  {
    if s == [] then [] else [if s[0] == from then to else s[0]] + Tr(s[1..], from, to)
  }

  /** Translating back undoes `tr` on a string that did not contain the target character. */
  lemma {:induction false} TrRoundTrip(s: string, from: char, to: char)
    requires to !in s
    ensures Tr(Tr(s, from, to), to, from) == s
    ensures from != to ==> from !in Tr(s, from, to)
  {
    if s != [] {
      TrRoundTrip(s[1..], from, to);
      assert s == [s[0]] + s[1..];
    }
  }

  /** The logged form of the reason: `reason.to_s.tr("_", " ")`. */
  function LoggedReason(reason: CloseReason): string
  {
    Tr(ReasonSymbol(reason), '_', ' ')
  }

  /** The logged form has no underscore, the same length, and gives the symbol back. */
  lemma LoggedReasonRoundTrip(reason: CloseReason)
    ensures '_' !in LoggedReason(reason)
    ensures |LoggedReason(reason)| == |ReasonSymbol(reason)|
    ensures Tr(LoggedReason(reason), ' ', '_') == ReasonSymbol(reason)
  {
    SymbolHasNoSpace(reason);
    TrRoundTrip(ReasonSymbol(reason), '_', ' ');
  }

  lemma SymbolHasNoSpace(reason: CloseReason)
    ensures ' ' !in ReasonSymbol(reason)
  {
  }

  /** Different reasons are logged differently. */
  lemma LoggedReasonsDiffer(a: CloseReason, b: CloseReason)
    requires a != b
    ensures LoggedReason(a) != LoggedReason(b)
  {
    SymbolLengthsDiffer(a, b);
    LoggedReasonRoundTrip(a);
    LoggedReasonRoundTrip(b);
  }

  /** The four symbols have four different lengths. */
  lemma SymbolLengthsDiffer(a: CloseReason, b: CloseReason)
    requires a != b
    ensures |ReasonSymbol(a)| != |ReasonSymbol(b)|
  {
  }

  // ---------------------------------------------------------------------
  // check_and_update_pull_request
  // ---------------------------------------------------------------------

  /** Every name, downcased, in order. */
  function LowerAll(names: seq<string>): (r: seq<string>)
    ensures |r| == |names|
    ensures forall i :: 0 <= i < |names| ==> r[i] == Lower(names[i])
  {
    if names == [] then [] else [Lower(names[0])] + LowerAll(names[1..])
  }

  /** The names of the dependencies, downcased, in order. */
  function LowerNames(deps: seq<Dependency>): (r: seq<string>)
    ensures |r| == |deps|
    ensures forall i :: 0 <= i < |deps| ==> r[i] == Lower(deps[i].name)
  {
    if deps == [] then [] else [Lower(deps[0].name)] + LowerNames(deps[1..])
  }

  /** Whether the job allows updating some of the parsed dependencies. */
  predicate AnyAllowed(job: Job, deps: seq<Dependency>)
  {
    exists d :: d in deps && job.allowedUpdate(d)
  }

  /** The first parsed dependency whose downcased name is the downcased first name of the job. */
  function LeadDependency(jobNames: seq<string>, deps: seq<Dependency>): (r: Option<Dependency>)
    requires jobNames != []
    ensures r.Some? ==> r.value in deps && Lower(r.value.name) == Lower(jobNames[0])
    ensures r.None? ==> forall d :: d in deps ==> Lower(d.name) != Lower(jobNames[0])
  {
    var leadName := Lower(jobNames[0]);
    var i := FirstIndex(deps, (d: Dependency) => Lower(d.name) == leadName);
    if i.Some? then Some(deps[i.value]) else None
  }

  /**
   * What `check_and_update_pull_request` does once it has a change: close and recreate when the
   * downcased names differ from the job's (in order), update the existing pull request for the
   * same dependencies, and supersede it otherwise.
   */
  function ChangeActions(job: Job, jobNames: seq<string>, change: seq<Dependency>, sha: string): seq<Action>
  {
    if LowerNames(change) != LowerAll(jobNames) then
      [ClosePullRequest(jobNames, DependenciesChanged), CreatePullRequest(change, sha)]
    else if ExistingPullRequest(job.existingPullRequests, change).Some? then
      [UpdatePullRequest(change, sha)]
    else
      [CreatePullRequest(change, sha)]
  }

  /**
   * The calls `check_and_update_pull_request` makes on the service, in order, or the error it
   * raises: `NoMethodError` for a job without a dependency list (`nil.count`), when an empty
   * list leaves no first dependency to log (`nil.name`) or when no parsed dependency is the lead
   * one (`nil.name`), and whatever the checker raises.
   */
  function Decision(job: Job, snapshot: Snapshot, checkerFor: Dependency -> Checker,
                    buildChange: seq<Dependency> -> seq<Dependency>): (r: Result<seq<Action>, DependabotError>)
    ensures job.dependencies.None? ==> r == Raise(NoMethodError)
    ensures r.Ok? ==> r.value != []
  {
    var deps := snapshot.jobDependencies;
    if job.dependencies.None? then Raise(NoMethodError)
    else
      var jobNames := job.dependencies.value;
      if |deps| != |jobNames| then Ok([ClosePullRequest(jobNames, DependencyRemoved)])
      else if !AnyAllowed(job, deps) then
        if deps == [] then Raise(NoMethodError) else Ok([ClosePullRequest(jobNames, UpToDate)])
      else
        var lead := LeadDependency(jobNames, deps);
        if lead.None? then Raise(NoMethodError)
        else
          var checker := checkerFor(lead.value);
          if checker.latestVersionRaises.Some? then Raise(checker.latestVersionRaises.value)
          else if checker.upToDate then Ok([ClosePullRequest(jobNames, UpToDate)])
          else
            var unlock := RequirementsToUnlock(checker);
            if unlock == UpdateNotPossible then Ok([ClosePullRequest(jobNames, UpdateNoLongerPossible)])
            else
              var change := buildChange(checker.updatedDependencies(unlock));
              Ok(ChangeActions(job, jobNames, change, snapshot.baseCommitSha))
  }

  /** A pull request whose dependencies were removed from the project is closed, and nothing else happens. */
  lemma CountMismatchCloses(job: Job, snapshot: Snapshot, checkerFor: Dependency -> Checker,
                            buildChange: seq<Dependency> -> seq<Dependency>)
    requires job.dependencies.Some? && |snapshot.jobDependencies| != |job.dependencies.value|
    ensures Decision(job, snapshot, checkerFor, buildChange) ==
      Ok([ClosePullRequest(job.dependencies.value, DependencyRemoved)])
  {
  }

  /**
   * When the job allows none of the dependencies to be updated (they are no longer vulnerable),
   * the pull request is closed as up to date before any checker is built, unless there is no
   * dependency at all: then logging the first one raises.
   */
  lemma NothingAllowedCloses(job: Job, snapshot: Snapshot, checkerFor: Dependency -> Checker,
                             buildChange: seq<Dependency> -> seq<Dependency>)
    requires job.dependencies.Some? && |snapshot.jobDependencies| == |job.dependencies.value|
    requires forall d :: d in snapshot.jobDependencies ==> !job.allowedUpdate(d)
    ensures snapshot.jobDependencies != [] ==>
      Decision(job, snapshot, checkerFor, buildChange) == Ok([ClosePullRequest(job.dependencies.value, UpToDate)])
    ensures snapshot.jobDependencies == [] ==> Decision(job, snapshot, checkerFor, buildChange) == Raise(NoMethodError)
  {
  }

  /** The steps before the checker: the counts agree, something is allowed, the lead is found. */
  predicate ReachesChecker(job: Job, snapshot: Snapshot)
  {
    && job.dependencies.Some?
    && |snapshot.jobDependencies| == |job.dependencies.value|
    && AnyAllowed(job, snapshot.jobDependencies)
    && job.dependencies.value != []
    && LeadDependency(job.dependencies.value, snapshot.jobDependencies).Some?
  }

  /** The checker of the lead dependency, once the decision reaches it. */
  function LeadChecker(job: Job, snapshot: Snapshot, checkerFor: Dependency -> Checker): Checker
    requires ReachesChecker(job, snapshot)
  {
    checkerFor(LeadDependency(job.dependencies.value, snapshot.jobDependencies).value)
  }

  /** With the counts agreeing and something allowed, the lists are non-empty and the lead is sought. */
  lemma LeadIsSought(job: Job, snapshot: Snapshot, checkerFor: Dependency -> Checker,
                     buildChange: seq<Dependency> -> seq<Dependency>)
    requires job.dependencies.Some? && |snapshot.jobDependencies| == |job.dependencies.value|
    requires AnyAllowed(job, snapshot.jobDependencies)
    ensures job.dependencies.value != []
    ensures LeadDependency(job.dependencies.value, snapshot.jobDependencies).None? ==>
      Decision(job, snapshot, checkerFor, buildChange) == Raise(NoMethodError)
    ensures LeadDependency(job.dependencies.value, snapshot.jobDependencies).Some? ==> ReachesChecker(job, snapshot)
  {
  }

  /** An error from the checker (such as `AllVersionsIgnored`) is raised again, with no call on the service. */
  lemma CheckerErrorRaised(job: Job, snapshot: Snapshot, checkerFor: Dependency -> Checker,
                           buildChange: seq<Dependency> -> seq<Dependency>)
    requires ReachesChecker(job, snapshot)
    requires LeadChecker(job, snapshot, checkerFor).latestVersionRaises.Some?
    ensures Decision(job, snapshot, checkerFor, buildChange) ==
      Raise(LeadChecker(job, snapshot, checkerFor).latestVersionRaises.value)
  {
  }

  /** An up-to-date lead dependency closes the pull request as up to date. */
  lemma UpToDateCloses(job: Job, snapshot: Snapshot, checkerFor: Dependency -> Checker,
                       buildChange: seq<Dependency> -> seq<Dependency>)
    requires ReachesChecker(job, snapshot)
    requires LeadChecker(job, snapshot, checkerFor).latestVersionRaises.None?
    requires LeadChecker(job, snapshot, checkerFor).upToDate
    ensures Decision(job, snapshot, checkerFor, buildChange) ==
      Ok([ClosePullRequest(job.dependencies.value, UpToDate)])
  {
  }

  /** When no unlock level lets the checker update, the pull request is closed as no longer possible. */
  lemma UpdateNotPossibleCloses(job: Job, snapshot: Snapshot, checkerFor: Dependency -> Checker,
                                buildChange: seq<Dependency> -> seq<Dependency>)
    requires ReachesChecker(job, snapshot)
    requires var c := LeadChecker(job, snapshot, checkerFor);
      && c.latestVersionRaises.None? && !c.upToDate && RequirementsToUnlock(c) == UpdateNotPossible
    ensures Decision(job, snapshot, checkerFor, buildChange) ==
      Ok([ClosePullRequest(job.dependencies.value, UpdateNoLongerPossible)])
  {
  }

  /**
   * Once an update is possible, the change is built from the checker's updated dependencies at
   * the chosen level, and: a change whose downcased names differ from the job's (order matters)
   * closes the pull request and opens a new one; otherwise the matching existing pull request is
   * updated, and without one a new pull request supersedes the old.
   */
  lemma ChangeDecides(job: Job, snapshot: Snapshot, checkerFor: Dependency -> Checker,
                      buildChange: seq<Dependency> -> seq<Dependency>)
    requires ReachesChecker(job, snapshot)
    requires var c := LeadChecker(job, snapshot, checkerFor);
      && c.latestVersionRaises.None? && !c.upToDate && RequirementsToUnlock(c) != UpdateNotPossible
    ensures var c := LeadChecker(job, snapshot, checkerFor);
      var change := buildChange(c.updatedDependencies(RequirementsToUnlock(c)));
      var names := job.dependencies.value;
      var sha := snapshot.baseCommitSha;
      && (LowerNames(change) != LowerAll(names) ==>
           Decision(job, snapshot, checkerFor, buildChange) ==
             Ok([ClosePullRequest(names, DependenciesChanged), CreatePullRequest(change, sha)]))
      && (LowerNames(change) == LowerAll(names) && ExistingPullRequest(job.existingPullRequests, change).Some? ==>
           Decision(job, snapshot, checkerFor, buildChange) == Ok([UpdatePullRequest(change, sha)]))
      && (LowerNames(change) == LowerAll(names) && ExistingPullRequest(job.existingPullRequests, change).None? ==>
           Decision(job, snapshot, checkerFor, buildChange) == Ok([CreatePullRequest(change, sha)]))
  {
  }

  /**
   * Whatever happens, at most one pull request is closed (always the job's, by name), at most one
   * is created or updated, a close with `dependencies_changed` is followed by a creation, and an
   * update is only sent for a change naming the job's dependencies in order.
   */
  lemma {:induction false} DecisionShape(job: Job, snapshot: Snapshot, checkerFor: Dependency -> Checker,
                                         buildChange: seq<Dependency> -> seq<Dependency>)
    ensures var d := Decision(job, snapshot, checkerFor, buildChange);
      d.Ok? ==>
        && job.dependencies.Some?
        && 1 <= |d.value| <= 2
        && (forall k :: 0 <= k < |d.value| && d.value[k].ClosePullRequest? ==>
              k == 0 && d.value[k].dependencies == job.dependencies.value)
        && (|d.value| == 2 ==>
              d.value[0] == ClosePullRequest(job.dependencies.value, DependenciesChanged) &&
              d.value[1].CreatePullRequest?)
        && (d.value[0].ClosePullRequest? && d.value[0].reason == DependenciesChanged ==> |d.value| == 2)
        && (forall k :: 0 <= k < |d.value| && d.value[k].UpdatePullRequest? ==>
              LowerNames(d.value[k].updated) == LowerAll(job.dependencies.value) &&
              ExistingPullRequest(job.existingPullRequests, d.value[k].updated).Some?)
  {
    var d := Decision(job, snapshot, checkerFor, buildChange);
    if d.Ok? && job.dependencies.Some? && |snapshot.jobDependencies| == |job.dependencies.value| &&
       AnyAllowed(job, snapshot.jobDependencies) {
      LeadIsSought(job, snapshot, checkerFor, buildChange);
      if ReachesChecker(job, snapshot) {
        var c := LeadChecker(job, snapshot, checkerFor);
        if c.latestVersionRaises.None? && !c.upToDate && RequirementsToUnlock(c) != UpdateNotPossible {
          ChangeDecides(job, snapshot, checkerFor, buildChange);
        }
      }
    }
  }

  // ---------------------------------------------------------------------
  // The service, the error handler and the operation
  // ---------------------------------------------------------------------

  /** The backend service: records the calls it receives. */
  class Service {
    var actions: seq<Action>

    constructor ()
      ensures actions == []
    {
      actions := [];
    }

    /** `service.close_pull_request(job.dependencies, reason)`. */
    method ClosePullRequest(dependencies: seq<string>, reason: CloseReason)
      modifies this
      ensures actions == old(actions) + [Action.ClosePullRequest(dependencies, reason)]
    {
      actions := actions + [Action.ClosePullRequest(dependencies, reason)];
    }

    /** `service.create_pull_request(dependency_change, base_commit_sha)`. */
    method CreatePullRequest(updated: seq<Dependency>, baseCommitSha: string)
      modifies this
      ensures actions == old(actions) + [Action.CreatePullRequest(updated, baseCommitSha)]
    {
      actions := actions + [Action.CreatePullRequest(updated, baseCommitSha)];
    }

    /** `service.update_pull_request(dependency_change, base_commit_sha)`. */
    method UpdatePullRequest(updated: seq<Dependency>, baseCommitSha: string)
      modifies this
      ensures actions == old(actions) + [Action.UpdatePullRequest(updated, baseCommitSha)]
    {
      actions := actions + [Action.UpdatePullRequest(updated, baseCommitSha)];
    }
  }

  /** A handled error and the dependency it is reported against. */
  datatype HandledError = HandledError(error: DependabotError, dependency: Option<Dependency>)

  /** The error handler: records the errors it is given. */
  class ErrorHandler {
    var handled: seq<HandledError>

    constructor ()
      ensures handled == []
    {
      handled := [];
    }

    /** `handle_dependency_error(error:, dependency:)`. */
    method HandleDependencyError(error: DependabotError, dependency: Option<Dependency>)
      modifies this
      ensures handled == old(handled) + [HandledError(error, dependency)]
    {
      handled := handled + [HandledError(error, dependency)];
    }
  }

  /**
   * `check_and_update_pull_request`: makes the calls `Decision` lists on the service, or makes
   * none and returns the error it raises.
   */
  method CheckAndUpdatePullRequest(service: Service, job: Job, snapshot: Snapshot,
                                   checkerFor: Dependency -> Checker,
                                   buildChange: seq<Dependency> -> seq<Dependency>)
    returns (error: Option<DependabotError>)
    modifies service
    ensures var d := Decision(job, snapshot, checkerFor, buildChange);
      && (d.Ok? ==> error.None? && service.actions == old(service.actions) + d.value)
      && (d.Raise? ==> error == Some(d.error) && service.actions == old(service.actions))
  {
    var dependencies := snapshot.jobDependencies;
    if job.dependencies.None? {
      return Some(NoMethodError);
    }
    var jobNames := job.dependencies.value;
    if |dependencies| != |jobNames| {
      service.ClosePullRequest(jobNames, DependencyRemoved);
      return None;
    }
    if !AnyAllowed(job, dependencies) {
      if dependencies == [] {
        return Some(NoMethodError);
      }
      service.ClosePullRequest(jobNames, UpToDate);
      return None;
    }
    var lead := LeadDependency(jobNames, dependencies);
    if lead.None? {
      return Some(NoMethodError);
    }
    var checker := checkerFor(lead.value);
    if checker.latestVersionRaises.Some? {
      return checker.latestVersionRaises;
    }
    if checker.upToDate {
      service.ClosePullRequest(jobNames, UpToDate);
      return None;
    }
    var unlock := RequirementsToUnlock(checker);
    if unlock == UpdateNotPossible {
      service.ClosePullRequest(jobNames, UpdateNoLongerPossible);
      return None;
    }
    var change := buildChange(checker.updatedDependencies(unlock));
    var sha := snapshot.baseCommitSha;
    if LowerNames(change) != LowerAll(jobNames) {
      service.ClosePullRequest(jobNames, DependenciesChanged);
      service.CreatePullRequest(change, sha);
    } else if ExistingPullRequest(job.existingPullRequests, change).Some? {
      service.UpdatePullRequest(change, sha);
    } else {
      service.CreatePullRequest(change, sha);
    }
    return None;
  }

  /** `dependencies.last`. */
  function LastDependency(deps: seq<Dependency>): (r: Option<Dependency>)
    ensures r.None? <==> deps == []
    ensures r.Some? ==> r.value == deps[|deps| - 1]
  {
    if deps == [] then None else Some(deps[|deps| - 1])
  }

  /**
   * `perform`: runs the check and hands any error it raises to the error handler, against the
   * last of the parsed dependencies.
   */
  method Perform(service: Service, errorHandler: ErrorHandler, job: Job, snapshot: Snapshot,
                 checkerFor: Dependency -> Checker, buildChange: seq<Dependency> -> seq<Dependency>)
    modifies service, errorHandler
    ensures var d := Decision(job, snapshot, checkerFor, buildChange);
      && (d.Ok? ==> service.actions == old(service.actions) + d.value && errorHandler.handled == old(errorHandler.handled))
      && (d.Raise? ==>
            && service.actions == old(service.actions)
            && errorHandler.handled == old(errorHandler.handled) +
                 [HandledError(d.error, LastDependency(snapshot.jobDependencies))])
  {
    var dependency := LastDependency(snapshot.jobDependencies);
    var error := CheckAndUpdatePullRequest(service, job, snapshot, checkerFor, buildChange);
    if error.Some? {
      errorHandler.HandleDependencyError(error.value, dependency);
    }
  }

  // ---------------------------------------------------------------------
  // A job without a dependency list
  // ---------------------------------------------------------------------

  /**
   * `applies_to?` as written accepts a security-only job that updates a pull request but carries
   * no dependency list, and for that job the check raises `NoMethodError` (`nil.count`) whatever
   * the project holds.
   */
  lemma MissingDependencyListApplies(snapshot: Snapshot, checkerFor: Dependency -> Checker,
                                     buildChange: seq<Dependency> -> seq<Dependency>)
    ensures var job := Job(true, None, true, [], (d: Dependency) => true);
      AppliesTo(job) && Decision(job, snapshot, checkerFor, buildChange) == Raise(NoMethodError)
  {
  }

  /** `applies_to?` as its comment describes it: the job must carry a non-empty dependency list. */
  predicate AppliesToWithMetadata(job: Job)
  {
    && job.securityUpdatesOnly
    && job.dependencies.Some? && job.dependencies.value != []
    && job.updatingAPullRequest
  }

  /**
   * For a job the corrected guard accepts, the check raises only when no parsed dependency is the
   * lead one or the checker raises: it never fails on the job's dependency list itself.
   */
  lemma WithMetadataOnlyCheckerOrLeadRaise(job: Job, snapshot: Snapshot, checkerFor: Dependency -> Checker,
                                           buildChange: seq<Dependency> -> seq<Dependency>)
    requires AppliesToWithMetadata(job)
    ensures AppliesTo(job)
    ensures var d := Decision(job, snapshot, checkerFor, buildChange);
      d.Raise? ==>
        if ReachesChecker(job, snapshot) then LeadChecker(job, snapshot, checkerFor).latestVersionRaises == Some(d.error)
        else d.error == NoMethodError && LeadDependency(job.dependencies.value, snapshot.jobDependencies).None?
  {
  }
}
