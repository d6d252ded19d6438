# Dependabot decision rules, modelled in Dafny

Dependabot keeps a project's dependencies up to date. For each package ecosystem it finds the
versions available to a dependency, picks the one to move to, rewrites the requirement or the
build file that pins it, and opens, updates or closes the pull request that proposes the
change. Most of that code is orchestration around registries, shell commands and file
parsers. This project models the deterministic rules beneath it and proves what they promise:

- **Requirement rewriting**: the Elm requirements updater keeps, widens or re-pins each
  requirement string (`ElmRequirementsUpdater`).
- **Version selection**: the NuGet version finder, the Go modules latest-version finder, the
  GitHub Actions update checker and the Pub update checker. Each filters candidate versions
  (prereleases, ignored, vulnerable, not above the current one), then takes a maximum, a
  minimum or the first compatible entry. The ignore rules also decide when `AllVersionsIgnored`
  is raised (`NugetVersionFinder`, `GoLatestVersionFinder`, `GithubActionsUpdateChecker`,
  `PubUpdateChecker`).
- **NuGet graph and MSBuild editing**:
  - the transitive-dependency walk over `.nuspec` files, which only ever raises a package's
    recorded version (`NugetDependencyFinder`);
  - the SDK-style project updater. It classifies every version node and property, follows
    property references through a de-duplicated worklist, merges peer versions across target
    frameworks and pins transitive dependencies in `Directory.Packages.props`
    (`SdkPackageUpdater`).
- **Configuration and file-list builders**:
  - the `.npmrc` registry and authentication lines (`NpmrcBuilder`);
  - Maven property resolution through ever more path-like names, `${...}` indirection and
    parent POMs (`MavenPropertyValueFinder`);
  - Composer 1/2 detection through the package-name grammars (`ComposerHelpers`);
  - Bundler's ordering of prepared files (`BundlerFilePreparer`).
- **Refreshing a security pull request**: the decision that closes, creates or updates the
  pull request from what the update checker reports (`RefreshSecurityUpdatePullRequest`).

Code that works by plain computation is modelled as functions and lemmas. Code that changes
state step by step is modelled as imperative Dafny:
- the loops of the SDK updater, the NuGet walk and the `.npmrc` builder are methods;
- the project's build files, the service and the error handler are classes whose methods
  update their fields;
- each such method is proved against a specification function, and the properties of that
  function are proved as lemmas.

Versions belong to classes that are not part of this model. They are an abstract strict total
order, with `prerelease?` and `release` projections where the rules use them. Registry
listings, git facts, MSBuild answers and parsed XML, JSON or YAML are inputs. Shared
helpers live in `Wrappers` (`Option`, `Result`, the error kinds), `Text` (Ruby and C# string
operations, with `^` and `$` as line anchors) and `Versions` (order-preserving filters, `find`,
`max_by`, `min_by` and `sort_by`).

## Model

| member | source | states |
|---|---|---|
| ElmRequirementsUpdater.UpdatedRequirements | elm/lib/dependabot/elm/update_checker/requirements_updater.rb:16-37 | without a target version, or with one that is not a valid Elm version, the list comes back unchanged; otherwise it keeps its length and order and each entry differs from its input only in `:requirement`, which is the updated requirement for the target version |
| ElmRequirementsUpdater.UpdateRequirement | elm/lib/dependabot/elm/update_checker/requirements_updater.rb:44-54 | a satisfied requirement is returned verbatim; an unsatisfied `A <= v < B` range becomes a range that matches again with minimum `A` and cap `(major+1).0.0`; a bare `x.y.z` becomes the new version; anything else becomes `V <= v <= V` |
| ElmRequirementsUpdater.FirstRangeFrom | elm/lib/dependabot/elm/update_checker/requirements_updater.rb:12-13 | the unanchored range pattern matches at the returned position and at no earlier one; no result means no position matches |
| ElmRequirementsUpdater.RangeMatchParts | elm/lib/dependabot/elm/update_checker/requirements_updater.rb:12-14 | both groups of a range match are whole `\d+\.\d+\.\d+` versions |
| ElmRequirementsUpdater.RangeRoundTrip | elm/lib/dependabot/elm/update_checker/requirements_updater.rb:56-59 | the text `require_range` writes is matched by the range pattern again, with the same minimum and the new cap |
| ElmRequirementsUpdater.CapIsSingleVersion | elm/lib/dependabot/elm/update_checker/requirements_updater.rb:57-58 | the cap `N.0.0` is itself a whole version |
| ElmRequirementsUpdater.TripleEmbedded | elm/lib/dependabot/elm/update_checker/requirements_updater.rb:12-14 | a whole version copied into a longer string, before a non-digit, is read back as the same triple |
| GithubActionsUpdateChecker.ShortenedSemverEq | github_actions/lib/dependabot/github_actions/update_checker.rb:245-253 | false for a nil base; otherwise true exactly when the base's dot-parts are a prefix of the other's (so a base with more parts is never equal); agrees with the code as written for every base that has at least one dot-part |
| GithubActionsUpdateChecker.ShortenedSemverEqAsWritten | github_actions/lib/dependabot/github_actions/update_checker.rb:245-253 | as written: false for a nil base; for a base with at least one dot-part, true exactly when its parts are a prefix of the other's |
| GithubActionsUpdateChecker.ShortenedSemverEqReflexiveTransitive | github_actions/lib/dependabot/github_actions/update_checker.rb:245-253 | every version is a shortened form of itself, and being a shortened form is transitive |
| GithubActionsUpdateChecker.ShortenedSemverEqAsWrittenEmptyBase | github_actions/lib/dependabot/github_actions/update_checker.rb:248-252 | for the base `""` and the other `"1"`, the code as written answers false although the base's (empty) list of parts is a prefix of the other's |
| GithubActionsUpdateChecker.FilterLowerTags | github_actions/lib/dependabot/github_actions/update_checker.rb:175-180 | the identity without a current version; otherwise exactly the tags strictly above it, in their original order |
| GithubActionsUpdateChecker.FindLowestSecureVersion | github_actions/lib/dependabot/github_actions/update_checker.rb:134-139 | nil exactly when no tag is non-vulnerable and above the current version; otherwise such a tag from the list, with no such tag below it |
| GithubActionsUpdateChecker.LowestSecurityFixVersionTag | github_actions/lib/dependabot/github_actions/update_checker.rb:121-132 | a secure tag among the precision-matching tags is chosen whenever one exists; the fallback to all allowed tags is used only otherwise; nil exactly when neither list has a secure tag |
| GithubActionsUpdateChecker.FetchLowestSecurityFixVersion | github_actions/lib/dependabot/github_actions/update_checker.rb:110-119 | nil for a non-git dependency; for a git dependency, the version of the lowest secure tag, and `NoMethodError` (`nil.fetch`) exactly when there is none |
| GithubActionsUpdateChecker.LatestVersionTag | github_actions/lib/dependabot/github_actions/update_checker.rb:164-173 | with no dependency version, the latest tag; otherwise the precision-matching ref or the lower-precision ref, the former only when it is strictly above the current version and the latter whenever it is not; `ArgumentError` exactly when there is a version and a precision-matching ref but no parsed current version |
| GithubActionsUpdateChecker.LatestVersionTagPrefersPrecision | github_actions/lib/dependabot/github_actions/update_checker.rb:168-169 | a precision-matching ref strictly above the current version is always the one chosen |
| GithubActionsUpdateChecker.LatestCommitSha | github_actions/lib/dependabot/github_actions/update_checker.rb:209-218 | the raise of `latest_version_tag` escapes; nil without a latest tag; the tag's commit when the pinned SHA has a local tag; the latest commit for the pinned ref otherwise |
| GithubActionsUpdateChecker.UpdatedRef | github_actions/lib/dependabot/github_actions/update_checker.rb:182-207 | nil for a non-git dependency; a vulnerable dependency with a security fix tag gets that tag; otherwise a version-like pin gets the latest version tag whenever there is one; any other result is that tag or the latest commit of a SHA pin; a pin that is neither gets only the security fix; raises exactly when `latest_version_tag` is consulted and raises |
| GithubActionsUpdateChecker.UpdatedRequirement | github_actions/lib/dependabot/github_actions/update_checker.rb:42-59 | raises exactly when `updated_ref` does; unchanged when there is no new ref or when a short SHA is a prefix of the new SHA; otherwise the same requirement with `source[:ref]` set to the new ref |
| GithubActionsUpdateChecker.UpdatedRequirements | github_actions/lib/dependabot/github_actions/update_checker.rb:41-60 | raises exactly when some requirement's update raises, with the first such error; otherwise the same length and order, each element the updated requirement of its input |
| GithubActionsUpdateChecker.FetchLatestVersionForGitDependency | github_actions/lib/dependabot/github_actions/update_checker.rb:86-108 | an unpinned dependency gets the head commit of its branch; a pin that looks like neither a version nor a SHA, or no latest tag, gives nil; a version-like pin gets the latest tag's version, or the current version (nil when absent) when the dependency version is a shortened form of it; a SHA pin gets the tag's version when the SHA is tagged, else the latest commit for the pinned ref; a raise of `latest_version_tag` escapes |
| GithubActionsUpdateChecker.FetchLatestVersion | github_actions/lib/dependabot/github_actions/update_checker.rb:79-84 | nil for a non-git dependency, otherwise the git dependency's latest version or its raise |
| GoLatestVersionFinder.FilterPrereleaseVersions | go_modules/lib/dependabot/go_modules/update_checker/latest_version_finder.rb:146-155 | the identity when the current version is a prerelease; otherwise exactly the non-prereleases, in order |
| GoLatestVersionFinder.FilterLowerVersions | go_modules/lib/dependabot/go_modules/update_checker/latest_version_finder.rb:157-162 | the identity without a numeric current version; otherwise exactly the versions strictly above it, in order |
| GoLatestVersionFinder.FilterIgnoredVersions | go_modules/lib/dependabot/go_modules/update_checker/latest_version_finder.rb:164-177 | raises `AllVersionsIgnored` exactly when raising is enabled, some version is above the current one and every such version is ignored; otherwise exactly the versions no ignore requirement is satisfied by, in order |
| GoLatestVersionFinder.FetchLatestVersion | go_modules/lib/dependabot/go_modules/update_checker/latest_version_finder.rb:35-73 | raises exactly when the ignore filter does; otherwise the greatest candidate that survives the prerelease and ignore filters, or the pseudo-version current version, and never below a pseudo-version current version; nil only when no version survives |
| GoLatestVersionFinder.FetchLowestSecurityFixVersion | go_modules/lib/dependabot/go_modules/update_checker/latest_version_finder.rb:75-84 | raises exactly when the ignore filter does on the non-vulnerable candidates; otherwise the least version that passes the prerelease filter, is not vulnerable, not ignored and strictly above the current version, and nil exactly when there is none |
| GoLatestVersionFinder.TransitoryWherever | go_modules/lib/dependabot/go_modules/update_checker/latest_version_finder.rb:127-131 | a message containing `EOF` or `Internal Server Error` anywhere is a transitory failure |
| MavenPropertyValueFinder.LastAtIsLast | maven/lib/dependabot/maven/file_parser/property_value_finder.rb:39-41 | `xpath(...).last`: nil exactly when no element sits at the path; otherwise an element at the path with none after it |
| MavenPropertyValueFinder.FirstAtIsFirst | maven/lib/dependabot/maven/file_parser/property_value_finder.rb:97-100 | `at_xpath`: nil exactly when no element sits at the path; otherwise the first element at the path |
| MavenPropertyValueFinder.LookupOrder | maven/lib/dependabot/maven/file_parser/property_value_finder.rb:38-41 | `/project/<nm>` wins, then `/project/properties/<name>`, then the profiles' properties, each the last match; nothing is found exactly when no element sits at any of the three paths |
| MavenPropertyValueFinder.RemoveAtLineStartLeftmost | maven/lib/dependabot/maven/file_parser/property_value_finder.rb:90 | `sub(/^p/, "")`: unchanged when `p` occurs at no line start; otherwise exactly the leftmost occurrence at a line start is removed |
| MavenPropertyValueFinder.SanitizeDropsPrefixes | maven/lib/dependabot/maven/file_parser/property_value_finder.rb:89-91 | on a one-line name, a leading `pom.` is dropped and then a leading `project.` |
| MavenPropertyValueFinder.SeparatorDotFrom | maven/lib/dependabot/maven/file_parser/property_value_finder.rb:20 | the leftmost dot that is not followed by digits and then a separator or the end; none exactly when no dot qualifies |
| MavenPropertyValueFinder.Substitute | maven/lib/dependabot/maven/file_parser/property_value_finder.rb:46 | replacing that dot by `/` changes only that character and lowers the number of dots, which bounds the loop |
| MavenPropertyValueFinder.Candidates | maven/lib/dependabot/maven/file_parser/property_value_finder.rb:35-50 | the names the loop tries: the sanitized name first, each next one with its first separator dot replaced, the last one with no separator dot left |
| MavenPropertyValueFinder.FirstHit | maven/lib/dependabot/maven/file_parser/property_value_finder.rb:36-44 | the lookup of the first candidate that finds a node, and nil exactly when no candidate does |
| MavenPropertyValueFinder.NodeForFirstHit | maven/lib/dependabot/maven/file_parser/property_value_finder.rb:35-50 | the loop's node is the first hit over the candidate names |
| MavenPropertyValueFinder.PropertiesFoundFirst | maven/lib/dependabot/maven/file_parser/property_value_finder.rb:38-43 | when `/project/properties/<name>` exists the loop stops on its first candidate |
| MavenPropertyValueFinder.FindNode | maven/lib/dependabot/maven/file_parser/property_value_finder.rb:35-50 | the loop that rewrites `nm` until a node is found or no separator dot remains returns the first hit over the candidates |
| MavenPropertyValueFinder.ParentPomChoice | maven/lib/dependabot/maven/file_parser/property_value_finder.rb:94-120 | nil without a parent groupId and artifactId; an internal pom under `group:artifact` is preferred; a remote parent is fetched only with a version containing no comma, from the pom's own repository urls |
| MavenPropertyValueFinder.NextStep | maven/lib/dependabot/maven/file_parser/property_value_finder.rb:52-70 | a found plain value is answered with the pom's own file name; a found value starting with `${` that does not name the property itself continues with the referenced property in the same pom; without a node the parent pom is asked, and nil is answered when there is none |
| MavenPropertyValueFinder.Details | maven/lib/dependabot/maven/file_parser/property_value_finder.rb:28-70 | every answer is a stripped value, or nil, or a raised error |
| MavenPropertyValueFinder.PropertyDetailsOf | maven/lib/dependabot/maven/file_parser/property_value_finder.rb:28-87 | the recursive `property_details` returns the resolution `Details` describes |
| MavenPropertyValueFinder.SelfReferenceRaises | maven/lib/dependabot/maven/file_parser/property_value_finder.rb:52-83 | a value `${name}` naming the property itself raises `DependencyFileNotParseable` for the pom's file |
| MavenPropertyValueFinder.ReferenceFollowed | maven/lib/dependabot/maven/file_parser/property_value_finder.rb:52-86 | a found value `${other}` that does not name the property itself gives exactly the answer for the property `other` in the same pom, with one level of nesting less |
| MavenPropertyValueFinder.PlainValueReturned | maven/lib/dependabot/maven/file_parser/property_value_finder.rb:61 | a found value not starting with `${` is returned stripped, with the pom's name |
| MavenPropertyValueFinder.NotFoundAsksParent | maven/lib/dependabot/maven/file_parser/property_value_finder.rb:63-69 | when no candidate finds a node the answer is nil without a parent pom, and the parent's answer otherwise |
| MavenPropertyValueFinder.FuelMonotone | maven/lib/dependabot/maven/file_parser/property_value_finder.rb:53-86 | an answer reached within the recursion bound stays the same under any larger bound |
| NpmrcBuilder.RegistryCredentials | npm_and_yarn/lib/dependabot/npm_and_yarn/file_updater/npmrc_builder.rb:309-311 | exactly the credentials of type `npm_registry`, in order |
| NpmrcBuilder.Auth | npm_and_yarn/lib/dependabot/npm_and_yarn/file_updater/npmrc_builder.rb:246-254 | a token that is, or decodes to, `user:password` gives an `_auth=` line; any other token gives `_authToken=<token>` |
| NpmrcBuilder.WithTrailingSlash | npm_and_yarn/lib/dependabot/npm_and_yarn/file_updater/npmrc_builder.rb:260 | a one-line registry ends in exactly one added `/`: unchanged when it already ends in one |
| NpmrcBuilder.AuthLine | npm_and_yarn/lib/dependabot/npm_and_yarn/file_updater/npmrc_builder.rb:245-263 | the bare auth without a registry; otherwise `//` + the registry with its trailing slash + `:` + the auth |
| NpmrcBuilder.BasicAuthLineMentionsAuth | npm_and_yarn/lib/dependabot/npm_and_yarn/file_updater/npmrc_builder.rb:239-251 | an `_auth=` line contains `auth=`, so it triggers `always-auth` |
| NpmrcBuilder.TokenAuthLineOmitsAuth | npm_and_yarn/lib/dependabot/npm_and_yarn/file_updater/npmrc_builder.rb:239-253 | an `_authToken=` line (for a token and registry without `=`) does not contain `auth=` |
| NpmrcBuilder.GlobalRegistry | npm_and_yarn/lib/dependabot/npm_and_yarn/file_updater/npmrc_builder.rb:88-110 | the first registry credential that passes the global test, never a central registry; nil exactly when no credential passes |
| NpmrcBuilder.WithScheme | npm_and_yarn/lib/dependabot/npm_and_yarn/file_updater/npmrc_builder.rb:72-183 | the registry starts with `http` afterwards; it is unchanged when it already did, and `https://` is prefixed otherwise |
| NpmrcBuilder.NpmrcGlobalRegistryAuthLine | npm_and_yarn/lib/dependabot/npm_and_yarn/file_updater/npmrc_builder.rb:112-119 | empty exactly when the global registry has no token; otherwise its auth line and a newline |
| NpmrcBuilder.YarnrcGlobalRegistryAuthLine | npm_and_yarn/lib/dependabot/npm_and_yarn/file_updater/npmrc_builder.rb:121-134 | empty exactly without a token; `npmAuthIdent` for a basic-auth token and `npmAuthToken: "<token>"` otherwise |
| NpmrcBuilder.BuildNpmrcContentFromLockfile | npm_and_yarn/lib/dependabot/npm_and_yarn/file_updater/npmrc_builder.rb:68-77 | present exactly when there is a lockfile and a global registry; it then starts `registry = http` and ends `always-auth = true` |
| NpmrcBuilder.CompleteNpmrcFromCredentials | npm_and_yarn/lib/dependabot/npm_and_yarn/file_updater/npmrc_builder.rb:176-188 | always the `.npmrc` minus its interpolated lines, stripped, plus a newline; with a lockfile and a global registry, followed by `registry = ` and the registry with a scheme, the global auth line and `always-auth = true`, each ending in a newline |
| NpmrcBuilder.DropInterpolatedLines | npm_and_yarn/lib/dependabot/npm_and_yarn/file_updater/npmrc_builder.rb:178 | text of one line is emptied when it holds `${` followed later by `}`, and is kept as it is otherwise |
| NpmrcBuilder.BuildNpmrcFromYarnrc | npm_and_yarn/lib/dependabot/npm_and_yarn/file_updater/npmrc_builder.rb:202-212 | a global registry in `.yarnrc` gives `registry = <it>`; without one, the lockfile-derived content |
| NpmrcBuilder.OtherRegistries | npm_and_yarn/lib/dependabot/npm_and_yarn/file_updater/npmrc_builder.rb:287-289 | exactly the other credentials' registries |
| NpmrcBuilder.AffectedUrls | npm_and_yarn/lib/dependabot/npm_and_yarn/file_updater/npmrc_builder.rb:290-296 | exactly the dependency URLs that include the registry and include no longer registry that contains it |
| NpmrcBuilder.AffectedScopes | npm_and_yarn/lib/dependabot/npm_and_yarn/file_updater/npmrc_builder.rb:298-300 | the scopes of the affected URLs, without repetition |
| NpmrcBuilder.AffectedScopesAre | npm_and_yarn/lib/dependabot/npm_and_yarn/file_updater/npmrc_builder.rb:290-300 | a scope is listed exactly when some affected dependency URL has it |
| NpmrcBuilder.RegistryScopes | npm_and_yarn/lib/dependabot/npm_and_yarn/file_updater/npmrc_builder.rb:282-306 | nil for a central registry, nil exactly when some affected URL is unscoped, otherwise one `@scope:registry=https://<registry>` line per affected scope |
| NpmrcBuilder.RegistryScopesDistinct | npm_and_yarn/lib/dependabot/npm_and_yarn/file_updater/npmrc_builder.rb:298-305 | the scope lines are all different |
| NpmrcBuilder.CredentialLinesForNpmrc | npm_and_yarn/lib/dependabot/npm_and_yarn/file_updater/npmrc_builder.rb:226-243 | the loop collects every credential's scope lines and auth line in order, and `always-auth = true` is put first exactly when some line contains `auth=` |
| NpmrcBuilder.AddLine | npm_and_yarn/lib/dependabot/npm_and_yarn/file_updater/npmrc_builder.rb:40-42 | a line already contained leaves the content unchanged; otherwise the line is the new content when it was empty, else it follows the content after a newline; either way the result contains the line and starts with the old content |
| NpmrcBuilder.AddLinesKeepsAll | npm_and_yarn/lib/dependabot/npm_and_yarn/file_updater/npmrc_builder.rb:39-43 | after all lines are added the content starts with the initial content and contains every line |
| NpmrcBuilder.AppendMissingLines | npm_and_yarn/lib/dependabot/npm_and_yarn/file_updater/npmrc_builder.rb:39-45 | the loop that skips lines already present and joins the rest with newlines computes `AddLines` |
| NpmrcBuilder.NpmrcContent | npm_and_yarn/lib/dependabot/npm_and_yarn/file_updater/npmrc_builder.rb:27-46 | the initial content (or `""`) when there is no registry credential; otherwise exactly the initial content with each credential line (after `always-auth = true` when one has `auth=`) added in turn by `AddLine`, so that it starts with the initial content and contains every credential line |
| NugetDependencyFinder.FirstOpening | nuget/lib/dependabot/nuget/update_checker/dependency_finder.rb:208-209 | the leftmost `[` or `(` followed by a digit, and none exactly when no position qualifies |
| NugetDependencyFinder.VersionTokenShape | nuget/lib/dependabot/nuget/update_checker/dependency_finder.rb:208 | the text read from a digit on is a whole `\d+(\.\d+)*(-\w+(\.\d+)*)?` token |
| NugetDependencyFinder.RangeVersionIs | nuget/lib/dependabot/nuget/update_checker/dependency_finder.rb:208-215 | without an opening bracket before a digit the version is the whole range string; otherwise it is a version token read right after the leftmost such bracket |
| NugetDependencyFinder.RangeVersion | nuget/lib/dependabot/nuget/update_checker/dependency_finder.rb:208-215 | the version read is never longer than the range; when an opening bracket precedes a digit, it starts with that digit |
| NugetDependencyFinder.AnyAllowedIsExists | nuget/lib/dependabot/nuget/update_checker/dependency_finder.rb:247-260 | some value equals `all`, `compile`, `native` or `runtime` ignoring case exactly when the recursive test says so |
| NugetDependencyFinder.NuspecDependenciesAre | nuget/lib/dependabot/nuget/update_checker/dependency_finder.rb:249-274 | a dependency is read exactly when some element keeps it under the include/exclude rules (no attribute keeps; `include` keeps iff a value is allowed; only `exclude` keeps iff none is) and has a `version` attribute, with that id and range |
| NugetDependencyFinder.NuspecDependencies | nuget/lib/dependabot/nuget/update_checker/dependency_finder.rb:249-272 | at most one dependency per element of the `.nuspec` |
| NugetDependencyFinder.ListsDependencyStep | nuget/lib/dependabot/nuget/update_checker/dependency_finder.rb:264-274 | the membership characterization survives appending one more element |
| NugetDependencyFinder.ReadDependenciesFromNuspec | nuget/lib/dependabot/nuget/update_checker/dependency_finder.rb:244-275 | the loop that appends each kept element with a version attribute computes the nuspec's dependencies |
| NugetDependencyFinder.FetchDependencies | nuget/lib/dependabot/nuget/update_checker/dependency_finder.rb:227-242 | the nuspec lookup is keyed by the lower-cased id and the version, and gives no dependencies for a missing nuspec |
| NugetDependencyFinder.StoreGrows | nuget/lib/dependabot/nuget/update_checker/dependency_finder.rb:219-222 | storing an entry that is new or strictly higher only raises versions and strictly shrinks the set of (id, version) pairs still to be expanded |
| NugetDependencyFinder.StoreKeepsValid | nuget/lib/dependabot/nuget/update_checker/dependency_finder.rb:219-223 | storing keeps the map keyed by lower-cased id, its key order and the expanded pairs consistent, each pair expanded once |
| NugetDependencyFinder.DependencyWalk.Expand | nuget/lib/dependabot/nuget/update_checker/dependency_finder.rb:198-225 | the recursive walk only raises versions and keeps the insertion order; when it completes, every dependency of the package is covered by an entry at least as high; it always completes when every version range in the feeds parses |
| NugetDependencyFinder.DependencyWalk.Visit | nuget/lib/dependabot/nuget/update_checker/dependency_finder.rb:205-223 | succeeds whenever the range's version parses and every version range in the feeds parses; on success the range parsed and the dependency's lower-cased id is in the map at that version or above |
| NugetDependencyFinder.DependencyWalk.StoreAndExpand | nuget/lib/dependabot/nuget/update_checker/dependency_finder.rb:219-223 | an entry is replaced only by a strictly higher version, and the package is expanded right after it is stored; it completes whenever every version range in the feeds parses |
| NugetDependencyFinder.ReachableStep | nuget/lib/dependabot/nuget/update_checker/dependency_finder.rb:205-223 | a dependency listed by a reached `.nuspec`, whose version parses, leads to a reached `.nuspec`: the step the recursion takes |
| NugetDependencyFinder.FetchTransitiveDependencies | nuget/lib/dependabot/nuget/update_checker/dependency_finder.rb:190-225 | one entry per lower-cased id, each naming a `.nuspec` reached from the root by a chain of listed dependencies whose versions parse, covering the root's and every entry's own dependencies; the only raise is `ArgumentError`, and only when some version range in the feeds does not parse |
| NugetDependencyFinder.TransitiveDependencies | nuget/lib/dependabot/nuget/update_checker/dependency_finder.rb:51-82 | `[]` when the version is missing or unparseable; every produced dependency has empty requirements, no previous version and distinct lower-cased names, and comes from a hash whose `.nuspec` the walk from the root reaches; when the version parses and every version range in the feeds parses, every dependency of the root is among them (so `[]` then means the root has none), as is the case for any non-empty answer |
| NugetDependencyFinder.AsTransitive | nuget/lib/dependabot/nuget/update_checker/dependency_finder.rb:64-74 | one dependency per walked entry, in order, with its name, its version as text and empty requirements |
| NugetDependencyFinder.AsTransitiveKeeps | nuget/lib/dependabot/nuget/update_checker/dependency_finder.rb:61-74 | the conversion keeps the names distinct, every entry reached from the root, and the root's dependencies covered |
| NugetDependencyFinder.PeerUpdates | nuget/lib/dependabot/nuget/update_checker/dependency_finder.rb:92-117 | raises exactly when a matching top-level peer has no numeric version (`>` against nil); otherwise at most one update per walked entry, each for a top-level peer whose target is strictly newer and listed by the version finder |
| NugetDependencyFinder.PeerUpdatesComplete | nuget/lib/dependabot/nuget/update_checker/dependency_finder.rb:98-116 | every walked entry whose top-level peer is strictly older and whose version is listed yields an update to that version |
| NugetDependencyFinder.UpdatedPeerDependencies | nuget/lib/dependabot/nuget/update_checker/dependency_finder.rb:84-120 | a nil dependency version fails `T.must`; every update is information-only, for a top-level peer, strictly newer, listed by the version finder, from the graph, and keeps the peer's previous version and requirements |
| NugetVersionFinder.ParseRequirementString | nuget/lib/dependabot/nuget/update_checker/version_finder.rb:22-227 | a string matching the bracketed comma range comes back whole as one element; any other string gives its comma fields, each stripped, in order |
| NugetVersionFinder.ParsedPartsAreClean | nuget/lib/dependabot/nuget/update_checker/version_finder.rb:226 | the split parts contain no comma and have no surrounding whitespace |
| NugetVersionFinder.FilterPrereleases | nuget/lib/dependabot/nuget/update_checker/version_finder.rb:173-316 | every non-prerelease is kept; a prerelease is kept exactly when it is related to the current prerelease (same release as a prerelease current version, a `*-*` requirement part, or a hyphenated requirement naming its release); order is kept |
| NugetVersionFinder.FilterLowerVersions | nuget/lib/dependabot/nuget/update_checker/version_finder.rb:214-220 | the identity without a numeric current version; otherwise exactly the versions strictly above it, in order |
| NugetVersionFinder.FilterIgnoredVersions | nuget/lib/dependabot/nuget/update_checker/version_finder.rb:188-208 | the loop over the ignore requirements leaves exactly the versions none of them is satisfied by, in order; it raises `AllVersionsIgnored` exactly when raising is enabled, some version is above the current one and all such versions are ignored |
| NugetVersionFinder.FindCompatibleVersion | nuget/lib/dependabot/nuget/update_checker/version_finder.rb:134-145 | nil on empty input; the first entry when the current version is incompatible; otherwise the first compatible entry, or nil when none is |
| NugetVersionFinder.FindHighestCompatibleVersion | nuget/lib/dependabot/nuget/update_checker/version_finder.rb:114-118 | a listed acceptable version with no acceptable version above it; nil only when nothing is acceptable |
| NugetVersionFinder.FindLowestCompatibleVersion | nuget/lib/dependabot/nuget/update_checker/version_finder.rb:124-128 | a listed acceptable version with no acceptable version below it; nil only when nothing is acceptable |
| NugetVersionFinder.FirstAcceptableIsExtreme | nuget/lib/dependabot/nuget/update_checker/version_finder.rb:114-145 | on a descending list the first acceptable entry is the highest acceptable one, on an ascending list the lowest |
| NugetVersionFinder.LatestVersionDetails | nuget/lib/dependabot/nuget/update_checker/version_finder.rb:51-64 | after the prerelease and ignore filters, the highest acceptable candidate, nil only when no candidate is acceptable; raises `AllVersionsIgnored` exactly when raising is enabled, some listed version survives the prerelease filter above the current version, and every such version is ignored |
| NugetVersionFinder.LowestSecurityFixVersionDetails | nuget/lib/dependabot/nuget/update_checker/version_finder.rb:66-83 | after the prerelease, vulnerable, ignore and lower filters in that order, the lowest acceptable candidate, nil only when none is acceptable; raises `AllVersionsIgnored` exactly when raising is enabled, some non-vulnerable listed version survives the prerelease filter above the current version, and every such version is ignored |
| PubUpdateChecker.GitRevisionOfHex | pub/lib/dependabot/pub/update_checker.rb:117-119 | six or more lowercase hex characters are a git revision |
| PubUpdateChecker.GitRevisionOneLine | pub/lib/dependabot/pub/update_checker.rb:117-119 | a one-line git revision is six or more lowercase hex characters |
| PubUpdateChecker.VersionUnlessIgnored | pub/lib/dependabot/pub/update_checker.rb:102-115 | a git revision passes through unchanged; a version equal to a non-git current version is returned even when ignored; nil exactly for an ignored version that is neither |
| PubUpdateChecker.CurrentReport | pub/lib/dependabot/pub/update_checker.rb:151-153 | the report entry named after the dependency, nil exactly when there is none |
| PubUpdateChecker.EntryFor | pub/lib/dependabot/pub/update_checker.rb:30 | the first entry of a section named after the dependency (the `find` at lines 30, 39, 60 and 123), nil exactly when no entry has that name |
| PubUpdateChecker.LatestVersion | pub/lib/dependabot/pub/update_checker.rb:20-25 | `NoMethodError` without a report entry; otherwise the report's latest unless ignored, raising `AllVersionsIgnored` exactly when that is nil and raising is enabled |
| PubUpdateChecker.LatestVersionKeepsCurrent | pub/lib/dependabot/pub/update_checker.rb:21-110 | when the latest version is the current one it is returned, ignored or not |
| PubUpdateChecker.LatestResolvableVersionWithNoUnlock | pub/lib/dependabot/pub/update_checker.rb:27-34 | `NoMethodError` exactly without a report entry; nil without a `compatible` entry for the dependency; otherwise the first such entry's version unless ignored |
| PubUpdateChecker.LatestResolvableVersion | pub/lib/dependabot/pub/update_checker.rb:36-43 | `NoMethodError` exactly without a report entry; nil without a `singleBreaking` entry for the dependency; otherwise the first such entry's version unless ignored |
| PubUpdateChecker.LowestSecurityFixVersion | pub/lib/dependabot/pub/update_checker.rb:51-64 | `NoMethodError` without a current version; nil for a git revision; the current version (unless ignored) when not vulnerable; when vulnerable, nil without a smallest update, `NoMethodError` when it has no entry for the dependency, and otherwise that entry's version unless ignored |
| PubUpdateChecker.LowestResolvableSecurityFixVersion | pub/lib/dependabot/pub/update_checker.rb:45-49 | raises `Dependency not vulnerable!` when not vulnerable, and is the lowest security fix otherwise |
| PubUpdateChecker.SecurityFixStaysOnCurrent | pub/lib/dependabot/pub/update_checker.rb:54-55 | a non-vulnerable, non-git current version is its own security fix unless it is ignored |
| PubUpdateChecker.ResolveRequirementsUpdateStrategyAsWritten | pub/lib/dependabot/pub/update_checker.rb:159-183 | an unsupported strategy raises and an explicit supported one is returned; without one, raises exactly for a missing pubspec, invalid YAML, a document without a string-keyed `[]` (empty, a boolean or a float), a list or an integer; a mapping gives WidenRanges exactly when it has a `version` and is not `publish_to: none`; a plain-text document gives WidenRanges exactly when its text contains `version` |
| PubUpdateChecker.MalformedPubspecRaises | pub/lib/dependabot/pub/update_checker.rb:170-174 | as written, a pubspec YAML syntax error is not a `ScriptError` and escapes the rescue |
| PubUpdateChecker.ResolveRequirementsUpdateStrategy | pub/lib/dependabot/pub/update_checker.rb:159-183 | raises exactly for an unsupported strategy, or, without a strategy, for a missing pubspec, a document without a string-keyed `[]` (empty, a boolean or a float), a list or an integer; an explicit strategy is kept; a mapping gives WidenRanges exactly when it has a `version` and is not `publish_to: none`; invalid YAML falls back to BumpVersions; equal to the code as written for every pubspec that is valid YAML |
| PubUpdateChecker.UpdatedRequirements | pub/lib/dependabot/pub/update_checker.rb:66-89 | a vulnerable dependency whose smallest update changes more than one constraint keeps its requirements; `NoMethodError` without a smallest update (vulnerable) or a report entry (otherwise); nil without the chosen entry (the dependency's first entry in the smallest update, or in `singleBreaking`); otherwise the strategy's error, or the requirements built from that entry under the resolved strategy |
| PubUpdateChecker.SecurityUpdateUsesOwnEntry | pub/lib/dependabot/pub/update_checker.rb:69-80 | requirements a security update changes come from the dependency's own first entry in the smallest update, when at most one constraint changes |
| PubUpdateChecker.LatestVersionResolvableWithFullUnlock | pub/lib/dependabot/pub/update_checker.rb:121-130 | `NoMethodError` without a report entry; false without a `multiBreaking` entry; otherwise raises exactly when `latest_version` does, and is true exactly when the latest version is the entry's git revision or, for a non-revision, its parsed version |
| PubUpdateChecker.FullUnlockEntries | pub/lib/dependabot/pub/update_checker.rb:132-145 | `NoMethodError` without the section (the smallest update when vulnerable, `multiBreaking` otherwise); empty when the section has no non-transitive entry; otherwise the strategy's error, or one dependency per non-transitive entry, in order, with its name, version and requirements under the resolved strategy |
| SdkPackageUpdater.Project.constructor | nuget/helpers/lib/NuGetUpdater/NuGetUpdater.Core/Updater/SdkPackageUpdater.cs:23 | the loaded build files are both the in-memory and the on-disk state |
| SdkPackageUpdater.Project.UpdateDependency | nuget/helpers/lib/NuGetUpdater/NuGetUpdater.Core/Updater/SdkPackageUpdater.cs:11-53 | Threw exactly when the required-update check throws, with its exception; NotRequired exactly when it answers false (when every version parses: when no graph holds the package below the new version); PeersUnavailable exactly when a top-level update finds no peer table; in these cases nothing changes; otherwise the files are the transitive or top-level update, saved exactly when coherent, and the CLI fallback is used exactly for a transitive update with no pinning file |
| SdkPackageUpdater.Graphs | nuget/helpers/lib/NuGetUpdater/NuGetUpdater.Core/Updater/SdkPackageUpdater.cs:73-80 | one dependency graph per target framework, in order |
| SdkPackageUpdater.DoesDependencyRequireUpdate | nuget/helpers/lib/NuGetUpdater/NuGetUpdater.Core/Updater/SdkPackageUpdater.cs:59-122 | the answer or throw of the scan over the graphs: an unparseable new version throws; an answer is true exactly when some framework's graph holds the package (ignoring case, with a version) below the new version; when every found version parses there is always an answer; false when no graph holds the package |
| SdkPackageUpdater.ScanAnswers | nuget/helpers/lib/NuGetUpdater/NuGetUpdater.Core/Updater/SdkPackageUpdater.cs:71-105 | an answer of the scan from a position is true exactly when some entry from there on is the package below the new version |
| SdkPackageUpdater.ScanThrowsOnlyOnBadVersion | nuget/helpers/lib/NuGetUpdater/NuGetUpdater.Core/Updater/SdkPackageUpdater.cs:88-92 | the scan answers whenever every remaining entry that is the package has a version that parses |
| SdkPackageUpdater.RequireUpdateMeaning | nuget/helpers/lib/NuGetUpdater/NuGetUpdater.Core/Updater/SdkPackageUpdater.cs:68-122 | an unparseable new version throws `ArgumentException` with that text; any answer equals whether some graph holds the package below the new version; a throw means the new version or some found version does not parse |
| SdkPackageUpdater.Project.UpdateTransitiveDependency | nuget/helpers/lib/NuGetUpdater/NuGetUpdater.Core/Updater/SdkPackageUpdater.cs:124-136 | the files become the transitive update; the CLI fallback is reported exactly when no file enables transitive pinning |
| SdkPackageUpdater.TransitiveUpdateLocal | nuget/helpers/lib/NuGetUpdater/NuGetUpdater.Core/Updater/SdkPackageUpdater.cs:126-131 | a transitive update touches only the item groups of the first pinning-enabled file |
| SdkPackageUpdater.TransitiveUpdateIdempotent | nuget/helpers/lib/NuGetUpdater/NuGetUpdater.Core/Updater/SdkPackageUpdater.cs:124-221 | pinning the same version twice is pinning it once |
| SdkPackageUpdater.FileName | nuget/helpers/lib/NuGetUpdater/NuGetUpdater.Core/Updater/SdkPackageUpdater.cs:140 | the last `/`-separated segment of the path |
| SdkPackageUpdater.PropertyIndex | nuget/helpers/lib/NuGetUpdater/NuGetUpdater.Core/Updater/SdkPackageUpdater.cs:148-156 | the first property whose name matches, ignoring case, or none when none does |
| SdkPackageUpdater.PinningNeedsBothFlags | nuget/helpers/lib/NuGetUpdater/NuGetUpdater.Core/Updater/SdkPackageUpdater.cs:138-158 | a file lacking either the `ManagePackageVersionsCentrally` or the `CentralPackageTransitivePinningEnabled` property does not enable pinning |
| SdkPackageUpdater.PinningKeptByLaterProperties | nuget/helpers/lib/NuGetUpdater/NuGetUpdater.Core/Updater/SdkPackageUpdater.cs:148-157 | only the first occurrence of each flag counts: properties added later do not switch pinning off |
| SdkPackageUpdater.PinIn | nuget/helpers/lib/NuGetUpdater/NuGetUpdater.Core/Updater/SdkPackageUpdater.cs:162-166 | the first `PackageVersion` item including the package, ignoring case, or none |
| SdkPackageUpdater.FirstPin | nuget/helpers/lib/NuGetUpdater/NuGetUpdater.Core/Updater/SdkPackageUpdater.cs:162-166 | the first pinning item over the item groups in document order, or none |
| SdkPackageUpdater.LastPackageVersionGroup | nuget/helpers/lib/NuGetUpdater/NuGetUpdater.Core/Updater/SdkPackageUpdater.cs:170-180 | the group holding the last `PackageVersion` item, or none when there is none |
| SdkPackageUpdater.AttributeIndex | nuget/helpers/lib/NuGetUpdater/NuGetUpdater.Core/Updater/SdkPackageUpdater.cs:196 | the first attribute whose name matches, ignoring case, or none |
| SdkPackageUpdater.WithVersion | nuget/helpers/lib/NuGetUpdater/NuGetUpdater.Core/Updater/SdkPackageUpdater.cs:196-209 | the item keeps its name and its first `Version` attribute holds the new version |
| SdkPackageUpdater.PinnedGroups | nuget/helpers/lib/NuGetUpdater/NuGetUpdater.Core/Updater/SdkPackageUpdater.cs:160-221 | only the last `PackageVersion` group can change; nothing changes without a `PackageVersion` item or when the pin already has the new version |
| SdkPackageUpdater.PinnedAtNewVersion | nuget/helpers/lib/NuGetUpdater/NuGetUpdater.Core/Updater/SdkPackageUpdater.cs:183-217 | when the existing pin, if any, is in the last group, that group afterwards pins the package at the new version |
| SdkPackageUpdater.PinIdempotent | nuget/helpers/lib/NuGetUpdater/NuGetUpdater.Core/Updater/SdkPackageUpdater.cs:203-214 | pinning twice is pinning once |
| SdkPackageUpdater.Project.PinTransitiveDependency | nuget/helpers/lib/NuGetUpdater/NuGetUpdater.Core/Updater/SdkPackageUpdater.cs:160-221 | only the chosen file's item groups change, to the pinned groups |
| SdkPackageUpdater.CollectGraphs | nuget/helpers/lib/NuGetUpdater/NuGetUpdater.Core/Updater/SdkPackageUpdater.cs:248-253 | one graph per distinct framework, in first-seen order |
| SdkPackageUpdater.FindEntry | nuget/helpers/lib/NuGetUpdater/NuGetUpdater.Core/Updater/SdkPackageUpdater.cs:263-268 | the entry whose key equals the name ignoring case, or none when no key does |
| SdkPackageUpdater.TableKeysDistinct | nuget/helpers/lib/NuGetUpdater/NuGetUpdater.Core/Updater/SdkPackageUpdater.cs:263-276 | no two keys of the peer table are equal ignoring case |
| SdkPackageUpdater.TableOf | nuget/helpers/lib/NuGetUpdater/NuGetUpdater.Core/Updater/SdkPackageUpdater.cs:263-277 | the peer table has at most one entry per recorded package, and the first package recorded is its first entry |
| SdkPackageUpdater.Conflicting | nuget/helpers/lib/NuGetUpdater/NuGetUpdater.Core/Updater/SdkPackageUpdater.cs:268-277 | a conflict needs at least two recorded packages |
| SdkPackageUpdater.ConflictingSnoc | nuget/helpers/lib/NuGetUpdater/NuGetUpdater.Core/Updater/SdkPackageUpdater.cs:268-277 | one more package conflicts exactly when it was stored already with another version |
| SdkPackageUpdater.MergeStep | nuget/helpers/lib/NuGetUpdater/NuGetUpdater.Core/Updater/SdkPackageUpdater.cs:268-277 | one loop step keeps the table and the conflict flag equal to their definitions over the packages seen |
| SdkPackageUpdater.MergeDependencies | nuget/helpers/lib/NuGetUpdater/NuGetUpdater.Core/Updater/SdkPackageUpdater.cs:266-278 | the inner loop computes the merge of the framework's packages |
| SdkPackageUpdater.MergeGraphs | nuget/helpers/lib/NuGetUpdater/NuGetUpdater.Core/Updater/SdkPackageUpdater.cs:264-279 | the table is the first version recorded per package and the flag says whether any two disagree |
| SdkPackageUpdater.GetUpdatedPeerDependencies | nuget/helpers/lib/NuGetUpdater/NuGetUpdater.Core/Updater/SdkPackageUpdater.cs:239-288 | null exactly when some framework's graph is empty or two versions of one package conflict; otherwise the merged table |
| SdkPackageUpdater.PeerKeysDistinct | nuget/helpers/lib/NuGetUpdater/NuGetUpdater.Core/Updater/SdkPackageUpdater.cs:263 | the peer table's keys are distinct ignoring case |
| SdkPackageUpdater.PeerVersionsRecorded | nuget/helpers/lib/NuGetUpdater/NuGetUpdater.Core/Updater/SdkPackageUpdater.cs:264-287 | without conflicts, every package of every graph is in the table at its version |
| SdkPackageUpdater.PeerEntriesFromGraphs | nuget/helpers/lib/NuGetUpdater/NuGetUpdater.Core/Updater/SdkPackageUpdater.cs:264-287 | every table entry comes from some framework's graph |
| SdkPackageUpdater.Project.UpdateTopLevelDependency | nuget/helpers/lib/NuGetUpdater/NuGetUpdater.Core/Updater/SdkPackageUpdater.cs:290-348 | the files become the top-level update: the root update, then, unless the root was not found, the peers and the conflict resolutions |
| SdkPackageUpdater.TopLevelUpdate | nuget/helpers/lib/NuGetUpdater/NuGetUpdater.Core/Updater/SdkPackageUpdater.cs:290-348 | the top-level update keeps the number of build files |
| SdkPackageUpdater.ApplyRequests | nuget/helpers/lib/NuGetUpdater/NuGetUpdater.Core/Updater/SdkPackageUpdater.cs:307-345 | the follow-up updates keep the number of build files |
| SdkPackageUpdater.Project.UpdatePeers | nuget/helpers/lib/NuGetUpdater/NuGetUpdater.Core/Updater/SdkPackageUpdater.cs:307-310 | the files after one update per peer that is not the root package |
| SdkPackageUpdater.PeerRequests | nuget/helpers/lib/NuGetUpdater/NuGetUpdater.Core/Updater/SdkPackageUpdater.cs:307-310 | the requests skip every peer entry named like the root package (ignoring case) and number at most the entries |
| SdkPackageUpdater.PeerRequestsFromTable | nuget/helpers/lib/NuGetUpdater/NuGetUpdater.Core/Updater/SdkPackageUpdater.cs:307-310 | every request is a peer entry of the table, and every entry not named like the root package has its request |
| SdkPackageUpdater.FirstNamed | nuget/helpers/lib/NuGetUpdater/NuGetUpdater.Core/Updater/SdkPackageUpdater.cs:326 | the first resolved dependency named like the root package, or none |
| SdkPackageUpdater.ResolvedRequests | nuget/helpers/lib/NuGetUpdater/NuGetUpdater.Core/Updater/SdkPackageUpdater.cs:318-345 | follow-up updates only when resolution succeeded and resolved the root package at the new version |
| SdkPackageUpdater.OtherResolved | nuget/helpers/lib/NuGetUpdater/NuGetUpdater.Core/Updater/SdkPackageUpdater.cs:340-345 | the requests never name the root package (ignoring case) and number at most the resolved dependencies |
| SdkPackageUpdater.OtherResolvedFromAnswer | nuget/helpers/lib/NuGetUpdater/NuGetUpdater.Core/Updater/SdkPackageUpdater.cs:340-345 | every request is a resolved dependency with a version, and every such dependency other than the root package has its request |
| SdkPackageUpdater.Project.UpdateResolved | nuget/helpers/lib/NuGetUpdater/NuGetUpdater.Core/Updater/SdkPackageUpdater.cs:318-345 | the files after the follow-ups of one resolution answer, none of which names the root package |
| SdkPackageUpdater.Project.UpdateOthers | nuget/helpers/lib/NuGetUpdater/NuGetUpdater.Core/Updater/SdkPackageUpdater.cs:340-345 | the files after one update per other resolved dependency |
| SdkPackageUpdater.Project.UpdateResolutions | nuget/helpers/lib/NuGetUpdater/NuGetUpdater.Core/Updater/SdkPackageUpdater.cs:314-347 | the files after the follow-ups for every build file and framework, none of which names the root package |
| SdkPackageUpdater.TrimVersion | nuget/helpers/lib/NuGetUpdater/NuGetUpdater.Core/Updater/SdkPackageUpdater.cs:389-539 | a trimmed version neither starts with an opening nor ends with a closing bracket |
| SdkPackageUpdater.SetNodeVersion | nuget/helpers/lib/NuGetUpdater/NuGetUpdater.Core/Updater/SdkPackageUpdater.cs:375-497 | the node's version reads back as written, name and include unchanged |
| SdkPackageUpdater.MarkedOnlyIf | nuget/helpers/lib/NuGetUpdater/NuGetUpdater.Core/Updater/SdkPackageUpdater.cs:382-415 | a node is marked only when it is no property reference, no range or wildcard, and either equals the previous version or, with no previous version, parses below the new one; a range or wildcard is unsupported |
| SdkPackageUpdater.Classify | nuget/helpers/lib/NuGetUpdater/NuGetUpdater.Core/Updater/SdkPackageUpdater.cs:379-415 | a value is a property reference exactly when `TryGetPropertyName` reads a name from it; every other value is judged as a literal |
| SdkPackageUpdater.RewriteNeedsPrevious | nuget/helpers/lib/NuGetUpdater/NuGetUpdater.Core/Updater/SdkPackageUpdater.cs:395-410 | a peer rewrite happens only without a previous version, a previous-version rewrite only with one |
| SdkPackageUpdater.ScanStepAdds | nuget/helpers/lib/NuGetUpdater/NuGetUpdater.Core/Updater/SdkPackageUpdater.cs:373-416 | one node adds exactly its own mark, flags and property name |
| SdkPackageUpdater.ScanValues | nuget/helpers/lib/NuGetUpdater/NuGetUpdater.Core/Updater/SdkPackageUpdater.cs:373-476 | every marked node's text is its trimmed version; the recorded previous version changes only by a peer rewrite |
| SdkPackageUpdater.ScanMarks | nuget/helpers/lib/NuGetUpdater/NuGetUpdater.Core/Updater/SdkPackageUpdater.cs:373-416 | a node is marked exactly when its own verdict marks it |
| SdkPackageUpdater.ScanFlags | nuget/helpers/lib/NuGetUpdater/NuGetUpdater.Core/Updater/SdkPackageUpdater.cs:390-415 | found-correct is set exactly when some node's verdict is "at the new version": its trimmed text is the new version and it is no reference, range, wildcard or previous version; with no previous version a parseable value at the new version is left untouched instead, so it does not set the flag (lines 400-411); found-unsupported is set exactly when some node is a range or a wildcard |
| SdkPackageUpdater.ScanNames | nuget/helpers/lib/NuGetUpdater/NuGetUpdater.Core/Updater/SdkPackageUpdater.cs:382-535 | the property names collected are exactly those the nodes reference |
| SdkPackageUpdater.ScanNodes | nuget/helpers/lib/NuGetUpdater/NuGetUpdater.Core/Updater/SdkPackageUpdater.cs:373-476 | the loop computes the scan of the file's nodes |
| SdkPackageUpdater.RewriteKeepsBrackets | nuget/helpers/lib/NuGetUpdater/NuGetUpdater.Core/Updater/SdkPackageUpdater.cs:389-485 | replacing a value's trimmed version keeps its brackets around the new version |
| SdkPackageUpdater.ApplyMarks | nuget/helpers/lib/NuGetUpdater/NuGetUpdater.Core/Updater/SdkPackageUpdater.cs:478-575 | only marked nodes change, each by replacing its marked text with the new version; the other node list is untouched |
| SdkPackageUpdater.AsWrittenMarks | nuget/helpers/lib/NuGetUpdater/NuGetUpdater.Core/Updater/SdkPackageUpdater.cs:371-490 | the code as written replaces the same text, the last peer version recorded, in every marked node |
| SdkPackageUpdater.FilePassRewritesMarked | nuget/helpers/lib/NuGetUpdater/NuGetUpdater.Core/Updater/SdkPackageUpdater.cs:478-500 | after a file's pass every marked node holds the new version inside its brackets and every other node is unchanged |
| SdkPackageUpdater.FilePass | nuget/helpers/lib/NuGetUpdater/NuGetUpdater.Core/Updater/SdkPackageUpdater.cs:371-500 | a file with no marked node comes back as it was, and a pass never changes a file's path |
| SdkPackageUpdater.FilePassAsWritten | nuget/helpers/lib/NuGetUpdater/NuGetUpdater.Core/Updater/SdkPackageUpdater.cs:371-500 | the code as written scans a file exactly as the corrected pass does; a file with no marked node comes back as it was, and its path is kept |
| SdkPackageUpdater.AsWrittenAgreesWithPrevious | nuget/helpers/lib/NuGetUpdater/NuGetUpdater.Core/Updater/SdkPackageUpdater.cs:371-485 | with a previous version the code as written and the corrected pass agree |
| SdkPackageUpdater.MarksArePrevious | nuget/helpers/lib/NuGetUpdater/NuGetUpdater.Core/Updater/SdkPackageUpdater.cs:395-399 | with a previous version every marked text is that version |
| SdkPackageUpdater.TwoPeerPinsAsWritten | nuget/helpers/lib/NuGetUpdater/NuGetUpdater.Core/Updater/SdkPackageUpdater.cs:400-497 | as written, with two lower peer pins both are marked but both are rewritten by replacing the second one's version |
| SdkPackageUpdater.TwoPeerPins | nuget/helpers/lib/NuGetUpdater/NuGetUpdater.Core/Updater/SdkPackageUpdater.cs:400-497 | corrected, each of two lower peer pins has its own version replaced |
| SdkPackageUpdater.PeerUpdateLeavesEarlierNode | nuget/helpers/lib/NuGetUpdater/NuGetUpdater.Core/Updater/SdkPackageUpdater.cs:400-497 | as written, pins at 1.0.0 and 2.0.0 updated to 3.0.0 leave the first at 1.0.0 |
| SdkPackageUpdater.PeerUpdateRewritesEveryNode | nuget/helpers/lib/NuGetUpdater/NuGetUpdater.Core/Updater/SdkPackageUpdater.cs:400-497 | corrected, both pins end at 3.0.0 |
| SdkPackageUpdater.PlainLowerIsPeer | nuget/helpers/lib/NuGetUpdater/NuGetUpdater.Core/Updater/SdkPackageUpdater.cs:400-410 | a plain literal below the new version, with no previous version, is a peer rewrite |
| SdkPackageUpdater.FilesPass | nuget/helpers/lib/NuGetUpdater/NuGetUpdater.Core/Updater/SdkPackageUpdater.cs:366-576 | each file from the given one on is replaced by its own pass; earlier files are kept; collected names only grow |
| SdkPackageUpdater.Project.PassOverFiles | nuget/helpers/lib/NuGetUpdater/NuGetUpdater.Core/Updater/SdkPackageUpdater.cs:366-501 | the files and progress after the loop over build files |
| SdkPackageUpdater.DollarReaderKeepsLiterals | nuget/helpers/lib/NuGetUpdater/NuGetUpdater.Core/Updater/SdkPackageUpdater.cs:421-425 | a reader that takes exactly `$(Name)` values as references never sees one after a literal's version text is replaced by a parseable version not starting with `$`, so the worklist's assumption on `TryGetPropertyName` can be met |
| SdkPackageUpdater.FilePassReferences | nuget/helpers/lib/NuGetUpdater/NuGetUpdater.Core/Updater/SdkPackageUpdater.cs:478-575 | rewriting literals keeps the set of referenced properties, and a property pass only collects names the files reference |
| SdkPackageUpdater.FilesPassReferences | nuget/helpers/lib/NuGetUpdater/NuGetUpdater.Core/Updater/SdkPackageUpdater.cs:519-576 | a pass over all files keeps the referenced properties and collects no name outside them |
| SdkPackageUpdater.Drain | nuget/helpers/lib/NuGetUpdater/NuGetUpdater.Core/Updater/SdkPackageUpdater.cs:507-577 | the processed names are exactly the distinct collected names, and collected names only grow |
| SdkPackageUpdater.DrainSkips | nuget/helpers/lib/NuGetUpdater/NuGetUpdater.Core/Updater/SdkPackageUpdater.cs:512-515 | a name processed already is skipped |
| SdkPackageUpdater.DrainProcesses | nuget/helpers/lib/NuGetUpdater/NuGetUpdater.Core/Updater/SdkPackageUpdater.cs:517-576 | a new name is processed by one property pass over every file, and the outstanding names shrink |
| SdkPackageUpdater.TryUpdate | nuget/helpers/lib/NuGetUpdater/NuGetUpdater.Core/Updater/SdkPackageUpdater.cs:350-586 | every build file is kept in place and every collected property name is processed exactly once |
| SdkPackageUpdater.ResultOf | nuget/helpers/lib/NuGetUpdater/NuGetUpdater.Core/Updater/SdkPackageUpdater.cs:579-585 | Updated exactly when some node was rewritten; Correct when none was but one was at the new version; NotSupported when neither but one was unsupported; NotFound otherwise |
| SdkPackageUpdater.Project.TryUpdateDependencyVersion | nuget/helpers/lib/NuGetUpdater/NuGetUpdater.Core/Updater/SdkPackageUpdater.cs:350-586 | the files and result of the package pass followed by the property worklist |
| SdkPackageUpdater.Project.SaveBuildFiles | nuget/helpers/lib/NuGetUpdater/NuGetUpdater.Core/Updater/SdkPackageUpdater.cs:52 | the files on disk become the files in memory |
| ComposerHelpers.VendorTailIsSingleSeparators | composer/lib/dependabot/composer/helpers.rb:10 | the vendor grammar after the first character accepts a text exactly when each character is a lowercase alphanumeric or one of `_`, `.`, `-` immediately followed by one |
| ComposerHelpers.PackageTailIsDashPairs | composer/lib/dependabot/composer/helpers.rb:10 | the package grammar after the first character accepts a text exactly when each character is a lowercase alphanumeric, one of `_`, `.`, `-` followed by one, or a `--` followed by one |
| ComposerHelpers.OneLineKey | composer/lib/dependabot/composer/helpers.rb:10-50 | on a key without a newline the line-anchored regular expressions match exactly the whole key |
| ComposerHelpers.ComposerVersion | composer/lib/dependabot/composer/helpers.rb:20-30 | the version is `"1"` or `"2"` whenever no error is raised |
| ComposerHelpers.LockfileDecides | composer/lib/dependabot/composer/helpers.rb:21-23 | with a lockfile plugin API version the manifest is irrelevant: `"1"` exactly when the version's first segment is 1, and a version that cannot be parsed raises |
| ComposerHelpers.BadNameMeansV1 | composer/lib/dependabot/composer/helpers.rb:24-25 | without a plugin API version, a name that is no valid Composer 2 name means `"1"` |
| ComposerHelpers.RequirementsDecide | composer/lib/dependabot/composer/helpers.rb:24-52 | without a plugin API version and with a valid or missing name, `"1"` exactly when some required key is neither a platform package nor a valid name, `"2"` otherwise |
| ComposerHelpers.NoRequireIsValid | composer/lib/dependabot/composer/helpers.rb:47 | a manifest without `require` has no invalid requirement |
| ComposerHelpers.QuoteFrom | composer/lib/dependabot/composer/helpers.rb:17 | the position found holds a single quote |
| ComposerHelpers.QuoteFromIsFirst | composer/lib/dependabot/composer/helpers.rb:17 | the position found is the first single quote from the start, and none means there is none |
| ComposerHelpers.ModeEnd | composer/lib/dependabot/composer/helpers.rb:17 | after `--mirror` or `--checkout` the match continues past the mode word |
| ComposerHelpers.MirrorCaptureShape | composer/lib/dependabot/composer/helpers.rb:17 | a captured URL contains no single quote and sits between two quotes of the message |
| ComposerHelpers.MirrorCapture | composer/lib/dependabot/composer/helpers.rb:17-34 | a capture is the `url` group of the pattern matched at some line start of the message |
| ComposerHelpers.LeftmostCaptureIsFirst | composer/lib/dependabot/composer/helpers.rb:17-39 | the match used is the one at the first line start where the pattern matches, and none means no line start matches |
| ComposerHelpers.DependencyUrlFromGitCloneError | composer/lib/dependabot/composer/helpers.rb:32-44 | a non-empty mirror capture gives its cleaned url; raises exactly when the mirror capture is empty or only `FAILED_GIT_CLONE` matches, and the only error is the "Could not parse dependency_url" runtime error about this message |
| ComposerHelpers.NilWithoutPattern | composer/lib/dependabot/composer/helpers.rb:32-44 | nil exactly when neither pattern matches at a line start |
| ComposerHelpers.EmptyCaptureRaises | composer/lib/dependabot/composer/helpers.rb:35 | an empty quoted URL raises |
| ComposerHelpers.FailedCloneAlwaysRaises | composer/lib/dependabot/composer/helpers.rb:18-40 | the lazy `.*?` always captures nothing, so a "Failed to clone" message always raises |
| ComposerHelpers.ReturnedUrlIsQuoted | composer/lib/dependabot/composer/helpers.rb:33-37 | a returned URL is the cleaned form of a non-empty quote-free URL captured from a `git clone --mirror/--checkout` failure |
| BundlerFilePreparer.FirstNamedOrChoice | bundler/lib/dependabot/bundler/file_parser/file_preparer.rb:42-65 | the first file with the preferred name, else the first with the fallback name, and none exactly when neither name occurs |
| BundlerFilePreparer.Gemspecs | bundler/lib/dependabot/bundler/file_parser/file_preparer.rb:67-69 | exactly the `.gemspec` files, in their original order |
| BundlerFilePreparer.EvaledGemfiles | bundler/lib/dependabot/bundler/file_parser/file_preparer.rb:47-56 | exactly the files that are none of gemspec, specification, lockfile, `.ruby-version`, `Gemfile`, `gems.rb` or `gems.locked`, in order |
| BundlerFilePreparer.SpecificationFiles | bundler/lib/dependabot/bundler/file_parser/file_preparer.rb:58-60 | exactly the `.specification` files, in order |
| BundlerFilePreparer.ImportedRubyFiles | bundler/lib/dependabot/bundler/file_parser/file_preparer.rb:75-79 | exactly the `.rb` files other than `gems.rb`, in order |
| BundlerFilePreparer.PreparedDependencyFiles | bundler/lib/dependabot/bundler/file_parser/file_preparer.rb:16-36 | one sanitized copy per gemspec, keeping name, directory and support flag, followed by the Gemfile, evaled gemfiles, lockfile, Ruby version file, imported Ruby files and specification files with the missing ones dropped |
| BundlerFilePreparer.NoGemspecAfterGemspecs | bundler/lib/dependabot/bundler/file_parser/file_preparer.rb:28-49 | no gemspec appears among the files after the sanitized gemspecs |
| BundlerFilePreparer.RubyNameIsEvaled | bundler/lib/dependabot/bundler/file_parser/file_preparer.rb:47-79 | every imported Ruby file name also passes the evaled-gemfile filter |
| BundlerFilePreparer.RubyFileListedTwice | bundler/lib/dependabot/bundler/file_parser/file_preparer.rb:30-33 | an imported Ruby file appears at least twice in the prepared list |
| RefreshSecurityUpdatePullRequest.AppliesToConditions | updater/lib/dependabot/updater/operations/refresh_security_update_pull_request.rb:19-26 | applies only to security-only jobs updating a pull request; never with an empty dependency list; always otherwise, a missing list included |
| RefreshSecurityUpdatePullRequest.AppliesTo | updater/lib/dependabot/updater/operations/refresh_security_update_pull_request.rb:19-26 | never for a present but empty dependency list; for a missing list, exactly for a security-only job that updates a pull request |
| RefreshSecurityUpdatePullRequest.RequirementsToUnlock | updater/lib/dependabot/updater/operations/refresh_security_update_pull_request.rb:147-158 | the unlock level chosen is one the checker can update with, `none` only when requirements cannot be unlocked, `all` only when `own` fails, and `update_not_possible` exactly when every level allowed for the checker fails |
| RefreshSecurityUpdatePullRequest.EntryFor | updater/lib/dependabot/updater/operations/refresh_security_update_pull_request.rb:199-205 | a dependency's pull-request entry has its name, its version exactly when it has one, and `removed: true` exactly when removed, and no other key |
| RefreshSecurityUpdatePullRequest.ExistingPullRequestMatches | updater/lib/dependabot/updater/operations/refresh_security_update_pull_request.rb:197-209 | a pull request is found exactly when one has the same set of entries as the updated dependencies, and a found one is from the job |
| RefreshSecurityUpdatePullRequest.ExistingPullRequestIgnoresOrder | updater/lib/dependabot/updater/operations/refresh_security_update_pull_request.rb:198-208 | the match compares sets: the order and repetition of the updated dependencies do not matter |
| RefreshSecurityUpdatePullRequest.MatchedEntriesAreCompact | updater/lib/dependabot/updater/operations/refresh_security_update_pull_request.rb:203-204 | a matched pull request never records `removed` as anything but true |
| RefreshSecurityUpdatePullRequest.Tr | updater/lib/dependabot/updater/operations/refresh_security_update_pull_request.rb:226 | each occurrence of one character is replaced by another, everything else kept |
| RefreshSecurityUpdatePullRequest.TrRoundTrip | updater/lib/dependabot/updater/operations/refresh_security_update_pull_request.rb:226 | replacing back restores a text that lacked the replacement character |
| RefreshSecurityUpdatePullRequest.LoggedReasonRoundTrip | updater/lib/dependabot/updater/operations/refresh_security_update_pull_request.rb:226 | the logged reason has no underscore and turns back into the reason symbol |
| RefreshSecurityUpdatePullRequest.LoggedReasonsDiffer | updater/lib/dependabot/updater/operations/refresh_security_update_pull_request.rb:226 | different close reasons are logged differently |
| RefreshSecurityUpdatePullRequest.LowerAll | updater/lib/dependabot/updater/operations/refresh_security_update_pull_request.rb:124 | every job dependency name lower-cased, in order |
| RefreshSecurityUpdatePullRequest.LowerNames | updater/lib/dependabot/updater/operations/refresh_security_update_pull_request.rb:125 | every updated dependency's name lower-cased, in order |
| RefreshSecurityUpdatePullRequest.LeadDependency | updater/lib/dependabot/updater/operations/refresh_security_update_pull_request.rb:92-95 | a dependency of the snapshot whose lower-cased name is the first job dependency's, or nil exactly when there is none |
| RefreshSecurityUpdatePullRequest.CountMismatchCloses | updater/lib/dependabot/updater/operations/refresh_security_update_pull_request.rb:61-67 | when the counts differ the pull request is closed as `dependency_removed` and nothing else happens |
| RefreshSecurityUpdatePullRequest.NothingAllowedCloses | updater/lib/dependabot/updater/operations/refresh_security_update_pull_request.rb:73-84 | when no dependency may be updated the pull request is closed as `up_to_date` before any checker is built, and with no parsed dependency at all the check raises `NoMethodError` instead |
| RefreshSecurityUpdatePullRequest.Decision | updater/lib/dependabot/updater/operations/refresh_security_update_pull_request.rb:60-145 | a job without a dependency list raises `NoMethodError`; every run that does not raise makes at least one call on the service |
| RefreshSecurityUpdatePullRequest.LeadIsSought | updater/lib/dependabot/updater/operations/refresh_security_update_pull_request.rb:86-177 | past the first two checks there is a first job dependency; without a matching lead the run raises `NoMethodError`, with one it reaches the checker |
| RefreshSecurityUpdatePullRequest.CheckerErrorRaised | updater/lib/dependabot/updater/operations/refresh_security_update_pull_request.rb:99-141 | an error from the checker's latest version, `AllVersionsIgnored` included, is raised and nothing is sent |
| RefreshSecurityUpdatePullRequest.UpToDateCloses | updater/lib/dependabot/updater/operations/refresh_security_update_pull_request.rb:101 | an up-to-date lead closes the pull request as `up_to_date` |
| RefreshSecurityUpdatePullRequest.UpdateNotPossibleCloses | updater/lib/dependabot/updater/operations/refresh_security_update_pull_request.rb:103-108 | when no unlock level works the pull request is closed as `update_no_longer_possible` |
| RefreshSecurityUpdatePullRequest.ChangeDecides | updater/lib/dependabot/updater/operations/refresh_security_update_pull_request.rb:110-136 | a changed set of names closes as `dependencies_changed` and creates a new pull request; the same names update the matching existing pull request, or create one when none matches |
| RefreshSecurityUpdatePullRequest.DecisionShape | updater/lib/dependabot/updater/operations/refresh_security_update_pull_request.rb:60-142 | any successful run sends one or two calls; a close is always first and names the job dependencies; two calls are exactly a `dependencies_changed` close followed by a create; an update always has the job's names and a matching existing pull request |
| RefreshSecurityUpdatePullRequest.Service.constructor | updater/lib/dependabot/updater/operations/refresh_security_update_pull_request.rb:32-33 | a new service has received no calls |
| RefreshSecurityUpdatePullRequest.Service.ClosePullRequest | updater/lib/dependabot/updater/operations/refresh_security_update_pull_request.rb:225-230 | records one close with the job's dependency names and the reason |
| RefreshSecurityUpdatePullRequest.Service.CreatePullRequest | updater/lib/dependabot/updater/operations/refresh_security_update_pull_request.rb:211-216 | records one create with the change and the base commit SHA |
| RefreshSecurityUpdatePullRequest.Service.UpdatePullRequest | updater/lib/dependabot/updater/operations/refresh_security_update_pull_request.rb:218-223 | records one update with the change and the base commit SHA |
| RefreshSecurityUpdatePullRequest.ErrorHandler.constructor | updater/lib/dependabot/updater/operations/refresh_security_update_pull_request.rb:32-36 | a new error handler has handled nothing |
| RefreshSecurityUpdatePullRequest.ErrorHandler.HandleDependencyError | updater/lib/dependabot/updater/operations/refresh_security_update_pull_request.rb:42-43 | records one handled error with its dependency |
| RefreshSecurityUpdatePullRequest.CheckAndUpdatePullRequest | updater/lib/dependabot/updater/operations/refresh_security_update_pull_request.rb:60-142 | on success the service received exactly the decided calls; on an error nothing was sent and the error is returned |
| RefreshSecurityUpdatePullRequest.LastDependency | updater/lib/dependabot/updater/operations/refresh_security_update_pull_request.rb:40 | the last snapshot dependency, nil exactly for an empty snapshot |
| RefreshSecurityUpdatePullRequest.Perform | updater/lib/dependabot/updater/operations/refresh_security_update_pull_request.rb:39-44 | on success the decided calls are sent and no error is handled; on an error nothing is sent and exactly that error is handled with the last snapshot dependency |
| RefreshSecurityUpdatePullRequest.MissingDependencyListApplies | updater/lib/dependabot/updater/operations/refresh_security_update_pull_request.rb:19-61 | as written, a security job updating a pull request without a dependency list is accepted and then raises `NoMethodError` |
| RefreshSecurityUpdatePullRequest.WithMetadataOnlyCheckerOrLeadRaise | updater/lib/dependabot/updater/operations/refresh_security_update_pull_request.rb:19-99 | when the dependency list is required to be present, a run raises only the checker's error or, without a lead dependency, `NoMethodError` |

## Left out

- Registry, network and git access are not modelled. NuGet v2/v3 listings, `.nuspec` downloads, the Go module proxy, git tag and branch listings, the Dart `dependency_services` report and remote parent POMs are inputs: sequences, maps or function parameters.
- Shell and process calls are not modelled: `go list`, `dotnet add`, git clone and every `MSBuildHelper` call. Their answers are inputs (`graphFor`, `peerGraphFor`, `resolve`, `coherent`). For a transitive update without a pinning file, the model only reports that the CLI fallback would be used.
- XML, JSON and YAML parsing and syntax-tree editing are not modelled. POMs are lists of (path, text) elements. Project files are lists of package nodes, property nodes and item groups. A parsed pubspec is one of six shapes: invalid YAML, a document with no `[]`, a plain string, an integer-indexed value, or a mapping's `version` and `publish_to`; `YAML.safe_load`'s refusal of dates and other disallowed classes is not represented. The whitespace and trivia that `Microsoft.Language.Xml` keeps are not represented. A `.nuspec` is a flat list of `dependency` elements with their `include`/`exclude` attributes, so the nesting the XPath `//dependencies/child::node()/dependency` (dependency_finder.rb:249) selects on is not represented: the element list stands for the nodes that XPath selects. It selects only `dependency` elements that are grandchildren of `<dependencies>`, that is those inside a `group`, and a `dependency` placed directly under `<dependencies>` is not read; that selection is not modelled.
- SdkPackageUpdater.PinnedGroups: `ReplaceChildElement` and `ReplaceNode` (SdkPackageUpdater.cs:216-219) belong to the XML library, which is not part of this model. The model assumes they replace exactly the existing `PackageVersion` item inside the last group holding one and leave every other group as it was; the clause saying the other groups are unchanged rests on that assumption.
- GithubActionsUpdateChecker.FindLowestSecureVersion: `min_by` returns the first of several tags with equal versions. The body picks that first one (`MinByIndex`), but the contract only says that no secure tag is lower, so any tag at the lowest version satisfies it.
- Version classes are abstracted to a parse function and a strict order (`less`) on parsed versions. Versions that a class treats as equal, such as `Gem::Version` with "1" and "1.0", are simply values neither of which is below the other; the string forms of such versions are not modelled.
- Foreign libraries are parameters: Base64 encoding and decoding, `URI.parse` (so `clean_dependency_url` is the `cleanUrl` parameter), `GemspecSanitizer` (the `sanitize` parameter), `RepositoriesFinder#repository_urls` (the `repositoryUrls` parameter), `Composer::Version#canonical_segments` (the `firstSegment` parameter), the Elm, Go, NuGet and Pub version classes, `Requirement#satisfied_by?`, `NuGetVersion.Parse` and `MSBuildHelper.TryGetPropertyName`.
- Logging, tracing, caches and memoisation are not modelled. They have no observable effect on results. The exception is `transitive_dependencies`, whose `[]` on error is kept.
- Asynchrony in the C# updater is not modelled. Execution is taken to be sequential.
- String case folding is ASCII-only: `downcase`, `ToLowerInvariant` and `OrdinalIgnoreCase` comparisons fold only `A`-`Z`.
- NugetVersionFinder.FindHighestCompatibleVersion: Ruby's `sort_by` leaves the order of equal versions unspecified, while the model's insertion sort fixes one such order. When two listed entries have equal versions, the model may pick a different one of them than the source does.
- NugetVersionFinder.FindLowestCompatibleVersion: the same caveat about equal versions applies.
- MavenPropertyValueFinder.Details: the source recurses without a bound. The model takes a `fuel` budget and raises `SystemStackError` when it runs out, standing for Ruby's stack overflow on a cycle of `${...}` references or parent POMs. `FuelMonotone` shows that a budget that does not run out gives the same answer as any larger one.
- MavenPropertyValueFinder: malformed XPath expressions built from unusual property names (which raise in Nokogiri) are not modelled. Every candidate name is treated as a valid path.
- SdkPackageUpdater.Project.TryUpdateDependencyVersion (and the members below it that drive the property worklist: UpdatePeers, UpdateResolved, UpdateOthers, UpdateResolutions, FilePassReferences, FilesPassReferences, Drain, DrainSkips, DrainProcesses, TryUpdate) require `LiteralsStayLiteral` of `TryGetPropertyName`. It says that writing a version NuGet parses in place of a literal value's own trimmed version text never turns that value into a `$(...)` reference. That rewrite is the only one a pass performs. The C# loop needs no such assumption; in the model it supplies the termination measure of the property worklist. `DollarReaderKeepsLiterals` shows that a `$(Name)` reader meets it whenever no parseable version starts with `$`.
- SdkPackageUpdater.Project.UpdateDependency: `ReplaceNodes` on two marked nodes that share text, and the `InvalidDataException` for a version element that is not an `XmlElementSyntax`, are not modelled. Every version element is assumed concrete.
- SdkPackageUpdater.Project.TryUpdateDependencyVersion requires the new version to parse: the source parses that version lazily with `NuGetVersion.Parse` (SdkPackageUpdater.cs:402, 447 and 552), only when there is no previous version and a literal that parses is met, and throws `ArgumentException` there when it does not parse; the model requires that it parses and does not model that throw.
- SdkPackageUpdater.TryUpdate requires the new version to parse, as `TryUpdateDependencyVersion` does: the source parses that version lazily with `NuGetVersion.Parse` (SdkPackageUpdater.cs:402, 447 and 552), only when there is no previous version and a literal that parses is met, and throws `ArgumentException` there when it does not parse; the model requires that it parses and does not model that throw.
- SdkPackageUpdater.Project.UpdatePeers requires every peer version to parse (`PeerVersionsParse`). Peer updates have no previous version, so the source parses that version lazily with `NuGetVersion.Parse` (SdkPackageUpdater.cs:402, 447 and 552), only when there is no previous version and a literal that parses is met, and throws `ArgumentException` there when it does not parse; the model requires that it parses and does not model that throw.
- SdkPackageUpdater.Project.UpdateOthers requires every resolved version to parse (`AnswerParses`). These updates have no previous version, so the source parses that version lazily with `NuGetVersion.Parse` (SdkPackageUpdater.cs:402, 447 and 552), only when there is no previous version and a literal that parses is met, and throws `ArgumentException` there when it does not parse; the model requires that it parses and does not model that throw.
- SdkPackageUpdater.Project.UpdateResolved requires every resolved version to parse (`AnswerParses`), for the reason given for `UpdateOthers`.
- SdkPackageUpdater.Project.UpdateResolutions requires every answer of the conflict resolution to parse (`ResolvedVersionsParse`), for the reason given for `UpdateOthers`.
- SdkPackageUpdater.Project.UpdateTopLevelDependency requires the new version, the peer versions and the resolved versions to parse; the throws it leaves out are those of `UpdatePeers` and `UpdateResolutions`. The new version of the root package is parsed already by `DoesDependencyRequireUpdate`, whose throw is modelled.
- SdkPackageUpdater.Project.UpdateDependency models the throws of `DoesDependencyRequireUpdateAsync` (the `Threw` outcome). It requires every version in the peer graphs and every resolved version to parse, so the lazy throws of `UpdatePeers` and `UpdateResolutions` are not modelled.
- SdkPackageUpdater.FileName follows `Path.GetFileName` on Unix-like systems, where `\` is not a separator.
- SdkPackageUpdater.TrimVersion works on the raw element content. `GetContentValue`'s handling of entities and CDATA is not modelled.
- SdkPackageUpdater.Project.UpdateTopLevelDependency: the target frameworks are taken as given. Duplicates in `tfms` repeat the resolution requests just as the source's loop does, but the MSBuild evaluation that produces `tfms` is not modelled.
- NugetDependencyFinder.FetchTransitiveDependencies: the walk terminates because the feed is a finite map. A package whose `.nuspec` is absent from the map contributes no dependencies, which stands for a failed fetch.
- ComposerHelpers.ComposerVersion: a `require` value that is not a hash (which would raise on `.keys`) is not modelled. `require` is either absent or a map.
- BundlerFilePreparer.PreparedDependencyFiles: `gemspecs.compact` is a no-op on a list of files and is not modelled.
- RefreshSecurityUpdatePullRequest: building the update checker is not modelled; the checker is given as `checkerFor`. `job.vulnerable?` (updater/lib/dependabot/job.rb is not part of this model) is taken not to raise for a parsed dependency, and its answer only chooses which of two log lines is written. Called with no dependency, the log line raises `NoMethodError`, which the model keeps. `DependencyChangeBuilder.create_from` is the `buildChange` parameter.
- RefreshSecurityUpdatePullRequest.Decision: of the checker's calls, only `latest_version` may raise. Errors raised by `up_to_date?`, `can_update?`, `updated_dependencies` or the service calls are not modelled.
- RefreshSecurityUpdatePullRequest.Perform: the error handler receives the error kind, not the Ruby exception object with its message and backtrace.
- GithubActionsUpdateChecker.FetchLatestVersionForGitDependency is built on the corrected `ShortenedSemverEq` (see Findings). For a dependency version with no dot-parts, such as `""`, it reports the current version, while the code as written reports the latest tag's version. `ShortenedSemverEqAsWritten` keeps the code as written.
- PubUpdateChecker.UpdatedRequirements is built on the corrected `ResolveRequirementsUpdateStrategy` (see Findings). For a pubspec that is not valid YAML and no explicit strategy, it builds the requirements under BumpVersions, while the code as written raises `Psych::SyntaxError`. `ResolveRequirementsUpdateStrategyAsWritten` keeps the code as written.
- PubUpdateChecker.FullUnlockEntries is built on the corrected `ResolveRequirementsUpdateStrategy` in the same way: for invalid YAML with a non-transitive entry it builds the dependencies under BumpVersions, while the code as written raises.
- `parse_updated_dependency` (pub/lib/dependabot/pub/helpers.rb) is not part of this model: the requirements it builds for an entry are the `updatedRequirementsFor` parameter, taken not to raise.
- Text.ReplaceAll returns its input unchanged for an empty `from`, where C#'s `String.Replace` throws `ArgumentException`. In `SdkPackageUpdater` this is reachable only when the previous version is `""` and a marked version value trims to `""` (such as `Version="[]"`): nuget/helpers/lib/NuGetUpdater/NuGetUpdater.Core/Updater/SdkPackageUpdater.cs:485, 490 and 572 throw there, while `SdkPackageUpdater.FilesPass` and every operation built on it leave that value as it is.
- SdkPackageUpdater.FilesPass is built on the corrected file pass `FilePass` (see Findings). In a pass with no previous version over a file with two or more lower peer versions, it replaces each marked node's own version. The code as written replaces only the last peer's text in every marked node, so an earlier node keeps its version (`PeerUpdateLeavesEarlierNode`). `FilePassAsWritten` and `AsWrittenMarks` keep the code as written; with a previous version the two agree (`AsWrittenAgreesWithPrevious`).
- SdkPackageUpdater.Project.PassOverFiles applies the corrected marks, like `FilesPass`, and differs from the code as written in the same peer-update case.
- SdkPackageUpdater.TryUpdate is built on `FilesPass` and inherits its difference from the code as written for peer updates.
- SdkPackageUpdater.Project.TryUpdateDependencyVersion is built on `PassOverFiles` and inherits its difference from the code as written for peer updates.
- SdkPackageUpdater.Project.UpdatePeers runs peer updates, which have no previous version. This is exactly the case where the corrected file pass and the code as written differ.
- SdkPackageUpdater.Project.UpdateOthers runs updates with no previous version, so it differs from the code as written in the same peer-update case.
- SdkPackageUpdater.Project.UpdateResolved is built on `UpdateOthers` and inherits its difference from the code as written.
- SdkPackageUpdater.Project.UpdateResolutions is built on `UpdateResolved` and inherits its difference from the code as written.
- SdkPackageUpdater.Project.UpdateTopLevelDependency is built on `UpdatePeers` and `UpdateResolutions` and inherits their difference from the code as written.
- SdkPackageUpdater.Project.UpdateDependency is built on `UpdateTopLevelDependency` and inherits its difference from the code as written for peer updates.

## Findings

| source | as written | input that shows it | evidently intended | confidence | as-written member | corrected member |
|---|---|---|---|---|---|---|
| github_actions/lib/dependabot/github_actions/update_checker.rb:245-253 | `"".split(".")` is `[]`, and `other_split[0..-1]` is then all of `other_split`, so an empty base matches only a version with no dot-parts | base `""`, other `"1"`: false, although the base's (empty) list of parts is a prefix of `["1"]` | the base's dot-parts are a leading part of the other's, for every base | low (not executed) | GithubActionsUpdateChecker.ShortenedSemverEqAsWrittenEmptyBase | GithubActionsUpdateChecker.ShortenedSemverEq |
| pub/lib/dependabot/pub/update_checker.rb:170-174 | `rescue ScriptError` does not catch `Psych::SyntaxError`, which is a `StandardError` | a pubspec that is not valid YAML, with no explicit strategy: the strategy lookup raises | an unparseable pubspec falls back to `BumpVersions`, as the rescue clause says | medium (not executed) | PubUpdateChecker.MalformedPubspecRaises | PubUpdateChecker.ResolveRequirementsUpdateStrategy |
| nuget/helpers/lib/NuGetUpdater/NuGetUpdater.Core/Updater/SdkPackageUpdater.cs:371-497 | with no previous version, every lower peer node in a file is marked, but `previousPackageVersion` keeps only the last one's text, and that text is replaced in all marked nodes | one file with two references to package `P` at `1.0.0` and `2.0.0`, updated to `3.0.0` as a peer: the first stays at `1.0.0` and the result still says `Updated` | each marked node has its own version replaced by the new one | medium (not executed) | SdkPackageUpdater.PeerUpdateLeavesEarlierNode | SdkPackageUpdater.PeerUpdateRewritesEveryNode |
| updater/lib/dependabot/updater/operations/refresh_security_update_pull_request.rb:19-61 | `job.dependencies&.none?` is `nil` when the list is missing, so `applies_to?` accepts the job, and `job.dependencies.count` then raises `NoMethodError` | a security-only job that updates a pull request but has no dependency list | as the comment at lines 21-22 says, a job without the dependency metadata is not accepted | medium (not executed) | RefreshSecurityUpdatePullRequest.MissingDependencyListApplies | RefreshSecurityUpdatePullRequest.WithMetadataOnlyCheckerOrLeadRaise |
