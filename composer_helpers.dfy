/**
 * Composer's `Helpers`: deciding whether a project is a Composer 1 or Composer 2 project, from
 * the lockfile's `plugin-api-version` or from how the package names are spelled, and reading the
 * repository url out of a failed `git clone` message. The two name grammars of Composer 2 (a
 * package name and a platform package) are written out as recognisers that follow the regular
 * expressions piece by piece; Ruby's `^` and `$` match at line boundaries, so a string matches
 * when one of its lines does.
 */
module ComposerHelpers {
  import opened Wrappers
  import opened Errors
  import opened Text

  // ---------------------------------------------------------------------
  // The Composer 2 package-name grammar
  // ---------------------------------------------------------------------

  /** `[_.-]`: the separators allowed in a vendor name. */
  predicate IsVendorSeparator(c: char) { c == '_' || c == '.' || c == '-' }

  /**
   * `([_.-]?[a-z0-9]+)*`. A group `[_.-]?[a-z0-9]+` is the same as one `[_.-]?[a-z0-9]` followed
   * by groups without a separator, so the recogniser reads one alphanumeric character at a time.
   */
  predicate VendorTail(s: string)
    decreases |s|
  {
    || s == []
    || (IsLowerAlnum(s[0]) && VendorTail(s[1..]))
    || (|s| >= 2 && IsVendorSeparator(s[0]) && IsLowerAlnum(s[1]) && VendorTail(s[2..]))
  }

  /** `[a-z0-9]([_.-]?[a-z0-9]+)*`: the vendor half of a name (also the tail of `ext-` and `lib-` names). */
  predicate IsVendor(s: string)
  {
    |s| >= 1 && IsLowerAlnum(s[0]) && VendorTail(s[1..])
  }

  /** Position `k` of a vendor tail holds an alphanumeric, or a separator followed by an alphanumeric. */
  predicate VendorCharOk(s: string, k: nat)
    requires k < |s|
  {
    IsLowerAlnum(s[k]) || (IsVendorSeparator(s[k]) && k + 1 < |s| && IsLowerAlnum(s[k + 1]))
  }

  predicate SingleSeparators(s: string)
  {
    forall k :: 0 <= k < |s| ==> VendorCharOk(s, k)
  }

  /** Dropping `n` characters moves every position `n` to the left. */
  lemma VendorCharShift(s: string, n: nat, k: nat)
    requires n + k < |s|
    ensures VendorCharOk(s[n..], k) == VendorCharOk(s, n + k)
  {
    assert s[n..][k] == s[n + k];
    if n + k + 1 < |s| { assert s[n..][k + 1] == s[n + k + 1]; }
  }

  /**
   * The vendor grammar in words: lower-case letters and digits, separated by single `_`, `.` or
   * `-` characters, none of them last.
   */
  lemma {:induction false} VendorTailIsSingleSeparators(s: string)
    ensures VendorTail(s) <==> SingleSeparators(s)
    decreases |s|
  {
    if s != [] {
      VendorTailIsSingleSeparators(s[1..]);
      forall k | 0 <= k < |s| - 1 ensures VendorCharOk(s[1..], k) == VendorCharOk(s, 1 + k) {
        VendorCharShift(s, 1, k);
      }
      if |s| >= 2 {
        VendorTailIsSingleSeparators(s[2..]);
        forall k | 0 <= k < |s| - 2 ensures VendorCharOk(s[2..], k) == VendorCharOk(s, 2 + k) {
          VendorCharShift(s, 2, k);
        }
      }
      if SingleSeparators(s) {
        assert VendorCharOk(s, 0);
        assert SingleSeparators(s[1..]);
        if !IsLowerAlnum(s[0]) {
          assert SingleSeparators(s[2..]);
        }
      }
      if VendorTail(s) {
        forall k | 0 <= k < |s| ensures VendorCharOk(s, k) {
          if k > 0 {
            if IsLowerAlnum(s[0]) && VendorTail(s[1..]) {
              assert VendorCharOk(s[1..], k - 1);
            } else if k > 1 {
              assert VendorCharOk(s[2..], k - 2);
            }
          }
        }
      }
    }
  }

  /**
   * `(([_.]?|-{0,2})[a-z0-9]+)*`: as for the vendor, read one alphanumeric at a time, each preceded
   * by nothing, by one `_`, `.` or `-`, or by `--`.
   */
  predicate PackageTail(s: string)
    decreases |s|
  {
    || s == []
    || (IsLowerAlnum(s[0]) && PackageTail(s[1..]))
    || (|s| >= 2 && IsVendorSeparator(s[0]) && IsLowerAlnum(s[1]) && PackageTail(s[2..]))
    || (|s| >= 3 && s[0] == '-' && s[1] == '-' && IsLowerAlnum(s[2]) && PackageTail(s[3..]))
  }

  /** `[a-z0-9](([_.]?|-{0,2})[a-z0-9]+)*`: the package half of a name. */
  predicate IsPackage(s: string)
  {
    |s| >= 1 && IsLowerAlnum(s[0]) && PackageTail(s[1..])
  }

  /**
   * Position `k` of a package tail holds an alphanumeric, a separator followed by an
   * alphanumeric, or the first `-` of a `--` followed by an alphanumeric.
   */
  predicate PackageCharOk(s: string, k: nat)
    requires k < |s|
  {
    || IsLowerAlnum(s[k])
    || (IsVendorSeparator(s[k]) && k + 1 < |s| && IsLowerAlnum(s[k + 1]))
    || (s[k] == '-' && k + 2 < |s| && s[k + 1] == '-' && IsLowerAlnum(s[k + 2]))
  }

  predicate DashPairsAllowed(s: string)
  {
    forall k :: 0 <= k < |s| ==> PackageCharOk(s, k)
  }

  /** Dropping `n` characters moves every position `n` to the left. */
  lemma PackageCharShift(s: string, n: nat, k: nat)
    requires n + k < |s|
    ensures PackageCharOk(s[n..], k) == PackageCharOk(s, n + k)
  {
    assert s[n..][k] == s[n + k];
    if n + k + 1 < |s| { assert s[n..][k + 1] == s[n + k + 1]; }
    if n + k + 2 < |s| { assert s[n..][k + 2] == s[n + k + 2]; }
  }

  /** `DashPairsAllowed` of a suffix is `PackageCharOk` at the positions from `n` on. */
  lemma DashPairsOfSuffix(s: string, n: nat)
    requires n <= |s|
    ensures DashPairsAllowed(s[n..]) <==> forall k :: n <= k < |s| ==> PackageCharOk(s, k)
  {
    forall k | 0 <= k < |s| - n ensures PackageCharOk(s[n..], k) == PackageCharOk(s, n + k) {
      PackageCharShift(s, n, k);
    }
    if DashPairsAllowed(s[n..]) {
      forall k | n <= k < |s| ensures PackageCharOk(s, k) {
        assert PackageCharOk(s[n..], k - n);
      }
    }
  }

  /**
   * The package grammar in words: lower-case letters and digits separated by a single `_`, `.`
   * or `-`, or by `--`, never at the end.
   */
  lemma {:induction false} PackageTailIsDashPairs(s: string)
    ensures PackageTail(s) <==> DashPairsAllowed(s)
    decreases |s|
  {
    if s != [] {
      PackageTailIsDashPairs(s[1..]);
      DashPairsOfSuffix(s, 1);
      if |s| >= 2 {
        PackageTailIsDashPairs(s[2..]);
        DashPairsOfSuffix(s, 2);
      }
      if |s| >= 3 {
        PackageTailIsDashPairs(s[3..]);
        DashPairsOfSuffix(s, 3);
      }
      if DashPairsAllowed(s) {
        assert PackageCharOk(s, 0);
      }
      if PackageTail(s) {
        forall k | 0 <= k < |s| ensures PackageCharOk(s, k) {
          if IsLowerAlnum(s[0]) && PackageTail(s[1..]) {
          } else if |s| >= 2 && IsVendorSeparator(s[0]) && IsLowerAlnum(s[1]) && PackageTail(s[2..]) {
          } else {
            assert |s| >= 3 && s[0] == '-' && s[1] == '-' && IsLowerAlnum(s[2]) && PackageTail(s[3..]);
          }
        }
      }
    }
  }

  /** A whole line of the form `vendor/package`. */
  predicate IsV2Name(line: string)
  {
    exists i :: 0 <= i < |line| && line[i] == '/' && IsVendor(line[..i]) && IsPackage(line[i + 1..])
  }

  /** `name =~ COMPOSER_V2_NAME_REGEX`: some line of `name` is a Composer 2 package name. */
  predicate MatchesV2Name(name: string)
  {
    exists line :: line in Lines(name) && IsV2Name(line)
  }

  // ---------------------------------------------------------------------
  // The platform-package grammar
  // ---------------------------------------------------------------------

  /** The fixed alternatives of `PLATFORM_PACKAGE_REGEX`. */
  const PlatformNames: seq<string> :=
    ["php", "php-64bit", "php-ipv6", "php-zts", "php-debug", "hhvm", "composer-plugin-api", "composer-runtime-api"]

  /** A whole line naming a platform package: PHP, HHVM, an `ext-` or `lib-` package, or the Composer APIs. */
  predicate IsPlatformName(line: string)
  {
    || line in PlatformNames
    || ((StartsWith(line, "ext-") || StartsWith(line, "lib-")) && IsVendor(line[4..]))
  }

  /** `key =~ PLATFORM_PACKAGE_REGEX`: some line of `key` names a platform package. */
  predicate MatchesPlatform(key: string)
  {
    exists line :: line in Lines(key) && IsPlatformName(line)
  }

  /** For a key without line breaks the regular expressions test the key as a whole. */
  lemma OneLineKey(key: string)
    requires '\n' !in key
    ensures MatchesV2Name(key) <==> IsV2Name(key)
    ensures MatchesPlatform(key) <==> IsPlatformName(key)
  {
    LinesOfOneLine(key);
  }

  // ---------------------------------------------------------------------
  // composer_version
  // ---------------------------------------------------------------------

  /** The parts of `composer.json` the decision reads: `name`, and the keys of `require` when present. */
  datatype ComposerJson = ComposerJson(name: Option<string>, require: Option<seq<string>>)

  /** The part of `composer.lock` the decision reads. */
  datatype Lockfile = Lockfile(pluginApiVersion: Option<string>)

  /** `invalid_v2_requirement?`: some required package is neither a platform package nor a Composer 2 name. */
  predicate InvalidV2Requirement(json: ComposerJson)
  {
    json.require.Some? &&
    exists key :: key in json.require.value && !MatchesPlatform(key) && !MatchesV2Name(key)
  }

  /**
   * `composer_version`: with a `plugin-api-version` in the lockfile, "1" exactly when its first
   * canonical segment is 1; otherwise "1" for a name that is not a Composer 2 name or for an
   * invalid requirement, and "2" for the rest. `firstSegment` is `Composer::Version`'s parse of
   * the API version and its first canonical segment, or the error the parse raises.
   */
  function ComposerVersion(json: ComposerJson, lockfile: Option<Lockfile>,
                           firstSegment: string -> Result<int, DependabotError>): (r: Result<string, DependabotError>)
    ensures r.Ok? ==> r.value == "1" || r.value == "2"
  {
    if lockfile.Some? && lockfile.value.pluginApiVersion.Some? then
      match firstSegment(lockfile.value.pluginApiVersion.value)
      case Raise(e) => Raise(e)
      case Ok(segment) => Ok(if segment == 1 then "1" else "2")
    else if json.name.Some? && !MatchesV2Name(json.name.value) then Ok("1")
    else if InvalidV2Requirement(json) then Ok("1")
    else Ok("2")
  }

  /** With a `plugin-api-version` the lockfile alone decides, whatever `composer.json` says. */
  lemma LockfileDecides(json: ComposerJson, other: ComposerJson, api: string,
                        firstSegment: string -> Result<int, DependabotError>)
    ensures var r := ComposerVersion(json, Some(Lockfile(Some(api))), firstSegment);
      && r == ComposerVersion(other, Some(Lockfile(Some(api))), firstSegment)
      && (firstSegment(api).Ok? ==> (r == Ok("1") <==> firstSegment(api).value == 1))
      && (firstSegment(api).Raise? ==> r == Raise(firstSegment(api).error))
  {
  }

  /** Without an API version, a name that is not a Composer 2 name makes it a Composer 1 project. */
  lemma BadNameMeansV1(json: ComposerJson, lockfile: Option<Lockfile>,
                       firstSegment: string -> Result<int, DependabotError>)
    requires lockfile.None? || lockfile.value.pluginApiVersion.None?
    requires json.name.Some? && !MatchesV2Name(json.name.value)
    ensures ComposerVersion(json, lockfile, firstSegment) == Ok("1")
  {
  }

  /**
   * Without an API version and with a valid (or no) name, the project is Composer 1 exactly when
   * some required package is neither a platform package nor a Composer 2 name.
   */
  lemma RequirementsDecide(json: ComposerJson, lockfile: Option<Lockfile>,
                           firstSegment: string -> Result<int, DependabotError>)
    requires lockfile.None? || lockfile.value.pluginApiVersion.None?
    requires json.name.None? || MatchesV2Name(json.name.value)
    ensures ComposerVersion(json, lockfile, firstSegment) == Ok("1") <==> InvalidV2Requirement(json)
    ensures ComposerVersion(json, lockfile, firstSegment) != Ok("1") ==> ComposerVersion(json, lockfile, firstSegment) == Ok("2")
  {
  }

  /** Without a `require` key no requirement is invalid. */
  lemma NoRequireIsValid(json: ComposerJson)
    requires json.require.None?
    ensures !InvalidV2Requirement(json)
  {
  }

  // ---------------------------------------------------------------------
  // dependency_url_from_git_clone_error
  // ---------------------------------------------------------------------

  const MirrorPrefix: string := "Failed to execute git clone --"
  const ClonePrefix: string := "Failed to clone "

  /** The message raised when no url could be read from the error. */
  function UnparseableMessage(message: string): string
  {
    "Could not parse dependency_url from git clone error: " + message
  }

  /** The first `'` at or after `i`. */
  function QuoteFrom(s: string, i: nat): (r: Option<nat>)
    requires i <= |s|
    ensures r.Some? ==> i <= r.value < |s| && s[r.value] == '\''
    decreases |s| - i
  {
    if i == |s| then None
    else if s[i] == '\'' then Some(i)
    else QuoteFrom(s, i + 1)
  }

  /** `QuoteFrom` finds the first quote, and none when there is none. */
  lemma {:induction false} QuoteFromIsFirst(s: string, i: nat)
    requires i <= |s|
    ensures QuoteFrom(s, i).None? ==> forall k :: i <= k < |s| ==> s[k] != '\''
    ensures QuoteFrom(s, i).Some? ==> forall k :: i <= k < QuoteFrom(s, i).value ==> s[k] != '\''
    decreases |s| - i
  {
    if i < |s| && s[i] != '\'' {
      QuoteFromIsFirst(s, i + 1);
    }
  }

  /** `--(mirror|checkout)` at `p`: the position after it. */
  function ModeEnd(s: string, p: nat): (r: Option<nat>)
    requires p <= |s|
    ensures r.Some? ==> p < r.value <= |s|
  {
    if StartsWith(s[p..], "mirror") then Some(p + 6)
    else if StartsWith(s[p..], "checkout") then Some(p + 8)
    else None
  }

  /**
   * The `url` capture of `FAILED_GIT_CLONE_WITH_MIRROR` in a match starting at `i`. The greedy
   * `[^']*` can only stop at the first quote after the mode, and the lazy `[^']*?` at the next one.
   */
  function MirrorCaptureAt(s: string, i: nat): Option<string>
  {
    if i > |s| || !StartsWith(s[i..], MirrorPrefix) then None
    else
      match ModeEnd(s, i + |MirrorPrefix|)
      case None => None
      case Some(p) =>
        match QuoteFrom(s, p)
        case None => None
        case Some(open) =>
          match QuoteFrom(s, open + 1)
          case None => None
          case Some(close) => Some(s[open + 1..close])
  }

  /** A capture is the text between two quotes, after the mode, and holds no quote. */
  lemma MirrorCaptureShape(s: string, i: nat)
    requires MirrorCaptureAt(s, i).Some?
    ensures var u := MirrorCaptureAt(s, i).value;
      && '\'' !in u
      && exists open :: (i + |MirrorPrefix| < open && open + |u| + 1 < |s| && s[open] == '\'' &&
                         s[open + 1..open + 1 + |u|] == u && s[open + 1 + |u|] == '\'')
  {
    var p := ModeEnd(s, i + |MirrorPrefix|).value;
    var open := QuoteFrom(s, p).value;
    var close := QuoteFrom(s, open + 1).value;
    QuoteFromIsFirst(s, open + 1);
    var u := s[open + 1..close];
    assert close == open + 1 + |u|;
    assert forall k :: 0 <= k < |u| ==> u[k] == s[open + 1 + k];
  }

  /** The capture of the leftmost match of a `^`-anchored pattern, trying the line starts from `i` on. */
  function LeftmostCapture(s: string, i: nat, captureAt: nat -> Option<string>): Option<string>
    requires i <= |s|
    decreases |s| - i
  {
    if AtLineStart(s, i) && captureAt(i).Some? then captureAt(i)
    else if i == |s| then None
    else LeftmostCapture(s, i + 1, captureAt)
  }

  /** The search takes the capture of the first line start where the pattern matches. */
  lemma {:induction false} LeftmostCaptureIsFirst(s: string, i: nat, captureAt: nat -> Option<string>)
    requires i <= |s|
    ensures LeftmostCapture(s, i, captureAt).None? <==>
      forall j :: i <= j <= |s| ==> !AtLineStart(s, j) || captureAt(j).None?
    ensures LeftmostCapture(s, i, captureAt).Some? ==>
      exists j :: (i <= j <= |s| && AtLineStart(s, j) && captureAt(j) == LeftmostCapture(s, i, captureAt) &&
                   forall k :: i <= k < j ==> !AtLineStart(s, k) || captureAt(k).None?)
    decreases |s| - i
  {
    if !(AtLineStart(s, i) && captureAt(i).Some?) && i < |s| {
      LeftmostCaptureIsFirst(s, i + 1, captureAt);
      if LeftmostCapture(s, i, captureAt).Some? {
        var j :| i + 1 <= j <= |s| && AtLineStart(s, j) && captureAt(j) == LeftmostCapture(s, i + 1, captureAt) &&
                 forall k :: i + 1 <= k < j ==> !AtLineStart(s, k) || captureAt(k).None?;
        assert forall k :: i <= k < j ==> !AtLineStart(s, k) || captureAt(k).None?;
      }
    }
  }

  /** The `url` capture of the leftmost match of `FAILED_GIT_CLONE_WITH_MIRROR`. */
  function MirrorCapture(s: string): (r: Option<string>)
    ensures r.Some? ==> exists j :: 0 <= j <= |s| && AtLineStart(s, j) && MirrorCaptureAt(s, j) == r
  {
    LeftmostCaptureIsFirst(s, 0, (j: nat) => MirrorCaptureAt(s, j));
    LeftmostCapture(s, 0, (j: nat) => MirrorCaptureAt(s, j))
  }

  /** `message.match?(FAILED_GIT_CLONE)`: some line starts with `Failed to clone `. */
  predicate MentionsFailedClone(message: string)
  {
    exists i :: 0 <= i <= |message| && AtLineStart(message, i) && StartsWith(message[i..], ClonePrefix)
  }

  /**
   * `dependency_url_from_git_clone_error`: nil when neither pattern matches; the cleaned url of
   * the mirror pattern; a `RuntimeError` when the captured url is empty. The `url` group of
   * `FAILED_GIT_CLONE` is a lazy `.*?` with nothing after it, so it always captures the empty
   * string and that branch always raises. `cleanUrl` is `clean_dependency_url` (URI parsing).
   */
  function DependencyUrlFromGitCloneError(message: string, cleanUrl: string -> string)
    : (r: Result<Option<string>, DependabotError>)
    ensures r.Raise? ==> r.error == RuntimeError(UnparseableMessage(message))
    ensures r.Raise? <==>
      MirrorCapture(message) == Some([]) || (MirrorCapture(message).None? && MentionsFailedClone(message))
    ensures MirrorCapture(message).Some? && MirrorCapture(message).value != [] ==>
      r == Ok(Some(cleanUrl(MirrorCapture(message).value)))
  {
    match MirrorCapture(message)
    case Some(url) =>
      if url == [] then Raise(RuntimeError(UnparseableMessage(message))) else Ok(Some(cleanUrl(url)))
    case None =>
      if MentionsFailedClone(message) then Raise(RuntimeError(UnparseableMessage(message)))
      else Ok(None)
  }

  /** Nil exactly when neither pattern matches the message. */
  lemma NilWithoutPattern(message: string, cleanUrl: string -> string)
    ensures DependencyUrlFromGitCloneError(message, cleanUrl) == Ok(None) <==>
      (MirrorCapture(message).None? && !MentionsFailedClone(message))
  {
  }

  /** An empty capture raises. */
  lemma EmptyCaptureRaises(message: string, cleanUrl: string -> string)
    requires MirrorCapture(message) == Some([])
    ensures DependencyUrlFromGitCloneError(message, cleanUrl).Raise?
  {
  }

  /** A message that only matches `FAILED_GIT_CLONE` always raises: the lazy capture is empty. */
  lemma FailedCloneAlwaysRaises(message: string, cleanUrl: string -> string)
    requires MirrorCapture(message).None?
    requires MentionsFailedClone(message)
    ensures DependencyUrlFromGitCloneError(message, cleanUrl).Raise?
  {
  }

  /**
   * A url is only ever returned from the mirror pattern: it is the cleaned text between the first
   * two quotes after the mode at the first line start that matches, and that text is not empty.
   */
  lemma ReturnedUrlIsQuoted(message: string, cleanUrl: string -> string)
    requires DependencyUrlFromGitCloneError(message, cleanUrl).Ok?
    requires DependencyUrlFromGitCloneError(message, cleanUrl).value.Some?
    ensures MirrorCapture(message).Some?
    ensures MirrorCapture(message).value != []
    ensures '\'' !in MirrorCapture(message).value
    ensures DependencyUrlFromGitCloneError(message, cleanUrl).value.value == cleanUrl(MirrorCapture(message).value)
  {
    var captureAt := (j: nat) => MirrorCaptureAt(message, j);
    LeftmostCaptureIsFirst(message, 0, captureAt);
    var j :| 0 <= j <= |message| && AtLineStart(message, j) && captureAt(j) == MirrorCapture(message) &&
             forall k :: 0 <= k < j ==> !AtLineStart(message, k) || captureAt(k).None?;
    MirrorCaptureShape(message, j);
  }
}
