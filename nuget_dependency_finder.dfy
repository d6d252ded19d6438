/**
 * NuGet's `DependencyFinder`: the walk over `.nuspec` files that collects the
 * transitive dependencies of a package, and the peer updates derived from it.
 *
 * The feeds are a finite map from (lower-cased package id, version string) to
 * the `<dependency>` elements of that package's `.nuspec`; a key that is
 * absent is a package whose `.nuspec` could not be fetched. The version class
 * is abstract: `parse` is `Version.new` (`None` when it raises) and `less` its
 * `<`.
 */
module NugetDependencyFinder {

  import opened Wrappers
  import opened Errors
  import opened Text
  import opened Versions
  import NugetVersionFinder

  // ---------------------------------------------------------------------
  // The version inside a version range
  // ---------------------------------------------------------------------

  /** The length of the run of `\w` characters starting at `i`. */
  function WordRun(s: string, i: nat): (n: nat)
    requires i <= |s|
    ensures i + n <= |s|
    ensures forall k :: i <= k < i + n ==> IsWordChar(s[k])
    decreases |s| - i
  {
    if i < |s| && IsWordChar(s[i]) then 1 + WordRun(s, i + 1) else 0
  }

  /** Where `(\.\d+)*` stops when it starts matching at `j`. */
  function NumberGroupsEnd(s: string, j: nat): (e: nat)
    requires j <= |s|
    ensures j <= e <= |s|
    decreases |s| - j
  {
    if j + 1 < |s| && s[j] == '.' && IsDigit(s[j + 1]) then NumberGroupsEnd(s, j + 1 + DigitRun(s, j + 1))
    else j
  }

  /** Where `\d+(\.\d+)*(-\w+(\.\d+)*)?` stops when it starts matching at the digit at `i`. */
  function VersionTokenEnd(s: string, i: nat): (e: nat)
    requires i < |s| && IsDigit(s[i])
    ensures i < e <= |s|
  {
    var j := NumberGroupsEnd(s, i + DigitRun(s, i));
    if j + 1 < |s| && s[j] == '-' && IsWordChar(s[j + 1]) then NumberGroupsEnd(s, j + 1 + WordRun(s, j + 1))
    else j
  }

  /** The regex `[\[(]\d` matches at `i`. */
  predicate OpensVersion(s: string, i: int)
  {
    0 <= i && i + 1 < |s| && NugetVersionFinder.IsRangeOpen(s[i]) && IsDigit(s[i + 1])
  }

  /** The leftmost position from `from` on where `OpensVersion` holds. */
  function FirstOpening(s: string, from: nat): (r: Option<nat>)
    requires from <= |s|
    ensures r.Some? ==> from <= r.value && OpensVersion(s, r.value)
    ensures r.Some? ==> forall k :: from <= k < r.value ==> !OpensVersion(s, k)
    ensures r.None? ==> forall k :: from <= k < |s| ==> !OpensVersion(s, k)
    decreases |s| - from
  {
    if from == |s| then None
    else if OpensVersion(s, from) then Some(from)
    else FirstOpening(s, from + 1)
  }

  /**
   * The version `fetch_transitive_dependencies_impl` reads from a range: the
   * first capture of `[\[(](\d+(\.\d+)*(-\w+(\.\d+)*)?)`, or the whole range
   * when the regex does not match.
   */
  function RangeVersion(range: string): (r: string)
    ensures |r| <= |range|
    ensures FirstOpening(range, 0).Some? ==> r != [] && IsDigit(r[0])
  {
    match FirstOpening(range, 0)
    case None => range
    case Some(i) => range[i + 1..VersionTokenEnd(range, i + 1)]
  }

  /** The character at `k` is a digit, or a dot before a digit. */
  predicate DigitOrDotAt(t: string, k: int)
    requires 0 <= k < |t|
  {
    IsDigit(t[k]) || (t[k] == '.' && k + 1 < |t| && IsDigit(t[k + 1]))
  }

  /** The character at `k` is a word character, or a dot before a digit. */
  predicate WordOrDotAt(u: string, k: int)
    requires 0 <= k < |u|
  {
    IsWordChar(u[k]) || (u[k] == '.' && k + 1 < |u| && IsDigit(u[k + 1]))
  }

  /** `\d+(\.\d+)*`: digits, where every dot sits before a digit. */
  predicate IsNumberGroups(t: string)
  {
    && t != []
    && IsDigit(t[0])
    && forall k :: 0 <= k < |t| ==> DigitOrDotAt(t, k)
  }

  /** `\w+(\.\d+)*`: word characters, then only digits and dots, every dot before a digit. */
  predicate IsSuffix(u: string)
  {
    && u != []
    && IsWordChar(u[0])
    && (forall k :: 0 <= k < |u| ==> WordOrDotAt(u, k))
    && (forall k, q :: 0 <= k < q < |u| && u[k] == '.' ==> IsDigit(u[q]) || u[q] == '.')
  }

  /** The version grammar of the range regex: numbers, optionally `-` and a suffix. */
  predicate IsVersionToken(t: string)
  {
    || IsNumberGroups(t)
    || exists m :: 0 < m < |t| && t[m] == '-' && IsNumberGroups(t[..m]) && IsSuffix(t[m + 1..])
  }

  /** A dot followed by digits, appended to `s[a..j]`, reaching `s[a..e]`. */
  predicate DotDigitsAfter(s: string, a: nat, j: nat, e: nat)
  {
    && a < j && j + 1 < e <= |s| && s[j] == '.'
    && forall k :: j < k < e ==> IsDigit(s[k])
  }

  /** Every character of the extension is a digit, or a dot before a digit. */
  lemma DotDigitsChars(s: string, a: nat, j: nat, e: nat, k: nat)
    requires DotDigitsAfter(s, a, j, e)
    requires j - a <= k < e - a
    ensures DigitOrDotAt(s[a..e], k) && WordOrDotAt(s[a..e], k)
  {
    if k == j - a {
      assert s[a..e][k + 1] == s[j + 1];
    } else {
      assert s[a..e][k] == s[a + k];
    }
  }

  /** Appending a dot and digits keeps `\d+(\.\d+)*`. */
  lemma ExtendNumberGroups(s: string, a: nat, j: nat, e: nat)
    requires DotDigitsAfter(s, a, j, e) && IsNumberGroups(s[a..j])
    ensures IsNumberGroups(s[a..e])
  {
    var t, u := s[a..j], s[a..e];
    assert IsNumberGroups(t);
    assert |t| == j - a && |u| == e - a;
    forall k | 0 <= k < |u|
      ensures DigitOrDotAt(u, k)
    {
      if k < |t| {
        assert DigitOrDotAt(t, k);
        assert u[k] == t[k];
        if k + 1 < |t| {
          assert u[k + 1] == t[k + 1];
        }
      } else {
        DotDigitsChars(s, a, j, e, k);
      }
    }
    assert u[0] == t[0];
  }

  /** Appending a dot and digits keeps `\w+(\.\d+)*`. */
  lemma ExtendSuffix(s: string, a: nat, j: nat, e: nat)
    requires DotDigitsAfter(s, a, j, e) && IsSuffix(s[a..j])
    ensures IsSuffix(s[a..e])
  {
    var t, u := s[a..j], s[a..e];
    assert |t| == j - a && |u| == e - a;
    forall k | 0 <= k < |u|
      ensures WordOrDotAt(u, k)
    {
      if k < |t| {
        assert WordOrDotAt(t, k);
        assert u[k] == t[k];
        if k + 1 < |t| {
          assert u[k + 1] == t[k + 1];
        }
      } else {
        DotDigitsChars(s, a, j, e, k);
      }
    }
    forall k, q | 0 <= k < q < |u| && u[k] == '.'
      ensures IsDigit(u[q]) || u[q] == '.'
    {
      if q < |t| {
        assert u[k] == t[k] && u[q] == t[q];
      } else {
        DotDigitsChars(s, a, j, e, q);
      }
    }
    assert u[0] == t[0];
  }

  /** `(\.\d+)*` keeps `\d+(\.\d+)*`. */
  lemma {:induction false} NumberGroupsEndKeepsNumbers(s: string, a: nat, j: nat)
    requires a < j <= |s| && IsNumberGroups(s[a..j])
    ensures IsNumberGroups(s[a..NumberGroupsEnd(s, j)])
    decreases |s| - j
  {
    if j + 1 < |s| && s[j] == '.' && IsDigit(s[j + 1]) {
      var e := j + 1 + DigitRun(s, j + 1);
      DigitRunDigits(s, j + 1);
      ExtendNumberGroups(s, a, j, e);
      NumberGroupsEndKeepsNumbers(s, a, e);
    }
  }

  /** `(\.\d+)*` keeps `\w+(\.\d+)*`. */
  lemma {:induction false} NumberGroupsEndKeepsSuffix(s: string, a: nat, j: nat)
    requires a < j <= |s| && IsSuffix(s[a..j])
    ensures IsSuffix(s[a..NumberGroupsEnd(s, j)])
    decreases |s| - j
  {
    if j + 1 < |s| && s[j] == '.' && IsDigit(s[j + 1]) {
      var e := j + 1 + DigitRun(s, j + 1);
      DigitRunDigits(s, j + 1);
      ExtendSuffix(s, a, j, e);
      NumberGroupsEndKeepsSuffix(s, a, e);
    }
  }

  /** A run of digits is `\d+`. */
  lemma DigitRunIsNumberGroups(s: string, i: nat)
    requires i < |s| && IsDigit(s[i])
    ensures IsNumberGroups(s[i..i + DigitRun(s, i)])
  {
    DigitRunDigits(s, i);
    var t := s[i..i + DigitRun(s, i)];
    assert forall k :: 0 <= k < |t| ==> t[k] == s[i + k];
  }

  /** A run of word characters is `\w+`. */
  lemma WordRunIsSuffix(s: string, i: nat)
    requires i < |s| && IsWordChar(s[i])
    ensures IsSuffix(s[i..i + WordRun(s, i)])
  {
    var u := s[i..i + WordRun(s, i)];
    assert forall k :: 0 <= k < |u| ==> u[k] == s[i + k];
  }

  /** Numbers, `-` and a suffix make a version token. */
  lemma TokenFromParts(s: string, i: nat, j: nat, e: nat)
    requires i < j && j + 1 < e <= |s| && s[j] == '-'
    requires IsNumberGroups(s[i..j]) && IsSuffix(s[j + 1..e])
    ensures IsVersionToken(s[i..e])
  {
    var t := s[i..e];
    assert t[..j - i] == s[i..j];
    assert t[j - i + 1..] == s[j + 1..e];
    assert t[j - i] == '-';
  }

  /** What the scanner reads from the digit at `i` follows the version grammar. */
  lemma VersionTokenShape(s: string, i: nat)
    requires i < |s| && IsDigit(s[i])
    ensures IsVersionToken(s[i..VersionTokenEnd(s, i)])
  {
    var d := i + DigitRun(s, i);
    DigitRunIsNumberGroups(s, i);
    NumberGroupsEndKeepsNumbers(s, i, d);
    var j := NumberGroupsEnd(s, d);
    if j + 1 < |s| && s[j] == '-' && IsWordChar(s[j + 1]) {
      SuffixedTokenShape(s, i, j);
    } else {
      assert VersionTokenEnd(s, i) == j;
    }
  }

  /** After numbers ending at `j`, a `-` and a suffix give a version token. */
  lemma SuffixedTokenShape(s: string, i: nat, j: nat)
    requires i < j && j + 1 < |s| && s[j] == '-' && IsWordChar(s[j + 1])
    requires IsNumberGroups(s[i..j])
    ensures IsVersionToken(s[i..NumberGroupsEnd(s, j + 1 + WordRun(s, j + 1))])
  {
    var w := j + 1 + WordRun(s, j + 1);
    WordRunIsSuffix(s, j + 1);
    NumberGroupsEndKeepsSuffix(s, j + 1, w);
    TokenFromParts(s, i, j, NumberGroupsEnd(s, w));
  }

  /**
   * With `i` the first position where a bracket is followed by a digit, the
   * version is a token of the version grammar that starts right after that
   * bracket; with no such position it is the whole range.
   */
  lemma RangeVersionIs(range: string, i: nat)
    requires i <= |range|
    requires forall k :: 0 <= k < i ==> !OpensVersion(range, k)
    ensures i == |range| ==> RangeVersion(range) == range
    ensures OpensVersion(range, i) ==>
      IsVersionToken(RangeVersion(range)) && StartsWith(range[i + 1..], RangeVersion(range))
  {
    if OpensVersion(range, i) {
      var f := FirstOpening(range, 0);
      assert f == Some(i);
      VersionTokenShape(range, i + 1);
    }
  }

  // ---------------------------------------------------------------------
  // Reading a .nuspec
  // ---------------------------------------------------------------------

  /** A `<dependency>` element: its `id`, `version`, `include` and `exclude` attributes. */
  datatype NuspecElement = NuspecElement(id: string, version: Option<string>, includeAttr: Option<string>, excludeAttr: Option<string>)

  /** The hash `read_dependencies_from_nuspec` builds. */
  datatype NuspecDependency = NuspecDependency(packageName: string, versionRange: string)

  /** The asset types that are not development-only. */
  const AllowedAttributes: seq<string> := ["all", "compile", "native", "runtime"]

  /** The comma-separated values of an attribute, each stripped. */
  function AttributeValues(attr: string): seq<string>
  {
    var parts := Split(attr, ',');
    seq(|parts|, k requires 0 <= k < |parts| => Strip(parts[k]))
  }

  predicate IsAllowedAsset(value: string)
  {
    exists a :: a in AllowedAttributes && EqualsIgnoreCase(value, a)
  }

  /** `values.any?` of an allowed asset type. */
  predicate AnyAllowed(values: seq<string>)
  {
    values != [] && (IsAllowedAsset(values[0]) || AnyAllowed(values[1..]))
  }

  /** `AnyAllowed` holds exactly when some value is an allowed asset type. */
  lemma {:induction false} AnyAllowedIsExists(values: seq<string>)
    ensures AnyAllowed(values) <==> exists v :: v in values && IsAllowedAsset(v)
  {
    if values != [] {
      AnyAllowedIsExists(values[1..]);
      assert values == [values[0]] + values[1..];
    }
  }

  /** The `select` of `read_dependencies_from_nuspec`. */
  predicate KeepsElement(e: NuspecElement)
  {
    if e.includeAttr.None? && e.excludeAttr.None? then true
    else if e.includeAttr.Some? then AnyAllowed(AttributeValues(e.includeAttr.value))
    else !AnyAllowed(AttributeValues(e.excludeAttr.value))
  }

  /** The dependency list of a `.nuspec`, built from its first `n` elements. */
  function NuspecDependencies(elements: seq<NuspecElement>): (r: seq<NuspecDependency>)
    ensures |r| <= |elements|
  {
    if elements == [] then []
    else
      var e := elements[|elements| - 1];
      var front := NuspecDependencies(elements[..|elements| - 1]);
      if KeepsElement(e) && e.version.Some? then front + [NuspecDependency(e.id, e.version.value)] else front
  }

  /** A listed dependency is exactly a kept element that has a `version` attribute, in element order. */
  lemma {:induction false} NuspecDependenciesAre(elements: seq<NuspecElement>)
    ensures |NuspecDependencies(elements)| <= |elements|
    ensures forall d :: d in NuspecDependencies(elements) <==> ListsDependency(elements, d)
  {
    if elements != [] {
      var n := |elements| - 1;
      NuspecDependenciesAre(elements[..n]);
      forall d
        ensures d in NuspecDependencies(elements) <==> ListsDependency(elements, d)
      {
        ListsDependencyStep(elements, d);
      }
    }
  }

  /** The element is kept, has a version, and its hash is `d`. */
  predicate Gives(e: NuspecElement, d: NuspecDependency)
  {
    KeepsElement(e) && e.version == Some(d.versionRange) && e.id == d.packageName
  }

  /** Some element of `elements` is kept, has a version and gives `d`. */
  predicate ListsDependency(elements: seq<NuspecElement>, d: NuspecDependency)
  {
    exists k :: 0 <= k < |elements| && Gives(elements[k], d)
  }

  /** The list of a non-empty element sequence: its front's, and what its last element gives. */
  lemma InNuspecDependenciesSnoc(elements: seq<NuspecElement>, d: NuspecDependency)
    requires elements != []
    ensures d in NuspecDependencies(elements) <==>
      d in NuspecDependencies(elements[..|elements| - 1]) || Gives(elements[|elements| - 1], d)
  {
    var n := |elements| - 1;
    var e := elements[n];
    var front := NuspecDependencies(elements[..n]);
    if KeepsElement(e) && e.version.Some? {
      var own := NuspecDependency(e.id, e.version.value);
      assert NuspecDependencies(elements) == front + [own];
      assert Gives(e, d) <==> d == own;
    } else {
      assert NuspecDependencies(elements) == front;
    }
  }

  /** An element of the front of a sequence is an element of the sequence. */
  lemma ListsDependencyFront(elements: seq<NuspecElement>, n: nat, d: NuspecDependency)
    requires n <= |elements| && ListsDependency(elements[..n], d)
    ensures ListsDependency(elements, d)
  {
    var k :| 0 <= k < n && Gives(elements[..n][k], d);
    assert elements[k] == elements[..n][k];
  }

  /** An element of a sequence is an element of its front, or its last. */
  lemma ListsDependencyFrontOrLast(elements: seq<NuspecElement>, d: NuspecDependency)
    requires elements != [] && ListsDependency(elements, d)
    ensures ListsDependency(elements[..|elements| - 1], d) || Gives(elements[|elements| - 1], d)
  {
    var k :| 0 <= k < |elements| && Gives(elements[k], d);
    if k < |elements| - 1 {
      assert elements[..|elements| - 1][k] == elements[k];
    }
  }

  /** An element gives `d` in a non-empty sequence when one does in its front or the last one does. */
  lemma ListsDependencySnoc(elements: seq<NuspecElement>, d: NuspecDependency)
    requires elements != []
    ensures ListsDependency(elements, d) <==>
      ListsDependency(elements[..|elements| - 1], d) || Gives(elements[|elements| - 1], d)
  {
    var n := |elements| - 1;
    if ListsDependency(elements[..n], d) {
      ListsDependencyFront(elements, n, d);
    }
    if ListsDependency(elements, d) {
      ListsDependencyFrontOrLast(elements, d);
    }
  }

  /** The inductive step of `NuspecDependenciesAre` for one dependency. */
  lemma ListsDependencyStep(elements: seq<NuspecElement>, d: NuspecDependency)
    requires elements != []
    requires d in NuspecDependencies(elements[..|elements| - 1]) <==> ListsDependency(elements[..|elements| - 1], d)
    ensures d in NuspecDependencies(elements) <==> ListsDependency(elements, d)
  {
    InNuspecDependenciesSnoc(elements, d);
    ListsDependencySnoc(elements, d);
  }

  /** `read_dependencies_from_nuspec`: the kept elements that have a version, appended in order. */
  method ReadDependenciesFromNuspec(elements: seq<NuspecElement>) returns (list: seq<NuspecDependency>)
    ensures list == NuspecDependencies(elements)
  {
    list := [];
    var i := 0;
    while i < |elements|
      invariant 0 <= i <= |elements|
      invariant list == NuspecDependencies(elements[..i])
    {
      var e := elements[i];
      assert elements[..i + 1][..i] == elements[..i];
      if KeepsElement(e) && e.version.Some? {
        list := list + [NuspecDependency(e.id, e.version.value)];
      }
      i := i + 1;
    }
    assert elements[..i] == elements;
  }

  // ---------------------------------------------------------------------
  // The transitive walk
  // ---------------------------------------------------------------------

  /** A dependency hash once the walk has stored its parsed `"version"`. */
  datatype Found<V> = Found(packageName: string, versionRange: string, version: V)

  /** `fetch_dependencies`: the dependencies of a package, `[]` when its `.nuspec` is missing. */
  function Fetched(registry: map<(string, string), seq<NuspecElement>>, key: string, version: string): seq<NuspecDependency>
  {
    if (key, version) in registry then NuspecDependencies(registry[(key, version)]) else []
  }

  /** Every dependency listed in a `.nuspec` of the feeds has a version that `Version.new` accepts. */
  ghost predicate AllRangesParse<V>(registry: map<(string, string), seq<NuspecElement>>, parse: string -> Option<V>)
  {
    forall key, version, d :: d in Fetched(registry, key, version) ==> parse(RangeVersion(d.versionRange)).Some?
  }

  /** `fetch_dependencies`, looking up the `.nuspec` by lower-cased id and version. */
  method FetchDependencies(registry: map<(string, string), seq<NuspecElement>>, id: string, version: string)
    returns (deps: seq<NuspecDependency>)
    ensures deps == Fetched(registry, Lower(id), version)
  {
    var key := (Lower(id), version);
    if key in registry {
      deps := ReadDependenciesFromNuspec(registry[key]);
    } else {
      deps := [];
    }
  }

  /** Every (lower-cased id, version) pair any `.nuspec` of the feeds can lead to. */
  ghost function Universe<V>(registry: map<(string, string), seq<NuspecElement>>, parse: string -> Option<V>): set<(string, V)>
  {
    set key, k | key in registry && 0 <= k < |registry[key]| && registry[key][k].version.Some?
      && parse(RangeVersion(registry[key][k].version.value)).Some?
      :: (Lower(registry[key][k].id), parse(RangeVersion(registry[key][k].version.value)).value)
  }

  lemma FetchedInUniverse<V>(
    registry: map<(string, string), seq<NuspecElement>>, parse: string -> Option<V>,
    key: string, version: string, d: NuspecDependency)
    requires d in Fetched(registry, key, version)
    requires parse(RangeVersion(d.versionRange)).Some?
    ensures (Lower(d.packageName), parse(RangeVersion(d.versionRange)).value) in Universe(registry, parse)
  {
    var elements := registry[(key, version)];
    NuspecDependenciesAre(elements);
    var k :| 0 <= k < |elements| && Gives(elements[k], d);
    assert registry[(key, version)][k] == elements[k];
  }

  /** The `.nuspec` the walk fetches for a dependency: its lower-cased id and the version its range names. */
  function Target(packageName: string, versionRange: string): (string, string)
  {
    (Lower(packageName), RangeVersion(versionRange))
  }

  /** The walk goes on from the `.nuspec` `from` to `d`: `from` lists `d`, and `Version.new` accepts its version. */
  ghost predicate Leads<V>(registry: map<(string, string), seq<NuspecElement>>, parse: string -> Option<V>,
                           from: (string, string), d: NuspecDependency)
  {
    d in Fetched(registry, from.0, from.1) && parse(RangeVersion(d.versionRange)).Some?
  }

  /** The walk can go from the `.nuspec` `from` straight to the `.nuspec` `to`. */
  ghost predicate Edge<V>(registry: map<(string, string), seq<NuspecElement>>, parse: string -> Option<V>,
                          from: (string, string), to: (string, string))
  {
    exists d :: Leads(registry, parse, from, d) && Target(d.packageName, d.versionRange) == to
  }

  /** A chain of fetches from `root`: every later `.nuspec` is the target of a dependency the one before it lists. */
  ghost predicate IsChain<V>(registry: map<(string, string), seq<NuspecElement>>, parse: string -> Option<V>,
                             root: (string, string), path: seq<(string, string)>)
  {
    && |path| >= 1 && path[0] == root
    && forall i :: 1 <= i < |path| ==> Edge(registry, parse, path[i - 1], path[i])
  }

  /** The walk from `root` can reach the `.nuspec` `node`. */
  ghost predicate Reachable<V>(registry: map<(string, string), seq<NuspecElement>>, parse: string -> Option<V>,
                               root: (string, string), node: (string, string))
  {
    exists path :: IsChain(registry, parse, root, path) && path[|path| - 1] == node
  }

  lemma ReachableRoot<V>(registry: map<(string, string), seq<NuspecElement>>, parse: string -> Option<V>, root: (string, string))
    ensures Reachable(registry, parse, root, root)
  {
    assert IsChain(registry, parse, root, [root]);
  }

  /** Whatever a reachable `.nuspec` leads to is reachable. */
  lemma ReachableStep<V>(registry: map<(string, string), seq<NuspecElement>>, parse: string -> Option<V>,
                         root: (string, string), from: (string, string), d: NuspecDependency)
    requires Reachable(registry, parse, root, from) && Leads(registry, parse, from, d)
    ensures Reachable(registry, parse, root, Target(d.packageName, d.versionRange))
  {
    var path :| IsChain(registry, parse, root, path) && path[|path| - 1] == from;
    var next := Target(d.packageName, d.versionRange);
    assert Edge(registry, parse, from, next);
    ChainSnoc(registry, parse, root, path, next);
  }

  lemma ChainSnoc<V>(registry: map<(string, string), seq<NuspecElement>>, parse: string -> Option<V>,
                     root: (string, string), path: seq<(string, string)>, next: (string, string))
    requires IsChain(registry, parse, root, path) && Edge(registry, parse, path[|path| - 1], next)
    ensures IsChain(registry, parse, root, path + [next])
  {
    var longer := path + [next];
    forall i | 1 <= i < |longer|
      ensures Edge(registry, parse, longer[i - 1], longer[i])
    {
      if i < |path| {
        assert longer[i - 1] == path[i - 1] && longer[i] == path[i];
      }
    }
  }

  /** The pairs of the universe that the map does not yet hold at that version or above. */
  ghost function PendingOf<V>(u: set<(string, V)>, all: map<string, Found<V>>, less: (V, V) -> bool): set<(string, V)>
  {
    set p | p in u && (p.0 !in all || less(all[p.0].version, p.1))
  }

  /** Storing a pending pair removes it, and makes nothing pending. */
  lemma InsertShrinksPending<V(!new)>(u: set<(string, V)>, all: map<string, Found<V>>, key: string, f: Found<V>, less: (V, V) -> bool)
    requires StrictTotalOrder(less)
    requires (key, f.version) in u
    requires key !in all || less(all[key].version, f.version)
    ensures PendingOf(u, all[key := f], less) <= PendingOf(u, all, less)
    ensures (key, f.version) in PendingOf(u, all, less)
    ensures (key, f.version) !in PendingOf(u, all[key := f], less)
  {
  }

  /** A subset is the set itself or strictly smaller: the walk's measure does not grow. */
  lemma SubsetIsBelow<T>(a: set<T>, b: set<T>)
    requires a <= b
    ensures a < b || a == b
  {
  }

  /** From `a` to `b` no key is lost and an entry is replaced only by a strictly higher version. */
  ghost predicate Rises<V>(a: map<string, Found<V>>, b: map<string, Found<V>>, less: (V, V) -> bool)
  {
    forall key :: key in a ==> key in b && (b[key] == a[key] || less(a[key].version, b[key].version))
  }

  /** Every dependency of the package `(key, version)` is in `all` at its version or above. */
  ghost predicate Covers<V>(
    registry: map<(string, string), seq<NuspecElement>>, parse: string -> Option<V>, less: (V, V) -> bool,
    all: map<string, Found<V>>, key: string, version: string)
  {
    forall d :: d in Fetched(registry, key, version) && parse(RangeVersion(d.versionRange)).Some? ==>
      && Lower(d.packageName) in all
      && !less(all[Lower(d.packageName)].version, parse(RangeVersion(d.versionRange)).value)
  }

  /** Coverage survives entries rising. */
  lemma CoversRises<V(!new)>(
    registry: map<(string, string), seq<NuspecElement>>, parse: string -> Option<V>, less: (V, V) -> bool,
    a: map<string, Found<V>>, b: map<string, Found<V>>, key: string, version: string)
    requires StrictTotalOrder(less) && Rises(a, b, less)
    requires Covers(registry, parse, less, a, key, version)
    ensures Covers(registry, parse, less, b, key, version)
  {
  }

  /** From `a` to `b` entries only rose and nothing became pending. */
  ghost predicate Grew<V>(
    registry: map<(string, string), seq<NuspecElement>>, parse: string -> Option<V>, less: (V, V) -> bool,
    a: map<string, Found<V>>, b: map<string, Found<V>>)
  {
    && Rises(a, b, less)
    && PendingOf(Universe(registry, parse), b, less) <= PendingOf(Universe(registry, parse), a, less)
  }

  lemma GrewTransitive<V(!new)>(
    registry: map<(string, string), seq<NuspecElement>>, parse: string -> Option<V>, less: (V, V) -> bool,
    a: map<string, Found<V>>, b: map<string, Found<V>>, c: map<string, Found<V>>)
    requires StrictTotalOrder(less)
    requires Grew(registry, parse, less, a, b) && Grew(registry, parse, less, b, c)
    ensures Grew(registry, parse, less, a, c)
  {
  }

  /** Every entry of `b` is the one `a` had, or has its own dependencies covered. */
  ghost predicate CoveredSince<V>(
    registry: map<(string, string), seq<NuspecElement>>, parse: string -> Option<V>, less: (V, V) -> bool,
    a: map<string, Found<V>>, b: map<string, Found<V>>)
  {
    forall key :: key in b ==>
      || (key in a && b[key] == a[key])
      || Covers(registry, parse, less, b, key, RangeVersion(b[key].versionRange))
  }

  lemma CoveredSinceTransitive<V(!new)>(
    registry: map<(string, string), seq<NuspecElement>>, parse: string -> Option<V>, less: (V, V) -> bool,
    a: map<string, Found<V>>, b: map<string, Found<V>>, c: map<string, Found<V>>)
    requires StrictTotalOrder(less) && Rises(b, c, less)
    requires CoveredSince(registry, parse, less, a, b) && CoveredSince(registry, parse, less, b, c)
    ensures CoveredSince(registry, parse, less, a, c)
  {
    forall key | key in c
      ensures || (key in a && c[key] == a[key])
              || Covers(registry, parse, less, c, key, RangeVersion(c[key].versionRange))
    {
      if key in b && c[key] == b[key] && !(key in a && b[key] == a[key]) {
        CoversRises(registry, parse, less, b, c, key, RangeVersion(b[key].versionRange));
      }
    }
  }

  /** Storing a pending pair is growth. */
  lemma StoreGrows<V(!new)>(
    registry: map<(string, string), seq<NuspecElement>>, parse: string -> Option<V>, less: (V, V) -> bool,
    all: map<string, Found<V>>, key: string, f: Found<V>)
    requires StrictTotalOrder(less)
    requires (key, f.version) in Universe(registry, parse)
    requires key !in all || less(all[key].version, f.version)
    ensures Grew(registry, parse, less, all, all[key := f])
    ensures PendingOf(Universe(registry, parse), all[key := f], less) < PendingOf(Universe(registry, parse), all, less)
  {
    InsertShrinksPending(Universe(registry, parse), all, key, f, less);
  }

  /**
   * After storing `f` at `key` and expanding it successfully, every entry is
   * unchanged since before the store or covered, and `key` holds `f`'s version
   * or above.
   */
  lemma StoreThenExpand<V(!new)>(
    registry: map<(string, string), seq<NuspecElement>>, parse: string -> Option<V>, less: (V, V) -> bool,
    all: map<string, Found<V>>, key: string, f: Found<V>, after: map<string, Found<V>>)
    requires StrictTotalOrder(less)
    requires Rises(all[key := f], after, less)
    requires CoveredSince(registry, parse, less, all[key := f], after)
    requires Covers(registry, parse, less, after, key, RangeVersion(f.versionRange))
    ensures CoveredSince(registry, parse, less, all, after)
    ensures key in after && !less(after[key].version, f.version)
  {
  }

  /** The first `n` dependencies in `deps` are in `all` at their versions or above. */
  ghost predicate CoversFirst<V>(parse: string -> Option<V>, less: (V, V) -> bool, all: map<string, Found<V>>, deps: seq<NuspecDependency>, n: nat)
    requires n <= |deps|
  {
    forall m :: 0 <= m < n && parse(RangeVersion(deps[m].versionRange)).Some? ==>
      && Lower(deps[m].packageName) in all
      && !less(all[Lower(deps[m].packageName)].version, parse(RangeVersion(deps[m].versionRange)).value)
  }

  lemma CoversFirstRises<V(!new)>(
    parse: string -> Option<V>, less: (V, V) -> bool,
    a: map<string, Found<V>>, b: map<string, Found<V>>, deps: seq<NuspecDependency>, n: nat)
    requires StrictTotalOrder(less) && Rises(a, b, less)
    requires n <= |deps| && CoversFirst(parse, less, a, deps, n)
    ensures CoversFirst(parse, less, b, deps, n)
  {
  }

  /** `a` is a prefix of `b`. */
  predicate PrefixOf<T(==)>(a: seq<T>, b: seq<T>)
  {
    |a| <= |b| && b[..|a|] == a
  }

  lemma PrefixOfTransitive<T>(a: seq<T>, b: seq<T>, c: seq<T>)
    requires PrefixOf(a, b) && PrefixOf(b, c)
    ensures PrefixOf(a, c)
  {
    assert c[..|a|] == c[..|b|][..|a|];
  }

  lemma CoversFirstStep<V>(parse: string -> Option<V>, less: (V, V) -> bool, all: map<string, Found<V>>, deps: seq<NuspecDependency>, n: nat)
    requires n < |deps| && CoversFirst(parse, less, all, deps, n)
    requires parse(RangeVersion(deps[n].versionRange)).Some?
    requires Lower(deps[n].packageName) in all
    requires !less(all[Lower(deps[n].packageName)].version, parse(RangeVersion(deps[n].versionRange)).value)
    ensures CoversFirst(parse, less, all, deps, n + 1)
  {
  }

  /** One turn of the walk's loop: what held up to `n`, and what visiting `deps[n]` did, gives what holds after it. */
  lemma WalkStep<V(!new)>(
    registry: map<(string, string), seq<NuspecElement>>, parse: string -> Option<V>, less: (V, V) -> bool,
    deps: seq<NuspecDependency>, n: nat, ok: bool,
    a0: map<string, Found<V>>, o0: seq<string>, e0: seq<(string, V)>,
    a: map<string, Found<V>>, o: seq<string>, e: seq<(string, V)>,
    b: map<string, Found<V>>, ob: seq<string>, eb: seq<(string, V)>)
    requires StrictTotalOrder(less) && n < |deps|
    requires Grew(registry, parse, less, a0, a) && PrefixOf(o0, o) && PrefixOf(e0, e)
    requires CoveredSince(registry, parse, less, a0, a) && CoversFirst(parse, less, a, deps, n)
    requires Grew(registry, parse, less, a, b) && PrefixOf(o, ob) && PrefixOf(e, eb)
    requires ok ==> parse(RangeVersion(deps[n].versionRange)).Some?
    requires ok ==> CoveredSince(registry, parse, less, a, b)
    requires ok ==> && Lower(deps[n].packageName) in b
                    && !less(b[Lower(deps[n].packageName)].version, parse(RangeVersion(deps[n].versionRange)).value)
    ensures Grew(registry, parse, less, a0, b) && PrefixOf(o0, ob) && PrefixOf(e0, eb)
    ensures ok ==> CoveredSince(registry, parse, less, a0, b) && CoversFirst(parse, less, b, deps, n + 1)
  {
    GrewTransitive(registry, parse, less, a0, a, b);
    PrefixOfTransitive(o0, o, ob);
    PrefixOfTransitive(e0, e, eb);
    if ok {
      CoveredSinceTransitive(registry, parse, less, a0, a, b);
      CoversFirstRises(parse, less, a, b, deps, n);
      CoversFirstStep(parse, less, b, deps, n);
    }
  }

  /** The walk's state: keys in insertion order, entries keyed by lower-cased id, the expanded pairs distinct and no longer pending. */
  ghost predicate WalkValid<V(!new)>(
    registry: map<(string, string), seq<NuspecElement>>, parse: string -> Option<V>, less: (V, V) -> bool,
    all: map<string, Found<V>>, order: seq<string>, expanded: seq<(string, V)>)
  {
    && StrictTotalOrder(less)
    && NoDuplicates(order)
    && (forall key :: key in order <==> key in all)
    && (forall key :: key in all ==>
          && key == Lower(all[key].packageName)
          && parse(RangeVersion(all[key].versionRange)) == Some(all[key].version)
          && (key, all[key].version) in Universe(registry, parse))
    && NoDuplicates(expanded)
    && (forall p :: p in expanded ==> p !in PendingOf(Universe(registry, parse), all, less))
  }

  /** Storing a pending pair, and recording its expansion, keeps the state valid. */
  lemma StoreKeepsValid<V(!new)>(
    registry: map<(string, string), seq<NuspecElement>>, parse: string -> Option<V>, less: (V, V) -> bool,
    all: map<string, Found<V>>, order: seq<string>, expanded: seq<(string, V)>, key: string, f: Found<V>)
    requires WalkValid(registry, parse, less, all, order, expanded)
    requires key == Lower(f.packageName) && parse(RangeVersion(f.versionRange)) == Some(f.version)
    requires (key, f.version) in Universe(registry, parse)
    requires key !in all || less(all[key].version, f.version)
    ensures WalkValid(registry, parse, less, all[key := f], if key in all then order else order + [key], expanded + [(key, f.version)])
  {
    InsertShrinksPending(Universe(registry, parse), all, key, f, less);
    var all' := all[key := f];
    var order' := if key in all then order else order + [key];
    assert forall k :: k in order' <==> k in all';
    forall k | k in all'
      ensures && k == Lower(all'[k].packageName)
              && parse(RangeVersion(all'[k].versionRange)) == Some(all'[k].version)
              && (k, all'[k].version) in Universe(registry, parse)
    {
      if k != key {
        assert all'[k] == all[k];
      }
    }
  }

  /** Storing `f` at `key` keeps the walk valid, is growth, shrinks what is pending and only appends. */
  lemma StoreStep<V(!new)>(
    registry: map<(string, string), seq<NuspecElement>>, parse: string -> Option<V>, less: (V, V) -> bool,
    all: map<string, Found<V>>, order: seq<string>, expanded: seq<(string, V)>, key: string, f: Found<V>,
    all': map<string, Found<V>>, order': seq<string>, expanded': seq<(string, V)>)
    requires WalkValid(registry, parse, less, all, order, expanded)
    requires key == Lower(f.packageName) && parse(RangeVersion(f.versionRange)) == Some(f.version)
    requires (key, f.version) in Universe(registry, parse)
    requires key !in all || less(all[key].version, f.version)
    requires all' == all[key := f] && order' == (if key in all then order else order + [key])
    requires expanded' == expanded + [(key, f.version)]
    ensures WalkValid(registry, parse, less, all', order', expanded')
    ensures Grew(registry, parse, less, all, all')
    ensures PendingOf(Universe(registry, parse), all', less) < PendingOf(Universe(registry, parse), all, less)
    ensures PrefixOf(order, order') && PrefixOf(expanded, expanded')
  {
    StoreGrows(registry, parse, less, all, key, f);
    StoreKeepsValid(registry, parse, less, all, order, expanded, key, f);
  }

  /** What storing `f` and then expanding it leaves, relative to before the store. */
  lemma AfterStoreAndExpand<V(!new)>(
    registry: map<(string, string), seq<NuspecElement>>, parse: string -> Option<V>, less: (V, V) -> bool,
    all: map<string, Found<V>>, key: string, f: Found<V>, stored: map<string, Found<V>>, after: map<string, Found<V>>, ok: bool)
    requires StrictTotalOrder(less)
    requires stored == all[key := f]
    requires Grew(registry, parse, less, all, stored) && Grew(registry, parse, less, stored, after)
    requires ok ==> Covers(registry, parse, less, after, key, RangeVersion(f.versionRange))
    requires ok ==> CoveredSince(registry, parse, less, stored, after)
    ensures Grew(registry, parse, less, all, after)
    ensures ok ==> CoveredSince(registry, parse, less, all, after)
    ensures ok ==> key in after && !less(after[key].version, f.version)
  {
    GrewTransitive(registry, parse, less, all, stored, after);
    if ok {
      StoreThenExpand(registry, parse, less, all, key, f, after);
    }
  }

  /** Every stored hash names a `.nuspec` the walk from `root` reaches. */
  ghost predicate AllReached<V>(registry: map<(string, string), seq<NuspecElement>>, parse: string -> Option<V>,
                                root: (string, string), all: map<string, Found<V>>)
  {
    forall key :: key in all ==> Reachable(registry, parse, root, Target(all[key].packageName, all[key].versionRange))
  }

  lemma AllReachedStore<V>(registry: map<(string, string), seq<NuspecElement>>, parse: string -> Option<V>,
                           root: (string, string), all: map<string, Found<V>>, key: string, f: Found<V>)
    requires AllReached(registry, parse, root, all) && Reachable(registry, parse, root, Target(f.packageName, f.versionRange))
    ensures AllReached(registry, parse, root, all[key := f])
  {
  }

  /** The hashes of a walk whose stored entries are reached, read in key order, are reached. */
  lemma AllReachedInOrder<V>(registry: map<(string, string), seq<NuspecElement>>, parse: string -> Option<V>,
                             root: (string, string), all: map<string, Found<V>>, order: seq<string>)
    requires AllReached(registry, parse, root, all) && forall key :: key in order ==> key in all
    ensures forall e :: e in ValuesInOrder(all, order) ==> Reachable(registry, parse, root, Target(e.packageName, e.versionRange))
  {
    forall e | e in ValuesInOrder(all, order)
      ensures Reachable(registry, parse, root, Target(e.packageName, e.versionRange))
    {
      var k :| 0 <= k < |order| && ValuesInOrder(all, order)[k] == e;
      assert order[k] in all;
    }
  }

  /**
   * The `all_dependencies` hash of `fetch_transitive_dependencies`, and the
   * recursion of `fetch_transitive_dependencies_impl` that fills it. `order`
   * holds the keys in insertion order (a Ruby hash keeps it); `expanded`
   * records the (key, version) pairs the walk recursed into.
   */
  class DependencyWalk<V(==,!new)> {
    const registry: map<(string, string), seq<NuspecElement>>
    const parse: string -> Option<V>
    const less: (V, V) -> bool
    ghost const root: (string, string)
    var all: map<string, Found<V>>
    var order: seq<string>
    ghost var expanded: seq<(string, V)>

    ghost function Pending(): set<(string, V)>
      reads this
    {
      PendingOf(Universe(registry, parse), all, less)
    }

    ghost predicate Valid()
      reads this
    {
      WalkValid(registry, parse, less, all, order, expanded)
    }

    ghost predicate Rooted()
      reads this
    {
      AllReached(registry, parse, root, all)
    }

    /** `all_dependencies = {}`. */
    constructor (registry: map<(string, string), seq<NuspecElement>>, parse: string -> Option<V>, less: (V, V) -> bool,
                 ghost root: (string, string))
      requires StrictTotalOrder(less)
      ensures Valid() && Rooted()
      ensures this.registry == registry && this.parse == parse && this.less == less && this.root == root
      ensures all == map[] && order == [] && expanded == []
    {
      this.registry := registry;
      this.parse := parse;
      this.less := less;
      this.root := root;
      all := map[];
      order := [];
      expanded := [];
    }

    /**
     * `fetch_transitive_dependencies_impl(id, version, all_dependencies)`.
     * `ok` is false when `Version.new` raised on a dependency's version.
     * Entries only rise, the keys keep their order, nothing becomes pending,
     * and on success the package's own dependencies are covered, as is every
     * entry stored or replaced during the call.
     */
    method Expand(id: string, version: string) returns (ok: bool)
      requires Valid() && Rooted() && Reachable(registry, parse, root, (Lower(id), version))
      modifies this
      ensures Valid() && Rooted()
      ensures Grew(registry, parse, less, old(all), all)
      ensures PrefixOf(old(order), order)
      ensures PrefixOf(old(expanded), expanded)
      ensures ok ==> Covers(registry, parse, less, all, Lower(id), version)
      ensures ok ==> CoveredSince(registry, parse, less, old(all), all)
      ensures AllRangesParse(registry, parse) ==> ok
      decreases Pending(), 2
    {
      var deps := FetchDependencies(registry, id, version);
      if |deps| == 0 {
        return true;
      }
      var n := 0;
      while n < |deps|
        invariant 0 <= n <= |deps|
        invariant Valid() && Rooted()
        invariant Grew(registry, parse, less, old(all), all)
        invariant PrefixOf(old(order), order)
        invariant PrefixOf(old(expanded), expanded)
        invariant CoveredSince(registry, parse, less, old(all), all)
        invariant CoversFirst(parse, less, all, deps, n)
      {
        var d := deps[n];
        assert d in Fetched(registry, Lower(id), version);
        if parse(RangeVersion(d.versionRange)).Some? {
          FetchedInUniverse(registry, parse, Lower(id), version, d);
        }
        ghost var before, orderBefore, expandedBefore := all, order, expanded;
        SubsetIsBelow(Pending(), old(Pending()));
        ok := Visit(d, (Lower(id), version));
        WalkStep(registry, parse, less, deps, n, ok, old(all), old(order), old(expanded),
          before, orderBefore, expandedBefore, all, order, expanded);
        if !ok {
          return;
        }
        n := n + 1;
      }
      ok := true;
    }

    /**
     * The body of the `each` over the dependencies: read the version from the
     * range, parse it (`ok` is false when `Version.new` raised), and store and
     * recurse when the dependency is new or strictly higher than the entry.
     * On success `d` is in the map at its version or above.
     */
    method Visit(d: NuspecDependency, ghost from: (string, string)) returns (ok: bool)
      requires Valid() && Rooted()
      requires Reachable(registry, parse, root, from) && d in Fetched(registry, from.0, from.1)
      requires parse(RangeVersion(d.versionRange)).Some? ==>
        (Lower(d.packageName), parse(RangeVersion(d.versionRange)).value) in Universe(registry, parse)
      modifies this
      ensures Valid() && Rooted()
      ensures Grew(registry, parse, less, old(all), all)
      ensures PrefixOf(old(order), order)
      ensures PrefixOf(old(expanded), expanded)
      ensures ok ==> parse(RangeVersion(d.versionRange)).Some?
      ensures ok ==> CoveredSince(registry, parse, less, old(all), all)
      ensures ok ==> && Lower(d.packageName) in all
                     && !less(all[Lower(d.packageName)].version, parse(RangeVersion(d.versionRange)).value)
      ensures AllRangesParse(registry, parse) && parse(RangeVersion(d.versionRange)).Some? ==> ok
      decreases Pending(), 1
    {
      var v := RangeVersion(d.versionRange);
      var parsed := parse(v);
      if parsed.None? {
        return false;
      }
      var key := Lower(d.packageName);
      if key !in all || less(all[key].version, parsed.value) {
        ReachableStep(registry, parse, root, from, d);
        ok := StoreAndExpand(Found(d.packageName, d.versionRange, parsed.value));
      } else {
        ok := true;
      }
    }

    /**
     * The two statements after the version check: store `f` under its
     * lower-cased id (it is new or strictly higher) and recurse into it.
     */
    method StoreAndExpand(f: Found<V>) returns (ok: bool)
      requires Valid() && Rooted() && Reachable(registry, parse, root, Target(f.packageName, f.versionRange))
      requires parse(RangeVersion(f.versionRange)) == Some(f.version)
      requires (Lower(f.packageName), f.version) in Universe(registry, parse)
      requires Lower(f.packageName) !in all || less(all[Lower(f.packageName)].version, f.version)
      modifies this
      ensures Valid() && Rooted()
      ensures Grew(registry, parse, less, old(all), all)
      ensures PrefixOf(old(order), order)
      ensures PrefixOf(old(expanded), expanded)
      ensures ok ==> CoveredSince(registry, parse, less, old(all), all)
      ensures ok ==> Lower(f.packageName) in all && !less(all[Lower(f.packageName)].version, f.version)
      ensures AllRangesParse(registry, parse) ==> ok
      decreases Pending(), 0
    {
      var key := Lower(f.packageName);
      if key !in all {
        order := order + [key];
      }
      AllReachedStore(registry, parse, root, all, key, f);
      all := all[key := f];
      expanded := expanded + [(key, f.version)];
      StoreStep(registry, parse, less, old(all), old(order), old(expanded), key, f, all, order, expanded);
      ghost var orderStored, expandedStored, allStored := order, expanded, all;
      ok := Expand(f.packageName, RangeVersion(f.versionRange));
      PrefixOfTransitive(old(order), orderStored, order);
      PrefixOfTransitive(old(expanded), expandedStored, expanded);
      AfterStoreAndExpand(registry, parse, less, old(all), key, f, allStored, all, ok);
    }
  }

  // ---------------------------------------------------------------------
  // The walk's result, and what the finder makes of it
  // ---------------------------------------------------------------------

  /** The hash values in the order of their keys. */
  function ValuesInOrder<V>(all: map<string, Found<V>>, order: seq<string>): (r: seq<Found<V>>)
    requires forall key :: key in order ==> key in all
    ensures |r| == |order|
    ensures forall k :: 0 <= k < |r| ==> r[k] == all[order[k]]
  {
    seq(|order|, k requires 0 <= k < |order| => all[order[k]])
  }

  function LowerNames<V>(list: seq<Found<V>>): (r: seq<string>)
    ensures |r| == |list|
    ensures forall k :: 0 <= k < |r| ==> r[k] == Lower(list[k].packageName)
  {
    seq(|list|, k requires 0 <= k < |list| => Lower(list[k].packageName))
  }

  /** Every dependency of the package `(key, version)` has an entry with the same lower-cased id at its version or above. */
  ghost predicate ListCovers<V>(
    registry: map<(string, string), seq<NuspecElement>>, parse: string -> Option<V>, less: (V, V) -> bool,
    list: seq<Found<V>>, key: string, version: string)
  {
    forall d :: d in Fetched(registry, key, version) && parse(RangeVersion(d.versionRange)).Some? ==>
      exists e :: e in list && Lower(e.packageName) == Lower(d.packageName)
        && !less(e.version, parse(RangeVersion(d.versionRange)).value)
  }

  lemma CoversInList<V>(
    registry: map<(string, string), seq<NuspecElement>>, parse: string -> Option<V>, less: (V, V) -> bool,
    all: map<string, Found<V>>, order: seq<string>, key: string, version: string)
    requires forall k :: k in order <==> k in all
    requires forall k :: k in all ==> k == Lower(all[k].packageName)
    requires Covers(registry, parse, less, all, key, version)
    ensures ListCovers(registry, parse, less, ValuesInOrder(all, order), key, version)
  {
    var list := ValuesInOrder(all, order);
    forall d | d in Fetched(registry, key, version) && parse(RangeVersion(d.versionRange)).Some?
      ensures exists e ::
        e in list && Lower(e.packageName) == Lower(d.packageName) && !less(e.version, parse(RangeVersion(d.versionRange)).value)
    {
      var n :| 0 <= n < |order| && order[n] == Lower(d.packageName);
      assert list[n] == all[Lower(d.packageName)];
    }
  }

  /** What a finished walk's map, read in key order, holds. */
  lemma WalkResult<V(!new)>(
    registry: map<(string, string), seq<NuspecElement>>, parse: string -> Option<V>, less: (V, V) -> bool,
    all: map<string, Found<V>>, order: seq<string>, expanded: seq<(string, V)>, key: string, version: string)
    requires WalkValid(registry, parse, less, all, order, expanded)
    requires Covers(registry, parse, less, all, key, version)
    requires CoveredSince(registry, parse, less, map[], all)
    ensures var list := ValuesInOrder(all, order);
      && NoDuplicates(LowerNames(list))
      && (forall e :: e in list ==>
            && parse(RangeVersion(e.versionRange)) == Some(e.version)
            && (Lower(e.packageName), e.version) in Universe(registry, parse))
      && ListCovers(registry, parse, less, list, key, version)
      && (forall e :: e in list ==>
            ListCovers(registry, parse, less, list, Lower(e.packageName), RangeVersion(e.versionRange)))
  {
    var list := ValuesInOrder(all, order);
    assert LowerNames(list) == order;
    CoversInList(registry, parse, less, all, order, key, version);
    forall e | e in list
      ensures ListCovers(registry, parse, less, list, Lower(e.packageName), RangeVersion(e.versionRange))
    {
      var n :| 0 <= n < |list| && list[n] == e;
      assert order[n] in all;
      CoversInList(registry, parse, less, all, order, order[n], RangeVersion(e.versionRange));
    }
  }

  /**
   * `fetch_transitive_dependencies(id, version)`: the walk from the package,
   * returning the stored hashes in insertion order. The ids are distinct
   * once lower-cased; every hash comes from a `.nuspec` of the feeds, with its
   * parsed version, and names a `.nuspec` the walk reaches from the package;
   * the package's dependencies, and the dependencies of every
   * returned hash, are present at their versions or above. A version that
   * `Version.new` rejects raises.
   */
  method FetchTransitiveDependencies<V(==,!new)>(
    registry: map<(string, string), seq<NuspecElement>>, parse: string -> Option<V>, less: (V, V) -> bool,
    id: string, version: string)
    returns (r: Result<seq<Found<V>>, DependabotError>)
    requires StrictTotalOrder(less)
    ensures r.Raise? ==> r.error.ArgumentError?
    ensures r.Raise? ==> !AllRangesParse(registry, parse)
    ensures r.Ok? ==> NoDuplicates(LowerNames(r.value))
    ensures r.Ok? ==> forall e :: e in r.value ==>
      && parse(RangeVersion(e.versionRange)) == Some(e.version)
      && (Lower(e.packageName), e.version) in Universe(registry, parse)
    ensures r.Ok? ==> ListCovers(registry, parse, less, r.value, Lower(id), version)
    ensures r.Ok? ==> forall e :: e in r.value ==>
      ListCovers(registry, parse, less, r.value, Lower(e.packageName), RangeVersion(e.versionRange))
    ensures r.Ok? ==> forall e :: e in r.value ==>
      Reachable(registry, parse, (Lower(id), version), Target(e.packageName, e.versionRange))
  {
    var walk := new DependencyWalk(registry, parse, less, (Lower(id), version));
    ReachableRoot(registry, parse, (Lower(id), version));
    var ok := walk.Expand(id, version);
    if !ok {
      return Raise(ArgumentError("Malformed version string"));
    }
    var all, order := walk.all, walk.order;
    var list := ValuesInOrder(all, order);
    WalkResult(registry, parse, less, all, order, walk.expanded, Lower(id), version);
    AllReachedInOrder(registry, parse, (Lower(id), version), all, order);
    r := Ok(list);
  }

  /** A requirement hash of a dependency file. */
  datatype Requirement = Requirement(file: string, requirement: Option<string>)

  /** A dependency of the dependency files, as the file parser reports it. */
  datatype TopLevelDependency<V> = TopLevelDependency(
    name: string,
    version: Option<string>,
    numericVersion: Option<V>,
    requirements: seq<Requirement>)

  /** A `Dependency` the finder builds. */
  datatype PackageDependency = PackageDependency(
    name: string,
    version: string,
    requirements: seq<Requirement>,
    previousVersion: Option<string>,
    previousRequirements: seq<Requirement>,
    informationOnly: bool)

  /**
   * `transitive_dependencies`: the walk's hashes as dependencies with empty
   * requirements, or `[]` when the dependency's version is missing or
   * malformed or the walk raised (the `rescue StandardError`).
   */
  method TransitiveDependencies<V(==,!new)>(
    registry: map<(string, string), seq<NuspecElement>>, parse: string -> Option<V>, less: (V, V) -> bool,
    show: V -> string, name: string, version: Option<string>)
    returns (deps: seq<PackageDependency>)
    requires StrictTotalOrder(less)
    ensures version.None? || parse(version.value).None? ==> deps == []
    ensures forall x :: x in deps ==> x.requirements == [] && x.previousVersion.None? && !x.informationOnly
    ensures forall i, j :: 0 <= i < j < |deps| ==> Lower(deps[i].name) != Lower(deps[j].name)
    ensures forall x :: x in deps ==>
      exists e: Found<V> :: (Lower(e.packageName), e.version) in Universe(registry, parse)
        && Reachable(registry, parse, (Lower(name), version.value), Target(e.packageName, e.versionRange))
        && e.packageName == x.name && show(e.version) == x.version
    ensures deps != [] ==> forall d :: d in Fetched(registry, Lower(name), version.value) ==>
      parse(RangeVersion(d.versionRange)).Some? ==> exists x :: x in deps && Lower(x.name) == Lower(d.packageName)
    ensures version.Some? && parse(version.value).Some? && AllRangesParse(registry, parse) ==>
      forall d :: d in Fetched(registry, Lower(name), version.value) ==>
        exists x :: x in deps && Lower(x.name) == Lower(d.packageName)
  {
    if version.None? || parse(version.value).None? {
      return [];
    }
    var r := FetchTransitiveDependencies(registry, parse, less, name, version.value);
    if r.Raise? {
      return [];
    }
    deps := AsTransitive(r.value, show);
    AsTransitiveKeeps(registry, parse, less, show, r.value, name, version.value);
  }

  /** The `map` of `transitive_dependencies`: a dependency per hash, with empty requirements. */
  function AsTransitive<V>(list: seq<Found<V>>, show: V -> string): (deps: seq<PackageDependency>)
    ensures |deps| == |list|
    ensures forall k :: 0 <= k < |deps| ==> deps[k] == PackageDependency(list[k].packageName, show(list[k].version), [], None, [], false)
  {
    seq(|list|, k requires 0 <= k < |list| => PackageDependency(list[k].packageName, show(list[k].version), [], None, [], false))
  }

  lemma AsTransitiveKeeps<V>(
    registry: map<(string, string), seq<NuspecElement>>, parse: string -> Option<V>, less: (V, V) -> bool,
    show: V -> string, list: seq<Found<V>>, name: string, version: string)
    requires NoDuplicates(LowerNames(list))
    requires forall e :: e in list ==> (Lower(e.packageName), e.version) in Universe(registry, parse)
    requires forall e :: e in list ==> Reachable(registry, parse, (Lower(name), version), Target(e.packageName, e.versionRange))
    requires ListCovers(registry, parse, less, list, Lower(name), version)
    ensures var deps := AsTransitive(list, show);
      && (forall i, j :: 0 <= i < j < |deps| ==> Lower(deps[i].name) != Lower(deps[j].name))
      && (forall x :: x in deps ==>
            exists e: Found<V> ::
              && (Lower(e.packageName), e.version) in Universe(registry, parse)
              && Reachable(registry, parse, (Lower(name), version), Target(e.packageName, e.versionRange))
              && e.packageName == x.name && show(e.version) == x.version)
      && (forall d :: d in Fetched(registry, Lower(name), version) ==>
            parse(RangeVersion(d.versionRange)).Some? ==> exists x :: x in deps && Lower(x.name) == Lower(d.packageName))
  {
    var deps := AsTransitive(list, show);
    assert forall k :: 0 <= k < |list| ==> LowerNames(list)[k] == Lower(deps[k].name);
    forall x | x in deps
      ensures exists e: Found<V> ::
        && (Lower(e.packageName), e.version) in Universe(registry, parse)
        && Reachable(registry, parse, (Lower(name), version), Target(e.packageName, e.versionRange))
        && e.packageName == x.name && show(e.version) == x.version
    {
      var k :| 0 <= k < |deps| && deps[k] == x;
      assert list[k] in list;
    }
    forall d | d in Fetched(registry, Lower(name), version) && parse(RangeVersion(d.versionRange)).Some?
      ensures exists x :: x in deps && Lower(x.name) == Lower(d.packageName)
    {
      var e :| e in list && Lower(e.packageName) == Lower(d.packageName)
        && !less(e.version, parse(RangeVersion(d.versionRange)).value);
      var k :| 0 <= k < |list| && list[k] == e;
      assert deps[k] in deps;
    }
  }

  /** The first top-level dependency named exactly `name` (`find { |d| d.name == package_name }`). */
  function PeerOf<V>(topLevel: seq<TopLevelDependency<V>>, name: string): Option<TopLevelDependency<V>>
  {
    Find(topLevel, (d: TopLevelDependency<V>) => d.name == name)
  }

  /** The block of `updated_peer_dependencies`' `filter_map` for one walk entry. */
  function PeerUpdate<V(==)>(
    e: Found<V>, topLevel: seq<TopLevelDependency<V>>, less: (V, V) -> bool, show: V -> string,
    versionsFor: TopLevelDependency<V> -> seq<NugetVersionFinder.VersionDetails<V>>,
    updatedRequirements: (TopLevelDependency<V>, NugetVersionFinder.VersionDetails<V>) -> seq<Requirement>)
    : (r: Result<Option<PackageDependency>, DependabotError>)
  {
    match PeerOf(topLevel, e.packageName)
    case None => Ok(None)
    case Some(peer) =>
      if peer.numericVersion.None? then Raise(ArgumentError("comparison of Version with nil failed"))
      else if !less(peer.numericVersion.value, e.version) then Ok(None)
      else
        match Find(versionsFor(peer), (v: NugetVersionFinder.VersionDetails<V>) => v.version == e.version)
        case None => Ok(None)
        case Some(details) =>
          Ok(Some(PackageDependency(peer.name, show(details.version), updatedRequirements(peer, details),
                                    peer.version, peer.requirements, true)))
  }

  /** `x` is an update of a top-level dependency to a strictly newer version the walk found and the feeds list. */
  ghost predicate IsPeerUpdate<V>(
    x: PackageDependency, found: seq<Found<V>>, topLevel: seq<TopLevelDependency<V>>, less: (V, V) -> bool, show: V -> string,
    versionsFor: TopLevelDependency<V> -> seq<NugetVersionFinder.VersionDetails<V>>)
  {
    && x.informationOnly
    && exists k, peer ::
      && 0 <= k < |found| && peer in topLevel
      && found[k].packageName == peer.name == x.name
      && peer.numericVersion.Some? && less(peer.numericVersion.value, found[k].version)
      && (exists details :: details in versionsFor(peer) && details.version == found[k].version)
      && x.version == show(found[k].version)
      && x.previousVersion == peer.version && x.previousRequirements == peer.requirements
  }

  /** Some entry of the walk names a top-level dependency whose version is nil. */
  predicate ComparesWithNil<V>(found: seq<Found<V>>, topLevel: seq<TopLevelDependency<V>>)
  {
    exists k :: 0 <= k < |found| && PeerOf(topLevel, found[k].packageName).Some?
      && PeerOf(topLevel, found[k].packageName).value.numericVersion.None?
  }

  /**
   * The `filter_map` of `updated_peer_dependencies`, in walk order. Every
   * update it keeps is of a top-level dependency to a strictly newer version
   * found by the walk and listed by the version finder, marked information
   * only; it raises exactly when an entry meets a top-level dependency
   * without a version.
   */
  function PeerUpdates<V(==)>(
    found: seq<Found<V>>, topLevel: seq<TopLevelDependency<V>>, less: (V, V) -> bool, show: V -> string,
    versionsFor: TopLevelDependency<V> -> seq<NugetVersionFinder.VersionDetails<V>>,
    updatedRequirements: (TopLevelDependency<V>, NugetVersionFinder.VersionDetails<V>) -> seq<Requirement>)
    : (r: Result<seq<PackageDependency>, DependabotError>)
    ensures r.Raise? <==> ComparesWithNil(found, topLevel)
    ensures r.Ok? ==> |r.value| <= |found|
    ensures r.Ok? ==> forall x :: x in r.value ==> IsPeerUpdate(x, found, topLevel, less, show, versionsFor)
  {
    if found == [] then Ok([])
    else
      var head := PeerUpdate(found[0], topLevel, less, show, versionsFor, updatedRequirements);
      var tail := PeerUpdates(found[1..], topLevel, less, show, versionsFor, updatedRequirements);
      if head.Raise? then Raise(head.error)
      else if tail.Raise? then Raise(tail.error)
      else Ok((if head.value.Some? then [head.value.value] else []) + tail.value)
  }

  /** Every walk entry that names a top-level dependency with a lower version, and that the feeds list, gives an update. */
  lemma {:induction false} PeerUpdatesComplete<V>(
    found: seq<Found<V>>, topLevel: seq<TopLevelDependency<V>>, less: (V, V) -> bool, show: V -> string,
    versionsFor: TopLevelDependency<V> -> seq<NugetVersionFinder.VersionDetails<V>>,
    updatedRequirements: (TopLevelDependency<V>, NugetVersionFinder.VersionDetails<V>) -> seq<Requirement>,
    k: nat)
    requires k < |found|
    requires PeerOf(topLevel, found[k].packageName).Some?
    ensures var peer := PeerOf(topLevel, found[k].packageName).value;
      var r := PeerUpdates(found, topLevel, less, show, versionsFor, updatedRequirements);
      r.Ok? && peer.numericVersion.Some? && less(peer.numericVersion.value, found[k].version)
        && (exists details :: details in versionsFor(peer) && details.version == found[k].version) ==>
      exists x :: x in r.value && x.name == peer.name && x.version == show(found[k].version)
  {
    var peer := PeerOf(topLevel, found[k].packageName).value;
    var r := PeerUpdates(found, topLevel, less, show, versionsFor, updatedRequirements);
    if r.Ok? && peer.numericVersion.Some? && less(peer.numericVersion.value, found[k].version)
      && (exists details :: details in versionsFor(peer) && details.version == found[k].version)
    {
      var tail := PeerUpdates(found[1..], topLevel, less, show, versionsFor, updatedRequirements);
      var head := PeerUpdate(found[0], topLevel, less, show, versionsFor, updatedRequirements);
      if k == 0 {
        var details :| details in versionsFor(peer) && details.version == found[k].version;
        var p := (v: NugetVersionFinder.VersionDetails<V>) => v.version == found[0].version;
        var i :| 0 <= i < |versionsFor(peer)| && versionsFor(peer)[i] == details;
        assert p(versionsFor(peer)[i]);
        assert FirstIndex(versionsFor(peer), p).Some?;
        assert head.Ok? && head.value.Some?;
        assert r.value[0] == head.value.value;
      } else {
        assert found[1..][k - 1] == found[k];
        PeerUpdatesComplete(found[1..], topLevel, less, show, versionsFor, updatedRequirements, k - 1);
        var x :| x in tail.value && x.name == peer.name && x.version == show(found[k].version);
        assert x in r.value;
      }
    }
  }

  /**
   * `updated_peer_dependencies`: the walk from the dependency, then the
   * `filter_map` over its entries. A nil version fails `T.must`; an error
   * of the walk propagates. Every update is information only, of a top-level
   * dependency, to a version higher than its own that the feeds list and
   * that some `.nuspec` reached by the walk names.
   */
  method UpdatedPeerDependencies<V(==,!new)>(
    registry: map<(string, string), seq<NuspecElement>>, parse: string -> Option<V>, less: (V, V) -> bool,
    show: V -> string, name: string, version: Option<string>, topLevel: seq<TopLevelDependency<V>>,
    versionsFor: TopLevelDependency<V> -> seq<NugetVersionFinder.VersionDetails<V>>,
    updatedRequirements: (TopLevelDependency<V>, NugetVersionFinder.VersionDetails<V>) -> seq<Requirement>)
    returns (r: Result<seq<PackageDependency>, DependabotError>)
    requires StrictTotalOrder(less)
    ensures version.None? ==> r == Raise(TypeError("Passed `nil` into T.must"))
    ensures r.Ok? ==> forall x :: x in r.value ==>
      && x.informationOnly
      && exists peer, details ::
        && peer in topLevel && details in versionsFor(peer) && peer.name == x.name
        && peer.numericVersion.Some? && less(peer.numericVersion.value, details.version)
        && x.version == show(details.version)
        && x.previousVersion == peer.version && x.previousRequirements == peer.requirements
        && (Lower(x.name), details.version) in Universe(registry, parse)
  {
    if version.None? {
      return Raise(TypeError("Passed `nil` into T.must"));
    }
    var walked := FetchTransitiveDependencies(registry, parse, less, name, version.value);
    if walked.Raise? {
      return Raise(walked.error);
    }
    var found := walked.value;
    r := PeerUpdates(found, topLevel, less, show, versionsFor, updatedRequirements);
    if r.Ok? {
      forall x | x in r.value
        ensures exists peer, details ::
          && peer in topLevel && details in versionsFor(peer) && peer.name == x.name
          && peer.numericVersion.Some? && less(peer.numericVersion.value, details.version)
          && x.version == show(details.version)
          && x.previousVersion == peer.version && x.previousRequirements == peer.requirements
          && (Lower(x.name), details.version) in Universe(registry, parse)
      {
        assert IsPeerUpdate(x, found, topLevel, less, show, versionsFor);
        var k, peer :|
          && 0 <= k < |found| && peer in topLevel
          && found[k].packageName == peer.name == x.name
          && peer.numericVersion.Some? && less(peer.numericVersion.value, found[k].version)
          && (exists details :: details in versionsFor(peer) && details.version == found[k].version)
          && x.version == show(found[k].version)
          && x.previousVersion == peer.version && x.previousRequirements == peer.requirements;
        var details :| details in versionsFor(peer) && details.version == found[k].version;
        assert found[k] in found;
      }
    }
  }
}
