/**
 * `SdkPackageUpdater`: updating a package version in the MSBuild files of an
 * SDK-style project.
 *
 * A build file is reduced to the parts the updater reads and writes: its
 * package items (with their `Include`/`Update` name and their `Version` or
 * `VersionOverride` attribute or element), its properties, and its item
 * groups. MSBuild evaluation (dependency graphs, conflict resolution,
 * coherence) and `MSBuildHelper.TryGetPropertyName` are inputs. NuGet
 * versions are an abstract order: `parse` is `NuGetVersion.TryParse`.
 */
module SdkPackageUpdater {

  import opened Wrappers
  import opened Text
  import opened Versions

  // ---------------------------------------------------------------------
  // Build files
  // ---------------------------------------------------------------------

  /**
   * A `PackageReference`, `GlobalPackageReference` or `PackageVersion` item:
   * its `Include` (or else `Update`) name and the value of its `Version` (or
   * else `VersionOverride`) attribute and element.
   */
  datatype PackageNode = PackageNode(
    itemName: string,
    includeOrUpdate: Option<string>,
    versionAttr: Option<string>,
    versionElem: Option<string>)

  /** A property element and its content. */
  datatype PropertyNode = PropertyNode(name: string, value: string)

  /** An item element and its attributes, in document order. */
  datatype Item = Item(name: string, attributes: seq<(string, string)>)

  datatype BuildFile = BuildFile(
    path: string,
    packageNodes: seq<PackageNode>,
    propertyNodes: seq<PropertyNode>,
    itemGroups: seq<seq<Item>>)

  /** NuGet's version parsing and order, and MSBuild's reading of `$(Name)`. */
  datatype Versioning<!V> = Versioning(
    parse: string -> Option<V>,
    less: (V, V) -> bool,
    propertyNameOf: string -> Option<string>)

  /** The version text a node carries: the attribute when present, else the element. */
  function NodeVersion(node: PackageNode): Option<string>
  {
    if node.versionAttr.Some? then node.versionAttr else node.versionElem
  }

  /** Writes a version back where `NodeVersion` read it from. */
  function SetNodeVersion(node: PackageNode, v: string): (r: PackageNode)
    ensures NodeVersion(r) == Some(v)
    ensures r.itemName == node.itemName && r.includeOrUpdate == node.includeOrUpdate
  {
    if node.versionAttr.Some? then node.(versionAttr := Some(v)) else node.(versionElem := Some(v))
  }

  /** `FindPackageNodes`: named `packageName` (ignoring case) and carrying a version. */
  predicate IsPackageNodeFor(node: PackageNode, packageName: string)
  {
    && node.includeOrUpdate.Some?
    && EqualsIgnoreCase(node.includeOrUpdate.value, packageName)
    && NodeVersion(node).Some?
  }

  // ---------------------------------------------------------------------
  // Classifying one version value
  // ---------------------------------------------------------------------

  predicate IsOpening(c: char) { c == '[' || c == '(' }

  predicate IsClosing(c: char) { c == ']' || c == ')' }

  /** `TrimStart('[', '(').TrimEnd(']', ')')`. */
  function TrimVersion(value: string): (r: string)
    ensures |r| <= |value|
    ensures r != [] ==> !IsOpening(r[0]) && !IsClosing(r[|r| - 1])
  {
    var front := TrimStart(value, IsOpening);
    var r := TrimEnd(front, IsClosing);
    assert r != [] ==> r[0] == front[0];
    r
  }

  /** What `TryUpdateDependencyVersion` decides about one version value. */
  datatype Verdict =
    | Reference(propertyName: string)   // `$(Name)`: the property joins the worklist
    | Unsupported                       // a range or a wildcard
    | RewritePrevious                   // the value is the previous version
    | RewritePeer(current: string)      // no previous version, and the value is lower than the new one
    | AtNewVersion                      // the value already is the new version
    | Untouched

  predicate Marked(v: Verdict) { v.RewritePrevious? || v.RewritePeer? }

  /** The branches of lines 382-415 (and their copies for elements and properties). */
  function Classify<V>(value: string, previous: Option<string>, newVersion: string, vs: Versioning<V>): (r: Verdict)
    requires vs.parse(newVersion).Some?
    ensures r.Reference? <==> vs.propertyNameOf(value).Some?
  {
    if vs.propertyNameOf(value).Some? then Reference(vs.propertyNameOf(value).value)
    else
      var current := TrimVersion(value);
      if ',' in current || '*' in current then Unsupported
      else if previous == Some(current) then RewritePrevious
      else if previous.None? && vs.parse(current).Some? then
        if vs.less(vs.parse(current).value, vs.parse(newVersion).value) then RewritePeer(current) else Untouched
      else if current == newVersion then AtNewVersion
      else Untouched
  }

  /**
   * A value is marked for rewriting only when its trimmed text is the
   * previous version, or there is no previous version and the text parses to
   * a version below the new one; a range or a wildcard is never marked, and
   * neither is a property reference.
   */
  lemma MarkedOnlyIf<V>(value: string, previous: Option<string>, newVersion: string, vs: Versioning<V>)
    requires vs.parse(newVersion).Some?
    ensures Marked(Classify(value, previous, newVersion, vs)) ==>
      && vs.propertyNameOf(value).None?
      && ',' !in TrimVersion(value) && '*' !in TrimVersion(value)
      && (|| previous == Some(TrimVersion(value))
          || (&& previous.None?
              && vs.parse(TrimVersion(value)).Some?
              && vs.less(vs.parse(TrimVersion(value)).value, vs.parse(newVersion).value)))
    ensures (',' in TrimVersion(value) || '*' in TrimVersion(value)) && vs.propertyNameOf(value).None? ==>
      Classify(value, previous, newVersion, vs) == Unsupported
  {
  }

  // ---------------------------------------------------------------------
  // Scanning the nodes of one file
  // ---------------------------------------------------------------------

  /**
   * What the loop over one file's nodes collects: the property names found,
   * the marked nodes (by index) with the text each rewrite replaces, the
   * file's `previousPackageVersion` at the end, and the two flags.
   */
  datatype Scan = Scan(
    names: seq<string>,
    marked: map<nat, string>,
    previousText: Option<string>,
    foundCorrect: bool,
    foundUnsupported: bool)

  /** The text a marked value's rewrite replaces: the trimmed value itself. */
  function MarkText(v: Verdict, value: string): string
  {
    if v.RewritePeer? then v.current else TrimVersion(value)
  }

  /** One iteration of the loop over a file's nodes: the node at index `n`, with version text `text` and verdict `v`. */
  function ScanStep(s: Scan, n: nat, text: string, v: Verdict): Scan
  {
    match v
    case Reference(p) => s.(names := s.names + [p])
    case Unsupported => s.(foundUnsupported := true)
    case RewritePrevious => s.(marked := s.marked[n := TrimVersion(text)])
    case RewritePeer(current) => s.(marked := s.marked[n := current], previousText := Some(current))
    case AtNewVersion => s.(foundCorrect := true)
    case Untouched => s
  }

  /** What one iteration adds to the marks, the flags and the names. */
  lemma ScanStepAdds(s: Scan, n: nat, text: string, v: Verdict)
    ensures var t := ScanStep(s, n, text, v);
      && (n in t.marked <==> n in s.marked || Marked(v))
      && (forall j :: j != n ==> (j in t.marked <==> j in s.marked) && (j in s.marked ==> t.marked[j] == s.marked[j]))
      && (n in t.marked && n !in s.marked ==> t.marked[n] == MarkText(v, text))
      && (t.foundCorrect <==> s.foundCorrect || v == AtNewVersion)
      && (t.foundUnsupported <==> s.foundUnsupported || v == Unsupported)
      && (forall p :: p in t.names <==> p in s.names || v == Reference(p))
      && (t.previousText == if v.RewritePeer? then Some(v.current) else s.previousText)
      && (Marked(v) ==> t.marked != map[])
      && (!Marked(v) ==> t.marked == s.marked)
  {
    var t := ScanStep(s, n, text, v);
    if v.Reference? {
      assert t.names == s.names + [v.propertyName];
    } else {
      assert t.names == s.names;
    }
  }

  /** The marks after one iteration: those before, and the node itself when its verdict marks it. */
  lemma ScanStepMarks(s: Scan, n: nat, text: string, v: Verdict)
    ensures forall j :: j in ScanStep(s, n, text, v).marked <==> j in s.marked || (j == n && Marked(v))
  {
  }

  /** A peer rewrite happens only without a previous version, a previous-version rewrite only with one. */
  lemma RewriteNeedsPrevious<V>(value: string, previous: Option<string>, newVersion: string, vs: Versioning<V>)
    requires vs.parse(newVersion).Some?
    ensures Classify(value, previous, newVersion, vs).RewritePeer? ==> previous.None?
    ensures Classify(value, previous, newVersion, vs).RewritePrevious? ==> previous.Some?
  {
  }

  /** A peer rewrite replaces the trimmed value, like any other rewrite. */
  lemma MarkTextIsTrimmed<V>(value: string, previous: Option<string>, newVersion: string, vs: Versioning<V>)
    requires vs.parse(newVersion).Some?
    ensures MarkText(Classify(value, previous, newVersion, vs), value) == TrimVersion(value)
    ensures Classify(value, previous, newVersion, vs).Reference? ==>
      Classify(value, previous, newVersion, vs).propertyName == vs.propertyNameOf(value).value
  {
    if vs.propertyNameOf(value).None? {
      var current := TrimVersion(value);
      assert Classify(value, previous, newVersion, vs).RewritePeer? ==>
        Classify(value, previous, newVersion, vs).current == current;
    }
  }

  /** The loop over the values of one file's matching nodes (`None` for a node that does not match). */
  function ScanValues<V>(values: seq<Option<string>>, previous: Option<string>, newVersion: string, vs: Versioning<V>): (s: Scan)
    requires vs.parse(newVersion).Some?
    ensures forall j :: j in s.marked ==> j < |values| && values[j].Some? && s.marked[j] == TrimVersion(values[j].value)
    ensures previous.Some? || s.marked == map[] ==> s.previousText == previous
    ensures s.marked != map[] ==> s.previousText.Some?
  {
    if values == [] then Scan([], map[], previous, false, false)
    else
      var n := |values| - 1;
      var s := ScanValues(values[..n], previous, newVersion, vs);
      if values[n].None? then s
      else
        var v := Classify(values[n].value, previous, newVersion, vs);
        ScanStepAdds(s, n, values[n].value, v);
        MarkTextIsTrimmed(values[n].value, previous, newVersion, vs);
        RewriteNeedsPrevious(values[n].value, previous, newVersion, vs);
        ScanStep(s, n, values[n].value, v)
  }

  /** Exactly the values `Classify` marks are marked. */
  lemma {:induction false} ScanMarks<V>(values: seq<Option<string>>, previous: Option<string>, newVersion: string, vs: Versioning<V>)
    requires vs.parse(newVersion).Some?
    ensures forall j :: 0 <= j < |values| && values[j].Some? ==>
      (j in ScanValues(values, previous, newVersion, vs).marked <==> Marked(Classify(values[j].value, previous, newVersion, vs)))
  {
    if values != [] {
      var n := |values| - 1;
      var s := ScanValues(values[..n], previous, newVersion, vs);
      var t := ScanValues(values, previous, newVersion, vs);
      ScanMarks(values[..n], previous, newVersion, vs);
      ScanValuesSnoc(values, previous, newVersion, vs);
      if values[n].Some? {
        ScanStepMarks(s, n, values[n].value, Classify(values[n].value, previous, newVersion, vs));
      } else {
        assert t.marked == s.marked;
      }
      forall j | 0 <= j < |values| && values[j].Some?
        ensures j in t.marked <==> Marked(Classify(values[j].value, previous, newVersion, vs))
      {
        if j < n {
          assert values[..n][j] == values[j];
        }
      }
    }
  }

  /** Some value the loop looks at is classified `v`. */
  predicate HasVerdict<V>(values: seq<Option<string>>, v: Verdict, previous: Option<string>, newVersion: string, vs: Versioning<V>)
    requires vs.parse(newVersion).Some?
  {
    exists j :: 0 <= j < |values| && values[j].Some? && Classify(values[j].value, previous, newVersion, vs) == v
  }

  lemma HasVerdictFront<V>(values: seq<Option<string>>, n: nat, v: Verdict, previous: Option<string>, newVersion: string, vs: Versioning<V>)
    requires vs.parse(newVersion).Some? && n <= |values|
    requires HasVerdict(values[..n], v, previous, newVersion, vs)
    ensures HasVerdict(values, v, previous, newVersion, vs)
  {
    var j :| 0 <= j < n && values[..n][j].Some? && Classify(values[..n][j].value, previous, newVersion, vs) == v;
    assert values[j] == values[..n][j];
  }

  lemma HasVerdictFrontOrLast<V>(values: seq<Option<string>>, v: Verdict, previous: Option<string>, newVersion: string, vs: Versioning<V>)
    requires vs.parse(newVersion).Some? && values != []
    requires HasVerdict(values, v, previous, newVersion, vs)
    ensures || HasVerdict(values[..|values| - 1], v, previous, newVersion, vs)
            || (values[|values| - 1].Some? && Classify(values[|values| - 1].value, previous, newVersion, vs) == v)
  {
    var j :| 0 <= j < |values| && values[j].Some? && Classify(values[j].value, previous, newVersion, vs) == v;
    if j < |values| - 1 {
      assert values[..|values| - 1][j] == values[j];
    }
  }

  lemma HasVerdictSnoc<V>(values: seq<Option<string>>, v: Verdict, previous: Option<string>, newVersion: string, vs: Versioning<V>)
    requires vs.parse(newVersion).Some? && values != []
    ensures var n := |values| - 1;
      HasVerdict(values, v, previous, newVersion, vs) <==>
        || HasVerdict(values[..n], v, previous, newVersion, vs)
        || (values[n].Some? && Classify(values[n].value, previous, newVersion, vs) == v)
  {
    var n := |values| - 1;
    if HasVerdict(values[..n], v, previous, newVersion, vs) {
      HasVerdictFront(values, n, v, previous, newVersion, vs);
    }
    if HasVerdict(values, v, previous, newVersion, vs) {
      HasVerdictFrontOrLast(values, v, previous, newVersion, vs);
    }
  }

  /** The loop over a non-empty sequence of values: the loop over its front, then one step for its last value. */
  lemma ScanValuesSnoc<V>(values: seq<Option<string>>, previous: Option<string>, newVersion: string, vs: Versioning<V>)
    requires vs.parse(newVersion).Some? && values != []
    ensures var n := |values| - 1;
      var s := ScanValues(values[..n], previous, newVersion, vs);
      ScanValues(values, previous, newVersion, vs) ==
        if values[n].None? then s else ScanStep(s, n, values[n].value, Classify(values[n].value, previous, newVersion, vs))
  {
  }

  /** `foundCorrect` and `foundUnsupported` say whether some value was classified so. */
  lemma {:induction false} ScanFlags<V>(values: seq<Option<string>>, previous: Option<string>, newVersion: string, vs: Versioning<V>)
    requires vs.parse(newVersion).Some?
    ensures ScanValues(values, previous, newVersion, vs).foundCorrect <==> HasVerdict(values, AtNewVersion, previous, newVersion, vs)
    ensures ScanValues(values, previous, newVersion, vs).foundUnsupported <==> HasVerdict(values, Unsupported, previous, newVersion, vs)
  {
    if values != [] {
      var n := |values| - 1;
      var s := ScanValues(values[..n], previous, newVersion, vs);
      ScanFlags(values[..n], previous, newVersion, vs);
      HasVerdictSnoc(values, AtNewVersion, previous, newVersion, vs);
      HasVerdictSnoc(values, Unsupported, previous, newVersion, vs);
      if values[n].Some? {
        var v := Classify(values[n].value, previous, newVersion, vs);
        ScanStepAdds(s, n, values[n].value, v);
        assert ScanValues(values, previous, newVersion, vs) == ScanStep(s, n, values[n].value, v);
      } else {
        assert ScanValues(values, previous, newVersion, vs) == s;
      }
    }
  }

  /** Some value the loop looks at refers to property `p`. */
  predicate RefersTo<V>(values: seq<Option<string>>, p: string, vs: Versioning<V>)
  {
    exists j :: 0 <= j < |values| && values[j].Some? && vs.propertyNameOf(values[j].value) == Some(p)
  }

  lemma RefersToFront<V>(values: seq<Option<string>>, n: nat, p: string, vs: Versioning<V>)
    requires n <= |values| && RefersTo(values[..n], p, vs)
    ensures RefersTo(values, p, vs)
  {
    var j :| 0 <= j < n && values[..n][j].Some? && vs.propertyNameOf(values[..n][j].value) == Some(p);
    assert values[j] == values[..n][j];
  }

  lemma RefersToFrontOrLast<V>(values: seq<Option<string>>, p: string, vs: Versioning<V>)
    requires values != [] && RefersTo(values, p, vs)
    ensures || RefersTo(values[..|values| - 1], p, vs)
            || (values[|values| - 1].Some? && vs.propertyNameOf(values[|values| - 1].value) == Some(p))
  {
    var j :| 0 <= j < |values| && values[j].Some? && vs.propertyNameOf(values[j].value) == Some(p);
    if j < |values| - 1 {
      assert values[..|values| - 1][j] == values[j];
    }
  }

  /** The loop over the first `j + 1` values: the loop over the first `j`, then one step. */
  lemma ScanValuesPrefix<V>(values: seq<Option<string>>, j: nat, previous: Option<string>, newVersion: string, vs: Versioning<V>)
    requires vs.parse(newVersion).Some? && j < |values|
    ensures var s := ScanValues(values[..j], previous, newVersion, vs);
      ScanValues(values[..j + 1], previous, newVersion, vs) ==
        if values[j].None? then s else ScanStep(s, j, values[j].value, Classify(values[j].value, previous, newVersion, vs))
  {
    var front := values[..j + 1];
    PrefixStep(values, j);
    ScanValuesSnoc(front, previous, newVersion, vs);
  }

  /** The first `j` elements of the first `j + 1`, and the last of them. */
  lemma PrefixStep<T>(xs: seq<T>, j: nat)
    requires j < |xs|
    ensures |xs[..j + 1]| - 1 == j && xs[..j + 1][..j] == xs[..j] && xs[..j + 1][j] == xs[j]
  {
  }

  /** The property names collected are those the values refer to. */
  lemma {:induction false} ScanNames<V>(values: seq<Option<string>>, previous: Option<string>, newVersion: string, vs: Versioning<V>)
    requires vs.parse(newVersion).Some?
    ensures forall p :: p in ScanValues(values, previous, newVersion, vs).names <==> RefersTo(values, p, vs)
  {
    if values != [] {
      var n := |values| - 1;
      var s := ScanValues(values[..n], previous, newVersion, vs);
      ScanNames(values[..n], previous, newVersion, vs);
      ScanValuesSnoc(values, previous, newVersion, vs);
      forall p
        ensures p in ScanValues(values, previous, newVersion, vs).names <==> RefersTo(values, p, vs)
      {
        if RefersTo(values[..n], p, vs) {
          RefersToFront(values, n, p, vs);
        }
        if RefersTo(values, p, vs) {
          RefersToFrontOrLast(values, p, vs);
        }
        if values[n].Some? {
          var v := Classify(values[n].value, previous, newVersion, vs);
          ScanStepAdds(s, n, values[n].value, v);
          MarkTextIsTrimmed(values[n].value, previous, newVersion, vs);
        }
      }
    }
  }

  // ---------------------------------------------------------------------
  // Rewriting a value
  // ---------------------------------------------------------------------

  lemma {:induction false} TrimStartDrops(s: string, drop: char -> bool)
    ensures forall k :: 0 <= k < |s| - |TrimStart(s, drop)| ==> drop(s[k])
    decreases |s|
  {
    if s != [] && drop(s[0]) {
      TrimStartDrops(s[1..], drop);
    }
  }

  lemma {:induction false} TrimEndDrops(s: string, drop: char -> bool)
    ensures forall k :: |TrimEnd(s, drop)| <= k < |s| ==> drop(s[k])
    decreases |s|
  {
    if s != [] && drop(s[|s| - 1]) {
      TrimEndDrops(s[..|s| - 1], drop);
    }
  }

  /** The brackets `TrimVersion` removes from the front of a value. */
  function Opening(value: string): string
  {
    value[..|value| - |TrimStart(value, IsOpening)|]
  }

  /** The brackets `TrimVersion` removes from the end of a value. */
  function Closing(value: string): string
  {
    var front := TrimStart(value, IsOpening);
    front[|TrimVersion(value)|..]
  }

  lemma OpeningThenRest(value: string)
    ensures value == Opening(value) + TrimStart(value, IsOpening)
  {
    var front := TrimStart(value, IsOpening);
    assert value == value[..|value| - |front|] + value[|value| - |front|..];
  }

  lemma VersionThenClosing(value: string)
    ensures TrimStart(value, IsOpening) == TrimVersion(value) + Closing(value)
  {
    var front := TrimStart(value, IsOpening);
    var t := TrimEnd(front, IsClosing);
    assert front == front[..|t|] + front[|t|..];
  }

  /** A value is its opening brackets, its version text and its closing brackets. */
  lemma SplitsAroundVersion(value: string)
    ensures value == Opening(value) + TrimVersion(value) + Closing(value)
  {
    OpeningThenRest(value);
    VersionThenClosing(value);
    ThreeParts(value, Opening(value), TrimStart(value, IsOpening), TrimVersion(value), Closing(value));
  }

  lemma ThreeParts(whole: string, a: string, rest: string, b: string, c: string)
    requires whole == a + rest && rest == b + c
    ensures whole == a + b + c
  {
  }

  lemma OpeningIsBrackets(value: string)
    ensures forall k :: 0 <= k < |Opening(value)| ==> IsOpening(Opening(value)[k])
  {
    TrimStartDrops(value, IsOpening);
  }

  lemma ClosingIsBrackets(value: string)
    ensures forall k :: 0 <= k < |Closing(value)| ==> IsClosing(Closing(value)[k])
  {
    var front := TrimStart(value, IsOpening);
    TrimEndDrops(front, IsClosing);
  }

  /** Replacing inside a text whose characters never start the pattern passes them through. */
  lemma {:induction false} ReplaceSkipsPrefix(pre: string, rest: string, from: string, to: string)
    requires from != []
    requires forall k :: 0 <= k < |pre| ==> pre[k] != from[0]
    ensures ReplaceAll(pre + rest, from, to) == pre + ReplaceAll(rest, from, to)
    decreases |pre|
  {
    if pre == [] {
      assert pre + rest == rest;
    } else {
      var s := pre + rest;
      if |s| < |from| {
        assert ReplaceAll(rest, from, to) == rest;
      } else {
        assert s[..|from|][0] == pre[0];
        assert s[..|from|] != from;
        assert ReplaceAll(s, from, to) == [s[0]] + ReplaceAll(s[1..], from, to);
        assert s[1..] == pre[1..] + rest;
        ReplaceSkipsPrefix(pre[1..], rest, from, to);
        assert pre == [pre[0]] + pre[1..];
        assert [pre[0]] + (pre[1..] + ReplaceAll(rest, from, to)) == pre + ReplaceAll(rest, from, to);
      }
    }
  }

  /** A pattern that does not end in a closing bracket does not occur in closing brackets. */
  lemma {:induction false} ReplaceKeepsClosing(close: string, from: string, to: string)
    requires from != [] && !IsClosing(from[|from| - 1])
    requires forall k :: 0 <= k < |close| ==> IsClosing(close[k])
    ensures ReplaceAll(close, from, to) == close
    decreases |close|
  {
    if |close| >= |from| {
      assert close[..|from|][|from| - 1] == close[|from| - 1];
      ReplaceKeepsClosing(close[1..], from, to);
      assert close == [close[0]] + close[1..];
    }
  }

  /** A text between opening and closing brackets is replaced where it stands. */
  lemma ReplaceBetween(open: string, t: string, close: string, to: string)
    requires t != [] && !IsOpening(t[0]) && !IsClosing(t[|t| - 1])
    requires forall k :: 0 <= k < |open| ==> IsOpening(open[k])
    requires forall k :: 0 <= k < |close| ==> IsClosing(close[k])
    ensures ReplaceAll(open + t + close, t, to) == open + to + close
  {
    assert open + t + close == open + (t + close);
    ReplaceSkipsPrefix(open, t + close, t, to);
    assert (t + close)[..|t|] == t;
    assert (t + close)[|t|..] == close;
    assert ReplaceAll(t + close, t, to) == to + ReplaceAll(close, t, to);
    ReplaceKeepsClosing(close, t, to);
  }

  /**
   * Replacing a value's own version text by the new version keeps its
   * brackets: `[1.0.0]` becomes `[2.0.0]`.
   */
  lemma RewriteKeepsBrackets(value: string, newVersion: string)
    requires TrimVersion(value) != []
    ensures ReplaceAll(value, TrimVersion(value), newVersion) == Opening(value) + newVersion + Closing(value)
  {
    SplitsAroundVersion(value);
    OpeningIsBrackets(value);
    ClosingIsBrackets(value);
    ReplaceBetween(Opening(value), TrimVersion(value), Closing(value), newVersion);
  }

  // ---------------------------------------------------------------------
  // One pass over one file
  // ---------------------------------------------------------------------

  /** The nodes a pass looks at: the package items of a package, or the properties of a name. */
  datatype PassKind = Packages(packageName: string) | Properties(propertyName: string)

  /** The version text of each node the pass looks at, `None` for the others. */
  function PassValues(f: BuildFile, kind: PassKind): (r: seq<Option<string>>)
  {
    match kind
    case Packages(name) =>
      seq(|f.packageNodes|, j requires 0 <= j < |f.packageNodes| =>
        if IsPackageNodeFor(f.packageNodes[j], name) then NodeVersion(f.packageNodes[j]) else None)
    case Properties(name) =>
      seq(|f.propertyNodes|, j requires 0 <= j < |f.propertyNodes| =>
        if EqualsIgnoreCase(f.propertyNodes[j].name, name) then Some(f.propertyNodes[j].value) else None)
  }

  /** Marks whose nodes the pass looked at, each with the text its rewrite replaces. */
  predicate MarksFit(f: BuildFile, kind: PassKind, marks: map<nat, string>)
  {
    forall j :: j in marks ==> j < |PassValues(f, kind)| && PassValues(f, kind)[j].Some?
  }

  /** `Replace(text, newVersion)` inside the value of every marked node. */
  function ApplyMarks(f: BuildFile, kind: PassKind, marks: map<nat, string>, newVersion: string): (r: BuildFile)
    requires MarksFit(f, kind, marks)
    ensures r.path == f.path && r.itemGroups == f.itemGroups
    ensures kind.Packages? ==> r.propertyNodes == f.propertyNodes
    ensures kind.Properties? ==> r.packageNodes == f.packageNodes
    ensures |r.packageNodes| == |f.packageNodes| && |r.propertyNodes| == |f.propertyNodes|
    ensures forall j :: 0 <= j < |PassValues(f, kind)| ==>
      PassValues(r, kind)[j] ==
        if j in marks then Some(ReplaceAll(PassValues(f, kind)[j].value, marks[j], newVersion)) else PassValues(f, kind)[j]
    ensures forall j :: 0 <= j < |f.propertyNodes| ==> r.propertyNodes[j].name == f.propertyNodes[j].name
    ensures kind.Properties? ==> forall j :: 0 <= j < |f.propertyNodes| ==>
      r.propertyNodes[j].value ==
        if j in marks then ReplaceAll(f.propertyNodes[j].value, marks[j], newVersion) else f.propertyNodes[j].value
  {
    match kind
    case Packages(name) =>
      var nodes := f.packageNodes;
      f.(packageNodes := seq(|nodes|, j requires 0 <= j < |nodes| =>
        if j in marks then SetNodeVersion(nodes[j], ReplaceAll(NodeVersion(nodes[j]).value, marks[j], newVersion))
        else nodes[j]))
    case Properties(name) =>
      var props := f.propertyNodes;
      f.(propertyNodes := seq(|props|, j requires 0 <= j < |props| =>
        if j in marks then props[j].(value := ReplaceAll(props[j].value, marks[j], newVersion)) else props[j]))
  }

  /** What the source does after a file's loop: every marked node replaces the file's `previousPackageVersion`. */
  function AsWrittenMarks(s: Scan): (r: map<nat, string>)
    requires s.marked != map[] ==> s.previousText.Some?
    ensures r.Keys == s.marked.Keys
  {
    map j | j in s.marked :: s.previousText.value
  }

  /**
   * One file's pass as written: scan, then replace the file's
   * `previousPackageVersion` in every marked node.
   */
  function FilePassAsWritten<V>(f: BuildFile, kind: PassKind, previous: Option<string>, newVersion: string, vs: Versioning<V>): (r: (BuildFile, Scan))
    requires vs.parse(newVersion).Some?
    ensures r.1 == FilePass(f, kind, previous, newVersion, vs).1
    ensures r.1.marked == map[] ==> r.0 == f
    ensures r.0.path == f.path
  {
    var s := ScanValues(PassValues(f, kind), previous, newVersion, vs);
    (if s.marked == map[] then f else ApplyMarks(f, kind, AsWrittenMarks(s), newVersion), s)
  }

  /** One file's pass, each marked node replacing its own version text. */
  function FilePass<V>(f: BuildFile, kind: PassKind, previous: Option<string>, newVersion: string, vs: Versioning<V>): (r: (BuildFile, Scan))
    requires vs.parse(newVersion).Some?
    ensures r.1.marked == map[] ==> r.0 == f
    ensures r.0.path == f.path
  {
    var s := ScanValues(PassValues(f, kind), previous, newVersion, vs);
    (if s.marked == map[] then f else ApplyMarks(f, kind, s.marked, newVersion), s)
  }

  /**
   * After a pass, every node `Classify` marked holds the new version inside
   * its original brackets, and every other node is as it was.
   */
  lemma FilePassRewritesMarked<V>(f: BuildFile, kind: PassKind, previous: Option<string>, newVersion: string, vs: Versioning<V>)
    requires vs.parse(newVersion).Some?
    ensures var values := PassValues(f, kind);
      var after := PassValues(FilePass(f, kind, previous, newVersion, vs).0, kind);
      && |after| == |values|
      && forall j :: 0 <= j < |values| ==>
        if values[j].Some? && Marked(Classify(values[j].value, previous, newVersion, vs)) then
          TrimVersion(values[j].value) != [] ==>
            after[j] == Some(Opening(values[j].value) + newVersion + Closing(values[j].value))
        else after[j] == values[j]
  {
    var values := PassValues(f, kind);
    var s := ScanValues(values, previous, newVersion, vs);
    var after := PassValues(FilePass(f, kind, previous, newVersion, vs).0, kind);
    ScanMarks(values, previous, newVersion, vs);
    forall j | 0 <= j < |values|
      ensures if values[j].Some? && Marked(Classify(values[j].value, previous, newVersion, vs)) then
          TrimVersion(values[j].value) != [] ==>
            after[j] == Some(Opening(values[j].value) + newVersion + Closing(values[j].value))
        else after[j] == values[j]
    {
      if j in s.marked {
        assert after[j] == Some(ReplaceAll(values[j].value, TrimVersion(values[j].value), newVersion));
        if TrimVersion(values[j].value) != [] {
          RewriteKeepsBrackets(values[j].value, newVersion);
        }
      }
    }
  }

  /**
   * When the caller names the previous version, the as-written pass and the
   * corrected one agree: every mark replaces that previous version.
   */
  lemma AsWrittenAgreesWithPrevious<V>(f: BuildFile, kind: PassKind, previous: Option<string>, newVersion: string, vs: Versioning<V>)
    requires vs.parse(newVersion).Some? && previous.Some?
    ensures FilePassAsWritten(f, kind, previous, newVersion, vs) == FilePass(f, kind, previous, newVersion, vs)
  {
    var s := ScanValues(PassValues(f, kind), previous, newVersion, vs);
    MarksArePrevious(PassValues(f, kind), previous, newVersion, vs);
    assert AsWrittenMarks(s) == s.marked;
  }

  /** With a previous version, every mark replaces that version and `previousPackageVersion` never moves. */
  lemma MarksArePrevious<V>(values: seq<Option<string>>, previous: Option<string>, newVersion: string, vs: Versioning<V>)
    requires vs.parse(newVersion).Some? && previous.Some?
    ensures var s := ScanValues(values, previous, newVersion, vs);
      && s.previousText == previous
      && forall j :: j in s.marked ==> s.marked[j] == previous.value
  {
    var s := ScanValues(values, previous, newVersion, vs);
    ScanMarks(values, previous, newVersion, vs);
    forall j | j in s.marked
      ensures s.marked[j] == previous.value
    {
      MarkedOnlyIf(values[j].value, previous, newVersion, vs);
    }
  }

  /** A file naming package `name` twice, at versions `a` and `b`. */
  function TwoPins(name: string, a: string, b: string): BuildFile
  {
    BuildFile("Project.csproj",
      [PackageNode("PackageReference", Some(name), Some(a), None),
       PackageNode("PackageReference", Some(name), Some(b), None)], [], [])
  }

  /** The pass over the packages looks at both pins of `TwoPins`. */
  lemma TwoPinsValues(name: string, a: string, b: string)
    ensures PassValues(TwoPins(name, a, b), Packages(name)) == [Some(a), Some(b)]
  {
    assert EqualsIgnoreCase(name, name);
  }

  /** The loop's last step, for a last value with a known verdict. */
  lemma ScanValuesLast<V>(values: seq<Option<string>>, x: string, previous: Option<string>, newVersion: string,
                          vs: Versioning<V>, v: Verdict)
    requires vs.parse(newVersion).Some? && values != [] && values[|values| - 1] == Some(x)
    requires Classify(x, previous, newVersion, vs) == v
    ensures ScanValues(values, previous, newVersion, vs) ==
      ScanStep(ScanValues(values[..|values| - 1], previous, newVersion, vs), |values| - 1, x, v)
  {
  }

  /** Two peer rewrites in a row mark both pins, and the second one's text is the file's previous version. */
  lemma ScanTwoPeers<V>(values: seq<Option<string>>, a: string, b: string, newVersion: string, vs: Versioning<V>)
    requires vs.parse(newVersion).Some? && values == [Some(a), Some(b)]
    requires Classify(a, None, newVersion, vs) == RewritePeer(a)
    requires Classify(b, None, newVersion, vs) == RewritePeer(b)
    ensures ScanValues(values, None, newVersion, vs) == TwoPeersScan(a, b)
  {
    var one := values[..1];
    assert one == [Some(a)] && one[..0] == [];
    var s0 := Scan([], map[], None, false, false);
    var s1 := Scan([], map[0 := a], Some(a), false, false);
    var s2 := Scan([], map[0 := a, 1 := b], Some(b), false, false);
    assert ScanStep(s0, 0, a, RewritePeer(a)) == s1;
    assert ScanStep(s1, 1, b, RewritePeer(b)) == s2 by {
      assert s1.marked[1 := b] == map[0 := a, 1 := b];
    }
    assert ScanValues(one[..0], None, newVersion, vs) == s0;
    ScanValuesLast(one, a, None, newVersion, vs, RewritePeer(a));
    ScanValuesLast(values, b, None, newVersion, vs, RewritePeer(b));
  }

  /** Replacing in both pins of `TwoPins`. */
  lemma ApplyTwoPins(name: string, a: string, b: string, marks: map<nat, string>, newVersion: string)
    requires marks.Keys == {0, 1}
    requires MarksFit(TwoPins(name, a, b), Packages(name), marks)
    ensures var after := ApplyMarks(TwoPins(name, a, b), Packages(name), marks, newVersion);
      && after.packageNodes[0].versionAttr == Some(ReplaceAll(a, marks[0], newVersion))
      && after.packageNodes[1].versionAttr == Some(ReplaceAll(b, marks[1], newVersion))
  {
  }

  /** The scan `ScanTwoPeers` computes, as a value. */
  function TwoPeersScan(a: string, b: string): Scan
  {
    Scan([], map[0 := a, 1 := b], Some(b), false, false)
  }

  /** Both passes over a file, given the scan of its values and some mark. */
  lemma FilePassesByScan<V>(f: BuildFile, kind: PassKind, previous: Option<string>, newVersion: string, vs: Versioning<V>, s: Scan)
    requires vs.parse(newVersion).Some?
    requires ScanValues(PassValues(f, kind), previous, newVersion, vs) == s && s.marked != map[]
    ensures MarksFit(f, kind, s.marked) && MarksFit(f, kind, AsWrittenMarks(s))
    ensures FilePass(f, kind, previous, newVersion, vs) == (ApplyMarks(f, kind, s.marked, newVersion), s)
    ensures FilePassAsWritten(f, kind, previous, newVersion, vs) == (ApplyMarks(f, kind, AsWrittenMarks(s), newVersion), s)
  {
  }

  /** The as-written pass over `TwoPins` once the scan has marked both pins as peers. */
  lemma TwoPinsPassAsWritten<V>(name: string, a: string, b: string, newVersion: string, vs: Versioning<V>)
    requires vs.parse(newVersion).Some?
    requires ScanValues(PassValues(TwoPins(name, a, b), Packages(name)), None, newVersion, vs) == TwoPeersScan(a, b)
    ensures var (after, s) := FilePassAsWritten(TwoPins(name, a, b), Packages(name), None, newVersion, vs);
      && s.marked.Keys == {0, 1}
      && after.packageNodes[0].versionAttr == Some(ReplaceAll(a, b, newVersion))
      && after.packageNodes[1].versionAttr == Some(ReplaceAll(b, b, newVersion))
  {
    var s := TwoPeersScan(a, b);
    assert s.marked.Keys == {0, 1};
    FilePassesByScan(TwoPins(name, a, b), Packages(name), None, newVersion, vs, s);
    var marks := AsWrittenMarks(s);
    assert marks[0] == b && marks[1] == b;
    ApplyTwoPins(name, a, b, marks, newVersion);
  }

  /** The corrected pass over `TwoPins` once the scan has marked both pins as peers. */
  lemma TwoPinsPass<V>(name: string, a: string, b: string, newVersion: string, vs: Versioning<V>)
    requires vs.parse(newVersion).Some?
    requires ScanValues(PassValues(TwoPins(name, a, b), Packages(name)), None, newVersion, vs) == TwoPeersScan(a, b)
    ensures var after := FilePass(TwoPins(name, a, b), Packages(name), None, newVersion, vs).0;
      && after.packageNodes[0].versionAttr == Some(ReplaceAll(a, a, newVersion))
      && after.packageNodes[1].versionAttr == Some(ReplaceAll(b, b, newVersion))
  {
    var s := TwoPeersScan(a, b);
    assert s.marked.Keys == {0, 1};
    FilePassesByScan(TwoPins(name, a, b), Packages(name), None, newVersion, vs, s);
    ApplyTwoPins(name, a, b, s.marked, newVersion);
  }

  /**
   * When both pins are peer rewrites, the pass as written replaces the
   * second pin's text in both nodes.
   */
  lemma TwoPeerPinsAsWritten<V>(name: string, a: string, b: string, newVersion: string, vs: Versioning<V>)
    requires vs.parse(newVersion).Some?
    requires Classify(a, None, newVersion, vs) == RewritePeer(a)
    requires Classify(b, None, newVersion, vs) == RewritePeer(b)
    ensures var (after, s) := FilePassAsWritten(TwoPins(name, a, b), Packages(name), None, newVersion, vs);
      && s.marked.Keys == {0, 1}
      && after.packageNodes[0].versionAttr == Some(ReplaceAll(a, b, newVersion))
      && after.packageNodes[1].versionAttr == Some(ReplaceAll(b, b, newVersion))
  {
    TwoPinsValues(name, a, b);
    ScanTwoPeers([Some(a), Some(b)], a, b, newVersion, vs);
    TwoPinsPassAsWritten(name, a, b, newVersion, vs);
  }

  /** The corrected pass on the same shape replaces each pin's own text. */
  lemma TwoPeerPins<V>(name: string, a: string, b: string, newVersion: string, vs: Versioning<V>)
    requires vs.parse(newVersion).Some?
    requires Classify(a, None, newVersion, vs) == RewritePeer(a)
    requires Classify(b, None, newVersion, vs) == RewritePeer(b)
    ensures var after := FilePass(TwoPins(name, a, b), Packages(name), None, newVersion, vs).0;
      && after.packageNodes[0].versionAttr == Some(ReplaceAll(a, a, newVersion))
      && after.packageNodes[1].versionAttr == Some(ReplaceAll(b, b, newVersion))
  {
    TwoPinsValues(name, a, b);
    ScanTwoPeers([Some(a), Some(b)], a, b, newVersion, vs);
    TwoPinsPass(name, a, b, newVersion, vs);
  }

  lemma ReplaceOwn()
    ensures ReplaceAll("1.0.0", "1.0.0", "3.0.0") == "3.0.0"
  {
    assert "1.0.0"[..5] == "1.0.0";
    assert "1.0.0"[5..] == "";
  }

  lemma ReplaceMisses()
    ensures ReplaceAll("1.0.0", "2.0.0", "3.0.0") == "1.0.0"
  {
    assert "1.0.0"[..5][0] != "2.0.0"[0];
    assert "1.0.0"[1..] == ".0.0";
    assert ReplaceAll(".0.0", "2.0.0", "3.0.0") == ".0.0";
  }

  lemma ReplaceHits()
    ensures ReplaceAll("2.0.0", "2.0.0", "3.0.0") == "3.0.0"
  {
    assert "2.0.0"[..5] == "2.0.0";
    assert "2.0.0"[5..] == "";
  }

  lemma PlainVersionIsTrimmed(v: string)
    requires v != [] && !IsOpening(v[0]) && !IsClosing(v[|v| - 1])
    ensures TrimVersion(v) == v
  {
  }

  /** A plain version below the new one, with no previous version given, is a peer rewrite. */
  lemma PlainLowerIsPeer<V>(v: string, newVersion: string, vs: Versioning<V>)
    requires vs.parse(newVersion).Some? && vs.parse(v).Some?
    requires v != [] && !IsOpening(v[0]) && !IsClosing(v[|v| - 1]) && ',' !in v && '*' !in v
    requires vs.propertyNameOf(v).None? && vs.less(vs.parse(v).value, vs.parse(newVersion).value)
    ensures Classify(v, None, newVersion, vs) == RewritePeer(v)
  {
    PlainVersionIsTrimmed(v);
  }

  /**
   * A peer update (no previous version) of a file that pins the package
   * twice, at `1.0.0` and `2.0.0`, to `3.0.0`: both nodes are marked, yet the
   * first keeps `1.0.0` because the file's `previousPackageVersion` is
   * `2.0.0` by the time the replacements run.
   */
  lemma PeerUpdateLeavesEarlierNode<V>(vs: Versioning<V>, one: V, two: V, three: V)
    requires vs.parse("1.0.0") == Some(one) && vs.parse("2.0.0") == Some(two) && vs.parse("3.0.0") == Some(three)
    requires vs.less(one, three) && vs.less(two, three)
    requires vs.propertyNameOf("1.0.0").None? && vs.propertyNameOf("2.0.0").None?
    ensures var (after, s) := FilePassAsWritten(TwoPins("P", "1.0.0", "2.0.0"), Packages("P"), None, "3.0.0", vs);
      && s.marked.Keys == {0, 1}
      && after.packageNodes[0].versionAttr == Some("1.0.0")
      && after.packageNodes[1].versionAttr == Some("3.0.0")
  {
    PlainLowerIsPeer("1.0.0", "3.0.0", vs);
    PlainLowerIsPeer("2.0.0", "3.0.0", vs);
    ReplaceMisses();
    ReplaceHits();
    TwoPeerPinsAsWrittenWith("P", "1.0.0", "2.0.0", "3.0.0", vs);
  }

  /** `TwoPeerPinsAsWritten` when the first pin does not contain the second and the second is replaced whole. */
  lemma TwoPeerPinsAsWrittenWith<V>(name: string, a: string, b: string, newVersion: string, vs: Versioning<V>)
    requires vs.parse(newVersion).Some?
    requires Classify(a, None, newVersion, vs) == RewritePeer(a)
    requires Classify(b, None, newVersion, vs) == RewritePeer(b)
    requires ReplaceAll(a, b, newVersion) == a && ReplaceAll(b, b, newVersion) == newVersion
    ensures var (after, s) := FilePassAsWritten(TwoPins(name, a, b), Packages(name), None, newVersion, vs);
      && s.marked.Keys == {0, 1}
      && after.packageNodes[0].versionAttr == Some(a)
      && after.packageNodes[1].versionAttr == Some(newVersion)
  {
    TwoPeerPinsAsWritten(name, a, b, newVersion, vs);
  }

  /**
   * The corrected pass on the same file: each pin is replaced by its own
   * text, so both nodes end at `3.0.0`.
   */
  lemma PeerUpdateRewritesEveryNode<V>(vs: Versioning<V>, one: V, two: V, three: V)
    requires vs.parse("1.0.0") == Some(one) && vs.parse("2.0.0") == Some(two) && vs.parse("3.0.0") == Some(three)
    requires vs.less(one, three) && vs.less(two, three)
    requires vs.propertyNameOf("1.0.0").None? && vs.propertyNameOf("2.0.0").None?
    ensures var after := FilePass(TwoPins("P", "1.0.0", "2.0.0"), Packages("P"), None, "3.0.0", vs).0;
      && after.packageNodes[0].versionAttr == Some("3.0.0")
      && after.packageNodes[1].versionAttr == Some("3.0.0")
  {
    PlainLowerIsPeer("1.0.0", "3.0.0", vs);
    PlainLowerIsPeer("2.0.0", "3.0.0", vs);
    ReplaceHits();
    ReplaceOwn();
    TwoPeerPinsWith("P", "1.0.0", "2.0.0", "3.0.0", vs);
  }

  /** `TwoPeerPins` when each pin is replaced whole by its own text. */
  lemma TwoPeerPinsWith<V>(name: string, a: string, b: string, newVersion: string, vs: Versioning<V>)
    requires vs.parse(newVersion).Some?
    requires Classify(a, None, newVersion, vs) == RewritePeer(a)
    requires Classify(b, None, newVersion, vs) == RewritePeer(b)
    requires ReplaceAll(a, a, newVersion) == newVersion && ReplaceAll(b, b, newVersion) == newVersion
    ensures var after := FilePass(TwoPins(name, a, b), Packages(name), None, newVersion, vs).0;
      && after.packageNodes[0].versionAttr == Some(newVersion)
      && after.packageNodes[1].versionAttr == Some(newVersion)
  {
    TwoPeerPins(name, a, b, newVersion, vs);
  }

  // ---------------------------------------------------------------------
  // The passes over all files, and the property worklist
  // ---------------------------------------------------------------------

  /** The flags and the property-name list of `TryUpdateDependencyVersion`. */
  datatype Progress = Progress(names: seq<string>, updateWasPerformed: bool, foundCorrect: bool, foundUnsupported: bool)

  /** What one file's loop adds to the progress. */
  function Absorb(pr: Progress, s: Scan): (r: Progress)
  {
    Progress(
      pr.names + s.names,
      pr.updateWasPerformed || s.marked != map[],
      pr.foundCorrect || s.foundCorrect,
      pr.foundUnsupported || s.foundUnsupported)
  }

  /** The `foreach (var buildFile in buildFiles)` loop, from file `k` on. */
  function FilesPass<V>(files: seq<BuildFile>, pr: Progress, k: nat, kind: PassKind,
                        previous: Option<string>, newVersion: string, vs: Versioning<V>): (r: (seq<BuildFile>, Progress))
    requires k <= |files| && vs.parse(newVersion).Some?
    ensures |r.0| == |files|
    ensures forall m :: 0 <= m < k ==> r.0[m] == files[m]
    ensures forall m :: k <= m < |files| ==> r.0[m] == FilePass(files[m], kind, previous, newVersion, vs).0
    ensures |pr.names| <= |r.1.names| && r.1.names[..|pr.names|] == pr.names
    decreases |files| - k
  {
    if k == |files| then (files, pr)
    else
      var (f, s) := FilePass(files[k], kind, previous, newVersion, vs);
      var r := FilesPass(files[k := f], Absorb(pr, s), k + 1, kind, previous, newVersion, vs);
      PrefixOfAppend(r.1.names, pr.names, s.names);
      r
  }

  /** A sequence that starts with `ys + zs` starts with `ys`. */
  lemma PrefixOfAppend<T>(xs: seq<T>, ys: seq<T>, zs: seq<T>)
    requires |ys + zs| <= |xs| && xs[..|ys + zs|] == ys + zs
    ensures xs[..|ys|] == ys
  {
    assert xs[..|ys|] == (ys + zs)[..|ys|];
  }

  /**
   * What the worklist needs of `TryGetPropertyName`: writing a version that
   * NuGet parses in place of a literal value's own version text (the only
   * rewrite a pass performs) never makes a property reference.
   */
  ghost predicate LiteralsStayLiteral<V>(vs: Versioning<V>)
  {
    forall v, n :: vs.parse(n).Some? && vs.propertyNameOf(v).None? ==>
      vs.propertyNameOf(ReplaceAll(v, TrimVersion(v), n)).None?
  }

  /** A reader that takes exactly the values `$(Name)` as references. */
  function DollarReference(value: string): Option<string>
  {
    if |value| >= 3 && value[0] == '$' && value[1] == '(' && value[|value| - 1] == ')' then Some(value[2..|value| - 1])
    else None
  }

  /**
   * `LiteralsStayLiteral` holds for the `$(Name)` reader whenever no version
   * NuGet parses starts with `$`.
   */
  lemma DollarReaderKeepsLiterals<V>(parse: string -> Option<V>, less: (V, V) -> bool)
    requires forall n :: parse(n).Some? ==> n == [] || n[0] != '$'
    ensures LiteralsStayLiteral(Versioning(parse, less, DollarReference))
  {
    forall v, n | parse(n).Some? && DollarReference(v).None?
      ensures DollarReference(ReplaceAll(v, TrimVersion(v), n)).None?
    {
      var w := ReplaceAll(v, TrimVersion(v), n);
      if TrimVersion(v) == [] {
        assert w == v;
      } else {
        RewriteKeepsBrackets(v, n);
        OpeningIsBrackets(v);
        ClosingIsBrackets(v);
        if |w| > 0 {
          if |Opening(v)| > 0 {
            assert w[0] == Opening(v)[0];
          } else if |n| > 0 {
            assert w[0] == n[0];
          } else {
            assert w == Closing(v);
            assert IsClosing(w[0]);
          }
        }
      }
    }
  }

  /** Every property name some property of `files` refers to. */
  ghost function Referenced<V>(files: seq<BuildFile>, vs: Versioning<V>): set<string>
  {
    set k, j | 0 <= k < |files| && 0 <= j < |files[k].propertyNodes| && vs.propertyNameOf(files[k].propertyNodes[j].value).Some?
      :: vs.propertyNameOf(files[k].propertyNodes[j].value).value
  }

  /** Two files whose properties refer to the same names, node by node. */
  predicate SameReferences<V>(f: BuildFile, g: BuildFile, vs: Versioning<V>)
  {
    && |g.propertyNodes| == |f.propertyNodes|
    && forall j :: 0 <= j < |f.propertyNodes| ==>
         vs.propertyNameOf(g.propertyNodes[j].value) == vs.propertyNameOf(f.propertyNodes[j].value)
  }

  /** A pass over one file keeps the property references, and the names it collects in a property pass are references of the file. */
  lemma FilePassReferences<V>(f: BuildFile, kind: PassKind, previous: Option<string>, newVersion: string, vs: Versioning<V>)
    requires vs.parse(newVersion).Some? && LiteralsStayLiteral(vs)
    ensures SameReferences(f, FilePass(f, kind, previous, newVersion, vs).0, vs)
    ensures kind.Properties? ==> forall p :: p in FilePass(f, kind, previous, newVersion, vs).1.names ==>
      exists j :: 0 <= j < |f.propertyNodes| && vs.propertyNameOf(f.propertyNodes[j].value) == Some(p)
  {
    var values := PassValues(f, kind);
    var s := ScanValues(values, previous, newVersion, vs);
    ScanMarks(values, previous, newVersion, vs);
    ScanNames(values, previous, newVersion, vs);
    if kind.Properties? && s.marked != map[] {
      var g := ApplyMarks(f, kind, s.marked, newVersion);
      forall j | 0 <= j < |f.propertyNodes|
        ensures vs.propertyNameOf(g.propertyNodes[j].value) == vs.propertyNameOf(f.propertyNodes[j].value)
      {
        if j in s.marked {
          assert values[j] == Some(f.propertyNodes[j].value);
          MarkedOnlyIf(f.propertyNodes[j].value, previous, newVersion, vs);
        }
      }
    }
  }

  lemma {:induction false} FilesPassReferences<V>(files: seq<BuildFile>, pr: Progress, k: nat, kind: PassKind,
                                                  previous: Option<string>, newVersion: string, vs: Versioning<V>)
    requires k <= |files| && vs.parse(newVersion).Some? && LiteralsStayLiteral(vs)
    ensures var r := FilesPass(files, pr, k, kind, previous, newVersion, vs);
      && Referenced(r.0, vs) == Referenced(files, vs)
      && (kind.Properties? ==> forall p :: p in r.1.names ==> p in pr.names || p in Referenced(files, vs))
  {
    FilesPassKeepsReferenced(files, pr, k, kind, previous, newVersion, vs);
    if kind.Properties? {
      FilesPassNamesReferenced(files, pr, k, kind, previous, newVersion, vs);
    }
  }

  /** The passes over the files keep the set of references. */
  lemma {:induction false} FilesPassKeepsReferenced<V>(files: seq<BuildFile>, pr: Progress, k: nat, kind: PassKind,
                                                       previous: Option<string>, newVersion: string, vs: Versioning<V>)
    requires k <= |files| && vs.parse(newVersion).Some? && LiteralsStayLiteral(vs)
    ensures Referenced(FilesPass(files, pr, k, kind, previous, newVersion, vs).0, vs) == Referenced(files, vs)
    decreases |files| - k
  {
    if k < |files| {
      var fs := FilePass(files[k], kind, previous, newVersion, vs);
      FilePassReferences(files[k], kind, previous, newVersion, vs);
      var next := files[k := fs.0];
      FilesPassKeepsReferenced(next, Absorb(pr, fs.1), k + 1, kind, previous, newVersion, vs);
      SameReferencesUpdate(files, k, fs.0, vs);
      assert FilesPass(files, pr, k, kind, previous, newVersion, vs) == FilesPass(next, Absorb(pr, fs.1), k + 1, kind, previous, newVersion, vs);
    }
  }

  /** The names a property pass collects are listed already or referenced by the files. */
  lemma {:induction false} FilesPassNamesReferenced<V>(files: seq<BuildFile>, pr: Progress, k: nat, kind: PassKind,
                                                       previous: Option<string>, newVersion: string, vs: Versioning<V>)
    requires k <= |files| && vs.parse(newVersion).Some? && LiteralsStayLiteral(vs) && kind.Properties?
    ensures forall p :: p in FilesPass(files, pr, k, kind, previous, newVersion, vs).1.names ==> p in pr.names || p in Referenced(files, vs)
    decreases |files| - k
  {
    if k < |files| {
      var fs := FilePass(files[k], kind, previous, newVersion, vs);
      FilePassReferences(files[k], kind, previous, newVersion, vs);
      var next := files[k := fs.0];
      FilesPassNamesReferenced(next, Absorb(pr, fs.1), k + 1, kind, previous, newVersion, vs);
      SameReferencesUpdate(files, k, fs.0, vs);
      AbsorbedNamesReferenced(files, k, pr, fs.1, vs);
      var r := FilesPass(next, Absorb(pr, fs.1), k + 1, kind, previous, newVersion, vs);
      assert FilesPass(files, pr, k, kind, previous, newVersion, vs) == r;
      forall p | p in r.1.names
        ensures p in pr.names || p in Referenced(files, vs)
      {
      }
    }
  }

  /** The names a property pass over file `k` adds are references of the files. */
  lemma AbsorbedNamesReferenced<V>(files: seq<BuildFile>, k: nat, pr: Progress, s: Scan, vs: Versioning<V>)
    requires k < |files|
    requires forall p :: p in s.names ==>
      exists j :: 0 <= j < |files[k].propertyNodes| && vs.propertyNameOf(files[k].propertyNodes[j].value) == Some(p)
    ensures forall p :: p in Absorb(pr, s).names ==> p in pr.names || p in Referenced(files, vs)
  {
    forall p | p in Absorb(pr, s).names
      ensures p in pr.names || p in Referenced(files, vs)
    {
      if p !in pr.names {
        assert p in s.names;
        var j :| 0 <= j < |files[k].propertyNodes| && vs.propertyNameOf(files[k].propertyNodes[j].value) == Some(p);
        assert p == vs.propertyNameOf(files[k].propertyNodes[j].value).value;
      }
    }
  }

  /** Replacing one file by one with the same references keeps the set of references. */
  lemma SameReferencesUpdate<V>(files: seq<BuildFile>, k: nat, f: BuildFile, vs: Versioning<V>)
    requires k < |files| && SameReferences(files[k], f, vs)
    ensures Referenced(files[k := f], vs) == Referenced(files, vs)
  {
    var next := files[k := f];
    forall m | 0 <= m < |files|
      ensures SameReferences(files[m], next[m], vs)
    {
      if m != k {
        assert next[m] == files[m];
      }
    }
    SameReferencesSameSet(files, next, vs);
  }

  lemma SameReferencesSameSet<V>(files: seq<BuildFile>, other: seq<BuildFile>, vs: Versioning<V>)
    requires |other| == |files|
    requires forall k :: 0 <= k < |files| ==> SameReferences(files[k], other[k], vs)
    ensures Referenced(other, vs) == Referenced(files, vs)
  {
    forall p | p in Referenced(files, vs)
      ensures p in Referenced(other, vs)
    {
      var k, j :| 0 <= k < |files| && 0 <= j < |files[k].propertyNodes| && vs.propertyNameOf(files[k].propertyNodes[j].value).Some?
        && p == vs.propertyNameOf(files[k].propertyNodes[j].value).value;
      assert vs.propertyNameOf(other[k].propertyNodes[j].value) == vs.propertyNameOf(files[k].propertyNodes[j].value);
    }
    forall p | p in Referenced(other, vs)
      ensures p in Referenced(files, vs)
    {
      var k, j :| 0 <= k < |other| && 0 <= j < |other[k].propertyNodes| && vs.propertyNameOf(other[k].propertyNodes[j].value).Some?
        && p == vs.propertyNameOf(other[k].propertyNodes[j].value).value;
      assert vs.propertyNameOf(other[k].propertyNodes[j].value) == vs.propertyNameOf(files[k].propertyNodes[j].value);
    }
  }

  /** The names still to be processed: referenced or listed, and not yet processed. */
  ghost function Outstanding<V>(files: seq<BuildFile>, names: seq<string>, log: seq<string>, vs: Versioning<V>): set<string>
  {
    (Referenced(files, vs) + set x | x in names) - set x | x in log
  }

  lemma UniqSnoc(s: seq<string>, i: nat)
    requires i < |s|
    ensures Uniq(s[..i + 1]) == if s[i] in Uniq(s[..i]) then Uniq(s[..i]) else Uniq(s[..i]) + [s[i]]
  {
    assert s[..i + 1][..i] == s[..i];
  }

  /** The state of `TryUpdateDependencyVersion` after its worklist: files, progress, and the names processed in order. */
  datatype Work = Work(files: seq<BuildFile>, progress: Progress, log: seq<string>)

  /**
   * The `for` loop over `propertyNames` from index `i`: a name not yet
   * processed is marked processed and every file's properties of that name
   * are scanned and rewritten, which may append more names.
   */
  ghost function Drain<V>(files: seq<BuildFile>, pr: Progress, i: nat, log: seq<string>,
                          previous: Option<string>, newVersion: string, vs: Versioning<V>): (w: Work)
    requires vs.parse(newVersion).Some? && LiteralsStayLiteral(vs)
    requires i <= |pr.names| && log == Uniq(pr.names[..i])
    ensures w.log == Uniq(w.progress.names)
    ensures |pr.names| <= |w.progress.names| && w.progress.names[..|pr.names|] == pr.names
    ensures |w.files| == |files|
    decreases Outstanding(files, pr.names, log, vs), |pr.names| - i
  {
    if i == |pr.names| then
      assert pr.names[..i] == pr.names;
      Work(files, pr, log)
    else
      var p := pr.names[i];
      UniqSnoc(pr.names, i);
      if p in log then Drain(files, pr, i + 1, log, previous, newVersion, vs)
      else
        var pass := FilesPass(files, pr, 0, Properties(p), previous, newVersion, vs);
        DrainStepFacts(files, pr, i, log, previous, newVersion, vs);
        var w := Drain(pass.0, pass.1, i + 1, log + [p], previous, newVersion, vs);
        PrefixTrans(w.progress.names, pass.1.names, pr.names);
        w
  }

  /** Processing the outstanding name at index `i`: the pass keeps the names so far and shrinks what is outstanding. */
  lemma DrainStepFacts<V>(files: seq<BuildFile>, pr: Progress, i: nat, log: seq<string>,
                          previous: Option<string>, newVersion: string, vs: Versioning<V>)
    requires vs.parse(newVersion).Some? && LiteralsStayLiteral(vs)
    requires i < |pr.names| && log == Uniq(pr.names[..i]) && pr.names[i] !in log
    ensures var pass := FilesPass(files, pr, 0, Properties(pr.names[i]), previous, newVersion, vs);
      && i + 1 <= |pass.1.names| && log + [pr.names[i]] == Uniq(pass.1.names[..i + 1])
      && Outstanding(pass.0, pass.1.names, log + [pr.names[i]], vs) < Outstanding(files, pr.names, log, vs)
  {
    var p := pr.names[i];
    var pass := FilesPass(files, pr, 0, Properties(p), previous, newVersion, vs);
    UniqSnoc(pr.names, i);
    FilesPassReferences(files, pr, 0, Properties(p), previous, newVersion, vs);
    PrefixSlice(pass.1.names, pr.names, i + 1);
    OutstandingShrinks(files, pass.0, pr.names, pass.1.names, log, p, vs);
  }

  /** A sequence that starts with `ys` starts with every prefix of `ys`. */
  lemma PrefixSlice<T>(xs: seq<T>, ys: seq<T>, i: nat)
    requires |ys| <= |xs| && xs[..|ys|] == ys && i <= |ys|
    ensures xs[..i] == ys[..i]
  {
    assert forall k :: 0 <= k < i ==> xs[..i][k] == xs[..|ys|][k];
  }

  /** Starting with is transitive. */
  lemma PrefixTrans<T>(xs: seq<T>, ys: seq<T>, zs: seq<T>)
    requires |ys| <= |xs| && xs[..|ys|] == ys && |zs| <= |ys| && ys[..|zs|] == zs
    ensures xs[..|zs|] == zs
  {
    PrefixSlice(xs, ys, |zs|);
  }

  /** Processing an outstanding name removes it, and whatever the pass adds was referenced already. */
  lemma OutstandingShrinks<V>(files: seq<BuildFile>, next: seq<BuildFile>, names: seq<string>, names': seq<string>,
                              log: seq<string>, p: string, vs: Versioning<V>)
    requires Referenced(next, vs) == Referenced(files, vs)
    requires forall x :: x in names' ==> x in names || x in Referenced(files, vs)
    requires p in names && p !in log
    ensures Outstanding(next, names', log + [p], vs) < Outstanding(files, names, log, vs)
  {
    assert p in Outstanding(files, names, log, vs);
    assert p !in Outstanding(next, names', log + [p], vs);
  }

  /** A name already processed is skipped. */
  lemma DrainSkips<V>(files: seq<BuildFile>, pr: Progress, i: nat, log: seq<string>,
                      previous: Option<string>, newVersion: string, vs: Versioning<V>)
    requires vs.parse(newVersion).Some? && LiteralsStayLiteral(vs)
    requires i < |pr.names| && log == Uniq(pr.names[..i]) && pr.names[i] in log
    ensures log == Uniq(pr.names[..i + 1])
    ensures Drain(files, pr, i, log, previous, newVersion, vs) == Drain(files, pr, i + 1, log, previous, newVersion, vs)
  {
    UniqSnoc(pr.names, i);
  }

  /** A name not processed yet is processed: one property pass over every file. */
  lemma DrainProcesses<V>(files: seq<BuildFile>, pr: Progress, i: nat, log: seq<string>,
                          previous: Option<string>, newVersion: string, vs: Versioning<V>)
    requires vs.parse(newVersion).Some? && LiteralsStayLiteral(vs)
    requires i < |pr.names| && log == Uniq(pr.names[..i]) && pr.names[i] !in log
    ensures var p := pr.names[i];
      var (next, pr') := FilesPass(files, pr, 0, Properties(p), previous, newVersion, vs);
      && i < |pr'.names|
      && log + [p] == Uniq(pr'.names[..i + 1])
      && Outstanding(next, pr'.names, log + [p], vs) < Outstanding(files, pr.names, log, vs)
      && Drain(files, pr, i, log, previous, newVersion, vs) == Drain(next, pr', i + 1, log + [p], previous, newVersion, vs)
  {
    DrainStepFacts(files, pr, i, log, previous, newVersion, vs);
  }

  // ---------------------------------------------------------------------
  // The build files of a project, updated in place
  // ---------------------------------------------------------------------

  /**
   * `TryUpdateDependencyVersion` as a whole: the pass over the package items, then the worklist
   * of property names until every referenced name has been processed.
   */
  ghost function TryUpdate<V>(files: seq<BuildFile>, dependencyName: string, previous: Option<string>, newVersion: string,
                              vs: Versioning<V>): (w: Work)
    requires vs.parse(newVersion).Some? && LiteralsStayLiteral(vs)
    ensures |w.files| == |files|
    ensures w.log == Uniq(w.progress.names)
  {
    var (afterItems, pr) := FilesPass(files, Progress([], false, false, false), 0, Packages(dependencyName), previous, newVersion, vs);
    Drain(afterItems, pr, 0, [], previous, newVersion, vs)
  }

  datatype UpdateResult = NotFound | NotSupported | Correct | Updated

  /** `TryUpdateDependencyVersion`'s verdict, by precedence. */
  function ResultOf(pr: Progress): (r: UpdateResult)
    ensures r == Updated <==> pr.updateWasPerformed
    ensures r == Correct <==> !pr.updateWasPerformed && pr.foundCorrect
    ensures r == NotSupported <==> !pr.updateWasPerformed && !pr.foundCorrect && pr.foundUnsupported
  {
    if pr.updateWasPerformed then Updated
    else if pr.foundCorrect then Correct
    else if pr.foundUnsupported then NotSupported
    else NotFound
  }

  /** The loop over one file's nodes, setting the flags and collecting marks and names. */
  method ScanNodes<V>(values: seq<Option<string>>, previous: Option<string>, newVersion: string, vs: Versioning<V>)
    returns (s: Scan)
    requires vs.parse(newVersion).Some?
    ensures s == ScanValues(values, previous, newVersion, vs)
  {
    s := Scan([], map[], previous, false, false);
    var j := 0;
    while j < |values|
      invariant j <= |values|
      invariant s == ScanValues(values[..j], previous, newVersion, vs)
    {
      ghost var before := s;
      ScanValuesPrefix(values, j, previous, newVersion, vs);
      if values[j].Some? {
        var value := values[j].value;
        var v := Classify(value, previous, newVersion, vs);
        match v {
          case Reference(p) =>
            s := s.(names := s.names + [p]);
          case Unsupported =>
            s := s.(foundUnsupported := true);
          case RewritePrevious =>
            s := s.(marked := s.marked[j := TrimVersion(value)]);
          case RewritePeer(current) =>
            s := s.(marked := s.marked[j := current], previousText := Some(current));
          case AtNewVersion =>
            s := s.(foundCorrect := true);
          case Untouched =>
        }
        assert s == ScanStep(before, j, value, v);
      }
      j := j + 1;
    }
    assert values[..j] == values;
  }

  class Project {
    /** The project's build files as loaded and edited in memory, in the order MSBuild lists them. */
    var files: seq<BuildFile>
    /** The build files as last written to disk. */
    var disk: seq<BuildFile>

    constructor(files: seq<BuildFile>)
      ensures this.files == files && this.disk == files
    {
      this.files := files;
      this.disk := files;
    }

    /** One `foreach (var buildFile in buildFiles)` loop of `TryUpdateDependencyVersion`. */
    method PassOverFiles<V>(kind: PassKind, previous: Option<string>, newVersion: string, vs: Versioning<V>, pr: Progress)
      returns (r: Progress)
      requires vs.parse(newVersion).Some?
      modifies this`files
      ensures (files, r) == FilesPass(old(files), pr, 0, kind, previous, newVersion, vs)
    {
      r := pr;
      var k := 0;
      while k < |files|
        invariant k <= |files|
        invariant FilesPass(files, r, k, kind, previous, newVersion, vs) == FilesPass(old(files), pr, 0, kind, previous, newVersion, vs)
      {
        var f := files[k];
        var s := ScanNodes(PassValues(f, kind), previous, newVersion, vs);
        if s.marked != map[] {
          files := files[k := ApplyMarks(f, kind, s.marked, newVersion)];
        } else {
          assert files[k := f] == files;
        }
        r := Absorb(r, s);
        k := k + 1;
      }
    }

    /**
     * Sets `dependencyName` to `newVersion` wherever its version is written:
     * in package items, and through `$(Property)` references in properties,
     * following references until each referenced name has been processed.
     */
    method TryUpdateDependencyVersion<V>(dependencyName: string, previous: Option<string>, newVersion: string, vs: Versioning<V>)
      returns (result: UpdateResult)
      requires vs.parse(newVersion).Some? && LiteralsStayLiteral(vs)
      modifies this`files
      ensures var w := TryUpdate(old(files), dependencyName, previous, newVersion, vs);
        files == w.files && result == ResultOf(w.progress)
    {
      var pr := PassOverFiles(Packages(dependencyName), previous, newVersion, vs, Progress([], false, false, false));
      ghost var afterItems, start := files, pr;
      var processed: set<string> := {};
      ghost var log: seq<string> := [];
      var i := 0;
      while i < |pr.names|
        invariant i <= |pr.names| && log == Uniq(pr.names[..i])
        invariant forall x :: x in processed <==> x in log
        invariant Drain(files, pr, i, log, previous, newVersion, vs) == Drain(afterItems, start, 0, [], previous, newVersion, vs)
        decreases Outstanding(files, pr.names, log, vs), |pr.names| - i
      {
        ghost var outstanding := Outstanding(files, pr.names, log, vs);
        var propertyName := pr.names[i];
        if propertyName !in processed {
          processed := processed + {propertyName};
          DrainProcesses(files, pr, i, log, previous, newVersion, vs);
          pr := PassOverFiles(Properties(propertyName), previous, newVersion, vs, pr);
          log := log + [propertyName];
          assert Outstanding(files, pr.names, log, vs) < outstanding;
        } else {
          DrainSkips(files, pr, i, log, previous, newVersion, vs);
        }
        i := i + 1;
      }
      assert pr.names[..i] == pr.names;
      result := ResultOf(pr);
    }

    /** The loop over the peer table in `UpdateTopLevelDepdendency`. */
    method UpdatePeers<V>(peers: PeerTable, dependencyName: string, vs: Versioning<V>)
      requires PeerVersionsParse(peers, vs) && LiteralsStayLiteral(vs)
      modifies this`files
      ensures RequestsParse(PeerRequests(peers, dependencyName), vs)
      ensures files == ApplyRequests(old(files), PeerRequests(peers, dependencyName), vs)
    {
      ghost var start := files;
      var k := 0;
      PeerStepStart(start, peers, dependencyName, vs);
      while k < |peers|
        invariant k <= |peers| && PeerLoop(start, files, peers, k, dependencyName, vs)
      {
        var (packageName, packageVersion) := peers[k];
        PeerStep(start, files, peers, k, dependencyName, vs);
        if !EqualsIgnoreCase(packageName, dependencyName) {
          var _ := TryUpdateDependencyVersion(packageName, None, packageVersion.value, vs);
        }
        k := k + 1;
      }
      PeerLoopEnd(start, files, peers, dependencyName, vs);
    }

    /** The handling of one `ResolveDependencyConflicts` answer in `UpdateTopLevelDepdendency`. */
    method UpdateResolved<V>(resolved: Option<seq<Dependency>>, dependencyName: string, newVersion: string, vs: Versioning<V>)
      requires AnswerParses(resolved, vs) && LiteralsStayLiteral(vs)
      modifies this`files
      ensures FollowUps(ResolvedRequests(resolved, dependencyName, newVersion), dependencyName, vs)
      ensures files == ApplyRequests(old(files), ResolvedRequests(resolved, dependencyName, newVersion), vs)
    {
      ResolvedRequestsFacts(resolved, dependencyName, newVersion, vs);
      if resolved.None? {
        return;
      }
      var deps := resolved.value;
      var root := FirstNamed(deps, dependencyName);
      if root.None? {
        return;
      }
      var rootVersion := deps[root.value].version;
      if !(rootVersion.Some? && EqualsIgnoreCase(newVersion, rootVersion.value)) {
        return;
      }
      UpdateOthers(deps, dependencyName, vs);
    }

    /** The "update all other dependencies" loop over an answer that keeps the root at the new version. */
    method UpdateOthers<V>(deps: seq<Dependency>, dependencyName: string, vs: Versioning<V>)
      requires AnswerParses(Some(deps), vs) && LiteralsStayLiteral(vs)
      modifies this`files
      ensures FollowUps(OtherResolved(deps, dependencyName), dependencyName, vs)
      ensures files == ApplyRequests(old(files), OtherResolved(deps, dependencyName), vs)
    {
      ghost var start := files;
      var j := 0;
      OthersStepStart(start, deps, dependencyName, vs);
      while j < |deps|
        invariant j <= |deps| && OthersLoop(start, files, deps, j, dependencyName, vs)
      {
        var d := deps[j];
        if !EqualsIgnoreCase(d.name, dependencyName) && d.version.Some? {
          OthersStepTaken(start, files, deps, j, dependencyName, vs);
          var _ := TryUpdateDependencyVersion(d.name, None, d.version.value, vs);
        } else {
          OthersStepSkipped(start, files, deps, j, dependencyName, vs);
        }
        j := j + 1;
      }
      OthersLoopEnd(start, files, deps, dependencyName, vs);
    }

    /** The loops over build files and target frameworks in `UpdateTopLevelDepdendency`. */
    method UpdateResolutions<V>(paths: seq<string>, tfms: seq<string>, resolve: (string, string) -> Option<seq<Dependency>>,
                                dependencyName: string, newVersion: string, vs: Versioning<V>)
      requires ResolvedVersionsParse(resolve, vs) && LiteralsStayLiteral(vs)
      modifies this`files
      ensures FollowUps(ResolutionRequests(paths, tfms, resolve, dependencyName, newVersion), dependencyName, vs)
      ensures files == ApplyRequests(old(files), ResolutionRequests(paths, tfms, resolve, dependencyName, newVersion), vs)
    {
      ghost var start := files;
      var f := 0;
      while f < |paths|
        invariant f <= |paths|
        invariant FollowUps(ResolutionRequests(paths[..f], tfms, resolve, dependencyName, newVersion), dependencyName, vs)
        invariant files == ApplyRequests(start, ResolutionRequests(paths[..f], tfms, resolve, dependencyName, newVersion), vs)
      {
        ghost var done := ResolutionRequests(paths[..f], tfms, resolve, dependencyName, newVersion);
        ghost var before := files;
        var t := 0;
        while t < |tfms|
          invariant t <= |tfms|
          invariant FollowUps(FileRequests(paths[f], tfms[..t], resolve, dependencyName, newVersion), dependencyName, vs)
          invariant files == ApplyRequests(before, FileRequests(paths[f], tfms[..t], resolve, dependencyName, newVersion), vs)
        {
          FileRequestsStep(before, paths[f], tfms, t, resolve, dependencyName, newVersion, vs);
          AnswerParsesAt(resolve, vs, paths[f], tfms[t]);
          UpdateResolved(resolve(paths[f], tfms[t]), dependencyName, newVersion, vs);
          t := t + 1;
        }
        TakeAll(tfms);
        ResolutionRequestsStep(start, paths, f, tfms, resolve, dependencyName, newVersion, vs);
        f := f + 1;
      }
      TakeAll(paths);
    }

    /** `PinTransitiveDependency` on build file `f`, which is updated in place. */
    method PinTransitiveDependency(f: nat, dependencyName: string, newVersion: string)
      requires f < |files|
      modifies this`files
      ensures files == old(files)[f := old(files)[f].(itemGroups := PinnedGroups(old(files)[f].itemGroups, dependencyName, newVersion))]
    {
      var pinned := PinnedGroups(files[f].itemGroups, dependencyName, newVersion);
      if pinned != files[f].itemGroups {
        files := files[f := files[f].(itemGroups := pinned)];
      } else {
        assert files[f].(itemGroups := pinned) == files[f];
      }
    }

    /**
     * `UpdateTransitiveDependencyAsnyc`: pins the package in the first build file with transitive
     * pinning enabled; without one, `dotnet add package` is run instead (`addedWithCli`), which
     * leaves the loaded files alone.
     */
    method UpdateTransitiveDependency(dependencyName: string, newVersion: string) returns (addedWithCli: bool)
      modifies this`files
      ensures files == TransitiveUpdate(old(files), dependencyName, newVersion)
      ensures addedWithCli <==> FirstPinningFile(old(files)).None?
    {
      var f := FirstPinningFile(files);
      if f.Some? {
        PinTransitiveDependency(f.value, dependencyName, newVersion);
        addedWithCli := false;
      } else {
        addedWithCli := true;
      }
    }

    /** `SaveBuildFilesAsync`. */
    method SaveBuildFiles()
      modifies this
      ensures disk == files && files == old(files)
    {
      disk := files;
    }

    /**
     * `UpdateTopLevelDepdendency`: the root package is updated from its previous version; unless
     * it was not found, every peer is then updated, and after that every dependency that conflict
     * resolution reports for a build file and target framework whose answer keeps the root at the
     * new version. `resolve` stands for `ResolveDependencyConflicts` on the files after the peers.
     */
    method UpdateTopLevelDependency<V>(tfms: seq<string>, dependencyName: string, previous: string, newVersion: string,
                                       peers: PeerTable, resolve: (string, string) -> Option<seq<Dependency>>,
                                       vs: Versioning<V>)
      requires vs.parse(newVersion).Some? && LiteralsStayLiteral(vs)
      requires PeerVersionsParse(peers, vs) && ResolvedVersionsParse(resolve, vs)
      modifies this`files
      ensures files == TopLevelUpdate(old(files), tfms, dependencyName, previous, newVersion, peers, resolve, vs)
    {
      var result := TryUpdateDependencyVersion(dependencyName, Some(previous), newVersion, vs);
      if result == NotFound {
        return;
      }
      UpdatePeers(peers, dependencyName, vs);
      UpdateResolutions(Paths(files), tfms, resolve, dependencyName, newVersion, vs);
    }

    /**
     * `UpdateDependencyAsync` on an SDK-style project. MSBuild's dependency graphs are inputs:
     * `graphFor(tfm)` for the project's own top-level packages, `peerGraphFor(tfm)` for the new
     * package alone, `resolve` for conflict resolution and `coherent` for the final coherence check
     * on the edited files. The files are saved only when the update was required, peers could be
     * computed (for a top-level update) and the result is coherent.
     */
    method UpdateDependency<V>(tfms: seq<string>, dependencyName: string, previous: string, newVersion: string,
                               isTransitive: bool, graphFor: string -> seq<Dependency>,
                               peerGraphFor: string -> seq<Dependency>,
                               resolve: (string, string) -> Option<seq<Dependency>>,
                               coherent: seq<BuildFile> -> bool, vs: Versioning<V>)
      returns (outcome: UpdateOutcome, addedWithCli: bool)
      requires LiteralsStayLiteral(vs)
      requires ResolvedVersionsParse(resolve, vs) && PeerGraphVersionsParse(tfms, peerGraphFor, vs)
      modifies this
      ensures outcome.Threw? <==> RequireUpdate(Graphs(tfms, graphFor), dependencyName, newVersion, vs).Raise?
      ensures outcome.Threw? ==> outcome.exception == RequireUpdate(Graphs(tfms, graphFor), dependencyName, newVersion, vs).error
      ensures outcome == NotRequired <==> RequireUpdate(Graphs(tfms, graphFor), dependencyName, newVersion, vs) == Ok(false)
      ensures !outcome.Threw? ==> vs.parse(newVersion).Some?
      ensures vs.parse(newVersion).Some? && FoundVersionsParse(Graphs(tfms, graphFor), dependencyName, vs) ==>
        (outcome == NotRequired <==> !NeedsUpdate(Graphs(tfms, graphFor), dependencyName, newVersion, vs))
      ensures outcome == PeersUnavailable <==>
        RequireUpdate(Graphs(tfms, graphFor), dependencyName, newVersion, vs) == Ok(true) && !isTransitive && PeersFail(tfms, peerGraphFor)
      ensures vs.parse(newVersion).Some? && FoundVersionsParse(Graphs(tfms, graphFor), dependencyName, vs) ==>
        (outcome == PeersUnavailable <==>
         NeedsUpdate(Graphs(tfms, graphFor), dependencyName, newVersion, vs) && !isTransitive && PeersFail(tfms, peerGraphFor))
      ensures outcome.Threw? || outcome in {NotRequired, PeersUnavailable} ==> files == old(files)
      ensures outcome in {Incoherent, Saved} ==>
        vs.parse(newVersion).Some? && files == UpdatedFiles(old(files), tfms, dependencyName, previous, newVersion, isTransitive, peerGraphFor, resolve, vs)
      ensures outcome in {Incoherent, Saved} ==> (outcome == Saved <==> coherent(files))
      ensures outcome == Saved ==> disk == files
      ensures outcome != Saved ==> disk == old(disk)
      ensures addedWithCli <==> outcome in {Incoherent, Saved} && isTransitive && FirstPinningFile(old(files)).None?
    {
      addedWithCli := false;
      var required := DoesDependencyRequireUpdate(Graphs(tfms, graphFor), dependencyName, newVersion, vs);
      if required.Raise? {
        return Threw(required.error), false;
      }
      if !required.value {
        return NotRequired, false;
      }
      if isTransitive {
        addedWithCli := UpdateTransitiveDependency(dependencyName, newVersion);
      } else {
        var peers := GetUpdatedPeerDependencies(tfms, peerGraphFor);
        if peers.None? {
          return PeersUnavailable, false;
        }
        PeerTableParses(tfms, peerGraphFor, vs);
        UpdateTopLevelDependency(tfms, dependencyName, previous, newVersion, peers.value, resolve, vs);
      }
      if !coherent(files) {
        return Incoherent, addedWithCli;
      }
      SaveBuildFiles();
      outcome := Saved;
    }
  }

  // ---------------------------------------------------------------------
  // Whether an update is required
  // ---------------------------------------------------------------------

  /** How a call of `UpdateDependency` ends. */
  datatype UpdateOutcome = NotRequired | PeersUnavailable | Incoherent | Saved | Threw(exception: ParseException)

  /** The dependency graph of each target framework, in the order of `tfms`. */
  function Graphs(tfms: seq<string>, graphFor: string -> seq<Dependency>): (r: seq<seq<Dependency>>)
    ensures |r| == |tfms| && forall i :: 0 <= i < |tfms| ==> r[i] == graphFor(tfms[i])
  {
    seq(|tfms|, i requires 0 <= i < |tfms| => graphFor(tfms[i]))
  }

  /** Some graph holds the package at a version below the new one. */
  predicate NeedsUpdate<V>(graphs: seq<seq<Dependency>>, dependencyName: string, newVersion: string, vs: Versioning<V>)
    requires vs.parse(newVersion).Some?
  {
    exists t, j :: 0 <= t < |graphs| && 0 <= j < |graphs[t]| && IsBelow(graphs[t][j], dependencyName, newVersion, vs)
  }

  /** `GetUpdatedPeerDependenciesAsync` returns `null`: some framework has no graph, or two graphs disagree. */
  predicate PeersFail(tfms: seq<string>, peerGraphFor: string -> seq<Dependency>)
  {
    (exists t :: t in tfms && peerGraphFor(t) == []) || Conflicting(Flatten(Uniq(tfms), peerGraphFor))
  }

  /** Every package of every peer graph has a version that parses. */
  predicate PeerGraphVersionsParse<V>(tfms: seq<string>, peerGraphFor: string -> seq<Dependency>, vs: Versioning<V>)
  {
    forall t, d :: t in tfms && d in peerGraphFor(t) ==> d.version.Some? && vs.parse(d.version.value).Some?
  }

  /** The peer table inherits the versions of the graphs, so they all parse. */
  lemma PeerTableParses<V>(tfms: seq<string>, peerGraphFor: string -> seq<Dependency>, vs: Versioning<V>)
    requires PeerGraphVersionsParse(tfms, peerGraphFor, vs)
    ensures PeerVersionsParse(TableOf(Flatten(Uniq(tfms), peerGraphFor)), vs)
  {
    var table := TableOf(Flatten(Uniq(tfms), peerGraphFor));
    forall k | 0 <= k < |table| ensures table[k].1.Some? && vs.parse(table[k].1.value).Some? {
      PeerEntriesFromGraphs(tfms, peerGraphFor, k);
    }
  }

  /** The build files after the update step of `UpdateDependencyAsync`, before the coherence check. */
  ghost function UpdatedFiles<V>(files: seq<BuildFile>, tfms: seq<string>, dependencyName: string, previous: string,
                                 newVersion: string, isTransitive: bool, peerGraphFor: string -> seq<Dependency>,
                                 resolve: (string, string) -> Option<seq<Dependency>>, vs: Versioning<V>): seq<BuildFile>
    requires vs.parse(newVersion).Some? && LiteralsStayLiteral(vs)
    requires ResolvedVersionsParse(resolve, vs) && PeerGraphVersionsParse(tfms, peerGraphFor, vs)
  {
    if isTransitive then TransitiveUpdate(files, dependencyName, newVersion)
    else
      PeerTableParses(tfms, peerGraphFor, vs);
      TopLevelUpdate(files, tfms, dependencyName, previous, newVersion, TableOf(Flatten(Uniq(tfms), peerGraphFor)), resolve, vs)
  }

  /** A package of a dependency graph, as MSBuild reports it. */
  datatype Dependency = Dependency(name: string, version: Option<string>)

  /** The dependency is the package, with a version. */
  predicate IsFoundAs(d: Dependency, dependencyName: string)
  {
    d.version.Some? && EqualsIgnoreCase(d.name, dependencyName)
  }

  /** `NuGetVersion.Parse` succeeds on every version the check may parse. */
  predicate FoundVersionsParse<V>(graphs: seq<seq<Dependency>>, dependencyName: string, vs: Versioning<V>)
  {
    forall t, j :: 0 <= t < |graphs| && 0 <= j < |graphs[t]| && IsFoundAs(graphs[t][j], dependencyName) ==>
      vs.parse(graphs[t][j].version.value).Some?
  }

  /** The package is found at a version below the new one. */
  predicate IsBelow<V>(d: Dependency, dependencyName: string, newVersion: string, vs: Versioning<V>)
    requires vs.parse(newVersion).Some?
  {
    && IsFoundAs(d, dependencyName)
    && vs.parse(d.version.value).Some?
    && vs.less(vs.parse(d.version.value).value, vs.parse(newVersion).value)
  }

  /** The exception `NuGetVersion.Parse` throws on a text that is no NuGet version. */
  datatype ParseException = ArgumentException(text: string)

  /** The scan position `(t, j)` lies within the graphs. */
  predicate InScan(graphs: seq<seq<Dependency>>, t: nat, j: nat)
  {
    t <= |graphs| && (t < |graphs| ==> j <= |graphs[t]|)
  }

  /**
   * The loops of `DoesDependencyRequireUpdateAsync` from graph `t`, entry `j`
   * on: the first entry that is the package either throws (its version does
   * not parse) or answers true (it is below the new version); false when the
   * scan runs out.
   */
  function ScanFrom<V>(graphs: seq<seq<Dependency>>, dependencyName: string, newVersion: string, vs: Versioning<V>,
                       t: nat, j: nat): Result<bool, ParseException>
    requires vs.parse(newVersion).Some? && InScan(graphs, t, j)
    decreases |graphs| - t, if t < |graphs| then |graphs[t]| - j else 0
  {
    if t == |graphs| then Ok(false)
    else if j == |graphs[t]| then ScanFrom(graphs, dependencyName, newVersion, vs, t + 1, 0)
    else
      var d := graphs[t][j];
      if !IsFoundAs(d, dependencyName) then ScanFrom(graphs, dependencyName, newVersion, vs, t, j + 1)
      else if vs.parse(d.version.value).None? then Raise(ArgumentException(d.version.value))
      else if IsBelow(d, dependencyName, newVersion, vs) then Ok(true)
      else ScanFrom(graphs, dependencyName, newVersion, vs, t, j + 1)
  }

  /** `DoesDependencyRequireUpdateAsync`: the new version is parsed first, then the graphs are scanned. */
  function RequireUpdate<V>(graphs: seq<seq<Dependency>>, dependencyName: string, newVersion: string, vs: Versioning<V>)
    : Result<bool, ParseException>
  {
    if vs.parse(newVersion).None? then Raise(ArgumentException(newVersion))
    else ScanFrom(graphs, dependencyName, newVersion, vs, 0, 0)
  }

  /** Some entry at or after `(t, j)` in scan order is the package below the new version. */
  predicate BelowFrom<V>(graphs: seq<seq<Dependency>>, dependencyName: string, newVersion: string, vs: Versioning<V>,
                         t: nat, j: nat)
    requires vs.parse(newVersion).Some? && InScan(graphs, t, j)
  {
    || (t < |graphs| && exists j' :: j <= j' < |graphs[t]| && IsBelow(graphs[t][j'], dependencyName, newVersion, vs))
    || (exists t', j' :: t < t' < |graphs| && 0 <= j' < |graphs[t']| && IsBelow(graphs[t'][j'], dependencyName, newVersion, vs))
  }

  /** Every entry at or after `(t, j)` that is the package has a version that parses. */
  predicate ParsesFrom<V>(graphs: seq<seq<Dependency>>, dependencyName: string, vs: Versioning<V>, t: nat, j: nat)
    requires InScan(graphs, t, j)
  {
    && (t < |graphs| ==> forall j' :: j <= j' < |graphs[t]| && IsFoundAs(graphs[t][j'], dependencyName) ==>
          vs.parse(graphs[t][j'].version.value).Some?)
    && (forall t', j' :: t < t' < |graphs| && 0 <= j' < |graphs[t']| && IsFoundAs(graphs[t'][j'], dependencyName) ==>
          vs.parse(graphs[t'][j'].version.value).Some?)
  }

  /**
   * An answer of the scan is the right one: it is true exactly when some
   * remaining entry is the package below the new version. A false answer
   * is only reached after every remaining entry was looked at.
   */
  lemma {:induction false} ScanAnswers<V>(graphs: seq<seq<Dependency>>, dependencyName: string, newVersion: string,
                                          vs: Versioning<V>, t: nat, j: nat)
    requires vs.parse(newVersion).Some? && InScan(graphs, t, j)
    ensures ScanFrom(graphs, dependencyName, newVersion, vs, t, j).Ok? ==>
      ScanFrom(graphs, dependencyName, newVersion, vs, t, j).value == BelowFrom(graphs, dependencyName, newVersion, vs, t, j)
    decreases |graphs| - t, if t < |graphs| then |graphs[t]| - j else 0
  {
    if t == |graphs| {
    } else if j == |graphs[t]| {
      ScanAnswers(graphs, dependencyName, newVersion, vs, t + 1, 0);
      if BelowFrom(graphs, dependencyName, newVersion, vs, t + 1, 0) {
        var g := if t + 1 < |graphs| then graphs[t + 1] else [];
        if t + 1 < |graphs| && exists j' :: 0 <= j' < |g| && IsBelow(g[j'], dependencyName, newVersion, vs) {
          var j' :| 0 <= j' < |g| && IsBelow(g[j'], dependencyName, newVersion, vs);
          assert t < t + 1 < |graphs| && IsBelow(graphs[t + 1][j'], dependencyName, newVersion, vs);
        } else {
          var t', j' :| t + 1 < t' < |graphs| && 0 <= j' < |graphs[t']| && IsBelow(graphs[t'][j'], dependencyName, newVersion, vs);
          assert t < t' < |graphs|;
        }
      }
      if BelowFrom(graphs, dependencyName, newVersion, vs, t, j) {
        var t', j' :| t < t' < |graphs| && 0 <= j' < |graphs[t']| && IsBelow(graphs[t'][j'], dependencyName, newVersion, vs);
        if t' == t + 1 {
          assert 0 <= j' < |graphs[t + 1]|;
        }
      }
    } else {
      var d := graphs[t][j];
      if IsFoundAs(d, dependencyName) && vs.parse(d.version.value).None? {
      } else if IsFoundAs(d, dependencyName) && IsBelow(d, dependencyName, newVersion, vs) {
        assert j <= j < |graphs[t]|;
      } else {
        ScanAnswers(graphs, dependencyName, newVersion, vs, t, j + 1);
        assert !IsBelow(d, dependencyName, newVersion, vs);
        if BelowFrom(graphs, dependencyName, newVersion, vs, t, j) {
          if exists j' :: j <= j' < |graphs[t]| && IsBelow(graphs[t][j'], dependencyName, newVersion, vs) {
            var j' :| j <= j' < |graphs[t]| && IsBelow(graphs[t][j'], dependencyName, newVersion, vs);
            assert j' != j;
          }
        }
      }
    }
  }

  /** The scan throws only on an entry that is the package with a version that does not parse. */
  lemma {:induction false} ScanThrowsOnlyOnBadVersion<V>(graphs: seq<seq<Dependency>>, dependencyName: string,
                                                       newVersion: string, vs: Versioning<V>, t: nat, j: nat)
    requires vs.parse(newVersion).Some? && InScan(graphs, t, j)
    requires ParsesFrom(graphs, dependencyName, vs, t, j)
    ensures ScanFrom(graphs, dependencyName, newVersion, vs, t, j).Ok?
    decreases |graphs| - t, if t < |graphs| then |graphs[t]| - j else 0
  {
    if t == |graphs| {
    } else if j == |graphs[t]| {
      ScanThrowsOnlyOnBadVersion(graphs, dependencyName, newVersion, vs, t + 1, 0);
    } else {
      ScanThrowsOnlyOnBadVersion(graphs, dependencyName, newVersion, vs, t, j + 1);
    }
  }

  /**
   * What `DoesDependencyRequireUpdateAsync` returns or throws: an unparseable
   * new version throws; otherwise an answer is true exactly when some graph
   * holds the package below the new version, and when every version of the
   * package parses there is always an answer.
   */
  lemma RequireUpdateMeaning<V>(graphs: seq<seq<Dependency>>, dependencyName: string, newVersion: string, vs: Versioning<V>)
    ensures vs.parse(newVersion).None? ==> RequireUpdate(graphs, dependencyName, newVersion, vs) == Raise(ArgumentException(newVersion))
    ensures vs.parse(newVersion).Some? && RequireUpdate(graphs, dependencyName, newVersion, vs).Ok? ==>
      RequireUpdate(graphs, dependencyName, newVersion, vs).value == NeedsUpdate(graphs, dependencyName, newVersion, vs)
    ensures vs.parse(newVersion).Some? && FoundVersionsParse(graphs, dependencyName, vs) ==>
      RequireUpdate(graphs, dependencyName, newVersion, vs) == Ok(NeedsUpdate(graphs, dependencyName, newVersion, vs))
    ensures RequireUpdate(graphs, dependencyName, newVersion, vs).Raise? ==>
      vs.parse(newVersion).None? || !FoundVersionsParse(graphs, dependencyName, vs)
  {
    if vs.parse(newVersion).Some? {
      ScanAnswers(graphs, dependencyName, newVersion, vs, 0, 0);
      if BelowFrom(graphs, dependencyName, newVersion, vs, 0, 0) {
        if 0 < |graphs| && exists j' :: 0 <= j' < |graphs[0]| && IsBelow(graphs[0][j'], dependencyName, newVersion, vs) {
          var j' :| 0 <= j' < |graphs[0]| && IsBelow(graphs[0][j'], dependencyName, newVersion, vs);
          assert IsBelow(graphs[0][j'], dependencyName, newVersion, vs);
        }
      }
      if NeedsUpdate(graphs, dependencyName, newVersion, vs) {
        var t', j' :| 0 <= t' < |graphs| && 0 <= j' < |graphs[t']| && IsBelow(graphs[t'][j'], dependencyName, newVersion, vs);
        if t' == 0 {
          assert 0 <= j' < |graphs[0]|;
        }
      }
      if FoundVersionsParse(graphs, dependencyName, vs) {
        ScanThrowsOnlyOnBadVersion(graphs, dependencyName, newVersion, vs, 0, 0);
      }
    }
  }

  /**
   * `DoesDependencyRequireUpdateAsync` over the graphs MSBuild computes for
   * each target framework: `NuGetVersion.Parse` throws on the new version,
   * then on the first version of the package met that is no NuGet version;
   * otherwise true exactly when some graph holds the package at a version
   * below the new one, in particular false when no graph holds it.
   */
  method DoesDependencyRequireUpdate<V>(graphs: seq<seq<Dependency>>, dependencyName: string, newVersion: string, vs: Versioning<V>)
    returns (r: Result<bool, ParseException>)
    ensures r == RequireUpdate(graphs, dependencyName, newVersion, vs)
    ensures vs.parse(newVersion).None? ==> r == Raise(ArgumentException(newVersion))
    ensures vs.parse(newVersion).Some? && r.Ok? ==> (r.value <==> NeedsUpdate(graphs, dependencyName, newVersion, vs))
    ensures vs.parse(newVersion).Some? && FoundVersionsParse(graphs, dependencyName, vs) ==>
      r == Ok(NeedsUpdate(graphs, dependencyName, newVersion, vs))
    ensures (vs.parse(newVersion).Some? &&
             forall t, j :: 0 <= t < |graphs| && 0 <= j < |graphs[t]| ==> !IsFoundAs(graphs[t][j], dependencyName))
      ==> r == Ok(false)
  {
    RequireUpdateMeaning(graphs, dependencyName, newVersion, vs);
    if vs.parse(newVersion).None? {
      return Raise(ArgumentException(newVersion));
    }
    var newNuGetVersion := vs.parse(newVersion).value;
    var packageFound := false;
    var needsUpdate := false;
    var t := 0;
    while t < |graphs|
      invariant t <= |graphs| && !needsUpdate
      invariant RequireUpdate(graphs, dependencyName, newVersion, vs) == ScanFrom(graphs, dependencyName, newVersion, vs, t, 0)
      invariant !packageFound ==> forall t', j :: 0 <= t' < t && 0 <= j < |graphs[t']| ==> !IsFoundAs(graphs[t'][j], dependencyName)
    {
      var dependencies := graphs[t];
      var j := 0;
      while j < |dependencies|
        invariant j <= |dependencies| && !needsUpdate
        invariant RequireUpdate(graphs, dependencyName, newVersion, vs) == ScanFrom(graphs, dependencyName, newVersion, vs, t, j)
        invariant !packageFound ==> forall t', j' :: 0 <= t' < t && 0 <= j' < |graphs[t']| ==> !IsFoundAs(graphs[t'][j'], dependencyName)
        invariant !packageFound ==> forall j' :: 0 <= j' < j ==> !IsFoundAs(dependencies[j'], dependencyName)
      {
        var d := dependencies[j];
        if d.version.None? {
          j := j + 1;
          continue;
        }
        if EqualsIgnoreCase(d.name, dependencyName) {
          packageFound := true;
          var parsed := vs.parse(d.version.value);
          if parsed.None? {
            assert d == graphs[t][j] && IsFoundAs(d, dependencyName);
            return Raise(ArgumentException(d.version.value));
          }
          if vs.less(parsed.value, newNuGetVersion) {
            needsUpdate := true;
            break;
          }
        }
        j := j + 1;
      }
      if packageFound && needsUpdate {
        break;
      }
      t := t + 1;
    }
    if !packageFound {
      return Ok(false);
    }
    if !needsUpdate {
      return Ok(false);
    }
    return Ok(true);
  }

  // ---------------------------------------------------------------------
  // Peer dependencies
  // ---------------------------------------------------------------------

  /** `packagesAndVersions`: a dictionary with case-insensitive keys, in insertion order. */
  type PeerTable = seq<(string, Option<string>)>

  /** The entry whose key equals `name` ignoring case. */
  function FindEntry(table: PeerTable, name: string): (r: Option<nat>)
    ensures r.Some? ==> r.value < |table| && EqualsIgnoreCase(table[r.value].0, name)
    ensures r.None? ==> forall k :: 0 <= k < |table| ==> !EqualsIgnoreCase(table[k].0, name)
  {
    if table == [] then None
    else if EqualsIgnoreCase(table[0].0, name) then Some(0)
    else match FindEntry(table[1..], name)
      case None => None
      case Some(k) => Some(k + 1)
  }

  /** `packagesAndVersions[packageName] = packageVersion` when no different version is stored: adds a missing key, keeps a present one. */
  function Record(table: PeerTable, d: Dependency): PeerTable
  {
    if FindEntry(table, d.name).None? then table + [(d.name, d.version)] else table
  }

  /** The table after recording `seen` in order. */
  function TableOf(seen: seq<Dependency>): (r: PeerTable)
    ensures |r| <= |seen|
    ensures seen != [] ==> r != [] && r[0] == (seen[0].name, seen[0].version)
  {
    if seen == [] then [] else Record(TableOf(seen[..|seen| - 1]), seen[|seen| - 1])
  }

  /** Two dependencies name the same package (ignoring case) at different versions. */
  predicate Conflicting(deps: seq<Dependency>): (r: bool)
    ensures r ==> |deps| >= 2
  {
    exists i, j :: 0 <= i < |deps| && 0 <= j < |deps| &&
      EqualsIgnoreCase(deps[i].name, deps[j].name) && deps[i].version != deps[j].version
  }

  /** The table has one key per package (ignoring case). */
  lemma {:induction false} TableKeysDistinct(seen: seq<Dependency>)
    ensures forall a, b :: 0 <= a < b < |TableOf(seen)| ==> !EqualsIgnoreCase(TableOf(seen)[a].0, TableOf(seen)[b].0)
  {
    if seen != [] {
      var n := |seen| - 1;
      TableKeysDistinct(seen[..n]);
    }
  }

  /** Every dependency seen has an entry. */
  lemma {:induction false} TableCoversSeen(seen: seq<Dependency>)
    ensures forall i :: 0 <= i < |seen| ==> FindEntry(TableOf(seen), seen[i].name).Some?
  {
    if seen != [] {
      var n := |seen| - 1;
      var prior := seen[..n];
      TableCoversSeen(prior);
      var t := TableOf(prior);
      var r := TableOf(seen);
      assert r == Record(t, seen[n]);
      assert |t| <= |r| && r[..|t|] == t;
      forall i | 0 <= i < |seen|
        ensures FindEntry(r, seen[i].name).Some?
      {
        if i < n {
          assert seen[i] == prior[i];
          var k := FindEntry(t, prior[i].name).value;
          assert r[k] == t[k];
        } else if FindEntry(t, seen[n].name).None? {
          assert r[|t|].0 == seen[i].name;
        }
      }
    }
  }

  /** Every entry is the name and version of a dependency seen. */
  lemma {:induction false} TableFromSeen(seen: seq<Dependency>)
    ensures forall k :: 0 <= k < |TableOf(seen)| ==>
      exists i :: 0 <= i < |seen| && TableOf(seen)[k] == (seen[i].name, seen[i].version)
  {
    if seen != [] {
      var n := |seen| - 1;
      var prior := seen[..n];
      TableFromSeen(prior);
      var t := TableOf(prior);
      var r := TableOf(seen);
      assert r == Record(t, seen[n]);
      forall k | 0 <= k < |r|
        ensures exists i :: 0 <= i < |seen| && r[k] == (seen[i].name, seen[i].version)
      {
        if k < |t| {
          var i :| 0 <= i < |prior| && t[k] == (prior[i].name, prior[i].version);
          assert seen[i] == prior[i];
          assert r[k] == t[k];
        } else {
          assert r[k] == (seen[n].name, seen[n].version);
        }
      }
    } else {
      assert TableOf(seen) == [];
    }
  }

  /** Looking a name up ignores its case. */
  lemma {:induction false} FindEntryIgnoresCase(table: PeerTable, a: string, b: string)
    requires EqualsIgnoreCase(a, b)
    ensures FindEntry(table, a) == FindEntry(table, b)
  {
    if table != [] {
      FindEntryIgnoresCase(table[1..], a, b);
    }
  }

  /** A conflict among the dependencies seen stays a conflict. */
  lemma ConflictPersists(seen: seq<Dependency>, d: Dependency)
    requires Conflicting(seen)
    ensures Conflicting(seen + [d])
  {
    var all := seen + [d];
    var i, j :| 0 <= i < |seen| && 0 <= j < |seen| &&
      EqualsIgnoreCase(seen[i].name, seen[j].name) && seen[i].version != seen[j].version;
    assert all[i] == seen[i] && all[j] == seen[j];
  }

  /** A new dependency whose package is stored at another version conflicts. */
  lemma StoredVersionConflicts(seen: seq<Dependency>, d: Dependency)
    requires FindEntry(TableOf(seen), d.name).Some?
    requires TableOf(seen)[FindEntry(TableOf(seen), d.name).value].1 != d.version
    ensures Conflicting(seen + [d])
  {
    var all := seen + [d];
    var t := TableOf(seen);
    var e := FindEntry(t, d.name);
    TableFromSeen(seen);
    var i :| 0 <= i < |seen| && t[e.value] == (seen[i].name, seen[i].version);
    assert all[i] == seen[i] && all[|seen|] == d;
    assert EqualsIgnoreCase(all[i].name, all[|seen|].name);
  }

  /** A conflict among the dependencies seen and one more is among those seen or pairs the new one with an earlier one. */
  lemma NewConflictPartner(seen: seq<Dependency>, d: Dependency) returns (a: nat)
    requires Conflicting(seen + [d])
    ensures Conflicting(seen) || (a < |seen| && EqualsIgnoreCase(seen[a].name, d.name) && seen[a].version != d.version)
  {
    var all := seen + [d];
    var i, j :| 0 <= i < |all| && 0 <= j < |all| &&
      EqualsIgnoreCase(all[i].name, all[j].name) && all[i].version != all[j].version;
    a := 0;
    if i < |seen| && j < |seen| {
      assert all[i] == seen[i] && all[j] == seen[j];
    } else if i < |seen| {
      a := i;
      assert all[i] == seen[i] && all[j] == d;
    } else if j < |seen| {
      a := j;
      assert all[j] == seen[j] && all[i] == d;
    }
  }

  /** A conflict that the new dependency introduces is with the version stored for its package. */
  lemma NewConflictIsStored(seen: seq<Dependency>, d: Dependency)
    requires Conflicting(seen + [d])
    ensures || Conflicting(seen)
            || (FindEntry(TableOf(seen), d.name).Some? && TableOf(seen)[FindEntry(TableOf(seen), d.name).value].1 != d.version)
  {
    var a := NewConflictPartner(seen, d);
    if !Conflicting(seen) {
      var t := TableOf(seen);
      TableCoversSeen(seen);
      TableFromSeen(seen);
      FindEntryIgnoresCase(t, seen[a].name, d.name);
      var k := FindEntry(t, seen[a].name).value;
      var c :| 0 <= c < |seen| && t[k] == (seen[c].name, seen[c].version);
      assert EqualsIgnoreCase(seen[a].name, seen[c].name);
    }
  }

  /** Recording one more dependency conflicts exactly when its package is stored at another version. */
  lemma ConflictingSnoc(seen: seq<Dependency>, d: Dependency)
    ensures Conflicting(seen + [d]) <==>
      || Conflicting(seen)
      || (FindEntry(TableOf(seen), d.name).Some? && TableOf(seen)[FindEntry(TableOf(seen), d.name).value].1 != d.version)
  {
    if Conflicting(seen) {
      ConflictPersists(seen, d);
    } else if Conflicting(seen + [d]) {
      NewConflictIsStored(seen, d);
    } else if FindEntry(TableOf(seen), d.name).Some? && TableOf(seen)[FindEntry(TableOf(seen), d.name).value].1 != d.version {
      StoredVersionConflicts(seen, d);
    }
  }
  /** With no conflict among them, each dependency seen finds its own version under its package's entry. */
  lemma TableHoldsVersions(seen: seq<Dependency>)
    requires !Conflicting(seen)
    ensures forall i :: 0 <= i < |seen| ==>
      FindEntry(TableOf(seen), seen[i].name).Some? &&
      TableOf(seen)[FindEntry(TableOf(seen), seen[i].name).value].1 == seen[i].version
  {
    var t := TableOf(seen);
    TableCoversSeen(seen);
    TableFromSeen(seen);
    forall i | 0 <= i < |seen|
      ensures t[FindEntry(t, seen[i].name).value].1 == seen[i].version
    {
      var k := FindEntry(t, seen[i].name).value;
      var c :| 0 <= c < |seen| && t[k] == (seen[c].name, seen[c].version);
      assert EqualsIgnoreCase(seen[c].name, seen[i].name);
    }
  }

  /** The dependencies of each target framework in turn (`tfmsAndDependencies` flattened). */
  function Flatten(order: seq<string>, graphFor: string -> seq<Dependency>): (r: seq<Dependency>)
    ensures forall d :: d in r <==> exists t :: t in order && d in graphFor(t)
  {
    if order == [] then []
    else
      var prior := order[..|order| - 1];
      var r := Flatten(prior, graphFor) + graphFor(order[|order| - 1]);
      assert forall t :: t in order <==> t in prior || t == order[|order| - 1];
      r
  }

  /** One dependency merged into the table: a different stored version raises the flag, anything else is recorded. */
  lemma MergeStep(seen: seq<Dependency>, table: PeerTable, conflict: bool, d: Dependency)
    requires table == TableOf(seen) && (conflict <==> Conflicting(seen))
    ensures var e := FindEntry(table, d.name);
      var clash := e.Some? && table[e.value].1 != d.version;
      && (if clash then table else Record(table, d)) == TableOf(seen + [d])
      && (conflict || clash <==> Conflicting(seen + [d]))
  {
    ConflictingSnoc(seen, d);
    assert (seen + [d])[..|seen|] == seen;
  }

  /** The first loop of `GetUpdatedPeerDependenciesAsync`: the graph of each distinct target framework, in first-seen order. */
  method CollectGraphs(tfms: seq<string>, graphFor: string -> seq<Dependency>)
    returns (order: seq<string>, byTfm: map<string, seq<Dependency>>)
    ensures order == Uniq(tfms)
    ensures forall t :: t in byTfm <==> t in tfms
    ensures forall t :: t in byTfm ==> byTfm[t] == graphFor(t)
  {
    order, byTfm := [], map[];
    var k := 0;
    while k < |tfms|
      invariant k <= |tfms| && order == Uniq(tfms[..k])
      invariant forall t :: t in byTfm <==> t in order
      invariant forall t :: t in byTfm ==> byTfm[t] == graphFor(t)
    {
      UniqSnoc(tfms, k);
      if tfms[k] !in byTfm {
        order := order + [tfms[k]];
      }
      byTfm := byTfm[tfms[k] := graphFor(tfms[k])];
      k := k + 1;
    }
    assert tfms[..k] == tfms;
  }

  /** One iteration of the merging loop on the pair (table, conflict flag). */
  function MergeOne(acc: (PeerTable, bool), d: Dependency): (PeerTable, bool)
  {
    var e := FindEntry(acc.0, d.name);
    if e.Some? && acc.0[e.value].1 != d.version then (acc.0, true) else (Record(acc.0, d), acc.1)
  }

  /** The merging loop over `deps`, one dependency after another. */
  function MergeAll(acc: (PeerTable, bool), deps: seq<Dependency>): (PeerTable, bool)
  {
    if deps == [] then acc else MergeOne(MergeAll(acc, deps[..|deps| - 1]), deps[|deps| - 1])
  }

  /** Merging dependencies one by one builds the table of all seen and flags exactly a conflict among them. */
  lemma {:induction false} MergeAllTable(seen: seq<Dependency>, deps: seq<Dependency>)
    ensures MergeAll((TableOf(seen), Conflicting(seen)), deps) == (TableOf(seen + deps), Conflicting(seen + deps))
  {
    if deps == [] {
      assert seen + deps == seen;
    } else {
      var n := |deps| - 1;
      var front := seen + deps[..n];
      var acc := (TableOf(seen), Conflicting(seen));
      MergeAllTable(seen, deps[..n]);
      MergeOneStep(front, deps[n]);
      AppendLast(seen, deps);
      MergeAllSnoc(acc, deps);
    }
  }

  /** Appending a non-empty sequence is appending its front, then its last element. */
  lemma AppendLast<T>(xs: seq<T>, ys: seq<T>)
    requires ys != []
    ensures xs + ys == (xs + ys[..|ys| - 1]) + [ys[|ys| - 1]]
  {
    assert ys == ys[..|ys| - 1] + [ys[|ys| - 1]];
  }

  /** The merging loop over a non-empty sequence: the loop over its front, then its last dependency. */
  lemma MergeAllSnoc(acc: (PeerTable, bool), deps: seq<Dependency>)
    requires deps != []
    ensures MergeAll(acc, deps) == MergeOne(MergeAll(acc, deps[..|deps| - 1]), deps[|deps| - 1])
  {
  }

  /** One merging step on the table and flag of `seen` gives those of `seen` and one more. */
  lemma MergeOneStep(seen: seq<Dependency>, d: Dependency)
    ensures MergeOne((TableOf(seen), Conflicting(seen)), d) == (TableOf(seen + [d]), Conflicting(seen + [d]))
  {
    MergeStep(seen, TableOf(seen), Conflicting(seen), d);
  }

  /** The inner merging loop of `GetUpdatedPeerDependenciesAsync`: the dependencies of one target framework. */
  method MergeDependencies(table0: PeerTable, conflict0: bool, deps: seq<Dependency>)
    returns (table: PeerTable, conflict: bool)
    ensures (table, conflict) == MergeAll((table0, conflict0), deps)
  {
    table, conflict := table0, conflict0;
    var j := 0;
    while j < |deps|
      invariant j <= |deps| && (table, conflict) == MergeAll((table0, conflict0), deps[..j])
    {
      var d := deps[j];
      var e := FindEntry(table, d.name);
      if e.Some? && table[e.value].1 != d.version {
        conflict := true;
      } else {
        table := Record(table, d);
      }
      assert deps[..j + 1][..j] == deps[..j];
      j := j + 1;
    }
    assert deps[..j] == deps;
  }

  /** The merging loop of `GetUpdatedPeerDependenciesAsync` over the graphs in `order`. */
  method MergeGraphs(order: seq<string>, byTfm: map<string, seq<Dependency>>, ghost graphFor: string -> seq<Dependency>)
    returns (table: PeerTable, conflict: bool)
    requires forall t :: t in order ==> t in byTfm && byTfm[t] == graphFor(t)
    ensures table == TableOf(Flatten(order, graphFor))
    ensures conflict <==> Conflicting(Flatten(order, graphFor))
  {
    table, conflict := [], false;
    var i := 0;
    while i < |order|
      invariant i <= |order|
      invariant table == TableOf(Flatten(order[..i], graphFor)) && (conflict <==> Conflicting(Flatten(order[..i], graphFor)))
    {
      assert order[..i + 1][..i] == order[..i];
      MergeAllTable(Flatten(order[..i], graphFor), byTfm[order[i]]);
      table, conflict := MergeDependencies(table, conflict, byTfm[order[i]]);
      i := i + 1;
    }
    assert order[..i] == order;
  }

  /**
   * `GetUpdatedPeerDependenciesAsync`: the dependency graph of every target framework with the
   * new version requested (`graphFor`, computed by MSBuild) merged into one table of package
   * versions; `None` when a framework yields no dependencies or when one package (ignoring case)
   * appears at two versions.
   */
  method GetUpdatedPeerDependencies(tfms: seq<string>, graphFor: string -> seq<Dependency>)
    returns (peers: Option<PeerTable>)
    ensures peers.None? <==> PeersFail(tfms, graphFor)
    ensures peers.Some? ==> peers.value == TableOf(Flatten(Uniq(tfms), graphFor))
  {
    var order, byTfm := CollectGraphs(tfms, graphFor);
    var m := 0;
    while m < |order|
      invariant m <= |order|
      invariant forall x :: 0 <= x < m ==> graphFor(order[x]) != []
    {
      if byTfm[order[m]] == [] {
        return None;
      }
      m := m + 1;
    }
    assert forall t :: t in tfms ==> graphFor(t) != [] by {
      forall t | t in tfms ensures graphFor(t) != [] {
        var x :| 0 <= x < |order| && order[x] == t;
      }
    }
    var table, conflict := MergeGraphs(order, byTfm, graphFor);
    if conflict {
      return None;
    }
    return Some(table);
  }

  /** On success the peer table has one key per package, ignoring case. */
  lemma PeerKeysDistinct(tfms: seq<string>, graphFor: string -> seq<Dependency>)
    ensures var table := TableOf(Flatten(Uniq(tfms), graphFor));
      forall a, b :: 0 <= a < b < |table| ==> !EqualsIgnoreCase(table[a].0, table[b].0)
  {
    TableKeysDistinct(Flatten(Uniq(tfms), graphFor));
  }

  /** On success the peer table records, for every dependency of every target framework, exactly its version. */
  lemma PeerVersionsRecorded(tfms: seq<string>, graphFor: string -> seq<Dependency>, t: string, d: Dependency)
    requires !Conflicting(Flatten(Uniq(tfms), graphFor))
    requires t in tfms && d in graphFor(t)
    ensures var table := TableOf(Flatten(Uniq(tfms), graphFor));
      FindEntry(table, d.name).Some? && table[FindEntry(table, d.name).value].1 == d.version
  {
    var all := Flatten(Uniq(tfms), graphFor);
    TableHoldsVersions(all);
    assert d in all;
    var i :| 0 <= i < |all| && all[i] == d;
  }

  /** Every entry of the peer table is the name and version of a dependency of some target framework. */
  lemma PeerEntriesFromGraphs(tfms: seq<string>, graphFor: string -> seq<Dependency>, k: nat)
    requires k < |TableOf(Flatten(Uniq(tfms), graphFor))|
    ensures exists t, d :: t in tfms && d in graphFor(t) && TableOf(Flatten(Uniq(tfms), graphFor))[k] == (d.name, d.version)
  {
    var all := Flatten(Uniq(tfms), graphFor);
    TableFromSeen(all);
    var i :| 0 <= i < |all| && TableOf(all)[k] == (all[i].name, all[i].version);
    assert all[i] in all;
  }

  // ---------------------------------------------------------------------
  // Central package management and transitive pinning
  // ---------------------------------------------------------------------

  /** `Path.GetFileName`: the part of the path after its last `/`. */
  function FileName(path: string): (r: string)
    ensures |r| <= |path| && r == path[|path| - |r|..]
    ensures '/' !in r
    ensures |r| < |path| ==> path[|path| - |r| - 1] == '/'
  {
    if path == [] then []
    else if path[|path| - 1] == '/' then []
    else FileName(path[..|path| - 1]) + [path[|path| - 1]]
  }

  /** The index of the first property whose name lower-cases to `key`. */
  function PropertyIndex(props: seq<PropertyNode>, key: string): (r: Option<nat>)
    ensures r.Some? ==> r.value < |props| && Lower(props[r.value].name) == key
    ensures r.Some? ==> forall m :: 0 <= m < r.value ==> Lower(props[m].name) != key
    ensures r.None? ==> forall m :: 0 <= m < |props| ==> Lower(props[m].name) != key
  {
    if props == [] then None
    else if Lower(props[0].name) == key then Some(0)
    else match PropertyIndex(props[1..], key)
      case None => None
      case Some(k) => Some(k + 1)
  }

  /** `s` lower-cases to `key`: `s` equals `key` ignoring case when `key` is in lower case. */
  predicate LowersTo(s: string, key: string)
  {
    if s == [] then key == []
    else key != [] && LowerChar(s[0]) == key[0] && LowersTo(s[1..], key[1..])
  }

  lemma {:induction false} LowersToIsLower(s: string, key: string)
    ensures LowersTo(s, key) <==> Lower(s) == key
  {
    if s != [] && key != [] {
      LowersToIsLower(s[1..], key[1..]);
      assert Lower(s) == [LowerChar(s[0])] + Lower(s[1..]);
      assert key == [key[0]] + key[1..];
    }
  }

  /**
   * The first property with the given name (ignoring case; `key` is the lower-cased name) is
   * present and reads `true`, ignoring case.
   */
  predicate PropertyIsTrue(props: seq<PropertyNode>, key: string)
  {
    var k := PropertyIndex(props, key);
    k.Some? && LowersTo(props[k.value].value, "true")
  }

  /**
   * `IsCpmTransitivePinningEnabled`: the file is a `Directory.Packages.props` (ignoring case)
   * whose first `ManagePackageVersionsCentrally` and first `CentralPackageTransitivePinningEnabled`
   * properties both read `true`, ignoring case.
   */
  predicate IsCpmTransitivePinningEnabled(file: BuildFile)
  {
    && LowersTo(FileName(file.path), "directory.packages.props")
    && PropertyIsTrue(file.propertyNodes, "managepackageversionscentrally")
    && PropertyIsTrue(file.propertyNodes, "centralpackagetransitivepinningenabled")
  }

  /** Only the first occurrence of a property counts: properties appended later change nothing. */
  lemma {:induction false} LaterPropertyIgnored(props: seq<PropertyNode>, key: string, extra: seq<PropertyNode>)
    requires PropertyIndex(props, key).Some?
    ensures PropertyIndex(props + extra, key) == PropertyIndex(props, key)
  {
    if Lower(props[0].name) != key {
      assert (props + extra)[1..] == props[1..] + extra;
      LaterPropertyIgnored(props[1..], key, extra);
    }
  }

  /** Pinning is switched on by the first occurrence of each flag: further properties cannot undo it. */
  lemma PinningKeptByLaterProperties(file: BuildFile, extra: seq<PropertyNode>)
    requires IsCpmTransitivePinningEnabled(file)
    ensures IsCpmTransitivePinningEnabled(file.(propertyNodes := file.propertyNodes + extra))
  {
    var props := file.propertyNodes;
    LaterPropertyIgnored(props, "managepackageversionscentrally", extra);
    LaterPropertyIgnored(props, "centralpackagetransitivepinningenabled", extra);
    assert (props + extra)[PropertyIndex(props, "managepackageversionscentrally").value]
      == props[PropertyIndex(props, "managepackageversionscentrally").value];
    assert (props + extra)[PropertyIndex(props, "centralpackagetransitivepinningenabled").value]
      == props[PropertyIndex(props, "centralpackagetransitivepinningenabled").value];
  }

  /** Without a `ManagePackageVersionsCentrally` or a `CentralPackageTransitivePinningEnabled` property, pinning is off. */
  lemma PinningNeedsBothFlags(file: BuildFile)
    requires || (forall m :: 0 <= m < |file.propertyNodes| ==> Lower(file.propertyNodes[m].name) != "managepackageversionscentrally")
             || (forall m :: 0 <= m < |file.propertyNodes| ==> Lower(file.propertyNodes[m].name) != "centralpackagetransitivepinningenabled")
    ensures !IsCpmTransitivePinningEnabled(file)
  {
    if PropertyIndex(file.propertyNodes, "managepackageversionscentrally").Some? {
      assert PropertyIndex(file.propertyNodes, "centralpackagetransitivepinningenabled").None?;
    }
  }

  /** The index of the first attribute whose name lower-cases to `key`. */
  function AttributeIndex(attrs: seq<(string, string)>, key: string): (r: Option<nat>)
    ensures r.Some? ==> r.value < |attrs| && Lower(attrs[r.value].0) == key
    ensures r.Some? ==> forall k :: 0 <= k < r.value ==> Lower(attrs[k].0) != key
    ensures r.None? ==> forall k :: 0 <= k < |attrs| ==> Lower(attrs[k].0) != key
  {
    if attrs == [] then None
    else if Lower(attrs[0].0) == key then Some(0)
    else match AttributeIndex(attrs[1..], key)
      case None => None
      case Some(k) => Some(k + 1)
  }

  /** Some `Include` attribute (ignoring case) names the package, ignoring case. */
  predicate IncludesPackage(attrs: seq<(string, string)>, dependencyName: string)
  {
    exists k :: 0 <= k < |attrs| && Lower(attrs[k].0) == "include" && EqualsIgnoreCase(attrs[k].1, dependencyName)
  }

  /** A `PackageVersion` item whose `Include` attribute names the package. */
  predicate PinsPackage(item: Item, dependencyName: string)
  {
    Lower(item.name) == "packageversion" && IncludesPackage(item.attributes, dependencyName)
  }

  /** The first item of a group satisfying `PinsPackage`. */
  function PinIn(items: seq<Item>, dependencyName: string): (r: Option<nat>)
    ensures r.Some? ==> r.value < |items| && PinsPackage(items[r.value], dependencyName)
    ensures r.Some? ==> forall i :: 0 <= i < r.value ==> !PinsPackage(items[i], dependencyName)
    ensures r.None? ==> forall i :: 0 <= i < |items| ==> !PinsPackage(items[i], dependencyName)
  {
    if items == [] then None
    else if PinsPackage(items[0], dependencyName) then Some(0)
    else match PinIn(items[1..], dependencyName)
      case None => None
      case Some(i) => Some(i + 1)
  }

  /** `existingPackageVersionElement`: the first pinning item in document order, as (group, item). */
  function FirstPin(groups: seq<seq<Item>>, dependencyName: string): (r: Option<(nat, nat)>)
    ensures r.Some? ==> r.value.0 < |groups| && PinIn(groups[r.value.0], dependencyName) == Some(r.value.1)
    ensures r.Some? ==> forall g :: 0 <= g < r.value.0 ==> PinIn(groups[g], dependencyName).None?
    ensures r.None? ==> forall g :: 0 <= g < |groups| ==> PinIn(groups[g], dependencyName).None?
  {
    if groups == [] then None
    else match PinIn(groups[0], dependencyName)
      case Some(i) => Some((0, i))
      case None =>
        match FirstPin(groups[1..], dependencyName)
        case None => None
        case Some(p) => Some((p.0 + 1, p.1))
  }

  predicate HasPackageVersion(items: seq<Item>)
  {
    exists i :: 0 <= i < |items| && Lower(items[i].name) == "packageversion"
  }

  /** `lastPackageVersion.Parent`: the last item group holding a `PackageVersion` item. */
  function LastPackageVersionGroup(groups: seq<seq<Item>>): (r: Option<nat>)
    ensures r.Some? ==> r.value < |groups| && HasPackageVersion(groups[r.value])
    ensures r.Some? ==> forall g :: r.value < g < |groups| ==> !HasPackageVersion(groups[g])
    ensures r.None? ==> forall g :: 0 <= g < |groups| ==> !HasPackageVersion(groups[g])
  {
    if groups == [] then None
    else if HasPackageVersion(groups[|groups| - 1]) then Some(|groups| - 1)
    else LastPackageVersionGroup(groups[..|groups| - 1])
  }

  /** `WithAttribute("Version", v)` or `ReplaceAttribute` on the first `Version` attribute. */
  function WithVersion(item: Item, newVersion: string): (r: Item)
    ensures r.name == item.name
    ensures AttributeIndex(r.attributes, "version").Some?
    ensures r.attributes[AttributeIndex(r.attributes, "version").value].1 == newVersion
  {
    match AttributeIndex(item.attributes, "version")
    case None =>
      var r := item.(attributes := item.attributes + [("Version", newVersion)]);
      AttributeIndexAppend(item.attributes, "version", ("Version", newVersion));
      r
    case Some(k) =>
      var r := item.(attributes := item.attributes[k := (item.attributes[k].0, newVersion)]);
      AttributeIndexUpdate(item.attributes, "version", k, newVersion);
      r
  }

  lemma {:induction false} AttributeIndexAppend(attrs: seq<(string, string)>, key: string, a: (string, string))
    requires AttributeIndex(attrs, key).None? && Lower(a.0) == key
    ensures AttributeIndex(attrs + [a], key) == Some(|attrs|)
  {
    if attrs != [] {
      AttributeIndexAppend(attrs[1..], key, a);
      assert (attrs + [a])[1..] == attrs[1..] + [a];
    }
  }

  lemma {:induction false} AttributeIndexUpdate(attrs: seq<(string, string)>, key: string, k: nat, v: string)
    requires AttributeIndex(attrs, key) == Some(k)
    ensures AttributeIndex(attrs[k := (attrs[k].0, v)], key) == Some(k)
  {
    if k > 0 {
      AttributeIndexUpdate(attrs[1..], key, k - 1, v);
      assert attrs[k := (attrs[k].0, v)][1..] == attrs[1..][k - 1 := (attrs[k].0, v)];
    }
  }

  /** The version of the pinning item is already `newVersion`, ignoring case. */
  predicate AlreadyPinned(item: Item, newVersion: string)
  {
    var a := AttributeIndex(item.attributes, "version");
    a.Some? && EqualsIgnoreCase(item.attributes[a.value].1, newVersion)
  }

  /**
   * `PinTransitiveDependency` on the item groups of `Directory.Packages.props`: nothing without
   * a `PackageVersion` item or when the package is already pinned at the version; otherwise a
   * new `PackageVersion` item is appended to the last group holding one, or the existing item's
   * version is set there.
   */
  function PinnedGroups(groups: seq<seq<Item>>, dependencyName: string, newVersion: string): (r: seq<seq<Item>>)
    ensures |r| == |groups|
    ensures forall g :: 0 <= g < |groups| && Some(g) != LastPackageVersionGroup(groups) ==> r[g] == groups[g]
    ensures (forall g :: 0 <= g < |groups| ==> !HasPackageVersion(groups[g])) ==> r == groups
    ensures (FirstPin(groups, dependencyName).Some? &&
             AlreadyPinned(groups[FirstPin(groups, dependencyName).value.0][FirstPin(groups, dependencyName).value.1], newVersion))
            ==> r == groups
  {
    match LastPackageVersionGroup(groups)
    case None => groups
    case Some(g) =>
      match FirstPin(groups, dependencyName)
      case None =>
        groups[g := groups[g] + [Item("PackageVersion", [("Include", dependencyName), ("Version", newVersion)])]]
      case Some((h, i)) =>
        if AlreadyPinned(groups[h][i], newVersion) || h != g then groups
        else groups[g := groups[g][i := WithVersion(groups[g][i], newVersion)]]
  }

  /** The last group holding a `PackageVersion` item, characterised by position. */
  lemma {:induction false} LastGroupAt(groups: seq<seq<Item>>, g: nat)
    requires g < |groups| && HasPackageVersion(groups[g])
    requires forall h :: g < h < |groups| ==> !HasPackageVersion(groups[h])
    ensures LastPackageVersionGroup(groups) == Some(g)
  {
    if g < |groups| - 1 {
      LastGroupAt(groups[..|groups| - 1], g);
    }
  }

  /** The first pinning item, characterised by position. */
  lemma {:induction false} FirstPinAt(groups: seq<seq<Item>>, dependencyName: string, g: nat, i: nat)
    requires g < |groups| && PinIn(groups[g], dependencyName) == Some(i)
    requires forall h :: 0 <= h < g ==> PinIn(groups[h], dependencyName).None?
    ensures FirstPin(groups, dependencyName) == Some((g, i))
  {
    if g > 0 {
      FirstPinAt(groups[1..], dependencyName, g - 1, i);
    }
  }

  /** An item appended after none that pins the package is the first pinning item. */
  lemma {:induction false} PinInAppended(items: seq<Item>, dependencyName: string, x: Item)
    requires PinIn(items, dependencyName).None? && PinsPackage(x, dependencyName)
    ensures PinIn(items + [x], dependencyName) == Some(|items|)
  {
    if items != [] {
      assert (items + [x])[1..] == items[1..] + [x];
      PinInAppended(items[1..], dependencyName, x);
    }
  }

  /** Replacing the first pinning item by another pinning item keeps its position. */
  lemma {:induction false} PinInReplaced(items: seq<Item>, dependencyName: string, i: nat, x: Item)
    requires PinIn(items, dependencyName) == Some(i) && PinsPackage(x, dependencyName)
    ensures PinIn(items[i := x], dependencyName) == Some(i)
  {
    if i > 0 {
      assert items[i := x][1..] == items[1..][i - 1 := x];
      PinInReplaced(items[1..], dependencyName, i - 1, x);
    }
  }

  /** Setting the version keeps the item pinning the same package. */
  lemma WithVersionStillPins(item: Item, dependencyName: string, newVersion: string)
    requires PinsPackage(item, dependencyName)
    ensures PinsPackage(WithVersion(item, newVersion), dependencyName)
  {
    var attrs := item.attributes;
    var k :| 0 <= k < |attrs| && Lower(attrs[k].0) == "include" && EqualsIgnoreCase(attrs[k].1, dependencyName);
    var w := WithVersion(item, newVersion).attributes;
    match AttributeIndex(attrs, "version")
    case None =>
      assert w[k] == attrs[k];
    case Some(j) =>
      assert Lower(attrs[j].0) == "version";
      assert j != k;
      assert w[k] == attrs[k];
  }

  /** `Lower` character by character. */
  lemma LowerIs(s: string, t: string)
    requires |s| == |t| && forall i :: 0 <= i < |s| ==> LowerChar(s[i]) == t[i]
    ensures Lower(s) == t
  {
  }

  lemma LowerPackageVersion()
    ensures Lower("PackageVersion") == "packageversion"
  {
    assert LowerChar('P') == 'p' && LowerChar('V') == 'v';
    LowerIs("PackageVersion", "packageversion");
  }

  lemma LowerInclude()
    ensures Lower("Include") == "include"
  {
    assert LowerChar('I') == 'i';
    LowerIs("Include", "include");
  }

  lemma LowerVersion()
    ensures Lower("Version") == "version"
  {
    assert LowerChar('V') == 'v';
    LowerIs("Version", "version");
  }

  /** The element `PinTransitiveDependency` creates pins the package at the new version. */
  lemma NewPinPins(dependencyName: string, newVersion: string)
    ensures var x := Item("PackageVersion", [("Include", dependencyName), ("Version", newVersion)]);
      PinsPackage(x, dependencyName) && AlreadyPinned(x, newVersion)
  {
    var x := Item("PackageVersion", [("Include", dependencyName), ("Version", newVersion)]);
    LowerPackageVersion();
    LowerInclude();
    LowerVersion();
    assert Lower(x.attributes[0].0) == "include";
    assert Lower(x.attributes[1].0) == "version";
    assert AttributeIndex(x.attributes, "version") == Some(1);
  }

  /** What `PinnedAtNewVersion` states, for the groups after pinning. */
  predicate PinnedInGroup(r: seq<seq<Item>>, dependencyName: string, newVersion: string, g: nat)
  {
    && LastPackageVersionGroup(r) == Some(g)
    && FirstPin(r, dependencyName).Some?
    && FirstPin(r, dependencyName).value.0 == g
    && AlreadyPinned(r[g][FirstPin(r, dependencyName).value.1], newVersion)
  }

  /** Groups that differ from `groups` only by one element appended to group `g`. */
  predicate AppendedTo(groups: seq<seq<Item>>, r: seq<seq<Item>>, g: nat)
  {
    && |r| == |groups| && g < |groups|
    && (forall h :: 0 <= h < |groups| && h != g ==> r[h] == groups[h])
    && |r[g]| == |groups[g]| + 1 && r[g][..|groups[g]|] == groups[g]
  }

  /** Appending to the last group holding a `PackageVersion` item keeps it the last such group. */
  lemma AppendKeepsLastGroup(groups: seq<seq<Item>>, r: seq<seq<Item>>, g: nat)
    requires LastPackageVersionGroup(groups) == Some(g) && AppendedTo(groups, r, g)
    ensures LastPackageVersionGroup(r) == Some(g)
  {
    assert HasPackageVersion(groups[g]);
    var i :| 0 <= i < |groups[g]| && Lower(groups[g][i].name) == "packageversion";
    assert r[g][i] == groups[g][..|groups[g]|][i];
    LastGroupAt(r, g);
  }

  /** An appended pinning item, with no pinning item before it, becomes the first one. */
  lemma AppendedPinIsFirst(groups: seq<seq<Item>>, r: seq<seq<Item>>, dependencyName: string, g: nat)
    requires FirstPin(groups, dependencyName).None? && AppendedTo(groups, r, g)
    requires PinsPackage(r[g][|groups[g]|], dependencyName)
    ensures FirstPin(r, dependencyName) == Some((g, |groups[g]|))
  {
    assert r[g] == groups[g] + [r[g][|groups[g]|]];
    PinInAppended(groups[g], dependencyName, r[g][|groups[g]|]);
    FirstPinAt(r, dependencyName, g, |groups[g]|);
  }

  /** Without an earlier pinning item, the last group gains one element, which pins the package at the new version. */
  lemma AppendedPin(groups: seq<seq<Item>>, dependencyName: string, newVersion: string, g: nat)
    requires LastPackageVersionGroup(groups) == Some(g) && FirstPin(groups, dependencyName).None?
    ensures var r := PinnedGroups(groups, dependencyName, newVersion);
      && AppendedTo(groups, r, g)
      && PinsPackage(r[g][|groups[g]|], dependencyName) && AlreadyPinned(r[g][|groups[g]|], newVersion)
  {
    NewPinPins(dependencyName, newVersion);
  }

  /** The appended element becomes the first pinning item. */
  lemma PinnedByAppending(groups: seq<seq<Item>>, dependencyName: string, newVersion: string, g: nat)
    requires LastPackageVersionGroup(groups) == Some(g) && FirstPin(groups, dependencyName).None?
    ensures PinnedInGroup(PinnedGroups(groups, dependencyName, newVersion), dependencyName, newVersion, g)
  {
    var r := PinnedGroups(groups, dependencyName, newVersion);
    AppendedPin(groups, dependencyName, newVersion, g);
    AppendedPinIsFirst(groups, r, dependencyName, g);
    AppendKeepsLastGroup(groups, r, g);
  }

  /** The existing pinning item in the last group gets the new version and stays first. */
  lemma PinnedBySetting(groups: seq<seq<Item>>, dependencyName: string, newVersion: string, g: nat, i: nat)
    requires LastPackageVersionGroup(groups) == Some(g) && FirstPin(groups, dependencyName) == Some((g, i))
    requires !AlreadyPinned(groups[g][i], newVersion)
    ensures PinnedInGroup(PinnedGroups(groups, dependencyName, newVersion), dependencyName, newVersion, g)
  {
    var r := PinnedGroups(groups, dependencyName, newVersion);
    var w := WithVersion(groups[g][i], newVersion);
    assert r[g] == groups[g][i := w];
    WithVersionStillPins(groups[g][i], dependencyName, newVersion);
    PinInReplaced(groups[g], dependencyName, i, w);
    FirstPinAt(r, dependencyName, g, i);
    assert Lower(r[g][i].name) == "packageversion";
    assert HasPackageVersion(r[g]);
    LastGroupAt(r, g);
    assert EqualsIgnoreCase(newVersion, newVersion);
  }

  /**
   * After pinning, when the file has a `PackageVersion` item and the package is pinned nowhere
   * before the last group holding one, the first pinning item lies in that group and carries the
   * new version.
   */
  lemma PinnedAtNewVersion(groups: seq<seq<Item>>, dependencyName: string, newVersion: string)
    requires LastPackageVersionGroup(groups).Some?
    requires FirstPin(groups, dependencyName).None? ||
      FirstPin(groups, dependencyName).value.0 == LastPackageVersionGroup(groups).value
    ensures PinnedInGroup(PinnedGroups(groups, dependencyName, newVersion), dependencyName, newVersion,
      LastPackageVersionGroup(groups).value)
  {
    var g := LastPackageVersionGroup(groups).value;
    match FirstPin(groups, dependencyName)
    case None =>
      PinnedByAppending(groups, dependencyName, newVersion, g);
    case Some((h, i)) =>
      if AlreadyPinned(groups[h][i], newVersion) {
        assert PinnedGroups(groups, dependencyName, newVersion) == groups;
        assert HasPackageVersion(groups[g]);
      } else {
        PinnedBySetting(groups, dependencyName, newVersion, g, i);
      }
  }

  /** Pinning twice is pinning once. */
  lemma PinIdempotent(groups: seq<seq<Item>>, dependencyName: string, newVersion: string)
    ensures var once := PinnedGroups(groups, dependencyName, newVersion);
      PinnedGroups(once, dependencyName, newVersion) == once
  {
    var once := PinnedGroups(groups, dependencyName, newVersion);
    if once != groups {
      PinnedAtNewVersion(groups, dependencyName, newVersion);
    }
  }

  // ---------------------------------------------------------------------
  // Updating a top-level dependency
  // ---------------------------------------------------------------------

  /** A further `TryUpdateDependencyVersion(buildFiles, name, null, version)` call. */
  datatype Request = Request(name: string, version: string)

  predicate RequestsParse<V>(reqs: seq<Request>, vs: Versioning<V>)
  {
    forall i :: 0 <= i < |reqs| ==> vs.parse(reqs[i].version).Some?
  }

  /** The build files after the requests, one after another, each with no previous version. */
  ghost function ApplyRequests<V>(files: seq<BuildFile>, reqs: seq<Request>, vs: Versioning<V>): (r: seq<BuildFile>)
    requires RequestsParse(reqs, vs) && LiteralsStayLiteral(vs)
    ensures |r| == |files|
  {
    if reqs == [] then files
    else
      var last := reqs[|reqs| - 1];
      TryUpdate(ApplyRequests(files, reqs[..|reqs| - 1], vs), last.name, None, last.version, vs).files
  }

  /** Requests in sequence: the second batch starts from the files the first one leaves. */
  lemma {:induction false} ApplyRequestsAppend<V>(files: seq<BuildFile>, a: seq<Request>, b: seq<Request>, vs: Versioning<V>)
    requires RequestsParse(a, vs) && RequestsParse(b, vs) && LiteralsStayLiteral(vs)
    ensures RequestsParse(a + b, vs)
    ensures ApplyRequests(files, a + b, vs) == ApplyRequests(ApplyRequests(files, a, vs), b, vs)
  {
    assert RequestsParse(a + b, vs) by {
      forall i | 0 <= i < |a + b| ensures vs.parse((a + b)[i].version).Some? {
        if i >= |a| { assert (a + b)[i] == b[i - |a|]; }
      }
    }
    if b == [] {
      assert a + b == a;
    } else {
      var n := |b| - 1;
      assert RequestsParse(b[..n], vs) by {
        forall i | 0 <= i < n ensures vs.parse(b[..n][i].version).Some? {
          assert b[..n][i] == b[i];
        }
      }
      ApplyRequestsAppend(files, a, b[..n], vs);
      assert (a + b)[..|a + b| - 1] == a + b[..n];
    }
  }

  /** Every version in the peer table is present. */
  predicate PeerVersionsPresent(peers: PeerTable)
  {
    forall k :: 0 <= k < |peers| ==> peers[k].1.Some?
  }

  /** The peers other than the root package (compared ignoring case), in table order. */
  function PeerRequests(peers: PeerTable, dependencyName: string): (r: seq<Request>)
    requires PeerVersionsPresent(peers)
    ensures forall i :: 0 <= i < |r| ==> !EqualsIgnoreCase(r[i].name, dependencyName)
    ensures |r| <= |peers|
  {
    if peers == [] then []
    else
      var n := |peers| - 1;
      var prior := PeerRequests(peers[..n], dependencyName);
      if EqualsIgnoreCase(peers[n].0, dependencyName) then prior
      else prior + [Request(peers[n].0, peers[n].1.value)]
  }

  /** Every request comes from the table, and every peer not named like the root package gets one. */
  lemma {:induction false} PeerRequestsFromTable(peers: PeerTable, dependencyName: string)
    requires PeerVersionsPresent(peers)
    ensures var r := PeerRequests(peers, dependencyName);
      && (forall i :: 0 <= i < |r| ==> exists k :: 0 <= k < |peers| && peers[k] == (r[i].name, Some(r[i].version)))
      && (forall k :: 0 <= k < |peers| && !EqualsIgnoreCase(peers[k].0, dependencyName) ==>
            Request(peers[k].0, peers[k].1.value) in r)
  {
    if peers != [] {
      var n := |peers| - 1;
      var r := PeerRequests(peers, dependencyName);
      var prior := PeerRequests(peers[..n], dependencyName);
      PeerRequestsFromTable(peers[..n], dependencyName);
      assert forall k :: 0 <= k < n ==> peers[..n][k] == peers[k];
      assert r == if EqualsIgnoreCase(peers[n].0, dependencyName) then prior
                 else prior + [Request(peers[n].0, peers[n].1.value)];
      forall i | 0 <= i < |r|
        ensures exists k :: 0 <= k < |peers| && peers[k] == (r[i].name, Some(r[i].version))
      {
        if i < |prior| {
          assert r[i] == prior[i];
          var k :| 0 <= k < n && peers[..n][k] == (prior[i].name, Some(prior[i].version));
          assert peers[k] == (r[i].name, Some(r[i].version));
        } else {
          assert peers[n] == (r[i].name, Some(r[i].version));
        }
      }
    }
  }

  /** The first resolved dependency named like the root package, ignoring case (`FirstOrDefault`). */
  function FirstNamed(deps: seq<Dependency>, dependencyName: string): (r: Option<nat>)
    ensures r.Some? ==> r.value < |deps| && EqualsIgnoreCase(deps[r.value].name, dependencyName)
    ensures r.Some? ==> forall j :: 0 <= j < r.value ==> !EqualsIgnoreCase(deps[j].name, dependencyName)
    ensures r.None? ==> forall j :: 0 <= j < |deps| ==> !EqualsIgnoreCase(deps[j].name, dependencyName)
  {
    if deps == [] then None
    else if EqualsIgnoreCase(deps[0].name, dependencyName) then Some(0)
    else match FirstNamed(deps[1..], dependencyName)
      case None => None
      case Some(j) => Some(j + 1)
  }

  /** The resolved dependencies other than the root package that carry a version, in order. */
  function OtherResolved(deps: seq<Dependency>, dependencyName: string): (r: seq<Request>)
    ensures forall i :: 0 <= i < |r| ==> !EqualsIgnoreCase(r[i].name, dependencyName)
    ensures |r| <= |deps|
  {
    if deps == [] then []
    else
      var n := |deps| - 1;
      var prior := OtherResolved(deps[..n], dependencyName);
      if deps[n].version.Some? && !EqualsIgnoreCase(deps[n].name, dependencyName)
      then prior + [Request(deps[n].name, deps[n].version.value)]
      else prior
  }

  /** Every request is a resolved dependency with a version, and every such dependency other than the root package gets one. */
  lemma {:induction false} OtherResolvedFromAnswer(deps: seq<Dependency>, dependencyName: string)
    ensures var r := OtherResolved(deps, dependencyName);
      && (forall i :: 0 <= i < |r| ==> Dependency(r[i].name, Some(r[i].version)) in deps)
      && (forall d :: d in deps && d.version.Some? && !EqualsIgnoreCase(d.name, dependencyName) ==>
            Request(d.name, d.version.value) in r)
  {
    if deps != [] {
      var n := |deps| - 1;
      var r := OtherResolved(deps, dependencyName);
      var prior := OtherResolved(deps[..n], dependencyName);
      OtherResolvedFromAnswer(deps[..n], dependencyName);
      assert forall d :: d in deps ==> d in deps[..n] || d == deps[n];
      assert forall d :: d in deps[..n] ==> d in deps;
      assert r == if deps[n].version.Some? && !EqualsIgnoreCase(deps[n].name, dependencyName)
                 then prior + [Request(deps[n].name, deps[n].version.value)] else prior;
      forall i | 0 <= i < |r|
        ensures Dependency(r[i].name, Some(r[i].version)) in deps
      {
        if i < |prior| {
          assert r[i] == prior[i];
        }
      }
    }
  }

  /**
   * The requests one `ResolveDependencyConflicts` answer leads to: none when it failed, when
   * it does not hold the root package, or when the root package's first entry is not at the new
   * version (ignoring case); otherwise every other resolved dependency with a version.
   */
  function ResolvedRequests(resolved: Option<seq<Dependency>>, dependencyName: string, newVersion: string): (r: seq<Request>)
    ensures r != [] ==> resolved.Some? && FirstNamed(resolved.value, dependencyName).Some?
    ensures r != [] ==> var d := resolved.value[FirstNamed(resolved.value, dependencyName).value];
      d.version.Some? && EqualsIgnoreCase(newVersion, d.version.value)
  {
    if resolved.None? then []
    else match FirstNamed(resolved.value, dependencyName)
      case None => []
      case Some(j) =>
        var d := resolved.value[j];
        if d.version.Some? && EqualsIgnoreCase(newVersion, d.version.value)
        then OtherResolved(resolved.value, dependencyName)
        else []
  }

  /** The requests of one build file, target framework after target framework. */
  function FileRequests(path: string, tfms: seq<string>, resolve: (string, string) -> Option<seq<Dependency>>,
                        dependencyName: string, newVersion: string): seq<Request>
  {
    if tfms == [] then []
    else
      var n := |tfms| - 1;
      FileRequests(path, tfms[..n], resolve, dependencyName, newVersion)
        + ResolvedRequests(resolve(path, tfms[n]), dependencyName, newVersion)
  }

  /** The requests of all build files (by path), file after file. */
  function ResolutionRequests(paths: seq<string>, tfms: seq<string>, resolve: (string, string) -> Option<seq<Dependency>>,
                              dependencyName: string, newVersion: string): seq<Request>
  {
    if paths == [] then []
    else
      var n := |paths| - 1;
      ResolutionRequests(paths[..n], tfms, resolve, dependencyName, newVersion)
        + FileRequests(paths[n], tfms, resolve, dependencyName, newVersion)
  }

  function Paths(files: seq<BuildFile>): (r: seq<string>)
    ensures |r| == |files| && forall i :: 0 <= i < |files| ==> r[i] == files[i].path
  {
    if files == [] then [] else Paths(files[..|files| - 1]) + [files[|files| - 1].path]
  }

  /** `ResolveDependencyConflicts` reports only versions `NuGetVersion.Parse` accepts. */
  ghost predicate ResolvedVersionsParse<V>(resolve: (string, string) -> Option<seq<Dependency>>, vs: Versioning<V>)
  {
    forall p, t, i :: resolve(p, t).Some? && 0 <= i < |resolve(p, t).value| && resolve(p, t).value[i].version.Some? ==>
      vs.parse(resolve(p, t).value[i].version.value).Some?
  }

  /** Every version of the peer table is present and parses. */
  predicate PeerVersionsParse<V>(peers: PeerTable, vs: Versioning<V>)
  {
    forall k :: 0 <= k < |peers| ==> peers[k].1.Some? && vs.parse(peers[k].1.value).Some?
  }

  lemma PeerRequestsParse<V>(peers: PeerTable, dependencyName: string, vs: Versioning<V>)
    requires PeerVersionsParse(peers, vs)
    ensures RequestsParse(PeerRequests(peers, dependencyName), vs)
  {
    var r := PeerRequests(peers, dependencyName);
    PeerRequestsFromTable(peers, dependencyName);
    forall i | 0 <= i < |r| ensures vs.parse(r[i].version).Some? {
      var k :| 0 <= k < |peers| && peers[k] == (r[i].name, Some(r[i].version));
    }
  }

  /** Every version in one `ResolveDependencyConflicts` answer parses. */
  predicate AnswerParses<V>(resolved: Option<seq<Dependency>>, vs: Versioning<V>)
  {
    resolved.Some? ==> forall i :: 0 <= i < |resolved.value| && resolved.value[i].version.Some? ==>
      vs.parse(resolved.value[i].version.value).Some?
  }

  lemma AnswerParsesAt<V>(resolve: (string, string) -> Option<seq<Dependency>>, vs: Versioning<V>, p: string, t: string)
    requires ResolvedVersionsParse(resolve, vs)
    ensures AnswerParses(resolve(p, t), vs)
  {
  }

  /** The requests of one answer name only resolved dependencies with parsing versions, never the root package. */
  lemma ResolvedRequestsFacts<V>(resolved: Option<seq<Dependency>>, dependencyName: string, newVersion: string, vs: Versioning<V>)
    requires AnswerParses(resolved, vs)
    ensures FollowUps(ResolvedRequests(resolved, dependencyName, newVersion), dependencyName, vs)
  {
    var r := ResolvedRequests(resolved, dependencyName, newVersion);
    forall i | 0 <= i < |r| ensures vs.parse(r[i].version).Some? {
      var others := OtherResolved(resolved.value, dependencyName);
      OtherResolvedFromAnswer(resolved.value, dependencyName);
      assert r == others;
      assert Dependency(r[i].name, Some(r[i].version)) in resolved.value;
    }
  }

  /** Requests whose versions parse and that never name the root package. */
  predicate FollowUps<V>(r: seq<Request>, dependencyName: string, vs: Versioning<V>)
  {
    RequestsParse(r, vs) && forall i :: 0 <= i < |r| ==> !EqualsIgnoreCase(r[i].name, dependencyName)
  }

  lemma FollowUpsConcat<V>(a: seq<Request>, b: seq<Request>, dependencyName: string, vs: Versioning<V>)
    requires FollowUps(a, dependencyName, vs) && FollowUps(b, dependencyName, vs)
    ensures FollowUps(a + b, dependencyName, vs)
  {
    forall i | 0 <= i < |a + b|
      ensures vs.parse((a + b)[i].version).Some? && !EqualsIgnoreCase((a + b)[i].name, dependencyName)
    {
      if i >= |a| { assert (a + b)[i] == b[i - |a|]; }
    }
  }

  /** A sequence is its own prefix of full length. */
  lemma TakeAll<T>(xs: seq<T>)
    ensures xs[..|xs|] == xs
  {
  }

  /** One target framework of a build file: its answer's requests follow those of the earlier frameworks. */
  lemma FileRequestsStep<V>(before: seq<BuildFile>, path: string, tfms: seq<string>, t: nat,
                            resolve: (string, string) -> Option<seq<Dependency>>,
                            dependencyName: string, newVersion: string, vs: Versioning<V>)
    requires t < |tfms| && ResolvedVersionsParse(resolve, vs) && LiteralsStayLiteral(vs)
    requires FollowUps(FileRequests(path, tfms[..t], resolve, dependencyName, newVersion), dependencyName, vs)
    ensures FollowUps(ResolvedRequests(resolve(path, tfms[t]), dependencyName, newVersion), dependencyName, vs)
    ensures FollowUps(FileRequests(path, tfms[..t + 1], resolve, dependencyName, newVersion), dependencyName, vs)
    ensures ApplyRequests(ApplyRequests(before, FileRequests(path, tfms[..t], resolve, dependencyName, newVersion), vs),
                          ResolvedRequests(resolve(path, tfms[t]), dependencyName, newVersion), vs)
         == ApplyRequests(before, FileRequests(path, tfms[..t + 1], resolve, dependencyName, newVersion), vs)
  {
    var a := FileRequests(path, tfms[..t], resolve, dependencyName, newVersion);
    var b := ResolvedRequests(resolve(path, tfms[t]), dependencyName, newVersion);
    PrefixStep(tfms, t);
    assert FileRequests(path, tfms[..t + 1], resolve, dependencyName, newVersion) == a + b;
    AnswerParsesAt(resolve, vs, path, tfms[t]);
    ResolvedRequestsFacts(resolve(path, tfms[t]), dependencyName, newVersion, vs);
    ApplyRequestsAppend(before, a, b, vs);
    FollowUpsConcat(a, b, dependencyName, vs);
  }

  /** One build file: its requests follow those of the earlier build files. */
  lemma ResolutionRequestsStep<V>(start: seq<BuildFile>, paths: seq<string>, f: nat, tfms: seq<string>,
                                  resolve: (string, string) -> Option<seq<Dependency>>,
                                  dependencyName: string, newVersion: string, vs: Versioning<V>)
    requires f < |paths| && ResolvedVersionsParse(resolve, vs) && LiteralsStayLiteral(vs)
    requires FollowUps(ResolutionRequests(paths[..f], tfms, resolve, dependencyName, newVersion), dependencyName, vs)
    ensures FollowUps(FileRequests(paths[f], tfms, resolve, dependencyName, newVersion), dependencyName, vs)
    ensures FollowUps(ResolutionRequests(paths[..f + 1], tfms, resolve, dependencyName, newVersion), dependencyName, vs)
    ensures ApplyRequests(ApplyRequests(start, ResolutionRequests(paths[..f], tfms, resolve, dependencyName, newVersion), vs),
                          FileRequests(paths[f], tfms, resolve, dependencyName, newVersion), vs)
         == ApplyRequests(start, ResolutionRequests(paths[..f + 1], tfms, resolve, dependencyName, newVersion), vs)
  {
    var a := ResolutionRequests(paths[..f], tfms, resolve, dependencyName, newVersion);
    var b := FileRequests(paths[f], tfms, resolve, dependencyName, newVersion);
    PrefixStep(paths, f);
    assert ResolutionRequests(paths[..f + 1], tfms, resolve, dependencyName, newVersion) == a + b;
    FileRequestsFacts(paths[f], tfms, resolve, dependencyName, newVersion, vs);
    ApplyRequestsAppend(start, a, b, vs);
    FollowUpsConcat(a, b, dependencyName, vs);
  }

  /** Requests from one build file: all parse, none names the root package. */
  lemma {:induction false} FileRequestsFacts<V>(path: string, tfms: seq<string>, resolve: (string, string) -> Option<seq<Dependency>>,
                                               dependencyName: string, newVersion: string, vs: Versioning<V>)
    requires ResolvedVersionsParse(resolve, vs)
    ensures FollowUps(FileRequests(path, tfms, resolve, dependencyName, newVersion), dependencyName, vs)
  {
    if tfms != [] {
      var n := |tfms| - 1;
      FileRequestsFacts(path, tfms[..n], resolve, dependencyName, newVersion, vs);
      AnswerParsesAt(resolve, vs, path, tfms[n]);
      ResolvedRequestsFacts(resolve(path, tfms[n]), dependencyName, newVersion, vs);
      FollowUpsConcat(FileRequests(path, tfms[..n], resolve, dependencyName, newVersion),
        ResolvedRequests(resolve(path, tfms[n]), dependencyName, newVersion), dependencyName, vs);
    }
  }

  /**
   * The requests that follow conflict resolution: all parse, and none names the root package,
   * whose own version is left as the first `TryUpdateDependencyVersion` set it.
   */
  lemma {:induction false} ResolutionRequestsFacts<V>(paths: seq<string>, tfms: seq<string>, resolve: (string, string) -> Option<seq<Dependency>>,
                                                     dependencyName: string, newVersion: string, vs: Versioning<V>)
    requires ResolvedVersionsParse(resolve, vs)
    ensures FollowUps(ResolutionRequests(paths, tfms, resolve, dependencyName, newVersion), dependencyName, vs)
  {
    if paths != [] {
      var n := |paths| - 1;
      ResolutionRequestsFacts(paths[..n], tfms, resolve, dependencyName, newVersion, vs);
      FileRequestsFacts(paths[n], tfms, resolve, dependencyName, newVersion, vs);
      FollowUpsConcat(ResolutionRequests(paths[..n], tfms, resolve, dependencyName, newVersion),
        FileRequests(paths[n], tfms, resolve, dependencyName, newVersion), dependencyName, vs);
    }
  }

  /** One more request on top of a batch. */
  lemma ApplyRequestsSnoc<V>(files: seq<BuildFile>, reqs: seq<Request>, r: Request, vs: Versioning<V>)
    requires RequestsParse(reqs, vs) && vs.parse(r.version).Some? && LiteralsStayLiteral(vs)
    ensures RequestsParse(reqs + [r], vs)
    ensures ApplyRequests(files, reqs + [r], vs) == TryUpdate(ApplyRequests(files, reqs, vs), r.name, None, r.version, vs).files
  {
    assert (reqs + [r])[..|reqs|] == reqs;
    assert forall i :: 0 <= i < |reqs| ==> (reqs + [r])[i] == reqs[i];
  }

  /**
   * The build files after `UpdateTopLevelDepdendency`: the root update; when it found the root,
   * then the peer requests; then the requests that conflict resolution leads to.
   */
  ghost function TopLevelUpdate<V>(files: seq<BuildFile>, tfms: seq<string>, dependencyName: string, previous: string,
                                   newVersion: string, peers: PeerTable, resolve: (string, string) -> Option<seq<Dependency>>,
                                   vs: Versioning<V>): (r: seq<BuildFile>)
    requires vs.parse(newVersion).Some? && LiteralsStayLiteral(vs)
    requires PeerVersionsParse(peers, vs) && ResolvedVersionsParse(resolve, vs)
    ensures |r| == |files|
  {
    var root := TryUpdate(files, dependencyName, Some(previous), newVersion, vs);
    if ResultOf(root.progress) == NotFound then root.files
    else
      PeerRequestsParse(peers, dependencyName, vs);
      var afterPeers := ApplyRequests(root.files, PeerRequests(peers, dependencyName), vs);
      ResolutionRequestsFacts(Paths(afterPeers), tfms, resolve, dependencyName, newVersion, vs);
      ApplyRequests(afterPeers, ResolutionRequests(Paths(afterPeers), tfms, resolve, dependencyName, newVersion), vs)
  }

  /** The invariant of the peer loop after `k` entries. */
  ghost predicate PeerLoop<V>(start: seq<BuildFile>, files: seq<BuildFile>, peers: PeerTable, k: nat, dependencyName: string, vs: Versioning<V>)
  {
    && k <= |peers| && PeerVersionsParse(peers, vs) && LiteralsStayLiteral(vs)
    && RequestsParse(PeerRequests(peers[..k], dependencyName), vs)
    && files == ApplyRequests(start, PeerRequests(peers[..k], dependencyName), vs)
  }

  lemma PeerStepStart<V>(start: seq<BuildFile>, peers: PeerTable, dependencyName: string, vs: Versioning<V>)
    requires PeerVersionsParse(peers, vs) && LiteralsStayLiteral(vs)
    ensures PeerLoop(start, start, peers, 0, dependencyName, vs)
  {
    assert peers[..0] == [];
  }

  /** After the last entry the peer loop has made every peer request. */
  lemma PeerLoopEnd<V>(start: seq<BuildFile>, files: seq<BuildFile>, peers: PeerTable, dependencyName: string, vs: Versioning<V>)
    requires PeerLoop(start, files, peers, |peers|, dependencyName, vs)
    ensures RequestsParse(PeerRequests(peers, dependencyName), vs)
    ensures files == ApplyRequests(start, PeerRequests(peers, dependencyName), vs)
  {
    assert peers[..|peers|] == peers;
  }

  /** One entry of the peer loop: a request when the key is not the root package, nothing otherwise. */
  lemma PeerStep<V>(start: seq<BuildFile>, files: seq<BuildFile>, peers: PeerTable, k: nat, dependencyName: string, vs: Versioning<V>)
    requires k < |peers| && PeerLoop(start, files, peers, k, dependencyName, vs)
    ensures vs.parse(peers[k].1.value).Some?
    ensures var next := if EqualsIgnoreCase(peers[k].0, dependencyName) then files
                        else TryUpdate(files, peers[k].0, None, peers[k].1.value, vs).files;
      PeerLoop(start, next, peers, k + 1, dependencyName, vs)
  {
    var prior := PeerRequests(peers[..k], dependencyName);
    PeerRequestsPrefix(peers, k, dependencyName);
    if !EqualsIgnoreCase(peers[k].0, dependencyName) {
      ApplyRequestsSnoc(start, prior, Request(peers[k].0, peers[k].1.value), vs);
    }
  }

  /** The requests of the first `k + 1` peers: those of the first `k`, then one for entry `k` unless it is the root package. */
  lemma PeerRequestsPrefix(peers: PeerTable, k: nat, dependencyName: string)
    requires k < |peers| && PeerVersionsPresent(peers)
    ensures PeerVersionsPresent(peers[..k]) && PeerVersionsPresent(peers[..k + 1])
    ensures PeerRequests(peers[..k + 1], dependencyName) ==
      if EqualsIgnoreCase(peers[k].0, dependencyName) then PeerRequests(peers[..k], dependencyName)
      else PeerRequests(peers[..k], dependencyName) + [Request(peers[k].0, peers[k].1.value)]
  {
    PrefixStep(peers, k);
  }

  /** The invariant of the loop over one answer after `j` dependencies. */
  ghost predicate OthersLoop<V>(start: seq<BuildFile>, files: seq<BuildFile>, deps: seq<Dependency>, j: nat, dependencyName: string, vs: Versioning<V>)
  {
    && j <= |deps| && AnswerParses(Some(deps), vs) && LiteralsStayLiteral(vs)
    && FollowUps(OtherResolved(deps[..j], dependencyName), dependencyName, vs)
    && files == ApplyRequests(start, OtherResolved(deps[..j], dependencyName), vs)
  }

  lemma OthersStepStart<V>(start: seq<BuildFile>, deps: seq<Dependency>, dependencyName: string, vs: Versioning<V>)
    requires AnswerParses(Some(deps), vs) && LiteralsStayLiteral(vs)
    ensures OthersLoop(start, start, deps, 0, dependencyName, vs)
  {
    assert deps[..0] == [];
  }

  /** After the last dependency the loop has made every request of the answer. */
  lemma OthersLoopEnd<V>(start: seq<BuildFile>, files: seq<BuildFile>, deps: seq<Dependency>, dependencyName: string, vs: Versioning<V>)
    requires OthersLoop(start, files, deps, |deps|, dependencyName, vs)
    ensures FollowUps(OtherResolved(deps, dependencyName), dependencyName, vs)
    ensures files == ApplyRequests(start, OtherResolved(deps, dependencyName), vs)
  {
    assert deps[..|deps|] == deps;
  }

  /** A dependency that is the root package or has no version adds nothing. */
  lemma OthersStepSkipped<V>(start: seq<BuildFile>, files: seq<BuildFile>, deps: seq<Dependency>, j: nat, dependencyName: string, vs: Versioning<V>)
    requires j < |deps| && OthersLoop(start, files, deps, j, dependencyName, vs)
    requires EqualsIgnoreCase(deps[j].name, dependencyName) || deps[j].version.None?
    ensures OthersLoop(start, files, deps, j + 1, dependencyName, vs)
  {
    OtherResolvedPrefix(deps, j, dependencyName);
  }

  /** A dependency that is not the root package and has a version adds its request. */
  lemma OthersStepTaken<V>(start: seq<BuildFile>, files: seq<BuildFile>, deps: seq<Dependency>, j: nat, dependencyName: string, vs: Versioning<V>)
    requires j < |deps| && OthersLoop(start, files, deps, j, dependencyName, vs)
    requires !EqualsIgnoreCase(deps[j].name, dependencyName) && deps[j].version.Some?
    ensures vs.parse(deps[j].version.value).Some?
    ensures OthersLoop(start, TryUpdate(files, deps[j].name, None, deps[j].version.value, vs).files, deps, j + 1, dependencyName, vs)
  {
    var req := Request(deps[j].name, deps[j].version.value);
    var prior := OtherResolved(deps[..j], dependencyName);
    OtherResolvedPrefix(deps, j, dependencyName);
    ApplyRequestsSnoc(start, prior, req, vs);
    FollowUpsConcat(prior, [req], dependencyName, vs);
  }

  /** The requests of the first `j + 1` dependencies: those of the first `j`, then one for dependency `j` when it qualifies. */
  lemma OtherResolvedPrefix(deps: seq<Dependency>, j: nat, dependencyName: string)
    requires j < |deps|
    ensures OtherResolved(deps[..j + 1], dependencyName) ==
      if deps[j].version.Some? && !EqualsIgnoreCase(deps[j].name, dependencyName)
      then OtherResolved(deps[..j], dependencyName) + [Request(deps[j].name, deps[j].version.value)]
      else OtherResolved(deps[..j], dependencyName)
  {
    PrefixStep(deps, j);
  }

  /** `FirstOrDefault(IsCpmTransitivePinningEnabled)`: the first build file with transitive pinning enabled. */
  function FirstPinningFile(files: seq<BuildFile>): Option<nat>
  {
    FirstIndex(files, IsCpmTransitivePinningEnabled)
  }

  /** The build files after `UpdateTransitiveDependencyAsnyc`. */
  function TransitiveUpdate(files: seq<BuildFile>, dependencyName: string, newVersion: string): (r: seq<BuildFile>)
    ensures |r| == |files|
  {
    match FirstPinningFile(files)
    case None => files
    case Some(f) => files[f := files[f].(itemGroups := PinnedGroups(files[f].itemGroups, dependencyName, newVersion))]
  }

  /** A transitive update changes at most the item groups of the first pinning-enabled file. */
  lemma TransitiveUpdateLocal(files: seq<BuildFile>, dependencyName: string, newVersion: string, f: nat)
    requires f < |files|
    ensures var r := TransitiveUpdate(files, dependencyName, newVersion);
      && (Some(f) != FirstPinningFile(files) ==> r[f] == files[f])
      && r[f].path == files[f].path && r[f].packageNodes == files[f].packageNodes
      && r[f].propertyNodes == files[f].propertyNodes
  {
  }

  /** Whether pinning is enabled does not depend on the item groups. */
  lemma PinningFlagIgnoresItems(file: BuildFile, groups: seq<seq<Item>>)
    ensures IsCpmTransitivePinningEnabled(file.(itemGroups := groups)) == IsCpmTransitivePinningEnabled(file)
  {
    var other := file.(itemGroups := groups);
    assert other.path == file.path && other.propertyNodes == file.propertyNodes;
  }

  /** Replacing the first element satisfying `p` by another one that does keeps its position first. */
  lemma FirstIndexReplaced<T>(s: seq<T>, p: T -> bool, f: nat, x: T)
    requires FirstIndex(s, p) == Some(f) && p(x)
    ensures FirstIndex(s[f := x], p) == Some(f)
  {
    assert forall h :: 0 <= h < f ==> s[f := x][h] == s[h];
    FirstIndexAt(s[f := x], p, f);
  }

  /** Rewriting the item groups of the first pinning-enabled file keeps it first. */
  lemma FirstPinningFileKept(files: seq<BuildFile>, f: nat, groups: seq<seq<Item>>)
    requires FirstPinningFile(files) == Some(f)
    ensures FirstPinningFile(files[f := files[f].(itemGroups := groups)]) == Some(f)
  {
    PinningFlagIgnoresItems(files[f], groups);
    FirstIndexReplaced(files, IsCpmTransitivePinningEnabled, f, files[f].(itemGroups := groups));
  }

  /** Item groups that pinning leaves alone, written into the first pinning-enabled file, are left alone too. */
  lemma TransitiveUpdateFixed(files: seq<BuildFile>, f: nat, groups: seq<seq<Item>>, dependencyName: string, newVersion: string)
    requires FirstPinningFile(files) == Some(f)
    requires PinnedGroups(groups, dependencyName, newVersion) == groups
    ensures var r := files[f := files[f].(itemGroups := groups)];
      TransitiveUpdate(r, dependencyName, newVersion) == r
  {
    var file := files[f].(itemGroups := groups);
    var r := files[f := file];
    FirstPinningFileKept(files, f, groups);
    assert r[f] == file;
    assert r[f].(itemGroups := PinnedGroups(r[f].itemGroups, dependencyName, newVersion)) == file;
    assert TransitiveUpdate(r, dependencyName, newVersion) == r[f := file];
    UpdateSame(r, f);
  }

  /** Writing back the element a sequence already holds changes nothing. */
  lemma UpdateSame<T>(s: seq<T>, i: nat)
    requires i < |s|
    ensures s[i := s[i]] == s
  {
  }

  /** Updating a transitive dependency twice is updating it once. */
  lemma TransitiveUpdateIdempotent(files: seq<BuildFile>, dependencyName: string, newVersion: string)
    ensures var r := TransitiveUpdate(files, dependencyName, newVersion);
      TransitiveUpdate(r, dependencyName, newVersion) == r
  {
    match FirstPinningFile(files)
    case None =>
    case Some(f) =>
      PinIdempotent(files[f].itemGroups, dependencyName, newVersion);
      TransitiveUpdateFixed(files, f, PinnedGroups(files[f].itemGroups, dependencyName, newVersion), dependencyName, newVersion);
  }


  /** The first element satisfying `p`, characterised by position. */
  lemma {:induction false} FirstIndexAt<T>(s: seq<T>, p: T -> bool, f: nat)
    requires f < |s| && p(s[f])
    requires forall h :: 0 <= h < f ==> !p(s[h])
    ensures FirstIndex(s, p) == Some(f)
  {
    if f > 0 {
      FirstIndexAt(s[1..], p, f - 1);
    }
  }
}
