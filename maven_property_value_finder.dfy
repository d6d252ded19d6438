/**
 * Maven's `PropertyValueFinder`: resolving a `${property}` used in a POM to its value, trying
 * ever more path-like spellings of the name, following `${...}` indirection and climbing to
 * parent POMs. A POM is the list of its elements (namespaces removed), each with its absolute
 * path and text content; an XPath query `/a/b` selects the elements whose path is `/a/b`.
 */
module MavenPropertyValueFinder {
  import opened Wrappers
  import opened Errors
  import opened Text

  /** An element of a POM: its absolute path (`/project/properties/foo`) and its text content. */
  datatype Element = Element(path: string, content: string)

  /** A POM file. */
  datatype Pom = Pom(name: string, elements: seq<Element>)

  /**
   * What the finder learns from `PomFetcher`: the POMs of the repository by `groupId:artifactId`,
   * and the download of a remote parent POM by group, artifact, version and the repository urls
   * to try; and what `RepositoriesFinder` answers for a POM's own (not inherited) repositories.
   */
  datatype Finder = Finder(
    internal: map<string, Pom>,
    fetchRemote: (string, string, string, seq<string>) -> Option<Pom>,
    repositoryUrls: Pom -> seq<string>)

  /** A resolved property: the file whose element held the value, and the value. */
  datatype PropertyDetails = PropertyDetails(file: string, value: string)

  // ---------------------------------------------------------------------
  // XPath queries
  // ---------------------------------------------------------------------

  /** The index of the last element at `path` (`xpath(path).last`). */
  function LastAt(elements: seq<Element>, path: string): (r: Option<nat>)
    ensures r.Some? ==> r.value < |elements| && elements[r.value].path == path
  {
    if elements == [] then None
    else
      var n := |elements| - 1;
      if elements[n].path == path then Some(n) else LastAt(elements[..n], path)
  }

  /** `LastAt` finds the last element at `path`, and nothing when no element is there. */
  lemma {:induction false} LastAtIsLast(elements: seq<Element>, path: string)
    ensures var r := LastAt(elements, path);
      && (r.None? <==> forall i :: 0 <= i < |elements| ==> elements[i].path != path)
      && (r.Some? ==> (r.value < |elements| && elements[r.value].path == path &&
                       forall j :: r.value < j < |elements| ==> elements[j].path != path))
  {
    if elements != [] {
      var n := |elements| - 1;
      LastAtIsLast(elements[..n], path);
    }
  }

  /** The index of the first element at `path`, from `i` on. */
  function FirstAt(elements: seq<Element>, path: string, i: nat): (r: Option<nat>)
    requires i <= |elements|
    ensures r.Some? ==> i <= r.value < |elements| && elements[r.value].path == path
    decreases |elements| - i
  {
    if i == |elements| then None
    else if elements[i].path == path then Some(i)
    else FirstAt(elements, path, i + 1)
  }

  /** `FirstAt` finds the first element at `path` from `i` on, and nothing when no element is there. */
  lemma {:induction false} FirstAtIsFirst(elements: seq<Element>, path: string, i: nat)
    requires i <= |elements|
    ensures var r := FirstAt(elements, path, i);
      && (r.None? <==> forall k :: i <= k < |elements| ==> elements[k].path != path)
      && (r.Some? ==> (i <= r.value < |elements| && elements[r.value].path == path &&
                       forall k :: i <= k < r.value ==> elements[k].path != path))
    decreases |elements| - i
  {
    if i < |elements| {
      FirstAtIsFirst(elements, path, i + 1);
    }
  }

  /** The content of the first element at `path` (`at_xpath(path)&.content`). */
  function FirstContentAt(elements: seq<Element>, path: string): Option<string>
  {
    match FirstAt(elements, path, 0)
    case None => None
    case Some(i) => Some(elements[i].content)
  }

  /** The content of the last element at `path`, if any. */
  function LastContentAt(elements: seq<Element>, path: string): Option<string>
  {
    match LastAt(elements, path)
    case None => None
    case Some(i) => Some(elements[i].content)
  }

  /**
   * One round of the candidate lookup: `/project/<nm>`, else `/project/properties/<name>`,
   * else `/project/profiles/profile/properties/<name>`, each time the last match.
   */
  function Lookup(elements: seq<Element>, nm: string, propertyName: string): Option<string>
  {
    var a := LastContentAt(elements, "/project/" + nm);
    var b := LastContentAt(elements, "/project/properties/" + propertyName);
    var c := LastContentAt(elements, "/project/profiles/profile/properties/" + propertyName);
    if a.Some? then a else if b.Some? then b else c
  }

  /**
   * The lookup prefers `/project/<nm>`, then `<properties>`, then a profile's properties, each
   * time the last such element; it finds nothing exactly when none of the three paths occurs.
   */
  lemma LookupOrder(elements: seq<Element>, nm: string, propertyName: string)
    ensures var r := Lookup(elements, nm, propertyName);
      && (LastAt(elements, "/project/" + nm).Some? ==> r == LastContentAt(elements, "/project/" + nm))
      && (LastAt(elements, "/project/" + nm).None? && LastAt(elements, "/project/properties/" + propertyName).Some? ==>
            r == LastContentAt(elements, "/project/properties/" + propertyName))
      && (r.None? <==> forall i :: 0 <= i < |elements| ==>
            elements[i].path !in ["/project/" + nm, "/project/properties/" + propertyName,
                                  "/project/profiles/profile/properties/" + propertyName])
  {
    LastAtIsLast(elements, "/project/" + nm);
    LastAtIsLast(elements, "/project/properties/" + propertyName);
    LastAtIsLast(elements, "/project/profiles/profile/properties/" + propertyName);
  }


  // ---------------------------------------------------------------------
  // Property names
  // ---------------------------------------------------------------------

  /** Ruby's `s.sub(/^p/, "")`: the first occurrence of `p` at the start of a line is removed. */
  function RemoveAtLineStart(s: string, p: string): string
  {
    RemoveAtLineStartFrom(s, p, 0)
  }

  /** `sub(/^p/, "")` with the search starting at index `i`. */
  function RemoveAtLineStartFrom(s: string, p: string, i: nat): string
    requires i <= |s|
    decreases |s| - i
  {
    if AtLineStart(s, i) && OccursAt(s, p, i) then s[..i] + s[i + |p|..]
    else if i == |s| then s
    else RemoveAtLineStartFrom(s, p, i + 1)
  }

  /** From `i` on, the search leaves `s` alone when `p` occurs at no line start. */
  lemma {:induction false} RemoveAtLineStartFromNone(s: string, p: string, i: nat)
    requires i <= |s|
    requires forall k :: i <= k <= |s| ==> !(AtLineStart(s, k) && OccursAt(s, p, k))
    ensures RemoveAtLineStartFrom(s, p, i) == s
    decreases |s| - i
  {
    if i < |s| {
      RemoveAtLineStartFromNone(s, p, i + 1);
    }
  }

  /** From `i` on, the search removes the leftmost occurrence of `p` at a line start, the one at `j`. */
  lemma {:induction false} RemoveAtLineStartFromFirst(s: string, p: string, i: nat, j: nat)
    requires i <= j <= |s| && AtLineStart(s, j) && OccursAt(s, p, j)
    requires forall k :: i <= k < j ==> !(AtLineStart(s, k) && OccursAt(s, p, k))
    ensures RemoveAtLineStartFrom(s, p, i) == s[..j] + s[j + |p|..]
    decreases |s| - i
  {
    if i < j {
      RemoveAtLineStartFromFirst(s, p, i + 1, j);
    }
  }

  /** `sub(/^p/, "")` leaves `s` alone without a match at a line start, and otherwise removes the leftmost one. */
  lemma RemoveAtLineStartLeftmost(s: string, p: string)
    ensures (forall k :: 0 <= k <= |s| ==> !(AtLineStart(s, k) && OccursAt(s, p, k))) ==> RemoveAtLineStart(s, p) == s
    ensures forall j :: (0 <= j <= |s| && AtLineStart(s, j) && OccursAt(s, p, j) &&
                         forall k :: 0 <= k < j ==> !(AtLineStart(s, k) && OccursAt(s, p, k))) ==>
      RemoveAtLineStart(s, p) == s[..j] + s[j + |p|..]
  {
    if forall k :: 0 <= k <= |s| ==> !(AtLineStart(s, k) && OccursAt(s, p, k)) {
      RemoveAtLineStartFromNone(s, p, 0);
    }
    forall j | 0 <= j <= |s| && AtLineStart(s, j) && OccursAt(s, p, j) &&
               forall k :: 0 <= k < j ==> !(AtLineStart(s, k) && OccursAt(s, p, k))
      ensures RemoveAtLineStart(s, p) == s[..j] + s[j + |p|..]
    {
      RemoveAtLineStartFromFirst(s, p, 0, j);
    }
  }

  /** `sanitize_property_name`: a leading `pom.` and then a leading `project.` are dropped. */
  function SanitizePropertyName(propertyName: string): string
  {
    RemoveAtLineStart(RemoveAtLineStart(propertyName, "pom."), "project.")
  }

  /** On a one-line name, `/^p/` matches only at the very start. */
  lemma RemoveAtStart(s: string, p: string)
    requires '\n' !in s
    ensures StartsWith(s, p) ==> RemoveAtLineStart(s, p) == s[|p|..]
    ensures !StartsWith(s, p) ==> RemoveAtLineStart(s, p) == s
  {
    RemoveAtLineStartLeftmost(s, p);
    forall k | 0 < k <= |s| ensures !AtLineStart(s, k) {
      assert s[k - 1] in s;
    }
  }

  /** `pom.project.version` names `version`, `pom.x` and `project.x` name `x`, other one-line names are kept. */
  lemma SanitizeDropsPrefixes(propertyName: string)
    requires '\n' !in propertyName
    ensures var afterPom := if StartsWith(propertyName, "pom.") then propertyName[4..] else propertyName;
      SanitizePropertyName(propertyName) == (if StartsWith(afterPom, "project.") then afterPom[8..] else afterPom)
  {
    RemoveAtStart(propertyName, "pom.");
    var afterPom := RemoveAtLineStart(propertyName, "pom.");
    assert forall c :: c in afterPom ==> c in propertyName;
    RemoveAtStart(afterPom, "project.");
  }

  /** A character of the class `[./_-]` of `DOT_SEPARATOR_REGEX`. */
  predicate IsNameSeparator(c: char) { c == '.' || c == '/' || c == '_' || c == '-' }

  /**
   * `DOT_SEPARATOR_REGEX` matches the dot at `i`: a dot not followed by a run of digits that
   * ends at a separator character or at the end of a line (so the dots inside `1.2.3` are kept).
   */
  predicate IsSeparatorDot(s: string, i: nat)
    requires i < |s|
  {
    var run := DigitRun(s, i + 1);
    s[i] == '.' && !(run > 0 && ((i + 1 + run < |s| && IsNameSeparator(s[i + 1 + run])) || AtLineEnd(s, i + 1 + run)))
  }

  /** The first dot `DOT_SEPARATOR_REGEX` matches, from `i` on. */
  function SeparatorDotFrom(s: string, i: nat): (r: Option<nat>)
    requires i <= |s|
    ensures r.Some? ==> i <= r.value < |s| && IsSeparatorDot(s, r.value)
    ensures r.Some? ==> forall k :: i <= k < r.value ==> !IsSeparatorDot(s, k)
    ensures r.None? ==> forall k :: i <= k < |s| ==> !IsSeparatorDot(s, k)
    decreases |s| - i
  {
    if i == |s| then None
    else if IsSeparatorDot(s, i) then Some(i)
    else SeparatorDotFrom(s, i + 1)
  }

  /** The positions of the dots of `s`; each substitution removes one of them. */
  function Dots(s: string): set<nat>
  {
    set i: nat | i < |s| && s[i] == '.'
  }

  /** `nm.sub(DOT_SEPARATOR_REGEX, "/")` once a match is known to exist at `i`. */
  function Substitute(nm: string, i: nat): (r: string)
    requires i < |nm| && nm[i] == '.'
    ensures |r| == |nm| && r[i] == '/' && forall k :: 0 <= k < |nm| && k != i ==> r[k] == nm[k]
    ensures Dots(r) < Dots(nm)
  {
    var r := nm[i := '/'];
    assert i in Dots(nm) - Dots(r);
    r
  }

  /**
   * The name candidates the loop of `property_details` tries, from `nm` on: each next one replaces
   * the first separator dot of the previous one by `/`; the last one has no separator dot left.
   */
  function Candidates(nm: string): (c: seq<string>)
    ensures |c| >= 1 && c[0] == nm && SeparatorDotFrom(c[|c| - 1], 0).None?
    ensures forall k :: 0 <= k < |c| - 1 ==>
      SeparatorDotFrom(c[k], 0).Some? && c[k + 1] == Substitute(c[k], SeparatorDotFrom(c[k], 0).value)
    decreases Dots(nm)
  {
    match SeparatorDotFrom(nm, 0)
    case None => [nm]
    case Some(i) => [nm] + Candidates(Substitute(nm, i))
  }

  /** The node the loop of `property_details` stops at, from candidate `nm` on. */
  function NodeFor(elements: seq<Element>, nm: string, propertyName: string): Option<string>
    decreases Dots(nm)
  {
    match Lookup(elements, nm, propertyName)
    case Some(c) => Some(c)
    case None =>
      match SeparatorDotFrom(nm, 0)
      case None => None
      case Some(i) => NodeFor(elements, Substitute(nm, i), propertyName)
  }

  /** The lookup of the first candidate that finds a node, and none when none does. */
  function FirstHit(elements: seq<Element>, candidates: seq<string>, propertyName: string): (r: Option<string>)
    ensures r.None? ==> forall k :: 0 <= k < |candidates| ==> Lookup(elements, candidates[k], propertyName).None?
    ensures r.Some? ==> exists k :: (0 <= k < |candidates| && r == Lookup(elements, candidates[k], propertyName) &&
                                     forall j :: 0 <= j < k ==> Lookup(elements, candidates[j], propertyName).None?)
  {
    if candidates == [] then None
    else
      match Lookup(elements, candidates[0], propertyName)
      case Some(c) => Some(c)
      case None =>
        var r := FirstHit(elements, candidates[1..], propertyName);
        assert r.Some? ==> exists k :: (1 <= k < |candidates| && r == Lookup(elements, candidates[k], propertyName) &&
                                        forall j :: 0 <= j < k ==> Lookup(elements, candidates[j], propertyName).None?) by {
          if r.Some? {
            var k :| 0 <= k < |candidates| - 1 && r == Lookup(elements, candidates[1..][k], propertyName) &&
              forall j :: 0 <= j < k ==> Lookup(elements, candidates[1..][j], propertyName).None?;
            assert candidates[k + 1] == candidates[1..][k];
            forall j | 0 <= j < k + 1 ensures Lookup(elements, candidates[j], propertyName).None? {
              if j > 0 { assert candidates[j] == candidates[1..][j - 1]; }
            }
          }
        }
        assert r.None? ==> forall k :: 0 <= k < |candidates| ==> Lookup(elements, candidates[k], propertyName).None? by {
          if r.None? {
            forall k | 0 <= k < |candidates| ensures Lookup(elements, candidates[k], propertyName).None? {
              if k > 0 { assert candidates[k] == candidates[1..][k - 1]; }
            }
          }
        }
        r
  }

  /** The loop's node is the first hit among the candidates it tries. */
  lemma {:induction false} NodeForFirstHit(elements: seq<Element>, nm: string, propertyName: string)
    ensures NodeFor(elements, nm, propertyName) == FirstHit(elements, Candidates(nm), propertyName)
    decreases Dots(nm)
  {
    var c := Candidates(nm);
    assert c[0] == nm;
    if Lookup(elements, nm, propertyName).None? {
      match SeparatorDotFrom(nm, 0)
      case None =>
        assert c == [nm];
        assert c[1..] == [];
      case Some(i) =>
        var next := Substitute(nm, i);
        NodeForFirstHit(elements, next, propertyName);
        assert c[1..] == Candidates(next);
    }
  }

  /** A property under `<properties>` is found in the first round, before any dot is substituted. */
  lemma PropertiesFoundFirst(elements: seq<Element>, nm: string, propertyName: string)
    requires LastAt(elements, "/project/properties/" + propertyName).Some?
    ensures NodeFor(elements, nm, propertyName) == Lookup(elements, nm, propertyName)
    ensures NodeFor(elements, nm, propertyName).Some?
  {
  }

  /**
   * The loop of `property_details`: each round looks the three paths up and stops at a node;
   * otherwise it substitutes the first separator dot of `nm`, or gives up when none is left.
   */
  method FindNode(pom: Pom, propertyName: string) returns (node: Option<string>)
    ensures node == NodeFor(pom.elements, SanitizePropertyName(propertyName), propertyName)
  {
    var nm := SanitizePropertyName(propertyName);
    while true
      invariant NodeFor(pom.elements, nm, propertyName) == NodeFor(pom.elements, SanitizePropertyName(propertyName), propertyName)
      decreases Dots(nm)
    {
      var candidate := Lookup(pom.elements, nm, propertyName);
      if candidate.Some? {
        return candidate;
      }
      var dot := SeparatorDotFrom(nm, 0);
      if dot.None? {
        return None;
      }
      nm := Substitute(nm, dot.value);
    }
  }

  // ---------------------------------------------------------------------
  // Parent POMs
  // ---------------------------------------------------------------------

  /** The paths `parent_pom` reads the parent's coordinates from. */
  const ParentGroupPath := "/project/parent/groupId"
  const ParentArtifactPath := "/project/parent/artifactId"
  const ParentVersionPath := "/project/parent/version"

  /**
   * `parent_pom`: none without a parent `groupId` and `artifactId`; the repository's own POM of
   * that name when there is one; otherwise a remote POM, fetched only for a version without a comma.
   */
  function ParentPom(finder: Finder, pom: Pom): Option<Pom>
  {
    var group := FirstContentAt(pom.elements, ParentGroupPath);
    var artifact := FirstContentAt(pom.elements, ParentArtifactPath);
    var version := FirstContentAt(pom.elements, ParentVersionPath);
    if group.None? || artifact.None? then None
    else
      var name := Strip(group.value) + ":" + Strip(artifact.value);
      if name in finder.internal then Some(finder.internal[name])
      // stripping does not change whether the version holds a comma (`StripKeepsChar`)
      else if version.None? || ',' in version.value then None
      else finder.fetchRemote(Strip(group.value), Strip(artifact.value), Strip(version.value), finder.repositoryUrls(pom))
  }

  /**
   * `parent_pom` finds no parent without a `groupId` and an `artifactId`, prefers the repository's
   * own POM of that name, and otherwise fetches one only for a version without a comma.
   */
  lemma ParentPomChoice(finder: Finder, pom: Pom)
    ensures var group := FirstContentAt(pom.elements, ParentGroupPath);
      var artifact := FirstContentAt(pom.elements, ParentArtifactPath);
      var version := FirstContentAt(pom.elements, ParentVersionPath);
      var r := ParentPom(finder, pom);
      && (group.None? || artifact.None? ==> r.None?)
      && (group.Some? && artifact.Some? && Strip(group.value) + ":" + Strip(artifact.value) in finder.internal ==>
            r == Some(finder.internal[Strip(group.value) + ":" + Strip(artifact.value)]))
      && ((r.Some? && Strip(group.value) + ":" + Strip(artifact.value) !in finder.internal) ==>
            version.Some? && ',' !in Strip(version.value) &&
            r == finder.fetchRemote(Strip(group.value), Strip(artifact.value), Strip(version.value), finder.repositoryUrls(pom)))
  {
    var version := FirstContentAt(pom.elements, ParentVersionPath);
    if version.Some? {
      StripKeepsChar(version.value, ',');
    }
  }


  // ---------------------------------------------------------------------
  // Property details
  // ---------------------------------------------------------------------

  /** `expression.slice(2..-2)`: the text between `${` and the closing character. */
  function Referenced(expression: string): string
    requires StartsWith(expression, "${")
  {
    if |expression| >= 3 then expression[2..|expression| - 1] else ""
  }

  /** The message `extract_value_from_expression` raises for a self reference. */
  function RecursiveMessage(expression: string): string
  {
    "Error trying to resolve recursive expression '" + expression + "'."
  }

  /** The error Ruby raises when the resolution never ends (`stack level too deep`). */
  const TooDeep: DependabotError := SystemStackError

  /** `Strip` leaves no whitespace or NUL at either end. */
  predicate IsStrippedValue(s: string)
  {
    s == [] || (!IsStripped(s[0]) && !IsStripped(s[|s| - 1]))
  }

  /** What one call of `property_details` does: answer, or resolve a property (maybe in the parent POM). */
  datatype Step =
    | Answer(result: Result<Option<PropertyDetails>, DependabotError>)
    | Resolve(propertyName: string, pom: Pom)

  /** A found value is stripped and is not itself a `${...}` expression. */
  predicate IsPlain(r: Result<Option<PropertyDetails>, DependabotError>)
  {
    r.Ok? && r.value.Some? ==> IsStrippedValue(r.value.value.value) && !StartsWith(r.value.value.value, "${")
  }

  /**
   * One call of `property_details` up to its recursive call: a value starting with `${` is a
   * reference (an error when it names the property itself), any other found value is the answer
   * (stripped, with the POM's name), and without a node the parent POM is asked, if there is one.
   */
  function NextStep(finder: Finder, propertyName: string, pom: Pom): (s: Step)
    ensures s.Answer? ==> IsPlain(s.result)
    ensures s.Answer? && s.result.Ok? && s.result.value.Some? ==> s.result.value.value.file == pom.name
    ensures var node := NodeFor(pom.elements, SanitizePropertyName(propertyName), propertyName);
      node.Some? && StartsWith(Strip(node.value), "${") && Strip(node.value) != "${" + propertyName + "}" ==>
      s == Resolve(Referenced(Strip(node.value)), pom)
    ensures var node := NodeFor(pom.elements, SanitizePropertyName(propertyName), propertyName);
      node.None? ==>
      s == if ParentPom(finder, pom).Some? then Resolve(propertyName, ParentPom(finder, pom).value) else Answer(Ok(None))
  {
    match NodeFor(pom.elements, SanitizePropertyName(propertyName), propertyName)
    case Some(content) =>
      var expression := Strip(content);
      if StartsWith(expression, "${") then
        if expression == "${" + propertyName + "}" then
          Answer(Raise(DependencyFileNotParseable(pom.name, RecursiveMessage(expression))))
        else Resolve(Referenced(expression), pom)
      else
        StripIsInside(content);
        Answer(Ok(Some(PropertyDetails(pom.name, expression))))
    case None =>
      match ParentPom(finder, pom)
      case None => Answer(Ok(None))
      case Some(parent) => Resolve(propertyName, parent)
  }

  /** Repeating `step` until it answers, at most `fuel` times. */
  function Resolution(step: (string, Pom) -> Step, propertyName: string, pom: Pom, fuel: nat)
    : Result<Option<PropertyDetails>, DependabotError>
    decreases fuel
  {
    if fuel == 0 then Raise(TooDeep)
    else
      match step(propertyName, pom)
      case Answer(result) => result
      case Resolve(name, next) => Resolution(step, name, next, fuel - 1)
  }

  /** If every answer of `step` is plain, so is the resolution (or it runs out of fuel). */
  lemma {:induction false} ResolutionPlain(step: (string, Pom) -> Step, propertyName: string, pom: Pom, fuel: nat)
    requires forall n, p :: step(n, p).Answer? ==> IsPlain(step(n, p).result)
    ensures IsPlain(Resolution(step, propertyName, pom, fuel))
    decreases fuel
  {
    if fuel > 0 {
      match step(propertyName, pom)
      case Answer(_) =>
      case Resolve(name, next) => ResolutionPlain(step, name, next, fuel - 1);
    }
  }

  /** With more fuel a resolution that did not run out gives the same answer. */
  lemma {:induction false} ResolutionFuelMonotone(step: (string, Pom) -> Step, propertyName: string, pom: Pom, fuel: nat, more: nat)
    requires fuel <= more
    requires Resolution(step, propertyName, pom, fuel) != Raise(TooDeep)
    ensures Resolution(step, propertyName, pom, more) == Resolution(step, propertyName, pom, fuel)
    decreases fuel
  {
    match step(propertyName, pom)
    case Answer(_) =>
    case Resolve(name, next) =>
      ResolutionFuelMonotone(step, name, next, fuel - 1, more - 1);
  }

  /**
   * `property_details` with at most `fuel` nested resolutions (through a `${...}` value or a
   * parent POM). A found value is always stripped and never itself an expression.
   */
  function Details(finder: Finder, propertyName: string, pom: Pom, fuel: nat): (r: Result<Option<PropertyDetails>, DependabotError>)
    ensures IsPlain(r)
  {
    var step := (n, p) => NextStep(finder, n, p);
    ResolutionPlain(step, propertyName, pom, fuel);
    Resolution(step, propertyName, pom, fuel)
  }

  /** One call of `property_details` before it recurses: the candidate loop, then the checks on the node. */
  method StepOf(finder: Finder, propertyName: string, pom: Pom) returns (s: Step)
    ensures s == NextStep(finder, propertyName, pom)
  {
    var node := FindNode(pom, propertyName);
    if node.Some? {
      var expression := Strip(node.value);
      if StartsWith(expression, "${") {
        if expression == "${" + propertyName + "}" {
          return Answer(Raise(DependencyFileNotParseable(pom.name, RecursiveMessage(expression))));
        }
        return Resolve(Referenced(expression), pom);
      }
      return Answer(Ok(Some(PropertyDetails(pom.name, expression))));
    }
    var parent := ParentPom(finder, pom);
    if parent.None? {
      return Answer(Ok(None));
    }
    return Resolve(propertyName, parent.value);
  }

  /** `property_details` and `extract_value_from_expression`, recursing as the source does. */
  method PropertyDetailsOf(finder: Finder, propertyName: string, pom: Pom, fuel: nat)
    returns (r: Result<Option<PropertyDetails>, DependabotError>)
    ensures r == Details(finder, propertyName, pom, fuel)
    decreases fuel
  {
    if fuel == 0 {
      DetailsUnfold(finder, propertyName, pom, fuel, NextStep(finder, propertyName, pom));
      return Raise(TooDeep);
    }
    var s := StepOf(finder, propertyName, pom);
    DetailsUnfold(finder, propertyName, pom, fuel, s);
    if s.Answer? {
      r := s.result;
    } else {
      r := PropertyDetailsOf(finder, s.propertyName, s.pom, fuel - 1);
    }
  }

  /** One call of `property_details`: the step's answer, or the resolution it asks for with one level less. */
  lemma DetailsUnfold(finder: Finder, propertyName: string, pom: Pom, fuel: nat, s: Step)
    requires s == NextStep(finder, propertyName, pom)
    ensures fuel == 0 ==> Details(finder, propertyName, pom, fuel) == Raise(TooDeep)
    ensures fuel > 0 && s.Answer? ==> Details(finder, propertyName, pom, fuel) == s.result
    ensures fuel > 0 && s.Resolve? ==> Details(finder, propertyName, pom, fuel) == Details(finder, s.propertyName, s.pom, fuel - 1)
  {
  }

  /** A property whose value is a reference to itself raises `DependencyFileNotParseable`, whatever the parents. */
  lemma SelfReferenceRaises(finder: Finder, propertyName: string, pom: Pom, fuel: nat)
    requires fuel > 0
    requires NodeFor(pom.elements, SanitizePropertyName(propertyName), propertyName).Some?
    requires Strip(NodeFor(pom.elements, SanitizePropertyName(propertyName), propertyName).value) == "${" + propertyName + "}"
    ensures Details(finder, propertyName, pom, fuel).Raise?
    ensures Details(finder, propertyName, pom, fuel).error.DependencyFileNotParseable?
    ensures Details(finder, propertyName, pom, fuel).error.fileName == pom.name
  {
    assert StartsWith("${" + propertyName + "}", "${");
    DetailsUnfold(finder, propertyName, pom, fuel, NextStep(finder, propertyName, pom));
  }

  /** A value `${other}` found in this POM is resolved as the property `other`, in the same POM. */
  lemma ReferenceFollowed(finder: Finder, propertyName: string, pom: Pom, fuel: nat)
    requires fuel > 0
    requires NodeFor(pom.elements, SanitizePropertyName(propertyName), propertyName).Some?
    requires StartsWith(Strip(NodeFor(pom.elements, SanitizePropertyName(propertyName), propertyName).value), "${")
    requires Strip(NodeFor(pom.elements, SanitizePropertyName(propertyName), propertyName).value) != "${" + propertyName + "}"
    ensures var expression := Strip(NodeFor(pom.elements, SanitizePropertyName(propertyName), propertyName).value);
      Details(finder, propertyName, pom, fuel) == Details(finder, Referenced(expression), pom, fuel - 1)
  {
    DetailsUnfold(finder, propertyName, pom, fuel, NextStep(finder, propertyName, pom));
  }

  /** A plain value found in this POM is returned stripped, with this POM's name. */
  lemma PlainValueReturned(finder: Finder, propertyName: string, pom: Pom, fuel: nat)
    requires fuel > 0
    requires NodeFor(pom.elements, SanitizePropertyName(propertyName), propertyName).Some?
    requires !StartsWith(Strip(NodeFor(pom.elements, SanitizePropertyName(propertyName), propertyName).value), "${")
    ensures Details(finder, propertyName, pom, fuel) ==
      Ok(Some(PropertyDetails(pom.name, Strip(NodeFor(pom.elements, SanitizePropertyName(propertyName), propertyName).value))))
  {
    DetailsUnfold(finder, propertyName, pom, fuel, NextStep(finder, propertyName, pom));
  }

  /** When no candidate finds a node, the answer is the parent's, or none without a parent. */
  lemma NotFoundAsksParent(finder: Finder, propertyName: string, pom: Pom, fuel: nat)
    requires fuel > 0
    requires FirstHit(pom.elements, Candidates(SanitizePropertyName(propertyName)), propertyName).None?
    ensures ParentPom(finder, pom).None? ==> Details(finder, propertyName, pom, fuel) == Ok(None)
    ensures ParentPom(finder, pom).Some? ==>
      Details(finder, propertyName, pom, fuel) == Details(finder, propertyName, ParentPom(finder, pom).value, fuel - 1)
  {
    NodeForFirstHit(pom.elements, SanitizePropertyName(propertyName), propertyName);
    DetailsUnfold(finder, propertyName, pom, fuel, NextStep(finder, propertyName, pom));
  }

  /** With more fuel the answer is unchanged, unless the smaller budget ran out. */
  lemma FuelMonotone(finder: Finder, propertyName: string, pom: Pom, fuel: nat, more: nat)
    requires fuel <= more
    requires Details(finder, propertyName, pom, fuel) != Raise(TooDeep)
    ensures Details(finder, propertyName, pom, more) == Details(finder, propertyName, pom, fuel)
  {
    ResolutionFuelMonotone((n, p) => NextStep(finder, n, p), propertyName, pom, fuel, more);
  }
}
