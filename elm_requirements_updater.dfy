/**
 * The Elm requirements updater. Given the requirements of one dependency and
 * the latest resolvable version, each requirement string is kept when the
 * version already satisfies it, widened when it is an `A <= v < B` range,
 * replaced by the version when it is a bare `x.y.z`, and pinned exactly
 * otherwise.
 *
 * `Elm::Version.correct?` and `Elm::Requirement#satisfied_by?` are not part
 * of this model; they are parameters. A version's `to_s` is its own text.
 */
module ElmRequirementsUpdater {

  import opened Wrappers
  import opened Text

  /** One requirement hash: only `:requirement` is read or written, the other keys travel along. */
  datatype Requirement = Requirement(requirement: string, file: string, groups: seq<string>, source: Option<string>)

  /** The two groups of a match of `(\d+\.\d+\.\d+) <= v < (\d+\.\d+\.\d+)`. */
  datatype RangeParts = RangeParts(minimum: string, maximum: string)

  const RangeSeparator: string := " <= v < "

  /**
   * The length of a match of `\d+\.\d+\.\d+` starting at `i`. Every token that
   * follows a `\d+` in both patterns of the updater is a non-digit, so each
   * digit run of a match is the whole run found at that position.
   */
  function TripleAt(s: string, i: nat): (r: Option<nat>)
    requires i <= |s|
    ensures r.Some? ==> 5 <= r.value && i + r.value <= |s|
  {
    var a := DigitRun(s, i);
    if a == 0 || i + a == |s| || s[i + a] != '.' then None
    else
      var b := DigitRun(s, i + a + 1);
      if b == 0 || i + a + 1 + b == |s| || s[i + a + 1 + b] != '.' then None
      else
        var c := DigitRun(s, i + a + b + 2);
        if c == 0 then None else Some(a + b + c + 2)
  }

  /** `t` as a whole is `\d+\.\d+\.\d+`: the `SINGLE_VERSION_REGEX` anchored with `\A` and `\z`. */
  predicate IsSingleVersion(t: string)
  {
    TripleAt(t, 0) == Some(|t|)
  }

  /** The groups of a range match that starts exactly at `i`, if one does. */
  function RangeAt(s: string, i: nat): Option<RangeParts>
    requires i <= |s|
  {
    match TripleAt(s, i)
    case None => None
    case Some(n) =>
      if i + n + |RangeSeparator| <= |s| && s[i + n..i + n + |RangeSeparator|] == RangeSeparator then
        var j := i + n + |RangeSeparator|;
        match TripleAt(s, j)
        case None => None
        case Some(m) => Some(RangeParts(s[i..i + n], s[j..j + m]))
      else None
  }

  /** The start of the leftmost range match at or after `i`. */
  function FirstRangeFrom(s: string, i: nat): (r: Option<nat>)
    requires i <= |s|
    ensures r.Some? ==> i <= r.value <= |s| && RangeAt(s, r.value).Some?
    ensures r.Some? ==> forall k :: i <= k < r.value ==> RangeAt(s, k).None?
    ensures r.None? ==> forall k :: i <= k <= |s| ==> RangeAt(s, k).None?
    decreases |s| - i
  {
    if RangeAt(s, i).Some? then Some(i)
    else if i == |s| then None
    else FirstRangeFrom(s, i + 1)
  }

  /** `RANGE_REQUIREMENT_REGEX.match(s)`: the groups of the leftmost match, unanchored. */
  function RangeMatch(s: string): Option<RangeParts>
  {
    match FirstRangeFrom(s, 0)
    case None => None
    case Some(i) => RangeAt(s, i)
  }

  /** The major component, as `version.to_s.split(".").map(&:to_i)` reads it. */
  function Major(v: string): nat
  {
    var fields := Split(v, '.');
    if fields == [] then 0 else ToI(fields[0])
  }

  /** `require_range`: keeps the minimum and caps below the next major. */
  function RequireRange(minimum: string, v: string): string
  {
    minimum + RangeSeparator + NatToString(Major(v) + 1) + ".0.0"
  }

  /** `require_exactly`. */
  function RequireExactly(v: string): string
  {
    v + " <= v <= " + v
  }

  /** `update_requirement`: the first applicable rule, in the source's order. */
  function UpdateRequirement(oldReq: string, v: string, satisfied: (string, string) -> bool): (r: string)
    ensures satisfied(oldReq, v) ==> r == oldReq
    ensures !satisfied(oldReq, v) && RangeMatch(oldReq).Some? ==>
      RangeMatch(r) == Some(RangeParts(RangeMatch(oldReq).value.minimum, NatToString(Major(v) + 1) + ".0.0"))
    ensures !satisfied(oldReq, v) && RangeMatch(oldReq).None? && IsSingleVersion(oldReq) ==> r == v
    ensures !satisfied(oldReq, v) && RangeMatch(oldReq).None? && !IsSingleVersion(oldReq) ==>
      r == RequireExactly(v)
  {
    if satisfied(oldReq, v) then oldReq
    else
      match RangeMatch(oldReq)
      case Some(parts) =>
        RangeMatchParts(oldReq);
        RangeRoundTrip(parts.minimum, v);
        RequireRange(parts.minimum, v)
      case None =>
        if IsSingleVersion(oldReq) then v else RequireExactly(v)
  }

  /**
   * `updated_requirements`. The constructor keeps the version only when it is
   * present and `correct?`; without it the requirements are returned as given.
   */
  function UpdatedRequirements(
    reqs: seq<Requirement>, latest: Option<string>,
    correct: string -> bool, satisfied: (string, string) -> bool): (r: seq<Requirement>)
    ensures latest.None? || !correct(latest.value) ==> r == reqs
    ensures |r| == |reqs|
    ensures forall i :: 0 <= i < |r| ==> r[i] == reqs[i].(requirement := r[i].requirement)
    ensures latest.Some? && correct(latest.value) ==>
      forall i :: 0 <= i < |r| ==> r[i].requirement == UpdateRequirement(reqs[i].requirement, latest.value, satisfied)
  {
    if latest.None? || !correct(latest.value) then
      reqs
    else
      seq(|reqs|, i requires 0 <= i < |reqs| =>
        reqs[i].(requirement := UpdateRequirement(reqs[i].requirement, latest.value, satisfied)))
  }

  // Proofs about the pattern matcher.

  /** A triple found inside `s` is a single version on its own. */
  lemma TripleSlice(s: string, i: nat, n: nat)
    requires i <= |s| && TripleAt(s, i) == Some(n)
    ensures IsSingleVersion(s[i..i + n])
  {
    var t := s[i..i + n];
    var a := DigitRun(s, i);
    var b := DigitRun(s, i + a + 1);
    var c := DigitRun(s, i + a + b + 2);
    TripleParts(s, i);
    DigitRunDigits(s, i);
    DigitRunDigits(s, i + a + 1);
    DigitRunDigits(s, i + a + b + 2);
    assert forall k :: 0 <= k < n ==> t[k] == s[i + k];
    TripleFromRuns(t, a, b, c);
  }

  /** Three digit runs of lengths `a`, `b`, `c`, separated by dots, filling `t`, make a single version. */
  lemma TripleFromRuns(t: string, a: nat, b: nat, c: nat)
    requires 0 < a && 0 < b && 0 < c && a + b + c + 2 == |t|
    requires forall k :: 0 <= k < a ==> IsDigit(t[k])
    requires t[a] == '.'
    requires forall k :: a + 1 <= k < a + 1 + b ==> IsDigit(t[k])
    requires t[a + 1 + b] == '.'
    requires forall k :: a + b + 2 <= k < |t| ==> IsDigit(t[k])
    ensures IsSingleVersion(t)
  {
    DigitRunIs(t, 0, a);
    DigitRunIs(t, a + 1, b);
    DigitRunIs(t, a + b + 2, c);
    TripleFromParts(t, 0, a, b, c);
  }

  /** Both groups of a range match are versions on their own. */
  lemma RangeMatchParts(s: string)
    requires RangeMatch(s).Some?
    ensures IsSingleVersion(RangeMatch(s).value.minimum) && IsSingleVersion(RangeMatch(s).value.maximum)
  {
    var i := FirstRangeFrom(s, 0).value;
    var p := RangeAt(s, i).value;
    assert RangeMatch(s).value == p;
    RangeAtParts(s, i);
  }

  lemma RangeAtParts(s: string, i: nat)
    requires i <= |s| && RangeAt(s, i).Some?
    ensures IsSingleVersion(RangeAt(s, i).value.minimum) && IsSingleVersion(RangeAt(s, i).value.maximum)
  {
    var n := TripleAt(s, i).value;
    var j := i + n + |RangeSeparator|;
    TripleSlice(s, i, n);
    TripleSlice(s, j, TripleAt(s, j).value);
  }

  /** A digit run read inside a copy of `t` embedded in `s` is the run read in `t`. */
  lemma DigitRunShift(t: string, i: nat, s: string, off: nat)
    requires i <= |t| && off + |t| <= |s| && s[off..off + |t|] == t
    requires off + |t| == |s| || !IsDigit(s[off + |t|])
    ensures DigitRun(s, off + i) == DigitRun(t, i)
  {
    var n := DigitRun(t, i);
    DigitRunDigits(t, i);
    forall k | off + i <= k < off + i + n
      ensures IsDigit(s[k])
    {
      assert s[k] == s[off..off + |t|][k - off];
    }
    if i + n < |t| {
      assert s[off + i + n] == s[off..off + |t|][i + n];
    }
    DigitRunIs(s, off + i, n);
  }

  /** The parts of a triple match: three non-empty digit runs separated by dots. */
  lemma TripleParts(s: string, i: nat)
    requires i <= |s| && TripleAt(s, i).Some?
    ensures var a := DigitRun(s, i);
      var b := DigitRun(s, i + a + 1);
      0 < a && 0 < b && i + a + 1 + b < |s| && s[i + a] == '.' && s[i + a + 1 + b] == '.' &&
      var c := DigitRun(s, i + a + b + 2);
      0 < c && TripleAt(s, i) == Some(a + b + c + 2)
  {
  }

  /** A single version copied into `s` before a non-digit (or the end) is found again where it was put. */
  lemma TripleEmbedded(t: string, s: string, off: nat)
    requires IsSingleVersion(t)
    requires off + |t| <= |s| && s[off..off + |t|] == t
    requires off + |t| == |s| || !IsDigit(s[off + |t|])
    ensures TripleAt(s, off) == Some(|t|)
  {
    TripleParts(t, 0);
    var a := DigitRun(t, 0);
    var b := DigitRun(t, a + 1);
    var c := DigitRun(t, a + b + 2);
    DigitRunShift(t, 0, s, off);
    DigitRunShift(t, a + 1, s, off);
    DigitRunShift(t, a + b + 2, s, off);
    assert s[off + a] == t[a];
    assert s[off + a + 1 + b] == t[a + 1 + b];
    TripleFromParts(s, off, a, b, c);
  }

  /** Three non-empty digit runs separated by dots form a triple match. */
  lemma TripleFromParts(s: string, i: nat, a: nat, b: nat, c: nat)
    requires i + a + 1 + b < |s|
    requires DigitRun(s, i) == a && 0 < a && s[i + a] == '.'
    requires DigitRun(s, i + a + 1) == b && 0 < b && s[i + a + 1 + b] == '.'
    requires DigitRun(s, i + a + b + 2) == c && 0 < c
    ensures TripleAt(s, i) == Some(a + b + c + 2)
  {
  }

  /** The text `require_range` writes is matched again, with the same minimum and the new cap. */
  lemma RangeRoundTrip(minimum: string, v: string)
    requires IsSingleVersion(minimum)
    ensures RangeMatch(RequireRange(minimum, v)) == Some(RangeParts(minimum, NatToString(Major(v) + 1) + ".0.0"))
  {
    var r := RequireRange(minimum, v);
    RangeAtRequireRange(minimum, v);
    assert FirstRangeFrom(r, 0) == Some(0);
  }

  /** The range `require_range` writes is matched at its first character. */
  lemma RangeAtRequireRange(minimum: string, v: string)
    requires IsSingleVersion(minimum)
    ensures RangeAt(RequireRange(minimum, v), 0) == Some(RangeParts(minimum, NatToString(Major(v) + 1) + ".0.0"))
  {
    var x := NatToString(Major(v) + 1);
    CapIsSingleVersion(x);
    assert RequireRange(minimum, v) == minimum + RangeSeparator + (x + ".0.0");
    RangeAtBuilt(minimum, x + ".0.0");
  }

  /** `A <= v < B` built from two versions is matched at its first character. */
  lemma RangeAtBuilt(minimum: string, cap: string)
    requires IsSingleVersion(minimum) && IsSingleVersion(cap)
    ensures RangeAt(minimum + RangeSeparator + cap, 0) == Some(RangeParts(minimum, cap))
  {
    var r := minimum + RangeSeparator + cap;
    var j := |minimum| + |RangeSeparator|;
    Concat3(minimum, RangeSeparator, cap);
    assert r[|minimum|] == ' ';
    TripleEmbedded(minimum, r, 0);
    TripleEmbedded(cap, r, j);
    RangeAtFromStart(r, minimum, cap);
  }

  /** `RangeAtIs` at the first character, with the two triples named. */
  lemma RangeAtFromStart(s: string, minimum: string, cap: string)
    requires |minimum| + |RangeSeparator| + |cap| <= |s|
    requires s[0..|minimum|] == minimum && TripleAt(s, 0) == Some(|minimum|)
    requires s[|minimum|..|minimum| + |RangeSeparator|] == RangeSeparator
    requires var j := |minimum| + |RangeSeparator|;
      s[j..j + |cap|] == cap && TripleAt(s, j) == Some(|cap|)
    ensures RangeAt(s, 0) == Some(RangeParts(minimum, cap))
  {
    RangeAtIs(s, 0, |minimum|, |cap|);
  }

  /** The three pieces of `a + b + c`, found again by slicing. */
  lemma Concat3<T>(a: seq<T>, b: seq<T>, c: seq<T>)
    ensures var r := a + b + c;
      && |r| == |a| + |b| + |c|
      && r[0..|a|] == a
      && r[|a|..|a| + |b|] == b
      && r[|a| + |b|..|a| + |b| + |c|] == c
      && (b != [] ==> r[|a|] == b[0])
  {
    var r := a + b + c;
    assert r[0..|a|] == a;
    assert r[|a|..|a| + |b|] == b;
    assert r[|a| + |b|..|a| + |b| + |c|] == c;
  }

  /** A triple, the separator and a triple, starting at `i`, are a range match there. */
  lemma RangeAtIs(s: string, i: nat, n: nat, m: nat)
    requires i + n + |RangeSeparator| + m <= |s|
    requires TripleAt(s, i) == Some(n)
    requires s[i + n..i + n + |RangeSeparator|] == RangeSeparator
    requires TripleAt(s, i + n + |RangeSeparator|) == Some(m)
    ensures RangeAt(s, i) == Some(RangeParts(s[i..i + n], s[i + n + |RangeSeparator|..i + n + |RangeSeparator| + m]))
  {
  }

  /** `N.0.0` for a decimal `N` is a version on its own. */
  lemma CapIsSingleVersion(x: string)
    requires x != [] && forall k :: 0 <= k < |x| ==> IsDigit(x[k])
    ensures IsSingleVersion(x + ".0.0")
  {
    var cap := x + ".0.0";
    DigitRunIs(cap, 0, |x|);
    DigitRunIs(cap, |x| + 1, 1);
    DigitRunIs(cap, |x| + 3, 1);
    TripleFromParts(cap, 0, |x|, 1, 1);
  }
}
