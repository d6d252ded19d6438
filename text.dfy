/**
 * String operations of the Ruby and C# standard libraries, with the semantics
 * the modelled code relies on: Ruby's `split` drops trailing empty fields,
 * Ruby's `^` and `$` anchor at line boundaries, `strip` also removes NUL.
 * Case folding is ASCII only.
 */
module Text {

  import opened Wrappers

  predicate IsDigit(c: char) { '0' <= c <= '9' }

  predicate IsLowerAlpha(c: char) { 'a' <= c <= 'z' }

  /** The character class `[a-z0-9]`. */
  predicate IsLowerAlnum(c: char) { IsDigit(c) || IsLowerAlpha(c) }

  /** The character class `[0-9a-f]`. */
  predicate IsLowerHex(c: char) { IsDigit(c) || 'a' <= c <= 'f' }

  /** Ruby's `\w`. */
  predicate IsWordChar(c: char) { IsLowerAlnum(c) || 'A' <= c <= 'Z' || c == '_' }

  /** Ruby's `\s`. */
  predicate IsSpace(c: char)
  {
    c == ' ' || c == '\t' || c == '\n' || c == '\r' || c == '\U{000C}' || c == '\U{000B}'
  }

  /** The characters Ruby's `String#strip` removes. */
  predicate IsStripped(c: char) { IsSpace(c) || c == '\0' }

  function LowerChar(c: char): char
  {
    if 'A' <= c <= 'Z' then (c as int + 32) as char else c
  }

  /** `downcase` (ASCII letters only). */
  function Lower(s: string): (r: string)
    ensures |r| == |s|
    ensures forall i :: 0 <= i < |s| ==> r[i] == LowerChar(s[i])
  {
    if s == [] then [] else [LowerChar(s[0])] + Lower(s[1..])
  }

  lemma LowerIdempotent(s: string)
    ensures Lower(Lower(s)) == Lower(s)
  {
  }

  /** Case-insensitive equality (`casecmp?`, `StringComparison.OrdinalIgnoreCase`). */
  predicate EqualsIgnoreCase(a: string, b: string) { Lower(a) == Lower(b) }

  predicate StartsWith(s: string, p: string) { |p| <= |s| && s[..|p|] == p }

  predicate EndsWith(s: string, p: string) { |p| <= |s| && s[|s| - |p|..] == p }

  /** `include?` / `Contains`: `p` occurs somewhere in `s`. */
  predicate Contains(s: string, p: string)
  {
    exists i :: 0 <= i <= |s| && OccursAt(s, p, i)
  }

  /** `p` occurs in `s` starting at index `i`. */
  predicate OccursAt(s: string, p: string, i: int)
  {
    0 <= i && i + |p| <= |s| && s[i..i + |p|] == p
  }

  predicate ContainsChar(s: string, c: char) { c in s }

  lemma ContainsInLeft(a: string, b: string, p: string)
    requires Contains(a, p)
    ensures Contains(a + b, p)
  {
    var i :| 0 <= i <= |a| && OccursAt(a, p, i);
    assert (a + b)[i..i + |p|] == a[i..i + |p|];
    assert OccursAt(a + b, p, i);
  }

  lemma ContainsInRight(a: string, b: string, p: string)
    requires Contains(b, p)
    ensures Contains(a + b, p)
  {
    var i :| 0 <= i <= |b| && OccursAt(b, p, i);
    assert (a + b)[|a| + i..|a| + i + |p|] == b[i..i + |p|];
    assert OccursAt(a + b, p, |a| + i);
  }

  lemma ContainsSelf(s: string)
    ensures Contains(s, s)
  {
    assert s[0..|s|] == s;
    assert OccursAt(s, s, 0);
  }

  /** `delete(c)`: every occurrence of `c` removed. */
  function DeleteChar(s: string, c: char): (r: string)
    ensures |r| <= |s|
    ensures forall x :: x in r <==> x in s && x != c
  {
    if s == [] then []
    else if s[0] == c then DeleteChar(s[1..], c)
    else [s[0]] + DeleteChar(s[1..], c)
  }

  /** `ascii_only?`. */
  predicate AsciiOnly(s: string)
  {
    forall k :: 0 <= k < |s| ==> s[k] as int < 128
  }

  /** Removes every leading character satisfying `drop` (C#'s `TrimStart`). */
  function TrimStart(s: string, drop: char -> bool): (r: string)
    ensures |r| <= |s| && r == s[|s| - |r|..]
    ensures r != [] ==> !drop(r[0])
  {
    if s != [] && drop(s[0]) then
      var r := TrimStart(s[1..], drop);
      TailSuffix(s, |s| - 1 - |r|);
      r
    else s
  }

  /** A suffix of the tail is a suffix of the whole. */
  lemma TailSuffix<T>(s: seq<T>, k: nat)
    requires s != [] && k <= |s| - 1
    ensures s[1..][k..] == s[k + 1..]
  {
  }

  /** A prefix of the front is a prefix of the whole. */
  lemma FrontPrefix<T>(s: seq<T>, k: nat)
    requires s != [] && k <= |s| - 1
    ensures s[..|s| - 1][..k] == s[..k]
  {
  }

  /** Removes every trailing character satisfying `drop` (C#'s `TrimEnd`). */
  function TrimEnd(s: string, drop: char -> bool): (r: string)
    ensures |r| <= |s| && r == s[..|r|]
    ensures r != [] ==> !drop(r[|r| - 1])
  {
    if s != [] && drop(s[|s| - 1]) then
      var r := TrimEnd(s[..|s| - 1], drop);
      FrontPrefix(s, |r|);
      r
    else s
  }

  /** Ruby's `lstrip`. */
  function StripStart(s: string): string
  {
    if s != [] && IsStripped(s[0]) then StripStart(s[1..]) else s
  }

  /** `lstrip` keeps a suffix of its input that does not start with whitespace or NUL. */
  lemma {:induction false} StripStartIsSuffix(s: string)
    ensures var r := StripStart(s);
      |r| <= |s| && r == s[|s| - |r|..] && (r != [] ==> !IsStripped(r[0]))
  {
    if s != [] && IsStripped(s[0]) {
      StripStartIsSuffix(s[1..]);
    }
  }

  /** Ruby's `rstrip`. */
  function StripEnd(s: string): string
  {
    if s != [] && IsStripped(s[|s| - 1]) then StripEnd(s[..|s| - 1]) else s
  }

  /** `rstrip` keeps a prefix of its input that does not end with whitespace or NUL. */
  lemma {:induction false} StripEndIsPrefix(s: string)
    ensures var r := StripEnd(s);
      |r| <= |s| && r == s[..|r|] && (r != [] ==> !IsStripped(r[|r| - 1]))
  {
    if s != [] && IsStripped(s[|s| - 1]) {
      StripEndIsPrefix(s[..|s| - 1]);
    }
  }

  /** Ruby's `strip`. */
  function Strip(s: string): string
  {
    StripEnd(StripStart(s))
  }

  /** Stripping never removes a character that is not whitespace or NUL. */
  lemma {:induction false} StripKeepsChar(s: string, c: char)
    requires !IsStripped(c)
    ensures c in Strip(s) <==> c in s
  {
    StripStartKeepsChar(s, c);
    StripEndKeepsChar(StripStart(s), c);
  }

  lemma {:induction false} StripStartKeepsChar(s: string, c: char)
    requires !IsStripped(c)
    ensures c in StripStart(s) <==> c in s
  {
    if s != [] && IsStripped(s[0]) {
      StripStartKeepsChar(s[1..], c);
      assert s == [s[0]] + s[1..];
    }
  }

  lemma {:induction false} StripEndKeepsChar(s: string, c: char)
    requires !IsStripped(c)
    ensures c in StripEnd(s) <==> c in s
  {
    if s != [] && IsStripped(s[|s| - 1]) {
      StripEndKeepsChar(s[..|s| - 1], c);
      assert s == s[..|s| - 1] + [s[|s| - 1]];
    }
  }

  /** `strip` keeps a run of the characters it was given, trimmed at both ends. */
  lemma StripIsInside(s: string)
    ensures var r := Strip(s);
      (forall ch :: ch in r ==> ch in s) && (r == [] || (!IsStripped(r[0]) && !IsStripped(r[|r| - 1])))
  {
    var t := StripStart(s);
    var r := StripEnd(t);
    StripStartIsSuffix(s);
    StripEndIsPrefix(t);
    assert forall ch :: ch in t ==> ch in s;
    assert r != [] ==> r[0] == t[0];
  }

  /** Every field of `s` between occurrences of any of the separator tokens, all kept. */
  function Fields(s: string, seps: seq<string>): (r: seq<string>)
    requires forall k :: 0 <= k < |seps| ==> seps[k] != []
    ensures |r| >= 1
    decreases |s|
  {
    if s == [] then [[]]
    else
      var t := FirstTokenAt(s, seps);
      if t.Some? then [[]] + Fields(s[|seps[t.value]|..], seps)
      else
        var rest := Fields(s[1..], seps);
        [[s[0]] + rest[0]] + rest[1..]
  }

  /** The index of the first separator token that `s` starts with, as a regex alternation tries them. */
  function FirstTokenAt(s: string, seps: seq<string>): (r: Option<nat>)
    requires forall k :: 0 <= k < |seps| ==> seps[k] != []
    ensures r.Some? ==> r.value < |seps| && StartsWith(s, seps[r.value]) && |s| >= 1
    ensures r.None? ==> forall k :: 0 <= k < |seps| ==> !StartsWith(s, seps[k])
  {
    if seps == [] then None
    else if StartsWith(s, seps[0]) then Some(0)
    else
      match FirstTokenAt(s, seps[1..])
      case None => None
      case Some(k) => Some(k + 1)
  }

  /** Drops the empty fields at the end, as Ruby's `split` does. */
  function DropTrailingEmpty(fields: seq<string>): (r: seq<string>)
    ensures |r| <= |fields| && r == fields[..|r|]
    ensures r != [] ==> r[|r| - 1] != []
    ensures forall k :: |r| <= k < |fields| ==> fields[k] == []
  {
    if fields == [] then []
    else if fields[|fields| - 1] == [] then DropTrailingEmpty(fields[..|fields| - 1])
    else fields
  }

  /** Ruby's `s.split(sep)` for a one-character separator. */
  function Split(s: string, sep: char): seq<string>
  {
    DropTrailingEmpty(Fields(s, [[sep]]))
  }

  /** Ruby's `s.split(/t1|t2|.../)` for an alternation of literal tokens. */
  function SplitTokens(s: string, seps: seq<string>): seq<string>
    requires forall k :: 0 <= k < |seps| ==> seps[k] != []
  {
    DropTrailingEmpty(Fields(s, seps))
  }

  /** The lines of `s` (the text between line breaks), as `^` and `$` see them. */
  function Lines(s: string): (r: seq<string>)
    ensures |r| >= 1
  {
    Fields(s, ["\n"])
  }

  /** Text without a line break is a single line. */
  lemma {:induction false} LinesOfOneLine(s: string)
    requires '\n' !in s
    ensures Lines(s) == [s]
  {
    if s != [] {
      assert s[..1] == [s[0]] && s[0] != '\n';
      assert !StartsWith(s, "\n");
      assert FirstTokenAt(s, ["\n"]).None?;
      LinesOfOneLine(s[1..]);
      assert s == [s[0]] + s[1..];
    }
  }

  function Join(parts: seq<string>, sep: string): string
  {
    if parts == [] then []
    else if |parts| == 1 then parts[0]
    else parts[0] + sep + Join(parts[1..], sep)
  }

  /** Replaces every non-overlapping occurrence of `from`, scanning left to right. */
  function ReplaceAll(s: string, from: string, to: string): string
    decreases |s|
  {
    if from == [] || |s| < |from| then s
    else if s[..|from|] == from then to + ReplaceAll(s[|from|..], from, to)
    else [s[0]] + ReplaceAll(s[1..], from, to)
  }

  /** The length of the run of digits starting at `i`. */
  function DigitRun(s: string, i: nat): (n: nat)
    requires i <= |s|
    ensures i + n <= |s|
    decreases |s| - i
  {
    if i < |s| && IsDigit(s[i]) then 1 + DigitRun(s, i + 1) else 0
  }

  /** The run found by `DigitRun` is made of digits and ends at a non-digit or at the end. */
  lemma {:induction false} DigitRunDigits(s: string, i: nat)
    requires i <= |s|
    ensures forall k :: i <= k < i + DigitRun(s, i) ==> IsDigit(s[k])
    ensures i + DigitRun(s, i) < |s| ==> !IsDigit(s[i + DigitRun(s, i)])
    decreases |s| - i
  {
    if i < |s| && IsDigit(s[i]) {
      DigitRunDigits(s, i + 1);
    }
  }

  /** A digit run is determined by its digits and the non-digit (or end) that closes it. */
  lemma {:induction false} DigitRunIs(s: string, i: nat, n: nat)
    requires i + n <= |s|
    requires forall k :: i <= k < i + n ==> IsDigit(s[k])
    requires i + n == |s| || !IsDigit(s[i + n])
    ensures DigitRun(s, i) == n
    decreases n
  {
    if n > 0 {
      DigitRunIs(s, i + 1, n - 1);
    }
  }

  /** Ruby's `$`: position `i` is at the end of a line. */
  predicate AtLineEnd(s: string, i: nat)
  {
    i == |s| || (i < |s| && s[i] == '\n')
  }

  /** Ruby's `^`: position `i` is at the start of a line. */
  predicate AtLineStart(s: string, i: nat)
  {
    i == 0 || (0 < i <= |s| && s[i - 1] == '\n')
  }

  /** The value of a string of decimal digits. */
  function DigitsValue(s: string): (n: nat)
    requires forall k :: 0 <= k < |s| ==> IsDigit(s[k])
    decreases |s|
  {
    if s == [] then 0
    else
      assert IsDigit(s[|s| - 1]);
      10 * DigitsValue(s[..|s| - 1]) + (s[|s| - 1] as int - '0' as int)
  }

  /** Ruby's `to_i` on a string that starts with its digits: the value of the leading digit run. */
  function ToI(s: string): nat
  {
    DigitRunDigits(s, 0);
    DigitsValue(s[..DigitRun(s, 0)])
  }

  /** Decimal rendering of a natural number, as string interpolation writes it. */
  function NatToString(n: nat): (r: string)
    ensures r != []
    ensures forall k :: 0 <= k < |r| ==> IsDigit(r[k])
    ensures DigitsValue(r) == n
    decreases n
  {
    if n < 10 then [('0' as int + n) as char]
    else
      var r := NatToString(n / 10) + [('0' as int + n % 10) as char];
      assert r[..|r| - 1] == NatToString(n / 10);
      r
  }
}
