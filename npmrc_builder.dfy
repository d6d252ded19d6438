/**
 * The `.npmrc` builder of the npm and yarn file updater: the registry and
 * authentication lines written for `npm_registry` credentials, the scope
 * lines of scoped registries, and the choice of a global registry.
 *
 * The dependency URLs (found through the registry finder or the lockfiles),
 * the scoped registries already declared in `.npmrc` and `.yarnrc`, and the
 * global registry read from `.yarnrc` are inputs. Base64 is a pair of
 * uninterpreted functions.
 */
module NpmrcBuilder {

  import opened Wrappers
  import opened Text
  import opened Versions

  const CentralRegistries: seq<string> := ["registry.npmjs.org", "registry.yarnpkg.com"]

  /** A credential hash: `type`, `registry` and the optional `token`. */
  datatype Credential = Credential(credType: string, registry: string, token: Option<string>)

  /** The dependency files the builder looks at, by role. */
  datatype Files = Files(
    npmrc: Option<string>,
    yarnrc: Option<string>,
    yarnLock: bool,
    packageLock: bool,
    shrinkwrap: bool,
    yarnrcGlobalRegistry: Option<string>)

  /** Everything the builder reads. */
  datatype Builder = Builder(
    files: Files,
    credentials: seq<Credential>,
    dependencyUrls: seq<string>,
    npmrcScopedRegistries: seq<string>,
    yarnrcScopedRegistries: seq<string>,
    encode64: string -> string,
    decode64: string -> string)

  /** `registry_credentials`. */
  function RegistryCredentials(b: Builder): (r: seq<Credential>)
    ensures forall c :: c in r <==> c in b.credentials && c.credType == "npm_registry"
    ensures IsSubsequence(r, b.credentials)
  {
    Filter(b.credentials, (c: Credential) => c.credType == "npm_registry")
  }

  /** The token authenticates with `user:password` (`_auth`), in the clear or already encoded. */
  predicate IsBasicAuth(token: string, b: Builder)
  {
    ':' in token || (AsciiOnly(b.decode64(token)) && ':' in b.decode64(token))
  }

  /** The `key=value` part of `auth_line`. */
  function Auth(token: string, b: Builder): (r: string)
    ensures IsBasicAuth(token, b) ==> StartsWith(r, "_auth=")
    ensures !IsBasicAuth(token, b) ==> r == "_authToken=" + token
  {
    if ':' in token then "_auth=" + DeleteChar(b.encode64(token), '\n')
    else if AsciiOnly(b.decode64(token)) && ':' in b.decode64(token) then "_auth=" + DeleteChar(token, '\n')
    else "_authToken=" + token
  }

  /** `registry.sub(%r{\/?$}, "/")`: a slash at the end of the first line, unless one is there. */
  function WithTrailingSlash(registry: string): (r: string)
    ensures '\n' !in registry ==> r == if EndsWith(registry, "/") then registry else registry + "/"
    ensures '\n' !in registry ==> EndsWith(r, "/")
  {
    var e := match FirstIndex(registry, (c: char) => c == '\n') case None => |registry| case Some(k) => k;
    assert '\n' !in registry ==> e == |registry|;
    if e > 0 && registry[e - 1] == '/' then registry
    else registry[..e] + "/" + registry[e..]
  }

  /** `auth_line`: the bare auth without a registry, else `//<registry>/:<auth>`. */
  function AuthLine(token: string, registry: Option<string>, b: Builder): (r: string)
    ensures registry.None? ==> r == Auth(token, b)
    ensures registry.Some? ==> r == "//" + WithTrailingSlash(registry.value) + ":" + Auth(token, b)
  {
    match registry
    case None => Auth(token, b)
    case Some(reg) => "//" + WithTrailingSlash(reg) + ":" + Auth(token, b)
  }

  /** An `_auth=` line asks for `always-auth`: it contains `auth=`. */
  lemma BasicAuthLineMentionsAuth(token: string, registry: Option<string>, b: Builder)
    requires IsBasicAuth(token, b)
    ensures Contains(AuthLine(token, registry, b), "auth=")
  {
    var a := Auth(token, b);
    assert a[1..6] == "auth=";
    assert OccursAt(a, "auth=", 1);
    if registry.Some? {
      ContainsInRight("//" + WithTrailingSlash(registry.value) + ":", a, "auth=");
      assert "//" + WithTrailingSlash(registry.value) + ":" + a == AuthLine(token, registry, b);
    }
  }

  /** A text whose only `=` is not preceded by `auth` does not contain `auth=`. */
  lemma OnlyEqualsSign(x: string, y: string)
    requires '=' !in x && '=' !in y
    requires |x| < 4 || x[|x| - 4..] != "auth"
    ensures !Contains(x + "=" + y, "auth=")
  {
    var s := x + "=" + y;
    forall i | 0 <= i <= |s|
      ensures !OccursAt(s, "auth=", i)
    {
      if i + 5 <= |s| {
        var w := s[i..i + 5];
        if i + 4 == |x| {
          assert w[..4] == x[|x| - 4..];
        } else if i + 4 < |x| {
          assert w[4] == x[i + 4];
        } else {
          assert w[4] == y[i + 4 - |x| - 1];
        }
      }
    }
  }

  /**
   * An `_authToken=` line does not: when neither the token nor the registry
   * holds `=`, the one `=` of the line follows `_authToken`.
   */
  lemma TokenAuthLineOmitsAuth(token: string, registry: Option<string>, b: Builder)
    requires !IsBasicAuth(token, b) && '=' !in token
    requires registry.Some? ==> '=' !in registry.value && '\n' !in registry.value
    ensures !Contains(AuthLine(token, registry, b), "auth=")
  {
    var prefix := if registry.Some? then "//" + WithTrailingSlash(registry.value) + ":" else "";
    if registry.Some? {
      RegistryPrefixHasNoEquals(registry.value);
    }
    assert AuthLine(token, registry, b) == prefix + ("_authToken=" + token);
    TokenLineSplit(prefix, token);
    OnlyEqualsSign(prefix + "_authToken", token);
  }

  /** The `//<registry>/:` prefix of a registry without `=` or line break holds no `=`. */
  lemma RegistryPrefixHasNoEquals(registry: string)
    requires '=' !in registry && '\n' !in registry
    ensures '=' !in "//" + WithTrailingSlash(registry) + ":"
  {
  }

  /** The `=` of `_authToken=` splits an auth line after `_authToken`. */
  lemma TokenLineSplit(prefix: string, token: string)
    requires '=' !in prefix
    ensures prefix + ("_authToken=" + token) == (prefix + "_authToken") + "=" + token
    ensures '=' !in prefix + "_authToken"
    ensures (prefix + "_authToken")[|prefix + "_authToken"| - 4..] == "oken"
  {
    assert "_authToken=" == "_authToken" + "=";
  }

  /** A registry credential may serve as the global registry (the block of `global_registry`). */
  predicate IsGlobalCandidate(cred: Credential, b: Builder)
  {
    && cred.registry !in CentralRegistries
    && (|| (|b.dependencyUrls| > 0 && forall url :: url in b.dependencyUrls ==> Contains(url, cred.registry))
        || (&& !(exists sr :: sr in b.npmrcScopedRegistries && Contains(sr, cred.registry))
            && !(exists sr :: sr in b.yarnrcScopedRegistries && Contains(sr, cred.registry))
            && exists url :: url in b.dependencyUrls && !Contains(url, "@") && !Contains(url, "%40") && Contains(url, cred.registry)))
  }

  /** `global_registry`: the first registry credential that qualifies; never a central registry. */
  function GlobalRegistry(b: Builder): (r: Option<Credential>)
    ensures r.Some? ==> r.value in RegistryCredentials(b) && IsGlobalCandidate(r.value, b)
    ensures r.Some? ==> r.value.registry !in CentralRegistries
    ensures r.None? ==> forall c :: c in RegistryCredentials(b) ==> !IsGlobalCandidate(c, b)
  {
    Find(RegistryCredentials(b), (c: Credential) => IsGlobalCandidate(c, b))
  }

  /** `registry = ...` needs a scheme: `https://` is added unless the registry starts with `http`. */
  function WithScheme(registry: string): (r: string)
    ensures StartsWith(r, "http")
    ensures StartsWith(registry, "http") ==> r == registry
    ensures EndsWith(r, registry)
  {
    if StartsWith(registry, "http") then registry
    else
      var r := "https://" + registry;
      assert r[..4] == "http";
      assert r[|r| - |registry|..] == registry;
      r
  }

  /** `npmrc_global_registry_auth_line`. */
  function NpmrcGlobalRegistryAuthLine(global: Credential, b: Builder): (r: string)
    ensures global.token.None? <==> r == ""
    ensures global.token.Some? ==> r == AuthLine(global.token.value, Some(global.registry), b) + "\n"
  {
    match global.token
    case None => ""
    case Some(token) => AuthLine(token, Some(global.registry), b) + "\n"
  }

  /** `yarnrc_global_registry_auth_line`: the yarn spelling of the three auth forms. */
  function YarnrcGlobalRegistryAuthLine(global: Credential, b: Builder): (r: string)
    ensures global.token.None? <==> r == ""
    ensures global.token.Some? && IsBasicAuth(global.token.value, b) ==> StartsWith(r, "npmAuthIdent: \"")
    ensures global.token.Some? && !IsBasicAuth(global.token.value, b) ==> r == "npmAuthToken: \"" + global.token.value + "\""
  {
    match global.token
    case None => ""
    case Some(token) =>
      if ':' in token then "npmAuthIdent: \"" + DeleteChar(b.encode64(token), '\n') + "\""
      else if AsciiOnly(b.decode64(token)) && ':' in b.decode64(token) then "npmAuthIdent: \"" + DeleteChar(token, '\n') + "\""
      else "npmAuthToken: \"" + token + "\""
  }

  /** `build_npmrc_content_from_lockfile`: a global registry line, its auth line and `always-auth`. */
  function BuildNpmrcContentFromLockfile(b: Builder): (r: Option<string>)
    ensures r.Some? <==> (b.files.yarnLock || b.files.packageLock || b.files.shrinkwrap) && GlobalRegistry(b).Some?
    ensures r.Some? ==> StartsWith(r.value, "registry = http") && EndsWith(r.value, "always-auth = true")
  {
    if !(b.files.yarnLock || b.files.packageLock || b.files.shrinkwrap) then None
    else
      match GlobalRegistry(b)
      case None => None
      case Some(global) =>
        var registry := WithScheme(global.registry);
        var content := "registry = " + registry + "\n" + NpmrcGlobalRegistryAuthLine(global, b) + "always-auth = true";
        assert content[..15] == "registry = " + registry[..4];
        assert content[|content| - 18..] == "always-auth = true";
        Some(content)
  }

  // A line holds `${` and, after it, `}`: the lines that `^.*\$\{.*\}.*` matches.
  predicate HasInterpolation(line: string)
  {
    exists i, j :: 0 <= i && i + 2 <= j < |line| && line[i] == '$' && line[i + 1] == '{' && line[j] == '}'
  }

  // `gsub(/^.*\$\{.*\}.*/, "")`: every line with an interpolation is emptied, the line breaks stay.
  function DropInterpolatedLines(content: string): (r: string)
    ensures '\n' !in content ==> r == if HasInterpolation(content) then "" else content
  {
    var lines := Lines(content);
    assert '\n' !in content ==> lines == [content] by {
      if '\n' !in content { LinesOfOneLine(content); }
    }
    Join(seq(|lines|, k requires 0 <= k < |lines| => if HasInterpolation(lines[k]) then "" else lines[k]), "\n")
  }

  /** `complete_npmrc_from_credentials`: the committed `.npmrc`, and the global registry lines when a lockfile names it. */
  function CompleteNpmrcFromCredentials(npmrc: string, b: Builder): (r: string)
    ensures StartsWith(r, Strip(DropInterpolatedLines(npmrc)) + "\n")
    ensures !(b.files.yarnLock || b.files.packageLock) || GlobalRegistry(b).None? ==>
      r == Strip(DropInterpolatedLines(npmrc)) + "\n"
    ensures (b.files.yarnLock || b.files.packageLock) && GlobalRegistry(b).Some? ==>
      var global := GlobalRegistry(b).value;
      r == Strip(DropInterpolatedLines(npmrc)) + "\n"
           + ("registry = " + WithScheme(global.registry) + "\n" + NpmrcGlobalRegistryAuthLine(global, b) + "always-auth = true\n")
  {
    var initial := Strip(DropInterpolatedLines(npmrc)) + "\n";
    if !(b.files.yarnLock || b.files.packageLock) then initial
    else
      match GlobalRegistry(b)
      case None => initial
      case Some(global) =>
        var tail := "registry = " + WithScheme(global.registry) + "\n" + NpmrcGlobalRegistryAuthLine(global, b) + "always-auth = true\n";
        var r := initial + tail;
        assert r[..|initial|] == initial;
        r
  }

  /** `build_npmrc_from_yarnrc`: the `.yarnrc` global registry, else the lockfile's. */
  function BuildNpmrcFromYarnrc(b: Builder): (r: Option<string>)
    ensures b.files.yarnrcGlobalRegistry.Some? ==> r == Some("registry = " + b.files.yarnrcGlobalRegistry.value + "\n")
    ensures b.files.yarnrcGlobalRegistry.None? ==> r == BuildNpmrcContentFromLockfile(b)
  {
    match b.files.yarnrcGlobalRegistry
    case Some(registry) => Some("registry = " + registry + "\n")
    case None => BuildNpmrcContentFromLockfile(b)
  }

  /** The `initial_content` of `npmrc_content`, chosen by which configuration file exists. */
  function InitialNpmrcContent(b: Builder): Option<string>
  {
    if b.files.npmrc.Some? then Some(CompleteNpmrcFromCredentials(b.files.npmrc.value, b))
    else if b.files.yarnrc.Some? then BuildNpmrcFromYarnrc(b)
    else BuildNpmrcContentFromLockfile(b)
  }

  /** The registry names of the other registry credentials (`map { ... } - [registry]`). */
  function OtherRegistries(b: Builder, registry: string): (r: seq<string>)
    ensures forall x :: x in r <==> x != registry && exists c :: c in RegistryCredentials(b) && c.registry == x
  {
    var creds := RegistryCredentials(b);
    var names := seq(|creds|, k requires 0 <= k < |creds| => creds[k].registry);
    assert forall c :: c in creds ==> c.registry in names by {
      forall c | c in creds ensures c.registry in names {
        var k :| 0 <= k < |creds| && creds[k] == c;
        assert names[k] == c.registry;
      }
    }
    Filter(names, (x: string) => x != registry)
  }

  /** A dependency URL served by `registry` and by no more specific registry credential. */
  predicate IsAffected(url: string, registry: string, others: seq<string>)
  {
    Contains(url, registry) && forall r :: r in others ==> !(Contains(r, registry) && Contains(url, r))
  }

  /** `url.split(/\%40|@/)[1]&.split(%r{\%2[fF]|/})&.first`: the scope of a scoped package URL. */
  function ScopeOf(url: string): Option<string>
  {
    var parts := SplitTokens(url, ["%40", "@"]);
    if |parts| < 2 then None
    else
      var pieces := SplitTokens(parts[1], ["%2f", "%2F", "/"]);
      if pieces == [] then None else Some(pieces[0])
  }

  /** The URLs `registry` serves, in order. */
  function AffectedUrls(b: Builder, registry: string): (r: seq<string>)
    ensures forall url :: url in r <==> url in b.dependencyUrls && IsAffected(url, registry, OtherRegistries(b, registry))
  {
    var others := OtherRegistries(b, registry);
    Filter(b.dependencyUrls, (url: string) => IsAffected(url, registry, others))
  }

  /** The scope of every URL, in order. */
  function ScopesOf(urls: seq<string>): (r: seq<Option<string>>)
    ensures |r| == |urls|
    ensures forall k :: 0 <= k < |urls| ==> r[k] == ScopeOf(urls[k])
  {
    seq(|urls|, k requires 0 <= k < |urls| => ScopeOf(urls[k]))
  }

  /** The `uniq` scopes of the affected URLs (nil for an unscoped one). */
  function AffectedScopes(b: Builder, registry: string): (r: seq<Option<string>>)
    ensures NoDuplicates(r)
    ensures forall s :: s in r <==> s in ScopesOf(AffectedUrls(b, registry))
  {
    Uniq(ScopesOf(AffectedUrls(b, registry)))
  }

  /** A scope is listed exactly when some affected URL has it. */
  lemma AffectedScopesAre(b: Builder, registry: string, s: Option<string>)
    ensures s in AffectedScopes(b, registry) <==>
      exists url :: url in b.dependencyUrls && IsAffected(url, registry, OtherRegistries(b, registry)) && ScopeOf(url) == s
  {
    var urls := AffectedUrls(b, registry);
    var scopes := ScopesOf(urls);
    if s in scopes {
      var k :| 0 <= k < |scopes| && scopes[k] == s;
      assert urls[k] in urls;
    }
    forall url | url in b.dependencyUrls && IsAffected(url, registry, OtherRegistries(b, registry)) && ScopeOf(url) == s
      ensures s in scopes
    {
      var k :| 0 <= k < |urls| && urls[k] == url;
      assert scopes[k] == s;
    }
  }

  /** The line that maps a scope to a registry. */
  function ScopeLine(scope: string, registry: string): string
  {
    "@" + scope + ":registry=https://" + registry
  }

  /**
   * `registry_scopes`: nil for a central registry and when an affected URL
   * has no scope; otherwise one line per distinct scope.
   */
  function RegistryScopes(b: Builder, registry: string): (r: Option<seq<string>>)
    ensures registry in CentralRegistries ==> r.None?
    ensures registry !in CentralRegistries ==> (r.None? <==> None in AffectedScopes(b, registry))
    ensures r.Some? ==> |r.value| == |AffectedScopes(b, registry)|
    ensures r.Some? ==> forall k :: 0 <= k < |r.value| ==>
      AffectedScopes(b, registry)[k].Some? && r.value[k] == ScopeLine(AffectedScopes(b, registry)[k].value, registry)
  {
    if registry in CentralRegistries then None
    else
      var scopes := AffectedScopes(b, registry);
      if None in scopes then None
      else
        assert forall k :: 0 <= k < |scopes| ==> scopes[k].Some? by {
          forall k | 0 <= k < |scopes| ensures scopes[k].Some? {
            assert scopes[k] in scopes;
          }
        }
        Some(seq(|scopes|, k requires 0 <= k < |scopes| => ScopeLine(scopes[k].value, registry)))
  }

  /** Distinct scopes give distinct scope lines, so `registry_scopes` lists no line twice. */
  lemma RegistryScopesDistinct(b: Builder, registry: string)
    requires RegistryScopes(b, registry).Some?
    ensures NoDuplicates(RegistryScopes(b, registry).value)
  {
    var lines := RegistryScopes(b, registry).value;
    var scopes := AffectedScopes(b, registry);
    forall i, j | 0 <= i < j < |lines|
      ensures lines[i] != lines[j]
    {
      assert lines[i] == ScopeLine(scopes[i].value, registry);
      assert lines[j] == ScopeLine(scopes[j].value, registry);
      assert scopes[i] != scopes[j];
      ScopeLineInjective(scopes[i].value, scopes[j].value, registry);
    }
  }

  /** A scope line determines its scope. */
  lemma ScopeLineInjective(s1: string, s2: string, registry: string)
    ensures ScopeLine(s1, registry) == ScopeLine(s2, registry) ==> s1 == s2
  {
    if ScopeLine(s1, registry) == ScopeLine(s2, registry) {
      assert |s1| == |s2|;
      assert s1 == ScopeLine(s1, registry)[1..1 + |s1|];
      assert s2 == ScopeLine(s2, registry)[1..1 + |s2|];
    }
  }

  /** The lines one registry credential contributes: its scope lines, then its auth line. */
  function CredentialLines(b: Builder, cred: Credential): seq<string>
  {
    (match RegistryScopes(b, cred.registry) case None => [] case Some(scopes) => scopes)
    + (match cred.token case None => [] case Some(token) => [AuthLine(token, Some(cred.registry), b)])
  }

  /** The lines of the first `n` registry credentials. */
  function CredentialLinesUpTo(b: Builder, creds: seq<Credential>, n: nat): seq<string>
    requires n <= |creds|
  {
    if n == 0 then [] else CredentialLinesUpTo(b, creds, n - 1) + CredentialLines(b, creds[n - 1])
  }

  /** One turn of the credential loop extends the lines by that credential's lines. */
  lemma CredentialLinesStep(b: Builder, creds: seq<Credential>, i: nat, scopes: Option<seq<string>>,
                            before: seq<string>, mid: seq<string>, after: seq<string>)
    requires i < |creds| && before == CredentialLinesUpTo(b, creds, i)
    requires scopes == RegistryScopes(b, creds[i].registry)
    requires mid == before + (if scopes.Some? then scopes.value else [])
    requires after == mid + (if creds[i].token.Some? then [AuthLine(creds[i].token.value, Some(creds[i].registry), b)] else [])
    ensures after == CredentialLinesUpTo(b, creds, i + 1)
  {
  }

  /** Some line asks for `always-auth`. */
  predicate NeedsAlwaysAuth(lines: seq<string>)
  {
    exists k :: 0 <= k < |lines| && Contains(lines[k], "auth=")
  }

  /**
   * `credential_lines_for_npmrc`: the lines of every registry credential in
   * order, after `always-auth = true` when one of them contains `auth=`.
   */
  method CredentialLinesForNpmrc(b: Builder) returns (lines: seq<string>)
    ensures var all := CredentialLinesUpTo(b, RegistryCredentials(b), |RegistryCredentials(b)|);
      lines == if NeedsAlwaysAuth(all) then ["always-auth = true"] + all else all
  {
    var creds := RegistryCredentials(b);
    lines := [];
    var i := 0;
    while i < |creds|
      invariant 0 <= i <= |creds|
      invariant lines == CredentialLinesUpTo(b, creds, i)
    {
      var cred := creds[i];
      ghost var before := lines;
      var scopes := RegistryScopes(b, cred.registry);
      if scopes.Some? {
        lines := lines + scopes.value;
      }
      ghost var mid := lines;
      if cred.token.Some? {
        lines := lines + [AuthLine(cred.token.value, Some(cred.registry), b)];
      }
      CredentialLinesStep(b, creds, i, scopes, before, mid, lines);
      i := i + 1;
    }
    if NeedsAlwaysAuth(lines) {
      lines := ["always-auth = true"] + lines;
    }
  }

  /** `[final_content, line].reject(&:empty?).join("\n")`, skipped when the line is already there. */
  function AddLine(content: string, line: string): (r: string)
    ensures Contains(r, line)
    ensures StartsWith(r, content)
    ensures Contains(content, line) ==> r == content
    ensures !Contains(content, line) ==> r == if content == "" then line else content + "\n" + line
  {
    if Contains(content, line) then
      assert content[..|content|] == content;
      content
    else if content == [] then
      ContainsSelf(line);
      line
    else
      var r := content + "\n" + line;
      ContainsSelf(line);
      ContainsInRight(content + "\n", line, line);
      assert r[..|content|] == content;
      r
  }

  /** The lines added one after the other. */
  function AddLines(content: string, lines: seq<string>): string
    decreases |lines|
  {
    if lines == [] then content else AddLines(AddLine(content, lines[0]), lines[1..])
  }

  /** Adding lines keeps what was there in front and leaves every added line in the content. */
  lemma {:induction false} AddLinesKeepsAll(content: string, lines: seq<string>)
    ensures StartsWith(AddLines(content, lines), content)
    ensures forall line :: line in lines ==> Contains(AddLines(content, lines), line)
    decreases |lines|
  {
    if lines != [] {
      var next := AddLine(content, lines[0]);
      AddLinesKeepsAll(next, lines[1..]);
      var r := AddLines(content, lines);
      assert r[..|next|] == next;
      assert r[..|content|] == next[..|content|];
      assert Contains(r, lines[0]) by {
        var i :| 0 <= i <= |next| && OccursAt(next, lines[0], i);
        assert r[i..i + |lines[0]|] == next[i..i + |lines[0]|];
        assert OccursAt(r, lines[0], i);
      }
      assert forall line :: line in lines ==> line == lines[0] || line in lines[1..];
    }
  }

  /** The loop of `npmrc_content` over the credential lines. */
  method AppendMissingLines(start: string, lines: seq<string>) returns (content: string)
    ensures content == AddLines(start, lines)
  {
    content := start;
    var i := 0;
    while i < |lines|
      invariant 0 <= i <= |lines|
      invariant AddLines(content, lines[i..]) == AddLines(start, lines)
    {
      assert lines[i..][1..] == lines[i + 1..];
      content := AddLine(content, lines[i]);
      i := i + 1;
    }
    assert lines[i..] == [];
  }

  /**
   * `npmrc_content`: the initial content (or `""`), and with registry
   * credentials each credential line not yet present appended on its own line.
   */
  method NpmrcContent(b: Builder) returns (content: string)
    ensures var initial := match InitialNpmrcContent(b) case None => "" case Some(c) => c;
      && (RegistryCredentials(b) == [] ==> content == initial)
      && StartsWith(content, initial)
    ensures RegistryCredentials(b) != [] ==>
      forall line :: line in CredentialLinesUpTo(b, RegistryCredentials(b), |RegistryCredentials(b)|) ==>
        Contains(content, line)
    ensures RegistryCredentials(b) != [] ==>
      var initial := match InitialNpmrcContent(b) case None => "" case Some(c) => c;
      var all := CredentialLinesUpTo(b, RegistryCredentials(b), |RegistryCredentials(b)|);
      content == AddLines(initial, if NeedsAlwaysAuth(all) then ["always-auth = true"] + all else all)
  {
    var initial := InitialNpmrcContent(b);
    var start := if initial.Some? then initial.value else "";
    if RegistryCredentials(b) == [] {
      assert start[..|start|] == start;
      return start;
    }
    var lines := CredentialLinesForNpmrc(b);
    content := AppendMissingLines(start, lines);
    AddLinesKeepsAll(start, lines);
    var all := CredentialLinesUpTo(b, RegistryCredentials(b), |RegistryCredentials(b)|);
    assert forall line :: line in all ==> line in lines;
  }
}
