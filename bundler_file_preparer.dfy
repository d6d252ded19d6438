/**
 * Bundler's `FilePreparer`: the list of files the Bundler parser works on. The gemspecs come
 * first, with their content sanitized; after them come the Gemfile, the files it may evaluate,
 * the lockfile, `.ruby-version`, the imported Ruby files and the `.specification` files.
 */
module BundlerFilePreparer {
  import opened Wrappers
  import opened Text
  import opened Versions

  /** A dependency file: its name (a path relative to the directory), content, directory and support flag. */
  datatype DependencyFile = DependencyFile(name: string, content: string, directory: string, supportFile: bool)

  // ---------------------------------------------------------------------
  // Selectors
  // ---------------------------------------------------------------------

  /** `dependency_files.find { |f| f.name == a } || dependency_files.find { |f| f.name == b }`. */
  function FirstNamedOr(files: seq<DependencyFile>, a: string, b: string): Option<DependencyFile>
  {
    match Find(files, (f: DependencyFile) => f.name == a)
    case Some(f) => Some(f)
    case None => Find(files, (f: DependencyFile) => f.name == b)
  }

  /**
   * The first file named `a` when there is one, otherwise the first file named `b`, and nothing
   * when neither name occurs.
   */
  lemma FirstNamedOrChoice(files: seq<DependencyFile>, a: string, b: string)
    ensures var r := FirstNamedOr(files, a, b);
      && (r.None? <==> forall k :: 0 <= k < |files| ==> files[k].name != a && files[k].name != b)
      && (r.Some? ==> exists i :: (0 <= i < |files| && files[i] == r.value &&
            ((r.value.name == a && forall j :: 0 <= j < i ==> files[j].name != a) ||
             (r.value.name == b && (forall k :: 0 <= k < |files| ==> files[k].name != a) &&
              forall j :: 0 <= j < i ==> files[j].name != b))))
  {
    var isA := (f: DependencyFile) => f.name == a;
    var isB := (f: DependencyFile) => f.name == b;
    var ia := FirstIndex(files, isA);
    if ia.None? {
      var ib := FirstIndex(files, isB);
      if ib.Some? {
        assert files[ib.value] == FirstNamedOr(files, a, b).value;
      }
    } else {
      assert files[ia.value] == FirstNamedOr(files, a, b).value;
    }
  }

  /** `gemfile`: `Gemfile`, else `gems.rb`. */
  function Gemfile(files: seq<DependencyFile>): Option<DependencyFile>
  {
    FirstNamedOr(files, "Gemfile", "gems.rb")
  }

  /** `lockfile`: `Gemfile.lock`, else `gems.locked`. */
  function Lockfile(files: seq<DependencyFile>): Option<DependencyFile>
  {
    FirstNamedOr(files, "Gemfile.lock", "gems.locked")
  }

  /** `ruby_version_file`: the first file named `.ruby-version`. */
  function RubyVersionFile(files: seq<DependencyFile>): Option<DependencyFile>
  {
    Find(files, (f: DependencyFile) => f.name == ".ruby-version")
  }

  /** `gemspecs`: the files whose names end in `.gemspec`, in order. */
  function Gemspecs(files: seq<DependencyFile>): (r: seq<DependencyFile>)
    ensures forall f :: f in r <==> f in files && EndsWith(f.name, ".gemspec")
    ensures IsSubsequence(r, files)
  {
    Filter(files, (f: DependencyFile) => EndsWith(f.name, ".gemspec"))
  }

  /** The names the seven `reject`s of `evaled_gemfiles` let through. */
  predicate IsEvaledGemfileName(name: string)
  {
    && !EndsWith(name, ".gemspec")
    && !EndsWith(name, ".specification")
    && !EndsWith(name, ".lock")
    && !EndsWith(name, ".ruby-version")
    && name != "Gemfile"
    && name != "gems.rb"
    && name != "gems.locked"
  }

  /**
   * `evaled_gemfiles`: the files none of the `reject`s removes, in order (a chain of `reject`s
   * keeps what no block rejects).
   */
  function EvaledGemfiles(files: seq<DependencyFile>): (r: seq<DependencyFile>)
    ensures forall f :: f in r <==> f in files && IsEvaledGemfileName(f.name)
    ensures IsSubsequence(r, files)
  {
    Filter(files, (f: DependencyFile) => IsEvaledGemfileName(f.name))
  }

  /** `specification_files`: the files whose names end in `.specification`, in order. */
  function SpecificationFiles(files: seq<DependencyFile>): (r: seq<DependencyFile>)
    ensures forall f :: f in r <==> f in files && EndsWith(f.name, ".specification")
    ensures IsSubsequence(r, files)
  {
    Filter(files, (f: DependencyFile) => EndsWith(f.name, ".specification"))
  }

  /** `imported_ruby_files`: the `.rb` files other than `gems.rb`, in order. */
  function ImportedRubyFiles(files: seq<DependencyFile>): (r: seq<DependencyFile>)
    ensures forall f :: f in r <==> f in files && EndsWith(f.name, ".rb") && f.name != "gems.rb"
    ensures IsSubsequence(r, files)
  {
    Filter(files, (f: DependencyFile) => EndsWith(f.name, ".rb") && f.name != "gems.rb")
  }

  /** `[x].compact` for one optional file. */
  function Compact(o: Option<DependencyFile>): (r: seq<DependencyFile>)
  {
    if o.Some? then [o.value] else []
  }

  /** The list added after the gemspecs, in its fixed order, without the files that were not found. */
  function SupportList(files: seq<DependencyFile>): seq<DependencyFile>
  {
    Compact(Gemfile(files)) + EvaledGemfiles(files) + Compact(Lockfile(files)) + Compact(RubyVersionFile(files)) +
    ImportedRubyFiles(files) + SpecificationFiles(files)
  }

  /** A gemspec with its content rewritten by `sanitize` (`GemspecSanitizer` with version 0.0.1). */
  function SanitizedGemspec(f: DependencyFile, sanitize: string -> string): DependencyFile
  {
    DependencyFile(f.name, sanitize(f.content), f.directory, f.supportFile)
  }

  // ---------------------------------------------------------------------
  // prepared_dependency_files
  // ---------------------------------------------------------------------

  /**
   * `prepared_dependency_files`: appends each gemspec, sanitized, then the rest of the files in
   * the fixed order.
   */
  method PreparedDependencyFiles(dependencyFiles: seq<DependencyFile>, sanitize: string -> string)
    returns (files: seq<DependencyFile>)
    ensures var gemspecs := Gemspecs(dependencyFiles);
      && |files| == |gemspecs| + |SupportList(dependencyFiles)|
      && (forall k :: 0 <= k < |gemspecs| ==> files[k] == SanitizedGemspec(gemspecs[k], sanitize))
      && files[|gemspecs|..] == SupportList(dependencyFiles)
  {
    var gemspecs := Gemspecs(dependencyFiles);
    files := [];
    var i := 0;
    while i < |gemspecs|
      invariant 0 <= i <= |gemspecs|
      invariant |files| == i
      invariant forall k :: 0 <= k < i ==> files[k] == SanitizedGemspec(gemspecs[k], sanitize)
    {
      var file := gemspecs[i];
      files := files + [DependencyFile(file.name, sanitize(file.content), file.directory, file.supportFile)];
      i := i + 1;
    }
    files := files + SupportList(dependencyFiles);
  }

  // ---------------------------------------------------------------------
  // Properties
  // ---------------------------------------------------------------------

  /** A name ending in a suffix ends in the suffix's last character. */
  lemma LastCharOfSuffix(name: string, a: string)
    requires a != []
    ensures EndsWith(name, a) ==> name != [] && name[|name| - 1] == a[|a| - 1]
  {
    if EndsWith(name, a) {
      assert name[|name| - |a|..][|a| - 1] == name[|name| - 1];
    }
  }

  /** Two suffixes with different last characters never end the same name. */
  lemma EndsDiffer(name: string, a: string, b: string)
    requires a != [] && b != [] && a[|a| - 1] != b[|b| - 1]
    ensures EndsWith(name, a) ==> !EndsWith(name, b)
  {
    LastCharOfSuffix(name, a);
    LastCharOfSuffix(name, b);
  }

  /** No file after the gemspecs is a gemspec: the sanitized gemspecs are the only ones in the list. */
  lemma NoGemspecAfterGemspecs(files: seq<DependencyFile>)
    ensures forall f :: f in SupportList(files) ==> !EndsWith(f.name, ".gemspec")
  {
    FirstNamedOrChoice(files, "Gemfile", "gems.rb");
    FirstNamedOrChoice(files, "Gemfile.lock", "gems.locked");
    forall f | f in SupportList(files) ensures !EndsWith(f.name, ".gemspec") {
      LastCharOfSuffix(f.name, ".gemspec");
      if f in ImportedRubyFiles(files) {
        LastCharOfSuffix(f.name, ".rb");
      } else if f in SpecificationFiles(files) {
        LastCharOfSuffix(f.name, ".specification");
      } else if f in EvaledGemfiles(files) {
      } else if f in Compact(RubyVersionFile(files)) {
        assert f.name == ".ruby-version";
      } else if f in Compact(Gemfile(files)) {
        assert f.name == "Gemfile" || f.name == "gems.rb";
      } else {
        assert f in Compact(Lockfile(files));
        assert f.name == "Gemfile.lock" || f.name == "gems.locked";
      }
    }
  }

  /** A `.rb` name other than `gems.rb` passes every `reject` of `evaled_gemfiles`. */
  lemma RubyNameIsEvaled(name: string)
    requires EndsWith(name, ".rb") && name != "gems.rb"
    ensures IsEvaledGemfileName(name)
  {
    LastCharOfSuffix(name, ".rb");
    EndsDiffer(name, ".rb", ".gemspec");
    EndsDiffer(name, ".rb", ".specification");
    EndsDiffer(name, ".rb", ".lock");
    EndsDiffer(name, ".rb", ".ruby-version");
  }

  /**
   * A `.rb` file other than `gems.rb` is both an evaluated Gemfile and an imported Ruby file, so
   * it is listed (at least) twice: nothing removes duplicates.
   */
  lemma RubyFileListedTwice(files: seq<DependencyFile>, f: DependencyFile)
    requires f in files && EndsWith(f.name, ".rb") && f.name != "gems.rb"
    ensures multiset(SupportList(files))[f] >= 2
  {
    RubyNameIsEvaled(f.name);
    var evaled := EvaledGemfiles(files);
    var imported := ImportedRubyFiles(files);
    var front := Compact(Gemfile(files)) + evaled + Compact(Lockfile(files)) + Compact(RubyVersionFile(files));
    assert f in front;
    assert f in imported;
    var list := front + imported + SpecificationFiles(files);
    assert multiset(list) == multiset(front) + multiset(imported) + multiset(SpecificationFiles(files));
  }
}
