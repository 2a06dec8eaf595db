/**
 * The GitHub noise-path classifier: a file is noise when its base name is a
 * lock or editor file, when one of its directory segments is a dependency,
 * build or tool directory, or when it ends with a generated or bulk-data
 * extension. Matching is exact and case-sensitive.
 */
module PathClassifier {
  import opened Text

  /** Base names of lock files and editor/VCS metadata files. */
  const SkipFiles: set<string> := {
    "package-lock.json", "yarn.lock", "pnpm-lock.yaml",
    "Cargo.lock", "poetry.lock", "Gemfile.lock", "composer.lock",
    "Pipfile.lock", "go.sum", "pubspec.lock", "mix.lock",
    ".gitignore", ".gitattributes", ".editorconfig",
    ".prettierrc", ".eslintrc", ".stylelintrc"
  }

  /** Noise directories, each written with its trailing slash. */
  const SkipDirs: set<string> := {
    "node_modules/", "vendor/", ".venv/", "venv/",
    "__pycache__/", ".git/", ".idea/", ".vscode/",
    "dist/", "build/", "target/", ".next/", ".nuxt/",
    "coverage/", ".tox/", ".mypy_cache/", ".pytest_cache/"
  }

  /** Suffixes of minified, generated, font/vector and bulk-data files. */
  const SkipExtensions: set<string> := {
    ".min.js", ".min.css", ".map", ".d.ts",
    ".svg", ".woff", ".woff2", ".ttf", ".eot", ".ico",
    ".csv", ".jsonl", ".ndjson"
  }

  /** POSIX `os.path.basename`: what follows the last slash. */
  function Basename(path: string): string {
    path[LastIndexOf(path, '/') + 1..]
  }

  /** The base name is the longest suffix of the path without a slash. */
  lemma BasenameSpec(path: string)
    ensures var name := Basename(path);
            && |name| <= |path| && name == path[|path| - |name|..]
            && '/' !in name
            && (|name| < |path| ==> path[|path| - |name| - 1] == '/')
  {
    var k := LastIndexOf(path, '/');
    var name := path[k + 1..];
    assert forall j :: 0 <= j < |name| ==> name[j] != '/' by {
      forall j | 0 <= j < |name| ensures name[j] != '/' {
        assert name[j] == path[k + 1 + j];
      }
    }
  }

  /** `filepath.replace('\\', '/').split('/')`: the path's segments, either slash separating. */
  function PathParts(path: string): seq<string> {
    SplitOn(ReplaceChar(path, '\\', '/'), '/')
  }

  predicate InSkippedDir(path: string) {
    exists d :: d in SkipDirs && RStripChar(d, '/') in PathParts(path)
  }

  predicate HasSkippedExtension(path: string) {
    exists e :: e in SkipExtensions && EndsWith(path, e)
  }

  /** `_should_skip_github_file`: the three checks in the order the code makes them. */
  predicate ShouldSkipGithubFile(path: string) {
    Basename(path) in SkipFiles || InSkippedDir(path) || HasSkippedExtension(path)
  }

  /**
   * The classification rules stated on the characters of the path: a noise
   * file name ends the path as a whole component; a noise directory name
   * (its entry without the trailing slash) stands between separators, with
   * backslashes counting as separators; or a noise extension ends the path.
   */
  ghost predicate IsNoisePath(path: string) {
    EndsInNoiseFile(path) || HasNoiseSegment(path) || HasSkippedExtension(path)
  }

  ghost predicate EndsInNoiseFile(path: string) {
    exists f :: f in SkipFiles && EndsWith(path, f) && (|f| == |path| || path[|path| - |f| - 1] == '/')
  }

  ghost predicate HasNoiseSegment(path: string) {
    exists d, i :: d in SkipDirs && SegmentAt(ReplaceChar(path, '\\', '/'), '/', DropLast(d), i)
  }

  /** `d` without its last character. */
  function DropLast(d: string): string {
    if d == [] then [] else d[..|d| - 1]
  }

  /** A directory entry: a nonempty, slash-free name followed by one slash. */
  predicate IsDirEntry(d: string) {
    |d| >= 2 && d[|d| - 1] == '/' && '/' !in DropLast(d)
  }

  lemma SkipFilesHaveNoSlash()
    ensures forall f :: f in SkipFiles ==> '/' !in f
  {
  }

  lemma SkipDirsAreEntries()
    ensures forall d :: d in SkipDirs ==> IsDirEntry(d)
  {
    assert IsDirEntry("node_modules/");
    assert IsDirEntry("vendor/");
    assert IsDirEntry(".venv/");
    assert IsDirEntry("venv/");
    assert IsDirEntry("__pycache__/");
    assert IsDirEntry(".git/");
    assert IsDirEntry(".idea/");
    assert IsDirEntry(".vscode/");
    assert IsDirEntry("dist/");
    assert IsDirEntry("build/");
    assert IsDirEntry("target/");
    assert IsDirEntry(".next/");
    assert IsDirEntry(".nuxt/");
    assert IsDirEntry("coverage/");
    assert IsDirEntry(".tox/");
    assert IsDirEntry(".mypy_cache/");
    assert IsDirEntry(".pytest_cache/");
  }

  /** `rstrip('/')` of a directory entry removes exactly its one trailing slash. */
  lemma RStripDirEntry(d: string)
    requires IsDirEntry(d)
    ensures RStripChar(d, '/') == DropLast(d)
  {
    assert d[..|d| - 1][|d| - 2] != '/';
  }

  /** A slash-free suffix that starts the path or follows a slash is the base name. */
  lemma BasenameIsLastComponent(path: string, f: string)
    requires '/' !in f && EndsWith(path, f)
    requires |f| == |path| || path[|path| - |f| - 1] == '/'
    ensures Basename(path) == f
  {
    BasenameSpec(path);
  }

  lemma BasenameRule(path: string)
    ensures Basename(path) in SkipFiles <==> EndsInNoiseFile(path)
  {
    if Basename(path) in SkipFiles {
      NoiseBasenameEnds(path);
    }
    if EndsInNoiseFile(path) {
      var f :| f in SkipFiles && EndsWith(path, f) && (|f| == |path| || path[|path| - |f| - 1] == '/');
      SkipFilesHaveNoSlash();
      BasenameIsLastComponent(path, f);
    }
  }

  lemma NoiseBasenameEnds(path: string)
    requires Basename(path) in SkipFiles
    ensures EndsInNoiseFile(path)
  {
    BasenameSpec(path);
    var f := Basename(path);
    assert EndsWith(path, f);
  }

  lemma DirectoryRule(path: string)
    ensures InSkippedDir(path) <==> HasNoiseSegment(path)
  {
    var slashed := ReplaceChar(path, '\\', '/');
    if d :| d in SkipDirs && RStripChar(d, '/') in PathParts(path) {
      SkipDirsAreEntries();
      RStripDirEntry(d);
      InSplitIff(slashed, '/', DropLast(d));
      var i :| SegmentAt(slashed, '/', DropLast(d), i);
    }
    if d, i :| d in SkipDirs && SegmentAt(slashed, '/', DropLast(d), i) {
      SkipDirsAreEntries();
      RStripDirEntry(d);
      InSplitIff(slashed, '/', DropLast(d));
      assert RStripChar(d, '/') in PathParts(path);
    }
  }

  /** The classifier flags a path exactly when one of the three character-level rules holds. */
  lemma ShouldSkipIff(path: string)
    ensures ShouldSkipGithubFile(path) <==> IsNoisePath(path)
  {
    BasenameRule(path);
    DirectoryRule(path);
  }
}
