/**
 * The tool function built around a fragment loader: fetch a remote PDF
 * first when needed, call the loader, normalise its results into one text,
 * filter GitHub noise for the `github` prefix, cap the size for every
 * prefix, and announce in a leading note what was removed.
 */
module Pipeline {
  import opened Wrappers
  import opened Text
  import opened PathClassifier
  import opened NoiseFilter
  import opened Truncator
  import opened Normalizer

  /** `MAX_CONTENT_CHARS`. */
  const MaxContentChars: nat := 150000

  /** What a loader returns: a list of results, or a single one. */
  datatype Loaded = Many(items: seq<Item>) | One(item: Item)

  /** `if not isinstance(results, list): results = [results]`. */
  function AsList(l: Loaded): (items: seq<Item>)
    ensures l.One? ==> items == [l.item]
    ensures l.Many? ==> items == l.items
    ensures items == [] <==> l == Many([])
  {
    match l
    case Many(items) => items
    case One(item) => [item]
  }

  /** A `pdf` argument that names a remote document, which is downloaded before loading. */
  predicate IsRemotePdf(prefix: string, argument: string) {
    prefix == "pdf" && (StartsWith(argument, "http://") || StartsWith(argument, "https://"))
  }

  function FilterNote(skipped: nat): string {
    "Filtered " + Decimal(skipped) + " noise files (lock files, vendor dirs, etc.)"
  }

  function TruncateNote(before: nat, after: nat): string {
    "Truncated from " + Thousands(before) + " to " + Thousands(after) + " chars (" + Thousands(MaxContentChars) + " limit)"
  }

  /** The text after the filtering stage, and how many blocks it dropped (none unless the prefix is `github`). */
  function FilterStage(prefix: string, content: string, skip: string -> bool): (string, nat) {
    if prefix == "github" then
      var r := FilterWith(content, skip);
      (r.0, r.1.filesSkipped)
    else (content, 0)
  }

  /** The notes of the `[Protection: ...]` line, in the order they are written. */
  function Notes(skipped: nat, truncated: bool, before: nat, after: nat): seq<string> {
    var first := if skipped > 0 then [FilterNote(skipped)] else [];
    if truncated then first + [TruncateNote(before, after)] else first
  }

  /** The body prefixed by the protection line when there is something to report. */
  function Annotate(notes: seq<string>, body: string): string {
    if notes == [] then body else "[Protection: " + Join(notes, "; ") + "]\n\n" + body
  }

  /** The content-protection stages applied to the normalised text, with `skip` as the noise classifier. */
  function ProtectWith(prefix: string, content: string, skip: string -> bool): string {
    var (filtered, skipped) := FilterStage(prefix, content, skip);
    var (body, truncated) := TruncateContent(filtered, MaxContentChars);
    Annotate(Notes(skipped, truncated, |filtered|, |body|), body)
  }

  /**
   * `tool_fn`. The download and the loader are given as functions from the
   * argument to their outcome; a `Failure` carries the exception's message.
   */
  method ToolFn(prefix: string, argument: string,
                download: string -> Result<string, string>,
                loader: string -> Result<Loaded, string>) returns (out: string)
    ensures IsRemotePdf(prefix, argument) && download(argument).Failure? ==>
      out == "Error downloading PDF from " + argument + ": " + download(argument).error
    ensures var actual := if IsRemotePdf(prefix, argument) then download(argument) else Success(argument);
            actual.Success? && loader(actual.value).Failure? ==>
              out == "Error loading " + prefix + ":" + argument + ": " + loader(actual.value).error
    ensures var actual := if IsRemotePdf(prefix, argument) then download(argument) else Success(argument);
            actual.Success? && loader(actual.value).Success? ==>
              out == ProtectWith(prefix, NormalizedText(AsList(loader(actual.value).value), prefix, argument), ShouldSkipGithubFile)
  {
    var actualArg := argument;
    if IsRemotePdf(prefix, argument) {
      var fetched := download(argument);
      if fetched.Failure? {
        return "Error downloading PDF from " + argument + ": " + fetched.error;
      }
      actualArg := fetched.value;
    }
    var results := loader(actualArg);
    if results.Failure? {
      return "Error loading " + prefix + ":" + argument + ": " + results.error;
    }
    var content := Normalize(AsList(results.value), prefix, argument);
    out := Protect(prefix, content);
  }

  /** The protection stages as `tool_fn` runs them, one reassignment at a time. */
  method Protect(prefix: string, normalized: string) returns (content: string)
    ensures content == ProtectWith(prefix, normalized, ShouldSkipGithubFile)
  {
    ghost var stage := FilterStage(prefix, normalized, ShouldSkipGithubFile);
    content := normalized;
    var filterStats: Option<FilterStats> := None;
    if prefix == "github" {
      var stats;
      content, stats := FilterGithubContent(content);
      filterStats := Some(stats);
    }
    var skipped := if filterStats.Some? then filterStats.value.filesSkipped else 0;
    assert content == stage.0 && skipped == stage.1;
    var sizeBeforeTruncation := |content|;
    var truncation := TruncateContent(content, MaxContentChars);
    var wasTruncated := truncation.1;
    content := truncation.0;
    ghost var notes := Notes(skipped, wasTruncated, sizeBeforeTruncation, |content|);
    if (filterStats.Some? && filterStats.value.filesSkipped > 0) || wasTruncated {
      var summaryParts: seq<string> := [];
      if filterStats.Some? && filterStats.value.filesSkipped > 0 {
        summaryParts := summaryParts + [FilterNote(filterStats.value.filesSkipped)];
      }
      assert summaryParts == (if skipped > 0 then [FilterNote(skipped)] else []);
      if wasTruncated {
        summaryParts := summaryParts + [TruncateNote(sizeBeforeTruncation, |content|)];
      }
      content := "[Protection: " + Join(summaryParts, "; ") + "]\n\n" + content;
    } else {
      assert notes == [];
    }
  }

  /**
   * The shape of every successful output: the capped body, a prefix of at
   * most `MaxContentChars` characters of the filtered text, preceded by a
   * protection line exactly when blocks were dropped or the text was cut.
   */
  lemma ProtectShape(prefix: string, content: string, skip: string -> bool)
    ensures var (filtered, skipped) := FilterStage(prefix, content, skip);
            var (body, truncated) := TruncateContent(filtered, MaxContentChars);
            var out := ProtectWith(prefix, content, skip);
            && |body| <= MaxContentChars && body == filtered[..|body|]
            && EndsWith(out, body)
            && (out == body <==> skipped == 0 && |filtered| <= MaxContentChars)
  {
    var (filtered, skipped) := FilterStage(prefix, content, skip);
    var (body, truncated) := TruncateContent(filtered, MaxContentChars);
    var notes := Notes(skipped, truncated, |filtered|, |body|);
    if notes != [] {
      var out := "[Protection: " + Join(notes, "; ") + "]\n\n" + body;
      assert out[|out| - |body|..] == body;
    }
  }

  /** Outside `github`, text that fits the cap is returned exactly as normalised. */
  lemma NonGithubFitsUnchanged(prefix: string, content: string, skip: string -> bool)
    requires prefix != "github" && |content| <= MaxContentChars
    ensures ProtectWith(prefix, content, skip) == content
  {
  }

  /** For `github`, when nothing is dropped and the filtered text fits, the output is the filtered text with no note. */
  lemma GithubQuietFilter(content: string, skip: string -> bool)
    requires FilterWith(content, skip).1.filesSkipped == 0
    requires |FilterWith(content, skip).0| <= MaxContentChars
    ensures ProtectWith("github", content, skip) == FilterWith(content, skip).0
  {
  }

  /** When blocks are dropped, the note says how many, and it reports exactly the blocks the classifier flags. */
  lemma FilterNoteCounts(content: string, skip: string -> bool)
    ensures var skipped := FilterStage("github", content, skip).1;
            skipped == |FlaggedIndices(Parse(content).blocks, skip)|
  {
    FilterCounts(content, skip);
  }

  /** When the text is cut, the note reports the size before and after, and the body is strictly shorter. */
  lemma TruncateNoteSizes(prefix: string, content: string, skip: string -> bool)
    requires |FilterStage(prefix, content, skip).0| > MaxContentChars
    ensures var filtered := FilterStage(prefix, content, skip).0;
            var body := TruncateContent(filtered, MaxContentChars).0;
            && |body| < |filtered|
            && TruncateNote(|filtered|, |body|) in Notes(FilterStage(prefix, content, skip).1, true, |filtered|, |body|)
  {
  }

  /**
   * For `github` results that are plain fragments, the number of skipped
   * files in the note is the number of fragments whose stripped label the
   * classifier flags.
   */
  lemma GithubFragmentsCounted(items: seq<Item>, argument: string, skip: string -> bool)
    requires items != [] && PlainFragments(items, "github", argument)
    ensures FilterStage("github", NormalizedText(items, "github", argument), skip).1
            == |set k | 0 <= k < |items| && skip(Strip(SourceOf(items[k].source, "github", argument)))|
  {
    var content := NormalizedText(items, "github", argument);
    var bs := FragmentBlocks(items, "github", argument);
    NormalizeParse(items, "github", argument);
    FilterNoteCounts(content, skip);
    FlaggedSeparate(bs, skip);
    assert FlaggedIndices(bs, skip) == set k | 0 <= k < |items| && skip(Strip(SourceOf(items[k].source, "github", argument)));
  }
}
