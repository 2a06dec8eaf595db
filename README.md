# Content protection of the fragment-bridge tool, in Dafny

`llm_tools_fragment_bridge.py` exposes fragment loaders (`yt`, `github`,
`pdf`) as tools. Each tool function takes the loader's results, turns them
into a single text and applies "content protection" to it:

- for `github`, the whole repository arrives as one text made of blocks,
  each introduced by a marker line `--- Source: <path> ---`; blocks for lock
  files, dependency and build directories, and generated or bulk-data files
  are dropped;
- for every prefix, the text is capped at 150,000 characters, cut preferably
  right before a block marker and otherwise at a line break;
- when anything was dropped or cut, a `[Protection: ...]` line says so.

This project models that core and proves what it promises. The modules
follow the code's pieces:

| module (file) | models |
|---|---|
| `Text` (`text.dfy`) | the Python `str` operations the code relies on: `strip`, `split`, `join`, `rfind`, `rstrip`, `replace`, `endswith`, slicing, `str(n)` and `f"{n:,}"` |
| `PathClassifier` (`path_classifier.dfy`) | the three noise sets and `_should_skip_github_file` |
| `NoiseFilter` (`noise_filter.dfy`) | the marker split of `re.split` and `_filter_github_content` |
| `Truncator` (`truncator.dfy`) | `_truncate_content` |
| `Normalizer` (`normalizer.dfy`) | the loop of `tool_fn` that renders the loader's results |
| `Pipeline` (`pipeline.dfy`) | the rest of `tool_fn`: download and loader errors, the filter for `github`, the cap, the protection line |

The classifier is a function, and the truncator is a function on the text.
The two loops that build lists in the source are methods with loop
invariants, each proved equal to a specification function. The first is the
filter loop over `(path, body)` pairs; the second is the normaliser's loop
over results. `tool_fn` is a method too. It reassigns `content` step by step,
and its result is tied to the specification function `ProtectWith`.

The noise filter's specification (`FilterWith`) and the protection stage
(`ProtectWith`) take the classifier as a parameter `skip`. The methods pass
`ShouldSkipGithubFile`, so `FilterGithubContent` and `ToolFn` are stated for
the real classifier. The lemmas about counting and ordering hold for any
classifier. `PathClassifier.ShouldSkipIff` then characterises the real one.

The regular expression `--- Source: ([^\n]+) ---\n` is modelled by a marker
scanner rather than a regex engine:

- `MatchMarker` recognises a marker at the start of a text. The captured
  path runs from after `--- Source: ` to the ` ---` that ends the first line.
  It must be nonempty and cannot contain a line break, as `[^\n]+` demands.
- `FirstMarker` finds the leftmost marker.
- `Parse` splits at successive markers the way `re.split` does with one
  capturing group.

`ParseRender` proves that the split loses nothing. `MatchHeader` proves that
every well-formed marker is recognised with its own path.

The test `last_source > max_chars * 0.8` compares an integer with a double.
It is modelled as `5 * last_source > 4 * max_chars`. Write m for the limit.
The double nearest to 0.8 is 0.8 + 0.8·2⁻⁵⁴, and for m below 2⁵⁰ the
rounded product `m * 0.8` differs from 4m/5 by less than 0.19.
- When 4m/5 is an integer the product is exactly 4m/5.
- Otherwise the product may fall a little above or a little below 4m/5 (for
  m = 43 it is just below 34.4). But 4m/5 is then at least 0.2 away from
  every integer, so the product lies strictly between ⌊4m/5⌋ and ⌊4m/5⌋ + 1.

Either way an integer exceeds the product exactly when it exceeds 4m/5.
For the limit the tool uses, 150,000, the product is exactly 120,000.0.

Two behaviours of the code worth knowing:

- A preamble made only of whitespace is dropped; only a preamble with some
  non-space character is kept.
- The surviving blocks are joined with a blank line, but each block's body
  still ends with the blank line that separated it from the next marker. So
  a GitHub text with no noise and more than one block does not come back
  unchanged: every kept block but the last gains two line breaks
  (`NoiseFilter.FilterCleanText`). Clean text comes back unchanged only when
  it holds a single block.

## Model

| member | source | states |
|---|---|---|
| `Text.StripSpec` | llm_tools_fragment_bridge.py:145 | `s.strip()` is empty exactly when `s` is all whitespace (Python's `isspace`); otherwise it is the stretch of `s` between its first and last non-space characters |
| `Text.TrimStartSpec` | llm_tools_fragment_bridge.py:156 | dropping leading whitespace leaves a suffix starting with a non-space character, and everything dropped is whitespace |
| `Text.TrimEndSpec` | llm_tools_fragment_bridge.py:156 | dropping trailing whitespace leaves a prefix ending with a non-space character, and everything dropped is whitespace |
| `Text.IndexOf` | llm_tools_fragment_bridge.py:134 | the first position at or after `from` holding the character, or none when there is none |
| `Text.RFind` | llm_tools_fragment_bridge.py:187 | `rfind`: the pattern occurs at the result, and at no later position; -1 when it does not occur |
| `Text.LastIndexOf` | llm_tools_fragment_bridge.py:192 | `rfind` of one character: it sits at the result and at no later position; -1 when absent |
| `Text.JoinLength` | llm_tools_fragment_bridge.py:172 | `sep.join(parts)` holds all characters of the parts plus one separator between each two |
| `Text.SplitOn` | llm_tools_fragment_bridge.py:114 | `split('/')` gives at least one piece, and no piece contains the separator |
| `Text.SplitJoin` | llm_tools_fragment_bridge.py:114 | joining the pieces of `split(c)` with `c` gives back the text |
| `Text.InSplitIff` | llm_tools_fragment_bridge.py:114-118 | a nonempty separator-free name is one of the pieces of `split(c)` exactly when it stands in the text between separators or the text's ends |
| `Text.ReplaceChar` | llm_tools_fragment_bridge.py:114 | `replace('\\', '/')` keeps the length and leaves no backslash behind, and a path without backslashes is returned as it is |
| `Text.RStripChar` | llm_tools_fragment_bridge.py:116 | `rstrip('/')` is a prefix that no longer ends with `/`, and everything removed is `/` |
| `PathClassifier.BasenameSpec` | llm_tools_fragment_bridge.py:106 | the base name is the suffix after the last `/`: slash-free, and preceded by `/` unless it is the whole path |
| `PathClassifier.BasenameIsLastComponent` | llm_tools_fragment_bridge.py:106 | a slash-free suffix that starts the path or follows a `/` is the base name |
| `PathClassifier.BasenameRule` | llm_tools_fragment_bridge.py:106-110 | the base name is a noise file name exactly when the path ends with a noise file name as a whole component |
| `PathClassifier.SkipDirsAreEntries` | llm_tools_fragment_bridge.py:30-35 | every noise directory entry is a nonempty slash-free name followed by one `/` |
| `PathClassifier.RStripDirEntry` | llm_tools_fragment_bridge.py:116 | `rstrip('/')` of such an entry removes exactly its one trailing slash |
| `PathClassifier.DirectoryRule` | llm_tools_fragment_bridge.py:112-118 | some noise directory name is one of the path's segments (backslashes counting as `/`) exactly when that name stands between separators in the path |
| `PathClassifier.ShouldSkipIff` | llm_tools_fragment_bridge.py:104-125 | the classifier flags a path exactly when its base name is a noise file, a segment is a noise directory, or it ends with a noise extension |
| `NoiseFilter.MatchMarker` | llm_tools_fragment_bridge.py:134 | a recognised marker has a nonempty single-line path, and the text starts with exactly that marker line |
| `NoiseFilter.MatchHeader` | llm_tools_fragment_bridge.py:134 | a text that starts with a well-formed marker line is recognised with exactly that path and length |
| `NoiseFilter.FirstMarker` | llm_tools_fragment_bridge.py:136 | the leftmost position at or after `from` where a marker starts; none when no marker starts there |
| `NoiseFilter.ParseRender` | llm_tools_fragment_bridge.py:136 | splitting at the markers loses nothing: preamble plus re-rendered blocks give back the text, and every captured path is a nonempty single line |
| `NoiseFilter.NoMarkerInside` | llm_tools_fragment_bridge.py:134 | no marker starts inside marker-free text followed by the end or by another marker, because no proper suffix of `--- Source: ` is a prefix of it |
| `NoiseFilter.ParseAfter` | llm_tools_fragment_bridge.py:134-136 | marker-free text followed by blocks with single-line paths and marker-free bodies splits into that text as preamble and exactly those blocks |
| `NoiseFilter.RenderParse` | llm_tools_fragment_bridge.py:134-136 | the converse of `ParseRender`: rendering well-formed sections and splitting the result gives back the same sections |
| `NoiseFilter.JoinAsConcat` | llm_tools_fragment_bridge.py:172 | rendered blocks joined by blank lines are the blocks written back to back, each body but the last followed by the blank line |
| `NoiseFilter.SeparateWellFormed` | llm_tools_fragment_bridge.py:172 | appending the blank-line separator to the bodies keeps them marker-free, so joined blocks still split at their own markers |
| `NoiseFilter.FilterGithubContent` | llm_tools_fragment_bridge.py:128-172 | the filter with the GitHub classifier returns the text and the statistics of the specification `FilterWith` |
| `NoiseFilter.FilterBlocks` | llm_tools_fragment_bridge.py:143-172 | the filter loop over the pairs builds the kept parts, counts and skipped list of `FilterWith` |
| `NoiseFilter.FilterStep` | llm_tools_fragment_bridge.py:155-164 | one pair either appends its stripped path to the skipped list, or is kept, cleaned and rendered after the kept ones |
| `NoiseFilter.KeptBlocksAppend` | llm_tools_fragment_bridge.py:152-164 | the kept blocks of two runs of pairs are the kept blocks of each, in order |
| `NoiseFilter.SkippedPathsAppend` | llm_tools_fragment_bridge.py:152-164 | likewise for the skipped paths |
| `NoiseFilter.KeptBlocksMembers` | llm_tools_fragment_bridge.py:155-164 | a block is kept exactly when it is an unflagged original block with its path stripped |
| `NoiseFilter.PartitionCounts` | llm_tools_fragment_bridge.py:148-164 | kept plus skipped is the number of pairs, and skipped is the number of flagged pairs |
| `NoiseFilter.SkippedPathsAreFlagged` | llm_tools_fragment_bridge.py:159-161 | every recorded skipped path is one the classifier flags |
| `NoiseFilter.FilterCounts` | llm_tools_fragment_bridge.py:148-169 | `files_kept + files_skipped` is the number of pairs, `files_skipped` the number of flagged pairs, and `skipped_list` the first `min(10, files_skipped)` skipped paths in order, each flagged |
| `NoiseFilter.FilterWithoutMarkers` | llm_tools_fragment_bridge.py:136-141 | a text without any marker comes back unchanged with zero counts and an empty list |
| `NoiseFilter.FilterDropsFlagged` | llm_tools_fragment_bridge.py:155-164 | no kept block's path is flagged, and each kept block is an original block with its path stripped and its body unchanged |
| `NoiseFilter.KeptAllWhenClean` | llm_tools_fragment_bridge.py:155-164 | when nothing is flagged every block is kept, cleaned, in order, and nothing is skipped |
| `NoiseFilter.FilterCleanOutput` | llm_tools_fragment_bridge.py:143-172 | text with no preamble and no flagged block comes out as its blocks re-rendered and joined by blank lines, with every block counted as kept |
| `NoiseFilter.FilterCleanText` | llm_tools_fragment_bridge.py:152-172 | for such text the output is longer than the input by two characters per boundary between blocks, so it equals the input exactly when there is one block |
| `Truncator.TruncateContent` | llm_tools_fragment_bridge.py:175-196 | the flag is set exactly when the text exceeds the limit; a text within the limit is returned unchanged; otherwise the result is a prefix of at most the limit that fills it or stops before a line break |
| `Truncator.CutAtSourceBoundary` | llm_tools_fragment_bridge.py:184-189 | when the last `\n--- Source:` within the limit starts beyond 80% of it, the result is the text up to exactly that position, so no partial marker remains |
| `Truncator.CutAtLineBoundary` | llm_tools_fragment_bridge.py:190-194 | otherwise, when the last line break within the limit is past the first character, the result stops right before it |
| `Truncator.HardCut` | llm_tools_fragment_bridge.py:184-196 | otherwise the result is the first `max_chars` characters |
| `Truncator.TruncateIdempotent` | llm_tools_fragment_bridge.py:175-196 | cutting an already cut text changes nothing and reports no cut |
| `Normalizer.Location` | llm_tools_fragment_bridge.py:251 | `r.path or r.url or 'inline'` never yields an empty location, so an attachment note always names where the attachment is |
| `Normalizer.Normalize` | llm_tools_fragment_bridge.py:244-257 | the loop renders every result in order and joins the renderings with a blank line, or gives `[No content returned]` for no results |
| `Normalizer.RenderItemsAt` | llm_tools_fragment_bridge.py:245-255 | the `k`-th rendered part is the rendering of the `k`-th result |
| `Normalizer.NormalizeSingle` | llm_tools_fragment_bridge.py:257 | a single result is returned exactly as rendered |
| `Normalizer.FragmentLabel` | llm_tools_fragment_bridge.py:246-248 | a fragment without a source is introduced by a marker naming `prefix:argument` |
| `Normalizer.NormalizeParse` | llm_tools_fragment_bridge.py:244-257 | the normalised text of fragments with single-line labels and marker-free texts splits back into one block per fragment, in order, with its label and its text (plus the joining blank line) |
| `Pipeline.AsList` | llm_tools_fragment_bridge.py:241-242 | a result that is not a list becomes a one-element list, so the list is empty only when the loader returned an empty list |
| `Pipeline.ToolFn` | llm_tools_fragment_bridge.py:225-288 | a failed download of a remote PDF gives `Error downloading PDF from …`; a failed load gives `Error loading prefix:argument: …` naming the original argument; otherwise the output is the protection stage applied to the normalised results |
| `Pipeline.Protect` | llm_tools_fragment_bridge.py:259-288 | filtering only for `github`, truncation always, and the protection line with its notes in order, as the specification `ProtectWith` states |
| `Pipeline.ProtectShape` | llm_tools_fragment_bridge.py:264-288 | the output ends with the capped body, a prefix of at most 150,000 characters of the filtered text, and differs from it exactly when files were skipped or the text was cut |
| `Pipeline.NonGithubFitsUnchanged` | llm_tools_fragment_bridge.py:264-288 | outside `github`, a normalised text within the cap is returned as it is |
| `Pipeline.GithubQuietFilter` | llm_tools_fragment_bridge.py:264-288 | for `github`, when nothing is skipped and the filtered text fits, the output is the filtered text with no note |
| `Pipeline.FilterNoteCounts` | llm_tools_fragment_bridge.py:274-280 | the number in the `Filtered …` note is the number of flagged blocks |
| `Pipeline.GithubFragmentsCounted` | llm_tools_fragment_bridge.py:244-276 | for `github` results that are such fragments, the skip count in the note is the number of fragments whose stripped label the classifier flags |
| `Pipeline.TruncateNoteSizes` | llm_tools_fragment_bridge.py:281-285 | when the text is cut, the body is strictly shorter than the filtered text, and the `Truncated from … to …` note reports those two sizes |

## Left out

- The download of a remote PDF to a temporary file and the file's removal are file-system and network I/O. The download is a parameter of `ToolFn` that returns either a path or the error message.
- The loader call is foreign code. It is a parameter of `ToolFn` that returns the results or the exception's message. `isinstance` and `getattr` on `llm.Fragment` and `llm.Attachment` become the `Item` datatype: a missing `source` or `type` attribute is `None`.
- An attachment whose `type` attribute is present but `None` renders as `None` in Python. Callers represent that as `Some("None")`.
- `str(r)` of a result that is neither a fragment nor an attachment is the `Other` item's text. The conversion itself is not modelled.
- Tool registration, the whitelist, the tool metadata and the setting of `__name__` and `__doc__` are plugin glue with no logic.
- The regex engine is not modelled. The marker scanner stands for `re.split` with this one pattern.
- `os.path.basename` is modelled as the POSIX split at the last `/`.
- `Truncator.TruncateContent`: the limit is a natural number, so Python's negative slicing for a negative `max_chars` is not modelled; the tool only ever passes 150,000.
- `Text.Thousands` spells `f"{n:,}"` out but nothing is proved about it beyond its use in the note.
