/**
 * The GitHub noise filter. A multi-file text is a preamble followed by
 * blocks, each introduced by a marker line `--- Source: <path> ---`. The
 * filter splits the text at the markers, drops the blocks whose (stripped)
 * path the classifier flags, counts kept and skipped blocks, keeps the first
 * ten skipped paths, and joins the preamble (unless blank) and the re-rendered
 * surviving blocks with blank lines.
 */
module NoiseFilter {
  import opened Wrappers
  import opened Text
  import opened PathClassifier

  /** One `(path, body)` pair of a multi-file text. */
  datatype Block = Block(path: string, body: string)

  /** A text split at its markers: what precedes the first marker, then the blocks. */
  datatype Sections = Sections(preamble: string, blocks: seq<Block>)

  datatype FilterStats = FilterStats(filesKept: nat, filesSkipped: nat, skippedList: seq<string>)

  /** A marker recognised at the start of a text: its path and its length. */
  datatype Marker = Marker(path: string, len: nat)

  const SkippedListCap: nat := 10

  /** The marker line that introduces a block. */
  function Header(path: string): string {
    "--- Source: " + path + " ---\n"
  }

  /** What the marker pattern `([^\n]+)` can capture: a nonempty single line. */
  predicate ValidPath(path: string) {
    path != [] && '\n' !in path
  }

  /** The blocks written back to back, each after its marker. */
  function Concat(blocks: seq<Block>): string
    decreases |blocks|
  {
    if blocks == [] then [] else Header(blocks[0].path) + blocks[0].body + Concat(blocks[1..])
  }

  function Render(t: Sections): string {
    t.preamble + Concat(t.blocks)
  }

  /**
   * The pattern `--- Source: ([^\n]+) ---\n` matched at the start of `u`: the
   * captured path runs from after `--- Source: ` to the ` ---` that ends the
   * first line.
   */
  function MatchMarker(u: string): (m: Option<Marker>)
    ensures m.Some? ==> ValidPath(m.value.path) && m.value.len == |Header(m.value.path)|
    ensures m.Some? ==> m.value.len <= |u| && u[..m.value.len] == Header(m.value.path)
  {
    if |u| < 12 || u[..12] != "--- Source: " then None
    else match IndexOf(u, '\n', 12)
      case None => None
      case Some(j) =>
        if j >= 17 && u[j - 4..j] == " ---" then
          var path := u[12..j - 4];
          assert u[..j + 1] == u[..12] + path + u[j - 4..j] + [u[j]];
          assert forall k :: 0 <= k < |path| ==> path[k] == u[12 + k];
          Some(Marker(path, j + 1))
        else None
  }

  /** A text that starts with a well-formed marker is recognised, with exactly that path. */
  lemma MatchHeader(path: string, rest: string)
    requires ValidPath(path)
    ensures MatchMarker(Header(path) + rest) == Some(Marker(path, |Header(path)|))
  {
    var u := Header(path) + rest;
    var j := 16 + |path|;
    assert u[..12] == "--- Source: ";
    assert forall k :: 12 <= k < 12 + |path| ==> u[k] == path[k - 12];
    assert u[12 + |path|..j + 1] == " ---\n";
    assert forall k :: 12 + |path| <= k < j ==> u[k] == " ---\n"[k - 12 - |path|];
    IndexOfAt(u, '\n', 12, j);
    assert u[j - 4..j] == " ---";
    assert u[12..j - 4] == path;
  }

  /** The first position at or after `from` where a marker starts. */
  function FirstMarker(s: string, from: nat): (r: Option<nat>)
    ensures r.Some? ==> from <= r.value < |s| && MatchMarker(s[r.value..]).Some?
    ensures r.Some? ==> forall k :: from <= k < r.value ==> MatchMarker(s[k..]).None?
    ensures r.None? ==> forall k :: from <= k <= |s| ==> MatchMarker(s[k..]).None?
    decreases |s| - from
  {
    if from >= |s| then None
    else if MatchMarker(s[from..]).Some? then Some(from)
    else FirstMarker(s, from + 1)
  }

  /**
   * `re.split` with the marker pattern: the preamble, then for every marker
   * its captured path and the text up to the next marker.
   */
  function Parse(s: string): Sections
    decreases |s|
  {
    match FirstMarker(s, 0)
    case None => Sections(s, [])
    case Some(i) =>
      var m := MatchMarker(s[i..]).value;
      var rest := Parse(s[i + m.len..]);
      Sections(s[..i], [Block(m.path, rest.preamble)] + rest.blocks)
  }

  lemma ConcatCons(b: Block, bs: seq<Block>)
    ensures Concat([b] + bs) == Header(b.path) + (b.body + Concat(bs))
  {
    assert ([b] + bs)[1..] == bs;
  }

  /** Splitting loses nothing: rendering the sections gives back the text, and every captured path is a single nonempty line. */
  lemma {:induction false} ParseRender(s: string)
    ensures Render(Parse(s)) == s
    ensures forall k :: 0 <= k < |Parse(s).blocks| ==> ValidPath(Parse(s).blocks[k].path)
    decreases |s|
  {
    var first := FirstMarker(s, 0);
    if first.Some? {
      var i := first.value;
      var m := MatchMarker(s[i..]).value;
      ParseRender(s[i + m.len..]);
      var rest := Parse(s[i + m.len..]);
      ParseAt(s, i, m);
      assert s[i..][..m.len] == s[i..i + m.len];
      RenderStep(s, i, m, rest);
    }
  }

  /** One marker step of the split: the text before it, the marker, and the rendering of what follows make up the text. */
  lemma RenderStep(s: string, i: nat, m: Marker, rest: Sections)
    requires i + m.len <= |s| && s[i..i + m.len] == Header(m.path) && ValidPath(m.path)
    requires Render(rest) == s[i + m.len..]
    requires forall k :: 0 <= k < |rest.blocks| ==> ValidPath(rest.blocks[k].path)
    ensures var t := Sections(s[..i], [Block(m.path, rest.preamble)] + rest.blocks);
            && Render(t) == s
            && forall k :: 0 <= k < |t.blocks| ==> ValidPath(t.blocks[k].path)
  {
    var b := Block(m.path, rest.preamble);
    ConcatCons(b, rest.blocks);
    SplitThree(s, i, i + m.len);
    assert forall k :: 1 <= k < |[b] + rest.blocks| ==> ([b] + rest.blocks)[k] == rest.blocks[k - 1];
  }

  lemma SplitThree<T>(s: seq<T>, i: nat, j: nat)
    requires i <= j <= |s|
    ensures s == s[..i] + (s[i..j] + s[j..])
  {
  }

  /** The fixed text every marker starts with. */
  const MarkerStart: string := "--- Source: "

  /** Text in which no marker can start. */
  ghost predicate MarkerFree(t: string) {
    forall k :: !OccursAt(t, MarkerStart, k)
  }

  /** Sections whose rendering splits back into the same sections. */
  ghost predicate WellFormed(t: Sections) {
    && MarkerFree(t.preamble)
    && forall k :: 0 <= k < |t.blocks| ==> ValidPath(t.blocks[k].path) && MarkerFree(t.blocks[k].body)
  }

  /** No proper suffix of `MarkerStart` is also a prefix of it, so markers cannot overlap. */
  lemma MarkerStartUnbordered(d: nat)
    requires 0 < d < |MarkerStart|
    ensures var i := if d <= 3 then 3 - d else 0;
            MarkerStart[d + i] != MarkerStart[i]
  {
  }

  /**
   * No marker starts inside marker-free text `t` when what follows it is
   * empty or starts a marker itself.
   */
  lemma NoMarkerInside(t: string, w: string, k: nat)
    requires MarkerFree(t) && k < |t|
    requires w == [] || (|w| >= |MarkerStart| && w[..|MarkerStart|] == MarkerStart)
    ensures MatchMarker((t + w)[k..]).None?
  {
    var u := (t + w)[k..];
    var m := MatchMarker(u);
    if m.Some? {
      assert u[..|MarkerStart|] == MarkerStart by {
        assert u[..|MarkerStart|] == u[..m.value.len][..|MarkerStart|];
      }
      if k + |MarkerStart| <= |t| {
        assert t[k..k + |MarkerStart|] == u[..|MarkerStart|];
        assert OccursAt(t, MarkerStart, k);
        assert false;
      } else {
        MarkerStartUnbordered(|t| - k);
        assert false;
      }
    }
  }

  /**
   * Marker-free text followed by well-formed blocks splits into that text
   * as preamble and exactly those blocks.
   */
  lemma {:induction false} ParseAfter(pre: string, blocks: seq<Block>)
    requires WellFormed(Sections(pre, blocks))
    ensures Parse(pre + Concat(blocks)) == Sections(pre, blocks)
    decreases |blocks|
  {
    if blocks == [] {
      ParseMarkerFree(pre);
    } else {
      WellFormedTail(pre, blocks);
      ParseAfter(blocks[0].body, blocks[1..]);
      ParseAfterCons(pre, blocks[0], blocks[1..]);
      assert [blocks[0]] + blocks[1..] == blocks;
    }
  }

  /** Marker-free text is all preamble. */
  lemma ParseMarkerFree(pre: string)
    requires MarkerFree(pre)
    ensures Parse(pre + Concat([])) == Sections(pre, [])
  {
    NoMarkerBefore(pre, []);
    assert pre + Concat([]) == pre + [];
  }

  lemma WellFormedTail(pre: string, blocks: seq<Block>)
    requires WellFormed(Sections(pre, blocks)) && blocks != []
    ensures WellFormed(Sections(blocks[0].body, blocks[1..]))
    ensures ValidPath(blocks[0].path)
  {
    assert forall k :: 0 <= k < |blocks[1..]| ==> blocks[1..][k] == blocks[k + 1];
  }

  /** One block of the reverse round trip: a marker-free text, then a well-formed marker, then what splits into the rest. */
  lemma ParseAfterCons(pre: string, b: Block, tail: seq<Block>)
    requires MarkerFree(pre) && ValidPath(b.path)
    requires Parse(b.body + Concat(tail)) == Sections(b.body, tail)
    ensures Parse(pre + Concat([b] + tail)) == Sections(pre, [b] + tail)
  {
    var rest := b.body + Concat(tail);
    var w := Header(b.path) + rest;
    MatchHeader(b.path, rest);
    assert w[|Header(b.path)|..] == rest;
    ParseAfterMarker(pre, w, Marker(b.path, |Header(b.path)|));
    ConcatCons(b, tail);
  }

  /** Marker-free text followed by a marker splits at that marker. */
  lemma ParseAfterMarker(pre: string, w: string, m: Marker)
    requires MarkerFree(pre) && MatchMarker(w) == Some(m)
    ensures var rest := Parse(w[m.len..]);
            Parse(pre + w) == Sections(pre, [Block(m.path, rest.preamble)] + rest.blocks)
  {
    var s := pre + w;
    FirstMarkerAfter(pre, w);
    assert s[|pre|..] == w;
    assert s[|pre| + m.len..] == w[m.len..];
    ParseAt(s, |pre|, m);
    assert s[..|pre|] == pre;
  }

  /** A marker right after marker-free text is the first marker. */
  lemma FirstMarkerAfter(t: string, w: string)
    requires MarkerFree(t) && MatchMarker(w).Some?
    ensures FirstMarker(t + w, 0) == Some(|t|)
  {
    var m := MatchMarker(w).value;
    assert w[..|MarkerStart|] == MarkerStart by {
      assert w[..|MarkerStart|] == w[..m.len][..|MarkerStart|];
    }
    NoMarkerBefore(t, w);
    assert (t + w)[|t|..] == w;
    FirstMarkerAt(t + w, 0, |t|);
  }

  /** Before a marker, or before the end, marker-free text holds no marker. */
  lemma NoMarkerBefore(t: string, w: string)
    requires MarkerFree(t)
    requires w == [] || (|w| >= |MarkerStart| && w[..|MarkerStart|] == MarkerStart)
    ensures forall k :: 0 <= k < |t| ==> MatchMarker((t + w)[k..]).None?
    ensures w == [] ==> FirstMarker(t + w, 0).None?
  {
    forall k | 0 <= k < |t|
      ensures MatchMarker((t + w)[k..]).None?
    {
      NoMarkerInside(t, w, k);
    }
    if w == [] {
      assert MatchMarker((t + w)[|t|..]).None?;
    }
  }

  /** The split at a text whose first marker starts at `i`. */
  lemma ParseAt(s: string, i: nat, m: Marker)
    requires FirstMarker(s, 0) == Some(i) && MatchMarker(s[i..]) == Some(m)
    ensures var rest := Parse(s[i + m.len..]);
            Parse(s) == Sections(s[..i], [Block(m.path, rest.preamble)] + rest.blocks)
  {
    var rest := Parse(s[i + m.len..]);
    assert Parse(s) == Sections(s[..i], [Block(m.path, rest.preamble)] + rest.blocks);
  }

  lemma {:induction false} FirstMarkerAt(s: string, from: nat, i: nat)
    requires from <= i < |s| && MatchMarker(s[i..]).Some?
    requires forall k :: from <= k < i ==> MatchMarker(s[k..]).None?
    ensures FirstMarker(s, from) == Some(i)
    decreases i - from
  {
    if from < i {
      assert MatchMarker(s[from..]).None?;
      FirstMarkerAt(s, from + 1, i);
    }
  }

  /** Rendering well-formed sections and splitting the text again gives them back. */
  lemma RenderParse(t: Sections)
    requires WellFormed(t)
    ensures Parse(Render(t)) == t
  {
    ParseAfter(t.preamble, t.blocks);
  }

  /** `filepath = parts[i].strip()`: the block as the filter sees it. */
  function Clean(b: Block): Block {
    Block(Strip(b.path), b.body)
  }

  /** `should_skip(filepath)` for a block; the filter passes the classifier as `skip`. */
  predicate Flagged(b: Block, skip: string -> bool) {
    skip(Strip(b.path))
  }

  /** The blocks that survive filtering, cleaned, in their original order. */
  function KeptBlocks(bs: seq<Block>, skip: string -> bool): seq<Block>
    decreases |bs|
  {
    if bs == [] then [] else (if Flagged(bs[0], skip) then [] else [Clean(bs[0])]) + KeptBlocks(bs[1..], skip)
  }

  /** The stripped paths of the flagged blocks, in their original order. */
  function SkippedPaths(bs: seq<Block>, skip: string -> bool): seq<string>
    decreases |bs|
  {
    if bs == [] then [] else (if Flagged(bs[0], skip) then [Strip(bs[0].path)] else []) + SkippedPaths(bs[1..], skip)
  }

  /** Each block rendered as `--- Source: {path} ---\n{body}`. */
  function RenderAll(bs: seq<Block>): (r: seq<string>)
    ensures |r| == |bs|
    decreases |bs|
  {
    if bs == [] then [] else RenderAll(bs[..|bs| - 1]) + [Header(bs[|bs| - 1].path) + bs[|bs| - 1].body]
  }

  /** The preamble is kept only when it is not whitespace-only. */
  function Lead(preamble: string): seq<string> {
    if Strip(preamble) != [] then [preamble] else []
  }

  ghost function FlaggedIndices(bs: seq<Block>, skip: string -> bool): set<int> {
    set i | 0 <= i < |bs| && Flagged(bs[i], skip)
  }

  /** The filter's result for the classifier `skip`, as a function of the input text. */
  function FilterWith(content: string, skip: string -> bool): (string, FilterStats) {
    var t := Parse(content);
    var kept := KeptBlocks(t.blocks, skip);
    var skipped := SkippedPaths(t.blocks, skip);
    if t.blocks == [] then (content, FilterStats(0, 0, []))
    else (Join(Lead(t.preamble) + RenderAll(kept), "\n\n"),
          FilterStats(|kept|, |skipped|, Take(skipped, SkippedListCap)))
  }

  /** `_filter_github_content`: the filter with the GitHub noise classifier. */
  method FilterGithubContent(content: string) returns (filtered: string, stats: FilterStats)
    ensures (filtered, stats) == FilterWith(content, ShouldSkipGithubFile)
  {
    filtered, stats := FilterBlocks(content, ShouldSkipGithubFile);
  }

  /** The body of `_filter_github_content`, for the classifier `skip`. */
  method FilterBlocks(content: string, skip: string -> bool) returns (filtered: string, stats: FilterStats)
    ensures (filtered, stats) == FilterWith(content, skip)
  {
    var t := Parse(content);
    if |t.blocks| == 0 {
      return content, FilterStats(0, 0, []);
    }
    var filteredParts: seq<string> := [];
    if Strip(t.preamble) != [] {
      filteredParts := filteredParts + [t.preamble];
    }
    var filesKept: nat := 0;
    var filesSkipped: nat := 0;
    var skippedList: seq<string> := [];
    var blocks := t.blocks;
    for i := 0 to |blocks|
      invariant filteredParts == Lead(t.preamble) + RenderAll(KeptBlocks(blocks[..i], skip))
      invariant skippedList == SkippedPaths(blocks[..i], skip)
      invariant filesKept == |KeptBlocks(blocks[..i], skip)|
      invariant filesSkipped == |skippedList|
    {
      var filepath := Strip(blocks[i].path);
      var fileContent := blocks[i].body;
      FilterStep(blocks, i, skip);
      if skip(filepath) {
        filesSkipped := filesSkipped + 1;
        skippedList := skippedList + [filepath];
      } else {
        filesKept := filesKept + 1;
        AppendAssoc(Lead(t.preamble), RenderAll(KeptBlocks(blocks[..i], skip)), [Header(filepath) + fileContent]);
        filteredParts := filteredParts + [Header(filepath) + fileContent];
      }
    }
    assert blocks[..|blocks|] == blocks;
    stats := FilterStats(filesKept, filesSkipped, Take(skippedList, SkippedListCap));
    filtered := Join(filteredParts, "\n\n");
  }

  /** One turn of the filter loop: block `i` either joins the skipped paths or is kept, cleaned and rendered. */
  lemma FilterStep(blocks: seq<Block>, i: nat, skip: string -> bool)
    requires i < |blocks|
    ensures var b := blocks[i];
            skip(Strip(b.path)) ==>
              && KeptBlocks(blocks[..i + 1], skip) == KeptBlocks(blocks[..i], skip)
              && SkippedPaths(blocks[..i + 1], skip) == SkippedPaths(blocks[..i], skip) + [Strip(b.path)]
    ensures var b := blocks[i];
            !skip(Strip(b.path)) ==>
              && KeptBlocks(blocks[..i + 1], skip) == KeptBlocks(blocks[..i], skip) + [Clean(b)]
              && SkippedPaths(blocks[..i + 1], skip) == SkippedPaths(blocks[..i], skip)
              && RenderAll(KeptBlocks(blocks[..i + 1], skip)) == RenderAll(KeptBlocks(blocks[..i], skip)) + [Header(Strip(b.path)) + b.body]
  {
    assert blocks[..i + 1] == blocks[..i] + [blocks[i]];
    KeptBlocksAppend(blocks[..i], [blocks[i]], skip);
    SkippedPathsAppend(blocks[..i], [blocks[i]], skip);
    assert KeptBlocks(blocks[..i], skip) + [] == KeptBlocks(blocks[..i], skip);
    assert SkippedPaths(blocks[..i], skip) + [] == SkippedPaths(blocks[..i], skip);
    var k := KeptBlocks(blocks[..i], skip) + [Clean(blocks[i])];
    assert k[..|k| - 1] == KeptBlocks(blocks[..i], skip);
  }

  lemma AppendAssoc<T>(a: seq<T>, b: seq<T>, c: seq<T>)
    ensures (a + b) + c == a + (b + c)
  {
  }

  /** Filtering distributes over concatenation: the kept blocks keep their relative order. */
  lemma {:induction false} KeptBlocksAppend(a: seq<Block>, b: seq<Block>, skip: string -> bool)
    ensures KeptBlocks(a + b, skip) == KeptBlocks(a, skip) + KeptBlocks(b, skip)
    decreases |a|
  {
    if a == [] {
      assert a + b == b;
    } else {
      assert (a + b)[1..] == a[1..] + b;
      KeptBlocksAppend(a[1..], b, skip);
    }
  }

  /** The skipped paths keep their relative order too. */
  lemma {:induction false} SkippedPathsAppend(a: seq<Block>, b: seq<Block>, skip: string -> bool)
    ensures SkippedPaths(a + b, skip) == SkippedPaths(a, skip) + SkippedPaths(b, skip)
    decreases |a|
  {
    if a == [] {
      assert a + b == b;
    } else {
      var head := if Flagged(a[0], skip) then [Strip(a[0].path)] else [];
      assert (a + b)[0] == a[0];
      assert (a + b)[1..] == a[1..] + b;
      assert SkippedPaths(a + b, skip) == head + SkippedPaths(a[1..] + b, skip);
      SkippedPathsAppend(a[1..], b, skip);
      AppendAssoc(head, SkippedPaths(a[1..], skip), SkippedPaths(b, skip));
    }
  }

  /** A block survives exactly when some original block is unflagged and cleans to it. */
  lemma {:induction false} KeptBlocksMembers(bs: seq<Block>, skip: string -> bool, c: Block)
    ensures c in KeptBlocks(bs, skip) <==> exists b :: b in bs && !Flagged(b, skip) && c == Clean(b)
    decreases |bs|
  {
    if bs != [] {
      KeptBlocksMembers(bs[1..], skip, c);
      assert bs == [bs[0]] + bs[1..];
      if c in KeptBlocks(bs[1..], skip) {
        var b :| b in bs[1..] && !Flagged(b, skip) && c == Clean(b);
        assert b in bs;
      }
    }
  }

  /** Every block is kept or skipped, and the skip count is the number of flagged blocks. */
  lemma {:induction false} PartitionCounts(bs: seq<Block>, skip: string -> bool)
    ensures |KeptBlocks(bs, skip)| + |SkippedPaths(bs, skip)| == |bs|
    ensures |SkippedPaths(bs, skip)| == |FlaggedIndices(bs, skip)|
    decreases |bs|
  {
    if bs == [] {
      assert FlaggedIndices(bs, skip) == {};
    } else {
      var a := bs[..|bs| - 1];
      var x := bs[|bs| - 1];
      assert bs == a + [x];
      PartitionCounts(a, skip);
      KeptBlocksAppend(a, [x], skip);
      SkippedPathsAppend(a, [x], skip);
      assert [x][1..] == [];
      FlaggedIndicesSnoc(a, x, skip);
    }
  }

  lemma FlaggedIndicesSnoc(a: seq<Block>, x: Block, skip: string -> bool)
    ensures Flagged(x, skip) ==> FlaggedIndices(a + [x], skip) == FlaggedIndices(a, skip) + {|a|}
    ensures !Flagged(x, skip) ==> FlaggedIndices(a + [x], skip) == FlaggedIndices(a, skip)
  {
    assert forall k :: 0 <= k < |a| ==> (a + [x])[k] == a[k];
    assert (a + [x])[|a|] == x;
  }

  /** Every skipped path is one the classifier flags. */
  lemma {:induction false} SkippedPathsAreFlagged(bs: seq<Block>, skip: string -> bool)
    ensures forall p :: p in SkippedPaths(bs, skip) ==> skip(p)
    decreases |bs|
  {
    if bs != [] {
      SkippedPathsAreFlagged(bs[1..], skip);
    }
  }

  /**
   * The filter's counts: kept plus skipped is the number of blocks, skipped
   * is the number of flagged blocks, and the list holds the first ten
   * skipped paths, each one a path the classifier flags.
   */
  lemma FilterCounts(content: string, skip: string -> bool)
    ensures var stats := FilterWith(content, skip).1;
            var bs := Parse(content).blocks;
            && stats.filesKept + stats.filesSkipped == |bs|
            && stats.filesSkipped == |FlaggedIndices(bs, skip)|
            && |stats.skippedList| == (if stats.filesSkipped < SkippedListCap then stats.filesSkipped else SkippedListCap)
            && stats.skippedList == Take(SkippedPaths(bs, skip), SkippedListCap)
            && forall p :: p in stats.skippedList ==> skip(p)
  {
    var bs := Parse(content).blocks;
    PartitionCounts(bs, skip);
    SkippedPathsAreFlagged(bs, skip);
    if bs == [] {
      assert FlaggedIndices(bs, skip) == {};
    }
  }

  /** Text without any marker passes through unchanged, with zero counts. */
  lemma FilterWithoutMarkers(content: string, skip: string -> bool)
    requires forall k :: 0 <= k <= |content| ==> MatchMarker(content[k..]).None?
    ensures FilterWith(content, skip) == (content, FilterStats(0, 0, []))
  {
    assert FirstMarker(content, 0).None?;
  }

  /** No flagged block reaches the output, and every kept block is a cleaned original. */
  lemma FilterDropsFlagged(content: string, skip: string -> bool)
    ensures forall c :: c in KeptBlocks(Parse(content).blocks, skip) ==>
      !skip(c.path) && exists b :: b in Parse(content).blocks && c == Clean(b)
  {
    var bs := Parse(content).blocks;
    forall c | c in KeptBlocks(bs, skip)
      ensures !skip(c.path) && exists b :: b in bs && c == Clean(b)
    {
      KeptBlocksMembers(bs, skip, c);
    }
  }

  /** When no block is flagged, every block is kept, cleaned, and none is skipped. */
  lemma {:induction false} KeptAllWhenClean(bs: seq<Block>, skip: string -> bool)
    requires forall k :: 0 <= k < |bs| ==> !Flagged(bs[k], skip)
    ensures KeptBlocks(bs, skip) == seq(|bs|, k requires 0 <= k < |bs| => Clean(bs[k]))
    ensures SkippedPaths(bs, skip) == []
    decreases |bs|
  {
    if bs != [] {
      KeptAllWhenClean(bs[1..], skip);
    }
  }

  lemma {:induction false} ConcatAppend(a: seq<Block>, b: seq<Block>)
    ensures Concat(a + b) == Concat(a) + Concat(b)
    decreases |a|
  {
    if a == [] {
      assert a + b == b;
    } else {
      assert (a + b)[1..] == a[1..] + b;
      ConcatAppend(a[1..], b);
    }
  }

  /** The rendered blocks hold exactly the characters of the blocks written back to back. */
  lemma {:induction false} RenderAllLength(bs: seq<Block>)
    ensures TotalLength(RenderAll(bs)) == |Concat(bs)|
    decreases |bs|
  {
    if bs != [] {
      var init := bs[..|bs| - 1];
      var x := bs[|bs| - 1];
      var piece := Header(x.path) + x.body;
      RenderAllLength(init);
      assert TotalLength(RenderAll(bs)) == TotalLength(RenderAll(init)) + |piece| by {
        assert RenderAll(bs) == RenderAll(init) + [piece];
        TotalLengthSnoc(RenderAll(init), piece);
      }
      assert |Concat(bs)| == |Concat(init)| + |piece| by {
        assert init + [x] == bs;
        ConcatAppend(init, [x]);
        assert Concat([x]) == piece + Concat([]);
      }
    }
  }

  lemma TotalLengthSnoc(parts: seq<string>, p: string)
    ensures TotalLength(parts + [p]) == TotalLength(parts) + |p|
  {
    assert (parts + [p])[..|parts|] == parts;
  }

  /** Clean text without a preamble comes out as its blocks, re-rendered and joined by blank lines. */
  lemma FilterCleanOutput(t: Sections, skip: string -> bool)
    requires WellFormed(t) && t.preamble == [] && t.blocks != []
    requires forall k :: 0 <= k < |t.blocks| ==> !Flagged(t.blocks[k], skip) && Strip(t.blocks[k].path) == t.blocks[k].path
    ensures FilterWith(Render(t), skip) == (Join(RenderAll(t.blocks), "\n\n"), FilterStats(|t.blocks|, 0, []))
  {
    RenderParse(t);
    FilterCleanSplit(Render(t), skip);
  }

  lemma FilterCleanSplit(content: string, skip: string -> bool)
    requires Parse(content).preamble == [] && Parse(content).blocks != []
    requires var bs := Parse(content).blocks;
             forall k :: 0 <= k < |bs| ==> !Flagged(bs[k], skip) && Strip(bs[k].path) == bs[k].path
    ensures var bs := Parse(content).blocks;
            FilterWith(content, skip) == (Join(RenderAll(bs), "\n\n"), FilterStats(|bs|, 0, []))
  {
    var bs := Parse(content).blocks;
    KeptAllWhenClean(bs, skip);
    assert KeptBlocks(bs, skip) == bs by {
      assert forall k :: 0 <= k < |bs| ==> Clean(bs[k]) == bs[k];
    }
    assert Lead([]) == [];
    assert [] + RenderAll(bs) == RenderAll(bs);
  }

  /**
   * Filtering text that has no preamble and no noise keeps every block but
   * separates them with one more blank line each: the output is longer by
   * two characters per boundary between blocks, so it equals the input
   * exactly when there is a single block.
   */
  lemma FilterCleanText(t: Sections, skip: string -> bool)
    requires WellFormed(t) && t.preamble == [] && t.blocks != []
    requires forall k :: 0 <= k < |t.blocks| ==> !Flagged(t.blocks[k], skip) && Strip(t.blocks[k].path) == t.blocks[k].path
    ensures var (out, stats) := FilterWith(Render(t), skip);
            && stats == FilterStats(|t.blocks|, 0, [])
            && |out| == |Render(t)| + 2 * (|t.blocks| - 1)
            && (out == Render(t) <==> |t.blocks| == 1)
  {
    var bs := t.blocks;
    FilterCleanOutput(t, skip);
    JoinLength(RenderAll(bs), "\n\n");
    RenderAllLength(bs);
    assert Render(t) == Concat(bs);
    if |bs| == 1 {
      assert bs[1..] == [];
      assert RenderAll(bs) == [Header(bs[0].path) + bs[0].body] by {
        assert bs[..0] == [];
      }
    }
  }

  /** Blocks as they appear when joined by blank lines: every body but the last is followed by the blank line. */
  function Separate(bs: seq<Block>): (r: seq<Block>)
    ensures |r| == |bs|
    decreases |bs|
  {
    if |bs| <= 1 then bs else [Block(bs[0].path, bs[0].body + "\n\n")] + Separate(bs[1..])
  }

  lemma {:induction false} SeparateAt(bs: seq<Block>, k: nat)
    requires k < |bs|
    ensures Separate(bs)[k].path == bs[k].path
    ensures Separate(bs)[k].body == bs[k].body + (if k < |bs| - 1 then "\n\n" else "")
    decreases |bs|
  {
    if |bs| > 1 && k > 0 {
      SeparateAt(bs[1..], k - 1);
    }
  }

  /** Rendered blocks joined by blank lines are the separated blocks written back to back. */
  lemma {:induction false} JoinAsConcat(parts: seq<string>, bs: seq<Block>)
    requires |parts| == |bs| && bs != []
    requires forall k :: 0 <= k < |bs| ==> parts[k] == Header(bs[k].path) + bs[k].body
    ensures Join(parts, "\n\n") == Concat(Separate(bs))
    decreases |bs|
  {
    if |bs| == 1 {
      assert bs[1..] == [];
    } else {
      var b := Block(bs[0].path, bs[0].body + "\n\n");
      JoinAsConcat(parts[1..], bs[1..]);
      ConcatCons(b, Separate(bs[1..]));
    }
  }

  /** A line break cannot be part of a marker start, so appending line breaks keeps text marker-free. */
  lemma MarkerFreeThenBreaks(t: string)
    requires MarkerFree(t)
    ensures MarkerFree(t + "\n\n")
  {
    var u := t + "\n\n";
    forall k | OccursAt(u, MarkerStart, k)
      ensures false
    {
      assert u[|t|] == '\n';
      assert forall i :: 0 <= i < |MarkerStart| ==> MarkerStart[i] != '\n';
      assert forall i :: k <= i < k + |MarkerStart| ==> u[i] == MarkerStart[i - k];
      if k + |MarkerStart| <= |t| {
        assert t[k..k + |MarkerStart|] == u[k..k + |MarkerStart|];
        assert OccursAt(t, MarkerStart, k);
      }
    }
  }

  /** Separated blocks with single-line paths and marker-free bodies form well-formed sections. */
  lemma SeparateWellFormed(bs: seq<Block>)
    requires forall k :: 0 <= k < |bs| ==> ValidPath(bs[k].path) && MarkerFree(bs[k].body)
    ensures WellFormed(Sections("", Separate(bs)))
  {
    assert MarkerFree("");
    forall k | 0 <= k < |bs|
      ensures ValidPath(Separate(bs)[k].path) && MarkerFree(Separate(bs)[k].body)
    {
      SeparatedBlockFree(bs, k);
    }
  }

  lemma SeparatedBlockFree(bs: seq<Block>, k: nat)
    requires k < |bs| && MarkerFree(bs[k].body)
    ensures Separate(bs)[k].path == bs[k].path && MarkerFree(Separate(bs)[k].body)
  {
    SeparateAt(bs, k);
    if k < |bs| - 1 {
      MarkerFreeThenBreaks(bs[k].body);
    } else {
      assert bs[k].body + "" == bs[k].body;
    }
  }

  /** The separator does not touch paths, so the same blocks are flagged. */
  lemma FlaggedSeparate(bs: seq<Block>, skip: string -> bool)
    ensures FlaggedIndices(Separate(bs), skip) == FlaggedIndices(bs, skip)
  {
    forall k | 0 <= k < |bs|
      ensures Separate(bs)[k].path == bs[k].path
    {
      SeparateAt(bs, k);
    }
  }
}
