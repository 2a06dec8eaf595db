/**
 * The size cap. Text longer than the limit is cut to at most the limit,
 * preferably just before the last block marker when that keeps more than
 * 80% of the limit, otherwise just before the last line break, otherwise at
 * the limit itself.
 */
module Truncator {
  import opened Text

  /** `'\n--- Source:'`: a line break followed by the start of a block marker. */
  const SourceBoundary: string := "\n--- Source:"

  /**
   * `last_source > max_chars * 0.8` on integers. For every limit m below 2^50
   * the double product `m * 0.8` is within 0.19 of 4m/5: it equals 4m/5 when
   * that is an integer, and otherwise, though it may round to either side of
   * 4m/5, it lies strictly between floor(4m/5) and floor(4m/5) + 1. So an
   * integer exceeds the product exactly when five times it exceeds 4m.
   */
  predicate KeepsMostOf(cut: int, maxChars: nat) {
    5 * cut > 4 * maxChars
  }

  /** `k` is the last place where `pat` occurs in `s`. */
  ghost predicate LastOccurrence(s: string, pat: string, k: int) {
    OccursAt(s, pat, k) && forall k' :: k < k' ==> !OccursAt(s, pat, k')
  }

  /**
   * `_truncate_content`: the text and whether it was cut. Text within the
   * limit comes back unchanged; longer text comes back as a prefix of at
   * most `maxChars` characters that either fills the limit or stops right
   * before a line break.
   */
  function TruncateContent(content: string, maxChars: nat): (r: (string, bool))
    ensures r.1 <==> |content| > maxChars
    ensures !r.1 ==> r.0 == content
    ensures r.1 ==> |r.0| <= maxChars && r.0 == content[..|r.0|]
    ensures r.1 && |r.0| < maxChars ==> content[|r.0|] == '\n'
  {
    if |content| <= maxChars then (content, false)
    else
      var truncated := content[..maxChars];
      var lastSource := RFind(truncated, SourceBoundary);
      if KeepsMostOf(lastSource, maxChars) then
        assert truncated[lastSource] == SourceBoundary[0];
        (truncated[..lastSource], true)
      else
        var lastNewline := LastIndexOf(truncated, '\n');
        if lastNewline > 0 then (truncated[..lastNewline], true) else (truncated, true)
  }

  /** When the last marker in the first `maxChars` characters lies beyond 80% of the limit, the cut falls right before it. */
  lemma CutAtSourceBoundary(content: string, maxChars: nat, k: int)
    requires |content| > maxChars
    requires LastOccurrence(content[..maxChars], SourceBoundary, k)
    requires KeepsMostOf(k, maxChars)
    ensures TruncateContent(content, maxChars) == (content[..k], true)
    ensures content[k..k + |SourceBoundary|] == SourceBoundary
  {
    var t := content[..maxChars];
    var r := RFind(t, SourceBoundary);
    assert OccursAt(t, SourceBoundary, k);
    assert r == k;
    assert t[..k] == content[..k];
    assert content[k..k + |SourceBoundary|] == t[k..k + |SourceBoundary|];
  }

  /**
   * When no marker lies beyond 80% of the limit, the cut falls before the
   * last line break of the first `maxChars` characters, unless that break
   * is the very first character.
   */
  lemma CutAtLineBoundary(content: string, maxChars: nat, j: int)
    requires |content| > maxChars
    requires forall k :: OccursAt(content[..maxChars], SourceBoundary, k) ==> !KeepsMostOf(k, maxChars)
    requires 0 < j < maxChars && content[j] == '\n'
    requires forall k :: j < k < maxChars ==> content[k] != '\n'
    ensures TruncateContent(content, maxChars) == (content[..j], true)
  {
    var t := content[..maxChars];
    var r := RFind(t, SourceBoundary);
    assert !KeepsMostOf(r, maxChars) by {
      if r >= 0 {
        assert OccursAt(t, SourceBoundary, r);
      }
    }
    var n := LastIndexOf(t, '\n');
    assert n == j by {
      assert t[j] == '\n';
    }
    assert t[..j] == content[..j];
  }

  /** With no late marker and no line break after the first character, the text is cut at the limit itself. */
  lemma HardCut(content: string, maxChars: nat)
    requires |content| > maxChars
    requires forall k :: OccursAt(content[..maxChars], SourceBoundary, k) ==> !KeepsMostOf(k, maxChars)
    requires forall k :: 0 < k < maxChars ==> content[k] != '\n'
    ensures TruncateContent(content, maxChars) == (content[..maxChars], true)
  {
    var t := content[..maxChars];
    var r := RFind(t, SourceBoundary);
    assert !KeepsMostOf(r, maxChars) by {
      if r >= 0 {
        assert OccursAt(t, SourceBoundary, r);
      }
    }
    var n := LastIndexOf(t, '\n');
  }

  /** Truncating text that already fits changes nothing, and truncating twice is truncating once. */
  lemma TruncateIdempotent(content: string, maxChars: nat)
    ensures var once := TruncateContent(content, maxChars).0;
            TruncateContent(once, maxChars) == (once, false)
  {
  }
}
