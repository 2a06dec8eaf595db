/**
 * Normalising what a fragment loader returns into one text: fragments
 * become marked blocks, attachments become one-line notes, anything else
 * is used as its own text, and the pieces are joined with blank lines.
 */
module Normalizer {
  import opened Wrappers
  import opened Text
  import opened NoiseFilter

  /**
   * One result of a loader. `source` and `mimeType` are `None` when the
   * object lacks the attribute; `path` and `url` are `None` when unset.
   */
  datatype Item =
    | Fragment(source: Option<string>, text: string)
    | Attachment(mimeType: Option<string>, path: Option<string>, url: Option<string>)
    | Other(text: string)

  const NoContent: string := "[No content returned]"

  /** Python truthiness of an optional string: set and nonempty. */
  predicate Truthy(s: Option<string>) {
    s.Some? && s.value != []
  }

  /** `r.path or r.url or 'inline'`. */
  function Location(path: Option<string>, url: Option<string>): (loc: string)
    ensures Truthy(path) ==> loc == path.value
    ensures !Truthy(path) && Truthy(url) ==> loc == url.value
    ensures !Truthy(path) && !Truthy(url) ==> loc == "inline"
    ensures loc != []
  {
    if Truthy(path) then path.value else if Truthy(url) then url.value else "inline"
  }

  /** The fragment's own source, or `prefix:argument` when it has none. */
  function SourceOf(source: Option<string>, prefix: string, argument: string): string {
    match source
    case Some(s) => s
    case None => prefix + ":" + argument
  }

  /** How one item appears in the tool's text. */
  function RenderItem(item: Item, prefix: string, argument: string): string {
    match item
    case Fragment(source, text) => Header(SourceOf(source, prefix, argument)) + text
    case Attachment(mimeType, path, url) =>
      var kind := match mimeType case Some(t) => t case None => "unknown";
      "[Attachment: " + kind + " at " + Location(path, url) + "]"
    case Other(text) => text
  }

  function RenderItems(items: seq<Item>, prefix: string, argument: string): (r: seq<string>)
    ensures |r| == |items|
    decreases |items|
  {
    if items == [] then []
    else RenderItems(items[..|items| - 1], prefix, argument) + [RenderItem(items[|items| - 1], prefix, argument)]
  }

  /** The normalised text: the rendered items joined by blank lines, or a placeholder when there are none. */
  function NormalizedText(items: seq<Item>, prefix: string, argument: string): string {
    if items == [] then NoContent else Join(RenderItems(items, prefix, argument), "\n\n")
  }

  /** The loop of `tool_fn` that renders the results one by one and joins them. */
  method Normalize(items: seq<Item>, prefix: string, argument: string) returns (content: string)
    ensures content == NormalizedText(items, prefix, argument)
  {
    var parts: seq<string> := [];
    for i := 0 to |items|
      invariant parts == RenderItems(items[..i], prefix, argument)
    {
      assert items[..i + 1][..i] == items[..i];
      parts := parts + [RenderItem(items[i], prefix, argument)];
    }
    assert items[..|items|] == items;
    if |parts| > 0 {
      content := Join(parts, "\n\n");
    } else {
      content := NoContent;
    }
  }

  /** The `k`-th rendered piece is the rendering of the `k`-th item. */
  lemma {:induction false} RenderItemsAt(items: seq<Item>, prefix: string, argument: string, k: nat)
    requires k < |items|
    ensures RenderItems(items, prefix, argument)[k] == RenderItem(items[k], prefix, argument)
    decreases |items|
  {
    if k < |items| - 1 {
      RenderItemsAt(items[..|items| - 1], prefix, argument, k);
    }
  }

  /** A single result is returned exactly as rendered, with no separator. */
  lemma NormalizeSingle(item: Item, prefix: string, argument: string)
    ensures NormalizedText([item], prefix, argument) == RenderItem(item, prefix, argument)
  {
    RenderItemsAt([item], prefix, argument, 0);
  }

  /** A fragment without a source is labelled with the loader's prefix and the argument it was given. */
  lemma FragmentLabel(text: string, prefix: string, argument: string)
    ensures RenderItem(Fragment(None, text), prefix, argument) == "--- Source: " + prefix + ":" + argument + " ---\n" + text
  {
  }

  /** The block a fragment becomes in the normalised text: its label and its text. */
  function FragmentBlock(item: Item, prefix: string, argument: string): Block
    requires item.Fragment?
  {
    Block(SourceOf(item.source, prefix, argument), item.text)
  }

  /** Results that are all fragments with single-line labels and texts in which no marker starts. */
  ghost predicate PlainFragments(items: seq<Item>, prefix: string, argument: string) {
    forall k :: 0 <= k < |items| ==>
      && items[k].Fragment?
      && ValidPath(SourceOf(items[k].source, prefix, argument))
      && MarkerFree(items[k].text)
  }

  ghost function FragmentBlocks(items: seq<Item>, prefix: string, argument: string): seq<Block>
    requires forall k :: 0 <= k < |items| ==> items[k].Fragment?
  {
    seq(|items|, k requires 0 <= k < |items| => FragmentBlock(items[k], prefix, argument))
  }

  /**
   * The normalised text of plain fragments splits back into one block per
   * fragment, in order, labelled with its source and holding its text, each
   * but the last followed by the blank line that joined it to the next.
   */
  lemma NormalizeParse(items: seq<Item>, prefix: string, argument: string)
    requires items != [] && PlainFragments(items, prefix, argument)
    ensures Parse(NormalizedText(items, prefix, argument)) == Sections("", Separate(FragmentBlocks(items, prefix, argument)))
  {
    var bs := FragmentBlocks(items, prefix, argument);
    var parts := RenderItems(items, prefix, argument);
    forall k | 0 <= k < |items|
      ensures parts[k] == Header(bs[k].path) + bs[k].body
    {
      RenderItemsAt(items, prefix, argument, k);
    }
    JoinAsConcat(parts, bs);
    SeparateWellFormed(bs);
    RenderParse(Sections("", Separate(bs)));
  }
}
