/**
 * `renderMarkdown` as a whole: the list pass, the header pass, code-fence
 * extraction, the inline passes, the paragraph pass, and finally either the
 * markup string (no code block) or the markup cut at the placeholders and
 * interleaved with the code-block components.
 *
 * The two renderers of the docs site differ only in the class strings they
 * put on lists, headers and paragraphs (`Style`). The inline-code, emphasis,
 * link and table-region passes between extraction and paragraphs are not
 * part of this model; they are a parameter `inlinePasses`.
 */
module MarkdownRender {
  import opened JsText
  import MarkdownList
  import MarkdownHeaders
  import MarkdownCode
  import MarkdownParagraphs

  /** The opening tags a renderer uses. */
  datatype Style = Style(listOpen: string, headers: MarkdownHeaders.HeaderTags, pOpen: string)

  /** An opening tag with a class attribute. */
  function OpenTag(name: string, classes: string): string {
    "<" + name + " class=\"" + classes + "\">"
  }

  lemma OpenTagStart(name: string, classes: string)
    ensures StartsWith(OpenTag(name, classes), "<" + name)
    ensures OpenTag(name, classes)[0] == '<'
  {
    var t := OpenTag(name, classes);
    assert t == ("<" + name) + (" class=\"" + classes + "\">");
  }

  /** The result: one markup string, or markup runs and code components. */
  datatype Rendered = Markup(html: string) | Elements(elements: seq<MarkdownCode.Element>)

  /** The markup after the list and header passes. */
  function Structured(text: string, style: Style): string {
    var listed := Join(MarkdownList.RenderAll(MarkdownList.Events(Split(text, "\n"), false), style.listOpen), "\n");
    MarkdownHeaders.Headers(listed, style.headers)
  }

  function Rendering(text: string, style: Style, inlinePasses: string -> string): Rendered {
    var (extracted, blocks) := MarkdownCode.ExtractCode(Structured(text, style));
    var html := MarkdownParagraphs.Paragraphs(inlinePasses(extracted), style.pOpen);
    if |blocks| > 0 then Elements(MarkdownCode.Interleaved(MarkdownCode.SplitPlaceholders(html), blocks, 0))
    else Markup(html)
  }

  method RenderMarkdown(text: string, style: Style, inlinePasses: string -> string) returns (r: Rendered)
    ensures r == Rendering(text, style, inlinePasses)
  {
    var listed := MarkdownList.WrapLists(text, style.listOpen);
    var html := MarkdownHeaders.Headers(listed, style.headers);
    var (extracted, blocks) := MarkdownCode.ExtractCode(html);
    html := MarkdownParagraphs.Paragraphs(inlinePasses(extracted), style.pOpen);
    if |blocks| > 0 {
      var parts := MarkdownCode.SplitPlaceholders(html);
      var elements := MarkdownCode.Interleave(parts, blocks);
      r := Elements(elements);
    } else {
      r := Markup(html);
    }
  }

  function Min(a: nat, b: nat): (m: nat)
    ensures m <= a && m <= b
  {
    if a <= b then a else b
  }

  /** Whatever the passes after extraction do to the placeholders, the code
      components come out in block order: the blocks below the number of
      parts, each once. Blocks beyond the number of parts (when a later pass
      removed placeholders) are dropped; none is ever reordered. */
  lemma {:induction false} InterleavedBlocks(parts: seq<string>, blocks: seq<MarkdownCode.CodeBlock>, from: nat)
    requires from <= Min(|parts|, |blocks|)
    ensures MarkdownCode.CodeOf(MarkdownCode.Interleaved(parts, blocks, from)) == blocks[from..Min(|parts|, |blocks|)]
    decreases |parts| - from
  {
    var m := Min(|parts|, |blocks|);
    if from < |parts| {
      var rest := MarkdownCode.Interleaved(parts, blocks, from + 1);
      assert MarkdownCode.Interleaved(parts, blocks, from) == MarkdownCode.Emitted(parts, blocks, from) + rest;
      MarkdownCode.CodeOfAppend(MarkdownCode.Emitted(parts, blocks, from), rest);
      MarkdownCode.EmittedCode(parts, blocks, from);
      if from < m {
        InterleavedBlocks(parts, blocks, from + 1);
        assert blocks[from..m] == [blocks[from]] + blocks[from + 1..m];
      } else {
        // from == m == |blocks| < |parts|: only markup runs remain
        NoBlocksLeft(parts, blocks, from + 1);
      }
    }
  }

  lemma {:induction false} NoBlocksLeft(parts: seq<string>, blocks: seq<MarkdownCode.CodeBlock>, from: nat)
    requires |blocks| <= from
    ensures MarkdownCode.CodeOf(MarkdownCode.Interleaved(parts, blocks, from)) == []
    decreases |parts| - from
  {
    if from < |parts| {
      var rest := MarkdownCode.Interleaved(parts, blocks, from + 1);
      NoBlocksLeft(parts, blocks, from + 1);
      assert MarkdownCode.Interleaved(parts, blocks, from) == MarkdownCode.Emitted(parts, blocks, from) + rest;
      MarkdownCode.CodeOfAppend(MarkdownCode.Emitted(parts, blocks, from), rest);
      MarkdownCode.EmittedCode(parts, blocks, from);
    }
  }

  /** The result is a list of elements exactly when a code fence was
      extracted, and then its code components are the extracted blocks, in
      order, up to the number of markup parts left after the later passes. */
  lemma RenderingBlocks(text: string, style: Style, inlinePasses: string -> string)
    ensures var (extracted, blocks) := MarkdownCode.ExtractCode(Structured(text, style));
      var html := MarkdownParagraphs.Paragraphs(inlinePasses(extracted), style.pOpen);
      var parts := MarkdownCode.SplitPlaceholders(html);
      var r := Rendering(text, style, inlinePasses);
      && (r.Elements? <==> |MarkdownCode.Extract(Structured(text, style)).fences| > 0)
      && (r.Elements? ==> MarkdownCode.CodeOf(r.elements) == blocks[..Min(|parts|, |blocks|)])
  {
    var (extracted, blocks) := MarkdownCode.ExtractCode(Structured(text, style));
    var html := MarkdownParagraphs.Paragraphs(inlinePasses(extracted), style.pOpen);
    var parts := MarkdownCode.SplitPlaceholders(html);
    InterleavedBlocks(parts, blocks, 0);
    assert blocks[0..Min(|parts|, |blocks|)] == blocks[..Min(|parts|, |blocks|)];
  }
}
