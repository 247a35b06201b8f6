/**
 * The paragraph pass of `renderMarkdown`: the markup is cut at every blank
 * line (`"\n\n"`), each chunk that is not already markup and holds no code
 * placeholder is wrapped in the renderer's paragraph tag, blank chunks are
 * dropped, and the chunks are joined back with a single newline.
 */
module MarkdownParagraphs {
  import opened JsText
  import MarkdownCode

  /** What the pass does to one chunk, given the renderer's opening `<p ...>` tag. */
  function Chunk(paragraph: string, pOpen: string): string {
    if StartsWith(paragraph, "<") || Contains(paragraph, MarkdownCode.Marker) then paragraph
    else if !IsBlank(paragraph) then pOpen + paragraph + "</p>"
    else ""
  }

  function ChunkAll(ps: seq<string>, pOpen: string): (rs: seq<string>)
    ensures |rs| == |ps| && forall k | 0 <= k < |ps| :: rs[k] == Chunk(ps[k], pOpen)
  {
    seq(|ps|, k requires 0 <= k < |ps| => Chunk(ps[k], pOpen))
  }

  /** The whole pass. */
  function Paragraphs(html: string, pOpen: string): string {
    Join(ChunkAll(Split(html, "\n\n"), pOpen), "\n")
  }

  /** Each chunk falls in exactly one of three cases: markup or a placeholder
      run is kept as it is, other text is wrapped whole in the paragraph tag,
      and a blank chunk disappears. */
  lemma ChunkCases(paragraph: string, pOpen: string)
    ensures var r := Chunk(paragraph, pOpen);
      && ((StartsWith(paragraph, "<") || Contains(paragraph, MarkdownCode.Marker)) ==> r == paragraph)
      && (!StartsWith(paragraph, "<") && !Contains(paragraph, MarkdownCode.Marker) && !IsBlank(paragraph) ==>
            StartsWith(r, pOpen) && r[|pOpen|..|r| - 4] == paragraph && r[|r| - 4..] == "</p>")
      && (r == [] <==> (paragraph == [] || (IsBlank(paragraph) && !StartsWith(paragraph, "<")
                        && !Contains(paragraph, MarkdownCode.Marker))))
  {
    var r := Chunk(paragraph, pOpen);
    if !StartsWith(paragraph, "<") && !Contains(paragraph, MarkdownCode.Marker) && !IsBlank(paragraph) {
      assert r == pOpen + paragraph + "</p>";
      assert r[..|pOpen|] == pOpen;
      assert r[|pOpen|..|r| - 4] == paragraph;
    }
  }

  /** The pass never wraps a chunk twice when the paragraph tag is itself
      markup: a second pass over a rendered chunk leaves it as it is. */
  lemma ChunkIdempotent(paragraph: string, pOpen: string)
    requires StartsWith(pOpen, "<")
    ensures Chunk(Chunk(paragraph, pOpen), pOpen) == Chunk(paragraph, pOpen)
  {
    var r := Chunk(paragraph, pOpen);
    if !StartsWith(paragraph, "<") && !Contains(paragraph, MarkdownCode.Marker) && !IsBlank(paragraph) {
      assert r[..1] == pOpen[..1];
    }
  }

  lemma OccursShifted(a: string, b: string, sub: string, i: nat)
    requires OccursAt(b, sub, i)
    ensures OccursAt(a + b, sub, |a| + i)
  {
    assert (a + b)[|a| + i..|a| + i + |sub|] == b[i..i + |sub|];
  }

  /** Every part is found in the joined string. */
  lemma {:induction false} JoinContainsPart(parts: seq<string>, sep: string, k: nat)
    requires |parts| >= 1 && k < |parts|
    ensures Contains(Join(parts, sep), parts[k])
    decreases k
  {
    var j := Join(parts, sep);
    if |parts| == 1 {
      assert OccursAt(j, parts[0], 0);
    } else if k == 0 {
      assert j == parts[0] + (sep + Join(parts[1..], sep));
      assert OccursAt(j, parts[0], 0);
    } else {
      JoinContainsPart(parts[1..], sep, k - 1);
      var i :| 0 <= i <= |Join(parts[1..], sep)| && OccursAt(Join(parts[1..], sep), parts[k], i);
      assert j == (parts[0] + sep) + Join(parts[1..], sep);
      OccursShifted(parts[0] + sep, Join(parts[1..], sep), parts[k], i);
    }
  }

  lemma ContainsTransitive(a: string, b: string, c: string)
    requires Contains(a, b) && Contains(b, c)
    ensures Contains(a, c)
  {
    var j :| 0 <= j <= |a| && OccursAt(a, b, j);
    var i :| 0 <= i <= |b| && OccursAt(b, c, i);
    forall t | 0 <= t < |c|
      ensures a[j + i + t] == c[t]
    {
      assert c[t] == b[i + t] == a[j..j + |b|][i + t];
    }
    assert a[j + i..j + i + |c|] == c;
    assert OccursAt(a, c, j + i);
  }

  /** A wrapped or kept chunk holds the text it came from. */
  lemma ChunkContains(paragraph: string, pOpen: string)
    requires !IsBlank(paragraph) || StartsWith(paragraph, "<") || Contains(paragraph, MarkdownCode.Marker)
    ensures Contains(Chunk(paragraph, pOpen), paragraph)
  {
    var r := Chunk(paragraph, pOpen);
    if r == paragraph {
      assert OccursAt(r, paragraph, 0);
    } else {
      assert r == pOpen + paragraph + "</p>";
      assert r[|pOpen|..|pOpen| + |paragraph|] == paragraph;
      assert OccursAt(r, paragraph, |pOpen|);
    }
  }

  /** No text is lost: every chunk between blank lines that is not blank
      (markup, a code placeholder or prose) appears whole in the output. */
  lemma ParagraphsKeepText(html: string, pOpen: string, k: nat)
    requires k < |Split(html, "\n\n")|
    requires var c := Split(html, "\n\n")[k];
      !IsBlank(c) || StartsWith(c, "<") || Contains(c, MarkdownCode.Marker)
    ensures Contains(Paragraphs(html, pOpen), Split(html, "\n\n")[k])
  {
    var ps := Split(html, "\n\n");
    var rs := ChunkAll(ps, pOpen);
    ChunkContains(ps[k], pOpen);
    JoinContainsPart(rs, "\n", k);
    ContainsTransitive(Join(rs, "\n"), rs[k], ps[k]);
  }
}
