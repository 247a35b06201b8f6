/**
 * The demo app's documentation page: a line-by-line markdown classifier, the
 * previous/next buttons of its footer, and the sidebar and mobile-menu state.
 *
 * Each line of a document becomes at most one block, chosen by a fixed order
 * of tests: headers, code fence, inline code, list item, table separator,
 * table row, paragraph, nothing. The documents' texts are parameters.
 */
module DemoDocs {
  import opened Wrappers
  import opened JsText

  /** A piece of a line with inline code: plain text or code. */
  datatype Span = Plain(text: string) | CodeSpan(code: string)

  /** What one line renders as. */
  datatype Block =
    | H1(text: string)
    | H2(text: string)
    | H3(text: string)
    | Pre(code: string)
    | Inline(spans: seq<Span>)
    | Item(text: string)
    | Row(cells: seq<string>)
    | Para(text: string)

  /** `parts.map((part, j) => j % 2 === 0 ? part : <code>)` */
  function Spans(parts: seq<string>): (spans: seq<Span>)
    ensures |spans| == |parts|
    ensures forall j | 0 <= j < |parts| :: spans[j] == if j % 2 == 0 then Plain(parts[j]) else CodeSpan(parts[j])
  {
    seq(|parts|, j requires 0 <= j < |parts| => if j % 2 == 0 then Plain(parts[j]) else CodeSpan(parts[j]))
  }

  /** `split('|').filter(c => c.trim())` */
  function NonBlank(parts: seq<string>): (r: seq<string>)
    ensures forall k | 0 <= k < |r| :: !IsBlank(r[k])
    ensures |r| <= |parts|
  {
    if parts == [] then []
    else (if !IsBlank(parts[0]) then [parts[0]] else []) + NonBlank(parts[1..])
  }

  /** The filter keeps exactly the non-blank parts. */
  lemma {:induction false} NonBlankKeeps(parts: seq<string>)
    ensures forall p | p in NonBlank(parts) :: p in parts && !IsBlank(p)
    ensures forall p | p in parts && !IsBlank(p) :: p in NonBlank(parts)
    decreases |parts|
  {
    if parts != [] {
      NonBlankKeeps(parts[1..]);
      assert parts == [parts[0]] + parts[1..];
    }
  }

  /** The filter works part by part: what it keeps of a concatenation is what
      it keeps of each half, in order. */
  lemma {:induction false} NonBlankAppend(a: seq<string>, b: seq<string>)
    ensures NonBlank(a + b) == NonBlank(a) + NonBlank(b)
    decreases |a|
  {
    if a == [] {
      assert a + b == b;
    } else {
      var h := if !IsBlank(a[0]) then [a[0]] else [];
      assert NonBlank(a + b) == h + NonBlank(a[1..] + b) by {
        assert a + b == [a[0]] + (a[1..] + b);
        NonBlankCons(a[0], a[1..] + b);
      }
      assert NonBlank(a) == h + NonBlank(a[1..]) by {
        assert a == [a[0]] + a[1..];
        NonBlankCons(a[0], a[1..]);
      }
      NonBlankAppend(a[1..], b);
    }
  }

  lemma NonBlankCons(x: string, rest: seq<string>)
    ensures NonBlank([x] + rest) == (if !IsBlank(x) then [x] else []) + NonBlank(rest)
  {
    assert ([x] + rest)[0] == x && ([x] + rest)[1..] == rest;
  }

  /** Of one part, the filter keeps that part exactly when it is not blank. */
  lemma NonBlankOne(p: string)
    ensures NonBlank([p]) == if IsBlank(p) then [] else [p]
  {
    assert [p][1..] == [];
  }

  /** A line starting with three backticks contains a backtick. */
  lemma FenceHasTick(line: string)
    ensures StartsWith(line, "```") ==> Contains(line, "`")
  {
    if StartsWith(line, "```") {
      assert OccursAt(line, "`", 0);
    }
  }

  /** A line that starts with one prefix does not start with another whose
      first character differs. */
  lemma PrefixExcludes(line: string, p: string, q: string)
    requires p != [] && q != [] && p[0] != q[0] && StartsWith(line, p)
    ensures !StartsWith(line, q)
  {
    assert line[0] == p[0];
  }

  /** No slice of a string holds a character the string does not hold. */
  lemma SliceKeepsOut(p: string, i: nat, j: nat, c: char)
    requires i <= j <= |p| && !Contains(p, [c])
    ensures forall m | 0 <= m < j - i :: p[i..j][m] != c
  {
    forall m | 0 <= m < j - i ensures p[i..j][m] != c {
      assert p[i + m..i + m + 1] == [p[i + m]];
      assert !OccursAt(p, [c], i + m);
    }
  }

  /** Trimming cannot bring in a character the string does not hold. */
  lemma TrimKeepsOut(p: string, c: char)
    requires !Contains(p, [c])
    ensures forall m | 0 <= m < |Trim(p)| :: Trim(p)[m] != c
  {
    var i, j :| 0 <= i <= j <= |p| && Trim(p) == p[i..j] && IsBlank(p[..i]) && IsBlank(p[j..]);
    SliceKeepsOut(p, i, j, c);
  }

  /** The code of a fence block whose opening line ends at `start`: the
      text up to the next fence, trimmed. When no fence follows, `substring`
      with `-1` swaps its bounds and takes the text before `start`. */
  function CodeAfter(content: string, start: int): string {
    Trim(Substring(content, start, IndexOf(content, "```", start)))
  }

  /** The code of a fence line, which starts after the line's first
      occurrence in the whole text. */
  function FenceCode(content: string, line: string): string {
    CodeAfter(content, IndexOf(content, line, 0) + |line|)
  }

  /** The block a line renders as, in the order the tests are made. */
  function Classify(content: string, line: string): Option<Block> {
    if StartsWith(line, "# ") then Some(H1(line[2..]))
    else if StartsWith(line, "## ") then Some(H2(line[3..]))
    else if StartsWith(line, "### ") then Some(H3(line[4..]))
    else if StartsWith(line, "```") then Some(Pre(FenceCode(content, line)))
    else if Contains(line, "`") then Some(Inline(Spans(Split(line, "`"))))
    else if StartsWith(line, "- ") then Some(Item(line[2..]))
    else if Contains(line, "|") && Contains(line, "-") then None
    else if Contains(line, "|") then Some(Row(TrimAll(NonBlank(Split(line, "|")))))
    else if !IsBlank(line) then Some(Para(line))
    else None
  }

  /** The blocks of the given lines, nulls filtered out. */
  function RenderLines(content: string, lines: seq<string>): (r: seq<Block>)
    ensures |r| <= |lines|
  {
    if lines == [] then []
    else LineBlocks(content, lines[0]) + RenderLines(content, lines[1..])
  }

  /** The block a line renders as, if any. */
  function LineBlocks(content: string, line: string): (r: seq<Block>)
    ensures |r| <= 1
  {
    match Classify(content, line) case Some(b) => [b] case None => []
  }

  /** `renderMarkdown(content)` */
  function Render(content: string): seq<Block> {
    RenderLines(content, Split(content, "\n"))
  }

  /** Headers are told apart by their exact prefix, which is stripped: a
      `## ` line is an h2 and never an h1, a `### ` line an h3. */
  lemma HeaderPrefixes(content: string, line: string)
    ensures StartsWith(line, "# ") ==> Classify(content, line) == Some(H1(line[2..]))
    ensures StartsWith(line, "## ") ==> Classify(content, line) == Some(H2(line[3..]))
    ensures StartsWith(line, "### ") ==> Classify(content, line) == Some(H3(line[4..]))
  {
    if StartsWith(line, "## ") || StartsWith(line, "### ") {
      assert line[1] == '#';
      assert !StartsWith(line, "# ") by { assert "# "[1] == ' '; }
      if StartsWith(line, "### ") {
        assert line[2] == '#';
        assert !StartsWith(line, "## ") by { assert "## "[2] == ' '; }
      }
    }
  }

  /** The code after `start` is the trimmed text up to the next fence,
      which holds no fence; with no later fence it is the trimmed text before
      `start`. */
  lemma CodeAfterSpan(content: string, start: nat)
    requires start <= |content|
    ensures var close := IndexOf(content, "```", start);
      && (close >= 0 ==> start <= close && CodeAfter(content, start) == Trim(content[start..close])
                         && !Contains(content[start..close], "```"))
      && (close < 0 ==> CodeAfter(content, start) == Trim(content[..start]))
  {
    var close := IndexOf(content, "```", start);
    assert Clamp(start, |content|) == start;
    if close >= 0 {
      forall j | 0 <= j <= close - start && OccursAt(content[start..close], "```", j)
        ensures false
      {
        OccursInSlice(content, start, close, "```", j);
      }
    } else {
      assert Clamp(close, |content|) == 0;
    }
  }

  /** A line of the text is found in it, so its block's code starts inside the text. */
  lemma FenceStart(content: string, line: string)
    requires Contains(content, line)
    ensures 0 <= IndexOf(content, line, 0) && IndexOf(content, line, 0) + |line| <= |content|
  {
    var i :| 0 <= i <= |content| && OccursAt(content, line, i);
  }

  /** A line starting with a fence is none of the headers and renders as a
      code block. */
  lemma FenceLineIsPre(content: string, line: string)
    requires StartsWith(line, "```")
    ensures Classify(content, line) == Some(Pre(FenceCode(content, line)))
  {
    assert line[0] == '`' by { assert line[..3] == "```"; }
    assert !StartsWith(line, "# ") by { assert "# "[0] == '#'; }
    assert !StartsWith(line, "## ") by { assert "## "[0] == '#'; }
    assert !StartsWith(line, "### ") by { assert "### "[0] == '#'; }
  }

  /** A line with a backtick is cut at every backtick: the pieces alternate
      plain text and code, starting with text, and put back together with
      the backticks they give the line back. */
  lemma InlineSpans(content: string, line: string)
    requires Contains(line, "`") && !StartsWith(line, "```")
    requires !StartsWith(line, "# ") && !StartsWith(line, "## ") && !StartsWith(line, "### ")
    ensures Classify(content, line).Some? && Classify(content, line).value.Inline?
    ensures var spans := Classify(content, line).value.spans;
      && spans[0].Plain?
      && (forall j | 0 <= j < |spans| :: spans[j].CodeSpan? <==> j % 2 == 1)
      && Join(Texts(spans), "`") == line
  {
    var parts := Split(line, "`");
    JoinSplit(line, "`");
    assert Texts(Spans(parts)) == parts;
  }

  /** The text of each span. */
  function Texts(spans: seq<Span>): (r: seq<string>)
    ensures |r| == |spans|
    ensures forall j | 0 <= j < |spans| :: r[j] == if spans[j].Plain? then spans[j].text else spans[j].code
  {
    seq(|spans|, j requires 0 <= j < |spans| => if spans[j].Plain? then spans[j].text else spans[j].code)
  }

  /** A table line renders as a row whose cells are, in order, the non-blank
      segments between pipes, each trimmed: so non-empty, without surrounding
      whitespace, and holding no pipe. A line with both a pipe and a dash is a
      separator and renders nothing. */
  lemma TableLines(content: string, line: string)
    requires Contains(line, "|") && !Contains(line, "`")
    requires !StartsWith(line, "# ") && !StartsWith(line, "## ") && !StartsWith(line, "### ")
    requires !StartsWith(line, "- ")
    ensures Contains(line, "-") ==> Classify(content, line).None?
    ensures !Contains(line, "-") ==> Classify(content, line).Some? && Classify(content, line).value.Row?
    ensures !Contains(line, "-") ==>
      var pieces := NonBlank(Split(line, "|"));
      var cells := Classify(content, line).value.cells;
      && |cells| == |pieces|
      && (forall k | 0 <= k < |cells| :: cells[k] == Trim(pieces[k]))
      && (forall k | 0 <= k < |cells| :: cells[k] != [] && !IsSpace(cells[k][0]) && !IsSpace(cells[k][|cells[k]| - 1]))
      && (forall k, m | 0 <= k < |cells| && 0 <= m < |cells[k]| :: cells[k][m] != '|')
  {
    FenceHasTick(line);
    SplitPiecesAvoidSeparator(line, "|");
    TrimmedCells(Split(line, "|"), '|');
  }

  /** Trimming the non-blank parts gives non-empty cells without surrounding
      whitespace, and none holds a character that no part holds. */
  lemma TrimmedCells(parts: seq<string>, c: char)
    requires forall k | 0 <= k < |parts| :: !Contains(parts[k], [c])
    ensures var cells := TrimAll(NonBlank(parts));
      && (forall k | 0 <= k < |cells| :: cells[k] != [] && !IsSpace(cells[k][0]) && !IsSpace(cells[k][|cells[k]| - 1]))
      && (forall k, m | 0 <= k < |cells| && 0 <= m < |cells[k]| :: cells[k][m] != c)
  {
    var pieces := NonBlank(parts);
    NonBlankKeeps(parts);
    forall k | 0 <= k < |pieces|
      ensures !IsBlank(pieces[k])
      ensures forall m | 0 <= m < |Trim(pieces[k])| :: Trim(pieces[k])[m] != c
    {
      assert pieces[k] in parts;
      var q :| 0 <= q < |parts| && parts[q] == pieces[k];
      TrimKeepsOut(pieces[k], c);
    }
  }

  /** A line starting with a dash and a space, and without backticks, is a
      list item holding the rest of the line. */
  lemma ListItemLine(content: string, line: string)
    requires StartsWith(line, "- ") && !Contains(line, "`")
    ensures Classify(content, line) == Some(Item(line[2..]))
  {
    PrefixExcludes(line, "- ", "# ");
    PrefixExcludes(line, "- ", "## ");
    PrefixExcludes(line, "- ", "### ");
    PrefixExcludes(line, "- ", "```");
  }

  /** A non-blank line that matches none of the earlier tests is a paragraph
      holding the whole line, untrimmed. */
  lemma ParagraphLine(content: string, line: string)
    requires !IsBlank(line) && !Contains(line, "`") && !Contains(line, "|")
    requires !StartsWith(line, "# ") && !StartsWith(line, "## ") && !StartsWith(line, "### ")
    requires !StartsWith(line, "- ")
    ensures Classify(content, line) == Some(Para(line))
  {
    FenceHasTick(line);
  }

  /** Blank lines and separators render nothing; every other line renders one
      block, and the blocks keep the order of the lines. */
  lemma {:induction false} RenderLinesAppend(content: string, a: seq<string>, b: seq<string>)
    ensures RenderLines(content, a + b) == RenderLines(content, a) + RenderLines(content, b)
    decreases |a|
  {
    if a == [] {
      assert a + b == b;
    } else {
      var x := LineBlocks(content, a[0]);
      assert (a + b)[0] == a[0] && (a + b)[1..] == a[1..] + b;
      RenderLinesAppend(content, a[1..], b);
      assert RenderLines(content, a + b) == x + RenderLines(content, a[1..] + b);
      assert RenderLines(content, a) == x + RenderLines(content, a[1..]);
    }
  }

  lemma BlankLineRendersNothing(content: string, line: string)
    requires IsBlank(line)
    ensures RenderLines(content, [line]) == []
  {
    if line != [] {
      assert IsSpace(line[0]);
      assert !StartsWith(line, "# ") && !StartsWith(line, "## ") && !StartsWith(line, "### ");
      assert !StartsWith(line, "```") && !StartsWith(line, "- ");
      forall i | 0 <= i <= |line| ensures !OccursAt(line, "`", i) && !OccursAt(line, "|", i) {
        if i < |line| {
          assert IsSpace(line[i]);
          assert line[i..i + 1][0] == line[i];
        }
      }
    }
  }

  // ----- Footer -----

  /** The documents in sidebar order, and their titles. */
  const DocKeys: seq<string> := ["getting-started", "api-reference", "configuration", "examples", "advanced"]
  const DocTitles: seq<string> := ["Getting Started", "API Reference", "Configuration", "Examples", "Advanced Features"]

  /** A footer button: the document it opens, its caption, and whether it is
      pushed to the right (`ml-auto`). */
  datatype FooterButton = FooterButton(key: string, caption: string, right: bool)

  /** The footer entry for the document at `index`: the one after the active
      document gets `← title`, the one before it gets `title →` on the right. */
  function FooterEntry(keys: seq<string>, titles: seq<string>, active: string, index: nat): Option<FooterButton>
    requires |titles| == |keys| && index < |keys|
  {
    if index > 0 && keys[index - 1] == active then Some(FooterButton(keys[index], "← " + titles[index], false))
    else if index < |keys| - 1 && keys[index + 1] == active then Some(FooterButton(keys[index], titles[index] + " →", true))
    else None
  }

  /** The footer's buttons from `index` on, nulls dropped. */
  function Footer(keys: seq<string>, titles: seq<string>, active: string, index: nat): seq<FooterButton>
    requires |titles| == |keys| && index <= |keys|
    decreases |keys| - index
  {
    if index == |keys| then []
    else
      (match FooterEntry(keys, titles, active, index) case Some(b) => [b] case None => [])
      + Footer(keys, titles, active, index + 1)
  }

  predicate Distinct(keys: seq<string>) {
    forall i, j | 0 <= i < j < |keys| :: keys[i] != keys[j]
  }

  /** The entries a footer shows from `index` on, given where the active
      document is: only its two neighbours. */
  function Neighbours(keys: seq<string>, titles: seq<string>, a: nat, index: nat): seq<FooterButton>
    requires |titles| == |keys| && a < |keys|
  {
    (if 0 < a && index <= a - 1 then [FooterButton(keys[a - 1], titles[a - 1] + " →", true)] else [])
    + (if a + 1 < |keys| && index <= a + 1 then [FooterButton(keys[a + 1], "← " + titles[a + 1], false)] else [])
  }

  lemma {:induction false} FooterFrom(keys: seq<string>, titles: seq<string>, a: nat, index: nat)
    requires |titles| == |keys| && Distinct(keys) && a < |keys| && index <= |keys|
    ensures Footer(keys, titles, keys[a], index) == Neighbours(keys, titles, a, index)
    decreases |keys| - index
  {
    if index < |keys| {
      FooterFrom(keys, titles, a, index + 1);
      var e := FooterEntry(keys, titles, keys[a], index);
      if index == a + 1 {
        assert e == Some(FooterButton(keys[a + 1], "← " + titles[a + 1], false));
      } else if index + 1 == a {
        assert e == Some(FooterButton(keys[a - 1], titles[a - 1] + " →", true));
      } else {
        assert index > 0 ==> keys[index - 1] != keys[a];
        assert index < |keys| - 1 ==> keys[index + 1] != keys[a];
        assert e == None;
      }
    }
  }

  /** With distinct keys the footer holds exactly the neighbours of the
      active document: the one before it (on the right, `title →`) when it is
      not the first, then the one after it (on the left, `← title`) when it is
      not the last. */
  lemma FooterNeighbours(keys: seq<string>, titles: seq<string>, a: nat)
    requires |titles| == |keys| && Distinct(keys) && a < |keys|
    ensures var f := Footer(keys, titles, keys[a], 0);
      && f == Neighbours(keys, titles, a, 0)
      && (a == 0 ==> forall b | b in f :: !b.right)
      && (a == |keys| - 1 ==> forall b | b in f :: b.right)
  {
    FooterFrom(keys, titles, a, 0);
  }

  lemma DocKeysDistinct()
    ensures Distinct(DocKeys) && |DocTitles| == |DocKeys|
  {
    assert DocKeys[0][0] == 'g' && DocKeys[1][0] == 'a' && DocKeys[2][0] == 'c'
        && DocKeys[3][0] == 'e' && DocKeys[4][0] == 'a';
    assert DocKeys[1][1] == 'p' && DocKeys[4][1] == 'd';
  }

  // ----- Sidebar and menu -----

  datatype NavState = NavState(activeDoc: string, menuOpen: bool)

  datatype NavEvent = MenuToggled | SidebarClicked(key: string) | FooterClicked(key: string)

  const InitialNav := NavState("getting-started", false)

  /** The state after an event: the menu button toggles the menu, a sidebar
      click opens its document and closes the menu, a footer click opens its
      document. */
  function NavStep(s: NavState, e: NavEvent): NavState {
    match e
      case MenuToggled => s.(menuOpen := !s.menuOpen)
      case SidebarClicked(key) => NavState(key, false)
      case FooterClicked(key) => s.(activeDoc := key)
  }

  /** The events the page can produce in a state: clicks name a document of
      the sidebar, and footer clicks a button the footer shows. */
  predicate NavEnabled(s: NavState, e: NavEvent) {
    match e
      case MenuToggled => true
      case SidebarClicked(key) => key in DocKeys
      case FooterClicked(key) => exists b | b in Footer(DocKeys, DocTitles, s.activeDoc, 0) :: b.key == key
  }

  /** Toggling the menu twice restores the state; a sidebar click always
      leaves the menu closed; every enabled event keeps the active document
      one of the sidebar's. */
  lemma NavProperties(s: NavState, e: NavEvent)
    ensures NavStep(NavStep(s, MenuToggled), MenuToggled) == s
    ensures e.SidebarClicked? ==> !NavStep(s, e).menuOpen
    ensures s.activeDoc in DocKeys && NavEnabled(s, e) ==> NavStep(s, e).activeDoc in DocKeys
  {
    if s.activeDoc in DocKeys && NavEnabled(s, e) && e.FooterClicked? {
      var a :| 0 <= a < |DocKeys| && DocKeys[a] == s.activeDoc;
      FooterClickAdjacent(s, e.key, a);
    }
  }

  /** A footer click moves to the document just before or just after the
      active one. */
  lemma FooterClickAdjacent(s: NavState, key: string, a: nat)
    requires a < |DocKeys| && DocKeys[a] == s.activeDoc && NavEnabled(s, FooterClicked(key))
    ensures (a > 0 && key == DocKeys[a - 1]) || (a + 1 < |DocKeys| && key == DocKeys[a + 1])
  {
    DocKeysDistinct();
    FooterKeyAdjacent(DocKeys, DocTitles, a, key);
  }

  /** Every button of the footer opens a neighbour of the active document. */
  lemma FooterKeyAdjacent(keys: seq<string>, titles: seq<string>, a: nat, key: string)
    requires |titles| == |keys| && Distinct(keys) && a < |keys|
    requires exists b | b in Footer(keys, titles, keys[a], 0) :: b.key == key
    ensures (a > 0 && key == keys[a - 1]) || (a + 1 < |keys| && key == keys[a + 1])
  {
    FooterFrom(keys, titles, a, 0);
    var b :| b in Neighbours(keys, titles, a, 0) && b.key == key;
  }

  /** The page's two pieces of state. */
  class DocsNav {
    var activeDoc: string
    var mobileMenuOpen: bool

    function State(): NavState
      reads this
    {
      NavState(activeDoc, mobileMenuOpen)
    }

    constructor ()
      ensures State() == InitialNav
    {
      activeDoc := "getting-started";
      mobileMenuOpen := false;
    }

    method ToggleMenu()
      modifies this
      ensures State() == NavStep(old(State()), MenuToggled)
    {
      mobileMenuOpen := !mobileMenuOpen;
    }

    method SelectDoc(key: string)
      modifies this
      ensures State() == NavStep(old(State()), SidebarClicked(key))
    {
      activeDoc := key;
      mobileMenuOpen := false;
    }

    method FooterClick(key: string)
      modifies this
      ensures State() == NavStep(old(State()), FooterClicked(key))
    {
      activeDoc := key;
    }
  }
}
