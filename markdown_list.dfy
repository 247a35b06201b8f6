/**
 * The list-wrapping pass that opens `renderMarkdown` in both documentation
 * renderers: the text is split into lines, each list-item line becomes an
 * `<li>`, and an `inList` flag decides where `<ul …>` openers and `</ul>`
 * closers are inserted.
 *
 * `Events` is the specification: the sequence of emitted lines as data, where
 * every output line is either an opener, a closer, or one input line. The
 * method `WrapLists` is the loop of the source, proved to emit exactly the
 * rendering of `Events`.
 */
module MarkdownList {
  import opened JsText

  /** `/^[\-\*]\s/`: a dash or a star, then whitespace, at the very start. */
  predicate IsBulletItem(line: string) {
    |line| >= 2 && (line[0] == '-' || line[0] == '*') && IsSpace(line[1])
  }

  /** `/^\d+\.\s/`: digits, a dot, then whitespace, at the very start. The
      digit run is the maximal one, since a dot is not a digit. */
  predicate IsNumberedItem(line: string) {
    var n := LeadingDigits(line);
    1 <= n && n + 2 <= |line| && line[n] == '.' && IsSpace(line[n + 1])
  }

  predicate IsListItem(line: string) {
    IsBulletItem(line) || IsNumberedItem(line)
  }

  /** `line.replace(/^[\-\*]\s/, '<li>')` */
  function ReplaceBullet(line: string): string {
    if IsBulletItem(line) then "<li>" + line[2..] else line
  }

  /** `line.replace(/^\d+\.\s/, '<li>')` */
  function ReplaceNumber(line: string): string {
    if IsNumberedItem(line) then "<li>" + line[LeadingDigits(line) + 2..] else line
  }

  /** The rewriting of a list-item line, in the source's order: the bullet
      replace, then `</li>` appended, then the number replace. */
  function ItemLine(line: string): string {
    ReplaceNumber(ReplaceBullet(line) + "</li>")
  }

  /** One line of output, as data: an opener, a closer, or an input line
      (marked when it was a list item and so is rewritten). */
  datatype Emitted = Open | Close | Line(text: string, item: bool)

  /** Whether a line that is not an item, met inside a list, closes it: it must be blank. */
  predicate Leaves(line: string, inList: bool) {
    !IsListItem(line) && inList && IsBlank(line)
  }

  /** What is emitted before a line: an opener at an item outside a list, a
      closer at a blank line inside one, otherwise nothing. */
  function Before(line: string, inList: bool): seq<Emitted> {
    if IsListItem(line) && !inList then [Open] else if Leaves(line, inList) then [Close] else []
  }

  /** The `inList` flag after a line. */
  function After(line: string, inList: bool): bool {
    if IsListItem(line) then true else if Leaves(line, inList) then false else inList
  }

  /** The lines the pass emits for `lines` when it starts with the given `inList` flag. */
  function Events(lines: seq<string>, inList: bool): seq<Emitted>
    decreases |lines|
  {
    if lines == [] then (if inList then [Close] else [])
    else
      Before(lines[0], inList) + [Line(lines[0], IsListItem(lines[0]))]
      + Events(lines[1..], After(lines[0], inList))
  }

  function RenderEvent(e: Emitted, opener: string): string {
    match e
    case Open => opener
    case Close => "</ul>"
    case Line(text, item) => if item then ItemLine(text) else text
  }

  function RenderAll(es: seq<Emitted>, opener: string): (out: seq<string>)
    ensures |out| == |es|
    ensures forall i | 0 <= i < |es| :: out[i] == RenderEvent(es[i], opener)
  {
    if es == [] then [] else [RenderEvent(es[0], opener)] + RenderAll(es[1..], opener)
  }

  /** The input lines carried by the events, in order. */
  function Originals(es: seq<Emitted>): seq<string> {
    if es == [] then []
    else (if es[0].Line? then [es[0].text] else []) + Originals(es[1..])
  }

  /** Openers and closers alternate, starting from the given state; every
      item line is inside a list; and no list is open at the end. */
  predicate Nested(es: seq<Emitted>, open: bool) {
    if es == [] then !open
    else match es[0]
      case Open => !open && Nested(es[1..], true)
      case Close => open && Nested(es[1..], false)
      case Line(_, item) => (item ==> open) && Nested(es[1..], open)
  }

  /** One iteration of the loop: pushes the opener or closer the line calls
      for, then the (rewritten) line, and updates `inList`. */
  method EmitLine(processed: seq<string>, line: string, inList: bool, opener: string)
    returns (out: seq<string>, nowInList: bool)
    ensures out == processed + RenderAll(Before(line, inList) + [Line(line, IsListItem(line))], opener)
    ensures nowInList == After(line, inList)
  {
    RenderLine(line, inList, opener);
    out := processed;
    nowInList := inList;
    var isListItem := IsListItem(line);
    if isListItem && !inList {
      out := out + [opener];
      nowInList := true;
    } else if !isListItem && inList && Trim(line) == "" {
      out := out + ["</ul>"];
      nowInList := false;
    }
    var emittedLine := line;
    if isListItem {
      emittedLine := ItemLine(line);
    }
    out := out + [emittedLine];
  }

  /** The list pass over a whole text: split on `\n`, wrap, join with `\n`. */
  method WrapLists(text: string, opener: string) returns (html: string)
    ensures html == Join(RenderAll(Events(Split(text, "\n"), false), opener), "\n")
  {
    var lines := Split(text, "\n");
    var inList := false;
    var processed: seq<string> := [];
    var i := 0;
    assert lines[i..] == lines;
    while i < |lines|
      invariant 0 <= i <= |lines|
      invariant processed + RenderAll(Events(lines[i..], inList), opener)
                == RenderAll(Events(lines, false), opener)
    {
      ghost var done := processed;
      ghost var rest := RenderAll(Events(lines[i + 1..], After(lines[i], inList)), opener);
      ghost var added := RenderAll(Before(lines[i], inList) + [Line(lines[i], IsListItem(lines[i]))], opener);
      EventsStep(lines, i, inList, opener);
      processed, inList := EmitLine(processed, lines[i], inList, opener);
      SeqAssoc(done, added, rest);
      i := i + 1;
    }
    assert lines[i..] == [];
    if inList {
      assert RenderAll(Events([], true), opener) == ["</ul>"];
      processed := processed + ["</ul>"];
    } else {
      assert processed + [] == processed;
    }
    html := Join(processed, "\n");
  }

  /** Unfolds the specification by one input line. */
  lemma EventsStep(lines: seq<string>, i: nat, inList: bool, opener: string)
    requires i < |lines|
    ensures RenderAll(Events(lines[i..], inList), opener)
            == RenderAll(Before(lines[i], inList) + [Line(lines[i], IsListItem(lines[i]))], opener)
               + RenderAll(Events(lines[i + 1..], After(lines[i], inList)), opener)
  {
    assert lines[i..][0] == lines[i] && lines[i..][1..] == lines[i + 1..];
    RenderAllAppend(Before(lines[i], inList) + [Line(lines[i], IsListItem(lines[i]))],
                    Events(lines[i + 1..], After(lines[i], inList)), opener);
  }

  lemma SeqAssoc(a: seq<string>, b: seq<string>, c: seq<string>)
    ensures (a + b) + c == a + (b + c)
  {
  }

  /** What one input line contributes to the output. */
  lemma RenderLine(line: string, inList: bool, opener: string)
    ensures RenderAll(Before(line, inList) + [Line(line, IsListItem(line))], opener)
            == (if IsListItem(line) && !inList then [opener]
                else if !IsListItem(line) && inList && Trim(line) == "" then ["</ul>"]
                else [])
               + [if IsListItem(line) then ItemLine(line) else line]
  {
  }

  lemma {:induction false} RenderAllAppend(a: seq<Emitted>, b: seq<Emitted>, opener: string)
    ensures RenderAll(a + b, opener) == RenderAll(a, opener) + RenderAll(b, opener)
  {
    assert |RenderAll(a + b, opener)| == |a + b|;
  }

  lemma {:induction false} OriginalsAppend(a: seq<Emitted>, b: seq<Emitted>)
    ensures Originals(a + b) == Originals(a) + Originals(b)
    decreases |a|
  {
    if a == [] {
      assert a + b == b;
    } else {
      assert (a + b)[1..] == a[1..] + b;
      OriginalsAppend(a[1..], b);
    }
  }

  /** Every input line appears exactly once and in order; everything else is an opener or a closer. */
  lemma {:induction false} LinesPreserved(lines: seq<string>, inList: bool)
    ensures Originals(Events(lines, inList)) == lines
    decreases |lines|
  {
    if lines != [] {
      var line := lines[0];
      var item := IsListItem(line);
      var pre := Before(line, inList);
      var next := After(line, inList);
      LinesPreserved(lines[1..], next);
      OriginalsAppend(pre + [Line(line, item)], Events(lines[1..], next));
      OriginalsAppend(pre, [Line(line, item)]);
      assert Originals([Line(line, item)]) == [line];
      assert Originals(pre) == [];
      assert lines == [line] + lines[1..];
    }
  }

  /** Openers and closers strictly alternate, every item is inside a list, and the lists are balanced at the end. */
  lemma {:induction false} EventsNested(lines: seq<string>, inList: bool)
    ensures Nested(Events(lines, inList), inList)
    decreases |lines|
  {
    if lines != [] {
      var line := lines[0];
      var item := IsListItem(line);
      var next := After(line, inList);
      var rest := Events(lines[1..], next);
      EventsNested(lines[1..], next);
      var es := Events(lines, inList);
      if item && !inList {
        assert es == [Open, Line(line, item)] + rest;
        assert es[1..] == [Line(line, item)] + rest;
        assert es[1..][1..] == rest;
      } else if Leaves(line, inList) {
        assert es == [Close, Line(line, item)] + rest;
        assert es[1..] == [Line(line, item)] + rest;
        assert es[1..][1..] == rest;
      } else {
        assert es == [Line(line, item)] + rest;
        assert es[1..] == rest;
      }
    }
  }

  /** At position `i`, an opener is followed by a list item, and a closer by a
      blank line that is not an item, or by nothing. */
  predicate SiteOk(es: seq<Emitted>, i: nat)
    requires i < |es|
  {
    && (es[i] == Open ==> i + 1 < |es| && es[i + 1].Line? && es[i + 1].item)
    && (es[i] == Close ==> i + 1 == |es|
                           || (es[i + 1].Line? && !es[i + 1].item && IsBlank(es[i + 1].text)))
  }

  /** A list opens only right before a list item, and closes only right before
      a blank line that is not an item, or at the very end. */
  lemma {:induction false} OpenAndCloseSites(lines: seq<string>, inList: bool)
    ensures forall i | 0 <= i < |Events(lines, inList)| :: SiteOk(Events(lines, inList), i)
    decreases |lines|
  {
    if lines != [] {
      var line := lines[0];
      var item := IsListItem(line);
      var next := After(line, inList);
      var pre := Before(line, inList);
      var rest := Events(lines[1..], next);
      OpenAndCloseSites(lines[1..], next);
      var es := Events(lines, inList);
      var d := |pre| + 1;
      assert es == pre + [Line(line, item)] + rest;
      forall i | 0 <= i < |es|
        ensures SiteOk(es, i)
      {
        if i < d - 1 {
          assert es[i] == pre[0] && es[i + 1] == Line(line, item);
        } else if i == d - 1 {
          assert es[i] == Line(line, item);
        } else {
          assert es[i] == rest[i - d];
          assert SiteOk(rest, i - d);
          if i + 1 < |es| {
            assert es[i + 1] == rest[i + 1 - d];
          }
        }
      }
    }
  }

  /** `- x` and `* x` (any whitespace after the marker) become `<li>x</li>`. */
  lemma BulletItemLine(marker: char, space: char, x: string)
    requires marker == '-' || marker == '*'
    requires IsSpace(space)
    ensures IsListItem([marker, space] + x)
    ensures ItemLine([marker, space] + x) == "<li>" + x + "</li>"
  {
    var line := [marker, space] + x;
    assert line[2..] == x;
    var t := "<li>" + x + "</li>";
    assert t[0] == '<';
    assert LeadingDigits(t) == 0;
  }

  /** `N. x` (any digits, a dot, any whitespace) becomes `<li>x</li>`. */
  lemma NumberedItemLine(digits: string, space: char, x: string)
    requires digits != [] && AllDigits(digits)
    requires IsSpace(space)
    ensures IsListItem(digits + [ '.', space] + x)
    ensures ItemLine(digits + ['.', space] + x) == "<li>" + x + "</li>"
  {
    var line := digits + ['.', space] + x;
    LeadingDigitsOfNumber(digits, ['.', space] + x);
    assert line == digits + (['.', space] + x);
    assert line[|digits|] == '.' && line[|digits| + 1] == space;
    assert !IsBulletItem(line) by {
      assert IsDigit(line[0]);
    }
    var appended := line + "</li>";
    assert appended == digits + (['.', space] + x + "</li>");
    LeadingDigitsOfNumber(digits, ['.', space] + x + "</li>");
    assert appended[|digits| + 2..] == x + "</li>";
  }
}
