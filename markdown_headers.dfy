/**
 * The header pass of `renderMarkdown`: four global, multiline replacements
 * `^#### (.*$)`, `^### (.*$)`, `^## (.*$)` and `^# (.*$)`, in that order, each
 * wrapping the rest of a matching line in the tags of its level.
 *
 * In a multiline regex `^` matches at the start of the text and after every
 * line terminator, and `.*$` runs to the next terminator, so one replacement
 * rewrites each line on its own (`MapLines`). The four passes compose into a
 * single per-line rewrite (`HeaderLine`) as long as the inserted tags hold no
 * line terminator.
 */
module MarkdownHeaders {
  import opened JsText

  /** No line terminator in `s`. */
  predicate SingleLine(s: string) {
    forall i | 0 <= i < |s| :: !IsLineTerminator(s[i])
  }

  /** The index of the first line terminator in `s`, or `|s|`. */
  function LineEnd(s: string): (n: nat)
    ensures n <= |s| && SingleLine(s[..n])
    ensures n < |s| ==> IsLineTerminator(s[n])
  {
    if s == [] || IsLineTerminator(s[0]) then 0
    else
      var n := 1 + LineEnd(s[1..]);
      assert s[..n] == [s[0]] + s[1..][..n - 1];
      n
  }

  /** One replacement: the line prefix it matches and the tags put around the rest of the line. */
  datatype HeaderRule = HeaderRule(prefix: string, open: string, close: string)

  /** The tags of the four levels. */
  datatype HeaderTags = HeaderTags(h1: HeaderRule, h2: HeaderRule, h3: HeaderRule, h4: HeaderRule)

  /** The four rules a renderer uses, given the opening tag of each level. */
  function Tags(h1: string, h2: string, h3: string, h4: string): HeaderTags {
    HeaderTags(HeaderRule("# ", h1, "</h1>"), HeaderRule("## ", h2, "</h2>"),
               HeaderRule("### ", h3, "</h3>"), HeaderRule("#### ", h4, "</h4>"))
  }

  /** One replacement on one line: a line starting with the prefix becomes
      the opening tag, the rest of the line, and the closing tag. */
  function RewriteLine(line: string, r: HeaderRule): string {
    if StartsWith(line, r.prefix) then r.open + line[|r.prefix|..] + r.close else line
  }

  /** Replacements applied to one line, in order. */
  function Apply(line: string, rules: seq<HeaderRule>): string
    decreases |rules|
  {
    if rules == [] then line else Apply(RewriteLine(line, rules[0]), rules[1..])
  }

  /** Replacements applied to every line of `s`, the terminators kept in place. */
  function MapLines(s: string, rules: seq<HeaderRule>): string
    decreases |s|
  {
    var n := LineEnd(s);
    if n == |s| then Apply(s, rules) else Apply(s[..n], rules) + [s[n]] + MapLines(s[n + 1..], rules)
  }

  /** One replacement over a whole text. */
  function HeaderPass(s: string, r: HeaderRule): string {
    MapLines(s, [r])
  }

  /** The header pass: levels 4, 3, 2, 1, in that order. */
  function Headers(s: string, t: HeaderTags): string {
    HeaderPass(HeaderPass(HeaderPass(HeaderPass(s, t.h4), t.h3), t.h2), t.h1)
  }

  /** The four replacements applied to a single line, in the same order. */
  function HeaderLine(line: string, t: HeaderTags): string {
    Apply(line, [t.h4, t.h3, t.h2, t.h1])
  }

  /** The inserted tags hold no line terminator. */
  predicate TagsSingleLine(t: HeaderTags) {
    && SingleLine(t.h1.open) && SingleLine(t.h1.close)
    && SingleLine(t.h2.open) && SingleLine(t.h2.close)
    && SingleLine(t.h3.open) && SingleLine(t.h3.close)
    && SingleLine(t.h4.open) && SingleLine(t.h4.close)
  }

  lemma LineEndAt(a: string, c: char, b: string)
    requires SingleLine(a) && IsLineTerminator(c)
    ensures LineEnd(a + [c] + b) == |a|
  {
    var s := a + [c] + b;
    assert s[|a|] == c;
    assert s[..|a|] == a;
  }

  lemma LineEndWhole(a: string)
    requires SingleLine(a)
    ensures LineEnd(a) == |a|
  {
  }

  predicate RulesSingleLine(rules: seq<HeaderRule>) {
    forall k | 0 <= k < |rules| :: SingleLine(rules[k].open) && SingleLine(rules[k].close)
  }

  lemma RewriteKeepsSingleLine(line: string, r: HeaderRule)
    requires SingleLine(line) && SingleLine(r.open) && SingleLine(r.close)
    ensures SingleLine(RewriteLine(line, r))
  {
    if StartsWith(line, r.prefix) {
      var out := r.open + line[|r.prefix|..] + r.close;
      forall i | 0 <= i < |out|
        ensures !IsLineTerminator(out[i])
      {
        if i < |r.open| {
          assert out[i] == r.open[i];
        } else if i < |r.open| + |line| - |r.prefix| {
          assert out[i] == line[i - |r.open| + |r.prefix|];
        } else {
          assert out[i] == r.close[i - |r.open| - |line| + |r.prefix|];
        }
      }
    }
  }

  lemma {:induction false} ApplyKeepsSingleLine(line: string, rules: seq<HeaderRule>)
    requires SingleLine(line) && RulesSingleLine(rules)
    ensures SingleLine(Apply(line, rules))
    decreases |rules|
  {
    if rules != [] {
      RewriteKeepsSingleLine(line, rules[0]);
      ApplyKeepsSingleLine(RewriteLine(line, rules[0]), rules[1..]);
    }
  }

  lemma {:induction false} ApplyAppend(line: string, a: seq<HeaderRule>, b: seq<HeaderRule>)
    ensures Apply(line, a + b) == Apply(Apply(line, a), b)
    decreases |a|
  {
    if a == [] {
      assert a + b == b;
    } else {
      assert (a + b)[0] == a[0] && (a + b)[1..] == a[1..] + b;
      ApplyAppend(RewriteLine(line, a[0]), a[1..], b);
    }
  }

  /** Two line-wise passes compose line by line when the first keeps every line a single line. */
  lemma {:induction false} MapLinesCompose(s: string, a: seq<HeaderRule>, b: seq<HeaderRule>)
    requires RulesSingleLine(a)
    ensures MapLines(MapLines(s, a), b) == MapLines(s, a + b)
    decreases |s|
  {
    var n := LineEnd(s);
    if n == |s| {
      assert s[..n] == s;
      ApplyKeepsSingleLine(s, a);
      LineEndWhole(Apply(s, a));
      ApplyAppend(s, a, b);
    } else {
      var head := Apply(s[..n], a);
      var tail := MapLines(s[n + 1..], a);
      assert MapLines(s, a) == head + [s[n]] + tail;
      MapLinesCompose(s[n + 1..], a, b);
      ApplyKeepsSingleLine(s[..n], a);
      ApplyAppend(s[..n], a, b);
      MapLinesAt(head, s[n], tail, b);
    }
  }

  /** A text whose first line is `a` maps to `a` rewritten, the terminator,
      and the rest mapped. */
  lemma MapLinesAt(a: string, c: char, rest: string, rules: seq<HeaderRule>)
    requires SingleLine(a) && IsLineTerminator(c)
    ensures MapLines(a + [c] + rest, rules) == Apply(a, rules) + [c] + MapLines(rest, rules)
  {
    var t := a + [c] + rest;
    LineEndAt(a, c, rest);
    assert t[..|a|] == a && t[|a|] == c && t[|a| + 1..] == rest;
  }

  /** With single-line tags the four passes over the whole text are one per-line rewrite. */
  lemma HeadersPerLine(s: string, t: HeaderTags)
    requires TagsSingleLine(t)
    ensures Headers(s, t) == MapLines(s, [t.h4, t.h3, t.h2, t.h1])
  {
    MapLinesCompose(s, [t.h4], [t.h3]);
    assert [t.h4] + [t.h3] == [t.h4, t.h3];
    MapLinesCompose(s, [t.h4, t.h3], [t.h2]);
    assert [t.h4, t.h3] + [t.h2] == [t.h4, t.h3, t.h2];
    MapLinesCompose(s, [t.h4, t.h3, t.h2], [t.h1]);
    assert [t.h4, t.h3, t.h2] + [t.h1] == [t.h4, t.h3, t.h2, t.h1];
  }

  /** The opening tags do not start with `#`, so a rewritten line is never matched again. */
  predicate TagsStartOutsideHeaders(t: HeaderTags) {
    && t.h1.open != [] && t.h1.open[0] != '#'
    && t.h2.open != [] && t.h2.open[0] != '#'
    && t.h3.open != [] && t.h3.open[0] != '#'
    && t.h4.open != [] && t.h4.open[0] != '#'
  }

  lemma ApplyCons(line: string, r: HeaderRule, rest: seq<HeaderRule>)
    ensures Apply(line, [r] + rest) == Apply(RewriteLine(line, r), rest)
  {
    assert ([r] + rest)[1..] == rest;
  }

  /** A line whose first character is not `#` matches none of the four prefixes. */
  lemma NoHeaderPrefix(line: string, r: HeaderRule)
    requires line != [] && line[0] != '#'
    requires r.prefix != [] && r.prefix[0] == '#'
    ensures RewriteLine(line, r) == line
  {
  }

  /** Longest prefix first: a line is rewritten at exactly the level of its
      `#` run, so `#### x` becomes an h4 and never an h3; a line with none of
      the four prefixes is left as it is. */
  lemma HeaderLevels(line: string, h1: string, h2: string, h3: string, h4: string)
    requires TagsStartOutsideHeaders(Tags(h1, h2, h3, h4))
    ensures var out := HeaderLine(line, Tags(h1, h2, h3, h4));
      && (StartsWith(line, "#### ") ==> out == h4 + line[5..] + "</h4>")
      && (StartsWith(line, "### ") ==> out == h3 + line[4..] + "</h3>")
      && (StartsWith(line, "## ") ==> out == h2 + line[3..] + "</h2>")
      && (StartsWith(line, "# ") ==> out == h1 + line[2..] + "</h1>")
      && ((!StartsWith(line, "# ") && !StartsWith(line, "## ") && !StartsWith(line, "### ")
           && !StartsWith(line, "#### ")) ==> out == line)
  {
    var t := Tags(h1, h2, h3, h4);
    var out := HeaderLine(line, t);
    var a4 := RewriteLine(line, t.h4);
    var a3 := RewriteLine(a4, t.h3);
    var a2 := RewriteLine(a3, t.h2);
    ApplyCons(line, t.h4, [t.h3, t.h2, t.h1]);
    ApplyCons(a4, t.h3, [t.h2, t.h1]);
    ApplyCons(a3, t.h2, [t.h1]);
    ApplyCons(a2, t.h1, []);
    assert out == RewriteLine(RewriteLine(RewriteLine(RewriteLine(line, t.h4), t.h3), t.h2), t.h1);
    var p1, p2, p3, p4 := "# ", "## ", "### ", "#### ";
    assert p1[0] == '#' && p1[1] == ' ';
    assert p2[0] == '#' && p2[1] == '#' && p2[2] == ' ';
    assert p3[0] == '#' && p3[1] == '#' && p3[2] == '#' && p3[3] == ' ';
    assert p4[0] == '#' && p4[1] == '#' && p4[2] == '#' && p4[3] == '#' && p4[4] == ' ';
    if StartsWith(line, p4) {
      assert line[..5][1] == '#' && line[..5][2] == '#' && line[..5][3] == '#';
      assert !StartsWith(line, p1) && !StartsWith(line, p2) && !StartsWith(line, p3);
      var a := RewriteLine(line, t.h4);
      assert a[0] == h4[0];
      NoHeaderPrefix(a, t.h3);
      NoHeaderPrefix(a, t.h2);
      NoHeaderPrefix(a, t.h1);
    } else if StartsWith(line, p3) {
      assert line[..4][1] == '#' && line[..4][2] == '#' && line[..4][3] == ' ';
      assert !StartsWith(line, p1) && !StartsWith(line, p2);
      var a := RewriteLine(line, t.h3);
      assert a[0] == h3[0];
      NoHeaderPrefix(a, t.h2);
      NoHeaderPrefix(a, t.h1);
    } else if StartsWith(line, p2) {
      assert line[..3][1] == '#' && line[..3][2] == ' ';
      assert !StartsWith(line, p1);
      var a := RewriteLine(line, t.h2);
      assert a[0] == h2[0];
      NoHeaderPrefix(a, t.h1);
    }
  }
}
