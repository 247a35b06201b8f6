/**
 * Fenced code in `renderMarkdown`: the global replacement of
 * /```(\w+)?\n([\s\S]*?)```/ by numbered placeholders `__CODE_BLOCK_k__`,
 * each remembered as a code-block component; and, at the end, the split of
 * the finished markup on /__CODE_BLOCK_\d+__/ and the interleaving of the
 * pieces with the components.
 *
 * `Extract` cuts a text into the pieces between fences and the fences
 * themselves; `Assemble` puts the pieces back with placeholders in place of
 * the fences; `SplitPlaceholders` is the regex split; `Interleaved` is what
 * the final loop emits. The round trip `SplitPlaceholders(Assemble(texts)) ==
 * texts` holds whenever no piece contains `__CODE_BLOCK_` itself.
 */
module MarkdownCode {
  import opened Wrappers
  import opened JsText

  const Fence := "```"

  /** The fixed start of every placeholder. */
  const Marker := "__CODE_BLOCK_"

  /** The placeholder of the `k`-th code block. */
  function Placeholder(k: nat): string {
    Marker + DecimalString(k) + "__"
  }

  /** The length of the run of `\w` characters that starts `s`. */
  function WordRun(s: string): (n: nat)
    ensures n <= |s| && forall i | 0 <= i < n :: IsWordChar(s[i])
    ensures n < |s| ==> !IsWordChar(s[n])
  {
    if s != [] && IsWordChar(s[0]) then 1 + WordRun(s[1..]) else 0
  }

  /** One match of the fence regex: the optional language (empty when the
      group did not take part), the body, and how many characters it spans. */
  datatype FenceMatch = FenceMatch(lang: string, body: string, length: nat)

  /** The text a fence match covers. */
  function FenceSource(f: FenceMatch): string {
    Fence + f.lang + "\n" + f.body + Fence
  }

  /** A match of /```(\w+)?\n([\s\S]*?)```/ starting at the first character of
      `s`: the word run after the opening fence must be followed by a newline
      (no shorter word run can be, since it would be followed by a word
      character), and the body ends at the first closing fence after it. */
  function FenceAt(s: string): (r: Option<FenceMatch>)
    ensures r.Some? ==> 0 < r.value.length <= |s| && s[..r.value.length] == FenceSource(r.value)
    ensures r.Some? ==> forall i | 0 <= i < |r.value.lang| :: IsWordChar(r.value.lang[i])
    ensures r.Some? ==> forall j | 0 <= j < |r.value.body| :: !OccursAt(r.value.body + Fence, Fence, j)
  {
    if !StartsWith(s, Fence) then None
    else
      var m := WordRun(s[3..]);
      if 3 + m >= |s| || s[3 + m] != '\n' then None
      else
        var start := 4 + m;
        var close := IndexOf(s, Fence, start);
        if close < 0 then None
        else
          var f := FenceMatch(s[3..3 + m], s[start..close], close + 3);
          FenceSlices(s, m, close);
          FirstClose(s, start, close);
          Some(f)
  }

  lemma FenceSlices(s: string, m: nat, close: nat)
    requires StartsWith(s, Fence) && 4 + m <= close && OccursAt(s, Fence, close)
    requires s[3 + m] == '\n'
    ensures s[..close + 3] == Fence + s[3..3 + m] + "\n" + s[4 + m..close] + Fence
  {
    assert s[..3] == Fence;
    assert s[close..close + 3] == Fence;
    assert s[3 + m..4 + m] == "\n";
    assert s[..close + 3] == s[..3] + s[3..3 + m] + s[3 + m..4 + m] + s[4 + m..close] + s[close..close + 3];
  }

  lemma FirstClose(s: string, start: nat, close: int)
    requires start <= |s| && close == IndexOf(s, Fence, start) && close >= 0
    ensures start <= close && close + 3 <= |s|
    ensures forall j | 0 <= j < close - start :: !OccursAt(s[start..close] + Fence, Fence, j)
  {
    assert Clamp(start, |s|) == start;
    assert OccursAt(s, Fence, close);
    assert s[start..close + 3] == s[start..close] + Fence;
    forall j | 0 <= j < close - start
      ensures !OccursAt(s[start..close] + Fence, Fence, j)
    {
      if OccursAt(s[start..close] + Fence, Fence, j) {
        OccursInSlice(s, start, close + 3, Fence, j);
      }
    }
  }

  /** The run of `\w` characters that starts `lang + t` is `lang` when `t`
      starts with a character outside `\w`. */
  lemma {:induction false} WordRunOf(lang: string, t: string)
    requires forall i | 0 <= i < |lang| :: IsWordChar(lang[i])
    requires t != [] && !IsWordChar(t[0])
    ensures WordRun(lang + t) == |lang|
    decreases |lang|
  {
    if lang == [] {
      assert lang + t == t;
    } else {
      assert (lang + t)[0] == lang[0];
      assert (lang + t)[1..] == lang[1..] + t;
      WordRunOf(lang[1..], t);
    }
  }

  /** The cuts of a text laid out as a fence followed by more text. */
  lemma FenceLayout(s: string, lang: string, body: string, rest: string)
    requires s == Fence + lang + "\n" + body + Fence + rest
    ensures StartsWith(s, Fence)
    ensures 4 + |lang| + |body| + 3 <= |s|
    ensures s[3..] == lang + ("\n" + body + Fence + rest)
    ensures s[3 + |lang|] == '\n'
    ensures s[3..3 + |lang|] == lang
    ensures s[4 + |lang|..4 + |lang| + |body|] == body
    ensures s[4 + |lang|..4 + |lang| + |body| + 3] == body + Fence
    ensures OccursAt(s, Fence, 4 + |lang| + |body|)
  {
    assert s == Fence + (lang + ("\n" + (body + (Fence + rest))));
  }

  /** A fence is found wherever the text holds one: three backticks, a run of
      `\w` characters, a newline, a body in which no three backticks start
      before its end, and three backticks. The match covers exactly that. */
  lemma FenceFound(lang: string, body: string, rest: string)
    requires forall i | 0 <= i < |lang| :: IsWordChar(lang[i])
    requires forall j | 0 <= j < |body| :: !OccursAt(body + Fence, Fence, j)
    ensures FenceAt(Fence + lang + "\n" + body + Fence + rest) == Some(FenceMatch(lang, body, 7 + |lang| + |body|))
  {
    var s := Fence + lang + "\n" + body + Fence + rest;
    var start := 4 + |lang|;
    var close := start + |body|;
    assert StartsWith(s, Fence) && WordRun(s[3..]) == |lang|
      && 3 + |lang| < |s| && s[3 + |lang|] == '\n' && close + 3 <= |s|
      && s[3..3 + |lang|] == lang && s[start..close] == body
    by {
      FenceLayout(s, lang, body, rest);
      var t := "\n" + body + Fence + rest;
      assert t[0] == '\n';
      WordRunOf(lang, t);
    }
    assert IndexOf(s, Fence, start) == close by {
      FenceLayout(s, lang, body, rest);
      NoCloseBefore(s, start, body);
      IndexOfFirst(s, Fence, start, close);
    }
    FenceAtUnfold(s, lang, body, close);
    assert close + 3 == 7 + |lang| + |body|;
  }

  /** Where `body + Fence` sits at `start`, no fence starts inside `body`
      unless one starts inside `body + Fence` before its end. */
  lemma NoCloseBefore(s: string, start: nat, body: string)
    requires start + |body| + 3 <= |s| && s[start..start + |body| + 3] == body + Fence
    requires forall j | 0 <= j < |body| :: !OccursAt(body + Fence, Fence, j)
    ensures forall i | start <= i < start + |body| :: !OccursAt(s, Fence, i)
  {
    forall i | start <= i < start + |body| ensures !OccursAt(s, Fence, i) {
      var j := i - start;
      var w := body + Fence;
      var here, there := s[i..i + 3], w[j..j + 3];
      forall t | 0 <= t < 3 ensures here[t] == there[t] {
        assert s[start..start + |body| + 3][j + t] == s[start + j + t];
      }
      assert here == there;
      assert !OccursAt(w, Fence, j);
    }
  }

  /** `FenceAt` once the word run and the closing fence are known. */
  lemma FenceAtUnfold(s: string, lang: string, body: string, close: nat)
    requires StartsWith(s, Fence) && WordRun(s[3..]) == |lang|
    requires 3 + |lang| < |s| && s[3 + |lang|] == '\n'
    requires 4 + |lang| <= close <= |s| && IndexOf(s, Fence, 4 + |lang|) == close
    requires s[3..3 + |lang|] == lang && s[4 + |lang|..close] == body
    ensures FenceAt(s) == Some(FenceMatch(lang, body, close + 3))
  {
  }

  /** The pieces of text between fences, and the fences, in order. */
  datatype Extraction = Extraction(texts: seq<string>, fences: seq<FenceMatch>)

  /** The global replacement's scan: a match is tried at every position, and
      the search resumes after the end of each match. */
  function Extract(s: string): (r: Extraction)
    ensures |r.texts| == |r.fences| + 1
    decreases |s|
  {
    if s == [] then Extraction([""], [])
    else match FenceAt(s)
      case Some(f) =>
        var rest := Extract(s[f.length..]);
        Extraction([""] + rest.texts, [f] + rest.fences)
      case None =>
        var rest := Extract(s[1..]);
        Extraction([[s[0]] + rest.texts[0]] + rest.texts[1..], rest.fences)
  }

  /** The pieces put back together with the fences they were cut at. */
  function Reassemble(texts: seq<string>, fences: seq<FenceMatch>): string
    requires |texts| == |fences| + 1
    decreases |fences|
  {
    if fences == [] then texts[0]
    else texts[0] + FenceSource(fences[0]) + Reassemble(texts[1..], fences[1..])
  }

  /** The markup after the replacement: the pieces with placeholders
      numbered from `k` in place of the fences. */
  function Assemble(texts: seq<string>, k: nat): string
    requires |texts| >= 1
    decreases |texts|
  {
    if |texts| == 1 then texts[0] else texts[0] + Placeholder(k) + Assemble(texts[1..], k + 1)
  }

  /** The component remembered for a fence: its number, its language
      (`javascript` when none is given) and its trimmed body. */
  datatype CodeBlock = CodeBlock(index: nat, language: string, code: string)

  function BlockOf(f: FenceMatch, k: nat): CodeBlock {
    CodeBlock(k, if f.lang == "" then "javascript" else f.lang, Trim(f.body))
  }

  function Blocks(fences: seq<FenceMatch>): (bs: seq<CodeBlock>)
    ensures |bs| == |fences|
    ensures forall k | 0 <= k < |fences| :: bs[k] == BlockOf(fences[k], k)
  {
    seq(|fences|, k requires 0 <= k < |fences| => BlockOf(fences[k], k))
  }

  /** The replacement pass: the markup with placeholders, and the blocks. */
  function ExtractCode(s: string): (string, seq<CodeBlock>) {
    var e := Extract(s);
    (Assemble(e.texts, 0), Blocks(e.fences))
  }

  lemma ReassembleConsHead(c: char, texts: seq<string>, fences: seq<FenceMatch>)
    requires |texts| == |fences| + 1
    ensures Reassemble([[c] + texts[0]] + texts[1..], fences) == [c] + Reassemble(texts, fences)
  {
    var ts := [[c] + texts[0]] + texts[1..];
    assert ts[1..] == texts[1..];
  }

  lemma ReassembleCons(t: string, f: FenceMatch, texts: seq<string>, fences: seq<FenceMatch>)
    requires |texts| == |fences| + 1
    ensures Reassemble([t] + texts, [f] + fences) == t + FenceSource(f) + Reassemble(texts, fences)
  {
    assert ([t] + texts)[1..] == texts && ([f] + fences)[1..] == fences;
  }

  lemma LosslessAtFence(s: string, f: FenceMatch, rest: Extraction, e: Extraction)
    requires 0 < f.length <= |s| && s[..f.length] == FenceSource(f)
    requires |rest.texts| == |rest.fences| + 1 && Reassemble(rest.texts, rest.fences) == s[f.length..]
    requires e == Extraction([""] + rest.texts, [f] + rest.fences)
    ensures Reassemble(e.texts, e.fences) == s
  {
    ReassembleCons("", f, rest.texts, rest.fences);
    assert s == ("" + FenceSource(f)) + s[f.length..];
  }

  lemma ExtractAtFence(s: string, f: FenceMatch)
    requires s != [] && FenceAt(s) == Some(f)
    ensures 0 < f.length <= |s|
    ensures Extract(s) == Extraction([""] + Extract(s[f.length..]).texts, [f] + Extract(s[f.length..]).fences)
  {
  }

  lemma LosslessElsewhere(s: string)
    requires s != [] && FenceAt(s).None?
    requires Reassemble(Extract(s[1..]).texts, Extract(s[1..]).fences) == s[1..]
    ensures Reassemble(Extract(s).texts, Extract(s).fences) == s
  {
    var rest := Extract(s[1..]);
    assert Extract(s) == Extraction([[s[0]] + rest.texts[0]] + rest.texts[1..], rest.fences);
    ReassembleConsHead(s[0], rest.texts, rest.fences);
    assert s == [s[0]] + s[1..];
  }

  /** Cutting at the fences loses nothing: the pieces and the fences put back
      together give the original text. */
  lemma {:induction false} ExtractLossless(s: string)
    ensures Reassemble(Extract(s).texts, Extract(s).fences) == s
    decreases |s|
  {
    if s != [] {
      var r := FenceAt(s);
      if r.Some? {
        ExtractLossless(s[r.value.length..]);
        ExtractAtFence(s, r.value);
        LosslessAtFence(s, r.value, Extract(s[r.value.length..]), Extract(s));
      } else {
        ExtractLossless(s[1..]);
        LosslessElsewhere(s);
      }
    }
  }

  lemma ContainsInPrefix(s: string, n: nat, sub: string)
    requires n <= |s| && Contains(s[..n], sub)
    ensures Contains(s, sub)
  {
    var i :| 0 <= i <= n && OccursAt(s[..n], sub, i);
    assert s[i..i + |sub|] == s[..n][i..i + |sub|];
    assert OccursAt(s, sub, i);
  }

  lemma ContainsInSuffix(s: string, n: nat, sub: string)
    requires n <= |s| && Contains(s[n..], sub)
    ensures Contains(s, sub)
  {
    var i :| 0 <= i <= |s| - n && OccursAt(s[n..], sub, i);
    assert s[n + i..n + i + |sub|] == s[n..][i..i + |sub|];
    assert OccursAt(s, sub, n + i);
  }

  lemma ExtractElsewhere(s: string)
    requires s != [] && FenceAt(s).None?
    ensures var rest := Extract(s[1..]);
      Extract(s) == Extraction([[s[0]] + rest.texts[0]] + rest.texts[1..], rest.fences)
  {
  }

  /** No fence matches at any position of the first piece: the scan takes
      the leftmost match. */
  lemma {:induction false} ExtractNoEarlierFence(s: string)
    ensures forall i | 0 <= i < |Extract(s).texts[0]| && i <= |s| :: FenceAt(s[i..]).None?
    decreases |s|
  {
    if s != [] {
      match FenceAt(s)
      case Some(f) =>
        ExtractAtFence(s, f);
      case None =>
        var h := Extract(s[1..]).texts[0];
        ExtractNoEarlierFence(s[1..]);
        ExtractElsewhere(s);
        forall i | 0 < i < 1 + |h| && i <= |s| ensures FenceAt(s[i..]).None? {
          assert s[1..][i - 1..] == s[i..];
        }
    }
  }

  /** Without a fence the first piece is the whole text. */
  lemma {:induction false} ExtractWithoutFence(s: string)
    ensures Extract(s).fences == [] ==> Extract(s).texts == [s]
    decreases |s|
  {
    if s != [] {
      match FenceAt(s)
      case Some(f) =>
        ExtractAtFence(s, f);
      case None =>
        ExtractWithoutFence(s[1..]);
        ExtractElsewhere(s);
        assert [s[0]] + s[1..] == s;
    }
  }

  /** The first fence is the match that starts right after the first piece. */
  predicate FenceAfterText(s: string, e: Extraction) {
    && |e.texts| == |e.fences| + 1
    && (e.fences != [] ==>
          && |e.texts[0]| + e.fences[0].length <= |s|
          && FenceAt(s[|e.texts[0]|..]) == Some(e.fences[0]))
  }

  /** Past the first fence the scan starts over on the text that follows it. */
  predicate ScanResumes(s: string, e: Extraction) {
    && |e.texts| == |e.fences| + 1
    && (e.fences != [] ==>
          && |e.texts[0]| + e.fences[0].length <= |s|
          && Extract(s[|e.texts[0]| + e.fences[0].length..]) == Extraction(e.texts[1..], e.fences[1..]))
  }

  lemma {:induction false} ExtractFirstFence(s: string)
    ensures FenceAfterText(s, Extract(s))
    decreases |s|
  {
    if s != [] {
      match FenceAt(s)
      case Some(f) =>
        ExtractAtFence(s, f);
        var e := Extract(s);
        assert e.texts[0] == "" && e.fences[0] == f;
        assert s[|e.texts[0]|..] == s;
      case None =>
        ExtractFirstFence(s[1..]);
        ExtractElsewhere(s);
        var rest, e := Extract(s[1..]), Extract(s);
        ElsewhereShape(s[0], rest, e);
        if rest.fences != [] {
          ShiftFence(s, |rest.texts[0]|, |e.texts[0]|, rest.fences[0]);
        }
    }
  }

  lemma {:induction false} ExtractScanResumes(s: string)
    ensures ScanResumes(s, Extract(s))
    decreases |s|
  {
    if s != [] {
      match FenceAt(s)
      case Some(f) =>
        ExtractAtFence(s, f);
        var rest, e := Extract(s[f.length..]), Extract(s);
        assert e.texts[0] == "" && e.fences[0] == f;
        assert e.texts[1..] == rest.texts && e.fences[1..] == rest.fences;
        assert s[|e.texts[0]| + e.fences[0].length..] == s[f.length..];
      case None =>
        ExtractScanResumes(s[1..]);
        ExtractElsewhere(s);
        var rest, e := Extract(s[1..]), Extract(s);
        ElsewhereShape(s[0], rest, e);
        if rest.fences != [] {
          var k, n := |rest.texts[0]|, |e.texts[0]|;
          ShiftRest(s, k + rest.fences[0].length, n + e.fences[0].length, Extraction(e.texts[1..], e.fences[1..]));
        }
    }
  }

  /** Prepending one character to the first piece keeps the rest in place. */
  lemma ElsewhereShape(c: char, rest: Extraction, e: Extraction)
    requires |rest.texts| == |rest.fences| + 1
    requires e == Extraction([[c] + rest.texts[0]] + rest.texts[1..], rest.fences)
    ensures |e.texts| == |e.fences| + 1 && |e.texts[0]| == |rest.texts[0]| + 1
    ensures e.texts[1..] == rest.texts[1..] && e.fences == rest.fences
  {
  }

  lemma ShiftFence(s: string, j: nat, n: nat, f: FenceMatch)
    requires n == j + 1 <= |s| && FenceAt(s[1..][j..]) == Some(f)
    ensures FenceAt(s[n..]) == Some(f)
  {
    assert s[1..][j..] == s[n..];
  }

  lemma ShiftRest(s: string, j: nat, n: nat, x: Extraction)
    requires n == j + 1 <= |s| && Extract(s[1..][j..]) == x
    ensures Extract(s[n..]) == x
  {
    assert s[1..][j..] == s[n..];
  }

  /** The first piece is a prefix of the text. */
  lemma {:induction false} ExtractHeadIsPrefix(s: string)
    ensures StartsWith(s, Extract(s).texts[0])
    decreases |s|
  {
    if s != [] {
      match FenceAt(s)
      case Some(f) =>
      case None =>
        ExtractHeadIsPrefix(s[1..]);
    }
  }

  /** A text without `__CODE_BLOCK_` yields pieces without it. */
  lemma {:induction false} ExtractTextsAvoidMarker(s: string)
    requires !Contains(s, Marker)
    ensures forall k | 0 <= k < |Extract(s).texts| :: !Contains(Extract(s).texts[k], Marker)
    decreases |s|
  {
    var e := Extract(s);
    if s == [] {
      forall i | OccursAt("", Marker, i) ensures false { }
    } else {
      match FenceAt(s)
      case Some(f) =>
        var rest := Extract(s[f.length..]);
        if Contains(s[f.length..], Marker) {
          ContainsInSuffix(s, f.length, Marker);
        }
        ExtractTextsAvoidMarker(s[f.length..]);
        forall k | 0 <= k < |e.texts| ensures !Contains(e.texts[k], Marker) {
          if k > 0 {
            assert e.texts[k] == rest.texts[k - 1];
          } else {
            forall i | OccursAt("", Marker, i) ensures false { }
          }
        }
      case None =>
        var rest := Extract(s[1..]);
        if Contains(s[1..], Marker) {
          ContainsInSuffix(s, 1, Marker);
        }
        ExtractTextsAvoidMarker(s[1..]);
        ExtractHeadIsPrefix(s[1..]);
        var head := [s[0]] + rest.texts[0];
        assert head == s[..|head|];
        if Contains(head, Marker) {
          ContainsInPrefix(s, |head|, Marker);
        }
        forall k | 0 <= k < |e.texts| ensures !Contains(e.texts[k], Marker) {
          if k > 0 {
            assert e.texts[k] == rest.texts[k];
          }
        }
    }
  }

  // ----- Splitting the finished markup on the placeholders -----

  /** A match of /__CODE_BLOCK_\d+__/ at the first character of `s`, as its
      length: the digit run is the maximal one, since `_` is not a digit. */
  function PlaceholderAt(s: string): Option<nat> {
    if !StartsWith(s, Marker) then None
    else
      var d := LeadingDigits(s[13..]);
      if 1 <= d && StartsWith(s[13 + d..], "__") then Some(15 + d) else None
  }

  /** `html.split(/__CODE_BLOCK_\d+__/)` */
  function SplitPlaceholders(s: string): (parts: seq<string>)
    ensures |parts| >= 1
    decreases |s|
  {
    if s == [] then [""]
    else match PlaceholderAt(s)
      case Some(n) => [""] + SplitPlaceholders(s[n..])
      case None =>
        var rest := SplitPlaceholders(s[1..]);
        [[s[0]] + rest[0]] + rest[1..]
  }

  lemma MarkerChars()
    ensures |Marker| == 13
    ensures Marker[0] == '_' && Marker[1] == '_' && Marker[2] == 'C' && Marker[3] == 'O'
    ensures Marker[4] == 'D' && Marker[5] == 'E' && Marker[6] == '_' && Marker[7] == 'B'
    ensures Marker[8] == 'L' && Marker[9] == 'O' && Marker[10] == 'C' && Marker[11] == 'K'
    ensures Marker[12] == '_'
  {
  }

  lemma PlaceholderMatches(k: nat, r: string)
    ensures PlaceholderAt(Placeholder(k) + r) == Some(|Placeholder(k)|)
  {
    var p := Placeholder(k);
    var u := p + r;
    var d := DecimalString(k);
    assert u[..13] == Marker;
    assert u[13..] == d + ("__" + r);
    LeadingDigitsOfNumber(d, "__" + r);
    assert u[13 + |d|..] == "__" + r;
  }

  /** No match starts inside a piece free of `__CODE_BLOCK_` and runs into the placeholder after it. */
  lemma NoPlaceholderAcross(t: string, k: nat, r: string)
    requires t != [] && !Contains(t, Marker)
    ensures PlaceholderAt(t + Placeholder(k) + r).None?
  {
    var u := t + Placeholder(k) + r;
    var p := Placeholder(k);
    MarkerChars();
    assert p[0] == '_' && p[1] == '_';
    assert u[|t|] == '_' && u[|t| + 1] == '_';
    if StartsWith(u, Marker) {
      if |t| >= 13 {
        assert t[0..13] == u[..13];
        assert OccursAt(t, Marker, 0);
      } else if |t| == 12 {
        assert u[13] == p[1];
        assert u[13..][0] == '_';
        assert LeadingDigits(u[13..]) == 0;
      }
    }
  }

  /** A piece free of `__CODE_BLOCK_` is not split. */
  lemma {:induction false} SplitPlainText(t: string)
    requires !Contains(t, Marker)
    ensures SplitPlaceholders(t) == [t]
    decreases |t|
  {
    if t != [] {
      if StartsWith(t, Marker) {
        assert OccursAt(t, Marker, 0);
      }
      if Contains(t[1..], Marker) {
        ContainsInSuffix(t, 1, Marker);
      }
      SplitPlainText(t[1..]);
      assert [t[0]] + t[1..] == t;
    }
  }

  lemma TailOfConcat(a: string, b: string, c: string)
    requires a != []
    ensures (a + b + c)[1..] == a[1..] + b + c
  {
  }

  lemma SplitAtMatch(u: string, n: nat)
    requires u != [] && PlaceholderAt(u) == Some(n)
    ensures SplitPlaceholders(u) == [""] + SplitPlaceholders(u[n..])
  {
  }

  lemma SplitAtNonMatch(u: string)
    requires u != [] && PlaceholderAt(u).None?
    ensures SplitPlaceholders(u) == [[u[0]] + SplitPlaceholders(u[1..])[0]] + SplitPlaceholders(u[1..])[1..]
  {
  }

  /** A piece free of `__CODE_BLOCK_` followed by a placeholder is split off exactly. */
  lemma {:induction false} SplitAtPlaceholder(t: string, k: nat, r: string)
    requires !Contains(t, Marker)
    ensures SplitPlaceholders(t + Placeholder(k) + r) == [t] + SplitPlaceholders(r)
    decreases |t|
  {
    var p := Placeholder(k);
    var u := t + p + r;
    if t == [] {
      assert u == p + r;
      PlaceholderMatches(k, r);
      assert u[|p|..] == r;
      SplitAtMatch(u, |p|);
    } else {
      NoPlaceholderAcross(t, k, r);
      if Contains(t[1..], Marker) {
        ContainsInSuffix(t, 1, Marker);
      }
      SplitAtPlaceholder(t[1..], k, r);
      TailOfConcat(t, p, r);
      SplitAtNonMatch(u);
      assert [t[0]] + t[1..] == t;
    }
  }

  /** Splitting the assembled markup on the placeholders gives back the pieces. */
  lemma {:induction false} SplitAssembled(texts: seq<string>, k: nat)
    requires |texts| >= 1
    requires forall i | 0 <= i < |texts| :: !Contains(texts[i], Marker)
    ensures SplitPlaceholders(Assemble(texts, k)) == texts
    decreases |texts|
  {
    if |texts| == 1 {
      SplitPlainText(texts[0]);
    } else {
      SplitAssembled(texts[1..], k + 1);
      SplitAtPlaceholder(texts[0], k, Assemble(texts[1..], k + 1));
      assert texts == [texts[0]] + texts[1..];
    }
  }

  // ----- Interleaving -----

  /** An entry of the rendered result: a run of markup, or a code-block component. */
  datatype Element = Html(text: string) | Code(block: CodeBlock)

  /** What the final loop emits for part `i`: the part when it is non-empty,
      then the block of the same number while there is one. */
  function Emitted(parts: seq<string>, blocks: seq<CodeBlock>, i: nat): seq<Element>
    requires i < |parts|
  {
    (if parts[i] != "" then [Html(parts[i])] else [])
    + (if i < |blocks| then [Code(blocks[i])] else [])
  }

  /** What the final loop emits from part `from` on. */
  function Interleaved(parts: seq<string>, blocks: seq<CodeBlock>, from: nat): seq<Element>
    decreases |parts| - from
  {
    if from >= |parts| then []
    else Emitted(parts, blocks, from) + Interleaved(parts, blocks, from + 1)
  }

  /** The `parts.forEach` loop that pushes a part when it is non-empty and then
      the code block of the same index while there is one. */
  method Interleave(parts: seq<string>, blocks: seq<CodeBlock>) returns (elements: seq<Element>)
    ensures elements == Interleaved(parts, blocks, 0)
  {
    elements := [];
    for index := 0 to |parts|
      invariant elements + Interleaved(parts, blocks, index) == Interleaved(parts, blocks, 0)
    {
      ghost var before := elements;
      if parts[index] != "" {
        elements := elements + [Html(parts[index])];
      }
      if index < |blocks| {
        elements := elements + [Code(blocks[index])];
      }
      assert elements == before + Emitted(parts, blocks, index);
      ElementsAssoc(before, Emitted(parts, blocks, index), Interleaved(parts, blocks, index + 1));
    }
  }

  lemma ElementsAssoc(a: seq<Element>, b: seq<Element>, c: seq<Element>)
    ensures a + (b + c) == (a + b) + c
  {
  }

  /** The code components among the elements, in order. */
  function CodeOf(es: seq<Element>): seq<CodeBlock> {
    if es == [] then [] else (if es[0].Code? then [es[0].block] else []) + CodeOf(es[1..])
  }

  /** The markup runs among the elements, in order. */
  function HtmlOf(es: seq<Element>): seq<string> {
    if es == [] then [] else (if es[0].Html? then [es[0].text] else []) + HtmlOf(es[1..])
  }

  /** The non-empty strings of a sequence, in order. */
  function NonEmpty(ps: seq<string>): seq<string> {
    if ps == [] then [] else (if ps[0] != "" then [ps[0]] else []) + NonEmpty(ps[1..])
  }

  lemma {:induction false} CodeOfAppend(a: seq<Element>, b: seq<Element>)
    ensures CodeOf(a + b) == CodeOf(a) + CodeOf(b)
    decreases |a|
  {
    if a == [] {
      assert a + b == b;
    } else {
      var head: seq<CodeBlock> := if a[0].Code? then [a[0].block] else [];
      assert (a + b)[0] == a[0] && (a + b)[1..] == a[1..] + b;
      CodeOfAppend(a[1..], b);
      assert CodeOf(a + b) == head + (CodeOf(a[1..]) + CodeOf(b));
      assert head + (CodeOf(a[1..]) + CodeOf(b)) == (head + CodeOf(a[1..])) + CodeOf(b);
    }
  }

  lemma {:induction false} HtmlOfAppend(a: seq<Element>, b: seq<Element>)
    ensures HtmlOf(a + b) == HtmlOf(a) + HtmlOf(b)
    decreases |a|
  {
    if a == [] {
      assert a + b == b;
    } else {
      assert (a + b)[1..] == a[1..] + b;
      HtmlOfAppend(a[1..], b);
    }
  }

  /** The code component emitted for one part: its block, while there is one. */
  lemma EmittedCode(parts: seq<string>, blocks: seq<CodeBlock>, i: nat)
    requires i < |parts|
    ensures CodeOf(Emitted(parts, blocks, i)) == if i < |blocks| then [blocks[i]] else []
  {
    var h: seq<Element> := if parts[i] != "" then [Html(parts[i])] else [];
    var c: seq<Element> := if i < |blocks| then [Code(blocks[i])] else [];
    CodeOfAppend(h, c);
  }

  /** The markup run emitted for one part: the part, when it is non-empty. */
  lemma EmittedHtml(parts: seq<string>, blocks: seq<CodeBlock>, i: nat)
    requires i < |parts|
    ensures HtmlOf(Emitted(parts, blocks, i)) == if parts[i] != "" then [parts[i]] else []
  {
    var h: seq<Element> := if parts[i] != "" then [Html(parts[i])] else [];
    var c: seq<Element> := if i < |blocks| then [Code(blocks[i])] else [];
    HtmlOfAppend(h, c);
  }

  /** With one more part than blocks, the components come out as the blocks,
      all of them and in order, and the markup runs as the non-empty parts, in order. */
  lemma {:induction false} InterleavedOrder(parts: seq<string>, blocks: seq<CodeBlock>, from: nat)
    requires |parts| == |blocks| + 1 && from <= |parts|
    ensures CodeOf(Interleaved(parts, blocks, from)) == if from < |blocks| then blocks[from..] else []
    ensures HtmlOf(Interleaved(parts, blocks, from)) == NonEmpty(parts[from..])
    decreases |parts| - from
  {
    if from < |parts| {
      var e := Emitted(parts, blocks, from);
      var rest := Interleaved(parts, blocks, from + 1);
      assert Interleaved(parts, blocks, from) == e + rest;
      InterleavedOrder(parts, blocks, from + 1);
      assert CodeOf(e + rest) == if from < |blocks| then blocks[from..] else [] by {
        CodeOfAppend(e, rest);
        EmittedCode(parts, blocks, from);
        if from < |blocks| {
          assert blocks[from..] == [blocks[from]] + blocks[from + 1..];
        }
      }
      assert HtmlOf(e + rest) == NonEmpty(parts[from..]) by {
        HtmlOfAppend(e, rest);
        EmittedHtml(parts, blocks, from);
        assert parts[from..][0] == parts[from] && parts[from..][1..] == parts[from + 1..];
      }
    } else {
      assert parts[from..] == [];
    }
  }

  /** Placeholders extracted from a text free of `__CODE_BLOCK_` come back in
      order: splitting the markup restores the pieces, and interleaving yields
      every code block once, in order, between the non-empty pieces. */
  lemma ExtractThenInterleave(s: string)
    requires !Contains(s, Marker)
    ensures var (html, blocks) := ExtractCode(s);
      && SplitPlaceholders(html) == Extract(s).texts
      && CodeOf(Interleaved(SplitPlaceholders(html), blocks, 0)) == blocks
      && HtmlOf(Interleaved(SplitPlaceholders(html), blocks, 0)) == NonEmpty(Extract(s).texts)
  {
    var e := Extract(s);
    ExtractTextsAvoidMarker(s);
    SplitAssembled(e.texts, 0);
    InterleavedOrder(e.texts, Blocks(e.fences), 0);
    assert e.texts[0..] == e.texts;
    if 0 < |e.fences| {
      assert Blocks(e.fences)[0..] == Blocks(e.fences);
    }
  }
}
