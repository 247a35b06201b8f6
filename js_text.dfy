/**
 * The JavaScript string primitives the renderers and the toolbar rely on, with
 * JavaScript's own semantics: `trim`, the `\s`, `\d` and `\w` regex classes,
 * `startsWith`, `includes`, `indexOf`, `substring`, `split` on a string
 * separator, `join`, and decimal formatting of a non-negative integer.
 */
module JsText {

  /** The characters that `String.prototype.trim` removes and the regex class `\s`
      matches: the ECMAScript WhiteSpace (tab, VT, FF, space, NBSP, BOM, category Zs)
      and LineTerminator characters. */
  predicate IsSpace(c: char) {
    || c == '\t' || c == '\n' || c == '\U{000B}' || c == '\U{000C}' || c == '\r' || c == ' '
    || c == '\U{00A0}' || c == '\U{1680}' || ('\U{2000}' <= c <= '\U{200A}')
    || c == '\U{2028}' || c == '\U{2029}' || c == '\U{202F}' || c == '\U{205F}'
    || c == '\U{3000}' || c == '\U{FEFF}'
  }

  /** The characters at which `.` stops and `^`/`$` match in a multiline regex. */
  predicate IsLineTerminator(c: char) {
    c == '\n' || c == '\r' || c == '\U{2028}' || c == '\U{2029}'
  }

  /** The regex class `\d`. */
  predicate IsDigit(c: char) { '0' <= c <= '9' }

  /** The regex class `\w`. */
  predicate IsWordChar(c: char) {
    ('a' <= c <= 'z') || ('A' <= c <= 'Z') || IsDigit(c) || c == '_'
  }

  /** A string whose `trim()` is empty, i.e. which is falsy after trimming. */
  predicate IsBlank(s: string) {
    forall i | 0 <= i < |s| :: IsSpace(s[i])
  }

  predicate AllDigits(s: string) {
    forall i | 0 <= i < |s| :: IsDigit(s[i])
  }

  /** `s.startsWith(prefix)` */
  predicate StartsWith(s: string, prefix: string) {
    |prefix| <= |s| && s[..|prefix|] == prefix
  }

  /** `sub` occurs in `s` at index `i`. */
  predicate OccursAt(s: string, sub: string, i: int) {
    0 <= i && i + |sub| <= |s| && s[i..i + |sub|] == sub
  }

  /** `s.includes(sub)` */
  predicate Contains(s: string, sub: string) {
    exists i | 0 <= i <= |s| :: OccursAt(s, sub, i)
  }

  /** An occurrence inside a slice is an occurrence in the whole string. */
  lemma OccursInSlice(s: string, a: nat, b: nat, sub: string, j: nat)
    requires a <= b <= |s| && OccursAt(s[a..b], sub, j)
    ensures OccursAt(s, sub, a + j)
  {
    forall i | 0 <= i < |sub|
      ensures s[a + j + i] == sub[i]
    {
      assert s[a..b][j..j + |sub|][i] == sub[i];
    }
  }

  /** How JavaScript clamps a position argument into `[0, n]`. */
  function Clamp(x: int, n: nat): (r: nat)
    ensures r <= n
    ensures 0 <= x <= n ==> r == x
    ensures x < 0 ==> r == 0
    ensures x > n ==> r == n
  {
    if x < 0 then 0 else if x > n then n else x
  }

  lemma BlankAround(a: string, b: string)
    requires IsBlank(a) && IsBlank(b)
    ensures IsBlank(a + b)
  {
    forall i | 0 <= i < |a + b| ensures IsSpace((a + b)[i]) {
      if i < |a| { assert (a + b)[i] == a[i]; } else { assert (a + b)[i] == b[i - |a|]; }
    }
  }

  /** The leading-whitespace half of `trim()`. */
  function TrimStart(s: string): (r: string)
    ensures |r| <= |s| && r == s[|s| - |r|..]
    ensures IsBlank(s[..|s| - |r|])
    ensures r != [] ==> !IsSpace(r[0])
  {
    if s != [] && IsSpace(s[0]) then
      var r := TrimStart(s[1..]);
      var k := |s| - |r|;
      assert s[..k] == [s[0]] + s[1..][..k - 1];
      assert s[k..] == s[1..][k - 1..];
      assert IsBlank(s[1..][..k - 1]) && IsBlank([s[0]]);
      BlankAround([s[0]], s[1..][..k - 1]);
      r
    else
      s
  }

  /** The trailing-whitespace half of `trim()`. */
  function TrimEnd(s: string): (r: string)
    ensures |r| <= |s| && r == s[..|r|]
    ensures IsBlank(s[|r|..])
    ensures r != [] ==> !IsSpace(r[|r| - 1])
  {
    if s != [] && IsSpace(s[|s| - 1]) then
      var r := TrimEnd(s[..|s| - 1]);
      assert s[|r|..] == s[..|s| - 1][|r|..] + [s[|s| - 1]];
      assert s[..|r|] == s[..|s| - 1][..|r|];
      BlankAround(s[..|s| - 1][|r|..], [s[|s| - 1]]);
      r
    else
      s
  }

  /** `s.trim()`: the slice of `s` between its leading and its trailing whitespace. */
  function Trim(s: string): (r: string)
    ensures |r| <= |s|
    ensures r == [] <==> IsBlank(s)
    ensures r != [] ==> !IsSpace(r[0]) && !IsSpace(r[|r| - 1])
    ensures exists i, j | 0 <= i <= j <= |s| :: r == s[i..j] && IsBlank(s[..i]) && IsBlank(s[j..])
  {
    var t := TrimStart(s);
    var r := TrimEnd(t);
    TrimHalves(s, t, r);
    r
  }

  /** What trimming the leading and then the trailing whitespace leaves, given
      what each half promises. */
  lemma TrimHalves(s: string, t: string, r: string)
    requires |t| <= |s| && t == s[|s| - |t|..] && IsBlank(s[..|s| - |t|])
    requires t != [] ==> !IsSpace(t[0])
    requires |r| <= |t| && r == t[..|r|] && IsBlank(t[|r|..])
    requires r != [] ==> !IsSpace(r[|r| - 1])
    ensures |r| <= |s|
    ensures r == [] <==> IsBlank(s)
    ensures r != [] ==> !IsSpace(r[0]) && !IsSpace(r[|r| - 1])
    ensures exists i, j | 0 <= i <= j <= |s| :: r == s[i..j] && IsBlank(s[..i]) && IsBlank(s[j..])
  {
    var i := |s| - |t|;
    SuffixPrefix(s, t, r);
    assert r == s[i..i + |r|] && IsBlank(s[..i]) && IsBlank(s[i + |r|..]);
    if r == [] {
      assert s == s[..i] + t;
      BlankAround(s[..i], t);
    } else {
      assert s[i] == r[0] && !IsSpace(s[i]);
    }
  }

  /** A prefix `r` of a suffix `t` of `s` is a slice of `s`. */
  lemma SuffixPrefix(s: string, t: string, r: string)
    requires |t| <= |s| && t == s[|s| - |t|..]
    requires |r| <= |t| && r == t[..|r|]
    ensures r == s[|s| - |t|..|s| - |t| + |r|]
    ensures t[|r|..] == s[|s| - |t| + |r|..]
    ensures r != [] ==> r[0] == t[0]
  {
  }

  /** Trimming twice is trimming once. */
  lemma TrimIdempotent(s: string)
    ensures Trim(Trim(s)) == Trim(s)
  {
    var r := Trim(s);
    if r != [] {
      assert TrimStart(r) == r;
      assert TrimEnd(r) == r;
    }
  }

  /** Each string trimmed, in order. */
  function TrimAll(cells: seq<string>): (r: seq<string>)
    ensures |r| == |cells| && forall k | 0 <= k < |cells| :: r[k] == Trim(cells[k])
  {
    seq(|cells|, k requires 0 <= k < |cells| => Trim(cells[k]))
  }

  /** `indexOf(sub, from)`: the first index at or after the clamped `from` where `sub`
      occurs, or -1 when there is none. */
  function IndexOf(s: string, sub: string, from: int): (r: int)
    ensures r == -1 || (Clamp(from, |s|) <= r && OccursAt(s, sub, r))
    ensures forall i | Clamp(from, |s|) <= i && (r == -1 || i < r) :: !OccursAt(s, sub, i)
    decreases |s| - Clamp(from, |s|)
  {
    var k := Clamp(from, |s|);
    if OccursAt(s, sub, k) then k
    else if k < |s| then IndexOf(s, sub, k + 1)
    else -1
  }

  /** An occurrence with none before it, from `from` on, is the one found. */
  lemma IndexOfFirst(s: string, sub: string, from: nat, k: nat)
    requires from <= k && OccursAt(s, sub, k)
    requires forall i | from <= i < k :: !OccursAt(s, sub, i)
    ensures IndexOf(s, sub, from) == k
  {
    assert Clamp(from, |s|) == from;
  }

  /** `s.substring(a, b)`: both positions are clamped and swapped when out of order. */
  function Substring(s: string, a: int, b: int): (r: string)
    ensures Clamp(a, |s|) <= Clamp(b, |s|) ==> r == s[Clamp(a, |s|)..Clamp(b, |s|)]
    ensures Clamp(b, |s|) < Clamp(a, |s|) ==> r == s[Clamp(b, |s|)..Clamp(a, |s|)]
    ensures 0 <= a <= b <= |s| ==> r == s[a..b]
    ensures 0 <= b <= a <= |s| ==> r == s[b..a]
    ensures 0 <= a <= |s| && b < 0 ==> r == s[..a]
  {
    var x, y := Clamp(a, |s|), Clamp(b, |s|);
    if x <= y then s[x..y] else s[y..x]
  }

  /** `s.split(sep)` for a non-empty string separator: the pieces between the
      occurrences of `sep` found left to right without overlap. */
  function Split(s: string, sep: string): (parts: seq<string>)
    requires sep != []
    ensures |parts| >= 1
    decreases |s|
  {
    if |s| < |sep| then [s]
    else if s[..|sep|] == sep then [""] + Split(s[|sep|..], sep)
    else
      var rest := Split(s[1..], sep);
      [[s[0]] + rest[0]] + rest[1..]
  }

  /** `parts.join(sep)` */
  function Join(parts: seq<string>, sep: string): string
    requires |parts| >= 1
  {
    if |parts| == 1 then parts[0] else parts[0] + sep + Join(parts[1..], sep)
  }

  lemma JoinConsHead(x: string, parts: seq<string>, sep: string)
    requires |parts| >= 1
    ensures Join([x + parts[0]] + parts[1..], sep) == x + Join(parts, sep)
  {
    var ps := [x + parts[0]] + parts[1..];
    assert ps[1..] == parts[1..];
  }

  /** Joining the pieces of a split with the same separator gives back the string. */
  lemma {:induction false} JoinSplit(s: string, sep: string)
    requires sep != []
    ensures Join(Split(s, sep), sep) == s
    decreases |s|
  {
    if |s| < |sep| {
      assert Split(s, sep) == [s];
    } else if s[..|sep|] == sep {
      var rest := Split(s[|sep|..], sep);
      JoinSplit(s[|sep|..], sep);
      var ps := [""] + rest;
      assert Split(s, sep) == ps && ps[1..] == rest;
      assert Join(ps, sep) == "" + sep + Join(rest, sep);
      assert s == sep + s[|sep|..];
    } else {
      var rest := Split(s[1..], sep);
      JoinSplit(s[1..], sep);
      assert Split(s, sep) == [[s[0]] + rest[0]] + rest[1..];
      JoinConsHead([s[0]], rest, sep);
      assert s == [s[0]] + s[1..];
    }
  }

  /** The first piece of a split is a prefix of the string. */
  lemma {:induction false} SplitHeadIsPrefix(s: string, sep: string)
    requires sep != []
    ensures StartsWith(s, Split(s, sep)[0])
    decreases |s|
  {
    if |s| < |sep| {
      assert Split(s, sep)[0] == s;
    } else if s[..|sep|] == sep {
      assert Split(s, sep)[0] == "";
    } else {
      var r0 := Split(s[1..], sep)[0];
      SplitHeadIsPrefix(s[1..], sep);
      assert Split(s, sep)[0] == [s[0]] + r0;
      assert s[..1 + |r0|] == [s[0]] + s[1..][..|r0|];
    }
  }

  /** No piece of a split contains the separator. */
  lemma {:induction false} SplitPiecesAvoidSeparator(s: string, sep: string)
    requires sep != []
    ensures forall k | 0 <= k < |Split(s, sep)| :: !Contains(Split(s, sep)[k], sep)
    decreases |s|
  {
    var parts := Split(s, sep);
    if |s| < |sep| {
      forall i | OccursAt(s, sep, i) ensures false { }
    } else if s[..|sep|] == sep {
      SplitPiecesAvoidSeparator(s[|sep|..], sep);
      forall k | 0 <= k < |parts| ensures !Contains(parts[k], sep) {
        if k > 0 {
          assert parts[k] == Split(s[|sep|..], sep)[k - 1];
        } else {
          forall i | OccursAt(parts[0], sep, i) ensures false { }
        }
      }
    } else {
      var rest := Split(s[1..], sep);
      SplitPiecesAvoidSeparator(s[1..], sep);
      SplitHeadIsPrefix(s[1..], sep);
      var head := [s[0]] + rest[0];
      assert StartsWith(s, head);
      forall i | OccursAt(head, sep, i) ensures false {
        if i > 0 {
          assert head[i..i + |sep|] == rest[0][i - 1..i - 1 + |sep|];
          assert OccursAt(rest[0], sep, i - 1);
        }
      }
      forall k | 0 <= k < |parts| ensures !Contains(parts[k], sep) {
        if k > 0 {
          assert parts[k] == rest[k];
        }
      }
    }
  }

  /** `split` cuts at the leftmost occurrence of the separator and goes on
      after it; with no occurrence the text is the only piece. */
  lemma {:induction false} SplitLeftmost(s: string, sep: string)
    requires sep != []
    ensures var k := IndexOf(s, sep, 0);
      && (k < 0 ==> Split(s, sep) == [s])
      && (k >= 0 ==> k + |sep| <= |s| && Split(s, sep) == [s[..k]] + Split(s[k + |sep|..], sep))
    decreases |s|
  {
    var k := IndexOf(s, sep, 0);
    if k == 0 {
      assert OccursAt(s, sep, 0);
      assert s[..|sep|] == sep;
      assert Split(s, sep) == [""] + Split(s[|sep|..], sep);
      assert s[..k] == "";
    } else if |s| < |sep| {
      assert k < 0;
    } else {
      var t := s[1..];
      assert s[..|sep|] != sep by { assert Clamp(0, |s|) == 0; assert !OccursAt(s, sep, 0); }
      SplitLeftmost(t, sep);
      IndexOfTail(s, sep);
      var k1 := IndexOf(t, sep, 0);
      if k1 < 0 {
        SplitHeadNone(s, sep);
      } else {
        SplitHeadAt(s, sep, k1);
      }
    }
  }

  /** Split of a string not starting with `sep` whose tail has no `sep`. */
  lemma SplitHeadNone(s: string, sep: string)
    requires sep != [] && |sep| <= |s| && s[..|sep|] != sep
    requires Split(s[1..], sep) == [s[1..]]
    ensures Split(s, sep) == [s]
  {
    var rest := Split(s[1..], sep);
    assert Split(s, sep) == [[s[0]] + rest[0]] + rest[1..];
    assert [s[0]] + s[1..] == s;
  }

  /** Split of a string not starting with `sep`, given the split of its tail
      at the tail's first `sep`, found at `k1`. */
  lemma SplitHeadAt(s: string, sep: string, k1: int)
    requires sep != [] && |sep| <= |s| && s[..|sep|] != sep
    requires 0 <= k1 && k1 + |sep| <= |s| - 1
    requires Split(s[1..], sep) == [s[1..][..k1]] + Split(s[1..][k1 + |sep|..], sep)
    ensures Split(s, sep) == [s[..k1 + 1]] + Split(s[k1 + 1 + |sep|..], sep)
  {
    var t := s[1..];
    var rest := Split(t, sep);
    assert Split(s, sep) == [[s[0]] + rest[0]] + rest[1..];
    assert rest[0] == t[..k1] && rest[1..] == Split(t[k1 + |sep|..], sep);
    HeadTailSlices(s, k1, k1 + |sep|);
  }

  lemma HeadTailSlices(s: string, m: nat, n: nat)
    requires s != [] && m <= n <= |s| - 1
    ensures [s[0]] + s[1..][..m] == s[..m + 1]
    ensures s[1..][n..] == s[n + 1..]
  {
  }

  /** When `sep` does not start `s`, its first occurrence in `s` is one past
      its first occurrence in the tail. */
  lemma IndexOfTail(s: string, sep: string)
    requires s != [] && !OccursAt(s, sep, 0)
    ensures var k1 := IndexOf(s[1..], sep, 0);
      IndexOf(s, sep, 0) == if k1 < 0 then -1 else k1 + 1
  {
    var k := IndexOf(s, sep, 0);
    var k1 := IndexOf(s[1..], sep, 0);
    assert Clamp(0, |s|) == 0 && Clamp(0, |s[1..]|) == 0;
    OccursShift(s, sep);
    if k1 < 0 {
      forall i | 1 <= i ensures !OccursAt(s, sep, i) {
        assert !OccursAt(s[1..], sep, i - 1);
      }
    } else {
      assert OccursAt(s, sep, k1 + 1);
      forall i | 1 <= i < k1 + 1 ensures !OccursAt(s, sep, i) {
        assert !OccursAt(s[1..], sep, i - 1);
      }
    }
  }

  /** An occurrence in the tail is an occurrence one position further on. */
  lemma OccursShift(s: string, sub: string)
    requires s != []
    ensures forall i | 0 <= i :: OccursAt(s[1..], sub, i) <==> OccursAt(s, sub, i + 1)
  {
    forall i | 0 <= i
      ensures OccursAt(s[1..], sub, i) <==> OccursAt(s, sub, i + 1)
    {
      if i + |sub| <= |s| - 1 {
        assert s[1..][i..i + |sub|] == s[i + 1..i + 1 + |sub|];
      }
    }
  }

  /** `String(n)` for a non-negative integer: its decimal digits. */
  function DecimalString(n: nat): (r: string)
    ensures r != [] && AllDigits(r)
  {
    var d := [(('0' as int) + n % 10) as char];
    if n < 10 then d else DecimalString(n / 10) + d
  }

  /** The length of the run of digits that starts `s`. */
  function LeadingDigits(s: string): (n: nat)
    ensures n <= |s| && AllDigits(s[..n])
    ensures n < |s| ==> !IsDigit(s[n])
  {
    if s != [] && IsDigit(s[0]) then
      var n := 1 + LeadingDigits(s[1..]);
      assert s[..n] == [s[0]] + s[1..][..n - 1];
      n
    else 0
  }

  /** The digit run of `d + rest` is `d` when `rest` starts with a non-digit. */
  lemma {:induction false} LeadingDigitsOfNumber(d: string, rest: string)
    requires AllDigits(d)
    requires rest != [] && !IsDigit(rest[0])
    ensures LeadingDigits(d + rest) == |d|
    decreases |d|
  {
    if d != [] {
      assert (d + rest)[0] == d[0] && IsDigit(d[0]);
      assert (d + rest)[1..] == d[1..] + rest;
      assert AllDigits(d[1..]) by {
        forall i | 0 <= i < |d[1..]| ensures IsDigit(d[1..][i]) { assert d[1..][i] == d[i + 1]; }
      }
      LeadingDigitsOfNumber(d[1..], rest);
    } else {
      assert d + rest == rest;
    }
  }
}
