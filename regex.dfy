/**
 * Exact models of the `re.sub` patterns the markdown converters use.
 * Each substitution scans left to right; where a match starts it is
 * replaced and scanning resumes after it, otherwise one character is
 * copied, which is how Python's `re.sub` proceeds.
 */
module MarkdownRegex {
  import opened Text
  import opened Wrappers

  /** No newline in `s[lo..hi]`. */
  predicate NoNewline(s: string, lo: nat, hi: nat)
    requires lo <= hi <= |s|
  {
    forall k | lo <= k < hi :: s[k] != '\n'
  }

  /** The delimiter `d` occurs at position `k` of `s`. */
  predicate DelimAt(s: string, k: nat, d: string)
  {
    k + |d| <= |s| && s[k..k + |d|] == d
  }

  /**
   * Where a lazy `.+?` that started before `lo` ends when it is followed by
   * the delimiter `d`: the leftmost occurrence of `d` at or after `lo`,
   * provided no newline comes first (`.` does not match a newline).
   */
  function FindClosing(s: string, lo: nat, d: string): (r: Option<nat>)
    requires |d| > 0 && d[0] != '\n' && lo <= |s|
    ensures r.Some? ==> lo <= r.value && DelimAt(s, r.value, d)
    ensures r.Some? ==> NoNewline(s, lo, r.value)
    ensures r.Some? ==> forall k | lo <= k < r.value :: !DelimAt(s, k, d)
    ensures r.None? ==> forall j | lo <= j && DelimAt(s, j, d) :: !NoNewline(s, lo, j)
    decreases |s| - lo
  {
    if lo + |d| > |s| then None
    else if s[lo..lo + |d|] == d then Some(lo)
    else if s[lo] == '\n' then None
    else FindClosing(s, lo + 1, d)
  }

  /** The end of a match of `d(.+?)d` at the start of `s`: the index of the closing `d`. */
  function PairedEnd(s: string, d: string): (r: Option<nat>)
    requires |d| > 0 && d[0] != '\n'
    ensures r.Some? ==> |d| < r.value && r.value + |d| <= |s|
  {
    if StartsWith(s, d) && |s| > |d| && s[|d|] != '\n' then FindClosing(s, |d| + 1, d) else None
  }

  /** `re.sub(d + "(.+?)" + d, open + r"\1" + close, s)`. */
  function SubPaired(s: string, d: string, open: string, close: string): string
    requires |d| > 0 && d[0] != '\n'
    decreases |s|
  {
    if s == [] then []
    else match PairedEnd(s, d)
      case Some(j) => open + s[|d|..j] + close + SubPaired(s[j + |d|..], d, open, close)
      case None => [s[0]] + SubPaired(s[1..], d, open, close)
  }

  /** Text without the delimiter's first character is left untouched. */
  lemma {:induction false} SubPairedAbsent(s: string, d: string, open: string, close: string)
    requires |d| > 0 && d[0] != '\n' && d[0] !in s
    ensures SubPaired(s, d, open, close) == s
    decreases |s|
  {
    if s != [] {
      assert !StartsWith(s, d);
      SubPairedAbsent(s[1..], d, open, close);
      assert [s[0]] + s[1..] == s;
    }
  }

  /** One delimited span with plain text in it is replaced by its tagged text. */
  lemma SubPairedSpan(x: string, d: string, open: string, close: string, rest: string)
    requires |d| > 0 && d[0] != '\n'
    requires x != [] && '\n' !in x && d[0] !in x
    ensures SubPaired(d + x + d + rest, d, open, close) == open + x + close + SubPaired(rest, d, open, close)
  {
    var s := d + x + d + rest;
    var j := |d| + |x|;
    SpanPairedEnd(x, d, rest);
    SpanPieces(x, d, rest);
    SubPairedUnfold(s, d, open, close, j);
  }

  /** Where the span's closing delimiter is found. */
  lemma SpanPairedEnd(x: string, d: string, rest: string)
    requires |d| > 0 && d[0] != '\n'
    requires x != [] && '\n' !in x && d[0] !in x
    ensures PairedEnd(d + x + d + rest, d) == Some(|d| + |x|)
  {
    var p := d + x + d;
    var s := p + rest;
    assert s[..|p|] == p;
    assert StartsWith(s, p);
    assert s[..|d|] == p[..|d|] == d;
    assert s[|d|] == p[|d|] == x[0];
    ClosingAfterPlain(s, d, x, |d| + 1);
  }

  /** The pieces of a span: the text between the delimiters and what follows them. */
  lemma SpanPieces(x: string, d: string, rest: string)
    ensures var s := d + x + d + rest;
      s[|d|..|d| + |x|] == x && s[|d| + |x| + |d|..] == rest
  {
  }

  lemma {:induction false} SubPairedUnfold(s: string, d: string, open: string, close: string, j: nat)
    requires |d| > 0 && d[0] != '\n' && s != []
    requires PairedEnd(s, d) == Some(j)
    ensures SubPaired(s, d, open, close) == open + s[|d|..j] + close + SubPaired(s[j + |d|..], d, open, close)
  {
    var t := s[j + |d|..];
    var rest := SubPaired(t, d, open, close);
    assert SubPaired(s, d, open, close) == open + s[|d|..j] + close + rest;
  }

  lemma {:induction false} ClosingAfterPlain(s: string, d: string, x: string, lo: nat)
    requires |d| > 0 && d[0] != '\n' && '\n' !in x && d[0] !in x
    requires StartsWith(s, d + x + d) && |d| < lo <= |d| + |x|
    ensures FindClosing(s, lo, d) == Some(|d| + |x|)
    decreases |d| + |x| - lo
  {
    var e := |d| + |x|;
    assert s[e..e + |d|] == d by {
      assert s[..|d + x + d|] == d + x + d;
    }
    if lo < e {
      assert s[lo] == x[lo - |d|] by { assert s[..|d + x + d|] == d + x + d; }
      assert s[lo..lo + |d|][0] == s[lo];
      ClosingAfterPlain(s, d, x, lo + 1);
    }
  }

  /** Bold is replaced before italic: `**x**` ends up as one strong element, with no em inside. */
  lemma BoldBeforeItalic(x: string)
    requires x != [] && '\n' !in x && '*' !in x
    ensures SubPaired(SubPaired("**" + x + "**", "**", "<strong>", "</strong>"), "*", "<em>", "</em>")
      == "<strong>" + x + "</strong>"
  {
    var b := "**" + x + "**";
    var t := "<strong>" + x + "</strong>";
    calc {
      SubPaired(b, "**", "<strong>", "</strong>");
      { assert b == "**" + x + "**" + ""; }
      SubPaired("**" + x + "**" + "", "**", "<strong>", "</strong>");
      { SubPairedSpan(x, "**", "<strong>", "</strong>", ""); }
      "<strong>" + x + "</strong>" + SubPaired("", "**", "<strong>", "</strong>");
      t;
    }
    assert '*' !in t by {
      assert forall i | 0 <= i < |t| :: t[i] in "<strong>" || t[i] in x || t[i] in "</strong>";
    }
    SubPairedAbsent(t, "*", "<em>", "</em>");
  }

  /** Run the other way round, the italic pattern would swallow one asterisk of each pair. */
  lemma ItalicFirstWouldSplitBold(x: string)
    requires x != [] && '\n' !in x && '*' !in x
    ensures SubPaired("**" + x + "**", "*", "<em>", "</em>") == "<em>*" + x + "</em>*"
  {
    var s := "**" + x + "**";
    assert s == "*" + ("*" + x) + "*" + "*";
    var y := "*" + x;
    assert s[..1] == "*";
    assert s[1] == '*';
    assert FindClosing(s, 2, "*") == Some(|x| + 2) by {
      ClosingInPlain(s, x, 2);
    }
    assert s[1..|x| + 2] == y;
    assert s[|x| + 3..] == "*";
    assert SubPaired("*", "*", "<em>", "</em>") == "*";
  }

  lemma {:induction false} ClosingInPlain(s: string, x: string, lo: nat)
    requires '\n' !in x && '*' !in x && s == "**" + x + "**" && 2 <= lo <= |x| + 2
    ensures FindClosing(s, lo, "*") == Some(|x| + 2)
    decreases |x| + 2 - lo
  {
    if lo < |x| + 2 {
      assert s[lo] == x[lo - 2];
      assert s[lo..lo + 1] == [s[lo]];
      ClosingInPlain(s, x, lo + 1);
    } else {
      assert s[lo..lo + 1] == "*";
    }
  }

  // ----- links -------------------------------------------------------------

  /** The first index at or after `lo` holding `c`. */
  function FindChar(s: string, lo: nat, c: char): (r: Option<nat>)
    requires lo <= |s|
    ensures r.Some? ==> lo <= r.value < |s| && s[r.value] == c
    ensures r.Some? ==> c !in s[lo..r.value]
    ensures r.None? ==> c !in s[lo..]
    decreases |s| - lo
  {
    if lo == |s| then None
    else if s[lo] == c then Some(lo)
    else
      var r := FindChar(s, lo + 1, c);
      assert s[lo..] == [s[lo]] + s[lo + 1..];
      assert r.Some? ==> s[lo..r.value] == [s[lo]] + s[lo + 1..r.value];
      r
  }

  /**
   * A match of `\[([^\]]+)\]\(([^)]+)\)` at the start of `s`, as the index
   * of the closing `]` and the index of the closing `)`.
   */
  function LinkAt(s: string): (r: Option<(nat, nat)>)
    ensures r.Some? ==> 1 < r.value.0 && r.value.0 + 2 < r.value.1 < |s|
  {
    if |s| == 0 || s[0] != '[' then None
    else match FindChar(s, 1, ']')
      case None => None
      case Some(k) =>
        if k == 1 || k + 1 >= |s| || s[k + 1] != '(' then None
        else match FindChar(s, k + 2, ')')
          case None => None
          case Some(m) => if m == k + 2 then None else Some((k, m))
  }

  /** The replacement `<a href="\2">\1</a>` for target `u` and label `t`. */
  function Anchor(u: string, t: string): string
  {
    "<a href=\"" + u + "\">" + t + "</a>"
  }

  /** `re.sub(r'\[([^\]]+)\]\(([^)]+)\)', r'<a href="\2">\1</a>', s)`. */
  function SubLinks(s: string): string
    decreases |s|
  {
    if s == [] then []
    else
      var r := LinkAt(s);
      if r.Some? then Anchor(s[r.value.0 + 2..r.value.1], s[1..r.value.0]) + SubLinks(s[r.value.1 + 1..])
      else [s[0]] + SubLinks(s[1..])
  }

  /** `[t](u)` becomes an anchor to `u` labelled `t`. */
  lemma LinkSpan(t: string, u: string, rest: string)
    requires t != [] && ']' !in t && u != [] && ')' !in u
    ensures SubLinks("[" + t + "](" + u + ")" + rest) == Anchor(u, t) + SubLinks(rest)
  {
    var s := "[" + t + "](" + u + ")" + rest;
    var k := |t| + 1;
    var m := |t| + |u| + 3;
    LinkAtSpan(t, u, rest);
    LinkPieces(t, u, rest);
  }

  /** Where the pattern finds the label's `]` and the target's `)`. */
  lemma LinkAtSpan(t: string, u: string, rest: string)
    requires t != [] && ']' !in t && u != [] && ')' !in u
    ensures LinkAt("[" + t + "](" + u + ")" + rest) == Some((|t| + 1, |t| + |u| + 3))
  {
    var s := "[" + t + "](" + u + ")" + rest;
    var k := |t| + 1;
    var m := |t| + |u| + 3;
    LinkPieces(t, u, rest);
    assert s[k] == ']' && s[k + 1] == '(' && s[m] == ')';
    assert FindChar(s, 1, ']') == Some(k) by { FirstAt(s, 1, ']', k); }
    assert FindChar(s, k + 2, ')') == Some(m) by { FirstAt(s, k + 2, ')', m); }
  }

  lemma LinkPieces(t: string, u: string, rest: string)
    ensures var s := "[" + t + "](" + u + ")" + rest;
      s[0] == '[' && s[1..|t| + 1] == t && s[|t| + 1] == ']' && s[|t| + 2] == '('
      && s[|t| + 3..|t| + |u| + 3] == u && s[|t| + |u| + 3] == ')' && s[|t| + |u| + 4..] == rest
  {
  }

  /** `FindChar` is determined by where the character first occurs. */
  lemma {:induction false} FirstAt(s: string, lo: nat, c: char, k: nat)
    requires lo <= k < |s| && s[k] == c && c !in s[lo..k]
    ensures FindChar(s, lo, c) == Some(k)
    decreases k - lo
  {
    if lo < k {
      assert s[lo] in s[lo..k];
      assert s[lo + 1..k] == s[lo..k][1..];
      FirstAt(s, lo + 1, c, k);
    }
  }

  // ----- story links ---------------------------------------------------------

  /** A match of `\(story/([^)]+)\.md\)` at the start of `s`, as the index of its `)`. */
  function StoryLinkAt(s: string): (r: Option<nat>)
    ensures r.Some? ==> 11 <= r.value < |s|
  {
    if !StartsWith(s, "(story/") then None
    else match FindChar(s, 7, ')')
      case None => None
      case Some(m) => if m >= 11 && s[m - 3..m] == ".md" then Some(m) else None
  }

  /** The replacement `(\1.html)` for the stem `x`. */
  function PageTarget(x: string): string
  {
    "(" + x + ".html)"
  }

  /** `re.sub(r'\(story/([^)]+)\.md\)', r'(\1.html)', s)`. */
  function SubStoryLinks(s: string): string
    decreases |s|
  {
    if s == [] then []
    else
      var r := StoryLinkAt(s);
      if r.Some? then PageTarget(s[7..r.value - 3]) + SubStoryLinks(s[r.value + 1..])
      else [s[0]] + SubStoryLinks(s[1..])
  }

  /** `(story/X.md)` becomes `(X.html)`. */
  lemma StoryLinkSpan(x: string, rest: string)
    requires x != [] && ')' !in x
    ensures SubStoryLinks("(story/" + x + ".md)" + rest) == PageTarget(x) + SubStoryLinks(rest)
  {
    var s := "(story/" + x + ".md)" + rest;
    StoryLinkAtSpan(x, rest);
    StoryPieces(x, rest);
  }

  /** Where the pattern finds the closing `)`. */
  lemma StoryLinkAtSpan(x: string, rest: string)
    requires x != [] && ')' !in x
    ensures StoryLinkAt("(story/" + x + ".md)" + rest) == Some(|x| + 10)
  {
    var s := "(story/" + x + ".md)" + rest;
    var m := |x| + 10;
    StoryPieces(x, rest);
    assert s[7..m] == x + ".md";
    assert FindChar(s, 7, ')') == Some(m) by { FirstAt(s, 7, ')', m); }
  }

  lemma StoryPieces(x: string, rest: string)
    ensures var s := "(story/" + x + ".md)" + rest;
      s[..7] == "(story/" && s[7..|x| + 7] == x && s[|x| + 7..|x| + 10] == ".md"
      && s[|x| + 10] == ')' && s[|x| + 11..] == rest
  {
  }

  // ----- header lines --------------------------------------------------------

  /** One line under `^<prefix>(.+)$` with MULTILINE: a non-empty rest after the prefix is wrapped. */
  function HeaderLine(line: string, prefix: string, open: string, close: string): (r: string)
    ensures StartsWith(line, prefix) && |line| > |prefix| ==> r == open + line[|prefix|..] + close
    ensures !(StartsWith(line, prefix) && |line| > |prefix|) ==> r == line
  {
    if StartsWith(line, prefix) && |line| > |prefix| then open + line[|prefix|..] + close else line
  }

  function HeaderLines(lines: seq<string>, prefix: string, open: string, close: string): (r: seq<string>)
    ensures |r| == |lines|
    ensures forall k | 0 <= k < |lines| :: r[k] == HeaderLine(lines[k], prefix, open, close)
  {
    if lines == [] then [] else [HeaderLine(lines[0], prefix, open, close)] + HeaderLines(lines[1..], prefix, open, close)
  }

  /**
   * `re.sub(r'^<prefix>(.+)$', open + r'\1' + close, s, flags=re.MULTILINE)`:
   * `^` and `$` bound each line and `.` stops at a newline, so the pattern
   * rewrites the lines of `s` one by one.
   */
  function SubHeader(s: string, prefix: string, open: string, close: string): string
  {
    Join(HeaderLines(Split(s, "\n"), prefix, open, close), "\n")
  }

  /** A single header line: `# t` becomes `<h1>t</h1>` and so on. */
  lemma HeaderOfLine(t: string, prefix: string, open: string, close: string)
    requires t != [] && '\n' !in t && '\n' !in prefix && '\n' !in open && '\n' !in close
    ensures SubHeader(prefix + t, prefix, open, close) == open + t + close
  {
    var s := prefix + t;
    ContainsChar(s, '\n');
    SplitWhole(s, "\n");
    assert s[|prefix|..] == t;
  }

  /** A line whose prefix is not followed by anything stays as it is. */
  lemma BarePrefixUnchanged(prefix: string, open: string, close: string)
    requires '\n' !in prefix
    ensures SubHeader(prefix, prefix, open, close) == prefix
  {
    ContainsChar(prefix, '\n');
    SplitWhole(prefix, "\n");
  }

  // ----- heading marks -------------------------------------------------------

  function HashRun(s: string, max: nat): (n: nat)
    ensures n <= max && n <= |s|
    ensures forall i | 0 <= i < n :: s[i] == '#'
    ensures n < max && n < |s| ==> s[n] != '#'
  {
    if max == 0 || s == [] || s[0] != '#' then 0 else 1 + HashRun(s[1..], max - 1)
  }

  function SpaceRun(s: string): (n: nat)
    ensures n <= |s|
    ensures IsBlank(s[..n])
    ensures n < |s| ==> !IsSpace(s[n])
  {
    if s == [] || !IsSpace(s[0]) then 0 else 1 + SpaceRun(s[1..])
  }

  /**
   * `re.sub(r'^#{1,6}\s*', '', s, flags=re.MULTILINE)`. `lineStart` says
   * whether the scan position is the start of a line (start of the string or
   * just after a newline). `\s*` may consume newlines, so after a match the
   * next position is a line start exactly when the match ended in a newline.
   */
  function StripHeadingMarks(s: string, lineStart: bool): string
    decreases |s|
  {
    if s == [] then []
    else if lineStart && s[0] == '#' then
      var h := HashRun(s, 6);
      var e := h + SpaceRun(s[h..]);
      StripHeadingMarks(s[e..], s[e - 1] == '\n')
    else [s[0]] + StripHeadingMarks(s[1..], s[0] == '\n')
  }

  /** A heading line loses its marks and the spaces after them. */
  lemma HeadingMarksRemoved(n: nat, t: string)
    requires 1 <= n <= 6 && t != [] && !IsSpace(t[0]) && t[0] != '#'
    ensures StripHeadingMarks(seq(n, _ => '#') + " " + t, true) == StripHeadingMarks(t, false)
  {
    var s := seq(n, _ => '#') + " " + t;
    assert HashRun(s, 6) == n by {
      HashRunOf(n, " " + t, 6);
      assert s == seq(n, _ => '#') + (" " + t);
    }
    assert s[n..] == " " + t;
    assert SpaceRun(" " + t) == 1 by {
      assert (" " + t)[1..] == t;
    }
    assert s[n + 1..] == t;
  }

  lemma {:induction false} HashRunOf(n: nat, rest: string, max: nat)
    requires n <= max && (rest == [] || rest[0] != '#' || n == max)
    ensures HashRun(seq(n, _ => '#') + rest, max) == n
    decreases n
  {
    if n > 0 {
      var s := seq(n, _ => '#') + rest;
      assert s[1..] == seq(n - 1, _ => '#') + rest;
      HashRunOf(n - 1, rest, max - 1);
    }
  }

  /** Text with no `#` in it is left as it is. */
  lemma {:induction false} HeadingMarksAbsent(s: string, lineStart: bool)
    requires '#' !in s
    ensures StripHeadingMarks(s, lineStart) == s
    decreases |s|
  {
    if s != [] {
      HeadingMarksAbsent(s[1..], s[0] == '\n');
      assert [s[0]] + s[1..] == s;
    }
  }
}
