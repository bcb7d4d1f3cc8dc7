/**
 * The markdown-to-HTML pipeline the page and e-book builders share: a few
 * line-anchored header substitutions, then bold, italic and links, then a
 * paragraph pass over the `"\n\n"` blocks.
 */
module Markup {
  import opened Text
  import opened MarkdownRegex

  // ----- header substitutions ----------------------------------------------

  /** One `re.sub(r'^<prefix>(.+)$', open + r'\1' + close, html, flags=re.MULTILINE)`. */
  datatype HeaderRule = HeaderRule(prefix: string, open: string, close: string)

  /** A rule none of whose parts spans a line break. */
  predicate LineSafe(r: HeaderRule)
  {
    r.prefix != [] && '\n' !in r.prefix && '\n' !in r.open && '\n' !in r.close
  }

  predicate AllLineSafe(rules: seq<HeaderRule>)
  {
    forall k | 0 <= k < |rules| :: LineSafe(rules[k])
  }

  /** The header rules applied to the whole text, in the order given. */
  function SubHeaders(s: string, rules: seq<HeaderRule>): string
    decreases |rules|
  {
    if rules == [] then s
    else SubHeaders(SubHeader(s, rules[0].prefix, rules[0].open, rules[0].close), rules[1..])
  }

  /** The header rules applied, in order, to a single line. */
  function RuleLine(line: string, rules: seq<HeaderRule>): string
    decreases |rules|
  {
    if rules == [] then line
    else RuleLine(HeaderLine(line, rules[0].prefix, rules[0].open, rules[0].close), rules[1..])
  }

  function RuleLines(lines: seq<string>, rules: seq<HeaderRule>): (r: seq<string>)
    ensures |r| == |lines|
    ensures forall k | 0 <= k < |lines| :: r[k] == RuleLine(lines[k], rules)
  {
    seq(|lines|, k requires 0 <= k < |lines| => RuleLine(lines[k], rules))
  }

  /** A header rule never introduces a line break into a line. */
  lemma HeaderLineFree(line: string, r: HeaderRule)
    requires LineSafe(r) && '\n' !in line
    ensures '\n' !in HeaderLine(line, r.prefix, r.open, r.close)
  {
    if StartsWith(line, r.prefix) && |line| > |r.prefix| {
      var t := line[|r.prefix|..];
      assert '\n' !in t by {
        forall i | 0 <= i < |t| ensures t[i] != '\n' { assert t[i] == line[|r.prefix| + i]; }
      }
    }
  }

  /** Pieces free of line breaks join and split back to themselves. */
  lemma LinesRejoinable(lines: seq<string>)
    requires forall k | 0 <= k < |lines| :: '\n' !in lines[k]
    ensures Rejoinable(lines, "\n")
  {
    forall k | 0 <= k < |lines| ensures !Contains(lines[k], "\n") && BreaksCleanly(lines[k], "\n") {
      ContainsChar(lines[k], '\n');
      forall p | 0 <= p < |lines[k]| ensures !StartsWith((lines[k] + "\n")[p..], "\n") {
        assert (lines[k] + "\n")[p] == lines[k][p];
      }
    }
  }

  /** The pieces of `split('\n')` hold no line break. */
  lemma SplitLinesFree(s: string)
    ensures forall k | 0 <= k < |Split(s, "\n")| :: '\n' !in Split(s, "\n")[k]
  {
    SplitPiecesFree(s, "\n");
    forall k | 0 <= k < |Split(s, "\n")| ensures '\n' !in Split(s, "\n")[k] {
      ContainsChar(Split(s, "\n")[k], '\n');
    }
  }

  /**
   * With MULTILINE anchors the header substitutions act line by line: the
   * result is the text's lines, each rewritten by the rules in turn, joined
   * back with newlines.
   */
  lemma {:induction false} SubHeadersByLine(s: string, rules: seq<HeaderRule>)
    requires AllLineSafe(rules)
    ensures SubHeaders(s, rules) == Join(RuleLines(Split(s, "\n"), rules), "\n")
    decreases |rules|
  {
    var lines := Split(s, "\n");
    if rules == [] {
      JoinSplit(s, "\n");
      assert RuleLines(lines, rules) == lines;
    } else {
      var r := rules[0];
      var hl := HeaderLines(lines, r.prefix, r.open, r.close);
      var t := Join(hl, "\n");
      assert SubHeaders(s, rules) == SubHeaders(t, rules[1..]);
      assert AllLineSafe(rules[1..]) by {
        forall k | 0 <= k < |rules| - 1 ensures LineSafe(rules[1..][k]) { assert rules[1..][k] == rules[k + 1]; }
      }
      SubHeadersByLine(t, rules[1..]);
      SplitLinesFree(s);
      assert LineSafe(r) by { assert r == rules[0]; }
      forall k | 0 <= k < |hl| ensures '\n' !in hl[k] {
        HeaderLineFree(lines[k], r);
      }
      LinesRejoinable(hl);
      SplitJoin(hl, "\n");
      assert RuleLines(hl, rules[1..]) == RuleLines(lines, rules);
    }
  }

  /** A line that does not start with `#` is left alone by every rule whose prefix starts with `#`. */
  lemma {:induction false} UnmarkedLineUntouched(line: string, rules: seq<HeaderRule>)
    requires line != [] && line[0] != '#'
    requires forall k | 0 <= k < |rules| :: rules[k].prefix != [] && rules[k].prefix[0] == '#'
    ensures RuleLine(line, rules) == line
    decreases |rules|
  {
    if rules != [] {
      assert !StartsWith(line, rules[0].prefix) by {
        if |rules[0].prefix| <= |line| { assert line[..|rules[0].prefix|][0] == line[0]; }
      }
      UnmarkedLineUntouched(line, rules[1..]);
    }
  }

  /**
   * A line that no rule before `level` rewrites, that the rule at `level`
   * does rewrite, and whose rewriting no later rule touches, comes out as
   * that rule's element.
   */
  lemma {:induction false} RuleLineAt(line: string, rules: seq<HeaderRule>, level: nat)
    requires level < |rules|
    requires forall j | 0 <= j < level :: !StartsWith(line, rules[j].prefix)
    requires StartsWith(line, rules[level].prefix) && |line| > |rules[level].prefix|
    requires var r := rules[level];
      forall j | level < j < |rules| :: !StartsWith(r.open + line[|r.prefix|..] + r.close, rules[j].prefix)
    ensures RuleLine(line, rules) == rules[level].open + line[|rules[level].prefix|..] + rules[level].close
    decreases level
  {
    var r := rules[level];
    var tagged := r.open + line[|r.prefix|..] + r.close;
    if level == 0 {
      assert HeaderLine(line, r.prefix, r.open, r.close) == tagged;
      RuleLineNone(tagged, rules[1..]);
    } else {
      assert HeaderLine(line, rules[0].prefix, rules[0].open, rules[0].close) == line;
      assert rules[1..][level - 1] == r;
      RuleLineAt(line, rules[1..], level - 1);
    }
  }

  /** A line no rule's prefix starts is left as it is. */
  lemma {:induction false} RuleLineNone(line: string, rules: seq<HeaderRule>)
    requires forall j | 0 <= j < |rules| :: !StartsWith(line, rules[j].prefix)
    ensures RuleLine(line, rules) == line
    decreases |rules|
  {
    if rules != [] {
      assert !StartsWith(line, rules[0].prefix);
      RuleLineNone(line, rules[1..]);
    }
  }

  // ----- inline markup -----------------------------------------------------

  /** Bold, then italic (with the given opening tag), then links. */
  function Inline(s: string, em: string): string
  {
    SubLinks(SubPaired(SubPaired(s, "**", "<strong>", "</strong>"), "*", em, "</em>"))
  }

  /** Text with no `[` has no link in it. */
  lemma {:induction false} SubLinksAbsent(s: string)
    requires '[' !in s
    ensures SubLinks(s) == s
    decreases |s|
  {
    if s != [] {
      assert LinkAt(s).None?;
      SubLinksAbsent(s[1..]);
      assert [s[0]] + s[1..] == s;
    }
  }

  /** Text with neither `*` nor `[` passes the inline substitutions unchanged. */
  lemma PlainInline(s: string, em: string)
    requires '*' !in s && '[' !in s
    ensures Inline(s, em) == s
  {
    SubPairedAbsent(s, "**", "<strong>", "</strong>");
    SubPairedAbsent(s, "*", em, "</em>");
    SubLinksAbsent(s);
  }

  // ----- the shared conversion of the page and simple e-book builders ------

  /** `#`, `##`, `###` in that order. */
  const LevelRules: seq<HeaderRule> :=
    [HeaderRule("# ", "<h1>", "</h1>"), HeaderRule("## ", "<h2>", "</h2>"), HeaderRule("### ", "<h3>", "</h3>")]

  /** The substitutions before the paragraph pass: headers, bold, italic, links. */
  function Converted(content: string): string
  {
    Inline(SubHeaders(content, LevelRules), "<em>")
  }

  /** RuleLine over the three simple rules, one rule at a time. */
  lemma LevelRuleLine(line: string)
    ensures RuleLine(line, LevelRules) ==
      HeaderLine(HeaderLine(HeaderLine(line, "# ", "<h1>", "</h1>"), "## ", "<h2>", "</h2>"), "### ", "<h3>", "</h3>")
  {
    var r := LevelRules;
    assert r[1..][1..][1..] == [];
  }

  /** The rules on a heading line of each level give that level's element. */
  lemma HeadingRuleLine(level: nat, t: string)
    requires level < 3 && t != []
    ensures RuleLine(LevelRules[level].prefix + t, LevelRules) == LevelRules[level].open + t + LevelRules[level].close
  {
    var rule := LevelRules[level];
    var line := rule.prefix + t;
    var tagged := rule.open + t + rule.close;
    LevelRuleLine(line);
    LevelRuleLine(tagged);
    assert StartsWith(line, rule.prefix) by { assert line[..|rule.prefix|] == rule.prefix; }
    NotPrefixed(tagged, "# ", 0);
    NotPrefixed(tagged, "## ", 0);
    NotPrefixed(tagged, "### ", 0);
    if level == 0 {
      assert HeaderLine(line, "# ", "<h1>", "</h1>") == tagged;
    } else if level == 1 {
      NotPrefixed(line, "# ", 1);
      assert HeaderLine(line, "## ", "<h2>", "</h2>") == tagged;
    } else {
      NotPrefixed(line, "# ", 1);
      NotPrefixed(line, "## ", 2);
      assert HeaderLine(line, "### ", "<h3>", "</h3>") == tagged;
    }
  }

  /** The three rules keep to single lines. */
  lemma LevelRulesSafe()
    ensures AllLineSafe(LevelRules)
  {
    forall k | 0 <= k < 3 ensures LineSafe(LevelRules[k]) {
      RuleChars(k);
    }
  }

  /** On a single line the header substitutions are the rules applied to that line. */
  lemma SubHeadersSingleLine(line: string, rules: seq<HeaderRule>)
    requires AllLineSafe(rules) && '\n' !in line
    ensures SubHeaders(line, rules) == RuleLine(line, rules)
  {
    SingleLine(line);
    SubHeadersByLine(line, rules);
    var r := RuleLines([line], rules);
    assert r == [r[0]];
  }

  lemma SubHeadersOneLine(line: string)
    requires '\n' !in line
    ensures SubHeaders(line, LevelRules) == RuleLine(line, LevelRules)
  {
    LevelRulesSafe();
    SubHeadersSingleLine(line, LevelRules);
  }

  /** The substitutions turn a heading line into its element. */
  lemma ConvertedHeading(level: nat, t: string)
    requires level < 3 && t != [] && '\n' !in t && '*' !in t && '[' !in t
    ensures Converted(LevelRules[level].prefix + t) == LevelRules[level].open + t + LevelRules[level].close
  {
    var rule := LevelRules[level];
    RuleChars(level);
    NotInParts('\n', rule.prefix, t, []);
    NotInParts('*', rule.open, t, rule.close);
    NotInParts('[', rule.open, t, rule.close);
    assert rule.prefix + t + [] == rule.prefix + t;
    HeadingRuleLine(level, t);
    SubHeadersOneLine(rule.prefix + t);
    PlainInline(rule.open + t + rule.close, "<em>");
  }

  /** The parts of the simple rules hold no line break, asterisk or bracket. */
  lemma RuleChars(level: nat)
    requires level < 3
    ensures var rule := LevelRules[level];
      '\n' !in rule.prefix && '*' !in rule.open && '*' !in rule.close && '[' !in rule.open && '[' !in rule.close
      && '\n' !in rule.open && '\n' !in rule.close && rule.prefix != [] && rule.prefix[0] == '#'
      && rule.open != [] && rule.open[0] == '<'
      && StartsWith(rule.open, "<h") && rule.close != [] && rule.close[|rule.close| - 1] == '>'
  {
  }

  /** A tagged line keeps the start of its opening tag and the end of its closing one. */
  lemma TaggedShape(open: string, t: string, close: string)
    requires StartsWith(open, "<h") && close != [] && close[|close| - 1] == '>'
    ensures var w := open + t + close; StartsWith(w, "<h") && w[|w| - 1] == '>'
  {
    var w := open + t + close;
    assert w[..2] == open[..2];
  }

  /** A character absent from three parts is absent from their concatenation. */
  lemma NotInParts(c: char, a: string, b: string, d: string)
    requires c !in a && c !in b && c !in d
    ensures c !in a + b + d
  {
  }

  /** The substitutions leave a line of plain text as it is. */
  lemma ConvertedPlain(line: string)
    requires line != [] && '\n' !in line && '*' !in line && '[' !in line && line[0] != '#'
    ensures Converted(line) == line
  {
    NoHeading(line);
    SubHeadersOneLine(line);
    PlainInline(line, "<em>");
  }

  /** A single line splits into itself, on newlines and on blank lines alike. */
  lemma SingleLine(line: string)
    requires '\n' !in line
    ensures Split(line, "\n") == [line] && Split(line, "\n\n") == [line]
  {
    ContainsChar(line, '\n');
    SplitWhole(line, "\n");
    assert !Contains(line, "\n\n") by {
      forall p | 0 <= p <= |line| ensures !StartsWith(line[p..], "\n\n") {
        if p < |line| { assert line[p..][0] == line[p]; }
      }
    }
    SplitWhole(line, "\n\n");
  }

  /** A line that does not start with `#` is left alone by the header rules. */
  lemma NoHeading(line: string)
    requires line != [] && line[0] != '#'
    ensures RuleLine(line, LevelRules) == line
  {
    LevelRuleLine(line);
    NotPrefixed(line, "# ", 0);
    NotPrefixed(line, "## ", 0);
    NotPrefixed(line, "### ", 0);
  }

  /** A line that differs from a prefix at some position does not start with it. */
  lemma NotPrefixed(line: string, prefix: string, i: nat)
    requires i < |line| && i < |prefix| && line[i] != prefix[i]
    ensures !StartsWith(line, prefix)
  {
    if |prefix| <= |line| {
      assert line[..|prefix|][i] == line[i];
    }
  }

  // ----- the paragraph pass of the page builders ---------------------------

  /** `p = p.strip()`, then `<p>…</p>` around it when it is non-empty and does not start with `<`. */
  function WrapBlock(p: string): (r: string)
    ensures r == [] <==> IsBlank(p)
    ensures r != [] ==> r[0] == '<'
  {
    var q := Strip(p);
    if q != [] && q[0] != '<' then "<p>" + q + "</p>" else q
  }

  /** Every block, blank ones included, in order. */
  function WrapBlocks(ps: seq<string>): (r: seq<string>)
    ensures |r| == |ps|
  {
    if ps == [] then [] else WrapBlocks(ps[..|ps| - 1]) + [WrapBlock(ps[|ps| - 1])]
  }

  /** Block `k` of the output is block `k` of the input, wrapped. */
  lemma {:induction false} WrapBlocksAt(ps: seq<string>, k: nat)
    requires k < |ps|
    ensures WrapBlocks(ps)[k] == WrapBlock(ps[k])
    decreases |ps|
  {
    if k < |ps| - 1 {
      WrapBlocksAt(ps[..|ps| - 1], k);
    }
  }

  /** The paragraph pass of the page builders: split on blank lines, wrap each block, rejoin with blank lines. */
  function Paragraphed(html: string): string
  {
    Join(WrapBlocks(Split(html, "\n\n")), "\n\n")
  }

  /** Wrapping a wrapped block changes nothing: the pass settles after one round on every block. */
  lemma WrapBlockIdempotent(p: string)
    ensures WrapBlock(WrapBlock(p)) == WrapBlock(p)
  {
    var q := Strip(p);
    if q != [] && q[0] != '<' {
      var w := "<p>" + q + "</p>";
      assert WrapBlock(p) == w;
      TagBlockKept(w);
    } else {
      assert WrapBlock(p) == q;
      StripTrimmed(q);
    }
  }

  /** A block already holding a tag that starts and ends it comes out as it is. */
  lemma TagBlockKept(p: string)
    requires p != [] && p[0] == '<' && p[|p| - 1] == '>'
    ensures WrapBlock(p) == p
  {
    StripTrimmed(p);
  }

  lemma WrapBlocksStep(ps: seq<string>, k: nat)
    requires k < |ps|
    ensures WrapBlocks(ps[..k + 1]) == WrapBlocks(ps[..k]) + [WrapBlock(ps[k])]
  {
    assert ps[..k + 1][..k] == ps[..k];
  }

  /** One pass of the paragraph loop. */
  method WrapOne(para: string) returns (p: string)
    ensures p == WrapBlock(para)
  {
    p := Strip(para);
    if p != [] && p[0] != '<' {
      p := "<p>" + p + "</p>";
    }
  }

  /** The loop of `markdown_to_html` that wraps paragraphs. */
  method WrapParagraphs(html: string) returns (out: string)
    ensures out == Paragraphed(html)
  {
    var paragraphs := Split(html, "\n\n");
    var htmlParagraphs: seq<string> := [];
    var k := 0;
    while k < |paragraphs|
      invariant 0 <= k <= |paragraphs|
      invariant htmlParagraphs == WrapBlocks(paragraphs[..k])
    {
      var p := WrapOne(paragraphs[k]);
      WrapBlocksStep(paragraphs, k);
      htmlParagraphs := htmlParagraphs + [p];
      k := k + 1;
    }
    assert paragraphs[..k] == paragraphs;
    out := Join(htmlParagraphs, "\n\n");
  }

  // ----- what the paragraph pass guarantees ---------------------------------

  /** Tags without line breaks around a piece add no blank line to it. */
  lemma WrappedContains(q: string)
    ensures Contains("<p>" + q + "</p>", "\n\n") ==> Contains(q, "\n\n")
  {
    var w := "<p>" + q + "</p>";
    if Contains(w, "\n\n") {
      var p :| 0 <= p <= |w| && StartsWith(w[p..], "\n\n");
      assert w[p] == '\n' && w[p + 1] == '\n' by { assert w[p..][..2] == "\n\n"; }
      assert 3 <= p && p + 1 < 3 + |q| by {
        assert forall j | 0 <= j < 3 :: w[j] != '\n';
        assert forall j | 3 + |q| <= j < |w| :: w[j] != '\n';
      }
      assert q[p - 3..p - 1] == "\n\n" by {
        assert q[p - 3] == w[p] && q[p - 2] == w[p + 1];
      }
      ContainsAt(q, "\n\n", p - 3);
    }
  }

  /** A block without a blank line comes out trimmed and still without one. */
  lemma WrapBlockFree(p: string)
    requires !Contains(p, "\n\n")
    ensures Trimmed(WrapBlock(p)) && !Contains(WrapBlock(p), "\n\n")
  {
    var q := Strip(p);
    StripContains(p, "\n\n");
    if q != [] && q[0] != '<' {
      ParagraphTagsFree(q);
      assert WrapBlock(p) == "<p>" + q + "</p>";
    } else {
      assert WrapBlock(p) == q;
    }
  }

  /** A piece without a blank line, in `<p>` tags, is trimmed and still without one. */
  lemma ParagraphTagsFree(q: string)
    requires !Contains(q, "\n\n")
    ensures var w := "<p>" + q + "</p>"; Trimmed(w) && !Contains(w, "\n\n")
  {
    var w := "<p>" + q + "</p>";
    assert w[0] == '<' && w[|w| - 1] == '>';
    WrappedContains(q);
  }

  /** The wrapped pieces of a split on blank lines join and split back to themselves. */
  lemma WrapBlocksRejoinable(ps: seq<string>)
    requires forall k | 0 <= k < |ps| :: !Contains(ps[k], "\n\n")
    ensures Rejoinable(WrapBlocks(ps), "\n\n")
  {
    var ws := WrapBlocks(ps);
    forall k | 0 <= k < |ws| ensures !Contains(ws[k], "\n\n") && BreaksCleanly(ws[k], "\n\n") {
      WrapBlocksAt(ps, k);
      WrapBlockFree(ps[k]);
      TrimmedBreaksCleanly(ws[k]);
    }
  }

  /**
   * The pass keeps the block count: splitting its output on blank lines gives
   * back the input's blocks, each wrapped, in order.
   */
  lemma ParagraphedBlocks(html: string)
    ensures Split(Paragraphed(html), "\n\n") == WrapBlocks(Split(html, "\n\n"))
    ensures |Split(Paragraphed(html), "\n\n")| == |Split(html, "\n\n")|
  {
    var ps := Split(html, "\n\n");
    SplitPiecesFree(html, "\n\n");
    WrapBlocksRejoinable(ps);
    SplitJoin(WrapBlocks(ps), "\n\n");
  }

  /** Wrapping wrapped blocks changes nothing. */
  lemma WrapBlocksIdempotent(ps: seq<string>)
    ensures WrapBlocks(WrapBlocks(ps)) == WrapBlocks(ps)
  {
    var ws := WrapBlocks(ps);
    forall k | 0 <= k < |ps| ensures WrapBlocks(ws)[k] == ws[k] {
      WrapBlocksAt(ws, k);
      WrapBlocksAt(ps, k);
      WrapBlockIdempotent(ps[k]);
    }
  }

  /** Running the pass on its own output changes nothing. */
  lemma ParagraphedIdempotent(html: string)
    ensures Paragraphed(Paragraphed(html)) == Paragraphed(html)
  {
    ParagraphedBlocks(html);
    WrapBlocksIdempotent(Split(html, "\n\n"));
  }

  /** Wrapping a block in front of others. */
  lemma WrapBlocksCons(x: string, ps: seq<string>)
    ensures WrapBlocks([x] + ps) == [WrapBlock(x)] + WrapBlocks(ps)
  {
    var xs := [x] + ps;
    forall k | 0 <= k < |xs| ensures WrapBlocks(xs)[k] == ([WrapBlock(x)] + WrapBlocks(ps))[k] {
      WrapBlocksAt(xs, k);
      if k > 0 {
        WrapBlocksAt(ps, k - 1);
      }
    }
  }

  /**
   * A leading one-line tagged block stays the first block as it is: the pass
   * leaves it alone and treats the text after it on its own.
   */
  lemma ParagraphedLeading(d: string, rest: string)
    requires d != [] && d[0] == '<' && d[|d| - 1] == '>' && '\n' !in d
    ensures Paragraphed(d + "\n\n" + rest) == d + "\n\n" + Paragraphed(rest)
    ensures Split(Paragraphed(d + "\n\n" + rest), "\n\n")[0] == d
  {
    NoBlankLine(d);
    TrimmedBreaksCleanly(d);
    SplitAfter(d, "\n\n", rest);
    var ps := Split(rest, "\n\n");
    WrapBlocksCons(d, ps);
    TagBlockKept(d);
    JoinAppend([d], WrapBlocks(ps), "\n\n");
    ParagraphedBlocks(d + "\n\n" + rest);
  }
}
