/**
 * The premium GitHub Pages builder: chapter pages under their own header
 * rules with an optional illustration, and a table of contents whose lines
 * are classified one by one.
 */
module PagesPremium {
  import opened Wrappers
  import opened Text
  import opened Books
  import opened MarkdownRegex
  import opened Markup
  import opened Pages

  // ----- chapter pages ------------------------------------------------------

  /** `###` first, then `##`, then `#`; both `###` and `#` give `<h1>`. */
  const PremiumRules: seq<HeaderRule> :=
    [HeaderRule("### ", "<h1>", "</h1>"), HeaderRule("## ", "<h2>", "</h2>"), HeaderRule("# ", "<h1>", "</h1>")]

  /** The substitutions of the premium `markdown_to_html` before its paragraph pass. */
  function PremiumConverted(content: string): string
  {
    Inline(SubHeaders(content, PremiumRules), "<em>")
  }

  /** The converted chapter after the paragraph pass. */
  function PremiumBody(content: string): string
  {
    Paragraphed(PremiumConverted(content))
  }

  lemma PremiumRulesSafe()
    ensures AllLineSafe(PremiumRules)
  {
    forall k | 0 <= k < 3 ensures LineSafe(PremiumRules[k]) {
      PremiumRuleChars(k);
    }
  }

  /** The parts of the premium rules hold no line break, asterisk or bracket. */
  lemma PremiumRuleChars(level: nat)
    requires level < 3
    ensures var rule := PremiumRules[level];
      rule.prefix != [] && '\n' !in rule.prefix && '\n' !in rule.open && '\n' !in rule.close
      && '*' !in rule.open && '*' !in rule.close && '[' !in rule.open && '[' !in rule.close
      && rule.open[0] == '<' && rule.prefix[|rule.prefix| - 1] == ' '
      && forall i | 0 <= i < |rule.prefix| - 1 :: rule.prefix[i] == '#'
  {
  }

  /** A heading line of each premium level comes out as that level's element. */
  lemma PremiumHeadingLine(level: nat, t: string)
    requires level < 3 && t != []
    ensures var rule := PremiumRules[level];
      RuleLine(rule.prefix + t, PremiumRules) == rule.open + t + rule.close
  {
    var rule := PremiumRules[level];
    var line := rule.prefix + t;
    var tagged := rule.open + t + rule.close;
    PremiumRuleChars(level);
    assert line[..|rule.prefix|] == rule.prefix && line[|rule.prefix|..] == t;
    assert line[|rule.prefix| - 1] == ' ';
    forall j | 0 <= j < level ensures !StartsWith(line, PremiumRules[j].prefix) {
      PremiumRuleChars(j);
      NotPrefixed(line, PremiumRules[j].prefix, |rule.prefix| - 1);
    }
    forall j | level < j < 3 ensures !StartsWith(tagged, PremiumRules[j].prefix) {
      PremiumRuleChars(j);
      NotPrefixed(tagged, PremiumRules[j].prefix, 0);
    }
    RuleLineAt(line, PremiumRules, level);
  }

  /** The chapter substitutions turn a heading line of plain text into its element. */
  lemma PremiumConvertedHeading(level: nat, t: string)
    requires level < 3 && t != [] && '\n' !in t && '*' !in t && '[' !in t
    ensures var rule := PremiumRules[level];
      PremiumConverted(rule.prefix + t) == rule.open + t + rule.close
  {
    var rule := PremiumRules[level];
    PremiumRuleChars(level);
    PremiumRulesSafe();
    NotInParts('\n', rule.prefix, t, []);
    NotInParts('*', rule.open, t, rule.close);
    NotInParts('[', rule.open, t, rule.close);
    assert rule.prefix + t + [] == rule.prefix + t;
    PremiumHeadingLine(level, t);
    SubHeadersSingleLine(rule.prefix + t, PremiumRules);
    PlainInline(rule.open + t + rule.close, "<em>");
  }

  /**
   * On chapter pages `### t` becomes `<h1>t</h1>`, exactly what `# t` becomes,
   * where the plain page builder makes it an `<h3>`; `## t` is an `<h2>`.
   */
  lemma PremiumHeadings(t: string)
    requires t != [] && '\n' !in t && '*' !in t && '[' !in t
    ensures PremiumConverted("### " + t) == "<h1>" + t + "</h1>" == PremiumConverted("# " + t)
    ensures PremiumConverted("## " + t) == "<h2>" + t + "</h2>"
    ensures PremiumConverted("### " + t) != Converted("### " + t)
  {
    PremiumLevel(0, "### ", "<h1>", "</h1>", t);
    PremiumLevel(1, "## ", "<h2>", "</h2>", t);
    PremiumLevel(2, "# ", "<h1>", "</h1>", t);
    PlainThirdLevel(t);
  }

  lemma PremiumLevel(level: nat, prefix: string, open: string, close: string, t: string)
    requires level < 3 && PremiumRules[level] == HeaderRule(prefix, open, close)
    requires t != [] && '\n' !in t && '*' !in t && '[' !in t
    ensures PremiumConverted(prefix + t) == open + t + close
  {
    PremiumConvertedHeading(level, t);
  }

  /** The plain builder's `<h3>` differs from the premium `<h1>` at the tag's digit. */
  lemma PlainThirdLevel(t: string)
    requires t != [] && '\n' !in t && '*' !in t && '[' !in t
    ensures Converted("### " + t) != "<h1>" + t + "</h1>"
  {
    ConvertedHeading(2, t);
    assert LevelRules[2] == HeaderRule("### ", "<h3>", "</h3>");
    assert ("<h3>" + t + "</h3>")[2] == '3';
    assert ("<h1>" + t + "</h1>")[2] == '1';
  }

  /** The `<img>` element for the illustration of `name`. */
  function ImageTag(name: string): string
  {
    "<img src=\"" + ("../art/pages/" + name + ".png") + "\" alt=\"Chapter illustration\" class=\"chapter-image\" />"
  }

  /**
   * `chapter_image`: the tag when a non-empty chapter name is given and
   * `art/pages/<name>.png` exists, otherwise nothing.
   */
  function ChapterImage(chapterName: Option<string>, artExists: string -> bool): (r: string)
    ensures r != [] <==> chapterName.Some? && chapterName.value != [] && artExists(chapterName.value + ".png")
    ensures r != [] ==> r == ImageTag(chapterName.value)
  {
    match chapterName
    case Some(name) => if name != [] && artExists(name + ".png") then ImageTag(name) else []
    case None => []
  }

  /** The tag's source is the very file whose existence was checked, so different chapters get different tags. */
  lemma ImageTagSource(name: string)
    ensures ImageTag(name)[10..27 + |name|] == "../art/pages/" + name + ".png"
    ensures forall other: string :: ImageTag(other) == ImageTag(name) ==> other == name
  {
    var src := "../art/pages/" + name + ".png";
    assert ImageTag(name) == "<img src=\"" + src + "\" alt=\"Chapter illustration\" class=\"chapter-image\" />";
    forall other: string | ImageTag(other) == ImageTag(name) ensures other == name {
      assert |other| == |name|;
      assert ImageTag(other)[23..23 + |other|] == other;
      assert ImageTag(name)[23..23 + |name|] == name;
    }
  }

  /** What the premium page template is filled with. */
  datatype PremiumDoc =
    | TocDoc(toc: string)
    | ChapterDoc(title: string, image: string, main: string)

  /** The header, inline and paragraph substitutions, one `re.sub` at a time. */
  method ChapterHtml(content: string) returns (html: string)
    ensures html == PremiumBody(content)
  {
    html := SubHeader(content, "### ", "<h1>", "</h1>");
    html := SubHeader(html, "## ", "<h2>", "</h2>");
    html := SubHeader(html, "# ", "<h1>", "</h1>");
    assert html == SubHeaders(content, PremiumRules) by {
      var r := PremiumRules;
      assert r[1..][1..][1..] == [];
    }
    html := SubPaired(html, "**", "<strong>", "</strong>");
    html := SubPaired(html, "*", "<em>", "</em>");
    html := SubLinks(html);
    html := WrapParagraphs(html);
  }

  /** `markdown_to_html` of the premium builder. */
  method PremiumMarkdownToHtml(content: string, title: string, chapterName: Option<string>, artExists: string -> bool)
    returns (page: PremiumDoc)
    ensures page == ChapterDoc(title, ChapterImage(chapterName, artExists), PremiumBody(content))
  {
    var html := ChapterHtml(content);
    var chapterImage := "";
    if chapterName.Some? && chapterName.value != [] {
      if artExists(chapterName.value + ".png") {
        chapterImage := ImageTag(chapterName.value);
      }
    }
    page := ChapterDoc(title, chapterImage, html);
  }

  // ----- the index ----------------------------------------------------------

  /** The index's header rules: `#` is the main title, `###` a part title. */
  const IndexRules: seq<HeaderRule> :=
    [HeaderRule("# ", "<h1 class=\"main-title\">", "</h1>"), HeaderRule("## ", "<h2>", "</h2>"),
     HeaderRule("### ", "<h3 class=\"part-title\">", "</h3>")]

  /** Italics of the index carry the subtitle class. */
  const SubtitleOpen: string := "<em class=\"subtitle\">"

  /** The substitutions of `create_premium_index`: story links first, then headers, bold, italic, links. */
  function IndexMarkup(readme: string): string
  {
    Inline(SubHeaders(SubStoryLinks(readme), IndexRules), SubtitleOpen)
  }

  /** The tags of the index rules hold no line break, asterisk or bracket, and open with `<`. */
  lemma IndexRuleChars(level: nat)
    requires level < 3
    ensures var rule := IndexRules[level];
      '\n' !in rule.open && '\n' !in rule.close && '*' !in rule.open && '*' !in rule.close
      && '[' !in rule.open && '[' !in rule.close && rule.open[0] == '<'
  {
    if level == 0 {
      TagChars("<h1 class=\"main-title\">");
    } else if level == 2 {
      TagChars("<h3 class=\"part-title\">");
    }
  }

  /** Enough of a literal tag to know which marks it lacks. */
  lemma TagChars(tag: string)
    requires forall i | 0 <= i < |tag| :: tag[i] != '\n' && tag[i] != '*' && tag[i] != '['
    ensures '\n' !in tag && '*' !in tag && '[' !in tag
  {
  }

  /** The prefixes of the index rules: one, two or three `#`, then a space. */
  lemma IndexRulePrefix(level: nat)
    requires level < 3
    ensures var p := IndexRules[level].prefix;
      |p| == level + 2 && p[level + 1] == ' ' && '\n' !in p && '(' !in p
      && forall i | 0 <= i <= level :: p[i] == '#'
  {
  }

  lemma IndexRulesSafe()
    ensures AllLineSafe(IndexRules)
  {
    forall k | 0 <= k < 3 ensures LineSafe(IndexRules[k]) {
      IndexRuleChars(k);
      IndexRulePrefix(k);
    }
  }

  /** A heading line of each index level comes out as that level's element. */
  lemma IndexHeadingLine(level: nat, t: string)
    requires level < 3 && t != []
    ensures var rule := IndexRules[level];
      RuleLine(rule.prefix + t, IndexRules) == rule.open + t + rule.close
  {
    var rule := IndexRules[level];
    var line := rule.prefix + t;
    var tagged := rule.open + t + rule.close;
    IndexRuleChars(level);
    IndexRulePrefix(level);
    assert line[..|rule.prefix|] == rule.prefix && line[|rule.prefix|..] == t;
    forall j | 0 <= j < level ensures !StartsWith(line, IndexRules[j].prefix) {
      IndexRulePrefix(j);
      assert line[j + 1] == rule.prefix[j + 1] == '#';
      NotPrefixed(line, IndexRules[j].prefix, j + 1);
    }
    forall j | level < j < 3 ensures !StartsWith(tagged, IndexRules[j].prefix) {
      IndexRulePrefix(j);
      NotPrefixed(tagged, IndexRules[j].prefix, 0);
    }
    RuleLineAt(line, IndexRules, level);
  }

  /** Text with no `(` has no story link in it. */
  lemma {:induction false} SubStoryLinksPlain(a: string, rest: string)
    requires '(' !in a
    ensures SubStoryLinks(a + rest) == a + SubStoryLinks(rest)
    decreases |a|
  {
    if a == [] {
      assert a + rest == rest;
    } else {
      var s := a + rest;
      assert s[0] == a[0] && s[1..] == a[1..] + rest;
      NoStoryLinkHere(s);
      SubStoryLinksPlain(a[1..], rest);
      LeadChar(s, a, a[1..], rest, a[0]);
    }
  }

  /** A text not starting with `(` has no story link at its start. */
  lemma NoStoryLinkHere(s: string)
    requires s != [] && s[0] != '('
    ensures SubStoryLinks(s) == [s[0]] + SubStoryLinks(s[1..])
  {
    assert !StartsWith(s, "(story/") by { if |s| >= 7 { assert s[..7][0] == s[0]; } }
  }

  lemma LeadChar(s: string, a: string, tail: string, rest: string, x: char)
    requires s == a + rest && a == [x] + tail
    ensures [x] + (tail + SubStoryLinks(rest)) == a + SubStoryLinks(rest)
  {
  }

  /** A heading line of plain text turns into the index's element for its level. */
  lemma IndexHeading(level: nat, t: string)
    requires level < 3 && t != [] && '\n' !in t && '*' !in t && '[' !in t && '(' !in t
    ensures var rule := IndexRules[level];
      IndexMarkup(rule.prefix + t) == rule.open + t + rule.close
  {
    var rule := IndexRules[level];
    var line := rule.prefix + t;
    IndexRuleChars(level);
    IndexRulePrefix(level);
    IndexRulesSafe();
    SubStoryLinksPlain(line, []);
    assert line + [] == line;
    NotInParts('\n', rule.prefix, t, []);
    NotInParts('*', rule.open, t, rule.close);
    NotInParts('[', rule.open, t, rule.close);
    assert rule.prefix + t + [] == line;
    IndexHeadingLine(level, t);
    SubHeadersSingleLine(line, IndexRules);
    PlainInline(rule.open + t + rule.close, SubtitleOpen);
  }

  /** `### t` is a part title and `# t` the main title of the index. */
  lemma IndexTitles(t: string)
    requires t != [] && '\n' !in t && '*' !in t && '[' !in t && '(' !in t
    ensures IndexMarkup("### " + t) == "<h3 class=\"part-title\">" + t + "</h3>"
    ensures IndexMarkup("# " + t) == "<h1 class=\"main-title\">" + t + "</h1>"
  {
    IndexHeading(2, t);
    IndexHeading(0, t);
  }

  /** A text without `**` in it is left alone by the bold pattern. */
  lemma {:induction false} SubPairedNoDelim(s: string, d: string, open: string, close: string)
    requires |d| > 0 && d[0] != '\n' && !Contains(s, d)
    ensures SubPaired(s, d, open, close) == s
    decreases |s|
  {
    if s != [] {
      assert !StartsWith(s, d) by { if StartsWith(s, d) { ContainsAt(s, d, 0); } }
      InfixContains(s, 1, |s|, d);
      SubPairedNoDelim(s[1..], d, open, close);
      assert [s[0]] + s[1..] == s;
    }
  }

  /** `*t*` has no two asterisks side by side. */
  lemma NoDoubleStar(t: string)
    requires t != [] && '*' !in t
    ensures !Contains("*" + t + "*", "**")
  {
    var s := "*" + t + "*";
    forall p | 0 <= p <= |s| ensures !StartsWith(s[p..], "**") {
      if p + 2 <= |s| {
        if p == 0 {
          assert s[p..][1] == t[0];
        } else {
          assert s[p..][0] == t[p - 1];
        }
      }
    }
  }

  /** An italic line of the index reads as a subtitle. */
  lemma IndexSubtitle(t: string)
    requires t != [] && '\n' !in t && '*' !in t && '[' !in t && '(' !in t
    ensures IndexMarkup("*" + t + "*") == SubtitleOpen + t + "</em>"
  {
    var line := "*" + t + "*";
    assert '(' !in line && '\n' !in line && line[0] == '*';
    SubStoryLinksPlain(line, []);
    assert line + [] == line;
    IndexUnmarkedLine(line);
    SubtitleInline(t);
  }

  /** The inline passes of the index on `*t*`. */
  lemma SubtitleInline(t: string)
    requires t != [] && '\n' !in t && '*' !in t && '[' !in t
    ensures Inline("*" + t + "*", SubtitleOpen) == SubtitleOpen + t + "</em>"
  {
    var line := "*" + t + "*";
    NoDoubleStar(t);
    SubPairedNoDelim(line, "**", "<strong>", "</strong>");
    assert line == "*" + t + "*" + [];
    SubPairedSpan(t, "*", SubtitleOpen, "</em>", []);
    var w := SubtitleOpen + t + "</em>";
    assert w == SubtitleOpen + t + "</em>" + SubPaired([], "*", SubtitleOpen, "</em>");
    NotInParts('[', SubtitleOpen, t, "</em>");
    SubLinksAbsent(w);
  }

  /** A line that does not start with `#` passes the index's header rules unchanged. */
  lemma IndexUnmarkedLine(line: string)
    requires line != [] && '\n' !in line && line[0] != '#'
    ensures SubHeaders(line, IndexRules) == line
  {
    IndexRulesSafe();
    SubHeadersSingleLine(line, IndexRules);
    forall k | 0 <= k < 3 ensures IndexRules[k].prefix != [] && IndexRules[k].prefix[0] == '#' {
      IndexRulePrefix(k);
    }
    UnmarkedLineUntouched(line, IndexRules);
  }

  /**
   * A link to a story file becomes a link to its page: `(story/X.md)` is
   * rewritten before links are converted, so the anchor points at `X.html`.
   */
  lemma IndexStoryLink(t: string, x: string)
    requires t != [] && '\n' !in t && '*' !in t && '[' !in t && ']' !in t && '(' !in t
    requires x != [] && '\n' !in x && '*' !in x && ')' !in x
    ensures IndexMarkup("[" + t + "](story/" + x + ".md)") == Anchor(x + ".html", t)
  {
    var linked := "[" + t + "](" + (x + ".html") + ")";
    StoryLinkRewritten(t, x);
    LinkLineConverted(t, x + ".html");
  }

  /** The story-link pass on a markdown link to a story file. */
  lemma StoryLinkRewritten(t: string, x: string)
    requires '(' !in t && x != [] && ')' !in x
    ensures SubStoryLinks("[" + t + "](story/" + x + ".md)") == "[" + t + "](" + (x + ".html") + ")"
  {
    var bracketed := "[" + t + "]";
    var link := "(story/" + x + ".md)";
    LinkLineParts(t, x);
    SubStoryLinksPlain(bracketed, link);
    assert link + [] == link;
    StoryLinkSpan(x, []);
  }

  lemma LinkLineParts(t: string, x: string)
    ensures "[" + t + "](story/" + x + ".md)" == ("[" + t + "]") + ("(story/" + x + ".md)")
    ensures ("[" + t + "]") + PageTarget(x) + SubStoryLinks([]) == "[" + t + "](" + (x + ".html") + ")"
  {
  }

  /** The header, bold, italic and link passes on a line holding one markdown link. */
  lemma LinkLineConverted(t: string, u: string)
    requires t != [] && '\n' !in t && '*' !in t && ']' !in t
    requires u != [] && '\n' !in u && '*' !in u && ')' !in u
    ensures Inline(SubHeaders("[" + t + "](" + u + ")", IndexRules), SubtitleOpen) == Anchor(u, t)
  {
    var linked := "[" + t + "](" + u + ")";
    assert '\n' !in linked && '*' !in linked && linked[0] == '[';
    IndexUnmarkedLine(linked);
    SubPairedAbsent(linked, "**", "<strong>", "</strong>");
    SubPairedAbsent(linked, "*", SubtitleOpen, "</em>");
    assert linked == "[" + t + "](" + u + ")" + [];
    LinkSpan(t, u, []);
  }

  // ----- the index's line classification -----------------------------------

  /** `any(str(i) + '.' in line for i in range(3, 25))`. */
  predicate MentionsNumber(line: string)
  {
    exists i | 3 <= i < 25 :: Contains(line, NatToString(i) + ".")
  }

  /** Starts with `1.` or `2.`, or holds `N.` for some N from 3 to 24. */
  predicate NumberedLine(line: string)
  {
    StartsWith(line, "1.") || StartsWith(line, "2.") || MentionsNumber(line)
  }

  const ChapterItemOpen: string := "<li class=\"chapter-title\">"

  /**
   * One stripped, non-blank line of the table of contents: a numbered line
   * is a chapter title (even one that already starts with a tag), another
   * line not starting with `<` a paragraph, the rest as they are.
   */
  function TocLine(line: string): (r: string)
    ensures line != [] ==> r != [] && r[0] == '<'
    ensures Contains(r, line)
  {
    if NumberedLine(line) then
      MiddleContains(ChapterItemOpen, line, "</li>"); ChapterItemOpen + line + "</li>"
    else if !StartsWith(line, "<") then
      MiddleContains("<p>", line, "</p>"); "<p>" + line + "</p>"
    else
      MiddleContains([], line, []); assert [] + line + [] == line; line
  }

  lemma MiddleContains(a: string, b: string, c: string)
    ensures Contains(a + b + c, b)
  {
    assert (a + b + c)[|a|..|a| + |b|] == b;
    ContainsAt(a + b + c, b, |a|);
  }

  /** The lines that are not blank, in order. */
  function NonBlank(lines: seq<string>): (r: seq<string>)
    ensures |r| <= |lines|
    ensures forall x :: x in r <==> x in lines && !IsBlank(x)
  {
    if lines == [] then []
    else
      var init := NonBlank(lines[..|lines| - 1]);
      var last := lines[|lines| - 1];
      assert lines == lines[..|lines| - 1] + [last];
      if IsBlank(last) then init else init + [last]
  }

  /** `processed_lines`: the non-blank lines, each stripped and classified. */
  function TocLines(lines: seq<string>): (r: seq<string>)
    ensures |r| == |NonBlank(lines)|
    ensures forall k | 0 <= k < |r| :: r[k] != [] && r[k][0] == '<'
  {
    var nb := NonBlank(lines);
    seq(|nb|, k requires 0 <= k < |nb| => TocLine(Strip(nb[k])))
  }

  lemma TocLinesStep(lines: seq<string>, k: nat)
    requires k < |lines|
    ensures TocLines(lines[..k + 1]) ==
      TocLines(lines[..k]) + (if IsBlank(lines[k]) then [] else [TocLine(Strip(lines[k]))])
  {
    assert lines[..k + 1][..k] == lines[..k];
    var a := TocLines(lines[..k + 1]);
    var b := TocLines(lines[..k]) + (if IsBlank(lines[k]) then [] else [TocLine(Strip(lines[k]))]);
    assert |a| == |b|;
    forall j | 0 <= j < |a| ensures a[j] == b[j] {
      if j < |TocLines(lines[..k])| {
        assert NonBlank(lines[..k + 1])[j] == NonBlank(lines[..k])[j];
      }
    }
  }

  /** The classification loop of `create_premium_index`. */
  method ProcessTocLines(lines: seq<string>) returns (processed: seq<string>)
    ensures processed == TocLines(lines)
  {
    processed := [];
    var k := 0;
    while k < |lines|
      invariant 0 <= k <= |lines|
      invariant processed == TocLines(lines[..k])
    {
      var line := Strip(lines[k]);
      TocLinesStep(lines, k);
      if line != [] {
        if StartsWith(line, "1.") || StartsWith(line, "2.") || MentionsNumber(line) {
          processed := processed + [ChapterItemOpen + line + "</li>"];
        } else if !StartsWith(line, "<") {
          processed := processed + ["<p>" + line + "</p>"];
        } else {
          processed := processed + [line];
        }
      }
      k := k + 1;
    }
    assert lines[..k] == lines;
  }

  /** The table of contents: the classified lines of the converted README, one per line. */
  function PremiumToc(readme: string): string
  {
    Join(TocLines(Split(IndexMarkup(readme), "\n")), "\n")
  }

  /**
   * A line holding a link to the page of chapter `n`, for `n` from 3 to 24,
   * is listed as a chapter title whatever else it holds, a leading tag
   * included.
   */
  lemma ChapterLinkListed(n: nat, line: string)
    requires 3 <= n < 25 && Contains(line, ChapterStem(n) + ".html")
    ensures TocLine(line) == ChapterItemOpen + line + "</li>"
  {
    var target := ChapterStem(n) + ".html";
    var d := NatToString(n);
    assert target[8..8 + |d| + 1] == d + "." by {
      assert target == "chapter_" + d + ".html";
    }
    ContainsAt(target, d + ".", 8);
    ContainsTransitive(line, target, d + ".");
    assert MentionsNumber(line);
  }

  /** A classified line holds no line break that its stripped input did not. */
  lemma TocLineOneLine(line: string)
    requires '\n' !in line
    ensures '\n' !in TocLine(line)
  {
  }

  /**
   * Blank lines are dropped and nothing else: splitting the table of
   * contents on newlines gives back the classified non-blank lines of the
   * converted README, in order, none of them empty.
   */
  lemma TocSplitsBack(readme: string)
    ensures TocLines(Split(IndexMarkup(readme), "\n")) == [] ==> PremiumToc(readme) == []
    ensures TocLines(Split(IndexMarkup(readme), "\n")) != [] ==>
      Split(PremiumToc(readme), "\n") == TocLines(Split(IndexMarkup(readme), "\n"))
  {
    var lines := Split(IndexMarkup(readme), "\n");
    var out := TocLines(lines);
    SplitLinesFree(IndexMarkup(readme));
    var nb := NonBlank(lines);
    forall k | 0 <= k < |out| ensures '\n' !in out[k] {
      assert nb[k] in nb;
      assert nb[k] in lines;
      StripNoChar(nb[k], '\n');
      TocLineOneLine(Strip(nb[k]));
    }
    LinesRejoinable(out);
    if out != [] {
      SplitJoin(out, "\n");
    }
  }

  /** The index content, built the way `create_premium_index` builds it. */
  method CreatePremiumIndex(readme: string) returns (content: string)
    ensures content == PremiumToc(readme)
  {
    var toc := SubStoryLinks(readme);
    var linked := toc;
    toc := SubHeader(toc, "# ", "<h1 class=\"main-title\">", "</h1>");
    toc := SubHeader(toc, "## ", "<h2>", "</h2>");
    toc := SubHeader(toc, "### ", "<h3 class=\"part-title\">", "</h3>");
    assert toc == SubHeaders(linked, IndexRules) by {
      var r := IndexRules;
      assert r[1..][1..][1..] == [];
    }
    toc := SubPaired(toc, "**", "<strong>", "</strong>");
    toc := SubPaired(toc, "*", SubtitleOpen, "</em>");
    toc := SubLinks(toc);
    var processed := ProcessTocLines(Split(toc, "\n"));
    content := Join(processed, "\n");
  }

  // ----- the site -----------------------------------------------------------

  /** `f"Digital Amber - {chapter_name.replace('_', ' ').title()}"`: the stem alone names the page. */
  function PremiumTitle(stem: string): string
  {
    "Digital Amber - " + StemTitle(stem)
  }

  /** The page of chapter `n` is titled `Chapter N`, whatever headings it holds. */
  lemma PremiumChapterTitle(n: nat)
    ensures PremiumTitle(ChapterStem(n)) == "Digital Amber - Chapter " + NatToString(n)
  {
    ChapterStemTitle(n);
  }

  /** The page of one story file. */
  function PremiumPages(artExists: string -> bool): StoryFile -> PremiumDoc
  {
    (f: StoryFile) => ChapterDoc(PremiumTitle(f.stem), ChapterImage(Some(f.stem), artExists), PremiumBody(f.content))
  }

  /** The site `build_premium_site` writes under `dist/`. */
  function PremiumSite(readme: string, files: seq<StoryFile>, artExists: string -> bool): seq<OutputFile<PremiumDoc>>
  {
    SiteOf(TocDoc(PremiumToc(readme)), files, PremiumPages(artExists))
  }

  /** A story page carries its illustration exactly when the art file of its stem exists. */
  lemma PremiumPageImage(f: StoryFile, artExists: string -> bool)
    requires f.stem != []
    ensures PremiumPages(artExists)(f).image != [] <==> artExists(f.stem + ".png")
    ensures artExists(f.stem + ".png") ==> PremiumPages(artExists)(f).image == ImageTag(f.stem)
  {
  }

  /** `build_premium_site`: the index first, then one page per story file in the order listed. */
  method BuildPremiumSite(readme: string, files: seq<StoryFile>, artExists: string -> bool)
    returns (site: seq<OutputFile<PremiumDoc>>)
    ensures site == PremiumSite(readme, files, artExists)
  {
    var toc := CreatePremiumIndex(readme);
    var index := TocDoc(toc);
    ghost var pageOf := PremiumPages(artExists);
    site := [OutputFile("index.html", index)];
    assert files[..0] == [];
    var k := 0;
    while k < |files|
      invariant 0 <= k <= |files|
      invariant site == SiteOf(index, files[..k], pageOf)
    {
      var chapterName := files[k].stem;
      var title := "Digital Amber - " + StemTitle(chapterName);
      var page := PremiumMarkdownToHtml(files[k].content, title, Some(chapterName), artExists);
      SiteOfStep(index, files, pageOf, k);
      site := site + [OutputFile(chapterName + ".html", page)];
      k := k + 1;
    }
    assert files[..k] == files;
  }
}
