/**
 * The simple EPUB builder (scripts/build_epub_simple.py): its own
 * markdown-to-HTML conversion and the fixed list of 27 sources, each named
 * by its position in that list.
 */
module EpubSimple {
  import opened Wrappers
  import opened Text
  import opened MarkdownRegex
  import opened Markup
  import opened Books
  import opened Ebook

  // ----- markdown_to_html ----------------------------------------------------

  /** A paragraph wrapped in `<p>` unless it starts with `<h` or `</`. */
  function WrapSimple(q: string): (r: string)
    requires q != []
    ensures r != [] && r[0] == '<'
    ensures StartsWith(q, "<h") || StartsWith(q, "</") ==> r == q
    ensures !(StartsWith(q, "<h") || StartsWith(q, "</")) ==> r == "<p>" + q + "</p>"
  {
    if StartsWith(q, "<h") || StartsWith(q, "</") then q else "<p>" + q + "</p>"
  }

  /** `para.strip().replace('\n', ' ')`: dropped when empty, otherwise wrapped by `WrapSimple`. */
  function SimpleBlock(p: string): (r: Option<string>)
    ensures r.None? <==> IsBlank(p)
    ensures r.Some? ==> r.value != [] && r.value[0] == '<'
  {
    var q := Replace(Strip(p), "\n", " ");
    ReplaceCharEmpty(Strip(p), '\n', " ");
    if q == [] then None else Some(WrapSimple(q))
  }

  /** The kept paragraphs, in order. */
  function SimpleBlocks(ps: seq<string>): (r: seq<string>)
    ensures |r| <= |ps|
  {
    if ps == [] then []
    else SimpleBlocks(ps[..|ps| - 1]) + Kept(SimpleBlock(ps[|ps| - 1]))
  }

  /** An optional block as a sequence of at most one. */
  function Kept(b: Option<string>): (r: seq<string>)
    ensures |r| <= 1
  {
    if b.Some? then [b.value] else []
  }

  /** The kept paragraphs of converted text. */
  function Blocks(html: string): seq<string>
  {
    SimpleBlocks(Split(html, "\n\n"))
  }

  /** The paragraphs of the converted content. */
  function BlocksOf(content: string): seq<string>
  {
    Blocks(Converted(content))
  }

  /** `markdown_to_html(content)`. */
  function SimpleHtml(content: string): string
  {
    if IsBlank(content) then NotAvailable
    else
      var result := Join(BlocksOf(content), "\n");
      if IsBlank(result) then NotAvailable else result
  }

  lemma SimpleBlocksStep(ps: seq<string>, k: nat)
    requires k < |ps|
    ensures SimpleBlocks(ps[..k + 1]) == SimpleBlocks(ps[..k]) + Kept(SimpleBlock(ps[k]))
  {
    assert ps[..k + 1][..k] == ps[..k];
  }

  /** The body of the paragraph loop, on one block. */
  method ProcessParagraph(para: string) returns (kept: seq<string>)
    ensures kept == Kept(SimpleBlock(para))
  {
    var q := Replace(Strip(para), "\n", " ");
    if q != [] {
      if !(StartsWith(q, "<h") || StartsWith(q, "</")) {
        q := "<p>" + q + "</p>";
      }
      kept := [q];
    } else {
      kept := [];
    }
  }

  /** The loop of `markdown_to_html` over the `"\n\n"` blocks. */
  method ProcessParagraphs(paragraphs: seq<string>) returns (processed: seq<string>)
    ensures processed == SimpleBlocks(paragraphs)
  {
    processed := [];
    var k := 0;
    while k < |paragraphs|
      invariant 0 <= k <= |paragraphs|
      invariant processed == SimpleBlocks(paragraphs[..k])
    {
      var kept := ProcessParagraph(paragraphs[k]);
      SimpleBlocksStep(paragraphs, k);
      processed := processed + kept;
      k := k + 1;
    }
    assert paragraphs[..k] == paragraphs;
  }

  /** `markdown_to_html`: the substitutions, the paragraph loop, then the fallback. */
  method MarkdownToHtml(content: string) returns (result: string)
    ensures result == SimpleHtml(content)
  {
    if IsBlank(content) {
      return NotAvailable;
    }
    var processed := ProcessParagraphs(Split(Converted(content), "\n\n"));
    result := Join(processed, "\n");
    if IsBlank(result) {
      result := NotAvailable;
    }
  }

  // ----- what the conversion guarantees ---------------------------------------

  /** A kept paragraph is a single line that starts with a tag. */
  predicate OneLine(b: string)
  {
    b != [] && b[0] == '<' && '\n' !in b
  }

  lemma SimpleBlockOneLine(p: string)
    requires SimpleBlock(p).Some?
    ensures OneLine(SimpleBlock(p).value)
  {
    var q := Replace(Strip(p), "\n", " ");
    ReplaceCharGone(Strip(p), '\n', " ");
    assert SimpleBlock(p).value == WrapSimple(q);
    WrapSimpleOneLine(q);
  }

  lemma WrapSimpleOneLine(q: string)
    requires q != [] && '\n' !in q
    ensures '\n' !in WrapSimple(q)
  {
    if !(StartsWith(q, "<h") || StartsWith(q, "</")) {
      var w := "<p>" + q + "</p>";
      forall i | 0 <= i < |w| ensures w[i] != '\n' {
        if 3 <= i < 3 + |q| { assert w[i] == q[i - 3]; }
      }
    }
  }

  lemma {:induction false} SimpleBlocksOneLine(ps: seq<string>)
    ensures forall k | 0 <= k < |SimpleBlocks(ps)| :: OneLine(SimpleBlocks(ps)[k])
    decreases |ps|
  {
    if ps != [] {
      var last := ps[|ps| - 1];
      var a := SimpleBlocks(ps[..|ps| - 1]);
      var b := Kept(SimpleBlock(last));
      var r := SimpleBlocks(ps);
      assert r == a + b;
      SimpleBlocksOneLine(ps[..|ps| - 1]);
      forall k | 0 <= k < |r| ensures OneLine(r[k]) {
        if k < |a| {
          assert r[k] == a[k];
        } else {
          assert r[k] == SimpleBlock(last).value;
          SimpleBlockOneLine(last);
        }
      }
    }
  }

  /** Blocks that are single lines starting with a tag join into a text that is not blank and splits back into them. */
  lemma JoinedLines(bs: seq<string>)
    requires bs != [] && forall k | 0 <= k < |bs| :: OneLine(bs[k])
    ensures !IsBlank(Join(bs, "\n")) && Split(Join(bs, "\n"), "\n") == bs
  {
    JoinedNotBlank(bs);
    JoinedSplitsBack(bs);
  }

  lemma JoinedNotBlank(bs: seq<string>)
    requires bs != [] && forall k | 0 <= k < |bs| :: OneLine(bs[k])
    ensures !IsBlank(Join(bs, "\n"))
  {
    assert OneLine(bs[0]);
    forall k | 0 <= k < |bs| ensures bs[k] != [] { assert OneLine(bs[k]); }
    JoinFirstLast(bs, "\n");
    var j := Join(bs, "\n");
    assert j[0] == '<';
    assert !IsSpace(j[0]);
  }

  lemma JoinedSplitsBack(bs: seq<string>)
    requires bs != [] && forall k | 0 <= k < |bs| :: OneLine(bs[k])
    ensures Split(Join(bs, "\n"), "\n") == bs
  {
    forall k | 0 <= k < |bs| ensures '\n' !in bs[k] { assert OneLine(bs[k]); }
    LinesRejoinable(bs);
    SplitJoin(bs, "\n");
  }

  /**
   * The result is never blank. Blank input, or input none of whose
   * paragraphs survives, gives the fallback; otherwise the result is the
   * kept paragraphs, one per line, and splitting it on newlines gives them
   * back.
   */
  lemma SimpleHtmlShape(content: string)
    ensures !IsBlank(SimpleHtml(content))
    ensures IsBlank(content) || BlocksOf(content) == [] ==> SimpleHtml(content) == NotAvailable
    ensures !IsBlank(content) && BlocksOf(content) != [] ==>
      SimpleHtml(content) == Join(BlocksOf(content), "\n") && Split(SimpleHtml(content), "\n") == BlocksOf(content)
  {
    assert !IsSpace(NotAvailable[0]);
    if !IsBlank(content) && BlocksOf(content) != [] {
      SimpleBlocksOneLine(Split(Converted(content), "\n\n"));
      JoinedLines(BlocksOf(content));
    }
  }

  /**
   * A one-line heading `# t`, `## t` or `### t` comes out as the heading
   * element of its level and nothing else, whatever `t` holds besides
   * newlines, asterisks and brackets.
   */
  lemma HeadingLine(level: nat, t: string)
    requires level < 3 && t != [] && '\n' !in t && '*' !in t && '[' !in t
    ensures SimpleHtml(LevelRules[level].prefix + t) == LevelRules[level].open + t + LevelRules[level].close
  {
    var rule := LevelRules[level];
    ConvertedHeading(level, t);
    RuleChars(level);
    TaggedLine(rule.prefix, rule.open, rule.close, t);
  }

  /** A line whose conversion is one tagged heading line comes out as that line. */
  lemma TaggedLine(prefix: string, open: string, close: string, t: string)
    requires prefix != [] && prefix[0] == '#' && '\n' !in t
    requires '\n' !in open && '\n' !in close && StartsWith(open, "<h") && close != [] && close[|close| - 1] == '>'
    requires Converted(prefix + t) == open + t + close
    ensures SimpleHtml(prefix + t) == open + t + close
  {
    var line := prefix + t;
    var tagged := open + t + close;
    NotInParts('\n', open, t, close);
    TaggedShape(open, t, close);
    TaggedBlock(tagged);
    assert !IsBlank(line) by { assert line[0] == prefix[0]; }
    SingleBlockHtml(line, tagged);
  }

  /** Content whose only block is a kept line converts to that line. */
  lemma SingleBlockHtml(content: string, b: string)
    requires !IsBlank(content) && BlocksOf(content) == [b] && OneLine(b)
    ensures SimpleHtml(content) == b
  {
    JoinedNotBlank([b]);
  }

  /** A single line with no line break inside its stripped text comes out as one wrapped block. */
  lemma LineBlock(line: string)
    requires '\n' !in line && !IsBlank(line)
    ensures Blocks(line) == [WrapSimple(Strip(line))]
  {
    var s := Strip(line);
    SingleLine(line);
    assert '\n' !in s by {
      if '\n' in s { StripKeeps(line, '\n'); }
    }
    ContainsChar(s, '\n');
    ReplaceAbsent(s, "\n", " ");
    assert SimpleBlock(line) == Some(WrapSimple(s));
    assert [line][..0] == [];
  }

  /** A converted one-line heading is a block of its own, kept as it is. */
  lemma TaggedBlock(tagged: string)
    requires '\n' !in tagged && StartsWith(tagged, "<h") && tagged[|tagged| - 1] == '>'
    ensures Blocks(tagged) == [tagged] && OneLine(tagged)
  {
    assert tagged[0] == '<';
    StripTrimmed(tagged);
    LineBlock(tagged);
  }

  /** A one-line paragraph of plain text is wrapped in `<p>`, stripped. */
  lemma PlainLine(line: string)
    requires !IsBlank(line) && '\n' !in line && '*' !in line && '[' !in line && line[0] != '#'
    requires Strip(line)[0] != '<'
    ensures SimpleHtml(line) == "<p>" + Strip(line) + "</p>"
  {
    var s := Strip(line);
    ConvertedPlain(line);
    LineBlock(line);
    assert '\n' !in s by {
      if '\n' in s { StripKeeps(line, '\n'); }
    }
    WrapSimpleOneLine(s);
    SingleBlockHtml(line, WrapSimple(s));
    NotPrefixed(s, "<h", 0);
    NotPrefixed(s, "</", 0);
  }

  // ----- build_epub_book ----------------------------------------------------------

  /** The number of entries in the fixed source list. */
  const SourceCount: nat := 27

  /** The stem of the markdown file at position `i` of the list. */
  function SourceStem(i: nat): string
    requires i < SourceCount
  {
    if i == 0 then "foreword"
    else if i <= LastChapter then ChapterStem(i)
    else if i == 25 then "epilogue"
    else "acknowledgements"
  }

  /** The title given to the page at each position. */
  const SourceTitles: seq<string> := ["Foreword"] + ChapterTitles + ["Epilogue: The Call", "Acknowledgments"]

  /** The page made for the source at position `i`, whose converted text is `html(i)`. */
  function PageAt(i: nat, html: nat -> string): EpubPage
    requires i < SourceCount
  {
    EpubPage(SourceTitles[i], ChapterFileName(i), html(i))
  }

  /** The converted text of every source, given the markdown of each. */
  function HtmlOf(source: nat -> string): nat -> string
  {
    (i: nat) => SimpleHtml(source(i))
  }

  /** The pages for the given positions. */
  function PagesAt(positions: seq<nat>, html: nat -> string): (r: seq<EpubPage>)
    requires forall k | 0 <= k < |positions| :: positions[k] < SourceCount
    ensures |r| == |positions|
  {
    if positions == [] then []
    else PagesAt(positions[..|positions| - 1], html) + [PageAt(positions[|positions| - 1], html)]
  }

  lemma {:induction false} PagesAtIndex(positions: seq<nat>, html: nat -> string, k: nat)
    requires forall k | 0 <= k < |positions| :: positions[k] < SourceCount
    requires k < |positions|
    ensures PagesAt(positions, html)[k] == PageAt(positions[k], html)
    decreases |positions|
  {
    if k < |positions| - 1 {
      PagesAtIndex(positions[..|positions| - 1], html, k);
    }
  }

  /** The positions of the existing sources. */
  function PresentSources(have: nat -> bool): (r: seq<nat>)
    ensures forall k | 0 <= k < |r| :: r[k] < SourceCount
    ensures forall i: nat :: i in r <==> i < SourceCount && have(i)
    ensures forall a, b | 0 <= a < b < |r| :: r[a] < r[b]
  {
    var r := Present(have, 0, SourceCount - 1);
    assert forall k | 0 <= k < |r| :: r[k] < SourceCount by {
      forall k | 0 <= k < |r| ensures r[k] < SourceCount { assert r[k] in r; }
    }
    r
  }

  /** The pages the book gets: one per existing source, in list order. */
  function SimplePages(have: nat -> bool, html: nat -> string): seq<EpubPage>
  {
    PagesAt(PresentSources(have), html)
  }

  lemma PresentFromZeroStep(have: nat -> bool, i: nat)
    ensures Present(have, 0, i) == (if i == 0 then [] else Present(have, 0, i - 1)) + (if have(i) then [i] else [])
  {
    if i > 0 {
      PresentSplit(have, 0, i - 1, i);
    }
    assert Present(have, i + 1, i) == [];
  }

  lemma PagesAtAppend(positions: seq<nat>, i: nat, html: nat -> string)
    requires forall k | 0 <= k < |positions| :: positions[k] < SourceCount
    requires i < SourceCount
    ensures PagesAt(positions + [i], html) == PagesAt(positions, html) + [PageAt(i, html)]
  {
    assert (positions + [i])[..|positions|] == positions;
  }

  /** One pass of the loop of `build_epub_book`: the page for the source at position `i`. */
  method MakePage(i: nat, source: nat -> string) returns (page: EpubPage)
    requires i < SourceCount
    ensures page == PageAt(i, HtmlOf(source))
  {
    var htmlContent := MarkdownToHtml(source(i));
    page := EpubPage(SourceTitles[i], ChapterFileName(i), htmlContent);
  }

  /** The positions before `i` whose source exists. */
  ghost function Walked(have: nat -> bool, i: nat): (r: seq<nat>)
    ensures forall k | 0 <= k < |r| :: r[k] < i
  {
    if i == 0 then []
    else
      var r := Present(have, 0, i - 1);
      assert forall k | 0 <= k < |r| :: r[k] < i by {
        forall k | 0 <= k < |r| ensures r[k] < i { assert r[k] in r; }
      }
      r
  }

  /** Passing position `i` adds its page exactly when its source exists. */
  lemma CollectStep(have: nat -> bool, html: nat -> string, i: nat)
    requires i < SourceCount
    ensures PagesAt(Walked(have, i + 1), html) == PagesAt(Walked(have, i), html) + PageIfPresent(have, html, i)
  {
    WalkedStep(have, i);
    if have(i) {
      PagesAtAppend(Walked(have, i), i, html);
    } else {
      assert Walked(have, i + 1) == Walked(have, i);
    }
  }

  lemma WalkedStep(have: nat -> bool, i: nat)
    ensures Walked(have, i + 1) == Walked(have, i) + (if have(i) then [i] else [])
  {
    PresentFromZeroStep(have, i);
  }

  /** The page for position `i` when its source exists, and nothing otherwise. */
  function PageIfPresent(have: nat -> bool, html: nat -> string, i: nat): (r: seq<EpubPage>)
    requires i < SourceCount
    ensures |r| == if have(i) then 1 else 0
  {
    if have(i) then [PageAt(i, html)] else []
  }

  /** The loop of `build_epub_book` over the fixed list. */
  method CollectPages(have: nat -> bool, source: nat -> string) returns (chapters: seq<EpubPage>)
    ensures chapters == SimplePages(have, HtmlOf(source))
  {
    ghost var html := HtmlOf(source);
    chapters := [];
    var i := 0;
    while i < SourceCount
      invariant 0 <= i <= SourceCount
      invariant chapters == PagesAt(Walked(have, i), html)
    {
      CollectStep(have, html, i);
      chapters := CollectOne(have, source, i, chapters);
      i := i + 1;
    }
    WalkedAll(have);
  }

  /** One pass of the loop: the page for position `i` is added when its source exists. */
  method CollectOne(have: nat -> bool, source: nat -> string, i: nat, chapters: seq<EpubPage>)
    returns (chapters': seq<EpubPage>)
    requires i < SourceCount
    ensures chapters' == chapters + PageIfPresent(have, HtmlOf(source), i)
  {
    chapters' := chapters;
    if have(i) {
      var page := MakePage(i, source);
      chapters' := chapters + [page];
    }
  }

  lemma WalkedAll(have: nat -> bool)
    ensures Walked(have, SourceCount) == PresentSources(have)
  {
  }

  /**
   * `build_epub_book`: every existing source becomes a page named after its
   * position; the table of contents is the pages and the spine is the
   * navigation document followed by them.
   */
  method BuildEpubBook(have: nat -> bool, source: nat -> string)
    returns (chapters: seq<EpubPage>, toc: seq<EpubPage>, spine: seq<SpineEntry>)
    ensures chapters == SimplePages(have, HtmlOf(source))
    ensures toc == chapters && spine == SpineOf(chapters)
  {
    chapters := CollectPages(have, source);
    toc := chapters;
    spine := SpineOf(chapters);
  }

  /**
   * A page named `chapter_{i:02d}.xhtml` is in the book exactly when the
   * source at position `i` exists, and then it carries that source's title
   * and converted text; the names follow list positions, so a missing source
   * leaves its number unused.
   */
  lemma PageNamedByPosition(have: nat -> bool, html: nat -> string, i: nat)
    requires i < 100
    ensures (exists k | 0 <= k < |SimplePages(have, html)| :: SimplePages(have, html)[k].fileName == ChapterFileName(i))
      <==> i < SourceCount && have(i)
    ensures forall k | 0 <= k < |SimplePages(have, html)| && SimplePages(have, html)[k].fileName == ChapterFileName(i) ::
      i < SourceCount && SimplePages(have, html)[k] == PageAt(i, html)
  {
    var ps := PresentSources(have);
    var pages := SimplePages(have, html);
    forall k | 0 <= k < |pages| && pages[k].fileName == ChapterFileName(i)
      ensures i < SourceCount && have(i) && pages[k] == PageAt(i, html)
    {
      PagesAtIndex(ps, html, k);
      ChapterFileNameInjective(ps[k], i);
      assert ps[k] in ps;
    }
    if i < SourceCount && have(i) {
      assert i in ps;
      var k :| 0 <= k < |ps| && ps[k] == i;
      PagesAtIndex(ps, html, k);
      assert pages[k].fileName == ChapterFileName(i);
    }
  }

  /** Pages follow the list order, so their numbers strictly increase. */
  lemma PagesInListOrder(have: nat -> bool, html: nat -> string, a: nat, b: nat)
    requires a < b < |SimplePages(have, html)|
    ensures var pages := SimplePages(have, html);
      |pages[a].fileName| == 16 && |pages[b].fileName| == 16
      && AllDigits(pages[a].fileName[8..10]) && AllDigits(pages[b].fileName[8..10])
      && ParseNat(pages[a].fileName[8..10]) < ParseNat(pages[b].fileName[8..10])
  {
    var ps := PresentSources(have);
    PagesAtIndex(ps, html, a);
    PagesAtIndex(ps, html, b);
    ChapterFileNumber(ps[a]);
    ChapterFileNumber(ps[b]);
  }
}
