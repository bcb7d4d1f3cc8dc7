/**
 * The GitHub Pages builder (scripts/build_pages.py): the sidebar of links
 * to the foreword, the chapters and the epilogue, the marking of the link
 * to the page being built, the conversion of a markdown file into the body
 * of its page, and the list of pages the site is made of.
 */
module Pages {
  import opened Wrappers
  import opened Seqs
  import opened Text
  import opened Books
  import opened MarkdownRegex
  import opened Markup

  // ----- the first `### ` line ---------------------------------------------------

  predicate H3Line(line: string)
  {
    StartsWith(line, "### ")
  }

  /** The index of the first line starting with `### `, if any. */
  function FirstH3(lines: seq<string>): (r: Option<nat>)
    ensures r.Some? ==> (r.value < |lines| && H3Line(lines[r.value])
                         && forall j | 0 <= j < r.value :: !H3Line(lines[j]))
    ensures r.None? ==> forall j | 0 <= j < |lines| :: !H3Line(lines[j])
  {
    if lines == [] then None
    else if H3Line(lines[0]) then Some(0)
    else match FirstH3(lines[1..])
      case None => None
      case Some(k) => Some(k + 1)
  }

  /** `line[4:].strip()` of the first `### ` line of `content`, if it has one. */
  function H3Title(content: string): Option<string>
  {
    var lines := Split(content, "\n");
    match FirstH3(lines)
    case None => None
    case Some(k) => Some(Strip(lines[k][4..]))
  }

  lemma {:induction false} FirstH3Is(lines: seq<string>, k: nat)
    requires k < |lines| && H3Line(lines[k])
    requires forall j | 0 <= j < k :: !H3Line(lines[j])
    ensures FirstH3(lines) == Some(k)
    decreases k
  {
    if k > 0 {
      FirstH3Is(lines[1..], k - 1);
    }
  }

  lemma {:induction false} NoH3(lines: seq<string>)
    requires forall j | 0 <= j < |lines| :: !H3Line(lines[j])
    ensures FirstH3(lines) == None
    decreases |lines|
  {
    if lines != [] {
      NoH3(lines[1..]);
    }
  }

  /**
   * The search loop of `create_chapter_nav` and of `build_site`: the lines
   * are walked in order and the loop stops at the first `### ` line.
   */
  method FindH3Title(content: string) returns (title: Option<string>)
    ensures title == H3Title(content)
  {
    var lines := Split(content, "\n");
    var k := 0;
    while k < |lines|
      invariant 0 <= k <= |lines|
      invariant forall j | 0 <= j < k :: !H3Line(lines[j])
    {
      if StartsWith(lines[k], "### ") {
        FirstH3Is(lines, k);
        return Some(Strip(lines[k][4..]));
      }
      k := k + 1;
    }
    NoH3(lines);
    return None;
  }

  /** A title taken from a `### ` line is a single trimmed line. */
  lemma H3TitleOneLine(content: string)
    requires H3Title(content).Some?
    ensures Trimmed(H3Title(content).value) && '\n' !in H3Title(content).value
  {
    var lines := Split(content, "\n");
    var k := FirstH3(lines).value;
    SplitPiecesFree(content, "\n");
    ContainsChar(lines[k], '\n');
    assert '\n' !in lines[k][4..] by {
      forall i | 0 <= i < |lines[k]| - 4 ensures lines[k][4..][i] != '\n' {
        assert lines[k][4..][i] == lines[k][i + 4];
      }
    }
    StripNoChar(lines[k][4..], '\n');
  }

  // ----- the sidebar ---------------------------------------------------------------

  /** `href="<stem>.html"`. */
  function Href(stem: string): string
  {
    "href=\"" + stem + ".html\""
  }

  /** One entry of the sidebar: `<li><a href="<stem>.html"><caption></a></li>`. */
  function NavItem(stem: string, caption: string): string
  {
    "<li><a " + (Href(stem) + ItemTail(caption))
  }

  /** The entry with `class="active"` after its `href`. */
  function ActiveItem(stem: string, caption: string): string
  {
    "<li><a " + (Href(stem) + " class=\"active\"" + ItemTail(caption))
  }

  /** What follows the `href` of an entry. */
  function ItemTail(caption: string): string
  {
    ">" + caption + "</a></li>"
  }

  /** What the sidebar is built from: the `story/` files and their contents. */
  datatype Story = Story(foreword: bool, present: nat -> bool, chapter: nat -> string, epilogue: bool)

  /** `Chapter i: <title>` when the chapter has a `### ` line, else `Chapter i`. */
  function ChapterLabel(i: nat, content: string): string
  {
    match H3Title(content)
    case None => "Chapter " + NatToString(i)
    case Some(t) => "Chapter " + NatToString(i) + ": " + t
  }

  function PartLabel(story: Story, p: Part): string
  {
    match p
    case Foreword => "Foreword"
    case Chapter(i) => ChapterLabel(i, story.chapter(i))
    case Epilogue => "Epilogue"
  }

  /** The sidebar entries of the parts given. */
  function NavItems(story: Story, ps: seq<Part>): (r: seq<string>)
    ensures |r| == |ps|
    ensures forall k | 0 <= k < |ps| :: r[k] == NavItem(PartStem(ps[k]), PartLabel(story, ps[k]))
  {
    seq(|ps|, k requires 0 <= k < |ps| => NavItem(PartStem(ps[k]), PartLabel(story, ps[k])))
  }

  function NavParts(story: Story): seq<Part>
  {
    BookParts(story.foreword, story.present, story.epilogue)
  }

  /** What `create_chapter_nav` returns. */
  function Nav(story: Story): string
  {
    Join(NavItems(story, NavParts(story)), "\n")
  }

  lemma NavItemsSnoc(story: Story, ps: seq<Part>, p: Part)
    ensures NavItems(story, ps + [p]) == NavItems(story, ps) + [NavItem(PartStem(p), PartLabel(story, p))]
  {
  }

  /** The caption of chapter `i`, found by the search loop. */
  method ChapterNavLabel(i: nat, content: string) returns (caption: string)
    ensures caption == ChapterLabel(i, content)
  {
    var title := FindH3Title(content);
    caption := "Chapter " + NatToString(i);
    if title.Some? {
      caption := "Chapter " + NatToString(i) + ": " + title.value;
    }
  }

  /**
   * `create_chapter_nav`: the foreword when `foreword.md` exists, every
   * existing chapter from 1 to 24 in ascending order, the epilogue when
   * `epilogue.md` exists, one entry per line.
   */
  method CreateChapterNav(story: Story) returns (nav: string)
    ensures nav == Nav(story)
  {
    var navItems: seq<string> := [];
    ghost var head: seq<Part> := [];
    if story.foreword {
      navItems := [NavItem("foreword", "Foreword")];
      head := [Foreword];
    }
    ghost var walked := head;
    var i := FirstChapter;
    while i <= LastChapter
      invariant FirstChapter <= i <= LastChapter + 1
      invariant walked == head + Chapters(Present(story.present, FirstChapter, i - 1))
      invariant navItems == NavItems(story, walked)
    {
      BookPartsStep(story.present, head, walked, i);
      if story.present(i) {
        var caption := ChapterNavLabel(i, story.chapter(i));
        NavItemsSnoc(story, walked, Chapter(i));
        navItems := navItems + [NavItem(ChapterStem(i), caption)];
        walked := walked + [Chapter(i)];
      }
      i := i + 1;
    }
    BookPartsEnd(story.foreword, story.present, story.epilogue, walked);
    if story.epilogue {
      NavItemsSnoc(story, walked, Epilogue);
      navItems := navItems + [NavItem("epilogue", "Epilogue")];
    } else {
      assert walked + [] == walked;
    }
    nav := Join(navItems, "\n");
  }

  // ----- marking the current page ------------------------------------------------

  /** `nav_html.replace(f'href="{p}.html"', f'href="{p}.html" class="active"')` when `current_page` is truthy. */
  function ActiveNav(nav: string, currentPage: Option<string>): string
  {
    if currentPage.Some? && currentPage.value != [] then
      var p := currentPage.value;
      Replace(nav, Href(p), Href(p) + " class=\"active\"")
    else nav
  }

  /** The entries after marking: the entry whose stem is `page` is active, the others are as they were. */
  function MarkedItems(story: Story, ps: seq<Part>, page: string): (r: seq<string>)
    ensures |r| == |ps|
    ensures forall k | 0 <= k < |ps| ::
      (r[k] == if PartStem(ps[k]) == page then ActiveItem(PartStem(ps[k]), PartLabel(story, ps[k]))
               else NavItem(PartStem(ps[k]), PartLabel(story, ps[k])))
  {
    seq(|ps|, k requires 0 <= k < |ps| =>
      var stem := PartStem(ps[k]);
      var caption := PartLabel(story, ps[k]);
      if stem == page then ActiveItem(stem, caption) else NavItem(stem, caption))
  }

  /** A quote in an entry sits at one of the two ends of its `href` value. */
  lemma ItemQuote(s: string, caption: string, j: nat)
    requires '"' !in s && '"' !in caption && j < |NavItem(s, caption)|
    ensures NavItem(s, caption)[j] == '"' ==> j == 12 || j == |s| + 18
  {
    var item := NavItem(s, caption);
    var a := "<li><a href=\"";
    var b := ".html\">";
    var c := caption + "</a></li>";
    assert item == a + s + b + c;
    if j < 13 {
      assert item[j] == a[j];
    } else if j < 13 + |s| {
      assert item[j] == s[j - 13];
    } else if j < 20 + |s| {
      assert item[j] == b[j - 13 - |s|];
    } else {
      assert item[j] == c[j - 20 - |s|];
    }
  }

  /** The only place an `href` can match inside an entry is its own, and only for its own stem. */
  lemma ItemMatch(s: string, caption: string, page: string, p: nat)
    requires '"' !in s && '"' !in caption && p <= |NavItem(s, caption)|
    ensures StartsWith(NavItem(s, caption)[p..], Href(page)) ==> p == 7 && s == page
  {
    var item := NavItem(s, caption);
    var pat := Href(page);
    if StartsWith(item[p..], pat) {
      assert item[p + 5] == item[p..][..|pat|][5] == pat[5] == '"';
      var e := p + |page| + 11;
      assert item[e] == item[p..][..|pat|][|page| + 11] == pat[|page| + 11] == '"';
      ItemQuote(s, caption, p + 5);
      ItemQuote(s, caption, e);
      assert |page| == |s| && p == 7;
      SameLengthMatch(s, caption, page);
    }
  }

  /** An `href` of the entry's own length found where the entry's is names the entry's stem. */
  lemma SameLengthMatch(s: string, caption: string, page: string)
    requires |page| == |s| && |Href(page)| <= |NavItem(s, caption)| - 7
    ensures NavItem(s, caption)[7..][..|Href(page)|] == Href(page) ==> s == page
  {
    var item := NavItem(s, caption);
    var h := item[7..][..|Href(page)|];
    assert item[7..] == Href(s) + ItemTail(caption);
    assert h == Href(s);
    MiddleOf("href=\"", s, ".html\"");
    MiddleOf("href=\"", page, ".html\"");
  }

  /** Marking changes an entry exactly when its stem is the current page. */
  lemma MarkItem(s: string, caption: string, page: string)
    requires '"' !in s && '"' !in caption
    ensures Replace(NavItem(s, caption), Href(page), Href(page) + " class=\"active\"")
            == if s == page then ActiveItem(s, caption) else NavItem(s, caption)
  {
    if s == page {
      MarkOwnItem(s, caption);
    } else {
      var item := NavItem(s, caption);
      forall p | 0 <= p <= |item| ensures !StartsWith(item[p..], Href(page)) {
        ItemMatch(s, caption, page, p);
      }
      ReplaceAbsent(item, Href(page), Href(page) + " class=\"active\"");
    }
  }

  lemma MarkOwnItem(s: string, caption: string)
    requires '"' !in s && '"' !in caption
    ensures Replace(NavItem(s, caption), Href(s), Href(s) + " class=\"active\"") == ActiveItem(s, caption)
  {
    var pat := Href(s);
    var rep := Href(s) + " class=\"active\"";
    var x := "<li><a ";
    var tail := ItemTail(caption);
    forall p | 0 <= p < |x| ensures !StartsWith((x + (pat + tail))[p..], pat) {
      ItemMatch(s, caption, s, p);
    }
    ReplaceSkip(x, pat + tail, pat, rep);
    ReplaceLead(pat, tail, rep);
    MissingChar(tail, pat, 5);
    ReplaceAbsent(tail, pat, rep);
  }

  /** Decimal digits hold no quote. */
  lemma DigitsQuoteFree(n: nat)
    ensures '"' !in NatToString(n)
  {
    var d := NatToString(n);
    forall i | 0 <= i < |d| ensures d[i] != '"' {
      assert IsDigit(d[i]);
    }
  }

  /** A part's file stem has no quote. */
  lemma StemQuoteFree(p: Part)
    ensures '"' !in PartStem(p)
  {
    if p.Chapter? {
      DigitsQuoteFree(p.n);
    }
  }

  /** No `### ` title of a chapter in the sidebar holds a quote. */
  predicate TitlesQuoteFree(story: Story)
  {
    forall i | FirstChapter <= i <= LastChapter && story.present(i) :: TitleQuoteFree(story.chapter(i))
  }

  predicate TitleQuoteFree(content: string)
  {
    H3Title(content).Some? ==> '"' !in H3Title(content).value
  }

  lemma ChapterCaptionQuoteFree(i: nat, content: string)
    requires TitleQuoteFree(content)
    ensures '"' !in ChapterLabel(i, content)
  {
    DigitsQuoteFree(i);
  }

  lemma CaptionQuoteFree(story: Story, p: Part)
    requires TitlesQuoteFree(story) && p in NavParts(story)
    ensures '"' !in PartLabel(story, p)
  {
    BookPartsMember(story.foreword, story.present, story.epilogue, p);
    if p.Chapter? {
      ChapterCaptionQuoteFree(p.n, story.chapter(p.n));
    }
  }

  /**
   * Marking the sidebar for a page marks exactly the entries whose file
   * stem is that page, and leaves every other entry as it was: a chapter
   * title holding no quote cannot be matched, and `chapter_1` does not mark
   * `chapter_10`, whose `href` value is longer.
   */
  lemma HrefOneLine(page: string)
    requires '\n' !in page
    ensures '\n' !in Href(page)
  {
    NotInParts('\n', "href=\"", page, ".html\"");
  }

  lemma MarkedNav(story: Story, page: string)
    requires page != [] && '\n' !in page && TitlesQuoteFree(story)
    ensures ActiveNav(Nav(story), Some(page)) == Join(MarkedItems(story, NavParts(story), page), "\n")
  {
    HrefOneLine(page);
    ReplaceJoin(NavItems(story, NavParts(story)), '\n', Href(page), Href(page) + " class=\"active\"");
    MarkedEach(story, page);
    NavMarked(story, page);
  }

  lemma NavMarked(story: Story, page: string)
    requires page != []
    ensures ActiveNav(Nav(story), Some(page)) == Replace(Join(NavItems(story, NavParts(story)), "\n"), Href(page), Href(page) + " class=\"active\"")
  {
  }

  /** Marking the entries one by one. */
  lemma MarkedEach(story: Story, page: string)
    requires TitlesQuoteFree(story)
    ensures var ps := NavParts(story);
      ReplaceEach(NavItems(story, ps), Href(page), Href(page) + " class=\"active\"") == MarkedItems(story, ps, page)
  {
    var ps := NavParts(story);
    var items := NavItems(story, ps);
    var marked := MarkedItems(story, ps, page);
    forall k | 0 <= k < |ps| ensures ReplaceEach(items, Href(page), Href(page) + " class=\"active\"")[k] == marked[k] {
      MarkedEntry(story, page, k);
    }
  }

  lemma MarkedEntry(story: Story, page: string, k: nat)
    requires TitlesQuoteFree(story) && k < |NavParts(story)|
    ensures var ps := NavParts(story);
      Replace(NavItems(story, ps)[k], Href(page), Href(page) + " class=\"active\"") == MarkedItems(story, ps, page)[k]
  {
    var p := NavParts(story)[k];
    StemQuoteFree(p);
    CaptionQuoteFree(story, p);
    MarkItem(PartStem(p), PartLabel(story, p), page);
  }

  /** The parts in the sidebar have distinct stems, so at most one entry is ever marked. */
  lemma StemsDistinct(story: Story, a: nat, b: nat)
    requires a < b < |NavParts(story)|
    ensures PartStem(NavParts(story)[a]) != PartStem(NavParts(story)[b])
  {
    var v := NavParts(story);
    BookPartsOrdered(story.foreword, story.present, story.epilogue, a, b);
    if PartStem(v[a]) == PartStem(v[b]) {
      PartStemInjective(v[a], v[b]);
    }
  }

  /** No part is called `index`, so the table of contents marks nothing. */
  lemma IndexNavUnmarked(story: Story)
    requires TitlesQuoteFree(story)
    ensures ActiveNav(Nav(story), Some("index")) == Nav(story)
  {
    var ps := NavParts(story);
    forall k | 0 <= k < |ps| ensures PartStem(ps[k]) != "index" {
      if ps[k].Chapter? {
        assert PartStem(ps[k])[0] == 'c';
      }
    }
    MarkedNav(story, "index");
    assert MarkedItems(story, ps, "index") == NavItems(story, ps);
  }

  // ----- the body of a page ------------------------------------------------------

  /** The block `markdown_to_html` puts in front of the text when a chapter image is given. */
  function ImageDiv(image: string, title: string): string
  {
    "<div class=\"chapter-image\"><img src=\"" + image + "\" alt=\"" + title + "\" /></div>"
  }

  /**
   * The body of `markdown_to_html`: headers, bold, italic and links are
   * substituted, the image block goes in front when `chapter_image` is
   * truthy, then every block is stripped and wrapped.
   */
  function Body(content: string, title: string, chapterImage: Option<string>): string
  {
    var html := Converted(content);
    if chapterImage.Some? && chapterImage.value != [] then
      Paragraphed(ImageDiv(chapterImage.value, title) + "\n\n" + html)
    else Paragraphed(html)
  }

  lemma ImageDivShape(image: string, title: string)
    requires '\n' !in image && '\n' !in title
    ensures var d := ImageDiv(image, title); d != [] && d[0] == '<' && d[|d| - 1] == '>' && '\n' !in d
  {
    var a := "<div class=\"chapter-image\"><img src=\"";
    var b := "\" alt=\"";
    var c := "\" /></div>";
    assert ImageDiv(image, title) == a + image + b + title + c;
    NotInParts('\n', a, image, b);
    NotInParts('\n', a + image + b, title, c);
  }

  /**
   * With an image the first block of the body is the image block, exactly as
   * written, and the rest is the converted text on its own: the image block
   * is never wrapped in `<p>`.
   */
  lemma ImageFirst(content: string, title: string, image: string)
    requires image != [] && '\n' !in image && '\n' !in title
    ensures Body(content, title, Some(image)) == ImageDiv(image, title) + "\n\n" + Body(content, title, None)
    ensures Split(Body(content, title, Some(image)), "\n\n")[0] == ImageDiv(image, title)
  {
    ImageDivShape(image, title);
    ParagraphedLeading(ImageDiv(image, title), Converted(content));
  }

  /** Without an image the body has one block per block of the converted text, each wrapped in order. */
  lemma BodyBlocks(content: string, title: string)
    ensures Split(Body(content, title, None), "\n\n") == WrapBlocks(Split(Converted(content), "\n\n"))
  {
    ParagraphedBlocks(Converted(content));
  }

  /** What `markdown_to_html` fills its template with: the title, the sidebar and the body. */
  datatype SitePage = SitePage(title: string, nav: string, main: string)

  /** `markdown_to_html`. */
  method MarkdownToHtml(content: string, title: string, chapterImage: Option<string>,
                        currentPage: Option<string>, story: Story) returns (page: SitePage)
    ensures page == SitePage(title, ActiveNav(Nav(story), currentPage), Body(content, title, chapterImage))
  {
    var html := Converted(content);
    if chapterImage.Some? && chapterImage.value != [] {
      html := ImageDiv(chapterImage.value, title) + "\n\n" + html;
    }
    html := WrapParagraphs(html);
    var navHtml := CreateChapterNav(story);
    if currentPage.Some? && currentPage.value != [] {
      var p := currentPage.value;
      navHtml := Replace(navHtml, Href(p), Href(p) + " class=\"active\"");
    }
    page := SitePage(title, navHtml, html);
  }

  // ----- the site ----------------------------------------------------------------

  /** `f"Digital Amber - {chapter_title}"`: the first `### ` title, else the stem with `_` as space, title-cased. */
  function PageTitle(stem: string, content: string): string
  {
    "Digital Amber - " + match H3Title(content)
      case Some(t) => t
      case None => StemTitle(stem)
  }

  /** A chapter without a `### ` line is titled `Chapter N`. */
  lemma ChapterPageTitle(n: nat, content: string)
    requires H3Title(content).None?
    ensures PageTitle(ChapterStem(n), content) == "Digital Amber - Chapter " + NatToString(n)
  {
    ChapterStemTitle(n);
  }

  /** The title of a page whose stem is one line is one line. */
  lemma PageTitleOneLine(stem: string, content: string)
    requires '\n' !in stem
    ensures '\n' !in PageTitle(stem, content)
  {
    if H3Title(content).Some? {
      H3TitleOneLine(content);
    } else {
      ReplaceNoChar(stem, "_", " ", '\n');
      TitleNoChar(Replace(stem, "_", " "), '\n');
    }
  }

  const IndexTitle: string := "Digital Amber - Table of Contents"

  /** A markdown file of `story/`. */
  datatype StoryFile = StoryFile(stem: string, content: string)

  /** `art/<stem>.png` when `art/pages/<stem>.png` exists. */
  function ArtImage(stem: string, artExists: string -> bool): Option<string>
  {
    if artExists(stem + ".png") then Some("art/" + stem + ".png") else None
  }

  /** `index.html`: the README with its story links pointing at the pages, nothing marked. */
  function IndexPage(readme: string, story: Story): SitePage
  {
    SitePage(IndexTitle, ActiveNav(Nav(story), Some("index")), Body(SubStoryLinks(readme), IndexTitle, None))
  }

  /** The page of one story file, marked as current in its own sidebar. */
  function StoryPage(f: StoryFile, artExists: string -> bool, story: Story): SitePage
  {
    var title := PageTitle(f.stem, f.content);
    SitePage(title, ActiveNav(Nav(story), Some(f.stem)), Body(f.content, title, ArtImage(f.stem, artExists)))
  }

  /** A file written under `docs/`. */
  datatype OutputFile<P> = OutputFile(name: string, page: P)

  /** The index page first, then one page per story file in the order they are listed. */
  function SiteOf<P>(index: P, files: seq<StoryFile>, pageOf: StoryFile -> P): (r: seq<OutputFile<P>>)
    ensures |r| == |files| + 1 && r[0] == OutputFile("index.html", index)
    ensures forall k | 0 <= k < |files| :: r[k + 1] == OutputFile(files[k].stem + ".html", pageOf(files[k]))
  {
    [OutputFile("index.html", index)]
    + seq(|files|, k requires 0 <= k < |files| => OutputFile(files[k].stem + ".html", pageOf(files[k])))
  }

  /** Every story page of the site, built against the same sidebar and art. */
  function StoryPages(artExists: string -> bool, story: Story): StoryFile -> SitePage
  {
    (f: StoryFile) => StoryPage(f, artExists, story)
  }

  /** The site `build_site` writes. */
  function Site(readme: string, files: seq<StoryFile>, artExists: string -> bool, story: Story): seq<OutputFile<SitePage>>
  {
    SiteOf(IndexPage(readme, story), files, StoryPages(artExists, story))
  }

  lemma SiteOfStep<P>(index: P, files: seq<StoryFile>, pageOf: StoryFile -> P, k: nat)
    requires k < |files|
    ensures SiteOf(index, files[..k + 1], pageOf)
            == SiteOf(index, files[..k], pageOf) + [OutputFile(files[k].stem + ".html", pageOf(files[k]))]
  {
    var a := SiteOf(index, files[..k + 1], pageOf);
    var b := SiteOf(index, files[..k], pageOf) + [OutputFile(files[k].stem + ".html", pageOf(files[k]))];
    assert |a| == |b|;
    forall j | 0 <= j < |a| ensures a[j] == b[j] {
      if j > 0 {
        assert files[..k + 1][j - 1] == files[j - 1];
      }
    }
  }

  /** One round of the story loop of `build_site`. */
  method BuildStoryPage(f: StoryFile, artExists: string -> bool, story: Story) returns (page: SitePage)
    ensures page == StoryPages(artExists, story)(f)
  {
    var heading := FindH3Title(f.content);
    var chapterTitle := StemTitle(f.stem);
    if heading.Some? {
      chapterTitle := heading.value;
    }
    var title := "Digital Amber - " + chapterTitle;
    var chapterImage := if artExists(f.stem + ".png") then Some("art/" + f.stem + ".png") else None;
    page := MarkdownToHtml(f.content, title, chapterImage, Some(f.stem), story);
  }

  /**
   * `build_site`: the README becomes `index.html`, then every markdown file
   * of `story/` becomes `<stem>.html`.
   */
  method BuildSite(readme: string, files: seq<StoryFile>, artExists: string -> bool, story: Story)
    returns (site: seq<OutputFile<SitePage>>)
    ensures site == Site(readme, files, artExists, story)
  {
    var readmeContent := SubStoryLinks(readme);
    var index := MarkdownToHtml(readmeContent, IndexTitle, None, Some("index"), story);
    ghost var pageOf := StoryPages(artExists, story);
    site := [OutputFile("index.html", index)];
    assert files[..0] == [];
    var k := 0;
    while k < |files|
      invariant 0 <= k <= |files|
      invariant site == SiteOf(index, files[..k], pageOf)
    {
      var page := BuildStoryPage(files[k], artExists, story);
      SiteOfStep(index, files, pageOf, k);
      site := site + [OutputFile(files[k].stem + ".html", page)];
      k := k + 1;
    }
    assert files[..k] == files;
  }

  /**
   * A story page with art has the art's image block as its first block, and
   * its sidebar marks the entries of its own stem.
   */
  lemma StoryPageImage(f: StoryFile, artExists: string -> bool, story: Story)
    requires artExists(f.stem + ".png") && '\n' !in f.stem
    ensures Split(StoryPage(f, artExists, story).main, "\n\n")[0] == ImageDiv("art/" + f.stem + ".png", PageTitle(f.stem, f.content))
  {
    PageTitleOneLine(f.stem, f.content);
    var image := "art/" + f.stem + ".png";
    NotInParts('\n', "art/", f.stem, ".png");
    ImageFirst(f.content, PageTitle(f.stem, f.content), image);
  }
}
