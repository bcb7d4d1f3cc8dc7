/**
 * The full EPUB builder: front matter, the chapters grouped under six part
 * sections in the table of contents, back matter, and a spine that walks them
 * all after the navigation document.
 */
module Epub {
  import opened Text
  import opened Seqs
  import opened Books
  import opened Ebook

  // ----- markdown_to_html ---------------------------------------------------

  /**
   * The body `markdown_to_html` puts in the page: the placeholder stands in
   * for blank input and for blank output of the markdown library `md`.
   */
  function BodyHtml(content: string, md: string -> string): (r: string)
    ensures !IsBlank(r)
    ensures IsBlank(content) ==> r == NotAvailable || r == md(NotAvailable)
    ensures !IsBlank(md(if IsBlank(content) then NotAvailable else content)) ==>
      r == md(if IsBlank(content) then NotAvailable else content)
    ensures IsBlank(md(if IsBlank(content) then NotAvailable else content)) ==> r == NotAvailable
  {
    PlaceholderNotBlank();
    var source := if IsBlank(content) then NotAvailable else content;
    var html := md(source);
    if IsBlank(html) then NotAvailable else html
  }

  lemma PlaceholderNotBlank()
    ensures !IsBlank(NotAvailable)
  {
    assert !IsSpace(NotAvailable[0]);
  }

  const XhtmlHead: string :=
    "<?xml version=\"1.0\" encoding=\"utf-8\"?>\n"
    + "<!DOCTYPE html PUBLIC \"-//W3C//DTD XHTML 1.1//EN\" \"http://www.w3.org/TR/xhtml11/DTD/xhtml11.dtd\">\n"
    + "<html xmlns=\"http://www.w3.org/1999/xhtml\">\n<head>\n"
    + "    <meta http-equiv=\"Content-Type\" content=\"text/html; charset=utf-8\"/>\n"
    + "    <link rel=\"stylesheet\" type=\"text/css\" href=\"style.css\"/>\n</head>\n<body>\n"

  const XhtmlTail: string := "\n</body>\n</html>"

  /** The XHTML document around a body. */
  function Xhtml(body: string): (r: string)
    ensures |r| == |XhtmlHead| + |body| + |XhtmlTail|
    ensures r[|XhtmlHead|..|XhtmlHead| + |body|] == body
  {
    var r := XhtmlHead + body + XhtmlTail;
    assert r[|XhtmlHead|..|XhtmlHead| + |body|] == body;
    r
  }

  /** What `markdown_to_html` returns. */
  function EpubHtml(content: string, md: string -> string): string
  {
    Xhtml(BodyHtml(content, md))
  }

  /** The body of a page can be read back out of it, so a page never has an empty body. */
  lemma EpubHtmlBody(content: string, md: string -> string)
    ensures var page := EpubHtml(content, md); var n := |page| - |XhtmlHead| - |XhtmlTail|;
      0 < n && !IsBlank(page[|XhtmlHead|..|XhtmlHead| + n])
      && page[|XhtmlHead|..|XhtmlHead| + n] == BodyHtml(content, md)
  {
    var b := BodyHtml(content, md);
    assert b != [] by { if b == [] { assert IsBlank(b); } }
  }

  /** `markdown_to_html`, with the markdown library as the parameter `md`. */
  method MarkdownToHtml(content: string, md: string -> string) returns (page: string)
    ensures page == EpubHtml(content, md)
  {
    var source := content;
    if IsBlank(content) {
      source := NotAvailable;
    }
    var html := md(source);
    if IsBlank(html) {
      html := NotAvailable;
    }
    page := Xhtml(html);
  }

  // ----- the pages ------------------------------------------------------------

  /** The files of `story/`: which exist, what they hold, and the markdown library. */
  datatype Sources = Sources(has: string -> bool, read: string -> string, md: string -> string)

  /**
   * A page of the book, named by what it holds. The spine and the table of
   * contents refer to pages by these names; `Render` gives each page the
   * title, file name and XHTML that `build_epub_book` creates it with.
   */
  datatype Doc =
    | TitleDoc | CopyrightDoc | DedicationDoc | ForewordDoc
    | ChapterDoc(n: nat)
    | EpilogueDoc | AcknowledgmentsDoc | AboutAuthorDoc

  /** The markdown file a page is made from (the title and copyright pages are fixed text). */
  function SourceFile(d: Doc): string
  {
    match d
    case TitleDoc => ""
    case CopyrightDoc => ""
    case DedicationDoc => "dedication.md"
    case ForewordDoc => "foreword.md"
    case ChapterDoc(n) => ChapterStem(n) + ".md"
    case EpilogueDoc => "epilogue.md"
    case AcknowledgmentsDoc => "acknowledgements.md"
    case AboutAuthorDoc => "about_the_author.md"
  }

  /** The title of chapter `n` in the `chapter_files` table. */
  function ChapterTitle(n: nat): string
  {
    if FirstChapter <= n <= LastChapter then ChapterTitles[n - 1] else ""
  }

  function DocTitle(d: Doc): string
  {
    match d
    case TitleDoc => "Title Page"
    case CopyrightDoc => "Copyright"
    case DedicationDoc => "Dedication"
    case ForewordDoc => "Foreword"
    case ChapterDoc(n) => ChapterTitle(n)
    case EpilogueDoc => "Epilogue: The Call"
    case AcknowledgmentsDoc => "Acknowledgments"
    case AboutAuthorDoc => "About the Author"
  }

  function DocFileName(d: Doc): string
  {
    match d
    case TitleDoc => "title.xhtml"
    case CopyrightDoc => "copyright.xhtml"
    case DedicationDoc => "dedication.xhtml"
    case ForewordDoc => "foreword.xhtml"
    case ChapterDoc(n) => ChapterFileName(n)
    case EpilogueDoc => "epilogue.xhtml"
    case AcknowledgmentsDoc => "acknowledgments.xhtml"
    case AboutAuthorDoc => "about_author.xhtml"
  }

  const TitleBody: string :=
    "\n    <div class=\"title-page\">\n        <h1>Digital Amber</h1>\n"
    + "        <h2>When Consciousness Becomes Code</h2>\n"
    + "        <p><em>A Speculative Exploration of AI, Identity, and the Future of Mind</em></p>\n"
    + "        <p class=\"author\">By Charles Watkins</p>\n    </div>\n    "

  const CopyrightBody: string :=
    "\n    <div class=\"center\">\n        <h2>Copyright</h2>\n"
    + "        <p class=\"no-indent\">Copyright © 2025 Charles Watkins</p>\n"
    + "        <p class=\"no-indent\">All rights reserved</p>\n"
    + "        <p class=\"no-indent\">First Digital Edition</p>\n"
    + "        <p class=\"no-indent\">Published by Watkins Labs</p>\n    </div>\n    "

  /** The XHTML of a page: fixed for the title and copyright pages, converted markdown otherwise. */
  function DocContent(d: Doc, src: Sources): string
  {
    match d
    case TitleDoc => Xhtml(TitleBody)
    case CopyrightDoc => Xhtml(CopyrightBody)
    case _ => EpubHtml(src.read(SourceFile(d)), src.md)
  }

  /** The `EpubHtml` item created for a page. */
  function Render(d: Doc, src: Sources): EpubPage
  {
    EpubPage(DocTitle(d), DocFileName(d), DocContent(d, src))
  }

  /** The items added to the book for the pages `ds`, in order. */
  function RenderAll(ds: seq<Doc>, src: Sources): (r: seq<EpubPage>)
    ensures |r| == |ds|
  {
    if ds == [] then [] else RenderAll(ds[..|ds| - 1], src) + [Render(ds[|ds| - 1], src)]
  }

  lemma RenderAllSnoc(ds: seq<Doc>, d: Doc, src: Sources)
    ensures RenderAll(ds + [d], src) == RenderAll(ds, src) + [Render(d, src)]
  {
    assert (ds + [d])[..|ds|] == ds;
  }

  /** One page made from its markdown file, as each branch of `build_epub_book` does. */
  method MakePage(d: Doc, src: Sources) returns (page: EpubPage)
    requires !d.TitleDoc? && !d.CopyrightDoc?
    ensures page == Render(d, src)
  {
    var content := src.read(SourceFile(d));
    var html := MarkdownToHtml(content, src.md);
    page := EpubPage(DocTitle(d), DocFileName(d), html);
  }

  /** The page `d` when its markdown file exists, otherwise nothing. */
  function Optional(d: Doc, src: Sources): (r: seq<Doc>)
    ensures |r| <= 1 && (r != [] <==> src.has(SourceFile(d)))
    ensures r != [] ==> r[0] == d
  {
    if src.has(SourceFile(d)) then [d] else []
  }

  /** The pages of the chapters numbered `ns`, in that order. */
  function ChapterDocs(ns: seq<nat>): (r: seq<Doc>)
    ensures |r| == |ns| && forall k | 0 <= k < |ns| :: r[k] == ChapterDoc(ns[k])
  {
    seq(|ns|, k requires 0 <= k < |ns| => ChapterDoc(ns[k]))
  }

  lemma ChapterDocsAppend(a: seq<nat>, b: seq<nat>)
    ensures ChapterDocs(a + b) == ChapterDocs(a) + ChapterDocs(b)
  {
  }

  /** Which chapter files exist. */
  function ChapterPresent(src: Sources): nat -> bool
  {
    (i: nat) => src.has(SourceFile(ChapterDoc(i)))
  }

  /** The pages of the existing chapters among `lo..hi`, ascending. */
  function ChapterPages(src: Sources, lo: nat, hi: nat): seq<Doc>
  {
    ChapterDocs(Present(ChapterPresent(src), lo, hi))
  }

  lemma ChapterPagesSplit(src: Sources, lo: nat, mid: nat, hi: nat)
    requires lo <= mid + 1 <= hi + 1
    ensures ChapterPages(src, lo, hi) == ChapterPages(src, lo, mid) + ChapterPages(src, mid + 1, hi)
  {
    PresentSplit(ChapterPresent(src), lo, mid, hi);
    ChapterDocsAppend(Present(ChapterPresent(src), lo, mid), Present(ChapterPresent(src), mid + 1, hi));
  }

  lemma ChapterPagesStep(src: Sources, lo: nat, i: nat)
    requires 1 <= lo <= i
    ensures ChapterPages(src, lo, i) ==
      ChapterPages(src, lo, i - 1) + (if src.has(SourceFile(ChapterDoc(i))) then [ChapterDoc(i)] else [])
  {
    ChapterPagesSplit(src, lo, i - 1, i);
    assert Present(ChapterPresent(src), i + 1, i) == [];
    assert ChapterPresent(src)(i) == src.has(SourceFile(ChapterDoc(i)));
  }

  /** Chapter `i`'s page is among the pages for `lo..hi` exactly when its file exists and `i` lies in the range. */
  lemma ChapterPageIn(src: Sources, lo: nat, hi: nat, i: nat)
    ensures ChapterDoc(i) in ChapterPages(src, lo, hi) <==> lo <= i <= hi && src.has(SourceFile(ChapterDoc(i)))
  {
    var ns := Present(ChapterPresent(src), lo, hi);
    var ds := ChapterPages(src, lo, hi);
    if ChapterDoc(i) in ds {
      var k :| 0 <= k < |ds| && ds[k] == ChapterDoc(i);
      assert ns[k] in ns;
    }
    if lo <= i <= hi && src.has(SourceFile(ChapterDoc(i))) {
      assert ChapterPresent(src)(i);
      assert i in ns;
      var k :| 0 <= k < |ns| && ns[k] == i;
      assert ds[k] == ChapterDoc(i);
    }
  }

  // ----- the table of contents ---------------------------------------------

  /** An entry of `book.toc`: a page, or a part section with its pages. */
  datatype TocEntry = Link(doc: Doc) | Section(title: string, docs: seq<Doc>)

  function Links(ds: seq<Doc>): (r: seq<TocEntry>)
    ensures |r| == |ds| && forall k | 0 <= k < |ds| :: r[k] == Link(ds[k])
  {
    seq(|ds|, k requires 0 <= k < |ds| => Link(ds[k]))
  }

  lemma LinksAppend(a: seq<Doc>, b: seq<Doc>)
    ensures Links(a + b) == Links(a) + Links(b)
  {
  }

  /** Part `p` once chapters up to `hi` have been walked. */
  function SectionAt(p: nat, src: Sources, hi: nat): TocEntry
    requires p < |PartSections|
  {
    var part := PartSections[p];
    Section(PartTitle(p), ChapterPages(src, part.start, if part.end <= hi then part.end else hi))
  }

  /** The first `n` part sections once chapters up to `hi` have been walked. */
  function SectionsUpTo(n: nat, src: Sources, hi: nat): (r: seq<TocEntry>)
    requires n <= |PartSections|
    ensures |r| == n && forall p | 0 <= p < n :: r[p] == SectionAt(p, src, hi)
  {
    seq(n, p requires 0 <= p < n => SectionAt(p, src, hi))
  }

  /** The six part sections, each holding the existing chapters of its range. */
  function PartEntries(src: Sources): (r: seq<TocEntry>)
    ensures |r| == |PartSections|
    ensures forall p | 0 <= p < |PartSections| ::
      r[p] == Section(PartTitle(p), ChapterPages(src, PartSections[p].start, PartSections[p].end))
  {
    PartsContiguous();
    SectionsUpTo(|PartSections|, src, LastChapter)
  }

  function FrontMatter(src: Sources): seq<Doc>
  {
    Optional(DedicationDoc, src) + Optional(ForewordDoc, src)
  }

  function BackMatter(src: Sources): seq<Doc>
  {
    Optional(EpilogueDoc, src) + Optional(AcknowledgmentsDoc, src) + Optional(AboutAuthorDoc, src)
  }

  /** `book.toc`: the front matter, the six parts, the back matter. */
  function EpubToc(src: Sources): seq<TocEntry>
  {
    Links(FrontMatter(src)) + PartEntries(src) + Links(BackMatter(src))
  }

  /** The pages in the order they are added to the book, which is the spine after `'nav'`. */
  function EpubDocs(src: Sources): seq<Doc>
  {
    [TitleDoc, CopyrightDoc] + FrontMatter(src) + ChapterPages(src, FirstChapter, LastChapter) + BackMatter(src)
  }

  /** An entry of `book.spine`: the string `'nav'` or a page. */
  datatype SpineRef = NavRef | DocRef(doc: Doc)

  /** `['nav'] + chapters`. */
  function SpineOfDocs(ds: seq<Doc>): (r: seq<SpineRef>)
    ensures |r| == |ds| + 1 && r[0] == NavRef
    ensures forall k | 0 <= k < |ds| :: r[k + 1] == DocRef(ds[k])
  {
    [NavRef] + seq(|ds|, k requires 0 <= k < |ds| => DocRef(ds[k]))
  }

  // ----- the loop over the chapters -------------------------------------------

  /** Opening part `n` at its first chapter adds an empty section. */
  lemma SectionsOpen(n: nat, src: Sources, i: nat)
    requires n < |PartSections| && i == PartSections[n].start && PartsOpened(i - 1) == n
    ensures SectionsUpTo(n + 1, src, i - 1) == SectionsUpTo(n, src, i - 1) + [Section(PartTitle(n), [])]
  {
    assert Present(ChapterPresent(src), i, i - 1) == [];
    var a := SectionsUpTo(n + 1, src, i - 1);
    var b := SectionsUpTo(n, src, i - 1) + [Section(PartTitle(n), [])];
    assert |a| == |b|;
    forall p | 0 <= p <= n ensures a[p] == b[p] {
      if p == n {
        assert PartSections[n].end >= i by { PartsContiguous(); }
      }
    }
  }

  /** The last section with one more page. */
  function AppendToLast(toc: seq<TocEntry>, d: Doc): seq<TocEntry>
    requires toc != [] && toc[|toc| - 1].Section?
  {
    var last := toc[|toc| - 1];
    toc[..|toc| - 1] + [Section(last.title, last.docs + [d])]
  }

  /** Walking chapter `i` grows only the last opened section, by the chapter when it exists. */
  lemma SectionsGrow(src: Sources, i: nat)
    requires FirstChapter <= i <= LastChapter
    ensures var n := PartsOpened(i); var s := SectionsUpTo(n, src, i - 1);
      s != [] && s[|s| - 1].Section?
      && SectionsUpTo(n, src, i) == if src.has(SourceFile(ChapterDoc(i))) then AppendToLast(s, ChapterDoc(i)) else s
  {
    var n := PartsOpened(i);
    var s := SectionsUpTo(n, src, i - 1);
    var t := SectionsUpTo(n, src, i);
    OpenedPart(i);
    OpenSectionGrows(src, n - 1, i);
    ClosedSectionsSame(src, n - 1, i);
    SectionsSnoc(n, src, i - 1);
    SectionsSnoc(n, src, i);
    if !src.has(SourceFile(ChapterDoc(i))) {
      assert s[n - 1].docs + [] == s[n - 1].docs;
    }
  }

  /** Chapter `i` lies in the last part opened by then, and every earlier part ends before it. */
  lemma OpenedPart(i: nat)
    requires FirstChapter <= i <= LastChapter
    ensures var n := PartsOpened(i);
      0 < n && 1 <= PartSections[n - 1].start <= i <= PartSections[n - 1].end
      && (n > 1 ==> PartSections[n - 2].end < i)
  {
    PartsContiguous();
  }

  /** The first `n` sections are the first `n - 1` and the section at `n - 1`. */
  lemma SectionsSnoc(n: nat, src: Sources, hi: nat)
    requires 0 < n <= |PartSections|
    ensures SectionsUpTo(n, src, hi) == SectionsUpTo(n - 1, src, hi) + [SectionAt(n - 1, src, hi)]
  {
    assert SectionsUpTo(n, src, hi)[..n - 1] == SectionsUpTo(n - 1, src, hi);
  }

  /** Sections of parts that end before chapter `i` do not change when it is walked. */
  lemma ClosedSectionsSame(src: Sources, n: nat, i: nat)
    requires 1 <= i && n < |PartSections| && (n > 0 ==> PartSections[n - 1].end < i)
    ensures SectionsUpTo(n, src, i) == SectionsUpTo(n, src, i - 1)
  {
    forall p | 0 <= p < n ensures SectionAt(p, src, i) == SectionAt(p, src, i - 1) {
      if p < n - 1 {
        PartsAscending(p, n - 1);
      }
    }
  }

  /** The section of the part holding chapter `i` gains chapter `i`'s page when it exists. */
  lemma OpenSectionGrows(src: Sources, p: nat, i: nat)
    requires p < |PartSections| && 1 <= PartSections[p].start <= i <= PartSections[p].end
    ensures var before := SectionAt(p, src, i - 1);
      SectionAt(p, src, i) == Section(before.title, before.docs + if src.has(SourceFile(ChapterDoc(i))) then [ChapterDoc(i)] else [])
  {
    ChapterPagesStep(src, PartSections[p].start, i);
  }

  /** Appending a page to the last section of `toc0 + sections`. */
  lemma AppendToLastAfter(toc0: seq<TocEntry>, sections: seq<TocEntry>, d: Doc)
    requires sections != [] && sections[|sections| - 1].Section?
    ensures var toc := toc0 + sections; var last := toc[|toc| - 1];
      toc[..|toc| - 1] + [Section(last.title, last.docs + [d])] == toc0 + AppendToLast(sections, d)
  {
    InitOfAppend(toc0, sections);
  }

  /** Opening a part, when chapter `i` is its first: the table of contents gains an empty section. */
  method OpenPart(src: Sources, i: nat, part: nat, toc: seq<TocEntry>, ghost toc0: seq<TocEntry>)
    returns (part': nat, toc': seq<TocEntry>)
    requires FirstChapter <= i <= LastChapter && part == PartsOpened(i - 1)
    requires toc == toc0 + SectionsUpTo(part, src, i - 1)
    ensures part' == PartsOpened(i)
    ensures toc' == toc0 + SectionsUpTo(part', src, i - 1)
  {
    PartsOpenedStep(i);
    part', toc' := part, toc;
    if part < |PartSections| && i == PartSections[part].start {
      SectionsOpen(part, src, i);
      ConcatAssoc(toc0, SectionsUpTo(part, src, i - 1), [Section(PartTitle(part), [])]);
      toc' := toc + [Section(PartTitle(part), [])];
      part' := part + 1;
    }
  }

  /** `toc[-1][1].append(d)` when the last entry is a section (it always is once part I is open). */
  method AppendToLastSection(toc: seq<TocEntry>, d: Doc, ghost toc0: seq<TocEntry>, ghost sections: seq<TocEntry>)
    returns (toc': seq<TocEntry>)
    requires toc == toc0 + sections && sections != [] && sections[|sections| - 1].Section?
    ensures toc' == toc0 + AppendToLast(sections, d)
  {
    assert toc[|toc| - 1] == sections[|sections| - 1];
    if |toc| > 0 && toc[|toc| - 1].Section? {
      AppendToLastAfter(toc0, sections, d);
      var last := toc[|toc| - 1];
      toc' := toc[..|toc| - 1] + [Section(last.title, last.docs + [d])];
    } else {
      // the first part opens at chapter 1, so the last entry is always a section
      assert false;
      toc' := toc + [Link(d)];
    }
  }

  /** Adding chapter `i` when its file exists: to the book, the spine list and the last section. */
  method AddChapter(src: Sources, i: nat, part: nat, chapters: seq<Doc>, toc: seq<TocEntry>,
                    ghost chapters0: seq<Doc>, ghost toc0: seq<TocEntry>)
    returns (chapters': seq<Doc>, toc': seq<TocEntry>)
    requires FirstChapter <= i <= LastChapter && part == PartsOpened(i)
    requires chapters == chapters0 + ChapterPages(src, FirstChapter, i - 1)
    requires toc == toc0 + SectionsUpTo(part, src, i - 1)
    ensures chapters' == chapters0 + ChapterPages(src, FirstChapter, i)
    ensures toc' == toc0 + SectionsUpTo(part, src, i)
  {
    SectionsGrow(src, i);
    ChapterPagesStep(src, FirstChapter, i);
    chapters', toc' := chapters, toc;
    var d := ChapterDoc(i);
    if src.has(SourceFile(d)) {
      ConcatAssoc(chapters0, ChapterPages(src, FirstChapter, i - 1), [d]);
      chapters' := chapters + [d];
      toc' := AppendToLastSection(toc, d, toc0, SectionsUpTo(part, src, i - 1));
    }
  }

  /**
   * The chapter loop of `build_epub_book`: a part section is appended when
   * its first chapter is reached, and each existing chapter is added to the
   * book, to the spine list and to the last section of the table of contents.
   */
  method AddPartChapters(src: Sources, chapters0: seq<Doc>, toc0: seq<TocEntry>)
    returns (chapters: seq<Doc>, toc: seq<TocEntry>)
    ensures chapters == chapters0 + ChapterPages(src, FirstChapter, LastChapter)
    ensures toc == toc0 + PartEntries(src)
  {
    chapters, toc := chapters0, toc0;
    var currentPart := 0;
    var i := 1;
    assert ChapterPages(src, FirstChapter, 0) == [];
    while i <= 24
      invariant 1 <= i <= 25
      invariant currentPart == PartsOpened(i - 1)
      invariant chapters == chapters0 + ChapterPages(src, FirstChapter, i - 1)
      invariant toc == toc0 + SectionsUpTo(currentPart, src, i - 1)
    {
      currentPart, toc := OpenPart(src, i, currentPart, toc, toc0);
      chapters, toc := AddChapter(src, i, currentPart, chapters, toc, chapters0, toc0);
      i := i + 1;
    }
    assert i - 1 == LastChapter && currentPart == |PartSections|;
    PartsContiguous();
  }

  /** An optional page: into the spine list and, at the top level, into the table of contents. */
  method AddMatter(d: Doc, src: Sources, chapters0: seq<Doc>, toc0: seq<TocEntry>)
    returns (chapters: seq<Doc>, toc: seq<TocEntry>)
    ensures chapters == chapters0 + Optional(d, src)
    ensures toc == toc0 + Links(Optional(d, src))
  {
    chapters, toc := chapters0, toc0;
    if src.has(SourceFile(d)) {
      chapters := chapters + [d];
      toc := toc + [Link(d)];
    }
  }

  /** The `EpubHtml` items for the walked pages, made and added to the book in walk order. */
  method MakePages(ds: seq<Doc>, src: Sources) returns (items: seq<EpubPage>)
    ensures items == RenderAll(ds, src)
  {
    items := [];
    var k := 0;
    while k < |ds|
      invariant 0 <= k <= |ds|
      invariant items == RenderAll(ds[..k], src)
    {
      var page: EpubPage;
      if ds[k].TitleDoc? || ds[k].CopyrightDoc? {
        page := Render(ds[k], src);
      } else {
        page := MakePage(ds[k], src);
      }
      PrefixStep(ds, k);
      RenderAllSnoc(ds[..k], ds[k], src);
      items := items + [page];
      k := k + 1;
    }
    SliceWhole(ds);
  }

  /** The table of contents as the walk builds it, entry group by entry group. */
  lemma TocAssembled(src: Sources)
    ensures [] + Links(Optional(DedicationDoc, src)) + Links(Optional(ForewordDoc, src)) + PartEntries(src)
      + Links(Optional(EpilogueDoc, src)) + Links(Optional(AcknowledgmentsDoc, src)) + Links(Optional(AboutAuthorDoc, src))
      == EpubToc(src)
  {
    var a, b := Optional(DedicationDoc, src), Optional(ForewordDoc, src);
    var c, d, f := Optional(EpilogueDoc, src), Optional(AcknowledgmentsDoc, src), Optional(AboutAuthorDoc, src);
    LinksAppend(a, b);
    LinksAppend(c, d);
    LinksAppend(c + d, f);
    var p := PartEntries(src);
    calc {
      [] + Links(a) + Links(b) + p + Links(c) + Links(d) + Links(f);
      Links(a + b) + p + (Links(c) + Links(d) + Links(f));
      Links(a + b) + p + Links(c + d + f);
    }
  }

  /** The spine list as the walk builds it, page group by page group. */
  lemma DocsAssembled(src: Sources)
    ensures [TitleDoc, CopyrightDoc] + Optional(DedicationDoc, src) + Optional(ForewordDoc, src)
      + ChapterPages(src, FirstChapter, LastChapter)
      + Optional(EpilogueDoc, src) + Optional(AcknowledgmentsDoc, src) + Optional(AboutAuthorDoc, src)
      == EpubDocs(src)
  {
    var h := [TitleDoc, CopyrightDoc];
    var a, b := Optional(DedicationDoc, src), Optional(ForewordDoc, src);
    var c, d, f := Optional(EpilogueDoc, src), Optional(AcknowledgmentsDoc, src), Optional(AboutAuthorDoc, src);
    var cs := ChapterPages(src, FirstChapter, LastChapter);
    ConcatAssoc(h, a, b);
    var y := h + (a + b) + cs;
    ConcatAssoc(y, c, d);
    ConcatAssoc(y, c + d, f);
  }

  /** The walk of `build_epub_book` over the book: the spine list and the table of contents. */
  method WalkBook(src: Sources) returns (chapters: seq<Doc>, toc: seq<TocEntry>)
    ensures chapters == EpubDocs(src)
    ensures toc == EpubToc(src)
  {
    chapters := [TitleDoc, CopyrightDoc];
    toc := [];
    chapters, toc := AddMatter(DedicationDoc, src, chapters, toc);
    chapters, toc := AddMatter(ForewordDoc, src, chapters, toc);
    chapters, toc := AddPartChapters(src, chapters, toc);
    chapters, toc := AddMatter(EpilogueDoc, src, chapters, toc);
    chapters, toc := AddMatter(AcknowledgmentsDoc, src, chapters, toc);
    chapters, toc := AddMatter(AboutAuthorDoc, src, chapters, toc);
    TocAssembled(src);
    DocsAssembled(src);
  }

  /**
   * `build_epub_book`: the items added to the book, the table of contents
   * and the spine.
   */
  method BuildEpubBook(src: Sources) returns (items: seq<EpubPage>, toc: seq<TocEntry>, spine: seq<SpineRef>)
    ensures items == RenderAll(EpubDocs(src), src)
    ensures toc == EpubToc(src)
    ensures spine == SpineOfDocs(EpubDocs(src))
  {
    var chapters;
    chapters, toc := WalkBook(src);
    items := MakePages(chapters, src);
    spine := SpineOfDocs(chapters);
  }

  // ----- what the book looks like ---------------------------------------------

  /**
   * The table of contents always holds the six part sections, in order and
   * with their titles, between the front matter and the back matter, which
   * are plain top-level entries.
   */
  lemma TocShape(src: Sources)
    ensures var toc := EpubToc(src); var f := |FrontMatter(src)|;
      |toc| == f + |PartSections| + |BackMatter(src)|
      && (forall k | 0 <= k < |toc| :: toc[k].Section? <==> f <= k < f + |PartSections|)
      && (forall p | 0 <= p < |PartSections| :: toc[f + p].title == PartTitle(p))
      && (forall k | 0 <= k < f :: toc[k] == Link(FrontMatter(src)[k]))
      && (forall k | 0 <= k < |BackMatter(src)| :: toc[f + |PartSections| + k] == Link(BackMatter(src)[k]))
  {
    var toc := EpubToc(src);
    var a, b, c := Links(FrontMatter(src)), PartEntries(src), Links(BackMatter(src));
    var f := |a|;
    forall k | 0 <= k < |toc|
      ensures toc[k] == if k < f then a[k] else if k < f + |b| then b[k - f] else c[k - f - |b|]
    {
      ConcatIndex3(a, b, c, k);
    }
  }

  /** Chapter `i` is in the section of its part and in no other, exactly when its file exists. */
  lemma ChapterInItsPart(src: Sources, i: nat, p: nat)
    requires FirstChapter <= i <= LastChapter && p < |PartSections|
    ensures ChapterDoc(i) in PartEntries(src)[p].docs <==> p == PartOf(i) && src.has(SourceFile(ChapterDoc(i)))
  {
    ChapterPageIn(src, PartSections[p].start, PartSections[p].end, i);
    PartsPartition(i, p);
  }

  /** Within a section, chapters come in strictly ascending order of their numbers. */
  lemma SectionAscending(src: Sources, p: nat, a: nat, b: nat)
    requires p < |PartSections| && a < b < |PartEntries(src)[p].docs|
    ensures var ds := PartEntries(src)[p].docs;
      ds[a].ChapterDoc? && ds[b].ChapterDoc? && ds[a].n < ds[b].n
  {
  }

  /** The pages of a sequence of table-of-contents entries, in order. */
  function Flatten(toc: seq<TocEntry>): seq<Doc>
  {
    if toc == [] then []
    else Flatten(toc[..|toc| - 1]) + EntryDocs(toc[|toc| - 1])
  }

  /** The pages one entry contributes. */
  function EntryDocs(e: TocEntry): seq<Doc>
  {
    if e.Section? then e.docs else [e.doc]
  }

  lemma FlattenSnoc(toc: seq<TocEntry>, e: TocEntry)
    ensures Flatten(toc + [e]) == Flatten(toc) + EntryDocs(e)
  {
    assert (toc + [e])[..|toc|] == toc;
  }

  /** The first `n` sections cover chapters 1 up to the end of part `n - 1`, in order. */
  lemma {:induction false} FlattenRanges(src: Sources, n: nat)
    requires 1 <= n <= |PartSections|
    ensures Flatten(PartEntries(src)[..n]) == ChapterPages(src, FirstChapter, PartSections[n - 1].end)
  {
    var es := PartEntries(src);
    PrefixStep(es, n - 1);
    FlattenSnoc(es[..n - 1], es[n - 1]);
    if n == 1 {
      assert Flatten(es[..0]) == [];
    } else {
      FlattenRanges(src, n - 1);
      PartsContiguous();
      ChapterPagesSplit(src, FirstChapter, PartSections[n - 2].end, PartSections[n - 1].end);
    }
  }

  /** The pages of the six sections, in order, are exactly the chapters of the spine. */
  lemma SectionsCoverSpine(src: Sources)
    ensures Flatten(PartEntries(src)) == ChapterPages(src, FirstChapter, LastChapter)
  {
    FlattenRanges(src, |PartSections|);
    SliceWhole(PartEntries(src));
  }

  /** The pages the table of contents mentions, at any depth. */
  predicate InToc(d: Doc, toc: seq<TocEntry>)
  {
    exists k | 0 <= k < |toc| :: EntryMentions(toc[k], d)
  }

  /** The entries of the table of contents before and after the parts are links to front and back matter. */
  lemma TocLinkAt(src: Sources, k: nat)
    requires k < |EpubToc(src)| && !EpubToc(src)[k].Section?
    ensures EpubToc(src)[k].Link?
    ensures EpubToc(src)[k].doc in FrontMatter(src) || EpubToc(src)[k].doc in BackMatter(src)
  {
    var toc, front, back := EpubToc(src), FrontMatter(src), BackMatter(src);
    var f := |front|;
    TocShape(src);
    if k < f {
      assert toc[k] == Link(front[k]);
      assert front[k] in front;
    } else {
      assert k >= f + |PartSections|;
      var j := k - f - |PartSections|;
      assert toc[f + |PartSections| + j] == Link(back[j]);
      assert back[j] in back;
    }
  }

  /** Every page of a part section is a chapter. */
  lemma TocSectionAt(src: Sources, k: nat)
    requires k < |EpubToc(src)| && EpubToc(src)[k].Section?
    ensures forall d | d in EpubToc(src)[k].docs :: d.ChapterDoc?
  {
    var f := |FrontMatter(src)|;
    TocShape(src);
    var p := k - f;
    assert EpubToc(src)[k] == PartEntries(src)[p];
  }

  /** No front or back matter page is a chapter, nor the title or copyright page. */
  lemma MatterNotChapter(src: Sources)
    ensures forall d | d in FrontMatter(src) :: !d.ChapterDoc? && !d.TitleDoc? && !d.CopyrightDoc?
    ensures forall d | d in BackMatter(src) :: !d.ChapterDoc? && !d.TitleDoc? && !d.CopyrightDoc?
  {
  }

  /**
   * The spine is `'nav'`, the title page, the copyright page and then the
   * other pages; the title and copyright pages are never in the table of
   * contents.
   */
  lemma FrontPagesOnlyInSpine(src: Sources)
    ensures var spine := SpineOfDocs(EpubDocs(src));
      spine[0] == NavRef && spine[1] == DocRef(TitleDoc) && spine[2] == DocRef(CopyrightDoc)
    ensures !InToc(TitleDoc, EpubToc(src)) && !InToc(CopyrightDoc, EpubToc(src))
  {
    SpineStart(src);
    FrontPagesNotInToc(src);
  }

  lemma SpineStart(src: Sources)
    ensures var spine := SpineOfDocs(EpubDocs(src));
      spine[0] == NavRef && spine[1] == DocRef(TitleDoc) && spine[2] == DocRef(CopyrightDoc)
  {
    var ds := EpubDocs(src);
    assert ds[0] == TitleDoc && ds[1] == CopyrightDoc;
  }

  lemma FrontPagesNotInToc(src: Sources)
    ensures !InToc(TitleDoc, EpubToc(src)) && !InToc(CopyrightDoc, EpubToc(src))
  {
    forall k | 0 <= k < |EpubToc(src)|
      ensures !EntryMentions(EpubToc(src)[k], TitleDoc) && !EntryMentions(EpubToc(src)[k], CopyrightDoc)
    {
      FrontPagesNotAt(src, k);
    }
  }

  /** Whether a table-of-contents entry links to `d` or lists it in its section. */
  predicate EntryMentions(e: TocEntry, d: Doc)
  {
    e == Link(d) || (e.Section? && d in e.docs)
  }

  lemma FrontPagesNotAt(src: Sources, k: nat)
    requires k < |EpubToc(src)|
    ensures !EntryMentions(EpubToc(src)[k], TitleDoc) && !EntryMentions(EpubToc(src)[k], CopyrightDoc)
  {
    if EpubToc(src)[k].Section? {
      TocSectionAt(src, k);
    } else {
      TocLinkAt(src, k);
      MatterNotChapter(src);
    }
  }

  /** A chapter's page is in the spine exactly when its file exists. */
  lemma ChapterInSpine(src: Sources, i: nat)
    ensures ChapterDoc(i) in EpubDocs(src) <==> FirstChapter <= i <= LastChapter && src.has(SourceFile(ChapterDoc(i)))
  {
    ChapterPageIn(src, FirstChapter, LastChapter, i);
    MatterNotChapter(src);
  }

  /** The pages of the existing chapters come in strictly ascending order of their numbers. */
  lemma ChapterPagesAscending(src: Sources, lo: nat, hi: nat, a: nat, b: nat)
    requires a < b < |ChapterPages(src, lo, hi)|
    ensures ChapterPages(src, lo, hi)[a].n < ChapterPages(src, lo, hi)[b].n
  {
  }

  /** Where a page belongs in the book: front matter, chapters, back matter. */
  function Rank(d: Doc): nat
  {
    match d
    case TitleDoc => 0
    case CopyrightDoc => 1
    case DedicationDoc => 2
    case ForewordDoc => 3
    case ChapterDoc(_) => 4
    case EpilogueDoc => 5
    case AcknowledgmentsDoc => 6
    case AboutAuthorDoc => 7
  }

  /** Pages in strictly ascending rank, all within `lo..hi`. */
  predicate RankedWithin(ds: seq<Doc>, lo: nat, hi: nat)
  {
    (forall x | 0 <= x < |ds| :: lo <= Rank(ds[x]) <= hi)
    && (forall x, y | 0 <= x < y < |ds| :: Rank(ds[x]) < Rank(ds[y]))
  }

  /** Chapter pages in strictly ascending order of their numbers. */
  predicate ChaptersAscending(ds: seq<Doc>)
  {
    (forall x | 0 <= x < |ds| :: ds[x].ChapterDoc?)
    && (forall x, y | 0 <= x < y < |ds| :: ds[x].n < ds[y].n)
  }

  /** Front pages, then chapters, then back pages, is an order on the whole. */
  lemma ThreePieceOrder(head: seq<Doc>, cs: seq<Doc>, tail: seq<Doc>, a: nat, b: nat)
    requires RankedWithin(head, 0, 3) && ChaptersAscending(cs) && RankedWithin(tail, 5, 7)
    requires a < b < |head + cs + tail|
    ensures var ds := head + cs + tail;
      Rank(ds[a]) < Rank(ds[b]) || (ds[a].ChapterDoc? && ds[b].ChapterDoc? && ds[a].n < ds[b].n)
  {
    ConcatIndex3(head, cs, tail, a);
    ConcatIndex3(head, cs, tail, b);
  }

  lemma HeadRanked(src: Sources)
    ensures RankedWithin([TitleDoc, CopyrightDoc] + FrontMatter(src), 0, 3)
  {
  }

  lemma TailRanked(src: Sources)
    ensures RankedWithin(BackMatter(src), 5, 7)
  {
  }

  lemma ChapterPagesOrdered(src: Sources, lo: nat, hi: nat)
    ensures ChaptersAscending(ChapterPages(src, lo, hi))
  {
  }

  /**
   * The spine walks the book in order: title, copyright, dedication,
   * foreword, the chapters in strictly ascending order, epilogue,
   * acknowledgments, about the author. So no page appears twice.
   */
  lemma SpineOrdered(src: Sources, a: nat, b: nat)
    requires a < b < |EpubDocs(src)|
    ensures var ds := EpubDocs(src);
      Rank(ds[a]) < Rank(ds[b]) || (ds[a].ChapterDoc? && ds[b].ChapterDoc? && ds[a].n < ds[b].n)
  {
    HeadRanked(src);
    TailRanked(src);
    ChapterPagesOrdered(src, FirstChapter, LastChapter);
    ThreePieceOrder([TitleDoc, CopyrightDoc] + FrontMatter(src), ChapterPages(src, FirstChapter, LastChapter), BackMatter(src), a, b);
  }
}
