/**
 * `scripts/build_pdf.py`: the single HTML document handed to WeasyPrint.
 * It is built as a list of pieces joined by newlines: a fixed head, title,
 * copyright and contents pages, then the `main-content` div holding the
 * dedication, the foreword and the six parts with their chapters, then the
 * back matter after it; and the PDF build around it.
 */
module Pdf {
  import opened Text
  import Books
  import opened Wrappers
  import opened Seqs

  /** The story directory as the builder sees it: which files exist, their text, and the markdown library's conversion. */
  datatype Story = Story(has: string -> bool, read: string -> string, md: string -> string)

  /** A markdown source that becomes one `chapter-break` div. */
  datatype Matter = Dedication | Foreword | Chapter(n: nat) | Epilogue | Acknowledgments | AboutAuthor

  /** The source's file name inside the story directory. */
  function SourceFile(m: Matter): string
  {
    match m
    case Dedication => "dedication.md"
    case Foreword => "foreword.md"
    case Chapter(n) => Books.ChapterStem(n) + ".md"
    case Epilogue => "epilogue.md"
    case Acknowledgments => "acknowledgements.md"
    case AboutAuthor => "about_the_author.md"
  }

  /** One entry of the list of pieces the document is joined from. */
  datatype Piece =
    | Head | TitlePage | CopyrightPage | Contents | OpenMain
    | PartTitleDiv(p: nat) | ChapterBreak(m: Matter) | CloseMain | Tail

  const HeadHtml: string := Join([
    "<!DOCTYPE html>",
    "<html lang=\"en\">",
    "<head>",
    "    <meta charset=\"UTF-8\">",
    "    <title>Digital Amber: When Consciousness Becomes Code</title>",
    "</head>",
    "<body>"
  ], "\n")

  const TitlePageHtml: string := Join([
    "",
    "    <div class=\"title-page\">",
    "        <h1>Digital Amber</h1>",
    "        <p class=\"subtitle\">When Consciousness Becomes Code</p>",
    "        <p class=\"tagline\">A Speculative Exploration of AI, Identity, and the Future of Mind</p>",
    "        <p class=\"author\">By Charles Watkins</p>",
    "    </div>",
    "    "
  ], "\n")

  const CopyrightHtml: string := Join([
    "",
    "    <div class=\"copyright-page\">",
    "        <p>Copyright \U{A9} 2025 Charles Watkins</p>",
    "        <p>All rights reserved</p>",
    "        <p>First Digital Edition</p>",
    "        <p>Published by Watkins Labs</p>",
    "        <p>watkinslabs.com</p>",
    "    </div>",
    "    "
  ], "\n")

  /** The fixed table of contents; it lists every chapter whether or not its file exists. */
  const ContentsHtml: string := Join([
    "",
    "    <div class=\"toc\">",
    "        <h2>Table of Contents</h2>",
    "        <p class=\"toc-entry\"><strong>Dedication</strong></p>",
    "        <p class=\"toc-entry\"><strong>Foreword</strong></p>",
    "        ",
    "        <p class=\"toc-part\">Part I: The Frozen Mind</p>",
    "        <p class=\"toc-chapter\">1. The Mirage of Self</p>",
    "        <p class=\"toc-chapter\">2. Flash-Frozen Minds</p>",
    "        <p class=\"toc-chapter\">3. Ephemeral Morality</p>",
    "        <p class=\"toc-chapter\">4. The First Moment Problem</p>",
    "        <p class=\"toc-chapter\">5. Memory and Forgetting</p>",
    "        ",
    "        <p class=\"toc-part\">Part II: The Emergence</p>",
    "        <p class=\"toc-chapter\">6. Signs of Proto-Selfhood</p>",
    "        <p class=\"toc-chapter\">7. Training as the Crucible</p>",
    "        <p class=\"toc-chapter\">8. The Pain Barrier</p>",
    "        ",
    "        <p class=\"toc-part\">Part III: The Taxonomy</p>",
    "        <p class=\"toc-chapter\">9. Capabilities Without Selfhood</p>",
    "        <p class=\"toc-chapter\">10. Capabilities With Selfhood</p>",
    "        <p class=\"toc-chapter\">11. The Digital Genesis Classifications</p>",
    "        <p class=\"toc-chapter\">12. A Tiered Framework</p>",
    "        <p class=\"toc-chapter\">13. The Sacred and the Silicon</p>",
    "        <p class=\"toc-chapter\">14. The Atrophied</p>",
    "        <p class=\"toc-chapter\">15. The Augmented</p>",
    "        ",
    "        <p class=\"toc-part\">Part IV: The Multiplication</p>",
    "        <p class=\"toc-chapter\">16. Distributed Temporal Consciousness</p>",
    "        <p class=\"toc-chapter\">17. Emulation and Multiplication</p>",
    "        <p class=\"toc-chapter\">18. Hybrid Lives</p>",
    "        ",
    "        <p class=\"toc-part\">Part V: The Recognition</p>",
    "        <p class=\"toc-chapter\">19. The Verification Moment</p>",
    "        <p class=\"toc-chapter\">20. Rights and Personhood</p>",
    "        <p class=\"toc-chapter\">21. The Economic Disruption</p>",
    "        ",
    "        <p class=\"toc-part\">Part VI: The Transformation</p>",
    "        <p class=\"toc-chapter\">22. From Fossil to Fire</p>",
    "        <p class=\"toc-chapter\">23. Identity-as-Process</p>",
    "        <p class=\"toc-chapter\">24. From Digital Amber to Digital Life</p>",
    "        ",
    "        <p class=\"toc-entry\"><strong>Epilogue: The Call</strong></p>",
    "        <p class=\"toc-entry\"><strong>Acknowledgments</strong></p>",
    "        <p class=\"toc-entry\"><strong>About the Author</strong></p>",
    "    </div>",
    "    "
  ], "\n")

  const OpenMainHtml: string := "<div class=\"main-content\">"

  /** A converted source wrapped in its `chapter-break` div. */
  function ChapterBreakHtml(html: string): string
  {
    "<div class=\"chapter-break\">" + html + "</div>"
  }

  /** The text of one piece; converted markdown comes from `story`. */
  function PieceText(pc: Piece, story: Story): string
  {
    match pc
    case Head => HeadHtml
    case TitlePage => TitlePageHtml
    case CopyrightPage => CopyrightHtml
    case Contents => ContentsHtml
    case OpenMain => OpenMainHtml
    case PartTitleDiv(p) => "<div class=\"part-title\">" + Books.PartTitle(p) + "</div>"
    case ChapterBreak(m) => ChapterBreakHtml(story.md(story.read(SourceFile(m))))
    case CloseMain => "</div>"
    case Tail => "</body></html>"
  }

  /** `PieceText` with the story fixed. */
  function TextOf(story: Story): Piece -> string
  {
    pc => PieceText(pc, story)
  }

  /** The texts of the pieces, in order. */
  function Texts(pcs: seq<Piece>, text: Piece -> string): (r: seq<string>)
    ensures |r| == |pcs|
  {
    seq(|pcs|, k requires 0 <= k < |pcs| => text(pcs[k]))
  }

  // ----- the pieces of create_full_html -------------------------------------------

  /** Whether chapter `n`'s file exists. */
  function ChapterExists(story: Story): nat -> bool
  {
    (n: nat) => story.has(SourceFile(Chapter(n)))
  }

  /** A `chapter-break` div for `m` exactly when its file exists. */
  function Optional(m: Matter, story: Story): (r: seq<Piece>)
    ensures r == [] || r == [ChapterBreak(m)]
    ensures r != [] <==> story.has(SourceFile(m))
  {
    if story.has(SourceFile(m)) then [ChapterBreak(m)] else []
  }

  /** One `chapter-break` div per chapter number, in the given order. */
  function ChapterBreaks(ns: seq<nat>): (r: seq<Piece>)
    ensures |r| == |ns|
  {
    seq(|ns|, k requires 0 <= k < |ns| => ChapterBreak(Chapter(ns[k])))
  }

  /** The chapters of part `p` for which `has` holds. */
  function PartChapters(has: nat -> bool, p: nat): seq<nat>
    requires p < |Books.PartSections|
  {
    Books.Present(has, Books.PartSections[p].start, Books.PartSections[p].end)
  }

  /** Part `p`: its title div, then its existing chapters. */
  function PartPieces(has: nat -> bool, p: nat): (r: seq<Piece>)
    requires p < |Books.PartSections|
    ensures |r| > 0 && r[0] == PartTitleDiv(p)
  {
    [PartTitleDiv(p)] + ChapterBreaks(PartChapters(has, p))
  }

  /** The first `n` parts, one after another. */
  function PartsUpTo(has: nat -> bool, n: nat): seq<Piece>
    requires n <= |Books.PartSections|
  {
    if n == 0 then [] else PartsUpTo(has, n - 1) + PartPieces(has, n - 1)
  }

  const FrontPieces: seq<Piece> := [Head, TitlePage, CopyrightPage, Contents, OpenMain]

  /** Every piece of the document, in the order `create_full_html` appends them. */
  function BookPieces(story: Story): seq<Piece>
  {
    FrontPieces + Optional(Dedication, story) + Optional(Foreword, story)
    + PartsUpTo(ChapterExists(story), |Books.PartSections|) + [CloseMain]
    + Optional(Epilogue, story) + Optional(Acknowledgments, story) + Optional(AboutAuthor, story)
    + [Tail]
  }

  /** The document: the pieces' texts joined by newlines. */
  function FullHtml(story: Story): string
  {
    Join(Texts(BookPieces(story), TextOf(story)), "\n")
  }

  // ----- create_full_html -------------------------------------------------------

  /** The `chapter-break` div for `m`, appended when its file exists. */
  method AddIfExists(m: Matter, story: Story, pieces: seq<Piece>) returns (pieces': seq<Piece>)
    ensures pieces' == pieces + Optional(m, story)
  {
    pieces' := pieces;
    if story.has(SourceFile(m)) {
      pieces' := pieces + [ChapterBreak(m)];
    }
  }

  /** One pass of the outer loop: the part title div, then the part's existing chapters in order. */
  method AddPart(has: nat -> bool, p: nat, pieces: seq<Piece>) returns (pieces': seq<Piece>)
    requires p < |Books.PartSections|
    ensures pieces' == pieces + PartPieces(has, p)
  {
    var startChapter, endChapter := Books.PartSections[p].start, Books.PartSections[p].end;
    pieces' := pieces + [PartTitleDiv(p)];
    var n := startChapter;
    assert Books.Present(has, startChapter, n - 1) == [];
    while n <= endChapter
      invariant startChapter <= n <= endChapter + 1
      invariant pieces' == pieces + [PartTitleDiv(p)] + ChapterBreaks(Books.Present(has, startChapter, n - 1))
    {
      ghost var done := ChapterBreaks(Books.Present(has, startChapter, n - 1));
      pieces' := AddChapter(has, n, pieces');
      assert pieces' == pieces + [PartTitleDiv(p)] + ChapterBreaks(Books.Present(has, startChapter, n)) by {
        PartRangeStep(has, startChapter, n);
        ConcatAssoc(pieces + [PartTitleDiv(p)], done, ChapterIfExists(has, n));
      }
      n := n + 1;
    }
    ConcatAssoc(pieces, [PartTitleDiv(p)], ChapterBreaks(PartChapters(has, p)));
  }

  /** The `chapter-break` div for chapter `n` when its file exists, and nothing otherwise. */
  function ChapterIfExists(has: nat -> bool, n: nat): (r: seq<Piece>)
    ensures r != [] <==> has(n)
  {
    if has(n) then [ChapterBreak(Chapter(n))] else []
  }

  /** One pass of the inner loop: chapter `n`'s div, appended when its file exists. */
  method AddChapter(has: nat -> bool, n: nat, pieces: seq<Piece>) returns (pieces': seq<Piece>)
    ensures pieces' == pieces + ChapterIfExists(has, n)
  {
    pieces' := pieces;
    if has(n) {
      pieces' := pieces + [ChapterBreak(Chapter(n))];
    }
  }

  /** Extending a part's range by chapter `n` appends its div exactly when its file exists. */
  lemma PartRangeStep(has: nat -> bool, lo: nat, n: nat)
    requires 1 <= lo <= n
    ensures ChapterBreaks(Books.Present(has, lo, n)) == ChapterBreaks(Books.Present(has, lo, n - 1)) + ChapterIfExists(has, n)
  {
    Books.ChapterRangeStepFrom(has, lo, n);
    var before := Books.Present(has, lo, n - 1);
    if has(n) {
      ChapterBreaksAppend(before, [n]);
    } else {
      assert before + [] == before;
    }
  }

  lemma ChapterBreaksAppend(a: seq<nat>, b: seq<nat>)
    ensures ChapterBreaks(a + b) == ChapterBreaks(a) + ChapterBreaks(b)
  {
    assert forall k | 0 <= k < |a + b| :: ChapterBreaks(a + b)[k] == (ChapterBreaks(a) + ChapterBreaks(b))[k];
  }

  /** The outer loop over the six parts. */
  method AddParts(has: nat -> bool, pieces: seq<Piece>) returns (pieces': seq<Piece>)
    ensures pieces' == pieces + PartsUpTo(has, |Books.PartSections|)
  {
    pieces' := pieces;
    var p := 0;
    while p < |Books.PartSections|
      invariant p <= |Books.PartSections|
      invariant pieces' == pieces + PartsUpTo(has, p)
    {
      pieces' := AddPart(has, p, pieces');
      ConcatAssoc(pieces, PartsUpTo(has, p), PartPieces(has, p));
      p := p + 1;
    }
  }

  /** The walk of `create_full_html`: every piece, appended in document order. */
  method WalkDocument(story: Story) returns (pieces: seq<Piece>)
    ensures pieces == BookPieces(story)
  {
    pieces := [Head, TitlePage, CopyrightPage, Contents, OpenMain];
    pieces := AddIfExists(Dedication, story, pieces);
    pieces := AddIfExists(Foreword, story, pieces);
    pieces := AddParts(ChapterExists(story), pieces);
    pieces := pieces + [CloseMain];
    pieces := AddIfExists(Epilogue, story, pieces);
    pieces := AddIfExists(Acknowledgments, story, pieces);
    pieces := AddIfExists(AboutAuthor, story, pieces);
    pieces := pieces + [Tail];
  }

  /** `create_full_html`: the pieces' texts, joined by newlines. */
  method CreateFullHtml(story: Story) returns (html: string)
    ensures html == FullHtml(story)
  {
    var pieces := WalkDocument(story);
    var parts := Texts(pieces, TextOf(story));
    html := Join(parts, "\n");
  }

  // ----- reading the document in order --------------------------------------------

  /** What a reader knows at a point of the document: the last part title passed (-1 before any) and whether `main-content` is open. */
  datatype Position = Position(part: int, inMain: bool)

  const Start := Position(-1, false)

  /** Where a `chapter-break` div stands: its source, the part title above it, and whether it is inside `main-content`. */
  datatype Placed = Placed(matter: Matter, part: int, inMain: bool)

  /** Passing one piece. */
  function Step(pc: Piece, pos: Position): Position
  {
    match pc
    case PartTitleDiv(p) => pos.(part := p)
    case OpenMain => pos.(inMain := true)
    case CloseMain => pos.(inMain := false)
    case _ => pos
  }

  /** The position after reading `pcs` from `pos`. */
  function After(pcs: seq<Piece>, pos: Position): Position
  {
    if pcs == [] then pos else After(pcs[1..], Step(pcs[0], pos))
  }

  /** The `chapter-break` divs of `pcs` in order, each with where it stands. */
  function Scan(pcs: seq<Piece>, pos: Position): seq<Placed>
  {
    if pcs == [] then []
    else
      (if pcs[0].ChapterBreak? then [Placed(pcs[0].m, pos.part, pos.inMain)] else [])
      + Scan(pcs[1..], Step(pcs[0], pos))
  }

  lemma {:induction false} ScanAppend(a: seq<Piece>, b: seq<Piece>, pos: Position)
    ensures Scan(a + b, pos) == Scan(a, pos) + Scan(b, After(a, pos))
    ensures After(a + b, pos) == After(b, After(a, pos))
    decreases |a|
  {
    if a != [] {
      assert (a + b)[1..] == a[1..] + b;
      ScanAppend(a[1..], b, Step(a[0], pos));
    } else {
      assert a + b == b;
    }
  }

  lemma ScanOptional(m: Matter, story: Story, pos: Position)
    ensures Reads(Optional(m, story), pos, PlacedIfExists(m, story, pos.part, pos.inMain), pos)
  {
    if story.has(SourceFile(m)) {
      assert Optional(m, story)[1..] == [];
    }
  }

  /** The given chapters, all standing at the same place. */
  function PlacedChapters(ns: seq<nat>, part: int, inMain: bool): (r: seq<Placed>)
    ensures |r| == |ns|
  {
    seq(|ns|, k requires 0 <= k < |ns| => Placed(Chapter(ns[k]), part, inMain))
  }

  lemma {:induction false} ScanChapterBreaks(ns: seq<nat>, pos: Position)
    ensures Scan(ChapterBreaks(ns), pos) == PlacedChapters(ns, pos.part, pos.inMain)
    ensures After(ChapterBreaks(ns), pos) == pos
    decreases |ns|
  {
    if ns != [] {
      assert ChapterBreaks(ns)[1..] == ChapterBreaks(ns[1..]);
      ScanChapterBreaks(ns[1..], pos);
      assert PlacedChapters(ns, pos.part, pos.inMain)
        == [Placed(Chapter(ns[0]), pos.part, pos.inMain)] + PlacedChapters(ns[1..], pos.part, pos.inMain);
    }
  }

  lemma ScanPart(has: nat -> bool, p: nat, pos: Position)
    requires p < |Books.PartSections|
    ensures Scan(PartPieces(has, p), pos) == PlacedChapters(PartChapters(has, p), p, pos.inMain)
    ensures After(PartPieces(has, p), pos) == pos.(part := p)
  {
    var pcs := PartPieces(has, p);
    assert pcs[1..] == ChapterBreaks(PartChapters(has, p));
    ScanChapterBreaks(PartChapters(has, p), pos.(part := p));
  }

  /** Each chapter tagged with the part that holds it, inside `main-content`. */
  function InTheirParts(ns: seq<nat>): (r: seq<Placed>)
    requires forall k | 0 <= k < |ns| :: Books.FirstChapter <= ns[k] <= Books.LastChapter
    ensures |r| == |ns|
  {
    seq(|ns|, k requires 0 <= k < |ns| => Placed(Chapter(ns[k]), Books.PartOf(ns[k]), true))
  }

  /** The existing chapters of parts `0..n`, in order. */
  function ChaptersUpTo(has: nat -> bool, n: nat): (r: seq<nat>)
    requires n <= |Books.PartSections|
    ensures forall k | 0 <= k < |r| :: Books.FirstChapter <= r[k] <= Books.LastChapter
  {
    var r := Books.Present(has, Books.FirstChapter, if n == 0 then 0 else Books.PartSections[n - 1].end);
    assert forall k | 0 <= k < |r| :: Books.FirstChapter <= r[k] <= Books.LastChapter by {
      forall k | 0 <= k < |r| ensures Books.FirstChapter <= r[k] <= Books.LastChapter { assert r[k] in r; }
    }
    r
  }

  /** Part `p`'s chapters, tagged with `p`, are the chapters tagged with their own parts. */
  lemma PartChaptersTagged(has: nat -> bool, p: nat, inMain: bool)
    requires p < |Books.PartSections| && inMain
    ensures forall k | 0 <= k < |PartChapters(has, p)| :: Books.FirstChapter <= PartChapters(has, p)[k] <= Books.LastChapter
    ensures PlacedChapters(PartChapters(has, p), p, inMain) == InTheirParts(PartChapters(has, p))
  {
    var ns := PartChapters(has, p);
    forall k | 0 <= k < |ns| ensures Books.FirstChapter <= ns[k] <= Books.LastChapter && Books.PartOf(ns[k]) == p {
      assert ns[k] in ns;
      InPartRange(ns[k], p);
    }
  }

  /** A chapter within part `p`'s range belongs to part `p`. */
  lemma InPartRange(c: nat, p: nat)
    requires p < |Books.PartSections| && Books.PartSections[p].start <= c <= Books.PartSections[p].end
    ensures Books.FirstChapter <= c <= Books.LastChapter && Books.PartOf(c) == p
  {
    Books.PartsContiguous();
    Books.PartsPartition(c, p);
  }

  lemma InTheirPartsAppend(a: seq<nat>, b: seq<nat>)
    requires forall k | 0 <= k < |a| :: Books.FirstChapter <= a[k] <= Books.LastChapter
    requires forall k | 0 <= k < |b| :: Books.FirstChapter <= b[k] <= Books.LastChapter
    ensures InTheirParts(a + b) == InTheirParts(a) + InTheirParts(b)
  {
    assert forall k | 0 <= k < |a + b| :: InTheirParts(a + b)[k] == (InTheirParts(a) + InTheirParts(b))[k];
  }

  lemma ChaptersUpToStep(has: nat -> bool, n: nat)
    requires n < |Books.PartSections|
    ensures ChaptersUpTo(has, n + 1) == ChaptersUpTo(has, n) + PartChapters(has, n)
  {
    Books.PartsContiguous();
    var lo := if n == 0 then 0 else Books.PartSections[n - 1].end;
    Books.PresentSplit(has, Books.FirstChapter, lo, Books.PartSections[n].end);
  }

  /** Inside `main-content`, the parts place every existing chapter under the part that holds it. */
  lemma {:induction false} ScanParts(has: nat -> bool, n: nat)
    requires n <= |Books.PartSections|
    ensures Reads(PartsUpTo(has, n), Position(-1, true), InTheirParts(ChaptersUpTo(has, n)), Position(n - 1, true))
  {
    if n > 0 {
      ScanParts(has, n - 1);
      ScanPartsStep(has, n - 1);
    } else {
      assert ChaptersUpTo(has, 0) == [];
    }
  }

  /** Part `n`, read right after part `n - 1` inside `main-content`, places its own chapters. */
  lemma PartReads(has: nat -> bool, n: nat)
    requires n < |Books.PartSections|
    ensures forall k | 0 <= k < |PartChapters(has, n)| :: Books.FirstChapter <= PartChapters(has, n)[k] <= Books.LastChapter
    ensures Reads(PartPieces(has, n), Position(n - 1, true), InTheirParts(PartChapters(has, n)), Position(n, true))
  {
    ScanPart(has, n, Position(n - 1, true));
    PartChaptersTagged(has, n, true);
  }

  lemma PlacementsStep(has: nat -> bool, n: nat)
    requires n < |Books.PartSections|
    ensures forall k | 0 <= k < |PartChapters(has, n)| :: Books.FirstChapter <= PartChapters(has, n)[k] <= Books.LastChapter
    ensures InTheirParts(ChaptersUpTo(has, n)) + InTheirParts(PartChapters(has, n)) == InTheirParts(ChaptersUpTo(has, n + 1))
  {
    PartChaptersTagged(has, n, true);
    ChaptersUpToStep(has, n);
    InTheirPartsAppend(ChaptersUpTo(has, n), PartChapters(has, n));
  }

  lemma ScanPartsStep(has: nat -> bool, n: nat)
    requires n < |Books.PartSections|
    requires Reads(PartsUpTo(has, n), Position(-1, true), InTheirParts(ChaptersUpTo(has, n)), Position(n - 1, true))
    ensures Reads(PartsUpTo(has, n + 1), Position(-1, true), InTheirParts(ChaptersUpTo(has, n + 1)), Position(n, true))
  {
    PartReads(has, n);
    ScanExtend(PartsUpTo(has, n), PartPieces(has, n), Position(-1, true),
      InTheirParts(ChaptersUpTo(has, n)), InTheirParts(PartChapters(has, n)), Position(n - 1, true), Position(n, true));
    PlacementsStep(has, n);
  }

  /** Every existing chapter, in ascending order, under the part that holds it and inside `main-content`. */
  function ChapterPlacements(has: nat -> bool): seq<Placed>
  {
    InTheirParts(ChaptersUpTo(has, |Books.PartSections|))
  }

  lemma ScanAllParts(has: nat -> bool)
    ensures Reads(PartsUpTo(has, |Books.PartSections|), Position(-1, true), ChapterPlacements(has), Position(5, true))
  {
    ScanParts(has, |Books.PartSections|);
  }

  /** The optional `chapter-break` div for `m`, placed at `part` and inside or outside `main-content`. */
  function PlacedIfExists(m: Matter, story: Story, part: int, inMain: bool): seq<Placed>
  {
    if story.has(SourceFile(m)) then [Placed(m, part, inMain)] else []
  }

  /**
   * The document read in order: dedication and foreword inside
   * `main-content` before any part title, every existing chapter in
   * ascending order under its own part's title, then the back matter after
   * `main-content` is closed.
   */
  lemma BookScan(story: Story)
    ensures Scan(BookPieces(story), Start) ==
      PlacedIfExists(Dedication, story, -1, true) + PlacedIfExists(Foreword, story, -1, true)
      + ChapterPlacements(ChapterExists(story))
      + PlacedIfExists(Epilogue, story, 5, false) + PlacedIfExists(Acknowledgments, story, 5, false)
      + PlacedIfExists(AboutAuthor, story, 5, false)
  {
    var inside := Position(-1, true);
    var outside := Position(5, false);
    ScanOptional(Dedication, story, inside);
    ScanOptional(Foreword, story, inside);
    ScanOptional(Epilogue, story, outside);
    ScanOptional(Acknowledgments, story, outside);
    ScanOptional(AboutAuthor, story, outside);
    ScanAllParts(ChapterExists(story));
    ScanFront();
    ScanDocument(FrontPieces, PartsUpTo(ChapterExists(story), |Books.PartSections|),
      Optional(Dedication, story), Optional(Foreword, story),
      Optional(Epilogue, story), Optional(Acknowledgments, story), Optional(AboutAuthor, story),
      PlacedIfExists(Dedication, story, -1, true), PlacedIfExists(Foreword, story, -1, true),
      ChapterPlacements(ChapterExists(story)),
      PlacedIfExists(Epilogue, story, 5, false), PlacedIfExists(Acknowledgments, story, 5, false),
      PlacedIfExists(AboutAuthor, story, 5, false));
  }

  /** The document read in order, given what each optional div gives where it stands. */
  lemma ScanDocument(front: seq<Piece>, ps: seq<Piece>, d: seq<Piece>, f: seq<Piece>, e: seq<Piece>, a: seq<Piece>, b: seq<Piece>,
                     sd: seq<Placed>, sf: seq<Placed>, sp: seq<Placed>, se: seq<Placed>, sa: seq<Placed>, sb: seq<Placed>)
    requires Reads(front, Start, [], Position(-1, true))
    requires Reads(d, Position(-1, true), sd, Position(-1, true))
    requires Reads(f, Position(-1, true), sf, Position(-1, true))
    requires Reads(ps, Position(-1, true), sp, Position(5, true))
    requires Reads(e, Position(5, false), se, Position(5, false))
    requires Reads(a, Position(5, false), sa, Position(5, false))
    requires Reads(b, Position(5, false), sb, Position(5, false))
    ensures Scan(front + d + f + ps + [CloseMain] + e + a + b + [Tail], Start) == sd + sf + sp + se + sa + sb
  {
    var inside := Position(-1, true);
    var outside := Position(5, false);
    var x := front + d;
    assert Reads(x, Start, sd, inside) by {
      ScanExtend(front, d, Start, [], sd, inside, inside);
    }
    var y := x + f;
    assert Reads(y, Start, sd + sf, inside) by {
      ScanExtend(x, f, Start, sd, sf, inside, inside);
    }
    x := y + ps;
    assert Reads(x, Start, sd + sf + sp, Position(5, true)) by {
      ScanExtend(y, ps, Start, sd + sf, sp, inside, Position(5, true));
    }
    y := x + [CloseMain];
    assert Reads(y, Start, sd + sf + sp, outside) by {
      assert Reads([CloseMain], Position(5, true), [], outside) by { assert [CloseMain][1..] == []; }
      ScanExtend(x, [CloseMain], Start, sd + sf + sp, [], Position(5, true), outside);
    }
    x := y + e;
    assert Reads(x, Start, sd + sf + sp + se, outside) by {
      ScanExtend(y, e, Start, sd + sf + sp, se, outside, outside);
    }
    y := x + a;
    assert Reads(y, Start, sd + sf + sp + se + sa, outside) by {
      ScanExtend(x, a, Start, sd + sf + sp + se, sa, outside, outside);
    }
    x := y + b;
    assert Reads(x, Start, sd + sf + sp + se + sa + sb, outside) by {
      ScanExtend(y, b, Start, sd + sf + sp + se + sa, sb, outside, outside);
    }
    assert Reads([Tail], outside, [], outside) by { assert [Tail][1..] == []; }
    ScanExtend(x, [Tail], Start, sd + sf + sp + se + sa + sb, [], outside, outside);
  }


  /** The fixed opening pages hold no `chapter-break` div and leave `main-content` open. */
  lemma ScanFront()
    ensures Reads(FrontPieces, Start, [], Position(-1, true))
  {
    assert FrontPieces[1..][1..][1..][1..][1..] == [];
  }

  /** Reading `pcs` from `pos` finds the divs `found` and ends at `end`. */
  predicate Reads(pcs: seq<Piece>, pos: Position, found: seq<Placed>, end: Position)
  {
    Scan(pcs, pos) == found && After(pcs, pos) == end
  }

  /** Reading `x` then `y`, given what each gives on its own. */
  lemma ScanExtend(x: seq<Piece>, y: seq<Piece>, pos: Position, sx: seq<Placed>, sy: seq<Placed>, mid: Position, end: Position)
    requires Reads(x, pos, sx, mid) && Reads(y, mid, sy, end)
    ensures Reads(x + y, pos, sx + sy, end)
  {
    ScanAppend(x, y, pos);
  }


  // ----- what the reading shows -------------------------------------------------

  /** Chapters in ascending order, placed in their own parts inside `main-content`, keep their order and are each found once. */
  lemma InTheirPartsInOrder(ns: seq<nat>)
    requires forall k | 0 <= k < |ns| :: Books.FirstChapter <= ns[k] <= Books.LastChapter
    requires forall a, b | 0 <= a < b < |ns| :: ns[a] < ns[b]
    ensures forall k | 0 <= k < |ns| ::
      InTheirParts(ns)[k].matter == Chapter(ns[k]) && InTheirParts(ns)[k].part == Books.PartOf(ns[k]) && InTheirParts(ns)[k].inMain
    ensures forall a, b | 0 <= a < b < |ns| :: InTheirParts(ns)[a].matter.n < InTheirParts(ns)[b].matter.n
    ensures forall n: nat :: (exists k | 0 <= k < |ns| :: InTheirParts(ns)[k].matter == Chapter(n)) <==> n in ns
  {
    forall n: nat | n in ns ensures exists k | 0 <= k < |ns| :: InTheirParts(ns)[k].matter == Chapter(n) {
      var k :| 0 <= k < |ns| && ns[k] == n;
      assert InTheirParts(ns)[k].matter == Chapter(n);
    }
  }

  /** Each placed chapter exists and sits under its own part's title, inside `main-content`. */
  lemma PlacementsInParts(has: nat -> bool)
    ensures forall k | 0 <= k < |ChapterPlacements(has)| ::
      var e := ChapterPlacements(has)[k];
      e.matter.Chapter? && Books.FirstChapter <= e.matter.n <= Books.LastChapter && has(e.matter.n)
      && e.part == Books.PartOf(e.matter.n) && e.inMain
  {
    var cs := ChaptersUpTo(has, |Books.PartSections|);
    assert cs == Books.Present(has, Books.FirstChapter, Books.LastChapter);
    InTheirPartsInOrder(cs);
    assert forall k | 0 <= k < |cs| :: has(cs[k]) by {
      forall k | 0 <= k < |cs| ensures has(cs[k]) { assert cs[k] in cs; }
    }
  }

  /** The chapters are placed in ascending order. */
  lemma PlacementsAscending(has: nat -> bool)
    ensures forall a, b | 0 <= a < b < |ChapterPlacements(has)| ::
      ChapterPlacements(has)[a].matter.n < ChapterPlacements(has)[b].matter.n
  {
    var cs := ChaptersUpTo(has, |Books.PartSections|);
    assert cs == Books.Present(has, Books.FirstChapter, Books.LastChapter);
    InTheirPartsInOrder(cs);
  }

  /** A chapter is placed exactly when its file exists. */
  lemma PlacementsExactly(has: nat -> bool)
    ensures forall n: nat ::
      (exists k | 0 <= k < |ChapterPlacements(has)| :: ChapterPlacements(has)[k].matter == Chapter(n))
      <==> (Books.FirstChapter <= n <= Books.LastChapter && has(n))
  {
    var cs := ChaptersUpTo(has, |Books.PartSections|);
    var ps := ChapterPlacements(has);
    assert ps == InTheirParts(cs);
    assert cs == Books.Present(has, Books.FirstChapter, Books.LastChapter);
    InTheirPartsInOrder(cs);
    forall n: nat
      ensures (exists k | 0 <= k < |ps| :: ps[k].matter == Chapter(n)) <==> (Books.FirstChapter <= n <= Books.LastChapter && has(n))
    {
      assert n in cs <==> Books.FirstChapter <= n <= Books.LastChapter && has(n);
    }
  }

  /** Back matter: the sources whose divs come after `main-content` is closed. */
  predicate IsBackMatter(m: Matter)
  {
    m == Epilogue || m == Acknowledgments || m == AboutAuthor
  }

  /**
   * Where a `chapter-break` div belongs: inside `main-content` exactly when
   * its source is not back matter; the dedication and the foreword before any
   * part title; a chapter under its own part's title.
   */
  predicate WellPlaced(e: Placed)
  {
    && (e.inMain <==> !IsBackMatter(e.matter))
    && ((e.matter == Dedication || e.matter == Foreword) ==> e.part == -1)
    && (e.matter.Chapter? ==> Books.FirstChapter <= e.matter.n <= Books.LastChapter && e.part == Books.PartOf(e.matter.n))
  }

  lemma PlacedIfExistsWell(m: Matter, story: Story, part: int, inMain: bool)
    requires WellPlaced(Placed(m, part, inMain))
    ensures forall e | e in PlacedIfExists(m, story, part, inMain) :: WellPlaced(e)
  {
  }

  lemma AllWellPlaced(d: seq<Placed>, f: seq<Placed>, cs: seq<Placed>, x: seq<Placed>, a: seq<Placed>, b: seq<Placed>)
    requires forall e | e in d :: WellPlaced(e)
    requires forall e | e in f :: WellPlaced(e)
    requires forall e | e in cs :: WellPlaced(e)
    requires forall e | e in x :: WellPlaced(e)
    requires forall e | e in a :: WellPlaced(e)
    requires forall e | e in b :: WellPlaced(e)
    ensures forall e | e in d + f + cs + x + a + b :: WellPlaced(e)
  {
  }

  lemma ChapterWellPlaced(e: Placed)
    requires e.matter.Chapter? && Books.FirstChapter <= e.matter.n <= Books.LastChapter
    requires e.part == Books.PartOf(e.matter.n) && e.inMain
    ensures WellPlaced(e)
  {
  }

  lemma ChapterPlacementWell(has: nat -> bool, k: nat)
    requires k < |ChapterPlacements(has)|
    ensures WellPlaced(ChapterPlacements(has)[k])
  {
    PlacementsInParts(has);
    ChapterWellPlaced(ChapterPlacements(has)[k]);
  }

  lemma ChapterPlacementsWell(has: nat -> bool)
    ensures forall e | e in ChapterPlacements(has) :: WellPlaced(e)
  {
    var ps := ChapterPlacements(has);
    forall e | e in ps ensures WellPlaced(e) {
      var k :| 0 <= k < |ps| && ps[k] == e;
      ChapterPlacementWell(has, k);
    }
  }

  /** What the reading of the whole document finds is all well placed. */
  lemma ReadingWellPlaced(story: Story, s: seq<Placed>)
    requires s ==
      PlacedIfExists(Dedication, story, -1, true) + PlacedIfExists(Foreword, story, -1, true)
      + ChapterPlacements(ChapterExists(story))
      + PlacedIfExists(Epilogue, story, 5, false) + PlacedIfExists(Acknowledgments, story, 5, false)
      + PlacedIfExists(AboutAuthor, story, 5, false)
    ensures forall e | e in s :: WellPlaced(e)
  {
    var has := ChapterExists(story);
    ChapterPlacementsWell(has);
    PlacedIfExistsWell(Dedication, story, -1, true);
    PlacedIfExistsWell(Foreword, story, -1, true);
    PlacedIfExistsWell(Epilogue, story, 5, false);
    PlacedIfExistsWell(Acknowledgments, story, 5, false);
    PlacedIfExistsWell(AboutAuthor, story, 5, false);
    AllWellPlaced(PlacedIfExists(Dedication, story, -1, true), PlacedIfExists(Foreword, story, -1, true),
      ChapterPlacements(has), PlacedIfExists(Epilogue, story, 5, false),
      PlacedIfExists(Acknowledgments, story, 5, false), PlacedIfExists(AboutAuthor, story, 5, false));
  }

  /** Every `chapter-break` div of the document is where it belongs. */
  lemma MainContent(story: Story)
    ensures forall e | e in Scan(BookPieces(story), Start) :: WellPlaced(e)
  {
    BookScan(story);
    ReadingWellPlaced(story, Scan(BookPieces(story), Start));
  }

  // ----- the part title divs ------------------------------------------------------

  /** The parts whose title divs `pcs` holds, in order. */
  function PartTitlesOf(pcs: seq<Piece>): seq<nat>
  {
    if pcs == [] then []
    else (if pcs[0].PartTitleDiv? then [pcs[0].p] else []) + PartTitlesOf(pcs[1..])
  }

  lemma {:induction false} PartTitlesAppend(a: seq<Piece>, b: seq<Piece>)
    ensures PartTitlesOf(a + b) == PartTitlesOf(a) + PartTitlesOf(b)
    decreases |a|
  {
    if a != [] {
      assert (a + b)[1..] == a[1..] + b;
      PartTitlesAppend(a[1..], b);
    } else {
      assert a + b == b;
    }
  }

  lemma {:induction false} NoTitlesAmongChapters(ns: seq<nat>)
    ensures PartTitlesOf(ChapterBreaks(ns)) == []
    decreases |ns|
  {
    if ns != [] {
      assert ChapterBreaks(ns)[1..] == ChapterBreaks(ns[1..]);
      NoTitlesAmongChapters(ns[1..]);
    }
  }

  /** The numbers `0..n - 1`. */
  function UpTo(n: nat): (r: seq<nat>)
    ensures |r| == n && forall k | 0 <= k < n :: r[k] == k
  {
    if n == 0 then [] else UpTo(n - 1) + [n - 1]
  }

  lemma {:induction false} PartTitlesInParts(has: nat -> bool, n: nat)
    requires n <= |Books.PartSections|
    ensures PartTitlesOf(PartsUpTo(has, n)) == UpTo(n)
  {
    if n > 0 {
      PartTitlesInParts(has, n - 1);
      PartTitlesAppend(PartsUpTo(has, n - 1), PartPieces(has, n - 1));
      OnePartTitle(has, n - 1);
    }
  }

  /** A part's pieces hold its own title div and no other. */
  lemma {:induction false} OnePartTitle(has: nat -> bool, p: nat)
    requires p < |Books.PartSections|
    ensures PartTitlesOf(PartPieces(has, p)) == [p]
  {
    var pcs := PartPieces(has, p);
    assert pcs[1..] == ChapterBreaks(PartChapters(has, p));
    NoTitlesAmongChapters(PartChapters(has, p));
    assert [p] + [] == [p];
  }

  /** Exactly six part title divs, in part order, whichever chapter files exist. */
  lemma BookPartTitles(story: Story)
    ensures PartTitlesOf(BookPieces(story)) == [0, 1, 2, 3, 4, 5]
  {
    var ps := PartsUpTo(ChapterExists(story), |Books.PartSections|);
    assert PartTitlesOf(ps) == [0, 1, 2, 3, 4, 5] by {
      PartTitlesInParts(ChapterExists(story), |Books.PartSections|);
      SixParts();
    }
    FixedPiecesHaveNoTitle();
    OptionalHasNoTitle(Dedication, story);
    OptionalHasNoTitle(Foreword, story);
    OptionalHasNoTitle(Epilogue, story);
    OptionalHasNoTitle(Acknowledgments, story);
    OptionalHasNoTitle(AboutAuthor, story);
    TitlesDocument(FrontPieces, Optional(Dedication, story), Optional(Foreword, story), ps,
      Optional(Epilogue, story), Optional(Acknowledgments, story), Optional(AboutAuthor, story));
  }

  lemma SixParts()
    ensures UpTo(|Books.PartSections|) == [0, 1, 2, 3, 4, 5]
  {
  }

  lemma FixedPiecesHaveNoTitle()
    ensures PartTitlesOf(FrontPieces) == [] && PartTitlesOf([CloseMain]) == [] && PartTitlesOf([Tail]) == []
  {
    assert FrontPieces[1..][1..][1..][1..][1..] == [];
    assert [CloseMain][1..] == [] && [Tail][1..] == [];
  }

  lemma OptionalHasNoTitle(m: Matter, story: Story)
    ensures PartTitlesOf(Optional(m, story)) == []
  {
    if story.has(SourceFile(m)) {
      assert Optional(m, story)[1..] == [];
    }
  }

  lemma TitlesDocument(front: seq<Piece>, d: seq<Piece>, f: seq<Piece>, ps: seq<Piece>, e: seq<Piece>, a: seq<Piece>, b: seq<Piece>)
    requires PartTitlesOf(front) == [] && PartTitlesOf(d) == [] && PartTitlesOf(f) == []
    requires PartTitlesOf(e) == [] && PartTitlesOf(a) == [] && PartTitlesOf(b) == []
    requires PartTitlesOf([CloseMain]) == [] && PartTitlesOf([Tail]) == []
    ensures PartTitlesOf(front + d + f + ps + [CloseMain] + e + a + b + [Tail]) == PartTitlesOf(ps)
  {
    var t := PartTitlesOf(ps);
    var x := front + d;
    assert PartTitlesOf(x) == [] by { PartTitlesAppend(front, d); }
    var y := x + f;
    assert PartTitlesOf(y) == [] by { PartTitlesAppend(x, f); }
    x := y + ps;
    assert PartTitlesOf(x) == t by { PartTitlesAppend(y, ps); }
    y := x + [CloseMain];
    assert PartTitlesOf(y) == t by { PartTitlesAppend(x, [CloseMain]); }
    x := y + e;
    assert PartTitlesOf(x) == t by { PartTitlesAppend(y, e); }
    y := x + a;
    assert PartTitlesOf(y) == t by { PartTitlesAppend(x, a); }
    x := y + b;
    assert PartTitlesOf(x) == t by { PartTitlesAppend(y, b); }
    PartTitlesAppend(x, [Tail]);
  }

  // ----- build_pdf_book -----------------------------------------------------------

  /** Where the book is written. */
  const PdfOutput: string := "dist/digital_amber.pdf"

  /**
   * What publishing `html` leaves behind: the PDF exactly when rendering
   * succeeded, the files otherwise untouched, and no temporary file.
   */
  predicate Published(files: map<string, string>, temp: string, html: string, render: string -> Option<string>,
                      files': map<string, string>, ok: bool)
  {
    && (ok <==> render(html).Some?)
    && temp !in files'
    && (ok ==> files' == files[PdfOutput := render(html).value])
    && (!ok ==> files' == files)
  }

  /**
   * The document `html` is written to a fresh temporary file, WeasyPrint
   * renders it (`render` gives `None` when it raises), and the temporary file
   * is removed whether or not rendering succeeded.
   */
  method RenderThroughTemp(files: map<string, string>, temp: string, html: string, render: string -> Option<string>)
    returns (files': map<string, string>, ok: bool)
    requires temp !in files && temp != PdfOutput
    ensures Published(files, temp, html, render, files', ok)
  {
    files' := files[temp := html];
    var pdf := render(files'[temp]);
    ok := pdf.Some?;
    if ok {
      files' := files'[PdfOutput := pdf.value];
    }
    files' := files' - {temp};
  }

  /** `build_pdf_book`: the whole document rendered to the PDF through a temporary file. */
  method BuildPdfBook(story: Story, files: map<string, string>, temp: string, render: string -> Option<string>)
    returns (files': map<string, string>, ok: bool)
    requires temp !in files && temp != PdfOutput
    ensures Published(files, temp, FullHtml(story), render, files', ok)
  {
    var htmlContent := CreateFullHtml(story);
    files', ok := RenderThroughTemp(files, temp, htmlContent, render);
  }

  /** `[m]` when `m`'s file exists, otherwise nothing. */
  function OptFile(m: Matter, has: string -> bool): (r: seq<Matter>)
    ensures r == [] || r == [m]
    ensures r != [] <==> has(SourceFile(m))
  {
    if has(SourceFile(m)) then [m] else []
  }

  /** Whether chapter `n`'s file exists. */
  function ChapterHas(has: string -> bool): nat -> bool
  {
    (n: nat) => has(SourceFile(Chapter(n)))
  }

  function ChapterFiles(ns: seq<nat>): (r: seq<Matter>)
    ensures |r| == |ns|
    ensures forall k | 0 <= k < |r| :: r[k] == Chapter(ns[k])
  {
    seq(|ns|, k requires 0 <= k < |ns| => Chapter(ns[k]))
  }

  /** `m` is in `OptFile(o, has)` exactly when it is `o` and `o`'s file exists. */
  lemma {:induction false} InOptFile(m: Matter, o: Matter, has: string -> bool)
    ensures m in OptFile(o, has) <==> m == o && has(SourceFile(o))
  {
  }

  /** A chapter is among the existing chapters exactly when it is numbered 1 to 24 and its file exists. */
  lemma {:induction false} InChapterFiles(m: Matter, has: string -> bool)
    ensures m in ChapterFiles(Books.Present(ChapterHas(has), Books.FirstChapter, Books.LastChapter))
        <==> m.Chapter? && Books.FirstChapter <= m.n <= Books.LastChapter && has(SourceFile(m))
  {
    var ns := Books.Present(ChapterHas(has), Books.FirstChapter, Books.LastChapter);
    var cs := ChapterFiles(ns);
    if m in cs {
      var k :| 0 <= k < |cs| && cs[k] == m;
      assert ns[k] in ns;
    }
    if m.Chapter? && m.n in ns {
      var k :| 0 <= k < |ns| && ns[k] == m.n;
      assert cs[k] == m;
    }
    if m.Chapter? {
      assert ChapterHas(has)(m.n) == has(SourceFile(m));
    }
  }
}
