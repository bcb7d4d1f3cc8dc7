/**
 * `scripts/build_kindle.py`: the Word document uploaded to Amazon KDP.
 * The document is a list of blocks (paragraphs with a named style, and page
 * breaks) that the script appends to one by one. Markdown is converted line by
 * line: each line becomes exactly one paragraph. The `##` and `###` lines
 * restyle the document's shared `Normal` style rather than their own
 * paragraph, so the last such line of the whole book decides how every
 * `Normal` paragraph looks.
 */
module Kindle {
  import opened Wrappers
  import opened Seqs
  import opened Text
  import opened MarkdownRegex
  import Books
  import Pdf

  /** The paragraph styles the document defines, plus Word's own `Normal`. */
  datatype Style = Normal | BookTitle | BookSubtitle | BookAuthor | ChapterHeading | BookBody

  datatype Block = Paragraph(text: string, style: Style) | PageBreak

  /** Font size, weight and spacing (in points) a sub-heading gives the `Normal` style. */
  datatype Format = Format(size: nat, bold: bool, spaceBefore: nat, spaceAfter: nat)

  const SubHeading := Format(14, true, 18, 12)
  const MinorHeading := Format(12, true, 12, 6)

  const KindleOutput := "dist/digital_amber_kindle.docx"

  /** The document being built: its blocks, and the `Normal` style as last restyled. */
  class KindleDoc {
    var blocks: seq<Block>
    var normal: Option<Format>

    constructor ()
      ensures blocks == [] && normal == None
    {
      blocks := [];
      normal := None;
    }

    method AddParagraph(text: string, style: Style)
      modifies this
      ensures blocks == old(blocks) + [Paragraph(text, style)]
      ensures normal == old(normal)
    {
      blocks := blocks + [Paragraph(text, style)];
    }

    method AddPageBreak()
      modifies this
      ensures blocks == old(blocks) + [PageBreak]
      ensures normal == old(normal)
    {
      blocks := blocks + [PageBreak];
    }

    /** Changes the shared `Normal` style, and with it every `Normal` paragraph. */
    method RestyleNormal(f: Format)
      modifies this
      ensures normal == Some(f)
      ensures blocks == old(blocks)
    {
      normal := Some(f);
    }
  }

  // ----- one line of markdown -----

  /** Bold markers are removed first, then italic ones; the text between them stays. */
  function Unmarked(line: string): string
  {
    SubPaired(SubPaired(line, "**", "", ""), "*", "", "")
  }

  /** The paragraph a line with its surrounding whitespace removed becomes. */
  function StrippedBlock(line: string): (r: Block)
    ensures r.Paragraph?
  {
    if line == [] then Paragraph("", Normal)
    else if StartsWith(line, "# ") then Paragraph(line[2..], ChapterHeading)
    else if StartsWith(line, "## ") then Paragraph(line[3..], Normal)
    else if StartsWith(line, "### ") then Paragraph(line[4..], Normal)
    else Paragraph(Unmarked(line), BookBody)
  }

  /** How a stripped line restyles the `Normal` style, if it does. */
  function StrippedFormat(line: string): Option<Format>
  {
    if line == [] || StartsWith(line, "# ") then None
    else if StartsWith(line, "## ") then Some(SubHeading)
    else if StartsWith(line, "### ") then Some(MinorHeading)
    else None
  }

  /** The paragraph one line of markdown becomes. */
  function LineBlock(raw: string): (r: Block)
    ensures r.Paragraph?
  {
    StrippedBlock(Strip(raw))
  }

  /** How one line restyles the `Normal` style, if it does. */
  function LineFormat(raw: string): Option<Format>
  {
    StrippedFormat(Strip(raw))
  }

  /** The paragraphs of a run of lines, one per line, in order. */
  function Blocks(lines: seq<string>): (r: seq<Block>)
    ensures |r| == |lines|
    ensures forall k | 0 <= k < |r| :: r[k] == LineBlock(lines[k])
  {
    seq(|lines|, k requires 0 <= k < |lines| => LineBlock(lines[k]))
  }

  /** The `Normal` style after a run of lines, starting from `f`. */
  function NormalAfter(lines: seq<string>, f: Option<Format>): Option<Format>
  {
    if lines == [] then f
    else
      match LineFormat(lines[|lines| - 1])
      case Some(g) => Some(g)
      case None => NormalAfter(lines[..|lines| - 1], f)
  }

  function Lines(content: string): seq<string>
  {
    Split(content, "\n")
  }

  /** Appends the paragraph for one line, restyling `Normal` for a sub-heading. */
  method ProcessLine(raw: string, doc: KindleDoc)
    modifies doc
    ensures doc.blocks == old(doc.blocks) + [LineBlock(raw)]
    ensures doc.normal == NormalAfter([raw], old(doc.normal))
  {
    var line := Strip(raw);
    if line == [] {
      doc.AddParagraph("", Normal);
      return;
    }
    if StartsWith(line, "# ") {
      doc.AddParagraph(line[2..], ChapterHeading);
    } else if StartsWith(line, "## ") {
      doc.AddParagraph(line[3..], Normal);
      doc.RestyleNormal(SubHeading);
    } else if StartsWith(line, "### ") {
      doc.AddParagraph(line[4..], Normal);
      doc.RestyleNormal(MinorHeading);
    } else {
      line := SubPaired(line, "**", "", "");
      line := SubPaired(line, "*", "", "");
      doc.AddParagraph(line, BookBody);
    }
  }

  /** `process_markdown_to_docx`: every line of `content`, in order. */
  method ProcessMarkdown(content: string, doc: KindleDoc)
    modifies doc
    ensures doc.blocks == old(doc.blocks) + Blocks(Lines(content))
    ensures doc.normal == NormalAfter(Lines(content), old(doc.normal))
  {
    var lines := Split(content, "\n");
    var i := 0;
    while i < |lines|
      invariant 0 <= i <= |lines|
      invariant doc.blocks == old(doc.blocks) + Blocks(lines[..i])
      invariant doc.normal == NormalAfter(lines[..i], old(doc.normal))
    {
      ghost var before := doc.blocks;
      ProcessLine(lines[i], doc);
      BlocksStep(lines, i, old(doc.blocks));
      NormalStep(lines, i, old(doc.normal));
      i := i + 1;
    }
    SliceWhole(lines);
  }

  lemma {:induction false} BlocksStep(lines: seq<string>, i: nat, start: seq<Block>)
    requires i < |lines|
    ensures start + Blocks(lines[..i + 1]) == (start + Blocks(lines[..i])) + [LineBlock(lines[i])]
  {
    var a, b := Blocks(lines[..i]), Blocks(lines[..i + 1]);
    forall k | 0 <= k < |a| ensures b[k] == a[k] {
      assert lines[..i + 1][k] == lines[..i][k];
    }
    Snoc(a, b, LineBlock(lines[i]));
    ConcatAssoc(start, a, [LineBlock(lines[i])]);
  }

  lemma {:induction false} NormalStep(lines: seq<string>, i: nat, f: Option<Format>)
    requires i < |lines|
    ensures NormalAfter(lines[..i + 1], f) == NormalAfter([lines[i]], NormalAfter(lines[..i], f))
  {
    assert lines[..i + 1][..i] == lines[..i];
    assert lines[..i + 1][i] == lines[i];
    assert [lines[i]][..0] == [];
  }

  // ----- properties of the line conversion -----

  /** A blank line gives an empty `Normal` paragraph and leaves the style alone. */
  lemma {:induction false} BlankLine(raw: string)
    requires IsBlank(raw)
    ensures LineBlock(raw) == Paragraph("", Normal)
    ensures LineFormat(raw) == None
  {
  }

  /** A line with no surrounding whitespace is taken as it is. */
  lemma {:induction false} TrimmedLine(line: string)
    requires Trimmed(line)
    ensures LineBlock(line) == StrippedBlock(line)
    ensures LineFormat(line) == StrippedFormat(line)
  {
    StripTrimmed(line);
  }

  /** Surrounding whitespace is dropped before the line is looked at. */
  lemma {:induction false} StrippedFirst(raw: string)
    ensures LineBlock(raw) == LineBlock(Strip(raw))
    ensures LineFormat(raw) == LineFormat(Strip(raw))
  {
    TrimmedLine(Strip(raw));
  }

  /** `# t` is a chapter heading reading `t`. */
  lemma {:induction false} ChapterHeadingLine(t: string)
    requires t != [] && Trimmed(t)
    ensures LineBlock("# " + t) == Paragraph(t, ChapterHeading)
    ensures LineFormat("# " + t) == None
  {
    var s := "# " + t;
    assert s[..2] == "# " && s[2..] == t;
    TrimmedLine(s);
  }

  /** `## t` is a `Normal` paragraph reading `t` that restyles `Normal` as a sub-heading. */
  lemma {:induction false} SubHeadingLine(t: string)
    requires t != [] && Trimmed(t)
    ensures LineBlock("## " + t) == Paragraph(t, Normal)
    ensures LineFormat("## " + t) == Some(SubHeading)
  {
    var s := "## " + t;
    assert s[..3] == "## " && s[3..] == t && s[1] == '#';
    assert StrippedBlock(s) == Paragraph(t, Normal) && StrippedFormat(s) == Some(SubHeading);
    PrefixedTrimmed("## ", t);
    TrimmedLine(s);
  }

  /** `### t` is a `Normal` paragraph reading `t` that restyles `Normal` as a minor heading. */
  lemma {:induction false} MinorHeadingLine(t: string)
    requires t != [] && Trimmed(t)
    ensures LineBlock("### " + t) == Paragraph(t, Normal)
    ensures LineFormat("### " + t) == Some(MinorHeading)
  {
    var s := "### " + t;
    MinorHeadingStripped(t);
    PrefixedTrimmed("### ", t);
    TrimmedLine(s);
  }

  lemma {:induction false} MinorHeadingStripped(t: string)
    ensures StrippedBlock("### " + t) == Paragraph(t, Normal)
    ensures StrippedFormat("### " + t) == Some(MinorHeading)
  {
    var s := "### " + t;
    assert s[..4] == "### " && s[4..] == t && s[1] == '#' && s[2] == '#';
  }

  /** A marker that starts with a non-space, followed by a trimmed non-empty text, is trimmed. */
  lemma {:induction false} PrefixedTrimmed(p: string, t: string)
    requires p != [] && !IsSpace(p[0]) && t != [] && Trimmed(t)
    ensures Trimmed(p + t)
  {
    var s := p + t;
    assert s[0] == p[0] && s[|s| - 1] == t[|t| - 1];
  }

  /** Deeper headings are not recognised: they are body text, hashes included. */
  lemma {:induction false} DeepHeadingIsBody(t: string)
    requires t != [] && Trimmed(t)
    ensures LineBlock("#### " + t).style == BookBody
    ensures LineFormat("#### " + t) == None
  {
    var s := "#### " + t;
    assert s[..2] != "# " && s[..3] != "## " && s[..4] != "### " by {
      assert s[1] == '#' && s[2] == '#' && s[3] == '#';
    }
    assert StrippedBlock(s).style == BookBody && StrippedFormat(s) == None;
    PrefixedTrimmed("#### ", t);
    TrimmedLine(s);
  }

  /** Text with no doubled delimiter character is left alone by the bold pass. */
  lemma {:induction false} NoBoldPair(s: string)
    requires forall i | 0 <= i < |s| :: !StartsWith(s[i..], "**")
    ensures SubPaired(s, "**", "", "") == s
    decreases |s|
  {
    if s != [] {
      assert s[0..] == s;
      forall i | 0 <= i < |s[1..]| ensures !StartsWith(s[1..][i..], "**") {
        assert s[1..][i..] == s[i + 1..];
      }
      NoBoldPair(s[1..]);
      assert [s[0]] + s[1..] == s;
    }
  }

  /** A line that does not open with `#` is body text, with its emphasis markers removed. */
  lemma {:induction false} BodyLine(s: string)
    requires s != [] && Trimmed(s) && s[0] != '#'
    ensures LineBlock(s) == Paragraph(Unmarked(s), BookBody)
    ensures LineFormat(s) == None
  {
    assert !StartsWith(s, "# ") && !StartsWith(s, "## ") && !StartsWith(s, "### ");
    TrimmedLine(s);
  }

  lemma {:induction false} UnmarkedBold(x: string)
    requires x != [] && '\n' !in x && '*' !in x
    ensures Unmarked("**" + x + "**") == x
  {
    var s := "**" + x + "**";
    SubPairedSpan(x, "**", "", "", "");
    assert s == "**" + x + "**" + "";
    assert SubPaired(s, "**", "", "") == x by {
      assert SubPaired("", "**", "", "") == "";
      assert "" + x + "" + "" == x;
    }
    SubPairedAbsent(x, "*", "", "");
  }

  lemma {:induction false} UnmarkedItalic(x: string)
    requires x != [] && '\n' !in x && '*' !in x
    ensures Unmarked("*" + x + "*") == x
  {
    var s := "*" + x + "*";
    NoBoldInItalic(x);
    assert Unmarked(s) == SubPaired(s, "*", "", "");
    assert s == "*" + x + "*" + "";
    SubPairedSpan(x, "*", "", "", "");
    assert SubPaired("", "*", "", "") == "";
    assert "" + x + "" + "" == x;
  }

  /** A text between single stars holds no pair of stars. */
  lemma {:induction false} NoBoldInItalic(x: string)
    requires x != [] && '*' !in x
    ensures SubPaired("*" + x + "*", "**", "", "") == "*" + x + "*"
  {
    var s := "*" + x + "*";
    forall i | 0 <= i < |s| ensures !StartsWith(s[i..], "**") {
      if i == 0 {
        assert s[1] == x[0];
      } else if i <= |x| {
        assert s[i] == x[i - 1];
      }
    }
    NoBoldPair(s);
  }

  /** A whole line in bold comes out as its text, in the body style. */
  lemma {:induction false} BoldLine(x: string)
    requires x != [] && '\n' !in x && '*' !in x
    ensures LineBlock("**" + x + "**") == Paragraph(x, BookBody)
  {
    var s := "**" + x + "**";
    assert s[0] == '*' && s[|s| - 1] == '*';
    BodyLine(s);
    UnmarkedBold(x);
  }

  /** A whole line in italics comes out as its text, in the body style. */
  lemma {:induction false} ItalicLine(x: string)
    requires x != [] && '\n' !in x && '*' !in x
    ensures LineBlock("*" + x + "*") == Paragraph(x, BookBody)
  {
    var s := "*" + x + "*";
    assert s[0] == '*' && s[|s| - 1] == '*';
    BodyLine(s);
    UnmarkedItalic(x);
  }

  /** A run of lines that restyles nothing leaves `Normal` as it was. */
  lemma {:induction false} NormalUntouched(lines: seq<string>, f: Option<Format>)
    requires forall k | 0 <= k < |lines| :: LineFormat(lines[k]) == None
    ensures NormalAfter(lines, f) == f
  {
    if lines != [] {
      NormalUntouched(lines[..|lines| - 1], f);
    }
  }

  /** Styling carries over from one run of lines to the next. */
  lemma {:induction false} NormalAfterAppend(a: seq<string>, b: seq<string>, f: Option<Format>)
    ensures NormalAfter(a + b, f) == NormalAfter(b, NormalAfter(a, f))
  {
    if b != [] {
      assert (a + b)[..|a + b| - 1] == a + b[..|b| - 1];
      NormalAfterAppend(a, b[..|b| - 1], f);
    } else {
      assert a + b == a;
    }
  }

  /** The last sub-heading wins: after it, only later sub-headings matter. */
  lemma {:induction false} LastSubHeadingWins(a: seq<string>, h: string, b: seq<string>, f: Option<Format>)
    requires LineFormat(h).Some?
    requires forall k | 0 <= k < |b| :: LineFormat(b[k]) == None
    ensures NormalAfter(a + [h] + b, f) == LineFormat(h)
  {
    NormalAfterAppend(a + [h], b, f);
    NormalUntouched(b, NormalAfter(a + [h], f));
  }

  // ----- the book -----

  const TitlePage: seq<Block> := [
    Paragraph("Digital Amber", BookTitle),
    Paragraph("When Consciousness Becomes Code", BookSubtitle),
    Paragraph("", Normal),
    Paragraph("", Normal),
    Paragraph("A Speculative Exploration of AI, Identity, and the Future of Mind", BookSubtitle),
    Paragraph("", Normal),
    Paragraph("", Normal),
    Paragraph("", Normal),
    Paragraph("By Charles Watkins", BookAuthor),
    PageBreak
  ]

  /** The copyright line keeps the two characters a mis-decoded copyright sign became. */
  const CopyrightPage: seq<Block> := [
    Paragraph("Copyright \U{C2}\U{A9} 2025 Charles Watkins", BookBody),
    Paragraph("All rights reserved", BookBody),
    Paragraph("First Digital Edition", BookBody),
    PageBreak
  ]

  const FrontPages: seq<Block> := TitlePage + CopyrightPage

  /** Every section but the last, in reading order, each only when its file exists. */
  function MainSections(has: string -> bool): seq<Pdf.Matter>
  {
    Pdf.OptFile(Pdf.Dedication, has) + Pdf.OptFile(Pdf.Foreword, has)
    + Pdf.ChapterFiles(Books.Present(Pdf.ChapterHas(has), Books.FirstChapter, Books.LastChapter))
    + Pdf.OptFile(Pdf.Epilogue, has) + Pdf.OptFile(Pdf.Acknowledgments, has)
  }

  function Sections(has: string -> bool): seq<Pdf.Matter>
  {
    MainSections(has) + Pdf.OptFile(Pdf.AboutAuthor, has)
  }

  /** A section's paragraphs, then a page break unless it is the closing one. */
  function SectionBlocks(m: Pdf.Matter, read: string -> string): (r: seq<Block>)
    ensures r != []
  {
    Blocks(Lines(read(Pdf.SourceFile(m)))) + (if m == Pdf.AboutAuthor then [] else [PageBreak])
  }

  function SectionsBlocks(ms: seq<Pdf.Matter>, read: string -> string): seq<Block>
  {
    if ms == [] then []
    else SectionsBlocks(ms[..|ms| - 1], read) + SectionBlocks(ms[|ms| - 1], read)
  }

  /** Every line the sections contribute, in order. */
  function SectionsLines(ms: seq<Pdf.Matter>, read: string -> string): seq<string>
  {
    if ms == [] then []
    else SectionsLines(ms[..|ms| - 1], read) + Lines(read(Pdf.SourceFile(ms[|ms| - 1])))
  }

  /** The whole document's blocks. */
  function KindleBlocks(has: string -> bool, read: string -> string): seq<Block>
  {
    FrontPages + SectionsBlocks(Sections(has), read)
  }

  /** The document's `Normal` style when it is saved. */
  function KindleNormal(has: string -> bool, read: string -> string): Option<Format>
  {
    NormalAfter(SectionsLines(Sections(has), read), None)
  }

  /** The document after the given sections, as the build keeps it. */
  predicate Built(doc: KindleDoc, done: seq<Pdf.Matter>, read: string -> string)
    reads doc
  {
    doc.blocks == FrontPages + SectionsBlocks(done, read)
    && doc.normal == NormalAfter(SectionsLines(done, read), None)
  }

  method AddTitlePage(doc: KindleDoc)
    modifies doc
    ensures doc.blocks == old(doc.blocks) + TitlePage
    ensures doc.normal == old(doc.normal)
  {
    ghost var start := doc.blocks;
    doc.AddParagraph("Digital Amber", BookTitle);
    doc.AddParagraph("When Consciousness Becomes Code", BookSubtitle);
    doc.AddParagraph("", Normal);
    doc.AddParagraph("", Normal);
    doc.AddParagraph("A Speculative Exploration of AI, Identity, and the Future of Mind", BookSubtitle);
    assert doc.blocks == start + TitlePage[..5];
    doc.AddParagraph("", Normal);
    doc.AddParagraph("", Normal);
    doc.AddParagraph("", Normal);
    doc.AddParagraph("By Charles Watkins", BookAuthor);
    doc.AddPageBreak();
    assert TitlePage == TitlePage[..5] + TitlePage[5..];
    ConcatAssoc(start, TitlePage[..5], TitlePage[5..]);
  }

  method AddCopyrightPage(doc: KindleDoc)
    modifies doc
    ensures doc.blocks == old(doc.blocks) + CopyrightPage
    ensures doc.normal == old(doc.normal)
  {
    doc.AddParagraph("Copyright \U{C2}\U{A9} 2025 Charles Watkins", BookBody);
    doc.AddParagraph("All rights reserved", BookBody);
    doc.AddParagraph("First Digital Edition", BookBody);
    doc.AddPageBreak();
  }

  /** Converts one section's file and closes it with a page break where the book does. */
  method AddSection(doc: KindleDoc, m: Pdf.Matter, read: string -> string, ghost done: seq<Pdf.Matter>)
    returns (ghost done': seq<Pdf.Matter>)
    requires Built(doc, done, read)
    modifies doc
    ensures done' == done + [m]
    ensures Built(doc, done', read)
  {
    var content := read(Pdf.SourceFile(m));
    ProcessMarkdown(content, doc);
    if m != Pdf.AboutAuthor {
      doc.AddPageBreak();
    }
    done' := done + [m];
    SectionStep(done, m, read);
  }

  lemma {:induction false} SectionStep(done: seq<Pdf.Matter>, m: Pdf.Matter, read: string -> string)
    ensures var content := Lines(read(Pdf.SourceFile(m)));
      && FrontPages + SectionsBlocks(done + [m], read)
         == (FrontPages + SectionsBlocks(done, read)) + Blocks(content) + (if m == Pdf.AboutAuthor then [] else [PageBreak])
      && NormalAfter(SectionsLines(done + [m], read), None)
         == NormalAfter(content, NormalAfter(SectionsLines(done, read), None))
  {
    assert (done + [m])[..|done|] == done;
    var content := Lines(read(Pdf.SourceFile(m)));
    var tail: seq<Block> := if m == Pdf.AboutAuthor then [] else [PageBreak];
    var sb := SectionBlocks(m, read);
    assert SectionsBlocks(done + [m], read) == SectionsBlocks(done, read) + sb;
    assert sb == Blocks(content) + tail;
    ConcatAssoc(FrontPages, SectionsBlocks(done, read), sb);
    ConcatAssoc(FrontPages + SectionsBlocks(done, read), Blocks(content), tail);
    NormalAfterAppend(SectionsLines(done, read), content, None);
  }

  method AddIfExists(doc: KindleDoc, m: Pdf.Matter, has: string -> bool, read: string -> string, ghost done: seq<Pdf.Matter>)
    returns (ghost done': seq<Pdf.Matter>)
    requires Built(doc, done, read)
    modifies doc
    ensures done' == done + Pdf.OptFile(m, has)
    ensures Built(doc, done', read)
  {
    if has(Pdf.SourceFile(m)) {
      done' := AddSection(doc, m, read, done);
    } else {
      done' := done;
    }
  }

  /** `build_kindle_book`: the sections, when their files exist, in reading order. */
  method BuildKindleBook(has: string -> bool, read: string -> string) returns (doc: KindleDoc, path: string)
    ensures fresh(doc)
    ensures doc.blocks == KindleBlocks(has, read)
    ensures doc.normal == KindleNormal(has, read)
    ensures path == KindleOutput
  {
    doc := new KindleDoc();
    AddTitlePage(doc);
    AddCopyrightPage(doc);
    ghost var done: seq<Pdf.Matter> := [];
    assert Built(doc, done, read);
    done := AddIfExists(doc, Pdf.Dedication, has, read, done);
    done := AddIfExists(doc, Pdf.Foreword, has, read, done);
    done := AddChapters(doc, has, read, done);
    done := AddIfExists(doc, Pdf.Epilogue, has, read, done);
    done := AddIfExists(doc, Pdf.Acknowledgments, has, read, done);
    done := AddIfExists(doc, Pdf.AboutAuthor, has, read, done);
    ghost var cs := Pdf.ChapterFiles(Books.Present(Pdf.ChapterHas(has), Books.FirstChapter, Books.LastChapter));
    SixPieces([], Pdf.OptFile(Pdf.Dedication, has), Pdf.OptFile(Pdf.Foreword, has), cs,
              Pdf.OptFile(Pdf.Epilogue, has), Pdf.OptFile(Pdf.Acknowledgments, has), Pdf.OptFile(Pdf.AboutAuthor, has), done);
    SectionsPieces(has);
    path := KindleOutput;
  }

  lemma {:induction false} SixPieces<T>(z: seq<T>, d: seq<T>, f: seq<T>, c: seq<T>, e: seq<T>, a: seq<T>, ab: seq<T>, x: seq<T>)
    requires z == [] && x == z + d + f + c + e + a + ab
    ensures x == d + f + c + e + a + ab
  {
  }

  lemma {:induction false} SectionsPieces(has: string -> bool)
    ensures Sections(has)
         == Pdf.OptFile(Pdf.Dedication, has) + Pdf.OptFile(Pdf.Foreword, has)
            + Pdf.ChapterFiles(Books.Present(Pdf.ChapterHas(has), Books.FirstChapter, Books.LastChapter))
            + Pdf.OptFile(Pdf.Epilogue, has) + Pdf.OptFile(Pdf.Acknowledgments, has) + Pdf.OptFile(Pdf.AboutAuthor, has)
  {
  }

  /** The chapter loop: chapters 1 to 24, each when its file exists. */
  method AddChapters(doc: KindleDoc, has: string -> bool, read: string -> string, ghost front: seq<Pdf.Matter>)
    returns (ghost done: seq<Pdf.Matter>)
    requires Built(doc, front, read)
    modifies doc
    ensures done == front + Pdf.ChapterFiles(Books.Present(Pdf.ChapterHas(has), Books.FirstChapter, Books.LastChapter))
    ensures Built(doc, done, read)
  {
    done := front;
    assert Books.Present(Pdf.ChapterHas(has), Books.FirstChapter, 0) == [];
    assert done == front + Pdf.ChapterFiles([]);
    var i := Books.FirstChapter;
    while i <= Books.LastChapter
      invariant Books.FirstChapter <= i <= Books.LastChapter + 1
      invariant done == front + Pdf.ChapterFiles(Books.Present(Pdf.ChapterHas(has), Books.FirstChapter, i - 1))
      invariant Built(doc, done, read)
    {
      done := AddChapter(doc, has, read, front, done, i);
      i := i + 1;
    }
  }

  /** One pass of the chapter loop. */
  method AddChapter(doc: KindleDoc, has: string -> bool, read: string -> string,
                    ghost front: seq<Pdf.Matter>, ghost done: seq<Pdf.Matter>, i: nat)
    returns (ghost done': seq<Pdf.Matter>)
    requires Books.FirstChapter <= i
    requires done == front + Pdf.ChapterFiles(Books.Present(Pdf.ChapterHas(has), Books.FirstChapter, i - 1))
    requires Built(doc, done, read)
    modifies doc
    ensures done' == front + Pdf.ChapterFiles(Books.Present(Pdf.ChapterHas(has), Books.FirstChapter, i))
    ensures Built(doc, done', read)
  {
    done' := AddIfExists(doc, Pdf.Chapter(i), has, read, done);
    ChapterDone(has, front, done, i);
  }

  /** Adding chapter `i` when its file exists extends the chapters done up to `i - 1` to those up to `i`. */
  lemma {:induction false} ChapterDone(has: string -> bool, front: seq<Pdf.Matter>, done: seq<Pdf.Matter>, i: nat)
    requires Books.FirstChapter <= i
    requires done == front + Pdf.ChapterFiles(Books.Present(Pdf.ChapterHas(has), Books.FirstChapter, i - 1))
    ensures done + Pdf.OptFile(Pdf.Chapter(i), has)
         == front + Pdf.ChapterFiles(Books.Present(Pdf.ChapterHas(has), Books.FirstChapter, i))
  {
    var ns := Books.Present(Pdf.ChapterHas(has), Books.FirstChapter, i - 1);
    var more := if Pdf.ChapterHas(has)(i) then [i] else [];
    Books.ChapterRangeStep(Pdf.ChapterHas(has), i);
    ChaptersSnoc(ns, more);
    assert Pdf.ChapterFiles(more) == Pdf.OptFile(Pdf.Chapter(i), has);
    ConcatAssoc(front, Pdf.ChapterFiles(ns), Pdf.ChapterFiles(more));
  }

  lemma {:induction false} ChaptersSnoc(ns: seq<nat>, more: seq<nat>)
    ensures Pdf.ChapterFiles(ns + more) == Pdf.ChapterFiles(ns) + Pdf.ChapterFiles(more)
  {
  }

  // ----- properties of the book -----

  /** Reading order; chapters sit between the foreword and the epilogue. */
  function Rank(m: Pdf.Matter): nat
  {
    match m
    case Dedication => 0
    case Foreword => 1
    case Chapter(n) => n + 2
    case Epilogue => 27
    case Acknowledgments => 28
    case AboutAuthor => 29
  }

  predicate InOrder(ms: seq<Pdf.Matter>)
  {
    forall a, b | 0 <= a < b < |ms| :: Rank(ms[a]) < Rank(ms[b])
  }

  predicate RanksIn(ms: seq<Pdf.Matter>, lo: nat, hi: nat)
  {
    forall k | 0 <= k < |ms| :: lo <= Rank(ms[k]) <= hi
  }

  lemma {:induction false} JoinInOrder(x: seq<Pdf.Matter>, y: seq<Pdf.Matter>, lo: nat, mid: nat, hi: nat)
    requires InOrder(x) && RanksIn(x, lo, mid)
    requires InOrder(y) && RanksIn(y, mid + 1, hi)
    requires lo <= mid + 1 && mid <= hi
    ensures InOrder(x + y) && RanksIn(x + y, lo, hi)
  {
  }

  /** The sequence of one optional section is in order and ranked where that section belongs. */
  lemma {:induction false} OptRanked(m: Pdf.Matter, has: string -> bool)
    ensures InOrder(Pdf.OptFile(m, has)) && RanksIn(Pdf.OptFile(m, has), Rank(m), Rank(m))
  {
  }

  lemma {:induction false} ChaptersInOrder(ns: seq<nat>)
    requires forall k | 0 <= k < |ns| :: Books.FirstChapter <= ns[k] <= Books.LastChapter
    requires forall a, b | 0 <= a < b < |ns| :: ns[a] < ns[b]
    ensures InOrder(Pdf.ChapterFiles(ns)) && RanksIn(Pdf.ChapterFiles(ns), 3, 26)
  {
  }

  lemma {:induction false} SixInOrder(d: seq<Pdf.Matter>, f: seq<Pdf.Matter>, cs: seq<Pdf.Matter>,
                                      e: seq<Pdf.Matter>, a: seq<Pdf.Matter>, ab: seq<Pdf.Matter>)
    requires InOrder(d) && RanksIn(d, 0, 0) && InOrder(f) && RanksIn(f, 1, 1)
    requires InOrder(cs) && RanksIn(cs, 3, 26)
    requires InOrder(e) && RanksIn(e, 27, 27) && InOrder(a) && RanksIn(a, 28, 28)
    requires InOrder(ab) && RanksIn(ab, 29, 29)
    ensures InOrder(d + f + cs + e + a + ab)
  {
    JoinInOrder(d, f, 0, 0, 1);
    JoinInOrder(d + f, cs, 0, 2, 26);
    JoinInOrder(d + f + cs, e, 0, 26, 27);
    JoinInOrder(d + f + cs + e, a, 0, 27, 28);
    JoinInOrder(d + f + cs + e + a, ab, 0, 28, 29);
  }

  /** The sections come in reading order: dedication, foreword, chapters by number, epilogue, acknowledgements, about the author. */
  lemma {:induction false} SectionsInOrder(has: string -> bool)
    ensures InOrder(Sections(has))
  {
    var ns := Books.Present(Pdf.ChapterHas(has), Books.FirstChapter, Books.LastChapter);
    forall k | 0 <= k < |ns| ensures Books.FirstChapter <= ns[k] <= Books.LastChapter {
      assert ns[k] in ns;
    }
    ChaptersInOrder(ns);
    OptRanked(Pdf.Dedication, has);
    OptRanked(Pdf.Foreword, has);
    OptRanked(Pdf.Epilogue, has);
    OptRanked(Pdf.Acknowledgments, has);
    OptRanked(Pdf.AboutAuthor, has);
    SixInOrder(Pdf.OptFile(Pdf.Dedication, has), Pdf.OptFile(Pdf.Foreword, has), Pdf.ChapterFiles(ns),
               Pdf.OptFile(Pdf.Epilogue, has), Pdf.OptFile(Pdf.Acknowledgments, has), Pdf.OptFile(Pdf.AboutAuthor, has));
  }

  lemma {:induction false} InSix<T>(x: T, d: seq<T>, f: seq<T>, cs: seq<T>, e: seq<T>, a: seq<T>, ab: seq<T>)
    ensures x in d + f + cs + e + a + ab <==> x in d || x in f || x in cs || x in e || x in a || x in ab
  {
  }

  /** A section is in the book exactly when its file exists (chapters only from 1 to 24). */
  lemma {:induction false} SectionsExactly(has: string -> bool, m: Pdf.Matter)
    ensures m in Sections(has) <==> has(Pdf.SourceFile(m)) && (m.Chapter? ==> Books.FirstChapter <= m.n <= Books.LastChapter)
  {
    var cs := Pdf.ChapterFiles(Books.Present(Pdf.ChapterHas(has), Books.FirstChapter, Books.LastChapter));
    InSix(m, Pdf.OptFile(Pdf.Dedication, has), Pdf.OptFile(Pdf.Foreword, has), cs,
          Pdf.OptFile(Pdf.Epilogue, has), Pdf.OptFile(Pdf.Acknowledgments, has), Pdf.OptFile(Pdf.AboutAuthor, has));
    Pdf.InOptFile(m, Pdf.Dedication, has);
    Pdf.InOptFile(m, Pdf.Foreword, has);
    Pdf.InOptFile(m, Pdf.Epilogue, has);
    Pdf.InOptFile(m, Pdf.Acknowledgments, has);
    Pdf.InOptFile(m, Pdf.AboutAuthor, has);
    Pdf.InChapterFiles(m, has);
  }

  /** The number of page breaks among `bs`. */
  function Breaks(bs: seq<Block>): nat
  {
    if bs == [] then 0
    else Breaks(bs[..|bs| - 1]) + (if bs[|bs| - 1].PageBreak? then 1 else 0)
  }

  lemma {:induction false} BreaksAppend(a: seq<Block>, b: seq<Block>)
    ensures Breaks(a + b) == Breaks(a) + Breaks(b)
  {
    if b == [] {
      assert a + b == a;
    } else {
      assert (a + b)[..|a + b| - 1] == a + b[..|b| - 1];
      BreaksAppend(a, b[..|b| - 1]);
    }
  }

  lemma {:induction false} NoBreaks(bs: seq<Block>)
    requires forall k | 0 <= k < |bs| :: bs[k].Paragraph?
    ensures Breaks(bs) == 0
  {
    if bs != [] {
      NoBreaks(bs[..|bs| - 1]);
    }
  }

  lemma {:induction false} FrontBreaks()
    ensures Breaks(FrontPages) == 2
  {
    BreaksAppend(TitlePage, CopyrightPage);
    BreaksAppend(TitlePage[..9], [PageBreak]);
    assert TitlePage == TitlePage[..9] + [PageBreak];
    NoBreaks(TitlePage[..9]);
    BreaksAppend(CopyrightPage[..3], [PageBreak]);
    assert CopyrightPage == CopyrightPage[..3] + [PageBreak];
    NoBreaks(CopyrightPage[..3]);
  }

  lemma {:induction false} SectionBreaks(m: Pdf.Matter, read: string -> string)
    ensures Breaks(SectionBlocks(m, read)) == if m == Pdf.AboutAuthor then 0 else 1
  {
    var bs := Blocks(Lines(read(Pdf.SourceFile(m))));
    var tail: seq<Block> := if m == Pdf.AboutAuthor then [] else [PageBreak];
    BreaksAppend(bs, tail);
    NoBreaks(bs);
    assert Breaks(tail) == if m == Pdf.AboutAuthor then 0 else 1 by {
      assert tail == [] || tail[..0] == [];
    }
  }

  /** One page break closes every section but the closing one. */
  lemma {:induction false} SectionsBreaks(ms: seq<Pdf.Matter>, read: string -> string)
    requires Pdf.AboutAuthor !in ms
    ensures Breaks(SectionsBlocks(ms, read)) == |ms|
  {
    if ms != [] {
      var init := ms[..|ms| - 1];
      assert ms == init + [ms[|ms| - 1]];
      SectionsBreaks(init, read);
      BreaksAppend(SectionsBlocks(init, read), SectionBlocks(ms[|ms| - 1], read));
      SectionBreaks(ms[|ms| - 1], read);
    }
  }

  lemma {:induction false} AboutLast(has: string -> bool)
    ensures Pdf.AboutAuthor !in MainSections(has)
  {
    var a := Pdf.AboutAuthor;
    Pdf.InOptFile(a, Pdf.Dedication, has);
    Pdf.InOptFile(a, Pdf.Foreword, has);
    Pdf.InChapterFiles(a, has);
    Pdf.InOptFile(a, Pdf.Epilogue, has);
    Pdf.InOptFile(a, Pdf.Acknowledgments, has);
  }

  lemma {:induction false} SectionsSplit(has: string -> bool, read: string -> string)
    ensures SectionsBlocks(Sections(has), read)
         == SectionsBlocks(MainSections(has), read)
            + (if has(Pdf.SourceFile(Pdf.AboutAuthor)) then SectionBlocks(Pdf.AboutAuthor, read) else [])
  {
    var main := MainSections(has);
    if has(Pdf.SourceFile(Pdf.AboutAuthor)) {
      assert (main + [Pdf.AboutAuthor])[..|main|] == main;
    } else {
      assert Sections(has) == main;
    }
  }

  /** Two front pages, then one page break after every section except about-the-author. */
  lemma {:induction false} PageBreakCount(has: string -> bool, read: string -> string)
    ensures Breaks(KindleBlocks(has, read))
         == 2 + |Sections(has)| - (if has("about_the_author.md") then 1 else 0)
  {
    var main := MainSections(has);
    var last: seq<Block> := if has(Pdf.SourceFile(Pdf.AboutAuthor)) then SectionBlocks(Pdf.AboutAuthor, read) else [];
    SectionsSplit(has, read);
    AboutLast(has);
    SectionsBreaks(main, read);
    SectionBreaks(Pdf.AboutAuthor, read);
    BreaksAppend(SectionsBlocks(main, read), last);
    BreaksAppend(FrontPages, SectionsBlocks(Sections(has), read));
    FrontBreaks();
  }

  lemma {:induction false} LastOfAppend<T>(a: seq<T>, b: seq<T>)
    requires b != []
    ensures (a + b)[|a + b| - 1] == b[|b| - 1]
  {
  }

  /** Every section but the closing one ends on a page break; the closing one on a paragraph. */
  lemma {:induction false} SectionEnd(m: Pdf.Matter, read: string -> string)
    ensures var sb := SectionBlocks(m, read);
      sb[|sb| - 1].PageBreak? <==> m != Pdf.AboutAuthor
  {
    var bs := Blocks(Lines(read(Pdf.SourceFile(m))));
    if m == Pdf.AboutAuthor {
      assert SectionBlocks(m, read) == bs + [];
      assert bs[|bs| - 1].Paragraph?;
    } else {
      LastOfAppend(bs, [PageBreak]);
    }
  }

  /** Several sections end the way their last one does. */
  lemma {:induction false} SectionsEnd(ms: seq<Pdf.Matter>, read: string -> string)
    requires ms != []
    ensures var bs := SectionsBlocks(ms, read);
      bs != [] && (bs[|bs| - 1].PageBreak? <==> ms[|ms| - 1] != Pdf.AboutAuthor)
  {
    var sb := SectionBlocks(ms[|ms| - 1], read);
    LastOfAppend(SectionsBlocks(ms[..|ms| - 1], read), sb);
    SectionEnd(ms[|ms| - 1], read);
  }

  /** The book ends on a page break exactly when it has no about-the-author page. */
  lemma {:induction false} EndsWithBreak(has: string -> bool, read: string -> string)
    ensures var bs := KindleBlocks(has, read);
      bs != [] && (bs[|bs| - 1].PageBreak? <==> !has(Pdf.SourceFile(Pdf.AboutAuthor)))
  {
    var ss := Sections(has);
    LastSection(has);
    FrontEnd();
    if ss == [] {
      assert KindleBlocks(has, read) == FrontPages + [];
    } else {
      SectionsEnd(ss, read);
      LastOfAppend(FrontPages, SectionsBlocks(ss, read));
    }
  }

  /** The front pages end on a page break. */
  lemma {:induction false} FrontEnd()
    ensures FrontPages != [] && FrontPages[|FrontPages| - 1] == PageBreak
  {
    LastOfAppend(TitlePage, CopyrightPage);
  }

  /** The last section is about-the-author exactly when that file exists; with no sections it does not. */
  lemma {:induction false} LastSection(has: string -> bool)
    ensures var ss := Sections(has);
      (ss == [] ==> !has(Pdf.SourceFile(Pdf.AboutAuthor)))
      && (ss != [] ==> (ss[|ss| - 1] == Pdf.AboutAuthor <==> has(Pdf.SourceFile(Pdf.AboutAuthor))))
  {
    var main := MainSections(has);
    AboutLast(has);
    if has(Pdf.SourceFile(Pdf.AboutAuthor)) {
      LastOfAppend(main, [Pdf.AboutAuthor]);
    } else {
      assert Sections(has) == main + [];
      if main != [] {
        assert main[|main| - 1] in main;
      }
    }
  }
}
