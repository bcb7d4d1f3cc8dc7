/**
 * `scripts/docx_to_md_converter.py`: turns Word documents into markdown files.
 * A document is checked (it must exist and have a `.docx` suffix in any case),
 * its output goes to `<output dir>/<stem>.md`, and in basic mode each non-blank
 * paragraph becomes one markdown block, headings becoming `#` lines. The
 * command line converts one file or every `.docx` file of a directory, keeps
 * going past failures and exits with 1 when any failed. The Word and mammoth
 * libraries and the file system are inputs.
 */
module Docx {
  import opened Wrappers
  import opened Text
  import Paths

  // ----- one document -----

  datatype ConvertError = FileNotFound | NotDocx | LibraryError

  /** A paragraph as the Word library gives it: its text and the name of its style. */
  datatype Paragraph = Paragraph(text: string, style: string)

  /** `'#' * n`. */
  function Hashes(n: nat): (r: string)
    ensures |r| == n && forall k | 0 <= k < n :: r[k] == '#'
  {
    seq(n, _ => '#')
  }

  /** The last word of a heading style's name, for styles whose name starts with `Heading`. */
  function HeadingLevel(style: string): Option<string>
  {
    if StartsWith(style, "Heading") then
      var ws := Words(style);
      assert ws != [] by {
        assert style[0] == "Heading"[0] && !IsSpace(style[0]);
      }
      Some(ws[|ws| - 1])
    else None
  }

  /** The block a paragraph with (already stripped, non-empty) text `text` adds. */
  function TextBlock(text: string, style: string): string
  {
    match HeadingLevel(style)
    case None => text + "\n\n"
    case Some(level) =>
      if level != [] && AllDigits(level) then Hashes(ParseNat(level)) + " " + text + "\n\n"
      else "# " + text + "\n\n"
  }

  /** A paragraph's contribution: nothing when its text is blank. */
  function ParagraphBlock(p: Paragraph): string
  {
    var text := Strip(p.text);
    if text == [] then "" else TextBlock(text, p.style)
  }

  /** The strings `f` gives for the items of `xs`, concatenated in order. */
  function Concat<T>(xs: seq<T>, f: T -> string): string
  {
    if xs == [] then "" else Concat(xs[..|xs| - 1], f) + f(xs[|xs| - 1])
  }

  /** The basic-mode markdown: the paragraphs' blocks, in order. */
  function BasicMarkdown(paras: seq<Paragraph>): string
  {
    Concat(paras, ParagraphBlock)
  }

  /** The paragraph loop of basic mode, appending to the markdown text. */
  method BasicConvert(paras: seq<Paragraph>) returns (markdown: string)
    ensures markdown == BasicMarkdown(paras)
  {
    markdown := "";
    var i := 0;
    while i < |paras|
      invariant 0 <= i <= |paras|
      invariant markdown == BasicMarkdown(paras[..i])
    {
      assert paras[..i + 1][..i] == paras[..i];
      assert BasicMarkdown(paras[..i + 1]) == BasicMarkdown(paras[..i]) + ParagraphBlock(paras[i]);
      var text := Strip(paras[i].text);
      if text != [] {
        var style := paras[i].style;
        if StartsWith(style, "Heading") {
          var level := HeadingLevel(style).value;
          if level != [] && AllDigits(level) {
            markdown := markdown + (Hashes(ParseNat(level)) + " " + text + "\n\n");
          } else {
            markdown := markdown + ("# " + text + "\n\n");
          }
        } else {
          markdown := markdown + (text + "\n\n");
        }
      }
      i := i + 1;
    }
    assert paras[..i] == paras;
  }

  /** A `Heading N` paragraph becomes N hashes, a space and its text. */
  lemma {:induction false} NumberedHeading(n: nat, text: string)
    requires text != [] && Trimmed(text)
    ensures ParagraphBlock(Paragraph(text, "Heading " + NatToString(n))) == Hashes(n) + " " + text + "\n\n"
  {
    var d := NatToString(n);
    var style := "Heading " + d;
    assert NoSpace(d) by {
      forall k | 0 <= k < |d| ensures !IsSpace(d[k]) {
        assert IsDigit(d[k]);
      }
    }
    assert style[..7] == "Heading";
    assert Join(["Heading", d], " ") == style;
    WordsOfJoin(["Heading", d]);
    ParseNatToString(n);
    StripTrimmed(text);
  }

  /** A heading style whose last word is not a number gives a level-one heading. */
  lemma {:induction false} UnnumberedHeading(text: string, style: string)
    requires text != [] && Trimmed(text)
    requires HeadingLevel(style).Some? && !AllDigits(HeadingLevel(style).value)
    ensures ParagraphBlock(Paragraph(text, style)) == "# " + text + "\n\n"
  {
    StripTrimmed(text);
  }

  /** Any other style gives the text itself as a block. */
  lemma {:induction false} PlainParagraph(text: string, style: string)
    requires text != [] && Trimmed(text) && !StartsWith(style, "Heading")
    ensures ParagraphBlock(Paragraph(text, style)) == text + "\n\n"
  {
    StripTrimmed(text);
  }

  /** Blank paragraphs add nothing; every other paragraph adds a block ending in a blank line. */
  lemma {:induction false} BlockShape(p: Paragraph)
    ensures ParagraphBlock(p) == "" <==> IsBlank(p.text)
    ensures ParagraphBlock(p) != "" ==> EndsWith(ParagraphBlock(p), "\n\n")
  {
    var text := Strip(p.text);
    if text != [] {
      TextBlockEnds(text, p.style);
    }
  }

  /** A block made from text is never empty and ends in a blank line. */
  lemma {:induction false} TextBlockEnds(text: string, style: string)
    ensures TextBlock(text, style) != "" && EndsWith(TextBlock(text, style), "\n\n")
  {
    var b := TextBlock(text, style);
    assert b[|b| - 2..] == "\n\n";
  }

  /** The concatenation is empty exactly when every piece is. */
  lemma {:induction false} ConcatEmpty<T>(xs: seq<T>, f: T -> string)
    ensures Concat(xs, f) == "" <==> forall k | 0 <= k < |xs| :: f(xs[k]) == ""
  {
    if xs != [] {
      var init := xs[..|xs| - 1];
      ConcatEmpty(init, f);
      assert forall k | 0 <= k < |init| :: init[k] == xs[k];
    }
  }

  /** When every non-empty piece ends in `tail`, so does a non-empty concatenation. */
  lemma {:induction false} ConcatEnds<T>(xs: seq<T>, f: T -> string, tail: string)
    requires forall k | 0 <= k < |xs| :: f(xs[k]) != "" ==> EndsWith(f(xs[k]), tail)
    ensures Concat(xs, f) != "" ==> EndsWith(Concat(xs, f), tail)
  {
    if xs != [] {
      var init := xs[..|xs| - 1];
      assert forall k | 0 <= k < |init| :: init[k] == xs[k];
      ConcatEnds(init, f, tail);
      var a, b := Concat(init, f), f(xs[|xs| - 1]);
      if b == "" {
        assert a + b == a;
      } else {
        EndsWithAfter(a, b, tail);
      }
    }
  }

  /** A string that ends in `tail` still does after something is put in front of it. */
  lemma {:induction false} EndsWithAfter(a: string, b: string, tail: string)
    requires EndsWith(b, tail)
    ensures EndsWith(a + b, tail)
  {
    assert (a + b)[|a + b| - |tail|..] == b[|b| - |tail|..];
  }

  /** Concatenating over two halves gives the two halves' results in order. */
  lemma {:induction false} ConcatAppend<T>(a: seq<T>, b: seq<T>, f: T -> string)
    ensures Concat(a + b, f) == Concat(a, f) + Concat(b, f)
    decreases |b|
  {
    if b == [] {
      assert a + b == a;
    } else {
      var init := b[..|b| - 1];
      assert (a + b)[..|a + b| - 1] == a + init;
      assert (a + b)[|a + b| - 1] == b[|b| - 1];
      ConcatAppend(a, init, f);
    }
  }

  /** The markdown is empty exactly when every paragraph is blank, and otherwise ends in a blank line. */
  lemma {:induction false} MarkdownShape(paras: seq<Paragraph>)
    ensures BasicMarkdown(paras) == "" <==> forall k | 0 <= k < |paras| :: IsBlank(paras[k].text)
    ensures BasicMarkdown(paras) != "" ==> EndsWith(BasicMarkdown(paras), "\n\n")
  {
    forall k | 0 <= k < |paras|
      ensures ParagraphBlock(paras[k]) == "" <==> IsBlank(paras[k].text)
      ensures ParagraphBlock(paras[k]) != "" ==> EndsWith(ParagraphBlock(paras[k]), "\n\n")
    {
      BlockShape(paras[k]);
    }
    ConcatEmpty(paras, ParagraphBlock);
    ConcatEnds(paras, ParagraphBlock, "\n\n");
  }

  /** Converting a document in two halves concatenates the two halves' markdown. */
  lemma {:induction false} MarkdownAppend(a: seq<Paragraph>, b: seq<Paragraph>)
    ensures BasicMarkdown(a + b) == BasicMarkdown(a) + BasicMarkdown(b)
  {
    ConcatAppend(a, b, ParagraphBlock);
  }

  /** `Path(output_dir) / f"{stem}.md"`. */
  function OutputPath(outputDir: string, name: string): string
  {
    outputDir + "/" + Paths.Stem(name) + ".md"
  }

  predicate IsDocxName(name: string)
  {
    Lower(Paths.Suffix(name)) == ".docx"
  }

  datatype Conversion = Converted(outputPath: string, markdown: string) | Failed(error: ConvertError)

  /**
   * `convert_docx_to_md`: `mammoth` and `paragraphs` are what the two
   * libraries return for the file, `None` when they raise.
   */
  function ConvertDocx(name: string, found: bool, outputDir: string, useMammoth: bool,
                       mammoth: Option<string>, paragraphs: Option<seq<Paragraph>>): Conversion
  {
    if !found then Failed(FileNotFound)
    else if !IsDocxName(name) then Failed(NotDocx)
    else if useMammoth then
      if mammoth.None? then Failed(LibraryError) else Converted(OutputPath(outputDir, name), mammoth.value)
    else
      if paragraphs.None? then Failed(LibraryError) else Converted(OutputPath(outputDir, name), BasicMarkdown(paragraphs.value))
  }

  /** A missing file fails as missing whatever its name; an existing one with another suffix fails as not a document. */
  lemma {:induction false} ValidationOrder(name: string, found: bool, outputDir: string, useMammoth: bool,
                                           mammoth: Option<string>, paragraphs: Option<seq<Paragraph>>)
    ensures var c := ConvertDocx(name, found, outputDir, useMammoth, mammoth, paragraphs);
      && (c == Failed(FileNotFound) <==> !found)
      && (c == Failed(NotDocx) <==> found && !IsDocxName(name))
      && (c.Converted? ==> c.outputPath == OutputPath(outputDir, name) && IsDocxName(name))
  {
  }

  /** `.docx` is accepted in any letter case, and the output keeps the name before it. */
  lemma {:induction false} DocxInAnyCase(base: string, ext: string, outputDir: string)
    requires base != [] && Lower("." + ext) == ".docx"
    ensures IsDocxName(base + "." + ext)
    ensures OutputPath(outputDir, base + "." + ext) == outputDir + "/" + base + ".md"
  {
    assert |ext| == 4;
    assert '.' !in ext by {
      forall j | 0 <= j < |ext| ensures ext[j] != '.' {
        assert ("." + ext)[j + 1] == ext[j];
        assert Lower("." + ext)[j + 1] == LowerChar(ext[j]);
      }
    }
    Paths.WithExtension(base, ext);
  }

  /** The three spellings of the extension all lower-case to `.docx`. */
  lemma {:induction false} LowerDocx(ext: string)
    requires ext in {"docx", "DOCX", "Docx"}
    ensures Lower("." + ext) == ".docx"
  {
    var s := "." + ext;
    var r := Lower(s);
    assert |r| == 5;
    assert r[0] == '.';
    assert r[1] == 'd' && r[2] == 'o' && r[3] == 'c' && r[4] == 'x';
  }

  // ----- the command line -----

  /** What to convert: one named file, or the `.docx` files of a directory listing. */
  datatype Selection = OneFile(path: string) | InDirectory(listing: seq<string>)

  /** `directory.glob("*.docx")`: the entries whose names end in `.docx`, in listing order. */
  function DocxFiles(listing: seq<string>): (r: seq<string>)
    ensures forall f :: f in r <==> f in listing && EndsWith(f, ".docx")
    ensures |r| <= |listing|
  {
    if listing == [] then []
    else
      var last := listing[|listing| - 1];
      assert listing == listing[..|listing| - 1] + [last];
      DocxFiles(listing[..|listing| - 1]) + (if EndsWith(last, ".docx") then [last] else [])
  }

  /** Listing order is kept: the documents of two listings are those of the first, then those of the second. */
  lemma {:induction false} DocxFilesAppend(a: seq<string>, b: seq<string>)
    ensures DocxFiles(a + b) == DocxFiles(a) + DocxFiles(b)
    decreases |b|
  {
    if b == [] {
      assert a + b == a;
    } else {
      var init := b[..|b| - 1];
      assert (a + b)[..|a + b| - 1] == a + init;
      DocxFilesAppend(a, init);
    }
  }

  /** The files picked for conversion; nothing when the named file is missing. */
  function Selected(sel: Selection, found: string -> bool): seq<string>
  {
    match sel
    case OneFile(p) => if found(p) then [p] else []
    case InDirectory(listing) => DocxFiles(listing)
  }

  function ConvertedFiles(files: seq<string>, convert: string -> Option<string>): seq<string>
  {
    if files == [] then []
    else
      var last := files[|files| - 1];
      ConvertedFiles(files[..|files| - 1], convert) + (if convert(last).Some? then [convert(last).value] else [])
  }

  function FailedFiles(files: seq<string>, convert: string -> Option<string>): seq<string>
  {
    if files == [] then []
    else
      var last := files[|files| - 1];
      FailedFiles(files[..|files| - 1], convert) + (if convert(last).None? then [last] else [])
  }

  /** Every file ends up either converted or failed; the failed ones are exactly those whose conversion raised. */
  lemma {:induction false} EveryFileAccounted(files: seq<string>, convert: string -> Option<string>)
    ensures |ConvertedFiles(files, convert)| + |FailedFiles(files, convert)| == |files|
    ensures forall f :: f in FailedFiles(files, convert) <==> f in files && convert(f).None?
  {
    if files != [] {
      var init := files[..|files| - 1];
      EveryFileAccounted(init, convert);
      assert files == init + [files[|files| - 1]];
    }
  }

  /**
   * `main`: `convert(path)` is the output path `convert_docx_to_md` returns,
   * or `None` when it raised. The result is the exit status with the two lists.
   */
  method ConvertAll(sel: Selection, found: string -> bool, convert: string -> Option<string>)
    returns (status: int, converted: seq<string>, failed: seq<string>)
    ensures var files := Selected(sel, found);
      && (files == [] ==> status == 1 && converted == [] && failed == [])
      && (files != [] ==>
          && converted == ConvertedFiles(files, convert)
          && failed == FailedFiles(files, convert)
          && (status == 1 <==> failed != [])
          && (status == 0 <==> failed == []))
  {
    var files: seq<string>;
    match sel {
      case OneFile(p) =>
        if !found(p) {
          return 1, [], [];
        }
        files := [p];
      case InDirectory(listing) =>
        files := DocxFiles(listing);
        if files == [] {
          return 1, [], [];
        }
    }
    converted, failed := [], [];
    var i := 0;
    while i < |files|
      invariant 0 <= i <= |files|
      invariant converted == ConvertedFiles(files[..i], convert)
      invariant failed == FailedFiles(files[..i], convert)
    {
      assert files[..i + 1][..i] == files[..i];
      var out := convert(files[i]);
      if out.Some? {
        converted := converted + [out.value];
      } else {
        failed := failed + [files[i]];
      }
      i := i + 1;
    }
    assert files[..i] == files;
    status := if failed != [] then 1 else 0;
  }
}
