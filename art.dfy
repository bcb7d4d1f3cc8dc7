/**
 * `scripts/generate_art.py`: everything the illustration generator decides
 * before it calls the image model. It reads a chapter's title and a short
 * excerpt from the markdown, maps the title to a concept key, picks the colour
 * palette and aspect ratio for the target format, skips art that already
 * exists, and reports overall success when every chapter and format worked.
 * The image model, the download and the file writes are inputs here.
 */
module Art {
  import opened Wrappers
  import opened Seqs
  import opened Text
  import Books
  import Pdf

  // ----- title and excerpt -----

  /** The title a header line gives; `line` has already had its surrounding whitespace removed. */
  function HeaderTitle(line: string): Option<string>
  {
    if StartsWith(line, "### ") then Some(Strip(line[4..]))
    else if StartsWith(line, "## ") then Some(Strip(line[3..]))
    else if StartsWith(line, "# ") then Some(Strip(line[2..]))
    else None
  }

  /** A stripped line that may go into the excerpt: not empty and not any kind of header. */
  predicate ExcerptLine(line: string)
  {
    line != [] && line[0] != '#'
  }

  function LineTitle(raw: string): Option<string>
  {
    HeaderTitle(Strip(raw))
  }

  /** The title each line gives, if it is a header. */
  function Titles(raws: seq<string>): (r: seq<Option<string>>)
    ensures |r| == |raws| && forall k | 0 <= k < |r| :: r[k] == LineTitle(raws[k])
  {
    seq(|raws|, k requires 0 <= k < |raws| => LineTitle(raws[k]))
  }

  /** The last present value; later ones overwrite earlier ones. */
  function LastSome<T>(xs: seq<Option<T>>): Option<T>
  {
    if xs == [] then None
    else if xs[|xs| - 1].Some? then xs[|xs| - 1]
    else LastSome(xs[..|xs| - 1])
  }

  /** The title of the last header among `raws`. */
  function LastTitle(raws: seq<string>): Option<string>
  {
    LastSome(Titles(raws))
  }

  /** Every stripped line that could go into the excerpt, in order. */
  function Candidates(raws: seq<string>): seq<string>
  {
    if raws == [] then []
    else
      var line := Strip(raws[|raws| - 1]);
      Candidates(raws[..|raws| - 1]) + (if ExcerptLine(line) then [line] else [])
  }

  /** At most the first `n` elements of `s`. */
  function Take<T>(s: seq<T>, n: nat): (r: seq<T>)
    ensures |r| <= n && |r| <= |s|
    ensures r == s[..|r|]
    ensures |s| <= n ==> r == s
  {
    if |s| <= n then s else s[..n]
  }

  const ExcerptLines := 3
  const ExcerptLimit := 500

  function ExcerptText(raws: seq<string>): string
  {
    Take(Join(Take(Candidates(raws), ExcerptLines), " "), ExcerptLimit)
  }

  datatype ChapterInfo = ChapterInfo(title: Option<string>, excerpt: string)

  /** `get_chapter_title_and_content`: nothing for a missing file, else its title and excerpt. */
  method ChapterTitleAndExcerpt(present: bool, content: string) returns (info: Option<ChapterInfo>)
    ensures !present ==> info == None
    ensures present ==> info == Some(ChapterInfo(LastTitle(Split(content, "\n")), ExcerptText(Split(content, "\n"))))
  {
    if !present {
      return None;
    }
    var lines := Split(content, "\n");
    var title: Option<string> := None;
    var excerpt: seq<string> := [];
    var i := 0;
    while i < |lines|
      invariant 0 <= i <= |lines|
      invariant title == LastTitle(lines[..i])
      invariant excerpt == Take(Candidates(lines[..i]), ExcerptLines)
    {
      title, excerpt := ReadLine(lines, i, title, excerpt);
      i := i + 1;
    }
    SliceWhole(lines);
    info := Some(ChapterInfo(title, Take(Join(excerpt, " "), ExcerptLimit)));
  }

  /** One pass of the line loop. */
  method ReadLine(lines: seq<string>, i: nat, title: Option<string>, excerpt: seq<string>)
    returns (title': Option<string>, excerpt': seq<string>)
    requires i < |lines|
    requires title == LastTitle(lines[..i])
    requires excerpt == Take(Candidates(lines[..i]), ExcerptLines)
    ensures title' == LastTitle(lines[..i + 1])
    ensures excerpt' == Take(Candidates(lines[..i + 1]), ExcerptLines)
  {
    var line := Strip(lines[i]);
    title', excerpt' := title, excerpt;
    if StartsWith(line, "### ") {
      title' := Some(Strip(line[4..]));
    } else if StartsWith(line, "## ") {
      title' := Some(Strip(line[3..]));
    } else if StartsWith(line, "# ") {
      title' := Some(Strip(line[2..]));
    } else if line != [] && line[0] != '#' && |excerpt| < 3 {
      excerpt' := excerpt + [line];
    }
    ReadLineStep(lines, i);
    HeaderNotExcerpt(line);
    ExcerptStep(Candidates(lines[..i]), line, excerpt);
  }

  /** A header line never goes into the excerpt. */
  lemma {:induction false} HeaderNotExcerpt(line: string)
    ensures HeaderTitle(line).Some? ==> !ExcerptLine(line)
  {
    if HeaderTitle(line).Some? {
      assert line[0] == '#' by {
        if StartsWith(line, "### ") { assert line[..4][0] == '#'; }
        else if StartsWith(line, "## ") { assert line[..3][0] == '#'; }
        else { assert line[..2][0] == '#'; }
      }
    }
  }

  /** The excerpt grows by a text line while it has fewer than three. */
  lemma {:induction false} ExcerptStep(c: seq<string>, line: string, excerpt: seq<string>)
    requires excerpt == Take(c, ExcerptLines)
    ensures Take(c + (if ExcerptLine(line) then [line] else []), ExcerptLines)
      == if ExcerptLine(line) && |excerpt| < 3 then excerpt + [line] else excerpt
  {
    TakeStep(c, if ExcerptLine(line) then [line] else [], ExcerptLines);
  }

  lemma {:induction false} ReadLineStep(lines: seq<string>, i: nat)
    requires i < |lines|
    ensures var line := Strip(lines[i]);
      && LastTitle(lines[..i + 1]) == (if HeaderTitle(line).Some? then HeaderTitle(line) else LastTitle(lines[..i]))
      && Candidates(lines[..i + 1]) == Candidates(lines[..i]) + (if ExcerptLine(line) then [line] else [])
  {
    var a, b := Titles(lines[..i]), Titles(lines[..i + 1]);
    assert lines[..i + 1][..i] == lines[..i];
    forall k | 0 <= k < |a| ensures b[k] == a[k] {
      assert lines[..i + 1][k] == lines[..i][k];
    }
    Snoc(a, b, LineTitle(lines[i]));
    LastSomeSnoc(a, LineTitle(lines[i]));
  }

  lemma {:induction false} LastSomeSnoc<T>(a: seq<Option<T>>, x: Option<T>)
    ensures LastSome(a + [x]) == if x.Some? then x else LastSome(a)
  {
    assert (a + [x])[..|a|] == a;
  }

  /** Keeping the first `n` of a growing list only ever appends while there is room. */
  lemma {:induction false} TakeStep<T>(a: seq<T>, b: seq<T>, n: nat)
    requires |b| <= 1
    ensures Take(a + b, n) == if |Take(a, n)| < n then Take(a, n) + b else Take(a, n)
  {
    if |a| >= n {
      assert (a + b)[..n] == a[..n];
    }
  }

  /** The last present value is present exactly when some value is, and nothing after it is. */
  lemma {:induction false} LastSomeIsLast<T>(xs: seq<Option<T>>)
    ensures LastSome(xs).None? <==> forall k | 0 <= k < |xs| :: xs[k].None?
    ensures LastSome(xs).Some? ==>
      exists k | 0 <= k < |xs| :: xs[k] == LastSome(xs) && forall j | k < j < |xs| :: xs[j].None?
  {
    if xs != [] {
      var init := xs[..|xs| - 1];
      LastSomeIsLast(init);
      assert forall k | 0 <= k < |init| :: xs[k] == init[k];
      if xs[|xs| - 1].None? && LastSome(init).Some? {
        var k :| 0 <= k < |init| && init[k] == LastSome(init) && forall j | k < j < |init| :: init[j].None?;
        assert xs[k] == LastSome(xs);
      }
    }
  }

  /** The title is the one of the last header line; there is none exactly when no line is a header. */
  lemma {:induction false} TitleIsLastHeader(raws: seq<string>)
    ensures LastTitle(raws).None? <==> forall k | 0 <= k < |raws| :: LineTitle(raws[k]).None?
    ensures LastTitle(raws).Some? ==>
      exists k | 0 <= k < |raws| :: LineTitle(raws[k]) == LastTitle(raws)
        && forall j | k < j < |raws| :: LineTitle(raws[j]).None?
  {
    LastSomeIsLast(Titles(raws));
  }

  /** Excerpt lines are never empty and never headers. */
  lemma {:induction false} CandidatesAreText(raws: seq<string>)
    ensures forall k | 0 <= k < |Candidates(raws)| :: ExcerptLine(Candidates(raws)[k])
  {
    if raws != [] {
      CandidatesAreText(raws[..|raws| - 1]);
    }
  }

  /** The excerpt is built from at most three such lines and is at most 500 characters long. */
  lemma {:induction false} ExcerptBounds(raws: seq<string>)
    ensures |Take(Candidates(raws), ExcerptLines)| <= 3
    ensures forall k | 0 <= k < |Take(Candidates(raws), ExcerptLines)| :: ExcerptLine(Take(Candidates(raws), ExcerptLines)[k])
    ensures |ExcerptText(raws)| <= 500
  {
    CandidatesAreText(raws);
  }

  /** A line with no surrounding whitespace is read as it is. */
  lemma {:induction false} TrimmedTitle(line: string)
    requires Trimmed(line)
    ensures LineTitle(line) == HeaderTitle(line)
  {
    StripTrimmed(line);
  }

  /** `### t` gives the title `t`. */
  lemma {:induction false} MinorHeaderTitle(t: string)
    requires t != [] && Trimmed(t)
    ensures LineTitle("### " + t) == Some(t)
  {
    var s := "### " + t;
    assert s[..4] == "### " && s[4..] == t;
    assert Trimmed(s);
    StripTrimmed(t);
    TrimmedTitle(s);
  }

  /** `## t` gives the title `t`. */
  lemma {:induction false} SubHeaderTitle(t: string)
    requires t != [] && Trimmed(t)
    ensures LineTitle("## " + t) == Some(t)
  {
    var s := "## " + t;
    assert s[..3] == "## " && s[3..] == t;
    assert !StartsWith(s, "### ") by { if |s| >= 4 { assert s[..4][2] == ' '; } }
    assert Trimmed(s);
    StripTrimmed(t);
    TrimmedTitle(s);
  }

  /** `# t` gives the title `t`. */
  lemma {:induction false} ChapterHeaderTitle(t: string)
    requires t != [] && Trimmed(t)
    ensures LineTitle("# " + t) == Some(t)
  {
    var s := "# " + t;
    assert s[..2] == "# " && s[2..] == t;
    assert !StartsWith(s, "### ") by { if |s| >= 4 { assert s[..4][1] == ' '; } }
    assert !StartsWith(s, "## ") by { if |s| >= 3 { assert s[..3][1] == ' '; } }
    assert Trimmed(s);
    StripTrimmed(t);
    TrimmedTitle(s);
  }

  /** A title, when there is one, is never empty: a stripped header line ends in a visible character. */
  lemma {:induction false} TitleNotEmpty(raw: string)
    requires LineTitle(raw).Some?
    ensures LineTitle(raw).value != []
  {
    HeaderTitleNotEmpty(Strip(raw));
  }

  lemma {:induction false} HeaderTitleNotEmpty(line: string)
    requires Trimmed(line) && HeaderTitle(line).Some?
    ensures HeaderTitle(line).value != []
  {
    if StartsWith(line, "### ") {
      PrefixRest(line, "### ");
    } else if StartsWith(line, "## ") {
      PrefixRest(line, "## ");
    } else {
      PrefixRest(line, "# ");
    }
  }

  /** After a prefix ending in a space, a trimmed line still has visible text. */
  lemma {:induction false} PrefixRest(line: string, p: string)
    requires Trimmed(line) && p != [] && p[|p| - 1] == ' ' && StartsWith(line, p)
    ensures Strip(line[|p|..]) != []
  {
    assert line[|p| - 1] == line[..|p|][|p| - 1];
    RestNotBlank(line, |p|);
  }

  /** What follows a space inside a trimmed line still holds its visible last character. */
  lemma {:induction false} RestNotBlank(line: string, n: nat)
    requires Trimmed(line) && 0 < n <= |line| && line[n - 1] == ' '
    ensures Strip(line[n..]) != []
  {
    assert !IsSpace(line[|line| - 1]);
    var rest := line[n..];
    assert |rest| > 0 && rest[|rest| - 1] == line[|line| - 1];
  }

  // ----- the concept key -----

  /** One row of the title table: any of the phrases selects the key. */
  datatype KeyRule = KeyRule(phrases: seq<string>, key: string)

  const TitleTable: seq<KeyRule> := [
    KeyRule(["Mirage of Self"], "chapter_1"),
    KeyRule(["Flash-Frozen Minds"], "chapter_2"),
    KeyRule(["Ephemeral Morality"], "chapter_3"),
    KeyRule(["First Moment Problem"], "chapter_4"),
    KeyRule(["Skill Atrophy"], "chapter_5"),
    KeyRule(["Convenience Trap"], "chapter_6"),
    KeyRule(["Marcus Rivera", "Artist Who Forgot"], "chapter_7"),
    KeyRule(["Sarah Kim", "Programmer Who Couldn't"], "chapter_8"),
    KeyRule(["Jennifer Wu", "Bridge Between Worlds"], "chapter_9"),
    KeyRule(["Practice of Deliberate"], "chapter_10"),
    KeyRule(["Economics of Cognitive"], "chapter_11"),
    KeyRule(["Tiered Framework"], "chapter_12"),
    KeyRule(["Copyright Wars"], "chapter_13"),
    KeyRule(["Democratization or Concentration"], "chapter_14"),
    KeyRule(["Subscription Economy"], "chapter_15"),
    KeyRule(["Religious and Philosophical"], "chapter_16"),
    KeyRule(["Soul in Silicon"], "chapter_17"),
    KeyRule(["Hybrid Lives"], "chapter_18"),
    KeyRule(["Prometheus Dilemma"], "chapter_19"),
    KeyRule(["Legal Personhood"], "chapter_20"),
    KeyRule(["Rights, Responsibilities"], "chapter_21"),
    KeyRule(["Great Acceleration"], "chapter_22"),
    KeyRule(["When the Amber Cracks"], "chapter_23"),
    KeyRule(["From Digital Amber to Digital Life"], "chapter_24")
  ]

  predicate Mentions(title: string, phrases: seq<string>)
  {
    exists p | 0 <= p < |phrases| :: Contains(title, phrases[p])
  }

  /** The key of the first row one of whose phrases the title contains. */
  function TableKey(title: string, rules: seq<KeyRule>): (r: Option<string>)
    ensures r.Some? ==> exists k | 0 <= k < |rules| :: r.value == rules[k].key
  {
    if rules == [] then None
    else if Mentions(title, rules[0].phrases) then Some(rules[0].key)
    else TableKey(title, rules[1..])
  }

  /** The digits after `chapter` and one underscore or whitespace character at position `i`, if they are there. */
  function NumberAt(s: string, i: nat): (r: Option<string>)
    ensures r.Some? ==> r.value != [] && AllDigits(r.value)
  {
    if i + 9 <= |s| && s[i..i + 7] == "chapter" && (s[i + 7] == '_' || IsSpace(s[i + 7])) && IsDigit(s[i + 8])
    then Some(DigitRun(s[i + 8..]))
    else None
  }

  /** The longest run of ASCII digits at the start of `s`. */
  function DigitRun(s: string): (r: string)
    ensures |r| <= |s| && r == s[..|r|] && AllDigits(r)
    ensures |r| < |s| ==> !IsDigit(s[|r|])
  {
    if s == [] || !IsDigit(s[0]) then [] else [s[0]] + DigitRun(s[1..])
  }

  /** `re.search(r'chapter[_\s](\d+)', s)`: the leftmost match at or after `i`, and its digits. */
  function SearchNumber(s: string, i: nat): (r: Option<string>)
    ensures r.Some? ==> r.value != [] && AllDigits(r.value)
    decreases |s| - i
  {
    if i + 9 > |s| then None
    else
      match NumberAt(s, i)
      case Some(d) => Some(d)
      case None => SearchNumber(s, i + 1)
  }

  /** The concept key for a chapter title: foreword and epilogue first, then the title table, then a chapter number. */
  function ChapterKey(title: string): (r: Option<string>)
  {
    if Contains(title, "Foreword") then Some("foreword")
    else if Contains(title, "Epilogue") then Some("epilogue")
    else
      match TableKey(title, TitleTable)
      case Some(k) => Some(k)
      case None =>
        match SearchNumber(Lower(title), 0)
        case Some(d) => Some("chapter_" + d)
        case None => None
  }

  /** Every key names the foreword, the epilogue, or `chapter_` and a number. */
  predicate WellFormedKey(key: string)
  {
    key == "foreword" || key == "epilogue"
    || (|key| > 8 && key[..8] == "chapter_" && AllDigits(key[8..]))
  }

  lemma {:induction false} TableKeysWellFormed()
    ensures forall k | 0 <= k < |TitleTable| :: WellFormedKey(TitleTable[k].key)
  {
    forall k | 0 <= k < |TitleTable| ensures WellFormedKey(TitleTable[k].key) {
      var key := TitleTable[k].key;
      assert key[..8] == "chapter_";
    }
  }

  lemma {:induction false} ChapterKeyWellFormed(title: string)
    ensures ChapterKey(title).Some? ==> WellFormedKey(ChapterKey(title).value)
  {
    TableKeysWellFormed();
    if !Contains(title, "Foreword") && !Contains(title, "Epilogue") && TableKey(title, TitleTable).None? {
      var d := SearchNumber(Lower(title), 0);
      if d.Some? {
        var key := "chapter_" + d.value;
        assert key[..8] == "chapter_" && key[8..] == d.value;
      }
    }
  }

  /** The first table row whose phrase the title contains decides the key. */
  lemma {:induction false} FirstRowWins(title: string, rules: seq<KeyRule>, k: nat)
    requires k < |rules| && Mentions(title, rules[k].phrases)
    requires forall j | 0 <= j < k :: !Mentions(title, rules[j].phrases)
    ensures TableKey(title, rules) == Some(rules[k].key)
  {
    if k > 0 {
      FirstRowWins(title, rules[1..], k - 1);
    }
  }

  /** Outside the table, `chapter` and a number anywhere in the title (in any case) give `chapter_<number>`. */
  lemma {:induction false} NumberedTitle(ds: string, rest: string)
    requires ds != [] && AllDigits(ds)
    requires rest == [] || !IsDigit(rest[0])
    ensures SearchNumber("chapter_" + ds + rest, 0) == Some(ds)
  {
    var s := "chapter_" + ds + rest;
    assert s[0..7] == "chapter" && s[7] == '_' && s[8] == ds[0];
    DigitRunOf(ds, rest);
    assert s[8..] == ds + rest;
  }

  lemma {:induction false} DigitRunOf(ds: string, rest: string)
    requires AllDigits(ds)
    requires rest == [] || !IsDigit(rest[0])
    ensures DigitRun(ds + rest) == ds
  {
    if ds != [] {
      assert (ds + rest)[1..] == ds[1..] + rest;
      DigitRunOf(ds[1..], rest);
    } else {
      assert ds + rest == rest;
    }
  }

  // ----- the prompt settings -----

  const GrayscaleDefault := "High contrast black and white line art"
  const FullColourDefault := "Limited color palette like classic book illustrations"

  /** A YAML mapping lookup with a default. */
  function Get(m: map<string, string>, key: string, default: string): string
  {
    if key in m then m[key] else default
  }

  /** The palette entry a format reads: Kindle reads the grayscale one, every other format the full-colour one. */
  function PaletteEntry(format: string): (string, string)
  {
    if format == "kindle" then ("kindle_grayscale", GrayscaleDefault) else ("full_color", FullColourDefault)
  }

  function Palette(format: string, palettes: map<string, string>): string
  {
    Get(palettes, PaletteEntry(format).0, PaletteEntry(format).1)
  }

  /** Only Kindle art is drawn in grayscale, whatever the configured palettes say. */
  lemma {:induction false} GrayscaleOnlyForKindle(format: string, palettes: map<string, string>)
    requires Get(palettes, "kindle_grayscale", GrayscaleDefault) != Get(palettes, "full_color", FullColourDefault)
    ensures Palette(format, palettes) == Get(palettes, "kindle_grayscale", GrayscaleDefault) <==> format == "kindle"
  {
  }

  const GenericConcept := "Dynamic scene capturing the essence of this chapter's themes"

  /** What the concept file provides: a concept per chapter key, and the colour palettes. */
  datatype Concepts = Concepts(chapters: map<string, string>, palettes: map<string, string>)

  /** The settings a prompt is written from: without a concept file only the orientation varies. */
  datatype PromptSettings =
    | FallbackPrompt(title: string, orientation: string)
    | ConceptPrompt(concept: string, palette: string)

  function Settings(title: string, format: string, concepts: Option<Concepts>): PromptSettings
  {
    match concepts
    case None => FallbackPrompt(title, FallbackOrientation(format))
    case Some(c) =>
      var key := ChapterKey(title);
      var concept := if key.Some? && key.value in c.chapters then c.chapters[key.value] else GenericConcept;
      ConceptPrompt(concept, Palette(format, c.palettes))
  }

  /** The concept comes from the file exactly when the title's key is in it; the palette follows the format. */
  lemma {:induction false} SettingsChoice(title: string, format: string, concepts: Option<Concepts>)
    ensures Settings(title, format, concepts).FallbackPrompt? <==> concepts.None?
    ensures concepts.None? ==> Settings(title, format, concepts).orientation == FallbackOrientation(format)
    ensures concepts.Some? ==>
      var c := concepts.value;
      var r := Settings(title, format, concepts);
      && r.palette == Palette(format, c.palettes)
      && (ChapterKey(title).Some? && ChapterKey(title).value in c.chapters ==> r.concept == c.chapters[ChapterKey(title).value])
      && (ChapterKey(title).None? || ChapterKey(title).value !in c.chapters ==> r.concept == GenericConcept)
  {
  }

  /** The orientation line of the prompt used when no concept file is found. */
  function FallbackOrientation(format: string): string
  {
    if format == "pages" then "Landscape orientation" else "Portrait orientation"
  }

  datatype Ratio = Ratio(w: nat, h: nat)

  /** The aspect ratio requested from the image model. */
  function AspectRatio(format: string): Ratio
  {
    if format == "kindle" then Ratio(2, 3)
    else if format == "pages" then Ratio(16, 9)
    else if format == "pdf" then Ratio(2, 3)
    else if format == "epub" then Ratio(4, 5)
    else Ratio(1, 1)
  }

  /** `"w:h"`, as the model takes it. */
  function RatioText(r: Ratio): string
  {
    NatToString(r.w) + ":" + NatToString(r.h)
  }

  /** E-reader and print art is portrait, web art landscape, anything else square. */
  lemma {:induction false} AspectShapes(format: string)
    ensures format in {"kindle", "pdf", "epub"} ==> AspectRatio(format).w < AspectRatio(format).h
    ensures format == "pages" ==> AspectRatio(format).w > AspectRatio(format).h
    ensures format !in {"kindle", "pdf", "epub", "pages"} ==> AspectRatio(format).w == AspectRatio(format).h
  {
  }

  /** The fallback prompt asks for landscape exactly for the one format whose ratio is landscape. */
  lemma {:induction false} OrientationAgrees(format: string)
    ensures FallbackOrientation(format) == "Landscape orientation" <==> AspectRatio(format).w > AspectRatio(format).h
  {
  }

  // ----- one chapter in one format -----

  /** What `generate_chapter_art` does before any image is produced. */
  datatype ArtPlan = NoApiKey | NoReplicateToken | NoTitle | AlreadyThere | Generate(path: string, ratio: Ratio)

  function ArtPath(format: string, stem: string): string
  {
    "art/" + format + "/" + stem + ".png"
  }

  /** The checks in source order: API key, Replicate token, title, then existing art unless forced. */
  function PlanArt(apiKey: bool, token: Option<string>, info: Option<ChapterInfo>, stem: string,
                   format: string, artExists: bool, force: bool): ArtPlan
  {
    if !apiKey then NoApiKey
    else if token.None? || token.value == [] then NoReplicateToken
    else if info.None? || info.value.title.None? || info.value.title.value == [] then NoTitle
    else if artExists && !force then AlreadyThere
    else Generate(ArtPath(format, stem), AspectRatio(format))
  }

  /** Existing art counts as success; a generation counts when the image arrived. */
  function ArtSucceeded(plan: ArtPlan, generated: bool): bool
  {
    plan.AlreadyThere? || (plan.Generate? && generated)
  }

  /** Existing art is kept without calling the model unless forced; forcing always regenerates. */
  lemma {:induction false} SkipsExisting(apiKey: bool, token: Option<string>, info: Option<ChapterInfo>, stem: string,
                                         format: string, artExists: bool, force: bool)
    requires apiKey && token.Some? && token.value != []
    requires info.Some? && info.value.title.Some? && info.value.title.value != []
    ensures var plan := PlanArt(apiKey, token, info, stem, format, artExists, force);
      && (plan.AlreadyThere? <==> artExists && !force)
      && (plan.Generate? <==> !artExists || force)
      && (plan.Generate? ==> plan.ratio == AspectRatio(format) && plan.path == ArtPath(format, stem))
  {
  }

  /** A chapter with no header fails before anything else is looked at. */
  lemma {:induction false} NoHeaderFails(apiKey: bool, token: Option<string>, content: string, stem: string,
                                         format: string, artExists: bool, force: bool, generated: bool)
    requires apiKey && token.Some? && token.value != []
    requires forall k | 0 <= k < |Split(content, "\n")| :: LineTitle(Split(content, "\n")[k]).None?
    ensures var info := Some(ChapterInfo(LastTitle(Split(content, "\n")), ExcerptText(Split(content, "\n"))));
      !ArtSucceeded(PlanArt(apiKey, token, info, stem, format, artExists, force), generated)
  {
    TitleIsLastHeader(Split(content, "\n"));
  }

  // ----- every chapter in every format -----

  const DefaultFormats: seq<string> := ["kindle", "epub", "pdf", "pages"]

  /** Chapters 1 to 24 that exist, then the dedication, foreword and epilogue that exist. */
  function ArtFiles(has: string -> bool): seq<Pdf.Matter>
  {
    Pdf.ChapterFiles(Books.Present(Pdf.ChapterHas(has), Books.FirstChapter, Books.LastChapter))
    + Pdf.OptFile(Pdf.Dedication, has) + Pdf.OptFile(Pdf.Foreword, has) + Pdf.OptFile(Pdf.Epilogue, has)
  }

  /** Position in the art run's order. */
  function ArtRank(m: Pdf.Matter): nat
  {
    match m
    case Chapter(n) => n
    case Dedication => 25
    case Foreword => 26
    case Epilogue => 27
    case _ => 28
  }

  lemma {:induction false} ArtFilesInOrder(has: string -> bool, a: nat, b: nat)
    requires a < b < |ArtFiles(has)|
    ensures ArtRank(ArtFiles(has)[a]) < ArtRank(ArtFiles(has)[b])
  {
    var ns := Books.Present(Pdf.ChapterHas(has), Books.FirstChapter, Books.LastChapter);
    var d, f, e := Pdf.OptFile(Pdf.Dedication, has), Pdf.OptFile(Pdf.Foreword, has), Pdf.OptFile(Pdf.Epilogue, has);
    assert ArtFiles(has) == Pdf.ChapterFiles(ns) + d + f + e;
    forall k | 0 <= k < |ns| ensures Books.FirstChapter <= ns[k] <= Books.LastChapter {
      assert ns[k] in ns;
    }
    ArtFilesOrdered(ns, d, f, e, a, b);
  }

  lemma {:induction false} ArtFilesOrdered(ns: seq<nat>, d: seq<Pdf.Matter>, f: seq<Pdf.Matter>, e: seq<Pdf.Matter>, a: nat, b: nat)
    requires forall i, j | 0 <= i < j < |ns| :: ns[i] < ns[j]
    requires forall i | 0 <= i < |ns| :: Books.FirstChapter <= ns[i] <= Books.LastChapter
    requires d == [] || d == [Pdf.Dedication]
    requires f == [] || f == [Pdf.Foreword]
    requires e == [] || e == [Pdf.Epilogue]
    requires a < b < |Pdf.ChapterFiles(ns) + d + f + e|
    ensures var s := Pdf.ChapterFiles(ns) + d + f + e;
      ArtRank(s[a]) < ArtRank(s[b])
  {
  }

  lemma {:induction false} InFour<T>(x: T, a: seq<T>, b: seq<T>, c: seq<T>, d: seq<T>)
    ensures x in a + b + c + d <==> x in a || x in b || x in c || x in d
  {
  }

  /** A file is in the art run exactly when it exists and is a chapter from 1 to 24, the dedication, the foreword or the epilogue. */
  lemma {:induction false} ArtFilesExactly(has: string -> bool, m: Pdf.Matter)
    ensures m in ArtFiles(has) <==>
      has(Pdf.SourceFile(m))
      && ((m.Chapter? && Books.FirstChapter <= m.n <= Books.LastChapter) || m in {Pdf.Dedication, Pdf.Foreword, Pdf.Epilogue})
  {
    var cs := Pdf.ChapterFiles(Books.Present(Pdf.ChapterHas(has), Books.FirstChapter, Books.LastChapter));
    InFour(m, cs, Pdf.OptFile(Pdf.Dedication, has), Pdf.OptFile(Pdf.Foreword, has), Pdf.OptFile(Pdf.Epilogue, has));
    Pdf.InOptFile(m, Pdf.Dedication, has);
    Pdf.InOptFile(m, Pdf.Foreword, has);
    Pdf.InOptFile(m, Pdf.Epilogue, has);
    Pdf.InChapterFiles(m, has);
  }

  /** Every format for one file; returns how many succeeded. */
  method ArtForFile(file: Pdf.Matter, formats: seq<string>, attempt: (Pdf.Matter, string) -> bool)
    returns (done: nat)
    ensures done <= |formats|
    ensures done == |formats| <==> forall j | 0 <= j < |formats| :: attempt(file, formats[j])
  {
    done := 0;
    var j := 0;
    while j < |formats|
      invariant 0 <= j <= |formats|
      invariant done <= j
      invariant done == j <==> forall q | 0 <= q < j :: attempt(file, formats[q])
    {
      if attempt(file, formats[j]) {
        done := done + 1;
      }
      j := j + 1;
    }
  }

  /** Every file before `i` succeeded in every format. */
  predicate AllDone(files: seq<Pdf.Matter>, fs: seq<string>, i: nat, attempt: (Pdf.Matter, string) -> bool)
    requires i <= |files|
  {
    forall a, j | 0 <= a < i && 0 <= j < |fs| :: attempt(files[a], fs[j])
  }

  lemma {:induction false} AllDoneStep(files: seq<Pdf.Matter>, fs: seq<string>, i: nat, attempt: (Pdf.Matter, string) -> bool)
    requires i < |files|
    ensures AllDone(files, fs, i + 1, attempt) <==>
      AllDone(files, fs, i, attempt) && forall j | 0 <= j < |fs| :: attempt(files[i], fs[j])
  {
  }

  lemma MulStep(i: nat, n: nat)
    ensures (i + 1) * n == i * n + n
  {
  }

  /**
   * `generate_all_art`: true exactly when every file succeeded in every format.
   * `attempt(file, format)` is the outcome of `generate_chapter_art` for that
   * file and format, `ArtSucceeded(PlanArt(...), generated)` as modelled above.
   */
  method GenerateAllArt(has: string -> bool, formats: Option<seq<string>>, attempt: (Pdf.Matter, string) -> bool)
    returns (ok: bool)
    ensures ok <==> AllDone(ArtFiles(has), formats.GetOr(DefaultFormats), |ArtFiles(has)|, attempt)
  {
    var fs := if formats.None? then DefaultFormats else formats.value;
    var files := ArtFiles(has);
    var completed, total := AttemptAll(files, fs, attempt);
    ok := completed == total;
  }

  /** The nested loop: counts successes against the number of attempts. */
  method AttemptAll(files: seq<Pdf.Matter>, fs: seq<string>, attempt: (Pdf.Matter, string) -> bool)
    returns (completed: nat, total: nat)
    ensures total == |files| * |fs|
    ensures completed == total <==> AllDone(files, fs, |files|, attempt)
  {
    var n := |fs|;
    total := |files| * n;
    completed := 0;
    ghost var tried := 0;
    var i := 0;
    while i < |files|
      invariant 0 <= i <= |files|
      invariant tried == i * n
      invariant completed <= tried
      invariant completed == tried <==> AllDone(files, fs, i, attempt)
    {
      var done := ArtForFile(files[i], fs, attempt);
      AllDoneStep(files, fs, i, attempt);
      MulStep(i, n);
      completed := completed + done;
      tried := tried + n;
      i := i + 1;
    }
  }
}
