/**
 * Preparing the combined audiobook upload (scripts/youtube_upload.py): the
 * `M:SS` / `H:MM:SS` chapter timestamps, the order the chapter videos are
 * concatenated in, the running timeline of chapter starts, and the chapter
 * titles taken from the markdown headers.
 */
module YouTube {
  import opened Wrappers
  import opened Seqs
  import opened Text
  import opened Books

  // ----- timestamps ----------------------------------------------------------

  /** Python's `int(x)`: truncation toward zero. */
  function Trunc(x: real): (n: int)
    ensures x >= 0.0 ==> n == x.Floor
  {
    if x >= 0.0 then x.Floor else -((-x).Floor)
  }

  /** `timedelta(seconds=int(x)).seconds`: the whole seconds past the last whole day. */
  function DaySeconds(x: real): (s: nat)
    ensures s < 86400
  {
    Trunc(x) % 86400
  }

  /** `format_timestamp`: `M:SS` under an hour, `H:MM:SS` otherwise. */
  function FormatTimestamp(x: real): string
  {
    FormatSeconds(DaySeconds(x))
  }

  /** The clock reading of `s` seconds past midnight. */
  function FormatSeconds(s: nat): string
  {
    Clock(s / 3600, (s % 3600) / 60, s % 60)
  }

  /** Hours, minutes and seconds as the uploader prints them: hours only when there are any. */
  function Clock(hours: nat, minutes: nat, seconds: nat): string
  {
    if hours > 0 then NatToString(hours) + ":" + ZeroPad(minutes, 2) + ":" + ZeroPad(seconds, 2)
    else NatToString(minutes) + ":" + ZeroPad(seconds, 2)
  }

  /** Reading a timestamp back: two or three colon-separated digit fields. */
  function ParseTimestamp(t: string): Option<nat>
  {
    ParseFields(Split(t, ":"))
  }

  predicate DigitField(d: string)
  {
    d != "" && AllDigits(d)
  }

  function ParseFields(f: seq<string>): Option<nat>
  {
    if |f| == 2 && DigitField(f[0]) && DigitField(f[1]) then
      Some(60 * ParseNat(f[0]) + ParseNat(f[1]))
    else if |f| == 3 && DigitField(f[0]) && DigitField(f[1]) && DigitField(f[2]) then
      Some(3600 * ParseNat(f[0]) + 60 * ParseNat(f[1]) + ParseNat(f[2]))
    else None
  }

  /** A digit string never contains the colon. */
  lemma DigitsNoColon(d: string)
    requires AllDigits(d)
    ensures !Contains(d, ":") && BreaksCleanly(d, ":")
  {
    ContainsChar(d, ':');
    assert ':' !in d by {
      forall i | 0 <= i < |d| ensures d[i] != ':' { assert IsDigit(d[i]); }
    }
    assert ":" == [':'];
    forall p | 0 <= p < |d| ensures !StartsWith((d + ":")[p..], ":") {
      assert (d + ":")[p..][0] == d[p];
      assert IsDigit(d[p]);
    }
  }

  /** The fields of `a:b` for digit strings. */
  lemma SplitTwo(a: string, b: string)
    requires AllDigits(a) && AllDigits(b)
    ensures Split(a + ":" + b, ":") == [a, b]
  {
    DigitsNoColon(a);
    DigitsNoColon(b);
    SplitWhole(b, ":");
    SplitAfter(a, ":", b);
  }

  /** The fields of `a:b:c` for digit strings. */
  lemma SplitThree(a: string, b: string, c: string)
    requires AllDigits(a) && AllDigits(b) && AllDigits(c)
    ensures Split(a + ":" + b + ":" + c, ":") == [a, b, c]
  {
    DigitsNoColon(a);
    SplitTwo(b, c);
    assert a + ":" + b + ":" + c == a + ":" + (b + ":" + c);
    SplitAfter(a, ":", b + ":" + c);
  }

  /** Seconds within a day split into hours below 24 and minutes and seconds below 60. */
  lemma ClockFields(s: nat)
    requires s < 86400
    ensures s / 3600 < 24 && (s % 3600) / 60 < 60 && s % 60 < 60
    ensures s == 3600 * (s / 3600) + 60 * ((s % 3600) / 60) + s % 60
  {
    var r := s % 3600;
    assert s == 3600 * (s / 3600) + r;
    assert r == 60 * (r / 60) + r % 60;
    assert r % 60 == s % 60;
  }

  /** The colon-separated fields of a clock reading. */
  function ClockParts(h: nat, m: nat, sec: nat): seq<string>
  {
    if h > 0 then [NatToString(h), ZeroPad(m, 2), ZeroPad(sec, 2)] else [NatToString(m), ZeroPad(sec, 2)]
  }

  /** Splitting a clock reading on `:` gives back its fields. */
  lemma ClockSplit(h: nat, m: nat, sec: nat)
    ensures Split(Clock(h, m, sec), ":") == ClockParts(h, m, sec)
  {
    if h > 0 {
      var a, b, c := NatToString(h), ZeroPad(m, 2), ZeroPad(sec, 2);
      assert Clock(h, m, sec) == a + ":" + b + ":" + c;
      SplitThree(a, b, c);
    } else {
      var a, c := NatToString(m), ZeroPad(sec, 2);
      assert Clock(h, m, sec) == a + ":" + c;
      SplitTwo(a, c);
    }
  }

  /**
   * The format as the uploader writes it: two fields (`M:SS`) or, with
   * hours, three (`H:MM:SS`); all are digit strings, the leading one
   * unpadded (no leading zero unless it is `0`), every later one two digits.
   */
  predicate TimestampShape(f: seq<string>, withHours: bool)
  {
    |f| == (if withHours then 3 else 2)
    && (forall k | 0 <= k < |f| :: DigitField(f[k]))
    && (|f[0]| > 1 ==> f[0][0] != '0')
    && (forall k | 1 <= k < |f| :: |f[k]| == 2)
  }

  lemma ClockShape(h: nat, m: nat, sec: nat)
    requires m < 60 && sec < 60
    ensures TimestampShape(Split(Clock(h, m, sec), ":"), h > 0)
  {
    ClockSplit(h, m, sec);
    PartsShape(h, m, sec);
  }

  lemma PartsShape(h: nat, m: nat, sec: nat)
    requires m < 60 && sec < 60
    ensures TimestampShape(ClockParts(h, m, sec), h > 0)
  {
    TwoDigits(m);
    TwoDigits(sec);
    FieldValue(m, 2);
    FieldValue(sec, 2);
    if h > 0 {
      ShapeThree(NatToString(h), ZeroPad(m, 2), ZeroPad(sec, 2));
    } else {
      ShapeTwo(NatToString(m), ZeroPad(sec, 2));
    }
  }

  lemma ShapeTwo(a: string, b: string)
    requires DigitField(a) && DigitField(b) && (|a| > 1 ==> a[0] != '0') && |b| == 2
    ensures TimestampShape([a, b], false)
  {
  }

  lemma ShapeThree(a: string, b: string, c: string)
    requires DigitField(a) && DigitField(b) && DigitField(c) && (|a| > 1 ==> a[0] != '0') && |b| == 2 && |c| == 2
    ensures TimestampShape([a, b, c], true)
  {
  }

  /** Reading the clock back gives the seconds it stands for. */
  lemma ClockRoundTrip(h: nat, m: nat, sec: nat)
    ensures ParseTimestamp(Clock(h, m, sec)) == Some(3600 * h + 60 * m + sec)
  {
    ClockSplit(h, m, sec);
    ParseSplit(Clock(h, m, sec), ClockParts(h, m, sec));
    PartsValue(h, m, sec);
  }

  /** The fields of a clock reading denote its seconds. */
  lemma PartsValue(h: nat, m: nat, sec: nat)
    ensures ParseFields(ClockParts(h, m, sec)) == Some(3600 * h + 60 * m + sec)
  {
    FieldValue(m, 2);
    FieldValue(sec, 2);
    if h > 0 {
      var a, b, c := NatToString(h), ZeroPad(m, 2), ZeroPad(sec, 2);
      assert ClockParts(h, m, sec) == [a, b, c];
      ParseNatToString(h);
      ParseThreeFields(a, b, c, h, m, sec);
    } else {
      var a, b := NatToString(m), ZeroPad(sec, 2);
      assert ClockParts(h, m, sec) == [a, b];
      ParseNatToString(m);
      ParseTwoFields(a, b, m, sec);
      assert 3600 * h == 0;
    }
  }

  lemma ParseSplit(t: string, f: seq<string>)
    requires Split(t, ":") == f
    ensures ParseTimestamp(t) == ParseFields(f)
  {
  }

  lemma ParseTwoFields(a: string, b: string, x: nat, y: nat)
    requires DigitField(a) && DigitField(b) && ParseNat(a) == x && ParseNat(b) == y
    ensures ParseFields([a, b]) == Some(60 * x + y)
  {
  }

  lemma ParseThreeFields(a: string, b: string, c: string, x: nat, y: nat, z: nat)
    requires DigitField(a) && DigitField(b) && DigitField(c)
    requires ParseNat(a) == x && ParseNat(b) == y && ParseNat(c) == z
    ensures ParseFields([a, b, c]) == Some(3600 * x + 60 * y + z)
  {
  }

  /** A padded number is a digit field denoting the number. */
  lemma FieldValue(n: nat, width: nat)
    ensures DigitField(ZeroPad(n, width)) && ParseNat(ZeroPad(n, width)) == n
  {
    ParseZeroPad(n, width);
  }

  /** Under an hour the timestamp has the form `M:SS`, from one hour on `H:MM:SS`. */
  lemma FormatShape(x: real)
    ensures TimestampShape(Split(FormatTimestamp(x), ":"), DaySeconds(x) >= 3600)
  {
    var s := DaySeconds(x);
    ClockFields(s);
    ClockShape(s / 3600, (s % 3600) / 60, s % 60);
  }

  /** Reading the clock back gives the seconds. */
  lemma SecondsRoundTrip(s: nat)
    requires s < 86400
    ensures ParseTimestamp(FormatSeconds(s)) == Some(s)
  {
    ClockFields(s);
    ClockRoundTrip(s / 3600, (s % 3600) / 60, s % 60);
  }

  /** Reading a timestamp back gives the whole seconds within the day. */
  lemma FormatRoundTrip(x: real)
    ensures ParseTimestamp(FormatTimestamp(x)) == Some(DaySeconds(x))
  {
    SecondsRoundTrip(DaySeconds(x));
  }

  /** For whole seconds within a day the timestamp reads back as those seconds. */
  lemma WholeSecondsRoundTrip(n: nat)
    requires n < 86400
    ensures ParseTimestamp(FormatTimestamp(n as real)) == Some(n)
  {
    assert (n as real).Floor == n;
    assert DaySeconds(n as real) == n;
    FormatRoundTrip(n as real);
  }

  /** Fractions of a second are dropped, not rounded. */
  lemma FormatTruncates(x: real)
    requires x >= 0.0
    ensures FormatTimestamp(x) == FormatTimestamp(x.Floor as real)
  {
    assert (x.Floor as real).Floor == x.Floor;
  }

  /** Whole days are dropped: a timestamp a day later reads the same. */
  lemma FormatDropsDays(x: real)
    requires x >= 0.0
    ensures FormatTimestamp(x + 86400.0) == FormatTimestamp(x)
  {
    var n := x.Floor;
    assert (x + 86400.0).Floor == n + 86400;
    assert (n + 86400) % 86400 == n % 86400;
  }

  /** The start of the first chapter. */
  lemma FormatZero()
    ensures FormatTimestamp(0.0) == "0:00"
  {
    assert DaySeconds(0.0) == 0;
    assert ZeroPad(0, 2) == "00";
  }

  // ----- chapter titles ------------------------------------------------------

  /** A line the title search accepts: it starts with `# `, `## ` or `### `. */
  predicate IsTitleLine(line: string)
  {
    StartsWith(line, "# ") || StartsWith(line, "## ") || StartsWith(line, "### ")
  }

  /** Deeper headers are never taken for the title. */
  lemma FourHashesNeverTitle(line: string)
    requires StartsWith(line, "####")
    ensures !IsTitleLine(line)
  {
    assert line[1] == '#' && line[2] == '#';
  }

  /** The index of the first title line, if any. */
  function FirstTitleLine(lines: seq<string>): (r: Option<nat>)
    ensures r.Some? ==> (r.value < |lines| && IsTitleLine(lines[r.value])
                         && forall j | 0 <= j < r.value :: !IsTitleLine(lines[j]))
    ensures r.None? ==> forall j | 0 <= j < |lines| :: !IsTitleLine(lines[j])
  {
    if lines == [] then None
    else if IsTitleLine(lines[0]) then Some(0)
    else match FirstTitleLine(lines[1..])
      case None => None
      case Some(k) => Some(k + 1)
  }

  const HeaderMarks: set<char> := {'#', ' '}

  /** The title of chapter `i`: the first title line without its marks and surrounding whitespace, else `Chapter i`. */
  function HeaderTitle(lines: seq<string>, i: nat): string
  {
    match FirstTitleLine(lines)
    case None => "Chapter " + NatToString(i)
    case Some(k) => Strip(StripSet(lines[k], HeaderMarks))
  }

  /** A title taken from a header line has no whitespace at its ends and no mark at its start. */
  lemma HeaderTitleClean(lines: seq<string>, i: nat)
    requires FirstTitleLine(lines).Some?
    ensures Trimmed(HeaderTitle(lines, i))
    ensures |HeaderTitle(lines, i)| <= |lines[FirstTitleLine(lines).value]|
  {
  }

  /** The first line that qualifies is the one found. */
  lemma {:induction false} FirstTitleLineIs(lines: seq<string>, k: nat)
    requires k < |lines| && IsTitleLine(lines[k])
    requires forall j | 0 <= j < k :: !IsTitleLine(lines[j])
    ensures FirstTitleLine(lines) == Some(k)
    decreases k
  {
    if k > 0 {
      FirstTitleLineIs(lines[1..], k - 1);
    }
  }

  /** Without any qualifying line there is none to find. */
  lemma {:induction false} NoTitleLine(lines: seq<string>)
    requires forall j | 0 <= j < |lines| :: !IsTitleLine(lines[j])
    ensures FirstTitleLine(lines) == None
    decreases |lines|
  {
    if lines != [] {
      NoTitleLine(lines[1..]);
    }
  }

  /** The search loop of `get_chapter_titles` over the lines of chapter `i`. */
  method FindHeaderTitle(lines: seq<string>, i: nat) returns (title: string)
    ensures title == HeaderTitle(lines, i)
  {
    title := "Chapter " + NatToString(i);
    var k := 0;
    while k < |lines|
      invariant 0 <= k <= |lines|
      invariant forall j | 0 <= j < k :: !IsTitleLine(lines[j])
    {
      if IsTitleLine(lines[k]) {
        FirstTitleLineIs(lines, k);
        title := Strip(StripSet(lines[k], HeaderMarks));
        return;
      }
      k := k + 1;
    }
    NoTitleLine(lines);
  }

  /** The dictionary value recorded for a part whose markdown exists; `read(i)` is `None` when reading chapter `i` fails. */
  function TitleOf(read: nat -> Option<string>, p: Part): string
  {
    match p
    case Foreword => "Foreword - The Digital Amber Concept"
    case Epilogue => "Epilogue - The Future Awakens"
    case Chapter(i) =>
      match read(i)
      case None => "Chapter " + NatToString(i)
      case Some(content) => "Chapter " + NatToString(i) + " - " + HeaderTitle(Split(content, "\n"), i)
  }

  /** The parts given, each with its title. */
  function TitlesOf(ps: seq<Part>, read: nat -> Option<string>): map<Part, string>
  {
    map p | p in ps :: TitleOf(read, p)
  }

  /** Chapter `i` has a markdown file. */
  function HasStory(storyExists: string -> bool): nat -> bool
  {
    (i: nat) => storyExists(ChapterStem(i) + ".md")
  }

  /** The parts whose markdown exists. */
  function StoryParts(storyExists: string -> bool): seq<Part>
  {
    BookParts(storyExists("foreword.md"), HasStory(storyExists), storyExists("epilogue.md"))
  }

  /**
   * `get_chapter_titles`: a title for every part whose markdown exists
   * (`story/<stem>.md`), keyed by part; the Python dictionary is keyed by
   * the stem, which determines the part (`PartStemInjective`).
   */
  method GetChapterTitles(storyExists: string -> bool, read: nat -> Option<string>) returns (titles: map<Part, string>)
    ensures titles == TitlesOf(StoryParts(storyExists), read)
  {
    titles := map[];
    ghost var head: seq<Part> := [];
    if storyExists("foreword.md") {
      TitlesAdd([], Foreword, read);
      titles := titles[Foreword := "Foreword - The Digital Amber Concept"];
      head := [Foreword];
    }
    ghost var walked := head;
    var i := FirstChapter;
    while i <= LastChapter
      invariant FirstChapter <= i <= LastChapter + 1
      invariant walked == head + Chapters(Present(HasStory(storyExists), FirstChapter, i - 1))
      invariant titles == TitlesOf(walked, read)
    {
      if storyExists(ChapterStem(i) + ".md") {
        var title := ChapterTitle(read, i);
        TitledChapter(storyExists, read, head, walked, i);
        titles := titles[Chapter(i) := title];
        walked := walked + [Chapter(i)];
      } else {
        UntitledChapter(storyExists, head, walked, i);
      }
      i := i + 1;
    }
    TitlesFinish(storyExists, read, head, walked, titles);
    if storyExists("epilogue.md") {
      titles := titles[Epilogue := "Epilogue - The Future Awakens"];
    }
  }

  lemma {:induction false} TitlesFinish(storyExists: string -> bool, read: nat -> Option<string>,
                     head: seq<Part>, walked: seq<Part>, titles: map<Part, string>)
    requires head == if storyExists("foreword.md") then [Foreword] else []
    requires walked == head + Chapters(Present(HasStory(storyExists), FirstChapter, LastChapter))
    requires titles == TitlesOf(walked, read)
    ensures (if storyExists("epilogue.md") then titles[Epilogue := "Epilogue - The Future Awakens"] else titles)
      == TitlesOf(StoryParts(storyExists), read)
  {
    var e := storyExists("epilogue.md");
    BookPartsEnd(storyExists("foreword.md"), HasStory(storyExists), e, walked);
    assert TitleOf(read, Epilogue) == "Epilogue - The Future Awakens";
    if e {
      TitlesAdd(walked, Epilogue, read);
    } else {
      assert walked + [] == walked;
    }
  }

  /** The title recorded for chapter `i` once its markdown is known to exist. */
  method ChapterTitle(read: nat -> Option<string>, i: nat) returns (title: string)
    ensures title == TitleOf(read, Chapter(i))
  {
    match read(i)
    case None =>
      title := "Chapter " + NatToString(i);
    case Some(content) =>
      var lines := Split(content, "\n");
      var header := FindHeaderTitle(lines, i);
      title := "Chapter " + NatToString(i) + " - " + header;
  }

  lemma TitledChapter(storyExists: string -> bool, read: nat -> Option<string>, head: seq<Part>, walked: seq<Part>, i: nat)
    requires FirstChapter <= i && storyExists(ChapterStem(i) + ".md")
    requires walked == head + Chapters(Present(HasStory(storyExists), FirstChapter, i - 1))
    ensures walked + [Chapter(i)] == head + Chapters(Present(HasStory(storyExists), FirstChapter, i))
    ensures TitlesOf(walked + [Chapter(i)], read) == TitlesOf(walked, read)[Chapter(i) := TitleOf(read, Chapter(i))]
  {
    BookPartsStep(HasStory(storyExists), head, walked, i);
    HasStoryAt(storyExists, i);
    TitlesAdd(walked, Chapter(i), read);
  }

  lemma UntitledChapter(storyExists: string -> bool, head: seq<Part>, walked: seq<Part>, i: nat)
    requires FirstChapter <= i && !storyExists(ChapterStem(i) + ".md")
    requires walked == head + Chapters(Present(HasStory(storyExists), FirstChapter, i - 1))
    ensures walked == head + Chapters(Present(HasStory(storyExists), FirstChapter, i))
  {
    BookPartsStep(HasStory(storyExists), head, walked, i);
    HasStoryAt(storyExists, i);
  }

  lemma HasStoryAt(storyExists: string -> bool, i: nat)
    ensures HasStory(storyExists)(i) == storyExists(ChapterStem(i) + ".md")
  {
  }

  /** Recording one more part's title. */
  lemma TitlesAdd(ps: seq<Part>, p: Part, read: nat -> Option<string>)
    ensures TitlesOf(ps + [p], read) == TitlesOf(ps, read)[p := TitleOf(read, p)]
  {
    var a := TitlesOf(ps + [p], read);
    var b := TitlesOf(ps, read)[p := TitleOf(read, p)];
    assert a.Keys == b.Keys;
    forall q | q in a.Keys ensures a[q] == b[q] {}
  }


  // ----- the combined video ----------------------------------------------------

  /** Chapter `i` has a rendered video. */
  function HasVideo(videoExists: string -> bool): nat -> bool
  {
    (i: nat) => videoExists(ChapterStem(i) + ".mp4")
  }

  lemma HasVideoAt(videoExists: string -> bool, i: nat)
    ensures HasVideo(videoExists)(i) == videoExists(ChapterStem(i) + ".mp4")
  {
  }

  /** The videos concatenated, in order: foreword, chapters 1 to 24, epilogue, each only if its file exists. */
  function VideoParts(videoExists: string -> bool): seq<Part>
  {
    BookParts(videoExists("foreword.mp4"), HasVideo(videoExists), videoExists("epilogue.mp4"))
  }

  /** The search for video files at the start of `create_combined_video_with_chapters`. */
  method FindVideoFiles(videoExists: string -> bool) returns (parts: seq<Part>)
    ensures parts == VideoParts(videoExists)
  {
    parts := [];
    if videoExists("foreword.mp4") {
      parts := [Foreword];
    }
    ghost var head := parts;
    var i := FirstChapter;
    while i <= LastChapter
      invariant FirstChapter <= i <= LastChapter + 1
      invariant parts == head + Chapters(Present(HasVideo(videoExists), FirstChapter, i - 1))
    {
      parts := AddChapterVideo(videoExists, head, parts, i);
      i := i + 1;
    }
    parts := AddEpilogueVideo(videoExists, parts);
  }

  /** The epilogue's video closes the list when it exists. */
  method AddEpilogueVideo(videoExists: string -> bool, parts: seq<Part>) returns (parts': seq<Part>)
    requires parts == (if videoExists("foreword.mp4") then [Foreword] else [])
      + Chapters(Present(HasVideo(videoExists), FirstChapter, LastChapter))
    ensures parts' == VideoParts(videoExists)
  {
    BookPartsEnd(videoExists("foreword.mp4"), HasVideo(videoExists), videoExists("epilogue.mp4"), parts);
    parts' := parts;
    if videoExists("epilogue.mp4") {
      parts' := parts' + [Epilogue];
    }
  }

  /** One turn of the search: chapter `i` is added when its video exists. */
  method AddChapterVideo(videoExists: string -> bool, ghost head: seq<Part>, parts: seq<Part>, i: nat)
    returns (parts': seq<Part>)
    requires FirstChapter <= i
    requires parts == head + Chapters(Present(HasVideo(videoExists), FirstChapter, i - 1))
    ensures parts' == head + Chapters(Present(HasVideo(videoExists), FirstChapter, i))
  {
    BookPartsStep(HasVideo(videoExists), head, parts, i);
    HasVideoAt(videoExists, i);
    parts' := parts;
    if videoExists(ChapterStem(i) + ".mp4") {
      parts' := parts' + [Chapter(i)];
    }
  }

  /** `get_video_duration`: ffprobe's duration, or 0.0 when probing fails. */
  function ProbedDuration(probe: Option<real>): real
  {
    probe.GetOr(0.0)
  }

  /** The title used for a part without an entry: its stem with `_` as a space, title-cased. */
  function KeyTitle(p: Part): string
  {
    StemTitle(PartStem(p))
  }

  function TitleFor(titles: map<Part, string>, p: Part): string
  {
    if p in titles then titles[p] else KeyTitle(p)
  }

  /** The running total after the given videos: the sum of their probed durations. */
  function Elapsed(parts: seq<Part>, probe: Part -> Option<real>): real
  {
    if parts == [] then 0.0
    else Elapsed(parts[..|parts| - 1], probe) + ProbedDuration(probe(parts[|parts| - 1]))
  }

  /** The chapter line for the last of `parts`: the time the earlier ones take, then its title. */
  function StampLine(parts: seq<Part>, titles: map<Part, string>, probe: Part -> Option<real>): string
    requires parts != []
  {
    FormatTimestamp(Elapsed(parts[..|parts| - 1], probe)) + " " + TitleFor(titles, parts[|parts| - 1])
  }

  /** The chapter list of the description. */
  function Timeline(parts: seq<Part>, titles: map<Part, string>, probe: Part -> Option<real>): (r: seq<string>)
    ensures |r| == |parts|
  {
    if parts == [] then [] else Timeline(parts[..|parts| - 1], titles, probe) + [StampLine(parts, titles, probe)]
  }

  /** Entry `k` of the chapter list is the line for the first `k + 1` videos. */
  lemma {:induction false} TimelineEntry(parts: seq<Part>, titles: map<Part, string>, probe: Part -> Option<real>, k: nat)
    requires k < |parts|
    ensures Timeline(parts, titles, probe)[k] == StampLine(parts[..k + 1], titles, probe)
    decreases |parts|
  {
    var init := parts[..|parts| - 1];
    if k < |parts| - 1 {
      TimelineEntry(init, titles, probe, k);
      assert init[..k + 1] == parts[..k + 1];
    } else {
      assert parts[..k + 1] == parts;
    }
  }

  /** Entry `k` of the chapter list is the start of video `k`, the sum of the durations before it. */
  lemma TimelineAt(parts: seq<Part>, titles: map<Part, string>, probe: Part -> Option<real>, k: nat)
    requires k < |parts|
    ensures Timeline(parts, titles, probe)[k]
      == FormatTimestamp(Elapsed(parts[..k], probe)) + " " + TitleFor(titles, parts[k])
  {
    TimelineEntry(parts, titles, probe, k);
    var pre := parts[..k + 1];
    assert pre[..|pre| - 1] == parts[..k];
    assert pre[|pre| - 1] == parts[k];
  }

  /** The first chapter starts at `0:00`. */
  lemma FirstStampAtZero(parts: seq<Part>, titles: map<Part, string>, probe: Part -> Option<real>)
    requires parts != []
    ensures Timeline(parts, titles, probe)[0] == "0:00 " + TitleFor(titles, parts[0])
  {
    TimelineAt(parts, titles, probe, 0);
    assert parts[..0] == [];
    assert Elapsed(parts[..0], probe) == 0.0;
    FormatZero();
  }

  /** A video whose duration cannot be read adds nothing: the next chapter starts at the same time. */
  lemma FailedProbeAddsNothing(parts: seq<Part>, probe: Part -> Option<real>, k: nat)
    requires k < |parts| && probe(parts[k]).None?
    ensures Elapsed(parts[..k + 1], probe) == Elapsed(parts[..k], probe)
  {
    PrefixStep(parts, k);
  }

  /** With non-negative durations chapter starts never decrease. */
  lemma {:induction false} ElapsedMonotone(parts: seq<Part>, probe: Part -> Option<real>, j: nat, k: nat)
    requires j <= k <= |parts|
    requires forall p | p in parts :: ProbedDuration(probe(p)) >= 0.0
    ensures Elapsed(parts[..j], probe) <= Elapsed(parts[..k], probe)
    decreases k - j
  {
    if j < k {
      ElapsedMonotone(parts, probe, j, k - 1);
      PrefixStep(parts, k - 1);
      assert parts[k - 1] in parts;
    }
  }

  /** The loop of `create_combined_video_with_chapters` that lists the chapters and adds up the time. */
  method ChapterTimestamps(parts: seq<Part>, titles: map<Part, string>, probe: Part -> Option<real>)
    returns (stamps: seq<string>, currentTime: real)
    ensures stamps == Timeline(parts, titles, probe)
    ensures currentTime == Elapsed(parts, probe)
  {
    stamps := [];
    currentTime := 0.0;
    var k := 0;
    while k < |parts|
      invariant 0 <= k <= |parts|
      invariant stamps == Timeline(parts[..k], titles, probe)
      invariant currentTime == Elapsed(parts[..k], probe)
    {
      stamps, currentTime := AddChapter(parts, titles, probe, k, stamps, currentTime);
      k := k + 1;
    }
    SliceWhole(parts);
  }

  /** One round of the loop: the next chapter line, then its duration added to the running total. */
  method AddChapter(parts: seq<Part>, titles: map<Part, string>, probe: Part -> Option<real>, k: nat,
                    stamps: seq<string>, time: real)
    returns (stamps': seq<string>, time': real)
    requires k < |parts|
    requires stamps == Timeline(parts[..k], titles, probe) && time == Elapsed(parts[..k], probe)
    ensures stamps' == Timeline(parts[..k + 1], titles, probe)
    ensures time' == Elapsed(parts[..k + 1], probe)
  {
    TimelineStep(parts, titles, probe, k, stamps, time);
    var title := TitleFor(titles, parts[k]);
    stamps' := stamps + [FormatTimestamp(time) + " " + title];
    time' := time + ProbedDuration(probe(parts[k]));
  }

  lemma TimelineStep(parts: seq<Part>, titles: map<Part, string>, probe: Part -> Option<real>, k: nat,
                     stamps: seq<string>, time: real)
    requires k < |parts|
    requires stamps == Timeline(parts[..k], titles, probe) && time == Elapsed(parts[..k], probe)
    ensures stamps + [FormatTimestamp(time) + " " + TitleFor(titles, parts[k])] == Timeline(parts[..k + 1], titles, probe)
    ensures time + ProbedDuration(probe(parts[k])) == Elapsed(parts[..k + 1], probe)
  {
    PrefixStep(parts, k);
  }

  /** What the combine step leaves behind. */
  datatype Combined =
    | NoVideos
    | ConcatFailed
    | Combined(chapters: seq<string>, totalDuration: string, chapterCount: nat)

  /**
   * `create_combined_video_with_chapters` with the file system, the
   * durations and the outcome of the ffmpeg concatenation as inputs: without
   * videos nothing is done; when concatenation fails no description is
   * written; otherwise the description lists every chapter with its start
   * and states the total duration and the number of chapters. `titles` is
   * the map `GetChapterTitles` returns.
   */
  method CreateCombinedVideo(videoExists: string -> bool, titles: map<Part, string>,
                             probe: Part -> Option<real>, concatOk: bool)
    returns (result: Combined)
    ensures var parts := VideoParts(videoExists);
      result == if parts == [] then NoVideos
                else if !concatOk then ConcatFailed
                else Combined(Timeline(parts, titles, probe), FormatTimestamp(Elapsed(parts, probe)), |parts|)
  {
    var parts := FindVideoFiles(videoExists);
    if parts == [] {
      return NoVideos;
    }
    var stamps, currentTime := ChapterTimestamps(parts, titles, probe);
    if !concatOk {
      return ConcatFailed;
    }
    result := Combined(stamps, FormatTimestamp(currentTime), |stamps|);
  }

  // ----- fallback titles -----------------------------------------------------

  /** A video without a recorded title is listed as `Chapter N` for chapter `N`. */
  lemma KeyTitleOfChapter(n: nat)
    ensures KeyTitle(Chapter(n)) == "Chapter " + NatToString(n)
  {
    ChapterStemTitle(n);
  }
}
