/**
 * Text layout for the audiobook video (scripts/create_audiobook_video.py):
 * the five-word sliding windows built over the word timings, and
 * `clean_text_for_video`, which strips markdown and wraps each paragraph
 * greedily at 80 characters.
 */
module VideoLayout {
  import opened Wrappers
  import opened Text
  import opened MarkdownRegex
  import opened VideoTiming
  import opened Seqs

  // ----- sliding-window groups ------------------------------------------------

  /** One window: up to two words either side of the active one, with the active word's times. */
  datatype WordGroup = WordGroup(words: seq<WordTiming>, startTime: real, endTime: real, activeWordIndex: nat)

  function Min(a: int, b: int): int { if a <= b then a else b }

  /** The window centred on timing `i`. */
  function Window(ts: seq<WordTiming>, i: nat): WordGroup
    requires i < |ts|
  {
    var lo := if i >= 2 then i - 2 else 0;
    var hi := Min(|ts|, i + 3);
    WordGroup(ts[lo..hi], ts[i].start, ts[i].end, i - lo)
  }

  /** The windows of every timing, in order: what a fresh layout computes. */
  function Windows(ts: seq<WordTiming>): (gs: seq<WordGroup>)
    ensures |gs| == |ts|
    ensures forall i | 0 <= i < |ts| :: gs[i] == Window(ts, i)
  {
    seq(|ts|, i requires 0 <= i < |ts| => Window(ts, i))
  }

  /**
   * The group-building loop. `cached` is the layout loaded from the layout
   * cache when its key matched, `None` otherwise; the loop appends one
   * window per timing to whichever list it starts from.
   */
  method BuildWordGroups(ts: seq<WordTiming>, cached: Option<seq<WordGroup>>) returns (groups: seq<WordGroup>)
    ensures groups == cached.GetOr([]) + Windows(ts)
    ensures cached.None? ==> groups == Windows(ts)
    ensures cached == Some(Windows(ts)) ==> |groups| == 2 * |ts| && groups[..|ts|] == groups[|ts|..] == Windows(ts)
  {
    groups := if cached.Some? then cached.value else [];
    ghost var initial := groups;
    var i := 0;
    while i < |ts|
      invariant 0 <= i <= |ts|
      invariant groups == initial + Windows(ts)[..i]
    {
      var startIdx := if i - 2 > 0 then i - 2 else 0;
      var endIdx := Min(|ts|, i + 3);
      var group := WordGroup(ts[startIdx..endIdx], ts[i].start, ts[i].end, i - startIdx);
      assert group == Windows(ts)[i];
      groups := groups + [group];
      assert Windows(ts)[..i + 1] == Windows(ts)[..i] + [Windows(ts)[i]];
      i := i + 1;
    }
    assert Windows(ts)[..|ts|] == Windows(ts);
  }

  /**
   * Window `i` holds one to five consecutive timings around timing `i`;
   * its active index is `min(i, 2)` and points at timing `i`, whose times
   * the window carries.
   */
  lemma WindowShape(ts: seq<WordTiming>, i: nat)
    requires i < |ts|
    ensures var g := Window(ts, i);
      1 <= |g.words| <= 5
      && g.activeWordIndex == Min(i, 2)
      && g.activeWordIndex < |g.words|
      && g.words[g.activeWordIndex] == ts[i]
      && g.startTime == ts[i].start && g.endTime == ts[i].end
      && (forall k | 0 <= k < |g.words| :: g.words[k] == ts[i - g.activeWordIndex + k])
      && |g.words| == Min(|ts|, i + 3) - (i - g.activeWordIndex)
  {
  }

  /** A fresh layout has exactly one group per timing. */
  lemma FreshLayoutOnePerTiming(ts: seq<WordTiming>, groups: seq<WordGroup>)
    requires groups == None.GetOr([]) + Windows(ts)
    ensures |groups| == |ts|
    ensures forall i | 0 <= i < |ts| :: groups[i].startTime == ts[i].start && groups[i].endTime == ts[i].end
  {
  }

  /** The corrected layout step: a cached layout is used as it is, otherwise one is computed. */
  method BuildWordGroupsOnce(ts: seq<WordTiming>, cached: Option<seq<WordGroup>>) returns (groups: seq<WordGroup>)
    ensures cached.Some? ==> groups == cached.value
    ensures cached.None? ==> groups == Windows(ts)
    ensures cached.None? || cached == Some(Windows(ts)) ==> groups == Windows(ts) && |groups| == |ts|
  {
    if cached.Some? {
      groups := cached.value;
    } else {
      groups := BuildWordGroups(ts, None);
    }
  }

  // ----- markdown removal -------------------------------------------------------

  /** The four substitutions: heading marks, then `**x**`, `*x*` and `` `x` `` reduced to `x`. */
  function StripMarkdown(text: string): string
  {
    var noHeadings := StripHeadingMarks(text, true);
    var noBold := SubPaired(noHeadings, "**", "", "");
    var noItalic := SubPaired(noBold, "*", "", "");
    SubPaired(noItalic, "`", "", "")
  }

  /** Text with none of the markup characters passes through unchanged. */
  lemma PlainTextUnchanged(text: string)
    requires '#' !in text && '*' !in text && '`' !in text
    ensures StripMarkdown(text) == text
  {
    HeadingMarksAbsent(text, true);
    SubPairedAbsent(text, "**", "", "");
    SubPairedAbsent(text, "*", "", "");
    SubPairedAbsent(text, "`", "", "");
  }

  /** A level-two heading loses its marks. */
  lemma HeadingMarkupRemoved(t: string)
    requires t != [] && !IsSpace(t[0]) && t[0] != '#' && '#' !in t && '*' !in t && '`' !in t
    ensures StripMarkdown("## " + t) == t
  {
    HeadingMarksRemoved(2, t);
    assert seq(2, _ => '#') + " " + t == "## " + t;
    HeadingMarksAbsent(t, false);
    SubPairedAbsent(t, "**", "", "");
    SubPairedAbsent(t, "*", "", "");
    SubPairedAbsent(t, "`", "", "");
  }

  /** A bold span loses its asterisks. */
  lemma BoldMarkupRemoved(x: string)
    requires x != [] && '\n' !in x && '*' !in x && '`' !in x && '#' !in x
    ensures StripMarkdown("**" + x + "**") == x
  {
    var b := "**" + x + "**";
    HeadingMarksAbsent(b, true);
    SubPairedSpan(x, "**", "", "", "");
    assert "**" + x + "**" + "" == b;
    assert SubPaired("", "**", "", "") == "";
    assert "" + x + "" + "" == x;
    SubPairedAbsent(x, "*", "", "");
    SubPairedAbsent(x, "`", "", "");
  }

  // ----- greedy word wrap ---------------------------------------------------------

  const LineWidth: nat := 80

  predicate IsWord(w: string) { w != [] && NoSpace(w) }

  predicate AllWords(ws: seq<string>) { forall k | 0 <= k < |ws| :: IsWord(ws[k]) }

  /** Whether words `lo..hi` fit on one line. */
  predicate Fits(ws: seq<string>, lo: nat, hi: nat)
    requires lo <= hi <= |ws|
  {
    |Join(ws[lo..hi], " ")| <= LineWidth
  }

  /** A line starting at word `lo` that holds words `lo..k` grows while the longer line still fits. */
  function LineEnd(ws: seq<string>, lo: nat, k: nat): (e: nat)
    requires lo < k <= |ws|
    ensures k <= e <= |ws|
    ensures e == k || Fits(ws, lo, e)
    ensures e < |ws| ==> !Fits(ws, lo, e + 1)
    decreases |ws| - k
  {
    if k < |ws| && Fits(ws, lo, k + 1) then LineEnd(ws, lo, k + 1) else k
  }

  /**
   * The end of the greedy line that starts at word `lo`: the line is one
   * word or fits in 80 characters, and the next word, if any, would not fit.
   */
  function GreedyEnd(ws: seq<string>, lo: nat): (e: nat)
    requires lo < |ws|
    ensures lo < e <= |ws|
    ensures e == lo + 1 || Fits(ws, lo, e)
    ensures e < |ws| ==> !Fits(ws, lo, e + 1)
  {
    LineEnd(ws, lo, lo + 1)
  }

  /** The reference wrap of the words from `lo` on: a greedy line, then the wrap of the rest. */
  function WrapFrom(ws: seq<string>, lo: nat): seq<string>
    requires lo <= |ws|
    decreases |ws| - lo
  {
    if lo == |ws| then []
    else
      var e := GreedyEnd(ws, lo);
      [Join(ws[lo..e], " ")] + WrapFrom(ws, e)
  }

  function Wrap(ws: seq<string>): seq<string>
  {
    WrapFrom(ws, 0)
  }

  /** The wrap of one paragraph: the loop over its words, then the last line. */
  method WrapParagraph(words: seq<string>) returns (lines: seq<string>)
    requires AllWords(words)
    ensures lines == Wrap(words)
  {
    var line;
    lines, line := WrapWords(words);
    ghost var s := WrapAfter(words, |words|);
    WrapAfterState(words, |words|);
    WrapFinish(words, s.lines, s.line, s.start);
    if line != "" {
      lines := lines + [line];
    }
  }

  /** The wrap loop over the words of one paragraph; the line being built is still open at the end. */
  method WrapWords(words: seq<string>) returns (lines: seq<string>, line: string)
    ensures lines == WrapAfter(words, |words|).lines && line == WrapAfter(words, |words|).line
  {
    lines, line := [], "";
    for i := 0 to |words|
      invariant lines == WrapAfter(words, i).lines && line == WrapAfter(words, i).line
    {
      lines, line := WrapWord(lines, line, words[i]);
    }
  }

  /** One turn of the wrap loop: the word either extends the current line or starts the next one. */
  method WrapWord(lines: seq<string>, line: string, word: string) returns (lines': seq<string>, line': string)
    ensures |TestLine(line, word)| <= LineWidth ==> lines' == lines && line' == TestLine(line, word)
    ensures |TestLine(line, word)| > LineWidth ==> line' == word && lines' == lines + (if line != "" then [line] else [])
    ensures |line'| <= LineWidth || line' == word
  {
    var testLine := TestLine(line, word);
    if |testLine| > LineWidth {
      lines' := lines;
      if line != "" {
        lines' := lines' + [line];
      }
      line' := word;
    } else {
      lines' := lines;
      line' := testLine;
    }
  }

  /** The wrap loop's variables: the lines emitted, the line being built, and the word that line starts at. */
  datatype WrapLoop = WrapLoop(lines: seq<string>, line: string, start: nat)

  /** One turn of the wrap loop on word `i`. */
  function WrapStep(s: WrapLoop, word: string, i: nat): WrapLoop
  {
    if |TestLine(s.line, word)| > LineWidth then
      WrapLoop(s.lines + (if s.line != "" then [s.line] else []), word, i)
    else
      WrapLoop(s.lines, TestLine(s.line, word), s.start)
  }

  /** The wrap loop's variables after the first `i` words. */
  function WrapAfter(ws: seq<string>, i: nat): WrapLoop
    requires i <= |ws|
  {
    if i == 0 then WrapLoop([], "", 0) else WrapStep(WrapAfter(ws, i - 1), ws[i - 1], i - 1)
  }

  /** Every turn of the loop keeps the wrap state, so it holds after any number of words. */
  lemma {:induction false} WrapAfterState(ws: seq<string>, i: nat)
    requires AllWords(ws) && i <= |ws|
    ensures WrapState(ws, WrapAfter(ws, i).lines, WrapAfter(ws, i).line, WrapAfter(ws, i).start, i)
  {
    if i == 0 {
      WrapStart(ws);
    } else {
      WrapAfterState(ws, i - 1);
      var s := WrapAfter(ws, i - 1);
      if |TestLine(s.line, ws[i - 1])| > LineWidth {
        WrapBreak(ws, s.lines, s.line, s.start, i - 1);
      } else {
        WrapGrow(ws, s.lines, s.line, s.start, i - 1);
      }
    }
  }

  /**
   * What the wrap loop knows before word `i`: `line` holds words
   * `start..i` (and is empty only before the first word), and the lines
   * already emitted followed by the wrap from `start` make the whole wrap.
   */
  ghost predicate WrapState(ws: seq<string>, lines: seq<string>, line: string, start: nat, i: nat)
  {
    start <= i <= |ws|
    && (i == 0 ==> line == "" && lines == [])
    && (i > 0 ==> start < i && line != "" && line == Join(ws[start..i], " ")
                  && LineEnd(ws, start, i) == GreedyEnd(ws, start))
    && Wrap(ws) == lines + WrapFrom(ws, start)
  }

  lemma WrapStart(ws: seq<string>)
    ensures WrapState(ws, [], "", 0, 0)
  {
  }

  /** A word that still fits extends the current line. */
  lemma WrapGrow(ws: seq<string>, lines: seq<string>, line: string, start: nat, i: nat)
    requires AllWords(ws) && i < |ws| && WrapState(ws, lines, line, start, i)
    requires |TestLine(line, ws[i])| <= LineWidth
    ensures WrapState(ws, lines, TestLine(line, ws[i]), start, i + 1)
  {
    if i == 0 {
      assert ws[0..1] == [ws[0]];
    } else {
      NextLine(ws, start, i);
    }
  }

  /** A word that does not fit closes the current line (if any) and starts the next one. */
  lemma WrapBreak(ws: seq<string>, lines: seq<string>, line: string, start: nat, i: nat)
    requires AllWords(ws) && i < |ws| && WrapState(ws, lines, line, start, i)
    requires |TestLine(line, ws[i])| > LineWidth
    ensures WrapState(ws, if line != "" then lines + [line] else lines, ws[i], i, i + 1)
  {
    assert ws[i..i + 1] == [ws[i]];
    if i > 0 {
      WrapBreakLine(ws, lines, line, start, i);
    }
  }

  lemma WrapBreakLine(ws: seq<string>, lines: seq<string>, line: string, start: nat, i: nat)
    requires AllWords(ws) && 0 < i < |ws| && WrapState(ws, lines, line, start, i)
    requires |TestLine(line, ws[i])| > LineWidth
    ensures line != "" && Wrap(ws) == (lines + [line]) + WrapFrom(ws, i)
  {
    NextLine(ws, start, i);
    assert !Fits(ws, start, i + 1);
    assert WrapFrom(ws, start) == [line] + WrapFrom(ws, i);
    ConcatAssoc(lines, [line], WrapFrom(ws, i));
  }

  /** After the last word the current line, if any, completes the wrap. */
  lemma WrapFinish(ws: seq<string>, lines: seq<string>, line: string, start: nat)
    requires WrapState(ws, lines, line, start, |ws|)
    ensures (if line != "" then lines + [line] else lines) == Wrap(ws)
  {
    if line != "" {
      LastLine(ws, start);
      assert ws[start..|ws|] == ws[start..];
    }
  }

  /**
   * `f"{line} {word}".strip()` as the loop uses it: the word alone when the
   * line is still empty, else the line, a space and the word (see
   * TestLineIsStrip).
   */
  function TestLine(line: string, word: string): string
  {
    if line == "" then word else line + " " + word
  }

  /** For a trimmed line and a word, stripping the spaced concatenation gives TestLine. */
  lemma TestLineIsStrip(line: string, word: string)
    requires Trimmed(line) && IsWord(word)
    ensures TestLine(line, word) == Strip(line + " " + word)
  {
    if line == "" {
      assert line + " " + word == " " + word;
      StripSpaceWord(word);
    } else {
      var t := line + " " + word;
      assert t[0] == line[0] && t[|t| - 1] == word[|word| - 1];
      StripTrimmed(t);
    }
  }

  /**
   * The test line for word `i` is the current line joined to that word; if
   * it does not fit, the current line is the first line of the wrap from
   * `start`, otherwise the line grows by one word.
   */
  lemma NextLine(ws: seq<string>, start: nat, i: nat)
    requires AllWords(ws) && start < i < |ws|
    requires LineEnd(ws, start, i) == GreedyEnd(ws, start)
    ensures Join(ws[start..i], " ") != ""
    ensures TestLine(Join(ws[start..i], " "), ws[i]) == Join(ws[start..i + 1], " ")
    ensures !Fits(ws, start, i + 1) ==> WrapFrom(ws, start) == [Join(ws[start..i], " ")] + WrapFrom(ws, i)
    ensures Fits(ws, start, i + 1) ==> LineEnd(ws, start, i + 1) == GreedyEnd(ws, start)
  {
    var run := ws[start..i];
    assert ws[start..i + 1] == run + [ws[i]];
    JoinSnoc(run, ws[i]);
    assert AllWords(run);
    JoinedWordsTrimmed(run);
  }

  /** After the last word the current line is the whole wrap from `start`. */
  lemma LastLine(ws: seq<string>, start: nat)
    requires start < |ws|
    requires LineEnd(ws, start, |ws|) == GreedyEnd(ws, start)
    ensures WrapFrom(ws, start) == [Join(ws[start..], " ")]
  {
    var e := GreedyEnd(ws, start);
    assert e == |ws|;
    assert WrapFrom(ws, e) == [];
    assert ws[start..e] == ws[start..];
  }

  /** Every line fits in 80 characters or is a single word that alone is longer. */
  lemma {:induction false} WrapLinesFit(ws: seq<string>, lo: nat)
    requires lo <= |ws|
    ensures forall k | 0 <= k < |WrapFrom(ws, lo)| :: |WrapFrom(ws, lo)[k]| <= LineWidth || WrapFrom(ws, lo)[k] in ws
    decreases |ws| - lo
  {
    if lo < |ws| {
      var e := GreedyEnd(ws, lo);
      var w := WrapFrom(ws, lo);
      WrapLinesFit(ws, e);
      if e == lo + 1 {
        assert ws[lo..e] == [ws[lo]];
      }
      forall k | 0 <= k < |w| ensures |w[k]| <= LineWidth || w[k] in ws {
        if k > 0 {
          assert w[k] == WrapFrom(ws, e)[k - 1];
        }
      }
    }
  }

  /** The lines joined with single spaces give the words joined with single spaces. */
  lemma {:induction false} WrapRejoins(ws: seq<string>, lo: nat)
    requires lo <= |ws|
    ensures Join(WrapFrom(ws, lo), " ") == Join(ws[lo..], " ")
    decreases |ws| - lo
  {
    if lo < |ws| {
      var e := GreedyEnd(ws, lo);
      WrapRejoins(ws, e);
      if e < |ws| {
        assert ws[lo..] == ws[lo..e] + ws[e..];
        JoinAppend(ws[lo..e], ws[e..], " ");
        assert WrapFrom(ws, e) != [];
        JoinAppend([Join(ws[lo..e], " ")], WrapFrom(ws, e), " ");
      } else {
        assert ws[lo..e] == ws[lo..];
      }
    }
  }

  /** Splitting the wrapped lines back into words gives the paragraph's words, in order. */
  lemma WrapKeepsWords(ws: seq<string>)
    requires AllWords(ws)
    ensures Words(Join(Wrap(ws), " ")) == ws
  {
    WrapRejoins(ws, 0);
    assert ws[0..] == ws;
    WordsOfJoin(ws);
  }

  /** No wrapped line is empty: each is a run of one or more words. */
  lemma {:induction false} WrapLinesNonEmpty(ws: seq<string>, lo: nat)
    requires AllWords(ws) && lo <= |ws|
    ensures forall k | 0 <= k < |WrapFrom(ws, lo)| :: WrapFrom(ws, lo)[k] != ""
    ensures lo < |ws| ==> WrapFrom(ws, lo) != []
    decreases |ws| - lo
  {
    if lo < |ws| {
      var e := GreedyEnd(ws, lo);
      assert AllWords(ws[lo..e]);
      JoinedWordsTrimmed(ws[lo..e]);
      WrapLinesNonEmpty(ws, e);
    }
  }

  /** The wrap is greedy: the first word of each next line would not have fit on the line before it. */
  lemma {:induction false} WrapGreedy(ws: seq<string>, lo: nat, k: nat)
    requires AllWords(ws) && lo <= |ws|
    requires k + 1 < |WrapFrom(ws, lo)|
    ensures Words(WrapFrom(ws, lo)[k + 1]) != []
    ensures |WrapFrom(ws, lo)[k]| + 1 + |Words(WrapFrom(ws, lo)[k + 1])[0]| > LineWidth
    decreases |ws| - lo
  {
    var e := GreedyEnd(ws, lo);
    if k == 0 {
      SecondLineStart(ws, lo);
      FirstLineOverflow(ws, lo);
    } else {
      assert WrapFrom(ws, lo)[k] == WrapFrom(ws, e)[k - 1];
      assert WrapFrom(ws, lo)[k + 1] == WrapFrom(ws, e)[k];
      WrapGreedy(ws, e, k - 1);
    }
  }

  /** The second line starts with the first word left off the first line. */
  lemma SecondLineStart(ws: seq<string>, lo: nat)
    requires AllWords(ws) && lo <= |ws|
    requires 1 < |WrapFrom(ws, lo)|
    ensures GreedyEnd(ws, lo) < |ws|
    ensures Words(WrapFrom(ws, lo)[1]) != [] && Words(WrapFrom(ws, lo)[1])[0] == ws[GreedyEnd(ws, lo)]
  {
    var e := GreedyEnd(ws, lo);
    var e2 := GreedyEnd(ws, e);
    assert WrapFrom(ws, lo)[1] == Join(ws[e..e2], " ");
    assert AllWords(ws[e..e2]);
    WordsOfJoin(ws[e..e2]);
  }

  /** Adding the first left-over word to the first line would make it longer than 80 characters. */
  lemma FirstLineOverflow(ws: seq<string>, lo: nat)
    requires lo < |ws| && GreedyEnd(ws, lo) < |ws|
    ensures |WrapFrom(ws, lo)[0]| + 1 + |ws[GreedyEnd(ws, lo)]| > LineWidth
  {
    var e := GreedyEnd(ws, lo);
    assert ws[lo..e + 1] == ws[lo..e] + [ws[e]];
    JoinSnoc(ws[lo..e], ws[e]);
  }

  // ----- paragraphs ---------------------------------------------------------------

  /** The lines one `"\n\n"` paragraph contributes: its wrapped words and a blank line, or nothing if it is blank. */
  function Block(p: string): seq<string>
  {
    if IsBlank(p) then [] else Wrap(Words(Strip(p))) + [""]
  }

  /** The lines of the first `k` paragraphs, in order. */
  function LayoutUpTo(ps: seq<string>, k: nat): seq<string>
    requires k <= |ps|
  {
    if k == 0 then [] else LayoutUpTo(ps, k - 1) + Block(ps[k - 1])
  }

  /** The lines of all paragraphs, in order. */
  function Layout(ps: seq<string>): seq<string>
  {
    LayoutUpTo(ps, |ps|)
  }

  /** A non-blank paragraph gives non-empty lines followed by exactly one empty line. */
  lemma BlockShape(p: string)
    requires !IsBlank(p)
    ensures |Block(p)| >= 2
    ensures Block(p)[|Block(p)| - 1] == ""
    ensures forall k | 0 <= k < |Block(p)| - 1 :: Block(p)[k] != ""
    ensures Words(Join(Block(p)[..|Block(p)| - 1], " ")) == Words(Strip(p))
  {
    var ws := Words(Strip(p));
    assert AllWords(ws);
    ParagraphLines(ws);
    assert Block(p) == Wrap(ws) + [""];
  }

  lemma ParagraphLines(ws: seq<string>)
    requires AllWords(ws) && ws != []
    ensures var b := Wrap(ws) + [""];
      |b| >= 2 && b[|b| - 1] == ""
      && (forall k | 0 <= k < |b| - 1 :: b[k] != "")
      && Words(Join(b[..|b| - 1], " ")) == ws
  {
    var b := Wrap(ws) + [""];
    WrapLinesNonEmpty(ws, 0);
    WrapKeepsWords(ws);
    assert b[..|b| - 1] == Wrap(ws);
  }

  lemma NonBlankBlock(p: string)
    requires Strip(p) != ""
    ensures Block(p) == Wrap(Words(Strip(p))) + [""]
  {
  }

  /** `clean_text_for_video`: markdown removed, paragraphs wrapped, lines joined with newlines. */
  method CleanTextForVideo(text: string) returns (out: string)
    ensures out == Join(Layout(Split(StripMarkdown(text), "\n\n")), "\n")
  {
    var paragraphs := Split(StripMarkdown(text), "\n\n");
    var formattedLines := FormatParagraphs(paragraphs);
    out := Join(formattedLines, "\n");
  }

  /** The paragraph loop of `clean_text_for_video`. */
  method FormatParagraphs(paragraphs: seq<string>) returns (formattedLines: seq<string>)
    ensures formattedLines == Layout(paragraphs)
  {
    formattedLines := [];
    var k := 0;
    while k < |paragraphs|
      invariant 0 <= k <= |paragraphs|
      invariant formattedLines == LayoutUpTo(paragraphs, k)
    {
      var block := FormatParagraph(paragraphs[k]);
      LayoutStep(paragraphs, k, block);
      formattedLines := formattedLines + block;
      k := k + 1;
    }
  }

  /** Each paragraph appends its own block to the lines of those before it. */
  lemma LayoutStep(ps: seq<string>, k: nat, block: seq<string>)
    requires k < |ps| && block == Block(ps[k])
    ensures LayoutUpTo(ps, k + 1) == LayoutUpTo(ps, k) + block
  {
  }

  /** One turn of that loop: a stripped, non-empty paragraph is wrapped and followed by an empty line. */
  method FormatParagraph(paragraph: string) returns (block: seq<string>)
    ensures block == Block(paragraph)
  {
    var para := Strip(paragraph);
    if para != "" {
      var words := Words(para);
      var wrapped := WrapParagraph(words);
      NonBlankBlock(paragraph);
      block := wrapped + [""];
    } else {
      block := [];
    }
  }
}
