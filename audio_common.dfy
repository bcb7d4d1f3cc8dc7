/**
 * What the five audiobook builders (scripts/build_audio*.py) have in common:
 * the cast and the rule that picks a speaker for a paragraph, the keyword
 * groups their emotion rules test, the split of a chapter into paragraphs,
 * the markdown removed before speech, the names of the files they write and
 * the order in which they walk the book.
 */
module AudioCommon {
  import opened Wrappers
  import opened Seqs
  import opened Text
  import opened MarkdownRegex
  import opened Books

  // ----- the cast -------------------------------------------------------------

  /** The keys of every `VOICE_MAPPING`, in the order the tables list them. */
  datatype Speaker = Narrator | DrSarahMartinez | DavidChen | DrRajPatel | ArtemisAi
                   | MarcusRivera | SarahKim | JenniferWu

  /** The speaker's key as the scripts spell it (it also appears in file names). */
  function SpeakerKey(s: Speaker): string
  {
    match s
    case Narrator => "narrator"
    case DrSarahMartinez => "dr_sarah_martinez"
    case DavidChen => "david_chen"
    case DrRajPatel => "dr_raj_patel"
    case ArtemisAi => "artemis_ai"
    case MarcusRivera => "marcus_rivera"
    case SarahKim => "sarah_kim"
    case JenniferWu => "jennifer_wu"
  }

  /** The keys of `VOICE_MAPPING` in the order the tables list them. */
  const Cast: seq<Speaker> := [Narrator, DrSarahMartinez, DavidChen, DrRajPatel, ArtemisAi, MarcusRivera, SarahKim, JenniferWu]

  /**
   * Every speaker the rules can return has its entry in the table, and the
   * eight entries have eight different keys, so the voice count written to
   * the metadata is the number of speakers.
   */
  lemma CastComplete(s: Speaker)
    ensures s in Cast
    ensures |Cast| == 8
    ensures forall i, j | 0 <= i < j < |Cast| :: SpeakerKey(Cast[i]) != SpeakerKey(Cast[j])
  {
  }

  /** `sub in text.lower()`: case-insensitive substring containment (so "hell" is found in "Hello"). */
  predicate Mentions(text: string, sub: string)
  {
    Contains(Lower(text), sub)
  }

  /** `'"' in text`: the paragraph holds a double quote. */
  predicate HasQuote(text: string)
  {
    '"' in text
  }

  /** The clue that names speaker `s` in a paragraph; the narrator is what is left when no clue is present. */
  predicate Named(text: string, s: Speaker)
  {
    match s
    case Narrator => false
    case DrSarahMartinez => Mentions(text, "sarah martinez") || Mentions(text, "dr. martinez")
    case DavidChen => Mentions(text, "david chen") && HasQuote(text)
    case DrRajPatel => Mentions(text, "raj patel") || Mentions(text, "dr. patel")
    case ArtemisAi => Mentions(text, "artemis") && HasQuote(text)
    case MarcusRivera => Mentions(text, "marcus rivera") || Mentions(text, "marcus said")
    case SarahKim => Mentions(text, "sarah kim")
    case JenniferWu => Mentions(text, "jennifer wu") || Mentions(text, "jennifer said")
  }

  /** The priority of a speaker's clue: lower is tried first; the narrator comes last. */
  function Rank(s: Speaker): nat
  {
    match s
    case DrSarahMartinez => 0
    case DavidChen => 1
    case DrRajPatel => 2
    case ArtemisAi => 3
    case MarcusRivera => 4
    case SarahKim => 5
    case JenniferWu => 6
    case Narrator => 7
  }

  /**
   * `identify_speaker_from_context`, which is the same text in all five
   * builders: a chain of substring tests on the lower-cased paragraph.
   */
  function IdentifySpeaker(text: string): Speaker
  {
    var t := Lower(text);
    if Contains(t, "sarah martinez") || Contains(t, "dr. martinez") then DrSarahMartinez
    else if Contains(t, "david chen") && '"' in text then DavidChen
    else if Contains(t, "raj patel") || Contains(t, "dr. patel") then DrRajPatel
    else if Contains(t, "artemis") && '"' in text then ArtemisAi
    else if Contains(t, "marcus rivera") || Contains(t, "marcus said") then MarcusRivera
    else if Contains(t, "sarah kim") then SarahKim
    else if Contains(t, "jennifer wu") || Contains(t, "jennifer said") then JenniferWu
    else Narrator
  }

  /**
   * The speaker is the one whose clue comes first in priority order among
   * those present, and the narrator exactly when no clue is present.
   */
  lemma SpeakerIsFirstNamed(text: string, s: Speaker)
    ensures IdentifySpeaker(text) == Narrator || Named(text, IdentifySpeaker(text))
    ensures Named(text, s) ==> Rank(IdentifySpeaker(text)) <= Rank(s)
    ensures IdentifySpeaker(text) == Narrator ==> !Named(text, s)
  {
  }

  /** Naming Dr. Martinez wins over every other clue, "sarah kim" included. */
  lemma MartinezFirst(text: string)
    requires Mentions(text, "sarah martinez")
    ensures IdentifySpeaker(text) == DrSarahMartinez
  {
  }

  /** David Chen and ARTEMIS are only chosen for a paragraph with a double quote in it. */
  lemma QuotedSpeakers(text: string)
    requires !HasQuote(text)
    ensures IdentifySpeaker(text) != DavidChen && IdentifySpeaker(text) != ArtemisAi
  {
  }

  /** Letter case does not matter: paragraphs equal up to case get the same speaker. */
  lemma SpeakerIgnoresCase(a: string, b: string)
    requires Lower(a) == Lower(b) && (HasQuote(a) <==> HasQuote(b))
    ensures IdentifySpeaker(a) == IdentifySpeaker(b)
  {
  }

  // ----- emotions -------------------------------------------------------------

  /** Every emotion label any of the builders uses. */
  datatype Emotion =
    | Neutral | Excited | Concerned | Frustrated | Contemplative | Hopeful | Defeated
    | Serious | Professional | Determined | Compassionate | Anxious | Curious | Peaceful
    | Analytical | Focused | Amazed | Synthetic | Awakening | Confused | Enlightened
    | Melancholic | Inspired | Worried | Balanced | Wise | Encouraging | Thoughtful | Confident

  /** The label as the scripts spell it (it appears in file names). */
  function EmotionLabel(e: Emotion): string
  {
    match e
    case Neutral => "neutral"
    case Excited => "excited"
    case Concerned => "concerned"
    case Frustrated => "frustrated"
    case Contemplative => "contemplative"
    case Hopeful => "hopeful"
    case Defeated => "defeated"
    case Serious => "serious"
    case Professional => "professional"
    case Determined => "determined"
    case Compassionate => "compassionate"
    case Anxious => "anxious"
    case Curious => "curious"
    case Peaceful => "peaceful"
    case Analytical => "analytical"
    case Focused => "focused"
    case Amazed => "amazed"
    case Synthetic => "synthetic"
    case Awakening => "awakening"
    case Confused => "confused"
    case Enlightened => "enlightened"
    case Melancholic => "melancholic"
    case Inspired => "inspired"
    case Worried => "worried"
    case Balanced => "balanced"
    case Wise => "wise"
    case Encouraging => "encouraging"
    case Thoughtful => "thoughtful"
    case Confident => "confident"
  }

  /** The six keyword groups the emotion rules test. */
  datatype Cue = Excitement | Worry | Annoyance | Reflection | Hope | Sadness

  function CueWords(c: Cue): seq<string>
  {
    match c
    case Excitement => ["!", "amazing", "incredible", "breakthrough"]
    case Worry => ["worried", "concern", "afraid", "anxious"]
    case Annoyance => ["frustrated", "damn", "hell", "annoying"]
    case Reflection => ["wonder", "think", "perhaps", "maybe"]
    case Hope => ["hope", "believe", "possible", "can do"]
    case Sadness => ["sad", "lost", "defeat", "fail"]
  }

  /** `any(word in text.lower() for word in group)`. */
  predicate Cued(text: string, c: Cue)
  {
    exists w | w in CueWords(c) :: Mentions(text, w)
  }

  /** The plain label of a keyword group, as the builders that do not consult a voice table return it. */
  function CueEmotion(c: Cue): (e: Emotion)
    ensures e != Neutral
  {
    match c
    case Excitement => Excited
    case Worry => Concerned
    case Annoyance => Frustrated
    case Reflection => Contemplative
    case Hope => Hopeful
    case Sadness => Defeated
  }

  /**
   * An if-chain of keyword groups tried in `order`: the label of the first
   * group that matches, otherwise neutral.
   */
  function KeywordEmotion(text: string, order: seq<Cue>): Emotion
  {
    if order == [] then Neutral
    else if Cued(text, order[0]) then CueEmotion(order[0])
    else KeywordEmotion(text, order[1..])
  }

  /** The result is neutral exactly when no group in the order matches; otherwise it is the label of a group that matches. */
  lemma {:induction false} KeywordEmotionNeutral(text: string, order: seq<Cue>)
    ensures KeywordEmotion(text, order) == Neutral <==> forall c | c in order :: !Cued(text, c)
    ensures KeywordEmotion(text, order) != Neutral ==>
      exists c | c in order :: Cued(text, c) && KeywordEmotion(text, order) == CueEmotion(c)
    decreases |order|
  {
    if order != [] {
      var rest := order[1..];
      KeywordEmotionNeutral(text, rest);
      assert order == [order[0]] + rest;
      if !Cued(text, order[0]) {
        if KeywordEmotion(text, rest) != Neutral {
          var c :| c in rest && Cued(text, c) && KeywordEmotion(text, rest) == CueEmotion(c);
          assert c in order;
        }
      }
    }
  }

  /** A group that matches settles the result when no group before it matches. */
  lemma {:induction false} KeywordEmotionAt(text: string, order: seq<Cue>, k: nat)
    requires k < |order| && Cued(text, order[k])
    requires forall m | 0 <= m < k :: !Cued(text, order[m])
    ensures KeywordEmotion(text, order) == CueEmotion(order[k])
    decreases k
  {
    if k > 0 {
      assert !Cued(text, order[0]);
      var rest := order[1..];
      assert rest[k - 1] == order[k];
      forall m | 0 <= m < k - 1 ensures !Cued(text, rest[m]) {
        assert rest[m] == order[m + 1];
      }
      KeywordEmotionAt(text, rest, k - 1);
    }
  }

  /** Testing one more group in front: it decides when it matches, otherwise the rest decide. */
  lemma KeywordEmotionCons(text: string, c: Cue, rest: seq<Cue>)
    ensures KeywordEmotion(text, [c] + rest)
      == if Cued(text, c) then CueEmotion(c) else KeywordEmotion(text, rest)
  {
    assert ([c] + rest)[1..] == rest;
  }

  /** Three groups tried in front of the rest. */
  lemma KeywordEmotionThree(text: string, a: Cue, b: Cue, c: Cue, rest: seq<Cue>)
    ensures KeywordEmotion(text, [a, b, c] + rest) ==
      if Cued(text, a) then CueEmotion(a)
      else if Cued(text, b) then CueEmotion(b)
      else if Cued(text, c) then CueEmotion(c)
      else KeywordEmotion(text, rest)
  {
    KeywordEmotionCons(text, c, rest);
    KeywordEmotionCons(text, b, [c] + rest);
    KeywordEmotionCons(text, a, [b] + ([c] + rest));
    assert [a, b, c] + rest == [a] + ([b] + ([c] + rest));
  }

  /** Three groups and nothing after them. */
  lemma KeywordEmotionTriple(text: string, a: Cue, b: Cue, c: Cue)
    ensures KeywordEmotion(text, [a, b, c]) ==
      if Cued(text, a) then CueEmotion(a)
      else if Cued(text, b) then CueEmotion(b)
      else if Cued(text, c) then CueEmotion(c)
      else Neutral
  {
    KeywordEmotionThree(text, a, b, c, []);
    assert [a, b, c] + [] == [a, b, c];
  }

  /** Six groups tried in turn, written out as the builders write their if-chains. */
  lemma KeywordEmotionSix(text: string, a: Cue, b: Cue, c: Cue, d: Cue, e: Cue, f: Cue)
    ensures KeywordEmotion(text, [a, b, c, d, e, f]) ==
      if Cued(text, a) then CueEmotion(a)
      else if Cued(text, b) then CueEmotion(b)
      else if Cued(text, c) then CueEmotion(c)
      else if Cued(text, d) then CueEmotion(d)
      else if Cued(text, e) then CueEmotion(e)
      else if Cued(text, f) then CueEmotion(f)
      else Neutral
  {
    var tail := [d, e, f];
    assert [a, b, c] + tail == [a, b, c, d, e, f];
    KeywordEmotionThree(text, a, b, c, tail);
    KeywordEmotionTriple(text, d, e, f);
  }

  /** Any `!` triggers the excitement group. */
  lemma ExclamationExcites(text: string)
    requires '!' in text
    ensures Cued(text, Excitement)
  {
    var i :| 0 <= i < |text| && text[i] == '!';
    var t := Lower(text);
    assert t[i] == '!';
    ContainsChar(t, '!');
    assert "!" == ['!'];
    assert "!" in CueWords(Excitement);
  }

  // ----- paragraphs -------------------------------------------------------------

  /** The paragraphs that survive `para = para.strip(); if not para: continue`, in order. */
  function Paragraphs(pieces: seq<string>): (r: seq<string>)
    ensures |r| <= |pieces|
  {
    if pieces == [] then []
    else
      var last := Strip(pieces[|pieces| - 1]);
      Paragraphs(pieces[..|pieces| - 1]) + (if last == [] then [] else [last])
  }

  /** The paragraphs of a chapter's text: `text.split('\n\n')`, stripped, blank ones dropped. */
  function ParagraphsOf(text: string): seq<string>
  {
    Paragraphs(Split(text, "\n\n"))
  }

  /** The number of pieces that are not blank. */
  function NonBlankCount(pieces: seq<string>): nat
  {
    if pieces == [] then 0
    else NonBlankCount(pieces[..|pieces| - 1]) + (if IsBlank(pieces[|pieces| - 1]) then 0 else 1)
  }

  /** Exactly one paragraph per non-blank piece, each stripped and non-empty. */
  lemma {:induction false} ParagraphsClean(pieces: seq<string>)
    ensures |Paragraphs(pieces)| == NonBlankCount(pieces)
    ensures forall k | 0 <= k < |Paragraphs(pieces)| :: Paragraphs(pieces)[k] != [] && Trimmed(Paragraphs(pieces)[k])
    decreases |pieces|
  {
    if pieces != [] {
      var init := pieces[..|pieces| - 1];
      ParagraphsClean(init);
      var last := Strip(pieces[|pieces| - 1]);
      var r := Paragraphs(pieces);
      assert r == Paragraphs(init) + (if last == [] then [] else [last]);
      forall k | 0 <= k < |r| ensures r[k] != [] && Trimmed(r[k]) {
        if k < |Paragraphs(init)| {
          assert r[k] == Paragraphs(init)[k];
        } else {
          assert r[k] == last;
        }
      }
    }
  }

  /** Paragraphs keep their order: the paragraphs of two runs of pieces are those of each, one after the other. */
  lemma {:induction false} ParagraphsAppend(a: seq<string>, b: seq<string>)
    ensures Paragraphs(a + b) == Paragraphs(a) + Paragraphs(b)
    decreases |b|
  {
    if b == [] {
      assert a + b == a;
    } else {
      var init := b[..|b| - 1];
      var last := Strip(b[|b| - 1]);
      InitOfAppend(a, b);
      ParagraphsAppend(a, init);
      ConcatAssoc(Paragraphs(a), Paragraphs(init), if last == [] then [] else [last]);
    }
  }

  /** One more piece adds its stripped text exactly when it is not blank. */
  lemma ParagraphsStep(pieces: seq<string>, k: nat)
    requires k < |pieces|
    ensures Paragraphs(pieces[..k + 1])
      == Paragraphs(pieces[..k]) + (if Strip(pieces[k]) == [] then [] else [Strip(pieces[k])])
  {
    PrefixStep(pieces, k);
  }

  // ----- segments -------------------------------------------------------------

  /** One entry of `detect_dialogue_and_speaker`'s result: `(speaker, text, emotion)`. */
  datatype Segment = Segment(speaker: Speaker, text: string, emotion: Emotion)

  /** Each paragraph classified in turn. */
  function Classified(ps: seq<string>, classify: string -> Segment): (r: seq<Segment>)
    ensures |r| == |ps|
  {
    if ps == [] then [] else Classified(ps[..|ps| - 1], classify) + [classify(ps[|ps| - 1])]
  }

  /** Segment `k` is the classification of paragraph `k`. */
  lemma {:induction false} ClassifiedAt(ps: seq<string>, classify: string -> Segment, k: nat)
    requires k < |ps|
    ensures Classified(ps, classify)[k] == classify(ps[k])
    decreases |ps|
  {
    if k < |ps| - 1 {
      ClassifiedAt(ps[..|ps| - 1], classify, k);
    }
  }

  /**
   * The loop of `detect_dialogue_and_speaker`: split on blank lines, strip
   * each paragraph, skip the blank ones and classify the others, in order.
   * The builders differ only in `classify`.
   */
  method Segmentation(text: string, classify: string -> Segment) returns (segments: seq<Segment>)
    ensures segments == Classified(ParagraphsOf(text), classify)
  {
    var paragraphs := Split(text, "\n\n");
    segments := [];
    var k := 0;
    while k < |paragraphs|
      invariant 0 <= k <= |paragraphs|
      invariant segments == Classified(Paragraphs(paragraphs[..k]), classify)
    {
      var para := Strip(paragraphs[k]);
      SegmentationStep(paragraphs, k, classify, segments);
      if para != [] {
        segments := segments + [classify(para)];
      }
      k := k + 1;
    }
    SliceWhole(paragraphs);
  }

  lemma SegmentationStep(pieces: seq<string>, k: nat, classify: string -> Segment, done: seq<Segment>)
    requires k < |pieces| && done == Classified(Paragraphs(pieces[..k]), classify)
    ensures (if Strip(pieces[k]) == [] then done else done + [classify(Strip(pieces[k]))])
      == Classified(Paragraphs(pieces[..k + 1]), classify)
  {
    ParagraphsStep(pieces, k);
    var before := Paragraphs(pieces[..k]);
    var para := Strip(pieces[k]);
    if para != [] {
      assert (before + [para])[..|before|] == before;
    } else {
      assert before + [] == before;
    }
  }

  /** One segment per non-blank paragraph, carrying that paragraph's stripped text, in order. */
  lemma SegmentsFollowParagraphs(text: string, classify: string -> Segment, k: nat)
    requires k < |ParagraphsOf(text)|
    ensures |Classified(ParagraphsOf(text), classify)| == NonBlankCount(Split(text, "\n\n"))
    ensures Classified(ParagraphsOf(text), classify)[k] == classify(ParagraphsOf(text)[k])
    ensures ParagraphsOf(text)[k] != [] && Trimmed(ParagraphsOf(text)[k])
  {
    ParagraphsClean(Split(text, "\n\n"));
    ClassifiedAt(ParagraphsOf(text), classify, k);
  }

  // ----- markdown removed before speech ------------------------------------------

  /** `#?` then `\s+` after the two leading `#` of a heading: the end of the match, if any. */
  function SpeechHeadingEnd(s: string): (r: Option<nat>)
    requires StartsWith(s, "##")
    ensures r.Some? ==> 3 <= r.value <= |s|
  {
    var h := if |s| > 2 && s[2] == '#' then 3 else 2;
    if h < |s| && IsSpace(s[h]) then Some(h + SpaceRun(s[h..])) else None
  }

  /**
   * `re.sub(r'^###?\s+', '', s, flags=re.MULTILINE)`. Only two or three
   * `#` followed by whitespace are removed; `\s+` may run over newlines, so
   * after a match the next position starts a line exactly when the match
   * ended in a newline.
   */
  function SpeechHeadings(s: string, lineStart: bool): string
    decreases |s|
  {
    if s == [] then []
    else if lineStart && StartsWith(s, "##") && SpeechHeadingEnd(s).Some? then
      var e := SpeechHeadingEnd(s).value;
      SpeechHeadings(s[e..], s[e - 1] == '\n')
    else [s[0]] + SpeechHeadings(s[1..], s[0] == '\n')
  }

  /** The three substitutions of `process_chapter_audio`: headings, then bold, then italic markers. */
  function StripMarkdown(content: string): string
  {
    SubPaired(SubPaired(SpeechHeadings(content, true), "**", "", ""), "*", "", "")
  }

  /** A `## ` heading loses its marks and the space after them. */
  lemma SecondLevelHeading(t: string)
    requires t != [] && !IsSpace(t[0])
    ensures SpeechHeadings("## " + t, true) == SpeechHeadings(t, false)
  {
    var s := "## " + t;
    assert StartsWith(s, "##") by { assert s[..2] == "##"; }
    assert s[2] == ' ' && s[3..] == t;
    assert SpaceRun(s[2..]) == 1 by { assert s[2..][1..] == t; }
    assert SpeechHeadingEnd(s) == Some(3);
  }

  /** A `# ` heading is not a match of the pattern: the first `#` is kept and the line is read on. */
  lemma FirstLevelHeadingKept(t: string)
    ensures SpeechHeadings("# " + t, true) == "#" + SpeechHeadings(" " + t, false)
  {
    var s := "# " + t;
    assert s[1] == ' ';
    assert !StartsWith(s, "##");
    assert s[1..] == " " + t;
  }

  /** Four `#` do not match either: after `###` the pattern needs whitespace, and `#?` cannot skip a `#`. */
  lemma FourHashesKept(t: string)
    ensures SpeechHeadings("#### " + t, true) == "#" + SpeechHeadings("### " + t, false)
  {
    var s := "#### " + t;
    assert StartsWith(s, "##") by { assert s[..2] == "##"; }
    assert s[2] == '#' && s[3] == '#';
    assert SpeechHeadingEnd(s).None?;
    assert s[1..] == "### " + t;
  }

  lemma {:induction false} SpeechHeadingsAbsent(s: string, lineStart: bool)
    requires '#' !in s
    ensures SpeechHeadings(s, lineStart) == s
    decreases |s|
  {
    if s != [] {
      assert !StartsWith(s, "##") by { assert s[0] != '#'; }
      SpeechHeadingsAbsent(s[1..], s[0] == '\n');
      assert [s[0]] + s[1..] == s;
    }
  }

  /** Text with neither `#` nor `*` in it is spoken as it is written. */
  lemma PlainTextUnchanged(s: string)
    requires '#' !in s && '*' !in s
    ensures StripMarkdown(s) == s
  {
    SpeechHeadingsAbsent(s, true);
    SubPairedAbsent(s, "**", "", "");
    SubPairedAbsent(s, "*", "", "");
  }

  /** Bold text on its own loses its markers. */
  lemma BoldUnwrapped(x: string)
    requires x != [] && '\n' !in x && '*' !in x && '#' !in x
    ensures StripMarkdown("**" + x + "**") == x
  {
    var s := "**" + x + "**";
    assert '#' !in s by {
      forall i | 0 <= i < |s| ensures s[i] != '#' {
        if 2 <= i < 2 + |x| { assert s[i] == x[i - 2]; }
      }
    }
    SpeechHeadingsAbsent(s, true);
    SubPairedSpan(x, "**", "", "", "");
    assert s == "**" + x + "**" + "";
    assert SubPaired("", "**", "", "") == "";
    assert "" + x + "" + "" == x;
    SubPairedAbsent(x, "*", "", "");
  }

  // ----- speech text ------------------------------------------------------------

  /** A character the speech cleaning keeps: anything but the markdown marks `#` and `*`. */
  predicate KeptForSpeech(c: char)
  {
    c != '#' && c != '*'
  }

  /** The characters of `s` that the speech cleaning keeps, in their order. */
  function MarksDropped(s: string): (r: string)
    ensures forall c :: c in r <==> c in s && KeptForSpeech(c)
    ensures |r| <= |s|
  {
    if s == [] then []
    else
      assert s == [s[0]] + s[1..];
      (if KeptForSpeech(s[0]) then [s[0]] else []) + MarksDropped(s[1..])
  }

  /** `text.replace('#', '').replace('*', '')`, what the engines are given. */
  function CleanForSpeech(text: string): (r: string)
    ensures r == MarksDropped(text)
    ensures '#' !in r && '*' !in r
  {
    CleanIsMarksDropped(text);
    Replace(Replace(text, "#", ""), "*", "")
  }

  /** Removing one character from a string that starts with `c`: `c` goes when it is the one removed. */
  lemma {:induction false} ReplaceCharCons(c: char, x: string, p: char)
    ensures Replace([c] + x, [p], "") == (if c == p then [] else [c]) + Replace(x, [p], "")
  {
    var s := [c] + x;
    assert s[..1] == [c] && s[1..] == x;
  }

  /** The two replacements drop exactly the marks and keep everything else in order. */
  lemma {:induction false} CleanIsMarksDropped(s: string)
    ensures Replace(Replace(s, "#", ""), "*", "") == MarksDropped(s)
    decreases |s|
  {
    if s != [] {
      var c, x := s[0], s[1..];
      assert s == [c] + x;
      ReplaceCharCons(c, x, '#');
      CleanIsMarksDropped(x);
      assert MarksDropped(s) == (if KeptForSpeech(c) then [c] else []) + MarksDropped(x);
      if c == '#' {
        assert Replace(s, "#", "") == Replace(x, "#", "");
      } else {
        assert Replace(s, "#", "") == [c] + Replace(x, "#", "");
        ReplaceCharCons(c, Replace(x, "#", ""), '*');
      }
    }
  }

  /** Removing one character never brings in another. */
  lemma {:induction false} ReplaceKeeps(s: string, c: char, d: char)
    requires d != c && d in Replace(s, [c], "")
    ensures d in s
    decreases |s|
  {
    if |s| >= 1 {
      if s[..1] == [c] {
        assert Replace(s, [c], "") == Replace(s[1..], [c], "");
        ReplaceKeeps(s[1..], c, d);
      } else {
        assert Replace(s, [c], "") == [s[0]] + Replace(s[1..], [c], "");
        if s[0] != d {
          ReplaceKeeps(s[1..], c, d);
        }
      }
    }
  }

  // ----- file names ---------------------------------------------------------------

  /** `f"{i+1:03d}_{speaker}_{emotion}{suffix}.wav"` for segment `i` (0-based). */
  function SegmentFile(i: nat, seg: Segment, suffix: string): string
  {
    ZeroPad(i + 1, 3) + "_" + SpeakerKey(seg.speaker) + "_" + EmotionLabel(seg.emotion) + suffix + ".wav"
  }

  /** The first three characters of a segment's file name are its 1-based number. */
  lemma SegmentFileNumber(i: nat, seg: Segment, suffix: string)
    requires i < 999
    ensures |SegmentFile(i, seg, suffix)| > 3
    ensures AllDigits(SegmentFile(i, seg, suffix)[..3])
    ensures ParseNat(SegmentFile(i, seg, suffix)[..3]) == i + 1
  {
    var z := ZeroPad(i + 1, 3);
    NatToStringShort(i + 1);
    assert |z| == 3;
    assert SegmentFile(i, seg, suffix)[..3] == z;
    ParseZeroPad(i + 1, 3);
  }

  lemma NatToStringShort(n: nat)
    requires n < 1000
    ensures |NatToString(n)| <= 3
  {
    if n >= 10 {
      assert |NatToString(n / 10)| <= 2 by {
        if n / 10 >= 10 { assert n / 100 < 10; }
      }
    }
  }

  /** Different segments of a chapter never share a file name. */
  lemma SegmentFilesDistinct(i: nat, j: nat, a: Segment, b: Segment, suffix: string)
    requires i < 999 && j < 999 && i != j
    ensures SegmentFile(i, a, suffix) != SegmentFile(j, b, suffix)
  {
    SegmentFileNumber(i, a, suffix);
    SegmentFileNumber(j, b, suffix);
  }

  /**
   * The loop of `process_chapter_audio` in the builders without an enhancing
   * step: `spoken(i)` is what the engine call for segment `i` returned, that
   * is the result of the builder's own `TextToSpeechXtts` or
   * `TextToSpeechKokoro` for that segment.
   */
  function SpokenFiles(segments: seq<Segment>, spoken: nat -> bool): (r: seq<string>)
    ensures |r| <= |segments|
  {
    if segments == [] then []
    else
      var i := |segments| - 1;
      SpokenFiles(segments[..i], spoken)
      + (if !IsBlank(segments[i].text) && spoken(i) then [SegmentFile(i, segments[i], "")] else [])
  }

  method CollectSpokenFiles(segments: seq<Segment>, spoken: nat -> bool) returns (audioFiles: seq<string>)
    ensures audioFiles == SpokenFiles(segments, spoken)
  {
    audioFiles := [];
    var i := 0;
    while i < |segments|
      invariant 0 <= i <= |segments|
      invariant audioFiles == SpokenFiles(segments[..i], spoken)
    {
      SpokenFilesStep(segments, spoken, i, audioFiles);
      if !IsBlank(segments[i].text) {
        if spoken(i) {
          audioFiles := audioFiles + [SegmentFile(i, segments[i], "")];
        }
      }
      i := i + 1;
    }
    SliceWhole(segments);
  }

  lemma SpokenFilesStep(segments: seq<Segment>, spoken: nat -> bool, i: nat, done: seq<string>)
    requires i < |segments| && done == SpokenFiles(segments[..i], spoken)
    ensures SpokenFiles(segments[..i + 1], spoken)
      == done + (if !IsBlank(segments[i].text) && spoken(i) then [SegmentFile(i, segments[i], "")] else [])
  {
    PrefixStep(segments, i);
  }

  /** When every segment was spoken there is one file per segment (no segment text is blank). */
  lemma {:induction false} AllSpoken(segments: seq<Segment>, spoken: nat -> bool)
    requires forall k | 0 <= k < |segments| :: !IsBlank(segments[k].text) && spoken(k)
    ensures |SpokenFiles(segments, spoken)| == |segments|
    decreases |segments|
  {
    if segments != [] {
      var i := |segments| - 1;
      AllSpoken(segments[..i], spoken);
      assert !IsBlank(segments[i].text) && spoken(i);
    }
  }

  /** A segment whose text came out of the paragraph split is never skipped as blank. */
  lemma SegmentTextNotBlank(p: string)
    requires p != [] && Trimmed(p)
    ensures !IsBlank(p)
  {
    assert !IsSpace(p[0]);
  }

  /**
   * `process_chapter_audio` of the builders without an enhancing step: the
   * markdown is removed, the text is cut into segments by `classify`, and a
   * segment's file is kept when the engine call for it (`spoken(i)`)
   * succeeded. When every call succeeds, every paragraph yields a file.
   */
  method ProcessChapterAudio(content: string, classify: string -> Segment, spoken: nat -> bool)
    returns (segments: seq<Segment>, audioFiles: seq<string>)
    requires forall p :: classify(p).text == p
    ensures segments == Classified(ParagraphsOf(StripMarkdown(content)), classify)
    ensures audioFiles == SpokenFiles(segments, spoken)
    ensures (forall k | 0 <= k < |segments| :: spoken(k)) ==> |audioFiles| == |ParagraphsOf(StripMarkdown(content))|
  {
    var text := StripMarkdown(content);
    segments := Segmentation(text, classify);
    audioFiles := CollectSpokenFiles(segments, spoken);
    EveryParagraphSpoken(text, classify, spoken);
  }

  /** When every engine call succeeds, every paragraph of the text yields a file. */
  lemma EveryParagraphSpoken(text: string, classify: string -> Segment, spoken: nat -> bool)
    requires forall p :: classify(p).text == p
    ensures (forall k | 0 <= k < |Classified(ParagraphsOf(text), classify)| :: spoken(k))
      ==> |SpokenFiles(Classified(ParagraphsOf(text), classify), spoken)| == |ParagraphsOf(text)|
  {
    var segments := Classified(ParagraphsOf(text), classify);
    if forall k | 0 <= k < |segments| :: spoken(k) {
      EverySegmentSpoken(text, classify, spoken);
    }
  }

  lemma EverySegmentSpoken(text: string, classify: string -> Segment, spoken: nat -> bool)
    requires forall p :: classify(p).text == p
    requires forall k | 0 <= k < |Classified(ParagraphsOf(text), classify)| :: spoken(k)
    ensures |SpokenFiles(Classified(ParagraphsOf(text), classify), spoken)| == |ParagraphsOf(text)|
  {
    var segments := Classified(ParagraphsOf(text), classify);
    forall k | 0 <= k < |segments| ensures !IsBlank(segments[k].text) {
      SegmentsFollowParagraphs(text, classify, k);
      SegmentTextNotBlank(ParagraphsOf(text)[k]);
    }
    AllSpoken(segments, spoken);
  }

  /** `combine_audio_files`: an empty list is refused before anything is written; otherwise ffmpeg decides. */
  function CombineAudioFiles(files: seq<string>, ffmpegSucceeds: bool): (ok: bool)
    ensures files == [] ==> !ok
    ensures ok ==> ffmpegSucceeds
  {
    files != [] && ffmpegSucceeds
  }

  // ----- the walk over the book -----------------------------------------------------

  /** The combined file of one part: `000_foreword.wav`, `{i:03d}_chapter_{i}.wav`, `999_epilogue.wav`. */
  function CombinedFile(p: Part): string
  {
    match p
    case Foreword => "000_foreword.wav"
    case Chapter(n) => ZeroPad(n, 3) + "_" + ChapterStem(n) + ".wav"
    case Epilogue => "999_epilogue.wav"
  }

  function CombinedFiles(parts: seq<Part>): (r: seq<string>)
    ensures |r| == |parts|
  {
    if parts == [] then [] else CombinedFiles(parts[..|parts| - 1]) + [CombinedFile(parts[|parts| - 1])]
  }

  /**
   * The parts whose audio is built: the foreword, chapters 1 to `last` and the
   * epilogue, each when it produced at least one segment file (`made`).
   */
  function AudiobookParts(foreword: bool, made: nat -> bool, last: nat, epilogue: bool): seq<Part>
  {
    (if foreword then [Foreword] else []) + Chapters(Present(made, FirstChapter, last))
    + (if epilogue then [Epilogue] else [])
  }

  /** The full builders walk the same parts as every other builder of the book. */
  lemma FullAudiobook(foreword: bool, made: nat -> bool, epilogue: bool)
    ensures AudiobookParts(foreword, made, LastChapter, epilogue) == BookParts(foreword, made, epilogue)
  {
  }

  /**
   * The build loop of `build_audiobook*`: `all_chapter_files` gets the
   * combined file of each part that produced segment files, whether or not
   * combining it succeeded.
   */
  method CollectChapterFiles(foreword: bool, made: nat -> bool, last: nat, epilogue: bool)
    returns (allChapterFiles: seq<string>)
    ensures allChapterFiles == CombinedFiles(AudiobookParts(foreword, made, last, epilogue))
  {
    ghost var head: seq<Part> := if foreword then [Foreword] else [];
    allChapterFiles := [];
    if foreword {
      allChapterFiles := allChapterFiles + [CombinedFile(Foreword)];
    }
    ChapterFilesStart(foreword, made, allChapterFiles);
    var i := FirstChapter;
    while i <= last
      invariant FirstChapter <= i <= if last < FirstChapter then FirstChapter else last + 1
      invariant allChapterFiles == CombinedFiles(head + Chapters(Present(made, FirstChapter, i - 1)))
    {
      ChapterFilesStep(made, head, allChapterFiles, i);
      if made(i) {
        allChapterFiles := allChapterFiles + [CombinedFile(Chapter(i))];
      }
      i := i + 1;
    }
    ChapterFilesEnd(foreword, made, last, epilogue, i, allChapterFiles);
    if epilogue {
      allChapterFiles := allChapterFiles + [CombinedFile(Epilogue)];
    }
  }

  lemma ChapterFilesStart(foreword: bool, made: nat -> bool, done: seq<string>)
    requires done == if foreword then [CombinedFile(Foreword)] else []
    ensures done == CombinedFiles((if foreword then [Foreword] else []) + Chapters(Present(made, FirstChapter, FirstChapter - 1)))
  {
    var head: seq<Part> := if foreword then [Foreword] else [];
    assert Chapters(Present(made, FirstChapter, FirstChapter - 1)) == [];
    assert head + [] == head;
    if foreword {
      assert [Foreword][..0] == [];
    }
  }

  lemma ChapterFilesEnd(foreword: bool, made: nat -> bool, last: nat, epilogue: bool, i: nat, done: seq<string>)
    requires FirstChapter <= i && (i == last + 1 || (last < FirstChapter && i == FirstChapter))
    requires done == CombinedFiles((if foreword then [Foreword] else []) + Chapters(Present(made, FirstChapter, i - 1)))
    ensures (if epilogue then done + [CombinedFile(Epilogue)] else done)
      == CombinedFiles(AudiobookParts(foreword, made, last, epilogue))
  {
    var walked := (if foreword then [Foreword] else []) + Chapters(Present(made, FirstChapter, last));
    assert done == CombinedFiles(walked);
    if epilogue {
      assert AudiobookParts(foreword, made, last, epilogue) == walked + [Epilogue];
      CombinedFilesSnoc(walked, Epilogue);
    } else {
      assert AudiobookParts(foreword, made, last, epilogue) == walked + [];
      assert walked + [] == walked;
    }
  }

  lemma CombinedFilesSnoc(parts: seq<Part>, p: Part)
    ensures CombinedFiles(parts + [p]) == CombinedFiles(parts) + [CombinedFile(p)]
  {
    assert (parts + [p])[..|parts|] == parts;
  }

  lemma ChapterFilesStep(made: nat -> bool, head: seq<Part>, done: seq<string>, i: nat)
    requires FirstChapter <= i
    requires done == CombinedFiles(head + Chapters(Present(made, FirstChapter, i - 1)))
    ensures (if made(i) then done + [CombinedFile(Chapter(i))] else done)
      == CombinedFiles(head + Chapters(Present(made, FirstChapter, i)))
  {
    ChapterRangeStep(made, i);
    var before := head + Chapters(Present(made, FirstChapter, i - 1));
    if made(i) {
      AppendChapter(head, Present(made, FirstChapter, i - 1), i);
      assert (before + [Chapter(i)])[..|before|] == before;
    } else {
      assert Present(made, FirstChapter, i - 1) + [] == Present(made, FirstChapter, i - 1);
    }
  }

  /** A build over chapters 1 to `last` with no epilogue holds nothing but the foreword and those chapters. */
  lemma {:induction false} AudiobookScope(foreword: bool, made: nat -> bool, last: nat, p: Part)
    requires p in AudiobookParts(foreword, made, last, false)
    ensures p == Foreword || (p.Chapter? && FirstChapter <= p.n <= last)
  {
    var ns := Present(made, FirstChapter, last);
    var head: seq<Part> := if foreword then [Foreword] else [];
    assert AudiobookParts(foreword, made, last, false) == head + Chapters(ns) + [];
    if p !in head {
      assert p in Chapters(ns);
      var k :| 0 <= k < |ns| && Chapters(ns)[k] == p;
      assert ns[k] in ns;
    }
  }
}
