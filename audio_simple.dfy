// The espeak-ng builder (scripts/build_audio_simple.py): one espeak voice per
// character, a keyword emotion that only changes the speaking rate, and an
// optional sox enhancement pass per segment.
module SimpleAudio {
  import opened Wrappers
  import opened Text
  import opened Seqs
  import opened Books
  import opened AudioCommon

  // ----- voices ---------------------------------------------------------------

  /** One entry of `VOICE_MAPPING`: the espeak voice, its rate in words per minute and its pitch. */
  datatype EspeakVoice = EspeakVoice(voice: string, speed: nat, pitch: string)

  function VoiceConfig(s: Speaker): EspeakVoice
  {
    match s
    case Narrator => EspeakVoice("en+m3", 160, "50")
    case DrSarahMartinez => EspeakVoice("en+f3", 170, "60")
    case DavidChen => EspeakVoice("en+m2", 150, "45")
    case DrRajPatel => EspeakVoice("en+m4", 165, "55")
    case ArtemisAi => EspeakVoice("en+m5", 140, "30")
    case MarcusRivera => EspeakVoice("en+m1", 155, "48")
    case SarahKim => EspeakVoice("en+f2", 165, "55")
    case JenniferWu => EspeakVoice("en+f4", 150, "50")
  }

  // ----- emotions ---------------------------------------------------------------

  /** The order in which `detect_emotion_from_text` tests its keyword groups. */
  const SimpleOrder: seq<Cue> := [Excitement, Worry, Annoyance, Reflection, Hope, Sadness]

  /**
   * `detect_emotion_from_text`: the first keyword group the lower-cased text
   * hits decides, otherwise neutral. The speaker argument is never read.
   */
  function DetectEmotion(text: string, speaker: Speaker): Emotion
  {
    KeywordEmotion(text, SimpleOrder)
  }

  /** The detector returns one of seven labels, neutral exactly when no keyword occurs, and ignores the speaker. */
  lemma EmotionLabels(text: string, speaker: Speaker, other: Speaker)
    ensures DetectEmotion(text, speaker) in {Excited, Concerned, Frustrated, Contemplative, Hopeful, Defeated, Neutral}
    ensures DetectEmotion(text, speaker) == Neutral <==> forall c: Cue :: !Cued(text, c)
    ensures DetectEmotion(text, speaker) == DetectEmotion(text, other)
  {
    DetectEmotionChain(text, speaker);
  }

  /** An exclamation mark anywhere makes the paragraph excited, whatever else it says. */
  lemma ExclamationIsExcited(text: string, speaker: Speaker)
    requires '!' in text
    ensures DetectEmotion(text, speaker) == Excited
  {
    ExclamationExcites(text);
    DetectEmotionChain(text, speaker);
  }

  /** The emotion rules agree with the builder's if-chain, which tries the cue groups one by one. */
  lemma DetectEmotionChain(text: string, speaker: Speaker)
    ensures DetectEmotion(text, speaker) ==
      if Cued(text, Excitement) then Excited
      else if Cued(text, Worry) then Concerned
      else if Cued(text, Annoyance) then Frustrated
      else if Cued(text, Reflection) then Contemplative
      else if Cued(text, Hope) then Hopeful
      else if Cued(text, Sadness) then Defeated
      else Neutral
  {
    KeywordEmotionSix(text, Excitement, Worry, Annoyance, Reflection, Hope, Sadness);
  }

  /** Here the hope group is tried before the sadness group, so a text hitting both (and nothing earlier) is hopeful. */
  lemma HopeBeforeSadness(text: string, speaker: Speaker)
    requires Cued(text, Hope)
    requires !Cued(text, Excitement) && !Cued(text, Worry) && !Cued(text, Annoyance) && !Cued(text, Reflection)
    ensures DetectEmotion(text, speaker) == Hopeful
  {
    DetectEmotionChain(text, speaker);
  }

  // ----- the rate --------------------------------------------------------------

  function Max(a: int, b: int): int { if a >= b then a else b }
  function Min(a: int, b: int): int { if a <= b then a else b }

  /** The speed adjustment of `text_to_speech_espeak`: slower when defeated or contemplative, faster when excited. */
  function EmotionSpeed(base: nat, e: Emotion): nat
  {
    match e
    case Defeated => Max(120, base - 30)
    case Excited => Min(200, base + 20)
    case Contemplative => Max(130, base - 20)
    case _ => base
  }

  /** For every voice of the cast and every emotion, espeak is given a rate of 120 to 200 words per minute. */
  lemma SpeedBounds(s: Speaker, e: Emotion)
    ensures 120 <= EmotionSpeed(VoiceConfig(s).speed, e) <= 200
  {
  }

  /** The adjustment never exceeds its caps and moves the rate in the emotion's direction. */
  lemma SpeedDirection(base: nat, e: Emotion)
    requires 130 <= base <= 200
    ensures e == Defeated ==> 120 <= EmotionSpeed(base, e) < base
    ensures e == Contemplative ==> 130 <= EmotionSpeed(base, e) <= base
    ensures e == Excited ==> base <= EmotionSpeed(base, e) <= 200
    ensures e != Defeated && e != Contemplative && e != Excited ==> EmotionSpeed(base, e) == base
  {
  }

  // ----- one espeak call ----------------------------------------------------------

  /**
   * The argument list `text_to_speech_espeak` runs, or None when the text is
   * blank once `#` and `*` are removed (then nothing is run). The text passed
   * on is the cleaned text, not stripped.
   */
  function EspeakCommand(text: string, speaker: Speaker, emotion: Emotion, outputFile: string): (r: Option<seq<string>>)
  {
    var clean := CleanForSpeech(text);
    if IsBlank(clean) then None
    else
      var config := VoiceConfig(speaker);
      Some(["espeak-ng", "-v", config.voice, "-s", NatToString(EmotionSpeed(config.speed, emotion)),
            "-p", config.pitch, "-w", outputFile, clean])
  }

  /** The command is refused exactly for blank text; otherwise its rate argument reads back as the adjusted rate and its text has no markup. */
  lemma EspeakCommandFacts(text: string, speaker: Speaker, emotion: Emotion, outputFile: string)
    ensures EspeakCommand(text, speaker, emotion, outputFile).None? <==> IsBlank(CleanForSpeech(text))
    ensures EspeakCommand(text, speaker, emotion, outputFile).Some? ==>
      var cmd := EspeakCommand(text, speaker, emotion, outputFile).value;
      |cmd| == 10 && cmd[0] == "espeak-ng" && cmd[2] == VoiceConfig(speaker).voice && cmd[8] == outputFile
      && AllDigits(cmd[4]) && ParseNat(cmd[4]) == EmotionSpeed(VoiceConfig(speaker).speed, emotion)
      && '#' !in cmd[9] && '*' !in cmd[9] && !IsBlank(cmd[9])
  {
    ParseNatToString(EmotionSpeed(VoiceConfig(speaker).speed, emotion));
  }

  /** `text_to_speech_espeak`: true when a command was run and espeak succeeded and wrote the file (`espeakSucceeds`). */
  function TextToSpeechEspeak(text: string, speaker: Speaker, emotion: Emotion, outputFile: string, espeakSucceeds: bool): (ok: bool)
    ensures ok ==> !IsBlank(CleanForSpeech(text))
    ensures ok ==> espeakSucceeds
  {
    EspeakCommand(text, speaker, emotion, outputFile).Some? && espeakSucceeds
  }

  // ----- a chapter ------------------------------------------------------------------

  /** The paragraph rule of `detect_dialogue_and_speaker`: quoted paragraphs get a speaker, the rest are narrated. */
  function Classify(para: string): Segment
  {
    var speaker := if HasQuote(para) then IdentifySpeaker(para) else Narrator;
    Segment(speaker, para, DetectEmotion(para, speaker))
  }

  /** `detect_dialogue_and_speaker`, one segment per non-blank paragraph. */
  method DetectDialogueAndSpeaker(text: string) returns (segments: seq<Segment>)
    ensures segments == Classified(ParagraphsOf(text), Classify)
    ensures |segments| == |ParagraphsOf(text)|
    ensures forall k | 0 <= k < |segments| ::
      segments[k].text == ParagraphsOf(text)[k]
      && (!HasQuote(segments[k].text) ==> segments[k].speaker == Narrator)
  {
    segments := Segmentation(text, Classify);
    forall k | 0 <= k < |segments|
      ensures segments[k].text == ParagraphsOf(text)[k]
      ensures !HasQuote(segments[k].text) ==> segments[k].speaker == Narrator
    {
      SegmentsFollowParagraphs(text, Classify, k);
    }
  }

  /**
   * The files of the loop in `process_chapter_audio` for segment `i`: the
   * enhanced file when espeak (`espeak(i)`) and the enhancement
   * (`enhanced(i)`, sox or its plain copy) succeed, the raw file when only
   * espeak does, nothing otherwise.
   */
  function SegmentOutput(i: nat, seg: Segment, espeak: nat -> bool, enhanced: nat -> bool): seq<string>
  {
    if IsBlank(seg.text) then []
    else if !TextToSpeechEspeak(seg.text, seg.speaker, seg.emotion, SegmentFile(i, seg, "_raw"), espeak(i)) then []
    else if enhanced(i) then [SegmentFile(i, seg, "")]
    else [SegmentFile(i, seg, "_raw")]
  }

  function ChapterFiles(segments: seq<Segment>, espeak: nat -> bool, enhanced: nat -> bool): (r: seq<string>)
    ensures |r| <= |segments|
  {
    if segments == [] then []
    else
      var i := |segments| - 1;
      ChapterFiles(segments[..i], espeak, enhanced) + SegmentOutput(i, segments[i], espeak, enhanced)
  }

  /** The segment loop of `process_chapter_audio`. */
  method ProcessSegments(segments: seq<Segment>, espeak: nat -> bool, enhanced: nat -> bool)
    returns (audioFiles: seq<string>)
    ensures audioFiles == ChapterFiles(segments, espeak, enhanced)
  {
    audioFiles := [];
    var i := 0;
    while i < |segments|
      invariant 0 <= i <= |segments|
      invariant audioFiles == ChapterFiles(segments[..i], espeak, enhanced)
    {
      ChapterFilesStep(segments, espeak, enhanced, i, audioFiles);
      var seg := segments[i];
      if !IsBlank(seg.text) {
        var rawFile := SegmentFile(i, seg, "_raw");
        var enhancedFile := SegmentFile(i, seg, "");
        if TextToSpeechEspeak(seg.text, seg.speaker, seg.emotion, rawFile, espeak(i)) {
          if enhanced(i) {
            audioFiles := audioFiles + [enhancedFile];
          } else {
            audioFiles := audioFiles + [rawFile];
          }
        }
      }
      i := i + 1;
    }
    SliceWhole(segments);
  }

  lemma ChapterFilesStep(segments: seq<Segment>, espeak: nat -> bool, enhanced: nat -> bool, i: nat, done: seq<string>)
    requires i < |segments| && done == ChapterFiles(segments[..i], espeak, enhanced)
    ensures ChapterFiles(segments[..i + 1], espeak, enhanced) == done + SegmentOutput(i, segments[i], espeak, enhanced)
  {
    PrefixStep(segments, i);
  }

  /** With espeak and the enhancement succeeding for every segment, each segment yields exactly its enhanced file. */
  lemma AllEnhanced(segments: seq<Segment>, espeak: nat -> bool, enhanced: nat -> bool)
    requires forall k | 0 <= k < |segments| :: SpokenAndEnhanced(k, segments[k], espeak, enhanced)
    ensures |ChapterFiles(segments, espeak, enhanced)| == |segments|
    ensures forall k | 0 <= k < |segments| :: ChapterFiles(segments, espeak, enhanced)[k] == SegmentFile(k, segments[k], "")
  {
    AllEnhancedNames(segments, espeak, enhanced);
    IndexedNamesAt(segments, (k: nat, seg: Segment) => SegmentFile(k, seg, ""));
  }

  /** The file `name` gives each segment, with its index, in order. */
  function IndexedNames(segments: seq<Segment>, name: (nat, Segment) -> string): seq<string>
  {
    if segments == [] then []
    else
      var i := |segments| - 1;
      IndexedNames(segments[..i], name) + [name(i, segments[i])]
  }

  /** The enhanced file of every segment, in order. */
  function EnhancedNames(segments: seq<Segment>): seq<string>
  {
    IndexedNames(segments, (k: nat, seg: Segment) => SegmentFile(k, seg, ""))
  }

  lemma {:induction false} AllEnhancedNames(segments: seq<Segment>, espeak: nat -> bool, enhanced: nat -> bool)
    requires forall k | 0 <= k < |segments| :: SpokenAndEnhanced(k, segments[k], espeak, enhanced)
    ensures ChapterFiles(segments, espeak, enhanced) == EnhancedNames(segments)
    decreases |segments|
  {
    if segments != [] {
      var i := |segments| - 1;
      var init := segments[..i];
      assert forall k | 0 <= k < |init| :: init[k] == segments[k];
      AllEnhancedNames(init, espeak, enhanced);
      EnhancedOutput(i, segments[i], espeak, enhanced);
    }
  }

  /** Entry `k` of the list is the name of segment `k`. */
  lemma {:induction false} IndexedNamesAt(segments: seq<Segment>, name: (nat, Segment) -> string)
    ensures |IndexedNames(segments, name)| == |segments|
    ensures forall k | 0 <= k < |segments| :: IndexedNames(segments, name)[k] == name(k, segments[k])
    decreases |segments|
  {
    if segments != [] {
      var i := |segments| - 1;
      var init := segments[..i];
      IndexedNamesAt(init, name);
      forall k | 0 <= k < i ensures IndexedNames(segments, name)[k] == name(k, segments[k]) {
        assert init[k] == segments[k];
      }
    }
  }

  /** Segment `i` has speech text left after cleaning, and espeak and the enhancement both succeed for it. */
  predicate SpokenAndEnhanced(i: nat, seg: Segment, espeak: nat -> bool, enhanced: nat -> bool)
  {
    !IsBlank(CleanForSpeech(seg.text)) && espeak(i) && enhanced(i)
  }

  /** Such a segment yields its enhanced file. */
  lemma EnhancedOutput(i: nat, seg: Segment, espeak: nat -> bool, enhanced: nat -> bool)
    requires SpokenAndEnhanced(i, seg, espeak, enhanced)
    ensures SegmentOutput(i, seg, espeak, enhanced) == [SegmentFile(i, seg, "")]
  {
    if IsBlank(seg.text) {
      BlankStaysBlank(seg.text);
    }
  }

  /** Removing markup from blank text leaves it blank. */
  lemma BlankStaysBlank(t: string)
    requires IsBlank(t)
    ensures IsBlank(CleanForSpeech(t))
  {
    var r := CleanForSpeech(t);
    forall c | c in r ensures IsSpace(c) {
      if c != '#' && c != '*' {
        ReplaceKeeps(Replace(t, "#", ""), '*', c);
        ReplaceKeeps(t, '#', c);
      }
    }
  }

  // ----- the book ------------------------------------------------------------------

  /** The `audiobook_metadata.json` entries that the run decides. */
  datatype Metadata = Metadata(audioEnhancement: string, chapters: nat, voicesUsed: nat)

  /**
   * `build_audiobook_simple`: nothing without espeak-ng and ffmpeg
   * (`toolsFound`); otherwise the combined file of every part that produced
   * segment files, then the complete audiobook and its metadata when there
   * is at least one.
   */
  method BuildAudiobookSimple(toolsFound: bool, soxAvailable: bool, foreword: bool, made: nat -> bool, epilogue: bool)
    returns (allChapterFiles: seq<string>, audiobook: Option<string>, metadata: Option<Metadata>)
    ensures !toolsFound ==> allChapterFiles == [] && audiobook.None? && metadata.None?
    ensures toolsFound ==> allChapterFiles == CombinedFiles(BookParts(foreword, made, epilogue))
    ensures audiobook.Some? <==> toolsFound && allChapterFiles != []
    ensures audiobook.Some? ==> audiobook.value == "digital_amber_complete_audiobook.wav"
    ensures metadata.Some? <==> audiobook.Some?
    ensures metadata.Some? ==>
      metadata.value == Metadata(if soxAvailable then "sox" else "none", |allChapterFiles|, |Cast|)
  {
    if !toolsFound {
      return [], None, None;
    }
    allChapterFiles := CollectChapterFiles(foreword, made, LastChapter, epilogue);
    FullAudiobook(foreword, made, epilogue);
    if allChapterFiles != [] {
      audiobook := Some("digital_amber_complete_audiobook.wav");
      metadata := Some(Metadata(if soxAvailable then "sox" else "none", |allChapterFiles|, |Cast|));
    } else {
      audiobook := None;
      metadata := None;
    }
  }
}
