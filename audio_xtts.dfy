// The XTTS v2 builder (scripts/build_audio.py): voice cloning from one
// sample per character, and an emotion detector that consults each
// character's table of emotions.
module XttsAudio {
  import opened Wrappers
  import opened Text
  import opened Books
  import opened AudioCommon

  // ----- the cast --------------------------------------------------------------

  /** `VOICE_MAPPING[s]['voice_sample']`. */
  function VoiceSample(s: Speaker): string
  {
    match s
    case Narrator => "voices/narrator_male_warm.wav"
    case DrSarahMartinez => "voices/female_professional_confident.wav"
    case DavidChen => "voices/male_thoughtful_patient.wav"
    case DrRajPatel => "voices/male_technical_scientist.wav"
    case ArtemisAi => "voices/synthetic_ai_evolving.wav"
    case MarcusRivera => "voices/male_artist_creative.wav"
    case SarahKim => "voices/female_programmer_tech.wav"
    case JenniferWu => "voices/female_architect_wise.wav"
  }

  /** The keys of `VOICE_MAPPING[s]['emotions']`, in their written order. */
  function Emotions(s: Speaker): seq<Emotion>
  {
    match s
    case Narrator => [Neutral, Contemplative, Serious]
    case DrSarahMartinez => [Professional, Concerned, Determined, Compassionate]
    case DavidChen => [Contemplative, Anxious, Curious, Peaceful]
    case DrRajPatel => [Analytical, Excited, Focused, Amazed]
    case ArtemisAi => [Synthetic, Curious, Awakening, Confused, Enlightened]
    case MarcusRivera => [Melancholic, Frustrated, Inspired, Defeated, Hopeful]
    case SarahKim => [Analytical, Frustrated, Focused, Worried, Determined]
    case JenniferWu => [Balanced, Wise, Encouraging, Thoughtful, Confident]
  }

  /** Every table has a first entry, so the default of the detector is always defined. */
  lemma TablesNonEmpty(s: Speaker)
    ensures |Emotions(s)| >= 3
  {
  }

  function EmotionCount(ss: seq<Speaker>): nat
  {
    if ss == [] then 0 else |Emotions(ss[0])| + EmotionCount(ss[1..])
  }

  /** The metadata's `emotions_supported`: the table sizes summed over the cast. */
  function EmotionsSupported(): (n: nat)
    ensures n == 35
  {
    var c := Cast;
    assert EmotionCount(c[7..]) == 5;
    assert EmotionCount(c[6..]) == 5 + EmotionCount(c[7..]);
    assert EmotionCount(c[5..]) == 5 + EmotionCount(c[6..]);
    assert EmotionCount(c[4..]) == 5 + EmotionCount(c[5..]);
    assert EmotionCount(c[3..]) == 4 + EmotionCount(c[4..]);
    assert EmotionCount(c[2..]) == 4 + EmotionCount(c[3..]);
    assert EmotionCount(c[1..]) == 4 + EmotionCount(c[2..]);
    EmotionCount(c)
  }

  // ----- emotions ----------------------------------------------------------------

  /** The label a keyword group asks for, used when the speaker's table has it. */
  function Preferred(c: Cue): Emotion
  {
    match c
    case Excitement => Excited
    case Worry => Anxious
    case Annoyance => Frustrated
    case Reflection => Contemplative
    case Hope => Hopeful
    case Sadness => Melancholic
  }

  /** The label a keyword group falls back to otherwise. */
  function Fallback(c: Cue): Emotion
  {
    match c
    case Excitement => Neutral
    case Worry => Concerned
    case Annoyance => Neutral
    case Reflection => Thoughtful
    case Hope => Encouraging
    case Sadness => Defeated
  }

  function Voiced(c: Cue, s: Speaker): Emotion
  {
    if Preferred(c) in Emotions(s) then Preferred(c) else Fallback(c)
  }

  /**
   * `detect_emotion_from_text`, group by group (each group's label is
   * `Voiced`: its preferred label if the speaker's table has it, else its
   * fallback); without a keyword, the speaker's first listed emotion.
   */
  function DetectEmotion(text: string, speaker: Speaker): Emotion
  {
    if Cued(text, Excitement) then Voiced(Excitement, speaker)
    else if Cued(text, Worry) then Voiced(Worry, speaker)
    else if Cued(text, Annoyance) then Voiced(Annoyance, speaker)
    else if Cued(text, Reflection) then Voiced(Reflection, speaker)
    else if Cued(text, Hope) then Voiced(Hope, speaker)
    else if Cued(text, Sadness) then Voiced(Sadness, speaker)
    else Emotions(speaker)[0]
  }

  /** The keyword groups in the order the detector tests them (the same order as the espeak builder). */
  const XttsOrder: seq<Cue> := [Excitement, Worry, Annoyance, Reflection, Hope, Sadness]

  /**
   * The detector agrees with the tables: the first group the text hits (in
   * the order above) gives its preferred label when the speaker has it and
   * its fallback otherwise ...
   */
  lemma DetectEmotionAt(text: string, speaker: Speaker, k: nat)
    requires k < |XttsOrder| && Cued(text, XttsOrder[k])
    requires forall m | 0 <= m < k :: !Cued(text, XttsOrder[m])
    ensures DetectEmotion(text, speaker) == Voiced(XttsOrder[k], speaker)
  {
    var o := XttsOrder;
    if k > 0 { assert !Cued(text, o[0]); }
    if k > 1 { assert !Cued(text, o[1]); }
    if k > 2 { assert !Cued(text, o[2]); }
    if k > 3 { assert !Cued(text, o[3]); }
    if k > 4 { assert !Cued(text, o[4]); }
  }

  /** ... and a text that hits no group gets the first entry of the speaker's table. */
  lemma DetectEmotionDefault(text: string, speaker: Speaker)
    requires forall c: Cue :: !Cued(text, c)
    ensures DetectEmotion(text, speaker) == Emotions(speaker)[0]
  {
    assert !Cued(text, Excitement) && !Cued(text, Worry) && !Cued(text, Annoyance);
    assert !Cued(text, Reflection) && !Cued(text, Hope) && !Cued(text, Sadness);
  }

  /** A label the detector returns is in the speaker's table or is one of the five fallbacks. */
  lemma DetectedLabel(text: string, speaker: Speaker)
    ensures var e := DetectEmotion(text, speaker);
      e in Emotions(speaker) || e in {Neutral, Concerned, Thoughtful, Encouraging, Defeated}
    ensures DetectEmotion(text, speaker) in {Excited, Anxious, Frustrated, Contemplative, Hopeful, Melancholic}
      ==> DetectEmotion(text, speaker) in Emotions(speaker)
  {
    var e := DetectEmotion(text, speaker);
    var c: Cue;
    if Cued(text, Excitement) {
      c := Excitement;
    } else if Cued(text, Worry) {
      c := Worry;
    } else if Cued(text, Annoyance) {
      c := Annoyance;
    } else if Cued(text, Reflection) {
      c := Reflection;
    } else if Cued(text, Hope) {
      c := Hope;
    } else if Cued(text, Sadness) {
      c := Sadness;
    } else {
      TablesNonEmpty(speaker);
      assert e == Emotions(speaker)[0];
      assert e in Emotions(speaker);
      return;
    }
    assert e == Voiced(c, speaker);
    VoicedLabel(c, speaker);
  }

  /** A group's label is in the speaker's table or is the group's fallback, and no fallback is a preferred label. */
  lemma VoicedLabel(c: Cue, speaker: Speaker)
    ensures var e := Voiced(c, speaker);
      e in Emotions(speaker) || e in {Neutral, Concerned, Thoughtful, Encouraging, Defeated}
    ensures Voiced(c, speaker) in {Excited, Anxious, Frustrated, Contemplative, Hopeful, Melancholic}
      ==> Voiced(c, speaker) in Emotions(speaker)
  {
    if Preferred(c) !in Emotions(speaker) {
      assert Voiced(c, speaker) == Fallback(c);
    }
  }

  /** Narration without any keyword is neutral. */
  lemma NarrationDefault(text: string)
    requires forall c: Cue :: !Cued(text, c)
    ensures DetectEmotion(text, Narrator) == Neutral
  {
    DetectEmotionDefault(text, Narrator);
  }

  /** A fallback need not be in the speaker's table: an exclamation from Jennifer Wu is tagged neutral, which her table lacks. */
  lemma FallbackOutsideTable(text: string)
    requires '!' in text
    ensures DetectEmotion(text, JenniferWu) == Neutral
    ensures Neutral !in Emotions(JenniferWu)
  {
    ExclamationExcites(text);
  }

  // ----- segments ------------------------------------------------------------------

  /** The paragraph rule of `detect_dialogue_and_speaker`: quoted paragraphs get a speaker, the rest are narrated. */
  function Classify(para: string): Segment
  {
    var speaker := if HasQuote(para) then IdentifySpeaker(para) else Narrator;
    Segment(speaker, para, DetectEmotion(para, speaker))
  }

  /** `detect_dialogue_and_speaker`; each segment's emotion comes from its own speaker's table. */
  method DetectDialogueAndSpeaker(text: string) returns (segments: seq<Segment>)
    ensures segments == Classified(ParagraphsOf(text), Classify)
    ensures |segments| == |ParagraphsOf(text)|
    ensures forall k | 0 <= k < |segments| ::
      segments[k].text == ParagraphsOf(text)[k]
      && segments[k].speaker == (if HasQuote(segments[k].text) then IdentifySpeaker(segments[k].text) else Narrator)
      && segments[k].emotion == DetectEmotion(segments[k].text, segments[k].speaker)
  {
    segments := Segmentation(text, Classify);
    forall k | 0 <= k < |segments|
      ensures segments[k].text == ParagraphsOf(text)[k]
      ensures segments[k] == Classify(ParagraphsOf(text)[k])
    {
      SegmentsFollowParagraphs(text, Classify, k);
    }
  }

  /** `process_chapter_audio`: the chapter's segment files, one per segment whose XTTS call succeeded. */
  method ProcessChapter(content: string, spoken: nat -> bool) returns (audioFiles: seq<string>)
    ensures audioFiles == SpokenFiles(Classified(ParagraphsOf(StripMarkdown(content)), Classify), spoken)
    ensures (forall k :: spoken(k)) ==> |audioFiles| == |ParagraphsOf(StripMarkdown(content))|
  {
    var segments;
    segments, audioFiles := ProcessChapterAudio(content, Classify, spoken);
  }

  // ----- one synthesis call ------------------------------------------------------

  /**
   * The sample an XTTS model clones from: the speaker's own sample when it
   * exists, otherwise a temporary espeak sample when creating it worked,
   * otherwise none (the call then raises and fails).
   */
  function CloningSample(speaker: Speaker, sampleExists: bool, temporaryMade: bool): (r: Option<string>)
  {
    if sampleExists then Some(VoiceSample(speaker))
    else if temporaryMade then Some("voices/temp_" + SpeakerKey(speaker) + "_sample.wav")
    else None
  }

  /**
   * `text_to_speech_xtts`: an XTTS model needs a sample to clone from and
   * then succeeds when synthesis does (`synthesized`); any other model just
   * synthesizes (its retry with `speaker=0` is part of `synthesized`).
   */
  function TextToSpeechXtts(isXtts: bool, speaker: Speaker, sampleExists: bool, temporaryMade: bool, synthesized: bool): (ok: bool)
    ensures ok ==> synthesized
    ensures isXtts && !sampleExists && !temporaryMade ==> !ok
  {
    if isXtts then CloningSample(speaker, sampleExists, temporaryMade).Some? && synthesized
    else synthesized
  }

  /** The temporary sample sits beside the real ones and is named after the speaker, so it never replaces a real sample. */
  lemma TemporarySampleName(speaker: Speaker, other: Speaker)
    ensures CloningSample(speaker, false, true).Some?
    ensures StartsWith(CloningSample(speaker, false, true).value, "voices/temp_")
    ensures CloningSample(speaker, false, true).value != VoiceSample(other)
  {
    var t := CloningSample(speaker, false, true).value;
    assert t[..12] == "voices/temp_";
    assert t[7] == 't';
    assert VoiceSample(other)[7] != 't';
  }

  // ----- the book --------------------------------------------------------------------

  /** The `audiobook_metadata.json` entries that the run decides. */
  datatype XttsMetadata = XttsMetadata(chapters: nat, voicesUsed: nat, emotionsSupported: nat)

  /**
   * `build_audiobook`: it stops without a GPU (unless the user confirms),
   * without ffmpeg or without a model; with no voice sample it writes the
   * voices README and stops; otherwise it collects the combined file of each
   * part that produced segment files, then writes the complete audiobook and
   * the metadata when there is at least one.
   */
  method BuildAudiobook(gpuOrConfirmed: bool, ffmpegFound: bool, modelLoaded: bool, voiceSamples: bool,
                        foreword: bool, made: nat -> bool, epilogue: bool)
    returns (allChapterFiles: seq<string>, voicesReadme: bool, metadata: Option<XttsMetadata>)
    ensures voicesReadme <==> gpuOrConfirmed && ffmpegFound && modelLoaded && !voiceSamples
    ensures allChapterFiles ==
      if gpuOrConfirmed && ffmpegFound && modelLoaded && voiceSamples
      then CombinedFiles(BookParts(foreword, made, epilogue)) else []
    ensures metadata.Some? <==> allChapterFiles != []
    ensures metadata.Some? ==> metadata.value == XttsMetadata(|allChapterFiles|, 8, 35)
  {
    if !gpuOrConfirmed || !ffmpegFound || !modelLoaded {
      return [], false, None;
    }
    if !voiceSamples {
      return [], true, None;
    }
    voicesReadme := false;
    allChapterFiles := CollectChapterFiles(foreword, made, LastChapter, epilogue);
    FullAudiobook(foreword, made, epilogue);
    if allChapterFiles != [] {
      CastComplete(Narrator);
      metadata := Some(XttsMetadata(|allChapterFiles|, |Cast|, EmotionsSupported()));
    } else {
      metadata := None;
    }
  }
}
