// The first Kokoro builder (scripts/build_audio_kokoro.py): a transformers
// pipeline when one loads, otherwise a model and tokenizer that are never
// used for speech, with espeak standing in; a test run over the foreword and
// the first three chapters.
module KokoroAudio {
  import opened Wrappers
  import opened Text
  import opened Books
  import opened AudioCommon
  import SimpleAudio

  // ----- the model ---------------------------------------------------------------

  /** What `setup_kokoro_tts` returns besides the device: a pipeline, or a `(model, tokenizer)` tuple. */
  datatype LoadedModel = TtsPipeline | ModelAndTokenizer

  /** The pipeline is tried first, the direct load second; None when both fail. */
  function SetupKokoroTts(pipelineLoads: bool, directLoads: bool): (r: Option<LoadedModel>)
    ensures r.None? <==> !pipelineLoads && !directLoads
    ensures pipelineLoads ==> r == Some(TtsPipeline)
    ensures r == Some(ModelAndTokenizer) ==> !pipelineLoads && directLoads
  {
    if pipelineLoads then Some(TtsPipeline)
    else if directLoads then Some(ModelAndTokenizer)
    else None
  }

  // ----- the espeak stand-in -------------------------------------------------------

  /** `voice_map[speaker]`; every speaker has an entry, so the `en+m3` default of `.get` is never used. */
  function FallbackVoice(s: Speaker): string
  {
    match s
    case Narrator => "en+m3"
    case DrSarahMartinez => "en+f3"
    case DavidChen => "en+m2"
    case DrRajPatel => "en+m4"
    case ArtemisAi => "en+m5"
    case MarcusRivera => "en+m1"
    case SarahKim => "en+f2"
    case JenniferWu => "en+f4"
  }

  /** The stand-in gives each character the voice the espeak builder gives it, and no two characters share one. */
  lemma FallbackVoiceAgrees(s: Speaker, t: Speaker)
    ensures FallbackVoice(s) == SimpleAudio.VoiceConfig(s).voice
    ensures s != t ==> FallbackVoice(s) != FallbackVoice(t)
  {
  }

  /** The rate argument: 130 for defeated or melancholic, 170 for excited or frustrated, else 150. */
  function FallbackSpeed(e: Emotion): string
  {
    if e == Defeated || e == Melancholic then "130"
    else if e == Excited || e == Frustrated then "170"
    else "150"
  }

  /** The argument list of the espeak stand-in: the text is passed as given, markup and all, with no pitch. */
  function EspeakFallbackCommand(text: string, speaker: Speaker, emotion: Emotion, outputFile: string): seq<string>
  {
    ["espeak-ng", "-v", FallbackVoice(speaker), "-s", FallbackSpeed(emotion), "-w", outputFile, text]
  }

  /**
   * For the emotions this builder detects, the rate reads back as 130 exactly
   * for defeated and as 170 exactly for excited or frustrated; it always lies
   * between 130 and 170.
   */
  lemma FallbackSpeedOfDetected(text: string, speaker: Speaker, outputFile: string)
    ensures var cmd := EspeakFallbackCommand(text, speaker, DetectEmotion(text, speaker), outputFile);
      var e := DetectEmotion(text, speaker);
      AllDigits(cmd[4])
      && (ParseNat(cmd[4]) == 130 <==> e == Defeated)
      && (ParseNat(cmd[4]) == 170 <==> e == Excited || e == Frustrated)
      && 130 <= ParseNat(cmd[4]) <= 170
  {
    var e := DetectEmotion(text, speaker);
    NeverHopeful(text, speaker);
    var s := FallbackSpeed(e);
    assert AllDigits(s);
    ParseThreeDigits(s);
  }

  lemma ParseThreeDigits(s: string)
    requires |s| == 3 && AllDigits(s)
    ensures ParseNat(s) == 100 * (s[0] as int - '0' as int) + 10 * (s[1] as int - '0' as int) + (s[2] as int - '0' as int)
  {
    var a := s[..2];
    var b := a[..1];
    assert a[1] == s[1] && b[0] == s[0];
    assert AllDigits(a) && AllDigits(b);
    assert b[..0] == [];
    assert ParseNat(b) == s[0] as int - '0' as int;
    assert ParseNat(a) == 10 * ParseNat(b) + (s[1] as int - '0' as int);
    assert ParseNat(s) == 10 * ParseNat(a) + (s[2] as int - '0' as int);
  }

  /** Where the espeak builder refuses a blank text, the stand-in still runs espeak on it. */
  lemma BlankTextStillSpoken(text: string, speaker: Speaker, emotion: Emotion, outputFile: string)
    requires IsBlank(CleanForSpeech(text))
    ensures SimpleAudio.EspeakCommand(text, speaker, emotion, outputFile).None?
    ensures EspeakFallbackCommand(text, speaker, emotion, outputFile)[7] == text
  {
  }

  /**
   * `text_to_speech_kokoro`: with the tuple, espeak's exit status and the
   * output file decide (`espeakSucceeds`); with the pipeline, whether its
   * result has an `audio` attribute (`hasAudio`), and nothing is saved.
   */
  function TextToSpeechKokoro(model: LoadedModel, espeakSucceeds: bool, hasAudio: bool): (ok: bool)
    ensures model == ModelAndTokenizer ==> (ok <==> espeakSucceeds)
    ensures model == TtsPipeline ==> (ok <==> hasAudio)
  {
    match model
    case ModelAndTokenizer => espeakSucceeds
    case TtsPipeline => hasAudio
  }

  // ----- emotions ----------------------------------------------------------------

  /** The keyword groups of `detect_emotion_from_text`, in order; there is no hope group. */
  const KokoroOrder: seq<Cue> := [Excitement, Worry, Annoyance, Reflection, Sadness]

  /** `detect_emotion_from_text`; the speaker argument is never read. */
  function DetectEmotion(text: string, speaker: Speaker): Emotion
  {
    KeywordEmotion(text, KokoroOrder)
  }

  /** The emotion rules agree with the builder's if-chain, which tries the cue groups one by one. */
  lemma DetectEmotionChain(text: string, speaker: Speaker)
    ensures DetectEmotion(text, speaker) ==
      if Cued(text, Excitement) then Excited
      else if Cued(text, Worry) then Concerned
      else if Cued(text, Annoyance) then Frustrated
      else if Cued(text, Reflection) then Contemplative
      else if Cued(text, Sadness) then Defeated
      else Neutral
  {
    KeywordEmotionThree(text, Excitement, Worry, Annoyance, [Reflection, Sadness]);
    KeywordEmotionCons(text, Reflection, [Sadness]);
    KeywordEmotionCons(text, Sadness, []);
    assert [Excitement, Worry, Annoyance] + [Reflection, Sadness] == KokoroOrder;
    assert [Reflection] + [Sadness] == [Reflection, Sadness];
    assert [Sadness] + [] == [Sadness];
  }

  /** Six labels are possible and hopeful is not one of them; neutral means no group but hope matched. */
  lemma NeverHopeful(text: string, speaker: Speaker)
    ensures DetectEmotion(text, speaker) in {Excited, Concerned, Frustrated, Contemplative, Defeated, Neutral}
    ensures DetectEmotion(text, speaker) == Neutral <==> forall c: Cue | c != Hope :: !Cued(text, c)
  {
    DetectEmotionChain(text, speaker);
  }

  /**
   * This detector departs from the espeak builder's exactly on texts that hit
   * the hope group and none of the four groups before it: there it says
   * defeated or neutral where the other says hopeful.
   */
  lemma HopeIgnored(text: string, speaker: Speaker)
    ensures DetectEmotion(text, speaker) != SimpleAudio.DetectEmotion(text, speaker) <==>
      Cued(text, Hope) && !Cued(text, Excitement) && !Cued(text, Worry) && !Cued(text, Annoyance) && !Cued(text, Reflection)
    ensures DetectEmotion(text, speaker) != SimpleAudio.DetectEmotion(text, speaker) ==>
      SimpleAudio.DetectEmotion(text, speaker) == Hopeful
      && DetectEmotion(text, speaker) == (if Cued(text, Sadness) then Defeated else Neutral)
  {
    DetectEmotionChain(text, speaker);
    SimpleAudio.DetectEmotionChain(text, speaker);
  }

  // ----- segments ------------------------------------------------------------------

  /** The paragraph rule of `detect_dialogue_and_speaker`: every paragraph goes through the name rule. */
  function Classify(para: string): Segment
  {
    var speaker := IdentifySpeaker(para);
    Segment(speaker, para, DetectEmotion(para, speaker))
  }

  /** `detect_dialogue_and_speaker`: one segment per paragraph, its speaker from the name rule, its emotion from the five groups. */
  method DetectDialogueAndSpeaker(text: string) returns (segments: seq<Segment>)
    ensures segments == Classified(ParagraphsOf(text), Classify)
    ensures |segments| == |ParagraphsOf(text)|
    ensures forall k | 0 <= k < |segments| ::
      segments[k].text == ParagraphsOf(text)[k] && segments[k].speaker == IdentifySpeaker(segments[k].text)
      && segments[k].emotion != Hopeful
  {
    segments := Segmentation(text, Classify);
    forall k | 0 <= k < |segments|
      ensures segments[k].text == ParagraphsOf(text)[k]
      ensures segments[k] == Classify(ParagraphsOf(text)[k])
      ensures segments[k].emotion != Hopeful
    {
      SegmentsFollowParagraphs(text, Classify, k);
      NeverHopeful(ParagraphsOf(text)[k], IdentifySpeaker(ParagraphsOf(text)[k]));
    }
  }

  /** `process_chapter_audio`: the chapter's segment files, one per segment the engine call succeeded for. */
  method ProcessChapter(content: string, spoken: nat -> bool) returns (audioFiles: seq<string>)
    ensures audioFiles == SpokenFiles(Classified(ParagraphsOf(StripMarkdown(content)), Classify), spoken)
    ensures (forall k :: spoken(k)) ==> |audioFiles| == |ParagraphsOf(StripMarkdown(content))|
  {
    var segments;
    segments, audioFiles := ProcessChapterAudio(content, Classify, spoken);
  }

  // ----- the book ------------------------------------------------------------------

  /**
   * `build_audiobook_kokoro`: it stops without ffmpeg or without a model;
   * otherwise it walks the foreword and chapters 1 to 3 (no epilogue) and
   * names a partial audiobook when some part produced segment files.
   */
  method BuildAudiobookKokoro(ffmpegFound: bool, model: Option<LoadedModel>, foreword: bool, made: nat -> bool)
    returns (allChapterFiles: seq<string>, audiobook: Option<string>)
    ensures allChapterFiles == if ffmpegFound && model.Some? then CombinedFiles(AudiobookParts(foreword, made, 3, false)) else []
    ensures |allChapterFiles| <= 4
    ensures audiobook.Some? <==> allChapterFiles != []
    ensures audiobook.Some? ==> audiobook.value == "digital_amber_partial_audiobook.wav"
  {
    if !ffmpegFound || model.None? {
      return [], None;
    }
    allChapterFiles := CollectChapterFiles(foreword, made, 3, false);
    TestRunSize(foreword, made);
    if allChapterFiles != [] {
      audiobook := Some("digital_amber_partial_audiobook.wav");
    } else {
      audiobook := None;
    }
  }

  /** A test run holds at most the foreword and three chapters, and nothing past chapter 3. */
  lemma TestRunSize(foreword: bool, made: nat -> bool)
    ensures |AudiobookParts(foreword, made, 3, false)| <= 4
    ensures forall p | p in AudiobookParts(foreword, made, 3, false) :: p == Foreword || (p.Chapter? && 1 <= p.n <= 3)
  {
    forall p | p in AudiobookParts(foreword, made, 3, false) ensures p == Foreword || (p.Chapter? && 1 <= p.n <= 3) {
      AudiobookScope(foreword, made, 3, p);
    }
    assert |Present(made, 4, 3)| == 0;
    assert |Present(made, 3, 3)| <= 1;
    assert |Present(made, 2, 3)| <= 2;
    assert |Present(made, 1, 3)| <= 3;
  }
}
