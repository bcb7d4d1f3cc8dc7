// The Kokoro pipeline builder (scripts/build_audio_kokoro_final.py): one
// Kokoro voice per character, a speed per emotion, and every paragraph
// attributed by the name rule whether or not it quotes anyone.
module KokoroFinalAudio {
  import opened Wrappers
  import opened Text
  import opened Seqs
  import opened Books
  import opened AudioCommon
  import SimpleAudio

  // ----- voices and speeds -----------------------------------------------------

  /** `VOICE_MAPPING[s]`; the cast has an entry for every speaker, so the `af_heart` default of `.get` is never used. */
  function KokoroVoice(s: Speaker): string
  {
    match s
    case Narrator => "af_heart"
    case DrSarahMartinez => "af_bella"
    case DavidChen => "am_echo"
    case DrRajPatel => "am_michael"
    case ArtemisAi => "af_sarah"
    case MarcusRivera => "am_eric"
    case SarahKim => "af_nicole"
    case JenniferWu => "af_sky"
  }

  /** No character is given an `adam` voice: no voice name even has a `d`. */
  lemma NoAdamVoice(s: Speaker)
    ensures !Contains(KokoroVoice(s), "adam")
  {
    VoiceLetters(s);
    var v := KokoroVoice(s);
    forall p | 0 <= p <= |v| ensures !StartsWith(v[p..], "adam") {
      if p + 4 <= |v| {
        assert v[p..][..4][1] == v[p + 1];
      }
    }
  }

  lemma VoiceLetters(s: Speaker)
    ensures forall i | 0 <= i < |KokoroVoice(s)| :: KokoroVoice(s)[i] != 'd'
  {
    match s
    case Narrator => {}
    case DrSarahMartinez => {}
    case DavidChen => {}
    case DrRajPatel => {}
    case ArtemisAi => {}
    case MarcusRivera => {}
    case SarahKim => {}
    case JenniferWu => {}
  }

  /** The speed adjustment of `text_to_speech_kokoro`. */
  function Speed(e: Emotion): real
  {
    if e == Defeated then 0.8
    else if e == Excited then 1.2
    else if e == Contemplative then 0.9
    else 1.0
  }

  /** Speeds stay between 0.8 and 1.2, and only three emotions move away from 1.0. */
  lemma SpeedRange(e: Emotion)
    ensures 0.8 <= Speed(e) <= 1.2
    ensures Speed(e) != 1.0 <==> e in {Defeated, Excited, Contemplative}
  {
  }

  // ----- emotions ------------------------------------------------------------------

  /** The order of the keyword groups here: sadness is tried before hope. */
  const FinalOrder: seq<Cue> := [Excitement, Worry, Annoyance, Reflection, Sadness, Hope]

  /** `detect_emotion_from_text`; the speaker argument is never read. */
  function DetectEmotion(text: string, speaker: Speaker): Emotion
  {
    KeywordEmotion(text, FinalOrder)
  }

  /** The emotion rules agree with the builder's if-chain, which tries the cue groups one by one. */
  lemma DetectEmotionChain(text: string, speaker: Speaker)
    ensures DetectEmotion(text, speaker) ==
      if Cued(text, Excitement) then Excited
      else if Cued(text, Worry) then Concerned
      else if Cued(text, Annoyance) then Frustrated
      else if Cued(text, Reflection) then Contemplative
      else if Cued(text, Sadness) then Defeated
      else if Cued(text, Hope) then Hopeful
      else Neutral
  {
    KeywordEmotionSix(text, Excitement, Worry, Annoyance, Reflection, Sadness, Hope);
  }

  /**
   * The two orders disagree only on texts that hit both the hope and the
   * sadness groups and nothing earlier ("lost hope"): this builder says
   * defeated where the espeak builder says hopeful.
   */
  lemma SadnessBeforeHope(text: string, speaker: Speaker)
    ensures DetectEmotion(text, speaker) != SimpleAudio.DetectEmotion(text, speaker) <==>
      Cued(text, Hope) && Cued(text, Sadness)
      && !Cued(text, Excitement) && !Cued(text, Worry) && !Cued(text, Annoyance) && !Cued(text, Reflection)
    ensures DetectEmotion(text, speaker) != SimpleAudio.DetectEmotion(text, speaker) ==>
      DetectEmotion(text, speaker) == Defeated && SimpleAudio.DetectEmotion(text, speaker) == Hopeful
  {
    DetectEmotionChain(text, speaker);
    SimpleAudio.DetectEmotionChain(text, speaker);
  }

  // ----- segments ------------------------------------------------------------------

  /** The paragraph rule here: every paragraph goes through the name rule, quoted or not. */
  function Classify(para: string): Segment
  {
    var speaker := IdentifySpeaker(para);
    Segment(speaker, para, DetectEmotion(para, speaker))
  }

  /** `detect_dialogue_and_speaker`: a quote-free paragraph that names a character is still given to that character. */
  method DetectDialogueAndSpeaker(text: string) returns (segments: seq<Segment>)
    ensures segments == Classified(ParagraphsOf(text), Classify)
    ensures |segments| == |ParagraphsOf(text)|
    ensures forall k | 0 <= k < |segments| ::
      segments[k].text == ParagraphsOf(text)[k] && segments[k].speaker == IdentifySpeaker(segments[k].text)
  {
    segments := Segmentation(text, Classify);
    forall k | 0 <= k < |segments|
      ensures segments[k].text == ParagraphsOf(text)[k]
      ensures segments[k] == Classify(ParagraphsOf(text)[k])
    {
      SegmentsFollowParagraphs(text, Classify, k);
    }
  }

  /** `process_chapter_audio`: the chapter's segment files, one per segment whose pipeline call succeeded. */
  method ProcessChapter(content: string, spoken: nat -> bool) returns (audioFiles: seq<string>)
    ensures audioFiles == SpokenFiles(Classified(ParagraphsOf(StripMarkdown(content)), Classify), spoken)
    ensures (forall k :: spoken(k)) ==> |audioFiles| == |ParagraphsOf(StripMarkdown(content))|
  {
    var segments;
    segments, audioFiles := ProcessChapterAudio(content, Classify, spoken);
  }

  // ----- one synthesis call --------------------------------------------------------

  /** What the pipeline is asked for: the cleaned, stripped text, the voice and the speed. */
  datatype KokoroCall = KokoroCall(text: string, voice: string, speed: real)

  /** A written wave file: its samples and its rate. */
  datatype WavFile = WavFile(samples: seq<real>, rate: nat)

  const SampleRate: nat := 24000

  /** The pipeline call of `text_to_speech_kokoro`, or None when the cleaned text strips to nothing. */
  function KokoroRequest(text: string, speaker: Speaker, emotion: Emotion): Option<KokoroCall>
  {
    var clean := Strip(CleanForSpeech(text));
    if clean == [] then None else Some(KokoroCall(clean, KokoroVoice(speaker), Speed(emotion)))
  }

  /** The request is refused exactly for blank text; otherwise it is trimmed, markup-free, non-empty and in the speaker's voice. */
  lemma KokoroRequestFacts(text: string, speaker: Speaker, emotion: Emotion)
    ensures KokoroRequest(text, speaker, emotion).None? <==> IsBlank(CleanForSpeech(text))
    ensures KokoroRequest(text, speaker, emotion).Some? ==>
      var call := KokoroRequest(text, speaker, emotion).value;
      call.text != [] && Trimmed(call.text) && '#' !in call.text && '*' !in call.text
      && call.voice == KokoroVoice(speaker) && 0.8 <= call.speed <= 1.2
  {
    var clean := CleanForSpeech(text);
    if '#' in Strip(clean) {
      StripKeeps(clean, '#');
    }
    if '*' in Strip(clean) {
      StripKeeps(clean, '*');
    }
    SpeedRange(emotion);
  }

  /** `np.concatenate` of the generated chunks. */
  function Concat(chunks: seq<seq<real>>): seq<real>
  {
    if chunks == [] then [] else Concat(chunks[..|chunks| - 1]) + chunks[|chunks| - 1]
  }

  function TotalLength(chunks: seq<seq<real>>): nat
  {
    if chunks == [] then 0 else TotalLength(chunks[..|chunks| - 1]) + |chunks[|chunks| - 1]|
  }

  /** The written audio is exactly as long as the chunks together, and the last chunk ends it. */
  lemma {:induction false} ConcatLength(chunks: seq<seq<real>>)
    ensures |Concat(chunks)| == TotalLength(chunks)
    ensures chunks != [] ==> Concat(chunks)[|Concat(chunks)| - |chunks[|chunks| - 1]|..] == chunks[|chunks| - 1]
  {
    if chunks != [] {
      ConcatLength(chunks[..|chunks| - 1]);
    }
  }

  /**
   * `text_to_speech_kokoro`: `generated` stands for the chunks the pipeline
   * yields for the request, and `saved` is false when the pipeline, the
   * joining of the chunks or the write raises, which the call catches and
   * reports as failure. Blank text and a pipeline that yields nothing both
   * fail; otherwise the chunks are joined and written at 24000 Hz unless
   * that raises.
   */
  method TextToSpeechKokoro(text: string, speaker: Speaker, emotion: Emotion, generated: seq<seq<real>>, saved: bool)
    returns (ok: bool, written: Option<WavFile>)
    ensures ok <==> KokoroRequest(text, speaker, emotion).Some? && generated != [] && saved
    ensures written == if ok then Some(WavFile(Concat(generated), SampleRate)) else None
  {
    var request := KokoroRequest(text, speaker, emotion);
    if request.None? {
      return false, None;
    }
    var audioSegments: seq<seq<real>> := [];
    var i := 0;
    while i < |generated|
      invariant 0 <= i <= |generated|
      invariant audioSegments == generated[..i]
    {
      PrefixStep(generated, i);
      audioSegments := audioSegments + [generated[i]];
      i := i + 1;
    }
    SliceWhole(generated);
    if audioSegments == [] || !saved {
      return false, None;
    }
    ok := true;
    written := Some(WavFile(Concat(audioSegments), SampleRate));
  }

  // ----- the book ------------------------------------------------------------------

  /** The `audiobook_metadata.json` entries that the run decides. */
  datatype KokoroMetadata = KokoroMetadata(sampleRate: nat, chapters: nat)

  /**
   * `build_audiobook_kokoro`: nothing without a pipeline; otherwise the
   * output directory is cleared, every part that produced segment files is
   * combined, and the complete audiobook and metadata follow when there is
   * at least one.
   */
  method BuildAudiobookKokoro(pipelineReady: bool, foreword: bool, made: nat -> bool, epilogue: bool)
    returns (cleared: bool, allChapterFiles: seq<string>, audiobook: Option<string>, metadata: Option<KokoroMetadata>)
    ensures cleared == pipelineReady
    ensures allChapterFiles == if pipelineReady then CombinedFiles(BookParts(foreword, made, epilogue)) else []
    ensures audiobook.Some? <==> allChapterFiles != []
    ensures audiobook.Some? ==> audiobook.value == "digital_amber_kokoro_complete.wav"
    ensures metadata == if audiobook.Some? then Some(KokoroMetadata(SampleRate, |allChapterFiles|)) else None
  {
    if !pipelineReady {
      return false, [], None, None;
    }
    cleared := true;
    allChapterFiles := CollectChapterFiles(foreword, made, LastChapter, epilogue);
    FullAudiobook(foreword, made, epilogue);
    if allChapterFiles != [] {
      audiobook := Some("digital_amber_kokoro_complete.wav");
      metadata := Some(KokoroMetadata(SampleRate, |allChapterFiles|));
    } else {
      audiobook := None;
      metadata := None;
    }
  }
}
