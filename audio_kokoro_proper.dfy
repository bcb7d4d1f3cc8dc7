// The second Kokoro builder (scripts/build_audio_kokoro_proper.py): a
// `kokoro_tts` synthesizer when it loads, otherwise a HuggingFace model whose
// output is replaced by three seconds of silence; a test run over the
// foreword and the first three chapters. Its emotion and speaker rules are
// those of the first Kokoro builder, written out again word for word.
module KokoroProperAudio {
  import opened Wrappers
  import opened Text
  import opened Books
  import opened AudioCommon
  import KokoroAudio
  import KokoroFinalAudio

  // ----- the model ---------------------------------------------------------------

  /**
   * What `setup_kokoro` returns: a `kokoro_tts.Kokoro` object (which may or
   * may not have a `synthesize` method) or a `(model, tokenizer)` tuple.
   */
  datatype ProperModel = KokoroTts(canSynthesize: bool) | HuggingFaceTuple

  /** The `kokoro_tts` package is tried first, the HuggingFace load second; None when both fail. */
  function SetupKokoro(kokoroLoads: bool, canSynthesize: bool, huggingFaceLoads: bool): (r: Option<ProperModel>)
    ensures r.None? <==> !kokoroLoads && !huggingFaceLoads
    ensures kokoroLoads ==> r == Some(KokoroTts(canSynthesize))
    ensures r == Some(HuggingFaceTuple) ==> !kokoroLoads
  {
    if kokoroLoads then Some(KokoroTts(canSynthesize))
    else if huggingFaceLoads then Some(HuggingFaceTuple)
    else None
  }

  // ----- one synthesis call --------------------------------------------------------

  /** What `synthesize` is given: the cleaned, stripped text and the speaker's key. */
  datatype SynthesizeCall = SynthesizeCall(text: string, speakerKey: string)

  /** The cleaned text is checked before any model is consulted; None when it strips to nothing. */
  function ProperRequest(text: string, speaker: Speaker): Option<SynthesizeCall>
  {
    var clean := Strip(CleanForSpeech(text));
    if clean == [] then None else Some(SynthesizeCall(clean, SpeakerKey(speaker)))
  }

  /**
   * The request is refused exactly when the pipeline builder refuses it, and
   * then exactly for blank text; otherwise it carries the same trimmed,
   * markup-free text.
   */
  lemma SameCleaningAsFinal(text: string, speaker: Speaker, emotion: Emotion)
    ensures ProperRequest(text, speaker).None? <==> KokoroFinalAudio.KokoroRequest(text, speaker, emotion).None?
    ensures ProperRequest(text, speaker).None? <==> IsBlank(CleanForSpeech(text))
    ensures ProperRequest(text, speaker).Some? ==>
      var t := ProperRequest(text, speaker).value.text;
      t == KokoroFinalAudio.KokoroRequest(text, speaker, emotion).value.text
      && t != [] && Trimmed(t) && '#' !in t && '*' !in t
  {
    KokoroFinalAudio.KokoroRequestFacts(text, speaker, emotion);
  }

  /** The rate of every file this builder writes. */
  const SampleRate: nat := 22050

  /** `int(sample_rate * duration)` for the three-second placeholder. */
  function PlaceholderLength(): (n: nat)
    ensures n == 3 * SampleRate
  {
    var samples := (SampleRate as real * 3.0).Floor;
    assert samples == 66150;
    samples
  }

  /** `np.zeros(samples)`: the placeholder written for the HuggingFace model. */
  function Placeholder(): (w: KokoroFinalAudio.WavFile)
    ensures w.rate == SampleRate && |w.samples| == 3 * w.rate
    ensures forall k | 0 <= k < |w.samples| :: w.samples[k] == 0.0
  {
    KokoroFinalAudio.WavFile(seq(PlaceholderLength(), _ => 0.0), SampleRate)
  }

  /**
   * `text_to_speech_kokoro`: blank text fails before anything else. A
   * synthesizer writes the audio it returns (`audio`), and `synthesized` is
   * false when `synthesize` or the write raises; the tuple runs the model and
   * writes the placeholder, and `generated` is false when either raises; a
   * `kokoro_tts` object without `synthesize` fails. Every exception is
   * caught and reported as failure, so the call succeeds exactly when a file
   * is written.
   */
  function TextToSpeechKokoro(model: ProperModel, text: string, speaker: Speaker, audio: seq<real>,
                              synthesized: bool, generated: bool)
    : (written: Option<KokoroFinalAudio.WavFile>)
    ensures ProperRequest(text, speaker).None? ==> written.None?
    ensures written.Some? ==> written.value.rate == SampleRate
    ensures written.Some? && model.KokoroTts? ==> written.value.samples == audio
    ensures written.Some? && model.HuggingFaceTuple? ==> written.value == Placeholder()
    ensures ProperRequest(text, speaker).Some? ==>
      (written.Some? <==> (model.KokoroTts? && model.canSynthesize && synthesized) || (model.HuggingFaceTuple? && generated))
  {
    if ProperRequest(text, speaker).None? then None
    else
      match model
      case KokoroTts(canSynthesize) =>
        if canSynthesize && synthesized then Some(KokoroFinalAudio.WavFile(audio, SampleRate)) else None
      case HuggingFaceTuple =>
        if generated then Some(Placeholder()) else None
  }

  // ----- segments ------------------------------------------------------------------

  /**
   * `process_chapter_audio`, with the segmentation of the first Kokoro
   * builder: the chapter's segment files, one per segment the engine call
   * succeeded for.
   */
  method ProcessChapter(content: string, spoken: nat -> bool) returns (audioFiles: seq<string>)
    ensures audioFiles == SpokenFiles(Classified(ParagraphsOf(StripMarkdown(content)), KokoroAudio.Classify), spoken)
    ensures (forall k :: spoken(k)) ==> |audioFiles| == |ParagraphsOf(StripMarkdown(content))|
  {
    var segments;
    segments, audioFiles := ProcessChapterAudio(content, KokoroAudio.Classify, spoken);
  }

  // ----- the book ------------------------------------------------------------------

  /**
   * `build_audiobook_kokoro`: nothing without a model; otherwise the output
   * directory is cleared, the foreword and chapters 1 to 3 are walked, and a
   * test audiobook is named when some part produced segment files.
   */
  method BuildAudiobookKokoro(model: Option<ProperModel>, foreword: bool, made: nat -> bool)
    returns (cleared: bool, allChapterFiles: seq<string>, audiobook: Option<string>)
    ensures cleared <==> model.Some?
    ensures allChapterFiles == if model.Some? then CombinedFiles(AudiobookParts(foreword, made, 3, false)) else []
    ensures |allChapterFiles| <= 4
    ensures audiobook.Some? <==> allChapterFiles != []
    ensures audiobook.Some? ==> audiobook.value == "digital_amber_kokoro_test.wav"
  {
    if model.None? {
      return false, [], None;
    }
    cleared := true;
    allChapterFiles := CollectChapterFiles(foreword, made, 3, false);
    KokoroAudio.TestRunSize(foreword, made);
    if allChapterFiles != [] {
      audiobook := Some("digital_amber_kokoro_test.wav");
    } else {
      audiobook := None;
    }
  }
}
