/**
 * How a frame of the audiobook video decides what word to show and how
 * to show it (scripts/create_audiobook_video.py, `make_frame`): video time
 * is shifted by the lead-in to audio time, the active word is the first
 * record covering that time or else the last record already finished, the
 * word dims during long silences, and it is amber while it is spoken.
 */
module VideoTiming {
  import opened Wrappers
  import opened Text

  /** One recognised word: its text, start and end in seconds of audio, and confidence. */
  datatype WordTiming = WordTiming(word: string, start: real, end: real, confidence: real)

  /** `timing['start'] <= t <= timing['end']`. */
  predicate Covers(w: WordTiming, t: real)
  {
    w.start <= t <= w.end
  }

  /** The highlighting treats audio time `[0, audioDuration]` as narration; before it is the lead-in, after it the lead-out. */
  predicate InAudio(audioTime: real, audioDuration: real)
  {
    0.0 <= audioTime <= audioDuration
  }

  /** Configured pauses before and after the narration, in seconds. */
  const LeadIn: real := 1.0
  const LeadOut: real := 2.0

  function VideoDuration(leadIn: real, audioDuration: real, leadOut: real): (d: real)
    ensures d - leadOut - leadIn == audioDuration
  {
    leadIn + audioDuration + leadOut
  }

  function AudioTime(t: real, leadIn: real): (a: real)
    ensures a + leadIn == t
  {
    t - leadIn
  }

  /**
   * The highlighting treats the narration as running during
   * `[leadIn, leadIn + audioDuration]` of video time: only there does a
   * frame look for a word.
   */
  lemma AudioWindow(t: real, leadIn: real, audioDuration: real)
    ensures InAudio(AudioTime(t, leadIn), audioDuration) <==> leadIn <= t <= leadIn + audioDuration
  {
  }

  // ----- where the narration is heard --------------------------------------------

  /** The position in the narration heard at video time `t` when its clip starts at video time `clipStart`. */
  function NarrationPosition(t: real, clipStart: real): (p: real)
    ensures p + clipStart == t
  {
    t - clipStart
  }

  /** The clip is cut to the audio's length and attached with `set_audio` and no start offset. */
  const AsWrittenClipStart: real := 0.0

  /** Where the lead-in intends the clip to start. */
  function IntendedClipStart(leadIn: real): (s: real)
    ensures s == leadIn
  {
    leadIn
  }

  /**
   * As attached, the narration heard at video time `t` is `leadIn` seconds
   * ahead of the audio time the highlighting uses: the highlight lags the voice.
   */
  lemma HighlightLagsNarration(t: real, leadIn: real)
    ensures NarrationPosition(t, AsWrittenClipStart) == AudioTime(t, leadIn) + leadIn
  {
  }

  /**
   * With the configured one-second lead-in: one second into the video the
   * first instant of the narration is highlighted while the listener is
   * already one second into it; and at the end of the highlight window the
   * narration has already run out.
   */
  lemma LagAtConfiguredLeadIn(audioDuration: real)
    requires audioDuration >= 0.0
    ensures AudioTime(LeadIn, LeadIn) == 0.0 && NarrationPosition(LeadIn, AsWrittenClipStart) == 1.0
    ensures InAudio(AudioTime(LeadIn + audioDuration, LeadIn), audioDuration)
    ensures !InAudio(NarrationPosition(LeadIn + audioDuration, AsWrittenClipStart), audioDuration)
  {
  }

  /**
   * Starting the clip at the lead-in makes the heard position and the
   * highlighted audio time the same at every frame, so the narration is
   * heard exactly in the highlight window.
   */
  lemma DelayedNarrationMatches(t: real, leadIn: real, audioDuration: real)
    ensures NarrationPosition(t, IntendedClipStart(leadIn)) == AudioTime(t, leadIn)
    ensures InAudio(NarrationPosition(t, IntendedClipStart(leadIn)), audioDuration)
      <==> leadIn <= t <= leadIn + audioDuration
  {
  }

  // ----- searches ------------------------------------------------------------

  /** The first record in list order covering `t`, from index `i` on. */
  function FirstCoveringFrom(ts: seq<WordTiming>, t: real, i: nat): (r: Option<nat>)
    requires i <= |ts|
    ensures r.Some? ==> i <= r.value < |ts| && Covers(ts[r.value], t)
    ensures r.Some? ==> forall j | i <= j < r.value :: !Covers(ts[j], t)
    ensures r.None? ==> forall j | i <= j < |ts| :: !Covers(ts[j], t)
    decreases |ts| - i
  {
    if i == |ts| then None
    else if Covers(ts[i], t) then Some(i)
    else FirstCoveringFrom(ts, t, i + 1)
  }

  function FirstCovering(ts: seq<WordTiming>, t: real): (r: Option<nat>)
    ensures r.Some? ==> r.value < |ts| && Covers(ts[r.value], t)
    ensures r.Some? ==> forall j | 0 <= j < r.value :: !Covers(ts[j], t)
    ensures r.None? ==> forall j | 0 <= j < |ts| :: !Covers(ts[j], t)
  {
    FirstCoveringFrom(ts, t, 0)
  }

  /** The last record in list order that has ended by `t`. */
  function LastEnded(ts: seq<WordTiming>, t: real): (r: Option<nat>)
    ensures r.Some? ==> r.value < |ts| && ts[r.value].end <= t
    ensures r.Some? ==> forall j | r.value < j < |ts| :: ts[j].end > t
    ensures r.None? ==> forall j | 0 <= j < |ts| :: ts[j].end > t
  {
    if ts == [] then None
    else if ts[|ts| - 1].end <= t then Some(|ts| - 1)
    else LastEnded(ts[..|ts| - 1], t)
  }

  /** `max((end for end <= t), default=0)`. */
  function MaxEndedBy(ts: seq<WordTiming>, t: real): (m: real)
    ensures (forall j | 0 <= j < |ts| :: ts[j].end > t) ==> m == 0.0
    ensures forall j | 0 <= j < |ts| && ts[j].end <= t :: ts[j].end <= m
    ensures (exists j | 0 <= j < |ts| :: ts[j].end <= t) ==> exists j | 0 <= j < |ts| :: ts[j].end <= t && ts[j].end == m
  {
    if ts == [] then 0.0
    else
      var rest := MaxEndedBy(ts[..|ts| - 1], t);
      var last := ts[|ts| - 1];
      if last.end > t then
        assert forall j | 0 <= j < |ts| - 1 :: ts[..|ts| - 1][j] == ts[j];
        rest
      else if forall j | 0 <= j < |ts| - 1 :: ts[j].end > t then
        assert forall j | 0 <= j < |ts| - 1 :: ts[..|ts| - 1][j] == ts[j];
        last.end
      else
        assert forall j | 0 <= j < |ts| - 1 :: ts[..|ts| - 1][j] == ts[j];
        if last.end > rest then last.end else rest
  }

  // ----- the active word -----------------------------------------------------------

  /**
   * The word the frame shows, stripped; "" when there is none. In the audio
   * window the first covering record is tried; if that gives nothing (no
   * record covers, or its stripped text is empty) the last record already
   * ended is used instead.
   */
  function CurrentWord(ts: seq<WordTiming>, audioTime: real, audioDuration: real): string
  {
    if !InAudio(audioTime, audioDuration) then ""
    else
      var covering := match FirstCovering(ts, audioTime)
        case Some(i) => Strip(ts[i].word)
        case None => "";
      if covering != "" then covering
      else match LastEnded(ts, audioTime)
        case Some(j) => Strip(ts[j].word)
        case None => ""
  }

  /** Outside the audio window no word is chosen. */
  lemma NoWordOutsideAudio(ts: seq<WordTiming>, audioTime: real, audioDuration: real)
    requires !InAudio(audioTime, audioDuration)
    ensures CurrentWord(ts, audioTime, audioDuration) == ""
  {
  }

  /** An empty timing list never shows a word. */
  lemma NoWordWithoutTimings(audioTime: real, audioDuration: real)
    ensures CurrentWord([], audioTime, audioDuration) == ""
  {
  }

  /** While the record at `i` is the first to cover the time, its (non-empty) text is shown. */
  lemma ShowsFirstCovering(ts: seq<WordTiming>, audioTime: real, audioDuration: real, i: nat)
    requires InAudio(audioTime, audioDuration)
    requires i < |ts| && Covers(ts[i], audioTime) && Strip(ts[i].word) != ""
    requires forall j | 0 <= j < i :: !Covers(ts[j], audioTime)
    ensures CurrentWord(ts, audioTime, audioDuration) == Strip(ts[i].word)
  {
    FirstCoveringIs(ts, audioTime, i);
  }

  /** In a silence the last record that has ended (the one at `j`) supplies the word. */
  lemma ShowsLastEndedInSilence(ts: seq<WordTiming>, audioTime: real, audioDuration: real, j: nat)
    requires InAudio(audioTime, audioDuration)
    requires forall k | 0 <= k < |ts| :: !Covers(ts[k], audioTime)
    requires j < |ts| && ts[j].end <= audioTime
    requires forall k | j < k < |ts| :: ts[k].end > audioTime
    ensures CurrentWord(ts, audioTime, audioDuration) == Strip(ts[j].word)
  {
    assert LastEnded(ts, audioTime) == Some(j);
  }

  /** In a silence before anything has ended there is no word. */
  lemma NoWordBeforeFirstEnd(ts: seq<WordTiming>, audioTime: real, audioDuration: real)
    requires forall k | 0 <= k < |ts| :: !Covers(ts[k], audioTime) && ts[k].end > audioTime
    ensures CurrentWord(ts, audioTime, audioDuration) == ""
  {
  }

  // ----- fading --------------------------------------------------------------

  function Max(a: real, b: real): real { if a >= b then a else b }

  /** After two seconds of silence the word fades linearly over three seconds, down to 30%. */
  function SilenceFade(silence: real): (f: real)
    ensures 0.3 <= f <= 1.0
    ensures silence <= 2.0 ==> f == 1.0
    ensures silence >= 4.1 ==> f == 0.3
  {
    if silence > 2.0 then Max(0.3, 1.0 - (silence - 2.0) / 3.0) else 1.0
  }

  /** Longer silences never make the word brighter. */
  lemma SilenceFadeMonotone(s1: real, s2: real)
    requires s1 <= s2
    ensures SilenceFade(s2) <= SilenceFade(s1)
  {
  }

  /** The fade factor the frame uses; 0.2 is its value outside the audio window. */
  function FadeAlpha(ts: seq<WordTiming>, audioTime: real, audioDuration: real): real
  {
    if InAudio(audioTime, audioDuration) then
      if FirstCovering(ts, audioTime).None? then SilenceFade(audioTime - MaxEndedBy(ts, audioTime))
      else 1.0
    else 0.2
  }

  /** In the audio window the fade lies in [0.3, 1], and it is 1 while any word is being spoken. */
  lemma FadeInAudio(ts: seq<WordTiming>, audioTime: real, audioDuration: real)
    requires InAudio(audioTime, audioDuration)
    ensures 0.3 <= FadeAlpha(ts, audioTime, audioDuration) <= 1.0
    ensures (exists k | 0 <= k < |ts| :: Covers(ts[k], audioTime)) ==> FadeAlpha(ts, audioTime, audioDuration) == 1.0
  {
  }

  /** The silence measured for the fade is never negative. */
  lemma SilenceNonNegative(ts: seq<WordTiming>, audioTime: real)
    requires audioTime >= 0.0
    ensures audioTime - MaxEndedBy(ts, audioTime) >= 0.0
  {
    if exists j | 0 <= j < |ts| :: ts[j].end <= audioTime {
      var j :| 0 <= j < |ts| && ts[j].end <= audioTime && ts[j].end == MaxEndedBy(ts, audioTime);
    }
  }

  // ----- colours ---------------------------------------------------------------

  datatype Rgb = Rgb(r: int, g: int, b: int)

  const Amber := Rgb(255, 200, 50)
  const AmberShadow := Rgb(120, 60, 0)
  const White := Rgb(255, 255, 255)
  const Grey := Rgb(80, 80, 80)

  /** `int(c * fade)` for a non-negative channel. */
  function ScaleChannel(c: nat, fade: real): (r: int)
    requires 0.0 <= fade
    ensures 0 <= r
    ensures fade <= 1.0 ==> r <= c
  {
    (c as real * fade).Floor
  }

  function ScaleRgb(c: Rgb, fade: real): Rgb
    requires 0.0 <= fade && c.r >= 0 && c.g >= 0 && c.b >= 0
  {
    Rgb(ScaleChannel(c.r, fade), ScaleChannel(c.g, fade), ScaleChannel(c.b, fade))
  }

  /** Some record with exactly this text covers the audio time, inside the audio window. */
  predicate Speaking(ts: seq<WordTiming>, audioTime: real, audioDuration: real, w: string)
  {
    InAudio(audioTime, audioDuration)
    && exists i | 0 <= i < |ts| :: Strip(ts[i].word) == w && Covers(ts[i], audioTime)
  }

  /** What a frame draws over the background. */
  datatype Overlay =
    | NoWord
    | ShownWord(text: string, boxAlpha: int, color: Rgb, shadow: Rgb)

  function OverlayAt(ts: seq<WordTiming>, audioTime: real, audioDuration: real): Overlay
  {
    var w := CurrentWord(ts, audioTime, audioDuration);
    if w == "" then NoWord
    else
      Draw(w, FadeAlpha(ts, audioTime, audioDuration), Speaking(ts, audioTime, audioDuration, w))
  }

  /** The word on a box of alpha `int(180 * fade)`, amber on a dark amber shadow while spoken, else white on grey. */
  function Draw(w: string, fade: real, speaking: bool): Overlay
    requires fade >= 0.0
  {
    ShownWord(w, (180.0 * fade).Floor,
      ScaleRgb(if speaking then Amber else White, fade),
      ScaleRgb(if speaking then AmberShadow else Grey, fade))
  }

  /** At full strength the colours are the unfaded ones. */
  lemma DrawFullStrength(w: string, speaking: bool)
    ensures Draw(w, 1.0, speaking) == ShownWord(w, 180, if speaking then Amber else White, if speaking then AmberShadow else Grey)
  {
    assert (180.0 * 1.0).Floor == 180;
  }

  /**
   * A word is drawn only inside the audio window, so the 0.2 lead-in/lead-out
   * dimming is never applied; the box alpha stays in [54, 180] and no colour
   * channel exceeds its unfaded value.
   */
  lemma OverlayOnlyInAudio(ts: seq<WordTiming>, audioTime: real, audioDuration: real)
    ensures OverlayAt(ts, audioTime, audioDuration).ShownWord? ==> InAudio(audioTime, audioDuration)
    ensures OverlayAt(ts, audioTime, audioDuration) == NoWord <==> CurrentWord(ts, audioTime, audioDuration) == ""
    ensures var o := OverlayAt(ts, audioTime, audioDuration);
      o.ShownWord? ==> (54 <= o.boxAlpha <= 180
        && 0 <= o.color.r <= 255 && 0 <= o.color.g <= 255 && 0 <= o.color.b <= 255
        && 0 <= o.shadow.r <= 120 && 0 <= o.shadow.g <= 80 && 0 <= o.shadow.b <= 80)
  {
    var w := CurrentWord(ts, audioTime, audioDuration);
    if w != "" {
      FadeInAudio(ts, audioTime, audioDuration);
    }
  }

  /** An overlay is amber exactly when its word is being spoken. */
  lemma AmberIffSpeaking(ts: seq<WordTiming>, audioTime: real, audioDuration: real)
    requires OverlayAt(ts, audioTime, audioDuration).ShownWord?
    ensures var o := OverlayAt(ts, audioTime, audioDuration);
      var fade := FadeAlpha(ts, audioTime, audioDuration);
      o.color == ScaleRgb(Amber, fade) <==> Speaking(ts, audioTime, audioDuration, o.text)
  {
    var w := CurrentWord(ts, audioTime, audioDuration);
    var fade := FadeAlpha(ts, audioTime, audioDuration);
    var speaking := Speaking(ts, audioTime, audioDuration, w);
    OverlayOnlyInAudio(ts, audioTime, audioDuration);
    FadeInAudio(ts, audioTime, audioDuration);
    assert OverlayAt(ts, audioTime, audioDuration) == Draw(w, fade, speaking);
    AmberNotWhite(fade);
  }

  /** Amber and white stay apart at every fade of the audio window. */
  lemma AmberNotWhite(fade: real)
    requires 0.3 <= fade <= 1.0
    ensures ScaleRgb(Amber, fade) != ScaleRgb(White, fade)
  {
    assert ScaleChannel(200, fade) < ScaleChannel(255, fade) by {
      assert 200.0 * fade + 1.0 <= 255.0 * fade;
    }
  }

  /** During a silence the word is white: nothing covers the time, so nothing is spoken. */
  lemma WhiteInSilence(ts: seq<WordTiming>, audioTime: real, audioDuration: real)
    requires forall k | 0 <= k < |ts| :: !Covers(ts[k], audioTime)
    requires OverlayAt(ts, audioTime, audioDuration).ShownWord?
    ensures var o := OverlayAt(ts, audioTime, audioDuration);
      o.color == ScaleRgb(White, FadeAlpha(ts, audioTime, audioDuration))
  {
  }

  /** While a non-empty word is spoken it is drawn at full strength in amber on a 180-alpha box. */
  lemma SpokenWordFullAmber(ts: seq<WordTiming>, audioTime: real, audioDuration: real, i: nat)
    requires InAudio(audioTime, audioDuration)
    requires i < |ts| && Covers(ts[i], audioTime) && Strip(ts[i].word) != ""
    requires forall j | 0 <= j < i :: !Covers(ts[j], audioTime)
    ensures OverlayAt(ts, audioTime, audioDuration) == ShownWord(Strip(ts[i].word), 180, Amber, AmberShadow)
  {
    SpokenState(ts, audioTime, audioDuration, i);
    var w := Strip(ts[i].word);
    assert OverlayAt(ts, audioTime, audioDuration) == Draw(w, 1.0, true);
    DrawFullStrength(w, true);
  }

  /** While a non-empty word is spoken it is the current word, at full fade, and counts as spoken. */
  lemma SpokenState(ts: seq<WordTiming>, audioTime: real, audioDuration: real, i: nat)
    requires InAudio(audioTime, audioDuration)
    requires i < |ts| && Covers(ts[i], audioTime) && Strip(ts[i].word) != ""
    requires forall j | 0 <= j < i :: !Covers(ts[j], audioTime)
    ensures CurrentWord(ts, audioTime, audioDuration) == Strip(ts[i].word)
    ensures FadeAlpha(ts, audioTime, audioDuration) == 1.0
    ensures Speaking(ts, audioTime, audioDuration, Strip(ts[i].word))
  {
    FirstCoveringIs(ts, audioTime, i);
    ShowsFirstCovering(ts, audioTime, audioDuration, i);
    assert FadeAlpha(ts, audioTime, audioDuration) == 1.0;
    assert Speaking(ts, audioTime, audioDuration, Strip(ts[i].word)) by {
      assert 0 <= i < |ts| && Covers(ts[i], audioTime);
    }
  }

  /** The first covering record is the covering one that no earlier record precedes. */
  lemma FirstCoveringIs(ts: seq<WordTiming>, t: real, i: nat)
    requires i < |ts| && Covers(ts[i], t)
    requires forall j | 0 <= j < i :: !Covers(ts[j], t)
    ensures FirstCovering(ts, t) == Some(i)
  {
  }

  // ----- placement -------------------------------------------------------------

  /** `x = (width - word_width) // 2`, `y = (height - word_height) // 2 - 100`. */
  function WordOrigin(width: int, height: int, wordWidth: int, wordHeight: int): (p: (int, int))
    ensures 2 * p.0 <= width - wordWidth <= 2 * p.0 + 1
    ensures 2 * (p.1 + 100) <= height - wordHeight <= 2 * (p.1 + 100) + 1
  {
    ((width - wordWidth) / 2, (height - wordHeight) / 2 - 100)
  }
}
