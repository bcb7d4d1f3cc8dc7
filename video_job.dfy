/**
 * Which chapters get a video and with what art
 * (scripts/create_audiobook_video.py, `create_chapter_video` and
 * `create_audiobook_videos`), and the per-frame renderer `make_frame`
 * with its frame counter.
 */
module VideoJob {
  import opened Wrappers
  import opened Seqs
  import opened Text
  import opened Books
  import opened VideoTiming
  import opened VideoZoom

  // ----- one chapter ---------------------------------------------------------

  /** The name of a chapter's video in the output directory: `<stem>.mp4`. */
  function OutputName(stem: string): string
  {
    stem + ".mp4"
  }

  /**
   * The art file for a stem: foreword and epilogue have their own, a
   * `chapter_N` stem uses `chapter_N.png` when that file exists, and
   * everything else falls back to `chapter_1.png`. Only the chapter-specific
   * file is checked for existence.
   */
  function ArtFile(stem: string, artExists: string -> bool): (art: string)
    ensures art == "foreword.png" || art == "epilogue.png" || art == "chapter_1.png" || artExists(art)
  {
    if stem == "foreword" then "foreword.png"
    else if stem == "epilogue" then "epilogue.png"
    else if StartsWith(stem, "chapter_") then
      ChapterStemPieces(stem);
      var specific := "chapter_" + Split(stem, "_")[1] + ".png";
      if artExists(specific) then specific else "chapter_1.png"
    else "chapter_1.png"
  }

  /** A stem starting `chapter_` splits on `_` into `chapter` and the pieces of what follows. */
  lemma ChapterStemPieces(stem: string)
    requires StartsWith(stem, "chapter_")
    ensures Split(stem, "_") == ["chapter"] + Split(stem[8..], "_")
    ensures |Split(stem, "_")| >= 2 && Split(stem, "_")[1] == Split(stem[8..], "_")[0]
  {
    assert BreaksCleanly("chapter", "_") by {
      forall p | 0 <= p < 7 ensures !StartsWith(("chapter" + "_")[p..], "_") {
        assert ("chapter" + "_")[p..][0] == "chapter"[p];
      }
    }
    assert stem == "chapter" + "_" + stem[8..];
    SplitAfter("chapter", "_", stem[8..]);
  }

  /** Chapter `n`'s video uses `chapter_n.png` if it exists and `chapter_1.png` otherwise. */
  lemma ChapterArt(n: nat, artExists: string -> bool)
    ensures var own := ChapterStem(n) + ".png";
      ArtFile(ChapterStem(n), artExists) == if artExists(own) then own else "chapter_1.png"
  {
    var stem := ChapterStem(n);
    var digits := NatToString(n);
    assert StartsWith(stem, "chapter_");
    ChapterStemPieces(stem);
    assert stem[8..] == digits;
    assert !Contains(digits, "_") by {
      ContainsChar(digits, '_');
      assert '_' !in digits by {
        forall i | 0 <= i < |digits| ensures digits[i] != '_' { assert IsDigit(digits[i]); }
      }
      assert "_" == ['_'];
    }
    SplitWhole(digits, "_");
    assert stem != "foreword" && stem != "epilogue" by { assert stem[0] == 'c'; }
  }

  /** The foreword and the epilogue always use their own art. */
  lemma NamedArt(artExists: string -> bool)
    ensures ArtFile("foreword", artExists) == "foreword.png"
    ensures ArtFile("epilogue", artExists) == "epilogue.png"
  {
  }

  /** What `create_chapter_video` does for one chapter. */
  datatype ChapterVideo = Skipped(output: string) | Rendered(output: string, art: string)

  /** An existing output video is returned at once; otherwise the video is rendered with the chosen art. */
  function ChapterVideoFor(stem: string, outputExists: string -> bool, artExists: string -> bool): (v: ChapterVideo)
    ensures v.output == OutputName(stem)
    ensures v.Skipped? <==> outputExists(OutputName(stem))
    ensures v.Rendered? ==> v.art == ArtFile(stem, artExists)
  {
    var output := OutputName(stem);
    if outputExists(output) then Skipped(output) else Rendered(output, ArtFile(stem, artExists))
  }

  // ----- all chapters --------------------------------------------------------

  /** `f"{i:03d}_chapter_{i}.wav"`, the narration of chapter `i`. */
  function ChapterAudio(i: nat): string
  {
    ZeroPad(i, 3) + "_chapter_" + NatToString(i) + ".wav"
  }

  const ForewordAudio: string := "000_foreword.wav"
  const EpilogueAudio: string := "999_epilogue.wav"

  /** Chapter `i` gets a video when its markdown and its narration exist and rendering it did not fail. */
  predicate ChapterMade(storyExists: string -> bool, audioExists: string -> bool, fails: nat -> bool, i: nat)
  {
    storyExists(ChapterStem(i) + ".md") && audioExists(ChapterAudio(i)) && !fails(i)
  }

  function Made(storyExists: string -> bool, audioExists: string -> bool, fails: nat -> bool): nat -> bool
  {
    (i: nat) => ChapterMade(storyExists, audioExists, fails, i)
  }

  /** The foreword's video is attempted when its markdown and its narration exist. */
  predicate ForewordWanted(storyExists: string -> bool, audioExists: string -> bool)
  {
    storyExists("foreword.md") && audioExists(ForewordAudio)
  }

  /** The epilogue's video is attempted when its markdown and its narration exist. */
  predicate EpilogueWanted(storyExists: string -> bool, audioExists: string -> bool)
  {
    storyExists("epilogue.md") && audioExists(EpilogueAudio)
  }

  /** The videos made, in order: foreword, the chapters that could be made in ascending order, epilogue. */
  function Videos(storyExists: string -> bool, audioExists: string -> bool, fails: nat -> bool): seq<Part>
  {
    BookParts(ForewordWanted(storyExists, audioExists), Made(storyExists, audioExists, fails),
              EpilogueWanted(storyExists, audioExists))
  }

  /**
   * How `create_audiobook_videos` ends. Only the chapter renders are guarded
   * by a `try`: a foreword or epilogue render that raises ends the whole run,
   * leaving behind the videos made before it.
   */
  datatype VideoRun =
    | NoAudioDir
    | Aborted(made: seq<Part>)
    | Finished(videos: seq<Part>)

  /**
   * The outcome for a given file system, per-chapter failures and foreword
   * and epilogue failures: nothing without the audio directory; a failing
   * foreword stops the run before any chapter; a failing epilogue stops it
   * after the chapters; otherwise every video is collected.
   */
  function Outcome(audioDirExists: bool, storyExists: string -> bool, audioExists: string -> bool, fails: nat -> bool,
                   forewordFails: bool, epilogueFails: bool): (r: VideoRun)
    ensures r.NoAudioDir? <==> !audioDirExists
    ensures r.Aborted? <==> (audioDirExists
      && ((ForewordWanted(storyExists, audioExists) && forewordFails) || (EpilogueWanted(storyExists, audioExists) && epilogueFails)))
    ensures r.Finished? ==> r.videos == Videos(storyExists, audioExists, fails)
  {
    if !audioDirExists then NoAudioDir
    else if ForewordWanted(storyExists, audioExists) && forewordFails then Aborted([])
    else if EpilogueWanted(storyExists, audioExists) && epilogueFails then
      Aborted(BookParts(ForewordWanted(storyExists, audioExists), Made(storyExists, audioExists, fails), false))
    else Finished(Videos(storyExists, audioExists, fails))
  }

  /**
   * A failing foreword leaves no video at all; a failing epilogue leaves
   * exactly the videos a full run would have made except the epilogue.
   */
  lemma {:induction false} AbortedRuns(audioDirExists: bool, storyExists: string -> bool, audioExists: string -> bool,
                                       fails: nat -> bool, forewordFails: bool, epilogueFails: bool)
    requires Outcome(audioDirExists, storyExists, audioExists, fails, forewordFails, epilogueFails).Aborted?
    ensures var made := Outcome(audioDirExists, storyExists, audioExists, fails, forewordFails, epilogueFails).made;
      if ForewordWanted(storyExists, audioExists) && forewordFails then made == []
      else made + [Epilogue] == Videos(storyExists, audioExists, fails) && Epilogue !in made
  {
    var fw := ForewordWanted(storyExists, audioExists);
    var made := Made(storyExists, audioExists, fails);
    if !(fw && forewordFails) {
      var walked := (if fw then [Foreword] else []) + Chapters(Present(made, FirstChapter, LastChapter));
      var r := Outcome(audioDirExists, storyExists, audioExists, fails, forewordFails, epilogueFails);
      assert r.made == BookParts(fw, made, false);
      BookPartsEnd(fw, made, false, walked);
      assert walked + [] == walked;
      BookPartsEnd(fw, made, true, walked);
      assert Videos(storyExists, audioExists, fails) == BookParts(fw, made, true);
      BookPartsMember(fw, made, false, Epilogue);
    }
  }

  /**
   * `create_audiobook_videos` with the file system, the per-chapter failures
   * (caught and reported by the chapter loop) and the foreword and epilogue
   * failures (not caught) as inputs.
   */
  method CreateAudiobookVideos(audioDirExists: bool, storyExists: string -> bool, audioExists: string -> bool,
                               fails: nat -> bool, forewordFails: bool, epilogueFails: bool)
    returns (run: VideoRun)
    ensures run == Outcome(audioDirExists, storyExists, audioExists, fails, forewordFails, epilogueFails)
  {
    if !audioDirExists {
      return NoAudioDir;
    }
    if ForewordWanted(storyExists, audioExists) && forewordFails {
      return Aborted([]);
    }
    var videos := if ForewordWanted(storyExists, audioExists) then [Foreword] else [];
    videos := CollectChapterVideos(storyExists, audioExists, fails, videos);
    run := FinishRun(storyExists, audioExists, fails, forewordFails, epilogueFails, videos);
  }

  /** After the chapter loop: the epilogue render either aborts the run or closes the list. */
  method FinishRun(storyExists: string -> bool, audioExists: string -> bool, fails: nat -> bool,
                   forewordFails: bool, epilogueFails: bool, videos: seq<Part>)
    returns (run: VideoRun)
    requires !(ForewordWanted(storyExists, audioExists) && forewordFails)
    requires videos == (if ForewordWanted(storyExists, audioExists) then [Foreword] else [])
      + Chapters(Present(Made(storyExists, audioExists, fails), FirstChapter, LastChapter))
    ensures run == Outcome(true, storyExists, audioExists, fails, forewordFails, epilogueFails)
  {
    if EpilogueWanted(storyExists, audioExists) && epilogueFails {
      BookPartsEnd(ForewordWanted(storyExists, audioExists), Made(storyExists, audioExists, fails), false, videos);
      assert videos + [] == videos;
      return Aborted(videos);
    }
    var all := AddEpilogueVideo(storyExists, audioExists, fails, videos);
    return Finished(all);
  }

  /** The chapter loop: the chapters 1..24 that can be made are appended in ascending order. */
  method CollectChapterVideos(storyExists: string -> bool, audioExists: string -> bool, fails: nat -> bool, head: seq<Part>)
    returns (videos: seq<Part>)
    ensures videos == head + Chapters(Present(Made(storyExists, audioExists, fails), FirstChapter, LastChapter))
  {
    videos := head;
    var i := FirstChapter;
    while i <= LastChapter
      invariant FirstChapter <= i <= LastChapter + 1
      invariant videos == head + Chapters(Present(Made(storyExists, audioExists, fails), FirstChapter, i - 1))
    {
      videos := AddChapterVideo(storyExists, audioExists, fails, head, videos, i);
      i := i + 1;
    }
  }

  /** One round of the chapter loop: chapter `i` is appended exactly when it can be made. */
  method AddChapterVideo(storyExists: string -> bool, audioExists: string -> bool, fails: nat -> bool,
                         ghost head: seq<Part>, videos: seq<Part>, i: nat)
    returns (videos': seq<Part>)
    requires FirstChapter <= i
    requires videos == head + Chapters(Present(Made(storyExists, audioExists, fails), FirstChapter, i - 1))
    ensures videos' == head + Chapters(Present(Made(storyExists, audioExists, fails), FirstChapter, i))
  {
    VideosStep(storyExists, audioExists, fails, head, videos, i);
    videos' := videos;
    if ChapterMade(storyExists, audioExists, fails, i) {
      videos' := videos' + [Chapter(i)];
    }
  }

  /** The epilogue's video closes the list when it can be made. */
  method AddEpilogueVideo(storyExists: string -> bool, audioExists: string -> bool, fails: nat -> bool, videos: seq<Part>)
    returns (videos': seq<Part>)
    requires videos == (if ForewordWanted(storyExists, audioExists) then [Foreword] else [])
      + Chapters(Present(Made(storyExists, audioExists, fails), FirstChapter, LastChapter))
    ensures videos' == Videos(storyExists, audioExists, fails)
  {
    BookPartsEnd(ForewordWanted(storyExists, audioExists), Made(storyExists, audioExists, fails),
                 EpilogueWanted(storyExists, audioExists), videos);
    videos' := videos;
    if EpilogueWanted(storyExists, audioExists) {
      videos' := videos' + [Epilogue];
    }
  }

  /** One round of the chapter loop: chapter `i` is appended exactly when it can be made. */
  lemma VideosStep(storyExists: string -> bool, audioExists: string -> bool, fails: nat -> bool,
                   head: seq<Part>, videos: seq<Part>, i: nat)
    requires FirstChapter <= i
    requires videos == head + Chapters(Present(Made(storyExists, audioExists, fails), FirstChapter, i - 1))
    ensures (if ChapterMade(storyExists, audioExists, fails, i) then videos + [Chapter(i)] else videos)
      == head + Chapters(Present(Made(storyExists, audioExists, fails), FirstChapter, i))
  {
    BookPartsStep(Made(storyExists, audioExists, fails), head, videos, i);
    MadeAt(storyExists, audioExists, fails, i);
  }

  /** Applying `Made` is asking `ChapterMade`. */
  lemma MadeAt(storyExists: string -> bool, audioExists: string -> bool, fails: nat -> bool, i: nat)
    ensures Made(storyExists, audioExists, fails)(i) == ChapterMade(storyExists, audioExists, fails, i)
  {
  }

  /** A chapter has a video exactly when it is in range and its files exist and rendering it did not fail. */
  lemma ChapterListedIff(storyExists: string -> bool, audioExists: string -> bool, fails: nat -> bool, i: nat)
    ensures Chapter(i) in Videos(storyExists, audioExists, fails)
      <==> FirstChapter <= i <= LastChapter && ChapterMade(storyExists, audioExists, fails, i)
  {
    BookPartsMember(ForewordWanted(storyExists, audioExists), Made(storyExists, audioExists, fails),
                    EpilogueWanted(storyExists, audioExists), Chapter(i));
    MadeAt(storyExists, audioExists, fails, i);
  }

  // ----- frames --------------------------------------------------------------

  const Width: nat := 1920
  const Height: nat := 1080

  /** What one frame shows: the zoom table entry and the word overlay. */
  datatype Frame = Frame(zoom: ZoomFrame, overlay: Overlay)

  /** The frame at video time `t`. */
  function FrameAt(ts: seq<WordTiming>, leadIn: real, audioDuration: real, videoDuration: real, t: real): Frame
    requires videoDuration > 0.0 && t >= 0.0
  {
    RenderIndexRange(t, videoDuration);
    Frame(ZoomEntry(Width, Height, RenderIndex(t, videoDuration)), OverlayAt(ts, AudioTime(t, leadIn), audioDuration))
  }

  /** The `make_frame` closure with its shared frame counter. */
  class FrameRenderer {
    const timings: seq<WordTiming>
    const leadIn: real
    const audioDuration: real
    const videoDuration: real
    var frameCount: nat

    constructor (timings: seq<WordTiming>, leadIn: real, audioDuration: real, leadOut: real)
      requires leadIn >= 0.0 && leadOut >= 0.0 && audioDuration > 0.0
      ensures this.timings == timings && this.leadIn == leadIn && this.audioDuration == audioDuration
      ensures videoDuration == VideoDuration(leadIn, audioDuration, leadOut)
      ensures frameCount == 0
    {
      this.timings := timings;
      this.leadIn := leadIn;
      this.audioDuration := audioDuration;
      this.videoDuration := VideoDuration(leadIn, audioDuration, leadOut);
      frameCount := 0;
    }

    /** Counts the frame and draws it. */
    method MakeFrame(t: real) returns (f: Frame)
      requires videoDuration > 0.0 && t >= 0.0
      modifies this
      ensures frameCount == old(frameCount) + 1
      ensures f == FrameAt(timings, leadIn, audioDuration, videoDuration, t)
    {
      frameCount := frameCount + 1;
      var cacheIndex := RenderIndex(t, videoDuration);
      RenderIndexRange(t, videoDuration);
      var audioTime := AudioTime(t, leadIn);
      f := Frame(ZoomEntry(Width, Height, cacheIndex), OverlayAt(timings, audioTime, audioDuration));
    }
  }

  /** Every frame of the video shows a cropped zoom step, and no word during the lead-in or the lead-out. */
  lemma FrameShape(ts: seq<WordTiming>, leadIn: real, audioDuration: real, leadOut: real, t: real)
    requires leadIn >= 0.0 && leadOut >= 0.0 && audioDuration > 0.0
    requires 0.0 <= t <= VideoDuration(leadIn, audioDuration, leadOut)
    ensures var f := FrameAt(ts, leadIn, audioDuration, VideoDuration(leadIn, audioDuration, leadOut), t);
      f.zoom.Cropped?
      && (t < leadIn || t > leadIn + audioDuration ==> f.overlay == NoWord)
  {
    var d := VideoDuration(leadIn, audioDuration, leadOut);
    RenderIndexRange(t, d);
    AudioWindow(t, leadIn, audioDuration);
    if t < leadIn || t > leadIn + audioDuration {
      NoWordOutsideAudio(ts, AudioTime(t, leadIn), audioDuration);
    }
  }
}
