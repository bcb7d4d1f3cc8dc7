/**
 * Word timings for the audiobook video (scripts/create_audiobook_video.py,
 * `get_exact_word_timings_from_audio`): a readable cache entry is used as it
 * is; otherwise the recognition result is flattened into one record per
 * recognised word, which is also what gets written back to the cache.
 */
module VideoAlignment {
  import opened Wrappers
  import opened Text
  import opened VideoTiming
  import opened Seqs

  /** One entry of a segment's `"words"` list as the recogniser reports it. */
  datatype RecognizedWord = RecognizedWord(text: string, start: real, end: real, confidence: Option<real>)

  /** A recognised segment; `words` is `None` when the segment has no `"words"` key. */
  datatype Segment = Segment(words: Option<seq<RecognizedWord>>)

  /** The recogniser's result, or the failure of any step of it (loading, transcribing, a missing key). */
  datatype Recognition = Recognized(segments: seq<Segment>) | RecognitionFailed

  /** The cache entry for an audio file: missing, present but unreadable, or holding timings. */
  datatype CacheFile = NoCacheFile | UnreadableCache | CachedTimings(timings: seq<WordTiming>)

  /** The record built for one recognised word: stripped text, same times, confidence 1.0 when absent. */
  function Record(w: RecognizedWord): WordTiming
  {
    WordTiming(Strip(w.text), w.start, w.end, w.confidence.GetOr(1.0))
  }

  /** A record's text is the word's text with the surrounding whitespace removed, empty only for blank text. */
  lemma RecordText(w: RecognizedWord)
    ensures Trimmed(Record(w).word) && |Record(w).word| <= |w.text|
    ensures Record(w).word == "" <==> IsBlank(w.text)
    ensures Record(w).start == w.start && Record(w).end == w.end
    ensures Record(w).confidence == if w.confidence.Some? then w.confidence.value else 1.0
  {
  }

  /** The records for a list of recognised words, one each, in order. */
  function Records(ws: seq<RecognizedWord>): (rs: seq<WordTiming>)
    ensures |rs| == |ws|
  {
    if ws == [] then [] else Records(ws[..|ws| - 1]) + [Record(ws[|ws| - 1])]
  }

  /** Record `j` of a word list is the record of word `j`. */
  lemma {:induction false} RecordsAt(ws: seq<RecognizedWord>, j: nat)
    requires j < |ws|
    ensures Records(ws)[j] == Record(ws[j])
    decreases |ws|
  {
    var init := ws[..|ws| - 1];
    assert Records(ws) == Records(init) + [Record(ws[|ws| - 1])];
    if j < |ws| - 1 {
      RecordsAt(init, j);
      assert init[j] == ws[j];
    }
  }

  function SegmentRecords(s: Segment): seq<WordTiming>
  {
    match s.words
    case None => []
    case Some(ws) => Records(ws)
  }

  /** All records of all segments, segment by segment. */
  function Flatten(segments: seq<Segment>): seq<WordTiming>
  {
    if segments == [] then []
    else Flatten(segments[..|segments| - 1]) + SegmentRecords(segments[|segments| - 1])
  }

  /** The number of recognised words over the segments that have a `"words"` key. */
  function WordCount(segments: seq<Segment>): nat
  {
    if segments == [] then 0
    else
      var last := segments[|segments| - 1];
      WordCount(segments[..|segments| - 1]) + (if last.words.Some? then |last.words.value| else 0)
  }

  /** There is exactly one record per recognised word. */
  lemma {:induction false} FlattenLength(segments: seq<Segment>)
    ensures |Flatten(segments)| == WordCount(segments)
    decreases |segments|
  {
    if segments != [] {
      FlattenLength(segments[..|segments| - 1]);
    }
  }

  /** Records keep segment order: the records of two runs of segments are those of each, one after the other. */
  lemma {:induction false} FlattenAppend(a: seq<Segment>, b: seq<Segment>)
    ensures Flatten(a + b) == Flatten(a) + Flatten(b)
    decreases |b|
  {
    if b == [] {
      assert a + b == a;
    } else {
      var init := b[..|b| - 1];
      var last := b[|b| - 1];
      InitOfAppend(a, b);
      FlattenAppend(a, init);
      ConcatAssoc(Flatten(a), Flatten(init), SegmentRecords(last));
    }
  }

  /** Within one segment the records follow its words in order. */
  lemma FlattenOne(s: Segment)
    ensures Flatten([s]) == SegmentRecords(s)
  {
    assert [s][..0] == [];
  }

  /** A segment without a `"words"` key contributes nothing. */
  lemma SegmentWithoutWords(a: seq<Segment>, b: seq<Segment>)
    ensures Flatten(a + [Segment(None)] + b) == Flatten(a + b)
  {
    FlattenAppend(a + [Segment(None)], b);
    FlattenAppend(a, [Segment(None)]);
    FlattenOne(Segment(None));
    FlattenAppend(a, b);
  }

  /** The extraction loop: one record per word of each segment that has words, counting them. */
  method ExtractWordTimings(segments: seq<Segment>) returns (wordTimings: seq<WordTiming>, totalWords: nat)
    ensures wordTimings == Flatten(segments)
    ensures totalWords == |wordTimings|
  {
    wordTimings := [];
    totalWords := 0;
    var s := 0;
    while s < |segments|
      invariant 0 <= s <= |segments|
      invariant wordTimings == Flatten(segments[..s])
      invariant totalWords == |wordTimings|
    {
      var segment := segments[s];
      FlattenStep(segments, s);
      if segment.words.Some? {
        var ws := segment.words.value;
        ghost var before := wordTimings;
        var j := 0;
        while j < |ws|
          invariant 0 <= j <= |ws|
          invariant wordTimings == before + Records(ws[..j])
          invariant totalWords == |wordTimings|
        {
          RecordsStep(ws, j, before, wordTimings);
          wordTimings := wordTimings + [Record(ws[j])];
          totalWords := totalWords + 1;
          j := j + 1;
        }
        SliceWhole(ws);
      }
      s := s + 1;
    }
    SliceWhole(segments);
  }

  lemma FlattenStep(segments: seq<Segment>, s: nat)
    requires s < |segments|
    ensures Flatten(segments[..s + 1]) == Flatten(segments[..s]) + SegmentRecords(segments[s])
  {
    PrefixStep(segments, s);
  }

  lemma RecordsStep(ws: seq<RecognizedWord>, j: nat, before: seq<WordTiming>, done: seq<WordTiming>)
    requires j < |ws| && done == before + Records(ws[..j])
    ensures done + [Record(ws[j])] == before + Records(ws[..j + 1])
  {
    PrefixStep(ws, j);
    var p := ws[..j + 1];
    assert Records(p) == Records(ws[..j]) + [Record(ws[j])];
    ConcatAssoc(before, Records(ws[..j]), [Record(ws[j])]);
  }

  /** The timings the function returns for a given cache entry and recognition outcome. */
  function WordTimingsFor(cache: CacheFile, recognition: Recognition): seq<WordTiming>
  {
    if cache.CachedTimings? then cache.timings
    else match recognition
      case Recognized(segments) => Flatten(segments)
      case RecognitionFailed => []
  }

  /**
   * `get_exact_word_timings_from_audio` with its inputs made explicit:
   * returns the timings and what it writes to the cache (nothing when the
   * cache was used or recognition failed). `cacheWritten` is false when
   * opening or dumping the cache file raises; that failure is caught and
   * the timings are returned all the same.
   */
  method GetExactWordTimings(cache: CacheFile, recognition: Recognition, cacheWritten: bool)
    returns (timings: seq<WordTiming>, written: Option<seq<WordTiming>>)
    ensures timings == WordTimingsFor(cache, recognition)
    ensures written == if !cache.CachedTimings? && recognition.Recognized? && cacheWritten then Some(timings) else None
    ensures written.Some? ==> forall later: Recognition :: WordTimingsFor(CachedTimings(written.value), later) == timings
    ensures cache.UnreadableCache? ==> timings == WordTimingsFor(NoCacheFile, recognition)
    ensures !cache.CachedTimings? && recognition.RecognitionFailed? ==> timings == [] && written.None?
  {
    if cache.CachedTimings? {
      return cache.timings, None;
    }
    if recognition.RecognitionFailed? {
      return [], None;
    }
    var total;
    timings, total := ExtractWordTimings(recognition.segments);
    written := if cacheWritten then Some(timings) else None;
  }

  /** Every record carries stripped text. */
  lemma {:induction false} FlattenedWordsStripped(segments: seq<Segment>)
    ensures forall k | 0 <= k < |Flatten(segments)| :: Trimmed(Flatten(segments)[k].word)
    decreases |segments|
  {
    if segments != [] {
      var init := segments[..|segments| - 1];
      FlattenedWordsStripped(init);
      var last := segments[|segments| - 1];
      var tail := SegmentRecords(last);
      forall k | 0 <= k < |Flatten(segments)| ensures Trimmed(Flatten(segments)[k].word) {
        if k >= |Flatten(init)| {
          var j := k - |Flatten(init)|;
          assert Flatten(segments)[k] == tail[j];
          RecordsAt(last.words.value, j);
          RecordText(last.words.value[j]);
        } else {
          assert Flatten(segments)[k] == Flatten(init)[k];
        }
      }
    }
  }
}
