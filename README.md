# Digital Amber publishing scripts, modelled in Dafny

This project models the Python scripts that turn the *Digital Amber* book,
written as markdown files in `story/`, into the artifacts that are published:
- an audiobook, from five alternative text-to-speech builders;
- a narrated video per chapter, with the spoken word highlighted in time;
- the material for one combined YouTube upload;
- two EPUB books, a simple one and a full one with parts;
- two GitHub Pages sites, a plain one and a premium one;
- a print PDF and a Kindle Word document;
- the chapter illustrations, and per-device copies of them;
- a Word-to-markdown converter;
- the release driver, which bumps the version and builds the formats.

Each script is modelled by one module; code that several scripts share is
modelled once.

| module | models |
|---|---|
| `VideoAlignment`, `VideoTiming`, `VideoZoom`, `VideoLayout`, `VideoJob` | `scripts/create_audiobook_video.py` |
| `YouTube` | `scripts/youtube_upload.py` |
| `AudioCommon` | what the five audio builders share |
| `SimpleAudio`, `XttsAudio`, `KokoroAudio`, `KokoroFinalAudio`, `KokoroProperAudio` | `build_audio_simple.py`, `build_audio.py`, `build_audio_kokoro.py`, `build_audio_kokoro_final.py`, `build_audio_kokoro_proper.py` |
| `Books`, `Ebook`, `Markup`, `MarkdownRegex` | the book's fixed shape, the e-book page type, and the markdown conversion the builders share |
| `EpubSimple`, `Epub`, `Pages`, `PagesPremium`, `Pdf`, `Kindle` | the format builders |
| `Art`, `Images`, `Docx`, `Release` | `generate_art.py`, `optimize_images.py`, `docx_to_md_converter.py`, `build_all.py` |
| `Text`, `Paths`, `Seqs`, `Wrappers` | Python `str` and `pathlib` operations, generic sequence facts, `Option` |

Some things the scripts depend on are passed to the model as parameters:
- the contents and existence of files;
- the results of external programs (espeak, sox, ffmpeg, ffprobe, the builder scripts);
- the results of models and libraries (Whisper, the TTS engines, the image model, the markdown and Word libraries).

Times and scale factors are exact reals. Python's `int()` on a non-negative
time is `Floor`.

`identify_speaker_from_context` has the same text in all five audio builders.
It is modelled once, as `AudioCommon.IdentifySpeaker`, and cited from
`scripts/build_audio.py`.

Where the scripts update state step by step, the model is imperative:
- loops that append to lists are methods with loop invariants;
- `version.json` in the release driver is the class `Release.VersionData`;
- the Kindle document is the class `Kindle.KindleDoc`;
- the frame renderer with its counter is `VideoJob.FrameRenderer`.

Each such method is proved against a function that states the result.
The properties the scripts promise are proved about those functions.

## Model

| member | source | states |
|---|---|---|
| VideoAlignment.RecordText | scripts/create_audiobook_video.py:166-171 | a word's record carries the word's text with surrounding whitespace removed, its start and end unchanged, and confidence 1.0 when none is given |
| VideoAlignment.RecordsAt | scripts/create_audiobook_video.py:164-171 | record j of a segment's records is the record of word j |
| VideoAlignment.FlattenLength | scripts/create_audiobook_video.py:162-172 | one record per recognised word, summed over the segments that have a "words" key |
| VideoAlignment.FlattenAppend | scripts/create_audiobook_video.py:162-172 | the records of consecutive runs of segments come out in segment order |
| VideoAlignment.FlattenOne | scripts/create_audiobook_video.py:163-171 | within one segment, records follow the words in order |
| VideoAlignment.SegmentWithoutWords | scripts/create_audiobook_video.py:163 | a segment without a "words" key adds no record |
| VideoAlignment.ExtractWordTimings | scripts/create_audiobook_video.py:159-172 | the loop returns the flattened records of all segments and a word count equal to their number |
| VideoAlignment.GetExactWordTimings | scripts/create_audiobook_video.py:114-190 | a readable cache entry is returned as is and nothing is written; an unreadable one behaves as a missing one; otherwise a successful recognition returns the flattened records and writes them to the cache unless that write raises, in which case the records are still returned; a cache entry so written is what any later run returns, whatever recognition would give; a failed recognition returns no timings and writes nothing |
| VideoAlignment.FlattenedWordsStripped | scripts/create_audiobook_video.py:167 | every record's text has no leading or trailing whitespace |
| VideoTiming.VideoDuration | scripts/create_audiobook_video.py:784-786 | the video is the audio plus the lead-in and the lead-out |
| VideoTiming.AudioTime | scripts/create_audiobook_video.py:602 | audio time is video time shifted back by the lead-in |
| VideoTiming.AudioWindow | scripts/create_audiobook_video.py:602-615 | the highlighting looks for a word exactly during the video interval from the lead-in to lead-in plus audio duration (where it assumes the narration plays) |
| VideoTiming.NarrationPosition | scripts/create_audiobook_video.py:807-823 | a clip started at a given video time is heard at the video time minus that start |
| VideoTiming.IntendedClipStart | scripts/create_audiobook_video.py:784-813 | the narration is meant to start after the lead-in |
| VideoTiming.HighlightLagsNarration | scripts/create_audiobook_video.py:602-823 | as attached, the heard narration runs lead-in seconds ahead of the highlighted audio time |
| VideoTiming.LagAtConfiguredLeadIn | scripts/create_audiobook_video.py:602-823 | with the one-second lead-in, the first word is highlighted one second into the heard narration, and the narration ends while words are still highlighted |
| VideoTiming.DelayedNarrationMatches | scripts/create_audiobook_video.py:602-823 | a clip started at the lead-in is heard at exactly the highlighted audio time, so only in the highlight window |
| VideoTiming.FirstCoveringFrom | scripts/create_audiobook_video.py:616-620 | the index found covers the time and no earlier index from the start point does; none found means nothing covers it |
| VideoTiming.FirstCovering | scripts/create_audiobook_video.py:616-620 | the first record in list order whose start and end enclose the time, or none when no record does |
| VideoTiming.LastEnded | scripts/create_audiobook_video.py:623-627 | the last record in list order that has ended by the time, or none when every record ends later |
| VideoTiming.MaxEndedBy | scripts/create_audiobook_video.py:645 | the largest end time not after the time, at least every such end, and 0 when there is none |
| VideoTiming.NoWordOutsideAudio | scripts/create_audiobook_video.py:615-627 | outside the audio window no word is chosen |
| VideoTiming.NoWordWithoutTimings | scripts/create_audiobook_video.py:615-627 | with no timings no word is ever shown |
| VideoTiming.ShowsFirstCovering | scripts/create_audiobook_video.py:616-620 | when the first covering record has non-empty stripped text, that text is the word shown |
| VideoTiming.ShowsLastEndedInSilence | scripts/create_audiobook_video.py:622-627 | when no record covers the time, the last record already ended supplies the word |
| VideoTiming.NoWordBeforeFirstEnd | scripts/create_audiobook_video.py:622-627 | in a silence before any record has ended, no word is shown |
| VideoTiming.SilenceFade | scripts/create_audiobook_video.py:646-649 | the fade is 1 for silences up to two seconds, never below 0.3, and 0.3 after a long silence |
| VideoTiming.SilenceFadeMonotone | scripts/create_audiobook_video.py:646-649 | a longer silence never gives a brighter word |
| VideoTiming.FadeInAudio | scripts/create_audiobook_video.py:640-652 | in the audio window the fade lies between 0.3 and 1, and is 1 while some record covers the time |
| VideoTiming.SilenceNonNegative | scripts/create_audiobook_video.py:645-646 | the measured silence is never negative |
| VideoTiming.ScaleChannel | scripts/create_audiobook_video.py:689-690 | a faded channel is non-negative and at most the unfaded channel |
| VideoTiming.DrawFullStrength | scripts/create_audiobook_video.py:665-690 | at fade 1 the colours and the 180 box alpha are the unfaded ones |
| VideoTiming.OverlayOnlyInAudio | scripts/create_audiobook_video.py:629-652 | a word is drawn only inside the audio window, so the 0.2 dimming is never used; the box alpha stays in 54..180 and no channel exceeds its unfaded value |
| VideoTiming.AmberIffSpeaking | scripts/create_audiobook_video.py:675-686 | a drawn word is amber exactly when a record with the same stripped text covers the audio time |
| VideoTiming.AmberNotWhite | scripts/create_audiobook_video.py:675-690 | the amber and white colours differ at every fade of the audio window |
| VideoTiming.WhiteInSilence | scripts/create_audiobook_video.py:675-686 | when no record covers the time, a drawn word is white |
| VideoTiming.SpokenWordFullAmber | scripts/create_audiobook_video.py:615-690 | while a word with non-empty text is the first to cover the time, it is drawn at full strength in amber on a 180-alpha box |
| VideoTiming.SpokenState | scripts/create_audiobook_video.py:615-676 | a spoken word with non-empty text is the current word, at fade 1, and counts as speaking |
| VideoTiming.WordOrigin | scripts/create_audiobook_video.py:636-637 | the word is centred by floor division, and lifted 100 pixels |
| VideoZoom.ZoomStrictlyDecreasing | scripts/create_audiobook_video.py:559-561 | the zoom falls strictly as the step grows |
| VideoZoom.ZoomEnds | scripts/create_audiobook_video.py:557-561 | the zoom is 1.3 at step 0, exactly 1.0 at step 99, and above 1 exactly before step 99 |
| VideoZoom.Enlarged | scripts/create_audiobook_video.py:450-451 | the enlarged side is at least the original side |
| VideoZoom.CropSide | scripts/create_audiobook_video.py:564-565 | at a zoom above 1 the crop side is at most the side |
| VideoZoom.BuildZoomCache | scripts/create_audiobook_video.py:556-573 | the table has exactly the keys 0..99, each holding the crop or final image of its step |
| VideoZoom.EntryKinds | scripts/create_audiobook_video.py:563-573 | steps 0..98 are crops and step 99 is the final image |
| VideoZoom.CropInsideAndCentred | scripts/create_audiobook_video.py:563-570 | every crop lies inside the enlarged image and is centred in it to within one pixel |
| VideoZoom.CropGrows | scripts/create_audiobook_video.py:559-565 | crop sides never shrink from one step to the next |
| VideoZoom.RenderIndexRange | scripts/create_audiobook_video.py:583-585 | for non-negative times the index stays in 0..98, so the final image is never shown |
| VideoZoom.RenderIndexMonotone | scripts/create_audiobook_video.py:583-584 | a later frame never uses an earlier zoom step |
| VideoLayout.Windows | scripts/create_audiobook_video.py:514-534 | a fresh layout has one window per timing |
| VideoLayout.BuildWordGroups | scripts/create_audiobook_video.py:497-534 | the loop appends one window per timing to the cached layout on a key match, or to an empty list otherwise; so without a cache there is one group per timing, and a cached layout of the same timings comes back twice over, 2n groups for n timings |
| VideoLayout.WindowShape | scripts/create_audiobook_video.py:516-533 | window i holds one to five consecutive timings around timing i; its active index is min(i, 2) and points at timing i, whose start and end it carries |
| VideoLayout.FreshLayoutOnePerTiming | scripts/create_audiobook_video.py:508-534 | without a cached layout there is exactly one group per timing |
| VideoLayout.BuildWordGroupsOnce | scripts/create_audiobook_video.py:497-534 | a cached layout is used as it is; otherwise one is computed; a layout cached from the same timings gives exactly the fresh layout, one group per timing |
| VideoLayout.PlainTextUnchanged | scripts/create_audiobook_video.py:718-722 | text with no markup character passes the four substitutions unchanged |
| VideoLayout.HeadingMarkupRemoved | scripts/create_audiobook_video.py:719 | a heading line loses its leading hashes and the spaces after them |
| VideoLayout.BoldMarkupRemoved | scripts/create_audiobook_video.py:720 | a bold span loses its asterisks |
| VideoLayout.GreedyEnd | scripts/create_audiobook_video.py:733-742 | a line is one word or fits in 80 characters, and the next word, if any, would not fit |
| VideoLayout.WrapParagraph | scripts/create_audiobook_video.py:731-744 | the wrap loop yields the greedy lines of the paragraph's words |
| VideoLayout.WrapWords | scripts/create_audiobook_video.py:733-741 | after the loop over all words, the emitted lines and the open line are those of the fold `WrapAfter`, one turn per word |
| VideoLayout.WrapWord | scripts/create_audiobook_video.py:735-741 | the word joins the current line when the joined line fits in 80 characters; otherwise the current line, if any, is closed and the word starts the next one; so a line over 80 characters is always a single word |
| VideoLayout.WrapAfterState | scripts/create_audiobook_video.py:733-741 | every turn keeps the wrap state: after any number of words the emitted lines followed by the greedy wrap from the open line's first word make the whole wrap, and the open line holds exactly the words since that first word |
| VideoLayout.WrapLinesFit | scripts/create_audiobook_video.py:735-740 | every line fits in 80 characters or is a single word that alone is longer |
| VideoLayout.WrapRejoins | scripts/create_audiobook_video.py:733-744 | the lines joined with single spaces equal the words joined with single spaces |
| VideoLayout.WrapKeepsWords | scripts/create_audiobook_video.py:731-744 | splitting the lines back into words gives the paragraph's words in order |
| VideoLayout.WrapLinesNonEmpty | scripts/create_audiobook_video.py:737-744 | no wrapped line is empty |
| VideoLayout.WrapGreedy | scripts/create_audiobook_video.py:735-738 | the first word of each next line would not have fitted on the line before it |
| VideoLayout.SecondLineStart | scripts/create_audiobook_video.py:735-739 | the second line starts with the first word left off the first line |
| VideoLayout.FirstLineOverflow | scripts/create_audiobook_video.py:735-736 | adding the first left-over word to the first line would exceed 80 characters |
| VideoLayout.BlockShape | scripts/create_audiobook_video.py:728-745 | a non-blank paragraph gives non-empty lines followed by exactly one empty line, and those lines hold the paragraph's words |
| VideoLayout.CleanTextForVideo | scripts/create_audiobook_video.py:716-746 | markdown removed, the text split on blank lines, each paragraph wrapped and followed by an empty line, all joined with newlines |
| VideoLayout.FormatParagraphs | scripts/create_audiobook_video.py:727-745 | the paragraph loop yields the blocks of all paragraphs in order |
| VideoLayout.FormatParagraph | scripts/create_audiobook_video.py:728-745 | a blank paragraph adds nothing; any other adds its wrapped lines and an empty line |
| VideoLayout.LayoutStep | scripts/create_audiobook_video.py:727-745 | each paragraph appends its own block after those of the paragraphs before it |
| VideoJob.ArtFile | scripts/create_audiobook_video.py:764-774 | foreword and epilogue have their own art; chapter_N uses chapter_N.png when it exists; anything else uses chapter_1.png |
| VideoJob.ChapterStemPieces | scripts/create_audiobook_video.py:771-772 | a stem starting "chapter_" splits on "_" into "chapter" and the pieces of what follows |
| VideoJob.ChapterArt | scripts/create_audiobook_video.py:771-774 | chapter n uses chapter_n.png if it exists and chapter_1.png otherwise |
| VideoJob.NamedArt | scripts/create_audiobook_video.py:767-770 | the foreword and the epilogue always use their own art |
| VideoJob.ChapterVideoFor | scripts/create_audiobook_video.py:748-851 | the output is named after the stem; it is skipped exactly when it already exists, and otherwise rendered with the art ArtFile chooses |
| VideoJob.Outcome | scripts/create_audiobook_video.py:853-930 | a missing audio directory makes nothing; the run aborts exactly when a wanted foreword or epilogue render raises (those calls have no try); a completed run lists every video |
| VideoJob.AbortedRuns | scripts/create_audiobook_video.py:874-919 | a failing foreword leaves no video; a failing epilogue leaves exactly the full list minus the epilogue |
| VideoJob.CreateAudiobookVideos | scripts/create_audiobook_video.py:853-930 | returns at once without the audio directory (868-870), aborts on a foreword failure (876) or an epilogue failure (917), and otherwise collects foreword, chapters 1..24 and epilogue in that order, a chapter when its files exist and its caught render did not fail |
| VideoJob.CollectChapterVideos | scripts/create_audiobook_video.py:885-907 | the chapter loop appends, in ascending order, exactly the chapters 1..24 that can be made |
| VideoJob.FinishRun | scripts/create_audiobook_video.py:909-919 | after the chapters, a failing wanted epilogue aborts with the videos so far, otherwise the epilogue closes the list |
| VideoJob.AddChapterVideo | scripts/create_audiobook_video.py:890-907 | chapter i is appended exactly when its files exist and making it did not fail |
| VideoJob.AddEpilogueVideo | scripts/create_audiobook_video.py:909-919 | the epilogue's video closes the list when its files exist |
| VideoJob.VideosStep | scripts/create_audiobook_video.py:890-907 | one round of the chapter loop extends the list by chapter i exactly when it can be made |
| VideoJob.ChapterListedIff | scripts/create_audiobook_video.py:885-907 | a chapter has a video exactly when it is in 1..24, its files exist and rendering did not fail |
| VideoJob.FrameRenderer.MakeFrame | scripts/create_audiobook_video.py:575-699 | the frame counter goes up by one and the frame is the zoom step and overlay for that time |
| VideoJob.FrameShape | scripts/create_audiobook_video.py:575-699 | every frame shows a cropped zoom step, and no word during the lead-in or the lead-out |
| YouTube.Trunc | scripts/youtube_upload.py:28 | int() of a non-negative duration is its floor |
| YouTube.DaySeconds | scripts/youtube_upload.py:28-31 | the seconds a timedelta keeps are below one day |
| YouTube.ClockFields | scripts/youtube_upload.py:29-31 | seconds within a day split into hours below 24 and minutes and seconds below 60 that add back up to them |
| YouTube.ClockSplit | scripts/youtube_upload.py:33-36 | splitting a clock reading on ":" gives back its digit fields |
| YouTube.ClockRoundTrip | scripts/youtube_upload.py:33-36 | a clock reading parses back to 3600 h + 60 m + s |
| YouTube.PartsValue | scripts/youtube_upload.py:33-36 | the two or three fields of a reading denote its seconds |
| YouTube.FormatShape | scripts/youtube_upload.py:33-36 | under an hour the timestamp has two fields (M:SS), from one hour on three (H:MM:SS) |
| YouTube.SecondsRoundTrip | scripts/youtube_upload.py:29-36 | the timestamp of s seconds within a day parses back to s |
| YouTube.FormatRoundTrip | scripts/youtube_upload.py:26-36 | format_timestamp's result parses back to the whole seconds within the day |
| YouTube.WholeSecondsRoundTrip | scripts/youtube_upload.py:26-36 | for whole seconds within a day the timestamp parses back to those seconds |
| YouTube.FormatTruncates | scripts/youtube_upload.py:28 | fractions of a second are dropped, not rounded |
| YouTube.FormatDropsDays | scripts/youtube_upload.py:28-31 | whole days are dropped: a timestamp one day later reads the same |
| YouTube.FormatZero | scripts/youtube_upload.py:33-36 | zero seconds is written "0:00" |
| YouTube.FourHashesNeverTitle | scripts/youtube_upload.py:58 | a line starting with four hashes is never taken as the title |
| YouTube.FirstTitleLine | scripts/youtube_upload.py:57-60 | the first line starting with "# ", "## " or "### ", and none when no line does |
| YouTube.HeaderTitleClean | scripts/youtube_upload.py:59 | a title taken from a header has no whitespace at its ends and is no longer than its line |
| YouTube.FirstTitleLineIs | scripts/youtube_upload.py:57-60 | the first qualifying line is the one found |
| YouTube.NoTitleLine | scripts/youtube_upload.py:56-60 | without a qualifying line none is found, so the title stays "Chapter i" |
| YouTube.FindHeaderTitle | scripts/youtube_upload.py:55-60 | the loop returns the first header stripped of marks and whitespace, or "Chapter i" |
| YouTube.GetChapterTitles | scripts/youtube_upload.py:38-71 | exactly the parts whose markdown exists get a title: the fixed foreword and epilogue titles, "Chapter i - <header>" for a readable chapter and "Chapter i" for an unreadable one |
| YouTube.ChapterTitle | scripts/youtube_upload.py:52-64 | the title recorded for chapter i, with the unreadable-file fallback |
| YouTube.TitledChapter | scripts/youtube_upload.py:49-64 | a chapter whose markdown exists is added to the walked parts and its title to the map |
| YouTube.UntitledChapter | scripts/youtube_upload.py:49-51 | a chapter without markdown adds nothing |
| YouTube.TitlesAdd | scripts/youtube_upload.py:61-64 | recording one more part extends the title map by that part's title only |
| YouTube.FindVideoFiles | scripts/youtube_upload.py:82-100 | foreword, the chapters 1..24 whose video exists in ascending order, then epilogue, each when its video exists |
| YouTube.AddEpilogueVideo | scripts/youtube_upload.py:97-100 | the epilogue closes the list when its video exists |
| YouTube.AddChapterVideo | scripts/youtube_upload.py:92-95 | chapter i is added exactly when its video exists |
| YouTube.Timeline | scripts/youtube_upload.py:114-118 | one chapter line per video |
| YouTube.TimelineEntry | scripts/youtube_upload.py:114-125 | line k is the line for the first k+1 videos |
| YouTube.TimelineAt | scripts/youtube_upload.py:114-125 | line k is the timestamp of the sum of the durations of the videos before k, then video k's title |
| YouTube.FirstStampAtZero | scripts/youtube_upload.py:111-118 | the first chapter starts at "0:00" |
| YouTube.FailedProbeAddsNothing | scripts/youtube_upload.py:22-24 | a video whose duration cannot be read adds 0, so the next chapter starts at the same time |
| YouTube.ElapsedMonotone | scripts/youtube_upload.py:123-125 | with non-negative durations chapter starts never decrease |
| YouTube.ChapterTimestamps | scripts/youtube_upload.py:110-126 | the loop produces the timeline and the total of all durations |
| YouTube.AddChapter | scripts/youtube_upload.py:114-126 | one round appends the next chapter line and adds its duration to the total |
| YouTube.TimelineStep | scripts/youtube_upload.py:114-126 | the appended line and the new total are those of one more video |
| YouTube.CreateCombinedVideo | scripts/youtube_upload.py:73-181 | without videos nothing is done; when concatenation fails no description is written; otherwise the description lists every chapter with its start, the total duration and the number of chapters |
| YouTube.KeyTitleOfChapter | scripts/youtube_upload.py:116 | a chapter without a recorded title is listed as "Chapter N" |
| AudioCommon.CastComplete | scripts/build_audio.py:14-115 | every speaker the rules can return has its entry in the voice table, and the eight entries have pairwise different keys, so the voice count of the metadata is the number of speakers |
| AudioCommon.SpeakerIsFirstNamed | scripts/build_audio.py:214-236 | the speaker is the one whose clue comes first in the if-chain among those present, and the narrator exactly when no clue is present |
| AudioCommon.MartinezFirst | scripts/build_audio.py:221-222 | naming Sarah Martinez wins over every other clue, "sarah kim" included |
| AudioCommon.QuotedSpeakers | scripts/build_audio.py:223-228 | David Chen and ARTEMIS are chosen only for a paragraph containing a double quote |
| AudioCommon.SpeakerIgnoresCase | scripts/build_audio.py:218 | paragraphs equal up to letter case get the same speaker |
| AudioCommon.CueEmotion | scripts/build_audio_simple.py:63-80 | a keyword group's label is never neutral |
| AudioCommon.KeywordEmotionNeutral | scripts/build_audio_simple.py:63-80 | the result is neutral exactly when no group of the if-chain matches, and otherwise the label of a matching group |
| AudioCommon.KeywordEmotionAt | scripts/build_audio_simple.py:67-78 | the first group that matches decides the label |
| AudioCommon.KeywordEmotionCons | scripts/build_audio_simple.py:67-80 | a group tried first decides when it matches; otherwise the rest of the chain decides |
| AudioCommon.KeywordEmotionThree | scripts/build_audio_simple.py:67-72 | three groups tried in turn in front of the rest of the chain |
| AudioCommon.KeywordEmotionTriple | scripts/build_audio_simple.py:67-80 | a chain of three groups, neutral when none matches |
| AudioCommon.KeywordEmotionSix | scripts/build_audio_simple.py:67-80 | a chain of six groups written out as the builders' if-chains, neutral when none matches |
| AudioCommon.ExclamationExcites | scripts/build_audio.py:170 | any "!" hits the excitement group |
| AudioCommon.ParagraphsClean | scripts/build_audio.py:196-201 | exactly one paragraph per non-blank piece, each stripped and non-empty |
| AudioCommon.ParagraphsAppend | scripts/build_audio.py:198-210 | paragraphs keep their order across runs of pieces |
| AudioCommon.ParagraphsStep | scripts/build_audio.py:198-201 | one more piece adds its stripped text exactly when that is non-empty |
| AudioCommon.ClassifiedAt | scripts/build_audio.py:203-210 | segment k is the classification of paragraph k |
| AudioCommon.Segmentation | scripts/build_audio.py:187-212 | the loop splits on blank lines, strips, skips blank paragraphs and classifies the others in order |
| AudioCommon.SegmentationStep | scripts/build_audio.py:198-210 | one more piece adds one classified segment exactly when it is not blank |
| AudioCommon.SegmentsFollowParagraphs | scripts/build_audio.py:187-212 | one segment per non-blank paragraph, in order, each made from that paragraph's stripped, non-empty text |
| AudioCommon.SpeechHeadingEnd | scripts/build_audio.py:313 | a match of the heading pattern ends after at least three characters and inside the text |
| AudioCommon.SecondLevelHeading | scripts/build_audio.py:313 | a "## " heading loses its marks and the spaces after them |
| AudioCommon.FirstLevelHeadingKept | scripts/build_audio.py:313 | a "# " heading does not match the pattern: its first "#" is kept |
| AudioCommon.FourHashesKept | scripts/build_audio.py:313 | a "#### " heading does not match at its start either: its first "#" is kept |
| AudioCommon.SpeechHeadingsAbsent | scripts/build_audio.py:313 | text without "#" is untouched by the heading substitution |
| AudioCommon.PlainTextUnchanged | scripts/build_audio.py:312-315 | text with neither "#" nor "*" is spoken as written |
| AudioCommon.BoldUnwrapped | scripts/build_audio.py:314 | a one-line bold span loses its markers |
| AudioCommon.MarksDropped | scripts/build_audio_kokoro_final.py:46 | the kept characters are exactly the input's characters other than "#" and "*" |
| AudioCommon.CleanIsMarksDropped | scripts/build_audio_kokoro_final.py:46 | the two chained replacements drop exactly the "#" and "*" characters and keep the rest in order |
| AudioCommon.CleanForSpeech | scripts/build_audio_kokoro_final.py:46 | the text the engines get is the input with every "#" and "*" removed and everything else kept in order |
| AudioCommon.ReplaceKeeps | scripts/build_audio_kokoro_final.py:46 | removing one character never brings in another |
| AudioCommon.SegmentFileNumber | scripts/build_audio.py:330 | the first three characters of a segment's file name are its 1-based number |
| AudioCommon.SegmentFilesDistinct | scripts/build_audio.py:326-333 | different segments of a chapter never share a file name |
| AudioCommon.SpokenFiles | scripts/build_audio.py:326-333 | at most one file per segment |
| AudioCommon.CollectSpokenFiles | scripts/build_audio.py:326-333 | the loop keeps the file of each non-blank segment whose engine call succeeded, in order |
| AudioCommon.SpokenFilesStep | scripts/build_audio.py:326-333 | one more segment adds its file exactly when its text is not blank and its engine call succeeded |
| AudioCommon.AllSpoken | scripts/build_audio.py:326-333 | when every segment is non-blank and spoken there is one file per segment |
| AudioCommon.SegmentTextNotBlank | scripts/build_audio.py:327-328 | a segment made from a stripped non-empty paragraph is never skipped as blank |
| AudioCommon.ProcessChapterAudio | scripts/build_audio.py:304-335 | markdown removed, segments classified from the paragraphs, one file per successfully spoken segment; when every call succeeds, one file per paragraph |
| AudioCommon.EveryParagraphSpoken | scripts/build_audio.py:304-335 | when every engine call succeeds, every paragraph of the text yields a file |
| AudioCommon.EverySegmentSpoken | scripts/build_audio.py:304-335 | with every call succeeding, the number of files equals the number of paragraphs |
| AudioCommon.CombineAudioFiles | scripts/build_audio.py:337-371 | an empty list is refused before anything is written; success needs ffmpeg to succeed |
| AudioCommon.CombinedFiles | scripts/build_audio.py:474-495 | one combined file per part |
| AudioCommon.FullAudiobook | scripts/build_audio.py:469-495 | the full builders walk foreword, chapters 1..24 and epilogue like every other builder of the book |
| AudioCommon.CollectChapterFiles | scripts/build_audio.py:466-495 | the combined file of each part that produced segment files, in book order, whether or not combining it succeeded |
| AudioCommon.ChapterFilesStart | scripts/build_audio.py:469-476 | after the foreword the list holds its file exactly when it produced segments |
| AudioCommon.ChapterFilesEnd | scripts/build_audio.py:488-495 | the epilogue's file closes the list exactly when it produced segments |
| AudioCommon.CombinedFilesSnoc | scripts/build_audio.py:474-476 | appending a part appends its combined file |
| AudioCommon.ChapterFilesStep | scripts/build_audio.py:479-486 | chapter i adds its combined file exactly when it produced segment files |
| AudioCommon.AudiobookScope | scripts/build_audio_kokoro.py:265-272 | a build up to chapter last without an epilogue holds only the foreword and chapters 1..last |
| SimpleAudio.EmotionLabels | scripts/build_audio_simple.py:63-80 | the detector returns one of seven labels, neutral exactly when no keyword group matches, and ignores the speaker |
| SimpleAudio.ExclamationIsExcited | scripts/build_audio_simple.py:67-68 | an exclamation mark anywhere makes the paragraph excited |
| SimpleAudio.DetectEmotionChain | scripts/build_audio_simple.py:63-80 | the detector is the source's if-chain, group by group |
| SimpleAudio.HopeBeforeSadness | scripts/build_audio_simple.py:75-78 | a text hitting the hope group and no earlier group is hopeful, even if it also hits sadness |
| SimpleAudio.SpeedBounds | scripts/build_audio_simple.py:127-135 | for every voice and emotion espeak gets a rate between 120 and 200 |
| SimpleAudio.SpeedDirection | scripts/build_audio_simple.py:128-135 | defeated slows to no less than 120, contemplative to no less than 130, excited speeds up to no more than 200, others keep the base rate |
| SimpleAudio.EspeakCommandFacts | scripts/build_audio_simple.py:140-152 | no command exactly for blank cleaned text; otherwise the command has the voice, a rate reading back as the adjusted speed, the output file and markup-free non-blank text |
| SimpleAudio.TextToSpeechEspeak | scripts/build_audio_simple.py:123-165 | success needs non-blank cleaned text and espeak to succeed |
| SimpleAudio.DetectDialogueAndSpeaker | scripts/build_audio_simple.py:82-100 | one segment per non-blank paragraph with its stripped text; a paragraph without a quote goes to the narrator |
| SimpleAudio.ChapterFiles | scripts/build_audio_simple.py:215-230 | at most one file per segment |
| SimpleAudio.ProcessSegments | scripts/build_audio_simple.py:215-230 | the loop keeps, per spoken segment, the enhanced file when enhancement succeeds and the raw file otherwise |
| SimpleAudio.ChapterFilesStep | scripts/build_audio_simple.py:215-230 | one more segment appends exactly its own output |
| SimpleAudio.AllEnhanced | scripts/build_audio_simple.py:215-230 | when espeak and enhancement succeed for every segment, each segment yields exactly its enhanced file |
| SimpleAudio.BlankStaysBlank | scripts/build_audio_simple.py:141-145 | removing markup from blank text leaves it blank |
| SimpleAudio.BuildAudiobookSimple | scripts/build_audio_simple.py:263-369 | nothing without espeak-ng and ffmpeg; otherwise the combined file of every part with segment files, then the complete audiobook and metadata (enhancement named, chapter and voice counts) when there is at least one |
| XttsAudio.TablesNonEmpty | scripts/build_audio.py:14-115 | every speaker's emotion table has at least three entries, so the default is defined |
| XttsAudio.EmotionsSupported | scripts/build_audio.py:511 | the emotion tables hold 35 entries in all |
| XttsAudio.DetectEmotionAt | scripts/build_audio.py:169-181 | the first group hit gives its preferred label when the speaker's table has it, and its fallback otherwise |
| XttsAudio.DetectEmotionDefault | scripts/build_audio.py:183-185 | a text hitting no group gets the first entry of the speaker's table |
| XttsAudio.DetectedLabel | scripts/build_audio.py:163-185 | a returned label is in the speaker's table or is one of the five fallbacks; a preferred label is returned only when the table has it |
| XttsAudio.VoicedLabel | scripts/build_audio.py:171-181 | a group's label is in the speaker's table or is the group's fallback |
| XttsAudio.NarrationDefault | scripts/build_audio.py:183-185 | narration without any keyword is neutral |
| XttsAudio.FallbackOutsideTable | scripts/build_audio.py:170-171 | an exclamation from Jennifer Wu is tagged neutral, which her table lacks |
| XttsAudio.DetectDialogueAndSpeaker | scripts/build_audio.py:187-212 | one segment per non-blank paragraph; quoted paragraphs get the identified speaker, others the narrator; each emotion comes from its speaker's table |
| XttsAudio.ProcessChapter | scripts/build_audio.py:304-335 | the segment files of the cleaned chapter, one per segment whose XTTS call succeeded; all succeeding gives one per paragraph |
| XttsAudio.TextToSpeechXtts | scripts/build_audio.py:238-302 | success needs synthesis to succeed; an XTTS model with neither a sample nor a temporary one fails |
| XttsAudio.TemporarySampleName | scripts/build_audio.py:266-267 | the temporary sample lies in voices/, starts with "temp_" and never replaces a real sample |
| XttsAudio.BuildAudiobook | scripts/build_audio.py:426-524 | stops without a GPU (unless confirmed), ffmpeg or a model; without voice samples writes the voices README and stops; otherwise collects the combined file of each part with segment files, and metadata (8 voices, 35 emotions) when there is one |
| KokoroAudio.SetupKokoroTts | scripts/build_audio_kokoro.py:14-54 | the pipeline is used when it loads, the direct load only when it does not, and none when both fail |
| KokoroAudio.FallbackVoiceAgrees | scripts/build_audio_kokoro.py:70-81 | the espeak stand-in gives each character the voice the espeak builder gives it, and no two characters share one |
| KokoroAudio.FallbackSpeedOfDetected | scripts/build_audio_kokoro.py:82-87 | for detected emotions the rate is 130 exactly for defeated, 170 exactly for excited or frustrated, and always 130..170 |
| KokoroAudio.BlankTextStillSpoken | scripts/build_audio_kokoro.py:89-91 | where the espeak builder refuses blank text, the stand-in still passes it to espeak |
| KokoroAudio.TextToSpeechKokoro | scripts/build_audio_kokoro.py:56-115 | with the tuple, success is espeak's success; with the pipeline, it is whether the result has audio |
| KokoroAudio.DetectEmotionChain | scripts/build_audio_kokoro.py:117-132 | the detector is the source's five-group if-chain |
| KokoroAudio.NeverHopeful | scripts/build_audio_kokoro.py:117-132 | six labels are possible, hopeful is not one, and neutral means no group other than hope matched |
| KokoroAudio.HopeIgnored | scripts/build_audio_kokoro.py:117-132 | it differs from the espeak builder exactly on texts hitting hope and none of the four groups before it, where it says defeated or neutral instead of hopeful |
| KokoroAudio.DetectDialogueAndSpeaker | scripts/build_audio_kokoro.py:134-148 | one segment per non-blank paragraph, its speaker from the name rule, and never hopeful |
| KokoroAudio.ProcessChapter | scripts/build_audio_kokoro.py:171-199 | the segment files of the cleaned chapter, one per segment whose engine call succeeded |
| KokoroAudio.BuildAudiobookKokoro | scripts/build_audio_kokoro.py:230-283 | stops without ffmpeg or a model; otherwise walks the foreword and chapters 1..3 only, at most four files, and names a partial audiobook when there is one |
| KokoroAudio.TestRunSize | scripts/build_audio_kokoro.py:255-272 | a test run holds at most the foreword and chapters 1..3 |
| KokoroFinalAudio.NoAdamVoice | scripts/build_audio_kokoro_final.py:14-23 | no character gets an "adam" voice |
| KokoroFinalAudio.VoiceLetters | scripts/build_audio_kokoro_final.py:14-23 | no voice name contains the letter d |
| KokoroFinalAudio.SpeedRange | scripts/build_audio_kokoro_final.py:54-61 | speeds stay in 0.8..1.2 and only defeated, excited and contemplative differ from 1.0 |
| KokoroFinalAudio.DetectEmotionChain | scripts/build_audio_kokoro_final.py:90-107 | the detector is the source's if-chain, sadness before hope |
| KokoroFinalAudio.SadnessBeforeHope | scripts/build_audio_kokoro_final.py:102-105 | it differs from the espeak builder exactly on texts hitting both hope and sadness and no earlier group, where it says defeated instead of hopeful |
| KokoroFinalAudio.DetectDialogueAndSpeaker | scripts/build_audio_kokoro_final.py:109-123 | one segment per non-blank paragraph, its speaker from the name rule even without a quote |
| KokoroFinalAudio.ProcessChapter | scripts/build_audio_kokoro_final.py:146-174 | the segment files of the cleaned chapter, one per segment whose pipeline call succeeded |
| KokoroFinalAudio.KokoroRequestFacts | scripts/build_audio_kokoro_final.py:45-61 | refused exactly for blank cleaned text; otherwise the text is trimmed, markup-free and non-empty, in the speaker's voice, at a speed in 0.8..1.2 |
| KokoroFinalAudio.ConcatLength | scripts/build_audio_kokoro_final.py:74-76 | the joined audio is as long as the chunks together and ends with the last chunk |
| KokoroFinalAudio.TextToSpeechKokoro | scripts/build_audio_kokoro_final.py:40-88 | succeeds exactly when the request is accepted, the pipeline yields chunks and neither the pipeline, the joining nor the write raises; then the joined chunks are written at 24000 Hz, otherwise nothing is written |
| KokoroFinalAudio.BuildAudiobookKokoro | scripts/build_audio_kokoro_final.py:203-291 | nothing without a pipeline; otherwise the output directory is cleared, every part with segment files is combined, and the complete audiobook and metadata follow when there is one |
| KokoroProperAudio.SetupKokoro | scripts/build_audio_kokoro_proper.py:14-56 | the kokoro_tts package is used when it loads, the HuggingFace load only otherwise, and none when both fail |
| KokoroProperAudio.SameCleaningAsFinal | scripts/build_audio_kokoro_proper.py:63-67 | the request is refused exactly when the pipeline builder's is, i.e. for blank cleaned text, and otherwise carries the same cleaned text |
| KokoroProperAudio.PlaceholderLength | scripts/build_audio_kokoro_proper.py:91-93 | the placeholder has three seconds of samples |
| KokoroProperAudio.Placeholder | scripts/build_audio_kokoro_proper.py:91-96 | the placeholder is three seconds of zeros at the builder's sample rate |
| KokoroProperAudio.TextToSpeechKokoro | scripts/build_audio_kokoro_proper.py:58-107 | blank text writes nothing; a synthesizer writes its audio at 22050 Hz unless synthesis or the write raises; the tuple writes the placeholder unless generation or the write raises; a kokoro_tts object without synthesize writes nothing; the call succeeds exactly when a file is written |
| KokoroProperAudio.ProcessChapter | scripts/build_audio_kokoro_proper.py:163-191 | the segment files of the cleaned chapter, one per segment whose engine call succeeded |
| KokoroProperAudio.BuildAudiobookKokoro | scripts/build_audio_kokoro_proper.py:220-272 | nothing without a model; otherwise the output directory is cleared, the foreword and chapters 1..3 are walked, at most four files, and a test audiobook is named when there is one |
| Books.Present | scripts/build_pages.py:28-30 | the chapter numbers in the range that are present, each once, in ascending order |
| Books.PresentSplit | scripts/build_pages.py:28-30 | the present numbers of consecutive ranges concatenate |
| Books.PresentAll | scripts/build_pages.py:28-30 | when every chapter is present the whole range comes out in order |
| Books.ChapterRangeStep | scripts/build_audio.py:479-486 | extending the chapter range by one number appends it exactly when it is present |
| Books.ChapterRangeStepFrom | scripts/build_pdf.py:339-341 | the same step for a range starting at any chapter |
| Books.ChapterStemInjective | scripts/youtube_upload.py:61-64 | distinct chapter numbers give distinct "chapter_N" stems |
| Books.PartStemInjective | scripts/youtube_upload.py:40-71 | distinct parts have distinct stems, so a table keyed by part is one keyed by stem |
| Books.ChapterStemTitle | scripts/youtube_upload.py:116 | the fallback title of the stem chapter_N, underscores to spaces and title-cased, is "Chapter N" |
| Books.TitleChapterWord | scripts/build_pages.py:330 | title-casing "chapter " followed by digits capitalises only the first letter |
| Books.PartsOrdered | scripts/build_audio.py:469-495 | in foreword, ascending chapters, epilogue, no foreword follows and no epilogue precedes anything, and chapters keep their order |
| Books.Chapters | scripts/build_audio.py:479-486 | one chapter part per number, in the same order |
| Books.ChaptersMember | scripts/build_audio.py:479-486 | chapter i is among the parts exactly when i is among the numbers |
| Books.BookPartsStep | scripts/build_audio.py:479-486 | one round of a chapter loop appends chapter i exactly when it is present |
| Books.BookPartsEnd | scripts/build_audio.py:488-495 | after the chapter loop only the epilogue is left to add |
| Books.BookPartsMember | scripts/build_audio.py:469-495 | a part is walked exactly when it is wanted: the foreword and epilogue when present, a chapter when in 1..24 and present |
| Books.BookPartsOrdered | scripts/build_audio.py:469-495 | the foreword comes first, the epilogue last, and chapters in strictly ascending order |
| Books.PartsOpened | scripts/build_pdf.py:328-335 | the parts opened by chapter i are exactly those starting at or before it |
| Books.PartOf | scripts/build_pdf.py:328-335 | the part holding chapter i is the one with the largest start not after i, and i is within its range |
| Books.PartsContiguous | scripts/build_pdf.py:328-335 | the six parts cover chapters 1..24 in consecutive, non-empty, non-overlapping ranges |
| Books.PartsPartition | scripts/build_pdf.py:328-335 | every chapter lies in exactly one part's range |
| Books.PartsAscending | scripts/build_pdf.py:328-335 | a later part starts after an earlier one ends |
| Books.PartsOpenedStep | scripts/build_epub.py:271-276 | passing chapter i opens the next part exactly when i is that part's start |
| Ebook.ChapterFileNumber | scripts/build_epub.py:285 | below 100 the two digits of a chapter file name read back as its number |
| Ebook.ChapterFileNameInjective | scripts/build_epub.py:285 | different chapter numbers below 100 give different file names |
| Ebook.SpineOf | scripts/build_epub.py:337-338 | the spine is the navigation document followed by the pages in order |
| MarkdownRegex.FindClosing | scripts/build_pages.py:58-59 | a lazy ".+?" ends at the leftmost delimiter with no newline before it, and none is found only when every later delimiter has a newline before it |
| MarkdownRegex.PairedEnd | scripts/build_pages.py:58-59 | a delimited match at the start has non-empty content and its closing delimiter fits in the text |
| MarkdownRegex.SubPairedAbsent | scripts/build_pages.py:58-59 | text without the delimiter is untouched |
| MarkdownRegex.SubPairedSpan | scripts/build_pages.py:58-59 | one delimited single-line span is replaced by its tagged text and scanning resumes after it |
| MarkdownRegex.SubPairedUnfold | scripts/build_pages.py:58-59 | a match at the start is replaced and the substitution continues after its closing delimiter |
| MarkdownRegex.BoldBeforeItalic | scripts/build_pages.py:58-59 | bold is replaced before italic, so "**x**" becomes one strong element with no em inside |
| MarkdownRegex.ItalicFirstWouldSplitBold | scripts/build_pages.py:58-59 | run the other way round, the italic pattern would swallow one asterisk of each pair |
| MarkdownRegex.FindChar | scripts/build_pages.py:62 | the first index at or after the start holding the character, or none when it does not occur there |
| MarkdownRegex.LinkAt | scripts/build_pages.py:62 | a link match has a non-empty label and target, the "](" between them, and ends inside the text |
| MarkdownRegex.LinkSpan | scripts/build_pages.py:62 | "[t](u)" becomes an anchor to u labelled t |
| MarkdownRegex.LinkAtSpan | scripts/build_pages.py:62 | on "[t](u)" the link match ends right after ")", with "](" right after t |
| MarkdownRegex.FirstAt | scripts/build_pages.py:62 | the character search finds the first occurrence |
| MarkdownRegex.StoryLinkAt | scripts/build_pages.py:320 | a story-link match ends at its ")" inside the text, after "(story/", a name and ".md" |
| MarkdownRegex.StoryLinkSpan | scripts/build_pages.py:320 | "(story/X.md)" becomes "(X.html)" |
| MarkdownRegex.StoryLinkAtSpan | scripts/build_pages.py:320 | "(story/x.md)" is matched whole when x has no ")" |
| MarkdownRegex.HeaderLine | scripts/build_pages.py:53-55 | a line starting with the prefix and something after it is wrapped in the tags; any other line is kept |
| MarkdownRegex.HeaderLines | scripts/build_pages.py:53-55 | the header rule rewrites each line on its own |
| MarkdownRegex.HeaderOfLine | scripts/build_pages.py:53 | "# t" becomes "<h1>t</h1>" and likewise for each level |
| MarkdownRegex.BarePrefixUnchanged | scripts/build_pages.py:53-55 | a line holding only the prefix is kept, since ".+" needs a character |
| MarkdownRegex.HashRun | scripts/create_audiobook_video.py:719 | the run of leading hashes, at most six |
| MarkdownRegex.SpaceRun | scripts/create_audiobook_video.py:719 | the run of whitespace after the hashes, ending before the first non-space |
| MarkdownRegex.HeadingMarksRemoved | scripts/create_audiobook_video.py:719 | a heading line of one to six hashes loses its marks and the spaces after them |
| MarkdownRegex.HeadingMarksAbsent | scripts/create_audiobook_video.py:719 | text without "#" is left as it is |
| Markup.RuleLines | scripts/build_pages.py:53-55 | each line is rewritten by the rules in turn |
| Markup.SubHeadersByLine | scripts/build_pages.py:53-55 | with MULTILINE anchors the header substitutions act line by line: the text's lines, each rewritten, joined back with newlines |
| Markup.UnmarkedLineUntouched | scripts/build_pages.py:53-55 | a line not starting with "#" is left alone by every header rule |
| Markup.RuleLineAt | scripts/build_pages.py:53-55 | a line that only the rule at one level rewrites comes out as that rule's element |
| Markup.RuleLineNone | scripts/build_pages.py:53-55 | a line no rule's prefix starts is left as it is |
| Markup.SubHeadersOneLine | scripts/build_pages.py:53-55 | on a single line the three header substitutions are the three rules applied in turn |
| Markup.PlainInline | scripts/build_pages.py:58-62 | text with neither "*" nor "[" passes the inline substitutions unchanged |
| Markup.HeadingRuleLine | scripts/build_pages.py:53-55 | a heading line of each level becomes that level's element |
| Markup.ConvertedHeading | scripts/build_pages.py:53-62 | the substitutions turn a plain heading line into its element |
| Markup.ConvertedPlain | scripts/build_pages.py:53-62 | the substitutions leave a plain, unmarked line as it is |
| Markup.WrapBlock | scripts/build_pages.py:72-75 | a block comes out empty exactly when it is blank, and otherwise starts with "<" |
| Markup.WrapBlocks | scripts/build_pages.py:70-76 | one output block per input block, blank ones included |
| Markup.WrapBlocksAt | scripts/build_pages.py:70-76 | block k of the output is block k of the input, wrapped |
| Markup.WrapBlockIdempotent | scripts/build_pages.py:72-75 | wrapping a wrapped block changes nothing |
| Markup.TagBlockKept | scripts/build_pages.py:74 | a block that starts with a tag and ends with ">" comes out as it is |
| Markup.WrapOne | scripts/build_pages.py:72-75 | one pass of the paragraph loop wraps one block |
| Markup.WrapParagraphs | scripts/build_pages.py:70-77 | the paragraph loop's output is the paragraph pass over the text |
| Markup.WrapBlockFree | scripts/build_pages.py:72-75 | a block without a blank line comes out trimmed and still without one |
| Markup.WrapBlocksRejoinable | scripts/build_pages.py:70-77 | the wrapped pieces of a split on blank lines join and split back to themselves |
| Markup.ParagraphedBlocks | scripts/build_pages.py:70-77 | splitting the output on blank lines gives the input's blocks, each wrapped, in order and in the same number |
| Markup.WrapBlocksIdempotent | scripts/build_pages.py:70-77 | wrapping wrapped blocks changes nothing |
| Markup.ParagraphedIdempotent | scripts/build_pages.py:70-77 | running the paragraph pass on its own output changes nothing |
| Markup.ParagraphedLeading | scripts/build_pages.py:64-77 | a leading one-line tagged block, such as the chapter image, stays the first block as it is |
| EpubSimple.WrapSimple | scripts/build_epub_simple.py:41-42 | a block starting "<h" or "</" is kept as it is, any other is wrapped in a paragraph; either way the result starts with "<" |
| EpubSimple.SimpleBlock | scripts/build_epub_simple.py:38-43 | a block is dropped exactly when it is blank after stripping; a kept one starts with "<" |
| EpubSimple.SimpleBlocksStep | scripts/build_epub_simple.py:38-43 | one round of the paragraph loop appends the kept form of one block |
| EpubSimple.ProcessParagraph | scripts/build_epub_simple.py:39-43 | the loop body keeps the block's processed form or nothing |
| EpubSimple.ProcessParagraphs | scripts/build_epub_simple.py:35-43 | the loop's list is the processed non-blank blocks in order |
| EpubSimple.MarkdownToHtml | scripts/build_epub_simple.py:14-51 | the converter's result is the specified conversion of the chapter text |
| EpubSimple.SimpleBlockOneLine | scripts/build_epub_simple.py:39 | a kept block holds no newline, since newlines inside a block become spaces |
| EpubSimple.SimpleBlocksOneLine | scripts/build_epub_simple.py:38-43 | every kept block is a single line |
| EpubSimple.JoinedLines | scripts/build_epub_simple.py:45 | joining single-line blocks with newlines gives non-blank text that splits back into the same blocks |
| EpubSimple.SimpleHtmlShape | scripts/build_epub_simple.py:16-17 | the result is never blank; blank input or no kept block gives the placeholder; otherwise it is the kept blocks one per line |
| EpubSimple.HeadingLine | scripts/build_epub_simple.py:23-25 | a one-line heading of level 1, 2 or 3 converts to exactly its element |
| EpubSimple.TaggedLine | scripts/build_epub_simple.py:23-43 | a heading line whose substitutions give a tagged element comes out as that element, unwrapped |
| EpubSimple.SingleBlockHtml | scripts/build_epub_simple.py:45-49 | a chapter with one single-line kept block converts to that block |
| EpubSimple.LineBlock | scripts/build_epub_simple.py:35-43 | a non-blank line is one block, stripped and wrapped |
| EpubSimple.TaggedBlock | scripts/build_epub_simple.py:41 | a tagged single line is kept as its own block |
| EpubSimple.PlainLine | scripts/build_epub_simple.py:14-51 | a plain line with no markup converts to one paragraph of its stripped text |
| EpubSimple.PagesAtIndex | scripts/build_epub_simple.py:119-133 | the k-th page is the page of the k-th position |
| EpubSimple.PresentSources | scripts/build_epub_simple.py:119-121 | the positions of the list whose file exists, each once, ascending |
| EpubSimple.PagesAtAppend | scripts/build_epub_simple.py:133 | one more position appends its page |
| EpubSimple.MakePage | scripts/build_epub_simple.py:122-129 | the page of list position i: its title, "chapter_ii.xhtml" named by the position, and its converted text |
| EpubSimple.CollectStep | scripts/build_epub_simple.py:119-133 | one round of the loop appends the position's page when its file exists |
| EpubSimple.WalkedStep | scripts/build_epub_simple.py:119-121 | walking one more position adds it exactly when present |
| EpubSimple.CollectOne | scripts/build_epub_simple.py:120-133 | the loop body appends the page when present |
| EpubSimple.CollectPages | scripts/build_epub_simple.py:119-133 | the chapters list is the pages of the present files, in list order |
| EpubSimple.WalkedAll | scripts/build_epub_simple.py:119-121 | walking the whole list visits exactly the present positions |
| EpubSimple.BuildEpubBook | scripts/build_epub_simple.py:53-143 | the chapter list is the present files' pages; the table of contents is that list; the spine is the navigation page then that list |
| EpubSimple.PageNamedByPosition | scripts/build_epub_simple.py:119-133 | a page is named chapter_ii exactly when list position i exists, and it is that position's page |
| EpubSimple.PagesInListOrder | scripts/build_epub_simple.py:119-133 | the pages' two-digit numbers increase along the list |
| Epub.BodyHtml | scripts/build_epub.py:16-24 | the body is never blank; blank text is replaced by the placeholder before conversion; a non-blank conversion is kept, and a blank one is replaced by the placeholder |
| Epub.Xhtml | scripts/build_epub.py:27-37 | the page is the fixed head, the body unchanged, and the fixed tail |
| Epub.EpubHtmlBody | scripts/build_epub.py:14-37 | the body found between the fixed head and tail is the non-blank body |
| Epub.MarkdownToHtml | scripts/build_epub.py:14-37 | the converter's page is the specified page of the chapter text |
| Epub.RenderAllSnoc | scripts/build_epub.py:211-328 | rendering one more document appends its page |
| Epub.MakePage | scripts/build_epub.py:212-217 | an optional page or chapter gets its title, file name and converted text |
| Epub.Optional | scripts/build_epub.py:211 | an optional document is included exactly when its file exists |
| Epub.ChapterDocs | scripts/build_epub.py:268-289 | one chapter document per number, in order |
| Epub.ChapterDocsAppend | scripts/build_epub.py:268-289 | chapter documents of two lists concatenate |
| Epub.ChapterPagesSplit | scripts/build_epub.py:268-289 | the present chapters of consecutive ranges concatenate |
| Epub.ChapterPagesStep | scripts/build_epub.py:278-289 | one round of the chapter loop appends the chapter when its file exists |
| Epub.ChapterPageIn | scripts/build_epub.py:278-289 | chapter i is in the range's pages exactly when it is in range and its file exists |
| Epub.LinksAppend | scripts/build_epub.py:219 | links of two lists concatenate |
| Epub.SectionsUpTo | scripts/build_epub.py:271-295 | the first n part sections, each with its chapters so far |
| Epub.PartEntries | scripts/build_epub.py:261-295 | part p's section has its title and holds the present chapters of its range |
| Epub.SpineOfDocs | scripts/build_epub.py:337-338 | the spine is the navigation page followed by every document in order |
| Epub.SectionsOpen | scripts/build_epub.py:273-276 | reaching a part's first chapter appends an empty section with the part's title |
| Epub.SectionsGrow | scripts/build_epub.py:278-295 | after the part check, the last entry is a section and the chapter, when present, joins it |
| Epub.OpenedPart | scripts/build_epub.py:271-276 | by chapter i the last opened part is the one whose range holds i, and the part before it has ended |
| Epub.SectionsSnoc | scripts/build_epub.py:271-295 | the sections list grows one section at a time |
| Epub.ClosedSectionsSame | scripts/build_epub.py:292-293 | a section whose range has ended no longer changes |
| Epub.OpenSectionGrows | scripts/build_epub.py:292-293 | the open section gains chapter i when its file exists |
| Epub.AppendToLastAfter | scripts/build_epub.py:292-293 | appending to the last section's list leaves the earlier entries alone |
| Epub.OpenPart | scripts/build_epub.py:272-276 | the part check opens the next part exactly at its first chapter |
| Epub.AppendToLastSection | scripts/build_epub.py:292-293 | the chapter is added to the last section |
| Epub.AddChapter | scripts/build_epub.py:278-295 | one chapter round extends the spine list and the open section by the chapter when present |
| Epub.AddPartChapters | scripts/build_epub.py:268-295 | the chapter loop adds the present chapters 1..24 to the spine list and the six part sections to the table of contents |
| Epub.AddMatter | scripts/build_epub.py:211-230 | an optional page is added to both lists when its file exists |
| Epub.MakePages | scripts/build_epub.py:211-328 | every document is rendered in order |
| Epub.TocAssembled | scripts/build_epub.py:205-331 | the pieces appended to the table of contents make up the specified table |
| Epub.DocsAssembled | scripts/build_epub.py:204-328 | the pieces appended to the spine list make up the specified list |
| Epub.WalkBook | scripts/build_epub.py:204-331 | the walk produces the specified spine documents and table of contents |
| Epub.BuildEpubBook | scripts/build_epub.py:126-338 | the book's pages, table of contents and spine are the specified ones |
| Epub.TocShape | scripts/build_epub.py:205-331 | the table of contents is the front matter links, exactly six part sections with their titles, then the back matter links |
| Epub.ChapterInItsPart | scripts/build_epub.py:261-295 | a chapter is listed under part p exactly when p is its part and its file exists |
| Epub.SectionAscending | scripts/build_epub.py:268-295 | chapters inside a section are in ascending order |
| Epub.FlattenSnoc | scripts/build_epub.py:292-295 | flattening one more entry appends its documents |
| Epub.FlattenRanges | scripts/build_epub.py:261-295 | the first n sections together hold the present chapters up to the n-th part's end |
| Epub.SectionsCoverSpine | scripts/build_epub.py:261-295 | the six sections together hold exactly the chapters of the spine, in order |
| Epub.TocLinkAt | scripts/build_epub.py:219-328 | an entry that is not a section links a front or back matter page |
| Epub.TocSectionAt | scripts/build_epub.py:275-293 | sections hold only chapters |
| Epub.MatterNotChapter | scripts/build_epub.py:211-328 | front and back matter are neither chapters nor the title or copyright pages |
| Epub.FrontPagesOnlyInSpine | scripts/build_epub.py:208 | the title and copyright pages open the spine after the navigation page and are not in the table of contents |
| Epub.SpineStart | scripts/build_epub.py:208 | the spine starts with navigation, title and copyright |
| Epub.FrontPagesNotInToc | scripts/build_epub.py:205-331 | neither the title nor the copyright page is in the table of contents |
| Epub.FrontPagesNotAt | scripts/build_epub.py:205-331 | no table-of-contents entry mentions the title or copyright page |
| Epub.ChapterInSpine | scripts/build_epub.py:278-289 | chapter i is in the spine exactly when it is in 1..24 and its file exists |
| Epub.ChapterPagesAscending | scripts/build_epub.py:270-289 | chapters follow in ascending order |
| Epub.HeadRanked | scripts/build_epub.py:208-230 | the pages before the chapters come in the fixed front order |
| Epub.TailRanked | scripts/build_epub.py:298-328 | the pages after the chapters come in the fixed back order |
| Epub.ChapterPagesOrdered | scripts/build_epub.py:270-289 | the chapter pages are ascending |
| Epub.ThreePieceOrder | scripts/build_epub.py:204-328 | front pages, ascending chapters and back pages put together are in reading order |
| Epub.SpineOrdered | scripts/build_epub.py:204-338 | the spine documents are in reading order: front matter, chapters ascending, back matter |
| Pages.FirstH3 | scripts/build_pages.py:35-38 | the index of the first line starting "### ", with no earlier one, or none when no line starts so |
| Pages.FirstH3Is | scripts/build_pages.py:35-38 | the search stops at the first "### " line wherever it is |
| Pages.NoH3 | scripts/build_pages.py:35-38 | without a "### " line the search finds nothing |
| Pages.FindH3Title | scripts/build_pages.py:331-334 | the loop's title is the stripped rest of the first "### " line, or none |
| Pages.H3TitleOneLine | scripts/build_pages.py:333 | a found title is stripped and holds no newline |
| Pages.NavItems | scripts/build_pages.py:23-43 | one list item per navigation part, linking its page with its caption |
| Pages.NavItemsSnoc | scripts/build_pages.py:23-43 | one more part appends its item |
| Pages.ChapterNavLabel | scripts/build_pages.py:32-38 | a chapter's caption is "Chapter i: title" from its first "### " line, or "Chapter i" |
| Pages.CreateChapterNav | scripts/build_pages.py:18-45 | the navigation is the items of foreword, present chapters 1..24 and epilogue, one per line |
| Pages.MarkedItems | scripts/build_pages.py:82-84 | the item whose stem is the current page is marked active, the others are kept |
| Pages.ItemQuote | scripts/build_pages.py:25-43 | a quote in a navigation item can only be one of the two around its link |
| Pages.ItemMatch | scripts/build_pages.py:84 | the current page's href occurs in an item only at its link, and only for that page |
| Pages.SameLengthMatch | scripts/build_pages.py:84 | an href of the same length as the item's link matches only that link |
| Pages.MarkItem | scripts/build_pages.py:84 | replacing the current page's href marks an item exactly when the item links that page |
| Pages.MarkOwnItem | scripts/build_pages.py:84 | an item's own href marks it active |
| Pages.DigitsQuoteFree | scripts/build_pages.py:39 | a chapter number has no quote |
| Pages.StemQuoteFree | scripts/build_pages.py:25-43 | no page stem has a quote |
| Pages.ChapterCaptionQuoteFree | scripts/build_pages.py:34-37 | a chapter caption has no quote when its heading has none |
| Pages.CaptionQuoteFree | scripts/build_pages.py:23-43 | every caption is free of quotes when the chapter headings are |
| Pages.HrefOneLine | scripts/build_pages.py:84 | the href of a one-line page name is one line |
| Pages.MarkedNav | scripts/build_pages.py:80-84 | marking the current page is done item by item and marks exactly the item linking that page |
| Pages.NavMarked | scripts/build_pages.py:83-84 | with a current page the navigation is the replace of its href over the whole list |
| Pages.MarkedEach | scripts/build_pages.py:84 | the replace over the joined list is the replace on each item |
| Pages.MarkedEntry | scripts/build_pages.py:84 | item k after the replace is item k marked or kept |
| Pages.StemsDistinct | scripts/build_pages.py:23-43 | no two navigation items link the same page, so at most one is marked |
| Pages.IndexNavUnmarked | scripts/build_pages.py:321 | the index page marks no item, since no item links index.html |
| Pages.ImageDivShape | scripts/build_pages.py:66 | the image block is one line starting with "<" and ending with ">" |
| Pages.ImageFirst | scripts/build_pages.py:64-77 | with a chapter image the body is the image block, a blank line and the body without it, and the image is its first block |
| Pages.BodyBlocks | scripts/build_pages.py:53-77 | without an image the body's blocks are the converted text's blocks, each wrapped |
| Pages.MarkdownToHtml | scripts/build_pages.py:47-296 | the page holds the title, the navigation marked for the current page, and the converted body |
| Pages.ChapterPageTitle | scripts/build_pages.py:330-336 | a chapter without a "### " line is titled "Digital Amber - Chapter N" |
| Pages.PageTitleOneLine | scripts/build_pages.py:330-336 | a page title is one line |
| Pages.SiteOf | scripts/build_pages.py:317-343 | the site is index.html then one page per story file named by its stem |
| Pages.SiteOfStep | scripts/build_pages.py:325-343 | one round of the story loop appends one page |
| Pages.BuildStoryPage | scripts/build_pages.py:326-342 | a story page gets its title, its art image when the file exists, and the story file's stem as current page |
| Pages.BuildSite | scripts/build_pages.py:298-343 | the site is the index converted from the README with story links rewritten, then every story page |
| Pages.StoryPageImage | scripts/build_pages.py:339-342 | when the art file exists the page body starts with that image block |
| PagesPremium.PremiumRulesSafe | scripts/build_pages_premium.py:394-396 | every header rule of the chapter pages rewrites single lines only |
| PagesPremium.PremiumRuleChars | scripts/build_pages_premium.py:394-396 | the rules' prefixes are hashes and a space; their tags have no newline, "*" or "[" |
| PagesPremium.PremiumHeadingLine | scripts/build_pages_premium.py:394-396 | a heading line of each level becomes that rule's element |
| PagesPremium.PremiumConvertedHeading | scripts/build_pages_premium.py:394-403 | a plain heading line converts to its element |
| PagesPremium.PremiumHeadings | scripts/build_pages_premium.py:394-396 | "### t" and "# t" both become h1, "## t" becomes h2, unlike the site builder where "### t" is h3 |
| PagesPremium.PremiumLevel | scripts/build_pages_premium.py:394-396 | each level's heading converts through its own rule |
| PagesPremium.PlainThirdLevel | scripts/build_pages.py:55 | the site builder does not make "### t" an h1 |
| PagesPremium.ChapterImage | scripts/build_pages_premium.py:415-420 | the image tag is present exactly when a non-empty chapter name has an art file, and then it is that chapter's tag |
| PagesPremium.ImageTagSource | scripts/build_pages_premium.py:420 | the tag's source is "../art/pages/NAME.png", and different names give different tags |
| PagesPremium.ChapterHtml | scripts/build_pages_premium.py:391-413 | the converted chapter body is the premium conversion |
| PagesPremium.PremiumMarkdownToHtml | scripts/build_pages_premium.py:388-453 | the page holds the title, the chapter image and the converted body |
| PagesPremium.IndexRuleChars | scripts/build_pages_premium.py:464-466 | the index's tags have no newline, "*" or "[" |
| PagesPremium.IndexRulePrefix | scripts/build_pages_premium.py:464-466 | the index rules' prefixes are one to three hashes and a space |
| PagesPremium.IndexRulesSafe | scripts/build_pages_premium.py:464-466 | the index header rules rewrite single lines only |
| PagesPremium.IndexHeadingLine | scripts/build_pages_premium.py:464-466 | an index heading line becomes its element with its class |
| PagesPremium.SubStoryLinksPlain | scripts/build_pages_premium.py:461 | text without "(" passes the story-link rewrite unchanged |
| PagesPremium.NoStoryLinkHere | scripts/build_pages_premium.py:461 | a character other than "(" is kept and the scan moves on |
| PagesPremium.IndexHeading | scripts/build_pages_premium.py:461-473 | a plain index heading line becomes its element |
| PagesPremium.IndexTitles | scripts/build_pages_premium.py:464-466 | "# t" becomes the main title and "### t" a part title |
| PagesPremium.SubPairedNoDelim | scripts/build_pages_premium.py:469-470 | text without the delimiter is untouched |
| PagesPremium.NoDoubleStar | scripts/build_pages_premium.py:469 | "*t*" has no "**" when t has no star |
| PagesPremium.IndexSubtitle | scripts/build_pages_premium.py:470 | "*t*" in the index becomes a subtitle em element |
| PagesPremium.SubtitleInline | scripts/build_pages_premium.py:469-473 | the inline passes turn "*t*" into a subtitle |
| PagesPremium.IndexUnmarkedLine | scripts/build_pages_premium.py:464-466 | a line not starting "#" is not touched by the header rules |
| PagesPremium.IndexStoryLink | scripts/build_pages_premium.py:461-473 | "[t](story/x.md)" becomes a link to x.html labelled t |
| PagesPremium.StoryLinkRewritten | scripts/build_pages_premium.py:461 | the story link target is rewritten to the page |
| PagesPremium.LinkLineConverted | scripts/build_pages_premium.py:464-473 | a link line becomes an anchor |
| PagesPremium.TocLine | scripts/build_pages_premium.py:482-487 | a non-empty line comes out starting with "<" and still containing the line |
| PagesPremium.NonBlank | scripts/build_pages_premium.py:479-481 | the lines kept are exactly the non-blank ones |
| PagesPremium.TocLines | scripts/build_pages_premium.py:479-487 | one output line per non-blank line, each starting with "<" |
| PagesPremium.TocLinesStep | scripts/build_pages_premium.py:479-487 | one round of the loop appends the processed line when it is not blank |
| PagesPremium.ProcessTocLines | scripts/build_pages_premium.py:476-487 | the loop's list is the specified processed lines |
| PagesPremium.ChapterLinkListed | scripts/build_pages_premium.py:482-483 | a line linking chapter_n.html for n from 3 to 24 becomes a chapter list item |
| PagesPremium.TocLineOneLine | scripts/build_pages_premium.py:482-487 | a processed line stays one line |
| PagesPremium.TocSplitsBack | scripts/build_pages_premium.py:476-489 | the table of contents splits back into the processed lines, and is empty when none was kept |
| PagesPremium.CreatePremiumIndex | scripts/build_pages_premium.py:455-489 | the index body is the specified table of contents of the README |
| PagesPremium.PremiumChapterTitle | scripts/build_pages_premium.py:546 | chapter_N is titled "Digital Amber - Chapter N" |
| PagesPremium.PremiumPageImage | scripts/build_pages_premium.py:545-547 | a story page has an image exactly when its art file exists, and then it is its stem's tag |
| PagesPremium.BuildPremiumSite | scripts/build_pages_premium.py:522-548 | the site is the premium index then one page per story file named by its stem |
| Pdf.Optional | scripts/build_pdf.py:316-319 | an optional section adds one chapter-break piece exactly when its file exists |
| Pdf.ChapterBreaks | scripts/build_pdf.py:339-345 | one chapter-break piece per chapter number |
| Pdf.PartPieces | scripts/build_pdf.py:336-345 | a part starts with its title division, followed by its chapters |
| Pdf.AddIfExists | scripts/build_pdf.py:316-319 | the optional section is appended when its file exists |
| Pdf.AddPart | scripts/build_pdf.py:336-345 | one round of the parts loop appends the part title and its present chapters |
| Pdf.ChapterIfExists | scripts/build_pdf.py:341-345 | a chapter adds a piece exactly when its file exists |
| Pdf.AddChapter | scripts/build_pdf.py:340-345 | one round of the chapter loop appends the chapter when its file exists |
| Pdf.PartRangeStep | scripts/build_pdf.py:339-345 | one more chapter of a part's range adds its piece when present |
| Pdf.ChapterBreaksAppend | scripts/build_pdf.py:339-345 | chapter pieces of two lists concatenate |
| Pdf.AddParts | scripts/build_pdf.py:336-345 | the parts loop appends every part with its chapters in order |
| Pdf.WalkDocument | scripts/build_pdf.py:231-368 | the pieces are the header and contents, the main division with dedication, foreword and parts, then the back matter and the tail |
| Pdf.CreateFullHtml | scripts/build_pdf.py:227-370 | the document is the specified pieces joined with newlines |
| Pdf.ScanAppend | scripts/build_pdf.py:231-370 | reading the pieces of two halves is reading the first and then the second from where the first ended |
| Pdf.ScanOptional | scripts/build_pdf.py:316-365 | an optional section is found where it was added, in the current part and division |
| Pdf.ScanChapterBreaks | scripts/build_pdf.py:339-345 | chapters are found in the current part and do not change it |
| Pdf.ScanPart | scripts/build_pdf.py:336-345 | a part's chapters are found in that part, and the part title makes it the current part |
| Pdf.ChaptersUpTo | scripts/build_pdf.py:328-345 | the chapters of the first n parts are all in 1..24 |
| Pdf.PartChaptersTagged | scripts/build_pdf.py:328-345 | the chapters of part p are placed in their own part |
| Pdf.InPartRange | scripts/build_pdf.py:328-335 | a chapter in part p's range has p as its part |
| Pdf.InTheirPartsAppend | scripts/build_pdf.py:328-345 | placements of two lists concatenate |
| Pdf.ChaptersUpToStep | scripts/build_pdf.py:336-345 | one more part adds its chapters |
| Pdf.ScanParts | scripts/build_pdf.py:336-345 | after n parts every chapter so far sits in its own part inside the main division |
| Pdf.PartReads | scripts/build_pdf.py:336-345 | part n's pieces read as its chapters in their part |
| Pdf.PlacementsStep | scripts/build_pdf.py:336-345 | placements grow by one part's chapters per round |
| Pdf.ScanPartsStep | scripts/build_pdf.py:336-345 | one more part keeps every chapter in its own part |
| Pdf.ScanAllParts | scripts/build_pdf.py:328-345 | all six parts read as all present chapters in their parts, ending in the last part |
| Pdf.BookScan | scripts/build_pdf.py:313-368 | reading the document finds dedication and foreword before any part, the chapters in their parts, and the back matter outside the main division |
| Pdf.ScanDocument | scripts/build_pdf.py:313-368 | closing the main division moves the back matter out of it |
| Pdf.ScanFront | scripts/build_pdf.py:235-313 | the header and contents hold no section |
| Pdf.ScanExtend | scripts/build_pdf.py:231-370 | readings of consecutive pieces compose |
| Pdf.InTheirPartsInOrder | scripts/build_pdf.py:328-345 | ascending chapters are placed in their own parts, in ascending order, each exactly once |
| Pdf.PlacementsInParts | scripts/build_pdf.py:328-345 | every placed chapter is in 1..24, present, inside the main division and in its part |
| Pdf.PlacementsAscending | scripts/build_pdf.py:336-345 | chapters are placed in ascending order |
| Pdf.PlacementsExactly | scripts/build_pdf.py:336-345 | a chapter is placed exactly when it is in 1..24 and its file exists |
| Pdf.PlacedIfExistsWell | scripts/build_pdf.py:316-365 | an optional section placed where it belongs stays well placed |
| Pdf.AllWellPlaced | scripts/build_pdf.py:313-368 | well placed pieces stay so when put together |
| Pdf.ChapterWellPlaced | scripts/build_pdf.py:328-345 | a chapter in its part inside the main division is well placed |
| Pdf.ChapterPlacementWell | scripts/build_pdf.py:328-345 | each chapter placement is well placed |
| Pdf.ChapterPlacementsWell | scripts/build_pdf.py:328-345 | all chapter placements are well placed |
| Pdf.ReadingWellPlaced | scripts/build_pdf.py:313-368 | the reading of the document is well placed throughout |
| Pdf.MainContent | scripts/build_pdf.py:313-368 | in the document, front matter and chapters are inside the main division, chapters in their parts, and back matter after it |
| Pdf.PartTitlesAppend | scripts/build_pdf.py:336-337 | part titles of two halves concatenate |
| Pdf.NoTitlesAmongChapters | scripts/build_pdf.py:339-345 | chapters add no part title |
| Pdf.PartTitlesInParts | scripts/build_pdf.py:336-345 | the first n parts give the titles 0 to n-1 in order |
| Pdf.OnePartTitle | scripts/build_pdf.py:337 | each part writes its title once |
| Pdf.BookPartTitles | scripts/build_pdf.py:328-337 | the document holds all six part titles, once each and in order, even for parts with no chapter file |
| Pdf.SixParts | scripts/build_pdf.py:328-335 | there are six parts |
| Pdf.FixedPiecesHaveNoTitle | scripts/build_pdf.py:235-368 | the fixed pieces hold no part title |
| Pdf.OptionalHasNoTitle | scripts/build_pdf.py:316-365 | optional sections hold no part title |
| Pdf.TitlesDocument | scripts/build_pdf.py:313-368 | the document's part titles are those of the parts loop |
| Pdf.RenderThroughTemp | scripts/build_pdf.py:386-405 | the PDF is written exactly when rendering succeeds, nothing else changes, and the temporary file is gone either way |
| Pdf.BuildPdfBook | scripts/build_pdf.py:372-405 | the full document is rendered through a temporary file into the PDF output |
| Pdf.OptFile | scripts/build_kindle.py:157-161 | an optional section is added exactly when its file exists |
| Pdf.ChapterFiles | scripts/build_kindle.py:170-183 | one chapter section per number, in order |
| Pdf.InOptFile | scripts/build_kindle.py:157-161 | a section is in an optional slot exactly when it is that section and its file exists |
| Pdf.InChapterFiles | scripts/build_kindle.py:178-183 | a section is among the chapters exactly when it is a chapter in 1..24 whose file exists |
| Kindle.KindleDoc.constructor | scripts/build_kindle.py:146 | the new document is empty and has no heading format applied to Normal |
| Kindle.KindleDoc.AddParagraph | scripts/build_kindle.py:112 | one paragraph with its text and style is appended; the Normal style is untouched |
| Kindle.KindleDoc.AddPageBreak | scripts/build_kindle.py:155 | one page break is appended |
| Kindle.KindleDoc.RestyleNormal | scripts/build_kindle.py:119-123 | the shared Normal style gets the heading format; the paragraphs are untouched |
| Kindle.Blocks | scripts/build_kindle.py:106-136 | one paragraph per line, the k-th from the k-th line |
| Kindle.ProcessLine | scripts/build_kindle.py:109-136 | one line appends its paragraph and applies its heading format, if any, to Normal |
| Kindle.ProcessMarkdown | scripts/build_kindle.py:104-136 | the document gains one paragraph per line and Normal carries the last heading format applied |
| Kindle.BlocksStep | scripts/build_kindle.py:108-136 | one round of the loop appends one line's paragraph |
| Kindle.NormalStep | scripts/build_kindle.py:108-136 | one round of the loop updates Normal by that line alone |
| Kindle.BlankLine | scripts/build_kindle.py:111-113 | a blank line adds an empty Normal paragraph and changes no style |
| Kindle.TrimmedLine | scripts/build_kindle.py:109 | a stripped line is handled as it is |
| Kindle.StrippedFirst | scripts/build_kindle.py:109 | a line is handled as its stripped form |
| Kindle.ChapterHeadingLine | scripts/build_kindle.py:116-117 | "# t" becomes a ChapterHeading paragraph of t |
| Kindle.SubHeadingLine | scripts/build_kindle.py:118-123 | "## t" becomes a Normal paragraph of t and gives Normal the 14-point heading format |
| Kindle.MinorHeadingLine | scripts/build_kindle.py:124-129 | "### t" becomes a Normal paragraph of t and gives Normal the 12-point heading format |
| Kindle.MinorHeadingStripped | scripts/build_kindle.py:124-129 | the same for an already stripped line |
| Kindle.DeepHeadingIsBody | scripts/build_kindle.py:130-136 | "#### t" falls through to a BookBody paragraph and changes no style |
| Kindle.NoBoldPair | scripts/build_kindle.py:133 | text without "**" is not touched by the bold removal |
| Kindle.BodyLine | scripts/build_kindle.py:130-136 | any other non-empty line becomes a BookBody paragraph of its unmarked text |
| Kindle.UnmarkedBold | scripts/build_kindle.py:133 | "**x**" loses its markers |
| Kindle.UnmarkedItalic | scripts/build_kindle.py:134 | "*x*" loses its markers |
| Kindle.NoBoldInItalic | scripts/build_kindle.py:133-134 | "*x*" is not mistaken for bold |
| Kindle.BoldLine | scripts/build_kindle.py:133-136 | a bold line becomes a BookBody paragraph of its text |
| Kindle.ItalicLine | scripts/build_kindle.py:134-136 | an italic line becomes a BookBody paragraph of its text |
| Kindle.NormalUntouched | scripts/build_kindle.py:108-136 | lines without "## " or "### " headings leave Normal as it was |
| Kindle.NormalAfterAppend | scripts/build_kindle.py:108-136 | Normal after two runs of lines is Normal after the second, starting from the first |
| Kindle.LastSubHeadingWins | scripts/build_kindle.py:119-129 | the shared Normal style ends with the format of the last "##"/"###" heading, which then applies to every Normal paragraph |
| Kindle.AddTitlePage | scripts/build_kindle.py:78-102 | the title page's paragraphs and page break are appended |
| Kindle.AddCopyrightPage | scripts/build_kindle.py:152-155 | the three copyright lines and a page break are appended |
| Kindle.AddSection | scripts/build_kindle.py:159-161 | a section's lines and, except after About the Author, a page break are appended |
| Kindle.SectionStep | scripts/build_kindle.py:159-161 | one more section appends its blocks and updates Normal from its lines |
| Kindle.AddIfExists | scripts/build_kindle.py:157-161 | an optional section is added exactly when its file exists |
| Kindle.BuildKindleBook | scripts/build_kindle.py:138-204 | the document holds the specified blocks and Normal format, and is saved as the Kindle output |
| Kindle.SectionsPieces | scripts/build_kindle.py:157-200 | the sections are dedication, foreword, present chapters, epilogue, acknowledgments and about the author, each when present |
| Kindle.AddChapters | scripts/build_kindle.py:178-183 | the chapter loop adds the present chapters in order |
| Kindle.AddChapter | scripts/build_kindle.py:179-183 | one round adds chapter i when its file exists |
| Kindle.ChapterDone | scripts/build_kindle.py:179-183 | adding chapter i extends the chapters done by it when present |
| Kindle.ChaptersSnoc | scripts/build_kindle.py:170-183 | chapter sections of two lists concatenate |
| Kindle.JoinInOrder | scripts/build_kindle.py:157-200 | two ordered runs of sections with separate ranks join in order |
| Kindle.OptRanked | scripts/build_kindle.py:157-161 | an optional section is ordered by its rank |
| Kindle.ChaptersInOrder | scripts/build_kindle.py:170-183 | ascending chapters are in reading order |
| Kindle.SixInOrder | scripts/build_kindle.py:157-200 | the six groups are in reading order |
| Kindle.SectionsInOrder | scripts/build_kindle.py:157-200 | the sections are in reading order |
| Kindle.SectionsExactly | scripts/build_kindle.py:157-200 | a section is included exactly when its file exists (and, for a chapter, it is in 1..24) |
| Kindle.BreaksAppend | scripts/build_kindle.py:155-200 | page breaks of two halves add up |
| Kindle.NoBreaks | scripts/build_kindle.py:104-136 | converted text adds no page break |
| Kindle.FrontBreaks | scripts/build_kindle.py:149-155 | the title and copyright pages hold two page breaks |
| Kindle.SectionBreaks | scripts/build_kindle.py:157-200 | each section adds one page break, About the Author none |
| Kindle.SectionsBreaks | scripts/build_kindle.py:157-195 | the sections before About the Author add one page break each |
| Kindle.AboutLast | scripts/build_kindle.py:157-195 | About the Author is not among the main sections |
| Kindle.SectionsSplit | scripts/build_kindle.py:157-200 | the blocks are those of the main sections followed by About the Author when present |
| Kindle.PageBreakCount | scripts/build_kindle.py:138-200 | the book has two page breaks plus one per included section, less one when About the Author is included |
| Kindle.SectionEnd | scripts/build_kindle.py:157-200 | a section ends with a page break exactly when it is not About the Author |
| Kindle.SectionsEnd | scripts/build_kindle.py:157-200 | the blocks end with a page break exactly when the last section is not About the Author |
| Kindle.EndsWithBreak | scripts/build_kindle.py:138-200 | the book ends with a page break exactly when there is no About the Author file |
| Kindle.FrontEnd | scripts/build_kindle.py:155 | the front pages end with a page break |
| Kindle.LastSection | scripts/build_kindle.py:157-200 | the last section is About the Author exactly when its file exists |
| Art.Titles | scripts/generate_art.py:38-45 | the title candidate of each line, in order |
| Art.Take | scripts/generate_art.py:46 | the first n items, or all of them when there are fewer |
| Art.ChapterTitleAndExcerpt | scripts/generate_art.py:27-50 | a missing file gives nothing; otherwise the title is the last header line's text and the excerpt the first three text lines, joined and cut to 500 characters |
| Art.ReadLine | scripts/generate_art.py:39-48 | one round of the line loop updates the title and the excerpt as the specification says |
| Art.HeaderNotExcerpt | scripts/generate_art.py:40-46 | a header line is never taken into the excerpt |
| Art.ExcerptStep | scripts/generate_art.py:46-48 | a text line joins the excerpt only while it has fewer than three lines |
| Art.ReadLineStep | scripts/generate_art.py:39-48 | one more line changes the title exactly when it is a header, and adds to the candidates exactly when it is text |
| Art.LastSomeSnoc | scripts/generate_art.py:40-45 | a later header replaces the title |
| Art.TakeStep | scripts/generate_art.py:46-48 | the excerpt grows only while below its limit |
| Art.LastSomeIsLast | scripts/generate_art.py:40-45 | the kept value is the last one present, and nothing is kept only when none is |
| Art.TitleIsLastHeader | scripts/generate_art.py:38-45 | the title is the text of the last header line, and there is none exactly when no line is a header |
| Art.CandidatesAreText | scripts/generate_art.py:46 | every excerpt candidate is a non-empty line not starting "#" |
| Art.ExcerptBounds | scripts/generate_art.py:46-50 | at most three lines, all text lines, and at most 500 characters |
| Art.TrimmedTitle | scripts/generate_art.py:39 | a stripped line is handled as it is |
| Art.MinorHeaderTitle | scripts/generate_art.py:40-41 | "### t" gives the title t |
| Art.SubHeaderTitle | scripts/generate_art.py:42-43 | "## t" gives the title t |
| Art.ChapterHeaderTitle | scripts/generate_art.py:44-45 | "# t" gives the title t |
| Art.TitleNotEmpty | scripts/generate_art.py:38-45 | a title found is never empty |
| Art.HeaderTitleNotEmpty | scripts/generate_art.py:38-45 | a header of a stripped line has a non-empty title |
| Art.PrefixRest | scripts/generate_art.py:41-45 | after a header prefix a stripped line has something left |
| Art.RestNotBlank | scripts/generate_art.py:41-45 | what follows a space inside a stripped line is not blank |
| Art.TableKey | scripts/generate_art.py:73-128 | a key found is the key of one of the table's rows |
| Art.NumberAt | scripts/generate_art.py:131-133 | a number found is a non-empty run of digits |
| Art.DigitRun | scripts/generate_art.py:131-133 | the longest run of digits at the start |
| Art.SearchNumber | scripts/generate_art.py:131-133 | a number found by the search is a non-empty run of digits |
| Art.TableKeysWellFormed | scripts/generate_art.py:73-128 | every key of the title table is a well-formed concept key |
| Art.ChapterKeyWellFormed | scripts/generate_art.py:70-133 | any key found for a title is well formed |
| Art.FirstRowWins | scripts/generate_art.py:73-128 | the first row whose phrases the title mentions gives the key, as in an if-elif chain |
| Art.NumberedTitle | scripts/generate_art.py:131-133 | a "chapter_" title followed by digits yields exactly those digits |
| Art.DigitRunOf | scripts/generate_art.py:131-133 | the digit run stops at the first non-digit |
| Art.GrayscaleOnlyForKindle | scripts/generate_art.py:155-159 | the grayscale palette is chosen exactly for the kindle format |
| Art.SettingsChoice | scripts/generate_art.py:61-159 | without concepts the fallback prompt with its orientation; with them the format's palette, the chapter's concept when its key is listed, and the generic one otherwise |
| Art.AspectShapes | scripts/generate_art.py:257-264 | kindle, pdf and epub get portrait ratios, pages a landscape one, and any other format stays square |
| Art.OrientationAgrees | scripts/generate_art.py:194 | the fallback prompt says landscape exactly when the format's ratio is wider than tall |
| Art.SkipsExisting | scripts/generate_art.py:228-264 | with keys and a title, existing art is kept unless forced, and otherwise the image is generated at the format's ratio and path |
| Art.NoHeaderFails | scripts/generate_art.py:218-222 | a chapter without any header line never gets art |
| Art.ArtFilesInOrder | scripts/generate_art.py:317-328 | the files come in the order chapters, dedication, foreword, epilogue |
| Art.ArtFilesOrdered | scripts/generate_art.py:317-328 | ascending chapters followed by the special files are in that order |
| Art.ArtFilesExactly | scripts/generate_art.py:317-328 | a file is processed exactly when it exists and is a chapter 1..24, the dedication, the foreword or the epilogue |
| Art.ArtForFile | scripts/generate_art.py:336-341 | all formats of a file succeed exactly when the count reaches the number of formats |
| Art.AllDoneStep | scripts/generate_art.py:335-341 | one more file keeps everything done exactly when all its formats succeed |
| Art.GenerateAllArt | scripts/generate_art.py:308-351 | the run succeeds exactly when every format of every file succeeded |
| Art.AttemptAll | scripts/generate_art.py:333-351 | the total is files times formats, and the completed count equals it exactly when everything succeeded |
| Release.VersionData.Initial | scripts/build_all.py:46-52 | a missing version file starts at 1.0.0 with no builds |
| Release.VersionData.Loaded | scripts/build_all.py:44-45 | a version file's contents are loaded as they are |
| Release.VersionData.UpdateVersion | scripts/build_all.py:56-68 | the version moves to its bump and the builds are untouched |
| Release.VersionData.AddBuild | scripts/build_all.py:173 | the build entry is appended and the version is untouched |
| Release.BumpIncreases | scripts/build_all.py:56-68 | every bump gives a strictly later version |
| Release.BumpComponents | scripts/build_all.py:56-68 | a major bump raises major and resets the rest; a minor bump raises minor and resets patch; anything else raises patch only |
| Release.PatchBumpsAdd | scripts/build_all.py:65-66 | n patch bumps add n to the patch number |
| Release.IntText | scripts/build_all.py:127 | a number's text is not empty and has no dot |
| Release.NoDotBreaksCleanly | scripts/build_all.py:127 | text without a dot splits cleanly at the dots around it |
| Release.VersionStringRoundTrip | scripts/build_all.py:127 | a version string reads back as its version |
| Release.VersionStringInjective | scripts/build_all.py:127 | different versions have different strings, so versioned directories do not collide |
| Release.BuiltExactly | scripts/build_all.py:144-152 | a format is built exactly when it was requested, is known and its script succeeded |
| Release.BuiltAppend | scripts/build_all.py:144-152 | building two lists of formats gives the two results in order |
| Release.BuiltStep | scripts/build_all.py:144-152 | one round of the loop appends the format when it builds |
| Release.BuildFormats | scripts/build_all.py:136-152 | the loop's list is the built formats in request order |
| Release.BuildAllFormats | scripts/build_all.py:117-173 | the version is bumped from the stored or initial one; it succeeds exactly when something was built, and only then gains a build entry with the new version string and the formats and writes version.json with the bumped version and the extended builds; a run that builds nothing writes nothing |
| Images.DeviceSpecs | scripts/optimize_images.py:10-39 | exactly the four formats are known; each has positive bounds and a quality of at most 100; only kindle is grayscale and only pdf is PNG |
| Images.FinalModeRule | scripts/optimize_images.py:47-55 | the saved mode is RGB or L; it is L exactly for a grayscale PNG target or a non-grayscale target already in L |
| Images.RatioAtLeastOne | scripts/optimize_images.py:62-64 | a bound at least the side gives a ratio of at least one |
| Images.RatioBelowOne | scripts/optimize_images.py:62-64 | a bound below the side gives a ratio below one |
| Images.FactorBounds | scripts/optimize_images.py:61-64 | the scale factor is at most one and at most both ratios, and is one exactly when the image already fits |
| Images.ShrunkSide | scripts/optimize_images.py:66-68 | a side scaled by a factor below one shrinks and stays within its bound |
| Images.ScaleBelow | scripts/optimize_images.py:66-68 | scaling by a factor below one stays below the side and within the bound |
| Images.FloorBounds | scripts/optimize_images.py:67-68 | truncating keeps the side within the bounds |
| Images.MulMonotone | scripts/optimize_images.py:67-68 | scaling is monotone |
| Images.ResizedFits | scripts/optimize_images.py:58-69 | the new size is never larger, fits the bounds, and equals the old size exactly when it already fitted |
| Images.ResizedKeepsAspect | scripts/optimize_images.py:64-68 | both sides are scaled by the same factor, at most one, and truncated |
| Images.ThinImageNotResizable | scripts/optimize_images.py:66-69 | a 10000 by 1 image shrinks to a height of 0 in the e-ink box, which the resize refuses |
| Images.FittingImageResizable | scripts/optimize_images.py:62-69 | an image that already fits is kept at its size and never fails the resize |
| Images.OptimizeImage | scripts/optimize_images.py:41-105 | success exactly when the image opens, has non-zero sides, does not shrink to a zero side, and saves; then the mode, size, encoding and quality are the specified ones |
| Images.TargetNames | scripts/optimize_images.py:142-145 | a JPEG target renames NAME.png to NAME.jpg; a PNG target keeps the name |
| Images.PngFiles | scripts/optimize_images.py:127 | an entry is taken exactly when it is in the listing and its name ends in ".png" |
| Images.PngFilesAppend | scripts/optimize_images.py:127 | the selection keeps listing order: two listings give the first's images then the second's |
| Images.MetadataNeverPng | scripts/optimize_images.py:138-139 | a ".png" name never ends in "_metadata.json", so the skip never fires |
| Images.Targets | scripts/optimize_images.py:142-147 | one target name per file, in order |
| Images.SucceededBounds | scripts/optimize_images.py:153-165 | the success count is at most the file count, equals it exactly when all succeed, and with no success no optimized bytes are counted |
| Images.FailureCountsOriginal | scripts/optimize_images.py:150-155 | a failed file adds its original size to the totals but nothing to the optimized size or the count |
| Images.OptimizeFormatImages | scripts/optimize_images.py:107-165 | an unknown format, a missing directory and no PNG file each end early; otherwise the report holds the specified counts, totals and target names |
| Images.TotalFiles | scripts/optimize_images.py:132-155 | the loop's totals are the specified ones |
| Images.TotalsStep | scripts/optimize_images.py:136-155 | one round adds the file's original size, and its optimized size and one success when it succeeded |
| Docx.Hashes | scripts/docx_to_md_converter.py:67 | n hash characters |
| Docx.BasicConvert | scripts/docx_to_md_converter.py:56-71 | the loop's text is the specified basic conversion |
| Docx.NumberedHeading | scripts/docx_to_md_converter.py:64-67 | a "Heading n" paragraph becomes n hashes, a space, its text and a blank line |
| Docx.UnnumberedHeading | scripts/docx_to_md_converter.py:68-69 | a heading style not ending in a number becomes a first-level heading |
| Docx.PlainParagraph | scripts/docx_to_md_converter.py:70-71 | any other paragraph becomes its text and a blank line |
| Docx.BlockShape | scripts/docx_to_md_converter.py:61-71 | a paragraph adds nothing exactly when its text is blank, and otherwise ends with a blank line |
| Docx.TextBlockEnds | scripts/docx_to_md_converter.py:64-71 | a written paragraph ends with a blank line |
| Docx.ConcatEmpty | scripts/docx_to_md_converter.py:60-71 | the text is empty exactly when every piece is |
| Docx.ConcatEnds | scripts/docx_to_md_converter.py:60-71 | pieces that end the same way give text that ends that way |
| Docx.ConcatAppend | scripts/docx_to_md_converter.py:60-71 | the pieces of two halves concatenate |
| Docx.MarkdownShape | scripts/docx_to_md_converter.py:56-71 | the output is empty exactly when every paragraph is blank, and otherwise ends with a blank line |
| Docx.MarkdownAppend | scripts/docx_to_md_converter.py:56-71 | converting two halves gives the two texts in order |
| Docx.ValidationOrder | scripts/docx_to_md_converter.py:33-42 | a missing file fails first, then a name whose suffix is not .docx in any case; a converted file goes to the output directory under its stem |
| Docx.DocxInAnyCase | scripts/docx_to_md_converter.py:38-42 | NAME with any extension that lower-cases to ".docx" passes and goes to NAME.md in the output directory |
| Docx.LowerDocx | scripts/docx_to_md_converter.py:38 | the suffix check ignores case |
| Docx.DocxFiles | scripts/docx_to_md_converter.py:80-83 | a name is taken exactly when it is in the listing and ends in ".docx" |
| Docx.DocxFilesAppend | scripts/docx_to_md_converter.py:80-83 | the selection keeps listing order: two listings give the first's documents then the second's |
| Docx.EveryFileAccounted | scripts/docx_to_md_converter.py:148-167 | every selected file is either converted or failed, and fails exactly when its conversion raises |
| Docx.ConvertAll | scripts/docx_to_md_converter.py:131-178 | with no file the exit status is 1; otherwise the converted and failed lists are the specified ones and the status is 1 exactly when something failed |
| Paths.LastIndex | scripts/docx_to_md_converter.py:42 | the position of the last occurrence, with none after it, or none when absent |
| Paths.StemSuffix | scripts/docx_to_md_converter.py:42 | stem and suffix put together give the name; a suffix is a dot and at least one more character without a dot |
| Paths.WithExtension | scripts/optimize_images.py:143 | the name BASE.EXT has suffix .EXT and stem BASE |
| Paths.LastIsLast | scripts/docx_to_md_converter.py:38 | the last occurrence is found wherever it is |
| Text.Strip | scripts/build_kindle.py:109 | `strip()` gives a trimmed text no longer than the input, empty exactly when the input is blank |
| Text.StripTrimmed | scripts/build_kindle.py:109 | stripping a trimmed text changes nothing |
| Text.JoinSplit | scripts/build_pages.py:70-77 | joining the pieces of `split(sep)` with sep gives the text back |
| Text.SplitJoin | scripts/build_epub_simple.py:45 | splitting a join of pieces free of the separator gives the pieces back |
| Text.Words | scripts/create_audiobook_video.py:719 | `split()` gives the non-empty runs without whitespace, none exactly when the text is blank |
| Text.WordsOfJoin | scripts/create_audiobook_video.py:719 | words joined with single spaces split back into the same words |
| Text.ReplaceIsJoinOfSplit | scripts/build_pages.py:84 | `replace` is splitting on the pattern and joining with the replacement |
| Text.ReplaceAbsent | scripts/build_pages.py:84 | replacing a pattern that does not occur changes nothing |
| Text.Lower | scripts/docx_to_md_converter.py:38 | `lower()` maps each character on its own (ASCII capitals to small letters, every other character unchanged) and keeps the length |
| Text.Title | scripts/build_pages.py:330 | `title()` upper-cases a character that follows no letter and lower-cases the others |
| Text.TitleDigits | scripts/build_pages.py:330 | digits are unchanged by `title()` |
| Text.NatToString | scripts/build_audio.py:484 | `str(n)` is a run of digits without a leading zero |
| Text.ParseNatToString | scripts/build_audio.py:484 | the decimal text of n reads back as n |
| Text.ZeroPad | scripts/build_audio.py:484 | `{n:03d}` is digits of the width or longer, ending with n's decimal text |
| Text.ParseZeroPad | scripts/build_audio.py:484 | zero-padded text reads back as n |

## Specification functions

These functions define what a step computes and carry no contract of their
own. The rows above name the lemmas and methods that state their properties.
- `Art.PlanArt` (`scripts/generate_art.py:199-264`): the checks of `generate_chapter_art`, in source order.
- `Art.ChapterKey` (`scripts/generate_art.py:70-133`): the concept key for a chapter title.
- `Art.Settings` (`scripts/generate_art.py:61-197`): the prompt settings for a title and format.
- `Art.AspectRatio` (`scripts/generate_art.py:257-264`): the aspect ratio requested per format.
- `Art.ArtFiles` (`scripts/generate_art.py:317-328`): the files `generate_all_art` walks.
- `Release.Bumped` (`scripts/build_all.py:56-68`): the version after a bump.
- `Release.Built` (`scripts/build_all.py:144-152`): the formats that build.
- `Release.VersionString` (`scripts/build_all.py:127`): the dotted version text.
- `Images.ScaleFactor` and `Images.Resized` (`scripts/optimize_images.py:58-69`): the scale factor and the new size.
- `Images.FinalMode` (`scripts/optimize_images.py:47-55`): the colour mode saved.
- `Images.TargetName` (`scripts/optimize_images.py:141-145`): the optimized copy's name.
- `Docx.ConvertDocx` (`scripts/docx_to_md_converter.py:21-77`): one conversion.
- `Docx.BasicMarkdown` (`scripts/docx_to_md_converter.py:57-72`): the python-docx fallback's markdown.
- `Docx.OutputPath` (`scripts/docx_to_md_converter.py:42`): where the markdown goes.
- `Paths.Stem` and `Paths.Suffix`: `PurePath.stem` and `PurePath.suffix` of a file name.
- `Pages.ActiveNav` (`scripts/build_pages.py:82-84`): the sidebar with the current page's link marked.
- `VideoLayout.WrapStep` and `VideoLayout.WrapAfter` (`scripts/create_audiobook_video.py:733-741`): one turn of the wrap loop, and the loop's variables after the first words.

## Left out

- The GPU frequency meter (`scripts/create_audiobook_video.py:192-359`): floating-point FFT and colour ramps on CuPy arrays, with no stated contract. The caller switches it off anyway.
- The floating motes (`scripts/create_audiobook_video.py:361-436`): trigonometry on GPU arrays, with no stated contract.
- Pixel work: image resizing, alpha compositing, font measurement, gradient and placeholder drawing, and moviepy encoding. The measured text box is an input of `VideoTiming.WordOrigin`.
- Whisper itself, and the cache file's name (an md5 of the audio file's name, size and modification time). The transcription result and the cache entry found for the audio file are inputs.
- The pickle caches for waveforms and layouts: only which layout is used is modelled (see Findings).
- The speech engines: XTTS v2, Kokoro and the HuggingFace models. Also the espeak, sox, ffmpeg and ffprobe subprocesses and the Replicate and HTTP calls. Their success or output is an input.
- The temporary replacement of `torch.load` in `setup_xtts_v2` (`scripts/build_audio.py:117-161`). It only affects how the model file is loaded.
- `create_default_voice_samples` (`scripts/build_audio.py:373-424`): it creates the `voices/` directory and writes `voices/README.md` with recording instructions; it makes no sample. The instruction text is left out; the model keeps only the fact that this README is written, as the `voicesReadme` result of `XttsAudio.BuildAudiobook`.
- The markdown, ebooklib, WeasyPrint, python-docx and mammoth libraries are opaque. Their output is passed along unchanged.
- The fixed style sheets (`create_epub_styles`, `create_premium_css`, `create_pdf_css`, `create_kindle_docx`): constant text and style settings.
- File-system side effects: `rmtree`, `copytree`, symlinks, directory creation, `input()` prompts and progress printing.
- `scripts/generate_yaml_art.py` and `scripts/create_voice_samples.py`. Both drive the network and subprocesses. Their local logic repeats `generate_art.py` or is trivial.
- Bit-exact IEEE rounding in the zoom, fade and scale formulas. Exact reals are used instead.
- The concurrency imports (`ThreadPoolExecutor`, `ProcessPoolExecutor`). They are imported but never used.
- The sleeps and clock reads in the drivers.
- The description text of the combined upload (`create_youtube_description`): fixed prose. Only the chapter timeline inside it is modelled.
- `create_individual_chapter_uploads` (`scripts/youtube_upload.py:211-251`): it writes file sizes and durations to JSON, and reads only the inputs modelled elsewhere.
- In `scripts/build_all.py`: `get_git_info`, the copy into the versioned directory, `list_versions` and `main`. They are git, the clock and the file system.
- Release.BuildInfo: leaves out the build date, the git data and the file sizes. It keeps only the version string and the formats.
- In `scripts/generate_art.py`: the wording of the prompts, the image model call, the download, and `list_generated_art`. Which prompt settings are chosen is modelled.
- Text.Lower: maps only the ASCII letters `A`-`Z`; Python's `lower` also maps letters of other alphabets. The keywords, suffixes and format names compared with the lowered text are all ASCII, so which comparisons succeed is the same unless the text contains a non-ASCII letter whose lower case is ASCII (such as the Kelvin sign).
- `Paths`: models only the last component of a path (`stem` and `suffix`), not directories.
- Docx.OutputPath: joins the output directory, a slash and the file name as strings. `Path(output_dir) / name` also normalises the directory, so for a directory written as `out/` the model gives `out//x.md` where the script gives `out/x.md`, and for `.` it gives `./x.md` where the script gives `x.md`. The file the two paths name is the same.
- Docx.UnnumberedHeading: treats only the ASCII digits as a heading number. Python's `isdigit` also accepts other Unicode digits, such as `²`, and `int` then raises on them. Word's heading styles are named `Heading 1` to `Heading 9`, so such a level does not occur in practice.
- Text.Title: treats only the ASCII letters as cased. Python's `title` also cases letters of other alphabets. It is applied only to file stems, which are ASCII.
- Art.NumberAt: accepts only the ASCII digits `0`-`9` after `chapter` and its separator. The `\d` of the pattern, in a Python 3 string regex, also matches the decimal digits of other scripts, so for a title such as `chapter_٣` the model finds no number where the script finds one.
- Art.DigitRun: stops at the first character that is not an ASCII digit, where the pattern's `\d+` would also take decimal digits of other scripts.
- Art.SearchNumber: finds only numbers written in ASCII digits, for the reason given for Art.NumberAt. Chapter titles are English text, so the two agree on them.
- The HTML page templates (`scripts/build_pages.py:87-296`, and `scripts/build_pages_premium.py:423-453` and `491-520`): the head, the embedded style and the fixed markup are constant text. Only what the templates are filled with (title, sidebar, body, image) is modelled.

## Findings

| source | as written | input that shows it | evidently intended | confidence | as-written member | corrected member |
|---|---|---|---|---|---|---|
| scripts/create_audiobook_video.py:497-534 | when the cached layout's key matches, the window loop at line 514 still runs and appends to the loaded groups | a cached layout of the n windows for n word timings gives 2n groups | use the cached groups unchanged: n groups, one per timing | not executed | VideoLayout.BuildWordGroups | VideoLayout.BuildWordGroupsOnce |
| scripts/create_audiobook_video.py:807-823 | the narration clip is attached with `set_audio` and no start offset, though lines 812-813 and 822 announce a clip delayed by the lead-in, while the highlighting at line 602 subtracts the lead-in | the configured lead-in of 1 s: one second into the video the first word is highlighted while the listener hears the narration at 1 s, and the narration ends lead-in seconds before the highlighting does | start the clip at the lead-in, so that the heard position equals the highlighted audio time | not executed | VideoTiming.NarrationPosition with AsWrittenClipStart (lemmas VideoTiming.HighlightLagsNarration, VideoTiming.LagAtConfiguredLeadIn) | VideoTiming.NarrationPosition with VideoTiming.IntendedClipStart (lemma VideoTiming.DelayedNarrationMatches) |
