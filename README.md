# Video-notes core in Dafny

This project models the parts of a video-learning app that carry real logic:

- **Subtitle generation**: it turns word-level speech-recognition output into a numbered SRT
  document.
- **Note generation**: it turns the sections of a language model's answer into notes. Each
  note carries a cover frame taken from the video. Every `[MM:SS]` or `[HH:MM:SS]` marker in
  the note's text is replaced by an image of that moment.
- **Front-end clock helpers**: they convert between `HH:MM:SS` and seconds.

The model has nine modules:

- `Wrappers`: `Option`.
- `Text`: decimal digits, zero padding, `split`, `strip`, and the decimal literals that
  `int()`, `float()` and `Number()` accept.
- `AliWsr`: `backend/utils/wsr/ali_wsr.py`.
- `Timestamps`: `timestamp_to_seconds` and the `00:` completion.
- `FrameExtraction`: `extract_frame`.
- `MarkerResolution`: the frame cache and the marker rewriter.
- `SubtitleLookup`: `_get_subtitle_text`.
- `NoteBuilding`: the notes loop of `NoteGenerationView.post`.
- `TimeFunc`: `frontend/src/composables/TimeFunc.ts`.

Imperative code is modelled as methods, each proved equal to a specification function:

- the SRT converter (`AliWsr.JsonToWordSrt`);
- the frame-retry loop (`FrameExtraction.ExtractFrame`);
- the subtitle probing loop (`SubtitleLookup.GetSubtitleText`);
- the notes loop (`NoteBuilding.GenerateNotes`).

The lemmas about those specification functions state what the source promises.

The frame cache is a dictionary that the lookups update in place. It is the class
`MarkerResolution.FrameCache`, with a `map` field and the log of the `extract_frame` calls
made so far. The same state as a value, `Cache`, is threaded through the specification
functions `Lookup`, `Rewrite`, `NoteOf` and `BuildNotes`. Each method is proved to return what
its function returns and to leave the cache that function leaves.

Some code paths raise. Where the raise escapes to the caller, the model returns `None`, or an
`Extraction` error constructor for `extract_frame`. A `ValueError` that is caught and turned
into `""` is modelled as `""`.

The model keeps these behaviours of the code as written:

- `extract_frame` raises when no decoded frame had a Laplacian variance strictly above `0`,
  not only when no frame could be decoded. `best_variance` starts at `0` and the comparison
  is strict (lines 121 and 138).
- `ms_to_srt_time` pads the hours to two digits but never cuts them, so from 100 hours on a
  timecode is longer than 12 characters.
- With two fields, `hhmmssToSeconds` reads hours and minutes (`"01:30"` is 5400 s), while the
  back end's `timestamp_to_seconds` reads minutes and seconds (90 s). Three fields that both
  parsers read alike give the same seconds (`TimeFunc.AgreeOnFields`).
- The frame cache is looked up under the raw timestamp but stored under the completed
  (`00:`-prefixed) one (lines 423 and 437). A cover timestamp with one colon therefore never
  hits the cache. Every lookup of it calls `extract_frame` again, which writes a new file, and
  the new path replaces the stored one (`MarkerResolution.OneColonAlwaysExtracts`,
  `MarkerResolution.OneColonTwice`). Markers in the content are completed before the lookup,
  so they do hit the cache. Rewriting content makes no more `extract_frame` calls than it
  adds keys (`MarkerResolution.RewriteCallsWithinNewKeys`). So a marker whose completed
  timestamp is already a key costs no call, wherever it was first met: earlier in the same
  content, in an earlier section, or as a completed cover timestamp. The same holds for a
  whole note whose timestamp does not have exactly one colon (`NoteBuilding.NoteWithinNewKeys`).

## Model

| member | source | states |
|---|---|---|
| AliWsr.MsToSrtTime | backend/utils/wsr/ali_wsr.py:6-11 | `ms_to_srt_time`: floor divmod by 1000, 60 and 60, fields zero-padded; its properties are the four rows below |
| AliWsr.SrtTimeRoundTrip | backend/utils/wsr/ali_wsr.py:6-11 | the timecode of any non-negative millisecond count reads back as that count: hours, minutes below 60, seconds below 60 and three millisecond digits |
| AliWsr.SrtTimeWidth | backend/utils/wsr/ali_wsr.py:11 | below 100 hours a timecode is exactly 12 characters; from 100 hours on it is longer, because the hour field is padded but never truncated |
| AliWsr.TimecodeFields | backend/utils/wsr/ali_wsr.py:11 | in `H:MM:SS,mmm` the separators and fields sit at fixed offsets from the end |
| AliWsr.ReadTimecode | backend/utils/wsr/ali_wsr.py:8-11 | a timecode made of digit fields, with minutes and seconds below 60, reads as hours*3600000 + minutes*60000 + seconds*1000 + millis |
| AliWsr.Chunks | backend/utils/wsr/ali_wsr.py:41-88 | the segmentation of a sentence's words: a chunk closes at a split punctuation mark, or at 3000 ms or more with two or more words; the remaining words form the last chunk; its properties are `ChunksPartitionWords`, `ChunksCloseRule`, `ChunkStartsLinked` and `ChunksTimesOrdered` |
| AliWsr.ChunkCue | backend/utils/wsr/ali_wsr.py:70-83 | the cue of one chunk: its stripped text and start and end times, or none when the text is empty; its property is `ChunkCueShape` |
| AliWsr.WordSrt | backend/utils/wsr/ali_wsr.py:13-107 | the specification of `json_to_word_srt`: `""` for a non-list, else the newline-joined four-line blocks of every sentence's cues, numbered from 1; its properties are `RenderLinesShape`, `CueIndicesContiguous` and `SentenceTextPreserved` |
| AliWsr.JsonToWordSrt | backend/utils/wsr/ali_wsr.py:13-107 | the converter, loop by loop, returns exactly `WordSrt(data)`: "" for a non-list argument, otherwise the newline-joined four-line blocks of the cues of every sentence's chunks, numbered from 1 |
| AliWsr.EmitChunk | backend/utils/wsr/ali_wsr.py:70-88 | closing a chunk appends the four lines of its cue (index, `start --> end`, stripped text, blank) and bumps the counter exactly when the stripped text is non-empty; the new state is the spec function's `CloseChunk` |
| AliWsr.RenderOneMore | backend/utils/wsr/ali_wsr.py:79-82 | emitting one more cue appends exactly its four lines |
| AliWsr.BlocksAppend | backend/utils/wsr/ali_wsr.py:79-82 | the lines of two cue runs are the lines of the first followed by those of the second |
| AliWsr.CuesFromCons | backend/utils/wsr/ali_wsr.py:75-83 | the cues of a chunk sequence are the first chunk's cue (if any), then the rest's cues numbered on from there |
| AliWsr.CloseChunkAppends | backend/utils/wsr/ali_wsr.py:70-88 | closing the running chunk emits exactly the cue of that one chunk |
| AliWsr.AppendFirst | backend/utils/wsr/ali_wsr.py:70-103 | emitting one chunk and then the rest is emitting them all, numbers included |
| AliWsr.RunWordsMatchesChunks | backend/utils/wsr/ali_wsr.py:41-103 | the word loop followed by the end-of-sentence flush emits exactly the cues of the chunks the declarative segmentation `Chunks` gives |
| AliWsr.SentenceEmitsChunks | backend/utils/wsr/ali_wsr.py:31-103 | one turn of the sentence loop emits the cues of that sentence's chunks, and a sentence without words emits nothing |
| AliWsr.AllCuesCons | backend/utils/wsr/ali_wsr.py:31-103 | a sentence list's cues are the first sentence's, then the rest's, numbered on |
| AliWsr.AppendCuesTwice | backend/utils/wsr/ali_wsr.py:79-83 | emitting two cue runs one after the other adds their concatenation and advances the counter by its length |
| AliWsr.StreamMatchesCues | backend/utils/wsr/ali_wsr.py:31-103 | across all sentences the state machine's final output is the start output plus `AllCues`, with the counter advanced by their number |
| AliWsr.ChunksPartitionWords | backend/utils/wsr/ali_wsr.py:41-61 | every word lands in exactly one chunk, in order, after the words already pending: no word is dropped or duplicated |
| AliWsr.RawTextAppend | backend/utils/wsr/ali_wsr.py:72 | the text-plus-punctuation of two word runs is that of the first followed by the second |
| AliWsr.ChunksRawTextFlatten | backend/utils/wsr/ali_wsr.py:72 | the concatenated untrimmed chunk texts are the text of all the chunks' words |
| AliWsr.SentenceTextPreserved | backend/utils/wsr/ali_wsr.py:41-103 | the untrimmed chunk texts of a sentence, joined, are exactly its words' text and punctuation in order |
| AliWsr.ChunksCloseRule | backend/utils/wsr/ali_wsr.py:63-68 | a chunk closes at its first word whose punctuation is in the split set, or at which the chunk spans at least 3000 ms with two or more words, and at no earlier word |
| AliWsr.ChunkStartsLinked | backend/utils/wsr/ali_wsr.py:38-88 | the first chunk starts at the first word's begin time and each later chunk at the end time of the word that closed the previous one |
| AliWsr.ChunksTimesOrdered | backend/utils/wsr/ali_wsr.py:39-88 | with end times that never decrease and a start no later than any of them, every chunk starts no later than its last word ends |
| AliWsr.SentenceChunksOrdered | backend/utils/wsr/ali_wsr.py:39-88 | for well-timed words every cue of a sentence has start <= end |
| AliWsr.FirstBeginBounds | backend/utils/wsr/ali_wsr.py:39 | in well-timed words the first begin time is at most every end time, and end times never decrease |
| AliWsr.ChunkCueShape | backend/utils/wsr/ali_wsr.py:75-83 | a chunk gives at most one cue, numbered with the current counter and with non-empty text |
| AliWsr.NumberedAppend | backend/utils/wsr/ali_wsr.py:83 | two contiguously numbered cue runs, the second starting where the first ended, make one contiguous run |
| AliWsr.CuesFromShape | backend/utils/wsr/ali_wsr.py:70-103 | a sentence's chunks give at most one cue each, numbered contiguously, none with empty text |
| AliWsr.CueIndicesContiguous | backend/utils/wsr/ali_wsr.py:19-103 | over all sentences the cues are numbered `next`, `next+1`, ... with no gap, and none has empty text |
| AliWsr.BlocksLength | backend/utils/wsr/ali_wsr.py:79-82 | with four lines per cue, the document has four lines per cue |
| AliWsr.BlocksAt | backend/utils/wsr/ali_wsr.py:79-82 | the lines of cue `i` sit at positions `4i` to `4i+3` |
| AliWsr.RenderLinesShape | backend/utils/wsr/ali_wsr.py:79-105 | the SRT lines are exactly four per cue, in cue order: index, `start --> end`, text, blank |
| AliWsr.EmptySentenceAddsNothing | backend/utils/wsr/ali_wsr.py:34-35 | removing a sentence without words changes neither the cues nor their numbers |
| AliWsr.PunctuationExample | backend/utils/wsr/ali_wsr.py:63-88 | "Hello," then "world." give two cues; the second starts where the first ended |
| AliWsr.IsSplitPunctuation | backend/utils/wsr/ali_wsr.py:22 | the punctuation is one of the strings of `SPLIT_PUNCTUATION`, each a single character of the set; how it closes a chunk is `ChunksCloseRule` |
| AliWsr.ShouldSplit | backend/utils/wsr/ali_wsr.py:64-68 | the split test after a word is appended: split punctuation, or at least 3000 ms since the chunk started with two or more words; its property is `ChunksCloseRule` |
| AliWsr.ChunkText | backend/utils/wsr/ali_wsr.py:72 | a chunk's words' text and punctuation, concatenated and stripped of Python whitespace; its properties are `StripShape` and `SentenceTextPreserved` |
| AliWsr.CueLines | backend/utils/wsr/ali_wsr.py:79-82 | the four lines of one cue: its number, `start --> end`, its text and a blank line; their positions in the document are `BlocksAt` and `RenderLinesShape` |
| AliWsr.CloseChunk | backend/utils/wsr/ali_wsr.py:70-103 | closing a non-empty chunk emits a cue numbered by the counter and moves the counter on exactly when its stripped text is non-empty, and empties the chunk; its property is `CloseChunkAppends` |
| AliWsr.StepWord | backend/utils/wsr/ali_wsr.py:41-88 | one turn of the word loop: append the word, and on a split close the chunk and start the next one at this word's end time; its property is `RunWordsMatchesChunks` |
| AliWsr.RunWords | backend/utils/wsr/ali_wsr.py:41-88 | the word loop of one sentence; with the final flush it emits the cues of `Chunks` (`RunWordsMatchesChunks`) |
| AliWsr.RunSentence | backend/utils/wsr/ali_wsr.py:31-103 | one turn of the sentence loop: a sentence without words is skipped, otherwise its words run from the first word's begin time and the rest is flushed; its property is `SentenceEmitsChunks` |
| AliWsr.RunSentences | backend/utils/wsr/ali_wsr.py:31-103 | the sentence loop; its result is the start output plus `AllCues` (`StreamMatchesCues`) |
| Timestamps.PyInt | backend/video/views/note_generation.py:168-173 | `int()` of a string: an optionally signed digit run inside whitespace, or none when it raises |
| Timestamps.PyFloat | backend/video/views/note_generation.py:168-175 | `float()` of a string: an optionally signed decimal literal inside whitespace, or none when it raises |
| Timestamps.TimestampToSeconds | backend/video/views/note_generation.py:165-175 | `timestamp_to_seconds`: three fields as h, m, s, two as m, s, else the whole string by `float`, none when it raises; its properties are the rows below |
| Timestamps.Normalize | backend/video/views/note_generation.py:428-429 | the `00:` completion of a timestamp with exactly one colon; its properties are `NormalizePreservesSeconds` and `NormalizeIdempotent` |
| Timestamps.ThreeFields | backend/video/views/note_generation.py:165-170 | three colon-free fields read by `int`, `int`, `float` as h, m, s give h*3600 + m*60 + s |
| Timestamps.ThreeWholeFields | backend/video/views/note_generation.py:168-170 | the same with a whole seconds field, as one integer sum |
| Timestamps.TwoFields | backend/video/views/note_generation.py:171-173 | two colon-free fields read as m and s give m*60 + s |
| Timestamps.NoColonIsSeconds | backend/video/views/note_generation.py:174-175 | without a colon the whole string is read by `float` |
| Timestamps.TooManyColons | backend/video/views/note_generation.py:174-175 | three or more colons always raise, because `float` rejects the whole string |
| Timestamps.ColonIsNoNumber | backend/video/views/note_generation.py:175 | a string containing a colon is never a float literal |
| Timestamps.DigitsRead | backend/video/views/note_generation.py:170 | a non-empty digit run is read by `int` and `float` as its value |
| Timestamps.ZeroPadRead | backend/video/views/note_generation.py:170 | a zero-padded number reads back as that number |
| Timestamps.NormalizePreservesSeconds | backend/video/views/note_generation.py:428-431 | completing a one-colon timestamp with `00:` never changes its seconds (nor whether it raises) |
| Timestamps.NormalizeIdempotent | backend/video/views/note_generation.py:458-459 | a completed timestamp never has exactly one colon, so completing twice is completing once |
| Timestamps.OneColonPieces | backend/video/views/note_generation.py:428-429 | a one-colon timestamp is two colon-free pieces around the colon |
| Timestamps.CompletedTwoFields | backend/video/views/note_generation.py:168-173 | a zero hour field in front of two fields reads as the two fields alone |
| Timestamps.DefaultTimestampIsZero | backend/video/views/note_generation.py:321-322 | the default `00:00:00` reads as 0 seconds |
| FrameExtraction.Duration | backend/video/views/note_generation.py:112-114 | the length of the video, the truncated frame count over the frame rate, 0 when the rate is not positive |
| FrameExtraction.StartTime | backend/video/views/note_generation.py:116-118 | the start time is the request when it lies in `[0, duration - 0.1]`, `duration - 0.1` when the request is above that and that is not negative, and 0 when the request or `duration - 0.1` is negative |
| FrameExtraction.TruncBounds | backend/video/views/note_generation.py:125 | `int()` truncates toward zero on both signs |
| FrameExtraction.TimeAdvances | backend/video/views/note_generation.py:117-147 | every attempt that moves on advances the time by exactly `retry_offset`, from the clamped start |
| FrameExtraction.AttemptsStopRule | backend/video/views/note_generation.py:123-144 | the attempts stop at the first sharp frame or after `max_retries`, whichever comes first |
| FrameExtraction.AttemptsBound | backend/video/views/note_generation.py:123-147 | at most `max_retries` attempts; none before the last was sharp; stopping early means the last was sharp |
| FrameExtraction.StepKept | backend/video/views/note_generation.py:128-140 | one attempt keeps the kept frame the first one with the strictly greatest positive variance so far |
| FrameExtraction.SearchKept | backend/video/views/note_generation.py:123-147 | that description holds of the frame kept when the loop ends |
| FrameExtraction.SearchFrom | backend/video/views/note_generation.py:120-147 | the retry loop from attempt `k`: the kept frame, up to `max_retries` attempts, stopping at a sharp frame; its properties are `AttemptsStopRule`, `AttemptsBound`, `SearchKept` |
| FrameExtraction.Extract | backend/video/views/note_generation.py:95-162 | the specification of `extract_frame`: the open check, the clamp, the loop and the final raise; its property is `ExtractCharacterised` |
| FrameExtraction.ExtractCharacterised | backend/video/views/note_generation.py:107-162 | the first error exactly when the video does not open; the second exactly when no attempt made decoded a frame with variance > 0; otherwise the frame with the greatest variance, the earliest on a tie |
| FrameExtraction.BestUnique | backend/video/views/note_generation.py:138-140 | the description of the kept frame admits only one frame |
| FrameExtraction.UnreadableVideo | backend/video/views/note_generation.py:128-152 | an open video whose frames cannot be read raises the second error |
| FrameExtraction.SharpFirstFrame | backend/video/views/note_generation.py:99-144 | with the default parameters a sharp frame at the start is taken after one attempt |
| FrameExtraction.ReadAt | backend/video/views/note_generation.py:125-128 | the frame read at the loop's current time is the one attempt `k` reads |
| FrameExtraction.SearchStep | backend/video/views/note_generation.py:128-147 | one attempt: a failed read moves on, a sharp frame ends the search, any other frame is compared and the search moves on |
| FrameExtraction.SearchFrames | backend/video/views/note_generation.py:120-147 | the retry loop returns the frame `SearchFrom` keeps |
| FrameExtraction.ExtractFrame | backend/video/views/note_generation.py:95-162 | `extract_frame` returns exactly `Extract`: the open check, the clamp, the loop and the final raise |
| FrameExtraction.Trunc | backend/video/views/note_generation.py:125 | Python's `int()` on a float, truncation toward zero; its property is `TruncBounds` |
| FrameExtraction.TimeAt | backend/video/views/note_generation.py:117-130 | the time of attempt `k`: the clamped start plus `k` times `retry_offset`; its property is `TimeAdvances` |
| FrameExtraction.PositionAt | backend/video/views/note_generation.py:125 | the frame position of attempt `k`, `int(current_time * fps)`; `ReadAt` ties it to the loop's current time |
| MarkerResolution.Lookup | backend/video/views/note_generation.py:415-442 | the specification of `_get_frame_for_timestamp` on a cache value: a hit returns the stored path; a miss completes the timestamp, stores `""` when it does not parse, else makes one logged `extract_frame` call and stores its path; its properties are the lemmas below |
| MarkerResolution.LookupGrowth | backend/video/views/note_generation.py:423-441 | a lookup keeps every key and every logged call and makes at most one new `extract_frame` call |
| MarkerResolution.LookupKeepsValid | backend/video/views/note_generation.py:423-441 | a lookup keeps every key a completed timestamp and every stored path empty or the result of a logged call for its key; the path it returns is of the same kind |
| MarkerResolution.OneColonNeverCached | backend/video/views/note_generation.py:423-437 | a timestamp with exactly one colon is never a key of the cache, so its raw-key lookup always misses |
| MarkerResolution.OneColonAlwaysExtracts | backend/video/views/note_generation.py:423-437 | a one-colon timestamp that parses makes a new `extract_frame` call at every lookup and returns what that call gives |
| MarkerResolution.OneColonTwice | backend/video/views/note_generation.py:423-437 | looking the same one-colon timestamp up twice makes two calls, and the second path is the second call's |
| MarkerResolution.CompletedLookupOnce | backend/video/views/note_generation.py:423-424 | a completed timestamp looked up a second time gives the same path and changes nothing |
| MarkerResolution.UnopenedVideoNoFrame | backend/video/views/note_generation.py:107-110 | when `extract` is `extract_frame` on a video that does not open, every lookup on a valid cache gives `""` |
| MarkerResolution.FrameCache.constructor | backend/video/views/note_generation.py:318 | the request starts with an empty cache and no extractions |
| MarkerResolution.FrameCache.GetFrame | backend/video/views/note_generation.py:415-442 | returns the path `Lookup` returns and leaves the cache `Lookup` leaves, keeping the cache valid |
| MarkerResolution.FrameCache.MarkerPiece | backend/video/views/note_generation.py:455-470 | the callback returns the piece `Replacement` returns, the image block `\n\n![ts](url)\n\n` or the marker as written, and leaves the cache it leaves |
| MarkerResolution.FrameCache.ScanStep | backend/video/views/note_generation.py:472 | one step of the scan gives the position, text and cache of `ScanAt` |
| MarkerResolution.FrameCache.ProcessContent | backend/video/views/note_generation.py:444-472 | returns the text `Rewrite` returns and leaves the cache it leaves |
| MarkerResolution.MatchAt | backend/video/views/note_generation.py:453 | the backtracking matcher of the marker pattern at one position: the body length of the match, or none; its properties are `ShapeAtBody` and `MatchAtCharacterised` |
| MarkerResolution.MatchAtBound | backend/video/views/note_generation.py:453 | a match ends inside the text |
| MarkerResolution.ShapeAtBody | backend/video/views/note_generation.py:453 | each alternative of the pattern matches exactly its `[d{1,2}:dd(:dd)?]` shape |
| MarkerResolution.MatchAtCharacterised | backend/video/views/note_generation.py:453 | the matcher finds a marker at a position exactly when one is there, so the order of the alternatives does not matter |
| MarkerResolution.Replacement | backend/video/views/note_generation.py:455-470 | the specification of `replace_timestamp`: complete the body, look it up, and give the image block when the path is set and exists, otherwise the marker as written, with the cache the lookup leaves |
| MarkerResolution.Substitute | backend/video/views/note_generation.py:472 | the specification of `re.sub` with a callback that threads the cache: left to right, every match replaced, every other character copied; its properties are the lemmas below |
| MarkerResolution.Rewrite | backend/video/views/note_generation.py:444-472 | `_process_content_timestamps` on a cache value: `Substitute` from the start with `replace_timestamp` |
| MarkerResolution.ScanAt | backend/video/views/note_generation.py:472 | one step of the `re.sub` scan: a match replaced by the callback's piece, or one character copied |
| MarkerResolution.ScanAtContinues | backend/video/views/note_generation.py:472 | a step moves forward inside the text, and scanning on from the step's result is scanning from where it started |
| MarkerResolution.UnresolvedKept | backend/video/views/note_generation.py:469-470 | a marker without an existing frame is left as it was written |
| MarkerResolution.KeptMarker | backend/video/views/note_generation.py:470 | a marker the callback gives back as written becomes its own text again |
| MarkerResolution.KeptIdentity | backend/video/views/note_generation.py:472 | a callback that gives every marker back as written leaves the text unchanged, whatever it does to the cache |
| MarkerResolution.NothingResolvedIdentity | backend/video/views/note_generation.py:444-472 | when no frame file exists, the content is returned unchanged |
| MarkerResolution.NoMarkerIdentity | backend/video/views/note_generation.py:472 | text without `[` is never touched, and the cache is left alone |
| MarkerResolution.SubstituteKeepsValid | backend/video/views/note_generation.py:472 | a callback that keeps the cache valid and only adds to it makes a scan that does |
| MarkerResolution.RewriteKeepsValid | backend/video/views/note_generation.py:444-472 | rewriting the content keeps the cache valid, keeps every key and every logged call |
| MarkerResolution.RepeatedMarkerOnce | backend/video/views/note_generation.py:455-462 | the same marker a second time gives the same piece and leaves the cache as it was |
| MarkerResolution.RepeatedMatch | backend/video/views/note_generation.py:472 | a scan over a marker written twice, with a callback that repeats its first answer, gives the piece twice |
| MarkerResolution.RepeatedMarkerInText | backend/video/views/note_generation.py:444-472 | content that is one marker written twice in a row is replaced by the same piece twice, with at most one `extract_frame` call for both; markers repeated anywhere in the content are covered by `RewriteCallsWithinNewKeys` |
| MarkerResolution.ExtractsFrom | backend/video/views/note_generation.py:432-436 | `extract` is `extract_frame` with its default parameters on a given video: a call gives a path exactly when the frame search finds a frame; used by `UnopenedVideoNoFrame` |
| MarkerResolution.ImageBlock | backend/video/views/note_generation.py:467-468 | the Markdown image `\n\n![ts](url)\n\n` a resolved marker becomes, with the completed timestamp as its alt text |
| MarkerResolution.Callback | backend/video/views/note_generation.py:455-470 | `replace_timestamp` as the function value handed to `re.sub`: `Replacement` on the cache it is given; its properties are `RewriteKeepsValid` and `RewriteCallsWithinNewKeys` |
| MarkerResolution.CompletedLookupWithinNewKeys | backend/video/views/note_generation.py:423-441 | a lookup of a completed timestamp either hits and changes nothing, or stores that timestamp as one new key with at most one `extract_frame` call |
| MarkerResolution.ReplacementWithinNewKeys | backend/video/views/note_generation.py:455-463 | the callback for a marker whose completed body is already a key leaves the cache as it is; otherwise it adds at most that key and makes at most one call |
| MarkerResolution.SubstituteWithinNewKeys | backend/video/views/note_generation.py:472 | a callback that never makes more calls than it adds keys makes a scan that does not either |
| MarkerResolution.RewriteCallsWithinNewKeys | backend/video/views/note_generation.py:444-472 | rewriting content keeps every key and logged call and makes no more `extract_frame` calls than it adds keys, so a marker whose completed timestamp is already a key, from earlier in the same content or from an earlier lookup, costs no call |
| SubtitleLookup.RFind | backend/video/views/note_generation.py:376-380 | the last index of a character, or -1 when it is absent |
| SubtitleLookup.RFindAt | backend/video/views/note_generation.py:376-380 | the last occurrence is the one reported |
| SubtitleLookup.SplitExtRoundTrip | backend/video/views/note_generation.py:376-380 | root plus extension is the path; the extension is empty or a dot with no further dot or slash |
| SubtitleLookup.SplitExtExamples | backend/video/views/note_generation.py:376-380 | `lecture.mp4`, a double extension, a dotfile and a dotted directory split as `splitext` splits them |
| SubtitleLookup.StripExt | backend/video/views/note_generation.py:376-380 | `os.path.splitext(p)[0]`; its properties are `SplitExtRoundTrip` and `SplitExtExamples` |
| SubtitleLookup.ExtStart | backend/video/views/note_generation.py:376-380 | where `posixpath.splitext` splits: the last dot of the last path component, unless only dots come before it there; its properties are `SplitExtRoundTrip` and `SplitExtExamples` |
| SubtitleLookup.PathJoin | backend/video/views/note_generation.py:389 | `os.path.join` on POSIX paths: an absolute file name replaces the directory, otherwise one slash goes between them |
| SubtitleLookup.BaseNames | backend/video/views/note_generation.py:369-380 | the decimal id, then the URL without its extension when the URL is set, then the name without its extension when the name is set, and nothing else |
| SubtitleLookup.CandidatesForShape | backend/video/views/note_generation.py:383-389 | one base name gives one path per remaining suffix, in suffix order |
| SubtitleLookup.CandidatesLength | backend/video/views/note_generation.py:386-389 | five candidates per base name |
| SubtitleLookup.CandidateAt | backend/video/views/note_generation.py:386-389 | candidate `5i+j` is base name `i` with suffix `j` and `.srt`, under the subtitle directory |
| SubtitleLookup.CandidateOrder | backend/video/views/note_generation.py:383-389 | every base name with every suffix, base names outermost |
| SubtitleLookup.Candidates | backend/video/views/note_generation.py:383-389 | every base name joined with every suffix and `.srt` under the subtitle directory; its properties are `CandidatesLength`, `CandidateAt` and `CandidateOrder` |
| SubtitleLookup.SubtitleCandidates | backend/video/views/note_generation.py:369-389 | the candidate paths of a video record in probing order; its property is `IdCandidatesFirst` |
| SubtitleLookup.IdCandidatesFirst | backend/video/views/note_generation.py:372-389 | the five id-based candidates come first, starting with `<id>.srt` |
| SubtitleLookup.FirstText | backend/video/views/note_generation.py:393-404 | the specification of the probing loop: the text of the first candidate that exists and reads, or `""`; its properties are the three rows below |
| SubtitleLookup.NoUsableText | backend/video/views/note_generation.py:403-404 | with no candidate that exists and reads, the text is "" |
| SubtitleLookup.FirstUsableText | backend/video/views/note_generation.py:393-401 | the text is that of the first candidate that exists and reads; an unreadable one is skipped |
| SubtitleLookup.FirstTextCharacterised | backend/video/views/note_generation.py:393-404 | both cases together: the first usable candidate's text, or "" |
| SubtitleLookup.GetSubtitleText | backend/video/views/note_generation.py:363-404 | the probing loop returns `FirstText` over the candidates in order |
| NoteBuilding.NoteOf | backend/video/views/note_generation.py:321-349 | one turn of the loop on a cache value: none when the timestamp raises, else the note, with the cover looked up first under the raw timestamp and the content rewritten on the cache that lookup leaves |
| NoteBuilding.BuildNotes | backend/video/views/note_generation.py:317-350 | the loop on a cache value: the notes in section order, each section on the cache the previous one left, or none when a timestamp raises |
| NoteBuilding.CoverUrl | backend/video/views/note_generation.py:339-342 | the cover URL is set exactly when the frame path is non-empty and exists, and is then that path's media URL |
| NoteBuilding.NoteExactlyWhenParses | backend/video/views/note_generation.py:321-322 | a section gives a note exactly when its timestamp parses, whatever the cache |
| NoteBuilding.NotesExactlyWhenAllParse | backend/video/views/note_generation.py:320-361 | there are notes exactly when every section's timestamp parses; otherwise the exception fails the request |
| NoteBuilding.NotesLength | backend/video/views/note_generation.py:320-350 | one note per section |
| NoteBuilding.BuildNotesStep | backend/video/views/note_generation.py:320-350 | the first note is built on the cache given and the rest on the cache it leaves |
| NoteBuilding.NoteAt | backend/video/views/note_generation.py:320-350 | note `i` is the one built from section `i` on the cache the loop holds when it gets there |
| NoteBuilding.NotesCharacterised | backend/video/views/note_generation.py:317-361 | notes exactly when all timestamps parse, and then one note per section, in order, each on the cache the loop holds at that section |
| NoteBuilding.NoteFields | backend/video/views/note_generation.py:321-349 | a note holds the timestamp (`00:00:00` when missing) and its seconds, the title ("" when missing), the content rewritten on the cache the cover lookup left, the cover frame's URL exactly when that frame exists, and `isEdited` false |
| NoteBuilding.MissingTimestampAtStart | backend/video/views/note_generation.py:321-322 | a section without a timestamp is placed at 0 seconds |
| NoteBuilding.NoteKeepsValid | backend/video/views/note_generation.py:326-334 | building a note keeps the cache valid and keeps every key and every logged call |
| NoteBuilding.SectionTimestamp | backend/video/views/note_generation.py:321 | `item.get("timestamp", "00:00:00")`; its property is `MissingTimestampAtStart` |
| NoteBuilding.NoteWithinNewKeys | backend/video/views/note_generation.py:321-334 | a note whose timestamp does not have exactly one colon makes, for its cover and its content together, no more `extract_frame` calls than it adds keys, so a timestamp an earlier section stored costs no call |
| NoteBuilding.ContinueStep | backend/video/views/note_generation.py:320-350 | one turn of the loop either fails the request or adds the section's note, going on with the cache that note left |
| NoteBuilding.MakeNote | backend/video/views/note_generation.py:321-349 | one turn of the loop gives the note `NoteOf` gives and leaves the cache it leaves; when the timestamp raises, nothing changes |
| NoteBuilding.GenerateNotes | backend/video/views/note_generation.py:317-350 | the loop returns `BuildNotes`, starting from an empty cache |
| TimeFunc.JsNumber | frontend/src/composables/TimeFunc.ts:2 | JavaScript's `Number()` of a string: a decimal literal inside whitespace, 0 for a blank string, none (NaN) otherwise |
| TimeFunc.HhmmssToSeconds | frontend/src/composables/TimeFunc.ts:1-7 | `hhmmssToSeconds`: the first three fields as hours, minutes and seconds, a missing or NaN field counting 0; its properties are the rows below |
| TimeFunc.SecondsToHHMMSS | frontend/src/composables/TimeFunc.ts:9-14 | `secondsToHHMMSS`: floored hours, minutes and seconds, each padded to two digits; its properties are `ClockFields`, `RoundTrip` and `RenderedWidth` |
| TimeFunc.ThreeJsFields | frontend/src/composables/TimeFunc.ts:1-7 | three colon-free fields read by `Number` as h, m, s give h*3600 + m*60 + s |
| TimeFunc.SingleFieldIsHours | frontend/src/composables/TimeFunc.ts:1-7 | without a colon the whole string is the hour field |
| TimeFunc.ThreeFieldsOrZero | frontend/src/composables/TimeFunc.ts:1-7 | any three colon-free fields a, b, c give `Number(a)*3600 + Number(b)*60 + Number(c)`, where each field that is no number counts as 0 instead of making the sum NaN |
| TimeFunc.TwoFieldsAreHoursMinutes | frontend/src/composables/TimeFunc.ts:1-7 | two fields are hours and minutes |
| TimeFunc.JsDigitsRead | frontend/src/composables/TimeFunc.ts:2 | `Number` reads a non-empty digit run as its value |
| TimeFunc.PaddedFieldRead | frontend/src/composables/TimeFunc.ts:2-13 | a padded non-negative field reads back as its number and holds no colon |
| TimeFunc.ClockFields | frontend/src/composables/TimeFunc.ts:9-12 | for a non-negative input the fields are floor(x)/3600, (floor(x) mod 3600)/60 and floor(x) mod 60 |
| TimeFunc.HoursMinutesSeconds | frontend/src/composables/TimeFunc.ts:10-12 | minutes and seconds are below 60, and the three fields add back up to the whole seconds |
| TimeFunc.ClockOfNonNegative | frontend/src/composables/TimeFunc.ts:9-12 | for a non-negative input, whole hours, minutes and seconds below 60 that sum to floor(x) |
| TimeFunc.DivideWhole | frontend/src/composables/TimeFunc.ts:10-12 | for a non-negative input, `Math.floor(x / d)` and `x % d` agree with whole-number division of floor(x) |
| TimeFunc.RoundTrip | frontend/src/composables/TimeFunc.ts:1-14 | reading back a rendered non-negative time gives its whole seconds, so a whole number of seconds round-trips |
| TimeFunc.RenderedWidth | frontend/src/composables/TimeFunc.ts:13 | below 100 hours the rendering is exactly `HH:MM:SS`; from 100 hours on the hour field is longer |
| TimeFunc.BackEndReadsRendering | frontend/src/composables/TimeFunc.ts:9-14 | the back end's `timestamp_to_seconds` reads every rendered non-negative time as the same whole seconds the front end reads |
| TimeFunc.PaddedFieldBoth | frontend/src/composables/TimeFunc.ts:13 | a padded field reads the same under `Number`, `int` and `float` |
| TimeFunc.AgreeOnFields | frontend/src/composables/TimeFunc.ts:1-7 | three fields that both parsers read alike give the same seconds for both |
| TimeFunc.NegativeInput | frontend/src/composables/TimeFunc.ts:10-12 | a negative input keeps negative fields: -30 s gives hours -1, minutes -1, seconds -30 |
| TimeFunc.Field | frontend/src/composables/TimeFunc.ts:3-5 | the fallback to 0 of lines 3-5: a missing field and a NaN field both count as 0; its property is `ThreeFieldsOrZero` |
| TimeFunc.JsRem | frontend/src/composables/TimeFunc.ts:11-12 | JavaScript's `%` for a positive divisor, with the sign of the dividend; its properties are `DivideWhole` and `NegativeInput` |
| TimeFunc.ClockOf | frontend/src/composables/TimeFunc.ts:10-12 | the hours, minutes and seconds `secondsToHHMMSS` renders; its properties are `ClockFields`, `ClockOfNonNegative` and `NegativeInput` |
| TimeFunc.Pad2 | frontend/src/composables/TimeFunc.ts:13 | `n.toString().padStart(2, '0')`; its properties are `PaddedFieldRead` and `RenderedWidth` |
| Text.Split | backend/video/views/note_generation.py:167 | `split` on one character gives at least one piece |
| Text.SplitLength | backend/video/views/note_generation.py:167-168 | one more piece than there are separators |
| Text.SplitAtSeparator | backend/video/views/note_generation.py:167 | the piece before the first separator comes first |
| Text.StripShape | backend/utils/wsr/ali_wsr.py:72 | `strip` keeps a contiguous middle piece with no whitespace at its ends, and is empty exactly when everything is whitespace |
| Text.ZeroPadValue | backend/utils/wsr/ali_wsr.py:11 | a zero-padded number reads back as that number |
| Text.ZeroPadLength | backend/utils/wsr/ali_wsr.py:11 | a number below 10^width padded to `width` digits is exactly `width` long |
| Text.NatToDecimalLong | backend/utils/wsr/ali_wsr.py:11 | a number at least 10^k needs more than k digits, so padding never truncates |
| Text.DecimalValueOfNatToDecimal | backend/video/views/note_generation.py:372 | `str(n)` is all digits and reads back as `n` |
| Text.Strip | backend/utils/wsr/ali_wsr.py:72 | `str.strip()` (and `String.prototype.trim` with JavaScript whitespace); its property is `StripShape` |
| Text.Join | backend/utils/wsr/ali_wsr.py:105 | `sep.join(parts)`: the parts with the separator between neighbours only |
| Text.PyZeroPad | backend/utils/wsr/ali_wsr.py:11 | `format(n, "02")` and `format(n, "03")`: the sign first, counting toward the width, then the zero-padded digits; on a non-negative number it is `ZeroPad`, whose properties are `ZeroPadValue`, `ZeroPadLength` and `NatToDecimalLong` |
| Text.NatToDecimal | backend/utils/wsr/ali_wsr.py:79 | `str(n)` and `f"{counter}"` of a natural number: at least one digit; its property is `DecimalValueOfNatToDecimal` |
| Text.SignedInteger | backend/video/views/note_generation.py:170 | the literal `int()` accepts once whitespace is stripped: an optional sign and at least one digit; its property is `DigitsAsLiteral` |
| Text.SignedDecimal | backend/video/views/note_generation.py:170 | the literal `float()` and `Number()` accept once whitespace is stripped: an optional sign, digits and an optional fraction; its property is `DigitsAsLiteral` |
| Text.DigitsAsLiteral | backend/video/views/note_generation.py:170 | a non-empty digit string reads as its value under both literal grammars |

## Left out

- Video decoding, the Laplacian variance and the JPEG write are OpenCV calls. The model takes
  them as parameters: a `Video` holds `isOpened`, `fps`, the frame count and a `frameAt`
  oracle that gives a frame's variance or no frame.
- `os.makedirs`, the `uuid` file name and the output path of `extract_frame` are left out. So
  are the `uuid` note id and the release of the capture. A path is only an opaque string that
  `extract` returns.
- FrameExtraction: `fps`, times and variances are exact reals, not IEEE doubles, so rounding
  in `current_time * fps` and in the repeated `+= retry_offset` is not modelled.
- Timestamps, TimeFunc: `int()`, `float()` and `Number()` are modelled on one grammar: an
  optional sign, ASCII digits and an optional fraction, with surrounding whitespace removed.
  Exponents, `inf`/`nan`, underscores, hexadecimal literals, non-ASCII digits and JavaScript's
  exponent rendering of numbers from 1e21 on are left out.
- MarkerResolution.MatchAt: `\d` is modelled as an ASCII digit; Python also matches other
  Unicode digits.
- MarkerResolution.Replacement: `match.group(0)` is modelled as `"[" + body + "]"`, which is
  what the pattern matched.
- `fileExists`, `read`, `mediaUrl` (`relpath` plus the `/media/` prefix) and the subtitle
  directory are parameters of the model.
- `extract` in `Env` is `extract_frame` on the request's video. `None` stands for any
  exception it raises. It takes the call's number as well as the seconds, because every call
  writes its frame under a new random name. The cache logs the seconds of every call, so a
  stored path is tied to the call that made it. `MarkerResolution.ExtractsFrom` ties whether
  a call succeeds to `FrameExtraction.Extract` with the default parameters.
- SubtitleLookup: paths are POSIX paths, and a missing `url` or `name` is the empty string.
- AliWsr: the split punctuation is a set of characters; every member of the source's set is
  one character. Only a one-character punctuation string can be in it.
- AliWsr: `words[0]["begin_time"]` raises `KeyError` when the key is missing. The model gives
  every word a begin time (the defaults of lines 42-45 applied), so that error path is not
  modelled.
- AliWsr: the `bytes` decoding of lines 47-54 is left out: text is a string already.
- The `[DEBUG]` prints, the HTTP request handling and the language-model call are left out.
  So are the settings lookups, `_get_video_path`, `transcribe_audio_alibaba` and the JSON
  response wrapping of `post`.
- NoteBuilding: every section is a record whose keys may be missing. Sections that are not
  dictionaries, and non-string values, are not modelled.
- TimeFunc.TwoFieldsAreHoursMinutes: states the front-end reading of two fields only. The back
  end's minutes/seconds reading is `Timestamps.TwoFields`.
- TimeFunc: inputs are reals, so `NaN` and infinite inputs to `secondsToHHMMSS` are not
  modelled.
- Timestamps, TimeFunc: the results of `float()` and `Number()`, and the arithmetic on them,
  are exact reals. IEEE rounding is not modelled.
- AliWsr: the error paths of malformed input are not modelled. A sentence or a word that is
  not a dictionary makes `.get` raise `AttributeError`. A `"text": null` makes the
  concatenation at line 72 raise `TypeError`. The model's words and sentences are records
  whose text is always a string.
