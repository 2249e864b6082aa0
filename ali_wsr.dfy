/** Word-timing to SRT conversion (backend/utils/wsr/ali_wsr.py): the millisecond timecode
    format and the streaming segmenter that cuts each recognised sentence into short cues. */
module AliWsr {
  import opened Wrappers
  import opened Text

  /** One recognised word, with the defaults the source applies to missing keys already in
      place (text "", punctuation "" also for a null one, times 0). */
  datatype Word = Word(text: string, punctuation: string, beginTime: int, endTime: int)

  /** One recognised utterance; a sentence without a "words" key has no words. */
  datatype Sentence = Sentence(words: seq<Word>)

  /** The argument of the converter: a list of sentences, or any other JSON value. */
  datatype Payload = SentenceList(sentences: seq<Sentence>) | NotAList

  /** A closed chunk: the time it started at and the words it holds, in order. */
  datatype Chunk = Chunk(start: int, words: seq<Word>)

  /** One subtitle entry. */
  datatype Cue = Cue(index: nat, start: int, end: int, text: string)

  /** The characters of the split set; every member of the source's set is one character. */
  const SplitPunctuation: set<char> :=
    {'。', '，', '！', '？', '；', '：', '、', '.', ',', '!', '?', ';', ':'}

  /** The punctuation is one of the strings of the split set. */
  predicate IsSplitPunctuation(p: string) {
    |p| == 1 && p[0] in SplitPunctuation
  }

  const MaxDurationMs: int := 3000

  // ---------------------------------------------------------------------------
  // ms_to_srt_time

  /** `HH:MM:SS,mmm` for a millisecond count, by floor division as Python's `divmod` does;
      hours are padded to two digits and never cut. */
  function MsToSrtTime(ms: int): string {
    var seconds, millis := ms / 1000, ms % 1000;
    var minutes, secs := seconds / 60, seconds % 60;
    var hours, mins := minutes / 60, minutes % 60;
    PyZeroPad(hours, 2) + ":" + PyZeroPad(mins, 2) + ":" + PyZeroPad(secs, 2) + "," + PyZeroPad(millis, 3)
  }

  /** The millisecond count of hours, minutes, seconds and milliseconds. */
  function TimecodeMillis(hours: int, minutes: int, seconds: int, millis: int): int {
    ((hours * 60 + minutes) * 60 + seconds) * 1000 + millis
  }

  /** Reads a timecode `H…H:MM:SS,mmm` (at least two hour digits, minutes and seconds below
      60) back into milliseconds; anything else is None. */
  function SrtTimeValue(t: string): Option<int> {
    if |t| < 12 then None
    else
      var n := |t|;
      var hh, mm, ss, mmm := t[..n - 10], t[n - 9..n - 7], t[n - 6..n - 4], t[n - 3..];
      if t[n - 10] == ':' && t[n - 7] == ':' && t[n - 4] == ','
         && AllDigits(hh) && AllDigits(mm) && AllDigits(ss) && AllDigits(mmm)
         && DecimalValue(mm) < 60 && DecimalValue(ss) < 60
      then Some(TimecodeMillis(DecimalValue(hh), DecimalValue(mm), DecimalValue(ss), DecimalValue(mmm)))
      else None
  }

  /** The timecode of a non-negative millisecond count reads back as that count: hours,
      minutes, seconds and milliseconds sit in fields of width at least 2, exactly 2,
      exactly 2 and exactly 3, with minutes and seconds below 60. */
  lemma SrtTimeRoundTrip(ms: nat)
    ensures SrtTimeValue(MsToSrtTime(ms)) == Some(ms)
  {
    var seconds, millis := ms / 1000, ms % 1000;
    var minutes, secs := seconds / 60, seconds % 60;
    var hours, mins := minutes / 60, minutes % 60;
    var a, b, c, d := ZeroPad(hours, 2), ZeroPad(mins, 2), ZeroPad(secs, 2), ZeroPad(millis, 3);
    ZeroPadLength(mins, 2);
    ZeroPadLength(secs, 2);
    ZeroPadLength(millis, 3);
    ZeroPadValue(hours, 2);
    ZeroPadValue(mins, 2);
    ZeroPadValue(secs, 2);
    ZeroPadValue(millis, 3);
    assert |a| >= 2;
    var t := a + ":" + b + ":" + c + "," + d;
    TimecodeFields(a, b, c, d);
    ReadTimecode(t, a, b, c, d);
    assert t == MsToSrtTime(ms);
  }

  /** Where the four fields of a timecode sit, counted from its end. */
  lemma TimecodeFields(a: string, b: string, c: string, d: string)
    requires |a| >= 2 && |b| == 2 && |c| == 2 && |d| == 3
    ensures var t := a + ":" + b + ":" + c + "," + d; var n := |t|;
      && n >= 12 && t[n - 10] == ':' && t[n - 7] == ':' && t[n - 4] == ','
      && t[..n - 10] == a && t[n - 9..n - 7] == b && t[n - 6..n - 4] == c && t[n - 3..] == d
  {
  }

  /** A timecode whose fields are the given digit strings reads as their value. */
  lemma ReadTimecode(t: string, a: string, b: string, c: string, d: string)
    requires |t| >= 12 && t[|t| - 10] == ':' && t[|t| - 7] == ':' && t[|t| - 4] == ','
    requires t[..|t| - 10] == a && t[|t| - 9..|t| - 7] == b && t[|t| - 6..|t| - 4] == c && t[|t| - 3..] == d
    requires AllDigits(a) && AllDigits(b) && AllDigits(c) && AllDigits(d)
    requires DecimalValue(b) < 60 && DecimalValue(c) < 60
    ensures SrtTimeValue(t)
      == Some(TimecodeMillis(DecimalValue(a), DecimalValue(b), DecimalValue(c), DecimalValue(d)))
  {
  }

  /** Below 100 hours a timecode is exactly 12 characters; from 100 hours on the hour field
      grows instead of wrapping. */
  lemma SrtTimeWidth(ms: nat)
    ensures ms < 360000000 ==> |MsToSrtTime(ms)| == 12
    ensures ms >= 360000000 ==> |MsToSrtTime(ms)| >= 13
  {
    var hours := ms / 1000 / 60 / 60;
    ZeroPadLength(ms / 1000 / 60 % 60, 2);
    ZeroPadLength(ms / 1000 % 60, 2);
    ZeroPadLength(ms % 1000, 3);
    if ms < 360000000 {
      assert hours < Pow10(2);
      ZeroPadLength(hours, 2);
    } else {
      assert hours >= Pow10(2);
      NatToDecimalLong(hours, 2);
    }
  }

  // ---------------------------------------------------------------------------
  // Segmentation, as functions

  /** The decision taken after appending `w` to a chunk that started at `chunkStart` and now
      holds `chunkSize` words. */
  predicate ShouldSplit(w: Word, chunkStart: int, chunkSize: nat) {
    IsSplitPunctuation(w.punctuation) || (w.endTime - chunkStart >= MaxDurationMs && chunkSize >= 2)
  }

  /** The chunks the segmenter closes while consuming `words`, given the chunk `pending`
      under way since `start`; what is pending at the end is flushed as a last chunk. */
  function Chunks(words: seq<Word>, start: int, pending: seq<Word>): seq<Chunk>
    decreases |words|
  {
    if words == [] then
      if pending == [] then [] else [Chunk(start, pending)]
    else
      var current := pending + [words[0]];
      if ShouldSplit(words[0], start, |current|) then
        [Chunk(start, current)] + Chunks(words[1..], words[0].endTime, [])
      else
        Chunks(words[1..], start, current)
  }

  /** A sentence's chunks; the first starts at the first word's begin time. */
  function SentenceChunks(s: Sentence): seq<Chunk> {
    if s.words == [] then [] else Chunks(s.words, s.words[0].beginTime, [])
  }

  /** The words of a chunk sequence, in order. */
  function Flatten(chunks: seq<Chunk>): seq<Word> {
    if chunks == [] then [] else chunks[0].words + Flatten(chunks[1..])
  }

  /** Each word's text followed by its punctuation, with no separator. */
  function RawText(words: seq<Word>): string {
    if words == [] then "" else words[0].text + words[0].punctuation + RawText(words[1..])
  }

  /** The untrimmed texts of a chunk sequence, concatenated. */
  function ChunksRawText(chunks: seq<Chunk>): string {
    if chunks == [] then "" else RawText(chunks[0].words) + ChunksRawText(chunks[1..])
  }

  function ChunkText(c: Chunk): string {
    Strip(RawText(c.words), PyWhitespace)
  }

  function LastEnd(words: seq<Word>): int
    requires words != []
  {
    words[|words| - 1].endTime
  }

  /** The cue of one chunk, numbered `next`: none when its text strips to nothing. */
  function ChunkCue(c: Chunk, next: nat): seq<Cue> {
    var text := ChunkText(c);
    if |text| > 0 && c.words != [] then [Cue(next, c.start, LastEnd(c.words), text)] else []
  }

  /** The cues of a chunk sequence, numbered from `next`; a chunk whose text strips to
      nothing gives no cue and takes no number. */
  function CuesFrom(chunks: seq<Chunk>, next: nat): seq<Cue>
  {
    if chunks == [] then []
    else
      var first := ChunkCue(chunks[0], next);
      first + CuesFrom(chunks[1..], next + |first|)
  }

  /** The cues of all sentences, in sentence order, numbered on from `next`. */
  function AllCues(sentences: seq<Sentence>, next: nat): seq<Cue> {
    if sentences == [] then []
    else
      var first := CuesFrom(SentenceChunks(sentences[0]), next);
      first + AllCues(sentences[1..], next + |first|)
  }

  /** The four lines of one cue: index, time range, text and a blank separator. */
  function CueLines(c: Cue): seq<string> {
    [NatToDecimal(c.index), MsToSrtTime(c.start) + " --> " + MsToSrtTime(c.end), c.text, ""]
  }

  /** The lines of every item, item after item. */
  function Blocks<T>(lines: T -> seq<string>, items: seq<T>): seq<string> {
    if items == [] then [] else lines(items[0]) + Blocks(lines, items[1..])
  }

  /** The lines of every cue, cue after cue. */
  function RenderLines(cues: seq<Cue>): seq<string> {
    Blocks(CueLines, cues)
  }

  /** The whole SRT document the converter produces; a non-list argument gives "". */
  function WordSrt(data: Payload): string {
    match data
    case NotAList => ""
    case SentenceList(sentences) => Join(RenderLines(AllCues(sentences, 1)), "\n")
  }

  // ---------------------------------------------------------------------------
  // json_to_word_srt, as the source runs it

  /** What the converter carries across sentences: the cues emitted so far and the number
      the next cue will get. The lines it writes are the rendering of these cues. */
  datatype Output = Output(cues: seq<Cue>, counter: nat)

  /** The converter's state inside a sentence: the output, the chunk under way and the time
      that chunk started at. */
  datatype SegState = SegState(out: Output, chunk: seq<Word>, chunkStart: int)

  /** Closing the chunk under way: if it holds words whose text does not strip to nothing,
      a cue numbered by the counter is emitted and the counter moves on; the chunk is
      emptied either way. */
  function CloseChunk(st: SegState): SegState {
    if st.chunk == [] then st
    else
      var text := Strip(RawText(st.chunk), PyWhitespace);
      var out := if |text| > 0 then
          Output(st.out.cues + [Cue(st.out.counter, st.chunkStart, LastEnd(st.chunk), text)], st.out.counter + 1)
        else st.out;
      SegState(out, [], st.chunkStart)
  }

  /** One turn of the inner loop: append the word, then close the chunk if the word calls for
      a split; the next chunk then starts at this word's end time. */
  function StepWord(st: SegState, w: Word): SegState {
    var grown := st.(chunk := st.chunk + [w]);
    if ShouldSplit(w, st.chunkStart, |grown.chunk|) then CloseChunk(grown).(chunkStart := w.endTime)
    else grown
  }

  function RunWords(st: SegState, words: seq<Word>): SegState
    decreases |words|
  {
    if words == [] then st else RunWords(StepWord(st, words[0]), words[1..])
  }

  /** One turn of the outer loop: a sentence with words is run word by word from its first
      word's begin time, and what remains of the chunk is flushed. */
  function RunSentence(out: Output, s: Sentence): Output {
    if s.words == [] then out
    else CloseChunk(RunWords(SegState(out, [], s.words[0].beginTime), s.words)).out
  }

  function RunSentences(out: Output, sentences: seq<Sentence>): Output
    decreases |sentences|
  {
    if sentences == [] then out else RunSentences(RunSentence(out, sentences[0]), sentences[1..])
  }

  /** The converter, statement by statement: a pass over the sentences and their words that
      appends to the output lines, counts cues and resets the current chunk on every split. */
  method JsonToWordSrt(data: Payload) returns (srt: string)
    ensures srt == WordSrt(data)
  {
    if data.NotAList? {
      return "";
    }
    var sentences := data.sentences;
    var srtLines: seq<string> := [];
    var counter: nat := 1;
    ghost var out := Output([], 1);
    ghost var final := RunSentences(out, sentences);
    var k := 0;
    while k < |sentences|
      invariant 0 <= k <= |sentences|
      invariant RunSentences(out, sentences[k..]) == final
      invariant srtLines == RenderLines(out.cues) && counter == out.counter
    {
      assert sentences[k..][1..] == sentences[k + 1..];
      var words := sentences[k].words;
      if words == [] {
        k := k + 1;
        continue;
      }
      ghost var sentenceEnd := RunSentence(out, sentences[k]);
      var currentChunk: seq<Word> := [];
      var chunkStartTime := words[0].beginTime;
      var i := 0;
      while i < |words|
        invariant 0 <= i <= |words|
        invariant CloseChunk(RunWords(SegState(out, currentChunk, chunkStartTime), words[i..])).out == sentenceEnd
        invariant srtLines == RenderLines(out.cues) && counter == out.counter
      {
        assert words[i..][1..] == words[i + 1..];
        ghost var before := SegState(out, currentChunk, chunkStartTime);
        var word := words[i];
        currentChunk := currentChunk + [word];
        var shouldSplit := false;
        if IsSplitPunctuation(word.punctuation) {
          shouldSplit := true;
        } else if word.endTime - chunkStartTime >= MaxDurationMs && |currentChunk| >= 2 {
          shouldSplit := true;
        }
        if shouldSplit && currentChunk != [] {
          srtLines, counter, out := EmitChunk(srtLines, counter, chunkStartTime, currentChunk, out);
          currentChunk := [];
          chunkStartTime := word.endTime;
        }
        assert SegState(out, currentChunk, chunkStartTime) == StepWord(before, word);
        i := i + 1;
      }
      if currentChunk != [] {
        srtLines, counter, out := EmitChunk(srtLines, counter, chunkStartTime, currentChunk, out);
      }
      k := k + 1;
    }
    StreamMatchesCues(Output([], 1), sentences);
    assert [] + AllCues(sentences, 1) == AllCues(sentences, 1);
    srt := Join(srtLines, "\n");
  }

  /** Closing one chunk, as the source writes it out (twice: on a split and at the end of a
      sentence): unless its text is empty, append its four lines and advance the counter.
      The lines stay the rendering of the cues emitted so far. */
  method EmitChunk(srtLines: seq<string>, counter: nat, chunkStartTime: int, chunk: seq<Word>, ghost out: Output)
    returns (lines: seq<string>, next: nat, ghost out': Output)
    requires chunk != []
    requires srtLines == RenderLines(out.cues) && counter == out.counter
    ensures out' == CloseChunk(SegState(out, chunk, chunkStartTime)).out
    ensures lines == RenderLines(out'.cues) && next == out'.counter
  {
    var chunkText := Strip(RawText(chunk), PyWhitespace);
    var chunkEndTime := chunk[|chunk| - 1].endTime;
    lines, next, out' := srtLines, counter, out;
    if |chunkText| > 0 {
      var start := MsToSrtTime(chunkStartTime);
      var end := MsToSrtTime(chunkEndTime);
      lines := lines + [NatToDecimal(counter)];
      lines := lines + [start + " --> " + end];
      lines := lines + [chunkText];
      lines := lines + [""];
      next := counter + 1;
      ghost var cue := Cue(counter, chunkStartTime, chunkEndTime, chunkText);
      out' := Output(out.cues + [cue], next);
      FourLines(srtLines, NatToDecimal(counter), start + " --> " + end, chunkText, "");
      RenderOneMore(out.cues, cue);
    }
  }

  lemma FourLines(lines: seq<string>, a: string, b: string, c: string, d: string)
    ensures lines + [a] + [b] + [c] + [d] == lines + [a, b, c, d]
  {
  }

  /** Emitting one more cue appends its four lines. */
  lemma RenderOneMore(cues: seq<Cue>, c: Cue)
    ensures RenderLines(cues + [c]) == RenderLines(cues) + CueLines(c)
  {
    BlocksAppend(CueLines, cues, [c]);
    assert [c][1..] == [];
    assert Blocks(CueLines, [c]) == CueLines(c) + [];
  }

  lemma {:induction false} BlocksAppend<T>(lines: T -> seq<string>, a: seq<T>, b: seq<T>)
    ensures Blocks(lines, a + b) == Blocks(lines, a) + Blocks(lines, b)
  {
    if a == [] {
      assert a + b == b;
    } else {
      assert (a + b)[1..] == a[1..] + b;
      assert (a + b)[0] == a[0];
      BlocksAppend(lines, a[1..], b);
    }
  }

  // ---------------------------------------------------------------------------
  // The state machine emits exactly the declared cues

  /** A chunk sequence's cues are those of its first chunk, then the rest's, numbered on. */
  lemma CuesFromCons(c: Chunk, rest: seq<Chunk>, next: nat)
    ensures CuesFrom([c] + rest, next) == ChunkCue(c, next) + CuesFrom(rest, next + |ChunkCue(c, next)|)
    ensures CuesFrom([c], next) == ChunkCue(c, next)
  {
    assert ([c] + rest)[0] == c && ([c] + rest)[1..] == rest;
    assert [c][1..] == [];
    assert ChunkCue(c, next) + [] == ChunkCue(c, next);
  }

  /** The output after emitting the cues of `chunks`. */
  function Append(out: Output, chunks: seq<Chunk>): Output
  {
    var cues := CuesFrom(chunks, out.counter);
    Output(out.cues + cues, out.counter + |cues|)
  }

  /** Closing a chunk emits exactly the cues of that one chunk. */
  lemma CloseChunkAppends(out: Output, chunk: seq<Word>, start: int)
    requires chunk != []
    ensures CloseChunk(SegState(out, chunk, start)).out == Append(out, [Chunk(start, chunk)])
  {
    var c := Chunk(start, chunk);
    assert [c][1..] == [];
    if |ChunkText(c)| > 0 {
      assert CuesFrom([c], out.counter) == [Cue(out.counter, start, LastEnd(chunk), ChunkText(c))];
    } else {
      assert CuesFrom([c], out.counter) == [];
      assert out.cues + [] == out.cues;
    }
  }

  /** Emitting one chunk and then the rest is emitting them all. */
  lemma AppendFirst(out: Output, c: Chunk, rest: seq<Chunk>)
    ensures Append(Append(out, [c]), rest) == Append(out, [c] + rest)
  {
    CuesFromCons(c, rest, out.counter);
    var first := ChunkCue(c, out.counter);
    var mid := Append(out, [c]);
    AppendCuesTwice(out, mid, Append(mid, rest), first, CuesFrom(rest, mid.counter));
  }

  /** Running the words of a sentence and flushing the remainder emits the cues of the
      declared chunks, and nothing else. */
  lemma {:induction false} RunWordsMatchesChunks(out: Output, pending: seq<Word>, start: int, words: seq<Word>)
    ensures CloseChunk(RunWords(SegState(out, pending, start), words)).out == Append(out, Chunks(words, start, pending))
    decreases |words|
  {
    if words == [] {
      if pending == [] {
        assert out.cues + [] == out.cues;
      } else {
        CloseChunkAppends(out, pending, start);
      }
    } else {
      var w := words[0];
      var current := pending + [w];
      if ShouldSplit(w, start, |current|) {
        var closed := CloseChunk(SegState(out, current, start)).out;
        assert StepWord(SegState(out, pending, start), w) == SegState(closed, [], w.endTime);
        RunWordsMatchesChunks(closed, [], w.endTime, words[1..]);
        CloseChunkAppends(out, current, start);
        AppendFirst(out, Chunk(start, current), Chunks(words[1..], w.endTime, []));
      } else {
        assert StepWord(SegState(out, pending, start), w) == SegState(out, current, start);
        RunWordsMatchesChunks(out, current, start, words[1..]);
      }
    }
  }

  /** One sentence's turn of the outer loop emits the cues of its chunks. */
  lemma SentenceEmitsChunks(out: Output, s: Sentence)
    ensures RunSentence(out, s) == Append(out, SentenceChunks(s))
  {
    if s.words == [] {
      assert out.cues + [] == out.cues;
    } else {
      RunWordsMatchesChunks(out, [], s.words[0].beginTime, s.words);
    }
  }

  /** The cues of a sentence list are the first sentence's, then the rest's, numbered on. */
  lemma AllCuesCons(s: Sentence, rest: seq<Sentence>, next: nat)
    ensures AllCues([s] + rest, next)
      == CuesFrom(SentenceChunks(s), next) + AllCues(rest, next + |CuesFrom(SentenceChunks(s), next)|)
  {
    assert ([s] + rest)[0] == s && ([s] + rest)[1..] == rest;
  }

  /** Emitting `first` and then `rest` is emitting their concatenation. */
  lemma AppendCuesTwice(out: Output, mid: Output, final: Output, first: seq<Cue>, rest: seq<Cue>)
    requires mid == Output(out.cues + first, out.counter + |first|)
    requires final == Output(mid.cues + rest, mid.counter + |rest|)
    ensures final == Output(out.cues + (first + rest), out.counter + |first + rest|)
  {
    assert out.cues + first + rest == out.cues + (first + rest);
  }

  /** The converter's state machine and the declarative account agree: it emits the cues of
      every sentence's chunks, numbered on from the counter, and the counter ends one past
      the last cue number. */
  lemma {:induction false} StreamMatchesCues(out: Output, sentences: seq<Sentence>)
    ensures RunSentences(out, sentences) == Output(out.cues + AllCues(sentences, out.counter), out.counter + |AllCues(sentences, out.counter)|)
    decreases |sentences|
  {
    if sentences == [] {
      assert out.cues + [] == out.cues;
    } else {
      var s, tail := sentences[0], sentences[1..];
      var mid := RunSentence(out, s);
      SentenceEmitsChunks(out, s);
      StreamMatchesCues(mid, tail);
      AppendCuesTwice(out, mid, RunSentences(mid, tail), CuesFrom(SentenceChunks(s), out.counter),
                      AllCues(tail, mid.counter));
    }
  }

  // ---------------------------------------------------------------------------
  // Properties of the segmentation

  /** Every word lands in exactly one chunk, in order, after the words already pending. */
  lemma {:induction false} ChunksPartitionWords(words: seq<Word>, start: int, pending: seq<Word>)
    ensures Flatten(Chunks(words, start, pending)) == pending + words
  {
    if words == [] {
      if pending != [] {
        assert Flatten([Chunk(start, pending)]) == pending + Flatten([]);
      }
    } else {
      var current := pending + [words[0]];
      assert current + words[1..] == pending + words;
      if ShouldSplit(words[0], start, |current|) {
        var r := Chunks(words, start, pending);
        assert r[1..] == Chunks(words[1..], words[0].endTime, []);
        ChunksPartitionWords(words[1..], words[0].endTime, []);
      } else {
        ChunksPartitionWords(words[1..], start, current);
      }
    }
  }

  lemma {:induction false} RawTextAppend(a: seq<Word>, b: seq<Word>)
    ensures RawText(a + b) == RawText(a) + RawText(b)
  {
    if a == [] {
      assert a + b == b;
    } else {
      assert (a + b)[1..] == a[1..] + b;
      assert (a + b)[0] == a[0];
      RawTextAppend(a[1..], b);
    }
  }

  lemma {:induction false} ChunksRawTextFlatten(chunks: seq<Chunk>)
    ensures ChunksRawText(chunks) == RawText(Flatten(chunks))
  {
    if chunks != [] {
      ChunksRawTextFlatten(chunks[1..]);
      RawTextAppend(chunks[0].words, Flatten(chunks[1..]));
    }
  }

  /** The untrimmed chunk texts of a sentence, concatenated, are the text and punctuation of
      all its words: segmentation loses and repeats nothing. */
  lemma SentenceTextPreserved(s: Sentence)
    ensures ChunksRawText(SentenceChunks(s)) == RawText(s.words)
  {
    ChunksRawTextFlatten(SentenceChunks(s));
    if s.words != [] {
      ChunksPartitionWords(s.words, s.words[0].beginTime, []);
      assert [] + s.words == s.words;
    }
  }

  /** No word before a chunk's last one triggered a split. */
  ghost predicate NoEarlySplit(c: Chunk) {
    forall j | 0 <= j < |c.words| - 1 :: !ShouldSplit(c.words[j], c.start, j + 1)
  }

  /** The chunk was closed by its last word's punctuation or by the duration cap. */
  predicate ClosedBySplit(c: Chunk)
    requires c.words != []
  {
    ShouldSplit(c.words[|c.words| - 1], c.start, |c.words|)
  }

  /** No chunk holds a word before its last that called for a split, and every chunk but
      the last was closed by its last word. */
  ghost predicate FollowsCloseRule(r: seq<Chunk>) {
    (forall i | 0 <= i < |r| :: NoEarlySplit(r[i])) &&
    (forall i | 0 <= i < |r| - 1 :: r[i].words != [] && ClosedBySplit(r[i]))
  }

  /** The closing rule: a chunk closes at its first word that calls for a split and at no
      earlier one; every chunk but the last was closed so, and the last one is either closed
      so or is the remainder flushed at the sentence's end. */
  lemma {:induction false} ChunksCloseRule(words: seq<Word>, start: int, pending: seq<Word>)
    requires forall j | 0 <= j < |pending| :: !ShouldSplit(pending[j], start, j + 1)
    ensures FollowsCloseRule(Chunks(words, start, pending))
    decreases |words|
  {
    var r := Chunks(words, start, pending);
    if words == [] {
      if pending != [] {
        assert r == [Chunk(start, pending)];
        assert NoEarlySplit(r[0]);
      }
    } else {
      var current := pending + [words[0]];
      forall j | 0 <= j < |pending|
        ensures current[j] == pending[j]
      {
      }
      if ShouldSplit(words[0], start, |current|) {
        var tail := Chunks(words[1..], words[0].endTime, []);
        ChunksCloseRule(words[1..], words[0].endTime, []);
        assert r == [Chunk(start, current)] + tail;
        assert NoEarlySplit(r[0]);
        assert ClosedBySplit(r[0]);
        forall i | 1 <= i < |r|
          ensures NoEarlySplit(r[i]) && (i < |r| - 1 ==> r[i].words != [] && ClosedBySplit(r[i]))
        {
          assert r[i] == tail[i - 1];
        }
      } else {
        ChunksCloseRule(words[1..], start, current);
      }
    }
  }

  /** The first chunk starts at the given time, and after a split the next chunk starts at
      the splitting word's end time (not at the next word's begin time). */
  ghost predicate StartsLinked(r: seq<Chunk>, start: int) {
    (|r| > 0 ==> r[0].start == start) &&
    (forall i | 0 <= i < |r| - 1 :: r[i].words != [] && r[i + 1].start == LastEnd(r[i].words))
  }

  lemma {:induction false} ChunkStartsLinked(words: seq<Word>, start: int, pending: seq<Word>)
    ensures StartsLinked(Chunks(words, start, pending), start)
    decreases |words|
  {
    var r := Chunks(words, start, pending);
    if words != [] {
      var current := pending + [words[0]];
      if ShouldSplit(words[0], start, |current|) {
        var tail := Chunks(words[1..], words[0].endTime, []);
        ChunkStartsLinked(words[1..], words[0].endTime, []);
        assert r[1..] == tail;
        if |tail| > 0 {
          assert r[1].start == words[0].endTime == LastEnd(r[0].words);
        }
      } else {
        ChunkStartsLinked(words[1..], start, current);
      }
    }
  }

  /** Word times as the recognizer delivers them: each word ends no earlier than it begins,
      and end times never decrease. */
  ghost predicate WellTimed(words: seq<Word>) {
    (forall i | 0 <= i < |words| :: words[i].beginTime <= words[i].endTime) &&
    (forall i, j | 0 <= i < j < |words| :: words[i].endTime <= words[j].endTime)
  }

  /** Every chunk starts no later than its last word ends. */
  ghost predicate StartForward(r: seq<Chunk>) {
    forall i | 0 <= i < |r| :: r[i].words != [] && r[i].start <= LastEnd(r[i].words)
  }

  lemma {:induction false} ChunksTimesOrdered(words: seq<Word>, start: int, pending: seq<Word>)
    requires pending != [] ==> start <= LastEnd(pending)
    requires forall j | 0 <= j < |words| :: start <= words[j].endTime
    requires forall i, j | 0 <= i < j < |words| :: words[i].endTime <= words[j].endTime
    ensures StartForward(Chunks(words, start, pending))
    decreases |words|
  {
    var r := Chunks(words, start, pending);
    if words == [] {
      if pending != [] {
        assert r == [Chunk(start, pending)];
      }
    } else {
      var current := pending + [words[0]];
      var rest := words[1..];
      assert forall j | 0 <= j < |rest| :: rest[j] == words[j + 1];
      if ShouldSplit(words[0], start, |current|) {
        var tail := Chunks(rest, words[0].endTime, []);
        ChunksTimesOrdered(rest, words[0].endTime, []);
        assert r == [Chunk(start, current)] + tail;
        forall i | 1 <= i < |r|
          ensures r[i].words != [] && r[i].start <= LastEnd(r[i].words)
        {
          assert r[i] == tail[i - 1];
        }
      } else {
        ChunksTimesOrdered(rest, start, current);
      }
    }
  }

  /** With well-timed words, every chunk of a sentence starts no later than it ends. */
  lemma SentenceChunksOrdered(s: Sentence)
    requires WellTimed(s.words)
    ensures StartForward(SentenceChunks(s))
  {
    if s.words != [] {
      FirstBeginBounds(s.words);
      ChunksTimesOrdered(s.words, s.words[0].beginTime, []);
    }
  }

  lemma FirstBeginBounds(ws: seq<Word>)
    requires ws != [] && WellTimed(ws)
    ensures forall j | 0 <= j < |ws| :: ws[0].beginTime <= ws[j].endTime
    ensures forall i, j | 0 <= i < j < |ws| :: ws[i].endTime <= ws[j].endTime
  {
    forall j | 0 <= j < |ws|
      ensures ws[0].beginTime <= ws[j].endTime
    {
      assert ws[0].beginTime <= ws[0].endTime;
      if j > 0 {
        assert ws[0].endTime <= ws[j].endTime;
      }
    }
  }

  // ---------------------------------------------------------------------------
  // Properties of the cues and of the rendered document

  /** The cues are numbered `next`, `next + 1`, ... in order, and none has empty text. */
  ghost predicate NumberedFrom(cues: seq<Cue>, next: nat) {
    forall i | 0 <= i < |cues| :: cues[i].index == next + i && |cues[i].text| > 0
  }

  /** A chunk gives at most one cue, numbered `next`, with non-empty text. */
  lemma ChunkCueShape(c: Chunk, next: nat)
    ensures |ChunkCue(c, next)| <= 1
    ensures NumberedFrom(ChunkCue(c, next), next)
  {
  }

  /** Two numbered runs, the second starting where the first ends, make one. */
  lemma NumberedAppend(a: seq<Cue>, b: seq<Cue>, next: nat)
    requires NumberedFrom(a, next) && NumberedFrom(b, next + |a|)
    ensures NumberedFrom(a + b, next)
  {
    forall i | 0 <= i < |a + b|
      ensures (a + b)[i].index == next + i && |(a + b)[i].text| > 0
    {
      if i >= |a| {
        assert (a + b)[i] == b[i - |a|];
      }
    }
  }

  lemma {:induction false} CuesFromShape(chunks: seq<Chunk>, next: nat)
    ensures |CuesFrom(chunks, next)| <= |chunks|
    ensures NumberedFrom(CuesFrom(chunks, next), next)
  {
    if chunks != [] {
      var first := ChunkCue(chunks[0], next);
      CuesFromShape(chunks[1..], next + |first|);
      ChunkCueShape(chunks[0], next);
      NumberedAppend(first, CuesFrom(chunks[1..], next + |first|), next);
    }
  }

  /** Cue numbers run contiguously from `next` across all sentences, so a document starts
      at 1 and its cues are numbered 1..n; every cue has non-empty text. */
  lemma {:induction false} CueIndicesContiguous(sentences: seq<Sentence>, next: nat)
    ensures NumberedFrom(AllCues(sentences, next), next)
    decreases |sentences|
  {
    if sentences != [] {
      var first := CuesFrom(SentenceChunks(sentences[0]), next);
      var rest := AllCues(sentences[1..], next + |first|);
      CuesFromShape(SentenceChunks(sentences[0]), next);
      CueIndicesContiguous(sentences[1..], next + |first|);
      var cues := AllCues(sentences, next);
      assert cues == first + rest;
      forall i | 0 <= i < |cues|
        ensures cues[i].index == next + i && |cues[i].text| > 0
      {
        if i < |first| {
          assert cues[i] == first[i];
        } else {
          assert cues[i] == rest[i - |first|];
        }
      }
    }
  }

  /** Block `i` of four after a four-element head: the head itself, or block `i - 1` of
      the rest. */
  lemma BlockOf(head: seq<string>, rest: seq<string>, i: nat)
    requires |head| == 4 && 4 * i + 4 <= |head| + |rest|
    ensures i == 0 ==> (head + rest)[4 * i..4 * i + 4] == head
    ensures i > 0 ==> (head + rest)[4 * i..4 * i + 4] == rest[4 * (i - 1)..4 * (i - 1) + 4]
  {
  }

  lemma {:induction false} BlocksLength<T>(lines: T -> seq<string>, items: seq<T>)
    requires forall x :: |lines(x)| == 4
    ensures |Blocks(lines, items)| == 4 * |items|
  {
    if items != [] {
      BlocksLength(lines, items[1..]);
    }
  }

  /** With four lines per item, the lines of item `i` sit at `4*i` to `4*i + 3`. */
  lemma {:induction false} BlocksAt<T>(lines: T -> seq<string>, items: seq<T>, i: nat)
    requires forall x :: |lines(x)| == 4
    requires i < |items|
    ensures 4 * i + 4 <= |Blocks(lines, items)|
    ensures Blocks(lines, items)[4 * i..4 * i + 4] == lines(items[i])
    decreases i
  {
    BlocksLength(lines, items);
    var head, rest := lines(items[0]), Blocks(lines, items[1..]);
    BlockOf(head, rest, i);
    if i > 0 {
      BlocksAt(lines, items[1..], i - 1);
      assert items[1..][i - 1] == items[i];
    }
  }

  /** Every cue contributes exactly four lines, in order: its index, its time range, its
      text and an empty line. */
  lemma RenderLinesShape(cues: seq<Cue>)
    ensures |RenderLines(cues)| == 4 * |cues|
    ensures forall i | 0 <= i < |cues| :: RenderLines(cues)[4 * i..4 * i + 4] == CueLines(cues[i])
  {
    assert forall c :: |CueLines(c)| == 4;
    BlocksLength(CueLines, cues);
    forall i | 0 <= i < |cues|
      ensures RenderLines(cues)[4 * i..4 * i + 4] == CueLines(cues[i])
    {
      BlocksAt(CueLines, cues, i);
    }
  }

  /** Dropping the element at `k > 0` keeps the first element in front. */
  lemma DropInTail<T>(xs: seq<T>, k: nat)
    requires 0 < k < |xs|
    ensures xs[..k] + xs[k + 1..] == [xs[0]] + (xs[1..][..k - 1] + xs[1..][k..])
  {
  }

  /** A sentence without words adds no cue and shifts no number. */
  lemma {:induction false} EmptySentenceAddsNothing(sentences: seq<Sentence>, k: nat, next: nat)
    requires k < |sentences| && sentences[k].words == []
    ensures AllCues(sentences, next) == AllCues(sentences[..k] + sentences[k + 1..], next)
    decreases k
  {
    var s, tail := sentences[0], sentences[1..];
    assert sentences == [s] + tail;
    AllCuesCons(s, tail, next);
    var first := CuesFrom(SentenceChunks(s), next);
    if k > 0 {
      EmptySentenceAddsNothing(tail, k - 1, next + |first|);
      var droppedTail := tail[..k - 1] + tail[k..];
      DropInTail(sentences, k);
      AllCuesCons(s, droppedTail, next);
    } else {
      assert sentences[..k] + sentences[k + 1..] == tail;
      assert first == [];
      assert [] + AllCues(tail, next) == AllCues(tail, next);
    }
  }

  /** The comma example: "Hello," then "world." give two cues, the first ending at the
      comma word's end and the second starting there. */
  lemma PunctuationExample()
    ensures AllCues([Sentence([Word("Hello", ",", 0, 400), Word("world", ".", 500, 900)])], 1)
         == [Cue(1, 0, 400, "Hello,"), Cue(2, 400, 900, "world.")]
  {
    var w1, w2 := Word("Hello", ",", 0, 400), Word("world", ".", 500, 900);
    var s := Sentence([w1, w2]);
    assert IsSplitPunctuation(",") && IsSplitPunctuation(".");
    assert [w1, w2][1..] == [w2] && [w2][1..] == [];
    assert [] + [w1] == [w1] && [] + [w2] == [w2];
    var tail := Chunks([w2], 400, []);
    assert tail == [Chunk(400, [w2])] + Chunks([], 900, []);
    assert SentenceChunks(s) == [Chunk(0, [w1])] + tail;
    var c1, c2 := Chunk(0, [w1]), Chunk(400, [w2]);
    assert Chunks([], 900, []) == [];
    assert SentenceChunks(s) == [c1, c2];
    assert RawText([w1]) == "Hello,";
    assert RawText([w2]) == "world.";
    VisibleNotWhitespace('H');
    VisibleNotWhitespace(',');
    VisibleNotWhitespace('w');
    VisibleNotWhitespace('.');
    StripUnchanged("Hello,", PyWhitespace);
    StripUnchanged("world.", PyWhitespace);
    assert ChunkText(c1) == "Hello," && ChunkText(c2) == "world.";
    assert [c1, c2][1..] == [c2] && [c2][1..] == [];
    var cues := CuesFrom([c1, c2], 1);
    assert CuesFrom([c2], 2) == [Cue(2, 400, 900, "world.")] + CuesFrom([], 3);
    assert cues == [Cue(1, 0, 400, "Hello,")] + CuesFrom([c2], 2);
    assert cues == [Cue(1, 0, 400, "Hello,"), Cue(2, 400, 900, "world.")];
    assert [s][1..] == [];
    assert AllCues([s], 1) == cues + AllCues([], 3);
  }

}
