/** The note-building loop of `NoteGenerationView.post` (backend/video/views/note_generation.py):
    one note per section of the model's answer, in order, sharing one frame cache. */
module NoteBuilding {
  import opened Wrappers
  import Text
  import opened Timestamps
  import opened MarkerResolution

  /** One section of the model's answer; each key may be missing. */
  datatype Section = Section(timestamp: Option<string>, title: Option<string>, content: Option<string>)

  /** A note as returned to the client; its random `id` is not modelled. */
  datatype Note = Note(timestamp: string, seconds: real, title: string, content: string,
                       imagePath: Option<string>, isEdited: bool)

  const DefaultTimestamp := "00:00:00"

  function SectionTimestamp(s: Section): string {
    s.timestamp.GetOr(DefaultTimestamp)
  }

  /** The URL of a frame path, when the path is set and exists. */
  function CoverUrl(env: Env, path: string): (r: Option<string>)
    ensures r.Some? <==> |path| > 0 && env.fileExists(path)
    ensures r.Some? ==> r.value == env.mediaUrl(path)
  {
    if |path| > 0 && env.fileExists(path) then Some(env.mediaUrl(path)) else None
  }

  /** The note for one section on cache `c` and the cache after, or None when its timestamp
      raises: the cover frame is looked up first with the raw timestamp, then the content's
      markers are rewritten. */
  function NoteOf(env: Env, c: Cache, s: Section): Option<(Note, Cache)> {
    var ts := SectionTimestamp(s);
    match TimestampToSeconds(ts)
    case None => None
    case Some(seconds) =>
      var cover := Lookup(env, c, ts);
      var body := Rewrite(env, cover.1, s.content.GetOr(""));
      Some((Note(ts, seconds, s.title.GetOr(""), body.0, CoverUrl(env, cover.0), false), body.1))
  }

  /** The notes of the sections on cache `c`, or None when some timestamp raises: the
      exception escapes the loop and the whole request fails. */
  function BuildNotes(env: Env, c: Cache, sections: seq<Section>): Option<seq<Note>>
    decreases |sections|
  {
    if |sections| == 0 then Some([])
    else
      match NoteOf(env, c, sections[0])
      case None => None
      case Some(first) =>
        match BuildNotes(env, first.1, sections[1..])
        case None => None
        case Some(rest) => Some([first.0] + rest)
  }

  /** The cache the loop holds when it reaches section `i`. */
  function CacheBefore(env: Env, c: Cache, sections: seq<Section>, i: nat): Cache
    requires i <= |sections|
    decreases i
  {
    if i == 0 then c
    else
      match NoteOf(env, c, sections[0])
      case None => c
      case Some(first) => CacheBefore(env, first.1, sections[1..], i - 1)
  }

  /** `done` followed by the notes of the remaining sections. */
  function Continue(done: seq<Note>, rest: Option<seq<Note>>): Option<seq<Note>> {
    match rest
    case None => None
    case Some(notes) => Some(done + notes)
  }

  /** A section gives a note exactly when its timestamp parses, whatever the cache. */
  lemma NoteExactlyWhenParses(env: Env, c: Cache, s: Section)
    ensures NoteOf(env, c, s).Some? <==> TimestampToSeconds(SectionTimestamp(s)).Some?
  {
  }

  /** There are notes exactly when every timestamp parses. */
  lemma {:induction false} NotesExactlyWhenAllParse(env: Env, c: Cache, sections: seq<Section>)
    ensures BuildNotes(env, c, sections).Some? <==>
      forall i | 0 <= i < |sections| :: TimestampToSeconds(SectionTimestamp(sections[i])).Some?
    decreases |sections|
  {
    if |sections| > 0 {
      NoteExactlyWhenParses(env, c, sections[0]);
      match NoteOf(env, c, sections[0])
      case None =>
      case Some(first) =>
        NotesExactlyWhenAllParse(env, first.1, sections[1..]);
        if forall i | 0 <= i < |sections| :: TimestampToSeconds(SectionTimestamp(sections[i])).Some? {
          assert forall i | 0 <= i < |sections[1..]| :: sections[1..][i] == sections[i + 1];
        } else {
          var k :| 0 <= k < |sections| && TimestampToSeconds(SectionTimestamp(sections[k])).None?;
          if k > 0 {
            assert sections[1..][k - 1] == sections[k];
          }
        }
    }
  }

  lemma {:induction false} NotesLength(env: Env, c: Cache, sections: seq<Section>)
    requires BuildNotes(env, c, sections).Some?
    ensures |BuildNotes(env, c, sections).value| == |sections|
    decreases |sections|
  {
    if |sections| > 0 {
      NotesLength(env, NoteOf(env, c, sections[0]).value.1, sections[1..]);
    }
  }

  /** The first note is built on the cache given, the rest on the cache it leaves. */
  lemma BuildNotesStep(env: Env, c: Cache, sections: seq<Section>)
    requires |sections| > 0 && BuildNotes(env, c, sections).Some?
    ensures NoteOf(env, c, sections[0]).Some?
    ensures var first := NoteOf(env, c, sections[0]).value;
      && BuildNotes(env, first.1, sections[1..]).Some?
      && BuildNotes(env, c, sections).value == [first.0] + BuildNotes(env, first.1, sections[1..]).value
      && forall i | 0 < i <= |sections| :: CacheBefore(env, c, sections, i) == CacheBefore(env, first.1, sections[1..], i - 1)
  {
  }

  /** Note `i` is the one built from section `i` on the cache the loop holds when it gets
      there. */
  lemma {:induction false} NoteAt(env: Env, c: Cache, sections: seq<Section>, i: nat)
    requires BuildNotes(env, c, sections).Some? && i < |sections|
    ensures |BuildNotes(env, c, sections).value| == |sections|
    ensures var n := NoteOf(env, CacheBefore(env, c, sections, i), sections[i]);
      n.Some? && BuildNotes(env, c, sections).value[i] == n.value.0
    decreases i
  {
    NotesLength(env, c, sections);
    BuildNotesStep(env, c, sections);
    var first := NoteOf(env, c, sections[0]).value;
    if i > 0 {
      NoteAt(env, first.1, sections[1..], i - 1);
      assert sections[1..][i - 1] == sections[i];
    }
  }

  /** There are notes exactly when every timestamp parses; then there is one note per
      section, in order, each built from its own section. */
  lemma NotesCharacterised(env: Env, c: Cache, sections: seq<Section>)
    ensures BuildNotes(env, c, sections).Some? <==>
      forall i | 0 <= i < |sections| :: TimestampToSeconds(SectionTimestamp(sections[i])).Some?
    ensures BuildNotes(env, c, sections).Some? ==>
      && |BuildNotes(env, c, sections).value| == |sections|
      && forall i | 0 <= i < |sections| ::
           BuildNotes(env, c, sections).value[i] == NoteOf(env, CacheBefore(env, c, sections, i), sections[i]).value.0
  {
    NotesExactlyWhenAllParse(env, c, sections);
    if BuildNotes(env, c, sections).Some? {
      NotesLength(env, c, sections);
      forall i | 0 <= i < |sections|
        ensures BuildNotes(env, c, sections).value[i] == NoteOf(env, CacheBefore(env, c, sections, i), sections[i]).value.0
      {
        NoteAt(env, c, sections, i);
      }
    }
  }

  /** What each note holds: the section's timestamp (`00:00:00` when missing) and the seconds
      it reads as, its title (empty when missing), its content with markers rewritten on the
      cache the cover lookup left, the cover frame's URL when that frame exists, and
      `isEdited` false. */
  lemma NoteFields(env: Env, c: Cache, s: Section)
    requires NoteOf(env, c, s).Some?
    ensures var n := NoteOf(env, c, s).value.0;
      var cover := Lookup(env, c, n.timestamp);
      && n.timestamp == (if s.timestamp.Some? then s.timestamp.value else "00:00:00")
      && Some(n.seconds) == TimestampToSeconds(n.timestamp)
      && n.title == (if s.title.Some? then s.title.value else "")
      && n.content == Rewrite(env, cover.1, if s.content.Some? then s.content.value else "").0
      && (n.imagePath.Some? <==> |cover.0| > 0 && env.fileExists(cover.0))
      && (n.imagePath.Some? ==> n.imagePath.value == env.mediaUrl(cover.0))
      && !n.isEdited
  {
  }

  /** A section without a timestamp is placed at the start of the video. */
  lemma MissingTimestampAtStart(env: Env, c: Cache, s: Section)
    requires s.timestamp == None
    ensures NoteOf(env, c, s).Some? && NoteOf(env, c, s).value.0.seconds == 0.0
  {
    DefaultTimestampIsZero();
  }

  /** Building a note keeps the cache valid and keeps every key and every logged call. */
  lemma NoteKeepsValid(env: Env, c: Cache, s: Section)
    requires CacheValid(env, c) && NoteOf(env, c, s).Some?
    ensures var after := NoteOf(env, c, s).value.1;
      CacheValid(env, after) && c.extractions <= after.extractions && c.entries.Keys <= after.entries.Keys
  {
    var ts := SectionTimestamp(s);
    var cover := Lookup(env, c, ts);
    LookupKeepsValid(env, c, ts);
    LookupGrowth(env, c, ts);
    RewriteKeepsValid(env, cover.1, s.content.GetOr(""));
  }

  /** A note whose timestamp has no single colon makes no more `extract_frame` calls, for its
      cover and its content together, than it adds keys to the cache: a timestamp an earlier
      section stored costs no call in a later one. */
  lemma NoteWithinNewKeys(env: Env, c: Cache, s: Section)
    requires Text.CountChar(SectionTimestamp(s), ':') != 1 && NoteOf(env, c, s).Some?
    ensures var after := NoteOf(env, c, s).value.1;
      && c.extractions <= after.extractions && c.entries.Keys <= after.entries.Keys
      && |after.extractions| - |c.extractions| <= |after.entries.Keys - c.entries.Keys|
  {
    var ts := SectionTimestamp(s);
    var cover := Lookup(env, c, ts);
    CompletedLookupWithinNewKeys(env, c, ts);
    RewriteCallsWithinNewKeys(env, cover.1, s.content.GetOr(""));
    NewKeysCount(c.entries.Keys, NoteOf(env, c, s).value.1.entries.Keys);
  }

  /** The notes still to build shrink by one section per note built. */
  lemma ContinueStep(env: Env, c: Cache, sections: seq<Section>, i: nat, done: seq<Note>)
    requires i < |sections|
    ensures NoteOf(env, c, sections[i]).None? ==> Continue(done, BuildNotes(env, c, sections[i..])) == None
    ensures NoteOf(env, c, sections[i]).Some? ==>
      var first := NoteOf(env, c, sections[i]).value;
      Continue(done, BuildNotes(env, c, sections[i..]))
      == Continue(done + [first.0], BuildNotes(env, first.1, sections[i + 1..]))
  {
    assert sections[i..][0] == sections[i] && sections[i..][1..] == sections[i + 1..];
    match NoteOf(env, c, sections[i])
    case None =>
    case Some(first) =>
      match BuildNotes(env, first.1, sections[i + 1..])
      case None =>
      case Some(rest) =>
        assert done + ([first.0] + rest) == done + [first.0] + rest;
  }

  /** The note for one section, using and extending the shared cache. */
  method MakeNote(cache: FrameCache, s: Section) returns (note: Option<Note>)
    requires cache.Valid()
    modifies cache
    ensures cache.Valid()
    ensures NoteOf(cache.env, old(cache.State()), s).None? ==>
      note.None? && cache.State() == old(cache.State())
    ensures NoteOf(cache.env, old(cache.State()), s).Some? ==>
      var r := NoteOf(cache.env, old(cache.State()), s).value;
      note == Some(r.0) && cache.State() == r.1
  {
    var timestamp := SectionTimestamp(s);
    var seconds := TimestampToSeconds(timestamp);
    if seconds.None? {
      return None;
    }
    var content := s.content.GetOr("");
    var mainImagePath := cache.GetFrame(timestamp);
    var processed := cache.ProcessContent(content);
    var mainImageUrl: Option<string> := None;
    if |mainImagePath| > 0 && cache.env.fileExists(mainImagePath) {
      mainImageUrl := Some(cache.env.mediaUrl(mainImagePath));
    }
    note := Some(Note(timestamp, seconds.value, s.title.GetOr(""), processed, mainImageUrl, false));
  }

  /** The loop over the sections, with a cache that starts empty. */
  method GenerateNotes(env: Env, sections: seq<Section>) returns (notes: Option<seq<Note>>)
    ensures notes == BuildNotes(env, EmptyCache, sections)
  {
    var cache := new FrameCache(env);
    var done: seq<Note> := [];
    var i := 0;
    assert sections[0..] == sections;
    assert Continue([], BuildNotes(env, EmptyCache, sections)) == BuildNotes(env, EmptyCache, sections) by {
      match BuildNotes(env, EmptyCache, sections)
      case None =>
      case Some(all) => assert [] + all == all;
    }
    while i < |sections|
      invariant 0 <= i <= |sections|
      invariant cache.Valid() && cache.env == env
      invariant Continue(done, BuildNotes(env, cache.State(), sections[i..])) == BuildNotes(env, EmptyCache, sections)
      decreases |sections| - i
    {
      ContinueStep(env, cache.State(), sections, i, done);
      var note := MakeNote(cache, sections[i]);
      if note.None? {
        return None;
      }
      done := done + [note.value];
      i := i + 1;
    }
    assert sections[i..] == [] && done + [] == done;
    return Some(done);
  }
}
