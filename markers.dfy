/** Frame lookup and marker rewriting of the note generator
    (`NoteGenerationView._get_frame_for_timestamp` and `_process_content_timestamps` in
    backend/video/views/note_generation.py). The frame cache of one request is the value
    `Cache`, threaded through the specification functions and held by the class `FrameCache`,
    whose methods update it in place. Frame extraction, the file-existence test and the URL
    built from a frame path are oracles collected in `Env`. */
module MarkerResolution {
  import opened Wrappers
  import opened Text
  import opened Timestamps
  import FrameExtraction

  /** `extract(n, secs)` is call `n` (counted from 0) of `extract_frame` in the request, on
      the request's video at `secs` seconds; None when it raises. Every call writes a new file
      under a fresh random name, so the path depends on the call and not only on the seconds.
      `fileExists` is `os.path.exists`, and `mediaUrl` is the `/media/...` URL built from a
      frame path. */
  datatype Env = Env(extract: (nat, real) -> Option<string>, fileExists: string -> bool, mediaUrl: string -> string)

  /** The frame cache of the request and the seconds of every `extract_frame` call made so
      far, in call order. */
  datatype Cache = Cache(entries: map<string, string>, extractions: seq<real>)

  const EmptyCache := Cache(map[], [])

  // ---------------------------------------------------------------------------
  // One lookup

  /** `_get_frame_for_timestamp` on cache `c`: the path and the cache after. The raw
      timestamp is looked up; on a miss it is completed with `00:`, and the completed key gets
      `""` when it does not parse, or else the path of one new `extract_frame` call (`""` when
      that raises). */
  function Lookup(env: Env, c: Cache, timestamp: string): (string, Cache) {
    if timestamp in c.entries then (c.entries[timestamp], c)
    else
      var ts := Normalize(timestamp);
      match TimestampToSeconds(ts)
      case None => ("", Cache(c.entries[ts := ""], c.extractions))
      case Some(secs) =>
        var path := env.extract(|c.extractions|, secs).GetOr("");
        (path, Cache(c.entries[ts := path], c.extractions + [secs]))
  }

  /** Call `n` of `extract_frame` was made for the seconds `key` reads as and gave `path`. */
  predicate ExtractedBy(env: Env, ex: seq<real>, key: string, path: string, n: nat) {
    n < |ex| && TimestampToSeconds(key) == Some(ex[n]) && env.extract(n, ex[n]) == Some(path)
  }

  /** The path is empty or came from a logged `extract_frame` call for `key`. */
  ghost predicate FromExtraction(env: Env, ex: seq<real>, key: string, path: string) {
    |path| == 0 || exists n: nat :: ExtractedBy(env, ex, key, path, n)
  }

  /** Every key of the cache is a completed timestamp, and every stored path is empty or came
      from a logged extraction for its key. */
  ghost predicate CacheValid(env: Env, c: Cache) {
    forall k | k in c.entries :: CountChar(k, ':') != 1 && FromExtraction(env, c.extractions, k, c.entries[k])
  }

  /** A path that came from the log still does after more calls. */
  lemma FromExtractionGrows(env: Env, ex: seq<real>, more: seq<real>, key: string, path: string)
    requires FromExtraction(env, ex, key, path)
    ensures FromExtraction(env, ex + more, key, path)
  {
    if |path| > 0 {
      var n: nat :| ExtractedBy(env, ex, key, path, n);
      assert (ex + more)[n] == ex[n];
      assert ExtractedBy(env, ex + more, key, path, n);
    }
  }

  /** A lookup keeps every key and logged call, and makes at most one new call. */
  lemma LookupGrowth(env: Env, c: Cache, ts: string)
    ensures var r := Lookup(env, c, ts);
      && c.extractions <= r.1.extractions && |r.1.extractions| <= |c.extractions| + 1
      && c.entries.Keys <= r.1.entries.Keys
  {
  }

  /** A lookup keeps the cache valid, and the path it returns is empty or came from a logged
      extraction for the completed timestamp. */
  lemma LookupKeepsValid(env: Env, c: Cache, ts: string)
    requires CacheValid(env, c)
    ensures var r := Lookup(env, c, ts);
      CacheValid(env, r.1) && FromExtraction(env, r.1.extractions, Normalize(ts), r.0)
  {
    var r := Lookup(env, c, ts);
    NormalizeIdempotent(ts);
    if ts !in c.entries {
      var key := Normalize(ts);
      var more := r.1.extractions[|c.extractions|..];
      assert r.1.extractions == c.extractions + more;
      forall k | k in c.entries
        ensures FromExtraction(env, r.1.extractions, k, c.entries[k])
      {
        FromExtractionGrows(env, c.extractions, more, k, c.entries[k]);
      }
      match TimestampToSeconds(key)
      case None =>
      case Some(secs) =>
        if |r.0| > 0 {
          assert ExtractedBy(env, r.1.extractions, key, r.0, |c.extractions|);
        }
    }
  }

  /** A timestamp with exactly one colon is never a key of a valid cache: the lookup with
      such a raw timestamp always misses. */
  lemma OneColonNeverCached(env: Env, c: Cache, ts: string)
    requires CacheValid(env, c) && CountChar(ts, ':') == 1
    ensures ts !in c.entries
  {
  }

  /** A one-colon timestamp that parses makes a new `extract_frame` call at every lookup,
      and its path is what that call gives. */
  lemma OneColonAlwaysExtracts(env: Env, c: Cache, ts: string, secs: real)
    requires CacheValid(env, c) && CountChar(ts, ':') == 1 && TimestampToSeconds(ts) == Some(secs)
    ensures Lookup(env, c, ts).1.extractions == c.extractions + [secs]
    ensures Lookup(env, c, ts).0 == env.extract(|c.extractions|, secs).GetOr("")
  {
    OneColonNeverCached(env, c, ts);
    NormalizePreservesSeconds(ts);
  }

  /** Looking up the same one-colon timestamp twice makes two calls, and the second path is
      what the second call gives: the cache never saves the extraction of such a timestamp. */
  lemma OneColonTwice(env: Env, c: Cache, ts: string, secs: real)
    requires CacheValid(env, c) && CountChar(ts, ':') == 1 && TimestampToSeconds(ts) == Some(secs)
    ensures var c1 := Lookup(env, c, ts).1;
      && Lookup(env, c1, ts).1.extractions == c.extractions + [secs, secs]
      && Lookup(env, c1, ts).0 == env.extract(|c.extractions| + 1, secs).GetOr("")
  {
    LookupKeepsValid(env, c, ts);
    OneColonAlwaysExtracts(env, c, ts, secs);
    var c1 := Lookup(env, c, ts).1;
    OneColonAlwaysExtracts(env, c1, ts, secs);
    assert c.extractions + [secs] + [secs] == c.extractions + [secs, secs];
  }

  /** A completed timestamp is extracted at most once: looking it up again gives the same
      path and leaves the cache as it is. */
  lemma CompletedLookupOnce(env: Env, c: Cache, ts: string)
    requires CountChar(ts, ':') != 1
    ensures var r := Lookup(env, c, ts); Lookup(env, r.1, ts) == r
  {
  }

  /** `extract` is `extract_frame` with its default parameters on video `v`: a call gives a
      path exactly when the frame search on `v` finds a frame. */
  ghost predicate ExtractsFrom(env: Env, v: FrameExtraction.Video) {
    forall n: nat, secs: real :: env.extract(n, secs).Some? <==> FrameExtraction.Extract(v, secs, FrameExtraction.DefaultParams).Frame?
  }

  /** With a video that does not open, every lookup gives `""`. */
  lemma UnopenedVideoNoFrame(env: Env, v: FrameExtraction.Video, c: Cache, ts: string)
    requires ExtractsFrom(env, v) && !v.isOpened && CacheValid(env, c)
    ensures |Lookup(env, c, ts).0| == 0
  {
    LookupKeepsValid(env, c, ts);
    var r := Lookup(env, c, ts);
    if |r.0| > 0 {
      var n: nat :| ExtractedBy(env, r.1.extractions, Normalize(ts), r.0, n);
      FrameExtraction.ExtractCharacterised(v, r.1.extractions[n], FrameExtraction.DefaultParams);
      assert false;
    }
  }

  /** The frame-lookup memo, shared by every lookup of one request. */
  class FrameCache {
    var entries: map<string, string>
    /** The seconds of every `extract_frame` call, in call order. */
    var extractions: seq<real>
    const env: Env

    function State(): Cache
      reads this
    {
      Cache(entries, extractions)
    }

    ghost predicate Valid()
      reads this
    {
      CacheValid(env, State())
    }

    constructor(env: Env)
      ensures this.env == env && State() == EmptyCache
      ensures Valid()
    {
      this.env := env;
      entries := map[];
      extractions := [];
    }

    /** `_get_frame_for_timestamp`. */
    method GetFrame(timestamp: string) returns (path: string)
      modifies this
      ensures old(Valid()) ==> Valid()
      ensures (path, State()) == Lookup(env, old(State()), timestamp)
    {
      if Valid() {
        LookupKeepsValid(env, State(), timestamp);
      }
      if timestamp in entries {
        return entries[timestamp];
      }
      var ts := timestamp;
      if CountChar(ts, ':') == 1 {
        ts := "00:" + ts;
      }
      var secs := TimestampToSeconds(ts);
      if secs.None? {
        entries := entries[ts := ""];
        return "";
      }
      var extracted := env.extract(|extractions|, secs.value);
      extractions := extractions + [secs.value];
      if extracted.None? {
        entries := entries[ts := ""];
        return "";
      }
      path := extracted.value;
      entries := entries[ts := path];
    }

    /** The callback of `re.sub` for a marker with body `body`: complete the timestamp, look
        up its frame, and build the image block when the frame exists. */
    method MarkerPiece(body: string) returns (piece: string)
      modifies this
      ensures old(Valid()) ==> Valid()
      ensures (piece, State()) == Replacement(env, old(State()), body)
    {
      var ts := body;
      if CountChar(ts, ':') == 1 {
        ts := "00:" + ts;
      }
      var imgPath := GetFrame(ts);
      if |imgPath| > 0 && env.fileExists(imgPath) {
        piece := ImageBlock(ts, env.mediaUrl(imgPath));
      } else {
        piece := "[" + body + "]";
      }
    }

    /** One step of the `re.sub` scan at position `i`: a marker is replaced, any other
        character copied. */
    method ScanStep(content: string, i: nat, processed: string) returns (next: nat, processed': string)
      requires i < |content|
      modifies this
      ensures old(Valid()) ==> Valid()
      ensures (next, processed', State()) == ScanAt(Callback(env), old(State()), content, i, processed)
    {
      MatchAtBound(content, i);
      var m := MatchAt(content, i);
      if m.Some? {
        ghost var c0 := State();
        var piece := MarkerPiece(content[i + 1..i + 1 + m.value]);
        ScanAtMarker(Callback(env), c0, content, i, processed, m.value);
        processed' := processed + piece;
        next := i + m.value + 2;
      } else {
        processed' := processed + [content[i]];
        next := i + 1;
      }
    }

    /** `_process_content_timestamps`: the `re.sub` scan, left to right, replacing every
        marker whose frame exists by an image block. */
    method ProcessContent(content: string) returns (processed: string)
      modifies this
      ensures old(Valid()) ==> Valid()
      ensures (processed, State()) == Rewrite(env, old(State()), content)
    {
      processed := "";
      var i := 0;
      while i < |content|
        invariant 0 <= i <= |content|
        invariant old(Valid()) ==> Valid()
        invariant Substitute(Callback(env), State(), content, i, processed) == Rewrite(env, old(State()), content)
        decreases |content| - i
      {
        ScanAtContinues(Callback(env), State(), content, i, processed);
        i, processed := ScanStep(content, i, processed);
      }
    }
  }

  // ---------------------------------------------------------------------------
  // The marker pattern `\[(\d{1,2}:\d{2}(?::\d{2})?)\]`

  /** `hl` digits, a colon and two digits, then a colon and two more digits when
      `withSeconds`. */
  predicate ClockShape(b: string, hl: nat, withSeconds: bool) {
    && 1 <= hl <= 2
    && |b| == hl + (if withSeconds then 6 else 3)
    && AllDigits(b[..hl]) && b[hl] == ':' && AllDigits(b[hl + 1..hl + 3])
    && (withSeconds ==> b[hl + 3] == ':' && AllDigits(b[hl + 4..]))
  }

  /** The text the capture group accepts. */
  predicate IsClock(b: string) {
    ClockShape(b, 2, true) || ClockShape(b, 2, false) || ClockShape(b, 1, true) || ClockShape(b, 1, false)
  }

  /** A whole marker `[b]` starts at `i` and has a body of length `n`. */
  predicate MarkerAt(s: string, i: nat, n: nat) {
    i + n + 2 <= |s| && s[i] == '[' && IsClock(s[i + 1..i + 1 + n]) && s[i + 1 + n] == ']'
  }

  /** One alternative of the pattern tried at `i`, character by character. */
  predicate ShapeAt(s: string, i: nat, hl: nat, withSeconds: bool) {
    var c := i + 1 + hl;
    var close := if withSeconds then c + 6 else c + 3;
    && close < |s| && s[i] == '['
    && IsDigit(s[i + 1]) && (hl == 2 ==> IsDigit(s[i + 2]))
    && s[c] == ':' && IsDigit(s[c + 1]) && IsDigit(s[c + 2])
    && (withSeconds ==> s[c + 3] == ':' && IsDigit(s[c + 4]) && IsDigit(s[c + 5]))
    && s[close] == ']'
  }

  /** The body length of the match at `i`, trying the alternatives in the order of the
      backtracking matcher: two hour digits before one, the seconds group before none. */
  function MatchAt(s: string, i: nat): Option<nat> {
    if ShapeAt(s, i, 2, true) then Some(8)
    else if ShapeAt(s, i, 2, false) then Some(5)
    else if ShapeAt(s, i, 1, true) then Some(7)
    else if ShapeAt(s, i, 1, false) then Some(4)
    else None
  }

  /** A match ends inside the text. */
  lemma MatchAtBound(s: string, i: nat)
    ensures MatchAt(s, i).Some? ==> i + MatchAt(s, i).value + 2 <= |s|
  {
  }

  /** An alternative tried at `i` succeeds exactly when the text there has its shape. */
  lemma ShapeAtBody(s: string, i: nat, hl: nat, withSeconds: bool)
    requires 1 <= hl <= 2
    ensures var n := hl + (if withSeconds then 6 else 3);
      ShapeAt(s, i, hl, withSeconds) <==>
      i + n + 2 <= |s| && s[i] == '[' && ClockShape(s[i + 1..i + 1 + n], hl, withSeconds) && s[i + 1 + n] == ']'
  {
    var n := hl + (if withSeconds then 6 else 3);
    if i + n + 2 <= |s| {
      var b := s[i + 1..i + 1 + n];
      assert forall k | 0 <= k < n :: b[k] == s[i + 1 + k];
      assert AllDigits(b[..hl]) <==> IsDigit(s[i + 1]) && (hl == 2 ==> IsDigit(s[i + 2])) by {
        AllDigitsAt(b[..hl]);
        assert b[..hl][0] == s[i + 1];
        if hl == 2 {
          assert b[..hl][1] == s[i + 2];
        }
      }
      assert AllDigits(b[hl + 1..hl + 3]) <==> IsDigit(s[i + 2 + hl]) && IsDigit(s[i + 3 + hl]) by {
        AllDigitsAt(b[hl + 1..hl + 3]);
        assert b[hl + 1..hl + 3][0] == s[i + 2 + hl];
        assert b[hl + 1..hl + 3][1] == s[i + 3 + hl];
      }
      if withSeconds {
        assert AllDigits(b[hl + 4..]) <==> IsDigit(s[i + 5 + hl]) && IsDigit(s[i + 6 + hl]) by {
          AllDigitsAt(b[hl + 4..]);
          assert b[hl + 4..][0] == s[i + 5 + hl];
          assert b[hl + 4..][1] == s[i + 6 + hl];
        }
      }
    }
  }

  /** The matcher finds a marker exactly when there is one, and there is at most one marker
      at a position, so the order of the alternatives does not matter. */
  lemma MatchAtCharacterised(s: string, i: nat, n: nat)
    ensures MatchAt(s, i) == Some(n) <==> MarkerAt(s, i, n)
  {
    ShapeAtBody(s, i, 2, true);
    ShapeAtBody(s, i, 2, false);
    ShapeAtBody(s, i, 1, true);
    ShapeAtBody(s, i, 1, false);
  }


  // ---------------------------------------------------------------------------
  // The rewrite

  /** The image block a resolved marker becomes. */
  function ImageBlock(ts: string, url: string): string {
    "\n\n![" + ts + "](" + url + ")\n\n"
  }

  /** `replace_timestamp` on cache `c`, for a marker with body `body`: what it returns and
      the cache after. */
  function Replacement(env: Env, c: Cache, body: string): (string, Cache) {
    var ts := Normalize(body);
    var r := Lookup(env, c, ts);
    (if |r.0| > 0 && env.fileExists(r.0) then ImageBlock(ts, env.mediaUrl(r.0)) else "[" + body + "]", r.1)
  }

  /** `re.sub(pattern, repl, s)` from position `i` on, after `done` has been produced, with
      cache `c`: a marker at `i` is replaced by what the callback returns for its capture
      group and skipped, any other character is copied. */
  function Substitute(repl: (Cache, string) -> (string, Cache), c: Cache, s: string, i: nat, done: string): (string, Cache)
    decreases |s| - i
  {
    if i >= |s| then (done, c)
    else
      match MatchAt(s, i)
      case Some(n) =>
        var r := repl(c, s[i + 1..i + 1 + n]);
        Substitute(repl, r.1, s, i + n + 2, done + r.0)
      case None => Substitute(repl, c, s, i + 1, done + [s[i]])
  }

  /** One step of the scan at `i`, whatever the callback. */
  lemma SubstituteUnfold(repl: (Cache, string) -> (string, Cache), c: Cache, s: string, i: nat, done: string)
    requires i < |s|
    ensures MatchAt(s, i).Some? ==>
      var n := MatchAt(s, i).value; var r := repl(c, s[i + 1..i + 1 + n]);
      Substitute(repl, c, s, i, done) == Substitute(repl, r.1, s, i + n + 2, done + r.0)
    ensures MatchAt(s, i).None? ==> Substitute(repl, c, s, i, done) == Substitute(repl, c, s, i + 1, done + [s[i]])
  {
  }

  /** `replace_timestamp`, the callback `_process_content_timestamps` hands to `re.sub`. */
  function Callback(env: Env): (Cache, string) -> (string, Cache) {
    (c, body) => Replacement(env, c, body)
  }

  function Rewrite(env: Env, c: Cache, s: string): (string, Cache) {
    Substitute(Callback(env), c, s, 0, "")
  }

  /** One step of the scan at `i` on cache `c`: the position after it, the text produced so
      far and the cache after. */
  function ScanAt(repl: (Cache, string) -> (string, Cache), c: Cache, s: string, i: nat, done: string): (nat, string, Cache)
    requires i < |s|
  {
    match MatchAt(s, i)
    case Some(n) =>
      var r := repl(c, s[i + 1..i + 1 + n]);
      (i + n + 2, done + r.0, r.1)
    case None => (i + 1, done + [s[i]], c)
  }

  /** The step over a marker takes the callback's piece and cache. */
  lemma ScanAtMarker(repl: (Cache, string) -> (string, Cache), c: Cache, s: string, i: nat, done: string, n: nat)
    requires i < |s| && MatchAt(s, i) == Some(n)
    ensures i + n + 2 <= |s|
    ensures var r := repl(c, s[i + 1..i + 1 + n]); ScanAt(repl, c, s, i, done) == (i + n + 2, done + r.0, r.1)
  {
    MatchAtBound(s, i);
  }

  /** A step moves forward inside the text, and the scan from the step's result is the scan
      from `i`. */
  lemma ScanAtContinues(repl: (Cache, string) -> (string, Cache), c: Cache, s: string, i: nat, done: string)
    requires i < |s|
    ensures var st := ScanAt(repl, c, s, i, done);
      && i < st.0 <= |s|
      && Substitute(repl, st.2, s, st.0, st.1) == Substitute(repl, c, s, i, done)
  {
    MatchAtBound(s, i);
    SubstituteUnfold(repl, c, s, i, done);
  }

  /** An unresolved marker is left as it is. */
  lemma UnresolvedKept(env: Env, c: Cache, body: string)
    requires var p := Lookup(env, c, Normalize(body)).0; |p| == 0 || !env.fileExists(p)
    ensures Replacement(env, c, body).0 == "[" + body + "]"
  {
  }

  lemma BracketedSlice(s: string, i: nat, n: nat)
    requires i + n + 2 <= |s| && s[i] == '[' && s[i + 1 + n] == ']'
    ensures s[i..i + n + 2] == "[" + s[i + 1..i + 1 + n] + "]"
  {
    assert s[i..i + n + 2] == [s[i]] + s[i + 1..i + 1 + n] + [s[i + 1 + n]];
  }

  /** A marker the callback gives back as it was written becomes its own text again. */
  lemma KeptMarker(repl: (Cache, string) -> (string, Cache), c: Cache, s: string, i: nat, n: nat)
    requires MatchAt(s, i) == Some(n)
    requires forall d: Cache, b | IsClock(b) :: repl(d, b).0 == "[" + b + "]"
    ensures i + n + 2 <= |s| && repl(c, s[i + 1..i + 1 + n]).0 == s[i..i + n + 2]
  {
    MatchAtCharacterised(s, i, n);
    BracketedSlice(s, i, n);
  }

  /** A callback that gives every marker back as it was written leaves the text unchanged,
      whatever it does to the cache. */
  lemma {:induction false} KeptIdentity(repl: (Cache, string) -> (string, Cache), c: Cache, s: string, i: nat, done: string)
    requires i <= |s|
    requires forall d: Cache, b | IsClock(b) :: repl(d, b).0 == "[" + b + "]"
    ensures Substitute(repl, c, s, i, done).0 == done + s[i..]
    decreases |s| - i
  {
    if i < |s| {
      match MatchAt(s, i)
      case Some(n) =>
        KeptMarker(repl, c, s, i, n);
        var r := repl(c, s[i + 1..i + 1 + n]);
        KeptIdentity(repl, r.1, s, i + n + 2, done + s[i..i + n + 2]);
        AppendSlices(done, s, i, i + n + 2);
      case None =>
        KeptIdentity(repl, c, s, i + 1, done + [s[i]]);
        AppendSlices(done, s, i, i + 1);
    }
  }

  /** When no frame file exists, the content is returned unchanged. */
  lemma NothingResolvedIdentity(env: Env, c: Cache, s: string)
    requires forall p :: !env.fileExists(p)
    ensures Rewrite(env, c, s).0 == s
  {
    forall d: Cache, b | IsClock(b)
      ensures Callback(env)(d, b).0 == "[" + b + "]"
    {
      UnresolvedKept(env, d, b);
    }
    KeptIdentity(Callback(env), c, s, 0, "");
  }

  lemma AppendSlices(done: string, s: string, i: nat, j: nat)
    requires i <= j <= |s|
    ensures done + s[i..j] + s[j..] == done + s[i..]
  {
    assert s[i..] == s[i..j] + s[j..];
  }

  /** Text without an opening bracket is never touched, and the cache is left alone. */
  lemma {:induction false} NoMarkerIdentity(repl: (Cache, string) -> (string, Cache), c: Cache, s: string, i: nat, done: string)
    requires i <= |s|
    requires '[' !in s
    ensures Substitute(repl, c, s, i, done) == (done + s[i..], c)
    decreases |s| - i
  {
    if i < |s| {
      assert s[i] != '[';
      assert MatchAt(s, i) == None;
      NoMarkerIdentity(repl, c, s, i + 1, done + [s[i]]);
      AppendSlices(done, s, i, i + 1);
      assert s[i..i + 1] == [s[i]];
      assert Substitute(repl, c, s, i, done) == Substitute(repl, c, s, i + 1, done + [s[i]]);
    } else {
      assert done + s[i..] == done;
    }
  }

  /** A callback that keeps the cache valid and only adds to it makes a scan that does. */
  lemma {:induction false} SubstituteKeepsValid(env: Env, repl: (Cache, string) -> (string, Cache), c: Cache, s: string, i: nat, done: string)
    requires CacheValid(env, c)
    requires forall d: Cache, b | CacheValid(env, d) ::
      CacheValid(env, repl(d, b).1) && d.extractions <= repl(d, b).1.extractions && d.entries.Keys <= repl(d, b).1.entries.Keys
    ensures var r := Substitute(repl, c, s, i, done);
      CacheValid(env, r.1) && c.extractions <= r.1.extractions && c.entries.Keys <= r.1.entries.Keys
    decreases |s| - i
  {
    if i < |s| {
      match MatchAt(s, i)
      case Some(n) =>
        var r := repl(c, s[i + 1..i + 1 + n]);
        SubstituteKeepsValid(env, repl, r.1, s, i + n + 2, done + r.0);
      case None =>
        SubstituteKeepsValid(env, repl, c, s, i + 1, done + [s[i]]);
    }
  }

  /** The rewrite keeps the cache valid, keeps every key and every logged call. */
  lemma RewriteKeepsValid(env: Env, c: Cache, s: string)
    requires CacheValid(env, c)
    ensures var r := Rewrite(env, c, s);
      CacheValid(env, r.1) && c.extractions <= r.1.extractions && c.entries.Keys <= r.1.entries.Keys
  {
    forall d: Cache, b | CacheValid(env, d)
      ensures var r := Callback(env)(d, b).1;
        CacheValid(env, r) && d.extractions <= r.extractions && d.entries.Keys <= r.entries.Keys
    {
      LookupKeepsValid(env, d, Normalize(b));
      LookupGrowth(env, d, Normalize(b));
    }
    SubstituteKeepsValid(env, Callback(env), c, s, 0, "");
  }

  /** The same marker a second time finds its frame in the cache: the same piece, and no new
      call. */
  lemma RepeatedMarkerOnce(env: Env, c: Cache, body: string)
    ensures var r := Replacement(env, c, body); Replacement(env, r.1, body) == r
  {
    var ts := Normalize(body);
    var l := Lookup(env, c, ts);
    NormalizeIdempotent(body);
    CompletedLookupOnce(env, c, ts);
    assert Replacement(env, c, body).1 == l.1;
    assert Lookup(env, l.1, ts) == l;
    var r := Replacement(env, c, body);
    assert r.0 == (if |l.0| > 0 && env.fileExists(l.0) then ImageBlock(ts, env.mediaUrl(l.0)) else "[" + body + "]");
    assert Replacement(env, r.1, body) == r;
  }

  /** A marker `[b]` at `i` is a match with body `b`. */
  lemma MarkerAtPosition(w: string, i: nat, b: string)
    requires IsClock(b) && i + |b| + 2 <= |w| && w[i..i + |b| + 2] == "[" + b + "]"
    ensures MatchAt(w, i) == Some(|b|) && w[i + 1..i + 1 + |b|] == b
  {
    var m := "[" + b + "]";
    assert m[0] == '[' && m[|b| + 1] == ']';
    assert w[i] == m[0] && w[i + 1 + |b|] == m[|b| + 1];
    var body := w[i + 1..i + 1 + |b|];
    forall k | 0 <= k < |b|
      ensures body[k] == b[k]
    {
      assert body[k] == w[i + (k + 1)];
      assert w[i + (k + 1)] == m[k + 1];
    }
    assert body == b;
    assert MarkerAt(w, i, |b|);
    MatchAtCharacterised(w, i, |b|);
  }

  /** One scan step over a marker `[b]` at `i`: the callback's piece is appended and the
      scan goes on after the closing bracket with the cache the callback left. */
  lemma SubstituteAtMarker(repl: (Cache, string) -> (string, Cache), c: Cache, s: string, i: nat, b: string, done: string)
    requires IsClock(b) && i + |b| + 2 <= |s| && s[i..i + |b| + 2] == "[" + b + "]"
    ensures Substitute(repl, c, s, i, done) == Substitute(repl, repl(c, b).1, s, i + |b| + 2, done + repl(c, b).0)
  {
    MarkerAtPosition(s, i, b);
  }

  /** A scan over a marker written twice, with a callback that answers the second time
      as the first and leaves the cache as the first left it. */
  lemma RepeatedMatch(repl: (Cache, string) -> (string, Cache), c: Cache, b: string, r: (string, Cache))
    requires IsClock(b) && r == repl(c, b) && repl(r.1, b) == r
    ensures var m := "[" + b + "]"; Substitute(repl, c, m + m, 0, "") == (r.0 + r.0, r.1)
  {
    var m := "[" + b + "]";
    var w := m + m;
    assert w[0..|b| + 2] == m;
    assert w[|m|..|m| + |b| + 2] == m;
    SubstituteAtMarker(repl, c, w, 0, b, "");
    SubstituteAtMarker(repl, r.1, w, |m|, b, "" + r.0);
    assert "" + r.0 == r.0;
    assert |m| + |b| + 2 == |w|;
    assert Substitute(repl, c, w, 0, "") == Substitute(repl, r.1, w, |m|, r.0);
    assert Substitute(repl, r.1, w, |m|, r.0) == Substitute(repl, r.1, w, |w|, r.0 + r.0);
    assert Substitute(repl, r.1, w, |w|, r.0 + r.0) == (r.0 + r.0, r.1);
  }

  /** A marker written twice in a row is replaced twice by the same piece, with at most one
      `extract_frame` call for the two. */
  lemma RepeatedMarkerInText(env: Env, c: Cache, b: string)
    requires IsClock(b)
    ensures var m := "[" + b + "]"; var r := Replacement(env, c, b);
      Rewrite(env, c, m + m) == (r.0 + r.0, r.1)
    ensures var m := "[" + b + "]"; |Rewrite(env, c, m + m).1.extractions| <= |c.extractions| + 1
  {
    var r := Replacement(env, c, b);
    var repl := Callback(env);
    RepeatedMarkerOnce(env, c, b);
    assert repl(c, b) == r;
    assert repl(r.1, b) == r;
    RepeatedMatch(repl, c, b, r);
    LookupGrowth(env, c, Normalize(b));
  }

  // ---------------------------------------------------------------------------
  // Every call of a rewrite adds a key no earlier lookup had

  /** From `d` to `e` the cache only grows, and it made no more `extract_frame` calls than it
      gained keys. */
  predicate CallsWithinNewKeys(d: Cache, e: Cache) {
    && d.extractions <= e.extractions && d.entries.Keys <= e.entries.Keys
    && |e.extractions| - |d.extractions| <= |e.entries.Keys| - |d.entries.Keys|
  }

  /** A lookup of a completed timestamp either hits and changes nothing, or stores that
      timestamp as a new key with at most one call. */
  lemma CompletedLookupWithinNewKeys(env: Env, c: Cache, ts: string)
    requires CountChar(ts, ':') != 1
    ensures ts in c.entries ==> Lookup(env, c, ts).1 == c
    ensures CallsWithinNewKeys(c, Lookup(env, c, ts).1)
  {
    if ts !in c.entries {
      assert Normalize(ts) == ts;
      assert Lookup(env, c, ts).1.entries.Keys == c.entries.Keys + {ts};
    }
  }

  /** The callback for a marker whose completed timestamp is a key leaves the cache alone;
      otherwise it adds that key and makes at most one call. */
  lemma ReplacementWithinNewKeys(env: Env, c: Cache, b: string)
    ensures Normalize(b) in c.entries ==> Replacement(env, c, b).1 == c
    ensures CallsWithinNewKeys(c, Replacement(env, c, b).1)
  {
    NormalizeIdempotent(b);
    CompletedLookupWithinNewKeys(env, c, Normalize(b));
  }

  /** A callback that never calls more often than it adds keys makes a scan that does not. */
  lemma {:induction false} SubstituteWithinNewKeys(repl: (Cache, string) -> (string, Cache), c: Cache, s: string, i: nat, done: string)
    requires forall d: Cache, b: string :: CallsWithinNewKeys(d, repl(d, b).1)
    ensures CallsWithinNewKeys(c, Substitute(repl, c, s, i, done).1)
    decreases |s| - i
  {
    if i < |s| {
      match MatchAt(s, i)
      case Some(n) =>
        var r := repl(c, s[i + 1..i + 1 + n]);
        assert CallsWithinNewKeys(c, r.1);
        SubstituteWithinNewKeys(repl, r.1, s, i + n + 2, done + r.0);
      case None =>
        SubstituteWithinNewKeys(repl, c, s, i + 1, done + [s[i]]);
    }
  }

  /** Keys gained by a growing map, counted as a set difference. */
  lemma NewKeysCount(d: set<string>, e: set<string>)
    requires d <= e
    ensures |e - d| == |e| - |d|
  {
    assert e == (e - d) + d;
    assert (e - d) * d == {};
  }

  /** Rewriting content makes no more `extract_frame` calls than it adds keys: a marker whose
      completed timestamp an earlier lookup stored, anywhere before it in this content or in
      any earlier lookup on the cache, costs no call. */
  lemma RewriteCallsWithinNewKeys(env: Env, c: Cache, s: string)
    ensures CallsWithinNewKeys(c, Rewrite(env, c, s).1)
    ensures var r := Rewrite(env, c, s);
      && c.extractions <= r.1.extractions && c.entries.Keys <= r.1.entries.Keys
      && |r.1.extractions| - |c.extractions| <= |r.1.entries.Keys - c.entries.Keys|
  {
    forall d: Cache, b: string
      ensures CallsWithinNewKeys(d, Callback(env)(d, b).1)
    {
      ReplacementWithinNewKeys(env, d, b);
    }
    SubstituteWithinNewKeys(Callback(env), c, s, 0, "");
    NewKeysCount(c.entries.Keys, Rewrite(env, c, s).1.entries.Keys);
  }
}
