/** Subtitle lookup of the note generator (`NoteGenerationView._get_subtitle_text` in
    backend/video/views/note_generation.py): an ordered list of candidate `.srt` paths built
    from the video's id, URL and name, and the first candidate that exists and can be read.
    Paths follow POSIX `os.path`; existence and reading are oracles. */
module SubtitleLookup {
  import opened Wrappers
  import opened Text

  /** The fields of a video record the lookup uses; an empty string is a missing value. */
  datatype VideoRecord = VideoRecord(id: nat, url: string, name: string)

  const Suffixes: seq<string> := ["", "_zh", "_en", "_zh-CN", "_en-US"]

  // ---------------------------------------------------------------------------
  // os.path

  /** `s.rfind(c)`: the last index of `c`, or -1. */
  function RFind(s: string, c: char): (r: int)
    ensures -1 <= r < |s|
    ensures r >= 0 ==> s[r] == c
    ensures forall k | r < k < |s| :: s[k] != c
  {
    if s == [] then -1
    else if s[|s| - 1] == c then |s| - 1
    else RFind(s[..|s| - 1], c)
  }

  /** The last occurrence is the one `rfind` reports. */
  lemma RFindAt(s: string, c: char, i: int)
    requires -1 <= i < |s|
    requires i >= 0 ==> s[i] == c
    requires forall k | i < k < |s| :: s[k] != c
    ensures RFind(s, c) == i
  {
  }

  /** Some character of `s` is not a dot. */
  predicate HasNonDot(s: string) {
    exists k | 0 <= k < |s| :: s[k] != '.'
  }

  /** The extension `posixpath.splitext` splits off: from the last dot of the last path
      component, unless that component has only dots before it. */
  function ExtStart(p: string): Option<nat> {
    var sepIndex := RFind(p, '/');
    var dotIndex := RFind(p, '.');
    if dotIndex > sepIndex && HasNonDot(p[sepIndex + 1..dotIndex]) then Some(dotIndex) else None
  }

  /** `os.path.splitext(p)[0]`. */
  function StripExt(p: string): string {
    match ExtStart(p)
    case None => p
    case Some(i) => p[..i]
  }

  /** `os.path.splitext(p)[1]`. */
  function Ext(p: string): string {
    match ExtStart(p)
    case None => ""
    case Some(i) => p[i..]
  }

  /** `posixpath.join(a, b)`: an absolute `b` replaces `a`; otherwise a slash is put between
      them unless `a` is empty or already ends in one. */
  function PathJoin(a: string, b: string): string {
    if |b| > 0 && b[0] == '/' then b
    else if a == [] || a[|a| - 1] == '/' then a + b
    else a + "/" + b
  }

  /** The root and the extension put back together give the path, and the extension is
      empty or a dot followed by neither a dot nor a slash. */
  lemma SplitExtRoundTrip(p: string)
    ensures StripExt(p) + Ext(p) == p
    ensures Ext(p) == [] || (Ext(p)[0] == '.' && '.' !in Ext(p)[1..] && '/' !in Ext(p))
  {
    match ExtStart(p)
    case None =>
    case Some(i) =>
      var e := p[i..];
      assert p[..i] + e == p;
      assert '.' !in e[1..] by {
        forall k | 0 <= k < |e| - 1
          ensures e[1..][k] != '.'
        {
          assert e[1..][k] == p[i + 1 + k];
        }
      }
      assert '/' !in e by {
        forall k | 0 <= k < |e|
          ensures e[k] != '/'
        {
          assert e[k] == p[i + k];
        }
      }
  }

  lemma SplitExtExamples()
    ensures StripExt("lecture.mp4") == "lecture"
    ensures StripExt("course/week1.final.mkv") == "course/week1.final"
    ensures StripExt(".hidden") == ".hidden"
    ensures StripExt("dir.v2/readme") == "dir.v2/readme"
  {
    var a := "lecture.mp4";
    RFindAt(a, '/', -1);
    RFindAt(a, '.', 7);
    assert a[0..7][0] != '.';
    var b := "course/week1.final.mkv";
    RFindAt(b, '/', 6);
    RFindAt(b, '.', 18);
    assert b[7..18][0] != '.';
    var c := ".hidden";
    RFindAt(c, '/', -1);
    RFindAt(c, '.', 0);
    var d := "dir.v2/readme";
    RFindAt(d, '/', 6);
    RFindAt(d, '.', 3);
  }

  // ---------------------------------------------------------------------------
  // Candidates

  /** The id, then the URL and the name without their extensions when they are set. */
  function BaseNames(v: VideoRecord): (names: seq<string>)
    ensures 1 <= |names| <= 3
    ensures |names| == 1 + (if |v.url| > 0 then 1 else 0) + (if |v.name| > 0 then 1 else 0)
    ensures names[0] == NatToDecimal(v.id)
    ensures |v.url| > 0 ==> names[1] == StripExt(v.url)
    ensures |v.name| > 0 ==> names[|names| - 1] == StripExt(v.name)
  {
    [NatToDecimal(v.id)]
    + (if |v.url| > 0 then [StripExt(v.url)] else [])
    + (if |v.name| > 0 then [StripExt(v.name)] else [])
  }

  function CandidatesFor(srtDir: string, base: string, j: nat): seq<string>
    requires j <= |Suffixes|
    decreases |Suffixes| - j
  {
    if j == |Suffixes| then []
    else [PathJoin(srtDir, base + Suffixes[j] + ".srt")] + CandidatesFor(srtDir, base, j + 1)
  }

  /** Every base name with every suffix, base names outermost. */
  function Candidates(srtDir: string, bases: seq<string>): seq<string> {
    if bases == [] then [] else CandidatesFor(srtDir, bases[0], 0) + Candidates(srtDir, bases[1..])
  }

  lemma {:induction false} CandidatesForShape(srtDir: string, base: string, j: nat)
    requires j <= |Suffixes|
    ensures |CandidatesFor(srtDir, base, j)| == |Suffixes| - j
    ensures forall k | 0 <= k < |Suffixes| - j ::
      CandidatesFor(srtDir, base, j)[k] == PathJoin(srtDir, base + Suffixes[j + k] + ".srt")
    decreases |Suffixes| - j
  {
    if j < |Suffixes| {
      CandidatesForShape(srtDir, base, j + 1);
    }
  }

  lemma {:induction false} CandidatesLength(srtDir: string, bases: seq<string>)
    ensures |Candidates(srtDir, bases)| == |Suffixes| * |bases|
  {
    if bases != [] {
      CandidatesForShape(srtDir, bases[0], 0);
      CandidatesLength(srtDir, bases[1..]);
    }
  }

  /** Candidate `5*i + j` is base name `i` with suffix `j`. */
  lemma {:induction false} CandidateAt(srtDir: string, bases: seq<string>, i: nat, j: nat)
    requires i < |bases| && j < |Suffixes|
    ensures |Suffixes| * i + j < |Candidates(srtDir, bases)|
    ensures Candidates(srtDir, bases)[|Suffixes| * i + j] == PathJoin(srtDir, bases[i] + Suffixes[j] + ".srt")
    decreases i
  {
    CandidatesLength(srtDir, bases);
    CandidatesForShape(srtDir, bases[0], 0);
    var head, tail := CandidatesFor(srtDir, bases[0], 0), Candidates(srtDir, bases[1..]);
    if i == 0 {
      assert (head + tail)[j] == head[j];
    } else {
      CandidateAt(srtDir, bases[1..], i - 1, j);
      assert bases[1..][i - 1] == bases[i];
      assert |Suffixes| * i + j == |head| + (|Suffixes| * (i - 1) + j);
    }
  }

  /** Every base name with every suffix, base names outermost: candidate `5*i + j` is base
      name `i` with suffix `j`. */
  lemma CandidateOrder(srtDir: string, bases: seq<string>)
    ensures |Candidates(srtDir, bases)| == |Suffixes| * |bases|
    ensures forall i, j | 0 <= i < |bases| && 0 <= j < |Suffixes| ::
      Candidates(srtDir, bases)[|Suffixes| * i + j] == PathJoin(srtDir, bases[i] + Suffixes[j] + ".srt")
  {
    CandidatesLength(srtDir, bases);
    forall i, j | 0 <= i < |bases| && 0 <= j < |Suffixes|
      ensures Candidates(srtDir, bases)[|Suffixes| * i + j] == PathJoin(srtDir, bases[i] + Suffixes[j] + ".srt")
    {
      CandidateAt(srtDir, bases, i, j);
    }
  }

  /** The candidates of the video record, in probing order. */
  function SubtitleCandidates(srtDir: string, v: VideoRecord): seq<string> {
    Candidates(srtDir, BaseNames(v))
  }

  /** The id-based candidates always come first, starting with the plain `<id>.srt`. */
  lemma IdCandidatesFirst(srtDir: string, v: VideoRecord)
    ensures |SubtitleCandidates(srtDir, v)| >= |Suffixes|
    ensures forall j | 0 <= j < |Suffixes| ::
      SubtitleCandidates(srtDir, v)[j] == PathJoin(srtDir, NatToDecimal(v.id) + Suffixes[j] + ".srt")
  {
    CandidateOrder(srtDir, BaseNames(v));
    forall j | 0 <= j < |Suffixes|
      ensures SubtitleCandidates(srtDir, v)[j] == PathJoin(srtDir, NatToDecimal(v.id) + Suffixes[j] + ".srt")
    {
      assert |Suffixes| * 0 + j == j;
    }
  }

  // ---------------------------------------------------------------------------
  // Probing

  /** A candidate counts when it exists and its contents can be read. */
  predicate Usable(fileExists: string -> bool, read: string -> Option<string>, path: string) {
    fileExists(path) && read(path).Some?
  }

  /** The text of the first usable candidate from `k` on, or `""`. */
  function FirstText(fileExists: string -> bool, read: string -> Option<string>, paths: seq<string>, k: nat): string
    requires k <= |paths|
    decreases |paths| - k
  {
    if k == |paths| then ""
    else if Usable(fileExists, read, paths[k]) then read(paths[k]).value
    else FirstText(fileExists, read, paths, k + 1)
  }

  lemma {:induction false} NoUsableText(fileExists: string -> bool, read: string -> Option<string>,
                                        paths: seq<string>, k: nat)
    requires k <= |paths|
    requires forall i | k <= i < |paths| :: !Usable(fileExists, read, paths[i])
    ensures FirstText(fileExists, read, paths, k) == ""
    decreases |paths| - k
  {
    if k < |paths| {
      NoUsableText(fileExists, read, paths, k + 1);
    }
  }

  lemma {:induction false} FirstUsableText(fileExists: string -> bool, read: string -> Option<string>,
                                           paths: seq<string>, k: nat, i: nat)
    requires k <= i < |paths| && Usable(fileExists, read, paths[i])
    requires forall h | k <= h < i :: !Usable(fileExists, read, paths[h])
    ensures FirstText(fileExists, read, paths, k) == read(paths[i]).value
    decreases i - k
  {
    if k < i {
      FirstUsableText(fileExists, read, paths, k + 1, i);
    }
  }

  /** The text returned is that of the first usable candidate, and `""` when there is none. */
  lemma FirstTextCharacterised(fileExists: string -> bool, read: string -> Option<string>,
                               paths: seq<string>, k: nat)
    requires k <= |paths|
    ensures (forall i | k <= i < |paths| :: !Usable(fileExists, read, paths[i])) ==>
      FirstText(fileExists, read, paths, k) == ""
    ensures forall i | k <= i < |paths| ::
      Usable(fileExists, read, paths[i]) && (forall h | k <= h < i :: !Usable(fileExists, read, paths[h])) ==>
      FirstText(fileExists, read, paths, k) == read(paths[i]).value
  {
    if forall i | k <= i < |paths| :: !Usable(fileExists, read, paths[i]) {
      NoUsableText(fileExists, read, paths, k);
    }
    forall i | k <= i < |paths| &&
      Usable(fileExists, read, paths[i]) && (forall h | k <= h < i :: !Usable(fileExists, read, paths[h]))
      ensures FirstText(fileExists, read, paths, k) == read(paths[i]).value
    {
      FirstUsableText(fileExists, read, paths, k, i);
    }
  }

  /** The probing loop: the first candidate that exists and reads wins; one that exists but
      cannot be read is skipped. */
  method GetSubtitleText(srtDir: string, v: VideoRecord, fileExists: string -> bool,
                         read: string -> Option<string>) returns (text: string)
    ensures text == FirstText(fileExists, read, SubtitleCandidates(srtDir, v), 0)
  {
    var possibleFiles := SubtitleCandidates(srtDir, v);
    var k := 0;
    while k < |possibleFiles|
      invariant 0 <= k <= |possibleFiles|
      invariant FirstText(fileExists, read, possibleFiles, k) == FirstText(fileExists, read, possibleFiles, 0)
      decreases |possibleFiles| - k
    {
      var srtPath := possibleFiles[k];
      if fileExists(srtPath) {
        var contents := read(srtPath);
        if contents.Some? {
          return contents.value;
        }
      }
      k := k + 1;
    }
    return "";
  }
}
