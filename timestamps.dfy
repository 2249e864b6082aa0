/** Timestamp parsing of the note generator (`timestamp_to_seconds` in
    backend/video/views/note_generation.py) and the `00:` completion the frame lookup and
    the marker rewriter apply before it. */
module Timestamps {
  import opened Wrappers
  import opened Text

  /** Python's `int(s)` on the literals the model covers: surrounding whitespace, an optional
      sign and decimal digits; anything else raises, here None. */
  function PyInt(s: string): Option<int> {
    SignedInteger(Strip(s, PyWhitespace))
  }

  /** Python's `float(s)` on the literals the model covers: surrounding whitespace, an
      optional sign, digits with an optional fraction; anything else raises, here None. */
  function PyFloat(s: string): Option<real> {
    SignedDecimal(Strip(s, PyWhitespace))
  }

  /** `timestamp_to_seconds`: three colon-separated fields are hours, minutes and seconds,
      two are minutes and seconds, anything else is read as a number of seconds. Only the
      last field may have a fraction. None stands for the ValueError the source raises. */
  function TimestampToSeconds(ts: string): Option<real> {
    var parts := Split(ts, ':');
    if |parts| == 3 then
      match (PyInt(parts[0]), PyInt(parts[1]), PyFloat(parts[2]))
      case (Some(h), Some(m), Some(s)) => Some((h * 3600 + m * 60) as real + s)
      case _ => None
    else if |parts| == 2 then
      match (PyInt(parts[0]), PyFloat(parts[1]))
      case (Some(m), Some(s)) => Some((m * 60) as real + s)
      case _ => None
    else PyFloat(ts)
  }

  /** The completion to `HH:MM:SS`: a timestamp with exactly one colon gets `00:` in front. */
  function Normalize(ts: string): string {
    if CountChar(ts, ':') == 1 then "00:" + ts else ts
  }

  // ---------------------------------------------------------------------------
  // Reading fields

  lemma DigitsNotWhitespace(s: string)
    requires AllDigits(s)
    ensures Strip(s, PyWhitespace) == s
  {
    AllDigitsAt(s);
    if s != [] {
      VisibleNotWhitespace(s[0]);
      VisibleNotWhitespace(s[|s| - 1]);
    }
    StripUnchanged(s, PyWhitespace);
  }

  /** A non-empty run of digits is read by both `int()` and `float()` as its value. */
  lemma DigitsRead(s: string)
    requires |s| >= 1 && AllDigits(s)
    ensures PyInt(s) == Some(DecimalValue(s))
    ensures PyFloat(s) == Some(DecimalValue(s) as real)
    ensures ':' !in s
  {
    DigitsNotWhitespace(s);
    DigitsAsLiteral(s);
    NoColonInDigits(s);
  }

  lemma NoColonInDigits(s: string)
    requires AllDigits(s)
    ensures ':' !in s
  {
  }

  /** A zero-padded field reads back as its number. */
  lemma ZeroPadRead(n: nat, width: nat)
    ensures PyInt(ZeroPad(n, width)) == Some(n)
    ensures PyFloat(ZeroPad(n, width)) == Some(n as real)
    ensures ':' !in ZeroPad(n, width)
  {
    ZeroPadValue(n, width);
    DigitsRead(ZeroPad(n, width));
    NoColonInDigits(ZeroPad(n, width));
  }

  // ---------------------------------------------------------------------------
  // Properties

  /** Three colon-free fields that `int()`, `int()` and `float()` read as `h`, `m` and `s`
      make a timestamp worth `h*3600 + m*60 + s` seconds. */
  lemma ThreeFields(hs: string, ms: string, ss: string, h: int, m: int, s: real)
    requires ':' !in hs && ':' !in ms && ':' !in ss
    requires PyInt(hs) == Some(h) && PyInt(ms) == Some(m) && PyFloat(ss) == Some(s)
    ensures TimestampToSeconds(hs + ":" + ms + ":" + ss) == Some((h * 3600 + m * 60) as real + s)
  {
    SplitThree(hs, ms, ss);
  }

  lemma ThreeWholeFields(hs: string, ms: string, ss: string, h: int, m: int, s: int)
    requires ':' !in hs && ':' !in ms && ':' !in ss
    requires PyInt(hs) == Some(h) && PyInt(ms) == Some(m) && PyFloat(ss) == Some(s as real)
    ensures TimestampToSeconds(hs + ":" + ms + ":" + ss) == Some((h * 3600 + m * 60 + s) as real)
  {
    SplitThree(hs, ms, ss);
  }

  lemma SplitThree(a: string, b: string, c: string)
    requires ':' !in a && ':' !in b && ':' !in c
    ensures Split(a + ":" + b + ":" + c, ':') == [a, b, c]
  {
    SplitWithoutSeparator(c, ':');
    SplitAtSeparator(b, ':', c);
    assert a + ":" + b + ":" + c == a + [':'] + (b + [':'] + c);
    SplitAtSeparator(a, ':', b + [':'] + c);
  }

  /** Two colon-free fields that `int()` and `float()` read as `m` and `s` make a timestamp
      worth `m*60 + s` seconds. */
  lemma TwoFields(ms: string, ss: string, m: int, s: real)
    requires ':' !in ms && ':' !in ss
    requires PyInt(ms) == Some(m) && PyFloat(ss) == Some(s)
    ensures TimestampToSeconds(ms + ":" + ss) == Some((m * 60) as real + s)
  {
    SplitTwo(ms, ss);
  }

  /** A bare number of seconds (no colon) is read as a float. */
  lemma NoColonIsSeconds(ts: string)
    requires ':' !in ts
    ensures TimestampToSeconds(ts) == PyFloat(ts)
  {
    SplitWithoutSeparator(ts, ':');
  }

  lemma NotWhitespaceColon()
    ensures ':' !in PyWhitespace
  {
    VisibleNotWhitespace(':');
  }

  /** A literal with a colon in it is no number. */
  lemma ColonIsNoNumber(s: string)
    requires ':' in s
    ensures PyFloat(s) == None
  {
    var r := Strip(s, PyWhitespace);
    StripShape(s, PyWhitespace);
    NotWhitespaceColon();
    var i :| 0 <= i < |s| && s[i] == ':';
    var k := |s| - |StripLeft(s, PyWhitespace)|;
    assert k <= i < k + |r|;
    assert r[i - k] == ':';
    ColonRejected(r);
  }

  lemma ColonRejected(r: string)
    requires ':' in r
    ensures SignedDecimal(r) == None
  {
    var body := if |r| >= 1 && (r[0] == '-' || r[0] == '+') then r[1..] else r;
    assert ':' in body by {
      var i :| 0 <= i < |r| && r[i] == ':';
      if body != r {
        assert body[i - 1] == ':';
      }
    }
    ColonRejectedUnsigned(body);
  }

  lemma ColonRejectedUnsigned(s: string)
    requires ':' in s
    ensures UnsignedDecimal(s) == None
  {
    var j :| 0 <= j < |s| && s[j] == ':';
    match DotIndex(s)
    case Some(i) =>
      if j < i {
        AllDigitsAt(s[..i]);
        assert s[..i][j] == ':';
      } else {
        AllDigitsAt(s[i + 1..]);
        assert s[i + 1..][j - i - 1] == ':';
      }
    case None =>
      AllDigitsAt(s);
  }

  /** Three or more colons always raise: `float()` of the whole string fails. */
  lemma TooManyColons(ts: string)
    requires CountChar(ts, ':') >= 3
    ensures TimestampToSeconds(ts) == None
  {
    SplitLength(ts, ':');
    CountedIsIn(ts, ':');
    ColonIsNoNumber(ts);
  }

  lemma {:induction false} CountedIsIn(s: string, c: char)
    requires CountChar(s, c) >= 1
    ensures c in s
  {
    if s[0] != c {
      CountedIsIn(s[1..], c);
      assert s[1..] == s[1..];
      var i :| 0 <= i < |s[1..]| && s[1..][i] == c;
      assert s[i + 1] == c;
    }
  }

  /** Completing `MM:SS` to `00:MM:SS` never changes the number of seconds. */
  lemma NormalizePreservesSeconds(ts: string)
    ensures TimestampToSeconds(Normalize(ts)) == TimestampToSeconds(ts)
  {
    if CountChar(ts, ':') == 1 {
      var a, b := OneColonPieces(ts);
      ZeroFieldRead();
      CompletedTwoFields("00", a, b);
    }
  }

  /** A timestamp with one colon is two colon-free pieces around it. */
  lemma OneColonPieces(ts: string) returns (a: string, b: string)
    requires CountChar(ts, ':') == 1
    ensures ':' !in a && ':' !in b && ts == a + ":" + b
    ensures "00:" + ts == "00" + ":" + a + ":" + b
  {
    CountedIsIn(ts, ':');
    var i := IndexOf(ts, ':');
    a, b := ts[..i], ts[i + 1..];
    assert ts == a + [':'] + b;
    CountAppend(a + [':'], b, ':');
    CountAppend(a, [':'], ':');
    assert CountChar([':'], ':') == 1;
    if ':' in b {
      InIsCounted(b, ':');
    }
  }

  lemma {:induction false} InIsCounted(s: string, c: char)
    requires c in s
    ensures CountChar(s, c) >= 1
  {
    if s[0] != c {
      assert c in s[1..] by {
        var i :| 0 <= i < |s| && s[i] == c;
        assert s[1..][i - 1] == c;
      }
      InIsCounted(s[1..], c);
    }
  }

  /** A zero field in front of two colon-free pieces reads as the two pieces alone. */
  lemma CompletedTwoFields(z: string, a: string, b: string)
    requires ':' !in z && ':' !in a && ':' !in b && PyInt(z) == Some(0)
    ensures TimestampToSeconds(z + ":" + a + ":" + b) == TimestampToSeconds(a + ":" + b)
  {
    SplitThree(z, a, b);
    SplitTwo(a, b);
  }

  lemma SplitTwo(a: string, b: string)
    requires ':' !in a && ':' !in b
    ensures Split(a + ":" + b, ':') == [a, b]
  {
    SplitWithoutSeparator(b, ':');
    SplitAtSeparator(a, ':', b);
  }

  /** Completion is done once: a completed timestamp is left alone, and the result never
      has exactly one colon. */
  lemma NormalizeIdempotent(ts: string)
    ensures CountChar(Normalize(ts), ':') != 1
    ensures Normalize(Normalize(ts)) == Normalize(ts)
  {
    if CountChar(ts, ':') == 1 {
      CountAppend("00:", ts, ':');
      assert CountChar("00:", ':') == 1;
    }
  }

  lemma {:induction false} CountAppend(a: string, b: string, c: char)
    ensures CountChar(a + b, c) == CountChar(a, c) + CountChar(b, c)
  {
    if a == [] {
      assert a + b == b;
    } else {
      assert (a + b)[1..] == a[1..] + b;
      assert (a + b)[0] == a[0];
      CountAppend(a[1..], b, c);
    }
  }

  /** The default timestamp of a note reads as zero seconds. */
  lemma DefaultTimestampIsZero()
    ensures TimestampToSeconds("00:00:00") == Some(0.0)
  {
    ZeroSplit();
    ZeroFieldRead();
    ReadThreeParts("00:00:00", "00", "00", "00", 0, 0, 0.0);
  }

  /** A timestamp that splits into three fields read as `h`, `m` and `s`. */
  lemma ReadThreeParts(ts: string, hs: string, ms: string, ss: string, h: int, m: int, s: real)
    requires Split(ts, ':') == [hs, ms, ss]
    requires PyInt(hs) == Some(h) && PyInt(ms) == Some(m) && PyFloat(ss) == Some(s)
    ensures TimestampToSeconds(ts) == Some((h * 3600 + m * 60) as real + s)
  {
  }

  lemma ZeroSplit()
    ensures Split("00:00:00", ':') == ["00", "00", "00"]
  {
    ZeroFieldRead();
    SplitThree("00", "00", "00");
    assert "00" + ":" + "00" + ":" + "00" == "00:00:00";
  }

  lemma ZeroFieldRead()
    ensures PyInt("00") == Some(0) && PyFloat("00") == Some(0.0) && ':' !in "00"
  {
    assert AllDigits("00");
    DigitsRead("00");
    assert DecimalValue("00") == 0;
  }
}
