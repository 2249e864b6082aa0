/** The front end's clock helpers (frontend/src/composables/TimeFunc.ts): `hhmmssToSeconds`
    reads up to three colon-separated fields as hours, minutes and seconds, and
    `secondsToHHMMSS` renders a number of seconds as zero-padded `HH:MM:SS`. JavaScript
    numbers are modelled as reals; NaN is None. */
module TimeFunc {
  import opened Wrappers
  import opened Text
  import Timestamps

  // ---------------------------------------------------------------------------
  // Number()

  /** The characters `Number()` trims: the JavaScript white space (tab, vertical tab, form
      feed, space, no-break space, the Unicode space separators and the byte order mark)
      and the line terminators. */
  predicate IsJsWhitespace(c: char) {
    '\t' <= c <= '\r' || c == ' ' || c == '\U{A0}' || c == '\U{1680}' || '\U{2000}' <= c <= '\U{200A}'
    || c == '\U{2028}' || c == '\U{2029}' || c == '\U{202F}' || c == '\U{205F}' || c == '\U{3000}'
    || c == '\U{FEFF}'
  }

  const JsWhitespace: set<char> := set c: char | '\t' <= c <= '\U{FEFF}' && IsJsWhitespace(c)

  /** `Number(s)` on the literals the model covers: after trimming, the empty string is 0
      and a decimal literal with an optional sign is its value; anything else is NaN. */
  function JsNumber(s: string): Option<real> {
    var t := Strip(s, JsWhitespace);
    if t == [] then Some(0.0) else SignedDecimal(t)
  }

  /** `parts[i] || 0`: a missing field (undefined) and NaN both count as 0. */
  function Field(parts: seq<string>, i: nat): real {
    if i < |parts| then JsNumber(parts[i]).GetOr(0.0) else 0.0
  }

  /** `hhmmssToSeconds`: fields beyond the third are ignored. */
  function HhmmssToSeconds(hms: string): real {
    var parts := Split(hms, ':');
    Field(parts, 0) * 3600.0 + Field(parts, 1) * 60.0 + Field(parts, 2)
  }

  // ---------------------------------------------------------------------------
  // secondsToHHMMSS

  /** `Math.floor`. */
  function Floor(x: real): int {
    x.Floor
  }

  /** JavaScript's `x % y` for a positive `y`: the remainder of the division truncated
      toward zero, which has the sign of `x`. */
  function JsRem(x: real, y: real): real
    requires y > 0.0
  {
    var q := x / y;
    var t := if q >= 0.0 then q.Floor else -((-q).Floor);
    x - y * t as real
  }

  /** The three numbers `secondsToHHMMSS` renders. */
  datatype Clock = Clock(h: int, m: int, s: int)

  function ClockOf(seconds: real): Clock {
    Clock(Floor(seconds / 3600.0), Floor(JsRem(seconds, 3600.0) / 60.0), Floor(JsRem(seconds, 60.0)))
  }

  /** `n.toString().padStart(2, '0')`. */
  function Pad2(n: int): string {
    PadLeft(IntToDecimal(n), 2, '0')
  }

  function Render(c: Clock): string {
    Pad2(c.h) + ":" + Pad2(c.m) + ":" + Pad2(c.s)
  }

  /** `secondsToHHMMSS`. */
  function SecondsToHHMMSS(seconds: real): string {
    Render(ClockOf(seconds))
  }

  // ---------------------------------------------------------------------------
  // The clock fields

  /** Dividing a non-negative number by a positive whole `d`: the floor of the quotient is
      the whole division of its floor, and the remainder is the floor's remainder plus the
      fraction. */
  lemma DivideWhole(x: real, d: int)
    requires x >= 0.0 && d > 0
    ensures (x / d as real).Floor == x.Floor / d
    ensures JsRem(x, d as real) == (x.Floor % d) as real + (x - x.Floor as real)
  {
    var n := x.Floor;
    var q, r := n / d, n % d;
    var f := x - n as real;
    var y := (r as real + f) / d as real;
    WholeAndFraction(n, d, f);
    RatioBelowOne(r as real + f, d as real);
    FloorOfWholePlusFraction(q, y);
  }

  lemma WholeAndFraction(n: int, d: int, f: real)
    requires d > 0
    ensures (n as real + f) / d as real == (n / d) as real + ((n % d) as real + f) / d as real
  {
    var q, r := n / d, n % d;
    assert n == d * q + r;
    assert (d * q) as real == d as real * q as real;
  }

  lemma RatioBelowOne(u: real, d: real)
    requires 0.0 <= u < d
    ensures 0.0 <= u / d < 1.0
  {
  }

  lemma FloorOfWholePlusFraction(q: int, y: real)
    requires 0.0 <= y < 1.0
    ensures (q as real + y).Floor == q
  {
  }

  /** For a non-negative input the fields are the hours, the minutes within the hour and
      the seconds within the minute of its whole seconds. */
  lemma ClockFields(x: real)
    requires x >= 0.0
    ensures var n := x.Floor; ClockOf(x) == Clock(n / 3600, (n % 3600) / 60, n % 60)
  {
    var n := x.Floor;
    DivideWhole(x, 3600);
    DivideWhole(x, 60);
    var rem := JsRem(x, 3600.0);
    assert rem == (n % 3600) as real + (x - n as real);
    DivideWhole(rem, 60);
    assert rem.Floor == n % 3600;
  }

  /** Whole hours, minutes below 60 and seconds below 60 that add back up to `n`. */
  lemma HoursMinutesSeconds(n: int)
    requires n >= 0
    ensures n / 3600 >= 0 && 0 <= (n % 3600) / 60 < 60 && 0 <= n % 60 < 60
    ensures (n / 3600) * 3600 + ((n % 3600) / 60) * 60 + n % 60 == n
  {
    assert n % 3600 == 60 * ((n % 3600) / 60) + (n % 3600) % 60;
    assert (n % 3600) % 60 == n % 60 by {
      assert n == 3600 * (n / 3600) + n % 3600;
      assert 3600 * (n / 3600) == 60 * (60 * (n / 3600));
    }
  }

  /** For a non-negative input the fields are a whole number of hours and a minute and a
      second below 60 that together make its whole seconds: the fraction is dropped. */
  lemma ClockOfNonNegative(x: real)
    requires x >= 0.0
    ensures var c := ClockOf(x);
      && c.h >= 0 && 0 <= c.m < 60 && 0 <= c.s < 60
      && c.h * 3600 + c.m * 60 + c.s == x.Floor
  {
    ClockFields(x);
    HoursMinutesSeconds(x.Floor);
  }

  // ---------------------------------------------------------------------------
  // Rendering and reading back

  lemma DigitsNotJsWhitespace(s: string)
    requires AllDigits(s)
    ensures Strip(s, JsWhitespace) == s
  {
    StripUnchanged(s, JsWhitespace);
  }

  /** A non-empty run of digits is read by `Number()` as its value. */
  lemma JsDigitsRead(s: string)
    requires |s| >= 1 && AllDigits(s)
    ensures JsNumber(s) == Some(DecimalValue(s) as real)
  {
    DigitsNotJsWhitespace(s);
    DigitsAsLiteral(s);
  }

  /** A padded non-negative field reads back as its number and holds no colon. */
  lemma PaddedFieldRead(n: int)
    requires n >= 0
    ensures JsNumber(Pad2(n)) == Some(n as real)
    ensures ':' !in Pad2(n)
  {
    assert Pad2(n) == ZeroPad(n, 2);
    ZeroPadValue(n, 2);
    JsDigitsRead(Pad2(n));
    Timestamps.NoColonInDigits(Pad2(n));
  }

  /** Three colon-free fields that `Number()` reads as `h`, `m` and `s` make `h*3600 + m*60 + s`. */
  lemma ThreeJsFields(a: string, b: string, c: string, h: real, m: real, s: real)
    requires ':' !in a && ':' !in b && ':' !in c
    requires JsNumber(a) == Some(h) && JsNumber(b) == Some(m) && JsNumber(c) == Some(s)
    ensures HhmmssToSeconds(a + ":" + b + ":" + c) == h * 3600.0 + m * 60.0 + s
  {
    Timestamps.SplitThree(a, b, c);
  }

  /** Reading back a rendered non-negative time gives its whole seconds, so whole seconds
      survive the round trip unchanged. */
  lemma RoundTrip(x: real)
    requires x >= 0.0
    ensures HhmmssToSeconds(SecondsToHHMMSS(x)) == x.Floor as real
    ensures x == x.Floor as real ==> HhmmssToSeconds(SecondsToHHMMSS(x)) == x
  {
    var c := ClockOf(x);
    ClockOfNonNegative(x);
    PaddedFieldRead(c.h);
    PaddedFieldRead(c.m);
    PaddedFieldRead(c.s);
    ThreeJsFields(Pad2(c.h), Pad2(c.m), Pad2(c.s), c.h as real, c.m as real, c.s as real);
  }

  /** Below 100 hours the rendering is exactly `HH:MM:SS`, eight characters; from 100 hours
      on the hour field grows instead of being cut. */
  lemma RenderedWidth(x: real)
    requires x >= 0.0
    ensures x < 360000.0 ==> |SecondsToHHMMSS(x)| == 8 && |Pad2(ClockOf(x).h)| == 2
    ensures x >= 360000.0 ==> |Pad2(ClockOf(x).h)| >= 3
  {
    var c := ClockOf(x);
    ClockOfNonNegative(x);
    assert Pad2(c.m) == ZeroPad(c.m, 2) && Pad2(c.s) == ZeroPad(c.s, 2) && Pad2(c.h) == ZeroPad(c.h, 2);
    ZeroPadLength(c.m, 2);
    ZeroPadLength(c.s, 2);
    if x < 360000.0 {
      DivideWhole(x, 3600);
      ZeroPadLength(c.h, 2);
    } else {
      DivideWhole(x, 3600);
      assert c.h >= 100;
      NatToDecimalLong(c.h, 2);
    }
  }

  // ---------------------------------------------------------------------------
  // Reading fields

  /** With no colon the whole string is the hour field. */
  lemma SingleFieldIsHours(a: string)
    requires ':' !in a
    ensures HhmmssToSeconds(a) == JsNumber(a).GetOr(0.0) * 3600.0
  {
    SplitWithoutSeparator(a, ':');
  }

  /** Three colon-free fields are read as hours, minutes and seconds, each field that is not a
      number counting as 0 instead of making the sum NaN. */
  lemma ThreeFieldsOrZero(a: string, b: string, c: string)
    requires ':' !in a && ':' !in b && ':' !in c
    ensures HhmmssToSeconds(a + ":" + b + ":" + c)
      == JsNumber(a).GetOr(0.0) * 3600.0 + JsNumber(b).GetOr(0.0) * 60.0 + JsNumber(c).GetOr(0.0)
  {
    Timestamps.SplitThree(a, b, c);
  }

  /** Two fields are hours and minutes here: `01:30` is 5400 seconds, while the back end's
      `timestamp_to_seconds` reads the same text as minutes and seconds (`Timestamps.TwoFields`). */
  lemma TwoFieldsAreHoursMinutes(a: string, b: string, h: real, m: real)
    requires ':' !in a && ':' !in b
    requires JsNumber(a) == Some(h) && JsNumber(b) == Some(m)
    ensures HhmmssToSeconds(a + ":" + b) == h * 3600.0 + m * 60.0
  {
    SplitWithoutSeparator(b, ':');
    SplitAtSeparator(a, ':', b);
  }

  /** The back end reads every non-negative time the front end renders as the same whole
      seconds the front end reads back. */
  lemma BackEndReadsRendering(x: real)
    requires x >= 0.0
    ensures Timestamps.TimestampToSeconds(SecondsToHHMMSS(x)) == Some(x.Floor as real)
    ensures Timestamps.TimestampToSeconds(SecondsToHHMMSS(x)) == Some(HhmmssToSeconds(SecondsToHHMMSS(x)))
  {
    var c := ClockOf(x);
    ClockOfNonNegative(x);
    PaddedFieldBoth(c.h);
    PaddedFieldBoth(c.m);
    PaddedFieldBoth(c.s);
    AgreeOnFields(Pad2(c.h), Pad2(c.m), Pad2(c.s), c.h, c.m, c.s);
    RoundTrip(x);
  }

  /** A padded non-negative field as both parsers read it. */
  lemma PaddedFieldBoth(n: int)
    requires n >= 0
    ensures ':' !in Pad2(n) && JsNumber(Pad2(n)) == Some(n as real)
    ensures Timestamps.PyInt(Pad2(n)) == Some(n) && Timestamps.PyFloat(Pad2(n)) == Some(n as real)
  {
    PaddedFieldRead(n);
    assert Pad2(n) == ZeroPad(n, 2);
    Timestamps.ZeroPadRead(n, 2);
  }

  lemma AgreeOnFields(a: string, b: string, c: string, h: int, m: int, s: int)
    requires ':' !in a && ':' !in b && ':' !in c
    requires Timestamps.PyInt(a) == Some(h) && Timestamps.PyInt(b) == Some(m) && Timestamps.PyFloat(c) == Some(s as real)
    requires JsNumber(a) == Some(h as real) && JsNumber(b) == Some(m as real) && JsNumber(c) == Some(s as real)
    ensures Timestamps.TimestampToSeconds(a + ":" + b + ":" + c) == Some((h * 3600 + m * 60 + s) as real)
    ensures HhmmssToSeconds(a + ":" + b + ":" + c) == (h * 3600 + m * 60 + s) as real
  {
    Timestamps.ThreeWholeFields(a, b, c, h, m, s);
    ThreeJsFields(a, b, c, h as real, m as real, s as real);
    SumAsReal(h, m, s);
  }

  lemma SumAsReal(h: int, m: int, s: int)
    ensures (h * 3600 + m * 60) as real + s as real == (h * 3600 + m * 60 + s) as real
    ensures h as real * 3600.0 + m as real * 60.0 + s as real == (h * 3600 + m * 60 + s) as real
  {
  }

  /** A negative input renders with minus signs in every field: half a minute before the
      start is hour -1, minute -1, second -30. */
  lemma NegativeInput()
    ensures ClockOf(-30.0) == Clock(-1, -1, -30)
  {
    assert (-30.0 / 3600.0).Floor == -1;
    assert JsRem(-30.0, 3600.0) == -30.0;
    assert JsRem(-30.0, 60.0) == -30.0;
  }
}
