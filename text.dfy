/** String helpers shared by the three components: decimal digits, padding, splitting on
    a separator, joining, stripping whitespace and reading decimal literals. Each one stands
    for a library call of the source (`str(n)`, `f"{n:02}"`, `padStart`, `split`, `join`,
    `strip`, the numeric part of `int()`, `float()` and `Number()`). */
module Text {
  import opened Wrappers

  // ---------------------------------------------------------------------------
  // Decimal digits

  predicate IsDigit(c: char) {
    '0' <= c <= '9'
  }

  /** Every character is a decimal digit (checked from the last one back, the order in
      which `DecimalValue` reads them). */
  predicate AllDigits(s: string) {
    s == [] || (IsDigit(s[|s| - 1]) && AllDigits(s[..|s| - 1]))
  }

  lemma {:induction false} AllDigitsAt(s: string)
    ensures AllDigits(s) <==> forall i | 0 <= i < |s| :: IsDigit(s[i])
  {
    if s != [] {
      AllDigitsAt(s[..|s| - 1]);
      assert forall i | 0 <= i < |s| - 1 :: s[..|s| - 1][i] == s[i];
    }
  }

  function DigitValue(c: char): nat
    requires IsDigit(c)
  {
    c as int - '0' as int
  }

  function DigitChar(d: nat): (c: char)
    requires d < 10
    ensures IsDigit(c) && DigitValue(c) == d
  {
    ('0' as int + d) as char
  }

  function Pow10(k: nat): (p: nat)
    ensures p >= 1
  {
    if k == 0 then 1 else 10 * Pow10(k - 1)
  }

  /** The decimal rendering of a natural number without leading zeros: Python's `str(n)`
      and JavaScript's `n.toString()` for a non-negative integer. */
  function NatToDecimal(n: nat): (r: string)
    ensures 1 <= |r|
    decreases n
  {
    if n < 10 then [DigitChar(n)] else NatToDecimal(n / 10) + [DigitChar(n % 10)]
  }

  /** A signed integer in decimal, with a leading '-' for a negative one. */
  function IntToDecimal(n: int): string {
    if n < 0 then "-" + NatToDecimal(-n) else NatToDecimal(n)
  }

  /** The value of a string of decimal digits (the empty string reads as 0). */
  function DecimalValue(s: string): nat
    requires AllDigits(s)
  {
    if s == [] then 0 else 10 * DecimalValue(s[..|s| - 1]) + DigitValue(s[|s| - 1])
  }

  /** The rendering is all digits and reads back as the number. */
  lemma {:induction false} DecimalValueOfNatToDecimal(n: nat)
    ensures AllDigits(NatToDecimal(n)) && DecimalValue(NatToDecimal(n)) == n
  {
    if n >= 10 {
      var r := NatToDecimal(n);
      assert r[..|r| - 1] == NatToDecimal(n / 10);
      DecimalValueOfNatToDecimal(n / 10);
    }
  }

  /** A number below 10^k needs at most k digits. */
  lemma {:induction false} NatToDecimalShort(n: nat, k: nat)
    requires 1 <= k && n < Pow10(k)
    ensures |NatToDecimal(n)| <= k
  {
    if n >= 10 {
      assert k >= 2;
      assert n / 10 < Pow10(k - 1);
      NatToDecimalShort(n / 10, k - 1);
    }
  }

  /** A number at least 10^k needs more than k digits: a rendering never truncates. */
  lemma {:induction false} NatToDecimalLong(n: nat, k: nat)
    requires n >= Pow10(k)
    ensures |NatToDecimal(n)| >= k + 1
  {
    if k > 0 {
      assert n / 10 >= Pow10(k - 1);
      NatToDecimalLong(n / 10, k - 1);
    }
  }

  // ---------------------------------------------------------------------------
  // Padding

  /** `n` copies of `c`. */
  function Repeat(c: char, n: nat): (r: string)
    ensures |r| == n
  {
    if n == 0 then [] else [c] + Repeat(c, n - 1)
  }

  lemma {:induction false} RepeatAll(c: char, n: nat)
    ensures forall i | 0 <= i < n :: Repeat(c, n)[i] == c
  {
    if n > 0 {
      RepeatAll(c, n - 1);
    }
  }

  /** `s` with `fill` prepended until it is `width` long; a longer `s` is kept whole
      (JavaScript's `padStart`, and the zero fill of Python's `{n:0w}`). */
  function PadLeft(s: string, width: nat, fill: char): (r: string)
    ensures |r| == if |s| < width then width else |s|
  {
    if |s| < width then Repeat(fill, width - |s|) + s else s
  }

  /** A natural number zero-padded to at least `width` digits. */
  function ZeroPad(n: nat, width: nat): string {
    PadLeft(NatToDecimal(n), width, '0')
  }

  /** Python's `format(n, "0<width>")`: the sign comes first and counts towards the width. */
  function PyZeroPad(n: int, width: nat): string {
    if n < 0 then "-" + ZeroPad(-n, if width == 0 then 0 else width - 1) else ZeroPad(n, width)
  }

  lemma {:induction false} DecimalValueOfZeros(s: string)
    requires forall i | 0 <= i < |s| :: s[i] == '0'
    ensures AllDigits(s) && DecimalValue(s) == 0
  {
    if s != [] {
      DecimalValueOfZeros(s[..|s| - 1]);
    }
  }

  lemma {:induction false} DecimalValueLeadingZeros(z: nat, s: string)
    requires AllDigits(s)
    ensures AllDigits(Repeat('0', z) + s)
    ensures DecimalValue(Repeat('0', z) + s) == DecimalValue(s)
  {
    var t := Repeat('0', z) + s;
    if s == [] {
      assert t == Repeat('0', z);
      RepeatAll('0', z);
      DecimalValueOfZeros(t);
    } else {
      assert t[..|t| - 1] == Repeat('0', z) + s[..|s| - 1];
      DecimalValueLeadingZeros(z, s[..|s| - 1]);
    }
  }

  /** Zero padding keeps the value: the padded digits read back as `n`. */
  lemma ZeroPadValue(n: nat, width: nat)
    ensures AllDigits(ZeroPad(n, width))
    ensures DecimalValue(ZeroPad(n, width)) == n
  {
    var d := NatToDecimal(n);
    DecimalValueOfNatToDecimal(n);
    if |d| < width {
      DecimalValueLeadingZeros(width - |d|, d);
    }
    DecimalValueOfNatToDecimal(n);
  }

  /** A value below 10^width padded to `width` digits is exactly `width` long. */
  lemma ZeroPadLength(n: nat, width: nat)
    requires 1 <= width && n < Pow10(width)
    ensures |ZeroPad(n, width)| == width
  {
    NatToDecimalShort(n, width);
  }

  // ---------------------------------------------------------------------------
  // Splitting and joining

  /** Occurrences of `c` in `s`. */
  function CountChar(s: string, c: char): nat {
    if s == [] then 0 else (if s[0] == c then 1 else 0) + CountChar(s[1..], c)
  }

  /** Python's `s.split(sep)` and JavaScript's `s.split(sep)` for a one-character separator:
      the pieces between separators, empty ones included; "" splits into [""]. */
  function Split(s: string, sep: char): (parts: seq<string>)
    ensures |parts| >= 1
  {
    if s == [] then [""]
    else
      var rest := Split(s[1..], sep);
      if s[0] == sep then [""] + rest else [[s[0]] + rest[0]] + rest[1..]
  }

  lemma {:induction false} SplitLength(s: string, sep: char)
    ensures |Split(s, sep)| == CountChar(s, sep) + 1
  {
    if s != [] {
      SplitLength(s[1..], sep);
    }
  }

  lemma {:induction false} SplitWithoutSeparator(a: string, sep: char)
    requires sep !in a
    ensures Split(a, sep) == [a]
  {
    if a != [] {
      SplitWithoutSeparator(a[1..], sep);
      assert a[0] != sep && [a[0]] + a[1..] == a;
    }
  }

  /** Splitting at the first separator: the piece before it comes first. */
  lemma {:induction false} SplitAtSeparator(a: string, sep: char, b: string)
    requires sep !in a
    ensures Split(a + [sep] + b, sep) == [a] + Split(b, sep)
  {
    var s := a + [sep] + b;
    if a == [] {
      assert s[1..] == b;
    } else {
      assert s[1..] == a[1..] + [sep] + b;
      SplitAtSeparator(a[1..], sep, b);
      assert s[0] == a[0] != sep && [a[0]] + a[1..] == a;
    }
  }

  /** Python's `sep.join(parts)`. */
  function Join(parts: seq<string>, sep: string): string {
    if |parts| == 0 then ""
    else if |parts| == 1 then parts[0]
    else parts[0] + sep + Join(parts[1..], sep)
  }

  // ---------------------------------------------------------------------------
  // Whitespace

  /** The characters Python's `str.isspace()` accepts, which `str.strip()`, `int()` and
      `float()` remove: the controls 0x09-0x0D and 0x1C-0x1F, the space, 0x85, the
      no-break space and the Unicode spaces and separators. */
  predicate IsPyWhitespace(c: char) {
    '\t' <= c <= '\r' || '\U{1C}' <= c <= ' ' || c == '\U{85}' || c == '\U{A0}' || c == '\U{1680}'
    || '\U{2000}' <= c <= '\U{200A}' || c == '\U{2028}' || c == '\U{2029}' || c == '\U{202F}'
    || c == '\U{205F}' || c == '\U{3000}'
  }

  const PyWhitespace: set<char> := set c: char | '\t' <= c <= '\U{3000}' && IsPyWhitespace(c)

  /** A visible ASCII character is not whitespace. */
  lemma VisibleNotWhitespace(c: char)
    requires '!' <= c <= '~'
    ensures c !in PyWhitespace
  {
  }

  /** `s` without the characters of `ws` at its front. */
  function StripLeft(s: string, ws: set<char>): (r: string)
    ensures |r| <= |s|
  {
    if s != [] && s[0] in ws then StripLeft(s[1..], ws) else s
  }

  /** `s` without the characters of `ws` at its end. */
  function StripRight(s: string, ws: set<char>): (r: string)
    ensures |r| <= |s|
  {
    if s != [] && s[|s| - 1] in ws then StripRight(s[..|s| - 1], ws) else s
  }

  /** `s` without the characters of `ws` at either end (Python's `str.strip()`,
      JavaScript's `String.prototype.trim`). */
  function Strip(s: string, ws: set<char>): string {
    StripRight(StripLeft(s, ws), ws)
  }

  lemma {:induction false} StripLeftShape(s: string, ws: set<char>)
    ensures var r := StripLeft(s, ws);
      |r| <= |s| && r == s[|s| - |r|..] &&
      (forall i | 0 <= i < |s| - |r| :: s[i] in ws) &&
      (r != [] ==> r[0] !in ws)
  {
    if s != [] && s[0] in ws {
      StripLeftShape(s[1..], ws);
    }
  }

  lemma {:induction false} StripRightShape(s: string, ws: set<char>)
    ensures var r := StripRight(s, ws);
      |r| <= |s| && r == s[..|r|] &&
      (forall i | |r| <= i < |s| :: s[i] in ws) &&
      (r != [] ==> r[|r| - 1] !in ws)
  {
    if s != [] && s[|s| - 1] in ws {
      StripRightShape(s[..|s| - 1], ws);
    }
  }

  /** What stripping keeps: the piece of `s` from `StripOffset` on, which neither starts nor
      ends with a character of `ws`, with only such characters cut on either side; it is
      empty exactly when all of `s` is in `ws`. */
  lemma StripShape(s: string, ws: set<char>)
    ensures var r, k := Strip(s, ws), |s| - |StripLeft(s, ws)|;
      k + |r| <= |s| && r == s[k..k + |r|] &&
      (forall i | 0 <= i < k :: s[i] in ws) && (forall i | k + |r| <= i < |s| :: s[i] in ws)
    ensures var r := Strip(s, ws); r != [] ==> r[0] !in ws && r[|r| - 1] !in ws
    ensures Strip(s, ws) == [] <==> forall i | 0 <= i < |s| :: s[i] in ws
  {
    var l := StripLeft(s, ws);
    StripLeftShape(s, ws);
    StripRightShape(l, ws);
    var r := Strip(s, ws);
    var k := |s| - |l|;
    assert r == s[k..k + |r|];
    forall i | k + |r| <= i < |s|
      ensures s[i] in ws
    {
      assert s[i] == l[i - k];
    }
  }

  /** A string with no whitespace at its ends is its own strip. */
  lemma StripUnchanged(s: string, ws: set<char>)
    requires s != [] ==> s[0] !in ws && s[|s| - 1] !in ws
    ensures Strip(s, ws) == s
  {
  }

  // ---------------------------------------------------------------------------
  // Decimal literals

  /** The position of the first `c` in `s`. */
  function IndexOf(s: string, c: char): (i: nat)
    requires c in s
    ensures i < |s| && s[i] == c && c !in s[..i]
  {
    if s[0] == c then 0 else 1 + IndexOf(s[1..], c)
  }

  /** The position of the first dot, if any. */
  function DotIndex(s: string): (r: Option<nat>)
    ensures r.None? <==> '.' !in s
    ensures r.Some? ==> r.value < |s| && s[r.value] == '.' && '.' !in s[..r.value]
  {
    if s == [] then None
    else if s[0] == '.' then Some(0)
    else
      match DotIndex(s[1..])
      case None => None
      case Some(k) => assert s[..k + 1] == [s[0]] + s[1..][..k]; Some(k + 1)
  }

  /** An unsigned decimal literal: digits, an optional '.', and more digits, with at least
      one digit overall ("12", "12.5", ".5", "5."). */
  function UnsignedDecimal(s: string): Option<real> {
    match DotIndex(s)
    case Some(i) =>
      var whole, frac := s[..i], s[i + 1..];
      if AllDigits(whole) && AllDigits(frac) && |whole| + |frac| >= 1 then
        Some(DecimalValue(whole) as real + DecimalValue(frac) as real / Pow10(|frac|) as real)
      else None
    case None =>
      if |s| >= 1 && AllDigits(s) then Some(DecimalValue(s) as real) else None
  }

  /** A decimal literal with an optional leading '+' or '-'. */
  function SignedDecimal(s: string): Option<real> {
    if |s| >= 1 && s[0] == '-' then
      match UnsignedDecimal(s[1..])
      case Some(v) => Some(-v)
      case None => None
    else if |s| >= 1 && s[0] == '+' then UnsignedDecimal(s[1..])
    else UnsignedDecimal(s)
  }

  /** A decimal integer: an optional '+' or '-' and at least one digit. */
  function SignedInteger(s: string): Option<int> {
    var body := if |s| >= 1 && (s[0] == '-' || s[0] == '+') then s[1..] else s;
    if |body| >= 1 && AllDigits(body) then
      Some(if s[0] == '-' then -(DecimalValue(body) as int) else DecimalValue(body))
    else None
  }

  /** A non-empty digit string reads as its value under both grammars. */
  lemma DigitsAsLiteral(s: string)
    requires |s| >= 1 && AllDigits(s)
    ensures SignedInteger(s) == Some(DecimalValue(s))
    ensures SignedDecimal(s) == Some(DecimalValue(s) as real)
  {
    AllDigitsAt(s);
    assert forall i | 0 <= i < |s| :: s[i] != '.';
  }
}
