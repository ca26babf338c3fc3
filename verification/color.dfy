/** `get_color` of lab 1: a Wu coverage value becomes a gray Tk color string
    `#gggggg`, darker for more coverage. */
module GrayColor {

  /** `max(0, min(intensity, 1))`. */
  function Clamp01(i: real): (c: real)
    ensures 0.0 <= c <= 1.0
    ensures 0.0 <= i <= 1.0 ==> c == i
  {
    if i < 0.0 then 0.0 else if i > 1.0 then 1.0 else i
  }

  /** `int((1 - intensity) * 255)` on the clamped intensity: the argument is
      non-negative, so truncation is the floor. */
  function GrayLevel(i: real): (g: int)
    ensures 0 <= g <= 255
    ensures g as real <= (1.0 - Clamp01(i)) * 255.0 < g as real + 1.0
  {
    ((1.0 - Clamp01(i)) * 255.0).Floor
  }

  /** More coverage never gives a lighter gray. */
  lemma GrayLevelAntitone(i: real, j: real)
    requires i <= j
    ensures GrayLevel(j) <= GrayLevel(i)
  {
    assert (1.0 - Clamp01(j)) * 255.0 <= (1.0 - Clamp01(i)) * 255.0;
  }

  /** The `x` conversion of Python's format mini-language: lower-case digits. */
  function HexDigit(n: int): (c: char)
    requires 0 <= n < 16
    ensures ('0' <= c <= '9') || ('a' <= c <= 'f')
  {
    if n < 10 then ('0' as int + n) as char else ('a' as int + n - 10) as char
  }

  /** `format(n, "02x")` for a byte value. */
  function Hex2(n: int): (s: string)
    requires 0 <= n <= 255
    ensures |s| == 2
  {
    [HexDigit(n / 16), HexDigit(n % 16)]
  }

  /** The value of one lower-case hex digit; -1 for any other character. */
  function DigitValue(c: char): (v: int)
    ensures -1 <= v < 16
    ensures 0 <= v ==> HexDigit(v) == c
  {
    if '0' <= c <= '9' then (c - '0') as int
    else if 'a' <= c <= 'f' then (c - 'a') as int + 10
    else -1
  }

  /** Reading a digit back inverts the digit table. */
  lemma DigitRoundTrip(d: int)
    requires 0 <= d < 16
    ensures DigitValue(HexDigit(d)) == d
  {
  }

  /** Reading back a two-digit hex component. */
  function ParseHex2(s: string): (n: int)
    requires |s| == 2
  {
    DigitValue(s[0]) * 16 + DigitValue(s[1])
  }

  /** Formatting and reading back a byte are inverse. */
  lemma ParseHex2RoundTrip(n: int)
    requires 0 <= n <= 255
    ensures ParseHex2(Hex2(n)) == n
  {
    DigitRoundTrip(n / 16);
    DigitRoundTrip(n % 16);
  }

  /** `get_color(intensity)`. */
  function GetColor(i: real): (s: string)
    ensures |s| == 7 && s[0] == '#'
    ensures s[1..3] == s[3..5] == s[5..7]
    ensures ParseHex2(s[1..3]) == GrayLevel(i)
  {
    var h := Hex2(GrayLevel(i));
    ParseHex2RoundTrip(GrayLevel(i));
    "#" + h + h + h
  }

  /** Full coverage is black, no coverage is white. */
  lemma ColorExtremes()
    ensures GetColor(1.0) == "#000000"
    ensures GetColor(0.0) == "#ffffff"
  {
    assert GrayLevel(1.0) == 0;
    assert GrayLevel(0.0) == 255;
    assert Hex2(0) == "00";
    assert Hex2(255) == "ff";
  }
}
