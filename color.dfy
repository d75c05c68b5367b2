/**
 * The background colour: the picker hands the script a `#rrggbb` string, and the
 * script strips the `#` characters and reads the three two-character slices at
 * offsets 0, 2 and 4 as base-16 integers (app.py line 35).
 */
module Color {
  import opened Wrappers

  /** The colour triple given to the canvas. The script does not range-check it. */
  datatype Rgb = Rgb(red: int, green: int, blue: int)

  predicate InByteRange(c: Rgb) {
    0 <= c.red <= 255 && 0 <= c.green <= 255 && 0 <= c.blue <= 255
  }

  predicate IsHexDigit(c: char) {
    ('0' <= c <= '9') || ('a' <= c <= 'f') || ('A' <= c <= 'F')
  }

  predicate AllHexDigits(s: string) {
    forall i | 0 <= i < |s| :: IsHexDigit(s[i])
  }

  function DigitValue(c: char): (v: nat)
    requires IsHexDigit(c)
    ensures v < 16
  {
    if '0' <= c <= '9' then c as int - '0' as int
    else if 'a' <= c <= 'f' then c as int - 'a' as int + 10
    else c as int - 'A' as int + 10
  }

  /** The lower-case digit the colour picker writes for a value below 16. */
  function LowerHexDigit(v: nat): (c: char)
    requires v < 16
    ensures IsHexDigit(c) && DigitValue(c) == v
    ensures !('A' <= c <= 'F')
  {
    if v < 10 then ('0' as int + v) as char else ('a' as int + v - 10) as char
  }

  function Pow16(n: nat): (p: nat)
    ensures p >= 1
  {
    if n == 0 then 1 else 16 * Pow16(n - 1)
  }

  lemma {:induction false} Pow16Monotone(m: nat, n: nat)
    requires m <= n
    ensures Pow16(m) <= Pow16(n)
  {
    if m < n {
      Pow16Monotone(m, n - 1);
    }
  }

  /** The value of a string of hexadecimal digits, most significant digit first. */
  function HexValue(s: string): (v: nat)
    requires AllHexDigits(s)
    ensures v < Pow16(|s|)
  {
    if s == [] then 0 else 16 * HexValue(s[..|s| - 1]) + DigitValue(s[|s| - 1])
  }

  /**
   * The white space `int()` ignores around an ASCII argument: tab, line feed,
   * vertical tab, form feed, carriage return and space. The separators 28-31,
   * white space to `str.isspace`, are not skipped.
   */
  predicate IsSpace(c: char) {
    9 <= c as int <= 13 || c == ' '
  }

  /** The two character classes the script strips: `#` (line 35) and the white space `int()` ignores. */
  datatype StripSet = Hashes | Spaces

  predicate Drops(k: StripSet, c: char) {
    match k
    case Hashes => c == '#'
    case Spaces => IsSpace(c)
  }

  function StripLeading(s: string, k: StripSet): (r: string)
    ensures |r| <= |s| && r == s[|s| - |r|..]
    ensures r == [] || !Drops(k, r[0])
    ensures forall i | 0 <= i < |s| - |r| :: Drops(k, s[i])
  {
    if s != [] && Drops(k, s[0]) then StripLeading(s[1..], k) else s
  }

  function StripTrailing(s: string, k: StripSet): (r: string)
    ensures |r| <= |s| && r == s[..|r|]
    ensures r == [] || !Drops(k, r[|r| - 1])
    ensures forall i | |r| <= i < |s| :: Drops(k, s[i])
  {
    if s != [] && Drops(k, s[|s| - 1]) then StripTrailing(s[..|s| - 1], k) else s
  }

  /** Python's `str.strip(chars)`: drop the characters of the class from both ends. */
  function Strip(s: string, k: StripSet): string {
    StripTrailing(StripLeading(s, k), k)
  }

  /**
   * `strip` gives a string no longer than its input that neither starts nor
   * ends with a character of the class, and the empty string when every
   * character is in the class.
   */
  lemma StripEnds(s: string, k: StripSet)
    ensures |Strip(s, k)| <= |s|
    ensures Strip(s, k) == [] || (!Drops(k, Strip(s, k)[0]) && !Drops(k, Strip(s, k)[|Strip(s, k)| - 1]))
    ensures (forall i | 0 <= i < |s| :: Drops(k, s[i])) ==> Strip(s, k) == []
  {
    var lead := StripLeading(s, k);
    var r := StripTrailing(lead, k);
    if r != [] {
      assert r[0] == lead[0];
    }
  }

  /** A string that neither starts nor ends with a character of the class is left alone. */
  lemma StripUnchanged(s: string, k: StripSet)
    requires s == [] || (!Drops(k, s[0]) && !Drops(k, s[|s| - 1]))
    ensures Strip(s, k) == s
  {
  }

  /** Python's `s[i:j]` for 0 <= i <= j: the bounds are clamped to the string. */
  function Slice(s: string, i: nat, j: nat): (r: string)
    requires i <= j
    ensures |r| <= j - i
  {
    var lo := if i <= |s| then i else |s|;
    var hi := if j <= |s| then j else |s|;
    s[lo..hi]
  }

  /**
   * Python's `int(t, 16)`: surrounding white space is ignored, one sign is
   * allowed, and at least one hexadecimal digit must follow; anything else
   * raises ValueError (None).
   */
  function ParseHex(t: string): (r: Option<int>)
    ensures r.Some? ==> -(Pow16(|t|) as int) < r.value < Pow16(|t|)
  {
    var u := Strip(t, Spaces);
    assert |u| <= |t|;
    if u != [] && (u[0] == '+' || u[0] == '-') then
      var digits := u[1..];
      if digits != [] && AllHexDigits(digits) then
        var magnitude: int := HexValue(digits);
        Pow16Monotone(|digits|, |t|);
        Some(if u[0] == '-' then -magnitude else magnitude)
      else
        None
    else if u != [] && AllHexDigits(u) then
      Pow16Monotone(|u|, |t|);
      Some(HexValue(u))
    else
      None
  }

  /**
   * `BACKGROUND_COLOR`: the three slices of the `#`-stripped string, each read
   * with `int(_, 16)`; None where any of them raises.
   */
  function ParseColor(hex: string): (r: Option<Rgb>)
    ensures r.Some? ==> -256 < r.value.red < 256 && -256 < r.value.green < 256 && -256 < r.value.blue < 256
  {
    var s := Strip(hex, Hashes);
    var red := ParseHex(Slice(s, 0, 2));
    var green := ParseHex(Slice(s, 2, 4));
    var blue := ParseHex(Slice(s, 4, 6));
    Pow16Monotone(|Slice(s, 0, 2)|, 2);
    Pow16Monotone(|Slice(s, 2, 4)|, 2);
    Pow16Monotone(|Slice(s, 4, 6)|, 2);
    if red.Some? && green.Some? && blue.Some? then Some(Rgb(red.value, green.value, blue.value)) else None
  }

  /** What the colour picker produces: `#` and six hexadecimal digits. */
  predicate IsPickerColor(hex: string) {
    |hex| == 7 && hex[0] == '#' && AllHexDigits(hex[1..])
  }

  function PairValue(hi: char, lo: char): (v: nat)
    requires IsHexDigit(hi) && IsHexDigit(lo)
    ensures v <= 255
  {
    16 * DigitValue(hi) + DigitValue(lo)
  }

  /** A plain run of hexadecimal digits reads as its value. */
  lemma ParseHexDigits(t: string)
    requires t != [] && AllHexDigits(t)
    ensures ParseHex(t) == Some(HexValue(t))
  {
    StripUnchanged(t, Spaces);
  }

  lemma HexPairValue(t: string)
    requires |t| == 2 && AllHexDigits(t)
    ensures ParseHex(t) == Some(PairValue(t[0], t[1]))
  {
    TwoDigitValue(t);
    ParseHexDigits(t);
  }

  lemma TwoDigitValue(t: string)
    requires |t| == 2 && AllHexDigits(t)
    ensures HexValue(t) == PairValue(t[0], t[1])
  {
    var first := t[..1];
    assert first[..0] == [] && first[0] == t[0];
    assert HexValue(first) == DigitValue(t[0]);
    assert t[..|t| - 1] == first;
  }

  /** `#` and the hexadecimal digits after it, with nothing stripped from either end. */
  lemma StripHashPrefix(hex: string)
    requires |hex| >= 2 && hex[0] == '#' && AllHexDigits(hex[1..])
    ensures Strip(hex, Hashes) == hex[1..]
  {
    var s := hex[1..];
    assert s[0] == hex[1];
    assert StripLeading(hex, Hashes) == StripLeading(s, Hashes);
    StripUnchanged(s, Hashes);
  }

  /**
   * `#` followed by at least five hexadecimal digits parses: two digits per
   * component, except that with exactly five the blue slice is the single
   * last digit; digits after the sixth are never read.
   */
  lemma HashDigitsParse(hex: string)
    requires |hex| >= 6 && hex[0] == '#' && AllHexDigits(hex[1..])
    ensures ParseColor(hex) == Some(Rgb(PairValue(hex[1], hex[2]), PairValue(hex[3], hex[4]),
                                        if |hex| == 6 then DigitValue(hex[5]) else PairValue(hex[5], hex[6])))
  {
    var s := hex[1..];
    var blue := if |hex| == 6 then DigitValue(hex[5]) else PairValue(hex[5], hex[6]);
    assert Strip(hex, Hashes) == s by { StripHashPrefix(hex); }
    assert ParseHex(Slice(s, 0, 2)) == Some(PairValue(hex[1], hex[2])) by { PairSliceParses(s, 0); }
    assert ParseHex(Slice(s, 2, 4)) == Some(PairValue(hex[3], hex[4])) by { PairSliceParses(s, 2); }
    assert ParseHex(Slice(s, 4, 6)) == Some(blue) by {
      if |hex| == 6 {
        LastDigitSliceParses(s);
      } else {
        PairSliceParses(s, 4);
      }
    }
  }

  lemma PairSliceParses(s: string, i: nat)
    requires i + 2 <= |s| && AllHexDigits(s)
    ensures ParseHex(Slice(s, i, i + 2)) == Some(PairValue(s[i], s[i + 1]))
  {
    var t := s[i..i + 2];
    assert Slice(s, i, i + 2) == t;
    HexPairValue(t);
  }

  lemma LastDigitSliceParses(s: string)
    requires |s| == 5 && AllHexDigits(s)
    ensures ParseHex(Slice(s, 4, 6)) == Some(DigitValue(s[4]))
  {
    var last := s[4..];
    assert Slice(s, 4, 6) == last;
    ParseHexDigits(last);
    assert last[..0] == [];
  }

  /** `#` followed by four digits or fewer leaves the blue slice empty, which raises. */
  lemma ShortColorRejected(hex: string)
    requires 1 <= |hex| <= 5 && hex[0] == '#' && AllHexDigits(hex[1..])
    ensures ParseColor(hex) == None
  {
    if |hex| >= 2 {
      StripHashPrefix(hex);
    } else {
      assert StripLeading(hex, Hashes) == StripLeading(hex[1..], Hashes);
    }
    assert Slice(Strip(hex, Hashes), 4, 6) == [];
  }

  /** Every picker value parses, each component being the value of its digit pair. */
  lemma PickerColorParses(hex: string)
    requires IsPickerColor(hex)
    ensures ParseColor(hex) == Some(Rgb(PairValue(hex[1], hex[2]), PairValue(hex[3], hex[4]), PairValue(hex[5], hex[6])))
    ensures InByteRange(ParseColor(hex).value)
  {
    HashDigitsParse(hex);
  }

  /** The picker's initial value (app.py line 24). */
  const DefaultPickerValue: string := "#f2f2f2"

  /** The default background is the grey (242, 242, 242). */
  lemma DefaultBackground()
    ensures ParseColor(DefaultPickerValue) == Some(Rgb(242, 242, 242))
  {
    var v := DefaultPickerValue;
    assert IsPickerColor(v) by {
      assert v[1..] == "f2f2f2";
    }
    assert PairValue(v[1], v[2]) == 242;
    assert PairValue(v[3], v[4]) == 242;
    assert PairValue(v[5], v[6]) == 242;
    PickerColorParses(v);
  }

  /** How the picker writes a colour: `#` and two lower-case digits per component. */
  function FormatColor(c: Rgb): (hex: string)
    requires InByteRange(c)
    ensures IsPickerColor(hex)
  {
    "#" + [LowerHexDigit(c.red / 16), LowerHexDigit(c.red % 16),
           LowerHexDigit(c.green / 16), LowerHexDigit(c.green % 16),
           LowerHexDigit(c.blue / 16), LowerHexDigit(c.blue % 16)]
  }

  /** Reading back what the picker wrote gives the colour that was picked. */
  lemma ColorRoundTrip(c: Rgb)
    requires InByteRange(c)
    ensures ParseColor(FormatColor(c)) == Some(c)
  {
    var hex := FormatColor(c);
    PickerColorParses(hex);
    BytePairValue(c.red);
    BytePairValue(c.green);
    BytePairValue(c.blue);
  }

  lemma BytePairValue(x: int)
    requires 0 <= x <= 255
    ensures PairValue(LowerHexDigit(x / 16), LowerHexDigit(x % 16)) == x
  {
  }
}
