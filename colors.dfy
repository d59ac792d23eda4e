/**
 * The `#RRGGBB` colour codec of color.go: parsing (`NewColorFromString`),
 * formatting (`Color.String`) and the 16-bit to 8-bit channel narrowing of
 * `NewColor`.
 */
module Colors {
  import opened Wrappers

  newtype byte = x: int | 0 <= x < 0x100
  newtype uint32 = x: int | 0 <= x < 0x1_0000_0000

  /** Go's `Color` (a `color.RGBA`): 8 bits each of red, green, blue and alpha. */
  datatype Color = Color(R: byte, G: byte, B: byte, A: byte) {

    /** `fmt.Sprintf("#%02X%02X%02X", R, G, B)`: two upper-case hex digits per channel. */
    function String(): (s: string)
      ensures |s| == 7 && IsColorString(s) && IsCanonical(s)
      ensures HexValue(s[1..3]) == R as int
      ensures HexValue(s[3..5]) == G as int
      ensures HexValue(s[5..7]) == B as int
    {
      var s := "#" + FormatHexByte(R) + FormatHexByte(G) + FormatHexByte(B);
      assert s[1..3] == FormatHexByte(R);
      assert s[3..5] == FormatHexByte(G);
      assert s[5..7] == FormatHexByte(B);
      s
    }
  }

  /** `ErrInvalidColorString`, the one error the parser reports. */
  datatype ColorError = ErrInvalidColorString

  /** Go's zero value `Color{}`. */
  const ZeroColor: Color := Color(0, 0, 0, 0)

  /** A character of the class `[0-9a-f]` under the `(?i)` flag. */
  predicate IsHexDigit(c: char) {
    '0' <= c <= '9' || 'a' <= c <= 'f' || 'A' <= c <= 'F'
  }

  /** A hex digit written the way `%X` writes it. */
  predicate IsUpperHexDigit(c: char) {
    '0' <= c <= '9' || 'A' <= c <= 'F'
  }

  predicate AllHexDigits(p: string) {
    forall i :: 0 <= i < |p| ==> IsHexDigit(p[i])
  }

  /** The language of the pattern `(?i)^#[0-9a-f]{6}$`. */
  predicate IsColorString(s: string) {
    |s| == 7 && s[0] == '#' && AllHexDigits(s[1..])
  }

  /** A colour string as `Color.String` writes it: no lower-case digits. */
  predicate IsCanonical(s: string) {
    forall i :: 1 <= i < |s| ==> IsUpperHexDigit(s[i])
  }

  /** The value of one hex digit. */
  function DigitValue(c: char): (d: nat)
    requires IsHexDigit(c)
    ensures d < 16
  {
    if '0' <= c <= '9' then c as int - '0' as int
    else if 'a' <= c <= 'f' then c as int - 'a' as int + 10
    else c as int - 'A' as int + 10
  }

  /** The upper-case digit for a value below 16. */
  function UpperDigit(d: nat): (c: char)
    requires d < 16
    ensures IsHexDigit(c) && IsUpperHexDigit(c) && DigitValue(c) == d
  {
    if d < 10 then ('0' as int + d) as char else ('A' as int + d - 10) as char
  }

  /** The upper-case form of a hex digit. */
  function UpperChar(c: char): char {
    if 'a' <= c <= 'f' then (c as int - 'a' as int + 'A' as int) as char else c
  }

  /** Upper-case every hex digit of `s`; meant only for hex-digit strings, as `UpperChar` maps only `a`-`f`. */
  function UpperHex(s: string): (u: string)
    ensures |u| == |s|
  {
    seq(|s|, i requires 0 <= i < |s| => UpperChar(s[i]))
  }

  /** The number a string of hex digits denotes, most significant digit first. */
  function HexValue(p: string): nat
    requires AllHexDigits(p)
  {
    if p == [] then 0 else 16 * HexValue(p[..|p| - 1]) + DigitValue(p[|p| - 1])
  }

  /** Two digits denote sixteen times the first plus the second. */
  lemma HexValueOfPair(p: string)
    requires |p| == 2 && AllHexDigits(p)
    ensures HexValue(p) == 16 * DigitValue(p[0]) + DigitValue(p[1])
  {
    assert p[..1][..0] == [];
    assert HexValue(p[..1]) == DigitValue(p[0]);
  }

  /** `strconv.ParseUint(p, 16, 8)` on two hex digits; these always fit in 8 bits. */
  function ParseHexByte(p: string): (b: byte)
    requires |p| == 2 && AllHexDigits(p)
    ensures b as int == HexValue(p)
  {
    HexValueOfPair(p);
    (16 * DigitValue(p[0]) + DigitValue(p[1])) as byte
  }

  /** `%02X` of one byte. */
  function FormatHexByte(b: byte): (p: string)
    ensures |p| == 2 && AllHexDigits(p) && IsUpperHexDigit(p[0]) && IsUpperHexDigit(p[1])
    ensures HexValue(p) == b as int
  {
    var p := [UpperDigit(b as int / 16), UpperDigit(b as int % 16)];
    HexValueOfPair(p);
    p
  }

  /**
   * `NewColorFromString`: the zero colour and `ErrInvalidColorString` unless
   * `s` is `#` and six hex digits; otherwise the three digit pairs as R, G and
   * B, with A left at zero.
   */
  function NewColorFromString(s: string): (r: (Color, Option<ColorError>))
    ensures r.1.Some? <==> !IsColorString(s)
    ensures r.1.Some? ==> r == (ZeroColor, Some(ErrInvalidColorString))
    ensures r.1.None? ==> |s| == 7 && r.0.A == 0
    ensures r.1.None? ==> HexValue(s[1..3]) == r.0.R as int
    ensures r.1.None? ==> HexValue(s[3..5]) == r.0.G as int
    ensures r.1.None? ==> HexValue(s[5..7]) == r.0.B as int
  {
    if !IsColorString(s) then
      (ZeroColor, Some(ErrInvalidColorString))
    else
      assert forall i :: 1 <= i < 7 ==> IsHexDigit(s[i]) by {
        forall i | 1 <= i < 7 ensures IsHexDigit(s[i]) { assert s[1..][i - 1] == s[i]; }
      }
      var r := ParseHexByte(s[1..3]);
      var g := ParseHexByte(s[3..5]);
      var b := ParseHexByte(s[5..7]);
      (Color(r, g, b, 0), None)
  }

  /**
   * `NewColor`: keep the most significant byte of each channel, where the
   * channels are the 32-bit values `RGBA()` returns (of which `RGBA()` uses
   * the low 16 bits); `uint8(x >> 8)` drops anything above bit 15.
   */
  function NewColor(r: uint32, g: uint32, b: uint32): (c: Color)
    ensures c.A == 0
    ensures c.R as int * 0x100 <= r as int % 0x1_0000 < c.R as int * 0x100 + 0x100
    ensures c.G as int * 0x100 <= g as int % 0x1_0000 < c.G as int * 0x100 + 0x100
    ensures c.B as int * 0x100 <= b as int % 0x1_0000 < c.B as int * 0x100 + 0x100
  {
    Color(HighByte(r), HighByte(g), HighByte(b), 0)
  }

  /** `uint8(x >> 8)`. */
  function HighByte(x: uint32): byte {
    ((x as int / 0x100) % 0x100) as byte
  }

  /** How `color.RGBA.RGBA()` widens an 8-bit channel to 16 bits: `x | x << 8`. */
  function Widen(x: byte): uint32 {
    (x as int * 0x101) as uint32
  }

  /** Formatting a colour and parsing the text back yields its R, G and B, with A cleared. */
  lemma FormatThenParse(c: Color)
    ensures NewColorFromString(c.String()) == (Color(c.R, c.G, c.B, 0), None)
  {
  }

  lemma UpperDigitOfValue(c: char)
    requires IsHexDigit(c)
    ensures UpperDigit(DigitValue(c)) == UpperChar(c)
  {
  }

  /** Parsing two digits and formatting the byte gives them back, upper-cased. */
  lemma PairRoundTrip(p: string)
    requires |p| == 2 && AllHexDigits(p)
    ensures FormatHexByte(ParseHexByte(p)) == UpperHex(p)
  {
    var hi, lo := DigitValue(p[0]), DigitValue(p[1]);
    var b := ParseHexByte(p);
    assert b as int == 16 * hi + lo by { HexValueOfPair(p); }
    assert b as int / 16 == hi && b as int % 16 == lo;
    UpperDigitOfValue(p[0]);
    UpperDigitOfValue(p[1]);
  }

  /** Parsing a valid string and formatting the colour gives the string back, upper-cased. */
  lemma ParseThenFormat(s: string)
    requires IsColorString(s)
    ensures NewColorFromString(s).1.None?
    ensures NewColorFromString(s).0.String() == UpperHex(s)
  {
    forall i | 1 <= i < 7 ensures IsHexDigit(s[i]) { assert s[1..][i - 1] == s[i]; }
    var c := NewColorFromString(s).0;
    assert c == Color(ParseHexByte(s[1..3]), ParseHexByte(s[3..5]), ParseHexByte(s[5..7]), 0);
    PairRoundTrip(s[1..3]);
    PairRoundTrip(s[3..5]);
    PairRoundTrip(s[5..7]);
    var t := "#" + UpperHex(s[1..3]) + UpperHex(s[3..5]) + UpperHex(s[5..7]);
    assert c.String() == t;
    assert forall i :: 0 <= i < 7 ==> t[i] == UpperHex(s)[i];
  }

  /** A string already in `Color.String`'s form survives parsing and formatting unchanged. */
  lemma CanonicalRoundTrip(s: string)
    requires IsColorString(s) && IsCanonical(s)
    ensures NewColorFromString(s).0.String() == s
  {
    ParseThenFormat(s);
    assert UpperHex(s) == s;
  }

  /** `NewColor` undoes the widening of an 8-bit colour to 16-bit channels. */
  lemma NewColorOfWidened(c: Color)
    ensures NewColor(Widen(c.R), Widen(c.G), Widen(c.B)) == Color(c.R, c.G, c.B, 0)
  {
    assert HighByte(Widen(c.R)) == c.R by { WidenHighByte(c.R); }
    assert HighByte(Widen(c.G)) == c.G by { WidenHighByte(c.G); }
    assert HighByte(Widen(c.B)) == c.B by { WidenHighByte(c.B); }
  }

  lemma WidenHighByte(x: byte)
    ensures HighByte(Widen(x)) == x
  {
    assert x as int * 0x101 == x as int * 0x100 + x as int;
    assert (x as int * 0x101) / 0x100 == x as int;
  }

  /** `#` and six characters that are each a hex digit is a colour string. */
  lemma Accepts(s: string)
    requires |s| == 7 && s[0] == '#'
    requires IsHexDigit(s[1]) && IsHexDigit(s[2]) && IsHexDigit(s[3])
    requires IsHexDigit(s[4]) && IsHexDigit(s[5]) && IsHexDigit(s[6])
    ensures IsColorString(s)
  {
    forall i | 0 <= i < 6 ensures IsHexDigit(s[1..][i]) { assert s[1..][i] == s[i + 1]; }
  }

  /** The expectations of `TestNewColor`: three strings accepted, two rejected. */
  lemma TestNewColorCases()
    ensures NewColorFromString("#010101").1.None?
    ensures NewColorFromString("#AABBCC").1.None?
    ensures NewColorFromString("#ab0194").1.None?
    ensures NewColorFromString("invalid").1 == Some(ErrInvalidColorString)
    ensures NewColorFromString("9123").1 == Some(ErrInvalidColorString)
  {
    Accepts("#010101");
    Accepts("#AABBCC");
    Accepts("#ab0194");
  }

  /** The expectations of `TestRGB` for three upper-case strings. */
  lemma TestRGBCases()
    ensures NewColorFromString("#FF0000") == (Color(0xFF, 0, 0, 0), None)
    ensures NewColorFromString("#00FE00") == (Color(0, 0xFE, 0, 0), None)
    ensures NewColorFromString("#0000BB") == (Color(0, 0, 0xBB, 0), None)
  {
    DecodesTo("#FF0000", 0xFF, 0, 0);
    DecodesTo("#00FE00", 0, 0xFE, 0);
    DecodesTo("#0000BB", 0, 0, 0xBB);
  }

  /** A valid string parses to the colour whose channels its digit pairs denote. */
  lemma DecodesTo(s: string, r: byte, g: byte, b: byte)
    requires IsColorString(s)
    requires 16 * DigitValue(s[1]) + DigitValue(s[2]) == r as int
    requires 16 * DigitValue(s[3]) + DigitValue(s[4]) == g as int
    requires 16 * DigitValue(s[5]) + DigitValue(s[6]) == b as int
    ensures NewColorFromString(s) == (Color(r, g, b, 0), None)
  {
    forall i | 1 <= i < 7 ensures IsHexDigit(s[i]) { assert s[1..][i - 1] == s[i]; }
    HexValueOfPair(s[1..3]);
    HexValueOfPair(s[3..5]);
    HexValueOfPair(s[5..7]);
  }

  /** Lower-case digits decode like upper-case ones, and formatting writes upper case. */
  lemma LowerCaseDecodesLikeUpper()
    ensures NewColorFromString("#ff0000") == (Color(0xFF, 0, 0, 0), None)
    ensures Color(0xFF, 0, 0, 0).String() == "#FF0000"
  {
    DecodesTo("#ff0000", 0xFF, 0, 0);
  }

  /** A non-hex digit and a string without `#` are both rejected. */
  lemma RejectsNonHexAndShort()
    ensures NewColorFromString("#zz0000") == (ZeroColor, Some(ErrInvalidColorString))
    ensures NewColorFromString("1234") == (ZeroColor, Some(ErrInvalidColorString))
  {
    assert !IsHexDigit('z') && "#zz0000"[1..][0] == 'z';
  }
}
