/**
 * `TextColor`: a console colour held as an `int` code, convertible from an
 * `int` and from `System.ConsoleColor`, and to `System.ConsoleColor` and to a
 * colour-code string `"&"` followed by the code in lowercase hexadecimal.
 */
module Shell {
  import opened MachineIntegers

  datatype TextColor = TextColor(code: int32)

  // The sixteen named colours.  In the source they are public static fields.
  const Black: TextColor := TextColor(0x0)
  const DarkBlue: TextColor := TextColor(0x1)
  const DarkGreen: TextColor := TextColor(0x2)
  const DarkCyan: TextColor := TextColor(0x3)
  const DarkRed: TextColor := TextColor(0x4)
  const DarkMagenta: TextColor := TextColor(0x5)
  const DarkYellow: TextColor := TextColor(0x6)
  const Gray: TextColor := TextColor(0x7)
  const DarkGray: TextColor := TextColor(0x8)
  const Blue: TextColor := TextColor(0x9)
  const Green: TextColor := TextColor(0xa)
  const Cyan: TextColor := TextColor(0xb)
  const Red: TextColor := TextColor(0xc)
  const Magenta: TextColor := TextColor(0xd)
  const Yellow: TextColor := TextColor(0xe)
  const White: TextColor := TextColor(0xf)

  /** The named colours in declaration order. */
  const Palette: seq<TextColor> := [
    Black, DarkBlue, DarkGreen, DarkCyan, DarkRed, DarkMagenta, DarkYellow, Gray,
    DarkGray, Blue, Green, Cyan, Red, Magenta, Yellow, White]

  /** The named colours carry the codes 0 to 15, in declaration order. */
  lemma PaletteCodes()
    ensures |Palette| == 16
    ensures forall i :: 0 <= i < 16 ==> Palette[i].code as int == i
  {
  }

  /** The implicit conversion from `int`. */
  function FromCode(colorCode: int32): (c: TextColor)
    ensures c.code == colorCode
  {
    TextColor(colorCode)
  }

  /** Two colours from different codes differ. */
  lemma FromCodeInjective(a: int32, b: int32)
    ensures FromCode(a) == FromCode(b) <==> a == b
  {
  }

  function HexDigit(d: nat): (c: char)
    requires d < 16
    ensures IsHexDigit(c) && HexValue(c) == d
  {
    if d < 10 then ('0' as int + d) as char else ('a' as int + d - 10) as char
  }

  /** A lowercase hexadecimal digit, as the `"x"` format writes them. */
  predicate IsHexDigit(c: char)
  {
    '0' <= c <= '9' || 'a' <= c <= 'f'
  }

  function HexValue(c: char): (d: nat)
    requires IsHexDigit(c)
    ensures d < 16
  {
    if c <= '9' then c as int - '0' as int else c as int - 'a' as int + 10
  }

  /** A natural number in lowercase hexadecimal, without leading zeros. */
  function Hex(n: nat): (s: string)
    ensures |s| >= 1
    ensures forall i :: 0 <= i < |s| ==> IsHexDigit(s[i])
    ensures n >= 16 ==> s[0] != '0'
    ensures n < 16 ==> s == [HexDigit(n)]
  {
    if n < 16 then [HexDigit(n)] else Hex(n / 16) + [HexDigit(n % 16)]
  }

  /** The value of a string of hexadecimal digits, most significant first. */
  function ParseHex(s: string): nat
    requires forall i :: 0 <= i < |s| ==> IsHexDigit(s[i])
  {
    if s == [] then 0 else ParseHex(s[..|s| - 1]) * 16 + HexValue(s[|s| - 1])
  }

  /** Reading back the hexadecimal digits gives the number. */
  lemma {:induction false} HexRoundTrip(n: nat)
    ensures ParseHex(Hex(n)) == n
  {
    if n >= 16 {
      HexRoundTrip(n / 16);
      var s := Hex(n);
      assert s[..|s| - 1] == Hex(n / 16);
    }
  }

  /** The 32-bit pattern of the code as an unsigned number: `"x"` formats a negative `int` in two's complement. */
  function Unsigned(code: int32): (u: nat)
    ensures u < TWO_32 && (u - code as int) % TWO_32 == 0
  {
    if code < 0 then code as int + TWO_32 else code as int
  }

  /** The implicit conversion to `string`: `"&"` and the code in lowercase hexadecimal. */
  function ToString(color: TextColor): (s: string)
    ensures |s| >= 2 && s[0] == '&'
    ensures forall i :: 1 <= i < |s| ==> IsHexDigit(s[i])
    ensures ParseHex(s[1..]) == Unsigned(color.code)
    ensures |s| > 2 ==> s[1] != '0'
  {
    HexRoundTrip(Unsigned(color.code));
    "&" + Hex(Unsigned(color.code))
  }

  /** Different colours have different strings. */
  lemma ToStringInjective(a: TextColor, b: TextColor)
    ensures ToString(a) == ToString(b) <==> a == b
  {
    if ToString(a) == ToString(b) {
      assert Unsigned(a.code) == Unsigned(b.code);
    }
  }

  lemma WhiteString()
    ensures ToString(White) == "&f"
  {
  }

  lemma BlackString()
    ensures ToString(Black) == "&0"
  {
  }

  /** A negative code is written as its 32-bit two's complement: `-1` reads back as `0xffffffff`. */
  lemma MinusOneString()
    ensures ParseHex(ToString(FromCode(-1))[1..]) == 0xffff_ffff
  {
  }

  /** The implicit conversion to `System.ConsoleColor`: a cast of the code. */
  function ToConsoleColor(color: TextColor): (c: int32)
    ensures FromCode(c) == color
  {
    color.code
  }

  /**
   * The implicit conversion from `System.ConsoleColor` (an enum whose sixteen
   * members are numbered 0 Black to 15 White): each member gives the
   * same-named colour, and any other value gives `White`.
   */
  function FromConsoleColor(color: int32): (c: TextColor)
    ensures 0 <= color <= 15 ==> c == Palette[color]
    ensures !(0 <= color <= 15) ==> c == White
  {
    match color
    case 0 => Black
    case 1 => DarkBlue
    case 2 => DarkGreen
    case 3 => DarkCyan
    case 4 => DarkRed
    case 5 => DarkMagenta
    case 6 => DarkYellow
    case 7 => Gray
    case 8 => DarkGray
    case 9 => Blue
    case 10 => Green
    case 11 => Cyan
    case 12 => Red
    case 13 => Magenta
    case 14 => Yellow
    case _ => White
  }

  /** `ConsoleColor` to `TextColor` and back is the identity on the sixteen members. */
  lemma ConsoleColorRoundTrip(color: int32)
    requires 0 <= color <= 15
    ensures ToConsoleColor(FromConsoleColor(color)) == color
  {
  }

  /** A `TextColor` with a named colour's code survives the trip through `ConsoleColor`. */
  lemma TextColorRoundTrip(color: TextColor)
    requires 0 <= color.code <= 15
    ensures FromConsoleColor(ToConsoleColor(color)) == color
  {
  }
}
