/**
 * Channel clamping and 24-bit colour packing (`clamp` and `rgbtohex` of
 * bin/control-mqtt.py). Packing goes through the same hexadecimal string the
 * source builds and parses, and is proved equal to the arithmetic packing.
 */
module Colors {
  import opened Wrappers
  import opened Arith

  /** One colour as three integer channels. */
  datatype Rgb = Rgb(r: int, g: int, b: int)

  function Min(a: int, b: int): int { if a <= b then a else b }
  function Max(a: int, b: int): int { if a >= b then a else b }

  /** `clamp(n, smallest, largest)`: `max(smallest, min(n, largest))`. */
  function Clamp(n: int, smallest: int, largest: int): (c: int)
    ensures smallest <= largest ==> smallest <= c <= largest
    ensures smallest <= n <= largest ==> c == n
    ensures n < smallest ==> c == smallest
    ensures smallest <= largest < n ==> c == largest
    ensures largest < smallest ==> c == smallest
  {
    Max(smallest, Min(n, largest))
  }

  /** The default channel range of `clamp`, [0, 255]. */
  function Channel(n: int): (c: int)
    ensures 0 <= c <= 255
    ensures 0 <= n <= 255 ==> c == n
  {
    Clamp(n, 0, 255)
  }

  lemma ClampIdempotent(n: int, smallest: int, largest: int)
    ensures Clamp(Clamp(n, smallest, largest), smallest, largest) == Clamp(n, smallest, largest)
  {
  }

  // ---------------------------------------------------------------------
  // Hexadecimal text: "{0:02x}" formatting and int(s, 16) parsing

  /** One lower-case hexadecimal digit. */
  function HexDigit(d: int): char
    requires 0 <= d < 16
  {
    if d < 10 then ('0' as int + d) as char else ('a' as int + d - 10) as char
  }

  /** `"{0:02x}".format(v)` for a value that fits in two digits. */
  function Hex02(v: int): (s: string)
    requires 0 <= v < 256
    ensures |s| == 2
  {
    [HexDigit(v / 16), HexDigit(v % 16)]
  }

  /** The value of one hexadecimal digit of either case, if it is one. */
  function DigitValue(c: char): Option<int>
  {
    if '0' <= c <= '9' then Some(c as int - '0' as int)
    else if 'a' <= c <= 'f' then Some(c as int - 'a' as int + 10)
    else if 'A' <= c <= 'F' then Some(c as int - 'A' as int + 10)
    else None
  }

  /** The value of a string of hexadecimal digits, most significant first. */
  function DigitsValue(ds: string): Option<int>
    decreases |ds|
  {
    if |ds| == 0 then Some(0)
    else
      match (DigitsValue(ds[..|ds| - 1]), DigitValue(ds[|ds| - 1]))
      case (Some(v), Some(d)) => Some(v * 16 + d)
      case _ => None
  }

  /**
   * `int(s, 16)`: an optional `0x`/`0X` prefix followed by at least one
   * hexadecimal digit; anything else is a ValueError (None). Signs,
   * whitespace and underscores, which Python also accepts, never occur here.
   */
  function ParseHex(s: string): Option<int>
  {
    var ds := if |s| >= 2 && s[0] == '0' && (s[1] == 'x' || s[1] == 'X') then s[2..] else s;
    if |ds| == 0 then None else DigitsValue(ds)
  }

  lemma {:induction false} DigitRoundTrip(d: int)
    requires 0 <= d < 16
    ensures DigitValue(HexDigit(d)) == Some(d)
  {
  }

  /** Appending two formatted digits multiplies the value by 256 and adds `v`. */
  lemma {:induction false} AppendHex02(s: string, v: int)
    requires 0 <= v < 256
    requires DigitsValue(s).Some?
    ensures DigitsValue(s + Hex02(v)) == Some(DigitsValue(s).value * 256 + v)
  {
    var t := s + Hex02(v);
    DigitRoundTrip(v / 16);
    DigitRoundTrip(v % 16);
    assert t[..|t| - 1] == s + [HexDigit(v / 16)];
    assert (s + [HexDigit(v / 16)])[..|s|] == s;
  }

  /** The string `rgbtohex` builds parses to the arithmetic packing. */
  lemma {:induction false} PackedStringParses(r: int, g: int, b: int)
    requires 0 <= r < 256 && 0 <= g < 256 && 0 <= b < 256
    ensures ParseHex("0x" + Hex02(r) + Hex02(g) + Hex02(b)) == Some(r * 0x10000 + g * 0x100 + b)
  {
    var ds := Hex02(r) + Hex02(g) + Hex02(b);
    assert DigitsValue([]) == Some(0);
    AppendHex02([], r);
    assert [] + Hex02(r) == Hex02(r);
    AppendHex02(Hex02(r), g);
    AppendHex02(Hex02(r) + Hex02(g), b);
    var s := "0x" + Hex02(r) + Hex02(g) + Hex02(b);
    assert s == "0x" + ds;
    assert s[2..] == ds;
  }

  /**
   * `rgbtohex(r, g, b)`: format the three clamped channels as `0xRRGGBB`
   * and parse the string back as a base-16 integer.
   */
  function RgbToHex(r: int, g: int, b: int): (h: int)
    ensures h == Channel(r) * 0x10000 + Channel(g) * 0x100 + Channel(b)
    ensures 0 <= h < 0x100_0000
  {
    var hexstr := "0x" + Hex02(Channel(r)) + Hex02(Channel(g)) + Hex02(Channel(b));
    PackedStringParses(Channel(r), Channel(g), Channel(b));
    ParseHex(hexstr).value
  }

  /** Splitting a packed colour into its three bytes (used by the strip driver). */
  function Unpack(h: int): Rgb
  {
    Rgb(h / 0x10000, (h / 0x100) % 0x100, h % 0x100)
  }

  /** Packing then unpacking gives back the clamped triple. */
  lemma {:induction false} UnpackRgbToHex(r: int, g: int, b: int)
    ensures Unpack(RgbToHex(r, g, b)) == Rgb(Channel(r), Channel(g), Channel(b))
  {
    var h := RgbToHex(r, g, b);
    var cr, cg, cb := Channel(r), Channel(g), Channel(b);
    DivModUnique(h, 0x10000, cr, cg * 0x100 + cb);
    DivModUnique(h, 0x100, cr * 0x100 + cg, cb);
    DivModUnique(cr * 0x100 + cg, 0x100, cr, cg);
  }

  /** Distinct clamped triples pack to distinct values. */
  lemma RgbToHexInjective(r1: int, g1: int, b1: int, r2: int, g2: int, b2: int)
    requires RgbToHex(r1, g1, b1) == RgbToHex(r2, g2, b2)
    ensures Channel(r1) == Channel(r2) && Channel(g1) == Channel(g2) && Channel(b1) == Channel(b2)
  {
    UnpackRgbToHex(r1, g1, b1);
    UnpackRgbToHex(r2, g2, b2);
  }
}
