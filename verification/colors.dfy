/** The colour helpers of `util.js`: byte access to a packed `0xRRGGBBAA` value, the
    cursor-outline colour `invertHexColor`, and the CSS serialiser `hexToColor`. */
module Colors {

  /** A colour as the editor stores it: a JavaScript integer whose low 32 bits are `RRGGBBAA`. */
  type Color = int

  const TwoTo32: int := 0x1_0000_0000

  predicate IsByte(x: int) {
    0 <= x < 0x100
  }

  // `(hex >> s) & 0xff` first converts `hex` with ToInt32 (wrap-around modulo 2^32) and then
  // shifts arithmetically; for every integer this is the floor quotient by 2^s taken modulo 256.

  function Red(hex: int): int {
    (hex / 0x100_0000) % 0x100
  }

  function Green(hex: int): int {
    (hex / 0x1_0000) % 0x100
  }

  function Blue(hex: int): int {
    (hex / 0x100) % 0x100
  }

  function Alpha(hex: int): int {
    hex % 0x100
  }

  /** `((r << 24) | (g << 16) | (b << 8) | a) >>> 0` for four bytes: the fields do not overlap,
      so the bitwise or is a sum and `>>> 0` reads the 32 bits back as an unsigned number. */
  function Pack(r: int, g: int, b: int, a: int): int
    requires IsByte(r) && IsByte(g) && IsByte(b) && IsByte(a)
  {
    r * 0x100_0000 + g * 0x1_0000 + b * 0x100 + a
  }

  /** Unpacking a packed colour gives back its four bytes, and the packed value is 32-bit. */
  lemma UnpackPack(r: int, g: int, b: int, a: int)
    requires IsByte(r) && IsByte(g) && IsByte(b) && IsByte(a)
    ensures 0 <= Pack(r, g, b, a) < TwoTo32
    ensures Red(Pack(r, g, b, a)) == r
    ensures Green(Pack(r, g, b, a)) == g
    ensures Blue(Pack(r, g, b, a)) == b
    ensures Alpha(Pack(r, g, b, a)) == a
  {
    var p := Pack(r, g, b, a);
    assert p / 0x100_0000 == r;
    assert p / 0x1_0000 == r * 0x100 + g;
    assert p / 0x100 == r * 0x1_0000 + g * 0x100 + b;
  }

  /** Every 32-bit colour is the packing of its own four bytes. */
  lemma PackUnpack(hex: int)
    requires 0 <= hex < TwoTo32
    ensures IsByte(Red(hex)) && IsByte(Green(hex)) && IsByte(Blue(hex)) && IsByte(Alpha(hex))
    ensures Pack(Red(hex), Green(hex), Blue(hex), Alpha(hex)) == hex
  {
    var q1 := hex / 0x100;
    var q2 := q1 / 0x100;
    var q3 := q2 / 0x100;
    assert hex == q1 * 0x100 + Alpha(hex);
    assert q1 == q2 * 0x100 + Blue(hex) by {
      assert hex / 0x1_0000 == q2;
    }
    assert q2 == q3 * 0x100 + Green(hex) by {
      assert hex / 0x1_0000 == q2;
      assert hex / 0x100_0000 == q3;
    }
    assert q3 == Red(hex) by {
      assert hex / 0x100_0000 == q3;
    }
  }

  /** One inverted channel: `(0xff - c) * alpha + 0x00 * (0xff - alpha)` divided by `0xff`;
      the quotient is a float that the following shift truncates, which for these
      non-negative operands is exactly the floor quotient. */
  function WeightedInverse(c: int, alpha: int): (r: int)
    requires IsByte(c) && IsByte(alpha)
    ensures IsByte(r)
    ensures r * 0xff <= (0xff - c) * alpha < (r + 1) * 0xff
  {
    MulBytes(0xff - c, alpha);
    ((0xff - c) * alpha + 0x00 * (0xff - alpha)) / 0xff
  }

  lemma MulBytes(x: int, y: int)
    requires IsByte(x) && IsByte(y)
    ensures 0 <= x * y <= 0xff * 0xff
  {
    assert x * y <= 0xff * y;
  }

  /** `invertHexColor` (util.js): the complement of each colour byte, scaled toward black by
      the alpha byte and truncated, with the output alpha forced to `0xff`. */
  function InvertHexColor(hex: Color): (r: Color)
    ensures 0 <= r < TwoTo32
    ensures Alpha(r) == 0xff
    ensures Red(r) == (0xff - Red(hex)) * Alpha(hex) / 0xff
    ensures Green(r) == (0xff - Green(hex)) * Alpha(hex) / 0xff
    ensures Blue(r) == (0xff - Blue(hex)) * Alpha(hex) / 0xff
  {
    var alpha := Alpha(hex);
    var r := WeightedInverse(Red(hex), alpha);
    var g := WeightedInverse(Green(hex), alpha);
    var b := WeightedInverse(Blue(hex), alpha);
    UnpackPack(r, g, b, 0xff);
    Pack(r, g, b, 0xff)
  }

  /** A fully opaque colour inverts to its exact per-channel complement. */
  lemma InvertOpaque(hex: Color)
    requires Alpha(hex) == 0xff
    ensures InvertHexColor(hex) == Pack(0xff - Red(hex), 0xff - Green(hex), 0xff - Blue(hex), 0xff)
  {
    var r := InvertHexColor(hex);
    PackUnpack(r);
    var red, green, blue := Red(hex), Green(hex), Blue(hex);
    assert Red(r) == 0xff - red by {
      assert (0xff - red) * 0xff / 0xff == 0xff - red;
    }
    assert Green(r) == 0xff - green by {
      assert (0xff - green) * 0xff / 0xff == 0xff - green;
    }
    assert Blue(r) == 0xff - blue by {
      assert (0xff - blue) * 0xff / 0xff == 0xff - blue;
    }
  }

  /** A fully transparent colour inverts to opaque black. */
  lemma InvertTransparent(hex: Color)
    requires Alpha(hex) == 0
    ensures InvertHexColor(hex) == 0x0000_00ff
  {
    var r := InvertHexColor(hex);
    PackUnpack(r);
  }

  /** The scaled channel is truncated, not rounded: `(0xff - 0xfe) * 0xc8 / 0xff` is about 0.78,
      which rounding would turn into 1 but the shift turns into 0. */
  lemma InvertTruncates()
    ensures InvertHexColor(0xfefe_fec8) == 0x0000_00ff
  {
    assert Pack(0xfe, 0xfe, 0xfe, 0xc8) == 0xfefe_fec8;
    UnpackPack(0xfe, 0xfe, 0xfe, 0xc8);
    assert WeightedInverse(0xfe, 0xc8) == 0;
  }

  // ---------------------------------------------------------------------------------------
  // hexToColor: "#" + hex.toString(16).padStart(8, "0")

  predicate IsHexDigit(ch: char) {
    '0' <= ch <= '9' || 'a' <= ch <= 'f'
  }

  predicate IsHexString(s: string) {
    forall i :: 0 <= i < |s| ==> IsHexDigit(s[i])
  }

  /** The lower-case digit `Number.prototype.toString(16)` writes for `d`. */
  function HexDigit(d: int): (ch: char)
    requires 0 <= d < 16
    ensures IsHexDigit(ch)
  {
    "0123456789abcdef"[d]
  }

  function DigitValue(ch: char): (d: int)
    requires IsHexDigit(ch)
    ensures 0 <= d < 16
  {
    if ch <= '9' then ch as int - '0' as int else ch as int - 'a' as int + 10
  }

  lemma DigitValueOfHexDigit(d: int)
    requires 0 <= d < 16
    ensures DigitValue(HexDigit(d)) == d
  {
  }

  /** The number a string of hexadecimal digits denotes, most significant digit first:
      the reading a browser applies to the digits of a CSS colour. */
  function HexValue(s: string): (v: nat)
    requires IsHexString(s)
  {
    if s == [] then 0 else 16 * HexValue(s[..|s| - 1]) + DigitValue(s[|s| - 1])
  }

  /** `n.toString(16)` for a non-negative integer: no leading zeros, "0" for zero. */
  function ToHex(n: nat): (s: string)
    ensures 1 <= |s| && IsHexString(s)
    ensures HexValue(s) == n
    ensures s[0] == '0' ==> n == 0
  {
    if n < 16 then
      DigitValueOfHexDigit(n);
      [HexDigit(n)]
    else
      var s := ToHex(n / 16) + [HexDigit(n % 16)];
      assert s[..|s| - 1] == ToHex(n / 16);
      DigitValueOfHexDigit(n % 16);
      s
  }

  function Pow16(k: nat): nat {
    if k == 0 then 1 else 16 * Pow16(k - 1)
  }

  /** A number below 16^k has at most k hexadecimal digits. */
  lemma {:induction false} ToHexLength(n: nat, k: nat)
    requires 1 <= k && n < Pow16(k)
    ensures |ToHex(n)| <= k
  {
    if n >= 16 {
      assert k >= 2;
      assert n / 16 < Pow16(k - 1);
      ToHexLength(n / 16, k - 1);
    }
  }

  /** `Number.prototype.toString(16)` of any integer: a minus sign before the digits of a
      negative one. */
  function NumberToHex(n: int): string {
    if n < 0 then "-" + ToHex(-n) else ToHex(n)
  }

  /** `String.prototype.padStart(len, fill)` with a one-character fill. */
  function PadStart(s: string, len: nat, fill: char): (r: string)
    ensures |r| == if |s| < len then len else |s|
    ensures r[|r| - |s|..] == s
    ensures forall i :: 0 <= i < |r| - |s| ==> r[i] == fill
  {
    if |s| < len then seq(len - |s|, _ => fill) + s else s
  }

  /** Leading zeros do not change the value of a hexadecimal string. */
  lemma {:induction false} LeadingZeros(z: nat, s: string)
    requires IsHexString(s)
    ensures IsHexString(seq(z, _ => '0') + s)
    ensures HexValue(seq(z, _ => '0') + s) == HexValue(s)
  {
    var t := seq(z, _ => '0') + s;
    assert IsHexString(t) by {
      forall i | 0 <= i < |t| ensures IsHexDigit(t[i]) {
        if i >= z { assert t[i] == s[i - z]; }
      }
    }
    if s == [] {
      if z > 0 {
        LeadingZeros(z - 1, s);
        assert t[..|t| - 1] == seq(z - 1, _ => '0') + s;
      }
    } else {
      LeadingZeros(z, s[..|s| - 1]);
      assert t[..|t| - 1] == seq(z, _ => '0') + s[..|s| - 1];
    }
  }

  /** `hexToColor` (util.js): a CSS colour string `#rrggbbaa`. */
  function HexToColor(hex: Color): (r: string)
    ensures |r| >= 2 && r[0] == '#'
    ensures 0 <= hex < TwoTo32 ==>
              |r| == 9 && IsHexString(r[1..]) && HexValue(r[1..]) == hex
  {
    PaddedDigits(hex);
    "#" + PadStart(NumberToHex(hex), 8, '0')
  }

  /** For a 32-bit colour the padding only adds leading zeros to at most eight digits. */
  lemma PaddedDigits(hex: Color)
    ensures 0 <= hex < TwoTo32 ==>
              var p := PadStart(NumberToHex(hex), 8, '0');
              |p| == 8 && IsHexString(p) && HexValue(p) == hex
  {
    if 0 <= hex < TwoTo32 {
      var digits := ToHex(hex);
      assert NumberToHex(hex) == digits;
      assert Pow16(8) == TwoTo32;
      ToHexLength(hex, 8);
      LeadingZeros(8 - |digits|, digits);
    }
  }

  /** The last two digits of a hexadecimal string denote its value modulo 256. */
  lemma LastTwoDigits(s: string)
    requires IsHexString(s) && |s| >= 2
    ensures HexValue(s) % 0x100 == 16 * DigitValue(s[|s| - 2]) + DigitValue(s[|s| - 1])
  {
    var init := s[..|s| - 1];
    assert init[..|init| - 1] == s[..|s| - 2];
    var hi := HexValue(s[..|s| - 2]);
    var d1, d0 := DigitValue(s[|s| - 2]), DigitValue(s[|s| - 1]);
    assert HexValue(s) == 0x100 * hi + (16 * d1 + d0);
  }

  lemma HexDigitOfValue(ch: char, d: int)
    requires IsHexDigit(ch) && DigitValue(ch) == d
    ensures d == 15 ==> ch == 'f'
  {
  }

  /** Two hex digits denoting `0xff` are both "f". */
  lemma FFDigits(hi: char, lo: char)
    requires IsHexDigit(hi) && IsHexDigit(lo) && 16 * DigitValue(hi) + DigitValue(lo) == 0xff
    ensures hi == 'f' && lo == 'f'
  {
    HexDigitOfValue(hi, DigitValue(hi));
    HexDigitOfValue(lo, DigitValue(lo));
  }

  /** The alpha byte is written last: the serialisation of a 32-bit colour with alpha `0xff`
      ends in "ff". */
  lemma OpaqueColorEndsInFF(hex: Color)
    requires 0 <= hex < TwoTo32 && Alpha(hex) == 0xff
    ensures HexToColor(hex)[7..] == "ff"
  {
    var css := HexToColor(hex);
    var digits := css[1..];
    assert |digits| == 8 && IsHexString(digits) && HexValue(digits) == hex;
    LastTwoDigits(digits);
    assert digits[6] == css[7] && digits[7] == css[8];
    FFDigits(digits[6], digits[7]);
    assert css[7..] == [css[7], css[8]];
  }
}
