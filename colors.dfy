/** The integer part of the RGB colour helpers in Colors.h: hex digit
    conversions, packing three components into 24 bits, the rounding used for
    three-digit colour codes, colour code printing and parsing, and the
    `color_rgb` value class. */
module Colors {
  import opened Base
  import BinUtils

  /** `hex_chr2dec`: the value of a hex digit in either case, or -1 for any
      other character. The result is a `char`, so -1 is the code 0xFF; whether
      it compares below 0 depends on the signedness of `char` (`Negative`). */
  function HexChr2Dec(c: char8): (d: char8)
    ensures BinUtils.IsHexDigit(c) ==> d == BinUtils.Hex2Digit(c) && d <= 15
    ensures !BinUtils.IsHexDigit(c) ==> d == 0xFF
  {
    if Digit0 <= c <= Digit9 then c - Digit0
    else if LowerA <= c <= LowerF then c - LowerA + 10
    else if UpperA <= c <= UpperF then c - UpperA + 10
    else 0xFF
  }

  /** The `uint8_t` (or `char`) an `int` in 0..255 converts to. */
  function ByteOf(x: int): byte
    requires 0 <= x < 256
  {
    x as byte
  }

  /** An `int` 0..15 converts to the byte with that value. */
  lemma SmallByte(x: int)
    requires 0 <= x <= 15
    ensures ByteOf(x) <= 15 && ByteOf(x) as int == x
  {
  }

  /** `hex_dec2chr`: the character of a digit value in the requested case, as
      `digit2hex` writes it. The argument is a `char`, here its 8-bit code, so
      codes from 0x80 are the negative values, for which it returns -1 (the
      code 0xFF). The source asserts `digit <= 15`. */
  function HexDec2Chr(d: char8, upcase: bool): (c: char8)
    requires d <= 15 || d >= 0x80
    ensures d <= 15 ==> c == BinUtils.Digit2Hex(d, upcase)
    ensures d >= 0x80 ==> c == 0xFF
  {
    if d <= 9 then Digit0 + d
    else if 10 <= d <= 15 then (if upcase then d - 10 + UpperA else d - 10 + LowerA)
    else 0xFF
  }

  /** Decoding a printed digit gives the digit back. */
  lemma HexChr2DecOfHexDec2Chr(d: byte, upcase: bool)
    requires d <= 15
    ensures HexChr2Dec(HexDec2Chr(d, upcase)) == d
  {
    BinUtils.Hex2DigitOfDigit2Hex(d, upcase);
  }

  // ---------------------------------------------------------------------------
  // Packing
  // ---------------------------------------------------------------------------

  /** The low eight bits of a 32-bit value: `static_cast<uint8_t>`. */
  function Low8(x: bv32): byte {
    (x & 0xFF) as byte
  }

  /** `rgb::pack(r, g, b)`: r in bits 16-23, g in bits 8-15, b in bits 0-7. */
  function Pack(r: byte, g: byte, b: byte): (p: bv32)
    ensures p < 0x100_0000
    ensures Low8(p >> 16) == r && Low8(p >> 8) == g && Low8(p) == b
  {
    ((r as bv32) << 16) | ((g as bv32) << 8) | (b as bv32)
  }

  /** `rgb::pack(rgb)`: the array overload. */
  function PackArray(rgb: seq<byte>): (p: bv32)
    requires |rgb| == 3
    ensures p == Pack(rgb[0], rgb[1], rgb[2])
  {
    Pack(rgb[0], rgb[1], rgb[2])
  }

  /** `rgb::unpack` as written: the second and third components are masked with
      0xFF0000 and 0xFFFF00 before the cast keeps their low eight bits. */
  function Unpack(p: bv32): (rgb: seq<byte>)
    ensures |rgb| == 3
  {
    [Low8(p >> 16), Low8((p >> 8) & 0xFF_0000), Low8(p & 0xFF_FF00)]
  }

  /** The masks clear exactly the bits the cast keeps: `unpack` returns bits
      16-23 and two zeros, whatever the packed value. */
  lemma UnpackDropsGreenBlue(p: bv32)
    ensures Unpack(p)[0] == Low8(p >> 16)
    ensures Unpack(p)[1] == 0 && Unpack(p)[2] == 0
  {
  }

  /** So `unpack` does not invert `pack`: it keeps red and loses the rest. */
  lemma UnpackOfPack(r: byte, g: byte, b: byte)
    ensures Unpack(Pack(r, g, b)) == [r, 0, 0]
    ensures (g != 0 || b != 0) ==> Unpack(Pack(r, g, b)) != [r, g, b]
  {
    UnpackDropsGreenBlue(Pack(r, g, b));
  }

  /** `unpack` as evidently intended: each component shifted down and cast. */
  function UnpackIntended(p: bv32): (rgb: seq<byte>)
    ensures |rgb| == 3
    ensures Pack(rgb[0], rgb[1], rgb[2]) == p & 0xFF_FFFF
  {
    [Low8(p >> 16), Low8(p >> 8), Low8(p)]
  }

  /** The intended `unpack` inverts `pack`, and `pack` inverts it on 24-bit values. */
  lemma UnpackIntendedRoundTrip(r: byte, g: byte, b: byte, p: bv32)
    ensures UnpackIntended(Pack(r, g, b)) == [r, g, b]
    ensures p < 0x100_0000 ==> PackArray(UnpackIntended(p)) == p
  {
  }

  // ---------------------------------------------------------------------------
  // Rounding to a multiple of 17
  // ---------------------------------------------------------------------------

  /** C++ integer division, which truncates toward zero. */
  function TruncDiv(a: int, b: int): int
    requires b > 0
  {
    if a >= 0 then a / b else -((-a) / b)
  }

  /** The absolute value of an `int`. */
  function Abs(x: int): int {
    if x < 0 then -x else x
  }

  /** `rgb::round_digit_17(n)` as written: it means to choose the nearer of the
      multiples p1 = 17q and p2 = 17(q+1), but compares |n - p1| against
      n - p2, which is negative. The `uint8_t` result is the chosen multiple
      modulo 256, given here as its value. The precondition keeps 17(q+1)
      within `int`. */
  function RoundDigit17(n: int): (r: int)
    requires IntMin <= n < IntMax - 8
    ensures 0 <= r < 256
  {
    var d := 17;
    var q := TruncDiv(n, d);
    var p1 := d * q;
    var p2 := d * (q + 1);
    (if Abs(n - p1) > n - p2 then p2 else p1) % 256
  }

  /** The comparison always picks p2: the result is 17(n/17 + 1) modulo 256. */
  lemma RoundDigit17AlwaysUp(n: int)
    requires IntMin <= n < IntMax - 8
    ensures RoundDigit17(n) == (17 * TruncDiv(n, 17) + 17) % 256
  {
    var q := TruncDiv(n, 17);
    assert 17 * (q + 1) == 17 * q + 17;
  }

  /** Consequences for a colour component: below 255 the result is always
      strictly above the input (it never rounds down, and a multiple of 17
      moves up to the next one), and 255 wraps around to 16. */
  lemma RoundDigit17NeverDown(v: int)
    requires 0 <= v <= 255
    ensures v < 255 ==> RoundDigit17(v) > v
    ensures v < 255 ==> RoundDigit17(v) == 17 * (v / 17) + 17
    ensures RoundDigit17(255) == 16
  {
    RoundDigit17AlwaysUp(v);
    RoundDigit17AlwaysUp(255);
  }

  /** Examples: 18 is nearest to 17 but becomes 34; 17 itself becomes 34. */
  lemma RoundDigit17Examples()
    ensures RoundDigit17(18) == 34 && RoundDigit17(17) == 34 && RoundDigit17(0) == 17
  {
    RoundDigit17AlwaysUp(18);
    RoundDigit17AlwaysUp(17);
    RoundDigit17AlwaysUp(0);
  }

  /** The digit a component value gets in a three-digit code: one more than
      its seventeenths below 255, and 0 for 255. */
  function ThreeDigit(v: int): (d: int)
    requires 0 <= v <= 255
    ensures 0 <= d <= 15
  {
    if v < 255 then v / 17 + 1 else 0
  }

  /** What `round_digit_17` evidently means to compute for a component: the
      multiple of 17 nearest to it. */
  function RoundNearest17(v: int): (r: int)
    requires 0 <= v <= 255
    ensures 0 <= r <= 255 && r % 17 == 0
  {
    17 * ((v + 8) / 17)
  }

  /** The intended rounding gives a multiple of 17 in 0..255, within 8 of the
      component, so its digit `r / 17` is at most 15; a multiple of 17 is
      kept, 255 included. */
  lemma RoundNearest17Nearest(v: int)
    requires 0 <= v <= 255
    ensures var r := RoundNearest17(v);
      r % 17 == 0 && 0 <= r <= 255 && r / 17 <= 15 && -8 <= v - r <= 8
    ensures v % 17 == 0 ==> RoundNearest17(v) == v
  {
  }

  /** `round_digit_17(v) / 17` is that digit, so it is at most 15 and the
      `assert(digit <= 15)` in `hex_dec2chr` holds for every component. */
  lemma ThreeDigitOfRound(v: int)
    requires 0 <= v <= 255
    ensures RoundDigit17(v) / 17 == ThreeDigit(v)
  {
    RoundDigit17NeverDown(v);
  }

  // ---------------------------------------------------------------------------
  // Colour codes
  // ---------------------------------------------------------------------------

  /** What `rgb::rgb_to_hex(r, g, b, three_digit, uppercase)` returns: two hex
      digits per component, high nibble first, or one digit per component in
      the three-digit form. */
  function HexColor(r: byte, g: byte, b: byte, threeDigit: bool, upcase: bool): (s: seq<char8>)
    ensures |s| == if threeDigit then 3 else 6
  {
    if threeDigit then
      [BinUtils.Digit2Hex(ThreeDigit(r as int) as byte, upcase),
       BinUtils.Digit2Hex(ThreeDigit(g as int) as byte, upcase),
       BinUtils.Digit2Hex(ThreeDigit(b as int) as byte, upcase)]
    else
      BinUtils.HexPair(r, upcase) + BinUtils.HexPair(g, upcase) + BinUtils.HexPair(b, upcase)
  }

  /** A nibble printed by `hex_dec2chr` is the `digit2hex` character, a hex
      digit in the requested case. */
  lemma NibbleChar(x: byte, upcase: bool)
    requires x <= 15
    ensures HexDec2Chr(x, upcase) == BinUtils.Digit2Hex(x, upcase)
    ensures BinUtils.IsHexDigitIn(BinUtils.Digit2Hex(x, upcase), upcase)
  {
  }

  /** Every character of a colour code is a hex digit in the requested case. */
  lemma HexColorDigits(r: byte, g: byte, b: byte, threeDigit: bool, upcase: bool)
    ensures forall i :: 0 <= i < |HexColor(r, g, b, threeDigit, upcase)| ==>
      BinUtils.IsHexDigitIn(HexColor(r, g, b, threeDigit, upcase)[i], upcase)
  {
    if threeDigit {
      SmallByte(ThreeDigit(r as int));
      SmallByte(ThreeDigit(g as int));
      SmallByte(ThreeDigit(b as int));
      NibbleChar(ThreeDigit(r as int) as byte, upcase);
      NibbleChar(ThreeDigit(g as int) as byte, upcase);
      NibbleChar(ThreeDigit(b as int) as byte, upcase);
    } else {
      LongCodeDigits(r, g, b, upcase);
    }
  }

  /** The six-digit case of `HexColorDigits`, pair by pair. */
  lemma LongCodeDigits(r: byte, g: byte, b: byte, upcase: bool)
    ensures forall i :: 0 <= i < 6 ==> BinUtils.IsHexDigitIn(HexColor(r, g, b, false, upcase)[i], upcase)
  {
    var s := HexColor(r, g, b, false, upcase);
    var pr, pg, pb := BinUtils.HexPair(r, upcase), BinUtils.HexPair(g, upcase), BinUtils.HexPair(b, upcase);
    PairDigits(r, upcase);
    PairDigits(g, upcase);
    PairDigits(b, upcase);
    assert s == [pr[0], pr[1], pg[0], pg[1], pb[0], pb[1]];
  }

  /** Both characters of a printed byte are hex digits in the requested case. */
  lemma PairDigits(v: byte, upcase: bool)
    ensures BinUtils.IsHexDigitIn(BinUtils.HexPair(v, upcase)[0], upcase)
    ensures BinUtils.IsHexDigitIn(BinUtils.HexPair(v, upcase)[1], upcase)
  {
    NibbleChar(v >> 4, upcase);
    NibbleChar(v & 0xF, upcase);
  }

  /** `rgb::rgb_to_hex`: pushes the digits one by one. */
  method RgbToHex(r: byte, g: byte, b: byte, threeDigit: bool, upcase: bool) returns (ret: seq<char8>)
    ensures ret == HexColor(r, g, b, threeDigit, upcase)
  {
    ret := [];
    if threeDigit {
      ret := PushThreeDigit(ret, r, upcase);
      ret := PushThreeDigit(ret, g, upcase);
      ret := PushThreeDigit(ret, b, upcase);
    } else {
      ret := PushHexByte(ret, r, upcase);
      ret := PushHexByte(ret, g, upcase);
      ret := PushHexByte(ret, b, upcase);
    }
  }

  /** The three-digit step of `rgb::rgb_to_hex` for one component:
      `hex_dec2chr(round_digit_17(v) / 17)` pushed. */
  method PushThreeDigit(ret: seq<char8>, v: byte, upcase: bool) returns (out: seq<char8>)
    ensures out == ret + [BinUtils.Digit2Hex(ThreeDigit(v as int) as byte, upcase)]
  {
    var q := RoundDigit17(v as int) / 17;
    ThreeDigitOfRound(v as int);
    SmallByte(q);
    out := ret + [HexDec2Chr(ByteOf(q), upcase)];
  }

  /** The six-digit step of `rgb::rgb_to_hex` for one component: `split_byte`,
      then `hex_dec2chr` of the high and the low nibble pushed in that order. */
  method PushHexByte(ret: seq<char8>, v: byte, upcase: bool) returns (out: seq<char8>)
    ensures out == ret + BinUtils.HexPair(v, upcase)
  {
    var (hi, lo) := BinUtils.SplitByte(v);
    NibbleChar(hi, upcase);
    NibbleChar(lo, upcase);
    out := ret + [HexDec2Chr(hi, upcase)];
    out := out + [HexDec2Chr(lo, upcase)];
  }

  /** The text of a colour code after its optional '#'. */
  function CodeBody(s: seq<char8>): seq<char8>
    requires |s| > 0
  {
    if s[0] == Hash then s[1..] else s
  }

  /** All characters of `s` are hex digits. */
  predicate AllHex(s: seq<char8>) {
    forall i :: 0 <= i < |s| ==> BinUtils.IsHexDigit(s[i])
  }

  /** The colour three hex digits stand for: digit d gives the component 17d. */
  function ShortColor(body: seq<char8>): (rgb: seq<byte>)
    requires |body| == 3
    ensures |rgb| == 3
  {
    [BinUtils.Hex2Digit(body[0]) * 17, BinUtils.Hex2Digit(body[1]) * 17,
     BinUtils.Hex2Digit(body[2]) * 17]
  }

  /** The colour six hex digits stand for: each pair is a byte, high nibble first. */
  function LongColor(body: seq<char8>): (rgb: seq<byte>)
    requires |body| == 6
    ensures |rgb| == 3
  {
    [BinUtils.PairByte(body[0], body[1]), BinUtils.PairByte(body[2], body[3]),
     BinUtils.PairByte(body[4], body[5])]
  }

  /** What `rgb::hex_to_rgb(hexcode)` returns: nothing for an empty code;
      otherwise, after an optional '#', exactly three hex digits or exactly six;
      anything else gives nothing. */
  function ParseHexColor(s: seq<char8>): (rgb: Option<seq<byte>>)
    ensures rgb.Some? ==> |rgb.value| == 3
    ensures rgb.Some? ==> |s| > 0 && AllHex(CodeBody(s)) && (|CodeBody(s)| == 3 || |CodeBody(s)| == 6)
  {
    if |s| == 0 then None
    else
      var body := CodeBody(s);
      if |body| == 3 && AllHex(body) then Some(ShortColor(body))
      else if |body| == 6 && AllHex(body) then Some(LongColor(body))
      else None
  }

  /** What the loops of `rgb::hex_to_rgb` store for a body of three
      characters: `static_cast<uint8_t>(digit * 17)` per character. */
  function ShortColorRaw(body: seq<char8>): (rgb: seq<byte>)
    requires |body| == 3
    ensures |rgb| == 3
    ensures AllHex(body) ==> rgb == ShortColor(body)
  {
    [HexChr2Dec(body[0]) * 17, HexChr2Dec(body[1]) * 17, HexChr2Dec(body[2]) * 17]
  }

  /** The byte stored for a pair: `static_cast<uint8_t>(left) << 4 |
      static_cast<uint8_t>(right)`, truncated to eight bits. */
  function PairRaw(l: char8, r: char8): (v: byte)
    ensures BinUtils.IsHexDigit(l) && BinUtils.IsHexDigit(r) ==> v == BinUtils.PairByte(l, r)
  {
    (HexChr2Dec(l) << 4) | HexChr2Dec(r)
  }

  /** What they store for a body of six characters: `PairRaw` per pair. */
  function LongColorRaw(body: seq<char8>): (rgb: seq<byte>)
    requires |body| == 6
    ensures |rgb| == 3
    ensures AllHex(body) ==> rgb == LongColor(body)
  {
    [PairRaw(body[0], body[1]), PairRaw(body[2], body[3]), PairRaw(body[4], body[5])]
  }

  /** No character of `body` fails the test `digit < 0`. */
  predicate Passes(body: seq<char8>, signedChar: bool) {
    forall i :: 0 <= i < |body| ==> !Negative(HexChr2Dec(body[i]), signedChar)
  }

  /** With signed `char` the test rejects exactly the characters that are not
      hex digits; with unsigned `char` the -1 is 255 and it rejects nothing. */
  lemma PassesExactly(body: seq<char8>)
    ensures Passes(body, true) <==> AllHex(body)
    ensures Passes(body, false)
  {
    if !AllHex(body) {
      var i :| 0 <= i < |body| && !BinUtils.IsHexDigit(body[i]);
      assert Negative(HexChr2Dec(body[i]), true);
    }
  }

  /** What `rgb::hex_to_rgb(hexcode)` returns for the given signedness of
      `char`: nothing for an empty code; otherwise, after an optional '#', a
      body of three or six characters none of which fails the test. */
  function ParseHexColorAs(s: seq<char8>, signedChar: bool): (rgb: Option<seq<byte>>)
    ensures rgb.Some? ==> |rgb.value| == 3
  {
    if |s| == 0 then None
    else
      var body := CodeBody(s);
      if |body| == 3 && Passes(body, signedChar) then Some(ShortColorRaw(body))
      else if |body| == 6 && Passes(body, signedChar) then Some(LongColorRaw(body))
      else None
  }

  /** With signed `char`, `hex_to_rgb` is `ParseHexColor`. */
  lemma SignedIsParseHexColor(s: seq<char8>)
    ensures ParseHexColorAs(s, true) == ParseHexColor(s)
  {
    if |s| > 0 {
      PassesExactly(CodeBody(s));
    }
  }

  /** With unsigned `char` it gives a colour for every body of three or six
      characters, and the colour `ParseHexColor` gives when they are all hex
      digits. */
  lemma UnsignedAcceptsEveryBody(s: seq<char8>)
    ensures ParseHexColorAs(s, false).Some? <==> |s| > 0 && (|CodeBody(s)| == 3 || |CodeBody(s)| == 6)
    ensures |s| > 0 && AllHex(CodeBody(s)) ==> ParseHexColorAs(s, false) == ParseHexColor(s)
  {
    if |s| > 0 {
      PassesExactly(CodeBody(s));
    }
  }

  /** Where `char` is unsigned, "GGG" reads as (239, 239, 239) and "GGGGGG"
      as (255, 255, 255); with signed `char` both give nothing. */
  lemma UnsignedCharAcceptsNonHex()
    ensures !BinUtils.IsHexDigit(0x47)
    ensures ParseHexColorAs([0x47, 0x47, 0x47], false) == Some([239, 239, 239])
    ensures ParseHexColorAs([0x47, 0x47, 0x47, 0x47, 0x47, 0x47], false) == Some([255, 255, 255])
    ensures ParseHexColorAs([0x47, 0x47, 0x47], true) == None
    ensures ParseHexColorAs([0x47, 0x47, 0x47, 0x47, 0x47, 0x47], true) == None
  {
    var s3: seq<char8> := [0x47, 0x47, 0x47];
    var s6: seq<char8> := [0x47, 0x47, 0x47, 0x47, 0x47, 0x47];
    assert CodeBody(s3) == s3;
    assert CodeBody(s6) == s6;
    PassesExactly(s3);
    PassesExactly(s6);
    assert !AllHex(s3) && !AllHex(s6);
  }

  /** `rgb::hex_to_rgb`: checks for an empty code and a '#', then decodes three
      or six digits, or gives nothing for any other length. */
  method HexToRgb(hexcode: seq<char8>, signedChar: bool) returns (res: Option<seq<byte>>)
    ensures res == ParseHexColorAs(hexcode, signedChar)
    ensures signedChar ==> res == ParseHexColor(hexcode)
  {
    SignedIsParseHexColor(hexcode);
    if |hexcode| == 0 {
      return None;
    }
    var len := |hexcode|;
    var len3, len6 := 3, 6;
    var str := hexcode;
    if hexcode[0] == Hash {
      str := str[1..];
      len3, len6 := len3 + 1, len6 + 1;
    }
    assert str == CodeBody(hexcode);
    assert len == len3 <==> |str| == 3;
    assert len == len6 <==> |str| == 6;
    if len == len3 {
      res := DecodeShort(str, signedChar);
      return;
    }
    if len == len6 {
      res := DecodeLong(str, signedChar);
      return;
    }
    return None;
  }

  /** The three-digit loop of `rgb::hex_to_rgb`: stores 17 times each digit
      into `color`, returning nothing at the first digit below 0. */
  method DecodeShort(str: seq<char8>, signedChar: bool) returns (res: Option<seq<byte>>)
    requires |str| == 3
    ensures res == if Passes(str, signedChar) then Some(ShortColorRaw(str)) else None
  {
    var color: seq<byte> := [0, 0, 0];
    for i := 0 to 3
      invariant |color| == 3
      invariant forall k :: 0 <= k < i ==> !Negative(HexChr2Dec(str[k]), signedChar)
      invariant forall k :: 0 <= k < i ==> color[k] == HexChr2Dec(str[k]) * 17
    {
      var digit := HexChr2Dec(str[i]);
      if Negative(digit, signedChar) {
        return None;
      }
      color := color[i := digit * 17];
    }
    assert color == ShortColorRaw(str);
    return Some(color);
  }

  /** The six-digit loop of `rgb::hex_to_rgb`: stores each pair of digits as a
      byte into `color`, returning nothing when either digit of a pair is
      below 0. */
  method DecodeLong(str: seq<char8>, signedChar: bool) returns (res: Option<seq<byte>>)
    requires |str| == 6
    ensures res == if Passes(str, signedChar) then Some(LongColorRaw(str)) else None
  {
    var color: seq<byte> := [0, 0, 0];
    var i, j := 0, 0;
    while i < 6
      invariant 0 <= j <= 3 && i == 2 * j && |color| == 3
      invariant forall k :: 0 <= k < i ==> !Negative(HexChr2Dec(str[k]), signedChar)
      invariant forall k :: 0 <= k < j ==> color[k] == PairRaw(str[2 * k], str[2 * k + 1])
    {
      var left := HexChr2Dec(str[i]);
      var right := HexChr2Dec(str[i + 1]);
      if Negative(left, signedChar) || Negative(right, signedChar) {
        return None;
      }
      color := color[j := PairRaw(str[i], str[i + 1])];
      i, j := i + 2, j + 1;
    }
    assert color == LongColorRaw(str);
    return Some(color);
  }

  /** Round trip: a six-digit code, with or without '#', reads back as the
      components it was printed from. */
  lemma HexColorRoundTrip(r: byte, g: byte, b: byte, upcase: bool)
    ensures ParseHexColor(HexColor(r, g, b, false, upcase)) == Some([r, g, b])
    ensures ParseHexColor([Hash] + HexColor(r, g, b, false, upcase)) == Some([r, g, b])
  {
    var s := HexColor(r, g, b, false, upcase);
    HexColorDigits(r, g, b, false, upcase);
    BinUtils.PairByteOfHexPair(r, upcase);
    BinUtils.PairByteOfHexPair(g, upcase);
    BinUtils.PairByteOfHexPair(b, upcase);
    assert CodeBody(s) == s;
    assert CodeBody([Hash] + s) == s;
  }

  /** A three-digit code reads back with every component moved to the digit
      `ThreeDigit` chose, times 17: so white prints as "000" and reads back as
      black. */
  lemma ThreeDigitRoundTrip(r: byte, g: byte, b: byte, upcase: bool)
    ensures ParseHexColor(HexColor(r, g, b, true, upcase)) ==
      Some([ThreeDigit(r as int) as byte * 17, ThreeDigit(g as int) as byte * 17,
            ThreeDigit(b as int) as byte * 17])
    ensures HexColor(255, 255, 255, true, upcase) == [Digit0, Digit0, Digit0]
    ensures ParseHexColor(HexColor(255, 255, 255, true, upcase)) == Some([0, 0, 0])
  {
    ShortCodeRoundTrip(r, g, b, upcase);
    ShortCodeRoundTrip(255, 255, 255, upcase);
  }

  /** The first clause of `ThreeDigitRoundTrip`, for one colour. */
  lemma ShortCodeRoundTrip(r: byte, g: byte, b: byte, upcase: bool)
    ensures ParseHexColor(HexColor(r, g, b, true, upcase)) ==
      Some([ThreeDigit(r as int) as byte * 17, ThreeDigit(g as int) as byte * 17,
            ThreeDigit(b as int) as byte * 17])
  {
    var s := HexColor(r, g, b, true, upcase);
    HexColorDigits(r, g, b, true, upcase);
    assert CodeBody(s) == s;
    BinUtils.Hex2DigitOfDigit2Hex(ThreeDigit(r as int) as byte, upcase);
    BinUtils.Hex2DigitOfDigit2Hex(ThreeDigit(g as int) as byte, upcase);
    BinUtils.Hex2DigitOfDigit2Hex(ThreeDigit(b as int) as byte, upcase);
  }

  /** The codes that parse: an empty code, a bare '#', a wrong length or a
      non-hex character give nothing. */
  lemma ParseHexColorRejects(s: seq<char8>)
    ensures |s| == 0 ==> ParseHexColor(s) == None
    ensures s == [Hash] ==> ParseHexColor(s) == None
    ensures |s| > 0 && |CodeBody(s)| != 3 && |CodeBody(s)| != 6 ==> ParseHexColor(s) == None
    ensures |s| > 0 && !AllHex(CodeBody(s)) ==> ParseHexColor(s) == None
  {
  }

  /** `std::optional::value_or`: the value held, or `default` when there is none. */
  function ValueOr(o: Option<seq<byte>>, default: seq<byte>): (v: seq<byte>)
    ensures o.Some? ==> v == o.value
    ensures o.None? ==> v == default
  {
    match o
    case Some(v) => v
    case None => default
  }

  /** `color_rgb`: three components, set by the constructors and assignments. */
  class ColorRgb {
    var r: byte
    var g: byte
    var b: byte

    /** The default constructor: black. */
    constructor Default()
      ensures r == 0 && g == 0 && b == 0
    {
      r, g, b := 0, 0, 0;
    }

    /** The component constructor. */
    constructor Components(r0: byte, g0: byte, b0: byte)
      ensures r == r0 && g == g0 && b == b0
    {
      r, g, b := r0, g0, b0;
    }

    /** The array constructor. */
    constructor FromArray(cols: seq<byte>)
      requires |cols| == 3
      ensures [r, g, b] == cols
    {
      r, g, b := cols[0], cols[1], cols[2];
    }

    /** The hex-code constructor: the parsed colour, or black when the code
        does not parse. */
    constructor FromHex(hexcode: seq<char8>, signedChar: bool)
      ensures [r, g, b] == ValueOr(ParseHexColorAs(hexcode, signedChar), [0, 0, 0])
      ensures signedChar ==> [r, g, b] == ValueOr(ParseHexColor(hexcode), [0, 0, 0])
    {
      var parsed := HexToRgb(hexcode, signedChar);
      var colors := ValueOr(parsed, [0, 0, 0]);
      r, g, b := colors[0], colors[1], colors[2];
    }

    /** `operator=(rgb_array_t)`. */
    method AssignArray(cols: seq<byte>)
      requires |cols| == 3
      modifies this
      ensures [r, g, b] == cols
    {
      r, g, b := cols[0], cols[1], cols[2];
    }

    /** `operator=(std::string_view)`: the hex-code constructor's colour,
        black included when the code does not parse. */
    method AssignHex(hexcode: seq<char8>, signedChar: bool)
      modifies this
      ensures [r, g, b] == ValueOr(ParseHexColorAs(hexcode, signedChar), [0, 0, 0])
      ensures signedChar ==> [r, g, b] == ValueOr(ParseHexColor(hexcode), [0, 0, 0])
    {
      var c := new ColorRgb.FromHex(hexcode, signedChar);
      r, g, b := c.r, c.g, c.b;
    }

    /** `array()`. */
    method Array() returns (cols: seq<byte>)
      ensures cols == [r, g, b]
    {
      cols := [r, g, b];
    }

    /** `packed()`: the components packed into 24 bits. */
    method Packed() returns (p: bv32)
      ensures p == Pack(r, g, b)
      ensures UnpackIntended(p) == [r, g, b]
    {
      p := Pack(r, g, b);
      UnpackIntendedRoundTrip(r, g, b, p);
    }

    /** `hex(three_digit, uppercase)`: the colour code of the components. */
    method Hex(threeDigit: bool, upcase: bool) returns (s: seq<char8>)
      ensures s == HexColor(r, g, b, threeDigit, upcase)
      ensures !threeDigit ==> ParseHexColor(s) == Some([r, g, b])
    {
      s := RgbToHex(r, g, b, threeDigit, upcase);
      HexColorRoundTrip(r, g, b, upcase);
    }
  }
}
