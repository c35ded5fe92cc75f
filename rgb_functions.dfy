/** The integer part of rgb_functions.h, the later version of the colour
    helpers that prints and parses digits with `digit2hex` and `hex2digit`
    from bin_utils.h. Its `pack`, `unpack` and `round_digit_17` have the same
    text as in Colors.h and are `Colors.Pack`, `Colors.Unpack` and
    `Colors.RoundDigit17`. */
module RgbFunctions {
  import opened Base
  import BinUtils
  import Colors

  // ---------------------------------------------------------------------------
  // Printing
  // ---------------------------------------------------------------------------

  /** `rgb::rgb_to_hex`: the same colour codes as in Colors.h, written with
      `digit2hex`; a three-digit code pushes `digit2hex(round_digit_17(v) / 17)`
      per component, a six-digit one the two nibbles of `split_byte`. */
  method RgbToHex(r: byte, g: byte, b: byte, threeDigit: bool, upcase: bool) returns (ret: seq<char8>)
    ensures ret == Colors.HexColor(r, g, b, threeDigit, upcase)
    ensures !threeDigit ==> Colors.ParseHexColor(ret) == Some([r, g, b])
    ensures !threeDigit ==> ParseHexColorAs(ret, false) == Some([r, g, b])
    ensures !threeDigit ==> ParseHexColorAs(ret, true) == Some([r, g, b])
  {
    ret := [];
    if threeDigit {
      ret := PushThreeDigit(ret, r, upcase);
      ret := PushThreeDigit(ret, g, upcase);
      ret := PushThreeDigit(ret, b, upcase);
    } else {
      ret := PushHexByte(ret, r, upcase);
      ret := PushHexByte(ret, g, upcase);
      ret := PushHexByte(ret, b, upcase);
      Colors.HexColorRoundTrip(r, g, b, upcase);
      RgbRoundTrip(r, g, b, upcase, false);
      RgbRoundTrip(r, g, b, upcase, true);
    }
  }

  /** One component of a three-digit code: the `int` quotient is passed to
      `digit2hex` as a `uint8_t`. */
  method PushThreeDigit(ret: seq<char8>, v: byte, upcase: bool) returns (out: seq<char8>)
    ensures out == ret + [BinUtils.Digit2Hex(Colors.ThreeDigit(v as int) as byte, upcase)]
  {
    Colors.ThreeDigitOfRound(v as int);
    out := ret + [BinUtils.Digit2Hex(Colors.ByteOf(Colors.RoundDigit17(v as int) / 17), upcase)];
  }

  /** One component of a six-digit code: `split_byte`, then both nibbles. */
  method PushHexByte(ret: seq<char8>, v: byte, upcase: bool) returns (out: seq<char8>)
    ensures out == ret + BinUtils.HexPair(v, upcase)
  {
    var (hi, lo) := BinUtils.SplitByte(v);
    out := ret + [BinUtils.Digit2Hex(hi, upcase)];
    out := out + [BinUtils.Digit2Hex(lo, upcase)];
  }

  // ---------------------------------------------------------------------------
  // Parsing
  // ---------------------------------------------------------------------------

  /** The test `hex2digit(c) == c` that rejects a character: the `uint8_t`
      result against the promoted `char`. A negative `char` never equals a
      `uint8_t`; otherwise the two codes are compared. */
  predicate Rejects(c: char8, signedChar: bool) {
    BinUtils.Hex2Digit(c) == c && !Negative(c, signedChar)
  }

  /** `Rejects` is the comparison of the promoted values. */
  lemma RejectsIsPromotedEquality(c: char8, signedChar: bool)
    ensures Rejects(c, signedChar) <==> BinUtils.Hex2Digit(c) as int == Promoted(c, signedChar)
  {
  }

  /** `hex2digit` hands a character back unchanged exactly when it is not a
      hex digit. */
  lemma SelfDigit(c: char8)
    ensures BinUtils.Hex2Digit(c) == c <==> !BinUtils.IsHexDigit(c)
  {
  }

  /** With unsigned `char` the test is exact: it rejects just the characters
      that are not hex digits. */
  lemma RejectsExactly(c: char8)
    ensures Rejects(c, false) <==> !BinUtils.IsHexDigit(c)
  {
    SelfDigit(c);
  }

  /** With signed `char` it also lets through every code from 0x80: there
      `hex2digit` hands back the code as a `uint8_t`, which is not negative. */
  lemma SignedRejects(c: char8)
    ensures c < 0x80 ==> (Rejects(c, true) <==> !BinUtils.IsHexDigit(c))
    ensures c >= 0x80 ==> !Rejects(c, true) && !BinUtils.IsHexDigit(c)
  {
  }

  /** No character of `s` is rejected. */
  predicate Accepted(s: seq<char8>, signedChar: bool) {
    forall i :: 0 <= i < |s| ==> !Rejects(s[i], signedChar)
  }

  /** What `rgb::hex_to_rgb(hexcode)` returns for the given signedness of
      `char`: the shape of `Colors.ParseHexColor`, with the `hex2digit` test in
      place of `hex_chr2dec(c) < 0`. */
  function ParseHexColorAs(s: seq<char8>, signedChar: bool): (rgb: Option<seq<byte>>)
    ensures rgb.Some? ==> |rgb.value| == 3
  {
    if |s| == 0 then None
    else
      var body := Colors.CodeBody(s);
      if |body| == 3 && Accepted(body, signedChar) then Some(Colors.ShortColor(body))
      else if |body| == 6 && Accepted(body, signedChar) then Some(Colors.LongColor(body))
      else None
  }

  /** `hex_to_rgb` here with unsigned `char` accepts exactly the codes
      Colors.h's accepts with signed `char`, and gives the same colours. */
  lemma UnsignedAgreesWithColors(s: seq<char8>)
    ensures ParseHexColorAs(s, false) == Colors.ParseHexColor(s)
    ensures ParseHexColorAs(s, false) == Colors.ParseHexColorAs(s, true)
  {
    Colors.SignedIsParseHexColor(s);
    if |s| > 0 {
      var body := Colors.CodeBody(s);
      assert Accepted(body, false) <==> Colors.AllHex(body) by {
        forall i | 0 <= i < |body| {
          RejectsExactly(body[i]);
        }
      }
    }
  }

  /** On any one platform the two `hex_to_rgb`s differ: with unsigned `char`
      Colors.h's accepts "GGG" and this one rejects it; with signed `char`
      this one accepts three 0xC0 characters and Colors.h's rejects them. */
  lemma ParsersDifferOnEachPlatform()
    ensures ParseHexColorAs([0x47, 0x47, 0x47], false) == None
    ensures Colors.ParseHexColorAs([0x47, 0x47, 0x47], false) == Some([239, 239, 239])
    ensures ParseHexColorAs([0xC0, 0xC0, 0xC0], true) == Some([0xC0, 0xC0, 0xC0])
    ensures Colors.ParseHexColorAs([0xC0, 0xC0, 0xC0], true) == None
  {
    UnsignedAgreesWithColors([0x47, 0x47, 0x47]);
    Colors.SignedIsParseHexColor([0xC0, 0xC0, 0xC0]);
    Colors.UnsignedCharAcceptsNonHex();
    SignedCharAcceptsNonHex();
  }

  /** Round trip through this header's own parser: a six-digit code printed
      by `rgb_to_hex` reads back as its components with either signedness of
      `char`, since all of its characters are seven-bit hex digits. */
  lemma RgbRoundTrip(r: byte, g: byte, b: byte, upcase: bool, signedChar: bool)
    ensures ParseHexColorAs(Colors.HexColor(r, g, b, false, upcase), signedChar) == Some([r, g, b])
  {
    var s := Colors.HexColor(r, g, b, false, upcase);
    Colors.HexColorRoundTrip(r, g, b, upcase);
    Colors.HexColorDigits(r, g, b, false, upcase);
    UnsignedAgreesWithColors(s);
    assert forall i :: 0 <= i < |s| ==> s[i] < 0x80;
    SignednessIrrelevantForAscii(s);
  }

  /** The two signednesses agree on codes of seven-bit characters. */
  lemma SignednessIrrelevantForAscii(s: seq<char8>)
    requires forall i :: 0 <= i < |s| ==> s[i] < 0x80
    ensures ParseHexColorAs(s, true) == ParseHexColorAs(s, false)
  {
    if |s| > 0 {
      var body := Colors.CodeBody(s);
      assert forall i :: 0 <= i < |body| ==> body[i] < 0x80;
      assert Accepted(body, true) <==> Accepted(body, false) by {
        forall i | 0 <= i < |body|
          ensures Rejects(body[i], true) <==> Rejects(body[i], false)
        {
          SignedRejects(body[i]);
          RejectsExactly(body[i]);
        }
      }
    }
  }

  /** With signed `char`, a code of three 0xC0 characters, which are not hex
      digits, parses as the colour (0xC0, 0xC0, 0xC0); Colors.h's parser
      with signed `char`, `ParseHexColor`, rejects it. */
  lemma SignedCharAcceptsNonHex()
    ensures !BinUtils.IsHexDigit(0xC0)
    ensures ParseHexColorAs([0xC0, 0xC0, 0xC0], true) == Some([0xC0, 0xC0, 0xC0])
    ensures Colors.ParseHexColor([0xC0, 0xC0, 0xC0]) == None
  {
    var s: seq<char8> := [0xC0, 0xC0, 0xC0];
    assert Colors.CodeBody(s) == s;
    SignedRejects(0xC0);
    assert !Colors.AllHex(s);
  }

  /** `rgb::hex_to_rgb`: the checks of Colors.h's version, then the digit
      loops with the `hex2digit(c) == c` test made on the promoted `char`.
      With unsigned `char` it is Colors.h's parser under signed `char`. */
  method HexToRgb(hexcode: seq<char8>, signedChar: bool) returns (res: Option<seq<byte>>)
    ensures res == ParseHexColorAs(hexcode, signedChar)
    ensures !signedChar ==> res == Colors.ParseHexColor(hexcode)
  {
    UnsignedAgreesWithColors(hexcode);
    if |hexcode| == 0 {
      return None;
    }
    var len := |hexcode|;
    var len3, len6 := 3, 6;
    var str := hexcode;
    if hexcode[0] == Hash {
      str := str[1..];
      len3, len6 := len3 + 1, len6 + 1;
    }
    assert str == Colors.CodeBody(hexcode);
    assert len == len3 <==> |str| == 3;
    assert len == len6 <==> |str| == 6;
    if len == len3 {
      res := DecodeShort(str, signedChar);
      return;
    }
    if len == len6 {
      res := DecodeLong(str, signedChar);
      return;
    }
    return None;
  }

  /** The three-digit loop: `color[i] = digit * 17`, truncated to eight bits,
      returning nothing at the first rejected character. */
  method DecodeShort(str: seq<char8>, signedChar: bool) returns (res: Option<seq<byte>>)
    requires |str| == 3
    ensures res == if Accepted(str, signedChar) then Some(Colors.ShortColor(str)) else None
  {
    var color: seq<byte> := [0, 0, 0];
    for i := 0 to 3
      invariant |color| == 3
      invariant forall k :: 0 <= k < i ==> !Rejects(str[k], signedChar)
      invariant forall k :: 0 <= k < i ==> color[k] == BinUtils.Hex2Digit(str[k]) * 17
    {
      var digit := BinUtils.Hex2Digit(str[i]);
      if digit == str[i] && !Negative(str[i], signedChar) {
        return None;
      }
      color := color[i := digit * 17];
    }
    assert color == Colors.ShortColor(str);
    return Some(color);
  }

  /** The six-digit loop: `color[j] = left << 4 | right`, truncated to eight
      bits, returning nothing when either character of a pair is rejected. */
  method DecodeLong(str: seq<char8>, signedChar: bool) returns (res: Option<seq<byte>>)
    requires |str| == 6
    ensures res == if Accepted(str, signedChar) then Some(Colors.LongColor(str)) else None
  {
    var color: seq<byte> := [0, 0, 0];
    var i, j := 0, 0;
    while i < 6
      invariant 0 <= j <= 3 && i == 2 * j && |color| == 3
      invariant forall k :: 0 <= k < i ==> !Rejects(str[k], signedChar)
      invariant forall k :: 0 <= k < j ==> color[k] == BinUtils.PairByte(str[2 * k], str[2 * k + 1])
    {
      var rejected, v := DecodePair(str[i], str[i + 1], signedChar);
      if rejected {
        return None;
      }
      color := color[j := v];
      i, j := i + 2, j + 1;
    }
    assert color == Colors.LongColor(str);
    return Some(color);
  }

  /** One pass of the six-digit loop: `hex2digit` of both characters, the
      test on each, and the byte `left << 4 | right`. */
  method DecodePair(l: char8, r: char8, signedChar: bool) returns (rejected: bool, v: byte)
    ensures rejected <==> Rejects(l, signedChar) || Rejects(r, signedChar)
    ensures v == BinUtils.PairByte(l, r)
  {
    var left := BinUtils.Hex2Digit(l);
    var right := BinUtils.Hex2Digit(r);
    rejected := (left == l && !Negative(l, signedChar)) || (right == r && !Negative(r, signedChar));
    v := BinUtils.PairByte(l, r);
  }

  /** The `color_rgb(std::string_view)` constructor of rgb_functions.h: the
      parsed colour, or black when the code does not parse. The rest of that
      class (public fields, the other constructors, `array`, `packed`, `hex`)
      is `Colors.ColorRgb`. */
  method ColorFromHex(hexcode: seq<char8>, signedChar: bool) returns (c: Colors.ColorRgb)
    ensures fresh(c)
    ensures [c.r, c.g, c.b] == Colors.ValueOr(ParseHexColorAs(hexcode, signedChar), [0, 0, 0])
    ensures !signedChar ==> [c.r, c.g, c.b] == Colors.ValueOr(Colors.ParseHexColor(hexcode), [0, 0, 0])
  {
    var parsed := HexToRgb(hexcode, signedChar);
    var colors := Colors.ValueOr(parsed, [0, 0, 0]);
    c := new Colors.ColorRgb.FromArray(colors);
  }
}
