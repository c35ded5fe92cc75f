/** The older draft of the codec in `Binary.h`. It declares the same names as
    `bin_utils.h`; where its text is identical (`byte_swap`, `digit2hex`, the
    vector `from_bit_string` and the loops of `swap_endian`, `bit_string` and
    `hex_string`) the operations here run the `BinUtils` code, and where it
    differs (`hex2digit`, `from_hex_string`, the `from_bit_string<T>` overload)
    it is modelled on its own. */
module BinaryDraft {
  import opened Base
  import BinUtils

  /** The draft `hex2digit`: it subtracts the character from the top of its
      range, so digits come out reversed ('0' is 9, 'A' is 5, 'F' is 0).
      Any other character is handed back unchanged. */
  function Hex2Digit(c: char8): (d: byte)
    ensures Digit0 <= c <= Digit9 ==> d <= 9 && d as int == 9 - (c as int - Digit0 as int)
    ensures UpperA <= c <= UpperF ==> d <= 5 && d as int == 5 - (c as int - UpperA as int)
    ensures LowerA <= c <= LowerF ==> d <= 5 && d as int == 5 - (c as int - LowerA as int)
    ensures !BinUtils.IsHexDigit(c) ==> d == c
  {
    if Digit0 <= c <= Digit9 then Digit9 - c
    else if UpperA <= c <= UpperF then UpperF - c
    else if LowerA <= c <= LowerF then LowerF - c
    else c
  }

  /** Against the intended digit value v: the draft gives 9 - v for a decimal
      digit and 15 - v for a letter, so it disagrees with `BinUtils.Hex2Digit`
      on every hex digit. */
  lemma Hex2DigitReversed(c: char8)
    requires BinUtils.IsHexDigit(c)
    ensures Digit0 <= c <= Digit9 ==> Hex2Digit(c) as int == 9 - BinUtils.Hex2Digit(c) as int
    ensures !(Digit0 <= c <= Digit9) ==> Hex2Digit(c) as int == 15 - BinUtils.Hex2Digit(c) as int
    ensures Hex2Digit(c) != BinUtils.Hex2Digit(c)
  {
  }

  /** The values the draft gives, against its own comment. */
  lemma Hex2DigitExamples()
    ensures Hex2Digit(Digit0) == 9 && Hex2Digit(Digit9) == 0
    ensures Hex2Digit(UpperA) == 5 && Hex2Digit(UpperF) == 0
    ensures Hex2Digit(LowerA) == 5 && Hex2Digit(LowerF) == 0
  {
  }

  /** Consequence: the draft does not undo `digit2hex`. */
  lemma Hex2DigitNotInverse(upcase: bool)
    ensures Hex2Digit(BinUtils.Digit2Hex(0, upcase)) == 9
    ensures Hex2Digit(BinUtils.Digit2Hex(15, upcase)) == 0
  {
  }

  /** A character pair read as a byte with the draft digits. */
  function PairByte(l: char8, r: char8): byte {
    (Hex2Digit(l) << 4) | Hex2Digit(r)
  }

  /** What the draft `from_hex_string` returns: pair k becomes byte k; there is
      no byte-order option. */
  function FromHex(s: seq<char8>): (r: seq<byte>)
    requires |s| % 2 == 0
    ensures |r| == |s| / 2
  {
    seq(|s| / 2, k requires 0 <= k < |s| / 2 => PairByte(s[2 * k], s[2 * k + 1]))
  }

  /** The draft `from_hex_string`: asserts an even length and fills length/2
      bytes from consecutive pairs, in order. */
  method FromHexString(s: seq<char8>) returns (bytes: seq<byte>)
    requires |s| % 2 == 0
    ensures bytes == FromHex(s)
  {
    var n := |s| / 2;
    var buf := BinUtils.Zeros(n);
    var i, j := 0, 0;
    while i < |s|
      invariant |buf| == n && 0 <= j <= n && i == 2 * j
      invariant forall k :: 0 <= k < j ==> buf[k] == PairByte(s[2 * k], s[2 * k + 1])
    {
      var l := Hex2Digit(s[i]);
      var r := Hex2Digit(s[i + 1]);
      buf := buf[j := (l << 4) | r];
      i, j := i + 2, j + 1;
    }
    bytes := buf;
  }

  /** Each nibble the draft decodes is the complement of the intended one within
      its range: a byte printed as two decimal digits comes back as 0x99 minus
      itself. */
  lemma FromHexOfDecimalDigits(l: char8, r: char8)
    requires Digit0 <= l <= Digit9 && Digit0 <= r <= Digit9
    ensures FromHex([l, r]) == [0x99 - BinUtils.PairByte(l, r)]
  {
    assert FromHex([l, r])[0] == PairByte(l, r);
  }

  /** The draft decoder does not invert `hex_string`: the zero byte prints as
      "00" and comes back as 0x99. */
  lemma HexRoundTripFails()
    ensures BinUtils.HexText([0], true) == [Digit0, Digit0]
    ensures FromHex(BinUtils.HexText([0], true)) == [0x99]
  {
    BinUtils.HexTextAt([0], true, 0);
    assert FromHex([Digit0, Digit0])[0] == PairByte(Digit0, Digit0);
  }

  /** The draft vector `from_bit_string`: the same loops as in `bin_utils.h`,
      with `little_endian` defaulting to true (a default is just the caller's
      argument here). */
  method FromBitString(s: seq<char8>, littleEndian: bool) returns (bytes: seq<byte>)
    requires |s| % 8 == 0
    ensures |bytes| == |s| / 8
    ensures bytes == BinUtils.FromBits(s, littleEndian)
  {
    bytes := BinUtils.FromBitString(s, littleEndian);
  }

  /** `from_bit_string<T>` as evidently intended: it calls an undefined
      `from_bit_string_2` and returns an undeclared `res`; read as the vector
      decoder above with its result copied into the value. Its length check is
      a runtime `assert`, so it is a precondition. */
  method FromBitStringValue(s: seq<char8>, size: nat, littleEndian: bool) returns (value: seq<byte>)
    requires |s| == 8 * size
    ensures |value| == size
    ensures forall k, t :: 0 <= k < size && 0 <= t < 8 ==>
      (BinUtils.BitSet(value[k], t) <==>
        s[8 * (if littleEndian then size - 1 - k else k) + 7 - t] == Digit1)
  {
    value := FromBitString(s, littleEndian);
    forall k, t | 0 <= k < size && 0 <= t < 8
      ensures BinUtils.BitSet(value[k], t) <==>
        s[8 * (if littleEndian then size - 1 - k else k) + 7 - t] == Digit1
    {
      BinUtils.FromBitsMeaning(s, littleEndian, k, t);
    }
  }

  /** `swap_endian<T>`: mirrors the sizeof(T) bytes of the value in place with
      the same swap loop as `bin_utils.h`; applying it twice restores them. */
  method SwapEndian(data: array<byte>)
    modifies data
    ensures data[..] == BinUtils.Reversed(old(data[..]))
    ensures BinUtils.Reversed(data[..]) == old(data[..])
  {
    ghost var before := data[..];
    assert before[..data.Length] == before;
    BinUtils.SwapEndian(data, data.Length);
    assert data[..] == data[..data.Length];
    BinUtils.ReversedTwice(before);
  }

  /** `bit_string<T>`: the same resize-then-append loops, so the result is
      8*size NULs followed by the bits; `little_endian` defaults to true. */
  method BitString(data: seq<byte>, littleEndian: bool) returns (res: seq<char8>)
    ensures res == BinUtils.BitText(data, littleEndian)
    ensures |res| == 16 * |data|
    ensures forall k :: 0 <= k < 8 * |data| ==> res[k] == Nul
    ensures BinUtils.FromBits(res[8 * |data| ..], littleEndian) == data
  {
    res := BinUtils.BitString(data, littleEndian);
    if |data| > 0 {
      BinUtils.BitTextAt(data, littleEndian, 0);
    }
    BinUtils.BitRoundTrip(data, littleEndian);
  }

  /** `hex_string<T>`: 2*sizeof(T) characters, the last byte printed first,
      high nibble first. */
  method HexString(data: seq<byte>, upcase: bool) returns (res: seq<char8>)
    ensures |res| == 2 * |data|
    ensures forall j :: 0 <= j < |data| ==>
      res[2 * |data| - 2 * j - 2] == BinUtils.Digit2Hex(data[j] >> 4, upcase) &&
      res[2 * |data| - 2 * j - 1] == BinUtils.Digit2Hex(data[j] & 0xF, upcase)
  {
    res := BinUtils.HexString(data, upcase);
    forall j | 0 <= j < |data|
      ensures res[2 * |data| - 2 * j - 2] == BinUtils.Digit2Hex(data[j] >> 4, upcase) &&
              res[2 * |data| - 2 * j - 1] == BinUtils.Digit2Hex(data[j] & 0xF, upcase)
    {
      BinUtils.HexTextAt(data, upcase, j);
    }
  }
}
