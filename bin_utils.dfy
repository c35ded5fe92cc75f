/** The byte <-> text codec of bin_utils.h: hex digits, nibbles, in-place byte
    order reversal, and conversions between byte buffers and hex or bit strings.

    A buffer passed as `(const void* data, size_t size)` is modelled as the
    sequence of its `size` bytes; a buffer the source changes in place is an
    array. A typed value `T` is modelled as its `sizeof(T)` bytes. */
module BinUtils {
  import opened Base

  // ---------------------------------------------------------------------------
  // Single bytes and digits
  // ---------------------------------------------------------------------------

  /** `byte_swap`: exchanges the two bytes `a[i]` and `a[j]` (which may coincide). */
  method ByteSwap(a: array<byte>, i: nat, j: nat)
    requires i < a.Length && j < a.Length
    modifies a
    ensures a[i] == old(a[j]) && a[j] == old(a[i])
    ensures forall k :: 0 <= k < a.Length && k != i && k != j ==> a[k] == old(a[k])
  {
    var t := a[i];
    a[i] := a[j];
    a[j] := t;
  }

  /** The characters `hex2digit` recognises: '0'-'9', 'A'-'F' and 'a'-'f'. */
  predicate IsHexDigit(c: char8) {
    Digit0 <= c <= Digit9 || UpperA <= c <= UpperF || LowerA <= c <= LowerF
  }

  /** A hex digit as `digit2hex` writes it in the given case. */
  predicate IsHexDigitIn(c: char8, upcase: bool) {
    Digit0 <= c <= Digit9 || (upcase && UpperA <= c <= UpperF) || (!upcase && LowerA <= c <= LowerF)
  }

  /** `digit2hex`: a value 0..15 becomes its hex digit in the requested case;
      any other value is handed back unchanged, as the character with that code. */
  function Digit2Hex(d: byte, upcase: bool): (c: char8)
    ensures d <= 9 ==> Digit0 <= c <= Digit9
    ensures 10 <= d <= 15 ==> if upcase then UpperA <= c <= UpperF else LowerA <= c <= LowerF
    ensures d > 15 ==> c == d
  {
    if d <= 9 then d + Digit0
    else if d <= 15 then (if upcase then d - 10 + UpperA else d - 10 + LowerA)
    else d
  }

  /** `hex2digit`: a hex digit of either case becomes its value 0..15; any other
      character is handed back unchanged, as its own code. */
  function Hex2Digit(c: char8): (d: byte)
    ensures IsHexDigit(c) ==> d <= 15
    ensures !IsHexDigit(c) ==> d == c
  {
    if Digit0 <= c <= Digit9 then c - Digit0
    else if UpperA <= c <= UpperF then (c - UpperA) + 10
    else if LowerA <= c <= LowerF then (c - LowerA) + 10
    else c
  }

  /** Decoding undoes encoding: every value 0..15, written in either case, reads back. */
  lemma Hex2DigitOfDigit2Hex(d: byte, upcase: bool)
    requires d <= 15
    ensures Hex2Digit(Digit2Hex(d, upcase)) == d
  {
  }

  /** Encoding undoes decoding: a hex digit written in case `upcase` is
      reproduced by writing its value in that case. */
  lemma Digit2HexOfHex2Digit(c: char8, upcase: bool)
    requires IsHexDigitIn(c, upcase)
    ensures Digit2Hex(Hex2Digit(c), upcase) == c
  {
  }

  /** `split_byte`: the high and the low nibble of a byte; together they rebuild it. */
  function SplitByte(b: byte): (nibbles: (byte, byte))
    ensures nibbles.0 <= 15 && nibbles.1 <= 15
    ensures (nibbles.0 << 4) | nibbles.1 == b
  {
    (b >> 4, b & 0xF)
  }

  // ---------------------------------------------------------------------------
  // Byte order
  // ---------------------------------------------------------------------------

  /** A byte sequence mirrored: first byte last and last byte first. */
  function Reversed(s: seq<byte>): (r: seq<byte>)
    ensures |r| == |s|
    ensures forall k :: 0 <= k < |s| ==> r[k] == s[|s| - 1 - k]
  {
    if s == [] then [] else Reversed(s[1..]) + [s[0]]
  }

  /** Mirroring twice restores the original bytes. */
  lemma ReversedTwice(s: seq<byte>)
    ensures Reversed(Reversed(s)) == s
  {
    assert forall k :: 0 <= k < |s| ==> Reversed(Reversed(s))[k] == s[k];
  }

  /** Buffers of zero or one byte are their own mirror image. */
  lemma ReversedShort(s: seq<byte>)
    requires |s| <= 1
    ensures Reversed(s) == s
  {
  }

  /** Mirroring distributes over concatenation, swapping the halves. */
  lemma ReversedAppend(s: seq<byte>, t: seq<byte>)
    ensures Reversed(s + t) == Reversed(t) + Reversed(s)
  {
    assert forall k :: 0 <= k < |s| + |t| ==> Reversed(s + t)[k] == (Reversed(t) + Reversed(s))[k];
  }

  /** `swap_endian(data, size)`: mirrors the first `size` bytes of the buffer in
      place by swapping byte i with byte size-1-i for i < size/2. Bytes past
      `size` are not touched. */
  method SwapEndian(data: array<byte>, size: nat)
    requires size <= data.Length
    modifies data
    ensures data[..size] == Reversed(old(data[..size]))
    ensures data[size..] == old(data[size..])
  {
    ghost var was := data[..size];
    MirrorPrefix(data, size);
    assert forall k :: 0 <= k < size ==> data[..size][k] == Reversed(was)[k];
  }

  /** The loop of `swap_endian`, stated byte by byte. */
  method MirrorPrefix(data: array<byte>, size: nat)
    requires size <= data.Length
    modifies data
    ensures forall k :: 0 <= k < size ==> data[k] == old(data[size - 1 - k])
    ensures forall k :: size <= k < data.Length ==> data[k] == old(data[k])
  {
    var i := 0;
    while i < size / 2
      invariant 0 <= i <= size / 2
      invariant forall k :: 0 <= k < i ==> data[k] == old(data[size - 1 - k]) && data[size - 1 - k] == old(data[k])
      invariant forall k :: i <= k < size - i ==> data[k] == old(data[k])
      invariant forall k :: size <= k < data.Length ==> data[k] == old(data[k])
    {
      ByteSwap(data, i, size - 1 - i);
      i := i + 1;
    }
  }

  /** `swap_endian<T>(T&)`: mirrors all `sizeof(T)` bytes of a value in place. */
  method SwapEndianValue(value: array<byte>)
    modifies value
    ensures value[..] == Reversed(old(value[..]))
  {
    SwapEndian(value, value.Length);
    assert value[..] == value[..value.Length];
  }

  // ---------------------------------------------------------------------------
  // Hex strings
  // ---------------------------------------------------------------------------

  /** The two hex digits of one byte, high nibble first. */
  function HexPair(b: byte, upcase: bool): seq<char8> {
    [Digit2Hex(b >> 4, upcase), Digit2Hex(b & 0xF, upcase)]
  }

  /** The byte a pair of characters stands for: `(hex2digit(l) << 4) | hex2digit(r)`,
      truncated to eight bits as the assignment to a `uint8_t` does. */
  function PairByte(l: char8, r: char8): byte {
    (Hex2Digit(l) << 4) | Hex2Digit(r)
  }

  /** Two hex digits per byte, bytes in sequence order, high nibble first. */
  function HexDigits(s: seq<byte>, upcase: bool): (r: seq<char8>)
    ensures |r| == 2 * |s|
  {
    if s == [] then [] else HexPair(s[0], upcase) + HexDigits(s[1..], upcase)
  }

  /** Byte k's two digits sit at 2k (high nibble) and 2k+1 (low nibble). */
  lemma {:induction false} HexDigitsAt(s: seq<byte>, upcase: bool, k: nat)
    requires k < |s|
    ensures HexDigits(s, upcase)[2 * k] == Digit2Hex(s[k] >> 4, upcase)
    ensures HexDigits(s, upcase)[2 * k + 1] == Digit2Hex(s[k] & 0xF, upcase)
  {
    if k > 0 {
      HexDigitsAt(s[1..], upcase, k - 1);
    }
  }

  /** Consecutive character pairs read as bytes, in order. */
  function PairBytes(s: seq<char8>): (r: seq<byte>)
    requires |s| % 2 == 0
  {
    seq(|s| / 2, k requires 0 <= k < |s| / 2 => PairByte(s[2 * k], s[2 * k + 1]))
  }

  /** What `hex_string(data, size, upcase)` returns: the hex digits of the
      buffer with its last byte printed first. */
  function HexText(data: seq<byte>, upcase: bool): (r: seq<char8>)
    ensures |r| == 2 * |data|
  {
    HexDigits(Reversed(data), upcase)
  }

  /** What `from_hex_string(str, little_endian)` returns: pair k becomes byte k,
      or byte n-1-k when `little_endian` is set. */
  function FromHex(s: seq<char8>, littleEndian: bool): (r: seq<byte>)
    requires |s| % 2 == 0
    ensures |r| == |s| / 2
  {
    if littleEndian then Reversed(PairBytes(s)) else PairBytes(s)
  }

  /** Byte j of the buffer is printed at positions 2n-2j-2 and 2n-2j-1. */
  lemma HexTextAt(data: seq<byte>, upcase: bool, j: nat)
    requires j < |data|
    ensures HexText(data, upcase)[2 * |data| - 2 * j - 2] == Digit2Hex(data[j] >> 4, upcase)
    ensures HexText(data, upcase)[2 * |data| - 2 * j - 1] == Digit2Hex(data[j] & 0xF, upcase)
  {
    var k := |data| - 1 - j;
    HexDigitsAt(Reversed(data), upcase, k);
    assert Reversed(data)[k] == data[j];
    assert 2 * |data| - 2 * j - 2 == 2 * k;
  }

  /** `hex_string`: sizes the result to 2*size characters, then writes byte j
      at positions hl-2j-2 (high nibble) and hl-2j-1 (low nibble). */
  method HexString(data: seq<byte>, upcase: bool) returns (res: seq<char8>)
    ensures res == HexText(data, upcase)
  {
    var size := |data|;
    var hl := size * 2;
    res := Nuls(hl);
    var i, j := 0, 0;
    while j < size
      invariant |res| == hl && 0 <= j <= size && i == 2 * j
      invariant forall jj :: 0 <= jj < j ==>
        res[hl - 2 * jj - 2] == Digit2Hex(data[jj] >> 4, upcase) &&
        res[hl - 2 * jj - 1] == Digit2Hex(data[jj] & 0xF, upcase)
    {
      res := res[hl - i - 2 := Digit2Hex(data[j] >> 4, upcase)];
      res := res[hl - i - 1 := Digit2Hex(data[j] & 0xF, upcase)];
      i, j := i + 2, j + 1;
    }
    forall k | 0 <= k < hl
      ensures res[k] == HexText(data, upcase)[k]
    {
      var jj := size - 1 - k / 2;
      HexTextAt(data, upcase, jj);
      if k % 2 == 0 {
        assert k == hl - 2 * jj - 2;
      } else {
        assert k == hl - 2 * jj - 1;
      }
    }
  }

  /** Byte k of `FromHex`: the pair at 2k, or the pair counted from the end. */
  lemma FromHexAt(s: seq<char8>, littleEndian: bool, k: nat)
    requires |s| % 2 == 0 && k < |s| / 2
    ensures FromHex(s, littleEndian)[k] ==
      if littleEndian then PairByte(s[|s| - 2 - 2 * k], s[|s| - 1 - 2 * k])
      else PairByte(s[2 * k], s[2 * k + 1])
  {
    if littleEndian {
      var p := |s| / 2 - 1 - k;
      assert Reversed(PairBytes(s))[k] == PairBytes(s)[p];
      assert 2 * p == |s| - 2 - 2 * k;
    }
  }

  /** `from_hex_string` (vector form): asserts an even length, sizes the result to
      length/2 bytes and fills it pair by pair, walking the string backwards when
      `little_endian` is set. Characters that are not hex digits are not
      rejected: `hex2digit` hands them back unchanged and they are mixed in. */
  method FromHexString(s: seq<char8>, littleEndian: bool) returns (bytes: seq<byte>)
    requires |s| % 2 == 0
    ensures bytes == FromHex(s, littleEndian)
  {
    var n := |s| / 2;
    var buf := Zeros(n);
    ghost var pairs := PairBytes(s);
    assert |s| == 2 * n;
    if littleEndian {
      var i, j := |s| - 2, 0;
      while i >= 0
        invariant |buf| == n && 0 <= j <= n && i == 2 * (n - 1 - j)
        invariant forall k :: 0 <= k < j ==> buf[k] == pairs[n - 1 - k]
      {
        var l := Hex2Digit(s[i]);
        var r := Hex2Digit(s[i + 1]);
        buf := buf[j := (l << 4) | r];
        assert pairs[n - 1 - j] == PairByte(s[i], s[i + 1]);
        i, j := i - 2, j + 1;
      }
      bytes := buf;
      assert bytes == Reversed(pairs);
    } else {
      var i, j := 0, 0;
      while i < |s|
        invariant |buf| == n && 0 <= j <= n && i == 2 * j
        invariant forall k :: 0 <= k < j ==> buf[k] == pairs[k]
      {
        var l := Hex2Digit(s[i]);
        var r := Hex2Digit(s[i + 1]);
        buf := buf[j := (l << 4) | r];
        assert pairs[j] == PairByte(s[i], s[i + 1]);
        i, j := i + 2, j + 1;
      }
      bytes := buf;
    }
  }

  /** `from_hex_string<T>`: the length check (written as a `static_assert` on a
      runtime value, which cannot compile) is taken as its evident intent, a
      precondition that the string holds exactly 2*sizeof(T) characters; the
      decoded bytes are copied into the value. */
  method FromHexStringValue(s: seq<char8>, size: nat, littleEndian: bool) returns (value: seq<byte>)
    requires |s| == 2 * size
    ensures |value| == size
    ensures value == FromHex(s, littleEndian)
  {
    value := FromHexString(s, littleEndian);
  }

  /** One byte's two digits read back as that byte. */
  lemma PairByteOfHexPair(b: byte, upcase: bool)
    ensures PairByte(Digit2Hex(b >> 4, upcase), Digit2Hex(b & 0xF, upcase)) == b
  {
    Hex2DigitOfDigit2Hex(b >> 4, upcase);
    Hex2DigitOfDigit2Hex(b & 0xF, upcase);
  }

  /** Two hex digits of the same case read as a byte and printed again are the
      same two digits. */
  lemma HexPairOfPairByte(l: char8, r: char8, upcase: bool)
    requires IsHexDigitIn(l, upcase) && IsHexDigitIn(r, upcase)
    ensures HexPair(PairByte(l, r), upcase) == [l, r]
  {
    var b := PairByte(l, r);
    var hl, hr := Hex2Digit(l), Hex2Digit(r);
    assert b >> 4 == hl && b & 0xF == hr;
    Digit2HexOfHex2Digit(l, upcase);
    Digit2HexOfHex2Digit(r, upcase);
  }

  /** Reading the digit pairs back gives the bytes they were written from. */
  lemma PairBytesOfHexDigits(s: seq<byte>, upcase: bool)
    ensures PairBytes(HexDigits(s, upcase)) == s
  {
    var d := HexDigits(s, upcase);
    forall k | 0 <= k < |s|
      ensures PairBytes(d)[k] == s[k]
    {
      assert PairBytes(d)[k] == PairByte(d[2 * k], d[2 * k + 1]);
      HexDigitsAt(s, upcase, k);
      PairByteOfHexPair(s[k], upcase);
    }
  }

  /** Round trip: `from_hex_string(hex_string(b, upcase), true) == b` for every
      buffer and either case; `hex_string` prints the last byte first, which the
      little-endian decoding undoes. */
  lemma HexRoundTrip(data: seq<byte>, upcase: bool)
    ensures FromHex(HexText(data, upcase), true) == data
  {
    PairBytesOfHexDigits(Reversed(data), upcase);
    ReversedTwice(data);
  }

  /** The other direction: a string of hex digits all written in case `upcase`
      is reproduced by decoding it and printing the bytes again. */
  lemma HexDigitsOfPairBytes(s: seq<char8>, upcase: bool)
    requires |s| % 2 == 0
    requires forall k :: 0 <= k < |s| ==> IsHexDigitIn(s[k], upcase)
    ensures HexDigits(PairBytes(s), upcase) == s
  {
    var p := PairBytes(s);
    var d := HexDigits(p, upcase);
    forall idx | 0 <= idx < |s|
      ensures d[idx] == s[idx]
    {
      var k := idx / 2;
      assert idx == 2 * k || idx == 2 * k + 1;
      HexDigitsOfPairBytesAt(s, upcase, k);
    }
  }

  /** One pair of `HexDigitsOfPairBytes`: the digits printed for byte k are
      the characters it was read from. */
  lemma HexDigitsOfPairBytesAt(s: seq<char8>, upcase: bool, k: nat)
    requires |s| % 2 == 0 && 2 * k + 1 < |s|
    requires IsHexDigitIn(s[2 * k], upcase) && IsHexDigitIn(s[2 * k + 1], upcase)
    ensures HexDigits(PairBytes(s), upcase)[2 * k] == s[2 * k]
    ensures HexDigits(PairBytes(s), upcase)[2 * k + 1] == s[2 * k + 1]
  {
    HexDigitsAt(PairBytes(s), upcase, k);
    HexPairOfPairByte(s[2 * k], s[2 * k + 1], upcase);
  }

  /** Round trip from text: a well-formed hex string decoded little-endian and
      printed again with `hex_string` is the same string. */
  lemma HexTextRoundTrip(s: seq<char8>, upcase: bool)
    requires |s| % 2 == 0
    requires forall k :: 0 <= k < |s| ==> IsHexDigitIn(s[k], upcase)
    ensures HexText(FromHex(s, true), upcase) == s
  {
    ReversedTwice(PairBytes(s));
    HexDigitsOfPairBytes(s, upcase);
  }

  // ---------------------------------------------------------------------------
  // Bit strings
  // ---------------------------------------------------------------------------

  /** The byte with only bit k (0 = least significant) set. */
  function Mask(k: nat): byte
    requires k < 8
  {
    if k == 0 then 0x01 else if k == 1 then 0x02 else if k == 2 then 0x04
    else if k == 3 then 0x08 else if k == 4 then 0x10 else if k == 5 then 0x20
    else if k == 6 then 0x40 else 0x80
  }

  /** Bit k (0 = least significant) of a byte is set. */
  predicate BitSet(b: byte, k: nat)
    requires k < 8
  {
    b & Mask(k) != 0
  }

  /** The source's shifts: `1 << s` is the mask of bit s, and `(b >> s) & 1`
      tests bit s. */
  lemma ShiftMask(b: byte, s: nat)
    requires s < 8
    ensures (1 as byte) << s == Mask(s)
    ensures ((b >> s) & 1 == 1) <==> BitSet(b, s)
  {
    if s == 0 {
    } else if s == 1 {
    } else if s == 2 {
    } else if s == 3 {
    } else if s == 4 {
    } else if s == 5 {
    } else if s == 6 {
    } else {
    }
  }

  /** Setting bit s with `|` adds exactly that bit. */
  lemma MaskOr(a: byte, s: nat, k: nat)
    requires s < 8 && k < 8
    ensures BitSet(a | Mask(s), k) <==> BitSet(a, k) || k == s
  {
  }

  /** Two bytes with the same eight bits are equal. */
  lemma BitsDetermineByte(a: byte, b: byte)
    requires forall k :: 0 <= k < 8 ==> (BitSet(a, k) <==> BitSet(b, k))
    ensures a == b
  {
    assert BitSet(a, 0) == BitSet(b, 0) && BitSet(a, 1) == BitSet(b, 1);
    assert BitSet(a, 2) == BitSet(b, 2) && BitSet(a, 3) == BitSet(b, 3);
    assert BitSet(a, 4) == BitSet(b, 4) && BitSet(a, 5) == BitSet(b, 5);
    assert BitSet(a, 6) == BitSet(b, 6) && BitSet(a, 7) == BitSet(b, 7);
  }

  /** Character j (0..7) of a byte's bit string: bit 7-j, so the MSB comes first. */
  function BitChar(b: byte, j: nat): char8
    requires j < 8
  {
    if BitSet(b, 7 - j) then Digit1 else Digit0
  }

  /** The eight characters of one byte, most significant bit first. */
  function ByteBits(b: byte): (r: seq<char8>)
    ensures |r| == 8
  {
    seq(8, j requires 0 <= j < 8 => BitChar(b, j))
  }

  /** The bit strings of a byte sequence, bytes in sequence order. */
  function BitsOf(s: seq<byte>): (r: seq<char8>)
    ensures |r| == 8 * |s|
  {
    if s == [] then [] else ByteBits(s[0]) + BitsOf(s[1..])
  }

  /** Byte k's eight characters sit at 8k..8k+8. */
  lemma {:induction false} BitsOfAt(s: seq<byte>, k: nat)
    requires k < |s|
    ensures BitsOf(s)[8 * k .. 8 * k + 8] == ByteBits(s[k])
  {
    if k > 0 {
      BitsOfAt(s[1..], k - 1);
      assert BitsOf(s)[8 * k .. 8 * k + 8] == BitsOf(s[1..])[8 * (k - 1) .. 8 * (k - 1) + 8];
    }
  }

  /** The byte built from the first j characters of an 8-character group, as the
      inner loop of `from_bit_string` builds it: character t sets bit 7-t, and
      only when it is '1'. */
  function GroupPrefix(g: seq<char8>, j: nat): byte
    requires j <= 8 <= |g|
  {
    if j == 0 then 0 else GroupPrefix(g, j - 1) | (if g[j - 1] == Digit1 then Mask(8 - j) else 0)
  }

  /** One step of the inner loop of `from_bit_string`, as that loop writes it. */
  lemma GroupPrefixStep(g: seq<char8>, j: nat)
    requires j < 8 <= |g|
    ensures GroupPrefix(g, j + 1) == GroupPrefix(g, j) | ((if g[j] == Digit1 then 1 else 0) << (7 - j))
  {
    ShiftMask(0, 7 - j);
    assert (0 as byte) << (7 - j) == 0;
  }

  /** After j characters, exactly the bits 7..8-j whose characters are '1' are set. */
  lemma {:induction false} GroupPrefixBits(g: seq<char8>, j: nat)
    requires j <= 8 <= |g|
    ensures forall k :: 0 <= k < 8 ==> (BitSet(GroupPrefix(g, j), k) <==> 8 - j <= k && g[7 - k] == Digit1)
  {
    if j == 0 {
      assert forall k :: 0 <= k < 8 ==> !BitSet(0, k);
    } else {
      GroupPrefixBits(g, j - 1);
      forall k | 0 <= k < 8
        ensures BitSet(GroupPrefix(g, j), k) <==> 8 - j <= k && g[7 - k] == Digit1
      {
        GroupPrefixBit(g, j, k);
      }
    }
  }

  /** The step of `GroupPrefixBits` for one bit k: character j-1 adds only bit 8-j. */
  lemma GroupPrefixBit(g: seq<char8>, j: nat, k: nat)
    requires 0 < j <= 8 <= |g| && k < 8
    requires BitSet(GroupPrefix(g, j - 1), k) <==> 9 - j <= k && g[7 - k] == Digit1
    ensures BitSet(GroupPrefix(g, j), k) <==> 8 - j <= k && g[7 - k] == Digit1
  {
    var prev := GroupPrefix(g, j - 1);
    assert k == 8 - j ==> g[7 - k] == g[j - 1];
    if g[j - 1] == Digit1 {
      MaskOr(prev, 8 - j, k);
    } else {
      assert GroupPrefix(g, j) == prev;
    }
  }

  /** The byte of a whole group has bit 7-t set exactly when character t is '1'. */
  lemma GroupByteBits(g: seq<char8>)
    requires |g| == 8
    ensures forall k :: 0 <= k < 8 ==> (BitSet(GroupByte(g), k) <==> g[7 - k] == Digit1)
  {
    GroupPrefixBits(g, 8);
  }

  /** The byte an 8-character group stands for. */
  function GroupByte(g: seq<char8>): byte
    requires |g| == 8
  {
    GroupPrefix(g, 8)
  }

  /** Consecutive 8-character groups read as bytes, in order. */
  function GroupBytes(s: seq<char8>): (r: seq<byte>)
    requires |s| % 8 == 0
  {
    seq(|s| / 8, k requires 0 <= k < |s| / 8 => GroupByte(s[8 * k .. 8 * k + 8]))
  }

  /** What `from_bit_string(str, little_endian)` returns: group k becomes byte k,
      or byte n-1-k when `little_endian` is set. */
  function FromBits(s: seq<char8>, littleEndian: bool): (r: seq<byte>)
    requires |s| % 8 == 0
    ensures |r| == |s| / 8
  {
    if littleEndian then Reversed(GroupBytes(s)) else GroupBytes(s)
  }

  /** `size` NUL characters: what `std::string::resize` fills a string with. */
  function Nuls(size: nat): (r: seq<char8>)
    ensures |r| == size
  {
    seq(size, _ => Nul)
  }

  /** `size` zero bytes. */
  function Zeros(size: nat): (r: seq<byte>)
    ensures |r| == size
  {
    seq(size, _ => 0)
  }

  /** What `bit_string(data, size, little_endian)` returns as written: the
      `resize(size*8)` leaves size*8 NUL characters in place and the loop then
      appends the bits, starting from the last byte when `little_endian` is set. */
  function BitText(data: seq<byte>, littleEndian: bool): (r: seq<char8>)
    ensures |r| == 16 * |data|
    ensures forall k :: 0 <= k < 8 * |data| ==> r[k] == Nul
  {
    Nuls(8 * |data|) + BitTextIntended(data, littleEndian)
  }

  /** What `bit_string` evidently means to return: only the appended bits,
      8 characters per byte, starting from the last byte when `little_endian`
      is set. */
  function BitTextIntended(data: seq<byte>, littleEndian: bool): (r: seq<char8>)
    ensures |r| == 8 * |data|
  {
    BitsOf(if littleEndian then Reversed(data) else data)
  }

  /** Byte k of `FromBits`: the group at 8k, or the group counted from the end. */
  lemma FromBitsAt(s: seq<char8>, littleEndian: bool, k: nat)
    requires |s| % 8 == 0 && k < |s| / 8
    ensures var p := if littleEndian then |s| / 8 - 1 - k else k;
      FromBits(s, littleEndian)[k] == GroupByte(s[8 * p .. 8 * p + 8])
  {
    if littleEndian {
      var p := |s| / 8 - 1 - k;
      assert Reversed(GroupBytes(s))[k] == GroupBytes(s)[p];
    }
  }

  /** What the decoded bytes mean: bit t of byte k is set exactly when character
      7-t of its group is '1'; every other character, not only '0', clears it. */
  lemma FromBitsMeaning(s: seq<char8>, littleEndian: bool, k: nat, t: nat)
    requires |s| % 8 == 0 && k < |s| / 8 && t < 8
    ensures var p := if littleEndian then |s| / 8 - 1 - k else k;
      BitSet(FromBits(s, littleEndian)[k], t) <==> s[8 * p + 7 - t] == Digit1
  {
    var p := if littleEndian then |s| / 8 - 1 - k else k;
    var g := s[8 * p .. 8 * p + 8];
    FromBitsAt(s, littleEndian, k);
    GroupByteBits(g);
    assert g[7 - t] == s[8 * p + 7 - t];
  }

  /** The inner loop of `from_bit_string`, shared by both byte orders: the
      eight characters from position i are OR-ed into a byte, character j
      setting bit 7-j when it is '1'. */
  method PackGroup(s: seq<char8>, i: nat) returns (byte: byte)
    requires i + 8 <= |s|
    ensures byte == GroupByte(s[i .. i + 8])
  {
    ghost var g := s[i .. i + 8];
    byte := 0;
    for j := 0 to 8
      invariant byte == GroupPrefix(g, j)
    {
      assert g[j] == s[j + i];
      assert byte | ((if s[j + i] == Digit1 then 1 else 0) << (7 - j)) == GroupPrefix(g, j + 1) by {
        GroupPrefixStep(g, j);
      }
      byte := byte | ((if s[j + i] == Digit1 then 1 else 0) << (7 - j));
    }
  }

  /** `from_bit_string` (vector form): asserts a length that is a multiple of 8,
      sizes the result to length/8 bytes and fills it one 8-character group at a
      time, walking the groups backwards when `little_endian` is set. */
  method FromBitString(s: seq<char8>, littleEndian: bool) returns (bytes: seq<byte>)
    requires |s| % 8 == 0
    ensures bytes == FromBits(s, littleEndian)
  {
    var n := |s| / 8;
    var buf := Zeros(n);
    ghost var groups := GroupBytes(s);
    assert |s| == 8 * n;
    if littleEndian {
      var i, k := |s| - 8, 0;
      while i >= 0
        invariant |buf| == n && 0 <= k <= n && i == 8 * (n - 1 - k)
        invariant forall kk :: 0 <= kk < k ==> buf[kk] == groups[n - 1 - kk]
      {
        var byte := PackGroup(s, i);
        buf := buf[k := byte];
        i, k := i - 8, k + 1;
      }
      bytes := buf;
      assert bytes == Reversed(groups);
    } else {
      var i, k := 0, 0;
      while i < |s|
        invariant |buf| == n && 0 <= k <= n && i == 8 * k
        invariant forall kk :: 0 <= kk < k ==> buf[kk] == groups[kk]
      {
        var byte := PackGroup(s, i);
        buf := buf[k := byte];
        i, k := i + 8, k + 1;
      }
      bytes := buf;
    }
  }

  /** `from_bit_string<T>`: the `static_assert` on a runtime length is taken as a
      precondition that the string holds exactly 8*sizeof(T) characters. */
  method FromBitStringValue(s: seq<char8>, size: nat, littleEndian: bool) returns (value: seq<byte>)
    requires |s| == 8 * size
    ensures |value| == size
    ensures value == FromBits(s, littleEndian)
  {
    value := FromBitString(s, littleEndian);
  }

  /** Appending a byte appends its eight characters. */
  lemma {:induction false} BitsOfSnoc(s: seq<byte>, b: byte)
    ensures BitsOf(s + [b]) == BitsOf(s) + ByteBits(b)
  {
    if s != [] {
      assert (s + [b])[1..] == s[1..] + [b];
      BitsOfSnoc(s[1..], b);
    } else {
      assert BitsOf([b]) == ByteBits(b) + BitsOf([]);
    }
  }

  /** One more character of a byte's bit string, as the inner loop of
      `bit_string` appends it. */
  lemma ByteBitsSnoc(b: byte, j: nat)
    requires j < 8
    ensures ByteBits(b)[..j + 1] ==
      ByteBits(b)[..j] + [if (b >> (7 - j)) & 1 == 1 then Digit1 else Digit0]
  {
    var bits := ByteBits(b);
    ShiftMask(b, 7 - j);
    assert bits[j] == BitChar(b, j);
    assert bits[..j + 1] == bits[..j] + [bits[j]];
  }

  /** The bytes of `bit_string`'s output: NULs first, then byte k's bits at
      8*size+8k, byte k counted from the end when `little_endian` is set. */
  lemma BitTextAt(data: seq<byte>, littleEndian: bool, k: nat)
    requires k < |data|
    ensures |BitText(data, littleEndian)| == 16 * |data|
    ensures forall m :: 0 <= m < 8 * |data| ==> BitText(data, littleEndian)[m] == Nul
    ensures var n := |data|;
      BitText(data, littleEndian)[8 * n + 8 * k .. 8 * n + 8 * k + 8] ==
        ByteBits(data[if littleEndian then n - 1 - k else k])
  {
    var n := |data|;
    var order := if littleEndian then Reversed(data) else data;
    var r := BitText(data, littleEndian);
    BitsOfAt(order, k);
    assert r[8 * n ..] == BitsOf(order);
    assert r[8 * n + 8 * k .. 8 * n + 8 * k + 8] == BitsOf(order)[8 * k .. 8 * k + 8];
  }

  /** The inner loop of `bit_string`, shared by both byte orders: eight `+=`
      of '1' or '0', bit 7-j of the byte on step j. */
  method AppendBits(res: seq<char8>, b: byte) returns (out: seq<char8>)
    ensures out == res + ByteBits(b)
  {
    out := res;
    for j := 0 to 8
      invariant out == res + ByteBits(b)[..j]
    {
      ByteBitsSnoc(b, j);
      out := out + [if (b >> (7 - j)) & 1 == 1 then Digit1 else Digit0];
    }
  }

  /** `bit_string`: resizes the result to size*8 characters and then appends
      eight characters per byte with `+=`, so the bits land after size*8 NULs. */
  method BitString(data: seq<byte>, littleEndian: bool) returns (res: seq<char8>)
    ensures res == BitText(data, littleEndian)
  {
    var size := |data|;
    res := Nuls(size * 8);
    if littleEndian {
      res := AppendBitsDescending(res, data);
    } else {
      res := AppendBitsAscending(res, data);
    }
  }

  /** The little-endian loop of `bit_string`: the bytes from the last to the
      first, each appended as eight characters. */
  method AppendBitsDescending(prefix: seq<char8>, data: seq<byte>) returns (res: seq<char8>)
    ensures res == prefix + BitsOf(Reversed(data))
  {
    var size := |data|;
    res := prefix;
    ghost var order := Reversed(data);
    var i := size - 1;
    while i >= 0
      invariant -1 <= i < size
      invariant res == prefix + BitsOf(order[..size - 1 - i])
    {
      ghost var done := size - 1 - i;
      res := AppendBits(res, data[i]);
      BitsOfSnoc(order[..done], data[i]);
      assert order[..done + 1] == order[..done] + [data[i]];
      i := i - 1;
    }
    assert order[..size] == order;
  }

  /** The big-endian loop of `bit_string`: the bytes from the first to the
      last, each appended as eight characters. */
  method AppendBitsAscending(prefix: seq<char8>, data: seq<byte>) returns (res: seq<char8>)
    ensures res == prefix + BitsOf(data)
  {
    var size := |data|;
    res := prefix;
    for i := 0 to size
      invariant res == prefix + BitsOf(data[..i])
    {
      res := AppendBits(res, data[i]);
      BitsOfSnoc(data[..i], data[i]);
      assert data[..i + 1] == data[..i] + [data[i]];
    }
    assert data[..size] == data;
  }

  /** A byte's eight characters read back as that byte. */
  lemma GroupByteOfByteBits(b: byte)
    ensures GroupByte(ByteBits(b)) == b
  {
    var r := GroupByte(ByteBits(b));
    GroupByteBits(ByteBits(b));
    forall k | 0 <= k < 8
      ensures BitSet(r, k) <==> BitSet(b, k)
    {
      assert ByteBits(b)[7 - k] == BitChar(b, 7 - k);
    }
    BitsDetermineByte(r, b);
  }

  /** A group of '0' and '1' characters read as a byte and written again is the
      same group. */
  lemma ByteBitsOfGroupByte(g: seq<char8>)
    requires |g| == 8
    requires forall t :: 0 <= t < 8 ==> g[t] == Digit0 || g[t] == Digit1
    ensures ByteBits(GroupByte(g)) == g
  {
    var b := GroupByte(g);
    GroupByteBits(g);
    forall j | 0 <= j < 8
      ensures ByteBits(b)[j] == g[j]
    {
      assert BitSet(b, 7 - j) <==> g[j] == Digit1;
    }
  }

  /** Reading the groups back gives the bytes they were written from. */
  lemma GroupBytesOfBitsOf(s: seq<byte>)
    ensures GroupBytes(BitsOf(s)) == s
  {
    var bits := BitsOf(s);
    forall k | 0 <= k < |s|
      ensures GroupBytes(bits)[k] == s[k]
    {
      BitsOfAt(s, k);
      GroupByteOfByteBits(s[k]);
    }
  }

  /** Two texts made of 8-character groups are equal when every group is. */
  lemma GroupsDetermineText(a: seq<char8>, b: seq<char8>)
    requires |a| == |b| && |a| % 8 == 0
    requires forall k :: 0 <= k < |a| / 8 ==> a[8 * k .. 8 * k + 8] == b[8 * k .. 8 * k + 8]
    ensures a == b
  {
    forall idx | 0 <= idx < |a|
      ensures a[idx] == b[idx]
    {
      var k := idx / 8;
      assert a[8 * k .. 8 * k + 8][idx - 8 * k] == b[8 * k .. 8 * k + 8][idx - 8 * k];
    }
  }

  /** The other direction: a string made only of '0' and '1' is reproduced by
      decoding it and writing the bits again. */
  lemma BitsOfGroupBytes(s: seq<char8>)
    requires |s| % 8 == 0
    requires forall k :: 0 <= k < |s| ==> s[k] == Digit0 || s[k] == Digit1
    ensures BitsOf(GroupBytes(s)) == s
  {
    var bytes := GroupBytes(s);
    var bits := BitsOf(bytes);
    forall k | 0 <= k < |s| / 8
      ensures bits[8 * k .. 8 * k + 8] == s[8 * k .. 8 * k + 8]
    {
      var g := s[8 * k .. 8 * k + 8];
      assert bytes[k] == GroupByte(g);
      BitsOfAt(bytes, k);
      ByteBitsOfGroupByte(g);
    }
    GroupsDetermineText(bits, s);
  }

  /** Round trip on the appended part: decoding the bits that `bit_string`
      writes after its NUL prefix, in the same byte order, gives the buffer back. */
  lemma BitRoundTrip(data: seq<byte>, littleEndian: bool)
    ensures FromBits(BitText(data, littleEndian)[8 * |data| ..], littleEndian) == data
  {
    assert BitText(data, littleEndian)[8 * |data| ..] == BitTextIntended(data, littleEndian);
    BitTextIntendedRoundTrip(data, littleEndian);
  }

  /** Round trip for the intended `bit_string`: from_bit_string reads the
      bytes back in either byte order. */
  lemma BitTextIntendedRoundTrip(data: seq<byte>, littleEndian: bool)
    ensures FromBits(BitTextIntended(data, littleEndian), littleEndian) == data
  {
    var order := if littleEndian then Reversed(data) else data;
    GroupBytesOfBitsOf(order);
    ReversedTwice(data);
  }

  /** NUL characters count as '0' bits. */
  lemma NulsDecodeToZeros(n: nat)
    ensures GroupBytes(Nuls(8 * n)) == Zeros(n)
  {
    var r := GroupBytes(Nuls(8 * n));
    forall k | 0 <= k < n
      ensures r[k] == 0
    {
      var g := Nuls(8 * n)[8 * k .. 8 * k + 8];
      assert forall t :: 0 <= t < 8 ==> g[t] == Nul;
      GroupByteBits(g);
      assert forall t :: 0 <= t < 8 ==> !BitSet(0, t);
      BitsDetermineByte(GroupByte(g), 0);
    }
  }

  /** Decoding groups distributes over concatenation of whole groups. */
  lemma GroupBytesAppend(s: seq<char8>, t: seq<char8>)
    requires |s| % 8 == 0 && |t| % 8 == 0
    ensures GroupBytes(s + t) == GroupBytes(s) + GroupBytes(t)
  {
    var st := s + t;
    var ns, nt := |s| / 8, |t| / 8;
    assert |s| == 8 * ns && |t| == 8 * nt && |st| == 8 * (ns + nt);
    forall k | 0 <= k < ns + nt
      ensures GroupBytes(st)[k] == (GroupBytes(s) + GroupBytes(t))[k]
    {
      if k < ns {
        assert st[8 * k .. 8 * k + 8] == s[8 * k .. 8 * k + 8];
      } else {
        var k' := k - ns;
        assert st[8 * k .. 8 * k + 8] == t[8 * k' .. 8 * k' + 8];
      }
    }
  }

  /** The consequence of resize-then-append: decoding the whole of `bit_string`'s
      output yields twice as many bytes as were encoded, the NUL prefix reading
      as zero bytes — in front of the data big-endian, behind it little-endian. */
  lemma BitTextDecodesWithZeros(data: seq<byte>)
    ensures |BitText(data, false)| == 16 * |data|
    ensures FromBits(BitText(data, false), false) == Zeros(|data|) + data
    ensures FromBits(BitText(data, true), true) == data + Zeros(|data|)
  {
    var n := |data|;
    NulsDecodeToZeros(n);
    GroupBytesOfBitsOf(data);
    GroupBytesOfBitsOf(Reversed(data));
    GroupBytesAppend(Nuls(8 * n), BitsOf(data));
    GroupBytesAppend(Nuls(8 * n), BitsOf(Reversed(data)));
    ReversedAppend(Zeros(n), Reversed(data));
    ReversedTwice(data);
    assert Reversed(Zeros(n)) == Zeros(n);
  }
}
