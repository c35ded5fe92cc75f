# bin-utils in Dafny

A model of the byte-level core of the `bin-utils` C++ headers, with proofs of
what each operation computes:

- **bin_utils.h** (module `BinUtils`, `bin_utils.dfy`):
  - hex digit conversion (`digit2hex`, `hex2digit`) and `split_byte`;
  - in-place byte-order reversal (`byte_swap`, `swap_endian`) on an `array<byte>`;
  - the conversions between byte buffers and hex or bit strings, with their
    `little_endian` flag (`from_hex_string`, `from_bit_string`, `hex_string`,
    `bit_string`).

  Each loop of the source is a `method` with invariants, proved equal to a
  specification function (`FromHex`, `FromBits`, `HexText`, `BitText`). The
  round trips and the meaning of each byte and bit are lemmas about those
  functions.
- **Binary.h** (module `BinaryDraft`, `binary_draft.dfy`): the older draft of
  the same names. Its reversed `hex2digit` and the `from_hex_string` built on
  it are modelled on their own. The operations whose text matches
  `bin_utils.h` reuse the `BinUtils` code.
- **BinaryInputFile.h** (module `BinaryInput`, `binary_input_file.dfy`): the
  class `BinaryInputFile`, a read cursor over a file.
  - The file is an immutable byte sequence `contents`; `pos` is the get
    position and `size` the length captured by `open`.
  - The configured byte order and the platform's native order are constants
    of the object.
  - A value of type `T` is its `sizeof(T)` bytes (`width`).
  - `read`, `read_dynamic` and `read_static` are proved against
    `ValueAt`/`ValuesAt`; `read_bytes` against the slice of `contents` it
    copies; `read_string` against `ReadStringResult`. `DecodeMeaning` shows
    that a swapped value, read in native order, is the number the file
    encodes in the configured order.
- **Colors.h** (module `Colors`, `colors.dfy`), the integer part:
  - `hex_chr2dec`, `hex_dec2chr`;
  - 24-bit `rgb::pack`/`rgb::unpack`, `rgb::round_digit_17`;
  - `rgb::rgb_to_hex`, and `rgb::hex_to_rgb` for either signedness of `char`
    (the `char` -1 that `hex_chr2dec` returns is below 0 only where `char` is
    signed);
  - the class `color_rgb` (`ColorRgb`, with fields `r`, `g`, `b`).
- **rgb_functions.h** (module `RgbFunctions`, `rgb_functions.dfy`), the
  integer part:
  - `rgb_to_hex` and `hex_to_rgb`, rebuilt on `digit2hex`/`hex2digit`, the
    latter for either signedness of `char`;
  - the `color_rgb(std::string_view)` constructor.

  Its `pack`, `unpack` and `round_digit_17` have the same text as in
  Colors.h, so they are the `Colors` members.

`base.dfy` (module `Base`) holds the shared types:
- `byte` and `char8`, both `bv8`. A C++ `char` is modelled by its 8-bit code;
  `Promoted` and `Negative` give its `int` value and its sign for either
  signedness.
- `IntMin` and `IntMax`, the range of `int`;
- the character constants;
- `Option` and `Result`.

Integers keep the source's widths:
- bytes are `bv8`, so shifts and casts truncate as `uint8_t` does;
- `pack` works on `bv32`;
- `round_digit_17` works on `int`, with C++ truncating division (`TruncDiv`)
  and the cast to `uint8_t` written as `% 256`.

## Model

| member | source | states |
|---|---|---|
| BinUtils.ByteSwap | bin_utils.h:6-11 | the two bytes are exchanged (also when they are the same byte) and every other byte keeps its value |
| BinUtils.Digit2Hex | bin_utils.h:14-20 | 0..9 become '0'..'9'; 10..15 become 'A'..'F' when upcase, 'a'..'f' otherwise; any other value is returned unchanged |
| BinUtils.Hex2Digit | bin_utils.h:23-31 | a hex digit of either case becomes a value 0..15; any other character is returned unchanged |
| BinUtils.Hex2DigitOfDigit2Hex | bin_utils.h:14-31 | hex2digit(digit2hex(d, up)) == d for every d in 0..15 and either case |
| BinUtils.Digit2HexOfHex2Digit | bin_utils.h:14-31 | the other direction: a hex digit written in case `up` is reproduced by decoding it and printing it again |
| BinUtils.SplitByte | bin_utils.h:34-36 | both nibbles are at most 15 and `(hi << 4) \| lo` rebuilds the byte |
| BinUtils.Reversed | bin_utils.h:128-132 | the mirror image: same length, and byte k is the old byte size-1-k |
| BinUtils.ReversedTwice | bin_utils.h:128-132 | mirroring twice restores the original bytes |
| BinUtils.ReversedShort | bin_utils.h:128-132 | a buffer of size 0 or 1 is its own mirror image |
| BinUtils.ReversedAppend | bin_utils.h:128-132 | mirroring a concatenation mirrors both parts and swaps them |
| BinUtils.SwapEndian | bin_utils.h:128-132 | the first `size` bytes of the array are mirrored in place and the bytes after them are untouched |
| BinUtils.MirrorPrefix | bin_utils.h:130-131 | the swap loop leaves byte k equal to the old byte size-1-k, for every k < size |
| BinUtils.SwapEndianValue | bin_utils.h:135-137 | all sizeof(T) bytes of the value are mirrored in place |
| BinUtils.HexDigitsAt | bin_utils.h:181-185 | byte k's high-nibble digit is at 2k and its low-nibble digit at 2k+1 |
| BinUtils.HexTextAt | bin_utils.h:173-187 | byte j's digits sit at hl-2j-2 (high nibble) and hl-2j-1 (low nibble), so the last byte is printed first |
| BinUtils.HexText | bin_utils.h:173-187 | the result has 2*size characters |
| BinUtils.HexString | bin_utils.h:173-187 | the backwards-filling loop produces exactly `HexText(data, upcase)` |
| BinUtils.FromHex | bin_utils.h:43-68 | an even-length string decodes to length/2 bytes |
| BinUtils.FromHexAt | bin_utils.h:43-68 | byte k is the pair at 2k, or the pair counted from the end when `little_endian` is set |
| BinUtils.FromHexString | bin_utils.h:43-68 | both loops produce exactly `FromHex(s, little_endian)`; an odd length is excluded, as the assert at line 45 excludes it |
| BinUtils.FromHexStringValue | bin_utils.h:72-79 | a string of 2*sizeof(T) characters decodes to the sizeof(T) bytes of `FromHex` |
| BinUtils.PairByteOfHexPair | bin_utils.h:23-35 | the two digits printed for a byte read back as that byte |
| BinUtils.HexPairOfPairByte | bin_utils.h:14-31 | two hex digits of case `up`, decoded and printed again, are the same two digits |
| BinUtils.PairBytesOfHexDigits | bin_utils.h:43-68 | decoding the in-order hex digits of a buffer gives the buffer back |
| BinUtils.HexRoundTrip | bin_utils.h:43-68 | from_hex_string(hex_string(b, up), true) == b for every buffer and either case |
| BinUtils.HexDigitsOfPairBytes | bin_utils.h:43-68 | printing the bytes decoded from a well-formed string of case `up` reproduces the string |
| BinUtils.HexDigitsOfPairBytesAt | bin_utils.h:52-65 | the same fact for one pair |
| BinUtils.HexTextRoundTrip | bin_utils.h:43-68 | hex_string(from_hex_string(s, true), up) == s for every even-length string of hex digits of case `up` |
| BinUtils.ShiftMask | bin_utils.h:99 | `1 << s` is the mask of bit s, and `(b >> s) & 1` tests bit s |
| BinUtils.MaskOr | bin_utils.h:99 | OR-ing in the mask of bit s sets bit s and leaves every other bit as it was |
| BinUtils.BitsDetermineByte | bin_utils.h:85-164 | two bytes with the same eight bits are equal |
| BinUtils.BitsOf | bin_utils.h:156-160 | 8 characters per byte |
| BinUtils.BitsOfAt | bin_utils.h:156-160 | byte k's eight characters sit at 8k..8k+8 |
| BinUtils.GroupPrefixStep | bin_utils.h:98-100 | one step of the inner loop adds the bit of character j at position 7-j |
| BinUtils.GroupPrefixBits | bin_utils.h:97-100 | after j characters, bit k is set exactly when 8-j <= k and character 7-k is '1' |
| BinUtils.GroupPrefixBit | bin_utils.h:97-100 | the inductive step of that fact for one bit |
| BinUtils.GroupByteBits | bin_utils.h:97-101 | bit k of a group's byte is set exactly when character 7-k is '1'; any other character, not only '0', clears it |
| BinUtils.FromBits | bin_utils.h:85-114 | a string whose length is a multiple of 8 decodes to length/8 bytes |
| BinUtils.FromBitsAt | bin_utils.h:85-114 | byte k comes from the group at 8k, or from the group counted from the end when `little_endian` is set |
| BinUtils.FromBitsMeaning | bin_utils.h:85-114 | bit t of byte k is set exactly when character 7-t of its group is '1' |
| BinUtils.PackGroup | bin_utils.h:97-101 | the inner loop builds exactly the group's byte |
| BinUtils.FromBitString | bin_utils.h:85-114 | both loops produce exactly `FromBits(s, little_endian)`; a length that is not a multiple of 8 is excluded, as the assert at line 87 excludes it |
| BinUtils.FromBitStringValue | bin_utils.h:118-125 | a string of 8*sizeof(T) characters decodes to the sizeof(T) bytes of `FromBits` |
| BinUtils.Nuls | bin_utils.h:145 | `resize` fills `size` characters with NUL |
| BinUtils.BitsOfSnoc | bin_utils.h:150-160 | appending a byte to the buffer appends its eight characters |
| BinUtils.ByteBitsSnoc | bin_utils.h:151-153 | each step of the inner loop appends the character of bit 7-j |
| BinUtils.BitTextAt | bin_utils.h:142-164 | the result has 16*size characters: the first 8*size are NUL (resize), then byte k's bits, counted from the end when `little_endian` is set |
| BinUtils.BitText | bin_utils.h:142-164 | what bit_string returns as written: 16*size characters, the first 8*size of them NUL |
| BinUtils.BitTextIntended | bin_utils.h:142-164 | what bit_string evidently means to return: 8 characters per byte (its round trip is `BitTextIntendedRoundTrip`) |
| BinUtils.AppendBits | bin_utils.h:151-153 | the inner loop appends the byte's eight characters, most significant bit first |
| BinUtils.AppendBitsDescending | bin_utils.h:150-154 | the little-endian loop appends the bits of the bytes from last to first |
| BinUtils.AppendBitsAscending | bin_utils.h:156-160 | the big-endian loop appends the bits of the bytes in order |
| BinUtils.BitString | bin_utils.h:142-164 | the resize-then-append code produces exactly `BitText`: 8*size NULs followed by the bits |
| BinUtils.GroupByteOfByteBits | bin_utils.h:97-153 | a byte's eight characters decode back to the byte |
| BinUtils.ByteBitsOfGroupByte | bin_utils.h:97-153 | a group of '0'/'1' characters is reproduced by decoding it and printing it again |
| BinUtils.GroupBytesOfBitsOf | bin_utils.h:104-160 | decoding the bits of a buffer gives the buffer back |
| BinUtils.GroupsDetermineText | bin_utils.h:85-114 | two '0'/'1' strings that decode to the same bytes are equal |
| BinUtils.BitsOfGroupBytes | bin_utils.h:104-160 | a '0'/'1' string is reproduced by decoding it and printing it again |
| BinUtils.BitRoundTrip | bin_utils.h:85-164 | dropping the NUL prefix, from_bit_string of bit_string gives the buffer back, in both byte orders |
| BinUtils.BitTextIntendedRoundTrip | bin_utils.h:85-160 | the bits `bit_string` appends, without the NUL prefix, decode back to the buffer in either byte order |
| BinUtils.NulsDecodeToZeros | bin_utils.h:85-114 | NUL characters count as '0' bits, so the NUL prefix decodes to zero bytes |
| BinUtils.GroupBytesAppend | bin_utils.h:104-111 | decoding a concatenation of whole groups decodes the parts in turn |
| BinUtils.BitTextDecodesWithZeros | bin_utils.h:85-164 | the output of bit_string is 16*size long and decodes to size zero bytes followed by the data, or the data followed by the zero bytes when little-endian |
| BinaryDraft.Hex2Digit | Binary.h:23-31 | '0'..'9' map to 9..0 and 'A'..'F' and 'a'..'f' map to 5..0; any other character is returned unchanged |
| BinaryDraft.Hex2DigitReversed | Binary.h:23-31 | on a hex digit with intended value v the draft gives 9-v (decimal) or 15-v (letter), never v |
| BinaryDraft.Hex2DigitExamples | Binary.h:23-31 | '0'→9, '9'→0, 'A'→5, 'F'→0, 'a'→5, 'f'→0 |
| BinaryDraft.Hex2DigitNotInverse | Binary.h:14-31 | the draft does not undo digit2hex: 0 prints as '0', which reads back as 9 |
| BinaryDraft.FromHex | Binary.h:36-50 | an even-length string decodes to length/2 bytes, in order |
| BinaryDraft.FromHexString | Binary.h:36-50 | the loop produces exactly `FromHex(s)`: pair k becomes byte k through the draft digits |
| BinaryDraft.FromHexOfDecimalDigits | Binary.h:36-50 | a pair of decimal digits decodes to 0x99 minus the intended byte |
| BinaryDraft.HexRoundTripFails | Binary.h:23-50 | the zero byte prints as "00" and reads back as 0x99 |
| BinaryDraft.FromBitString | Binary.h:53-81 | length/8 bytes, equal to the `bin_utils.h` decoding |
| BinaryDraft.FromBitStringValue | Binary.h:84-91 | bit t of byte k is set exactly when character 7-t of group k is '1' (group counted from the end when little-endian) |
| BinaryDraft.SwapEndian | Binary.h:94-101 | the bytes of the value are mirrored in place, and mirroring again would restore them |
| BinaryDraft.BitString | Binary.h:104-130 | exactly `BitText`: 16*size characters, 8*size NULs, then the bits, which decode back to the data |
| BinaryDraft.HexString | Binary.h:133-149 | 2*size characters, byte j's digits at hl-2j-2 and hl-2j-1 |
| BinaryInput.Decode | BinaryInputFile.h:48-54 | the value's bytes are the file's bytes, mirrored exactly when the reader swaps |
| BinaryInput.LeValueOfReversed | BinaryInputFile.h:51-52 | reversing the bytes turns a big-endian encoding into the same number little-endian |
| BinaryInput.BeValueOfReversed | BinaryInputFile.h:51-52 | and a little-endian encoding into the same number big-endian |
| BinaryInput.DecodeMeaning | BinaryInputFile.h:48-54 | the value read, taken in native order, is the number the file's bytes encode in the configured order |
| BinaryInput.EffectiveLimit | BinaryInputFile.h:134-135 | a negative limit means INT_MAX; any other limit is kept |
| BinaryInput.CStringLength | BinaryInputFile.h:141 | the kept length holds no NUL, stays within the data and the limit, and ends at a NUL, the limit or the end |
| BinaryInput.CStringLengthUnique | BinaryInputFile.h:141 | those three properties determine the length |
| BinaryInput.ReadStringStops | BinaryInputFile.h:132-146 | the string holds no NUL and at most `limit` bytes; it stopped on a NUL or the limit with the position one past that byte, or it reached the end of the file |
| BinaryInput.ReadStringResult | BinaryInputFile.h:132-146 | outside the file nothing is read and the position stays; inside, the position advances, stays within the file, and is at least the string's length past the start |
| BinaryInput.ReadStringExit | BinaryInputFile.h:139-145 | the state in which the loop exits is the result `ReadStringResult` describes |
| BinaryInput.ReadStringStopsAtNul | BinaryInputFile.h:132-146 | "abc\0def" gives "abc" and leaves the position at 4 |
| BinaryInput.ReadStringStopsAtLimit | BinaryInputFile.h:139-144 | limit 2 on "abcdef" gives "ab" and leaves the position at 3 (one byte read ahead) |
| BinaryInput.BinaryInputFile.ValueAt | BinaryInputFile.h:48-54 | a value read at p has `width` bytes and stands, in native order, for the number the file encodes in the configured order |
| BinaryInput.BinaryInputFile.ValuesAtStep | BinaryInputFile.h:71-76 | a run of reads is one read followed by the rest of the run |
| BinaryInput.BinaryInputFile.ValuesAtIndex | BinaryInputFile.h:71-76 | element i of a run is the value decoded at start + i*sizeof(T) |
| BinaryInput.BinaryInputFile.Empty | BinaryInputFile.h:21 | no file: empty contents, position 0, size 0 |
| BinaryInput.BinaryInputFile.constructor | BinaryInputFile.h:18-20 | the path constructor opens the file: contents are the data, position 0, size the length |
| BinaryInput.BinaryInputFile.Open | BinaryInputFile.h:172-178 | after `open`, `size` is the file's length (tellg at the end) and the position is 0 |
| BinaryInput.BinaryInputFile.Tell | BinaryInputFile.h:162-164 | returns the get position |
| BinaryInput.BinaryInputFile.Size | BinaryInputFile.h:151-153 | returns the length captured by `open` |
| BinaryInput.BinaryInputFile.Seek | BinaryInputFile.h:165-167 | the position becomes `fpos` |
| BinaryInput.BinaryInputFile.SeekFrom | BinaryInputFile.h:168-170 | the position becomes the offset from the start, the current position or the end |
| BinaryInput.BinaryInputFile.DummyValue | BinaryInputFile.h:27-30 | the position advances by sizeof(T) and nothing is read |
| BinaryInput.BinaryInputFile.DummyValues | BinaryInputFile.h:33-36 | the position advances by sizeof(T)*count |
| BinaryInput.BinaryInputFile.Dummy | BinaryInputFile.h:39-41 | the position advances by count |
| BinaryInput.BinaryInputFile.ReadValue | BinaryInputFile.h:48-54 | sizeof(T) bytes are consumed and returned, swapped iff the configured order is not native |
| BinaryInput.BinaryInputFile.Read | BinaryInputFile.h:48-54 | the read succeeds iff sizeof(T) bytes remain; it then returns `ValueAt` and advances by sizeof(T), and otherwise moves nothing |
| BinaryInput.BinaryInputFile.ReadAt | BinaryInputFile.h:57-60 | exactly a seek to `fpos` followed by `read<T>()` |
| BinaryInput.BinaryInputFile.ReadFrom | BinaryInputFile.h:63-66 | exactly a relative seek followed by `read<T>()` |
| BinaryInput.BinaryInputFile.ReadOfRun | BinaryInputFile.h:74 | one read of a run returns the run's head and leaves the rest of the run at the new position |
| BinaryInput.BinaryInputFile.ReadRun | BinaryInputFile.h:72-75 | `count` reads return element i = the value at start + i*sizeof(T) and advance by count*sizeof(T) |
| BinaryInput.BinaryInputFile.ReadDynamic | BinaryInputFile.h:71-76 | succeeds iff count*sizeof(T) bytes remain, returning `ValuesAt` and advancing by count*sizeof(T) |
| BinaryInput.BinaryInputFile.ReadDynamicAt | BinaryInputFile.h:79-82 | exactly a seek followed by `read_dynamic` |
| BinaryInput.BinaryInputFile.ReadDynamicFrom | BinaryInputFile.h:85-88 | exactly a relative seek followed by `read_dynamic` |
| BinaryInput.BinaryInputFile.ReadStatic | BinaryInputFile.h:93-98 | N values, as `read_dynamic` reads them |
| BinaryInput.BinaryInputFile.ReadStaticAt | BinaryInputFile.h:101-104 | exactly a seek followed by `read_static` |
| BinaryInput.BinaryInputFile.ReadStaticFrom | BinaryInputFile.h:107-110 | exactly a relative seek followed by `read_static` |
| BinaryInput.BinaryInputFile.ReadBytes | BinaryInputFile.h:114-119 | `count` raw bytes in file order, never swapped; the position advances by count |
| BinaryInput.BinaryInputFile.ReadBytesAt | BinaryInputFile.h:120-123 | exactly a seek followed by `read_bytes` |
| BinaryInput.BinaryInputFile.ReadBytesFrom | BinaryInputFile.h:124-127 | exactly a relative seek followed by `read_bytes` |
| BinaryInput.BinaryInputFile.ReadChar | BinaryInputFile.h:139 | one byte read: the byte at the position and one step forward, or end of file and no move |
| BinaryInput.BinaryInputFile.ReadString | BinaryInputFile.h:132-146 | the string and the final position are `ReadStringResult`: bytes up to the first NUL, the end of file or the limit, with one byte read ahead |
| Colors.HexChr2Dec | Colors.h:14-23 | a hex digit of either case becomes its value 0..15, and anything else becomes the `char` -1 (the code 0xFF) |
| Colors.HexDec2Chr | Colors.h:27-35 | 0..15 become the same character as digit2hex writes in the requested case; a negative `char` gives -1 |
| Colors.HexChr2DecOfHexDec2Chr | Colors.h:14-35 | hex_chr2dec(hex_dec2chr(d, up)) == d for d in 0..15 |
| Colors.Pack | Colors.h:45-47 | r in bits 16-23, g in bits 8-15, b in bits 0-7; the result is < 2^24 |
| Colors.PackArray | Colors.h:49-51 | the array overload packs the three components |
| Colors.UnpackDropsGreenBlue | Colors.h:54-60 | `unpack` returns bits 16-23 and then 0, 0 for every packed value |
| Colors.Unpack | Colors.h:54-60 | the as-written unpack returns three components (what they are is `UnpackDropsGreenBlue`) |
| Colors.UnpackIntended | Colors.h:54-60 | the intended unpack: three components that pack back to the low 24 bits of the value |
| Colors.UnpackOfPack | Colors.h:45-60 | unpack(pack(r,g,b)) == [r,0,0], which is not [r,g,b] unless g and b are 0 |
| Colors.UnpackIntendedRoundTrip | Colors.h:45-60 | the intended unpack inverts pack, and pack inverts it on 24-bit values |
| Colors.RoundDigit17 | Colors.h:63-70 | the result is a byte (the cast truncates to 0..255) |
| Colors.RoundDigit17AlwaysUp | Colors.h:63-70 | the comparison always picks p2: the result is (17*(n/17)+17) mod 256 with C++ division |
| Colors.RoundDigit17NeverDown | Colors.h:63-70 | for 0 <= v < 255 the result is the next multiple of 17 above v, never v rounded down; 255 gives 16 |
| Colors.RoundDigit17Examples | Colors.h:63-70 | 18→34, 17→34, 0→17 |
| Colors.RoundNearest17Nearest | Colors.h:62-70 | the intended rounding gives a multiple of 17 in 0..255 within 8 of the component, whose digit is at most 15, and keeps multiples of 17 |
| Colors.RoundNearest17 | Colors.h:62-70 | the intended rounding: a multiple of 17 in 0..255 |
| Colors.ThreeDigitOfRound | Colors.h:80-82 | round_digit_17(v)/17 of a byte v is at most 15, so the assert in hex_dec2chr holds |
| Colors.NibbleChar | Colors.h:27-35 | hex_dec2chr of a nibble prints the same character as digit2hex, a hex digit in the requested case |
| Colors.HexColor | Colors.h:75-99 | 6 characters, or 3 in the three-digit form |
| Colors.HexColorDigits | Colors.h:75-99 | every character of a colour code is a hex digit in the requested case |
| Colors.LongCodeDigits | Colors.h:84-96 | the six-digit case of that fact |
| Colors.PairDigits | Colors.h:85-87 | both characters printed for a component are hex digits |
| Colors.RgbToHex | Colors.h:75-99 | the `push_back` sequence builds exactly `HexColor` |
| Colors.PushThreeDigit | Colors.h:80 | one three-digit component appends the character of its rounded digit |
| Colors.PushHexByte | Colors.h:85-87 | one six-digit component appends its two nibbles, high first |
| Colors.ParseHexColor | Colors.h:106-144 | the parse that rejects non-hex characters (`hex_to_rgb` with signed `char`): a parsed colour has three components and comes from a non-empty code whose body, after an optional '#', is 3 or 6 hex digits |
| Colors.ShortColorRaw | Colors.h:121-127 | the three components the loop stores, 17*digit truncated to eight bits; `ShortColor` when all are hex digits |
| Colors.PairRaw | Colors.h:134-138 | the byte stored for a pair; `PairByte` when both are hex digits |
| Colors.LongColorRaw | Colors.h:132-139 | the three components the six-digit loop stores; `LongColor` when all are hex digits |
| Colors.PassesExactly | Colors.h:119-139 | with signed `char` the test `digit < 0` passes exactly the hex digits; with unsigned `char` it passes every character |
| Colors.ParseHexColorAs | Colors.h:106-144 | what hex_to_rgb returns for either signedness of `char`; a parsed colour has three components |
| Colors.SignedIsParseHexColor | Colors.h:106-144 | with signed `char`, hex_to_rgb is `ParseHexColor` |
| Colors.UnsignedAcceptsEveryBody | Colors.h:106-144 | with unsigned `char`, hex_to_rgb gives a colour exactly for the non-empty codes with a body of 3 or 6 characters, and `ParseHexColor`'s colour when they are hex digits |
| Colors.UnsignedCharAcceptsNonHex | Colors.h:119-139 | with unsigned `char`, "GGG" reads as (239,239,239) and "GGGGGG" as (255,255,255); with signed `char` both give none |
| Colors.ParseHexColorRejects | Colors.h:106-144 | empty input, a bare '#', a body length other than 3 or 6 and any non-hex character all give none |
| Colors.HexToRgb | Colors.h:106-144 | for either signedness of `char`, the checks and loops with their early returns compute exactly `ParseHexColorAs`; with signed `char` that is `ParseHexColor` |
| Colors.DecodeShort | Colors.h:119-129 | three characters none of whose digits is below 0 give 17*digit per component, truncated to eight bits; otherwise none |
| Colors.DecodeLong | Colors.h:130-141 | six characters none of whose digits is below 0 give `PairRaw` per pair; otherwise none |
| Colors.HexColorRoundTrip | Colors.h:75-144 | hex_to_rgb(rgb_to_hex(r,g,b,false,up)) == [r,g,b], with or without a leading '#' |
| Colors.ThreeDigitRoundTrip | Colors.h:63-144 | a three-digit code reads back as ThreeDigit*17 per component; white prints as "000" and reads back as black |
| Colors.ShortCodeRoundTrip | Colors.h:75-144 | the three-digit read-back for one colour |
| Colors.ColorRgb.Default | Colors.h:151 | all components 0 |
| Colors.ColorRgb.Components | Colors.h:152 | the given components |
| Colors.ValueOr | Colors.h:156 | `value_or`: the value held, or the default when there is none |
| Colors.ColorRgb.FromArray | Colors.h:153 | the array's components |
| Colors.ColorRgb.FromHex | Colors.h:155-158 | the colour parsed for the given signedness of `char`, or {0,0,0} when parsing fails |
| Colors.ColorRgb.AssignArray | Colors.h:160-163 | assignment from an array sets the three fields |
| Colors.ColorRgb.AssignHex | Colors.h:164-167 | assignment from a code sets the colour parsed for the given signedness, or {0,0,0} |
| Colors.ColorRgb.Array | Colors.h:170-172 | returns {r, g, b} |
| Colors.ColorRgb.Packed | Colors.h:173-175 | returns pack(r, g, b), from which the intended unpack recovers the components |
| Colors.ColorRgb.Hex | Colors.h:176-178 | returns rgb_to_hex of the fields; a six-digit code parses back to them |
| RgbFunctions.RgbToHex | rgb_functions.h:74-98 | the same code as Colors.h's rgb_to_hex, and a six-digit code parses back to the components through Colors.h's parser and through this header's with either signedness of `char` |
| RgbFunctions.RgbRoundTrip | rgb_functions.h:74-141 | hex_to_rgb(rgb_to_hex(r,g,b,false,up)) == {r,g,b} with this header's parser, for signed and for unsigned `char` |
| RgbFunctions.PushThreeDigit | rgb_functions.h:79-81 | one component: digit2hex of round_digit_17(v)/17 |
| RgbFunctions.PushHexByte | rgb_functions.h:84-86 | one component: digit2hex of both nibbles of split_byte |
| Base.Promoted | rgb_functions.h:121 | the value a `char` promotes to: its code when unsigned, or negative from 0x80 when signed |
| Base.NegativeIsBelowZero | Colors.h:124 | `digit < 0` on a `char` holds exactly when it is signed and its code is 0x80 or more |
| RgbFunctions.RejectsIsPromotedEquality | rgb_functions.h:120-121 | the test `hex2digit(c) == c`, on the promoted values, holds when hex2digit returns the code unchanged and the `char` is not negative |
| RgbFunctions.SelfDigit | rgb_functions.h:120-121 | hex2digit returns a character unchanged exactly when it is not a hex digit |
| RgbFunctions.RejectsExactly | rgb_functions.h:120-122 | with unsigned `char` the test `hex2digit(c) == c` rejects exactly the non-hex characters |
| RgbFunctions.SignedRejects | rgb_functions.h:120-122 | with signed `char` the test is exact below 0x80 and lets every code from 0x80 through |
| RgbFunctions.ParseHexColorAs | rgb_functions.h:104-141 | a parsed colour has three components |
| RgbFunctions.UnsignedAgreesWithColors | rgb_functions.h:104-141 | this hex_to_rgb with unsigned `char` equals Colors.h's hex_to_rgb with signed `char` (`ParseHexColor`) on every input |
| RgbFunctions.ParsersDifferOnEachPlatform | rgb_functions.h:116-126 | on one platform the two hex_to_rgb differ: with unsigned `char` "GGG" is rejected here and read as (239,239,239) by Colors.h; with signed `char` three 0xC0 are accepted here and rejected by Colors.h |
| RgbFunctions.SignednessIrrelevantForAscii | rgb_functions.h:120-134 | on 7-bit input both signednesses give the same result |
| RgbFunctions.SignedCharAcceptsNonHex | rgb_functions.h:116-126 | with signed `char`, "\xC0\xC0\xC0" is accepted as (0xC0,0xC0,0xC0), although Colors.h with signed `char` rejects it |
| RgbFunctions.HexToRgb | rgb_functions.h:104-141 | for either signedness of `char` it computes `ParseHexColorAs`: empty input gives none, '#' is optional, and the body must be 3 or 6 characters none of which the test rejects; with unsigned `char` that is Colors.h's parser under signed `char` |
| RgbFunctions.DecodeShort | rgb_functions.h:116-126 | three characters none of which the test rejects give digit*17 per component; otherwise none |
| RgbFunctions.DecodeLong | rgb_functions.h:127-138 | six characters none of which the test rejects give one byte per pair; otherwise none |
| RgbFunctions.DecodePair | rgb_functions.h:131-135 | one pair: rejected exactly when the test rejects either character, and the byte `left << 4` ORed with `right` |
| RgbFunctions.ColorFromHex | rgb_functions.h:154-157 | a fresh colour holding the components parsed for the given signedness, or {0,0,0} when parsing fails; with unsigned `char` Colors.h's signed-`char` parse |

## Left out

- File I/O: `std::ifstream`, `std::filesystem` (`path`, `name`, `handle`) and `close`.
  - The file is an in-memory byte sequence.
  - A failed open (tellg's -1 stored into `m_size`) is not modelled.
  - Stream fail and eof flags are not modelled beyond "fewer bytes than requested".
- BinaryInput.BinaryInputFile.Read: a read that would run past the end fails and consumes nothing. The stream's partial read and its sticky fail state are not modelled.
- BinaryInput.BinaryInputFile.ReadDynamic: the whole run is checked for availability before the first read, so a run that ends past the file fails as a whole. The same holds for `ReadStatic` and `ReadBytes`.
- BinaryInput.BinaryInputFile.ReadString: when the string ends at the end of the file, the position is modelled as the file's length. The real stream has then failed: the look-ahead read sets both eofbit and failbit, so `tell()` returns -1 and later seeks and reads fail until the flags are cleared.
- BinaryInput.BinaryInputFile.ReadBytes: models the evident intent of `read_bytes`, a copy of each byte into the buffer. The source passes the byte's value, reinterpreted as an address, as the destination.
- `static_assert` on a runtime length (bin_utils.h:74, 120): modelled as a length precondition of `FromHexStringValue` and `FromBitStringValue`.
- Binary.h:88-90 calls an undefined `from_bit_string_2` and returns an undeclared `res`. `BinaryDraft.FromBitStringValue` models the intent.
- BinaryInputFile.h:108 is missing a `;`. `ReadStaticFrom` models the intent.
- Type punning (`memcpy`, `reinterpret_cast` into `T`): a `T` is its sizeof(T) bytes and a template is a `width` or `size` parameter.
- The platform's native byte order is a constant of the reader, not a property of the machine.
- `rgb_to_hsl` (rgb_functions.h:14-37) and all of others.h: floating-point colour maths.
- `std::vector`, `std::string`, `std::array` and `std::unique_ptr` results are returned as sequences. Buffers are arrays where the source fills or changes them in place (`swap_endian`, the value in `read<T>`, the buffer `read_bytes` fills); the results are handed back as their contents.
- The loops that fill a vector by index are modelled by updating a sequence (`buf[j := …]`) rather than a heap buffer.
- The rgb_functions.h `color_rgb` class has the same constructors, `array()`, `packed()` and `hex()` as Colors.h's, with public fields and without the two `operator=` overloads of Colors.h:160-167 (`AssignArray`, `AssignHex`). It is `Colors.ColorRgb`, and only its string constructor is modelled separately (`RgbFunctions.ColorFromHex`).
- Colors.RoundDigit17: requires `n` to lie in the range of `int` and below INT_MAX-8, so that `17*(q+1)` does not overflow. Every caller in the source passes a byte.
- Colors.HexDec2Chr: the `char` argument and result are 8-bit codes, read as signed (codes from 0x80 are negative, so -1 is 0xFF). The precondition is the source's assert `digit <= 15` under that reading; with unsigned `char` the assert also excludes codes from 0x80. Every caller passes 0..15.

## Findings

| source | as written | input that shows it | evidently intended | confidence | as-written member | corrected member |
|---|---|---|---|---|---|---|
| Binary.h:23-31 | `hex2digit` returns '9'-c, 'F'-c and 'f'-c, so digits decode reversed | "00" decodes to 0x99, not 0x00 | c-'0', c-'A'+10 and c-'a'+10, as in bin_utils.h:23-31 | high, not executed | BinaryDraft.HexRoundTripFails | BinUtils.HexRoundTrip |
| rgb_functions.h:120-134 | `hex2digit(c) == c` (lines 121 and 133) compares a `uint8_t` with a `char`; with signed `char`, codes from 0x80 never compare equal | "\xC0\xC0\xC0" is accepted as (0xC0, 0xC0, 0xC0) | reject every character that is not a hex digit | medium (signed `char` platforms only), not executed | RgbFunctions.SignedCharAcceptsNonHex | Colors.ParseHexColorRejects |
| Colors.h:119-139 | `char digit = hex_chr2dec(c)` then `digit < 0` (lines 124 and 136); with unsigned `char` the -1 is 255 and never below 0 | "GGG" is accepted as (239, 239, 239) and "GGGGGG" as (255, 255, 255) | reject every character that is not a hex digit | medium (unsigned `char` platforms only), not executed | Colors.UnsignedCharAcceptsNonHex | Colors.ParseHexColorRejects |
| Colors.h:54-60 | (and rgb_functions.h:51-57) green and blue are masked with 0xFF0000 and 0xFFFF00 before the `uint8_t` cast | unpack(pack(1, 2, 3)) == {1, 0, 0} | `(p >> 8) & 0xFF` and `p & 0xFF` | high, not executed | Colors.UnpackOfPack | Colors.UnpackIntendedRoundTrip |
| Colors.h:63-70 | (and rgb_functions.h:61-68) `abs(n - p1) > (n - p2)` compares against a negative number, so p2 is always chosen | round_digit_17(18) == 34, and round_digit_17(255) == 16 | the nearest multiple of 17 (18 → 17, 255 → 255) | high, not executed | Colors.RoundDigit17NeverDown | Colors.RoundNearest17Nearest |
| bin_utils.h:142-164 | (and Binary.h:104-130) `res.resize(size * 8)` then `res +=` | bit_string of one byte has 16 characters, the first 8 NUL | `reserve`, or assignment by index | high, not executed | BinUtils.BitTextDecodesWithZeros | BinUtils.BitTextIntendedRoundTrip |
