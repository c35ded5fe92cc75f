/** The typed binary reader of BinaryInputFile.h: a read cursor over a file,
    with reads of fixed-size values that are byte-swapped when the reader's
    configured byte order differs from the platform's.

    The file is its contents as an immutable byte sequence; the stream's get
    position is `pos`. A value of type `T` is its `sizeof(T)` bytes (`width`),
    and the platform's native byte order is a constant of the object rather
    than a property of the machine. */
module BinaryInput {
  import opened Base
  import BinUtils

  /** `std::endian::little` and `std::endian::big`. */
  datatype Endian = Little | Big

  /** `std::ios::beg`, `std::ios::cur` and `std::ios::end`. */
  datatype SeekDir = Beg | Cur | End

  /** A read that would run past the end of the file, or starts before it. */
  datatype ReadError = Truncated

  /** The bytes of one value as it lands in memory: the file's bytes, reversed
      when the reader swaps byte order. */
  function Decode(raw: seq<byte>, swap: bool): (r: seq<byte>)
    ensures |r| == |raw|
    ensures forall i :: 0 <= i < |raw| ==> r[i] == if swap then raw[|raw| - 1 - i] else raw[i]
  {
    if swap then BinUtils.Reversed(raw) else raw
  }

  /** The number a byte sequence encodes with its least significant byte first. */
  function LeValue(s: seq<byte>): nat {
    if s == [] then 0 else s[0] as nat + 256 * LeValue(s[1..])
  }

  /** The number a byte sequence encodes with its most significant byte first. */
  function BeValue(s: seq<byte>): nat {
    if s == [] then 0 else 256 * BeValue(s[..|s| - 1]) + s[|s| - 1] as nat
  }

  /** The number a byte sequence encodes in the given byte order. */
  function ValueIn(s: seq<byte>, order: Endian): nat {
    match order
    case Little => LeValue(s)
    case Big => BeValue(s)
  }

  /** Reversing the bytes turns a big-endian encoding into a little-endian one. */
  lemma {:induction false} LeValueOfReversed(s: seq<byte>)
    ensures LeValue(BinUtils.Reversed(s)) == BeValue(s)
  {
    if s != [] {
      var r := BinUtils.Reversed(s);
      var init := s[..|s| - 1];
      assert r[0] == s[|s| - 1];
      assert r[1..] == BinUtils.Reversed(init);
      LeValueOfReversed(init);
    }
  }

  /** And the other way round. */
  lemma BeValueOfReversed(s: seq<byte>)
    ensures BeValue(BinUtils.Reversed(s)) == LeValue(s)
  {
    LeValueOfReversed(BinUtils.Reversed(s));
    BinUtils.ReversedTwice(s);
  }

  /** What `read<T>` achieves: the bytes it leaves in memory, read as a number
      in the platform's native order, are the number the file's bytes encode in
      the reader's configured order — whatever the two orders are. */
  lemma DecodeMeaning(raw: seq<byte>, order: Endian, native: Endian)
    ensures ValueIn(Decode(raw, order != native), native) == ValueIn(raw, order)
  {
    if order != native {
      if native == Little {
        LeValueOfReversed(raw);
      } else {
        BeValueOfReversed(raw);
      }
    }
  }

  /** The limit `read_string` actually uses: a negative one means
      `std::numeric_limits<int>::max()`. */
  function EffectiveLimit(limit: int): (n: nat)
    ensures limit >= 0 ==> n == limit
    ensures limit < 0 ==> n == IntMax
  {
    if limit < 0 then IntMax else limit
  }

  /** How many bytes of `s` form the string `read_string` collects: the bytes
      before the first NUL, at most `limit` of them. */
  function CStringLength(s: seq<byte>, limit: nat): (n: nat)
    ensures n <= |s| && n <= limit
    ensures forall i :: 0 <= i < n ==> s[i] != 0
    ensures n == |s| || n == limit || s[n] == 0
  {
    if s == [] || limit == 0 || s[0] == 0 then 0 else 1 + CStringLength(s[1..], limit - 1)
  }

  /** The cut `CStringLength` makes is the only one with its three properties. */
  lemma {:induction false} CStringLengthUnique(s: seq<byte>, limit: nat, n: nat)
    requires n <= |s| && n <= limit
    requires forall i :: 0 <= i < n ==> s[i] != 0
    requires n == |s| || n == limit || s[n] == 0
    ensures n == CStringLength(s, limit)
  {
    if n > 0 {
      assert s[0] != 0;
      assert forall i :: 0 <= i < n - 1 ==> s[1..][i] == s[i + 1];
      CStringLengthUnique(s[1..], limit - 1, n - 1);
    }
  }

  /** What `read_string(limit)` returns when started at position `p` of a file
      holding `s`, and the position it leaves: past the byte that stopped it,
      or at the end of the file. A first read outside the file gets nothing
      and moves nothing. */
  function ReadStringResult(s: seq<byte>, p: int, limit: int): (r: (seq<byte>, int))
    ensures !(0 <= p < |s|) ==> r == ([], p)
    ensures 0 <= p < |s| ==> p < r.1 <= |s| && |r.0| < r.1 - p + 1
  {
    if 0 <= p < |s| then
      var n := CStringLength(s[p..], EffectiveLimit(limit));
      (s[p .. p + n], if p + n < |s| then p + n + 1 else |s|)
    else
      ([], p)
  }

  /** The string holds no NUL and at most the limit's bytes; it ended on a NUL
      or on the limit, and the position is one past it — or it reached the end
      of the file, and the position is there. */
  lemma ReadStringStops(s: seq<byte>, p: int, limit: int)
    requires 0 <= p < |s|
    ensures var (r, q) := ReadStringResult(s, p, limit);
      (forall k :: 0 <= k < |r| ==> r[k] != 0) && |r| <= EffectiveLimit(limit) &&
      r == s[p .. p + |r|] &&
      ((q == p + |r| + 1 && (s[p + |r|] == 0 || |r| == EffectiveLimit(limit))) ||
       (q == |s| && p + |r| == |s|))
  {
    var n := CStringLength(s[p..], EffectiveLimit(limit));
    assert p + n < |s| ==> s[p..][n] == s[p + n];
  }

  /** The file object. `contents` and `size` are set by `open`; every read,
      skip and seek moves `pos`. */
  class BinaryInputFile {
    var contents: seq<byte>
    var pos: int
    var size: int
    const byteOrder: Endian
    const native: Endian

    /** `m_size` is the file's length, captured when it was opened. */
    ghost predicate Valid()
      reads this
    {
      size == |contents|
    }

    /** Whether `n` bytes can be read from position `p`. */
    predicate Available(p: int, n: nat)
      reads this`contents
    {
      0 <= p && p + n <= |contents|
    }

    /** Whether the reader swaps the bytes of each value it reads. */
    predicate Swaps() {
      byteOrder != native
    }

    /** The value of `width` bytes read at position `p`. */
    function ValueAt(p: int, width: nat): (v: seq<byte>)
      requires Available(p, width)
      reads this`contents
      ensures |v| == width
      ensures ValueIn(v, native) == ValueIn(contents[p .. p + width], byteOrder)
    {
      DecodeMeaning(contents[p .. p + width], byteOrder, native);
      Decode(contents[p .. p + width], Swaps())
    }

    /** The values of `count` consecutive reads of `width` bytes from `p`. */
    function ValuesAt(p: int, count: nat, width: nat): (vs: seq<seq<byte>>)
      requires Available(p, count * width)
      reads this`contents
      ensures |vs| == count
      decreases count
    {
      if count == 0 then []
      else
        assert count * width == width + (count - 1) * width;
        [ValueAt(p, width)] + ValuesAt(p + width, count - 1, width)
    }

    /** A run of reads is one read followed by the rest of the run. */
    lemma ValuesAtStep(p: int, count: nat, width: nat)
      requires Available(p, count * width) && count > 0
      ensures Available(p, width) && Available(p + width, (count - 1) * width)
      ensures ValuesAt(p, count, width) == [ValueAt(p, width)] + ValuesAt(p + width, count - 1, width)
    {
      MulStep(count - 1, width);
    }

    /** Value i of a run of reads is the value read at `p + i * width`. */
    lemma {:induction false} ValuesAtIndex(p: int, count: nat, width: nat, i: nat)
      requires Available(p, count * width) && i < count
      ensures Available(p + i * width, width)
      ensures ValuesAt(p, count, width)[i] == ValueAt(p + i * width, width)
      decreases i
    {
      ValuesAtStep(p, count, width);
      if i > 0 {
        ValuesAtIndex(p + width, count - 1, width, i - 1);
        MulStep(i - 1, width);
      }
    }

    /** The default constructor: no file, size 0. */
    constructor Empty(order: Endian, nativeOrder: Endian)
      ensures contents == [] && pos == 0 && size == 0
      ensures byteOrder == order && native == nativeOrder
      ensures Valid()
    {
      byteOrder, native := order, nativeOrder;
      contents, pos, size := [], 0, 0;
    }

    /** The constructor taking a path: opens the file. */
    constructor (data: seq<byte>, order: Endian, nativeOrder: Endian)
      ensures contents == data && pos == 0 && size == |data|
      ensures byteOrder == order && native == nativeOrder
      ensures Valid()
    {
      byteOrder, native := order, nativeOrder;
      contents, pos, size := [], 0, 0;
      new;
      Open(data);
    }

    /** `open`: opens at the end, records the position there as the size, and
        seeks back to the start. The path and the stream handle are not
        modelled; `data` is what the file holds. */
    method Open(data: seq<byte>)
      modifies this
      ensures contents == data && size == |data| && pos == 0
      ensures Valid()
    {
      contents := data;
      pos := |data|;
      size := Tell();
      Seek(0);
    }

    /** `tell`: the current get position. */
    method Tell() returns (p: int)
      ensures p == pos
    {
      p := pos;
    }

    /** `size`: the length recorded by `open`. */
    method Size() returns (n: int)
      requires Valid()
      ensures n == |contents|
    {
      n := size;
    }

    /** `seek(fpos)`: moves to an absolute position. A position outside the
        file is kept; the next read there fails. */
    method Seek(p: int)
      modifies this`pos
      ensures pos == p
    {
      pos := p;
    }

    /** The position an offset is taken from. */
    function Origin(dir: SeekDir): int
      reads this`pos, this`contents
    {
      match dir
      case Beg => 0
      case Cur => pos
      case End => |contents|
    }

    /** `seek(foff, fdir)`: moves relative to the start, the current position
        or the end. */
    method SeekFrom(off: int, dir: SeekDir)
      modifies this`pos
      ensures pos == old(Origin(dir)) + off
    {
      pos := Origin(dir) + off;
    }

    /** `dummy<T>()`: skips one value without reading it. */
    method DummyValue(width: nat)
      modifies this`pos
      ensures pos == old(pos) + width
    {
      SeekFrom(width, Cur);
    }

    /** `dummy<T>(count)`: skips `count` values without reading them. */
    method DummyValues(width: nat, count: nat)
      modifies this`pos
      ensures pos == old(pos) + width * count
    {
      SeekFrom(width * count, Cur);
    }

    /** `dummy(count)`: skips `count` bytes without reading them. */
    method Dummy(count: nat)
      modifies this`pos
      ensures pos == old(pos) + count
    {
      SeekFrom(count, Cur);
    }

    /** The body of `read<T>` where the bytes are there: `sizeof(T)` bytes are
        read into the value, which is then passed through `swap_endian` when
        the configured order is not the native one. */
    method ReadValue(width: nat) returns (v: seq<byte>)
      requires Available(pos, width)
      modifies this`pos
      ensures v == old(ValueAt(pos, width))
      ensures pos == old(pos) + width
    {
      var raw := contents[pos .. pos + width];
      var res := new byte[width](i requires 0 <= i < width => raw[i]);
      assert res[..] == raw;
      pos := pos + width;
      if byteOrder != native {
        BinUtils.SwapEndianValue(res);
      }
      v := res[..];
    }

    /** `read<T>()`: one value from the current position. A read that would run
        past the end fails and consumes nothing. */
    method Read(width: nat) returns (r: Result<seq<byte>, ReadError>)
      modifies this`pos
      ensures r.Success? <==> old(Available(pos, width))
      ensures r.Success? ==> r.value == old(ValueAt(pos, width)) && pos == old(pos) + width
      ensures r.Failure? ==> pos == old(pos)
    {
      if !Available(pos, width) {
        return Failure(Truncated);
      }
      var v := ReadValue(width);
      r := Success(v);
    }

    /** `read<T>(fpos)`: a seek, then a read. */
    method ReadAt(p: int, width: nat) returns (r: Result<seq<byte>, ReadError>)
      modifies this`pos
      ensures r.Success? <==> Available(p, width)
      ensures r.Success? ==> r.value == ValueAt(p, width) && pos == p + width
      ensures r.Failure? ==> pos == p
    {
      Seek(p);
      r := Read(width);
    }

    /** `read<T>(foff, fdir)`: a relative seek, then a read. */
    method ReadFrom(off: int, dir: SeekDir, width: nat) returns (r: Result<seq<byte>, ReadError>)
      modifies this`pos
      ensures var p := old(Origin(dir)) + off;
        (r.Success? <==> Available(p, width)) &&
        (r.Success? ==> r.value == ValueAt(p, width) && pos == p + width) &&
        (r.Failure? ==> pos == p)
    {
      SeekFrom(off, dir);
      r := Read(width);
    }

    /** `read<T>()` as the first of a run of `rem` reads that are all
        available: the value is the head of the run and the rest of the run
        starts at the new position. */
    method ReadOfRun(width: nat, ghost rem: nat) returns (v: seq<byte>)
      requires rem > 0 && Available(pos, rem * width)
      modifies this`pos
      ensures pos == old(pos) + width
      ensures pos + (rem - 1) * width == old(pos) + rem * width
      ensures Available(pos, (rem - 1) * width)
      ensures old(ValuesAt(pos, rem, width)) == [v] + ValuesAt(pos, rem - 1, width)
    {
      ValuesAtStep(pos, rem, width);
      MulPred(rem, width);
      v := ReadValue(width);
    }

    /** `read_dynamic<T>(count)`: `count` successive values. The reads all
        succeed or the call fails up front, consuming nothing. */
    method ReadDynamic(count: nat, width: nat) returns (r: Result<seq<seq<byte>>, ReadError>)
      modifies this`pos
      ensures r.Success? <==> old(Available(pos, count * width))
      ensures r.Success? ==> r.value == old(ValuesAt(pos, count, width)) && pos == old(pos) + count * width
      ensures r.Failure? ==> pos == old(pos)
    {
      if !Available(pos, count * width) {
        return Failure(Truncated);
      }
      var data := ReadRun(count, width);
      r := Success(data);
    }

    /** The loop of `read_dynamic<T>(count)` once the whole run is known to be
        there: `count` calls of `read<T>()`. */
    method ReadRun(count: nat, width: nat) returns (data: seq<seq<byte>>)
      requires Available(pos, count * width)
      modifies this`pos
      ensures data == old(ValuesAt(pos, count, width))
      ensures pos == old(pos) + count * width
    {
      ghost var stop := pos + count * width;
      ghost var target := ValuesAt(pos, count, width);
      data := [];
      var i := 0;
      ghost var rem := count;
      ghost var rest := target;
      while i < count
        invariant 0 <= i <= count && rem == count - i
        invariant 0 <= pos && pos + rem * width == stop && stop <= |contents|
        invariant rest == ValuesAt(pos, rem, width)
        invariant data + rest == target
      {
        var v := ReadOfRun(width, rem);
        assert (data + [v]) + rest[1..] == data + rest;
        data := data + [v];
        i := i + 1;
        rem := rem - 1;
        rest := rest[1..];
      }
      assert data + [] == data;
    }

    /** `read_dynamic<T>(count, fpos)`: a seek, then `read_dynamic`. */
    method ReadDynamicAt(count: nat, p: int, width: nat) returns (r: Result<seq<seq<byte>>, ReadError>)
      modifies this`pos
      ensures r.Success? <==> Available(p, count * width)
      ensures r.Success? ==> r.value == ValuesAt(p, count, width) && pos == p + count * width
      ensures r.Failure? ==> pos == p
    {
      Seek(p);
      r := ReadDynamic(count, width);
    }

    /** `read_dynamic<T>(count, foff, fdir)`: a relative seek, then `read_dynamic`. */
    method ReadDynamicFrom(count: nat, off: int, dir: SeekDir, width: nat) returns (r: Result<seq<seq<byte>>, ReadError>)
      modifies this`pos
      ensures var p := old(Origin(dir)) + off;
        (r.Success? <==> Available(p, count * width)) &&
        (r.Success? ==> r.value == ValuesAt(p, count, width) && pos == p + count * width) &&
        (r.Failure? ==> pos == p)
    {
      SeekFrom(off, dir);
      r := ReadDynamic(count, width);
    }

    /** `read_static<T, N>()`: the same loop as `read_dynamic`, into an array of
        `N` values. */
    method ReadStatic(n: nat, width: nat) returns (r: Result<seq<seq<byte>>, ReadError>)
      modifies this`pos
      ensures r.Success? <==> old(Available(pos, n * width))
      ensures r.Success? ==> r.value == old(ValuesAt(pos, n, width)) && pos == old(pos) + n * width
      ensures r.Failure? ==> pos == old(pos)
    {
      r := ReadDynamic(n, width);
    }

    /** `read_static<T, N>(fpos)`: a seek, then `read_static`. */
    method ReadStaticAt(n: nat, p: int, width: nat) returns (r: Result<seq<seq<byte>>, ReadError>)
      modifies this`pos
      ensures r.Success? <==> Available(p, n * width)
      ensures r.Success? ==> r.value == ValuesAt(p, n, width) && pos == p + n * width
      ensures r.Failure? ==> pos == p
    {
      Seek(p);
      r := ReadStatic(n, width);
    }

    /** `read_static<T, N>(foff, fdir)`: a relative seek, then `read_static`
        (the statement ending in a missing `;` is read as intended). */
    method ReadStaticFrom(n: nat, off: int, dir: SeekDir, width: nat) returns (r: Result<seq<seq<byte>>, ReadError>)
      modifies this`pos
      ensures var p := old(Origin(dir)) + off;
        (r.Success? <==> Available(p, n * width)) &&
        (r.Success? ==> r.value == ValuesAt(p, n, width) && pos == p + n * width) &&
        (r.Failure? ==> pos == p)
    {
      SeekFrom(off, dir);
      r := ReadStatic(n, width);
    }

    /** `read_bytes(count)` as intended: `count` single-byte reads into a fresh
        buffer, in file order and never swapped. (The source passes the byte's
        value, reinterpreted as an address, as the destination of each read.) */
    method ReadBytes(count: nat) returns (r: Result<seq<byte>, ReadError>)
      modifies this`pos
      ensures r.Success? <==> old(Available(pos, count))
      ensures r.Success? ==> r.value == old(contents[pos .. pos + count]) && pos == old(pos) + count
      ensures r.Failure? ==> pos == old(pos)
    {
      if !Available(pos, count) {
        return Failure(Truncated);
      }
      ghost var start := pos;
      var bytes := new byte[count];
      var i := 0;
      while i < count
        invariant 0 <= i <= count
        invariant pos == start + i
        invariant forall k :: 0 <= k < i ==> bytes[k] == contents[start + k]
      {
        bytes[i] := contents[pos];
        pos := pos + 1;
        i := i + 1;
      }
      r := Success(bytes[..]);
    }

    /** `read_bytes(count, fpos)`: a seek, then `read_bytes`. */
    method ReadBytesAt(count: nat, p: int) returns (r: Result<seq<byte>, ReadError>)
      modifies this`pos
      ensures r.Success? <==> Available(p, count)
      ensures r.Success? ==> r.value == contents[p .. p + count] && pos == p + count
      ensures r.Failure? ==> pos == p
    {
      Seek(p);
      r := ReadBytes(count);
    }

    /** `read_bytes(count, foff, fdir)`: a relative seek, then `read_bytes`. */
    method ReadBytesFrom(count: nat, off: int, dir: SeekDir) returns (r: Result<seq<byte>, ReadError>)
      modifies this`pos
      ensures var p := old(Origin(dir)) + off;
        (r.Success? <==> Available(p, count)) &&
        (r.Success? ==> r.value == contents[p .. p + count] && pos == p + count) &&
        (r.Failure? ==> pos == p)
    {
      SeekFrom(off, dir);
      r := ReadBytes(count);
    }

    /** One `m_file.read(&chr, 1)`: the byte at the position, or end of file. */
    method ReadChar() returns (chr: byte, eof: bool)
      modifies this`pos
      ensures eof <==> !old(Available(pos, 1))
      ensures !eof ==> chr == old(contents[pos]) && pos == old(pos) + 1
      ensures eof ==> pos == old(pos)
    {
      if !Available(pos, 1) {
        return 0, true;
      }
      chr := contents[pos];
      pos := pos + 1;
      eof := false;
    }

    /** `read_string(limit)`: collects bytes up to the first NUL, the end of the
        file or `limit` bytes (none when negative), reading one byte ahead of
        what it keeps. */
    method ReadString(limit: int) returns (res: seq<char8>)
      modifies this`pos
      ensures (res, pos) == ReadStringResult(contents, old(pos), limit)
    {
      var limitDistance := limit;
      if limitDistance < 0 {
        limitDistance := IntMax;
      }
      ghost var start := pos;
      res := [];
      var chr, eof := ReadChar();
      var i := 0;
      while !eof && chr != Nul && i < limitDistance
        invariant 0 <= i <= limitDistance && |res| == i
        invariant (!eof || i > 0) ==> 0 <= start && start + i <= |contents| && res == contents[start .. start + i]
        invariant !eof ==> start + i < |contents| && chr == contents[start + i] && pos == start + i + 1
        invariant eof ==> pos == start + i && (i > 0 ==> start + i == |contents|)
        invariant eof && i == 0 ==> !(0 <= start < |contents|)
        invariant forall k :: 0 <= k < i ==> res[k] != Nul
        decreases |contents| - (start + i), if eof then 0 else 1
      {
        assert contents[start .. start + i + 1] == res + [chr];
        res := res + [chr];
        chr, eof := ReadChar();
        i := i + 1;
      }
      ReadStringExit(contents, start, limit, i, res, pos, chr, eof);
    }
  }

  /** Where the loop of `read_string` leaves off, after `i` bytes collected
      from `start` and a look-ahead byte `chr` (or end of file), is the result
      `ReadStringResult` describes. */
  lemma ReadStringExit(s: seq<byte>, start: int, limit: int, i: nat, res: seq<byte>, q: int, chr: byte, eof: bool)
    requires i <= EffectiveLimit(limit) && |res| == i
    requires (!eof || i > 0) ==> 0 <= start && start + i <= |s| && res == s[start .. start + i]
    requires !eof ==> start + i < |s| && chr == s[start + i] && q == start + i + 1
    requires eof ==> q == start + i && (i > 0 ==> start + i == |s|)
    requires eof && i == 0 ==> !(0 <= start < |s|)
    requires forall k :: 0 <= k < i ==> res[k] != Nul
    requires eof || chr == Nul || i == EffectiveLimit(limit)
    ensures (res, q) == ReadStringResult(s, start, limit)
  {
    if 0 <= start < |s| {
      var rest := s[start..];
      assert i < |rest| ==> rest[i] == s[start + i];
      assert forall k :: 0 <= k < i ==> rest[k] == res[k];
      CStringLengthUnique(rest, EffectiveLimit(limit), i);
    }
  }

  /** One factor fewer: `a * c == (a - 1) * c + c`. */
  lemma MulPred(a: nat, c: nat)
    requires a > 0
    ensures a * c == (a - 1) * c + c
  {
  }

  /** One more factor: `(a + 1) * c == a * c + c`. */
  lemma MulStep(a: nat, c: nat)
    ensures (a + 1) * c == a * c + c
  {
  }

  /** `read_string` stops at a NUL and steps past it: on "abc\0def" it returns
      "abc" and leaves the position at 4. */
  lemma ReadStringStopsAtNul()
    ensures ReadStringResult([0x61, 0x62, 0x63, 0x00, 0x64, 0x65, 0x66], 0, -1) == ([0x61, 0x62, 0x63], 4)
  {
    var s: seq<byte> := [0x61, 0x62, 0x63, 0x00, 0x64, 0x65, 0x66];
    assert s[0..] == s;
    CStringLengthUnique(s, IntMax, 3);
    assert s[0 .. 3] == [0x61, 0x62, 0x63];
  }

  /** `read_string` with a limit keeps `limit` bytes and has read one more: on
      "abcdef" with limit 2 it returns "ab" and leaves the position at 3. */
  lemma ReadStringStopsAtLimit()
    ensures ReadStringResult([0x61, 0x62, 0x63, 0x64, 0x65, 0x66], 0, 2) == ([0x61, 0x62], 3)
  {
    var s: seq<byte> := [0x61, 0x62, 0x63, 0x64, 0x65, 0x66];
    assert s[0..] == s;
    CStringLengthUnique(s, 2, 2);
    assert s[0 .. 2] == [0x61, 0x62];
  }
}
