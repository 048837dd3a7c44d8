/**
 * `MMapIO::Uio`: the register-window arithmetic of `regs`, the mapping cache
 * `@memmap_dict` it fills, and the integer syntax `read_class_integer`
 * accepts in sysfs attribute files. The page size, the attribute files and
 * the address `mmap` returns are supplied from outside.
 */
module UioDriver {
  import opened Wrappers
  import Bits

  /** The exceptions raised by the modelled code. */
  datatype UioError =
    | InvalidValue(value: string)                          // RuntimeError "Invalid value (...)"
    | EmptyAttribute                                       // `file.gets` returned nil, so `chomp` fails
    | MissingAttribute                                     // the attribute file cannot be opened
    | RegionRangeError(index: int, offset: int, length: int) // RuntimeError "region range error (...)"

  predicate IsDecimalDigit(c: char) {
    '0' <= c <= '9'
  }

  predicate IsHexDigit(c: char) {
    IsDecimalDigit(c) || 'a' <= c <= 'f' || 'A' <= c <= 'F'
  }

  function DigitValue(c: char): (d: nat)
    requires IsHexDigit(c)
    ensures d < 16 && (IsDecimalDigit(c) <==> d < 10)
  {
    if IsDecimalDigit(c) then c as int - '0' as int
    else if 'a' <= c <= 'f' then c as int - 'a' as int + 10
    else c as int - 'A' as int + 10
  }

  /** The lower-case digit for `d`. */
  function DigitChar(d: nat): (c: char)
    requires d < 16
    ensures IsHexDigit(c) && DigitValue(c) == d
  {
    if d < 10 then ('0' as int + d) as char else ('a' as int + d - 10) as char
  }

  /**
   * `value` matches `/^0[xX][0-9a-fA-F]+$/` (for a string without line
   * breaks). No such string also matches the decimal pattern, so the order of
   * the two tests does not matter.
   */
  predicate IsHexLiteral(value: string)
    ensures IsHexLiteral(value) ==> !IsDecimalLiteral(value)
  {
    |value| >= 3 && value[0] == '0' && (value[1] == 'x' || value[1] == 'X') &&
    forall i :: 2 <= i < |value| ==> IsHexDigit(value[i])
  }

  predicate AllDigits(digits: string, base: nat) {
    forall i :: 0 <= i < |digits| ==> IsHexDigit(digits[i]) && DigitValue(digits[i]) < base
  }

  /**
   * `value` matches `/^[0-9]+$/` (for a string without line breaks): it is a
   * non-empty string of digits below ten.
   */
  predicate IsDecimalLiteral(value: string)
    ensures IsDecimalLiteral(value) <==> |value| >= 1 && AllDigits(value, 10)
  {
    |value| >= 1 && forall i :: 0 <= i < |value| ==> IsDecimalDigit(value[i])
  }

  /**
   * The number a string of digits denotes in `base`, most significant digit
   * first: its last digit is the number modulo `base`, and the digits before
   * it denote the quotient.
   */
  function DigitsValue(digits: string, base: nat): (v: nat)
    requires AllDigits(digits, base)
    ensures |digits| >= 1 ==>
              DigitValue(digits[|digits| - 1]) < base &&
              v % base == DigitValue(digits[|digits| - 1]) &&
              v / base == DigitsValue(digits[..|digits| - 1], base)
  {
    if digits == [] then 0
    else
      var n := |digits| - 1;
      var prev, d := DigitsValue(digits[..n], base), DigitValue(digits[n]);
      Bits.DivModUnique(prev * base + d, base, prev, d);
      prev * base + d
  }

  /** The digits of `n` in `base`, most significant first, without leading zeros. */
  function ToDigits(n: nat, base: nat): (digits: string)
    requires 2 <= base <= 16
    ensures |digits| >= 1 && AllDigits(digits, base)
  {
    DivideByBase(n, base);
    var init := if n < base then "" else ToDigits(n / base, base);
    var last := DigitChar(n % base);
    assert forall i :: 0 <= i < |init| + 1 ==> (init + [last])[i] == if i < |init| then init[i] else last;
    init + [last]
  }

  lemma DivideByBase(n: nat, base: nat)
    requires 2 <= base
    ensures n == (n / base) * base + n % base && 0 <= n % base < base
    ensures n < base ==> n / base == 0
    ensures n >= base ==> n / base < n
  {
  }

  /** Printing a number and reading the digits back gives the number. */
  lemma {:induction false} DigitsOfValue(n: nat, base: nat)
    requires 2 <= base <= 16
    ensures DigitsValue(ToDigits(n, base), base) == n
    decreases n
  {
    DivideByBase(n, base);
    var digits := ToDigits(n, base);
    var q, d := n / base, n % base;
    var init := if n < base then "" else ToDigits(q, base);
    assert digits[..|digits| - 1] == init && digits[|digits| - 1] == DigitChar(d);
    if n >= base {
      DigitsOfValue(q, base);
    }
  }

  /**
   * The parse in `read_class_integer`: `0x`/`0X` and hex digits is read as
   * hexadecimal (`String#hex`), decimal digits as decimal (`String#to_i`,
   * so leading zeros do not make it octal), anything else is rejected.
   */
  function ParseInteger(value: string): (r: Result<nat, UioError>)
    ensures r.Failure? <==> !IsHexLiteral(value) && !IsDecimalLiteral(value)
    ensures r.Failure? ==> r.error == InvalidValue(value)
  {
    if IsHexLiteral(value) then Success(DigitsValue(value[2..], 16))
    else if IsDecimalLiteral(value) then Success(DigitsValue(value, 10))
    else Failure(InvalidValue(value))
  }

  /** The first line of `s` with its line break, if it has one. */
  function LineOf(s: string): (line: string)
    ensures line <= s
    ensures |s| >= 1 ==> |line| >= 1 && (line == s || line[|line| - 1] == '\n')
    ensures forall i :: 0 <= i < |line| - 1 ==> line[i] != '\n'
  {
    if s == [] then []
    else if s[0] == '\n' then "\n"
    else [s[0]] + LineOf(s[1..])
  }

  /** `file.gets`: the first line of the file, or nil when the file is empty. */
  function Gets(contents: string): (line: Option<string>)
    ensures line.None? <==> contents == []
  {
    if contents == [] then None else Some(LineOf(contents))
  }

  /** `String#chomp`: drops one trailing "\r\n", "\n" or "\r". */
  function Chomp(s: string): (t: string)
    ensures s == t || s == t + "\n" || s == t + "\r" || s == t + "\r\n"
    ensures t == s <==> |s| == 0 || (s[|s| - 1] != '\n' && s[|s| - 1] != '\r')
    ensures s == t + "\n" ==> |t| == 0 || t[|t| - 1] != '\r'
  {
    if |s| >= 2 && s[|s| - 2..] == "\r\n" then s[..|s| - 2]
    else if |s| >= 1 && (s[|s| - 1] == '\n' || s[|s| - 1] == '\r') then s[..|s| - 1]
    else s
  }

  /**
   * A chomped first line holds no line break, so the anchors `^` and `$` of
   * the two patterns match only at its two ends.
   */
  lemma ChompedLineHasNoBreak(contents: string)
    requires contents != []
    ensures forall i :: 0 <= i < |Chomp(LineOf(contents))| ==> Chomp(LineOf(contents))[i] != '\n'
  {
    var line := LineOf(contents);
    var value := Chomp(line);
    if |line| >= 1 && line[|line| - 1] == '\n' {
      assert value == line[..|line| - 1] || value == line[..|line| - 2];
    }
  }

  /** `read_class_integer` on the contents of an attribute file. */
  function ReadClassInteger(contents: string): (r: Result<nat, UioError>)
    ensures r == Failure(EmptyAttribute) <==> contents == []
    ensures contents != [] && r.Failure? ==> r.error == InvalidValue(Chomp(LineOf(contents)))
  {
    match Gets(contents)
    case None => Failure(EmptyAttribute)
    case Some(line) => ParseInteger(Chomp(line))
  }

  /** The first line of a break-free string followed by a break is that string and the break. */
  lemma {:induction false} LineOfTerminated(s: string, rest: string)
    requires forall i :: 0 <= i < |s| ==> s[i] != '\n'
    ensures LineOf(s + "\n" + rest) == s + "\n"
  {
    if s != [] {
      assert (s + "\n" + rest)[1..] == s[1..] + "\n" + rest;
      LineOfTerminated(s[1..], rest);
    }
  }

  /** A file without any line break is one line. */
  lemma {:induction false} LineOfBreakFree(s: string)
    requires forall i :: 0 <= i < |s| ==> s[i] != '\n'
    ensures LineOf(s) == s
  {
    if s != [] {
      LineOfBreakFree(s[1..]);
    }
  }

  /**
   * An attribute file whose first line is `value` (not ending in a carriage
   * return) parses exactly `value`, whatever follows the line break.
   */
  lemma ReadsLine(value: string, rest: string)
    requires |value| >= 1 && value[|value| - 1] != '\r'
    requires forall i :: 0 <= i < |value| ==> value[i] != '\n'
    ensures ReadClassInteger(value + "\n" + rest) == ParseInteger(value)
  {
    var line := value + "\n";
    LineOfTerminated(value, rest);
    assert Gets(value + "\n" + rest) == Some(line);
    assert line[|line| - 2] == value[|value| - 1] != '\r';
    assert line[|line| - 2..] != "\r\n";
    assert Chomp(line) == line[..|line| - 1] == value;
  }

  /** A file holding `value` with no line break at its end parses exactly `value`. */
  lemma ReadsUnterminatedLine(value: string)
    requires |value| >= 1 && value[|value| - 1] != '\r'
    requires forall i :: 0 <= i < |value| ==> value[i] != '\n'
    ensures ReadClassInteger(value) == ParseInteger(value)
  {
    LineOfBreakFree(value);
  }

  /** Decimal digits never match the hexadecimal pattern, so they parse as decimal. */
  lemma ParsesDecimal(digits: string)
    requires IsDecimalLiteral(digits)
    ensures ParseInteger(digits) == Success(DigitsValue(digits, 10))
  {
    if |digits| >= 2 {
      assert IsDecimalDigit(digits[1]);
    }
  }

  /** A leading zero does not change the value of a digit string. */
  lemma {:induction false} LeadingZero(digits: string, base: nat)
    requires base >= 1 && AllDigits(digits, base)
    ensures AllDigits("0" + digits, base)
    ensures DigitsValue("0" + digits, base) == DigitsValue(digits, base)
  {
    var z := "0" + digits;
    assert DigitValue(z[0]) == 0;
    assert AllDigits(z, base);
    if digits != [] {
      var init := digits[..|digits| - 1];
      assert z[..|z| - 1] == "0" + init && z[|z| - 1] == digits[|digits| - 1];
      LeadingZero(init, base);
    } else {
      assert z[..0] == "";
    }
  }

  /** Any number of leading zeros does not change the value of a digit string. */
  lemma {:induction false} LeadingZeros(zeros: string, digits: string, base: nat)
    requires base >= 1 && AllDigits(digits, base)
    requires forall i :: 0 <= i < |zeros| ==> zeros[i] == '0'
    ensures AllDigits(zeros + digits, base)
    ensures DigitsValue(zeros + digits, base) == DigitsValue(digits, base)
  {
    if zeros != [] {
      var tail := zeros[1..] + digits;
      assert zeros + digits == "0" + tail by {
        assert zeros == "0" + zeros[1..];
      }
      LeadingZeros(zeros[1..], digits, base);
      LeadingZero(tail, base);
    } else {
      assert zeros + digits == digits;
    }
  }

  /** `digits` spells the same digits as `canonical`, each in either letter case. */
  predicate SameDigits(digits: string, canonical: string) {
    |digits| == |canonical| &&
    forall i :: 0 <= i < |digits| ==>
      IsHexDigit(digits[i]) && IsHexDigit(canonical[i]) && DigitValue(digits[i]) == DigitValue(canonical[i])
  }

  /** The value of a digit string depends only on its digits, not on the letter case they are written in. */
  lemma {:induction false} SameDigitsValue(digits: string, canonical: string, base: nat)
    requires AllDigits(canonical, base) && SameDigits(digits, canonical)
    ensures AllDigits(digits, base)
    ensures DigitsValue(digits, base) == DigitsValue(canonical, base)
  {
    if digits != [] {
      var n := |digits| - 1;
      assert SameDigits(digits[..n], canonical[..n]);
      SameDigitsValue(digits[..n], canonical[..n], base);
    }
  }

  /**
   * `String#hex` on any accepted spelling of `n`: `0x` or `0X`, any number of
   * leading zeros, and the digits of `n` in either letter case.
   */
  lemma ParsesHexSpelling(x: char, zeros: string, digits: string, n: nat)
    requires x == 'x' || x == 'X'
    requires forall i :: 0 <= i < |zeros| ==> zeros[i] == '0'
    requires SameDigits(digits, ToDigits(n, 16))
    ensures ParseInteger(['0', x] + zeros + digits) == Success(n)
  {
    var canonical, body := ToDigits(n, 16), zeros + digits;
    SameDigitsValue(digits, canonical, 16);
    LeadingZeros(zeros, digits, 16);
    assert DigitsValue(body, 16) == n by {
      DigitsOfValue(n, 16);
    }
    HexPrefixed(x, body);
    assert ['0', x] + zeros + digits == ['0', x] + body;
  }

  /** `0x` or `0X` before a non-empty string of hex digits is a hex literal, read as those digits. */
  lemma HexPrefixed(x: char, body: string)
    requires x == 'x' || x == 'X'
    requires |body| >= 1 && AllDigits(body, 16)
    ensures IsHexLiteral(['0', x] + body)
    ensures ParseInteger(['0', x] + body) == Success(DigitsValue(body, 16))
  {
    var value := ['0', x] + body;
    forall i | 2 <= i < |value|
      ensures IsHexDigit(value[i])
    {
      assert value[i] == body[i - 2];
    }
    assert value[2..] == body;
  }

  /** `String#to_i` on decimal digits with any number of leading zeros (no octal reading). */
  lemma ParsesDecimalSpelling(zeros: string, n: nat)
    requires forall i :: 0 <= i < |zeros| ==> zeros[i] == '0'
    ensures ParseInteger(zeros + ToDigits(n, 10)) == Success(n)
  {
    var value := zeros + ToDigits(n, 10);
    LeadingZeros(zeros, ToDigits(n, 10), 10);
    assert IsDecimalLiteral(value);
    ParsesDecimal(value);
    DigitsOfValue(n, 10);
  }

  /** An upper-case prefix and upper-case digits read as the same number. */
  lemma UpperCaseHex()
    ensures ParseInteger("0X1F") == Success(31)
  {
    var digits: string := "1F";
    assert ToDigits(31, 16) == "1f";
    assert SameDigits(digits, "1f");
    ParsesHexSpelling('X', "", digits, 31);
    assert ['0', 'X'] + "" + digits == "0X1F";
  }

  /** Leading zeros after the `0x` prefix are ignored. */
  lemma ZeroPaddedHex()
    ensures ParseInteger("0x00FF") == Success(255)
  {
    var digits: string := "FF";
    assert ToDigits(255, 16) == "ff";
    assert SameDigits(digits, "ff");
    ParsesHexSpelling('x', "00", digits, 255);
    assert ['0', 'x'] + "00" + digits == "0x00FF";
  }

  /** Leading zeros of a decimal value do not make it octal. */
  lemma ZeroPaddedDecimal()
    ensures ParseInteger("007") == Success(7)
  {
    assert ToDigits(7, 10) == "7";
    ParsesDecimalSpelling("00", 7);
    assert "00" + "7" == "007";
  }

  /** A number printed in decimal on the first line reads back as that number. */
  lemma ReadsDecimal(n: nat, rest: string)
    ensures ReadClassInteger(ToDigits(n, 10) + "\n" + rest) == Success(n)
  {
    var digits := ToDigits(n, 10);
    ReadsLine(digits, rest);
    ParsesDecimalSpelling("", n);
    assert "" + digits == digits;
  }

  /** A number printed as `0x` and hexadecimal digits on the first line reads back as that number. */
  lemma ReadsHex(n: nat, rest: string)
    ensures ReadClassInteger("0x" + ToDigits(n, 16) + "\n" + rest) == Success(n)
  {
    var digits := ToDigits(n, 16);
    var value := "0x" + digits;
    ReadsLine(value, rest);
    assert SameDigits(digits, digits);
    ParsesHexSpelling('x', "", digits, n);
    assert ['0', 'x'] + "" + digits == value;
  }

  /** `mmap_offset`: where the region's start `addr + offset` lies within its page. */
  function MmapOffset(addr: nat, offset: nat, pageSize: nat): (r: nat)
    requires pageSize > 0
    ensures r < pageSize
    ensures exists page: nat :: addr + offset == page * pageSize + r
  {
    var x := addr + offset;
    assert x == (x / pageSize) * pageSize + x % pageSize;
    x % pageSize
  }

  /** `mmap_size`: the region's size rounded up to whole pages. */
  function MmapSize(size: nat, pageSize: nat): (r: nat)
    requires pageSize > 0
    ensures r % pageSize == 0
    ensures size <= r < size + pageSize
  {
    var pages := (size + pageSize - 1) / pageSize;
    var r := pages * pageSize;
    Bits.DivModUnique(r, pageSize, pages, 0);
    assert size + pageSize - 1 == pages * pageSize + (size + pageSize - 1) % pageSize;
    r
  }

  /** No smaller multiple of the page size holds the region. */
  lemma MmapSizeIsLeast(size: nat, pageSize: nat, m: nat)
    requires pageSize > 0 && m % pageSize == 0 && size <= m
    ensures MmapSize(size, pageSize) <= m
  {
    var r := MmapSize(size, pageSize);
    var a, b := r / pageSize, m / pageSize;
    assert r == pageSize * a + r % pageSize;
    assert m == pageSize * b + m % pageSize;
    if b < a {
      Bits.MulMonotone(pageSize, b, a - 1);
      Bits.MulDistributes(pageSize, a - 1, 1);
    }
  }

  /** The cached description of one mapping: the entry `@memmap_dict[index]`. */
  datatype MemMapInfo = MemMapInfo(memmap: int, size: nat, addr: nat, offset: nat)

  /** The arguments of `MMapIO::MemoryMappedIO.new(memmap, regs_offset, regs_length)`. */
  datatype Window = Window(memmap: int, offset: int, length: int)

  /**
   * The window `regs` returns for a mapping: it starts `offset` bytes past the
   * region's start; without a length it runs to the end of the mapped pages,
   * and a given length must not run past that end.
   */
  function RegsWindow(info: MemMapInfo, index: int, offset: int, length: Option<int>): (r: Result<Window, UioError>)
    ensures r.Success? ==> r.value.memmap == info.memmap && r.value.offset == info.offset + offset
    ensures length.None? ==> r.Success? && r.value.offset + r.value.length == info.size
    ensures length.Some? ==> (r.Success? <==> info.offset + offset + length.value <= info.size)
    ensures length.Some? && r.Success? ==> r.value.length == length.value
    ensures r.Failure? ==> length.Some? && r.error == RegionRangeError(index, offset, length.value)
  {
    var regsOffset := info.offset + offset;
    match length
    case None => Success(Window(info.memmap, regsOffset, info.size - regsOffset))
    case Some(n) =>
      if regsOffset + n <= info.size then Success(Window(info.memmap, regsOffset, n))
      else Failure(RegionRangeError(index, offset, n))
  }

  /** For a non-negative offset and length, the window lies inside the mapped pages. */
  lemma RegsWindowInsideMapping(info: MemMapInfo, index: int, offset: int, length: Option<int>)
    requires offset >= 0
    requires length.None? ==> info.offset + offset <= info.size
    requires length.Some? ==> length.value >= 0
    requires RegsWindow(info, index, offset, length).Success?
    ensures var w := RegsWindow(info, index, offset, length).value;
      0 <= w.offset && 0 <= w.length && w.offset + w.length <= info.size
  {
  }

  /**
   * The range check bounds only the window's end: a negative offset yields a
   * window that starts before the mapping, and an offset past the end with no
   * length yields a negative length.
   */
  lemma RegsWindowUnchecked()
    ensures RegsWindow(MemMapInfo(0, 4096, 0, 0), 0, -16, Some(16)) == Success(Window(0, -16, 16))
    ensures RegsWindow(MemMapInfo(0, 4096, 0, 0), 0, 5000, None) == Success(Window(0, 5000, -904))
  {
  }

  /** The fields of a map's sysfs directory `maps/map<index>/`. */
  datatype MapField = Addr | Size | Offset

  /** What `get_map_info` reads: the map's `addr`, `size` and `offset` attributes. */
  datatype MapInfo = MapInfo(addr: nat, size: nat, offset: nat)

  /** One `System.mmap` call: the mapping length and the file offset `index * page_size`. */
  datatype MmapCall = MmapCall(index: int, length: nat, fileOffset: int)

  /** The cached indices are exactly the indices mapped so far. */
  ghost predicate KeysMapped(dict: map<int, MemMapInfo>, calls: seq<MmapCall>) {
    forall i :: i in dict <==> exists k :: 0 <= k < |calls| && calls[k].index == i
  }

  /** No index was mapped twice. */
  ghost predicate MappedOnce(calls: seq<MmapCall>) {
    forall j, k :: 0 <= j < k < |calls| ==> calls[j].index != calls[k].index
  }

  /** Caching a new index together with the call that mapped it keeps the keys equal to the mapped indices. */
  lemma MappingKeepsKeysMapped(dict: map<int, MemMapInfo>, calls: seq<MmapCall>, index: int, entry: MemMapInfo, call: MmapCall)
    requires KeysMapped(dict, calls) && call.index == index
    ensures KeysMapped(dict[index := entry], calls + [call])
  {
    var dict', calls' := dict[index := entry], calls + [call];
    forall i | i in dict'
      ensures exists k :: 0 <= k < |calls'| && calls'[k].index == i
    {
      if i == index {
        assert calls'[|calls|].index == i;
      } else {
        var k :| 0 <= k < |calls| && calls[k].index == i;
        assert calls'[k].index == i;
      }
    }
    forall i | exists k :: 0 <= k < |calls'| && calls'[k].index == i
      ensures i in dict'
    {
      var k :| 0 <= k < |calls'| && calls'[k].index == i;
      if k < |calls| {
        assert calls[k].index == i;
      }
    }
  }

  /** Mapping an index that is not cached keeps every index mapped at most once. */
  lemma MappingKeepsMappedOnce(dict: map<int, MemMapInfo>, calls: seq<MmapCall>, index: int, entry: MemMapInfo, call: MmapCall)
    requires KeysMapped(dict, calls) && MappedOnce(calls) && call.index == index && index !in dict
    ensures MappedOnce(calls + [call])
  {
    var calls' := calls + [call];
    forall j, k | 0 <= j < k < |calls'|
      ensures calls'[j].index != calls'[k].index
    {
      if k == |calls| {
        assert calls[j].index in dict;
      }
    }
  }

  /** An `MMapIO::Uio` device: the state `regs` keeps between calls. */
  class Uio {
    /** `System.getpagesize` */
    const pageSize: nat
    /** The contents of the attribute file `maps/map<index>/<field>`; None when it cannot be opened. */
    const mapAttribute: (int, MapField) -> Option<string>
    /** `@memmap_dict` */
    var memmapDict: map<int, MemMapInfo>
    /** The `System.mmap` calls made so far, in order. */
    ghost var mmapCalls: seq<MmapCall>

    /**
     * `get_map_addr`, `get_map_size`, `get_map_offset`: `read_class_integer`
     * on one attribute file of a map; a file that cannot be opened is an error.
     */
    function ReadMapInteger(index: int, field: MapField): (r: Result<nat, UioError>)
      ensures r == Failure(MissingAttribute) <==> mapAttribute(index, field).None?
      ensures mapAttribute(index, field).Some? ==> r == ReadClassInteger(mapAttribute(index, field).value)
    {
      match mapAttribute(index, field)
      case None => Failure(MissingAttribute)
      case Some(contents) => ReadClassInteger(contents)
    }

    /** `get_map_info`: reads `addr`, then `size`, then `offset`, stopping at the first error. */
    function GetMapInfo(index: int): (r: Result<MapInfo, UioError>)
      ensures r.Success? <==>
                ReadMapInteger(index, Addr).Success? && ReadMapInteger(index, Size).Success? &&
                ReadMapInteger(index, Offset).Success?
      ensures r.Success? ==>
                r.value.addr == ReadMapInteger(index, Addr).value &&
                r.value.size == ReadMapInteger(index, Size).value &&
                r.value.offset == ReadMapInteger(index, Offset).value
      ensures ReadMapInteger(index, Addr).Failure? ==> r == Failure(ReadMapInteger(index, Addr).error)
      ensures ReadMapInteger(index, Addr).Success? && ReadMapInteger(index, Size).Failure? ==>
                r == Failure(ReadMapInteger(index, Size).error)
      ensures ReadMapInteger(index, Addr).Success? && ReadMapInteger(index, Size).Success? &&
              ReadMapInteger(index, Offset).Failure? ==>
                r == Failure(ReadMapInteger(index, Offset).error)
    {
      var addr :- ReadMapInteger(index, Addr);
      var size :- ReadMapInteger(index, Size);
      var offset :- ReadMapInteger(index, Offset);
      Success(MapInfo(addr, size, offset))
    }

    /** The entry `regs` caches for a map whose pages `mmap` placed at `memmap`. */
    function EntryFor(memmap: int, info: MapInfo): (e: MemMapInfo)
      requires pageSize > 0
      ensures e.memmap == memmap && e.addr == info.addr
      ensures e.size % pageSize == 0 && info.size <= e.size < info.size + pageSize
      ensures e.offset < pageSize && exists page: nat :: info.addr + info.offset == page * pageSize + e.offset
    {
      MemMapInfo(memmap, MmapSize(info.size, pageSize), info.addr, MmapOffset(info.addr, info.offset, pageSize))
    }

    /**
     * Every cached index was mapped exactly once, and every entry agrees with
     * what the attribute files say about its map.
     */
    ghost predicate CacheInvariant(dict: map<int, MemMapInfo>, calls: seq<MmapCall>)
      requires pageSize > 0
    {
      KeysMapped(dict, calls) && MappedOnce(calls) && EntriesMatch(dict)
    }

    /** Every cached entry is the entry for its map's attributes, at the address its pages were placed. */
    ghost predicate EntriesMatch(dict: map<int, MemMapInfo>)
      requires pageSize > 0
    {
      forall i :: i in dict ==>
        GetMapInfo(i).Success? && dict[i] == EntryFor(dict[i].memmap, GetMapInfo(i).value)
    }

    ghost predicate Valid()
      reads this
    {
      pageSize > 0 && CacheInvariant(memmapDict, mmapCalls)
    }

    /** Mapping an index not mapped before, and caching it, keeps the invariant. */
    lemma CachingNewMapKeepsInvariant(dict: map<int, MemMapInfo>, calls: seq<MmapCall>, index: int, memmap: int)
      requires pageSize > 0 && CacheInvariant(dict, calls)
      requires index !in dict && GetMapInfo(index).Success?
      ensures var entry := EntryFor(memmap, GetMapInfo(index).value);
        CacheInvariant(dict[index := entry], calls + [MmapCall(index, entry.size, index * pageSize)])
    {
      var entry := EntryFor(memmap, GetMapInfo(index).value);
      var call := MmapCall(index, entry.size, index * pageSize);
      MappingKeepsKeysMapped(dict, calls, index, entry, call);
      MappingKeepsMappedOnce(dict, calls, index, entry, call);
    }

    /** `Uio.new` once the device file is open: nothing is mapped yet. */
    constructor (pageSize: nat, mapAttribute: (int, MapField) -> Option<string>)
      requires pageSize > 0
      ensures Valid()
      ensures this.pageSize == pageSize && this.mapAttribute == mapAttribute
      ensures memmapDict == map[] && mmapCalls == []
    {
      this.pageSize := pageSize;
      this.mapAttribute := mapAttribute;
      memmapDict := map[];
      mmapCalls := [];
    }

    /**
     * `regs(offset, length:, index:)`. The first call for an index reads the
     * map's attributes, maps its pages (`mmap` places them at `mapped`) and
     * caches the result, even when the range check then fails; later calls
     * reuse the cached entry and map nothing.
     */
    method Regs(offset: int, length: Option<int>, index: int, mapped: int) returns (r: Result<Window, UioError>)
      requires Valid()
      modifies this
      ensures Valid()
      ensures index in old(memmapDict) ==>
                memmapDict == old(memmapDict) && mmapCalls == old(mmapCalls) &&
                r == RegsWindow(old(memmapDict)[index], index, offset, length)
      ensures index !in old(memmapDict) && GetMapInfo(index).Failure? ==>
                memmapDict == old(memmapDict) && mmapCalls == old(mmapCalls) &&
                r == Failure(GetMapInfo(index).error)
      ensures index !in old(memmapDict) && GetMapInfo(index).Success? ==>
                var entry := EntryFor(mapped, GetMapInfo(index).value);
                memmapDict == old(memmapDict)[index := entry] &&
                mmapCalls == old(mmapCalls) + [MmapCall(index, entry.size, index * pageSize)] &&
                r == RegsWindow(entry, index, offset, length)
    {
      var entry: MemMapInfo;
      if index in memmapDict {
        entry := memmapDict[index];
      } else {
        var info := GetMapInfo(index);
        if info.Failure? {
          return Failure(info.error);
        }
        entry := EntryFor(mapped, info.value);
        CachingNewMapKeepsInvariant(memmapDict, mmapCalls, index, mapped);
        memmapDict := memmapDict[index := entry];
        mmapCalls := mmapCalls + [MmapCall(index, entry.size, index * pageSize)];
      }
      r := RegsWindow(entry, index, offset, length);
    }
  }

  /**
   * Two `regs` calls for the same map, window and length: the second reuses
   * the first one's pages, maps nothing, and returns what the first returned,
   * error or window.
   */
  method RegsTwice(uio: Uio, index: int, offset: int, length: Option<int>, first: int, second: int)
    returns (r1: Result<Window, UioError>, r2: Result<Window, UioError>)
    requires uio.Valid()
    modifies uio
    ensures uio.Valid()
    ensures |uio.mmapCalls| <= |old(uio.mmapCalls)| + 1
    ensures r2 == r1
  {
    r1 := uio.Regs(offset, length, index, first);
    r2 := uio.Regs(offset, length, index, second);
  }
}
