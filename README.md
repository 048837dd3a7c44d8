# mmapio in Dafny

This project models the core of the `mmapio` Ruby gem, which gives Ruby code
register access to memory-mapped hardware (a Linux UIO device) with bounds and
alignment checks.

- `MMapIO::MemoryMappedIO` is a C extension. An object holds a base address
  and a size. It offers eight accessors: read and write at widths 8, 16, 32
  and 64 bits. Each accessor validates the offset before touching memory. A
  write masks its data to the width. The same accessors are bound under two
  naming schemes: `read_byte`/`half`/`word`/`quad` and `read_uint8` …
  `read_uint64`, with the same two schemes for writes.
- `MMapIO::Uio` is the Ruby driver. `regs` reads a map's `addr`, `size` and
  `offset` from sysfs attribute files. It maps whole pages and caches the
  mapping in `@memmap_dict`. It returns a register window into the mapping.
  Only the window's end is checked, and only when a length is given: a
  negative offset starts the window before the mapping, and an offset past
  the end with no length gives a negative length. Attribute files are parsed
  by `read_class_integer`.

Files:

- `wrappers.dfy`: `Option`, `Result` (usable with `:-`) and `Outcome`.
- `bits.dfy`: powers of two, bitwise AND and the all-ones mask, and the
  little-endian encoding of a value in `n` bytes and its inverse.
- `memory_mapped_io.dfy`: the C extension.
  - `CheckOffset` is the validator.
  - `Load` and `Store` are the raw access on a byte sequence.
  - Class `MemoryMappedIO` holds the address space (an `array<byte>`), the
    window's `addr` and its `size`. Its `Read` and `Write` methods are
    proved against `Load`, `Store` and `CheckOffset`.
  - `InitMemoryMappedIO` builds the method table.
- `uio.dfy`: the Ruby driver.
  - The integer syntax of attribute files, with `gets` and `chomp`.
  - The page arithmetic of `regs`.
  - Class `Uio`, whose `Regs` method keeps the cache `memmapDict`. The cache
    invariant says every cached index was mapped exactly once and agrees with
    its attribute files.

Machine integers are explicit. `u64` is `uint64_t`/`size_t`/`DATA_T`, and
`i64` is `ptrdiff_t`. `AsPtrdiff` spells out the cast of the size to
`ptrdiff_t`. Because of that cast, a size of 2^63 or more rejects every
offset.

Loads and stores use little-endian byte order (the host's order in the C
code). `Read` and `Write` require only what C requires to avoid undefined
behaviour: when validation accepts an access, the bytes it touches must exist
in the address space.

Validation checks the start offset only. An aligned access whose first byte
is inside the window is accepted even when its last byte is not:
`read_quad(8)` on a 10-byte window reads 6 bytes past the end. An unaligned
start fails before any access: `read_half(15)` on a 16-byte window raises the
alignment error. `OverrunAccepted` proves both.

## Model

| member | source | states |
|---|---|---|
| MappedIO.AsPtrdiff | ext/memory_mapped_io/memory_mapped_io.c:74 | `(ptrdiff_t)size` is the two's-complement reading of the size: congruent to it modulo 2^64 |
| MappedIO.CheckOffset | ext/memory_mapped_io/memory_mapped_io.c:71-88 | for sizes below 2^63, the range error is raised exactly when the offset is negative or at least the size; sizes of 2^63 or more reject every offset; the alignment error is raised exactly when the offset is in range and not a multiple of the width; the access passes exactly when it is in range and aligned (the end of the access is not checked) |
| MappedIO.OverrunAccepted | ext/memory_mapped_io/memory_mapped_io.c:74-79 | only the start is bounds-checked: an aligned 8-byte access at 8 in a 10-byte window passes; offset 15 at 16 bits is an alignment error; offsets −1 and 16 are range errors; offset 2 at 32 bits is an alignment error |
| MappedIO.Mask | ext/memory_mapped_io/memory_mapped_io.c:108 | `(DATA_T)~(type)0` has every bit of the access type set; after integer promotion of `uint8_t` and `uint16_t` to `int`, their complement -1 converts to 2^64 − 1, as does the 64-bit mask; only the 32-bit mask is 2^32 − 1 |
| MappedIO.Masked | ext/memory_mapped_io/memory_mapped_io.c:107-113 | the stored value `(type)(_data & _mask)` is the data modulo 2^(8·width), and is the data itself when it fits the width |
| MappedIO.AndIsIdentityWhenPromoted | ext/memory_mapped_io/memory_mapped_io.c:108-113 | for the 8-, 16- and 64-bit types `_data & _mask` is `_data`, so only the `(type)` cast truncates |
| MappedIO.Load | ext/memory_mapped_io/memory_mapped_io.c:100 | a load of `width` bytes yields a value below 2^(8·width) |
| MappedIO.Encoded | ext/memory_mapped_io/memory_mapped_io.c:113 | a store writes exactly `width` bytes |
| MappedIO.Store | ext/memory_mapped_io/memory_mapped_io.c:113 | a store keeps the memory's length and every byte outside `[at, at+width)` |
| MappedIO.StoreSpliced | ext/memory_mapped_io/memory_mapped_io.c:113 | memory that holds the encoded bytes in the access range and the old bytes elsewhere equals `Store` |
| MappedIO.LoadAfterStore | ext/memory_mapped_io/memory_mapped_io.c:90-115 | reading back a write at the same offset and width gives the stored value `(type)(data & mask)`, and gives `data` when it fits the width |
| MappedIO.StoreKeepsDisjointBytes | ext/memory_mapped_io/memory_mapped_io.c:113 | a store leaves every byte range disjoint from it unchanged |
| MappedIO.LoadAfterDisjointStore | ext/memory_mapped_io/memory_mapped_io.c:90-115 | a write does not change a read that does not overlap it, at any pair of widths |
| MappedIO.StoreOfLoad | ext/memory_mapped_io/memory_mapped_io.c:90-115 | writing back the value just read leaves memory as it was |
| MappedIO.StoreOverStore | ext/memory_mapped_io/memory_mapped_io.c:113 | a second write at the same offset and width replaces the first entirely |
| MappedIO.HalfOfOverwide | ext/memory_mapped_io/memory_mapped_io.c:107-113 | a 16-bit write of data whose low 16 bits are all ones reads back as 0xFFFF |
| MappedIO.MemoryMappedIO.constructor | ext/memory_mapped_io/memory_mapped_io.c:128-137 | `initialize` stores `addr + offset` and `size` without validating either |
| MappedIO.MemoryMappedIO.SlackSuffices | ext/memory_mapped_io/memory_mapped_io.c:71-88 | because only the start offset is checked, 7 bytes of address space after the window suffice for every access validation accepts |
| MappedIO.MemoryMappedIO.Read | ext/memory_mapped_io/memory_mapped_io.c:90-102 | a rejected read returns the validator's error; an accepted read returns the little-endian value of the `width` bytes at `addr + offset` |
| MappedIO.MemoryMappedIO.Write | ext/memory_mapped_io/memory_mapped_io.c:103-115 | the outcome is the validator's; an accepted write makes memory `Store(old memory, addr + offset, width, data)`; a rejected write changes no byte |
| MappedIO.InitMemoryMappedIO | ext/memory_mapped_io/memory_mapped_io.c:139-161 | `initialize` is bound with arity 3; under both naming schemes and at every width, `read_*` is bound to the reader of that width with arity 1 and `write_*` to the writer of that width with arity 2 |
| MappedIO.SpellingInjective | ext/memory_mapped_io/memory_mapped_io.c:144-160 | the 17 method names are spelled differently, so no binding shadows another |
| Bits.AllOnesValue | ext/memory_mapped_io/memory_mapped_io.c:108 | the all-ones value of `k` bits is 2^k − 1 |
| Bits.AndAllOnes | ext/memory_mapped_io/memory_mapped_io.c:113 | AND with the all-ones value of `k` bits is reduction modulo 2^k |
| Bits.FromLE | ext/memory_mapped_io/memory_mapped_io.c:100 | the value of `n` bytes is below 2^(8n) |
| Bits.FromToLE | ext/memory_mapped_io/memory_mapped_io.c:113 | decoding the `n` bytes that encode `v` gives `v` modulo 2^(8n) |
| Bits.ToFromLE | ext/memory_mapped_io/memory_mapped_io.c:100 | encoding the value of a byte string gives back the byte string |
| UioDriver.ParseInteger | lib/mmapio/uio.rb:67-73 | a value is rejected, with `InvalidValue(value)`, exactly when it matches neither `0[xX]` plus hex digits nor decimal digits (its value when accepted: `ParsesHexSpelling`, `ParsesDecimalSpelling`) |
| UioDriver.IsHexLiteral | lib/mmapio/uio.rb:67 | the pattern `/^0[xX][0-9a-fA-F]+$/` on a break-free line; no string matching it matches the decimal pattern, so the order of the two tests does not matter |
| UioDriver.IsDecimalLiteral | lib/mmapio/uio.rb:70 | the pattern `/^[0-9]+$/` on a break-free line holds exactly for a non-empty string of digits below ten |
| UioDriver.DigitsValue | lib/mmapio/uio.rb:68-71 | the number `String#hex`/`to_i` read from a digit string: its last digit is the number modulo the base and the digits before it denote the quotient |
| UioDriver.LeadingZero | lib/mmapio/uio.rb:68-71 | one leading `0` does not change the value of a digit string |
| UioDriver.LeadingZeros | lib/mmapio/uio.rb:68-71 | any number of leading `0`s does not change the value of a digit string |
| UioDriver.SameDigitsValue | lib/mmapio/uio.rb:67-68 | the value of a digit string does not depend on the letter case of `a`-`f` |
| UioDriver.ParsesHexSpelling | lib/mmapio/uio.rb:67-68 | `0x` or `0X`, any leading zeros and the hex digits of `n` in any letter case parse as `n` |
| UioDriver.HexPrefixed | lib/mmapio/uio.rb:67-68 | `0x` or `0X` followed by a non-empty string of hex digits matches the hex pattern and is read as the value of those digits |
| UioDriver.ParsesDecimalSpelling | lib/mmapio/uio.rb:70-71 | any leading zeros and the decimal digits of `n` parse as `n` (not octal) |
| UioDriver.UpperCaseHex | lib/mmapio/uio.rb:67-68 | `0X1F` parses as 31 |
| UioDriver.ZeroPaddedHex | lib/mmapio/uio.rb:67-68 | `0x00FF` parses as 255 |
| UioDriver.ZeroPaddedDecimal | lib/mmapio/uio.rb:70-71 | `007` parses as 7 |
| UioDriver.ParsesDecimal | lib/mmapio/uio.rb:67-71 | a string of decimal digits takes the decimal branch (`to_i`, so leading zeros are not octal) |
| UioDriver.DigitsOfValue | lib/mmapio/uio.rb:68-71 | reading back the digits of `n` in any base from 2 to 16 gives `n` (the `hex`/`to_i` conversions) |
| UioDriver.DigitValue | lib/mmapio/uio.rb:67 | a hex digit's value is below 16, and below 10 exactly for decimal digits |
| UioDriver.DigitChar | lib/mmapio/uio.rb:67 | the digit character for `d` is a hex digit whose value is `d` |
| UioDriver.Gets | lib/mmapio/uio.rb:66 | `gets` returns nil exactly for an empty file |
| UioDriver.LineOf | lib/mmapio/uio.rb:66 | the line `gets` returns is a prefix of the file; for a non-empty file it is non-empty and is either the whole file or ends at a line break, with no line break before its last character |
| UioDriver.Chomp | lib/mmapio/uio.rb:66 | `chomp` removes exactly one trailing `"\r\n"`, `"\n"` or `"\r"`: the input is the result followed by one of those or nothing; it is unchanged exactly when it does not end in `\n` or `\r`; when it removes only `\n`, no `\r` was before it |
| UioDriver.ChompedLineHasNoBreak | lib/mmapio/uio.rb:66-70 | a chomped first line has no line break, so `^` and `$` anchor at its ends |
| UioDriver.LineOfTerminated | lib/mmapio/uio.rb:66 | the first line of a break-free string followed by a newline and anything else is the string and the newline |
| UioDriver.LineOfBreakFree | lib/mmapio/uio.rb:66 | a file without a line break is read whole by `gets` |
| UioDriver.ReadsLine | lib/mmapio/uio.rb:63-75 | a file whose first line (before its newline) is `value`, not ending in `\r`, parses exactly `value`, whatever follows |
| UioDriver.ReadsUnterminatedLine | lib/mmapio/uio.rb:63-75 | a file holding `value` with no newline at all, not ending in `\r`, parses exactly `value` |
| UioDriver.ReadClassInteger | lib/mmapio/uio.rb:63-75 | an empty file fails with the `gets`-returned-nil error, and only an empty file does; any other failure is `InvalidValue` of the chomped first line |
| UioDriver.ReadsDecimal | lib/mmapio/uio.rb:63-75 | a file whose first line holds `n` in decimal reads as `n` |
| UioDriver.ReadsHex | lib/mmapio/uio.rb:63-75 | a file whose first line holds `0x` and `n` in hexadecimal reads as `n` |
| UioDriver.MmapOffset | lib/mmapio/uio.rb:127 | `mmap_offset` is below the page size and is where `addr + offset` lies in its page |
| UioDriver.MmapSize | lib/mmapio/uio.rb:128 | `mmap_size` is a multiple of the page size, at least the map's size and less than one page more |
| UioDriver.MmapSizeIsLeast | lib/mmapio/uio.rb:128 | no smaller multiple of the page size holds the map |
| UioDriver.RegsWindow | lib/mmapio/uio.rb:139-147 | the window starts `mmap_offset + offset` into the mapping; without a length it ends at `mmap_size`; with a length it is returned unchanged exactly when `regs_offset + length <= mmap_size`, and otherwise the region range error carries index, offset and length |
| UioDriver.RegsWindowInsideMapping | lib/mmapio/uio.rb:139-146 | with a non-negative offset and length (and, without a length, an offset inside the mapping) the window lies inside the mapped pages |
| UioDriver.RegsWindowUnchecked | lib/mmapio/uio.rb:139-146 | only the window's end is checked: offset −16 with length 16 is accepted and starts before the mapping; offset 5000 with no length in a 4096-byte mapping gives length −904 |
| UioDriver.Uio.ReadMapInteger | lib/mmapio/uio.rb:77-87 | `get_map_addr`/`size`/`offset`: an attribute file that cannot be opened, and only that, gives `MissingAttribute`; an existing file is read by `read_class_integer` |
| UioDriver.Uio.GetMapInfo | lib/mmapio/uio.rb:89-94 | `get_map_info` succeeds exactly when all three attributes read; its fields are the three values; an error reading `addr` is reported first, then one reading `size`, then one reading `offset` |
| UioDriver.Uio.EntryFor | lib/mmapio/uio.rb:126-135 | the cached `memmap_info` keeps the mapped address and the map's `addr`; its size is the page-rounded map size (a page multiple, at least the size, less than a page more); its offset is below the page size and is where `addr + offset` lies in its page |
| UioDriver.MappingKeepsKeysMapped | lib/mmapio/uio.rb:129-137 | caching an index together with the `mmap` call for it keeps the cached indices equal to the mapped ones |
| UioDriver.MappingKeepsMappedOnce | lib/mmapio/uio.rb:117-137 | mapping only indices that are not cached maps no index twice |
| UioDriver.Uio.CachingNewMapKeepsInvariant | lib/mmapio/uio.rb:123-137 | caching a newly mapped index, and logging its `mmap` of `mmap_size` bytes at file offset `index * page_size`, keeps the cache invariant |
| UioDriver.Uio.constructor | lib/mmapio/uio.rb:47 | a new device has an empty cache and has mapped nothing |
| UioDriver.Uio.Regs | lib/mmapio/uio.rb:116-148 | keeps the cache invariant; a cached index reuses its entry and maps nothing; an uncached index whose attributes fail maps nothing and returns the error; otherwise the index is mapped once and cached (even when the range check then fails), and the result is the window over the new entry |
| UioDriver.RegsTwice | lib/mmapio/uio.rb:117-122 | two `regs` calls for the same index, offset and length map at most once and return the same result, whether a window, a range error or an attribute error |

## Left out

- The Ruby value conversions (`NUM2LONG`, `NUM2ULL`, `ULL2NUM`) and their range errors or wrap-around are not modelled. Offsets, data and sizes are given as machine integers.
- `rb_raise` is modelled as an error result, and the C function's `return -1`/`Qnil` afterwards is not observable.
- `Data_Wrap_Struct`, `Data_Get_Struct` and `mmapio_allocate` are modelled as one constructor.
- The host's byte order is fixed to little-endian.
- `volatile` semantics, hardware side effects of device registers and concurrent access are not modelled. Memory is an ordinary byte array.
- MappedIO.MemoryMappedIO.constructor: `addr + offset` is unbounded integer arithmetic, so pointer wrap-around is not modelled.
- `System.getpagesize`, `System.mmap` and the device file descriptor (`system.rb`) are not part of this model. The page size is a constant of the `Uio` object and the address `mmap` returns is a parameter of `Regs`. An `mmap` failure is not checked by the driver and not modelled.
- The sysfs files are a function from (index, field) to the file contents. `find_device_by_name`, `read_class_attribute`, `irq_on`, `irq_off` and `wait_irq` are file and device I/O and are left out.
- UioDriver.Uio.Regs returns the arguments of `MemoryMappedIO.new` (a `Window`) rather than constructing the object, so the conversion of a negative window length to `size_t` is not connected to `MemoryMappedIO`.
- UioDriver.ParseInteger: the regular expressions are modelled for a line without line breaks, which is what `gets` followed by `chomp` yields (proved by `ChompedLineHasNoBreak`). Characters outside ASCII are treated as non-digits.
