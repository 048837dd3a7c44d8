/**
 * The `MMapIO::MemoryMappedIO` extension: a window (`addr`, `size`) onto
 * mapped memory with bounds- and alignment-checked loads and stores of
 * 1, 2, 4 or 8 bytes. The C source generates one checker, one reader and one
 * writer per access type with macros; here each is one member taking the
 * access width as a parameter.
 */
module MappedIO {
  import opened Wrappers
  import opened Bits

  const TWO_63: int := 0x8000_0000_0000_0000
  const TWO_64: int := 0x1_0000_0000_0000_0000

  /** `uint64_t` (the data type of every read and write) and `size_t`. */
  newtype u64 = x: int | 0 <= x < 0x1_0000_0000_0000_0000

  /** `ptrdiff_t`, the type of offsets. */
  newtype i64 = x: int | -0x8000_0000_0000_0000 <= x < 0x8000_0000_0000_0000

  /** The four access types `uint8_t`, `uint16_t`, `uint32_t` and `uint64_t`. */
  datatype Width = UInt8 | UInt16 | UInt32 | UInt64 {
    /** `sizeof(type)` */
    function Bytes(): nat {
      match this
      case UInt8 => 1
      case UInt16 => 2
      case UInt32 => 4
      case UInt64 => 8
    }
  }

  /** One more than the largest value of the access type. */
  function Bound(w: Width): (b: nat)
    ensures b == Pow2(8 * w.Bytes()) && b <= TWO_64
  {
    match w
    case UInt8 => Pow2Of8(); 0x100
    case UInt16 => Pow2Of16(); 0x1_0000
    case UInt32 => Pow2Of32(); 0x1_0000_0000
    case UInt64 => Pow2Of64(); TWO_64
  }

  /** The two exceptions an access raises. */
  datatype AccessError =
    | OffsetExceedsRegion          // IndexError "Offset exceeds mapped region"
    | AlignmentViolated(w: Width)  // ArgumentError "Offset violates <type> alignment"

  /** `(ptrdiff_t)(this->size)`: the size reinterpreted as a two's-complement value. */
  function AsPtrdiff(size: u64): (s: i64)
    ensures (s as int) % TWO_64 == size as int
  {
    if size as int < TWO_63 then size as int as i64 else (size as int - TWO_64) as i64
  }

  /**
   * `mmapio_check_offset_<type>`: the range test on the start offset comes
   * first, the alignment test second. Only the first byte of the access is
   * tested against the size, so an accepted access may run up to `w.Bytes() - 1`
   * bytes past the end of the window. A size of 2^63 or more is negative once
   * cast to `ptrdiff_t`, so such a window rejects every offset.
   */
  function CheckOffset(size: u64, offset: i64, w: Width): (r: Outcome<AccessError>)
    ensures size as int < TWO_63 ==>
              (r == Fail(OffsetExceedsRegion) <==> offset < 0 || offset as int >= size as int)
    ensures size as int >= TWO_63 ==> r == Fail(OffsetExceedsRegion)
    ensures r == Fail(AlignmentViolated(w)) <==>
              0 <= offset as int < size as int < TWO_63 && offset as int % w.Bytes() != 0
    ensures r == Pass <==>
              0 <= offset as int < size as int < TWO_63 && offset as int % w.Bytes() == 0
  {
    if offset < 0 || offset >= AsPtrdiff(size) then Fail(OffsetExceedsRegion)
    else if offset as int % w.Bytes() != 0 then Fail(AlignmentViolated(w))
    else Pass
  }

  /**
   * The value of `~(type)0` in C. Integer promotion turns `uint8_t` and
   * `uint16_t` into `int` before `~`, so their complement is the `int` -1;
   * `uint32_t` and `uint64_t` are complemented in their own width.
   */
  function Complement(w: Width): int
  {
    match w
    case UInt8 => -1
    case UInt16 => -1
    case UInt32 => 0xFFFF_FFFF
    case UInt64 => TWO_64 - 1
  }

  /**
   * `(DATA_T)(~(type)0)`: the complement converted to `uint64_t`, that is,
   * reduced modulo 2^64. The promoted -1 becomes all 64 bits set, so only
   * the 32-bit mask is narrower than `DATA_T`; every mask has all bits of
   * the access type set.
   */
  function Mask(w: Width): (m: u64)
    ensures m as int % Bound(w) == Bound(w) - 1
    ensures w == UInt32 ==> m as int == Bound(UInt32) - 1
    ensures w != UInt32 ==> m as int == TWO_64 - 1
  {
    var m := Complement(w) % TWO_64;
    assert Bound(w) == Pow2(8 * w.Bytes());
    m as u64
  }

  /**
   * `(type)(_data & _mask)`: the value a write stores. The AND keeps the low
   * 64 or 32 bits, and the cast to the access type keeps the low `w.Bytes()`
   * bytes of that, so the stored value is the data modulo 2^(8 * w.Bytes()).
   */
  function Masked(data: u64, w: Width): (v: u64)
    ensures v as int == data as int % Bound(w)
    ensures data as int < Bound(w) ==> v == data
  {
    var bits := if w == UInt32 then 32 else 64;
    Pow2Of32();
    Pow2Of64();
    AllOnesValue(bits);
    assert Mask(w) as nat == AllOnes(bits);
    AndAllOnes(data as nat, bits);
    var anded := And(data as nat, Mask(w) as nat);
    ModOfSmaller(data as nat, Pow2(bits));
    ModOfSmaller(anded, Bound(w));
    ModOfSmaller(data as nat, Bound(w));
    var v := anded % Bound(w);
    v as u64
  }

  /**
   * For the promoted access types the AND is the identity on the data (all of
   * `DATA_T`'s bits are set), so only the cast to the access type truncates.
   */
  lemma AndIsIdentityWhenPromoted(data: u64, w: Width)
    requires w != UInt32
    ensures And(data as nat, Mask(w) as nat) == data as nat
  {
    Pow2Of64();
    AllOnesValue(64);
    AndAllOnes(data as nat, 64);
    ModOfSmaller(data as nat, Pow2(64));
  }

  /**
   * The value of one load of `w.Bytes()` bytes at address `at`, in the byte
   * order this model fixes for the host (little-endian), zero-extended.
   */
  function Load(m: seq<byte>, at: nat, w: Width): (v: u64)
    requires at + w.Bytes() <= |m|
    ensures v as int < Bound(w)
  {
    var bs := m[at .. at + w.Bytes()];
    assert Pow2(8 * |bs|) == Bound(w);
    FromLE(bs) as u64
  }

  /** The bytes a write of `data` at width `w` stores, least significant first. */
  function Encoded(data: u64, w: Width): (bs: seq<byte>)
    ensures |bs| == w.Bytes()
  {
    ToLE(Masked(data, w) as nat, w.Bytes())
  }

  /** The memory after one store of `w.Bytes()` bytes of `data & mask` at address `at`. */
  function Store(m: seq<byte>, at: nat, w: Width, data: u64): (m': seq<byte>)
    requires at + w.Bytes() <= |m|
    ensures |m'| == |m|
    ensures forall i :: 0 <= i < |m| && !(at <= i < at + w.Bytes()) ==> m'[i] == m[i]
  {
    m[..at] + Encoded(data, w) + m[at + w.Bytes()..]
  }

  /** Memory that holds the stored bytes in place and the old bytes elsewhere is the result of the store. */
  lemma StoreSpliced(m: seq<byte>, at: nat, w: Width, data: u64, m': seq<byte>)
    requires at + w.Bytes() <= |m| == |m'|
    requires forall i :: 0 <= i < |m| && !(at <= i < at + w.Bytes()) ==> m'[i] == m[i]
    requires forall i :: at <= i < at + w.Bytes() ==> m'[i] == Encoded(data, w)[i - at]
    ensures m' == Store(m, at, w, data)
  {
    var n, bs, s := w.Bytes(), Encoded(data, w), Store(m, at, w, data);
    forall i | 0 <= i < |m|
      ensures m'[i] == s[i]
    {
      if at <= i < at + n {
        assert s[i] == bs[i - at];
      }
    }
  }

  /** A load after a store at the same address and width returns the stored value masked to the width. */
  lemma LoadAfterStore(m: seq<byte>, at: nat, w: Width, data: u64)
    requires at + w.Bytes() <= |m|
    ensures Load(Store(m, at, w, data), at, w) == Masked(data, w)
    ensures data as int < Bound(w) ==> Load(Store(m, at, w, data), at, w) == data
  {
    var v := Masked(data, w) as nat;
    var m' := Store(m, at, w, data);
    var n := w.Bytes();
    assert m'[at .. at + n] == Encoded(data, w) == ToLE(v, n);
    FromToLE(v, n);
    ModOfSmaller(v, Pow2(8 * n));
    assert Load(m', at, w) as int == FromLE(ToLE(v, n)) == v;
  }

  /** A store leaves the bytes outside its own range as they were. */
  lemma StoreKeepsDisjointBytes(m: seq<byte>, at: nat, w: Width, data: u64, at2: nat, n2: nat)
    requires at + w.Bytes() <= |m| && at2 + n2 <= |m|
    requires at + w.Bytes() <= at2 || at2 + n2 <= at
    ensures Store(m, at, w, data)[at2 .. at2 + n2] == m[at2 .. at2 + n2]
  {
    var m' := Store(m, at, w, data);
    forall i | at2 <= i < at2 + n2
      ensures m'[i] == m[i]
    {
    }
  }

  /** A store leaves every load that does not overlap it unchanged. */
  lemma LoadAfterDisjointStore(m: seq<byte>, at: nat, w: Width, data: u64, at2: nat, w2: Width)
    requires at + w.Bytes() <= |m| && at2 + w2.Bytes() <= |m|
    requires at + w.Bytes() <= at2 || at2 + w2.Bytes() <= at
    ensures Load(Store(m, at, w, data), at2, w2) == Load(m, at2, w2)
  {
    StoreKeepsDisjointBytes(m, at, w, data, at2, w2.Bytes());
  }

  /** Storing back the value just loaded leaves memory as it was. */
  lemma StoreOfLoad(m: seq<byte>, at: nat, w: Width)
    requires at + w.Bytes() <= |m|
    ensures Store(m, at, w, Load(m, at, w)) == m
  {
    var bs := m[at .. at + w.Bytes()];
    ToFromLE(bs);
    assert m == m[..at] + bs + m[at + w.Bytes()..];
  }

  /** A second store to the same address and width replaces the first entirely. */
  lemma StoreOverStore(m: seq<byte>, at: nat, w: Width, first: u64, second: u64)
    requires at + w.Bytes() <= |m|
    ensures Store(Store(m, at, w, first), at, w, second) == Store(m, at, w, second)
  {
    var m1 := Store(m, at, w, first);
    assert m1[..at] == m[..at];
    assert m1[at + w.Bytes()..] == m[at + w.Bytes()..];
  }

  /** An `MMapIO::MemoryMappedIO` object: the C struct `mmapio_object`. */
  class MemoryMappedIO {
    /** The address space the window points into: the byte at address `a` is `mem[a]`. */
    const mem: array<byte>
    /** `this->addr` */
    var addr: int
    /** `this->size` */
    var size: u64

    /** `mmapio_allocate` then `mmapio_initialize`: stores `addr + offset` and `size`, validating neither. */
    constructor (mem: array<byte>, addr: int, offset: i64, size: u64)
      ensures this.mem == mem && this.addr == addr + offset as int && this.size == size
    {
      this.mem := mem;
      this.addr := addr + offset as int;
      this.size := size;
    }

    /** The bytes an access of width `w` at `offset` touches exist in the address space. */
    predicate Mapped(offset: i64, w: Width)
      reads this
    {
      0 <= addr + offset as int && addr + offset as int + w.Bytes() <= mem.Length
    }

    /**
     * Validation checks only the first byte of an access, so a window followed
     * by 7 bytes of the address space (the widest access less one) is enough
     * for every access it accepts.
     */
    lemma SlackSuffices(offset: i64, w: Width)
      requires 0 <= addr && addr + size as int + 7 <= mem.Length
      requires CheckOffset(size, offset, w) == Pass
      ensures Mapped(offset, w)
    {
    }

    /**
     * `mmapio_read_<type>`: validates, then loads exactly `w.Bytes()` bytes.
     * Only an access that validation accepts touches memory, so only that
     * access needs its bytes to exist.
     */
    method Read(offset: i64, w: Width) returns (r: Result<u64, AccessError>)
      requires CheckOffset(size, offset, w) == Pass ==> Mapped(offset, w)
      ensures CheckOffset(size, offset, w) == Pass ==>
                r == Success(Load(mem[..], addr + offset as int, w))
      ensures CheckOffset(size, offset, w).Fail? ==>
                r == Failure(CheckOffset(size, offset, w).error)
    {
      var check := CheckOffset(size, offset, w);
      if check.Fail? {
        return Failure(check.error);
      }
      r := Success(Load(mem[..], addr + offset as int, w));
    }

    /**
     * `mmapio_write_<type>`: validates, then stores `data & mask` into exactly
     * `w.Bytes()` bytes. A rejected write leaves memory untouched.
     */
    method Write(offset: i64, data: u64, w: Width) returns (r: Outcome<AccessError>)
      requires CheckOffset(size, offset, w) == Pass ==> Mapped(offset, w)
      modifies mem
      ensures r == CheckOffset(size, offset, w)
      ensures r == Pass ==> mem[..] == Store(old(mem[..]), addr + offset as int, w, data)
      ensures r != Pass ==> mem[..] == old(mem[..])
    {
      r := CheckOffset(size, offset, w);
      if r == Pass {
        var at, n := addr + offset as int, w.Bytes();
        var bytes := Encoded(data, w);
        forall i | at <= i < at + n {
          mem[i] := bytes[i - at];
        }
        StoreSpliced(old(mem[..]), at, w, data, mem[..]);
      }
    }
  }

  /** Validation tests only the first byte: an aligned access may overrun the window's end. */
  lemma OverrunAccepted()
    ensures CheckOffset(10, 8, UInt64) == Pass
    ensures CheckOffset(16, 15, UInt8) == Pass
    ensures CheckOffset(16, 15, UInt16) == Fail(AlignmentViolated(UInt16))
    ensures CheckOffset(16, -1, UInt64) == Fail(OffsetExceedsRegion)
    ensures CheckOffset(16, 16, UInt8) == Fail(OffsetExceedsRegion)
    ensures CheckOffset(16, 2, UInt32) == Fail(AlignmentViolated(UInt32))
  {
  }

  /** The C functions `Init_memory_mapped_io` binds to Ruby method names. */
  datatype NativeFunction = Initialize | ReadFn(w: Width) | WriteFn(w: Width)

  /** The two naming schemes: `byte`/`half`/`word`/`quad`, and `uint8` … `uint64`. */
  datatype Scheme = Sized | Typed

  /** The Ruby method names the extension defines. */
  datatype MethodName = InitializeName | ReadName(s: Scheme, w: Width) | WriteName(s: Scheme, w: Width)

  /** The Ruby spelling of a method name. */
  function Spelling(n: MethodName): string {
    match n
    case InitializeName => "initialize"
    case ReadName(s, w) => "read_" + Suffix(s, w)
    case WriteName(s, w) => "write_" + Suffix(s, w)
  }

  function Suffix(s: Scheme, w: Width): string {
    match (s, w)
    case (Sized, UInt8) => "byte"
    case (Sized, UInt16) => "half"
    case (Sized, UInt32) => "word"
    case (Sized, UInt64) => "quad"
    case (Typed, UInt8) => "uint8"
    case (Typed, UInt16) => "uint16"
    case (Typed, UInt32) => "uint32"
    case (Typed, UInt64) => "uint64"
  }

  /** Distinct method names have distinct Ruby spellings, so the table keyed by names is the table keyed by strings. */
  lemma SpellingInjective(a: MethodName, b: MethodName)
    requires Spelling(a) == Spelling(b)
    ensures a == b
  {
    if a.InitializeName? || b.InitializeName? || a.ReadName? != b.ReadName? {
      assert Spelling(a)[0] == Spelling(b)[0];
    } else {
      var pre := if a.ReadName? then |"read_"| else |"write_"|;
      assert Suffix(a.s, a.w) == Spelling(a)[pre..] == Spelling(b)[pre..] == Suffix(b.s, b.w);
    }
  }

  /** What a method name is bound to: the C function and the number of arguments it takes. */
  datatype Binding = Binding(fn: NativeFunction, arity: nat)

  /**
   * `Init_memory_mapped_io`: defines every method of the class, one
   * `rb_define_method` call after another. Both naming schemes bind to the
   * same C function for every width; readers take one argument (the offset),
   * writers two (the offset and the data).
   */
  method InitMemoryMappedIO() returns (methods: map<MethodName, Binding>)
    ensures InitializeName in methods && methods[InitializeName] == Binding(Initialize, 3)
    ensures forall s, w :: ReadName(s, w) in methods && methods[ReadName(s, w)] == Binding(ReadFn(w), 1)
    ensures forall s, w :: WriteName(s, w) in methods && methods[WriteName(s, w)] == Binding(WriteFn(w), 2)
  {
    methods := map[];
    methods := methods[InitializeName := Binding(Initialize, 3)];
    methods := methods[ReadName(Sized, UInt8) := Binding(ReadFn(UInt8), 1)];
    methods := methods[ReadName(Sized, UInt16) := Binding(ReadFn(UInt16), 1)];
    methods := methods[ReadName(Sized, UInt32) := Binding(ReadFn(UInt32), 1)];
    methods := methods[ReadName(Sized, UInt64) := Binding(ReadFn(UInt64), 1)];
    methods := methods[ReadName(Typed, UInt8) := Binding(ReadFn(UInt8), 1)];
    methods := methods[ReadName(Typed, UInt16) := Binding(ReadFn(UInt16), 1)];
    methods := methods[ReadName(Typed, UInt32) := Binding(ReadFn(UInt32), 1)];
    methods := methods[ReadName(Typed, UInt64) := Binding(ReadFn(UInt64), 1)];
    methods := methods[WriteName(Sized, UInt8) := Binding(WriteFn(UInt8), 2)];
    methods := methods[WriteName(Sized, UInt16) := Binding(WriteFn(UInt16), 2)];
    methods := methods[WriteName(Sized, UInt32) := Binding(WriteFn(UInt32), 2)];
    methods := methods[WriteName(Sized, UInt64) := Binding(WriteFn(UInt64), 2)];
    methods := methods[WriteName(Typed, UInt8) := Binding(WriteFn(UInt8), 2)];
    methods := methods[WriteName(Typed, UInt16) := Binding(WriteFn(UInt16), 2)];
    methods := methods[WriteName(Typed, UInt32) := Binding(WriteFn(UInt32), 2)];
    methods := methods[WriteName(Typed, UInt64) := Binding(WriteFn(UInt64), 2)];
    forall s: Scheme, w: Width
      ensures ReadName(s, w) in methods && methods[ReadName(s, w)] == Binding(ReadFn(w), 1)
      ensures WriteName(s, w) in methods && methods[WriteName(s, w)] == Binding(WriteFn(w), 2)
    {
      assert s == Sized || s == Typed;
      assert w == UInt8 || w == UInt16 || w == UInt32 || w == UInt64;
    }
  }

  /** A 16-bit store reads back only the low 16 bits of its data, wherever the window lies. */
  lemma HalfOfOverwide(m: seq<byte>, at: nat, data: u64)
    requires at + 2 <= |m| && data as int % 0x1_0000 == 0xFFFF
    ensures Load(Store(m, at, UInt16, data), at, UInt16) == 0xFFFF
  {
    LoadAfterStore(m, at, UInt16, data);
    assert Bound(UInt16) == 0x1_0000;
  }

  /** `write_half(4, 0x1FFFF)` then `read_half(4)` on a 16-byte window: the high bits are dropped. */
  method TruncatingRoundTrip()
  {
    var data: u64 := 0x1_FFFF;
    assert data as int % 0x1_0000 == 0xFFFF;
    var mem := new byte[23];
    var io := new MemoryMappedIO(mem, 0, 0, 16);
    assert CheckOffset(16, 4, UInt16) == Pass;
    ghost var before := mem[..];
    var w := io.Write(4, data, UInt16);
    HalfOfOverwide(before, 4, data);
    var r := io.Read(4, UInt16);
    assert r == Success(0xFFFF);
  }

  /** `write_quad(-1, 0)` is out of range and leaves memory as it was. */
  method RejectedWrite()
  {
    var mem := new byte[23];
    var io := new MemoryMappedIO(mem, 0, 0, 16);
    ghost var before := mem[..];
    var w := io.Write(-1, 0, UInt64);
    assert w == Fail(OffsetExceedsRegion) && mem[..] == before;
  }

  /** `read_quad(8)` on a 12-byte window is accepted and reads 4 bytes past the window's end. */
  method OverrunningRead()
  {
    var mem := new byte[16];
    var io := new MemoryMappedIO(mem, 0, 0, 12);
    var r := io.Read(8, UInt64);
    assert r.Success?;
  }
}
