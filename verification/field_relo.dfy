/** Relocations of field accesses (eBPF_app/libbpf/src/libbpf.c) and the macro
    that reads a bitfield with their help (bpf_core_read.h), little-endian. */
module FieldRelo {
  import opened Options
  import opened Results
  import opened Words

  datatype Kind = ByteOffset | ByteSize | Exists | Signed | LShiftU64 | RShiftU64

  /** What a relocation is about: an array element, or a member of a struct or
      union. `resolved` is the size of the accessed type, if it has one;
      `wordAfter` is the INT_SIGNED bit of the word behind the type's record,
      which is the integer's encoding when the type is an integer. */
  datatype Access =
    | Element(bitOffset: nat, resolved: Option<nat>)
    | Member(bitOffset: nat, resolved: Option<nat>, bitfieldSize: nat, baseSize: nat, isEnum: bool, wordAfter: bool)

  /** `size` bytes from `offset` on. */
  datatype Window = Window(size: nat, offset: nat)

  predicate LoadSize(size: nat) {
    size == 1 || size == 2 || size == 4 || size == 8
  }

  /** What the source takes for granted: 32-bit offsets and sizes, in bits, and
      bitfields whose declared type has a size, by which it divides. */
  predicate WellFormed(a: Access) {
    && a.bitOffset < U32
    && (a.resolved.Some? ==> a.resolved.value < U32 / 8)
    && (a.Member? ==> a.bitfieldSize < 256 && (a.bitfieldSize > 0 ==> 0 < a.baseSize < U32 / 16))
  }

  predicate Contains(w: Window, bitOff: nat, bitSz: nat) {
    w.offset * 8 <= bitOff && bitOff + bitSz <= (w.offset + w.size) * 8
  }

  predicate Aligned(w: Window) {
    w.size > 0 && w.offset % w.size == 0
  }

  /** x / size * size */
  function AlignDown(x: nat, size: nat): (y: nat)
    requires size > 0
    ensures y % size == 0 && y <= x < y + size && y / size == x / size
  {
    ModIs(x / size * size, x / size, 0, size);
    x / size * size
  }

  /** The aligned window of a size that holds a bit. */
  function WindowAt(bitOff: nat, size: nat): (w: Window)
    requires size > 0
    ensures Aligned(w) && w.size == size
    ensures w.offset * 8 <= bitOff < (w.offset + size) * 8
  {
    Window(size, AlignDown(bitOff / 8, size))
  }

  /** The only aligned window of its size that can hold the field is the one with its first bit. */
  lemma AlignedWindowIsUnique(w: Window, bitOff: nat, bitSz: nat)
    requires Aligned(w) && Contains(w, bitOff, bitSz) && bitSz > 0
    ensures w == WindowAt(bitOff, w.size)
  {
    ModIs(bitOff / 8, w.offset / w.size, bitOff / 8 - w.offset, w.size);
  }

  /** A window that holds a field is inside one of twice the size. */
  lemma WiderWindowContains(bitOff: nat, bitSz: nat, size: nat)
    requires size > 0 && Contains(WindowAt(bitOff, size), bitOff, bitSz)
    ensures Contains(WindowAt(bitOff, 2 * size), bitOff, bitSz)
  {
    var q, q2 := bitOff / 8 / size, bitOff / 8 / (2 * size);
    assert bitOff / 8 == q2 * (2 * size) + (bitOff / 8) % (2 * size);
    assert bitOff / 8 == q * size + (bitOff / 8) % size;
    assert q2 * (2 * size) == (2 * q2) * size;
    var r := (bitOff / 8) % (2 * size);
    if r < size {
      ModIs(bitOff / 8, 2 * q2, r, size);
    } else {
      assert (2 * q2 + 1) * size == 2 * q2 * size + size;
      ModIs(bitOff / 8, 2 * q2 + 1, r - size, size);
    }
  }

  /** The sizes that are tried, from the declared one up: it is doubled until it is 8 or more. */
  predicate Tried(base: nat, size: nat)
    requires base > 0
    decreases 8 - base
  {
    size == base || (base < 8 && Tried(2 * base, size))
  }

  function LastSize(base: nat): (last: nat)
    requires base > 0
    ensures last >= 8 && last >= base && (LoadSize(base) ==> last == 8)
    decreases 8 - base
  {
    if base < 8 then LastSize(2 * base) else base
  }

  lemma {:induction false} TriedOn(base: nat, size: nat)
    requires base > 0 && Tried(base, size)
    ensures base <= size && LastSize(size) == LastSize(base) && (LoadSize(base) ==> LoadSize(size))
    ensures size < 8 ==> Tried(base, 2 * size)
    ensures size == base || 2 * base <= size
    ensures size >= 16 ==> size == base
    decreases 8 - base
  {
    if size != base {
      TriedOn(2 * base, size);
    }
  }

  /** From the size of a load the larger loads are tried. */
  lemma {:induction false} TriedLoads(base: nat, size: nat)
    requires LoadSize(base)
    ensures Tried(base, size) <==> LoadSize(size) && base <= size
    decreases 8 - base
  {
    if base < 8 {
      TriedLoads(2 * base, size);
    }
  }

  lemma {:induction false} NoneBetween(base: nat, size: nat, other: nat)
    requires base > 0 && Tried(base, size) && Tried(base, other) && size < other
    ensures 2 * size <= other
    decreases 8 - base
  {
    TriedOn(base, other);
    if size != base {
      TriedOn(2 * base, size);
      NoneBetween(2 * base, size, other);
    }
  }

  lemma {:induction false} WidestWindowContains(bitOff: nat, bitSz: nat, size: nat)
    requires size > 0 && Contains(WindowAt(bitOff, size), bitOff, bitSz)
    ensures Contains(WindowAt(bitOff, LastSize(size)), bitOff, bitSz)
    decreases 8 - size
  {
    if size < 8 {
      WiderWindowContains(bitOff, bitSz, size);
      WidestWindowContains(bitOff, bitSz, 2 * size);
    }
  }

  /** Some aligned load of this size holds the field. */
  ghost predicate Loadable(bitOff: nat, bitSz: nat, size: nat) {
    exists w: Window :: w.size == size && Aligned(w) && Contains(w, bitOff, bitSz)
  }

  lemma LoadableIs(bitOff: nat, bitSz: nat, size: nat)
    requires bitSz > 0 && size > 0
    ensures Loadable(bitOff, bitSz, size) <==> Contains(WindowAt(bitOff, size), bitOff, bitSz)
  {
    if w: Window :| w.size == size && Aligned(w) && Contains(w, bitOff, bitSz) {
      AlignedWindowIsUnique(w, bitOff, bitSz);
    }
  }

  /** The end of the field within its window, computed in 32 bits. */
  function EndInWindow(bitOff: nat, bitSz: nat, byteOff: nat): (end: nat)
    requires byteOff * 8 < U32
  {
    ((bitOff + bitSz) % U32 + U32 - byteOff * 8) % U32
  }

  /** No carry is lost: the sums wrap and wrap back. */
  lemma EndInWindowIs(bitOff: nat, bitSz: nat, byteOff: nat)
    requires byteOff * 8 <= bitOff < U32 && bitOff - byteOff * 8 + bitSz < U32
    ensures EndInWindow(bitOff, bitSz, byteOff) == bitOff - byteOff * 8 + bitSz
  {
  }

  /** No size tried below this one will do. */
  ghost predicate NoSmaller(bitOff: nat, bitSz: nat, base: nat, size: nat)
    requires base > 0
  {
    forall s: nat :: Tried(base, s) && s < size ==> !Loadable(bitOff, bitSz, s)
  }

  lemma NoneBelowBase(bitOff: nat, bitSz: nat, base: nat)
    requires base > 0
    ensures Tried(base, base) && NoSmaller(bitOff, bitSz, base, base)
  {
    forall s: nat | Tried(base, s)
      ensures base <= s
    {
      TriedOn(base, s);
    }
  }

  lemma NextTried(bitOff: nat, bitSz: nat, base: nat, size: nat)
    requires base > 0 && Tried(base, size) && size < 8 && NoSmaller(bitOff, bitSz, base, size)
    requires !Loadable(bitOff, bitSz, size)
    ensures Tried(base, 2 * size) && NoSmaller(bitOff, bitSz, base, 2 * size)
  {
    TriedOn(base, size);
    forall s: nat | Tried(base, s) && s < 2 * size
      ensures !Loadable(bitOff, bitSz, s)
    {
      if size < s {
        NoneBetween(base, size, s);
      }
    }
  }

  /** The loop that finds the smallest load for a bitfield, from the declared size
      on. It gives up exactly when the last size will not do: 8 bytes, if the
      declared size is that of a load. */
  method FindWindow(bitOff: nat, bitSz: nat, baseSize: nat) returns (w: Result<Window>)
    requires bitOff < U32 && 0 < bitSz < 256 && 0 < baseSize < U32 / 16
    ensures !w.Invalid? && (w.TooBig? <==> !Loadable(bitOff, bitSz, LastSize(baseSize)))
    ensures w.Ok? ==> Tried(baseSize, w.value.size) && Aligned(w.value) && Contains(w.value, bitOff, bitSz)
    ensures w.Ok? ==> NoSmaller(bitOff, bitSz, baseSize, w.value.size)
  {
    hide AlignDown, Loadable, EndInWindow, Tried, NoSmaller;
    var byteSz: nat := baseSize;
    var byteOff: nat := AlignDown(bitOff / 8, byteSz);
    EndInWindowIs(bitOff, bitSz, byteOff);
    NoneBelowBase(bitOff, bitSz, baseSize);
    while EndInWindow(bitOff, bitSz, byteOff) > byteSz * 8
      invariant 0 < byteSz && Tried(baseSize, byteSz) && Window(byteSz, byteOff) == WindowAt(bitOff, byteSz)
      invariant EndInWindow(bitOff, bitSz, byteOff) == bitOff - byteOff * 8 + bitSz
      invariant NoSmaller(bitOff, bitSz, baseSize, byteSz)
      decreases 8 - byteSz
    {
      LoadableIs(bitOff, bitSz, byteSz);
      TriedOn(baseSize, byteSz);
      if byteSz >= 8 {
        return TooBig;
      }
      NextTried(bitOff, bitSz, baseSize, byteSz);
      byteSz := byteSz * 2;
      byteOff := AlignDown(bitOff / 8, byteSz);
      EndInWindowIs(bitOff, bitSz, byteOff);
    }
    TriedOn(baseSize, byteSz);
    WidestWindowContains(bitOff, bitSz, byteSz);
    LoadableIs(bitOff, bitSz, LastSize(baseSize));
    w := Ok(Window(byteSz, byteOff));
  }

  function BitSize(a: Access): nat
    requires a.Member? && (a.bitfieldSize == 0 ==> a.resolved.Some?)
  {
    if a.bitfieldSize > 0 then a.bitfieldSize else a.resolved.value * 8
  }

  /** The load for a member: the smallest aligned one for a bitfield, else the member itself. */
  ghost predicate IsWindow(w: Window, a: Access)
    requires WellFormed(a) && a.Member?
  {
    if a.bitfieldSize > 0 then
      && Tried(a.baseSize, w.size) && Aligned(w) && Contains(w, a.bitOffset, a.bitfieldSize)
      && NoSmaller(a.bitOffset, a.bitfieldSize, a.baseSize, w.size)
    else
      a.resolved.Some? && w == Window(a.resolved.value, a.bitOffset / 8)
  }

  lemma WindowIsUnique(v: Window, w: Window, a: Access)
    requires WellFormed(a) && a.Member? && IsWindow(v, a) && IsWindow(w, a)
    ensures v == w
  {
    if a.bitfieldSize > 0 {
      AlignedWindowIsUnique(v, a.bitOffset, a.bitfieldSize);
      AlignedWindowIsUnique(w, a.bitOffset, a.bitfieldSize);
      assert v.size < w.size ==> Loadable(a.bitOffset, a.bitfieldSize, v.size);
      assert w.size < v.size ==> Loadable(a.bitOffset, a.bitfieldSize, w.size);
    }
  }

  /** No relocation can be computed for the member. */
  ghost predicate NoWindow(a: Access, e: Result<nat>)
    requires WellFormed(a) && a.Member?
  {
    if a.bitfieldSize > 0 then e == TooBig && !Loadable(a.bitOffset, a.bitfieldSize, LastSize(a.baseSize))
    else e == Invalid && a.resolved == None
  }

  /** The value of a relocation, given the member's load. */
  function ValueFor(kind: Kind, a: Access, w: Window): (val: Result<nat>)
    requires a.Member? && (a.bitfieldSize == 0 ==> a.resolved.Some?) && w.offset * 8 < U32
  {
    match kind
    case ByteOffset => Ok(w.offset)
    case ByteSize => Ok(w.size)
    case Signed => Ok(if a.isEnum || a.wordAfter then 1 else 0)
    case LShiftU64 => Ok((U32 + 64 - EndInWindow(a.bitOffset, BitSize(a), w.offset)) % U32)
    case RShiftU64 => Ok((U32 + 64 - BitSize(a) % U32) % U32)
    case Exists => Invalid
  }

  /** The load that all relocations of a member are about. */
  method FindLoad(a: Access) returns (w: Result<Window>)
    requires WellFormed(a) && a.Member?
    ensures w.Ok? ==>
              && IsWindow(w.value, a) && w.value.offset * 8 <= a.bitOffset
              && (a.bitfieldSize == 0 ==> a.resolved == Some(w.value.size))
    ensures w.TooBig? ==> NoWindow(a, TooBig)
    ensures w.Invalid? ==> NoWindow(a, Invalid)
  {
    if a.bitfieldSize > 0 {
      w := FindWindow(a.bitOffset, a.bitfieldSize, a.baseSize);
      if w.Ok? {
        WindowStart(w.value, a);
      }
    } else if a.resolved == None {
      w := Invalid;
    } else {
      w := Ok(Window(a.resolved.value, a.bitOffset / 8));
    }
  }

  /** bpf_core_calc_field_relo. `validate` says whether the value the compiler
      put into the instruction is to be checked. */
  method CalcFieldRelo(kind: Kind, a: Access) returns (val: Result<nat>, validate: bool)
    requires WellFormed(a)
    ensures a.Element? ==>
              val == match kind
                     case ByteOffset => Ok(a.bitOffset / 8)
                     case ByteSize => if a.resolved.Some? then Ok(a.resolved.value) else Invalid
                     case _ => Invalid
    ensures a.Member? ==>
              NoWindow(a, val) || exists w: Window ::
                IsWindow(w, a) && w.offset * 8 <= a.bitOffset && val == ValueFor(kind, a, w)
    ensures val.Ok? ==> (validate <==> a.Element? || a.bitfieldSize == 0 || kind == Signed || kind == RShiftU64)
  {
    hide EndInWindow, IsWindow, NoWindow;
    validate := false;
    match a
    case Element(bitOffset, resolved) =>
      if kind == ByteOffset {
        val := Ok(bitOffset / 8);
      } else if kind == ByteSize {
        if resolved == None {
          return Invalid, false;
        }
        val := Ok(resolved.value);
      } else {
        return Invalid, false;
      }
      validate := true;
    case Member(bitOff, resolved, bitfieldSize, baseSize, isEnum, wordAfter) =>
      var load := FindLoad(a);
      if load.TooBig? {
        return TooBig, false;
      } else if load.Invalid? {
        return Invalid, false;
      }
      var w := load.value;
      var bitSz := if bitfieldSize > 0 then bitfieldSize else w.size * 8;
      validate := bitfieldSize == 0;
      match kind
      case ByteOffset =>
        val := Ok(w.offset);
      case ByteSize =>
        val := Ok(w.size);
      case Signed =>
        val := Ok(if isEnum || wordAfter then 1 else 0);
        validate := true;
      case LShiftU64 =>
        val := Ok((U32 + 64 - EndInWindow(bitOff, bitSz, w.offset)) % U32);
      case RShiftU64 =>
        val := Ok((U32 + 64 - bitSz) % U32);
        validate := true;
      case Exists =>
        val := Invalid;
  }

  lemma WindowStart(w: Window, a: Access)
    requires WellFormed(a) && a.Member? && IsWindow(w, a)
    ensures w.offset * 8 <= a.bitOffset
  {
  }

  /* What lies in memory. */

  type Memory = nat -> Byte

  /** One bit of memory, counted from the lowest bit of the first byte. */
  function Bit(mem: Memory, i: nat): (b: nat)
    ensures b < 2
  {
    (mem(i / 8) as nat / Pow2(i % 8)) % 2
  }

  /** `n` bits of memory from bit `from` on, as an unsigned number. */
  function Bits(mem: Memory, from: nat, n: nat): (v: nat)
    ensures v < Pow2(n)
    decreases n
  {
    if n == 0 then 0 else Bit(mem, from) + 2 * Bits(mem, from + 1, n - 1)
  }

  lemma BitsStep(mem: Memory, from: nat, n: nat)
    requires n > 0
    ensures Bits(mem, from, n) == Bit(mem, from) + 2 * Bits(mem, from + 1, n - 1)
    ensures Pow2(n) == 2 * Pow2(n - 1)
  {
  }

  lemma NoBits(mem: Memory, from: nat)
    ensures Bits(mem, from, 0) == 0 && Pow2(0) == 1
  {
  }

  lemma {:induction false} BitsSplit(mem: Memory, from: nat, m: nat, n: nat)
    ensures Bits(mem, from, m + n) == Bits(mem, from, m) + Pow2(m) * Bits(mem, from + m, n)
    decreases m
  {
    hide Bits, Pow2, Bit;
    if m == 0 {
      NoBits(mem, from);
    } else {
      BitsStep(mem, from, m);
      BitsStep(mem, from, m + n);
      BitsSplit(mem, from + 1, m - 1, n);
      assert from + 1 + (m - 1) == from + m;
      MulAssoc(2, Pow2(m - 1), Bits(mem, from + m, n));
    }
  }

  lemma BitInByte(mem: Memory, at: nat, i: nat)
    requires i < 8
    ensures Bit(mem, at * 8 + i) == (mem(at) as nat / Pow2(i)) % 2
  {
    assert (at * 8 + i) / 8 == at && (at * 8 + i) % 8 == i;
  }

  /** Some bits of one byte. */
  lemma {:induction false} BitsOfByte(mem: Memory, at: nat, i: nat, n: nat)
    requires i + n <= 8
    ensures Bits(mem, at * 8 + i, n) == (mem(at) as nat / Pow2(i)) % Pow2(n)
    decreases n
  {
    hide Bits, Pow2, Bit;
    if n == 0 {
      NoBits(mem, at * 8 + i);
    } else {
      BitsStep(mem, at * 8 + i, n);
      Pow2Double(i);
      BitInByte(mem, at, i);
      BitsOfByte(mem, at, i + 1, n - 1);
      DivDiv(mem(at) as nat, Pow2(i), 2);
      ModHalf(mem(at) as nat / Pow2(i), Pow2(n - 1));
    }
  }

  lemma Pow2Double(i: nat)
    ensures Pow2(i + 1) == Pow2(i) * 2
  {
  }

  lemma DivDiv(x: nat, m: nat, n: nat)
    requires m > 0 && n > 0
    ensures x / (m * n) == x / m / n
  {
    var q := x / m / n;
    var r := x / m % n;
    assert x == (q * n + r) * m + x % m;
    assert (q * n + r) * m == q * (m * n) + r * m;
    assert r * m + x % m < n * m by {
      assert r * m <= (n - 1) * m;
      assert (n - 1) * m == n * m - m;
    }
    ModIs(x, q, r * m + x % m, m * n);
  }

  lemma ByteIsBits(mem: Memory, at: nat)
    ensures mem(at) as nat == Bits(mem, at * 8, 8) && Pow2(8) == 256
  {
    hide Bits, Bit;
    assert Pow2(0) == 1 && Pow2(8) == 256;
    BitsOfByte(mem, at, 0, 8);
    assert at * 8 + 0 == at * 8;
  }

  /** A little-endian load. */
  function Load(mem: Memory, at: nat, size: nat): (v: nat)
    decreases size
  {
    if size == 0 then 0 else mem(at) as nat + 256 * Load(mem, at + 1, size - 1)
  }

  lemma {:induction false} LoadIsBits(mem: Memory, at: nat, size: nat)
    ensures Load(mem, at, size) == Bits(mem, at * 8, size * 8)
    decreases size
  {
    hide Bits, Bit;
    if size == 0 {
      NoBits(mem, at * 8);
    } else {
      LoadIsBits(mem, at + 1, size - 1);
      ByteIsBits(mem, at);
      assert (at + 1) * 8 == at * 8 + 8 && (size - 1) * 8 + 8 == size * 8;
      BitsSplit(mem, at * 8, 8, (size - 1) * 8);
    }
  }

  /* Reading a field. */

  /** val <<= n, on an unsigned 64-bit word. */
  function ShiftLeft(val: nat, n: nat): (r: nat)
    ensures r < U64
  {
    val * Pow2(n) % U64
  }

  /** (long long)val >> n: the sign is shifted in. */
  function ShiftRightSigned(val: nat, n: nat): (r: nat)
    requires n < 64 && val < U64
  {
    (if val < U64 / 2 then val / Pow2(n) else (val - U64) / Pow2(n)) % U64
  }

  /** An n-bit number as a 64-bit two's complement word. */
  function SignExtended(v: nat, n: nat): (r: nat)
    requires 0 < n <= 64 && v < Pow2(n)
  {
    if v < Pow2(n - 1) then v else (U64 + v - Pow2(n)) % U64
  }

  /** A word with a field above `low`, in units of q, and `high` above that, in units of q * u. */
  function Word(low: nat, q: nat, field: nat, u: nat, high: nat): (w: nat) {
    low + q * (field + u * high)
  }

  /** A shift left drops what is above the field. */
  lemma ShiftDropsHigh(low: nat, field: nat, high: nat, a: nat, s: nat)
    requires a + s <= 64 && low < Pow2(a) && field < Pow2(s)
    ensures var p, r := Pow2(64 - (a + s)), Pow2(64 - s);
            && ShiftLeft(Word(low, Pow2(a), field, Pow2(s), high), 64 - (a + s)) == low * p + field * r < U64
            && low * p < r
  {
    WordParts(a, s);
    hide Pow2, Word;
    ShiftedWord(low, field, high, Pow2(64 - (a + s)), Pow2(a), Pow2(s), Pow2(64 - s), U64);
  }

  /** A word is 2 to the s times the rest, and the rest 2 to the a times what is left. */
  lemma WordParts(a: nat, s: nat)
    requires a + s <= 64
    ensures Pow2(64 - s) == Pow2(a) * Pow2(64 - (a + s)) && U64 == Pow2(s) * Pow2(64 - s)
  {
    Pow2U64();
    hide Pow2;
    Pow2Sum(a, 64 - (a + s));
    Pow2Sum(s, 64 - s);
  }

  lemma ShiftedWord(low: nat, field: nat, high: nat, p: nat, q: nat, u: nat, t: nat, n: nat)
    requires low < q && field < u && p > 0 && t == q * p && n == u * t
    ensures n > 0 && Word(low, q, field, u, high) * p % n == low * p + field * t < n
    ensures low * p < t
  {
    ShiftedParts(low, field, high, p, q, u);
    ModIs((low + q * (field + u * high)) * p, high, low * p + field * t, n);
  }

  lemma ShiftedParts(low: nat, field: nat, high: nat, p: nat, q: nat, u: nat)
    requires low < q && field < u && p > 0
    ensures (low + q * (field + u * high)) * p == high * (u * (q * p)) + (low * p + field * (q * p))
    ensures low * p < q * p && low * p + field * (q * p) < u * (q * p)
  {
    var t := q * p;
    MulAdd(low, q * (field + u * high), p);
    MulAssoc(q, field + u * high, p);
    MulAssoc(q, p, field + u * high);
    assert q * (field + u * high) * p == t * (field + u * high);
    MulAdd(field, u * high, t);
    MulAssoc(u, high, t);
    MulAssoc(high, u, t);
    MulBelow(low, q, p);
    MulBelow(field, u, t);
  }

  /** A shift right of the word leaves the field, and the signed one its sign-extension. */
  lemma ShiftKeepsField(x: nat, low: nat, field: nat, s: nat)
    requires 0 < s <= 64 && field < Pow2(s) && low < Pow2(64 - s) && x == low + field * Pow2(64 - s) < U64
    ensures ShiftRight(x, 64 - s) == field
    ensures ShiftRightSigned(x, 64 - s) == SignExtended(field, s)
  {
    WordParts(0, s);
    assert Pow2(s) == 2 * Pow2(s - 1);
    var h, r := Pow2(s - 1), Pow2(64 - s);
    hide Pow2;
    ModIs(x, field, low, r);
    MulAssoc(2, h, r);
    SignedShift(x, low, field, h, r);
    SignedWord(x, field, h, r);
  }

  /** The word that the signed shift leaves. */
  lemma SignedWord(x: nat, field: nat, h: nat, r: nat)
    requires r > 0 && h <= U64 / 2 && field < 2 * h
    requires x < U64 / 2 <==> field < h
    requires x / r == field && (x - U64) / r == field - 2 * h
    ensures (if x < U64 / 2 then x / r else (x - U64) / r) % U64 ==
              if field < h then field else (U64 + field - 2 * h) % U64
  {
  }

  /** Dividing a word with its top bit set as a negative number. */
  lemma SignedShift(x: nat, low: nat, field: nat, h: nat, r: nat)
    requires low < r && x == low + field * r && U64 == 2 * h * r && field < 2 * h
    ensures x < U64 / 2 <==> field < h
    ensures (x - U64) / r == field - 2 * h
  {
    MulAssoc(2, h, r);
    SignBit(x, low, field, h, r);
    MulAdd(field - 2 * h, 2 * h, r);
    ModIs(x - U64, field - 2 * h, low, r);
  }

  lemma SignBit(x: nat, low: nat, field: nat, h: nat, r: nat)
    requires low < r && x == low + field * r
    ensures x < h * r <==> field < h
  {
    if field < h {
      MulBelow(field, h, r);
    } else {
      MulAdd(h, field - h, r);
    }
  }

  /** The loaded word holds the field `a` bits up. */
  lemma LoadHoldsField(mem: Memory, at: nat, size: nat, a: nat, s: nat) returns (low: nat, high: nat)
    requires a + s <= size * 8
    ensures low < Pow2(a) && Load(mem, at, size) == Word(low, Pow2(a), Bits(mem, at * 8 + a, s), Pow2(s), high)
  {
    hide Bits, Pow2, Load;
    var field := Bits(mem, at * 8 + a, s);
    var rest := Bits(mem, at * 8 + a, size * 8 - a);
    low, high := Bits(mem, at * 8, a), Bits(mem, at * 8 + a + s, size * 8 - a - s);
    LoadIsBits(mem, at, size);
    BitsSplitAt(mem, at * 8, a, size * 8);
    assert Load(mem, at, size) == low + Pow2(a) * rest;
    BitsSplitAt(mem, at * 8 + a, s, size * 8 - a);
    Nested(low, Pow2(a), rest, field + Pow2(s) * high);
  }

  lemma Nested(low: nat, q: nat, rest: nat, parts: nat)
    requires rest == parts
    ensures low + q * rest == low + q * parts
  {
  }

  lemma BitsSplitAt(mem: Memory, from: nat, m: nat, n: nat)
    requires m <= n
    ensures Bits(mem, from, n) == Bits(mem, from, m) + Pow2(m) * Bits(mem, from + m, n - m)
  {
    hide Bits, Pow2;
    BitsSplit(mem, from, m, n - m);
    assert m + (n - m) == n;
  }

  /** Shifting the loaded word left and right gives the field, unsigned or sign-extended. */
  lemma ReadIsField(mem: Memory, w: Window, bitOff: nat, s: nat)
    requires 0 < s && w.size <= 8 && Contains(w, bitOff, s)
    ensures var x := ShiftLeft(Load(mem, w.offset, w.size), 64 - (bitOff - w.offset * 8 + s));
            && ShiftRight(x, 64 - s) == Bits(mem, bitOff, s)
            && ShiftRightSigned(x, 64 - s) == SignExtended(Bits(mem, bitOff, s), s)
  {
    hide Bits, Pow2, Load, ShiftLeft, ShiftRight, ShiftRightSigned, SignExtended, Word;
    var a := bitOff - w.offset * 8;
    var field := Bits(mem, bitOff, s);
    var low, high := LoadHoldsField(mem, w.offset, w.size, a, s);
    ShiftDropsHigh(low, field, high, a, s);
    ShiftKeepsField(ShiftLeft(Load(mem, w.offset, w.size), 64 - (a + s)), low * Pow2(64 - (a + s)), field, s);
  }

  /** A member the macro can be used on: a bitfield of a type that can be loaded,
      or a whole integer on a byte boundary. */
  predicate Readable(a: Access) {
    && WellFormed(a) && a.Member? && (a.bitfieldSize > 0 ==> LoadSize(a.baseSize))
    && (a.bitfieldSize == 0 && a.resolved.Some? ==> LoadSize(a.resolved.value) && a.bitOffset % 8 == 0)
  }

  /** The member's value as a 64-bit word: sign-extended if the type is signed,
      and also if it is an enum. */
  function Field(mem: Memory, a: Access): (v: nat)
    requires a.Member? && (a.bitfieldSize == 0 ==> a.resolved.Some?) && 0 < BitSize(a) <= 64
  {
    var v := Bits(mem, a.bitOffset, BitSize(a));
    if a.isEnum || a.wordAfter then SignExtended(v, BitSize(a)) else v
  }

  /** BPF_CORE_READ_BITFIELD_PROBED, with its five relocations computed one by one. */
  method ReadBitfieldProbed(mem: Memory, a: Access) returns (r: Result<nat>)
    requires Readable(a)
    ensures r.Ok? ==> (a.bitfieldSize == 0 ==> a.resolved.Some?) && 0 < BitSize(a) <= 64 && r.value == Field(mem, a)
    ensures !r.Ok? ==> NoWindow(a, r)
  {
    hide Bits, Load, ShiftLeft, ShiftRight, ShiftRightSigned, SignExtended, EndInWindow, Loadable;
    var offset, size, lshift, signed, rshift;
    var validate;
    offset, validate := CalcFieldRelo(ByteOffset, a);
    if !offset.Ok? {
      return offset;
    }
    ghost var w: Window :| IsWindow(w, a) && w.offset * 8 <= a.bitOffset && offset == ValueFor(ByteOffset, a, w);
    forall v: Window | IsWindow(v, a)
      ensures v == w
    {
      WindowIsUnique(v, w, a);
    }
    WindowHolds(w, a);
    size, validate := CalcFieldRelo(ByteSize, a);
    lshift, validate := CalcFieldRelo(LShiftU64, a);
    signed, validate := CalcFieldRelo(Signed, a);
    rshift, validate := CalcFieldRelo(RShiftU64, a);
    ReadIsField(mem, w, a.bitOffset, BitSize(a));
    var val := Load(mem, offset.value, size.value);
    val := ShiftLeft(val, lshift.value);
    if signed.value != 0 {
      val := ShiftRightSigned(val, rshift.value);
    } else {
      val := ShiftRight(val, rshift.value);
    }
    r := Ok(val);
  }

  /** The window of a readable member holds it, and the shifts stay below 64. */
  lemma WindowHolds(w: Window, a: Access)
    requires Readable(a) && IsWindow(w, a)
    ensures a.bitfieldSize == 0 ==> a.resolved.Some?
    ensures LoadSize(w.size) && Contains(w, a.bitOffset, BitSize(a)) && 0 < BitSize(a) <= 64
    ensures ValueFor(LShiftU64, a, w) == Ok(64 - (a.bitOffset - w.offset * 8 + BitSize(a)))
    ensures ValueFor(RShiftU64, a, w) == Ok(64 - BitSize(a))
    ensures !NoWindow(a, Invalid) && !NoWindow(a, TooBig)
  {
    hide Loadable, EndInWindow, Tried, NoSmaller;
    if a.bitfieldSize > 0 {
      TriedOn(a.baseSize, w.size);
      BitfieldIsLoadable(w, a);
    }
    EndInWindowIs(a.bitOffset, BitSize(a), w.offset);
  }

  lemma BitfieldIsLoadable(w: Window, a: Access)
    requires WellFormed(a) && a.Member? && a.bitfieldSize > 0 && IsWindow(w, a)
    ensures Loadable(a.bitOffset, a.bitfieldSize, LastSize(a.baseSize))
  {
    hide Loadable, Aligned, NoSmaller;
    TriedOn(a.baseSize, w.size);
    AlignedWindowIsUnique(w, a.bitOffset, a.bitfieldSize);
    WidestWindowContains(a.bitOffset, a.bitfieldSize, w.size);
    LoadableIs(a.bitOffset, a.bitfieldSize, LastSize(a.baseSize));
  }

  /** What sign-extension does to a number. */
  lemma ExtensionIs(v: nat, n: nat)
    requires 0 < n <= 64 && v < Pow2(n)
    ensures SignExtended(v, n) == v <==> n == 64 || v < Pow2(n - 1)
    ensures SignExtended(v, n) != v ==> SignExtended(v, n) == U64 + v - Pow2(n) >= U64 / 2
  {
    assert Pow2(n) == 2 * Pow2(n - 1);
    Pow2U64();
    WordParts(0, 1);
    if n < 64 {
      Pow2Monotone(n, 63);
    }
    hide Pow2;
  }

  /** Enums are read as signed, though they are said to be taken as unsigned: the
      unsigned value comes back exactly if the type is 64 bits wide or its top bit
      is clear. */
  lemma EnumsAreSigned(mem: Memory, a: Access)
    requires a.Member? && a.isEnum && (a.bitfieldSize == 0 ==> a.resolved.Some?) && 0 < BitSize(a) <= 64
    ensures var n, v := BitSize(a), Bits(mem, a.bitOffset, BitSize(a));
            && (Field(mem, a) == v <==> n == 64 || v < Pow2(n - 1))
            && (Field(mem, a) != v ==> Field(mem, a) == U64 + v - Pow2(n) >= U64 / 2)
  {
    hide SignExtended, Pow2, Bits;
    ExtensionIs(Bits(mem, a.bitOffset, BitSize(a)), BitSize(a));
  }
}
