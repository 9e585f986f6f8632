/**
 * Fixed-width C++ integer arithmetic, written out explicitly.
 * Dafny integers are unbounded; the source stores line counters in
 * `unsigned int`, `int`, `size_t` and `ssize_t`, and the conversions between
 * them wrap modulo the width.
 */
module MachineInt {

  const TWO_32: int := 0x1_0000_0000
  const TWO_31: int := 0x8000_0000
  const TWO_64: int := 0x1_0000_0000_0000_0000
  const TWO_63: int := 0x8000_0000_0000_0000

  /** `UINT32_MAX`, the largest `unsigned int` / `hb_codepoint_t`. */
  const UINT32_MAX: int := TWO_32 - 1

  /** An `unsigned char`. */
  type Byte = x: int | 0 <= x < 256

  predicate IsU32(x: int) { 0 <= x < TWO_32 }
  predicate IsI32(x: int) { -TWO_31 <= x < TWO_31 }
  predicate IsU64(x: int) { 0 <= x < TWO_64 }
  predicate IsI64(x: int) { -TWO_63 <= x < TWO_63 }

  /** Conversion of any integer to `unsigned int`: reduction modulo 2^32. */
  function ToU32(x: int): (r: int)
    ensures IsU32(r)
    ensures (r - x) % TWO_32 == 0
    ensures IsU32(x) ==> r == x
  {
    x % TWO_32
  }

  /** Conversion of any integer to a 32-bit `int` (two's complement wrap). */
  function ToI32(x: int): (r: int)
    ensures IsI32(r)
    ensures (r - x) % TWO_32 == 0
    ensures IsI32(x) ==> r == x
  {
    var u := x % TWO_32;
    if u < TWO_31 then u else u - TWO_32
  }

  /** Conversion of any integer to `size_t` (64 bits). */
  function ToU64(x: int): (r: int)
    ensures IsU64(r)
    ensures (r - x) % TWO_64 == 0
    ensures IsU64(x) ==> r == x
  {
    x % TWO_64
  }

  /** Conversion of any integer to `ssize_t` (64-bit two's complement). */
  function ToI64(x: int): (r: int)
    ensures IsI64(r)
    ensures (r - x) % TWO_64 == 0
    ensures IsI64(x) ==> r == x
  {
    var u := x % TWO_64;
    if u < TWO_63 then u else u - TWO_64
  }

  /** Adding a multiple of 2^32 does not change the residue. */
  lemma ShiftMod(z: int, q: int)
    ensures (z + q * TWO_32) % TWO_32 == z % TWO_32
  {
  }

  /** Wrapping one operand of a sum first does not change the wrapped sum. */
  lemma WrapAdd(x: int, y: int)
    ensures ToU32(ToU32(x) + y) == ToU32(x + y)
  {
    ShiftMod(x + y, -(x / TWO_32));
  }

  /** Storing into an `int` and reading back as `unsigned int` loses nothing modulo 2^32. */
  lemma U32OfI32(x: int)
    ensures ToU32(ToI32(x)) == ToU32(x)
  {
    ShiftMod(x % TWO_32, -1);
  }

  /** An `int` is determined by its bit pattern: equal modulo 2^32 means equal after the conversion. */
  lemma I32FromU32(x: int, y: int)
    requires IsI32(x) && ToU32(y) == ToU32(x)
    ensures ToI32(y) == x
  {
    if x < 0 {
      ShiftMod(x, 1);
    }
  }

  /** `int x; x += n; x -= n;` with `n` unsigned, each step wrapping: `x` comes back. */
  lemma AddThenSub(x: int, n: int, y: int)
    requires IsI32(x) && y == ToI32(ToU32(x) + n)
    ensures ToI32(ToU32(y) - n) == x
  {
    U32OfI32(ToU32(x) + n);
    WrapAdd(x, n);
    WrapAdd(x + n, -n);
    I32FromU32(x, ToU32(y) - n);
  }

  /** `int x; x -= n; x += n;` with `n` unsigned, each step wrapping: `x` comes back. */
  lemma SubThenAdd(x: int, n: int, y: int)
    requires IsI32(x) && y == ToI32(ToU32(x) - n)
    ensures ToI32(ToU32(y) + n) == x
  {
    U32OfI32(ToU32(x) - n);
    WrapAdd(x, -n);
    WrapAdd(x - n, n);
    I32FromU32(x, ToU32(y) + n);
  }
}
