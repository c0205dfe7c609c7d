/** The machine the runtime is compiled for.

    Every width the C sources leave to the platform is a constant without a value: it is
    constrained by its type and by nothing else, so each theorem holds for all of them. */
module Platform {
  type byte = n: int | 0 <= n < 256

  /** PB_SIZE_MAX: pb_size_t is 8, 16 or 32 bits wide, by PB_FIELD_16BIT / PB_FIELD_32BIT. */
  type PbSizeMax = n: int | n == 0xFF || n == 0xFFFF || n == 0xFFFF_FFFF witness 0xFF
  const PB_SIZE_MAX: PbSizeMax

  /** offsetof(pb_bytes_array_t, bytes): the size field that precedes the bytes, with its padding. */
  type BytesOffset = n: int | 1 <= n <= 8 witness 1
  const BYTES_OFFSET: BytesOffset

  /** sizeof(void*). */
  type PointerSize = n: int | n == 2 || n == 4 || n == 8 witness 4
  const POINTER_SIZE: PointerSize

  /** size_t has 2 * SIZE_HALF_BITS bits, and at least those of pb_size_t. */
  type HalfBits = n: int | (n == 8 && PB_SIZE_MAX <= 0xFFFF) || n == 16 || n == 32 witness 16
  const SIZE_HALF_BITS: HalfBits

  const SIZE_HALF: int := if SIZE_HALF_BITS == 8 then 0x100 else if SIZE_HALF_BITS == 16 then 0x1_0000
      else 0x1_0000_0000
  const SIZE_MAX: int :=
    if SIZE_HALF_BITS == 8 then 0xFFFF else if SIZE_HALF_BITS == 16 then 0xFFFF_FFFF else 0xFFFF_FFFF_FFFF_FFFF

  /** Arithmetic in size_t. */
  function WrapSize(n: nat): (r: nat)
    ensures r <= SIZE_MAX
    ensures n <= SIZE_MAX ==> r == n
  {
    if n <= SIZE_MAX then n else n % (SIZE_MAX + 1)
  }

  lemma WrapsBelow(n: nat)
    requires n > SIZE_MAX
    ensures WrapSize(n) + SIZE_MAX < n
  {
  }

  /** A pb_size_t fits in size_t, and only what fits is not cut. */
  lemma FitsPbSize(n: nat, size: nat)
    requires size <= PB_SIZE_MAX
    ensures n <= WrapSize(n) <= size <==> n <= size
  {
    if n > SIZE_MAX {
      WrapsBelow(n);
    }
  }

  lemma WrappedSum(a: nat, b: nat)
    requires a <= SIZE_MAX && b <= SIZE_MAX
    ensures WrapSize(a + b) < a <==> a + b > SIZE_MAX
  {
    if a + b > SIZE_MAX {
      assert a + b - (SIZE_MAX + 1) == (a + b) % (SIZE_MAX + 1);
    }
  }

  /** uint_fast8_t counts modulo this; on most platforms it is one byte. */
  type Fast8Modulus = n: int | n == 0x100 || n == 0x1_0000 || n == 0x1_0000_0000 || n == 0x1_0000_0000_0000_0000
    witness 0x100
  const FAST8_MODULUS: Fast8Modulus

  const TWO_32: int := 0x1_0000_0000
  const TWO_64: int := 0x1_0000_0000_0000_0000

  /** PB_MAX_REQUIRED_FIELDS, at its default. */
  const MAX_REQUIRED_FIELDS: int := 64

  /** The result of reading a value from the front of a byte string. */
  datatype Parsed<+T> = Ok(value: T, rest: seq<byte>) | Fail

  datatype Option<+T> = None | Some(value: T)
}
