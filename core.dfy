/** The parts of Rust's `core` that the entity handle relies on: fixed-width
    unsigned integers, `Option`, `Result`, `TryFromIntError`, the three-way
    `Ordering`, and range-checked conversion between primitive integer types. */
module Core {

  const TWO_32: int := 0x1_0000_0000
  const U32_MAX: int := 0xFFFF_FFFF

  /** A `u32`; Dafny integers are unbounded, so the width is a subset type. */
  type u32 = x: int | 0 <= x < 0x1_0000_0000

  /** A `u64`. */
  type u64 = x: int | 0 <= x < 0x1_0000_0000_0000_0000

  datatype Option<+T> = None | Some(value: T)

  datatype Result<+T, +E> = Ok(value: T) | Err(error: E)

  /** `core::num::TryFromIntError` carries no information a caller can inspect. */
  datatype TryFromIntError = TryFromIntError

  /** `core::cmp::Ordering`. */
  datatype Ordering = Less | Equal | Greater {
    /** `Ordering::reverse`: the result of comparing the operands the other way round. */
    function Reverse(): (r: Ordering) {
      match this
      case Less => Greater
      case Equal => Equal
      case Greater => Less
    }
  }

  /** `Ord::cmp` on integers. */
  function Compare(a: int, b: int): (r: Ordering)
    ensures r == Less <==> a < b
    ensures r == Equal <==> a == b
    ensures r == Greater <==> a > b
  {
    if a < b then Less else if a == b then Equal else Greater
  }

  /** `u32::wrapping_add`: addition modulo 2^32. */
  function WrappingAdd(a: u32, b: u32): (r: u32)
    ensures a + b < TWO_32 ==> r == a + b
    ensures a + b >= TWO_32 ==> r == a + b - TWO_32
  {
    (a + b) % TWO_32
  }

  /** A primitive integer type, given by its inclusive range `[lo, hi]`, or,
      when `nonZero` holds, the `NonZero` wrapper of that type. */
  datatype IntType = IntType(lo: int, hi: int, nonZero: bool) {
    predicate Contains(v: int) {
      lo <= v <= hi && (nonZero ==> v != 0)
    }

    /** `NonZero<T>` for this `T`. */
    function NonZero(): (t: IntType) {
      this.(nonZero := true)
    }

    /** The plain type underneath a `NonZero` wrapper. */
    function Plain(): (t: IntType) {
      this.(nonZero := false)
    }
  }

  const U8: IntType := IntType(0, 0xFF, false)
  const U16: IntType := IntType(0, 0xFFFF, false)
  const U32: IntType := IntType(0, 0xFFFF_FFFF, false)
  const U64: IntType := IntType(0, 0xFFFF_FFFF_FFFF_FFFF, false)
  const U128: IntType := IntType(0, 0xFFFF_FFFF_FFFF_FFFF_FFFF_FFFF_FFFF_FFFF, false)
  const I8: IntType := IntType(-0x80, 0x7F, false)
  const I16: IntType := IntType(-0x8000, 0x7FFF, false)
  const I32: IntType := IntType(-0x8000_0000, 0x7FFF_FFFF, false)
  const I64: IntType := IntType(-0x8000_0000_0000_0000, 0x7FFF_FFFF_FFFF_FFFF, false)
  const I128: IntType :=
    IntType(-0x8000_0000_0000_0000_0000_0000_0000_0000, 0x7FFF_FFFF_FFFF_FFFF_FFFF_FFFF_FFFF_FFFF, false)
  /** Pointer-width integers, fixed here at 64 bits. */
  const USIZE: IntType := U64
  const ISIZE: IntType := I64

  /** `T::try_from(v)` between primitive integer types and their `NonZero`
      wrappers: such a conversion never changes the value, and fails exactly
      when the value lies outside the target. */
  function TryConvert(v: int, target: IntType): (r: Result<int, TryFromIntError>)
    ensures r.Ok? <==> target.Contains(v)
    ensures r.Ok? ==> r.value == v
  {
    if target.Contains(v) then Ok(v) else Err(TryFromIntError)
  }
}
