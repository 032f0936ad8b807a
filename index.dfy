/** `EntityIndex`: the slot number of an entity, any value in `[0, 2^32 - 2]`.
    It is stored offset by one in a non-zero `u32`, so `u32::MAX` cannot be
    represented and the all-zero pattern is never stored. */
module Index {
  import opened Core

  type NonZeroU32 = x: int | 1 <= x < 0x1_0000_0000 witness 1

  const MAX_VALUE: int := U32_MAX - 1

  /** The representation is the index plus one; equality is that of the
      representation. */
  datatype EntityIndex = EntityIndex(bits: NonZeroU32) {

    /** The stored pattern, which is not the index: it is one more. */
    function ToBits(): (r: u32)
      ensures r != 0
    {
      bits
    }

    /** The index itself, one less than the stored pattern; never `u32::MAX`. */
    function Get(): (r: u32)
      ensures r <= MAX_VALUE
      ensures ToBits() == r + 1
    {
      bits - 1
    }

    /** `matches!(self, PLACEHOLDER)`: whether this is the largest index. */
    function IsPlaceholder(): (r: bool)
      ensures r <==> Get() == MAX_VALUE
    {
      this == PLACEHOLDER
    }
  }

  /** Accepts every pattern except zero, and stores it unchanged. */
  function FromBits(bits: u32): (r: Option<EntityIndex>)
    ensures r.None? <==> bits == 0
    ensures r.Some? ==> r.value.ToBits() == bits && r.value.Get() == bits - 1
  {
    if bits == 0 then None else Some(EntityIndex(bits))
  }

  /** `from_bits(index.wrapping_add(1))`: fails exactly for `u32::MAX`, which
      wraps to zero; otherwise the result holds the given index. */
  function New(index: u32): (r: Option<EntityIndex>)
    ensures r.None? <==> index == U32_MAX
    ensures r.Some? ==> r.value.Get() == index
  {
    FromBits(WrappingAdd(index, 1))
  }

  const MIN: EntityIndex := New(0).value
  const MAX: EntityIndex := New(U32_MAX - 1).value
  const PLACEHOLDER: EntityIndex := MAX

  /** `Default` is the placeholder. */
  function Default(): (i: EntityIndex)
    ensures i == PLACEHOLDER && i.IsPlaceholder() && i.Get() == MAX_VALUE
  {
    PLACEHOLDER
  }

  /** The constants: 0, `u32::MAX - 1`, and the placeholder is the maximum;
      every index lies between `MIN` and `MAX`. */
  lemma Constants(i: EntityIndex)
    ensures MIN.Get() == 0 && MIN.ToBits() == 1
    ensures MAX.Get() == MAX_VALUE && MAX.ToBits() == U32_MAX
    ensures PLACEHOLDER == MAX && MAX.IsPlaceholder() && !MIN.IsPlaceholder()
    ensures Cmp(MIN, i) != Greater && Cmp(i, MAX) != Greater
    ensures New(U32_MAX - 1) == Some(MAX)
  {
  }

  /** Both constructors are inverse to the matching reader. */
  lemma RoundTrip(i: EntityIndex)
    ensures FromBits(i.ToBits()) == Some(i)
    ensures New(i.Get()) == Some(i)
  {
  }

  /** `Ord` compares the indices, not the stored patterns. */
  function Cmp(a: EntityIndex, b: EntityIndex): (r: Ordering)
    ensures r == Less <==> a.Get() < b.Get()
    ensures r == Greater <==> a.Get() > b.Get()
    ensures r == Equal <==> a == b
  {
    Compare(a.Get(), b.Get())
  }

  /** `PartialOrd::partial_cmp`: always `Some` of `cmp`. */
  function PartialCmp(a: EntityIndex, b: EntityIndex): (r: Option<Ordering>)
    ensures r == Some(Cmp(a, b))
  {
    Some(Cmp(a, b))
  }

  /** `Cmp` is a total order consistent with the derived equality, and comparing
      the indices or the stored patterns gives the same answer. */
  lemma CmpIsTotalOrder(a: EntityIndex, b: EntityIndex, c: EntityIndex)
    ensures Cmp(a, b) == Cmp(b, a).Reverse()
    ensures Cmp(a, b) != Greater && Cmp(b, c) != Greater ==> Cmp(a, c) != Greater
    ensures Cmp(a, b) == Compare(a.ToBits(), b.ToBits())
  {
  }

  // Conversions from primitive integers.

  /** The types with a `TryFrom<T>` and a `TryFrom<NonZero<T>>` impl for
      `EntityIndex`. */
  const TRY_FROM_SOURCES: set<IntType> := {U32, U64, U128, USIZE, I8, I16, I32, I64, I128, ISIZE}

  /** The types with a `From<T>` and a `From<NonZero<T>>` impl for `EntityIndex`. */
  const FROM_SOURCES: set<IntType> := {U8, U16}

  /** `EntityIndex::try_from(value)`, with `value` of type `source` or of its
      `NonZero` wrapper (which converts `value.get()` the same way): first
      `u32::try_from`, then `new`; succeeds exactly for `0 <= value <= 2^32 - 2`,
      and the index is the value. */
  function TryFromInt(value: int, source: IntType): (r: Result<EntityIndex, TryFromIntError>)
    requires source.Plain() in TRY_FROM_SOURCES && source.Contains(value)
    ensures r.Ok? <==> 0 <= value <= MAX_VALUE
    ensures r.Ok? ==> r.value.Get() == value
  {
    match TryConvert(value, U32)
    case Err(e) => Err(e)
    case Ok(v) =>
      match New(v)
      case None => Err(TryFromIntError)
      case Some(i) => Ok(i)
  }

  /** `EntityIndex::from(value)` for a `u8` or `u16` (or its `NonZero`
      wrapper): widens to `u32` and unwraps `new`, which cannot panic because
      the value is far below `u32::MAX`. */
  function FromInt(value: int, source: IntType): (r: EntityIndex)
    requires source.Plain() in FROM_SOURCES && source.Contains(value)
    ensures r.Get() == value
  {
    New(value).value
  }

  // Conversions into primitive integers.

  /** The types with a `TryFrom<EntityIndex>` impl for `T` and `NonZero<T>`:
      those that cannot hold every index. */
  const TRY_INTO_TARGETS: set<IntType> := {U8, U16, USIZE, I8, I16, I32, ISIZE}

  /** The types with a `From<EntityIndex>` impl (and a `TryFrom<EntityIndex>`
      impl for their `NonZero` wrapper): those that hold every `u32`. */
  const INTO_TARGETS: set<IntType> := {U32, U64, U128, I64, I128}

  const NONZERO_U32: IntType := U32.NonZero()

  /** `target::try_from(index)`: for a plain target `T::try_from(get())`; for
      `NonZero<T>` first `NonZero::<u32>::try_from(get())` and then the
      conversion to `NonZero<T>`. Either way it succeeds exactly when the index
      fits the target, and then yields the index. */
  function TryIntoInt(i: EntityIndex, target: IntType): (r: Result<int, TryFromIntError>)
    requires target.Plain() in TRY_INTO_TARGETS
    ensures r.Ok? <==> target.Contains(i.Get())
    ensures r.Ok? ==> r.value == i.Get()
  {
    if !target.nonZero then
      TryConvert(i.Get(), target)
    else
      match TryConvert(i.Get(), NONZERO_U32)
      case Err(e) => Err(e)
      case Ok(n) => TryConvert(n, target)
  }

  /** `target::from(index)` for a type wide enough for every `u32`: always the
      index, and always within the target's range. */
  function IntoInt(i: EntityIndex, target: IntType): (r: int)
    requires target in INTO_TARGETS
    ensures r == i.Get() && target.Contains(r)
  {
    i.Get()
  }

  /** `NonZero<target>::try_from(index)` for a wide `target`:
      `NonZero::<u32>::try_from(get())` widened; fails exactly for index 0. */
  function TryIntoNonZero(i: EntityIndex, target: IntType): (r: Result<int, TryFromIntError>)
    requires target.nonZero && target.Plain() in INTO_TARGETS
    ensures r.Ok? <==> i.Get() != 0
    ensures r.Ok? ==> r.value == i.Get() && target.Contains(r.value)
  {
    match TryConvert(i.Get(), NONZERO_U32)
    case Err(e) => Err(e)
    case Ok(n) => Ok(n)
  }

  /** The boundary example: index 300 does not fit a `u8` but fits a `u16`,
      and the signed 8-bit type rejects it too. */
  lemma ConversionBoundary()
    ensures TryIntoInt(New(300).value, U8).Err?
    ensures TryIntoInt(New(300).value, U16) == Ok(300)
    ensures TryIntoInt(New(300).value, I8).Err?
    ensures TryIntoInt(MIN, U8.NonZero()).Err? && TryIntoInt(MIN, U8) == Ok(0)
  {
  }

  /** A value converted into an index and back out into a plain target comes
      back unchanged whenever the target can hold it. */
  lemma ConversionRoundTrip(value: int, source: IntType, target: IntType)
    requires source.Plain() in TRY_FROM_SOURCES && source.Contains(value)
    requires target.Plain() in TRY_INTO_TARGETS && target.Contains(value)
    requires TryFromInt(value, source).Ok?
    ensures TryIntoInt(TryFromInt(value, source).value, target) == Ok(value)
  {
  }
}
