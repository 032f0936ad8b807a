# Entity handle: index, generation and the packed 64-bit word

This project models the entity handle of a slot-based object system (the
`herabit/pillar` crate's `entity` module) and proves properties of it in Dafny.
A handle is three value types:

- `EntityGen`: a plain `u32` recycling counter. It has no reserved value.
- `EntityIndex`: a slot number in `[0, 2^32 - 2]`. It is stored as `index + 1`
  in a `NonZero<u32>`, so `u32::MAX` is not representable: `new` adds one with
  wrap-around, and `u32::MAX + 1` wraps to the forbidden zero. It converts
  from and into the primitive integer types and their `NonZero` wrappers. The
  fallible conversions are range-checked; the infallible `From`/`Into` ones
  are widenings that return the value unchanged.
- `Entity`: a non-zero `u64` that holds an `EntityData` struct. The stored index
  pattern is in the high 32 bits and the generation in the low 32 bits.
  Entities compare by `to_bits()`, which XORs the stored word with
  `0xFFFF_FFFF << 32`.

Modules follow the source files. `Generation` models `src/entity/generation.rs`,
`Index` models `src/entity/index.rs`, `Data` models `src/entity/data.rs` and
`Entities` models `src/entity.rs`. `Core` holds the pieces of Rust's `core` the
code uses: `u32`/`u64` as bounded integer subset types, `Option`, `Result`,
`TryFromIntError`, `Ordering`, `wrapping_add`, and one range-checked
conversion `TryConvert(v, IntType(lo, hi, nonZero))`. Every fallible
primitive conversion in the source is an instance of `TryConvert`, and the
infallible widenings are the identity on the value. `Bits` defines XOR on
integers bit by bit, so `Entity::to_bits` can be written exactly as the
source's XOR. Lemmas there prove what that XOR does to the two halves.

The memory layout is modelled as arithmetic, not as a transmute. The stored
word is `index.to_bits() * 2^32 + generation.to_bits()`. This is the meaning
`data.rs` gives its field order on both byte orders.

### The code as written, not its comments

`to_bits` carries a comment saying the index is NOT-ed in storage. But
`EntityIndex` stores `index + 1`, with no NOT. The model follows the code.
The high half of `Entity::to_bits()` is therefore `2^32 - 2 - index`, not the
index. Three consequences are proved:

- Two entities with different indices order in *descending* index order. This
  is the reverse of `EntityIndex`'s own `Ord`.
- `PLACEHOLDER.to_bits() == 0`, so the placeholder is the least entity.
- `Entity::new(5, 2).to_bits()` is `0xFFFF_FFF9_0000_0002`, not `(5 << 32) | 2`.

Entities with the same index still order by generation, ascending. There is no
`Entity::from_bits` in the code, so none is modelled.

## Model

| member | source | states |
|---|---|---|
| `Generation.FromBits` | src/entity/generation.rs:29-31 | never fails; the generation's bits and value are the given `u32` |
| `Generation.New` | src/entity/generation.rs:48-50 | never fails; `get()` and `to_bits()` of the result are the given value |
| `Generation.EntityGen.ToBits` | src/entity/generation.rs:36-38 | the representation is the counter itself: it determines the generation |
| `Generation.EntityGen.Get` | src/entity/generation.rs:55-57 | `get()` is `to_bits()`, and the value determines the generation |
| `Generation.Bounds` | src/entity/generation.rs:15-18 | `MIN.get() == 0`, `MAX.get() == u32::MAX`, and every generation lies between them |
| `Generation.BitsRoundTrip` | src/entity/generation.rs:29-57 | `from_bits(g.to_bits()) == Some(g)`, `new(g.get()) == Some(g)`, and decoding any pattern reads it back |
| `Generation.Cmp` | src/entity/generation.rs:8-12 | the derived order is numeric order of `get()`; `Equal` exactly for equal generations |
| `Generation.CmpIsTotalOrder` | src/entity/generation.rs:8 | the order is antisymmetric and transitive |
| `Generation.Default` | src/entity/generation.rs:74-78 | `Default` is `MIN`, value 0, and no generation is below it |
| `Index.EntityIndex.ToBits` | src/entity/index.rs:45-47 | the stored pattern is never zero |
| `Index.EntityIndex.Get` | src/entity/index.rs:65-67 | the index never exceeds `2^32 - 2` and is one less than the stored pattern |
| `Index.EntityIndex.IsPlaceholder` | src/entity/index.rs:73-75 | true exactly when `get() == 2^32 - 2` |
| `Index.FromBits` | src/entity/index.rs:35-40 | `None` exactly for 0; otherwise `to_bits()` is the pattern and `get()` is one less |
| `Index.New` | src/entity/index.rs:56-60 | `None` exactly for `u32::MAX`; otherwise `get()` is the given value |
| `Index.Default` | src/entity/index.rs:92-96 | `Default` is `PLACEHOLDER`, which is a placeholder with value `2^32 - 2` |
| `Index.Constants` | src/entity/index.rs:19-25 | `MIN.get() == 0`, `MAX.get() == 2^32 - 2`, `PLACEHOLDER == MAX`, `new(2^32 - 2) == Some(MAX)`, every index lies between `MIN` and `MAX` |
| `Index.RoundTrip` | src/entity/index.rs:35-67 | `from_bits(i.to_bits()) == Some(i)` and `new(i.get()) == Some(i)` |
| `Index.Cmp` | src/entity/index.rs:106-111 | compares by `get()`; `Equal` exactly when the derived equality holds |
| `Index.PartialCmp` | src/entity/index.rs:99-104 | `partial_cmp` is always `Some(cmp)` |
| `Index.CmpIsTotalOrder` | src/entity/index.rs:106-111 | the order is antisymmetric and transitive, and agrees with comparing the stored patterns |
| `Index.TryFromInt` | src/entity/index.rs:117-151 | from every one of the ten source types and their `NonZero` wrappers: succeeds exactly for `0 <= v <= 2^32 - 2`, with `get() == v`; negative values, values above `u32::MAX` and `u32::MAX` itself fail |
| `Index.FromInt` | src/entity/index.rs:153-172 | from `u8`/`u16` and their `NonZero` wrappers: never fails, and `get()` is the input |
| `Index.TryIntoInt` | src/entity/index.rs:174-203 | into the narrow types and their `NonZero` wrappers: succeeds exactly when `get()` fits the target (non-zero targets also reject 0), and yields `get()` |
| `Index.IntoInt` | src/entity/index.rs:205-212 | into `u32`, `u64`, `u128`, `i64`, `i128`: always `get()`, always within the target's range |
| `Index.TryIntoNonZero` | src/entity/index.rs:214-221 | into `NonZero` of a wide type: fails exactly when `get() == 0`, otherwise yields `get()` |
| `Index.ConversionBoundary` | src/entity/index.rs:196-200 | index 300 fails into `u8` and `i8` and converts to 300 in `u16`; index 0 fails into `NonZero<u8>` and converts to 0 in `u8` |
| `Index.ConversionRoundTrip` | src/entity/index.rs:121-127 | a value converted into an index and out into a narrow target that can hold it comes back unchanged |
| `Data.Pack` | src/entity/data.rs:11-13 | the index's stored pattern is the high 32 bits and the generation the low 32 bits; the word is never zero |
| `Data.Unpack` | src/entity/data.rs:25-28 | a valid word reads back as the struct with those halves |
| `Data.PackUnpack` | src/entity/data.rs:25-28 | packing and unpacking are inverse bijections between `EntityData` and the words whose high half is non-zero |
| `Data.PackInjective` | src/entity/data.rs:25-28 | two structs pack to the same word exactly when they are equal |
| `Data.PackOrder` | src/entity/data.rs:14-21 | packed words order by index first and by generation only on equal indices |
| `Entities.Entity.Data` | src/entity.rs:50-54 | `data()` / `Deref` reads the storage as the `EntityData` that packs to it |
| `Entities.Entity.ToBits` | src/entity.rs:68-71 | the low half is `generation.get()`; the high half is the complement of `index.to_bits()`, that is `2^32 - 2 - index.get()` |
| `Entities.XorHighMask` | src/entity.rs:70 | XOR with `0xFFFF_FFFF << 32` complements the high half of a word and keeps the low half |
| `Entities.New` | src/entity.rs:35-45 | the stored word has `index.to_bits()` high and `generation.to_bits()` low, is never zero, and `data()` gives back exactly the arguments |
| `Entities.NewOfData` | src/entity.rs:22-23 | every entity is `new` of its own index and generation |
| `Entities.SetIndex` | src/entity.rs:117-121 | writing `index` through `DerefMut` makes it read back as written and leaves the generation unchanged |
| `Entities.SetGeneration` | src/entity.rs:59-63 | writing `generation` through `data_mut()` makes it read back as written and leaves the index unchanged |
| `Entities.ToBitsInjective` | src/entity.rs:68-71 | `to_bits` is injective: equal bits exactly for equal entities |
| `Entities.Cmp` | src/entity.rs:101-106 | `cmp` of `to_bits()`; `Equal` exactly when the derived equality holds |
| `Entities.PartialCmp` | src/entity.rs:74-78 | `partial_cmp` is always defined |
| `Entities.Lt` | src/entity.rs:80-83 | `lt` holds exactly when `cmp` is `Less` |
| `Entities.Le` | src/entity.rs:85-88 | `le` holds exactly when `cmp` is not `Greater`, that is when `lt` or equality holds |
| `Entities.Gt` | src/entity.rs:90-93 | `gt` holds exactly when `cmp` is `Greater`, that is when `lt` holds with the operands swapped |
| `Entities.Ge` | src/entity.rs:95-98 | `ge` holds exactly when `cmp` is not `Less`, that is when `le` holds with the operands swapped |
| `Entities.ShortcutsAgreeWithCmp` | src/entity.rs:74-98 | `partial_cmp` is `Some(cmp)`, and exactly one of `lt`, equality and `gt` holds |
| `Entities.CmpIsTotalOrder` | src/entity.rs:101-105 | the order is antisymmetric and transitive, and `le` both ways implies equality |
| `Entities.SameIndexOrdersByGeneration` | src/entity.rs:103-105 | entities with the same index compare as their generations, ascending |
| `Entities.DifferentIndexOrdersByIndexReversed` | src/entity.rs:68-71 | entities with different indices compare by index alone, whatever their generations, in the reverse of `EntityIndex`'s order |
| `Entities.Default` | src/entity.rs:133-137 | `Default` is `PLACEHOLDER`; its index is the placeholder, its generation is 0, its `to_bits()` is 0, and no entity is below it |
| `Entities.FromGenIndex` | src/entity.rs:140-145 | the entity whose `data()` is the pair's index and generation |
| `Entities.FromIndexGen` | src/entity.rs:147-152 | the entity whose `data()` is the pair's index and generation |
| `Entities.TupleConversionsAgree` | src/entity.rs:140-152 | both tuple conversions equal `new(index, generation)` |
| `Entities.CanonicalBits` | src/entity.rs:69 | the canonical encoding has the index in the high half and the generation in the low half, and equals the stored word minus `1 << 32` |
| `Entities.CanonicalCmp` | src/entity/data.rs:14-17 | the canonical order gives `Equal` exactly for equal entities |
| `Entities.CanonicalOrderIsLexicographic` | src/entity/data.rs:14-21 | the canonical order is lexicographic on (index, generation) and agrees with `EntityIndex`'s order |
| `Entities.ToBitsReversesIndexOrder` | src/entity.rs:68-71 | as written, index 0 orders after index 1 for any shared generation, and `new(5, 2).to_bits()` is `0xFFFF_FFF9_0000_0002` |

## Left out

- `Debug` and `Display` for all three types: text formatting through library formatters.
- `mem::transmute` and the pointer casts in `new`, `data` and `data_mut`: the model uses the explicit packing `Data.Pack`/`Data.Unpack` instead.
- The compile-time size and alignment asserts and the zero-length `_align` field: they are memory-layout facts with no arithmetic content.
- The `cfg(target_endian)` field order: the model has the single meaning both orders are chosen to give, index in the high half.
- The niche that makes `Option<Entity>` eight bytes, and the derived `Hash`.
- `usize` and `isize` are fixed at 64 bits.
- `Entities.SetIndex`, `Entities.SetGeneration`: `data_mut()`/`DerefMut` hand out a mutable reference. The model writes through it as a function from the old entity to the new one, so aliasing of that reference is not modelled.
- `Entity::from_bits`: the code has no such decoder, so none is modelled.
- `TryFromIntError`'s internal kind: callers cannot inspect it, so it is a single value.
- `EntityGen::new`/`from_bits` are documented as possibly returning `None` one day. The model states the current behaviour: they never fail.

## Findings

| source | as written | input that shows it | evidently intended | confidence | as-written member | corrected member |
|---|---|---|---|---|---|---|
| src/entity.rs:68-71 | `to_bits` XORs the high half with all ones to undo a NOT that `EntityIndex` never applies (it stores `index + 1`); the high half becomes `2^32 - 2 - index` and the entity order reverses the index order | `Entity::new(Index 0, g)` compares greater than `Entity::new(Index 1, g)`; `Entity::new(Index 5, Gen 2).to_bits() == 0xFFFF_FFF9_0000_0002` | `to_bits` has the index itself in the high half, so entities order by index ascending like `EntityIndex` and then by generation | medium, not executed | `Entities.ToBitsReversesIndexOrder` | `Entities.CanonicalOrderIsLexicographic` |

The members that mirror `cmp` and `to_bits` keep the order the code computes.
The corrected encoding, `Entities.CanonicalBits` with its order
`Entities.CanonicalCmp`, is stated beside them.
