/** `Entity`: the 64-bit handle. Its storage is a non-zero `u64` that is a
    valid `EntityData` word: the stored index pattern (index plus one) in the
    high half and the generation in the low half. Comparisons go through
    `to_bits`, which flips every bit of the high half. */
module Entities {
  import opened Core
  import Index
  import Generation
  import opened Data
  import Bits

  /** `(u32::MAX as u64) << 32`, the mask `to_bits` XORs with. */
  const HIGH_MASK: int := 0xFFFF_FFFF_0000_0000

  /** XOR with `HIGH_MASK` complements the high half of a word and keeps the
      low half. */
  lemma XorHighMask(raw: u64)
    ensures Bits.Xor(raw, HIGH_MASK, 64) == Join(U32_MAX - Hi(raw), Lo(raw))
  {
    Bits.XorComplementsHigh(raw, HIGH_MASK);
  }

  /** The handle's storage; equality is that of the stored word. */
  datatype Entity = Entity(bits: ValidBits) {

    /** `data()` and `Deref`: the storage read as `EntityData`. */
    function Data(): (d: EntityData)
      ensures Pack(d) == bits
    {
      JoinHalves(bits);
      Unpack(bits)
    }

    /** `to_bits`: the stored word XOR `0xFFFF_FFFF << 32`. The low half is the
        generation; the high half is the complement of the stored index
        pattern, which is `2^32 - 2 - index`, not the index. */
    function ToBits(): (r: u64)
      ensures Lo(r) == Data().generation.Get()
      ensures Hi(r) == U32_MAX - Data().index.ToBits()
      ensures Hi(r) == Index.MAX_VALUE - Data().index.Get()
    {
      XorHighMask(bits);
      Bits.Xor(bits, HIGH_MASK, 64)
    }
  }

  /** `Entity::new`: never fails; the storage is the packed `EntityData`, index
      in the high half and generation in the low half, so the word is never
      zero, and reading the fields back gives what was passed in. */
  function New(index: Index.EntityIndex, generation: Generation.EntityGen): (e: Entity)
    ensures Hi(e.bits) == index.ToBits() && Lo(e.bits) == generation.ToBits()
    ensures e.bits != 0
    ensures e.Data() == EntityData(index, generation)
  {
    PackUnpack(EntityData(index, generation), Pack(EntityData(index, generation)));
    Entity(Pack(EntityData(index, generation)))
  }

  /** Every entity is the `new` of its own fields. */
  lemma NewOfData(e: Entity)
    ensures New(e.Data().index, e.Data().generation) == e
  {
    PackUnpack(e.Data(), e.bits);
  }

  /** Writing `index` through `data_mut()` / `DerefMut`: replaces the high half
      of the storage, so the index reads back as written and the generation
      is untouched. */
  function SetIndex(e: Entity, index: Index.EntityIndex): (r: Entity)
    ensures r.Data().index == index
    ensures r.Data().generation == e.Data().generation
    ensures r == New(index, e.Data().generation)
  {
    Entity(Join(index.ToBits(), Lo(e.bits)))
  }

  /** Writing `generation` through `data_mut()` / `DerefMut`: replaces the low
      half of the storage, so the generation reads back as written and the
      index is untouched. */
  function SetGeneration(e: Entity, generation: Generation.EntityGen): (r: Entity)
    ensures r.Data().generation == generation
    ensures r.Data().index == e.Data().index
    ensures r == New(e.Data().index, generation)
  {
    Entity(Join(Hi(e.bits), generation.ToBits()))
  }

  /** `to_bits` is injective, so comparing it is consistent with equality. */
  lemma ToBitsInjective(a: Entity, b: Entity)
    ensures a.ToBits() == b.ToBits() <==> a == b
  {
    if a.ToBits() == b.ToBits() {
      JoinHalves(a.ToBits());
      JoinHalves(b.ToBits());
      NewOfData(a);
      NewOfData(b);
    }
  }

  /** `Ord::cmp`: comparison of `to_bits`; `Equal` exactly for equal entities. */
  function Cmp(a: Entity, b: Entity): (r: Ordering)
    ensures r == Equal <==> a == b
  {
    ToBitsInjective(a, b);
    Compare(a.ToBits(), b.ToBits())
  }

  /** `partial_cmp`: always defined. */
  function PartialCmp(a: Entity, b: Entity): (r: Option<Ordering>)
    ensures r.Some?
  {
    Some(Cmp(a, b))
  }

  /** `lt`: agrees with `cmp`. */
  function Lt(a: Entity, b: Entity): (r: bool)
    ensures r <==> Cmp(a, b) == Less
  {
    a.ToBits() < b.ToBits()
  }

  /** `le`: agrees with `cmp`, and is `lt` or equality. */
  function Le(a: Entity, b: Entity): (r: bool)
    ensures r <==> Cmp(a, b) != Greater
    ensures r <==> Lt(a, b) || a == b
  {
    a.ToBits() <= b.ToBits()
  }

  /** `gt`: agrees with `cmp`, and is `lt` with the operands swapped. */
  function Gt(a: Entity, b: Entity): (r: bool)
    ensures r <==> Cmp(a, b) == Greater
    ensures r <==> Lt(b, a)
  {
    a.ToBits() > b.ToBits()
  }

  /** `ge`: agrees with `cmp`, and is `le` with the operands swapped. */
  function Ge(a: Entity, b: Entity): (r: bool)
    ensures r <==> Cmp(a, b) != Less
    ensures r <==> Le(b, a)
  {
    a.ToBits() >= b.ToBits()
  }

  /** `partial_cmp` is `Some(cmp)`, and exactly one of `lt`, equality and
      `gt` holds. */
  lemma ShortcutsAgreeWithCmp(a: Entity, b: Entity)
    ensures PartialCmp(a, b) == Some(Cmp(a, b))
    ensures (Lt(a, b) && !Gt(a, b) && a != b) || (a == b && !Lt(a, b) && !Gt(a, b))
         || (Gt(a, b) && !Lt(a, b) && a != b)
  {
  }

  /** `Cmp` is a total order whose equality is the derived equality. */
  lemma CmpIsTotalOrder(a: Entity, b: Entity, c: Entity)
    ensures Cmp(a, b) == Cmp(b, a).Reverse()
    ensures Cmp(a, b) != Greater && Cmp(b, c) != Greater ==> Cmp(a, c) != Greater
    ensures Le(a, b) && Le(b, a) ==> a == b
  {
    ToBitsInjective(a, b);
  }

  /** Entities with the same index compare as their generations do, in
      ascending order. */
  lemma SameIndexOrdersByGeneration(a: Entity, b: Entity)
    requires a.Data().index == b.Data().index
    ensures Cmp(a, b) == Generation.Cmp(a.Data().generation, b.Data().generation)
  {
    WordOrder(a.ToBits(), b.ToBits());
  }

  /** Entities with different indices compare by index alone, whatever their
      generations: as the code stands the larger index gives the smaller
      entity, the reverse of `EntityIndex`'s own order. */
  lemma DifferentIndexOrdersByIndexReversed(a: Entity, b: Entity)
    requires a.Data().index != b.Data().index
    ensures Cmp(a, b) == Index.Cmp(b.Data().index, a.Data().index)
    ensures Cmp(a, b) == Index.Cmp(a.Data().index, b.Data().index).Reverse()
  {
    WordOrder(a.ToBits(), b.ToBits());
  }

  /** `PLACEHOLDER`: the placeholder index with the least generation. */
  const PLACEHOLDER: Entity := New(Index.PLACEHOLDER, Generation.MIN)

  /** `Default` is the placeholder; its index is the placeholder index, its
      generation is 0, and, as the code computes it, its `to_bits` is 0, so
      it is the least entity of all. */
  function Default(): (e: Entity)
    ensures e == PLACEHOLDER
    ensures e.Data().index.IsPlaceholder() && e.Data().generation.Get() == 0
    ensures e.ToBits() == 0
    ensures forall f :: Cmp(e, f) != Greater
  {
    PLACEHOLDER
  }

  /** `From<(EntityGen, EntityIndex)>`: the entity of those fields. */
  function FromGenIndex(value: (Generation.EntityGen, Index.EntityIndex)): (e: Entity)
    ensures e.Data() == EntityData(value.1, value.0)
  {
    New(value.1, value.0)
  }

  /** `From<(EntityIndex, EntityGen)>`: the entity of those fields. */
  function FromIndexGen(value: (Index.EntityIndex, Generation.EntityGen)): (e: Entity)
    ensures e.Data() == EntityData(value.0, value.1)
  {
    New(value.0, value.1)
  }

  /** Both tuple conversions give `new(index, generation)`, whichever order the
      pair is written in. */
  lemma TupleConversionsAgree(index: Index.EntityIndex, generation: Generation.EntityGen)
    ensures FromGenIndex((generation, index)) == New(index, generation)
    ensures FromIndexGen((index, generation)) == New(index, generation)
  {
  }

  // The encoding the comments describe. The comment above `to_bits` says the
  // stored index is NOT-ed, but `EntityIndex` stores `index + 1`, so XOR-ing
  // the high half does not give the index back; these members state the
  // intended canonical encoding beside the one the code computes.

  /** The canonical encoding: the index itself in the high half and the
      generation in the low half. With the `index + 1` storage it is the
      stored word less `1 << 32`. */
  function CanonicalBits(e: Entity): (r: u64)
    ensures Hi(r) == e.Data().index.Get() && Lo(r) == e.Data().generation.Get()
    ensures r == e.bits - TWO_32
  {
    JoinHalves(e.bits);
    Join(e.Data().index.Get(), e.Data().generation.Get())
  }

  /** The order of the canonical encoding; `Equal` exactly for equal entities. */
  function CanonicalCmp(a: Entity, b: Entity): (r: Ordering)
    ensures r == Equal <==> a == b
  {
    Compare(CanonicalBits(a), CanonicalBits(b))
  }

  /** The canonical order is the lexicographic order of (index, generation),
      agreeing with `EntityIndex`'s own order on the index. */
  lemma CanonicalOrderIsLexicographic(a: Entity, b: Entity)
    ensures CanonicalCmp(a, b) ==
      if a.Data().index == b.Data().index
      then Generation.Cmp(a.Data().generation, b.Data().generation)
      else Index.Cmp(a.Data().index, b.Data().index)
  {
    WordOrder(CanonicalBits(a), CanonicalBits(b));
  }

  /** As written, whatever the generation, index 0 orders after index 1,
      against `EntityIndex`'s order and the canonical order; and the entity of
      index 5 and generation 2 encodes as `((2^32 - 7) << 32) | 2`, not as
      `(5 << 32) | 2`. */
  lemma ToBitsReversesIndexOrder(g: Generation.EntityGen)
    ensures
      var a := New(Index.MIN, g);
      var b := New(Index.New(1).value, g);
      Index.Cmp(a.Data().index, b.Data().index) == Less &&
      Cmp(a, b) == Greater && CanonicalCmp(a, b) == Less
    ensures
      var e := New(Index.New(5).value, Generation.New(2).value);
      e.ToBits() == (Index.MAX_VALUE - 5) * TWO_32 + 2 && CanonicalBits(e) == 5 * TWO_32 + 2
  {
    var a := New(Index.MIN, g);
    var b := New(Index.New(1).value, g);
    DifferentIndexOrdersByIndexReversed(a, b);
    CanonicalOrderIsLexicographic(a, b);
    var e := New(Index.New(5).value, Generation.New(2).value);
    JoinHalves(e.ToBits());
    JoinHalves(CanonicalBits(e));
  }
}
