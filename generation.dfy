/** `EntityGen`: the recycling counter of an entity's slot. Every `u32` is a
    valid generation; there is no reserved value. */
module Generation {
  import opened Core

  /** One `u32` field; equality is that of the field. */
  datatype EntityGen = EntityGen(bits: u32) {

    /** The underlying representation, the counter itself: it determines the
        generation. */
    function ToBits(): (r: u32)
      ensures EntityGen(r) == this
    {
      bits
    }

    /** The counter's value, which is its representation, and which also
        determines the generation. */
    function Get(): (r: u32)
      ensures r == ToBits()
      ensures EntityGen(r) == this
    {
      ToBits()
    }
  }

  /** Never fails: every bit pattern is a generation, and it is stored unchanged. */
  function FromBits(bits: u32): (r: Option<EntityGen>)
    ensures r.Some? && r.value.ToBits() == bits && r.value.Get() == bits
  {
    Some(EntityGen(bits))
  }

  /** Never fails, and the generation holds the given value. */
  function New(generation: u32): (r: Option<EntityGen>)
    ensures r.Some? && r.value.Get() == generation && r.value.ToBits() == generation
  {
    FromBits(generation)
  }

  const MIN: EntityGen := New(0).value
  const MAX: EntityGen := New(U32_MAX).value

  /** The derived `Ord`: numeric comparison of the counters, a total order
      whose equality is the derived equality. */
  function Cmp(a: EntityGen, b: EntityGen): (r: Ordering)
    ensures r == Less <==> a.Get() < b.Get()
    ensures r == Greater <==> a.Get() > b.Get()
    ensures r == Equal <==> a == b
  {
    Compare(a.bits, b.bits)
  }

  /** `Default` is the least generation. */
  function Default(): (g: EntityGen)
    ensures g == MIN && g.Get() == 0
    ensures forall h :: Cmp(g, h) != Greater
  {
    MIN
  }

  /** The bounds are 0 and `u32::MAX`, and every generation lies between them. */
  lemma Bounds(g: EntityGen)
    ensures MIN.Get() == 0 && MAX.Get() == U32_MAX
    ensures Cmp(MIN, g) != Greater && Cmp(g, MAX) != Greater
  {
  }

  /** Decoding the representation of a generation gives it back, and
      decoding a pattern and reading it back gives the pattern. */
  lemma BitsRoundTrip(g: EntityGen, bits: u32)
    ensures FromBits(g.ToBits()) == Some(g)
    ensures New(g.Get()) == Some(g)
    ensures FromBits(bits).value.ToBits() == bits
  {
  }

  /** `Cmp` is a total order: antisymmetric and transitive. */
  lemma CmpIsTotalOrder(a: EntityGen, b: EntityGen, c: EntityGen)
    ensures Cmp(a, b) == Cmp(b, a).Reverse()
    ensures Cmp(a, b) != Greater && Cmp(b, c) != Greater ==> Cmp(a, c) != Greater
  {
  }
}
