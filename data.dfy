/** `EntityData`: the index and generation of an entity, laid out so that,
    read as a `u64`, the index occupies the high 32 bits and the generation the
    low 32 bits whatever the target's byte order. The layout is modelled by
    explicit packing arithmetic rather than by field order in memory. */
module Data {
  import opened Core
  import Index
  import Generation

  datatype EntityData = EntityData(index: Index.EntityIndex, generation: Generation.EntityGen)

  /** The `u64` words with the bit validity of `EntityData`: the high half is
      a valid stored index, hence non-zero. */
  type ValidBits = raw: u64 | raw >= 0x1_0000_0000 witness 0x1_0000_0000

  /** The high 32 bits of a word. */
  function Hi(raw: u64): (h: u32)
  {
    raw / 0x1_0000_0000
  }

  /** The low 32 bits of a word. */
  function Lo(raw: u64): (l: u32)
  {
    raw % 0x1_0000_0000
  }

  /** The word whose high half is `hi` and whose low half is `lo`. */
  function Join(hi: u32, lo: u32): (raw: u64)
    ensures Hi(raw) == hi && Lo(raw) == lo
  {
    hi * 0x1_0000_0000 + lo
  }

  /** Every word is the join of its halves. */
  lemma JoinHalves(raw: u64)
    ensures Join(Hi(raw), Lo(raw)) == raw
  {
  }

  /** The struct read as a `u64`: the stored index pattern in the high half and
      the generation in the low half. No such word is zero. */
  function Pack(d: EntityData): (raw: ValidBits)
    ensures Hi(raw) == d.index.ToBits()
    ensures Lo(raw) == d.generation.ToBits()
    ensures raw != 0
  {
    Join(d.index.ToBits(), d.generation.ToBits())
  }

  /** A valid word read as the struct. */
  function Unpack(raw: ValidBits): (d: EntityData)
    ensures d.index.ToBits() == Hi(raw)
    ensures d.generation.ToBits() == Lo(raw)
  {
    EntityData(Index.EntityIndex(Hi(raw)), Generation.EntityGen(Lo(raw)))
  }

  /** "Same bit validity": packing and unpacking are inverse bijections between
      `EntityData` and the valid words. */
  lemma PackUnpack(d: EntityData, raw: ValidBits)
    ensures Unpack(Pack(d)) == d
    ensures Pack(Unpack(raw)) == raw
  {
    JoinHalves(raw);
  }

  /** Packing is injective. */
  lemma PackInjective(a: EntityData, b: EntityData)
    ensures Pack(a) == Pack(b) <==> a == b
  {
    PackUnpack(a, Pack(a));
    PackUnpack(b, Pack(b));
  }

  /** Two words compare as their high halves do, and as their low halves when
      the high halves are equal. */
  lemma WordOrder(x: u64, y: u64)
    ensures x < y <==> Hi(x) < Hi(y) || (Hi(x) == Hi(y) && Lo(x) < Lo(y))
  {
    JoinHalves(x);
    JoinHalves(y);
  }

  /** Comparing packed words orders by the index first and by the generation
      only to break a tie; so data sharing an index is ordered by generation. */
  lemma PackOrder(a: EntityData, b: EntityData)
    ensures Pack(a) < Pack(b) <==>
      a.index.Get() < b.index.Get() ||
      (a.index == b.index && a.generation.Get() < b.generation.Get())
  {
    WordOrder(Pack(a), Pack(b));
  }
}
