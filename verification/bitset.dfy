/** The external bit vector the facade delegates to, specified only by the
    behaviour the facade and its tests rely on. Its storage is abstracted as
    a sequence of booleans. */
module Bitset {
  import opened Varint

  datatype Bitset = Bitset(bits: seq<bool>)

  /** Lengths are `uint64`. */
  predicate Valid(b: Bitset)
  {
    |b.bits| < 0x1_0000_0000_0000_0000
  }

  function Length(b: Bitset): uint64
    requires Valid(b)
  {
    |b.bits|
  }

  function Get(b: Bitset, pos: uint64): bool
    requires pos < |b.bits|
  {
    b.bits[pos]
  }

  /** `bitset.New`: `length` bits, all clear. */
  function New(length: uint64): (b: Bitset)
    ensures Valid(b) && Length(b) == length
    ensures forall pos: uint64 :: pos < length ==> !Get(b, pos)
  {
    Bitset(seq(length, _ => false))
  }

  /** The vector with bit `pos` given value `v` and every other bit kept. */
  function Put(b: Bitset, pos: uint64, v: bool): (b': Bitset)
    requires Valid(b) && pos < Length(b)
    ensures Valid(b') && Length(b') == Length(b) && Get(b', pos) == v
    ensures forall i: uint64 :: i < Length(b) && i != pos ==> Get(b', i) == Get(b, i)
  {
    Bitset(b.bits[pos := v])
  }

  /** `Set`: the vector with bit `pos` set, and the bit's previous value. */
  function Set(b: Bitset, pos: uint64): (r: (Bitset, bool))
    requires Valid(b) && pos < Length(b)
    ensures r.1 == Get(b, pos)
    ensures Valid(r.0) && Length(r.0) == Length(b) && Get(r.0, pos)
    ensures forall i: uint64 :: i < Length(b) && i != pos ==> Get(r.0, i) == Get(b, i)
  {
    (Put(b, pos, true), Get(b, pos))
  }

  /** `Clear`: the vector with bit `pos` cleared, and the bit's previous value. */
  function Clear(b: Bitset, pos: uint64): (r: (Bitset, bool))
    requires Valid(b) && pos < Length(b)
    ensures r.1 == Get(b, pos)
    ensures Valid(r.0) && Length(r.0) == Length(b) && !Get(r.0, pos)
    ensures forall i: uint64 :: i < Length(b) && i != pos ==> Get(r.0, i) == Get(b, i)
  {
    (Put(b, pos, false), Get(b, pos))
  }

  /** `Flip`: the vector with bit `pos` negated, and the bit's previous value. */
  function Flip(b: Bitset, pos: uint64): (r: (Bitset, bool))
    requires Valid(b) && pos < Length(b)
    ensures r.1 == Get(b, pos)
    ensures Valid(r.0) && Length(r.0) == Length(b) && Get(r.0, pos) == !Get(b, pos)
    ensures forall i: uint64 :: i < Length(b) && i != pos ==> Get(r.0, i) == Get(b, i)
  {
    (Put(b, pos, !Get(b, pos)), Get(b, pos))
  }
}
