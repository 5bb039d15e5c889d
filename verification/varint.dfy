/** Unsigned base-128 varints as produced by Go's `binary.PutUvarint` and read
    back by `binary.Uvarint` (the Protocol Buffers varint), over byte sequences. */
module Varint {
  import opened Wrappers

  type byte = b: int | 0 <= b < 256

  /** Go's `uint64`. */
  type uint64 = x: int | 0 <= x < 0x1_0000_0000_0000_0000

  /** Width of the fixed field that every record reserves for its varint:
      the length of the package-level scratch buffer `long`. */
  const FieldSize: nat := 8

  /** 2^56 = 128^FieldSize: the least value whose varint does not fit the field. */
  const FieldLimit: nat := 0x100_0000_0000_0000

  function Pow128(k: nat): (p: nat)
    ensures p >= 1
  {
    if k == 0 then 1 else 128 * Pow128(k - 1)
  }

  /** The varint of `x`: seven bits per byte, least significant group first,
      the continuation bit 0x80 set on every byte but the last. */
  function Uvarint(x: nat): (r: seq<byte>)
    ensures 1 <= |r|
    ensures r[|r| - 1] < 0x80
    ensures forall i :: 0 <= i < |r| - 1 ==> r[i] >= 0x80
  {
    if x < 0x80 then [x] else [x % 0x80 + 0x80] + Uvarint(x / 0x80)
  }

  /** `binary.Uvarint`: the value read and the number of bytes it took.
      Reading stops at the first byte without the continuation bit; it is
      None exactly when `buf` has no such byte (Go returns n == 0 then). */
  function ReadUvarint(buf: seq<byte>): (r: Option<(nat, nat)>)
    ensures r.Some? ==> 1 <= r.value.1 <= |buf|
    ensures r.Some? ==> r.value.0 < Pow128(r.value.1)
    ensures r.Some? ==> buf[r.value.1 - 1] < 0x80
    ensures r.Some? ==> forall i :: 0 <= i < r.value.1 - 1 ==> buf[i] >= 0x80
    ensures r.None? <==> forall i :: 0 <= i < |buf| ==> buf[i] >= 0x80
  {
    if |buf| == 0 then None
    else if buf[0] < 0x80 then Some((buf[0], 1))
    else match ReadUvarint(buf[1..])
      case None => None
      case Some((v, n)) => Some((buf[0] - 0x80 + 0x80 * v, n + 1))
  }

  /** Reading stops at the varint's last byte: whatever follows it in the
      buffer, stale or not, does not affect the value read. */
  lemma {:induction false} ReadUvarintOfUvarint(x: nat, tail: seq<byte>)
    ensures ReadUvarint(Uvarint(x) + tail) == Some((x, |Uvarint(x)|))
  {
    if x >= 0x80 {
      var buf := Uvarint(x) + tail;
      assert buf[1..] == Uvarint(x / 0x80) + tail;
      ReadUvarintOfUvarint(x / 0x80, tail);
    }
  }

  /** A varint takes at most `k` bytes exactly when the value is below 128^k. */
  lemma {:induction false} UvarintLength(x: nat, k: nat)
    requires k >= 1
    ensures |Uvarint(x)| <= k <==> x < Pow128(k)
  {
    if x >= 0x80 && k > 1 {
      UvarintLength(x / 0x80, k - 1);
    }
  }

  lemma FieldLimitIsPow()
    ensures FieldLimit == Pow128(FieldSize)
  {
  }

  /** The varint of `x` fits the 8-byte field exactly when x < 2^56. */
  lemma FitsInField(x: nat)
    ensures |Uvarint(x)| <= FieldSize <==> x < FieldLimit
  {
    UvarintLength(x, FieldSize);
    FieldLimitIsPow();
  }

  lemma Associative<T>(a: seq<T>, b: seq<T>, c: seq<T>)
    ensures (a + b) + c == a + (b + c)
  {
  }

  /** Storing `b` just past a front `d` replaces the first byte of what follows. */
  lemma Overwrite(d: seq<byte>, t: seq<byte>, b: byte)
    requires |t| > 0
    ensures (d + t)[|d| := b] == (d + [b]) + t[1..]
  {
  }

  /** One turn of `PutUvarint`'s loop: storing the low seven bits of `v`
      with the continuation bit at the end of the front `done`. */
  lemma PutStep(done: seq<byte>, buf: seq<byte>, v: nat, b: byte)
    requires |done| < |buf| && v >= 0x80 && b == v % 0x80 + 0x80
    ensures (done + buf[|done|..])[|done| := b] == (done + [b]) + buf[|done| + 1..]
    ensures (done + [b]) + Uvarint(v / 0x80) == done + Uvarint(v)
  {
    Overwrite(done, buf[|done|..], b);
    assert buf[|done|..][1..] == buf[|done| + 1..];
    Associative(done, [b], Uvarint(v / 0x80));
  }

  /** The last byte of `PutUvarint`: `v` itself, without the continuation bit. */
  lemma PutLast(done: seq<byte>, buf: seq<byte>, v: nat)
    requires |done| < |buf| && v < 0x80
    ensures (done + buf[|done|..])[|done| := v] == (done + Uvarint(v)) + buf[|done| + 1..]
  {
    Overwrite(done, buf[|done|..], v);
    assert buf[|done|..][1..] == buf[|done| + 1..];
  }

  /** `binary.PutUvarint(buf, x)`: writes the varint of `x` over the front of
      `buf` and returns how many bytes it wrote. The bytes after those keep
      their old contents. When the varint is longer than `buf`, Go indexes
      past the slice and panics: `ok` is false then. */
  method PutUvarint(buf: seq<byte>, x: uint64) returns (ok: bool, out: seq<byte>, n: nat)
    ensures ok <==> |Uvarint(x)| <= |buf|
    ensures ok ==> n == |Uvarint(x)| && out == Uvarint(x) + buf[n..]
  {
    out := buf;
    var v: nat := x;
    var i: nat := 0;
    ghost var done: seq<byte> := [];
    while v >= 0x80
      invariant i == |done| <= |buf|
      invariant done + Uvarint(v) == Uvarint(x)
      invariant out == done + buf[i..]
      decreases v
    {
      if i >= |buf| {
        return false, out, 0;
      }
      // the low seven bits with the continuation bit set
      var b: byte := v % 0x80 + 0x80;
      PutStep(done, buf, v, b);
      out := out[i := b];
      done := done + [b];
      v := v / 0x80;
      i := i + 1;
    }
    if i >= |buf| {
      return false, out, 0;
    }
    PutLast(done, buf, v);
    out := out[i := v];
    ok, n := true, i + 1;
  }
}
