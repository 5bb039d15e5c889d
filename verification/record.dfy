/** The 9-byte log record: one opcode byte followed by the 8-byte scratch
    field into which the command's value was written as a varint. */
module Record {
  import opened Wrappers
  import opened Varint

  /** The opcode constants `new`, `set`, `clear`, `flip`, i.e. 1 + iota. */
  datatype Opcode = New | Set | Clear | Flip

  function Code(op: Opcode): byte
  {
    match op
    case New => 1
    case Set => 2
    case Clear => 3
    case Flip => 4
  }

  /** The opcode a byte names, if any. */
  function OpcodeOf(b: byte): (r: Option<Opcode>)
    ensures r.Some? <==> 1 <= b <= 4
    ensures r.Some? ==> Code(r.value) == b
  {
    if b == 1 then Some(New)
    else if b == 2 then Some(Set)
    else if b == 3 then Some(Clear)
    else if b == 4 then Some(Flip)
    else None
  }

  /** A `command`: for `New` the index is the vector's length, otherwise a
      bit position. */
  datatype Command = Command(op: Opcode, index: uint64)

  const RecordSize: nat := 1 + FieldSize

  /** Commands whose varint fits the field: index < 2^56. */
  predicate Encodable(c: Command)
  {
    c.index < FieldLimit
  }

  /** `writeCommand`: given the scratch field left by the previous record,
      yields the record's bytes and the scratch field after it. The varint
      overwrites only the front of the field; the bytes behind it are stale
      bytes of earlier records. None is the panic of `PutUvarint` on an
      index of 2^56 or more. */
  function WriteCommand(long: seq<byte>, c: Command): (r: Option<(seq<byte>, seq<byte>)>)
    requires |long| == FieldSize
    ensures r.Some? <==> Encodable(c)
    ensures r.Some? ==> |r.value.0| == RecordSize && |r.value.1| == FieldSize
    ensures r.Some? ==> r.value.0[0] == Code(c.op) && r.value.0[1..] == r.value.1
    ensures r.Some? ==> DecodeRecord(r.value.0) == Some(c)
  {
    var field := Uvarint(c.index);
    FitsInField(c.index);
    if |field| <= FieldSize then
      var long' := field + long[|field|..];
      var bytes := [Code(c.op)] + long';
      assert bytes[1..] == long';
      ReadUvarintOfUvarint(c.index, long[|field|..]);
      Some((bytes, long'))
    else
      None
  }

  /** Reads one record the way the test does: the opcode from byte 0 and
      `binary.Uvarint` over bytes 1 to 8, ignoring what follows the varint.
      None when the opcode is unknown or the field holds no complete varint. */
  function DecodeRecord(rec: seq<byte>): (r: Option<Command>)
    requires |rec| == RecordSize
    ensures r.Some? ==> Code(r.value.op) == rec[0] && Encodable(r.value)
  {
    match OpcodeOf(rec[0])
    case None => None
    case Some(op) =>
      match ReadUvarint(rec[1..])
      case None => None
      case Some((v, n)) =>
        UvarintLength(v, FieldSize);
        FitsInField(v);
        Some(Command(op, v))
  }

  /** Splits a log into 9-byte records and decodes each, in file order. */
  function DecodeLog(bytes: seq<byte>): (r: Option<seq<Command>>)
    ensures r.Some? ==> |bytes| == RecordSize * |r.value|
    ensures r.Some? ==> forall i :: 0 <= i < |r.value| ==> Encodable(r.value[i])
    decreases |bytes|
  {
    if |bytes| == 0 then Some([])
    else if |bytes| < RecordSize then None
    else match DecodeRecord(bytes[..RecordSize])
      case None => None
      case Some(c) =>
        match DecodeLog(bytes[RecordSize..])
        case None => None
        case Some(cs) => Some([c] + cs)
  }

  /** Logs concatenate: two well-formed logs written one after the other
      decode to the first's records followed by the second's. */
  lemma {:induction false} DecodeLogAppend(a: seq<byte>, b: seq<byte>)
    requires DecodeLog(a).Some? && DecodeLog(b).Some?
    ensures DecodeLog(a + b) == Some(DecodeLog(a).value + DecodeLog(b).value)
    decreases |a|
  {
    if |a| != 0 {
      var c := DecodeRecord(a[..RecordSize]).value;
      var rest := DecodeLog(a[RecordSize..]).value;
      assert DecodeLog(a).value == [c] + rest;
      assert (a + b)[..RecordSize] == a[..RecordSize];
      assert (a + b)[RecordSize..] == a[RecordSize..] + b;
      DecodeLogAppend(a[RecordSize..], b);
      assert DecodeLog(a + b) == Some([c] + (rest + DecodeLog(b).value));
      assert DecodeLog(a).value + DecodeLog(b).value == [c] + (rest + DecodeLog(b).value);
    } else {
      assert a + b == b;
      assert DecodeLog(a) == Some([]);
      assert [] + DecodeLog(b).value == DecodeLog(b).value;
    }
  }

  /** A single record is a one-entry log. */
  lemma DecodeLogRecord(rec: seq<byte>, c: Command)
    requires |rec| == RecordSize && DecodeRecord(rec) == Some(c)
    ensures DecodeLog(rec) == Some([c])
  {
    assert rec[..RecordSize] == rec;
    assert rec[RecordSize..] == [];
    assert DecodeLog(rec[RecordSize..]) == Some([]);
    assert DecodeLog(rec) == Some([c] + []);
    assert [c] + [] == [c];
  }

  /** The record for `c` decodes to `c` whatever scratch contents it was
      written over: two different stale fields give the same command. */
  lemma StaleFieldIgnored(long1: seq<byte>, long2: seq<byte>, c: Command)
    requires |long1| == FieldSize && |long2| == FieldSize && Encodable(c)
    ensures WriteCommand(long1, c).Some? && WriteCommand(long2, c).Some?
    ensures DecodeRecord(WriteCommand(long1, c).value.0) == DecodeRecord(WriteCommand(long2, c).value.0) == Some(c)
  {
  }
}
