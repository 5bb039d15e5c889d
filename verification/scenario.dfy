/** Concrete runs matching the repository's tests. */
module Scenario {
  import opened Wrappers
  import opened Varint
  import Record
  import Facade
  import Replication

  const Zeros: seq<byte> := [0, 0, 0, 0, 0, 0, 0, 0]

  /** On a vector of 1000 bits: `Set(5)` returns false, `Clear(5)` true and
      `Flip(5)` false, and the closed log is these 36 bytes. The varint of
      1000 is two bytes, so its second byte, 0x07, stays behind in the
      scratch field and reappears in every later record, where decoding
      ignores it. */
  lemma SetClearFlip()
    ensures var a0 := Facade.New(1000, Zeros);
      var (a1, p1) := Facade.Set(a0, 5);
      var (a2, p2) := Facade.Clear(a1, 5);
      var (a3, p3) := Facade.Flip(a2, 5);
      && !p1 && Facade.Get(a1, 5)
      && p2 && !Facade.Get(a2, 5)
      && !p3 && Facade.Get(a3, 5)
      && Facade.Close(a3) == Some([
           1, 0xE8, 0x07, 0, 0, 0, 0, 0, 0,
           2, 5, 0x07, 0, 0, 0, 0, 0, 0,
           3, 5, 0x07, 0, 0, 0, 0, 0, 0,
           4, 5, 0x07, 0, 0, 0, 0, 0, 0])
  {
    var a0 := Facade.New(1000, Zeros);
    var (a1, p1) := Facade.Set(a0, 5);
    var (a2, p2) := Facade.Clear(a1, 5);
    var (a3, p3) := Facade.Flip(a2, 5);
    assert a3.r == Replication.Replication(Cmds, [], 0, Zeros);
    LogOfCommands();
    LogBytes();
  }

  const Cmds: seq<Record.Command> := [
    Record.Command(Record.New, 1000), Record.Command(Record.Set, 5),
    Record.Command(Record.Clear, 5), Record.Command(Record.Flip, 5)]

  /** The four records as written, and the log they form. */
  const Rec1: seq<byte> := [1] + Field1
  const Rec2: seq<byte> := [2] + Field2
  const Rec3: seq<byte> := [3] + Field2
  const Rec4: seq<byte> := [4] + Field2
  const Log: seq<byte> := Rec1 + Rec2 + Rec3 + Rec4

  /** The log byte by byte. */
  lemma LogBytes()
    ensures Log == [
      1, 0xE8, 0x07, 0, 0, 0, 0, 0, 0,
      2, 5, 0x07, 0, 0, 0, 0, 0, 0,
      3, 5, 0x07, 0, 0, 0, 0, 0, 0,
      4, 5, 0x07, 0, 0, 0, 0, 0, 0]
  {
  }

  /** The scratch field after the `new` record and after each `{op, 5}`. */
  const Field1: seq<byte> := [0xE8, 0x07, 0, 0, 0, 0, 0, 0]
  const Field2: seq<byte> := [5, 0x07, 0, 0, 0, 0, 0, 0]

  lemma WriteNew()
    ensures Record.WriteCommand(Zeros, Cmds[0]) == Some((Rec1, Field1))
  {
    assert Uvarint(1000) == [0xE8, 0x07];
    assert Uvarint(1000) + Zeros[2..] == Field1;
  }

  /** Each `{op, 5}` record overwrites only the first byte of the field. */
  lemma WriteAtFive(long: seq<byte>, c: Record.Command)
    requires |long| == FieldSize && c.index == 5 && long[1..] == Field2[1..]
    ensures Record.WriteCommand(long, c) == Some(([Record.Code(c.op)] + Field2, Field2))
  {
    assert Uvarint(5) == [5];
    assert Uvarint(5) + long[1..] == Field2;
  }

  /** One turn of the receive loop, unfolded. */
  lemma PumpStep(r: Replication.Replication, bytes: seq<byte>, long': seq<byte>, rest: Replication.Replication, n: nat)
    requires Replication.Valid(r) && r.writes != []
    requires Record.WriteCommand(r.long, r.writes[0]) == Some((bytes, long'))
    requires Replication.Pump(Replication.Replication(r.writes[1..], r.log + bytes, r.synced, long')) == Some((rest, n))
    ensures Replication.Pump(r) == Some((rest, n + 1))
  {
  }

  /** The writer state once all four records are written. */
  const Written: Replication.Replication := Replication.Replication([], Log, 0, Field2)

  lemma PumpedLast()
    ensures Replication.Pump(Replication.Replication(Cmds[3..], Rec1 + Rec2 + Rec3, 0, Field2)) == Some((Written, 1))
  {
    WriteAtFive(Field2, Cmds[3]);
    assert Replication.Pump(Written) == Some((Written, 0));
    assert Cmds[3..][1..] == [];
    PumpStep(Replication.Replication(Cmds[3..], Rec1 + Rec2 + Rec3, 0, Field2), Rec4, Field2, Written, 0);
  }

  lemma PumpedThird()
    ensures Replication.Pump(Replication.Replication(Cmds[2..], Rec1 + Rec2, 0, Field2)) == Some((Written, 2))
  {
    WriteAtFive(Field2, Cmds[2]);
    PumpedLast();
    assert Cmds[2..][1..] == Cmds[3..];
    PumpStep(Replication.Replication(Cmds[2..], Rec1 + Rec2, 0, Field2), Rec3, Field2, Written, 1);
  }

  lemma PumpedSecond()
    ensures Replication.Pump(Replication.Replication(Cmds[1..], Rec1, 0, Field1)) == Some((Written, 3))
  {
    WriteAtFive(Field1, Cmds[1]);
    PumpedThird();
    assert Cmds[1..][1..] == Cmds[2..];
    PumpStep(Replication.Replication(Cmds[1..], Rec1, 0, Field1), Rec2, Field2, Written, 2);
  }

  lemma Pumped()
    ensures Replication.Pump(Replication.Replication(Cmds, [], 0, Zeros)) == Some((Written, 4))
  {
    WriteNew();
    PumpedSecond();
    assert [] + Rec1 == Rec1;
    PumpStep(Replication.Replication(Cmds, [], 0, Zeros), Rec1, Field1, Written, 3);
  }

  lemma LogOfCommands()
    ensures Replication.Stop(Replication.Replication(Cmds, [], 0, Zeros)) == Some(Log)
  {
    Pumped();
    assert Replication.Pump(Written) == Some((Written, 0));
    assert Log[..|Log|] == Log;
  }

  /** A vector of 2^35 bits behaves at position 2^32 as at small positions:
      clear at first, set after `Set`, and the log of that run is two records. */
  lemma LargeIndex()
    ensures var a0 := Facade.New(0x8_0000_0000, Zeros);
      var (a1, p1) := Facade.Set(a0, 0x1_0000_0000);
      && Facade.Length(a1) == 0x8_0000_0000
      && !p1 && Facade.Get(a1, 0x1_0000_0000)
      && Facade.Close(a1).Some?
      && Record.DecodeLog(Facade.Close(a1).value)
         == Some([Record.Command(Record.New, 0x8_0000_0000), Record.Command(Record.Set, 0x1_0000_0000)])
  {
    var a0 := Facade.New(0x8_0000_0000, Zeros);
    var (a1, p1) := Facade.Set(a0, 0x1_0000_0000);
    Facade.SetKeepsConsistent(a0, [Record.Command(Record.New, 0x8_0000_0000)], 0x1_0000_0000);
    Facade.CloseWritesHistory(a1, [Record.Command(Record.New, 0x8_0000_0000), Record.Command(Record.Set, 0x1_0000_0000)]);
  }
}
