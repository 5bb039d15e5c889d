/** A whole life of one instance: `New`, then any interleaving of mutating
    calls and writer passes, then `Close`. */
module Session {
  import opened Wrappers
  import opened Varint
  import Record
  import Facade

  /** A mutating call on the facade, or one pass of the background writer. */
  datatype Call = SetBit(pos: uint64) | ClearBit(pos: uint64) | FlipBit(pos: uint64) | Tick(force: bool)

  /** The command a call queues, if it queues one. */
  function Issue(call: Call): seq<Record.Command>
  {
    match call
    case SetBit(pos) => [Record.Command(Record.Set, pos)]
    case ClearBit(pos) => [Record.Command(Record.Clear, pos)]
    case FlipBit(pos) => [Record.Command(Record.Flip, pos)]
    case Tick(_) => []
  }

  /** The commands the mutating calls among `calls` queue, in call order. */
  function Issued(calls: seq<Call>): seq<Record.Command>
  {
    if |calls| == 0 then [] else Issue(calls[0]) + Issued(calls[1..])
  }

  /** Every mutating call names a bit of an instance of length `length`. */
  predicate InRange(calls: seq<Call>, length: uint64)
  {
    forall i :: 0 <= i < |calls| && !calls[i].Tick? ==> calls[i].pos < length
  }

  /** Performs one call on the instance; None is the writer's panic. */
  function Apply(a: Facade.Arbit, call: Call): (res: Option<Facade.Arbit>)
    requires Facade.Valid(a) && (!call.Tick? ==> call.pos < Facade.Length(a))
    ensures res.Some? ==> Facade.Valid(res.value) && Facade.Length(res.value) == Facade.Length(a)
  {
    match call
    case SetBit(pos) => Some(Facade.Set(a, pos).0)
    case ClearBit(pos) => Some(Facade.Clear(a, pos).0)
    case FlipBit(pos) => Some(Facade.Flip(a, pos).0)
    case Tick(force) => Facade.Tick(a, force)
  }

  /** Every call extends the history by the command it queues, and only a
      writer pass on an instance of length 2^56 or more can fail. */
  lemma ApplyKeepsConsistent(a: Facade.Arbit, h: seq<Record.Command>, call: Call)
    requires Facade.Consistent(a, h) && (!call.Tick? ==> call.pos < Facade.Length(a))
    ensures Facade.Length(a) < FieldLimit ==> Apply(a, call).Some?
    ensures Apply(a, call).Some? ==> Facade.Consistent(Apply(a, call).value, h + Issue(call))
    ensures Apply(a, call).Some? ==> Facade.Length(Apply(a, call).value) == Facade.Length(a)
  {
    match call
    case SetBit(pos) => Facade.SetKeepsConsistent(a, h, pos);
    case ClearBit(pos) => Facade.ClearKeepsConsistent(a, h, pos);
    case FlipBit(pos) => Facade.FlipKeepsConsistent(a, h, pos);
    case Tick(force) =>
      if Facade.Length(a) < FieldLimit {
        Facade.TickSucceeds(a, h, force);
      }
      if Apply(a, call).Some? {
        Facade.TickKeepsConsistent(a, h, force);
        assert h + [] == h;
      }
  }

  /** Performs the calls in order; None is the writer's panic. */
  function ApplyAll(a: Facade.Arbit, calls: seq<Call>): Option<Facade.Arbit>
    requires Facade.Valid(a) && InRange(calls, Facade.Length(a))
    decreases |calls|
  {
    if |calls| == 0 then Some(a)
    else match Apply(a, calls[0])
      case None => None
      case Some(a') =>
        ApplyAll(a', calls[1..])
  }

  /** A run of calls extends the history by the commands they queue, in call
      order, and cannot fail while the length is below 2^56. */
  lemma {:induction false} ApplyAllKeepsConsistent(a: Facade.Arbit, h: seq<Record.Command>, calls: seq<Call>)
    requires Facade.Consistent(a, h) && InRange(calls, Facade.Length(a))
    ensures Facade.Length(a) < FieldLimit ==> ApplyAll(a, calls).Some?
    ensures ApplyAll(a, calls).Some? ==> Facade.Consistent(ApplyAll(a, calls).value, h + Issued(calls))
    ensures ApplyAll(a, calls).Some? ==> Facade.Length(ApplyAll(a, calls).value) == Facade.Length(a)
    decreases |calls|
  {
    if |calls| == 0 {
      assert h + [] == h;
    } else {
      ApplyKeepsConsistent(a, h, calls[0]);
      if Apply(a, calls[0]).Some? {
        var a' := Apply(a, calls[0]).value;
        ApplyAllKeepsConsistent(a', h + Issue(calls[0]), calls[1..]);
        Associative(h, Issue(calls[0]), Issued(calls[1..]));
      }
    }
  }

  /** Runs `New(length)`, the calls in order, and `Close`, and returns the log
      file. Whatever the writer passes in between, the file is one 9-byte
      record per command: `new` with the length, then one per mutating call in
      call order. It is produced exactly when the length is below 2^56;
      otherwise the writer panics on the `new` record. */
  function Run(length: uint64, long: seq<byte>, calls: seq<Call>): (file: Option<seq<byte>>)
    requires |long| == FieldSize && InRange(calls, length)
    ensures file.Some? <==> length < FieldLimit
    ensures file.Some? ==> |file.value| == Record.RecordSize * (1 + |Issued(calls)|)
    ensures file.Some? ==> Record.DecodeLog(file.value) == Some([Record.Command(Record.New, length)] + Issued(calls))
  {
    var a := Facade.New(length, long);
    ApplyAllKeepsConsistent(a, [Record.Command(Record.New, length)], calls);
    match ApplyAll(a, calls)
    case None => None
    case Some(a') =>
      Facade.CloseWritesHistory(a', [Record.Command(Record.New, length)] + Issued(calls));
      Facade.Close(a')
  }
}
