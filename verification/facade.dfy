/** The `Arbit` facade as a sequential state machine: the bit vector plus
    the writer's state. Every mutation updates the vector first and then
    queues its command; the background writer's work appears as explicit
    `Tick` steps that may fall between any two calls. */
module Facade {
  import opened Wrappers
  import opened Varint
  import Record
  import Bitset
  import Replication

  type Command = Record.Command

  datatype Arbit = Arbit(b: Bitset.Bitset, r: Replication.Replication)

  predicate Valid(a: Arbit)
  {
    Bitset.Valid(a.b) && Replication.Valid(a.r)
  }

  function Length(a: Arbit): uint64
    requires Valid(a)
  {
    Bitset.Length(a.b)
  }

  function Get(a: Arbit, pos: uint64): bool
    requires Valid(a) && pos < Length(a)
  {
    Bitset.Get(a.b, pos)
  }

  /** What an instance of length `length` can send to its log: `New`
      carrying the length, then mutations of in-range bits. */
  ghost predicate IsHistory(h: seq<Command>, length: uint64)
  {
    && |h| >= 1
    && h[0] == Record.Command(Record.New, length)
    && (forall i :: 1 <= i < |h| ==> h[i].op != Record.New && h[i].index < length)
  }

  /** The state after the log has received commands `h` in order: the first
      is `New` carrying the length, the others are mutations of in-range
      bits; the log holds the older ones and the queue the rest. */
  ghost predicate Consistent(a: Arbit, h: seq<Command>)
  {
    && Valid(a)
    && IsHistory(h, Length(a))
    && Record.DecodeLog(a.r.log).Some?
    && Record.DecodeLog(a.r.log).value + a.r.writes == h
  }

  /** `New`: a vector of `length` clear bits and a queue seeded with the
      `new` command. `long` is the scratch field as earlier records left it:
      it is a package global, zero only at program start. */
  function New(length: uint64, long: seq<byte>): (a: Arbit)
    requires |long| == FieldSize
    ensures Valid(a) && Length(a) == length
    ensures forall pos: uint64 :: pos < length ==> !Get(a, pos)
    ensures a.r.writes == [Record.Command(Record.New, length)] && a.r.log == []
    ensures Consistent(a, [Record.Command(Record.New, length)])
  {
    var a := Arbit(Bitset.New(length), Replication.Replication([Record.Command(Record.New, length)], [], 0, long));
    assert Record.DecodeLog([]) == Some([]);
    a
  }

  /** Queues one more command; nothing else in the writer changes. */
  function Enqueue(r: Replication.Replication, c: Command): Replication.Replication
  {
    r.(writes := r.writes + [c])
  }

  /** `Set`: sets bit `pos`, queues `{set, pos}`, returns the bit's previous value. */
  function Set(a: Arbit, pos: uint64): (res: (Arbit, bool))
    requires Valid(a) && pos < Length(a)
    ensures res.1 == Get(a, pos)
    ensures Valid(res.0) && Length(res.0) == Length(a) && Get(res.0, pos)
    ensures forall i: uint64 :: i < Length(a) && i != pos ==> Get(res.0, i) == Get(a, i)
    ensures res.0.r == Enqueue(a.r, Record.Command(Record.Set, pos))
  {
    var (b', prev) := Bitset.Set(a.b, pos);
    (Arbit(b', Enqueue(a.r, Record.Command(Record.Set, pos))), prev)
  }

  /** `Clear`: clears bit `pos`, queues `{clear, pos}`, returns the bit's previous value. */
  function Clear(a: Arbit, pos: uint64): (res: (Arbit, bool))
    requires Valid(a) && pos < Length(a)
    ensures res.1 == Get(a, pos)
    ensures Valid(res.0) && Length(res.0) == Length(a) && !Get(res.0, pos)
    ensures forall i: uint64 :: i < Length(a) && i != pos ==> Get(res.0, i) == Get(a, i)
    ensures res.0.r == Enqueue(a.r, Record.Command(Record.Clear, pos))
  {
    var (b', prev) := Bitset.Clear(a.b, pos);
    (Arbit(b', Enqueue(a.r, Record.Command(Record.Clear, pos))), prev)
  }

  /** `Flip`: negates bit `pos`, queues `{flip, pos}`, returns the bit's previous value. */
  function Flip(a: Arbit, pos: uint64): (res: (Arbit, bool))
    requires Valid(a) && pos < Length(a)
    ensures res.1 == Get(a, pos)
    ensures Valid(res.0) && Length(res.0) == Length(a) && Get(res.0, pos) == !Get(a, pos)
    ensures forall i: uint64 :: i < Length(a) && i != pos ==> Get(res.0, i) == Get(a, i)
    ensures res.0.r == Enqueue(a.r, Record.Command(Record.Flip, pos))
  {
    var (b', prev) := Bitset.Flip(a.b, pos);
    (Arbit(b', Enqueue(a.r, Record.Command(Record.Flip, pos))), prev)
  }

  /** One pass of the writer loop: a timer tick flushes with `force`, the
      `default` branch without. None is the writer's panic. */
  function Tick(a: Arbit, force: bool): (res: Option<Arbit>)
    requires Valid(a)
    ensures res.Some? <==> Replication.AllEncodable(a.r.writes)
    ensures res.Some? ==> Valid(res.value) && res.value.b == a.b && res.value.r.writes == []
    ensures res.Some? && Record.DecodeLog(a.r.log).Some? ==> Record.DecodeLog(res.value.r.log) == Some(Record.DecodeLog(a.r.log).value + a.r.writes)
  {
    match Replication.Flush(a.r, force)
    case None => None
    case Some((r', _)) => Some(a.(r := r'))
  }

  /** `Close`: stops the writer, which drains the queue with a forced flush;
      yields the log file's final contents. */
  function Close(a: Arbit): (file: Option<seq<byte>>)
    requires Valid(a)
    ensures file.Some? <==> Replication.AllEncodable(a.r.writes)
    ensures file.Some? ==> |file.value| == |a.r.log| + Record.RecordSize * |a.r.writes|
    ensures file.Some? ==> file.value[..|a.r.log|] == a.r.log
    ensures file.Some? ==> Record.DecodeLog(file.value[|a.r.log|..]) == Some(a.r.writes)
    ensures file.Some? && Record.DecodeLog(a.r.log).Some? ==> Record.DecodeLog(file.value) == Some(Record.DecodeLog(a.r.log).value + a.r.writes)
  {
    Replication.Stop(a.r)
  }

  /** Queuing a mutation of an in-range bit extends the history by that command. */
  lemma EnqueueKeepsConsistent(a: Arbit, h: seq<Command>, a': Arbit, c: Command)
    requires Consistent(a, h)
    requires Valid(a') && Length(a') == Length(a)
    requires c.op != Record.New && c.index < Length(a)
    requires a'.r == Enqueue(a.r, c)
    ensures Consistent(a', h + [c])
  {
    var logged := Record.DecodeLog(a.r.log).value;
    assert logged + (a.r.writes + [c]) == h + [c];
  }

  lemma SetKeepsConsistent(a: Arbit, h: seq<Command>, pos: uint64)
    requires Consistent(a, h) && pos < Length(a)
    ensures Consistent(Set(a, pos).0, h + [Record.Command(Record.Set, pos)])
  {
    EnqueueKeepsConsistent(a, h, Set(a, pos).0, Record.Command(Record.Set, pos));
  }

  lemma ClearKeepsConsistent(a: Arbit, h: seq<Command>, pos: uint64)
    requires Consistent(a, h) && pos < Length(a)
    ensures Consistent(Clear(a, pos).0, h + [Record.Command(Record.Clear, pos)])
  {
    EnqueueKeepsConsistent(a, h, Clear(a, pos).0, Record.Command(Record.Clear, pos));
  }

  lemma FlipKeepsConsistent(a: Arbit, h: seq<Command>, pos: uint64)
    requires Consistent(a, h) && pos < Length(a)
    ensures Consistent(Flip(a, pos).0, h + [Record.Command(Record.Flip, pos)])
  {
    EnqueueKeepsConsistent(a, h, Flip(a, pos).0, Record.Command(Record.Flip, pos));
  }

  /** With a length below 2^56 every command of the history is encodable. */
  lemma HistoryEncodable(a: Arbit, h: seq<Command>)
    requires Consistent(a, h) && Length(a) < FieldLimit
    ensures Replication.AllEncodable(a.r.writes)
  {
    var logged := Record.DecodeLog(a.r.log).value;
    forall i | 0 <= i < |a.r.writes|
      ensures Record.Encodable(a.r.writes[i])
    {
      assert a.r.writes[i] == h[|logged| + i];
    }
  }

  /** A length of 2^56 or more never reaches the log: its `new` command is
      still at the head of the queue, and no write can pass it. */
  lemma OversizedStuck(a: Arbit, h: seq<Command>)
    requires Consistent(a, h) && Length(a) >= FieldLimit
    ensures a.r.log == [] && !Replication.AllEncodable(a.r.writes)
  {
    var logged := Record.DecodeLog(a.r.log).value;
    if |logged| > 0 {
      assert false;
    }
    assert a.r.writes[0] == h[0];
  }

  /** A writer pass cannot fail while the length is below 2^56. */
  lemma TickSucceeds(a: Arbit, h: seq<Command>, force: bool)
    requires Consistent(a, h) && Length(a) < FieldLimit
    ensures Tick(a, force).Some?
  {
    HistoryEncodable(a, h);
  }

  /** A writer pass keeps the history: it only moves commands from the queue
      to the log. */
  lemma TickKeepsConsistent(a: Arbit, h: seq<Command>, force: bool)
    requires Consistent(a, h) && Tick(a, force).Some?
    ensures Consistent(Tick(a, force).value, h)
  {
    var a' := Tick(a, force).value;
    assert a'.r.writes == [];
    assert Record.DecodeLog(a'.r.log).value + [] == h;
  }

  /** `Close` of an instance with history `h` leaves a file of exactly
      9 * |h| bytes that decodes to `h` in order; it succeeds exactly when the
      length is below 2^56. */
  lemma CloseWritesHistory(a: Arbit, h: seq<Command>)
    requires Consistent(a, h)
    ensures Close(a).Some? <==> Length(a) < FieldLimit
    ensures Close(a).Some? ==> |Close(a).value| == Record.RecordSize * |h|
    ensures Close(a).Some? ==> Record.DecodeLog(Close(a).value) == Some(h)
  {
    if Length(a) < FieldLimit {
      HistoryEncodable(a, h);
    } else {
      OversizedStuck(a, h);
    }
  }
}
