/** The background writer, reduced to its sequential effect: the `writes`
    channel is a FIFO sequence, the buffered writer over the log file is the
    sequence of bytes handed to it, and `synced` counts how many of those bytes
    a forced flush has pushed to the file. */
module Replication {
  import opened Wrappers
  import opened Varint
  import opened Record

  datatype Replication = Replication(
    writes: seq<Command>,  // queued, not yet written
    log: seq<byte>,        // every byte handed to the buffered writer
    synced: nat,           // bytes of `log` a forced flush has made durable
    long: seq<byte>        // the scratch field, stale bytes included
  )

  predicate Valid(r: Replication)
  {
    |r.long| == FieldSize && r.synced <= |r.log|
  }

  predicate AllEncodable(cs: seq<Command>)
  {
    forall i :: 0 <= i < |cs| ==> Encodable(cs[i])
  }

  /** The receive loop of `flush`: takes queued commands one by one, oldest
      first, and writes each, until the queue is empty. None is the panic on
      a command whose index does not fit the field. */
  function Pump(r: Replication): (res: Option<(Replication, nat)>)
    requires Valid(r)
    ensures res.Some? <==> AllEncodable(r.writes)
    ensures res.Some? ==> Valid(res.value.0) && res.value.0.writes == []
    ensures res.Some? ==> res.value.1 == |r.writes| && res.value.0.synced == r.synced
    ensures res.Some? ==> |res.value.0.log| == |r.log| + RecordSize * res.value.1
    ensures res.Some? ==> res.value.0.log[..|r.log|] == r.log
    ensures res.Some? ==> DecodeLog(res.value.0.log[|r.log|..]) == Some(r.writes)
    decreases |r.writes|
  {
    if r.writes == [] then
      assert r.log[|r.log|..] == [];
      assert DecodeLog([]) == Some([]);
      Some((r, 0))
    else
      match WriteCommand(r.long, r.writes[0])
      case None => None
      case Some((bytes, long')) =>
        var next := Replication(r.writes[1..], r.log + bytes, r.synced, long');
        assert AllEncodable(r.writes) <==> Encodable(r.writes[0]) && AllEncodable(next.writes);
        match Pump(next)
        case None => None
        case Some((r', n)) =>
          LogExtends(r.log, bytes, r'.log, r.writes[0], next.writes);
          assert [r.writes[0]] + next.writes == r.writes;
          Some((r', n + 1))
  }

  /** Writing one record and then a log of `cs` after it leaves a log of
      `[c] + cs` after the original bytes. */
  lemma LogExtends(prefix: seq<byte>, bytes: seq<byte>, full: seq<byte>, c: Command, cs: seq<Command>)
    requires |bytes| == RecordSize && DecodeRecord(bytes) == Some(c)
    requires |prefix + bytes| <= |full| && full[..|prefix + bytes|] == prefix + bytes
    requires DecodeLog(full[|prefix + bytes|..]) == Some(cs)
    ensures full[..|prefix|] == prefix
    ensures DecodeLog(full[|prefix|..]) == Some([c] + cs)
  {
    assert full[..|prefix|] == (prefix + bytes)[..|prefix|];
    assert full[|prefix|..] == bytes + full[|prefix + bytes|..];
    DecodeLogRecord(bytes, c);
    DecodeLogAppend(bytes, full[|prefix + bytes|..]);
  }

  /** Appending a log of `cs` to a well-formed log extends its records by `cs`. */
  lemma AppendedLog(prior: seq<byte>, full: seq<byte>, cs: seq<Command>)
    requires |prior| <= |full| && full[..|prior|] == prior
    requires DecodeLog(full[|prior|..]) == Some(cs)
    ensures DecodeLog(prior).Some? ==> DecodeLog(full) == Some(DecodeLog(prior).value + cs)
  {
    if DecodeLog(prior).Some? {
      assert full == prior + full[|prior|..];
      DecodeLogAppend(prior, full[|prior|..]);
    }
  }

  /** `flush`: pumps the queue and, when `force` is set, flushes the buffered
      writer so every byte written so far is durable. Returns the number of
      commands written. */
  function Flush(r: Replication, force: bool): (res: Option<(Replication, nat)>)
    requires Valid(r)
    ensures res.Some? <==> AllEncodable(r.writes)
    ensures res.Some? ==> Valid(res.value.0) && res.value.0.writes == [] && res.value.1 == |r.writes|
    ensures res.Some? ==> |res.value.0.log| == |r.log| + RecordSize * res.value.1
    ensures res.Some? ==> res.value.0.log[..|r.log|] == r.log
    ensures res.Some? ==> DecodeLog(res.value.0.log[|r.log|..]) == Some(r.writes)
    ensures res.Some? ==> res.value.0.synced == if force then |res.value.0.log| else r.synced
    ensures r.writes == [] ==> res.Some? && res.value.0.log == r.log && res.value.1 == 0
    ensures res.Some? && DecodeLog(r.log).Some? ==> DecodeLog(res.value.0.log) == Some(DecodeLog(r.log).value + r.writes)
  {
    match Pump(r)
    case None => None
    case Some((r', num)) =>
      AppendedLog(r.log, r'.log, r.writes);
      Some((if force then r'.(synced := |r'.log|) else r', num))
  }

  /** `drain`: flushes until a flush finds nothing to write. */
  function Drain(r: Replication, force: bool): (res: Option<Replication>)
    requires Valid(r)
    ensures res.Some? <==> AllEncodable(r.writes)
    ensures res.Some? ==> Valid(res.value) && res.value.writes == []
    ensures res.Some? ==> |res.value.log| == |r.log| + RecordSize * |r.writes|
    ensures res.Some? ==> res.value.log[..|r.log|] == r.log
    ensures res.Some? ==> DecodeLog(res.value.log[|r.log|..]) == Some(r.writes)
    ensures res.Some? && force ==> res.value.synced == |res.value.log|
    decreases |r.writes|
  {
    match Flush(r, force)
    case None => None
    case Some((r', num)) =>
      if num <= 0 then Some(r')
      else
        var r'' := Drain(r', force).value;
        assert r''.log == r'.log;
        Some(r'')
  }

  /** The stop branch of `replicate`: the queue is closed, drained with a
      forced flush, and the file closed. Yields the file's final contents. */
  function Stop(r: Replication): (file: Option<seq<byte>>)
    requires Valid(r)
    ensures file.Some? <==> AllEncodable(r.writes)
    ensures file.Some? ==> |file.value| == |r.log| + RecordSize * |r.writes|
    ensures file.Some? ==> file.value[..|r.log|] == r.log
    ensures file.Some? ==> DecodeLog(file.value[|r.log|..]) == Some(r.writes)
    ensures file.Some? && DecodeLog(r.log).Some? ==> DecodeLog(file.value) == Some(DecodeLog(r.log).value + r.writes)
  {
    match Drain(r, true)
    case None => None
    case Some(r') =>
      AppendedLog(r.log, r'.log, r.writes);
      // after the forced flush the file holds every byte written
      var file := r'.log[..r'.synced];
      assert file == r'.log;
      Some(file)
  }
}
