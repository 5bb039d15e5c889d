# arbit replication log, modelled in Dafny

`arbit` is a bit vector whose every mutation is also recorded in an
append-only binary log. Callers mutate the vector. Each mutation pushes a
`command` onto a buffered channel. A background goroutine drains the
channel into a buffered file writer. It flushes the writer once a second,
and once more when the instance is closed.

This project models that core sequentially:

- `Varint` (varint.dfy): the base-128 varint of Go's `binary.PutUvarint` and
  `binary.Uvarint`. `PutUvarint` mirrors Go's loop over a byte buffer.
- `Record` (record.dfy): the opcodes and the 9-byte record. A record is one
  opcode byte followed by the 8-byte scratch field `long`. The encoder
  `WriteCommand` threads that scratch field from record to record, so the
  stale bytes left by earlier, longer varints are part of the model. The
  decoders `DecodeRecord`/`DecodeLog` read the log the way the test does.
- `Bitset` (bitset.dfy): the external bit vector, abstracted as a sequence
  of booleans and specified by the behaviour the tests rely on.
- `Replication` (replication.dfy): the writer. The channel is a FIFO
  sequence, and the buffered writer is the sequence of bytes handed to it.
  `synced` counts the bytes a forced flush has made durable. `Pump` is the
  receive loop of `flush`. `Flush` adds the optional forced flush, `Drain`
  repeats it until nothing moves, and `Stop` is the stop branch of
  `replicate`.
- `Facade` (facade.dfy): `New`, `Length`, `Get`, `Set`, `Clear`, `Flip` and
  `Close` on an immutable `Arbit` value, plus `Tick`, one pass of the
  writer loop. `Consistent(a, h)` says the log decodes to a prefix of the
  history `h` and the queue holds the rest.
- `Session` (session.dfy): an instance's whole life, with writer passes
  interleaved anywhere among the calls.
- `Scenario` (scenario.dfy): concrete runs that mirror the repository's tests.

A panic in the Go program is modelled as `None`. `command.index` is a
`uint64`, but `PutUvarint` into the 8-byte `long` runs past the field and
panics for any index of 2^56 or more (arbit.go:48-53). Records therefore
round-trip only below 2^56. `Session.Run` shows the consequence: closing an
instance yields a log exactly when its length is below 2^56.

`Get` and `Length` take the state and return a value. They cannot change
the bits or the queue, so they carry no contract of their own. What they
return after each mutation is stated in the contracts of `Set`, `Clear`,
`Flip` and `New`.

## Model

| member | source | states |
|---|---|---|
| Varint.Uvarint | arbit.go:52 | the varint ends with its only byte below 0x80; every earlier byte has the continuation bit set |
| Varint.ReadUvarint | arbit_test.go:68 | reading stops at the first byte without the continuation bit and consumes it, so between 1 and len(buf) bytes; it yields a value below 128^n for n bytes read; it fails (Go's n == 0) exactly when no byte lacks the continuation bit |
| Varint.ReadUvarintOfUvarint | arbit_test.go:63-72 | reading the varint of x gives back x and its length, whatever bytes follow it in the buffer |
| Varint.UvarintLength | arbit.go:48-52 | the varint of x fits in k bytes exactly when x < 128^k |
| Varint.FitsInField | arbit.go:48-53 | the varint fits the 8-byte `long` buffer exactly when the value is below 2^56 |
| Varint.PutUvarint | arbit.go:52 | succeeds exactly when the varint fits the buffer; then the buffer holds the varint followed by the buffer's old trailing bytes, and the count returned is the varint's length |
| Record.OpcodeOf | arbit.go:18-23 | a byte names an opcode exactly when it is 1 to 4, and the opcode named has that code |
| Record.WriteCommand | arbit.go:50-54 | succeeds exactly when the index is below 2^56; the record is 9 bytes, with the opcode byte first and then the new scratch field, and it decodes back to the command |
| Record.DecodeRecord | arbit_test.go:63-72 | a decoded record's opcode matches byte 0 and its index is below 2^56 |
| Record.DecodeLog | arbit_test.go:55-60 | a log that decodes to n commands is exactly 9·n bytes, and every decoded index fits the field |
| Record.DecodeLogAppend | arbit.go:59-72 | two logs written one after the other decode to the first's commands followed by the second's |
| Record.StaleFieldIgnored | arbit.go:48-53 | a command written over two different stale scratch fields decodes to the same command |
| Replication.Pump | arbit.go:58-72 | the receive loop empties the queue and returns how many commands it took; it appends 9 bytes per command and keeps the old log as a prefix; the appended bytes decode to the queue in FIFO order; it fails exactly when some queued index is 2^56 or more |
| Replication.Flush | arbit.go:56-78 | as Pump; a forced flush also makes every byte durable, and on an empty queue it writes nothing and returns 0 |
| Replication.Drain | arbit.go:80-87 | draining leaves the queue empty; the bytes appended decode to the queued commands in order, 9 per command; a forced drain leaves everything durable |
| Replication.Stop | arbit.go:106-111 | the file after stopping is the old log followed by the records of every queued command, in order, and it decodes to the old log's commands followed by the queue |
| Bitset.New | arbit_test.go:13-22 | a new vector has the requested length and every bit clear |
| Bitset.Set | arbit_test.go:84-97 | returns the previous bit; afterwards the bit is set, the length is unchanged and every other bit keeps its value |
| Bitset.Clear | arbit_test.go:128-144 | returns the previous bit; afterwards the bit is clear, the length is unchanged and every other bit keeps its value |
| Bitset.Flip | arbit_test.go:146-168 | returns the previous bit; afterwards the bit is negated, the length is unchanged and every other bit keeps its value |
| Facade.New | arbit.go:118-131 | the new instance has the given length and all bits clear; its queue is exactly `[{new, length}]` and its log is empty |
| Facade.Set | arbit.go:147-151 | returns the previous bit and sets it; the length and the other bits are unchanged; the only change to the writer is one `{set, pos}` appended to the queue |
| Facade.Clear | arbit.go:153-157 | returns the previous bit and clears it; the length and the other bits are unchanged; the only change to the writer is one `{clear, pos}` appended to the queue |
| Facade.Flip | arbit.go:159-163 | returns the previous bit and negates it; the length and the other bits are unchanged; the only change to the writer is one `{flip, pos}` appended to the queue |
| Facade.Tick | arbit.go:102-115 | a writer pass leaves the bits alone and empties the queue; the log grows by the queued commands in order; it fails exactly when a queued index does not fit the field |
| Facade.Close | arbit.go:133-137 | the closed file is the log as it stood, followed by 9 bytes per queued command that decode to the queue in order; the whole file decodes to the logged commands followed by the queue; it fails exactly when a queued index does not fit the field |
| Facade.EnqueueKeepsConsistent | arbit.go:147-163 | queuing a mutation of an in-range bit extends the recorded history by exactly that command |
| Facade.SetKeepsConsistent | arbit.go:147-151 | `Set` extends the history by `{set, pos}` |
| Facade.ClearKeepsConsistent | arbit.go:153-157 | `Clear` extends the history by `{clear, pos}` |
| Facade.FlipKeepsConsistent | arbit.go:159-163 | `Flip` extends the history by `{flip, pos}` |
| Facade.HistoryEncodable | arbit.go:127 | when the length is below 2^56, every queued command can be encoded |
| Facade.OversizedStuck | arbit.go:127 | when the length is 2^56 or more, the log is still empty and the queue holds an unencodable command |
| Facade.TickSucceeds | arbit.go:112-113 | a writer pass cannot fail while the length is below 2^56 |
| Facade.TickKeepsConsistent | arbit.go:102-115 | a writer pass keeps the history and only moves commands from the queue to the log |
| Facade.CloseWritesHistory | arbit.go:133-137 | closing succeeds exactly when the length is below 2^56; the file is then 9·\|h\| bytes and decodes to the history h in issue order |
| Session.Apply | arbit.go:147-163 | a call keeps the instance well formed and its length unchanged |
| Session.ApplyAllKeepsConsistent | arbit.go:89-116 | any run of calls and writer passes extends the history by the mutating calls' commands in call order, and cannot fail while the length is below 2^56 |
| Session.Run | arbit_test.go:24-82 | after `New(L)`, any interleaving of n mutating calls and writer passes, and `Close`, the file is 9·(1+n) bytes and decodes to `{new, L}` followed by the calls' commands in order; a file is produced exactly when L < 2^56 |
| Scenario.SetClearFlip | arbit_test.go:29-45 | on 1000 bits, Set/Clear/Flip of bit 5 return false/true/false and leave it set/clear/set; the closed log is 36 given bytes, with the stale byte 0x07 of the varint of 1000 repeated in each later record |
| Scenario.LargeIndex | arbit_test.go:99-115 | with 2^35 bits, bit 2^32 starts clear and is set after `Set`; the log decodes to `{new, 2^35}, {set, 2^32}` |

## Left out

- Goroutines, channel blocking, the channel capacity (`channelsize`) and backpressure are left out. The stop/stopped handshake, the one-second ticker and the `select` busy loop are left out too. The channel is an unbounded sequence, and the writer's work is `Facade.Tick` steps that may fall between any two calls.
- File creation and closing are left out. The buffer size (`bufsize`) and when `bufio` pushes bytes to the file on its own are also left out. The writer is the sequence of bytes handed to it, plus the count of bytes a forced flush made durable.
- `handle` and the panics on I/O errors are left out: they are process aborts. The one panic modelled is `PutUvarint` indexing past the 8-byte field.
- The storage of the external `bitset` package is left out. It is a sequence of booleans. Out-of-range positions are excluded by preconditions, as that package's own concern.
- `long` is one package-level buffer shared by every instance in the process. The model gives each instance its own scratch field, whose initial contents are a parameter of `Facade.New`. Concurrent instances racing on the shared buffer are not modelled.
- Varint.ReadUvarint: Go's `binary.Uvarint` also rejects a varint longer than ten bytes, or one whose tenth byte overflows 64 bits. Those checks are left out because an 8-byte field never reaches them.
- Record.DecodeRecord: the test discards the byte count `binary.Uvarint` returns, so a field with no byte below 0x80 would read there as position 0. The decoder rejects such a field instead. A field written by `WriteCommand` always ends its varint inside the field, so the two readings agree on every log the writer produces.
- Calling any operation after `Close`, or calling `Close` twice, is left out: both are undefined in the source.
- Facade.Close: the contract covers an instance whose queue can be encoded. A panicking close is `None` and says nothing about the partial file.
