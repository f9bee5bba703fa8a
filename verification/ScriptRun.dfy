/** Running scripts on the classes: the bit loops and the law of mirrored runs together. */
module ScriptRuns {
  import opened Words
  import opened Outcomes
  import opened Streams
  import opened Formats
  import opened Scripts
  import opened BitReaders
  import opened BitWriters

  /** Any calls on a fresh writer, then their mirror on a reader over the buffer it left. `log` and
      `echo` hold the cursor and the reply after each call; the echo is the mirror of the log
      exactly when reader and writer stop together in every format the run has room for. */
  method WriteThenRead(order: WireOrder, size: nat, ops: seq<Op>) returns (log: seq<Entry>, echo: seq<Entry>)
    requires forall op | op in ops :: Admissible(op) && HasMirror(order, op)
    ensures var (final, written) := WriterRun(order, Fresh(size), ops);
            log == written && echo == ReaderRun(order, Stream(final.bits, 0), ops)
    ensures |log| == |ops|
    ensures echo == Mirror(ops, log) <==> RunMirrors(8 * size, 0, ops)
  {
    hide Bits, WriterStep, ReaderStep, WriterRun, ReaderRun, WritesLeft, ReadsLeft, Admissible, HasMirror;
    var buffer := new byte[size](_ => 0);
    var writer := new BitWriter(order, buffer);
    log := [];
    WritesWhole(order, Fresh(size), ops);
    for i := 0 to |ops|
      invariant writer.Valid() && writer.order == order && writer.buffer == buffer && fresh(writer)
      invariant WriterRun(order, Fresh(size), ops) == WritesLeft(order, writer.View(), ops[i..], log)
    {
      WritesNext(order, writer.View(), ops, i, log);
      var reply := PerformWrite(writer, ops[i]);
      log := log + [Entry(writer.bitOffset, reply)];
    }
    NothingLeft(order, writer.View(), log, ops[|ops|..]);

    var reader := new BitReader(order, buffer);
    ghost var s := reader.View();
    echo := [];
    ReadsWhole(order, s, ops);
    for i := 0 to |ops|
      invariant reader.Valid() && reader.order == order && fresh(reader)
      invariant ReaderRun(order, s, ops) == ReadsLeft(order, reader.View(), ops[i..], echo)
    {
      ReadsNext(order, reader.View(), ops, i, echo);
      var reply := PerformRead(reader, ops[i]);
      echo := echo + [Entry(reader.bitOffset, reply)];
    }
    NothingLeft(order, reader.View(), echo, ops[|ops|..]);
    ScriptMirrors(order, size, ops);
  }

  /** One call on the class is one step of the model. */
  method PerformWrite(writer: BitWriter, op: Op) returns (reply: Reply)
    requires writer.Valid() && Admissible(op)
    modifies writer, writer.buffer
    ensures writer.Valid()
    ensures (writer.View(), reply) == WriterStep(writer.order, old(writer.View()), op)
  {
    hide Bits, Streams.WriteBits, Streams.WriteAligned, FormatStreams.Serialize, Pow2;
    var r: Result<()> := Ok(());
    match op {
      case Bitwise(n, v) => r := writer.WriteBitsRuntime(n, v);
      case Aligned(size, v) => r := writer.WriteAligned(size, v);
      case Format(fields, values) => r := writer.Serialize(PacketFormat(fields), values);
      case Gap(n) => r := writer.SkipBits(n);
      case Boundary => writer.AlignToByte();
    }
    reply := Answer(r, Done);
  }

  method PerformRead(reader: BitReader, op: Op) returns (reply: Reply)
    requires reader.Valid() && Admissible(op) && HasMirror(reader.order, op)
    modifies reader
    ensures reader.Valid()
    ensures (reader.View(), reply) == ReaderStep(reader.order, old(reader.View()), op)
  {
    hide Bits, Streams.ReadBits, Streams.ReadAligned, FormatStreams.Deserialize, Pow2;
    match op {
      case Bitwise(n, _) =>
        var r := reader.ReadBitsRuntime(n);
        reply := if r.Ok? then Value(r.value) else Failed(r.error);
      case Aligned(size, _) =>
        var r := reader.ReadAligned(size);
        reply := if r.Ok? then Value(r.value) else Failed(r.error);
      case Format(fields, _) =>
        var r := reader.Deserialize(PacketFormat(fields));
        reply := if r.Ok? then Parsed(r.value.values) else Failed(r.error);
      case Gap(n) =>
        var r := reader.SkipBits(n);
        reply := Answer(r, Done);
      case Boundary =>
        reader.AlignToByte();
        reply := Done;
    }
  }

  // ---------------------------------------------------------------- runs cut in two

  /** A writer's run that has logged `log` and goes on from `s`. */
  function WritesLeft(o: WireOrder, s: Stream, ops: seq<Op>, log: seq<Entry>): (Stream, seq<Entry>)
    requires forall op | op in ops :: Admissible(op)
  {
    (WriterRun(o, s, ops).0, log + WriterRun(o, s, ops).1)
  }

  function ReadsLeft(o: WireOrder, s: Stream, ops: seq<Op>, log: seq<Entry>): seq<Entry>
    requires forall op | op in ops :: HasMirror(o, op)
  {
    log + ReaderRun(o, s, ops)
  }

  lemma WritesWhole(o: WireOrder, s: Stream, ops: seq<Op>)
    requires forall op | op in ops :: Admissible(op)
    ensures ops[0..] == ops && WritesLeft(o, s, ops, []) == WriterRun(o, s, ops)
  {
    assert [] + WriterRun(o, s, ops).1 == WriterRun(o, s, ops).1;
  }

  lemma ReadsWhole(o: WireOrder, s: Stream, ops: seq<Op>)
    requires forall op | op in ops :: HasMirror(o, op)
    ensures ops[0..] == ops && ReadsLeft(o, s, ops, []) == ReaderRun(o, s, ops)
  {
    assert [] + ReaderRun(o, s, ops) == ReaderRun(o, s, ops);
  }

  lemma NothingLeft(o: WireOrder, s: Stream, log: seq<Entry>, ops: seq<Op>)
    requires ops == []
    ensures WritesLeft(o, s, ops, log) == (s, log) && ReadsLeft(o, s, ops, log) == log
  {
    assert log + [] == log;
  }

  lemma WritesNext(o: WireOrder, s: Stream, ops: seq<Op>, i: nat, log: seq<Entry>)
    requires i < |ops| && forall op | op in ops :: Admissible(op)
    ensures var (s', reply) := WriterStep(o, s, ops[i]);
            WritesLeft(o, s, ops[i..], log) == WritesLeft(o, s', ops[i + 1..], log + [Entry(s'.pos, reply)])
  {
    hide WriterStep;
    assert ops[i..][0] == ops[i] && ops[i..][1..] == ops[i + 1..];
    var (s', reply) := WriterStep(o, s, ops[i]);
    var e, rest := [Entry(s'.pos, reply)], WriterRun(o, s', ops[i + 1..]).1;
    assert log + (e + rest) == log + e + rest;
  }

  lemma ReadsNext(o: WireOrder, s: Stream, ops: seq<Op>, i: nat, log: seq<Entry>)
    requires i < |ops| && forall op | op in ops :: HasMirror(o, op)
    ensures var (s', reply) := ReaderStep(o, s, ops[i]);
            ReadsLeft(o, s, ops[i..], log) == ReadsLeft(o, s', ops[i + 1..], log + [Entry(s'.pos, reply)])
  {
    hide ReaderStep;
    assert ops[i..][0] == ops[i] && ops[i..][1..] == ops[i + 1..];
    var (s', reply) := ReaderStep(o, s, ops[i]);
    var e, rest := [Entry(s'.pos, reply)], ReaderRun(o, s', ops[i + 1..]);
    assert log + (e + rest) == log + e + rest;
  }
}
