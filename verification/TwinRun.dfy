/** Running both variants side by side on the same calls. */
module TwinRuns {
  import opened Words
  import opened Streams
  import opened Formats
  import opened Scripts
  import opened Twins
  import opened BitReaders
  import opened BitWriters
  import opened ConstexprStreams
  import opened ConstexprBitReaders
  import opened ConstexprBitWriters
  import opened ScriptRuns

  /** Both writers end with the same bytes; after each call their cursors are equal, and the
      compile-time one has answered `false` exactly where the other threw. */
  method WriteBoth(order: WireOrder, size: nat, ops: seq<Op>)
    returns (bytes: seq<byte>, data: seq<byte>, log: seq<Entry>, clog: seq<(nat, Report)>)
    requires forall op | op in ops :: !op.Aligned? && Admissible(op)
    ensures |bytes| == size && data == bytes
    ensures var (final, written) := WriterRun(order, Fresh(size), ops);
            Bits(order, bytes) == final.bits && log == written
    ensures |log| == |clog| == |ops|
    ensures forall i | 0 <= i < |ops| :: clog[i] == (log[i].pos, WriterReport(ops[i], log[i].reply))
  {
    hide Bits, WriterStep, WriterRun, WritesLeft, ConstexprWriterStep, WriterReport, Pow2;
    var buffer := new byte[size](_ => 0);
    var writer := new BitWriter(order, buffer);
    var twin := new ConstexprBitWriter(order, size);
    log, clog := [], [];
    WritesWhole(order, Fresh(size), ops);
    for i := 0 to |ops|
      invariant WriterRun(order, Fresh(size), ops) == WritesLeft(order, writer.View(), ops[i..], log)
      invariant writer.Valid() && writer.order == order && writer.buffer == buffer && fresh(writer)
      invariant twin.Valid() && twin.order == order && fresh(twin) && fresh(twin.buffer) && twin.buffer != buffer
      invariant twin.buffer.Length == size && twin.View() == writer.View()
      invariant |log| == |clog| == i
      invariant forall j | 0 <= j < i :: clog[j] == (log[j].pos, WriterReport(ops[j], log[j].reply))
    {
      WriterTwin(order, writer.View(), ops[i]);
      WritesNext(order, writer.View(), ops, i, log);
      var reply := PerformWrite(writer, ops[i]);
      var report := PerformTwinWrite(twin, ops[i]);
      log, clog := log + [Entry(writer.bitOffset, reply)], clog + [(twin.bitOffset, report)];
    }
    NothingLeft(order, writer.View(), log, ops[|ops|..]);
    bytes, data := buffer[..], twin.Data();
    BitsInjective(order, bytes, data);
  }

  /** Over any bytes both readers have equal cursors and matching results after each call. */
  method ReadBoth(order: WireOrder, buffer: array<byte>, ops: seq<Op>)
    returns (log: seq<Entry>, clog: seq<(nat, Report)>)
    requires forall op | op in ops :: !op.Aligned? && Admissible(op)
    ensures log == ReaderRun(order, Stream(Bits(order, buffer[..]), 0), ops)
    ensures |log| == |clog| == |ops|
    ensures Matched(order, Stream(Bits(order, buffer[..]), 0), ops, log, clog)
  {
    hide Bits, ReaderStep, ReaderRun, ReadsLeft, ConstexprReaderStep, ReaderMatches, Matched, Pow2;
    var reader := new BitReader(order, buffer);
    var twin := new ConstexprBitReader(order, buffer[..]);
    ghost var s := reader.View();
    log, clog := [], [];
    MatchedNothing(order, s, ops);
    ReadsWhole(order, s, ops);
    for i := 0 to |ops|
      invariant ReaderRun(order, s, ops) == ReadsLeft(order, reader.View(), ops[i..], log)
      invariant reader.Valid() && reader.order == order && reader.buffer == buffer && fresh(reader)
      invariant twin.Valid() && twin.order == order && fresh(twin)
      invariant |log| == |clog| == i && twin.View() == reader.View() == StartOf(s, log, i)
      invariant Matched(order, s, ops, log, clog)
    {
      ReaderTwin(order, reader.View(), ops[i]);
      ReadsNext(order, reader.View(), ops, i, log);
      var reply := PerformRead(reader, ops[i]);
      var report := PerformTwinRead(twin, ops[i]);
      MatchedNext(order, s, ops, log, clog, Entry(reader.bitOffset, reply), (twin.bitOffset, report));
      log, clog := log + [Entry(reader.bitOffset, reply)], clog + [(twin.bitOffset, report)];
    }
    NothingLeft(order, reader.View(), log, ops[|ops|..]);
  }

  lemma MatchedNothing(o: WireOrder, s: Stream, ops: seq<Op>)
    ensures Matched(o, s, ops, [], [])
  {
  }

  lemma MatchedNext(o: WireOrder, s: Stream, ops: seq<Op>, log: seq<Entry>, clog: seq<(nat, Report)>,
                    e: Entry, c: (nat, Report))
    requires |log| == |clog| < |ops| && Matched(o, s, ops, log, clog)
    requires c.0 == e.pos && ReaderMatches(o, StartOf(s, log, |log|), ops[|log|], c.1, e.reply)
    ensures Matched(o, s, ops, log + [e], clog + [c])
  {
    hide ReaderMatches;
    assert forall i | 0 <= i <= |log| :: StartOf(s, log + [e], i) == StartOf(s, log, i);
  }

  method PerformTwinWrite(writer: ConstexprBitWriter, op: Op) returns (report: Report)
    requires writer.Valid() && !op.Aligned? && Admissible(op)
    modifies writer, writer.buffer
    ensures writer.Valid()
    ensures (writer.View(), report) == ConstexprWriterStep(writer.order, old(writer.View()), op)
  {
    hide Bits, WriteBitsFlag, SerializeFlag, Pow2;
    var ok := true;
    match op {
      case Bitwise(n, v) => ok := writer.WriteBits(n, v);
      case Format(fields, values) => ok := writer.Serialize(PacketFormat(fields), values);
      case Gap(n) => ok := writer.SkipBits(n);
      case Boundary => writer.AlignToByte();
    }
    report := if op.Boundary? then Nothing else Flag(ok);
  }

  method PerformTwinRead(reader: ConstexprBitReader, op: Op) returns (report: Report)
    requires reader.Valid() && !op.Aligned? && Admissible(op)
    modifies reader
    ensures reader.Valid()
    ensures (reader.View(), report) == ConstexprReaderStep(reader.order, old(reader.View()), op)
  {
    hide Bits, ReadBitsOpt, DeserializePacket, Pow2;
    match op {
      case Bitwise(n, _) =>
        var v := reader.ReadBits(n);
        report := Optional(v);
      case Format(fields, _) =>
        var values, valid := reader.Deserialize(PacketFormat(fields));
        report := Whole(Packet(values, valid));
      case Gap(n) =>
        var ok := reader.SkipBits(n);
        report := Flag(ok);
      case Boundary =>
        reader.AlignToByte();
        report := Nothing;
    }
  }
}
