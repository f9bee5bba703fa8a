/** The run-time and the compile-time variants behave alike. */
module Twins {
  import opened Words
  import opened Outcomes
  import opened Streams
  import opened Formats
  import opened FormatStreams
  import opened FormatLaws
  import opened ConstexprStreams
  import opened Scripts
  import opened Comparisons

  /** What a compile-time call reports. */
  datatype Report = Nothing | Flag(ok: bool) | Optional(v: Option<nat>) | Whole(p: Packet)

  // The calls both variants have are all admissible ones but the byte-aligned ones.

  function ConstexprWriterStep(o: WireOrder, s: Stream, op: Op): (Stream, Report)
    requires !op.Aligned? && Admissible(op)
  {
    match op
    case Bitwise(n, v) => var (s', ok) := WriteBitsFlag(o, s, n, v); (s', Flag(ok))
    case Format(fields, values) => var (s', ok) := SerializeFlag(o, s, fields, values); (s', Flag(ok))
    case Gap(n) => var (s', ok) := SkipFlag(s, n); (s', Flag(ok))
    case Boundary => (Align(s), Nothing)
  }

  function ConstexprReaderStep(o: WireOrder, s: Stream, op: Op): (Stream, Report)
    requires !op.Aligned? && Admissible(op)
  {
    match op
    case Bitwise(n, _) => var (s', v) := ReadBitsOpt(o, s, n); (s', Optional(v))
    case Format(fields, _) => var (s', p) := DeserializePacket(o, s, fields); (s', Whole(p))
    case Gap(n) => var (s', ok) := SkipFlag(s, n); (s', Flag(ok))
    case Boundary => (Align(s), Nothing)
  }

  function ConstexprWriterRun(o: WireOrder, s: Stream, ops: seq<Op>): (Stream, seq<(nat, Report)>)
    requires forall op | op in ops :: !op.Aligned? && Admissible(op)
    decreases |ops|
  {
    if ops == [] then (s, [])
    else
      var (s', report) := ConstexprWriterStep(o, s, ops[0]);
      var (final, log) := ConstexprWriterRun(o, s', ops[1..]);
      (final, [(s'.pos, report)] + log)
  }

  function ConstexprReaderRun(o: WireOrder, s: Stream, ops: seq<Op>): seq<(nat, Report)>
    requires forall op | op in ops :: !op.Aligned? && Admissible(op)
    decreases |ops|
  {
    if ops == [] then []
    else
      var (s', report) := ConstexprReaderStep(o, s, ops[0]);
      [(s'.pos, report)] + ConstexprReaderRun(o, s', ops[1..])
  }

  /** How a run-time writer's reply shows at compile time. */
  function WriterReport(op: Op, reply: Reply): Report
  {
    if op.Boundary? then Nothing else Flag(!reply.Failed?)
  }

  /** What a read stopped by a refused width or lack of room has: the values of the fields before
      the one it stopped at, and zeros from there on. */
  function ValuesRead(o: WireOrder, s: Stream, fields: seq<FieldDef>): (values: seq<nat>)
    ensures |values| == |fields|
  {
    if !s.Has(Total(fields)) then ZeroValues(|fields|)
    else
      var k := GoodReads(fields);
      OffsetMonotone(fields, k, |fields|);
      Values(o, s.bits, s.pos, fields[..k]) + ZeroValues(|fields| - k)
  }

  /** A compile-time packet read at `s` against the run-time reply: all values when the run-time
      call returned them; when it threw, an invalid packet of the values read until then. */
  predicate PacketMatches(o: WireOrder, s: Stream, fields: seq<FieldDef>, p: Packet, reply: Reply)
  {
    && (reply.Parsed? || reply.Failed?)
    && p.valid == reply.Parsed?
    && p.values == if reply.Parsed? then reply.vs else ValuesRead(o, s, fields)
  }

  predicate ReaderMatches(o: WireOrder, s: Stream, op: Op, report: Report, reply: Reply)
  {
    match op
    case Bitwise(_, _) =>
      (reply.Value? && report == Optional(Some(reply.v))) || (reply.Failed? && report == Optional(None))
    case Format(fields, _) => report.Whole? && PacketMatches(o, s, fields, report.p, reply)
    case Gap(_) => report == Flag(reply == Done) && (reply == Done || reply.Failed?)
    case Boundary => report == Nothing && reply == Done
    case Aligned(_, _) => false
  }

  /** Where call `i` of a reader's run starts: at the cursor the call before it left. */
  function StartOf(s: Stream, log: seq<Entry>, i: nat): Stream
    requires i <= |log|
  {
    Stream(s.bits, if i == 0 then s.pos else log[i - 1].pos)
  }

  /** The calls made so far left equal cursors and matching results. */
  predicate Matched(o: WireOrder, s: Stream, ops: seq<Op>, log: seq<Entry>, clog: seq<(nat, Report)>)
    requires |log| == |clog| <= |ops|
  {
    forall i | 0 <= i < |log| ::
      clog[i].0 == log[i].pos && ReaderMatches(o, StartOf(s, log, i), ops[i], clog[i].1, log[i].reply)
  }

  // ---------------------------------------------------------------- one call

  lemma {:induction false} PassOver(o: WireOrder, s: Stream, fields: seq<FieldDef>, values: seq<nat>)
    requires |values| == |fields|
    ensures WriteWhileOk(o, s, fields, values, false) == (s, false)
    decreases |fields|
  {
    if fields != [] {
      PassOver(o, s, fields[1..], values[1..]);
    }
  }

  lemma {:induction false} WritePassesAgree(o: WireOrder, s: Stream, fields: seq<FieldDef>, values: seq<nat>)
    requires |values| == |fields|
    ensures var w := WriteFields(o, s, fields, values);
            WriteWhileOk(o, s, fields, values, true) == (w.s, w.result.Ok?)
    decreases |fields|
  {
    hide Encode, OrAt;
    if fields != [] {
      var step := WriteBits(o, s, fields[0].bitWidth, values[0]);
      if step.result.Ok? {
        WritePassesAgree(o, step.s, fields[1..], values[1..]);
      } else {
        PassOver(o, s, fields[1..], values[1..]);
      }
    }
  }

  /** The in-place fill and the run-time pass stop at the same cursor with the same values; the
      slots not reached keep what they held. */
  lemma {:induction false} ReadPassesAgree(o: WireOrder, s: Stream, fields: seq<FieldDef>, i: nat, values: seq<nat>)
    requires i <= |fields| == |values|
    ensures var run := ReadFields(o, s, fields[i..], values[..i]);
            && i <= |run.values| <= |fields|
            && FillFields(o, s, fields, i, values) ==
               (run.s, Packet(run.values + values[|run.values|..], run.error.None?))
    decreases |fields| - i
  {
    hide Decode;
    assert values == values[..i] + values[i..];
    if i < |fields| {
      var step := ReadField(o, s, fields[i]);
      assert fields[i..][0] == fields[i] && fields[i..][1..] == fields[i + 1..];
      if step.result.Ok? {
        var values' := values[i := step.result.value];
        ReadPassesAgree(o, step.s, fields, i + 1, values');
        assert values'[..i + 1] == values[..i] + [step.result.value];
        var n := |ReadFields(o, step.s, fields[i + 1..], values'[..i + 1]).values|;
        assert values'[n..] == values[n..];
      }
    }
  }

  lemma DeserializeTwin(o: WireOrder, s: Stream, fields: seq<FieldDef>)
    ensures var c, r := DeserializePacket(o, s, fields), Deserialize(o, s, fields);
            && c.0 == r.s
            && PacketMatches(o, s, fields, c.1,
                             if r.result.Ok? then Parsed(r.result.value) else Failed(r.result.error))
  {
    hide FillFields, ReadFields, Values;
    DeserializeOutcome(o, s, fields);
    if s.Has(Total(fields)) {
      var zeros := ZeroValues(|fields|);
      ReadPassesAgree(o, s, fields, 0, zeros);
      ReadFieldsRun(o, s, fields);
      assert fields[0..] == fields && zeros[..0] == [];
      var k := GoodReads(fields);
      assert zeros[k..] == ZeroValues(|fields| - k);
    }
  }

  lemma WriterTwin(o: WireOrder, s: Stream, op: Op)
    requires !op.Aligned? && Admissible(op)
    ensures var (s', reply) := WriterStep(o, s, op);
            ConstexprWriterStep(o, s, op) == (s', WriterReport(op, reply))
  {
    hide Encode, OrAt, WriteFields, WriteWhileOk;
    if op.Format? {
      WritePassesAgree(o, s, op.fields, op.values);
    }
  }

  lemma ReaderTwin(o: WireOrder, s: Stream, op: Op)
    requires !op.Aligned? && Admissible(op)
    ensures ConstexprReaderStep(o, s, op).0 == ReaderStep(o, s, op).0
    ensures ReaderStep(o, s, op).0.bits == s.bits
    ensures ReaderMatches(o, s, op, ConstexprReaderStep(o, s, op).1, ReaderStep(o, s, op).1)
  {
    hide Decode, Deserialize, DeserializePacket, PacketMatches;
    if op.Format? {
      DeserializeTwin(o, s, op.fields);
      DeserializeOutcome(o, s, op.fields);
    }
  }

  // ---------------------------------------------------------------- whole runs

  /** In every run of shared calls, failures included, both writers hold the same bits and cursor
      after each call, and the compile-time one answers `false` exactly where the other throws. */
  lemma {:induction false} WritersAreTwins(o: WireOrder, s: Stream, ops: seq<Op>)
    requires forall op | op in ops :: !op.Aligned? && Admissible(op)
    ensures var (final, log) := WriterRun(o, s, ops);
            var (cfinal, clog) := ConstexprWriterRun(o, s, ops);
            && cfinal == final && |clog| == |log| == |ops|
            && forall i | 0 <= i < |ops| :: clog[i] == (log[i].pos, WriterReport(ops[i], log[i].reply))
    decreases |ops|
  {
    hide WriterStep, ConstexprWriterStep, WriterReport;
    if ops != [] {
      WriterTwin(o, s, ops[0]);
      WritersAreTwins(o, WriterStep(o, s, ops[0]).0, ops[1..]);
    }
  }

  /** In every run of shared calls both readers are at the same cursor after each call and report
      the same values; the compile-time one answers `nullopt`, `false` or an invalid packet exactly
      where the other throws. */
  lemma {:induction false} ReadersAreTwins(o: WireOrder, s: Stream, ops: seq<Op>)
    requires forall op | op in ops :: !op.Aligned? && Admissible(op)
    ensures var log, clog := ReaderRun(o, s, ops), ConstexprReaderRun(o, s, ops);
            |clog| == |log| == |ops| && Matched(o, s, ops, log, clog)
    decreases |ops|
  {
    hide ReaderStep, ConstexprReaderStep, ReaderMatches;
    if ops != [] {
      var s' := ReaderStep(o, s, ops[0]).0;
      ReaderTwin(o, s, ops[0]);
      ReadersAreTwins(o, s', ops[1..]);
      var log, clog := ReaderRun(o, s, ops), ConstexprReaderRun(o, s, ops);
      forall i | 1 <= i < |ops|
        ensures clog[i].0 == log[i].pos
        ensures ReaderMatches(o, StartOf(s, log, i), ops[i], clog[i].1, log[i].reply)
      {
        var j, rest, crest := i - 1, ReaderRun(o, s', ops[1..]), ConstexprReaderRun(o, s', ops[1..]);
        assert log[i] == rest[j] && clog[i] == crest[j] && ops[i] == ops[1..][j];
        assert StartOf(s, log, i) == StartOf(s', rest, j);
      }
    }
  }

  /** The bytes a compile-time writer hands out after serializing a whole format are the packet the
      run-time writer would leave in a buffer of that size; comparing with them may stand in for
      field checks exactly when the fields and values allow it and fill those bytes. */
  lemma ConstexprDataIsPacket(o: WireOrder, data: seq<byte>, fields: seq<FieldDef>, values: seq<nat>)
    requires |values| == |fields|
    requires Bits(o, data) == SerializeFlag(o, Fresh(|data|), fields, values).0.bits
    ensures IsPacket(o, data, fields, values)
    ensures SerializeFlag(o, Fresh(|data|), fields, values).1 ==>
              ((forall buf :: FastAccepts(buf, data) <==> SlowAccepts(o, buf, fields, values)) <==>
               && DistinctNames(fields) && (forall f | f in fields :: !IsPadding(f.name))
               && InRange(fields, values) && 8 * |data| == Total(fields))
  {
    hide Bits, WriteFields, WriteWhileOk, FormatBits, FastAccepts, SlowAccepts, DistinctNames, InRange;
    WritePassesAgree(o, Fresh(|data|), fields, values);
    if SerializeFlag(o, Fresh(|data|), fields, values).1 {
      PacketComparisonExact(o, data, fields, values);
    }
  }

  /** The compile-time serialization answers true exactly when the format fits and the bit loop
      accepts every width. */
  lemma SerializeFlagOutcome(o: WireOrder, s: Stream, fields: seq<FieldDef>, values: seq<nat>)
    requires |values| == |fields|
    ensures SerializeFlag(o, s, fields, values).1 <==>
            s.Has(Total(fields)) && forall f | f in fields :: Writable(f)
  {
    hide WriteFields, WriteWhileOk, FormatBits;
    WritePassesAgree(o, s, fields, values);
    SerializeOutcome(o, s, fields, values);
  }
}
