/** Arbitrary sequences of writer calls, and the reader calls that mirror them. */
module Scripts {
  import opened Words
  import opened Outcomes
  import opened Streams
  import opened Formats
  import opened FormatStreams
  import opened FormatLaws

  /** One call on a writer; a reader mirrors it with the call that takes the same bits. */
  datatype Op =
    | Bitwise(n: nat, value: uint64)
    | Aligned(size: nat, value: uint64)
    | Format(fields: seq<FieldDef>, values: seq<uint64>)
    | Gap(n: nat)
    | Boundary

  /** What one call returned or threw. */
  datatype Reply = Done | Value(v: nat) | Parsed(vs: seq<nat>) | Failed(error: Error)

  /** The calls a writer admits: one value per field, and aligned types of 1, 2, 4 or 8 bytes. */
  predicate Admissible(op: Op)
  {
    match op
    case Aligned(size, v) => size in {1, 2, 4, 8} && v < Pow2(8 * size)
    case Format(fields, values) => |values| == |fields|
    case _ => true
  }

  /** The reader has a mirror for each of them, but for the 8-byte little-endian one, whose shift
      has no defined result. */
  predicate HasMirror(o: WireOrder, op: Op)
  {
    op.Aligned? && o.LittleEndian? ==> op.size <= 4
  }

  function Answer<T>(r: Result<T>, ok: Reply): Reply
  {
    if r.Ok? then ok else Failed(r.error)
  }

  function WriterStep(o: WireOrder, s: Stream, op: Op): (Stream, Reply)
    requires Admissible(op)
  {
    match op
    case Bitwise(n, v) => var r := WriteBits(o, s, n, v); (r.s, Answer(r.result, Done))
    case Aligned(size, v) => var r := WriteAligned(o, s, size, v); (r.s, Answer(r.result, Done))
    case Format(fields, values) => var r := Serialize(o, s, fields, values); (r.s, Answer(r.result, Done))
    case Gap(n) => var r := Skip(s, n); (r.s, Answer(r.result, Done))
    case Boundary => (Align(s), Done)
  }

  function ReaderStep(o: WireOrder, s: Stream, op: Op): (Stream, Reply)
    requires HasMirror(o, op)
  {
    match op
    case Bitwise(n, _) =>
      var r := ReadBits(o, s, n);
      (r.s, if r.result.Ok? then Value(r.result.value) else Failed(r.result.error))
    case Aligned(size, _) =>
      var r := ReadAligned(o, s, size);
      (r.s, if r.result.Ok? then Value(r.result.value) else Failed(r.result.error))
    case Format(fields, _) =>
      var r := Deserialize(o, s, fields);
      (r.s, if r.result.Ok? then Parsed(r.result.value) else Failed(r.result.error))
    case Gap(n) => var r := Skip(s, n); (r.s, Answer(r.result, Done))
    case Boundary => (Align(s), Done)
  }

  /** The cursor and reply after each call; a client that catches exceptions goes on. */
  datatype Entry = Entry(pos: nat, reply: Reply)

  function WriterRun(o: WireOrder, s: Stream, ops: seq<Op>): (Stream, seq<Entry>)
    requires forall op | op in ops :: Admissible(op)
    decreases |ops|
  {
    if ops == [] then (s, [])
    else
      var (s', reply) := WriterStep(o, s, ops[0]);
      var (final, log) := WriterRun(o, s', ops[1..]);
      (final, [Entry(s'.pos, reply)] + log)
  }

  function ReaderRun(o: WireOrder, s: Stream, ops: seq<Op>): seq<Entry>
    requires forall op | op in ops :: HasMirror(o, op)
    decreases |ops|
  {
    if ops == [] then []
    else
      var (s', reply) := ReaderStep(o, s, ops[0]);
      [Entry(s'.pos, reply)] + ReaderRun(o, s', ops[1..])
  }

  /** What a reader should reply where the writer replied `reply`: the value cut to its width
      (0 for padding), or the same error. */
  function MirrorReply(op: Op, reply: Reply): Reply
    requires op.Format? ==> |op.values| == |op.fields|
  {
    if reply.Failed? then reply
    else
      match op
      case Bitwise(n, v) => Value(Trunc(v, n))
      case Aligned(_, v) => Value(v)
      case Format(fields, values) => Parsed(Echo(fields, values))
      case _ => Done
  }

  function Echo(fields: seq<FieldDef>, values: seq<nat>): (vs: seq<nat>)
    requires |values| == |fields|
  {
    seq(|fields|, (i: nat) requires i < |fields| =>
      if IsPadding(fields[i].name) then 0 else Trunc(values[i], fields[i].bitWidth))
  }

  function Mirror(ops: seq<Op>, log: seq<Entry>): (m: seq<Entry>)
    requires |ops| == |log|
    requires forall op | op in ops :: op.Format? ==> |op.values| == |op.fields|
  {
    seq(|log|, (i: nat) requires i < |log| =>
      Entry(log[i].pos, MirrorReply(ops[i], log[i].reply)))
  }

  /** The reader and the writer stop at the same field of a format, or only padding of width 0,
      which the writer refuses and the reader skips, lies between the fields they stop at. */
  predicate StopTogether(fields: seq<FieldDef>)
  {
    var j, k := GoodReads(fields), GoodWrites(fields);
    j == k || (j < |fields| && Offset(fields, j) == Offset(fields, k))
  }

  /** Where a call at `pos` in a buffer of `len` bits leaves the writer's cursor. */
  function CursorAfter(len: nat, pos: nat, op: Op): nat
  {
    match op
    case Bitwise(n, _) => if 1 <= n <= 64 && pos + n <= len then pos + n else pos
    case Aligned(size, _) => if pos % 8 == 0 && pos + 8 * size <= len then pos + 8 * size else pos
    case Format(fields, _) => if pos + Total(fields) <= len then pos + Offset(fields, GoodWrites(fields)) else pos
    case Gap(n) => if pos + n <= len then pos + n else pos
    case Boundary => (pos + 7) / 8 * 8
  }

  /** A call whose mirror agrees with it: the reader is more lenient than the writer only about
      padding, and only in a format there is room for. */
  predicate Mirrors(len: nat, pos: nat, op: Op)
  {
    op.Format? && pos + Total(op.fields) <= len ==> StopTogether(op.fields)
  }

  /** Every call of the run is one of those at the cursor the writer meets it at. Only widths, sizes
      and names decide, so this is known before any call is made. */
  predicate RunMirrors(len: nat, pos: nat, ops: seq<Op>)
    decreases |ops|
  {
    ops == [] || (Mirrors(len, pos, ops[0]) && RunMirrors(len, CursorAfter(len, pos, ops[0]), ops[1..]))
  }

  /** A format whose padding has no width the writer refuses. */
  predicate EvenHanded(op: Op)
  {
    op.Format? ==> forall f | f in op.fields :: Readable(f) ==> Writable(f)
  }

  // ---------------------------------------------------------------- one writer call

  /** Everything behind the cursor is kept, the cursor only advances, and only zeros lie ahead. */
  ghost predicate Extends(s: Stream, s': Stream)
  {
    && |s'.bits| == |s.bits| && s.pos <= s'.pos <= |s.bits|
    && s'.bits[..s.pos] == s.bits[..s.pos]
    && s'.ZeroTail()
  }

  lemma WrittenExtends(s: Stream, es: seq<bool>)
    requires s.Has(|es|) && s.ZeroTail()
    ensures Extends(s, Written(s, es))
    ensures Written(s, es) == Stream(PutAt(s.bits, s.pos, es), s.pos + |es|)
    ensures Written(s, es).bits[s.pos..s.pos + |es|] == es
  {
    OrIntoZeros(s, es);
    PutThenWindow(s, es);
  }

  lemma WriteBitsIsWritten(o: WireOrder, s: Stream, n: nat, v: nat)
    requires 1 <= n <= 64 && s.Has(n)
    ensures WriteBits(o, s, n, v) == Step(Written(s, Encode(o, v, n)), Ok(()))
  {
    hide Encode, OrAt;
  }

  lemma BitwiseExtends(o: WireOrder, s: Stream, n: nat, v: nat)
    requires s.Valid() && s.ZeroTail()
    ensures Extends(s, WriteBits(o, s, n, v).s)
  {
    hide Encode, Written;
    if 1 <= n <= 64 && s.Has(n) {
      WriteBitsIsWritten(o, s, n, v);
      WrittenExtends(s, Encode(o, v, n));
    }
  }

  lemma FormatExtends(o: WireOrder, s: Stream, fields: seq<FieldDef>, values: seq<nat>)
    requires |values| == |fields| && s.Valid() && s.ZeroTail()
    ensures Extends(s, Serialize(o, s, fields, values).s)
  {
    hide Written, FormatBits, Serialize;
    SerializeOutcome(o, s, fields, values);
    if s.Has(Total(fields)) {
      var k := GoodWrites(fields);
      OffsetMonotone(fields, k, |fields|);
      WrittenExtends(s, FormatBits(o, fields[..k], values[..k]));
      WrittenExtends(s, FormatBits(o, fields, values));
    }
  }

  /** Every call on a writer, failing or not, keeps the zero tail. */
  lemma WriterStepExtends(o: WireOrder, s: Stream, op: Op)
    requires Admissible(op) && s.Valid() && s.ZeroTail()
    ensures Extends(s, WriterStep(o, s, op).0) && WriterStep(o, s, op).0.Valid()
  {
    hide Encode, Written, OrAt, PutAt, Serialize, WriteBits, WriteAligned, Pow2;
    match op
    case Bitwise(n, v) => BitwiseExtends(o, s, n, v);
    case Aligned(size, v) =>
      BitwiseExtends(o, s, 8 * size, v);
      AlignedExtends(o, s, size, v);
    case Format(fields, values) => FormatExtends(o, s, fields, values);
    case Gap(n) =>
    case Boundary =>
  }

  /** The widths alone say where a call leaves the cursor. */
  lemma WriterStepCursor(o: WireOrder, s: Stream, op: Op)
    requires Admissible(op)
    ensures WriterStep(o, s, op).0.pos == CursorAfter(|s.bits|, s.pos, op)
  {
    hide Encode, Written, OrAt, PutAt, Serialize, FormatBits, Pow2, Total;
    if op.Format? {
      FormatCursor(o, s, op.fields, op.values);
    }
  }

  lemma FormatCursor(o: WireOrder, s: Stream, fields: seq<FieldDef>, values: seq<nat>)
    requires |values| == |fields|
    ensures Serialize(o, s, fields, values).s.pos ==
            if s.Has(Total(fields)) then s.pos + Offset(fields, GoodWrites(fields)) else s.pos
  {
    hide OrAt, Serialize, FormatBits, Total;
    SerializeOutcome(o, s, fields, values);
    if s.Has(Total(fields)) && GoodWrites(fields) == |fields| {
      assert fields[..|fields|] == fields;
      assert forall f | f in fields :: Writable(f);
    } else if s.Has(Total(fields)) {
      assert fields[GoodWrites(fields)] in fields;
    }
  }

  lemma AlignedExtends(o: WireOrder, s: Stream, size: nat, v: nat)
    requires 1 <= size <= 8 && s.Valid() && s.ZeroTail()
    ensures Extends(s, WriteAligned(o, s, size, v).s)
  {
    hide WriteBits;
    if s.pos % 8 == 0 {
      AlignedIsBitwise(o, s, size, v);
      BitwiseExtends(o, s, 8 * size, v);
    }
  }

  // ---------------------------------------------------------------- its mirror

  /** A later buffer that still has what was behind the writer's cursor. */
  ghost predicate Keeps(f: seq<bool>, s: Stream)
  {
    |f| == |s.bits| && s.pos <= |f| && f[..s.pos] == s.bits[..s.pos]
  }

  lemma KeptWindow(f: seq<bool>, s: Stream, p: nat, n: nat)
    requires Keeps(f, s) && p + n <= s.pos
    ensures f[p..p + n] == s.bits[p..p + n]
  {
    assert f[..s.pos][p..p + n] == s.bits[..s.pos][p..p + n];
  }

  lemma KeptSize(f: seq<bool>, s: Stream)
    requires Keeps(f, s)
    ensures |f| == |s.bits| && s.pos <= |f|
  {
  }

  lemma MirrorBitwise(o: WireOrder, s: Stream, n: nat, v: nat, f: seq<bool>)
    requires s.Valid() && s.ZeroTail() && Keeps(f, WriteBits(o, s, n, v).s)
    ensures var w, r := WriteBits(o, s, n, v), ReadBits(o, Stream(f, s.pos), n);
            && r.s == Stream(f, w.s.pos)
            && r.result == (if w.result.Ok? then Ok(Trunc(v, n)) else Throws(w.result.error))
  {
    hide Encode, Decode, Written, OrAt, PutAt, Trunc, Keeps;
    KeptSize(f, WriteBits(o, s, n, v).s);
    if 1 <= n <= 64 && s.Has(n) {
      var s' := Written(s, Encode(o, v, n));
      WriteBitsIsWritten(o, s, n, v);
      WrittenExtends(s, Encode(o, v, n));
      KeptWindow(f, s', s.pos, n);
      DecodeEncode(o, v, n);
    }
  }

  lemma MirrorAligned(o: WireOrder, s: Stream, size: nat, v: nat, f: seq<bool>)
    requires 1 <= size <= 8 && v < Pow2(8 * size)
    requires s.Valid() && s.ZeroTail() && Keeps(f, WriteAligned(o, s, size, v).s)
    ensures var w, r := WriteAligned(o, s, size, v), ReadAligned(o, Stream(f, s.pos), size);
            && r.s == Stream(f, w.s.pos)
            && r.result == (if w.result.Ok? then Ok(v) else Throws(w.result.error))
  {
    hide WriteBits, ReadBits, Pow2, Trunc;
    if s.pos % 8 == 0 {
      AlignedIsBitwise(o, s, size, v);
      AlignedIsBitwise(o, Stream(f, s.pos), size, v);
      MirrorBitwise(o, s, 8 * size, v, f);
      TruncSmall(v, 8 * size);
    }
  }

  lemma EvenPrefixes(fields: seq<FieldDef>)
    requires forall f | f in fields :: Readable(f) ==> Writable(f)
    ensures GoodReads(fields) == GoodWrites(fields)
  {
    var j, k := GoodReads(fields), GoodWrites(fields);
    if k < |fields| {
      assert fields[k] in fields && !Readable(fields[k]);
      assert j <= k;
    }
    if j < |fields| {
      assert !Writable(fields[j]);
      assert k <= j;
    }
  }

  /** The mirror of a whole-format write agrees with the write exactly when the format does not fit
      or both stop together. */
  lemma MirrorFormat(o: WireOrder, s: Stream, fields: seq<FieldDef>, values: seq<nat>, f: seq<bool>)
    requires |values| == |fields| && s.Valid() && s.ZeroTail()
    requires Keeps(f, Serialize(o, s, fields, values).s)
    ensures var w, r := Serialize(o, s, fields, values), Deserialize(o, Stream(f, s.pos), fields);
            (r.s == Stream(f, w.s.pos) &&
             r.result == (if w.result.Ok? then Ok(Echo(fields, values)) else Throws(w.result.error)))
            <==> (s.Has(Total(fields)) ==> StopTogether(fields))
  {
    hide Serialize, Deserialize, Values, FormatBits, Written, Total;
    SerializeOutcome(o, s, fields, values);
    DeserializeOutcome(o, Stream(f, s.pos), fields);
    if s.Has(Total(fields)) {
      var j, k := GoodReads(fields), GoodWrites(fields);
      if k == |fields| {
        MirrorGoodFormat(o, s, fields, values, f);
      } else {
        assert fields[k] in fields;
        assert j < |fields| ==> fields[j] in fields;
      }
    }
  }

  lemma MirrorGoodFormat(o: WireOrder, s: Stream, fields: seq<FieldDef>, values: seq<nat>, f: seq<bool>)
    requires |values| == |fields| && s.Valid() && s.ZeroTail() && s.Has(Total(fields))
    requires forall i | 0 <= i < |fields| :: Writable(fields[i])
    requires Keeps(f, Serialize(o, s, fields, values).s)
    ensures Serialize(o, s, fields, values).result.Ok?
    ensures Deserialize(o, Stream(f, s.pos), fields) ==
            Step(Stream(f, Serialize(o, s, fields, values).s.pos), Ok(Echo(fields, values)))
  {
    hide Serialize, Deserialize, Values, FormatBits, Written, Total, Trunc;
    var w := Serialize(o, s, fields, values);
    SerializeOutcome(o, s, fields, values);
    DeserializeAfterSerialize(o, s, fields, values);
    DeserializeOutcome(o, Stream(f, s.pos), fields);
    DeserializeOutcome(o, Stream(w.s.bits, s.pos), fields);
    KeptWindow(f, w.s, s.pos, Total(fields));
    ValuesLocal(o, f, w.s.bits, s.pos, fields);
    assert Values(o, w.s.bits, s.pos, fields) == Echo(fields, values);
  }

  /** Where they part: a format of one field `_pad` of width 0 throws when serialized into one byte
      and returns its value when deserialized from it. */
  lemma MirrorFails()
    ensures var fields := [FieldDef("_pad", 0)];
            && Serialize(BigEndian, Fresh(1), fields, [0]) == Step(Fresh(1), Throws(InvalidArgument))
            && Deserialize(BigEndian, Fresh(1), fields) == Step(Fresh(1), Ok([0]))
  {
    var fields := [FieldDef("_pad", 0)];
    assert fields[1..] == [] && Total(fields) == 0;
    assert ReadField(BigEndian, Fresh(1), fields[0]) == Step(Fresh(1), Ok(0));
    assert [] + [0] == [0];
  }

  /** One call and its mirror, over any later buffer that keeps what the writer has behind it. */
  lemma MirrorStep(o: WireOrder, s: Stream, op: Op, f: seq<bool>)
    requires Admissible(op) && HasMirror(o, op) && s.Valid() && s.ZeroTail()
    requires Keeps(f, WriterStep(o, s, op).0)
    ensures var (s', reply) := WriterStep(o, s, op);
            var (r, answer) := ReaderStep(o, Stream(f, s.pos), op);
            && r.bits == f
            && (r.pos == s'.pos && answer == MirrorReply(op, reply) <==> Mirrors(|s.bits|, s.pos, op))
  {
    hide Serialize, Deserialize, WriteBits, ReadBits, WriteAligned, ReadAligned, Echo, Pow2, Trunc, StopTogether, Total;
    match op
    case Bitwise(n, v) => MirrorBitwise(o, s, n, v, f);
    case Aligned(size, v) => MirrorAligned(o, s, size, v, f);
    case Format(fields, values) =>
      DeserializeOutcome(o, Stream(f, s.pos), fields);
      MirrorFormat(o, s, fields, values, f);
    case Gap(n) =>
    case Boundary =>
  }

  // ---------------------------------------------------------------- whole runs

  lemma {:induction false} WriterRunExtends(o: WireOrder, s: Stream, ops: seq<Op>)
    requires s.Valid() && s.ZeroTail() && forall op | op in ops :: Admissible(op)
    ensures |WriterRun(o, s, ops).1| == |ops|
    ensures Extends(s, WriterRun(o, s, ops).0)
    decreases |ops|
  {
    hide WriterStep;
    if ops != [] {
      WriterStepExtends(o, s, ops[0]);
      var s' := WriterStep(o, s, ops[0]).0;
      WriterRunExtends(o, s', ops[1..]);
      var final := WriterRun(o, s', ops[1..]).0;
      assert final.bits[..s.pos] == final.bits[..s'.pos][..s.pos];
    }
  }

  lemma {:induction false} MirrorRun(o: WireOrder, s: Stream, ops: seq<Op>)
    requires s.Valid() && s.ZeroTail()
    requires forall op | op in ops :: Admissible(op) && HasMirror(o, op)
    ensures |WriterRun(o, s, ops).1| == |ops|
    ensures var (final, log) := WriterRun(o, s, ops);
            ReaderRun(o, Stream(final.bits, s.pos), ops) == Mirror(ops, log) <==>
            RunMirrors(|s.bits|, s.pos, ops)
    decreases |ops|
  {
    hide WriterStep, ReaderStep, MirrorReply, Mirrors, CursorAfter, HasMirror, Pow2;
    WriterRunExtends(o, s, ops);
    if ops != [] {
      var (s', reply) := WriterStep(o, s, ops[0]);
      WriterStepExtends(o, s, ops[0]);
      WriterStepCursor(o, s, ops[0]);
      WriterRunExtends(o, s', ops[1..]);
      var (final, log) := WriterRun(o, s', ops[1..]);
      MirrorStep(o, s, ops[0], final.bits);
      MirrorRun(o, s', ops[1..]);
      var (r, answer) := ReaderStep(o, Stream(final.bits, s.pos), ops[0]);
      var first := Entry(s'.pos, MirrorReply(ops[0], reply));
      MirrorCons(ops, Entry(s'.pos, reply), log);
      if Entry(r.pos, answer) == first {
        ConsEqual(first, ReaderRun(o, r, ops[1..]), Mirror(ops[1..], log));
      } else {
        assert ReaderRun(o, Stream(final.bits, s.pos), ops)[0] == Entry(r.pos, answer);
      }
    }
  }

  lemma MirrorCons(ops: seq<Op>, e: Entry, log: seq<Entry>)
    requires |ops| == 1 + |log|
    requires forall op | op in ops :: op.Format? ==> |op.values| == |op.fields|
    ensures Mirror(ops, [e] + log) == [Entry(e.pos, MirrorReply(ops[0], e.reply))] + Mirror(ops[1..], log)
  {
    hide MirrorReply;
  }

  lemma ConsEqual(x: Entry, xs: seq<Entry>, ys: seq<Entry>)
    ensures [x] + xs == [x] + ys <==> xs == ys
  {
    assert ([x] + xs)[1..] == xs && ([x] + ys)[1..] == ys;
  }

  /** Round trip: run any calls on a fresh writer, then their mirror on a reader over the bytes it
      left. At every step the cursors agree, what was written is read back, cut to its width, and
      the reader fails where the writer failed with the same exception, if and only if reader and
      writer stop together in every format the run has room for. */
  lemma ScriptMirrors(o: WireOrder, size: nat, ops: seq<Op>)
    requires forall op | op in ops :: Admissible(op) && HasMirror(o, op)
    ensures |WriterRun(o, Fresh(size), ops).1| == |ops|
    ensures var (final, log) := WriterRun(o, Fresh(size), ops);
            ReaderRun(o, Stream(final.bits, 0), ops) == Mirror(ops, log) <==> RunMirrors(8 * size, 0, ops)
  {
    MirrorRun(o, Fresh(size), ops);
  }

  lemma {:induction false} EvenHandedMirrors(len: nat, pos: nat, ops: seq<Op>)
    requires forall op | op in ops :: EvenHanded(op)
    ensures RunMirrors(len, pos, ops)
    decreases |ops|
  {
    hide CursorAfter, Total;
    if ops != [] {
      assert EvenHanded(ops[0]);
      if ops[0].Format? {
        EvenPrefixes(ops[0].fields);
      }
      EvenHandedMirrors(len, CursorAfter(len, pos, ops[0]), ops[1..]);
    }
  }

  /** So every script whose formats have no padding of a refused width makes the round trip. */
  lemma ScriptRoundTrip(o: WireOrder, size: nat, ops: seq<Op>)
    requires forall op | op in ops :: Admissible(op) && HasMirror(o, op) && EvenHanded(op)
    ensures |WriterRun(o, Fresh(size), ops).1| == |ops|
    ensures var (final, log) := WriterRun(o, Fresh(size), ops);
            ReaderRun(o, Stream(final.bits, 0), ops) == Mirror(ops, log)
  {
    ScriptMirrors(o, size, ops);
    EvenHandedMirrors(8 * size, 0, ops);
  }
}
