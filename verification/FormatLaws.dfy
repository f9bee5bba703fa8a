/** Laws of whole-format deserialization and serialization. */
module FormatLaws {
  import opened Words
  import opened Outcomes
  import opened Streams
  import opened Formats
  import opened FormatStreams

  /** A width the bit loops accept. */
  predicate Writable(f: FieldDef)
  {
    1 <= f.bitWidth <= 64
  }

  /** Padding is skipped, so any width will do for it. */
  predicate Readable(f: FieldDef)
  {
    IsPadding(f.name) || Writable(f)
  }

  function GoodReads(fields: seq<FieldDef>): (k: nat)
    ensures k <= |fields|
    ensures forall i | 0 <= i < k :: Readable(fields[i])
    ensures k < |fields| ==> !Readable(fields[k])
  {
    if fields == [] || !Readable(fields[0]) then 0
    else
      assert forall i | 1 <= i < |fields| :: fields[i] == fields[1..][i - 1];
      1 + GoodReads(fields[1..])
  }

  function GoodWrites(fields: seq<FieldDef>): (k: nat)
    ensures k <= |fields|
    ensures forall i | 0 <= i < k :: Writable(fields[i])
    ensures k < |fields| ==> !Writable(fields[k])
  {
    if fields == [] || !Writable(fields[0]) then 0
    else
      assert forall i | 1 <= i < |fields| :: fields[i] == fields[1..][i - 1];
      1 + GoodWrites(fields[1..])
  }

  // ---------------------------------------------------------------- the values of a format

  /** What field `f` at position `p` reads as. */
  function ValueAt(o: WireOrder, bits: seq<bool>, p: nat, f: FieldDef): nat
    requires p + f.bitWidth <= |bits|
  {
    if IsPadding(f.name) then 0 else Decode(o, bits[p..p + f.bitWidth])
  }

  function Values(o: WireOrder, bits: seq<bool>, p: nat, fields: seq<FieldDef>): (vs: seq<nat>)
    requires p + Total(fields) <= |bits|
    ensures |vs| == |fields|
    decreases |fields|
  {
    if fields == [] then []
    else [ValueAt(o, bits, p, fields[0])] + Values(o, bits, p + fields[0].bitWidth, fields[1..])
  }

  lemma {:induction false} ValuesAt(o: WireOrder, bits: seq<bool>, p: nat, fields: seq<FieldDef>, i: nat)
    requires p + Total(fields) <= |bits| && i < |fields|
    ensures Offset(fields, i) + fields[i].bitWidth <= Total(fields)
    ensures Values(o, bits, p, fields)[i] == ValueAt(o, bits, p + Offset(fields, i), fields[i])
    decreases i
  {
    hide ValueAt;
    if i > 0 {
      ValuesAt(o, bits, p + fields[0].bitWidth, fields[1..], i - 1);
      assert fields[..i][1..] == fields[1..][..i - 1];
    }
  }

  /** The values of a format depend on its own bits only. */
  lemma ValuesLocal(o: WireOrder, a: seq<bool>, b: seq<bool>, p: nat, fields: seq<FieldDef>)
    requires |a| == |b| && p + Total(fields) <= |a|
    requires a[p..p + Total(fields)] == b[p..p + Total(fields)]
    ensures Values(o, a, p, fields) == Values(o, b, p, fields)
  {
    hide Values, Decode, Total;
    forall i | 0 <= i < |fields|
      ensures Values(o, a, p, fields)[i] == Values(o, b, p, fields)[i]
    {
      ValuesAt(o, a, p, fields, i);
      ValuesAt(o, b, p, fields, i);
      var lo, n := Offset(fields, i), fields[i].bitWidth;
      SliceOfSlice(a, p, p + Total(fields), lo, lo + n);
      SliceOfSlice(b, p, p + Total(fields), lo, lo + n);
    }
  }

  lemma SliceOfSlice(a: seq<bool>, p: nat, q: nat, lo: nat, hi: nat)
    requires p <= q <= |a| && lo <= hi <= q - p
    ensures a[p..q][lo..hi] == a[p + lo..p + hi]
  {
    var b := a[p..q];
    forall i | 0 <= i < hi - lo
      ensures b[lo..hi][i] == a[p + lo..p + hi][i]
    {
      assert b[lo + i] == a[p + (lo + i)];
    }
  }

  lemma ReadFieldOutcome(o: WireOrder, s: Stream, f: FieldDef)
    requires s.Has(f.bitWidth)
    ensures ReadField(o, s, f) ==
            if Readable(f) then Step(s.Advance(f.bitWidth), Ok(ValueAt(o, s.bits, s.pos, f)))
            else Step(s, Throws(InvalidArgument))
  {
    hide Decode;
  }

  /** A pass gets over readable fields that fit, taking their values along. */
  lemma {:induction false} ReadOver(o: WireOrder, s: Stream, good: seq<FieldDef>, rest: seq<FieldDef>, done: seq<nat>)
    requires s.Has(Total(good)) && forall f | f in good :: Readable(f)
    ensures ReadFields(o, s, good + rest, done) ==
            ReadFields(o, s.Advance(Total(good)), rest, done + Values(o, s.bits, s.pos, good))
    decreases |good|
  {
    hide ReadField, ValueAt, Readable;
    if good == [] {
      assert good + rest == rest && done + [] == done;
    } else {
      var f, v := good[0], ValueAt(o, s.bits, s.pos, good[0]);
      ReadFieldOutcome(o, s, f);
      assert (good + rest)[1..] == good[1..] + rest;
      ReadOver(o, s.Advance(f.bitWidth), good[1..], rest, done + [v]);
      AppendAssoc(done, [v], Values(o, s.bits, s.pos + f.bitWidth, good[1..]));
    }
  }

  lemma AppendAssoc<T>(a: seq<T>, b: seq<T>, c: seq<T>)
    ensures a + b + c == a + (b + c)
  {
  }

  /** Where a pass over the fields of a format that fits ends: at its end, or in front of the
      first field whose width the bit loop refuses. */
  lemma ReadFieldsRun(o: WireOrder, s: Stream, fields: seq<FieldDef>)
    requires s.Has(Total(fields))
    ensures var k := GoodReads(fields);
            && s.Has(Offset(fields, k))
            && ReadFields(o, s, fields, []) ==
               FieldRun(s.Advance(Offset(fields, k)), Values(o, s.bits, s.pos, fields[..k]),
                        if k == |fields| then None else Some(InvalidArgument))
  {
    hide ReadField, ValueAt, Readable, Values, Total;
    var k := GoodReads(fields);
    var good, rest := fields[..k], fields[k..];
    OffsetMonotone(fields, k, |fields|);
    assert fields == good + rest;
    ReadOver(o, s, good, rest, []);
    var values := Values(o, s.bits, s.pos, good);
    assert [] + values == values;
    if k < |fields| {
      OffsetNext(fields, k);
      OffsetMonotone(fields, k + 1, |fields|);
      ReadFieldOutcome(o, s.Advance(Total(good)), fields[k]);
    }
  }

  /** Deserializing succeeds exactly when the format fits and every field that is not padding has
      a width of 1 to 64. A format that does not fit leaves the cursor alone; a refused width
      leaves it in front of that field. */
  lemma DeserializeOutcome(o: WireOrder, s: Stream, fields: seq<FieldDef>)
    ensures var r := Deserialize(o, s, fields);
            && (r.result.Ok? <==> s.Has(Total(fields)) && forall f | f in fields :: Readable(f))
            && (r.result.Ok? ==>
                  r == Step(s.Advance(Total(fields)), Ok(Values(o, s.bits, s.pos, fields))))
            && (!s.Has(Total(fields)) ==> r == Step(s, Throws(OutOfRange)))
            && (s.Has(Total(fields)) && r.result.Throws? ==>
                  r == Step(s.Advance(Offset(fields, GoodReads(fields))), Throws(InvalidArgument)))
  {
    if s.Has(Total(fields)) {
      ReadFieldsRun(o, s, fields);
      var k := GoodReads(fields);
      if k == |fields| {
        assert fields[..k] == fields;
      } else {
        assert fields[k] in fields;
      }
    }
  }

  /** What a variable of type `t` must hold once field `f` at `p` has been read into it: nothing for
      padding; for an integer the low bits of the field, for a boolean whether any is set. */
  predicate Assigned(o: WireOrder, bits: seq<bool>, p: nat, f: FieldDef, t: Target, x: nat)
    requires p + f.bitWidth <= |bits|
  {
    var w := bits[p..p + f.bitWidth];
    if IsPadding(f.name) then x == 0
    else
      match t
      case Integer(width) => x < Pow2(width) && forall k: nat | k < width :: Bit(x, k) == Bit(Decode(o, w), k)
      case Boolean => x <= 1 && (x == 0 <==> w == Zeros(f.bitWidth))
  }

  lemma DecodeZero(o: WireOrder, w: seq<bool>)
    ensures Decode(o, w) == 0 <==> w == Zeros(|w|)
  {
    hide Encode, Decode, Trunc, Pow2;
    EncodeDecode(o, w);
    EncodeZero(o, |w|);
    DecodeEncode(o, 0, |w|);
    TruncSmall(0, |w|);
  }

  lemma CastAssigns(o: WireOrder, bits: seq<bool>, p: nat, f: FieldDef, t: Target)
    requires p + f.bitWidth <= |bits|
    ensures Assigned(o, bits, p, f, t, Cast(ValueAt(o, bits, p, f), t))
  {
    hide Decode, Trunc, Bit, Pow2, IsPadding;
    DecodeZero(o, bits[p..p + f.bitWidth]);
    match t
    case Integer(width) =>
      TruncSmall(0, width);
      forall k: nat | k < width
        ensures Bit(Trunc(ValueAt(o, bits, p, f), width), k) == Bit(ValueAt(o, bits, p, f), k)
      {
        BitOfTrunc(ValueAt(o, bits, p, f), width, k);
      }
    case Boolean =>
  }

  /** The first `n` variables have been read into. */
  ghost predicate AllAssigned(o: WireOrder, s: Stream, fields: seq<FieldDef>, targets: seq<Target>,
                              xs: seq<nat>, n: nat)
    requires n <= |fields| == |targets| == |xs|
  {
    forall i | 0 <= i < n ::
      && s.Has(Offset(fields, i) + fields[i].bitWidth)
      && Assigned(o, s.bits, s.pos + Offset(fields, i), fields[i], targets[i], xs[i])
  }

  /** A pass that casts its values assigns every variable up to the first field it cannot read. */
  lemma CastAllAssigns(o: WireOrder, s: Stream, fields: seq<FieldDef>, targets: seq<Target>, before: seq<nat>)
    requires s.Has(Total(fields)) && |fields| == |targets| == |before|
    ensures var run := ReadFields(o, s, fields, []);
            var n := GoodReads(fields);
            && |run.values| == n
            && AllAssigned(o, s, fields, targets, CastAll(run.values, targets) + before[n..], n)
  {
    hide ReadFields, Values, ValueAt, Cast, Assigned, Total;
    ReadFieldsRun(o, s, fields);
    var n := GoodReads(fields);
    OffsetMonotone(fields, n, |fields|);
    var good, values := fields[..n], Values(o, s.bits, s.pos, fields[..n]);
    forall i | 0 <= i < n
      ensures s.Has(Offset(fields, i) + fields[i].bitWidth)
      ensures Assigned(o, s.bits, s.pos + Offset(fields, i), fields[i], targets[i], CastAll(values, targets)[i])
    {
      assert good[..i] == fields[..i];
      ValuesAt(o, s.bits, s.pos, good, i);
      CastAssigns(o, s.bits, s.pos + Offset(fields, i), fields[i], targets[i]);
    }
  }

  // ---------------------------------------------------------------- the bits of a format

  /** The stream bits of one value per field, in field order. */
  function FormatBits(o: WireOrder, fields: seq<FieldDef>, values: seq<nat>): (bs: seq<bool>)
    requires |values| == |fields|
    ensures |bs| == Total(fields)
    decreases |fields|
  {
    if fields == [] then []
    else Encode(o, values[0], fields[0].bitWidth) + FormatBits(o, fields[1..], values[1..])
  }

  lemma {:induction false} FormatBitsAt(o: WireOrder, fields: seq<FieldDef>, values: seq<nat>, i: nat)
    requires |values| == |fields| && i < |fields|
    ensures Offset(fields, i) + fields[i].bitWidth <= Total(fields)
    ensures FormatBits(o, fields, values)[Offset(fields, i)..Offset(fields, i) + fields[i].bitWidth] ==
            Encode(o, values[i], fields[i].bitWidth)
    decreases i
  {
    hide Encode;
    if i > 0 {
      FormatBitsAt(o, fields[1..], values[1..], i - 1);
      assert fields[..i][1..] == fields[1..][..i - 1];
    }
  }

  lemma OrTwice(bits: seq<bool>, p: nat, x: seq<bool>, y: seq<bool>)
    requires p + |x| + |y| <= |bits|
    ensures OrAt(OrAt(bits, p, x), p + |x|, y) == OrAt(bits, p, x + y)
  {
  }

  lemma OrEmpty(bits: seq<bool>, p: nat)
    requires p <= |bits|
    ensures OrAt(bits, p, []) == bits
  {
  }

  /** The stream after the bits `es` have been or-ed in at the cursor. */
  function Written(s: Stream, es: seq<bool>): (r: Stream)
    requires s.Has(|es|)
    ensures r.pos == s.pos + |es| && |r.bits| == |s.bits|
  {
    Stream(OrAt(s.bits, s.pos, es), s.pos + |es|)
  }

  lemma WriteBitsOutcome(o: WireOrder, s: Stream, f: FieldDef, v: nat)
    requires s.Has(f.bitWidth)
    ensures WriteBits(o, s, f.bitWidth, v) ==
            if Writable(f) then Step(Written(s, Encode(o, v, f.bitWidth)), Ok(()))
            else Step(s, Throws(InvalidArgument))
  {
    hide Encode, OrAt;
  }

  lemma WrittenTwice(s: Stream, x: seq<bool>, y: seq<bool>)
    requires s.Has(|x| + |y|)
    ensures Written(Written(s, x), y) == Written(s, x + y)
  {
    OrTwice(s.bits, s.pos, x, y);
  }

  lemma WrittenNothing(s: Stream)
    requires s.Has(0)
    ensures Written(s, []) == s
  {
    OrEmpty(s.bits, s.pos);
  }

  /** A pass gets over writable fields that fit, leaving their bits behind. */
  lemma {:induction false} WriteOver(o: WireOrder, s: Stream, good: seq<FieldDef>, rest: seq<FieldDef>,
                                     gvs: seq<nat>, rvs: seq<nat>)
    requires |gvs| == |good| && |rvs| == |rest|
    requires s.Has(Total(good)) && forall f | f in good :: Writable(f)
    ensures WriteFields(o, s, good + rest, gvs + rvs) ==
            WriteFields(o, Written(s, FormatBits(o, good, gvs)), rest, rvs)
    decreases |good|
  {
    hide Encode, Written, WriteBits, Writable;
    if good == [] {
      assert good + rest == rest && gvs + rvs == rvs;
      WrittenNothing(s);
    } else {
      var f, v := good[0], gvs[0];
      WriteBitsOutcome(o, s, f, v);
      var s' := Written(s, Encode(o, v, f.bitWidth));
      assert (good + rest)[1..] == good[1..] + rest && (gvs + rvs)[1..] == gvs[1..] + rvs;
      WriteOver(o, s', good[1..], rest, gvs[1..], rvs);
      WrittenTwice(s, Encode(o, v, f.bitWidth), FormatBits(o, good[1..], gvs[1..]));
    }
  }

  /** Serializing a format that fits or-s the bits of its fields into the buffer, up to its end or
      to the first field whose width is refused. */
  lemma WriteFieldsRun(o: WireOrder, s: Stream, fields: seq<FieldDef>, values: seq<nat>)
    requires |values| == |fields| && s.Has(Total(fields))
    ensures var k := GoodWrites(fields);
            && s.Has(Offset(fields, k))
            && WriteFields(o, s, fields, values) ==
               Step(Written(s, FormatBits(o, fields[..k], values[..k])),
                    if k == |fields| then Ok(()) else Throws(InvalidArgument))
  {
    hide Encode, Written, FormatBits, Total, WriteBits, Writable;
    var k := GoodWrites(fields);
    OffsetMonotone(fields, k, |fields|);
    var good, gvs := fields[..k], values[..k];
    assert fields == good + fields[k..] && values == gvs + values[k..];
    WriteOver(o, s, good, fields[k..], gvs, values[k..]);
    if k < |fields| {
      OffsetNext(fields, k);
      OffsetMonotone(fields, k + 1, |fields|);
      var s' := Written(s, FormatBits(o, good, gvs));
      WriteBitsOutcome(o, s', fields[k], values[k]);
    }
  }

  /** Serializing succeeds exactly when the format fits and every width, padding included, is 1 to
      64. It is all or nothing in space; a refused width leaves the fields before it written. */
  lemma SerializeOutcome(o: WireOrder, s: Stream, fields: seq<FieldDef>, values: seq<nat>)
    requires |values| == |fields|
    ensures var r := Serialize(o, s, fields, values);
            && (r.result.Ok? <==> s.Has(Total(fields)) && forall f | f in fields :: Writable(f))
            && (r.result.Ok? ==> r == Step(Written(s, FormatBits(o, fields, values)), Ok(())))
            && (!s.Has(Total(fields)) ==> r == Step(s, Throws(OutOfRange)))
            && (s.Has(Total(fields)) && r.result.Throws? ==>
                  var k := GoodWrites(fields);
                  && s.Has(Offset(fields, k))
                  && r == Step(Written(s, FormatBits(o, fields[..k], values[..k])), Throws(InvalidArgument)))
  {
    hide Encode, OrAt, FormatBits;
    if s.Has(Total(fields)) {
      WriteFieldsRun(o, s, fields, values);
      var k := GoodWrites(fields);
      if k == |fields| {
        assert fields[..k] == fields && values[..k] == values;
      } else {
        assert fields[k] in fields;
      }
    }
  }

  /** For widths of 1 to 64 both directions are all-or-nothing: the one check on the total decides,
      success moves the cursor by the total, failure changes neither cursor nor buffer. */
  lemma AllOrNothing(o: WireOrder, s: Stream, fields: seq<FieldDef>, values: seq<nat>)
    requires |values| == |fields| && forall f | f in fields :: Writable(f)
    ensures var r, w := Deserialize(o, s, fields), Serialize(o, s, fields, values);
            && (r.result.Ok? <==> s.Has(Total(fields))) && (w.result.Ok? <==> s.Has(Total(fields)))
            && (s.Has(Total(fields)) ==>
                  r.s == s.Advance(Total(fields)) && w.s.pos == s.pos + Total(fields))
            && (!s.Has(Total(fields)) ==>
                  r == Step(s, Throws(OutOfRange)) && w == Step(s, Throws(OutOfRange)))
  {
    hide Deserialize, Serialize, OrAt, FormatBits, Values;
    DeserializeOutcome(o, s, fields);
    SerializeOutcome(o, s, fields, values);
  }

  // ---------------------------------------------------------------- round trips

  /** Slices of the written region show each field's bits. */
  lemma SerializedField(o: WireOrder, s: Stream, fields: seq<FieldDef>, values: seq<nat>, i: nat)
    requires |values| == |fields| && i < |fields| && s.Has(Total(fields)) && s.ZeroTail()
    ensures Offset(fields, i) + fields[i].bitWidth <= Total(fields)
    ensures var p := s.pos + Offset(fields, i);
            OrAt(s.bits, s.pos, FormatBits(o, fields, values))[p..p + fields[i].bitWidth] ==
            Encode(o, values[i], fields[i].bitWidth)
  {
    hide Encode, FormatBits, Total;
    var es := FormatBits(o, fields, values);
    FormatBitsAt(o, fields, values, i);
    OrIntoZeros(s, es);
    PutThenWindow(s, es);
    var a, b := Offset(fields, i), Offset(fields, i) + fields[i].bitWidth;
    assert PutAt(s.bits, s.pos, es)[s.pos + a..s.pos + b] == es[a..b];
  }

  /** Values written through a format come back cut to their widths, padding as 0, and the reader
      ends where the writer did. */
  lemma DeserializeAfterSerialize(o: WireOrder, s: Stream, fields: seq<FieldDef>, values: seq<nat>)
    requires |values| == |fields| && forall f | f in fields :: Writable(f)
    requires s.Has(Total(fields)) && s.ZeroTail()
    ensures var w := Serialize(o, s, fields, values);
            var r := Deserialize(o, Stream(w.s.bits, s.pos), fields);
            && w.result.Ok? && r.result.Ok? && r.s == w.s && |r.result.value| == |fields|
            && forall i | 0 <= i < |fields| :: r.result.value[i] ==
                 if IsPadding(fields[i].name) then 0 else Trunc(values[i], fields[i].bitWidth)
  {
    hide Deserialize, Serialize, Encode, Decode, FormatBits, OrAt, Values, Trunc;
    SerializeOutcome(o, s, fields, values);
    var w := Serialize(o, s, fields, values);
    DeserializeOutcome(o, Stream(w.s.bits, s.pos), fields);
    forall i | 0 <= i < |fields|
      ensures Values(o, w.s.bits, s.pos, fields)[i] ==
              if IsPadding(fields[i].name) then 0 else Trunc(values[i], fields[i].bitWidth)
    {
      ValuesAt(o, w.s.bits, s.pos, fields, i);
      SerializedField(o, s, fields, values, i);
      DecodeEncode(o, values[i], fields[i].bitWidth);
    }
  }

  /** Deserialized values written again reproduce the bits they came from, with the padding bits
      cleared and nothing else. */
  lemma SerializeAfterDeserialize(o: WireOrder, r: Stream, s: Stream, fields: seq<FieldDef>)
    requires forall f | f in fields :: Writable(f)
    requires r.Has(Total(fields)) && s.Has(Total(fields)) && s.ZeroTail()
    ensures var read := Deserialize(o, r, fields);
            && read.result.Ok? && |read.result.value| == |fields|
            && var w := Serialize(o, s, fields, read.result.value);
            && w.result.Ok? && |w.s.bits| == |s.bits|
            && forall i | 0 <= i < |fields| ::
                 var a, n := Offset(fields, i), fields[i].bitWidth;
                 && a + n <= Total(fields)
                 && w.s.bits[s.pos + a..s.pos + a + n] ==
                    if IsPadding(fields[i].name) then Zeros(n) else r.bits[r.pos + a..r.pos + a + n]
  {
    hide Deserialize, Serialize, FormatBits, OrAt, Values;
    DeserializeOutcome(o, r, fields);
    var values := Values(o, r.bits, r.pos, fields);
    SerializeOutcome(o, s, fields, values);
    forall i | 0 <= i < |fields| {
      EchoedField(o, r, s, fields, i);
    }
  }

  lemma EchoedField(o: WireOrder, r: Stream, s: Stream, fields: seq<FieldDef>, i: nat)
    requires i < |fields|
    requires r.Has(Total(fields)) && s.Has(Total(fields)) && s.ZeroTail()
    ensures Offset(fields, i) + fields[i].bitWidth <= Total(fields)
    ensures var a, n := Offset(fields, i), fields[i].bitWidth;
            OrAt(s.bits, s.pos, FormatBits(o, fields, Values(o, r.bits, r.pos, fields)))
              [s.pos + a..s.pos + a + n] ==
            if IsPadding(fields[i].name) then Zeros(n) else r.bits[r.pos + a..r.pos + a + n]
  {
    hide Encode, Decode, FormatBits, OrAt, Values, Total;
    ValuesAt(o, r.bits, r.pos, fields, i);
    SerializedField(o, s, fields, Values(o, r.bits, r.pos, fields), i);
    var a, n := Offset(fields, i), fields[i].bitWidth;
    EncodeDecode(o, r.bits[r.pos + a..r.pos + a + n]);
    EncodeZero(o, n);
  }
}
