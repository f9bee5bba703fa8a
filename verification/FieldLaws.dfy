/** Laws of access to single fields: by name and through byte spans. */
module FieldLaws {
  import opened Words
  import opened Outcomes
  import opened Streams
  import opened Numbers
  import opened Formats
  import opened FormatStreams
  import opened FormatLaws

  // ---------------------------------------------------------------- read_field

  /** Reading field `i` by name succeeds exactly when its width is 1 to 64 and the cursor plus its
      offset plus its width stays inside the buffer: the check is made from the cursor although
      the seek is made from the start. Failure leaves the cursor alone, except that a width over
      64 that fits is refused after the seek. */
  lemma ReadNamedOutcome(o: WireOrder, s: Stream, fields: seq<FieldDef>, name: string)
    ensures var r := ReadNamed(o, s, fields, name);
            match FirstNamed(fields, name)
            case None => r == Step(s, Throws(OutOfRange))
            case Some(i) =>
              var offset, width := Offset(fields, i), fields[i].bitWidth;
              && (r.result.Ok? <==> 1 <= width <= 64 && s.Has(offset + width))
              && (r.result.Ok? ==> r.s == Stream(s.bits, offset + width))
              && (r.result.Throws? ==>
                    if width > 64 && s.Has(offset + width)
                    then r == Step(Stream(s.bits, offset), Throws(InvalidArgument))
                    else r == Step(s, Throws(OutOfRange)))
  {
    hide Decode, Offset;
  }

  /** Whenever reading by name succeeds, from whatever cursor, it gives what looking the name up in
      the whole deserialized packet gives. */
  lemma ReadNamedAgrees(o: WireOrder, s: Stream, fields: seq<FieldDef>, name: string)
    requires ReadNamed(o, s, fields, name).result.Ok? && !IsPadding(name)
    requires Deserialize(o, Stream(s.bits, 0), fields).result.Ok?
    ensures var values := Deserialize(o, Stream(s.bits, 0), fields).result.value;
            && |values| == |fields|
            && Get(fields, values, name) == ReadNamed(o, s, fields, name).result
  {
    hide Decode, Deserialize, Values;
    DeserializeOutcome(o, Stream(s.bits, 0), fields);
    ReadNamedOutcome(o, s, fields, name);
    ValuesAt(o, s.bits, 0, fields, FirstNamed(fields, name).value);
  }

  /** Whenever reading by name succeeds, padding or not and whatever the rest of the format, it gives
      the digit of the buffer's number that the field is. */
  lemma ReadNamedValue(o: WireOrder, s: Stream, fields: seq<FieldDef>, name: string)
    requires ReadNamed(o, s, fields, name).result.Ok?
    ensures FirstNamed(fields, name).Some?
    ensures var i := FirstNamed(fields, name).value;
            var p, n := Offset(fields, i), fields[i].bitWidth;
            && p + n <= |s.bits|
            && ReadNamed(o, s, fields, name).result.value ==
               Trunc(Shr(Decode(o, s.bits), Weight(o, |s.bits|, p, n)), n)
  {
    hide Decode, Trunc, Shr, Offset, Weight;
    var i := FirstNamed(fields, name).value;
    FieldOfNumber(o, s.bits, Offset(fields, i), fields[i].bitWidth);
  }

  /** Looking a name up gives the value of the first field that has it. */
  lemma GetOutcome(fields: seq<FieldDef>, values: seq<nat>, name: string, i: nat)
    requires |values| == |fields| && i < |fields|
    requires fields[i].name == name && forall j | 0 <= j < i :: fields[j].name != name
    ensures Get(fields, values, name) == Ok(values[i])
  {
    FirstNamedUnique(fields, name, i);
  }

  // ---------------------------------------------------------------- spans

  /** The bytes of `span` lie in a buffer of `size` bytes and are exactly the `n` bits at `p`. */
  ghost predicate Covers(span: Span, size: nat, p: nat, n: nat)
  {
    span.start + span.length <= size && 8 * span.start == p && 8 * span.length == n
  }

  /** A field span is the one run of whole bytes in the buffer that is the first field of that name,
      wherever there is such a run, and the empty span where there is none. */
  lemma SpanCoversField(fields: seq<FieldDef>, name: string, size: nat)
    ensures var span := SpanOfField(fields, name, size);
            match FirstNamed(fields, name)
            case None => span == NoSpan
            case Some(i) =>
              var offset, width := Offset(fields, i), fields[i].bitWidth;
              && (forall other :: Covers(other, size, offset, width) ==> other == span)
              && (Covers(span, size, offset, width) || span == NoSpan)
  {
    hide Offset;
    if FirstNamed(fields, name).Some? {
      var i := FirstNamed(fields, name).value;
      forall other | Covers(other, size, Offset(fields, i), fields[i].bitWidth)
        ensures other == SpanOfField(fields, name, size)
      {
        assert Offset(fields, i) == 8 * other.start && fields[i].bitWidth == 8 * other.length;
      }
    }
  }

  /** The bytes of a span spell the field's value: most significant byte first in big-endian
      order, least significant first in little-endian order. */
  lemma SpanSpellsField(o: WireOrder, buf: seq<byte>, fields: seq<FieldDef>, name: string)
    requires var span := SpanOfField(fields, name, |buf|); 1 <= span.length <= 8
    ensures var span := SpanOfField(fields, name, |buf|);
            ReadNamed(o, Stream(Bits(o, buf), 0), fields, name).result ==
            Ok(BufferNumber(o, buf[span.start..span.start + span.length]))
  {
    hide Decode, Bits, BufferNumber, Pow2, Offset;
    var span := SpanOfField(fields, name, |buf|);
    AlignedValue(o, buf, span.start, span.length);
  }

  /** Storing any bytes through a field's span changes the bits of no other field, hence the value
      of no other field of the packet. */
  lemma StoreThroughSpan(o: WireOrder, buf: seq<byte>, bytes: seq<byte>, fields: seq<FieldDef>, name: string, j: nat)
    requires Total(fields) <= 8 * |buf| && j < |fields| && FirstNamed(fields, name) != Some(j)
    requires var span := SpanOfField(fields, name, |buf|); span != NoSpan && |bytes| == span.length
    ensures var buf' := Store(buf, SpanOfField(fields, name, |buf|), bytes);
            Values(o, Bits(o, buf'), 0, fields)[j] == Values(o, Bits(o, buf), 0, fields)[j]
  {
    hide Decode, Values, Bits, Offset, Store, Total;
    var i := FirstNamed(fields, name).value;
    var span := SpanOfField(fields, name, |buf|);
    var buf' := Store(buf, span, bytes);
    FieldsDisjoint(fields, i, j);
    ValuesAt(o, Bits(o, buf), 0, fields, j);
    ValuesAt(o, Bits(o, buf'), 0, fields, j);
    StoreIsLocal(o, buf, span, bytes, Offset(fields, j), fields[j].bitWidth);
  }

  function Store(buf: seq<byte>, span: Span, bytes: seq<byte>): (r: seq<byte>)
    requires span.start + span.length <= |buf| && |bytes| == span.length
    ensures |r| == |buf|
  {
    buf[..span.start] + bytes + buf[span.start + span.length..]
  }

  lemma StoreIsLocal(o: WireOrder, buf: seq<byte>, span: Span, bytes: seq<byte>, p: nat, n: nat)
    requires span.start + span.length <= |buf| && |bytes| == span.length && p + n <= 8 * |buf|
    requires p + n <= 8 * span.start || 8 * (span.start + span.length) <= p
    ensures Bits(o, Store(buf, span, bytes))[p..p + n] == Bits(o, buf)[p..p + n]
  {
    hide Bit;
    var buf' := Store(buf, span, bytes);
    assert |Bits(o, buf')| == |Bits(o, buf)|;
    forall q: nat | p <= q < p + n
      ensures Bits(o, buf')[q] == Bits(o, buf)[q]
    {
      assert q / 8 < span.start || span.start + span.length <= q / 8;
      assert buf'[q / 8] == buf[q / 8];
    }
  }

  /** What was stored through the span is what the field then reads as. */
  lemma StoredValueIsRead(o: WireOrder, buf: seq<byte>, bytes: seq<byte>, fields: seq<FieldDef>, name: string)
    requires var span := SpanOfField(fields, name, |buf|); 1 <= span.length == |bytes| <= 8
    ensures var buf' := Store(buf, SpanOfField(fields, name, |buf|), bytes);
            ReadNamed(o, Stream(Bits(o, buf'), 0), fields, name).result == Ok(BufferNumber(o, bytes))
  {
    hide Bits, BufferNumber, ReadNamed;
    var span := SpanOfField(fields, name, |buf|);
    var buf' := Store(buf, span, bytes);
    assert buf'[span.start..span.start + span.length] == bytes;
    SpanSpellsField(o, buf', fields, name);
  }
}
