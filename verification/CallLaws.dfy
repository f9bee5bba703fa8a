/** Laws of single calls against calls of other kinds. */
module CallLaws {
  import opened Words
  import opened Outcomes
  import opened Streams
  import opened Formats
  import opened FormatStreams
  import opened FormatLaws

  // ---------------------------------------------------------------- one call as a format of one field

  lemma SingleField(f: FieldDef)
    ensures Total([f]) == f.bitWidth && Offset([f], 0) == 0
    ensures [f][..1] == [f]
    ensures GoodReads([f]) == (if Readable(f) then 1 else 0)
    ensures GoodWrites([f]) == (if Writable(f) then 1 else 0)
  {
    assert [f][1..] == [] && [f][..0] == [];
  }

  /** Skipping `n` bits is deserializing one padding field of that width: the same cursor, and the
      same exception past the end. */
  lemma SkipIsPadding(o: WireOrder, s: Stream, n: nat)
    ensures var d := Deserialize(o, s, [FieldDef("_", n)]);
            && Skip(s, n).s == d.s
            && Skip(s, n).result == (if d.result.Ok? then Ok(()) else Throws(d.result.error))
            && (d.result.Ok? ==> d.result.value == [0])
    ensures Skip(s, n).result == if s.Has(n) then Ok(()) else Throws(OutOfRange)
  {
    hide Deserialize, Decode;
    var f := FieldDef("_", n);
    SingleField(f);
    DeserializeOutcome(o, s, [f]);
    if s.Has(n) {
      ValuesAt(o, s.bits, s.pos, [f], 0);
      assert Values(o, s.bits, s.pos, [f]) == [0];
    }
  }

  /** Reading `n` bits is deserializing one field of that width; a width the loop refuses throws
      an invalid argument even where there is no room for it. */
  lemma ReadIsOneField(o: WireOrder, s: Stream, n: nat)
    ensures var r, d := ReadBits(o, s, n), Deserialize(o, s, [FieldDef("v", n)]);
            if 1 <= n <= 64 then
              && r.s == d.s
              && d.result == (if r.result.Ok? then Ok([r.result.value]) else Throws(r.result.error))
              && (r.result.Ok? <==> s.Has(n))
              && (r.result.Throws? ==> r == Step(s, Throws(OutOfRange)))
            else
              r == Step(s, Throws(InvalidArgument))
  {
    hide Deserialize, Decode;
    var f := FieldDef("v", n);
    SingleField(f);
    DeserializeOutcome(o, s, [f]);
    if 1 <= n <= 64 && s.Has(n) {
      ValuesAt(o, s.bits, s.pos, [f], 0);
      assert Values(o, s.bits, s.pos, [f]) == [Decode(o, s.Window(n))];
    }
  }

  /** Writing `n` bits is serializing one field of that width, with the same order of refusals. */
  lemma WriteIsOneField(o: WireOrder, s: Stream, n: nat, v: nat)
    ensures var w, d := WriteBits(o, s, n, v), Serialize(o, s, [FieldDef("v", n)], [v]);
            if 1 <= n <= 64 then
              && w == d && (w.result.Ok? <==> s.Has(n))
              && (w.result.Throws? ==> w == Step(s, Throws(OutOfRange)))
            else
              w == Step(s, Throws(InvalidArgument))
  {
    hide Encode, OrAt;
    var f := FieldDef("v", n);
    SingleField(f);
    assert [f][1..] == [] && [v][1..] == [];
    var w := WriteBits(o, s, n, v);
    assert WriteFields(o, w.s, [], []) == Step(w.s, Ok(()));
    assert WriteFields(o, s, [f], [v]) == w;
  }

  // ---------------------------------------------------------------- what a write changes

  /** On any stream at all, a bitwise write sets the bits of its window that the value sets and
      changes no other bit. */
  lemma WriteSets(o: WireOrder, s: Stream, n: nat, v: nat, q: nat)
    requires 1 <= n <= 64 && s.Has(n) && q < |s.bits|
    ensures var w := WriteBits(o, s, n, v);
            && w.result == Ok(()) && w.s.pos == s.pos + n && |w.s.bits| == |s.bits|
            && w.s.bits[q] == (s.bits[q] || (s.pos <= q < s.pos + n && Bit(v, Place(o, n, q - s.pos))))
  {
    hide Encode, Bit;
    EncodeAt(o, v, n);
  }

  /** On any stream at all, an aligned write makes its window read as the value, whatever it held,
      and changes no bit outside it. */
  lemma AlignedRoundTrip(o: WireOrder, s: Stream, size: nat, v: nat)
    requires 1 <= size <= 8 && s.pos % 8 == 0 && s.Has(8 * size) && v < Pow2(8 * size)
    ensures var w := WriteAligned(o, s, size, v);
            && w.result == Ok(()) && |w.s.bits| == |s.bits|
            && ReadAligned(o, Stream(w.s.bits, s.pos), size) == Step(w.s, Ok(v))
            && w.s.bits[..s.pos] == s.bits[..s.pos] && w.s.bits[w.s.pos..] == s.bits[w.s.pos..]
  {
    hide Encode, Decode, Pow2, Trunc;
    PutThenWindow(s, Encode(o, v, 8 * size));
    DecodeEncode(o, v, 8 * size);
    TruncSmall(v, 8 * size);
  }

  // ---------------------------------------------------------------- which names are padding

  /** In a format of widths 1 to 64, a field reads as 0 from every stream with room exactly when its
      name starts with an underscore or is one of two words; otherwise it reads as its bits. */
  lemma PaddingNames(o: WireOrder, fields: seq<FieldDef>, i: nat)
    requires i < |fields| && forall f | f in fields :: Writable(f)
    ensures (forall s: Stream | s.Has(Total(fields)) :: ReadsAs(o, s, fields, i, 0)) <==>
            "_" <= fields[i].name || fields[i].name in {"reserved", "padding"}
    ensures "_" <= fields[i].name || fields[i].name in {"reserved", "padding"} ||
            forall s: Stream | s.Has(Total(fields)) ::
              && s.Has(Offset(fields, i) + fields[i].bitWidth)
              && var p := s.pos + Offset(fields, i);
                 ReadsAs(o, s, fields, i, Decode(o, s.bits[p..p + fields[i].bitWidth]))
  {
    hide Decode, Total, Offset, IsPadding, ReadsAs;
    var f, n := fields[i], Total(fields);
    PaddingName(f.name);
    forall s: Stream | s.Has(n)
      ensures s.Has(Offset(fields, i) + f.bitWidth)
      ensures ReadsAs(o, s, fields, i, ValueAt(o, s.bits, s.pos + Offset(fields, i), f))
    {
      ReadsValue(o, s, fields, i);
    }
    if !IsPadding(f.name) {
      var s := OnesRead(o, fields, i);
    }
  }

  /** A field that is not padding reads as something else than 0 where all bits are set. */
  lemma OnesRead(o: WireOrder, fields: seq<FieldDef>, i: nat) returns (s: Stream)
    requires i < |fields| && (forall f | f in fields :: Writable(f)) && !IsPadding(fields[i].name)
    ensures s.Has(Total(fields)) && !ReadsAs(o, s, fields, i, 0)
  {
    hide Decode, Total, Offset, IsPadding, ReadsAs;
    var f, p := fields[i], Offset(fields, i);
    assert f in fields;
    FieldEnd(fields, i);
    s := Stream(seq(Total(fields), _ => true), 0);
    var w := s.bits[p..p + f.bitWidth];
    assert w[0];
    DecodeZero(o, w);
    ReadsValue(o, s, fields, i);
    ReadsOnce(o, s, fields, i, Decode(o, w));
  }

  /** Deserializing succeeds and gives field `i` the value `v`. */
  predicate ReadsAs(o: WireOrder, s: Stream, fields: seq<FieldDef>, i: nat, v: nat)
  {
    var r := Deserialize(o, s, fields).result;
    r.Ok? && i < |r.value| && r.value[i] == v
  }

  lemma ReadsOnce(o: WireOrder, s: Stream, fields: seq<FieldDef>, i: nat, v: nat)
    requires ReadsAs(o, s, fields, i, v) && v != 0
    ensures !ReadsAs(o, s, fields, i, 0)
  {
    hide Deserialize;
  }

  lemma ReadsValue(o: WireOrder, s: Stream, fields: seq<FieldDef>, i: nat)
    requires i < |fields| && s.Has(Total(fields)) && forall f | f in fields :: Writable(f)
    ensures s.Has(Offset(fields, i) + fields[i].bitWidth)
    ensures ReadsAs(o, s, fields, i, ValueAt(o, s.bits, s.pos + Offset(fields, i), fields[i]))
  {
    hide Deserialize, ValueAt, Total, Offset, Values;
    DeserializeOutcome(o, s, fields);
    ValuesAt(o, s.bits, s.pos, fields, i);
  }

  lemma FieldEnd(fields: seq<FieldDef>, i: nat)
    requires i < |fields|
    ensures Offset(fields, i) + fields[i].bitWidth <= Total(fields)
  {
    OffsetNext(fields, i);
    OffsetMonotone(fields, i + 1, |fields|);
  }

  lemma PaddingName(name: string)
    ensures IsPadding(name) <==> "_" <= name || name in {"reserved", "padding"}
  {
    assert "_" <= name <==> name != "" && name[0] == '_';
  }
}
