/** Replacing the checks of single fields by one comparison of bytes. */
module Comparisons {
  import opened Words
  import opened Outcomes
  import opened Streams
  import opened Numbers
  import opened Formats
  import opened FormatStreams
  import opened FormatLaws

  /** One expected value per field. */
  function Table(fields: seq<FieldDef>, values: seq<nat>): (t: seq<ExpectedField>)
    requires |values| == |fields|
    ensures |t| == |fields|
  {
    seq(|fields|, (i: nat) requires i < |fields| => ExpectedField(fields[i].name, values[i]))
  }

  predicate Holds(fields: seq<FieldDef>, values: seq<nat>, e: ExpectedField)
    requires |values| == |fields|
  {
    var i := FirstNamed(fields, e.name);
    i.Some? && values[i.value] == e.value
  }

  /** The first entry that does not hold. */
  function FirstRefused(fields: seq<FieldDef>, values: seq<nat>, expected: seq<ExpectedField>): (k: nat)
    requires |values| == |fields|
    ensures k <= |expected|
    ensures forall i | 0 <= i < k :: Holds(fields, values, expected[i])
    ensures k < |expected| ==> !Holds(fields, values, expected[k])
  {
    if expected == [] || !Holds(fields, values, expected[0]) then 0
    else
      assert forall i | 1 <= i < |expected| :: expected[i] == expected[1..][i - 1];
      1 + FirstRefused(fields, values, expected[1..])
  }

  /** Checking accepts exactly when every entry holds; otherwise the first entry that does not
      decides: a different value rejects, an unknown name throws. */
  lemma {:induction false} VerifyOutcome(fields: seq<FieldDef>, values: seq<nat>, expected: seq<ExpectedField>)
    requires |values| == |fields|
    ensures var k := FirstRefused(fields, values, expected);
            VerifyExpected(fields, values, expected) ==
            if k == |expected| then Ok(true)
            else if FirstNamed(fields, expected[k].name).Some? then Ok(false)
            else Throws(OutOfRange)
  {
    hide FirstNamed;
    if expected != [] && Holds(fields, values, expected[0]) {
      VerifyOutcome(fields, values, expected[1..]);
    }
  }

  /** Where every name means its own field or one of equal value, a full table accepts the values
      themselves and no others. */
  lemma TableAcceptsOnly(fields: seq<FieldDef>, values: seq<nat>, wanted: seq<nat>)
    requires |values| == |wanted| == |fields|
    requires forall i | 0 <= i < |fields| :: Get(fields, values, fields[i].name) == Ok(values[i])
    ensures VerifyExpected(fields, values, Table(fields, wanted)) == Ok(true) <==> values == wanted
  {
    hide VerifyExpected, Get, FirstRefused;
    var t := Table(fields, wanted);
    VerifyOutcome(fields, values, t);
    assert forall i | 0 <= i < |fields| :: Holds(fields, values, t[i]) <==> values[i] == wanted[i];
  }

  /** The size test and `memcmp` of the prefix. */
  predicate FastAccepts(buf: seq<byte>, packet: seq<byte>)
  {
    |packet| <= |buf| && buf[..|packet|] == packet
  }

  /** Deserializing and checking every field; running out of bits counts as a rejection. */
  predicate SlowAccepts(o: WireOrder, buf: seq<byte>, fields: seq<FieldDef>, wanted: seq<nat>)
    requires |wanted| == |fields|
  {
    match Deserialize(o, Stream(Bits(o, buf), 0), fields).result
    case Throws(_) => false
    case Ok(values) =>
      |values| == |fields| && VerifyExpected(fields, values, Table(fields, wanted)) == Ok(true)
  }

  predicate InRange(fields: seq<FieldDef>, values: seq<nat>)
    requires |values| == |fields|
  {
    forall i | 0 <= i < |fields| :: values[i] < Pow2(fields[i].bitWidth)
  }

  /** Every bit of the format is checked: each field is one the bit loop reads and the first of its
      name, or padding without bits. */
  predicate Checkable(fields: seq<FieldDef>)
  {
    forall i | 0 <= i < |fields| ::
      if fields[i].bitWidth == 0 then IsPadding(fields[i].name)
      else Writable(fields[i]) && !Unseen(fields, i)
  }

  /** Field `k` plays no part in the check: its bits are skipped, or its name means an earlier field. */
  predicate Unseen(fields: seq<FieldDef>, k: nat)
    requires k < |fields|
  {
    IsPadding(fields[k].name) || FirstNamed(fields, fields[k].name) != Some(k)
  }

  /** With widths the writer accepts, that is a format without padding and with distinct names. */
  lemma CheckableWritable(fields: seq<FieldDef>)
    requires forall f | f in fields :: Writable(f)
    ensures Checkable(fields) <==> DistinctNames(fields) && forall f | f in fields :: !IsPadding(f.name)
  {
    assert forall i | 0 <= i < |fields| :: fields[i] in fields;
    if DistinctNames(fields) {
      forall i | 0 <= i < |fields|
        ensures FirstNamed(fields, fields[i].name) == Some(i)
      {
        FirstNamedUnique(fields, fields[i].name, i);
      }
    } else {
      var i, j :| 0 <= i < j < |fields| && fields[i].name == fields[j].name;
      assert Unseen(fields, j);
    }
  }

  /** Then every name gives the value of its field. */
  lemma CheckableNames(fields: seq<FieldDef>, values: seq<nat>)
    requires Checkable(fields) && |values| == |fields|
    requires forall i | 0 <= i < |fields| && IsPadding(fields[i].name) :: values[i] == 0
    ensures forall i | 0 <= i < |fields| :: Get(fields, values, fields[i].name) == Ok(values[i])
  {
  }

  /** `packet` is what serializing `values` into a fresh buffer of its size leaves. The buffer may be
      longer than the format: it is when the format does not fill its last byte. */
  ghost predicate IsPacket(o: WireOrder, packet: seq<byte>, fields: seq<FieldDef>, values: seq<nat>)
    requires |values| == |fields|
  {
    Bits(o, packet) == Serialize(o, Fresh(|packet|), fields, values).s.bits
  }

  /** A packet of a format that fits it starts with the format's bits and ends in zeros. */
  lemma PacketBits(o: WireOrder, packet: seq<byte>, fields: seq<FieldDef>, values: seq<nat>)
    requires |values| == |fields| && (forall f | f in fields :: Writable(f))
    requires Total(fields) <= 8 * |packet|
    ensures IsPacket(o, packet, fields, values) <==>
            Bits(o, packet) == FormatBits(o, fields, values) + Zeros(8 * |packet| - Total(fields))
  {
    hide FormatBits, Serialize, Bits, OrAt, Total;
    var s, es := Fresh(|packet|), FormatBits(o, fields, values);
    SerializeOutcome(o, s, fields, values);
    OrIntoFresh(|packet|, es);
  }

  lemma OrIntoFresh(size: nat, es: seq<bool>)
    requires |es| <= 8 * size
    ensures OrAt(Fresh(size).bits, 0, es) == es + Zeros(8 * size - |es|)
  {
    OrIntoZeros(Fresh(size), es);
  }

  /** Equal bits and equal values are the same thing for values in range. */
  lemma SameBitsSameValues(o: WireOrder, bits: seq<bool>, fields: seq<FieldDef>, values: seq<nat>)
    requires |values| == |fields| && Checkable(fields) && InRange(fields, values)
    requires |bits| >= Total(fields)
    ensures Values(o, bits, 0, fields) == values <==> bits[..Total(fields)] == FormatBits(o, fields, values)
  {
    BitsGiveValues(o, bits, 0, fields, values);
  }

  lemma {:induction false} BitsGiveValues(o: WireOrder, bits: seq<bool>, p: nat,
                                          fields: seq<FieldDef>, values: seq<nat>)
    requires |values| == |fields| && p + Total(fields) <= |bits|
    requires forall i | 0 <= i < |fields| && IsPadding(fields[i].name) :: fields[i].bitWidth == 0
    requires forall i | 0 <= i < |fields| :: values[i] < Pow2(fields[i].bitWidth)
    ensures Values(o, bits, p, fields) == values <==>
            bits[p..p + Total(fields)] == FormatBits(o, fields, values)
    decreases |fields|
  {
    hide Encode, Decode, Pow2, Values, FormatBits, Total, IsPadding;
    if fields == [] {
      NoFields(o, bits, p);
    } else {
      var w, rest, vs := fields[0].bitWidth, fields[1..], values[1..];
      FirstFieldSplits(o, bits, p, fields, values);
      BitsGiveValues(o, bits, p + w, rest, vs);
      var head, tail := bits[p..p + w], bits[p + w..p + Total(fields)];
      FieldGivesValue(o, head, values[0]);
      ConcatEqual(head, tail, Encode(o, values[0], w), FormatBits(o, rest, vs));
      ConsEqual(Decode(o, head), Values(o, bits, p + w, rest), values);
    }
  }

  lemma NoFields(o: WireOrder, bits: seq<bool>, p: nat)
    requires p <= |bits|
    ensures Total([]) == 0 && Values(o, bits, p, []) == [] && FormatBits(o, [], []) == []
  {
  }

  lemma FirstFieldSplits(o: WireOrder, bits: seq<bool>, p: nat, fields: seq<FieldDef>, values: seq<nat>)
    requires |values| == |fields| > 0 && p + Total(fields) <= |bits|
    requires IsPadding(fields[0].name) ==> fields[0].bitWidth == 0
    ensures var w, rest := fields[0].bitWidth, fields[1..];
            && Total(fields) == w + Total(rest)
            && bits[p..p + Total(fields)] == bits[p..p + w] + bits[p + w..p + Total(fields)]
            && Values(o, bits, p, fields) == [Decode(o, bits[p..p + w])] + Values(o, bits, p + w, rest)
            && FormatBits(o, fields, values) == Encode(o, values[0], w) + FormatBits(o, rest, values[1..])
  {
    hide Encode, Decode;
    if fields[0].bitWidth == 0 {
      EncodeDecode(o, bits[p..p]);
    }
  }

  lemma FieldGivesValue(o: WireOrder, bs: seq<bool>, v: nat)
    requires v < Pow2(|bs|)
    ensures Decode(o, bs) == v <==> bs == Encode(o, v, |bs|)
  {
    EncodeDecode(o, bs);
    DecodeEncode(o, v, |bs|);
    TruncSmall(v, |bs|);
  }

  lemma ConcatEqual<T>(a: seq<T>, b: seq<T>, c: seq<T>, d: seq<T>)
    requires |a| == |c|
    ensures a + b == c + d <==> a == c && b == d
  {
    if a + b == c + d {
      assert a == (a + b)[..|a|] && c == (c + d)[..|a|];
      assert b == (a + b)[|a|..] && d == (c + d)[|a|..];
    }
  }

  lemma ConsEqual<T>(x: T, xs: seq<T>, ys: seq<T>)
    requires |ys| == 1 + |xs|
    ensures [x] + xs == ys <==> x == ys[0] && xs == ys[1..]
  {
    assert ys == [ys[0]] + ys[1..];
  }

  /** For values in range, checking fields accepts exactly the buffers that start with the bits of
      the format, whole bytes or not. */
  lemma SlowIsPrefix(o: WireOrder, buf: seq<byte>, fields: seq<FieldDef>, values: seq<nat>)
    requires |values| == |fields| && Checkable(fields) && InRange(fields, values)
    ensures SlowAccepts(o, buf, fields, values) <==>
            Total(fields) <= 8 * |buf| && Bits(o, buf)[..Total(fields)] == FormatBits(o, fields, values)
  {
    hide FormatBits, Deserialize, Bits, Values, VerifyExpected, Table, InRange, Checkable, Get;
    var bits := Bits(o, buf);
    DeserializeOutcome(o, Stream(bits, 0), fields);
    CheckableReadable(fields);
    if Total(fields) <= |bits| {
      SameBitsSameValues(o, bits, fields, values);
      CheckedValues(o, bits, fields, values);
    }
  }

  lemma CheckableReadable(fields: seq<FieldDef>)
    requires Checkable(fields)
    ensures forall f | f in fields :: Readable(f)
  {
    forall f | f in fields
      ensures Readable(f)
    {
      var i :| 0 <= i < |fields| && fields[i] == f;
    }
  }

  /** The values read from any bits pass the check exactly when they are the expected ones. */
  lemma CheckedValues(o: WireOrder, bits: seq<bool>, fields: seq<FieldDef>, wanted: seq<nat>)
    requires |wanted| == |fields| && Checkable(fields) && Total(fields) <= |bits|
    ensures VerifyExpected(fields, Values(o, bits, 0, fields), Table(fields, wanted)) == Ok(true) <==>
            Values(o, bits, 0, fields) == wanted
  {
    hide Values, VerifyExpected, Table, Checkable, Get, Total, Decode, IsPadding;
    var values := Values(o, bits, 0, fields);
    forall i | 0 <= i < |fields| && IsPadding(fields[i].name)
      ensures values[i] == 0
    {
      ValuesAt(o, bits, 0, fields, i);
    }
    CheckableNames(fields, values);
    TableAcceptsOnly(fields, values, wanted);
  }

  /** For values in range and a packet that is just the bits of the format, comparing bytes and
      checking fields accept the same buffers. */
  lemma FastIsSlow(o: WireOrder, buf: seq<byte>, packet: seq<byte>, fields: seq<FieldDef>, values: seq<nat>)
    requires |values| == |fields| && Checkable(fields) && InRange(fields, values)
    requires Bits(o, packet) == FormatBits(o, fields, values)
    ensures FastAccepts(buf, packet) <==> SlowAccepts(o, buf, fields, values)
  {
    hide FormatBits, SlowAccepts, Bits, InRange, Checkable;
    SlowIsPrefix(o, buf, fields, values);
    if |packet| <= |buf| {
      BitsSlice(o, buf, 0, |packet|);
      assert buf[0..|packet|] == buf[..|packet|];
      if Bits(o, buf)[..Total(fields)] == Bits(o, packet) {
        BitsInjective(o, buf[..|packet|], packet);
      }
    }
  }

  // ---------------------------------------------------------------- when the two ways agree

  lemma UnseenField(fields: seq<FieldDef>) returns (k: nat)
    requires (forall f | f in fields :: Readable(f)) && !Checkable(fields)
    ensures k < |fields| && Unseen(fields, k) && fields[k].bitWidth > 0
  {
    k :| k < |fields| && !(if fields[k].bitWidth == 0 then IsPadding(fields[k].name)
                           else Writable(fields[k]) && !Unseen(fields, k));
    assert fields[k] in fields;
  }

  /** Values that differ at an unseen field at most pass the same checks. */
  lemma {:induction false} SameVerdict(fields: seq<FieldDef>, vs: seq<nat>, ws: seq<nat>, k: nat,
                                       expected: seq<ExpectedField>)
    requires |vs| == |ws| == |fields| && k < |fields| && Unseen(fields, k)
    requires forall j | 0 <= j < |fields| && (j != k || IsPadding(fields[k].name)) :: vs[j] == ws[j]
    ensures VerifyExpected(fields, vs, expected) == VerifyExpected(fields, ws, expected)
  {
    hide FirstNamed;
    if expected != [] {
      SameVerdict(fields, vs, ws, k, expected[1..]);
    }
  }

  /** Some buffer differs in one given bit only. */
  lemma FlipBit(o: WireOrder, buf: seq<byte>, p: nat) returns (buf': seq<byte>)
    requires p < 8 * |buf|
    ensures |buf'| == |buf| && Bits(o, buf') == Bits(o, buf)[p := !Bits(o, buf)[p]]
  {
    hide Bits, Encode, Decode;
    var bits, i := Bits(o, buf), p / 8;
    var w := bits[8 * i..8 * i + 8][p % 8 := !bits[p]];
    EncodeDecode(o, w);
    Pow2Values();
    buf' := buf[i := Decode(o, w)];
    PutByte(o, buf, i, Decode(o, w));
    assert PutAt(bits, 8 * i, w) == bits[p := !bits[p]];
  }

  /** Flipping the first bit of a field changes the value of no other field. */
  lemma FlippedField(o: WireOrder, bits: seq<bool>, fields: seq<FieldDef>, k: nat, j: nat)
    requires Total(fields) <= |bits| && k < |fields| && j < |fields|
    requires fields[k].bitWidth > 0 && (j != k || IsPadding(fields[k].name))
    ensures Offset(fields, k) + fields[k].bitWidth <= Total(fields)
    ensures var p := Offset(fields, k);
            Values(o, bits[p := !bits[p]], 0, fields)[j] == Values(o, bits, 0, fields)[j]
  {
    hide Decode, Values, Total, Offset;
    ValuesAt(o, bits, 0, fields, k);
    var p := Offset(fields, k);
    var bits' := bits[p := !bits[p]];
    ValuesAt(o, bits, 0, fields, j);
    ValuesAt(o, bits', 0, fields, j);
    if j != k {
      FieldsDisjoint(fields, j, k);
      var q, n := Offset(fields, j), fields[j].bitWidth;
      assert bits'[q..q + n] == bits[q..q + n];
    }
  }

  /** Where a field is unseen, checking fields accepts a second packet beside any it accepts. */
  lemma SecondAccepted(o: WireOrder, packet: seq<byte>, fields: seq<FieldDef>, values: seq<nat>)
    returns (buf: seq<byte>)
    requires |values| == |fields| && !Checkable(fields) && SlowAccepts(o, packet, fields, values)
    ensures |buf| == |packet| && buf != packet && SlowAccepts(o, buf, fields, values)
  {
    hide Deserialize, Bits, Values, VerifyExpected, Table, Total, Offset, Checkable, Unseen;
    var bits := Bits(o, packet);
    DeserializeOutcome(o, Stream(bits, 0), fields);
    var k := UnseenField(fields);
    var p := Offset(fields, k);
    ValuesAt(o, bits, 0, fields, k);
    buf := FlipBit(o, packet, p);
    var bits' := Bits(o, buf);
    DeserializeOutcome(o, Stream(bits', 0), fields);
    forall j | 0 <= j < |fields| && (j != k || IsPadding(fields[k].name))
      ensures Values(o, bits, 0, fields)[j] == Values(o, bits', 0, fields)[j]
    {
      FlippedField(o, bits, fields, k, j);
    }
    SameVerdict(fields, Values(o, bits, 0, fields), Values(o, bits', 0, fields), k, Table(fields, values));
    assert bits'[p] != bits[p];
  }

  /** Where the packet is longer than the format, so it does too: no field covers the bits behind. */
  lemma TailAccepted(o: WireOrder, packet: seq<byte>, fields: seq<FieldDef>, values: seq<nat>)
    returns (buf: seq<byte>)
    requires |values| == |fields| && Total(fields) < 8 * |packet|
    requires SlowAccepts(o, packet, fields, values)
    ensures |buf| == |packet| && buf != packet && SlowAccepts(o, buf, fields, values)
  {
    hide Deserialize, Bits, Values, VerifyExpected, Table, Total;
    var bits, n := Bits(o, packet), Total(fields);
    buf := FlipBit(o, packet, n);
    var bits' := Bits(o, buf);
    DeserializeOutcome(o, Stream(bits, 0), fields);
    DeserializeOutcome(o, Stream(bits', 0), fields);
    assert bits[0..n] == bits'[0..n];
    ValuesLocal(o, bits, bits', 0, fields);
    assert bits'[n] != bits[n];
  }

  /** For any bytes `packet` at all, comparing with them and checking fields accept the same buffers
      exactly when every bit of the format is checked, every expected value fits its field, and
      the packet is the bits of the format, with none behind. Otherwise the packet itself is
      refused by the field checks, or it holds bits that they leave unchecked. */
  lemma FastComparisonExact(o: WireOrder, packet: seq<byte>, fields: seq<FieldDef>, values: seq<nat>)
    requires |values| == |fields|
    ensures (forall buf :: FastAccepts(buf, packet) <==> SlowAccepts(o, buf, fields, values)) <==>
            && Checkable(fields) && InRange(fields, values)
            && Bits(o, packet) == FormatBits(o, fields, values)
  {
    hide SlowAccepts, Checkable, InRange, Bits, FormatBits, Total;
    assert packet[..|packet|] == packet;
    assert FastAccepts(packet, packet);
    if Checkable(fields) && InRange(fields, values) && Bits(o, packet) == FormatBits(o, fields, values) {
      forall buf
        ensures FastAccepts(buf, packet) <==> SlowAccepts(o, buf, fields, values)
      {
        FastIsSlow(o, buf, packet, fields, values);
      }
    } else if SlowAccepts(o, packet, fields, values) {
      var buf := OtherAccepted(o, packet, fields, values);
      assert buf[..|packet|] == buf;
      assert !FastAccepts(buf, packet);
    }
  }

  lemma OtherAccepted(o: WireOrder, packet: seq<byte>, fields: seq<FieldDef>, values: seq<nat>)
    returns (buf: seq<byte>)
    requires |values| == |fields| && SlowAccepts(o, packet, fields, values)
    requires !(&& Checkable(fields) && InRange(fields, values)
               && Bits(o, packet) == FormatBits(o, fields, values))
    ensures |buf| == |packet| && buf != packet && SlowAccepts(o, buf, fields, values)
  {
    hide SlowAccepts, Checkable, InRange, Bits, FormatBits, Total;
    AcceptedFits(o, packet, fields, values);
    assert Bits(o, packet)[..8 * |packet|] == Bits(o, packet);
    if !Checkable(fields) {
      buf := SecondAccepted(o, packet, fields, values);
    } else {
      if !InRange(fields, values) {
        OutOfRangeRejected(o, packet, fields, values);
      }
      SlowIsPrefix(o, packet, fields, values);
      buf := TailAccepted(o, packet, fields, values);
    }
  }

  /** So for a packet that was serialized, the question is only whether the format has no padding
      and distinct names, the values fit, and the format fills the packet to its last bit. */
  lemma PacketComparisonExact(o: WireOrder, packet: seq<byte>, fields: seq<FieldDef>, values: seq<nat>)
    requires |values| == |fields| && IsPacket(o, packet, fields, values)
    requires Serialize(o, Fresh(|packet|), fields, values).result.Ok?
    ensures (forall buf :: FastAccepts(buf, packet) <==> SlowAccepts(o, buf, fields, values)) <==>
            && DistinctNames(fields) && (forall f | f in fields :: !IsPadding(f.name))
            && InRange(fields, values) && 8 * |packet| == Total(fields)
  {
    hide SlowAccepts, FastAccepts, Checkable, InRange, IsPacket, Bits, FormatBits, Serialize, Total, DistinctNames;
    SerializeOutcome(o, Fresh(|packet|), fields, values);
    CheckableWritable(fields);
    PacketBits(o, packet, fields, values);
    if 8 * |packet| == Total(fields) {
      assert FormatBits(o, fields, values) + Zeros(0) == FormatBits(o, fields, values);
    }
    FastComparisonExact(o, packet, fields, values);
  }

  lemma AcceptedFits(o: WireOrder, buf: seq<byte>, fields: seq<FieldDef>, values: seq<nat>)
    requires |values| == |fields| && SlowAccepts(o, buf, fields, values)
    ensures Total(fields) <= 8 * |buf|
  {
    hide Bits, Total, VerifyExpected;
    DeserializeOutcome(o, Stream(Bits(o, buf), 0), fields);
  }

  lemma OutOfRangeRejected(o: WireOrder, buf: seq<byte>, fields: seq<FieldDef>, values: seq<nat>)
    requires |values| == |fields| && Checkable(fields) && !InRange(fields, values)
    ensures !SlowAccepts(o, buf, fields, values)
  {
    hide Deserialize, Values, VerifyExpected, Table, Bits, Pow2, Total, Checkable;
    var bits := Bits(o, buf);
    DeserializeOutcome(o, Stream(bits, 0), fields);
    if Total(fields) <= |bits| {
      CheckedValues(o, bits, fields, values);
      var i :| 0 <= i < |fields| && values[i] >= Pow2(fields[i].bitWidth);
      ValueInRange(o, bits, fields, i);
    }
  }

  lemma ValueInRange(o: WireOrder, bits: seq<bool>, fields: seq<FieldDef>, i: nat)
    requires Total(fields) <= |bits| && i < |fields|
    ensures Values(o, bits, 0, fields)[i] < Pow2(fields[i].bitWidth)
  {
    hide Values, Pow2, Decode, Encode, Total, Offset, IsPadding;
    ValuesAt(o, bits, 0, fields, i);
    var p := Offset(fields, i);
    EncodeDecode(o, bits[p..p + fields[i].bitWidth]);
  }

  // ---------------------------------------------------------------- where they part

  /** An 8-bit field expected to be 256: the packet is one zero byte, which comparing bytes accepts
      and checking the field rejects. */
  lemma WideValueParts()
    ensures var fields, values := [FieldDef("v", 8)], [256];
            && IsPacket(BigEndian, [0], fields, values) && Checkable(fields) && Total(fields) == 8
            && FastAccepts([0], [0]) && !SlowAccepts(BigEndian, [0], fields, values)
  {
    hide Bits, Serialize, Encode, SlowAccepts, InRange, FormatBits, Pow2;
    var fields, values := [FieldDef("v", 8)], [256];
    OneField(BigEndian, fields[0], 256);
    WidePacketBits();
    SerializeOutcome(BigEndian, Fresh(1), fields, values);
    OrIntoZeros(Fresh(1), Encode(BigEndian, 256, 8));
    assert !InRange(fields, values) by { WideValue(fields, values); }
    OutOfRangeRejected(BigEndian, [0], fields, values);
    assert [0][..1] == [0];
  }

  lemma WideValue(fields: seq<FieldDef>, values: seq<nat>)
    requires fields == [FieldDef("v", 8)] && values == [256]
    ensures !InRange(fields, values)
  {
    Pow2Values();
    assert values[0] >= Pow2(fields[0].bitWidth);
  }

  lemma WidePacketBits()
    ensures Encode(BigEndian, 256, 8) == Bits(BigEndian, [0])
  {
    hide Bits, Encode, Decode, Shl, Shr, Trunc, Pow2;
    DecodeEncode(BigEndian, 256, 8);
    Pow2Values();
    ShlOne(8);
    ShlPlus(1, 0, 8);
    EncodeDecode(BigEndian, Encode(BigEndian, 256, 8));
    BitsOfByte(BigEndian, 0);
  }

  /** Four padding bits before a 4-bit field: checking fields accepts them set, comparing bytes
      does not, although both values are in range. */
  lemma PaddingParts()
    ensures var fields, values := [FieldDef("_pad", 4), FieldDef("v", 4)], [0, 5];
            && IsPacket(BigEndian, [0x05], fields, values) && InRange(fields, values) && Total(fields) == 8
            && SlowAccepts(BigEndian, [0xF5], fields, values) && !FastAccepts([0xF5], [0x05])
  {
    hide Bits, Serialize, Deserialize, Encode, Decode, VerifyExpected, Table, Values, FormatBits;
    var fields, values := [FieldDef("_pad", 4), FieldDef("v", 4)], [0, 5];
    TwoFields(BigEndian, fields, values);
    assert Pow2(4) == 16;
    PaddedPacketBits(fields, values);
    SerializeOutcome(BigEndian, Fresh(1), fields, values);
    OrIntoZeros(Fresh(1), FormatBits(BigEndian, fields, values));
    PaddedValues(fields);
    TableAcceptsOnly(fields, [0, 5], values);
    DeserializeOutcome(BigEndian, Stream(Bits(BigEndian, [0xF5]), 0), fields);
    assert [0xF5][..1] == [0xF5];
  }

  /** One 4-bit field in a one-byte packet: checking it ignores the other four bits, comparing bytes
      does not, although the format is checkable and the value is in range. */
  lemma HalfByteParts()
    ensures var fields, values := [FieldDef("v", 4)], [5];
            && IsPacket(BigEndian, [0x50], fields, values) && Checkable(fields) && InRange(fields, values)
            && SlowAccepts(BigEndian, [0x5F], fields, values) && !FastAccepts([0x5F], [0x50])
  {
    hide Bits, Serialize, Encode, Decode, FormatBits, SlowAccepts;
    var fields, values := [FieldDef("v", 4)], [5];
    var five := Encode(BigEndian, 5, 4);
    OneField(BigEndian, fields[0], 5);
    assert Pow2(4) == 16;
    HalfByteBits(0x50);
    HalfByteBits(0x5F);
    LowNibbleZero();
    PacketBits(BigEndian, [0x50], fields, values);
    SlowIsPrefix(BigEndian, [0x5F], fields, values);
    assert [0x5F][..1] == [0x5F];
  }

  lemma HalfByteBits(b: byte)
    requires b / 16 == 5
    ensures Bits(BigEndian, [b])[..4] == Encode(BigEndian, 5, 4)
  {
    hide Bits, Encode, Decode;
    var bits := Bits(BigEndian, [b]);
    BitsOfByte(BigEndian, b);
    FieldOfNumber(BigEndian, bits, 0, 4);
    assert Shr(b, 4) == 5 && Trunc(5, 4) == 5;
    EncodeDecode(BigEndian, bits[0..4]);
    assert bits[0..4] == bits[..4];
  }

  lemma LowNibbleZero()
    ensures Bits(BigEndian, [0x50]) == Bits(BigEndian, [0x50])[..4] + Zeros(4)
  {
    hide Bits, Encode, Decode;
    var bits := Bits(BigEndian, [0x50]);
    BitsOfByte(BigEndian, 0x50);
    FieldOfNumber(BigEndian, bits, 4, 4);
    assert Shr(0x50, 0) == 0x50 && Trunc(0x50, 4) == 0;
    EncodeDecode(BigEndian, bits[4..8]);
    EncodeZero(BigEndian, 4);
    assert bits == bits[..4] + bits[4..8];
  }

  lemma PaddedPacketBits(fields: seq<FieldDef>, values: seq<nat>)
    requires fields == [FieldDef("_pad", 4), FieldDef("v", 4)] && values == [0, 5]
    ensures FormatBits(BigEndian, fields, values) == Bits(BigEndian, [0x05])
  {
    hide Bits, Encode, Decode, FormatBits, Total;
    TwoFields(BigEndian, fields, values);
    var a, b := Encode(BigEndian, 0, 4), Encode(BigEndian, 5, 4);
    DecodeConcat(BigEndian, a, b);
    DecodeEncode(BigEndian, 0, 4);
    DecodeEncode(BigEndian, 5, 4);
    EncodeDecode(BigEndian, a + b);
    BitsOfByte(BigEndian, 5);
  }

  lemma PaddedValues(fields: seq<FieldDef>)
    requires fields == [FieldDef("_pad", 4), FieldDef("v", 4)]
    ensures Total(fields) == 8 && Values(BigEndian, Bits(BigEndian, [0xF5]), 0, fields) == [0, 5]
  {
    hide Bits, Encode, Decode, Values, Total, Offset, FormatBits, Trunc, Shr, Pow2;
    LowNibble();
    TwoFields(BigEndian, fields, [0, 0]);
    var bits := Bits(BigEndian, [0xF5]);
    BitsOfByte(BigEndian, 0xF5);
    FieldOfNumber(BigEndian, bits, 4, 4);
    ValuesAt(BigEndian, bits, 0, fields, 0);
    ValuesAt(BigEndian, bits, 0, fields, 1);
  }

  lemma LowNibble()
    ensures Trunc(Shr(0xF5, 0), 4) == 5
  {
  }

  lemma OneField(o: WireOrder, f: FieldDef, v: nat)
    ensures Total([f]) == f.bitWidth
    ensures FormatBits(o, [f], [v]) == Encode(o, v, f.bitWidth)
  {
    hide Encode;
    assert [f][1..] == [] && [v][1..] == [];
    assert FormatBits(o, [], []) == [];
    assert Encode(o, v, f.bitWidth) + [] == Encode(o, v, f.bitWidth);
  }

  lemma TwoFields(o: WireOrder, fields: seq<FieldDef>, values: seq<nat>)
    requires |fields| == |values| == 2
    ensures Offset(fields, 1) == fields[0].bitWidth
    ensures Total(fields) == fields[0].bitWidth + fields[1].bitWidth
    ensures FormatBits(o, fields, values) ==
            Encode(o, values[0], fields[0].bitWidth) + Encode(o, values[1], fields[1].bitWidth)
  {
    hide Encode;
    OneField(o, fields[0], values[0]);
    OneField(o, fields[1], values[1]);
    assert fields[..1] == [fields[0]];
    assert fields[1..] == [fields[1]] && values[1..] == [values[1]];
  }
}
