/** The run-time bit reader. */
module BitReaders {
  import opened Words
  import opened Outcomes
  import opened Streams
  import opened Numbers
  import opened Formats
  import opened FormatStreams
  import opened FormatLaws

  datatype ParsedPacket = ParsedPacket(format: PacketFormat, values: seq<uint64>) {

    predicate Valid() {
      |values| == |format.fields|
    }

    method GetByName(name: string) returns (r: Result<uint64>)
      requires Valid()
      ensures r == Get(format.fields, values, name)
    {
      var idx := format.FieldIndex(name);
      if idx.None? {
        return Throws(OutOfRange);
      }
      return Ok(values[idx.value]);
    }
  }

  class BitReader {
    const order: WireOrder
    const buffer: array<byte>
    var bitOffset: nat

    ghost predicate Valid()
      reads this
    {
      bitOffset <= 8 * buffer.Length
    }

    ghost function View(): (s: Stream)
      reads this, buffer
      ensures Valid() ==> s.Valid()
    {
      Stream(Bits(order, buffer[..]), bitOffset)
    }

    constructor (order: WireOrder, buffer: array<byte>)
      ensures Valid() && this.order == order && this.buffer == buffer
      ensures View() == Stream(Bits(order, buffer[..]), 0)
    {
      this.order := order;
      this.buffer := buffer;
      bitOffset := 0;
    }

    /** A reader over the memory of an integer variable. */
    constructor OfInteger(order: WireOrder, value: nat, size: nat)
      ensures Valid() && this.order == order && fresh(buffer)
      ensures buffer[..] == HostBytes(value, size)
      ensures View() == Stream(Bits(order, buffer[..]), 0)
    {
      var bytes := HostBytes(value, size);
      this.order := order;
      this.buffer := new byte[size]((i: nat) requires i < size => bytes[i]);
      bitOffset := 0;
    }

    method Reset()
      modifies this
      ensures Valid() && View() == Stream(old(View()).bits, 0)
    {
      bitOffset := 0;
    }

    function BitPosition(): (p: nat)
      reads this
    {
      bitOffset
    }

    function BytePosition(): (b: nat)
      reads this
      ensures 8 * b <= bitOffset < 8 * b + 8
    {
      bitOffset / 8
    }

    predicate HasBits(n: nat)
      reads this, buffer
      ensures HasBits(n) == View().Has(n)
    {
      bitOffset + n <= buffer.Length * 8
    }

    method ReadBitsRuntime(n: nat) returns (r: Result<uint64>)
      requires Valid()
      modifies this
      ensures Valid()
      ensures Step(View(), r) == ReadBits(order, old(View()), n)
    {
      if n == 0 || n > 64 {
        return Throws(InvalidArgument);
      }
      if !HasBits(n) {
        return Throws(OutOfRange);
      }
      hide Bits, Assembled, Decode, Pow2;
      ghost var w := View().Window(n);
      AssembledIsDecode(order, w);
      var value;
      match order {
        case BigEndian => value := AssembleBigEndian(n, w);
        case LittleEndian => value := AssembleLittleEndian(n, w);
      }
      return Ok(value);
    }

    /** The big-endian instance of the loop of `read_bits_runtime`. */
    method AssembleBigEndian(n: nat, ghost w: seq<bool>) returns (value: nat)
      requires order.BigEndian? && View().Has(n) && w == View().Window(n)
      modifies this`bitOffset
      ensures bitOffset == old(bitOffset) + n && value == Assembled(order, w, n)
    {
      hide BitOr, BitAnd, Shl, Bit, Bits;
      value := 0;
      for i := 0 to n
        invariant bitOffset == old(bitOffset) + i && value == Assembled(order, w, i)
      {
        var byteIdx := bitOffset / 8;
        var bitIdx := 7 - bitOffset % 8;
        TestBit(order, buffer[..], bitOffset);
        if BitAnd(buffer[byteIdx], Shl(1, bitIdx)) != 0 {
          value := BitOr(value, Shl(1, n - 1 - i));
        }
        bitOffset := bitOffset + 1;
      }
    }

    /** The little-endian instance of the loop of `read_bits_runtime`. */
    method AssembleLittleEndian(n: nat, ghost w: seq<bool>) returns (value: nat)
      requires order.LittleEndian? && View().Has(n) && w == View().Window(n)
      modifies this`bitOffset
      ensures bitOffset == old(bitOffset) + n && value == Assembled(order, w, n)
    {
      hide BitOr, BitAnd, Shl, Bit, Bits;
      value := 0;
      for i := 0 to n
        invariant bitOffset == old(bitOffset) + i && value == Assembled(order, w, i)
      {
        var byteIdx := bitOffset / 8;
        var bitIdx := bitOffset % 8;
        TestBit(order, buffer[..], bitOffset);
        if BitAnd(buffer[byteIdx], Shl(1, bitIdx)) != 0 {
          value := BitOr(value, Shl(1, i));
        }
        bitOffset := bitOffset + 1;
      }
    }

    method SkipBits(n: nat) returns (r: Result<()>)
      requires Valid()
      modifies this
      ensures Valid()
      ensures Step(View(), r) == Skip(old(View()), n)
    {
      hide Bits;
      if !HasBits(n) {
        return Throws(OutOfRange);
      }
      bitOffset := bitOffset + n;
      return Ok(());
    }

    method AlignToByte()
      requires Valid()
      modifies this
      ensures Valid()
      ensures View() == Align(old(View()))
    {
      hide Bits;
      if bitOffset % 8 != 0 {
        bitOffset := (bitOffset / 8 + 1) * 8;
      }
    }

    /** Seeks from the start of the buffer; a width over 64 is refused only after the seek. */
    method ReadField(format: PacketFormat, name: string) returns (r: Result<uint64>)
      requires Valid()
      modifies this
      ensures Valid()
      ensures Step(View(), r) == ReadNamed(order, old(View()), format.fields, name)
    {
      hide Bits, Decode, Pow2;
      var offset := format.BitOffsetOf(name);
      var width := format.FieldWidth(name);
      if offset.None? || width.None? || width.value == 0 {
        return Throws(OutOfRange);
      }
      if !HasBits(offset.value + width.value) {
        return Throws(OutOfRange);
      }
      bitOffset := offset.value;
      r := ReadBitsRuntime(width.value);
    }

    /** One field of `deserialize` and `deserialize_into`: padding is skipped and reads as 0. */
    method ReadOrSkip(field: FieldDef) returns (r: Result<uint64>)
      requires Valid()
      modifies this
      ensures Valid()
      ensures Step(View(), r) == FormatStreams.ReadField(order, old(View()), field)
    {
      hide Bits, Decode, Pow2;
      if IsPadding(field.name) {
        var skipped := SkipBits(field.bitWidth);
        if skipped.Throws? {
          return Throws(skipped.error);
        }
        return Ok(0);
      }
      r := ReadBitsRuntime(field.bitWidth);
    }

    method Deserialize(format: PacketFormat) returns (r: Result<ParsedPacket>)
      requires Valid()
      modifies this
      ensures Valid()
      ensures var step := FormatStreams.Deserialize(order, old(View()), format.fields);
              && View() == step.s
              && match step.result
                 case Ok(values) => r.Ok? && r.value.format == format && r.value.values == values
                 case Throws(e) => r == Throws(e)
    {
      hide Bits, FormatStreams.ReadField, ReadFields, Pow2;
      var total := format.TotalBits();
      if !HasBits(total) {
        return Throws(OutOfRange);
      }
      ghost var s := View();
      var values: seq<uint64> := [];
      for i := 0 to |format.fields|
        invariant Valid() && |values| == i
        invariant ReadFields(order, s, format.fields, []) ==
                  ReadFields(order, View(), format.fields[i..], values)
      {
        ReadFieldsNext(order, View(), format.fields, i, values);
        var value := ReadOrSkip(format.fields[i]);
        if value.Throws? {
          return Throws(value.error);
        }
        values := values + [value.value];
      }
      ReadFieldsNext(order, View(), format.fields, |format.fields|, values);
      return Ok(ParsedPacket(format, values));
    }

    method VerifyExpected(parsed: ParsedPacket, expected: seq<ExpectedField>) returns (r: Result<bool>)
      requires parsed.Valid()
      ensures r == FormatStreams.VerifyExpected(parsed.format.fields, parsed.values, expected)
    {
      for i := 0 to |expected|
        invariant FormatStreams.VerifyExpected(parsed.format.fields, parsed.values, expected) ==
                  FormatStreams.VerifyExpected(parsed.format.fields, parsed.values, expected[i..])
      {
        var value := parsed.GetByName(expected[i].name);
        if value.Throws? {
          return Throws(value.error);
        }
        if value.value != expected[i].value {
          return Ok(false);
        }
      }
      return Ok(true);
    }

    /** `read_bits_runtime` into variables of the given types: each output holds its value as
        cast to its type, and outputs after the first failing field are left as they were. */
    method DeserializeInto(format: PacketFormat, outputs: array<nat>, targets: seq<Target>)
      returns (r: Result<()>)
      requires Valid() && outputs.Length == |targets| == |format.fields|
      modifies this, outputs
      ensures Valid()
      ensures var s := old(View());
              if !s.Has(Total(format.fields)) then
                View() == s && r == Throws(OutOfRange) && outputs[..] == old(outputs[..])
              else
                var run := ReadFields(order, s, format.fields, []);
                && View() == run.s
                && r == (if run.error.None? then Ok(()) else Throws(run.error.value))
                && |run.values| <= outputs.Length
                && outputs[..] == CastAll(run.values, targets) + old(outputs[..])[|run.values|..]
      ensures var s, n := old(View()), GoodReads(format.fields);
              s.Has(Total(format.fields)) ==>
                && (r.Ok? <==> n == |format.fields|)
                && AllAssigned(order, s, format.fields, targets, outputs[..], n)
                && outputs[n..] == old(outputs[n..])
    {
      hide Bits, FormatStreams.ReadField, ReadFields, Pow2, Cast, CastAll, AllAssigned, GoodReads, Values;
      var total := format.TotalBits();
      if !HasBits(total) {
        return Throws(OutOfRange);
      }
      ghost var s, before := View(), outputs[..];
      CastAllAssigns(order, s, format.fields, targets, before);
      ReadFieldsRun(order, s, format.fields);
      ghost var values: seq<uint64> := [];
      assert CastAll(values, targets) == [];
      for idx := 0 to |format.fields|
        invariant Valid() && |values| == idx
        invariant ReadFields(order, s, format.fields, []) ==
                  ReadFields(order, View(), format.fields[idx..], values)
        invariant outputs[..] == CastAll(values, targets) + before[idx..]
      {
        ReadFieldsNext(order, View(), format.fields, idx, values);
        var value := ReadOrSkip(format.fields[idx]);
        if value.Throws? {
          return Throws(value.error);
        }
        CastAllNext(values, value.value, targets);
        StoreNext(CastAll(values, targets), before, Cast(value.value, targets[idx]));
        outputs[idx] := Cast(value.value, targets[idx]);
        values := values + [value.value];
      }
      ReadFieldsNext(order, View(), format.fields, |format.fields|, values);
      return Ok(());
    }

    method ReadAligned(size: nat) returns (r: Result<uint64>)
      requires Valid()
      requires size in {1, 2, 4, 8}
      requires order.LittleEndian? ==> size <= 4
      modifies this
      ensures Valid()
      ensures Step(View(), r) == Streams.ReadAligned(order, old(View()), size)
      ensures old(bitOffset) % 8 == 0 ==> Step(View(), r) == ReadBits(order, old(View()), 8 * size)
    {
      hide Bits, Decode, Pow2, BufferNumber;
      AlignedIsBitwise(order, View(), size, 0);
      if bitOffset % 8 != 0 {
        return Throws(LogicError);
      }
      if !HasBits(8 * size) {
        return Throws(OutOfRange);
      }
      var byteIdx := bitOffset / 8;
      AlignedValue(order, buffer[..], byteIdx, size);
      var value;
      match order {
        case BigEndian => value := JoinBigEndian(byteIdx, size);
        case LittleEndian => value := JoinLittleEndian(byteIdx, size);
      }
      bitOffset := bitOffset + 8 * size;
      return Ok(value);
    }

    /** The big-endian loop of `read_aligned`, with the cast to the result type. */
    method JoinBigEndian(byteIdx: nat, size: nat) returns (value: nat)
      requires order.BigEndian? && byteIdx + size <= buffer.Length
      ensures value == BufferNumber(order, buffer[byteIdx..byteIdx + size])
    {
      hide BitOr, Shl, Trunc;
      value := 0;
      for i := 0 to size
        invariant value == BufferNumber(order, buffer[byteIdx..byteIdx + i])
      {
        JoinNext(order, buffer[..], byteIdx, i, size);
        value := Trunc(BitOr(Shl(value, 8), buffer[byteIdx + i]), 8 * size);
      }
    }

    /** The little-endian loop of `read_aligned`, with the cast of each shifted byte. */
    method JoinLittleEndian(byteIdx: nat, size: nat) returns (value: nat)
      requires order.LittleEndian? && byteIdx + size <= buffer.Length
      ensures value == BufferNumber(order, buffer[byteIdx..byteIdx + size])
    {
      hide BitOr, Shl, Trunc;
      value := 0;
      for i := 0 to size
        invariant value == BufferNumber(order, buffer[byteIdx..byteIdx + i])
      {
        JoinNext(order, buffer[..], byteIdx, i, size);
        value := BitOr(value, Trunc(Shl(buffer[byteIdx + i], i * 8), 8 * size));
      }
    }

    method SpanOfField(format: PacketFormat, name: string) returns (span: Span)
      ensures span == FormatStreams.SpanOfField(format.fields, name, buffer.Length)
    {
      var bitOffset := format.BitOffsetOf(name);
      var bitWidth := format.FieldWidth(name);
      if bitOffset.None? || bitWidth.None? {
        return NoSpan;
      }
      if bitOffset.value % 8 != 0 || bitWidth.value % 8 != 0 {
        return NoSpan;
      }
      var byteOffset := bitOffset.value / 8;
      var byteLen := bitWidth.value / 8;
      if byteOffset + byteLen > buffer.Length {
        return NoSpan;
      }
      return Span(byteOffset, byteLen);
    }
  }
}
