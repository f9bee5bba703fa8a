/** The run-time bit writer. */
module BitWriters {
  import opened Words
  import opened Outcomes
  import opened Streams
  import opened Numbers
  import opened Formats
  import opened FormatStreams

  class BitWriter {
    const order: WireOrder
    const buffer: array<byte>
    var bitOffset: nat

    ghost predicate Valid()
      reads this
    {
      bitOffset <= 8 * buffer.Length
    }

    ghost function View(): (s: Stream)
      reads this, buffer
      ensures Valid() ==> s.Valid()
    {
      Stream(Bits(order, buffer[..]), bitOffset)
    }

    /** Zero-fills the buffer: the zero tail every later write relies on starts here. */
    constructor (order: WireOrder, buffer: array<byte>)
      modifies buffer
      ensures Valid() && this.order == order && this.buffer == buffer
      ensures View() == Fresh(buffer.Length) && View().ZeroTail()
    {
      this.order := order;
      this.buffer := buffer;
      bitOffset := 0;
      new;
      for i := 0 to buffer.Length
        invariant this.order == order && this.buffer == buffer && bitOffset == 0
        invariant forall j | 0 <= j < i :: buffer[j] == 0
      {
        buffer[i] := 0;
      }
      ZeroBuffer(order, buffer[..]);
    }

    function BitPosition(): (p: nat)
      reads this
    {
      bitOffset
    }

    function BytesWritten(): (b: nat)
      reads this
      ensures 8 * (b - 1) < bitOffset <= 8 * b
    {
      (bitOffset + 7) / 8
    }

    predicate HasSpace(n: nat)
      reads this, buffer
      ensures HasSpace(n) == View().Has(n)
    {
      bitOffset + n <= buffer.Length * 8
    }

    method WriteBitsRuntime(n: nat, value: uint64) returns (r: Result<()>)
      requires Valid()
      modifies this, buffer
      ensures Valid()
      ensures Step(View(), r) == WriteBits(order, old(View()), n, value)
    {
      hide Bits, Pow2, OrAt, Encode;
      if n == 0 || n > 64 {
        return Throws(InvalidArgument);
      }
      if !HasSpace(n) {
        return Throws(OutOfRange);
      }
      match order {
        case BigEndian => DepositBigEndian(n, value);
        case LittleEndian => DepositLittleEndian(n, value);
      }
      return Ok(());
    }

    /** The big-endian instance of the loop of `write_bits_runtime`. */
    method DepositBigEndian(n: nat, value: uint64)
      requires order.BigEndian? && View().Has(n)
      modifies this`bitOffset, buffer
      ensures bitOffset == old(bitOffset) + n
      ensures Bits(order, buffer[..]) ==
              OrAt(old(Bits(order, buffer[..])), old(bitOffset), Encode(order, value, n))
    {
      hide BitOr, BitAnd, Shl, Bit, Bits, Pow2, OrAt, Encode;
      ghost var bits, p, es := Bits(order, buffer[..]), bitOffset, Encode(order, value, n);
      OrNothing(bits, p, es);
      for i := 0 to n
        invariant bitOffset == p + i
        invariant Bits(order, buffer[..]) == OrAt(bits, p, es[..i])
      {
        DepositStep(order, buffer[..], bits, p, value, n, i);
        var byteIdx := bitOffset / 8;
        var bitIdx := 7 - bitOffset % 8;
        if BitAnd(value, Shl(1, n - 1 - i)) != 0 {
          buffer[byteIdx] := BitOr(buffer[byteIdx], Shl(1, bitIdx));
        }
        bitOffset := bitOffset + 1;
      }
      assert es[..n] == es;
    }

    /** The little-endian instance of the loop of `write_bits_runtime`. */
    method DepositLittleEndian(n: nat, value: uint64)
      requires order.LittleEndian? && View().Has(n)
      modifies this`bitOffset, buffer
      ensures bitOffset == old(bitOffset) + n
      ensures Bits(order, buffer[..]) ==
              OrAt(old(Bits(order, buffer[..])), old(bitOffset), Encode(order, value, n))
    {
      hide BitOr, BitAnd, Shl, Bit, Bits, Pow2, OrAt, Encode;
      ghost var bits, p, es := Bits(order, buffer[..]), bitOffset, Encode(order, value, n);
      OrNothing(bits, p, es);
      for i := 0 to n
        invariant bitOffset == p + i
        invariant Bits(order, buffer[..]) == OrAt(bits, p, es[..i])
      {
        DepositStep(order, buffer[..], bits, p, value, n, i);
        var byteIdx := bitOffset / 8;
        var bitIdx := bitOffset % 8;
        if BitAnd(value, Shl(1, i)) != 0 {
          buffer[byteIdx] := BitOr(buffer[byteIdx], Shl(1, bitIdx));
        }
        bitOffset := bitOffset + 1;
      }
      assert es[..n] == es;
    }

    method Serialize(format: PacketFormat, values: seq<uint64>) returns (r: Result<()>)
      requires Valid() && |values| == |format.fields|
      modifies this, buffer
      ensures Valid()
      ensures Step(View(), r) == FormatStreams.Serialize(order, old(View()), format.fields, values)
    {
      hide Bits, Pow2, WriteBits;
      var total := format.TotalBits();
      if !HasSpace(total) {
        return Throws(OutOfRange);
      }
      ghost var s := View();
      for idx := 0 to |values|
        invariant Valid()
        invariant WriteFields(order, s, format.fields, values) ==
                  WriteFields(order, View(), format.fields[idx..], values[idx..])
      {
        r := WriteBitsRuntime(format.fields[idx].bitWidth, values[idx]);
        if r.Throws? {
          return r;
        }
      }
      return Ok(());
    }

    method WriteAligned(size: nat, value: uint64) returns (r: Result<()>)
      requires Valid()
      requires size in {1, 2, 4, 8} && value < Pow2(8 * size)
      modifies this, buffer
      ensures Valid()
      ensures Step(View(), r) == Streams.WriteAligned(order, old(View()), size, value)
      ensures old(bitOffset % 8 == 0 && View().ZeroTail()) ==>
                Step(View(), r) == Streams.WriteBits(order, old(View()), 8 * size, value)
    {
      hide Bits, Pow2, PutAt, OrAt, Encode, Shr, BitAnd, Streams.WriteBits;
      AlignedIsBitwise(order, View(), size, value);
      if bitOffset % 8 != 0 {
        return Throws(LogicError);
      }
      if !HasSpace(8 * size) {
        return Throws(OutOfRange);
      }
      var byteIdx := bitOffset / 8;
      ghost var bits, p, es := Bits(order, buffer[..]), bitOffset, Encode(order, value, 8 * size);
      PutNothing(bits, p, es);
      match order {
        case BigEndian =>
          for i := 0 to size
            invariant bitOffset == p && Bits(order, buffer[..]) == PutAt(bits, p, es[..8 * i])
          {
            StoreStep(order, buffer[..], bits, byteIdx, value, size, i);
            buffer[byteIdx + i] := BitAnd(Shr(value, (size - 1 - i) * 8), 0xFF);
          }
        case LittleEndian =>
          for i := 0 to size
            invariant bitOffset == p && Bits(order, buffer[..]) == PutAt(bits, p, es[..8 * i])
          {
            StoreStep(order, buffer[..], bits, byteIdx, value, size, i);
            buffer[byteIdx + i] := BitAnd(Shr(value, i * 8), 0xFF);
          }
      }
      assert es[..8 * size] == es;
      bitOffset := bitOffset + 8 * size;
      return Ok(());
    }

    method SkipBits(n: nat) returns (r: Result<()>)
      requires Valid()
      modifies this
      ensures Valid()
      ensures Step(View(), r) == Skip(old(View()), n)
    {
      hide Bits;
      if !HasSpace(n) {
        return Throws(OutOfRange);
      }
      bitOffset := bitOffset + n;
      return Ok(());
    }

    method AlignToByte()
      requires Valid()
      modifies this
      ensures Valid()
      ensures View() == Align(old(View()))
    {
      hide Bits;
      if bitOffset % 8 != 0 {
        bitOffset := (bitOffset / 8 + 1) * 8;
      }
    }

    method SpanOfField(format: PacketFormat, name: string) returns (span: Span)
      ensures span == FormatStreams.SpanOfField(format.fields, name, buffer.Length)
    {
      var bitOffset := format.BitOffsetOf(name);
      var bitWidth := format.FieldWidth(name);
      if bitOffset.None? || bitWidth.None? {
        return NoSpan;
      }
      if bitOffset.value % 8 != 0 || bitWidth.value % 8 != 0 {
        return NoSpan;
      }
      var byteOffset := bitOffset.value / 8;
      var byteLen := bitWidth.value / 8;
      if byteOffset + byteLen > buffer.Length {
        return NoSpan;
      }
      return Span(byteOffset, byteLen);
    }
  }

  // ---------------------------------------------------------------- steps of the loops

  lemma ZeroBuffer(o: WireOrder, buf: seq<byte>)
    requires forall i | 0 <= i < |buf| :: buf[i] == 0
    ensures Bits(o, buf) == Zeros(8 * |buf|)
  {
    ZeroWord();
  }

  lemma OrNothing(bits: seq<bool>, p: nat, es: seq<bool>)
    requires p <= |bits|
    ensures OrAt(bits, p, es[..0]) == bits
  {
  }

  lemma OrNext(bits: seq<bool>, p: nat, es: seq<bool>, i: nat)
    requires i < |es| && p + |es| <= |bits|
    ensures OrAt(bits, p, es[..i + 1]) ==
            if es[i] then OrAt(bits, p, es[..i])[p + i := true] else OrAt(bits, p, es[..i])
  {
  }

  /** One turn of the writing loop: the mask test on the value picks the stream bit, and or-ing
      the byte mask deposits it. */
  lemma DepositStep(o: WireOrder, buf: seq<byte>, bits: seq<bool>, p: nat, v: nat, n: nat, i: nat)
    requires i < n && p + n <= |bits| == 8 * |buf|
    requires Bits(o, buf) == OrAt(bits, p, Encode(o, v, n)[..i])
    ensures var j, b := (p + i) / 8, BitOr(buf[(p + i) / 8], Shl(1, BitIndex(o, p + i)));
            && b < 256
            && OrAt(bits, p, Encode(o, v, n)[..i + 1]) ==
               if BitAnd(v, Shl(1, Place(o, n, i))) != 0 then Bits(o, buf[j := b]) else Bits(o, buf)
  {
    hide BitOr, BitAnd, Shl, Bit, Bits, OrAt, Encode;
    EncodeAt(o, v, n);
    AndMask(v, Place(o, n, i));
    SetBit(o, buf, p + i);
    OrNext(bits, p, Encode(o, v, n), i);
  }

  lemma PutNothing(bits: seq<bool>, p: nat, es: seq<bool>)
    requires p <= |bits|
    ensures PutAt(bits, p, es[..0]) == bits
  {
  }

  lemma PutNext(bits: seq<bool>, p: nat, es: seq<bool>, i: nat, k: nat)
    requires i + k <= |es| && p + |es| <= |bits|
    ensures PutAt(PutAt(bits, p, es[..i]), p + i, es[i..i + k]) == PutAt(bits, p, es[..i + k])
  {
  }

  /** Byte `i` of an aligned store carries stream bits `8i` to `8i + 7` of the value. */
  lemma StoredByte(o: WireOrder, v: nat, size: nat, i: nat)
    requires i < size
    ensures var b := BitAnd(Shr(v, (if o.BigEndian? then size - 1 - i else i) * 8), 0xFF);
            b < 256 && Encode(o, b, 8) == Encode(o, v, 8 * size)[8 * i..8 * i + 8]
  {
    hide Bit, Shr, BitAnd, Encode;
    var shift := (if o.BigEndian? then size - 1 - i else i) * 8;
    var b := BitAnd(Shr(v, shift), 0xFF);
    LowByte(Shr(v, shift));
    EncodeAt(o, b, 8);
    EncodeAt(o, v, 8 * size);
    forall k: nat | k < 8
      ensures Encode(o, b, 8)[k] == Encode(o, v, 8 * size)[8 * i + k]
    {
      BitOfShr(v, shift, Place(o, 8, k));
      assert shift + Place(o, 8, k) == Place(o, 8 * size, 8 * i + k);
    }
  }

  lemma StoreStep(o: WireOrder, buf: seq<byte>, bits: seq<bool>, j: nat, v: nat, size: nat, i: nat)
    requires i < size && 8 * (j + size) <= |bits| == 8 * |buf|
    requires Bits(o, buf) == PutAt(bits, 8 * j, Encode(o, v, 8 * size)[..8 * i])
    ensures var b := BitAnd(Shr(v, (if o.BigEndian? then size - 1 - i else i) * 8), 0xFF);
            && b < 256
            && Bits(o, buf[j + i := b]) == PutAt(bits, 8 * j, Encode(o, v, 8 * size)[..8 * (i + 1)])
  {
    hide Bits, Shr, BitAnd, Encode, PutAt;
    var b := BitAnd(Shr(v, (if o.BigEndian? then size - 1 - i else i) * 8), 0xFF);
    StoredByte(o, v, size, i);
    PutByte(o, buf, j + i, b);
    PutNext(bits, 8 * j, Encode(o, v, 8 * size), 8 * i, 8);
  }
}
