/** The compile-time bit reader, which owns a copy of its buffer. */
module ConstexprBitReaders {
  import opened Words
  import opened Outcomes
  import opened Streams
  import opened Formats
  import opened ConstexprStreams

  class ConstexprBitReader {
    const order: WireOrder
    const buffer: seq<byte>
    var bitOffset: nat

    ghost predicate Valid()
      reads this
    {
      bitOffset <= 8 * |buffer|
    }

    ghost function View(): (s: Stream)
      reads this
      ensures Valid() ==> s.Valid()
    {
      Stream(Bits(order, buffer), bitOffset)
    }

    constructor (order: WireOrder, buffer: seq<byte>)
      ensures Valid() && this.order == order && this.buffer == buffer
      ensures View() == Stream(Bits(order, buffer), 0)
    {
      this.order := order;
      this.buffer := buffer;
      bitOffset := 0;
    }

    method Reset()
      modifies this
      ensures Valid() && View() == Stream(old(View()).bits, 0)
    {
      bitOffset := 0;
    }

    predicate HasBits(n: nat)
      reads this
      ensures HasBits(n) == View().Has(n)
    {
      bitOffset + n <= |buffer| * 8
    }

    method ReadBits(n: nat) returns (r: Option<uint64>)
      requires Valid()
      modifies this
      ensures Valid()
      ensures (View(), r) == ReadBitsOpt(order, old(View()), n)
    {
      hide Bits, Assembled, Decode, Pow2;
      if n == 0 || n > 64 || !HasBits(n) {
        return None;
      }
      ghost var w := View().Window(n);
      AssembledIsDecode(order, w);
      var value;
      match order {
        case BigEndian => value := AssembleBigEndian(n, w);
        case LittleEndian => value := AssembleLittleEndian(n, w);
      }
      return Some(value);
    }

    method AssembleBigEndian(n: nat, ghost w: seq<bool>) returns (value: nat)
      requires order.BigEndian? && View().Has(n) && w == View().Window(n)
      modifies this`bitOffset
      ensures bitOffset == old(bitOffset) + n && value == Assembled(order, w, n)
    {
      hide BitOr, BitAnd, Shl, Bit, Bits;
      value := 0;
      for i := 0 to n
        invariant bitOffset == old(bitOffset) + i && value == Assembled(order, w, i)
      {
        var byteIdx := bitOffset / 8;
        var bitIdx := 7 - bitOffset % 8;
        TestBit(order, buffer, bitOffset);
        if BitAnd(buffer[byteIdx], Shl(1, bitIdx)) != 0 {
          value := BitOr(value, Shl(1, n - 1 - i));
        }
        bitOffset := bitOffset + 1;
      }
    }

    method AssembleLittleEndian(n: nat, ghost w: seq<bool>) returns (value: nat)
      requires order.LittleEndian? && View().Has(n) && w == View().Window(n)
      modifies this`bitOffset
      ensures bitOffset == old(bitOffset) + n && value == Assembled(order, w, n)
    {
      hide BitOr, BitAnd, Shl, Bit, Bits;
      value := 0;
      for i := 0 to n
        invariant bitOffset == old(bitOffset) + i && value == Assembled(order, w, i)
      {
        var byteIdx := bitOffset / 8;
        var bitIdx := bitOffset % 8;
        TestBit(order, buffer, bitOffset);
        if BitAnd(buffer[byteIdx], Shl(1, bitIdx)) != 0 {
          value := BitOr(value, Shl(1, i));
        }
        bitOffset := bitOffset + 1;
      }
    }

    method Deserialize(format: PacketFormat) returns (values: seq<uint64>, valid: bool)
      requires Valid()
      modifies this
      ensures Valid()
      ensures (View(), Packet(values, valid)) == DeserializePacket(order, old(View()), format.fields)
    {
      hide Bits, Pow2, ReadBitsOpt;
      values, valid := seq(|format.fields|, _ => 0), false;
      assert values == ZeroValues(|format.fields|);
      var total := format.TotalBits();
      if !HasBits(total) {
        return;
      }
      ghost var s := View();
      for i := 0 to |format.fields|
        invariant Valid() && |values| == |format.fields| && !valid
        invariant DeserializePacket(order, s, format.fields) ==
                  FillFields(order, View(), format.fields, i, values)
      {
        if IsPadding(format.fields[i].name) {
          var skipped := SkipBits(format.fields[i].bitWidth);
          if !skipped {
            return;
          }
          values := values[i := 0];
        } else {
          var val := ReadBits(format.fields[i].bitWidth);
          if val.None? {
            return;
          }
          values := values[i := val.value];
        }
      }
      valid := true;
    }

    method SkipBits(n: nat) returns (ok: bool)
      requires Valid()
      modifies this
      ensures Valid()
      ensures (View(), ok) == SkipFlag(old(View()), n)
    {
      hide Bits;
      if !HasBits(n) {
        return false;
      }
      bitOffset := bitOffset + n;
      return true;
    }

    method AlignToByte()
      requires Valid()
      modifies this
      ensures Valid()
      ensures View() == Align(old(View()))
    {
      hide Bits;
      if bitOffset % 8 != 0 {
        bitOffset := (bitOffset / 8 + 1) * 8;
      }
    }
  }
}
