/** The compile-time bit writer, which owns its zero-initialized buffer. */
module ConstexprBitWriters {
  import opened Words
  import opened Streams
  import opened Formats
  import opened ConstexprStreams
  import BitWriters

  class ConstexprBitWriter {
    const order: WireOrder
    const buffer: array<byte>
    var bitOffset: nat

    ghost predicate Valid()
      reads this
    {
      bitOffset <= 8 * buffer.Length
    }

    ghost function View(): (s: Stream)
      reads this, buffer
      ensures Valid() ==> s.Valid()
    {
      Stream(Bits(order, buffer[..]), bitOffset)
    }

    constructor (order: WireOrder, size: nat)
      ensures Valid() && this.order == order && fresh(buffer) && buffer.Length == size
      ensures View() == Fresh(size) && View().ZeroTail()
    {
      this.order := order;
      this.buffer := new byte[size](_ => 0);
      bitOffset := 0;
      new;
      BitWriters.ZeroBuffer(order, buffer[..]);
    }

    /** The bytes written so far, by value. */
    function Data(): (d: seq<byte>)
      reads this, buffer
      ensures Bits(order, d) == View().bits
    {
      buffer[..]
    }

    predicate HasSpace(n: nat)
      reads this, buffer
      ensures HasSpace(n) == View().Has(n)
    {
      bitOffset + n <= buffer.Length * 8
    }

    method WriteBits(n: nat, value: uint64) returns (ok: bool)
      requires Valid()
      modifies this, buffer
      ensures Valid()
      ensures (View(), ok) == WriteBitsFlag(order, old(View()), n, value)
    {
      hide Bits, Pow2, OrAt, Encode;
      if n == 0 || n > 64 || !HasSpace(n) {
        return false;
      }
      match order {
        case BigEndian => DepositBigEndian(n, value);
        case LittleEndian => DepositLittleEndian(n, value);
      }
      return true;
    }

    method DepositBigEndian(n: nat, value: uint64)
      requires order.BigEndian? && View().Has(n)
      modifies this`bitOffset, buffer
      ensures bitOffset == old(bitOffset) + n
      ensures Bits(order, buffer[..]) ==
              OrAt(old(Bits(order, buffer[..])), old(bitOffset), Encode(order, value, n))
    {
      hide BitOr, BitAnd, Shl, Bit, Bits, Pow2, OrAt, Encode;
      ghost var bits, p, es := Bits(order, buffer[..]), bitOffset, Encode(order, value, n);
      BitWriters.OrNothing(bits, p, es);
      for i := 0 to n
        invariant bitOffset == p + i
        invariant Bits(order, buffer[..]) == OrAt(bits, p, es[..i])
      {
        BitWriters.DepositStep(order, buffer[..], bits, p, value, n, i);
        var byteIdx := bitOffset / 8;
        var bitIdx := 7 - bitOffset % 8;
        if BitAnd(value, Shl(1, n - 1 - i)) != 0 {
          buffer[byteIdx] := BitOr(buffer[byteIdx], Shl(1, bitIdx));
        }
        bitOffset := bitOffset + 1;
      }
      assert es[..n] == es;
    }

    method DepositLittleEndian(n: nat, value: uint64)
      requires order.LittleEndian? && View().Has(n)
      modifies this`bitOffset, buffer
      ensures bitOffset == old(bitOffset) + n
      ensures Bits(order, buffer[..]) ==
              OrAt(old(Bits(order, buffer[..])), old(bitOffset), Encode(order, value, n))
    {
      hide BitOr, BitAnd, Shl, Bit, Bits, Pow2, OrAt, Encode;
      ghost var bits, p, es := Bits(order, buffer[..]), bitOffset, Encode(order, value, n);
      BitWriters.OrNothing(bits, p, es);
      for i := 0 to n
        invariant bitOffset == p + i
        invariant Bits(order, buffer[..]) == OrAt(bits, p, es[..i])
      {
        BitWriters.DepositStep(order, buffer[..], bits, p, value, n, i);
        var byteIdx := bitOffset / 8;
        var bitIdx := bitOffset % 8;
        if BitAnd(value, Shl(1, i)) != 0 {
          buffer[byteIdx] := BitOr(buffer[byteIdx], Shl(1, bitIdx));
        }
        bitOffset := bitOffset + 1;
      }
      assert es[..n] == es;
    }

    method Serialize(format: PacketFormat, values: seq<uint64>) returns (ok: bool)
      requires Valid() && |values| == |format.fields|
      modifies this, buffer
      ensures Valid()
      ensures (View(), ok) == SerializeFlag(order, old(View()), format.fields, values)
    {
      hide Bits, Pow2, WriteBitsFlag;
      var total := format.TotalBits();
      if !HasSpace(total) {
        return false;
      }
      ghost var s := View();
      ok := true;
      for idx := 0 to |values|
        invariant Valid()
        invariant WriteWhileOk(order, s, format.fields, values, true) ==
                  WriteWhileOk(order, View(), format.fields[idx..], values[idx..], ok)
      {
        if ok {
          ok := WriteBits(format.fields[idx].bitWidth, values[idx]);
        }
      }
    }

    method SkipBits(n: nat) returns (ok: bool)
      requires Valid()
      modifies this
      ensures Valid()
      ensures (View(), ok) == SkipFlag(old(View()), n)
    {
      hide Bits;
      if !HasSpace(n) {
        return false;
      }
      bitOffset := bitOffset + n;
      return true;
    }

    method AlignToByte()
      requires Valid()
      modifies this
      ensures Valid()
      ensures View() == Align(old(View()))
    {
      hide Bits;
      if bitOffset % 8 != 0 {
        bitOffset := (bitOffset / 8 + 1) * 8;
      }
    }
  }
}
