/** A buffer read as one large number, and the place of every field inside that number. */
module Numbers {
  import opened Words
  import opened Streams

  /** The number the bytes of `buf` spell: most significant byte first in big-endian order,
      least significant byte first in little-endian order. */
  function BufferNumber(o: WireOrder, buf: seq<byte>): nat
  {
    if buf == [] then 0
    else if o.BigEndian? then 256 * BufferNumber(o, buf[..|buf| - 1]) + buf[|buf| - 1]
    else buf[0] + 256 * BufferNumber(o, buf[1..])
  }

  lemma BitsConcat(o: WireOrder, a: seq<byte>, b: seq<byte>)
    ensures Bits(o, a + b) == Bits(o, a) + Bits(o, b)
  {
  }

  lemma BitsSlice(o: WireOrder, buf: seq<byte>, lo: nat, hi: nat)
    requires lo <= hi <= |buf|
    ensures Bits(o, buf[lo..hi]) == Bits(o, buf)[8 * lo..8 * hi]
  {
    hide Bit;
  }

  lemma BitsOfByte(o: WireOrder, b: byte)
    ensures Bits(o, [b]) == Encode(o, b, 8)
    ensures Decode(o, Bits(o, [b])) == b
  {
    hide HighFirst, LowFirst, NumHigh, NumLow, Bit, Trunc;
    EncodeAt(o, b, 8);
    assert Bits(o, [b]) == Encode(o, b, 8);
    DecodeEncode(o, b, 8);
    assert Pow2(8) == 256 by { Pow2Values(); }
    TruncSmall(b, 8);
  }

  /** Replacing a byte stores its eight stream bits. */
  lemma PutByte(o: WireOrder, buf: seq<byte>, j: nat, b: byte)
    requires j < |buf|
    ensures Bits(o, buf[j := b]) == PutAt(Bits(o, buf), 8 * j, Encode(o, b, 8))
  {
    hide Bits, Encode;
    var before, after := buf[..j], buf[j + 1..];
    assert buf[j := b] == before + [b] + after;
    BitsConcat(o, before + [b], after);
    BitsConcat(o, before, [b]);
    BitsOfByte(o, b);
    assert before == buf[0..j] && after == buf[j + 1..|buf|];
    BitsSlice(o, buf, 0, j);
    BitsSlice(o, buf, j + 1, |buf|);
  }

  lemma DecodeEmpty(o: WireOrder)
    ensures Decode(o, Bits(o, [])) == 0
  {
  }

  /** A buffer's number is what its bits decode to. */
  lemma {:induction false} NumberIsDecode(o: WireOrder, buf: seq<byte>)
    ensures BufferNumber(o, buf) == Decode(o, Bits(o, buf))
  {
    hide Decode, Bits;
    if buf == [] {
      DecodeEmpty(o);
    } else {
      if o.BigEndian? {
        var init, last := buf[..|buf| - 1], buf[|buf| - 1];
        assert buf == init + [last];
        NumberIsDecode(o, init);
        BitsConcat(o, init, [last]);
        BitsOfByte(o, last);
        DecodeConcat(o, Bits(o, init), Bits(o, [last]));
      } else {
        var head, tail := buf[0], buf[1..];
        assert buf == [head] + tail;
        NumberIsDecode(o, tail);
        BitsConcat(o, [head], tail);
        BitsOfByte(o, head);
        DecodeConcat(o, Bits(o, [head]), Bits(o, tail));
      }
    }
  }

  /** How many bits of the stream are lighter than the field of `n` bits at `p`. */
  function Weight(o: WireOrder, len: nat, p: nat, n: nat): nat
    requires p + n <= len
  {
    if o.BigEndian? then len - p - n else p
  }

  /** The bits heavier and lighter than a window, in the order `o` weighs them. */
  function Heavy(o: WireOrder, bits: seq<bool>, p: nat, n: nat): nat
    requires p + n <= |bits|
  {
    if o.BigEndian? then Decode(o, bits[..p]) else Decode(o, bits[p + n..])
  }

  function Light(o: WireOrder, bits: seq<bool>, p: nat, n: nat): nat
    requires p + n <= |bits|
  {
    if o.BigEndian? then Decode(o, bits[p + n..]) else Decode(o, bits[..p])
  }

  lemma LightBound(o: WireOrder, bits: seq<bool>, p: nat, n: nat)
    requires p + n <= |bits|
    ensures Light(o, bits, p, n) < Pow2(Weight(o, |bits|, p, n))
  {
    EncodeDecode(o, bits[..p]);
    EncodeDecode(o, bits[p + n..]);
  }

  lemma DecodeThree(o: WireOrder, a: seq<bool>, es: seq<bool>, b: seq<bool>)
    ensures Decode(o, a + es + b) ==
            if o.BigEndian? then Decode(o, b) + Shl(Decode(o, es) + Shl(Decode(o, a), |es|), |b|)
            else Decode(o, a) + Shl(Decode(o, es) + Shl(Decode(o, b), |es|), |a|)
  {
    hide NumHigh, NumLow, Shl;
    if o.BigEndian? {
      DecodeConcat(o, a + es, b);
      DecodeConcat(o, a, es);
    } else {
      assert a + es + b == a + (es + b);
      DecodeConcat(o, a, es + b);
      DecodeConcat(o, es, b);
    }
  }

  lemma WindowParts(o: WireOrder, bits: seq<bool>, p: nat, es: seq<bool>)
    requires p + |es| <= |bits|
    ensures var a, b, n := bits[..p], bits[p + |es|..], |es|;
            && PutAt(bits, p, es) == a + es + b
            && Light(o, bits, p, n) == (if o.BigEndian? then Decode(o, b) else Decode(o, a))
            && Heavy(o, bits, p, n) == (if o.BigEndian? then Decode(o, a) else Decode(o, b))
            && Weight(o, |bits|, p, n) == (if o.BigEndian? then |b| else |a|)
  {
    hide Decode;
  }

  /** The number of a stream with `es` in the window at `p`. */
  lemma NumberOfPut(o: WireOrder, bits: seq<bool>, p: nat, es: seq<bool>)
    requires p + |es| <= |bits|
    ensures Decode(o, PutAt(bits, p, es)) ==
            Light(o, bits, p, |es|) +
            Shl(Decode(o, es) + Shl(Heavy(o, bits, p, |es|), |es|), Weight(o, |bits|, p, |es|))
  {
    hide Decode, Shl, PutAt, Light, Heavy, Weight;
    WindowParts(o, bits, p, es);
    DecodeThree(o, bits[..p], es, bits[p + |es|..]);
  }

  /** A field is a digit of the number: shift the lighter bits away, keep `n`. */
  lemma FieldOfNumber(o: WireOrder, bits: seq<bool>, p: nat, n: nat)
    requires p + n <= |bits|
    ensures Decode(o, bits[p..p + n]) ==
            Trunc(Shr(Decode(o, bits), Weight(o, |bits|, p, n)), n)
  {
    hide NumHigh, NumLow, Shl, Shr, Trunc, Pow2;
    var f := bits[p..p + n];
    assert PutAt(bits, p, f) == bits;
    NumberOfPut(o, bits, p, f);
    EncodeDecode(o, f);
    LightBound(o, bits, p, n);
    var heavy := Heavy(o, bits, p, n);
    ShlPlus(Decode(o, f) + Shl(heavy, n), Light(o, bits, p, n), Weight(o, |bits|, p, n));
    ShlPlus(heavy, Decode(o, f), n);
  }

  /** Reading `n` bits at `p` from an `L`-byte buffer whose number is `V` gives
      `V >> (8L-p-n)` kept to `n` bits in big-endian and `V >> p` kept to `n` bits in little-endian order. */
  lemma ReadMeansDigit(o: WireOrder, buf: seq<byte>, p: nat, n: nat)
    requires 1 <= n <= 64 && p + n <= 8 * |buf|
    ensures ReadBits(o, Stream(Bits(o, buf), p), n).result.Ok?
    ensures ReadBits(o, Stream(Bits(o, buf), p), n).result.value ==
            Trunc(Shr(BufferNumber(o, buf), Weight(o, 8 * |buf|, p, n)), n)
  {
    NumberIsDecode(o, buf);
    FieldOfNumber(o, Bits(o, buf), p, n);
  }

  lemma PutOverZeros(o: WireOrder, bits: seq<bool>, p: nat, es: seq<bool>)
    requires p + |es| <= |bits| && bits[p..p + |es|] == Zeros(|es|)
    ensures Decode(o, OrAt(bits, p, es)) ==
            Decode(o, bits) + Shl(Decode(o, es), Weight(o, |bits|, p, |es|))
  {
    hide NumHigh, NumLow, Shl, Pow2;
    var n := |es|;
    OrIntoWindow(bits, p, es);
    NumberOfPut(o, bits, p, es);
    NumberOfPut(o, bits, p, Zeros(n));
    DecodeZeros(o, n);
    ShlSum(Decode(o, es), Shl(Heavy(o, bits, p, n), n), Weight(o, |bits|, p, n));
  }

  /** Writing `v` into a window of zeros adds the low `n` bits of `v` at the field's weight. */
  lemma WriteMeansAdd(o: WireOrder, buf: seq<byte>, buf': seq<byte>, p: nat, n: nat, v: nat)
    requires 1 <= n <= 64 && p + n <= 8 * |buf| && |buf'| == |buf|
    requires Stream(Bits(o, buf), p).Window(n) == Zeros(n)
    requires Bits(o, buf') == WriteBits(o, Stream(Bits(o, buf), p), n, v).s.bits
    ensures BufferNumber(o, buf') ==
            BufferNumber(o, buf) + Shl(Trunc(v, n), Weight(o, 8 * |buf|, p, n))
  {
    NumberIsDecode(o, buf);
    NumberIsDecode(o, buf');
    PutOverZeros(o, Bits(o, buf), p, Encode(o, v, n));
    DecodeEncode(o, v, n);
  }

  lemma DecodeZeros(o: WireOrder, n: nat)
    ensures Decode(o, Zeros(n)) == 0
  {
    EncodeZero(o, n);
    DecodeEncode(o, 0, n);
    TruncSmall(0, n);
  }

  /** One read of `a + b` bits is a read of `a` bits followed by a read of `b` bits. */
  lemma ReadSplits(o: WireOrder, s: Stream, a: nat, b: nat)
    requires a > 0 && b > 0 && a + b <= 64 && s.Has(a + b)
    ensures var whole := ReadBits(o, s, a + b);
            var first := ReadBits(o, s, a);
            var second := ReadBits(o, first.s, b);
            && whole.result.Ok? && first.result.Ok? && second.result.Ok?
            && whole.s == second.s
            && whole.result.value ==
               if o.BigEndian? then Shl(first.result.value, b) + second.result.value
               else first.result.value + Shl(second.result.value, a)
  {
    assert s.Window(a + b) == s.Window(a) + s.Advance(a).Window(b);
    DecodeConcat(o, s.Window(a), s.Advance(a).Window(b));
  }

  /** The bytes under an aligned cursor spell what its bits decode to. */
  lemma AlignedValue(o: WireOrder, buf: seq<byte>, b: nat, size: nat)
    requires b + size <= |buf| && size <= 8
    ensures BufferNumber(o, buf[b..b + size]) ==
            Decode(o, Stream(Bits(o, buf), 8 * b).Window(8 * size)) < Pow2(64)
  {
    hide Decode, Bits, BufferNumber, Pow2;
    NumberIsDecode(o, buf[b..b + size]);
    BitsSlice(o, buf, b, b + size);
    EncodeDecode(o, Bits(o, buf[b..b + size]));
    Pow2Monotone(8 * size, 64);
  }

  lemma BufferNumberBound(o: WireOrder, buf: seq<byte>)
    ensures BufferNumber(o, buf) < Pow2(8 * |buf|)
  {
    NumberIsDecode(o, buf);
    EncodeDecode(o, Bits(o, buf));
  }

  /** One step of the aligned loops: shifting and or-ing takes in the next byte, and neither the
      cast to the result type nor the promotion to `int` loses a bit. */
  lemma JoinByte(o: WireOrder, head: seq<byte>, b: byte, size: nat)
    requires |head| < size
    ensures o.BigEndian? ==>
              Trunc(BitOr(Shl(BufferNumber(o, head), 8), b), 8 * size) == BufferNumber(o, head + [b])
    ensures o.LittleEndian? ==>
              BitOr(BufferNumber(o, head), Trunc(Shl(b, 8 * |head|), 8 * size)) == BufferNumber(o, head + [b])
  {
    hide Decode, Bits, BufferNumber, Trunc, Shl, BitOr, Pow2;
    NumberIsDecode(o, head);
    NumberIsDecode(o, head + [b]);
    BitsConcat(o, head, [b]);
    BitsOfByte(o, b);
    DecodeConcat(o, Bits(o, head), Bits(o, [b]));
    BufferNumberBound(o, head);
    BufferNumberBound(o, head + [b]);
    assert b < Pow2(8) by { Pow2Values(); }
    Pow2Monotone(8 * |head + [b]|, 8 * size);
    if o.BigEndian? {
      OrIsPlus(BufferNumber(o, head), b, 8);
      TruncSmall(BufferNumber(o, head + [b]), 8 * size);
    } else {
      OrIsPlus(b, BufferNumber(o, head), 8 * |head|);
      TruncSmall(Shl(b, 8 * |head|), 8 * size);
    }
  }

  lemma JoinNext(o: WireOrder, buf: seq<byte>, b: nat, i: nat, size: nat)
    requires i < size && b + size <= |buf|
    ensures var sofar := BufferNumber(o, buf[b..b + i]);
            BufferNumber(o, buf[b..b + i + 1]) ==
            if o.BigEndian? then Trunc(BitOr(Shl(sofar, 8), buf[b + i]), 8 * size)
            else BitOr(sofar, Trunc(Shl(buf[b + i], i * 8), 8 * size))
  {
    hide BufferNumber, Trunc, Shl, BitOr;
    assert buf[b..b + i + 1] == buf[b..b + i] + [buf[b + i]];
    JoinByte(o, buf[b..b + i], buf[b + i], size);
  }

  /** The memory of an integer of `size` bytes on a little-endian host. */
  function HostBytes(v: nat, size: nat): (bytes: seq<byte>)
    ensures |bytes| == size
    decreases size
  {
    if size == 0 then [] else [v % 256] + HostBytes(v / 256, size - 1)
  }

  lemma {:induction false} HostNumber(v: nat, size: nat)
    requires v < Pow2(8 * size)
    ensures BufferNumber(LittleEndian, HostBytes(v, size)) == v
    decreases size
  {
    if size > 0 {
      assert Pow2(8 * size) == 256 * Pow2(8 * (size - 1)) by { Pow2Bytes(8 * (size - 1)); }
      HostNumber(v / 256, size - 1);
    }
  }

  lemma Pow2Bytes(n: nat)
    ensures Pow2(n + 8) == 256 * Pow2(n)
  {
    assert Pow2(n + 2) == 4 * Pow2(n);
    assert Pow2(n + 4) == 4 * Pow2(n + 2);
    assert Pow2(n + 6) == 4 * Pow2(n + 4);
    assert Pow2(n + 8) == 4 * Pow2(n + 6);
  }
}
