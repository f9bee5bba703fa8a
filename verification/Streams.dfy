/** A byte buffer seen as a stream of bits, in one of the two wire orders, and the meaning of
    one cursor operation on such a stream. */
module Streams {
  import opened Words
  import opened Outcomes

  datatype WireOrder = BigEndian | LittleEndian

  // ---------------------------------------------------------------- bits of a buffer

  /** Where in its byte stream position `p` lives. */
  function BitIndex(o: WireOrder, p: nat): (k: nat)
    ensures k < 8
  {
    if o.BigEndian? then 7 - p % 8 else p % 8
  }

  function Bits(o: WireOrder, buf: seq<byte>): (bs: seq<bool>)
    ensures |bs| == 8 * |buf|
  {
    seq(8 * |buf|, (p: nat) requires p < 8 * |buf| => Bit(buf[p / 8], BitIndex(o, p)))
  }

  /** Equal bits mean equal bytes. */
  lemma BitsInjective(o: WireOrder, a: seq<byte>, b: seq<byte>)
    requires |a| == |b| && Bits(o, a) == Bits(o, b)
    ensures a == b
  {
    hide Bit, Pow2;
    Pow2Values();
    forall i | 0 <= i < |a|
      ensures a[i] == b[i]
    {
      forall k: nat | k < 8
        ensures Bit(a[i], k) == Bit(b[i], k)
      {
        var p := 8 * i + BitIndex(o, k);
        assert p / 8 == i && BitIndex(o, p) == k;
        assert Bits(o, a)[p] == Bits(o, b)[p];
      }
      SameBits(a[i], b[i], 8);
    }
  }

  /** Or-ing the mask of stream position `p` into its byte sets that bit and no other. */
  lemma SetBit(o: WireOrder, buf: seq<byte>, p: nat)
    requires p < 8 * |buf|
    ensures BitOr(buf[p / 8], Shl(1, BitIndex(o, p))) < 256
    ensures Bits(o, buf[p / 8 := BitOr(buf[p / 8], Shl(1, BitIndex(o, p)))]) == Bits(o, buf)[p := true]
  {
    hide Bit, BitOr, Shl;
    var k := BitIndex(o, p);
    var b := BitOr(buf[p / 8], Pow2(k));
    Pow2Values();
    ShlOne(k);
    Pow2Monotone(k + 1, 8);
    OrBound(buf[p / 8], Pow2(k), 8);
    var buf' := buf[p / 8 := b];
    forall q: nat | q < 8 * |buf|
      ensures Bits(o, buf')[q] == Bits(o, buf)[p := true][q]
    {
      if q / 8 == p / 8 {
        BitOfOr(buf[p / 8], Pow2(k), BitIndex(o, q));
        BitOfPow2(k, BitIndex(o, q));
      }
    }
  }

  /** The mask test on a byte reads one stream bit. */
  lemma TestBit(o: WireOrder, buf: seq<byte>, p: nat)
    requires p < 8 * |buf|
    ensures (BitAnd(buf[p / 8], Shl(1, BitIndex(o, p))) != 0) == Bits(o, buf)[p]
  {
    AndMask(buf[p / 8], BitIndex(o, p));
  }

  // ---------------------------------------------------------------- fields

  /** The `n` stream bits that stand for `v`. */
  function Encode(o: WireOrder, v: nat, n: nat): (bs: seq<bool>)
    ensures |bs| == n
  {
    if o.BigEndian? then HighFirst(v, n) else LowFirst(v, n)
  }

  /** The number that stream bits stand for. */
  function Decode(o: WireOrder, bs: seq<bool>): nat
  {
    if o.BigEndian? then NumHigh(bs) else NumLow(bs)
  }

  /** Which bit of a value the `i`-th of its `n` stream bits carries. */
  function Place(o: WireOrder, n: nat, i: nat): nat
    requires i < n
  {
    if o.BigEndian? then n - 1 - i else i
  }

  lemma EncodeAt(o: WireOrder, v: nat, n: nat)
    ensures forall i: nat | i < n :: Encode(o, v, n)[i] == Bit(v, Place(o, n, i))
  {
    forall i: nat | i < n
      ensures Encode(o, v, n)[i] == Bit(v, Place(o, n, i))
    {
      HighFirstAt(v, n, i);
      LowFirstAt(v, n, i);
    }
  }

  lemma {:induction false} DecodeEncode(o: WireOrder, v: nat, n: nat)
    ensures Decode(o, Encode(o, v, n)) == Trunc(v, n)
  {
    NumOfBits(v, n);
  }

  lemma {:induction false} EncodeDecode(o: WireOrder, bs: seq<bool>)
    ensures Decode(o, bs) < Pow2(|bs|)
    ensures Encode(o, Decode(o, bs), |bs|) == bs
  {
    LowRoundTrip(bs);
    HighRoundTrip(bs);
  }

  /** `value` holds the first `i` of the stream bits `w`, each in its place, and nothing else. */
  ghost predicate Assembling(o: WireOrder, w: seq<bool>, i: nat, value: nat)
  {
    value < Pow2(|w|) &&
    forall j: nat | j < |w| :: Bit(value, Place(o, |w|, j)) == (j < i && w[j])
  }

  lemma AssembleStart(o: WireOrder, w: seq<bool>)
    ensures Assembling(o, w, 0, 0)
  {
    ZeroWord();
  }

  lemma AssembleStep(o: WireOrder, w: seq<bool>, i: nat, value: nat)
    requires i < |w| && Assembling(o, w, i, value)
    ensures !w[i] ==> Assembling(o, w, i + 1, value)
    ensures w[i] ==> Assembling(o, w, i + 1, BitOr(value, Shl(1, Place(o, |w|, i))))
  {
    OrMask(value, |w|, Place(o, |w|, i));
  }

  /** What or-ing one mask per set bit, in stream order, has built after `i` bits. */
  function Assembled(o: WireOrder, w: seq<bool>, i: nat): nat
    requires i <= |w|
  {
    if i == 0 then 0
    else
      var sofar := Assembled(o, w, i - 1);
      if w[i - 1] then BitOr(sofar, Shl(1, Place(o, |w|, i - 1))) else sofar
  }

  lemma {:induction false} AssembledHolds(o: WireOrder, w: seq<bool>, i: nat)
    requires i <= |w|
    ensures Assembling(o, w, i, Assembled(o, w, i))
  {
    if i == 0 {
      AssembleStart(o, w);
    } else {
      AssembledHolds(o, w, i - 1);
      AssembleStep(o, w, i - 1, Assembled(o, w, i - 1));
    }
  }

  /** Assembling a whole window bit by bit decodes it. */
  lemma AssembledIsDecode(o: WireOrder, w: seq<bool>)
    requires |w| <= 64
    ensures Assembled(o, w, |w|) == Decode(o, w) < Pow2(64)
  {
    AssembledHolds(o, w, |w|);
    DecodeUnique(o, w, Assembled(o, w, |w|));
    Pow2Monotone(|w|, 64);
  }

  /** A reader recognises a decoded value by its bits. */
  lemma DecodeUnique(o: WireOrder, bs: seq<bool>, v: nat)
    requires v < Pow2(|bs|)
    requires forall i: nat | i < |bs| :: bs[i] == Bit(v, Place(o, |bs|, i))
    ensures v == Decode(o, bs)
  {
    EncodeAt(o, v, |bs|);
    assert Encode(o, v, |bs|) == bs;
    DecodeEncode(o, v, |bs|);
    TruncSmall(v, |bs|);
  }

  /** Adjacent fields join with the first one on the heavy side in big-endian order and on the
      light side in little-endian order. */
  lemma DecodeConcat(o: WireOrder, a: seq<bool>, b: seq<bool>)
    ensures Decode(o, a + b) ==
            if o.BigEndian? then Decode(o, b) + Shl(Decode(o, a), |b|)
            else Decode(o, a) + Shl(Decode(o, b), |a|)
  {
    NumHighConcat(a, b);
    NumLowConcat(a, b);
  }

  // ---------------------------------------------------------------- streams

  /** A cursor over bits: the abstract state of every reader and writer. */
  datatype Stream = Stream(bits: seq<bool>, pos: nat) {

    predicate Valid() {
      pos <= |bits| && |bits| % 8 == 0
    }

    predicate Has(n: nat) {
      pos + n <= |bits|
    }

    function Window(n: nat): (w: seq<bool>)
      requires Has(n)
      ensures |w| == n
    {
      bits[pos..pos + n]
    }

    function Advance(n: nat): Stream {
      Stream(bits, pos + n)
    }

    /** Every bit at or after the cursor is still zero. */
    predicate ZeroTail() {
      forall q: nat | pos <= q < |bits| :: !bits[q]
    }
  }

  function Zeros(n: nat): (bs: seq<bool>)
    ensures |bs| == n
  {
    seq(n, _ => false)
  }

  /** A writer just constructed over `size` bytes. */
  function Fresh(size: nat): Stream {
    Stream(Zeros(8 * size), 0)
  }

  /** `es` or-ed into `bits` from position `p` on. */
  function OrAt(bits: seq<bool>, p: nat, es: seq<bool>): (r: seq<bool>)
    requires p + |es| <= |bits|
    ensures |r| == |bits|
  {
    seq(|bits|, (q: nat) requires q < |bits| => bits[q] || (p <= q < p + |es| && es[q - p]))
  }

  /** `es` stored over `bits` from position `p` on. */
  function PutAt(bits: seq<bool>, p: nat, es: seq<bool>): (r: seq<bool>)
    requires p + |es| <= |bits|
    ensures |r| == |bits|
  {
    bits[..p] + es + bits[p + |es|..]
  }

  datatype Step<+T> = Step(s: Stream, result: Result<T>)

  function ReadBits(o: WireOrder, s: Stream, n: nat): Step<nat> {
    if n == 0 || n > 64 then Step(s, Throws(InvalidArgument))
    else if !s.Has(n) then Step(s, Throws(OutOfRange))
    else Step(s.Advance(n), Ok(Decode(o, s.Window(n))))
  }

  function WriteBits(o: WireOrder, s: Stream, n: nat, v: nat): Step<()> {
    if n == 0 || n > 64 then Step(s, Throws(InvalidArgument))
    else if !s.Has(n) then Step(s, Throws(OutOfRange))
    else Step(Stream(OrAt(s.bits, s.pos, Encode(o, v, n)), s.pos + n), Ok(()))
  }

  function Skip(s: Stream, n: nat): Step<()> {
    if s.Has(n) then Step(s.Advance(n), Ok(())) else Step(s, Throws(OutOfRange))
  }

  /** The next byte boundary at or after the cursor. */
  function Align(s: Stream): (r: Stream)
    ensures r.bits == s.bits && r.pos % 8 == 0 && s.pos <= r.pos < s.pos + 8
  {
    if s.pos % 8 != 0 then s.(pos := (s.pos / 8 + 1) * 8) else s
  }

  function ReadAligned(o: WireOrder, s: Stream, size: nat): Step<nat> {
    if s.pos % 8 != 0 then Step(s, Throws(LogicError))
    else if !s.Has(8 * size) then Step(s, Throws(OutOfRange))
    else Step(s.Advance(8 * size), Ok(Decode(o, s.Window(8 * size))))
  }

  function WriteAligned(o: WireOrder, s: Stream, size: nat, v: nat): Step<()> {
    if s.pos % 8 != 0 then Step(s, Throws(LogicError))
    else if !s.Has(8 * size) then Step(s, Throws(OutOfRange))
    else Step(Stream(PutAt(s.bits, s.pos, Encode(o, v, 8 * size)), s.pos + 8 * size), Ok(()))
  }

  // ---------------------------------------------------------------- the zero tail

  lemma OrIntoZeros(s: Stream, es: seq<bool>)
    requires s.Has(|es|) && s.ZeroTail()
    ensures OrAt(s.bits, s.pos, es) == PutAt(s.bits, s.pos, es)
  {
  }

  /** A value written at a cursor with nothing but zeros ahead is what the window then holds;
      everything behind the cursor is kept and the rest stays zero. */
  lemma PutThenWindow(s: Stream, es: seq<bool>)
    requires s.Has(|es|)
    ensures var bits := PutAt(s.bits, s.pos, es);
            bits[s.pos..s.pos + |es|] == es && bits[..s.pos] == s.bits[..s.pos]
    ensures s.ZeroTail() ==> Stream(PutAt(s.bits, s.pos, es), s.pos + |es|).ZeroTail()
  {
  }

  /** The aligned fast paths are the bit loops: at a byte boundary, reading `size` whole bytes at
      once gives the value and cursor of reading `8 * size` bits; so does writing them, when only
      zeros lie ahead. Off a boundary both throw. */
  lemma AlignedIsBitwise(o: WireOrder, s: Stream, size: nat, v: nat)
    requires 1 <= size <= 8
    ensures if s.pos % 8 != 0 then
              ReadAligned(o, s, size) == Step(s, Throws(LogicError)) &&
              WriteAligned(o, s, size, v) == Step(s, Throws(LogicError))
            else
              ReadAligned(o, s, size) == ReadBits(o, s, 8 * size) &&
              (s.ZeroTail() ==> WriteAligned(o, s, size, v) == WriteBits(o, s, 8 * size, v))
  {
    hide Encode, Decode;
    if s.Has(8 * size) && s.ZeroTail() {
      OrIntoZeros(s, Encode(o, v, 8 * size));
    }
  }

  /** Without the zero tail the two writers part: or-ing keeps old ones, storing drops them. */
  lemma AlignedNeedsZeroTail(o: WireOrder, s: Stream, size: nat)
    requires s.pos % 8 == 0 && 1 <= size <= 8 && s.Has(8 * size)
    ensures (forall v: nat | v < Pow2(8 * size) ::
               WriteAligned(o, s, size, v) == WriteBits(o, s, 8 * size, v))
            <==> s.Window(8 * size) == Zeros(8 * size)
  {
    hide HighFirst, LowFirst, Bit, Pow2;
    var n := 8 * size;
    if s.Window(n) == Zeros(n) {
      forall v: nat | v < Pow2(n)
        ensures WriteAligned(o, s, size, v) == WriteBits(o, s, n, v)
      {
        OrIntoWindow(s.bits, s.pos, Encode(o, v, n));
      }
    } else {
      EncodeZero(o, n);
      assert OrAt(s.bits, s.pos, Zeros(n)) == s.bits;
      assert PutAt(s.bits, s.pos, Zeros(n))[s.pos..s.pos + n] == Zeros(n);
      assert WriteAligned(o, s, size, 0) != WriteBits(o, s, n, 0);
    }
  }

  lemma OrIntoWindow(bits: seq<bool>, p: nat, es: seq<bool>)
    requires p + |es| <= |bits| && bits[p..p + |es|] == Zeros(|es|)
    ensures OrAt(bits, p, es) == PutAt(bits, p, es)
    ensures bits == PutAt(bits, p, Zeros(|es|))
  {
    forall q: nat | p <= q < p + |es|
      ensures !bits[q]
    {
      assert bits[p..p + |es|][q - p] == bits[q];
    }
  }

  lemma EncodeZero(o: WireOrder, n: nat)
    ensures Encode(o, 0, n) == Zeros(n)
  {
    EncodeAt(o, 0, n);
    forall i: nat | i < n
      ensures Encode(o, 0, n)[i] == Zeros(n)[i]
    {
      ZeroBits(Place(o, n, i));
    }
  }
}
