/** Building a packet of expected bytes with the compile-time writer. */
module Packets {
  import opened Words
  import opened Streams
  import opened Formats
  import opened FormatLaws
  import opened ConstexprStreams
  import opened ConstexprBitWriters
  import opened Comparisons
  import Twins

  /** Serializes `values` into a buffer of the format's size, rounded up to whole bytes, and hands
      out its bytes: the packet of those values. Comparing bytes with it accepts what checking the
      fields accepts exactly for formats of whole bytes without padding and with distinct names,
      and values in range. */
  method BuildPacket(order: WireOrder, format: PacketFormat, values: seq<uint64>)
    returns (data: seq<byte>, ok: bool)
    requires |values| == |format.fields|
    ensures 8 * (|data| - 1) < Total(format.fields) <= 8 * |data|
    ensures ok <==> forall f | f in format.fields :: Writable(f)
    ensures IsPacket(order, data, format.fields, values)
    ensures ok ==>
              ((forall buf :: FastAccepts(buf, data) <==> SlowAccepts(order, buf, format.fields, values)) <==>
               && DistinctNames(format.fields) && (forall f | f in format.fields :: !IsPadding(f.name))
               && InRange(format.fields, values) && Total(format.fields) % 8 == 0)
  {
    hide Bits, SerializeFlag, IsPacket, FastAccepts, SlowAccepts, DistinctNames, InRange, Total;
    var size := format.TotalBytes();
    var writer := new ConstexprBitWriter(order, size);
    ok := writer.Serialize(format, values);
    data := writer.Data();
    Twins.SerializeFlagOutcome(order, Fresh(size), format.fields, values);
    Twins.ConstexprDataIsPacket(order, data, format.fields, values);
  }
}
