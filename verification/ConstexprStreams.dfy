/** The compile-time variants' cursor operations: errors are reported as `nullopt`, `false` or an
    invalid packet, and are checked in their own order. */
module ConstexprStreams {
  import opened Outcomes
  import opened Streams
  import opened Formats

  function ReadBitsOpt(o: WireOrder, s: Stream, n: nat): (Stream, Option<nat>)
  {
    if n == 0 || n > 64 || !s.Has(n) then (s, None)
    else (s.Advance(n), Some(Decode(o, s.Window(n))))
  }

  function SkipFlag(s: Stream, n: nat): (Stream, bool)
  {
    if !s.Has(n) then (s, false) else (s.Advance(n), true)
  }

  function WriteBitsFlag(o: WireOrder, s: Stream, n: nat, v: nat): (Stream, bool)
  {
    if n == 0 || n > 64 || !s.Has(n) then (s, false)
    else (Stream(OrAt(s.bits, s.pos, Encode(o, v, n)), s.pos + n), true)
  }

  /** A packet whose values default to zero and which is valid only if every field was read. */
  datatype Packet = Packet(values: seq<nat>, valid: bool)

  function ZeroValues(n: nat): (vs: seq<nat>)
    ensures |vs| == n
  {
    seq(n, _ => 0)
  }

  function FillFields(o: WireOrder, s: Stream, fields: seq<FieldDef>, i: nat, values: seq<nat>): (r: (Stream, Packet))
    requires i <= |fields| == |values|
    ensures |r.1.values| == |fields|
    decreases |fields| - i
  {
    if i == |fields| then (s, Packet(values, true))
    else if IsPadding(fields[i].name) then
      var (s', ok) := SkipFlag(s, fields[i].bitWidth);
      if !ok then (s', Packet(values, false)) else FillFields(o, s', fields, i + 1, values[i := 0])
    else
      var (s', v) := ReadBitsOpt(o, s, fields[i].bitWidth);
      if v.None? then (s', Packet(values, false)) else FillFields(o, s', fields, i + 1, values[i := v.value])
  }

  function DeserializePacket(o: WireOrder, s: Stream, fields: seq<FieldDef>): (Stream, Packet)
  {
    if !s.Has(Total(fields)) then (s, Packet(ZeroValues(|fields|), false))
    else FillFields(o, s, fields, 0, ZeroValues(|fields|))
  }

  /** Once `ok` is lost the remaining fields are passed over. */
  function WriteWhileOk(o: WireOrder, s: Stream, fields: seq<FieldDef>, values: seq<nat>, ok: bool): (Stream, bool)
    requires |values| == |fields|
    decreases |fields|
  {
    if fields == [] then (s, ok)
    else if ok then
      var (s', ok') := WriteBitsFlag(o, s, fields[0].bitWidth, values[0]);
      WriteWhileOk(o, s', fields[1..], values[1..], ok')
    else
      WriteWhileOk(o, s, fields[1..], values[1..], ok)
  }

  function SerializeFlag(o: WireOrder, s: Stream, fields: seq<FieldDef>, values: seq<nat>): (Stream, bool)
    requires |values| == |fields|
  {
    if !s.Has(Total(fields)) then (s, false) else WriteWhileOk(o, s, fields, values, true)
  }
}
