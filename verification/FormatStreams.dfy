/** What deserializing and serializing a whole format does to a stream, field by field. */
module FormatStreams {
  import opened Words
  import opened Outcomes
  import opened Streams
  import opened Formats

  /** Where a pass over the fields stopped, the values it produced, and why it stopped early. */
  datatype FieldRun = FieldRun(s: Stream, values: seq<nat>, error: Option<Error>)

  /** Padding is skipped and reads as 0. */
  function ReadField(o: WireOrder, s: Stream, f: FieldDef): Step<nat>
  {
    if IsPadding(f.name) then
      var skipped := Skip(s, f.bitWidth);
      Step(skipped.s, match skipped.result case Ok(_) => Ok(0) case Throws(e) => Throws(e))
    else
      ReadBits(o, s, f.bitWidth)
  }

  function ReadFields(o: WireOrder, s: Stream, fields: seq<FieldDef>, done: seq<nat>): FieldRun
    decreases |fields|
  {
    if fields == [] then FieldRun(s, done, None)
    else
      var step := ReadField(o, s, fields[0]);
      match step.result
      case Ok(v) => ReadFields(o, step.s, fields[1..], done + [v])
      case Throws(e) => FieldRun(step.s, done, Some(e))
  }

  /** One turn of the loop over the fields. */
  lemma ReadFieldsNext(o: WireOrder, s: Stream, fields: seq<FieldDef>, i: nat, done: seq<nat>)
    requires i <= |fields|
    ensures ReadFields(o, s, fields[i..], done) ==
            if i == |fields| then FieldRun(s, done, None)
            else
              var step := ReadField(o, s, fields[i]);
              if step.result.Ok? then ReadFields(o, step.s, fields[i + 1..], done + [step.result.value])
              else FieldRun(step.s, done, Some(step.result.error))
  {
    hide ReadField;
    assert i < |fields| ==> fields[i..][0] == fields[i] && fields[i..][1..] == fields[i + 1..];
  }

  function Deserialize(o: WireOrder, s: Stream, fields: seq<FieldDef>): Step<seq<nat>>
  {
    if !s.Has(Total(fields)) then Step(s, Throws(OutOfRange))
    else
      var run := ReadFields(o, s, fields, []);
      Step(run.s, match run.error case None => Ok(run.values) case Some(e) => Throws(e))
  }

  /** Padding is written like any other field. */
  function WriteFields(o: WireOrder, s: Stream, fields: seq<FieldDef>, values: seq<nat>): Step<()>
    requires |values| == |fields|
    decreases |fields|
  {
    if fields == [] then Step(s, Ok(()))
    else
      var step := WriteBits(o, s, fields[0].bitWidth, values[0]);
      if step.result.Throws? then step
      else WriteFields(o, step.s, fields[1..], values[1..])
  }

  function Serialize(o: WireOrder, s: Stream, fields: seq<FieldDef>, values: seq<nat>): Step<()>
    requires |values| == |fields|
  {
    if !s.Has(Total(fields)) then Step(s, Throws(OutOfRange))
    else WriteFields(o, s, fields, values)
  }

  /** The type of a variable that a value is assigned to by a cast. */
  datatype Target = Integer(width: nat) | Boolean

  /** An integer keeps the low bits; a boolean keeps whether there is any. */
  function Cast(v: nat, t: Target): nat
  {
    match t
    case Integer(width) => Trunc(v, width)
    case Boolean => if v == 0 then 0 else 1
  }

  /** Each value as the variable it is assigned to holds it. */
  function CastAll(values: seq<nat>, targets: seq<Target>): (r: seq<nat>)
    requires |values| <= |targets|
    ensures |r| == |values|
  {
    seq(|values|, (i: nat) requires i < |values| => Cast(values[i], targets[i]))
  }

  lemma CastAllNext(values: seq<nat>, v: nat, targets: seq<Target>)
    requires |values| < |targets|
    ensures CastAll(values + [v], targets) == CastAll(values, targets) + [Cast(v, targets[|values|])]
  {
  }

  lemma StoreNext(head: seq<nat>, before: seq<nat>, v: nat)
    requires |head| < |before|
    ensures (head + before[|head|..])[|head| := v] == head + [v] + before[|head| + 1..]
  {
  }

  /** Reading one named field: a seek from the start of the buffer, checked from the cursor. */
  function ReadNamed(o: WireOrder, s: Stream, fields: seq<FieldDef>, name: string): Step<nat>
  {
    match FirstNamed(fields, name)
    case None => Step(s, Throws(OutOfRange))
    case Some(i) =>
      if fields[i].bitWidth == 0 || !s.Has(Offset(fields, i) + fields[i].bitWidth) then
        Step(s, Throws(OutOfRange))
      else
        ReadBits(o, Stream(s.bits, Offset(fields, i)), fields[i].bitWidth)
  }

  datatype ExpectedField = ExpectedField(name: string, value: nat)

  /** ParsedPacket::get. */
  function Get(fields: seq<FieldDef>, values: seq<nat>, name: string): Result<nat>
    requires |values| == |fields|
  {
    match FirstNamed(fields, name)
    case None => Throws(OutOfRange)
    case Some(i) => Ok(values[i])
  }

  /** Checks run in table order; the first mismatch or unknown name decides. */
  function VerifyExpected(fields: seq<FieldDef>, values: seq<nat>, expected: seq<ExpectedField>): Result<bool>
    requires |values| == |fields|
  {
    if expected == [] then Ok(true)
    else
      match Get(fields, values, expected[0].name)
      case Throws(e) => Throws(e)
      case Ok(v) =>
        if v != expected[0].value then Ok(false)
        else VerifyExpected(fields, values, expected[1..])
  }

  /** A run of whole bytes inside a buffer; the empty span stands for "no such field data". */
  datatype Span = Span(start: nat, length: nat)

  const NoSpan := Span(0, 0)

  function SpanOfField(fields: seq<FieldDef>, name: string, size: nat): (span: Span)
    ensures span.start + span.length <= size
  {
    match FirstNamed(fields, name)
    case None => NoSpan
    case Some(i) =>
      var offset, width := Offset(fields, i), fields[i].bitWidth;
      if offset % 8 != 0 || width % 8 != 0 || offset / 8 + width / 8 > size then NoSpan
      else Span(offset / 8, width / 8)
  }
}
