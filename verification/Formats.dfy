/** Packet formats: tables of named bit widths and the look-ups on them. */
module Formats {
  import opened Outcomes

  datatype FieldDef = FieldDef(name: string, bitWidth: nat)

  /** Names that mark reserved bits. */
  predicate IsPadding(name: string)
  {
    name != "" && (name[0] == '_' || name == "reserved" || name == "padding")
  }

  function Total(fields: seq<FieldDef>): nat
  {
    if fields == [] then 0 else fields[0].bitWidth + Total(fields[1..])
  }

  lemma {:induction false} TotalConcat(a: seq<FieldDef>, b: seq<FieldDef>)
    ensures Total(a + b) == Total(a) + Total(b)
  {
    if a == [] {
      assert a + b == b;
    } else {
      assert (a + b)[1..] == a[1..] + b;
      TotalConcat(a[1..], b);
    }
  }

  /** Where field `i` starts: the widths before it. */
  function Offset(fields: seq<FieldDef>, i: nat): nat
    requires i <= |fields|
  {
    Total(fields[..i])
  }

  /** Fields tile the format: each ends where the next one starts, the last at the total. */
  lemma OffsetNext(fields: seq<FieldDef>, i: nat)
    requires i < |fields|
    ensures Offset(fields, i + 1) == Offset(fields, i) + fields[i].bitWidth
  {
    assert fields[..i + 1] == fields[..i] + [fields[i]];
    TotalConcat(fields[..i], [fields[i]]);
  }

  lemma {:induction false} OffsetMonotone(fields: seq<FieldDef>, i: nat, j: nat)
    requires i <= j <= |fields|
    ensures Offset(fields, i) <= Offset(fields, j) <= Total(fields)
  {
    TotalConcat(fields[..i], fields[i..j]);
    assert fields[..j] == fields[..i] + fields[i..j];
    TotalConcat(fields[..j], fields[j..]);
    assert fields == fields[..j] + fields[j..];
  }

  /** Two different fields share no bit. */
  lemma FieldsDisjoint(fields: seq<FieldDef>, i: nat, j: nat)
    requires i < |fields| && j < |fields| && i != j
    ensures Offset(fields, i) + fields[i].bitWidth <= Offset(fields, j) ||
            Offset(fields, j) + fields[j].bitWidth <= Offset(fields, i)
    ensures Offset(fields, i) + fields[i].bitWidth <= Total(fields)
  {
    OffsetNext(fields, i);
    OffsetNext(fields, j);
    OffsetMonotone(fields, i + 1, |fields|);
    if i < j {
      OffsetMonotone(fields, i + 1, j);
    } else {
      OffsetMonotone(fields, j + 1, i);
    }
  }

  /** The first field of that name, which is the one every look-up means. */
  function FirstNamed(fields: seq<FieldDef>, name: string): (r: Option<nat>)
    ensures r.Some? ==> r.value < |fields| && fields[r.value].name == name
    ensures r.Some? ==> forall j | 0 <= j < r.value :: fields[j].name != name
    ensures r.None? ==> forall j | 0 <= j < |fields| :: fields[j].name != name
  {
    if fields == [] then None
    else if fields[0].name == name then Some(0)
    else
      var rest := FirstNamed(fields[1..], name);
      assert forall j | 1 <= j < |fields| :: fields[j] == fields[1..][j - 1];
      if rest.None? then None else Some(rest.value + 1)
  }

  lemma FirstNamedUnique(fields: seq<FieldDef>, name: string, i: nat)
    requires i < |fields| && fields[i].name == name
    requires forall j | 0 <= j < i :: fields[j].name != name
    ensures FirstNamed(fields, name) == Some(i)
  {
  }

  predicate DistinctNames(fields: seq<FieldDef>)
  {
    forall i, j | 0 <= i < j < |fields| :: fields[i].name != fields[j].name
  }

  datatype PacketFormat = PacketFormat(fields: seq<FieldDef>) {

    method TotalBits() returns (sum: nat)
      ensures sum == Total(fields)
    {
      sum := 0;
      for i := 0 to |fields|
        invariant sum == Offset(fields, i)
      {
        OffsetNext(fields, i);
        sum := sum + fields[i].bitWidth;
      }
      assert fields[..|fields|] == fields;
    }

    /** ConstexprPacketFormat::total_bytes. */
    method TotalBytes() returns (bytes: nat)
      ensures 8 * (bytes - 1) < Total(fields) <= 8 * bytes
    {
      var bits := TotalBits();
      bytes := (bits + 7) / 8;
    }

    method FieldIndex(name: string) returns (r: Option<nat>)
      ensures r == FirstNamed(fields, name)
    {
      for i := 0 to |fields|
        invariant forall j | 0 <= j < i :: fields[j].name != name
      {
        if fields[i].name == name {
          FirstNamedUnique(fields, name, i);
          return Some(i);
        }
      }
      return None;
    }

    method BitOffsetOf(name: string) returns (r: Option<nat>)
      ensures r == match FirstNamed(fields, name)
                   case None => None
                   case Some(i) => Some(Offset(fields, i))
    {
      var offset := 0;
      for i := 0 to |fields|
        invariant offset == Offset(fields, i)
        invariant forall j | 0 <= j < i :: fields[j].name != name
      {
        if fields[i].name == name {
          FirstNamedUnique(fields, name, i);
          return Some(offset);
        }
        OffsetNext(fields, i);
        offset := offset + fields[i].bitWidth;
      }
      return None;
    }

    method FieldWidth(name: string) returns (r: Option<nat>)
      ensures r == match FirstNamed(fields, name)
                   case None => None
                   case Some(i) => Some(fields[i].bitWidth)
    {
      for i := 0 to |fields|
        invariant forall j | 0 <= j < i :: fields[j].name != name
      {
        if fields[i].name == name {
          FirstNamedUnique(fields, name, i);
          return Some(fields[i].bitWidth);
        }
      }
      return None;
    }
  }
}
