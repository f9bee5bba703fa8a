/** Splitting cache addresses into tag, index and offset and joining them again, by the
    little-endian bit codec. */
module CacheAddresses {
  import opened Words
  import opened Outcomes
  import opened Streams
  import opened Numbers
  import opened Formats
  import opened FormatStreams
  import opened FormatLaws
  import opened BitReaders
  import opened BitWriters

  const OFFSET := FieldDef("offset", 6)
  const INDEX := FieldDef("index", 3)
  const TAG := FieldDef("tag", 23)

  /** Listed least significant field first: 32 bits in all. */
  const CACHE_ADDRESS := PacketFormat([OFFSET, INDEX, TAG])

  datatype AddressFields = AddressFields(tag: nat, index: nat, offset: nat)

  /** The fields of an address: 23 bits of tag, 3 of index, 6 of offset. */
  function SplitAddress(address: uint32): (f: AddressFields)
    ensures f.tag < 0x80_0000 && f.index < 8 && f.offset < 64 && f.offset <= address
  {
    AddressFields(address / 512, address / 64 % 8, address % 64)
  }

  /** The address of three fields, each cut to its width. */
  function JoinAddress(tag: nat, index: nat, offset: nat): uint32
  {
    tag % 0x80_0000 * 512 + index % 8 * 64 + offset % 64
  }

  /** What the codec reads from the memory of a 32-bit address. */
  function AddressRun(address: uint32): FieldRun
  {
    ReadFields(LittleEndian, Stream(Bits(LittleEndian, HostBytes(address, 4)), 0), CACHE_ADDRESS.fields, [])
  }

  /** What the codec leaves after writing the three fields into a zeroed 32-bit variable. */
  function JoinStep(tag: nat, index: nat, offset: nat): Step<()>
  {
    Serialize(LittleEndian, Fresh(4), CACHE_ADDRESS.fields, [offset, index, tag])
  }

  // ---------------------------------------------------------------- why: the codec's numbers

  lemma FormatShape()
    ensures var fs := CACHE_ADDRESS.fields;
            && fs == [OFFSET, INDEX, TAG] && Total(fs) == 32
            && Offset(fs, 0) == 0 && Offset(fs, 1) == 6 && Offset(fs, 2) == 9
            && (forall f | f in fs :: Writable(f) && !IsPadding(f.name))
            && GoodReads(fs) == 3
  {
    var fs := CACHE_ADDRESS.fields;
    OffsetNext(fs, 0);
    OffsetNext(fs, 1);
    OffsetNext(fs, 2);
    assert fs[..3] == fs;
    assert Readable(fs[0]) && Readable(fs[1]) && Readable(fs[2]);
  }

  /** One field of an address is a digit of it. */
  lemma AddressDigit(address: uint32, i: nat)
    requires i < 3
    ensures var fs := CACHE_ADDRESS.fields;
            var bits := Bits(LittleEndian, HostBytes(address, 4));
            && Total(fs) == 32 && |Values(LittleEndian, bits, 0, fs)| == 3
            && Values(LittleEndian, bits, 0, fs)[i] ==
               address / Pow2([0, 6, 9][i]) % Pow2([6, 3, 23][i])
  {
    hide Bits, Decode, Values, Total, BufferNumber, HostBytes, Pow2, Shr, Trunc, IsPadding;
    FormatShape();
    var o, fs, p, n := LittleEndian, CACHE_ADDRESS.fields, [0, 6, 9][i], [6, 3, 23][i];
    var bytes := HostBytes(address, 4);
    ValuesAt(o, Bits(o, bytes), 0, fs, i);
    assert fs[i] in fs && fs[i].bitWidth == n && Offset(fs, i) == p;
    FieldOfNumber(o, Bits(o, bytes), p, n);
    NumberIsDecode(o, bytes);
    Pow2Values();
    HostNumber(address, 4);
    ShrIsDiv(address, p);
    ShrIsDiv(Shr(address, p), n);
  }

  /** The bit loops split every address into exactly these fields. */
  lemma CodecSplits(address: uint32)
    ensures var run, f := AddressRun(address), SplitAddress(address);
            && run.error == None && run.s.pos == 32
            && run.values == [f.offset, f.index, f.tag]
  {
    hide Bits, Values, HostBytes, ReadFields, Total, GoodReads, Pow2;
    var o, fs := LittleEndian, CACHE_ADDRESS.fields;
    var s := Stream(Bits(o, HostBytes(address, 4)), 0);
    FormatShape();
    ReadFieldsRun(o, s, fs);
    assert fs[..3] == fs;
    AddressDigit(address, 0);
    AddressDigit(address, 1);
    AddressDigit(address, 2);
    SmallPowers();
  }

  lemma SmallPowers()
    ensures Pow2(0) == 1 && Pow2(3) == 8 && Pow2(6) == 64 && Pow2(9) == 512 && Pow2(23) == 0x80_0000
  {
    Pow2Values();
  }

  /** The bit loops join any fields into exactly this address. */
  lemma CodecJoins(tag: nat, index: nat, offset: nat)
    ensures JoinStep(tag, index, offset).result.Ok?
    ensures Decode(LittleEndian, JoinStep(tag, index, offset).s.bits) == JoinAddress(tag, index, offset)
  {
    hide Encode, Decode, FormatBits, Serialize, Total, Shl, Trunc, Pow2, OrAt, PutAt, GoodReads;
    var o, fs, values := LittleEndian, CACHE_ADDRESS.fields, [offset, index, tag];
    FormatShape();
    SerializeOutcome(o, Fresh(4), fs, values);
    OrIntoZeros(Fresh(4), FormatBits(o, fs, values));
    PutAll(Fresh(4).bits, FormatBits(o, fs, values));
    JoinBits(tag, index, offset);
    JoinedNumber(tag, index, offset);
  }

  lemma JoinedNumber(tag: nat, index: nat, offset: nat)
    ensures var o := LittleEndian;
            Decode(o, Encode(o, offset, 6) + Encode(o, index, 3) + Encode(o, tag, 23)) ==
            tag % 0x80_0000 * 512 + index % 8 * 64 + offset % 64
  {
    hide Encode, Decode, Shl, Trunc, Pow2;
    var o := LittleEndian;
    DecodeThree(o, Encode(o, offset, 6), Encode(o, index, 3), Encode(o, tag, 23));
    DecodeEncode(o, offset, 6);
    DecodeEncode(o, index, 3);
    DecodeEncode(o, tag, 23);
    ShrIsDiv(offset, 6);
    ShrIsDiv(index, 3);
    ShrIsDiv(tag, 23);
    ShlIsTimes(Trunc(tag, 23), 3);
    ShlIsTimes(Trunc(index, 3) + Shl(Trunc(tag, 23), 3), 6);
    SmallPowers();
  }

  lemma PutAll(bits: seq<bool>, es: seq<bool>)
    requires |es| == |bits|
    ensures PutAt(bits, 0, es) == es
  {
  }

  lemma JoinBits(tag: nat, index: nat, offset: nat)
    ensures var o := LittleEndian;
            FormatBits(o, CACHE_ADDRESS.fields, [offset, index, tag]) ==
            Encode(o, offset, 6) + Encode(o, index, 3) + Encode(o, tag, 23)
  {
    hide Encode;
    var o := LittleEndian;
    var last := FormatBits(o, [TAG], [tag]);
    assert last == Encode(o, tag, 23) + FormatBits(o, [], []);
    assert [INDEX, TAG][1..] == [TAG] && [index, tag][1..] == [tag];
    assert FormatBits(o, [INDEX, TAG], [index, tag]) == Encode(o, index, 3) + last;
    assert CACHE_ADDRESS.fields[1..] == [INDEX, TAG] && [offset, index, tag][1..] == [index, tag];
  }

  /** Splitting an address and joining its fields gives the address back, and the block address
      used on a fetch, `address - offset`, is the one rebuilt from tag and index on a write-back. */
  lemma JoinAfterSplit(address: uint32)
    ensures var f := SplitAddress(address);
            && JoinAddress(f.tag, f.index, f.offset) == address
            && f.offset <= address
            && address - f.offset == JoinAddress(f.tag, f.index, 0)
            && (address - f.offset) % 64 == 0
  {
    hide JoinAddress;
    var f := SplitAddress(address);
    Recombine(address);
    JoinInRange(f.tag, f.index, f.offset);
    JoinInRange(f.tag, f.index, 0);
  }

  /** Joining any fields and splitting the address gives them back, each cut to its width. */
  lemma SplitAfterJoin(tag: nat, index: nat, offset: nat)
    ensures SplitAddress(JoinAddress(tag, index, offset)) ==
            AddressFields(tag % 0x80_0000, index % 8, offset % 64)
  {
    Separate(tag % 0x80_0000, index % 8, offset % 64);
  }

  lemma Recombine(a: uint32)
    ensures a / 512 * 512 + a / 64 % 8 * 64 + a % 64 == a
  {
    assert a == a / 64 * 64 + a % 64;
    assert a / 64 == a / 512 * 8 + a / 64 % 8;
  }

  lemma JoinInRange(tag: nat, index: nat, offset: nat)
    requires tag < 0x80_0000 && index < 8 && offset < 64
    ensures JoinAddress(tag, index, offset) == tag * 512 + index * 64 + offset
  {
  }

  lemma Separate(t: nat, i: nat, f: nat)
    requires i < 8 && f < 64
    ensures var a := t * 512 + i * 64 + f;
            a / 512 == t && a / 64 % 8 == i && a % 64 == f
  {
    var a := t * 512 + i * 64 + f;
    assert a / 64 == t * 8 + i;
  }

  // ---------------------------------------------------------------- the two functions

  method DeserializeAddress(address: uint32) returns (f: AddressFields)
    ensures f == SplitAddress(address)
  {
    hide Bits, HostBytes, ReadFields, Decode, CastAll, GoodReads, Pow2, Total;
    var reader := new BitReader.OfInteger(LittleEndian, address, 4);
    var outputs := new nat[3](_ => 0);
    FormatShape();
    CodecSplits(address);
    var r := reader.DeserializeInto(CACHE_ADDRESS, outputs, [Integer(32), Integer(32), Integer(32)]);
    var values := AddressRun(address).values;
    assert values[0] < 64 && values[1] < 8 && values[2] < 0x80_0000;
    Fits(values);
    f := AddressFields(outputs[2], outputs[1], outputs[0]);
  }

  /** The casts to 32-bit variables lose nothing. */
  lemma Fits(values: seq<nat>)
    requires |values| == 3 && forall i | 0 <= i < 3 :: values[i] < 0x1_0000_0000
    ensures CastAll(values, [Integer(32), Integer(32), Integer(32)]) == values
  {
    hide Trunc, Pow2;
    Pow2Values();
    forall i | 0 <= i < 3
      ensures Trunc(values[i], 32) == values[i]
    {
      TruncSmall(values[i], 32);
    }
  }

  method SerializeAddress(tag: uint32, index: uint32, offset: uint32) returns (address: uint32)
    ensures address == JoinAddress(tag, index, offset)
  {
    hide Bits, Serialize, BufferNumber, Decode, Pow2, FormatBits;
    var memory := new byte[4];
    var writer := new BitWriter(LittleEndian, memory);
    Pow2Values();
    Pow2Monotone(32, 64);
    var r := writer.Serialize(CACHE_ADDRESS, [offset, index, tag]);
    NumberIsDecode(LittleEndian, memory[..]);
    CodecJoins(tag, index, offset);
    address := BufferNumber(LittleEndian, memory[..]);
  }
}
