# Bit fields and a cache built on them, verified

This project models two linked parts of the repository.

**The bit stream codec.** A cursor moves bit by bit over a byte buffer in big-endian or
little-endian wire order and assembles or deposits fields of 1 to 64 bits. On top sit byte-aligned
fast paths, skip and align, whole-format `serialize`/`deserialize` driven by a table of widths,
access to one field by name or by byte span, and the compile-time twins that report errors by
value. The classes `BitReader`, `BitWriter`, `ConstexprBitReader` and `ConstexprBitWriter` run the
original loops over byte arrays with masks, shifts and ors; each method is proved against a
transition on `Streams.Stream`, a sequence of bits with a cursor. The laws are then proved about
those transitions.

**The direct-mapped write-back cache.** `DirectMapCache` and `BackingMemory` split and rebuild
every address with the codec. Their methods are proved against the steps in `CacheModel`, and the
laws of runs are proved about those steps.

How to read it: `Words` and `Streams` (bits, bytes, orders, one operation), `Numbers` (a buffer as
one number), `Formats`, `FormatStreams`, `FormatLaws`, `FieldLaws` (formats and fields),
`CallLaws` (single calls against each other), `Comparisons` (whole packets), `Scripts`, `ScriptRuns`
(runs of calls), `ConstexprStreams`, `Twins`, `TwinRuns`, `Packets` (the two variants), `CacheAddresses`, `CacheModel`, `CacheInvariants`,
`CacheTransparency`, `CacheRuns`, `CacheHistory`, `CacheSwap`, `CacheTraffic`. Machine words
are naturals with explicit bounds; `|`, `&`, `<<`, `>>` are defined on them bit by bit, with
`ShlIsTimes` and `ShrIsDiv` giving their arithmetic meaning. Exceptions are `Result` values.

Two properties are false as one might first state them. Each has a lemma at an input where it
fails and a lemma with the exact condition, in both directions and for all inputs.

- *Reading back what was written, call by call.* The reader skips padding whose width the writer
  refuses: a format of one field `_pad` of width 0 throws when serialized and returns when
  deserialized (`Scripts.MirrorFails`). A whole run is mirrored if and only if reader and writer
  stop together in every format the run has room for, which widths, names and the buffer size
  decide before any call (`Scripts.ScriptMirrors`; for one call `Scripts.MirrorFormat`).
- *Comparing bytes instead of checking fields.* A value too wide for its field is truncated into
  the packet (`Comparisons.WideValueParts`), padding bits are compared but not checked
  (`Comparisons.PaddingParts`; include/bit_fields/formats.h:57 and 121 have such fields), and so are
  the bits behind a format that does not fill its last byte (`Comparisons.HalfByteParts`). Comparing
  with any bytes accepts the same buffers as checking the fields if and only if every bit of the
  format is checked, every value fits its field and the bytes are exactly the bits of the format
  (`Comparisons.FastComparisonExact`). For bytes that were serialized that is: no padding, distinct
  names, values that fit, and a format that fills the bytes to the last bit
  (`Comparisons.PacketComparisonExact`).

The comment at include/bit_fields/bitstream.h:33 says padding fields are skipped during
parsing and serialization; the code writes the value it is given for them
(include/bit_fields/bitstream.h:492-498), and the model follows the code.

The cache's steps name the parts of an address by division. That this is what the codec computes is
not assumed: `CacheAddresses.CodecSplits` and `CodecJoins` prove it of the bit loops for every address
and all fields, and the cache's methods obtain every address through `DeserializeAddress` and
`SerializeAddress`, which run a `BitReader` and a `BitWriter` over the address's memory.

## Model

| member | source | states |
|---|---|---|
| Streams.DecodeEncode | include/bit_fields/bitstream.h:216-233 | reading back the n stream bits written for a value gives its low n bits, in both orders |
| Streams.EncodeDecode | include/bit_fields/bitstream.h:462-480 | writing back the number read from any bits reproduces exactly those bits |
| Streams.SetBit | include/bit_fields/bitstream.h:464-468 | or-ing the byte mask of a stream position sets that stream bit and no other |
| Streams.AssembledIsDecode | include/bit_fields/bitstream.h:214-236 | or-ing one value mask per set bit, in stream order, assembles the number the window stands for, and it fits 64 bits |
| Streams.BitsInjective | include/bit_fields/bitstream.h:218-220 | two buffers with the same stream bits are the same bytes, so a statement about bits pins the buffer |
| Streams.AlignedIsBitwise | include/bit_fields/bitstream.h:350-376 | off a byte boundary both aligned calls throw a logic error and move nothing; at one, overwriting the window is the bitwise write when only zeros lie ahead. That the read's byte loops compute the bitwise read is stated on `BitReaders.BitReader.ReadAligned` |
| Streams.AlignedNeedsZeroTail | include/bit_fields/bitstream.h:515-526 | the two writers agree on every value if and only if the window is all zeros |
| Streams.PutThenWindow | include/bit_fields/bitstream.h:531-537 | a stored field is what its window holds, bits behind the cursor stay, and the zero tail is kept |
| BitReaders.BitReader.constructor | include/bit_fields/bitstream.h:174-175 | a reader starts at bit 0 of its buffer |
| BitReaders.BitReader.OfInteger | include/bit_fields/bitstream.h:177-182 | a reader over an integer sees its little-endian host memory |
| BitReaders.BitReader.ReadBitsRuntime | include/bit_fields/bitstream.h:206-237 | the bit loops return the number of the next n stream bits and advance by n; width is checked before space, and an error leaves the cursor |
| BitReaders.BitReader.ReadField | include/bit_fields/bitstream.h:243-260 | seek and read by name, including the seek that stays when a width over 64 is refused |
| BitReaders.BitReader.Deserialize | include/bit_fields/bitstream.h:264-280 | the values, cursor or exception of a whole format, with the cursor left mid-format by a refused width |
| BitReaders.BitReader.DeserializeInto | include/bit_fields/bitstream.h:325-345 | every variable up to the first field that cannot be read gets 0 for padding, else, for an integer, the low bits of the field bit by bit and, for a boolean, whether any bit of the field is set; the others are untouched; cursor and exception as for the whole format |
| Comparisons.VerifyOutcome | include/bit_fields/bitstream.h:283-292 | accepts if and only if every expected name is known and has its value; otherwise the first entry that does not hold decides between false and an exception |
| BitReaders.ParsedPacket.GetByName | include/bit_fields/bitstream.h:110-116 | the value of the first field of that name, or an exception for an unknown name |
| BitReaders.BitReader.VerifyExpected | include/bit_fields/bitstream.h:283-292 | checks run in table order; the first mismatch or unknown name decides |
| BitReaders.BitReader.ReadAligned | include/bit_fields/bitstream.h:348-376 | the byte loops give the number of the window's bits and advance by whole bytes; alignment is checked before space; at a byte boundary the call does what the bitwise read of as many bits does, errors included |
| BitReaders.BitReader.SkipBits | include/bit_fields/bitstream.h:379-384 | moves the cursor inside the buffer or throws and leaves it |
| BitReaders.BitReader.AlignToByte | include/bit_fields/bitstream.h:387-391 | moves to the next byte boundary at or after the cursor |
| BitReaders.BitReader.SpanOfField | include/bit_fields/bitstream.h:157-173 | the byte range of a named field, or the empty span |
| BitWriters.BitWriter.constructor | include/bit_fields/bitstream.h:422-426 | zero-fills the buffer, so every bit from the cursor on is zero |
| BitWriters.BitWriter.WriteBitsRuntime | include/bit_fields/bitstream.h:454-481 | the bit loops or exactly the value's n bits into the stream and change no other bit |
| BitWriters.BitWriter.Serialize | include/bit_fields/bitstream.h:485-499 | writes field after field, padding included, and stops at the first refused width with the earlier fields written |
| BitWriters.BitWriter.WriteAligned | include/bit_fields/bitstream.h:502-529 | the byte stores leave the same stream bits as encoding the value, and no other byte changes; at a byte boundary with only zeros ahead the call does what the bitwise write does, errors included |
| BitWriters.BitWriter.SpanOfField | include/bit_fields/bitstream.h:405-421 | the byte range of a named field, or the empty span |
| BitWriters.StoredByte | include/bit_fields/bitstream.h:517-525 | byte i of an aligned store carries stream bits 8i to 8i+7 of the value, in either order |
| Numbers.NumberIsDecode | include/bit_fields/bitstream.h:364-372 | the number spelled by a buffer's bytes is the number its stream bits decode to |
| Numbers.ReadMeansDigit | include/bit_fields/bitstream.h:214-236 | with the buffer as one number V, a read of n bits at p is (V >> (8L-p-n)) or (V >> p), kept to n bits |
| Numbers.WriteMeansAdd | include/bit_fields/bitstream.h:462-480 | writing a value into zeros adds its low n bits at the field's weight to V |
| Numbers.ReadSplits | include/bit_fields/bitstream.h:206-237 | one read of a+b bits is a read of a followed by a read of b, joined by a shift |
| Numbers.HostNumber | include/bit_fields/bitstream.h:177-182 | the little-endian host memory of an integer spells the integer |
| Formats.PacketFormat.TotalBits | include/bit_fields/bitstream.h:51-57 | the loop sums all widths |
| Formats.PacketFormat.FieldIndex | include/bit_fields/bitstream.h:60-67 | finds the first field of that name, if any |
| Formats.PacketFormat.BitOffsetOf | include/bit_fields/bitstream.h:70-80 | the widths before the first field of that name |
| Formats.PacketFormat.FieldWidth | include/bit_fields/bitstream.h:83-91 | the width of the first field of that name |
| Formats.PacketFormat.TotalBytes | include/bit_fields/constexpr_bitstream.h:46-48 | the fewest whole bytes that hold the format |
| Formats.FieldsDisjoint | include/bit_fields/bitstream.h:70-80 | two different fields share no bit, and every field ends inside the total |
| FormatLaws.DeserializeOutcome | include/bit_fields/bitstream.h:265-280 | succeeds if and only if the format fits and every non-padding width is 1 to 64; then gives each field's value; otherwise the exact cursor and exception |
| FormatLaws.SerializeOutcome | include/bit_fields/bitstream.h:487-499 | succeeds if and only if the format fits and every width is 1 to 64; then ors exactly the fields' bits; otherwise the exact partial state |
| FormatLaws.AllOrNothing | include/bit_fields/bitstream.h:265-280 | for widths 1 to 64 the one check on the total decides both directions, success advances by the total, failure changes nothing |
| FormatLaws.ValuesAt | include/bit_fields/bitstream.h:271-278 | value i is what the bits at the sum of the earlier widths decode to, or 0 for padding |
| FormatLaws.CastAssigns | include/bit_fields/bitstream.h:335-341 | one field cast to one variable: the low bits, whether any bit is set, or 0 for padding |
| FormatLaws.CastAllAssigns | include/bit_fields/bitstream.h:335-341 | casting a pass's values to the variables' types has that effect, for targets of any width |
| FormatLaws.DeserializeAfterSerialize | include/bit_fields/bitstream.h:487-499 | values come back cut to their widths, padding as 0, and the reader ends where the writer did |
| FormatLaws.SerializeAfterDeserialize | include/bit_fields/bitstream.h:265-280 | rewriting deserialized values reproduces the format's bits with exactly the padding bits cleared |
| CallLaws.SkipIsPadding | include/bit_fields/bitstream.h:379-384 | skipping n bits is deserializing one padding field of width n: same cursor, out of range past the end |
| CallLaws.ReadIsOneField | include/bit_fields/bitstream.h:206-213 | reading n bits is deserializing one field of width n, out of range past the end; a width outside 1 to 64 is an invalid argument even where there is no room |
| CallLaws.WriteIsOneField | include/bit_fields/bitstream.h:454-461 | writing n bits is serializing one field of width n, with the same refusals |
| CallLaws.WriteSets | include/bit_fields/bitstream.h:462-481 | on any buffer a bitwise write sets the bits of its window that the value sets and changes no other bit |
| CallLaws.AlignedRoundTrip | include/bit_fields/bitstream.h:502-529 | on any buffer an aligned write makes its window read as the value and changes no bit outside it |
| CallLaws.PaddingNames | include/bit_fields/bitstream.h:34-36 | for widths 1 to 64: a field of a deserialized packet is 0 for all buffers if and only if its name starts with an underscore or is "reserved" or "padding"; otherwise it is what its bits decode to |
| Scripts.WriterStepExtends | include/bit_fields/bitstream.h:454-544 | every writer call, failing or not and of any aligned size, keeps the bits behind the cursor and the zeros ahead of it |
| Scripts.WriterStepCursor | include/bit_fields/bitstream.h:454-544 | where a writer call leaves the cursor follows from the buffer size, the cursor and the widths alone |
| Scripts.MirrorFormat | include/bit_fields/bitstream.h:271-278 | reading a format back mirrors writing it if and only if both stop at the same field, or only zero-width padding lies between the fields they stop at |
| Scripts.MirrorFails | include/bit_fields/bitstream.h:271-278 | an input where the mirror fails: padding of width 0 is refused by the writer and skipped by the reader |
| Scripts.ScriptMirrors | include/bit_fields/bitstream.h:206-391 | for any sequence of bitwise, aligned, whole-format, skip and align calls: the mirrored reader has equal cursors at every step, every value back cut to its width and the same exception at the same call, if and only if reader and writer stop together in every format the run has room for, which widths, names and the buffer size decide beforehand |
| Scripts.ScriptRoundTrip | include/bit_fields/bitstream.h:206-391 | so every sequence whose padding has widths of 1 to 64 makes the round trip |
| ScriptRuns.WriteThenRead | include/bit_fields/bitstream.h:206-544 | the same of the classes: any calls on a writer and their mirror on a reader over its buffer, with every cursor and reply logged |
| FieldLaws.ReadNamedOutcome | include/bit_fields/bitstream.h:244-260 | from any cursor q, succeeds if and only if the width is 1 to 64 and q + offset + width fits; the state left by each failure |
| FieldLaws.ReadNamedValue | include/bit_fields/bitstream.h:244-260 | whenever reading by name succeeds, padding or not and whatever the rest of the format, the value is the digit of the buffer's number at the field's place |
| FieldLaws.ReadNamedAgrees | include/bit_fields/bitstream.h:244-280 | whenever it succeeds it gives what the name gives in the whole deserialized packet |
| FieldLaws.GetOutcome | include/bit_fields/bitstream.h:110-116 | looking a name up in a packet gives the value of the first field of that name |
| FieldLaws.SpanCoversField | include/bit_fields/bitstream.h:158-173 | the span is the one run of whole bytes in the buffer that is the field, wherever there is such a run, and empty where there is none |
| FieldLaws.SpanSpellsField | include/bit_fields/bitstream.h:158-173 | the span's bytes spell the value that reading the field by name gives, in either order |
| FieldLaws.StoreThroughSpan | include/bit_fields/bitstream.h:406-421 | storing any bytes through a field's span changes the value of no other field |
| FieldLaws.StoredValueIsRead | include/bit_fields/bitstream.h:406-421 | the field then reads as the number of the stored bytes |
| Comparisons.FastIsSlow | README.md:444-473 | for a format whose every bit is checked, values in range and a packet that is the bits of the format, comparing the packet's bytes accepts exactly the buffers that deserializing and checking every field accepts |
| Comparisons.SlowIsPrefix | README.md:468-473 | for such a format and values, whole bytes or not, checking the fields accepts exactly the buffers that start with the bits of the format |
| Comparisons.FastComparisonExact | README.md:444-473 | for every format, every values and any bytes to compare with: the two accept the same buffers if and only if every field is either one the bit loop reads and the first of its name or padding without bits, every value fits its field, and the bytes are exactly the bits of the format |
| Comparisons.PacketComparisonExact | include/bit_fields/constexpr_bitstream.h:312-328 | for bytes of any length left by a successful serialization: if and only if no field is padding, names are distinct, values fit and the format fills the bytes to the last bit |
| Comparisons.WideValueParts | include/bit_fields/constexpr_bitstream.h:312-328 | an input where they part: an 8-bit field expected to be 256, whose packet is one zero byte |
| Comparisons.PaddingParts | include/bit_fields/bitstream.h:271-278 | an input with values in range where they part: padding bits set in the buffer |
| Comparisons.HalfByteParts | include/bit_fields/constexpr_bitstream.h:46-48 | an input without padding and with a value in range where they part: a 4-bit field in one byte, the other half set in the buffer |
| ConstexprBitReaders.ConstexprBitReader.ReadBits | include/bit_fields/constexpr_bitstream.h:135-165 | the compile-time bit loops give the same number, or nullopt with the cursor unmoved |
| ConstexprBitReaders.ConstexprBitReader.Deserialize | include/bit_fields/constexpr_bitstream.h:195-221 | values filled in place, and the partial, invalid packet left by a failing field |
| ConstexprBitReaders.ConstexprBitReader.SkipBits | include/bit_fields/constexpr_bitstream.h:224-230 | moves the cursor or answers false |
| ConstexprBitWriters.ConstexprBitWriter.WriteBits | include/bit_fields/constexpr_bitstream.h:272-300 | ors exactly the value's bits, or answers false and changes nothing |
| ConstexprBitWriters.ConstexprBitWriter.Serialize | include/bit_fields/constexpr_bitstream.h:310-328 | writes until the ok flag is lost, passing over the remaining fields |
| Twins.WritersAreTwins | include/bit_fields/constexpr_bitstream.h:272-344 | in every run of shared calls both writers hold the same bits and cursor after each call, and false is answered exactly where the other throws |
| TwinRuns.WriteBoth | include/bit_fields/constexpr_bitstream.h:272-344 | the same of the classes: both writers run side by side end with the same bytes, with equal cursors and matching answers after each call |
| Twins.ReadersAreTwins | include/bit_fields/constexpr_bitstream.h:135-237 | in every run both readers are at the same cursor with the same values after each call; nullopt, false or an invalid packet exactly where the other throws, and such a packet holds the values read from where the call started up to the failing field and zeros from it on |
| TwinRuns.ReadBoth | include/bit_fields/constexpr_bitstream.h:135-237 | the same of the classes: both readers run side by side over any bytes, with equal cursors and matching results after each call |
| Twins.DeserializeTwin | include/bit_fields/constexpr_bitstream.h:195-221 | one whole-format read: same cursor, valid exactly where the other returns; the packet holds the values read before the failing field and zeros from it on |
| Twins.ConstexprDataIsPacket | include/bit_fields/constexpr_bitstream.h:310-328 | the bytes of a compile-time writer of any size are the packet the run-time writer leaves, so comparing with them is exact under the condition of `Comparisons.PacketComparisonExact` |
| Packets.BuildPacket | README.md:452-466 | builds the bytes with the compile-time writer: the fewest bytes for the format, ok if and only if every width is 1 to 64, the packet of the values, and once ok the exact condition for comparing with them, whole bytes included |
| CacheAddresses.CodecSplits | examples/cache_example.h:39-44 | deserializing the address format from any address's memory gives exactly its quotient by 512, its next 3 bits and its remainder by 64 |
| CacheAddresses.CodecJoins | examples/cache_example.h:47-52 | serializing any three fields into a zeroed variable gives exactly the weighted sum of the fields cut to their widths |
| CacheAddresses.JoinAfterSplit | examples/cache_example.h:39-52 | joining a split address gives it back, and address minus offset is the line address rebuilt from tag and index, a multiple of 64 |
| CacheAddresses.SplitAfterJoin | examples/cache_example.h:39-52 | splitting joined fields gives them back modulo 2^23, 8 and 64 |
| CacheAddresses.DeserializeAddress | examples/cache_example.h:39-44 | the function running a reader over the address's memory returns the codec's fields, the casts losing nothing |
| CacheAddresses.SerializeAddress | examples/cache_example.h:47-52 | the function running a writer over a zeroed variable returns the codec's address |
| BackingMemories.BackingMemory.LineAt | examples/cache_example.cpp:28-30 | gives the block stored there, or 64 zero bytes, which it then inserts |
| CacheModel.UnstoredIsZero | examples/cache_example.cpp:28-30 | a byte of a block never stored is zero |
| BackingMemories.BackingMemory.constructor | examples/cache_example.h:61-77 | a new memory holds zero at every address |
| BackingMemories.BackingMemory.WriteByte | examples/cache_example.cpp:32-41 | changes the byte at that address and no other |
| BackingMemories.BackingMemory.ReadByte | examples/cache_example.cpp:43-51 | returns the byte and changes none |
| BackingMemories.BackingMemory.FetchLine | examples/cache_example.cpp:53-59 | returns the bytes at the 64 addresses of the block, changes none, and records one fetch |
| BackingMemories.BackingMemory.StoreLine | examples/cache_example.cpp:61-68 | changes exactly the bytes at the 64 addresses of the block, and records one store |
| DirectMapCaches.DirectMapCache.constructor | examples/cache_example.cpp:72 | eight invalid, clean, zero-filled lines and zero counters over the given memory |
| DirectMapCaches.DirectMapCache.Read | examples/cache_example.cpp:74-103 | the whole state and the byte after a hit, a clean miss or a miss with write-back |
| DirectMapCaches.DirectMapCache.Write | examples/cache_example.cpp:105-132 | the whole state after a write hit or a write-allocate miss |
| DirectMapCaches.DirectMapCache.Flush | examples/cache_example.cpp:134-147 | the whole state after the loop over all lines |
| DirectMapCaches.DirectMapCache.Evict | examples/cache_example.cpp:186-199 | writes back a dirty line to the rebuilt address and invalidates it |
| CacheInvariants.ReadIsAccess | examples/cache_example.cpp:74-103 | a read is one update of its line and returns the byte held by line or memory, because an evicted block is never the fetched one |
| CacheInvariants.WriteIsAccess | examples/cache_example.cpp:105-132 | a write is one update of its line, leaving it valid and dirty |
| CacheInvariants.StepInv | examples/cache_example.cpp:74-147 | every operation keeps: dirty implies valid, valid clean lines equal their memory block, tags have 23 bits |
| CacheInvariants.StepKeys | examples/cache_example.cpp:74-147 | every key an operation adds to the memory is a multiple of 64, none is lost, and a miss leaves its block in the memory |
| CacheInvariants.AccessHeld | examples/cache_example.cpp:74-132 | an access changes what is held for its own block by the written byte, and for no other block |
| CacheTransparency.CacheIsTransparent | examples/cache_example.cpp:74-147 | a fresh cache over any initial memory answers every sequence of reads, writes and flushes as a flat 2^32-byte memory, and ends holding the same bytes |
| CacheRuns.RunAndFlush | examples/cache_example.cpp:210-271 | running the cache class, with the codec's bit loops under it, over any memory and any operations and then flushing returns what a flat memory returns and leaves its bytes in the backing memory |
| CacheRuns.Simulate | examples/cache_example.cpp:210-271 | a new memory, any bytes written into it, any operations through a cache and a last flush: the answers and the bytes left are those of 2^32 zeros with the same bytes written |
| CacheTransparency.FlushSettles | examples/cache_example.cpp:134-147 | after a flush no line is dirty and memory alone holds every byte; its stores go up through the lines, at most one each; a second flush changes and stores nothing |
| CacheHistory.HitOracle | examples/cache_example.cpp:81-128 | an access hits if and only if the latest earlier access with its index had its tag; both counters follow from the address trace, modulo 2^32 |
| CacheHistory.FlushInsertion | examples/cache_example.cpp:134-147 | a flush put anywhere into a run changes no value read, no counter and no line's validity, tag or data |
| CacheSwap.AccessesCommute | examples/cache_example.cpp:74-132 | two accesses to different lines give the same lines, memory, counters and returned bytes in either order |
| CacheSwap.SwapInRun | examples/cache_example.cpp:74-132 | so does swapping them anywhere inside a run |
| CacheTraffic.TrafficAccounting | examples/cache_example.cpp:88-145 | fetches are exactly the misses; stores plus dirty lines are exactly the writes that found their line absent or clean, at most the writes; hits plus misses are the accesses modulo 2^32 |
| CacheTraffic.AccessTransfers | examples/cache_example.cpp:81-132 | the transfers of one access in order: none on a hit; on a miss the evicted block's store if it is dirty, at its own address, then the fetch of the block of the address |

## Left out

- Printing and logging, `dump`, `print_stats` and its floating-point rate, and both `main` programs: output only. The order of line fetches and stores, which the original prints, is kept as a ghost log.
- `ConstexprBitReader::read_field` (include/bit_fields/constexpr_bitstream.h:179-191): it assigns an optional to a size and cannot be instantiated, so it has no behaviour.
- BitReaders.BitReader.ReadAligned: does not model the 8-byte little-endian instance, whose shift of a promoted `int` by 32 or more (include/bit_fields/bitstream.h:370) has no defined result; `Scripts.HasMirror` excludes the same call from a reader's run; the writer's instance is modelled.
- Wrap-around of `size_t` in positions: cursors, widths and totals are unbounded naturals.
- BitReaders.BitReader.OfInteger: fixes a little-endian host, since the original views host memory.
- The predicate overload of `verify_expected` and `assert_expected`: they differ from the modelled check only in the comparison made.
- Writes to `BackingMemory` that bypass the cache while lines are cached: the cache has no coherence mechanism for them; they may set up the initial memory.
- Bit writes over a region already stored to through the writer's span: such stores break the zero tail, and only their effect on the other fields is stated.
- `unordered_map`: a finite map whose absent blocks read as zeros.
- A span into part of a larger array: a reader or writer is given the whole array it views, and a field span is a start and a length in it.
- The predefined format tables, aliases and template plumbing: constants and wrappers, covered by laws over arbitrary formats.
