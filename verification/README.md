# RPCNIC host library: serializers, class table, page pool and asynchronous copies

This project models the host side of RPCNIC in Dafny and proves properties of it. A message is a tree
of objects described by per-class metadata. Four walks over the tree have to agree: one predicts the
size, one writes the short fields inline, one fills a class table for the device and streams the long
strings out in 64-byte lines, and one parses the inline stream with that table. Beside them stand the
base-128 arithmetic they rest on, a nested length-prefixed form of the same messages, the allocator of
the huge-page pool with its address translation, and the writers that hand long strings to a copy
engine.

| file | content |
|---|---|
| Words.dfy, Buffer.dfy | machine words, little-endian images, in-place writes through a cursor |
| Varint.dfy | base-128 varints, their size formula, the subtract-one decoder, ZigZag |
| Messages.dfy | schemas, messages, well-typedness, the leaves of a tree in walk order |
| Wire.dfy | the bytes of one field in both codecs, reading it back, side-stream blocks |
| Walk.dfy | the two streams of a tree: size prediction, partition, framing |
| ClassTable.dfy | the class table and counters after the metadata walk |
| Reader.dfy | the parser as a function; round trip and merge |
| Agreement.dfy | what the table must say for a field to come back; both streams come back exactly when objects of one class agree |
| Shape.dfy | the same for the inline stream alone, over all contents of a tree |
| Disagreement.dfy | two concrete trees that disagree: one loses data, one comes back by accident |
| Fixed.dfy | reading the fixed-width codec back |
| Device.dfy | what the device reads out of the class table |
| Serializer.dfy | the walks as loops over an in-place buffer |
| Sender.dfy | the metadata walk as a class with the state it updates |
| Nested.dfy, NestedReader.dfy | the nested length-prefixed form, written and read back |
| Allocator.dfy, Translation.dfy | the page pool and its address translation |
| AsyncCopy.dfy, AsyncWalk.dfy | asynchronous string copies, and the tree walk that makes them |

The functions say what is computed and the lemmas prove what it is for; the methods follow the loops of
the source and their `ensures` ties each to its function.

## Reading of the source

- The twenty-four wire types handled by the switches are thirteen single kinds, ten repeated kinds and
  the child pointer; the type of a field description admits no others. Child pointers are never null.
- The metadata pointer of an object is the entry of its class in `metadataVec`. Field ids are chars
  (0 to 127); where the class table is involved they are distinct within a class and at most 45, and
  class ids are below 65536.
- Strings are shorter than 2^31 and repeated payloads shorter than 2^32 bytes where something is read
  back (`Wire.InLimits`). Size prediction and framing need no such bound.
- The readers of the fixed-width codec, of the side stream, of the nested form and of the registers are
  definitions of this project: the repository has no code for the first, and the others run on the device
  or at the receiver. They are written without the writers they read.
- Buffers handed to the writers are large enough. The parser of the source checks no bounds; a read past
  the end of the data is `Bad` here, like an over-long varint.
- The parser follows every child pointer into the class the table names. Meeting a class that is already
  being parsed would recurse for ever, so it is `Bad` too; `Reader.NoClassBelowItself` shows that this
  never happens on a table that describes a finite tree.
- The object handed to the parser is freshly created, so unparsed strings are empty.
- The pool is mapped at a non-zero, page-aligned address. `MemCtl::free` takes `std::prev` of an iterator
  that is `begin()` when no free chunk starts below the pointer (utils/QDMAController.cpp:301), which is
  undefined. `Allocator.Freed` reads this case as "no predecessor". It arises exactly when the pool is
  not full and every byte below the pointer belongs to a live allocation (`Allocator.UndefinedPrevExact`,
  at every moment of every run of good requests), and `Allocator.UndefinedPrevIsReached` gives a run of
  valid requests that gets there in every larger pool.
- A submitted copy may land byte by byte, in any order, at any later moment, until it is waited for. The
  source string does not change meanwhile, and there are enough job slots.

## Where the code does not do what one would expect

- `alloc` of zero bytes (or of more than 2^64 - 64, which wraps) breaks the pool's invariant exactly when
  something is free (`Allocator.AllocInvExact`), and can overwrite the record of a live allocation
  (`Allocator.ZeroRequestForgets`), which a later `free` then drops for good (`Allocator.ZeroRequestLeaks`).
- The 16-bit field length is the length of the field exactly when that is below 65536
  (`Wire.PrefixExact`, `Walk.TreeFraming`); the parser ignores it
  (`Reader.HeadersIgnored`), so the round trip does not need this. In the fixed-width codec the prefix and
  the length of a list count one byte per bool where four are written, so the prefix is also wrong for
  every field that holds a bool (`Fixed.PrefixExact4`).
- The class table has one entry per class, so one object's long string hides another's short one. The two
  streams of a tree come back together if and only if objects of one class agree on which strings are long
  and on the classes of their children (`Agreement.SplitExact`); no table describes objects that disagree
  (`ClassTable.ClassTableRight`), the last object visited decides
  (`ClassTable.SendLast`). What the host parser loses without agreement: every tree in which the
  final table skips a short, non-empty string (`Agreement.HiddenIsLost`, with a concrete tree in
  `Disagreement.DisagreementLosesData`) and every tree with two child classes
  (`Agreement.ChildClassIsLost`). Agreement is not necessary for the inline stream of a single tree, which
  can come back by accident (`Disagreement.AccidentalReturn`); it is necessary and sufficient for all trees
  of a shape to come back, whatever their fields contain (`Shape.ShapeExact`).
- The asynchronous walk writes a list of bytes with another tag and a count where the synchronous walk
  writes a length (test_suite/dsa_offload/dsa_no_encode_main.h:700, include/no_encode_main.h:1538), so the
  two buffers are equal exactly if no list of bytes is written (`AsyncWalk.AsyncTreeExact`).
- The tag of a list of bytes in `WriteRepeatedBytesToArray` carries the right field number only if the two
  low bits of the id are set (`AsyncCopy.RepeatedBytesTagMeaning`).
- In the nested form a child's length is truncated to 32 bits: a message comes back exactly when every
  child in it is shorter than 2^32 bytes (`NestedReader.NestedExact`).
- `sint32` fields are written without ZigZag, as a comment at include/encode_main.h:230 says; the ZigZag
  writer and reader exist and are inverse to each other, but no walk calls them.

## Model

| member | source | states |
|---|---|---|
| Varint.DecodedMeaning | include/decode.h:29-88 | On every byte string the plain decoder returns the sum of the low septets up to the first byte without continuation bit, and fails exactly when ten bytes in a row carry it (or the data ends first) |
| Varint.VarintParse | include/decode.h:73-88 | The two-byte fast path and the slow loops agree with the plain decoder, value modulo the word and bytes consumed, on every byte string and for both widths |
| Varint.VarintParseSlow32 | include/decode.h:29-46 | From the accumulator of two continued bytes the 32-bit loop returns the plain decoder's result, ignoring bytes beyond the fifth |
| Varint.VarintParseSlow64 | include/decode.h:48-59 | The same for the 64-bit loop over ten bytes |
| Varint.AccumulateStep | include/decode.h:31-37 | Adding (byte - 1) shifted keeps the accumulator equal to the septets so far plus the carry of the continuation bit, in wrapping arithmetic |
| Varint.UnsafeVarint | include/encode.h:139-163 | The in-place writer leaves exactly the base-128 encoding at the cursor and nothing else changed |
| Varint.VarintRoundTrip | include/decode.h:73-88 | Every 64-bit value is recovered in front of any suffix by either reader, truncated to its word |
| Varint.VarintSizeExact | include/encode.h:60-78 | The multiply-and-shift formula gives the number of bytes written, at most ten |
| Varint.EncodedLength | include/encode.h:60-78 | The encoding has floor(log2)/7 + 1 bytes |
| Varint.Int32RoundTrip | include/encode.h:175-189 | A negative int32 takes ten sign-extended bytes and the 32-bit reader recovers it |
| Varint.SInt32RoundTrip | include/decode.h:137-141 | The ZigZag writer and the 64-bit ZigZag reader are inverse on int32 |
| Varint.ZigZagBijection | include/encode.h:34-43 | ZigZag is a bijection in both widths and maps n to 2n or -2n - 1 |
| Words.LittleEndianWeights | include/encode.h:165-173 | In the image of a word the byte at index i has the weight 256^i |
| Wire.BodySizeExact | include/encode_main.h:108-409 | The size added for a field is the number of bytes its writer writes, in both codecs and for values of any length |
| Wire.PrefixExact | include/encode_main.h:1249-1265 | The accumulated uint16 prefix equals the body length if and only if the body is shorter than 65536 bytes |
| Wire.PrefixWraps | include/encode_main.h:1249-1265 | For bodies of any length the prefix is the length reduced to 16 bits, up to the size at which a list counts its own truncated length |
| Wire.SignExtended | include/encode.h:175-222 | A number not copied is written as 64 bits: a 64-bit reader gets it back with its sign, and a negative one of any width takes ten bytes |
| Wire.TextLengthTruncates | include/encode.h:431-436 | In front of a string of any size stands its size reduced to 32 bits, in either codec |
| Wire.TextExact | include/encode_main.h:1758-1766 | A string comes back if and only if it is shorter than 2^31 bytes |
| Wire.ItemsStop | include/encode_main.h:1592-1602 | On any bytes the element loop returns all elements that start before the length, the last of which may end beyond it, and fails exactly when one of them cannot be read |
| Wire.LongMeaning | include/encode_main.h:659-692 | A field is long if and only if one of its strings, wherever it stands in a list, takes more than 1026 bytes inline |
| Wire.BlockLayout | include/encode_main.h:659-670 | A block byte for byte: the aligned size, 56 zeros, the string, zeros |
| Wire.LineLayout | include/encode_main.h:697-703 | The line in front of a list holds its count and 56 zeros |
| Wire.FrameRoundTrip | include/encode_main.h:1580-1833 | Header and payload of a framed field read back to the value, repeated bools as 0/1, for every kind and any suffix |
| Wire.TagDescribesPayload | include/encode.h:228-449 | Read back, every tag gives the field number and a wire type by which a reader without the schema steps over exactly that field |
| Wire.ItemsRoundTrip | include/encode_main.h:1592-1602 | The byte-counting element loop reads back exactly the elements that were written |
| Wire.SideRoundTrip | include/encode_main.h:649-720 | The blocks of a long field, last element first, decode to the padded strings in order |
| Wire.PaddingIsSmall | include/encode_main.h:656-668 | Padding appends fewer than 64 zeros and makes the length a multiple of 64 |
| Wire.SideSizeExact | include/encode_main.h:659-714 | A long field takes 64 bytes plus the aligned length per string, and 64 for a repeated field's count |
| Walk.SizePrediction | include/encode_main.h:108-409 | The predicted sum over all leaves is the length of the stream, for both codecs, both skip flags and the side stream |
| Walk.Partition | include/encode_main.h:649-793 | Every field is in exactly one of the inline and the side stream, and only strings or bytes are in the side stream |
| Walk.SkipFlagMatters | include/encode_main.h:1466-1541 | The skip flag changes the inline stream if and only if some string is long |
| Walk.TreeFraming | include/encode_main.h:1228-1555 | A scanner of the 16-bit prefixes recovers all frames of a tree's stream if and only if every body fits in 16 bits |
| Walk.Framing | include/encode.h:223-226 | The same for any list of leaves |
| Walk.SideStreamAligned | include/encode_main.h:649-793 | The side stream is a whole number of 64-byte lines |
| ClassTable.SendStream | include/encode_main.h:649-809 | At every depth the side stream grows by the long leaves' blocks in walk order and the byte counter by the same amount |
| ClassTable.ClassTableRight | include/encode_main.h:420-447 | After the walk exactly the classes of the tree have been written, with the right id, length sum and maximum field id; other classes are unchanged; every field entry has the kind bits, skip bit and child class of every object if and only if objects of a class agree |
| ClassTable.ClassBoundsTight | include/encode_main.h:420-426 | From 65535 and 0 the bounds come out as the least and greatest class id present |
| ClassTable.SendLast | include/encode_main.h:411-817 | For any tree, agreeing or not, every field entry of every class is the last one written in visiting order, and those never written are as before |
| ClassTable.EntryFromObject | include/encode_main.h:411-817 | For any tree the final entry of a field is that of some object of the class |
| ClassTable.SendShows | include/encode_main.h:794-816 | If objects of one class agree, then however often a class occurs the final entries describe every one of its objects |
| ClassTable.CoherentAgree | include/encode_main.h:659-672 | A table, however it came about, that describes every object of a tree makes objects of one class agree |
| ClassTable.EntrySkips | include/encode_main.h:659-672 | Bit 0 of the field type is clear exactly for long fields, and the type fits in a byte |
| Device.EntrySeen | src/chisel/rpcnic/Control.scala:106-109 | The bits the device cuts out of an entry say whether the field is inline, whether it is repeated, which kind it is by the list of hardware types, and the class of the child |
| Device.TablesAgree | src/chisel/serialiation/Interface.scala:46-92 | The device's wire type for an entry is the one in the host's tag, and its size is what the host adds to the class length, eight for a repeated field |
| Device.DeviceKinds | src/chisel/serialiation/Interface.scala:46-92 | After the walk of any tree the device finds the right kind and wire type in the entry of every field of every object |
| Device.DeviceSees | src/chisel/rpcnic/Control.scala:106-109 | If objects of one class agree it also finds which fields are inline and the class of every child |
| Device.MaxIdMeaning | include/encode_main.h:434-438 | The maximum field number is the largest id of the class, zero without fields |
| Device.LengthAgrees | include/encode_main.h:445-816 | The class length is the sum over the entries of an object by the device's sizes |
| Reader.NoClassBelowItself | include/encode_main.h:1810-1826 | In a finite tree described by one table no class occurs below itself, so the parser's recursion ends |
| Reader.HeadersIgnored | include/encode_main.h:1574-1583 | With any two length bytes and any tag in front a field comes back |
| Reader.SkippedNumber | include/encode_main.h:1574-1590 | On a number the skip bit means only that no header is read |
| Reader.SplitRoundTrip | include/encode_main.h:1566-1834 | If objects of one class agree: build the table, write either stream, parse it before any suffix, and the tree comes back with exactly the other stream's fields blank and repeated bools as 0/1, and the cursor stops at the suffix |
| Reader.PlainRoundTrip | include/encode_main.h:1566-1834 | If objects of one class agree, a message without long strings, repeated bools being 0 or 1, comes back unchanged with either skip flag |
| Reader.FieldsRoundTrip | include/encode_main.h:1572-1833 | The same with any table that describes the tree, for the fields still to be read at any point of the walk |
| Reader.MergeRoundTrip | include/encode_main.h:1574-1583 | If objects of one class agree, parsing both streams separately and merging by the skip bits recovers the whole message up to zero padding of long strings |
| Agreement.ParsedIsServed | include/encode_main.h:1574-1826 | Whatever the table and the bytes, a tree given back means every entry serves its object: it names the child's class, in the inline stream it skips only long or blank strings, in the side stream it skips every long one |
| Agreement.HiddenIsLost | include/encode_main.h:1758-1766 | If the table skips a string or list that is short and not empty, no bytes make the parser give the tree back |
| Agreement.ChildClassIsLost | include/encode_main.h:1810-1826 | If two objects of one class have children of different classes, no table and no bytes make the parser give the tree back |
| Agreement.SideRecoveredAgrees | include/encode_main.h:649-720 | No table and no bytes give the side stream of a tree back with the cursor where the writer stopped unless objects of one class agree |
| Agreement.SideExact | include/encode_main.h:411-817 | With the table the walk built, the side stream comes back before any suffix if and only if objects of one class agree |
| Agreement.SplitExact | include/encode_main.h:1566-1834 | Both streams of any tree come back, each before any suffix, if and only if objects of one class agree |
| Shape.InlineCursor | include/encode_main.h:1572-1833 | If no inline field starts like an empty string, any table that skips strings only and gives the fields back has the right entry for every object, and the cursor stops at the end |
| Shape.SendSkipsText | include/encode_main.h:794-816 | Whatever the table held before, the walk leaves entries that skip only strings and bytes for the classes of the tree |
| Shape.MarkedExact | include/encode_main.h:1566-1834 | A tree of which no inline field starts like an empty string comes back from the inline stream if and only if objects of one class agree |
| Shape.ShapeExact | include/encode_main.h:1566-1834 | Objects of one class agree if and only if every tree with the same classes and the same fields long comes back from the inline stream, whatever its fields contain |
| Disagreement.AccidentalReturn | include/encode_main.h:1758-1766 | Objects that disagree can come back from the inline stream: the frame of an empty string is read in place of a long one |
| Disagreement.DisagreementLosesData | include/encode_main.h:659-672 | A concrete input: two objects of one class, one string long and one short; the parser loses the short one and consumes nothing |
| Fixed.PayloadBack | include/no_encode.h:153-226 | Every value of every kind is read back from its fixed-width payload before any suffix: numbers from words of four or eight bytes, strings and lists behind a four-byte length |
| Fixed.PrefixExact4 | include/no_encode_main.h:1228-1555 | In the fixed-width codec the 16-bit prefix is the length of the body if and only if that is below 65536 and the field holds no bool; it is short by three per bool, reduced to 16 bits |
| Fixed.FrameBack | include/no_encode_main.h:1228-1555 | A framed field gives its prefix, its field number and wire type, and its value |
| Fixed.TreeBack | include/no_encode_main.h:1228-1555 | With either skip flag the fixed-width stream of any tree gives every written value back in walk order and stops at the suffix |
| Serializer.ByteSizeLong | include/encode_main.h:108-409 | The forward walk returns the length of what the backward walk writes |
| Serializer.RepeatedSize | include/encode_main.h:336-355 | The element loop finds a long string exactly if there is one, and otherwise sums the sizes |
| Serializer.SerializeToStringDfs | include/encode_main.h:1228-1555 | The backward walk leaves the stream of the leaves at the cursor, returns the cursor behind it and touches nothing else |
| Serializer.SerializeToString | include/encode_main.h:1557-1564 | The pointer returned from the size prediction is the final write cursor |
| Serializer.WriteLeaf | include/encode_main.h:1466-1541 | One field is framed by its 16-bit length, or left out if long and skipped |
| Serializer.WriteBody | include/encode.h:233-490 | The tag and payload writers put down the field's body in place |
| Serializer.ReadItemsAt | include/encode_main.h:1595-1601 | The while loop returns what the recursive reader returns, on any bytes |
| Serializer.ParseFromStringDfs | include/encode_main.h:1566-1834 | The backward field loop with its forward cursor computes the parser function, on any bytes and any table |
| Serializer.ParseFromString | include/encode_main.h:1836-1850 | The same from the first byte for the top object |
| Sender.MetadataSender.SendMetadata | include/encode_main.h:411-817 | The in-place walk leaves the side stream at the cursor and table, counter and bounds as the specification of the walk says |
| Sender.MetadataSender.SendLong | include/encode_main.h:685-716 | The blocks of a long field are written last element first and counted |
| Nested.NestedSizeExact | include/paralizer.h:83-401 | The predicted size of the nested form is its length at every depth |
| Nested.ChildLengthPrefix | include/paralizer.h:633-641 | The varint before a child tells the length of the child's bytes if and only if that is below 2^32 |
| Nested.NestedInjective | include/paralizer.h:403-648 | Messages of the same shape with the same bytes before any suffixes are equal, and so are the suffixes |
| NestedReader.MessageBack | include/paralizer.h:403-648 | A forward reader that checks every tag gets the message back before any suffix |
| NestedReader.NestedExact | include/paralizer.h:633-641 | It gets it back if and only if every child in the message is shorter than 2^32 bytes |
| NestedReader.FieldDescribed | include/paralizer.h:633-641 | Every field, child or not, starts with a tag of its number and a wire type that steps over exactly what follows |
| NestedReader.NestedNumbers | include/paralizer.h:403-648 | A reader without the schema finds the fields of any message in schema order and ends at the last byte |
| Nested.ByteSizeLong | include/paralizer.h:83-401 | The size walk returns the number of bytes written |
| Nested.SerializeToStringDfs | include/paralizer.h:403-648 | The forward walk writes the nested form in place |
| Allocator.EveryRunKeepsInv | utils/QDMAController.cpp:264-314 | After any sequence of good requests chunks are non-empty, aligned, disjoint, tile the pool byte for byte, and no two free chunks touch |
| Allocator.AllocKeepsInv | utils/QDMAController.cpp:264-286 | alloc keeps the invariant |
| Allocator.FreeKeepsInv | utils/QDMAController.cpp:288-314 | free keeps the invariant |
| Allocator.AllocInvExact | utils/QDMAController.cpp:264-286 | alloc keeps the invariant if and only if the rounded size is not zero or nothing is free |
| Allocator.RoundUpMeaning | utils/QDMAController.cpp:265 | The rounded size is the least multiple of 64 holding the request, and zero exactly for a zero or wrapping request |
| Allocator.RecoverAnyOrder | utils/QDMAController.cpp:288-314 | Freeing all live allocations in any order gives back the single initial chunk |
| Allocator.NullExactly | utils/QDMAController.cpp:246-275 | alloc returns null if and only if no contiguous run of free bytes of the rounded size exists |
| Allocator.AllocGivesFresh | utils/QDMAController.cpp:276-285 | alloc hands out formerly free, aligned bytes at the high end of the lowest chunk large enough, and leaves the other allocations alone |
| Allocator.AllocExactly | utils/QDMAController.cpp:264-286 | For every state and every request: null if and only if no chunk is large enough, and then both maps are unchanged; otherwise the lowest such chunk loses its high end or goes, every other chunk stays, and the piece is recorded |
| Allocator.UsedDeterminesFree | utils/QDMAController.cpp:288-314 | States with the same live allocations have the same free map, whatever requests led to them |
| Allocator.AllocThenFree | utils/QDMAController.cpp:276-313 | Freeing what was just allocated restores both maps, in both branches |
| Allocator.ZeroRequestForgets | utils/QDMAController.cpp:279 | A zero request after an allocation returns its address and overwrites its record |
| Allocator.ZeroRequestLeaks | utils/QDMAController.cpp:264-313 | A zero request while something is free returns the end of the first free chunk, and freeing it drops the record of whatever lived there without making it free |
| Allocator.UndefinedPrevExact | utils/QDMAController.cpp:299-301 | Under the invariant, freeing a live pointer steps back from begin() if and only if the pool is not full and every byte below the pointer belongs to a live allocation |
| Allocator.UndefinedPrevIsReached | utils/QDMAController.cpp:299-301 | A run of three valid requests leads to the undefined step back |
| Allocator.MemCtl.FindFreeChunk | utils/QDMAController.cpp:246-253 | The ordered scan returns the lowest chunk that fits, or zeros |
| Allocator.MemCtl.Alloc | utils/QDMAController.cpp:264-286 | Result and both maps are those of the specification, for every request; a failed one changes nothing |
| Allocator.MemCtl.Free | utils/QDMAController.cpp:288-314 | Both maps are those of the specification; an unknown pointer ends the process and changes nothing |
| Allocator.MemCtl.Neighbours | utils/QDMAController.cpp:299-301 | The free chunks on either side of upper_bound |
| Translation.WriteTlb | utils/QDMAController.cpp:389-395 | One entry per page, in order, with its index, size, virtual and physical address |
| Translation.LegacyWriteTlb | utils/QDMAController.cpp:404-414 | Replayed, the register writes load every page in order with both 64-bit addresses whole and the flag of register 12 on the first page only |
| Translation.TlbAgrees | utils/QDMAController.cpp:389-402 | Exactly one entry maps a pointer of the pool, and it agrees with mapV2P |
| Translation.LiveAllocationsApart | utils/QDMAController.cpp:397-402 | Given disjoint physical pages, different live allocations share no physical byte |
| Translation.WriteTlbAggregated | utils/QDMAController.cpp:606-614 | The aggregated entries are produced, with index, size and addresses, if and only if every contiguity check passes |
| Translation.AggregationAgrees | utils/QDMAController.cpp:602-632 | When the checks pass each 2 MiB entry agrees with the 64 KiB mapV2P on every pointer it maps |
| Translation.AggregationCovers | utils/QDMAController.cpp:608 | The aggregated entries map exactly the pages before the last incomplete group of 32 |
| AsyncCopy.WritersRefineSync | test_suite/dsa_offload/dsa_no_encode.h:423-554 | For every sequence of writer calls, interleaving and completion order the final buffer is that of the synchronous writers |
| AsyncCopy.AsyncRefinesSync | test_suite/dsa_offload/dsa_no_encode.h:428-443 | The same for any program of stores and submitted copies |
| AsyncCopy.DestinationsApart | test_suite/dsa_offload/dsa_no_encode.h:428-443 | At every moment destinations are pairwise disjoint and below the cursor, and nothing from the cursor on has changed |
| AsyncCopy.WriteIsSync | include/no_encode.h:417-490 | Each writer's stores and copies, put together, are the bytes of its synchronous counterpart |
| AsyncCopy.WriteSubmits | test_suite/dsa_offload/dsa_no_encode.h:423-554 | A call hands the accelerator exactly its strings of more than 256 bytes, in order |
| AsyncCopy.ExecSubmits | test_suite/dsa_offload/dsa_no_encode.h:428-437 | The jobs after a program are those before it and one for each submitted string |
| AsyncCopy.RepeatedBytesTagMeaning | test_suite/dsa_offload/dsa_no_encode.h:547-548 | The tag of a list of bytes is the id shifted by three with the five bits of 29 set; its field number is the id if and only if the two low bits of the id are set |
| AsyncCopy.ExecIsRun | test_suite/dsa_offload/dsa_no_encode.h:423-554 | Calling the writers with nothing landing in between is one of the runs |
| AsyncCopy.DsaWriter.WriteStringToArray | test_suite/dsa_offload/dsa_no_encode.h:423-444 | Buffer, jobs and cursor are those of the writer's program |
| AsyncCopy.DsaWriter.WriteStringNoTagToArray | test_suite/dsa_offload/dsa_no_encode.h:446-466 | The same without the tag |
| AsyncCopy.DsaWriter.WriteRepeatedStringToArray | test_suite/dsa_offload/dsa_no_encode.h:468-479 | The same for a repeated string |
| AsyncCopy.DsaWriter.WriteRepeatedBytesToArray | test_suite/dsa_offload/dsa_no_encode.h:547-554 | The same with a count instead of a length and a tag whose type, 29, overlaps the field id |
| AsyncCopy.DsaWriter.WaitJobs | test_suite/dsa_offload/dsa_sw_micro.cpp:122-126 | After waiting for every job all bytes have landed and the buffer is the wanted one |
| AsyncWalk.BodyWriteExact | test_suite/dsa_offload/dsa_no_encode_main.h:680-702 | The writer the asynchronous walk calls for a field puts down as many bytes as the synchronous one, and the same bytes exactly if the field is not a list of bytes |
| AsyncWalk.ByteListBack | test_suite/dsa_offload/dsa_no_encode.h:547-554 | A list of bytes reads back as its tag, the number of its elements and the elements |
| AsyncWalk.WritesSubmit | test_suite/dsa_offload/dsa_no_encode_main.h:390-717 | The walk hands the accelerator exactly the strings of more than 256 bytes it writes, in walk order |
| AsyncWalk.TreeWritesExact | test_suite/dsa_offload/dsa_no_encode_main.h:390-717 | All calls of the walk put down as many bytes as the synchronous walk, and the same bytes exactly if no list of bytes is written |
| AsyncWalk.AsyncTreeExact | test_suite/dsa_offload/dsa_no_encode_main.h:390-717 | For every tree, skip flag, interleaving and completion order the final cursor is that of the synchronous walk, and the buffer is the one it leaves if and only if no list of bytes is written |
| AsyncWalk.SerializeToStringDfs | test_suite/dsa_offload/dsa_no_encode_main.h:390-717 | The backward walk over the asynchronous writers leaves buffer, jobs and cursor of the program of its calls |

## Left out

- MergeRoundTrip: the merge and the side-stream decoder are reference definitions, as in SideExact and SplitExact; in the system the device does this. One direction only: SplitExact says when the two parses it merges are right.
- The inline stream of one single tree has no exact condition here beyond the two halves: whether a misread comes out right depends on the bytes behind it.
- WriteString and WriteBytes writers of the asynchronous copies: they have the same bodies, so one method stands for both.
- Object layout: field values stand for the `obj_addr` arithmetic over C++ objects; aliasing between objects is not modelled, a tree of values is.
- The parser of include/paralizer.h, which reads the framed form and not the nested one it sits beside, and the nested form with the skip flag on.
- SendMetadataToFPGA_hw, whose counters start from whatever was in the table.
- Mutexes: alloc and free hold one lock, so runs are sequences of whole calls.
- Device registers other than those of legacyWriteTLB, mappings, huge pages, GPU and RDMA set-up, benchmark classes and the copies of these files for the BlueField: input and output with nothing to prove.
