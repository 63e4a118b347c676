# EFX effect container: a Dafny model of the codec core

This project models the binary codec of Gibbed.EFX. EFX is the effect container of Final Fantasy XII, Tactics Ogre (PSP) and Tactics Ogre Reborn. The model covers these parts:

- **The container** (`EffectFile`): an 8-byte ASCII magic `EFX0008`..`EFX0011` naming the version, an f32 header value, and an s32 total size. Then come 16-byte-aligned chunks, each holding one command: the `0x100` marker, the opcode, the data offset and the payload.
- **Game detection**: the scan over the chunks that names the game from the data size of the `SchedulerMetaAdd` commands.
- **The command codecs**: `SchedulerAddCommand`, `UnhandledCommand` and `ResourceAddCommand`.
- **The scheduler family**: the common 16-byte prefix (`SchedulerBase`); the variants `SchedulerUnknown1/2/3` and their factory; the action table of `SchedulerUnknown2`, with allocated and live slots.
- **The standalone `Unknown2Entry` table codec.**
- **The resource codecs**: `ModelResource`, `Unknown50Resource` and its entries, `Unknown51Resource` and its entries, and `UnhandledResource`.
- **The value types**: `Target`, `ResourceKey`, `Color` and `Vector4`, plus the zero-padding helpers.
- **The two buffer writers of Gibbed.Buffers**:
  - `PooledArrayBufferWriter`, one growing rented array;
  - `ChainedArrayBufferWriter`, a chain of `MemorySegment`s.

Every codec is a pure function. A decoder takes the bytes from the current index to the end of the span. It returns the value and the bytes left, or an error. Each error variant is named after the .NET exception the code throws: `FormatException`, `NotSupportedException`, `InvalidOperationException`, `ArgumentException`, `ArgumentOutOfRangeException`, `NullReferenceException` or `AggregateException`. An encoder returns the bytes it appends to the writer. A short read is `ArgumentOutOfRange`, which is what slicing a span past its end throws.

The chained writer is modelled over an explicit heap of segments, with cell 0 the static `_Empty`. This heap is what makes its sharing visible.

Every operation has a partner lemma: either a round trip (`Read(Write(x) ++ rest) == (x, rest)`, and where the code allows it `Write(Read(s)) == s`), or a property the operation preserves. The error cases are stated as well as the successful ones.

Where the general description of the format and the code differ, the model follows the code:
- Inconsistent `SchedulerMetaAdd` sizes are an `InvalidOperationException` in `DetectGame`, not a format error.
- The stored total size is only range-checked (`0 <= totalSize <= length`) and is otherwise ignored. It is not required to equal the length.
- `SchedulerUnknown3` above version 10 is an `ArgumentOutOfRangeException`.
- Read-then-write is byte-exact only when the stored total size equals the length and each chunk's padding has already been absorbed into the command data. `EffectFiles.WriteOfRead` states this.

## Model

| member | source | states |
|---|---|---|
| Padding.ScanZero | projects/Gibbed.EFX.FileFormats/PaddingHelpers.cs:41-47 | the loop over the padding bytes finds no non-zero byte exactly when every byte of the prefix is zero |
| Padding.SkipWrite | projects/Gibbed.EFX.FileFormats/PaddingHelpers.cs:30-35 | writing padding emits exactly `size` bytes, all zero |
| Padding.SkipRead | projects/Gibbed.EFX.FileFormats/PaddingHelpers.cs:37-48 | skipping padding succeeds iff the bytes are there and all zero; a short span is out of range, a non-zero byte a format error; on success the index moves by `size` |
| Padding.SkipRoundTrip | projects/Gibbed.EFX.FileFormats/PaddingHelpers.cs:30-48 | padding written by the writer is accepted by the reader, which lands on what follows |
| Padding.NonZeroRejected | projects/Gibbed.EFX.FileFormats/PaddingHelpers.cs:43-46 | any non-zero byte inside the padding makes the read a format error |
| Padding.SkipZeroIsNoOp | projects/Gibbed.EFX.FileFormats/PaddingHelpers.cs:30-48 | zero bytes of padding write nothing and read nothing |
| Targets.EqualsIsStructural | projects/Gibbed.EFX.FileFormats/Target.cs:45-67 | `Equals` holds iff game and version agree; `==` is `Equals`, `!=` its negation |
| Targets.EqualTargetsHashEqual | projects/Gibbed.EFX.FileFormats/Target.cs:51-57 | equal targets have equal `HashCode`s (the model of `GetHashCode`, a multiply-add with 32-bit wrap-around) |
| Targets.HashIsPolynomial | projects/Gibbed.EFX.FileFormats/Target.cs:51-57 | the hash wrapped after every step equals the plain polynomial in game and version reduced once modulo 2^32 |
| Targets.HashExamples | projects/Gibbed.EFX.FileFormats/Target.cs:51-57 | the hash of (Tactics Ogre Reborn, 11) is 865068595, a value worked out separately |
| Targets.Is64BitOnlyReborn | projects/Gibbed.EFX.FileFormats/Target.cs:38 | a target is 64-bit iff its game is Tactics Ogre Reborn |
| ResourceKeys.Read | projects/Gibbed.EFX.FileFormats/ResourceKey.cs:42-48 | a key reads from 4 bytes: u16 `Unknown` in the file's byte order, then type and id bytes; fewer than 4 bytes is an error |
| ResourceKeys.Write | projects/Gibbed.EFX.FileFormats/ResourceKey.cs:50-55 | a key writes as 4 bytes: the encoded u16, the type byte, the id byte |
| ResourceKeys.ReadWrite | projects/Gibbed.EFX.FileFormats/ResourceKey.cs:42-55 | reading what was written gives the key back and leaves the rest |
| ResourceKeys.WriteRead | projects/Gibbed.EFX.FileFormats/ResourceKey.cs:42-55 | writing what was read reproduces the 4 bytes read |
| ResourceKeys.EqualsIsStructural | projects/Gibbed.EFX.FileFormats/ResourceKey.cs:67-92 | `Equals` holds iff all three fields agree; `==` and `!=` follow it |
| ResourceKeys.EqualKeysHashEqual | projects/Gibbed.EFX.FileFormats/ResourceKey.cs:75-82 | equal keys have equal `HashCode`s (the model of `GetHashCode`, with 32-bit wrap-around) |
| ResourceKeys.HashIsPolynomial | projects/Gibbed.EFX.FileFormats/ResourceKey.cs:75-82 | the hash wrapped after every step equals the plain polynomial in the three fields reduced once modulo 2^32 |
| ResourceKeys.HashExamples | projects/Gibbed.EFX.FileFormats/ResourceKey.cs:75-82 | the hash of the key (0x1234, 5, 7) is 1997391286, a value worked out separately |
| Vectors.Read | projects/Gibbed.EFX.FileFormats/Vector4.cs:36-44 | four f32 words are read from 16 bytes; fewer bytes is an error |
| Vectors.Write | projects/Gibbed.EFX.FileFormats/Vector4.cs:46-52 | a vector writes as 16 bytes |
| Vectors.RoundTrip | projects/Gibbed.EFX.FileFormats/Vector4.cs:36-52 | reading what was written gives the vector back |
| Vectors.WriteOfRead | projects/Gibbed.EFX.FileFormats/Vector4.cs:36-52 | writing what was read reproduces the bytes read, bit for bit |
| Vectors.ListRoundTrip | projects/Gibbed.EFX.FileFormats/Vector4.cs:36-52 | a list of vectors written one after another takes 16 bytes each and reads back in order |
| Colors.AsRGBAOfFromRGBA | projects/Gibbed.EFX.FileFormats/Color.cs:44-67 | `AsRGBA` (the packing getter) of `FromRGBA` (the u32 constructor) is the identity on u32 |
| Colors.FromRGBAOfAsRGBA | projects/Gibbed.EFX.FileFormats/Color.cs:44-67 | `FromRGBA` of `AsRGBA` gives back the same four channels |
| Colors.ChannelPositions | projects/Gibbed.EFX.FileFormats/Color.cs:52-67 | R is the low byte of the packed value and A the high byte |
| Colors.Read | projects/Gibbed.EFX.FileFormats/Color.cs:69-77 | a colour is the next four bytes in R, G, B, A order, whatever the byte order; fewer bytes is an error |
| Colors.Write | projects/Gibbed.EFX.FileFormats/Color.cs:79-85 | a colour writes as 4 bytes |
| Colors.RoundTrip | projects/Gibbed.EFX.FileFormats/Color.cs:69-85 | reading what was written gives the colour back; the written bytes do not depend on the byte order |
| Colors.ListRoundTrip | projects/Gibbed.EFX.FileFormats/Color.cs:69-85 | a list of colours takes 4 bytes each and reads back in order |
| SchedulerBase.Serialize | projects/Gibbed.EFX.FileFormats/SchedulerBase.cs:39-49 | the common scheduler prefix is 16 bytes: Id, the type code, Unknown2, two zero bytes, Unknown5, two zero bytes, then the timeline values |
| SchedulerBase.Deserialize | projects/Gibbed.EFX.FileFormats/SchedulerBase.cs:51-67 | a header that reads successfully has legal flags (Unknown2 in {0,1}, Unknown5 in {0,1,3}) and consumes 16 bytes |
| SchedulerBase.ReadsWhatWasWritten | projects/Gibbed.EFX.FileFormats/SchedulerBase.cs:39-67 | reading a written header gives the fields back when the flags are legal and a format error otherwise |
| SchedulerBase.RoundTrip | projects/Gibbed.EFX.FileFormats/SchedulerBase.cs:39-67 | with legal flags the header round-trips |
| SchedulerBase.IllegalFlagsRejectedOnRead | projects/Gibbed.EFX.FileFormats/SchedulerBase.cs:62-66 | the writer does not check the flags, but the reader rejects what it wrote when they are illegal |
| SchedulerBase.PaddingRejected | projects/Gibbed.EFX.FileFormats/SchedulerBase.cs:56-58 | a non-zero padding byte in the header is a format error |
| SchedulerBase.TypeByteIgnored | projects/Gibbed.EFX.FileFormats/SchedulerBase.cs:54 | the type byte read back is not checked: changing it does not change the result |
| SchedulerUnknown2Sub.Read | projects/Gibbed.EFX.FileFormats/SchedulerUnknown2Sub.cs:34-47 | an action is a type byte and then actionSize-1 raw bytes (16 before version 11, 20 from it on); a short span is out of range |
| SchedulerUnknown2Sub.Write | projects/Gibbed.EFX.FileFormats/SchedulerUnknown2Sub.cs:49-58 | writing refuses, with an invalid operation, a payload that is missing or the wrong length; otherwise it writes actionSize bytes |
| SchedulerUnknown2Sub.RoundTrip | projects/Gibbed.EFX.FileFormats/SchedulerUnknown2Sub.cs:39-58 | a well-formed action round-trips |
| SchedulerUnknown2Sub.WriteOfRead | projects/Gibbed.EFX.FileFormats/SchedulerUnknown2Sub.cs:39-58 | writing what was read reproduces the bytes read |
| SchedulerUnknown2Sub.SkipWrite | projects/Gibbed.EFX.FileFormats/SchedulerUnknown2Sub.cs:72-77 | the unused action slots are written as (allocated - count) * actionSize zero bytes |
| SchedulerUnknown2Sub.SkipRead | projects/Gibbed.EFX.FileFormats/SchedulerUnknown2Sub.cs:65-70 | the reader skips (allocated - count) * actionSize bytes of zero padding |
| SchedulerUnknown2Sub.SkipRoundTrip | projects/Gibbed.EFX.FileFormats/SchedulerUnknown2Sub.cs:65-77 | skip padding written is accepted by the skip reader |
| SchedulerUnknown2Sub.WriteActions | projects/Gibbed.EFX.FileFormats/SchedulerUnknown2Sub.cs:49-58 | a list of actions writes iff every action is well formed |
| SchedulerUnknown2Sub.SlotsTotal | projects/Gibbed.EFX.FileFormats/SchedulerUnknown2Sub.cs:65-77 | the live actions plus the skipped slots fill exactly allocated * actionSize bytes |
| SchedulerUnknown2Sub.ActionsRoundTrip | projects/Gibbed.EFX.FileFormats/SchedulerUnknown2Sub.cs:39-58 | a list of well-formed actions reads back in order |
| Unknown2Entries.Read | projects/Gibbed.EFX.FileFormats/Schedulers/Unknown2Entry.cs:40-50 | an entry is a type byte, one zero byte, a u16 start, and 12 (before version 11) or 16 payload bytes; a non-zero pad is a format error, a short span out of range |
| Unknown2Entries.Write | projects/Gibbed.EFX.FileFormats/Schedulers/Unknown2Entry.cs:52-63 | writing refuses a payload of the wrong length with an invalid operation; otherwise it writes 4 + payload bytes |
| Unknown2Entries.RoundTrip | projects/Gibbed.EFX.FileFormats/Schedulers/Unknown2Entry.cs:40-63 | a well-formed entry round-trips |
| Unknown2Entries.EntryMatchesAction | projects/Gibbed.EFX.FileFormats/Schedulers/Unknown2Entry.cs:35-38 | an entry is exactly as long as a SchedulerUnknown2Sub action for the same target |
| Unknown2Entries.AsWrittenSkipWrite | projects/Gibbed.EFX.FileFormats/Schedulers/Unknown2Entry.cs:78-84 | as written, the unused slots are written as (allocated - count) * (1 + 1 + payload) zero bytes |
| Unknown2Entries.AsWrittenSkipRead | projects/Gibbed.EFX.FileFormats/Schedulers/Unknown2Entry.cs:70-76 | as written, the reader skips (allocated - count) * (1 + 1 + payload) bytes |
| Unknown2Entries.AsWrittenSkipShortfall | projects/Gibbed.EFX.FileFormats/Schedulers/Unknown2Entry.cs:73 | as written, each unused slot is skipped two bytes short of an entry |
| Unknown2Entries.AsWrittenSkipCounterexample | projects/Gibbed.EFX.FileFormats/Schedulers/Unknown2Entry.cs:81-83 | version 8, no live entry, one allocated: 14 bytes skipped for a 16-byte slot |
| Unknown2Entries.SkipWrite | projects/Gibbed.EFX.FileFormats/Schedulers/Unknown2Entry.cs:78-84 | corrected: the unused slots are written as (allocated - count) * (4 + payload) zero bytes |
| Unknown2Entries.SkipRead | projects/Gibbed.EFX.FileFormats/Schedulers/Unknown2Entry.cs:70-76 | corrected: the reader skips (allocated - count) * (4 + payload) zero bytes |
| Unknown2Entries.WriteTable | projects/Gibbed.EFX.FileFormats/Schedulers/Unknown2Entry.cs:52-63 | the live entries and the skip write iff there are no more entries than slots and each is well formed |
| Unknown2Entries.TableTotal | projects/Gibbed.EFX.FileFormats/Schedulers/Unknown2Entry.cs:70-84 | corrected: live entries plus skipped slots fill exactly allocated * entry size bytes |
| Unknown2Entries.TableRoundTrip | projects/Gibbed.EFX.FileFormats/Schedulers/Unknown2Entry.cs:40-84 | corrected: the table reads back to the live entries and lands after the last slot |
| Schedulers.Create | projects/Gibbed.EFX.FileFormats/SchedulerFactory.cs:30-37 | discriminants 0..3 give an instance that reports that type; any other byte is not supported |
| Schedulers.CreateInjective | projects/Gibbed.EFX.FileFormats/SchedulerFactory.cs:30-37 | distinct supported discriminants give distinct scheduler kinds |
| Schedulers.Serialize | projects/Gibbed.EFX.FileFormats/SchedulerUnknown2.cs:44-63 | writing succeeds iff the object is serializable (SchedulerUnknown3 only up to version 10, otherwise out of range; SchedulerUnknown2 with at most EntryAllocatedCount well-formed actions, otherwise an invalid operation); the output starts with the common 16-byte header |
| Schedulers.SerializedSize | projects/Gibbed.EFX.FileFormats/SchedulerUnknown1.cs:37-44 | a serializable scheduler writes 32 bytes for kinds 0, 1 and 3, and for SchedulerUnknown2 16 + 4 + allocated * actionSize |
| Schedulers.Deserialize | projects/Gibbed.EFX.FileFormats/SchedulerUnknown3.cs:52-64 | a read gives a scheduler of the instance's kind with legal flags whose Id is the first byte; SchedulerUnknown3 after version 10 is out of range; a failing header read fails the whole read |
| Schedulers.Write1 | projects/Gibbed.EFX.FileFormats/SchedulerUnknown1.cs:37-44 | the SchedulerUnknown1 body is 16 bytes: GeneratorId at 0, ElementId at 2, Unknown14 at 4, then zeros |
| Schedulers.Read1 | projects/Gibbed.EFX.FileFormats/SchedulerUnknown1.cs:46-53 | a successful read consumes exactly 16 bytes |
| Schedulers.Read1RoundTrip | projects/Gibbed.EFX.FileFormats/SchedulerUnknown1.cs:37-53 | GeneratorId, ElementId and Unknown14 with 11 zero bytes read back as written |
| Schedulers.Read2RoundTrip | projects/Gibbed.EFX.FileFormats/SchedulerUnknown2.cs:44-84 | the live count, allocated count, padding, actions and unused slots read back as written |
| Schedulers.Write3 | projects/Gibbed.EFX.FileFormats/SchedulerUnknown3.cs:38-50 | the SchedulerUnknown3 body is 16 bytes: Unknown10, Unknown11, AttachId at 2, eight zeros, Unknown1C at 12 |
| Schedulers.Read3 | projects/Gibbed.EFX.FileFormats/SchedulerUnknown3.cs:52-64 | a successful read consumes exactly 16 bytes |
| Schedulers.Read3RoundTrip | projects/Gibbed.EFX.FileFormats/SchedulerUnknown3.cs:38-64 | Unknown10, Unknown11, AttachId, 8 zero bytes and Unknown1C read back as written |
| Schedulers.TableRoundTrip | projects/Gibbed.EFX.FileFormats/SchedulerUnknown2.cs:58-62 | the action table followed by its skip padding reads back to the live actions |
| Schedulers.Read2 | projects/Gibbed.EFX.FileFormats/SchedulerUnknown2.cs:65-84 | a live count above the allocated count is a format error; whatever is read has no more actions than slots, each of them writable again |
| Schedulers.ActionsWellFormed | projects/Gibbed.EFX.FileFormats/SchedulerUnknown2.cs:79-82 | every action the table reader returns is one the writer accepts |
| Schedulers.RoundTrip | projects/Gibbed.EFX.FileFormats/SchedulerBase.cs:39-67 | any well-formed scheduler, written and read into a fresh instance of the same kind, comes back unchanged with the rest of the input untouched |
| Schedulers.IllegalFlagsRejected | projects/Gibbed.EFX.FileFormats/SchedulerBase.cs:62-66 | a scheduler with illegal flags is written but its bytes are refused on read with a format error |
| Schedulers.LiveAboveAllocatedRejected | projects/Gibbed.EFX.FileFormats/SchedulerUnknown2.cs:72-75 | SchedulerUnknown2 bytes whose live count exceeds the allocated count are a format error |
| Commands.HeaderIsSixteenBytes | projects/Gibbed.EFX.FileFormats/Commands/SchedulerAddCommand.cs:41-44 | MetaId, PageId, SchedulerId, type and zero padding are 16 bytes for every version (1+3+12 before 11, 2+3+11 from 11) |
| Commands.DispatchAgreesWithFactory | projects/Gibbed.EFX.FileFormats/Commands/SchedulerAddCommand.cs:88-95 | the inline switch on the type byte agrees with SchedulerFactory.Create on every byte |
| Commands.MetaRoundTrip | projects/Gibbed.EFX.FileFormats/Commands/SchedulerAddCommand.cs:53-64 | MetaId is a u8 before version 11 (refused above 255 with an invalid operation) and a u16 after; it reads back as written |
| Commands.HeaderRoundTrip | projects/Gibbed.EFX.FileFormats/Commands/SchedulerAddCommand.cs:53-87 | the 16-byte header reads back as written |
| Commands.SerializeSchedulerAdd | projects/Gibbed.EFX.FileFormats/Commands/SchedulerAddCommand.cs:46-75 | a missing scheduler and an oversized MetaId before version 11 are invalid operations; otherwise the header carries PageId and SchedulerId and the scheduler follows |
| Commands.DeserializeSchedulerAdd | projects/Gibbed.EFX.FileFormats/Commands/SchedulerAddCommand.cs:77-99 | a read gives a scheduler whose kind is the header's type byte and whose Id is the body's first byte; trailing bytes become Padding, none leaves it null |
| Commands.UnknownSchedulerTypeRejected | projects/Gibbed.EFX.FileFormats/Commands/SchedulerAddCommand.cs:94 | a type byte above 3 in a readable header is not supported |
| Commands.SchedulerAddRoundTrip | projects/Gibbed.EFX.FileFormats/Commands/SchedulerAddCommand.cs:46-99 | a command round-trips when its scheduler is present and well formed for the target, its MetaId fits the version's width and its Padding is absent or non-empty; the header SchedulerId and the scheduler's own Id round-trip independently |
| Commands.SchedulerIdOverwritten | projects/Gibbed.EFX.FileFormats/Commands/SchedulerAddCommand.cs:96-97 | the header's SchedulerId does not affect the scheduler read: its Id is overwritten by the body's prefix |
| Commands.UnhandledRoundTrip | projects/Gibbed.EFX.FileFormats/Commands/UnhandledCommand.cs:33-52 | `SerializeUnhandled` after `DeserializeUnhandled` (the command's `Serialize` and `Deserialize`) gives back any span and data offset unchanged, and the opcode is the one the command was built with |
| Commands.UnhandledRoundTripObject | projects/Gibbed.EFX.FileFormats/Commands/UnhandledCommand.cs:42-52 | an unhandled command written by `SerializeUnhandled` and read back by `DeserializeUnhandled` is the same command |
| Commands.ReadResourceAdd | projects/Gibbed.EFX.FileFormats/Commands/ResourceAddCommand.cs:41-47 | the key is read from the first 4 bytes (fewer is out of range), every remaining byte is the data |
| Commands.ResourceAddReadsKeyAndData | projects/Gibbed.EFX.FileFormats/Commands/ResourceAddCommand.cs:41-47 | a written key followed by any bytes reads as that key with those bytes |
| UnhandledResources.Create | projects/Gibbed.EFX.FileFormats/Resources/UnhandledResource.cs:33-38 | the resource reports the type it was built with and has no data |
| UnhandledResources.Serialize | projects/Gibbed.EFX.FileFormats/Resources/UnhandledResource.cs:42-45 | the data is written verbatim; null data writes nothing |
| UnhandledResources.Deserialize | projects/Gibbed.EFX.FileFormats/Resources/UnhandledResource.cs:47-52 | every remaining byte becomes the data and the whole input is consumed |
| UnhandledResources.WriteOfRead | projects/Gibbed.EFX.FileFormats/Resources/UnhandledResource.cs:42-52 | reading then writing reproduces any span |
| UnhandledResources.ReadOfWrite | projects/Gibbed.EFX.FileFormats/Resources/UnhandledResource.cs:42-52 | writing then reading restores the data, null coming back empty |
| Unknown50.ReadEntry | projects/Gibbed.EFX.FileFormats/Resources/Unknown50ResourceEntry.cs:41-63 | an entry is six vectors, a colour, 12 bytes and, for Tactics Ogre Reborn only, 16 more; it fails iff the input is shorter |
| Unknown50.WriteEntry | projects/Gibbed.EFX.FileFormats/Resources/Unknown50ResourceEntry.cs:65-79 | writing needs at least 12 bytes of Unknown64 and, for Tactics Ogre Reborn, 16 of Unknown70 (an argument error otherwise) and writes just those prefixes |
| Unknown50.WriteIgnoresUnknown70 | projects/Gibbed.EFX.FileFormats/Resources/Unknown50ResourceEntry.cs:75-78 | outside Tactics Ogre Reborn Unknown70 is never written |
| Unknown50.EntryRoundTrip | projects/Gibbed.EFX.FileFormats/Resources/Unknown50ResourceEntry.cs:41-79 | a well-formed entry reads back as written |
| Unknown50.VectorsRoundTrip | projects/Gibbed.EFX.FileFormats/Resources/Unknown50ResourceEntry.cs:44-49 | the six vectors read back in order |
| Unknown50.HeaderRoundTrip | projects/Gibbed.EFX.FileFormats/Resources/Unknown50Resource.cs:67-70 | the 8-byte header (entry count, the two id counts, Unknown04) reads back as written |
| Unknown50.Serialize | projects/Gibbed.EFX.FileFormats/Resources/Unknown50Resource.cs:50-85 | more than 65535 entries or 255 ids of either kind is an invalid operation; the header carries the counts |
| Unknown50.Deserialize | projects/Gibbed.EFX.FileFormats/Resources/Unknown50Resource.cs:88-112 | the lists read have exactly the lengths in the header |
| Unknown50.SerializedSize | projects/Gibbed.EFX.FileFormats/Resources/Unknown50Resource.cs:67-85 | the encoding is 8 + entrySize * entries + textureIds + resource53Ids bytes |
| Unknown50.EntriesRoundTrip | projects/Gibbed.EFX.FileFormats/Resources/Unknown50Resource.cs:72-75 | a list of well-formed entries reads back in order |
| Unknown50.RoundTrip | projects/Gibbed.EFX.FileFormats/Resources/Unknown50Resource.cs:50-112 | a well-formed resource reads back as written |
| Unknown51.ReadEntry | projects/Gibbed.EFX.FileFormats/Resources/Unknown51Entry.cs:36-46 | an entry is 8 bytes, two single bytes and 6 bytes taken verbatim; fewer than 16 bytes is out of range |
| Unknown51.WriteEntry | projects/Gibbed.EFX.FileFormats/Resources/Unknown51Entry.cs:48-54 | writing needs 8 bytes of Unknown00 and 6 of Unknown0A (an argument error otherwise) and writes their prefixes around the two bytes |
| Unknown51.EntryIgnoresTargetAndEndian | projects/Gibbed.EFX.FileFormats/Resources/Unknown51Entry.cs:36-54 | neither target nor byte order affects the entry encoding |
| Unknown51.EntryRoundTrip | projects/Gibbed.EFX.FileFormats/Resources/Unknown51Entry.cs:36-54 | a well-formed entry reads back as written |
| Unknown51.EntryWriteOfRead | projects/Gibbed.EFX.FileFormats/Resources/Unknown51Entry.cs:36-54 | any 16 bytes read as an entry write back unchanged |
| Unknown51.Serialize | projects/Gibbed.EFX.FileFormats/Resources/Unknown51Resource.cs:43-56 | more than 65535 entries is an invalid operation; the u16 count comes first |
| Unknown51.Deserialize | projects/Gibbed.EFX.FileFormats/Resources/Unknown51Resource.cs:58-67 | exactly the counted number of entries is read |
| Unknown51.SerializedSize | projects/Gibbed.EFX.FileFormats/Resources/Unknown51Resource.cs:43-56 | the encoding is 2 + 16 n bytes |
| Unknown51.EntriesRoundTrip | projects/Gibbed.EFX.FileFormats/Resources/Unknown51Resource.cs:52-55 | a list of well-formed entries reads back in order |
| Unknown51.RoundTrip | projects/Gibbed.EFX.FileFormats/Resources/Unknown51Resource.cs:43-67 | a well-formed resource reads back as written |
| ModelResources.Validate | projects/Gibbed.EFX.FileFormats/Resources/ModelResource.cs:67-133 | the checks before any write pass iff the model is serializable; with the flag set a null gated array is a null reference, a wrong length or a list longer than 65535 an invalid operation |
| ModelResources.ValidateIgnoresGatedArrays | projects/Gibbed.EFX.FileFormats/Resources/ModelResource.cs:72-93 | without flag bit 0 the four s16 arrays never affect validation, whether null or not |
| ModelResources.HeaderRoundTrip | projects/Gibbed.EFX.FileFormats/Resources/ModelResource.cs:135-144 | flags, 1 (before version 11) or 3 zero bytes and eight u16 counts read back as written |
| ModelResources.ListsRoundTrip | projects/Gibbed.EFX.FileFormats/Resources/ModelResource.cs:146-169 | the five lists read back given the counts from the header |
| ModelResources.ExtraRoundTrip | projects/Gibbed.EFX.FileFormats/Resources/ModelResource.cs:171-196 | the four s16 arrays of 3 * Unknown010Count and 4 * Unknown012Count elements read back as written |
| ModelResources.TrailerRoundTrip | projects/Gibbed.EFX.FileFormats/Resources/ModelResource.cs:198-204 | the two 188 byte arrays and the texture ids read back with the counts they were written with |
| ModelResources.Serialize | projects/Gibbed.EFX.FileFormats/Resources/ModelResource.cs:67-205 | writing succeeds iff validation passes, with validation's error otherwise; the output starts with the header of the model's counts |
| ModelResources.Deserialize | projects/Gibbed.EFX.FileFormats/Resources/ModelResource.cs:207-289 | non-zero header padding is a format error; the two 188 arrays read have Unknown010Count and Unknown012Count bytes; with the flag the four s16 arrays read have 3 * Unknown010Count and 4 * Unknown012Count elements, without it they keep the prior object's values |
| ModelResources.DeserializeStages | projects/Gibbed.EFX.FileFormats/Resources/ModelResource.cs:207-289 | the read is header, lists, gated arrays when flagged, trailer, in that order |
| ModelResources.RoundTrip | projects/Gibbed.EFX.FileFormats/Resources/ModelResource.cs:67-289 | a serializable model reads back as written, except that without the flag the four s16 arrays keep the prior object's values |
| Chunks.ReadCommand | projects/Gibbed.EFX.FileFormats/EffectFile.cs:137-156 | a command needs 8 bytes starting with the u16 0x100 (a format error otherwise); the data is every byte after the s32 data offset |
| Chunks.ReadCommandReencodes | projects/Gibbed.EFX.FileFormats/EffectFile.cs:137-156 | whatever the command reader accepts is written back byte for byte |
| Chunks.CommandRoundTrip | projects/Gibbed.EFX.FileFormats/EffectFile.cs:179-193 | a written command reads back as itself |
| Chunks.WriteChunk | projects/Gibbed.EFX.FileFormats/EffectFile.cs:160-176 | a chunk is the s32 size, the command and zero bytes up to the next multiple of 16 |
| Chunks.WriteChunks | projects/Gibbed.EFX.FileFormats/EffectFile.cs:158-177 | the chunks of all commands together are a multiple of 16 bytes |
| Chunks.ReadChunks | projects/Gibbed.EFX.FileFormats/EffectFile.cs:117-135 | the chunk loop fails only with a format or out-of-range error; ReadChunksRejects, ReadChunksTiles and ChunksRoundTrip state what it accepts |
| Chunks.ReadChunksRejects | projects/Gibbed.EFX.FileFormats/EffectFile.cs:121-128 | a chunk size below 8 or past the end of the region is a format error; a chunk start plus size that wraps a C# int slices out of range |
| Chunks.OverrunCheck | projects/Gibbed.EFX.FileFormats/EffectFile.cs:125 | for a chunk start and size that are C# ints, the bound check as the model writes it agrees with the wrapped 32-bit comparison |
| Chunks.ReadChunksTiles | projects/Gibbed.EFX.FileFormats/EffectFile.cs:117-135 | the chunks a successful read finds tile the region exactly |
| Chunks.FramesRoundTrip | projects/Gibbed.EFX.FileFormats/EffectFile.cs:117-135 | framed commands read back in order from any start position that stays within a C# int |
| Chunks.Padded | projects/Gibbed.EFX.FileFormats/EffectFile.cs:168-173 | the command a written chunk reads back as keeps opcode, offset and data and is followed only by zero fill to the chunk boundary |
| Chunks.PaddedIdempotent | projects/Gibbed.EFX.FileFormats/EffectFile.cs:168-173 | a command already filled to the chunk boundary needs no more fill |
| Chunks.WriteChunksAreFrames | projects/Gibbed.EFX.FileFormats/EffectFile.cs:158-177 | written chunks are the frames the reader expects, of the padded commands |
| Chunks.RewriteIsStable | projects/Gibbed.EFX.FileFormats/EffectFile.cs:158-177 | writing the read-back commands produces the same chunk bytes |
| Chunks.ChunksRoundTrip | projects/Gibbed.EFX.FileFormats/EffectFile.cs:117-177 | written chunks read back as the padded commands |
| EffectFiles.ReadString8 | projects/Gibbed.EFX.FileFormats/EffectFile.cs:82 | the magic field needs 8 bytes and reads at most 8 characters, stopping at the first NUL |
| EffectFiles.WriteString8 | projects/Gibbed.EFX.FileFormats/EffectFile.cs:59 | the magic is written ASCII-encoded into exactly 8 bytes, zero-filled |
| EffectFiles.DecodeOfEncode | projects/Gibbed.EFX.FileFormats/EffectFile.cs:59-82 | ASCII decoding inverts ASCII encoding on 7-bit strings |
| EffectFiles.MagicRoundTrip | projects/Gibbed.EFX.FileFormats/EffectFile.cs:59-82 | a version magic reads back from its 8-byte field |
| EffectFiles.MagicBytesUnique | projects/Gibbed.EFX.FileFormats/EffectFile.cs:82-90 | the written field is the only 8 bytes that read as a given magic |
| EffectFiles.MagicOf | projects/Gibbed.EFX.FileFormats/EffectFile.cs:51-58 | versions 8 to 11 have a magic, any other is not supported |
| EffectFiles.VersionOf | projects/Gibbed.EFX.FileFormats/EffectFile.cs:83-90 | a magic is accepted only for versions 8 to 11, anything else is a format error |
| EffectFiles.MagicVersionInverse | projects/Gibbed.EFX.FileFormats/EffectFile.cs:51-90 | the two switches are inverse to each other |
| EffectFiles.MetaAgreeIffAllSame | projects/Gibbed.EFX.FileFormats/EffectFile.cs:218-226 | the SchedulerMetaAdd sizes seen by the scan are accepted iff they are all equal, and the size remembered is the last one |
| EffectFiles.ScanChunk | projects/Gibbed.EFX.FileFormats/EffectFile.cs:202-228 | one pass of the scan accepts a chunk only with size at least 8, within the region, and marker 0x100 |
| EffectFiles.ClassifyExact | projects/Gibbed.EFX.FileFormats/EffectFile.cs:232-250 | detection names a game iff its SchedulerMetaAdd size is that game's (160, 208, 320) and the version fits (8-10, 11, 11) |
| EffectFiles.DetectGame | projects/Gibbed.EFX.FileFormats/EffectFile.cs:195-251 | detection fails only with a format, range, invalid-operation or not-supported error |
| EffectFiles.ScanMatchesRead | projects/Gibbed.EFX.FileFormats/EffectFile.cs:117-135 | on a region the chunk reader accepts, the detection scan sees exactly the commands the reader returns |
| EffectFiles.DetectWritten | projects/Gibbed.EFX.FileFormats/EffectFile.cs:158-177 | detection on written chunks sees the commands' own SchedulerMetaAdd sizes |
| EffectFiles.Serialize | projects/Gibbed.EFX.FileFormats/EffectFile.cs:46-74 | writing succeeds iff the version is 8 to 11; the output is the version's 8-byte magic, the unknown word, the total-size field holding the output's own length as a C# int, then the chunks |
| EffectFiles.Deserialize | projects/Gibbed.EFX.FileFormats/EffectFile.cs:76-115 | a read keeps the caller's byte order, yields a version 8 to 11, and fails out of range on fewer than 8 bytes |
| EffectFiles.DeserializeHeaderErrors | projects/Gibbed.EFX.FileFormats/EffectFile.cs:82-98 | an unknown magic is a format error, a short header is out of range, a total size outside 0..length is a format error |
| EffectFiles.DetectionFirst | projects/Gibbed.EFX.FileFormats/EffectFile.cs:102-109 | detection runs before the chunk reader, so its error wins |
| EffectFiles.TotalSizeUnused | projects/Gibbed.EFX.FileFormats/EffectFile.cs:94-102 | any in-range total size gives the same result |
| EffectFiles.ReadIsConsistent | projects/Gibbed.EFX.FileFormats/EffectFile.cs:104-109 | a file that reads has all its SchedulerMetaAdd sizes equal to its game's |
| EffectFiles.RoundTrip | projects/Gibbed.EFX.FileFormats/EffectFile.cs:46-115 | a writable file reads back with its commands padded to the chunk boundary |
| EffectFiles.WriteOfRead | projects/Gibbed.EFX.FileFormats/EffectFile.cs:46-115 | bytes that read, whose total size is their length and whose commands are already padded, are written back unchanged |
| EffectFiles.ReserializeIsStable | projects/Gibbed.EFX.FileFormats/EffectFile.cs:46-115 | writing what was read from written bytes gives the same bytes |
| PooledWriters.New | projects/Gibbed.Buffers/PooledArrayBufferWriter.cs:15-19 | a new writer has nothing written and a rented array of at least 8192 elements |
| PooledWriters.WrittenSpan | projects/Gibbed.Buffers/PooledArrayBufferWriter.cs:21-25 | the written span is the first WrittenCount elements of the array |
| PooledWriters.FreeCapacity | projects/Gibbed.Buffers/PooledArrayBufferWriter.cs:25-29 | written count plus free capacity is the capacity |
| PooledWriters.Clear | projects/Gibbed.Buffers/PooledArrayBufferWriter.cs:31-36 | after Clear nothing is written and the capacity is at least 8192 again |
| PooledWriters.Advance | projects/Gibbed.Buffers/PooledArrayBufferWriter.cs:38-49 | a negative count is out of range, a count beyond the free capacity an invalid operation; otherwise the written count grows by it and the array is kept |
| PooledWriters.CheckAndResize | projects/Gibbed.Buffers/PooledArrayBufferWriter.cs:63-88 | a negative hint is out of range; a zero hint counts as 1; the written elements survive; afterwards the hint fits; an array that already fits is kept, otherwise it grows by at least the larger of hint and capacity |
| PooledWriters.GetSpan | projects/Gibbed.Buffers/PooledArrayBufferWriter.cs:51-61 | the span handed out is the whole free part of the array after resizing, at least the effective hint long |
| PooledWriters.Write | projects/Gibbed.Buffers/PooledArrayBufferWriter.cs:38-61 | a write (ask for room, fill it, advance) keeps the writer valid; WriteAppends and WriteTwice state what it appends |
| PooledWriters.WriteAppends | projects/Gibbed.Buffers/PooledArrayBufferWriter.cs:51-61 | asking for room, filling it and advancing over the data appends the data to the written span |
| PooledWriters.WriteTwice | projects/Gibbed.Buffers/PooledArrayBufferWriter.cs:38-61 | successive writes accumulate in order |
| MemorySegments.New | projects/Gibbed.Buffers/MemorySegment.cs:12-18 | a new segment wraps the array with nothing written, running index 0 and no successor |
| MemorySegments.FreeCapacity | projects/Gibbed.Buffers/MemorySegment.cs:26 | index plus free capacity is the array length |
| MemorySegments.Span | projects/Gibbed.Buffers/MemorySegment.cs:32 | the span is the first Index elements of the array |
| MemorySegments.WritableSpan | projects/Gibbed.Buffers/MemorySegment.cs:30 | the written span followed by the writable span is the whole array |
| MemorySegments.Advance | projects/Gibbed.Buffers/MemorySegment.cs:36-47 | a negative count is an argument error, a count past the end an invalid operation; otherwise only the index moves, by count |
| MemorySegments.FillThenAdvance | projects/Gibbed.Buffers/MemorySegment.cs:30-47 | writing data into the writable span and advancing over it appends the data to the span |
| MemorySegments.Append | projects/Gibbed.Buffers/MemorySegment.cs:49-57 | the new segment is empty, holds the given array, has no successor and starts at running index plus index; the old segment now links to it and nothing else about it changes |
| ChainedWriters.Expand | projects/Gibbed.Buffers/ChainedArrayBufferWriter.cs:69-81 | a negative hint is an argument error; otherwise the tail has room for the hint: unchanged when it already fits, else a fresh segment of at least max(hint, 8192) elements is appended after the tail, no other segment changes and the length is unchanged |
| ChainedWriters.Advance | projects/Gibbed.Buffers/ChainedArrayBufferWriter.cs:55 | the tail's Advance: errors as for a segment; on success the length grows by count and no other segment changes |
| ChainedWriters.GetSpan | projects/Gibbed.Buffers/ChainedArrayBufferWriter.cs:57-67 | a negative hint is refused; otherwise the span handed out is at least the hint long and the heap stays well formed |
| ChainedWriters.Write | projects/Gibbed.Buffers/ChainedArrayBufferWriter.cs:57-67 | the IBufferWriter protocol keeps the heap well formed, keeps the head, grows the length by the data and changes no segment except the tail |
| ChainedWriters.CopyChain | projects/Gibbed.Buffers/ChainedArrayBufferWriter.cs:28-34 | the result of the walk has the destination's length; a segment longer than the space left in the destination is an argument error |
| ChainedWriters.CopyLinked | projects/Gibbed.Buffers/ChainedArrayBufferWriter.cs:28-34 | the walk over a linked chain succeeds into any destination at least as long as the chain's content: the front of the result is that content and the destination's tail is unchanged |
| ChainedWriters.CopyTo | projects/Gibbed.Buffers/ChainedArrayBufferWriter.cs:22-35 | a destination shorter than the length is refused before any copying |
| ChainedWriters.ToArray | projects/Gibbed.Buffers/ChainedArrayBufferWriter.cs:37-42 | an array that is produced has exactly Length elements |
| ChainedWriters.Clear | projects/Gibbed.Buffers/ChainedArrayBufferWriter.cs:44-53 | after Clear the writer's length is 0 |
| ChainedWriters.ToArrayIsContent | projects/Gibbed.Buffers/ChainedArrayBufferWriter.cs:20-42 | on a well-linked chain ToArray returns the concatenated spans of the segments after the head |
| ChainedWriters.WriteKeepsChain | projects/Gibbed.Buffers/ChainedArrayBufferWriter.cs:57-81 | a write keeps the chain well linked, adding the new segment at the end when one was appended, and the content grows by the data |
| ChainedWriters.NewIsEmpty | projects/Gibbed.Buffers/ChainedArrayBufferWriter.cs:15-20 | a new writer has length 0 and reads back as nothing |
| ChainedWriters.SameHeadSameArray | projects/Gibbed.Buffers/ChainedArrayBufferWriter.cs:20-42 | two writers with the same head segment and the same length produce the same array, since the copy walks from the head whatever the tail |
| ChainedWriters.ClearThenToArrayFails | projects/Gibbed.Buffers/ChainedArrayBufferWriter.cs:44-53 | as written, Clear leaves the sentinel linked to the old chain, so a cleared writer whose chain had data cannot copy into its zero-length array |
| ChainedWriters.FreshWriteRelinks | projects/Gibbed.Buffers/ChainedArrayBufferWriter.cs:11-17 | as written, the first write to a new writer links its segment from the shared sentinel |
| ChainedWriters.SharedSentinel | projects/Gibbed.Buffers/ChainedArrayBufferWriter.cs:11-17 | as written, two writers: after the second writes, the first writer's ToArray returns the second writer's data |
| ChainedWriters.NewFixed | projects/Gibbed.Buffers/ChainedArrayBufferWriter.cs:15-18 | corrected: each new writer gets its own empty head segment, leaving the existing segments alone |
| ChainedWriters.NewFixedKeepsOthers | projects/Gibbed.Buffers/ChainedArrayBufferWriter.cs:15-18 | corrected: making a writer leaves every existing chain and its content as they were |
| ChainedWriters.ClearFixed | projects/Gibbed.Buffers/ChainedArrayBufferWriter.cs:44-53 | corrected: Clear unlinks the writer's own head, leaving it an empty chain and every other cell unchanged |
| ChainedWriters.ClearFixedEmpties | projects/Gibbed.Buffers/ChainedArrayBufferWriter.cs:44-53 | corrected: a cleared writer reads back as nothing, whatever its chain held |
| ChainedWriters.WriteKeepsOthers | projects/Gibbed.Buffers/ChainedArrayBufferWriter.cs:57-81 | a write through one writer changes no chain disjoint from its tail |
| ChainedWriters.FixedWriteReadsBack | projects/Gibbed.Buffers/ChainedArrayBufferWriter.cs:15-42 | corrected: a fresh writer reads back exactly what it was given and leaves any other chain as it was |
| ChainedWriters.FixedWritersIndependent | projects/Gibbed.Buffers/ChainedArrayBufferWriter.cs:15-42 | corrected: two writers interleaved on one heap each read back their own data |

## Left out

- `CommandFactory`, `BaseCommand` (`DataOffsetDelta`, the data offset it computes), `CommandOpcode`, `SchedulerType` and `Game` are not part of this model:
  - at the container level every command is carried as the byte-exact `UnhandledCommand`;
  - `SchedulerAddCommand` and `ResourceAddCommand` are modelled as payload codecs on their own;
  - `SchedulerType` codes are taken to be 0..3, and `Game` members are numbered in declaration order.
- `UV` and `ModelUnknown` are not part of this model. In `ModelResource` their elements are raw byte strings whose sizes are a `Layout` parameter.
- Gibbed.Memory is not part of this model. The behaviour assumed for it:
  - `ReadValue*`/`WriteValue*` are fixed-width two's complement in the given byte order;
  - `ReadString(8, ASCII, true)` decodes 8 bytes with `?` for bytes above 0x7F and cuts at the first NUL;
  - `WriteString(s, 8, ASCII)` zero-fills to 8 bytes;
  - `WriteBytes(a, 0, n)` fails on an array shorter than `n`.
- Floating point: `f32` values are kept as their 4-byte bit patterns. No float arithmetic or NaN canonicalisation is modelled.
- `ArrayPool<T>.Shared`:
  - `Rent` is a parameter that returns an array at least as long as asked;
  - `Return` has no effect, so array reuse between writers is not modelled.
- `GetMemory` is modelled with `GetSpan`: both hand out the same region. `Dispose` is `Clear`.
- Thread safety and disposal order are not modelled. The codec is single-threaded.
- ChainedWriters.CopyTo: a walk that fails part way leaves earlier segments copied into the destination in the code. The model returns only the error.
- ChainedWriters.Expand: the writer is specialised to bytes. Sizes and running indices are unbounded, so a C# `int` overflow of `RunningIndex + Index` or of a rented size is not modelled.
- PooledWriters.CheckAndResize: `currentLength + growBy` is not wrapped at 32 bits. A buffer beyond 2^30 elements is out of scope.
- Chunks.ReadChunks: the 32-bit sum `chunkStart + chunkSize` is modelled through its effect. When it wraps, the bound check passes. The read then fails out of range, either at the slice or at the negative index of the next chunk. Data regions beyond 2^31 bytes are otherwise out of scope.
- EffectFiles.Deserialize: the object's fields are replaced only on success. A failed read leaves the prior object unchanged, as in the code, where the assignments come last.
- ModelResources.Deserialize: the code assigns `Flags`, `Unknown010Count` and `Unknown012Count` before later reads can throw, so a failed read leaves the object partly updated. The model returns only the error. The container never sees that state, because `EffectFile.ReadCommand` reads every command into a fresh object from `CommandFactory.Create` (EffectFile.cs:152-153).
- Unknown50.Deserialize: the code sets `Unknown04` before reading the entries, so a failed read leaves it updated. The model returns only the error.
- SchedulerBase.Deserialize: the code assigns `Id`, `Unknown2`, `Unknown5` and both timeline fields before the flag checks throw. The model returns only the `Format` error, not the partly updated scheduler.
- Schedulers.Deserialize: a failed read leaves the scheduler partly updated in the code, as for `SchedulerBase.Deserialize`. The model returns only the error.
- Commands.DeserializeSchedulerAdd: the code sets `MetaId`, `PageId`, `SchedulerId` and `Scheduler` before the scheduler's own read can throw. The model returns only the error. As for the resources, the container always reads into a fresh command.
- Unknown50.Entry: `Unknown64` is a nullable array in the code, and writing a null one fails inside `WriteBytes`. The model keeps it as a non-null byte string, because every read produces one, so that error is not modelled.
- Unknown51.Entry: `Unknown00` and `Unknown0A` are nullable arrays in the code, and writing a null one fails inside `WriteBytes`. The model keeps them as non-null byte strings, because every read produces them, so that error is not modelled.
- Commands.UnhandledCommand: `Data` is a nullable array in the code. The model keeps it as a byte string, because a null `Data` writes nothing, the same as an empty one.
- The text export and import programs and the command-line front ends are outside the codec.

## Findings

| source | as written | input that shows it | evidently intended | confidence | as-written member | corrected member |
|---|---|---|---|---|---|---|
| projects/Gibbed.EFX.FileFormats/Schedulers/Unknown2Entry.cs:70-84 | `Skip` computes each unused slot as `1 + 1 + payload` bytes, but an entry is type, pad, u16 start and payload: `4 + payload` | version 8 (payload 12), no live entry, one allocated slot: 14 bytes are skipped for a 16-byte slot, so a table written by `Write` plus `Skip` is two bytes short per unused slot | skip `(allocated - count) * (4 + payload)` bytes, the size `GetPayloadSize` + `Write` produce | high; not executed | Unknown2Entries.AsWrittenSkipCounterexample | Unknown2Entries.TableRoundTrip |
| projects/Gibbed.Buffers/ChainedArrayBufferWriter.cs:11-53 | every writer's head is the one static `_Empty`; `Append` links `_Empty` to the writer's first segment and `Clear` never unlinks it | two writers writing 3 bytes each: the first writer's `ToArray` returns the second writer's bytes; a writer cleared after writing cannot `ToArray` at all (`Span.CopyTo` into its zero-length array throws) | each writer owns its head segment, and `Clear` unlinks it | high; not executed | ChainedWriters.SharedSentinel | ChainedWriters.FixedWritersIndependent |
