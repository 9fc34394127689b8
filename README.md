# OscCore in Dafny

A Dafny model of the core of BuildSoft.OscCore, an Open Sound Control
(OSC 1.0) library for .NET. It covers:

- **Writing messages.** `OscWriter` fills a byte buffer with OSC elements:
  big-endian numbers, NUL-terminated strings padded to four bytes, blobs
  with a size word, the `#bundle ` prefix, and an address with its tag word.
- **Reading messages.** `OscMessageValues` is the typed view of a received
  message. It holds a tag and an offset per element over a shared receive
  buffer. Each reader accepts certain tags and throws for the others.
- **Byte strings.** `BlobHandle` and `BlobString` are byte runs that are
  compared and hashed by content. `BlobStringDictionary` is a table keyed by
  the ASCII bytes of a string, so received address bytes can be looked up
  without decoding them.
- **Handlers.** `OscActionPair` is a value-read delegate plus an optional
  main-thread delegate. `OscAddressSpace` registers pairs under exact
  addresses and under address patterns. Patterns live in parallel slot
  arrays whose freed slots are recycled in FIFO order.
- **Dispatch.** `OscServer` walks a datagram or a nested bundle, runs the
  handlers of exact addresses, and falls back to the pattern scan. `Update`
  runs the delegates queued for the main thread. A static registry maps
  ports to servers.
- **Helpers.** `Color32` is a colour value with a component indexer and its
  RGBA text. `Utils` cleans addresses and formats a received message for
  monitoring.

Modelling conventions:

- **Pure code and mutable objects.** Value types and pure code are
  datatypes and functions. Objects that change their fields are classes
  with `modifies`/`reads` frames. Loops over arrays are methods with loop
  invariants, proved against specification functions.
- **Bytes and integers.** Bytes are a `byte` newtype. C# `int`, `uint`,
  `long` and `ulong` are subset types of `int`, and two's-complement casts
  are written out. Floats are their IEEE bit patterns.
- **Delegates.** A delegate is its invocation list, and `null` is the empty
  list. `Delegate.Remove` drops the last occurrence of the sub-list, as .NET
  does.
- **Exceptions.** Thrown exceptions are `Err` values of a `Result`.
- **Host services.** Numeric conversions, culture-dependent formatting,
  `OscParser`'s classification of addresses, whether `new Regex` accepts a
  pattern, and `Regex.IsMatch` are passed in as function-typed parameters. Every property therefore holds whatever
  those services do.

The model also exhibits two behaviours of the source that are not flagged
as findings:

- **A pattern hit runs nothing the first time.** `TryMatchPatternHandler`
  clears the shared list of matched pairs and never fills it, so on the
  first hit no callback runs. The address is registered under the exact
  table, so the next message to it is an exact hit that runs the handlers
  (`PatternPathRunsNothing`, `PatternHitRegistersAddress`).
- **Removing one of several pattern handlers frees the slot anyway.**
  `RemoveMethod` on a pattern with several handlers subtracts the pair and
  still frees the slot, decrements the count and forgets the pattern
  string. The remaining handlers stay in a slot that the next new pattern
  reuses (`PatternSlotReleased`). The corrected scan does not try them,
  because their pattern is no longer registered.

## Model

| member | source | states |
|---|---|---|
| Wire.BigEndianOfBytes | OSC/BuildSoft.OscCore/OscWriter.cs:30-73 | the big-endian bytes of any n below 256^width decode back to n |
| Wire.BytesOfBigEndian | OSC/BuildSoft.OscCore/Message/OscMessageValues.Int.cs:71-77 | re-encoding the big-endian value of any byte string gives the same bytes, so the encoding is a bijection |
| Wire.ReverseLittleEndianBytes | OSC/BuildSoft.OscCore/OscWriter.cs:30-73 | reversing the host (little-endian) bytes of a value gives its network (big-endian) bytes |
| Wire.LittleEndianOfReverse | OSC/BuildSoft.OscCore/Message/OscMessageValues.Int.cs:60-68 | the reversed slot read as a host word is the slot's big-endian value |
| Wire.LittleEndianOfBytes | OSC/BuildSoft.OscCore/OscWriter.cs:222-240 | the little-endian bytes of any n below 256^width decode back to n |
| Wire.Int32Bijection | OSC/BuildSoft.OscCore/Message/OscMessageValues.Int.cs:47-57 | the unchecked int/uint casts are inverse bijections and agree modulo 2^32 |
| Wire.Int64Bijection | OSC/BuildSoft.OscCore/Message/OscMessageValues.Int64.cs:61-68 | the unchecked long/ulong casts are inverse bijections and agree modulo 2^64 |
| Wire.WrapInt32Range | OSC/BuildSoft.OscCore/Message/OscMessageValues.Blob.cs:59-60 | C# int wrap-around: a sum in range is kept, one in [2^31, 2^32) turns negative, and one in [2^32, 2^32 + 2^31) drops 2^32 |
| Wire.UInt32RoundTrip | OSC/BuildSoft.OscCore/Message/OscMessageValues.Int.cs:60-68 | uint to 4 network bytes and back is the identity in both directions |
| Wire.Int32RoundTrip | OSC/BuildSoft.OscCore/OscWriter.cs:87-90 | int to 4 network bytes and back is the identity in both directions |
| Wire.UInt64RoundTrip | OSC/BuildSoft.OscCore/OscWriter.cs:172-175 | ulong to 8 network bytes and back is the identity in both directions |
| Wire.Int64RoundTrip | OSC/BuildSoft.OscCore/OscWriter.cs:166-169 | long to 8 network bytes and back is the identity in both directions |
| Wire.AlignUp4 | OSC/BuildSoft.OscCore/OscWriter.cs:158 | `(n + 3) & ~3` is the least multiple of four at or above n |
| Wire.PaddedStringLength | OSC/BuildSoft.OscCore/OscWriter.cs:118-125 | a string's padded length is a multiple of four with room for at least one NUL and at most four |
| Wire.BlobPadding | OSC/BuildSoft.OscCore/OscWriter.cs:157-162 | the blob padding brings the length to a multiple of four, is below four, and is zero for an aligned length |
| Wire.CharToByte | OSC/BuildSoft.OscCore/OscWriter.cs:116-117 | `(byte)chr` keeps the code of every character below 256 |
| Wire.AsciiRoundTrip | OSC/BuildSoft.OscCore/Dependencies/BlobHandles/Runtime/Structs/BlobString.cs:17-37 | Encoding.ASCII decodes its own encoding of ASCII text, and encodes back every byte string below 0x80 |
| Wire.CharBytesOfAscii | OSC/BuildSoft.OscCore/OscWriter.cs:113-117 | on ASCII text the writer's `(byte)chr` bytes equal Encoding.ASCII's bytes |
| TypeTags.IsSupported | OSC/BuildSoft.OscCore/Enums/TypeTag.cs:32-55 | a tag is supported exactly when it is one of the declared enum values |
| TypeTags.DeclaredTagsDistinct | OSC/BuildSoft.OscCore/Enums/TypeTag.cs:8-27 | the seventeen declared tags are distinct ASCII letters and symbols between 'A' and 'z' |
| UnityColor.FromComponents | OSC/BuildSoft.OscCore/UnityObjects/Color32.cs:62-66 | the constructed colour's indexer yields r, g, b, a at 0..3, and its memory layout is r, g, b, a |
| UnityColor.Get | OSC/BuildSoft.OscCore/UnityObjects/Color32.cs:29-39 | the indexer succeeds exactly for 0..3, with that byte of the layout, and throws IndexOutOfRange otherwise |
| UnityColor.Set | OSC/BuildSoft.OscCore/UnityObjects/Color32.cs:40-59 | the setter succeeds exactly for 0..3, the new component reads back and the others are unchanged; it throws IndexOutOfRange otherwise |
| UnityColor.Decimal | OSC/BuildSoft.OscCore/UnityObjects/Color32.cs:72-75 | the decimal text of a number is non-empty digits, of two or more digits exactly from 10 on |
| UnityColor.DecimalValue | OSC/BuildSoft.OscCore/UnityObjects/Color32.cs:72-75 | the decimal text reads back as its number |
| UnityColor.ToString | OSC/BuildSoft.OscCore/UnityObjects/Color32.cs:72-75 | no contract of its own: `RGBA(r, g, b, a)` with each component in decimal. ToStringRoundTrip shows the text parses back to the colour, and ToStringInjective that distinct colours give distinct text |
| UnityColor.SpanDigits | OSC/BuildSoft.OscCore/UnityObjects/Color32.cs:72-75 | the span is the longest digit prefix |
| UnityColor.ParseComponentOfDecimal | OSC/BuildSoft.OscCore/UnityObjects/Color32.cs:72-75 | a component's decimal text followed by a non-digit parses back to the component |
| UnityColor.ParseNextOfDecimal | OSC/BuildSoft.OscCore/UnityObjects/Color32.cs:72-75 | ", " then a component's text parses back to that component |
| UnityColor.ToStringRoundTrip | OSC/BuildSoft.OscCore/UnityObjects/Color32.cs:72-75 | the `RGBA(r, g, b, a)` text parses back to the colour |
| UnityColor.ToStringInjective | OSC/BuildSoft.OscCore/UnityObjects/Color32.cs:72-75 | two colours with the same text are the same colour |
| Blobs.Bytes | OSC/BuildSoft.OscCore/Dependencies/BlobHandles/Runtime/Structs/BlobHandle.cs:19-29 | the bytes a handle stands for are exactly Length long |
| Blobs.FromPointer | OSC/BuildSoft.OscCore/Dependencies/BlobHandles/Runtime/Structs/BlobHandle.cs:47-61 | a pointer handle stands for the first `length` bytes at the pointer |
| Blobs.FromArray | OSC/BuildSoft.OscCore/Dependencies/BlobHandles/Runtime/Structs/BlobHandle.cs:67-73 | an array handle stands for the whole array |
| Blobs.FromSlice | OSC/BuildSoft.OscCore/Dependencies/BlobHandles/Runtime/Structs/BlobHandle.cs:80-100 | an array handle with length and offset stands for that slice |
| Blobs.MemoryCompare | OSC/BuildSoft.OscCore/Dependencies/BlobHandles/Runtime/Structs/BlobHandle.cs:140-152 | the loop returns 0 exactly when the first `count` bytes agree, and 1 otherwise |
| Blobs.Equals | OSC/BuildSoft.OscCore/Dependencies/BlobHandles/Runtime/Structs/BlobHandle.cs:117-121 | different lengths: not equal, nothing read; equal lengths: throws IndexOutOfRange when either handle is an array handle at its array's end (taking `Reference`, line 27), otherwise equal iff the bytes agree |
| Blobs.EqualOperator | OSC/BuildSoft.OscCore/Dependencies/BlobHandles/Runtime/Structs/BlobHandle.cs:128-132 | `==`: false for different lengths; with equal lengths the same IndexOutOfRange as Equals, otherwise true iff the bytes agree |
| Blobs.NotEqualOperator | OSC/BuildSoft.OscCore/Dependencies/BlobHandles/Runtime/Structs/BlobHandle.cs:134-138 | `!=`: true for different lengths; with equal lengths the same IndexOutOfRange as Equals, otherwise true iff some byte differs |
| Blobs.SameBlobIsEquivalence | OSC/BuildSoft.OscCore/Dependencies/BlobHandles/Runtime/Structs/BlobHandle.cs:117-121 | content equality is reflexive, symmetric and transitive |
| Blobs.HashCodeBits | OSC/BuildSoft.OscCore/Dependencies/BlobHandles/Runtime/Structs/BlobHandle.cs:108-114 | the hash is `Length * 397` wrapped to 32 bits with its low byte xor-ed with the last byte |
| Blobs.HashCode | OSC/BuildSoft.OscCore/Dependencies/BlobHandles/Runtime/Structs/BlobHandle.cs:108-114 | no contract of its own; it needs a handle with at least one byte. HashCodeBits gives its bytes and HashConsistentWithEquality shows that equal handles hash alike |
| Blobs.TryHashCode | OSC/BuildSoft.OscCore/Dependencies/BlobHandles/Runtime/Structs/BlobHandle.cs:108-114 | a non-empty handle hashes as HashCodeBits says; an empty one reads `this[-1]`, which the zero-extending indexer (line 43) turns into the byte 0xFFFFFFFF past the start: an empty array handle throws IndexOutOfRange at `_bytes[_offset]` (line 27) when its offset is the array's end, and any other empty handle reads that stray byte or faults |
| Blobs.EmptyStringHandleThrows | OSC/BuildSoft.OscCore/Dependencies/BlobHandles/Runtime/Structs/BlobString.cs:23-27 | the handle of BlobString("") is over an empty array, so hashing it throws IndexOutOfRange |
| Blobs.HashConsistentWithEquality | OSC/BuildSoft.OscCore/Dependencies/BlobHandles/Runtime/Structs/BlobHandle.cs:108-121 | handles equal by content have equal hashes |
| Blobs.PointerAndArrayHandlesAgree | OSC/BuildSoft.OscCore/Dependencies/BlobHandles/Runtime/Structs/BlobHandle.cs:47-114 | a pointer handle and an array handle over the same bytes are equal and hash alike, which is what lets received bytes find a string key |
| Blobs.FromString | OSC/BuildSoft.OscCore/Dependencies/BlobHandles/Runtime/Structs/BlobString.cs:23-27 | a BlobString made from a string holds its Encoding.ASCII bytes, one per character |
| Blobs.FromBytes | OSC/BuildSoft.OscCore/Dependencies/BlobHandles/Runtime/Structs/BlobString.cs:29-32 | a BlobString made from a pointer holds the first `length` bytes |
| Blobs.Length | OSC/BuildSoft.OscCore/Dependencies/BlobHandles/Runtime/Structs/BlobString.cs:21 | a string's length is the number of bytes its handle covers |
| Blobs.ToString | OSC/BuildSoft.OscCore/Dependencies/BlobHandles/Runtime/Structs/BlobString.cs:34-37 | throws IndexOutOfRange exactly when the handle's reference does (the BlobString of an empty array); otherwise one character per byte |
| Blobs.StringHashCode | OSC/BuildSoft.OscCore/Dependencies/BlobHandles/Runtime/Structs/BlobString.cs:40-43 | a BlobString hashes as its handle |
| Blobs.StringEquals | OSC/BuildSoft.OscCore/Dependencies/BlobHandles/Runtime/Structs/BlobString.cs:46-59 | BlobStrings of different lengths are unequal; with equal lengths the handles' IndexOutOfRange, otherwise equal iff the bytes agree |
| Blobs.StringNotEquals | OSC/BuildSoft.OscCore/Dependencies/BlobHandles/Runtime/Structs/BlobString.cs:61-64 | `!=`: true for different lengths; with equal lengths the handles' IndexOutOfRange, otherwise true iff some byte differs |
| Blobs.StringRoundTrip | OSC/BuildSoft.OscCore/Dependencies/BlobHandles/Runtime/Structs/BlobString.cs:23-37 | ToString of a BlobString made from non-empty ASCII text gives the text back; made from "" it throws IndexOutOfRange; Length is the text's length |
| Blobs.FromStringInjectiveOnAscii | OSC/BuildSoft.OscCore/Dependencies/BlobHandles/Runtime/Structs/BlobString.cs:23-27 | two ASCII strings have the same blob bytes iff they are the same string |
| BlobDictionaries.KeyOf | OSC/BuildSoft.OscCore/Dependencies/BlobHandles/Runtime/Collections/BlobStringDictionary.cs:43-46 | a BlobString's key bytes are Length long |
| BlobDictionaries.Probe | OSC/BuildSoft.OscCore/Dependencies/BlobHandles/Runtime/Collections/BlobStringDictionary.cs:35-76 | hashing a key for a Dictionary operation throws exactly when TryHashCode does, with its error |
| BlobDictionaries.ProbesMatchAsDictionary | OSC/BuildSoft.OscCore/Dependencies/BlobHandles/Runtime/Collections/BlobStringDictionary.cs:35-76 | two hashed keys give the same entry iff Dictionary matches them (equal hashes and Equal): for non-empty keys iff the bytes agree, for empty keys iff they read the same stray byte |
| BlobDictionaries.BlobStringDictionary.constructor | OSC/BuildSoft.OscCore/Dependencies/BlobHandles/Runtime/Collections/BlobStringDictionary.cs:19-23 | for a non-negative capacity, both tables start empty and in sync; the value table has buckets exactly when the capacity is positive |
| BlobDictionaries.BlobStringDictionary.Create | OSC/BuildSoft.OscCore/Dependencies/BlobHandles/Runtime/Collections/BlobStringDictionary.cs:19-23 | a negative capacity throws Argument (Dictionary's ArgumentOutOfRange); otherwise a fresh dictionary as the constructor makes it |
| BlobDictionaries.BlobStringDictionary.Add | OSC/BuildSoft.OscCore/Dependencies/BlobHandles/Runtime/Collections/BlobStringDictionary.cs:29-37 | null or recorded string: nothing changes; otherwise the buckets are allocated and the key hashed, so "" throws IndexOutOfRange and is not recorded; an entry already present (the same bytes) throws Argument and nothing is recorded; otherwise both tables gain the entry; recorded strings stay non-empty and the tables stay in sync |
| BlobDictionaries.BlobStringDictionary.AddBlob | OSC/BuildSoft.OscCore/Dependencies/BlobHandles/Runtime/Collections/BlobStringDictionary.cs:43-46 | the buckets are allocated; a key whose hash throws changes nothing and reports that exception; a key whose entry is present throws Argument and changes nothing; otherwise the entry, which for an empty pointer key is its stray hash byte, is added to the value table only |
| BlobDictionaries.BlobStringDictionary.Remove | OSC/BuildSoft.OscCore/Dependencies/BlobHandles/Runtime/Collections/BlobStringDictionary.cs:52-61 | null throws ArgumentNull; an unknown string gives false and changes nothing; a known one is dropped from both tables, and returns true when they were in sync |
| BlobDictionaries.BlobStringDictionary.RemoveBlob | OSC/BuildSoft.OscCore/Dependencies/BlobHandles/Runtime/Collections/BlobStringDictionary.cs:67-70 | without buckets: false, nothing hashed; otherwise a key whose hash throws reports that exception, and any other key's entry is removed from the value table, returning whether it was there; empty keys with different stray bytes are different entries |
| BlobDictionaries.BlobStringDictionary.TryGetValueFromBytes | OSC/BuildSoft.OscCore/Dependencies/BlobHandles/Runtime/Collections/BlobStringDictionary.cs:74-77 | without buckets: not found; otherwise byteCount 0 reads the byte 0xFFFFFFFF past the pointer, faulting when it is unmapped and otherwise finding the empty key recorded with that hash byte; a non-empty run finds a value iff its bytes are a key, and returns that key's value |
| BlobDictionaries.BlobStringDictionary.Clear | OSC/BuildSoft.OscCore/Dependencies/BlobHandles/Runtime/Collections/BlobStringDictionary.cs:79-83 | both tables become empty |
| BlobDictionaries.LookupFindsRecordedString | OSC/BuildSoft.OscCore/Dependencies/BlobHandles/Runtime/Collections/BlobStringDictionary.cs:29-77 | received bytes that spell a recorded ASCII string hash to its entry and find its value, and spell no other recorded string |
| ActionPairs.Combine | OSC/BuildSoft.OscCore/OscActionPair.cs:42-47 | Delegate.Combine concatenates the invocation lists |
| ActionPairs.FindLast | OSC/BuildSoft.OscCore/OscActionPair.cs:49-54 | the search returns the last position at or below k where the sub-list occurs, or -1 |
| ActionPairs.RemoveCutsLastOccurrence | OSC/BuildSoft.OscCore/OscActionPair.cs:49-54 | Delegate.Remove cuts the last occurrence of the sub-list, and changes nothing when there is none |
| ActionPairs.RemoveUndoesCombine | OSC/BuildSoft.OscCore/OscActionPair.cs:42-54 | removing b from Combine(a, b) gives a |
| ActionPairs.RemoveShrinks | OSC/BuildSoft.OscCore/OscActionPair.cs:49-54 | Remove only drops invocations: the result is a sub-multiset |
| ActionPairs.New | OSC/BuildSoft.OscCore/OscActionPair.cs:22-27 | a null value-read delegate throws ArgumentNull; otherwise both delegates are kept |
| ActionPairs.Deconstruct | OSC/BuildSoft.OscCore/OscActionPair.cs:35-39 | the constructor applied to the two parts rebuilds the pair |
| ActionPairs.DeconstructRoundTrip | OSC/BuildSoft.OscCore/OscActionPair.cs:22-39 | deconstructing a constructed pair gives back the constructor's two arguments |
| ActionPairs.Plus | OSC/BuildSoft.OscCore/OscActionPair.cs:42-47 | each list of `l + r` is l's followed by r's: the null test on l's main-thread delegate changes nothing |
| ActionPairs.PlusAssociative | OSC/BuildSoft.OscCore/OscActionPair.cs:42-47 | `+` is associative |
| ActionPairs.MinusAsWritten | OSC/BuildSoft.OscCore/OscActionPair.cs:49-54 | as written, `-` throws iff nothing of the value-read list is left, and otherwise removes r's value-read delegate |
| ActionPairs.MinusAsWrittenAddsMainThread | OSC/BuildSoft.OscCore/OscActionPair.cs:49-54 | as written, subtracting a pair from one without a main-thread delegate gives the result r's main-thread delegate |
| ActionPairs.Minus | OSC/BuildSoft.OscCore/OscActionPair.cs:49-54 | corrected `-` throws ArgumentNull iff nothing of the value-read list is left, and otherwise removes from both fields, so no main-thread delegate is gained |
| ActionPairs.MinusUndoesPlus | OSC/BuildSoft.OscCore/OscActionPair.cs:42-54 | `(l + r) - r == l` for the corrected operator, and also as written |
| AddressSpaces.MethodsAdd | OSC/BuildSoft.OscCore/OscAddressSpace.cs:37-39 | adding a pair registers its address and leaves the other addresses' pairs alone |
| AddressSpaces.MethodsRemove | OSC/BuildSoft.OscCore/OscAddressSpace.cs:93-94 | corrected (Finding 1): removal reports whether the address was known, and never adds an address |
| AddressSpaces.MethodsAddAll | OSC/BuildSoft.OscCore/OscServer.cs:326-327 | adding a list registers the address iff the list is non-empty |
| AddressSpaces.MethodsRemoveAddress | OSC/BuildSoft.OscCore/OscAddressSpace.cs:74-84 | removing an address reports whether it was known and drops exactly that address |
| AddressSpaces.AddMatchesRegisters | OSC/BuildSoft.OscCore/OscAddressSpace.cs:133-141 | the scan as written registers the address iff some slot below patternCount matches, and leaves other addresses alone |
| AddressSpaces.AddLiveMatchesRegisters | OSC/BuildSoft.OscCore/OscAddressSpace.cs:118-144 | corrected (Finding 5): the scan registers the address iff some slot holding a registered pattern at its own index matches, and leaves other addresses alone |
| AddressSpaces.ScansAgreeWithoutHoles | OSC/BuildSoft.OscCore/OscAddressSpace.cs:133-141 | when every slot below the count holds a registered pattern and no slot above it does, the corrected scan behaves as written |
| AddressSpaces.LiveScanAgreesBelow | OSC/BuildSoft.OscCore/OscAddressSpace.cs:133-141 | over slots that all hold registered patterns, the corrected scan and the scan as written agree slot for slot |
| AddressSpaces.DeadTailAddsNothing | OSC/BuildSoft.OscCore/OscAddressSpace.cs:118-144 | slots that hold no registered pattern add nothing to the corrected scan and cannot make it match |
| AddressSpaces.RemovalLeavesHoleBelowCount | OSC/BuildSoft.OscCore/OscAddressSpace.cs:86-141 | after adding "/a/*" and "/b/*" and removing "/a/*", slot 0 is empty below the count of 1, so the scan as written cannot run, and it would never reach "/b/*", which the corrected scan finds |
| AddressSpaces.RejectedPatternLosesFreedSlot | OSC/BuildSoft.OscCore/OscAddressSpace.cs:49-66 | as written, a pattern Regex rejects after the freed slot 0 was dequeued leaves that slot lost: the bookkeeping is inconsistent and the next new pattern takes slot 1, where a live pattern sits |
| AddressSpaces.Resized | OSC/BuildSoft.OscCore/OscAddressSpace.cs:58-60 | Array.Resize keeps the old slots and fills the new ones with null |
| AddressSpaces.IndexBookAdd | OSC/BuildSoft.OscCore/OscAddressSpace.cs:49-67 | the slot a new pattern takes is in range and unused, and the slot bookkeeping stays consistent |
| AddressSpaces.IndexBookRemove | OSC/BuildSoft.OscCore/OscAddressSpace.cs:110-112 | releasing a pattern's slot keeps the slot bookkeeping consistent |
| AddressSpaces.SlotBookAdd | OSC/BuildSoft.OscCore/OscAddressSpace.cs:64-66 | filling an unused slot keeps every registered pattern string in its own slot with a pair |
| AddressSpaces.SlotBookRemove | OSC/BuildSoft.OscCore/OscAddressSpace.cs:99-112 | emptying or subtracting from a pattern's slot and forgetting the pattern keeps the others in their slots |
| AddressSpaces.SlotBookResize | OSC/BuildSoft.OscCore/OscAddressSpace.cs:56-61 | growing the arrays keeps every registered pattern in its slot |
| AddressSpaces.OscAddressSpace.constructor | OSC/BuildSoft.OscCore/OscAddressSpace.cs:25-28 | an empty table and eight empty pattern slots, satisfying the invariant |
| AddressSpaces.OscAddressSpace.TryAddMethod | OSC/BuildSoft.OscCore/OscAddressSpace.cs:30-72 | empty address, null pair or invalid address: false, nothing changes; an address: added to the table; a known pattern: its slot's pair gains the new one with `+`; corrected (Finding 6), a new pattern Regex rejects throws Argument with nothing changed; any other new pattern is placed in the next slot (freed first, else the count, growing the arrays when full); the invariant is kept |
| AddressSpaces.OscAddressSpace.ComposePattern | OSC/BuildSoft.OscCore/OscAddressSpace.cs:43-47 | a known pattern's slot pair becomes old + new, and nothing else changes |
| AddressSpaces.OscAddressSpace.GrowPatternArrays | OSC/BuildSoft.OscCore/OscAddressSpace.cs:56-61 | both slot arrays double and keep their contents |
| AddressSpaces.OscAddressSpace.AddPattern | OSC/BuildSoft.OscCore/OscAddressSpace.cs:49-67 | a new pattern is placed in its slot, the count grows, the index map records it, and the invariant is kept |
| AddressSpaces.OscAddressSpace.NewPatternKeepsValid | OSC/BuildSoft.OscCore/OscAddressSpace.cs:49-67 | the state after placing a new pattern satisfies the invariant |
| AddressSpaces.OscAddressSpace.TakeSlot | OSC/BuildSoft.OscCore/OscAddressSpace.cs:49-60 | the slot is the oldest freed index, else the count; the arrays double exactly when none is freed and the count reaches the capacity |
| AddressSpaces.OscAddressSpace.FillSlot | OSC/BuildSoft.OscCore/OscAddressSpace.cs:64-65 | the slot gets the pattern and the pair |
| AddressSpaces.OscAddressSpace.RemoveAddressMethod | OSC/BuildSoft.OscCore/OscAddressSpace.cs:74-84 | only a valid exact address is removed from the table, with the table's answer; patterns are untouched |
| AddressSpaces.OscAddressSpace.RemoveMethod | OSC/BuildSoft.OscCore/OscAddressSpace.cs:86-116 | corrected (Finding 1): invalid input: false; an address: removed from the table; an unknown pattern: false; a known pattern: its slot is emptied (single handler) or subtracted from with the corrected `-`, the count drops, the slot is queued as freed and the pattern string is forgotten; the invariant is kept |
| AddressSpaces.OscAddressSpace.RemovePattern | OSC/BuildSoft.OscCore/OscAddressSpace.cs:95-112 | corrected (Finding 1): the pattern branch of RemoveMethod, subtracting with the corrected `-`, including its throw when nothing is left |
| AddressSpaces.OscAddressSpace.ReleaseSlot | OSC/BuildSoft.OscCore/OscAddressSpace.cs:100-112 | the slot update, the count decrement, the freed-queue append and the map removal, keeping the invariant |
| AddressSpaces.OscAddressSpace.WriteSlot | OSC/BuildSoft.OscCore/OscAddressSpace.cs:100-108 | a single-handler slot is nulled, otherwise its pair is replaced by the remainder |
| AddressSpaces.OscAddressSpace.AddMethods | OSC/BuildSoft.OscCore/OscServer.cs:326-327 | the table gains the list's pairs under the address, and the patterns are untouched |
| AddressSpaces.OscAddressSpace.TryMatchPatternHandlerAsWritten | OSC/BuildSoft.OscCore/OscAddressSpace.cs:125-144 | as written: an invalid address gives false with the list and the table unchanged; otherwise the list is cleared, the answer is whether a slot below patternCount matches, and each match is added to the table |
| AddressSpaces.OscAddressSpace.TryMatchPatternHandler | OSC/BuildSoft.OscCore/OscAddressSpace.cs:118-144 | corrected (Finding 5): an invalid address gives false with the list and the table unchanged; otherwise the list is cleared and every slot holding a registered pattern at its own index is tried, each match added to the table; on a valid address space the answer is true iff some registered pattern string matches |
| AddressSpaces.OscAddressSpace.ScanTriesRegisteredPatterns | OSC/BuildSoft.OscCore/OscAddressSpace.cs:118-121 | the corrected scan finds a match iff some pattern string registered in the index matches the address: every known pattern is tried, and no forgotten one |
| Writer.Splice | OSC/BuildSoft.OscCore/OscWriter.cs:242-245 | writing at a position changes exactly the bytes written and keeps the rest |
| Writer.OscStringShape | OSC/BuildSoft.OscCore/OscWriter.cs:114-127 | a written string is its bytes followed by one to four NULs, padded to a multiple of four |
| Writer.BlobStringBytesMatchString | OSC/BuildSoft.OscCore/OscWriter.cs:130-142 | the BlobString of ASCII text has a throwing reference iff the text is empty; for non-empty text, writing it emits the same bytes as writing the text |
| Writer.OscBlobShape | OSC/BuildSoft.OscCore/OscWriter.cs:148-163 | a written blob is aligned, its size word reads back as the size, the data follows it, and padding is under four bytes |
| Writer.OscBlobParts | OSC/BuildSoft.OscCore/OscWriter.cs:148-163 | a written blob is the size word, the data and the padding |
| Writer.Color32Layout | OSC/BuildSoft.OscCore/OscWriter.cs:178-181 | a colour is written as a, b, g, r (its reversed layout) |
| Writer.Int32TagWordExample | OSC/BuildSoft.OscCore/OscWriter.cs:237-238 | the tag word 26924 written in host order spells ",i" and two NULs |
| Writer.AddressAndTagsAsSeparateWrites | OSC/BuildSoft.OscCore/OscWriter.cs:222-240 | the combined write equals writing the address string and then the tag word, and begins with the address string |
| Writer.OscWriter.constructor | OSC/BuildSoft.OscCore/OscWriter.cs:19-22 | a zeroed buffer of the capacity, length 0 |
| Writer.OscWriter.Create | OSC/BuildSoft.OscCore/OscWriter.cs:19-22 | a negative capacity throws Overflow; otherwise a fresh writer with a zeroed buffer of that capacity and length 0 |
| Writer.OscWriter.Reset | OSC/BuildSoft.OscCore/OscWriter.cs:27 | length becomes 0 and the bytes are kept |
| Writer.OscWriter.WriteToBigEndian | OSC/BuildSoft.OscCore/OscWriter.cs:30-73 | the host bytes are stored reversed at the length, which grows by their count |
| Writer.OscWriter.WriteInt32 | OSC/BuildSoft.OscCore/OscWriter.cs:87-90 | the int's 4 network bytes are stored at the length |
| Writer.OscWriter.WriteFloat32 | OSC/BuildSoft.OscCore/OscWriter.cs:93-96 | the float's 4 bits are stored in network order |
| Writer.OscWriter.WriteVector2 | OSC/BuildSoft.OscCore/OscWriter.cs:99-103 | x then y, each in network order |
| Writer.OscWriter.WriteVector3 | OSC/BuildSoft.OscCore/OscWriter.cs:106-111 | x, y then z, each in network order |
| Writer.OscWriter.WriteString | OSC/BuildSoft.OscCore/OscWriter.cs:114-127 | the padded OSC-string bytes are stored and the length grows by the padded length |
| Writer.OscWriter.StoreChars | OSC/BuildSoft.OscCore/OscWriter.cs:116-117 | the loop stores `(byte)chr` for each character |
| Writer.OscWriter.StoreBytes | OSC/BuildSoft.OscCore/OscWriter.cs:133-134 | the block copy stores the bytes at the length |
| Writer.OscWriter.StoreZeros | OSC/BuildSoft.OscCore/OscWriter.cs:125-126 | the loop stores `count` NULs |
| Writer.OscWriter.WriteBlobString | OSC/BuildSoft.OscCore/OscWriter.cs:130-142 | a handle at its array's end throws IndexOutOfRange with nothing written; otherwise the BlobString's bytes and its NUL padding are stored and the length grows by the padded length |
| Writer.OscWriter.WriteBlob | OSC/BuildSoft.OscCore/OscWriter.cs:148-163 | when the 32-bit sum start + len passes the array's end, nothing is written; otherwise the size word is written, a range BlockCopy rejects (negative, or past either array) throws Argument after it, and a good range stores the bytes and the padding; a self-copy reads the buffer with the size word already written |
| Writer.OscWriter.WriteInt64 | OSC/BuildSoft.OscCore/OscWriter.cs:166-169 | the long's 8 network bytes are stored |
| Writer.OscWriter.WriteFloat64 | OSC/BuildSoft.OscCore/OscWriter.cs:172-175 | the double's 8 bits are stored in network order |
| Writer.OscWriter.WriteColor32 | OSC/BuildSoft.OscCore/OscWriter.cs:178-181 | the colour's reversed layout is stored |
| Writer.OscWriter.WriteMidi | OSC/BuildSoft.OscCore/OscWriter.cs:184-188 | the MIDI struct's four bytes are stored unchanged, in layout order |
| Writer.OscWriter.WriteChar | OSC/BuildSoft.OscCore/OscWriter.cs:201-206 | only the last byte of the 4-byte slot is written; the length grows by 4 |
| Writer.OscWriter.WriteBundlePrefix | OSC/BuildSoft.OscCore/OscWriter.cs:209-215 | "#bundle " is stored |
| Writer.OscWriter.WriteAddressAndTags | OSC/BuildSoft.OscCore/OscWriter.cs:222-240 | the buffer starts with the address string and the host-order tag word, and the length is exactly their size |
| Writer.OscWriter.CopyBuffer | OSC/BuildSoft.OscCore/OscWriter.cs:242-245 | when the written bytes fit the target at the offset, they are copied there and nothing else of the target changes; otherwise BlockCopy throws Argument and the target is unchanged |
| MessageValues.ShiftOrInt32 | OSC/BuildSoft.OscCore/Message/OscMessageValues.Int.cs:53-56 | the shift-or of four slot bytes is the int whose network bytes they are |
| MessageValues.ConvertBufferUInt32 | OSC/BuildSoft.OscCore/Message/OscMessageValues.Int.cs:60-68 | the ConvertBuffer reversal yields the uint whose network bytes are the slot |
| MessageValues.SingleFromSlot | OSC/BuildSoft.OscCore/Message/OscMessageValues.Float.cs:47-59 | the float read is the one whose network bits are the slot |
| MessageValues.DoubleFromSlot | OSC/BuildSoft.OscCore/Message/OscMessageValues.Float64.cs:61-77 | the double read is the one whose network bits are the slot |
| MessageValues.NetworkInt64 | OSC/BuildSoft.OscCore/Message/OscMessageValues.Int64.cs:61-68 | NetworkToHostOrder yields the long whose network bytes are the slot |
| MessageValues.ColorFromSlot | OSC/BuildSoft.OscCore/Message/OscMessageValues.Color32.cs:43-55 | the colour read is the one the writer would emit as the slot |
| MessageValues.SwapBytes | OSC/BuildSoft.OscCore/Message/OscMessageValues.Timestamp.cs:59-62 | no contract of its own; SwapWord and SwapBytesInvolution state what it does |
| MessageValues.SwapWord | OSC/BuildSoft.OscCore/Message/OscMessageValues.Timestamp.cs:59-62 | the mask-and-shift swap reverses the four bytes of a word |
| MessageValues.SwapBytesInvolution | OSC/BuildSoft.OscCore/Message/OscMessageValues.Timestamp.cs:59-62 | swapping the bytes of a word twice gives it back |
| MessageValues.SwappedHostWord | OSC/BuildSoft.OscCore/Message/OscMessageValues.Timestamp.cs:54-62 | the host word of 4 bytes, byte-swapped, is the word whose network bytes they are |
| MessageValues.OscMessageValues.constructor | OSC/BuildSoft.OscCore/Message/OscMessageValues.cs:54-60 | the shared buffer is kept; tags and offsets are fresh zeroed arrays of the capacity; no elements |
| MessageValues.OscMessageValues.Slot | OSC/BuildSoft.OscCore/Message/OscMessageValues.cs:37-52 | an element's slot is `width` bytes long |
| MessageValues.OscMessageValues.GetTypeTag | OSC/BuildSoft.OscCore/Message/OscMessageValues.cs:75-81 | the element's tag |
| MessageValues.OscMessageValues.OutOfBounds | OSC/BuildSoft.OscCore/Message/OscMessageValues.cs:84-93 | flagged iff the index is at or past the element count; negative indices pass |
| MessageValues.OscMessageValues.ForEachElement | OSC/BuildSoft.OscCore/Message/OscMessageValues.cs:64-68 | visits each element in order with its index and its tag |
| MessageValues.OscMessageValues.ReadIntElement | OSC/BuildSoft.OscCore/Message/OscMessageValues.Int.cs:14-37 | Int32 reads the network int, Float32 is converted; any other tag throws InvalidOperation |
| MessageValues.OscMessageValues.ReadIntElementUnchecked | OSC/BuildSoft.OscCore/Message/OscMessageValues.Int.cs:47-57 | the int whose network bytes are the slot |
| MessageValues.OscMessageValues.ReadUIntIndex | OSC/BuildSoft.OscCore/Message/OscMessageValues.Int.cs:60-68 | the uint whose network bytes are at the index |
| MessageValues.OscMessageValues.ReadIntIndex | OSC/BuildSoft.OscCore/Message/OscMessageValues.Int.cs:71-77 | the int whose network bytes are at the index |
| MessageValues.OscMessageValues.ReadInt64Element | OSC/BuildSoft.OscCore/Message/OscMessageValues.Int64.cs:15-51 | Int64 read, Int32 widened, Float64 and Float32 converted; any other tag throws InvalidOperation |
| MessageValues.OscMessageValues.ReadInt64ElementUnchecked | OSC/BuildSoft.OscCore/Message/OscMessageValues.Int64.cs:61-68 | the long whose network bytes are the slot |
| MessageValues.OscMessageValues.ReadFloatElement | OSC/BuildSoft.OscCore/Message/OscMessageValues.Float.cs:14-37 | Float32 read, Int32 converted; any other tag throws InvalidOperation |
| MessageValues.OscMessageValues.ReadFloatElementUnchecked | OSC/BuildSoft.OscCore/Message/OscMessageValues.Float.cs:47-59 | the float whose network bits are the slot |
| MessageValues.OscMessageValues.ReadFloat64Element | OSC/BuildSoft.OscCore/Message/OscMessageValues.Float64.cs:15-51 | Float64 read; Float32, Int64 and Int32 converted; any other tag throws InvalidOperation |
| MessageValues.OscMessageValues.ReadFloat64ElementUnchecked | OSC/BuildSoft.OscCore/Message/OscMessageValues.Float64.cs:61-77 | the double whose network bits are the slot |
| MessageValues.OscMessageValues.ReadBooleanElement | OSC/BuildSoft.OscCore/Message/OscMessageValues.Boolean.cs:14-26 | True and False give themselves, Int32 gives whether the int is positive; any other tag throws InvalidOperation |
| MessageValues.OscMessageValues.ReadAsciiCharElement | OSC/BuildSoft.OscCore/Message/OscMessageValues.AsciiChar.cs:15-26 | a char element is the last byte of its slot; any other tag throws InvalidOperation |
| MessageValues.OscMessageValues.ReadColor32Element | OSC/BuildSoft.OscCore/Message/OscMessageValues.Color32.cs:15-33 | a Color32 element is the colour the writer would emit as the slot; any other tag throws InvalidOperation |
| MessageValues.OscMessageValues.ReadColor32ElementUnchecked | OSC/BuildSoft.OscCore/Message/OscMessageValues.Color32.cs:43-55 | the colour whose written form is the slot |
| MessageValues.OscMessageValues.ReadMidiElement | OSC/BuildSoft.OscCore/Message/OscMessageValues.MIDI.cs:15-27 | a MIDI element is its slot's four bytes; any other tag throws InvalidOperation |
| MessageValues.OscMessageValues.ReadMidiElementUnchecked | OSC/BuildSoft.OscCore/Message/OscMessageValues.MIDI.cs:37-43 | the slot's four bytes |
| MessageValues.OscMessageValues.ReadTimestampElement | OSC/BuildSoft.OscCore/Message/OscMessageValues.Timestamp.cs:14-27 | a TimeTag element is its unchecked read; any other tag throws InvalidOperation |
| MessageValues.OscMessageValues.ReadTimestampElementUnchecked | OSC/BuildSoft.OscCore/Message/OscMessageValues.Timestamp.cs:36-45 | no contract of its own: the conversion of the element's 8 slot bytes, whatever the tag. ReadTimestampElement's ensures makes it the checked read's value on a TimeTag element |
| MessageValues.OscMessageValues.ReadTimestampIndex | OSC/BuildSoft.OscCore/Message/OscMessageValues.Timestamp.cs:47-65 | seconds and fractions are the uints whose network bytes are at the index and 4 bytes later |
| MessageValues.OscMessageValues.ReadStringElement | OSC/BuildSoft.OscCore/Message/OscMessageValues.String.cs:17-88 | String/AltTypeString: the ASCII text up to the NUL, throwing IndexOutOfRange when the buffer ends first; numbers formatted; True, False, Nil and Infinitum by name; a colour as its RGBA text; a char as itself; Blob, TimeTag, the array brackets and unknown tags throw InvalidOperation |
| MessageValues.OscMessageValues.ReadStringElementBytes | OSC/BuildSoft.OscCore/Message/OscMessageValues.String.cs:97-118 | a non-string tag throws InvalidOperation; otherwise, when the run up to the NUL fits copyTo, it is copied to the start and its length returned; when it does not, IndexOutOfRange is thrown after the bytes that fit were copied |
| MessageValues.OscMessageValues.ReadStringElementBytesAt | OSC/BuildSoft.OscCore/Message/OscMessageValues.String.cs:128-152 | the same, copying at copyOffset: a negative offset throws before any byte is copied, a short target after the bytes that fit |
| MessageValues.OscMessageValues.ReadBlobElement | OSC/BuildSoft.OscCore/Message/OscMessageValues.Blob.cs:17-34 | a non-blob tag throws InvalidOperation; a negative size overflows; a size past the buffer throws Argument; otherwise a fresh array of the blob's bytes |
| MessageValues.OscMessageValues.ReadBlobElementInto | OSC/BuildSoft.OscCore/Message/OscMessageValues.Blob.cs:48-67 | a non-blob tag throws InvalidOperation and leaves the array unchanged. A blob is resized and copied as GrowAndCopy states, with the int32 wrap-around of the room test and the new size |
| MessageValues.OscMessageValues.GrowAndCopy | OSC/BuildSoft.OscCore/Message/OscMessageValues.Blob.cs:56-63 | uses the int32-wrapped room test `copyTo.Length - copyOffset <= size` and the wrapped new size `size + copyOffset + 1024`. A negative new size throws Argument. Any other new size resizes, possibly shrinking, with the caller's old array untouched. The copy then lands at the offset and returns the size; if the range is out of bounds it throws Argument and nothing is copied. With non-negative size and offset it succeeds iff the blob lies in the buffer and, when growing, the unwrapped new size is below 2^31 |
| MessageValues.OscMessageValues.Resize | OSC/BuildSoft.OscCore/Message/OscMessageValues.Blob.cs:59-60 | Array.Resize: the same array for an equal size, otherwise a fresh one holding ResizedBytes of the old |
| MessageValues.ResizedBytes | OSC/BuildSoft.OscCore/Message/OscMessageValues.Blob.cs:59-60 | the contents Array.Resize leaves: exactly n bytes, the old ones up to n and zeros past the old length |
| MessageValues.OscMessageValues.CopyOut | OSC/BuildSoft.OscCore/Message/OscMessageValues.Blob.cs:62 | Buffer.BlockCopy copies the range exactly when it fits both arrays, and throws Argument otherwise with the target unchanged |
| MessageValues.RunLength | OSC/BuildSoft.OscCore/Message/OscMessageValues.String.cs:104-116 | the run is the longest NUL-free stretch from the start, ending at a NUL or the buffer's end |
| MessageValues.CopiedRun | OSC/BuildSoft.OscCore/Message/OscMessageValues.String.cs:104-116 | the target with the run copied at the offset and nothing else changed |
| MessageValues.CopyUntilNul | OSC/BuildSoft.OscCore/Message/OscMessageValues.String.cs:104-116 | the copy loop copies exactly the run and returns its length when it fits the target, and otherwise throws IndexOutOfRange at the first index past the target, leaving the prefix that fitted copied |
| MessageValues.Fitting | OSC/BuildSoft.OscCore/Message/OscMessageValues.String.cs:104-116 | how many bytes of the run the managed indexer accepts before throwing: all of them exactly when the run fits |
| MessageValues.CopiedRunPrefix | OSC/BuildSoft.OscCore/Message/OscMessageValues.String.cs:104-116 | the target with the first n bytes of the run copied at the offset and every other byte as it was |
| MessageValues.Int32ReadsBack | OSC/BuildSoft.OscCore/Message/OscMessageValues.Int.cs:14-37 | what Write(int) emits reads back as the same int, by ReadIntElement and by ReadInt64Element |
| MessageValues.Int64ReadsBack | OSC/BuildSoft.OscCore/Message/OscMessageValues.Int64.cs:15-51 | what Write(long) emits reads back as the same long |
| MessageValues.Float32ReadsBack | OSC/BuildSoft.OscCore/Message/OscMessageValues.Float.cs:14-37 | what Write(float) emits reads back as the same bits |
| MessageValues.Float64ReadsBack | OSC/BuildSoft.OscCore/Message/OscMessageValues.Float64.cs:15-51 | what Write(double) emits reads back as the same bits |
| MessageValues.Color32ReadsBack | OSC/BuildSoft.OscCore/Message/OscMessageValues.Color32.cs:15-33 | what Write(Color32) emits reads back as the same colour |
| MessageValues.MidiReadsBack | OSC/BuildSoft.OscCore/Message/OscMessageValues.MIDI.cs:15-27 | what Write(MidiMessage) emits reads back as the same message |
| MessageValues.CharReadsBack | OSC/BuildSoft.OscCore/Message/OscMessageValues.AsciiChar.cs:15-26 | what Write(char) emits reads back as the same character below 256 |
| MessageValues.StringReadsBack | OSC/BuildSoft.OscCore/Message/OscMessageValues.String.cs:17-88 | what Write(string) emits for NUL-free ASCII text reads back as that text, stopping at its terminator |
| MessageValues.BlobReadsBack | OSC/BuildSoft.OscCore/Message/OscMessageValues.Blob.cs:17-34 | what Write(byte[], ...) emits reads back as its size and its bytes |
| MessageValues.BlobBytesReadBack | OSC/BuildSoft.OscCore/Message/OscMessageValues.Blob.cs:26-29 | a written blob's size word is its size and the data follows it |
| Server.NextOffset | OSC/BuildSoft.OscCore/OscServer.cs:259-274 | corrected, the walk always advances by at least the 4-byte size word |
| Server.NextOffsetAsWritten | OSC/BuildSoft.OscCore/OscServer.cs:245-276 | no contract of its own: the `(int)` cast and the wrapping `+=` of the source. NextOffsetAgrees and NextOffsetAsWrittenStalls compare it with NextOffset |
| Server.Walk | OSC/BuildSoft.OscCore/OscServer.cs:230-283 | corrected (Finding 3): every element the bundle walk finds lies inside the buffer |
| Server.WalkShape | OSC/BuildSoft.OscCore/OscServer.cs:230-283 | corrected (Finding 3): elements come in ascending order past their size words with non-empty addresses, and the walk cannot overrun a buffer 3 bytes longer than the datagram |
| Server.WalkFindsEveryFrame | OSC/BuildSoft.OscCore/OscServer.cs:230-283 | a bundle of size-prefixed messages is walked to exactly those messages, in order, at their content indices |
| Server.ContentIndices | OSC/BuildSoft.OscCore/OscServer.cs:242-243 | one content index per framed message |
| Server.WidenBytes | OSC/BuildSoft.OscCore/OscServer.cs:339-346 | OverwriteAsciiString widens one byte to one character |
| Server.Ran | OSC/BuildSoft.OscCore/OscServer.cs:183-190 | the runs of the queued delegates, one per entry, in queue order |
| Server.Handle | OSC/BuildSoft.OscCore/OscServer.cs:287-297 | no contract of its own: one value-read run, plus the main-thread delegate queued when there is one. HandleCallbacks' ensures makes it that method's new state, and ExactHitHandlesOnce spells it out |
| Server.MatchPatterns | OSC/BuildSoft.OscCore/OscServer.cs:307-336 | no contract of its own. TryMatchPatterns' ensures makes it that method's new state. PatternPathRunsNothing, PatternHitRegistersAddress and BundleProbeIsElementAddress give its effects |
| Server.DispatchOne | OSC/BuildSoft.OscCore/OscServer.cs:264-274 | no contract of its own. DispatchElement's ensures makes it that method's new state. DispatchOneOnlyAppends, ExactHitHandlesOnce, PatternPathRunsNothing, MissWithoutPatternsIsIgnored and BundleProbeIsElementAddress give its cases |
| Server.DispatchAll | OSC/BuildSoft.OscCore/OscServer.cs:197-285 | no contract of its own. ParseBuffer, WalkBundle and ScanElements state their new state with it. DispatchAllOnlyAppends and DispatchAllAppend give its properties |
| Server.DispatchAllAppend | OSC/BuildSoft.OscCore/OscServer.cs:241-275 | dispatching two runs of elements is dispatching the first and then the second |
| Server.DispatchAllOnlyAppends | OSC/BuildSoft.OscCore/OscServer.cs:197-285 | dispatch only appends to the invocation log and the main-thread queue, and never forgets an address |
| Server.DispatchOneOnlyAppends | OSC/BuildSoft.OscCore/OscServer.cs:214-222 | the same for one message |
| Server.ExactHitHandlesOnce | OSC/BuildSoft.OscCore/OscServer.cs:214-217 | an exact hit runs that address's value-read delegate once, queues its main-thread delegate iff there is one, and changes nothing else |
| Server.PatternPathRunsNothing | OSC/BuildSoft.OscCore/OscServer.cs:307-336 | a miss runs and queues nothing, because the matched list is cleared and never filled |
| Server.MissWithoutPatternsIsIgnored | OSC/BuildSoft.OscCore/OscServer.cs:218-222 | with no pattern registered a miss changes nothing |
| Server.PatternHitRegistersAddress | OSC/BuildSoft.OscCore/OscServer.cs:307-336 | a pattern hit registers the address, so the next message to it is an exact hit that runs its value-read delegate |
| Server.BundleProbeAsWrittenReadsHeader | OSC/BuildSoft.OscCore/OscServer.cs:273 | as written, a bundle element's pattern probe reads the datagram's "#bundle " header |
| Server.BundleProbeAsWritten | OSC/BuildSoft.OscCore/OscServer.cs:273 | no contract of its own: the datagram's first address-length bytes. BundleProbeAsWrittenReadsHeader shows they spell "#bundle " |
| Server.BundleProbeIsElementAddress | OSC/BuildSoft.OscCore/OscServer.cs:265-274 | corrected (Finding 4): take any element, bundled or not, whose ASCII address misses the table while some pattern is registered. DispatchOne caches that address as the string for its length. The table gains exactly that address's bytes, and does so iff the address is valid and some registered pattern matches it |
| Server.NextOffsetAsWrittenStalls | OSC/BuildSoft.OscCore/OscServer.cs:243-274 | as written, the size 0xFFFFFFFC cast to int leaves the offset where it was |
| Server.NextOffsetAgrees | OSC/BuildSoft.OscCore/OscServer.cs:243-274 | from a non-negative offset, the corrected step equals the step as written exactly when offset + size + 4 stays below 2^31; from offset 16 a size word of 0x7FFFFFF0 already wraps the source's offset negative |
| Server.OscServer.constructor | OSC/BuildSoft.OscCore/OscServer.cs:33-45 | a fresh valid address space with no handlers, started and running, with empty queue, log, string cache and matched list |
| Server.OscServer.Start | OSC/BuildSoft.OscCore/OscServer.cs:47-61 | the server ends started and running; disposed is cleared unless it was already started |
| Server.OscServer.Update | OSC/BuildSoft.OscCore/OscServer.cs:183-190 | the queue is drained and its delegates run in order |
| Server.OscServer.HandleCallbacks | OSC/BuildSoft.OscCore/OscServer.cs:287-297 | the value-read delegate runs; a main-thread delegate is queued |
| Server.OscServer.TryMatchPatterns | OSC/BuildSoft.OscCore/OscServer.cs:307-336 | corrected (Finding 5): the cached string of that length is overwritten, or a new one decoded and cached; a hit of the corrected scan adds the address to the table and handles the matched list |
| Server.OscServer.RunMatched | OSC/BuildSoft.OscCore/OscServer.cs:328-334 | each matched pair is handled in order |
| Server.OscServer.DispatchElement | OSC/BuildSoft.OscCore/OscServer.cs:264-274 | corrected (Findings 4 and 5): an exact hit is handled; otherwise, with some pattern registered, the patterns are tried against the element's own address |
| Server.OscServer.ParseBuffer | OSC/BuildSoft.OscCore/OscServer.cs:197-285 | corrected (Findings 3 to 5): a plain message with a parsed address is dispatched once, one the parser rejects is ignored; a bundle is walked and every element found is dispatched in order; the invariant is kept |
| Server.OscServer.ScanElement | OSC/BuildSoft.OscCore/OscServer.cs:243-274 | corrected (Findings 3 and 4): one inner-loop step: recurse into a nested bundle, skip an unparsable element, or dispatch one and advance |
| Server.OscServer.WalkBundle | OSC/BuildSoft.OscCore/OscServer.cs:230-283 | corrected (Findings 3 to 5): the do-while walk dispatches exactly the elements the bundle walk finds |
| Server.OscServer.ScanElements | OSC/BuildSoft.OscCore/OscServer.cs:241-275 | corrected (Findings 3 to 5): the inner loop dispatches the elements found up to the end or a nested bundle |
| Server.PortRegistry.constructor | OSC/BuildSoft.OscCore/OscServer.cs:27 | the registry starts empty |
| Server.PortRegistry.NewServer | OSC/BuildSoft.OscCore/OscServer.cs:33-45 | a port already in the registry throws Argument; otherwise a fresh started server on that port |
| Server.PortRegistry.GetOrCreate | OSC/BuildSoft.OscCore/OscServer.cs:68-76 | a known port gives its server unchanged; a new port gets a fresh server and is recorded |
| Server.PortRegistry.DisposeServer | OSC/BuildSoft.OscCore/OscServer.cs:348-357 | the server's port leaves the registry and the server is disposed |
| Server.PortRegistry.RemoveAsWritten | OSC/BuildSoft.OscCore/OscServer.cs:81-89 | as written, the known server is disposed and removed, but the call always reports false |
| Server.PortRegistry.Remove | OSC/BuildSoft.OscCore/OscServer.cs:81-89 | corrected, it reports true exactly when the port had a server, which is disposed and removed |
| Utils.Filter | OSC/BuildSoft.OscCore/Utility/Utils.cs:30-35 | the kept characters are all valid and no more than the input's |
| Utils.FilterAppend | OSC/BuildSoft.OscCore/Utility/Utils.cs:30-35 | filtering distributes over concatenation |
| Utils.FilterCounts | OSC/BuildSoft.OscCore/Utility/Utils.cs:30-35 | each valid character is kept as often as it occurs, each invalid one never |
| Utils.FilterKeepsValidText | OSC/BuildSoft.OscCore/Utility/Utils.cs:30-35 | a string of valid characters is unchanged |
| Utils.FilterIdempotent | OSC/BuildSoft.OscCore/Utility/Utils.cs:30-35 | filtering twice is filtering once |
| Utils.TrimEndSpaces | OSC/BuildSoft.OscCore/Utility/Utils.cs:23-24 | TrimEnd(' ') keeps a prefix that does not end in a space and drops only spaces |
| Utils.TrimEndKeepsUnspaced | OSC/BuildSoft.OscCore/Utility/Utils.cs:23-24 | a string not ending in a space is unchanged |
| Utils.Validated | OSC/BuildSoft.OscCore/Utility/Utils.cs:17-28 | no contract of its own: an empty address becomes "/", a leading "/" is added, trailing spaces are trimmed and invalid characters dropped. ValidatedShape, ValidatedKeepsWellFormed and ValidatedCanEndWithSpace state its properties |
| Utils.ValidatedShape | OSC/BuildSoft.OscCore/Utility/Utils.cs:17-28 | a validated address holds only valid characters, and starts with '/' when '/' is valid |
| Utils.ValidatedKeepsWellFormed | OSC/BuildSoft.OscCore/Utility/Utils.cs:17-28 | a valid address starting with '/' and not ending in a space is unchanged |
| Utils.ValidatedCanEndWithSpace | OSC/BuildSoft.OscCore/Utility/Utils.cs:17-28 | because spaces are trimmed before the filter, "/a #" with '#' invalid validates to "/a ", which ends in a space |
| Utils.TagChars | OSC/BuildSoft.OscCore/Utility/Utils.cs:71 | `(char)type` for each tag, code for code |
| Utils.SplitSpaces | OSC/BuildSoft.OscCore/Utility/Utils.cs:74-80 | splitting gives at least one part |
| Utils.JoinSpaced | OSC/BuildSoft.OscCore/Utility/Utils.cs:74-80 | no contract of its own: the texts with one space between neighbours. SplitJoin shows they read back, and JoinSpacedSnoc gives one more text |
| Utils.JoinSpacedSnoc | OSC/BuildSoft.OscCore/Utility/Utils.cs:78-79 | one more text adds a space first, unless it is the first text |
| Utils.SplitJoin | OSC/BuildSoft.OscCore/Utility/Utils.cs:74-80 | the space-separated element texts split back into the texts when none contains a space |
| Utils.MonitorTextLayout | OSC/BuildSoft.OscCore/Utility/Utils.cs:65-83 | the monitor text is the address, "  ,", one character per tag, "  ", then the joined element texts |
| Utils.MonitorText | OSC/BuildSoft.OscCore/Utility/Utils.cs:68-80 | no contract of its own: the address, the "  ," divider, the tag letters, two spaces and the joined texts. MonitorTextLayout states that layout |
| Utils.Statics.constructor | OSC/BuildSoft.OscCore/Utility/Utils.cs:14-15 | the scratch list and the builder start empty |
| Utils.Statics.ReplaceInvalidAddressCharacters | OSC/BuildSoft.OscCore/Utility/Utils.cs:30-35 | returns the valid characters of the address, in order, left in the scratch list |
| Utils.Statics.ValidateAddress | OSC/BuildSoft.OscCore/Utility/Utils.cs:17-28 | always true, with the address made to start with '/', right-trimmed of spaces and filtered |
| Utils.Statics.MonitorMessageToString | OSC/BuildSoft.OscCore/Utility/Utils.cs:65-83 | an address whose ToString throws (the BlobString of an empty array) throws IndexOutOfRange with the builder cleared; otherwise the builder holds and returns the address, the tags and each element's ReadStringElement text; when an element's read throws, it throws that error after the elements before it |
| Utils.Statics.AppendMessage | OSC/BuildSoft.OscCore/Utility/Utils.cs:68-82 | with the address already decoded: on success the builder holds the monitor line MonitorText of the address, the tags and every element's text. Otherwise the first element whose text read throws gives the error, and the texts before it were read |
| Utils.Statics.AppendTagChars | OSC/BuildSoft.OscCore/Utility/Utils.cs:71 | one character per tag is appended |
| Utils.Statics.AppendElementTexts | OSC/BuildSoft.OscCore/Utility/Utils.cs:74-80 | each element's text is appended, separated by single spaces, stopping at the first read that throws |

## Left out

- Sockets and threads are not modelled. This covers OscSocket, OscClient, the receive thread and the locking around it.
- ParseBuffer receives a parser view instead of running OscParser. OscParser is not part of this model: Parse, IsBundleTagAtIndex, GetAddressType, AddressIsValid and CharacterIsValidInAddress become parameters.
- Regex matching of patterns is a parameter, and so is whether `new Regex(pattern)` accepts a pattern string.
- The monitor callbacks are left out: the list, AddMonitorCallback, RemoveMonitorCallback and HandleMonitorCallbacks. They are user code over the same bytes.
- OscServer's TryAddMethod/RemoveMethod/RemoveAddress wrappers and its single-callback cache are left out, as is CountHandlers. They forward to OscAddressSpace, which is modelled.
- OscAddressMethods is not part of this model. It is the table of exact addresses. It is a map from ASCII bytes to pairs, with Add combining pairs by `+` and Remove subtracting by `-`, as those members' doc comments say.
- The Dispose methods are left out: OscWriter, BlobString, BlobStringDictionary and OscAddressSpace. They only release pinned memory.
- OscServer's finalizer is left out.
- Write(NtpTimestamp) and NtpTimestamp's own byte conversions are left out, because MiniNtp is not part of this model. The timestamp reader receives them as a conversion parameter.
- WriteAsLittleEndianWithLoop is left out: no caller reaches it on a little-endian host.
- The host is taken to be little-endian, as every supported .NET target is. The big-endian branches of WriteToBigEndian are not modelled.
- The `OSCCORE_SAFETY_CHECKS` branches are not modelled. Element indices are required to be inside the tag and offset arrays, which is the build without the symbol.
- BlobHandle.ToString, Equals(object) and BlobString.Equals(object) are left out. They are boxing variants of the modelled equality.
- Color32.ToString(format) is left out, because it formats through culture-dependent number formatting.
- MidiMessage.ToString and the culture-dependent ToString of numbers are parameters.
- Float-to-integer casts and float widenings are parameters, because floating-point arithmetic is not modelled.
- Utils.PinPtr and Utils.GetLocalIpAddress are left out. They are GC pinning and DNS.
- Array bounds the source does not check are preconditions, not modelled exceptions. These are writes past the writer's buffer, reads of slots past the shared buffer, and ParseBuffer's receive-buffer size. Beyond the bundle size cast (NextOffsetAsWritten) and the blob resize arithmetic (GrowAndCopy), the 32-bit overflow of offsets is not modelled.
- Blobs.HashCode: requires a non-empty blob. On an empty one the zero-extending indexer reads the byte 0xFFFFFFFF past the start; Blobs.TryHashCode models that case, with the stray byte as a parameter.
- BlobDictionaries.BlobStringDictionary.constructor: takes a natural number; the negative capacity, for which Dictionary throws ArgumentOutOfRange, is the Argument error of BlobDictionaries.BlobStringDictionary.Create.
- The dictionary records a key's bytes when it is added. A pointer key whose memory later changes keeps its old bytes in the model, where the source's table would compare against the new ones.
- Blobs.TryHashCode: an array-backed empty handle whose offset is inside the array reads past the array's data; the model treats it like a pointer handle, reading the stray byte or faulting.
- AddressSpaces.OscAddressSpace.TryMatchPatternHandlerAsWritten: requires every slot below the pattern count to be occupied. Otherwise the source dereferences null, which is Finding 5.
- BlobString's settable Encoding property is fixed to Encoding.ASCII, the default, because changing it after strings have been encoded breaks lookups.
- Null strings are Option values where the source tests for null, and empty sequences elsewhere.
- The string cache of TryMatchPatterns widens bytes with `(char)b` when it reuses a string, and decodes with Encoding.ASCII when it creates one. The model keeps both as written. The two differ on bytes of 0x80 and above.
- Writer.OscWriter.WriteBlob: requires room in the writer's buffer for the size word, and for the data and padding when the copy is in range. The source does not check these writes; past the buffer they would throw IndexOutOfRange. BlockCopy's ArgumentOutOfRangeException (a negative start or length) and ArgumentException (a range past either array) are both the Argument error.
- MessageValues.OscMessageValues.ReadStringElementBytes: requires the target to be an array other than the shared receive buffer, so the copy does not read bytes it has just written. The same holds for ReadStringElementBytesAt and CopyUntilNul.
- Server.Walk: the model walks with the corrected step NextOffset (Finding 3), not the `(int)` cast and 32-bit `+=` of the source. The two agree exactly when offset + size + 4 stays below 2^31 (NextOffsetAgrees). Past that the source's offset wraps: it stalls, moves backwards, or turns negative, and a negative offset makes the next ReadUIntIndex throw IndexOutOfRange out of ParseBuffer.
- Server.WalkShape: its ordering and no-overrun claims are about the corrected walk (Finding 3). As written, a size word of 0xFFFFFFFC stalls the walk (NextOffsetAsWrittenStalls).
- Server.OscServer.TryMatchPatterns: it uses the corrected scan of TryMatchPatternHandler (Finding 5), not the scan of the slots below the pattern count. The two agree when no slot below the count is empty and none above it is live (ScansAgreeWithoutHoles).
- Server.OscServer.DispatchElement: a bundle element's pattern probe is the element's own address bytes (Finding 4), not the start of the datagram the source passes. Its scan is the corrected one (Finding 5). The same holds for DispatchOne, MatchPatterns and DispatchAll, which specify it.
- Server.OscServer.ParseBuffer: it dispatches with the corrected step, probe and scan (Findings 3 to 5). It behaves as written when no slot below the pattern count is empty or forgotten and, in a bundle, every element's offset + size + 4 stays below 2^31 and every element has an exact handler.
- Server.OscServer.ScanElement: the corrected step and probe (Findings 3 and 4).
- Server.OscServer.WalkBundle: its contract is the corrected Walk (Findings 3 to 5).
- Server.OscServer.ScanElements: the corrected step, probe and scan (Findings 3 to 5).
- AddressSpaces.OscAddressSpace.TryMatchPatternHandler: the corrected scan (Finding 5). TryMatchPatternHandlerAsWritten models the source's scan.
- AddressSpaces.OscAddressSpace.TryAddMethod: corrected (Finding 6). A new pattern Regex rejects throws before a slot is taken; in the source the slot is taken first (RejectedPatternLosesFreedSlot).
- AddressSpaces.OscAddressSpace.RemoveMethod: a slot with several handlers is reduced with the corrected Minus (Finding 1), not the `-` of OscActionPair.cs. The two differ only when the slot has no main-thread delegate and the removed pair has one, where the source's slot gains that delegate.
- AddressSpaces.OscAddressSpace.RemovePattern: the same corrected Minus as RemoveMethod.
- AddressSpaces.MethodsRemove: the exact-address table subtracts with the corrected Minus (Finding 1), where OscAddressMethods would use the `-` as written.
- Strings are sequences of Unicode scalar values, while C# strings are UTF-16 code units. Outside the Basic Multilingual Plane the source's WriteString writes `(byte)` of each surrogate and pads by the UTF-16 length; the model writes one byte per character and pads by the character count. Text inside the plane, ASCII addresses among it, is modelled exactly.
- TryMatchPatterns registers the cached string object under the address, and OverwriteAsciiString later rewrites that same object in place for another address of the same length. The model registers the string's value, so this aliasing, which renames the registered address behind the table's back, is not captured.
- Writer.BundlePrefix: the bytes are "#bundle " with a trailing space, as OscWriter.cs's doc comment says. Constant.BundlePrefixBytes, which defines them, is not part of this model. The OSC 1.0 specification's "#bundle" string ends in a NUL instead.
- Writer.OscWriter.constructor: takes a natural capacity. The OverflowException that `new byte[capacity]` throws for a negative one is Writer.OscWriter.Create's Overflow error.

## Findings

| source | as written | input that shows it | evidently intended | confidence | as-written member | corrected member |
|---|---|---|---|---|---|---|
| OSC/BuildSoft.OscCore/OscActionPair.cs:49-54 | `-` copies the ternary of `+`: when l has no main-thread delegate, the result takes r's | `(read 1+2, none) - (read 2, main 7)` gives main thread 7 | subtraction never adds a delegate: with none in l, none in the result | high, not executed | ActionPairs.MinusAsWrittenAddsMainThread | ActionPairs.Minus |
| OSC/BuildSoft.OscCore/OscServer.cs:81-89 | Remove returns `PortToServer.Remove(port)` after Dispose has already removed the port | any registered port: the server is disposed and removed, the call returns false | true when a server was found and disposed, as its doc comment says | high, not executed | Server.PortRegistry.RemoveAsWritten | Server.PortRegistry.Remove |
| OSC/BuildSoft.OscCore/OscServer.cs:243-274 | the unsigned element size is cast to int before `MessageOffset += messageSize + 4` | a bundle element whose size word is 0xFFFFFFFC leaves the offset unchanged, so the walk never ends | advance by the unsigned size and stop at the datagram's end | high, not executed | Server.NextOffsetAsWrittenStalls | Server.NextOffset |
| OSC/BuildSoft.OscCore/OscServer.cs:273 | a bundle element's pattern fallback passes `bufferPtr`, the start of the datagram | any bundle element without an exact handler: the probe is "#bundle " cut to the address length | pass `contentPtr`, the element's own address, as the exact lookup two lines above does | high, not executed | Server.BundleProbeAsWrittenReadsHeader | Server.BundleProbeIsElementAddress |
| OSC/BuildSoft.OscCore/OscAddressSpace.cs:100-112, 133-141 | RemoveMethod nulls a single-handler pattern's slot and decrements the count; the scan tests slots `0 .. _patternCount - 1` | add "/a/*", add "/b/*", remove "/a/*": slot 0 is null, count 1, so the next unmatched address throws NullReferenceException and "/b/*" is never tried | match against all known patterns (doc comment, lines 118-120): try every slot holding a registered pattern at its own index | high, not executed | AddressSpaces.RemovalLeavesHoleBelowCount | AddressSpaces.OscAddressSpace.TryMatchPatternHandler |
| OSC/BuildSoft.OscCore/OscAddressSpace.cs:49-66 | a new pattern takes its slot (dequeuing a freed index or growing the arrays) before `new Regex(address)`, which can throw ArgumentException | add "/a/*", add "/b/*", remove "/a/*", then add a pattern Regex rejects: freed slot 0 is dequeued and lost, so the next new pattern takes slot patternCount = 1 and overwrites "/b/*" | compile the pattern first, so a rejected pattern changes nothing | medium, not executed: which strings OscParser classifies as patterns and Regex rejects is not part of this model | AddressSpaces.RejectedPatternLosesFreedSlot | AddressSpaces.OscAddressSpace.TryAddMethod |
