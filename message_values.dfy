/**
 * OscMessageValues: the element view of a received OSC message. The parser
 * (not part of this model) fills a tag array and an offset array over a shared
 * receive buffer; the typed readers then decode element `index` from the bytes
 * at `offsets[index]`, accepting a set of tags and throwing for every other tag.
 *
 * Floats are their bit patterns; the numeric conversions between floats and
 * integers and the culture-dependent formatting the readers use are parameters
 * (a HostConversions record), so every property below holds whatever those
 * conversions do.
 */
module MessageValues {
  import opened Wire
  import opened Results
  import TypeTags
  import opened UnityColor
  import Writer

  type TypeTag = TypeTags.TypeTag

  /** MiniNtp.NtpTimestamp: seconds and fractions of a second, both unsigned 32-bit. */
  datatype NtpTimestamp = NtpTimestamp(seconds: uint32, fractions: uint32)

  /**
   * The host's numeric conversions and formatting: C#'s (int)/(long) casts of a
   * float or double, the implicit widenings to float and double, ToString in the
   * current culture, MidiMessage.ToString and NtpTimestamp.FromBigEndianBytes.
   */
  datatype HostConversions = HostConversions(
    singleToInt32: Single -> int32,
    singleToInt64: Single -> int64,
    doubleToInt64: Double -> int64,
    int32ToSingle: int32 -> Single,
    singleToDouble: Single -> Double,
    int64ToDouble: int64 -> Double,
    int32ToDouble: int32 -> Double,
    formatSingle: Single -> string,
    formatDouble: Double -> string,
    formatInt32: int32 -> string,
    formatInt64: int64 -> string,
    formatMidi: MidiMessage -> string,
    timestampFromBigEndian: seq<byte> -> NtpTimestamp)

  // ---------------------------------------------------------------------------
  // Decoding one slot
  // ---------------------------------------------------------------------------

  lemma Pow256Values()
    ensures Pow256(4) == 0x1_0000_0000
    ensures Pow256(8) == 0x1_0000_0000_0000_0000
  {
    assert Pow256(2) == 0x1_0000;
    assert Pow256(4) == 0x1_0000_0000;
    assert Pow256(6) == 0x1_0000_0000_0000;
  }

  lemma {:induction false} BigEndian4(s: seq<byte>)
    requires |s| == 4
    ensures BigEndian(s) == s[0] as int * 0x100_0000 + s[1] as int * 0x1_0000 + s[2] as int * 0x100 + s[3] as int
  {
    assert s[..3][..2] == s[..2];
    assert s[..2][..1] == s[..1];
    assert s[..1][..0] == [];
    assert BigEndian(s[..1]) == s[0] as int;
    assert BigEndian(s[..2]) == s[0] as int * 0x100 + s[1] as int;
    assert BigEndian(s[..3]) == s[0] as int * 0x1_0000 + s[1] as int * 0x100 + s[2] as int;
  }

  /** `b[0] << 24 | b[1] << 16 | b[2] << 8 | b[3]` on C# ints: the 4 bytes whose network encoding this int is. */
  function ShiftOrInt32(s: seq<byte>): (v: int32)
    requires |s| == 4
    ensures Int32Bytes(v) == s
  {
    BigEndian4(s);
    Int32RoundTrip(0, s);
    Int32Of(s[0] as int * 0x100_0000 + s[1] as int * 0x1_0000 + s[2] as int * 0x100 + s[3] as int)
  }

  /**
   * The ConvertBuffer trick: the slot's bytes stored in reverse into Bits32 and
   * read back through the aliased `@uint` field, i.e. in host (little-endian) order.
   */
  function ConvertBufferUInt32(s: seq<byte>): (u: uint32)
    requires |s| == 4
    ensures UInt32Bytes(u) == s
  {
    LittleEndianOfReverse(s);
    Pow256Values();
    UInt32RoundTrip(0, s);
    LittleEndian(Reverse(s))
  }

  /** The same trick through the aliased `@float` field: the float whose network-order bits are the slot. */
  function SingleFromSlot(s: seq<byte>): (f: Single)
    requires |s| == 4
    ensures UInt32Bytes(f.bits) == s
  {
    Single(ConvertBufferUInt32(s))
  }

  /** Bits64[7..0] = the slot, read through the aliased `@double` field. */
  function DoubleFromSlot(s: seq<byte>): (d: Double)
    requires |s| == 8
    ensures UInt64Bytes(d.bits) == s
  {
    LittleEndianOfReverse(s);
    Pow256Values();
    UInt64RoundTrip(0, s);
    Double(LittleEndian(Reverse(s)))
  }

  /** IPAddress.NetworkToHostOrder of the slot read as a host long: the signed big-endian value. */
  function NetworkInt64(s: seq<byte>): (v: int64)
    requires |s| == 8
    ensures Int64Bytes(v) == s
  {
    LittleEndianOfReverse(s);
    Pow256Values();
    Int64RoundTrip(0, s);
    Int64Of(LittleEndian(Reverse(s)))
  }

  /** The reversed slot read through the aliased Color32 field: r, g, b, a at struct offsets 0..3. */
  function ColorFromSlot(s: seq<byte>): (c: Color32)
    requires |s| == 4
    ensures Writer.Color32Bytes(c) == s
  {
    Color32(s[3], s[2], s[1], s[0])
  }

  /**
   * The byte swap `(x & 0xFF) << 24 | (x & 0xFF00) << 8 | (x & 0xFF0000) >> 8 | (x & 0xFF000000) >> 24`
   * on a uint: each mask keeps one byte of x, and each shift moves it to the mirrored position.
   */
  function SwapBytes(x: uint32): (y: uint32)
  {
    (x % 0x100) * 0x100_0000 + ((x / 0x100) % 0x100) * 0x1_0000 + ((x / 0x1_0000) % 0x100) * 0x100 + x / 0x100_0000
  }

  /** The word whose bytes, lowest first, are a, b, c, d. */
  function Word(a: int, b: int, c: int, d: int): int
  {
    a + 0x100 * b + 0x1_0000 * c + 0x100_0000 * d
  }

  lemma DivMod256(x: int, q: int, r: int)
    requires 0 <= r < 0x100 && x == q * 0x100 + r
    ensures x / 0x100 == q && x % 0x100 == r
  {
  }

  lemma DivMod65536(x: int, q: int, r: int)
    requires 0 <= r < 0x1_0000 && x == q * 0x1_0000 + r
    ensures x / 0x1_0000 == q && x % 0x1_0000 == r
  {
  }

  lemma DivMod16M(x: int, q: int, r: int)
    requires 0 <= r < 0x100_0000 && x == q * 0x100_0000 + r
    ensures x / 0x100_0000 == q && x % 0x100_0000 == r
  {
  }

  /** SwapBytes reverses the four bytes of a word. */
  lemma SwapWord(a: int, b: int, c: int, d: int)
    requires 0 <= a < 256 && 0 <= b < 256 && 0 <= c < 256 && 0 <= d < 256
    ensures 0 <= Word(a, b, c, d) < 0x1_0000_0000
    ensures SwapBytes(Word(a, b, c, d)) == Word(d, c, b, a)
  {
    var x := Word(a, b, c, d);
    DivMod256(x, b + 0x100 * c + 0x1_0000 * d, a);
    DivMod256(b + 0x100 * c + 0x1_0000 * d, c + 0x100 * d, b);
    DivMod65536(x, c + 0x100 * d, a + 0x100 * b);
    DivMod256(c + 0x100 * d, d, c);
    DivMod16M(x, d, a + 0x100 * b + 0x1_0000 * c);
  }

  /** Every word is the word of its four bytes. */
  lemma SplitWord(x: uint32)
    ensures x == Word(x % 0x100, (x / 0x100) % 0x100, (x / 0x1_0000) % 0x100, x / 0x100_0000)
  {
    var a, q1 := x % 0x100, x / 0x100;
    var b, q2 := q1 % 0x100, q1 / 0x100;
    var c, d := q2 % 0x100, q2 / 0x100;
    assert x == q2 * 0x1_0000 + (a + 0x100 * b);
    DivMod65536(x, q2, a + 0x100 * b);
    assert x == d * 0x100_0000 + (a + 0x100 * b + 0x1_0000 * c);
    DivMod16M(x, d, a + 0x100 * b + 0x1_0000 * c);
  }

  /** Swapping twice restores the word. */
  lemma SwapBytesInvolution(x: uint32)
    ensures SwapBytes(SwapBytes(x)) == x
  {
    SplitWord(x);
    var a, b, c, d := x % 0x100, (x / 0x100) % 0x100, (x / 0x1_0000) % 0x100, x / 0x100_0000;
    SwapWord(a, b, c, d);
    SwapWord(d, c, b, a);
  }

  /** Byte-swapping the host-order word of 4 bytes gives the word whose network encoding is those bytes. */
  lemma SwappedHostWord(s: seq<byte>)
    requires |s| == 4
    ensures 0 <= LittleEndian(s) < 0x1_0000_0000
    ensures UInt32Bytes(SwapBytes(LittleEndian(s))) == s
  {
    var a, b, c, d := s[0] as int, s[1] as int, s[2] as int, s[3] as int;
    assert s[1..][1..] == s[2..] && s[2..][1..] == s[3..] && s[3..][1..] == [];
    assert LittleEndian(s) == Word(a, b, c, d);
    SwapWord(a, b, c, d);
    BigEndian4(s);
    assert SwapBytes(LittleEndian(s)) == UInt32At(s);
    UInt32RoundTrip(0, s);
  }

  // ---------------------------------------------------------------------------
  // The element view
  // ---------------------------------------------------------------------------

  class OscMessageValues {
    /** _sharedBuffer: the receive buffer, shared with the server and not copied. */
    const sharedBuffer: array<byte>
    /** _tags: one tag per element; entries at or past ElementCount are junk. */
    const tags: array<TypeTag>
    /** _offsets: where each element's bytes start in the shared buffer. */
    const offsets: array<int>
    /** ElementCount: set by the parser. */
    var elementCount: int

    /** OscMessageValues(byte[] buffer, int elementCapacity = 8). */
    constructor(buffer: array<byte>, elementCapacity: nat)
      ensures sharedBuffer == buffer
      ensures elementCount == 0
      ensures fresh(tags) && fresh(offsets)
      ensures tags.Length == elementCapacity && offsets.Length == elementCapacity
      ensures forall i :: 0 <= i < elementCapacity ==> tags[i] == 0 && offsets[i] == 0
    {
      elementCount := 0;
      tags := new TypeTag[elementCapacity](_ => 0);
      offsets := new int[elementCapacity](_ => 0);
      sharedBuffer := buffer;
    }

    /** `index` is inside both the tag and the offset arrays. */
    predicate Indexable(index: int)
    {
      0 <= index < tags.Length && index < offsets.Length
    }

    /** The `width` bytes of element `index` lie inside the shared buffer. */
    predicate SlotFits(index: int, width: nat)
      reads offsets
      requires 0 <= index < offsets.Length
    {
      0 <= offsets[index] && offsets[index] + width <= sharedBuffer.Length
    }

    /** The `width` bytes of element `index`. */
    function Slot(index: int, width: nat): (s: seq<byte>)
      reads offsets, sharedBuffer
      requires 0 <= index < offsets.Length && SlotFits(index, width)
      ensures |s| == width
    {
      sharedBuffer[offsets[index]..offsets[index] + width]
    }

    /** GetTypeTag: the stored tag, whether or not index is below ElementCount. */
    function GetTypeTag(index: int): (tag: TypeTag)
      reads tags
      requires 0 <= index < tags.Length
      ensures tag == tags[index]
    {
      tags[index]
    }

    /** OutOfBounds: only indices at or past ElementCount are flagged; negative ones are not. */
    function OutOfBounds(index: int): (flagged: bool)
      reads this
      ensures flagged <==> index >= elementCount
      ensures index < 0 && elementCount >= 0 ==> !flagged
    {
      index >= elementCount
    }

    /** ForEachElement: the (index, tag) pairs the action is called with, in call order. */
    method ForEachElement() returns (visits: seq<(int, TypeTag)>)
      requires 0 <= elementCount <= tags.Length
      ensures |visits| == elementCount
      ensures forall i :: 0 <= i < elementCount ==> visits[i] == (i, tags[i])
    {
      visits := [];
      var i := 0;
      while i < elementCount
        invariant 0 <= i <= elementCount && |visits| == i
        invariant forall k :: 0 <= k < i ==> visits[k] == (k, tags[k])
      {
        visits := visits + [(i, tags[i])];
        i := i + 1;
      }
    }

    // -------------------------------------------------------------------------
    // 32-bit integers
    // -------------------------------------------------------------------------

    /** ReadIntElement: Int32 decoded big-endian, Float32 truncated by the host cast, anything else throws. */
    function ReadIntElement(index: int, conv: HostConversions): (r: Result<int32>)
      reads tags, offsets, sharedBuffer
      requires Indexable(index)
      requires tags[index] == TypeTags.Int32 || tags[index] == TypeTags.Float32 ==> SlotFits(index, 4)
      ensures r.Err? <==> tags[index] != TypeTags.Int32 && tags[index] != TypeTags.Float32
      ensures r.Err? ==> r.error == InvalidOperation
      ensures tags[index] == TypeTags.Int32 ==> r.Ok? && Int32Bytes(r.value) == Slot(index, 4)
      ensures tags[index] == TypeTags.Float32 ==>
        r == Ok(conv.singleToInt32(SingleFromSlot(Slot(index, 4))))
    {
      var tag := tags[index];
      if tag == TypeTags.Int32 then Ok(ShiftOrInt32(Slot(index, 4)))
      else if tag == TypeTags.Float32 then Ok(conv.singleToInt32(SingleFromSlot(Slot(index, 4))))
      else Err(InvalidOperation)
    }

    /** ReadIntElementUnchecked: the Int32 decoding whatever the tag. */
    function ReadIntElementUnchecked(index: int): (v: int32)
      reads offsets, sharedBuffer
      requires 0 <= index < offsets.Length && SlotFits(index, 4)
      ensures Int32Bytes(v) == Slot(index, 4)
    {
      ShiftOrInt32(Slot(index, 4))
    }

    /** ReadUIntIndex: the unsigned big-endian word at a raw buffer index. */
    function ReadUIntIndex(i: int): (u: uint32)
      reads sharedBuffer
      requires 0 <= i && i + 4 <= sharedBuffer.Length
      ensures UInt32Bytes(u) == sharedBuffer[i..i + 4]
    {
      ConvertBufferUInt32(sharedBuffer[i..i + 4])
    }

    /** ReadIntIndex: the signed big-endian word at a raw buffer index. */
    function ReadIntIndex(i: int): (v: int32)
      reads sharedBuffer
      requires 0 <= i && i + 4 <= sharedBuffer.Length
      ensures Int32Bytes(v) == sharedBuffer[i..i + 4]
    {
      ShiftOrInt32(sharedBuffer[i..i + 4])
    }

    // -------------------------------------------------------------------------
    // 64-bit integers
    // -------------------------------------------------------------------------

    /** ReadInt64Element: Int64 big-endian, Int32 sign-extended, Float64/Float32 truncated; anything else throws. */
    function ReadInt64Element(index: int, conv: HostConversions): (r: Result<int64>)
      reads tags, offsets, sharedBuffer
      requires Indexable(index)
      requires tags[index] == TypeTags.Int64 || tags[index] == TypeTags.Float64 ==> SlotFits(index, 8)
      requires tags[index] == TypeTags.Int32 || tags[index] == TypeTags.Float32 ==> SlotFits(index, 4)
      ensures r.Err? <==> tags[index] !in {TypeTags.Int64, TypeTags.Int32, TypeTags.Float64, TypeTags.Float32}
      ensures r.Err? ==> r.error == InvalidOperation
      ensures tags[index] == TypeTags.Int64 ==> r.Ok? && Int64Bytes(r.value) == Slot(index, 8)
      ensures tags[index] == TypeTags.Int32 ==> r == Ok(ReadIntElementUnchecked(index))
      ensures tags[index] == TypeTags.Float64 ==> r == Ok(conv.doubleToInt64(DoubleFromSlot(Slot(index, 8))))
      ensures tags[index] == TypeTags.Float32 ==> r == Ok(conv.singleToInt64(SingleFromSlot(Slot(index, 4))))
    {
      var tag := tags[index];
      if tag == TypeTags.Int64 then Ok(NetworkInt64(Slot(index, 8)))
      else if tag == TypeTags.Int32 then Ok(ShiftOrInt32(Slot(index, 4)))
      else if tag == TypeTags.Float64 then Ok(conv.doubleToInt64(DoubleFromSlot(Slot(index, 8))))
      else if tag == TypeTags.Float32 then Ok(conv.singleToInt64(SingleFromSlot(Slot(index, 4))))
      else Err(InvalidOperation)
    }

    /** ReadInt64ElementUnchecked: the Int64 decoding whatever the tag. */
    function ReadInt64ElementUnchecked(index: int): (v: int64)
      reads offsets, sharedBuffer
      requires 0 <= index < offsets.Length && SlotFits(index, 8)
      ensures Int64Bytes(v) == Slot(index, 8)
    {
      NetworkInt64(Slot(index, 8))
    }

    // -------------------------------------------------------------------------
    // Floats
    // -------------------------------------------------------------------------

    /** ReadFloatElement: Float32 bits big-endian, Int32 converted numerically; anything else throws. */
    function ReadFloatElement(index: int, conv: HostConversions): (r: Result<Single>)
      reads tags, offsets, sharedBuffer
      requires Indexable(index)
      requires tags[index] == TypeTags.Float32 || tags[index] == TypeTags.Int32 ==> SlotFits(index, 4)
      ensures r.Err? <==> tags[index] != TypeTags.Float32 && tags[index] != TypeTags.Int32
      ensures r.Err? ==> r.error == InvalidOperation
      ensures tags[index] == TypeTags.Float32 ==> r.Ok? && UInt32Bytes(r.value.bits) == Slot(index, 4)
      ensures tags[index] == TypeTags.Int32 ==> r == Ok(conv.int32ToSingle(ReadIntElementUnchecked(index)))
    {
      var tag := tags[index];
      if tag == TypeTags.Float32 then Ok(SingleFromSlot(Slot(index, 4)))
      else if tag == TypeTags.Int32 then Ok(conv.int32ToSingle(ShiftOrInt32(Slot(index, 4))))
      else Err(InvalidOperation)
    }

    /** ReadFloatElementUnchecked: the Float32 bit layout whatever the tag. */
    function ReadFloatElementUnchecked(index: int): (f: Single)
      reads offsets, sharedBuffer
      requires 0 <= index < offsets.Length && SlotFits(index, 4)
      ensures UInt32Bytes(f.bits) == Slot(index, 4)
    {
      SingleFromSlot(Slot(index, 4))
    }

    /** ReadFloat64Element: Float64 bits big-endian; Float32, Int64 and Int32 widened; anything else throws. */
    function ReadFloat64Element(index: int, conv: HostConversions): (r: Result<Double>)
      reads tags, offsets, sharedBuffer
      requires Indexable(index)
      requires tags[index] == TypeTags.Float64 || tags[index] == TypeTags.Int64 ==> SlotFits(index, 8)
      requires tags[index] == TypeTags.Float32 || tags[index] == TypeTags.Int32 ==> SlotFits(index, 4)
      ensures r.Err? <==> tags[index] !in {TypeTags.Float64, TypeTags.Float32, TypeTags.Int64, TypeTags.Int32}
      ensures r.Err? ==> r.error == InvalidOperation
      ensures tags[index] == TypeTags.Float64 ==> r.Ok? && UInt64Bytes(r.value.bits) == Slot(index, 8)
      ensures tags[index] == TypeTags.Float32 ==> r == Ok(conv.singleToDouble(ReadFloatElementUnchecked(index)))
      ensures tags[index] == TypeTags.Int64 ==> r == Ok(conv.int64ToDouble(ReadInt64ElementUnchecked(index)))
      ensures tags[index] == TypeTags.Int32 ==> r == Ok(conv.int32ToDouble(ReadIntElementUnchecked(index)))
    {
      var tag := tags[index];
      if tag == TypeTags.Float64 then Ok(DoubleFromSlot(Slot(index, 8)))
      else if tag == TypeTags.Float32 then Ok(conv.singleToDouble(SingleFromSlot(Slot(index, 4))))
      else if tag == TypeTags.Int64 then Ok(conv.int64ToDouble(NetworkInt64(Slot(index, 8))))
      else if tag == TypeTags.Int32 then Ok(conv.int32ToDouble(ShiftOrInt32(Slot(index, 4))))
      else Err(InvalidOperation)
    }

    /** ReadFloat64ElementUnchecked: the Float64 bit layout whatever the tag. */
    function ReadFloat64ElementUnchecked(index: int): (d: Double)
      reads offsets, sharedBuffer
      requires 0 <= index < offsets.Length && SlotFits(index, 8)
      ensures UInt64Bytes(d.bits) == Slot(index, 8)
    {
      DoubleFromSlot(Slot(index, 8))
    }

    // -------------------------------------------------------------------------
    // Booleans, characters, colours, MIDI, timestamps
    // -------------------------------------------------------------------------

    /** ReadBooleanElement: True, False, or an Int32 read as "greater than zero"; anything else throws. */
    function ReadBooleanElement(index: int): (r: Result<bool>)
      reads tags, offsets, sharedBuffer
      requires Indexable(index)
      requires tags[index] == TypeTags.Int32 ==> SlotFits(index, 4)
      ensures r.Err? <==> tags[index] !in {TypeTags.True, TypeTags.False, TypeTags.Int32}
      ensures r.Err? ==> r.error == InvalidOperation
      ensures tags[index] == TypeTags.True ==> r == Ok(true)
      ensures tags[index] == TypeTags.False ==> r == Ok(false)
      ensures tags[index] == TypeTags.Int32 ==> r.Ok? && (r.value <==> Int32At(Slot(index, 4)) > 0)
    {
      var tag := tags[index];
      if tag == TypeTags.True then Ok(true)
      else if tag == TypeTags.False then Ok(false)
      else if tag == TypeTags.Int32 then
        Int32RoundTrip(ReadIntElementUnchecked(index), Slot(index, 4));
        Ok(ReadIntElementUnchecked(index) > 0)
      else Err(InvalidOperation)
    }

    /** ReadAsciiCharElement: the last byte of the slot as a char; anything but AsciiChar32 throws. */
    function ReadAsciiCharElement(index: int): (r: Result<char>)
      reads tags, offsets, sharedBuffer
      requires Indexable(index)
      requires tags[index] == TypeTags.AsciiChar32 ==> SlotFits(index, 4)
      ensures r.Err? <==> tags[index] != TypeTags.AsciiChar32
      ensures r.Err? ==> r.error == InvalidOperation
      ensures r.Ok? ==> r.value as int == sharedBuffer[offsets[index] + 3] as int
    {
      if tags[index] == TypeTags.AsciiChar32 then Ok(ByteToChar(sharedBuffer[offsets[index] + 3]))
      else Err(InvalidOperation)
    }

    /** ReadColor32Element: the colour whose wire bytes are the slot; anything but Color32 throws. */
    function ReadColor32Element(index: int): (r: Result<Color32>)
      reads tags, offsets, sharedBuffer
      requires Indexable(index)
      requires tags[index] == TypeTags.Color32 ==> SlotFits(index, 4)
      ensures r.Err? <==> tags[index] != TypeTags.Color32
      ensures r.Err? ==> r.error == InvalidOperation
      ensures r.Ok? ==> Writer.Color32Bytes(r.value) == Slot(index, 4)
    {
      if tags[index] == TypeTags.Color32 then Ok(ColorFromSlot(Slot(index, 4)))
      else Err(InvalidOperation)
    }

    /** ReadColor32ElementUnchecked: the same layout whatever the tag. */
    function ReadColor32ElementUnchecked(index: int): (c: Color32)
      reads offsets, sharedBuffer
      requires 0 <= index < offsets.Length && SlotFits(index, 4)
      ensures Writer.Color32Bytes(c) == Slot(index, 4)
    {
      ColorFromSlot(Slot(index, 4))
    }

    /** ReadMidiElement: the 4 slot bytes as they are; anything but MIDI throws. */
    function ReadMidiElement(index: int): (r: Result<MidiMessage>)
      reads tags, offsets, sharedBuffer
      requires Indexable(index)
      requires tags[index] == TypeTags.MIDI ==> SlotFits(index, 4)
      ensures r.Err? <==> tags[index] != TypeTags.MIDI
      ensures r.Err? ==> r.error == InvalidOperation
      ensures r.Ok? ==> r.value == Slot(index, 4)
    {
      if tags[index] == TypeTags.MIDI then Ok(Slot(index, 4))
      else Err(InvalidOperation)
    }

    /** ReadMidiElementUnchecked: the 4 slot bytes whatever the tag. */
    function ReadMidiElementUnchecked(index: int): (m: MidiMessage)
      reads offsets, sharedBuffer
      requires 0 <= index < offsets.Length && SlotFits(index, 4)
      ensures m == Slot(index, 4)
    {
      Slot(index, 4)
    }

    /** ReadTimestampElement: the 8 slot bytes handed to NtpTimestamp.FromBigEndianBytes; anything but TimeTag throws. */
    function ReadTimestampElement(index: int, conv: HostConversions): (r: Result<NtpTimestamp>)
      reads tags, offsets, sharedBuffer
      requires Indexable(index)
      requires tags[index] == TypeTags.TimeTag ==> SlotFits(index, 8)
      ensures r.Err? <==> tags[index] != TypeTags.TimeTag
      ensures r.Err? ==> r.error == InvalidOperation
      ensures r.Ok? ==> r == Ok(ReadTimestampElementUnchecked(index, conv))
    {
      if tags[index] == TypeTags.TimeTag then Ok(conv.timestampFromBigEndian(Slot(index, 8)))
      else Err(InvalidOperation)
    }

    /** ReadTimestampElementUnchecked: the same conversion whatever the tag. */
    function ReadTimestampElementUnchecked(index: int, conv: HostConversions): (t: NtpTimestamp)
      reads offsets, sharedBuffer
      requires 0 <= index < offsets.Length && SlotFits(index, 8)
    {
      conv.timestampFromBigEndian(Slot(index, 8))
    }

    /**
     * ReadTimestampIndex: two host-order words at a raw buffer index, each
     * byte-swapped, so the seconds and fractions are the two big-endian words.
     */
    function ReadTimestampIndex(i: int): (t: NtpTimestamp)
      reads sharedBuffer
      requires 0 <= i && i + 8 <= sharedBuffer.Length
      ensures UInt32Bytes(t.seconds) == sharedBuffer[i..i + 4]
      ensures UInt32Bytes(t.fractions) == sharedBuffer[i + 4..i + 8]
    {
      var secondsBytes := sharedBuffer[i..i + 4];
      var fractionsBytes := sharedBuffer[i + 4..i + 8];
      SwappedHostWord(secondsBytes);
      SwappedHostWord(fractionsBytes);
      NtpTimestamp(SwapBytes(LittleEndian(secondsBytes)), SwapBytes(LittleEndian(fractionsBytes)))
    }

    // -------------------------------------------------------------------------
    // Strings
    // -------------------------------------------------------------------------

    /** Tags ReadStringElement turns into text. */
    static predicate IsStringTag(tag: TypeTag) {
      tag == TypeTags.String || tag == TypeTags.AltTypeString
    }

    /** The slot bytes ReadStringElement reads for a fixed-width tag are inside the buffer. */
    predicate FixedSlotFits(index: int)
      reads tags, offsets
      requires Indexable(index)
    {
      var tag := tags[index];
      (tag == TypeTags.Float64 || tag == TypeTags.Int64 ==> SlotFits(index, 8)) &&
      ((tag == TypeTags.Float32 || tag == TypeTags.Int32 || tag == TypeTags.Color32 ||
        tag == TypeTags.MIDI || tag == TypeTags.AsciiChar32) ==> SlotFits(index, 4))
    }

    /** The text ReadStringElement gives element `index`, or the error it throws, by its tag. */
    ghost predicate ReadsAsText(index: int, conv: HostConversions, r: Result<string>)
      reads this, tags, offsets, sharedBuffer
      requires Indexable(index) && FixedSlotFits(index)
    {
      var tag, offset := tags[index], offsets[index];
      (IsStringTag(tag) ==>
        (r.Err? <==> offset < 0 || offset + RunLength(sharedBuffer[..], offset) >= sharedBuffer.Length) &&
        (r.Err? ==> r.error == IndexOutOfRange) &&
        (r.Ok? ==> r.value == AsciiDecode(sharedBuffer[offset..offset + RunLength(sharedBuffer[..], offset)]))) &&
      (tag == TypeTags.Float64 ==> r == Ok(conv.formatDouble(ReadFloat64ElementUnchecked(index)))) &&
      (tag == TypeTags.Float32 ==> r == Ok(conv.formatSingle(ReadFloatElementUnchecked(index)))) &&
      (tag == TypeTags.Int64 ==> r == Ok(conv.formatInt64(ReadInt64ElementUnchecked(index)))) &&
      (tag == TypeTags.Int32 ==> r == Ok(conv.formatInt32(ReadIntElementUnchecked(index)))) &&
      (tag == TypeTags.False ==> r == Ok("False")) &&
      (tag == TypeTags.True ==> r == Ok("True")) &&
      (tag == TypeTags.Nil ==> r == Ok("Nil")) &&
      (tag == TypeTags.Infinitum ==> r == Ok("Infinitum")) &&
      (tag == TypeTags.Color32 ==> r == Ok(UnityColor.ToString(ReadColor32ElementUnchecked(index)))) &&
      (tag == TypeTags.MIDI ==> r == Ok(conv.formatMidi(ReadMidiElementUnchecked(index)))) &&
      (tag == TypeTags.AsciiChar32 ==> r.Ok? && |r.value| == 1 && r.value[0] as int == sharedBuffer[offset + 3] as int) &&
      (tag in {TypeTags.Blob, TypeTags.TimeTag, TypeTags.ArrayStart, TypeTags.ArrayEnd} ==> r == Err(InvalidOperation)) &&
      (!TypeTags.IsSupported(tag) ==> r == Err(InvalidOperation))
    }

    /**
     * ReadStringElement: a String/AltTypeString element is the ASCII text up to
     * its NUL (throwing if the buffer ends first); numbers are formatted, the
     * payload-free tags give their names, a colour its RGBA text, a char itself.
     */
    method ReadStringElement(index: int, conv: HostConversions) returns (r: Result<string>)
      requires Indexable(index) && FixedSlotFits(index)
      ensures ReadsAsText(index, conv, r)
    {
      var offset := offsets[index];
      var tag := tags[index];
      if IsStringTag(tag) {
        if offset < 0 {
          return Err(IndexOutOfRange);
        }
        ghost var buf := sharedBuffer[..];
        var length := 0;
        while offset + length < sharedBuffer.Length && sharedBuffer[offset + length] != 0
          invariant length <= RunLength(buf, offset)
          decreases RunLength(buf, offset) - length
        {
          RunContinues(buf, offset, length);
          length := length + 1;
        }
        RunEnds(buf, offset, length);
        if offset + length >= sharedBuffer.Length {
          return Err(IndexOutOfRange);
        }
        return Ok(AsciiDecode(sharedBuffer[offset..offset + length]));
      } else if tag == TypeTags.Float64 {
        return Ok(conv.formatDouble(DoubleFromSlot(Slot(index, 8))));
      } else if tag == TypeTags.Float32 {
        return Ok(conv.formatSingle(SingleFromSlot(Slot(index, 4))));
      } else if tag == TypeTags.Int64 {
        return Ok(conv.formatInt64(NetworkInt64(Slot(index, 8))));
      } else if tag == TypeTags.Int32 {
        return Ok(conv.formatInt32(ShiftOrInt32(Slot(index, 4))));
      } else if tag == TypeTags.False {
        return Ok("False");
      } else if tag == TypeTags.True {
        return Ok("True");
      } else if tag == TypeTags.Nil {
        return Ok("Nil");
      } else if tag == TypeTags.Infinitum {
        return Ok("Infinitum");
      } else if tag == TypeTags.Color32 {
        return Ok(UnityColor.ToString(ColorFromSlot(Slot(index, 4))));
      } else if tag == TypeTags.MIDI {
        return Ok(conv.formatMidi(Slot(index, 4)));
      } else if tag == TypeTags.AsciiChar32 {
        return Ok([ByteToChar(sharedBuffer[offset + 3])]);
      }
      return Err(InvalidOperation);
    }

    /**
     * ReadStringElementBytes(index, copyTo): copy the string's bytes, up to its
     * NUL or the end of the buffer, to the front of copyTo; return how many.
     * A copyTo too short for them takes the bytes that fit, then the next
     * store throws IndexOutOfRange.
     */
    method ReadStringElementBytes(index: int, copyTo: array<byte>) returns (r: Result<int>)
      requires Indexable(index) && copyTo != sharedBuffer && copyTo != tags
      modifies copyTo
      ensures !IsStringTag(tags[index]) ==> r == Err(InvalidOperation) && copyTo[..] == old(copyTo[..])
      ensures IsStringTag(tags[index]) && offsets[index] < 0 ==> r == Err(IndexOutOfRange) && copyTo[..] == old(copyTo[..])
      ensures IsStringTag(tags[index]) && offsets[index] >= 0 ==>
        var run := RunLength(sharedBuffer[..], offsets[index]);
        (r.Ok? <==> run <= copyTo.Length) &&
        (r.Ok? ==> r.value == run && copyTo[..] == CopiedRun(old(copyTo[..]), 0, sharedBuffer[..], offsets[index])) &&
        (r.Err? ==> (r == Err(IndexOutOfRange) &&
          copyTo[..] == CopiedRunPrefix(old(copyTo[..]), 0, sharedBuffer[..], offsets[index], copyTo.Length)))
    {
      r := ReadStringElementBytesAt(index, copyTo, 0);
    }

    /**
     * ReadStringElementBytes(index, copyTo, copyOffset): the same copy, placed
     * at copyOffset in copyTo; the count returned does not depend on
     * copyOffset. A store outside copyTo throws IndexOutOfRange after the
     * bytes before it were copied.
     */
    method ReadStringElementBytesAt(index: int, copyTo: array<byte>, copyOffset: int) returns (r: Result<int>)
      requires Indexable(index) && copyTo != sharedBuffer && copyTo != tags
      modifies copyTo
      ensures !IsStringTag(tags[index]) ==> r == Err(InvalidOperation) && copyTo[..] == old(copyTo[..])
      ensures IsStringTag(tags[index]) && offsets[index] < 0 ==> r == Err(IndexOutOfRange) && copyTo[..] == old(copyTo[..])
      ensures IsStringTag(tags[index]) && offsets[index] >= 0 ==>
        var run := RunLength(sharedBuffer[..], offsets[index]);
        (r.Ok? <==> RunFits(sharedBuffer[..], offsets[index], copyOffset, copyTo.Length)) &&
        (r.Ok? ==> r.value == run && copyTo[..] == CopiedRun(old(copyTo[..]), copyOffset, sharedBuffer[..], offsets[index])) &&
        (r.Err? ==> (r == Err(IndexOutOfRange) &&
          copyTo[..] == CopiedRunPrefix(old(copyTo[..]), copyOffset, sharedBuffer[..], offsets[index],
                                        Fitting(copyOffset, copyTo.Length, run))))
    {
      if !IsStringTag(tags[index]) {
        return Err(InvalidOperation);
      }
      var offset := offsets[index];
      if offset < 0 {
        return Err(IndexOutOfRange);
      }
      var copied := CopyUntilNul(sharedBuffer, offset, copyTo, copyOffset);
      if copied.Err? {
        return Err(copied.error);
      }
      return Ok(copied.value);
    }

    // -------------------------------------------------------------------------
    // Blobs
    // -------------------------------------------------------------------------

    /**
     * ReadBlobElement(index): a new array holding the blob's bytes. A negative
     * size fails the allocation, and a size running past the buffer fails the copy.
     */
    method ReadBlobElement(index: int) returns (r: Result<array<byte>>)
      requires Indexable(index)
      requires tags[index] == TypeTags.Blob ==> SlotFits(index, 4)
      ensures tags[index] != TypeTags.Blob ==> r == Err(InvalidOperation)
      ensures tags[index] == TypeTags.Blob ==>
        var offset := offsets[index];
        var size := ReadIntIndex(offset);
        (size < 0 ==> r == Err(Overflow)) &&
        (size >= 0 && offset + 4 + size > sharedBuffer.Length ==> r == Err(Argument)) &&
        (size >= 0 && offset + 4 + size <= sharedBuffer.Length ==>
          r.Ok? && fresh(r.value) && r.value[..] == sharedBuffer[offset + 4..offset + 4 + size])
    {
      if tags[index] != TypeTags.Blob {
        return Err(InvalidOperation);
      }
      var offset := offsets[index];
      var size := ReadIntIndex(offset);
      var dataStart := offset + 4;
      if size < 0 {
        return Err(Overflow);
      }
      var copyTo := new byte[size](_ => 0);
      if dataStart + size > sharedBuffer.Length {
        return Err(Argument);
      }
      forall k | 0 <= k < size {
        copyTo[k] := sharedBuffer[dataStart + k];
      }
      return Ok(copyTo);
    }

    /**
     * ReadBlobElement(index, ref copyTo, copyOffset): copy the blob into copyTo
     * at copyOffset, first replacing copyTo by a copy with 1024 bytes of
     * headroom when it has no more than `size` bytes after copyOffset. Both
     * the room test and the new size are unchecked int arithmetic. The array
     * the caller's reference holds afterwards is `resized`.
     */
    method ReadBlobElementInto(index: int, copyTo: array<byte>, copyOffset: int32)
      returns (r: Result<int>, resized: array<byte>)
      requires Indexable(index) && copyTo != sharedBuffer && copyTo != tags
      requires tags[index] == TypeTags.Blob ==> SlotFits(index, 4)
      modifies copyTo
      ensures tags[index] != TypeTags.Blob ==>
        r == Err(InvalidOperation) && resized == copyTo && copyTo[..] == old(copyTo[..])
      ensures tags[index] == TypeTags.Blob ==>
        GrowCopied(offsets[index] + 4, ReadIntIndex(offsets[index]), old(copyTo[..]), copyTo, copyOffset, r, resized)
    {
      resized := copyTo;
      if tags[index] != TypeTags.Blob {
        return Err(InvalidOperation), resized;
      }
      var offset := offsets[index];
      var size := ReadIntIndex(offset);
      r, resized := GrowAndCopy(offset + 4, size, copyTo, copyOffset);
    }

    /**
     * What ReadBlobElement leaves behind for a blob of `size` bytes at `start`.
     * When copyTo has no more than `size` bytes after copyOffset, both sides
     * of the test computed in wrapping int arithmetic, Array.Resize gives it
     * the length `size + copyOffset + 1024`, also wrapped: a negative length
     * throws Argument, and any other length other than the old one makes a
     * new array while copyTo keeps its bytes. The blob is then copied in, or
     * an argument error reported, with nothing copied, when a range is out of
     * bounds. With a non-negative offset and size and an array of int length,
     * the call succeeds exactly when the source range fits and, if the array
     * is resized, the new size before wrapping fits an int: past 2^31 it wraps
     * negative and throws, and past 2^32 it wraps to a length too short for
     * the copy.
     */
    twostate predicate GrowCopied(start: int, size: int32, before: seq<byte>, copyTo: array<byte>, copyOffset: int32,
                                  new r: Result<int>, new resized: array<byte>)
      reads this, sharedBuffer, resized, copyTo
    {
      var grow := WrapInt32(|before| - copyOffset) <= size;
      var newSize := WrapInt32(size + copyOffset + ResizeByteHeadroom);
      var target := if grow && newSize >= 0 then ResizedBytes(before, newSize) else before;
      (grow && newSize < 0 ==> r == Err(Argument) && resized == copyTo) &&
      (grow && newSize >= 0 && newSize != |before| ==> fresh(resized) && copyTo[..] == before) &&
      (grow && newSize >= 0 ==> resized.Length == newSize) &&
      (!grow || newSize == |before| ==> resized == copyTo) &&
      (r.Ok? <==> (!grow || newSize >= 0) && Writer.BlockCopyFits(sharedBuffer.Length, start, |target|, copyOffset, size)) &&
      (0 <= size && 0 <= copyOffset && |before| < 0x8000_0000 ==>
        (r.Ok? <==> (!grow || size + copyOffset + ResizeByteHeadroom < 0x8000_0000) &&
                    0 <= start && start + size <= sharedBuffer.Length)) &&
      (r.Err? ==> r == Err(Argument) && resized[..] == target) &&
      (r.Ok? ==> r.value == size && resized[..] == Writer.Splice(target, copyOffset, sharedBuffer[start..start + size]))
    }

    /** The blob branch of ReadBlobElement, once the size word has been read. */
    method GrowAndCopy(start: int, size: int32, copyTo: array<byte>, copyOffset: int32)
      returns (r: Result<int>, resized: array<byte>)
      requires copyTo != sharedBuffer
      modifies copyTo
      ensures GrowCopied(start, size, old(copyTo[..]), copyTo, copyOffset, r, resized)
    {
      resized := copyTo;
      WrapInt32Range(copyTo.Length - copyOffset);
      WrapInt32Range(size + copyOffset + ResizeByteHeadroom);
      if WrapInt32(copyTo.Length - copyOffset) <= size {
        var newSize := WrapInt32(size + copyOffset + ResizeByteHeadroom);
        if newSize < 0 {
          return Err(Argument), resized;
        }
        resized := Resize(copyTo, newSize);
      }
      r := CopyOut(start, size, resized, copyOffset);
    }

    /**
     * Array.Resize: the same array when the length is unchanged; otherwise a
     * new array of newSize holding the first old bytes that fit, zero-filled
     * after them.
     */
    static method Resize(a: array<byte>, newSize: nat) returns (resized: array<byte>)
      ensures newSize == a.Length ==> resized == a
      ensures newSize != a.Length ==> fresh(resized)
      ensures resized[..] == ResizedBytes(a[..], newSize)
    {
      if newSize == a.Length {
        return a;
      }
      var kept := a[..];
      resized := new byte[newSize](k => if 0 <= k < |kept| then kept[k] else 0);
    }

    /**
     * Buffer.BlockCopy: `size` shared-buffer bytes from `start` into target at
     * `at`, or an argument error, copying nothing, when either range is out of bounds.
     */
    method CopyOut(start: int, size: int, target: array<byte>, at: int) returns (r: Result<int>)
      requires target != sharedBuffer
      modifies target
      ensures r.Ok? <==> Writer.BlockCopyFits(sharedBuffer.Length, start, target.Length, at, size)
      ensures r.Err? ==> r == Err(Argument) && target[..] == old(target[..])
      ensures r.Ok? ==>
        r.value == size && target[..] == Writer.Splice(old(target[..]), at, sharedBuffer[start..start + size])
    {
      if !Writer.BlockCopyFits(sharedBuffer.Length, start, target.Length, at, size) {
        return Err(Argument);
      }
      forall k | 0 <= k < size {
        target[at + k] := sharedBuffer[start + k];
      }
      return Ok(size);
    }
  }

  /** ResizeByteHeadroom: the spare room a resized blob target gets. */
  const ResizeByteHeadroom: int := 1024

  /**
   * The contents Array.Resize gives an array resized to n: the old bytes
   * that fit, then zeros.
   */
  function ResizedBytes(before: seq<byte>, n: nat): (r: seq<byte>)
    ensures |r| == n
    ensures forall k :: 0 <= k < n && k < |before| ==> r[k] == before[k]
    ensures forall k :: |before| <= k < n ==> r[k] == 0
  {
    if n <= |before| then before[..n] else before + Zeros(n - |before|)
  }

  /**
   * The number of non-NUL bytes from index `from` on, stopping at the first NUL
   * or at the end of the buffer.
   */
  function RunLength(buf: seq<byte>, from: int): (k: nat)
    requires 0 <= from
    ensures from <= |buf| ==> from + k <= |buf|
    ensures from >= |buf| ==> k == 0
    ensures forall j :: from <= j < from + k ==> buf[j] != 0
    ensures from + k < |buf| ==> buf[from + k] == 0
    decreases |buf| - from
  {
    if from >= |buf| || buf[from] == 0 then 0 else 1 + RunLength(buf, from + 1)
  }

  /** The NUL-free run from `from` fits in a target of `room` bytes at `at` (an empty run always does). */
  predicate RunFits(buf: seq<byte>, from: nat, at: int, room: int)
  {
    RunLength(buf, from) > 0 ==> 0 <= at && at + RunLength(buf, from) <= room
  }

  /** The target after the NUL-free run from `from` is copied to it at `at`. */
  function CopiedRun(target: seq<byte>, at: int, buf: seq<byte>, from: nat): (after: seq<byte>)
    requires RunFits(buf, from, at, |target|)
    ensures |after| == |target|
    ensures RunLength(buf, from) == 0 ==> after == target
    ensures RunLength(buf, from) > 0 ==>
      after[..at] == target[..at] &&
      after[at..at + RunLength(buf, from)] == buf[from..from + RunLength(buf, from)] &&
      after[at + RunLength(buf, from)..] == target[at + RunLength(buf, from)..]
  {
    if RunLength(buf, from) == 0 then target
    else Writer.Splice(target, at, buf[from..from + RunLength(buf, from)])
  }

  /**
   * How many bytes of a run of `run` bytes are stored from `at` in a target
   * of `room` bytes before a store falls outside it.
   */
  function Fitting(at: int, room: int, run: nat): (n: nat)
    ensures n <= run
    ensures n > 0 ==> 0 <= at && at + n <= room
    ensures n == run <==> run == 0 || (0 <= at && at + run <= room)
  {
    if at < 0 || at >= room then 0 else if room - at < run then room - at else run
  }

  /** The target after the first n bytes of the run from `from` are copied to it at `at`. */
  function CopiedRunPrefix(target: seq<byte>, at: int, buf: seq<byte>, from: nat, n: nat): (after: seq<byte>)
    requires n <= RunLength(buf, from) && (n > 0 ==> 0 <= at && at + n <= |target|)
    ensures |after| == |target|
    ensures forall k :: 0 <= k < |target| ==>
      after[k] == if at <= k < at + n then buf[from + k - at] else target[k]
  {
    if n == 0 then target else Writer.Splice(target, at, buf[from..from + n])
  }

  /**
   * The copy loop shared by both ReadStringElementBytes overloads: bytes from
   * `from` up to the first NUL (or the end of `src`) go to `dst` at `at`,
   * one at a time; the first store outside `dst` throws, after the bytes
   * before it were stored.
   */
  method CopyUntilNul(src: array<byte>, from: nat, dst: array<byte>, at: int) returns (r: Result<nat>)
    requires src != dst
    modifies dst
    ensures r.Ok? <==> RunFits(src[..], from, at, dst.Length)
    ensures r.Ok? ==> r.value == RunLength(src[..], from) && dst[..] == CopiedRun(old(dst[..]), at, src[..], from)
    ensures r.Err? ==> (r == Err(IndexOutOfRange) &&
      dst[..] == CopiedRunPrefix(old(dst[..]), at, src[..], from, Fitting(at, dst.Length, RunLength(src[..], from))))
  {
    ghost var buf := src[..];
    ghost var run := RunLength(buf, from);
    var count := 0;
    while from + count < src.Length && src[from + count] != 0
      invariant count <= run && src[..] == buf
      invariant count > 0 ==> 0 <= at && at + count <= dst.Length
      invariant dst[..] == CopiedRunPrefix(old(dst[..]), at, buf, from, count)
      decreases run - count
    {
      RunContinues(buf, from, count);
      if at + count < 0 || at + count >= dst.Length {
        return Err(IndexOutOfRange);
      }
      var b := src[from + count];
      dst[at + count] := b;
      if count > 0 {
        Writer.SpliceExtend(old(dst[..]), at, buf[from..from + count], b);
      }
      assert buf[from..from + count + 1] == buf[from..from + count] + [b];
      count := count + 1;
    }
    RunEnds(buf, from, count);
    return Ok(count);
  }

  /** Inside the run, the byte at `from + count` is not a NUL. */
  lemma RunContinues(buf: seq<byte>, from: nat, count: nat)
    requires count <= RunLength(buf, from) && from + count < |buf| && buf[from + count] != 0
    ensures count < RunLength(buf, from)
  {
  }

  /** A NUL or the end of the buffer within the run ends it there. */
  lemma RunEnds(buf: seq<byte>, from: nat, count: nat)
    requires count <= RunLength(buf, from) && !(from + count < |buf| && buf[from + count] != 0)
    ensures count == RunLength(buf, from)
  {
  }

  // ---------------------------------------------------------------------------
  // What OscWriter writes, OscMessageValues reads back
  // ---------------------------------------------------------------------------

  /** An Int32 element whose slot holds the bytes WriteInt32(v) emits reads back as v, by both readers. */
  lemma Int32ReadsBack(m: OscMessageValues, index: int, v: int32, conv: HostConversions)
    requires m.Indexable(index) && m.tags[index] == TypeTags.Int32 && m.SlotFits(index, 4)
    requires m.Slot(index, 4) == Int32Bytes(v)
    ensures m.ReadIntElement(index, conv) == Ok(v)
    ensures m.ReadInt64Element(index, conv) == Ok(v)
  {
    var w := m.ReadIntElementUnchecked(index);
    Int32RoundTrip(v, m.Slot(index, 4));
    Int32RoundTrip(w, m.Slot(index, 4));
  }

  /** An Int64 element holding WriteInt64(v)'s bytes reads back as v. */
  lemma Int64ReadsBack(m: OscMessageValues, index: int, v: int64, conv: HostConversions)
    requires m.Indexable(index) && m.tags[index] == TypeTags.Int64 && m.SlotFits(index, 8)
    requires m.Slot(index, 8) == Int64Bytes(v)
    ensures m.ReadInt64Element(index, conv) == Ok(v)
  {
    var w := m.ReadInt64ElementUnchecked(index);
    Int64RoundTrip(v, m.Slot(index, 8));
    Int64RoundTrip(w, m.Slot(index, 8));
  }

  /** A Float32 element holding WriteFloat32(f)'s bytes reads back as the same bit pattern. */
  lemma Float32ReadsBack(m: OscMessageValues, index: int, f: Single, conv: HostConversions)
    requires m.Indexable(index) && m.tags[index] == TypeTags.Float32 && m.SlotFits(index, 4)
    requires m.Slot(index, 4) == UInt32Bytes(f.bits)
    ensures m.ReadFloatElement(index, conv) == Ok(f)
  {
    var g := m.ReadFloatElementUnchecked(index);
    UInt32RoundTrip(f.bits, m.Slot(index, 4));
    UInt32RoundTrip(g.bits, m.Slot(index, 4));
  }

  /** A Float64 element holding WriteFloat64(d)'s bytes reads back as the same bit pattern. */
  lemma Float64ReadsBack(m: OscMessageValues, index: int, d: Double, conv: HostConversions)
    requires m.Indexable(index) && m.tags[index] == TypeTags.Float64 && m.SlotFits(index, 8)
    requires m.Slot(index, 8) == UInt64Bytes(d.bits)
    ensures m.ReadFloat64Element(index, conv) == Ok(d)
  {
    var e := m.ReadFloat64ElementUnchecked(index);
    UInt64RoundTrip(d.bits, m.Slot(index, 8));
    UInt64RoundTrip(e.bits, m.Slot(index, 8));
  }

  /** A Color32 element holding WriteColor32(c)'s bytes reads back as c. */
  lemma Color32ReadsBack(m: OscMessageValues, index: int, c: Color32)
    requires m.Indexable(index) && m.tags[index] == TypeTags.Color32 && m.SlotFits(index, 4)
    requires m.Slot(index, 4) == Writer.Color32Bytes(c)
    ensures m.ReadColor32Element(index) == Ok(c)
  {
    var d := m.ReadColor32ElementUnchecked(index);
    Writer.Color32Layout(c);
    Writer.Color32Layout(d);
  }

  /** A MIDI element holding WriteMidi(msg)'s bytes reads back as msg. */
  lemma MidiReadsBack(m: OscMessageValues, index: int, msg: MidiMessage)
    requires m.Indexable(index) && m.tags[index] == TypeTags.MIDI && m.SlotFits(index, 4)
    requires m.Slot(index, 4) == msg
    ensures m.ReadMidiElement(index) == Ok(msg)
  {
  }

  /**
   * WriteChar(c) leaves c's byte in the last of the four slot bytes; a
   * character below 256 reads back as itself.
   */
  lemma CharReadsBack(m: OscMessageValues, index: int, c: char)
    requires m.Indexable(index) && m.tags[index] == TypeTags.AsciiChar32 && m.SlotFits(index, 4)
    requires (c as int) < 256 && m.sharedBuffer[m.offsets[index] + 3] == CharToByte(c)
    ensures m.ReadAsciiCharElement(index) == Ok(c)
  {
    assert (m.ReadAsciiCharElement(index).value as int) == c as int;
  }

  /**
   * The bytes WriteString(s) emits, for a NUL-free string, make the reader
   * stop exactly after s: the run is |s| long, its terminator lies inside the
   * written bytes, and ASCII text decodes back to s.
   */
  lemma StringReadsBack(buf: seq<byte>, offset: nat, s: string)
    requires forall i :: 0 <= i < |s| ==> s[i] != '\0' && IsAsciiChar(s[i])
    requires offset + PaddedStringLength(|s|) <= |buf|
    requires buf[offset..offset + PaddedStringLength(|s|)] == Writer.OscStringBytes(s)
    ensures RunLength(buf, offset) == |s| && offset + |s| < |buf|
    ensures AsciiDecode(buf[offset..offset + |s|]) == s
  {
    Writer.OscStringShape(s);
    var written := Writer.OscStringBytes(s);
    forall j | offset <= j < offset + |s|
      ensures buf[j] != 0
    {
      assert buf[j] == written[j - offset] == CharBytes(s)[j - offset];
    }
    assert buf[offset + |s|] == written[|s|] == 0;
    assert buf[offset..offset + |s|] == written[..|s|];
    CharBytesOfAscii(s);
    AsciiRoundTrip(s, []);
  }

  /**
   * The bytes WriteBlob emits for `data`: the size word reads back as |data|
   * and the |data| bytes after it are the data.
   */
  lemma BlobReadsBack(m: OscMessageValues, index: int, data: seq<byte>)
    requires m.Indexable(index) && m.tags[index] == TypeTags.Blob
    requires |data| < 0x8000_0000 && 0 <= m.offsets[index]
    requires m.offsets[index] + |Writer.OscBlobBytes(data)| <= m.sharedBuffer.Length
    requires m.sharedBuffer[m.offsets[index]..m.offsets[index] + |Writer.OscBlobBytes(data)|] == Writer.OscBlobBytes(data)
    ensures m.SlotFits(index, 4)
    ensures m.ReadIntIndex(m.offsets[index]) == |data|
    ensures m.offsets[index] + 4 + |data| <= m.sharedBuffer.Length
    ensures m.sharedBuffer[m.offsets[index] + 4..m.offsets[index] + 4 + |data|] == data
  {
    var offset := m.offsets[index];
    var buffer := m.sharedBuffer[..];
    BlobBytesReadBack(buffer, offset, data);
    Int32RoundTrip(m.ReadIntIndex(offset), buffer[offset..offset + 4]);
  }

  /** The same, over the bytes alone: an OSC-blob at `offset` reads back as its size and its data. */
  lemma BlobBytesReadBack(buffer: seq<byte>, offset: nat, data: seq<byte>)
    requires |data| < 0x8000_0000
    requires offset + |Writer.OscBlobBytes(data)| <= |buffer|
    requires buffer[offset..offset + |Writer.OscBlobBytes(data)|] == Writer.OscBlobBytes(data)
    ensures offset + 4 + |data| <= |buffer|
    ensures Int32At(buffer[offset..offset + 4]) == |data|
    ensures buffer[offset + 4..offset + 4 + |data|] == data
  {
    var written := Writer.OscBlobBytes(data);
    Writer.OscBlobShape(data);
    SliceOfSlice(buffer, offset, offset + |written|, 0, 4);
    SliceOfSlice(buffer, offset, offset + |written|, 4, 4 + |data|);
    assert buffer[offset..offset + 4] == written[..4];
    assert buffer[offset + 4..offset + 4 + |data|] == written[4..4 + |data|];
  }
}
