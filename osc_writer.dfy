/**
 * OscWriter: serialises OSC elements into a fixed byte buffer, advancing a
 * length cursor. Every element is written in network byte order and padded to
 * a multiple of four bytes, as the OSC 1.0 specification lays out its
 * arguments. The buffer is never grown and no write checks the capacity, so
 * each method requires the room it writes into.
 *
 * Every method states its whole effect as a splice: the buffer afterwards is the
 * buffer before with one run of bytes overwritten at the old cursor.
 */
module Writer {
  import opened Wire
  import opened UnityColor
  import opened Blobs
  import opened Results

  datatype Vector2 = Vector2(x: Single, y: Single)
  datatype Vector3 = Vector3(x: Single, y: Single, z: Single)

  /** `before` with `written` stored from index `at` on. */
  function Splice(before: seq<byte>, at: nat, written: seq<byte>): (after: seq<byte>)
    requires at + |written| <= |before|
    ensures |after| == |before|
    ensures forall k :: 0 <= k < |after| ==>
      after[k] == if at <= k < at + |written| then written[k - at] else before[k]
  {
    before[..at] + written + before[at + |written|..]
  }

  /** Two writes one after the other are one write of both runs. */
  lemma SpliceTwice(before: seq<byte>, at: nat, first: seq<byte>, second: seq<byte>)
    requires at + |first| + |second| <= |before|
    ensures Splice(Splice(before, at, first), at + |first|, second) == Splice(before, at, first + second)
  {
    var lhs := Splice(Splice(before, at, first), at + |first|, second);
    var rhs := Splice(before, at, first + second);
    forall k | 0 <= k < |before|
      ensures lhs[k] == rhs[k]
    {
      if at + |first| <= k < at + |first| + |second| {
        assert (first + second)[k - at] == second[k - at - |first|];
      } else if at <= k < at + |first| {
        assert (first + second)[k - at] == first[k - at];
      }
    }
  }

  /** Storing one more byte right after a run extends the run. */
  lemma SpliceExtend(before: seq<byte>, at: nat, written: seq<byte>, b: byte)
    requires at + |written| < |before|
    ensures Splice(before, at, written)[at + |written| := b] == Splice(before, at, written + [b])
  {
    var lhs := Splice(before, at, written)[at + |written| := b];
    var rhs := Splice(before, at, written + [b]);
    forall k | 0 <= k < |before|
      ensures lhs[k] == rhs[k]
    {
      if at <= k < at + |written| {
        assert (written + [b])[k - at] == written[k - at];
      }
    }
  }

  lemma CharBytesPrefix(s: string, i: nat)
    requires i < |s|
    ensures CharBytes(s[..i + 1]) == CharBytes(s[..i]) + [CharToByte(s[i])]
  {
  }

  // ---------------------------------------------------------------------------
  // Wire encodings of the elements
  // ---------------------------------------------------------------------------

  /** An OSC-string: the characters' low bytes, then one to four NULs up to a multiple of 4. */
  function OscStringBytes(s: string): (bs: seq<byte>)
  {
    CharBytes(s) + Zeros(PaddedStringLength(|s|) - |s|)
  }

  /** An OSC-string as Write(BlobString) emits it: the handle's bytes, then the same padding. */
  function BlobStringBytes(s: BlobString): (bs: seq<byte>)
    requires Valid(s.handle)
  {
    Bytes(s.handle) + Zeros(PaddedStringLength(Length(s)) - Length(s))
  }

  /** An OSC-blob: a big-endian int32 size, the bytes, then zeros up to a multiple of 4. */
  function OscBlobBytes(data: seq<byte>): (bs: seq<byte>)
    requires |data| < 0x8000_0000
  {
    Int32Bytes(|data|) + data + Zeros(BlobPadding(|data|))
  }

  /** A Color32 element: the struct's four host bytes reversed, so a, b, g, r on the wire. */
  function Color32Bytes(c: Color32): (bs: seq<byte>)
  {
    Reverse(HostBytes(c))
  }

  /** Constant.BundlePrefixBytes: the ASCII text "#bundle " (the OSC bundle marker, including its NUL-less 8th byte). */
  const BundlePrefix: seq<byte> := AsciiEncode("#bundle ")

  /** The first bytes of a message written by WriteAddressAndTags: the address, then the tag word as the host stores it. */
  function AddressAndTagsBytes(address: string, tags: uint32): (bs: seq<byte>)
  {
    OscStringBytes(address) + LittleEndianBytes(tags, 4)
  }

  /**
   * An OSC-string of n characters occupies a multiple of four bytes, between
   * n + 1 and n + 4; it starts with the characters and every byte after them,
   * the last one included, is 0.
   */
  lemma OscStringShape(s: string)
    ensures |OscStringBytes(s)| % 4 == 0
    ensures |s| + 1 <= |OscStringBytes(s)| <= |s| + 4
    ensures OscStringBytes(s)[..|s|] == CharBytes(s)
    ensures forall k :: |s| <= k < |OscStringBytes(s)| ==> OscStringBytes(s)[k] == 0
    ensures OscStringBytes(s)[|OscStringBytes(s)| - 1] == 0
  {
  }

  /**
   * Write(BlobString) of a non-empty ASCII string emits exactly what
   * Write(string) emits; the BlobString of "" is the one whose reference throws.
   */
  lemma BlobStringBytesMatchString(s: string)
    requires IsAscii(s)
    ensures Blobs.ReferenceThrows(FromString(s).handle) <==> s == []
    ensures s != [] ==> BlobStringBytes(FromString(s)) == OscStringBytes(s)
  {
    CharBytesOfAscii(s);
  }

  /**
   * An OSC-blob is a multiple of four bytes long: the 4-byte size, which reads
   * back as the blob's length, the data, and fewer than four zeros, none when
   * the data is already aligned.
   */
  lemma OscBlobShape(data: seq<byte>)
    requires |data| < 0x8000_0000
    ensures |OscBlobBytes(data)| % 4 == 0
    ensures Int32At(OscBlobBytes(data)[..4]) == |data|
    ensures OscBlobBytes(data)[4..4 + |data|] == data
    ensures |data| % 4 == 0 ==> |OscBlobBytes(data)| == 4 + |data|
    ensures |OscBlobBytes(data)| < 4 + |data| + 4
  {
    OscBlobParts(data);
    Int32RoundTrip(|data|, Int32Bytes(|data|));
    AlignedAfterWord(|data| + BlobPadding(|data|));
  }

  /** A word in front of an aligned length keeps it aligned. */
  lemma AlignedAfterWord(n: nat)
    requires n % 4 == 0
    ensures (4 + n) % 4 == 0
  {
  }

  /** The three parts of an OSC-blob: the 4-byte size, the data and the padding. */
  lemma OscBlobParts(data: seq<byte>)
    requires |data| < 0x8000_0000
    ensures |OscBlobBytes(data)| == 4 + |data| + BlobPadding(|data|)
    ensures OscBlobBytes(data)[..4] == Int32Bytes(|data|)
    ensures OscBlobBytes(data)[4..4 + |data|] == data
  {
    var h, z := Int32Bytes(|data|), Zeros(BlobPadding(|data|));
    assert |h| == 4 by { Int32RoundTrip(|data|, h); }
    assert OscBlobBytes(data) == h + data + z;
  }

  /** The colour goes on the wire alpha first and red last. */
  lemma Color32Layout(c: Color32)
    ensures Color32Bytes(c) == [c.a, c.b, c.g, c.r]
  {
  }

  /** The tag word 26924 of a single-int message is stored as ',' 'i' 0 0. */
  lemma Int32TagWordExample()
    ensures LittleEndianBytes(26924, 4) == AsciiEncode(",i") + [0, 0]
  {
  }

  /**
   * WriteAddressAndTags leaves the buffer as Reset, then Write(address), then the
   * four host-order bytes of the tag word would.
   */
  lemma AddressAndTagsAsSeparateWrites(before: seq<byte>, address: string, tags: uint32)
    requires PaddedStringLength(|address|) + 4 <= |before|
    ensures Splice(Splice(before, 0, OscStringBytes(address)), PaddedStringLength(|address|), LittleEndianBytes(tags, 4))
         == Splice(before, 0, AddressAndTagsBytes(address, tags))
    ensures AddressAndTagsBytes(address, tags)[..PaddedStringLength(|address|)] == OscStringBytes(address)
  {
    SpliceTwice(before, 0, OscStringBytes(address), LittleEndianBytes(tags, 4));
  }

  /**
   * Buffer.BlockCopy(src, srcOffset, dst, dstOffset, count) copies exactly
   * when no offset or count is negative and both ranges lie inside their
   * arrays. Otherwise it throws ArgumentException (ArgumentOutOfRangeException
   * for a negative one) before copying anything.
   */
  predicate BlockCopyFits(srcLength: int, srcOffset: int, dstLength: int, dstOffset: int, count: int)
  {
    0 <= srcOffset && 0 <= dstOffset && 0 <= count &&
    srcOffset + count <= srcLength && dstOffset + count <= dstLength
  }

  // ---------------------------------------------------------------------------
  // The writer
  // ---------------------------------------------------------------------------

  class OscWriter {
    /** Buffer: allocated once, never resized. */
    const buffer: array<byte>
    /** _length: the number of bytes written so far. */
    var length: int

    ghost predicate Valid()
      reads this
    {
      0 <= length <= buffer.Length
    }

    /** OscWriter(int capacity = 4096) for a non-negative capacity: a zeroed buffer and an empty message. */
    constructor(capacity: nat)
      ensures Valid() && fresh(buffer)
      ensures buffer.Length == capacity && length == 0
      ensures buffer[..] == Zeros(capacity)
    {
      buffer := new byte[capacity](_ => 0);
      length := 0;
    }

    /**
     * new OscWriter(capacity): `new byte[capacity]` throws OverflowException
     * for a negative capacity; otherwise the writer the constructor makes.
     */
    static method Create(capacity: int32) returns (r: Result<OscWriter>)
      ensures r.Err? <==> capacity < 0
      ensures r.Err? ==> r.error == Overflow
      ensures r.Ok? ==>
        fresh(r.value) && fresh(r.value.buffer) && r.value.Valid() &&
        r.value.buffer.Length == capacity && r.value.length == 0 && r.value.buffer[..] == Zeros(capacity)
    {
      if capacity < 0 {
        return Err(Overflow);
      }
      var w := new OscWriter(capacity);
      return Ok(w);
    }

    /** Reset: forget what was written; the bytes stay in the buffer. */
    method Reset()
      modifies this
      ensures Valid() && length == 0
      ensures buffer[..] == old(buffer[..])
    {
      length := 0;
    }

    /**
     * WriteToBigEndian on a little-endian host: store the host bytes of a 0, 4
     * or 8 byte value in reverse order, which is network order.
     */
    method WriteToBigEndian(hostBytes: seq<byte>)
      requires Valid()
      requires |hostBytes| == 0 || |hostBytes| == 4 || |hostBytes| == 8
      requires length + |hostBytes| <= buffer.Length
      modifies this, buffer
      ensures Valid() && length == old(length) + |hostBytes|
      ensures buffer[..] == Splice(old(buffer[..]), old(length), Reverse(hostBytes))
    {
      var offset := length;
      length := length + |hostBytes|;
      if |hostBytes| == 0 {
        return;
      }
      if |hostBytes| == 4 {
        buffer[offset] := hostBytes[3];
        buffer[offset + 1] := hostBytes[2];
        buffer[offset + 2] := hostBytes[1];
        buffer[offset + 3] := hostBytes[0];
        return;
      }
      buffer[offset] := hostBytes[7];
      buffer[offset + 1] := hostBytes[6];
      buffer[offset + 2] := hostBytes[5];
      buffer[offset + 3] := hostBytes[4];
      buffer[offset + 4] := hostBytes[3];
      buffer[offset + 5] := hostBytes[2];
      buffer[offset + 6] := hostBytes[1];
      buffer[offset + 7] := hostBytes[0];
    }

    /** Write(int): the value big-endian in 4 bytes. */
    method WriteInt32(data: int32)
      requires Valid() && length + 4 <= buffer.Length
      modifies this, buffer
      ensures Valid() && length == old(length) + 4
      ensures buffer[..] == Splice(old(buffer[..]), old(length), Int32Bytes(data))
    {
      ReverseLittleEndianBytes(UInt32Of(data), 4);
      WriteToBigEndian(LittleEndianBytes(UInt32Of(data), 4));
    }

    /** Write(float): the bit pattern big-endian in 4 bytes. */
    method WriteFloat32(data: Single)
      requires Valid() && length + 4 <= buffer.Length
      modifies this, buffer
      ensures Valid() && length == old(length) + 4
      ensures buffer[..] == Splice(old(buffer[..]), old(length), UInt32Bytes(data.bits))
    {
      ReverseLittleEndianBytes(data.bits, 4);
      WriteToBigEndian(SingleHostBytes(data));
    }

    /** Write(Vector2): x, then y, as two float elements. */
    method WriteVector2(data: Vector2)
      requires Valid() && length + 8 <= buffer.Length
      modifies this, buffer
      ensures Valid() && length == old(length) + 8
      ensures buffer[..] == Splice(old(buffer[..]), old(length), UInt32Bytes(data.x.bits) + UInt32Bytes(data.y.bits))
    {
      WriteFloat32(data.x);
      WriteFloat32(data.y);
      SpliceTwice(old(buffer[..]), old(length), UInt32Bytes(data.x.bits), UInt32Bytes(data.y.bits));
    }

    /** Write(Vector3): x, y, then z, as three float elements. */
    method WriteVector3(data: Vector3)
      requires Valid() && length + 12 <= buffer.Length
      modifies this, buffer
      ensures Valid() && length == old(length) + 12
      ensures buffer[..] == Splice(old(buffer[..]), old(length),
                                   UInt32Bytes(data.x.bits) + UInt32Bytes(data.y.bits) + UInt32Bytes(data.z.bits))
    {
      WriteFloat32(data.x);
      WriteFloat32(data.y);
      SpliceTwice(old(buffer[..]), old(length), UInt32Bytes(data.x.bits), UInt32Bytes(data.y.bits));
      WriteFloat32(data.z);
      SpliceTwice(old(buffer[..]), old(length), UInt32Bytes(data.x.bits) + UInt32Bytes(data.y.bits), UInt32Bytes(data.z.bits));
    }

    /**
     * Write(string): each character's low byte, then NULs up to
     * `(n + 3) & ~3`, or n + 4 when n is already a multiple of 4.
     */
    method WriteString(data: string)
      requires Valid() && length + PaddedStringLength(|data|) <= buffer.Length
      modifies this, buffer
      ensures Valid() && length == old(length) + PaddedStringLength(|data|)
      ensures buffer[..] == Splice(old(buffer[..]), old(length), OscStringBytes(data))
    {
      StoreChars(data);
      var alignedLength := AlignUp4(|data|);
      if alignedLength == |data| {
        alignedLength := alignedLength + 4;
      }
      StoreZeros(alignedLength - |data|);
      SpliceTwice(old(buffer[..]), old(length), CharBytes(data), Zeros(alignedLength - |data|));
    }

    /** The `foreach (var chr in data) Buffer[_length++] = (byte)chr` loop of the string writers. */
    method StoreChars(data: string)
      requires Valid() && length + |data| <= buffer.Length
      modifies this, buffer
      ensures Valid() && length == old(length) + |data|
      ensures buffer[..] == Splice(old(buffer[..]), old(length), CharBytes(data))
    {
      var i := 0;
      while i < |data|
        invariant 0 <= i <= |data| && length == old(length) + i
        invariant buffer[..] == Splice(old(buffer[..]), old(length), CharBytes(data[..i]))
      {
        ghost var prior := buffer[..];
        buffer[length] := CharToByte(data[i]);
        assert buffer[..] == prior[length := CharToByte(data[i])];
        SpliceExtend(old(buffer[..]), old(length), CharBytes(data[..i]), CharToByte(data[i]));
        length := length + 1;
        CharBytesPrefix(data, i);
        i := i + 1;
      }
      assert data[..i] == data;
    }

    /** A block copy of `data` to the cursor (System.Buffer.BlockCopy, Unsafe.CopyBlock or a struct store), advancing it. */
    method StoreBytes(data: seq<byte>)
      requires Valid() && length + |data| <= buffer.Length
      modifies this, buffer
      ensures Valid() && length == old(length) + |data|
      ensures buffer[..] == Splice(old(buffer[..]), old(length), data)
    {
      var at := length;
      forall k | 0 <= k < |data| {
        buffer[at + k] := data[k];
      }
      length := length + |data|;
    }

    /** The `Buffer[_length++] = 0` padding loops of the string and blob writers. */
    method StoreZeros(count: nat)
      requires Valid() && length + count <= buffer.Length
      modifies this, buffer
      ensures Valid() && length == old(length) + count
      ensures buffer[..] == Splice(old(buffer[..]), old(length), Zeros(count))
    {
      var i := 0;
      while i < count
        invariant 0 <= i <= count && length == old(length) + i
        invariant buffer[..] == Splice(old(buffer[..]), old(length), Zeros(i))
      {
        ghost var prior := buffer[..];
        buffer[length] := 0;
        assert buffer[..] == prior[length := 0];
        SpliceExtend(old(buffer[..]), old(length), Zeros(i), 0);
        length := length + 1;
        assert Zeros(i + 1) == Zeros(i) + [0];
        i := i + 1;
      }
    }

    /**
     * Write(BlobString): the handle's bytes copied as one block, then the
     * OSC-string padding. Taking the handle's reference throws, before
     * anything is written, for a handle at its array's end.
     */
    method WriteBlobString(data: BlobString) returns (outcome: Outcome)
      requires Valid() && Blobs.Valid(data.handle)
      requires !Blobs.ReferenceThrows(data.handle) ==> length + PaddedStringLength(Length(data)) <= buffer.Length
      modifies this, buffer
      ensures Valid()
      ensures Blobs.ReferenceThrows(data.handle) ==>
        outcome == Threw(IndexOutOfRange) && length == old(length) && buffer[..] == old(buffer[..])
      ensures !Blobs.ReferenceThrows(data.handle) ==>
        outcome == Done && length == old(length) + PaddedStringLength(Length(data)) &&
        buffer[..] == Splice(old(buffer[..]), old(length), BlobStringBytes(data))
    {
      if Blobs.ReferenceThrows(data.handle) {
        return Threw(IndexOutOfRange);
      }
      outcome := Done;
      var strLength := Length(data);
      assert strLength == |Bytes(data.handle)|;
      StoreBytes(Bytes(data.handle));
      var alignedLength := AlignUp4(strLength);
      if alignedLength == strLength {
        alignedLength := alignedLength + 4;
      }
      StoreZeros(alignedLength - strLength);
      SpliceTwice(old(buffer[..]), old(length), Bytes(data.handle), Zeros(alignedLength - strLength));
    }

    /**
     * Write(byte[] bytes, int length, int start): nothing when `start +
     * length`, summed in wrapping int arithmetic, runs past the array.
     * Otherwise the size word is written, then Buffer.BlockCopy copies the
     * bytes, which may come from the writer's own buffer, read after the size
     * word is in place. BlockCopy throws, leaving the size word written, for
     * a negative start or length, a source range past the array (reached when
     * the sum wrapped) or a target range past the buffer. Otherwise the bytes
     * and the padding to a multiple of 4 follow.
     */
    method WriteBlob(bytes: array<byte>, len: int32, start: int32) returns (outcome: Outcome)
      requires Valid()
      requires WrapInt32(start + len) <= bytes.Length ==> length + 4 <= buffer.Length
      requires WrapInt32(start + len) <= bytes.Length && BlockCopyFits(bytes.Length, start, buffer.Length, length + 4, len) ==>
        length + 4 + len + BlobPadding(len) <= buffer.Length
      modifies this, buffer
      ensures Valid()
      ensures WrapInt32(start + len) > bytes.Length ==>
        outcome == Done && length == old(length) && buffer[..] == old(buffer[..])
      ensures WrapInt32(start + len) <= bytes.Length && !BlockCopyFits(bytes.Length, start, buffer.Length, old(length) + 4, len) ==>
        outcome == Threw(Argument) && length == old(length) + 4 &&
        buffer[..] == Splice(old(buffer[..]), old(length), Int32Bytes(len))
      ensures WrapInt32(start + len) <= bytes.Length && BlockCopyFits(bytes.Length, start, buffer.Length, old(length) + 4, len) ==>
        var source := if bytes == buffer then Splice(old(buffer[..]), old(length), Int32Bytes(len)) else old(bytes[..]);
        outcome == Done && length == old(length) + 4 + len + BlobPadding(len) &&
        buffer[..] == Splice(old(buffer[..]), old(length), OscBlobBytes(source[start..start + len]))
    {
      if WrapInt32(start + len) > bytes.Length {
        return Done;
      }
      WriteInt32(len);
      if !BlockCopyFits(bytes.Length, start, buffer.Length, length, len) {
        return Threw(Argument);
      }
      var data := bytes[start..start + len];
      StoreBytes(data);
      SpliceTwice(old(buffer[..]), old(length), Int32Bytes(len), data);
      var remainder := AlignUp4(len) - len;
      assert remainder == BlobPadding(len);
      StoreZeros(remainder);
      SpliceTwice(old(buffer[..]), old(length), Int32Bytes(len) + data, Zeros(remainder));
      assert OscBlobBytes(data) == Int32Bytes(len) + data + Zeros(remainder);
      return Done;
    }

    /** Write(long): the value big-endian in 8 bytes. */
    method WriteInt64(data: int64)
      requires Valid() && length + 8 <= buffer.Length
      modifies this, buffer
      ensures Valid() && length == old(length) + 8
      ensures buffer[..] == Splice(old(buffer[..]), old(length), Int64Bytes(data))
    {
      ReverseLittleEndianBytes(UInt64Of(data), 8);
      WriteToBigEndian(LittleEndianBytes(UInt64Of(data), 8));
    }

    /** Write(double): the bit pattern big-endian in 8 bytes. */
    method WriteFloat64(data: Double)
      requires Valid() && length + 8 <= buffer.Length
      modifies this, buffer
      ensures Valid() && length == old(length) + 8
      ensures buffer[..] == Splice(old(buffer[..]), old(length), UInt64Bytes(data.bits))
    {
      ReverseLittleEndianBytes(data.bits, 8);
      WriteToBigEndian(DoubleHostBytes(data));
    }

    /** Write(Color32): the struct's 4 bytes reversed. */
    method WriteColor32(data: Color32)
      requires Valid() && length + 4 <= buffer.Length
      modifies this, buffer
      ensures Valid() && length == old(length) + 4
      ensures buffer[..] == Splice(old(buffer[..]), old(length), Color32Bytes(data))
    {
      WriteToBigEndian(HostBytes(data));
    }

    /** Write(MidiMessage): the struct's 4 bytes stored as they are, with no swap. */
    method WriteMidi(data: MidiMessage)
      requires Valid() && length + 4 <= buffer.Length
      modifies this, buffer
      ensures Valid() && length == old(length) + 4
      ensures buffer[..] == Splice(old(buffer[..]), old(length), data)
    {
      StoreBytes(data);
    }

    /** Write(char): only the last byte of the 4-byte slot; the first three keep whatever they held. */
    method WriteChar(data: char)
      requires Valid() && length + 4 <= buffer.Length
      modifies this, buffer
      ensures Valid() && length == old(length) + 4
      ensures buffer[..] == Splice(old(buffer[..]), old(length) + 3, [CharToByte(data)])
    {
      buffer[length + 3] := CharToByte(data);
      length := length + 4;
    }

    /** WriteBundlePrefix: the 8 bytes "#bundle ". */
    method WriteBundlePrefix()
      requires Valid() && length + 8 <= buffer.Length
      modifies this, buffer
      ensures Valid() && length == old(length) + 8
      ensures buffer[..] == Splice(old(buffer[..]), old(length), BundlePrefix)
    {
      StoreBytes(BundlePrefix);
    }

    /**
     * WriteAddressAndTags: restart the message, write the address as an
     * OSC-string, then store the tag word as the host stores a uint.
     */
    method WriteAddressAndTags(address: string, tags: uint32)
      requires PaddedStringLength(|address|) + 4 <= buffer.Length
      modifies this, buffer
      ensures Valid() && length == PaddedStringLength(|address|) + 4
      ensures buffer[..] == Splice(old(buffer[..]), 0, AddressAndTagsBytes(address, tags))
    {
      length := 0;
      // the address loop and its padding are the same steps as Write(string)
      WriteString(address);
      StoreBytes(LittleEndianBytes(tags, 4));
      SpliceTwice(old(buffer[..]), 0, OscStringBytes(address), LittleEndianBytes(tags, 4));
    }

    /**
     * CopyBuffer: Buffer.BlockCopy of the written bytes into copyTo at
     * copyOffset (copyTo may be the buffer itself). A negative offset or a
     * target too short for the bytes throws and copies nothing.
     */
    method CopyBuffer(copyTo: array<byte>, copyOffset: int32) returns (outcome: Outcome)
      requires Valid()
      modifies copyTo
      ensures outcome == Done <==> BlockCopyFits(buffer.Length, 0, copyTo.Length, copyOffset, length)
      ensures outcome != Done ==> outcome == Threw(Argument) && copyTo[..] == old(copyTo[..])
      ensures outcome == Done ==> copyTo[..] == Splice(old(copyTo[..]), copyOffset, old(buffer[..length]))
    {
      if !BlockCopyFits(buffer.Length, 0, copyTo.Length, copyOffset, length) {
        return Threw(Argument);
      }
      var source := buffer[..length];
      forall k | 0 <= k < |source| {
        copyTo[copyOffset + k] := source[k];
      }
      return Done;
    }
  }
}
