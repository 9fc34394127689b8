/**
 * BlobHandles: a byte range used as a hash key without copying it into a string,
 * and BlobString, a string kept as such a range of ASCII bytes.
 *
 * Memory is modelled by value: a pointer-backed handle carries the bytes from
 * its pointer onward, an array-backed handle the whole array and an offset.
 * Two handles are equal when their lengths and their bytes agree, whichever
 * way they are backed.
 */
module Blobs {
  import opened Wire
  import opened Results

  datatype BlobHandle =
    | AtPointer(memory: seq<byte>, length: int)
    | InArray(bytes: seq<byte>, length: int, offset: int)

  /** The handle's range lies inside its backing memory (the constructors do not check this). */
  predicate Valid(h: BlobHandle) {
    match h
    case AtPointer(memory, length) => 0 <= length <= |memory|
    case InArray(bytes, length, offset) => 0 <= offset && 0 <= length && offset + length <= |bytes|
  }

  /** The bytes the handle stands for: `Length` bytes from its `Reference`. */
  function Bytes(h: BlobHandle): (s: seq<byte>)
    requires Valid(h)
    ensures |s| == h.length
  {
    match h
    case AtPointer(memory, length) => memory[..length]
    case InArray(bytes, length, offset) => bytes[offset..offset + length]
  }

  /** BlobHandle(byte* pointer, int length) and BlobHandle(IntPtr pointer, int length). */
  function FromPointer(memory: seq<byte>, length: int): (h: BlobHandle)
    requires 0 <= length <= |memory|
    ensures Valid(h) && Bytes(h) == memory[..length]
  {
    AtPointer(memory, length)
  }

  /** BlobHandle(byte[] bytes): the whole array. */
  function FromArray(bytes: seq<byte>): (h: BlobHandle)
    ensures Valid(h) && Bytes(h) == bytes
  {
    InArray(bytes, |bytes|, 0)
  }

  /** BlobHandle(byte[] bytes, int length, int offset = 0): a slice of the array. */
  function FromSlice(bytes: seq<byte>, length: int, offset: int): (h: BlobHandle)
    requires 0 <= offset && 0 <= length && offset + length <= |bytes|
    ensures Valid(h) && Bytes(h) == bytes[offset..offset + length]
  {
    InArray(bytes, length, offset)
  }

  /**
   * Taking `Reference` of an array handle reads `_bytes[_offset]`, which is
   * bounds-checked: it throws IndexOutOfRange when the offset is the array's
   * end, as for the handle of an empty array. A pointer handle's reference
   * reads nothing.
   */
  predicate ReferenceThrows(h: BlobHandle)
  {
    h.InArray? && h.offset == |h.bytes|
  }

  /** What Equals, == and != decide. */
  predicate SameBlob(a: BlobHandle, b: BlobHandle)
    requires Valid(a) && Valid(b)
  {
    a.length == b.length && Bytes(a) == Bytes(b)
  }

  /**
   * MemoryCompare: 0 when the first `count` bytes at the two references agree,
   * 1 at the first difference.
   */
  method MemoryCompare(p1: seq<byte>, p2: seq<byte>, count: int) returns (r: int)
    requires 0 <= count <= |p1| && count <= |p2|
    ensures r == 0 || r == 1
    ensures r == 0 <==> p1[..count] == p2[..count]
  {
    var i := 0;
    while i < count
      invariant 0 <= i <= count
      invariant p1[..i] == p2[..i]
    {
      if p1[i] != p2[i] {
        assert p1[..count][i] != p2[..count][i];
        return 1;
      }
      assert p1[..i + 1] == p1[..i] + [p1[i]];
      assert p2[..i + 1] == p2[..i] + [p2[i]];
      i := i + 1;
    }
    return 0;
  }

  /**
   * Equals(BlobHandle other): equal lengths, then the bytes compared; a length
   * mismatch reads nothing. With equal lengths both references are taken
   * first, so an empty array handle at its array's end throws.
   */
  method Equals(a: BlobHandle, b: BlobHandle) returns (r: Result<bool>)
    requires a.length == b.length ==> Valid(a) && Valid(b)
    ensures r.Err? <==> a.length == b.length && (ReferenceThrows(a) || ReferenceThrows(b))
    ensures r.Err? ==> r.error == IndexOutOfRange
    ensures r.Ok? ==> (r.value <==> a.length == b.length && Bytes(a) == Bytes(b))
  {
    if a.length != b.length {
      return Ok(false);
    }
    if ReferenceThrows(a) || ReferenceThrows(b) {
      return Err(IndexOutOfRange);
    }
    var c := MemoryCompare(Bytes(a), Bytes(b), a.length);
    assert Bytes(a)[..a.length] == Bytes(a) && Bytes(b)[..a.length] == Bytes(b);
    return Ok(c == 0);
  }

  /** operator ==, written out like Equals. */
  method EqualOperator(left: BlobHandle, right: BlobHandle) returns (r: Result<bool>)
    requires left.length == right.length ==> Valid(left) && Valid(right)
    ensures r.Err? <==> left.length == right.length && (ReferenceThrows(left) || ReferenceThrows(right))
    ensures r.Err? ==> r.error == IndexOutOfRange
    ensures r.Ok? ==> (r.value <==> left.length == right.length && Bytes(left) == Bytes(right))
  {
    if left.length != right.length {
      return Ok(false);
    }
    if ReferenceThrows(left) || ReferenceThrows(right) {
      return Err(IndexOutOfRange);
    }
    var c := MemoryCompare(Bytes(left), Bytes(right), left.length);
    assert Bytes(left)[..left.length] == Bytes(left) && Bytes(right)[..left.length] == Bytes(right);
    return Ok(c == 0);
  }

  /** operator !=: a length mismatch, or a byte that differs; the references are taken as for ==. */
  method NotEqualOperator(left: BlobHandle, right: BlobHandle) returns (r: Result<bool>)
    requires left.length == right.length ==> Valid(left) && Valid(right)
    ensures r.Err? <==> left.length == right.length && (ReferenceThrows(left) || ReferenceThrows(right))
    ensures r.Err? ==> r.error == IndexOutOfRange
    ensures r.Ok? ==> (r.value <==> !(left.length == right.length && Bytes(left) == Bytes(right)))
  {
    if left.length != right.length {
      return Ok(true);
    }
    if ReferenceThrows(left) || ReferenceThrows(right) {
      return Err(IndexOutOfRange);
    }
    var c := MemoryCompare(Bytes(left), Bytes(right), left.length);
    assert Bytes(left)[..left.length] == Bytes(left) && Bytes(right)[..left.length] == Bytes(right);
    return Ok(c != 0);
  }

  /** Handle equality is an equivalence relation. */
  lemma SameBlobIsEquivalence(a: BlobHandle, b: BlobHandle, c: BlobHandle)
    requires Valid(a) && Valid(b) && Valid(c)
    ensures SameBlob(a, a)
    ensures SameBlob(a, b) ==> SameBlob(b, a)
    ensures SameBlob(a, b) && SameBlob(b, c) ==> SameBlob(a, c)
  {
  }

  /** Exclusive-or of two bytes. */
  function Xor8(a: byte, b: byte): (x: byte)
  {
    ((a as int as bv8) ^ (b as int as bv8)) as int as byte
  }

  /**
   * GetHashCode: `Length * 397 ^ this[Length - 1]` in unchecked 32-bit arithmetic.
   * The last byte is below 256, so the exclusive-or only touches the low byte of
   * the product; the model writes it that way. It reads the last byte, so it needs
   * at least one byte: for an empty handle the `(uint)` cast of index -1 would
   * reach 4 GiB past the reference.
   */
  function HashCode(h: BlobHandle): (hash: int32)
    requires Valid(h) && h.length >= 1
  {
    Int32Of(XorLowByte(Wrap32(h.length * 397), Bytes(h)[h.length - 1]))
  }

  /**
   * GetHashCode on any handle, empty ones included. With at least one byte it
   * is HashCode. An empty handle reads `this[-1]`, which the `(uint)` cast
   * turns into the byte 0xFFFFFFFF past the reference. For an array handle
   * whose offset is the array's length, as for the handle of an empty array,
   * taking the reference `_bytes[_offset]` already throws IndexOutOfRange.
   * Any other empty handle reads outside its blob: `stray` is what that
   * memory holds, or None when reading it faults. As `0 * 397` is 0, the
   * hash is then the stray byte.
   */
  function TryHashCode(h: BlobHandle, stray: Option<byte>): (r: Result<int32>)
    requires Valid(h)
    ensures h.length >= 1 ==> r == Ok(HashCode(h))
    ensures r.Err? <==> h.length == 0 && (ReferenceThrows(h) || stray.None?)
    ensures r.Err? ==> r.error == if ReferenceThrows(h) then IndexOutOfRange else AccessViolation
  {
    if h.length >= 1 then Ok(HashCode(h))
    else if ReferenceThrows(h) then Err(IndexOutOfRange)
    else if stray.None? then Err(AccessViolation)
    else Ok(stray.value as int)
  }

  /** The handle Add(string) makes for the empty string throws, whatever lies around it. */
  lemma EmptyStringHandleThrows(stray: Option<byte>)
    ensures TryHashCode(FromString("").handle, stray) == Err(IndexOutOfRange)
  {
  }

  /** w ^ b for a 32-bit word w and a byte b: only the low byte of w changes. */
  function XorLowByte(w: uint32, b: byte): (x: uint32)
  {
    var high := w / 256;
    assert high < 0x100_0000;
    high * 256 + Xor8((w % 256) as byte, b) as int
  }

  /** The low 32 bits of n: unchecked int multiplication keeps only these. */
  function Wrap32(n: int): (w: uint32)
  {
    n % 0x1_0000_0000
  }

  /** The hash's bit pattern is the wrapped product with its low byte xor-ed with the last byte. */
  lemma HashCodeBits(h: BlobHandle)
    requires Valid(h) && h.length >= 1
    ensures UInt32Of(HashCode(h)) / 256 == Wrap32(h.length * 397) / 256
    ensures UInt32Of(HashCode(h)) % 256 == Xor8((Wrap32(h.length * 397) % 256) as byte, Bytes(h)[h.length - 1]) as int
  {
    var w := XorLowByte(Wrap32(h.length * 397), Bytes(h)[h.length - 1]);
    Int32Bijection(w, HashCode(h));
  }

  /** Equal handles hash equally, so the hash can key a dictionary compared by SameBlob. */
  lemma HashConsistentWithEquality(a: BlobHandle, b: BlobHandle)
    requires Valid(a) && Valid(b) && a.length >= 1
    requires SameBlob(a, b)
    ensures HashCode(a) == HashCode(b)
  {
  }

  /** A pointer-backed and an array-backed handle over the same bytes are equal and hash equally. */
  lemma PointerAndArrayHandlesAgree(memory: seq<byte>, bytes: seq<byte>, length: int, offset: int)
    requires 1 <= length <= |memory|
    requires 0 <= offset && offset + length <= |bytes|
    requires memory[..length] == bytes[offset..offset + length]
    ensures SameBlob(FromPointer(memory, length), FromSlice(bytes, length, offset))
    ensures HashCode(FromPointer(memory, length)) == HashCode(FromSlice(bytes, length, offset))
  {
  }

  // ---------------------------------------------------------------------------
  // BlobString
  // ---------------------------------------------------------------------------

  /** A string stored as the ASCII bytes of a handle (BlobString.Encoding is ASCII). */
  datatype BlobString = BlobString(handle: BlobHandle)

  /** new BlobString(string source): a handle over Encoding.ASCII.GetBytes(source). */
  function FromString(source: string): (s: BlobString)
    ensures Valid(s.handle) && Bytes(s.handle) == AsciiEncode(source)
    ensures Length(s) == |source|
  {
    BlobString(FromArray(AsciiEncode(source)))
  }

  /** new BlobString(byte* sourcePtr, int length). */
  function FromBytes(memory: seq<byte>, length: int): (s: BlobString)
    requires 0 <= length <= |memory|
    ensures Valid(s.handle) && Bytes(s.handle) == memory[..length] && Length(s) == length
  {
    BlobString(FromPointer(memory, length))
  }

  /** Length => Handle.Length: the number of bytes the string's handle covers. */
  function Length(s: BlobString): (n: int)
    ensures Valid(s.handle) ==> n == |Bytes(s.handle)|
  {
    s.handle.length
  }

  /** ToString(): the handle's bytes decoded as ASCII, once the handle's reference is taken. */
  function ToString(s: BlobString): (text: Result<string>)
    requires Valid(s.handle)
    ensures text.Err? <==> ReferenceThrows(s.handle)
    ensures text.Err? ==> text.error == IndexOutOfRange
    ensures text.Ok? ==> |text.value| == Length(s)
  {
    if ReferenceThrows(s.handle) then Err(IndexOutOfRange) else Ok(AsciiDecode(Bytes(s.handle)))
  }

  /** GetHashCode() => Handle.GetHashCode(). */
  function StringHashCode(s: BlobString): (hash: int32)
    requires Valid(s.handle) && Length(s) >= 1
    ensures hash == HashCode(s.handle)
  {
    HashCode(s.handle)
  }

  /** Equals(BlobString other) and operator ==: the handles' equality. */
  method StringEquals(l: BlobString, r: BlobString) returns (eq: Result<bool>)
    requires Length(l) == Length(r) ==> Valid(l.handle) && Valid(r.handle)
    ensures eq.Err? <==> Length(l) == Length(r) && (ReferenceThrows(l.handle) || ReferenceThrows(r.handle))
    ensures eq.Err? ==> eq.error == IndexOutOfRange
    ensures eq.Ok? ==> (eq.value <==> Length(l) == Length(r) && Bytes(l.handle) == Bytes(r.handle))
  {
    eq := Equals(l.handle, r.handle);
  }

  /** operator !=: the handles' inequality. */
  method StringNotEquals(l: BlobString, r: BlobString) returns (ne: Result<bool>)
    requires Length(l) == Length(r) ==> Valid(l.handle) && Valid(r.handle)
    ensures ne.Err? <==> Length(l) == Length(r) && (ReferenceThrows(l.handle) || ReferenceThrows(r.handle))
    ensures ne.Err? ==> ne.error == IndexOutOfRange
    ensures ne.Ok? ==> (ne.value <==> !(Length(l) == Length(r) && Bytes(l.handle) == Bytes(r.handle)))
  {
    ne := NotEqualOperator(l.handle, r.handle);
  }

  /**
   * A non-empty ASCII string survives the trip into a BlobString and back.
   * BlobString("") is a handle over an empty array, whose reference throws.
   */
  lemma StringRoundTrip(source: string)
    requires IsAscii(source)
    ensures ToString(FromString(source)) == if source == [] then Err(IndexOutOfRange) else Ok(source)
    ensures Length(FromString(source)) == |source|
  {
    AsciiRoundTrip(source, []);
  }

  /** Two ASCII strings give equal BlobStrings exactly when they are the same string. */
  lemma FromStringInjectiveOnAscii(s: string, t: string)
    requires IsAscii(s) && IsAscii(t)
    ensures Bytes(FromString(s).handle) == Bytes(FromString(t).handle) <==> s == t
  {
    if Bytes(FromString(s).handle) == Bytes(FromString(t).handle) {
      StringRoundTrip(s);
      StringRoundTrip(t);
    }
  }
}
