/**
 * Bytes, fixed-width integers, the two byte orders and the ASCII text encoding
 * that the OSC wire format is built from.
 *
 * A byte is an integer in 0..255; a multi-byte word is read as a natural number
 * (big-endian on the wire, little-endian in the memory of the host the library
 * targets), and the C# signed types are the usual two's-complement
 * reinterpretations of those naturals.
 */
module Wire {

  newtype byte = b: int | 0 <= b < 256

  type uint32 = n: int | 0 <= n < 0x1_0000_0000
  type int32 = n: int | -0x8000_0000 <= n < 0x8000_0000
  type uint64 = n: int | 0 <= n < 0x1_0000_0000_0000_0000
  type int64 = n: int | -0x8000_0000_0000_0000 <= n < 0x8000_0000_0000_0000

  /** 256 to the power k: the number of distinct k-byte strings. */
  function Pow256(k: nat): (p: nat)
    ensures p >= 1
  {
    if k == 0 then 1 else 256 * Pow256(k - 1)
  }

  // ---------------------------------------------------------------------------
  // Byte orders
  // ---------------------------------------------------------------------------

  /** The unsigned value of s read most-significant byte first (network order). */
  function BigEndian(s: seq<byte>): (n: nat)
    ensures n < Pow256(|s|)
  {
    if s == [] then 0 else BigEndian(s[..|s| - 1]) * 256 + s[|s| - 1] as int
  }

  /** The unsigned value of s read least-significant byte first (host order). */
  function LittleEndian(s: seq<byte>): (n: nat)
    ensures n < Pow256(|s|)
  {
    if s == [] then 0 else s[0] as int + 256 * LittleEndian(s[1..])
  }

  /** The `width` low-order bytes of n, most-significant first. */
  function BigEndianBytes(n: nat, width: nat): (s: seq<byte>)
    ensures |s| == width
  {
    if width == 0 then [] else BigEndianBytes(n / 256, width - 1) + [(n % 256) as byte]
  }

  /** The `width` low-order bytes of n, least-significant first: how the host stores n. */
  function LittleEndianBytes(n: nat, width: nat): (s: seq<byte>)
    ensures |s| == width
  {
    if width == 0 then [] else [(n % 256) as byte] + LittleEndianBytes(n / 256, width - 1)
  }

  function Reverse<T>(s: seq<T>): (r: seq<T>)
    ensures |r| == |s|
    ensures forall i :: 0 <= i < |s| ==> r[i] == s[|s| - 1 - i]
  {
    if s == [] then [] else Reverse(s[1..]) + [s[0]]
  }

  /** Decoding the big-endian bytes of a value that fits gives the value back. */
  lemma {:induction false} BigEndianOfBytes(n: nat, width: nat)
    requires n < Pow256(width)
    ensures BigEndian(BigEndianBytes(n, width)) == n
  {
    if width > 0 {
      var s := BigEndianBytes(n, width);
      assert s[..width - 1] == BigEndianBytes(n / 256, width - 1);
      assert n / 256 < Pow256(width - 1);
      BigEndianOfBytes(n / 256, width - 1);
    }
  }

  /** Encoding the big-endian value of a byte string gives the byte string back. */
  lemma {:induction false} BytesOfBigEndian(s: seq<byte>)
    ensures BigEndianBytes(BigEndian(s), |s|) == s
  {
    if s != [] {
      var p := s[..|s| - 1];
      var n := BigEndian(s);
      assert n / 256 == BigEndian(p) && n % 256 == s[|s| - 1] as int;
      BytesOfBigEndian(p);
      assert s == p + [s[|s| - 1]];
    }
  }

  /** Storing n in host order and reversing the bytes gives network order. */
  lemma {:induction false} ReverseLittleEndianBytes(n: nat, width: nat)
    ensures Reverse(LittleEndianBytes(n, width)) == BigEndianBytes(n, width)
  {
    if width > 0 {
      var le := LittleEndianBytes(n, width);
      assert le[1..] == LittleEndianBytes(n / 256, width - 1);
      ReverseLittleEndianBytes(n / 256, width - 1);
    }
  }

  lemma {:induction false} LittleEndianAppend(s: seq<byte>, b: byte)
    ensures LittleEndian(s + [b]) == LittleEndian(s) + Pow256(|s|) * b as int
  {
    if s != [] {
      var t := s[1..];
      assert (s + [b])[1..] == t + [b];
      LittleEndianAppend(t, b);
      var p := Pow256(|t|);
      calc {
        LittleEndian(s + [b]);
        s[0] as int + 256 * LittleEndian(t + [b]);
        s[0] as int + 256 * (LittleEndian(t) + p * b as int);
        { Spread256(LittleEndian(t), p, b as int); }
        LittleEndian(s) + (256 * p) * b as int;
      }
    }
  }

  lemma {:induction false} BigEndianPrepend(b: byte, s: seq<byte>)
    ensures BigEndian([b] + s) == b as int * Pow256(|s|) + BigEndian(s)
  {
    if s != [] {
      var p, last := s[..|s| - 1], s[|s| - 1] as int;
      assert ([b] + s)[..|s|] == [b] + p;
      BigEndianPrepend(b, p);
      var q := Pow256(|p|);
      calc {
        BigEndian([b] + s);
        BigEndian([b] + p) * 256 + last;
        (b as int * q + BigEndian(p)) * 256 + last;
        { Distribute256(b as int * q, BigEndian(p)); }
        b as int * q * 256 + (BigEndian(p) * 256 + last);
        { Shift256(b as int, q); }
        b as int * Pow256(|s|) + BigEndian(s);
      }
    }
  }

  lemma Distribute256(x: int, y: int)
    ensures (x + y) * 256 == x * 256 + y * 256
  {
  }

  lemma Spread256(x: int, p: int, y: int)
    ensures 256 * (x + p * y) == 256 * x + (256 * p) * y
  {
  }

  lemma Shift256(x: int, q: int)
    ensures x * q * 256 == x * (256 * q)
  {
  }

  /** Reading the reversed bytes in host order is reading the bytes in network order. */
  lemma {:induction false} LittleEndianOfReverse(s: seq<byte>)
    ensures LittleEndian(Reverse(s)) == BigEndian(s)
  {
    if s != [] {
      LittleEndianOfReverse(s[1..]);
      LittleEndianAppend(Reverse(s[1..]), s[0]);
      BigEndianPrepend(s[0], s[1..]);
      assert s == [s[0]] + s[1..];
    }
  }

  /** Storing n in host order and reading it back in host order gives n. */
  lemma LittleEndianOfBytes(n: nat, width: nat)
    requires n < Pow256(width)
    ensures LittleEndian(LittleEndianBytes(n, width)) == n
  {
    ReverseLittleEndianBytes(n, width);
    LittleEndianOfReverse(BigEndianBytes(n, width));
    ReverseReverse(LittleEndianBytes(n, width));
    BigEndianOfBytes(n, width);
  }

  lemma ReverseReverse<T>(s: seq<T>)
    ensures Reverse(Reverse(s)) == s
  {
  }

  /** A run taken out of a run of s is the matching run of s. */
  lemma SliceOfSlice<T>(s: seq<T>, lo: int, hi: int, i: int, j: int)
    requires 0 <= lo <= hi <= |s| && 0 <= i <= j <= hi - lo
    ensures s[lo..hi][i..j] == s[lo + i..lo + j]
  {
    var inner, direct := s[lo..hi][i..j], s[lo + i..lo + j];
    assert |inner| == |direct|;
    forall k | 0 <= k < |inner|
      ensures inner[k] == direct[k]
    {
      assert inner[k] == s[lo..hi][i + k] == s[lo + i + k];
    }
  }

  // ---------------------------------------------------------------------------
  // Two's complement
  // ---------------------------------------------------------------------------

  /** A 32-bit pattern read as a C# int. */
  function Int32Of(u: uint32): int32 {
    if u < 0x8000_0000 then u else u - 0x1_0000_0000
  }

  /** The 32-bit pattern of a C# int (an unchecked cast to uint). */
  function UInt32Of(v: int32): uint32 {
    if v < 0 then v + 0x1_0000_0000 else v
  }

  function Int64Of(u: uint64): int64 {
    if u < 0x8000_0000_0000_0000 then u else u - 0x1_0000_0000_0000_0000
  }

  function UInt64Of(v: int64): uint64 {
    if v < 0 then v + 0x1_0000_0000_0000_0000 else v
  }

  /** Unchecked C# int arithmetic: the exact result wrapped to 32 bits. */
  function WrapInt32(x: int): int32
  {
    Int32Of(x % 0x1_0000_0000)
  }

  /**
   * Wrapping leaves an int alone, takes a sum just past the top of the range
   * below zero, and a sum past 2^32 back to its excess.
   */
  lemma WrapInt32Range(x: int)
    ensures -0x8000_0000 <= x < 0x8000_0000 ==> WrapInt32(x) == x
    ensures 0x8000_0000 <= x < 0x1_0000_0000 ==> WrapInt32(x) == x - 0x1_0000_0000 < 0
    ensures 0x1_0000_0000 <= x < 0x1_8000_0000 ==> WrapInt32(x) == x - 0x1_0000_0000
  {
  }

  /** Int32Of and UInt32Of are inverse bijections, and they agree modulo 2^32. */
  lemma Int32Bijection(u: uint32, v: int32)
    ensures UInt32Of(Int32Of(u)) == u && Int32Of(UInt32Of(v)) == v
    ensures (Int32Of(u) - u) % 0x1_0000_0000 == 0
  {
  }

  lemma Int64Bijection(u: uint64, v: int64)
    ensures UInt64Of(Int64Of(u)) == u && Int64Of(UInt64Of(v)) == v
    ensures (Int64Of(u) - u) % 0x1_0000_0000_0000_0000 == 0
  {
  }

  // ---------------------------------------------------------------------------
  // Fixed-width fields in network order
  // ---------------------------------------------------------------------------

  function UInt32Bytes(u: uint32): (s: seq<byte>)
  {
    BigEndianBytes(u, 4)
  }

  function UInt32At(s: seq<byte>): (u: uint32)
    requires |s| == 4
  {
    BigEndian(s)
  }

  function Int32Bytes(v: int32): (s: seq<byte>)
  {
    BigEndianBytes(UInt32Of(v), 4)
  }

  function Int32At(s: seq<byte>): (v: int32)
    requires |s| == 4
  {
    Int32Of(BigEndian(s))
  }

  function UInt64Bytes(u: uint64): (s: seq<byte>)
  {
    BigEndianBytes(u, 8)
  }

  function UInt64At(s: seq<byte>): (u: uint64)
    requires |s| == 8
  {
    BigEndian(s)
  }

  function Int64Bytes(v: int64): (s: seq<byte>)
  {
    BigEndianBytes(UInt64Of(v), 8)
  }

  function Int64At(s: seq<byte>): (v: int64)
    requires |s| == 8
  {
    Int64Of(BigEndian(s))
  }

  /** A 32-bit field decodes to the value it encodes, and every 4-byte field encodes its own decoding. */
  lemma UInt32RoundTrip(u: uint32, s: seq<byte>)
    requires |s| == 4
    ensures |UInt32Bytes(u)| == 4 && UInt32At(UInt32Bytes(u)) == u
    ensures UInt32Bytes(UInt32At(s)) == s
  {
    BigEndianOfBytes(u, 4);
    BytesOfBigEndian(s);
  }

  lemma Int32RoundTrip(v: int32, s: seq<byte>)
    requires |s| == 4
    ensures |Int32Bytes(v)| == 4 && Int32At(Int32Bytes(v)) == v
    ensures Int32Bytes(Int32At(s)) == s
  {
    BigEndianOfBytes(UInt32Of(v), 4);
    BytesOfBigEndian(s);
    Int32Bijection(BigEndian(s), v);
  }

  lemma UInt64RoundTrip(u: uint64, s: seq<byte>)
    requires |s| == 8
    ensures |UInt64Bytes(u)| == 8 && UInt64At(UInt64Bytes(u)) == u
    ensures UInt64Bytes(UInt64At(s)) == s
  {
    BigEndianOfBytes(u, 8);
    BytesOfBigEndian(s);
  }

  lemma Int64RoundTrip(v: int64, s: seq<byte>)
    requires |s| == 8
    ensures |Int64Bytes(v)| == 8 && Int64At(Int64Bytes(v)) == v
    ensures Int64Bytes(Int64At(s)) == s
  {
    BigEndianOfBytes(UInt64Of(v), 8);
    BytesOfBigEndian(s);
    Int64Bijection(BigEndian(s), v);
  }

  // ---------------------------------------------------------------------------
  // 4-byte alignment
  // ---------------------------------------------------------------------------

  /** `(n + 3) & ~3` for a non-negative n: clearing the two low bits rounds n + 3 down to a multiple of 4. */
  function AlignUp4(n: nat): (m: nat)
    ensures m % 4 == 0 && n <= m < n + 4
  {
    (n + 3) - (n + 3) % 4
  }

  /**
   * The number of bytes an OSC-string of n characters occupies: the characters,
   * then NUL bytes up to the next multiple of 4, with a whole block of four NULs
   * when n is already a multiple of 4 (so there is always a terminator).
   */
  function PaddedStringLength(n: nat): (m: nat)
    ensures m % 4 == 0 && n + 1 <= m <= n + 4
  {
    if AlignUp4(n) == n then n + 4 else AlignUp4(n)
  }

  /** The padding after a blob of n bytes: zeros up to the next multiple of 4, none when aligned. */
  function BlobPadding(n: nat): (p: nat)
    ensures (n + p) % 4 == 0 && p < 4
    ensures n % 4 == 0 ==> p == 0
  {
    AlignUp4(n) - n
  }

  function Zeros(n: nat): (s: seq<byte>)
    ensures |s| == n && forall i :: 0 <= i < n ==> s[i] == 0
  {
    seq(n, _ => 0)
  }

  // ---------------------------------------------------------------------------
  // Characters and ASCII
  // ---------------------------------------------------------------------------

  /** `(byte)c` in C#: the low 8 bits of the character's code. */
  function CharToByte(c: char): (b: byte)
    ensures (c as int) < 256 ==> b as int == c as int
  {
    ((c as int) % 256) as byte
  }

  /** `(char)b` in C#: the character whose code is b. */
  function ByteToChar(b: byte): (c: char)
    ensures c as int == b as int
  {
    (b as int) as char
  }

  predicate IsAsciiChar(c: char) {
    (c as int) < 128
  }

  predicate IsAscii(s: string) {
    forall i :: 0 <= i < |s| ==> IsAsciiChar(s[i])
  }

  /** Encoding.ASCII for one character: characters above 0x7F become '?'. */
  function AsciiEncodeChar(c: char): (b: byte)
    ensures b < 128
  {
    if IsAsciiChar(c) then (c as int) as byte else 63
  }

  /** Encoding.ASCII for one byte: bytes above 0x7F become '?'. */
  function AsciiDecodeByte(b: byte): (c: char)
    ensures IsAsciiChar(c)
  {
    if b < 128 then (b as int) as char else '?'
  }

  function AsciiEncode(s: string): (bs: seq<byte>)
    ensures |bs| == |s|
  {
    seq(|s|, i requires 0 <= i < |s| => AsciiEncodeChar(s[i]))
  }

  function AsciiDecode(bs: seq<byte>): (s: string)
    ensures |s| == |bs|
  {
    seq(|bs|, i requires 0 <= i < |bs| => AsciiDecodeByte(bs[i]))
  }

  /** ASCII text survives encoding and decoding; bytes below 0x80 survive decoding and encoding. */
  lemma AsciiRoundTrip(s: string, bs: seq<byte>)
    ensures IsAscii(s) ==> AsciiDecode(AsciiEncode(s)) == s
    ensures (forall i :: 0 <= i < |bs| ==> bs[i] < 128) ==> AsciiEncode(AsciiDecode(bs)) == bs
  {
  }

  /** The bytes `Buffer[k] = (byte)chr` stores for each character of s. */
  function CharBytes(s: string): (bs: seq<byte>)
    ensures |bs| == |s|
  {
    seq(|s|, i requires 0 <= i < |s| => CharToByte(s[i]))
  }

  /** For ASCII text, the truncating `(byte)` cast and the ASCII encoder agree. */
  lemma CharBytesOfAscii(s: string)
    requires IsAscii(s)
    ensures CharBytes(s) == AsciiEncode(s)
  {
  }

  // ---------------------------------------------------------------------------
  // Payload shapes whose content the model does not interpret
  // ---------------------------------------------------------------------------

  /** A C# float, kept as its IEEE-754 bit pattern; no floating-point arithmetic is modelled. */
  datatype Single = Single(bits: uint32)

  /** A C# double, kept as its IEEE-754 bit pattern. */
  datatype Double = Double(bits: uint64)

  /** A MIDI message: a 4-byte struct whose fields are not part of this model. */
  type MidiMessage = s: seq<byte> | |s| == 4 witness [0, 0, 0, 0]

  /** How the host stores a float in memory (little-endian). */
  function SingleHostBytes(f: Single): (s: seq<byte>)
  {
    LittleEndianBytes(f.bits, 4)
  }

  function DoubleHostBytes(d: Double): (s: seq<byte>)
  {
    LittleEndianBytes(d.bits, 8)
  }
}
