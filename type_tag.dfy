/**
 * The OSC type tags: one byte per message element, the ASCII letter of its type.
 * 'i', 'f', 's' and 'b' are the four types of OSC 1.0; the others are the
 * optional types the same specification lists as non-standard.
 */
module TypeTags {
  import opened Wire

  /** A tag is any byte: unknown tags are kept as they arrive and rejected only when read. */
  type TypeTag = byte

  const False: TypeTag := 'F' as int as byte
  const Infinitum: TypeTag := 'I' as int as byte
  const Nil: TypeTag := 'N' as int as byte
  const AltTypeString: TypeTag := 'S' as int as byte
  const True: TypeTag := 'T' as int as byte
  const ArrayStart: TypeTag := '[' as int as byte
  const ArrayEnd: TypeTag := ']' as int as byte
  const Blob: TypeTag := 'b' as int as byte
  const AsciiChar32: TypeTag := 'c' as int as byte
  const Float64: TypeTag := 'd' as int as byte
  const Float32: TypeTag := 'f' as int as byte
  const Int64: TypeTag := 'h' as int as byte
  const Int32: TypeTag := 'i' as int as byte
  const MIDI: TypeTag := 'm' as int as byte
  const Color32: TypeTag := 'r' as int as byte
  const String: TypeTag := 's' as int as byte
  const TimeTag: TypeTag := 't' as int as byte

  /** The members of the TypeTag enumeration, in declaration order. */
  const DeclaredList: seq<TypeTag> :=
    [False, Infinitum, Nil, AltTypeString, True, ArrayStart, ArrayEnd, Blob, AsciiChar32,
     Float64, Float32, Int64, Int32, MIDI, Color32, String, TimeTag]

  const Declared: set<TypeTag> := set t | t in DeclaredList

  /** The switch in TypeTagMethods.IsSupported: true exactly for the declared tags. */
  predicate IsSupported(tag: TypeTag)
    ensures IsSupported(tag) <==> tag in Declared
  {
    tag == False || tag == Infinitum || tag == Nil || tag == AltTypeString || tag == True ||
    tag == Blob || tag == AsciiChar32 || tag == Float64 || tag == Float32 || tag == Int64 ||
    tag == Int32 || tag == MIDI || tag == Color32 || tag == String || tag == TimeTag ||
    tag == ArrayStart || tag == ArrayEnd
  }

  /** The seventeen enumeration values are distinct bytes, all of them ASCII letters or brackets. */
  lemma DeclaredTagsDistinct()
    ensures |DeclaredList| == 17
    ensures forall i, j :: 0 <= i < j < |DeclaredList| ==> DeclaredList[i] != DeclaredList[j]
    ensures forall t :: t in Declared ==> 'A' as int <= t as int <= 'z' as int
  {
  }
}
