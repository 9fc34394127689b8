/**
 * BlobStringDictionary<T>: values looked up by the bytes of a string, so that
 * an address received as bytes can be matched without decoding it.
 *
 * Dictionary<BlobHandle, T> finds an entry when the hash it recorded for the
 * entry's key equals the probe's hash and the keys are Equal. A non-empty
 * handle's hash is a function of its bytes, so there the bytes decide. An
 * empty handle's hash is whatever stray byte its hash read, so empty keys
 * recorded with different stray bytes are different entries. `HandleToValue`
 * is therefore modelled as a map from Entry, which is one or the other.
 */
module BlobDictionaries {
  import opened Wire
  import opened Results
  import Blobs

  /** The byte content of a BlobHandle key. */
  type Key = seq<byte>

  /** The key a BlobString is stored under. */
  function KeyOf(s: Blobs.BlobString): (k: Key)
    requires Blobs.Valid(s.handle)
    ensures |k| == Blobs.Length(s)
  {
    Blobs.Bytes(s.handle)
  }

  /**
   * An entry of HandleToValue as Dictionary tells them apart: a non-empty
   * key by its bytes, an empty key by the hash recorded for it.
   */
  datatype Entry = Keyed(bytes: Key) | Stray(hash: int32)

  /**
   * Hashing a handle for a Dictionary operation: the entry it is compared as,
   * or the error its hash throws. `stray` is the memory the hash of an empty
   * pointer handle reads.
   */
  function Probe(h: Blobs.BlobHandle, stray: Option<byte>): (r: Result<Entry>)
    requires Blobs.Valid(h)
    ensures r.Err? <==> Blobs.TryHashCode(h, stray).Err?
    ensures r.Err? ==> r.error == Blobs.TryHashCode(h, stray).error
  {
    if h.length >= 1 then Ok(Keyed(Blobs.Bytes(h)))
    else match Blobs.TryHashCode(h, stray)
      case Err(e) => Err(e)
      case Ok(hash) => Ok(Stray(hash))
  }

  /**
   * Two hashed handles give the same entry exactly when Dictionary matches
   * them: equal hashes and Equal keys. For non-empty handles that is equal
   * bytes; for empty ones, equal stray bytes.
   */
  lemma ProbesMatchAsDictionary(a: Blobs.BlobHandle, sa: Option<byte>, b: Blobs.BlobHandle, sb: Option<byte>)
    requires Blobs.Valid(a) && Blobs.Valid(b)
    requires Probe(a, sa).Ok? && Probe(b, sb).Ok?
    ensures Probe(a, sa) == Probe(b, sb) <==>
      Blobs.TryHashCode(a, sa) == Blobs.TryHashCode(b, sb) && Blobs.SameBlob(a, b)
    ensures a.length >= 1 ==> (Probe(a, sa) == Probe(b, sb) <==> Blobs.SameBlob(a, b))
    ensures a.length == 0 ==> (Probe(a, sa) == Probe(b, sb) <==> b.length == 0 && sa == sb)
  {
  }

  class BlobStringDictionary<T> {
    /** HandleToValue: the values, by entry. */
    var handleToValue: map<Entry, T>
    /** _sourceToBlob: the BlobString made for each string added through Add(string). */
    var sourceToBlob: map<string, Blobs.BlobString>
    /**
     * Whether HandleToValue has allocated its buckets: from a positive initial
     * capacity, or from the first Add. Until then Dictionary's Remove and
     * TryGetValue return false without hashing the key.
     */
    var bucketsAllocated: bool

    /**
     * Every recorded string is non-empty and its BlobString is the one made
     * from it; without buckets, nothing has been added.
     */
    ghost predicate Valid()
      reads this
    {
      (forall s :: s in sourceToBlob ==> s != [] && sourceToBlob[s] == Blobs.FromString(s)) &&
      (!bucketsAllocated ==> handleToValue == map[] && sourceToBlob == map[])
    }

    /**
     * The side table is in step with the value map: every recorded string's
     * entry is present, and no two recorded strings share their bytes.
     */
    ghost predicate Synced()
      reads this
    {
      Valid() &&
      (forall s :: s in sourceToBlob ==> Keyed(AsciiEncode(s)) in handleToValue) &&
      (forall s, t :: s in sourceToBlob && t in sourceToBlob && s != t ==> AsciiEncode(s) != AsciiEncode(t))
    }

    /**
     * Both dictionaries start empty; the buckets exist from the start for a
     * positive capacity. A negative capacity is refused by Create.
     */
    constructor(initialCapacity: nat)
      ensures Synced()
      ensures handleToValue == map[] && sourceToBlob == map[]
      ensures bucketsAllocated <==> initialCapacity > 0
    {
      handleToValue := map[];
      sourceToBlob := map[];
      bucketsAllocated := initialCapacity > 0;
    }

    /**
     * new BlobStringDictionary(initialCapacity): Dictionary's constructor
     * throws ArgumentOutOfRange, an Argument error, for a negative capacity.
     */
    static method Create(initialCapacity: int32) returns (r: Result<BlobStringDictionary<T>>)
      ensures r.Err? <==> initialCapacity < 0
      ensures r.Err? ==> r.error == Argument
      ensures r.Ok? ==>
        fresh(r.value) && r.value.Synced() &&
        r.value.handleToValue == map[] && r.value.sourceToBlob == map[] &&
        (r.value.bucketsAllocated <==> initialCapacity > 0)
    {
      if initialCapacity < 0 {
        return Err(Argument);
      }
      var d := new BlobStringDictionary<T>(initialCapacity);
      return Ok(d);
    }

    /**
     * Add(string, value): nothing for a null or already-recorded string.
     * Otherwise Dictionary.Add allocates its buckets and hashes the string's
     * handle: for "" that throws IndexOutOfRange, and the string is not
     * recorded. An entry already present throws Argument, and the side table
     * is left as it was. Otherwise the entry maps to the value and the string
     * is recorded.
     */
    method Add(str: Option<string>, value: T) returns (outcome: Outcome)
      requires Valid()
      modifies this
      ensures Valid()
      ensures str.None? || str.value in old(sourceToBlob) ==>
        outcome == Done && handleToValue == old(handleToValue) && sourceToBlob == old(sourceToBlob) &&
        bucketsAllocated == old(bucketsAllocated)
      ensures str.Some? && str.value !in old(sourceToBlob) ==> bucketsAllocated
      ensures str.Some? && str.value == [] && str.value !in old(sourceToBlob) ==>
        outcome == Threw(IndexOutOfRange) && handleToValue == old(handleToValue) && sourceToBlob == old(sourceToBlob)
      ensures str.Some? && str.value != [] && str.value !in old(sourceToBlob) && Keyed(AsciiEncode(str.value)) in old(handleToValue) ==>
        outcome == Threw(Argument) && handleToValue == old(handleToValue) && sourceToBlob == old(sourceToBlob)
      ensures str.Some? && str.value != [] && str.value !in old(sourceToBlob) && Keyed(AsciiEncode(str.value)) !in old(handleToValue) ==>
        outcome == Done &&
        handleToValue == old(handleToValue)[Keyed(AsciiEncode(str.value)) := value] &&
        sourceToBlob == old(sourceToBlob)[str.value := Blobs.FromString(str.value)]
      ensures old(Synced()) ==> Synced()
    {
      if str.None? || str.value in sourceToBlob {
        return Done;
      }
      var blobStr := Blobs.FromString(str.value);
      bucketsAllocated := true;
      // the handle is array-backed, so no stray memory is read
      var entry := Probe(blobStr.handle, None);
      if entry.Err? {
        return Threw(entry.error);
      }
      if entry.value in handleToValue {
        return Threw(Argument);
      }
      handleToValue := handleToValue[entry.value := value];
      sourceToBlob := sourceToBlob[str.value := blobStr];
      return Done;
    }

    /**
     * Add(BlobString, value): only the value map changes. The buckets are
     * allocated, then the key is hashed, which for an empty key may throw
     * (`stray` is the memory an empty pointer handle's hash reads); an entry
     * already present throws Argument.
     */
    method AddBlob(blobStr: Blobs.BlobString, value: T, stray: Option<byte>) returns (outcome: Outcome)
      requires Valid() && Blobs.Valid(blobStr.handle)
      modifies this
      ensures Valid() && sourceToBlob == old(sourceToBlob) && bucketsAllocated
      ensures Probe(blobStr.handle, stray).Err? ==>
        outcome == Threw(Probe(blobStr.handle, stray).error) && handleToValue == old(handleToValue)
      ensures Probe(blobStr.handle, stray).Ok? && Probe(blobStr.handle, stray).value in old(handleToValue) ==>
        outcome == Threw(Argument) && handleToValue == old(handleToValue)
      ensures Probe(blobStr.handle, stray).Ok? && Probe(blobStr.handle, stray).value !in old(handleToValue) ==>
        outcome == Done && handleToValue == old(handleToValue)[Probe(blobStr.handle, stray).value := value]
      ensures old(Synced()) ==> Synced()
    {
      bucketsAllocated := true;
      var entry := Probe(blobStr.handle, stray);
      if entry.Err? {
        return Threw(entry.error);
      }
      if entry.value in handleToValue {
        return Threw(Argument);
      }
      handleToValue := handleToValue[entry.value := value];
      return Done;
    }

    /**
     * Remove(string): false and no change for an unrecorded string (a null one
     * throws); otherwise the string leaves the side table, its entry leaves
     * the value map, and the result says whether it was present.
     */
    method Remove(str: Option<string>) returns (r: Result<bool>)
      requires Valid()
      modifies this
      ensures Valid() && bucketsAllocated == old(bucketsAllocated)
      ensures str.None? ==> r == Err(ArgumentNull)
      ensures str.None? || str.value !in old(sourceToBlob) ==>
        handleToValue == old(handleToValue) && sourceToBlob == old(sourceToBlob)
      ensures str.Some? && str.value !in old(sourceToBlob) ==> r == Ok(false)
      ensures str.Some? && str.value in old(sourceToBlob) ==>
        r == Ok(Keyed(AsciiEncode(str.value)) in old(handleToValue)) &&
        sourceToBlob == old(sourceToBlob) - {str.value} &&
        handleToValue == old(handleToValue) - {Keyed(AsciiEncode(str.value))}
      ensures old(Synced()) ==> Synced()
      ensures old(Synced()) && str.Some? && str.value in old(sourceToBlob) ==> r == Ok(true)
    {
      if str.None? {
        return Err(ArgumentNull);
      }
      if str.value !in sourceToBlob {
        return Ok(false);
      }
      var blobStr := sourceToBlob[str.value];
      sourceToBlob := sourceToBlob - {str.value};
      // a recorded string is non-empty, so its hash reads its own last byte
      var entry := Probe(blobStr.handle, None);
      var removed := entry.value in handleToValue;
      handleToValue := handleToValue - {entry.value};
      return Ok(removed);
    }

    /**
     * Remove(BlobString): false without buckets; otherwise the key is hashed,
     * which for an empty key may throw, and then only the value map changes
     * and the result says whether the entry was present.
     */
    method RemoveBlob(blobStr: Blobs.BlobString, stray: Option<byte>) returns (r: Result<bool>)
      requires Valid() && Blobs.Valid(blobStr.handle)
      modifies this
      ensures Valid() && sourceToBlob == old(sourceToBlob) && bucketsAllocated == old(bucketsAllocated)
      ensures !bucketsAllocated ==> r == Ok(false) && handleToValue == old(handleToValue)
      ensures bucketsAllocated && Probe(blobStr.handle, stray).Err? ==>
        r == Err(Probe(blobStr.handle, stray).error) && handleToValue == old(handleToValue)
      ensures bucketsAllocated && Probe(blobStr.handle, stray).Ok? ==>
        r == Ok(Probe(blobStr.handle, stray).value in old(handleToValue)) &&
        handleToValue == old(handleToValue) - {Probe(blobStr.handle, stray).value}
    {
      if !bucketsAllocated {
        return Ok(false);
      }
      var entry := Probe(blobStr.handle, stray);
      if entry.Err? {
        return Err(entry.error);
      }
      var removed := entry.value in handleToValue;
      handleToValue := handleToValue - {entry.value};
      return Ok(removed);
    }

    /**
     * TryGetValueFromBytes(ptr, byteCount): the value stored under the entry
     * the byteCount bytes at ptr hash to, if any. The pointer handle is
     * hashed only once the buckets exist; for byteCount 0 that hash reads the
     * stray byte 0xFFFFFFFF past ptr, and faults when `stray` is None.
     */
    function TryGetValueFromBytes(ptr: seq<byte>, byteCount: int, stray: Option<byte>): (r: Result<Option<T>>)
      reads this
      requires Valid() && 0 <= byteCount <= |ptr|
      ensures !bucketsAllocated ==> r == Ok(None)
      ensures r.Err? <==> bucketsAllocated && byteCount == 0 && stray.None?
      ensures r.Err? ==> r.error == AccessViolation
      ensures r.Ok? && byteCount >= 1 ==>
        var e := Keyed(ptr[..byteCount]);
        (r.value.Some? <==> e in handleToValue) && (r.value.Some? ==> r.value.value == handleToValue[e])
      ensures r.Ok? && byteCount == 0 && bucketsAllocated ==>
        var e := Stray(stray.value as int);
        (r.value.Some? <==> e in handleToValue) && (r.value.Some? ==> r.value.value == handleToValue[e])
    {
      if !bucketsAllocated then Ok(None)
      else match Probe(Blobs.FromPointer(ptr, byteCount), stray)
        case Err(e) => Err(e)
        case Ok(e) => Ok(if e in handleToValue then Some(handleToValue[e]) else None)
    }

    /** Clear: both dictionaries become empty; the buckets stay allocated. */
    method Clear()
      modifies this
      ensures Synced() && bucketsAllocated == old(bucketsAllocated)
      ensures handleToValue == map[] && sourceToBlob == map[]
    {
      handleToValue := map[];
      sourceToBlob := map[];
    }
  }

  /**
   * While the dictionary is in step, a string added through Add(string) is
   * found from the bytes of the string, wherever they sit in memory, and the
   * probe with the bytes of one recorded string never finds another's entry.
   * A recorded string is never empty, so the lookup never hashes stray
   * memory.
   */
  lemma LookupFindsRecordedString<T>(d: BlobStringDictionary<T>, s: string, t: string, ptr: seq<byte>, stray: Option<byte>)
    requires d.Synced() && s in d.sourceToBlob
    requires |s| <= |ptr| && ptr[..|s|] == AsciiEncode(s)
    ensures d.TryGetValueFromBytes(ptr, |s|, stray) == Ok(Some(d.handleToValue[Keyed(AsciiEncode(s))]))
    ensures Probe(Blobs.FromPointer(ptr, |s|), stray) == Probe(Blobs.FromString(s).handle, None)
    ensures t in d.sourceToBlob && t != s ==> Keyed(AsciiEncode(t)) != Probe(Blobs.FromPointer(ptr, |s|), stray).value
  {
  }
}
