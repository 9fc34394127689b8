/**
 * Utils: scrubbing an address before it is registered, and the one-line text
 * a monitor callback receives for a message.
 *
 * The source keeps two static scratch buffers, a character list and a string
 * builder, which every call clears and refills; they are the fields of the
 * Statics class below. Which characters may appear in an address is decided
 * by OscParser.CharacterIsValidInAddress, which is not part of this model: it
 * is the `valid` parameter, so every property holds whatever that test is.
 */
module Utils {
  import opened Wire
  import opened Results
  import Blobs
  import TypeTags
  import MessageValues

  type TypeTag = TypeTags.TypeTag

  // ---------------------------------------------------------------------------
  // Keeping the valid characters
  // ---------------------------------------------------------------------------

  /** `s.Where(valid)`: the characters of s that pass the test, in their order. */
  function Filter(s: string, valid: char -> bool): (r: string)
    ensures |r| <= |s|
    ensures forall k :: 0 <= k < |r| ==> valid(r[k])
  {
    if s == [] then []
    else Filter(s[..|s| - 1], valid) + (if valid(s[|s| - 1]) then [s[|s| - 1]] else [])
  }

  /** Filtering a concatenation filters each part: the kept characters keep their order. */
  lemma {:induction false} FilterAppend(s: string, t: string, valid: char -> bool)
    ensures Filter(s + t, valid) == Filter(s, valid) + Filter(t, valid)
    decreases |t|
  {
    if t == [] {
      assert s + t == s;
    } else {
      var u := t[..|t| - 1];
      assert (s + t)[..|s + t| - 1] == s + u;
      assert (s + t)[|s + t| - 1] == t[|t| - 1];
      FilterAppend(s, u, valid);
    }
  }

  /** Every valid character is kept as often as it occurs, and no other character is kept. */
  lemma {:induction false} FilterCounts(s: string, valid: char -> bool)
    ensures forall c :: multiset(Filter(s, valid))[c] == if valid(c) then multiset(s)[c] else 0
  {
    if s != [] {
      var p := s[..|s| - 1];
      FilterCounts(p, valid);
      assert s == p + [s[|s| - 1]];
    }
  }

  /** A string whose characters are all valid is left as it is. */
  lemma {:induction false} FilterKeepsValidText(s: string, valid: char -> bool)
    requires forall k :: 0 <= k < |s| ==> valid(s[k])
    ensures Filter(s, valid) == s
  {
    if s != [] {
      FilterKeepsValidText(s[..|s| - 1], valid);
    }
  }

  /** Filtering twice is filtering once. */
  lemma FilterIdempotent(s: string, valid: char -> bool)
    ensures Filter(Filter(s, valid), valid) == Filter(s, valid)
  {
    FilterKeepsValidText(Filter(s, valid), valid);
  }

  // ---------------------------------------------------------------------------
  // Trailing spaces
  // ---------------------------------------------------------------------------

  /** `s.TrimEnd(' ')`: the longest prefix of s that does not end with a space. */
  function TrimEndSpaces(s: string): (t: string)
    ensures |t| <= |s| && t == s[..|t|]
    ensures t == [] || t[|t| - 1] != ' '
    ensures forall k :: |t| <= k < |s| ==> s[k] == ' '
  {
    if s == [] || s[|s| - 1] != ' ' then s else TrimEndSpaces(s[..|s| - 1])
  }

  /** Trimming a string that does not end with a space changes nothing. */
  lemma TrimEndKeepsUnspaced(s: string)
    requires s != [] && s[|s| - 1] != ' '
    ensures TrimEndSpaces(s) == s
  {
  }

  // ---------------------------------------------------------------------------
  // ValidateAddress
  // ---------------------------------------------------------------------------

  /**
   * The address ValidateAddress leaves behind: an empty address becomes "/",
   * a '/' is put in front when the address does not start with one, trailing
   * spaces are trimmed, and then only the valid characters are kept.
   */
  function Validated(address: string, valid: char -> bool): (v: string)
  {
    var rooted := if address == [] then "/" else address;
    var slashed := if rooted[0] != '/' then "/" + rooted else rooted;
    Filter(TrimEndSpaces(slashed), valid)
  }

  /** The validated address holds valid characters only, and starts with '/' whenever '/' is valid. */
  lemma ValidatedShape(address: string, valid: char -> bool)
    ensures forall k :: 0 <= k < |Validated(address, valid)| ==> valid(Validated(address, valid)[k])
    ensures valid('/') ==> |Validated(address, valid)| >= 1 && Validated(address, valid)[0] == '/'
  {
    var rooted := if address == [] then "/" else address;
    var slashed := if rooted[0] != '/' then "/" + rooted else rooted;
    var trimmed := TrimEndSpaces(slashed);
    assert trimmed != [];
    assert trimmed == [trimmed[0]] + trimmed[1..];
    FilterAppend([trimmed[0]], trimmed[1..], valid);
    assert Filter([trimmed[0]], valid) == Filter([], valid) + (if valid(trimmed[0]) then [trimmed[0]] else []);
  }

  /**
   * An address that is already well formed (it starts with '/', does not end
   * with a space and holds only valid characters) is left unchanged, so
   * validating a validated address that does not end with a space changes
   * nothing.
   */
  lemma ValidatedKeepsWellFormed(address: string, valid: char -> bool)
    requires address != [] && address[0] == '/' && address[|address| - 1] != ' '
    requires forall k :: 0 <= k < |address| ==> valid(address[k])
    ensures Validated(address, valid) == address
  {
    TrimEndKeepsUnspaced(address);
    FilterKeepsValidText(address, valid);
  }

  /** The trailing spaces are trimmed before filtering, so a space that an invalid character hid survives. */
  lemma ValidatedCanEndWithSpace()
    ensures Validated("/a #", c => c != '#') == "/a "
  {
    var s := "/a #";
    var valid := (c: char) => c != '#';
    assert TrimEndSpaces(s) == s;
    var s3, s2, s1 := s[..3], s[..3][..2], s[..3][..2][..1];
    assert s1[..0] == [] && s1 == "/" && s2 == "/a" && s3 == "/a ";
    assert Filter(s1, valid) == "/";
    assert Filter(s2, valid) == "/a";
    assert Filter(s3, valid) == "/a ";
  }

  // ---------------------------------------------------------------------------
  // MonitorMessageToString
  // ---------------------------------------------------------------------------

  /** `(char)type` for each tag, in element order. */
  function TagChars(tags: seq<TypeTag>): (cs: string)
    ensures |cs| == |tags|
    ensures forall k :: 0 <= k < |tags| ==> cs[k] as int == tags[k] as int
  {
    seq(|tags|, k requires 0 <= k < |tags| => ByteToChar(tags[k]))
  }

  /** The element texts with one space between neighbours and none after the last. */
  function JoinSpaced(texts: seq<string>): (s: string)
  {
    if texts == [] then []
    else if |texts| == 1 then texts[0]
    else JoinSpaced(texts[..|texts| - 1]) + " " + texts[|texts| - 1]
  }

  /** The line a monitor callback gets: the address, "  ,", the tag letters, "  ", then the element texts. */
  function MonitorText(address: string, tags: seq<TypeTag>, texts: seq<string>): (s: string)
  {
    address + "  ," + TagChars(tags) + "  " + JoinSpaced(texts)
  }

  /** Splitting on single spaces: the inverse of JoinSpaced for texts without spaces. */
  function SplitSpaces(s: string): (parts: seq<string>)
    ensures |parts| >= 1
  {
    if s == [] then [[]]
    else
      var init := SplitSpaces(s[..|s| - 1]);
      if s[|s| - 1] == ' ' then init + [[]]
      else init[..|init| - 1] + [init[|init| - 1] + [s[|s| - 1]]]
  }

  predicate NoSpace(t: string) {
    forall k :: 0 <= k < |t| ==> t[k] != ' '
  }

  /** Appending space-free text to a string extends its last split part. */
  lemma {:induction false} SplitAppendWord(s: string, t: string)
    requires NoSpace(t)
    ensures var p := SplitSpaces(s);
      SplitSpaces(s + t) == p[..|p| - 1] + [p[|p| - 1] + t]
    decreases |t|
  {
    var p := SplitSpaces(s);
    if t != [] {
      var u, c := t[..|t| - 1], t[|t| - 1];
      assert (s + t)[..|s + t| - 1] == s + u;
      assert (s + t)[|s + t| - 1] == c != ' ';
      SplitAppendWord(s, u);
      var init := SplitSpaces(s + u);
      assert init[..|init| - 1] == p[..|p| - 1];
      assert init[|init| - 1] + [c] == p[|p| - 1] + t;
    } else {
      assert s + t == s;
      assert p[|p| - 1] + t == p[|p| - 1];
      assert p[..|p| - 1] + [p[|p| - 1]] == p;
    }
  }

  /** A space ends the last part and opens an empty one. */
  lemma SplitAfterSpace(s: string)
    ensures SplitSpaces(s + " ") == SplitSpaces(s) + [[]]
  {
    assert (s + " ")[..|s|] == s;
  }

  /** The element texts can be read back from the joined text when none of them holds a space. */
  lemma {:induction false} SplitJoin(texts: seq<string>)
    requires texts != [] && forall i :: 0 <= i < |texts| ==> NoSpace(texts[i])
    ensures SplitSpaces(JoinSpaced(texts)) == texts
  {
    if |texts| == 1 {
      SplitAppendWord([], texts[0]);
      assert [] + texts[0] == texts[0];
    } else {
      var init, last := texts[..|texts| - 1], texts[|texts| - 1];
      var joined := JoinSpaced(init);
      var parts := SplitSpaces(joined + " ");
      calc {
        SplitSpaces(JoinSpaced(texts));
        { assert texts == init + [last]; JoinSpacedSnoc(init, last); }
        SplitSpaces(joined + " " + last);
        { SplitAppendWord(joined + " ", last); }
        parts[..|parts| - 1] + [parts[|parts| - 1] + last];
        { SplitJoin(init); SplitAfterSpace(joined); assert parts[..|parts| - 1] == init; }
        init + [[] + last];
        { assert [] + last == last; }
        texts;
      }
    }
  }

  /** The monitor line starts with the address and the divider, and the tag letters follow in element order. */
  lemma MonitorTextLayout(address: string, tags: seq<TypeTag>, texts: seq<string>)
    ensures var s := MonitorText(address, tags, texts);
      |s| >= |address| + 5 + |tags| &&
      s[..|address|] == address && s[|address|..|address| + 3] == "  ," &&
      (forall k :: 0 <= k < |tags| ==> s[|address| + 3 + k] as int == tags[k] as int) &&
      s[|address| + 3 + |tags|..|address| + 5 + |tags|] == "  " &&
      s[|address| + 5 + |tags|..] == JoinSpaced(texts)
  {
    var s := MonitorText(address, tags, texts);
    var n := |address|;
    assert s == address + "  ," + TagChars(tags) + "  " + JoinSpaced(texts);
    forall k | 0 <= k < |tags|
      ensures s[n + 3 + k] as int == tags[k] as int
    {
      assert s[n + 3 + k] == TagChars(tags)[k];
    }
  }

  // ---------------------------------------------------------------------------
  // The static scratch buffers and the methods that use them
  // ---------------------------------------------------------------------------

  /** Utils' static state: the `_tempChars` list and the `_builder` StringBuilder. */
  class Statics {
    var tempChars: seq<char>
    var builder: string

    constructor()
      ensures tempChars == [] && builder == []
    {
      tempChars := [];
      builder := [];
    }

    /** ReplaceInvalidAddressCharacters: refill the list with the valid characters and return them as a string. */
    method ReplaceInvalidAddressCharacters(address: string, valid: char -> bool) returns (r: string)
      modifies this
      ensures r == Filter(address, valid) && tempChars == r && builder == old(builder)
    {
      tempChars := [];
      var i := 0;
      while i < |address|
        invariant 0 <= i <= |address| && tempChars == Filter(address[..i], valid)
        invariant builder == old(builder)
      {
        assert address[..i + 1][..i] == address[..i];
        if valid(address[i]) {
          tempChars := tempChars + [address[i]];
        }
        i := i + 1;
      }
      assert address[..|address|] == address;
      r := tempChars;
    }

    /** ValidateAddress(ref address): the scrubbed address (the new value of the ref parameter); the result is always true. */
    method ValidateAddress(address: string, valid: char -> bool) returns (ok: bool, validated: string)
      modifies this
      ensures ok && validated == Validated(address, valid)
      ensures tempChars == validated && builder == old(builder)
    {
      var a := address;
      if a == [] {
        a := "/";
      }
      if a[0] != '/' {
        a := "/" + a;
      }
      if a[|a| - 1] == ' ' {
        a := TrimEndSpaces(a);
      } else {
        TrimEndKeepsUnspaced(a);
      }
      validated := ReplaceInvalidAddressCharacters(a, valid);
      return true, validated;
    }

    /**
     * MonitorMessageToString: the address, "  ,", each element's tag letter,
     * "  ", then each element's ReadStringElement text separated by single
     * spaces. The first element whose text cannot be read makes the call
     * throw that element's error. `texts` are the element texts read. The
     * builder is cleared first, so an address whose ToString throws leaves it
     * empty.
     */
    method MonitorMessageToString(address: Blobs.BlobString, values: MessageValues.OscMessageValues,
                                  conv: MessageValues.HostConversions)
      returns (r: Result<string>, ghost texts: seq<string>)
      requires Blobs.Valid(address.handle)
      requires 0 <= values.elementCount <= values.tags.Length
      requires forall i :: 0 <= i < values.elementCount ==> values.Indexable(i) && values.FixedSlotFits(i)
      modifies this
      ensures tempChars == old(tempChars)
      ensures Blobs.ToString(address).Err? ==> r == Err(IndexOutOfRange) && builder == [] && texts == []
      ensures Blobs.ToString(address).Ok? && r.Ok? ==>
        |texts| == values.elementCount && AllReadAsText(values, conv, texts) &&
        r.value == builder == MonitorText(Blobs.ToString(address).value, values.tags[..values.elementCount], texts)
      ensures Blobs.ToString(address).Ok? && r.Err? ==>
        |texts| < values.elementCount && AllReadAsText(values, conv, texts) &&
        values.ReadsAsText(|texts|, conv, r)
    {
      builder := [];
      var text := Blobs.ToString(address);
      if text.Err? {
        return text, [];
      }
      r, texts := AppendMessage(text.value, values, conv);
    }

    /** MonitorMessageToString once the address text is in hand: the builder holds only what follows Clear. */
    method AppendMessage(address: string, values: MessageValues.OscMessageValues, conv: MessageValues.HostConversions)
      returns (r: Result<string>, ghost texts: seq<string>)
      requires builder == []
      requires 0 <= values.elementCount <= values.tags.Length
      requires forall i :: 0 <= i < values.elementCount ==> values.Indexable(i) && values.FixedSlotFits(i)
      modifies this
      ensures tempChars == old(tempChars)
      ensures r.Ok? ==>
        |texts| == values.elementCount && AllReadAsText(values, conv, texts) &&
        r.value == builder == MonitorText(address, values.tags[..values.elementCount], texts)
      ensures r.Err? ==>
        |texts| < values.elementCount && AllReadAsText(values, conv, texts) &&
        values.ReadsAsText(|texts|, conv, r)
    {
      ghost var tags := values.tags[..values.elementCount];
      builder := builder + address + "  ,";
      var visits := values.ForEachElement();
      AppendTagChars(visits, tags);
      builder := builder + "  ";
      ghost var head := builder;
      assert head == address + "  ," + TagChars(tags) + "  ";
      r, texts := AppendElementTexts(visits, values, conv);
      assert r.Ok? ==> builder == head + JoinSpaced(texts);
    }

    /** The first ForEachElement pass: append each element's tag as a character. */
    method AppendTagChars(visits: seq<(int, TypeTag)>, ghost tags: seq<TypeTag>)
      requires |visits| == |tags| && forall i :: 0 <= i < |visits| ==> visits[i].1 == tags[i]
      modifies this
      ensures builder == old(builder) + TagChars(tags) && tempChars == old(tempChars)
    {
      ghost var before := builder;
      var k := 0;
      while k < |visits|
        invariant 0 <= k <= |visits| && tempChars == old(tempChars)
        invariant builder == before + TagChars(tags[..k])
      {
        assert TagChars(tags[..k + 1]) == TagChars(tags[..k]) + [ByteToChar(visits[k].1)];
        builder := builder + [ByteToChar(visits[k].1)];
        k := k + 1;
      }
      assert tags[..k] == tags;
    }

    /**
     * The second ForEachElement pass: append each element's text, and a space
     * after every element but the last; the first element that cannot be read
     * as text ends the pass with its error.
     */
    method AppendElementTexts(visits: seq<(int, TypeTag)>, values: MessageValues.OscMessageValues,
                              conv: MessageValues.HostConversions)
      returns (r: Result<string>, ghost texts: seq<string>)
      requires |visits| == values.elementCount <= values.tags.Length
      requires forall i :: 0 <= i < |visits| ==> visits[i].0 == i
      requires forall i :: 0 <= i < |visits| ==> values.Indexable(i) && values.FixedSlotFits(i)
      modifies this
      ensures tempChars == old(tempChars) && |texts| <= |visits| && AllReadAsText(values, conv, texts)
      ensures r.Ok? ==> |texts| == |visits| && r.value == builder == old(builder) + JoinSpaced(texts)
      ensures r.Err? ==> |texts| < |visits| && values.ReadsAsText(|texts|, conv, r)
    {
      ghost var head := builder;
      var lastIndex := values.elementCount - 1;
      texts := [];
      var k := 0;
      while k < |visits|
        invariant 0 <= k <= |visits| && |texts| == k && tempChars == old(tempChars)
        invariant AllReadAsText(values, conv, texts)
        invariant builder == Pending(head, texts, |visits|)
      {
        var i := visits[k].0;
        var elementText := values.ReadStringElement(i, conv);
        if elementText.Err? {
          return elementText, texts;
        }
        ReadAsTextSnoc(values, conv, texts, elementText.value);
        ghost var pending := builder;
        builder := builder + elementText.value;
        if i != lastIndex {
          builder := builder + " ";
        }
        PendingStep(head, texts, elementText.value, |visits|);
        texts := texts + [elementText.value];
        k := k + 1;
      }
      r := Ok(builder);
    }
  }

  /** Every text read so far is what ReadStringElement gives for its element. */
  ghost predicate AllReadAsText(values: MessageValues.OscMessageValues, conv: MessageValues.HostConversions,
                                texts: seq<string>)
    reads values, values.tags, values.offsets, values.sharedBuffer
  {
    forall i :: 0 <= i < |texts| ==>
      values.Indexable(i) && values.FixedSlotFits(i) && values.ReadsAsText(i, conv, Ok(texts[i]))
  }

  lemma ReadAsTextSnoc(values: MessageValues.OscMessageValues, conv: MessageValues.HostConversions,
                       texts: seq<string>, t: string)
    requires AllReadAsText(values, conv, texts)
    requires values.Indexable(|texts|) && values.FixedSlotFits(|texts|) && values.ReadsAsText(|texts|, conv, Ok(t))
    ensures AllReadAsText(values, conv, texts + [t])
  {
    var all := texts + [t];
    assert forall i :: 0 <= i < |texts| ==> all[i] == texts[i];
  }

  /**
   * What the builder holds after the texts of the first |texts| of n
   * elements: the joined texts, and the space owed to the next element.
   */
  function Pending(head: string, texts: seq<string>, n: int): (s: string)
  {
    head + JoinSpaced(texts) + (if 0 < |texts| < n then " " else "")
  }

  lemma PendingStep(head: string, texts: seq<string>, t: string, n: int)
    requires |texts| < n
    ensures Pending(head, texts, n) + t + (if |texts| != n - 1 then " " else "") == Pending(head, texts + [t], n)
  {
    JoinSpacedSnoc(texts, t);
  }

  /** Appending one more text to the joined texts: a space first unless it is the first. */
  lemma JoinSpacedSnoc(texts: seq<string>, t: string)
    ensures JoinSpaced(texts + [t]) == JoinSpaced(texts) + (if texts == [] then [] else " ") + t
  {
    var all := texts + [t];
    assert all[..|all| - 1] == texts;
  }
}
