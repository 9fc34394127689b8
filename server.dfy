/**
 * OscServer: how one received datagram is taken apart and dispatched (a
 * single message, or an OSC bundle walked element by element), the queue of
 * main-thread callbacks drained by Update, the start flags, and the static
 * table from port number to server.
 *
 * User callbacks are opaque; running one is recorded in a ghost log of
 * invocations, in the order the server runs them.
 */
module Server {
  import opened Wire
  import opened Results
  import opened ActionPairs
  import opened AddressSpaces
  import Writer

  /**
   * A callback the server runs: a value-read delegate handed the message
   * whose content starts at contentIndex, or a queued main-thread delegate.
   */
  datatype Invocation = ReadValues(callbacks: Delegate, contentIndex: int) | RunQueued(callbacks: Delegate)

  /**
   * What the server sees of its OscParser, which is not part of this model:
   * the receive buffer, the result of Parse() on the whole datagram, of
   * Parse(i) on the message at index i, and IsBundleTagAtIndex(i). A parse
   * result is the length of the message's address, or a non-positive number
   * when the bytes are not a message.
   */
  datatype ParserView = ParserView(
    buffer: seq<byte>,
    parseDatagram: int,
    parseAt: int -> int,
    isBundleTagAt: int -> bool)

  /** The parser reports only addresses that lie inside its buffer. */
  ghost predicate AddressesInBuffer(view: ParserView)
  {
    view.parseDatagram <= |view.buffer| &&
    forall i :: 0 <= i && view.parseAt(i) > 0 ==> i + view.parseAt(i) <= |view.buffer|
  }

  /** The first eight bytes are Constant.BundlePrefixLong, "#bundle ". */
  predicate IsBundle(buffer: seq<byte>)
    requires 8 <= |buffer|
  {
    buffer[..8] == Writer.BundlePrefix
  }

  // ---------------------------------------------------------------------------
  // The bundle walk
  // ---------------------------------------------------------------------------

  /** A message found in the datagram: its content starts at contentIndex and its address is addressLength bytes long. */
  datatype Element = Element(contentIndex: nat, addressLength: nat)

  /** The address bytes of an element lie inside the buffer. */
  predicate InBuffer(buffer: seq<byte>, e: Element)
  {
    e.contentIndex + e.addressLength <= |buffer|
  }

  /** The elements a walk dispatched, in order, and whether it ended in an exception. */
  datatype Walked = Walked(elements: seq<Element>, crashed: bool)

  predicate Ascending(es: seq<Element>)
  {
    forall i, j :: 0 <= i < j < |es| ==> es[i].contentIndex < es[j].contentIndex
  }

  /**
   * The offset of the next bundle element, reading the size field as the
   * unsigned number the OSC 1.0 specification makes it (corrected; see
   * NextOffsetAsWritten).
   */
  function NextOffset(offset: int, size: uint32): (next: int)
    ensures next >= offset + 4
  {
    offset + size + 4
  }

  /**
   * `MessageOffset += messageSize + 4` as written: the size is cast to int,
   * so a size of 0x80000000 or more counts as negative, and the sum wraps.
   */
  function NextOffsetAsWritten(offset: int32, size: uint32): int32
  {
    WrapInt32(offset + Int32Of(size) + 4)
  }

  /**
   * The element loop of ParseBuffer from the element at offset. A size field
   * that does not fit in the buffer is the IndexOutOfRangeException of
   * ReadUIntIndex, which ends the walk. A nested "#bundle " continues the scan
   * after its 16-byte header; an element whose address does not parse is
   * skipped; any other element is dispatched and the scan moves on by
   * its size plus four.
   *
   * Corrected (Finding 3): the step is the unsigned NextOffset, not the
   * `(int)` cast and 32-bit `+=` of the source.
   */
  function Walk(view: ParserView, byteLength: nat, offset: nat): (w: Walked)
    requires AddressesInBuffer(view)
    ensures forall e :: e in w.elements ==> InBuffer(view.buffer, e)
    decreases byteLength - offset
  {
    if offset >= byteLength then Walked([], false)
    else if offset + 4 > |view.buffer| then Walked([], true)
    else
      var size := UInt32At(view.buffer[offset..offset + 4]);
      var contentIndex := offset + 4;
      if view.isBundleTagAt(contentIndex) then Walk(view, byteLength, contentIndex + 16)
      else
        var rest := Walk(view, byteLength, NextOffset(offset, size));
        var len := view.parseAt(contentIndex);
        if len <= 0 then rest
        else Walked([Element(contentIndex, len)] + rest.elements, rest.crashed)
  }

  /**
   * Every element a walk dispatches lies after the offset it started from,
   * has a non-empty address, and comes after the elements before it; and a
   * walk whose byteLength leaves room for a size field never fails. This is
   * the corrected walk (Finding 3); as written, a size word of 0xFFFFFFFC
   * stalls the offset (NextOffsetAsWrittenStalls).
   */
  lemma {:induction false} WalkShape(view: ParserView, byteLength: nat, offset: nat)
    requires AddressesInBuffer(view)
    ensures var w := Walk(view, byteLength, offset);
      (forall e :: e in w.elements ==> offset + 4 <= e.contentIndex && 0 < e.addressLength) &&
      Ascending(w.elements) &&
      (byteLength + 3 <= |view.buffer| ==> !w.crashed)
    decreases byteLength - offset
  {
    if offset < byteLength && offset + 4 <= |view.buffer| {
      var size := UInt32At(view.buffer[offset..offset + 4]);
      var contentIndex := offset + 4;
      if view.isBundleTagAt(contentIndex) {
        WalkShape(view, byteLength, contentIndex + 16);
      } else {
        WalkShape(view, byteLength, NextOffset(offset, size));
      }
    }
  }

  /** The elements walked so far followed by a walk from a later point. */
  function Then(done: seq<Element>, w: Walked): Walked
  {
    Walked(done + w.elements, w.crashed)
  }

  lemma ThenThen(done: seq<Element>, more: seq<Element>, w: Walked)
    ensures Then(done, Then(more, w)) == Then(done + more, w)
  {
    assert done + (more + w.elements) == (done + more) + w.elements;
  }

  // ---------------------------------------------------------------------------
  // Dispatch
  // ---------------------------------------------------------------------------

  /**
   * The state a datagram can change: the exact-address table of the address
   * space, the main-thread queue, the callbacks run so far, the
   * byte-length-to-string cache and the shared list of pattern-matched pairs.
   */
  datatype Sink = Sink(
    table: MethodTable,
    queue: seq<Delegate>,
    invoked: seq<Invocation>,
    strings: map<int, string>,
    matched: seq<ActionPair>)

  /** The pattern slots of the address space, which dispatch reads and never changes. */
  datatype Slots = Slots(patterns: seq<Option<string>>, methods: seq<Option<ActionPair>>, index: map<string, int>, count: int)

  predicate Scannable(slots: Slots)
  {
    |slots.patterns| == |slots.methods|
  }

  /** HandleCallbacks: run the value-read delegate, then queue the main-thread delegate when there is one. */
  function Handle(s: Sink, pair: ActionPair, contentIndex: int): Sink
  {
    s.(invoked := s.invoked + [ReadValues(pair.valueRead, contentIndex)],
       queue := if pair.mainThreadQueued == [] then s.queue else s.queue + [pair.mainThreadQueued])
  }

  /** Handle each pair of a list in turn. */
  function HandleAll(s: Sink, pairs: seq<ActionPair>, contentIndex: int): Sink
  {
    if pairs == [] then s
    else Handle(HandleAll(s, pairs[..|pairs| - 1], contentIndex), pairs[|pairs| - 1], contentIndex)
  }

  /** `(char)b` for every byte: what OverwriteAsciiString stores into a cached string. */
  function WidenBytes(bs: seq<byte>): (s: string)
    ensures |s| == |bs|
  {
    seq(|bs|, i requires 0 <= i < |bs| => ByteToChar(bs[i]))
  }

  /**
   * TryMatchPatterns on the address bytes `probe`: the cached string of that
   * length is overwritten in place (or a new one decoded and cached), the
   * pattern slots are matched against it, and on a match the shared list is
   * added to the table and each of its pairs handled.
   *
   * Corrected (Finding 5): the slots tried are the live ones of the whole
   * array, not the slots below the pattern count.
   */
  function MatchPatterns(s: Sink, probe: seq<byte>, contentIndex: int, slots: Slots, m: Matcher): Sink
    requires Scannable(slots)
  {
    var str := if |probe| in s.strings then WidenBytes(probe) else AsciiDecode(probe);
    var s1 := s.(strings := s.strings[|probe| := str]);
    if !m.addressIsValid(str) then s1
    else
      var s2 := s1.(table := AddLiveMatches(s1.table, str, slots.patterns, slots.methods, slots.index, |slots.patterns|, m.isMatch),
                    matched := []);
      if LiveMatch(str, slots.patterns, slots.methods, slots.index, |slots.patterns|, m.isMatch) then
        HandleAll(s2.(table := MethodsAddAll(s2.table, str, s2.matched)), s2.matched, contentIndex)
      else s2
  }

  /** The address bytes of an element: the key looked up in the table and, corrected, the string matched against the patterns. */
  function AddressBytes(buffer: seq<byte>, e: Element): seq<byte>
    requires InBuffer(buffer, e)
  {
    buffer[e.contentIndex..e.contentIndex + e.addressLength]
  }

  /**
   * The string a bundle element is matched against as written: the pointer
   * passed is the start of the datagram, not the element's content.
   */
  function BundleProbeAsWritten(buffer: seq<byte>, e: Element): seq<byte>
    requires e.addressLength <= |buffer|
  {
    buffer[..e.addressLength]
  }

  /**
   * One message of the datagram: an exact-address hit runs its handlers;
   * otherwise, when some pattern is registered, the patterns are tried.
   *
   * Corrected (Findings 4 and 5): the patterns are matched against the
   * element's own address bytes, and by the corrected scan.
   */
  function DispatchOne(s: Sink, buffer: seq<byte>, e: Element, slots: Slots, m: Matcher): Sink
    requires InBuffer(buffer, e) && Scannable(slots)
  {
    var key := AddressBytes(buffer, e);
    if key in s.table then Handle(s, s.table[key], e.contentIndex)
    else if slots.count > 0 then MatchPatterns(s, key, e.contentIndex, slots, m)
    else s
  }

  /** Dispatch each element in turn. */
  function DispatchAll(s: Sink, buffer: seq<byte>, es: seq<Element>, slots: Slots, m: Matcher): Sink
    requires forall e :: e in es ==> InBuffer(buffer, e)
    requires Scannable(slots)
  {
    if es == [] then s
    else DispatchOne(DispatchAll(s, buffer, es[..|es| - 1], slots, m), buffer, es[|es| - 1], slots, m)
  }

  /** `Update`'s runs of the queued delegates, in queue order. */
  function Ran(queue: seq<Delegate>): (r: seq<Invocation>)
    ensures |r| == |queue|
    ensures forall i :: 0 <= i < |queue| ==> r[i] == RunQueued(queue[i])
  {
    if queue == [] then [] else [RunQueued(queue[0])] + Ran(queue[1..])
  }

  // ---------------------------------------------------------------------------
  // Properties of dispatch
  // ---------------------------------------------------------------------------

  /** Dispatch only ever appends to the log and the queue, and never forgets an address of the table. */
  lemma {:induction false} DispatchAllOnlyAppends(s: Sink, buffer: seq<byte>, es: seq<Element>, slots: Slots, m: Matcher)
    requires forall e :: e in es ==> InBuffer(buffer, e)
    requires Scannable(slots)
    ensures var t := DispatchAll(s, buffer, es, slots, m);
      |s.invoked| <= |t.invoked| && t.invoked[..|s.invoked|] == s.invoked &&
      |s.queue| <= |t.queue| && t.queue[..|s.queue|] == s.queue &&
      s.table.Keys <= t.table.Keys
  {
    if es != [] {
      var before := DispatchAll(s, buffer, es[..|es| - 1], slots, m);
      DispatchAllOnlyAppends(s, buffer, es[..|es| - 1], slots, m);
      DispatchOneOnlyAppends(before, buffer, es[|es| - 1], slots, m);
    }
  }

  lemma DispatchOneOnlyAppends(s: Sink, buffer: seq<byte>, e: Element, slots: Slots, m: Matcher)
    requires InBuffer(buffer, e) && Scannable(slots)
    ensures var t := DispatchOne(s, buffer, e, slots, m);
      |s.invoked| <= |t.invoked| && t.invoked[..|s.invoked|] == s.invoked &&
      |s.queue| <= |t.queue| && t.queue[..|s.queue|] == s.queue &&
      s.table.Keys <= t.table.Keys
  {
    var key := AddressBytes(buffer, e);
    if key !in s.table && slots.count > 0 {
      var str := if |key| in s.strings then WidenBytes(key) else AsciiDecode(key);
      if m.addressIsValid(str) {
        AddLiveMatchesRegisters(s.table, str, slots.patterns, slots.methods, slots.index, |slots.patterns|, m.isMatch);
      }
    }
  }

  /**
   * An exact-address hit runs exactly that address's value-read delegate,
   * queues its main-thread delegate iff it has one, and leaves the table
   * and the pattern machinery alone.
   */
  lemma ExactHitHandlesOnce(s: Sink, buffer: seq<byte>, e: Element, slots: Slots, m: Matcher)
    requires InBuffer(buffer, e) && Scannable(slots)
    requires AddressBytes(buffer, e) in s.table
    ensures var t := DispatchOne(s, buffer, e, slots, m);
      var pair := s.table[AddressBytes(buffer, e)];
      t.invoked == s.invoked + [ReadValues(pair.valueRead, e.contentIndex)] &&
      (|t.queue| == |s.queue| + 1 <==> pair.mainThreadQueued != []) &&
      t.table == s.table && t.strings == s.strings && t.matched == s.matched
  {
  }

  /**
   * A miss never runs or queues a callback: the list of matched pairs that
   * would be run is cleared by TryMatchPatternHandler and never filled.
   */
  lemma PatternPathRunsNothing(s: Sink, buffer: seq<byte>, e: Element, slots: Slots, m: Matcher)
    requires InBuffer(buffer, e) && Scannable(slots)
    requires AddressBytes(buffer, e) !in s.table
    ensures var t := DispatchOne(s, buffer, e, slots, m);
      t.invoked == s.invoked && t.queue == s.queue
  {
  }

  /** With no pattern registered, a miss changes nothing at all. */
  lemma MissWithoutPatternsIsIgnored(s: Sink, buffer: seq<byte>, e: Element, slots: Slots, m: Matcher)
    requires InBuffer(buffer, e) && Scannable(slots)
    requires AddressBytes(buffer, e) !in s.table && slots.count == 0
    ensures DispatchOne(s, buffer, e, slots, m) == s
  {
  }

  /**
   * A pattern hit on an ASCII address that was not cached registers the
   * matching pairs under that very address, so the next message to it is an
   * exact-address hit.
   */
  lemma PatternHitRegistersAddress(s: Sink, buffer: seq<byte>, e: Element, slots: Slots, m: Matcher)
    requires InBuffer(buffer, e) && Scannable(slots)
    requires var key := AddressBytes(buffer, e);
      key !in s.table && slots.count > 0 && |key| !in s.strings &&
      (forall i :: 0 <= i < |key| ==> key[i] < 128) &&
      m.addressIsValid(AsciiDecode(key)) &&
      LiveMatch(AsciiDecode(key), slots.patterns, slots.methods, slots.index, |slots.patterns|, m.isMatch)
    ensures var t := DispatchOne(s, buffer, e, slots, m);
      AddressBytes(buffer, e) in t.table &&
      DispatchOne(t, buffer, e, slots, m).invoked ==
        t.invoked + [ReadValues(t.table[AddressBytes(buffer, e)].valueRead, e.contentIndex)]
  {
    var key := AddressBytes(buffer, e);
    var str := AsciiDecode(key);
    AsciiRoundTrip(str, key);
    AddLiveMatchesRegisters(s.table, str, slots.patterns, slots.methods, slots.index, |slots.patterns|, m.isMatch);
  }

  /**
   * As written, a bundle element is matched against the first bytes of the
   * datagram, which spell "#bundle " whatever the element's address is.
   */
  lemma BundleProbeAsWrittenReadsHeader(buffer: seq<byte>, e: Element)
    requires 8 <= |buffer| && IsBundle(buffer)
    requires 1 <= e.addressLength <= 8 && InBuffer(buffer, e)
    ensures BundleProbeAsWritten(buffer, e) == Writer.BundlePrefix[..e.addressLength]
    ensures AsciiDecode(BundleProbeAsWritten(buffer, e))[0] == '#'
  {
    assert BundleProbeAsWritten(buffer, e) == buffer[..8][..e.addressLength];
  }

  /**
   * Corrected, the pattern fallback works on the element's own address, for a
   * bundle element as for a lone message: on a miss of an ASCII address the
   * string cached for its length is that address, and the table gains exactly
   * the key it was searched for, exactly when the address is valid and some
   * registered pattern matches it.
   */
  lemma BundleProbeIsElementAddress(s: Sink, buffer: seq<byte>, e: Element, slots: Slots, m: Matcher)
    requires InBuffer(buffer, e) && Scannable(slots)
    requires var key := AddressBytes(buffer, e);
      key !in s.table && slots.count > 0 && (forall i :: 0 <= i < |key| ==> key[i] < 128)
    ensures var key := AddressBytes(buffer, e);
      var t := DispatchOne(s, buffer, e, slots, m);
      |key| in t.strings && t.strings[|key|] == AsciiDecode(key) &&
      t.table.Keys == s.table.Keys +
        (if m.addressIsValid(AsciiDecode(key)) &&
            LiveMatch(AsciiDecode(key), slots.patterns, slots.methods, slots.index, |slots.patterns|, m.isMatch)
         then {key} else {})
  {
    var key := AddressBytes(buffer, e);
    var str := AsciiDecode(key);
    assert WidenBytes(key) == str;
    AsciiRoundTrip(str, key);
    AddLiveMatchesRegisters(s.table, str, slots.patterns, slots.methods, slots.index, |slots.patterns|, m.isMatch);
  }

  /** As written, a size of 0xFFFFFFFC leaves the offset where it was: the element loop never ends. */
  lemma NextOffsetAsWrittenStalls()
    ensures NextOffsetAsWritten(16, 0xFFFF_FFFC) == 16
    ensures NextOffset(16, 0xFFFF_FFFC) == 0x1_0000_0010
  {
  }

  /**
   * The corrected offset is the one the source computes exactly when the
   * next offset fits an int: from offset 16, a size word of 0x7FFFFFF0
   * already wraps the source's offset negative.
   */
  lemma NextOffsetAgrees(offset: int32, size: uint32)
    requires 0 <= offset
    ensures NextOffsetAsWritten(offset, size) == NextOffset(offset, size) <==> offset + size + 4 < 0x8000_0000
    ensures NextOffsetAsWritten(16, 0x7FFF_FFF0) < 0 && NextOffset(16, 0x7FFF_FFF0) == 0x8000_0004
  {
    WrapInt32Range(offset + Int32Of(size) + 4);
  }

  // ---------------------------------------------------------------------------
  // A bundle as the OSC 1.0 specification lays it out
  // ---------------------------------------------------------------------------

  /** Bundle elements: each message preceded by its size as a big-endian int32. */
  function Frames(messages: seq<seq<byte>>): (bs: seq<byte>)
    requires forall k :: 0 <= k < |messages| ==> |messages[k]| < 0x1_0000_0000
  {
    if messages == [] then []
    else UInt32Bytes(|messages[0]|) + messages[0] + Frames(messages[1..])
  }

  /** The content index of each message of Frames(messages) placed at offset. */
  function ContentIndices(messages: seq<seq<byte>>, offset: nat): (cs: seq<nat>)
    ensures |cs| == |messages|
  {
    if messages == [] then []
    else [offset + 4] + ContentIndices(messages[1..], offset + 4 + |messages[0]|)
  }

  /**
   * Walking a bundle whose elements are the given messages, none of them a
   * nested bundle and each with an address that parses, dispatches exactly
   * those messages, in order, and does not fail.
   */
  lemma {:induction false} WalkFindsEveryFrame(view: ParserView, byteLength: nat, messages: seq<seq<byte>>, offset: nat)
    requires AddressesInBuffer(view)
    requires forall k :: 0 <= k < |messages| ==> |messages[k]| < 0x1_0000_0000
    requires offset + |Frames(messages)| <= |view.buffer|
    requires view.buffer[offset..offset + |Frames(messages)|] == Frames(messages)
    requires byteLength == offset + |Frames(messages)|
    requires forall c :: c in ContentIndices(messages, offset) ==> !view.isBundleTagAt(c) && view.parseAt(c) > 0
    ensures var w := Walk(view, byteLength, offset);
      !w.crashed && |w.elements| == |messages| &&
      forall k :: 0 <= k < |messages| ==>
        w.elements[k] == Element(ContentIndices(messages, offset)[k], view.parseAt(ContentIndices(messages, offset)[k]))
  {
    if messages != [] {
      var m0 := messages[0];
      var frames := Frames(messages);
      var tail := Frames(messages[1..]);
      assert frames == UInt32Bytes(|m0|) + m0 + tail;
      UInt32RoundTrip(|m0|, view.buffer[offset..offset + 4]);
      assert frames[..4] == UInt32Bytes(|m0|);
      assert view.buffer[offset..offset + 4] == view.buffer[offset..offset + |frames|][..4];
      assert UInt32At(view.buffer[offset..offset + 4]) == |m0|;
      var next := offset + 4 + |m0|;
      assert NextOffset(offset, |m0|) == next;
      assert frames[4 + |m0|..] == tail;
      assert view.buffer[next..next + |tail|] == view.buffer[offset..offset + |frames|][4 + |m0|..];
      var cs := ContentIndices(messages, offset);
      assert cs == [offset + 4] + ContentIndices(messages[1..], next);
      assert cs[0] == offset + 4;
      forall c | c in ContentIndices(messages[1..], next)
        ensures !view.isBundleTagAt(c) && view.parseAt(c) > 0
      {
        assert c in cs;
      }
      WalkFindsEveryFrame(view, byteLength, messages[1..], next);
    }
  }

  // ---------------------------------------------------------------------------
  // The server
  // ---------------------------------------------------------------------------

  class OscServer {
    /** The port the socket listens on. */
    const port: int
    const addressSpace: OscAddressSpace
    /** The OscParser services address matching calls on. */
    const matcher: Matcher

    var started: bool
    var disposed: bool
    var running: bool
    var mainThreadQueue: seq<Delegate>
    var byteLengthToStringBuffer: map<int, string>
    var patternMatchedMethods: seq<ActionPair>
    /** Every callback the server has run, oldest first. */
    ghost var invoked: seq<Invocation>

    ghost function State(): Sink
      reads this, addressSpace
    {
      Sink(addressSpace.addressToMethod, mainThreadQueue, invoked, byteLengthToStringBuffer, patternMatchedMethods)
    }

    ghost function CurrentSlots(): Slots
      reads addressSpace, addressSpace.patterns, addressSpace.patternMethods
    {
      Slots(addressSpace.patterns[..], addressSpace.patternMethods[..], addressSpace.patternStringToIndex,
            addressSpace.patternCount)
    }

    /** The start and dispose flags are as they were. */
    twostate predicate FlagsUnchanged()
      reads this
    {
      started == old(started) && disposed == old(disposed) && running == old(running)
    }

    /**
     * A server on a port: a fresh address space, nothing queued, and the
     * socket started (Start).
     */
    constructor(port: int, matcher: Matcher)
      ensures this.port == port && this.matcher == matcher
      ensures fresh(addressSpace) && addressSpace.Valid()
      ensures addressSpace.addressToMethod == map[] && addressSpace.patternCount == 0
      ensures started && running && !disposed
      ensures mainThreadQueue == [] && invoked == [] && byteLengthToStringBuffer == map[] && patternMatchedMethods == []
    {
      this.port := port;
      this.matcher := matcher;
      addressSpace := new OscAddressSpace(OscAddressSpace.DefaultPatternCapacity);
      started := false;
      disposed := false;
      running := false;
      mainThreadQueue := [];
      byteLengthToStringBuffer := map[];
      patternMatchedMethods := [];
      invoked := [];
      new;
      Start();
    }

    /**
     * Start: the first call starts the socket and clears the disposed flag;
     * a later call only sets Running again.
     */
    method Start()
      modifies this
      ensures started && running
      ensures disposed == (old(started) && old(disposed))
      ensures mainThreadQueue == old(mainThreadQueue) && invoked == old(invoked)
      ensures byteLengthToStringBuffer == old(byteLengthToStringBuffer)
      ensures patternMatchedMethods == old(patternMatchedMethods)
    {
      if started {
        running := true;
        return;
      }
      disposed := false;
      started := true;
      running := true;
    }

    /** Update: run the queued main-thread delegates, oldest first, until the queue is empty. */
    method Update()
      modifies this
      ensures mainThreadQueue == []
      ensures invoked == old(invoked) + Ran(old(mainThreadQueue))
      ensures FlagsUnchanged()
      ensures byteLengthToStringBuffer == old(byteLengthToStringBuffer)
      ensures patternMatchedMethods == old(patternMatchedMethods)
    {
      ghost var queued := mainThreadQueue;
      ghost var k := 0;
      while |mainThreadQueue| > 0
        invariant 0 <= k <= |queued| && mainThreadQueue == queued[k..]
        invariant invoked == old(invoked) + Ran(queued[..k])
        invariant FlagsUnchanged()
        invariant byteLengthToStringBuffer == old(byteLengthToStringBuffer)
        invariant patternMatchedMethods == old(patternMatchedMethods)
        decreases |mainThreadQueue|
      {
        var action := mainThreadQueue[0];
        mainThreadQueue := mainThreadQueue[1..];
        invoked := invoked + [RunQueued(action)];
        k := k + 1;
        assert queued[..k] == queued[..k - 1] + [action];
        RanSnoc(queued[..k - 1], action);
      }
      assert queued[..k] == queued;
    }

    /** HandleCallbacks: run ValueRead on the message, then queue MainThreadQueued if it is not null. */
    method HandleCallbacks(pair: ActionPair, contentIndex: int)
      modifies this
      ensures State() == Handle(old(State()), pair, contentIndex)
      ensures FlagsUnchanged()
    {
      invoked := invoked + [ReadValues(pair.valueRead, contentIndex)];
      if pair.mainThreadQueued != [] {
        mainThreadQueue := mainThreadQueue + [pair.mainThreadQueued];
      }
    }

    /** TryMatchPatterns on the address bytes of the element at contentIndex, through the corrected scan (Finding 5). */
    method TryMatchPatterns(probe: seq<byte>, contentIndex: int)
      requires addressSpace.Shaped()
      modifies this, addressSpace
      ensures addressSpace.Shaped() && addressSpace.PatternsUnchanged()
      ensures State() == MatchPatterns(old(State()), probe, contentIndex, CurrentSlots(), matcher)
      ensures FlagsUnchanged()
    {
      ghost var slots := CurrentSlots();
      var stringBuffer;
      if |probe| !in byteLengthToStringBuffer {
        stringBuffer := AsciiDecode(probe);
      } else {
        // OverwriteAsciiString: the cached string of this length now holds these bytes
        stringBuffer := WidenBytes(probe);
      }
      byteLengthToStringBuffer := byteLengthToStringBuffer[|probe| := stringBuffer];
      var any, matched := addressSpace.TryMatchPatternHandler(stringBuffer, patternMatchedMethods, matcher);
      patternMatchedMethods := matched;
      if any {
        addressSpace.AddMethods(stringBuffer, patternMatchedMethods);
        RunMatched(contentIndex);
      }
    }

    /** The `foreach` of TryMatchPatterns: handle each pair of the shared list of matched pairs. */
    method RunMatched(contentIndex: int)
      modifies this
      ensures State() == HandleAll(old(State()), old(patternMatchedMethods), contentIndex)
      ensures FlagsUnchanged()
    {
      ghost var s0 := State();
      var i := 0;
      while i < |patternMatchedMethods|
        invariant 0 <= i <= |patternMatchedMethods| && patternMatchedMethods == old(patternMatchedMethods)
        invariant State() == HandleAll(s0, patternMatchedMethods[..i], contentIndex)
        invariant FlagsUnchanged()
      {
        HandleCallbacks(patternMatchedMethods[i], contentIndex);
        assert patternMatchedMethods[..i + 1][..i] == patternMatchedMethods[..i];
        i := i + 1;
      }
      assert patternMatchedMethods[..i] == patternMatchedMethods;
    }

    /**
     * One message: an exact-address hit runs its handlers; a miss tries the
     * patterns when there are any. Corrected (Findings 4 and 5): the probe is
     * the element's own address bytes and the scan is the corrected one.
     */
    method DispatchElement(buffer: seq<byte>, e: Element)
      requires InBuffer(buffer, e)
      requires addressSpace.Shaped()
      modifies this, addressSpace
      ensures addressSpace.Shaped() && addressSpace.PatternsUnchanged()
      ensures State() == DispatchOne(old(State()), buffer, e, CurrentSlots(), matcher)
      ensures FlagsUnchanged()
    {
      ghost var s0, slots := State(), CurrentSlots();
      var key := buffer[e.contentIndex..e.contentIndex + e.addressLength];
      assert key == AddressBytes(buffer, e);
      if key in addressSpace.addressToMethod {
        HandleCallbacks(addressSpace.addressToMethod[key], e.contentIndex);
        assert State() == Handle(s0, s0.table[key], e.contentIndex);
      } else if addressSpace.patternCount > 0 {
        TryMatchPatterns(key, e.contentIndex);
        assert State() == MatchPatterns(s0, key, e.contentIndex, slots, matcher);
      }
      assert State() == DispatchOne(s0, buffer, e, slots, matcher);
    }

    /**
     * ParseBuffer: a datagram that is not a bundle is one message, dropped
     * when its address does not parse. A bundle is walked element by element
     * (Walk), every element found is dispatched in order, and the walk stops
     * at byteLength or at a size field outside the buffer (the exception,
     * reported as `crashed`, after the elements before it were dispatched).
     * Corrected (Findings 3, 4 and 5): the step, the probe and the scan are
     * the corrected ones.
     */
    method ParseBuffer(view: ParserView, byteLength: nat) returns (crashed: bool)
      requires 8 <= |view.buffer| && AddressesInBuffer(view)
      requires addressSpace.Valid()
      modifies this, addressSpace
      ensures addressSpace.Valid() && addressSpace.PatternsUnchanged()
      ensures FlagsUnchanged()
      ensures !IsBundle(view.buffer) ==>
        !crashed &&
        State() == (if view.parseDatagram < 0 then old(State())
                    else DispatchOne(old(State()), view.buffer, Element(0, view.parseDatagram), CurrentSlots(), matcher))
      ensures IsBundle(view.buffer) ==>
        var w := Walk(view, byteLength, 16);
        crashed == w.crashed && State() == DispatchAll(old(State()), view.buffer, w.elements, CurrentSlots(), matcher)
    {
      if view.buffer[..8] != Writer.BundlePrefix {
        var addressLength := view.parseDatagram;
        if addressLength >= 0 {
          DispatchElement(view.buffer, Element(0, addressLength));
        }
        crashed := false;
      } else {
        crashed := WalkBundle(view, byteLength);
      }
      addressSpace.ValidKept();
    }

    /**
     * One pass of the element loop at offset, whose size field is inside the
     * buffer: a nested "#bundle " sends the scan to its header, an element
     * whose address does not parse is skipped, and any other element is
     * dispatched; the offset then moves past the element. Corrected
     * (Findings 3 and 4): the step is NextOffset and the probe is the
     * element's own address.
     */
    method ScanElement(view: ParserView, byteLength: nat, offset: nat)
      returns (next: nat, recurse: bool, ghost found: seq<Element>)
      requires AddressesInBuffer(view)
      requires offset < byteLength && offset + 4 <= |view.buffer|
      requires addressSpace.Shaped()
      modifies this, addressSpace
      ensures addressSpace.Shaped() && addressSpace.PatternsUnchanged()
      ensures FlagsUnchanged()
      ensures next >= offset + 4 && (recurse ==> next == offset + 4)
      ensures Walk(view, byteLength, offset) == Then(found, Walk(view, byteLength, if recurse then next + 16 else next))
      ensures forall e :: e in found ==> InBuffer(view.buffer, e)
      ensures State() == DispatchAll(old(State()), view.buffer, found, CurrentSlots(), matcher)
    {
      var messageSize := UInt32At(view.buffer[offset..offset + 4]);
      var contentIndex := offset + 4;
      if view.isBundleTagAt(contentIndex) {
        return contentIndex, true, [];
      }
      var bundleAddressLength := view.parseAt(contentIndex);
      found := [];
      if bundleAddressLength > 0 {
        var e := Element(contentIndex, bundleAddressLength);
        ghost var s0 := State();
        DispatchElement(view.buffer, e);
        found := [e];
        assert DispatchAll(s0, view.buffer, found, CurrentSlots(), matcher) ==
          DispatchOne(DispatchAll(s0, view.buffer, [], CurrentSlots(), matcher), view.buffer, e, CurrentSlots(), matcher);
      }
      next := NextOffset(offset, messageSize);
      recurse := false;
    }

    /** The bundle half of ParseBuffer: the do/while loop that runs once per "#bundle " header, over the corrected walk (Findings 3 to 5). */
    method WalkBundle(view: ParserView, byteLength: nat) returns (crashed: bool)
      requires AddressesInBuffer(view)
      requires addressSpace.Shaped()
      modifies this, addressSpace
      ensures addressSpace.Shaped() && addressSpace.PatternsUnchanged()
      ensures FlagsUnchanged()
      ensures var w := Walk(view, byteLength, 16);
        crashed == w.crashed && State() == DispatchAll(old(State()), view.buffer, w.elements, CurrentSlots(), matcher)
    {
      ghost var slots := CurrentSlots();
      ghost var s0 := State();
      ghost var done: seq<Element> := [];
      var offset := 0;
      var recurse := true;
      while recurse
        invariant recurse ==> offset < byteLength + 4
        invariant recurse || byteLength <= offset
        invariant Walk(view, byteLength, 16) == Then(done, Walk(view, byteLength, if recurse then offset + 16 else offset))
        invariant forall e :: e in done ==> InBuffer(view.buffer, e)
        invariant State() == DispatchAll(s0, view.buffer, done, slots, matcher)
        invariant addressSpace.Shaped() && addressSpace.PatternsUnchanged()
        invariant CurrentSlots() == slots
        invariant FlagsUnchanged()
        decreases if recurse then byteLength + 16 - offset else 0
      {
        offset := offset + 16;
        ghost var start := offset;
        ghost var found;
        offset, recurse, crashed, found := ScanElements(view, byteLength, offset);
        ghost var rest := if crashed then Walked([], true)
                          else Walk(view, byteLength, if recurse then offset + 16 else offset);
        assert Walk(view, byteLength, start) == Then(found, rest);
        ThenThen(done, found, rest);
        DispatchAllAppend(s0, view.buffer, done, found, slots, matcher);
        done := done + found;
        if crashed {
          assert done + [] == done;
          return;
        }
      }
      assert Walk(view, byteLength, offset) == Walked([], false);
      assert done + [] == done;
      return false;
    }

    /**
     * The element loop of ParseBuffer from offset: it runs until the offset
     * reaches byteLength, a nested "#bundle " is met (recurse), or a size
     * field lies outside the buffer (crashed). Corrected (Findings 3 to 5),
     * as ScanElement.
     */
    method ScanElements(view: ParserView, byteLength: nat, start: nat)
      returns (offset: nat, recurse: bool, crashed: bool, ghost found: seq<Element>)
      requires AddressesInBuffer(view)
      requires addressSpace.Shaped()
      modifies this, addressSpace
      ensures addressSpace.Shaped() && addressSpace.PatternsUnchanged()
      ensures FlagsUnchanged()
      ensures forall e :: e in found ==> InBuffer(view.buffer, e)
      ensures State() == DispatchAll(old(State()), view.buffer, found, CurrentSlots(), matcher)
      ensures crashed ==> Walk(view, byteLength, start) == Walked(found, true)
      ensures !crashed ==>
        (recurse ==> start < offset < byteLength + 4) && (recurse || byteLength <= offset) &&
        Walk(view, byteLength, start) == Then(found, Walk(view, byteLength, if recurse then offset + 16 else offset))
    {
      ghost var s0 := State();
      ghost var slots := CurrentSlots();
      offset, recurse, crashed, found := start, false, false, [];
      while offset < byteLength && !recurse
        invariant recurse ==> start < offset < byteLength + 4
        invariant Walk(view, byteLength, start) == Then(found, Walk(view, byteLength, if recurse then offset + 16 else offset))
        invariant forall e :: e in found ==> InBuffer(view.buffer, e)
        invariant State() == DispatchAll(s0, view.buffer, found, slots, matcher)
        invariant addressSpace.Shaped() && addressSpace.PatternsUnchanged()
        invariant FlagsUnchanged()
        decreases byteLength - offset
      {
        if offset + 4 > |view.buffer| {
          assert Walk(view, byteLength, offset) == Walked([], true);
          assert Then(found, Walked([], true)) == Walked(found, true);
          crashed := true;
          break;
        }
        ghost var more;
        ghost var before := Walk(view, byteLength, offset);
        offset, recurse, more := ScanElement(view, byteLength, offset);
        ghost var after := Walk(view, byteLength, if recurse then offset + 16 else offset);
        ThenThen(found, more, after);
        DispatchAllAppend(s0, view.buffer, found, more, slots, matcher);
        found := found + more;
      }
    }
  }

  lemma RanSnoc(queue: seq<Delegate>, d: Delegate)
    ensures Ran(queue + [d]) == Ran(queue) + [RunQueued(d)]
  {
  }

  /** Dispatching two runs of elements is dispatching their concatenation. */
  lemma {:induction false} DispatchAllAppend(s: Sink, buffer: seq<byte>, es: seq<Element>, more: seq<Element>, slots: Slots, m: Matcher)
    requires forall x :: x in es ==> InBuffer(buffer, x)
    requires forall x :: x in more ==> InBuffer(buffer, x)
    requires Scannable(slots)
    ensures DispatchAll(s, buffer, es + more, slots, m) == DispatchAll(DispatchAll(s, buffer, es, slots, m), buffer, more, slots, m)
    decreases |more|
  {
    if more == [] {
      assert es + more == es;
    } else {
      var init := more[..|more| - 1];
      DispatchAllAppend(s, buffer, es, init, slots, m);
      assert (es + more)[..|es + more| - 1] == es + init;
      assert (es + more)[|es + more| - 1] == more[|more| - 1];
    }
  }

  // ---------------------------------------------------------------------------
  // The port registry
  // ---------------------------------------------------------------------------

  /** OscServer.PortToServer: the servers by the port they listen on. */
  class PortRegistry {
    var portToServer: map<int, OscServer>

    /** Each server is registered under its own port. */
    ghost predicate Valid()
      reads this
    {
      forall p :: p in portToServer ==> portToServer[p].port == p
    }

    constructor()
      ensures Valid() && portToServer == map[]
    {
      portToServer := map[];
    }

    /**
     * `new OscServer(port)`: an ArgumentException when the port is already
     * registered; otherwise a started server, which the constructor itself
     * does not register.
     */
    method NewServer(port: int, matcher: Matcher) returns (r: Result<OscServer>)
      ensures r.Err? <==> port in portToServer
      ensures r.Err? ==> r.error == Argument
      ensures r.Ok? ==> fresh(r.value) && r.value.port == port && r.value.started && r.value.running
      ensures r.Ok? ==> r.value.addressSpace.Valid() && r.value.mainThreadQueue == []
    {
      if port in portToServer {
        return Err(Argument);
      }
      var server := new OscServer(port, matcher);
      return Ok(server);
    }

    /** GetOrCreate: the registered server, or a new one, registered under the port. */
    method GetOrCreate(port: int, matcher: Matcher) returns (server: OscServer)
      requires Valid()
      modifies this
      ensures Valid() && server.port == port
      ensures port in old(portToServer) ==> server == old(portToServer)[port] && portToServer == old(portToServer)
      ensures port !in old(portToServer) ==> fresh(server) && portToServer == old(portToServer)[port := server]
    {
      if port in portToServer {
        return portToServer[port];
      }
      var created := NewServer(port, matcher);
      server := created.value;
      portToServer := portToServer[port := server];
    }

    /**
     * Dispose: unregister the server's port, and mark the server disposed the
     * first time.
     */
    method DisposeServer(server: OscServer)
      modifies this, server
      ensures portToServer == old(portToServer) - {server.port}
      ensures server.disposed
      ensures server.started == old(server.started) && server.running == old(server.running)
    {
      portToServer := portToServer - {server.port};
      if server.disposed {
        return;
      }
      server.disposed := true;
    }

    /**
     * Remove as written: Dispose has already unregistered the port, so the
     * final `PortToServer.Remove(port)` finds nothing and the result is false
     * even though a server was found and disposed.
     */
    method RemoveAsWritten(port: int) returns (removed: bool)
      requires Valid()
      modifies this, portToServer.Values
      ensures Valid() && portToServer == old(portToServer) - {port}
      ensures port in old(portToServer) ==> old(portToServer)[port].disposed
      ensures !removed
    {
      if port in portToServer {
        var server := portToServer[port];
        DisposeServer(server);
        removed := port in portToServer;
        portToServer := portToServer - {port};
        return;
      }
      return false;
    }

    /** Remove: true iff a server was registered on the port; it is disposed and unregistered. */
    method Remove(port: int) returns (removed: bool)
      requires Valid()
      modifies this, portToServer.Values
      ensures Valid() && portToServer == old(portToServer) - {port}
      ensures removed <==> port in old(portToServer)
      ensures removed ==> old(portToServer)[port].disposed
    {
      if port in portToServer {
        var server := portToServer[port];
        DisposeServer(server);
        portToServer := portToServer - {port};
        return true;
      }
      return false;
    }
  }
}
