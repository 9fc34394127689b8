/**
 * OscAddressSpace: the handlers registered for exact OSC addresses and for
 * address patterns.
 *
 * Exact addresses live in an OscAddressMethods table. Patterns live in two
 * parallel arrays of slots (pattern, handler pair). Freed slot indices are
 * recycled first-in first-out, and the arrays double when full.
 */
module AddressSpaces {
  import opened Wire
  import opened Results
  import opened ActionPairs

  /** OscParser's classification of an address string. */
  datatype AddressType = Invalid | Pattern | Address

  /**
   * The parsing and matching services the address space calls, none of which
   * is part of this model: OscParser.GetAddressType, OscParser.AddressIsValid,
   * whether `new Regex(pattern)` accepts a pattern string (it throws
   * ArgumentException otherwise), and Regex.IsMatch of a compiled pattern
   * against an address.
   */
  datatype Matcher = Matcher(
    addressType: string -> AddressType,
    addressIsValid: string -> bool,
    compiles: string -> bool,
    isMatch: (string, string) -> bool)

  /** The OscAddressMethods table, by the ASCII bytes of each address. */
  type MethodTable = map<seq<byte>, ActionPair>

  /**
   * OscAddressMethods.Add(address, pair), which is not part of this model, as
   * modelled here: a new address maps to the pair, a known one has the pair
   * added to its own with `+`.
   */
  function MethodsAdd(table: MethodTable, address: string, pair: ActionPair): (t: MethodTable)
    ensures t.Keys == table.Keys + {AsciiEncode(address)}
    ensures forall k :: k in table && k != AsciiEncode(address) ==> t[k] == table[k]
  {
    var key := AsciiEncode(address);
    table[key := if key in table then Plus(table[key], pair) else pair]
  }

  /**
   * OscAddressMethods.Remove(address, pair) as modelled here: false for an
   * unknown address; otherwise the pair is subtracted, and the address goes
   * when nothing is left of its value-read list. The subtraction is the
   * corrected Minus (Finding 1), not the `-` as written.
   */
  function MethodsRemove(table: MethodTable, address: string, pair: ActionPair): (r: (bool, MethodTable))
    ensures r.0 <==> AsciiEncode(address) in table
    ensures r.1.Keys <= table.Keys
  {
    var key := AsciiEncode(address);
    if key !in table then (false, table)
    else match Minus(table[key], pair)
      case Ok(rest) => (true, table[key := rest])
      case Err(_) => (true, table - {key})
  }

  /**
   * OscAddressMethods.Add(address, pairs), which is not part of this model,
   * as modelled here: each pair of the list is added in turn, as by MethodsAdd.
   */
  function MethodsAddAll(table: MethodTable, address: string, pairs: seq<ActionPair>): (t: MethodTable)
    ensures pairs == [] ==> t == table
    ensures pairs != [] ==> t.Keys == table.Keys + {AsciiEncode(address)}
    decreases |pairs|
  {
    if pairs == [] then table
    else MethodsAddAll(MethodsAdd(table, address, pairs[0]), address, pairs[1..])
  }

  /** OscAddressMethods.RemoveAddress(address) as modelled here: the address and all its handlers go. */
  function MethodsRemoveAddress(table: MethodTable, address: string): (r: (bool, MethodTable))
    ensures r.0 <==> AsciiEncode(address) in table
    ensures r.1.Keys == table.Keys - {AsciiEncode(address)}
  {
    var key := AsciiEncode(address);
    (key in table, table - {key})
  }

  // ---------------------------------------------------------------------------
  // The pattern scan
  // ---------------------------------------------------------------------------

  /** The first n slots are occupied. */
  predicate Occupied(patterns: seq<Option<string>>, methods: seq<Option<ActionPair>>, n: nat)
  {
    n <= |patterns| && n <= |methods| &&
    forall i :: 0 <= i < n ==> patterns[i].Some? && methods[i].Some?
  }

  /** Some slot below n holds a pattern that matches the address. */
  predicate AnyMatch(address: string, patterns: seq<Option<string>>, n: nat, isMatch: (string, string) -> bool)
    requires n <= |patterns|
  {
    exists i :: 0 <= i < n && patterns[i].Some? && isMatch(patterns[i].value, address)
  }

  /** The table after every slot below n whose pattern matches has had its pair added under the address, in slot order. */
  function AddMatches(table: MethodTable, address: string, patterns: seq<Option<string>>,
                      methods: seq<Option<ActionPair>>, n: nat, isMatch: (string, string) -> bool): MethodTable
    requires Occupied(patterns, methods, n)
    decreases n
  {
    if n == 0 then table
    else
      var before := AddMatches(table, address, patterns, methods, n - 1, isMatch);
      if isMatch(patterns[n - 1].value, address) then MethodsAdd(before, address, methods[n - 1].value) else before
  }

  /**
   * The scan registers the address exactly when some pattern matches it, and
   * leaves every other address's handlers alone.
   */
  lemma {:induction false} AddMatchesRegisters(table: MethodTable, address: string, patterns: seq<Option<string>>,
                                               methods: seq<Option<ActionPair>>, n: nat, isMatch: (string, string) -> bool)
    requires Occupied(patterns, methods, n)
    ensures AddMatches(table, address, patterns, methods, n, isMatch).Keys ==
      table.Keys + (if AnyMatch(address, patterns, n, isMatch) then {AsciiEncode(address)} else {})
    ensures forall k :: k in table && k != AsciiEncode(address) ==>
      AddMatches(table, address, patterns, methods, n, isMatch)[k] == table[k]
  {
    if n > 0 {
      AddMatchesRegisters(table, address, patterns, methods, n - 1, isMatch);
      if isMatch(patterns[n - 1].value, address) {
        assert AnyMatch(address, patterns, n, isMatch);
      } else if AnyMatch(address, patterns, n, isMatch) {
        var i :| 0 <= i < n && patterns[i].Some? && isMatch(patterns[i].value, address);
        assert i < n - 1;
        assert AnyMatch(address, patterns, n - 1, isMatch);
      }
    }
  }

  /**
   * Slot i holds a registered pattern: a pattern and a pair, and the pattern
   * string is registered at this very slot. A slot emptied by RemoveMethod,
   * or one whose pattern was forgotten while its other handlers stayed, is
   * not live.
   */
  predicate LiveSlot(patterns: seq<Option<string>>, methods: seq<Option<ActionPair>>, index: map<string, int>, i: int)
    requires 0 <= i < |patterns| && i < |methods|
  {
    patterns[i].Some? && methods[i].Some? && patterns[i].value in index && index[patterns[i].value] == i
  }

  /** Some live slot below n holds a pattern that matches the address. */
  predicate LiveMatch(address: string, patterns: seq<Option<string>>, methods: seq<Option<ActionPair>>,
                      index: map<string, int>, n: nat, isMatch: (string, string) -> bool)
    requires n <= |patterns| && n <= |methods|
  {
    exists i :: 0 <= i < n && LiveSlot(patterns, methods, index, i) && isMatch(patterns[i].value, address)
  }

  /**
   * The corrected scan: every live slot below n is tried, other slots are
   * passed over, and each match adds its pair under the address, in slot
   * order.
   */
  function AddLiveMatches(table: MethodTable, address: string, patterns: seq<Option<string>>,
                          methods: seq<Option<ActionPair>>, index: map<string, int>, n: nat,
                          isMatch: (string, string) -> bool): MethodTable
    requires n <= |patterns| && n <= |methods|
    decreases n
  {
    if n == 0 then table
    else
      var before := AddLiveMatches(table, address, patterns, methods, index, n - 1, isMatch);
      if LiveSlot(patterns, methods, index, n - 1) && isMatch(patterns[n - 1].value, address)
      then MethodsAdd(before, address, methods[n - 1].value)
      else before
  }

  /** The corrected scan registers the address exactly when some live slot matches it, and leaves every other address alone. */
  lemma {:induction false} AddLiveMatchesRegisters(table: MethodTable, address: string, patterns: seq<Option<string>>,
                                                   methods: seq<Option<ActionPair>>, index: map<string, int>, n: nat,
                                                   isMatch: (string, string) -> bool)
    requires n <= |patterns| && n <= |methods|
    ensures AddLiveMatches(table, address, patterns, methods, index, n, isMatch).Keys ==
      table.Keys + (if LiveMatch(address, patterns, methods, index, n, isMatch) then {AsciiEncode(address)} else {})
    ensures forall k :: k in table && k != AsciiEncode(address) ==>
      AddLiveMatches(table, address, patterns, methods, index, n, isMatch)[k] == table[k]
  {
    if n > 0 {
      AddLiveMatchesRegisters(table, address, patterns, methods, index, n - 1, isMatch);
      if LiveSlot(patterns, methods, index, n - 1) && isMatch(patterns[n - 1].value, address) {
        assert LiveMatch(address, patterns, methods, index, n, isMatch);
      } else if LiveMatch(address, patterns, methods, index, n, isMatch) {
        var i :| 0 <= i < n && LiveSlot(patterns, methods, index, i) && isMatch(patterns[i].value, address);
        assert i < n - 1;
        assert LiveMatch(address, patterns, methods, index, n - 1, isMatch);
      }
    }
  }

  /** Every slot below n holds a registered pattern. */
  predicate AllLive(patterns: seq<Option<string>>, methods: seq<Option<ActionPair>>, index: map<string, int>, n: nat)
    requires n <= |patterns| && n <= |methods|
  {
    forall i :: 0 <= i < n ==> LiveSlot(patterns, methods, index, i)
  }

  /** No slot from n up to m holds a registered pattern. */
  predicate NoneLive(patterns: seq<Option<string>>, methods: seq<Option<ActionPair>>, index: map<string, int>, n: nat, m: nat)
    requires m <= |patterns| && m <= |methods|
  {
    forall i :: n <= i < m ==> !LiveSlot(patterns, methods, index, i)
  }

  /** Slots that hold no registered pattern add nothing to the corrected scan. */
  lemma {:induction false} DeadTailAddsNothing(table: MethodTable, address: string, patterns: seq<Option<string>>,
                                               methods: seq<Option<ActionPair>>, index: map<string, int>, n: nat, m: nat,
                                               isMatch: (string, string) -> bool)
    requires n <= m <= |patterns| && m <= |methods| && NoneLive(patterns, methods, index, n, m)
    ensures AddLiveMatches(table, address, patterns, methods, index, m, isMatch) ==
      AddLiveMatches(table, address, patterns, methods, index, n, isMatch)
    ensures LiveMatch(address, patterns, methods, index, m, isMatch) <==> LiveMatch(address, patterns, methods, index, n, isMatch)
    decreases m
  {
    if m > n {
      DeadTailAddsNothing(table, address, patterns, methods, index, n, m - 1, isMatch);
      if LiveMatch(address, patterns, methods, index, m, isMatch) {
        var i :| 0 <= i < m && LiveSlot(patterns, methods, index, i) && isMatch(patterns[i].value, address);
        assert i < n;
      }
    }
  }

  /**
   * Where every slot below n holds a registered pattern and none above it
   * does, the corrected scan over all slots does what the scan as written
   * does over the first n.
   */
  lemma {:induction false} ScansAgreeWithoutHoles(table: MethodTable, address: string, patterns: seq<Option<string>>,
                                                  methods: seq<Option<ActionPair>>, index: map<string, int>, n: nat,
                                                  isMatch: (string, string) -> bool)
    requires n <= |patterns| == |methods|
    requires AllLive(patterns, methods, index, n) && NoneLive(patterns, methods, index, n, |patterns|)
    ensures Occupied(patterns, methods, n)
    ensures AddLiveMatches(table, address, patterns, methods, index, |patterns|, isMatch) ==
      AddMatches(table, address, patterns, methods, n, isMatch)
    ensures LiveMatch(address, patterns, methods, index, |patterns|, isMatch) <==> AnyMatch(address, patterns, n, isMatch)
  {
    DeadTailAddsNothing(table, address, patterns, methods, index, n, |patterns|, isMatch);
    LiveScanAgreesBelow(table, address, patterns, methods, index, n, isMatch);
  }

  /** Below a bound where every slot is live, the two scans agree slot for slot. */
  lemma {:induction false} LiveScanAgreesBelow(table: MethodTable, address: string, patterns: seq<Option<string>>,
                                               methods: seq<Option<ActionPair>>, index: map<string, int>, n: nat,
                                               isMatch: (string, string) -> bool)
    requires n <= |patterns| == |methods| && AllLive(patterns, methods, index, n)
    ensures Occupied(patterns, methods, n)
    ensures AddLiveMatches(table, address, patterns, methods, index, n, isMatch) == AddMatches(table, address, patterns, methods, n, isMatch)
    ensures LiveMatch(address, patterns, methods, index, n, isMatch) <==> AnyMatch(address, patterns, n, isMatch)
  {
    if n > 0 {
      LiveScanAgreesBelow(table, address, patterns, methods, index, n - 1, isMatch);
      assert LiveSlot(patterns, methods, index, n - 1);
      if AnyMatch(address, patterns, n, isMatch) {
        var i :| 0 <= i < n && patterns[i].Some? && isMatch(patterns[i].value, address);
        assert LiveSlot(patterns, methods, index, i);
      }
    }
  }

  /**
   * Two patterns in slots 0 and 1, the first with a single handler; removing
   * it (as RemoveMethod does) empties slot 0, queues it as free and drops the
   * count to 1. The bookkeeping is consistent before and after, yet the slots
   * below the count are no longer occupied, so the scan as written
   * dereferences the empty slot 0; and the pattern still registered sits in
   * slot 1, beyond the count, where that scan never looks. The corrected scan
   * finds it.
   */
  lemma RemovalLeavesHoleBelowCount(pair: ActionPair, address: string, isMatch: (string, string) -> bool)
    requires isMatch("/b/*", address)
    ensures var ps0, ms0, book0 := [Some("/a/*"), Some("/b/*")], [Some(pair), Some(pair)], map["/a/*" := 0, "/b/*" := 1];
      var ps1, ms1, book1 := ps0[0 := None], ms0[0 := None], book0 - {"/a/*"};
      IndexBook(2, [], book0, 2) && SlotBook(ps0, ms0, book0) && Occupied(ps0, ms0, 2) &&
      IndexBook(1, [0], book1, 2) && SlotBook(ps1, ms1, book1) &&
      !Occupied(ps1, ms1, 1) && book1["/b/*"] == 1 &&
      !AnyMatch(address, ps1, 1, isMatch) && LiveMatch(address, ps1, ms1, book1, 2, isMatch)
  {
    var ps0, ms0, book0 := [Some("/a/*"), Some("/b/*")], [Some(pair), Some(pair)], map["/a/*" := 0, "/b/*" := 1];
    var ps1, ms1, book1 := ps0[0 := None], ms0[0 := None], book0 - {"/a/*"};
    assert "/a/*" != "/b/*" by { assert "/a/*"[1] != "/b/*"[1]; }
    assert book1 == map["/b/*" := 1];
    assert ps1[0].None? && ps1[1] == Some("/b/*") && ms1[1] == Some(pair);
    assert LiveSlot(ps1, ms1, book1, 1);
  }

  /**
   * A new pattern that Regex rejects, as written: the slot is taken before
   * `new Regex(address)` throws, and nothing else changes. After adding
   * patterns A and B and removing A (the state below, B in slot 1), the slot
   * taken is the freed slot 0, which is then neither queued nor used: the
   * slot indices are no longer consistent, and the next new pattern takes
   * slot patternCount = 1, where B still lives, so it overwrites B's slot.
   */
  lemma RejectedPatternLosesFreedSlot(pair: ActionPair)
    ensures var book := map["/b/*" := 1];
      IndexBook(1, [0], book, 2) && SlotBook([None, Some("/b/*")], [None, Some(pair)], book) &&
      NextSlot(1, [0]) == 0 &&
      !IndexBook(1, [], book, 2) &&
      NextSlot(1, []) == book["/b/*"]
  {
  }

  /** The first |s| slots as they were, then empty slots up to n: what Array.Resize leaves. */
  function Resized<X>(s: seq<Option<X>>, n: nat): (r: seq<Option<X>>)
    requires |s| <= n
    ensures |r| == n && r[..|s|] == s
    ensures forall i :: |s| <= i < n ==> r[i].None?
  {
    s + seq(n - |s|, _ => None)
  }

  lemma MapRemoveCardinality<K, V>(m: map<K, V>, k: K)
    requires k in m
    ensures |m - {k}| == |m| - 1
  {
    assert m.Keys == (m - {k}).Keys + {k};
    assert |m.Keys| == |(m - {k}).Keys| + 1;
  }

  // ---------------------------------------------------------------------------
  // Pattern slot bookkeeping
  // ---------------------------------------------------------------------------

  /**
   * The slot indices: one live slot per registered pattern string, live slots
   * distinct, freed slots distinct and not live, and live plus freed slots all
   * below count + |freed|, which fits within `length` slots.
   */
  predicate IndexBook(count: int, freed: seq<int>, index: map<string, int>, length: int)
  {
    count == |index| &&
    count + |freed| <= length &&
    (forall p :: p in index ==> 0 <= index[p] < count + |freed|) &&
    (forall i :: 0 <= i < |freed| ==> 0 <= freed[i] < count + |freed|) &&
    (forall p, q :: p in index && q in index && p != q ==> index[p] != index[q]) &&
    (forall i, j :: 0 <= i < j < |freed| ==> freed[i] != freed[j]) &&
    (forall p, i :: p in index && 0 <= i < |freed| ==> index[p] != freed[i])
  }

  /** The slot contents: each registered pattern sits in its slot with a pair, and a slot has a pattern iff it has a pair. */
  predicate SlotBook(patterns: seq<Option<string>>, methods: seq<Option<ActionPair>>, index: map<string, int>)
  {
    |patterns| == |methods| &&
    (forall p :: p in index ==> 0 <= index[p] < |patterns| && patterns[index[p]] == Some(p) && methods[index[p]].Some?) &&
    (forall i :: 0 <= i < |patterns| ==> (patterns[i].Some? <==> methods[i].Some?))
  }

  /** The slot a new pattern takes: the head of the freed queue, else the next unused index. */
  function NextSlot(count: int, freed: seq<int>): int
  {
    if |freed| > 0 then freed[0] else count
  }

  /** Registering a new pattern string keeps the indices consistent, and its slot is free and in range. */
  lemma IndexBookAdd(count: int, freed: seq<int>, index: map<string, int>, length: int, newLength: int, address: string)
    requires IndexBook(count, freed, index, length) && address !in index
    requires newLength >= length && (|freed| == 0 && count >= length ==> newLength > count)
    ensures var slot := NextSlot(count, freed);
      0 <= slot < newLength &&
      (forall p :: p in index ==> index[p] != slot) &&
      IndexBook(count + 1, if |freed| > 0 then freed[1..] else freed, index[address := slot], newLength)
  {
    var slot := NextSlot(count, freed);
    var freed' := if |freed| > 0 then freed[1..] else freed;
    var index' := index[address := slot];
    assert |index'| == |index| + 1;
    if |freed| > 0 {
      forall i | 0 <= i < |freed'|
        ensures freed'[i] != slot
      {
        assert freed'[i] == freed[i + 1];
      }
    }
  }

  /** The slot a new pattern takes is in range, once the arrays have grown when every slot was used. */
  lemma NextSlotInRange(count: int, freed: seq<int>, index: map<string, int>, length: int, newLength: int)
    requires IndexBook(count, freed, index, length)
    requires newLength >= length && (|freed| == 0 && count >= length ==> newLength > count)
    ensures 0 <= NextSlot(count, freed) < newLength
  {
  }

  /** Releasing a registered pattern's slot keeps the indices consistent. */
  lemma IndexBookRemove(count: int, freed: seq<int>, index: map<string, int>, length: int, address: string)
    requires IndexBook(count, freed, index, length) && address in index
    ensures IndexBook(count - 1, freed + [index[address]], index - {address}, length)
  {
    MapRemoveCardinality(index, address);
  }

  /** Filling a slot no registered pattern uses keeps the slot contents consistent. */
  lemma SlotBookAdd(patterns: seq<Option<string>>, methods: seq<Option<ActionPair>>, index: map<string, int>,
                    address: string, pair: ActionPair, slot: int)
    requires SlotBook(patterns, methods, index) && 0 <= slot < |patterns|
    requires forall p :: p in index ==> index[p] != slot
    ensures SlotBook(patterns[slot := Some(address)], methods[slot := Some(pair)], index[address := slot])
  {
  }

  /** Emptying or updating a registered pattern's slot and forgetting the pattern keeps the slot contents consistent. */
  lemma SlotBookRemove(patterns: seq<Option<string>>, methods: seq<Option<ActionPair>>, index: map<string, int>,
                       count: int, freed: seq<int>, length: int, address: string, single: bool, rest: ActionPair)
    requires SlotBook(patterns, methods, index) && IndexBook(count, freed, index, length)
    requires address in index
    ensures var slot := index[address];
      SlotBook(if single then patterns[slot := None] else patterns,
               methods[slot := if single then None else Some(rest)], index - {address})
  {
  }

  /** Growing the arrays keeps the slot contents consistent. */
  lemma SlotBookResize(patterns: seq<Option<string>>, methods: seq<Option<ActionPair>>, index: map<string, int>, n: nat)
    requires SlotBook(patterns, methods, index) && |patterns| <= n
    ensures SlotBook(Resized(patterns, n), Resized(methods, n), index)
  {
    var ps := Resized(patterns, n);
    var ms := Resized(methods, n);
    forall i | 0 <= i < n
      ensures ps[i].Some? <==> ms[i].Some?
    {
      if i < |patterns| {
        assert ps[i] == patterns[i] && ms[i] == methods[i];
      }
    }
  }

  class OscAddressSpace {
    /** DefaultPatternCapacity: the number of pattern slots a new address space has. */
    static const DefaultPatternCapacity: nat := 8

    var addressToMethod: MethodTable
    var patternCount: int
    var patterns: array<Option<string>>
    var patternMethods: array<Option<ActionPair>>
    var freedPatternIndices: seq<int>
    var patternStringToIndex: map<string, int>

    /** The two slot arrays have the same, non-zero length, so doubling always makes room. */
    ghost predicate Shaped()
      reads this
    {
      patterns.Length == patternMethods.Length && patterns.Length >= 1
    }

    ghost predicate Valid()
      reads this, patterns, patternMethods
    {
      Shaped() &&
      IndexBook(patternCount, freedPatternIndices, patternStringToIndex, patterns.Length) &&
      SlotBook(patterns[..], patternMethods[..], patternStringToIndex)
    }

    /** What the pattern scan as written needs: the slots below patternCount hold a pattern and a pair. */
    ghost predicate ScanReady()
      reads this, patterns, patternMethods
    {
      Shaped() && 0 <= patternCount <= patterns.Length &&
      Occupied(patterns[..], patternMethods[..], patternCount)
    }

    /** The invariant does not depend on the exact-address table. */
    twostate lemma ValidKept()
      requires old(Valid()) && PatternsUnchanged()
      ensures Valid()
    {
    }

    /** A new address space: an empty table and eight empty pattern slots. */
    constructor(startingCapacity: nat)
      ensures Valid()
      ensures addressToMethod == map[] && patternCount == 0
      ensures fresh(patterns) && fresh(patternMethods)
      ensures patterns.Length == DefaultPatternCapacity
      ensures patterns[..] == Resized([], DefaultPatternCapacity)
      ensures patternMethods[..] == Resized([], DefaultPatternCapacity)
      ensures freedPatternIndices == [] && patternStringToIndex == map[]
    {
      addressToMethod := map[];
      patternCount := 0;
      patterns := new Option<string>[DefaultPatternCapacity](_ => None);
      patternMethods := new Option<ActionPair>[DefaultPatternCapacity](_ => None);
      freedPatternIndices := [];
      patternStringToIndex := map[];
    }

    /**
     * TryAddMethod: false and no change for an empty address, a null pair or
     * an address that is neither an address nor a pattern. An exact address
     * goes to the table. A known pattern composes the pair into its slot. A
     * new pattern takes the oldest freed slot, or else slot patternCount
     * (doubling both arrays when they are full).
     *
     * Corrected (Finding 6): a new pattern that Regex rejects throws
     * ArgumentException before any slot is taken, so nothing changes. As
     * written, the slot is taken first (RejectedPatternLosesFreedSlot).
     */
    method TryAddMethod(address: string, onReceived: Option<ActionPair>, m: Matcher) returns (added: Result<bool>)
      requires Valid()
      modifies this, patterns, patternMethods
      ensures Valid()
      ensures address == [] || onReceived.None? || m.addressType(address) == Invalid ==>
        added == Ok(false) && addressToMethod == old(addressToMethod) && PatternsUnchanged()
      ensures address != [] && onReceived.Some? && m.addressType(address) == Address ==>
        added == Ok(true) && addressToMethod == MethodsAdd(old(addressToMethod), address, onReceived.value) && PatternsUnchanged()
      ensures address != [] && onReceived.Some? && m.addressType(address) == Pattern && address in old(patternStringToIndex) ==>
        var index := old(patternStringToIndex[address]);
        added == Ok(true) && addressToMethod == old(addressToMethod) &&
        patterns == old(patterns) && patternMethods == old(patternMethods) &&
        patterns[..] == old(patterns[..]) &&
        patternMethods[..] == old(patternMethods[..])[index := Some(Plus(old(patternMethods[index]).value, onReceived.value))] &&
        patternCount == old(patternCount) && freedPatternIndices == old(freedPatternIndices) &&
        patternStringToIndex == old(patternStringToIndex)
      ensures address != [] && onReceived.Some? && m.addressType(address) == Pattern && address !in old(patternStringToIndex) &&
              !m.compiles(address) ==>
        added == Err(Argument) && addressToMethod == old(addressToMethod) && PatternsUnchanged()
      ensures address != [] && onReceived.Some? && m.addressType(address) == Pattern && address !in old(patternStringToIndex) &&
              m.compiles(address) ==>
        added == Ok(true) && addressToMethod == old(addressToMethod) &&
        NewPatternPlaced(address, onReceived.value, old(patterns[..]), old(patternMethods[..]),
                         old(patternCount), old(freedPatternIndices), old(patternStringToIndex))
    {
      if address == [] || onReceived.None? {
        return Ok(false);
      }
      var kind := m.addressType(address);
      if kind == Address {
        addressToMethod := MethodsAdd(addressToMethod, address, onReceived.value);
        return Ok(true);
      } else if kind == Pattern {
        if address in patternStringToIndex {
          ComposePattern(address, onReceived.value);
        } else if !m.compiles(address) {
          return Err(Argument);
        } else {
          AddPattern(address, onReceived.value);
        }
        return Ok(true);
      }
      return Ok(false);
    }

    /** Nothing about the pattern slots has changed. */
    twostate predicate PatternsUnchanged()
      reads this, patterns, patternMethods
    {
      patterns == old(patterns) && patternMethods == old(patternMethods) &&
      patterns[..] == old(patterns[..]) && patternMethods[..] == old(patternMethods[..]) &&
      patternCount == old(patternCount) && freedPatternIndices == old(freedPatternIndices) &&
      patternStringToIndex == old(patternStringToIndex)
    }

    /**
     * The slot state after a new pattern was registered, in terms of the state
     * before: the slot taken is the head of the freed queue or else the old
     * patternCount, and the arrays doubled iff there was no freed slot and
     * every slot was in use.
     */
    ghost predicate NewPatternPlaced(address: string, pair: ActionPair,
                                     oldPatterns: seq<Option<string>>, oldMethods: seq<Option<ActionPair>>,
                                     oldCount: int, oldFreed: seq<int>, oldIndex: map<string, int>)
      reads this, patterns, patternMethods
    {
      var index := if |oldFreed| > 0 then oldFreed[0] else oldCount;
      var grow := |oldFreed| == 0 && oldCount >= |oldPatterns|;
      0 <= index < patterns.Length &&
      |oldPatterns| <= patterns.Length && |oldMethods| <= patterns.Length &&
      patterns.Length == (if grow then 2 * |oldPatterns| else |oldPatterns|) &&
      patternMethods.Length == patterns.Length &&
      patterns[..] == Resized(oldPatterns, patterns.Length)[index := Some(address)] &&
      patternMethods[..] == Resized(oldMethods, patterns.Length)[index := Some(pair)] &&
      patternStringToIndex == oldIndex[address := index] &&
      patternCount == oldCount + 1 &&
      freedPatternIndices == (if |oldFreed| > 0 then oldFreed[1..] else oldFreed)
    }

    /** `_patternMethods[index] += onReceived` for a pattern already registered. */
    method ComposePattern(address: string, pair: ActionPair)
      requires Valid() && address in patternStringToIndex
      modifies patternMethods
      ensures Valid()
      ensures patternMethods[..] == old(patternMethods[..])[patternStringToIndex[address] :=
        Some(Plus(old(patternMethods[patternStringToIndex[address]]).value, pair))]
    {
      var index := patternStringToIndex[address];
      patternMethods[index] := Some(Plus(patternMethods[index].value, pair));
    }

    /** Array.Resize of both slot arrays to twice their length. */
    method GrowPatternArrays()
      requires Shaped()
      modifies this
      ensures Shaped()
      ensures fresh(patterns) && fresh(patternMethods)
      ensures patterns.Length == 2 * old(patterns.Length)
      ensures patterns[..] == Resized(old(patterns[..]), patterns.Length)
      ensures patternMethods[..] == Resized(old(patternMethods[..]), patterns.Length)
      ensures addressToMethod == old(addressToMethod) && patternCount == old(patternCount)
      ensures freedPatternIndices == old(freedPatternIndices) && patternStringToIndex == old(patternStringToIndex)
    {
      var newSize := patterns.Length * 2;
      var oldPatterns := patterns[..];
      var oldMethods := patternMethods[..];
      patterns := new Option<string>[newSize](i => if 0 <= i < |oldPatterns| then oldPatterns[i] else None);
      patternMethods := new Option<ActionPair>[newSize](i => if 0 <= i < |oldMethods| then oldMethods[i] else None);
      assert patterns[..] == Resized(oldPatterns, newSize);
      assert patternMethods[..] == Resized(oldMethods, newSize);
    }

    /** Register a pattern string not registered before. */
    method AddPattern(address: string, pair: ActionPair)
      requires Valid() && address !in patternStringToIndex
      modifies this, patterns, patternMethods
      ensures Valid()
      ensures addressToMethod == old(addressToMethod)
      ensures NewPatternPlaced(address, pair, old(patterns[..]), old(patternMethods[..]),
                               old(patternCount), old(freedPatternIndices), old(patternStringToIndex))
    {
      ghost var count, freed, book, length := patternCount, freedPatternIndices, patternStringToIndex, patterns.Length;
      ghost var ps0, ms0 := patterns[..], patternMethods[..];
      var index := TakeSlot();
      ghost var ps, ms := Resized(ps0, patterns.Length), Resized(ms0, patterns.Length);
      NextSlotInRange(count, freed, book, length, patterns.Length);
      patternStringToIndex := patternStringToIndex[address := index];
      patternCount := patternCount + 1;
      FillSlot(index, address, pair);
      assert patterns[..] == ps[index := Some(address)] && patternMethods[..] == ms[index := Some(pair)];
      NewPatternKeepsValid(address, pair, ps0, ms0, count, freed, book);
    }

    /** Placing a new pattern as AddPattern does keeps the slot bookkeeping valid. */
    lemma NewPatternKeepsValid(address: string, pair: ActionPair, ps0: seq<Option<string>>, ms0: seq<Option<ActionPair>>,
                               count: int, freed: seq<int>, book: map<string, int>)
      requires IndexBook(count, freed, book, |ps0|) && SlotBook(ps0, ms0, book) && address !in book
      requires Shaped() && NewPatternPlaced(address, pair, ps0, ms0, count, freed, book)
      ensures Valid()
    {
      SlotBookResize(ps0, ms0, book, patterns.Length);
      IndexBookAdd(count, freed, book, |ps0|, patterns.Length, address);
      SlotBookAdd(Resized(ps0, patterns.Length), Resized(ms0, patterns.Length), book, address, pair, NextSlot(count, freed));
    }

    /** The slot AddPattern fills: the head of the freed queue, else patternCount after growing the arrays when all are used. */
    method TakeSlot() returns (index: int)
      requires Shaped()
      modifies this
      ensures Shaped() && index == NextSlot(old(patternCount), old(freedPatternIndices))
      ensures freedPatternIndices == if |old(freedPatternIndices)| > 0 then old(freedPatternIndices)[1..] else old(freedPatternIndices)
      ensures patterns.Length == if |old(freedPatternIndices)| == 0 && old(patternCount) >= old(patterns.Length)
                                 then 2 * old(patterns.Length) else old(patterns.Length)
      ensures patterns[..] == Resized(old(patterns[..]), patterns.Length)
      ensures patternMethods[..] == Resized(old(patternMethods[..]), patterns.Length)
      ensures patterns == old(patterns) || fresh(patterns)
      ensures patternMethods == old(patternMethods) || fresh(patternMethods)
      ensures addressToMethod == old(addressToMethod) && patternCount == old(patternCount)
      ensures patternStringToIndex == old(patternStringToIndex)
    {
      if |freedPatternIndices| > 0 {
        index := freedPatternIndices[0];
        freedPatternIndices := freedPatternIndices[1..];
        assert patterns[..] == Resized(old(patterns[..]), patterns.Length);
        assert patternMethods[..] == Resized(old(patternMethods[..]), patterns.Length);
      } else {
        index := patternCount;
        if index >= patterns.Length {
          GrowPatternArrays();
        } else {
          assert patterns[..] == Resized(old(patterns[..]), patterns.Length);
          assert patternMethods[..] == Resized(old(patternMethods[..]), patterns.Length);
        }
      }
    }

    /** The two array writes of AddPattern. */
    method FillSlot(index: int, address: string, pair: ActionPair)
      requires 0 <= index < patterns.Length == patternMethods.Length
      modifies patterns, patternMethods
      ensures patterns[..] == old(patterns[..])[index := Some(address)]
      ensures patternMethods[..] == old(patternMethods[..])[index := Some(pair)]
    {
      patterns[index] := Some(address);
      patternMethods[index] := Some(pair);
    }

    /**
     * RemoveAddressMethod: false for an empty address or one that is not an
     * exact address; otherwise the table removes the address.
     */
    method RemoveAddressMethod(address: string, m: Matcher) returns (removed: bool)
      requires Valid()
      modifies this
      ensures Valid() && PatternsUnchanged()
      ensures address == [] || m.addressType(address) != Address ==>
        !removed && addressToMethod == old(addressToMethod)
      ensures address != [] && m.addressType(address) == Address ==>
        (removed, addressToMethod) == MethodsRemoveAddress(old(addressToMethod), address)
    {
      if address == [] {
        return false;
      }
      if m.addressType(address) == Address {
        var r := MethodsRemoveAddress(addressToMethod, address);
        removed := r.0;
        addressToMethod := r.1;
        return removed;
      }
      return false;
    }

    /**
     * RemoveMethod: false for an empty address, a null pair, an unknown pattern
     * or an invalid address. An exact address is handed to the table. For a
     * known pattern, a single-delegate slot is emptied, otherwise the pair is
     * subtracted (which throws if nothing would be left); then the count drops,
     * the slot is queued for reuse and the pattern string is forgotten.
     * Corrected (Finding 1): the subtraction is Minus, not MinusAsWritten.
     */
    method RemoveMethod(address: string, onReceived: Option<ActionPair>, m: Matcher) returns (r: Result<bool>)
      requires Valid()
      modifies this, patterns, patternMethods
      ensures Valid()
      ensures address == [] || onReceived.None? || m.addressType(address) == Invalid ==>
        r == Ok(false) && addressToMethod == old(addressToMethod) && PatternsUnchanged()
      ensures address != [] && onReceived.Some? && m.addressType(address) == Address ==>
        var after := MethodsRemove(old(addressToMethod), address, onReceived.value);
        r == Ok(after.0) && addressToMethod == after.1 && PatternsUnchanged()
      ensures address != [] && onReceived.Some? && m.addressType(address) == Pattern && address !in old(patternStringToIndex) ==>
        r == Ok(false) && addressToMethod == old(addressToMethod) && PatternsUnchanged()
      ensures address != [] && onReceived.Some? && m.addressType(address) == Pattern && address in old(patternStringToIndex) ==>
        addressToMethod == old(addressToMethod) &&
        PatternSlotReleased(address, onReceived.value, r, old(patterns[..]), old(patternMethods[..]),
                            old(patternCount), old(freedPatternIndices), old(patternStringToIndex))
    {
      if address == [] || onReceived.None? {
        return Ok(false);
      }
      var kind := m.addressType(address);
      if kind == Address {
        var after := MethodsRemove(addressToMethod, address, onReceived.value);
        addressToMethod := after.1;
        return Ok(after.0);
      } else if kind == Pattern {
        if address !in patternStringToIndex {
          return Ok(false);
        }
        r := RemovePattern(address, onReceived.value);
        return r;
      }
      return Ok(false);
    }

    /**
     * The slot state after RemoveMethod on a registered pattern. When the
     * slot's value-read list has one delegate the slot is emptied; otherwise
     * the pair is subtracted, and if that throws nothing else changes. After
     * the slot update the count drops, the slot joins the freed queue and the
     * pattern string is dropped; the call returns true.
     */
    ghost predicate PatternSlotReleased(address: string, pair: ActionPair, r: Result<bool>,
                                        oldPatterns: seq<Option<string>>, oldMethods: seq<Option<ActionPair>>,
                                        oldCount: int, oldFreed: seq<int>, oldIndex: map<string, int>)
      reads this, patterns, patternMethods
      requires address in oldIndex
    {
      var index := oldIndex[address];
      0 <= index < |oldMethods| == |oldPatterns| && oldMethods[index].Some? &&
      var slot := oldMethods[index].value;
      var single := |slot.valueRead| == 1;
      var diff := Minus(slot, pair);
      patterns[..] == (if single then oldPatterns[index := None] else oldPatterns) &&
      if !single && diff.Err? then
        r == Err(ArgumentNull) &&
        patternMethods[..] == oldMethods &&
        patternCount == oldCount && freedPatternIndices == oldFreed && patternStringToIndex == oldIndex
      else
        r == Ok(true) &&
        patternMethods[..] == oldMethods[index := if single then None else Some(diff.value)] &&
        patternCount == oldCount - 1 &&
        freedPatternIndices == oldFreed + [index] &&
        patternStringToIndex == oldIndex - {address}
    }

    /** The pattern half of RemoveMethod, for a registered pattern string, subtracting with the corrected Minus (Finding 1). */
    method RemovePattern(address: string, pair: ActionPair) returns (r: Result<bool>)
      requires Valid() && address in patternStringToIndex
      modifies this, patterns, patternMethods
      ensures Valid()
      ensures addressToMethod == old(addressToMethod)
      ensures patterns == old(patterns) && patternMethods == old(patternMethods)
      ensures PatternSlotReleased(address, pair, r, old(patterns[..]), old(patternMethods[..]),
                                  old(patternCount), old(freedPatternIndices), old(patternStringToIndex))
    {
      var patternIndex := patternStringToIndex[address];
      var slot := patternMethods[patternIndex].value;
      var diff := Minus(slot, pair);
      var single := |slot.valueRead| == 1;
      if !single && diff.Err? {
        return Err(diff.error);
      }
      ReleaseSlot(address, single, if single then slot else diff.value);
      return Ok(true);
    }

    /**
     * Empty (single) or overwrite with `rest` the slot of a registered
     * pattern, then release the slot: count down, queue it, forget the string.
     */
    method ReleaseSlot(address: string, single: bool, rest: ActionPair)
      requires Valid() && address in patternStringToIndex
      modifies this, patterns, patternMethods
      ensures Valid()
      ensures addressToMethod == old(addressToMethod)
      ensures patterns == old(patterns) && patternMethods == old(patternMethods)
      ensures var index := old(patternStringToIndex[address]);
        patterns[..] == (if single then old(patterns[..])[index := None] else old(patterns[..])) &&
        patternMethods[..] == old(patternMethods[..])[index := if single then None else Some(rest)] &&
        patternCount == old(patternCount) - 1 &&
        freedPatternIndices == old(freedPatternIndices) + [index] &&
        patternStringToIndex == old(patternStringToIndex) - {address}
    {
      var patternIndex := patternStringToIndex[address];
      ghost var ps, ms := patterns[..], patternMethods[..];
      ghost var count, freed, book := patternCount, freedPatternIndices, patternStringToIndex;
      patternCount := patternCount - 1;
      freedPatternIndices := freedPatternIndices + [patternIndex];
      patternStringToIndex := patternStringToIndex - {address};
      WriteSlot(patternIndex, single, rest);
      SlotBookRemove(ps, ms, book, count, freed, patterns.Length, address, single, rest);
      IndexBookRemove(count, freed, book, patterns.Length, address);
      assert IndexBook(patternCount, freedPatternIndices, patternStringToIndex, patterns.Length);
      assert SlotBook(patterns[..], patternMethods[..], patternStringToIndex);
    }

    /** The two array writes of ReleaseSlot. */
    method WriteSlot(index: int, single: bool, rest: ActionPair)
      requires 0 <= index < patterns.Length == patternMethods.Length
      modifies patterns, patternMethods
      ensures patterns[..] == (if single then old(patterns[..])[index := None] else old(patterns[..]))
      ensures patternMethods[..] == old(patternMethods[..])[index := if single then None else Some(rest)]
    {
      if single {
        patterns[index] := None;
        patternMethods[index] := None;
      } else {
        patternMethods[index] := Some(rest);
      }
    }

    /** `_addressToMethod.Add(address, pairs)`: the table gains the pairs under the address; the slots are untouched. */
    method AddMethods(address: string, pairs: seq<ActionPair>)
      modifies this
      ensures PatternsUnchanged()
      ensures addressToMethod == MethodsAddAll(old(addressToMethod), address, pairs)
    {
      addressToMethod := MethodsAddAll(addressToMethod, address, pairs);
    }

    /**
     * TryMatchPatternHandler as written: false and no change for an invalid
     * address. Otherwise the caller's list is cleared (and never filled), each
     * slot below patternCount whose pattern matches adds its pair to the table
     * under the address, and the result says whether any matched. An empty
     * slot below patternCount would be dereferenced; that crash is excluded by
     * the precondition.
     */
    method TryMatchPatternHandlerAsWritten(address: string, allMatchedMethods: seq<ActionPair>, m: Matcher)
      returns (any: bool, matchedAfter: seq<ActionPair>)
      requires Shaped() && (m.addressIsValid(address) ==> ScanReady())
      modifies this
      ensures PatternsUnchanged()
      ensures !m.addressIsValid(address) ==>
        !any && matchedAfter == allMatchedMethods && addressToMethod == old(addressToMethod)
      ensures m.addressIsValid(address) ==>
        matchedAfter == [] &&
        Occupied(patterns[..], patternMethods[..], patternCount) &&
        (any <==> AnyMatch(address, patterns[..], patternCount, m.isMatch)) &&
        addressToMethod == AddMatches(old(addressToMethod), address, patterns[..], patternMethods[..], patternCount, m.isMatch)
    {
      if !m.addressIsValid(address) {
        return false, allMatchedMethods;
      }
      matchedAfter := [];
      any := false;
      ghost var ps := patterns[..];
      ghost var ms := patternMethods[..];
      assert Occupied(ps, ms, patternCount);
      var i := 0;
      while i < patternCount
        invariant 0 <= i <= patternCount
        invariant PatternsUnchanged() && ps == patterns[..] && ms == patternMethods[..]
        invariant Occupied(ps, ms, i)
        invariant any <==> AnyMatch(address, ps, i, m.isMatch)
        invariant addressToMethod == AddMatches(old(addressToMethod), address, ps, ms, i, m.isMatch)
      {
        if m.isMatch(patterns[i].value, address) {
          var handler := patternMethods[i].value;
          addressToMethod := MethodsAdd(addressToMethod, address, handler);
          any := true;
        }
        i := i + 1;
      }
    }

    /**
     * TryMatchPatternHandler, corrected (Finding 5): as written, except that
     * every slot is visited and only a slot holding a registered pattern at
     * its own index is tried. A slot emptied by RemoveMethod neither crashes
     * the scan nor hides the patterns above it, and a slot whose pattern
     * RemoveMethod forgot while other handlers stayed is not matched.
     */
    method TryMatchPatternHandler(address: string, allMatchedMethods: seq<ActionPair>, m: Matcher)
      returns (any: bool, matchedAfter: seq<ActionPair>)
      requires Shaped()
      modifies this
      ensures PatternsUnchanged()
      ensures !m.addressIsValid(address) ==>
        !any && matchedAfter == allMatchedMethods && addressToMethod == old(addressToMethod)
      ensures m.addressIsValid(address) ==>
        matchedAfter == [] &&
        (any <==> LiveMatch(address, patterns[..], patternMethods[..], patternStringToIndex, patterns.Length, m.isMatch)) &&
        addressToMethod == AddLiveMatches(old(addressToMethod), address, patterns[..], patternMethods[..],
                                          patternStringToIndex, patterns.Length, m.isMatch)
      ensures m.addressIsValid(address) && Valid() ==>
        (any <==> exists p :: p in patternStringToIndex && m.isMatch(p, address))
    {
      if !m.addressIsValid(address) {
        return false, allMatchedMethods;
      }
      matchedAfter := [];
      any := false;
      ghost var ps := patterns[..];
      ghost var ms := patternMethods[..];
      var i := 0;
      while i < patterns.Length
        invariant 0 <= i <= patterns.Length
        invariant PatternsUnchanged() && ps == patterns[..] && ms == patternMethods[..]
        invariant any <==> LiveMatch(address, ps, ms, patternStringToIndex, i, m.isMatch)
        invariant addressToMethod == AddLiveMatches(old(addressToMethod), address, ps, ms, patternStringToIndex, i, m.isMatch)
      {
        if patterns[i].Some? && patternMethods[i].Some? && patterns[i].value in patternStringToIndex &&
           patternStringToIndex[patterns[i].value] == i && m.isMatch(patterns[i].value, address) {
          var handler := patternMethods[i].value;
          addressToMethod := MethodsAdd(addressToMethod, address, handler);
          any := true;
        }
        i := i + 1;
      }
      if Valid() {
        ScanTriesRegisteredPatterns(address, m.isMatch);
      }
    }

    /**
     * The corrected scan tries exactly the registered patterns: it finds a
     * match iff some pattern string registered in patternStringToIndex
     * matches the address ("all known patterns").
     */
    lemma ScanTriesRegisteredPatterns(address: string, isMatch: (string, string) -> bool)
      requires Valid()
      ensures LiveMatch(address, patterns[..], patternMethods[..], patternStringToIndex, patterns.Length, isMatch) <==>
        exists p :: p in patternStringToIndex && isMatch(p, address)
    {
      var ps, ms := patterns[..], patternMethods[..];
      if LiveMatch(address, ps, ms, patternStringToIndex, patterns.Length, isMatch) {
        var i :| 0 <= i < patterns.Length && LiveSlot(ps, ms, patternStringToIndex, i) && isMatch(ps[i].value, address);
        assert ps[i].value in patternStringToIndex;
      }
      if (exists p :: p in patternStringToIndex && isMatch(p, address)) {
        var p :| p in patternStringToIndex && isMatch(p, address);
        var i := patternStringToIndex[p];
        assert ps[i] == Some(p) && ms[i].Some?;
        assert LiveSlot(ps, ms, patternStringToIndex, i);
      }
    }
  }
}
