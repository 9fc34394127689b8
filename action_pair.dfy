/**
 * OscActionPair: the two callbacks bound to an OSC address, and the .NET
 * delegate arithmetic its `+` and `-` operators are built from.
 *
 * A delegate is modelled by its invocation list: a sequence of opaque callback
 * identities, with the empty list standing for `null`.
 */
module ActionPairs {
  import opened Results

  /** The identity of one delegate target (method and receiver); nothing else about it is modelled. */
  type Callback = nat

  /** A delegate's invocation list; `[]` is the null delegate. */
  type Delegate = seq<Callback>

  // ---------------------------------------------------------------------------
  // Delegate.Combine and Delegate.Remove
  // ---------------------------------------------------------------------------

  /** Delegate.Combine: the invocation lists one after the other (null is the empty list). */
  function Combine(a: Delegate, b: Delegate): (c: Delegate)
    ensures |c| == |a| + |b| && c[..|a|] == a && c[|a|..] == b
  {
    a + b
  }

  /** `part` occurs as a contiguous run of `whole` starting at `at`. */
  predicate OccursAt(whole: Delegate, part: Delegate, at: int) {
    0 <= at && at + |part| <= |whole| && whole[at..at + |part|] == part
  }

  /**
   * The search MulticastDelegate.RemoveImpl performs: from position k downwards,
   * the first (so the last in the list) position where `part` occurs, or -1.
   */
  function FindLast(whole: Delegate, part: Delegate, k: int): (i: int)
    requires k <= |whole| - |part|
    ensures -1 <= i && (k >= 0 ==> i <= k) && (k < 0 ==> i == -1)
    ensures i >= 0 ==> OccursAt(whole, part, i)
    ensures forall j :: i < j <= k && OccursAt(whole, part, j) ==> false
    decreases if k < 0 then 0 else k + 1
  {
    if k < 0 then -1
    else if whole[k..k + |part|] == part then k
    else FindLast(whole, part, k - 1)
  }

  /** Delegate.Remove: drop the last occurrence of `value`'s list from `source`'s; removing null changes nothing. */
  function Remove(source: Delegate, value: Delegate): (r: Delegate)
  {
    if value == [] then source
    else
      var i := FindLast(source, value, |source| - |value|);
      if i < 0 then source else source[..i] + source[i + |value|..]
  }

  /**
   * What Remove does, stated without the search: when `value` occurs, the
   * result is `source` with its LAST occurrence cut out; otherwise `source`.
   */
  lemma RemoveCutsLastOccurrence(source: Delegate, value: Delegate)
    requires value != []
    ensures (forall j :: !OccursAt(source, value, j)) ==> Remove(source, value) == source
    ensures forall i :: OccursAt(source, value, i) && (forall j :: i < j && OccursAt(source, value, j) ==> false) ==>
      Remove(source, value) == source[..i] + source[i + |value|..]
  {
    var k := FindLast(source, value, |source| - |value|);
    forall i | OccursAt(source, value, i) && (forall j :: i < j && OccursAt(source, value, j) ==> false)
      ensures Remove(source, value) == source[..i] + source[i + |value|..]
    {
      assert i <= |source| - |value|;
      assert k == i;
    }
  }

  /** Removing what was just appended gives back the original list. */
  lemma RemoveUndoesCombine(a: Delegate, b: Delegate)
    ensures Remove(Combine(a, b), b) == a
  {
    if b != [] {
      var whole := Combine(a, b);
      assert whole[|a|..|a| + |b|] == b;
      assert FindLast(whole, b, |whole| - |b|) == |a|;
      assert whole[..|a|] == a;
    }
  }

  /** Remove never adds a callback: the result's callbacks are among the source's, as a multiset. */
  lemma RemoveShrinks(source: Delegate, value: Delegate)
    ensures multiset(Remove(source, value)) <= multiset(source)
    ensures |Remove(source, value)| <= |source|
  {
    if value != [] {
      var i := FindLast(source, value, |source| - |value|);
      if i >= 0 {
        assert source == source[..i] + source[i..i + |value|] + source[i + |value|..];
      }
    }
  }

  // ---------------------------------------------------------------------------
  // OscActionPair
  // ---------------------------------------------------------------------------

  datatype Pair = Pair(valueRead: Delegate, mainThreadQueued: Delegate)

  /** An OscActionPair: the constructor guarantees the value-read delegate is not null. */
  type ActionPair = p: Pair | p.valueRead != [] witness Pair([0], [])

  /** The constructor: a null value-read delegate throws ArgumentNullException; the main-thread one may be null. */
  function New(valueRead: Delegate, mainThreadQueued: Delegate): (r: Result<ActionPair>)
    ensures r.Err? <==> valueRead == []
    ensures r.Err? ==> r.error == ArgumentNull
    ensures r.Ok? ==> r.value.valueRead == valueRead && r.value.mainThreadQueued == mainThreadQueued
  {
    if valueRead == [] then Err(ArgumentNull) else Ok(Pair(valueRead, mainThreadQueued))
  }

  /** Deconstruct: the two delegates, value-read first. */
  function Deconstruct(p: ActionPair): (parts: (Delegate, Delegate))
    ensures New(parts.0, parts.1) == Ok(p)
  {
    (p.valueRead, p.mainThreadQueued)
  }

  /** Deconstructing a constructed pair gives back its arguments. */
  lemma DeconstructRoundTrip(valueRead: Delegate, mainThreadQueued: Delegate)
    ensures valueRead != [] ==> Deconstruct(New(valueRead, mainThreadQueued).value) == (valueRead, mainThreadQueued)
  {
  }

  /** `l + r`: value-read lists concatenated; r's main-thread delegate when l has none, else both combined. */
  function Plus(l: ActionPair, r: ActionPair): (sum: ActionPair)
    ensures sum.valueRead == l.valueRead + r.valueRead
    ensures sum.mainThreadQueued == l.mainThreadQueued + r.mainThreadQueued
  {
    var mainThread := if l.mainThreadQueued == [] then r.mainThreadQueued else Combine(l.mainThreadQueued, r.mainThreadQueued);
    var valueRead := Combine(l.valueRead, r.valueRead);
    assert [] + r.mainThreadQueued == r.mainThreadQueued;
    New(valueRead, mainThread).value
  }

  /** `+` is associative, whether or not the left pair's main-thread list is null. */
  lemma PlusAssociative(l: ActionPair, r: ActionPair, s: ActionPair)
    ensures Plus(Plus(l, r), s) == Plus(l, Plus(r, s))
  {
    var left, right := Plus(Plus(l, r), s), Plus(l, Plus(r, s));
    assert left.valueRead == l.valueRead + r.valueRead + s.valueRead == right.valueRead;
    assert left.mainThreadQueued == l.mainThreadQueued + r.mainThreadQueued + s.mainThreadQueued == right.mainThreadQueued;
  }

  /**
   * `l - r` as the source writes it: when l has no main-thread delegate the
   * result takes r's, otherwise r's is removed from l's; a value-read list
   * that becomes empty makes the constructor throw.
   */
  function MinusAsWritten(l: ActionPair, r: ActionPair): (diff: Result<ActionPair>)
    ensures diff.Err? <==> Remove(l.valueRead, r.valueRead) == []
    ensures diff.Ok? ==> diff.value.valueRead == Remove(l.valueRead, r.valueRead)
  {
    var mainThread := if l.mainThreadQueued == [] then r.mainThreadQueued else Remove(l.mainThreadQueued, r.mainThreadQueued);
    var valueRead := Remove(l.valueRead, r.valueRead);
    New(valueRead, mainThread)
  }

  /** Subtracting from a pair with no main-thread delegate hands it r's: l = ([1, 2], null), r = ([2], [7]). */
  lemma MinusAsWrittenAddsMainThread()
    ensures MinusAsWritten(Pair([1, 2], []), Pair([2], [7])) == Ok(Pair([1], [7]))
  {
    var whole: Delegate := [1, 2];
    assert whole[1..2] == [2];
    assert FindLast(whole, [2], 1) == 1;
    assert Remove(whole, [2]) == whole[..1] + whole[2..] == [1];
  }

  /** `l - r` with the null case removing nothing, as Delegate.Remove(null, x) does. */
  function Minus(l: ActionPair, r: ActionPair): (diff: Result<ActionPair>)
    ensures diff.Err? <==> Remove(l.valueRead, r.valueRead) == []
    ensures diff.Err? ==> diff.error == ArgumentNull
    ensures diff.Ok? ==> diff.value.valueRead == Remove(l.valueRead, r.valueRead)
    ensures diff.Ok? ==> multiset(diff.value.mainThreadQueued) <= multiset(l.mainThreadQueued)
  {
    RemoveShrinks(l.mainThreadQueued, r.mainThreadQueued);
    var mainThread := Remove(l.mainThreadQueued, r.mainThreadQueued);
    var valueRead := Remove(l.valueRead, r.valueRead);
    New(valueRead, mainThread)
  }

  /** Subtraction undoes addition: (l + r) - r is l, for both versions of `-`. */
  lemma MinusUndoesPlus(l: ActionPair, r: ActionPair)
    ensures Minus(Plus(l, r), r) == Ok(l)
    ensures MinusAsWritten(Plus(l, r), r) == Ok(l)
  {
    RemoveUndoesCombine(l.valueRead, r.valueRead);
    RemoveUndoesCombine(l.mainThreadQueued, r.mainThreadQueued);
    RemoveUndoesCombine([], r.mainThreadQueued);
    assert [] + r.mainThreadQueued == r.mainThreadQueued;
  }
}
