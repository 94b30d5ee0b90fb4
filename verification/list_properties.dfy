/**
 * Properties of the list that relate several calls, or relate an operation
 * to an independent description of what it should do.
 */
module ListProperties {
  import opened Wrappers
  import opened OrderTypes
  import opened Values
  import opened Ordering
  import opened Chains
  import opened LinkedList

  /** Every value of a valid, non-empty list has the locked kind. */
  lemma MemberHasLockedKind(s: ListState, v: Value)
    requires Valid(s) && v in Elements(s)
    ensures s.lock == Some(KindOf(v))
  {
    var i :| 0 <= i < |Elements(s)| && Elements(s)[i] == v;
  }

  /** `contains` finds every value the list holds, and changes nothing. */
  lemma ContainsFindsMember(s: ListState, v: Value)
    requires Valid(s) && v in Elements(s)
    ensures Contains(s, v) == Ok((true, s))
  {
    MemberHasLockedKind(s, v);
  }

  /** `contains` of an absent value of the locked kind is false, and changes nothing. */
  lemma ContainsMissesNonMember(s: ListState, v: Value)
    requires Valid(s) && s.lock == Some(KindOf(v)) && v !in Elements(s)
    ensures Contains(s, v) == Ok((false, s))
  {
  }

  /**
   * A successful `add` makes the new value the first of its equals: every
   * element ahead of it is strictly ahead, so it lands before older equal values.
   */
  lemma AddLandsBeforeEquals(s: ListState, v: Value)
    requires Valid(s) && Add(s, v).Ok?
    ensures var c := Elements(Add(s, v).value);
      && v in c
      && IndexOf(c, v) == FirstNotExceeded(s.order, Elements(s), v)
      && forall k :: 0 <= k < IndexOf(c, v) ==> KindOf(c[k]) == KindOf(v) && Before(s.order, c[k], v)
  {
    var t := Elements(s);
    var p := FirstNotExceeded(s.order, t, v);
    var c := Elements(Add(s, v).value);
    assert c[p] == v;
    forall k | 0 <= k < p
      ensures c[k] != v && Before(s.order, c[k], v)
    {
      assert c[k] == t[k];
      BeforeIsConverseOfBeyond(s.order, t[k], v);
    }
  }

  /** An `add` of the locked kind, or any `add` on an unlocked list, succeeds. */
  lemma AddOfLockedKindSucceeds(s: ListState, v: Value)
    requires Valid(s)
    requires s.lock.None? || s.lock == Some(KindOf(v))
    ensures Add(s, v).Ok?
  {
  }

  /** A successful `add` holds the old contents plus exactly one occurrence of the value. */
  lemma AddContents(s: ListState, v: Value)
    requires Valid(s) && Add(s, v).Ok?
    ensures multiset(Elements(Add(s, v).value)) == multiset(Elements(s)) + multiset{v}
  {
  }

  /** `add` of each value in turn, stopping at the first failure (the demo driver's sequence of calls). */
  function AddAll(s: ListState, vs: seq<Value>): (r: Result<ListState, Error>)
    requires Valid(s)
    ensures r.Ok? ==> Valid(r.value) && r.value.order == s.order
    ensures r.Ok? ==> r.value.count == s.count + |vs|
    decreases |vs|
  {
    if |vs| == 0 then Ok(s)
    else
      match Add(s, vs[0])
      case Err(e) => Err(e)
      case Ok(s') => AddAll(s', vs[1..])
  }

  lemma MultisetSplitHead(vs: seq<Value>)
    requires |vs| > 0
    ensures multiset(vs) == multiset{vs[0]} + multiset(vs[1..])
  {
    assert vs == [vs[0]] + vs[1..];
  }

  /**
   * Round trip: after adding `vs`, the list holds exactly the old contents
   * plus the multiset of `vs`, sorted in the list's order.
   */
  lemma {:induction false} AddAllContents(s: ListState, vs: seq<Value>)
    requires Valid(s) && AddAll(s, vs).Ok?
    ensures Sorted(s.order, Elements(AddAll(s, vs).value))
    ensures multiset(Elements(AddAll(s, vs).value)) == multiset(Elements(s)) + multiset(vs)
    decreases |vs|
  {
    if |vs| > 0 {
      var s' := Add(s, vs[0]).value;
      assert AddAll(s, vs) == AddAll(s', vs[1..]);
      AddContents(s, vs[0]);
      AddAllContents(s', vs[1..]);
      MultisetSplitHead(vs);
    }
  }

  /** Adding values of one kind to a list unlocked or locked to that kind always succeeds. */
  lemma {:induction false} AddAllOfOneKindSucceeds(s: ListState, vs: seq<Value>, k: Kind)
    requires Valid(s) && OfKind(vs, k)
    requires s.lock.None? || s.lock == Some(k)
    ensures AddAll(s, vs).Ok?
    decreases |vs|
  {
    if |vs| > 0 {
      var s' := Add(s, vs[0]).value;
      assert OfKind(vs[1..], k) by {
        assert forall i :: 0 <= i < |vs[1..]| ==> vs[1..][i] == vs[i + 1];
      }
      AddAllOfOneKindSucceeds(s', vs[1..], k);
    }
  }

  /** On a sorted chain holding `v`, the element `removeByValue` targets is the first occurrence of `v`. */
  lemma RemovalIndexOfMember(o: Order, c: seq<Value>, v: Value)
    requires Sorted(o, c) && OfKind(c, KindOf(v)) && v in c
    ensures RemovalIndex(o, c, v) == IndexOf(c, v)
  {
    if c[0] != v {
      IndexOfTail(c, v);
      SortedTail(o, c, KindOf(v));
      FirstNotBeforeFindsFirstOccurrence(o, c[1..], v);
    }
  }

  /**
   * `removeByValue` of a value the list holds returns true and unlinks exactly
   * its first occurrence, keeping the rest in order.
   */
  lemma RemovePresentUnlinksFirstOccurrence(s: ListState, v: Value)
    requires Valid(s) && v in Elements(s)
    ensures var r := RemoveByValue(s, v);
      && r.Ok? && r.value.0
      && Elements(r.value.1) == RemoveAt(Elements(s), IndexOf(Elements(s), v))
      && r.value.1.count == s.count - 1
  {
    MemberHasLockedKind(s, v);
    RemovalIndexOfMember(s.order, Elements(s), v);
  }

  /** A target strictly past the last element is not found: false, nothing changes. */
  lemma RemovePastLastIsNoOp(s: ListState, v: Value)
    requires Valid(s) && s.lock == Some(KindOf(v)) && |Elements(s)| > 0
    requires Beyond(s.order, v, Elements(s)[|Elements(s)| - 1])
    ensures RemoveByValue(s, v) == Ok((false, s))
  {
    var c := Elements(s);
    PastLastIsPastAll(s.order, c, v);
    assert Before(s.order, c[0], v);
    assert c[0] != v;
  }

  /** A one-element list whose element differs from the target is left alone. */
  lemma RemoveFromSingletonMismatchIsNoOp(s: ListState, v: Value)
    requires Valid(s) && s.lock == Some(KindOf(v))
    requires |Elements(s)| == 1 && Elements(s)[0] != v
    ensures RemoveByValue(s, v) == Ok((false, s))
  {
  }

  /**
   * `removeByValue` of an absent value on a list of two or more elements
   * still unlinks something whenever some non-head element is not strictly
   * ahead of the target: the first such element, which differs from the target.
   */
  lemma RemoveAbsentUnlinksFirstNotAhead(s: ListState, v: Value)
    requires Valid(s) && s.lock == Some(KindOf(v)) && |Elements(s)| >= 2
    requires v !in Elements(s)
    ensures var c := Elements(s);
      var r := RemoveByValue(s, v);
      var q := RemovalIndex(s.order, c, v);
      && r.Ok? && 1 <= q
      && (forall k :: 1 <= k < q ==> Before(s.order, c[k], v))
      && (q < |c| ==> r.value.0 && c[q] != v && !Before(s.order, c[q], v)
                      && Elements(r.value.1) == RemoveAt(c, q))
      && (q == |c| ==> r == Ok((false, s)))
  {
    var c := Elements(s);
    var q' := FirstNotBefore(s.order, c[1..], v);
    assert c[0] != v;
    assert RemovalIndex(s.order, c, v) == 1 + q';
    forall k | 1 <= k < 1 + q'
      ensures Before(s.order, c[k], v)
    {
      assert c[1..][k - 1] == c[k];
    }
    if q' < |c| - 1 {
      assert c[1..][q'] == c[q' + 1];
    }
  }

  /** Emptying a list by removals keeps its kind lock: a later `add` of the other kind still fails. */
  lemma LockSurvivesEmptying(s: ListState, v: Value, w: Value)
    requires Valid(s) && Elements(s) == [v]
    requires KindOf(w) != KindOf(v)
    ensures var r := RemoveByValue(s, v);
      && r.Ok? && r.value.0 && Elements(r.value.1) == []
      && Add(r.value.1, w) == Err(TypeMismatch(KindOf(w), KindOf(v)))
  {
    MemberHasLockedKind(s, v);
    assert v in Elements(s);
    RemovePresentUnlinksFirstOccurrence(s, v);
  }

  /** A full iteration yields the list's values head to tail, as many as `count` says, and changes nothing. */
  lemma IterationYieldsElements(s: ListState)
    requires Valid(s)
    ensures Drain(Iterate(s)) == Elements(s)
    ensures |Drain(Iterate(s))| == Count(s)
  {
  }
}
