/**
 * Reference definitions on plain sequences of values: where an insertion or a
 * removal lands, and what splicing a value in or out does to a chain.
 */
module Chains {
  import opened OrderTypes
  import opened Values
  import opened Ordering

  /** `t` with `v` spliced in at position `p`. */
  function InsertAt(t: seq<Value>, p: nat, v: Value): (r: seq<Value>)
    requires p <= |t|
    ensures |r| == |t| + 1 && r[p] == v
    ensures forall k :: 0 <= k < p ==> r[k] == t[k]
    ensures forall k :: p < k < |r| ==> r[k] == t[k - 1]
    ensures multiset(r) == multiset(t) + multiset{v}
  {
    assert t == t[..p] + t[p..];
    t[..p] + [v] + t[p..]
  }

  /** Splicing in at position 0 is prepending. */
  lemma InsertAtFront(t: seq<Value>, v: Value)
    ensures InsertAt(t, 0, v) == [v] + t
  {
    assert t[..0] == [] && t[0..] == t;
  }

  /** `t` with the value at position `q` unlinked. */
  function RemoveAt(t: seq<Value>, q: nat): (r: seq<Value>)
    requires q < |t|
    ensures |r| == |t| - 1
    ensures forall k :: 0 <= k < q ==> r[k] == t[k]
    ensures forall k :: q <= k < |r| ==> r[k] == t[k + 1]
    ensures multiset(r) == multiset(t) - multiset{t[q]}
  {
    assert t == t[..q] + [t[q]] + t[q + 1..];
    t[..q] + t[q + 1..]
  }

  /** Unlinking at position 0 is dropping the head. */
  lemma RemoveAtFront(t: seq<Value>)
    requires |t| > 0
    ensures RemoveAt(t, 0) == t[1..]
  {
    assert t[..0] == [];
  }

  /** The position of the first value of `t` that `v` does not lie past (or `|t|`). */
  ghost function FirstNotExceeded(o: Order, t: seq<Value>, v: Value): (p: nat)
    requires OfKind(t, KindOf(v))
    ensures p <= |t|
    ensures forall k :: 0 <= k < p ==> Beyond(o, v, t[k])
    ensures p < |t| ==> !Beyond(o, v, t[p])
    decreases |t|
  {
    if |t| == 0 || !Beyond(o, v, t[0]) then 0
    else 1 + FirstNotExceeded(o, t[1..], v)
  }

  /** The position of the first value of `t` that is not strictly ahead of `v` (or `|t|`). */
  ghost function FirstNotBefore(o: Order, t: seq<Value>, v: Value): (q: nat)
    requires OfKind(t, KindOf(v))
    ensures q <= |t|
    ensures forall k :: 0 <= k < q ==> Before(o, t[k], v)
    ensures q < |t| ==> !Before(o, t[q], v)
    decreases |t|
  {
    if |t| == 0 || !Before(o, t[0], v) then 0
    else 1 + FirstNotBefore(o, t[1..], v)
  }

  /** The position of the first occurrence of `v` in `t`. */
  ghost function IndexOf(t: seq<Value>, v: Value): (k: nat)
    requires v in t
    ensures k < |t| && t[k] == v
    ensures forall j :: 0 <= j < k ==> t[j] != v
    decreases |t|
  {
    if t[0] == v then 0
    else
      assert v in t[1..] by {
        var i :| 0 <= i < |t| && t[i] == v;
        assert t[1..][i - 1] == v;
      }
      1 + IndexOf(t[1..], v)
  }

  /** The first occurrence in a chain whose head differs is one past the first occurrence in its tail. */
  lemma IndexOfTail(t: seq<Value>, v: Value)
    requires v in t && t[0] != v
    ensures v in t[1..] && IndexOf(t, v) == 1 + IndexOf(t[1..], v)
  {
  }

  /** Dropping the head keeps a chain sorted and of one kind. */
  lemma SortedTail(o: Order, t: seq<Value>, k: Kind)
    requires |t| > 0 && Sorted(o, t) && OfKind(t, k)
    ensures Sorted(o, t[1..]) && OfKind(t[1..], k)
  {
    assert forall i :: 0 <= i < |t[1..]| ==> t[1..][i] == t[i + 1];
  }

  lemma InsertAtCons(t: seq<Value>, p: nat, v: Value)
    requires 0 < |t| && p <= |t| - 1
    ensures InsertAt(t, p + 1, v) == [t[0]] + InsertAt(t[1..], p, v)
  {
  }

  lemma RemoveAtCons(t: seq<Value>, q: nat)
    requires q < |t| - 1
    ensures RemoveAt(t, q + 1) == [t[0]] + RemoveAt(t[1..], q)
  {
  }

  /** When `v` lies past the head of `t`, its insertion position is one past its position in the tail. */
  lemma FirstNotExceededCons(o: Order, t: seq<Value>, v: Value)
    requires |t| > 0 && OfKind(t, KindOf(v)) && Beyond(o, v, t[0])
    ensures OfKind(t[1..], KindOf(v))
    ensures FirstNotExceeded(o, t, v) == 1 + FirstNotExceeded(o, t[1..], v)
  {
  }

  /** When the head of `t` is strictly ahead of `v`, the removal walk's stop is one past its stop in the tail. */
  lemma FirstNotBeforeCons(o: Order, t: seq<Value>, v: Value)
    requires |t| > 0 && OfKind(t, KindOf(v)) && Before(o, t[0], v)
    ensures OfKind(t[1..], KindOf(v))
    ensures FirstNotBefore(o, t, v) == 1 + FirstNotBefore(o, t[1..], v)
  {
  }

  /**
   * Unlinking at `q + 1` in `t` keeps the head and unlinks at `q` in the tail;
   * `q == |t| - 1` stands for "nothing to unlink" on both sides.
   */
  lemma RemoveBehindHead(t: seq<Value>, q: nat, removed: bool, u: seq<Value>)
    requires 0 < |t| && q <= |t| - 1
    requires removed <==> q < |t| - 1
    requires u == [t[0]] + (if q < |t| - 1 then RemoveAt(t[1..], q) else t[1..])
    ensures removed <==> q + 1 < |t|
    ensures u == (if q + 1 < |t| then RemoveAt(t, q + 1) else t)
  {
    if q < |t| - 1 {
      RemoveAtCons(t, q);
    } else {
      assert [t[0]] + t[1..] == t;
    }
  }

  /** Inserting a value before the first element it does not exceed keeps a sorted chain sorted. */
  lemma InsertAtKeepsSorted(o: Order, t: seq<Value>, v: Value)
    requires Sorted(o, t) && OfKind(t, KindOf(v))
    ensures Sorted(o, InsertAt(t, FirstNotExceeded(o, t, v), v))
    ensures OfKind(InsertAt(t, FirstNotExceeded(o, t, v), v), KindOf(v))
  {
    var p := FirstNotExceeded(o, t, v);
    var r := InsertAt(t, p, v);
    forall i, j | 0 <= i < j < |r|
      ensures KindOf(r[i]) == KindOf(r[j]) && !Beyond(o, r[i], r[j])
    {
      if j < p {
        assert r[i] == t[i] && r[j] == t[j];
      } else if j == p {
        assert r[i] == t[i];
        BeforeIsConverseOfBeyond(o, t[i], v);
        CompareAntisymmetric(t[i], v);
      } else if i < p {
        assert r[i] == t[i] && r[j] == t[j - 1];
      } else if i == p {
        assert r[j] == t[j - 1];
        if j - 1 > p {
          NotBeyondTransitive(o, v, t[p], t[j - 1]);
        }
      } else {
        assert r[i] == t[i - 1] && r[j] == t[j - 1];
      }
    }
  }

  /** Unlinking any element keeps a sorted chain sorted and of one kind. */
  lemma RemoveAtKeepsSorted(o: Order, t: seq<Value>, q: nat, k: Kind)
    requires q < |t|
    requires Sorted(o, t) && OfKind(t, k)
    ensures Sorted(o, RemoveAt(t, q)) && OfKind(RemoveAt(t, q), k)
  {
    var r := RemoveAt(t, q);
    forall i, j | 0 <= i < j < |r|
      ensures KindOf(r[i]) == KindOf(r[j]) && !Beyond(o, r[i], r[j])
    {
      var i' := if i < q then i else i + 1;
      var j' := if j < q then j else j + 1;
      assert r[i] == t[i'] && r[j] == t[j'];
    }
  }

  /** In a sorted chain holding `v`, the walk that stops at the first value not ahead of `v` stops at its first occurrence. */
  lemma FirstNotBeforeFindsFirstOccurrence(o: Order, t: seq<Value>, v: Value)
    requires Sorted(o, t) && OfKind(t, KindOf(v)) && v in t
    ensures FirstNotBefore(o, t, v) == IndexOf(t, v)
  {
    var k := IndexOf(t, v);
    var q := FirstNotBefore(o, t, v);
    forall j | 0 <= j < k
      ensures Before(o, t[j], v)
    {
      NotBeyondDistinctIsBefore(o, t[j], v);
    }
    assert !Before(o, t[k], v);
  }
}
