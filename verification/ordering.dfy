/**
 * Comparisons taken in the direction of a list's order, and what it means for
 * a chain of values to be sorted in that order.
 */
module Ordering {
  import opened OrderTypes
  import opened Values

  /** `a` lies strictly past `b` in order `o`: `a <=> b` is 1 for ASC, -1 for DESC. */
  predicate Beyond(o: Order, a: Value, b: Value)
    requires KindOf(a) == KindOf(b)
  {
    match o
    case Asc => Compare(a, b) > 0
    case Desc => Compare(a, b) < 0
  }

  /** `a` lies strictly ahead of `b` in order `o`: `a <=> b` is -1 for ASC, 1 for DESC. */
  predicate Before(o: Order, a: Value, b: Value)
    requires KindOf(a) == KindOf(b)
  {
    match o
    case Asc => Compare(a, b) < 0
    case Desc => Compare(a, b) > 0
  }

  /** Every value of `c` has kind `k`. */
  ghost predicate OfKind(c: seq<Value>, k: Kind)
  {
    forall i :: 0 <= i < |c| ==> KindOf(c[i]) == k
  }

  /** Read head to tail, `c` never steps backwards in order `o`. */
  ghost predicate Sorted(o: Order, c: seq<Value>)
  {
    forall i, j :: 0 <= i < j < |c| ==> KindOf(c[i]) == KindOf(c[j]) && !Beyond(o, c[i], c[j])
  }

  /** Being ahead of `b` is the same as `b` being past `a`. */
  lemma BeforeIsConverseOfBeyond(o: Order, a: Value, b: Value)
    requires KindOf(a) == KindOf(b)
    ensures Before(o, a, b) <==> Beyond(o, b, a)
  {
    CompareAntisymmetric(a, b);
  }

  /** Not stepping backwards is transitive, in both orders. */
  lemma NotBeyondTransitive(o: Order, a: Value, b: Value, c: Value)
    requires KindOf(a) == KindOf(b) == KindOf(c)
    requires !Beyond(o, a, b) && !Beyond(o, b, c)
    ensures !Beyond(o, a, c)
  {
    match o
    case Asc =>
      CompareTransitive(a, b, c);
    case Desc =>
      CompareAntisymmetric(a, b);
      CompareAntisymmetric(b, c);
      CompareAntisymmetric(a, c);
      CompareTransitive(c, b, a);
  }

  /** A value that is not past `b` and differs from it is strictly ahead of it. */
  lemma NotBeyondDistinctIsBefore(o: Order, a: Value, b: Value)
    requires KindOf(a) == KindOf(b)
    requires !Beyond(o, a, b) && a != b
    ensures Before(o, a, b)
  {
  }

  /** A value strictly past the last element of a sorted chain is past, hence unequal to, every element. */
  lemma PastLastIsPastAll(o: Order, c: seq<Value>, v: Value)
    requires Sorted(o, c) && OfKind(c, KindOf(v)) && |c| > 0
    requires Beyond(o, v, c[|c| - 1])
    ensures forall k :: 0 <= k < |c| ==> Before(o, c[k], v)
  {
    var last := c[|c| - 1];
    forall k | 0 <= k < |c|
      ensures Before(o, c[k], v)
    {
      BeforeIsConverseOfBeyond(o, last, v);
      if k < |c| - 1 {
        assert !Beyond(o, c[k], last);
        CompareAntisymmetric(c[k], last);
        CompareAntisymmetric(last, v);
        CompareAntisymmetric(c[k], v);
        match o
        case Asc => CompareTransitive(c[k], last, v);
        case Desc => CompareTransitive(v, last, c[k]);
      }
    }
  }

  /** A chain with one more value in front is of kind `k` when both parts are. */
  lemma OfKindCons(x: Value, t: seq<Value>, k: Kind)
    ensures OfKind([x] + t, k) <==> KindOf(x) == k && OfKind(t, k)
  {
    var c := [x] + t;
    assert c[0] == x;
    assert forall i :: 0 <= i < |t| ==> c[i + 1] == t[i];
  }

  /** A sorted chain with one more value in front. */
  lemma SortedCons(o: Order, x: Value, t: seq<Value>)
    ensures Sorted(o, [x] + t) <==>
      Sorted(o, t) && forall k :: 0 <= k < |t| ==> KindOf(x) == KindOf(t[k]) && !Beyond(o, x, t[k])
  {
    var c := [x] + t;
    if Sorted(o, c) {
      forall i, j | 0 <= i < j < |t|
        ensures KindOf(t[i]) == KindOf(t[j]) && !Beyond(o, t[i], t[j])
      {
        assert c[i + 1] == t[i] && c[j + 1] == t[j];
      }
      forall k | 0 <= k < |t|
        ensures KindOf(x) == KindOf(t[k]) && !Beyond(o, x, t[k])
      {
        assert c[0] == x && c[k + 1] == t[k];
      }
    }
  }
}
