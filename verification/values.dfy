/** The two kinds of value a list may hold, and the three-way comparison on them. */
module Values {

  /** The kind a list locks on its first insertion (`gettype` of the value). */
  datatype Kind = IntKind | StrKind

  /** A list element: an integer or a string. */
  datatype Value = IntV(i: int) | StrV(s: string)

  function KindOf(v: Value): Kind
  {
    match v
    case IntV(_) => IntKind
    case StrV(_) => StrKind
  }

  /** Byte-wise string comparison: a proper prefix sorts first, otherwise the first differing character decides. */
  function LexCompare(a: string, b: string): (r: int)
    ensures -1 <= r <= 1
    ensures r == 0 <==> a == b
    decreases |a|
  {
    if |a| == 0 && |b| == 0 then 0
    else if |a| == 0 then -1
    else if |b| == 0 then 1
    else if a[0] < b[0] then -1
    else if a[0] > b[0] then 1
    else
      assert a == [a[0]] + a[1..] && b == [b[0]] + b[1..];
      LexCompare(a[1..], b[1..])
  }

  lemma {:induction false} LexCompareAntisymmetric(a: string, b: string)
    ensures LexCompare(a, b) == -LexCompare(b, a)
    decreases |a|
  {
    if |a| > 0 && |b| > 0 && a[0] == b[0] {
      LexCompareAntisymmetric(a[1..], b[1..]);
    }
  }

  lemma {:induction false} LexCompareTransitive(a: string, b: string, c: string)
    requires LexCompare(a, b) <= 0 && LexCompare(b, c) <= 0
    ensures LexCompare(a, c) <= 0
    decreases |a|
  {
    if |a| > 0 && |b| > 0 && |c| > 0 && a[0] == b[0] && b[0] == c[0] {
      LexCompareTransitive(a[1..], b[1..], c[1..]);
    }
  }

  /**
   * Byte order on strings, stated directly: `a` is a proper prefix of `b`, or
   * the first position where they differ holds a smaller character in `a`.
   */
  predicate LexLess(a: string, b: string)
  {
    || (|a| < |b| && a == b[..|a|])
    || (exists k :: 0 <= k < |a| && k < |b| && a[..k] == b[..k] && a[k] < b[k])
  }

  /** Strings that start alike are ordered as their remainders are. */
  lemma LexLessTail(a: string, b: string)
    requires |a| > 0 && |b| > 0 && a[0] == b[0]
    ensures LexLess(a, b) <==> LexLess(a[1..], b[1..])
  {
    var a', b' := a[1..], b[1..];
    if |a| < |b| && a == b[..|a|] {
      assert a' == b'[..|a'|];
    }
    if |a'| < |b'| && a' == b'[..|a'|] {
      assert a == [a[0]] + a' && b[..|a|] == [b[0]] + b'[..|a'|];
    }
    if k :| 0 <= k < |a| && k < |b| && a[..k] == b[..k] && a[k] < b[k] {
      assert k != 0;
      assert a'[..k - 1] == a[..k][1..] && b'[..k - 1] == b[..k][1..];
      assert a'[k - 1] < b'[k - 1];
    }
    if k :| 0 <= k < |a'| && k < |b'| && a'[..k] == b'[..k] && a'[k] < b'[k] {
      assert a[..k + 1] == [a[0]] + a'[..k] && b[..k + 1] == [b[0]] + b'[..k];
      assert a[k + 1] < b[k + 1];
    }
  }

  /** A string that precedes another starts with a character no larger than the other's first. */
  lemma LexLessHeads(a: string, b: string)
    requires |a| > 0 && |b| > 0
    ensures LexLess(a, b) ==> a[0] <= b[0]
  {
    if |a| < |b| && a == b[..|a|] {
      assert a[0] == b[..|a|][0];
    } else if k :| 0 <= k < |a| && k < |b| && a[..k] == b[..k] && a[k] < b[k] {
      if k > 0 {
        assert a[..k][0] == b[..k][0];
      }
    }
  }

  /** `LexCompare` is negative exactly when `a` precedes `b` in byte order. */
  lemma {:induction false} LexCompareIsLexicographic(a: string, b: string)
    ensures LexCompare(a, b) < 0 <==> LexLess(a, b)
    decreases |a|
  {
    if |a| == 0 {
      assert |b| > 0 ==> a == b[..0];
    } else if |b| == 0 {
    } else if a[0] < b[0] {
      assert a[..0] == b[..0];
    } else if a[0] > b[0] {
      LexLessHeads(a, b);
    } else {
      assert a == [a[0]] + a[1..] && b == [b[0]] + b[1..];
      LexCompareIsLexicographic(a[1..], b[1..]);
      LexLessTail(a, b);
    }
  }

  /** The spaceship operator `$a <=> $b` on two values of the same kind. */
  function Compare(a: Value, b: Value): (r: int)
    requires KindOf(a) == KindOf(b)
    ensures -1 <= r <= 1
    ensures r == 0 <==> a == b
    ensures a.IntV? ==> (r < 0 <==> a.i < b.i) && (r > 0 <==> a.i > b.i)
  {
    match a
    case IntV(x) => if x < b.i then -1 else if x > b.i then 1 else 0
    case StrV(x) => LexCompare(x, b.s)
  }

  /** On strings, `<=>` is byte order: negative exactly when the left operand precedes, positive exactly when it follows. */
  lemma CompareStringsInByteOrder(a: Value, b: Value)
    requires a.StrV? && b.StrV?
    ensures Compare(a, b) < 0 <==> LexLess(a.s, b.s)
    ensures Compare(a, b) > 0 <==> LexLess(b.s, a.s)
  {
    LexCompareIsLexicographic(a.s, b.s);
    LexCompareIsLexicographic(b.s, a.s);
    LexCompareAntisymmetric(a.s, b.s);
  }

  /** Swapping the operands negates the comparison. */
  lemma CompareAntisymmetric(a: Value, b: Value)
    requires KindOf(a) == KindOf(b)
    ensures Compare(a, b) == -Compare(b, a)
  {
    if a.StrV? {
      LexCompareAntisymmetric(a.s, b.s);
    }
  }

  /** "At most" is transitive. */
  lemma CompareTransitive(a: Value, b: Value, c: Value)
    requires KindOf(a) == KindOf(b) == KindOf(c)
    requires Compare(a, b) <= 0 && Compare(b, c) <= 0
    ensures Compare(a, c) <= 0
  {
    if a.StrV? {
      LexCompareTransitive(a.s, b.s, c.s);
    }
  }
}
