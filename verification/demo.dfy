/** The call sequences of the demonstration driver and the type test, as lemmas about concrete lists. */
module Demo {
  import opened Wrappers
  import opened OrderTypes
  import opened Values
  import opened Chains
  import opened LinkedList
  import opened ListProperties

  /** One `add` whose placement is already worked out. */
  lemma AddStep(s: ListState, v: Value, expected: seq<Value>) returns (s': ListState)
    requires Valid(s) && (s.lock.None? || s.lock == Some(KindOf(v)))
    requires InsertAt(Elements(s), FirstNotExceeded(s.order, Elements(s), v), v) == expected
    ensures Add(s, v) == Ok(s') && AddAll(s, [v]) == Ok(s')
    ensures Valid(s') && Elements(s') == expected
    ensures s'.order == s.order && s'.lock == Some(KindOf(v))
  {
    s' := Add(s, v).value;
  }

  lemma AddAllStep(s: ListState, v: Value, vs: seq<Value>, s': ListState)
    requires Valid(s) && Add(s, v) == Ok(s')
    ensures AddAll(s, [v] + vs) == AddAll(s', vs)
  {
    assert ([v] + vs)[1..] == vs;
  }

  /** Ascending placement of 2 into [10]: in front. */
  lemma PlaceTwo()
    ensures InsertAt([IntV(10)], FirstNotExceeded(Asc, [IntV(10)], IntV(2)), IntV(2)) == [IntV(2), IntV(10)]
  {
    assert FirstNotExceeded(Asc, [IntV(10)], IntV(2)) == 0;
  }

  /** Ascending placement of 7 into [2, 10]: between them. */
  lemma PlaceSeven()
    ensures InsertAt([IntV(2), IntV(10)], FirstNotExceeded(Asc, [IntV(2), IntV(10)], IntV(7)), IntV(7))
      == [IntV(2), IntV(7), IntV(10)]
  {
    var t := [IntV(2), IntV(10)];
    assert t[1..] == [IntV(10)];
    assert FirstNotExceeded(Asc, t[1..], IntV(7)) == 0;
    assert FirstNotExceeded(Asc, t, IntV(7)) == 1;
    assert InsertAt(t, 1, IntV(7)) == t[..1] + [IntV(7)] + t[1..];
  }

  /** Ascending placement of 1 into [2, 7, 10]: in front. */
  lemma PlaceOne()
    ensures InsertAt([IntV(2), IntV(7), IntV(10)], FirstNotExceeded(Asc, [IntV(2), IntV(7), IntV(10)], IntV(1)), IntV(1))
      == [IntV(1), IntV(2), IntV(7), IntV(10)]
  {
    assert FirstNotExceeded(Asc, [IntV(2), IntV(7), IntV(10)], IntV(1)) == 0;
  }

  /** Ascending integers 10, 2, 7, 1 come out as [1, 2, 7, 10]. */
  lemma AscendingIntegerBuild() returns (s: ListState)
    ensures AddAll(New(Asc), [IntV(10), IntV(2), IntV(7), IntV(1)]) == Ok(s)
    ensures Valid(s) && s.order == Asc && s.lock == Some(IntKind)
    ensures Elements(s) == [IntV(1), IntV(2), IntV(7), IntV(10)]
  {
    var s0 := New(Asc);
    var s1 := AddStep(s0, IntV(10), [IntV(10)]);
    PlaceTwo();
    var s2 := AddStep(s1, IntV(2), [IntV(2), IntV(10)]);
    PlaceSeven();
    var s3 := AddStep(s2, IntV(7), [IntV(2), IntV(7), IntV(10)]);
    PlaceOne();
    s := AddStep(s3, IntV(1), [IntV(1), IntV(2), IntV(7), IntV(10)]);
    AddAllStep(s2, IntV(7), [IntV(1)], s3);
    AddAllStep(s1, IntV(2), [IntV(7), IntV(1)], s2);
    AddAllStep(s0, IntV(10), [IntV(2), IntV(7), IntV(1)], s1);
  }

  /** On the ascending demonstration list, 7 is found and removing 23 changes nothing. */
  lemma AscendingIntegerQueries(s: ListState)
    requires Valid(s) && s.order == Asc && s.lock == Some(IntKind)
    requires Elements(s) == [IntV(1), IntV(2), IntV(7), IntV(10)]
    ensures Contains(s, IntV(7)) == Ok((true, s))
    ensures RemoveByValue(s, IntV(23)) == Ok((false, s))
  {
    assert Elements(s)[2] == IntV(7);
    ContainsFindsMember(s, IntV(7));
    RemovePastLastIsNoOp(s, IntV(23));
  }

  /** The ascending walk for 5 over [2, 7, 10] stops at 7, and for 0 at 2. */
  lemma WalkStops()
    ensures FirstNotBefore(Asc, [IntV(2), IntV(7), IntV(10)], IntV(5)) == 1
    ensures FirstNotBefore(Asc, [IntV(2), IntV(7), IntV(10)], IntV(0)) == 0
  {
    assert FirstNotBefore(Asc, [IntV(7), IntV(10)], IntV(5)) == 0;
    assert [IntV(2), IntV(7), IntV(10)][1..] == [IntV(7), IntV(10)];
  }

  /** On [1, 2, 7, 10], the removal walk for 5 unlinks index 2. */
  lemma FiveUnlinksIndexTwo(s: ListState)
    requires Valid(s) && s.order == Asc && s.lock == Some(IntKind)
    requires Elements(s) == [IntV(1), IntV(2), IntV(7), IntV(10)]
    ensures var r := RemoveByValue(s, IntV(5));
      r.Ok? && r.value.0 && Elements(r.value.1) == RemoveAt(Elements(s), 2)
  {
    assert Elements(s)[1..] == [IntV(2), IntV(7), IntV(10)];
    assert IntV(5) !in Elements(s);
    WalkStops();
    assert RemovalIndex(Asc, Elements(s), IntV(5)) == 2;
    RemoveAbsentUnlinksFirstNotAhead(s, IntV(5));
  }

  /** On [1, 2, 7, 10], the removal walk for 0 unlinks index 1. */
  lemma ZeroUnlinksIndexOne(s: ListState)
    requires Valid(s) && s.order == Asc && s.lock == Some(IntKind)
    requires Elements(s) == [IntV(1), IntV(2), IntV(7), IntV(10)]
    ensures var r := RemoveByValue(s, IntV(0));
      r.Ok? && r.value.0 && Elements(r.value.1) == RemoveAt(Elements(s), 1)
  {
    assert Elements(s)[1..] == [IntV(2), IntV(7), IntV(10)];
    assert IntV(0) !in Elements(s);
    WalkStops();
    assert RemovalIndex(Asc, Elements(s), IntV(0)) == 1;
    RemoveAbsentUnlinksFirstNotAhead(s, IntV(0));
  }

  lemma UnlinkedSeven()
    ensures RemoveAt([IntV(1), IntV(2), IntV(7), IntV(10)], 2) == [IntV(1), IntV(2), IntV(10)]
  {
  }

  lemma UnlinkedTwo()
    ensures RemoveAt([IntV(1), IntV(2), IntV(7), IntV(10)], 1) == [IntV(1), IntV(7), IntV(10)]
  {
  }

  /**
   * On [1, 2, 7, 10], removing the absent 5 unlinks 7: the walk never checks
   * that the element it unlinks matches the target.
   */
  lemma RemoveAbsentFiveUnlinksSeven(s: ListState)
    requires Valid(s) && s.order == Asc && s.lock == Some(IntKind)
    requires Elements(s) == [IntV(1), IntV(2), IntV(7), IntV(10)]
    ensures var r := RemoveByValue(s, IntV(5));
      r.Ok? && r.value.0 && Elements(r.value.1) == [IntV(1), IntV(2), IntV(10)]
  {
    FiveUnlinksIndexTwo(s);
    UnlinkedSeven();
  }

  /** On [1, 2, 7, 10], removing the absent 0 unlinks 2. */
  lemma RemoveAbsentZeroUnlinksTwo(s: ListState)
    requires Valid(s) && s.order == Asc && s.lock == Some(IntKind)
    requires Elements(s) == [IntV(1), IntV(2), IntV(7), IntV(10)]
    ensures var r := RemoveByValue(s, IntV(0));
      r.Ok? && r.value.0 && Elements(r.value.1) == [IntV(1), IntV(7), IntV(10)]
  {
    ZeroUnlinksIndexOne(s);
    UnlinkedTwo();
  }

  /** Descending placement of "B" into ["A"]: in front. */
  lemma PlaceB()
    ensures InsertAt([StrV("A")], FirstNotExceeded(Desc, [StrV("A")], StrV("B")), StrV("B")) == [StrV("B"), StrV("A")]
  {
    assert Compare(StrV("B"), StrV("A")) == 1;
  }

  /** Descending placement of "C" into ["B", "A"]: in front. */
  lemma PlaceC()
    ensures InsertAt([StrV("B"), StrV("A")], FirstNotExceeded(Desc, [StrV("B"), StrV("A")], StrV("C")), StrV("C"))
      == [StrV("C"), StrV("B"), StrV("A")]
  {
    assert Compare(StrV("C"), StrV("B")) == 1;
  }

  /** Descending texts "A", "B", "C" are kept as ["C", "B", "A"]. */
  lemma DescendingTextBuild() returns (s: ListState)
    ensures AddAll(New(Desc), [StrV("A"), StrV("B"), StrV("C")]) == Ok(s)
    ensures Valid(s) && Elements(s) == [StrV("C"), StrV("B"), StrV("A")]
  {
    var s0 := New(Desc);
    var s1 := AddStep(s0, StrV("A"), [StrV("A")]);
    PlaceB();
    var s2 := AddStep(s1, StrV("B"), [StrV("B"), StrV("A")]);
    PlaceC();
    s := AddStep(s2, StrV("C"), [StrV("C"), StrV("B"), StrV("A")]);
    AddAllStep(s1, StrV("B"), [StrV("C")], s2);
    AddAllStep(s0, StrV("A"), [StrV("B"), StrV("C")], s1);
  }

  /** Descending texts "A", "B", "C": first is "C", last is "A", contents ["C", "B", "A"]. */
  lemma DescendingTextDemo() returns (s: ListState)
    ensures AddAll(New(Desc), [StrV("A"), StrV("B"), StrV("C")]) == Ok(s)
    ensures First(s) == Ok(StrV("C"))
    ensures Last(s) == Ok(StrV("A"))
    ensures Elements(s) == [StrV("C"), StrV("B"), StrV("A")]
  {
    s := DescendingTextBuild();
  }

  /** Adding 2 and then "test" fails with a mismatch naming the rejected and the locked kind. */
  lemma MixedTypeDemo()
    ensures var r := Add(New(Asc), IntV(2));
      r.Ok? && Add(r.value, StrV("test")) == Err(TypeMismatch(StrKind, IntKind))
  {
  }
}
