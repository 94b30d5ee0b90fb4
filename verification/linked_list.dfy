/**
 * The self-ordering singly-linked list: a chain of cells kept sorted in a
 * fixed order, holding values of one kind only, locked by the first insertion.
 */
module LinkedList {
  import opened Wrappers
  import opened OrderTypes
  import opened Values
  import opened Ordering
  import opened Chains
  import opened Nodes

  /** What the list throws: a value of the other kind, or `first`/`last` on an empty list. */
  datatype Error = TypeMismatch(rejected: Kind, locked: Kind) | EmptyList

  /** The list object: fixed order, kind lock, head of the chain and element counter. */
  datatype ListState = ListState(order: Order, lock: Option<Kind>, head: Option<Node>, count: int)

  /** The values of the list, head to tail. */
  function Elements(s: ListState): seq<Value>
  {
    Chain(s.head)
  }

  /** The class invariant every public operation keeps. */
  ghost predicate Valid(s: ListState)
  {
    && s.count == |Elements(s)|
    && (s.head.Some? ==> s.lock.Some?)
    && (s.lock.Some? ==> OfKind(Elements(s), s.lock.value))
    && Sorted(s.order, Elements(s))
  }

  /** `new LinkedList($order)`: empty, unlocked, with the given order. */
  function New(order: Order): (s: ListState)
    ensures Valid(s)
    ensures s.order == order && s.lock.None? && Elements(s) == [] && s.count == 0
  {
    ListState(order, None, None, 0)
  }

  /** The type guard: locks the kind if unlocked, and rejects a value of the other kind. */
  function AssertType(s: ListState, v: Value): (r: Result<ListState, Error>)
    ensures r.Err? <==> s.lock.Some? && s.lock.value != KindOf(v)
    ensures r.Err? ==> r.error == TypeMismatch(KindOf(v), s.lock.value)
    ensures r.Ok? ==> r.value == s.(lock := Some(KindOf(v)))
  {
    if s.lock.None? then Ok(s.(lock := Some(KindOf(v))))
    else if s.lock.value != KindOf(v) then Err(TypeMismatch(KindOf(v), s.lock.value))
    else Ok(s)
  }

  /**
   * The walk of `addAsc`/`addDesc` from `current`: advance while the new value
   * lies past the successor, then link the new cell in after `current`.
   */
  function InsertAfter(o: Order, current: Node, v: Value): (r: Node)
    requires OfKind(Chain(current.next), KindOf(v))
    ensures Chain(Some(r)) ==
      [current.value] + InsertAt(Chain(current.next), FirstNotExceeded(o, Chain(current.next), v), v)
    decreases current
  {
    var t := Chain(current.next);
    assert current.next.Some? ==> t[0] == current.next.value.value;
    if current.next.Some? && Beyond(o, v, current.next.value.value) then
      var m := current.next.value;
      ChainOfCell(m);
      FirstNotExceededCons(o, t, v);
      InsertAtCons(t, FirstNotExceeded(o, Chain(m.next), v), v);
      var rest := InsertAfter(o, m, v);
      ChainOfPrepended(current.value, Some(rest));
      Node(current.value, Some(rest))
    else
      assert FirstNotExceeded(o, t, v) == 0;
      InsertAtFront(t, v);
      var cell := NewNode(v).(next := current.next);
      ChainOfPrepended(v, current.next);
      ChainOfPrepended(current.value, Some(cell));
      Node(current.value, Some(cell))
  }

  /** `addAsc`/`addDesc`: prepend when the new value does not lie past the head, else walk. */
  function AddOrdered(o: Order, head: Node, v: Value): (r: Node)
    requires OfKind(Chain(Some(head)), KindOf(v))
    ensures Chain(Some(r)) == InsertAt(Chain(Some(head)), FirstNotExceeded(o, Chain(Some(head)), v), v)
  {
    var c := Chain(Some(head));
    assert c[0] == head.value;
    if !Beyond(o, v, head.value) then
      NewNode(v).(next := Some(head))
    else
      assert c[1..] == Chain(head.next);
      InsertAtCons(c, FirstNotExceeded(o, c[1..], v), v);
      InsertAfter(o, head, v)
  }

  /**
   * `add`: type-check, then splice the value in before the first element it
   * does not lie past; the counter grows by one.
   */
  function Add(s: ListState, v: Value): (r: Result<ListState, Error>)
    requires Valid(s)
    ensures r.Err? <==> s.lock.Some? && s.lock.value != KindOf(v)
    ensures r.Err? ==> r.error == TypeMismatch(KindOf(v), s.lock.value)
    ensures r.Ok? ==> Valid(r.value)
    ensures r.Ok? ==> r.value.order == s.order && r.value.lock == Some(KindOf(v))
    ensures r.Ok? ==> r.value.count == s.count + 1
    ensures r.Ok? ==>
      Elements(r.value) == InsertAt(Elements(s), FirstNotExceeded(s.order, Elements(s), v), v)
  {
    match AssertType(s, v)
    case Err(e) => Err(e)
    case Ok(s1) =>
      InsertAtKeepsSorted(s.order, Elements(s), v);
      var node := NewNode(v);
      if s1.head.None? then
        Ok(s1.(head := Some(node), count := s1.count + 1))
      else
        Ok(s1.(head := Some(AddOrdered(s1.order, s1.head.value, v)), count := s1.count + 1))
  }

  /** `containsAsc`/`containsDesc` from `current`: stop on a match, or as soon as the element lies past the target. */
  function ContainsFrom(o: Order, current: Option<Node>, v: Value): (b: bool)
    requires OfKind(Chain(current), KindOf(v))
    ensures b ==> v in Chain(current)
    ensures Sorted(o, Chain(current)) ==> (b <==> v in Chain(current))
    decreases current
  {
    match current
    case None => false
    case Some(n) =>
      OfKindCons(n.value, Chain(n.next), KindOf(v));
      var result := Compare(n.value, v);
      if result == 0 then true
      else if Beyond(o, n.value, v) then
        SortedCons(o, n.value, Chain(n.next));
        false
      else
        SortedCons(o, n.value, Chain(n.next));
        ContainsFrom(o, n.next, v)
  }

  /** `contains`: false on an empty list before any type check, else type-check and walk. */
  function Contains(s: ListState, v: Value): (r: Result<(bool, ListState), Error>)
    requires Valid(s)
    ensures s.head.None? ==> r == Ok((false, s))
    ensures s.head.Some? ==> (r.Err? <==> s.lock.value != KindOf(v))
    ensures r.Err? ==> s.lock.Some? && r.error == TypeMismatch(KindOf(v), s.lock.value)
    ensures r.Ok? ==> r.value.1 == s
    ensures r.Ok? ==> (r.value.0 <==> v in Elements(s))
  {
    if s.head.None? then Ok((false, s))
    else
      match AssertType(s, v)
      case Err(e) => Err(e)
      case Ok(s1) => Ok((ContainsFrom(s1.order, s1.head, v), s1))
  }

  /**
   * `removeAsc`/`removeDesc` from `current`: advance while the successor is
   * strictly ahead of the target, then unlink whatever successor is there.
   */
  function UnlinkAfter(o: Order, current: Node, v: Value): (r: (bool, Node))
    requires OfKind(Chain(current.next), KindOf(v))
    ensures var t := Chain(current.next);
      var q := FirstNotBefore(o, t, v);
      && (r.0 <==> q < |t|)
      && Chain(Some(r.1)) == [current.value] + (if q < |t| then RemoveAt(t, q) else t)
    decreases current
  {
    match current.next
    case None => (false, current)
    case Some(m) =>
      var t := Chain(Some(m));
      ChainOfCell(m);
      if Before(o, m.value, v) then
        FirstNotBeforeCons(o, t, v);
        var r' := UnlinkAfter(o, m, v);
        RemoveBehindHead(t, FirstNotBefore(o, Chain(m.next), v), r'.0, Chain(Some(r'.1)));
        ChainOfPrepended(current.value, Some(r'.1));
        (r'.0, Node(current.value, Some(r'.1)))
      else
        assert FirstNotBefore(o, t, v) == 0;
        RemoveAtFront(t);
        ChainOfPrepended(current.value, m.next);
        (true, Node(current.value, m.next))
  }

  /** The index of the element `removeByValue` unlinks: the head if it matches, else where the walk stops. */
  ghost function RemovalIndex(o: Order, c: seq<Value>, v: Value): (q: nat)
    requires |c| > 0 && OfKind(c, KindOf(v))
    ensures q <= |c|
  {
    if c[0] == v then 0 else 1 + FirstNotBefore(o, c[1..], v)
  }

  /** The unlinking part of `removeByValue` on a non-empty chain: the head if it matches, else the ordered walk. */
  function UnlinkFromHead(o: Order, head: Node, v: Value): (r: (bool, Option<Node>))
    requires OfKind(Chain(Some(head)), KindOf(v))
    ensures var c := Chain(Some(head));
      var q := RemovalIndex(o, c, v);
      && (r.0 <==> q < |c|)
      && Chain(r.1) == (if q < |c| then RemoveAt(c, q) else c)
  {
    var c := Chain(Some(head));
    assert c[0] == head.value && c[1..] == Chain(head.next);
    if Compare(head.value, v) == 0 then
      assert RemovalIndex(o, c, v) == 0 && RemoveAt(c, 0) == c[1..];
      (true, head.next)
    else
      var q := FirstNotBefore(o, Chain(head.next), v);
      assert RemovalIndex(o, c, v) == q + 1;
      var (removed, head') := UnlinkAfter(o, head, v);
      RemoveBehindHead(c, q, removed, Chain(Some(head')));
      (removed, Some(head'))
  }

  /**
   * `removeByValue`: false on an empty list before any type check; else
   * type-check, then unlink the matching head or the element the walk stops
   * at, if any; the counter drops by one exactly when something was unlinked.
   */
  function RemoveByValue(s: ListState, v: Value): (r: Result<(bool, ListState), Error>)
    requires Valid(s)
    ensures s.head.None? ==> r == Ok((false, s))
    ensures s.head.Some? ==> (r.Err? <==> s.lock.value != KindOf(v))
    ensures r.Err? ==> s.lock.Some? && r.error == TypeMismatch(KindOf(v), s.lock.value)
    ensures r.Ok? ==> Valid(r.value.1)
    ensures r.Ok? ==> r.value.1.order == s.order && r.value.1.lock == s.lock
    ensures r.Ok? && !r.value.0 ==> r.value.1 == s
    ensures r.Ok? && r.value.0 ==> r.value.1.count == s.count - 1
    ensures r.Ok? && s.head.Some? ==>
      var c := Elements(s);
      var q := RemovalIndex(s.order, c, v);
      && (r.value.0 <==> q < |c|)
      && (r.value.0 ==> Elements(r.value.1) == RemoveAt(c, q))
  {
    if s.head.None? then Ok((false, s))
    else
      match AssertType(s, v)
      case Err(e) => Err(e)
      case Ok(s1) =>
        var (removed, head') := UnlinkFromHead(s1.order, s1.head.value, v);
        if removed then
          RemoveAtKeepsSorted(s.order, Elements(s), RemovalIndex(s.order, Elements(s), v), KindOf(v));
          Ok((true, s1.(head := head', count := s1.count - 1)))
        else
          Ok((false, s1))
  }

  /** `first`: the head's value, or `EmptyList`. */
  function First(s: ListState): (r: Result<Value, Error>)
    ensures r.Err? <==> Elements(s) == []
    ensures r.Err? ==> r.error == EmptyList
    ensures r.Ok? ==> r.value == Elements(s)[0]
  {
    match s.head
    case None => Err(EmptyList)
    case Some(n) => Ok(n.value)
  }

  /** The walk of `last`: follow `next` until it is null. */
  function LastFrom(current: Node): (v: Value)
    ensures v == Chain(Some(current))[|Chain(Some(current))| - 1]
    decreases current
  {
    match current.next
    case None => current.value
    case Some(m) => LastFrom(m)
  }

  /** `last`: the final value, or `EmptyList`. */
  function Last(s: ListState): (r: Result<Value, Error>)
    ensures r.Err? <==> Elements(s) == []
    ensures r.Err? ==> r.error == EmptyList
    ensures r.Ok? ==> r.value == Elements(s)[|Elements(s)| - 1]
  {
    match s.head
    case None => Err(EmptyList)
    case Some(n) => Ok(LastFrom(n))
  }

  /** `count`: the maintained counter, which is the number of cells in the chain. */
  function Count(s: ListState): (n: int)
    requires Valid(s)
    ensures n == |Elements(s)|
  {
    s.count
  }

  /** `toArray`: walk the chain from the head, appending each value. */
  method ToArray(s: ListState) returns (result: seq<Value>)
    ensures result == Elements(s)
  {
    result := [];
    var current := s.head;
    while current.Some?
      invariant result + Chain(current) == Elements(s)
      decreases current
    {
      result := result + [current.value.value];
      current := current.value.next;
    }
  }

  /** A suspended `getIterator` walk: the cell the next pull will yield, if any. */
  datatype Cursor = Cursor(current: Option<Node>)

  /** A fresh iteration starts at the head. */
  function Iterate(s: ListState): (c: Cursor)
    ensures Chain(c.current) == Elements(s)
  {
    Cursor(s.head)
  }

  /** One pull: yield the current value and step to its successor, or finish. */
  function Pull(c: Cursor): (r: Option<(Value, Cursor)>)
    ensures r.None? <==> c.current.None?
    ensures r.Some? ==> c.current.Some? && r.value.0 == c.current.value.value
    ensures r.Some? ==> Chain(c.current) == [r.value.0] + Chain(r.value.1.current)
  {
    match c.current
    case None => None
    case Some(n) => Some((n.value, Cursor(n.next)))
  }

  /** Everything a cursor yields when pulled until it finishes. */
  function Drain(c: Cursor): (r: seq<Value>)
    ensures r == Chain(c.current)
    decreases c.current
  {
    match Pull(c)
    case None => []
    case Some((v, c')) => [v] + Drain(c')
  }
}
