/** The chain cell of the list and the sequence of values a chain of cells spells out. */
module Nodes {
  import opened Wrappers
  import opened Values

  /** One cell: an int-or-string payload and a successor that is either null or another cell. */
  datatype Node = Node(value: Value, next: Option<Node>)

  /** `new Node($value)`: the cell holds exactly the given value and has no successor yet. */
  function NewNode(v: Value): (n: Node)
    ensures n.value == v
    ensures n.next.None?
    ensures Chain(Some(n)) == [v]
  {
    Node(v, None)
  }

  /** The values met by following `next` from `h` up to the terminating null. */
  function Chain(h: Option<Node>): seq<Value>
    decreases h
  {
    match h
    case None => []
    case Some(n) => [n.value] + Chain(n.next)
  }

  /** A chain starting at `m` is `m`'s value followed by the chain of its successor. */
  lemma ChainOfCell(m: Node)
    ensures |Chain(Some(m))| > 0
    ensures Chain(Some(m))[0] == m.value && Chain(Some(m))[1..] == Chain(m.next)
  {
  }

  /** Putting a cell with value `x` in front of `rest` puts `x` in front of its chain. */
  lemma ChainOfPrepended(x: Value, rest: Option<Node>)
    ensures Chain(Some(Node(x, rest))) == [x] + Chain(rest)
  {
  }

  /** The chain of cells that spells out `c`; every finite sequence has one. */
  function Link(c: seq<Value>): (h: Option<Node>)
    ensures Chain(h) == c
  {
    if |c| == 0 then None
    else Some(Node(c[0], Link(c[1..])))
  }

  /** A chain of cells is determined by the values it spells out. */
  lemma {:induction false} LinkChain(h: Option<Node>)
    ensures Link(Chain(h)) == h
    decreases h
  {
    match h
    case None =>
    case Some(n) =>
      LinkChain(n.next);
      assert Chain(h)[1..] == Chain(n.next);
  }
}
