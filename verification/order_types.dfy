/** The sort direction of a list: an int-backed enum with two cases. */
module OrderTypes {
  import opened Wrappers

  /** Ascending or descending; a list's order is fixed when it is built. */
  datatype Order = Asc | Desc

  /** The enum's backing value (ASC = 1, DESC = 2); mapping it back gives the same case. */
  function BackingValue(o: Order): (b: int)
    ensures 1 <= b <= 2
    ensures FromBackingValue(b) == Some(o)
  {
    match o
    case Asc => 1
    case Desc => 2
  }

  /** The case whose backing value is `b`, if there is one (PHP's `tryFrom`). */
  function FromBackingValue(b: int): (r: Option<Order>)
    ensures r.None? <==> b != 1 && b != 2
  {
    if b == 1 then Some(Asc)
    else if b == 2 then Some(Desc)
    else None
  }

  /** Every integer that names a case is that case's backing value. */
  lemma FromBackingValueRoundTrip(b: int)
    requires FromBackingValue(b).Some?
    ensures BackingValue(FromBackingValue(b).value) == b
  {
  }
}
